/** The absent-or-present value used wherever the service reads a field
    that may be missing (a store entry, a parsed date, a catalogue lookup). */
module Optional {

  datatype Option<+T> = None | Some(value: T)
}
