/** The in-memory appointment store: a map from the visitor's email to the
    ordered list of that visitor's bookings, with the four request handlers
    that use it (book, fetch upcoming, reschedule, cancel). Each handler is a
    function from the request, the current store and the clock to the reply
    and the next store. */
module Appointments {
  import opened Optional
  import Catalogue

  datatype Status = Confirmed

  datatype Appointment = Appointment(
    id: string,
    name: string,
    email: string,
    phone: string,
    service: string,          // the service's name, copied at booking time
    date: string,             // as the client sent it
    time: string,             // as the client sent it
    duration: nat,            // minutes, copied from the service
    status: Status,
    createdAt: int,           // the clock at booking time
    updatedAt: Option<int>)   // the clock at the last reschedule, if any

  type Store = map<string, seq<Appointment>>

  /** Why a request failed; `HttpStatus` is the status code of the reply. */
  datatype Failure = MissingFields | ServiceNotFound | AppointmentNotFound
  {
    function HttpStatus(): int
    {
      match this
      case MissingFields => 400
      case _ => 404
    }
  }

  datatype Result<T> = Ok(value: T) | Err(failure: Failure)

  /** The reply of a handler together with the store after it. */
  datatype Response<T> = Response(result: Result<T>, store: Store)

  /** `appointments[email] || []`: the visitor's list, empty if never seen. */
  function ListOf(store: Store, email: string): seq<Appointment>
  {
    if email in store then store[email] else []
  }

  /** What every record in the store satisfies: it is filed under its own
      email, it is confirmed, and its service name and duration come from
      one catalogue entry. */
  ghost predicate Wellformed(store: Store)
  {
    forall email, a :: email in store && a in store[email] ==>
      a.email == email && a.status == Confirmed && Catalogue.Offers(a.service, a.duration)
  }

  /** Only `email`'s list may differ between the two stores. */
  ghost predicate OthersUnchanged(store: Store, store': Store, email: string)
  {
    && store'.Keys == store.Keys + {email}
    && forall e :: e in store && e != email ==> store'[e] == store[e]
  }

  /** Replacing one visitor's list by records that fit the invariant keeps it. */
  lemma ReplaceKeepsWellformed(store: Store, email: string, list: seq<Appointment>)
    requires Wellformed(store)
    requires forall a :: a in list ==>
      a.email == email && a.status == Confirmed && Catalogue.Offers(a.service, a.duration)
    ensures Wellformed(store[email := list])
  {
  }

  /* ---------------- book ---------------- */

  /** The body of `POST /api/appointments/book`. Strings stand for the
      fields; the empty string is the missing or empty (falsy) field.
      `serviceId` is the number the id field compares loosely equal to. */
  datatype BookRequest = BookRequest(
    name: string, email: string, phone: string,
    serviceId: Option<int>, date: string, time: string)

  predicate Complete(req: BookRequest)
  {
    && req.name != "" && req.email != "" && req.phone != ""
    && req.serviceId.Some? && req.serviceId.value != 0
    && req.date != "" && req.time != ""
  }

  /** Books an appointment. `id` is the booking id the clock yields
      (`Date.now().toString()`), `now` the creation time. */
  function Book(store: Store, req: BookRequest, id: string, now: int): (r: Response<Appointment>)
    // a missing field is reported first, with status 400
    ensures !Complete(req) ==> r == Response(Err(MissingFields), store)
    // then an unknown service, with status 404
    ensures Complete(req) && Catalogue.Find(req.serviceId.value).None? ==>
      r == Response(Err(ServiceNotFound), store)
    // otherwise exactly one record is appended to the visitor's list ...
    ensures Complete(req) && Catalogue.Find(req.serviceId.value).Some? ==>
      && r.result.Ok?
      && req.email in r.store
      && r.store[req.email] == ListOf(store, req.email) + [r.result.value]
      && OthersUnchanged(store, r.store, req.email)
    // ... holding the request's fields and the service's name and duration
    ensures r.result.Ok? ==>
      var a := r.result.value;
      var s := Catalogue.Find(req.serviceId.value).value;
      && Complete(req) && Catalogue.Find(req.serviceId.value).Some?
      && a.id == id && a.name == req.name && a.email == req.email && a.phone == req.phone
      && a.date == req.date && a.time == req.time
      && a.service == s.name && a.duration == s.duration
      && a.status == Confirmed && a.createdAt == now && a.updatedAt == None
    ensures Wellformed(store) ==> Wellformed(r.store)
  {
    if !Complete(req) then
      Response(Err(MissingFields), store)
    else
      match Catalogue.Find(req.serviceId.value)
      case None => Response(Err(ServiceNotFound), store)
      case Some(s) =>
        var a := Appointment(id, req.name, req.email, req.phone, s.name,
                             req.date, req.time, s.duration, Confirmed, now, None);
        Response(Ok(a), store[req.email := ListOf(store, req.email) + [a]])
  }

  /* ---------------- fetch ---------------- */

  /** The record's date is strictly after `now`. `parse` is how the runtime
      reads a date string (`new Date(...)`); an unreadable date is never
      upcoming, since comparing an invalid date is false. */
  predicate IsUpcoming(a: Appointment, now: int, parse: string -> Option<int>)
  {
    parse(a.date).Some? && parse(a.date).value > now
  }

  /** `r` can be obtained from `s` by deleting elements: the elements of `r`
      occur in `s` in the same order. */
  ghost predicate IsSubsequence<T>(r: seq<T>, s: seq<T>)
    decreases |s|
  {
    if r == [] then true
    else if s == [] then false
    else (r[0] == s[0] && IsSubsequence(r[1..], s[1..])) || IsSubsequence(r, s[1..])
  }

  /** `list.filter(upcoming)`. */
  function Upcoming(list: seq<Appointment>, now: int, parse: string -> Option<int>): (r: seq<Appointment>)
    ensures IsSubsequence(r, list)
    ensures forall a :: a in r <==> a in list && IsUpcoming(a, now, parse)
    ensures forall a :: multiset(r)[a] == if IsUpcoming(a, now, parse) then multiset(list)[a] else 0
  {
    if list == [] then []
    else
      var rest := Upcoming(list[1..], now, parse);
      assert list == [list[0]] + list[1..];
      if IsUpcoming(list[0], now, parse) then
        assert ([list[0]] + rest)[1..] == rest;
        [list[0]] + rest
      else
        rest
  }

  /** The body of `POST /api/appointments/fetch`: the visitor's upcoming
      appointments in booking order. The store is only read. */
  function Fetch(store: Store, email: string, now: int, parse: string -> Option<int>): (r: seq<Appointment>)
    ensures IsSubsequence(r, ListOf(store, email))
    ensures forall a :: a in r <==> a in ListOf(store, email) && IsUpcoming(a, now, parse)
    ensures forall a :: multiset(r)[a] == if IsUpcoming(a, now, parse) then multiset(ListOf(store, email))[a] else 0
    ensures email !in store ==> r == []
  {
    Upcoming(ListOf(store, email), now, parse)
  }

  /** Filtering distributes over concatenation: it keeps the order of the
      two halves. */
  lemma {:induction false} UpcomingAppend(xs: seq<Appointment>, ys: seq<Appointment>, now: int, parse: string -> Option<int>)
    ensures Upcoming(xs + ys, now, parse) == Upcoming(xs, now, parse) + Upcoming(ys, now, parse)
  {
    if xs == [] {
      assert xs + ys == ys;
    } else {
      assert (xs + ys)[1..] == xs[1..] + ys;
      assert (xs + ys)[0] == xs[0];
      UpcomingAppend(xs[1..], ys, now, parse);
    }
  }

  /** A new booking shows up at the end of the visitor's upcoming list
      exactly when its date is upcoming; nobody else's list changes. */
  lemma BookThenFetch(store: Store, req: BookRequest, id: string, now: int,
                      later: int, parse: string -> Option<int>, email: string)
    requires Book(store, req, id, now).result.Ok?
    ensures var r := Book(store, req, id, now);
      Fetch(r.store, email, later, parse) ==
        if email == req.email && IsUpcoming(r.result.value, later, parse)
        then Fetch(store, email, later, parse) + [r.result.value]
        else Fetch(store, email, later, parse)
  {
    var r := Book(store, req, id, now);
    if email == req.email {
      UpcomingAppend(ListOf(store, email), [r.result.value], later, parse);
    }
  }

  /* ---------------- reschedule and cancel ---------------- */

  /** Some record in the list has this id. */
  ghost predicate HasId(list: seq<Appointment>, id: string)
  {
    exists i :: 0 <= i < |list| && list[i].id == id
  }

  /** Position of the first record with this id (`find` / `findIndex` with `===`). */
  function FirstIndex(list: seq<Appointment>, id: string): (r: Option<nat>)
    ensures r.None? <==> !HasId(list, id)
    ensures r.Some? ==> r.value < |list| && list[r.value].id == id
    ensures r.Some? ==> forall j :: 0 <= j < r.value ==> list[j].id != id
  {
    if list == [] then None
    else if list[0].id == id then Some(0)
    else
      match FirstIndex(list[1..], id)
      case None =>
        assert !HasId(list, id) by {
          forall i | 0 <= i < |list| ensures list[i].id != id {
            if i > 0 { assert list[i] == list[1..][i - 1]; }
          }
        }
        None
      case Some(k) => Some(k + 1)
  }

  /** The record with a new date and time, stamped with the update time. */
  function Rescheduled(a: Appointment, date: string, time: string, now: int): (b: Appointment)
    ensures b.id == a.id && b.name == a.name && b.email == a.email && b.phone == a.phone
    ensures b.service == a.service && b.duration == a.duration && b.status == a.status
    ensures b.createdAt == a.createdAt
    ensures b.date == date && b.time == time && b.updatedAt == Some(now)
  {
    a.(date := date, time := time, updatedAt := Some(now))
  }

  /** The body of `POST /api/appointments/update`. */
  function Update(store: Store, id: string, email: string, newDate: string, newTime: string, now: int)
    : (r: Response<()>)
    ensures !HasId(ListOf(store, email), id) ==> r == Response(Err(AppointmentNotFound), store)
    ensures HasId(ListOf(store, email), id) ==>
      var list := store[email];
      var i := FirstIndex(list, id).value;
      && r.result == Ok(())
      && email in store
      && OthersUnchanged(store, r.store, email)
      && |r.store[email]| == |list|
      && (forall j :: 0 <= j < |list| && j != i ==> r.store[email][j] == list[j])
      && r.store[email][i] == Rescheduled(list[i], newDate, newTime, now)
    ensures Wellformed(store) ==> Wellformed(r.store)
  {
    var list := ListOf(store, email);
    match FirstIndex(list, id)
    case None => Response(Err(AppointmentNotFound), store)
    case Some(i) =>
      var list' := list[i := Rescheduled(list[i], newDate, newTime, now)];
      assert Wellformed(store) ==> Wellformed(store[email := list']) by {
        if Wellformed(store) {
          forall a | a in list'
            ensures a.email == email && a.status == Confirmed && Catalogue.Offers(a.service, a.duration)
          {
            var j :| 0 <= j < |list'| && list'[j] == a;
            assert list[j] in store[email];
          }
          ReplaceKeepsWellformed(store, email, list');
        }
      }
      Response(Ok(()), store[email := list'])
  }

  /** Facts about deleting position i (`splice(i, 1)`). */
  lemma RemoveAt(list: seq<Appointment>, i: nat)
    requires i < |list|
    ensures |list[..i] + list[i + 1..]| == |list| - 1
    ensures multiset(list[..i] + list[i + 1..]) + multiset{list[i]} == multiset(list)
    ensures forall a :: a in list[..i] + list[i + 1..] ==> a in list
  {
    assert list == list[..i] + [list[i]] + list[i + 1..];
  }

  /** The body of `POST /api/appointments/cancel`. On success the removed
      record is returned (it is what the cancellation notice describes). */
  function Cancel(store: Store, id: string, email: string): (r: Response<Appointment>)
    ensures !HasId(ListOf(store, email), id) ==> r == Response(Err(AppointmentNotFound), store)
    ensures HasId(ListOf(store, email), id) ==>
      var list := store[email];
      var i := FirstIndex(list, id).value;
      && r.result == Ok(list[i])
      && email in store
      && OthersUnchanged(store, r.store, email)
      && r.store[email] == list[..i] + list[i + 1..]
      && |r.store[email]| == |list| - 1
      && multiset(r.store[email]) + multiset{list[i]} == multiset(list)
    ensures Wellformed(store) ==> Wellformed(r.store)
  {
    var list := ListOf(store, email);
    match FirstIndex(list, id)
    case None => Response(Err(AppointmentNotFound), store)
    case Some(i) =>
      var list' := list[..i] + list[i + 1..];
      RemoveAt(list, i);
      assert Wellformed(store) ==> Wellformed(store[email := list']) by {
        if Wellformed(store) {
          ReplaceKeepsWellformed(store, email, list');
        }
      }
      Response(Ok(list[i]), store[email := list'])
  }

  /** A record appended under a fresh id is the first match for that id,
      and removing it gives back the original list. */
  lemma {:induction false} FindAppended(list: seq<Appointment>, a: Appointment)
    requires !HasId(list, a.id)
    ensures FirstIndex(list + [a], a.id) == Some(|list|)
    ensures (list + [a])[..|list|] + (list + [a])[|list| + 1..] == list
  {
    var list' := list + [a];
    assert list'[|list|].id == a.id;
    assert forall j :: 0 <= j < |list| ==> list'[j] == list[j] && list[j].id != a.id;
    assert (list + [a])[..|list|] == list;
    assert (list + [a])[|list| + 1..] == [];
  }

  /** Booking with an id the visitor's list does not hold yet and then
      cancelling that id gives back every visitor's list as it was (a
      visitor seen for the first time keeps an empty list). */
  lemma BookThenCancel(store: Store, req: BookRequest, id: string, now: int, email: string)
    requires Book(store, req, id, now).result.Ok?
    requires !HasId(ListOf(store, req.email), id)
    ensures var booked := Book(store, req, id, now);
      var cancelled := Cancel(booked.store, id, req.email);
      && cancelled.result == Ok(booked.result.value)
      && ListOf(cancelled.store, email) == ListOf(store, email)
  {
    var booked := Book(store, req, id, now);
    var a := booked.result.value;
    FindAppended(ListOf(store, req.email), a);
  }

  /** Rescheduling twice to the same date and time at the same moment is
      the same as rescheduling once. */
  lemma UpdateIdempotent(store: Store, id: string, email: string, newDate: string, newTime: string, now: int)
    ensures var once := Update(store, id, email, newDate, newTime, now);
      Update(once.store, id, email, newDate, newTime, now) == once
  {
    var once := Update(store, id, email, newDate, newTime, now);
    if HasId(ListOf(store, email), id) {
      var list := store[email];
      var i := FirstIndex(list, id).value;
      var list' := once.store[email];
      assert list' == list[i := Rescheduled(list[i], newDate, newTime, now)];
      assert FirstIndex(list', id) == Some(i) by {
        assert list'[i].id == id;
        assert forall j :: 0 <= j < i ==> list'[j].id != id;
      }
      assert list'[i := Rescheduled(list'[i], newDate, newTime, now)] == list';
    }
  }
}
