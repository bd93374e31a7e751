/** The time-slot generator behind `POST /api/appointments/slots`: every
    half hour from the opening hour up to (not including) the closing hour,
    as zero-padded "HH:MM" strings. It ignores existing bookings. */
module Slots {
  import Text

  const StartHour: nat := 9
  const EndHour: nat := 17
  const Step: nat := 30

  /** `${String(hour).padStart(2, '0')}:${String(minute).padStart(2, '0')}` */
  function FormatTime(hour: nat, minute: nat): string
  {
    Text.PadStart(Text.Decimal(hour), 2, '0') + ":" + Text.PadStart(Text.Decimal(minute), 2, '0')
  }

  /** "HH:MM": two digits, a colon, and two digits naming a minute below 60. */
  predicate IsClockTime(s: string)
  {
    && |s| == 5 && Text.AllDigits(s[..2]) && s[2] == ':' && Text.AllDigits(s[3..])
    && Text.Value(s[3..]) < 60
  }

  /** Minutes after midnight that an "HH:MM" string denotes. */
  function ClockMinutes(s: string): nat
    requires IsClockTime(s)
  {
    60 * Text.Value(s[..2]) + Text.Value(s[3..])
  }

  /** For hours below 100 and minutes below 60 the format is "HH:MM" and reads back
      as the same time of day. */
  lemma FormatTimeReadsBack(hour: nat, minute: nat)
    requires hour < 100 && minute < 60
    ensures IsClockTime(FormatTime(hour, minute))
    ensures ClockMinutes(FormatTime(hour, minute)) == 60 * hour + minute
  {
    FormatTimeChars(hour, minute);
    var hh := [Text.DigitChar(hour / 10), Text.DigitChar(hour % 10)];
    var mm := [Text.DigitChar(minute / 10), Text.DigitChar(minute % 10)];
    var s := FormatTime(hour, minute);
    assert s[..2] == hh && s[3..] == mm;
    Text.ValueOfTwoDigits(hour / 10, hour % 10);
    Text.ValueOfTwoDigits(minute / 10, minute % 10);
  }

  /** The k-th slot of the day. */
  function SlotAt(k: nat): string
  {
    FormatTime(StartHour + k / 2, Step * (k % 2))
  }

  /** The first n slots of the day, in order. */
  function SlotsUpTo(n: nat): (r: seq<string>)
    ensures |r| == n
  {
    if n == 0 then [] else SlotsUpTo(n - 1) + [SlotAt(n - 1)]
  }

  lemma SlotsUpToStep(k: nat)
    ensures SlotsUpTo(k + 1) == SlotsUpTo(k) + [SlotAt(k)]
  {
  }

  lemma {:induction false} SlotsUpToIndex(n: nat, k: nat)
    requires k < n
    ensures SlotsUpTo(n)[k] == SlotAt(k)
  {
    if k < n - 1 {
      SlotsUpToIndex(n - 1, k);
    }
  }

  /** The inner loop of the handler: the slots of one hour. */
  method HourSlots(hour: nat) returns (times: seq<string>)
    ensures times == [FormatTime(hour, 0), FormatTime(hour, Step)]
  {
    times := [];
    var minute := 0;
    while minute < 60
      invariant minute == 0 || minute == 30 || minute == 60
      invariant |times| == minute / Step
      invariant forall j :: 0 <= j < |times| ==> times[j] == FormatTime(hour, Step * j)
    {
      times := times + [FormatTime(hour, minute)];
      minute := minute + Step;
    }
  }

  /** One more hour adds its two slots at the end. */
  lemma HourStep(hour: nat)
    requires StartHour <= hour
    ensures var k := 2 * (hour - StartHour);
      SlotsUpTo(k + 2) == SlotsUpTo(k) + [FormatTime(hour, 0), FormatTime(hour, Step)]
  {
    var k := 2 * (hour - StartHour);
    assert SlotAt(k) == FormatTime(hour, 0);
    assert SlotAt(k + 1) == FormatTime(hour, Step);
    SlotsUpToStep(k);
    SlotsUpToStep(k + 1);
  }

  /** The handler: the slot list, and the requested date echoed back. */
  method Generate(date: string) returns (slots: seq<string>, echoed: string)
    ensures slots == SlotsUpTo(16)
    ensures forall k :: 0 <= k < |slots| ==> IsClockTime(slots[k])
    ensures forall k :: 0 <= k < |slots| ==> ClockMinutes(slots[k]) == 9 * 60 + 30 * k
    ensures slots[0] == "09:00" && slots[15] == "16:30"
    ensures echoed == date
  {
    slots := [];
    var hour := StartHour;
    while hour < EndHour
      invariant StartHour <= hour <= EndHour
      invariant slots == SlotsUpTo(2 * (hour - StartHour))
    {
      var times := HourSlots(hour);
      HourStep(hour);
      slots := slots + times;
      hour := hour + 1;
    }
    SlotTable(slots);
    echoed := date;
  }

  /** What the sixteen slots of the day say as times of day. */
  lemma SlotTable(slots: seq<string>)
    requires slots == SlotsUpTo(16)
    ensures forall k :: 0 <= k < |slots| ==> IsClockTime(slots[k])
    ensures forall k :: 0 <= k < |slots| ==> ClockMinutes(slots[k]) == 9 * 60 + 30 * k
    ensures slots[0] == "09:00" && slots[15] == "16:30"
  {
    forall k | 0 <= k < |slots|
      ensures IsClockTime(slots[k]) && ClockMinutes(slots[k]) == 9 * 60 + 30 * k
    {
      SlotsUpToIndex(16, k);
      FormatTimeReadsBack(StartHour + k / 2, Step * (k % 2));
    }
    SlotsUpToIndex(16, 0);
    SlotsUpToIndex(16, 15);
    EndsOfDay();
  }

  /** The characters of a formatted time of day. */
  lemma FormatTimeChars(hour: nat, minute: nat)
    requires hour < 100 && minute < 100
    ensures FormatTime(hour, minute) ==
      [Text.DigitChar(hour / 10), Text.DigitChar(hour % 10), ':',
       Text.DigitChar(minute / 10), Text.DigitChar(minute % 10)]
  {
    Text.TwoDigits(hour);
    Text.TwoDigits(minute);
  }

  /** The first and last slots as text. */
  lemma EndsOfDay()
    ensures SlotAt(0) == "09:00" && SlotAt(15) == "16:30"
  {
    FormatTimeChars(9, 0);
    FormatTimeChars(16, 30);
  }

  /** Consecutive slots are exactly half an hour apart, so the list is
      strictly increasing and has no gaps. */
  lemma ConsecutiveSlots(k: nat)
    requires k + 1 < 16
    ensures IsClockTime(SlotAt(k)) && IsClockTime(SlotAt(k + 1))
    ensures ClockMinutes(SlotAt(k + 1)) == ClockMinutes(SlotAt(k)) + 30
  {
    FormatTimeReadsBack(StartHour + k / 2, Step * (k % 2));
    FormatTimeReadsBack(StartHour + (k + 1) / 2, Step * ((k + 1) % 2));
  }
}
