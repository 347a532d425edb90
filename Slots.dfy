/** The hourly slots offered for a date, the ones still free on a date, and
    the 12-hour label shown for a stored time in the bookings listing. */
module Slots {
  import opened Digits
  import opened Calendar
  import opened Bookings

  /** `f"{hour:02d}:00"`: the hour in two digits, then ":00". */
  function SlotName(hour: nat): (s: string)
    requires hour < 100
    ensures |s| == 5 && s[2] == ':' && AllDigits(s[..2]) && Value(s[..2]) == hour
  {
    var s := [DigitChar(hour / 10), DigitChar(hour % 10)] + ":00";
    ValueOfTwo(s[..2]);
    s
  }

  /** `[f"{hour:02d}:00" for hour in range(lo, hi)]`. */
  function SlotRange(lo: nat, hi: nat): (r: seq<string>)
    requires lo <= hi <= 100
    ensures |r| == hi - lo
    ensures forall i :: 0 <= i < |r| ==> r[i] == SlotName(lo + i)
  {
    seq(hi - lo, i requires 0 <= i < hi - lo => SlotName(lo + i))
  }

  /** The nine slots of a working day, 9 AM to 5 PM. */
  function AllHours(): seq<string> {
    SlotRange(9, 18)
  }

  lemma SlotNameSpelled(hour: nat, tens: char, ones: char)
    requires hour < 100 && tens == DigitChar(hour / 10) && ones == DigitChar(hour % 10)
    ensures SlotName(hour) == [tens, ones, ':', '0', '0']
  {
  }

  lemma AllHoursSpelledOut()
    ensures AllHours() == ["09:00", "10:00", "11:00", "12:00", "13:00", "14:00", "15:00", "16:00", "17:00"]
  {
    var h := AllHours();
    var e := ["09:00", "10:00", "11:00", "12:00", "13:00", "14:00", "15:00", "16:00", "17:00"];
    forall i | 0 <= i < 9 ensures h[i] == e[i] {
      SlotNameSpelled(9 + i, DigitChar((9 + i) / 10), DigitChar((9 + i) % 10));
    }
  }

  // ---------------------------------------------------------------------
  // Available times

  /** The `time` of every row whose `date` string is exactly `date`. */
  function BookedTimes(t: Table, date: string): set<string> {
    set id | id in t && t[id].date == date :: t[id].time
  }

  /** `s` is `full` with some elements dropped and the rest in order. */
  predicate IsSubsequence<T(==)>(s: seq<T>, full: seq<T>)
    decreases |full|
  {
    if full == [] then s == []
    else
      || (s != [] && s[0] == full[0] && IsSubsequence(s[1..], full[1..]))
      || IsSubsequence(s, full[1..])
  }

  /** `[t for t in hours if t not in booked]`. */
  function Unbooked(hours: seq<string>, booked: set<string>): (r: seq<string>)
    ensures forall x :: x in r <==> x in hours && x !in booked
    ensures IsSubsequence(r, hours)
  {
    if hours == [] then []
    else
      var rest := Unbooked(hours[1..], booked);
      if hours[0] in booked then
        rest
      else
        assert ([hours[0]] + rest)[1..] == rest;
        [hours[0]] + rest
  }

  lemma {:induction false} SubsequenceLength<T>(s: seq<T>, full: seq<T>)
    requires IsSubsequence(s, full)
    ensures |s| <= |full|
    decreases |full|
  {
    if full != [] {
      if s != [] && s[0] == full[0] && IsSubsequence(s[1..], full[1..]) {
        SubsequenceLength(s[1..], full[1..]);
      } else {
        SubsequenceLength(s, full[1..]);
      }
    }
  }

  /** The `available_times` answer for a date string: the working-day slots,
      in order, that no row holds on that exact date string. The date is
      not validated. */
  function AvailableTimes(t: Table, date: string): (r: seq<string>)
    ensures forall x :: x in r <==> x in AllHours() && !Occupied(t, date, x, None)
    ensures IsSubsequence(r, AllHours()) && |r| <= 9
  {
    var booked := BookedTimes(t, date);
    var r := Unbooked(AllHours(), booked);
    SubsequenceLength(r, AllHours());
    BookedIffOccupied(t, date);
    r
  }

  lemma BookedIffOccupied(t: Table, date: string)
    ensures forall x :: x in BookedTimes(t, date) <==> Occupied(t, date, x, None)
  {
    forall x | Occupied(t, date, x, None) ensures x in BookedTimes(t, date) {
      var id :| id in t && None != Some(id) && t[id].date == date && t[id].time == x;
      assert t[id].time in BookedTimes(t, date);
    }
  }

  /** A slot freed by deleting the only row that held it shows as available
      again. */
  lemma AvailableAfterDelete(t: Table, id: int)
    requires SlotsUnique(t) && id in t && t[id].time in AllHours()
    ensures t[id].time in AvailableTimes(t - {id}, t[id].date)
  {
  }

  /** A slot just booked is no longer offered for that date. */
  lemma TakenAfterCreate(t: Table, id: int, b: Booking)
    ensures b.time !in AvailableTimes(t[id := b], b.date)
  {
    assert t[id := b][id] == b;
  }

  // ---------------------------------------------------------------------
  // 12-hour display

  /** `time.split(":")[0]`: everything before the first colon. */
  function HourField(time: string): (p: string)
    ensures |p| <= |time| && p == time[..|p|]
    ensures ':' !in p
    ensures |p| < |time| ==> time[|p|] == ':'
  {
    if time == [] || time[0] == ':' then []
    else [time[0]] + HourField(time[1..])
  }

  /** The 12-hour label for an hour as the listing shows it. */
  function ClockLabel(hour: nat): (s: string)
    ensures |s| >= 4 && s[|s| - 3] == ' ' && s[|s| - 1] == 'M'
    ensures s[|s| - 2] == 'A' <==> hour < 12
    ensures s[|s| - 3..] == (if hour < 12 then " AM" else " PM")
    ensures s[..|s| - 3] == Decimal(if hour == 0 || hour == 12 then 12 else if hour < 12 then hour else hour - 12)
  {
    if hour == 0 then "12 AM"
    else if hour < 12 then Decimal(hour) + " AM"
    else if hour == 12 then "12 PM"
    else Decimal(hour - 12) + " PM"
  }

  /** The label shown for a stored time: the 12-hour label of the number
      before the first colon, or the stored string itself when that prefix
      is not a number. */
  function TimeDisplay(time: string): (s: string)
    ensures HourField(time) == [] || !AllDigits(HourField(time)) ==> s == time
  {
    var p := HourField(time);
    if p != [] && AllDigits(p) then ClockLabel(Value(p)) else time
  }

  /** A time whose text before the first colon is a digit string is shown
      with the label of that number, whatever follows the colon and whether
      or not the hour is one of the offered slots ("9:30" as "9 AM", "25:00"
      as "13 PM"); a time without a colon is read whole. */
  lemma DigitPrefixDisplay(p: string, rest: string)
    requires p != [] && AllDigits(p)
    ensures TimeDisplay(p + ":" + rest) == ClockLabel(Value(p))
    ensures TimeDisplay(p) == ClockLabel(Value(p))
  {
    HourFieldOfColonFree(p, ":" + rest);
    HourFieldOfColonFree(p, []);
    assert p + ":" + rest == p + (":" + rest);
    assert p + [] == p;
  }

  /** `split(":")[0]` of a colon-free prefix followed by a colon or nothing. */
  lemma {:induction false} HourFieldOfColonFree(p: string, tail: string)
    requires ':' !in p && (tail == [] || tail[0] == ':')
    ensures HourField(p + tail) == p
    decreases |p|
  {
    if p != [] {
      assert (p + tail)[0] == p[0] && (p + tail)[1..] == p[1..] + tail;
      HourFieldOfColonFree(p[1..], tail);
      assert p == [p[0]] + p[1..];
    } else {
      assert p + tail == tail;
    }
  }

  /** Reads a 12-hour label back as an hour of the day: "12 AM" is 0,
      "h AM" is h, "12 PM" is 12 and "h PM" is h + 12. */
  function ReadClockLabel(s: string): Option<nat> {
    if |s| >= 4 && s[|s| - 3..] in {" AM", " PM"} && s[..|s| - 3] != [] && AllDigits(s[..|s| - 3]) then
      var h := Value(s[..|s| - 3]);
      if h < 1 || h > 12 then None
      else if s[|s| - 3..] == " AM" then Some(h % 12)
      else Some(h % 12 + 12)
    else None
  }

  /** Every hour of the day is recovered from its label, so the listing
      shows distinct hours with distinct labels. */
  lemma ClockLabelRoundTrip(hour: nat)
    requires hour < 24
    ensures ReadClockLabel(ClockLabel(hour)) == Some(hour)
  {
    var s := ClockLabel(hour);
    var n := |s|;
    if hour == 0 || hour == 12 {
      assert s[..n - 3] == "12";
      assert Value("12") == 12 by { assert "12"[..1] == "1"; }
    } else if hour < 12 {
      assert s[..n - 3] == Decimal(hour);
      assert s[n - 3..] == " AM";
    } else {
      assert s[..n - 3] == Decimal(hour - 12);
      assert s[n - 3..] == " PM";
    }
  }

  /** Each offered slot is listed with the label of its hour: "09:00" as
      "9 AM" through "17:00" as "5 PM". */
  lemma SlotDisplay(hour: nat)
    requires hour < 100
    ensures TimeDisplay(SlotName(hour)) == ClockLabel(hour)
  {
    var s := SlotName(hour);
    assert HourField(s) == s[..2];
  }
}
