/** The booking table and the rules the request handlers apply to it before
    writing: the date policy (not in the past, Monday to Friday), the
    double-booking check on the raw `date` and `time` strings, and the order
    in which create and update report their failures. */
module Bookings {
  import opened Calendar

  /** One row of the `bookings` table without its id. `date` and `time` are
      kept as the strings that were submitted. */
  datatype Booking = Booking(name: string, service: string, date: string, time: string)

  /** The table: row id to row. */
  type Table = map<int, Booking>

  /** What a create, update or delete request ends in. The failures are the
      messages the handlers flash or return; `Forbidden` is the non-admin
      path, `StorageError` a commit that raised and was rolled back. */
  datatype Outcome =
    | Ok
    | MissingFields
    | InvalidDate
    | PastDate
    | Weekend
    | SlotTaken
    | NotFound
    | Forbidden
    | StorageError

  /** `name and service and date and time` in Python: every field non-empty
      (an absent form field is modelled as the empty string). */
  predicate AllPresent(b: Booking) {
    b.name != [] && b.service != [] && b.date != [] && b.time != []
  }

  // ---------------------------------------------------------------------
  // Date policy

  predicate IsPast(d: Date, today: Date) {
    Before(d, today)
  }

  predicate IsWeekend(d: Date)
    requires ValidDate(d)
  {
    Weekday(d) > 4
  }

  /** A date string a new booking may use: it parses, is not before
      `today` and falls on Monday to Friday. */
  predicate Bookable(date: string, today: Date) {
    match ParseDate(date)
    case None => false
    case Some(d) => !IsPast(d, today) && !IsWeekend(d)
  }

  /** Saturday (5) and Sunday (6) are never bookable. */
  lemma WeekendNeverBookable(date: string, today: Date)
    requires ParseDate(date).Some? && Weekday(ParseDate(date).value) in {5, 6}
    ensures !Bookable(date, today)
  {
  }

  // ---------------------------------------------------------------------
  // Slots

  /** Some row other than `except` holds exactly these `date` and `time`
      strings; `except` is `None` for a create. */
  predicate Occupied(t: Table, date: string, time: string, except: Option<int>) {
    exists id :: id in t && except != Some(id) && t[id].date == date && t[id].time == time
  }

  /** The table's invariant: no two rows share a (date, time) pair. */
  ghost predicate SlotsUnique(t: Table) {
    forall i, j :: i in t && j in t && i != j ==>
      t[i].date != t[j].date || t[i].time != t[j].time
  }

  // ---------------------------------------------------------------------
  // Decisions

  /** The answer of a create request (form and XHR paths alike) before
      anything is written. */
  function CreateDecision(t: Table, b: Booking, today: Date): (r: Outcome)
    ensures r == Ok <==> AllPresent(b) && Bookable(b.date, today) && !Occupied(t, b.date, b.time, None)
    ensures r == MissingFields <==> !AllPresent(b)
    ensures r == InvalidDate <==> AllPresent(b) && ParseDate(b.date).None?
    ensures r == PastDate ==> ParseDate(b.date).Some? && IsPast(ParseDate(b.date).value, today)
    ensures r == Weekend ==>
      ParseDate(b.date).Some? && !IsPast(ParseDate(b.date).value, today) && IsWeekend(ParseDate(b.date).value)
    ensures r == SlotTaken <==> AllPresent(b) && Bookable(b.date, today) && Occupied(t, b.date, b.time, None)
    ensures r in {Ok, MissingFields, InvalidDate, PastDate, Weekend, SlotTaken}
  {
    if !AllPresent(b) then MissingFields
    else match ParseDate(b.date)
      case None => InvalidDate
      case Some(d) =>
        if IsPast(d, today) then PastDate
        else if IsWeekend(d) then Weekend
        else if Occupied(t, b.date, b.time, None) then SlotTaken
        else Ok
  }

  /** The answer of an update request for row `id` before anything is
      written. There is no weekend rule here. */
  function UpdateDecision(t: Table, id: int, b: Booking, today: Date, isAdmin: bool): (r: Outcome)
    ensures r == Ok <==>
      isAdmin && id in t && AllPresent(b) && ParseDate(b.date).Some?
      && !IsPast(ParseDate(b.date).value, today) && !Occupied(t, b.date, b.time, Some(id))
    ensures r == Forbidden <==> !isAdmin
    ensures r == NotFound <==> isAdmin && id !in t
    ensures r == MissingFields <==> isAdmin && id in t && !AllPresent(b)
    ensures r == InvalidDate <==> isAdmin && id in t && AllPresent(b) && ParseDate(b.date).None?
    ensures r == PastDate <==>
      isAdmin && id in t && AllPresent(b) && ParseDate(b.date).Some? && IsPast(ParseDate(b.date).value, today)
    ensures r == SlotTaken <==>
      isAdmin && id in t && AllPresent(b) && ParseDate(b.date).Some?
      && !IsPast(ParseDate(b.date).value, today) && Occupied(t, b.date, b.time, Some(id))
    ensures r != Weekend && r != StorageError
  {
    if !isAdmin then Forbidden
    else if id !in t then NotFound
    else if !AllPresent(b) then MissingFields
    else match ParseDate(b.date)
      case None => InvalidDate
      case Some(d) =>
        if IsPast(d, today) then PastDate
        else if Occupied(t, b.date, b.time, Some(id)) then SlotTaken
        else Ok
  }

  /** The answer of a delete request for row `id`. */
  function DeleteDecision(t: Table, id: int, isAdmin: bool, commitFails: bool): (r: Outcome)
    ensures r == Ok <==> isAdmin && id in t && !commitFails
    ensures r == Forbidden <==> !isAdmin
    ensures r == NotFound <==> isAdmin && id !in t
    ensures r == StorageError <==> isAdmin && id in t && commitFails
  {
    if !isAdmin then Forbidden
    else if id !in t then NotFound
    else if commitFails then StorageError
    else Ok
  }

  // ---------------------------------------------------------------------
  // What the decisions guarantee about the table

  /** A create that is allowed keeps the slots unique once its row is
      inserted under an unused id. */
  lemma CreateKeepsSlotsUnique(t: Table, b: Booking, today: Date, id: int)
    requires SlotsUnique(t) && id !in t && CreateDecision(t, b, today) == Ok
    ensures SlotsUnique(t[id := b])
  {
    var t' := t[id := b];
    forall i, j | i in t' && j in t' && i != j
      ensures t'[i].date != t'[j].date || t'[i].time != t'[j].time
    {
      if i == id {
        assert !(t[j].date == b.date && t[j].time == b.time);
      } else if j == id {
        assert !(t[i].date == b.date && t[i].time == b.time);
      }
    }
  }

  /** Creating the same slot twice in a row: the second request is refused
      as taken, whatever its name and service. */
  lemma CreateTwiceRefused(t: Table, b: Booking, b': Booking, today: Date, id: int)
    requires id !in t && CreateDecision(t, b, today) == Ok
    requires AllPresent(b') && b'.date == b.date && b'.time == b.time
    ensures CreateDecision(t[id := b], b', today) == SlotTaken
  {
    assert t[id := b][id] == b;
  }

  /** An update that is allowed keeps the slots unique once row `id` is
      overwritten. */
  lemma UpdateKeepsSlotsUnique(t: Table, id: int, b: Booking, today: Date, isAdmin: bool)
    requires SlotsUnique(t) && UpdateDecision(t, id, b, today, isAdmin) == Ok
    ensures SlotsUnique(t[id := b])
  {
    var t' := t[id := b];
    forall i, j | i in t' && j in t' && i != j
      ensures t'[i].date != t'[j].date || t'[i].time != t'[j].time
    {
      if i == id {
        assert !(t[j].date == b.date && t[j].time == b.time);
      } else if j == id {
        assert !(t[i].date == b.date && t[i].time == b.time);
      }
    }
  }

  /** In a table with unique slots, a row never conflicts with itself:
      updating a booking while keeping its date and time is accepted
      whenever the other checks pass. */
  lemma UpdateOwnSlotAccepted(t: Table, id: int, b: Booking, today: Date)
    requires SlotsUnique(t) && id in t
    requires AllPresent(b) && b.date == t[id].date && b.time == t[id].time
    requires ParseDate(b.date).Some? && !IsPast(ParseDate(b.date).value, today)
    ensures UpdateDecision(t, id, b, today, true) == Ok
  {
  }

  /** Moving a booking onto the slot of a different row is refused. */
  lemma UpdateOntoOtherRefused(t: Table, id: int, other: int, b: Booking, today: Date)
    requires id in t && other in t && other != id
    requires AllPresent(b) && b.date == t[other].date && b.time == t[other].time
    requires ParseDate(b.date).Some? && !IsPast(ParseDate(b.date).value, today)
    ensures UpdateDecision(t, id, b, today, true) == SlotTaken
  {
    assert Occupied(t, b.date, b.time, Some(id));
  }

  /** Removing a row keeps the slots unique. */
  lemma DeleteKeepsSlotsUnique(t: Table, id: int)
    requires SlotsUnique(t)
    ensures SlotsUnique(t - {id})
  {
  }

  // ---------------------------------------------------------------------
  // A worked example

  /** With today 2025-06-01: booking Monday 2025-06-02 at 09:00 in an empty
      table is accepted, asking for the same slot again is refused as taken,
      and Saturday 2025-06-07 is refused as a weekend. */
  lemma BookingScenario(id: int)
    ensures var today := Date(2025, 6, 1);
      var first := Booking("Ana", "Corte", "2025-06-02", "09:00");
      && CreateDecision(map[], first, today) == Ok
      && CreateDecision(map[id := first], first, today) == SlotTaken
      && CreateDecision(map[id := first], Booking("Ana", "Corte", "2025-06-07", "09:00"), today) == Weekend
  {
    ParseExamples();
    WeekdayExamples();
    var today := Date(2025, 6, 1);
    var first := Booking("Ana", "Corte", "2025-06-02", "09:00");
    assert CreateDecision(map[], first, today) == Ok;
    CreateTwiceRefused(map[], first, first, today, id);
    assert !IsPast(Date(2025, 6, 7), today);
  }

  /** Update has no weekend rule: an admin may move a booking onto Saturday
      2025-06-07, a date create refuses. */
  lemma UpdateAllowsWeekend(id: int)
    ensures var today := Date(2025, 6, 1);
      var first := Booking("Ana", "Corte", "2025-06-02", "09:00");
      var moved := Booking("Ana", "Corte", "2025-06-07", "09:00");
      && UpdateDecision(map[id := first], id, moved, today, true) == Ok
      && CreateDecision(map[id := first], moved, today) == Weekend
  {
    ParseExamples();
    WeekdayExamples();
    assert !IsPast(Date(2025, 6, 7), Date(2025, 6, 1));
  }
}
