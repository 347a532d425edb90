/** The booking table as a mutable object and the request handlers that
    write to it: create (both the form and the XHR path of `/book`), update,
    delete, and the `/bookings` listing loop that attaches a display time to
    each row. */
module Store {
  import opened Calendar
  import opened Bookings
  import opened Slots

  /** A listed row: its id, its fields and the `time_display` the listing
      loop assigns to it. */
  datatype Row = Row(id: int, booking: Booking, timeDisplay: string)

  /** The id SQLite assigns to a row inserted without one: one more than
      the largest id in the table, or 1 in an empty table. */
  method NextRowId(ids: set<int>) returns (id: int)
    ensures id !in ids
    ensures forall k :: k in ids ==> k < id
    ensures ids == {} ==> id == 1
    ensures ids != {} ==> id - 1 in ids
  {
    id := 1;
    var rest := ids;
    var seen: set<int> := {};
    while rest != {}
      invariant rest + seen == ids && rest !! seen
      invariant forall k :: k in seen ==> k < id
      invariant seen == {} ==> id == 1
      invariant seen != {} ==> id - 1 in seen
      decreases rest
    {
      assert exists x :: x in rest by {
        if forall x :: x !in rest { assert false; }
      }
      var k :| k in rest;
      if seen == {} || k >= id {
        id := k + 1;
      }
      rest := rest - {k};
      seen := seen + {k};
    }
  }

  /** A finite non-empty set of ids has a least element. */
  lemma {:induction false} LeastExists(s: set<int>)
    requires s != {}
    ensures exists k :: k in s && forall j :: j in s ==> k <= j
    decreases s
  {
    assert exists x :: x in s by {
      if forall x :: x !in s { assert false; }
    }
    var x :| x in s;
    var others := s - {x};
    if others != {} {
      LeastExists(others);
      var m :| m in others && forall j :: j in others ==> m <= j;
      var least := if x < m then x else m;
      forall j | j in s ensures least <= j {
        if j != x { assert j in others; }
      }
    } else {
      forall j | j in s ensures x <= j {
        assert j == x || j in others;
      }
    }
  }

  /** Each listed row is a row of `t` with its display label. */
  ghost predicate ListsRows(listed: seq<Row>, t: Table) {
    forall i :: 0 <= i < |listed| ==>
      && listed[i].id in t
      && listed[i].booking == t[listed[i].id]
      && listed[i].timeDisplay == TimeDisplay(listed[i].booking.time)
  }

  ghost predicate Ascending(listed: seq<Row>) {
    forall i, j :: 0 <= i < j < |listed| ==> listed[i].id < listed[j].id
  }

  /** Every id in `ids` is listed. */
  ghost predicate Covers(listed: seq<Row>, ids: set<int>) {
    forall id :: id in ids ==> exists i :: 0 <= i < |listed| && listed[i].id == id
  }

  /** Every listed id is below every id in `ids`. */
  ghost predicate ListedBelow(listed: seq<Row>, ids: set<int>) {
    forall i, k :: 0 <= i < |listed| && k in ids ==> listed[i].id < k
  }

  /** Listing the least remaining id keeps the listed ids below the rest. */
  lemma TakeLeast(listed: seq<Row>, rest: set<int>, row: Row)
    requires ListedBelow(listed, rest)
    requires row.id in rest && forall j :: j in rest ==> row.id <= j
    ensures ListedBelow(listed + [row], rest - {row.id})
  {
    var listed' := listed + [row];
    forall i, k | 0 <= i < |listed'| && k in rest - {row.id} ensures listed'[i].id < k {
      if i < |listed| { assert listed'[i] == listed[i]; }
    }
  }

  lemma AppendRow(listed: seq<Row>, t: Table, done: set<int>, k: int)
    requires ListsRows(listed, t) && Ascending(listed) && Covers(listed, done)
    requires k in t && forall i :: 0 <= i < |listed| ==> listed[i].id < k
    ensures var listed' := listed + [Row(k, t[k], TimeDisplay(t[k].time))];
      ListsRows(listed', t) && Ascending(listed') && Covers(listed', done + {k})
  {
    var row := Row(k, t[k], TimeDisplay(t[k].time));
    var listed' := listed + [row];
    forall i | 0 <= i < |listed'|
      ensures listed'[i].id in t && listed'[i].booking == t[listed'[i].id]
      ensures listed'[i].timeDisplay == TimeDisplay(listed'[i].booking.time)
    {
      if i < |listed| { assert listed'[i] == listed[i]; }
    }
    forall i, j | 0 <= i < j < |listed'| ensures listed'[i].id < listed'[j].id {
      assert listed'[i] == listed[i];
      if j < |listed| { assert listed'[j] == listed[j]; }
    }
    CoversAppended(listed, done, row);
  }

  lemma CoversAppended(listed: seq<Row>, done: set<int>, row: Row)
    requires Covers(listed, done)
    ensures Covers(listed + [row], done + {row.id})
  {
    var listed' := listed + [row];
    forall id | id in done + {row.id}
      ensures exists i :: 0 <= i < |listed'| && listed'[i].id == id
    {
      if id == row.id {
        assert listed'[|listed|].id == id;
      } else {
        var i :| 0 <= i < |listed| && listed[i].id == id;
        assert listed'[i].id == id;
      }
    }
  }

  class BookingStore {
    var rows: Table

    /** Every stored row has its four fields, a date that parses and a
        positive id, and no two rows share a slot. */
    ghost predicate Valid()
      reads this
    {
      && SlotsUnique(rows)
      && (forall id :: id in rows ==> id >= 1 && AllPresent(rows[id]) && ParseDate(rows[id].date).Some?)
    }

    constructor ()
      ensures Valid() && rows == map[]
    {
      rows := map[];
    }

    /** `/book`: validate, check the slot, insert. `commitFails` stands for
        a commit that raises, after which the session is rolled back. */
    method Create(b: Booking, today: Date, commitFails: bool) returns (outcome: Outcome, id: int)
      requires Valid()
      modifies this
      ensures Valid()
      ensures outcome == (if CreateDecision(old(rows), b, today) == Ok && commitFails then StorageError
                          else CreateDecision(old(rows), b, today))
      ensures outcome == Ok ==> id !in old(rows) && rows == old(rows)[id := b]
      ensures outcome != Ok ==> rows == old(rows)
    {
      id := 0;
      outcome := CreateDecision(rows, b, today);
      if outcome != Ok {
        return;
      }
      id := NextRowId(rows.Keys);
      if commitFails {
        outcome := StorageError;
        return;
      }
      CreateKeepsSlotsUnique(rows, b, today, id);
      rows := rows[id := b];
    }

    /** `/update/<id>` (POST): check admin, fetch the row, validate without
        the weekend rule, check the slot against the other rows, and
        overwrite the four fields in place. */
    method Update(id: int, b: Booking, today: Date, isAdmin: bool) returns (outcome: Outcome)
      requires Valid()
      modifies this
      ensures Valid()
      ensures outcome == UpdateDecision(old(rows), id, b, today, isAdmin)
      ensures outcome == Ok ==> id in old(rows) && rows == old(rows)[id := b]
      ensures outcome != Ok ==> rows == old(rows)
    {
      outcome := UpdateDecision(rows, id, b, today, isAdmin);
      if outcome == Ok {
        UpdateKeepsSlotsUnique(rows, id, b, today, isAdmin);
        rows := rows[id := b];
      }
    }

    /** `/delete/<id>`: check admin, fetch the row, delete and commit. */
    method Delete(id: int, isAdmin: bool, commitFails: bool) returns (outcome: Outcome)
      requires Valid()
      modifies this
      ensures Valid()
      ensures outcome == DeleteDecision(old(rows), id, isAdmin, commitFails)
      ensures outcome == Ok ==> id in old(rows) && rows == old(rows) - {id}
      ensures outcome != Ok ==> rows == old(rows)
    {
      outcome := DeleteDecision(rows, id, isAdmin, commitFails);
      if outcome == Ok {
        rows := rows - {id};
      }
    }

    /** `/bookings`: every row, in ascending id order, with the display
        label of its time. */
    method ListWithDisplay() returns (listed: seq<Row>)
      ensures ListsRows(listed, rows) && Ascending(listed) && Covers(listed, rows.Keys)
    {
      listed := [];
      var rest := rows.Keys;
      while rest != {}
        invariant rest <= rows.Keys
        invariant ListsRows(listed, rows) && Ascending(listed)
        invariant Covers(listed, rows.Keys - rest)
        invariant ListedBelow(listed, rest)
        decreases rest
      {
        LeastExists(rest);
        var k :| k in rest && forall j :: j in rest ==> k <= j;
        var row := Row(k, rows[k], TimeDisplay(rows[k].time));
        AppendRow(listed, rows, rows.Keys - rest, k);
        TakeLeast(listed, rest, row);
        assert rows.Keys - (rest - {k}) == (rows.Keys - rest) + {k};
        listed := listed + [row];
        rest := rest - {k};
      }
      assert rows.Keys - rest == rows.Keys;
    }
  }
}
