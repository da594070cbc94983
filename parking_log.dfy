/**
  The `parking_logs` table behind the entry, exit and search routes of
  backend/app.py. The table is a sequence of rows in insertion order; the
  clock is a parameter `now` in whole seconds; fares are exact reals.
 */
module ParkingLog {
  import opened Wrappers

  const BASE_FARE: real := 20.0
  const RATE_PER_MIN: real := 1.0

  /** One row of `parking_logs`; `None` is SQL NULL. */
  datatype Row = Row(plate: string, entryTime: int, exitTime: Option<int>, fare: Option<real>)

  predicate IsOpenFor(r: Row, plate: string) {
    r.plate == plate && r.exitTime.None?
  }

  /** `(exit_time - entry_time).total_seconds() / 60`. */
  function DurationMinutes(entryTime: int, exitTime: int): real {
    (exitTime - entryTime) as real / 60.0
  }

  /** `BASE_FARE + RATE_PER_MIN * duration`. Nothing rejects an exit before the entry. */
  function Fare(entryTime: int, exitTime: int): (f: real)
    ensures f >= BASE_FARE <==> exitTime >= entryTime
  {
    BASE_FARE + RATE_PER_MIN * DurationMinutes(entryTime, exitTime)
  }

  /** Fares grow with the length of the stay, by one unit per minute. */
  lemma FareGrowsPerMinute(entryTime: int, exitTime: int, minutes: int)
    ensures Fare(entryTime, exitTime + 60 * minutes) == Fare(entryTime, exitTime) + minutes as real
  {
  }

  /** `SELECT entry_time ... WHERE plate=%s AND exit_time IS NULL ORDER BY entry_time DESC LIMIT 1`. */
  function LatestOpenEntry(rows: seq<Row>, plate: string): (t: Option<int>)
    ensures t.None? <==> forall i :: 0 <= i < |rows| ==> !IsOpenFor(rows[i], plate)
    ensures t.Some? ==> exists i :: 0 <= i < |rows| && IsOpenFor(rows[i], plate) && rows[i].entryTime == t.value
    ensures t.Some? ==> forall i :: 0 <= i < |rows| && IsOpenFor(rows[i], plate) ==> rows[i].entryTime <= t.value
  {
    if rows == [] then None
    else
      var rest := LatestOpenEntry(rows[1..], plate);
      assert forall i :: 1 <= i < |rows| ==> rows[i] == rows[1..][i - 1];
      if !IsOpenFor(rows[0], plate) then rest
      else if rest.Some? && rest.value > rows[0].entryTime then rest
      else Some(rows[0].entryTime)
  }

  /** `UPDATE parking_logs SET exit_time=%s, fare=%s WHERE plate=%s AND entry_time=%s`.
      The condition does not test `exit_time IS NULL`. */
  function CloseRows(rows: seq<Row>, plate: string, entryTime: int, now: int, fare: real): (rows': seq<Row>)
    ensures |rows'| == |rows|
    ensures forall i :: 0 <= i < |rows| && (rows[i].plate != plate || rows[i].entryTime != entryTime) ==>
              rows'[i] == rows[i]
    ensures forall i :: 0 <= i < |rows| && rows[i].plate == plate && rows[i].entryTime == entryTime ==>
              rows'[i] == Row(plate, entryTime, Some(now), Some(fare))
  {
    seq(|rows|, i requires 0 <= i < |rows| =>
      if rows[i].plate == plate && rows[i].entryTime == entryTime
      then rows[i].(exitTime := Some(now), fare := Some(fare))
      else rows[i])
  }

  /** The number of open rows of `plate`. */
  function OpenCount(rows: seq<Row>, plate: string): (n: nat)
    ensures n <= |rows|
  {
    if rows == [] then 0
    else (if IsOpenFor(rows[0], plate) then 1 else 0) + OpenCount(rows[1..], plate)
  }

  /** `SELECT ... FROM parking_logs WHERE plate=%s`: the rows of `plate`, in table order. */
  function SearchCar(rows: seq<Row>, plate: string): (found: seq<Row>)
    ensures |found| <= |rows|
    ensures forall k :: 0 <= k < |found| ==> found[k].plate == plate
  {
    if rows == [] then []
    else (if rows[0].plate == plate then [rows[0]] else []) + SearchCar(rows[1..], plate)
  }

  /** The search returns every row of the plate and nothing else. */
  lemma {:induction false} SearchCarMembers(rows: seq<Row>, plate: string, r: Row)
    ensures r in SearchCar(rows, plate) <==> r in rows && r.plate == plate
  {
    if rows != [] {
      SearchCarMembers(rows[1..], plate, r);
      assert rows == [rows[0]] + rows[1..];
    }
  }

  /** The search keeps table order: it distributes over concatenation. */
  lemma {:induction false} SearchCarConcat(a: seq<Row>, b: seq<Row>, plate: string)
    ensures SearchCar(a + b, plate) == SearchCar(a, plate) + SearchCar(b, plate)
  {
    if a == [] {
      assert a + b == b;
    } else {
      var head := if a[0].plate == plate then [a[0]] else [];
      assert (a + b)[0] == a[0];
      assert (a + b)[1..] == a[1..] + b;
      SearchCarConcat(a[1..], b, plate);
      calc {
        SearchCar(a + b, plate);
        head + SearchCar(a[1..] + b, plate);
        head + (SearchCar(a[1..], plate) + SearchCar(b, plate));
        (head + SearchCar(a[1..], plate)) + SearchCar(b, plate);
      }
    }
  }

  lemma {:induction false} OpenCountConcat(a: seq<Row>, b: seq<Row>, plate: string)
    ensures OpenCount(a + b, plate) == OpenCount(a, plate) + OpenCount(b, plate)
  {
    if a == [] {
      assert a + b == b;
    } else {
      assert (a + b)[0] == a[0];
      assert (a + b)[1..] == a[1..] + b;
      OpenCountConcat(a[1..], b, plate);
    }
  }

  /** An entry adds one open row for its plate and none for any other plate;
      it does not look for an open row that already exists. */
  lemma EntryOpensOneMore(rows: seq<Row>, plate: string, now: int, other: string)
    ensures OpenCount(rows + [Row(plate, now, None, None)], plate) == OpenCount(rows, plate) + 1
    ensures other != plate ==> OpenCount(rows + [Row(plate, now, None, None)], other) == OpenCount(rows, other)
  {
    OpenCountConcat(rows, [Row(plate, now, None, None)], plate);
    OpenCountConcat(rows, [Row(plate, now, None, None)], other);
  }

  /** Two entries of one plate, with no exit between them, leave two open rows for it. */
  lemma DoubleEntryTwoOpenRows(rows: seq<Row>, plate: string, t0: int, t1: int)
    requires OpenCount(rows, plate) == 0
    ensures OpenCount(rows + [Row(plate, t0, None, None)] + [Row(plate, t1, None, None)], plate) == 2
  {
    EntryOpensOneMore(rows, plate, t0, plate);
    EntryOpensOneMore(rows + [Row(plate, t0, None, None)], plate, t1, plate);
  }

  /** A row that `CloseRows` touches is closed afterwards, so the open rows of the plate
      shrink by at least one when a chosen open row exists; other plates keep theirs. */
  lemma {:induction false} CloseRowsOpenCount(rows: seq<Row>, plate: string, entryTime: int, now: int, fare: real, other: string)
    ensures OpenCount(CloseRows(rows, plate, entryTime, now, fare), plate) <= OpenCount(rows, plate)
    ensures (exists i :: 0 <= i < |rows| && IsOpenFor(rows[i], plate) && rows[i].entryTime == entryTime) ==>
              OpenCount(CloseRows(rows, plate, entryTime, now, fare), plate) < OpenCount(rows, plate)
    ensures other != plate ==>
              OpenCount(CloseRows(rows, plate, entryTime, now, fare), other) == OpenCount(rows, other)
  {
    if rows != [] {
      var closed := CloseRows(rows, plate, entryTime, now, fare);
      CloseRowsOpenCount(rows[1..], plate, entryTime, now, fare, other);
      assert closed[1..] == CloseRows(rows[1..], plate, entryTime, now, fare);
      if exists i :: 0 <= i < |rows| && IsOpenFor(rows[i], plate) && rows[i].entryTime == entryTime {
        var i :| 0 <= i < |rows| && IsOpenFor(rows[i], plate) && rows[i].entryTime == entryTime;
        if i > 0 {
          assert IsOpenFor(rows[1..][i - 1], plate);
        }
      }
    }
  }

  /** The rows of any other plate are exactly as they were before `CloseRows`. */
  lemma {:induction false} CloseRowsKeepsOtherPlates(rows: seq<Row>, plate: string, entryTime: int, now: int, fare: real, other: string)
    requires other != plate
    ensures SearchCar(CloseRows(rows, plate, entryTime, now, fare), other) == SearchCar(rows, other)
  {
    if rows != [] {
      var closed := CloseRows(rows, plate, entryTime, now, fare);
      CloseRowsKeepsOtherPlates(rows[1..], plate, entryTime, now, fare, other);
      assert closed[1..] == CloseRows(rows[1..], plate, entryTime, now, fare);
    }
  }

  /** The reply of `upload_entry`. */
  datatype EntryReply = EntryRecorded(plate: string)

  /** The reply of `upload_exit`: 404 "No entry found", or the duration and fare. */
  datatype ExitReply = NoEntryFound(plate: string) | ExitRecorded(plate: string, durationMinutes: real, fare: real)
  {
    function StatusCode(): (code: int)
      ensures code == 404 <==> NoEntryFound?
    {
      if NoEntryFound? then 404 else 200
    }
  }

  /** The `parking_logs` table, which the upload routes change in place. */
  class ParkingTable {
    var rows: seq<Row>

    constructor ()
      ensures rows == []
    {
      rows := [];
    }

    /** `upload_entry`: insert an open row stamped `now`. */
    method UploadEntry(plate: string, now: int) returns (reply: EntryReply)
      modifies this
      ensures rows == old(rows) + [Row(plate, now, None, None)]
      ensures reply == EntryRecorded(plate)
      ensures SearchCar(rows, plate) == SearchCar(old(rows), plate) + [Row(plate, now, None, None)]
      ensures forall p :: p != plate ==> SearchCar(rows, p) == SearchCar(old(rows), p)
    {
      var row := Row(plate, now, None, None);
      rows := rows + [row];
      SearchCarConcat(old(rows), [row], plate);
      forall p | p != plate
        ensures SearchCar(rows, p) == SearchCar(old(rows), p)
      {
        SearchCarConcat(old(rows), [row], p);
      }
      reply := EntryRecorded(plate);
    }

    /** `upload_exit`: close the latest open row of `plate` at `now` and charge it,
        or reply 404 and change nothing when the plate has no open row. */
    method UploadExit(plate: string, now: int) returns (reply: ExitReply)
      modifies this
      ensures LatestOpenEntry(old(rows), plate).None? ==>
                reply == NoEntryFound(plate) && rows == old(rows)
      ensures LatestOpenEntry(old(rows), plate).Some? ==>
                var t := LatestOpenEntry(old(rows), plate).value;
                && reply == ExitRecorded(plate, DurationMinutes(t, now), Fare(t, now))
                && rows == CloseRows(old(rows), plate, t, now, Fare(t, now))
      ensures reply.NoEntryFound? <==> OpenCount(old(rows), plate) == 0
      ensures reply.ExitRecorded? ==> OpenCount(rows, plate) < OpenCount(old(rows), plate)
      ensures forall p :: p != plate ==> SearchCar(rows, p) == SearchCar(old(rows), p)
    {
      var log := LatestOpenEntry(rows, plate);
      if log.None? {
        OpenCountNone(rows, plate);
        return NoEntryFound(plate);
      }
      var entryTime := log.value;
      var duration := DurationMinutes(entryTime, now);
      var fare := BASE_FARE + RATE_PER_MIN * duration;
      OpenCountNone(rows, plate);
      CloseRowsOpenCount(rows, plate, entryTime, now, fare, plate);
      forall p | p != plate
        ensures SearchCar(CloseRows(rows, plate, entryTime, now, fare), p) == SearchCar(rows, p)
      {
        CloseRowsKeepsOtherPlates(rows, plate, entryTime, now, fare, p);
      }
      rows := CloseRows(rows, plate, entryTime, now, fare);
      reply := ExitRecorded(plate, duration, fare);
    }
  }

  /** No open row of the plate is the same as an open count of zero. */
  lemma {:induction false} OpenCountNone(rows: seq<Row>, plate: string)
    ensures OpenCount(rows, plate) == 0 <==> forall i :: 0 <= i < |rows| ==> !IsOpenFor(rows[i], plate)
  {
    if rows != [] {
      OpenCountNone(rows[1..], plate);
      assert forall i :: 1 <= i < |rows| ==> rows[i] == rows[1..][i - 1];
    }
  }

  /** Entry at `t0` then exit 45 minutes later charges 20 + 45. */
  method EntryThenExitScenario(t0: int)
  {
    var table := new ParkingTable();
    var entry := table.UploadEntry("ABC123", t0);
    var exit := table.UploadExit("ABC123", t0 + 45 * 60);
    assert exit == ExitRecorded("ABC123", 45.0, 65.0);
    assert table.rows == [Row("ABC123", t0, Some(t0 + 2700), Some(65.0))];
    var again := table.UploadExit("ABC123", t0 + 50 * 60);
    assert again.StatusCode() == 404;
  }
}
