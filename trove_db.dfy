/**
 * The indexer's checkpoint and poison-record store (FullPersistenceDAO).
 *
 * Two tables:
 *  - the checkpoint table, keyed by modulo_remainder (a partition id mod N)
 *    and holding last_warc_id;
 *  - the error ledger, keyed by warc_id and holding retries and last_error.
 *
 * Each SQL statement of the DAO is given here as a function over the table
 * values; the class FullPersistenceDao holds the two tables and its
 * update methods change them exactly as those functions say.  Timestamps
 * are an opaque token type T.
 */
module TroveDb {
  import opened Wrappers

  /** What checkError reads back: the pair (last_error, retries). */
  datatype ErrorInfo<T> = ErrorInfo(lastError: T, retries: int)

  /** A row of oldErrors: warc_id together with its (last_error, retries) pair. */
  datatype OldError<T> = OldError(warcId: int, error: ErrorInfo<T>)

  /** The checkpoint table: modulo_remainder -> last_warc_id. */
  type Checkpoints = map<int, int>

  /** The error ledger: warc_id -> (last_error, retries). */
  type ErrorLedger<T> = map<int, ErrorInfo<T>>

  // ---------------------------------------------------------------------
  // Queries

  /** getLastId: the last_warc_id of the row for this remainder, None when there is no row. */
  function GetLastId(checkpoints: Checkpoints, moduloRemainder: int): (lastId: Option<int>)
    ensures lastId == None <==> moduloRemainder !in checkpoints
    ensures lastId.Some? ==> lastId.value == checkpoints[moduloRemainder]
  {
    if moduloRemainder in checkpoints then Some(checkpoints[moduloRemainder]) else None
  }

  /** checkError: the (last_error, retries) pair of the row for this warc_id, None when there is no row. */
  function CheckError<T>(errors: ErrorLedger<T>, warcId: int): (error: Option<ErrorInfo<T>>)
    ensures error == None <==> warcId !in errors
    ensures error.Some? ==> error.value == errors[warcId]
  {
    if warcId in errors then Some(errors[warcId]) else None
  }

  predicate StrictlyDescending(ids: seq<int>)
  {
    forall i, j :: 0 <= i < j < |ids| ==> ids[i] > ids[j]
  }

  lemma EmptyOrHasMember(s: set<int>)
    ensures s == {} || exists y :: y in s
  {
    if forall y :: y !in s {
      assert s == {};
    }
  }

  /** m is the largest element of s. */
  predicate IsMax(m: int, s: set<int>)
  {
    m in s && forall x :: x in s ==> x <= m
  }

  lemma {:induction false} MaxExists(s: set<int>)
    requires s != {}
    ensures exists m :: IsMax(m, s)
    decreases |s|
  {
    EmptyOrHasMember(s);
    var y :| y in s;
    var rest := s - {y};
    if rest == {} {
      forall x | x in s
        ensures x <= y
      {
        assert x !in rest;
      }
      assert IsMax(y, s);
    } else {
      assert |rest| == |s| - 1;
      MaxExists(rest);
      var m :| IsMax(m, rest);
      var top := if y > m then y else m;
      forall x | x in s
        ensures x <= top
      {
        if x != y {
          assert x in rest;
        }
      }
      assert IsMax(top, s);
    }
  }

  /** The elements of s, largest first, each once (ORDER BY ... desc over a key column). */
  function SortedDescending(s: set<int>): (ids: seq<int>)
    ensures |ids| == |s|
    ensures forall i :: 0 <= i < |ids| ==> ids[i] in s
    ensures forall x :: x in s ==> x in ids
    ensures StrictlyDescending(ids)
    decreases s
  {
    if s == {} then []
    else
      MaxExists(s);
      var m :| IsMax(m, s);
      var rest := SortedDescending(s - {m});
      DescendingCons(m, rest, s);
      [m] + rest
  }

  lemma DescendingCons(m: int, rest: seq<int>, s: set<int>)
    requires IsMax(m, s)
    requires forall i :: 0 <= i < |rest| ==> rest[i] in s - {m}
    requires forall x :: x in s - {m} ==> x in rest
    requires StrictlyDescending(rest)
    ensures forall i :: 0 <= i < |[m] + rest| ==> ([m] + rest)[i] in s
    ensures forall x :: x in s ==> x in [m] + rest
    ensures StrictlyDescending([m] + rest)
  {
    var ids := [m] + rest;
    forall i, j | 0 <= i < j < |ids|
      ensures ids[i] > ids[j]
    {
      assert ids[j] == rest[j - 1];
      if i > 0 {
        assert ids[i] == rest[i - 1];
      }
    }
    forall x | x in s
      ensures x in ids
    {
      if x != m {
        assert x in s - {m};
      }
    }
  }

  /** oldErrors: every ledger row exactly once, by warc_id descending. */
  function OldErrors<T>(errors: ErrorLedger<T>): (rows: seq<OldError<T>>)
    ensures |rows| == |errors|
    ensures forall i :: 0 <= i < |rows| ==> rows[i].warcId in errors && rows[i].error == errors[rows[i].warcId]
    ensures forall id :: id in errors ==> exists i :: 0 <= i < |rows| && rows[i].warcId == id
    ensures forall i, j :: 0 <= i < j < |rows| ==> rows[i].warcId > rows[j].warcId
  {
    var ids := SortedDescending(errors.Keys);
    ListingComplete(errors, ids);
    RowsFor(errors, ids)
  }

  /** One listing row per id, in the order of ids. */
  function RowsFor<T>(errors: ErrorLedger<T>, ids: seq<int>): seq<OldError<T>>
    requires forall i :: 0 <= i < |ids| ==> ids[i] in errors
  {
    seq(|ids|, i requires 0 <= i < |ids| => OldError(ids[i], errors[ids[i]]))
  }

  lemma RowsForAt<T>(errors: ErrorLedger<T>, ids: seq<int>)
    requires forall i :: 0 <= i < |ids| ==> ids[i] in errors
    ensures |RowsFor(errors, ids)| == |ids|
    ensures forall i :: 0 <= i < |ids| ==> RowsFor(errors, ids)[i] == OldError(ids[i], errors[ids[i]])
  {
  }

  lemma ListingComplete<T>(errors: ErrorLedger<T>, ids: seq<int>)
    requires |ids| == |errors.Keys|
    requires forall i :: 0 <= i < |ids| ==> ids[i] in errors
    requires forall x :: x in errors ==> x in ids
    requires StrictlyDescending(ids)
    ensures var rows := RowsFor(errors, ids);
      && |rows| == |errors|
      && (forall i :: 0 <= i < |rows| ==> rows[i].warcId in errors && rows[i].error == errors[rows[i].warcId])
      && (forall id :: id in errors ==> exists i :: 0 <= i < |rows| && rows[i].warcId == id)
      && (forall i, j :: 0 <= i < j < |rows| ==> rows[i].warcId > rows[j].warcId)
  {
    var rows := RowsFor(errors, ids);
    RowsForAt(errors, ids);
    assert |errors.Keys| == |errors|;
    forall id | id in errors
      ensures exists i :: 0 <= i < |rows| && rows[i].warcId == id
    {
      var i :| 0 <= i < |ids| && ids[i] == id;
      assert rows[i].warcId == id;
    }
  }

  // ---------------------------------------------------------------------
  // Updates, as functions from the old table to the new one

  /**
   * updateLastId: INSERT ... ON DUPLICATE KEY UPDATE last_warc_id = :lastId.
   * Afterwards the remainder reads back lastId whatever it held before, and
   * every other remainder reads back what it did before.
   */
  function LastIdUpdated(checkpoints: Checkpoints, lastId: int, moduloRemainder: int): (updated: Checkpoints)
    ensures GetLastId(updated, moduloRemainder) == Some(lastId)
    ensures forall r :: r != moduloRemainder ==> GetLastId(updated, r) == GetLastId(checkpoints, r)
    ensures updated.Keys == checkpoints.Keys + {moduloRemainder}
  {
    checkpoints[moduloRemainder := lastId]
  }

  /**
   * trackError: INSERT (warc_id) ... ON DUPLICATE KEY UPDATE retries = retries + 1.
   * A new row takes the table defaults: defaultRetries, and `now` for last_error.
   * An existing row has its retries raised by one; last_error is not assigned.
   */
  function ErrorTracked<T>(errors: ErrorLedger<T>, warcId: int, defaultRetries: int, now: T): (updated: ErrorLedger<T>)
    ensures warcId in errors ==>
      CheckError(updated, warcId) == Some(ErrorInfo(errors[warcId].lastError, errors[warcId].retries + 1))
    ensures warcId !in errors ==> CheckError(updated, warcId) == Some(ErrorInfo(now, defaultRetries))
    ensures forall id :: id != warcId ==> CheckError(updated, id) == CheckError(errors, id)
    ensures updated.Keys == errors.Keys + {warcId}
  {
    if warcId in errors then
      errors[warcId := errors[warcId].(retries := errors[warcId].retries + 1)]
    else
      errors[warcId := ErrorInfo(now, defaultRetries)]
  }

  /** removeError: DELETE ... WHERE warc_id = :warcId; a no-op on an absent id. */
  function ErrorRemoved<T>(errors: ErrorLedger<T>, warcId: int): (updated: ErrorLedger<T>)
    ensures CheckError(updated, warcId) == None
    ensures forall id :: id != warcId ==> CheckError(updated, id) == CheckError(errors, id)
    ensures warcId !in errors ==> updated == errors
  {
    errors - {warcId}
  }

  // ---------------------------------------------------------------------
  // The store

  class FullPersistenceDao<T> {
    var checkpoints: Checkpoints
    var errors: ErrorLedger<T>
    /** The retries column's default, which the schema supplies on insert. */
    const defaultRetries: int

    constructor (checkpoints: Checkpoints, errors: ErrorLedger<T>, defaultRetries: int)
      ensures this.checkpoints == checkpoints && this.errors == errors
      ensures this.defaultRetries == defaultRetries
    {
      this.checkpoints := checkpoints;
      this.errors := errors;
      this.defaultRetries := defaultRetries;
    }

    /** Upsert the checkpoint of one partition; the error ledger is untouched. */
    method UpdateLastId(lastId: int, moduloRemainder: int)
      modifies this
      ensures checkpoints == LastIdUpdated(old(checkpoints), lastId, moduloRemainder)
      ensures errors == old(errors)
    {
      checkpoints := checkpoints[moduloRemainder := lastId];
    }

    /** Record one more failure of a record; `now` is the database clock at insert. */
    method TrackError(warcId: int, now: T)
      modifies this
      ensures errors == ErrorTracked(old(errors), warcId, defaultRetries, now)
      ensures checkpoints == old(checkpoints)
    {
      if warcId in errors {
        var row := errors[warcId];
        errors := errors[warcId := ErrorInfo(row.lastError, row.retries + 1)];
      } else {
        errors := errors[warcId := ErrorInfo(now, defaultRetries)];
      }
    }

    /** Delete the ledger row of a record, if any; the checkpoints are untouched. */
    method RemoveError(warcId: int)
      modifies this
      ensures errors == ErrorRemoved(old(errors), warcId)
      ensures checkpoints == old(checkpoints)
    {
      errors := errors - {warcId};
    }
  }

  // ---------------------------------------------------------------------
  // Properties of the statements

  /** The upsert does no ordering check: a smaller last id replaces a larger one. */
  lemma LastIdNotMonotonic(checkpoints: Checkpoints, moduloRemainder: int, larger: int, smaller: int)
    requires smaller < larger
    ensures var once := LastIdUpdated(checkpoints, larger, moduloRemainder);
            GetLastId(LastIdUpdated(once, smaller, moduloRemainder), moduloRemainder) == Some(smaller)
  {
  }

  /** trackError applied once per clock value in `stamps`, in order. */
  function ErrorTrackedAll<T>(errors: ErrorLedger<T>, warcId: int, defaultRetries: int, stamps: seq<T>): ErrorLedger<T>
    decreases |stamps|
  {
    if stamps == [] then errors
    else ErrorTrackedAll(ErrorTracked(errors, warcId, defaultRetries, stamps[0]), warcId, defaultRetries, stamps[1..])
  }

  /**
   * k calls of trackError raise an existing row's retries by k and keep its
   * last_error; on an absent id the first call creates the row with the
   * default and its own clock value, and each later call adds one.
   */
  lemma {:induction false} TrackErrorRepeatedly<T>(errors: ErrorLedger<T>, warcId: int, defaultRetries: int, stamps: seq<T>)
    ensures warcId in errors ==>
      CheckError(ErrorTrackedAll(errors, warcId, defaultRetries, stamps), warcId)
        == Some(ErrorInfo(errors[warcId].lastError, errors[warcId].retries + |stamps|))
    ensures warcId !in errors && stamps != [] ==>
      CheckError(ErrorTrackedAll(errors, warcId, defaultRetries, stamps), warcId)
        == Some(ErrorInfo(stamps[0], defaultRetries + |stamps| - 1))
    ensures forall id :: id != warcId ==>
      CheckError(ErrorTrackedAll(errors, warcId, defaultRetries, stamps), id) == CheckError(errors, id)
    decreases |stamps|
  {
    if stamps != [] {
      TrackErrorRepeatedly(ErrorTracked(errors, warcId, defaultRetries, stamps[0]), warcId, defaultRetries, stamps[1..]);
    }
  }

  /** Clearing a record right after tracking it leaves the ledger as clearing alone would. */
  lemma RemoveUndoesTrack<T>(errors: ErrorLedger<T>, warcId: int, defaultRetries: int, now: T)
    ensures ErrorRemoved(ErrorTracked(errors, warcId, defaultRetries, now), warcId) == ErrorRemoved(errors, warcId)
  {
  }

  /** trackError adds a row to the listing exactly when the id was absent. */
  lemma OldErrorsAfterTrack<T>(errors: ErrorLedger<T>, warcId: int, defaultRetries: int, now: T)
    ensures |OldErrors(ErrorTracked(errors, warcId, defaultRetries, now))|
         == |OldErrors(errors)| + (if warcId in errors then 0 else 1)
  {
    var updated := ErrorTracked(errors, warcId, defaultRetries, now);
    if warcId in errors {
      assert updated.Keys == errors.Keys;
    } else {
      assert |errors.Keys + {warcId}| == |errors.Keys| + 1;
    }
  }

  /** Two strictly descending sequences with the same elements are equal. */
  lemma {:induction false} DescendingUnique(a: seq<int>, b: seq<int>)
    requires StrictlyDescending(a) && StrictlyDescending(b)
    requires forall x :: x in a <==> x in b
    ensures a == b
    decreases |a|
  {
    assert (a == []) == (b == []) by {
      if a != [] { assert a[0] in a; }
      if b != [] { assert b[0] in b; }
    }
    if a != [] {
      assert a[0] in a && a[0] in b;
      assert b[0] in b && b[0] in a;
      assert a[0] == b[0];
      forall x
        ensures x in a[1..] <==> x in b[1..]
      {
        if x in a[1..] {
          var i :| 1 <= i < |a| && a[i] == x;
          assert x in b;
          assert x < a[0];
          assert x != b[0];
        }
        if x in b[1..] {
          var j :| 1 <= j < |b| && b[j] == x;
          assert x in a;
          assert x < b[0];
          assert x != a[0];
        }
      }
      DescendingUnique(a[1..], b[1..]);
    }
  }

  /** The warc ids of the oldErrors listing, in order. */
  function ListedIds<T>(rows: seq<OldError<T>>): seq<int>
  {
    seq(|rows|, i requires 0 <= i < |rows| => rows[i].warcId)
  }

  lemma ListedIdsAt<T>(rows: seq<OldError<T>>)
    ensures |ListedIds(rows)| == |rows|
    ensures forall i :: 0 <= i < |rows| ==> ListedIds(rows)[i] == rows[i].warcId
  {
  }

  /** The listing's ids are the one strictly descending enumeration of the ledger's keys. */
  lemma OldErrorsIdsDetermined<T>(errors: ErrorLedger<T>, ids: seq<int>)
    requires StrictlyDescending(ids)
    requires forall x :: x in ids <==> x in errors
    ensures ListedIds(OldErrors(errors)) == ids
  {
    var rows := OldErrors(errors);
    var listed := ListedIds(rows);
    ListedIdsAt(rows);
    forall x
      ensures x in listed <==> x in ids
    {
      if x in errors {
        var i :| 0 <= i < |rows| && rows[i].warcId == x;
        assert listed[i] == x;
      }
      if x in listed {
        var i :| 0 <= i < |listed| && listed[i] == x;
        assert rows[i].warcId in errors;
      }
    }
    DescendingUnique(listed, ids);
  }

  /** Failures recorded for ids 5, 2 and 9 are listed as 9, 5, 2. */
  lemma OldErrorsExample<T>(errors: ErrorLedger<T>)
    requires errors.Keys == {5, 2, 9}
    ensures ListedIds(OldErrors(errors)) == [9, 5, 2]
  {
    OldErrorsIdsDetermined(errors, [9, 5, 2]);
  }
}
