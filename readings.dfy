/** The `readings` table: its rows, the AUTOINCREMENT id counter, and the two
    queries the server runs against it (`ORDER BY created_at DESC LIMIT ?` and
    the same with `LIMIT 1`). */
module Readings {
  import opened Wrappers

  /** One row of the table. `createdAt` is the acceptance time in milliseconds
      since the epoch; the ISO-8601 text the server stores sorts the same way. */
  datatype Reading = Reading(id: nat, temperature: real, humidity: real, createdAt: int)

  /** The order `ORDER BY created_at DESC` produces: newest first. */
  predicate NewestFirstOrder(s: seq<Reading>)
  {
    forall i, j :: 0 <= i < j < |s| ==> s[i].createdAt >= s[j].createdAt
  }

  /** Puts `x` into a newest-first sequence, after every row at least as new. */
  function Insert(x: Reading, s: seq<Reading>): (r: seq<Reading>)
    requires NewestFirstOrder(s)
    ensures NewestFirstOrder(r)
    ensures multiset(r) == multiset(s) + multiset{x}
    ensures |r| == |s| + 1
    ensures r[0] == x || (|s| > 0 && r[0] == s[0])
  {
    if s == [] || s[0].createdAt < x.createdAt then
      [x] + s
    else
      assert s == [s[0]] + s[1..];
      [s[0]] + Insert(x, s[1..])
  }

  /** The rows sorted by `created_at`, newest first. Rows with equal
      timestamps come out later-inserted first, which is one of the orders the
      database may choose. */
  function NewestFirst(rows: seq<Reading>): (r: seq<Reading>)
    ensures NewestFirstOrder(r)
    ensures multiset(r) == multiset(rows)
    ensures |r| == |rows|
  {
    if rows == [] then []
    else
      assert rows == [rows[0]] + rows[1..];
      Insert(rows[0], NewestFirst(rows[1..]))
  }

  /** The bound of a LIMIT clause: a row count, or none (a negative LIMIT). */
  datatype Bound = AtMost(n: nat) | Unbounded

  /** A prefix holds no row more often than the whole sequence. */
  lemma PrefixMultiset(s: seq<Reading>, k: nat)
    requires k <= |s|
    ensures multiset(s) == multiset(s[..k]) + multiset(s[k..])
  {
    assert s == s[..k] + s[k..];
  }

  /** `SELECT * FROM readings ORDER BY created_at DESC LIMIT bound`. */
  function Recent(rows: seq<Reading>, bound: Bound): (r: seq<Reading>)
    ensures bound.AtMost? ==> |r| == if bound.n < |rows| then bound.n else |rows|
    ensures bound.Unbounded? ==> |r| == |rows|
    ensures r == NewestFirst(rows)[..|r|]
    ensures NewestFirstOrder(r)
    ensures multiset(r) <= multiset(rows)
  {
    var sorted := NewestFirst(rows);
    var k := if bound.AtMost? && bound.n < |sorted| then bound.n else |sorted|;
    PrefixMultiset(sorted, k);
    sorted[..k]
  }

  /** Every row left out of a `Recent` answer is no newer than every row in it. */
  lemma RecentHoldsNewest(rows: seq<Reading>, bound: Bound, x: Reading, y: Reading)
    requires x in multiset(rows) - multiset(Recent(rows, bound))
    requires y in Recent(rows, bound)
    ensures x.createdAt <= y.createdAt
  {
    var sorted := NewestFirst(rows);
    var k := |Recent(rows, bound)|;
    PrefixMultiset(sorted, k);
    assert x in sorted[k..];
    var j :| 0 <= j < |sorted[k..]| && sorted[k..][j] == x;
    var i :| 0 <= i < k && sorted[..k][i] == y;
    assert sorted[i] == y && sorted[k + j] == x;
  }

  /** The first row of a nonempty newest-first ordering is at least as new as
      every row. */
  lemma NewestFirstHeadIsNewest(rows: seq<Reading>, i: nat)
    requires i < |rows|
    ensures rows[i].createdAt <= NewestFirst(rows)[0].createdAt
  {
    var sorted := NewestFirst(rows);
    assert rows[i] in multiset(rows);
    assert rows[i] in multiset(sorted);
    var j :| 0 <= j < |sorted| && sorted[j] == rows[i];
  }

  /** `SELECT * FROM readings ORDER BY created_at DESC LIMIT 1`: the newest
      row, or none when the table is empty. */
  function Latest(rows: seq<Reading>): (r: Option<Reading>)
    ensures r.None? <==> rows == []
    ensures r.Some? ==> r.value in rows
    ensures r.Some? ==> forall i :: 0 <= i < |rows| ==> rows[i].createdAt <= r.value.createdAt
  {
    var top := Recent(rows, AtMost(1));
    if top == [] then None
    else
      assert top[0] in multiset(rows);
      assert forall i :: 0 <= i < |rows| ==> rows[i].createdAt <= top[0].createdAt by {
        forall i | 0 <= i < |rows| ensures rows[i].createdAt <= top[0].createdAt {
          NewestFirstHeadIsNewest(rows, i);
        }
      }
      Some(top[0])
  }

  /** After appending a row stamped no earlier than any stored row, the latest
      row carries the new timestamp; if the new stamp is strictly the newest,
      the latest row is the appended one. */
  lemma LatestAfterAppend(rows: seq<Reading>, r: Reading)
    requires forall i :: 0 <= i < |rows| ==> rows[i].createdAt <= r.createdAt
    ensures Latest(rows + [r]).Some?
    ensures Latest(rows + [r]).value.createdAt == r.createdAt
    ensures (forall i :: 0 <= i < |rows| ==> rows[i].createdAt < r.createdAt) ==> Latest(rows + [r]) == Some(r)
  {
  }

  /** The table invariant: ids start at 1, grow strictly in insertion order,
      and lie below the AUTOINCREMENT counter `nextId`. */
  ghost predicate ValidRows(rows: seq<Reading>, nextId: nat)
  {
    && nextId >= 1
    && (forall i :: 0 <= i < |rows| ==> 1 <= rows[i].id < nextId)
    && (forall i, j :: 0 <= i < j < |rows| ==> rows[i].id < rows[j].id)
  }

  /** No two rows of a valid table share an id. */
  lemma IdsUnique(rows: seq<Reading>, nextId: nat, i: nat, j: nat)
    requires ValidRows(rows, nextId)
    requires i < |rows| && j < |rows| && i != j
    ensures rows[i].id != rows[j].id
  {
  }

  /** The table, updated in place by INSERT and never by UPDATE or DELETE. */
  class ReadingStore {
    var rows: seq<Reading>
    var nextId: nat

    ghost predicate Valid()
      reads this
    {
      ValidRows(rows, nextId)
    }

    /** `CREATE TABLE readings (id INTEGER PRIMARY KEY AUTOINCREMENT, ...)`. */
    constructor ()
      ensures Valid() && rows == [] && nextId == 1
    {
      rows := [];
      nextId := 1;
    }

    /** A committed INSERT: the row gets the next id, greater than every id
        stored so far, and the existing rows stay as they were. */
    method Append(temperature: real, humidity: real, createdAt: int) returns (r: Reading)
      requires Valid()
      modifies this
      ensures Valid()
      ensures r == Reading(old(nextId), temperature, humidity, createdAt)
      ensures forall i :: 0 <= i < |old(rows)| ==> old(rows)[i].id < r.id
      ensures rows == old(rows) + [r]
      ensures nextId == old(nextId) + 1
    {
      r := Reading(nextId, temperature, humidity, createdAt);
      rows := rows + [r];
      nextId := nextId + 1;
    }

    /** A failed INSERT whose id the database does not hand out again: the
        counter moves on and no row is stored. */
    method BurnId()
      requires Valid()
      modifies this
      ensures Valid()
      ensures rows == old(rows)
      ensures nextId == old(nextId) + 1
    {
      nextId := nextId + 1;
    }
  }
}
