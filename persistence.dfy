/**
 * A stand-in for the TYPO3 database as the import code sees it through
 * `Typo3UserRepository::add/update` and `tx_igldapssoauth_typo3_group::
 * fetch/add/update`. Their bodies are not part of this model. The Store
 * keeps each table's rows in insertion order, hands out increasing uids,
 * overwrites the addressed row on update, and logs every write it is asked
 * to make, so that callers can state exactly which writes they issue.
 */
module Persistence {
  import opened Php

  const UidField := "uid"
  const DnField := "tx_igldapssoauth_dn"

  /** One write issued against a table: the record as it was handed over, and for an update the reported outcome. */
  datatype Call = Added(table: string, row: Record) | Updated(table: string, row: Record, success: bool)

  /** `stored` is the row that `WHERE uid = row['uid']` addresses. */
  predicate SameUid(stored: Record, row: Record) {
    Get(stored, UidField).Int? && LooseEqualsInt(Get(row, UidField), Get(stored, UidField).i)
  }

  /** `after` has every column of `row`, and keeps the other columns of `before`. */
  predicate OverwrittenBy(before: Record, row: Record, after: Record) {
    && after.Keys == before.Keys + row.Keys
    && (forall k :: k in row ==> after[k] == row[k])
    && (forall k :: k in before && k !in row ==> after[k] == before[k])
  }

  /**
   * The rows after an update: a row the record addresses takes every column
   * of the record and keeps its other columns; every other row is kept.
   */
  function Overwrite(rows: seq<Record>, row: Record): (r: seq<Record>)
    ensures |r| == |rows|
    ensures forall i :: 0 <= i < |rows| && !SameUid(rows[i], row) ==> r[i] == rows[i]
    ensures forall i :: 0 <= i < |rows| && SameUid(rows[i], row) ==> OverwrittenBy(rows[i], row, r[i])
  {
    seq(|rows|, i requires 0 <= i < |rows| => if SameUid(rows[i], row) then rows[i] + row else rows[i])
  }

  /** The rows whose DN column reads as `dn`, in table order. */
  function WithDn(rows: seq<Record>, dn: string): (r: seq<Record>)
    ensures forall x :: x in r <==> x in rows && StringOf(Get(x, DnField)) == dn
  {
    if rows == [] then []
    else (if StringOf(Get(rows[0], DnField)) == dn then [rows[0]] else []) + WithDn(rows[1..], dn)
  }

  /** Some row of `rows` is the one `row` addresses. */
  predicate Addresses(rows: seq<Record>, row: Record) {
    exists i :: 0 <= i < |rows| && SameUid(rows[i], row)
  }

  /** The contents of the store: every table's rows, and the last uid handed out. */
  datatype StoreState = StoreState(tables: map<string, seq<Record>>, lastUid: nat)

  function RowsOf(st: StoreState, table: string): seq<Record> {
    if table in st.tables then st.tables[table] else []
  }

  /** The store after one write: an insert under the next uid, or an overwrite of the addressed rows. */
  function Apply(st: StoreState, c: Call): StoreState {
    match c
    case Added(t, row) =>
      StoreState(st.tables[t := RowsOf(st, t) + [row[UidField := Int(st.lastUid + 1)]]], st.lastUid + 1)
    case Updated(t, row, _) =>
      StoreState(st.tables[t := Overwrite(RowsOf(st, t), row)], st.lastUid)
  }

  /** The store after a sequence of writes, in order. */
  function Replay(st: StoreState, calls: seq<Call>): StoreState
    decreases |calls|
  {
    if calls == [] then st else Apply(Replay(st, calls[..|calls| - 1]), calls[|calls| - 1])
  }

  /** The inserts among the writes. */
  function AddCount(calls: seq<Call>): nat {
    if calls == [] then 0 else AddCount(calls[..|calls| - 1]) + if calls[|calls| - 1].Added? then 1 else 0
  }

  /** Writes that all target `table`. */
  predicate AllOn(calls: seq<Call>, table: string) {
    forall k :: 0 <= k < |calls| ==> calls[k].table == table
  }

  lemma ReplayStep(st: StoreState, calls: seq<Call>, c: Call)
    ensures Replay(st, calls + [c]) == Apply(Replay(st, calls), c)
    ensures AddCount(calls + [c]) == AddCount(calls) + if c.Added? then 1 else 0
  {
    assert (calls + [c])[..|calls|] == calls;
  }

  /** Replaying two runs of writes is replaying the second from where the first left the store. */
  lemma {:induction false} ReplayAppend(st: StoreState, a: seq<Call>, b: seq<Call>)
    ensures Replay(st, a + b) == Replay(Replay(st, a), b)
    ensures AddCount(a + b) == AddCount(a) + AddCount(b)
    decreases |b|
  {
    if b == [] {
      assert a + b == a;
    } else {
      var n := |b| - 1;
      ReplayAppend(st, a, b[..n]);
      assert a + b == (a + b[..n]) + [b[n]];
      assert b == b[..n] + [b[n]];
      ReplayStep(st, a + b[..n], b[n]);
      ReplayStep(Replay(st, a), b[..n], b[n]);
    }
  }

  /**
   * Writes to one table leave every other table as it was, and the last uid
   * grows by exactly the number of inserts.
   */
  lemma {:induction false} ReplayFrame(st: StoreState, calls: seq<Call>, table: string)
    requires AllOn(calls, table)
    ensures forall t :: t != table ==> RowsOf(Replay(st, calls), t) == RowsOf(st, t)
    ensures Replay(st, calls).lastUid == st.lastUid + AddCount(calls)
    decreases |calls|
  {
    if calls != [] {
      var n := |calls| - 1;
      ReplayFrame(st, calls[..n], table);
    }
  }

  /** From `log0` and `st0`, the log has grown by `writes`, and the store is what replaying them gives. */
  predicate Follows(log0: seq<Call>, st0: StoreState, log: seq<Call>, st: StoreState, writes: seq<Call>) {
    log == log0 + writes && st == Replay(st0, writes)
  }

  /** Two runs of writes, one after the other. */
  lemma FollowsAppend(log0: seq<Call>, st0: StoreState, log1: seq<Call>, st1: StoreState, w1: seq<Call>,
                      log2: seq<Call>, st2: StoreState, w2: seq<Call>)
    requires Follows(log0, st0, log1, st1, w1) && Follows(log1, st1, log2, st2, w2)
    ensures Follows(log0, st0, log2, st2, w1 + w2)
  {
    assert log0 + w1 + w2 == log0 + (w1 + w2);
    ReplayAppend(st0, w1, w2);
  }


  class Store {
    var tables: map<string, seq<Record>>
    var lastUid: nat
    /** Every write asked of the store, in order. */
    ghost var log: seq<Call>

    constructor ()
      ensures tables == map[] && lastUid == 0 && log == []
    {
      tables := map[];
      lastUid := 0;
      log := [];
    }

    function State(): StoreState
      reads this
    {
      StoreState(tables, lastUid)
    }

    function Rows(table: string): seq<Record>
      reads this
    {
      RowsOf(State(), table)
    }

    /** The rows of `table` whose DN is `dn`; the first one is `fetch(...)[0]`. */
    function Fetch(table: string, dn: string): (rows: seq<Record>)
      reads this
      ensures forall x :: x in rows <==> x in Rows(table) && StringOf(Get(x, DnField)) == dn
    {
      WithDn(Rows(table), dn)
    }

    /** Inserts `row` under a fresh, non-zero uid and returns the stored row. */
    method Add(table: string, row: Record) returns (stored: Record)
      modifies this
      ensures lastUid == old(lastUid) + 1
      ensures stored == row[UidField := Int(lastUid)]
      ensures tables == old(tables)[table := old(Rows(table)) + [stored]]
      ensures log == old(log) + [Added(table, row)]
      ensures State() == Apply(old(State()), Added(table, row))
      ensures Follows(old(log), old(State()), log, State(), [Added(table, row)])
    {
      lastUid := lastUid + 1;
      stored := row[UidField := Int(lastUid)];
      tables := tables[table := Rows(table) + [stored]];
      log := log + [Added(table, row)];
      ReplayStep(old(State()), [], Added(table, row));
    }

    /** Writes the columns of `row` into the row with the same uid; reports whether there was one. */
    method Update(table: string, row: Record) returns (success: bool)
      modifies this
      ensures success == Addresses(old(Rows(table)), row)
      ensures lastUid == old(lastUid)
      ensures tables == old(tables)[table := Overwrite(old(Rows(table)), row)]
      ensures log == old(log) + [Updated(table, row, success)]
      ensures State() == Apply(old(State()), Updated(table, row, success))
      ensures Follows(old(log), old(State()), log, State(), [Updated(table, row, success)])
    {
      var rows := Rows(table);
      success := exists i | 0 <= i < |rows| :: SameUid(rows[i], row);
      tables := tables[table := Overwrite(rows, row)];
      log := log + [Updated(table, row, success)];
      ReplayStep(old(State()), [], Updated(table, row, success));
    }
  }
}
