/** The row tier's in-memory level (src/memtable.rs): one active memtable and the frozen ones
    awaiting flush. `Table` and `Tables` are their values; the classes update in place. */
module Memtables {
  import opened Bytes
  import opened Records

  datatype Entry = Entry(lsn: nat, op: Op, value: seq<byte>)

  datatype Lookup = Found(value: seq<byte>) | Deleted | Missing

  datatype Table = Table(entries: map<Key, Entry>, approxBytes: nat, maxLsn: nat)

  /** The active table, and the frozen tables oldest first. */
  datatype Tables = Tables(active: Table, frozen: seq<Table>)

  const EmptyTable := Table(map[], 0, 0)

  function EntryOf(rec: Record): Entry {
    Entry(rec.lsn, rec.op, rec.value)
  }

  function RecordAt(key: Key, e: Entry): Record {
    Record(key, e.lsn, e.op, e.value)
  }

  function Answer(e: Entry): Lookup {
    if e.op.Put? then Found(e.value) else Deleted
  }

  /** A record takes its key's place only if it outranks what is there. */
  function Merged(entries: map<Key, Entry>, rec: Record): map<Key, Entry> {
    if rec.key in entries && !(entries[rec.key].lsn < rec.lsn) then entries
    else entries[rec.key := EntryOf(rec)]
  }

  function Inserted(t: Table, rec: Record): Table {
    Table(Merged(t.entries, rec), t.approxBytes + HeapSize(rec),
          if t.maxLsn < rec.lsn then rec.lsn else t.maxLsn)
  }

  function InsertedAll(t: Table, recs: seq<Record>): Table {
    if recs == [] then t else Inserted(InsertedAll(t, recs[..|recs| - 1]), recs[|recs| - 1])
  }

  function LookupIn(t: Table, key: Key): Lookup {
    if key in t.entries then Answer(t.entries[key]) else Missing
  }

  /** The newest frozen table that has an opinion, among the first `n`. */
  function LookupFrozen(frozen: seq<Table>, key: Key): Lookup {
    if frozen == [] then Missing
    else
      var hit := LookupIn(frozen[|frozen| - 1], key);
      if hit.Missing? then LookupFrozen(frozen[..|frozen| - 1], key) else hit
  }

  function LookupTables(ts: Tables, key: Key): Lookup {
    var hit := LookupIn(ts.active, key);
    if hit.Missing? then LookupFrozen(ts.frozen, key) else hit
  }

  // ---- The watermark a memtable carries is exact ---------------------------------------------

  /** `maxLsn` is the highest LSN among the entries still in the table. */
  ghost predicate ExactMax(t: Table) {
    && (forall k :: k in t.entries ==> t.entries[k].lsn <= t.maxLsn)
    && (t.entries == map[] ==> t.maxLsn == 0)
    && (t.entries != map[] ==> exists k :: k in t.entries && t.entries[k].lsn == t.maxLsn)
  }

  lemma InsertedExact(t: Table, rec: Record)
    requires ExactMax(t)
    ensures ExactMax(Inserted(t, rec)) && Inserted(t, rec).entries != map[]
  {
    var t' := Inserted(t, rec);
    assert rec.key in t'.entries;
    if t.entries != map[] {
      var k :| k in t.entries && t.entries[k].lsn == t.maxLsn;
      assert k in t'.entries;
    }
  }

  lemma {:induction false} WatermarkIsExact(recs: seq<Record>)
    ensures ExactMax(InsertedAll(EmptyTable, recs))
    ensures InsertedAll(EmptyTable, recs).entries == map[] <==> recs == []
  {
    if recs != [] {
      WatermarkIsExact(recs[..|recs| - 1]);
      InsertedExact(InsertedAll(EmptyTable, recs[..|recs| - 1]), recs[|recs| - 1]);
    }
  }

  // ---- Arrival order does not matter ------------------------------------------------------------

  predicate LsnsIdentify(recs: seq<Record>) {
    forall r, q :: r in recs && q in recs && r.lsn == q.lsn ==> r == q
  }

  lemma InsertsCommute(t: Table, a: Record, b: Record)
    requires a.lsn == b.lsn ==> a == b
    ensures Inserted(Inserted(t, a), b) == Inserted(Inserted(t, b), a)
  {
    if a.key != b.key {
      assert t.entries[a.key := EntryOf(a)][b.key := EntryOf(b)] == t.entries[b.key := EntryOf(b)][a.key := EntryOf(a)];
    }
  }

  lemma InsertedSnoc(t: Table, recs: seq<Record>, rec: Record)
    ensures InsertedAll(t, recs + [rec]) == Inserted(InsertedAll(t, recs), rec)
  {
    assert (recs + [rec])[..|recs|] == recs;
  }

  /** Inserting the record at `i` last instead makes no difference. */
  lemma {:induction false} InsertLater(t: Table, recs: seq<Record>, i: nat)
    requires LsnsIdentify(recs) && i < |recs|
    ensures InsertedAll(t, recs) == Inserted(InsertedAll(t, recs[..i] + recs[i + 1..]), recs[i])
    decreases |recs|
  {
    hide Inserted;
    var n := |recs| - 1;
    var init, last := recs[..n], recs[n];
    if i == n {
      assert recs[..i] + recs[i + 1..] == init;
    } else {
      hide InsertedAll;
      InsertLater(t, init, i);
      var rest := init[..i] + init[i + 1..];
      assert recs[..i] + recs[i + 1..] == rest + [last];
      assert recs == init + [last];
      InsertedSnoc(t, init, last);
      InsertedSnoc(t, rest, last);
      InsertsCommute(InsertedAll(t, rest), recs[i], last);
    }
  }

  lemma WithoutOne<T>(s: seq<T>, i: nat)
    requires i < |s|
    ensures multiset(s) == multiset(s[..i] + s[i + 1..]) + multiset{s[i]}
    ensures i == |s| - 1 ==> s[..i] + s[i + 1..] == s[..i]
  {
    assert s == s[..i] + [s[i]] + s[i + 1..];
  }

  /** The same records inserted in any order build the same table, so replaying the log
      rebuilds what the live writers built. */
  lemma {:induction false} ArrivalOrderIsIrrelevant(t: Table, a: seq<Record>, b: seq<Record>)
    requires multiset(a) == multiset(b) && LsnsIdentify(a)
    ensures InsertedAll(t, a) == InsertedAll(t, b)
    decreases |a|
  {
    if a == [] {
      assert |multiset(b)| == |b| && |multiset(a)| == 0;
    } else {
      hide InsertedAll, Inserted;
      var n := |a| - 1;
      var i := MatchLast(a, b);
      SameMembers(a, b);
      InsertLater(t, b, i);
      assert a == a[..n] + [a[n]];
      InsertedSnoc(t, a[..n], a[n]);
      ArrivalOrderIsIrrelevant(t, a[..n], b[..i] + b[i + 1..]);
    }
  }

  lemma SameMembers(a: seq<Record>, b: seq<Record>)
    requires multiset(a) == multiset(b) && LsnsIdentify(a)
    ensures LsnsIdentify(b)
    ensures a != [] ==> LsnsIdentify(a[..|a| - 1])
  {
    assert forall r :: r in b ==> r in multiset(a);
  }

  lemma MatchLast(a: seq<Record>, b: seq<Record>) returns (i: nat)
    requires a != [] && multiset(a) == multiset(b)
    ensures i < |b| && b[i] == a[|a| - 1]
    ensures multiset(a[..|a| - 1]) == multiset(b[..i] + b[i + 1..])
  {
    var n := |a| - 1;
    assert a[n] in multiset(b);
    i :| 0 <= i < |b| && b[i] == a[n];
    WithoutOne(a, n);
    WithoutOne(b, i);
    assert a[..n] + a[n + 1..] == a[..n];
    CancelOne(multiset(a[..n]), multiset(b[..i] + b[i + 1..]), a[n]);
  }

  lemma CancelOne<T>(x: multiset<T>, y: multiset<T>, e: T)
    requires x + multiset{e} == y + multiset{e}
    ensures x == y
  {
    assert forall z :: x[z] == (x + multiset{e})[z] - multiset{e}[z];
    assert forall z :: y[z] == (y + multiset{e})[z] - multiset{e}[z];
  }

  /** What a table built from records holds: for each key, the record with the highest LSN. */
  lemma {:induction false} InsertedAllHolds(t: Table, recs: seq<Record>)
    ensures var all := InsertedAll(t, recs);
            && (forall r :: r in recs ==> r.key in all.entries && all.entries[r.key].lsn >= r.lsn)
            && (forall k :: k in t.entries ==> k in all.entries && all.entries[k].lsn >= t.entries[k].lsn)
            && (forall k :: k in all.entries ==>
                  RecordAt(k, all.entries[k]) in recs || (k in t.entries && all.entries[k] == t.entries[k]))
  {
    if recs != [] {
      var init := recs[..|recs| - 1];
      InsertedAllHolds(t, init);
      assert forall r :: r in recs <==> r in init || r == recs[|recs| - 1];
    }
  }

  // ---- The size estimate ---------------------------------------------------------------------------

  /** Key and value bytes and 64 of overhead for each record. */
  function Footprint(recs: seq<Record>): nat {
    if recs == [] then 0
    else Footprint(recs[..|recs| - 1]) + |recs[|recs| - 1].key| + |recs[|recs| - 1].value| + 64
  }

  /** The same over the entries still in a table. */
  ghost function HeldBytes(entries: map<Key, Entry>): nat
    decreases |entries|
  {
    if entries == map[] then 0
    else
      var k :| k in entries;
      assert (entries - {k}).Keys == entries.Keys - {k};
      |k| + |entries[k].value| + 64 + HeldBytes(entries - {k})
  }

  /** The estimate never falls below what the table holds. */
  ghost predicate Sized(t: Table) {
    HeldBytes(t.entries) <= t.approxBytes
  }

  lemma {:induction false} HeldSplit(entries: map<Key, Entry>, k: Key)
    requires k in entries
    ensures HeldBytes(entries) == |k| + |entries[k].value| + 64 + HeldBytes(entries - {k})
    decreases |entries|
  {
    var p :| p in entries && HeldBytes(entries) == |p| + |entries[p].value| + 64 + HeldBytes(entries - {p});
    assert (entries - {p}).Keys == entries.Keys - {p};
    if p != k {
      assert (entries - {k}).Keys == entries.Keys - {k};
      HeldSplit(entries - {p}, k);
      HeldSplit(entries - {k}, p);
      assert entries - {p} - {k} == entries - {k} - {p};
    }
  }

  lemma InsertedSized(t: Table, rec: Record)
    requires Sized(t)
    ensures Sized(Inserted(t, rec))
  {
    var m, m' := t.entries, Merged(t.entries, rec);
    if m' != m {
      HeldSplit(m', rec.key);
      assert m' - {rec.key} == m - {rec.key};
      if rec.key in m {
        HeldSplit(m, rec.key);
      } else {
        assert m - {rec.key} == m;
      }
    }
  }

  /** After any inserts the estimate is the exact total over every record inserted, losers
      included, and so at least what the surviving entries take. */
  lemma {:induction false} SizeEstimateIsExact(recs: seq<Record>)
    ensures InsertedAll(EmptyTable, recs).approxBytes == Footprint(recs)
    ensures HeldBytes(InsertedAll(EmptyTable, recs).entries) <= Footprint(recs)
  {
    if recs != [] {
      var init := recs[..|recs| - 1];
      SizeEstimateIsExact(init);
      InsertedSized(InsertedAll(EmptyTable, init), recs[|recs| - 1]);
    }
  }

  // ---- PK-sorted iteration --------------------------------------------------------------------------

  predicate SortedRows(rows: seq<Record>) {
    forall i, j :: 0 <= i < j < |rows| ==> Less(rows[i].key, rows[j].key)
  }

  predicate HasKey(rows: seq<Record>, key: Key) {
    exists i :: 0 <= i < |rows| && rows[i].key == key
  }

  /** `rows` are the table's entries, each once, in strictly increasing key order. */
  ghost predicate IsScan(rows: seq<Record>, entries: map<Key, Entry>) {
    && SortedRows(rows)
    && (forall i :: 0 <= i < |rows| ==> rows[i].key in entries && entries[rows[i].key] == EntryOf(rows[i]))
    && (forall k :: k in entries ==> HasKey(rows, k))
  }

  class Memtable {
    var entries: map<Key, Entry>
    var approxBytes: nat
    var maxLsn: nat

    function View(): Table
      reads this
    {
      Table(entries, approxBytes, maxLsn)
    }

    constructor ()
      ensures View() == EmptyTable
    {
      entries, approxBytes, maxLsn := map[], 0, 0;
    }

    method Insert(rec: Record)
      modifies this
      ensures View() == Inserted(old(View()), rec)
    {
      var size, lsn := HeapSize(rec), rec.lsn;
      if rec.key !in entries || entries[rec.key].lsn < lsn {
        entries := entries[rec.key := Entry(lsn, rec.op, rec.value)];
      }
      approxBytes := approxBytes + size;
      if maxLsn < lsn {
        maxLsn := lsn;
      }
    }

    method Get(key: Key) returns (hit: Lookup)
      ensures hit == LookupIn(View(), key)
    {
      if key !in entries {
        hit := Missing;
      } else {
        hit := if entries[key].op.Put? then Found(entries[key].value) else Deleted;
      }
    }

    /** The entries in key order: the skiplist's own iteration order. */
    method Iter() returns (rows: seq<Record>)
      ensures IsScan(rows, entries)
    {
      rows := [];
      var left := entries;
      while left != map[]
        invariant left.Keys <= entries.Keys && forall k :: k in left ==> left[k] == entries[k]
        invariant IsScan(rows, entries - left.Keys)
        decreases |left|
      {
        assert left.Keys != {};
        var key :| key in left.Keys;
        rows := InsertRow(rows, RecordAt(key, left[key]), entries - left.Keys);
        ghost var left' := left - {key};
        assert |left'.Keys| < |left.Keys| by { assert left'.Keys == left.Keys - {key}; }
        assert entries - left'.Keys == (entries - left.Keys)[key := entries[key]];
        left := left - {key};
      }
      assert entries - {} == entries;
    }
  }

  method InsertRow(rows: seq<Record>, row: Record, ghost entries: map<Key, Entry>) returns (out: seq<Record>)
    requires IsScan(rows, entries) && row.key !in entries
    ensures IsScan(out, entries[row.key := EntryOf(row)])
  {
    var i := |rows|;
    while i > 0 && Less(row.key, rows[i - 1].key)
      invariant 0 <= i <= |rows|
      invariant forall j :: i <= j < |rows| ==> Less(row.key, rows[j].key)
      decreases i
    {
      i := i - 1;
    }
    out := rows[..i] + [row] + rows[i..];
    if i > 0 {
      LessTotal(row.key, rows[i - 1].key);
      assert rows[i - 1].key in entries;
    }
    SortedAround(rows, row, i);
    ScanGains(rows, row, i, entries);
  }

  lemma SortedAround(rows: seq<Record>, row: Record, i: nat)
    requires SortedRows(rows) && i <= |rows|
    requires i > 0 ==> Less(rows[i - 1].key, row.key)
    requires forall j :: i <= j < |rows| ==> Less(row.key, rows[j].key)
    ensures SortedRows(rows[..i] + [row] + rows[i..])
  {
    hide Less;
    var out := rows[..i] + [row] + rows[i..];
    forall j | 0 <= j < i
      ensures Less(rows[j].key, row.key)
    {
      if j < i - 1 {
        LessTransitive(rows[j].key, rows[i - 1].key, row.key);
      }
    }
    assert forall j :: 0 <= j < i ==> out[j] == rows[j];
    assert forall j :: i < j < |out| ==> out[j] == rows[j - 1];
  }

  lemma ScanGains(rows: seq<Record>, row: Record, i: nat, entries: map<Key, Entry>)
    requires IsScan(rows, entries) && row.key !in entries && i <= |rows|
    requires SortedRows(rows[..i] + [row] + rows[i..])
    ensures IsScan(rows[..i] + [row] + rows[i..], entries[row.key := EntryOf(row)])
  {
    hide SortedRows;
    var out, entries' := rows[..i] + [row] + rows[i..], entries[row.key := EntryOf(row)];
    assert forall j :: 0 <= j < i ==> out[j] == rows[j];
    assert forall j :: i < j < |out| ==> out[j] == rows[j - 1];
    assert out[i] == row;
    forall k: Key | k in entries'
      ensures HasKey(out, k)
    {
      if k != row.key {
        assert HasKey(rows, k);
        var j :| 0 <= j < |rows| && rows[j].key == k;
        assert out[if j < i then j else j + 1].key == k;
      }
    }
  }

  function Views(frozen: seq<Memtable>): (views: seq<Table>)
    reads frozen
    ensures |views| == |frozen| && forall i :: 0 <= i < |frozen| ==> views[i] == frozen[i].View()
  {
    if frozen == [] then [] else Views(frozen[..|frozen| - 1]) + [frozen[|frozen| - 1].View()]
  }

  class MemtableSet {
    var active: Memtable
    var frozen: seq<Memtable>
    const maxBytes: nat
    const maxFrozen: nat

    /** The active table is not frozen, and no table is queued twice. */
    ghost predicate Valid()
      reads this
    {
      && active !in frozen
      && (forall i, j :: 0 <= i < j < |frozen| ==> frozen[i] != frozen[j])
    }

    function View(): Tables
      reads this, active, frozen
    {
      Tables(active.View(), Views(frozen))
    }

    constructor (maxBytes: nat, maxFrozen: nat)
      requires maxFrozen > 0
      ensures Valid() && View() == Tables(EmptyTable, []) && fresh(active) && frozen == []
      ensures this.maxBytes == maxBytes && this.maxFrozen == maxFrozen
    {
      this.maxBytes, this.maxFrozen := maxBytes, maxFrozen;
      active := new Memtable();
      frozen := [];
    }

    method Insert(rec: Record)
      requires Valid()
      modifies active
      ensures Valid()
      ensures View() == old(View()).(active := Inserted(old(active.View()), rec))
    {
      active.Insert(rec);
    }

    method Get(key: Key) returns (hit: Lookup)
      ensures hit == LookupTables(View(), key)
    {
      hit := active.Get(key);
      if hit != Missing {
        return;
      }
      ghost var views := Views(frozen);
      assert views[..|frozen|] == views;
      for i := |frozen| downto 0
        invariant LookupFrozen(views, key) == LookupFrozen(views[..i], key)
      {
        assert views[..i + 1][..i] == views[..i] && views[..i + 1][i] == frozen[i].View();
        hit := frozen[i].Get(key);
        if hit != Missing {
          return;
        }
      }
      hit := Missing;
    }

    method ShouldFreeze() returns (b: bool)
      ensures b == (active.approxBytes >= maxBytes)
    {
      b := active.approxBytes >= maxBytes;
    }

    /** Swap in a fresh active table and queue the old one; refuse when the queue is full, and
        do nothing when there is nothing to flush. */
    method Freeze() returns (r: Result<Option<Memtable>, nat>)
      requires Valid()
      modifies this
      ensures Valid()
      ensures r.Err? <==> |old(frozen)| >= maxFrozen
      ensures r.Err? ==> r.error == |old(frozen)|
      ensures r == Ok(None) <==> |old(frozen)| < maxFrozen && old(active.entries) == map[]
      ensures (r.Err? || r.value.None?) ==> unchanged(this)
      ensures r.Ok? && r.value.Some? ==>
                && r.value.value == old(active)
                && fresh(active) && active.View() == EmptyTable
                && frozen == old(frozen) + [old(active)]
                && View() == Tables(EmptyTable, old(Views(frozen)) + [old(active.View())])
    {
      if |frozen| >= maxFrozen {
        return Err(|frozen|);
      }
      if active.entries == map[] {
        return Ok(None);
      }
      var sealed := active;
      active := new Memtable();
      frozen := frozen + [sealed];
      assert frozen[..|frozen| - 1] == old(frozen);
      r := Ok(Some(sealed));
    }

    /** Drop a flushed table from the queue, by identity; the rest keep their order. */
    method Retire(flushed: Memtable)
      requires Valid()
      modifies this`frozen
      ensures Valid() && frozen == Without(old(frozen), flushed)
    {
      var keep := [];
      assert frozen[..|frozen|] == frozen;
      for i := 0 to |frozen|
        invariant unchanged(this)
        invariant keep == Without(frozen[..i], flushed)
      {
        assert frozen[..i + 1][..i] == frozen[..i];
        if frozen[i] != flushed {
          keep := keep + [frozen[i]];
        }
      }
      WithoutDistinct(frozen, flushed);
      frozen := keep;
    }
  }

  function Without(queue: seq<Memtable>, mt: Memtable): seq<Memtable> {
    if queue == [] then []
    else
      var n := |queue| - 1;
      Without(queue[..n], mt) + if queue[n] != mt then [queue[n]] else []
  }

  lemma {:induction false} WithoutDistinct(queue: seq<Memtable>, mt: Memtable)
    requires forall i, j :: 0 <= i < j < |queue| ==> queue[i] != queue[j]
    ensures forall m :: m in Without(queue, mt) <==> m in queue && m != mt
    ensures forall i, j :: 0 <= i < j < |Without(queue, mt)| ==> Without(queue, mt)[i] != Without(queue, mt)[j]
  {
    if queue != [] {
      var n := |queue| - 1;
      WithoutDistinct(queue[..n], mt);
      assert forall m :: m in queue <==> m in queue[..n] || m == queue[n];
      assert queue[n] !in queue[..n];
    }
  }

  /** Retiring a queued table removes its one slot. */
  lemma {:induction false} WithoutAt(queue: seq<Memtable>, at: nat)
    requires at < |queue| && forall i, j :: 0 <= i < j < |queue| ==> queue[i] != queue[j]
    ensures Without(queue, queue[at]) == queue[..at] + queue[at + 1..]
  {
    var n := |queue| - 1;
    if at == n {
      NoneWithout(queue[..n], queue[n]);
    } else {
      WithoutAt(queue[..n], at);
      assert queue[..n][..at] + queue[..n][at + 1..] + [queue[n]] == queue[..at] + queue[at + 1..];
    }
  }

  lemma {:induction false} NoneWithout(queue: seq<Memtable>, mt: Memtable)
    requires mt !in queue
    ensures Without(queue, mt) == queue
  {
    if queue != [] {
      NoneWithout(queue[..|queue| - 1], mt);
    }
  }
}
