/** Deciding and staging a flush (src/flush.rs). */
module Flushes {
  import opened Bytes
  import opened Records
  import opened Memtables

  const BatchRows: nat := 8192

  datatype Plan = Write(watermark: nat) | AlreadyPublished(watermark: nat) | Empty

  /** What to do with a frozen table, given the derived watermark. */
  function PlanFor(published: nat, t: Table): Plan {
    if t.entries == map[] then Empty
    else if t.maxLsn <= published then AlreadyPublished(t.maxLsn)
    else Write(t.maxLsn)
  }

  /** One Arrow batch: four columns of equal length; `values` is nullable. */
  datatype Batch = Batch(pks: seq<Key>, lsns: seq<int>, ops: seq<int>, values: seq<Option<seq<byte>>>)

  datatype StagedRow = StagedRow(pk: Key, lsn: int, op: int, value: Option<seq<byte>>)

  /** `u64 as i64`. */
  function AsI64(lsn: nat): int
    requires lsn < U64
  {
    if lsn < U64 / 2 then lsn else lsn - U64
  }

  predicate Fits(rows: seq<Record>) {
    forall i :: 0 <= i < |rows| ==> rows[i].lsn < U64
  }

  function OpCode(op: Op): int {
    if op.Put? then 0 else 1
  }

  /** A tombstone is a row with a null value. */
  function Stage(row: Record): StagedRow
    requires row.lsn < U64
  {
    StagedRow(row.key, AsI64(row.lsn), OpCode(row.op), if row.op.Put? then Some(row.value) else None)
  }

  function StageAll(rows: seq<Record>): (s: seq<StagedRow>)
    requires Fits(rows)
    ensures |s| == |rows|
  {
    if rows == [] then [] else StageAll(rows[..|rows| - 1]) + [Stage(rows[|rows| - 1])]
  }

  predicate Rectangular(b: Batch) {
    |b.pks| == |b.lsns| == |b.ops| == |b.values|
  }

  function BatchContent(b: Batch): (s: seq<StagedRow>)
    requires Rectangular(b)
    ensures |s| == |b.pks|
  {
    seq(|b.pks|, i requires 0 <= i < |b.pks| => StagedRow(b.pks[i], b.lsns[i], b.ops[i], b.values[i]))
  }

  predicate AllRectangular(bs: seq<Batch>) {
    forall i :: 0 <= i < |bs| ==> Rectangular(bs[i])
  }

  function AllContent(bs: seq<Batch>): seq<StagedRow>
    requires AllRectangular(bs)
  {
    if bs == [] then [] else AllContent(bs[..|bs| - 1]) + BatchContent(bs[|bs| - 1])
  }

  /** Every batch but the last is full, and none is empty. */
  predicate WellChunked(bs: seq<Batch>) {
    forall i :: 0 <= i < |bs| ==> 0 < |bs[i].pks| <= BatchRows && (i < |bs| - 1 ==> |bs[i].pks| == BatchRows)
  }

  /** The column builders, filled row by row and drained a batch at a time. */
  class Builders {
    var pks: seq<Key>
    var lsns: seq<int>
    var ops: seq<int>
    var values: seq<Option<seq<byte>>>

    function View(): Batch
      reads this
    {
      Batch(pks, lsns, ops, values)
    }

    constructor ()
      ensures View() == Batch([], [], [], [])
    {
      pks, lsns, ops, values := [], [], [], [];
    }

    method Append(row: Record)
      requires Rectangular(View()) && row.lsn < U64
      modifies this
      ensures Rectangular(View()) && BatchContent(View()) == old(BatchContent(View())) + [Stage(row)]
    {
      pks := pks + [row.key];
      lsns := lsns + [AsI64(row.lsn)];
      ops := ops + [OpCode(row.op)];
      match row.op {
        case Put => values := values + [Some(row.value)];
        case Delete => values := values + [None];
      }
    }

    method Finish() returns (b: Batch)
      modifies this
      ensures b == old(View()) && View() == Batch([], [], [], [])
    {
      b := Batch(pks, lsns, ops, values);
      pks, lsns, ops, values := [], [], [], [];
    }
  }

  /** Chunk the table's rows, given in PK order, into batches. Nothing is lost, added or
      reordered, and a value is null exactly for a tombstone. */
  method Batches(rows: seq<Record>) returns (out: seq<Batch>)
    requires Fits(rows)
    ensures AllRectangular(out) && AllContent(out) == StageAll(rows) && WellChunked(out)
  {
    hide BatchContent, StageAll, Stage, AllContent;
    out := [];
    var builders := new Builders();
    var count := 0;
    NothingStaged();
    assert rows[..0] == [];
    for i := 0 to |rows|
      invariant Rectangular(builders.View()) && |builders.pks| == count < BatchRows
      invariant AllRectangular(out) && forall j :: 0 <= j < |out| ==> |out[j].pks| == BatchRows
      invariant AllContent(out) + BatchContent(builders.View()) == StageAll(rows[..i])
    {
      ghost var before := BatchContent(builders.View());
      builders.Append(rows[i]);
      StageSnoc(rows, i);
      Grouping(AllContent(out), before, [Stage(rows[i])]);
      count := count + 1;
      if count == BatchRows {
        var b := builders.Finish();
        out := Emit(out, b);
        count := 0;
      }
    }
    assert rows[..|rows|] == rows;
    if count > 0 {
      var b := builders.Finish();
      out := Emit(out, b);
    }
  }

  lemma NothingStaged()
    ensures BatchContent(Batch([], [], [], [])) == [] && StageAll([]) == [] && AllContent([]) == []
  {
  }

  lemma StageSnoc(rows: seq<Record>, i: nat)
    requires Fits(rows) && i < |rows|
    ensures StageAll(rows[..i + 1]) == StageAll(rows[..i]) + [Stage(rows[i])]
  {
    assert rows[..i + 1][..i] == rows[..i];
  }

  lemma Grouping<T>(x: seq<T>, y: seq<T>, z: seq<T>)
    ensures x + (y + z) == (x + y) + z
  {
  }

  method Emit(out: seq<Batch>, b: Batch) returns (out': seq<Batch>)
    requires AllRectangular(out) && Rectangular(b)
    ensures out' == out + [b] && AllRectangular(out') && AllContent(out') == AllContent(out) + BatchContent(b)
  {
    out' := out + [b];
    assert out'[..|out|] == out;
  }

  /** What the publisher's `SELECT pk, lsn, op, value` reads back from a staged row. */
  function Unstage(s: StagedRow): Record {
    Record(s.pk, s.lsn % U64,
           if s.op == 1 then Delete else Put,
           match s.value case Some(v) => v case None => [])
  }

  /** Staging is lossless exactly for rows whose tombstones carry no value, as every tombstone
      the engine makes does. The LSN fits the signed column, is the row's own exactly below 2^63,
      and keeps the LSN order there; the op column is 0 for a put and 1 for a tombstone. */
  lemma StagingIsLossless(row: Record, other: Record)
    requires row.lsn < U64 && other.lsn < U64
    ensures Unstage(Stage(row)) == row <==> (row.op.Delete? ==> row.value == [])
    ensures Stage(row).value == None <==> row.op.Delete?
    ensures Stage(row).op == 0 <==> row.op.Put?
    ensures Stage(row).op == 1 <==> row.op.Delete?
    ensures -(U64 / 2) <= Stage(row).lsn < U64 / 2 && Stage(row).lsn % U64 == row.lsn
    ensures Stage(row).lsn == row.lsn <==> row.lsn < U64 / 2
    ensures row.lsn < U64 / 2 && other.lsn < U64 / 2 ==> (Stage(row).lsn < Stage(other).lsn <==> row.lsn < other.lsn)
  {
  }

  /** Staged batches keep a table's rows in strictly increasing key order. */
  lemma {:induction false} StagedKeysIncrease(rows: seq<Record>)
    requires Fits(rows) && SortedRows(rows)
    ensures forall i, j :: 0 <= i < j < |rows| ==> Less(StageAll(rows)[i].pk, StageAll(rows)[j].pk)
    ensures forall i :: 0 <= i < |rows| ==> StageAll(rows)[i] == Stage(rows[i])
  {
    if rows != [] {
      var n := |rows| - 1;
      assert forall i :: 0 <= i < n ==> rows[..n][i] == rows[i];
      StagedKeysIncrease(rows[..n]);
    }
  }
}
