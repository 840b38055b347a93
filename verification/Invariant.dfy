/** The invariant every guarded step keeps. */
module ProtocolInvariant {
  import opened Bytes
  import opened Records
  import opened Frames
  import opened WalLog
  import opened WalContents
  import opened Memtables
  import opened Lake
  import opened Flushes
  import opened Protocol

  type Layer = map<Key, Entry>

  function EntriesOf(tables: seq<Table>): seq<Layer> {
    seq(|tables|, i requires 0 <= i < |tables| => tables[i].entries)
  }

  /** The oldest frozen table is in the lake but not yet retired: the test `plan` makes. */
  predicate OldestPublished(s: State) {
    s.tables.frozen != [] && s.tables.frozen[0].maxLsn <= PublishedWatermark(s.lake)
  }

  function Unpublished(s: State): seq<Table> {
    if OldestPublished(s) then s.tables.frozen[1..] else s.tables.frozen
  }

  /** Every record's one home, oldest layer first: files, tables not yet published, active. */
  function Layers(s: State): seq<Layer> {
    Contents(s.lake) + EntriesOf(Unpublished(s)) + [s.tables.active.entries]
  }

  ghost predicate LayerSound(layer: Layer, history: set<Record>) {
    forall k :: k in layer ==> RecordAt(k, layer[k]) in history
  }

  /** Everything in `b` outranks everything in `a`. */
  ghost predicate Below(a: Layer, b: Layer) {
    forall k, m :: k in a && m in b ==> a[k].lsn < b[m].lsn
  }

  ghost predicate Under(layer: Layer, flying: set<Record>) {
    forall k, r :: k in layer && r in flying ==> layer[k].lsn < r.lsn
  }

  predicate Holds(layer: Layer, r: Record) {
    r.key in layer && layer[r.key].lsn >= r.lsn
  }

  /** Entries of every layer are in the history. */
  ghost predicate Sound(layers: seq<Layer>, history: set<Record>) {
    forall i :: 0 <= i < |layers| ==> LayerSound(layers[i], history)
  }

  /** Everything in a newer layer outranks everything in an older one. */
  ghost predicate Separated(layers: seq<Layer>) {
    forall i, j :: 0 <= i < j < |layers| ==> Below(layers[i], layers[j])
  }

  /** Some layer holds this record or one for its key that outranks it. */
  ghost predicate Represented(layers: seq<Layer>, r: Record) {
    exists i :: 0 <= i < |layers| && Holds(layers[i], r)
  }

  /** Writes in flight outrank everything below the newest layer. */
  ghost predicate FlyAbove(layers: seq<Layer>, flying: set<Record>) {
    forall i :: 0 <= i < |layers| - 1 ==> Under(layers[i], flying)
  }

  ghost predicate LayersOk(layers: seq<Layer>, history: set<Record>, flying: set<Record>) {
    && Sound(layers, history)
    && Separated(layers)
    && (forall r :: r in history ==> Represented(layers, r))
    && FlyAbove(layers, flying)
  }

  ghost predicate LsnsUnique(records: set<Record>) {
    forall r, q :: r in records && q in records && r.lsn == q.lsn ==> r == q
  }

  ghost predicate LsnsInv(s: State) {
    && s.nextLsn >= 1
    && LsnsUnique(s.history + InFlight(s))
    && (forall r :: r in s.history + InFlight(s) ==> 1 <= r.lsn < s.nextLsn)
    && (forall r :: r in s.pending ==> Encodable(r))
    && s.pending !! s.logged && InFlight(s) !! s.history
  }

  /** Nothing the engine vouches for depends on memory alone. */
  ghost predicate DurableInv(s: State) {
    && (forall r :: r in s.history ==> r.lsn <= PublishedWatermark(s.lake) || r in Bag(s.wal.disk))
    && (forall r :: r in s.logged ==> r in Bag(s.wal.disk))
    && (forall r :: r in Bag(s.wal.disk) ==> r in s.history || r in s.logged)
  }

  ghost predicate TablesInv(s: State) {
    && ExactMax(s.tables.active)
    && (forall i :: 0 <= i < |s.tables.frozen| ==> ExactMax(s.tables.frozen[i]) && s.tables.frozen[i].entries != map[])
  }

  /** The index shows every file, or every file but the one whose table is still frozen. */
  ghost predicate LakeInv(s: State) {
    && GoodLake(s.lake)
    && (OldestPublished(s) ==> s.lake != [] && Content(s.lake[|s.lake| - 1]) == s.tables.frozen[0].entries)
    && (s.index == IndexOf(s.lake)
        || (OldestPublished(s) && s.lake != [] && s.index == IndexOf(s.lake[..|s.lake| - 1])))
  }

  ghost predicate FlushInv(s: State) {
    !s.flush.Idle? ==>
      && s.flush.at == 0 && s.tables.frozen != [] && s.flush.w == s.tables.frozen[0].maxLsn
      && (s.flush.Planned? || s.flush.Staged? ==> !OldestPublished(s))
      && (s.flush.Staged? ==> s.flush.w in s.staging && IsScan(s.staging[s.flush.w], s.tables.frozen[0].entries))
      && (s.flush.Published? ==> OldestPublished(s))
      && (s.flush.Indexed? || s.flush.Truncated? ==> OldestPublished(s) && s.index == IndexOf(s.lake))
  }

  ghost predicate Inv(s: State) {
    && WalInv(s.wal)
    && LsnsInv(s)
    && LayersOk(Layers(s), s.history, InFlight(s))
    && DurableInv(s)
    && TablesInv(s)
    && LakeInv(s)
    && FlushInv(s)
  }

  // ---- The derived watermark -----------------------------------------------------------------------

  lemma FileWatermark(f: File)
    requires WellFormed(f)
    ensures forall k :: k in Content(f) ==> Content(f)[k].lsn <= f.watermark
    ensures Content(f) != map[]
    ensures f.watermark > 0 ==> exists k :: k in Content(f) && Content(f)[k].lsn == f.watermark
  {
    hide SortedRows, MaxLsn, ContentOf;
    var rows := AllRows(f.groups);
    ContentHas(rows);
    MaxLsnBounds(rows);
    forall k | k in Content(f)
      ensures Content(f)[k].lsn <= f.watermark
    {
      var i :| 0 <= i < |rows| && rows[i] == RecordAt(k, Content(f)[k]);
    }
    assert rows[0] in rows;
    if f.watermark > 0 {
      var i :| 0 <= i < |rows| && rows[i].lsn == MaxLsn(rows);
      assert rows[i] in rows;
    }
  }

  lemma {:induction false} LakeWatermark(lake: seq<File>)
    requires IncreasingWatermarks(lake)
    ensures PublishedWatermark(lake) == if lake == [] then 0 else lake[|lake| - 1].watermark
  {
    if lake != [] {
      LakeWatermark(lake[..|lake| - 1]);
    }
  }

  function NewestContent(lake: seq<File>): Layer {
    if lake == [] then map[] else Content(lake[|lake| - 1])
  }

  /** The watermark is the highest LSN in the newest file, and bounds every file's rows. */
  lemma WatermarkBounds(lake: seq<File>)
    requires GoodLake(lake)
    ensures forall i, k :: 0 <= i < |lake| && k in Content(lake[i]) ==> Content(lake[i])[k].lsn <= PublishedWatermark(lake)
    ensures PublishedWatermark(lake) > 0 ==>
              exists k :: k in NewestContent(lake) && NewestContent(lake)[k].lsn == PublishedWatermark(lake)
  {
    hide WellFormed, Content;
    GoodLakeWatermarks(lake);
    LakeWatermark(lake);
    forall i, k | 0 <= i < |lake| && k in Content(lake[i])
      ensures Content(lake[i])[k].lsn <= PublishedWatermark(lake)
    {
      FileWatermark(lake[i]);
      assert lake[i].watermark <= lake[|lake| - 1].watermark;
    }
    if PublishedWatermark(lake) > 0 {
      FileWatermark(lake[|lake| - 1]);
      assert NewestContent(lake) == Content(lake[|lake| - 1]);
    }
  }

  /** Anything strictly above every published row is above the watermark. */
  lemma AboveWatermark(lake: seq<File>, lsn: nat)
    requires GoodLake(lake) && lsn >= 1
    requires forall k :: k in NewestContent(lake) ==> NewestContent(lake)[k].lsn < lsn
    ensures PublishedWatermark(lake) < lsn
  {
    hide GoodLake;
    WatermarkBounds(lake);
  }
}
