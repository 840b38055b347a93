/** Each guarded step keeps the protocol's invariant. */
module ProtocolSteps {
  import opened Bytes
  import opened Records
  import opened Frames
  import opened WalLog
  import opened WalContents
  import opened Memtables
  import opened Lake
  import opened Flushes
  import opened Protocol
  import opened ProtocolInvariant

  // ---- Layers ----------------------------------------------------------------------------------

  lemma LayerAt(s: State)
    ensures var layers, n := Layers(s), |s.lake|;
            && |layers| == n + |Unpublished(s)| + 1
            && (forall i :: 0 <= i < n ==> layers[i] == Content(s.lake[i]))
            && (forall i :: 0 <= i < |Unpublished(s)| ==> layers[n + i] == Unpublished(s)[i].entries)
            && layers[|layers| - 1] == s.tables.active.entries
  {
  }

  lemma LayersSplit(base: seq<Layer>, last: Layer)
    ensures forall i :: 0 <= i < |base| ==> (base + [last])[i] == base[i]
    ensures (base + [last])[|base|] == last
  {
  }

  lemma SnocLayers(base: seq<Layer>, last: Layer, history: set<Record>, flying: set<Record>)
    ensures LayersOk(base + [last], history, flying)
            <==> && Sound(base, history) && LayerSound(last, history)
                 && Separated(base) && (forall i :: 0 <= i < |base| ==> Below(base[i], last))
                 && (forall r :: r in history ==> Represented(base, r) || Holds(last, r))
                 && (forall i :: 0 <= i < |base| ==> Under(base[i], flying))
  {
    hide LayerSound, Below, Holds, Under;
    LayersSplit(base, last);
    var all := base + [last];
    forall r | r in history
      ensures Represented(all, r) <==> Represented(base, r) || Holds(last, r)
    {
      if Represented(base, r) {
        var i :| 0 <= i < |base| && Holds(base[i], r);
        assert Holds(all[i], r);
      }
      if Holds(last, r) {
        assert Holds(all[|base|], r);
      }
    }
    if Sound(all, history) {
      assert forall i :: 0 <= i < |base| ==> LayerSound(all[i], history);
    }
    if Separated(all) {
      assert forall i, j :: 0 <= i < j < |base| ==> Below(all[i], all[j]);
      assert forall i :: 0 <= i < |base| ==> Below(all[i], all[|base|]);
    }
    if FlyAbove(all, flying) {
      assert forall i :: 0 <= i < |base| ==> Under(all[i], flying);
    }
  }

  lemma MergedLayer(active: Layer, history: set<Record>, rec: Record)
    requires LayerSound(active, history)
    ensures LayerSound(Merged(active, rec), history + {rec}) && Holds(Merged(active, rec), rec)
    ensures forall r :: Holds(active, r) ==> Holds(Merged(active, rec), r)
    ensures forall a: Layer :: Below(a, active) && Under(a, {rec}) ==> Below(a, Merged(active, rec))
  {
  }

  lemma AcknowledgeLayers(base: seq<Layer>, active: Layer, history: set<Record>, flying: set<Record>, rec: Record, left: set<Record>)
    requires LayersOk(base + [active], history, flying) && rec in flying && left <= flying
    ensures LayersOk(base + [Merged(active, rec)], history + {rec}, left)
  {
    hide LayersOk, Below, Holds, Separated, Represented, Merged;
    SnocLayers(base, active, history, flying);
    SnocLayers(base, Merged(active, rec), history + {rec}, left);
    MergedLayer(active, history, rec);
    forall i | 0 <= i < |base|
      ensures Under(base[i], {rec}) && Under(base[i], left) && LayerSound(base[i], history + {rec})
    {
      assert Under(base[i], flying);
    }
  }

  lemma FreezeLayers(base: seq<Layer>, active: Layer, history: set<Record>, flying: set<Record>)
    requires LayersOk(base + [active], history, flying) && Under(active, flying)
    ensures LayersOk(base + [active] + [map[]], history, flying)
  {
    hide LayersOk, Below, Holds, Under, Separated, Represented, LayerSound;
    SnocLayers(base, active, history, flying);
    SnocLayers(base + [active], map[], history, flying);
    SnocOnly(base, active, history, flying);
    EmptyLayer(history);
  }

  lemma EmptyLayer(history: set<Record>)
    ensures LayerSound(map[], history) && forall a: Layer :: Below(a, map[])
  {
  }

  lemma SnocOnly(base: seq<Layer>, last: Layer, history: set<Record>, flying: set<Record>)
    requires LayersOk(base + [last], history, flying) && Under(last, flying)
    ensures var all := base + [last];
            && Sound(all, history) && Separated(all)
            && (forall r :: r in history ==> Represented(all, r))
            && (forall i :: 0 <= i < |all| ==> Under(all[i], flying))
  {
    hide Below, Holds, Under, LayerSound;
    SnocLayers(base, last, history, flying);
    LayersSplit(base, last);
  }

  // ---- The watermark separates what is published from everything else ---------------------------

  /** Layers above the lake, and writes in flight, are above the published watermark. */
  lemma AboveTheLake(s: State)
    requires LayersOk(Layers(s), s.history, InFlight(s)) && GoodLake(s.lake)
    requires forall r :: r in s.history + InFlight(s) ==> r.lsn >= 1
    ensures forall i, k :: |s.lake| <= i < |Layers(s)| && k in Layers(s)[i] ==> PublishedWatermark(s.lake) < Layers(s)[i][k].lsn
    ensures forall r :: r in InFlight(s) ==> PublishedWatermark(s.lake) < r.lsn
  {
    hide GoodLake, PublishedWatermark, Content, Represented;
    var layers, n := Layers(s), |s.lake|;
    LayerAt(s);
    assert n > 0 ==> NewestContent(s.lake) == layers[n - 1];
    forall i, k | n <= i < |layers| && k in layers[i]
      ensures PublishedWatermark(s.lake) < layers[i][k].lsn
    {
      assert LayerSound(layers[i], s.history);
      assert n > 0 ==> Below(layers[n - 1], layers[i]);
      AboveWatermark(s.lake, layers[i][k].lsn);
    }
    forall r | r in InFlight(s)
      ensures PublishedWatermark(s.lake) < r.lsn
    {
      assert n > 0 ==> Under(layers[n - 1], InFlight(s));
      AboveWatermark(s.lake, r.lsn);
    }
  }

  lemma TableAbove(s: State, i: nat, t: Table)
    requires LayersOk(Layers(s), s.history, InFlight(s)) && GoodLake(s.lake)
    requires forall r :: r in s.history + InFlight(s) ==> r.lsn >= 1
    requires |s.lake| <= i < |Layers(s)| && Layers(s)[i] == t.entries && ExactMax(t) && t.entries != map[]
    ensures PublishedWatermark(s.lake) < t.maxLsn
  {
    hide GoodLake, PublishedWatermark, Layers, LayersOk;
    AboveTheLake(s);
    var k :| k in t.entries && t.entries[k].lsn == t.maxLsn;
    assert k in Layers(s)[i];
  }

  /** A table not in the lake carries a watermark above the lake's. */
  lemma UnpublishedAbove(s: State)
    requires Inv(s)
    ensures forall i :: 0 <= i < |Unpublished(s)| ==> PublishedWatermark(s.lake) < Unpublished(s)[i].maxLsn
    ensures forall i :: 0 < i < |s.tables.frozen| ==> PublishedWatermark(s.lake) < s.tables.frozen[i].maxLsn
    ensures s.tables.active.entries != map[] ==> PublishedWatermark(s.lake) < s.tables.active.maxLsn
  {
    hide WalInv, Bag, GoodLake, PublishedWatermark, Content, FlushInv, DurableInv, LayersOk, ExactMax;
    LayerAt(s);
    var n := |s.lake|;
    forall i | 0 <= i < |Unpublished(s)|
      ensures PublishedWatermark(s.lake) < Unpublished(s)[i].maxLsn
    {
      var t := Unpublished(s)[i];
      assert t == s.tables.frozen[if OldestPublished(s) then i + 1 else i];
      TableAbove(s, n + i, t);
    }
    forall i | 0 < i < |s.tables.frozen|
      ensures PublishedWatermark(s.lake) < s.tables.frozen[i].maxLsn
    {
      var j := if OldestPublished(s) then i - 1 else i;
      assert Unpublished(s)[j] == s.tables.frozen[i];
    }
    if s.tables.active.entries != map[] {
      TableAbove(s, |Layers(s)| - 1, s.tables.active);
    }
  }

  // ---- Writers -------------------------------------------------------------------------------------

  lemma BeginKeeps(c: Config, s: State, key: Key, op: Op, value: seq<byte>)
    requires Inv(s) && Guard(c, s, Begin(key, op, value))
    ensures Inv(Apply(c, s, Begin(key, op, value)))
  {
    hide WalInv, Bag, LakeInv, TablesInv, FlushInv, Encodable, Represented, Separated, Layers, Sound;
    var s' := Apply(c, s, Begin(key, op, value));
    var rec := MakeRecord(key, s.nextLsn, op, value);
    assert rec.lsn == s.nextLsn;
    assert InFlight(s') == InFlight(s) + {rec};
    SameLake(s, s');
    forall i | 0 <= i < |Layers(s)| - 1
      ensures Under(Layers(s)[i], InFlight(s'))
    {
      assert Under(Layers(s)[i], InFlight(s));
      SoundAt(s, i);
    }
  }

  lemma SoundAt(s: State, i: nat)
    requires LayersOk(Layers(s), s.history, InFlight(s)) && LsnsInv(s) && i < |Layers(s)|
    ensures forall k :: k in Layers(s)[i] ==> 1 <= Layers(s)[i][k].lsn < s.nextLsn
  {
    hide Layers;
    assert LayerSound(Layers(s)[i], s.history);
    forall k | k in Layers(s)[i]
      ensures 1 <= Layers(s)[i][k].lsn < s.nextLsn
    {
      assert RecordAt(k, Layers(s)[i][k]) in s.history;
    }
  }

  /** Steps that touch neither the tables, the lake, the index nor the pipeline. */
  lemma SameLake(s: State, t: State)
    requires t.tables == s.tables && t.lake == s.lake && t.index == s.index
    requires t.flush == s.flush && t.staging == s.staging
    ensures Layers(t) == Layers(s)
    ensures TablesInv(s) ==> TablesInv(t)
    ensures LakeInv(s) ==> LakeInv(t)
    ensures FlushInv(s) ==> FlushInv(t)
  {
  }

  lemma LogKeeps(c: Config, s: State, rec: Record)
    requires Inv(s) && Enabled(c, s, Log(rec)) && Guard(c, s, Log(rec))
    ensures Inv(Apply(c, s, Log(rec)))
  {
    hide WalInv, Bag, Appended, LakeInv, TablesInv, FlushInv, FreshName, LayersOk;
    var s' := Apply(c, s, Log(rec));
    AppendedKeeps(s.wal, [rec], c.segmentMaxBytes);
    assert InFlight(s') == InFlight(s);
    SameLake(s, s');
  }

  lemma InsertKeeps(c: Config, s: State, rec: Record)
    requires Inv(s) && Enabled(c, s, Insert(rec))
    ensures Inv(Apply(c, s, Insert(rec)))
  {
    hide WalInv, Bag, GoodLake, PublishedWatermark, Content, Sound, Separated, Represented, FlyAbove;
    var s' := Apply(c, s, Insert(rec));
    var base := Contents(s.lake) + EntriesOf(Unpublished(s));
    AcknowledgeLayers(base, s.tables.active.entries, s.history, InFlight(s), rec, InFlight(s'));
    assert Layers(s') == base + [Merged(s.tables.active.entries, rec)];
    InsertedExact(s.tables.active, rec);
    assert s'.history + InFlight(s') <= s.history + InFlight(s);
  }

  lemma FreezeKeeps(c: Config, s: State)
    requires Inv(s) && Enabled(c, s, Freeze) && Guard(c, s, Freeze)
    ensures Inv(Apply(c, s, Freeze))
  {
    hide WalInv, Bag, GoodLake, PublishedWatermark, Content, Sound, Separated, Represented, FlyAbove;
    var s' := Apply(c, s, Freeze);
    UnpublishedAbove(s);
    var base := Contents(s.lake) + EntriesOf(Unpublished(s));
    assert Under(s.tables.active.entries, InFlight(s));
    FreezeLayers(base, s.tables.active.entries, s.history, InFlight(s));
    assert OldestPublished(s') == OldestPublished(s);
    assert Unpublished(s') == Unpublished(s) + [s.tables.active];
    EntriesSnoc(Unpublished(s), s.tables.active);
    assert Layers(s') == base + [s.tables.active.entries] + [map[]];
  }

  lemma EntriesSnoc(tables: seq<Table>, t: Table)
    ensures EntriesOf(tables + [t]) == EntriesOf(tables) + [t.entries]
  {
  }

  // ---- The flush pipeline ------------------------------------------------------------------------

  /** Steps that leave the log, the LSNs and what every layer holds alone. */
  lemma SameRecords(s: State, t: State)
    requires t.wal == s.wal && t.nextLsn == s.nextLsn && t.pending == s.pending && t.logged == s.logged
    requires t.history == s.history && Layers(t) == Layers(s)
    requires PublishedWatermark(t.lake) >= PublishedWatermark(s.lake)
    ensures LsnsInv(s) ==> LsnsInv(t)
    ensures LayersOk(Layers(s), s.history, InFlight(s)) ==> LayersOk(Layers(t), t.history, InFlight(t))
    ensures DurableInv(s) ==> DurableInv(t)
  {
    hide Bag, LayersOk, Layers;
  }

  lemma PlanKeeps(c: Config, s: State, target: nat)
    requires Inv(s) && Enabled(c, s, PlanFlush(target)) && Guard(c, s, PlanFlush(target))
    ensures Inv(Apply(c, s, PlanFlush(target)))
    ensures Apply(c, s, PlanFlush(target)).tables == s.tables
  {
    hide WalInv, GoodLake, LayersOk, DurableInv, LsnsInv, ExactMax, Bag, PublishedWatermark, Contents, IndexOf;
    var s' := Apply(c, s, PlanFlush(target));
    assert s.tables.frozen[0].entries != map[];
    SameRecords(s, s');
  }

  lemma StageKeeps(c: Config, s: State, rows: seq<Record>)
    requires Inv(s) && Enabled(c, s, StageRows(rows))
    ensures Inv(Apply(c, s, StageRows(rows)))
  {
    hide WalInv, GoodLake, LayersOk, ExactMax, Bag, PublishedWatermark, Contents, IndexOf, IsScan, Content;
    SameRecords(s, Apply(c, s, StageRows(rows)));
  }

  /** The file's `MAX(lsn)` statistic is the watermark the flush planned. */
  lemma ScanWatermark(rows: seq<Record>, t: Table)
    requires IsScan(rows, t.entries) && ExactMax(t) && t.entries != map[]
    ensures MaxLsn(rows) == t.maxLsn
  {
    hide SortedRows, MaxLsn;
    MaxLsnBounds(rows);
    var k :| k in t.entries && t.entries[k].lsn == t.maxLsn;
    assert HasKey(rows, k);
    var i :| 0 <= i < |rows| && rows[i].key == k;
    assert rows[i].lsn == t.maxLsn;
    if MaxLsn(rows) > 0 {
      var j :| 0 <= j < |rows| && rows[j].lsn == MaxLsn(rows);
      assert rows[j].key in t.entries;
    }
  }

  lemma RowsInLayer(f: File, entries: Layer)
    requires WellFormed(f) && Content(f) == entries
    ensures forall r :: r in AllRows(f.groups) ==> r.key in entries && entries[r.key].lsn == r.lsn
  {
    ContentHas(AllRows(f.groups));
  }

  /** Publishing a table that outranks every file keeps the lake in order. */
  lemma LakeGrows(s: State, file: File)
    requires GoodLake(s.lake) && WellFormed(file) && Separated(Layers(s))
    requires !OldestPublished(s) && s.tables.frozen != [] && Content(file) == s.tables.frozen[0].entries
    ensures GoodLake(s.lake + [file])
  {
    hide WellFormed, Content, PublishedWatermark;
    var lake', layers, n := s.lake + [file], Layers(s), |s.lake|;
    LayerAt(s);
    RowsInLayer(file, s.tables.frozen[0].entries);
    assert layers[n] == s.tables.frozen[0].entries;
    forall i, j, r, q | 0 <= i < j < |lake'| && r in AllRows(lake'[i].groups) && q in AllRows(lake'[j].groups)
      ensures r.lsn < q.lsn
    {
      if j == n {
        assert layers[i] == Content(s.lake[i]);
        RowsInLayer(s.lake[i], layers[i]);
        assert Below(layers[i], layers[n]);
      }
    }
  }

  /** Publishing moves the oldest frozen table's records to the lake without moving their layer. */
  lemma PublishMovesBoundary(s: State, file: File, t: State)
    requires !OldestPublished(s) && s.tables.frozen != [] && Content(file) == s.tables.frozen[0].entries
    requires file.watermark == s.tables.frozen[0].maxLsn
    requires t.lake == s.lake + [file] && t.tables == s.tables
    ensures OldestPublished(t) && Layers(t) == Layers(s)
  {
    hide Content, PublishedWatermark;
    GrownWatermark(s.lake, file);
    var oldest := s.tables.frozen[0];
    assert Contents(t.lake) == Contents(s.lake) + [oldest.entries];
    assert [oldest.entries] + EntriesOf(s.tables.frozen[1..]) == EntriesOf(s.tables.frozen);
  }

  lemma PublishKeeps(c: Config, s: State, file: File)
    requires Inv(s) && Enabled(c, s, Publish(file))
    ensures Inv(Apply(c, s, Publish(file)))
  {
    hide WalInv, GoodLake, LayersOk, ExactMax, Bag, PublishedWatermark, IndexOf, IsScan, WellFormed, Content,
      Layers, Contents;
    var s' := Apply(c, s, Publish(file));
    ScanWatermark(AllRows(file.groups), s.tables.frozen[0]);
    FileFacts(file, s.tables.frozen[0]);
    LayersSeparated(s);
    LakeGrows(s, file);
    GrownWatermark(s.lake, file);
    PublishMovesBoundary(s, file, s');
    SameRecords(s, s');
    assert s'.lake[..|s'.lake| - 1] == s.lake;
  }

  lemma LayersSeparated(s: State)
    requires LayersOk(Layers(s), s.history, InFlight(s))
    ensures Separated(Layers(s)) && Sound(Layers(s), s.history)
  {
  }

  lemma FileFacts(file: File, t: Table)
    requires WellFormed(file) && IsScan(AllRows(file.groups), t.entries)
    ensures Content(file) == t.entries && file.watermark == MaxLsn(AllRows(file.groups))
  {
    ScanIsContent(AllRows(file.groups), t.entries);
  }

  lemma GrownWatermark(lake: seq<File>, file: File)
    ensures PublishedWatermark(lake + [file]) == Max(PublishedWatermark(lake), file.watermark)
  {
    assert (lake + [file])[..|lake|] == lake;
  }

  lemma ReindexKeeps(c: Config, s: State)
    requires Inv(s) && Enabled(c, s, Reindex)
    ensures Inv(Apply(c, s, Reindex))
  {
    hide WalInv, GoodLake, LayersOk, ExactMax, Bag, PublishedWatermark, Contents, IndexOf;
    SameRecords(s, Apply(c, s, Reindex));
  }

  /** Dropping log records that the lake has published costs nothing durable. */
  lemma PrunedIsDurable(s: State, wal: WalState, w: nat)
    requires DurableInv(s) && w <= PublishedWatermark(s.lake)
    requires forall r :: r in InFlight(s) ==> PublishedWatermark(s.lake) < r.lsn
    requires forall r :: Bag(wal.disk)[r] <= Bag(s.wal.disk)[r]
    requires forall r: Record :: r.lsn > w ==> Bag(wal.disk)[r] == Bag(s.wal.disk)[r]
    ensures DurableInv(s.(wal := wal)) && forall f :: DurableInv(s.(wal := wal, flush := f))
  {
    hide Bag, PublishedWatermark;
    forall r | r in s.logged
      ensures r in Bag(wal.disk)
    {
      assert r in InFlight(s);
    }
  }

  lemma UnlinkKeeps(c: Config, s: State)
    requires Inv(s) && Enabled(c, s, Unlink)
    ensures Inv(Apply(c, s, Unlink))
  {
    hide WalInv, GoodLake, LayersOk, ExactMax, Bag, PublishedWatermark, Contents, IndexOf, UnlinkedFirst, Covered,
      DurableInv;
    var s' := Apply(c, s, Unlink);
    UnlinkedFirstKeeps(s.wal, s.flush.w);
    AboveTheLake(s);
    assert Layers(s') == Layers(s);
    PrunedIsDurable(s, s'.wal, s.flush.w);
  }

  lemma TruncateKeeps(c: Config, s: State)
    requires Inv(s) && Enabled(c, s, Truncate)
    ensures Inv(Apply(c, s, Truncate))
  {
    hide WalInv, GoodLake, LayersOk, ExactMax, Bag, PublishedWatermark, Contents, IndexOf, WalLog.Truncated,
      DurableInv;
    var s' := Apply(c, s, Truncate);
    TruncatedKeeps(s.wal, s.flush.w);
    AboveTheLake(s);
    assert Layers(s') == Layers(s);
    PrunedIsDurable(s, s'.wal, s.flush.w);
  }

  lemma RetireKeeps(c: Config, s: State)
    requires Inv(s) && Enabled(c, s, Retire)
    ensures Inv(Apply(c, s, Retire))
  {
    hide WalInv, GoodLake, LayersOk, ExactMax, Bag, PublishedWatermark, Contents, IndexOf;
    var s' := Apply(c, s, Retire);
    UnpublishedAbove(s);
    assert s'.tables.frozen == s.tables.frozen[1..];
    assert !OldestPublished(s');
    assert Unpublished(s') == Unpublished(s);
    SameRecords(s, s');
  }

  lemma AbandonKeeps(c: Config, s: State)
    requires Inv(s) && Enabled(c, s, Abandon)
    ensures Inv(Apply(c, s, Abandon))
  {
    hide WalInv, GoodLake, LayersOk, ExactMax, Bag, PublishedWatermark, Contents, IndexOf;
    SameRecords(s, Apply(c, s, Abandon));
  }
}
