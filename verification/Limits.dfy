/** Where the guards come from: for each step the code does not restrict, the condition under
    which it is safe, and what a run without the guard does. */
module Limits {
  import opened Bytes
  import opened Records
  import opened Frames
  import opened WalLog
  import opened WalContents
  import opened Memtables
  import opened Lake
  import opened Flushes
  import opened Protocol
  import opened ProtocolInvariant
  import opened ProtocolSteps
  import opened ProtocolRecovery
  import opened Guarantees

  // ---- The entry a read picks ------------------------------------------------------------------------

  function Reversed(index: seq<File>): (files: seq<File>)
    ensures |files| == |index| && forall i :: 0 <= i < |index| ==> files[i] == index[|index| - 1 - i]
  {
    seq(|index|, i requires 0 <= i < |index| => index[|index| - 1 - i])
  }

  /** What a read can see, oldest first. */
  function Visible(s: State): seq<Layer> {
    Contents(Reversed(s.index)) + (EntriesOf(s.tables.frozen) + [s.tables.active.entries])
  }

  /** Every read picks the record the map holds, LSN included. */
  ghost predicate Faithful(s: State) {
    forall key, o :: MapHas(s.history, key, o) ==> TopRecord(Visible(s), key) == o
  }

  /** `Visible` is what `get` searches. */
  lemma LookupPicksVisible(s: State, key: Key)
    requires forall i :: 0 <= i < |s.index| ==> WellFormed(s.index[i])
    ensures BloomsValid(s.index) && EngineLookup(s, key) == LookupOf(Top(Visible(s), key))
  {
    hide WellFormed, Top, ColumnarGet, LookupTables, Contents, BloomsValid;
    ReversedReadIsTop(Reversed(s.index), s.index, key);
    TablesAreTop(s.tables, key);
    TopConcat(Contents(Reversed(s.index)), EntriesOf(s.tables.frozen) + [s.tables.active.entries], key);
  }

  lemma ReversedIndex(lake: seq<File>)
    requires GoodLake(lake)
    ensures Reversed(IndexOf(lake)) == lake
  {
    hide GoodLake, IndexOf;
    GoodLakeWatermarks(lake);
    IndexIsReversed(lake);
  }

  lemma InvIsFaithful(s: State)
    requires Inv(s)
    ensures Faithful(s)
  {
    hide Inv, MapHas, Layers, LayersOk, GoodLake, LakeInv, TopRecord, Contents, WalInv, DurableInv;
    InvParts(s);
    LsnsOfHistory(s);
    ShownFacts(s);
    ReversedIndex(Shown(s));
    forall key, o | MapHas(s.history, key, o)
      ensures TopRecord(Visible(s), key) == o
    {
      LayersAreMap(Layers(s), s.history, InFlight(s), key);
      MapHasUnique(s.history, key, o, TopRecord(Layers(s), key));
      ShownIsEverything(s, key);
      SameTopRecord(Visible(s), Layers(s), key);
    }
  }

  lemma SameTopRecord(a: seq<Layer>, b: seq<Layer>, key: Key)
    requires Top(a, key) == Top(b, key)
    ensures TopRecord(a, key) == TopRecord(b, key)
  {
  }

  // ---- A file for any rows ---------------------------------------------------------------------------

  /** One row group with exact statistics and no bloom. */
  function OneGroupFile(rows: seq<Record>): File
    requires rows != []
  {
    var first, last := rows[0].key, rows[|rows| - 1].key;
    File(MaxLsn(rows), first, last, None, [RowGroup(rows, Some(first), Some(last))])
  }

  lemma OneGroupFileIsFine(rows: seq<Record>)
    requires rows != [] && SortedRows(rows)
    ensures WellFormed(OneGroupFile(rows)) && AllRows(OneGroupFile(rows).groups) == rows
  {
    hide SortedRows;
    var groups := OneGroupFile(rows).groups;
    assert AllRows(groups[1..]) == [];
    assert AllRows(groups) == rows;
  }

  lemma {:induction false} ScanExists(entries: map<Key, Entry>) returns (rows: seq<Record>)
    ensures IsScan(rows, entries)
    decreases |entries|
  {
    if entries == map[] {
      rows := [];
    } else {
      var keys := entries.Keys;
      LargestKey(keys);
      var key :| key in keys && forall k :: k in keys && k != key ==> Less(k, key);
      var rest := entries - {key};
      assert rest.Keys == keys - {key};
      var init := ScanExists(rest);
      rows := init + [RecordAt(key, entries[key])];
      ScanSnoc(init, rest, key, entries);
    }
  }

  lemma ScanSnoc(init: seq<Record>, rest: map<Key, Entry>, key: Key, entries: map<Key, Entry>)
    requires IsScan(init, rest) && key in entries && rest == entries - {key}
    requires forall k :: k in entries && k != key ==> Less(k, key)
    ensures IsScan(init + [RecordAt(key, entries[key])], entries)
  {
    hide Less;
    var rows := init + [RecordAt(key, entries[key])];
    forall k | k in entries
      ensures HasKey(rows, k)
    {
      if k == key {
        assert rows[|init|].key == k;
      } else {
        assert HasKey(init, k);
        var i :| 0 <= i < |init| && init[i].key == k;
        assert rows[i].key == k;
      }
    }
    forall i | 0 <= i < |init|
      ensures Less(rows[i].key, key)
    {
      assert init[i].key in rest;
    }
  }

  lemma {:induction false} LargestKey(keys: set<Key>)
    requires keys != {}
    ensures exists key :: key in keys && forall k :: k in keys && k != key ==> Less(k, key)
    decreases keys
  {
    hide Less;
    var x :| x in keys;
    if keys == {x} {
      assert forall k :: k in keys && k != x ==> Less(k, x);
    } else {
      assert keys - {x} != {};
      LargestKey(keys - {x});
      var y :| y in keys - {x} && forall k :: k in keys - {x} && k != y ==> Less(k, y);
      LessTotal(x, y);
      if Less(x, y) {
        assert forall k :: k in keys && k != y ==> k == x || k in keys - {x};
        assert y in keys && forall k :: k in keys && k != y ==> Less(k, y);
      } else {
        forall k | k in keys && k != x
          ensures Less(k, x)
        {
          assert k in keys - {x};
          if k != y {
            LessTransitive(k, y, x);
          }
        }
        assert x in keys && forall k :: k in keys && k != x ==> Less(k, x);
      }
    }
  }

  /** Some well-formed file holds exactly this table. */
  lemma FileExists(t: Table) returns (rows: seq<Record>, file: File)
    requires t.entries != map[]
    ensures IsScan(rows, t.entries) && rows != []
    ensures WellFormed(file) && AllRows(file.groups) == rows
  {
    hide SortedRows, WellFormed;
    rows := ScanExists(t.entries);
    var k :| k in t.entries;
    assert HasKey(rows, k);
    file := OneGroupFile(rows);
    OneGroupFileIsFine(rows);
  }

  // ---- Freezing under a write in flight ----------------------------------------------------------------

  /** Every guarded continuation after the freeze keeps reads faithful. */
  ghost predicate StaysFaithful(c: Config, s: State) {
    forall labels, t :: RunFrom(c, s, labels, true) == Some(t) ==> Faithful(t)
  }

  lemma GuardedFreezeStays(c: Config, s: State)
    requires Inv(s) && Enabled(c, s, Freeze) && FreezeGuard(s)
    ensures StaysFaithful(c, Frozen(s))
  {
    hide Inv, Faithful, RunFrom;
    FreezeKeeps(c, s);
    forall labels, t | RunFrom(c, Frozen(s), labels, true) == Some(t)
      ensures Faithful(t)
    {
      RunKeeps(c, Frozen(s), labels);
      InvIsFaithful(t);
    }
  }

  /** The late writer finishes: its record is logged, then inserted above the frozen table. */
  lemma LateWriterLands(c: Config, s: State, r: Record) returns (labels: seq<Label>, u: State)
    requires Inv(s) && r in InFlight(s) && (r in s.pending ==> FreshName(s.wal, [r], c.segmentMaxBytes))
    ensures RunFrom(c, Frozen(s), labels, true) == Some(u)
    ensures u.lake == s.lake && u.index == s.index && u.flush == s.flush && u.staging == s.staging
    ensures u.history == s.history + {r} && u.tables == Tables(Inserted(EmptyTable, r), s.tables.frozen + [s.tables.active])
    ensures InFlight(u) == InFlight(s) - {r}
  {
    hide LayersOk, Layers, DurableInv, TablesInv, LakeInv, FlushInv, WalInv, FreshName, Appended, Encodable,
      RunFrom;
    var f := Frozen(s);
    labels, u := [], f;
    assert RunFrom(c, f, [], true) == Some(f) by { Nowhere(c, f, true); }
    if r in s.pending {
      Extend(c, f, [], f, Log(r), true);
      AppendedKeeps(s.wal, [r], c.segmentMaxBytes);
      u := Apply(c, f, Log(r));
      labels := [] + [Log(r)];
    }
    Extend(c, f, labels, u, Insert(r), true);
    labels, u := labels + [Insert(r)], Apply(c, u, Insert(r));
  }

  lemma TopLayerWins(base: seq<Layer>, last: Layer, key: Key)
    requires key in last
    ensures TopRecord(base + [last], key) == Some(RecordAt(key, last[key]))
  {
    TopConcat(base, [last], key);
    TopOfSingle(last, key);
  }

  /** The frozen table already held a newer record for the key: the late one now hides it. */
  lemma LateWriterHides(c: Config, s: State, r: Record)
    requires Inv(s) && r in InFlight(s) && (r in s.pending ==> FreshName(s.wal, [r], c.segmentMaxBytes))
    requires r.key in s.tables.active.entries && r.lsn < s.tables.active.entries[r.key].lsn
    ensures !StaysFaithful(c, Frozen(s))
  {
    hide Inv, RunFrom, Top, Layers, Reversed, Contents, LayersOk, WalInv, DurableInv, LakeInv, GoodLake;
    var labels, u := LateWriterLands(c, s, r);
    InvParts(s);
    var q := RecordAt(r.key, s.tables.active.entries[r.key]);
    assert q in s.history by { ActiveInHistory(s, r.key); }
    var base := Contents(Reversed(u.index)) + EntriesOf(u.tables.frozen);
    assert Visible(u) == base + [u.tables.active.entries];
    TopLayerWins(base, u.tables.active.entries, r.key);
    LayersAreMap(Layers(s), s.history, InFlight(s), r.key);
    var o := TopRecord(Layers(s), r.key);
    assert MapHas(u.history, r.key, o);
    assert !Faithful(u);
  }

  lemma ActiveInHistory(s: State, key: Key)
    requires Inv(s) && key in s.tables.active.entries
    ensures RecordAt(key, s.tables.active.entries[key]) in s.history
  {
    hide WalInv, DurableInv, LakeInv, TablesInv, FlushInv, LsnsInv, Separated, Represented, FlyAbove,
      PublishedWatermark, Content;
    LayerAt(s);
    assert LayerSound(Layers(s)[|Layers(s)| - 1], s.history);
    SoundEntry(s.tables.active.entries, s.history, key);
  }

  /** Stage and publish the only frozen table. */
  lemma PublishOnly(c: Config, f: State, labels: seq<Label>, u: State) returns (more: seq<Label>, v: State, file: File)
    requires RunFrom(c, f, labels, true) == Some(u)
    requires u.flush.Idle? && |u.tables.frozen| == 1 && u.tables.frozen[0].entries != map[]
    requires PublishedWatermark(u.lake) < u.tables.frozen[0].maxLsn
    ensures RunFrom(c, f, more, true) == Some(v)
    ensures WellFormed(file) && IsScan(AllRows(file.groups), u.tables.frozen[0].entries)
    ensures v.flush == Published(0, u.tables.frozen[0].maxLsn) && v.lake == u.lake + [file]
    ensures v.tables == u.tables && v.history == u.history && v.pending == u.pending && v.logged == u.logged
  {
    hide RunFrom, PublishedWatermark, IsScan, WellFormed, IndexOf;
    var t, rows, w := u.tables.frozen[0], [], u.tables.frozen[0].maxLsn;
    rows, file := FileExists(t);
    Extend(c, f, labels, u, PlanFlush(0), true);
    var p := u.(flush := Planned(0, w));
    Extend(c, f, labels + [PlanFlush(0)], p, StageRows(rows), true);
    var g := RowsStaged(p, 0, w, rows);
    Extend(c, f, labels + [PlanFlush(0)] + [StageRows(rows)], g, Publish(file), true);
    more, v := labels + [PlanFlush(0)] + [StageRows(rows)] + [Publish(file)], FilePublished(g, 0, w, file);
  }

  /** Refresh the index, truncate the log and retire the table. */
  lemma FinishFlush(c: Config, f: State, labels: seq<Label>, v: State) returns (more: seq<Label>, x: State)
    requires RunFrom(c, f, labels, true) == Some(v)
    requires v.flush.Published? && v.flush.at == 0 && |v.tables.frozen| == 1
    ensures RunFrom(c, f, more, true) == Some(x)
    ensures x.flush.Idle? && x.lake == v.lake && x.index == IndexOf(v.lake)
    ensures x.tables == v.tables.(frozen := [])
    ensures x.history == v.history && x.pending == v.pending && x.logged == v.logged
  {
    hide RunFrom, IndexOf, WalLog.Truncated;
    var w := v.flush.w;
    Extend(c, f, labels, v, Reindex, true);
    var i := v.(index := IndexOf(v.lake), flush := Indexed(0, w, true));
    Extend(c, f, labels + [Reindex], i, Truncate, true);
    var g := LogTruncated(i, 0, w, true);
    Extend(c, f, labels + [Reindex] + [Truncate], g, Retire, true);
    more, x := labels + [Reindex] + [Truncate] + [Retire], Retired(g, 0, w, true);
    assert Dropped(v.tables.frozen, 0) == [];
  }

  /** Freeze and flush a table whose watermark is already published: it is only dropped. */
  lemma SkipFlush(c: Config, f: State, labels: seq<Label>, x: State) returns (more: seq<Label>, z: State)
    requires RunFrom(c, f, labels, true) == Some(x)
    requires x.flush.Idle? && x.tables.frozen == [] && x.tables.active.entries != map[] && c.maxFrozen > 0
    requires FreezeGuard(x) && x.index == IndexOf(x.lake)
    requires x.tables.active.maxLsn <= PublishedWatermark(x.lake)
    ensures RunFrom(c, f, more, true) == Some(z)
    ensures z.lake == x.lake && z.index == x.index && z.tables == Tables(EmptyTable, []) && z.history == x.history
  {
    hide RunFrom, IndexOf, WalLog.Truncated, PublishedWatermark;
    var w := x.tables.active.maxLsn;
    Extend(c, f, labels, x, Freeze, true);
    var y := Frozen(x);
    assert y.tables.frozen == [x.tables.active];
    Extend(c, f, labels + [Freeze], y, PlanFlush(0), true);
    var p := y.(flush := Indexed(0, w, false));
    Extend(c, f, labels + [Freeze] + [PlanFlush(0)], p, Truncate, true);
    var g := LogTruncated(p, 0, w, false);
    Extend(c, f, labels + [Freeze] + [PlanFlush(0)] + [Truncate], g, Retire, true);
    more, z := labels + [Freeze] + [PlanFlush(0)] + [Truncate] + [Retire], Retired(g, 0, w, false);
    assert Dropped(y.tables.frozen, 0) == [];
  }

  /** Nothing known outranks the late record, so the map must answer it. */
  lemma LateRecordIsTop(s: State, r: Record)
    requires Inv(s) && r in InFlight(s)
    requires r.key in s.tables.active.entries ==> s.tables.active.entries[r.key].lsn < r.lsn
    ensures MapHas(s.history + {r}, r.key, Some(r))
  {
    hide WalInv, DurableInv, LakeInv, TablesInv, FlushInv, LsnsInv, Sound, Separated, Contents,
      PublishedWatermark;
    var layers := Layers(s);
    LayersLast(s);
    forall q | q in s.history && q.key == r.key
      ensures q.lsn <= r.lsn
    {
      assert Represented(layers, q);
      var i :| 0 <= i < |layers| && Holds(layers[i], q);
      if i < |layers| - 1 {
        assert Under(layers[i], InFlight(s));
      }
    }
  }

  lemma LayersLast(s: State)
    ensures |Layers(s)| > 0 && Layers(s)[|Layers(s)| - 1] == s.tables.active.entries
  {
    LayerAt(s);
  }

  /** Publishing the frozen table keeps the lake in order, late writer or not. */
  lemma FrozenLakeGrows(s: State, file: File)
    requires Inv(s) && s.tables.frozen == [] && s.tables.active.entries != map[]
    requires WellFormed(file) && IsScan(AllRows(file.groups), s.tables.active.entries)
    ensures GoodLake(s.lake + [file]) && PublishedWatermark(s.lake + [file]) == s.tables.active.maxLsn
    ensures Contents(s.lake + [file]) == Layers(s)
  {
    hide WalInv, DurableInv, FlushInv, LsnsInv, Sound, Represented, FlyAbove, Content, PublishedWatermark,
      WellFormed, GoodLake, IsScan;
    UnpublishedAbove(s);
    FileFacts(file, s.tables.active);
    ScanWatermark(AllRows(file.groups), s.tables.active);
    GrownWatermark(s.lake, file);
    assert EntriesOf([]) == [];
    assert Contents(s.lake + [file]) == Contents(s.lake) + [Content(file)];
    assert Layers(s) == Contents(s.lake) + [s.tables.active.entries];
    SeparatedLakeIsGood(s.lake, file);
  }

  lemma SeparatedLakeIsGood(lake: seq<File>, file: File)
    requires GoodLake(lake) && WellFormed(file) && Separated(Contents(lake + [file]))
    ensures GoodLake(lake + [file])
  {
    hide WellFormed, Content;
    var lake', layers := lake + [file], Contents(lake + [file]);
    forall i, j, r, q | 0 <= i < j < |lake'| && r in AllRows(lake'[i].groups) && q in AllRows(lake'[j].groups)
      ensures r.lsn < q.lsn
    {
      RowsInLayer(lake'[i], layers[i]);
      RowsInLayer(lake'[j], layers[j]);
      assert Below(layers[i], layers[j]);
    }
  }

  lemma NotInLayers(layers: seq<Layer>, history: set<Record>, r: Record)
    requires Sound(layers, history) && r !in history
    ensures TopRecord(layers, r.key) != Some(r)
  {
    hide Top, LayerSound;
    TopAt(layers, r.key);
    if Top(layers, r.key).Some? {
      var j :| TopIs(layers, r.key, j, Top(layers, r.key).value);
      SoundEntry(layers[j], history, r.key);
    }
  }

  /** Otherwise flush the frozen table, then the active one: the late record is at or below the
      published watermark, so its flush is skipped as a retry and it is dropped. */
  lemma LateWriterIsLost(c: Config, s: State, r: Record)
    requires Inv(s) && Enabled(c, s, Freeze) && s.flush.Idle? && s.tables.frozen == []
    requires r in InFlight(s) && (r in s.pending ==> FreshName(s.wal, [r], c.segmentMaxBytes))
    requires forall q :: q in InFlight(s) ==> r.lsn <= q.lsn
    requires r.lsn <= s.tables.active.maxLsn
    requires r.key in s.tables.active.entries ==> s.tables.active.entries[r.key].lsn < r.lsn
    ensures !StaysFaithful(c, Frozen(s))
  {
    hide Inv, RunFrom, Layers, LayersOk, WalInv, DurableInv, LakeInv, GoodLake, PublishedWatermark, IsScan,
      WellFormed, IndexOf, Content, Contents, Encodable, MapHas, Faithful, Visible, Appended, Open, TopRecord;
    InvParts(s);
    UnpublishedAbove(s);
    var labels, u := LateWriterLands(c, s, r);
    assert u.tables.frozen == [s.tables.active];
    var l1, v, file := PublishOnly(c, Frozen(s), labels, u);
    var l2, x := FinishFlush(c, Frozen(s), l1, v);
    FrozenLakeGrows(s, file);
    OthersAbove(s, x, r);
    var l3, z := SkipFlush(c, Frozen(s), l2, x);
    LateRecordIsTop(s, r);
    DroppedIsGone(s, z, file, r);
    NotFaithful(z, r);
  }

  lemma OthersAbove(s: State, x: State, r: Record)
    requires LsnsInv(s) && r in InFlight(s) && forall q :: q in InFlight(s) ==> r.lsn <= q.lsn
    requires x.tables.active == Inserted(EmptyTable, r)
    requires InFlight(x) <= InFlight(s) - {r}
    ensures FreezeGuard(x)
  {
    hide Encodable;
    assert forall q :: q in InFlight(x) ==> q in s.history + InFlight(s);
  }

  lemma DroppedIsGone(s: State, z: State, file: File, r: Record)
    requires LayersOk(Layers(s), s.history, InFlight(s)) && LsnsInv(s) && r in InFlight(s)
    requires z.lake == s.lake + [file] && GoodLake(z.lake) && z.index == IndexOf(z.lake)
    requires z.tables == Tables(EmptyTable, []) && Contents(z.lake) == Layers(s)
    ensures TopRecord(Visible(z), r.key) != Some(r)
  {
    hide Layers, GoodLake, IndexOf, Contents, Separated, Represented, FlyAbove, TopRecord, Encodable;
    ReversedIndex(z.lake);
    assert EntriesOf([]) == [];
    var layers: seq<Layer> := Layers(s) + [map[]];
    assert Visible(z) == layers;
    SoundPlusEmpty(Layers(s), s.history);
    NotInLayers(layers, s.history, r);
  }

  lemma SoundPlusEmpty(layers: seq<Layer>, history: set<Record>)
    requires Sound(layers, history)
    ensures Sound(layers + [map[]], history)
  {
  }

  lemma NotFaithful(z: State, r: Record)
    requires MapHas(z.history, r.key, Some(r)) && TopRecord(Visible(z), r.key) != Some(r)
    ensures !Faithful(z)
  {
    hide MapHas, Visible, TopRecord;
  }

  /** With nothing queued, freezing is safe exactly when every write in flight outranks the table
      being frozen. */
  lemma QuietFreezeIsExact(c: Config, s: State)
    requires Inv(s) && Enabled(c, s, Freeze) && s.flush.Idle? && s.tables.frozen == []
    requires forall r :: r in s.pending ==> FreshName(s.wal, [r], c.segmentMaxBytes)
    ensures FreezeGuard(s) <==> StaysFaithful(c, Frozen(s))
  {
    hide Inv, StaysFaithful, LayersOk, WalInv, DurableInv, LakeInv, GoodLake, FreshName, Encodable;
    if FreezeGuard(s) {
      GuardedFreezeStays(c, s);
    } else {
      var late :| late in InFlight(s) && late.lsn <= s.tables.active.maxLsn;
      var r := LowestLsn(InFlight(s));
      if r.key in s.tables.active.entries && r.lsn <= s.tables.active.entries[r.key].lsn {
        InvParts(s);
        ActiveInHistory(s, r.key);
        DistinctFromHistory(s, r, RecordAt(r.key, s.tables.active.entries[r.key]));
        LateWriterHides(c, s, r);
      } else {
        LateWriterIsLost(c, s, r);
      }
    }
  }

  lemma DistinctFromHistory(s: State, r: Record, q: Record)
    requires LsnsInv(s) && r in InFlight(s) && q in s.history
    ensures r.lsn != q.lsn
  {
    hide Encodable;
    assert r in s.history + InFlight(s) && q in s.history + InFlight(s);
  }

  lemma {:induction false} LowestLsn(records: set<Record>) returns (r: Record)
    requires records != {}
    ensures r in records && forall q :: q in records ==> r.lsn <= q.lsn
    decreases records
  {
    var x :| x in records;
    if records == {x} {
      r := x;
    } else {
      var y := LowestLsn(records - {x});
      r := if x.lsn <= y.lsn then x else y;
      assert forall q :: q in records ==> q == x || q in records - {x};
    }
  }
}
