/** Crash and open: the invariant survives, and nothing acknowledged is lost. */
module ProtocolRecovery {
  import opened Bytes
  import opened Records
  import opened Frames
  import opened WalLog
  import opened WalContents
  import opened Memtables
  import opened Lake
  import opened Flushes
  import opened Protocol
  import opened ProtocolInvariant
  import opened ProtocolSteps

  /** What the crash leaves on disk: every durable record, plus the torn append's record if all
      of its frame was written. */
  lemma CrashDiskFacts(c: Config, s: State, tear: Option<(Record, nat)>)
    requires WalInv(s.wal)
    requires tear.Some? ==> Encodable(tear.value.0) && tear.value.1 <= |Encoded([tear.value.0])|
    requires TearGuard(c, s, tear)
    ensures forall n :: n in CrashDisk(c, s, tear) ==> Readable(CrashDisk(c, s, tear)[n])
    ensures forall r :: r in Bag(s.wal.disk) ==> r in Bag(CrashDisk(c, s, tear))
    ensures forall r :: r in Bag(CrashDisk(c, s, tear)) ==> r in Bag(s.wal.disk) || (tear.Some? && r == tear.value.0)
  {
    hide Bag, Readable, Clean, TornAppend, Describes, Encoded;
    match tear
    case None =>
      forall n | n in s.wal.disk
        ensures Readable(s.wal.disk[n])
      {
        CleanIsReadable(s.wal.disk[n]);
      }
    case Some((rec, n)) =>
      TornAppendKeeps(s.wal, [rec], c.segmentMaxBytes, n);
      var kept := [rec][..WholeFrames([rec], n)];
      assert forall r :: r in multiset(kept) ==> r == rec;
  }

  lemma OpenSucceeds(c: Config, s: State, tear: Option<(Record, nat)>)
    requires WalInv(s.wal) && forall r :: r in s.pending ==> Encodable(r)
    requires tear.Some? ==> tear.value.0 in s.pending && tear.value.1 <= |Encoded([tear.value.0])|
    requires TearGuard(c, s, tear)
    ensures CanRestart(c, s, tear)
  {
    hide WalInv, Readable, Encoded, CrashDisk, Encodable, Open;
    CrashDiskFacts(c, s, tear);
    OpenReads(CrashDisk(c, s, tear), PublishedWatermark(s.lake));
  }

  /** Under the invariant an open after a crash always succeeds. */
  lemma RestartIsPossible(c: Config, s: State, tear: Option<(Record, nat)>)
    requires Inv(s)
    requires tear.Some? ==> tear.value.0 in s.pending && tear.value.1 <= |Encoded([tear.value.0])|
    requires TearGuard(c, s, tear)
    ensures Enabled(c, s, Restart(tear)) && Guard(c, s, Restart(tear))
  {
    hide WalInv, LayersOk, Layers, LakeInv, TablesInv, FlushInv, DurableInv, Encoded, CanRestart, TearGuard,
      Encodable;
    OpenSucceeds(c, s, tear);
  }

  /** What an open is known to do, with the log's bytes out of sight. */
  ghost predicate Recovered(s: State, t: State, disk: multiset<Record>) {
    var w := PublishedWatermark(s.lake);
    && WalInv(t.wal) && Bag(t.wal.disk) == disk
    && t.lake == s.lake && t.staging == s.staging && t.index == IndexOf(s.lake) && t.flush == Idle
    && t.pending == {} && t.logged == {} && t.tables.frozen == []
    && t.history == s.history + (set r | r in InFlight(s) && r in disk)
    && t.nextLsn > w && (forall r :: r in disk ==> r.lsn < t.nextLsn)
    && ExactMax(t.tables.active)
    && (forall r :: r in disk && r.lsn > w ==> Holds(t.tables.active.entries, r))
    && (forall k :: k in t.tables.active.entries ==>
          RecordAt(k, t.tables.active.entries[k]) in disk && t.tables.active.entries[k].lsn > w)
  }

  lemma ReplayBuilds(records: seq<Record>, disk: multiset<Record>, w: nat)
    requires forall r :: multiset(records)[r] == if r.lsn > w then disk[r] else 0
    ensures var t := InsertedAll(EmptyTable, records);
            && ExactMax(t)
            && (forall r :: r in disk && r.lsn > w ==> Holds(t.entries, r))
            && (forall k :: k in t.entries ==> RecordAt(k, t.entries[k]) in disk && t.entries[k].lsn > w)
  {
    hide ExactMax, InsertedAll;
    WatermarkIsExact(records);
    InsertedAllHolds(EmptyTable, records);
    var t := InsertedAll(EmptyTable, records);
    forall r | r in disk && r.lsn > w
      ensures Holds(t.entries, r)
    {
      assert multiset(records)[r] == disk[r];
      assert r in records;
    }
    forall k | k in t.entries
      ensures RecordAt(k, t.entries[k]) in disk && t.entries[k].lsn > w
    {
      var r := RecordAt(k, t.entries[k]);
      assert r in multiset(records);
    }
  }

  lemma RestartRecovers(c: Config, s: State, tear: Option<(Record, nat)>)
    requires WalInv(s.wal) && forall r :: r in s.pending ==> Encodable(r)
    requires CanRestart(c, s, tear) && TearGuard(c, s, tear)
    ensures Recovered(s, Reopened(c, s, tear), Bag(CrashDisk(c, s, tear)))
  {
    hide WalInv, Readable, Bag, Encoded, CrashDisk, TearGuard, Encodable, InsertedAll, ExactMax, Open, IndexOf,
      Holds;
    var disk, w := CrashDisk(c, s, tear), PublishedWatermark(s.lake);
    CrashDiskFacts(c, s, tear);
    OpenReads(disk, w);
    ReplayBuilds(Open(disk, w).value.records, Bag(disk), w);
  }

  /** The recovered table answers for every durable record above the watermark. */
  lemma RecoveredLayers(s: State, t: State, disk: multiset<Record>)
    requires LayersOk(Layers(s), s.history, InFlight(s)) && GoodLake(s.lake) && LsnsInv(s) && DurableInv(s)
    requires Recovered(s, t, disk)
    requires forall r :: r in Bag(s.wal.disk) ==> r in disk
    requires forall r :: r in disk ==> r in s.history || r in InFlight(s)
    ensures LayersOk(Layers(t), t.history, InFlight(t))
  {
    hide GoodLake, PublishedWatermark, Content, ExactMax, IndexOf, WalInv, Represented, Holds, DurableInv,
      LsnsInv, LayersOk, Layers;
    var base, active, w := Contents(s.lake), t.tables.active.entries, PublishedWatermark(s.lake);
    RecoveredIsTwoTiers(s, t, disk);
    SnocLayers(base, active, t.history, InFlight(t));
    WatermarkBounds(s.lake);
    LakeLayers(s);
    forall i | 0 <= i < |base|
      ensures LayerSound(base[i], t.history) && Below(base[i], active) && Under(base[i], InFlight(t))
    {
      assert LayerSound(base[i], s.history);
    }
    forall r | r in t.history
      ensures Represented(base, r) || Holds(active, r)
    {
      RecoveredRepresents(s, t, disk, r);
    }
  }

  lemma RecoveredIsTwoTiers(s: State, t: State, disk: multiset<Record>)
    requires Recovered(s, t, disk)
    ensures Layers(t) == Contents(s.lake) + [t.tables.active.entries] && InFlight(t) == {}
  {
    hide Bag, WalInv, ExactMax, Holds, PublishedWatermark, Content, IndexOf;
    assert EntriesOf([]) == [];
  }

  lemma LakeLayers(s: State)
    requires LayersOk(Layers(s), s.history, InFlight(s))
    ensures Sound(Contents(s.lake), s.history) && Separated(Contents(s.lake))
  {
    hide Content, PublishedWatermark, LayerSound, Below, Represented;
    LayerAt(s);
    assert forall i :: 0 <= i < |s.lake| ==> Contents(s.lake)[i] == Layers(s)[i];
  }

  lemma RecoveredRepresents(s: State, t: State, disk: multiset<Record>, r: Record)
    requires LayersOk(Layers(s), s.history, InFlight(s)) && GoodLake(s.lake) && LsnsInv(s) && DurableInv(s)
    requires Recovered(s, t, disk)
    requires forall q :: q in Bag(s.wal.disk) ==> q in disk
    requires r in t.history
    ensures Represented(Contents(s.lake), r) || Holds(t.tables.active.entries, r)
  {
    hide WalInv, Bag, GoodLake, PublishedWatermark, Content, ExactMax, IndexOf, LayersOk, Layers, Encodable,
      LsnsUnique, Represented, Holds;
    if r in s.history && r.lsn <= PublishedWatermark(s.lake) {
      LowIsRepresented(s, t, disk, r);
    } else if r !in s.history {
      AboveTheLake(s);
    }
  }

  lemma LowIsRepresented(s: State, t: State, disk: multiset<Record>, r: Record)
    requires LayersOk(Layers(s), s.history, InFlight(s)) && GoodLake(s.lake) && LsnsInv(s) && DurableInv(s)
    requires Recovered(s, t, disk)
    requires forall q :: q in Bag(s.wal.disk) ==> q in disk
    requires r in s.history
    ensures Represented(Contents(s.lake), r) || Holds(t.tables.active.entries, r)
  {
    hide WalInv, Bag, GoodLake, PublishedWatermark, Content, ExactMax, IndexOf, Separated, FlyAbove, Encodable,
      LsnsUnique, Contents, Layers;
    AboveTheLake(s);
    LakeLayersAt(s);
    var layers := Layers(s);
    assert Represented(layers, r);
    var i :| 0 <= i < |layers| && Holds(layers[i], r);
    if i < |s.lake| {
      assert Holds(Contents(s.lake)[i], r);
    } else {
      var q := RecordAt(r.key, layers[i][r.key]);
      assert LayerSound(layers[i], s.history);
      assert q in disk && q.lsn > PublishedWatermark(s.lake);
      assert Holds(t.tables.active.entries, q);
    }
  }

  lemma LakeLayersAt(s: State)
    ensures |Contents(s.lake)| == |s.lake| <= |Layers(s)|
    ensures forall i :: 0 <= i < |s.lake| ==> Layers(s)[i] == Contents(s.lake)[i]
  {
    hide PublishedWatermark, Content;
  }

  lemma RestartKeeps(c: Config, s: State, tear: Option<(Record, nat)>)
    requires Inv(s) && CanRestart(c, s, tear) && TearGuard(c, s, tear)
    ensures Inv(Reopened(c, s, tear))
  {
    hide WalInv, LsnsInv, DurableInv, Bag, LayersOk, Layers, GoodLake, PublishedWatermark, Content, Encoded,
      CrashDisk, TearGuard, Encodable, ExactMax, Holds, Open, IndexOf, FlushInv, Reopened, CanRestart, Contents,
      Recovered;
    TearIsPending(c, s, tear);
    PendingEncodable(s);
    var t, disk := Reopened(c, s, tear), Bag(CrashDisk(c, s, tear));
    CrashDiskFacts(c, s, tear);
    RestartRecovers(c, s, tear);
    assert forall r :: r in disk ==> r in s.history || r in InFlight(s) by {
      OnCrashDisk(s, CrashDisk(c, s, tear), tear);
    }
    RecoveredLayers(s, t, disk);
    RecoveredRest(s, t, disk);
  }

  lemma PendingEncodable(s: State)
    requires LsnsInv(s)
    ensures forall r :: r in s.pending ==> Encodable(r)
  {
    hide Encodable;
  }

  lemma OnCrashDisk(s: State, disk: Disk, tear: Option<(Record, nat)>)
    requires DurableInv(s) && (tear.Some? ==> tear.value.0 in s.pending)
    requires forall r :: r in Bag(disk) ==> r in Bag(s.wal.disk) || (tear.Some? && r == tear.value.0)
    ensures forall r :: r in Bag(disk) ==> r in s.history || r in InFlight(s)
  {
    hide Bag, PublishedWatermark;
  }

  lemma RecoveredRest(s: State, t: State, disk: multiset<Record>)
    requires Recovered(s, t, disk) && LsnsInv(s) && DurableInv(s) && GoodLake(s.lake)
    requires LayersOk(Layers(t), t.history, InFlight(t))
    requires forall r :: r in Bag(s.wal.disk) ==> r in disk
    requires forall r :: r in disk ==> r in s.history || r in InFlight(s)
    ensures Inv(t)
  {
    hide WalInv, Bag, LayersOk, Layers, GoodLake, PublishedWatermark, Encodable, ExactMax, Holds, IndexOf,
      FlushInv;
    assert t.history + InFlight(t) <= s.history + InFlight(s);
    IdleIsFine(t);
  }

  lemma TearIsPending(c: Config, s: State, tear: Option<(Record, nat)>)
    requires CanRestart(c, s, tear)
    ensures tear.Some? ==> tear.value.0 in s.pending && tear.value.1 <= |Encoded([tear.value.0])|
  {
  }

  lemma IdleIsFine(t: State)
    requires t.flush == Idle
    ensures FlushInv(t)
  {
  }

  // ---- Every guarded run keeps the invariant ---------------------------------------------------------

  lemma StepKeeps(c: Config, s: State, l: Label)
    requires Inv(s) && Enabled(c, s, l) && Guard(c, s, l)
    ensures Inv(Apply(c, s, l))
  {
    hide Inv, Apply, Guard, Enabled;
    match l
    case Begin(key, op, value) => BeginKeeps(c, s, key, op, value);
    case Log(rec) => LogKeeps(c, s, rec);
    case Insert(rec) => InsertKeeps(c, s, rec);
    case Freeze => FreezeKeeps(c, s);
    case PlanFlush(target) => PlanKeeps(c, s, target);
    case StageRows(rows) => StageKeeps(c, s, rows);
    case Publish(file) => PublishKeeps(c, s, file);
    case Reindex => ReindexKeeps(c, s);
    case Unlink => UnlinkKeeps(c, s);
    case Truncate => TruncateKeeps(c, s);
    case Retire => RetireKeeps(c, s);
    case Abandon => AbandonKeeps(c, s);
    case Restart(tear) => RestartStepKeeps(c, s, tear);
  }

  lemma RestartStepKeeps(c: Config, s: State, tear: Option<(Record, nat)>)
    requires Inv(s) && Enabled(c, s, Restart(tear)) && Guard(c, s, Restart(tear))
    ensures Inv(Apply(c, s, Restart(tear)))
  {
    hide Inv, CanRestart, TearGuard, Reopened;
    RestartKeeps(c, s, tear);
  }

  lemma InitLog()
    ensures WalInv(Init.wal) && Bag(Init.wal.disk) == multiset{}
  {
    hide Clean, RecordsOf;
    EncodedNone();
    CleanFile([]);
    NoRecords();
    var disk := Init.wal.disk;
    BagSplit(disk, disk.Keys, 0);
    assert disk.Keys - {0} == {};
    SnocMembers([], Segment(0, 0));
    assert Segments(Init.wal) == [Segment(0, 0)];
    assert Segment(0, 0) in Segments(Init.wal);
  }

  lemma InitHolds()
    ensures Inv(Init)
  {
    hide WalInv, Bag;
    InitLog();
    assert Layers(Init) == [map[]];
  }

  lemma Extend(c: Config, s: State, labels: seq<Label>, t: State, l: Label, guarded: bool)
    requires RunFrom(c, s, labels, guarded) == Some(t) && Enabled(c, t, l) && (guarded ==> Guard(c, t, l))
    ensures RunFrom(c, s, labels + [l], guarded) == Some(Apply(c, t, l))
  {
    hide Enabled, Guard, Apply;
    assert (labels + [l])[..|labels|] == labels;
  }

  lemma Nowhere(c: Config, s: State, guarded: bool)
    ensures RunFrom(c, s, [], guarded) == Some(s)
  {
  }

  lemma {:induction false} RunConcat(c: Config, s: State, a: seq<Label>, t: State, b: seq<Label>, guarded: bool)
    requires RunFrom(c, s, a, guarded) == Some(t)
    ensures RunFrom(c, s, a + b, guarded) == RunFrom(c, t, b, guarded)
  {
    hide Enabled, Guard, Apply;
    if b == [] {
      assert a + b == a;
    } else {
      var n := |b| - 1;
      RunConcat(c, s, a, t, b[..n], guarded);
      assert (a + b)[..|a| + n] == a + b[..n];
    }
  }

  lemma {:induction false} RunKeeps(c: Config, s: State, labels: seq<Label>)
    requires Inv(s) && RunFrom(c, s, labels, true).Some?
    ensures Inv(RunFrom(c, s, labels, true).value)
  {
    hide Inv, Apply, Guard, Enabled;
    if labels != [] {
      var init := labels[..|labels| - 1];
      RunKeeps(c, s, init);
      StepKeeps(c, RunFrom(c, s, init, true).value, labels[|labels| - 1]);
    }
  }

  lemma ReachableInv(c: Config, s: State)
    requires Reachable(c, s)
    ensures Inv(s)
  {
    hide Inv, RunFrom;
    var labels :| RunFrom(c, Init, labels, true) == Some(s);
    InitHolds();
    RunKeeps(c, Init, labels);
  }
}
