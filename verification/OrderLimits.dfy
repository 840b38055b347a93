/** Publishing a newer frozen table before an older one, then crashing: exactly what is lost. */
module OrderLimits {
  import opened Bytes
  import opened Records
  import opened Frames
  import opened WalLog
  import opened WalContents
  import opened Memtables
  import opened Lake
  import opened Flushes
  import opened Protocol
  import opened ProtocolInvariant
  import opened ProtocolSteps
  import opened ProtocolRecovery
  import opened Guarantees
  import opened Limits
  import opened FlushLimits

  /** After table `at` was planned, staged and published ahead of older ones. */
  function Ahead(s: State, at: nat, rows: seq<Record>, file: File): State
    requires at < |s.tables.frozen|
  {
    var w := s.tables.frozen[at].maxLsn;
    FilePublished(RowsStaged(s, at, w, rows), at, w, file)
  }

  /** The first frozen table whose rows are not in the lake. */
  function First(s: State): nat {
    if OldestPublished(s) then 1 else 0
  }

  /** The layers the early publish jumps over, and those above the published table. */
  function JumpedOver(s: State, at: nat): seq<Layer>
    requires First(s) <= at < |s.tables.frozen|
  {
    EntriesOf(s.tables.frozen[First(s)..at])
  }

  function Newer(s: State, at: nat): seq<Layer>
    requires at < |s.tables.frozen|
  {
    EntriesOf(s.tables.frozen[at + 1..]) + [s.tables.active.entries]
  }

  /** The writes in flight that the crash finds whole on disk. */
  ghost function Landed(s: State, tear: Option<(Record, nat)>): set<Record> {
    set r | r in InFlight(s) && (r in s.logged || tear == Some((r, |Encoded([r])|)))
  }

  /** Every key jumped over has a newer record in the published table, above it, or on disk. */
  ghost predicate Overwritten(s: State, at: nat, landed: set<Record>)
    requires First(s) <= at < |s.tables.frozen|
  {
    forall k :: HeldAbove(JumpedOver(s, at), k) ==>
      k in s.tables.frozen[at].entries || HeldAbove(Newer(s, at), k) || exists r :: r in landed && r.key == k
  }

  /** What the crash leaves on disk: all that was there, and of the writes in flight the landed. */
  datatype Left = Left(disk: multiset<Record>, landed: set<Record>)

  ghost predicate LeftOnDisk(s: State, left: Left) {
    && (forall r :: r in Bag(s.wal.disk) ==> r in left.disk)
    && (forall r :: r in left.disk ==> r in s.history || r in left.landed)
    && left.landed <= InFlight(s) && forall r :: r in left.landed ==> r in left.disk
  }

  ghost predicate Setting(s: State, at: nat, rows: seq<Record>, file: File) {
    && Inv(s) && s.flush.Idle? && First(s) <= at < |s.tables.frozen|
    && IsScan(rows, s.tables.frozen[at].entries) && WellFormed(file) && AllRows(file.groups) == rows
  }

  /** What an open finds after the early publish and the crash. */
  ghost predicate Crashed(s: State, at: nat, rows: seq<Record>, file: File, t: State, left: Left) {
    && Setting(s, at, rows, file)
    && Recovered(Ahead(s, at, rows, file), t, left.disk)
    && LeftOnDisk(s, left) && t.history == s.history + left.landed
  }

  lemma LayersAround(s: State, at: nat)
    requires First(s) <= at < |s.tables.frozen|
    ensures Layers(s) == Contents(s.lake) + JumpedOver(s, at) + ([s.tables.frozen[at].entries] + Newer(s, at))
  {
    hide Content, PublishedWatermark;
    var f := s.tables.frozen;
    assert EntriesOf(f) == EntriesOf(f[..at]) + [f[at].entries] + EntriesOf(f[at + 1..]);
  }

  /** The published watermark sits between what it covers and what it does not. */
  lemma WatermarkBetween(s: State, at: nat)
    requires Inv(s) && First(s) <= at < |s.tables.frozen|
    ensures var w := s.tables.frozen[at].maxLsn;
            && (forall i, k :: 0 <= i < |Newer(s, at)| && k in Newer(s, at)[i] ==> w < Newer(s, at)[i][k].lsn)
            && (forall r :: r in InFlight(s) ==> w < r.lsn)
            && PublishedWatermark(s.lake) < w
            && (forall i, k :: 0 <= i < |JumpedOver(s, at)| && k in JumpedOver(s, at)[i] ==> JumpedOver(s, at)[i][k].lsn < w)
  {
    hide WalInv, DurableInv, LakeInv, FlushInv, LsnsInv, Sound, Represented, Content, PublishedWatermark, Layers,
      JumpedOver, Newer;
    var t, layers, below := s.tables.frozen[at], Layers(s), Contents(s.lake) + JumpedOver(s, at);
    LayersAround(s, at);
    UnpublishedAbove(s);
    NewerCount(s, at);
    var m :| m in t.entries && t.entries[m].lsn == t.maxLsn;
    var n := |below|;
    assert layers[n] == t.entries;
    forall i, k | 0 <= i < |Newer(s, at)| && k in Newer(s, at)[i]
      ensures t.maxLsn < Newer(s, at)[i][k].lsn
    {
      assert layers[n + 1 + i] == Newer(s, at)[i];
      assert Below(layers[n], layers[n + 1 + i]);
    }
    forall r | r in InFlight(s)
      ensures t.maxLsn < r.lsn
    {
      assert Under(layers[n], InFlight(s));
    }
    forall i, k | 0 <= i < |JumpedOver(s, at)| && k in JumpedOver(s, at)[i]
      ensures JumpedOver(s, at)[i][k].lsn < t.maxLsn
    {
      assert layers[|s.lake| + i] == JumpedOver(s, at)[i];
      assert Below(layers[|s.lake| + i], layers[n]);
    }
  }

  lemma NewerCount(s: State, at: nat)
    requires at < |s.tables.frozen|
    ensures |Newer(s, at)| > 0
  {
  }

  lemma AheadLake(s: State, at: nat, rows: seq<Record>, file: File)
    requires Setting(s, at, rows, file)
    ensures GoodLake(s.lake + [file]) && PublishedWatermark(s.lake + [file]) == s.tables.frozen[at].maxLsn
    ensures Contents(s.lake + [file]) == Contents(s.lake) + [s.tables.frozen[at].entries]
  {
    hide WalInv, DurableInv, FlushInv, LsnsInv, Sound, Represented, FlyAbove, Content, PublishedWatermark,
      WellFormed, IsScan, GoodLake, Layers;
    FileFacts(file, s.tables.frozen[at]);
    ScanWatermark(rows, s.tables.frozen[at]);
    GrownWatermark(s.lake, file);
    WatermarkBetween(s, at);
    LayersAround(s, at);
    InvParts(s);
    var layers, n := Layers(s), |s.lake| + |JumpedOver(s, at)|;
    var lake' := s.lake + [file];
    assert Contents(lake') == Contents(s.lake) + [Content(file)];
    forall i, j | 0 <= i < j < |lake'|
      ensures Below(Contents(lake')[i], Contents(lake')[j])
    {
      assert layers[i] == Contents(s.lake)[i];
      if j < |s.lake| {
        assert layers[j] == Contents(s.lake)[j];
      } else {
        assert layers[n] == Contents(lake')[j];
      }
      assert Below(layers[i], layers[if j < |s.lake| then j else n]);
    }
    SeparatedLakeIsGood(s.lake, file);
  }

  lemma AheadRuns(c: Config, s: State, at: nat, rows: seq<Record>, file: File)
    requires Setting(s, at, rows, file)
    ensures RunFrom(c, s, [PlanFlush(at), StageRows(rows), Publish(file)], false) == Some(Ahead(s, at, rows, file))
  {
    hide WalInv, DurableInv, LakeInv, LsnsInv, LayersOk, PublishedWatermark, WellFormed, IsScan, Layers, ExactMax;
    UnpublishedAbove(s);
    var w, labels := s.tables.frozen[at].maxLsn, [PlanFlush(at), StageRows(rows), Publish(file)];
    assert labels[..2] == [PlanFlush(at), StageRows(rows)] && labels[..2][..1] == [PlanFlush(at)] && labels[..2][..1][..0] == [];
    assert RunFrom(c, s, labels[..2][..1][..0], false) == Some(s);
    assert RunFrom(c, s, labels[..2][..1], false) == Some(s.(flush := Planned(at, w)));
    assert RunFrom(c, s, labels[..2], false) == Some(RowsStaged(s, at, w, rows));
  }

  /** What the open after the early publish rebuilds. */
  lemma AheadRecovers(c: Config, s: State, at: nat, rows: seq<Record>, file: File, tear: Option<(Record, nat)>)
    requires Setting(s, at, rows, file) && CanTear(c, s, tear)
    ensures CanRestart(c, Ahead(s, at, rows, file), tear)
    ensures LeftOnDisk(s, Left(Bag(CrashDisk(c, s, tear)), Landed(s, tear)))
    ensures var u := Ahead(s, at, rows, file); var t := Reopened(c, u, tear);
            && Recovered(u, t, Bag(CrashDisk(c, s, tear))) && t.history == s.history + Landed(s, tear)
            && Visible(t) == Contents(u.lake) + [t.tables.active.entries] && Visible(t) == Layers(t)
  {
    hide WalInv, LakeInv, LayersOk, PublishedWatermark, WellFormed, IsScan, Layers, ExactMax, Open, IndexOf,
      Reopened, CanRestart, Bag, Recovered, GoodLake, FlushInv, TablesInv, Visible, Encodable, CrashDisk,
      TearGuard, Encoded, Landed, LeftOnDisk;
    var u, disk := Ahead(s, at, rows, file), CrashDisk(c, s, tear);
    InvParts(s);
    PendingEncodable(s);
    SameCrashDisk(c, s, u, tear);
    OpenSucceeds(c, u, tear);
    RestartRecovers(c, u, tear);
    LandedIsLeft(c, s, tear);
    var t := Reopened(c, u, tear);
    AheadLake(s, at, rows, file);
    RecoveredIsTwoTiers(u, t, Bag(disk));
    RecoveredView(u, t, Bag(disk));
    RecoveredHistory(s, u, t, Left(Bag(disk), Landed(s, tear)));
  }

  lemma AheadCrashed(c: Config, s: State, at: nat, rows: seq<Record>, file: File, tear: Option<(Record, nat)>)
    requires Setting(s, at, rows, file) && CanTear(c, s, tear)
    ensures CanRestart(c, Ahead(s, at, rows, file), tear)
    ensures var t, left := Reopened(c, Ahead(s, at, rows, file), tear), Left(Bag(CrashDisk(c, s, tear)), Landed(s, tear));
            && Crashed(s, at, rows, file, t, left)
            && Visible(t) == Contents(s.lake + [file]) + [t.tables.active.entries]
  {
    hide Setting, CanRestart, Reopened, Recovered, Bag, Visible, Layers, CanTear, CrashDisk, Landed, LeftOnDisk,
      Contents;
    AheadRecovers(c, s, at, rows, file, tear);
  }

  /** A write that may be cut short by the crash, and does not reuse a file's name. */
  ghost predicate CanTear(c: Config, s: State, tear: Option<(Record, nat)>) {
    && (tear.Some? ==> tear.value.0 in s.pending && tear.value.1 <= |Encoded([tear.value.0])|)
    && TearGuard(c, s, tear)
  }

  lemma SameCrashDisk(c: Config, s: State, u: State, tear: Option<(Record, nat)>)
    requires u.wal == s.wal && u.pending == s.pending && CanTear(c, s, tear)
    ensures CanTear(c, u, tear) && CrashDisk(c, u, tear) == CrashDisk(c, s, tear)
  {
    hide Encoded, TornAppend, FreshName;
  }

  lemma LandedIsLeft(c: Config, s: State, tear: Option<(Record, nat)>)
    requires WalInv(s.wal) && LsnsInv(s) && DurableInv(s) && CanTear(c, s, tear)
    ensures LeftOnDisk(s, Left(Bag(CrashDisk(c, s, tear)), Landed(s, tear)))
    ensures forall r :: r in InFlight(s) && r in Bag(CrashDisk(c, s, tear)) ==> r in Landed(s, tear)
  {
    hide WalInv, Bag, CrashDisk, TearGuard, Encoded, PublishedWatermark;
    PendingEncodable(s);
    CrashDiskFacts(c, s, tear);
    forall r | r in s.pending
      ensures r in Bag(CrashDisk(c, s, tear)) <==> r in Landed(s, tear)
    {
      PendingOnDisk(c, s, tear, r);
    }
  }

  lemma RecoveredView(u: State, t: State, disk: multiset<Record>)
    requires Recovered(u, t, disk) && GoodLake(u.lake)
    ensures Visible(t) == Contents(u.lake) + [t.tables.active.entries]
  {
    hide GoodLake, WalInv, Bag, ExactMax, Holds, PublishedWatermark, Content, IndexOf;
    ReversedIndex(u.lake);
    assert EntriesOf([]) == [];
  }

  lemma RecoveredHistory(s: State, u: State, t: State, left: Left)
    requires Recovered(u, t, left.disk) && LeftOnDisk(s, left)
    requires forall r :: r in InFlight(s) && r in left.disk ==> r in left.landed
    requires u.history == s.history && u.pending == s.pending && u.logged == s.logged
    ensures t.history == s.history + left.landed
  {
    hide WalInv, Bag, ExactMax, Holds, PublishedWatermark, IndexOf;
  }

  // ---- Overwritten keys survive ---------------------------------------------------------------------------

  lemma OverwrittenSurvives(s: State, at: nat, rows: seq<Record>, file: File, t: State, left: Left)
    requires Crashed(s, at, rows, file, t, left) && Overwritten(s, at, left.landed)
    requires Visible(t) == Contents(s.lake + [file]) + [t.tables.active.entries]
    ensures Faithful(t)
  {
    hide Crashed, Overwritten, LayersOk, Layers, Visible, MapHas, Recovered, Bag, Top, GoodLake, Contents,
      PublishedWatermark, LsnsUnique;
    CrashedParts(s, at, rows, file, t, left);
    SurvivingLayers(s, at, rows, file, t, left);
    assert LsnsUnique(t.history) by { HistoryUnique(s, t, left); }
    forall key, o | MapHas(t.history, key, o)
      ensures TopRecord(Visible(t), key) == o
    {
      LayersAreMap(Visible(t), t.history, {}, key);
      MapHasUnique(t.history, key, o, TopRecord(Visible(t), key));
    }
  }

  lemma HistoryUnique(s: State, t: State, left: Left)
    requires LsnsInv(s) && left.landed <= InFlight(s) && t.history == s.history + left.landed
    ensures LsnsUnique(t.history)
  {
    hide Encodable;
    assert forall r :: r in t.history ==> r in s.history + InFlight(s);
  }

  lemma SurvivingLayers(s: State, at: nat, rows: seq<Record>, file: File, t: State, left: Left)
    requires Crashed(s, at, rows, file, t, left) && Overwritten(s, at, left.landed)
    requires Visible(t) == Contents(s.lake + [file]) + [t.tables.active.entries]
    ensures LayersOk(Visible(t), t.history, {})
  {
    hide Crashed, Overwritten, Recovered, LayersOk, Layers, Visible, Bag, GoodLake, PublishedWatermark,
      Represented, Holds, Contents, WalInv, DurableInv, LsnsInv, LakeInv, TablesInv, FlushInv, JumpedOver, Newer;
    CrashedParts(s, at, rows, file, t, left);
    var x, active := s.tables.frozen[at].entries, t.tables.active.entries;
    AheadLake(s, at, rows, file);
    var base := Contents(s.lake) + [x];
    SnocLayers(base, active, t.history, {});
    BaseIsFine(s, at, rows, file, t, left);
    forall r | r in t.history
      ensures Represented(base, r) || Holds(active, r)
    {
      SurvivorRepresented(s, at, rows, file, t, left, r);
    }
  }

  lemma CrashedParts(s: State, at: nat, rows: seq<Record>, file: File, t: State, left: Left)
    requires Crashed(s, at, rows, file, t, left)
    ensures Setting(s, at, rows, file) && Inv(s) && First(s) <= at < |s.tables.frozen|
    ensures WalInv(s.wal) && LsnsInv(s) && DurableInv(s) && GoodLake(s.lake) && LayersOk(Layers(s), s.history, InFlight(s))
    ensures ExactMax(s.tables.frozen[at])
    ensures LeftOnDisk(s, left) && t.history == s.history + left.landed
  {
    hide LeftOnDisk, Recovered;
  }

  /** The recovered table, with the lake behind it. */
  lemma AheadTable(s: State, at: nat, rows: seq<Record>, file: File, t: State, left: Left)
    requires Crashed(s, at, rows, file, t, left)
    ensures var w, active := s.tables.frozen[at].maxLsn, t.tables.active.entries;
            && (forall r :: r in left.disk && r.lsn > w ==> Holds(active, r))
            && (forall k :: k in active ==> RecordAt(k, active[k]) in left.disk && active[k].lsn > w)
  {
    hide Bag, WalInv, ExactMax, PublishedWatermark, IndexOf, LayersOk, WellFormed, IsScan, LakeInv, DurableInv,
      LsnsInv, FlushInv, Holds;
    AheadLake(s, at, rows, file);
  }

  lemma BaseIsFine(s: State, at: nat, rows: seq<Record>, file: File, t: State, left: Left)
    requires Crashed(s, at, rows, file, t, left)
    ensures var base := Contents(s.lake) + [s.tables.frozen[at].entries];
            && Sound(base, t.history) && Separated(base) && LayerSound(t.tables.active.entries, t.history)
            && forall i :: 0 <= i < |base| ==> Below(base[i], t.tables.active.entries) && Under(base[i], {})
  {
    hide Crashed, LeftOnDisk, Bag, PublishedWatermark, WalInv, DurableInv, LsnsInv, GoodLake, Layers, ExactMax,
      LayersOk, Sound, Separated, Inv, JumpedOver;
    CrashedParts(s, at, rows, file, t, left);
    AheadTable(s, at, rows, file, t, left);
    TableIsSound(s, at, t, left);
    var base := Contents(s.lake) + [s.tables.frozen[at].entries];
    BaseIsSound(s, at, t.history);
    forall i | 0 <= i < |base|
      ensures Below(base[i], t.tables.active.entries)
    {
      BelowWatermark(s, at, i);
    }
  }

  lemma TableIsSound(s: State, at: nat, t: State, left: Left)
    requires LeftOnDisk(s, left) && t.history == s.history + left.landed
    requires forall k :: k in t.tables.active.entries ==> RecordAt(k, t.tables.active.entries[k]) in left.disk
    ensures LayerSound(t.tables.active.entries, t.history)
  {
    hide Bag;
  }

  lemma BaseIsSound(s: State, at: nat, history: set<Record>)
    requires LayersOk(Layers(s), s.history, InFlight(s)) && First(s) <= at < |s.tables.frozen| && s.history <= history
    ensures Sound(Contents(s.lake) + [s.tables.frozen[at].entries], history)
    ensures Separated(Contents(s.lake) + [s.tables.frozen[at].entries])
  {
    hide Layers, JumpedOver, PublishedWatermark, Content, Represented, FlyAbove;
    LayersAround(s, at);
    var base, layers, n := Contents(s.lake) + [s.tables.frozen[at].entries], Layers(s), |s.lake| + |JumpedOver(s, at)|;
    assert layers[n] == s.tables.frozen[at].entries;
    forall i | 0 <= i < |base|
      ensures base[i] == layers[if i < |s.lake| then i else n]
    {
    }
    forall i | 0 <= i < |base|
      ensures LayerSound(base[i], history)
    {
      assert LayerSound(layers[if i < |s.lake| then i else n], s.history);
    }
    forall i, j | 0 <= i < j < |base|
      ensures Below(base[i], base[j])
    {
      SeparatedPair(layers, if i < |s.lake| then i else n, if j < |s.lake| then j else n);
    }
  }

  lemma BelowWatermark(s: State, at: nat, i: nat)
    requires Inv(s) && First(s) <= at < |s.tables.frozen| && i <= |s.lake|
    ensures var layer := (Contents(s.lake) + [s.tables.frozen[at].entries])[i];
            forall k :: k in layer ==> layer[k].lsn <= s.tables.frozen[at].maxLsn
  {
    hide WalInv, DurableInv, LsnsInv, LayersOk, Layers, FlushInv, PublishedWatermark, Content, GoodLake;
    WatermarkBetween(s, at);
    WatermarkBounds(s.lake);
  }

  lemma SurvivorRepresented(s: State, at: nat, rows: seq<Record>, file: File, t: State, left: Left, r: Record)
    requires Crashed(s, at, rows, file, t, left) && Overwritten(s, at, left.landed)
    requires r in t.history
    ensures Represented(Contents(s.lake) + [s.tables.frozen[at].entries], r) || Holds(t.tables.active.entries, r)
  {
    hide Represented, LeftOnDisk, Crashed, Overwritten, Recovered, Bag, PublishedWatermark, Content, WalInv,
      LsnsInv, DurableInv, GoodLake, Layers, JumpedOver, Newer, LayersOk, Inv, ExactMax;
    CrashedParts(s, at, rows, file, t, left);
    AheadTable(s, at, rows, file, t, left);
    WatermarkBetween(s, at);
    LayersAround(s, at);
    var w, x, active := s.tables.frozen[at].maxLsn, s.tables.frozen[at].entries, t.tables.active.entries;
    var layers, nl, nj := Layers(s), |s.lake|, |JumpedOver(s, at)|;
    var base := Contents(s.lake) + [x];
    if r.lsn <= w {
      NotLanded(s, left, r, w);
      var i := HomeOf(s, r);
      if i < nl {
        HolderRepresents(base, i, r);
      } else if i == nl + nj {
        HolderRepresents(base, nl, r);
      } else if i > nl + nj {
        assert Newer(s, at)[i - nl - nj - 1] == layers[i];
        NewerSurvives(s, at, rows, file, t, left, i - nl - nj - 1, r.key);
      } else {
        assert JumpedOver(s, at)[i - nl] == layers[i];
        JumpedSurvives(s, at, rows, file, t, left, i - nl, r);
      }
    } else {
      LoggedAbove(s, left, r, w);
    }
  }

  lemma NotLanded(s: State, left: Left, r: Record, w: nat)
    requires LeftOnDisk(s, left) && r in s.history + left.landed && r.lsn <= w
    requires forall q :: q in InFlight(s) ==> w < q.lsn
    ensures r in s.history
  {
    hide Bag;
  }

  lemma HomeOf(s: State, r: Record) returns (i: nat)
    requires LayersOk(Layers(s), s.history, InFlight(s)) && r in s.history
    ensures i < |Layers(s)| && Holds(Layers(s)[i], r)
  {
    hide Layers, Sound, Separated, FlyAbove;
    assert Represented(Layers(s), r);
    i :| 0 <= i < |Layers(s)| && Holds(Layers(s)[i], r);
  }

  lemma LoggedAbove(s: State, left: Left, r: Record, w: nat)
    requires DurableInv(s) && LeftOnDisk(s, left) && r in s.history + left.landed && PublishedWatermark(s.lake) < w < r.lsn
    ensures r in left.disk
  {
    hide Bag, PublishedWatermark;
  }

  /** An entry above the published table is replayed. */
  lemma NewerSurvives(s: State, at: nat, rows: seq<Record>, file: File, t: State, left: Left, i: nat, key: Key)
    requires Crashed(s, at, rows, file, t, left)
    requires i < |Newer(s, at)| && key in Newer(s, at)[i]
    ensures key in t.tables.active.entries && t.tables.active.entries[key].lsn >= Newer(s, at)[i][key].lsn
  {
    hide Crashed, Recovered, Bag, Content, WalInv, LsnsInv, GoodLake, Layers, JumpedOver, Newer, Separated,
      Represented, LakeInv, TablesInv, FlushInv, ExactMax, PublishedWatermark;
    CrashedParts(s, at, rows, file, t, left);
    AheadTable(s, at, rows, file, t, left);
    WatermarkBetween(s, at);
    LayersAround(s, at);
    var layers, n := Layers(s), |s.lake| + |JumpedOver(s, at)| + 1;
    assert layers[n + i] == Newer(s, at)[i];
    assert LayerSound(layers[n + i], s.history);
    SoundEntry(layers[n + i], s.history, key);
    var q := RecordAt(key, Newer(s, at)[i][key]);
    assert q in left.disk;
    assert Holds(t.tables.active.entries, q);
  }

  lemma LandedIsOnDisk(s: State, left: Left, q: Record)
    requires LeftOnDisk(s, left) && q in left.landed
    ensures q in InFlight(s) && q in left.disk
  {
    hide Bag;
  }

  lemma JumpedSurvives(s: State, at: nat, rows: seq<Record>, file: File, t: State, left: Left, i: nat, r: Record)
    requires Crashed(s, at, rows, file, t, left) && Overwritten(s, at, left.landed)
    requires i < |JumpedOver(s, at)| && Holds(JumpedOver(s, at)[i], r)
    ensures Represented(Contents(s.lake) + [s.tables.frozen[at].entries], r) || Holds(t.tables.active.entries, r)
  {
    hide LeftOnDisk, Represented, Separated, DurableInv, FlyAbove, Crashed, Recovered, Bag, Content, WalInv,
      LsnsInv, GoodLake, Layers, JumpedOver, Newer, LakeInv, Sound, TablesInv, FlushInv, ExactMax,
      PublishedWatermark;
    CrashedParts(s, at, rows, file, t, left);
    AheadTable(s, at, rows, file, t, left);
    WatermarkBetween(s, at);
    LayersAround(s, at);
    var x, jumped, layers := s.tables.frozen[at].entries, JumpedOver(s, at), Layers(s);
    var base := Contents(s.lake) + [x];
    assert layers[|s.lake| + i] == jumped[i] && layers[|s.lake| + |jumped|] == x;
    assert HeldAbove(jumped, r.key);
    if r.key in x {
      SeparatedPair(layers, |s.lake| + i, |s.lake| + |jumped|);
      BelowEntries(jumped[i], x, r.key);
      assert Holds(base[|s.lake|], r);
      HolderRepresents(base, |s.lake|, r);
    } else if HeldAbove(Newer(s, at), r.key) {
      var j :| 0 <= j < |Newer(s, at)| && r.key in Newer(s, at)[j];
      NewerSurvives(s, at, rows, file, t, left, j, r.key);
    } else {
      var q :| q in left.landed && q.key == r.key;
      LandedIsOnDisk(s, left, q);
      assert Holds(t.tables.active.entries, q);
    }
  }

  lemma SeparatedPair(layers: seq<Layer>, i: nat, j: nat)
    requires Separated(layers) && i < j < |layers|
    ensures Below(layers[i], layers[j])
  {
  }

  lemma HolderRepresents(layers: seq<Layer>, i: nat, r: Record)
    requires i < |layers| && Holds(layers[i], r)
    ensures Represented(layers, r)
  {
  }

  // ---- Anything else is lost --------------------------------------------------------------------------------

  lemma NotOverwrittenIsLost(s: State, at: nat, rows: seq<Record>, file: File, t: State, left: Left)
    requires Crashed(s, at, rows, file, t, left) && !Overwritten(s, at, left.landed)
    requires Visible(t) == Contents(s.lake + [file]) + [t.tables.active.entries]
    ensures !Faithful(t)
  {
    hide Crashed, LayersOk, Layers, Visible, MapHas, Recovered, Bag, Top, GoodLake, Contents, JumpedOver, Newer,
      PublishedWatermark, LsnsUnique, HeldAbove, Faithful, TopRecord;
    CrashedParts(s, at, rows, file, t, left);
    var k :| HeldAbove(JumpedOver(s, at), k) && k !in s.tables.frozen[at].entries && !HeldAbove(Newer(s, at), k)
             && !exists r :: r in left.landed && r.key == k;
    var q := JumpedTop(s, at, k);
    assert MapHas(t.history, k, Some(q)) by { TopStaysTop(s, t, left, k, q); }
    LostKey(s, at, rows, file, t, left, k, q);
    NotFaithful(t, q);
  }

  lemma TopStaysTop(s: State, t: State, left: Left, k: Key, q: Record)
    requires MapHas(s.history, k, Some(q)) && t.history == s.history + left.landed
    requires !exists r :: r in left.landed && r.key == k
    ensures MapHas(t.history, k, Some(q))
  {
  }

  /** The key's highest record sits in a jumped-over layer. */
  lemma JumpedTop(s: State, at: nat, k: Key) returns (q: Record)
    requires Inv(s) && First(s) <= at < |s.tables.frozen|
    requires HeldAbove(JumpedOver(s, at), k) && k !in s.tables.frozen[at].entries && !HeldAbove(Newer(s, at), k)
    ensures q.key == k && MapHas(s.history, k, Some(q)) && Some(q) == TopRecord(JumpedOver(s, at), k)
    ensures PublishedWatermark(s.lake) < q.lsn < s.tables.frozen[at].maxLsn
  {
    hide Inv, LayersOk, Layers, MapHas, Top, GoodLake, Contents, JumpedOver, Newer, PublishedWatermark, HeldAbove;
    InvParts(s);
    LayersAround(s, at);
    WatermarkBetween(s, at);
    var x, jumped := s.tables.frozen[at].entries, JumpedOver(s, at);
    HeldIsTop(jumped, k);
    HeldIsTop(Newer(s, at), k);
    TopConcat(Contents(s.lake) + jumped, [x] + Newer(s, at), k);
    TopConcat([x], Newer(s, at), k);
    TopConcat(Contents(s.lake), jumped, k);
    TopOfSingle(x, k);
    LayersAreMap(Layers(s), s.history, InFlight(s), k);
    q := TopRecord(Layers(s), k).value;
    TopAt(jumped, k);
    var j :| TopIs(jumped, k, j, Top(jumped, k).value);
    JumpedAboveLake(s, at, j, k);
  }

  lemma JumpedAboveLake(s: State, at: nat, j: nat, k: Key)
    requires Inv(s) && First(s) <= at < |s.tables.frozen|
    requires j < |JumpedOver(s, at)| && k in JumpedOver(s, at)[j]
    ensures PublishedWatermark(s.lake) < JumpedOver(s, at)[j][k].lsn
  {
    hide WalInv, DurableInv, TablesInv, FlushInv, LayersOk, Layers, GoodLake, Contents, JumpedOver,
      PublishedWatermark, Encodable;
    InvParts(s);
    AboveTheLake(s);
    LayersAround(s, at);
    LakeCount(s);
    assert Layers(s)[|s.lake| + j] == JumpedOver(s, at)[j];
  }

  lemma LakeCount(s: State)
    ensures |Contents(s.lake)| == |s.lake|
  {
  }

  lemma LostKey(s: State, at: nat, rows: seq<Record>, file: File, t: State, left: Left, k: Key, q: Record)
    requires Crashed(s, at, rows, file, t, left)
    requires Visible(t) == Contents(s.lake + [file]) + [t.tables.active.entries]
    requires q.key == k && MapHas(s.history, k, Some(q)) && k !in s.tables.frozen[at].entries
    requires PublishedWatermark(s.lake) < q.lsn < s.tables.frozen[at].maxLsn
    requires !exists r :: r in left.landed && r.key == k
    ensures TopRecord(Visible(t), k) != Some(q)
  {
    hide Crashed, Recovered, LayersOk, Layers, Visible, Bag, Top, GoodLake, Contents, PublishedWatermark, WalInv,
      LsnsInv, LakeInv, TablesInv, FlushInv, TopRecord;
    CrashedParts(s, at, rows, file, t, left);
    AheadLake(s, at, rows, file);
    AheadTable(s, at, rows, file, t, left);
    var x, active := s.tables.frozen[at].entries, t.tables.active.entries;
    assert k !in active by { LostIsNotReplayed(s, left, active, k, q, s.tables.frozen[at].maxLsn); }
    TopConcat(Contents(s.lake) + [x], [active], k);
    TopConcat(Contents(s.lake), [x], k);
    TopOfSingle(active, k);
    TopOfSingle(x, k);
    assert Top(Visible(t), k) == Top(Contents(s.lake), k);
    LakeTopIsLow(s.lake, k, q);
    SameTopRecord(Visible(t), Contents(s.lake), k);
  }

  /** Nothing in the log above the published watermark is for this key. */
  lemma LostIsNotReplayed(s: State, left: Left, active: Layer, k: Key, q: Record, w: nat)
    requires LeftOnDisk(s, left) && MapHas(s.history, k, Some(q)) && q.lsn < w
    requires !exists r :: r in left.landed && r.key == k
    requires k in active ==> RecordAt(k, active[k]) in left.disk && active[k].lsn > w
    ensures k !in active
  {
    hide Bag, PublishedWatermark;
  }

  lemma LakeTopIsLow(lake: seq<File>, k: Key, q: Record)
    requires GoodLake(lake) && PublishedWatermark(lake) < q.lsn
    ensures TopRecord(Contents(lake), k) != Some(q)
  {
    hide GoodLake, PublishedWatermark, Content, Top;
    WatermarkBounds(lake);
    TopAt(Contents(lake), k);
    if Top(Contents(lake), k).Some? {
      var j :| TopIs(Contents(lake), k, j, Top(Contents(lake), k).value);
      assert Contents(lake)[j] == Content(lake[j]);
    }
  }

  /** Publishing a newer table ahead of older ones and then crashing, mid-append or not, keeps
      every acknowledged record exactly when each key jumped over has been written again at or
      above the published table; a key that has not is lost for good. */
  lemma OldestFirstIsExact(c: Config, s: State, at: nat, rows: seq<Record>, file: File, tear: Option<(Record, nat)>)
    requires Reachable(c, s) && s.flush.Idle? && First(s) <= at < |s.tables.frozen| && CanTear(c, s, tear)
    requires IsScan(rows, s.tables.frozen[at].entries) && WellFormed(file) && AllRows(file.groups) == rows
    ensures RunFrom(c, s, [PlanFlush(at), StageRows(rows), Publish(file)], false) == Some(Ahead(s, at, rows, file))
    ensures CanRestart(c, Ahead(s, at, rows, file), tear)
    ensures Faithful(Reopened(c, Ahead(s, at, rows, file), tear)) <==> Overwritten(s, at, Landed(s, tear))
  {
    hide Reachable, Inv, RunFrom, CanRestart, Reopened, Faithful, Overwritten, Recovered, Bag, Visible, Layers,
      TearGuard, CrashDisk, Landed, Crashed, Ahead, PublishedWatermark, WellFormed, AllRows, IsScan, Contents,
      LeftOnDisk, OldestPublished, Encoded;
    ReachableInv(c, s);
    AheadRuns(c, s, at, rows, file);
    AheadCrashed(c, s, at, rows, file, tear);
    var t, left := Reopened(c, Ahead(s, at, rows, file), tear), Left(Bag(CrashDisk(c, s, tear)), Landed(s, tear));
    if Overwritten(s, at, left.landed) {
      OverwrittenSurvives(s, at, rows, file, t, left);
    } else {
      NotOverwrittenIsLost(s, at, rows, file, t, left);
    }
  }
}
