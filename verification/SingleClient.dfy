/** One client: writes one at a time, flushes with nothing in flight, and reopens after any flush
    that stopped early. It needs no guard but the size bounds, and reads its last write. */
module SingleClient {
  import opened Bytes
  import opened Records
  import opened Frames
  import opened WalLog
  import opened WalContents
  import WalRuns
  import opened Memtables
  import opened Lake
  import opened Flushes
  import opened Protocol
  import opened ProtocolInvariant
  import opened ProtocolSteps
  import opened ProtocolRecovery
  import opened Guarantees

  /** The client's own rules. A flush that stops early is followed by a reopen, so it is not
      abandoned: the restart comes straight from wherever it stood. */
  predicate SoloStep(s: State, l: Label) {
    match l
    case Begin(key, op, value) =>
      && InFlight(s) == {} && s.tables.frozen == []
      && s.nextLsn < U64 / 2 && Encodable(MakeRecord(key, s.nextLsn, op, value))
    case Freeze => InFlight(s) == {} && s.tables.frozen == []
    case Abandon => false
    case _ => true
  }

  /** A run of the code's own steps, each by the client's rules. */
  ghost predicate Solo(c: Config, labels: seq<Label>) {
    labels == [] || (
      var init, l := labels[..|labels| - 1], labels[|labels| - 1];
      && Solo(c, init)
      && RunFrom(c, Init, init, false).Some?
      && var s := RunFrom(c, Init, init, false).value;
         Enabled(c, s, l) && SoloStep(s, l))
  }

  // ---- Why the log needs no guard on names -------------------------------------------------------------

  /** The first LSN not yet in the log. */
  function Base(s: State): int {
    if s.pending == {} then s.nextLsn else s.nextLsn - 1
  }

  /** `base` is one above everything durable, and every file is named below it, save an empty
      active one that a torn rotation may have named after it. */
  ghost predicate Tight(base: int, w: nat, wal: WalState) {
    && w < base && (forall r :: r in Bag(wal.disk) ==> r.lsn < base)
    && (base == 1 || base - 1 == w || exists r :: r in Bag(wal.disk) && r.lsn == base - 1)
    && NamesFit(base, wal)
  }

  predicate NamesFit(base: int, wal: WalState) {
    forall n :: n in wal.disk ==> n < base || (n == base && n == wal.active.start && wal.activeBytes == 0)
  }

  ghost predicate SoloInv(s: State) {
    && Inv(s)
    && |s.tables.frozen| <= 1 && (s.tables.frozen != [] ==> InFlight(s) == {})
    && (s.flush.Idle? && s.tables.frozen != [] ==> !OldestPublished(s))
    && (forall r :: r in InFlight(s) ==> r.lsn == s.nextLsn - 1)
    && Tight(Base(s), PublishedWatermark(s.lake), s.wal)
  }

  lemma TightFits(base: int, w: nat, wal: WalState)
    requires Tight(base, w, wal)
    ensures NamesFit(base, wal)
  {
  }

  lemma TightNames(base: nat, wal: WalState, rec: Record, segmentMaxBytes: nat)
    requires NamesFit(base, wal) && rec.lsn == base && segmentMaxBytes > 0
    ensures FreshName(wal, [rec], segmentMaxBytes)
  {
  }

  /** Every step by the client's rules meets its guard. */
  lemma SoloIsGuarded(c: Config, s: State, l: Label)
    requires SoloInv(s) && Enabled(c, s, l) && SoloStep(s, l) && c.segmentMaxBytes > 0
    ensures Guard(c, s, l)
  {
    hide WalInv, LsnsInv, LayersOk, DurableInv, LakeInv, FlushInv, IndexOf, PublishedWatermark, FreshName,
      Encodable, Open, TornAppend, IsScan, WellFormed, Bag, Encoded, CanRestart;
    match l
    case Log(rec) => TightNames(Base(s), s.wal, rec, c.segmentMaxBytes);
    case PlanFlush(target) => PlanFacts(s);
    case Restart(tear) =>
      TearInFlight(c, s, tear);
      if tear.Some? {
        TightNames(Base(s), s.wal, tear.value.0, c.segmentMaxBytes);
      }
    case _ =>
  }

  lemma TearInFlight(c: Config, s: State, tear: Option<(Record, nat)>)
    requires CanRestart(c, s, tear)
    ensures tear.Some? ==> tear.value.0 in s.pending && tear.value.1 <= |Encoded([tear.value.0])|
  {
  }

  // ---- The steps keep the log tight ------------------------------------------------------------------------

  lemma TightAppend(base: nat, w: nat, wal: WalState, rec: Record, segmentMaxBytes: nat)
    requires Tight(base, w, wal) && WalInv(wal) && rec.lsn == base && Encodable(rec)
    requires FreshName(wal, [rec], segmentMaxBytes)
    ensures Tight(base + 1, w, Appended(wal, [rec], segmentMaxBytes))
  {
    hide Bag, Encoded, MaxLsn, Clean, Describes, Encodable;
    assert AllEncodable([rec]);
    AppendedKeeps(wal, [rec], segmentMaxBytes);
    var wal' := Appended(wal, [rec], segmentMaxBytes);
    assert rec in Bag(wal'.disk);
    assert forall r :: r in Bag(wal'.disk) ==> r in Bag(wal.disk) || r == rec;
  }

  lemma TightPublish(base: nat, w: nat, w': nat, wal: WalState)
    requires Tight(base, w, wal) && w <= w' < base
    ensures Tight(base, w', wal)
  {
    hide Bag, NamesFit;
  }

  /** Dropping files and published records. */
  lemma TightPruned(base: nat, w: nat, wal: WalState, wal': WalState)
    requires Tight(base, w, wal) && wal'.disk.Keys <= wal.disk.Keys
    requires wal'.active == wal.active && wal'.activeBytes == wal.activeBytes
    requires forall r :: Bag(wal'.disk)[r] <= Bag(wal.disk)[r]
    requires forall r: Record :: r.lsn > w ==> Bag(wal'.disk)[r] == Bag(wal.disk)[r]
    ensures Tight(base, w, wal')
  {
    hide Bag;
    assert forall r :: r in Bag(wal'.disk) ==> r in Bag(wal.disk);
    if base > 1 && base - 1 != w {
      var r :| r in Bag(wal.disk) && r.lsn == base - 1;
      assert r in Bag(wal'.disk);
    }
  }

  /** An open finds the first free LSN again, and a file named after it is empty and active. */
  lemma TightReopen(disk: Disk, base: nat, w: nat)
    requires disk != map[] && (forall n :: n in disk ==> Readable(disk[n]))
    requires w < base && (forall r :: r in Bag(disk) ==> r.lsn < base)
    requires base == 1 || base - 1 == w || exists r :: r in Bag(disk) && r.lsn == base - 1
    requires forall n :: n in disk ==> n < base || (n == base && RecordsOf(disk[n]) == [])
    ensures Open(disk, w).Ok?
    ensures var start := Open(disk, w).value;
            Max(start.maxLsn, w) + 1 == base && Tight(base, w, start.wal)
  {
    hide Bag, Readable, Open, RecordsOf, WalInv;
    OpenReads(disk, w);
    OpenKeepsFiles(disk, w);
    var start := Open(disk, w).value;
    forall n | n in start.wal.disk
      ensures n < base || (n == base && n == start.wal.active.start && start.wal.activeBytes == 0)
    {
      if n == base {
        ActiveNamed(start.wal);
        EmptyActive(start.wal);
      }
    }
  }

  lemma ActiveNamed(st: WalState)
    requires WalInv(st)
    ensures st.active.start in st.disk
  {
    hide Clean, Describes;
  }

  lemma EmptyActive(st: WalState)
    requires WalInv(st) && RecordsOf(st.disk[st.active.start]) == []
    ensures st.activeBytes == 0
  {
    hide RecordsOf, Describes;
    EncodedNone();
    assert Clean(st.disk[st.active.start]);
  }

  /** What the crash leaves satisfies the open: the torn record is the next LSN or is not there. */
  lemma CrashIsTight(c: Config, s: State, tear: Option<(Record, nat)>) returns (base: nat)
    requires SoloInv(s) && c.segmentMaxBytes > 0
    requires tear.Some? ==> tear.value.0 in s.pending && tear.value.1 <= |Encoded([tear.value.0])|
    ensures var disk, w := CrashDisk(c, s, tear), PublishedWatermark(s.lake);
            && disk != map[] && (forall n :: n in disk ==> Readable(disk[n]))
            && w < base && (forall r :: r in Bag(disk) ==> r.lsn < base)
            && (base == 1 || base - 1 == w || exists r :: r in Bag(disk) && r.lsn == base - 1)
            && (forall n :: n in disk ==> n < base || (n == base && RecordsOf(disk[n]) == []))
  {
    hide Inv, Bag, Readable, RecordsOf, WalInv, LsnsInv, DurableInv, LayersOk, LakeInv, TornAppend, Encoded,
      FreshName, Encodable, PublishedWatermark, WholeFrames;
    InvParts(s);
    PendingEncodable(s);
    ActiveNamed(s.wal);
    match tear
    case None =>
      base := Base(s);
      CrashDiskFacts(c, s, tear);
      EmptyNames(base, s.wal);
    case Some((rec, m)) =>
      TightNames(Base(s), s.wal, rec, c.segmentMaxBytes);
      CrashDiskFacts(c, s, tear);
      base := TornIsTight(Base(s), PublishedWatermark(s.lake), s.wal, rec, c.segmentMaxBytes, m);
  }

  lemma EmptyNames(base: nat, wal: WalState)
    requires WalInv(wal) && NamesFit(base, wal)
    ensures forall n :: n in wal.disk ==> n < base || (n == base && n == wal.active.start && RecordsOf(wal.disk[n]) == [])
  {
    hide Clean, Describes, RecordsOf;
    EncodedNone();
    CleanFile([]);
  }

  lemma TornIsTight(base: nat, w: nat, wal: WalState, rec: Record, segmentMaxBytes: nat, m: nat) returns (base': nat)
    requires Tight(base, w, wal) && WalInv(wal) && rec.lsn == base && Encodable(rec)
    requires FreshName(wal, [rec], segmentMaxBytes) && m <= |Encoded([rec])|
    ensures var disk := TornAppend(wal, [rec], segmentMaxBytes, m);
            && disk != map[] && w < base' && (forall r :: r in Bag(disk) ==> r.lsn < base')
            && (base' == 1 || base' - 1 == w || exists r :: r in Bag(disk) && r.lsn == base' - 1)
            && (forall n :: n in disk ==> n < base' || (n == base' && RecordsOf(disk[n]) == []))
  {
    hide Bag, Readable, RecordsOf, WalInv, Encoded, Encodable, WholeFrames, FreshName;
    assert AllEncodable([rec]);
    TornAppendKeeps(wal, [rec], segmentMaxBytes, m);
    WalRuns.GrownFile(wal, [rec], segmentMaxBytes, m);
    WholeFramesExact([rec], m);
    var disk, k := TornAppend(wal, [rec], segmentMaxBytes, m), WholeFrames([rec], m);
    TornNames(base, wal, rec, segmentMaxBytes, m);
    if k == 1 {
      base' := base + 1;
      assert [rec][..k] == [rec];
      assert rec in multiset([rec]);
      assert Bag(disk) == Bag(wal.disk) + multiset{rec};
      assert forall r :: r in Bag(disk) ==> r in Bag(wal.disk) || r == rec;
    } else {
      base' := base;
      assert [rec][..k] == [];
      assert Bag(disk) == Bag(wal.disk);
    }
  }

  /** A torn append names at most one new file, after the record. */
  lemma TornNames(base: nat, wal: WalState, rec: Record, segmentMaxBytes: nat, m: nat)
    requires WalInv(wal) && NamesFit(base, wal) && rec.lsn == base && Encodable(rec)
    requires FreshName(wal, [rec], segmentMaxBytes) && m <= |Encoded([rec])|
    ensures var disk := TornAppend(wal, [rec], segmentMaxBytes, m);
            && disk != map[]
            && forall n :: n in disk ==> n < base || (n == base && (WholeFrames([rec], m) == 0 ==> RecordsOf(disk[n]) == []))
  {
    hide RecordsOf, Clean, Describes, Encodable, WholeFrames, Encoded;
    assert AllEncodable([rec]);
    WalRuns.GrownFile(wal, [rec], segmentMaxBytes, m);
    EncodedNone();
    CleanFile([]);
    EmptyNames(base, wal);
    var disk, ready := TornAppend(wal, [rec], segmentMaxBytes, m), Ready(wal, [rec], segmentMaxBytes);
    var name := ready.active.start;
    assert name in disk;
    forall n | n in disk
      ensures n < base || (n == base && (WholeFrames([rec], m) == 0 ==> RecordsOf(disk[n]) == []))
    {
      if n == base && WholeFrames([rec], m) == 0 {
        assert [rec][..0] == [];
        assert n == name;
      }
    }
  }

  // ---- Every step keeps it ----------------------------------------------------------------------------------

  lemma QuietSteps(c: Config, s: State, l: Label)
    requires SoloInv(s) && Enabled(c, s, l) && SoloStep(s, l) && Inv(Apply(c, s, l))
    requires l.Begin? || l.Insert? || l.Freeze? || l.PlanFlush? || l.StageRows? || l.Reindex? || l.Retire?
    ensures SoloInv(Apply(c, s, l))
  {
    hide WalInv, LayersOk, Layers, DurableInv, GoodLake, IndexOf, PublishedWatermark, Tight, IsScan, Encodable,
      ExactMax, Content;
    match l
    case Freeze => UnpublishedAbove(s);
    case PlanFlush(_) => PlanFacts(s);
    case _ =>
  }

  lemma LogStep(c: Config, s: State, rec: Record)
    requires SoloInv(s) && rec in s.pending && c.segmentMaxBytes > 0 && Inv(Logged(c, s, rec))
    ensures SoloInv(Logged(c, s, rec))
  {
    hide WalInv, LayersOk, DurableInv, LakeInv, FlushInv, TablesInv, PublishedWatermark, Encodable, FreshName,
      Appended, NamesFit, Tight, Layers;
    var s' := Logged(c, s, rec);
    assert s.pending == {rec} by { OneInFlight(s, rec); }
    assert s'.pending == {} && InFlight(s') == InFlight(s);
    TightFits(Base(s), PublishedWatermark(s.lake), s.wal);
    TightNames(Base(s), s.wal, rec, c.segmentMaxBytes);
    TightAppend(Base(s), PublishedWatermark(s.lake), s.wal, rec, c.segmentMaxBytes);
  }

  lemma OneInFlight(s: State, rec: Record)
    requires LsnsInv(s) && rec in InFlight(s) && forall r :: r in InFlight(s) ==> r.lsn == s.nextLsn - 1
    ensures InFlight(s) == {rec} && (rec in s.pending ==> s.pending == {rec}) && (rec in s.logged ==> s.pending == {})
  {
    hide Encodable;
    assert forall r :: r in InFlight(s) ==> r in s.history + InFlight(s);
  }

  lemma PublishStep(c: Config, s: State, file: File)
    requires Enabled(c, s, Publish(file)) && Inv(Apply(c, s, Publish(file)))
    requires SoloInv(s)
    ensures SoloInv(Apply(c, s, Publish(file)))
  {
    hide WalInv, LayersOk, Layers, DurableInv, GoodLake, IndexOf, PublishedWatermark, Tight, WellFormed, IsScan,
      Encodable, Content;
    var s' := Apply(c, s, Publish(file));
    GrownWatermark(s.lake, file);
    WatermarkIsKnown(s');
    TightPublish(Base(s), PublishedWatermark(s.lake), PublishedWatermark(s'.lake), s.wal);
  }

  /** The published watermark is the LSN of some known record, or 0. */
  lemma WatermarkIsKnown(s: State)
    requires LsnsInv(s) && LayersOk(Layers(s), s.history, InFlight(s)) && GoodLake(s.lake)
    ensures PublishedWatermark(s.lake) < s.nextLsn
  {
    hide PublishedWatermark, Content, Separated, Represented, FlyAbove, GoodLake, Encodable;
    WatermarkBounds(s.lake);
    LayerAt(s);
    if PublishedWatermark(s.lake) > 0 {
      var k :| k in NewestContent(s.lake) && NewestContent(s.lake)[k].lsn == PublishedWatermark(s.lake);
      assert s.lake != [] ==> LayerSound(Layers(s)[|s.lake| - 1], s.history);
    }
  }

  lemma TruncateStep(c: Config, s: State)
    requires Enabled(c, s, Truncate) && Inv(Apply(c, s, Truncate))
    requires SoloInv(s)
    ensures SoloInv(Apply(c, s, Truncate))
  {
    hide WalInv, LsnsInv, LayersOk, Layers, DurableInv, GoodLake, IndexOf, PublishedWatermark, Tight,
      WalLog.Truncated, Bag;
    TruncatedKeeps(s.wal, s.flush.w);
    TruncatedShape(s.wal, s.flush.w);
    TightPruned(Base(s), PublishedWatermark(s.lake), s.wal, WalLog.Truncated(s.wal, s.flush.w));
  }

  lemma TruncatedShape(st: WalState, w: nat)
    ensures var st' := WalLog.Truncated(st, w);
            st'.active == st.active && st'.activeBytes == st.activeBytes && st'.disk.Keys <= st.disk.Keys
  {
    hide Unlinked, Covered, Kept;
    UnlinkedKeepsBytes(st.disk, Covered(st.sealed, w));
  }

  lemma UnlinkStep(c: Config, s: State)
    requires Enabled(c, s, Unlink) && Inv(Apply(c, s, Unlink))
    requires SoloInv(s)
    ensures SoloInv(Apply(c, s, Unlink))
  {
    hide WalInv, LsnsInv, LayersOk, Layers, DurableInv, GoodLake, IndexOf, PublishedWatermark, Tight, Bag,
      Covered, FirstCovered, WalLog.Truncated;
    UnlinkedFirstKeeps(s.wal, s.flush.w);
    TightPruned(Base(s), PublishedWatermark(s.lake), s.wal, UnlinkedFirst(s.wal, s.flush.w));
  }

  lemma RestartStep(c: Config, s: State, tear: Option<(Record, nat)>)
    requires SoloInv(s) && c.segmentMaxBytes > 0 && CanRestart(c, s, tear) && Inv(Reopened(c, s, tear))
    ensures SoloInv(Reopened(c, s, tear)) && Reopened(c, s, tear).tables.frozen == []
  {
    hide SoloInv, Inv, CrashDisk, Tight, Open, Bag, Readable, RecordsOf, PublishedWatermark, IndexOf, InsertedAll,
      Encoded;
    TearInFlight(c, s, tear);
    var base := CrashIsTight(c, s, tear);
    TightReopen(CrashDisk(c, s, tear), base, PublishedWatermark(s.lake));
    FreshlyOpened(Reopened(c, s, tear));
  }

  lemma FreshlyOpened(t: State)
    requires Inv(t) && t.pending == {} && t.logged == {} && t.tables.frozen == []
    requires Tight(t.nextLsn, PublishedWatermark(t.lake), t.wal)
    ensures SoloInv(t)
  {
    hide Inv, Tight, PublishedWatermark;
  }

  lemma SoloStepKeeps(c: Config, s: State, l: Label)
    requires SoloInv(s) && Enabled(c, s, l) && SoloStep(s, l) && c.segmentMaxBytes > 0
    ensures Guard(c, s, l) && SoloInv(Apply(c, s, l))
  {
    hide Inv, Tight, PublishedWatermark, CanRestart, Reopened, Logged, Guard;
    SoloIsGuarded(c, s, l);
    StepKeeps(c, s, l);
    match l
    case Log(rec) => LogStep(c, s, rec);
    case Publish(file) => PublishStep(c, s, file);
    case Unlink => UnlinkStep(c, s);
    case Truncate => TruncateStep(c, s);
    case Restart(tear) => RestartStep(c, s, tear);
    case _ => QuietSteps(c, s, l);
  }

  // ---- Runs ---------------------------------------------------------------------------------------------------

  lemma InitIsSolo()
    ensures SoloInv(Init)
  {
    hide WalInv, Bag, LsnsInv, LayersOk, DurableInv, TablesInv, LakeInv, FlushInv;
    InitHolds();
    InitLog();
    assert Init.lake == [] && PublishedWatermark(Init.lake) == 0;
  }

  /** A run by the client's rules meets every guard, the freshness of segment names and the
      order of flushes included: its states are reachable. */
  lemma {:induction false} SoloRunsAreGuarded(c: Config, labels: seq<Label>)
    requires Solo(c, labels) && c.segmentMaxBytes > 0
    ensures RunFrom(c, Init, labels, false).Some?
    ensures RunFrom(c, Init, labels, true) == RunFrom(c, Init, labels, false)
    ensures SoloInv(RunFrom(c, Init, labels, false).value)
  {
    hide SoloInv, Enabled, Guard, Apply, SoloStep;
    if labels == [] {
      InitIsSolo();
    } else {
      var init := labels[..|labels| - 1];
      SoloRunsAreGuarded(c, init);
      SoloStepKeeps(c, RunFrom(c, Init, init, false).value, labels[|labels| - 1]);
    }
  }

  /** The write in flight, if its whole frame reached the disk. */
  ghost function Landed(c: Config, s: State, tear: Option<(Record, nat)>): seq<Record>
    requires CanRestart(c, s, tear)
  {
    var landed := set r | r in InFlight(s) && r in Bag(CrashDisk(c, s, tear));
    if landed == {} then [] else
    var r :| r in landed;
    [r]
  }

  /** What one step acknowledges or recovers. */
  ghost function WrittenBy(c: Config, s: State, l: Label): seq<Record>
    requires Enabled(c, s, l)
  {
    match l
    case Insert(rec) => [rec]
    case Restart(tear) => Landed(c, s, tear)
    case _ => []
  }

  /** Every write acknowledged or recovered, in the order the client made them. */
  ghost function Written(c: Config, labels: seq<Label>): seq<Record>
    requires Solo(c, labels)
  {
    if labels == [] then []
    else
      var init, l := labels[..|labels| - 1], labels[|labels| - 1];
      Written(c, init) + WrittenBy(c, RunFrom(c, Init, init, false).value, l)
  }

  /** `recs` are the known records, in increasing LSN order. */
  ghost predicate Lists(recs: seq<Record>, history: set<Record>) {
    WalRuns.Increasing(recs) && forall r :: r in recs <==> r in history
  }

  lemma ListsOneMore(s: State, recs: seq<Record>, rec: Record)
    requires Lists(recs, s.history) && LsnsInv(s) && rec in InFlight(s) && rec.lsn == s.nextLsn - 1
    ensures Lists(recs + [rec], s.history + {rec})
  {
    hide Encodable;
    forall r | r in recs
      ensures r.lsn < rec.lsn
    {
      assert r in s.history + InFlight(s) && rec in s.history + InFlight(s);
    }
    WalRuns.IncreasingJoin(recs, [rec]);
  }

  lemma LandedIsOne(c: Config, s: State, tear: Option<(Record, nat)>, recs: seq<Record>)
    requires CanRestart(c, s, tear) && LsnsInv(s) && Lists(recs, s.history)
    requires forall r :: r in InFlight(s) ==> r.lsn == s.nextLsn - 1
    ensures Lists(recs + Landed(c, s, tear), Reopened(c, s, tear).history)
  {
    hide Bag, CrashDisk, Open, InsertedAll, IndexOf, PublishedWatermark, Encodable, LsnsInv, Lists;
    var landed := set r | r in InFlight(s) && r in Bag(CrashDisk(c, s, tear));
    assert Reopened(c, s, tear).history == s.history + landed;
    if landed == {} {
      assert recs + [] == recs && s.history + {} == s.history;
    } else {
      var r := Landed(c, s, tear)[0];
      OneInFlight(s, r);
      assert landed == {r};
      ListsOneMore(s, recs, r);
    }
  }

  lemma {:induction false} WrittenIsHistory(c: Config, labels: seq<Label>)
    requires Solo(c, labels) && c.segmentMaxBytes > 0 && RunFrom(c, Init, labels, false).Some?
    ensures Lists(Written(c, labels), RunFrom(c, Init, labels, false).value.history)
  {
    hide SoloInv, SoloStep, Lists, Landed, Enabled;
    if labels == [] {
      assert Lists([], {}) by { NothingListed(); }
    } else {
      var init, l := labels[..|labels| - 1], labels[|labels| - 1];
      SoloRunsAreGuarded(c, init);
      WrittenIsHistory(c, init);
      WrittenStep(c, RunFrom(c, Init, init, false).value, l, Written(c, init));
    }
  }

  lemma NothingListed()
    ensures Lists([], {})
  {
  }

  lemma HistoryStays(c: Config, s: State, l: Label)
    requires Enabled(c, s, l) && !l.Insert? && !l.Restart?
    ensures Apply(c, s, l).history == s.history
  {
    hide PublishedWatermark, IndexOf, IsScan, WellFormed, Appended, Open, AllRows, WalLog.Truncated,
      UnlinkedFirst, Covered;
  }

  lemma WrittenStep(c: Config, s: State, l: Label, recs: seq<Record>)
    requires Enabled(c, s, l) && SoloInv(s) && Lists(recs, s.history)
    ensures Lists(recs + WrittenBy(c, s, l), Apply(c, s, l).history)
  {
    hide Inv, Tight, Lists, Landed, CanRestart, Reopened, CanPublish, CanStage, PublishedWatermark, LsnsInv,
      WalInv, LayersOk, DurableInv, GoodLake, LakeInv, AfterPlan, Covered, Logged;
    InvParts(s);
    if l.Insert? {
      ListsOneMore(s, recs, l.rec);
    } else if l.Restart? {
      LandedIsOne(c, s, l.tear, recs);
    } else {
      HistoryStays(c, s, l);
      assert recs + [] == recs;
    }
  }

  // ---- Reads ---------------------------------------------------------------------------------------------------

  function LastWrite(recs: seq<Record>, key: Key): Option<Record> {
    if recs == [] then None
    else if recs[|recs| - 1].key == key then Some(recs[|recs| - 1])
    else LastWrite(recs[..|recs| - 1], key)
  }

  lemma {:induction false} LastOf(recs: seq<Record>, key: Key)
    requires WalRuns.Increasing(recs)
    ensures match LastWrite(recs, key)
            case None => forall r :: r in recs ==> r.key != key
            case Some(top) => top in recs && top.key == key && forall r :: r in recs && r.key == key ==> r.lsn <= top.lsn
  {
    if recs != [] {
      var init, last := recs[..|recs| - 1], recs[|recs| - 1];
      assert forall i :: 0 <= i < |init| ==> init[i] == recs[i];
      LastOf(init, key);
      assert forall r :: r in recs <==> r in init || r == last;
      forall r | r in init
        ensures r.lsn < last.lsn
      {
        var i :| 0 <= i < |init| && init[i] == r;
        assert recs[i].lsn < recs[|init|].lsn;
      }
    }
  }

  /** One client that reopens after any flush that stopped early: whatever it did, and wherever
      it crashed, a read answers its last write to the key, with no guard but the size bounds. */
  lemma ReadsLastWrite(c: Config, labels: seq<Label>, key: Key)
    requires Solo(c, labels) && c.segmentMaxBytes > 0
    ensures RunFrom(c, Init, labels, false).Some?
    ensures var s := RunFrom(c, Init, labels, false).value;
            && Reachable(c, s) && BloomsValid(s.index)
            && EngineGet(s, key) == MapAnswer(LastWrite(Written(c, labels), key))
  {
    hide SoloInv, RunFrom, Reachable, EngineGet, BloomsValid, MapHas, Written, LastWrite, Solo;
    SoloRunsAreGuarded(c, labels);
    WrittenIsHistory(c, labels);
    var s, recs := RunFrom(c, Init, labels, false).value, Written(c, labels);
    assert Reachable(c, s) by { RunIsReachable(c, labels, s); }
    GetRefinesMap(c, s, key);
    LastIsTop(recs, s.history, key);
  }

  lemma RunIsReachable(c: Config, labels: seq<Label>, s: State)
    requires RunFrom(c, Init, labels, true) == Some(s)
    ensures Reachable(c, s)
  {
    hide RunFrom;
  }

  lemma LastIsTop(recs: seq<Record>, history: set<Record>, key: Key)
    requires Lists(recs, history)
    ensures MapHas(history, key, LastWrite(recs, key))
  {
    hide WalRuns.Increasing, LastWrite;
    LastOf(recs, key);
  }
}
