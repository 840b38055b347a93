/** The engine: write path, read path, flush, recovery (src/engine.rs). Each method is tied to a
    run of the protocol's steps, so what is proved of the protocol holds of the engine. */
module Engines {
  import opened Bytes
  import opened Records
  import opened Frames
  import opened WalLog
  import opened WalContents
  import opened Memtables
  import opened Lake
  import opened Flushes
  import opened Protocol
  import opened ProtocolInvariant
  import opened ProtocolSteps
  import opened ProtocolRecovery
  import opened Guarantees
  import opened Limits
  import opened EngineRuns
  import opened SingleClient
  import opened EngineSolo

  datatype EngineError = WriteStalled(frozen: nat) | Io

  datatype Flushed = NothingFlushed | AlreadyInLake(watermark: nat) | Committed(watermark: nat, files: nat)

  /** The publisher turns sorted rows into one well-formed file holding exactly them. */
  ghost predicate Publishes(publisher: seq<Record> -> File) {
    forall rows :: rows != [] && SortedRows(rows) ==> WellFormed(publisher(rows)) && AllRows(publisher(rows).groups) == rows
  }

  /** The steps that follow a write: the flush of a full active table, if the queue has room. */
  ghost predicate FlushesIfFull(c: Config, s: State, maxBytes: nat, publisher: seq<Record> -> File, labels: seq<Label>) {
    if s.tables.active.approxBytes >= maxBytes && CanFlush(c, s) then
      exists rows :: IsScan(rows, s.tables.active.entries) && labels == FlushSteps(s, rows, publisher(rows), None)
    else labels == []
  }

  /** What a flush answers: the branch it took, and whether truncation found every file. */
  function FlushAnswer(s: State, crash: Option<CrashAt>): Result<Flushed, EngineError> {
    if crash == Some(BeforeWrite) then Ok(NothingFlushed)
    else match FlushPlan(s)
         case Empty => Ok(NothingFlushed)
         case AlreadyPublished(w) => if Unlinks(s.wal, w) then Ok(AlreadyInLake(w)) else Err(Io)
         case Write(w) =>
           if crash == Some(AfterWrite) then Ok(NothingFlushed)
           else if crash == Some(AfterCommit) || Unlinks(s.wal, w) then Ok(Committed(w, 1))
           else Err(Io)
  }

  /** The flush met a file that truncation could not unlink. */
  predicate MetMissingFile(s: State, labels: seq<Label>) {
    Truncate in labels && !Unlinks(s.wal, s.tables.active.maxLsn)
  }

  /** The answer, told from the lake, the queue and the log. */
  lemma AnswerMeans(c: Config, s: State, rows: seq<Record>, file: File, crash: Option<CrashAt>)
    requires CanFlush(c, s)
    ensures var r, t := FlushAnswer(s, crash), FlushOutcome(s, rows, file, crash);
            && (r.Ok? ==>
                  && (r.value.Committed? <==> |t.lake| == |s.lake| + 1)
                  && (r.value.Committed? ==> r.value.files == |t.lake| - |s.lake|)
                  && (r.value.AlreadyInLake? <==> t.lake == s.lake && |t.tables.frozen| == |s.tables.frozen|)
                  && (r.value != NothingFlushed ==> r.value.watermark == s.tables.active.maxLsn)
                  && (crash.None? && s.tables.active.maxLsn > 0 ==> r.value != NothingFlushed)
                  && (r.value.Committed? ==> t.lake == s.lake + [file] && t.index == IndexOf(t.lake))
                  && (crash.None? ==> t.tables.frozen == s.tables.frozen)
                  && (crash.None? && s.tables.active.maxLsn > 0 ==>
                        t.staging == if r.value.Committed? then s.staging - {r.value.watermark} else s.staging)
                  && (r.value.AlreadyInLake? || (r.value.Committed? && crash != Some(AfterCommit)) ==>
                        Truncate in FlushSteps(s, rows, file, crash)))
            && (r == Err(Io) <==> MetMissingFile(s, FlushSteps(s, rows, file, crash)))
            && (r.Err? ==> r.error == Io) && t.tables.active == EmptyTable
  {
    hide PublishedWatermark, IndexOf, WalLog.Truncated, Unlinks;
    var labels, w := FlushSteps(s, rows, file, crash), s.tables.active.maxLsn;
    var planned := [Freeze] + [PlanFlush(|s.tables.frozen|)];
    match FlushPlan(s)
    case Empty =>
    case AlreadyPublished(_) => assert crash != Some(BeforeWrite) ==> labels[2] == Truncate;
    case Write(_) =>
      assert crash.None? || crash == Some(AfterTruncate) ==> labels[5] == Truncate;
  }

  predicate Stalls(c: Config, s: State, maxBytes: nat) {
    s.tables.active.approxBytes >= maxBytes && |s.tables.frozen| >= c.maxFrozen
  }

  lemma ScanIsSorted(rows: seq<Record>, entries: map<Key, Entry>)
    requires IsScan(rows, entries) && entries != map[]
    ensures rows != [] && SortedRows(rows)
  {
    hide SortedRows;
    var k :| k in entries;
    assert HasKey(rows, k);
  }

  lemma {:induction false} IndexKeepsBlooms(files: seq<File>)
    requires BloomsValid(files)
    ensures BloomsValid(IndexOf(files))
  {
    if files != [] {
      var n := |files| - 1;
      IndexKeepsBlooms(files[..n]);
      PlacedKeepsBlooms(IndexOf(files[..n]), files[n]);
    }
  }

  lemma {:induction false} PlacedKeepsBlooms(sorted: seq<File>, f: File)
    requires BloomsValid(sorted) && BloomsValid([f])
    ensures BloomsValid(InsertNewest(sorted, f))
  {
    assert [f][0].bloom.Some? ==> [f][0].bloom.value.Valid();
    if sorted != [] && sorted[0].watermark >= f.watermark {
      PlacedKeepsBlooms(sorted[1..], f);
    }
  }

  /** What publishing adds to the lake. */
  lemma PublishedFile(lake: seq<File>, publisher: seq<Record> -> File, rows: seq<Record>, t: Table)
    requires Publishes(publisher) && BloomsValid(lake) && IsScan(rows, t.entries) && t.entries != map[]
    ensures BloomsValid(lake + [publisher(rows)])
    ensures ExactMax(t) && PublishedWatermark(lake) < t.maxLsn ==> PublishedWatermark(lake + [publisher(rows)]) == t.maxLsn
  {
    hide SortedRows, SortedGroups, StatsSuffice, IsScan, MaxLsn, AllRows;
    var file := publisher(rows);
    ScanIsSorted(rows, t.entries);
    assert WellFormed(file);
    if ExactMax(t) {
      ScanWatermark(rows, t);
    }
    assert (lake + [file])[..|lake|] == lake;
  }

  /** The log truncated, the newest frozen table retired, its staged file removed. */
  function Finished(s: State, w: nat): State
    requires s.tables.frozen != []
  {
    s.(wal := WalLog.Truncated(s.wal, w), staging := s.staging - {w},
       tables := Tables(s.tables.active, s.tables.frozen[..|s.tables.frozen| - 1]))
  }

  lemma CommitThenFinish(s: State, w: nat, rows: seq<Record>, file: File)
    ensures var t := CommitOutcome(s, w, rows, file);
            && t.wal == s.wal && t.tables.frozen != []
            && Finished(t, w) == RetireOutcome(s, w, rows, file)
            && t.(wal := WalLog.Truncated(s.wal, w)) == TruncateOutcome(s, w, rows, file)
  {
    hide WalLog.Truncated, IndexOf;
  }

  lemma WriteStaysReachable(c: Config, s: State, rec: Record)
    requires AtRest(s) && rec == MakeRecord(rec.key, s.nextLsn, rec.op, rec.value)
    ensures Reachable(c, s) && WriteGuard(c, s, rec) ==> Reachable(c, AfterWriting(c, s, rec))
  {
    hide RunFrom, Reachable, WriteGuard, AfterWriting, WriteSteps;
    if Reachable(c, s) && WriteGuard(c, s, rec) {
      WriteIsARun(c, s, rec, true);
      ReachableRun(c, s, WriteSteps(rec), AfterWriting(c, s, rec));
    }
  }

  /** Truncation finds every file it unlinks. */
  lemma LogIsWhole(c: Config, s: State)
    requires Reachable(c, s) || Quiet(c, s)
    ensures forall w :: Unlinks(s.wal, w)
  {
    hide Reachable, LsnsInv, LayersOk, DurableInv, TablesInv, LakeInv, FlushInv, Tight, Unlinked, Covered, WalInv;
    if Reachable(c, s) {
      ReachableInv(c, s);
    }
    forall w
      ensures Unlinks(s.wal, w)
    {
      TruncatedKeeps(s.wal, w);
    }
  }

  lemma FlushTruncates(c: Config, s: State, rows: seq<Record>, file: File, crash: Option<CrashAt>)
    requires CanFlush(c, s) && WalInv(s.wal) && Truncate in FlushSteps(s, rows, file, crash)
    ensures LeavesOnlyNeeded(FlushOutcome(s, rows, file, crash).wal, s.tables.active.maxLsn)
  {
    hide WalInv, LeavesOnlyNeeded, PublishedWatermark, IndexOf, WalLog.Truncated, Unlinks;
    TruncationLeaves(s.wal, s.tables.active.maxLsn);
  }

  /** What one flush was, of the protocol and for a single client. */
  lemma FlushConclusions(c: Config, s: State, rows: seq<Record>, publisher: seq<Record> -> File, crash: Option<CrashAt>)
    requires AtRest(s) && CanFlush(c, s) && IsScan(rows, s.tables.active.entries) && Publishes(publisher)
    ensures var file := publisher(rows);
            && RunFrom(c, s, FlushSteps(s, rows, file, crash), false) == Some(FlushOutcome(s, rows, file, crash))
            && (Reachable(c, s) && s.tables.frozen == [] ==> Reachable(c, FlushOutcome(s, rows, file, crash)))
            && (Reachable(c, s) || Quiet(c, s) ==> forall w :: Unlinks(s.wal, w))
            && (WalInv(s.wal) && Truncate in FlushSteps(s, rows, file, crash) ==>
                  LeavesOnlyNeeded(FlushOutcome(s, rows, file, crash).wal, s.tables.active.maxLsn))
            && (Quiet(c, s) ==>
                  && Stopped(c, FlushOutcome(s, rows, file, crash))
                  && (crash.None? ==> Quiet(c, FlushOutcome(s, rows, file, crash))))
  {
    hide RunFrom, Reachable, IsScan, FlushSteps, FlushOutcome, WellFormed, Quiet, Stopped, Unlinks, FlushPlan,
      AllRows, SortedRows, FlushGuard, WalInv, LeavesOnlyNeeded;
    var file := publisher(rows);
    if Reachable(c, s) || Quiet(c, s) {
      LogIsWhole(c, s);
    }
    if WalInv(s.wal) && Truncate in FlushSteps(s, rows, file, crash) {
      FlushTruncates(c, s, rows, file, crash);
    }
    ScanIsSorted(rows, s.tables.active.entries);
    FlushIsARun(c, s, rows, file, crash, false);
    if Reachable(c, s) && s.tables.frozen == [] {
      QuietIsFresh(c, s);
      FlushIsARun(c, s, rows, file, crash, true);
      ReachableRun(c, s, FlushSteps(s, rows, file, crash), FlushOutcome(s, rows, file, crash));
    }
    if Quiet(c, s) {
      QuietFlush(c, s, rows, file, crash);
    }
  }

  /** What one write was, of the protocol and for a single client. */
  lemma WriteConclusions(c: Config, s: State, rec: Record)
    requires AtRest(s) && rec == MakeRecord(rec.key, s.nextLsn, rec.op, rec.value)
    ensures RunFrom(c, s, WriteSteps(rec), false) == Some(AfterWriting(c, s, rec))
    ensures AfterWriting(c, s, rec).tables.frozen == s.tables.frozen
    ensures AfterWriting(c, s, rec).tables.active.entries != map[]
    ensures Reachable(c, s) && WriteGuard(c, s, rec) ==> Reachable(c, AfterWriting(c, s, rec))
    ensures Quiet(c, s) && SizeFits(rec) ==>
              Quiet(c, AfterWriting(c, s, rec)) && MapHas(AfterWriting(c, s, rec).history, rec.key, Some(rec))
  {
    hide RunFrom, Reachable, WriteGuard, WriteSteps, Quiet, SizeFits, MapHas, Appended;
    assert rec.key in AfterWriting(c, s, rec).tables.active.entries;
    WriteIsARun(c, s, rec, false);
    WriteStaysReachable(c, s, rec);
    if Quiet(c, s) && SizeFits(rec) {
      QuietWrite(c, s, rec);
    }
  }

  /** What an open finds, of the protocol and for a single client. */
  lemma OpenConclusions(c: Config, s: State, tear: Option<(Record, nat)>)
    requires tear.Some? ==> tear.value.0 in s.pending && tear.value.1 <= |Encoded([tear.value.0])|
    ensures Reachable(c, s) && TearGuard(c, s, tear) ==>
              && CanRestart(c, s, tear) && Reachable(c, Reopened(c, s, tear))
              && FirstFree(Reopened(c, s, tear).nextLsn, Bag(CrashDisk(c, s, tear)), PublishedWatermark(s.lake))
    ensures Stopped(c, s) ==>
              && CanRestart(c, s, tear) && Quiet(c, Reopened(c, s, tear))
              && s.history <= Reopened(c, s, tear).history
  {
    hide Reachable, TearGuard, Stopped, Quiet, CanRestart, Reopened, Encoded, FirstFree;
    if Reachable(c, s) && TearGuard(c, s, tear) {
      NextLsnIsExact(c, s, tear);
      CrashLosesNothing(c, s, tear);
    }
    if Stopped(c, s) {
      StoppedReopens(c, s, tear);
    }
  }

  class Engine {
    const cfg: Config
    const publisher: seq<Record> -> File
    const wal: Wal
    const memtables: MemtableSet
    var lake: seq<File>
    var index: seq<File>
    var staging: map<nat, seq<Record>>
    var nextLsn: nat
    ghost var history: set<Record>

    ghost predicate Valid()
      reads this, memtables, memtables.active
    {
      && memtables.Valid() && memtables.maxFrozen == cfg.maxFrozen && wal.segmentMaxBytes == cfg.segmentMaxBytes
      && Publishes(publisher) && BloomsValid(lake) && BloomsValid(index)
      && Sized(memtables.active.View())
    }

    /** The engine between calls, as a protocol state. */
    ghost function View(): State
      reads this, wal, memtables, memtables.active, memtables.frozen
    {
      State(wal.View(), lake, staging, nextLsn, {}, {}, memtables.View(), index, Idle, history)
    }

    constructor (cfg: Config, publisher: seq<Record> -> File, wal: Wal, memtables: MemtableSet,
                 lake: seq<File>, index: seq<File>, staging: map<nat, seq<Record>>, nextLsn: nat, ghost history: set<Record>)
      ensures this.cfg == cfg && this.publisher == publisher && this.wal == wal && this.memtables == memtables
      ensures this.lake == lake && this.index == index && this.staging == staging
      ensures this.nextLsn == nextLsn && this.history == history
    {
      this.cfg, this.publisher, this.wal, this.memtables := cfg, publisher, wal, memtables;
      this.lake, this.index, this.staging, this.nextLsn, this.history := lake, index, staging, nextLsn, history;
    }

    /** Rebuild everything from the lake's files and the log directory a dead process left. */
    static method Open(cfg: Config, memtableMaxBytes: nat, publisher: seq<Record> -> File,
                       disk: Disk, lake: seq<File>, staging: map<nat, seq<Record>>,
                       ghost before: State, ghost tear: Option<(Record, nat)>)
      returns (r: Result<Engine, Reason>)
      requires cfg.maxFrozen > 0 && Publishes(publisher) && BloomsValid(lake)
      requires lake == before.lake && staging == before.staging
      requires tear.Some? ==> tear.value.0 in before.pending && tear.value.1 <= |Encoded([tear.value.0])|
      requires disk == CrashDisk(cfg, before, tear)
      ensures r.Ok? <==> CanRestart(cfg, before, tear)
      ensures r.Ok? ==> r.value.memtables.maxBytes == memtableMaxBytes && r.value.publisher == publisher
      ensures r.Err? ==> WalLog.Open(disk, PublishedWatermark(lake)) == Err(r.error)
      ensures r.Ok? ==> fresh(r.value) && r.value.cfg == cfg && r.value.Valid() && r.value.View() == Reopened(cfg, before, tear)
      ensures Reachable(cfg, before) && TearGuard(cfg, before, tear) ==> r.Ok? && Reachable(cfg, r.value.View())
      ensures Reachable(cfg, before) && TearGuard(cfg, before, tear) ==>
                FirstFree(r.value.nextLsn, Bag(disk), PublishedWatermark(lake))
      ensures Stopped(cfg, before) ==> r.Ok? && Quiet(cfg, r.value.View()) && before.history <= r.value.history
    {
      hide Stopped, Quiet, Reachable, TearGuard, CrashDisk, PublishedWatermark, WalLog.Open, IndexOf, BloomsValid,
        WellFormed, InsertedAll, Encoded, Publishes, FirstFree, Bag;
      OpenConclusions(cfg, before, tear);
      var watermark := PublishedWatermark(lake);
      var index := Load(lake);
      IndexKeepsBlooms(lake);
      var start := OpenWal(disk, cfg.segmentMaxBytes, watermark);
      if start.Err? {
        return Err(start.error);
      }
      var (wal, records, maxLsn) := start.value;
      ghost var log := wal.View();
      var memtables := new MemtableSet(memtableMaxBytes, cfg.maxFrozen);
      Replayed(records, 0);
      for i := 0 to |records|
        invariant wal.View() == log && memtables.Valid() && memtables.frozen == [] && fresh(memtables.active)
        invariant memtables.View() == Tables(InsertedAll(EmptyTable, records[..i]), [])
      {
        memtables.Insert(records[i]);
        Replayed(records, i + 1);
      }
      assert records[..|records|] == records;
      SizeEstimateIsExact(records);
      ghost var history := before.history + set q | q in InFlight(before) && q in Bag(disk);
      var engine := new Engine(cfg, publisher, wal, memtables, lake, index, staging, Max(maxLsn, watermark) + 1, history);
      r := Ok(engine);
    }

    method LogThenShow(rec: Record, ghost before: State)
      requires Valid() && View() == before.(nextLsn := before.nextLsn + 1)
      modifies this`history, wal, memtables.active
      ensures Valid() && View() == AfterWriting(cfg, before, rec) && rec in history
    {
      hide BloomsValid, WellFormed, Publishes, Appended, Inserted, Sized;
      InsertedSized(memtables.active.View(), rec);
      wal.Append([rec]);
      memtables.Insert(rec);
      history := history + {rec};
    }

    /** Durable, then visible; then flush if the active table is full. The write stands even
        when that flush is refused. */
    method Append(rec: Record, ghost before: State) returns (r: Result<(), EngineError>, ghost labels: seq<Label>)
      requires Valid() && View() == before.(nextLsn := before.nextLsn + 1)
      requires AtRest(before) && rec == MakeRecord(rec.key, before.nextLsn, rec.op, rec.value)
      modifies this`lake, this`index, this`staging, this`history, wal, memtables, memtables.active
      ensures Valid() && nextLsn == old(nextLsn)
      ensures RunFrom(cfg, before, WriteSteps(rec) + labels, false) == Some(View())
      ensures FlushesIfFull(cfg, AfterWriting(cfg, before, rec), memtables.maxBytes, publisher, labels)
      ensures r == Err(WriteStalled(|before.tables.frozen|)) <==> Stalls(cfg, AfterWriting(cfg, before, rec), memtables.maxBytes)
      ensures r == Err(Io) <==> MetMissingFile(AfterWriting(cfg, before, rec), labels)
      ensures r == Ok(()) || r == Err(Io) || r == Err(WriteStalled(|before.tables.frozen|))
      ensures Reachable(cfg, before) && WriteGuard(cfg, before, rec) ==>
                (r == Ok(()) <==> !Stalls(cfg, AfterWriting(cfg, before, rec), memtables.maxBytes))
      ensures r.Ok? && memtables.maxBytes > 0 ==> HeldBytes(memtables.active.entries) < memtables.maxBytes
      ensures rec in history
      ensures Reachable(cfg, before) && WriteGuard(cfg, before, rec) && before.tables.frozen == [] ==> Reachable(cfg, View())
      ensures Quiet(cfg, before) && SizeFits(rec) ==> r == Ok(()) && Quiet(cfg, View()) && MapHas(history, rec.key, Some(rec))
    {
      hide RunFrom, Reachable, BloomsValid, WellFormed, WriteSteps, WriteGuard, AfterWriting, Publishes, Quiet,
        FlushesIfFull, Stalls, SizeFits, MapHas;
      LogThenShow(rec, before);
      ghost var written := AfterWriting(cfg, before, rec);
      WriteConclusions(cfg, before, rec);
      r, labels := FlushIfFull();
      RunConcat(cfg, before, WriteSteps(rec), written, labels, false);
    }

    method FlushIfFull() returns (r: Result<(), EngineError>, ghost labels: seq<Label>)
      requires Valid()
      modifies this`lake, this`index, this`staging, wal, memtables
      ensures Valid() && history == old(history) && nextLsn == old(nextLsn)
      ensures RunFrom(cfg, old(View()), labels, false) == Some(View())
      ensures FlushesIfFull(cfg, old(View()), memtables.maxBytes, publisher, labels)
      ensures r == Err(WriteStalled(|old(memtables.frozen)|)) <==> Stalls(cfg, old(View()), memtables.maxBytes)
      ensures r == Err(Io) <==> MetMissingFile(old(View()), labels)
      ensures r == Ok(()) || r == Err(Io) || r == Err(WriteStalled(|old(memtables.frozen)|))
      ensures old(Reachable(cfg, View())) ==> r != Err(Io)
      ensures r.Ok? && memtables.maxBytes > 0 ==>
                memtables.active.approxBytes < memtables.maxBytes || old(memtables.active.entries) == map[]
      ensures old(Reachable(cfg, View())) && old(memtables.frozen) == [] ==> Reachable(cfg, View())
      ensures old(Quiet(cfg, View())) ==> r == Ok(()) && Quiet(cfg, View())
    {
      hide RunFrom, Reachable, BloomsValid, WellFormed, Publishes, Quiet, Stopped, CanFlush, IsScan, FlushSteps,
        PublishedWatermark;
      labels, r := [], Ok(());
      Nowhere(cfg, View(), false);
      var full := memtables.ShouldFreeze();
      if full {
        var flushed;
        flushed, labels := Flush(None);
        r := if flushed.Err? then Err(flushed.error) else Ok(());
      }
    }

    method Put(key: Key, value: seq<byte>) returns (lsn: nat, r: Result<(), EngineError>, ghost labels: seq<Label>)
      requires Valid()
      modifies this`lake, this`index, this`staging, this`nextLsn, this`history, wal, memtables, memtables.active
      ensures Valid() && lsn == old(nextLsn) && nextLsn == lsn + 1
      ensures RunFrom(cfg, old(View()), WriteSteps(PutRecord(key, lsn, value)) + labels, false) == Some(View())
      ensures var written := AfterWriting(cfg, old(View()), PutRecord(key, lsn, value));
              && FlushesIfFull(cfg, written, memtables.maxBytes, publisher, labels)
              && (r == Err(WriteStalled(|written.tables.frozen|)) <==> Stalls(cfg, written, memtables.maxBytes))
              && (r == Err(Io) <==> MetMissingFile(written, labels))
              && (r == Ok(()) || r == Err(Io) || r == Err(WriteStalled(|written.tables.frozen|)))
              && (old(Reachable(cfg, View())) && WriteGuard(cfg, old(View()), PutRecord(key, lsn, value)) ==>
                    (r == Ok(()) <==> !Stalls(cfg, written, memtables.maxBytes)))
      ensures r.Ok? && memtables.maxBytes > 0 ==> HeldBytes(memtables.active.entries) < memtables.maxBytes
      ensures PutRecord(key, lsn, value) in history
      ensures old(Reachable(cfg, View())) && old(memtables.frozen) == [] ==>
                (WriteGuard(cfg, old(View()), PutRecord(key, lsn, value)) ==> Reachable(cfg, View()))
      ensures old(Quiet(cfg, View())) && SizeFits(PutRecord(key, lsn, value)) ==>
                r == Ok(()) && Quiet(cfg, View()) && MapHas(history, key, Some(PutRecord(key, lsn, value)))
    {
      lsn := nextLsn;
      nextLsn := nextLsn + 1;
      r, labels := Append(PutRecord(key, lsn, value), old(View()));
    }

    method Delete(key: Key) returns (lsn: nat, r: Result<(), EngineError>, ghost labels: seq<Label>)
      requires Valid()
      modifies this`lake, this`index, this`staging, this`nextLsn, this`history, wal, memtables, memtables.active
      ensures Valid() && lsn == old(nextLsn) && nextLsn == lsn + 1
      ensures RunFrom(cfg, old(View()), WriteSteps(DeleteRecord(key, lsn)) + labels, false) == Some(View())
      ensures var written := AfterWriting(cfg, old(View()), DeleteRecord(key, lsn));
              && FlushesIfFull(cfg, written, memtables.maxBytes, publisher, labels)
              && (r == Err(WriteStalled(|written.tables.frozen|)) <==> Stalls(cfg, written, memtables.maxBytes))
              && (r == Err(Io) <==> MetMissingFile(written, labels))
              && (r == Ok(()) || r == Err(Io) || r == Err(WriteStalled(|written.tables.frozen|)))
              && (old(Reachable(cfg, View())) && WriteGuard(cfg, old(View()), DeleteRecord(key, lsn)) ==>
                    (r == Ok(()) <==> !Stalls(cfg, written, memtables.maxBytes)))
      ensures r.Ok? && memtables.maxBytes > 0 ==> HeldBytes(memtables.active.entries) < memtables.maxBytes
      ensures DeleteRecord(key, lsn) in history
      ensures old(Reachable(cfg, View())) && old(memtables.frozen) == [] ==>
                (WriteGuard(cfg, old(View()), DeleteRecord(key, lsn)) ==> Reachable(cfg, View()))
      ensures old(Quiet(cfg, View())) && SizeFits(DeleteRecord(key, lsn)) ==>
                r == Ok(()) && Quiet(cfg, View()) && MapHas(history, key, Some(DeleteRecord(key, lsn)))
    {
      lsn := nextLsn;
      nextLsn := nextLsn + 1;
      r, labels := Append(DeleteRecord(key, lsn), old(View()));
    }

    /** The row tier's answer is final, deletes included; otherwise ask the lake. In a reachable
        state the answer is the abstract map's. */
    method Get(key: Key) returns (value: Option<seq<byte>>)
      requires Valid()
      ensures value == EngineGet(View(), key)
      ensures Reachable(cfg, View()) ==> forall o :: MapHas(history, key, o) ==> value == MapAnswer(o)
      ensures Quiet(cfg, View()) ==> forall o :: MapHas(history, key, o) ==> value == MapAnswer(o)
    {
      hide Quiet, Reachable, ColumnarGet, LookupTables, MapHas, WellFormed, BloomsValid;
      if Reachable(cfg, View()) {
        GetRefinesMap(cfg, View(), key);
      }
      if Quiet(cfg, View()) {
        QuietReadsMap(cfg, View(), key);
      }
      var hit := memtables.Get(key);
      match hit
      case Found(v) => return Some(v);
      case Deleted => return None;
      case Missing =>
        hit := Lake.Get(index, key);
        value := if hit.Found? then Some(hit.value) else None;
    }

    method PublishIndex()
      requires Valid()
      modifies this`index
      ensures Valid() && index == IndexOf(lake)
    {
      hide IndexOf, BloomsValid, WellFormed;
      IndexKeepsBlooms(lake);
      index := Load(lake);
    }

    /** Flush the active table, or stop where a crash is injected. */
    method Flush(crash: Option<CrashAt>) returns (r: Result<Flushed, EngineError>, ghost labels: seq<Label>)
      requires Valid()
      modifies this`lake, this`index, this`staging, wal, memtables
      ensures Valid()
      ensures r == Err(WriteStalled(|old(memtables.frozen)|)) <==> |old(memtables.frozen)| >= cfg.maxFrozen
      ensures !CanFlush(cfg, old(View())) ==> View() == old(View()) && labels == [] && (r.Ok? ==> r.value == NothingFlushed)
      ensures CanFlush(cfg, old(View())) ==> exists rows ::
                IsScan(rows, old(View()).tables.active.entries) && labels == FlushSteps(old(View()), rows, publisher(rows), crash)
      ensures RunFrom(cfg, old(View()), labels, false) == Some(View())
      ensures r.Ok? ==> (r.value.Committed? <==> |lake| == |old(lake)| + 1)
      ensures r.Ok? && r.value.Committed? ==> r.value.files == |lake| - |old(lake)|
      ensures r.Ok? ==>
                (r.value.AlreadyInLake? <==>
                   old(memtables.active.entries) != map[] && lake == old(lake) && |memtables.frozen| == |old(memtables.frozen)|)
      ensures r.Ok? && r.value != NothingFlushed ==> r.value.watermark == old(memtables.active.maxLsn)
      ensures r == Err(Io) <==> MetMissingFile(old(View()), labels)
      ensures r.Err? ==> r.error == Io || r.error == WriteStalled(|old(memtables.frozen)|)
      ensures CanFlush(cfg, old(View())) ==> memtables.active.View() == EmptyTable
      ensures old(Reachable(cfg, View())) || old(Quiet(cfg, View())) ==> r != Err(Io)
      ensures r.Ok? && r.value.Committed? && ExactMax(old(memtables.active.View())) ==>
                PublishedWatermark(lake) == r.value.watermark
      ensures r.Ok? && crash.None? && CanFlush(cfg, old(View())) && old(memtables.active.maxLsn) > 0 ==>
                && r.value != NothingFlushed
                && staging == if r.value.Committed? then old(staging) - {r.value.watermark} else old(staging)
      ensures r.Ok? && crash.None? ==> View().tables.frozen == old(View()).tables.frozen
      ensures r.Ok? && r.value.Committed? ==> index == IndexOf(lake) && exists rows ::
                IsScan(rows, old(View()).tables.active.entries) && lake == old(lake) + [publisher(rows)]
      ensures old(WalInv(wal.View())) && r.Ok?
                && (r.value.AlreadyInLake? || (r.value.Committed? && crash != Some(AfterCommit))) ==>
                LeavesOnlyNeeded(wal.View(), r.value.watermark)
      ensures old(Reachable(cfg, View())) && old(memtables.frozen) == [] ==> Reachable(cfg, View())
      ensures old(Quiet(cfg, View())) ==> Stopped(cfg, View()) && (crash.None? ==> r.Ok? && Quiet(cfg, View()))
      ensures history == old(history)
    {
      hide Quiet, Stopped, RunFrom, Reachable, IsScan, FlushSteps, FlushOutcome, PublishedWatermark, BloomsValid,
        WellFormed, Publishes, Unlinks, FlushPlan, ExactMax, FlushAnswer, WalInv, LeavesOnlyNeeded, IndexOf;
      ghost var s := View();
      labels := [];
      Nowhere(cfg, s, false);
      if Quiet(cfg, s) {
        QuietConfig(cfg, s);
        QuietIsStopped(cfg, s);
      }
      var sealed := memtables.Freeze();
      if sealed.Err? {
        return Err(WriteStalled(sealed.error)), labels;
      }
      if sealed.value.None? {
        return Ok(NothingFlushed), labels;
      }
      ghost var rows;
      r, rows := FlushFrozen(sealed.value.value, crash, s);
      labels := FlushSteps(s, rows, publisher(rows), crash);
      AnswerMeans(cfg, s, rows, publisher(rows), crash);
      FlushConclusions(cfg, s, rows, publisher, crash);
    }

    /** The flush of a table just frozen, `s` being the state before the freeze. */
    method FlushFrozen(frozen: Memtable, crash: Option<CrashAt>, ghost s: State)
      returns (r: Result<Flushed, EngineError>, ghost rows: seq<Record>)
      requires Valid() && View() == Frozen(s) && AtRest(s)
      requires memtables.frozen != [] && frozen == memtables.frozen[|memtables.frozen| - 1]
      modifies this`lake, this`index, this`staging, wal, memtables`frozen
      ensures Valid() && r == FlushAnswer(s, crash)
      ensures IsScan(rows, s.tables.active.entries) && View() == FlushOutcome(s, rows, publisher(rows), crash)
      ensures r.Ok? && r.value.Committed? && ExactMax(s.tables.active) ==>
                PublishedWatermark(lake) == r.value.watermark == s.tables.active.maxLsn
    {
      hide IsScan, PublishedWatermark, BloomsValid, WellFormed, IndexOf, WalLog.Truncated, Unlinks, Publishes;
      rows := ScanExists(s.tables.active.entries);
      if crash == Some(BeforeWrite) {
        return Ok(NothingFlushed), rows;
      }
      var published := PublishedWatermark(lake);
      match PlanFor(published, frozen.View())
      case Empty =>
        RetireLast(frozen);
        return Ok(NothingFlushed), rows;
      case AlreadyPublished(w) =>
        var ok := TruncateWal(w);
        if !ok {
          return Err(Io), rows;
        }
        RetireLast(frozen);
        return Ok(AlreadyInLake(w)), rows;
      case Write(w) =>
        r, rows := WriteOut(frozen, w, crash, s);
    }

    /** Stage, publish, refresh the index, truncate the log, retire: in that order. */
    method WriteOut(frozen: Memtable, w: nat, crash: Option<CrashAt>, ghost s: State)
      returns (r: Result<Flushed, EngineError>, ghost rows: seq<Record>)
      requires Valid() && View() == Frozen(s) && AtRest(s)
      requires memtables.frozen != [] && frozen == memtables.frozen[|memtables.frozen| - 1]
      requires FlushPlan(s) == Write(w) && crash != Some(BeforeWrite)
      modifies this`lake, this`index, this`staging, wal, memtables`frozen
      ensures Valid() && r == FlushAnswer(s, crash)
      ensures IsScan(rows, s.tables.active.entries) && View() == FlushOutcome(s, rows, publisher(rows), crash)
      ensures r.Ok? && r.value.Committed? && ExactMax(s.tables.active) ==>
                PublishedWatermark(lake) == r.value.watermark == s.tables.active.maxLsn
    {
      hide IsScan, PublishedWatermark, BloomsValid, WellFormed, IndexOf, WalLog.Truncated, Publishes, ExactMax,
        Unlinks, CommitOutcome, TruncateOutcome, RetireOutcome, Finished;
      var staged := frozen.Iter();
      rows := staged;
      staging := staging[w := staged];
      if crash == Some(AfterWrite) {
        return Ok(NothingFlushed), rows;
      }
      PublishStaged(staged, w, s);
      if crash == Some(AfterCommit) {
        return Ok(Committed(w, 1)), rows;
      }
      CommitThenFinish(s, w, rows, publisher(rows));
      r := TruncateAndRetire(frozen, w, crash);
    }

    method PublishStaged(staged: seq<Record>, w: nat, ghost s: State)
      requires Valid() && AtRest(s) && View() == StageOutcome(s, w, staged)
      requires IsScan(staged, s.tables.active.entries) && FlushPlan(s) == Write(w)
      modifies this`lake, this`index
      ensures Valid() && View() == CommitOutcome(s, w, staged, publisher(staged))
      ensures ExactMax(s.tables.active) ==> PublishedWatermark(lake) == w
    {
      hide IsScan, PublishedWatermark, BloomsValid, WellFormed, IndexOf, Publishes, ExactMax;
      PublishedFile(lake, publisher, staged, s.tables.active);
      lake := lake + [publisher(staged)];
      PublishIndex();
    }

    method TruncateAndRetire(frozen: Memtable, w: nat, crash: Option<CrashAt>) returns (r: Result<Flushed, EngineError>)
      requires Valid() && memtables.frozen != [] && frozen == memtables.frozen[|memtables.frozen| - 1]
      modifies this`staging, wal, memtables`frozen
      ensures Valid() && r == if Unlinks(old(wal.View()), w) then Ok(Committed(w, 1)) else Err(Io)
      ensures View() == if crash.None? && Unlinks(old(wal.View()), w) then Finished(old(View()), w)
                        else old(View()).(wal := WalLog.Truncated(old(wal.View()), w))
    {
      hide BloomsValid, WellFormed, IndexOf, WalLog.Truncated, Unlinks, Publishes;
      var ok := TruncateWal(w);
      if !ok {
        return Err(Io);
      }
      if crash.Some? {
        return Ok(Committed(w, 1));
      }
      RetireLast(frozen);
      staging := staging - {w};
      r := Ok(Committed(w, 1));
    }

    method TruncateWal(watermark: nat) returns (ok: bool)
      requires Valid()
      modifies wal
      ensures Valid() && ok == Unlinks(old(wal.View()), watermark)
      ensures View() == old(View()).(wal := WalLog.Truncated(old(wal.View()), watermark))
    {
      hide BloomsValid, WellFormed, WalLog.Truncated, Covered, Unlinked, Publishes;
      ok := wal.TruncateThrough(watermark);
    }

    method RetireLast(frozen: Memtable)
      requires Valid() && memtables.frozen != [] && frozen == memtables.frozen[|memtables.frozen| - 1]
      modifies memtables`frozen
      ensures Valid()
      ensures View() == old(View()).(tables := Tables(old(memtables.active.View()),
                                                      old(View()).tables.frozen[..|old(memtables.frozen)| - 1]))
    {
      ghost var before := memtables.frozen;
      WithoutAt(before, |before| - 1);
      memtables.Retire(frozen);
    }
  }

  lemma Replayed(records: seq<Record>, i: nat)
    requires i <= |records|
    ensures i == 0 ==> InsertedAll(EmptyTable, records[..i]) == EmptyTable
    ensures i > 0 ==> InsertedAll(EmptyTable, records[..i]) == Inserted(InsertedAll(EmptyTable, records[..i - 1]), records[i - 1])
  {
    if i > 0 {
      assert records[..i][..i - 1] == records[..i - 1];
    }
  }
}
