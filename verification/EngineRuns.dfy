/** What each engine call does, as a run of protocol steps. */
module EngineRuns {
  import opened Bytes
  import opened Records
  import opened Frames
  import opened WalLog
  import opened WalContents
  import opened Memtables
  import opened Lake
  import opened Flushes
  import opened Protocol
  import opened ProtocolInvariant
  import opened ProtocolSteps
  import opened ProtocolRecovery
  import opened Guarantees

  /** Where an injected crash stops a flush. */
  datatype CrashAt = BeforeWrite | AfterWrite | AfterCommit | AfterTruncate

  // ---- Runs compose -----------------------------------------------------------------------------------

  lemma ReachableRun(c: Config, s: State, labels: seq<Label>, t: State)
    requires Reachable(c, s) && RunFrom(c, s, labels, true) == Some(t)
    ensures Reachable(c, t)
  {
    hide RunFrom;
    var before :| RunFrom(c, Init, before, true) == Some(s);
    RunConcat(c, Init, before, s, labels, true);
    assert RunFrom(c, Init, before + labels, true) == Some(t);
  }

  // ---- A write ------------------------------------------------------------------------------------------

  /** Between calls: no write in flight, no flush half done. */
  predicate AtRest(s: State) {
    s.pending == {} && s.logged == {} && s.flush.Idle?
  }

  function WriteSteps(rec: Record): seq<Label> {
    [Begin(rec.key, rec.op, rec.value)] + [Log(rec)] + [Insert(rec)]
  }

  function AfterWriting(c: Config, s: State, rec: Record): State {
    s.(nextLsn := s.nextLsn + 1, wal := Appended(s.wal, [rec], c.segmentMaxBytes),
       tables := s.tables.(active := Inserted(s.tables.active, rec)), history := s.history + {rec})
  }

  /** What the code leaves to luck when a write goes through. */
  predicate WriteGuard(c: Config, s: State, rec: Record) {
    rec.lsn < U64 / 2 && Encodable(rec) && FreshName(s.wal, [rec], c.segmentMaxBytes)
  }

  lemma WriteIsARun(c: Config, s: State, rec: Record, guarded: bool)
    requires AtRest(s) && rec == MakeRecord(rec.key, s.nextLsn, rec.op, rec.value)
    requires guarded ==> WriteGuard(c, s, rec)
    ensures RunFrom(c, s, WriteSteps(rec), guarded) == Some(AfterWriting(c, s, rec))
  {
    hide RunFrom, Appended, Encodable, FreshName;
    Nowhere(c, s, guarded);
    var begin := Begin(rec.key, rec.op, rec.value);
    Extend(c, s, [], s, begin, guarded);
    assert [] + [begin] == [begin];
    var s1 := Took(s, rec);
    Extend(c, s, [begin], s1, Log(rec), guarded);
    var s2 := Logged(c, s1, rec);
    assert s2.pending == {};
    Extend(c, s, [begin] + [Log(rec)], s2, Insert(rec), guarded);
    assert Acknowledged(s2, rec).logged == {};
    assert AfterWriting(c, s, rec) == Acknowledged(s2, rec);
  }

  // ---- A flush ------------------------------------------------------------------------------------------

  /** Whether truncating the log through `w` finds every file it unlinks. */
  predicate Unlinks(wal: WalState, w: nat) {
    Unlinked(wal.disk, Covered(wal.sealed, w)).1
  }

  function FlushPlan(s: State): Plan {
    PlanFor(PublishedWatermark(s.lake), s.tables.active)
  }

  /** The steps one flush of the active table takes; `Abandon` where it returns early. */
  function FlushSteps(s: State, rows: seq<Record>, file: File, crash: Option<CrashAt>): seq<Label> {
    if crash == Some(BeforeWrite) then [Freeze]
    else
      var planned := [Freeze] + [PlanFlush(|s.tables.frozen|)];
      match FlushPlan(s)
      case Empty => planned
      case AlreadyPublished(w) => planned + [Truncate] + [if Unlinks(s.wal, w) then Retire else Abandon]
      case Write(w) =>
        var staged := planned + [StageRows(rows)];
        if crash == Some(AfterWrite) then staged + [Abandon]
        else
          var indexed := staged + [Publish(file)] + [Reindex];
          if crash == Some(AfterCommit) then indexed + [Abandon]
          else indexed + [Truncate] + [if crash.None? && Unlinks(s.wal, w) then Retire else Abandon]
  }

  function SkipOutcome(s: State, w: nat): State {
    var t := Frozen(s).(wal := WalLog.Truncated(s.wal, w));
    if Unlinks(s.wal, w) then t.(tables := Tables(EmptyTable, s.tables.frozen)) else t
  }

  function StageOutcome(s: State, w: nat, rows: seq<Record>): State {
    Frozen(s).(staging := s.staging[w := rows])
  }

  function CommitOutcome(s: State, w: nat, rows: seq<Record>, file: File): State {
    StageOutcome(s, w, rows).(lake := s.lake + [file], index := IndexOf(s.lake + [file]))
  }

  function TruncateOutcome(s: State, w: nat, rows: seq<Record>, file: File): State {
    CommitOutcome(s, w, rows, file).(wal := WalLog.Truncated(s.wal, w))
  }

  function RetireOutcome(s: State, w: nat, rows: seq<Record>, file: File): State {
    TruncateOutcome(s, w, rows, file).(tables := Tables(EmptyTable, s.tables.frozen), staging := s.staging[w := rows] - {w})
  }

  /** The state one flush leaves. */
  function FlushOutcome(s: State, rows: seq<Record>, file: File, crash: Option<CrashAt>): State {
    if crash == Some(BeforeWrite) then Frozen(s)
    else match FlushPlan(s)
         case Empty => Frozen(s).(tables := Tables(EmptyTable, s.tables.frozen))
         case AlreadyPublished(w) => SkipOutcome(s, w)
         case Write(w) =>
           if crash == Some(AfterWrite) then StageOutcome(s, w, rows)
           else if crash == Some(AfterCommit) then CommitOutcome(s, w, rows, file)
           else if crash.None? && Unlinks(s.wal, w) then RetireOutcome(s, w, rows, file)
           else TruncateOutcome(s, w, rows, file)
  }

  /** A table is queued, and the queue had room. */
  predicate CanFlush(c: Config, s: State) {
    |s.tables.frozen| < c.maxFrozen && s.tables.active.entries != map[]
  }

  /** The flush starts from an empty queue and a fresh index. */
  predicate FlushGuard(s: State) {
    s.tables.frozen == [] && s.index == IndexOf(s.lake)
  }

  lemma LastDropped(frozen: seq<Table>, t: Table)
    ensures Dropped(frozen + [t], |frozen|) == frozen
  {
  }

  lemma FreezeRuns(c: Config, s: State, guarded: bool)
    requires AtRest(s) && CanFlush(c, s)
    ensures RunFrom(c, s, [Freeze], guarded) == Some(Frozen(s))
  {
    hide RunFrom;
    Nowhere(c, s, guarded);
    Extend(c, s, [], s, Freeze, guarded);
    assert [] + [Freeze] == [Freeze];
  }

  lemma PlanRuns(c: Config, s: State, guarded: bool)
    requires AtRest(s) && CanFlush(c, s) && (guarded ==> FlushGuard(s))
    ensures RunFrom(c, s, [Freeze] + [PlanFlush(|s.tables.frozen|)], guarded) == Some(AfterPlan(Frozen(s), |s.tables.frozen|))
  {
    hide RunFrom, IndexOf, PublishedWatermark;
    FreezeRuns(c, s, guarded);
    Extend(c, s, [Freeze], Frozen(s), PlanFlush(|s.tables.frozen|), guarded);
  }

  lemma SkipRuns(c: Config, s: State, w: nat, guarded: bool)
    requires AtRest(s) && CanFlush(c, s) && FlushPlan(s) == AlreadyPublished(w) && (guarded ==> FlushGuard(s))
    ensures RunFrom(c, s, [Freeze] + [PlanFlush(|s.tables.frozen|)] + [Truncate] + [if Unlinks(s.wal, w) then Retire else Abandon], guarded)
            == Some(SkipOutcome(s, w))
  {
    hide RunFrom, IndexOf, PublishedWatermark, WalLog.Truncated, Unlinks;
    PlanRuns(c, s, guarded);
    var at, labels := |s.tables.frozen|, [Freeze] + [PlanFlush(|s.tables.frozen|)];
    var p := Frozen(s).(flush := Indexed(at, w, false));
    Extend(c, s, labels, p, Truncate, guarded);
    var g := LogTruncated(p, at, w, false);
    LastDropped(s.tables.frozen, s.tables.active);
    Extend(c, s, labels + [Truncate], g, if Unlinks(s.wal, w) then Retire else Abandon, guarded);
  }

  lemma StageRuns(c: Config, s: State, w: nat, rows: seq<Record>, guarded: bool)
    requires AtRest(s) && CanFlush(c, s) && FlushPlan(s) == Write(w) && (guarded ==> FlushGuard(s))
    requires IsScan(rows, s.tables.active.entries)
    ensures RunFrom(c, s, [Freeze] + [PlanFlush(|s.tables.frozen|)] + [StageRows(rows)], guarded)
            == Some(StageOutcome(s, w, rows).(flush := Staged(|s.tables.frozen|, w)))
  {
    hide RunFrom, IndexOf, PublishedWatermark, IsScan;
    PlanRuns(c, s, guarded);
    var at := |s.tables.frozen|;
    Extend(c, s, [Freeze] + [PlanFlush(at)], Frozen(s).(flush := Planned(at, w)), StageRows(rows), guarded);
  }

  lemma IndexRuns(c: Config, s: State, w: nat, rows: seq<Record>, file: File, guarded: bool)
    requires AtRest(s) && CanFlush(c, s) && FlushPlan(s) == Write(w) && (guarded ==> FlushGuard(s))
    requires IsScan(rows, s.tables.active.entries) && WellFormed(file) && AllRows(file.groups) == rows
    ensures RunFrom(c, s, [Freeze] + [PlanFlush(|s.tables.frozen|)] + [StageRows(rows)] + [Publish(file)] + [Reindex], guarded)
            == Some(CommitOutcome(s, w, rows, file).(flush := Indexed(|s.tables.frozen|, w, true)))
  {
    hide RunFrom, IndexOf, PublishedWatermark, IsScan, WellFormed, AllRows;
    StageRuns(c, s, w, rows, guarded);
    var at, labels := |s.tables.frozen|, [Freeze] + [PlanFlush(|s.tables.frozen|)] + [StageRows(rows)];
    var g := StageOutcome(s, w, rows).(flush := Staged(at, w));
    Extend(c, s, labels, g, Publish(file), guarded);
    Extend(c, s, labels + [Publish(file)], FilePublished(g, at, w, file), Reindex, guarded);
  }

  lemma TruncateRuns(c: Config, s: State, w: nat, rows: seq<Record>, file: File, retire: bool, guarded: bool)
    requires AtRest(s) && CanFlush(c, s) && FlushPlan(s) == Write(w) && (guarded ==> FlushGuard(s))
    requires IsScan(rows, s.tables.active.entries) && WellFormed(file) && AllRows(file.groups) == rows
    ensures RunFrom(c, s, [Freeze] + [PlanFlush(|s.tables.frozen|)] + [StageRows(rows)] + [Publish(file)] + [Reindex]
                          + [Truncate] + [if retire then Retire else Abandon], guarded)
            == Some(if retire then RetireOutcome(s, w, rows, file) else TruncateOutcome(s, w, rows, file))
  {
    hide RunFrom, IndexOf, PublishedWatermark, IsScan, WellFormed, AllRows, WalLog.Truncated;
    IndexRuns(c, s, w, rows, file, guarded);
    var at := |s.tables.frozen|;
    var labels := [Freeze] + [PlanFlush(at)] + [StageRows(rows)] + [Publish(file)] + [Reindex];
    var i := CommitOutcome(s, w, rows, file).(flush := Indexed(at, w, true));
    Extend(c, s, labels, i, Truncate, guarded);
    var g := LogTruncated(i, at, w, true);
    LastDropped(s.tables.frozen, s.tables.active);
    Extend(c, s, labels + [Truncate], g, if retire then Retire else Abandon, guarded);
  }

  /** One flush, wherever it stops, is a run of protocol steps; from an empty queue and a fresh
      index it is a guarded one. */
  lemma FlushIsARun(c: Config, s: State, rows: seq<Record>, file: File, crash: Option<CrashAt>, guarded: bool)
    requires AtRest(s) && CanFlush(c, s) && (guarded ==> FlushGuard(s))
    requires IsScan(rows, s.tables.active.entries) && WellFormed(file) && AllRows(file.groups) == rows
    ensures RunFrom(c, s, FlushSteps(s, rows, file, crash), guarded) == Some(FlushOutcome(s, rows, file, crash))
  {
    hide RunFrom, IndexOf, PublishedWatermark, IsScan, WellFormed, AllRows, Unlinks, CanFlush, FlushGuard,
      SkipOutcome, TruncateOutcome, RetireOutcome;
    if crash == Some(BeforeWrite) {
      FreezeRuns(c, s, guarded);
    } else {
      PlanRuns(c, s, guarded);
      match FlushPlan(s)
      case Empty => LastDropped(s.tables.frozen, s.tables.active);
      case AlreadyPublished(w) => SkipRuns(c, s, w, guarded);
      case Write(w) =>
        var at := |s.tables.frozen|;
        var staged := [Freeze] + [PlanFlush(at)] + [StageRows(rows)];
        if crash == Some(AfterWrite) {
          StageRuns(c, s, w, rows, guarded);
          Extend(c, s, staged, StageOutcome(s, w, rows).(flush := Staged(at, w)), Abandon, guarded);
        } else if crash == Some(AfterCommit) {
          IndexRuns(c, s, w, rows, file, guarded);
          Extend(c, s, staged + [Publish(file)] + [Reindex], CommitOutcome(s, w, rows, file).(flush := Indexed(at, w, true)), Abandon, guarded);
        } else {
          TruncateRuns(c, s, w, rows, file, crash.None? && Unlinks(s.wal, w), guarded);
        }
    }
  }

  /** From a reachable state the flush of a table just frozen always publishes it: the branch
      that skips a table already published is never taken. */
  lemma FreshFlushWrites(c: Config, s: State)
    requires Reachable(c, s) && s.tables.active.entries != map[]
    ensures FlushPlan(s) == Write(s.tables.active.maxLsn)
  {
    hide Inv, Reachable, PublishedWatermark;
    ReachableInv(c, s);
    UnpublishedAbove(s);
  }

  /** At rest with an empty queue the index always shows every file. */
  lemma QuietIsFresh(c: Config, s: State)
    requires Reachable(c, s) && s.tables.frozen == []
    ensures FlushGuard(s)
  {
    hide Inv, Reachable, IndexOf, WalInv, DurableInv, LsnsInv, LayersOk, GoodLake, PublishedWatermark;
    ReachableInv(c, s);
    InvParts(s);
  }
}
