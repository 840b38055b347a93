/** The engine driven by one client: what its calls need and keep. */
module EngineSolo {
  import opened Bytes
  import opened Records
  import opened Frames
  import opened WalLog
  import opened WalContents
  import opened Memtables
  import opened Lake
  import opened Flushes
  import opened Protocol
  import opened ProtocolInvariant
  import opened ProtocolSteps
  import opened ProtocolRecovery
  import opened Guarantees
  import opened EngineRuns
  import opened SingleClient

  /** Between the calls of one client. */
  ghost predicate Quiet(c: Config, s: State) {
    SoloInv(s) && AtRest(s) && s.tables.frozen == [] && c.segmentMaxBytes > 0 && c.maxFrozen > 0
  }

  /** Wherever one client's call may have stopped, a flush that returned early included. */
  ghost predicate Stopped(c: Config, s: State) {
    c.segmentMaxBytes > 0 && c.maxFrozen > 0 && exists pc :: SoloInv(s.(flush := pc))
  }

  predicate SizeFits(rec: Record) {
    rec.lsn < U64 / 2 && Encodable(rec)
  }

  lemma StoppedAt(c: Config, s: State, pc: FlushPc)
    requires c.segmentMaxBytes > 0 && c.maxFrozen > 0 && SoloInv(s.(flush := pc))
    ensures Stopped(c, s)
  {
    hide SoloInv;
  }

  lemma QuietIsStopped(c: Config, s: State)
    requires Quiet(c, s)
    ensures Stopped(c, s)
  {
    hide SoloInv;
    assert s.(flush := Idle) == s;
    StoppedAt(c, s, Idle);
  }

  /** A write between calls meets its guard, leaves the engine between calls, and is the map's. */
  lemma QuietWrite(c: Config, s: State, rec: Record)
    requires Quiet(c, s) && rec == MakeRecord(rec.key, s.nextLsn, rec.op, rec.value) && SizeFits(rec)
    ensures WriteGuard(c, s, rec) && Quiet(c, AfterWriting(c, s, rec))
    ensures MapHas(AfterWriting(c, s, rec).history, rec.key, Some(rec))
  {
    hide SoloInv, Appended, Inserted, Encodable, FreshName;
    var begin := Begin(rec.key, rec.op, rec.value);
    SoloStepKeeps(c, s, begin);
    var s1 := Took(s, rec);
    assert InFlight(s1) == {rec};
    SoloStepKeeps(c, s1, Log(rec));
    var s2 := Logged(c, s1, rec);
    SoloStepKeeps(c, s2, Insert(rec));
    assert Acknowledged(s2, rec).logged == {} && s2.pending == {};
    assert AfterWriting(c, s, rec) == Acknowledged(s2, rec);
    NewestIsTop(s, rec);
  }

  lemma NewestIsTop(s: State, rec: Record)
    requires SoloInv(s) && rec.lsn == s.nextLsn
    ensures MapHas(s.history + {rec}, rec.key, Some(rec))
  {
    hide WalInv, LayersOk, DurableInv, TablesInv, LakeInv, FlushInv, Tight, Encodable, PublishedWatermark;
    assert forall r :: r in s.history ==> r in s.history + InFlight(s);
  }

  lemma QuietReadsMap(c: Config, s: State, key: Key)
    requires Quiet(c, s)
    ensures BloomsValid(s.index) && forall o :: MapHas(s.history, key, o) ==> EngineGet(s, key) == MapAnswer(o)
  {
    hide WalInv, LayersOk, Layers, DurableInv, TablesInv, LakeInv, FlushInv, Tight, MapHas, EngineGet,
      BloomsValid, TopRecord, LsnsInv, LsnsUnique;
    ReadsMap(s, key);
    LsnsOfHistory(s);
    forall o | MapHas(s.history, key, o)
      ensures o == TopRecord(Layers(s), key)
    {
      MapHasUnique(s.history, key, o, TopRecord(Layers(s), key));
    }
  }

  // ---- One flush -------------------------------------------------------------------------------------------

  lemma SoloFreeze(c: Config, s: State)
    requires Quiet(c, s) && CanFlush(c, s)
    ensures SoloInv(Frozen(s)) && FlushPlan(s) == Write(s.tables.active.maxLsn)
  {
    hide SoloInv, PublishedWatermark;
    SoloStepKeeps(c, s, Freeze);
    SoloPlan(s);
  }

  lemma SoloPlan(s: State)
    requires SoloInv(s) && s.tables.active.entries != map[]
    ensures FlushPlan(s) == Write(s.tables.active.maxLsn)
  {
    hide Inv, Tight, PublishedWatermark;
    UnpublishedAbove(s);
  }

  lemma SoloStage(c: Config, s: State, w: nat, rows: seq<Record>)
    requires Quiet(c, s) && CanFlush(c, s) && FlushPlan(s) == Write(w) && IsScan(rows, s.tables.active.entries)
    ensures SoloInv(StageOutcome(s, w, rows).(flush := Staged(0, w)))
  {
    hide SoloInv, PublishedWatermark, IsScan;
    SoloFreeze(c, s);
    var f := Frozen(s);
    assert f.tables.frozen == [s.tables.active];
    SoloStepKeeps(c, f, PlanFlush(0));
    SoloStepKeeps(c, f.(flush := Planned(0, w)), StageRows(rows));
  }

  lemma SoloCommit(c: Config, s: State, w: nat, rows: seq<Record>, file: File)
    requires Quiet(c, s) && CanFlush(c, s) && FlushPlan(s) == Write(w) && IsScan(rows, s.tables.active.entries)
    requires WellFormed(file) && AllRows(file.groups) == rows
    ensures SoloInv(CommitOutcome(s, w, rows, file).(flush := Indexed(0, w, true)))
  {
    hide SoloInv, PublishedWatermark, IsScan, IndexOf, WellFormed, AllRows, Quiet, CanFlush, FlushPlan;
    SoloStage(c, s, w, rows);
    assert c.segmentMaxBytes > 0 by { QuietConfig(c, s); }
    var g := StageOutcome(s, w, rows).(flush := Staged(0, w));
    SoloStepKeeps(c, g, Publish(file));
    SoloStepKeeps(c, FilePublished(g, 0, w, file), Reindex);
  }

  lemma QuietConfig(c: Config, s: State)
    requires Quiet(c, s)
    ensures c.segmentMaxBytes > 0 && c.maxFrozen > 0 && s.tables.frozen == [] && AtRest(s)
  {
    hide SoloInv;
  }

  lemma SoloTruncate(c: Config, s: State, w: nat, rows: seq<Record>, file: File)
    requires Quiet(c, s) && CanFlush(c, s) && FlushPlan(s) == Write(w) && IsScan(rows, s.tables.active.entries)
    requires WellFormed(file) && AllRows(file.groups) == rows
    ensures Unlinks(s.wal, w)
    ensures SoloInv(TruncateOutcome(s, w, rows, file).(flush := Truncated(0, w, true)))
    ensures SoloInv(RetireOutcome(s, w, rows, file))
  {
    hide SoloInv, PublishedWatermark, IsScan, IndexOf, WellFormed, AllRows, Quiet, CanFlush, FlushPlan,
      WalLog.Truncated, Unlinks;
    SoloCommit(c, s, w, rows, file);
    QuietConfig(c, s);
    QuietUnlinks(c, s, w);
    var i := CommitOutcome(s, w, rows, file).(flush := Indexed(0, w, true));
    SoloStepKeeps(c, i, Truncate);
    var g := LogTruncated(i, 0, w, true);
    SoloStepKeeps(c, g, Retire);
    LastDropped([], s.tables.active);
    assert RetireOutcome(s, w, rows, file) == Retired(g, 0, w, true);
  }

  /** Truncation finds every file it unlinks. */
  lemma QuietUnlinks(c: Config, s: State, w: nat)
    requires Quiet(c, s)
    ensures Unlinks(s.wal, w)
  {
    hide WalInv, LsnsInv, LayersOk, DurableInv, TablesInv, LakeInv, FlushInv, Tight, Unlinked, Covered;
    TruncatedKeeps(s.wal, w);
  }

  /** A whole flush leaves the engine between calls; one that stops early needs a reopen. */
  lemma QuietFlush(c: Config, s: State, rows: seq<Record>, file: File, crash: Option<CrashAt>)
    requires Quiet(c, s) && CanFlush(c, s) && IsScan(rows, s.tables.active.entries)
    requires WellFormed(file) && AllRows(file.groups) == rows
    ensures FlushPlan(s).Write? && Unlinks(s.wal, FlushPlan(s).watermark)
    ensures crash.None? ==> Quiet(c, FlushOutcome(s, rows, file, crash))
    ensures Stopped(c, FlushOutcome(s, rows, file, crash))
  {
    hide SoloInv, PublishedWatermark, IsScan, IndexOf, WellFormed, AllRows, CanFlush, WalLog.Truncated, Unlinks,
      Stopped;
    SoloFreeze(c, s);
    var w, t := s.tables.active.maxLsn, FlushOutcome(s, rows, file, crash);
    SoloTruncate(c, s, w, rows, file);
    match crash
    case Some(BeforeWrite) => StoppedAt(c, t, Idle);
    case Some(AfterWrite) =>
      SoloStage(c, s, w, rows);
      StoppedAt(c, t, Staged(0, w));
    case Some(AfterCommit) =>
      SoloCommit(c, s, w, rows, file);
      StoppedAt(c, t, Indexed(0, w, true));
    case Some(AfterTruncate) => StoppedAt(c, t, Truncated(0, w, true));
    case None =>
      assert t == RetireOutcome(s, w, rows, file);
      assert t.tables.frozen == [];
      StoppedAt(c, t, Idle);
  }

  /** Opening what one client's process left, mid-append or not, always succeeds, between calls. */
  lemma StoppedReopens(c: Config, s: State, tear: Option<(Record, nat)>)
    requires Stopped(c, s)
    requires tear.Some? ==> tear.value.0 in s.pending && tear.value.1 <= |Encoded([tear.value.0])|
    ensures CanRestart(c, s, tear) && Quiet(c, Reopened(c, s, tear))
    ensures s.history <= Reopened(c, s, tear).history
  {
    hide SoloInv, Open, Bag, IndexOf, InsertedAll, PublishedWatermark, TornAppend, Encoded, TearGuard;
    var pc :| SoloInv(s.(flush := pc));
    var u := s.(flush := pc);
    SoloOpens(c, u, tear);
    SoloStepKeeps(c, u, Restart(tear));
    assert Reopened(c, s, tear) == Reopened(c, u, tear);
  }

  lemma SoloOpens(c: Config, u: State, tear: Option<(Record, nat)>)
    requires SoloInv(u) && c.segmentMaxBytes > 0
    requires tear.Some? ==> tear.value.0 in u.pending && tear.value.1 <= |Encoded([tear.value.0])|
    ensures CanRestart(c, u, tear)
  {
    hide Inv, Open, Bag, PublishedWatermark, TornAppend, Encoded, FreshName, NamesFit, Encodable, CanRestart,
      LsnsInv, WalInv, LayersOk, DurableInv, GoodLake, LakeInv;
    InvParts(u);
    PendingEncodable(u);
    if tear.Some? {
      TightNames(Base(u), u.wal, tear.value.0, c.segmentMaxBytes);
    }
    OpenSucceeds(c, u, tear);
  }
}
