/** Two flushes overlap: the newer table is published and retired while an older one waits. The
    code serialises nothing here, and the older flush then finds its table at or below the
    published watermark and drops it as already published. */
module OvertakeLimits {
  import opened Bytes
  import opened Records
  import opened Frames
  import opened WalLog
  import opened WalContents
  import opened Memtables
  import opened Lake
  import opened Flushes
  import opened Protocol
  import opened ProtocolInvariant
  import opened ProtocolSteps
  import opened ProtocolRecovery
  import opened Guarantees
  import opened Limits
  import opened FlushLimits
  import opened OrderLimits
  import opened EngineRuns

  // ---- The run ------------------------------------------------------------------------------------------

  function OvertakeSteps(at: nat, rows: seq<Record>, file: File): seq<Label> {
    [PlanFlush(at)] + [StageRows(rows)] + [Publish(file)] + [Reindex] + [Truncate] + [Retire]
  }

  /** After the whole flush of table `at`, older tables still waiting. */
  function Overtaken(s: State, at: nat, rows: seq<Record>, file: File): State
    requires at < |s.tables.frozen|
  {
    var w := s.tables.frozen[at].maxLsn;
    s.(wal := WalLog.Truncated(s.wal, w), lake := s.lake + [file], index := IndexOf(s.lake + [file]),
       tables := s.tables.(frozen := Dropped(s.tables.frozen, at)), staging := s.staging[w := rows] - {w})
  }

  /** The waiting flushes resume, oldest first, and each finds its table already published. */
  function SkipSteps(n: nat): seq<Label> {
    if n == 0 then [] else SkipSteps(n - 1) + [PlanFlush(0)] + [Truncate] + [Retire]
  }

  function Skipped(u: State, n: nat): (v: State)
    requires n <= |u.tables.frozen|
    ensures v == u.(wal := v.wal, tables := Tables(u.tables.active, u.tables.frozen[n..]))
  {
    if n == 0 then u
    else
      var v := Skipped(u, n - 1);
      v.(wal := WalLog.Truncated(v.wal, u.tables.frozen[n - 1].maxLsn), tables := Tables(u.tables.active, u.tables.frozen[n..]))
  }

  /** The oldest `n` tables are at or below the published watermark. */
  predicate Passed(u: State, n: nat)
    requires n <= |u.tables.frozen|
  {
    forall j :: 0 <= j < n ==>
      u.tables.frozen[j].entries != map[] && u.tables.frozen[j].maxLsn <= PublishedWatermark(u.lake)
  }

  lemma OvertakeRuns(c: Config, s: State, at: nat, rows: seq<Record>, file: File)
    requires Setting(s, at, rows, file)
    ensures RunFrom(c, s, OvertakeSteps(at, rows, file), false) == Some(Overtaken(s, at, rows, file))
  {
    hide RunFrom, Inv, PublishedWatermark, WellFormed, IsScan, IndexOf, AllRows, WalLog.Truncated;
    PlanAhead(s, at, rows, file);
    Nowhere(c, s, false);
    var w := s.tables.frozen[at].maxLsn;
    Extend(c, s, [], s, PlanFlush(at), false);
    assert [] + [PlanFlush(at)] == [PlanFlush(at)];
    var s1 := s.(flush := Planned(at, w));
    Extend(c, s, [PlanFlush(at)], s1, StageRows(rows), false);
    var s2 := RowsStaged(s1, at, w, rows);
    var l2 := [PlanFlush(at)] + [StageRows(rows)];
    Extend(c, s, l2, s2, Publish(file), false);
    var s3 := FilePublished(s2, at, w, file);
    Extend(c, s, l2 + [Publish(file)], s3, Reindex, false);
    var s4 := s3.(index := IndexOf(s3.lake), flush := Indexed(at, w, true));
    Extend(c, s, l2 + [Publish(file)] + [Reindex], s4, Truncate, false);
    var s5 := LogTruncated(s4, at, w, true);
    Extend(c, s, l2 + [Publish(file)] + [Reindex] + [Truncate], s5, Retire, false);
  }

  lemma PlanAhead(s: State, at: nat, rows: seq<Record>, file: File)
    requires Setting(s, at, rows, file)
    ensures PlanFor(PublishedWatermark(s.lake), s.tables.frozen[at]) == Write(s.tables.frozen[at].maxLsn)
  {
    hide WalInv, DurableInv, LakeInv, LsnsInv, LayersOk, PublishedWatermark, WellFormed, IsScan, ExactMax;
    UnpublishedAbove(s);
  }

  lemma {:induction false} SkipsRun(c: Config, u: State, n: nat)
    requires u.flush.Idle? && n <= |u.tables.frozen| && Passed(u, n)
    ensures RunFrom(c, u, SkipSteps(n), false) == Some(Skipped(u, n))
  {
    hide RunFrom, PublishedWatermark, WalLog.Truncated;
    if n == 0 {
      Nowhere(c, u, false);
    } else {
      SkipsRun(c, u, n - 1);
      var v, labels, w := Skipped(u, n - 1), SkipSteps(n - 1), u.tables.frozen[n - 1].maxLsn;
      assert v.tables.frozen[0] == u.tables.frozen[n - 1];
      Extend(c, u, labels, v, PlanFlush(0), false);
      var p := v.(flush := Indexed(0, w, false));
      Extend(c, u, labels + [PlanFlush(0)], p, Truncate, false);
      var g := LogTruncated(p, 0, w, false);
      Extend(c, u, labels + [PlanFlush(0)] + [Truncate], g, Retire, false);
      assert Dropped(v.tables.frozen, 0) == u.tables.frozen[n..];
    }
  }

  // ---- What reads see -------------------------------------------------------------------------------------

  /** The older tables still waiting once the oldest `n` have been dropped. */
  function Waiting(s: State, at: nat, n: nat): seq<Layer>
    requires n <= at < |s.tables.frozen|
  {
    EntriesOf(s.tables.frozen[n..at])
  }

  /** The key was written again above the published table; or it is in the published table, and
      no waiting table hides it there; or it is in neither, and was not dropped with a table. */
  ghost predicate Unharmed(s: State, at: nat, n: nat, k: Key)
    requires First(s) <= at < |s.tables.frozen| && n <= at
  {
    || HeldAbove(Newer(s, at), k)
    || if k in s.tables.frozen[at].entries then !HeldAbove(Waiting(s, at, n), k)
       else HeldAbove(JumpedOver(s, at), k) ==> HeldAbove(Waiting(s, at, n), k)
  }

  lemma OvertakenView(s: State, at: nat, rows: seq<Record>, file: File, n: nat)
    requires Setting(s, at, rows, file) && n <= at
    ensures n <= |Overtaken(s, at, rows, file).tables.frozen|
    ensures Visible(Skipped(Overtaken(s, at, rows, file), n))
            == Contents(s.lake) + [s.tables.frozen[at].entries] + (Waiting(s, at, n) + Newer(s, at))
  {
    hide Inv, IndexOf, WalLog.Truncated, PublishedWatermark, GoodLake, Content, Skipped, WellFormed, IsScan,
      AllRows;
    AheadLake(s, at, rows, file);
    ReversedIndex(s.lake + [file]);
    var f := s.tables.frozen;
    assert Dropped(f, at)[n..] == f[n..at] + f[at + 1..];
    EntriesConcat(f[n..at], f[at + 1..]);
  }

  lemma EntriesConcat(a: seq<Table>, b: seq<Table>)
    ensures EntriesOf(a + b) == EntriesOf(a) + EntriesOf(b)
  {
  }

  /** A waiting table is a layer below the published one. */
  lemma WaitingIsBelow(s: State, at: nat, n: nat, i: nat)
    requires Inv(s) && First(s) <= at < |s.tables.frozen| && n <= at && i < |Waiting(s, at, n)|
    ensures Below(Waiting(s, at, n)[i], s.tables.frozen[at].entries)
  {
    hide WalInv, LsnsInv, DurableInv, TablesInv, FlushInv, Sound, Represented, FlyAbove, Content,
      PublishedWatermark, GoodLake, IndexOf, Layers, Separated;
    LayersAround(s, at);
    LakeCount(s);
    var j, first, x := n + i, First(s), |s.lake| + |JumpedOver(s, at)|;
    assert Layers(s)[x] == s.tables.frozen[at].entries;
    if j >= first {
      assert JumpedOver(s, at)[j - first] == Waiting(s, at, n)[i];
      assert Layers(s)[|s.lake| + j - first] == Waiting(s, at, n)[i];
      SeparatedPair(Layers(s), |s.lake| + j - first, x);
    } else {
      assert Layers(s)[|s.lake| - 1] == Waiting(s, at, n)[i];
      SeparatedPair(Layers(s), |s.lake| - 1, x);
    }
  }

  lemma WaitingIsOlder(s: State, at: nat, n: nat, k: Key)
    requires Inv(s) && First(s) <= at < |s.tables.frozen| && n <= at
    requires k in s.tables.frozen[at].entries
    ensures TopRecord(Waiting(s, at, n), k) != Some(RecordAt(k, s.tables.frozen[at].entries[k]))
  {
    hide Inv, Top, Waiting, Layers;
    TopAt(Waiting(s, at, n), k);
    if Top(Waiting(s, at, n), k).Some? {
      var j :| TopIs(Waiting(s, at, n), k, j, Top(Waiting(s, at, n), k).value);
      WaitingIsBelow(s, at, n, j);
      BelowEntries(Waiting(s, at, n)[j], s.tables.frozen[at].entries, k);
    }
  }

  /** The waiting tables are the jumped-over ones less those dropped, or those with the oldest
      published one under them. */
  lemma WaitingTop(s: State, at: nat, n: nat, k: Key)
    requires LakeInv(s) && First(s) <= at < |s.tables.frozen| && n <= at && HeldAbove(Waiting(s, at, n), k)
    ensures Top(Waiting(s, at, n), k)
            == if HeldAbove(JumpedOver(s, at), k) then Top(JumpedOver(s, at), k) else Top(Contents(s.lake), k)
  {
    hide Top, HeldAbove, Content, PublishedWatermark, GoodLake, IndexOf;
    var f, first := s.tables.frozen, First(s);
    HeldIsTop(Waiting(s, at, n), k);
    HeldIsTop(JumpedOver(s, at), k);
    if first <= n {
      assert f[first..at] == f[first..n] + f[n..at];
      EntriesConcat(f[first..n], f[n..at]);
      TopConcat(EntriesOf(f[first..n]), Waiting(s, at, n), k);
    } else {
      assert f[0..at] == [f[0]] + f[1..at];
      EntriesConcat([f[0]], f[1..at]);
      var x0 := f[0].entries;
      assert EntriesOf([f[0]]) == [x0];
      TopConcat([x0], JumpedOver(s, at), k);
      TopOfSingle(x0, k);
      var older := s.lake[..|s.lake| - 1];
      assert Contents(s.lake) == Contents(older) + [x0];
      TopConcat(Contents(older), [x0], k);
    }
  }

  /** Reads of one key agree with the map exactly when it is unharmed. */
  lemma KeyIsExact(s: State, at: nat, n: nat, k: Key)
    requires Inv(s) && First(s) <= at < |s.tables.frozen| && n <= at
    ensures var seen := Contents(s.lake) + [s.tables.frozen[at].entries] + (Waiting(s, at, n) + Newer(s, at));
            TopRecord(seen, k) == TopRecord(Layers(s), k) <==> Unharmed(s, at, n, k)
  {
    hide Inv, Layers, Top, HeldAbove, Waiting, JumpedOver, Newer, Contents, PublishedWatermark;
    var lake, x, waiting, newer, jumped := Contents(s.lake), s.tables.frozen[at].entries, Waiting(s, at, n),
      Newer(s, at), JumpedOver(s, at);
    InvParts(s);
    LayersAround(s, at);
    HeldIsTop(newer, k);
    HeldIsTop(waiting, k);
    HeldIsTop(jumped, k);
    TopConcat(lake + [x], waiting + newer, k);
    TopConcat(waiting, newer, k);
    TopConcat(lake, [x], k);
    TopOfSingle(x, k);
    TopConcat(lake + jumped, [x] + newer, k);
    TopConcat([x], newer, k);
    TopConcat(lake, jumped, k);
    if !HeldAbove(newer, k) {
      if k in x {
        WaitingIsOlder(s, at, n, k);
      } else if HeldAbove(waiting, k) {
        WaitingTop(s, at, n, k);
      } else if HeldAbove(jumped, k) {
        JumpedIsAboveLake(s, at, k);
      }
    }
  }

  lemma JumpedIsAboveLake(s: State, at: nat, k: Key)
    requires Inv(s) && First(s) <= at < |s.tables.frozen| && HeldAbove(JumpedOver(s, at), k)
    ensures Top(JumpedOver(s, at), k).Some? && Top(Contents(s.lake), k) != Top(JumpedOver(s, at), k)
  {
    hide Inv, Layers, Top, HeldAbove, JumpedOver, Contents, PublishedWatermark, GoodLake;
    InvParts(s);
    HeldIsTop(JumpedOver(s, at), k);
    TopAt(JumpedOver(s, at), k);
    var e := Top(JumpedOver(s, at), k).value;
    var j :| TopIs(JumpedOver(s, at), k, j, e);
    JumpedAboveLake(s, at, j, k);
    LakeTopIsLow(s.lake, k, RecordAt(k, e));
  }

  // ---- The exact condition ----------------------------------------------------------------------------------

  lemma OvertakenIsPassed(s: State, at: nat, rows: seq<Record>, file: File, n: nat)
    requires Setting(s, at, rows, file) && n <= at
    ensures n <= |Overtaken(s, at, rows, file).tables.frozen| && Passed(Overtaken(s, at, rows, file), n)
  {
    hide WalInv, LsnsInv, DurableInv, LayersOk, FlushInv, LakeInv, Content, PublishedWatermark, GoodLake, IndexOf,
      Layers, WellFormed, IsScan, WalLog.Truncated;
    AheadLake(s, at, rows, file);
    WatermarkBetween(s, at);
    forall j | 0 <= j < n
      ensures s.tables.frozen[j].entries != map[] && s.tables.frozen[j].maxLsn <= s.tables.frozen[at].maxLsn
    {
      var t := s.tables.frozen[j];
      var m :| m in t.entries && t.entries[m].lsn == t.maxLsn;
      if j >= First(s) {
        assert JumpedOver(s, at)[j - First(s)] == t.entries;
      }
    }
  }

  /** A newer frozen table is flushed whole while older ones wait, and then the oldest `n` of
      those are flushed, with no crash anywhere. Reads answer the acknowledged map exactly when
      every key is unharmed. Once every waiting flush has resumed that is: when each key jumped
      over was written again in the published table or above it. */
  lemma OvertakenFlushIsExact(c: Config, s: State, at: nat, rows: seq<Record>, file: File, n: nat)
    requires Reachable(c, s) && s.flush.Idle? && First(s) <= at < |s.tables.frozen| && n <= at
    requires IsScan(rows, s.tables.frozen[at].entries) && WellFormed(file) && AllRows(file.groups) == rows
    ensures n <= |Overtaken(s, at, rows, file).tables.frozen|
    ensures var z := Skipped(Overtaken(s, at, rows, file), n);
            && RunFrom(c, s, OvertakeSteps(at, rows, file) + SkipSteps(n), false) == Some(z)
            && z.history == s.history
            && (Faithful(z) <==> forall k :: Unharmed(s, at, n, k))
    ensures Faithful(Skipped(Overtaken(s, at, rows, file), at)) <==>
              forall k :: HeldAbove(JumpedOver(s, at), k) ==> k in s.tables.frozen[at].entries || HeldAbove(Newer(s, at), k)
  {
    hide Reachable, Inv, RunFrom, Overtaken, Skipped, OvertakeSteps, Faithful, Unharmed, PublishedWatermark,
      Setting, WellFormed, AllRows, IsScan, JumpedOver, Newer, HeldAbove, Passed;
    ReachableInv(c, s);
    assert Setting(s, at, rows, file) by { SettingHolds(s, at, rows, file); }
    OvertakeRuns(c, s, at, rows, file);
    OvertakenIsPassed(s, at, rows, file, n);
    OvertakenIsPassed(s, at, rows, file, at);
    var u := Overtaken(s, at, rows, file);
    OvertakenFields(s, at, rows, file);
    SkipsRun(c, u, n);
    RunConcat(c, s, OvertakeSteps(at, rows, file), u, SkipSteps(n), false);
    FaithfulIsUnharmed(s, at, rows, file, n);
    FaithfulIsUnharmed(s, at, rows, file, at);
    AllResumed(s, at);
  }

  lemma SettingHolds(s: State, at: nat, rows: seq<Record>, file: File)
    requires Inv(s) && s.flush.Idle? && First(s) <= at < |s.tables.frozen|
    requires IsScan(rows, s.tables.frozen[at].entries) && WellFormed(file) && AllRows(file.groups) == rows
    ensures Setting(s, at, rows, file)
  {
    hide Inv, WellFormed, IsScan, AllRows, PublishedWatermark;
  }

  lemma OvertakenFields(s: State, at: nat, rows: seq<Record>, file: File)
    requires at < |s.tables.frozen|
    ensures Overtaken(s, at, rows, file).flush == s.flush && Overtaken(s, at, rows, file).history == s.history
  {
  }

  lemma FaithfulIsUnharmed(s: State, at: nat, rows: seq<Record>, file: File, n: nat)
    requires Setting(s, at, rows, file) && n <= at && n <= |Overtaken(s, at, rows, file).tables.frozen|
    ensures Faithful(Skipped(Overtaken(s, at, rows, file), n)) <==> forall k :: Unharmed(s, at, n, k)
  {
    hide Inv, Overtaken, Skipped, Unharmed, Visible, MapHas, TopRecord, Layers, LayersOk, Contents, Waiting,
      Newer, WalInv, LsnsInv, DurableInv, GoodLake, LakeInv, PublishedWatermark;
    var z := Skipped(Overtaken(s, at, rows, file), n);
    InvParts(s);
    LsnsOfHistory(s);
    OvertakenView(s, at, rows, file, n);
    OvertakenFields(s, at, rows, file);
    assert z.history == s.history;
    forall k
      ensures MapHas(s.history, k, TopRecord(Layers(s), k))
      ensures TopRecord(Visible(z), k) == TopRecord(Layers(s), k) <==> Unharmed(s, at, n, k)
    {
      LayersAreMap(Layers(s), s.history, InFlight(s), k);
      KeyIsExact(s, at, n, k);
    }
    forall k, o | MapHas(s.history, k, o)
      ensures o == TopRecord(Layers(s), k)
    {
      MapHasUnique(s.history, k, o, TopRecord(Layers(s), k));
    }
  }

  lemma AllResumed(s: State, at: nat)
    requires First(s) <= at < |s.tables.frozen|
    ensures (forall k :: Unharmed(s, at, at, k)) <==>
              forall k :: HeldAbove(JumpedOver(s, at), k) ==> k in s.tables.frozen[at].entries || HeldAbove(Newer(s, at), k)
  {
    hide JumpedOver, Newer, PublishedWatermark;
    assert Waiting(s, at, at) == [];
    forall k
      ensures Unharmed(s, at, at, k) <==>
                (HeldAbove(JumpedOver(s, at), k) ==> k in s.tables.frozen[at].entries || HeldAbove(Newer(s, at), k))
    {
    }
  }

  // ---- It happens -------------------------------------------------------------------------------------------

  /** Two keys are written, each frozen in its own table. */
  lemma TwoTables(c: Config) returns (s: State)
    requires c.segmentMaxBytes > 0 && c.maxFrozen >= 2
    ensures Reachable(c, s) && AtRest(s) && s.lake == [] && |s.tables.frozen| == 2
    ensures s.tables.frozen[0].entries.Keys == {[0]} && s.tables.frozen[1].entries.Keys == {[1]}
    ensures s.tables.active.entries == map[]
  {
    hide RunFrom, Encoded;
    var a, b := PutRecord([0], 1, []), PutRecord([1], 2, []);
    WriteIsARun(c, Init, a, true);
    var s1 := AfterWriting(c, Init, a);
    FreezeRuns(c, s1, true);
    RunConcat(c, Init, WriteSteps(a), s1, [Freeze], true);
    var s2 := Frozen(s1);
    WriteIsARun(c, s2, b, true);
    var s3 := AfterWriting(c, s2, b);
    RunConcat(c, Init, WriteSteps(a) + [Freeze], s2, WriteSteps(b), true);
    FreezeRuns(c, s3, true);
    RunConcat(c, Init, WriteSteps(a) + [Freeze] + WriteSteps(b), s3, [Freeze], true);
    s := Frozen(s3);
  }

  /** Publishing the newer of two frozen tables first loses an acknowledged record, with the
      crash that drops the older table from memory, and without one when the older table's own
      flush resumes. */
  lemma OutOfOrderHappens(c: Config) returns (s: State, rows: seq<Record>, file: File)
    requires c.segmentMaxBytes > 0 && c.maxFrozen >= 2
    ensures Reachable(c, s) && AtRest(s) && |s.tables.frozen| == 2 && First(s) == 0
    ensures RunFrom(c, s, [PlanFlush(1), StageRows(rows), Publish(file)], false) == Some(Ahead(s, 1, rows, file))
    ensures CanRestart(c, Ahead(s, 1, rows, file), None)
    ensures !Overwritten(s, 1, {}) && !Faithful(Reopened(c, Ahead(s, 1, rows, file), None))
    ensures |Overtaken(s, 1, rows, file).tables.frozen| >= 1
    ensures RunFrom(c, s, OvertakeSteps(1, rows, file) + SkipSteps(1), false) == Some(Skipped(Overtaken(s, 1, rows, file), 1))
    ensures !Faithful(Skipped(Overtaken(s, 1, rows, file), 1))
  {
    hide RunFrom, Reachable, WellFormed, IsScan, AllRows, CanRestart, Reopened, Faithful, Overtaken, Skipped,
      OvertakeSteps, SkipSteps, Ahead, Unharmed;
    s := TwoTables(c);
    rows, file := FileExists(s.tables.frozen[1]);
    assert First(s) == 0 by { EmptyLakeIsFirst(c, s); }
    OldestFirstIsExact(c, s, 1, rows, file, None);
    OvertakenFlushIsExact(c, s, 1, rows, file, 1);
    assert Landed(s, None) == {};
    OlderKeyIsAlone(s);
  }

  lemma EmptyLakeIsFirst(c: Config, s: State)
    requires Reachable(c, s) && s.lake == []
    ensures First(s) == 0
  {
    hide Inv, Reachable;
    ReachableInv(c, s);
    InvParts(s);
  }

  lemma OlderKeyIsAlone(s: State)
    requires |s.tables.frozen| == 2 && First(s) == 0
    requires s.tables.frozen[0].entries.Keys == {[0]} && s.tables.frozen[1].entries.Keys == {[1]}
    requires s.tables.active.entries == map[]
    ensures HeldAbove(JumpedOver(s, 1), [0]) && [0] !in s.tables.frozen[1].entries && !HeldAbove(Newer(s, 1), [0])
  {
    var k: Key := [0];
    assert JumpedOver(s, 1)[0] == s.tables.frozen[0].entries && k in s.tables.frozen[0].entries.Keys;
    assert k !in s.tables.frozen[1].entries.Keys;
  }
}
