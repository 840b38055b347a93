/** Freezing under a write in flight, wherever the flush pipeline stands. */
module FreezeLimits {
  import opened Bytes
  import opened Records
  import opened WalLog
  import opened WalContents
  import WalRuns
  import opened Memtables
  import opened Lake
  import opened Flushes
  import opened Protocol
  import opened ProtocolInvariant
  import opened ProtocolSteps
  import opened ProtocolRecovery
  import opened Guarantees
  import opened Limits

  // ---- The queue can be drained, before the freeze or after it ---------------------------------------

  /** A step of the flush of the oldest frozen table. */
  predicate IsFlushStep(l: Label) {
    l == PlanFlush(0) || l.StageRows? || l.Publish? || l.Reindex? || l.Truncate? || l.Retire?
  }

  /** Nothing is stuck: a flush abandoned after publishing leaves its table queued and the index
      stale, and only a reopen gets past it. */
  predicate Resumable(s: State) {
    s.flush.Idle? && OldestPublished(s) ==> s.index == IndexOf(s.lake)
  }

  /** What draining leaves alone. */
  predicate SameWriters(s: State, t: State) {
    && t.tables.active == s.tables.active && t.pending == s.pending && t.logged == s.logged
    && t.wal.activeBytes == s.wal.activeBytes && t.wal.disk.Keys <= s.wal.disk.Keys
  }

  /** The same steps lead from `s` to `t`, and from `s` frozen to `t` frozen. */
  ghost predicate Drained(c: Config, s: State, labels: seq<Label>, t: State) {
    && RunFrom(c, s, labels, true) == Some(t)
    && RunFrom(c, Frozen(s), labels, true) == Some(Frozen(t))
    && SameWriters(s, t)
  }

  /** A flush step and a freeze commute while a table is queued. */
  lemma FlushCommutes(c: Config, t: State, l: Label)
    requires t.tables.frozen != [] && (t.flush.Idle? || t.flush.at == 0)
    requires IsFlushStep(l) && Enabled(c, t, l) && Guard(c, t, l)
    ensures Enabled(c, Frozen(t), l) && Guard(c, Frozen(t), l)
    ensures Apply(c, Frozen(t), l) == Frozen(Apply(c, t, l))
  {
    hide PublishedWatermark, IsScan, WellFormed, AllRows, IndexOf, WalLog.Truncated;
    var f, active := t.tables.frozen, t.tables.active;
    assert (f + [active])[0] == f[0];
    assert Dropped(f + [active], 0) == Dropped(f, 0) + [active];
  }

  lemma FlushStepKeepsWriters(c: Config, t: State, l: Label)
    requires IsFlushStep(l) && Enabled(c, t, l)
    ensures SameWriters(t, Apply(c, t, l))
  {
    hide PublishedWatermark, IsScan, WellFormed, AllRows, IndexOf, Unlinked, Covered, Kept;
    if l.Truncate? {
      UnlinkedKeepsBytes(t.wal.disk, Covered(t.wal.sealed, t.flush.w));
    }
  }

  lemma DrainStep(c: Config, s: State, labels: seq<Label>, t: State, l: Label)
    requires Drained(c, s, labels, t) && t.tables.frozen != [] && (t.flush.Idle? || t.flush.at == 0)
    requires IsFlushStep(l) && Enabled(c, t, l) && Guard(c, t, l)
    ensures Drained(c, s, labels + [l], Apply(c, t, l))
  {
    hide RunFrom, Enabled, Guard, Apply, Frozen;
    FlushCommutes(c, t, l);
    FlushStepKeepsWriters(c, t, l);
    Extend(c, s, labels, t, l, true);
    Extend(c, Frozen(s), labels, Frozen(t), l, true);
  }

  function Rank(pc: FlushPc): nat {
    match pc
    case Idle => 0
    case Planned(_, _) => 1
    case Staged(_, _) => 2
    case Published(_, _) => 3
    case Indexed(_, _, _) => 4
    case Truncated(_, _, _) => 5
  }

  /** Steps left until the queue is empty, at most. */
  function StepsLeft(t: State): int {
    6 * |t.tables.frozen| - Rank(t.flush)
  }

  /** The oldest frozen table's flush can always take its next step. */
  lemma NextStep(c: Config, t: State) returns (l: Label)
    requires Inv(t) && Resumable(t) && t.tables.frozen != []
    ensures (t.flush.Idle? || t.flush.at == 0) && IsFlushStep(l) && Enabled(c, t, l) && Guard(c, t, l)
    ensures Resumable(Apply(c, t, l)) && StepsLeft(Apply(c, t, l)) < StepsLeft(t)
  {
    hide WalInv, LsnsInv, LayersOk, DurableInv, LakeInv, GoodLake, IndexOf, PublishedWatermark, IsScan,
      WellFormed, AllRows, WalLog.Truncated, ExactMax, OneGroupFile;
    match t.flush
    case Idle =>
      PlanFacts(t);
      l := PlanFlush(0);
    case Planned(_, _) =>
      var rows, file := FileExists(t.tables.frozen[0]);
      l := StageRows(rows);
    case Staged(_, w) =>
      var rows := t.staging[w];
      StagedRows(rows, t.tables.frozen[0].entries);
      l := Publish(OneGroupFile(rows));
    case Published(_, _) => l := Reindex;
    case Indexed(_, _, _) => l := Truncate;
    case Truncated(_, _, _) =>
      l := Retire;
      RetiredIsResumable(t);
  }

  lemma RetiredIsResumable(t: State)
    requires Inv(t) && t.flush.Truncated? && t.tables.frozen != [] && t.flush.at == 0
    ensures Resumable(Retired(t, 0, t.flush.w, t.flush.wrote))
  {
    hide WalInv, LsnsInv, LayersOk, DurableInv, LakeInv, IndexOf, PublishedWatermark;
    UnpublishedAbove(t);
    assert Dropped(t.tables.frozen, 0) == t.tables.frozen[1..];
  }

  lemma StagedRows(rows: seq<Record>, entries: map<Key, Entry>)
    requires IsScan(rows, entries) && entries != map[]
    ensures rows != [] && WellFormed(OneGroupFile(rows)) && AllRows(OneGroupFile(rows).groups) == rows
  {
    hide SortedRows, WellFormed, OneGroupFile;
    var k :| k in entries;
    assert HasKey(rows, k);
    OneGroupFileIsFine(rows);
  }

  lemma {:induction false} DrainQueue(c: Config, s: State, labels: seq<Label>, t: State) returns (more: seq<Label>, u: State)
    requires Inv(t) && Resumable(t) && Drained(c, s, labels, t)
    ensures Inv(u) && u.flush.Idle? && u.tables.frozen == [] && Drained(c, s, more, u)
    decreases StepsLeft(t)
  {
    hide Inv, Resumable, Drained, Enabled, Guard, Apply, IsFlushStep;
    if t.tables.frozen == [] {
      more, u := labels, t;
      NothingQueued(t);
    } else {
      var l := NextStep(c, t);
      DrainStep(c, s, labels, t, l);
      StepKeeps(c, t, l);
      MoreThanRank(t);
      more, u := DrainQueue(c, s, labels + [l], Apply(c, t, l));
    }
  }

  lemma NothingQueued(t: State)
    requires Inv(t) && t.tables.frozen == []
    ensures t.flush.Idle?
  {
    hide WalInv, LsnsInv, LayersOk, DurableInv, LakeInv;
  }

  lemma MoreThanRank(t: State)
    requires t.tables.frozen != []
    ensures StepsLeft(t) > 0
  {
  }

  // ---- The exact condition --------------------------------------------------------------------------------

  lemma FreshNamesStay(c: Config, s: State, t: State)
    requires SameWriters(s, t) && forall r :: r in s.pending ==> FreshName(s.wal, [r], c.segmentMaxBytes)
    ensures forall r :: r in t.pending ==> FreshName(t.wal, [r], c.segmentMaxBytes)
  {
  }

  lemma UnfaithfulLater(c: Config, f: State, labels: seq<Label>, g: State)
    requires RunFrom(c, f, labels, true) == Some(g) && !StaysFaithful(c, g)
    ensures !StaysFaithful(c, f)
  {
    hide RunFrom, Faithful;
    var later, z :| RunFrom(c, g, later, true) == Some(z) && !Faithful(z);
    RunConcat(c, f, labels, g, later, true);
    assert RunFrom(c, f, labels + later, true) == Some(z);
  }

  /** Wherever the pipeline stands, and whatever is queued, unless a flush was abandoned between
      its publish and its index refresh: freezing is safe exactly when every write in flight
      outranks the table being frozen. If one does not, some guarded continuation makes an
      acknowledged record unreadable, with no crash at all. */
  lemma FreezeGuardIsExact(c: Config, s: State)
    requires Reachable(c, s) && Enabled(c, s, Freeze) && Resumable(s)
    requires forall r :: r in s.pending ==> FreshName(s.wal, [r], c.segmentMaxBytes)
    ensures FreezeGuard(s) <==> StaysFaithful(c, Frozen(s))
  {
    hide Reachable, Inv, StaysFaithful, FreshName, RunFrom, Resumable, Frozen;
    ReachableInv(c, s);
    if FreezeGuard(s) {
      GuardedFreezeStays(c, s);
    } else {
      Nowhere(c, s, true);
      Nowhere(c, Frozen(s), true);
      var labels, t := DrainQueue(c, s, [], s);
      FreshNamesStay(c, s, t);
      QuietFreezeIsExact(c, t);
      UnfaithfulLater(c, Frozen(s), labels, Frozen(t));
    }
  }

  // ---- The case left out: a stuck flush -----------------------------------------------------------------

  /** The oldest frozen table is in the lake, its flush was abandoned, and the index is stale. */
  predicate Stuck(s: State) {
    !Resumable(s) && s.tables.frozen[0].entries != map[]
  }

  /** While a flush is stuck nothing more is published, dropped or truncated: guarded steps can
      only write, freeze or restart. So a late writer's record is never passed by a watermark,
      and the freeze guard is stronger than reads need until the next open. */
  lemma {:induction false} StuckIsInert(c: Config, s: State, labels: seq<Label>, t: State)
    requires Stuck(s) && RunFrom(c, s, labels, true) == Some(t)
    requires forall l :: l in labels ==> !l.Restart?
    ensures Stuck(t) && t.lake == s.lake && t.index == s.index && s.tables.frozen <= t.tables.frozen
  {
    hide Enabled, Guard, Apply, Stuck;
    if labels != [] {
      var init, l := labels[..|labels| - 1], labels[|labels| - 1];
      var u := RunFrom(c, s, init, true).value;
      StuckIsInert(c, s, init, u);
      assert l in labels;
      StuckStep(c, u, l);
    }
  }

  lemma StuckStep(c: Config, u: State, l: Label)
    requires Stuck(u) && Enabled(c, u, l) && Guard(c, u, l) && !l.Restart?
    ensures var v := Apply(c, u, l);
            Stuck(v) && v.lake == u.lake && v.index == u.index && u.tables.frozen <= v.tables.frozen
  {
    hide PublishedWatermark, IndexOf, IsScan, WellFormed, Appended, Encodable, FreshName;
  }
}
