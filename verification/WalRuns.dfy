/** Whole runs of the log: appends, truncations, torn appends and reopens in any order. */
module WalRuns {
  import opened Bytes
  import opened Records
  import opened Frames
  import opened WalLog
  import opened WalContents

  datatype Event =
    | Append(recs: seq<Record>)
    | Truncate(watermark: nat)
    | Crash(torn: seq<Record>, written: nat)  // die with `written` bytes of a batch on disk, reopen
    | Reopen

  /** A run so far: the log, every record that became durable in order, the highest truncation
      watermark, and the highest first LSN any append attempted. */
  datatype Run = Run(st: WalState, log: seq<Record>, floor: nat, attempted: nat)

  predicate Batch(run: Run, recs: seq<Record>, segmentMaxBytes: nat) {
    recs != [] && AllEncodable(recs) && FreshName(run.st, recs, segmentMaxBytes)
  }

  predicate Allowed(run: Run, e: Event, segmentMaxBytes: nat) {
    match e
    case Append(recs) => Batch(run, recs, segmentMaxBytes)
    case Crash(torn, written) => Batch(run, torn, segmentMaxBytes) && written <= |Encoded(torn)|
    case _ => true
  }

  ghost function Reopened(disk: Disk, otherwise: WalState): WalState {
    match Open(disk, 0)
    case Ok(start) => start.wal
    case Err(_) => otherwise
  }

  ghost function After(run: Run, e: Event, segmentMaxBytes: nat): Run
    requires Allowed(run, e, segmentMaxBytes)
  {
    match e
    case Append(recs) =>
      run.(st := Appended(run.st, recs, segmentMaxBytes), log := run.log + recs,
           attempted := Max(run.attempted, recs[0].lsn))
    case Truncate(watermark) =>
      run.(st := Truncated(run.st, watermark), floor := Max(run.floor, watermark))
    case Crash(torn, written) =>
      run.(st := Reopened(TornAppend(run.st, torn, segmentMaxBytes, written), run.st),
           log := run.log + torn[..WholeFrames(torn, written)],
           attempted := Max(run.attempted, torn[0].lsn))
    case Reopen =>
      run.(st := Reopened(run.st.disk, run.st))
  }

  /** The run these events make from an empty directory, or none if a batch breaks a guard. */
  ghost function RunOf(events: seq<Event>, segmentMaxBytes: nat): Option<Run> {
    if events == [] then Some(Run(EmptyLog, [], 0, 0))
    else match RunOf(events[..|events| - 1], segmentMaxBytes)
         case None => None
         case Some(run) =>
           if Allowed(run, events[|events| - 1], segmentMaxBytes)
           then Some(After(run, events[|events| - 1], segmentMaxBytes)) else None
  }

  ghost predicate RunInv(run: Run) {
    && WalInv(run.st)
    && (forall r :: Bag(run.st.disk)[r] <= multiset(run.log)[r])
    && (forall r: Record :: r.lsn > run.floor ==> Bag(run.st.disk)[r] == multiset(run.log)[r])
  }

  lemma AllReadable(st: WalState)
    requires WalInv(st)
    ensures forall n :: n in st.disk ==> Readable(st.disk[n])
  {
    hide Clean, Readable;
    forall n | n in st.disk { CleanIsReadable(st.disk[n]); }
  }

  lemma AfterKeeps(run: Run, e: Event, segmentMaxBytes: nat)
    requires RunInv(run) && Allowed(run, e, segmentMaxBytes)
    ensures RunInv(After(run, e, segmentMaxBytes))
  {
    hide WalInv, Bag, Readable, AllEncodable, FreshName, Open, TornAppend, Appended, Truncated;
    match e
    case Append(recs) => AppendedKeeps(run.st, recs, segmentMaxBytes);
    case Truncate(watermark) => TruncatedKeeps(run.st, watermark);
    case Crash(torn, written) =>
      TornAppendKeeps(run.st, torn, segmentMaxBytes, written);
      OpenReads(TornAppend(run.st, torn, segmentMaxBytes, written), 0);
    case Reopen =>
      AllReadable(run.st);
      OpenReads(run.st.disk, 0);
  }

  /** Opening an empty directory makes the empty log. */
  lemma FirstOpen()
    ensures Open(map[], 0) == Ok(Opened(EmptyLog, [], 0))
    ensures RunInv(Run(EmptyLog, [], 0, 0))
  {
    hide WalInv;
    OpenReads(map[], 0);
  }

  lemma {:induction false} RunsKeep(events: seq<Event>, segmentMaxBytes: nat)
    ensures RunOf(events, segmentMaxBytes).Some? ==> RunInv(RunOf(events, segmentMaxBytes).value)
  {
    hide RunInv, After;
    if events == [] {
      FirstOpen();
    } else {
      var init, e := events[..|events| - 1], events[|events| - 1];
      RunsKeep(init, segmentMaxBytes);
      if RunOf(events, segmentMaxBytes).Some? {
        AfterKeeps(RunOf(init, segmentMaxBytes).value, e, segmentMaxBytes);
      }
    }
  }

  /** After any run, opening at or above every truncation watermark succeeds and replays
      exactly the durable records above that watermark, each as often as it was logged. */
  lemma ReplayIsExact(events: seq<Event>, segmentMaxBytes: nat, w: nat)
    requires RunOf(events, segmentMaxBytes).Some? && RunOf(events, segmentMaxBytes).value.floor <= w
    ensures var run := RunOf(events, segmentMaxBytes).value;
            && Open(run.st.disk, w).Ok?
            && forall r :: multiset(Open(run.st.disk, w).value.records)[r]
                           == if r.lsn > w then multiset(run.log)[r] else 0
  {
    hide WalInv, Bag, Readable, Open, RunOf;
    RunsKeep(events, segmentMaxBytes);
    var run := RunOf(events, segmentMaxBytes).value;
    AllReadable(run.st);
    OpenReads(run.st.disk, w);
  }

  // ---- One writer at a time -----------------------------------------------------------------

  predicate Increasing(recs: seq<Record>) {
    forall i, j :: 0 <= i < j < |recs| ==> recs[i].lsn < recs[j].lsn
  }

  /** The batch continues the log of durable records upward. */
  predicate Continues(run: Run, recs: seq<Record>) {
    recs != [] && AllEncodable(recs) && Increasing(run.log + recs) && recs[0].lsn >= 1
  }

  /** A rotation names the new segment above the one it seals. */
  predicate RotatesUpward(run: Run, recs: seq<Record>, segmentMaxBytes: nat)
    requires recs != []
  {
    Rotates(run.st, segmentMaxBytes) ==> run.st.active.start < recs[0].lsn
  }

  predicate Sequential(run: Run, e: Event, segmentMaxBytes: nat) {
    match e
    case Append(recs) => Continues(run, recs) && RotatesUpward(run, recs, segmentMaxBytes)
    case Crash(torn, written) =>
      Continues(run, torn) && RotatesUpward(run, torn, segmentMaxBytes) && written <= |Encoded(torn)|
    case _ => true
  }

  /** Durable LSNs only go up, and rotations name segments upward. */
  ghost predicate AllSequential(events: seq<Event>, segmentMaxBytes: nat) {
    events == [] || (
      var init := events[..|events| - 1];
      && AllSequential(init, segmentMaxBytes)
      && RunOf(init, segmentMaxBytes).Some?
      && Sequential(RunOf(init, segmentMaxBytes).value, events[|events| - 1], segmentMaxBytes))
  }

  lemma RunOfSnoc(events: seq<Event>, e: Event, run: Run, segmentMaxBytes: nat)
    requires RunOf(events, segmentMaxBytes) == Some(run) && Allowed(run, e, segmentMaxBytes)
    ensures RunOf(events + [e], segmentMaxBytes) == Some(After(run, e, segmentMaxBytes))
  {
    hide Allowed, After;
    assert (events + [e])[..|events|] == events;
  }

  lemma SequentialSnoc(events: seq<Event>, e: Event, run: Run, segmentMaxBytes: nat)
    requires AllSequential(events, segmentMaxBytes) && RunOf(events, segmentMaxBytes) == Some(run)
    requires Sequential(run, e, segmentMaxBytes)
    ensures AllSequential(events + [e], segmentMaxBytes)
  {
    hide Sequential, RunOf;
    assert (events + [e])[..|events|] == events;
  }

  ghost predicate AllBelow(a: seq<Record>, b: seq<Record>) {
    forall r, q :: r in a && q in b ==> r.lsn < q.lsn
  }

  /** Files in name order hold their records in LSN order. */
  ghost predicate Ordered(disk: Disk) {
    && (forall n :: n in disk ==> Increasing(RecordsOf(disk[n])))
    && (forall m, n :: m in disk && n in disk && m < n ==> AllBelow(RecordsOf(disk[m]), RecordsOf(disk[n])))
  }

  ghost predicate SequentialInv(run: Run) {
    && Ordered(run.st.disk)
    && (forall n :: n in run.st.disk ==> n <= run.st.active.start)
    && Increasing(run.log) && forall r :: r in run.log ==> r.lsn >= 1
  }

  lemma OnDiskIsLogged(run: Run, n: nat, r: Record)
    requires RunInv(run) && n in run.st.disk && r in RecordsOf(run.st.disk[n])
    ensures r in run.log && r in Bag(run.st.disk)
  {
    hide WalInv, RecordsOf;
    BagHas(run.st.disk, run.st.disk.Keys, r);
    assert Bag(run.st.disk)[r] <= multiset(run.log)[r];
  }

  lemma AboveTheLog(log: seq<Record>, recs: seq<Record>, r: Record, q: Record)
    requires Increasing(log + recs) && r in log && q in recs
    ensures r.lsn < q.lsn
  {
    var i :| 0 <= i < |log| && log[i] == r;
    var j :| 0 <= j < |recs| && recs[j] == q;
    assert (log + recs)[i] == r && (log + recs)[|log| + j] == q;
  }

  /** An upward rotation never reuses a segment's name. */
  lemma SequentialIsAllowed(run: Run, recs: seq<Record>, segmentMaxBytes: nat)
    requires SequentialInv(run) && Continues(run, recs) && RotatesUpward(run, recs, segmentMaxBytes)
    ensures Batch(run, recs, segmentMaxBytes)
    ensures Rotates(run.st, segmentMaxBytes) ==> forall n :: n in run.st.disk ==> n < recs[0].lsn
  {
    hide RecordsOf, AllEncodable, Ordered, Increasing;
  }

  lemma OrderedGrows(disk: Disk, name: nat, bytes: seq<byte>, extra: seq<Record>)
    requires Ordered(disk) && Increasing(extra) && (name !in disk || AllBelow(RecordsOf(disk[name]), extra))
    requires forall n :: n in disk ==> n <= name
    requires RecordsOf(bytes) == (if name in disk then RecordsOf(disk[name]) else []) + extra
    requires forall n :: n in disk ==> AllBelow(RecordsOf(disk[n]), extra)
    ensures Ordered(disk[name := bytes])
  {
    hide RecordsOf;
    var disk' := disk[name := bytes];
    var held := if name in disk then RecordsOf(disk[name]) else [];
    assert forall r :: r in RecordsOf(bytes) <==> r in held || r in extra;
    IncreasingJoin(held, extra);
    forall m | m in disk && m < name
      ensures AllBelow(RecordsOf(disk[m]), RecordsOf(bytes))
    {
    }
  }

  lemma IncreasingParts(log: seq<Record>, recs: seq<Record>, k: nat)
    requires Increasing(log + recs) && k <= |recs|
    ensures Increasing(log + recs[..k]) && Increasing(recs[..k])
    ensures forall q :: q in recs[..k] ==> q in recs && recs[0].lsn <= q.lsn
  {
    var all, some := log + recs, log + recs[..k];
    assert forall i :: 0 <= i < |some| ==> some[i] == all[i];
    assert forall i :: 0 <= i < k ==> recs[i] == all[|log| + i];
  }

  /** Growing the ready log's active file by the first `k` records of a batch keeps the order. */
  lemma BatchKeepsOrder(run: Run, recs: seq<Record>, segmentMaxBytes: nat, bytes: seq<byte>, k: nat)
    requires RunInv(run) && SequentialInv(run) && Continues(run, recs) && RotatesUpward(run, recs, segmentMaxBytes)
    requires k <= |recs|
    requires var ready := Ready(run.st, recs, segmentMaxBytes);
             ready.active.start in ready.disk
             && RecordsOf(bytes) == RecordsOf(ready.disk[ready.active.start]) + recs[..k]
    ensures var ready := Ready(run.st, recs, segmentMaxBytes);
            && Ordered(ready.disk[ready.active.start := bytes])
            && (forall n :: n in ready.disk ==> n <= ready.active.start)
            && Increasing(run.log + recs[..k]) && forall r :: r in run.log + recs[..k] ==> r.lsn >= 1
  {
    hide RecordsOf, AllEncodable, Bag, WalInv;
    SequentialIsAllowed(run, recs, segmentMaxBytes);
    var st, ready := run.st, Ready(run.st, recs, segmentMaxBytes);
    var name := ready.active.start;
    IncreasingParts(run.log, recs, k);
    forall n | n in st.disk
      ensures AllBelow(RecordsOf(st.disk[n]), recs[..k])
    {
      forall r, q | r in RecordsOf(st.disk[n]) && q in recs[..k]
        ensures r.lsn < q.lsn
      {
        OnDiskIsLogged(run, n, r);
        AboveTheLog(run.log, recs, r, q);
      }
    }
    assert RecordsOf([]) == [] by { EncodedNone(); CleanFile([]); }
    OrderedGrows(st.disk, name, bytes, recs[..k]);
    assert ready.disk[name := bytes] == st.disk[name := bytes];
  }

  /** What a torn append does to the file it writes. */
  lemma GrownFile(st: WalState, recs: seq<Record>, segmentMaxBytes: nat, n: nat)
    requires WalInv(st) && recs != [] && AllEncodable(recs) && FreshName(st, recs, segmentMaxBytes)
    requires n <= |Encoded(recs)|
    ensures var ready, disk := Ready(st, recs, segmentMaxBytes), TornAppend(st, recs, segmentMaxBytes, n);
            && ready.active.start in ready.disk
            && disk == ready.disk[ready.active.start := disk[ready.active.start]]
            && RecordsOf(disk[ready.active.start])
               == RecordsOf(ready.disk[ready.active.start]) + recs[..WholeFrames(recs, n)]
  {
    hide RecordsOf, Encoded, AllEncodable, WholeFrames, Clean, Describes;
    ReadyKeeps(st, recs, segmentMaxBytes);
    var ready := Ready(st, recs, segmentMaxBytes);
    TearAfterClean(ready.disk[ready.active.start], recs, n);
  }

  lemma AppendedIsWhole(st: WalState, recs: seq<Record>, segmentMaxBytes: nat)
    requires recs != []
    ensures var st', ready := Appended(st, recs, segmentMaxBytes), Ready(st, recs, segmentMaxBytes);
            && st'.disk == TornAppend(st, recs, segmentMaxBytes, |Encoded(recs)|)
            && st'.active.start == ready.active.start
    ensures WholeFrames(recs, |Encoded(recs)|) == |recs| && recs[..|recs|] == recs
  {
    hide WholeFrames, Encoded;
    AllFramesWhole(recs);
    assert Encoded(recs)[..|Encoded(recs)|] == Encoded(recs);
  }

  lemma TruncatedOrder(st: WalState, w: nat)
    requires Ordered(st.disk)
    ensures Ordered(Truncated(st, w).disk)
    ensures forall n :: n in Truncated(st, w).disk ==> n in st.disk
  {
    hide RecordsOf, Unlinked, Increasing;
    UnlinkedKeepsBytes(st.disk, Covered(st.sealed, w));
  }

  lemma ReopenedOrder(disk: Disk, otherwise: WalState)
    requires disk != map[] && (forall n :: n in disk ==> Readable(disk[n])) && Ordered(disk)
    ensures var st := Reopened(disk, otherwise);
            && Ordered(st.disk)
            && (forall n :: n in st.disk ==> n <= st.active.start)
            && st.active.start in disk
  {
    hide RecordsOf, Open, Readable, Increasing, Ordered, Clean, Describes;
    OpenReads(disk, 0);
    OpenKeepsFiles(disk, 0);
    OrderedSame(disk, Reopened(disk, otherwise).disk);
  }

  lemma OrderedSame(a: Disk, b: Disk)
    requires Ordered(a) && b.Keys == a.Keys && forall n :: n in a ==> RecordsOf(b[n]) == RecordsOf(a[n])
    ensures Ordered(b)
  {
    hide RecordsOf, Increasing, AllBelow;
  }

  lemma AppendStep(run: Run, recs: seq<Record>, segmentMaxBytes: nat)
    requires RunInv(run) && SequentialInv(run) && Continues(run, recs) && RotatesUpward(run, recs, segmentMaxBytes)
    requires Allowed(run, Append(recs), segmentMaxBytes)
    ensures SequentialInv(After(run, Append(recs), segmentMaxBytes))
  {
    hide WalInv, RecordsOf, AllEncodable, Bag, Ordered, TornAppend, Ready, Appended, FreshName, Encoded,
      WholeFrames;
    GrownFile(run.st, recs, segmentMaxBytes, |Encoded(recs)|);
    AppendedIsWhole(run.st, recs, segmentMaxBytes);
    var st', name := Appended(run.st, recs, segmentMaxBytes), Ready(run.st, recs, segmentMaxBytes).active.start;
    BatchKeepsOrder(run, recs, segmentMaxBytes, st'.disk[name], |recs|);
  }

  lemma CrashStep(run: Run, torn: seq<Record>, written: nat, segmentMaxBytes: nat)
    requires RunInv(run) && SequentialInv(run) && Continues(run, torn) && RotatesUpward(run, torn, segmentMaxBytes)
    requires Allowed(run, Crash(torn, written), segmentMaxBytes)
    ensures SequentialInv(After(run, Crash(torn, written), segmentMaxBytes))
  {
    hide WalInv, RecordsOf, AllEncodable, Bag, Ordered, TornAppend, Ready, FreshName, Encoded, WholeFrames,
      Readable, Reopened;
    GrownFile(run.st, torn, segmentMaxBytes, written);
    TornAppendKeeps(run.st, torn, segmentMaxBytes, written);
    var disk, ready := TornAppend(run.st, torn, segmentMaxBytes, written), Ready(run.st, torn, segmentMaxBytes);
    BatchKeepsOrder(run, torn, segmentMaxBytes, disk[ready.active.start], WholeFrames(torn, written));
    ReopenedOrder(disk, run.st);
    assert Reopened(disk, run.st).active.start in ready.disk;
  }

  lemma SequentialStep(run: Run, e: Event, segmentMaxBytes: nat)
    requires RunInv(run) && SequentialInv(run) && Sequential(run, e, segmentMaxBytes)
    ensures Allowed(run, e, segmentMaxBytes)
    ensures SequentialInv(After(run, e, segmentMaxBytes))
  {
    hide RecordsOf, AllEncodable, Bag, Ordered, Readable, Continues, RotatesUpward, Reopened, Clean, Describes;
    match e
    case Append(recs) =>
      SequentialIsAllowed(run, recs, segmentMaxBytes);
      AppendStep(run, recs, segmentMaxBytes);
    case Truncate(watermark) =>
      TruncatedOrder(run.st, watermark);
    case Crash(torn, written) =>
      SequentialIsAllowed(run, torn, segmentMaxBytes);
      CrashStep(run, torn, written, segmentMaxBytes);
    case Reopen =>
      AllReadable(run.st);
      ReopenedOrder(run.st.disk, run.st);
  }

  lemma {:induction false} SequentialRunsKeep(events: seq<Event>, segmentMaxBytes: nat)
    requires AllSequential(events, segmentMaxBytes)
    ensures RunOf(events, segmentMaxBytes).Some?
    ensures RunInv(RunOf(events, segmentMaxBytes).value) && SequentialInv(RunOf(events, segmentMaxBytes).value)
  {
    hide RunInv, After, Allowed;
    RunsKeep(events, segmentMaxBytes);
    if events == [] {
      FirstOrder();
    } else {
      var init := events[..|events| - 1];
      SequentialRunsKeep(init, segmentMaxBytes);
      SequentialStep(RunOf(init, segmentMaxBytes).value, events[|events| - 1], segmentMaxBytes);
      RunsKeep(events, segmentMaxBytes);
    }
  }

  lemma FirstOrder()
    ensures SequentialInv(Run(EmptyLog, [], 0, 0))
  {
    EncodedNone();
    CleanFile([]);
    assert RecordsOf(EmptyLog.disk[0]) == [];
  }

  lemma {:induction false} AboveOrder(recs: seq<Record>, w: nat)
    requires Increasing(recs)
    ensures Increasing(Above(recs, w)) && forall r :: r in Above(recs, w) ==> r in recs
  {
    if recs != [] {
      var rest := recs[1..];
      assert forall i :: 0 <= i < |rest| ==> rest[i] == recs[i + 1];
      AboveOrder(rest, w);
      forall r | r in rest
        ensures recs[0].lsn < r.lsn
      {
        var i :| 0 <= i < |rest| && rest[i] == r;
        assert recs[i + 1] == r;
      }
    }
  }

  lemma LastScanned(disk: Disk, names: seq<nat>, w: nat)
    requires Scanned.requires(disk, names, w) && Scanned(disk, names, w).Ok?
    ensures names == [] ==> Scanned(disk, names, w).value.records == []
    ensures names != [] ==>
              var init, n := names[..|names| - 1], names[|names| - 1];
              && Scanned(disk, init, w).Ok?
              && Scanned(disk, names, w).value.records == Scanned(disk, init, w).value.records + Above(RecordsOf(disk[n]), w)
  {
    hide Above, MaxLsn;
    if names != [] {
      ReplayRecords(disk[names[|names| - 1]]);
    }
  }

  lemma {:induction false} ScannedOrder(disk: Disk, names: seq<nat>, w: nat)
    requires Ordered(disk) && Scanned.requires(disk, names, w) && Scanned(disk, names, w).Ok?
    requires forall i, j :: 0 <= i < j < |names| ==> names[i] < names[j]
    ensures var recs := Scanned(disk, names, w).value.records;
            && Increasing(recs)
            && forall r :: r in recs ==> exists n :: n in names && r in RecordsOf(disk[n])
  {
    hide Above, Increasing, MaxLsn, Scanned, RecordsOf;
    LastScanned(disk, names, w);
    if names == [] {
      assert Increasing([]) by { NoneIncreasing(); }
    } else {
      var init, n := names[..|names| - 1], names[|names| - 1];
      assert forall i :: 0 <= i < |init| ==> init[i] == names[i];
      assert forall m :: m in names <==> m in init || m == n;
      ScannedOrder(disk, init, w);
      var before, more := Scanned(disk, init, w).value.records, Above(RecordsOf(disk[n]), w);
      AboveOrder(RecordsOf(disk[n]), w);
      forall r, q | r in before && q in more
        ensures r.lsn < q.lsn
      {
        var m :| m in init && r in RecordsOf(disk[m]);
        assert m < n && AllBelow(RecordsOf(disk[m]), RecordsOf(disk[n]));
      }
      IncreasingJoin(before, more);
      forall r | r in before + more
        ensures exists m :: m in names && r in RecordsOf(disk[m])
      {
        if r in before {
          var m :| m in init && r in RecordsOf(disk[m]);
          assert m in names;
        } else {
          assert n in names && r in RecordsOf(disk[n]);
        }
      }
    }
  }

  lemma NoneIncreasing()
    ensures Increasing([])
  {
  }

  lemma IncreasingJoin(a: seq<Record>, b: seq<Record>)
    requires Increasing(a) && Increasing(b) && AllBelow(a, b)
    ensures Increasing(a + b)
  {
    forall i, j | 0 <= i < j < |a + b|
      ensures (a + b)[i].lsn < (a + b)[j].lsn
    {
      if i < |a| <= j {
        assert a[i] in a && b[j - |a|] in b;
      }
    }
  }

  /** When durable LSNs only go up and rotations name segments upward, no guard on names is
      needed, and opening replays in strictly increasing LSN order. */
  lemma SequentialReplayIsInOrder(events: seq<Event>, segmentMaxBytes: nat, w: nat)
    requires AllSequential(events, segmentMaxBytes)
    ensures RunOf(events, segmentMaxBytes).Some?
    ensures var run := RunOf(events, segmentMaxBytes).value;
            Open(run.st.disk, w).Ok? && Increasing(Open(run.st.disk, w).value.records)
  {
    hide WalInv, Bag, Readable, RunOf, Ordered, Increasing;
    SequentialRunsKeep(events, segmentMaxBytes);
    var disk := RunOf(events, segmentMaxBytes).value.st.disk;
    AllReadable(RunOf(events, segmentMaxBytes).value.st);
    OpenReads(disk, w);
    assert forall n :: n in Listing(disk.Keys) <==> n in disk.Keys;
    ScannedOrder(disk, Listing(disk.Keys), w);
  }
}
