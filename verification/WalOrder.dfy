/** When replay is in LSN order: a run of one writer, and the exact condition on a rotation. */
module WalOrder {
  import opened Bytes
  import opened Records
  import opened Frames
  import opened WalLog
  import opened WalContents
  import opened WalRuns
  import opened WalLimits

  // ---- One writer ------------------------------------------------------------------------------------

  /** The batch also starts no lower than any earlier attempt, torn ones included. */
  predicate Upward(run: Run, e: Event) {
    match e
    case Append(recs) => Continues(run, recs) && recs[0].lsn >= run.attempted
    case Crash(torn, written) => Continues(run, torn) && torn[0].lsn >= run.attempted && written <= |Encoded(torn)|
    case _ => true
  }

  ghost predicate AllUpward(events: seq<Event>, segmentMaxBytes: nat) {
    events == [] || (
      var init := events[..|events| - 1];
      && AllUpward(init, segmentMaxBytes)
      && RunOf(init, segmentMaxBytes).Some?
      && Upward(RunOf(init, segmentMaxBytes).value, events[|events| - 1]))
  }

  /** Every record is at or above its file's name. */
  ghost predicate NamesLow(disk: Disk) {
    forall n, r :: n in disk && r in RecordsOf(disk[n]) ==> n <= r.lsn
  }

  ghost predicate UpwardInv(run: Run) {
    NamesLow(run.st.disk) && run.st.active.start <= run.attempted
  }

  /** A full active segment holds a record, which is at or above its name and below the batch. */
  lemma UpwardRotates(run: Run, recs: seq<Record>, segmentMaxBytes: nat)
    requires RunInv(run) && UpwardInv(run) && Continues(run, recs) && segmentMaxBytes > 0
    ensures RotatesUpward(run, recs, segmentMaxBytes)
  {
    hide RecordsOf, AllEncodable, Bag;
    if Rotates(run.st, segmentMaxBytes) {
      var held := FullSegmentHolds(run, segmentMaxBytes);
      AboveTheLog(run.log, recs, held, recs[0]);
    }
  }

  lemma FullSegmentHolds(run: Run, segmentMaxBytes: nat) returns (held: Record)
    requires RunInv(run) && Rotates(run.st, segmentMaxBytes) && segmentMaxBytes > 0
    ensures run.st.active.start in run.st.disk && held in RecordsOf(run.st.disk[run.st.active.start]) && held in run.log
  {
    hide RecordsOf, Bag;
    var name := run.st.active.start;
    assert RecordsOf(run.st.disk[name]) != [] by { EncodedNone(); assert Clean(run.st.disk[name]); }
    held := RecordsOf(run.st.disk[name])[0];
    OnDiskIsLogged(run, name, held);
  }

  /** Growing the ready log's active file by part of an upward batch keeps names low. */
  lemma GrownNamesLow(run: Run, recs: seq<Record>, segmentMaxBytes: nat, disk: Disk, k: nat)
    requires UpwardInv(run) && Continues(run, recs) && recs[0].lsn >= run.attempted && k <= |recs|
    requires var ready := Ready(run.st, recs, segmentMaxBytes); var name := ready.active.start;
             && name in ready.disk && name in disk && disk == ready.disk[name := disk[name]]
             && RecordsOf(disk[name]) == RecordsOf(ready.disk[name]) + recs[..k]
    ensures NamesLow(disk) && Ready(run.st, recs, segmentMaxBytes).active.start <= recs[0].lsn
  {
    hide RecordsOf, AllEncodable;
    IncreasingParts(run.log, recs, k);
    assert RecordsOf([]) == [] by { EncodedNone(); CleanFile([]); }
  }

  lemma NamesLowSame(a: Disk, b: Disk)
    requires NamesLow(a) && forall n :: n in b ==> n in a && RecordsOf(b[n]) == RecordsOf(a[n])
    ensures NamesLow(b)
  {
    hide RecordsOf;
    forall n, r | n in b && r in RecordsOf(b[n])
      ensures n <= r.lsn
    {
      assert r in RecordsOf(a[n]);
    }
  }

  lemma UpwardAppend(run: Run, recs: seq<Record>, segmentMaxBytes: nat)
    requires RunInv(run) && UpwardInv(run) && Upward(run, Append(recs)) && Allowed(run, Append(recs), segmentMaxBytes)
    ensures UpwardInv(After(run, Append(recs), segmentMaxBytes))
  {
    hide WalInv, RecordsOf, AllEncodable, Bag, TornAppend, Ready, Appended, FreshName, Encoded, WholeFrames,
      NamesLow, Increasing;
    GrownFile(run.st, recs, segmentMaxBytes, |Encoded(recs)|);
    AppendedIsWhole(run.st, recs, segmentMaxBytes);
    GrownNamesLow(run, recs, segmentMaxBytes, Appended(run.st, recs, segmentMaxBytes).disk, |recs|);
  }

  lemma UpwardCrash(run: Run, torn: seq<Record>, written: nat, segmentMaxBytes: nat)
    requires RunInv(run) && SequentialInv(run) && UpwardInv(run) && Upward(run, Crash(torn, written))
    requires RotatesUpward(run, torn, segmentMaxBytes) && Allowed(run, Crash(torn, written), segmentMaxBytes)
    ensures UpwardInv(After(run, Crash(torn, written), segmentMaxBytes))
  {
    hide WalInv, RecordsOf, AllEncodable, Bag, TornAppend, Ready, FreshName, Encoded, WholeFrames, NamesLow,
      Ordered, Increasing, Readable, Open;
    GrownFile(run.st, torn, segmentMaxBytes, written);
    var disk, ready := TornAppend(run.st, torn, segmentMaxBytes, written), Ready(run.st, torn, segmentMaxBytes);
    GrownNamesLow(run, torn, segmentMaxBytes, disk, WholeFrames(torn, written));
    TornAppendKeeps(run.st, torn, segmentMaxBytes, written);
    OpenKeepsFiles(disk, 0);
    OpenReads(disk, 0);
    var st := Open(disk, 0).value.wal;
    NamesLowSame(disk, st.disk);
    ActiveFacts(st);
    ReadyNames(run, torn, segmentMaxBytes);
    assert st.active.start in ready.disk;
  }

  lemma ReadyNames(run: Run, recs: seq<Record>, segmentMaxBytes: nat)
    requires SequentialInv(run) && recs != [] && RotatesUpward(run, recs, segmentMaxBytes)
    ensures var ready := Ready(run.st, recs, segmentMaxBytes); forall n :: n in ready.disk ==> n <= ready.active.start
  {
    hide Ordered, Increasing;
  }

  lemma UpwardStep(run: Run, e: Event, segmentMaxBytes: nat)
    requires RunInv(run) && SequentialInv(run) && UpwardInv(run) && Upward(run, e) && segmentMaxBytes > 0
    ensures Sequential(run, e, segmentMaxBytes) && Allowed(run, e, segmentMaxBytes)
    ensures UpwardInv(After(run, e, segmentMaxBytes))
  {
    hide RecordsOf, AllEncodable, Bag, Ordered, NamesLow, Increasing, Readable, Continues, RotatesUpward, Open,
      Clean, Describes, Truncated, WalLog.Truncated, FreshName, Encoded;
    match e
    case Append(recs) =>
      UpwardRotates(run, recs, segmentMaxBytes);
      SequentialIsAllowed(run, recs, segmentMaxBytes);
      UpwardAppend(run, recs, segmentMaxBytes);
    case Crash(torn, written) =>
      UpwardRotates(run, torn, segmentMaxBytes);
      SequentialIsAllowed(run, torn, segmentMaxBytes);
      UpwardCrash(run, torn, written, segmentMaxBytes);
    case Truncate(watermark) =>
      TruncatedNames(run.st, watermark);
    case Reopen =>
      AllReadable(run.st);
      OpenKeepsFiles(run.st.disk, 0);
      OpenReads(run.st.disk, 0);
      var st := Open(run.st.disk, 0).value.wal;
      NamesLowSame(run.st.disk, st.disk);
      ActiveFacts(st);
      assert st.active.start in run.st.disk;
  }

  lemma TruncatedNames(st: WalState, w: nat)
    requires NamesLow(st.disk)
    ensures NamesLow(Truncated(st, w).disk) && Truncated(st, w).active == st.active
  {
    hide RecordsOf, Unlinked, Covered, Kept;
    UnlinkedKeepsBytes(st.disk, Covered(st.sealed, w));
    NamesLowSame(st.disk, Truncated(st, w).disk);
  }

  /** A writer whose LSNs only go up, attempts included, needs no guard: its rotations name
      segments upward, so every run of its events is possible and replays in order. */
  lemma {:induction false} UpwardIsSequential(events: seq<Event>, segmentMaxBytes: nat)
    requires segmentMaxBytes > 0 && AllUpward(events, segmentMaxBytes)
    ensures AllSequential(events, segmentMaxBytes)
    ensures RunOf(events, segmentMaxBytes).Some? && UpwardInv(RunOf(events, segmentMaxBytes).value)
  {
    hide RunInv, SequentialInv, UpwardInv, After, Allowed, Sequential, Upward;
    if events == [] {
      FirstNames();
    } else {
      var init := events[..|events| - 1];
      UpwardIsSequential(init, segmentMaxBytes);
      SequentialRunsKeep(init, segmentMaxBytes);
      UpwardStep(RunOf(init, segmentMaxBytes).value, events[|events| - 1], segmentMaxBytes);
    }
  }

  lemma FirstNames()
    ensures UpwardInv(Run(EmptyLog, [], 0, 0))
  {
    EncodedNone();
    CleanFile([]);
    assert RecordsOf(EmptyLog.disk[0]) == [];
  }

  // ---- The exact condition -----------------------------------------------------------------------------

  /** `r` comes before `q`. */
  predicate ComesBefore(recs: seq<Record>, r: Record, q: Record) {
    exists i, j :: 0 <= i < j < |recs| && recs[i] == r && recs[j] == q
  }

  lemma {:induction false} AboveKeeps(recs: seq<Record>, w: nat, r: Record)
    requires r in recs && r.lsn > w
    ensures r in Above(recs, w)
  {
    if recs[0] != r {
      AboveKeeps(recs[1..], w, r);
    }
  }

  lemma JoinsBefore(a: seq<Record>, b: seq<Record>, r: Record, q: Record)
    requires ComesBefore(a, r, q) || (r in a && q in b)
    ensures ComesBefore(a + b, r, q)
  {
    if ComesBefore(a, r, q) {
      var i, j :| 0 <= i < j < |a| && a[i] == r && a[j] == q;
      assert (a + b)[i] == r && (a + b)[j] == q;
    } else {
      var i :| 0 <= i < |a| && a[i] == r;
      var j :| 0 <= j < |b| && b[j] == q;
      assert (a + b)[i] == r && (a + b)[|a| + j] == q;
    }
  }

  /** Files are replayed in name order, whatever their records' LSNs. */
  lemma {:induction false} ReplayedInNameOrder(disk: Disk, names: seq<nat>, w: nat, m: nat, r: Record)
    requires Scanned.requires(disk, names, w) && Scanned(disk, names, w).Ok?
    requires forall i, j :: 0 <= i < j < |names| ==> names[i] < names[j]
    requires m in names && r in RecordsOf(disk[m]) && r.lsn > w
    ensures r in Scanned(disk, names, w).value.records
    ensures forall n, q :: n in names && m < n && q in RecordsOf(disk[n]) && q.lsn > w
              ==> ComesBefore(Scanned(disk, names, w).value.records, r, q)
  {
    hide Above, MaxLsn, Scanned, RecordsOf, ComesBefore;
    LastScanned(disk, names, w);
    var init, last := names[..|names| - 1], names[|names| - 1];
    var before, more := Scanned(disk, init, w).value.records, Above(RecordsOf(disk[last]), w);
    assert forall i :: 0 <= i < |init| ==> init[i] == names[i];
    assert forall n :: n in names <==> n in init || n == last;
    assert forall n :: n in init ==> n < last;
    if m in init {
      ReplayedInNameOrder(disk, init, w, m, r);
      forall n, q | n in names && m < n && q in RecordsOf(disk[n]) && q.lsn > w
        ensures ComesBefore(before + more, r, q)
      {
        if n == last {
          AboveKeeps(RecordsOf(disk[last]), w, q);
        }
        JoinsBefore(before, more, r, q);
      }
    } else {
      AboveKeeps(RecordsOf(disk[last]), w, r);
    }
  }

  lemma OutOfOrder(recs: seq<Record>, r: Record, q: Record)
    requires ComesBefore(recs, r, q) && q.lsn < r.lsn
    ensures !Increasing(recs)
  {
  }

  /** After any run whose replay is in order, one more batch that continues the log keeps it in
      order exactly when it does not rotate below the segment it seals. */
  lemma ReplayOrderIsExact(events: seq<Event>, recs: seq<Record>, segmentMaxBytes: nat)
    requires segmentMaxBytes > 0 && AllSequential(events, segmentMaxBytes) && RunOf(events, segmentMaxBytes).Some?
    requires Continues(RunOf(events, segmentMaxBytes).value, recs)
    requires FreshName(RunOf(events, segmentMaxBytes).value.st, recs, segmentMaxBytes)
    ensures var run := RunOf(events, segmentMaxBytes).value;
            var start := Open(Appended(run.st, recs, segmentMaxBytes).disk, 0);
            start.Ok? && (Increasing(start.value.records) <==> RotatesUpward(run, recs, segmentMaxBytes))
  {
    hide RunInv, SequentialInv, RunOf, Appended, Open, Increasing, FreshName, AllEncodable, AllSequential,
      RotatesUpward;
    SequentialRunsKeep(events, segmentMaxBytes);
    var run := RunOf(events, segmentMaxBytes).value;
    if RotatesUpward(run, recs, segmentMaxBytes) {
      SequentialIsAllowed(run, recs, segmentMaxBytes);
      RunOfSnoc(events, Append(recs), run, segmentMaxBytes);
      SequentialSnoc(events, Append(recs), run, segmentMaxBytes);
      SequentialReplayIsInOrder(events + [Append(recs)], segmentMaxBytes, 0);
    } else {
      DownwardReorders(run, recs, segmentMaxBytes);
    }
  }

  lemma DownwardDisk(run: Run, recs: seq<Record>, segmentMaxBytes: nat, held: Record)
    requires WalInv(run.st) && Continues(run, recs) && FreshName(run.st, recs, segmentMaxBytes)
    requires Rotates(run.st, segmentMaxBytes) && recs[0].lsn <= run.st.active.start
    requires run.st.active.start in run.st.disk && held in RecordsOf(run.st.disk[run.st.active.start])
    ensures var low, high, disk := recs[0].lsn, run.st.active.start, Appended(run.st, recs, segmentMaxBytes).disk;
            && low < high && low in disk && high in disk
            && recs[0] in RecordsOf(disk[low]) && held in RecordsOf(disk[high])
  {
    hide WalInv, RecordsOf, AllEncodable, Encoded, Increasing, WholeFrames;
    GrownFile(run.st, recs, segmentMaxBytes, |Encoded(recs)|);
    AppendedIsWhole(run.st, recs, segmentMaxBytes);
    assert RecordsOf([]) == [] by { EncodedNone(); CleanFile([]); }
    assert [] + recs == recs;
  }

  lemma DownwardReorders(run: Run, recs: seq<Record>, segmentMaxBytes: nat)
    requires RunInv(run) && SequentialInv(run) && Continues(run, recs) && segmentMaxBytes > 0
    requires FreshName(run.st, recs, segmentMaxBytes) && !RotatesUpward(run, recs, segmentMaxBytes)
    ensures var start := Open(Appended(run.st, recs, segmentMaxBytes).disk, 0);
            start.Ok? && !Increasing(start.value.records)
  {
    hide WalInv, Bag, RecordsOf, AllEncodable, Ordered, Readable, Scanned, Listing, Increasing, Appended,
      FreshName, ComesBefore;
    var held := FullSegmentHolds(run, segmentMaxBytes);
    AboveTheLog(run.log, recs, held, recs[0]);
    var low, st' := recs[0].lsn, Appended(run.st, recs, segmentMaxBytes);
    DownwardDisk(run, recs, segmentMaxBytes, held);
    AppendedKeeps(run.st, recs, segmentMaxBytes);
    AllReadable(st');
    OpenReads(st'.disk, 0);
    var names := Listing(st'.disk.Keys);
    assert forall n :: n in names <==> n in st'.disk.Keys;
    ReplayedInNameOrder(st'.disk, names, 0, low, recs[0]);
    OutOfOrder(Open(st'.disk, 0).value.records, recs[0], held);
  }

  /** It happens: durable LSNs 5, 6, 7 replay as 5, 7, 6 when a torn write of LSN 9 came between. */
  lemma ReorderHappens()
    ensures AllSequential(ReuseEvents(9), 1) && RunOf(ReuseEvents(9), 1).Some?
    ensures var run := RunOf(ReuseEvents(9), 1).value;
            && run.log + [Sample(7)] == [Sample(5), Sample(6), Sample(7)]
            && Open(Appended(run.st, [Sample(7)], 1).disk, 0).Ok?
            && !Increasing(Open(Appended(run.st, [Sample(7)], 1).disk, 0).value.records)
  {
    hide RunOf, AllSequential, Appended, Open, Encoded;
    var last := ReuseRun(9);
    SampleIsEncodable(7);
    ReplayOrderIsExact(ReuseEvents(9), [Sample(7)], 1);
  }
}
