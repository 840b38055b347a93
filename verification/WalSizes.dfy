/** How large segments are, over whole runs. */
module WalSizes {
  import opened Bytes
  import opened Records
  import opened Frames
  import opened WalLog
  import opened WalContents
  import opened WalRuns
  import opened WalLimits

  /** The records one event put on disk. */
  function Wrote(e: Event): seq<Record> {
    match e
    case Append(recs) => recs
    case Crash(torn, written) => if written <= |Encoded(torn)| then torn[..WholeFrames(torn, written)] else []
    case _ => []
  }

  ghost predicate OneBatch(events: seq<Event>, recs: seq<Record>) {
    exists e :: e in events && Wrote(e) == recs
  }

  /** From `k` on the file is one batch, and before it the file was below the limit. */
  ghost predicate LastBatch(events: seq<Event>, recs: seq<Record>, k: nat, segmentMaxBytes: nat) {
    k < |recs| && |Encoded(recs[..k])| < segmentMaxBytes && OneBatch(events, recs[k..])
  }

  /** Without its last batch the file is below the limit. */
  ghost predicate Fits(events: seq<Event>, recs: seq<Record>, segmentMaxBytes: nat) {
    recs == [] || exists k: nat :: LastBatch(events, recs, k, segmentMaxBytes)
  }

  ghost predicate FilesFit(events: seq<Event>, disk: Disk, segmentMaxBytes: nat) {
    forall n :: n in disk ==> Fits(events, RecordsOf(disk[n]), segmentMaxBytes)
  }

  /** Every file but the active one has reached the limit. */
  predicate OthersFull(disk: Disk, active: nat, segmentMaxBytes: nat) {
    forall n :: n in disk && n != active ==> |disk[n]| >= segmentMaxBytes
  }

  lemma FitsLater(events: seq<Event>, e: Event, recs: seq<Record>, segmentMaxBytes: nat)
    requires Fits(events, recs, segmentMaxBytes)
    ensures Fits(events + [e], recs, segmentMaxBytes)
  {
    hide Encoded, Wrote;
    if recs != [] {
      var k: nat :| LastBatch(events, recs, k, segmentMaxBytes);
      var q :| q in events && Wrote(q) == recs[k..];
      assert q in events + [e];
      assert LastBatch(events + [e], recs, k, segmentMaxBytes);
    }
  }

  lemma GrownFits(events: seq<Event>, e: Event, held: seq<Record>, segmentMaxBytes: nat)
    requires Fits(events, held, segmentMaxBytes) && (Wrote(e) != [] ==> |Encoded(held)| < segmentMaxBytes)
    ensures Fits(events + [e], held + Wrote(e), segmentMaxBytes)
  {
    hide Encoded, Wrote;
    if Wrote(e) == [] {
      assert held + Wrote(e) == held;
      FitsLater(events, e, held, segmentMaxBytes);
    } else {
      var recs := held + Wrote(e);
      assert recs[..|held|] == held && recs[|held|..] == Wrote(e);
      assert e in events + [e];
      assert LastBatch(events + [e], recs, |held|, segmentMaxBytes);
    }
  }

  lemma CleanSize(bytes: seq<byte>)
    requires Clean(bytes)
    ensures |bytes| == |Encoded(RecordsOf(bytes))|
  {
  }

  /** Writing part of a batch through the ready log. */
  lemma BatchFits(events: seq<Event>, e: Event, st: WalState, recs: seq<Record>, disk: Disk, segmentMaxBytes: nat)
    requires WalInv(st) && recs != [] && FreshName(st, recs, segmentMaxBytes) && segmentMaxBytes > 0
    requires FilesFit(events, st.disk, segmentMaxBytes) && OthersFull(st.disk, st.active.start, segmentMaxBytes)
    requires var ready := Ready(st, recs, segmentMaxBytes); var name := ready.active.start;
             && name in ready.disk && name in disk && disk == ready.disk[name := disk[name]]
             && RecordsOf(disk[name]) == RecordsOf(ready.disk[name]) + Wrote(e)
    ensures FilesFit(events + [e], disk, segmentMaxBytes)
    ensures OthersFull(disk, Ready(st, recs, segmentMaxBytes).active.start, segmentMaxBytes)
  {
    hide RecordsOf, Clean, Wrote, Encoded, Fits, Describes;
    var ready := Ready(st, recs, segmentMaxBytes);
    var name := ready.active.start;
    EncodedNone();
    CleanFile([]);
    assert Fits(events, [], segmentMaxBytes) by { NothingFits(events, segmentMaxBytes); }
    if !Rotates(st, segmentMaxBytes) {
      CleanSize(st.disk[name]);
    }
    GrownFits(events, e, RecordsOf(ready.disk[name]), segmentMaxBytes);
    forall n | n in disk
      ensures Fits(events + [e], RecordsOf(disk[n]), segmentMaxBytes)
    {
      if n != name {
        FitsLater(events, e, RecordsOf(disk[n]), segmentMaxBytes);
      }
    }
  }

  lemma NothingFits(events: seq<Event>, segmentMaxBytes: nat)
    ensures Fits(events, [], segmentMaxBytes)
  {
  }

  /** An open leaves every file's records, and sealed files were whole already. */
  lemma ReopenedSizes(events: seq<Event>, disk: Disk, st: WalState, active: nat, segmentMaxBytes: nat)
    requires WalInv(st) && st.disk.Keys == disk.Keys && FilesFit(events, disk, segmentMaxBytes)
    requires forall n :: n in disk ==> RecordsOf(st.disk[n]) == RecordsOf(disk[n])
    requires OthersFull(disk, active, segmentMaxBytes) && forall n :: n in disk && n != active ==> Clean(disk[n])
    ensures FilesFit(events, st.disk, segmentMaxBytes) && OthersFull(st.disk, active, segmentMaxBytes)
  {
    hide RecordsOf, Clean, Fits, Describes;
    forall n | n in st.disk && n != active
      ensures |st.disk[n]| >= segmentMaxBytes
    {
      CleanSize(st.disk[n]);
      CleanSize(disk[n]);
    }
  }

  ghost predicate SizesInv(events: seq<Event>, run: Run, segmentMaxBytes: nat) {
    FilesFit(events, run.st.disk, segmentMaxBytes) && OthersFull(run.st.disk, run.st.active.start, segmentMaxBytes)
  }

  lemma AppendSizes(events: seq<Event>, run: Run, recs: seq<Record>, segmentMaxBytes: nat)
    requires RunInv(run) && SizesInv(events, run, segmentMaxBytes) && segmentMaxBytes > 0
    requires Allowed(run, Append(recs), segmentMaxBytes)
    ensures SizesInv(events + [Append(recs)], After(run, Append(recs), segmentMaxBytes), segmentMaxBytes)
  {
    hide WalInv, RecordsOf, AllEncodable, Bag, TornAppend, Ready, Appended, FreshName, Encoded, WholeFrames,
      FilesFit, OthersFull;
    GrownFile(run.st, recs, segmentMaxBytes, |Encoded(recs)|);
    AppendedIsWhole(run.st, recs, segmentMaxBytes);
    BatchFits(events, Append(recs), run.st, recs, Appended(run.st, recs, segmentMaxBytes).disk, segmentMaxBytes);
  }

  lemma CrashSizes(events: seq<Event>, run: Run, torn: seq<Record>, written: nat, segmentMaxBytes: nat)
    requires RunInv(run) && SequentialInv(run) && SizesInv(events, run, segmentMaxBytes) && segmentMaxBytes > 0
    requires Sequential(run, Crash(torn, written), segmentMaxBytes) && Allowed(run, Crash(torn, written), segmentMaxBytes)
    ensures SizesInv(events + [Crash(torn, written)], After(run, Crash(torn, written), segmentMaxBytes), segmentMaxBytes)
  {
    hide WalInv, RecordsOf, AllEncodable, Bag, FreshName, Encoded, WholeFrames, FilesFit, OthersFull, Ordered,
      Increasing, Readable, Open, Clean, TornAppend, Ready, RotatesUpward;
    var e, ready := Crash(torn, written), Ready(run.st, torn, segmentMaxBytes);
    var disk := TornAppend(run.st, torn, segmentMaxBytes, written);
    GrownFile(run.st, torn, segmentMaxBytes, written);
    BatchFits(events, e, run.st, torn, disk, segmentMaxBytes);
    TornAppendKeeps(run.st, torn, segmentMaxBytes, written);
    ReadyOrder(run, torn, segmentMaxBytes);
    OpenKeepsFiles(disk, 0);
    OpenReads(disk, 0);
    var st := Open(disk, 0).value.wal;
    ActiveFacts(st);
    assert st.active.start == ready.active.start;
    ReopenedSizes(events + [e], disk, st, ready.active.start, segmentMaxBytes);
  }

  lemma ReadyOrder(run: Run, recs: seq<Record>, segmentMaxBytes: nat)
    requires WalInv(run.st) && SequentialInv(run) && recs != [] && RotatesUpward(run, recs, segmentMaxBytes)
    ensures var ready := Ready(run.st, recs, segmentMaxBytes);
            && (forall n :: n in ready.disk ==> n <= ready.active.start)
            && (forall n :: n in ready.disk && n != ready.active.start ==> Clean(ready.disk[n]))
  {
    hide Ordered, Increasing, Clean, Describes;
  }

  lemma StepSizes(events: seq<Event>, run: Run, e: Event, segmentMaxBytes: nat)
    requires RunInv(run) && SequentialInv(run) && SizesInv(events, run, segmentMaxBytes) && segmentMaxBytes > 0
    requires Sequential(run, e, segmentMaxBytes) && Allowed(run, e, segmentMaxBytes)
    ensures SizesInv(events + [e], After(run, e, segmentMaxBytes), segmentMaxBytes)
  {
    hide RecordsOf, Bag, Ordered, Increasing, Readable, Open, Describes, Clean, Fits, Wrote, WalLog.Truncated,
      FreshName, Encoded, AllEncodable, Continues, RotatesUpward, SizesInv;
    match e
    case Append(recs) => AppendSizes(events, run, recs, segmentMaxBytes);
    case Crash(torn, written) => CrashSizes(events, run, torn, written, segmentMaxBytes);
    case Truncate(watermark) => TruncateSizes(events, run, watermark, segmentMaxBytes);
    case Reopen => ReopenSizes(events, run, segmentMaxBytes);
  }

  lemma TruncateSizes(events: seq<Event>, run: Run, watermark: nat, segmentMaxBytes: nat)
    requires SizesInv(events, run, segmentMaxBytes)
    ensures SizesInv(events + [Truncate(watermark)], After(run, Truncate(watermark), segmentMaxBytes), segmentMaxBytes)
  {
    hide RecordsOf, Fits, Unlinked, Covered, Kept;
    UnlinkedKeepsBytes(run.st.disk, Covered(run.st.sealed, watermark));
    forall n | n in Truncated(run.st, watermark).disk
      ensures Fits(events + [Truncate(watermark)], RecordsOf(run.st.disk[n]), segmentMaxBytes)
    {
      FitsLater(events, Truncate(watermark), RecordsOf(run.st.disk[n]), segmentMaxBytes);
    }
  }

  lemma ReopenSizes(events: seq<Event>, run: Run, segmentMaxBytes: nat)
    requires RunInv(run) && SequentialInv(run) && SizesInv(events, run, segmentMaxBytes)
    ensures SizesInv(events + [Reopen], After(run, Reopen, segmentMaxBytes), segmentMaxBytes)
  {
    hide RecordsOf, Fits, Bag, Ordered, Increasing, Readable, Open, Describes, Clean;
    AllReadable(run.st);
    OpenKeepsFiles(run.st.disk, 0);
    OpenReads(run.st.disk, 0);
    var st := Open(run.st.disk, 0).value.wal;
    ActiveFacts(st);
    ActiveFacts(run.st);
    assert st.active.start == run.st.active.start;
    forall n | n in run.st.disk
      ensures Fits(events + [Reopen], RecordsOf(run.st.disk[n]), segmentMaxBytes)
    {
      FitsLater(events, Reopen, RecordsOf(run.st.disk[n]), segmentMaxBytes);
    }
    ReopenedSizes(events + [Reopen], run.st.disk, st, st.active.start, segmentMaxBytes);
  }

  lemma {:induction false} RunsKeepSizes(events: seq<Event>, segmentMaxBytes: nat)
    requires segmentMaxBytes > 0 && AllSequential(events, segmentMaxBytes) && RunOf(events, segmentMaxBytes).Some?
    ensures SizesInv(events, RunOf(events, segmentMaxBytes).value, segmentMaxBytes)
  {
    hide RunInv, SequentialInv, SizesInv, After, Allowed, Sequential;
    if events == [] {
      FirstSizes(segmentMaxBytes);
    } else {
      var init, e := events[..|events| - 1], events[|events| - 1];
      RunsKeepSizes(init, segmentMaxBytes);
      SequentialRunsKeep(init, segmentMaxBytes);
      StepSizes(init, RunOf(init, segmentMaxBytes).value, e, segmentMaxBytes);
      assert init + [e] == events;
    }
  }

  lemma FirstSizes(segmentMaxBytes: nat)
    ensures SizesInv([], Run(EmptyLog, [], 0, 0), segmentMaxBytes)
  {
    EncodedNone();
    CleanFile([]);
    assert RecordsOf(EmptyLog.disk[0]) == [];
  }

  /** Over any run whose rotations go upward, every sealed segment's file holds at least the
      limit, and less than the limit without its last batch; so does the active file without
      its last batch. */
  lemma SegmentsFillUp(events: seq<Event>, segmentMaxBytes: nat)
    requires segmentMaxBytes > 0 && AllSequential(events, segmentMaxBytes) && RunOf(events, segmentMaxBytes).Some?
    ensures var st := RunOf(events, segmentMaxBytes).value.st;
            && (forall s :: s in st.sealed ==> s.start in st.disk && |st.disk[s.start]| >= segmentMaxBytes)
            && (forall n :: n in st.disk ==> Fits(events, RecordsOf(st.disk[n]), segmentMaxBytes))
            && (forall n :: n in st.disk ==> |st.disk[n]| == |Encoded(RecordsOf(st.disk[n]))|)
  {
    hide RecordsOf, Fits, Bag, SequentialInv, AllSequential, RunOf, Encoded;
    RunsKeepSizes(events, segmentMaxBytes);
    SequentialRunsKeep(events, segmentMaxBytes);
    var st := RunOf(events, segmentMaxBytes).value.st;
    StartsInDisk(st);
    forall s | s in st.sealed
      ensures s.start in st.disk && |st.disk[s.start]| >= segmentMaxBytes
    {
      assert s in Segments(st);
      var i :| 0 <= i < |st.sealed| && st.sealed[i] == s;
      assert Segments(st)[i] == s && Segments(st)[|st.sealed|] == st.active;
    }
    forall n | n in st.disk
      ensures |st.disk[n]| == |Encoded(RecordsOf(st.disk[n]))|
    {
      CleanSize(st.disk[n]);
    }
  }
}
