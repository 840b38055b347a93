/** Reusing a segment's name: when it harms the log, and a run that does it. */
module WalLimits {
  import opened Bytes
  import opened Records
  import opened Frames
  import opened WalLog
  import opened WalContents
  import opened WalRuns

  /** Appending `rec` would rotate onto the file of a live segment that holds records. */
  ghost predicate ReusesName(st: WalState, rec: Record, segmentMaxBytes: nat) {
    Rotates(st, segmentMaxBytes) && exists s :: s in Segments(st) && s.start == rec.lsn && s.maxLsn > 0
  }

  /** No truncation unlinks the file the log is appending to. */
  ghost predicate ActiveFileSurvives(st: WalState) {
    forall w :: st.active.start in Truncated(st, w).disk
  }

  lemma StartsInDisk(st: WalState)
    requires WalInv(st)
    ensures forall s :: s in Segments(st) ==> s.start in st.disk
    ensures DistinctStarts(Segments(st))
  {
    hide RecordsOf, MaxLsn;
    assert forall s :: s in Segments(st) ==> SegmentMatches(st.disk, s);
  }

  lemma NotReusedIsFreshOrEmpty(st: WalState, rec: Record, segmentMaxBytes: nat)
    requires WalInv(st) && rec.lsn in st.disk
    ensures exists s :: s in Segments(st) && s.start == rec.lsn
  {
    hide Clean, SegmentMatches;
  }

  /** After rotating onto an existing file, truncation unlinks it exactly when the old segment
      of that name is covered. */
  lemma ReusedFile(st: WalState, rec: Record, segmentMaxBytes: nat, s: Segment, w: nat)
    requires WalInv(st) && Rotates(st, segmentMaxBytes) && s in Segments(st) && s.start == rec.lsn
    ensures var st' := Appended(st, [rec], segmentMaxBytes);
            st'.active.start in Truncated(st', w).disk <==> !IsCovered(s, w)
  {
    hide RecordsOf, MaxLsn, Encoded, Unlinked, Clean, Covered;
    StartsInDisk(st);
    var st' := Appended(st, [rec], segmentMaxBytes);
    assert st'.sealed == Segments(st) && st'.active.start == rec.lsn;
    assert forall q :: q in st'.sealed ==> q.start in st'.disk;
    PartitionFacts(st'.sealed, w);
    StartsOfPartition(st'.sealed, w);
    UnlinkedAll(st'.disk, Covered(st'.sealed, w));
  }

  /** The exact condition: the active file outlives every truncation exactly when the append
      did not rotate onto a live segment that holds records. */
  lemma NameReuseIsExact(st: WalState, rec: Record, segmentMaxBytes: nat)
    requires WalInv(st) && Encodable(rec)
    ensures ActiveFileSurvives(Appended(st, [rec], segmentMaxBytes)) <==> !ReusesName(st, rec, segmentMaxBytes)
  {
    hide WalInv, Appended, Truncated, Encodable;
    var st' := Appended(st, [rec], segmentMaxBytes);
    if FreshName(st, [rec], segmentMaxBytes) {
      NoReuse(st, rec, segmentMaxBytes);
      AppendedKeeps(st, [rec], segmentMaxBytes);
      forall w
        ensures st'.active.start in Truncated(st', w).disk
      {
        TruncatedKeeps(st', w);
        TruncatedActive(st', w);
      }
    } else {
      NotReusedIsFreshOrEmpty(st, rec, segmentMaxBytes);
      var s :| s in Segments(st) && s.start == rec.lsn;
      StartsInDisk(st);
      if ReusesName(st, rec, segmentMaxBytes) {
        var q :| q in Segments(st) && q.start == rec.lsn && q.maxLsn > 0;
        ReusedFile(st, rec, segmentMaxBytes, q, q.maxLsn);
      } else {
        forall w
          ensures st'.active.start in Truncated(st', w).disk
        {
          ReusedFile(st, rec, segmentMaxBytes, s, w);
        }
      }
    }
  }

  lemma NoReuse(st: WalState, rec: Record, segmentMaxBytes: nat)
    requires WalInv(st) && FreshName(st, [rec], segmentMaxBytes)
    ensures !ReusesName(st, rec, segmentMaxBytes)
  {
    hide WalInv;
    StartsInDisk(st);
  }

  lemma TruncatedActive(st: WalState, w: nat)
    requires WalInv(Truncated(st, w))
    ensures st.active.start in Truncated(st, w).disk
  {
    hide Clean, Describes, Unlinked, Covered, Kept;
  }

  /** What the reuse costs: a record appended above the watermark is gone after truncation. */
  lemma NameReuseLosesRecord(st: WalState, rec: Record, segmentMaxBytes: nat, s: Segment)
    requires WalInv(st) && Encodable(rec) && Rotates(st, segmentMaxBytes)
    requires s in Segments(st) && s.start == rec.lsn && 0 < s.maxLsn < rec.lsn
    requires rec !in Bag(st.disk)
    ensures rec !in Bag(Truncated(Appended(st, [rec], segmentMaxBytes), s.maxLsn).disk)
  {
    hide RecordsOf, MaxLsn, Encoded, Unlinked, Clean, Covered, Kept, Bag;
    var st' := Appended(st, [rec], segmentMaxBytes);
    var disk := Truncated(st', s.maxLsn).disk;
    ReusedFile(st, rec, segmentMaxBytes, s, s.maxLsn);
    UnlinkedKeepsBytes(st'.disk, Covered(st'.sealed, s.maxLsn));
    BagIsFiles(disk, rec);
    BagIsFiles(st.disk, rec);
    assert forall n :: n in disk ==> n in st.disk && disk[n] == st.disk[n];
  }

  lemma BagIsFiles(disk: Disk, r: Record)
    ensures r in Bag(disk) <==> exists n :: n in disk && r in RecordsOf(disk[n])
  {
    hide RecordsOf;
    BagHas(disk, disk.Keys, r);
  }

  // ---- A run that reuses a name -------------------------------------------------------------------

  function Sample(lsn: nat): Record {
    Record([], lsn, Put, [])
  }

  lemma SampleIsEncodable(lsn: nat)
    requires lsn < U64
    ensures AllEncodable([Sample(lsn)]) && |Encoded([Sample(lsn)])| > 0
    ensures RecordsOf(Encoded([Sample(lsn)])) == [Sample(lsn)] && Clean(Encoded([Sample(lsn)]))
  {
    hide Frame, RecordsOf, Clean;
    assert Encodable(Sample(lsn));
    CleanFile([Sample(lsn)]);
  }

  /** Two writes in flight: the one with the higher LSN is logged first, rotates, and dies before
      a byte of it is written, leaving an empty file named after it. */
  function ReuseEvents(torn: nat): seq<Event> {
    [Append([Sample(5)]), Crash([Sample(torn)], 0), Append([Sample(6)])]
  }

  lemma TornRotation(run: Run, torn: nat)
    requires 6 < torn < U64 && run.st == Appended(EmptyLog, [Sample(5)], 1)
    ensures Allowed(run, Crash([Sample(torn)], 0), 1)
    ensures var st := After(run, Crash([Sample(torn)], 0), 1).st;
            && WalInv(st) && st.active.start == torn && st.activeBytes == 0 && st.disk.Keys == {0, torn}
            && RecordsOf(st.disk[torn]) == []
  {
    hide Frame, RecordsOf, Clean, Open, Readable, WalInv, Bag;
    SampleIsEncodable(5);
    SampleIsEncodable(torn);
    FirstOpen();
    AppendedKeeps(EmptyLog, [Sample(5)], 1) by { assert RunInv(Run(EmptyLog, [], 0, 0)); }
    var disk := TornAppend(run.st, [Sample(torn)], 1, 0);
    TornAppendKeeps(run.st, [Sample(torn)], 1, 0);
    assert disk.Keys == {0, torn};
    assert disk[torn] == [];
    OpenReads(disk, 0);
    OpenKeepsFiles(disk, 0);
    EncodedNone();
    CleanFile([]);
    var st := Open(disk, 0).value.wal;
    ActiveFacts(st);
    assert st.active.start == torn;
    CleanDetermined(st.disk[torn], []);
  }

  lemma ActiveFacts(st: WalState)
    requires WalInv(st)
    ensures st.active.start in st.disk && st.activeBytes == |st.disk[st.active.start]| && Clean(st.disk[st.active.start])
  {
    hide Clean, Describes;
  }

  lemma RunOfNone()
    ensures RunOf([], 1) == Some(Run(EmptyLog, [], 0, 0))
  {
  }

  lemma ReuseRun(torn: nat) returns (last: Run)
    requires 6 < torn < U64
    ensures RunOf(ReuseEvents(torn), 1) == Some(last) && last.log == [Sample(5), Sample(6)]
    ensures last.st.active == Segment(torn, 6) && Rotates(last.st, 1) && last.st.disk.Keys == {0, torn}
    ensures AllSequential(ReuseEvents(torn), 1)
  {
    hide Frame, RecordsOf, Clean, Open, Readable, WalInv, Bag, RunInv, RunOf, AllSequential;
    SampleIsEncodable(5);
    SampleIsEncodable(6);
    RunOfNone();
    assert AllSequential([], 1) by { NoneSequential(); }
    var first := Run(EmptyLog, [], 0, 0);
    var e1, e2, e3 := Append([Sample(5)]), Crash([Sample(torn)], 0), Append([Sample(6)]);
    RunOfSnoc([], e1, first, 1);
    SequentialSnoc([], e1, first, 1);
    var second := After(first, e1, 1);
    TornRotation(second, torn);
    RunOfSnoc([] + [e1], e2, second, 1);
    SequentialSnoc([] + [e1], e2, second, 1);
    var third := After(second, e2, 1);
    assert WholeFrames([Sample(torn)], 0) == 0;
    assert third.log == [Sample(5)];
    RunOfSnoc([] + [e1] + [e2], e3, third, 1);
    SequentialSnoc([] + [e1] + [e2], e3, third, 1);
    last := After(third, e3, 1);
    assert ReuseEvents(torn) == [] + [e1] + [e2] + [e3];
    TornActive(third.st, torn);
  }

  lemma NoneSequential()
    ensures AllSequential([], 1)
  {
  }

  /** A concrete run the guards allow reaches a log in which appending LSN 7 rotates onto the
      live file named 7, which holds LSN 6; truncating through 6 then loses record 7. */
  lemma NameReuseHappens()
    ensures RunOf(ReuseEvents(7), 1).Some?
    ensures var st := RunOf(ReuseEvents(7), 1).value.st;
            && ReusesName(st, Sample(7), 1) && Sample(7) !in Bag(st.disk)
            && Sample(7) !in Bag(Truncated(Appended(st, [Sample(7)], 1), 6).disk)
  {
    hide Bag, RunOf, Appended, Truncated, WalInv;
    var last := ReuseRun(7);
    NewestSegment(last.st);
    RunsKeep(ReuseEvents(7), 1);
    OnlyLogged(last, Sample(7));
    assert Encodable(Sample(7));
    NameReuseLosesRecord(last.st, Sample(7), 1, last.st.active);
  }

  lemma NewestSegment(st: WalState)
    ensures st.active in Segments(st)
  {
    assert Segments(st)[|st.sealed|] == st.active;
  }

  lemma TornActive(st: WalState, torn: nat)
    requires WalInv(st) && st.active.start == torn && st.activeBytes == 0 && RecordsOf(st.disk[torn]) == []
    ensures Appended(st, [Sample(6)], 1).disk.Keys == st.disk.Keys
    ensures Appended(st, [Sample(6)], 1).active == Segment(torn, 6)
  {
    hide RecordsOf, Encoded, Clean;
    ActiveMatches(st);
    assert [Sample(6)][..0] == [];
  }

  lemma OnlyLogged(run: Run, r: Record)
    requires RunInv(run) && r !in run.log
    ensures r !in Bag(run.st.disk)
  {
    hide WalInv, Bag;
    assert Bag(run.st.disk)[r] <= multiset(run.log)[r];
  }
}
