/** What the log holds: the records on disk, and how each operation changes them. */
module WalContents {
  import opened Bytes
  import opened Records
  import opened Frames
  import opened WalLog

  function RecordsOf(bytes: seq<byte>): seq<Record> {
    match Replay(bytes)
    case Ok(log) => log.records
    case Err(_) => []
  }

  /** A file that is a run of whole frames. */
  predicate Clean(bytes: seq<byte>) {
    AllEncodable(RecordsOf(bytes)) && bytes == Encoded(RecordsOf(bytes))
  }

  /** A file that is a run of whole frames and perhaps a torn tail. */
  predicate Readable(bytes: seq<byte>) {
    var recs := RecordsOf(bytes);
    && AllEncodable(recs)
    && Replay(bytes) == Ok(SegmentLog(recs, |Encoded(recs)|))
    && Encoded(recs) <= bytes
  }

  lemma CleanFile(recs: seq<Record>)
    requires AllEncodable(recs)
    ensures Clean(Encoded(recs)) && RecordsOf(Encoded(recs)) == recs
  {
    ReplayOfWhole(recs);
  }

  lemma CleanIsReadable(bytes: seq<byte>)
    requires Clean(bytes)
    ensures Readable(bytes)
  {
    ReplayOfWhole(RecordsOf(bytes));
  }

  lemma RepairedIsClean(bytes: seq<byte>)
    requires Readable(bytes)
    ensures Replay(bytes).Ok? && var good := bytes[..Replay(bytes).value.goodBytes];
            Clean(good) && RecordsOf(good) == RecordsOf(bytes)
  {
    hide Encoded, Replay;
    var recs := RecordsOf(bytes);
    CleanFile(recs);
    assert bytes[..|Encoded(recs)|] == Encoded(recs);
  }

  lemma AppendToClean(bytes: seq<byte>, recs: seq<Record>)
    requires Clean(bytes) && AllEncodable(recs)
    ensures Clean(bytes + Encoded(recs)) && RecordsOf(bytes + Encoded(recs)) == RecordsOf(bytes) + recs
  {
    EncodedConcat(RecordsOf(bytes), recs);
    CleanFile(RecordsOf(bytes) + recs);
  }

  lemma TearAfterClean(bytes: seq<byte>, recs: seq<Record>, n: nat)
    requires Clean(bytes) && AllEncodable(recs) && n <= |Encoded(recs)|
    ensures Readable(bytes + Encoded(recs)[..n])
    ensures RecordsOf(bytes + Encoded(recs)[..n]) == RecordsOf(bytes) + recs[..WholeFrames(recs, n)]
  {
    hide Encoded, Replay, WholeFrames;
    var before := RecordsOf(bytes);
    var k := WholeFrames(recs, n);
    EncodedConcat(before, recs);
    ReplayOfPrefix(before + recs, |bytes| + n);
    assert Encoded(before + recs)[..|bytes| + n] == bytes + Encoded(recs)[..n];
    WholeFramesAfter(before, recs, n);
    assert (before + recs)[..|before| + k] == before + recs[..k];
    EncodedConcat(before, recs[..k]);
    EncodedPrefix(recs, k);
    WholeFramesExact(recs, n);
  }

  lemma {:induction false} WholeFramesAfter(a: seq<Record>, b: seq<Record>, n: nat)
    ensures WholeFrames(a + b, |Encoded(a)| + n) == |a| + WholeFrames(b, n)
  {
    hide Frame;
    if a == [] {
      assert a + b == b;
    } else {
      WholeFramesAfter(a[1..], b, n);
      assert (a + b)[1..] == a[1..] + b;
    }
  }

  // ---- The bag of records on disk ------------------------------------------------------

  ghost function BagOver(disk: Disk, names: set<nat>): multiset<Record>
    requires names <= disk.Keys
  {
    if names == {} then multiset{}
    else
      var n :| n in names;
      BagOver(disk, names - {n}) + multiset(RecordsOf(disk[n]))
  }

  /** Every record in the directory, with multiplicity. */
  ghost function Bag(disk: Disk): multiset<Record> {
    BagOver(disk, disk.Keys)
  }

  lemma {:induction false} BagSplit(disk: Disk, names: set<nat>, n: nat)
    requires names <= disk.Keys && n in names
    ensures BagOver(disk, names) == BagOver(disk, names - {n}) + multiset(RecordsOf(disk[n]))
    decreases names
  {
    hide RecordsOf;
    var p :| p in names && BagOver(disk, names) == BagOver(disk, names - {p}) + multiset(RecordsOf(disk[p]));
    if p != n {
      BagSplit(disk, names - {p}, n);
      BagSplit(disk, names - {n}, p);
      assert names - {p} - {n} == names - {n} - {p};
    }
  }

  lemma {:induction false} BagAgree(a: Disk, b: Disk, names: set<nat>)
    requires names <= a.Keys && names <= b.Keys
    requires forall n :: n in names ==> RecordsOf(a[n]) == RecordsOf(b[n])
    ensures BagOver(a, names) == BagOver(b, names)
    decreases names
  {
    hide RecordsOf;
    if names != {} {
      var n :| n in names;
      BagAgree(a, b, names - {n});
      BagSplit(a, names, n);
      BagSplit(b, names, n);
    }
  }

  lemma {:induction false} BagHas(disk: Disk, names: set<nat>, r: Record)
    requires names <= disk.Keys
    ensures r in BagOver(disk, names) <==> exists n :: n in names && r in RecordsOf(disk[n])
    decreases names
  {
    hide RecordsOf;
    if names != {} {
      var n :| n in names && BagOver(disk, names) == BagOver(disk, names - {n}) + multiset(RecordsOf(disk[n]));
      BagHas(disk, names - {n}, r);
      if m :| m in names && r in RecordsOf(disk[m]) {
        assert m == n || m in names - {n};
      }
    }
  }

  lemma BagUpdate(disk: Disk, n: nat, bytes: seq<byte>, extra: seq<Record>)
    requires RecordsOf(bytes) == (if n in disk then RecordsOf(disk[n]) else []) + extra
    ensures Bag(disk[n := bytes]) == Bag(disk) + multiset(extra)
  {
    hide RecordsOf;
    var disk' := disk[n := bytes];
    var others := disk.Keys - {n};
    assert disk'.Keys - {n} == others;
    BagSplit(disk', disk'.Keys, n);
    BagAgree(disk, disk', others);
    if n in disk {
      BagSplit(disk, disk.Keys, n);
    } else {
      assert disk.Keys == others;
    }
  }

  lemma BagRemove(disk: Disk, n: nat)
    requires n in disk
    ensures Bag(disk) == Bag(disk - {n}) + multiset(RecordsOf(disk[n]))
  {
    hide RecordsOf;
    var disk' := disk - {n};
    assert disk'.Keys == disk.Keys - {n};
    BagSplit(disk, disk.Keys, n);
    BagAgree(disk, disk', disk'.Keys);
  }

  // ---- The log's invariant ----------------------------------------------------------------

  function Segments(st: WalState): seq<Segment> {
    st.sealed + [st.active]
  }

  predicate SegmentMatches(disk: Disk, seg: Segment) {
    seg.start in disk && seg.maxLsn == MaxLsn(RecordsOf(disk[seg.start]))
  }

  ghost predicate DistinctStarts(segs: seq<Segment>) {
    forall i, j :: 0 <= i < j < |segs| ==> segs[i].start != segs[j].start
  }

  /** One segment per file, one file per segment, every cached maximum exact. */
  ghost predicate Describes(segs: seq<Segment>, disk: Disk) {
    && (forall s :: s in segs ==> SegmentMatches(disk, s))
    && DistinctStarts(segs)
    && (forall n :: n in disk ==> exists s :: s in segs && s.start == n)
  }

  ghost predicate WalInv(st: WalState) {
    && (forall n :: n in st.disk ==> Clean(st.disk[n]))
    && Describes(Segments(st), st.disk)
    && st.active.start in st.disk
    && st.activeBytes == |st.disk[st.active.start]|
  }

  lemma SameStart(segs: seq<Segment>, s: Segment, t: Segment)
    requires DistinctStarts(segs) && s in segs && t in segs && s.start == t.start
    ensures s == t
  {
    var i :| 0 <= i < |segs| && segs[i] == s;
    var j :| 0 <= j < |segs| && segs[j] == t;
    assert !(i < j) && !(j < i);
  }

  lemma SnocMembers(segs: seq<Segment>, last: Segment)
    ensures forall s :: s in segs + [last] <==> s in segs || s == last
    ensures DistinctStarts(segs + [last]) <==> DistinctStarts(segs) && forall s :: s in segs ==> s.start != last.start
  {
    var all := segs + [last];
    if DistinctStarts(all) {
      assert forall i, j :: 0 <= i < j < |segs| ==> segs[i] == all[i] && segs[j] == all[j];
      forall s | s in segs
        ensures s.start != last.start
      {
        var i :| 0 <= i < |segs| && segs[i] == s;
        assert all[i].start != all[|segs|].start;
      }
    }
  }

  lemma DescribesSnoc(segs: seq<Segment>, disk: Disk, next: nat, bytes: seq<byte>)
    requires Describes(segs, disk) && next !in disk
    ensures Describes(segs + [Segment(next, MaxLsn(RecordsOf(bytes)))], disk[next := bytes])
  {
    hide RecordsOf, MaxLsn, DistinctStarts;
    var last, disk' := Segment(next, MaxLsn(RecordsOf(bytes))), disk[next := bytes];
    SnocMembers(segs, last);
    assert forall s :: s in segs ==> SegmentMatches(disk, s);
    forall n | n in disk'
      ensures exists s :: s in segs + [last] && s.start == n
    {
      if n == next {
        assert last in segs + [last];
      } else {
        var s :| s in segs && s.start == n;
        assert s in segs + [last];
      }
    }
  }

  lemma DescribesLast(init: seq<Segment>, last: Segment, disk: Disk, bytes: seq<byte>)
    requires Describes(init + [last], disk)
    ensures Describes(init + [last.(maxLsn := MaxLsn(RecordsOf(bytes)))], disk[last.start := bytes])
  {
    hide RecordsOf, MaxLsn, DistinctStarts;
    var last' := last.(maxLsn := MaxLsn(RecordsOf(bytes)));
    var disk' := disk[last.start := bytes];
    SnocMembers(init, last);
    SnocMembers(init, last');
    assert SegmentMatches(disk, last);
    assert forall s :: s in init ==> SegmentMatches(disk, s);
    forall n | n in disk'
      ensures exists s :: s in init + [last'] && s.start == n
    {
      var s :| s in init + [last] && s.start == n;
      assert s == last || s in init;
      assert (if s == last then last' else s) in init + [last'];
    }
  }

  /** A rotation must not reuse the name of a live segment. */
  predicate FreshName(st: WalState, recs: seq<Record>, segmentMaxBytes: nat)
    requires recs != []
  {
    Rotates(st, segmentMaxBytes) ==> recs[0].lsn !in st.disk
  }

  lemma RotatedKeeps(st: WalState, next: nat)
    requires WalInv(st) && next !in st.disk
    ensures WalInv(Rotated(st, next)) && Bag(Rotated(st, next).disk) == Bag(st.disk)
  {
    hide RecordsOf, Clean, Describes;
    EncodedNone();
    CleanFile([]);
    BagUpdate(st.disk, next, [], []);
    DescribesSnoc(Segments(st), st.disk, next, []);
  }

  lemma ReadyKeeps(st: WalState, recs: seq<Record>, segmentMaxBytes: nat)
    requires WalInv(st) && recs != [] && FreshName(st, recs, segmentMaxBytes)
    ensures WalInv(Ready(st, recs, segmentMaxBytes)) && Bag(Ready(st, recs, segmentMaxBytes).disk) == Bag(st.disk)
  {
    if Rotates(st, segmentMaxBytes) {
      RotatedKeeps(st, recs[0].lsn);
    }
  }

  /** An append adds exactly its records to the disk and keeps the invariant. */
  lemma AppendedKeeps(st: WalState, recs: seq<Record>, segmentMaxBytes: nat)
    requires WalInv(st) && recs != [] && AllEncodable(recs) && FreshName(st, recs, segmentMaxBytes)
    ensures WalInv(Appended(st, recs, segmentMaxBytes))
    ensures Bag(Appended(st, recs, segmentMaxBytes).disk) == Bag(st.disk) + multiset(recs)
  {
    hide Encoded, RecordsOf, AllEncodable, Describes, Clean, MaxLsn, Ready;
    ReadyKeeps(st, recs, segmentMaxBytes);
    var ready := Ready(st, recs, segmentMaxBytes);
    var st' := Appended(st, recs, segmentMaxBytes);
    var name := ready.active.start;
    AppendToClean(ready.disk[name], recs);
    MaxLsnConcat(RecordsOf(ready.disk[name]), recs);
    BagUpdate(ready.disk, name, st'.disk[name], recs);
    ActiveMatches(ready);
    DescribesLast(ready.sealed, ready.active, ready.disk, st'.disk[name]);
  }

  lemma ActiveMatches(st: WalState)
    requires WalInv(st)
    ensures SegmentMatches(st.disk, st.active)
  {
    SnocMembers(st.sealed, st.active);
  }

  /** A torn append leaves every file readable and keeps exactly the records whose frames
      were written whole. */
  lemma TornAppendKeeps(st: WalState, recs: seq<Record>, segmentMaxBytes: nat, n: nat)
    requires WalInv(st) && recs != [] && AllEncodable(recs) && FreshName(st, recs, segmentMaxBytes)
    requires n <= |Encoded(recs)|
    ensures var disk := TornAppend(st, recs, segmentMaxBytes, n);
            && (forall f :: f in disk ==> Readable(disk[f]))
            && Bag(disk) == Bag(st.disk) + multiset(recs[..WholeFrames(recs, n)])
  {
    hide Encoded, RecordsOf, AllEncodable, WholeFrames, Readable, Clean;
    ReadyKeeps(st, recs, segmentMaxBytes);
    var ready := Ready(st, recs, segmentMaxBytes);
    var disk := TornAppend(st, recs, segmentMaxBytes, n);
    var name := ready.active.start;
    TearAfterClean(ready.disk[name], recs, n);
    BagUpdate(ready.disk, name, disk[name], recs[..WholeFrames(recs, n)]);
    forall f | f in disk
      ensures Readable(disk[f])
    {
      if f != name {
        CleanIsReadable(disk[f]);
      }
    }
  }

  // ---- Truncation ----------------------------------------------------------------------------

  ghost function Starts(segs: seq<Segment>): set<nat> {
    set i | 0 <= i < |segs| :: segs[i].start
  }

  lemma {:induction false} PartitionFacts(segs: seq<Segment>, w: nat)
    requires DistinctStarts(segs)
    ensures forall s :: s in Covered(segs, w) <==> s in segs && IsCovered(s, w)
    ensures forall s :: s in Kept(segs, w) <==> s in segs && !IsCovered(s, w)
    ensures DistinctStarts(Covered(segs, w)) && DistinctStarts(Kept(segs, w))
  {
    if segs != [] {
      var rest := segs[1..];
      assert forall s :: s in segs <==> s == segs[0] || s in rest;
      PartitionFacts(rest, w);
      assert forall s :: s in rest ==> s.start != segs[0].start;
      DistinctCons(segs[0], Covered(rest, w));
      DistinctCons(segs[0], Kept(rest, w));
      assert [] + Covered(rest, w) == Covered(rest, w) && [] + Kept(rest, w) == Kept(rest, w);
    }
  }

  lemma DistinctCons(seg: Segment, segs: seq<Segment>)
    ensures DistinctStarts(segs) && (forall s :: s in segs ==> s.start != seg.start) ==> DistinctStarts([seg] + segs)
    ensures forall s :: s in [seg] + segs <==> s == seg || s in segs
  {
  }

  lemma {:induction false} UnlinkedAll(disk: Disk, segs: seq<Segment>)
    requires DistinctStarts(segs) && forall s :: s in segs ==> s.start in disk
    ensures Unlinked(disk, segs) == (disk - Starts(segs), true)
  {
    if segs == [] {
      assert Starts(segs) == {};
      assert disk - {} == disk;
    } else {
      var rest := segs[1..];
      assert forall s :: s in rest ==> s in segs;
      assert forall s :: s in rest ==> s.start != segs[0].start;
      UnlinkedAll(disk - {segs[0].start}, rest);
      assert Starts(segs) == {segs[0].start} + Starts(rest) by {
        assert forall i :: 0 <= i < |rest| ==> rest[i] == segs[i + 1];
        assert forall i :: 0 < i < |segs| ==> segs[i] == rest[i - 1];
      }
      assert (disk - {segs[0].start}) - Starts(rest) == disk - Starts(segs);
    }
  }

  lemma {:induction false} BagDrop(disk: Disk, gone: set<nat>, w: nat)
    requires gone <= disk.Keys
    requires forall n :: n in gone ==> forall r :: r in RecordsOf(disk[n]) ==> r.lsn <= w
    ensures forall r :: Bag(disk - gone)[r] <= Bag(disk)[r]
    ensures forall r: Record :: r.lsn > w ==> Bag(disk - gone)[r] == Bag(disk)[r]
    decreases gone
  {
    hide RecordsOf, Bag;
    if gone == {} {
      assert disk - gone == disk;
    } else {
      var n :| n in gone;
      BagDrop(disk, gone - {n}, w);
      var before := disk - (gone - {n});
      BagRemove(before, n);
      assert before - {n} == disk - gone;
    }
  }

  /** The file holds a record above the watermark, or none with an LSN at all. */
  ghost predicate IsNeeded(bytes: seq<byte>, w: nat) {
    || (exists r :: r in RecordsOf(bytes) && r.lsn > w)
    || forall r :: r in RecordsOf(bytes) ==> r.lsn == 0
  }

  lemma CoveredIsUnneeded(disk: Disk, s: Segment, w: nat)
    requires SegmentMatches(disk, s)
    ensures IsCovered(s, w) <==> !IsNeeded(disk[s.start], w)
  {
    hide RecordsOf, MaxLsn;
    var recs := RecordsOf(disk[s.start]);
    MaxLsnBounds(recs);
    if s.maxLsn > 0 {
      var i :| 0 <= i < |recs| && recs[i].lsn == s.maxLsn;
      assert recs[i] in recs;
    }
  }

  /** Every sealed segment still has its file, and the file is still needed. */
  ghost predicate LeavesOnlyNeeded(st: WalState, w: nat) {
    forall s :: s in st.sealed ==> s.start in st.disk && IsNeeded(st.disk[s.start], w)
  }

  /** After truncation no sealed file is left that the watermark covers. */
  lemma TruncationLeaves(st: WalState, w: nat)
    requires WalInv(st)
    ensures LeavesOnlyNeeded(Truncated(st, w), w)
  {
    hide RecordsOf, IsNeeded, Bag, Clean, Covered, Kept, Unlinked;
    TruncatedKeeps(st, w);
    SnocMembers(st.sealed, st.active);
    PartitionFacts(st.sealed, w);
    UnlinkedKeepsBytes(st.disk, Covered(st.sealed, w));
  }

  lemma {:induction false} UnlinkedKeepsBytes(disk: Disk, segs: seq<Segment>)
    ensures forall n :: n in Unlinked(disk, segs).0 ==> n in disk && Unlinked(disk, segs).0[n] == disk[n]
  {
    if segs != [] && segs[0].start in disk {
      UnlinkedKeepsBytes(disk - {segs[0].start}, segs[1..]);
    }
  }

  /** Truncation unlinks exactly the sealed segments it covers, and with them no record above
      the watermark. */
  lemma TruncatedKeeps(st: WalState, w: nat)
    requires WalInv(st)
    ensures Unlinked(st.disk, Covered(st.sealed, w)).1
    ensures WalInv(Truncated(st, w))
    ensures forall r :: Bag(Truncated(st, w).disk)[r] <= Bag(st.disk)[r]
    ensures forall r: Record :: r.lsn > w ==> Bag(Truncated(st, w).disk)[r] == Bag(st.disk)[r]
    ensures forall s :: s in st.sealed ==> (s.start in Truncated(st, w).disk <==> !IsCovered(s, w))
    ensures forall s :: s in st.sealed ==>
              s.start in st.disk && (s.start in Truncated(st, w).disk <==> IsNeeded(st.disk[s.start], w))
  {
    hide RecordsOf, IsNeeded, Bag, Clean, Covered, Kept, Unlinked;
    var gone := Covered(st.sealed, w);
    SnocMembers(st.sealed, st.active);
    PartitionFacts(st.sealed, w);
    UnlinkedAll(st.disk, gone);
    StartsOfPartition(st.sealed, w);
    forall n | n in Starts(gone)
      ensures n in st.disk && forall r :: r in RecordsOf(st.disk[n]) ==> r.lsn <= w
    {
      var i :| 0 <= i < |gone| && gone[i].start == n;
      assert gone[i] in gone;
      assert SegmentMatches(st.disk, gone[i]);
      MaxLsnBounds(RecordsOf(st.disk[n]));
    }
    BagDrop(st.disk, Starts(gone), w);
    KeptDescribes(st, w);
    forall s | s in st.sealed
      ensures s.start in st.disk && (IsCovered(s, w) <==> !IsNeeded(st.disk[s.start], w))
    {
      assert s in Segments(st);
      assert SegmentMatches(st.disk, s);
      CoveredIsUnneeded(st.disk, s, w);
    }
  }

  lemma DescribesDrop(segs: seq<Segment>, disk: Disk, i: nat)
    requires Describes(segs, disk) && i < |segs|
    ensures Describes(segs[..i] + segs[i + 1..], disk - {segs[i].start})
  {
    hide RecordsOf, MaxLsn;
    var rest, disk' := segs[..i] + segs[i + 1..], disk - {segs[i].start};
    assert forall j :: 0 <= j < |rest| ==> rest[j] == segs[if j < i then j else j + 1];
    forall s | s in rest
      ensures SegmentMatches(disk', s)
    {
      var j :| 0 <= j < |rest| && rest[j] == s;
      assert SegmentMatches(disk, segs[if j < i then j else j + 1]);
    }
    forall n | n in disk'
      ensures exists s :: s in rest && s.start == n
    {
      var j :| 0 <= j < |segs| && segs[j].start == n;
      assert rest[if j < i then j else j - 1] == segs[j];
    }
  }

  lemma {:induction false} RestIsCovered(segs: seq<Segment>, w: nat)
    requires Covered(segs, w) != []
    ensures var i := FirstCovered(segs, w);
            && Covered(segs[..i] + segs[i + 1..], w) == Covered(segs, w)[1..]
            && Kept(segs[..i] + segs[i + 1..], w) == Kept(segs, w)
  {
    var i := FirstCovered(segs, w);
    var rest := segs[..i] + segs[i + 1..];
    if i == 0 {
      assert rest == segs[1..];
    } else {
      RestIsCovered(segs[1..], w);
      assert rest == [segs[0]] + (segs[1..][..i - 1] + segs[1..][i..]);
      assert rest[1..] == segs[1..][..i - 1] + segs[1..][i..];
    }
  }

  /** Each single unlink of a truncation keeps the log's invariant and every record above the
      watermark, and the rest of the truncation ends where the whole would have. */
  lemma UnlinkedFirstKeeps(st: WalState, w: nat)
    requires WalInv(st) && Covered(st.sealed, w) != []
    ensures var st' := UnlinkedFirst(st, w);
            && WalInv(st')
            && (forall r :: Bag(st'.disk)[r] <= Bag(st.disk)[r])
            && (forall r: Record :: r.lsn > w ==> Bag(st'.disk)[r] == Bag(st.disk)[r])
            && Truncated(st', w) == Truncated(st, w)
  {
    hide RecordsOf, Bag, Clean, Covered, Kept, Describes, FirstCovered;
    var i, st' := FirstCovered(st.sealed, w), UnlinkedFirst(st, w);
    var seg := st.sealed[i];
    assert Segments(st)[i] == seg;
    DescribesDrop(Segments(st), st.disk, i);
    assert Segments(st') == Segments(st)[..i] + Segments(st)[i + 1..];
    DescribesAt(Segments(st), st.disk, i);
    ActiveIsOther(st, i);
    MaxLsnBounds(RecordsOf(st.disk[seg.start]));
    BagRemove(st.disk, seg.start);
    RestIsCovered(st.sealed, w);
    UnlinkedCons(st.disk, Covered(st.sealed, w));
  }

  lemma UnlinkedCons(disk: Disk, segs: seq<Segment>)
    requires segs != [] && segs[0].start in disk
    ensures Unlinked(disk, segs) == Unlinked(disk - {segs[0].start}, segs[1..])
  {
  }

  lemma DescribesAt(segs: seq<Segment>, disk: Disk, i: nat)
    requires Describes(segs, disk) && i < |segs|
    ensures SegmentMatches(disk, segs[i])
  {
    hide RecordsOf, MaxLsn;
    assert segs[i] in segs;
  }

  lemma ActiveIsOther(st: WalState, i: nat)
    requires Describes(Segments(st), st.disk) && i < |st.sealed|
    ensures st.sealed[i].start != st.active.start
  {
    var segs := Segments(st);
    assert segs[i] == st.sealed[i] && segs[|st.sealed|] == st.active;
    assert segs[i].start != segs[|st.sealed|].start;
  }

  lemma StartsOfPartition(segs: seq<Segment>, w: nat)
    requires DistinctStarts(segs)
    ensures forall s :: s in segs ==> (s.start in Starts(Covered(segs, w)) <==> IsCovered(s, w))
  {
    hide Covered, DistinctStarts;
    PartitionFacts(segs, w);
    var gone := Covered(segs, w);
    forall s | s in segs
      ensures s.start in Starts(gone) <==> IsCovered(s, w)
    {
      if IsCovered(s, w) {
        var i :| 0 <= i < |gone| && gone[i] == s;
        assert gone[i].start in Starts(gone);
      }
      if s.start in Starts(gone) {
        var i :| 0 <= i < |gone| && gone[i].start == s.start;
        assert gone[i] in gone;
        SameStart(segs, gone[i], s);
      }
    }
  }

  lemma KeptDescribes(st: WalState, w: nat)
    requires Describes(Segments(st), st.disk) && DistinctStarts(st.sealed)
    requires Unlinked(st.disk, Covered(st.sealed, w)) == (st.disk - Starts(Covered(st.sealed, w)), true)
    ensures Describes(Segments(Truncated(st, w)), Truncated(st, w).disk)
    ensures st.active.start in Truncated(st, w).disk
  {
    hide RecordsOf, Covered, Kept, Unlinked, MaxLsn, DistinctStarts;
    var gone, keep, disk' := Covered(st.sealed, w), Kept(st.sealed, w), Truncated(st, w).disk;
    PartitionFacts(st.sealed, w);
    StartsOfPartition(st.sealed, w);
    SnocMembers(st.sealed, st.active);
    SnocMembers(keep, st.active);
    assert forall s :: s in st.sealed + [st.active] ==> SegmentMatches(st.disk, s);
    assert st.active.start !in Starts(gone);
    forall n | n in disk'
      ensures exists s :: s in keep + [st.active] && s.start == n
    {
      var s :| s in st.sealed + [st.active] && s.start == n;
      assert s in keep + [st.active];
    }
  }

  // ---- Open ------------------------------------------------------------------------------------

  lemma {:induction false} AboveBag(recs: seq<Record>, w: nat)
    ensures forall r :: multiset(Above(recs, w))[r] == if r.lsn > w then multiset(recs)[r] else 0
  {
    if recs != [] {
      AboveBag(recs[1..], w);
      assert recs == [recs[0]] + recs[1..];
    }
  }

  function NameSet(names: seq<nat>): set<nat> {
    set n | n in names
  }

  ghost predicate MaxOf(bag: multiset<Record>, maxLsn: nat) {
    && (forall r :: r in bag ==> r.lsn <= maxLsn)
    && (maxLsn == 0 || exists r :: r in bag && r.lsn == maxLsn)
  }

  lemma MaxOfSum(a: multiset<Record>, m: nat, recs: seq<Record>)
    requires MaxOf(a, m)
    ensures MaxOf(a + multiset(recs), Max(m, MaxLsn(recs)))
  {
    hide MaxLsn;
    MaxLsnBounds(recs);
    var bag := a + multiset(recs);
    assert forall r :: r in bag ==> r in a || r in recs;
    if MaxLsn(recs) > m {
      var i :| 0 <= i < |recs| && recs[i].lsn == MaxLsn(recs);
      assert recs[i] in multiset(recs);
      assert recs[i] in bag;
    } else if m > 0 {
      var r :| r in a && r.lsn == m;
      assert r in bag;
    }
  }

  /** What scanning the first names of a readable directory does to its files. */
  ghost predicate FilesScanned(disk: Disk, names: seq<nat>, scan: Scan)
    requires forall n :: n in names ==> n in disk
  {
    && scan.disk.Keys == disk.Keys
    && (forall n :: n in names ==> Clean(scan.disk[n]) && RecordsOf(scan.disk[n]) == RecordsOf(disk[n]))
    && (forall n :: n in disk && n !in names ==> scan.disk[n] == disk[n])
    && |scan.segments| == |names|
    && (forall i :: 0 <= i < |names| ==> scan.segments[i] == Segment(names[i], MaxLsn(RecordsOf(disk[names[i]]))))
  }

  /** What it replays. */
  ghost predicate RecordsScanned(disk: Disk, names: seq<nat>, w: nat, scan: Scan)
    requires forall n :: n in names ==> n in disk
  {
    && (forall r :: multiset(scan.records)[r] == if r.lsn > w then BagOver(disk, NameSet(names))[r] else 0)
    && MaxOf(BagOver(disk, NameSet(names)), scan.maxLsn)
  }

  lemma RecordsScannedStep(disk: Disk, names: seq<nat>, w: nat, before: Scan, scan: Scan)
    requires names != [] && forall n :: n in names ==> n in disk
    requires names[|names| - 1] !in names[..|names| - 1]
    requires RecordsScanned(disk, names[..|names| - 1], w, before)
    requires scan.records == before.records + Above(RecordsOf(disk[names[|names| - 1]]), w)
    requires scan.maxLsn == Max(before.maxLsn, MaxLsn(RecordsOf(disk[names[|names| - 1]])))
    ensures RecordsScanned(disk, names, w, scan)
  {
    hide MaxLsn, Above, MaxOf, RecordsOf;
    var init, n := names[..|names| - 1], names[|names| - 1];
    assert forall m :: m in names <==> m in init || m == n;
    AboveBag(RecordsOf(disk[n]), w);
    assert NameSet(names) - {n} == NameSet(init);
    BagSplit(disk, NameSet(names), n);
    MaxOfSum(BagOver(disk, NameSet(init)), before.maxLsn, RecordsOf(disk[n]));
  }

  lemma FilesScannedStep(disk: Disk, names: seq<nat>, before: Scan, scan: Scan)
    requires names != [] && forall n :: n in names ==> n in disk
    requires names[|names| - 1] !in names[..|names| - 1]
    requires FilesScanned(disk, names[..|names| - 1], before)
    requires var n := names[|names| - 1];
             && scan.disk.Keys == before.disk.Keys && scan.disk == before.disk[n := scan.disk[n]]
             && Clean(scan.disk[n]) && RecordsOf(scan.disk[n]) == RecordsOf(disk[n])
             && scan.segments == before.segments + [Segment(n, MaxLsn(RecordsOf(disk[n])))]
    ensures FilesScanned(disk, names, scan)
  {
    hide MaxLsn, Clean, RecordsOf;
    var init, n := names[..|names| - 1], names[|names| - 1];
    assert forall m :: m in names <==> m in init || m == n;
    assert forall i :: 0 <= i < |init| ==> init[i] == names[i];
  }

  lemma ScannedStep(disk: Disk, names: seq<nat>, w: nat, before: Scan)
    requires names != [] && forall n :: n in names ==> n in disk
    requires Readable(disk[names[|names| - 1]])
    requires Scanned(disk, names[..|names| - 1], w) == Ok(before)
    ensures Scanned(disk, names, w).Ok?
    ensures var scan, n := Scanned(disk, names, w).value, names[|names| - 1];
            && scan.disk.Keys == disk.Keys && scan.disk == before.disk[n := scan.disk[n]]
            && Clean(scan.disk[n]) && RecordsOf(scan.disk[n]) == RecordsOf(disk[n])
            && scan.segments == before.segments + [Segment(n, MaxLsn(RecordsOf(disk[n])))]
            && scan.records == before.records + Above(RecordsOf(disk[n]), w)
            && scan.maxLsn == Max(before.maxLsn, MaxLsn(RecordsOf(disk[n])))
  {
    hide MaxLsn, Above, Clean, Readable, RecordsOf;
    RepairedIsClean(disk[names[|names| - 1]]);
    ReplayRecords(disk[names[|names| - 1]]);
  }

  lemma ReplayRecords(bytes: seq<byte>)
    ensures Replay(bytes).Ok? ==> RecordsOf(bytes) == Replay(bytes).value.records
  {
  }

  lemma {:induction false} ScannedFacts(disk: Disk, names: seq<nat>, w: nat)
    requires forall i, j :: 0 <= i < j < |names| ==> names[i] < names[j]
    requires forall n :: n in names ==> n in disk && Readable(disk[n])
    ensures Scanned(disk, names, w).Ok?
    ensures FilesScanned(disk, names, Scanned(disk, names, w).value)
    ensures RecordsScanned(disk, names, w, Scanned(disk, names, w).value)
  {
    hide Readable, FilesScanned, RecordsScanned, Scanned;
    if names == [] {
      ScannedNone(disk, w);
    } else {
      var init := names[..|names| - 1];
      assert names[|names| - 1] !in init;
      ScannedFacts(disk, init, w);
      var before := Scanned(disk, init, w).value;
      ScannedStep(disk, names, w, before);
      FilesScannedStep(disk, names, before, Scanned(disk, names, w).value);
      RecordsScannedStep(disk, names, w, before, Scanned(disk, names, w).value);
    }
  }

  lemma ScannedNone(disk: Disk, w: nat)
    ensures Scanned(disk, [], w) == Ok(Scan(disk, [], [], 0))
    ensures FilesScanned(disk, [], Scan(disk, [], [], 0)) && RecordsScanned(disk, [], w, Scan(disk, [], [], 0))
  {
    assert NameSet([]) == {};
  }

  /** Opening a readable directory repairs it without losing a record, and replays exactly the
      records above the watermark, each as often as it is on disk. */
  lemma OpenReads(disk: Disk, w: nat)
    requires forall n :: n in disk ==> Readable(disk[n])
    ensures Open(disk, w).Ok?
    ensures var start := Open(disk, w).value;
            && WalInv(start.wal)
            && Bag(start.wal.disk) == Bag(disk)
            && (forall r :: multiset(start.records)[r] == if r.lsn > w then Bag(disk)[r] else 0)
            && MaxOf(Bag(disk), start.maxLsn)
  {
    hide Clean, Readable, MaxLsn, RecordsOf, Scanned, Listing;
    var names := Listing(disk.Keys);
    assert forall n :: n in names <==> n in disk.Keys;
    ScannedFacts(disk, names, w);
    assert NameSet(names) == disk.Keys;
    var scan := Scanned(disk, names, w).value;
    BagAgree(disk, scan.disk, disk.Keys);
    if names == [] {
      assert disk == map[] && scan.disk == map[];
      EmptyDirectory(scan);
    } else {
      ResumedDescribes(scan, disk, names);
    }
  }

  /** File by file: no file gains, loses or reorders a record, and the newest name is active. */
  lemma OpenKeepsFiles(disk: Disk, w: nat)
    requires disk != map[] && forall n :: n in disk ==> Readable(disk[n])
    ensures Open(disk, w).Ok?
    ensures var st := Open(disk, w).value.wal;
            && st.disk.Keys == disk.Keys
            && (forall n :: n in disk ==> RecordsOf(st.disk[n]) == RecordsOf(disk[n]))
            && (forall n :: n in disk ==> n <= st.active.start)
  {
    hide Clean, Readable, MaxLsn, RecordsOf, Scanned, Listing;
    var names := Listing(disk.Keys);
    assert forall n :: n in names <==> n in disk.Keys;
    ScannedFacts(disk, names, w);
    var name :| name in disk.Keys;
    assert name in names;
  }

  lemma NoRecords()
    ensures MaxLsn([]) == 0 && DistinctStarts([])
  {
  }

  lemma EmptyDirectory(scan: Scan)
    requires scan.disk == map[] && scan.segments == []
    ensures WalInv(Resumed(scan).wal) && Bag(Resumed(scan).wal.disk) == Bag(scan.disk)
  {
    hide Clean, RecordsOf, Bag, DistinctStarts, MaxLsn;
    EncodedNone();
    CleanFile([]);
    NoRecords();
    BagUpdate(scan.disk, 0, [], []);
    SnocMembers([], Segment(0, 0));
    assert Segments(Resumed(scan).wal) == [Segment(0, 0)];
    assert Segment(0, 0) in Segments(Resumed(scan).wal);
  }

  lemma ResumedDescribes(scan: Scan, disk: Disk, names: seq<nat>)
    requires names != [] && IsListing(names, disk.Keys) && scan.disk.Keys == disk.Keys
    requires |scan.segments| == |names|
    requires forall i :: 0 <= i < |names| ==> names[i] in disk && scan.segments[i] == Segment(names[i], MaxLsn(RecordsOf(disk[names[i]])))
    requires forall n :: n in disk ==> Clean(scan.disk[n]) && RecordsOf(scan.disk[n]) == RecordsOf(disk[n])
    ensures WalInv(Resumed(scan).wal)
  {
    hide Clean, RecordsOf, MaxLsn;
    assert Segments(Resumed(scan).wal) == scan.segments;
    ListingDescribes(scan.segments, scan.disk, names);
  }

  lemma ListingDescribes(segs: seq<Segment>, disk: Disk, names: seq<nat>)
    requires IsListing(names, disk.Keys) && |segs| == |names|
    requires forall i :: 0 <= i < |names| ==> segs[i].start == names[i] && SegmentMatches(disk, segs[i])
    ensures Describes(segs, disk)
  {
    hide SegmentMatches;
    forall s | s in segs
      ensures SegmentMatches(disk, s)
    {
      var i :| 0 <= i < |names| && segs[i] == s;
    }
    forall n | n in disk
      ensures exists s :: s in segs && s.start == n
    {
      var i :| 0 <= i < |names| && names[i] == n;
      assert segs[i] in segs;
    }
  }

  lemma CleanDetermined(a: seq<byte>, b: seq<byte>)
    requires Clean(a) && Clean(b) && RecordsOf(a) == RecordsOf(b)
    ensures a == b
  {
  }

  /** Opening what an open left behind changes nothing. */
  lemma OpenIsIdempotent(disk: Disk, w: nat)
    requires forall n :: n in disk ==> Readable(disk[n])
    ensures Open(disk, w).Ok?
    ensures var wal := Open(disk, w).value.wal;
            Open(wal.disk, w).Ok? && Open(wal.disk, w).value.wal == wal
  {
    hide Clean, Readable, MaxLsn, RecordsOf, Scanned, WalInv, Bag, Listing;
    OpenReads(disk, w);
    var wal := Open(disk, w).value.wal;
    forall n | n in wal.disk
      ensures Readable(wal.disk[n])
    {
      assert Clean(wal.disk[n]) by { AllClean(wal); }
      CleanIsReadable(wal.disk[n]);
    }
    AllClean(wal);
    OpenReads(wal.disk, w);
    if disk == map[] {
      ReopenFirst(w);
    } else {
      ScansAgree(disk, w);
    }
  }

  lemma AllClean(st: WalState)
    requires WalInv(st)
    ensures forall n :: n in st.disk ==> Clean(st.disk[n])
  {
  }

  lemma ReopenFirst(w: nat)
    ensures Open(map[], w) == Ok(Opened(WalState(map[0 := []], [], Segment(0, 0), 0), [], 0))
    ensures Open(map[0 := []], w).Ok? && Open(map[0 := []], w).value.wal == WalState(map[0 := []], [], Segment(0, 0), 0)
  {
    hide Listing, Clean, Readable, RecordsOf, MaxLsn;
    var none: Disk := map[];
    ListingUnique(Listing(none.Keys), [], none.Keys);
    var disk: Disk := map[0 := []];
    EncodedNone();
    CleanFile([]);
    NoRecords();
    CleanIsReadable([]);
    ListingUnique([0], Listing(disk.Keys), disk.Keys);
    ReopenOne(disk, w);
  }

  lemma ReopenOne(disk: Disk, w: nat)
    requires disk == map[0 := []] && Listing(disk.Keys) == [0] && Readable([]) && RecordsOf([]) == [] && Clean([])
    ensures Open(disk, w).Ok? && Open(disk, w).value.wal == WalState(disk, [], Segment(0, 0), 0)
  {
    hide Listing, Clean, Readable, RecordsOf, MaxLsn, Scanned;
    ScannedFacts(disk, [0], w);
    NoRecords();
    var scan := Scanned(disk, [0], w).value;
    CleanDetermined(scan.disk[0], []);
    assert scan.disk == disk;
    assert scan.segments == [Segment(0, 0)];
  }

  lemma ScansAgree(disk: Disk, w: nat)
    requires disk != map[] && forall n :: n in disk ==> Readable(disk[n])
    ensures Open(disk, w).Ok?
    ensures var wal := Open(disk, w).value.wal;
            && (forall n :: n in wal.disk ==> Readable(wal.disk[n]))
            && Open(wal.disk, w).Ok? && Open(wal.disk, w).value.wal == wal
  {
    hide Clean, Readable, MaxLsn, RecordsOf, Scanned, Listing, FilesScanned, RecordsScanned;
    var names := Listing(disk.Keys);
    assert forall n :: n in names <==> n in disk.Keys;
    var name :| name in disk.Keys;
    assert name in names;
    ScannedFacts(disk, names, w);
    var first := Scanned(disk, names, w).value;
    FirstIsReadable(disk, names, first);
    ScannedFacts(first.disk, names, w);
    RescanIsSame(disk, names, first, Scanned(first.disk, names, w).value);
  }

  lemma FirstIsReadable(disk: Disk, names: seq<nat>, first: Scan)
    requires (forall n :: n in disk <==> n in names) && FilesScanned(disk, names, first)
    ensures first.disk.Keys == disk.Keys && |first.segments| == |names|
    ensures forall n :: n in first.disk ==> Readable(first.disk[n])
  {
    hide Clean, Readable, MaxLsn, RecordsOf;
    forall n | n in first.disk
      ensures Readable(first.disk[n])
    {
      CleanIsReadable(first.disk[n]);
    }
  }

  lemma RescanIsSame(disk: Disk, names: seq<nat>, first: Scan, second: Scan)
    requires forall n :: n in disk <==> n in names
    requires FilesScanned(disk, names, first) && FilesScanned(first.disk, names, second)
    ensures second.disk == first.disk && second.segments == first.segments
  {
    hide Clean, MaxLsn, RecordsOf;
    forall n | n in first.disk
      ensures second.disk[n] == first.disk[n]
    {
      CleanDetermined(second.disk[n], first.disk[n]);
    }
  }
}
