/** Replay of one segment file: a run of frames that may end in a torn tail (src/wal.rs, src/record.rs). */
module Frames {
  import opened Bytes
  import opened Records

  function Encoded(recs: seq<Record>): seq<byte> {
    if recs == [] then [] else Frame(recs[0]) + Encoded(recs[1..])
  }

  predicate AllEncodable(recs: seq<Record>) {
    forall i :: 0 <= i < |recs| ==> Encodable(recs[i])
  }

  function MaxLsn(recs: seq<Record>): nat {
    if recs == [] then 0
    else var rest := MaxLsn(recs[..|recs| - 1]);
         if rest < recs[|recs| - 1].lsn then recs[|recs| - 1].lsn else rest
  }

  /** What replay reports of one segment: its records and the end of the last intact frame. */
  datatype SegmentLog = SegmentLog(records: seq<Record>, goodBytes: nat)

  function Replay(buf: seq<byte>): (r: Result<SegmentLog, Reason>)
    ensures r.Ok? ==> r.value.goodBytes <= |buf|
    decreases |buf|
  {
    match Decode(buf)
    case Torn => Ok(SegmentLog([], 0))
    case Corrupt(reason) => Err(reason)
    case Decoded(rec, size) =>
      match Replay(buf[size..])
      case Err(reason) => Err(reason)
      case Ok(rest) => Ok(SegmentLog([rec] + rest.records, size + rest.goodBytes))
  }

  /** How many leading frames of `recs` lie wholly within the first `n` bytes. */
  function WholeFrames(recs: seq<Record>, n: nat): (k: nat)
    ensures k <= |recs|
  {
    if recs == [] || n < |Frame(recs[0])| then 0
    else 1 + WholeFrames(recs[1..], n - |Frame(recs[0])|)
  }

  lemma {:induction false} MaxLsnBounds(recs: seq<Record>)
    ensures forall i :: 0 <= i < |recs| ==> recs[i].lsn <= MaxLsn(recs)
    ensures MaxLsn(recs) == 0 || exists i :: 0 <= i < |recs| && recs[i].lsn == MaxLsn(recs)
  {
    if recs != [] {
      var init := recs[..|recs| - 1];
      MaxLsnBounds(init);
      assert forall i :: 0 <= i < |init| ==> recs[i] == init[i];
      if MaxLsn(recs) != 0 && MaxLsn(recs) == MaxLsn(init) {
        var i :| 0 <= i < |init| && init[i].lsn == MaxLsn(init);
        assert recs[i].lsn == MaxLsn(recs);
      }
    }
  }

  lemma {:induction false} MaxLsnConcat(a: seq<Record>, b: seq<Record>)
    ensures MaxLsn(a + b) == if MaxLsn(a) < MaxLsn(b) then MaxLsn(b) else MaxLsn(a)
  {
    if b == [] {
      assert a + b == a;
    } else {
      var init := b[..|b| - 1];
      MaxLsnConcat(a, init);
      assert (a + b)[..|a + b| - 1] == a + init;
    }
  }

  lemma Associative<T>(x: seq<T>, y: seq<T>, z: seq<T>)
    ensures x + (y + z) == (x + y) + z
  {
  }

  lemma {:induction false} EncodedConcat(a: seq<Record>, b: seq<Record>)
    ensures Encoded(a + b) == Encoded(a) + Encoded(b)
  {
    hide Frame;
    if a == [] {
      assert a + b == b;
    } else {
      EncodedConcat(a[1..], b);
      assert (a + b)[1..] == a[1..] + b && (a + b)[0] == a[0];
      Associative(Frame(a[0]), Encoded(a[1..]), Encoded(b));
    }
  }

  /** `WholeFrames` is the exact count: its frames fit in `n` bytes and one more does not. */
  lemma {:induction false} WholeFramesExact(recs: seq<Record>, n: nat)
    ensures |Encoded(recs[..WholeFrames(recs, n)])| <= n
    ensures WholeFrames(recs, n) < |recs| ==> n < |Encoded(recs[..WholeFrames(recs, n) + 1])|
  {
    hide Frame;
    var k := WholeFrames(recs, n);
    if recs == [] {
    } else if n < |Frame(recs[0])| {
      assert recs[..1][1..] == [];
    } else {
      WholeFramesExact(recs[1..], n - |Frame(recs[0])|);
      assert recs[..k][1..] == recs[1..][..k - 1];
      if k < |recs| {
        assert recs[..k + 1][1..] == recs[1..][..k];
      }
    }
  }

  lemma EmptyIsTorn()
    ensures Decode([]) == Torn
  {
  }

  function Prepend(records: seq<Record>, size: nat, rest: Result<SegmentLog, Reason>): Result<SegmentLog, Reason> {
    match rest
    case Err(reason) => Err(reason)
    case Ok(log) => Ok(SegmentLog(records + log.records, size + log.goodBytes))
  }

  lemma ReplayCons(buf: seq<byte>, rec: Record, size: nat, tail: seq<byte>)
    requires Decode(buf) == Decoded(rec, size) && buf[size..] == tail
    ensures Replay(buf) == Prepend([rec], size, Replay(tail))
  {
    hide Decode;
  }

  lemma PrependTwice(a: seq<Record>, b: seq<Record>, m: nat, n: nat, rest: Result<SegmentLog, Reason>)
    ensures Prepend(a, m, Prepend(b, n, rest)) == Prepend(a + b, m + n, rest)
  {
    if rest.Ok? {
      Associative(a, b, rest.value.records);
    }
  }

  lemma CutAfterFirst(frame: seq<byte>, rest: seq<byte>, n: nat)
    requires |frame| <= n <= |frame + rest|
    ensures (frame + rest)[..n] == frame + rest[..n - |frame|]
    ensures (frame + rest)[..n][|frame|..] == rest[..n - |frame|]
  {
  }

  /** Cutting a log at any byte keeps exactly the records whose frames lie wholly before
      the cut, and reports where they end: a crash mid-append is never an error. */
  lemma {:induction false} ReplayOfPrefix(recs: seq<Record>, n: nat)
    requires AllEncodable(recs) && n <= |Encoded(recs)|
    ensures var kept := recs[..WholeFrames(recs, n)];
            Replay(Encoded(recs)[..n]) == Ok(SegmentLog(kept, |Encoded(kept)|))
  {
    hide Frame, Decode, Replay;
    var k := WholeFrames(recs, n);
    if recs == [] {
      EmptyIsTorn();
      EndOfReplay([]);
    } else if n < |Frame(recs[0])| {
      CutFrameIsTorn(recs[0], n);
      assert Encoded(recs)[..n] == Frame(recs[0])[..n];
      EndOfReplay(Frame(recs[0])[..n]);
    } else {
      var frame, rest := Frame(recs[0]), Encoded(recs[1..]);
      ReplayOfPrefix(recs[1..], n - |frame|);
      FrameRoundTrip(recs[0], rest[..n - |frame|]);
      CutAfterFirst(frame, rest, n);
      ReplayCons(Encoded(recs)[..n], recs[0], |frame|, rest[..n - |frame|]);
      FirstKept(recs, k);
    }
  }

  lemma FirstKept(recs: seq<Record>, k: nat)
    requires 0 < k <= |recs|
    ensures recs[..k] == [recs[0]] + recs[1..][..k - 1] && recs[..k][1..] == recs[1..][..k - 1]
  {
  }

  lemma EncodedPrefix(recs: seq<Record>, k: nat)
    requires k <= |recs|
    ensures Encoded(recs) == Encoded(recs[..k]) + Encoded(recs[k..])
  {
    hide Encoded;
    EncodedConcat(recs[..k], recs[k..]);
    assert recs[..k] + recs[k..] == recs;
  }

  lemma AllFramesWhole(recs: seq<Record>)
    ensures WholeFrames(recs, |Encoded(recs)|) == |recs|
  {
    hide Frame, Encoded, WholeFrames;
    var k := WholeFrames(recs, |Encoded(recs)|);
    WholeFramesExact(recs, |Encoded(recs)|);
    if k < |recs| {
      EncodedPrefix(recs, k + 1);
    }
  }

  lemma ReplayOfWhole(recs: seq<Record>)
    requires AllEncodable(recs)
    ensures Replay(Encoded(recs)) == Ok(SegmentLog(recs, |Encoded(recs)|))
  {
    hide Frame, Decode, Replay, Encoded, WholeFrames;
    ReplayOfPrefix(recs, |Encoded(recs)|);
    AllFramesWhole(recs);
    assert Encoded(recs)[..|Encoded(recs)|] == Encoded(recs);
    assert recs[..|recs|] == recs;
  }

  /** Cut a torn log back to its last intact frame and append: it replays to the records
      that survived the cut followed by the new ones, with nothing left over. */
  lemma CutThenAppend(recs: seq<Record>, n: nat, more: seq<Record>)
    requires AllEncodable(recs) && AllEncodable(more) && n <= |Encoded(recs)|
    ensures var torn := Encoded(recs)[..n];
            && Replay(torn).Ok?
            && var file := torn[..Replay(torn).value.goodBytes] + Encoded(more);
               var kept := recs[..WholeFrames(recs, n)];
               Replay(file) == Ok(SegmentLog(kept + more, |file|))
  {
    hide Frame, Decode, Replay, Encoded, WholeFrames;
    var kept := recs[..WholeFrames(recs, n)];
    ReplayOfPrefix(recs, n);
    WholeFramesExact(recs, n);
    EncodedPrefix(recs, |kept|);
    assert Encoded(recs)[..n][..|Encoded(kept)|] == Encoded(kept);
    EncodedConcat(kept, more);
    ReplayOfWhole(kept + more);
  }

  /** Read one segment: its records, its highest LSN and the end of its last intact frame. */
  method ReplaySegment(buf: seq<byte>) returns (r: Result<SegmentLog, Reason>, maxLsn: nat)
    ensures r == Replay(buf)
    ensures r.Ok? ==> maxLsn == MaxLsn(r.value.records)
  {
    hide Decode, Replay;
    var records, off := [], 0;
    maxLsn := 0;
    assert buf[0..] == buf;
    assert Prepend([], 0, Replay(buf)) == Replay(buf) by {
      if Replay(buf).Ok? { assert [] + Replay(buf).value.records == Replay(buf).value.records; }
    }
    while true
      invariant 0 <= off <= |buf|
      invariant maxLsn == MaxLsn(records)
      invariant Replay(buf) == Prepend(records, off, Replay(buf[off..]))
      decreases |buf| - off
    {
      match Decode(buf[off..]) {
        case Torn =>
          EndOfReplay(buf[off..]);
          assert records + [] == records;
          return Ok(SegmentLog(records, off)), maxLsn;
        case Corrupt(reason) =>
          EndOfReplay(buf[off..]);
          return Err(reason), maxLsn;
        case Decoded(rec, size) =>
          assert buf[off..][size..] == buf[off + size..];
          ReplayCons(buf[off..], rec, size, buf[off + size..]);
          PrependTwice(records, [rec], off, size, Replay(buf[off + size..]));
          maxLsn := if maxLsn < rec.lsn then rec.lsn else maxLsn;
          assert (records + [rec])[..|records|] == records;
          records, off := records + [rec], off + size;
      }
    }
  }

  lemma EndOfReplay(buf: seq<byte>)
    ensures Decode(buf).Torn? ==> Replay(buf) == Ok(SegmentLog([], 0))
    ensures Decode(buf).Corrupt? ==> Replay(buf) == Err(Decode(buf).reason)
  {
    hide Decode;
  }
}
