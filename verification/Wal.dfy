/** The segmented write-ahead log (src/wal.rs).

    A directory is a map from a segment's start LSN, which is its file name, to the file's
    bytes. `WalState` is the log as one value; the class `Wal` updates its fields in place
    and each method is tied to a function on `WalState`. */
module WalLog {
  import opened Bytes
  import opened Records
  import opened Frames

  type Disk = map<nat, seq<byte>>

  datatype Segment = Segment(start: nat, maxLsn: nat)

  datatype WalState = WalState(disk: Disk, sealed: seq<Segment>, active: Segment, activeBytes: nat)

  /** What `Wal::open` hands back: the log and the replay. */
  datatype Opened = Opened(wal: WalState, records: seq<Record>, maxLsn: nat)

  /** The log in a directory that was empty. */
  const EmptyLog := WalState(map[0 := []], [], Segment(0, 0), 0)

  function Max(a: nat, b: nat): nat {
    if a < b then b else a
  }

  // ---- Append, rotate, truncate --------------------------------------------------

  /** Seal the active segment and open the file named `next`, creating it if it is absent.
      A file of that name that already exists is opened for append with its bytes in it. */
  function Rotated(st: WalState, next: nat): WalState {
    WalState(if next in st.disk then st.disk else st.disk[next := []],
             st.sealed + [st.active], Segment(next, 0), 0)
  }

  /** Append bytes through the active file handle. Bytes written to a file that has been
      unlinked are not in the directory. */
  function Written(disk: Disk, name: nat, bytes: seq<byte>): Disk {
    if name in disk then disk[name := disk[name] + bytes] else disk
  }

  predicate Rotates(st: WalState, segmentMaxBytes: nat) {
    st.activeBytes >= segmentMaxBytes
  }

  /** The log just before a batch's bytes are written. */
  function Ready(st: WalState, recs: seq<Record>, segmentMaxBytes: nat): WalState
    requires recs != []
  {
    if Rotates(st, segmentMaxBytes) then Rotated(st, recs[0].lsn) else st
  }

  function Appended(st: WalState, recs: seq<Record>, segmentMaxBytes: nat): WalState {
    if recs == [] then st
    else
      var ready := Ready(st, recs, segmentMaxBytes);
      WalState(Written(ready.disk, ready.active.start, Encoded(recs)),
               ready.sealed,
               ready.active.(maxLsn := Max(ready.active.maxLsn, MaxLsn(recs))),
               ready.activeBytes + |Encoded(recs)|)
  }

  /** The directory a crash leaves when only the first `n` bytes of the batch were written. */
  function TornAppend(st: WalState, recs: seq<Record>, segmentMaxBytes: nat, n: nat): Disk
    requires recs != [] && n <= |Encoded(recs)|
  {
    var ready := Ready(st, recs, segmentMaxBytes);
    Written(ready.disk, ready.active.start, Encoded(recs)[..n])
  }

  predicate IsCovered(seg: Segment, watermark: nat) {
    0 < seg.maxLsn <= watermark
  }

  function Covered(segs: seq<Segment>, watermark: nat): seq<Segment> {
    if segs == [] then []
    else (if IsCovered(segs[0], watermark) then [segs[0]] else []) + Covered(segs[1..], watermark)
  }

  function Kept(segs: seq<Segment>, watermark: nat): seq<Segment> {
    if segs == [] then []
    else (if IsCovered(segs[0], watermark) then [] else [segs[0]]) + Kept(segs[1..], watermark)
  }

  /** Unlink files one by one; unlinking a missing file is an error and stops. */
  function Unlinked(disk: Disk, segs: seq<Segment>): (r: (Disk, bool)) {
    if segs == [] then (disk, true)
    else if segs[0].start !in disk then (disk, false)
    else Unlinked(disk - {segs[0].start}, segs[1..])
  }

  function Truncated(st: WalState, watermark: nat): WalState {
    st.(disk := Unlinked(st.disk, Covered(st.sealed, watermark)).0, sealed := Kept(st.sealed, watermark))
  }

  function FirstCovered(segs: seq<Segment>, watermark: nat): (i: nat)
    requires Covered(segs, watermark) != []
    ensures i < |segs| && segs[i] == Covered(segs, watermark)[0] && IsCovered(segs[i], watermark)
  {
    if IsCovered(segs[0], watermark) then 0 else 1 + FirstCovered(segs[1..], watermark)
  }

  /** One unlink of a truncation under way. */
  function UnlinkedFirst(st: WalState, watermark: nat): WalState
    requires Covered(st.sealed, watermark) != []
  {
    var i := FirstCovered(st.sealed, watermark);
    st.(disk := st.disk - {st.sealed[i].start}, sealed := st.sealed[..i] + st.sealed[i + 1..])
  }

  // ---- Open ------------------------------------------------------------------------

  /** Every name of the directory once, in increasing order. */
  ghost predicate IsListing(names: seq<nat>, keys: set<nat>) {
    && (forall i, j :: 0 <= i < j < |names| ==> names[i] < names[j])
    && (forall n :: n in names <==> n in keys)
  }

  ghost function Listing(keys: set<nat>): (names: seq<nat>)
    ensures IsListing(names, keys)
  {
    if keys == {} then []
    else
      LargestExists(keys);
      var n :| n in keys && forall m :: m in keys ==> m <= n;
      var rest := Listing(keys - {n});
      var names := rest + [n];
      assert forall m :: m in names <==> m in rest || m == n;
      names
  }

  lemma {:induction false} LargestExists(keys: set<nat>)
    requires keys != {}
    ensures exists n :: n in keys && forall m :: m in keys ==> m <= n
  {
    var k :| k in keys;
    if keys - {k} != {} {
      LargestExists(keys - {k});
      var n :| n in keys - {k} && forall m :: m in keys - {k} ==> m <= n;
      var best := if n < k then k else n;
      assert forall m :: m in keys ==> m == k || m in keys - {k};
      assert best in keys && forall m :: m in keys ==> m <= best;
    } else {
      assert keys == {k};
    }
  }

  lemma ListingLast(names: seq<nat>, keys: set<nat>)
    requires IsListing(names, keys) && names != []
    ensures var last := names[|names| - 1];
            && last in keys && (forall k :: k in keys ==> k <= last)
            && IsListing(names[..|names| - 1], keys - {last})
  {
    var init, last := names[..|names| - 1], names[|names| - 1];
    assert last in names;
    assert forall n :: n in names <==> n in init || n == last;
    assert forall i :: 0 <= i < |init| ==> init[i] == names[i] && init[i] < last;
  }

  lemma {:induction false} ListingUnique(a: seq<nat>, b: seq<nat>, keys: set<nat>)
    requires IsListing(a, keys) && IsListing(b, keys)
    ensures a == b
  {
    assert a != [] ==> a[0] in b;
    assert b != [] ==> b[0] in a;
    if a != [] && b != [] {
      hide IsListing;
      ListingLast(a, keys);
      ListingLast(b, keys);
      var x, a', b' := a[|a| - 1], a[..|a| - 1], b[..|b| - 1];
      ListingUnique(a', b', keys - {x});
      assert a == a' + [x] && b == b' + [x];
    }
  }

  function Above(recs: seq<Record>, watermark: nat): seq<Record> {
    if recs == [] then []
    else (if recs[0].lsn > watermark then [recs[0]] else []) + Above(recs[1..], watermark)
  }

  datatype Scan = Scan(disk: Disk, segments: seq<Segment>, records: seq<Record>, maxLsn: nat)

  /** Replay one more segment: cut its file back to the last intact frame. */
  function WithSegment(scan: Scan, n: nat, bytes: seq<byte>, fromLsn: nat): Result<Scan, Reason> {
    match Replay(bytes)
    case Err(reason) => Err(reason)
    case Ok(log) =>
      Ok(Scan(scan.disk[n := bytes[..log.goodBytes]],
              scan.segments + [Segment(n, MaxLsn(log.records))],
              scan.records + Above(log.records, fromLsn),
              Max(scan.maxLsn, MaxLsn(log.records))))
  }

  /** Replay the named segments in order, cutting each file back to its last intact frame. */
  function Scanned(disk: Disk, names: seq<nat>, fromLsn: nat): (r: Result<Scan, Reason>)
    requires forall n :: n in names ==> n in disk
    ensures r.Ok? ==> |r.value.segments| == |names| && r.value.disk.Keys == disk.Keys
    ensures r.Ok? ==> forall i :: 0 <= i < |names| ==> r.value.segments[i].start == names[i]
  {
    if names == [] then Ok(Scan(disk, [], [], 0))
    else
      var n := names[|names| - 1];
      match Scanned(disk, names[..|names| - 1], fromLsn)
      case Err(reason) => Err(reason)
      case Ok(scan) => WithSegment(scan, n, disk[n], fromLsn)
  }

  /** The newest segment becomes the active one; an empty directory gets segment 0. */
  function Resumed(scan: Scan): Opened
    requires forall i :: 0 <= i < |scan.segments| ==> scan.segments[i].start in scan.disk
  {
    var k := |scan.segments|;
    if k == 0 then
      Opened(WalState(scan.disk[0 := []], [], Segment(0, 0), 0), scan.records, scan.maxLsn)
    else
      var last := scan.segments[k - 1];
      Opened(WalState(scan.disk, scan.segments[..k - 1], last, |scan.disk[last.start]|),
             scan.records, scan.maxLsn)
  }

  ghost function Open(disk: Disk, fromLsn: nat): Result<Opened, Reason> {
    match Scanned(disk, Listing(disk.Keys), fromLsn)
    case Err(reason) => Err(reason)
    case Ok(scan) => Ok(Resumed(scan))
  }

  // ---- The log in place --------------------------------------------------------------

  class Wal {
    const segmentMaxBytes: nat
    var disk: Disk
    var active: Segment
    var activeBytes: nat
    var sealed: seq<Segment>
    var scratch: seq<byte>

    function View(): WalState
      reads this
    {
      WalState(disk, sealed, active, activeBytes)
    }

    constructor (segmentMaxBytes: nat, st: WalState)
      ensures View() == st && this.segmentMaxBytes == segmentMaxBytes
    {
      this.segmentMaxBytes := segmentMaxBytes;
      disk, sealed, active, activeBytes := st.disk, st.sealed, st.active, st.activeBytes;
      scratch := [];
    }

    /** Durably append a batch: rotate a full segment first, then write all frames at once. */
    method Append(records: seq<Record>)
      modifies this
      ensures View() == Appended(old(View()), records, segmentMaxBytes)
    {
      if records == [] {
        return;
      }
      if activeBytes >= segmentMaxBytes {
        Rotate(records[0].lsn);
      }
      var batchMax;
      scratch, batchMax := EncodeBatch(records);
      disk := Written(disk, active.start, scratch);
      activeBytes := activeBytes + |scratch|;
      active := active.(maxLsn := Max(active.maxLsn, batchMax));
    }

    method Rotate(nextLsn: nat)
      modifies this
      ensures View() == Rotated(old(View()), nextLsn)
    {
      if nextLsn !in disk {
        disk := disk[nextLsn := []];
      }
      sealed := sealed + [active];
      active := Segment(nextLsn, 0);
      activeBytes := 0;
    }

    /** Drop every sealed segment fully covered by `watermark`; the active one is never dropped. */
    method TruncateThrough(watermark: nat) returns (ok: bool)
      modifies this
      ensures View() == Truncated(old(View()), watermark)
      ensures ok == Unlinked(old(disk), Covered(old(sealed), watermark)).1
    {
      var covered, keep := Partition(sealed, watermark);
      sealed := keep;
      disk, ok := UnlinkAll(disk, covered);
    }
  }

  /** Encode a batch into one buffer, and find its highest LSN. */
  method EncodeBatch(records: seq<Record>) returns (scratch: seq<byte>, batchMax: nat)
    ensures scratch == Encoded(records) && batchMax == MaxLsn(records)
  {
    hide Encoded, Frame;
    scratch, batchMax := [], 0;
    EncodedNone();
    assert records[..0] == [];
    for i := 0 to |records|
      invariant scratch == Encoded(records[..i]) && batchMax == MaxLsn(records[..i])
    {
      scratch := Encode(records[i], scratch);
      batchMax := Max(batchMax, records[i].lsn);
      EncodedSnoc(records[..i], records[i]);
      assert records[..i + 1] == records[..i] + [records[i]];
      assert records[..i + 1][..i] == records[..i];
    }
    assert records[..|records|] == records;
  }

  method Partition(segs: seq<Segment>, watermark: nat) returns (covered: seq<Segment>, keep: seq<Segment>)
    ensures covered == Covered(segs, watermark) && keep == Kept(segs, watermark)
  {
    covered, keep := [], [];
    for i := 0 to |segs|
      invariant Covered(segs, watermark) == covered + Covered(segs[i..], watermark)
      invariant Kept(segs, watermark) == keep + Kept(segs[i..], watermark)
    {
      assert segs[i..][1..] == segs[i + 1..] && segs[i..][0] == segs[i];
      if IsCovered(segs[i], watermark) {
        covered := covered + [segs[i]];
      } else {
        keep := keep + [segs[i]];
      }
    }
  }

  method UnlinkAll(start: Disk, segs: seq<Segment>) returns (disk: Disk, ok: bool)
    ensures (disk, ok) == Unlinked(start, segs)
  {
    disk := start;
    assert segs[0..] == segs;
    for i := 0 to |segs|
      invariant Unlinked(disk, segs[i..]) == Unlinked(start, segs)
    {
      assert segs[i..][1..] == segs[i + 1..] && segs[i..][0] == segs[i];
      if segs[i].start !in disk {
        return disk, false;
      }
      disk := disk - {segs[i].start};
    }
    ok := true;
  }

  lemma EncodedNone()
    ensures Encoded([]) == []
  {
  }

  lemma EncodedSnoc(recs: seq<Record>, rec: Record)
    ensures Encoded(recs + [rec]) == Encoded(recs) + Frame(rec)
  {
    hide Frame;
    EncodedConcat(recs, [rec]);
    assert Encoded([rec]) == Frame(rec) + Encoded([]);
  }

  /** Collect the directory's segment names, sorted by start LSN. */
  method ListSegments(disk: Disk) returns (names: seq<nat>)
    ensures names == Listing(disk.Keys)
  {
    names := [];
    var unread := disk.Keys;
    while unread != {}
      invariant unread <= disk.Keys
      invariant IsListing(names, disk.Keys - unread)
      decreases |unread|
    {
      var name :| name in unread;
      names := InsertSorted(names, name, disk.Keys - unread);
      unread := unread - {name};
      assert disk.Keys - unread == disk.Keys - (unread + {name}) + {name};
    }
    assert disk.Keys - {} == disk.Keys;
    ListingUnique(names, Listing(disk.Keys), disk.Keys);
  }

  method InsertSorted(names: seq<nat>, name: nat, ghost keys: set<nat>) returns (sorted: seq<nat>)
    requires IsListing(names, keys) && name !in keys
    ensures IsListing(sorted, keys + {name})
  {
    var i := |names|;
    while i > 0 && names[i - 1] > name
      invariant 0 <= i <= |names|
      invariant forall j :: i <= j < |names| ==> names[j] > name
      decreases i
    {
      i := i - 1;
    }
    sorted := names[..i] + [name] + names[i..];
    ListingGains(names, name, i, keys);
  }

  lemma ListingGains(names: seq<nat>, name: nat, i: nat, keys: set<nat>)
    requires IsListing(names, keys) && name !in keys && i <= |names|
    requires i > 0 ==> names[i - 1] <= name
    requires forall j :: i <= j < |names| ==> names[j] > name
    ensures IsListing(names[..i] + [name] + names[i..], keys + {name})
  {
    var sorted := names[..i] + [name] + names[i..];
    assert i > 0 ==> names[i - 1] in names;
    assert forall j :: 0 <= j < i ==> sorted[j] == names[j] && names[j] < name;
    assert forall j :: i < j < |sorted| ==> sorted[j] == names[j - 1];
    ListingMembers(names, name, i);
  }

  lemma ListingMembers(names: seq<nat>, name: nat, i: nat)
    requires i <= |names|
    ensures forall n :: n in names[..i] + [name] + names[i..] <==> n in names || n == name
  {
    assert names == names[..i] + names[i..];
  }

  /** A damaged segment ends the scan of everything after it. */
  lemma {:induction false} ScanStops(disk: Disk, names: seq<nat>, i: nat, fromLsn: nat)
    requires forall n :: n in names ==> n in disk
    requires i <= |names| && Scanned(disk, names[..i], fromLsn).Err?
    ensures Scanned(disk, names, fromLsn) == Scanned(disk, names[..i], fromLsn)
  {
    if i == |names| {
      assert names[..i] == names;
    } else {
      assert names[..|names| - 1][..i] == names[..i];
      ScanStops(disk, names[..|names| - 1], i, fromLsn);
    }
  }

  lemma NothingScanned(disk: Disk, fromLsn: nat)
    ensures Scanned(disk, [], fromLsn) == Ok(Scan(disk, [], [], 0))
  {
  }

  lemma ScannedNext(disk: Disk, names: seq<nat>, i: nat, fromLsn: nat)
    requires i < |names| && (forall n :: n in names ==> n in disk) && Scanned(disk, names[..i], fromLsn).Ok?
    ensures Scanned(disk, names[..i + 1], fromLsn)
            == WithSegment(Scanned(disk, names[..i], fromLsn).value, names[i], disk[names[i]], fromLsn)
  {
    hide WithSegment;
    assert names[..i + 1][..i] == names[..i] && names[..i + 1][i] == names[i];
  }

  /** Open the log in a directory, repairing torn tails and replaying what lies above `fromLsn`. */
  method OpenWal(disk: Disk, segmentMaxBytes: nat, fromLsn: nat)
    returns (r: Result<(Wal, seq<Record>, nat), Reason>)
    ensures r.Ok? ==>
              && fresh(r.value.0) && r.value.0.segmentMaxBytes == segmentMaxBytes
              && Open(disk, fromLsn) == Ok(Opened(r.value.0.View(), r.value.1, r.value.2))
    ensures r.Err? ==> Open(disk, fromLsn) == Err(r.error)
  {
    hide Replay, MaxLsn, Above, Listing, Scanned;
    var names := ListSegments(disk);
    assert forall n :: n in names <==> n in disk.Keys;
    var scan := Scan(disk, [], [], 0);
    assert names[..0] == [];
    NothingScanned(disk, fromLsn);
    for i := 0 to |names|
      invariant Scanned(disk, names[..i], fromLsn) == Ok(scan)
    {
      ScannedNext(disk, names, i, fromLsn);
      var name := names[i];
      var log, segMax := ReplaySegment(disk[name]);
      if log.Err? {
        ScanStops(disk, names, i + 1, fromLsn);
        return Err(log.error);
      }
      scan := Scan(scan.disk[name := disk[name][..log.value.goodBytes]],
                   scan.segments + [Segment(name, segMax)],
                   scan.records + Above(log.value.records, fromLsn),
                   Max(scan.maxLsn, segMax));
    }
    assert names[..|names|] == names;
    var start := Resumed(scan);
    var wal := new Wal(segmentMaxBytes, start.wal);
    r := Ok((wal, start.records, start.maxLsn));
  }
}
