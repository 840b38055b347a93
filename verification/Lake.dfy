/** The columnar level: files, the in-memory file index and the pruned point read
    (src/index.rs, src/read.rs). */
module Lake {
  import opened Bytes
  import opened Records
  import opened Frames
  import opened Memtables
  import opened Blooms

  datatype RowGroup = RowGroup(rows: seq<Record>, min: Option<Key>, max: Option<Key>)

  /** One live data file: its index entry, and the row groups the entry's location names. */
  datatype File = File(watermark: nat, pkMin: Key, pkMax: Key, bloom: Option<Bloom>, groups: seq<RowGroup>)

  // ---- The point read ------------------------------------------------------------------------

  predicate IntervalMayContain(f: File, key: Key) {
    AtMost(f.pkMin, key) && AtMost(key, f.pkMax)
  }

  predicate BloomMayContain(f: File, key: Key)
    requires f.bloom.Some? ==> f.bloom.value.Valid()
  {
    f.bloom.None? || MayContain(f.bloom.value, key)
  }

  /** A group without both statistics cannot be ruled out. */
  predicate RowGroupMayContain(g: RowGroup, key: Key) {
    g.min.Some? && g.max.Some? ==> AtMost(g.min.value, key) && AtMost(key, g.max.value)
  }

  function RowAnswer(row: Record): Lookup {
    if row.op.Delete? then Deleted else Found(row.value)
  }

  function ScanRows(rows: seq<Record>, key: Key): Lookup {
    if rows == [] then Missing
    else if rows[0].key == key then RowAnswer(rows[0])
    else ScanRows(rows[1..], key)
  }

  /** The first group that may hold the key answers for the whole file. */
  function GetFromGroups(groups: seq<RowGroup>, key: Key): Lookup {
    if groups == [] then Missing
    else if RowGroupMayContain(groups[0], key) then ScanRows(groups[0].rows, key)
    else GetFromGroups(groups[1..], key)
  }

  predicate BloomsValid(index: seq<File>) {
    forall i :: 0 <= i < |index| ==> index[i].bloom.Some? ==> index[i].bloom.value.Valid()
  }

  /** Newest file first; the first file with an opinion answers. */
  function ColumnarGet(index: seq<File>, key: Key): Lookup
    requires BloomsValid(index)
  {
    if index == [] then Missing
    else
      var hit := if IntervalMayContain(index[0], key) && BloomMayContain(index[0], key)
                 then GetFromGroups(index[0].groups, key) else Missing;
      if hit.Missing? then ColumnarGet(index[1..], key) else hit
  }

  method ScanRowGroup(group: RowGroup, key: Key) returns (hit: Lookup)
    ensures hit == ScanRows(group.rows, key)
  {
    var rows := group.rows;
    assert rows[0..] == rows;
    for i := 0 to |rows|
      invariant ScanRows(rows, key) == ScanRows(rows[i..], key)
    {
      assert rows[i..][0] == rows[i] && rows[i..][1..] == rows[i + 1..];
      if rows[i].key != key {
        continue;
      }
      return if rows[i].op.Delete? then Deleted else Found(rows[i].value);
    }
    hit := Missing;
  }

  method GetFromFile(file: File, key: Key) returns (hit: Lookup)
    ensures hit == GetFromGroups(file.groups, key)
  {
    hide ScanRows, AtMost;
    var groups := file.groups;
    assert groups[0..] == groups;
    for i := 0 to |groups|
      invariant GetFromGroups(groups, key) == GetFromGroups(groups[i..], key)
    {
      assert groups[i..][0] == groups[i] && groups[i..][1..] == groups[i + 1..];
      if !RowGroupMayContain(groups[i], key) {
        continue;
      }
      hit := ScanRowGroup(groups[i], key);
      return;
    }
    hit := Missing;
  }

  method Get(index: seq<File>, key: Key) returns (hit: Lookup)
    requires BloomsValid(index)
    ensures hit == ColumnarGet(index, key)
  {
    hide GetFromGroups, AtMost, MayContain;
    assert index[0..] == index;
    for i := 0 to |index|
      invariant ColumnarGet(index, key) == ColumnarGet(index[i..], key)
    {
      assert index[i..][0] == index[i] && index[i..][1..] == index[i + 1..];
      if !IntervalMayContain(index[i], key) {
        continue;
      }
      if index[i].bloom.Some? {
        var maybe := MightContain(index[i].bloom.value, key);
        if !maybe {
          continue;
        }
      }
      hit := GetFromFile(index[i], key);
      if hit.Missing? {
        continue;
      }
      return;
    }
    hit := Missing;
  }

  // ---- Well-formed files -----------------------------------------------------------------------

  function AllRows(groups: seq<RowGroup>): seq<Record> {
    if groups == [] then [] else groups[0].rows + AllRows(groups[1..])
  }

  predicate ExactStats(g: RowGroup) {
    g.rows != [] && g.min == Some(g.rows[0].key) && g.max == Some(g.rows[|g.rows| - 1].key)
  }

  predicate NoStats(g: RowGroup) {
    g.min.None? || g.max.None?
  }

  /** Only the last group may lack statistics. */
  predicate StatsSuffice(groups: seq<RowGroup>) {
    forall i :: 0 <= i < |groups| ==> !NoStats(groups[i]) || i == |groups| - 1
  }

  /** PK-sorted unique rows; statistics, where present, exact. */
  predicate SortedGroups(groups: seq<RowGroup>) {
    && SortedRows(AllRows(groups))
    && forall i :: 0 <= i < |groups| ==> groups[i].rows != [] && (ExactStats(groups[i]) || NoStats(groups[i]))
  }

  /** A file as the publisher writes it: bounds and watermark are statistics of its rows, and
      its bloom, if any, was built over all its keys. */
  ghost predicate WellFormed(f: File) {
    var rows := AllRows(f.groups);
    && rows != []
    && SortedGroups(f.groups) && StatsSuffice(f.groups)
    && f.pkMin == rows[0].key && f.pkMax == rows[|rows| - 1].key
    && f.watermark == MaxLsn(rows)
    && (f.bloom.Some? ==> f.bloom.value.Valid() && forall r :: r in rows ==> MayContain(f.bloom.value, r.key))
  }

  function ContentOf(rows: seq<Record>): map<Key, Entry> {
    if rows == [] then map[]
    else ContentOf(rows[..|rows| - 1])[rows[|rows| - 1].key := EntryOf(rows[|rows| - 1])]
  }

  function Content(f: File): map<Key, Entry> {
    ContentOf(AllRows(f.groups))
  }

  // ---- Reading one file is a lookup in its content ----------------------------------------------

  lemma {:induction false} ScanFinds(rows: seq<Record>, key: Key, i: nat)
    requires SortedRows(rows) && i < |rows| && rows[i].key == key
    ensures ScanRows(rows, key) == RowAnswer(rows[i])
  {
    if i > 0 {
      LessIrreflexive(key);
      assert rows[0].key != key;
      assert forall j :: 0 <= j < |rows[1..]| ==> rows[1..][j] == rows[j + 1];
      ScanFinds(rows[1..], key, i - 1);
    }
  }

  lemma {:induction false} ScanMisses(rows: seq<Record>, key: Key)
    requires !HasKey(rows, key)
    ensures ScanRows(rows, key) == Missing
  {
    if rows != [] {
      assert forall j :: 0 <= j < |rows[1..]| ==> rows[1..][j] == rows[j + 1];
      ScanMisses(rows[1..], key);
    }
  }

  lemma SplitSorted(groups: seq<RowGroup>)
    requires groups != [] && SortedGroups(groups)
    ensures SortedRows(groups[0].rows) && SortedGroups(groups[1..])
    ensures forall r, q :: r in groups[0].rows && q in AllRows(groups[1..]) ==> Less(r.key, q.key)
  {
    hide Less;
    var first, rest, all := groups[0].rows, AllRows(groups[1..]), AllRows(groups);
    assert all == first + rest;
    assert forall i :: 0 <= i < |first| ==> all[i] == first[i];
    assert forall i :: 0 <= i < |rest| ==> all[|first| + i] == rest[i];
    forall r, q | r in first && q in rest
      ensures Less(r.key, q.key)
    {
      var i :| 0 <= i < |first| && first[i] == r;
      var j :| 0 <= j < |rest| && rest[j] == q;
      assert all[i] == r && all[|first| + j] == q;
    }
  }

  lemma InsideStats(g: RowGroup, key: Key)
    requires ExactStats(g) && SortedRows(g.rows) && HasKey(g.rows, key)
    ensures RowGroupMayContain(g, key)
  {
  }

  /** Above every row of a group means ruled out by its exact statistics. */
  lemma OutsideStats(g: RowGroup, key: Key)
    requires ExactStats(g) && forall r :: r in g.rows ==> Less(r.key, key)
    ensures !RowGroupMayContain(g, key)
  {
    var max := g.rows[|g.rows| - 1].key;
    assert g.rows[|g.rows| - 1] in g.rows;
    if Less(key, max) {
      LessTransitive(max, key, max);
      LessIrreflexive(max);
    }
    LessIrreflexive(max);
  }

  lemma {:induction false} GroupsMiss(groups: seq<RowGroup>, key: Key)
    requires !HasKey(AllRows(groups), key)
    ensures GetFromGroups(groups, key) == Missing
  {
    hide RowGroupMayContain, ScanRows;
    if groups != [] {
      var first, rest, all := groups[0].rows, AllRows(groups[1..]), AllRows(groups);
      assert forall i :: 0 <= i < |first| ==> all[i] == first[i];
      assert forall i :: 0 <= i < |rest| ==> all[|first| + i] == rest[i];
      ScanMisses(first, key);
      GroupsMiss(groups[1..], key);
    }
  }

  lemma StatsOfRest(groups: seq<RowGroup>)
    requires groups != [] && StatsSuffice(groups)
    ensures StatsSuffice(groups[1..])
  {
    assert forall i :: 0 <= i < |groups[1..]| ==> groups[1..][i] == groups[i + 1];
  }

  lemma {:induction false} GroupsFind(groups: seq<RowGroup>, row: Record)
    requires SortedGroups(groups) && StatsSuffice(groups) && row in AllRows(groups)
    ensures GetFromGroups(groups, row.key) == RowAnswer(row)
  {
    hide RowGroupMayContain, ScanRows, Less;
    var g := groups[0];
    SplitSorted(groups);
    StatsOfRest(groups);
    if row in g.rows {
      var i :| 0 <= i < |g.rows| && g.rows[i] == row;
      ScanFinds(g.rows, row.key, i);
      assert HasKey(g.rows, row.key);
      if NoStats(g) {
        CannotRuleOut(g, row.key);
      } else {
        InsideStats(g, row.key);
      }
    } else {
      assert row in AllRows(groups[1..]);
      assert |groups| > 1;
      OutsideStats(g, row.key);
      GroupsFind(groups[1..], row);
    }
  }

  lemma CannotRuleOut(g: RowGroup, key: Key)
    requires NoStats(g)
    ensures RowGroupMayContain(g, key)
  {
  }

  lemma {:induction false} ContentRows(rows: seq<Record>)
    requires SortedRows(rows)
    ensures forall r :: r in rows ==> r.key in ContentOf(rows) && ContentOf(rows)[r.key] == EntryOf(r)
    ensures forall k :: k in ContentOf(rows) ==> RecordAt(k, ContentOf(rows)[k]) in rows
  {
    hide Less;
    if rows != [] {
      var n := |rows| - 1;
      var init, last := rows[..n], rows[n];
      ContentRows(init);
      assert forall r :: r in rows <==> r in init || r == last;
      forall r | r in init
        ensures r.key != last.key
      {
        var i :| 0 <= i < n && init[i] == r;
        assert Less(rows[i].key, rows[n].key);
        LessIrreflexive(r.key);
      }
    }
  }

  lemma ContentHas(rows: seq<Record>)
    requires SortedRows(rows)
    ensures forall k :: k in ContentOf(rows) <==> HasKey(rows, k)
    ensures forall r :: r in rows ==> r.key in ContentOf(rows) && ContentOf(rows)[r.key] == EntryOf(r)
    ensures forall k :: k in ContentOf(rows) ==> RecordAt(k, ContentOf(rows)[k]) in rows
  {
    hide SortedRows, ContentOf;
    ContentRows(rows);
    forall k | HasKey(rows, k)
      ensures k in ContentOf(rows)
    {
      var i :| 0 <= i < |rows| && rows[i].key == k;
      assert rows[i] in rows;
    }
    forall k | k in ContentOf(rows)
      ensures HasKey(rows, k)
    {
      var i :| 0 <= i < |rows| && rows[i] == RecordAt(k, ContentOf(rows)[k]);
      assert rows[i].key == k;
    }
  }

  lemma ScanIsContent(rows: seq<Record>, entries: map<Key, Entry>)
    requires IsScan(rows, entries)
    ensures ContentOf(rows) == entries
  {
    hide SortedRows;
    ContentHas(rows);
    forall k | k in entries
      ensures k in ContentOf(rows) && ContentOf(rows)[k] == entries[k]
    {
      assert HasKey(rows, k);
      var i :| 0 <= i < |rows| && rows[i].key == k;
      assert rows[i] in rows;
    }
    forall k | k in ContentOf(rows)
      ensures k in entries
    {
      assert HasKey(rows, k);
    }
  }

  lemma BoundsHold(f: File, row: Record)
    requires WellFormed(f) && row in AllRows(f.groups)
    ensures IntervalMayContain(f, row.key) && BloomMayContain(f, row.key)
  {
    hide Less, MayContain;
    var rows := AllRows(f.groups);
    var i :| 0 <= i < |rows| && rows[i] == row;
  }

  function FileAnswer(f: File, key: Key): Lookup {
    if key in Content(f) then Answer(Content(f)[key]) else Missing
  }

  /** Pruning never changes a file's answer: interval, bloom and row-group skips together agree
      with a lookup among all its rows. */
  lemma FileReadIsLookup(f: File, key: Key)
    requires WellFormed(f)
    ensures GetFromGroups(f.groups, key) == FileAnswer(f, key)
    ensures !(IntervalMayContain(f, key) && BloomMayContain(f, key)) ==> FileAnswer(f, key) == Missing
  {
    hide MayContain, GetFromGroups, IntervalMayContain, BloomMayContain;
    var rows := AllRows(f.groups);
    ContentHas(rows);
    if key in Content(f) {
      var row := RecordAt(key, Content(f)[key]);
      assert row in rows;
      GroupsFind(f.groups, row);
      BoundsHold(f, row);
    } else {
      GroupsMiss(f.groups, key);
    }
  }

  /** With sorted groups, reading by row group is right for every key exactly when no group
      but the last lacks statistics. */
  lemma StatsConditionIsExact(groups: seq<RowGroup>)
    requires SortedGroups(groups)
    ensures (forall row :: row in AllRows(groups) ==> GetFromGroups(groups, row.key) == RowAnswer(row))
            <==> StatsSuffice(groups)
  {
    if StatsSuffice(groups) {
      forall row | row in AllRows(groups)
        ensures GetFromGroups(groups, row.key) == RowAnswer(row)
      {
        GroupsFind(groups, row);
      }
    } else {
      var i :| 0 <= i < |groups| - 1 && NoStats(groups[i]);
      var row := groups[i + 1].rows[0];
      RowOfGroup(groups, i + 1);
      StatlessGroupHides(groups, i, row);
    }
  }

  lemma {:induction false} RowOfGroup(groups: seq<RowGroup>, i: nat)
    requires i < |groups|
    ensures forall r :: r in groups[i].rows ==> r in AllRows(groups)
  {
    if i > 0 {
      RowOfGroup(groups[1..], i - 1);
    }
  }

  lemma {:induction false} StatlessGroupHides(groups: seq<RowGroup>, i: nat, row: Record)
    requires SortedGroups(groups) && i + 1 < |groups| && NoStats(groups[i]) && row in groups[i + 1].rows
    ensures GetFromGroups(groups, row.key) == Missing
  {
    hide Less, RowGroupMayContain, ScanRows;
    SplitSorted(groups);
    RowOfGroup(groups[1..], i);
    LessIrreflexive(row.key);
    assert !HasKey(groups[0].rows, row.key) by {
      assert forall j :: 0 <= j < |groups[0].rows| ==> groups[0].rows[j] in groups[0].rows;
    }
    ScanMisses(groups[0].rows, row.key);
    if i == 0 {
      CannotRuleOut(groups[0], row.key);
    } else {
      StatlessGroupHides(groups[1..], i - 1, row);
    }
  }

  // ---- What pruning rules out --------------------------------------------------------------------

  /** The key lies between two of the rows. */
  predicate Brackets(rows: seq<Record>, key: Key) {
    && (exists i :: 0 <= i < |rows| && AtMost(rows[i].key, key))
    && (exists j :: 0 <= j < |rows| && AtMost(key, rows[j].key))
  }

  lemma AtMostTransitive(a: Key, b: Key, c: Key)
    requires AtMost(a, b) && AtMost(b, c)
    ensures AtMost(a, c)
  {
    hide Less;
    if a != b && b != c {
      LessTransitive(a, b, c);
    }
  }

  lemma EndsBracket(rows: seq<Record>, key: Key)
    requires SortedRows(rows) && rows != []
    ensures Brackets(rows, key) <==> AtMost(rows[0].key, key) && AtMost(key, rows[|rows| - 1].key)
  {
    hide Less, AtMost;
    var n := |rows| - 1;
    forall i | 0 <= i <= n
      ensures AtMost(rows[0].key, rows[i].key) && AtMost(rows[i].key, rows[n].key)
    {
      InOrder(rows, 0, i);
      InOrder(rows, i, n);
    }
    if Brackets(rows, key) {
      var i :| 0 <= i < |rows| && AtMost(rows[i].key, key);
      var j :| 0 <= j < |rows| && AtMost(key, rows[j].key);
      AtMostTransitive(rows[0].key, rows[i].key, key);
      AtMostTransitive(key, rows[j].key, rows[n].key);
    }
  }

  lemma InOrder(rows: seq<Record>, i: nat, j: nat)
    requires SortedRows(rows) && i <= j < |rows|
    ensures AtMost(rows[i].key, rows[j].key)
  {
  }

  lemma {:induction false} RowsOfGroup(groups: seq<RowGroup>, i: nat)
    requires i < |groups| && SortedGroups(groups)
    ensures SortedRows(groups[i].rows)
  {
    hide Less;
    SplitSorted(groups);
    if i > 0 {
      RowsOfGroup(groups[1..], i - 1);
    }
  }

  lemma {:induction false} GroupsAscend(groups: seq<RowGroup>, i: nat, j: nat, r: Record, q: Record)
    requires SortedGroups(groups) && i < j < |groups| && r in groups[i].rows && q in groups[j].rows
    ensures Less(r.key, q.key)
  {
    hide Less, SortedGroups;
    SplitSorted(groups);
    if i == 0 {
      RowOfGroup(groups[1..], j - 1);
    } else {
      GroupsAscend(groups[1..], i - 1, j - 1, r, q);
    }
  }

  /** Pruning keeps nothing it could dismiss: a file's bounds let a key through exactly if it lies
      between two rows of the file, a group's statistics exactly if it lies between two of its own. */
  lemma PruningIsTight(f: File, key: Key, i: nat)
    requires WellFormed(f) && i < |f.groups|
    ensures IntervalMayContain(f, key) <==> Brackets(AllRows(f.groups), key)
    ensures RowGroupMayContain(f.groups[i], key) <==> NoStats(f.groups[i]) || Brackets(f.groups[i].rows, key)
  {
    hide Less, AtMost, Brackets, MayContain;
    EndsBracket(AllRows(f.groups), key);
    RowsOfGroup(f.groups, i);
    EndsBracket(f.groups[i].rows, key);
  }

  /** At most one group with statistics may hold a key, which is why the read stops at the first. */
  lemma OneGroupMayHold(groups: seq<RowGroup>, key: Key, i: nat, j: nat)
    requires SortedGroups(groups) && i < j < |groups| && ExactStats(groups[i]) && ExactStats(groups[j])
    ensures !RowGroupMayContain(groups[i], key) || !RowGroupMayContain(groups[j], key)
  {
    hide Less;
    var last, first := groups[i].rows[|groups[i].rows| - 1], groups[j].rows[0];
    GroupsAscend(groups, i, j, last, first);
    if AtMost(key, last.key) && AtMost(first.key, key) {
      AtMostTransitive(first.key, key, last.key);
      if first.key != last.key {
        LessTransitive(last.key, first.key, last.key);
      }
      LessIrreflexive(last.key);
    }
  }

  // ---- Layers --------------------------------------------------------------------------------------

  /** The newest layer with an opinion; layers are listed oldest first. */
  function Top(layers: seq<map<Key, Entry>>, key: Key): Option<Entry> {
    if layers == [] then None
    else
      var last := layers[|layers| - 1];
      if key in last then Some(last[key]) else Top(layers[..|layers| - 1], key)
  }

  function Contents(files: seq<File>): seq<map<Key, Entry>> {
    seq(|files|, i requires 0 <= i < |files| => Content(files[i]))
  }

  function LookupOf(top: Option<Entry>): Lookup {
    match top
    case None => Missing
    case Some(e) => Answer(e)
  }

  // ---- The index ---------------------------------------------------------------------------------

  /** Stable insertion into a list sorted newest first. */
  function InsertNewest(sorted: seq<File>, f: File): seq<File> {
    if sorted == [] then [f]
    else if sorted[0].watermark >= f.watermark then [sorted[0]] + InsertNewest(sorted[1..], f)
    else [f] + sorted
  }

  /** The index `FileIndex::load` builds from the catalog's live files. */
  function IndexOf(files: seq<File>): seq<File> {
    if files == [] then [] else InsertNewest(IndexOf(files[..|files| - 1]), files[|files| - 1])
  }

  function IndexWatermark(index: seq<File>): nat {
    if index == [] then 0 else index[0].watermark
  }

  /** `MAX(lsn)` over the live files, 0 when there are none. */
  function PublishedWatermark(files: seq<File>): nat {
    if files == [] then 0
    else
      var rest := PublishedWatermark(files[..|files| - 1]);
      if rest < files[|files| - 1].watermark then files[|files| - 1].watermark else rest
  }

  /** Files in publish order: each well formed, each row above everything published before. */
  ghost predicate GoodLake(files: seq<File>) {
    && (forall i :: 0 <= i < |files| ==> WellFormed(files[i]))
    && (forall i, j, r, q :: 0 <= i < j < |files| && r in AllRows(files[i].groups) && q in AllRows(files[j].groups)
          ==> r.lsn < q.lsn)
  }

  ghost predicate IncreasingWatermarks(files: seq<File>) {
    forall i, j :: 0 <= i < j < |files| ==> files[i].watermark < files[j].watermark
  }

  lemma GoodLakeWatermarks(files: seq<File>)
    requires GoodLake(files)
    ensures IncreasingWatermarks(files)
  {
    hide AllRows, MaxLsn, SortedGroups, StatsSuffice;
    forall i, j | 0 <= i < j < |files|
      ensures files[i].watermark < files[j].watermark
    {
      MaxLsnBelow(AllRows(files[i].groups), AllRows(files[j].groups));
    }
  }

  lemma MaxLsnBelow(a: seq<Record>, b: seq<Record>)
    requires b != [] && forall r, q :: r in a && q in b ==> r.lsn < q.lsn
    requires a != []
    ensures MaxLsn(a) < MaxLsn(b)
  {
    hide MaxLsn;
    MaxLsnBounds(a);
    MaxLsnBounds(b);
    assert a[0] in a && b[0] in b;
    if MaxLsn(a) > 0 {
      var y :| 0 <= y < |a| && a[y].lsn == MaxLsn(a);
      assert a[y] in a;
    }
  }

  /** With watermarks increasing in publish order the index is the files newest first. */
  lemma {:induction false} IndexIsReversed(files: seq<File>)
    requires IncreasingWatermarks(files)
    ensures IndexOf(files) == seq(|files|, i requires 0 <= i < |files| => files[|files| - 1 - i])
    ensures IndexWatermark(IndexOf(files)) == PublishedWatermark(files)
  {
    if files != [] {
      var n := |files| - 1;
      IndexIsReversed(files[..n]);
      var before := IndexOf(files[..n]);
      assert n > 0 ==> before[0] == files[n - 1];
      assert IndexOf(files) == [files[n]] + before;
    }
  }

  /** The files with one watermark, in the order given. */
  function WithWatermark(files: seq<File>, w: nat): seq<File> {
    if files == [] then []
    else
      var rest := WithWatermark(files[..|files| - 1], w);
      if files[|files| - 1].watermark == w then rest + [files[|files| - 1]] else rest
  }

  predicate Descending(files: seq<File>) {
    forall i, j :: 0 <= i < j < |files| ==> files[i].watermark >= files[j].watermark
  }

  lemma {:induction false} WithWatermarkConcat(a: seq<File>, b: seq<File>, w: nat)
    ensures WithWatermark(a + b, w) == WithWatermark(a, w) + WithWatermark(b, w)
    decreases |b|
  {
    if b == [] {
      assert a + b == a;
    } else {
      WithWatermarkConcat(a, b[..|b| - 1], w);
      assert (a + b)[..|a + b| - 1] == a + b[..|b| - 1];
    }
  }

  lemma {:induction false} NoneBelow(files: seq<File>, w: nat)
    requires forall f :: f in files ==> f.watermark < w
    ensures WithWatermark(files, w) == []
  {
    if files != [] {
      NoneBelow(files[..|files| - 1], w);
    }
  }

  lemma {:induction false} InsertKeepsFiles(sorted: seq<File>, f: File)
    ensures multiset(InsertNewest(sorted, f)) == multiset(sorted) + multiset{f}
  {
    if sorted != [] && sorted[0].watermark >= f.watermark {
      InsertKeepsFiles(sorted[1..], f);
      assert sorted == [sorted[0]] + sorted[1..];
    }
  }

  lemma PrependDescends(first: File, rest: seq<File>)
    requires Descending(rest) && forall i :: 0 <= i < |rest| ==> rest[i].watermark <= first.watermark
    ensures Descending([first] + rest)
  {
  }

  lemma TailDescends(files: seq<File>)
    requires Descending(files) && files != []
    ensures Descending(files[1..]) && forall i :: 0 <= i < |files| ==> files[i].watermark <= files[0].watermark
  {
  }

  lemma {:induction false} InsertSorts(sorted: seq<File>, f: File)
    requires Descending(sorted)
    ensures Descending(InsertNewest(sorted, f))
    ensures forall i :: 0 <= i < |InsertNewest(sorted, f)| ==>
              InsertNewest(sorted, f)[i] == f || InsertNewest(sorted, f)[i] in sorted
  {
    hide Descending;
    if sorted == [] {
      PrependDescends(f, sorted);
      assert [f] + sorted == [f];
    } else {
      TailDescends(sorted);
      if sorted[0].watermark >= f.watermark {
        InsertSorts(sorted[1..], f);
        PrependDescends(sorted[0], InsertNewest(sorted[1..], f));
      } else {
        PrependDescends(f, sorted);
      }
    }
  }

  lemma NewestGoesFirst(sorted: seq<File>, f: File, w: nat)
    requires Descending(sorted) && (sorted != [] ==> sorted[0].watermark < f.watermark)
    ensures WithWatermark([f] + sorted, w) == WithWatermark(sorted + [f], w)
  {
    hide WithWatermark;
    WithWatermarkConcat(sorted, [f], w);
    WithWatermarkConcat([f], sorted, w);
    OneWatermark(f, w);
    if f.watermark == w {
      NoneBelow(sorted, w);
    }
  }

  lemma {:induction false} InsertIsStable(sorted: seq<File>, f: File, w: nat)
    requires Descending(sorted)
    ensures WithWatermark(InsertNewest(sorted, f), w) == WithWatermark(sorted + [f], w)
  {
    hide WithWatermark;
    if sorted == [] || sorted[0].watermark < f.watermark {
      NewestGoesFirst(sorted, f, w);
      assert InsertNewest(sorted, f) == [f] + sorted;
    } else {
      var first, rest := [sorted[0]], sorted[1..];
      InsertIsStable(rest, f, w);
      WithWatermarkConcat(first, InsertNewest(rest, f), w);
      WithWatermarkConcat(first, rest + [f], w);
      assert sorted + [f] == first + (rest + [f]);
    }
  }

  lemma OneWatermark(f: File, w: nat)
    ensures WithWatermark([f], w) == if f.watermark == w then [f] else []
  {
    assert [f][..0] == [];
  }

  lemma NothingDescends()
    ensures Descending([])
  {
  }

  /** The index is the catalog's live files sorted by descending watermark, files with one
      watermark in catalog order. */
  lemma {:induction false} IndexIsSorted(files: seq<File>, w: nat)
    ensures Descending(IndexOf(files)) && multiset(IndexOf(files)) == multiset(files)
    ensures WithWatermark(IndexOf(files), w) == WithWatermark(files, w)
  {
    hide WithWatermark, Descending;
    if files == [] {
      NothingDescends();
    } else {
      var init, f := files[..|files| - 1], files[|files| - 1];
      IndexIsSorted(init, w);
      InsertSorts(IndexOf(init), f);
      InsertKeepsFiles(IndexOf(init), f);
      InsertIsStable(IndexOf(init), f, w);
      assert files == init + [f];
      WithWatermarkConcat(IndexOf(init), [f], w);
      WithWatermarkConcat(init, [f], w);
    }
  }

  /** Load the index: read every live file's row, then sort newest first. */
  method Load(catalog: seq<File>) returns (index: seq<File>)
    ensures index == IndexOf(catalog)
  {
    var entries := [];
    assert catalog[..0] == [];
    for i := 0 to |catalog|
      invariant entries == catalog[..i]
    {
      entries := entries + [catalog[i]];
    }
    assert catalog[..|catalog|] == catalog;
    index := SortNewest(entries);
  }

  method SortNewest(entries: seq<File>) returns (sorted: seq<File>)
    ensures sorted == IndexOf(entries)
  {
    sorted := [];
    assert entries[..0] == [];
    for i := 0 to |entries|
      invariant sorted == IndexOf(entries[..i])
    {
      assert entries[..i + 1][..i] == entries[..i];
      sorted := PlaceNewest(sorted, entries[i]);
    }
    assert entries[..|entries|] == entries;
  }

  method PlaceNewest(sorted: seq<File>, f: File) returns (out: seq<File>)
    ensures out == InsertNewest(sorted, f)
  {
    var at := 0;
    assert sorted[..0] == [] && sorted[0..] == sorted;
    while at < |sorted| && sorted[at].watermark >= f.watermark
      invariant at <= |sorted|
      invariant InsertNewest(sorted, f) == sorted[..at] + InsertNewest(sorted[at..], f)
    {
      PassOne(sorted, at, f);
      at := at + 1;
    }
    out := sorted[..at] + [f] + sorted[at..];
    assert InsertNewest(sorted[at..], f) == [f] + sorted[at..];
  }

  lemma PassOne(sorted: seq<File>, at: nat, f: File)
    requires at < |sorted| && sorted[at].watermark >= f.watermark
    ensures sorted[..at] + InsertNewest(sorted[at..], f) == sorted[..at + 1] + InsertNewest(sorted[at + 1..], f)
  {
    assert sorted[at..][1..] == sorted[at + 1..];
    Associative(sorted[..at], [sorted[at]], InsertNewest(sorted[at + 1..], f));
    assert sorted[..at + 1] == sorted[..at] + [sorted[at]];
  }

  // ---- The pruned read agrees with a naive search ----------------------------------------------------

  lemma {:induction false} ReversedReadIsTop(files: seq<File>, index: seq<File>, key: Key)
    requires |index| == |files| && forall i :: 0 <= i < |files| ==> index[i] == files[|files| - 1 - i]
    requires forall i :: 0 <= i < |files| ==> WellFormed(files[i])
    ensures BloomsValid(index) && ColumnarGet(index, key) == LookupOf(Top(Contents(files), key))
    decreases |files|
  {
    hide IntervalMayContain, BloomMayContain, GetFromGroups, AllRows, ContentOf, SortedGroups, StatsSuffice,
      MayContain;
    if files != [] {
      var n := |files| - 1;
      FileReadIsLookup(files[n], key);
      assert index[1..] == seq(n, i requires 0 <= i < n => index[i + 1]);
      ReversedReadIsTop(files[..n], index[1..], key);
      assert Contents(files)[..n] == Contents(files[..n]);
      assert Contents(files)[n] == Content(files[n]);
    }
  }

  /** The columnar read answers the newest layer's opinion. */
  lemma ColumnarReadIsTop(files: seq<File>, key: Key)
    requires GoodLake(files)
    ensures BloomsValid(IndexOf(files)) && ColumnarGet(IndexOf(files), key) == LookupOf(Top(Contents(files), key))
  {
    hide WellFormed, ColumnarGet, BloomsValid, Top, IndexOf, PublishedWatermark, IncreasingWatermarks;
    GoodLakeWatermarks(files);
    IndexIsReversed(files);
    ReversedReadIsTop(files, IndexOf(files), key);
  }

  /** `row` is the highest-LSN row for its key over all rows of all files. */
  ghost predicate HighestRow(files: seq<File>, row: Record) {
    && (exists i :: 0 <= i < |files| && row in AllRows(files[i].groups))
    && forall i, q :: 0 <= i < |files| && q in AllRows(files[i].groups) && q.key == row.key ==> q.lsn <= row.lsn
  }

  /** Newest file first, first hit wins, every prune on: the answer is the highest-LSN row for
      the key over every row of every live file, and Missing exactly when there is none. */
  lemma PrunedReadIsNaive(files: seq<File>, key: Key)
    requires GoodLake(files)
    ensures BloomsValid(IndexOf(files))
    ensures forall row :: HighestRow(files, row) && row.key == key ==> ColumnarGet(IndexOf(files), key) == RowAnswer(row)
    ensures ColumnarGet(IndexOf(files), key).Missing?
            <==> forall i, q :: 0 <= i < |files| && q in AllRows(files[i].groups) ==> q.key != key
  {
    hide WellFormed, Content, BloomsValid, ColumnarGet;
    ColumnarReadIsTop(files, key);
    TopOfFiles(files, key);
    var top := Top(Contents(files), key);
    if top.Some? {
      var won := RecordAt(key, top.value);
      forall row | HighestRow(files, row) && row.key == key
        ensures row == won
      {
        var i :| 0 <= i < |files| && row in AllRows(files[i].groups);
        var j :| NewestWith(files, key, j, won);
        assert i <= j;
        assert i < j ==> row.lsn < won.lsn;
        assert won.lsn <= row.lsn;
        SameKeySameRow(files[i], row, won);
      }
    }
  }

  lemma SameKeySameRow(f: File, a: Record, b: Record)
    requires WellFormed(f) && a in AllRows(f.groups) && b in AllRows(f.groups) && a.key == b.key
    ensures a == b
  {
    ContentHas(AllRows(f.groups));
  }

  /** The top layer's entry is a row of the newest file that holds the key. */
  ghost predicate NewestWith(files: seq<File>, key: Key, j: int, row: Record) {
    && 0 <= j < |files| && row in AllRows(files[j].groups)
    && forall l, q :: j < l < |files| && q in AllRows(files[l].groups) ==> q.key != key
  }

  lemma {:induction false} TopOfFiles(files: seq<File>, key: Key)
    requires forall i :: 0 <= i < |files| ==> WellFormed(files[i])
    ensures match Top(Contents(files), key)
            case None => forall i, q :: 0 <= i < |files| && q in AllRows(files[i].groups) ==> q.key != key
            case Some(e) => exists j :: NewestWith(files, key, j, RecordAt(key, e))
    decreases |files|
  {
    hide WellFormed, AllRows, ContentOf;
    if files != [] {
      var n := |files| - 1;
      TopOfFiles(files[..n], key);
      RowsOfFile(files[n], key);
      assert Contents(files)[..n] == Contents(files[..n]);
      assert Contents(files)[n] == Content(files[n]);
      if key in Content(files[n]) {
        assert Top(Contents(files), key) == Some(Content(files[n])[key]);
        assert NewestWith(files, key, n, RecordAt(key, Top(Contents(files), key).value));
      } else if Top(Contents(files), key).Some? {
        var row := RecordAt(key, Top(Contents(files), key).value);
        var j :| NewestWith(files[..n], key, j, row);
        assert NewestWith(files, key, j, row);
        assert RecordAt(key, Top(Contents(files), key).value) == row;
      } else {
        assert Top(Contents(files), key) == None;
        assert forall i :: 0 <= i < n ==> files[..n][i] == files[i];
      }
    }
  }

  lemma RowsOfFile(f: File, key: Key)
    requires WellFormed(f)
    ensures key in Content(f) ==> RecordAt(key, Content(f)[key]) in AllRows(f.groups)
    ensures key !in Content(f) ==> forall q :: q in AllRows(f.groups) ==> q.key != key
  {
    ContentHas(AllRows(f.groups));
  }
}
