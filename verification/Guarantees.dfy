/** What the engine promises, for every state guarded steps can reach. */
module Guarantees {
  import opened Bytes
  import opened Records
  import opened Frames
  import opened WalLog
  import opened WalContents
  import opened Memtables
  import opened Lake
  import opened Flushes
  import opened Protocol
  import opened ProtocolInvariant
  import opened ProtocolSteps
  import opened ProtocolRecovery

  // ---- The tiered read is the newest layer's opinion ------------------------------------------------

  lemma {:induction false} TopConcat(a: seq<Layer>, b: seq<Layer>, key: Key)
    ensures Top(a + b, key) == if Top(b, key).Some? then Top(b, key) else Top(a, key)
  {
    if b == [] {
      assert a + b == a;
    } else {
      var n := |b| - 1;
      TopConcat(a, b[..n], key);
      assert (a + b)[..|a| + n] == a + b[..n];
    }
  }

  lemma TopOfSingle(layer: Layer, key: Key)
    ensures Top([layer], key) == if key in layer then Some(layer[key]) else None
  {
    assert [layer][..0] == [];
  }

  lemma {:induction false} FrozenIsTop(frozen: seq<Table>, key: Key)
    ensures LookupFrozen(frozen, key) == LookupOf(Top(EntriesOf(frozen), key))
  {
    if frozen != [] {
      var n := |frozen| - 1;
      FrozenIsTop(frozen[..n], key);
      assert EntriesOf(frozen)[..n] == EntriesOf(frozen[..n]);
    }
  }

  lemma TablesAreTop(ts: Tables, key: Key)
    ensures LookupTables(ts, key) == LookupOf(Top(EntriesOf(ts.frozen) + [ts.active.entries], key))
  {
    FrozenIsTop(ts.frozen, key);
    TopConcat(EntriesOf(ts.frozen), [ts.active.entries], key);
  }

  /** The files the cached index shows. */
  function Shown(s: State): seq<File> {
    if s.index == IndexOf(s.lake) || s.lake == [] then s.lake else s.lake[..|s.lake| - 1]
  }

  lemma GoodPrefix(lake: seq<File>)
    requires GoodLake(lake) && lake != []
    ensures GoodLake(lake[..|lake| - 1])
  {
    hide WellFormed;
  }

  lemma ShownFacts(s: State)
    requires LakeInv(s)
    ensures GoodLake(Shown(s)) && s.index == IndexOf(Shown(s))
  {
    hide GoodLake, IndexOf, PublishedWatermark, Content;
    if s.lake != [] {
      GoodPrefix(s.lake);
    }
  }

  lemma TopTwice(a: seq<Layer>, x: Layer, b: seq<Layer>, key: Key)
    ensures Top(a + [x] + ([x] + b), key) == Top(a + ([x] + b), key)
  {
    TopConcat(a + [x], [x] + b, key);
    TopConcat(a, [x] + b, key);
    TopConcat(a, [x], key);
    TopConcat([x], b, key);
  }

  /** The index may lag the lake by one file, and a frozen table may linger after its file is
      shown; either way reads see exactly the layers. */
  lemma ShownIsEverything(s: State, key: Key)
    requires LakeInv(s)
    ensures Top(Contents(Shown(s)) + (EntriesOf(s.tables.frozen) + [s.tables.active.entries]), key) == Top(Layers(s), key)
  {
    hide GoodLake, IndexOf, PublishedWatermark, Content, Top;
    var active := [s.tables.active.entries];
    if OldestPublished(s) {
      var x, rest := s.tables.frozen[0].entries, EntriesOf(s.tables.frozen[1..]) + active;
      var older := Contents(s.lake[..|s.lake| - 1]);
      assert EntriesOf(s.tables.frozen) + active == [x] + rest;
      assert Contents(s.lake) == older + [x];
      assert Layers(s) == older + ([x] + rest);
      TopTwice(older, x, rest, key);
    } else {
      assert Layers(s) == Contents(s.lake) + (EntriesOf(s.tables.frozen) + active);
    }
  }

  lemma LookupIsTop(s: State, key: Key)
    requires LakeInv(s)
    ensures BloomsValid(s.index) && EngineLookup(s, key) == LookupOf(Top(Layers(s), key))
  {
    hide GoodLake, IndexOf, PublishedWatermark, Content, Top, LakeInv, Contents, ColumnarGet, LookupTables,
      BloomsValid;
    ShownFacts(s);
    ColumnarReadIsTop(Shown(s), key);
    TablesAreTop(s.tables, key);
    ShownIsEverything(s, key);
    TopConcat(Contents(Shown(s)), EntriesOf(s.tables.frozen) + [s.tables.active.entries], key);
  }

  // ---- Layers implement the map ------------------------------------------------------------------------

  function TopRecord(layers: seq<Layer>, key: Key): Option<Record> {
    match Top(layers, key)
    case None => None
    case Some(e) => Some(RecordAt(key, e))
  }

  lemma {:induction false} TopAt(layers: seq<Layer>, key: Key)
    ensures Top(layers, key).None? ==> forall i :: 0 <= i < |layers| ==> key !in layers[i]
    ensures Top(layers, key).Some? ==> exists j :: TopIs(layers, key, j, Top(layers, key).value)
  {
    if layers != [] {
      var n := |layers| - 1;
      TopAt(layers[..n], key);
      if key in layers[n] {
        assert TopIs(layers, key, n, layers[n][key]);
      } else if Top(layers, key).Some? {
        var j :| TopIs(layers[..n], key, j, Top(layers, key).value);
        assert TopIs(layers, key, j, Top(layers, key).value);
      } else {
        assert forall i :: 0 <= i < n ==> layers[..n][i] == layers[i];
      }
    }
  }

  ghost predicate TopIs(layers: seq<Layer>, key: Key, j: int, e: Entry) {
    && 0 <= j < |layers| && key in layers[j] && layers[j][key] == e
    && forall i :: j < i < |layers| ==> key !in layers[i]
  }

  lemma LayersAreMap(layers: seq<Layer>, history: set<Record>, flying: set<Record>, key: Key)
    requires LayersOk(layers, history, flying)
    ensures MapHas(history, key, TopRecord(layers, key))
  {
    hide Top, LayerSound, Below, FlyAbove;
    TopAt(layers, key);
    match Top(layers, key) {
      case None =>
        forall r | r in history
          ensures r.key != key
        {
          assert Represented(layers, r);
          var i :| 0 <= i < |layers| && Holds(layers[i], r);
        }
      case Some(e) =>
        var j :| TopIs(layers, key, j, e);
        assert LayerSound(layers[j], history);
        SoundEntry(layers[j], history, key);
        forall r | r in history && r.key == key
          ensures r.lsn <= e.lsn
        {
          assert Represented(layers, r);
          var i :| 0 <= i < |layers| && Holds(layers[i], r);
          if i < j {
            assert Below(layers[i], layers[j]);
            BelowEntries(layers[i], layers[j], key);
          }
        }
    }
  }

  lemma SoundEntry(layer: Layer, history: set<Record>, key: Key)
    requires LayerSound(layer, history) && key in layer
    ensures RecordAt(key, layer[key]) in history
  {
  }

  lemma BelowEntries(a: Layer, b: Layer, key: Key)
    requires Below(a, b) && key in a && key in b
    ensures a[key].lsn < b[key].lsn
  {
  }

  lemma MapHasUnique(history: set<Record>, key: Key, o: Option<Record>, p: Option<Record>)
    requires LsnsUnique(history) && MapHas(history, key, o) && MapHas(history, key, p)
    ensures o == p
  {
  }

  lemma ReadsMap(s: State, key: Key)
    requires Inv(s)
    ensures BloomsValid(s.index) && MapHas(s.history, key, TopRecord(Layers(s), key))
    ensures EngineGet(s, key) == MapAnswer(TopRecord(Layers(s), key))
  {
    hide LayersOk, Layers, GoodLake, WalInv, DurableInv, TablesInv, FlushInv, LakeInv, Top, EngineLookup, MapHas,
      BloomsValid;
    LookupIsTop(s, key);
    LayersAreMap(Layers(s), s.history, InFlight(s), key);
  }

  /** In every reachable state `get` answers the highest-LSN record acknowledged or recovered
      for the key, a tombstone answering None: the tiered engine is a plain map. */
  lemma GetRefinesMap(c: Config, s: State, key: Key)
    requires Reachable(c, s)
    ensures BloomsValid(s.index)
    ensures exists o :: MapHas(s.history, key, o)
    ensures forall o :: MapHas(s.history, key, o) ==> EngineGet(s, key) == MapAnswer(o)
  {
    hide Reachable, LayersOk, Layers, WalInv, DurableInv, TablesInv, FlushInv, LakeInv, Top, EngineGet, MapHas,
      BloomsValid, TopRecord;
    ReachableInv(c, s);
    ReadsMap(s, key);
    forall o | MapHas(s.history, key, o)
      ensures o == TopRecord(Layers(s), key)
    {
      assert LsnsUnique(s.history) by { LsnsOfHistory(s); }
      MapHasUnique(s.history, key, o, TopRecord(Layers(s), key));
    }
  }

  lemma LsnsOfHistory(s: State)
    requires LsnsInv(s)
    ensures LsnsUnique(s.history)
  {
    assert forall r :: r in s.history ==> r in s.history + InFlight(s);
  }

  // ---- Crash and open -------------------------------------------------------------------------------------

  /** Durable in the lake or in the log. */
  ghost predicate IsDurable(s: State, r: Record) {
    r in Bag(s.wal.disk) || exists i :: 0 <= i < |s.lake| && r in AllRows(s.lake[i].groups)
  }

  lemma LakeRowsKnown(s: State, i: nat, r: Record)
    requires LayersOk(Layers(s), s.history, InFlight(s)) && GoodLake(s.lake)
    requires i < |s.lake| && r in AllRows(s.lake[i].groups)
    ensures r in s.history
  {
    hide Content, WellFormed, PublishedWatermark, AllRows;
    LayerAt(s);
    assert LayerSound(Layers(s)[i], s.history);
    assert WellFormed(s.lake[i]);
    RowsAreEntries(s.lake[i], r);
    SoundEntry(Layers(s)[i], s.history, r.key);
  }

  lemma RowsAreEntries(f: File, r: Record)
    requires WellFormed(f) && r in AllRows(f.groups)
    ensures r.key in Content(f) && RecordAt(r.key, Content(f)[r.key]) == r
  {
    ContentHas(AllRows(f.groups));
  }

  lemma EntriesAreRows(f: File, key: Key)
    requires WellFormed(f) && key in Content(f)
    ensures RecordAt(key, Content(f)[key]) in AllRows(f.groups)
  {
    ContentHas(AllRows(f.groups));
  }

  /** A crash at any point, mid-append included, followed by an open: the open succeeds, keeps
      every acknowledged and every logged record, and gains exactly those writes in flight
      that had reached the disk whole. */
  lemma CrashLosesNothing(c: Config, s: State, tear: Option<(Record, nat)>)
    requires Reachable(c, s)
    requires tear.Some? ==> tear.value.0 in s.pending && tear.value.1 <= |Encoded([tear.value.0])|
    requires TearGuard(c, s, tear)
    ensures CanRestart(c, s, tear)
    ensures var t := Reopened(c, s, tear);
            && Reachable(c, t)
            && s.history + s.logged <= t.history <= s.history + InFlight(s)
            && (forall r :: r in s.pending ==>
                  (r in t.history <==> tear == Some((r, |Encoded([r])|))))
  {
    hide Inv, Reachable, CrashDisk, TearGuard, Encoded, Bag;
    ReachableInv(c, s);
    InvParts(s);
    OpenSucceeds(c, s, tear);
    ReachableStep(c, s, tear);
    forall r | r in s.pending
      ensures r in Bag(CrashDisk(c, s, tear)) <==> tear == Some((r, |Encoded([r])|))
    {
      PendingOnDisk(c, s, tear, r);
    }
    CrashDiskFacts(c, s, tear);
  }

  /** The first LSN free for use: one above everything published and everything in the log. */
  ghost predicate FirstFree(next: nat, disk: multiset<Record>, watermark: nat) {
    && next > watermark && (forall r :: r in disk ==> r.lsn < next)
    && (next == watermark + 1 || exists r :: r in disk && r.lsn + 1 == next)
  }

  lemma MaxThenFree(disk: multiset<Record>, maxLsn: nat, watermark: nat)
    requires MaxOf(disk, maxLsn)
    ensures FirstFree(Max(maxLsn, watermark) + 1, disk, watermark)
  {
  }

  lemma ReopenedFirstFree(c: Config, s: State, tear: Option<(Record, nat)>)
    requires WalInv(s.wal) && CanRestart(c, s, tear) && TearGuard(c, s, tear)
    requires tear.Some? ==> Encodable(tear.value.0)
    ensures FirstFree(Reopened(c, s, tear).nextLsn, Bag(CrashDisk(c, s, tear)), PublishedWatermark(s.lake))
  {
    hide CrashDisk, TearGuard, Encoded, Bag, WalInv, Readable, Open, InsertedAll, IndexOf, FirstFree, MaxOf, Encodable;
    CrashDiskFacts(c, s, tear);
    var disk, w := CrashDisk(c, s, tear), PublishedWatermark(s.lake);
    OpenReads(disk, w);
    MaxThenFree(Bag(disk), Open(disk, w).value.maxLsn, w);
  }

  /** An open hands out no LSN twice and skips none. */
  lemma NextLsnIsExact(c: Config, s: State, tear: Option<(Record, nat)>)
    requires Reachable(c, s)
    requires tear.Some? ==> tear.value.0 in s.pending && tear.value.1 <= |Encoded([tear.value.0])|
    requires TearGuard(c, s, tear)
    ensures CanRestart(c, s, tear)
    ensures FirstFree(Reopened(c, s, tear).nextLsn, Bag(CrashDisk(c, s, tear)), PublishedWatermark(s.lake))
  {
    hide Inv, Reachable, CrashDisk, TearGuard, Encoded, Bag, WalInv, CanRestart, Reopened, FirstFree, Encodable;
    ReachableInv(c, s);
    InvParts(s);
    OpenSucceeds(c, s, tear);
    ReopenedFirstFree(c, s, tear);
  }

  lemma InvParts(s: State)
    requires Inv(s)
    ensures WalInv(s.wal) && LsnsInv(s) && DurableInv(s) && GoodLake(s.lake)
    ensures LayersOk(Layers(s), s.history, InFlight(s)) && LakeInv(s)
  {
  }

  lemma ReachableStep(c: Config, s: State, tear: Option<(Record, nat)>)
    requires Reachable(c, s) && CanRestart(c, s, tear) && TearGuard(c, s, tear)
    ensures Reachable(c, Reopened(c, s, tear))
  {
    hide CanRestart, TearGuard, Reopened;
    var labels :| RunFrom(c, Init, labels, true) == Some(s);
    var more := labels + [Restart(tear)];
    assert more[..|labels|] == labels;
    assert RunFrom(c, Init, more, true) == Some(Reopened(c, s, tear));
  }

  /** A write that holds an LSN is durable after the crash exactly when its whole frame was
      written before it. */
  lemma PendingOnDisk(c: Config, s: State, tear: Option<(Record, nat)>, r: Record)
    requires WalInv(s.wal) && LsnsInv(s) && DurableInv(s) && r in s.pending
    requires tear.Some? ==> tear.value.0 in s.pending && tear.value.1 <= |Encoded([tear.value.0])|
    requires TearGuard(c, s, tear)
    ensures r in Bag(CrashDisk(c, s, tear)) <==> tear == Some((r, |Encoded([r])|))
  {
    hide WalInv, Bag, TornAppend, Encodable, Readable;
    assert r !in Bag(s.wal.disk);
    match tear
    case None =>
    case Some((rec, n)) =>
      hide Encoded, WholeFrames;
      TornAppendKeeps(s.wal, [rec], c.segmentMaxBytes, n);
      var k := WholeFrames([rec], n);
      assert Bag(CrashDisk(c, s, tear)) == Bag(s.wal.disk) + multiset([rec][..k]);
      WholeFramesExact([rec], n);
      AllFramesWhole([rec]);
      assert k == 1 ==> [rec][..k] == [rec];
      assert k == 0 ==> [rec][..k + 1] == [rec] && [rec][..k] == [];
  }

  /** The rebuilt map is the per-key highest-LSN fold of everything durable. */
  lemma RebuiltIsDurableFold(c: Config, s: State, tear: Option<(Record, nat)>, key: Key, o: Option<Record>)
    requires Reachable(c, s) && CanRestart(c, s, tear) && TearGuard(c, s, tear)
    requires MapHas(Reopened(c, s, tear).history, key, o)
    ensures var t := Reopened(c, s, tear);
            && BloomsValid(t.index) && EngineGet(t, key) == MapAnswer(o)
            && match o
               case None => forall r :: IsDurable(t, r) ==> r.key != key
               case Some(top) => IsDurable(t, top) && forall r :: IsDurable(t, r) && r.key == key ==> r.lsn <= top.lsn
  {
    hide Inv, Reachable, CrashDisk, TearGuard, CanRestart, Reopened, Bag, EngineGet, BloomsValid, Recovered,
      MapHas, IsDurable, WalInv, LsnsInv, DurableInv, GoodLake, LayersOk, LakeInv;
    ReachableInv(c, s);
    ReachableStep(c, s, tear);
    var t := Reopened(c, s, tear);
    ReachableInv(c, t);
    GetRefinesMap(c, t, key);
    InvParts(s);
    PendingEncodable(s);
    RestartRecovers(c, s, tear);
    TearIsPending(c, s, tear);
    FoldIsDurable(s, t, Bag(CrashDisk(c, s, tear)), key, o);
  }

  lemma FoldIsDurable(s: State, t: State, disk: multiset<Record>, key: Key, o: Option<Record>)
    requires Recovered(s, t, disk) && Inv(t) && MapHas(t.history, key, o)
    ensures match o
            case None => forall r :: IsDurable(t, r) ==> r.key != key
            case Some(top) => IsDurable(t, top) && forall r :: IsDurable(t, r) && r.key == key ==> r.lsn <= top.lsn
  {
    hide Inv, Recovered, IsDurable;
    DurableIsKnown(s, t, disk);
    if o.Some? {
      TopIsDurable(s, t, disk, key, o.value);
    }
  }

  lemma DurableIsKnown(s: State, t: State, disk: multiset<Record>)
    requires Recovered(s, t, disk) && Inv(t)
    ensures forall r :: IsDurable(t, r) ==> r in t.history
  {
    hide Inv, Bag, AllRows;
    InvParts(t);
    forall r | IsDurable(t, r)
      ensures r in t.history
    {
      if r !in Bag(t.wal.disk) {
        var i :| 0 <= i < |t.lake| && r in AllRows(t.lake[i].groups);
        LakeRowsKnown(t, i, r);
      }
    }
  }

  lemma TopIsDurable(s: State, t: State, disk: multiset<Record>, key: Key, top: Record)
    requires Recovered(s, t, disk) && Inv(t) && MapHas(t.history, key, Some(top))
    ensures IsDurable(t, top)
  {
    hide Inv, Bag, AllRows, GoodLake, Top, Content, WalInv, Holds, LayersOk, PublishedWatermark;
    InvParts(t);
    LayersAreMap(Layers(t), t.history, InFlight(t), key);
    LsnsOfHistory(t);
    MapHasUnique(t.history, key, Some(top), TopRecord(Layers(t), key));
    TopAt(Layers(t), key);
    var j :| TopIs(Layers(t), key, j, EntryOf(top));
    RecoveredIsTwoTiers(s, t, disk);
    if j < |t.lake| {
      assert Layers(t)[j] == Content(t.lake[j]);
      FilesWellFormed(t.lake, j);
      EntriesAreRows(t.lake[j], key);
    }
  }

  lemma FilesWellFormed(lake: seq<File>, i: nat)
    requires GoodLake(lake) && i < |lake|
    ensures WellFormed(lake[i])
  {
  }

  /** Crashing again right after an open, and opening again, changes nothing at all. */
  lemma SecondRestartChangesNothing(c: Config, s: State, tear: Option<(Record, nat)>)
    requires Reachable(c, s) && CanRestart(c, s, tear) && TearGuard(c, s, tear)
    ensures var t := Reopened(c, s, tear);
            CanRestart(c, t, None) && Reopened(c, t, None) == t
  {
    hide Inv, Reachable, TearGuard, Bag, IndexOf, InsertedAll, WalInv, Readable, CrashDisk, Encoded, LsnsInv,
      DurableInv, GoodLake, LayersOk, LakeInv, Reopened, Open, PublishedWatermark, Recovered, MaxOf;
    ReachableInv(c, s);
    InvParts(s);
    PendingEncodable(s);
    TearIsPending(c, s, tear);
    CrashDiskFacts(c, s, tear);
    var disk, w := CrashDisk(c, s, tear), PublishedWatermark(s.lake);
    KnownOnDisk(c, s, tear);
    ReopenedFields(c, s, tear);
    var t := Reopened(c, s, tear);
    OpenReads(disk, w);
    OpenIsIdempotent(disk, w);
    AllReadableAgain(t);
    OpenReads(t.wal.disk, w);
    ReplaysAgree(s, Open(disk, w).value.records, Open(t.wal.disk, w).value.records, Bag(disk), w);
    MaxOfUnique(Bag(disk), Open(disk, w).value.maxLsn, Open(t.wal.disk, w).value.maxLsn);
    assert CrashDisk(c, t, None) == t.wal.disk by { NoTear(c, t); }
    ReopenedFields(c, t, None);
  }

  lemma NoTear(c: Config, s: State)
    ensures CrashDisk(c, s, None) == s.wal.disk
  {
  }

  lemma KnownOnDisk(c: Config, s: State, tear: Option<(Record, nat)>)
    requires WalInv(s.wal) && LsnsInv(s) && DurableInv(s) && CanRestart(c, s, tear) && TearGuard(c, s, tear)
    ensures forall r :: r in Bag(CrashDisk(c, s, tear)) ==> r in s.history || r in InFlight(s)
  {
    hide WalInv, Bag, CrashDisk, Encoded, TearGuard;
    PendingEncodable(s);
    TearIsPending(c, s, tear);
    CrashDiskFacts(c, s, tear);
  }

  lemma ReopenedFields(c: Config, s: State, tear: Option<(Record, nat)>)
    requires tear.Some? ==> tear.value.0 in s.pending && tear.value.1 <= |Encoded([tear.value.0])|
    requires Open(CrashDisk(c, s, tear), PublishedWatermark(s.lake)).Ok?
    ensures CanRestart(c, s, tear)
    ensures var t, w := Reopened(c, s, tear), PublishedWatermark(s.lake);
            var start := Open(CrashDisk(c, s, tear), w).value;
            && t.wal == start.wal && t.lake == s.lake && t.staging == s.staging
            && t.nextLsn == Max(start.maxLsn, w) + 1 && t.pending == {} && t.logged == {}
            && t.tables == Tables(InsertedAll(EmptyTable, start.records), [])
            && t.index == IndexOf(s.lake) && t.flush == Idle
            && (InFlight(s) == {} ==> t.history == s.history)
  {
    hide Open, IndexOf, InsertedAll, Encoded, PublishedWatermark;
  }

  lemma AllReadableAgain(t: State)
    requires WalInv(t.wal)
    ensures forall n :: n in t.wal.disk ==> Readable(t.wal.disk[n])
  {
    hide Clean, Readable;
    forall n | n in t.wal.disk { CleanIsReadable(t.wal.disk[n]); }
  }

  lemma MaxOfUnique(bag: multiset<Record>, m: nat, n: nat)
    requires MaxOf(bag, m) && MaxOf(bag, n)
    ensures m == n
  {
  }

  lemma ReplaysAgree(s: State, a: seq<Record>, b: seq<Record>, disk: multiset<Record>, w: nat)
    requires forall r :: multiset(a)[r] == if r.lsn > w then disk[r] else 0
    requires forall r :: multiset(b)[r] == if r.lsn > w then disk[r] else 0
    requires LsnsInv(s) && forall r :: r in disk ==> r in s.history || r in InFlight(s)
    ensures InsertedAll(EmptyTable, a) == InsertedAll(EmptyTable, b)
  {
    assert multiset(a) == multiset(b);
    forall r | r in a
      ensures r in s.history + InFlight(s)
    {
      assert r in multiset(a);
    }
    ArrivalOrderIsIrrelevant(EmptyTable, a, b);
  }

  // ---- Flushes publish exactly once ---------------------------------------------------------------------

  /** The plan for the oldest frozen table is to write exactly when no file holds any of its
      rows, and to skip exactly when the newest file holds all of them; it is never empty. */
  lemma PlanIsExact(c: Config, s: State)
    requires Reachable(c, s) && s.tables.frozen != []
    ensures var t, plan := s.tables.frozen[0], PlanFor(PublishedWatermark(s.lake), s.tables.frozen[0]);
            && (plan == Write(t.maxLsn) <==>
                  forall i, r :: 0 <= i < |s.lake| && r in AllRows(s.lake[i].groups) ==> !InTable(t, r))
            && (plan == AlreadyPublished(t.maxLsn) <==> s.lake != [] && Content(s.lake[|s.lake| - 1]) == t.entries)
  {
    hide Inv, Reachable, PublishedWatermark, AllRows, Content, LayersOk, WalInv, DurableInv, LsnsInv, GoodLake,
      WellFormed, Layers, IndexOf;
    ReachableInv(c, s);
    InvParts(s);
    var t, w := s.tables.frozen[0], PublishedWatermark(s.lake);
    PlanFacts(s);
    if OldestPublished(s) {
      var last := s.lake[|s.lake| - 1];
      var k :| k in t.entries && t.entries[k].lsn == t.maxLsn;
      FilesWellFormed(s.lake, |s.lake| - 1);
      EntriesAreRows(last, k);
      assert InTable(t, RecordAt(k, t.entries[k]));
    } else {
      forall i, r | 0 <= i < |s.lake| && r in AllRows(s.lake[i].groups)
        ensures !InTable(t, r)
      {
        NotYetInLake(s, i, r);
      }
      if s.lake != [] && Content(s.lake[|s.lake| - 1]) == t.entries {
        var k :| k in t.entries && t.entries[k].lsn == t.maxLsn;
        FilesWellFormed(s.lake, |s.lake| - 1);
        EntriesAreRows(s.lake[|s.lake| - 1], k);
        NotYetInLake(s, |s.lake| - 1, RecordAt(k, t.entries[k]));
        assert false;
      }
    }
  }

  predicate InTable(t: Table, r: Record) {
    r.key in t.entries && t.entries[r.key] == EntryOf(r)
  }

  lemma PlanFacts(s: State)
    requires Inv(s) && s.tables.frozen != []
    ensures s.tables.frozen[0].entries != map[] && ExactMax(s.tables.frozen[0])
    ensures PlanFor(PublishedWatermark(s.lake), s.tables.frozen[0])
            == if OldestPublished(s) then AlreadyPublished(s.tables.frozen[0].maxLsn) else Write(s.tables.frozen[0].maxLsn)
  {
  }

  lemma NotYetInLake(s: State, i: nat, r: Record)
    requires Inv(s) && s.tables.frozen != [] && !OldestPublished(s)
    requires i < |s.lake| && r in AllRows(s.lake[i].groups)
    ensures !InTable(s.tables.frozen[0], r)
  {
    hide WalInv, DurableInv, TablesInv, FlushInv, GoodLake, Content, PublishedWatermark, AllRows, LsnsInv;
    LayerAt(s);
    FilesWellFormed(s.lake, i);
    RowsAreEntries(s.lake[i], r);
    assert Layers(s)[|s.lake|] == s.tables.frozen[0].entries;
    assert Below(Layers(s)[i], Layers(s)[|s.lake|]);
    if InTable(s.tables.frozen[0], r) {
      BelowEntries(Layers(s)[i], Layers(s)[|s.lake|], r.key);
    }
  }

  /** Files never overlap: each file's rows outrank every row published before it, watermarks
      strictly increase, and no two durable records anywhere share an LSN. */
  lemma PublishedExactlyOnce(c: Config, s: State)
    requires Reachable(c, s)
    ensures forall i, j :: 0 <= i < j < |s.lake| ==> Precedes(s.lake[i], s.lake[j])
    ensures IncreasingWatermarks(s.lake)
    ensures forall r, q :: IsDurable(s, r) && IsDurable(s, q) && r.lsn == q.lsn ==> r == q
  {
    hide Inv, Reachable, PublishedWatermark, AllRows, Content, Bag, WellFormed, LayersOk, LakeInv, IsDurable,
      LsnsUnique, DurableInv, WalInv, GoodLake, IncreasingWatermarks;
    ReachableInv(c, s);
    InvParts(s);
    GoodLakeWatermarks(s.lake);
    FilesDisjoint(s.lake);
    DurableInHistory(s);
    forall r, q | IsDurable(s, r) && IsDurable(s, q) && r.lsn == q.lsn
      ensures r == q
    {
      assert LsnsUnique(s.history + InFlight(s));
      UniqueMeans(s.history + InFlight(s), r, q);
    }
  }

  lemma UniqueMeans(records: set<Record>, r: Record, q: Record)
    requires LsnsUnique(records) && r in records && q in records && r.lsn == q.lsn
    ensures r == q
  {
  }

  /** `a`'s rows end at its watermark, and `b`'s begin above it and end at `b`'s. */
  ghost predicate Precedes(a: File, b: File) {
    && (forall r :: r in AllRows(a.groups) ==> r.lsn <= a.watermark)
    && (forall q :: q in AllRows(b.groups) ==> a.watermark < q.lsn <= b.watermark)
  }

  lemma FilesDisjoint(lake: seq<File>)
    requires GoodLake(lake)
    ensures forall i, j :: 0 <= i < j < |lake| ==> Precedes(lake[i], lake[j])
  {
    hide AllRows, WellFormed;
    forall i, j | 0 <= i < j < |lake|
      ensures Precedes(lake[i], lake[j])
    {
      var top := TopRow(lake[i]);
      forall r | r in AllRows(lake[i].groups)
        ensures r.lsn <= lake[i].watermark
      {
        RowsWithin(lake[i], r);
      }
      forall q | q in AllRows(lake[j].groups)
        ensures lake[i].watermark < q.lsn <= lake[j].watermark
      {
        RowsWithin(lake[j], q);
        assert top.lsn < q.lsn;
      }
    }
  }

  lemma DurableInHistory(s: State)
    requires Inv(s)
    ensures forall r :: IsDurable(s, r) ==> r in s.history + InFlight(s)
  {
    hide Inv, Bag, AllRows;
    InvParts(s);
    forall r | IsDurable(s, r)
      ensures r in s.history + InFlight(s)
    {
      if r !in Bag(s.wal.disk) {
        var i :| 0 <= i < |s.lake| && r in AllRows(s.lake[i].groups);
        LakeRowsKnown(s, i, r);
      }
    }
  }

  lemma RowsWithin(f: File, r: Record)
    requires WellFormed(f) && r in AllRows(f.groups)
    ensures r.lsn <= f.watermark
  {
    MaxLsnBounds(AllRows(f.groups));
  }

  lemma TopRow(f: File) returns (r: Record)
    requires WellFormed(f)
    ensures r in AllRows(f.groups) && r.lsn == f.watermark
  {
    var rows := AllRows(f.groups);
    MaxLsnBounds(rows);
    assert rows[0].lsn <= MaxLsn(rows);
    var i :| 0 <= i < |rows| && rows[i].lsn == MaxLsn(rows);
    r := rows[i];
  }

  /** Once a flush has refreshed the index, the lake's MAX(lsn), the index's watermark and the
      planned watermark are one number: the highest LSN in the flushed table. */
  lemma WatermarksCoincide(c: Config, s: State)
    requires Reachable(c, s) && (s.flush.Indexed? || s.flush.Truncated?)
    ensures s.tables.frozen != [] && ExactMax(s.tables.frozen[0])
    ensures s.flush.w == s.tables.frozen[0].maxLsn == PublishedWatermark(s.lake) == IndexWatermark(s.index)
  {
    hide Reachable, PublishedWatermark, Content, IndexOf, GoodLake, WalInv, DurableInv, LsnsInv, LayersOk;
    ReachableInv(c, s);
    GoodLakeWatermarks(s.lake);
    IndexIsReversed(s.lake);
    LakeWatermark(s.lake);
    var last := s.lake[|s.lake| - 1];
    FilesWellFormed(s.lake, |s.lake| - 1);
    FileWatermark(last);
    if last.watermark > 0 {
      var k :| k in Content(last) && Content(last)[k].lsn == last.watermark;
      assert s.tables.frozen[0].entries[k].lsn <= s.tables.frozen[0].maxLsn;
    }
  }
}
