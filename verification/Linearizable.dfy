/** The point read takes two looks: the memtables first, then a snapshot of the index taken
    later. Between them writers and the flush pipeline run freely. */
module Linearizable {
  import opened Bytes
  import opened Records
  import opened WalLog
  import opened WalContents
  import opened Memtables
  import opened Lake
  import opened Flushes
  import opened Protocol
  import opened ProtocolInvariant
  import opened ProtocolSteps
  import opened ProtocolRecovery
  import opened Guarantees

  /** A read whose first look is at `s` and whose second is at `t`. */
  function TwoPhaseLookup(s: State, t: State, key: Key): Lookup
    requires BloomsValid(t.index)
  {
    var hit := LookupTables(s.tables, key);
    if hit.Missing? then ColumnarGet(t.index, key) else hit
  }

  function TwoPhaseGet(s: State, t: State, key: Key): Option<seq<byte>>
    requires BloomsValid(t.index)
  {
    match TwoPhaseLookup(s, t, key)
    case Found(v) => Some(v)
    case _ => None
  }

  /** A process that dies takes its readers with it. */
  predicate NoRestart(labels: seq<Label>) {
    forall l :: l in labels ==> !l.Restart?
  }

  /** Every value the map has had for the key so far in the run. */
  ghost function Seen(c: Config, s: State, labels: seq<Label>, key: Key): set<Option<Entry>>
    requires RunFrom(c, s, labels, true).Some?
  {
    var now := {Top(Layers(RunFrom(c, s, labels, true).value), key)};
    if labels == [] then now else Seen(c, s, labels[..|labels| - 1], key) + now
  }

  /** Everything a second look could still answer is a value the map has had. */
  ghost predicate OnlyPast(s: State, key: Key, seen: set<Option<Entry>>) {
    && BloomsValid(s.index)
    && (exists e :: e in seen && ColumnarGet(s.index, key) == LookupOf(e))
    && Top(Contents(s.lake), key) in seen
    && (forall t :: t in s.tables.frozen && key in t.entries ==> Some(t.entries[key]) in seen)
    && (key in s.tables.active.entries ==> Some(s.tables.active.entries[key]) in seen)
  }

  lemma ActiveIsTop(s: State, key: Key)
    ensures key in s.tables.active.entries ==> Top(Layers(s), key) == Some(s.tables.active.entries[key])
  {
    TopConcat(Contents(s.lake) + EntriesOf(Unpublished(s)), [s.tables.active.entries], key);
  }

  lemma {:induction false} NoneInTables(tables: seq<Table>, key: Key)
    ensures LookupFrozen(tables, key).Missing? <==> forall t :: t in tables ==> key !in t.entries
    ensures LookupFrozen(tables, key).Missing? ==> Top(EntriesOf(tables), key) == None
  {
    if tables != [] {
      var n := |tables| - 1;
      NoneInTables(tables[..n], key);
      assert forall t :: t in tables <==> t in tables[..n] || t == tables[n];
      assert EntriesOf(tables)[..n] == EntriesOf(tables[..n]);
    }
  }

  /** The first look found nothing, so the map's value is the lake's. */
  lemma MissStartsPast(s: State, key: Key)
    requires Inv(s) && LookupTables(s.tables, key).Missing?
    ensures OnlyPast(s, key, {Top(Layers(s), key)})
  {
    hide WalInv, LsnsInv, LayersOk, DurableInv, TablesInv, FlushInv, Contents, Top, PublishedWatermark, LakeInv,
      ColumnarGet, BloomsValid;
    LookupIsTop(s, key);
    NoneInTables(s.tables.frozen, key);
    NoneInTables(Unpublished(s), key);
    TopConcat(Contents(s.lake) + EntriesOf(Unpublished(s)), [s.tables.active.entries], key);
    TopConcat(Contents(s.lake), EntriesOf(Unpublished(s)), key);
    TopOfSingle(s.tables.active.entries, key);
    assert forall t :: t in Unpublished(s) ==> t in s.tables.frozen;
  }

  /** A step other than a restart keeps it so, once the map's new value is noted. */
  lemma StepKeepsPast(c: Config, s: State, l: Label, key: Key, seen: set<Option<Entry>>)
    requires Inv(s) && Enabled(c, s, l) && Guard(c, s, l) && !l.Restart?
    requires OnlyPast(s, key, seen)
    ensures OnlyPast(Apply(c, s, l), key, seen + {Top(Layers(Apply(c, s, l)), key)})
  {
    hide Inv, Layers, Top, ColumnarGet, BloomsValid, Contents, Guard;
    var s' := Apply(c, s, l);
    ActiveIsTop(s', key);
    match l
    case Begin(_, _, _) =>
    case Log(_) =>
    case Insert(_) =>
    case Freeze =>
    case PlanFlush(target) => PlanKeeps(c, s, target);
    case StageRows(_) =>
    case Publish(file) => PublishKeepsPast(s, file, key, seen);
    case Reindex =>
      InvParts(s);
      ColumnarReadIsTop(s.lake, key);
    case Unlink =>
    case Truncate =>
    case Retire =>
    case Abandon =>
  }

  lemma PublishKeepsPast(s: State, file: File, key: Key, seen: set<Option<Entry>>)
    requires Inv(s) && CanPublish(s, file) && OnlyPast(s, key, seen)
    ensures Top(Contents(s.lake + [file]), key) in seen
  {
    hide WalInv, LsnsInv, LayersOk, DurableInv, TablesInv, LakeInv, Contents, Top, PublishedWatermark, WellFormed,
      IsScan, Content, ColumnarGet, BloomsValid;
    var t := s.tables.frozen[0];
    FileFacts(file, t);
    ContentsSnoc(s.lake, file);
    TopConcat(Contents(s.lake), [Content(file)], key);
    TopOfSingle(Content(file), key);
  }

  lemma ContentsSnoc(lake: seq<File>, file: File)
    ensures Contents(lake + [file]) == Contents(lake) + [Content(file)]
  {
    hide Content;
  }

  lemma {:induction false} RunKeepsPast(c: Config, s: State, labels: seq<Label>, key: Key)
    requires Inv(s) && RunFrom(c, s, labels, true).Some? && NoRestart(labels)
    requires LookupTables(s.tables, key).Missing?
    ensures OnlyPast(RunFrom(c, s, labels, true).value, key, Seen(c, s, labels, key))
  {
    hide Inv, Apply, Guard, Enabled, OnlyPast, Layers, Top;
    if labels == [] {
      MissStartsPast(s, key);
    } else {
      var init := labels[..|labels| - 1];
      RunKeepsPast(c, s, init, key);
      RunKeeps(c, s, init);
      StepKeepsPast(c, RunFrom(c, s, init, true).value, labels[|labels| - 1], key, Seen(c, s, init, key));
    }
  }

  /** At some instant of the run the map held `e` for the key. */
  ghost predicate HeldDuring(c: Config, s: State, labels: seq<Label>, key: Key, m: nat, e: Option<Entry>) {
    && m <= |labels| && RunFrom(c, s, labels[..m], true).Some?
    && Top(Layers(RunFrom(c, s, labels[..m], true).value), key) == e
  }

  lemma {:induction false} SeenWasHeld(c: Config, s: State, labels: seq<Label>, key: Key, e: Option<Entry>)
    requires RunFrom(c, s, labels, true).Some? && e in Seen(c, s, labels, key)
    ensures exists m: nat :: HeldDuring(c, s, labels, key, m, e)
  {
    hide Apply, Guard, Enabled, Layers, Top;
    assert labels[..|labels|] == labels;
    if e == Top(Layers(RunFrom(c, s, labels, true).value), key) {
      assert HeldDuring(c, s, labels, key, |labels|, e);
    } else {
      var init := labels[..|labels| - 1];
      SeenWasHeld(c, s, init, key, e);
      var m: nat :| HeldDuring(c, s, init, key, m, e);
      assert init[..m] == labels[..m];
      assert HeldDuring(c, s, labels, key, m, e);
    }
  }

  /** The two-phase read is linearizable: whatever ran between its two looks, it returns the
      abstract map's value for the key at some instant between them. */
  lemma ReadIsLinearizable(c: Config, s: State, labels: seq<Label>, key: Key)
    requires Reachable(c, s) && RunFrom(c, s, labels, true).Some? && NoRestart(labels)
    ensures BloomsValid(RunFrom(c, s, labels, true).value.index)
    ensures exists m: nat, o :: m <= |labels| && RunFrom(c, s, labels[..m], true).Some?
              && MapHas(RunFrom(c, s, labels[..m], true).value.history, key, o)
              && TwoPhaseGet(s, RunFrom(c, s, labels, true).value, key) == MapAnswer(o)
  {
    hide Reachable, Inv, Apply, Guard, Enabled, Layers, Top, LookupTables, ColumnarGet, MapHas, BloomsValid, Seen,
      RunFrom;
    ReachableInv(c, s);
    RunKeeps(c, s, labels);
    var t := RunFrom(c, s, labels, true).value;
    BloomsAreValid(t, key);
    var e := SecondLook(c, s, labels, key);
    var m: nat :| HeldDuring(c, s, labels, key, m, e);
    var u := RunFrom(c, s, labels[..m], true).value;
    RunKeeps(c, s, labels[..m]);
    MapOfState(u, key);
    var o := TopRecord(Layers(u), key);
    assert MapHas(u.history, key, o) && TwoPhaseGet(s, t, key) == MapAnswer(o);
  }

  lemma BloomsAreValid(t: State, key: Key)
    requires Inv(t)
    ensures BloomsValid(t.index)
  {
    hide Inv, BloomsValid;
    InvParts(t);
    LookupIsTop(t, key);
  }

  lemma MapOfState(u: State, key: Key)
    requires Inv(u)
    ensures MapHas(u.history, key, TopRecord(Layers(u), key))
  {
    hide Inv, MapHas, Layers, TopRecord, LayersOk;
    InvParts(u);
    LayersAreMap(Layers(u), u.history, InFlight(u), key);
  }

  lemma SecondLook(c: Config, s: State, labels: seq<Label>, key: Key) returns (e: Option<Entry>)
    requires Inv(s) && RunFrom(c, s, labels, true).Some? && NoRestart(labels)
    requires BloomsValid(RunFrom(c, s, labels, true).value.index)
    ensures TwoPhaseLookup(s, RunFrom(c, s, labels, true).value, key) == LookupOf(e)
    ensures exists m: nat :: HeldDuring(c, s, labels, key, m, e)
  {
    hide Inv, Apply, Guard, Enabled, Layers, Top, ColumnarGet, BloomsValid, LookupTables, Seen, LayersOk, WalInv,
      LsnsInv, DurableInv, GoodLake, LakeInv;
    if LookupTables(s.tables, key).Missing? {
      RunKeepsPast(c, s, labels, key);
      e :| e in Seen(c, s, labels, key) && ColumnarGet(RunFrom(c, s, labels, true).value.index, key) == LookupOf(e);
      SeenWasHeld(c, s, labels, key, e);
    } else {
      InvParts(s);
      LookupIsTop(s, key);
      e := Top(Layers(s), key);
      assert labels[..0] == [];
      assert HeldDuring(c, s, labels, key, 0, e);
    }
  }
}
