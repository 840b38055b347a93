/** The engine's protocol as a step machine (src/engine.rs): writers, the flush pipeline and
    crash-then-open, interleaved in any order.

    `Enabled` and `Apply` are the code's steps, with one difference each way: a flush may take
    up any queued table, where the code's takes the one it has just frozen, and one flush at a
    time has a program counter, where the code lets flushes overlap. `Guard` is what else the
    code does not enforce and its guarantees need; see the modules `Limits`, `FreezeLimits`,
    `OrderLimits` and `OvertakeLimits` for what happens without each guard. */
module Protocol {
  import opened Bytes
  import opened Records
  import opened Frames
  import opened WalLog
  import opened WalContents
  import opened Memtables
  import opened Lake
  import opened Flushes

  datatype Config = Config(segmentMaxBytes: nat, maxFrozen: nat)

  /** Where the flush of frozen table `at` stands; `w` is its planned watermark. */
  datatype FlushPc =
    | Idle
    | Planned(at: nat, w: nat)
    | Staged(at: nat, w: nat)
    | Published(at: nat, w: nat)
    | Indexed(at: nat, w: nat, wrote: bool)
    | Truncated(at: nat, w: nat, wrote: bool)

  datatype State = State(
    // Durable: the log's files, the lake's live files in publish order, staged files by watermark.
    wal: WalState,
    lake: seq<File>,
    staging: map<nat, seq<Record>>,
    // Volatile. `pending` writers hold an LSN; `logged` writers are also on disk.
    nextLsn: nat,
    pending: set<Record>,
    logged: set<Record>,
    tables: Tables,
    index: seq<File>,
    flush: FlushPc,
    // Bookkeeping only: every record acknowledged, or recovered by an open.
    history: set<Record>)

  datatype Label =
    | Begin(key: Key, op: Op, value: seq<byte>)  // take an LSN
    | Log(rec: Record)                           // append and fsync
    | Insert(rec: Record)                        // become visible, acknowledge
    | Freeze
    | PlanFlush(target: nat)
    | StageRows(rows: seq<Record>)
    | Publish(file: File)
    | Reindex
    | Unlink                                     // one file of a truncation under way
    | Truncate
    | Retire
    | Abandon                                    // flush returns early; the process lives on
    | Restart(tear: Option<(Record, nat)>)       // die, perhaps mid-append, and open again

  /** A fresh engine over an empty lake and an empty log directory. */
  const Init := State(
    EmptyLog, [], map[],
    1, {}, {}, Tables(EmptyTable, []), [], Idle, {})

  function MakeRecord(key: Key, lsn: nat, op: Op, value: seq<byte>): Record {
    if op.Put? then PutRecord(key, lsn, value) else DeleteRecord(key, lsn)
  }

  function InFlight(s: State): set<Record> {
    s.pending + s.logged
  }

  /** The directory `open` finds. */
  function CrashDisk(c: Config, s: State, tear: Option<(Record, nat)>): Disk
    requires tear.Some? ==> tear.value.1 <= |Encoded([tear.value.0])|
  {
    match tear
    case None => s.wal.disk
    case Some((rec, n)) => TornAppend(s.wal, [rec], c.segmentMaxBytes, n)
  }

  ghost predicate CanStage(s: State, rows: seq<Record>) {
    s.flush.Planned? && s.flush.at < |s.tables.frozen| && IsScan(rows, s.tables.frozen[s.flush.at].entries)
  }

  ghost predicate CanPublish(s: State, file: File) {
    s.flush.Staged? && s.flush.w in s.staging && AllRows(file.groups) == s.staging[s.flush.w] && WellFormed(file)
  }

  /** A tear cuts an append in progress; opening must not find damage. */
  ghost predicate CanRestart(c: Config, s: State, tear: Option<(Record, nat)>) {
    && (tear.Some? ==> tear.value.0 in s.pending && tear.value.1 <= |Encoded([tear.value.0])|)
    && Open(CrashDisk(c, s, tear), PublishedWatermark(s.lake)).Ok?
  }

  ghost predicate Enabled(c: Config, s: State, l: Label) {
    match l
    case Begin(_, _, _) => true
    case Log(rec) => rec in s.pending
    case Insert(rec) => rec in s.logged
    case Freeze => |s.tables.frozen| < c.maxFrozen && s.tables.active.entries != map[]
    case PlanFlush(target) => s.flush.Idle? && target < |s.tables.frozen|
    case StageRows(rows) => CanStage(s, rows)
    case Publish(file) => CanPublish(s, file)
    case Reindex => s.flush.Published?
    case Unlink => s.flush.Indexed? && Covered(s.wal.sealed, s.flush.w) != []
    case Truncate => s.flush.Indexed?
    case Retire => s.flush.Truncated? && s.flush.at < |s.tables.frozen|
    case Abandon => !s.flush.Idle?
    case Restart(tear) => CanRestart(c, s, tear)
  }

  /** Decide what the flush of one frozen table does; a table already published skips to
      truncation, an empty one is dropped. */
  function AfterPlan(s: State, target: nat): State
    requires target < |s.tables.frozen|
  {
    match PlanFor(PublishedWatermark(s.lake), s.tables.frozen[target])
    case Empty => s.(tables := s.tables.(frozen := Dropped(s.tables.frozen, target)))
    case AlreadyPublished(w) => s.(flush := Indexed(target, w, false))
    case Write(w) => s.(flush := Planned(target, w))
  }

  function Dropped(frozen: seq<Table>, at: nat): seq<Table>
    requires at < |frozen|
  {
    frozen[..at] + frozen[at + 1..]
  }

  /** Rebuild everything volatile from the lake's files and the log above the watermark. */
  ghost function Reopened(c: Config, s: State, tear: Option<(Record, nat)>): State
    requires CanRestart(c, s, tear)
  {
    var watermark := PublishedWatermark(s.lake);
    var disk := CrashDisk(c, s, tear);
    var start := Open(disk, watermark).value;
    State(start.wal, s.lake, s.staging,
          Max(start.maxLsn, watermark) + 1, {}, {},
          Tables(InsertedAll(EmptyTable, start.records), []),
          IndexOf(s.lake), Idle,
          s.history + set r | r in InFlight(s) && r in Bag(disk))
  }

  function Took(s: State, rec: Record): State {
    s.(nextLsn := s.nextLsn + 1, pending := s.pending + {rec})
  }

  function Logged(c: Config, s: State, rec: Record): State {
    s.(wal := Appended(s.wal, [rec], c.segmentMaxBytes), pending := s.pending - {rec}, logged := s.logged + {rec})
  }

  function Acknowledged(s: State, rec: Record): State {
    s.(tables := s.tables.(active := Inserted(s.tables.active, rec)),
       logged := s.logged - {rec}, history := s.history + {rec})
  }

  function Frozen(s: State): State {
    s.(tables := Tables(EmptyTable, s.tables.frozen + [s.tables.active]))
  }

  function RowsStaged(s: State, at: nat, w: nat, rows: seq<Record>): State {
    s.(staging := s.staging[w := rows], flush := Staged(at, w))
  }

  function FilePublished(s: State, at: nat, w: nat, file: File): State {
    s.(lake := s.lake + [file], flush := Published(at, w))
  }

  function LogTruncated(s: State, at: nat, w: nat, wrote: bool): State {
    s.(wal := WalLog.Truncated(s.wal, w), flush := Truncated(at, w, wrote))
  }

  function Retired(s: State, at: nat, w: nat, wrote: bool): State
    requires at < |s.tables.frozen|
  {
    s.(tables := s.tables.(frozen := Dropped(s.tables.frozen, at)),
       staging := if wrote then s.staging - {w} else s.staging, flush := Idle)
  }

  ghost function Apply(c: Config, s: State, l: Label): State
    requires Enabled(c, s, l)
  {
    match l
    case Begin(key, op, value) => Took(s, MakeRecord(key, s.nextLsn, op, value))
    case Log(rec) => Logged(c, s, rec)
    case Insert(rec) => Acknowledged(s, rec)
    case Freeze => Frozen(s)
    case PlanFlush(target) => AfterPlan(s, target)
    case StageRows(rows) => RowsStaged(s, s.flush.at, s.flush.w, rows)
    case Publish(file) => FilePublished(s, s.flush.at, s.flush.w, file)
    case Reindex => s.(index := IndexOf(s.lake), flush := Indexed(s.flush.at, s.flush.w, true))
    case Unlink => s.(wal := UnlinkedFirst(s.wal, s.flush.w))
    case Truncate => LogTruncated(s, s.flush.at, s.flush.w, s.flush.wrote)
    case Retire => Retired(s, s.flush.at, s.flush.w, s.flush.wrote)
    case Abandon => s.(flush := Idle)
    case Restart(tear) => Reopened(c, s, tear)
  }

  /** A freeze is safe when every write in flight will outrank the table being frozen. */
  predicate FreezeGuard(s: State) {
    forall r :: r in InFlight(s) ==> s.tables.active.maxLsn < r.lsn
  }

  /** Flush the oldest frozen table; and skip publishing only once the index shows its file. */
  ghost predicate PlanGuard(s: State, target: nat)
    requires target < |s.tables.frozen|
  {
    && target == 0
    && (PlanFor(PublishedWatermark(s.lake), s.tables.frozen[0]).AlreadyPublished? ==> s.index == IndexOf(s.lake))
  }

  predicate TearGuard(c: Config, s: State, tear: Option<(Record, nat)>) {
    tear.Some? ==> FreshName(s.wal, [tear.value.0], c.segmentMaxBytes)
  }

  ghost predicate Guard(c: Config, s: State, l: Label)
    requires Enabled(c, s, l)
  {
    match l
    case Begin(key, op, value) => s.nextLsn < U64 / 2 && Encodable(MakeRecord(key, s.nextLsn, op, value))
    case Log(rec) => FreshName(s.wal, [rec], c.segmentMaxBytes)
    case Freeze => FreezeGuard(s)
    case PlanFlush(target) => PlanGuard(s, target)
    case Restart(tear) => TearGuard(c, s, tear)
    case _ => true
  }

  /** The state a run of steps leads to, or none if a step is disabled or, with `guarded`,
      breaks its guard. */
  ghost function RunFrom(c: Config, s: State, labels: seq<Label>, guarded: bool): Option<State> {
    if labels == [] then Some(s)
    else match RunFrom(c, s, labels[..|labels| - 1], guarded)
         case None => None
         case Some(t) =>
           var l := labels[|labels| - 1];
           if Enabled(c, t, l) && (guarded ==> Guard(c, t, l)) then Some(Apply(c, t, l)) else None
  }

  ghost predicate Reachable(c: Config, s: State) {
    exists labels :: RunFrom(c, Init, labels, true) == Some(s)
  }

  // ---- What a client sees ----------------------------------------------------------------------

  /** The point read, both phases in one instant. */
  function EngineLookup(s: State, key: Key): Lookup
    requires BloomsValid(s.index)
  {
    var hit := LookupTables(s.tables, key);
    if hit.Missing? then ColumnarGet(s.index, key) else hit
  }

  function EngineGet(s: State, key: Key): Option<seq<byte>>
    requires BloomsValid(s.index)
  {
    match EngineLookup(s, key)
    case Found(v) => Some(v)
    case _ => None
  }

  /** The abstract map: per key, the record with the highest LSN in `history`. */
  ghost predicate MapHas(history: set<Record>, key: Key, o: Option<Record>) {
    match o
    case None => forall r :: r in history ==> r.key != key
    case Some(top) =>
      && top in history && top.key == key
      && forall r :: r in history && r.key == key ==> r.lsn <= top.lsn
  }

  function MapAnswer(o: Option<Record>): Option<seq<byte>> {
    match o
    case None => None
    case Some(r) => if r.op.Put? then Some(r.value) else None
  }
}
