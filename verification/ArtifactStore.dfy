/** The artifact store as a protocol over a filesystem that can lose power.
    Writers go temporary file, fsync, rename, directory fsync and only then commit
    the row; the sweeper expires rows, lists orphans and removes files beside them.

    A file is an inode named after the artifact that creates it. Every name has a
    value the running kernel sees (`names`) and the set of values it may turn out to
    have after a crash (`maybe`), which only an fsync of its directory narrows.
    An unsynced inode comes back from a crash with any content at all. */
module ArtifactStore {
  import opened Basics

  type Id = nat
  type Names = map<Path, Id>
  type Possible = map<Path, set<Option<Id>>>

  datatype Path = Path(text: string)

  /** What a name is for. */
  datatype Role = TmpOf(i: Id) | FinalOf(i: Id)

  /** What is fixed for a run. `window` bounds how long after its file's modification
      time a row may still be committed; `grace` is how far before the snapshot of the
      live set the sweeper puts its cut-off. `dir` is a path's directory. */
  datatype Conf = Conf(
    data: map<Id, seq<Byte>>,
    final: map<Id, Path>,
    tmp: map<Id, Path>,
    role: map<Path, Role>,
    dir: Path -> string,
    digest: seq<Byte> -> string,
    maxBytes: nat,
    window: nat,
    grace: int)

  datatype Phase = Idle | Opened | Synced | Renamed | Placed | Committed | Aborting | Failed

  datatype File = File(content: seq<Byte>, synced: bool, mtime: int)

  /** An artifact row; `path` is None once the row is a tombstone. */
  datatype Row = Row(path: Option<Path>, size: nat, digest: string)

  /** One pass of `Orphans`: the live set and cut-off it was given, the files that were
      there when it began, those not yet visited, and the paths found so far. */
  datatype Sweep = Sweep(active: bool, live: set<Path>, before: int, listed: set<Path>, todo: set<Path>, out: set<Path>)

  const NO_SWEEP := Sweep(false, {}, 0, {}, {}, {})

  /** `doomed` holds the paths the sweeper has decided to pass to Remove. */
  datatype State = State(
    now: int,
    phase: map<Id, Phase>,
    files: map<Id, File>,
    names: Names,
    maybe: Possible,
    rows: map<Id, Row>,
    sweep: Sweep,
    doomed: set<Path>)

  /** The steps of one writer. GiveUp is any error before the rename took effect, after
      which the temporary file is removed; an error after it removes nothing. */
  datatype WriterStep =
    | Refuse | Open | WriteMore(n: nat) | Fsync | GiveUp | CleanUp | CleanUpFails
    | Rename | SyncDir | SyncDirFails | Commit | CommitFails

  datatype SweeperStep = Expire(i: Id) | Begin(before: int) | Visit(p: Path) | End | Remove(p: Path)

  datatype Action =
    | Tick(t: int)
    | Writer(i: Id, w: WriterStep)
    | Sweeper(d: SweeperStep)
    | Crash(names': Names, files': map<Id, File>)

  function Init(c: Conf): State {
    State(0, map i | i in c.data :: Idle, map[], map[], map[], map[], NO_SWEEP, {})
  }

  function Lookup(names: Names, p: Path): Option<Id> {
    if p in names then Some(names[p]) else None
  }

  /** The values name p may have if power is lost now. */
  function After(maybe: Possible, p: Path): set<Option<Id>> {
    if p in maybe then maybe[p] else {None}
  }

  function SetName(names: Names, p: Path, v: Option<Id>): Names {
    if v.Some? then names[p := v.value] else names - {p}
  }

  function SetMaybe(maybe: Possible, p: Path, v: Option<Id>): Possible {
    maybe[p := After(maybe, p) + {v}]
  }

  function Put(s: State, p: Path, v: Option<Id>): State {
    s.(names := SetName(s.names, p, v), maybe := SetMaybe(s.maybe, p, v))
  }

  /** An fsync of directory d settles the names in it. */
  function Settle(c: Conf, names: Names, maybe: Possible, d: string): Possible {
    map p | p in maybe :: if c.dir(p) == d then {Lookup(names, p)} else maybe[p]
  }

  predicate RowLive(rows: map<Id, Row>, i: Id) {
    i in rows && rows[i].path.Some?
  }

  function LivePaths(rows: map<Id, Row>): set<Path> {
    set i | i in rows && rows[i].path.Some? :: rows[i].path.value
  }

  ghost predicate WriterEnabled(c: Conf, s: State, i: Id, w: WriterStep) {
    && i in c.data && i in s.phase && i in c.final && i in c.tmp
    && match w
       case Refuse => s.phase[i].Idle? && |c.data[i]| > c.maxBytes
       case Open => s.phase[i].Idle? && |c.data[i]| <= c.maxBytes
       case WriteMore(n) => s.phase[i].Opened? && i in s.files && |s.files[i].content| <= n <= |c.data[i]|
       case Fsync => s.phase[i].Opened? && i in s.files && s.files[i].content == c.data[i]
       case GiveUp => s.phase[i].Idle? || s.phase[i].Opened? || s.phase[i].Synced?
       case CleanUp => s.phase[i].Aborting?
       case CleanUpFails => s.phase[i].Aborting?
       case Rename => s.phase[i].Synced? && c.tmp[i] in s.names
       case SyncDir => s.phase[i].Renamed?
       case SyncDirFails => s.phase[i].Renamed?
       case Commit => s.phase[i].Placed? && i in s.files && s.now < s.files[i].mtime + c.window
       case CommitFails => s.phase[i].Placed?
  }

  function NextPhase(ph: Phase, w: WriterStep): Phase {
    match w
    case Refuse => Failed
    case Open => Opened
    case WriteMore(_) => ph
    case Fsync => Synced
    case GiveUp => Aborting
    case CleanUp => Failed
    case CleanUpFails => Failed
    case Rename => Renamed
    case SyncDir => Placed
    case SyncDirFails => Failed
    case Commit => Committed
    case CommitFails => Failed
  }

  ghost function NextFiles(c: Conf, s: State, i: Id, w: WriterStep): map<Id, File>
    requires WriterEnabled(c, s, i, w)
  {
    match w
    case Open => s.files[i := File([], false, s.now)]
    case WriteMore(n) => s.files[i := File(c.data[i][..n], false, s.now)]
    case Fsync => s.files[i := s.files[i].(synced := true)]
    case _ => s.files
  }

  ghost function NextNames(c: Conf, s: State, i: Id, w: WriterStep): Names
    requires WriterEnabled(c, s, i, w)
  {
    match w
    case Open => SetName(s.names, c.tmp[i], Some(i))
    case CleanUp => SetName(s.names, c.tmp[i], None)
    case Rename => SetName(SetName(s.names, c.tmp[i], None), c.final[i], Some(s.names[c.tmp[i]]))
    case _ => s.names
  }

  ghost function NextMaybe(c: Conf, s: State, i: Id, w: WriterStep): Possible
    requires WriterEnabled(c, s, i, w)
  {
    match w
    case Open => SetMaybe(s.maybe, c.tmp[i], Some(i))
    case CleanUp => SetMaybe(s.maybe, c.tmp[i], None)
    case Rename => SetMaybe(SetMaybe(s.maybe, c.tmp[i], None), c.final[i], Some(s.names[c.tmp[i]]))
    case SyncDir => Settle(c, s.names, s.maybe, c.dir(c.final[i]))
    case _ => s.maybe
  }

  ghost function NextRows(c: Conf, s: State, i: Id, w: WriterStep): map<Id, Row>
    requires WriterEnabled(c, s, i, w)
  {
    if w.Commit? then s.rows[i := Row(Some(c.final[i]), |c.data[i]|, c.digest(c.data[i]))] else s.rows
  }

  ghost function ApplyWriter(c: Conf, s: State, i: Id, w: WriterStep): State
    requires WriterEnabled(c, s, i, w)
  {
    s.(phase := s.phase[i := NextPhase(s.phase[i], w)],
       files := NextFiles(c, s, i, w),
       names := NextNames(c, s, i, w),
       maybe := NextMaybe(c, s, i, w),
       rows := NextRows(c, s, i, w))
  }

  ghost predicate SweeperEnabled(c: Conf, s: State, w: SweeperStep) {
    match w
    case Expire(i) => RowLive(s.rows, i)
    case Begin(before) => !s.sweep.active && before + c.grace <= s.now
    case Visit(p) => s.sweep.active
    case End => s.sweep.active && s.sweep.todo == {}
    case Remove(p) => p in s.doomed
  }

  /** Rule of `Orphans` for one directory entry. */
  predicate IsOrphan(names: Names, files: map<Id, File>, live: set<Path>, before: int, p: Path) {
    p in names && p !in live && names[p] in files && files[names[p]].mtime <= before
  }

  ghost function ApplySweeper(c: Conf, s: State, w: SweeperStep): State
    requires SweeperEnabled(c, s, w)
  {
    match w
    case Expire(i) => s.(rows := s.rows[i := Row(None, 0, "")], doomed := s.doomed + {s.rows[i].path.value})
    case Begin(before) => s.(sweep := Sweep(true, LivePaths(s.rows), before, s.names.Keys, s.names.Keys, {}))
    case Visit(p) =>
      s.(sweep := s.sweep.(
           todo := s.sweep.todo - {p},
           out := if IsOrphan(s.names, s.files, s.sweep.live, s.sweep.before, p) then s.sweep.out + {p} else s.sweep.out))
    case End => s.(sweep := NO_SWEEP, doomed := s.doomed + s.sweep.out)
    case Remove(p) => Put(s, p, None).(doomed := s.doomed - {p})
  }

  /** After a crash every name has a value it could have had, and synced inodes survive. */
  ghost predicate CrashAllows(s: State, names': Names, files': map<Id, File>) {
    && (forall p {:trigger Lookup(names', p)} :: Lookup(names', p) in After(s.maybe, p))
    && files'.Keys == s.files.Keys
    && (forall i | i in s.files && s.files[i].synced :: files'[i] == s.files[i])
  }

  ghost function ApplyCrash(s: State, names': Names, files': map<Id, File>): State {
    s.(names := names', files := files', sweep := NO_SWEEP, doomed := {},
       maybe := map p | p in s.maybe :: {Lookup(names', p)},
       phase := map i | i in s.phase :: if s.phase[i].Idle? || s.phase[i].Committed? then s.phase[i] else Failed)
  }

  ghost predicate Enabled(c: Conf, s: State, a: Action) {
    match a
    case Tick(t) => s.now <= t
    case Writer(i, w) => WriterEnabled(c, s, i, w)
    case Sweeper(w) => SweeperEnabled(c, s, w)
    case Crash(names', files') => CrashAllows(s, names', files')
  }

  ghost function Apply(c: Conf, s: State, a: Action): State
    requires Enabled(c, s, a)
  {
    match a
    case Tick(t) => s.(now := t)
    case Writer(i, w) => ApplyWriter(c, s, i, w)
    case Sweeper(w) => ApplySweeper(c, s, w)
    case Crash(names', files') => ApplyCrash(s, names', files')
  }

  /** What may happen between the beginning and the end of one pass that ends. */
  predicate DuringPass(a: Action) {
    !a.Crash? && (a.Sweeper? ==> !a.d.Begin? && !a.d.End?)
  }

  ghost predicate ValidRun(c: Conf, s: State, acts: seq<Action>)
    decreases |acts|
  {
    acts == [] || (Enabled(c, s, acts[0]) && ValidRun(c, Apply(c, s, acts[0]), acts[1..]))
  }

  ghost function Exec(c: Conf, s: State, acts: seq<Action>): State
    requires ValidRun(c, s, acts)
    decreases |acts|
  {
    if acts == [] then s else Exec(c, Apply(c, s, acts[0]), acts[1..])
  }
}
