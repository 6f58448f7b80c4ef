/** What the sweeper's findings say about the past and the future of the rows. */
module ArtifactHistory {
  import opened Basics
  import opened ArtifactStore
  import opened ArtifactSafety

  /** At some moment of the run a live row names p. */
  ghost predicate EverNamed(c: Conf, s: State, acts: seq<Action>, p: Path)
    requires ValidRun(c, s, acts)
    decreases |acts|
  {
    p in LivePaths(s.rows) || (acts != [] && EverNamed(c, Apply(c, s, acts[0]), acts[1..], p))
  }

  /** The row of the artifact whose final path this is has expired. */
  ghost predicate Tombstoned(c: Conf, s: State, p: Path) {
    exists i :: i in c.final && c.final[i] == p && i in s.rows && s.rows[i].path.None?
  }

  lemma {:induction false} RowsStay(c: Conf, s: State, acts: seq<Action>, i: Id)
    requires ValidRun(c, s, acts) && i in s.rows
    ensures i in Exec(c, s, acts).rows
    decreases |acts|
  {
    if acts != [] {
      RowsStay(c, Apply(c, s, acts[0]), acts[1..], i);
    }
  }

  /** Only the row of an artifact ever names its final path. */
  lemma NamedByItsRow(c: Conf, s: State, p: Path)
    requires Proper(c) && RowsHeld(c, s.rows, s.maybe) && p in LivePaths(s.rows)
    ensures p in c.role && c.role[p].FinalOf? && RowLive(s.rows, c.role[p].i) && c.role[p].i in c.final && c.final[c.role[p].i] == p
  {
    var i :| i in s.rows && s.rows[i].path.Some? && s.rows[i].path.value == p;
    assert RowLive(s.rows, i) && c.role[c.final[i]] == FinalOf(i);
  }

  lemma NewRowIsLive(c: Conf, s: State, a: Action, i: Id)
    requires Enabled(c, s, a) && i !in s.rows && i in Apply(c, s, a).rows && i in c.final
    ensures c.final[i] in LivePaths(Apply(c, s, a).rows)
  {
    assert a.Writer? && a.w.Commit? && a.i == i;
    assert Apply(c, s, a).rows[i].path == Some(c.final[i]);
  }

  /** A final path was named during a run that began without its row exactly when the row
      is there at the end. */
  lemma {:induction false} NamedMeansRow(c: Conf, s: State, acts: seq<Action>, i: Id)
    requires Proper(c) && c.window <= c.grace && 0 < c.grace && Inv(c, s) && ValidRun(c, s, acts)
    requires i in c.final && i !in s.rows
    ensures EverNamed(c, s, acts, c.final[i]) <==> i in Exec(c, s, acts).rows
    decreases |acts|
  {
    var p := c.final[i];
    if p in LivePaths(s.rows) {
      NamedByItsRow(c, s, p);
      assert false;
    }
    if acts != [] {
      var s' := Apply(c, s, acts[0]);
      StepInv(c, s, acts[0]);
      if i in s'.rows {
        NewRowIsLive(c, s, acts[0], i);
        RowsStay(c, s', acts[1..], i);
      } else {
        NamedMeansRow(c, s', acts[1..], i);
      }
    }
  }

  lemma {:induction false} NamedIsFinal(c: Conf, s: State, acts: seq<Action>, p: Path)
    requires Proper(c) && c.window <= c.grace && 0 < c.grace && Inv(c, s) && ValidRun(c, s, acts) && EverNamed(c, s, acts, p)
    ensures p in c.role && c.role[p].FinalOf? && c.role[p].i in c.final && c.final[c.role[p].i] == p
    decreases |acts|
  {
    if p in LivePaths(s.rows) {
      NamedByItsRow(c, s, p);
    } else {
      StepInv(c, s, acts[0]);
      NamedIsFinal(c, Apply(c, s, acts[0]), acts[1..], p);
    }
  }

  lemma {:induction false} LostIsNeverNamed(c: Conf, s: State, acts: seq<Action>, p: Path)
    requires Proper(c) && c.window <= c.grace && 0 < c.grace && Inv(c, s) && ValidRun(c, s, acts)
    requires AllLost(c, s.phase, s.rows, s.files, s.now, {p})
    ensures !EverNamed(c, s, acts, p)
    decreases |acts|
  {
    if p in LivePaths(s.rows) {
      NamedByItsRow(c, s, p);
      assert false;
    }
    if acts != [] {
      var s' := Apply(c, s, acts[0]);
      StepInv(c, s, acts[0]);
      forall i | i in c.final && c.final[i] in {p} ensures Lost(c, s'.phase, s'.rows, s'.files, s'.now, i) {
        LostStays(c, s, acts[0], i);
      }
      LostIsNeverNamed(c, s', acts[1..], p);
    }
  }

  /** Of a path the sweeper has found: it was named earlier exactly when the row it belongs
      to is there as a tombstone, and no row will name it again. */
  lemma FoundPathsPastAndFuture(c: Conf, acts: seq<Action>, p: Path)
    requires Proper(c) && c.window <= c.grace && 0 < c.grace && ValidRun(c, Init(c), acts)
    requires var s := Exec(c, Init(c), acts); p in s.sweep.out || p in s.doomed
    ensures EverNamed(c, Init(c), acts, p) <==> Tombstoned(c, Exec(c, Init(c), acts), p)
    ensures forall more | ValidRun(c, Exec(c, Init(c), acts), more) :: !EverNamed(c, Exec(c, Init(c), acts), more, p)
  {
    var s := Exec(c, Init(c), acts);
    InitInv(c);
    RunInv(c, Init(c), acts);
    forall more | ValidRun(c, s, more) ensures !EverNamed(c, s, more, p) {
      LostIsNeverNamed(c, s, more, p);
    }
    if EverNamed(c, Init(c), acts, p) {
      NamedIsFinal(c, Init(c), acts, p);
      var i := c.role[p].i;
      NamedMeansRow(c, Init(c), acts, i);
      assert Lost(c, s.phase, s.rows, s.files, s.now, i);
    }
    if i :| i in c.final && c.final[i] == p && i in s.rows {
      NamedMeansRow(c, Init(c), acts, i);
    }
  }

  /** The run of one writer whose row was committed and expired, with a power loss before
      its file was removed. */
  lemma ExpiredRun(c: Conf, i: Id) returns (s: State)
    requires Proper(c) && 0 < c.window <= c.grace && i in c.data && |c.data[i]| <= c.maxBytes
    ensures Reachable(c, Init(c), s) && s.now == 0 && !s.sweep.active
    ensures s.names == map[c.final[i] := i] && s.files == map[i := File(c.data[i], true, 0)]
    ensures s.rows == map[i := Row(None, 0, "")]
  {
    s := CommittedRun(c, i);
    var a := Sweeper(Expire(i));
    ReachStep(c, Init(c), s, a);
    s := Apply(c, s, a);
    assert s.rows == map[i := Row(None, 0, "")];
    ReachableInv(c, s);
    a := Crash(s.names, s.files);
    ReachStep(c, Init(c), s, a);
    s := ApplyCrash(s, s.names, s.files);
  }

  lemma CommittedRun(c: Conf, i: Id) returns (s: State)
    requires Proper(c) && 0 < c.window <= c.grace && i in c.data && |c.data[i]| <= c.maxBytes
    ensures Reachable(c, Init(c), s) && s.now == 0 && !s.sweep.active
    ensures s.names == map[c.final[i] := i] && s.files == map[i := File(c.data[i], true, 0)]
    ensures s.rows.Keys == {i} && RowLive(s.rows, i)
  {
    var s0 := WriteRun(c, i);
    ReachStep(c, Init(c), s0, Writer(i, Commit));
    s := ApplyWriter(c, s0, i, Commit);
  }

  /** A row commits and expires, power is lost before the file is removed, and a later pass
      finds the file: for every artifact that fits there is such a run. */
  lemma FoundAfterExpiry(c: Conf, i: Id) returns (acts: seq<Action>)
    requires Proper(c) && 0 < c.window <= c.grace && i in c.data && |c.data[i]| <= c.maxBytes
    ensures ValidRun(c, Init(c), acts) && c.final[i] in Exec(c, Init(c), acts).sweep.out
    ensures EverNamed(c, Init(c), acts, c.final[i]) && Tombstoned(c, Exec(c, Init(c), acts), c.final[i])
  {
    var s := ExpiredRun(c, i);
    var p := c.final[i];
    var a := Tick(c.grace);
    ReachStep(c, Init(c), s, a);
    s := Apply(c, s, a);
    a := Sweeper(Begin(0));
    ReachStep(c, Init(c), s, a);
    s := Apply(c, s, a);
    assert s.sweep.live == {};
    a := Sweeper(Visit(p));
    ReachStep(c, Init(c), s, a);
    s := Apply(c, s, a);
    acts :| ValidRun(c, Init(c), acts) && Exec(c, Init(c), acts) == s;
    assert i in c.final && i in s.rows && s.rows[i].path.None?;
    FoundPathsPastAndFuture(c, acts, p);
  }
}
