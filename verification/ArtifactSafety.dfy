/** What every run of the artifact store keeps. */
module ArtifactSafety {
  import opened Basics
  import opened ArtifactStore

  /** Every name has one role, so the names of different artifacts never collide. */
  ghost predicate Proper(c: Conf) {
    && c.final.Keys == c.data.Keys && c.tmp.Keys == c.data.Keys
    && (forall i | i in c.final :: c.final[i] in c.role && c.role[c.final[i]] == FinalOf(i))
    && (forall i | i in c.tmp :: c.tmp[i] in c.role && c.role[c.tmp[i]] == TmpOf(i))
  }

  predicate Landed(ph: Phase) {
    ph.Renamed? || ph.Placed? || ph.Committed? || ph.Failed?
  }

  predicate Filled(ph: Phase) {
    ph.Synced? || ph.Renamed? || ph.Placed? || ph.Committed?
  }

  predicate Complete(c: Conf, files: map<Id, File>, i: Id) {
    i in c.data && i in files && files[i].synced && files[i].content == c.data[i]
  }

  predicate PhaseOk(c: Conf, ph: Phase, files: map<Id, File>, i: Id)
    requires i in c.data
  {
    && (ph.Idle? ==> i !in files)
    && (ph.Opened? ==> i in files && !files[i].synced && files[i].content <= c.data[i])
    && (Filled(ph) ==> Complete(c, files, i))
  }

  ghost predicate PhasesOk(c: Conf, phase: map<Id, Phase>, rows: map<Id, Row>, files: map<Id, File>) {
    && phase.Keys == c.data.Keys && rows.Keys <= phase.Keys
    && (forall i | i in phase :: i in rows <==> phase[i].Committed?)
    && (forall i | i in phase :: PhaseOk(c, phase[i], files, i))
  }

  /** A value a name can have is a file that belongs there; at a final path it is complete. */
  predicate EntryOk(c: Conf, phase: map<Id, Phase>, files: map<Id, File>, p: Path, i: Id) {
    && i in c.tmp && i in c.final && i in files && i in phase && !phase[i].Idle?
    && (p == c.tmp[i] || p == c.final[i])
    && (p == c.final[i] ==> Complete(c, files, i) && Landed(phase[i]))
  }

  ghost predicate EntriesOk(c: Conf, phase: map<Id, Phase>, files: map<Id, File>, maybe: Possible) {
    forall p, i :: Some(i) in After(maybe, p) ==> EntryOk(c, phase, files, p, i)
  }

  ghost predicate NamesOk(names: Names, maybe: Possible) {
    forall p {:trigger Lookup(names, p)} :: Lookup(names, p) in After(maybe, p)
  }

  /** The row can no longer be committed although its file was placed. */
  predicate TooLate(c: Conf, files: map<Id, File>, now: int, i: Id) {
    i in files && files[i].mtime + c.window <= now
  }

  /** Until it is too late to commit, a renamed file is where it was put ... */
  ghost predicate RenamedHeld(c: Conf, phase: map<Id, Phase>, files: map<Id, File>, now: int, names: Names) {
    forall i | i in phase && phase[i].Renamed? && !TooLate(c, files, now, i) ::
      i in c.final && Lookup(names, c.final[i]) == Some(i)
  }

  /** ... and one whose directory was synced is there whatever happens. */
  ghost predicate PlacedHeld(c: Conf, phase: map<Id, Phase>, files: map<Id, File>, now: int, maybe: Possible) {
    forall i | i in phase && phase[i].Placed? && !TooLate(c, files, now, i) ::
      i in c.final && After(maybe, c.final[i]) == {Some(i)}
  }

  ghost predicate RowsHeld(c: Conf, rows: map<Id, Row>, maybe: Possible) {
    forall i: Id | RowLive(rows, i) ::
      && i in c.final && i in c.data && i in rows
      && After(maybe, c.final[i]) == {Some(i)}
      && rows[i] == Row(Some(c.final[i]), |c.data[i]|, c.digest(c.data[i]))
  }

  /** No live row names this artifact, and none ever will again. */
  predicate Lost(c: Conf, phase: map<Id, Phase>, rows: map<Id, Row>, files: map<Id, File>, now: int, i: Id) {
    && i in phase && Landed(phase[i]) && !RowLive(rows, i)
    && (phase[i].Renamed? || phase[i].Placed? ==> TooLate(c, files, now, i))
  }

  ghost predicate AllLost(c: Conf, phase: map<Id, Phase>, rows: map<Id, Row>, files: map<Id, File>, now: int, paths: set<Path>) {
    forall i | i in c.final && c.final[i] in paths :: Lost(c, phase, rows, files, now, i)
  }

  /** A row committed after the snapshot of the live set has a file newer than the cut-off. */
  ghost predicate SweepOk(c: Conf, now: int, rows: map<Id, Row>, files: map<Id, File>, sweep: Sweep) {
    sweep.active ==>
      && sweep.before + c.grace <= now
      && (forall i: Id | RowLive(rows, i) && i in c.final && c.final[i] !in sweep.live :: i in files && files[i].mtime > sweep.before)
  }

  predicate KnownAs(c: Conf, phase: map<Id, Phase>, p: Path, i: Id) {
    i in c.tmp && i in c.final && i in phase && !phase[i].Idle? && (p == c.tmp[i] || (p == c.final[i] && Landed(phase[i])))
  }

  ghost predicate AllKnown(c: Conf, phase: map<Id, Phase>, paths: set<Path>) {
    forall p | p in paths :: exists i :: KnownAs(c, phase, p, i)
  }

  /** Every file of the listing already visited, still there, old and unreferenced, was found. */
  ghost predicate VisitedOk(names: Names, files: map<Id, File>, sweep: Sweep) {
    forall p | p in sweep.listed && p !in sweep.todo && IsOrphan(names, files, sweep.live, sweep.before, p) :: p in sweep.out
  }

  ghost predicate Inv(c: Conf, s: State) {
    && PhasesOk(c, s.phase, s.rows, s.files)
    && EntriesOk(c, s.phase, s.files, s.maybe)
    && NamesOk(s.names, s.maybe)
    && RenamedHeld(c, s.phase, s.files, s.now, s.names)
    && PlacedHeld(c, s.phase, s.files, s.now, s.maybe)
    && RowsHeld(c, s.rows, s.maybe)
    && AllLost(c, s.phase, s.rows, s.files, s.now, s.doomed)
    && AllLost(c, s.phase, s.rows, s.files, s.now, s.sweep.out)
    && SweepOk(c, s.now, s.rows, s.files, s.sweep)
    && AllKnown(c, s.phase, s.sweep.listed)
    && (s.sweep.active ==> VisitedOk(s.names, s.files, s.sweep))
  }

  /** What no step undoes. */
  ghost predicate Onward(c: Conf, s: State, s': State) {
    && s.now <= s'.now
    && (forall i | i in s.phase :: i in s'.phase && (!s.phase[i].Idle? ==> !s'.phase[i].Idle?) && (Landed(s.phase[i]) ==> Landed(s'.phase[i])))
    && (forall i | i in s.files :: i in s'.files)
    && (forall i | Complete(c, s.files, i) :: Complete(c, s'.files, i) && s'.files[i].mtime == s.files[i].mtime)
  }

  lemma WriterOnward(c: Conf, s: State, i: Id, w: WriterStep)
    requires PhasesOk(c, s.phase, s.rows, s.files) && WriterEnabled(c, s, i, w)
    ensures Onward(c, s, ApplyWriter(c, s, i, w))
  {
    assert PhaseOk(c, s.phase[i], s.files, i);
  }

  lemma WriterOwnPhase(c: Conf, s: State, i: Id, w: WriterStep)
    requires PhasesOk(c, s.phase, s.rows, s.files) && WriterEnabled(c, s, i, w)
    ensures var s' := ApplyWriter(c, s, i, w); PhaseOk(c, s'.phase[i], s'.files, i)
  {
    assert PhaseOk(c, s.phase[i], s.files, i);
  }

  lemma WriterPhases(c: Conf, s: State, i: Id, w: WriterStep)
    requires PhasesOk(c, s.phase, s.rows, s.files) && WriterEnabled(c, s, i, w)
    ensures var s' := ApplyWriter(c, s, i, w); PhasesOk(c, s'.phase, s'.rows, s'.files)
  {
    var s' := ApplyWriter(c, s, i, w);
    WriterOwnPhase(c, s, i, w);
    forall j | j in s'.phase ensures PhaseOk(c, s'.phase[j], s'.files, j) {
      if j != i {
        assert PhaseOk(c, s.phase[j], s.files, j);
      }
    }
  }

  lemma NamesSet(names: Names, maybe: Possible, p: Path, v: Option<Id>)
    requires NamesOk(names, maybe)
    ensures NamesOk(SetName(names, p, v), SetMaybe(maybe, p, v))
  {
    forall q ensures Lookup(SetName(names, p, v), q) in After(SetMaybe(maybe, p, v), q) {
      assert Lookup(names, q) in After(maybe, q);
      assert q != p ==> Lookup(SetName(names, p, v), q) == Lookup(names, q);
    }
  }

  lemma NamesSettle(c: Conf, names: Names, maybe: Possible, d: string)
    requires NamesOk(names, maybe)
    ensures NamesOk(names, Settle(c, names, maybe, d))
  {
    forall q ensures Lookup(names, q) in After(Settle(c, names, maybe, d), q) {
      assert Lookup(names, q) in After(maybe, q);
    }
  }

  lemma WriterNames(c: Conf, s: State, i: Id, w: WriterStep)
    requires NamesOk(s.names, s.maybe) && WriterEnabled(c, s, i, w)
    ensures var s' := ApplyWriter(c, s, i, w); NamesOk(s'.names, s'.maybe)
  {
    match w
    case Open => NamesSet(s.names, s.maybe, c.tmp[i], Some(i));
    case CleanUp => NamesSet(s.names, s.maybe, c.tmp[i], None);
    case Rename =>
      NamesSet(s.names, s.maybe, c.tmp[i], None);
      NamesSet(SetName(s.names, c.tmp[i], None), SetMaybe(s.maybe, c.tmp[i], None), c.final[i], Some(s.names[c.tmp[i]]));
    case SyncDir => NamesSettle(c, s.names, s.maybe, c.dir(c.final[i]));
    case _ =>
  }

  lemma EntriesSet(c: Conf, phase: map<Id, Phase>, files: map<Id, File>, maybe: Possible, p: Path, v: Option<Id>)
    requires EntriesOk(c, phase, files, maybe) && (v.Some? ==> EntryOk(c, phase, files, p, v.value))
    ensures EntriesOk(c, phase, files, SetMaybe(maybe, p, v))
  {
    forall q, j | Some(j) in After(SetMaybe(maybe, p, v), q) ensures EntryOk(c, phase, files, q, j) {
      assert Some(j) in After(maybe, q) || (q == p && v == Some(j));
    }
  }

  lemma EntriesOnward(c: Conf, s: State, s': State)
    requires EntriesOk(c, s.phase, s.files, s.maybe) && Onward(c, s, s')
    ensures EntriesOk(c, s'.phase, s'.files, s.maybe)
  {
  }

  lemma EntriesSettle(c: Conf, s: State, d: string)
    requires EntriesOk(c, s.phase, s.files, s.maybe) && NamesOk(s.names, s.maybe)
    ensures EntriesOk(c, s.phase, s.files, Settle(c, s.names, s.maybe, d))
  {
    forall q, j | Some(j) in After(Settle(c, s.names, s.maybe, d), q) ensures EntryOk(c, s.phase, s.files, q, j) {
      assert Lookup(s.names, q) in After(s.maybe, q);
      assert Some(j) in After(s.maybe, q);
    }
  }

  /** The name a writer renames is its own file. */
  lemma OwnTmp(c: Conf, s: State, i: Id)
    requires Proper(c) && EntriesOk(c, s.phase, s.files, s.maybe) && NamesOk(s.names, s.maybe)
    requires i in c.tmp && c.tmp[i] in s.names
    ensures s.names[c.tmp[i]] == i
  {
    assert Lookup(s.names, c.tmp[i]) in After(s.maybe, c.tmp[i]);
    assert EntryOk(c, s.phase, s.files, c.tmp[i], s.names[c.tmp[i]]);
  }

  lemma WriterEntries(c: Conf, s: State, i: Id, w: WriterStep)
    requires Proper(c) && PhasesOk(c, s.phase, s.rows, s.files) && NamesOk(s.names, s.maybe) && WriterEnabled(c, s, i, w)
    requires EntriesOk(c, s.phase, s.files, s.maybe)
    ensures var s' := ApplyWriter(c, s, i, w); EntriesOk(c, s'.phase, s'.files, s'.maybe)
  {
    var s' := ApplyWriter(c, s, i, w);
    WriterOnward(c, s, i, w);
    EntriesOnward(c, s, s');
    match w
    case Open => EntriesSet(c, s'.phase, s'.files, s.maybe, c.tmp[i], Some(i));
    case CleanUp => EntriesSet(c, s'.phase, s'.files, s.maybe, c.tmp[i], None);
    case Rename =>
      OwnTmp(c, s, i);
      assert PhaseOk(c, s.phase[i], s.files, i);
      EntriesSet(c, s'.phase, s'.files, s.maybe, c.tmp[i], None);
      EntriesSet(c, s'.phase, s'.files, SetMaybe(s.maybe, c.tmp[i], None), c.final[i], Some(i));
    case SyncDir => EntriesSettle(c, s.(phase := s'.phase, files := s'.files), c.dir(c.final[i]));
    case _ =>
  }

  lemma NamesDiffer(c: Conf, i: Id, j: Id)
    requires Proper(c) && i in c.data && j in c.data
    ensures c.final[j] != c.tmp[i] && (c.final[i] == c.final[j] ==> i == j)
  {
    assert c.role[c.final[i]] == FinalOf(i) && c.role[c.final[j]] == FinalOf(j) && c.role[c.tmp[i]] == TmpOf(i);
  }

  /** A writer's step leaves the final names of the others alone. */
  lemma OtherFinal(c: Conf, s: State, i: Id, w: WriterStep, j: Id)
    requires Proper(c) && WriterEnabled(c, s, i, w) && j in c.data
    ensures j != i || !w.Rename? ==> Lookup(NextNames(c, s, i, w), c.final[j]) == Lookup(s.names, c.final[j])
    ensures (j != i || !w.Rename?) && !w.SyncDir? ==> After(NextMaybe(c, s, i, w), c.final[j]) == After(s.maybe, c.final[j])
  {
    NamesDiffer(c, i, j);
  }

  lemma WriterRenamedHeld(c: Conf, s: State, i: Id, w: WriterStep)
    requires Proper(c) && PhasesOk(c, s.phase, s.rows, s.files) && EntriesOk(c, s.phase, s.files, s.maybe) && NamesOk(s.names, s.maybe)
    requires RenamedHeld(c, s.phase, s.files, s.now, s.names) && WriterEnabled(c, s, i, w)
    ensures var s' := ApplyWriter(c, s, i, w); RenamedHeld(c, s'.phase, s'.files, s'.now, s'.names)
  {
    var s' := ApplyWriter(c, s, i, w);
    WriterOnward(c, s, i, w);
    forall j | j in s'.phase && s'.phase[j].Renamed? && !TooLate(c, s'.files, s'.now, j)
      ensures j in c.final && Lookup(s'.names, c.final[j]) == Some(j)
    {
      if j == i && w.Rename? {
        OwnTmp(c, s, i);
      } else {
        assert PhaseOk(c, s.phase[j], s.files, j);
        OtherFinal(c, s, i, w, j);
      }
    }
  }

  lemma SettledAt(c: Conf, names: Names, maybe: Possible, d: string, p: Path)
    requires NamesOk(names, maybe)
    ensures c.dir(p) == d ==> After(Settle(c, names, maybe, d), p) == {Lookup(names, p)}
    ensures c.dir(p) != d ==> After(Settle(c, names, maybe, d), p) == After(maybe, p)
    ensures Lookup(names, p) in After(maybe, p)
  {
  }

  lemma WriterPlacedHeld(c: Conf, s: State, i: Id, w: WriterStep)
    requires Proper(c) && PhasesOk(c, s.phase, s.rows, s.files) && NamesOk(s.names, s.maybe)
    requires RenamedHeld(c, s.phase, s.files, s.now, s.names)
    requires PlacedHeld(c, s.phase, s.files, s.now, s.maybe) && WriterEnabled(c, s, i, w)
    ensures var s' := ApplyWriter(c, s, i, w); PlacedHeld(c, s'.phase, s'.files, s'.now, s'.maybe)
  {
    var s' := ApplyWriter(c, s, i, w);
    WriterOnward(c, s, i, w);
    forall j | j in s'.phase && s'.phase[j].Placed? && !TooLate(c, s'.files, s'.now, j)
      ensures j in c.final && After(s'.maybe, c.final[j]) == {Some(j)}
    {
      assert PhaseOk(c, s.phase[j], s.files, j);
      OtherFinal(c, s, i, w, j);
      SettledAt(c, s.names, s.maybe, c.dir(c.final[i]), c.final[j]);
    }
  }

  lemma WriterRowsHeld(c: Conf, s: State, i: Id, w: WriterStep)
    requires Proper(c) && PhasesOk(c, s.phase, s.rows, s.files) && NamesOk(s.names, s.maybe)
    requires PlacedHeld(c, s.phase, s.files, s.now, s.maybe)
    requires RowsHeld(c, s.rows, s.maybe) && WriterEnabled(c, s, i, w)
    ensures var s' := ApplyWriter(c, s, i, w); RowsHeld(c, s'.rows, s'.maybe)
  {
    var s' := ApplyWriter(c, s, i, w);
    forall j: Id | RowLive(s'.rows, j)
      ensures j in c.final && j in c.data && j in s'.rows && After(s'.maybe, c.final[j]) == {Some(j)}
      ensures s'.rows[j] == Row(Some(c.final[j]), |c.data[j]|, c.digest(c.data[j]))
    {
      OtherFinal(c, s, i, w, j);
      SettledAt(c, s.names, s.maybe, c.dir(c.final[i]), c.final[j]);
    }
  }

  /** A row that was live keeps its file and the file its time. */
  lemma LiveFileStands(c: Conf, s: State, i: Id, w: WriterStep, j: Id)
    requires PhasesOk(c, s.phase, s.rows, s.files) && WriterEnabled(c, s, i, w) && RowLive(s.rows, j) && j in s.files
    ensures var s' := ApplyWriter(c, s, i, w); j in s'.files && s'.files[j].mtime == s.files[j].mtime
  {
    assert PhaseOk(c, s.phase[j], s.files, j);
  }

  lemma WriterSweepOk(c: Conf, s: State, i: Id, w: WriterStep)
    requires Proper(c) && c.window <= c.grace
    requires PhasesOk(c, s.phase, s.rows, s.files)
    requires SweepOk(c, s.now, s.rows, s.files, s.sweep) && WriterEnabled(c, s, i, w)
    ensures var s' := ApplyWriter(c, s, i, w); SweepOk(c, s'.now, s'.rows, s'.files, s'.sweep)
  {
    var s' := ApplyWriter(c, s, i, w);
    forall j: Id | s.sweep.active && RowLive(s'.rows, j) && j in c.final && c.final[j] !in s.sweep.live
      ensures j in s'.files && s'.files[j].mtime > s.sweep.before
    {
      if RowLive(s.rows, j) {
        LiveFileStands(c, s, i, w, j);
      } else {
        assert w.Commit? && j == i;
      }
    }
  }

  /** What a writer does to the disk during a pass is too recent for the pass to matter. */
  lemma WriterVisitedOk(c: Conf, s: State, i: Id, w: WriterStep)
    requires Proper(c) && 0 < c.grace && s.sweep.active
    requires PhasesOk(c, s.phase, s.rows, s.files) && AllKnown(c, s.phase, s.sweep.listed)
    requires SweepOk(c, s.now, s.rows, s.files, s.sweep) && VisitedOk(s.names, s.files, s.sweep) && WriterEnabled(c, s, i, w)
    ensures var s' := ApplyWriter(c, s, i, w); VisitedOk(s'.names, s'.files, s'.sweep)
  {
    var s' := ApplyWriter(c, s, i, w);
    forall p | p in s.sweep.listed && p !in s.sweep.todo && IsOrphan(s'.names, s'.files, s.sweep.live, s.sweep.before, p)
      ensures p in s.sweep.out
    {
      var j :| KnownAs(c, s.phase, p, j);
      OrphanBefore(c, s, i, w, p, j);
    }
  }

  /** What looks like an orphan after a writer's step did so before it. */
  lemma OrphanBefore(c: Conf, s: State, i: Id, w: WriterStep, p: Path, j: Id)
    requires Proper(c) && 0 < c.grace && s.sweep.before + c.grace <= s.now
    requires PhasesOk(c, s.phase, s.rows, s.files) && WriterEnabled(c, s, i, w) && KnownAs(c, s.phase, p, j)
    requires var s' := ApplyWriter(c, s, i, w); IsOrphan(s'.names, s'.files, s.sweep.live, s.sweep.before, p)
    ensures IsOrphan(s.names, s.files, s.sweep.live, s.sweep.before, p)
  {
    NamesDiffer(c, i, j);
    assert c.role[c.tmp[i]] == TmpOf(i) && c.role[c.tmp[j]] == TmpOf(j);
    var s' := ApplyWriter(c, s, i, w);
    if w.Rename? {
      assert p != c.final[i] && p != c.tmp[i];
      assert s'.names[p] == s.names[p];
    } else if w.CleanUp? {
      assert p != c.tmp[i] && s'.names[p] == s.names[p];
    } else {
      assert w.Open? ==> p != c.tmp[i];
      assert s'.names[p] == s.names[p] && s'.files[s.names[p]].mtime <= s.sweep.before;
    }
  }

  lemma WriterLost(c: Conf, s: State, i: Id, w: WriterStep, j: Id)
    requires PhasesOk(c, s.phase, s.rows, s.files) && WriterEnabled(c, s, i, w)
    requires Lost(c, s.phase, s.rows, s.files, s.now, j)
    ensures var s' := ApplyWriter(c, s, i, w); Lost(c, s'.phase, s'.rows, s'.files, s'.now, j)
  {
    assert PhaseOk(c, s.phase[j], s.files, j);
  }

  lemma WriterAllLost(c: Conf, s: State, i: Id, w: WriterStep, paths: set<Path>)
    requires PhasesOk(c, s.phase, s.rows, s.files) && WriterEnabled(c, s, i, w)
    requires AllLost(c, s.phase, s.rows, s.files, s.now, paths)
    ensures var s' := ApplyWriter(c, s, i, w); AllLost(c, s'.phase, s'.rows, s'.files, s'.now, paths)
  {
    var s' := ApplyWriter(c, s, i, w);
    forall j | j in c.final && c.final[j] in paths ensures Lost(c, s'.phase, s'.rows, s'.files, s'.now, j) {
      WriterLost(c, s, i, w, j);
    }
  }

  lemma WriterKnown(c: Conf, s: State, i: Id, w: WriterStep)
    requires PhasesOk(c, s.phase, s.rows, s.files) && AllKnown(c, s.phase, s.sweep.listed) && WriterEnabled(c, s, i, w)
    ensures AllKnown(c, ApplyWriter(c, s, i, w).phase, s.sweep.listed)
  {
    var s' := ApplyWriter(c, s, i, w);
    WriterOnward(c, s, i, w);
    forall p | p in s.sweep.listed ensures exists j :: KnownAs(c, s'.phase, p, j) {
      var j :| KnownAs(c, s.phase, p, j);
      assert KnownAs(c, s'.phase, p, j);
    }
  }

  lemma WriterInv(c: Conf, s: State, i: Id, w: WriterStep)
    requires Proper(c) && c.window <= c.grace && 0 < c.grace && Inv(c, s) && WriterEnabled(c, s, i, w)
    ensures Inv(c, ApplyWriter(c, s, i, w))
  {
    WriterPhases(c, s, i, w);
    WriterNames(c, s, i, w);
    WriterEntries(c, s, i, w);
    WriterRenamedHeld(c, s, i, w);
    WriterPlacedHeld(c, s, i, w);
    WriterRowsHeld(c, s, i, w);
    WriterAllLost(c, s, i, w, s.doomed);
    WriterAllLost(c, s, i, w, s.sweep.out);
    WriterSweepOk(c, s, i, w);
    WriterKnown(c, s, i, w);
    if s.sweep.active {
      WriterVisitedOk(c, s, i, w);
    }
  }

  /** What was lost stays lost when a row expires, and the expired row's file is lost too. */
  lemma ExpireLoses(c: Conf, s: State, i: Id)
    requires Proper(c) && Inv(c, s) && RowLive(s.rows, i)
    ensures var s' := ApplySweeper(c, s, Expire(i));
      && AllLost(c, s'.phase, s'.rows, s'.files, s'.now, s'.doomed)
      && AllLost(c, s'.phase, s'.rows, s'.files, s'.now, s'.sweep.out)
  {
    var s' := ApplySweeper(c, s, Expire(i));
    forall j | j in c.final && c.final[j] in s'.doomed ensures Lost(c, s'.phase, s'.rows, s'.files, s'.now, j) {
      if c.final[j] !in s.doomed {
        NamesDiffer(c, i, j);
      }
    }
    forall j | j in c.final && c.final[j] in s'.sweep.out ensures Lost(c, s'.phase, s'.rows, s'.files, s'.now, j) {
      assert Lost(c, s.phase, s.rows, s.files, s.now, j);
    }
  }

  /** One live row fewer: what is said of the live rows still holds. */
  lemma ExpireRows(c: Conf, s: State, i: Id)
    requires Inv(c, s) && RowLive(s.rows, i)
    ensures var rows := s.rows[i := Row(None, 0, "")];
      && PhasesOk(c, s.phase, rows, s.files) && RowsHeld(c, rows, s.maybe) && SweepOk(c, s.now, rows, s.files, s.sweep)
  {
    var rows := s.rows[i := Row(None, 0, "")];
    assert rows.Keys == s.rows.Keys && !RowLive(rows, i);
    assert forall j: Id :: RowLive(rows, j) ==> RowLive(s.rows, j) && rows[j] == s.rows[j];
  }

  lemma ExpireInv(c: Conf, s: State, i: Id)
    requires Proper(c) && Inv(c, s) && RowLive(s.rows, i)
    ensures Inv(c, ApplySweeper(c, s, Expire(i)))
  {
    ExpireLoses(c, s, i);
    ExpireRows(c, s, i);
  }

  lemma BeginInv(c: Conf, s: State, before: int)
    requires Proper(c) && Inv(c, s) && SweeperEnabled(c, s, Begin(before))
    ensures Inv(c, ApplySweeper(c, s, Begin(before)))
  {
    forall p | p in s.names ensures exists j :: KnownAs(c, s.phase, p, j) {
      assert Lookup(s.names, p) in After(s.maybe, p);
      assert EntryOk(c, s.phase, s.files, p, s.names[p]);
      assert KnownAs(c, s.phase, p, s.names[p]);
    }
    forall i: Id | RowLive(s.rows, i) && i in c.final ensures c.final[i] in LivePaths(s.rows) {
      assert s.rows[i].path.value == c.final[i];
    }
  }

  /** An entry the pass takes for an orphan is lost to every row. */
  lemma OrphanIsLost(c: Conf, s: State, i: Id)
    requires Proper(c) && c.window <= c.grace && Inv(c, s) && s.sweep.active && i in c.final
    requires IsOrphan(s.names, s.files, s.sweep.live, s.sweep.before, c.final[i])
    ensures Lost(c, s.phase, s.rows, s.files, s.now, i)
  {
    var p := c.final[i];
    assert Lookup(s.names, p) in After(s.maybe, p);
    assert EntryOk(c, s.phase, s.files, p, s.names[p]);
    NamesDiffer(c, s.names[p], i);
  }

  lemma VisitInv(c: Conf, s: State, p: Path)
    requires Proper(c) && c.window <= c.grace && Inv(c, s) && s.sweep.active
    ensures Inv(c, ApplySweeper(c, s, Visit(p)))
  {
    var s' := ApplySweeper(c, s, Visit(p));
    forall i | i in c.final && c.final[i] in s'.sweep.out ensures Lost(c, s.phase, s.rows, s.files, s.now, i) {
      if c.final[i] !in s.sweep.out {
        OrphanIsLost(c, s, i);
      }
    }
  }

  lemma EndInv(c: Conf, s: State)
    requires Proper(c) && Inv(c, s) && SweeperEnabled(c, s, End)
    ensures Inv(c, ApplySweeper(c, s, End))
  {
    forall i | i in c.final && c.final[i] in s.doomed + s.sweep.out ensures Lost(c, s.phase, s.rows, s.files, s.now, i) {
      assert c.final[i] in s.doomed || c.final[i] in s.sweep.out;
    }
  }

  /** What is not lost keeps its final name. */
  lemma RemoveHeld(c: Conf, s: State, p: Path)
    requires Proper(c) && Inv(c, s) && p in s.doomed
    ensures RenamedHeld(c, s.phase, s.files, s.now, SetName(s.names, p, None))
    ensures PlacedHeld(c, s.phase, s.files, s.now, SetMaybe(s.maybe, p, None))
    ensures RowsHeld(c, s.rows, SetMaybe(s.maybe, p, None))
  {
    var names', maybe' := SetName(s.names, p, None), SetMaybe(s.maybe, p, None);
    forall i | i in c.final && !Lost(c, s.phase, s.rows, s.files, s.now, i)
      ensures Lookup(names', c.final[i]) == Lookup(s.names, c.final[i]) && After(maybe', c.final[i]) == After(s.maybe, c.final[i])
    {
      assert p != c.final[i];
    }
  }

  lemma RemoveVisited(s: State, p: Path)
    requires s.sweep.active ==> VisitedOk(s.names, s.files, s.sweep)
    ensures s.sweep.active ==> VisitedOk(SetName(s.names, p, None), s.files, s.sweep)
  {
  }

  lemma RemoveInv(c: Conf, s: State, p: Path)
    requires Proper(c) && Inv(c, s) && p in s.doomed
    ensures Inv(c, ApplySweeper(c, s, Remove(p)))
  {
    NamesSet(s.names, s.maybe, p, None);
    EntriesSet(c, s.phase, s.files, s.maybe, p, None);
    RemoveHeld(c, s, p);
    RemoveVisited(s, p);
  }

  lemma CrashSettles(s: State, names': Names, files': map<Id, File>)
    requires CrashAllows(s, names', files')
    ensures forall p {:trigger After(ApplyCrash(s, names', files').maybe, p)} ::
      After(ApplyCrash(s, names', files').maybe, p) == {Lookup(names', p)} && Lookup(names', p) in After(s.maybe, p)
  {
    forall p ensures After(ApplyCrash(s, names', files').maybe, p) == {Lookup(names', p)} {
      assert Lookup(names', p) in After(s.maybe, p);
    }
  }

  lemma CrashPhases(c: Conf, s: State, names': Names, files': map<Id, File>)
    requires PhasesOk(c, s.phase, s.rows, s.files) && CrashAllows(s, names', files')
    ensures var s' := ApplyCrash(s, names', files'); PhasesOk(c, s'.phase, s'.rows, s'.files) && Onward(c, s, s')
  {
    var s' := ApplyCrash(s, names', files');
    forall i | i in s'.phase ensures PhaseOk(c, s'.phase[i], files', i) {
      assert PhaseOk(c, s.phase[i], s.files, i);
    }
  }

  lemma CrashEntries(c: Conf, s: State, names': Names, files': map<Id, File>)
    requires PhasesOk(c, s.phase, s.rows, s.files) && EntriesOk(c, s.phase, s.files, s.maybe) && CrashAllows(s, names', files')
    ensures var s' := ApplyCrash(s, names', files'); EntriesOk(c, s'.phase, s'.files, s'.maybe) && NamesOk(s'.names, s'.maybe)
  {
    var s' := ApplyCrash(s, names', files');
    CrashPhases(c, s, names', files');
    CrashSettles(s, names', files');
    forall p, i | Some(i) in After(s'.maybe, p) ensures EntryOk(c, s'.phase, files', p, i) {
      assert Some(i) in After(s.maybe, p);
      assert EntryOk(c, s.phase, s.files, p, i);
    }
  }

  lemma CrashHeld(c: Conf, s: State, names': Names, files': map<Id, File>)
    requires Proper(c) && RowsHeld(c, s.rows, s.maybe) && CrashAllows(s, names', files')
    ensures var s' := ApplyCrash(s, names', files');
      && RenamedHeld(c, s'.phase, s'.files, s'.now, s'.names)
      && PlacedHeld(c, s'.phase, s'.files, s'.now, s'.maybe)
      && RowsHeld(c, s'.rows, s'.maybe)
  {
    CrashSettles(s, names', files');
  }

  /** A crash keeps the invariant. The sweeper then has nothing to remove, and a write that
      had not begun can still be made. */
  lemma CrashInv(c: Conf, s: State, names': Names, files': map<Id, File>)
    requires Proper(c) && Inv(c, s) && CrashAllows(s, names', files')
    ensures Inv(c, ApplyCrash(s, names', files'))
    ensures ApplyCrash(s, names', files').doomed == {} && !ApplyCrash(s, names', files').sweep.active
    ensures forall i | i in s.phase && s.phase[i].Idle? :: ApplyCrash(s, names', files').phase[i].Idle?
  {
    CrashPhases(c, s, names', files');
    CrashEntries(c, s, names', files');
    CrashHeld(c, s, names', files');
  }

  lemma SweeperInv(c: Conf, s: State, d: SweeperStep)
    requires Proper(c) && c.window <= c.grace && Inv(c, s) && SweeperEnabled(c, s, d)
    ensures Inv(c, ApplySweeper(c, s, d))
  {
    match d
    case Expire(i) => ExpireInv(c, s, i);
    case Begin(before) => BeginInv(c, s, before);
    case Visit(p) => VisitInv(c, s, p);
    case End => EndInv(c, s);
    case Remove(p) => RemoveInv(c, s, p);
  }

  lemma TickInv(c: Conf, s: State, t: int)
    requires Inv(c, s) && s.now <= t
    ensures Inv(c, s.(now := t))
  {
  }

  lemma StepInv(c: Conf, s: State, a: Action)
    requires Proper(c) && c.window <= c.grace && 0 < c.grace && Inv(c, s) && Enabled(c, s, a)
    ensures Inv(c, Apply(c, s, a))
  {
    match a
    case Tick(t) => TickInv(c, s, t);
    case Writer(i, w) => WriterInv(c, s, i, w);
    case Sweeper(d) => SweeperInv(c, s, d);
    case Crash(names', files') => CrashInv(c, s, names', files');
  }

  lemma InitInv(c: Conf)
    requires Proper(c)
    ensures Inv(c, Init(c))
  {
    var s := Init(c);
    assert forall p :: After(s.maybe, p) == {None};
  }

  // ---- whole runs ----

  ghost predicate Reachable(c: Conf, s: State, s': State) {
    exists acts :: ValidRun(c, s, acts) && Exec(c, s, acts) == s'
  }

  lemma {:induction false} RunAppend(c: Conf, s: State, acts: seq<Action>, a: Action)
    requires ValidRun(c, s, acts) && Enabled(c, Exec(c, s, acts), a)
    ensures ValidRun(c, s, acts + [a]) && Exec(c, s, acts + [a]) == Apply(c, Exec(c, s, acts), a)
    decreases |acts|
  {
    if acts == [] {
      assert acts + [a] == [a];
      assert ValidRun(c, Apply(c, s, a), [][0..]);
    } else {
      RunAppend(c, Apply(c, s, acts[0]), acts[1..], a);
      assert (acts + [a])[1..] == acts[1..] + [a];
    }
  }

  lemma ReachStart(c: Conf, s: State)
    ensures Reachable(c, s, s)
  {
    assert ValidRun(c, s, []) && Exec(c, s, []) == s;
  }

  lemma ReachStep(c: Conf, s: State, s': State, a: Action)
    requires Reachable(c, s, s') && Enabled(c, s', a)
    ensures Reachable(c, s, Apply(c, s', a))
  {
    var acts :| ValidRun(c, s, acts) && Exec(c, s, acts) == s';
    RunAppend(c, s, acts, a);
  }

  lemma {:induction false} RunInv(c: Conf, s: State, acts: seq<Action>)
    requires Proper(c) && c.window <= c.grace && 0 < c.grace && Inv(c, s) && ValidRun(c, s, acts)
    ensures Inv(c, Exec(c, s, acts))
    decreases |acts|
  {
    if acts != [] {
      StepInv(c, s, acts[0]);
      RunInv(c, Apply(c, s, acts[0]), acts[1..]);
    }
  }

  lemma ReachableInv(c: Conf, s: State)
    requires Proper(c) && c.window <= c.grace && 0 < c.grace && Reachable(c, Init(c), s)
    ensures Inv(c, s)
  {
    var acts :| ValidRun(c, Init(c), acts) && Exec(c, Init(c), acts) == s;
    InitInv(c);
    RunInv(c, Init(c), acts);
  }

  /** Whatever interleaving of writers and sweeper came before, and wherever the crashes
      fell, a live row names its artifact's final path, and the file there has exactly
      the artifact's bytes, of the size and digest the row records. */
  lemma LiveRowsHaveTheirBytes(c: Conf, s: State, i: Id)
    requires Proper(c) && c.window <= c.grace && 0 < c.grace && Reachable(c, Init(c), s) && RowLive(s.rows, i)
    ensures i in c.data && i in c.final && s.rows[i].path == Some(c.final[i])
    ensures c.final[i] in s.names && s.names[c.final[i]] == i
    ensures i in s.files && s.files[i].content == c.data[i]
    ensures s.rows[i].size == |s.files[i].content| && s.rows[i].digest == c.digest(s.files[i].content)
  {
    ReachableInv(c, s);
    assert Lookup(s.names, c.final[i]) in After(s.maybe, c.final[i]);
    assert PhaseOk(c, s.phase[i], s.files, i);
  }

  /** All a crash or an error leaves on disk is temporary names and complete files. */
  lemma NoHalfWrittenFinal(c: Conf, s: State, p: Path)
    requires Proper(c) && c.window <= c.grace && 0 < c.grace && Reachable(c, Init(c), s) && p in s.names
    ensures p in c.role
    ensures c.role[p].FinalOf? ==> s.names[p] == c.role[p].i && c.role[p].i in s.files && c.role[p].i in c.data
                                   && s.files[c.role[p].i].content == c.data[c.role[p].i]
  {
    ReachableInv(c, s);
    assert Lookup(s.names, p) in After(s.maybe, p);
    assert EntryOk(c, s.phase, s.files, p, s.names[p]);
  }

  lemma LostStays(c: Conf, s: State, a: Action, i: Id)
    requires PhasesOk(c, s.phase, s.rows, s.files) && RowsHeld(c, s.rows, s.maybe) && Enabled(c, s, a)
    requires i in c.data && Lost(c, s.phase, s.rows, s.files, s.now, i)
    ensures var s' := Apply(c, s, a); Lost(c, s'.phase, s'.rows, s'.files, s'.now, i)
  {
    assert PhaseOk(c, s.phase[i], s.files, i);
    match a
    case Tick(t) =>
    case Writer(j, w) => WriterLost(c, s, j, w, i);
    case Sweeper(d) => SweeperLost(c, s, d, i);
    case Crash(names', files') =>
  }

  lemma SweeperLost(c: Conf, s: State, d: SweeperStep, i: Id)
    requires SweeperEnabled(c, s, d) && Lost(c, s.phase, s.rows, s.files, s.now, i)
    ensures var s' := ApplySweeper(c, s, d); Lost(c, s'.phase, s'.rows, s'.files, s'.now, i)
  {
  }

  lemma {:induction false} LostForever(c: Conf, s: State, acts: seq<Action>, i: Id)
    requires Proper(c) && c.window <= c.grace && 0 < c.grace && Inv(c, s) && ValidRun(c, s, acts)
    requires i in c.data && Lost(c, s.phase, s.rows, s.files, s.now, i)
    ensures !RowLive(Exec(c, s, acts).rows, i)
    decreases |acts|
  {
    if acts != [] {
      StepInv(c, s, acts[0]);
      LostStays(c, s, acts[0], i);
      LostForever(c, Apply(c, s, acts[0]), acts[1..], i);
    }
  }

  /** A path the sweeper has found is named by no live row, then or ever after. */
  lemma FoundPathsAreNeverNamed(c: Conf, s: State, s': State, p: Path, i: Id)
    requires Proper(c) && c.window <= c.grace && 0 < c.grace
    requires Reachable(c, Init(c), s) && Reachable(c, s, s')
    requires p in s.sweep.out || p in s.doomed
    ensures RowLive(s'.rows, i) ==> s'.rows[i].path != Some(p)
  {
    ReachableInv(c, s);
    var acts :| ValidRun(c, s, acts) && Exec(c, s, acts) == s';
    RunInv(c, s, acts);
    if RowLive(s'.rows, i) && s'.rows[i].path == Some(p) {
      assert Lost(c, s.phase, s.rows, s.files, s.now, i);
      LostForever(c, s, acts, i);
      assert false;
    }
  }

  /** When a pass ends, it has found every file that was there when it began, is still
      there, was in no row of the snapshot and is no newer than the cut-off. */
  lemma ResidueIsFound(c: Conf, s: State, p: Path)
    requires Proper(c) && c.window <= c.grace && 0 < c.grace && Reachable(c, Init(c), s)
    requires SweeperEnabled(c, s, End) && p in s.sweep.listed
    requires IsOrphan(s.names, s.files, s.sweep.live, s.sweep.before, p)
    ensures p in ApplySweeper(c, s, End).doomed
  {
    ReachableInv(c, s);
    assert p !in s.sweep.todo;
  }

  lemma {:induction false} PassStands(c: Conf, s: State, acts: seq<Action>)
    requires ValidRun(c, s, acts) && s.sweep.active && forall a | a in acts :: DuringPass(a)
    ensures var w := Exec(c, s, acts).sweep; w.active && w.live == s.sweep.live && w.before == s.sweep.before && w.listed == s.sweep.listed
    decreases |acts|
  {
    if acts != [] {
      assert acts[0] in acts && forall a | a in acts[1..] :: a in acts;
      PassStands(c, Apply(c, s, acts[0]), acts[1..]);
    }
  }

  lemma {:induction false} ReachRun(c: Conf, s: State, s': State, acts: seq<Action>)
    requires Reachable(c, s, s') && ValidRun(c, s', acts)
    ensures Reachable(c, s, Exec(c, s', acts))
    decreases |acts|
  {
    if acts != [] {
      ReachStep(c, s, s', acts[0]);
      ReachRun(c, s, Apply(c, s', acts[0]), acts[1..]);
    }
  }

  /** A whole pass, whatever writers and the rest of the sweeper do between its beginning
      and its end: a file that was there when it began and at its end is still there, no
      newer than the cut-off and of no row of the beginning, is handed over for removal. */
  lemma PassFindsEveryOrphan(c: Conf, s: State, before: int, acts: seq<Action>, p: Path)
    requires Proper(c) && c.window <= c.grace && 0 < c.grace && Reachable(c, Init(c), s)
    requires Enabled(c, s, Sweeper(Begin(before))) && p in s.names
    requires forall i | i in s.rows :: s.rows[i].path != Some(p)
    requires ValidRun(c, Apply(c, s, Sweeper(Begin(before))), acts)
    requires forall a | a in acts :: !a.Crash? && (a.Sweeper? ==> !a.d.Begin? && !a.d.End?)
    requires Enabled(c, Exec(c, Apply(c, s, Sweeper(Begin(before))), acts), Sweeper(End))
    requires var e := Exec(c, Apply(c, s, Sweeper(Begin(before))), acts);
      p in e.names && e.names[p] in e.files && e.files[e.names[p]].mtime <= before
    ensures p in Apply(c, Exec(c, Apply(c, s, Sweeper(Begin(before))), acts), Sweeper(End)).doomed
  {
    var begun := Apply(c, s, Sweeper(Begin(before)));
    PassStands(c, begun, acts);
    ReachStep(c, Init(c), s, Sweeper(Begin(before)));
    ReachRun(c, Init(c), begun, acts);
    ResidueIsFound(c, Exec(c, begun, acts), p);
  }

  /** The run that visits everything a pass has still to visit. */
  lemma {:induction false} VisitAll(c: Conf, s: State) returns (s': State)
    requires s.sweep.active
    ensures Reachable(c, s, s') && s'.sweep.todo == {} && s' == s.(sweep := s'.sweep)
    ensures s'.sweep == s.sweep.(todo := {}, out := s'.sweep.out)
    ensures forall p :: p in s'.sweep.out <==>
      p in s.sweep.out || (p in s.sweep.todo && IsOrphan(s.names, s.files, s.sweep.live, s.sweep.before, p))
    decreases s.sweep.todo
  {
    if p :| p in s.sweep.todo {
      var s1 := Apply(c, s, Sweeper(Visit(p)));
      s' := VisitAll(c, s1);
      var acts :| ValidRun(c, s1, acts) && Exec(c, s1, acts) == s';
      ReachStart(c, s);
      ReachStep(c, s, s, Sweeper(Visit(p)));
      ReachRun(c, s, s1, acts);
    } else {
      ReachStart(c, s);
      s' := s;
    }
  }

  /** Residue does not leak: from every reachable state without a pass, a file no row names
      and that is as old as the grace can be found and removed, all else on disk left alone. */
  lemma ResidueIsReclaimed(c: Conf, s: State, p: Path) returns (s': State)
    requires Proper(c) && c.window <= c.grace && 0 < c.grace && Reachable(c, Init(c), s) && !s.sweep.active
    requires p in s.names && s.names[p] in s.files && s.files[s.names[p]].mtime + c.grace <= s.now
    requires forall i | i in s.rows :: s.rows[i].path != Some(p)
    ensures Reachable(c, s, s') && s'.names == s.names - {p} && s'.rows == s.rows && s'.files == s.files
    ensures None in After(s'.maybe, p) && !s'.sweep.active && p !in s'.doomed
  {
    var before := s.files[s.names[p]].mtime;
    ReachStart(c, s);
    ReachStep(c, s, s, Sweeper(Begin(before)));
    var s1 := Apply(c, s, Sweeper(Begin(before)));
    assert p !in LivePaths(s.rows);
    s' := VisitAll(c, s1);
    var acts :| ValidRun(c, s1, acts) && Exec(c, s1, acts) == s';
    ReachRun(c, s, s1, acts);
    ReachStep(c, s, s', Sweeper(End));
    s' := Apply(c, s', Sweeper(End));
    ReachStep(c, s, s', Sweeper(Remove(p)));
    s' := Apply(c, s', Sweeper(Remove(p)));
  }

  ghost predicate NoDanglingRow(c: Conf, s: State) {
    forall i: Id | RowLive(s.rows, i) :: i in c.final && Lookup(s.names, c.final[i]) == Some(i)
  }

  /** The run of one writer until its bytes are written, but not yet synced. */
  lemma OpenRun(c: Conf, i: Id) returns (s: State)
    requires Proper(c) && i in c.data && |c.data[i]| <= c.maxBytes
    ensures Reachable(c, Init(c), s)
    ensures s == Init(c).(phase := Init(c).phase[i := Opened], files := map[i := File(c.data[i], false, 0)],
                          names := map[c.tmp[i] := i], maybe := map[c.tmp[i] := {None, Some(i)}])
  {
    var s0 := Init(c);
    ReachStart(c, s0);
    ReachStep(c, s0, s0, Writer(i, Open));
    var s1 := ApplyWriter(c, s0, i, Open);
    ReachStep(c, s0, s1, Writer(i, WriteMore(|c.data[i]|)));
    s := ApplyWriter(c, s1, i, WriteMore(|c.data[i]|));
    assert c.data[i][..|c.data[i]|] == c.data[i];
    assert {None} + {Some(i)} == {None, Some(i)};
    assert s.phase == s0.phase[i := Opened] && s.files == map[i := File(c.data[i], false, 0)];
    assert s.names == map[c.tmp[i] := i] && s.maybe == map[c.tmp[i] := {None, Some(i)}];
  }

  /** The run of one writer until its bytes are synced. */
  lemma FillRun(c: Conf, i: Id) returns (s: State)
    requires Proper(c) && i in c.data && |c.data[i]| <= c.maxBytes
    ensures Reachable(c, Init(c), s)
    ensures s == Init(c).(phase := Init(c).phase[i := Synced], files := map[i := File(c.data[i], true, 0)],
                          names := map[c.tmp[i] := i], maybe := map[c.tmp[i] := {None, Some(i)}])
  {
    var s0 := OpenRun(c, i);
    ReachStep(c, Init(c), s0, Writer(i, Fsync));
    s := ApplyWriter(c, s0, i, Fsync);
    assert s.phase == Init(c).phase[i := Synced];
  }

  /** Why Write syncs the file: without it, all the bytes written, a power loss may leave
      anything at all in their place. */
  lemma FsyncIsNeeded(c: Conf, i: Id, junk: seq<Byte>) returns (s: State, a: Action)
    requires Proper(c) && i in c.data && |c.data[i]| <= c.maxBytes
    ensures Reachable(c, Init(c), s) && i in s.phase && s.phase[i].Opened? && i in s.files && s.files[i].content == c.data[i]
    ensures a.Crash? && Enabled(c, s, a)
    ensures var s' := Apply(c, s, a); c.tmp[i] in s'.names && s'.names[c.tmp[i]] == i && i in s'.files && s'.files[i].content == junk
  {
    s := OpenRun(c, i);
    a := Crash(s.names, s.files[i := File(junk, false, 0)]);
    forall p ensures Lookup(s.names, p) in After(s.maybe, p) {
    }
  }

  /** Why it syncs the directory: without it, all the bytes synced and the file in place, a
      power loss may leave no file. */
  lemma DirSyncIsNeeded(c: Conf, i: Id) returns (s: State, a: Action)
    requires Proper(c) && i in c.data && |c.data[i]| <= c.maxBytes
    ensures Reachable(c, Init(c), s) && i in s.phase && s.phase[i].Renamed? && i in s.files && s.files[i].synced && Lookup(s.names, c.final[i]) == Some(i)
    ensures a.Crash? && Enabled(c, s, a) && Apply(c, s, a).names == map[]
  {
    var s0 := FillRun(c, i);
    NamesDiffer(c, i, i);
    ReachStep(c, Init(c), s0, Writer(i, Rename));
    s := ApplyWriter(c, s0, i, Rename);
    a := Crash(map[], s.files);
    forall p ensures Lookup(map[], p) in After(s.maybe, p) {
    }
  }

  /** A write may fail at any point before its file is in place and be cleaned up, which takes
      its temporary name away, if it has one, and leaves every other name, and all rows, alone. */
  lemma FailedWriteCleansUp(c: Conf, s: State, i: Id) returns (s': State)
    requires i in c.data && i in s.phase && i in c.final && i in c.tmp
    requires s.phase[i].Idle? || s.phase[i].Opened? || s.phase[i].Synced?
    ensures Reachable(c, s, s') && s'.phase == s.phase[i := Failed] && s'.rows == s.rows && s'.files == s.files
    ensures s'.names == s.names - {c.tmp[i]}
  {
    ReachStart(c, s);
    ReachStep(c, s, s, Writer(i, GiveUp));
    var s1 := ApplyWriter(c, s, i, GiveUp);
    ReachStep(c, s, s1, Writer(i, CleanUp));
    s' := ApplyWriter(c, s1, i, CleanUp);
    assert s'.phase == s.phase[i := Failed];
  }

  /** An expired row's file can be removed, and then is gone and its row a tombstone. */
  lemma ExpiredFileGoes(c: Conf, s: State, i: Id) returns (s': State)
    requires Proper(c) && c.window <= c.grace && 0 < c.grace && Reachable(c, Init(c), s) && RowLive(s.rows, i)
    ensures i in c.final && Reachable(c, s, s') && s'.names == s.names - {c.final[i]} && s'.files == s.files
    ensures s'.rows.Keys == s.rows.Keys && s'.rows[i].path == None && forall j | j in s.rows && j != i :: s'.rows[j] == s.rows[j]
  {
    LiveRowsHaveTheirBytes(c, s, i);
    var p := c.final[i];
    ReachStart(c, s);
    ReachStep(c, s, s, Sweeper(Expire(i)));
    var s1 := ApplySweeper(c, s, Expire(i));
    ReachStep(c, s, s1, Sweeper(Remove(p)));
    s' := ApplySweeper(c, s1, Remove(p));
  }

  ghost predicate Untried(c: Conf, s: State, i: Id) {
    i in s.phase && (s.phase[i].Idle? || s.phase[i].Aborting? || s.phase[i].Failed?) && i !in s.files && i !in s.rows
  }

  lemma UntriedStays(c: Conf, s: State, a: Action, i: Id)
    requires i in c.data && |c.data[i]| > c.maxBytes && Untried(c, s, i) && Enabled(c, s, a)
    ensures Untried(c, Apply(c, s, a), i)
  {
  }

  lemma {:induction false} UntriedForever(c: Conf, s: State, acts: seq<Action>, i: Id)
    requires i in c.data && |c.data[i]| > c.maxBytes && Untried(c, s, i) && ValidRun(c, s, acts)
    ensures Untried(c, Exec(c, s, acts), i)
    decreases |acts|
  {
    if acts != [] {
      UntriedStays(c, s, acts[0], i);
      UntriedForever(c, Apply(c, s, acts[0]), acts[1..], i);
    }
  }

  /** The limit on the size of an artifact is exact: a larger one never gets a file or a row
      on any run, and is refused; one within it does get its file on some run, and is never
      refused. */
  lemma SizeLimitExactly(c: Conf, i: Id)
    requires Proper(c) && i in c.data
    ensures (exists s :: Reachable(c, Init(c), s) && i in s.files) <==> |c.data[i]| <= c.maxBytes
    ensures (exists s :: Reachable(c, Init(c), s) && Enabled(c, s, Writer(i, Refuse))) <==> |c.data[i]| > c.maxBytes
  {
    ReachStart(c, Init(c));
    if |c.data[i]| <= c.maxBytes {
      var s := OpenRun(c, i);
    } else {
      forall s | Reachable(c, Init(c), s) ensures i !in s.files {
        var acts :| ValidRun(c, Init(c), acts) && Exec(c, Init(c), acts) == s;
        UntriedForever(c, Init(c), acts, i);
      }
    }
  }

  lemma RenameRun(c: Conf, i: Id) returns (s: State)
    requires Proper(c) && i in c.data && |c.data[i]| <= c.maxBytes
    ensures Reachable(c, Init(c), s) && s.now == 0 && s.phase == Init(c).phase[i := Renamed]
    ensures s.files == map[i := File(c.data[i], true, 0)] && s.names == map[c.final[i] := i]
    ensures s.rows == map[] && s.sweep == NO_SWEEP && s.doomed == {}
  {
    var s0 := FillRun(c, i);
    NamesDiffer(c, i, i);
    ReachStep(c, Init(c), s0, Writer(i, Rename));
    s := ApplyWriter(c, s0, i, Rename);
    assert s.names == map[c.final[i] := i];
  }

  /** The run of one writer up to the return of Write. */
  lemma WriteRun(c: Conf, i: Id) returns (s: State)
    requires Proper(c) && i in c.data && |c.data[i]| <= c.maxBytes
    ensures Reachable(c, Init(c), s) && s.now == 0 && s.phase == Init(c).phase[i := Placed]
    ensures s.files == map[i := File(c.data[i], true, 0)] && s.names == map[c.final[i] := i]
    ensures s.rows == map[] && s.sweep == NO_SWEEP && s.doomed == {}
  {
    var s1 := RenameRun(c, i);
    ReachStep(c, Init(c), s1, Writer(i, SyncDir));
    s := ApplyWriter(c, s1, i, SyncDir);
  }

  /** A pass that begins before the row is committed, and finds its file. */
  lemma EarlyPassRun(c: Conf, i: Id) returns (s: State)
    requires Proper(c) && 0 <= c.grace < c.window && i in c.data && |c.data[i]| <= c.maxBytes
    ensures Reachable(c, Init(c), s) && s.now == c.grace && s.phase == Init(c).phase[i := Placed]
    ensures s.files == map[i := File(c.data[i], true, 0)] && s.rows == map[] && s.doomed == {}
    ensures s.sweep.active && s.sweep.todo == {} && c.final[i] in s.sweep.out
  {
    s := WriteRun(c, i);
    var p := c.final[i];
    var a := Tick(c.grace);
    ReachStep(c, Init(c), s, a); s := Apply(c, s, a);
    a := Sweeper(Begin(0));
    ReachStep(c, Init(c), s, a); s := Apply(c, s, a);
    assert s.sweep.live == {} && s.sweep.todo == {p};
    a := Sweeper(Visit(p));
    ReachStep(c, Init(c), s, a); s := Apply(c, s, a);
  }

  /** A shorter grace lets a pass list the file, the row be committed, and the file go. */
  lemma ShortGraceDangles(c: Conf, i: Id) returns (s: State)
    requires Proper(c) && 0 <= c.grace < c.window && i in c.data && |c.data[i]| <= c.maxBytes
    ensures Reachable(c, Init(c), s) && !NoDanglingRow(c, s)
  {
    s := EarlyPassRun(c, i);
    var p := c.final[i];
    var a := Writer(i, Commit);
    ReachStep(c, Init(c), s, a); s := Apply(c, s, a);
    a := Sweeper(End);
    ReachStep(c, Init(c), s, a); s := Apply(c, s, a);
    a := Sweeper(Remove(p));
    ReachStep(c, Init(c), s, a); s := Apply(c, s, a);
    assert RowLive(s.rows, i) && Lookup(s.names, p) == None;
  }

  predicate Underway(ph: Phase) {
    ph.Opened? || ph.Synced? || ph.Renamed? || ph.Placed?
  }

  /** With no time to commit in, nothing is ever committed. */
  ghost predicate NothingCommitted(s: State) {
    s.rows == map[] && forall i | i in s.phase && Underway(s.phase[i]) :: i in s.files && s.files[i].mtime <= s.now
  }

  lemma NoWindowNoStep(c: Conf, s: State, a: Action)
    requires c.window == 0 && NothingCommitted(s) && Enabled(c, s, a)
    ensures NothingCommitted(Apply(c, s, a))
  {
    if a.Writer? {
      NoWindowWriter(c, s, a.i, a.w);
    }
  }

  lemma NoWindowWriter(c: Conf, s: State, i: Id, w: WriterStep)
    requires c.window == 0 && NothingCommitted(s) && WriterEnabled(c, s, i, w)
    ensures NothingCommitted(ApplyWriter(c, s, i, w))
  {
  }

  lemma {:induction false} NoWindowNoRows(c: Conf, s: State, acts: seq<Action>)
    requires c.window == 0 && NothingCommitted(s) && ValidRun(c, s, acts)
    ensures Exec(c, s, acts).rows == map[]
    decreases |acts|
  {
    if acts != [] {
      NoWindowNoStep(c, s, acts[0]);
      NoWindowNoRows(c, Apply(c, s, acts[0]), acts[1..]);
    }
  }

  /** The grace period is a correctness requirement: with any artifact that fits, no run
      leaves a row without its file exactly when the grace is at least the commit window. */
  lemma GraceIsACorrectnessRequirement(c: Conf, i: Id)
    requires Proper(c) && 0 <= c.grace && i in c.data && |c.data[i]| <= c.maxBytes
    ensures (forall s | Reachable(c, Init(c), s) :: NoDanglingRow(c, s)) <==> c.window <= c.grace
  {
    if c.window <= c.grace {
      forall s | Reachable(c, Init(c), s) ensures NoDanglingRow(c, s) {
        if c.grace == 0 {
          var acts :| ValidRun(c, Init(c), acts) && Exec(c, Init(c), acts) == s;
          NoWindowNoRows(c, Init(c), acts);
        } else {
          forall j: Id | RowLive(s.rows, j) ensures j in c.final && Lookup(s.names, c.final[j]) == Some(j) {
            LiveRowsHaveTheirBytes(c, s, j);
          }
        }
      }
    } else {
      var s := ShortGraceDangles(c, i);
    }
  }
}
