/** The names the artifact store uses, and the proof that they never collide. */
module ArtifactPaths {
  import opened Basics
  import opened ArtifactStore
  import opened ArtifactSafety
  import Texts
  import Uuid

  datatype Format = PDF | HTML | CSV | JSON | Other

  function Extension(f: Format): string {
    match f
    case PDF => ".pdf"
    case HTML => ".html"
    case CSV => ".csv"
    case JSON => ".json"
    case Other => ".bin"
  }

  /** One call of Write. `year` and `month` are the two formatted halves of its date. */
  datatype Job = Job(id: seq<Byte>, format: Format, year: string, month: string, data: seq<Byte>)

  predicate WellFormed(j: Job) {
    |j.id| == 16 && '/' !in j.year && '/' !in j.month
  }

  function BaseName(j: Job): string {
    Uuid.HexUuid(j.id) + Extension(j.format)
  }

  function RelPath(j: Job): string {
    j.year + "/" + j.month + "/" + BaseName(j)
  }

  function TmpPath(j: Job): string {
    RelPath(j) + ".partial"
  }

  /** filepath.Dir: everything up to the last slash. */
  function DirOf(p: string): string {
    var parts := Texts.Split(p, '/');
    Texts.Join(parts[..|parts| - 1], '/')
  }

  lemma JoinThree(a: string, b: string, c: string)
    ensures Texts.Join([a, b, c], '/') == a + "/" + b + "/" + c
  {
    assert [a, b, c][1..] == [b, c] && [b, c][1..] == [c];
    assert Texts.Join([b, c], '/') == b + "/" + c;
  }

  lemma SplitThree(a: string, b: string, c: string)
    requires '/' !in a && '/' !in b && '/' !in c
    ensures Texts.Split(a + "/" + b + "/" + c, '/') == [a, b, c]
    ensures DirOf(a + "/" + b + "/" + c) == Texts.Join([a, b], '/')
  {
    Texts.SplitJoin([a, b, c], '/');
    JoinThree(a, b, c);
    assert [a, b, c][..2] == [a, b];
  }

  lemma RelParts(j: Job)
    requires WellFormed(j)
    ensures Texts.Split(RelPath(j), '/') == [j.year, j.month, BaseName(j)]
    ensures Texts.Split(TmpPath(j), '/') == [j.year, j.month, BaseName(j) + ".partial"]
    ensures DirOf(RelPath(j)) == DirOf(TmpPath(j))
    ensures BaseName(j) == Uuid.HexUuid(j.id) + match j.format
      case PDF => ".pdf" case HTML => ".html" case CSV => ".csv" case JSON => ".json" case Other => ".bin"
  {
    Uuid.UuidRoundTrip(j.id);
    SplitThree(j.year, j.month, BaseName(j));
    SplitThree(j.year, j.month, BaseName(j) + ".partial");
    assert TmpPath(j) == j.year + "/" + j.month + "/" + (BaseName(j) + ".partial");
  }

  lemma ExtensionsDiffer(f: Format, g: Format)
    requires Extension(f) == Extension(g)
    ensures f == g
  {
    assert Extension(f)[1] == Extension(g)[1];
  }

  /** The id can be read off a path, final or temporary; and off a final one, everything. */
  lemma PathsNameTheId(j: Job, k: Job)
    requires WellFormed(j) && WellFormed(k)
    ensures RelPath(j) == RelPath(k) ==> j.id == k.id && j.format == k.format && j.year == k.year && j.month == k.month
    ensures TmpPath(j) == TmpPath(k) ==> j.id == k.id
  {
    RelParts(j);
    RelParts(k);
    Uuid.UuidRoundTrip(j.id);
    Uuid.UuidRoundTrip(k.id);
    if RelPath(j) == RelPath(k) || TmpPath(j) == TmpPath(k) {
      assert BaseName(j)[..36] == BaseName(k)[..36] by {
        assert BaseName(j) == BaseName(k) || BaseName(j) + ".partial" == BaseName(k) + ".partial";
        assert (BaseName(j) + ".partial")[..36] == BaseName(j)[..36] && (BaseName(k) + ".partial")[..36] == BaseName(k)[..36];
      }
      assert BaseName(j)[..36] == Uuid.HexUuid(j.id) && BaseName(k)[..36] == Uuid.HexUuid(k.id);
    }
    if RelPath(j) == RelPath(k) {
      assert BaseName(j)[36..] == Extension(j.format) && BaseName(k)[36..] == Extension(k.format);
      ExtensionsDiffer(j.format, k.format);
    }
  }

  /** No final path is ever a temporary one. */
  lemma FinalIsNotTmp(j: Job, k: Job)
    requires WellFormed(j) && WellFormed(k)
    ensures RelPath(j) != TmpPath(k)
  {
    var p, q := RelPath(j), TmpPath(k);
    assert p == j.year + "/" + j.month + "/" + Uuid.HexUuid(j.id) + Extension(j.format);
    assert p[|p| - 2] == Extension(j.format)[|Extension(j.format)| - 2];
    assert q[|q| - 2] == ".partial"[6] == 'a';
  }

  /** Each id is written once. */
  ghost predicate WrittenOnce(jobs: map<Id, Job>) {
    && (forall i | i in jobs :: WellFormed(jobs[i]))
    && (forall i, j | i in jobs && j in jobs && jobs[i].id == jobs[j].id :: i == j)
  }

  function Finals(jobs: map<Id, Job>): map<Id, Path> {
    map i | i in jobs :: Path(RelPath(jobs[i]))
  }

  function Tmps(jobs: map<Id, Job>): map<Id, Path> {
    map i | i in jobs :: Path(TmpPath(jobs[i]))
  }

  ghost predicate Apart(final: map<Id, Path>, tmp: map<Id, Path>) {
    && (forall i, j | i in final && j in final && final[i] == final[j] :: i == j)
    && (forall i, j | i in tmp && j in tmp && tmp[i] == tmp[j] :: i == j)
    && (forall i, j | i in final && j in tmp :: final[i] != tmp[j])
  }

  lemma NamesAreApart(jobs: map<Id, Job>)
    requires WrittenOnce(jobs)
    ensures Apart(Finals(jobs), Tmps(jobs))
  {
    forall i, j | i in jobs && j in jobs
      ensures Finals(jobs)[i] == Finals(jobs)[j] ==> i == j
      ensures Tmps(jobs)[i] == Tmps(jobs)[j] ==> i == j
      ensures Finals(jobs)[i] != Tmps(jobs)[j]
    {
      PathsNameTheId(jobs[i], jobs[j]);
      FinalIsNotTmp(jobs[i], jobs[j]);
    }
  }

  ghost function Roles(final: map<Id, Path>, tmp: map<Id, Path>): map<Path, Role>
    requires Apart(final, tmp)
  {
    (map i | i in tmp :: tmp[i] := TmpOf(i)) + (map i | i in final :: final[i] := FinalOf(i))
  }

  lemma RolesAreRight(final: map<Id, Path>, tmp: map<Id, Path>)
    requires Apart(final, tmp)
    ensures forall i | i in final :: final[i] in Roles(final, tmp) && Roles(final, tmp)[final[i]] == FinalOf(i)
    ensures forall i | i in tmp :: tmp[i] in Roles(final, tmp) && Roles(final, tmp)[tmp[i]] == TmpOf(i)
  {
  }

  /** The store's own names, for a set of writes. */
  ghost function StoreConf(jobs: map<Id, Job>, digest: seq<Byte> -> string, maxBytes: nat, window: nat, grace: int): (c: Conf)
    requires WrittenOnce(jobs)
    ensures Proper(c)
  {
    NamesAreApart(jobs);
    RolesAreRight(Finals(jobs), Tmps(jobs));
    Conf(map i | i in jobs :: jobs[i].data, Finals(jobs), Tmps(jobs), Roles(Finals(jobs), Tmps(jobs)),
         (p: Path) => DirOf(p.text), digest, maxBytes, window, grace)
  }

  /** With the paths the store really uses: a live row's relative path leads to exactly
      the bytes that were written, over every run with crashes. */
  lemma CommittedArtifactsSurvive(jobs: map<Id, Job>, digest: seq<Byte> -> string, maxBytes: nat, window: nat, grace: int, s: State, i: Id)
    requires WrittenOnce(jobs) && window <= grace && 0 < grace
    requires Reachable(StoreConf(jobs, digest, maxBytes, window, grace), Init(StoreConf(jobs, digest, maxBytes, window, grace)), s)
    requires RowLive(s.rows, i)
    ensures i in jobs && i in s.rows && s.rows[i] == Row(Some(Path(RelPath(jobs[i]))), |jobs[i].data|, digest(jobs[i].data))
    ensures Path(RelPath(jobs[i])) in s.names && s.names[Path(RelPath(jobs[i]))] in s.files
    ensures s.files[s.names[Path(RelPath(jobs[i]))]].content == jobs[i].data
  {
    var c := StoreConf(jobs, digest, maxBytes, window, grace);
    LiveRowsHaveTheirBytes(c, s, i);
    ReachableInv(c, s);
  }

  /** One entry of the directory walk, as `Orphans` sees it. */
  datatype Entry = Entry(rel: string, isDir: bool, present: bool, mtime: int)

  predicate Collects(e: Entry, live: set<string>, before: int) {
    !e.isDir && e.rel !in live && e.present && e.mtime <= before
  }

  function Collected(walk: seq<Entry>, live: set<string>, before: int): seq<string> {
    if walk == [] then []
    else
      var last := walk[|walk| - 1];
      Collected(walk[..|walk| - 1], live, before) + if Collects(last, live, before) then [last.rel] else []
  }

  /** The walk of `Orphans`. */
  method Orphans(walk: seq<Entry>, live: set<string>, before: int) returns (out: seq<string>)
    ensures out == Collected(walk, live, before)
  {
    out := [];
    for n := 0 to |walk|
      invariant out == Collected(walk[..n], live, before)
    {
      assert walk[..n + 1][..n] == walk[..n];
      var e := walk[n];
      if e.isDir || e.rel in live || !e.present || e.mtime > before {
        continue;
      }
      out := out + [e.rel];
    }
    assert walk[..|walk|] == walk;
  }

  // ---- the walk and the protocol's pass ----

  /** The entry a visit of p would see now. */
  function EntryAt(s: State, p: Path): Entry {
    var present := p in s.names && s.names[p] in s.files;
    Entry(p.text, false, present, if present then s.files[s.names[p]].mtime else 0)
  }

  /** The entries seen by the visits of a run, each at its own moment. */
  ghost function Recorded(c: Conf, s: State, acts: seq<Action>): seq<Entry>
    requires ValidRun(c, s, acts)
    decreases |acts|
  {
    if acts == [] then []
    else
      (if acts[0].Sweeper? && acts[0].d.Visit? then [EntryAt(s, acts[0].d.p)] else []) + Recorded(c, Apply(c, s, acts[0]), acts[1..])
  }

  function TextsOf(paths: set<Path>): set<string> {
    set p | p in paths :: p.text
  }

  lemma {:induction false} CollectedConcat(a: seq<Entry>, b: seq<Entry>, live: set<string>, before: int)
    ensures Collected(a + b, live, before) == Collected(a, live, before) + Collected(b, live, before)
    decreases |b|
  {
    if b == [] {
      assert a + b == a;
    } else {
      assert (a + b)[..|a + b| - 1] == a + b[..|b| - 1];
      CollectedConcat(a, b[..|b| - 1], live, before);
    }
  }

  lemma VisitIsOneEntry(s: State, p: Path)
    ensures IsOrphan(s.names, s.files, s.sweep.live, s.sweep.before, p) <==> Collects(EntryAt(s, p), TextsOf(s.sweep.live), s.sweep.before)
  {
    if p.text in TextsOf(s.sweep.live) {
      var q :| q in s.sweep.live && q.text == p.text;
      assert q == p;
    }
  }

  /** Only a visit adds to what was found, and only its own path. */
  lemma PassStep(c: Conf, s: State, a: Action)
    requires Enabled(c, s, a) && s.sweep.active && DuringPass(a)
    ensures var w := Apply(c, s, a).sweep;
      && w.active && w.live == s.sweep.live && w.before == s.sweep.before
      && forall p :: p in w.out <==>
           p in s.sweep.out
           || (a.Sweeper? && a.d.Visit? && p == a.d.p && IsOrphan(s.names, s.files, s.sweep.live, s.sweep.before, p))
  {
  }

  /** The protocol's pass is the walk: whatever the writers do meanwhile, a path is found
      exactly when the walk over the entries as they were when visited returns it. */
  lemma {:induction false} PassIsTheWalk(c: Conf, s: State, acts: seq<Action>, p: Path)
    requires ValidRun(c, s, acts) && s.sweep.active && forall a | a in acts :: DuringPass(a)
    ensures p in Exec(c, s, acts).sweep.out <==>
      p in s.sweep.out || p.text in Collected(Recorded(c, s, acts), TextsOf(s.sweep.live), s.sweep.before)
    decreases |acts|
  {
    if acts != [] {
      var a, rest := acts[0], acts[1..];
      assert a in acts && forall b | b in rest :: b in acts;
      var s', live, before := Apply(c, s, a), TextsOf(s.sweep.live), s.sweep.before;
      PassStep(c, s, a);
      PassIsTheWalk(c, s', rest, p);
      if a.Sweeper? && a.d.Visit? {
        var e := EntryAt(s, a.d.p);
        VisitIsOneEntry(s, a.d.p);
        CollectedConcat([e], Recorded(c, s', rest), live, before);
        assert Collected([e], live, before) == if Collects(e, live, before) then [e.rel] else [];
        assert p == a.d.p <==> p.text == e.rel;
      } else {
        assert Recorded(c, s, acts) == Recorded(c, s', rest);
      }
    }
  }

  /** A path is returned exactly when it is unreferenced and some entry for it is a file
      still there and not modified after the cut-off; nothing older is ever kept back. */
  lemma {:induction false} CollectedExactly(walk: seq<Entry>, live: set<string>, before: int, p: string)
    ensures p in Collected(walk, live, before) <==>
      p !in live && exists k :: 0 <= k < |walk| && walk[k].rel == p && !walk[k].isDir && walk[k].present && walk[k].mtime <= before
  {
    if walk != [] {
      var front, n := walk[..|walk| - 1], |walk| - 1;
      CollectedExactly(front, live, before, p);
      assert forall k | 0 <= k < n :: front[k] == walk[k];
      assert walk[n] == walk[|walk| - 1];
    }
  }
}
