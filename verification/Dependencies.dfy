/** Monitor dependencies: the walk that validates a new parent, and the graph that the
    accepted writes build. */
module Dependencies {
  import opened Basics

  type Id = nat
  type Graph = map<Id, Option<Id>>

  datatype Code = Invalid | Cycle | TooDeep | NotFound | Unavailable

  const MAX_DEPTH := 10

  /** The k-th ancestor of p, counting p itself as the zeroth. */
  function Ancestor(g: Graph, p: Id, k: nat): Option<Id> {
    if k == 0 then Some(p)
    else
      var a := Ancestor(g, p, k - 1);
      if a.Some? && a.value in g then g[a.value] else None
  }

  /** The first k members of the chain exist, can be read, and are not m. */
  ghost predicate Clean(g: Graph, faults: set<Id>, m: Id, p: Id, k: nat) {
    forall j: nat | j < k :: Ancestor(g, p, j).Some? && Ancestor(g, p, j).value in g
                             && Ancestor(g, p, j).value !in faults && Ancestor(g, p, j).value != m
  }

  /** The whole chain is clean and has at most ten members. */
  ghost predicate Accepts(g: Graph, faults: set<Id>, m: Id, p: Id) {
    exists k :: 1 <= k <= MAX_DEPTH && Clean(g, faults, m, p, k) && Ancestor(g, p, k) == None
  }

  ghost predicate Distinct(g: Graph, p: Id, k: nat) {
    forall i: nat, j: nat | i < j < k :: Ancestor(g, p, i) != Ancestor(g, p, j)
  }

  /** The walk gets as far as the k-th ancestor and finds there the id a. */
  ghost predicate Stops(g: Graph, faults: set<Id>, m: Id, p: Id, k: nat, a: Id) {
    k < MAX_DEPTH && Clean(g, faults, m, p, k) && Distinct(g, p, k) && Ancestor(g, p, k) == Some(a)
  }

  ghost predicate Met(g: Graph, m: Id, p: Id, k: nat, a: Id) {
    a == m || exists j: nat :: j < k && Ancestor(g, p, j) == Some(a)
  }

  ghost predicate Explains(g: Graph, faults: set<Id>, m: Id, p: Id, code: Code) {
    match code
    case Invalid => false
    case Cycle => exists k: nat, a: Id :: Stops(g, faults, m, p, k, a) && Met(g, m, p, k, a)
    case TooDeep => Clean(g, faults, m, p, MAX_DEPTH) && Ancestor(g, p, MAX_DEPTH).Some?
    case NotFound => exists k: nat, a: Id :: Stops(g, faults, m, p, k, a) && !Met(g, m, p, k, a) && a !in faults && a !in g
    case Unavailable => exists k: nat, a: Id :: Stops(g, faults, m, p, k, a) && !Met(g, m, p, k, a) && a in faults
  }

  lemma {:induction false} Compose(g: Graph, p: Id, j: nat, k: nat)
    requires Ancestor(g, p, j).Some?
    ensures Ancestor(g, p, j + k) == Ancestor(g, Ancestor(g, p, j).value, k)
    decreases k
  {
    if k > 0 {
      Compose(g, p, j, k - 1);
      assert j + k - 1 == j + (k - 1);
    }
  }

  lemma {:induction false} NoneStays(g: Graph, p: Id, j: nat, k: nat)
    requires Ancestor(g, p, j).None? && j <= k
    ensures Ancestor(g, p, k).None?
    decreases k
  {
    if j < k {
      NoneStays(g, p, j, k - 1);
    }
  }

  /** A chain that meets itself never ends. */
  lemma {:induction false} RepeatNeverEnds(g: Graph, p: Id, i: nat, j: nat, k: nat)
    requires i < j && Ancestor(g, p, i).Some? && Ancestor(g, p, j) == Ancestor(g, p, i)
    ensures Ancestor(g, p, k).Some?
    decreases k
  {
    if k > j {
      Compose(g, p, i, k - j);
      Compose(g, p, j, k - j);
      RepeatNeverEnds(g, p, i, j, i + (k - j));
    } else if Ancestor(g, p, k).None? {
      NoneStays(g, p, k, j);
    }
  }

  lemma ExplainedIsRefused(g: Graph, faults: set<Id>, m: Id, p: Id, code: Code)
    requires Explains(g, faults, m, p, code)
    ensures !Accepts(g, faults, m, p)
  {
    if Accepts(g, faults, m, p) {
      var n :| 1 <= n <= MAX_DEPTH && Clean(g, faults, m, p, n) && Ancestor(g, p, n) == None;
      if code != TooDeep {
        var k: nat, a: Id :| Stops(g, faults, m, p, k, a) && (Met(g, m, p, k, a) || a in faults || a !in g);
        assert k < n;
        assert Ancestor(g, p, k).value == a;
        if j: nat :| j < k && Ancestor(g, p, j) == Some(a) {
          RepeatNeverEnds(g, p, j, k, n);
        }
      }
    }
  }

  /** The same said member by member: p is there, can be read and is not m, and is a root or
      its own parent is such with one level fewer to go. */
  predicate Fits(g: Graph, faults: set<Id>, m: Id, p: Id, levels: nat)
    decreases levels
  {
    0 < levels && p in g && p !in faults && p != m && (g[p].Some? ==> Fits(g, faults, m, g[p].value, levels - 1))
  }

  lemma CleanShift(g: Graph, faults: set<Id>, m: Id, p: Id, k: nat)
    requires p in g && g[p].Some? && p !in faults && p != m
    ensures Clean(g, faults, m, p, k + 1) <==> Clean(g, faults, m, g[p].value, k)
    ensures Ancestor(g, p, k + 1) == Ancestor(g, g[p].value, k)
  {
    assert Ancestor(g, p, 0) == Some(p) && Ancestor(g, p, 1) == g[p];
    forall j: nat ensures Ancestor(g, p, j + 1) == Ancestor(g, g[p].value, j) {
      Compose(g, p, 1, j);
    }
    if Clean(g, faults, m, p, k + 1) {
      forall j: nat | j < k ensures Ancestor(g, g[p].value, j).Some? && Ancestor(g, g[p].value, j).value in g
                                    && Ancestor(g, g[p].value, j).value !in faults && Ancestor(g, g[p].value, j).value != m {
        assert Ancestor(g, p, j + 1) == Ancestor(g, g[p].value, j);
      }
    }
    if Clean(g, faults, m, g[p].value, k) {
      forall j: nat | j < k + 1 ensures Ancestor(g, p, j).Some? && Ancestor(g, p, j).value in g
                                        && Ancestor(g, p, j).value !in faults && Ancestor(g, p, j).value != m {
        if j > 0 {
          assert Ancestor(g, p, (j - 1) + 1) == Ancestor(g, g[p].value, j - 1);
        }
      }
    }
  }

  lemma {:induction false} FitsIsClean(g: Graph, faults: set<Id>, m: Id, p: Id, levels: nat)
    ensures Fits(g, faults, m, p, levels) <==> exists k :: 1 <= k <= levels && Clean(g, faults, m, p, k) && Ancestor(g, p, k) == None
    decreases levels
  {
    assert Ancestor(g, p, 0) == Some(p);
    if 0 < levels && p in g && p !in faults && p != m {
      assert Ancestor(g, p, 1) == g[p];
      if g[p].None? {
        assert Clean(g, faults, m, p, 1);
      } else {
        FitsIsClean(g, faults, m, g[p].value, levels - 1);
        if k :| 1 <= k <= levels - 1 && Clean(g, faults, m, g[p].value, k) && Ancestor(g, g[p].value, k) == None {
          CleanShift(g, faults, m, p, k);
          assert 1 <= k + 1 <= levels && Clean(g, faults, m, p, k + 1) && Ancestor(g, p, k + 1) == None;
        }
        if k :| 1 <= k <= levels && Clean(g, faults, m, p, k) && Ancestor(g, p, k) == None {
          CleanShift(g, faults, m, p, k - 1);
          assert 1 <= k - 1 <= levels - 1;
        }
      }
    }
  }

  /** A parent is accepted exactly when its chain fits ten levels. */
  lemma AcceptsExactly(g: Graph, faults: set<Id>, m: Id, p: Id)
    ensures Accepts(g, faults, m, p) <==> Fits(g, faults, m, p, 10)
  {
    FitsIsClean(g, faults, m, p, 10);
  }

  class Monitor {
    const id: Id
    var parent: Option<Id>

    constructor (id: Id)
      ensures this.id == id && parent == None
    {
      this.id := id;
      parent := None;
    }
  }

  datatype Read = Found(parent: Option<Id>) | Missing | Fault

  /** One read of the store, which may fail for the ids in faults. */
  function GetMonitor(g: Graph, faults: set<Id>, id: Id): Read {
    if id in faults then Fault else if id in g then Found(g[id]) else Missing
  }

  predicate Asked(raw: Option<string>) {
    raw.Some? && raw.value != ""
  }

  /** internal/api/monitors.go resolveParent: nothing asked leaves the monitor alone; a
      parent is adopted exactly when its whole chain is clean and at most ten long; and a
      refusal names what the walk met. */
  method ResolveParent(g: Graph, faults: set<Id>, m: Monitor, raw: Option<string>, parse: string -> Option<Id>)
    returns (problem: Option<Code>, lookups: nat)
    modifies m`parent
    ensures lookups <= MAX_DEPTH
    ensures raw == None || raw == Some("") ==> problem == None && m.parent == old(m.parent)
    ensures Asked(raw) && parse(raw.value).None? ==> problem == Some(Invalid) && m.parent == old(m.parent)
    ensures Asked(raw) && parse(raw.value).Some? ==>
      && (problem == None <==> Accepts(g, faults, m.id, parse(raw.value).value))
      && (problem.Some? ==> Explains(g, faults, m.id, parse(raw.value).value, problem.value))
      && m.parent == if problem == None then parse(raw.value) else old(m.parent)
  {
    problem, lookups := None, 0;
    if raw.None? || raw.value == "" {
      return;
    }
    var parsed := parse(raw.value);
    if parsed.None? {
      problem := Some(Invalid);
      return;
    }
    var p := parsed.value;
    if p == m.id {
      problem := Some(Cycle);
      assert Stops(g, faults, m.id, p, 0, p) && Met(g, m.id, p, 0, p);
      ExplainedIsRefused(g, faults, m.id, p, Cycle);
      return;
    }
    var seen := {m.id};
    var cursor := Some(p);
    var depth: nat := 0;
    while cursor.Some?
      invariant depth <= MAX_DEPTH && lookups == depth
      invariant cursor == Ancestor(g, p, depth)
      invariant Clean(g, faults, m.id, p, depth) && Distinct(g, p, depth)
      invariant forall a :: a in seen <==> Met(g, m.id, p, depth, a)
      invariant m.parent == old(m.parent)
      decreases MAX_DEPTH - depth
    {
      if depth >= MAX_DEPTH {
        problem := Some(TooDeep);
        ExplainedIsRefused(g, faults, m.id, p, TooDeep);
        return;
      }
      if cursor.value in seen {
        problem := Some(Cycle);
        assert Stops(g, faults, m.id, p, depth, cursor.value) && Met(g, m.id, p, depth, cursor.value);
        ExplainedIsRefused(g, faults, m.id, p, Cycle);
        return;
      }
      assert !Met(g, m.id, p, depth, cursor.value);
      seen := seen + {cursor.value};
      assert forall a :: Met(g, m.id, p, depth + 1, a) <==> Met(g, m.id, p, depth, a) || a == cursor.value;
      var read := GetMonitor(g, faults, cursor.value);
      lookups := lookups + 1;
      if read.Missing? {
        problem := Some(NotFound);
        assert Stops(g, faults, m.id, p, depth, cursor.value);
        ExplainedIsRefused(g, faults, m.id, p, NotFound);
        return;
      } else if read.Fault? {
        problem := Some(Unavailable);
        assert Stops(g, faults, m.id, p, depth, cursor.value);
        ExplainedIsRefused(g, faults, m.id, p, Unavailable);
        return;
      }
      cursor := read.parent;
      depth := depth + 1;
    }
    assert Clean(g, faults, m.id, p, depth) && Ancestor(g, p, depth) == None;
    m.parent := Some(p);
  }

  /** What the body of a PATCH holds for the parent. */
  datatype Body = Malformed | Null | Text(text: string)

  /** A PATCH: anything but a text or null is invalid, null or the empty text clears the
      parent, and any other text is validated. */
  method ApplyParentChange(g: Graph, faults: set<Id>, m: Monitor, body: Body, parse: string -> Option<Id>)
    returns (problem: Option<Code>)
    modifies m`parent
    ensures body.Malformed? ==> problem == Some(Invalid) && m.parent == old(m.parent)
    ensures body.Null? || body == Text("") ==> problem == None && m.parent == None
    ensures body.Text? && body.text != "" && parse(body.text).None? ==> problem == Some(Invalid) && m.parent == old(m.parent)
    ensures body.Text? && body.text != "" && parse(body.text).Some? ==>
      && (problem == None <==> Accepts(g, faults, m.id, parse(body.text).value))
      && (problem.Some? ==> Explains(g, faults, m.id, parse(body.text).value, problem.value))
      && m.parent == if problem == None then parse(body.text) else old(m.parent)
  {
    if body.Malformed? {
      return Some(Invalid);
    }
    if body.Null? || body.text == "" {
      m.parent := None;
      return None;
    }
    var lookups;
    problem, lookups := ResolveParent(g, faults, m, Some(body.text), parse);
  }

  // ---- the graph the accepted writes build ----

  /** Deleting is refused while another monitor names the parent (ON DELETE RESTRICT). */
  datatype Step =
    | Create(id: Id, parent: Option<Id>)
    | Reparent(id: Id, p: Id)
    | Clear(id: Id)
    | Delete(id: Id)

  ghost predicate Enabled(g: Graph, a: Step) {
    match a
    case Create(id, parent) => id !in g && (parent.Some? ==> Accepts(g, {}, id, parent.value))
    case Reparent(id, p) => id in g && Accepts(g, {}, id, p)
    case Clear(id) => id in g
    case Delete(id) => id in g && forall x | x in g && x != id :: g[x] != Some(id)
  }

  function Apply(g: Graph, a: Step): Graph {
    match a
    case Create(id, parent) => g[id := parent]
    case Reparent(id, p) => g[id := Some(p)]
    case Clear(id) => g[id := None]
    case Delete(id) => g - {id}
  }

  /** A read that fails refuses what could have been accepted, and accepts nothing more. */
  lemma FaultsOnlyRefuse(g: Graph, faults: set<Id>, m: Id, p: Id)
    requires Accepts(g, faults, m, p)
    ensures Accepts(g, {}, m, p)
  {
    var k :| 1 <= k <= MAX_DEPTH && Clean(g, faults, m, p, k) && Ancestor(g, p, k) == None;
    assert Clean(g, {}, m, p, k);
  }

  /** The monitors and who depends on whom, as the three handlers write it. */
  class MonitorStore {
    var graph: Graph

    constructor ()
      ensures graph == map[]
    {
      graph := map[];
    }

    /** createMonitor, for a monitor with a new id: it joins with the parent asked for, if
        that is accepted, and otherwise not at all. */
    method CreateMonitor(faults: set<Id>, id: Id, raw: Option<string>, parse: string -> Option<Id>) returns (problem: Option<Code>)
      requires id !in graph
      modifies this
      ensures problem.Some? <==>
        Asked(raw) && (parse(raw.value).None? || !Accepts(old(graph), faults, id, parse(raw.value).value))
      ensures problem.Some? ==> graph == old(graph)
      ensures raw == None || raw == Some("") ==> problem == None
      ensures problem == None ==>
        var parent := if raw == None || raw == Some("") then None else parse(raw.value);
        graph == old(graph)[id := parent] && Enabled(old(graph), Create(id, parent)) && graph == Apply(old(graph), Create(id, parent))
    {
      var m := new Monitor(id);
      var lookups;
      problem, lookups := ResolveParent(graph, faults, m, raw, parse);
      if problem == None {
        if Asked(raw) {
          FaultsOnlyRefuse(graph, faults, id, parse(raw.value).value);
        }
        graph := graph[id := m.parent];
      }
    }

    /** The parent of a PATCH, validated and written: the graph changes at this monitor
        alone, to what was asked for. */
    method PatchParent(faults: set<Id>, id: Id, body: Body, parse: string -> Option<Id>) returns (found: bool, problem: Option<Code>)
      modifies this
      ensures found <==> id in old(graph)
      ensures found ==> (problem.Some? <==>
        || body.Malformed?
        || (body.Text? && body.text != "" && (parse(body.text).None? || !Accepts(old(graph), faults, id, parse(body.text).value))))
      ensures !found || problem.Some? ==> graph == old(graph)
      ensures found && problem == None && (body.Null? || body == Text("")) ==>
        graph == old(graph)[id := None] && Enabled(old(graph), Clear(id)) && graph == Apply(old(graph), Clear(id))
      ensures found && problem == None && !(body.Null? || body == Text("")) ==>
        && body.Text? && parse(body.text).Some?
        && var p := parse(body.text).value;
           graph == old(graph)[id := Some(p)] && Enabled(old(graph), Reparent(id, p)) && graph == Apply(old(graph), Reparent(id, p))
    {
      found, problem := id in graph, None;
      if found {
        var m := new Monitor(id);
        m.parent := graph[id];
        problem := ApplyParentChange(graph, faults, m, body, parse);
        if problem == None {
          if body.Text? && body.text != "" {
            FaultsOnlyRefuse(graph, faults, id, parse(body.text).value);
          }
          graph := graph[id := m.parent];
        }
      }
    }

    /** A deletion, which the foreign key refuses while another monitor names this one. */
    method DeleteMonitor(id: Id) returns (ok: bool)
      modifies this
      ensures ok <==> id in old(graph) && forall x | x in old(graph) && x != id :: old(graph)[x] != Some(id)
      ensures graph == if ok then old(graph) - {id} else old(graph)
      ensures ok ==> Enabled(old(graph), Delete(id)) && graph == Apply(old(graph), Delete(id))
    {
      ok := id in graph && forall x | x in graph && x != id :: graph[x] != Some(id);
      if ok {
        graph := graph - {id};
      }
    }
  }

  /** No monitor is its own ancestor. */
  ghost predicate Acyclic(g: Graph) {
    forall x, k: nat | x in g && 1 <= k :: Ancestor(g, x, k) != Some(x)
  }

  ghost predicate Closed(g: Graph) {
    forall x | x in g && g[x].Some? :: g[x].value in g
  }

  /** Changing the parent of m does not change a chain that has not reached m. */
  lemma {:induction false} AvoidSame(g: Graph, g': Graph, m: Id, x: Id, k: nat)
    requires forall y | y != m :: (y in g <==> y in g') && (y in g ==> g[y] == g'[y])
    requires forall j: nat | j < k :: Ancestor(g', x, j) != Some(m)
    ensures Ancestor(g', x, k) == Ancestor(g, x, k)
    decreases k
  {
    if k > 0 {
      AvoidSame(g, g', m, x, k - 1);
    }
  }

  lemma {:induction false} AvoidSameBack(g: Graph, g': Graph, m: Id, x: Id, k: nat)
    requires forall y | y != m :: (y in g <==> y in g') && (y in g ==> g[y] == g'[y])
    requires forall j: nat | j < k :: Ancestor(g, x, j) != Some(m)
    ensures Ancestor(g', x, k) == Ancestor(g, x, k)
    decreases k
  {
    if k > 0 {
      AvoidSameBack(g, g', m, x, k - 1);
    }
  }

  /** From an accepted parent the new graph never leads back to m. */
  lemma AcceptedNeverReturns(g: Graph, g': Graph, m: Id, p: Id, k: nat)
    requires forall y | y != m :: (y in g <==> y in g') && (y in g ==> g[y] == g'[y])
    requires Accepts(g, {}, m, p)
    ensures Ancestor(g', p, k) != Some(m)
  {
    var n :| 1 <= n <= MAX_DEPTH && Clean(g, {}, m, p, n) && Ancestor(g, p, n) == None;
    if k < n {
      AvoidSameBack(g, g', m, p, k);
    } else {
      AvoidSameBack(g, g', m, p, n);
      NoneStays(g', p, n, k);
    }
  }

  /** A cycle can be read from any of its members. */
  lemma Rotate(g: Graph, x: Id, m: Id, j: nat, rest: nat, k: nat)
    requires k == j + rest && Ancestor(g, x, j) == Some(m) && Ancestor(g, x, k) == Some(x)
    ensures Ancestor(g, m, k) == Some(m)
  {
    ComeBack(g, x, m, j, rest, k);
    GoOn(g, x, m, j, rest, k);
  }

  lemma ComeBack(g: Graph, x: Id, m: Id, j: nat, rest: nat, k: nat)
    requires k == j + rest && Ancestor(g, x, j) == Some(m) && Ancestor(g, x, k) == Some(x)
    ensures Ancestor(g, m, rest) == Some(x)
  {
    Compose(g, x, j, rest);
  }

  lemma GoOn(g: Graph, x: Id, m: Id, j: nat, rest: nat, k: nat)
    requires k == j + rest && Ancestor(g, x, j) == Some(m) && Ancestor(g, m, rest) == Some(x)
    ensures Ancestor(g, m, k) == Some(m)
  {
    Compose(g, m, rest, j);
  }

  /** A cycle of the new graph that does not pass through m was there before. */
  lemma NewCyclesPassThrough(g: Graph, g': Graph, m: Id, x: Id, k: nat)
    requires forall y | y != m :: (y in g <==> y in g') && (y in g ==> g[y] == g'[y])
    requires Acyclic(g) && 1 <= k && Ancestor(g', x, k) == Some(x) && x in g'
    ensures Ancestor(g', m, k) == Some(m)
  {
    if j: nat :| j < k && Ancestor(g', x, j) == Some(m) {
      Rotate(g', x, m, j, k - j, k);
    } else {
      assert Ancestor(g', x, 0) == Some(x);
      AvoidSame(g, g', m, x, k);
    }
  }

  lemma StepKeepsAcyclic(g: Graph, a: Step)
    requires Acyclic(g) && Closed(g) && Enabled(g, a)
    ensures Acyclic(Apply(g, a)) && Closed(Apply(g, a))
  {
    var g' := Apply(g, a);
    forall x, k: nat | x in g' && 1 <= k ensures Ancestor(g', x, k) != Some(x) {
      if Ancestor(g', x, k) == Some(x) {
        var m := a.id;
        NewCyclesPassThrough(g, g', m, x, k);
        FirstStep(g', m, k);
        if m in g' && g'[m].Some? {
          AcceptedNeverReturns(g, g', m, g'[m].value, k - 1);
        }
      }
    }
    if a.Create? && a.parent.Some? {
      AcceptedExists(g, a.id, a.parent.value);
    } else if a.Reparent? {
      AcceptedExists(g, a.id, a.p);
    }
  }

  lemma FirstStep(g: Graph, m: Id, k: nat)
    requires 1 <= k && Ancestor(g, m, k).Some?
    ensures m in g && g[m].Some? && Ancestor(g, m, k) == Ancestor(g, g[m].value, k - 1)
  {
    if Ancestor(g, m, 1).None? {
      NoneStays(g, m, 1, k);
    }
    assert Ancestor(g, m, 0) == Some(m);
    Compose(g, m, 1, k - 1);
  }

  lemma AcceptedExists(g: Graph, m: Id, p: Id)
    requires Accepts(g, {}, m, p)
    ensures p in g && p != m
  {
    assert Ancestor(g, p, 0) == Some(p);
  }

  ghost predicate ValidRun(g: Graph, steps: seq<Step>)
    decreases |steps|
  {
    steps == [] || (Enabled(g, steps[0]) && ValidRun(Apply(g, steps[0]), steps[1..]))
  }

  function Exec(g: Graph, steps: seq<Step>): Graph
    decreases |steps|
  {
    if steps == [] then g else Exec(Apply(g, steps[0]), steps[1..])
  }

  lemma {:induction false} RunKeepsAcyclic(g: Graph, steps: seq<Step>)
    requires Acyclic(g) && Closed(g) && ValidRun(g, steps)
    ensures Acyclic(Exec(g, steps)) && Closed(Exec(g, steps))
    decreases |steps|
  {
    if steps != [] {
      StepKeepsAcyclic(g, steps[0]);
      RunKeepsAcyclic(Apply(g, steps[0]), steps[1..]);
    }
  }

  /** From an empty install, every sequence of accepted writes leaves a forest. */
  lemma EveryGraphIsAForest(steps: seq<Step>)
    requires ValidRun(map[], steps)
    ensures Acyclic(Exec(map[], steps)) && Closed(Exec(map[], steps))
  {
    RunKeepsAcyclic(map[], steps);
  }

  // ---- the bound of ten is on the walk, not on the graph ----

  lemma {:induction false} RunConcat(g: Graph, a: seq<Step>, b: seq<Step>)
    requires ValidRun(g, a) && ValidRun(Exec(g, a), b)
    ensures ValidRun(g, a + b) && Exec(g, a + b) == Exec(Exec(g, a), b)
    decreases |a|
  {
    if a == [] {
      assert a + b == b;
    } else {
      assert (a + b)[0] == a[0] && (a + b)[1..] == a[1..] + b;
      RunConcat(Apply(g, a[0]), a[1..], b);
    }
  }

  /** Monitors 0 to n, each under the next. */
  function Line(n: nat): (g: Graph)
    ensures forall i: Id :: i in g <==> i <= n
    ensures forall i: Id | i < n :: g[i] == Some(i + 1)
    ensures g[n] == None
  {
    if n == 0 then map[0 := None] else Line(n - 1)[n - 1 := Some(n)][n := None]
  }

  /** A new monitor is put over the topmost one, whose walk then meets it alone. */
  lemma PutOver(n: nat)
    ensures var steps := [Create(n + 1, None), Reparent(n, n + 1)];
      ValidRun(Line(n), steps) && Exec(Line(n), steps) == Line(n + 1)
  {
    var g := Line(n);
    var g1 := Apply(g, Create(n + 1, None));
    assert Ancestor(g1, n + 1, 0) == Some(n + 1) && Ancestor(g1, n + 1, 1) == None;
    assert Clean(g1, {}, n, n + 1, 1);
    assert Accepts(g1, {}, n, n + 1);
    var a, b := Create(n + 1, None), Reparent(n, n + 1);
    assert Apply(g1, b) == Line(n + 1);
    assert [a, b][1..] == [b] && [b][1..] == [];
    assert ValidRun(g1, [b]) && Exec(g1, [b]) == Line(n + 1);
  }

  lemma {:induction false} LineAncestor(n: nat, k: nat)
    requires k <= n
    ensures Ancestor(Line(n), 0, k) == Some(k)
  {
    if k > 0 {
      LineAncestor(n, k - 1);
    }
  }

  lemma LineStart()
    ensures ValidRun(map[], [Create(0, None)]) && Exec(map[], [Create(0, None)]) == Line(0)
  {
    var c := Create(0, None);
    assert [c][1..] == [] && Apply(map[], c) == Line(0);
  }

  lemma {:induction false} LineIsBuilt(n: nat) returns (steps: seq<Step>)
    ensures ValidRun(map[], steps) && Exec(map[], steps) == Line(n)
  {
    if n == 0 {
      LineStart();
      steps := [Create(0, None)];
    } else {
      var lower := LineIsBuilt(n - 1);
      var over := [Create(n, None), Reparent(n - 1, n)];
      PutOver(n - 1);
      RunConcat(map[], lower, over);
      steps := lower + over;
    }
  }

  /** For every n, accepted writes alone build from nothing a graph in which a monitor has
      n ancestors over it. */
  lemma DepthIsUnbounded(n: nat) returns (steps: seq<Step>)
    ensures ValidRun(map[], steps)
    ensures forall k: nat | k <= n :: Ancestor(Exec(map[], steps), 0, k) == Some(k)
  {
    steps := LineIsBuilt(n);
    forall k: nat | k <= n ensures Ancestor(Line(n), 0, k) == Some(k) {
      LineAncestor(n, k);
    }
  }

  /** Every monitor has at most ten ancestors. */
  ghost predicate Shallow(g: Graph) {
    forall x | x in g :: Ancestor(g, x, 11) == None
  }

  lemma VisitedOnce(g: Graph, x: Id, m: Id, i: nat, j: nat)
    requires Acyclic(g) && m in g && i < j
    ensures !(Ancestor(g, x, i) == Some(m) && Ancestor(g, x, j) == Some(m))
  {
    if Ancestor(g, x, i) == Some(m) {
      Compose(g, x, i, j - i);
    }
  }

  lemma AcceptedSame(g: Graph, g': Graph, m: Id, p: Id, k: nat)
    requires forall y | y != m :: (y in g <==> y in g') && (y in g ==> g[y] == g'[y])
    requires Accepts(g, {}, m, p)
    ensures Ancestor(g', p, k) == Ancestor(g, p, k) && Ancestor(g, p, 10) == None
  {
    var n :| 1 <= n <= MAX_DEPTH && Clean(g, {}, m, p, n) && Ancestor(g, p, n) == None;
    NoneStays(g, p, n, 10);
    AvoidSameBack(g, g', m, p, if k < n then k else n);
    if k >= n {
      NoneStays(g, p, n, k);
      NoneStays(g', p, n, k);
    }
  }

  /** What lies over a monitor that is j levels below m, once p is m's parent. */
  lemma OverTheMoved(g: Graph, g': Graph, m: Id, p: Id, x: Id, j: nat)
    requires forall y | y != m :: (y in g <==> y in g') && (y in g ==> g[y] == g'[y])
    requires Accepts(g, {}, m, p) && m in g' && g'[m] == Some(p)
    requires j <= 10 && Ancestor(g', x, j) == Some(m)
    ensures Ancestor(g', x, 11) == Ancestor(g, p, 10 - j)
  {
    Compose(g', x, j, 11 - j);
    assert Ancestor(g', m, 0) == Some(m) && Ancestor(g', m, 1) == Some(p);
    Compose(g', m, 1, 10 - j);
    AcceptedSame(g, g', m, p, 10 - j);
  }

  lemma {:induction false} ChainsStayInside(g: Graph, x: Id, k: nat)
    requires Closed(g) && x in g
    ensures Ancestor(g, x, k).Some? ==> Ancestor(g, x, k).value in g
  {
    if k > 0 {
      ChainsStayInside(g, x, k - 1);
    }
  }

  /** Nothing below m is so far below it, and p so deep, that together they make more than
      ten levels. */
  ghost predicate RoomOver(g: Graph, m: Id, p: Id) {
    forall x, j: nat | x in g && j <= 10 && Ancestor(g, x, j) == Some(m) :: Ancestor(g, p, 10 - j) == None
  }

  lemma MoveKeepsShallow(g: Graph, m: Id, p: Id)
    requires Acyclic(g) && Closed(g) && Shallow(g) && Enabled(g, Reparent(m, p))
    ensures Shallow(g[m := Some(p)]) <==> RoomOver(g, m, p)
  {
    var g' := g[m := Some(p)];
    StepKeepsAcyclic(g, Reparent(m, p));
    if Shallow(g') {
      forall x, j: nat | x in g && j <= 10 && Ancestor(g, x, j) == Some(m) ensures Ancestor(g, p, 10 - j) == None {
        SameVisits(g, g', m, x, j);
        OverTheMoved(g, g', m, p, x, j);
        assert x in g';
      }
    }
    if RoomOver(g, m, p) {
      forall x | x in g' ensures Ancestor(g', x, 11) == None {
        if j: nat :| j <= 10 && Ancestor(g', x, j) == Some(m) {
          SameVisits(g, g', m, x, j);
          OverTheMoved(g, g', m, p, x, j);
        } else {
          AvoidSame(g, g', m, x, 11);
        }
      }
    }
  }

  lemma SameVisits(g: Graph, g': Graph, m: Id, x: Id, j: nat)
    requires forall y | y != m :: (y in g <==> y in g') && (y in g ==> g[y] == g'[y])
    requires Acyclic(g) && Acyclic(g') && m in g && m in g'
    ensures Ancestor(g, x, j) == Some(m) <==> Ancestor(g', x, j) == Some(m)
  {
    if Ancestor(g, x, j) == Some(m) {
      forall i: nat | i < j ensures Ancestor(g, x, i) != Some(m) { VisitedOnce(g, x, m, i, j); }
      AvoidSameBack(g, g', m, x, j);
    }
    if Ancestor(g', x, j) == Some(m) {
      forall i: nat | i < j ensures Ancestor(g', x, i) != Some(m) { VisitedOnce(g', x, m, i, j); }
      AvoidSame(g, g', m, x, j);
    }
  }

  /** Creating, clearing and deleting never make a chain too long. */
  lemma OthersKeepShallow(g: Graph, a: Step)
    requires Closed(g) && Shallow(g) && Enabled(g, a) && !a.Reparent?
    ensures Shallow(Apply(g, a))
  {
    var g', m := Apply(g, a), a.id;
    forall x | x in g' ensures Ancestor(g', x, 11) == None {
      if a.Create? && a.parent.Some? && x == m {
        assert Ancestor(g', x, 0) == Some(m);
        OverTheMoved(g, g', m, a.parent.value, x, 0);
        AcceptedSame(g, g', m, a.parent.value, 10);
      } else if j: nat :| j <= 10 && Ancestor(g', x, j) == Some(m) {
        if a.Create? && a.parent.Some? {
          NotYetReached(g, g', m, x, j);
        } else {
          assert Ancestor(g', x, j + 1) == None;
          NoneStays(g', x, j + 1, 11);
        }
      } else {
        assert Ancestor(g', x, 0) == Some(x);
        AvoidSame(g, g', m, x, 11);
      }
    }
  }

  lemma {:induction false} NotYetReached(g: Graph, g': Graph, m: Id, x: Id, j: nat)
    requires forall y | y != m :: (y in g <==> y in g') && (y in g ==> g[y] == g'[y])
    requires Closed(g) && m !in g && x in g
    ensures Ancestor(g', x, j) != Some(m)
  {
    forall i: nat | i < j ensures Ancestor(g, x, i) != Some(m) { ChainsStayInside(g, x, i); }
    AvoidSameBack(g, g', m, x, j);
    ChainsStayInside(g, x, j);
  }

  /** Chains stay within ten levels over an accepted write exactly when it is no move of a
      monitor with others so far below it that they come to lie deeper. */
  lemma DepthKeptExactly(g: Graph, a: Step)
    requires Acyclic(g) && Closed(g) && Shallow(g) && Enabled(g, a)
    ensures Shallow(Apply(g, a)) <==> (a.Reparent? ==> RoomOver(g, a.id, a.p))
  {
    if a.Reparent? {
      MoveKeepsShallow(g, a.id, a.p);
    } else {
      OthersKeepShallow(g, a);
    }
  }

  /** The run moves only monitors on which none depends. */
  predicate MovesLeaves(g: Graph, steps: seq<Step>)
    decreases |steps|
  {
    steps == [] ||
    ((steps[0].Reparent? ==> forall x | x in g :: g[x] != Some(steps[0].id)) && MovesLeaves(Apply(g, steps[0]), steps[1..]))
  }

  /** While only monitors are moved on which none depends, chains stay within ten levels. */
  lemma {:induction false} TenLevelsHold(g: Graph, steps: seq<Step>)
    requires Acyclic(g) && Closed(g) && Shallow(g) && ValidRun(g, steps) && MovesLeaves(g, steps)
    ensures Shallow(Exec(g, steps))
    decreases |steps|
  {
    if steps != [] {
      var a := steps[0];
      StepKeepsAcyclic(g, a);
      if a.Reparent? {
        AcceptedSame(g, g, a.id, a.p, 10);
        forall x, j: nat | x in g && Ancestor(g, x, j) == Some(a.id) ensures j == 0 {
        }
      }
      DepthKeptExactly(g, a);
      TenLevelsHold(Apply(g, a), steps[1..]);
    }
  }

  /** On a forest the walk refuses a parent for a cycle only when the monitor itself is
      among the parent's first ten ancestors: it never blames the stored data. */
  lemma CycleMeansDescendant(g: Graph, m: Id, p: Id)
    requires Acyclic(g) && Explains(g, {}, m, p, Cycle)
    ensures exists k: nat :: k < MAX_DEPTH && Ancestor(g, p, k) == Some(m)
  {
    var k: nat, a: Id :| Stops(g, {}, m, p, k, a) && Met(g, m, p, k, a);
    if j: nat :| j < k && Ancestor(g, p, j) == Some(a) {
      Compose(g, p, j, k - j);
      assert false;
    }
  }
}
