/** The custom-domain cache: a map trusted for a TTL, reloaded by whichever lookup finds
    it stale, and dropped after every write to the table it caches. Lookups hold the lock
    only to read or to install the map, so loads, writes and invalidations interleave. */
module DomainCache {
  import opened Basics

  type Domains = map<string, string>

  const TTL: int := 30_000_000_000

  predicate Fresh(fetched: Option<int>, now: int) {
    fetched.Some? && now - fetched.value < TTL
  }

  /** What a lookup answers from, and what the cache holds after it. */
  datatype Looked = Looked(answering: Option<Domains>, domains: Option<Domains>, fetched: Option<int>)

  function Look(domains: Option<Domains>, fetched: Option<int>, now: int, load: Option<Domains>, after: int): Looked {
    if Fresh(fetched, now) || load.None? then Looked(domains, domains, fetched) else Looked(load, load, Some(after))
  }

  /** The critical sections of the cache. */
  class Cache {
    var domains: Option<Domains>
    var fetched: Option<int>

    constructor ()
      ensures domains == None && fetched == None
    {
      domains, fetched := None, None;
    }

    method Peek(now: int) returns (held: Option<Domains>, usable: bool)
      ensures held == domains && usable == Fresh(fetched, now)
    {
      held := domains;
      usable := fetched.Some? && now - fetched.value < TTL;
    }

    method Install(loaded: Domains, now: int)
      modifies this
      ensures domains == Some(loaded) && fetched == Some(now)
    {
      domains, fetched := Some(loaded), Some(now);
    }

    method Invalidate()
      modifies this`fetched
      ensures fetched == None
    {
      fetched := None;
    }

    /** slugFor with nobody else running: `load` is what the query returns, if it succeeds,
        and `after` the time at which it has returned. */
    method SlugFor(host: string, now: int, load: Option<Domains>, after: int) returns (slug: Option<string>)
      modifies this
      ensures host == "" ==> slug == None && domains == old(domains) && fetched == old(fetched)
      ensures host != "" ==>
        var l := Look(old(domains), old(fetched), now, load, after);
        && domains == l.domains && fetched == l.fetched
        && (slug.Some? <==> l.answering.Some? && host in l.answering.value)
        && (slug.Some? ==> slug.value == l.answering.value[host])
    {
      if host == "" {
        return None;
      }
      var held, usable := Peek(now);
      if !usable {
        if load.Some? {
          Install(load.value, after);
          held := load;
        } else if held == None {
          return None;
        }
      }
      slug := if held.Some? && host in held.value then Some(held.value[host]) else None;
    }
  }

  // ---- interleavings ----

  /** The table as it was from a time on, until the next version. */
  datatype Version = Version(from: int, table: Domains)

  /** A map the cache holds: its text, and which version it is, when the load began, read
      the table and was stored. */
  datatype Loaded = Loaded(domains: Domains, version: nat, began: int, readAt: int, stored: int)

  datatype Snap = Snap(version: nat, readAt: int)

  /** A lookup that found the cache stale; `held` is the map it fell back on. */
  datatype Load = Load(began: int, snap: Option<Snap>, held: Option<Loaded>)

  datatype Answer = Answer(at: int, from: Option<Loaded>, loadFailed: bool)

  datatype State = State(now: int, tables: seq<Version>, cached: Option<Loaded>, fetched: Option<int>,
                         loads: map<nat, Load>, answers: seq<Answer>)

  datatype Step =
    | Tick(t: int)
    | Write(table: Domains)
    | Invalidate
    | Hit
    | BeginLoad(id: nat)
    | ReadTable(id: nat)
    | FinishLoad(id: nat)
    | FailLoad(id: nat)

  function Init(table: Domains): State {
    State(0, [Version(0, table)], None, None, map[], [])
  }

  predicate Enabled(s: State, a: Step) {
    match a
    case Tick(t) => s.now <= t
    case Write(_) => true
    case Invalidate => true
    case Hit => Fresh(s.fetched, s.now)
    case BeginLoad(id) => !Fresh(s.fetched, s.now) && id !in s.loads
    case ReadTable(id) => id in s.loads && s.loads[id].snap == None && 0 < |s.tables|
    case FinishLoad(id) => id in s.loads && s.loads[id].snap.Some? && s.loads[id].snap.value.version < |s.tables|
    case FailLoad(id) => id in s.loads
  }

  function Apply(s: State, a: Step): State
    requires Enabled(s, a)
  {
    match a
    case Tick(t) => s.(now := t)
    case Write(table) => s.(tables := s.tables + [Version(s.now, table)])
    case Invalidate => s.(fetched := None)
    case Hit => s.(answers := s.answers + [Answer(s.now, s.cached, false)])
    case BeginLoad(id) => s.(loads := s.loads[id := Load(s.now, None, s.cached)])
    case ReadTable(id) => s.(loads := s.loads[id := s.loads[id].(snap := Some(Snap(|s.tables| - 1, s.now)))])
    case FinishLoad(id) =>
      var snap := s.loads[id].snap.value;
      var l := Loaded(s.tables[snap.version].table, snap.version, s.loads[id].began, snap.readAt, s.now);
      s.(cached := Some(l), fetched := Some(s.now), loads := s.loads - {id}, answers := s.answers + [Answer(s.now, Some(l), false)])
    case FailLoad(id) =>
      s.(loads := s.loads - {id}, answers := s.answers + [Answer(s.now, s.loads[id].held, true)])
  }

  /** Version v was the table at time t. */
  predicate CurrentAt(tables: seq<Version>, v: nat, t: int) {
    v < |tables| && tables[v].from <= t && (v + 1 < |tables| ==> t <= tables[v + 1].from)
  }

  predicate LoadedOk(s: State, l: Loaded) {
    && CurrentAt(s.tables, l.version, l.readAt) && l.domains == s.tables[l.version].table
    && l.began <= l.readAt <= l.stored <= s.now
  }

  /** The promise of the TTL: the map is the table of an instant later than the answer's
      time less the TTL and the duration of the load. */
  predicate RecentEnough(tables: seq<Version>, a: Answer) {
    && a.from.Some?
    && var l := a.from.value;
       && CurrentAt(tables, l.version, l.readAt) && l.domains == tables[l.version].table
       && a.at - TTL - (l.stored - l.began) < l.readAt <= a.at
  }

  ghost predicate Inv(s: State) {
    && 0 < |s.tables| && (forall v | 0 <= v < |s.tables| :: s.tables[v].from <= s.now)
    && (s.cached.Some? ==> LoadedOk(s, s.cached.value))
    && (s.fetched.Some? ==> s.cached.Some? && s.cached.value.stored == s.fetched.value)
    && (forall id | id in s.loads :: s.loads[id].began <= s.now &&
          (s.loads[id].snap.Some? ==>
             var n := s.loads[id].snap.value; CurrentAt(s.tables, n.version, n.readAt) && s.loads[id].began <= n.readAt <= s.now))
    && (forall k | 0 <= k < |s.answers| :: s.answers[k].at <= s.now)
    && (forall k | 0 <= k < |s.answers| && !s.answers[k].loadFailed :: RecentEnough(s.tables, s.answers[k]))
  }

  /** A later table or a later time takes nothing away from what was read before. */
  lemma PastStands(tables: seq<Version>, next: Version, a: Answer, l: Loaded)
    ensures CurrentAt(tables, l.version, l.readAt) && l.readAt <= next.from ==> CurrentAt(tables + [next], l.version, l.readAt)
    ensures RecentEnough(tables, a) && a.at <= next.from ==> RecentEnough(tables + [next], a)
  {
  }

  lemma WriteInv(s: State, table: Domains)
    requires Inv(s)
    ensures Inv(Apply(s, Write(table)))
  {
    var next := Version(s.now, table);
    var s' := Apply(s, Write(table));
    forall k | 0 <= k < |s.answers| && !s.answers[k].loadFailed ensures RecentEnough(s'.tables, s.answers[k]) {
      PastStands(s.tables, next, s.answers[k], s.answers[k].from.value);
    }
  }

  lemma StepInv(s: State, a: Step)
    requires Inv(s) && Enabled(s, a)
    ensures Inv(Apply(s, a))
  {
    if a.Write? {
      WriteInv(s, a.table);
    }
  }

  predicate ValidRun(s: State, steps: seq<Step>)
    decreases |steps|
  {
    steps == [] || (Enabled(s, steps[0]) && ValidRun(Apply(s, steps[0]), steps[1..]))
  }

  function Exec(s: State, steps: seq<Step>): State
    requires ValidRun(s, steps)
    decreases |steps|
  {
    if steps == [] then s else Exec(Apply(s, steps[0]), steps[1..])
  }

  lemma {:induction false} RunInv(s: State, steps: seq<Step>)
    requires Inv(s) && ValidRun(s, steps)
    ensures Inv(Exec(s, steps))
    decreases |steps|
  {
    if steps != [] {
      StepInv(s, steps[0]);
      RunInv(Apply(s, steps[0]), steps[1..]);
    }
  }

  /** Under any interleaving, every answer not given after a failed load is from the table
      as it stood within the TTL plus the duration of the load that fetched it. */
  lemma AnswersAreRecent(table: Domains, steps: seq<Step>, k: nat)
    requires ValidRun(Init(table), steps) && k < |Exec(Init(table), steps).answers|
    ensures var s := Exec(Init(table), steps);
      !s.answers[k].loadFailed ==>
        && s.answers[k].from.Some?
        && var l, at := s.answers[k].from.value, s.answers[k].at;
           && l.version < |s.tables| && l.domains == s.tables[l.version].table
           && s.tables[l.version].from <= l.readAt && (l.version + 1 < |s.tables| ==> l.readAt <= s.tables[l.version + 1].from)
           && at - 30_000_000_000 - (l.stored - l.began) < l.readAt <= at
  {
    RunInv(Init(table), steps);
  }

  function Failures(answers: seq<Answer>): nat {
    if answers == [] then 0 else Failures(answers[..|answers| - 1]) + if answers[|answers| - 1].loadFailed then 1 else 0
  }

  function Count(steps: seq<Step>, these: Step -> bool): nat {
    if steps == [] then 0 else (if these(steps[0]) then 1 else 0) + Count(steps[1..], these)
  }

  /** Nothing else is set aside: of the answers of a run there are as many as there were hits
      and loads that ended, and as many given after a failed load as there were failed loads. */
  lemma {:induction false} AnswersAreCounted(s: State, steps: seq<Step>)
    requires ValidRun(s, steps)
    ensures |Exec(s, steps).answers| == |s.answers| + Count(steps, (a: Step) => a.Hit? || a.FinishLoad? || a.FailLoad?)
    ensures Failures(Exec(s, steps).answers) == Failures(s.answers) + Count(steps, (a: Step) => a.FailLoad?)
    decreases |steps|
  {
    if steps != [] {
      var s' := Apply(s, steps[0]);
      AnswersAreCounted(s', steps[1..]);
      if |s'.answers| > |s.answers| {
        assert s'.answers[..|s'.answers| - 1] == s.answers;
      }
    }
  }

  lemma {:induction false} TimeGoesOn(s: State, steps: seq<Step>)
    requires ValidRun(s, steps)
    ensures s.now <= Exec(s, steps).now
    decreases |steps|
  {
    if steps != [] {
      TimeGoesOn(Apply(s, steps[0]), steps[1..]);
    }
  }

  /** The table is not read again while its map is trusted: for thirty seconds after a load,
      unless something invalidates, no lookup begins another. */
  lemma {:induction false} NoLoadWhileTrusted(s: State, steps: seq<Step>)
    requires ValidRun(s, steps) && s.fetched.Some? && s.fetched.value <= s.now && Exec(s, steps).now - s.fetched.value < 30_000_000_000
    requires forall a | a in steps :: !a.Invalidate?
    ensures forall a | a in steps :: !a.BeginLoad?
    decreases |steps|
  {
    if steps != [] {
      var s' := Apply(s, steps[0]);
      assert steps[0] in steps && forall a | a in steps[1..] :: a in steps;
      TimeGoesOn(s', steps[1..]);
      NoLoadWhileTrusted(s', steps[1..]);
      assert steps == [steps[0]] + steps[1..];
    }
  }

  // ---- the methods and the steps ----

  function DomainsOf(l: Option<Loaded>): Option<Domains> {
    if l.Some? then Some(l.value.domains) else None
  }

  /** The steps of one lookup whose query returns, if it does, at time `after`. */
  function LookupSteps(s: State, id: nat, loads: bool, after: int): seq<Step> {
    if Fresh(s.fetched, s.now) then [Hit]
    else if loads then [BeginLoad(id), ReadTable(id), Tick(after), FinishLoad(id)]
    else [BeginLoad(id), FailLoad(id)]
  }

  lemma RunOne(s: State, a: Step)
    requires Enabled(s, a)
    ensures ValidRun(s, [a]) && Exec(s, [a]) == Apply(s, a)
  {
    assert [a][1..] == [] && ValidRun(Apply(s, a), []);
  }

  lemma RunCons(s: State, a: Step, rest: seq<Step>)
    requires Enabled(s, a) && ValidRun(Apply(s, a), rest)
    ensures ValidRun(s, [a] + rest) && Exec(s, [a] + rest) == Exec(Apply(s, a), rest)
  {
    assert ([a] + rest)[1..] == rest;
  }

  lemma LoadRun(s: State, id: nat, after: int)
    requires 0 < |s.tables| && id !in s.loads && !Fresh(s.fetched, s.now) && s.now <= after
    ensures var steps := [BeginLoad(id), ReadTable(id), Tick(after), FinishLoad(id)];
      var table := s.tables[|s.tables| - 1].table;
      var l := Loaded(table, |s.tables| - 1, s.now, s.now, after);
      ValidRun(s, steps)
      && Exec(s, steps) == s.(now := after, cached := Some(l), fetched := Some(after), answers := s.answers + [Answer(after, Some(l), false)])
  {
    var s1 := Apply(s, BeginLoad(id));
    var s2 := Apply(s1, ReadTable(id));
    var s3 := Apply(s2, Tick(after));
    RunOne(s3, FinishLoad(id));
    RunCons(s2, Tick(after), [FinishLoad(id)]);
    RunCons(s1, ReadTable(id), [Tick(after), FinishLoad(id)]);
    RunCons(s, BeginLoad(id), [ReadTable(id), Tick(after), FinishLoad(id)]);
    assert s3.loads - {id} == s.loads;
  }

  lemma FailRun(s: State, id: nat)
    requires id !in s.loads && !Fresh(s.fetched, s.now)
    ensures var steps := [BeginLoad(id), FailLoad(id)];
      ValidRun(s, steps) && Exec(s, steps) == s.(answers := s.answers + [Answer(s.now, s.cached, true)])
  {
    var s1 := Apply(s, BeginLoad(id));
    RunOne(s1, FailLoad(id));
    RunCons(s, BeginLoad(id), [FailLoad(id)]);
    assert s1.loads - {id} == s.loads;
  }

  /** slugFor with nobody else running is a run of the steps: it answers from the same map
      and leaves the same map and time behind. */
  lemma LookupIsARun(s: State, id: nat, loads: bool, after: int)
    requires 0 < |s.tables| && id !in s.loads && s.now <= after
    ensures var steps := LookupSteps(s, id, loads, after);
      var l := Look(DomainsOf(s.cached), s.fetched, s.now, if loads then Some(s.tables[|s.tables| - 1].table) else None, after);
      && ValidRun(s, steps)
      && var s' := Exec(s, steps);
         && |s'.answers| == |s.answers| + 1 && DomainsOf(s'.answers[|s.answers|].from) == l.answering
         && DomainsOf(s'.cached) == l.domains && s'.fetched == l.fetched && s'.tables == s.tables && s'.loads == s.loads
  {
    if Fresh(s.fetched, s.now) {
      RunOne(s, Hit);
    } else if loads {
      LoadRun(s, id, after);
    } else {
      FailRun(s, id);
    }
  }

  // ---- a write followed by its invalidation ----

  /** No load that has already read an older table is still under way. */
  predicate NoStaleLoad(s: State, w: nat) {
    forall id | id in s.loads && s.loads[id].snap.Some? :: w <= s.loads[id].snap.value.version
  }

  predicate Reflects(w: nat, a: Answer) {
    a.from.Some? && w <= a.from.value.version
  }

  ghost predicate Caught(s: State, w: nat, n: nat) {
    && w < |s.tables| && n <= |s.answers| && NoStaleLoad(s, w)
    && (s.fetched.Some? ==> s.cached.Some? && w <= s.cached.value.version)
    && (forall k | n <= k < |s.answers| && !s.answers[k].loadFailed :: Reflects(w, s.answers[k]))
  }

  lemma {:induction false} CaughtStays(s: State, w: nat, n: nat, steps: seq<Step>)
    requires Caught(s, w, n) && ValidRun(s, steps)
    ensures Caught(Exec(s, steps), w, n)
    decreases |steps|
  {
    if steps != [] {
      CaughtStays(Apply(s, steps[0]), w, n, steps[1..]);
    }
  }

  ghost predicate AllLaterReflect(s: State, w: nat) {
    forall steps, k: nat | ValidRun(s, steps) && |s.answers| <= k < |Exec(s, steps).answers| ::
      !Exec(s, steps).answers[k].loadFailed ==> Reflects(w, Exec(s, steps).answers[k])
  }

  /** After the cache is dropped, every later answer reflects the table of that moment,
      those of lookups whose own load failed set aside, exactly when no load then under way
      had already read an older one: such a load puts its map back and answers from it. */
  lemma InvalidationTakesEffect(s: State)
    requires Inv(s) && s.fetched == None
    ensures AllLaterReflect(s, |s.tables| - 1) <==> NoStaleLoad(s, |s.tables| - 1)
  {
    var w := |s.tables| - 1;
    if NoStaleLoad(s, w) {
      forall steps, k: nat | ValidRun(s, steps) && |s.answers| <= k < |Exec(s, steps).answers|
        ensures !Exec(s, steps).answers[k].loadFailed ==> Reflects(w, Exec(s, steps).answers[k])
      {
        CaughtStays(s, w, |s.answers|, steps);
      }
    } else {
      var id :| id in s.loads && s.loads[id].snap.Some? && s.loads[id].snap.value.version < w;
      var steps := [FinishLoad(id)];
      var s' := Apply(s, FinishLoad(id));
      assert steps[1..] == [] && ValidRun(s', []) && ValidRun(s, steps) && Exec(s, steps) == s';
      assert !s'.answers[|s.answers|].loadFailed && !Reflects(w, s'.answers[|s.answers|]);
    }
  }

  /** The cache, or a lookup under way, holds an older map to fall back on, or none. */
  predicate NothingOlderHeld(s: State, w: nat) {
    && s.cached.Some? && w <= s.cached.value.version
    && forall id | id in s.loads :: s.loads[id].held.Some? && w <= s.loads[id].held.value.version
  }

  ghost predicate CaughtFully(s: State, w: nat, n: nat) {
    && w < |s.tables| && n <= |s.answers| && NoStaleLoad(s, w) && NothingOlderHeld(s, w)
    && (forall k | n <= k < |s.answers| :: Reflects(w, s.answers[k]))
  }

  lemma {:induction false} CaughtFullyStays(s: State, w: nat, n: nat, steps: seq<Step>)
    requires CaughtFully(s, w, n) && ValidRun(s, steps)
    ensures CaughtFully(Exec(s, steps), w, n)
    decreases |steps|
  {
    if steps != [] {
      CaughtFullyStays(Apply(s, steps[0]), w, n, steps[1..]);
    }
  }

  /** Failed loads included. */
  ghost predicate EveryLaterReflects(s: State, w: nat) {
    forall steps, k: nat | ValidRun(s, steps) && |s.answers| <= k < |Exec(s, steps).answers| :: Reflects(w, Exec(s, steps).answers[k])
  }

  /** After the cache is dropped every later answer, also of a lookup whose load fails,
      reflects the table of that moment exactly when besides no older map is there to fall
      back on: a lookup whose load fails answers from the map it held, dropped or not. */
  lemma InvalidationTakesEffectFully(s: State)
    requires Inv(s) && s.fetched == None
    ensures EveryLaterReflects(s, |s.tables| - 1) <==> NoStaleLoad(s, |s.tables| - 1) && NothingOlderHeld(s, |s.tables| - 1)
  {
    var w := |s.tables| - 1;
    if NoStaleLoad(s, w) && NothingOlderHeld(s, w) {
      forall steps, k: nat | ValidRun(s, steps) && |s.answers| <= k < |Exec(s, steps).answers|
        ensures Reflects(w, Exec(s, steps).answers[k])
      {
        CaughtFullyStays(s, w, |s.answers|, steps);
      }
    } else if !NoStaleLoad(s, w) {
      InvalidationTakesEffect(s);
      assert !AllLaterReflect(s, w);
    } else {
      OlderAnswer(s, w);
    }
  }

  lemma OlderAnswer(s: State, w: nat)
    requires s.fetched == None && !NothingOlderHeld(s, w)
    ensures !EveryLaterReflects(s, w)
  {
    if s.cached.Some? && w <= s.cached.value.version {
      var id :| id in s.loads && !(s.loads[id].held.Some? && w <= s.loads[id].held.value.version);
      RunOne(s, FailLoad(id));
      assert !Reflects(w, Exec(s, [FailLoad(id)]).answers[|s.answers|]);
    } else {
      var id := Unused(s.loads.Keys);
      FailRun(s, id);
      assert !Reflects(w, Exec(s, [BeginLoad(id), FailLoad(id)]).answers[|s.answers|]);
    }
  }

  /** Finishing the load and looking up at time t is possible and answers from this map. */
  ghost predicate AnswersFrom(s: State, id: nat, t: int, domains: Domains) {
    var steps := [FinishLoad(id), Tick(t), Hit];
    ValidRun(s, steps) && var e := Exec(s, steps).answers;
    |e| > 0 && e[|e| - 1].at == t && DomainsOf(e[|e| - 1].from) == Some(domains)
  }

  /** A load that overtakes an invalidation is trusted for a whole TTL: after it finishes
      the cache answers from the older table until the TTL is over. */
  lemma OvertakingLoadIsTrusted(s: State, id: nat, t: int)
    requires Inv(s) && id in s.loads && s.loads[id].snap.Some? && s.now <= t < s.now + TTL
    ensures AnswersFrom(s, id, t, s.tables[s.loads[id].snap.value.version].table)
  {
    var s1 := Apply(s, FinishLoad(id));
    var s2 := Apply(s1, Tick(t));
    RunOne(s2, Hit);
    RunCons(s1, Tick(t), [Hit]);
    RunCons(s, FinishLoad(id), [Tick(t), Hit]);
    assert [FinishLoad(id)] + [Tick(t), Hit] == [FinishLoad(id), Tick(t), Hit];
  }

  function Overtaken(written: Domains): seq<Step> {
    [BeginLoad(0), ReadTable(0), Write(written), Invalidate]
  }

  lemma OvertakenRun(table: Domains, written: Domains)
    ensures ValidRun(Init(table), Overtaken(written))
    ensures Exec(Init(table), Overtaken(written))
            == State(0, [Version(0, table), Version(0, written)], None, None, map[0 := Load(0, Some(Snap(0, 0)), None)], [])
  {
    var s0 := Init(table);
    var s1 := Apply(s0, BeginLoad(0));
    var s2 := Apply(s1, ReadTable(0));
    var s3 := Apply(s2, Write(written));
    RunOne(s3, Invalidate);
    RunCons(s2, Write(written), [Invalidate]);
    RunCons(s1, ReadTable(0), [Write(written), Invalidate]);
    RunCons(s0, BeginLoad(0), [ReadTable(0), Write(written), Invalidate]);
    assert Apply(s3, Invalidate).tables == [Version(0, table), Version(0, written)];
  }

  /** The failure is real: a lookup of a new cache reads the table, a write and its
      invalidation overtake it, and for a whole TTL the cache answers from the table as it
      was before the write. */
  lemma StaleLoadHappens(table: Domains, written: Domains)
    ensures ValidRun(Init(table), Overtaken(written))
    ensures var s := Exec(Init(table), Overtaken(written));
      && s.fetched == None && s.tables == [Version(0, table), Version(0, written)]
      && !AllLaterReflect(s, 1) && forall t | s.now <= t < s.now + TTL :: AnswersFrom(s, 0, t, table)
  {
    OvertakenRun(table, written);
    var s := Exec(Init(table), Overtaken(written));
    RunInv(Init(table), Overtaken(written));
    InvalidationTakesEffect(s);
    forall t | s.now <= t < s.now + TTL ensures AnswersFrom(s, 0, t, table) {
      OvertakingLoadIsTrusted(s, 0, t);
    }
  }
}
