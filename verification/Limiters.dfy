/** The three rate limiters, each against one specification: a sliding window over the
    full history of admitted calls. Times are in nanoseconds. */
module Limiters {
  import opened Basics

  const SECOND: int := 1_000_000_000
  const LOGIN_MAX: nat := 5
  const LOGIN_WINDOW: nat := 900 * SECOND
  const SHARE_MAX: nat := 120
  const SHARE_WINDOW: nat := 60 * SECOND
  const CHECK_INTERVAL: nat := 10 * SECOND

  // ---- the specification ----

  /** The times after the cut-off, in order. */
  function Kept(s: seq<int>, cutoff: int): (r: seq<int>)
    ensures |r| <= |s|
  {
    if s == [] then []
    else Kept(s[..|s| - 1], cutoff) + if s[|s| - 1] > cutoff then [s[|s| - 1]] else []
  }

  type Times = map<string, seq<int>>

  function Get(m: Times, key: string): seq<int> {
    if key in m then m[key] else []
  }

  datatype Rate = Rate(max: nat, window: nat)

  /** Admit while fewer than max admitted calls lie in the window that ends now. */
  predicate Admits(r: Rate, history: seq<int>, now: int) {
    |Kept(history, now - r.window)| < r.max
  }

  datatype Event = Attempt(key: string, now: int) | Reset(key: string)

  /** The full history: every admitted call since the last reset, nothing ever dropped. */
  function SpecStep(r: Rate, h: Times, e: Event): (Times, bool) {
    match e
    case Attempt(key, now) =>
      if Admits(r, Get(h, key), now) then (h[key := Get(h, key) + [now]], true) else (h, false)
    case Reset(key) => (h - {key}, true)
  }

  /** Every admitted call had fewer than max admitted calls in the window before it. */
  predicate Legal(r: Rate, h: seq<int>) {
    h == [] || (Legal(r, h[..|h| - 1]) && |Kept(h[..|h| - 1], h[|h| - 1] - r.window)| < r.max)
  }

  /** The admitted calls of a window (from, from + length]. */
  function Within(h: seq<int>, from: int, length: nat): (r: seq<int>)
    ensures |r| <= |h|
  {
    if h == [] then []
    else
      var t := h[|h| - 1];
      Within(h[..|h| - 1], from, length) + if from < t <= from + length then [t] else []
  }

  lemma {:induction false} WithinIsKept(h: seq<int>, from: int, length: nat, cutoff: int)
    requires cutoff <= from
    ensures |Within(h, from, length)| <= |Kept(h, cutoff)|
  {
    if h != [] {
      WithinIsKept(h[..|h| - 1], from, length, cutoff);
    }
  }

  /** At most max admitted calls in any window, wherever it lies. */
  lemma {:induction false} WindowBound(r: Rate, h: seq<int>, from: int)
    requires Legal(r, h)
    ensures |Within(h, from, r.window)| <= r.max
  {
    if h != [] {
      var front, t := h[..|h| - 1], h[|h| - 1];
      WindowBound(r, front, from);
      if from < t <= from + r.window {
        WithinIsKept(front, from, r.window, t - r.window);
      }
    }
  }

  ghost predicate AllLegal(r: Rate, h: Times) {
    forall key | key in h :: Legal(r, h[key])
  }

  lemma SpecStepLegal(r: Rate, h: Times, e: Event)
    requires AllLegal(r, h)
    ensures AllLegal(r, SpecStep(r, h, e).0)
  {
    if e.Attempt? && Admits(r, Get(h, e.key), e.now) {
      var s := Get(h, e.key) + [e.now];
      assert s[..|s| - 1] == Get(h, e.key);
    }
  }

  lemma {:induction false} KeptKept(s: seq<int>, c: int, c': int)
    requires c <= c'
    ensures Kept(Kept(s, c), c') == Kept(s, c')
  {
    if s != [] {
      var front := s[..|s| - 1];
      KeptKept(front, c, c');
      if s[|s| - 1] > c {
        KeptAppend(Kept(front, c), s[|s| - 1], c');
      } else {
        assert Kept(s, c) == Kept(front, c);
      }
    }
  }

  lemma KeptAppend(s: seq<int>, t: int, c: int)
    ensures Kept(s + [t], c) == Kept(s, c) + if t > c then [t] else []
  {
    assert (s + [t])[..|s + [t]| - 1] == s;
  }

  // ---- the code ----

  /** The loop over s[:0]: survivors are written over the front of the array they are read
      from, which is safe because no write overtakes the read. */
  method Compact(a: array<int>, n: nat, cutoff: int) returns (k: nat)
    requires n <= a.Length
    modifies a
    ensures k <= n && a[..k] == Kept(old(a[..n]), cutoff)
    ensures a[n..] == old(a[n..])
  {
    k := 0;
    for i := 0 to n
      invariant k <= i
      invariant a[..k] == Kept(old(a[..i]), cutoff)
      invariant forall j | i <= j < a.Length :: a[j] == old(a[j])
    {
      var at := a[i];
      assert old(a[..i + 1])[..i] == old(a[..i]);
      if at > cutoff {
        a[k] := at;
        k := k + 1;
        assert a[..k] == a[..k - 1] + [at];
      }
    }
  }

  /** What a login attempt leaves and answers. */
  function LoginStep(m: Times, key: string, now: int): (Times, bool) {
    var kept := Kept(Get(m, key), now - LOGIN_WINDOW);
    if |kept| >= LOGIN_MAX then (m[key := kept], false) else (m[key := kept + [now]], true)
  }

  /** What a read of a share leaves and answers; an empty window is admitted outright. */
  function ShareStep(m: Times, token: string, now: int): (Times, bool) {
    var kept := Kept(Get(m, token), now - SHARE_WINDOW);
    if |kept| == 0 then (m[token := [now]], true)
    else if |kept| >= SHARE_MAX then (m[token := kept], false)
    else (m[token := kept + [now]], true)
  }

  class LoginLimiter {
    var attempts: Times

    constructor ()
      ensures attempts == map[]
    {
      attempts := map[];
    }

    method Allow(key: string, now: int) returns (ok: bool)
      modifies this
      ensures (attempts, ok) == LoginStep(old(attempts), key, now)
    {
      var cutoff := now - LOGIN_WINDOW;
      var held := Get(attempts, key);
      var a := new int[|held|](i requires 0 <= i < |held| => held[i]);
      assert a[..a.Length] == held;
      var k := Compact(a, a.Length, cutoff);
      var kept := a[..k];
      attempts := attempts[key := kept];
      if |kept| >= LOGIN_MAX {
        return false;
      }
      attempts := attempts[key := attempts[key] + [now]];
      assert attempts == old(attempts)[key := kept + [now]];
      return true;
    }

    method Succeed(key: string)
      modifies this
      ensures attempts == old(attempts) - {key}
    {
      attempts := attempts - {key};
    }
  }

  class ShareLimiter {
    var requests: Times

    constructor ()
      ensures requests == map[]
    {
      requests := map[];
    }

    method Allow(token: string, now: int) returns (ok: bool)
      modifies this
      ensures (requests, ok) == ShareStep(old(requests), token, now)
    {
      var cutoff := now - SHARE_WINDOW;
      var held := Get(requests, token);
      var a := new int[|held|](i requires 0 <= i < |held| => held[i]);
      assert a[..a.Length] == held;
      var k := Compact(a, a.Length, cutoff);
      var kept := a[..k];
      if |kept| == 0 {
        requests := requests - {token};
        assert Get(requests, token) + [now] == [now];
        requests := requests[token := Get(requests, token) + [now]];
        assert requests == old(requests)[token := [now]];
        return true;
      }
      requests := requests[token := kept];
      if |kept| >= SHARE_MAX {
        return false;
      }
      requests := requests[token := requests[token] + [now]];
      assert requests == old(requests)[token := kept + [now]];
      return true;
    }
  }

  // ---- refinement over whole runs ----

  datatype Which = Login | Share

  function RateOf(w: Which): Rate {
    if w.Login? then Rate(LOGIN_MAX, LOGIN_WINDOW) else Rate(SHARE_MAX, SHARE_WINDOW)
  }

  /** Only the login limiter has a reset. */
  function CodeStep(w: Which, m: Times, e: Event): (Times, bool) {
    match e
    case Attempt(key, now) => if w.Login? then LoginStep(m, key, now) else ShareStep(m, key, now)
    case Reset(key) => (m - {key}, true)
  }

  /** From time t on, what the code holds and the full history agree on every window. */
  ghost predicate Agrees(r: Rate, t: int, m: Times, h: Times) {
    forall key, c | t - r.window <= c :: Kept(Get(m, key), c) == Kept(Get(h, key), c)
  }

  predicate NotBefore(t: int, e: Event) {
    e.Attempt? ==> t <= e.now
  }

  function Later(t: int, e: Event): int {
    if e.Attempt? then e.now else t
  }

  /** Call times never decrease. */
  predicate InOrder(t: int, es: seq<Event>)
    decreases |es|
  {
    es == [] || (NotBefore(t, es[0]) && InOrder(Later(t, es[0]), es[1..]))
  }

  /** Both steps, said once: keep the window, and add the call if it is admitted. */
  function WindowStep(r: Rate, m: Times, key: string, now: int): (Times, bool) {
    var kept := Kept(Get(m, key), now - r.window);
    if |kept| < r.max then (m[key := kept + [now]], true) else (m[key := kept], false)
  }

  lemma StepIsWindow(w: Which, m: Times, key: string, now: int)
    ensures CodeStep(w, m, Attempt(key, now)) == WindowStep(RateOf(w), m, key, now)
  {
    var kept := Kept(Get(m, key), now - RateOf(w).window);
    assert kept == [] ==> [now] == kept + [now];
  }

  /** One key: a compacted list and a full one that agree from a cut-off on still do when
      the list is compacted there, and when both gain the same call. */
  lemma CompactionAgrees(held: seq<int>, full: seq<int>, cut: int, now: int, c: int)
    requires Kept(held, cut) == Kept(full, cut) && cut <= c && Kept(held, c) == Kept(full, c)
    ensures Kept(Kept(held, cut), c) == Kept(full, c)
    ensures Kept(Kept(held, cut) + [now], c) == Kept(full + [now], c)
  {
    KeptKept(held, cut, c);
    KeptAppend(Kept(held, cut), now, c);
    KeptAppend(full, now, c);
  }

  /** What both hold for a key after the same call. */
  lemma AfterAttempt(r: Rate, m: Times, h: Times, key: string, now: int, k: string)
    requires Kept(Get(m, key), now - r.window) == Kept(Get(h, key), now - r.window)
    ensures var more := if Admits(r, Get(h, key), now) then [now] else [];
      && Get(WindowStep(r, m, key, now).0, k) == (if k == key then Kept(Get(m, key), now - r.window) + more else Get(m, k))
      && Get(SpecStep(r, h, Attempt(key, now)).0, k) == (if k == key then Get(h, key) + more else Get(h, k))
  {
    var kept, full := Kept(Get(m, key), now - r.window), Get(h, key);
    assert kept + [] == kept && full + [] == full;
    var m', h' := WindowStep(r, m, key, now).0, SpecStep(r, h, Attempt(key, now)).0;
    if Admits(r, full, now) {
      assert m' == m[key := kept + [now]] && h' == h[key := full + [now]];
    } else {
      assert m' == m[key := kept] && h' == h;
    }
  }

  lemma KeyAgrees(r: Rate, m: Times, h: Times, key: string, now: int, k: string, c: int)
    requires Kept(Get(m, key), now - r.window) == Kept(Get(h, key), now - r.window)
    requires now - r.window <= c && Kept(Get(m, k), c) == Kept(Get(h, k), c)
    ensures Kept(Get(WindowStep(r, m, key, now).0, k), c) == Kept(Get(SpecStep(r, h, Attempt(key, now)).0, k), c)
  {
    AfterAttempt(r, m, h, key, now, k);
    if k == key {
      CompactionAgrees(Get(m, key), Get(h, key), now - r.window, now, c);
      NothingAdded(Kept(Get(m, key), now - r.window), Get(h, key));
    }
  }

  lemma NothingAdded(a: seq<int>, b: seq<int>)
    ensures a + [] == a && b + [] == b
  {
  }

  lemma AttemptAgrees(r: Rate, t: int, m: Times, h: Times, key: string, now: int)
    requires Agrees(r, t, m, h) && t <= now
    ensures WindowStep(r, m, key, now).1 == SpecStep(r, h, Attempt(key, now)).1
    ensures Agrees(r, now, WindowStep(r, m, key, now).0, SpecStep(r, h, Attempt(key, now)).0)
  {
    var m', h' := WindowStep(r, m, key, now).0, SpecStep(r, h, Attempt(key, now)).0;
    var cut := now - r.window;
    assert Kept(Get(m, key), cut) == Kept(Get(h, key), cut);
    assert t - r.window <= cut;
    forall k, c | cut <= c ensures Kept(Get(m', k), c) == Kept(Get(h', k), c) {
      assert Kept(Get(m, k), c) == Kept(Get(h, k), c);
      KeyAgrees(r, m, h, key, now, k, c);
    }
  }

  lemma StepAgrees(w: Which, t: int, m: Times, h: Times, e: Event)
    requires Agrees(RateOf(w), t, m, h) && NotBefore(t, e)
    ensures CodeStep(w, m, e).1 == SpecStep(RateOf(w), h, e).1
    ensures Agrees(RateOf(w), Later(t, e), CodeStep(w, m, e).0, SpecStep(RateOf(w), h, e).0)
  {
    match e
    case Attempt(key, now) =>
      StepIsWindow(w, m, key, now);
      AttemptAgrees(RateOf(w), t, m, h, key, now);
    case Reset(key) =>
      forall k, c | t - RateOf(w).window <= c ensures Kept(Get(m - {key}, k), c) == Kept(Get(h - {key}, k), c) {
        assert Kept(Get(m, k), c) == Kept(Get(h, k), c);
      }
  }

  function CodeAnswers(w: Which, m: Times, es: seq<Event>): seq<bool>
    decreases |es|
  {
    if es == [] then [] else [CodeStep(w, m, es[0]).1] + CodeAnswers(w, CodeStep(w, m, es[0]).0, es[1..])
  }

  function SpecAnswers(r: Rate, h: Times, es: seq<Event>): seq<bool>
    decreases |es|
  {
    if es == [] then [] else [SpecStep(r, h, es[0]).1] + SpecAnswers(r, SpecStep(r, h, es[0]).0, es[1..])
  }

  function SpecHistory(r: Rate, h: Times, es: seq<Event>): Times
    decreases |es|
  {
    if es == [] then h else SpecHistory(r, SpecStep(r, h, es[0]).0, es[1..])
  }

  lemma {:induction false} AnswersAgree(w: Which, t: int, m: Times, h: Times, es: seq<Event>)
    requires Agrees(RateOf(w), t, m, h) && InOrder(t, es)
    ensures CodeAnswers(w, m, es) == SpecAnswers(RateOf(w), h, es)
    decreases |es|
  {
    if es != [] {
      StepAgrees(w, t, m, h, es[0]);
      AnswersAgree(w, Later(t, es[0]), CodeStep(w, m, es[0]).0, SpecStep(RateOf(w), h, es[0]).0, es[1..]);
    }
  }

  lemma {:induction false} HistoryLegal(r: Rate, h: Times, es: seq<Event>)
    requires AllLegal(r, h)
    ensures AllLegal(r, SpecHistory(r, h, es))
    decreases |es|
  {
    if es != [] {
      SpecStepLegal(r, h, es[0]);
      HistoryLegal(r, SpecStep(r, h, es[0]).0, es[1..]);
    }
  }

  /** For calls in order of time, dropping old times changes no answer of either limiter,
      and since the last reset no key was admitted more than max times in any window. */
  lemma LimitersRefineTheWindow(w: Which, t: int, es: seq<Event>, key: string, from: int)
    requires InOrder(t, es)
    ensures CodeAnswers(w, map[], es) == SpecAnswers(RateOf(w), map[], es)
    ensures |Within(Get(SpecHistory(RateOf(w), map[], es), key), from, RateOf(w).window)| <= RateOf(w).max
  {
    AnswersAgree(w, t, map[], map[], es);
    HistoryLegal(RateOf(w), map[], es);
    WindowBound(RateOf(w), Get(SpecHistory(RateOf(w), map[], es), key), from);
  }

  // ---- the same, said of the answers alone ----

  /** The times at which calls for a key were answered with yes, since its last reset. */
  function AdmittedSoFar(es: seq<Event>, answers: seq<bool>, key: string): seq<int>
    requires |es| == |answers|
    decreases |es|
  {
    if es == [] then []
    else
      var n := |es| - 1;
      var before := AdmittedSoFar(es[..n], answers[..n], key);
      match es[n]
      case Attempt(k, now) => if k == key && answers[n] then before + [now] else before
      case Reset(k) => if k == key then [] else before
  }

  lemma {:induction false} SpecSnoc(r: Rate, h: Times, es: seq<Event>, e: Event)
    ensures SpecHistory(r, h, es + [e]) == SpecStep(r, SpecHistory(r, h, es), e).0
    ensures |SpecAnswers(r, h, es)| == |es|
    ensures SpecAnswers(r, h, es + [e]) == SpecAnswers(r, h, es) + [SpecStep(r, SpecHistory(r, h, es), e).1]
    decreases |es|
  {
    if es == [] {
      assert es + [e] == [e] && [e][1..] == [];
    } else {
      assert (es + [e])[1..] == es[1..] + [e];
      SpecSnoc(r, SpecStep(r, h, es[0]).0, es[1..], e);
    }
  }

  lemma {:induction false} AnswersCount(r: Rate, h: Times, es: seq<Event>)
    ensures |SpecAnswers(r, h, es)| == |es|
    decreases |es|
  {
    if es != [] {
      AnswersCount(r, SpecStep(r, h, es[0]).0, es[1..]);
    }
  }

  lemma {:induction false} HistoryIsAdmitted(r: Rate, es: seq<Event>, key: string)
    ensures |SpecAnswers(r, map[], es)| == |es|
    ensures Get(SpecHistory(r, map[], es), key) == AdmittedSoFar(es, SpecAnswers(r, map[], es), key)
    decreases |es|
  {
    AnswersCount(r, map[], es);
    if es != [] {
      var n := |es| - 1;
      var front, e := es[..n], es[n];
      assert es == front + [e];
      HistoryIsAdmitted(r, front, key);
      SpecSnoc(r, map[], front, e);
      var answers := SpecAnswers(r, map[], es);
      assert answers[..n] == SpecAnswers(r, map[], front);
    }
  }

  lemma {:induction false} KeptCount(s: seq<int>, cutoff: int)
    ensures |Kept(s, cutoff)| == |set k | 0 <= k < |s| && s[k] > cutoff|
  {
    var late := set k | 0 <= k < |s| && s[k] > cutoff;
    if s == [] {
      assert late == {};
    } else {
      var n := |s| - 1;
      KeptCount(s[..n], cutoff);
      var before := set k | 0 <= k < |s[..n]| && s[..n][k] > cutoff;
      assert late == if s[n] > cutoff then before + {n} else before;
    }
  }

  /** The answer to an attempt, given a limiter's own earlier answers. */
  lemma NextAnswer(r: Rate, es: seq<Event>, key: string, now: int)
    ensures |SpecAnswers(r, map[], es)| == |es| && |SpecAnswers(r, map[], es + [Attempt(key, now)])| == |es| + 1
    ensures var h := AdmittedSoFar(es, SpecAnswers(r, map[], es), key);
      SpecAnswers(r, map[], es + [Attempt(key, now)])[|es|] <==> |set k | 0 <= k < |h| && h[k] > now - r.window| < r.max
  {
    HistoryIsAdmitted(r, es, key);
    SpecSnoc(r, map[], es, Attempt(key, now));
    KeptCount(Get(SpecHistory(r, map[], es), key), now - r.window);
  }

  lemma {:induction false} InOrderPrefix(t: int, es: seq<Event>, e: Event)
    requires InOrder(t, es + [e])
    ensures InOrder(t, es)
    decreases |es|
  {
    if es != [] {
      assert (es + [e])[0] == es[0] && (es + [e])[1..] == es[1..] + [e];
      InOrderPrefix(Later(t, es[0]), es[1..], e);
    }
  }

  /** A login attempt is let through exactly when fewer than five attempts of its key were,
      since the last success, later than fifteen minutes before it. */
  lemma LoginsExactly(t: int, es: seq<Event>, key: string, now: int)
    requires InOrder(t, es + [Attempt(key, now)])
    ensures |CodeAnswers(Login, map[], es)| == |es| && |CodeAnswers(Login, map[], es + [Attempt(key, now)])| == |es| + 1
    ensures var h := AdmittedSoFar(es, CodeAnswers(Login, map[], es), key);
      CodeAnswers(Login, map[], es + [Attempt(key, now)])[|es|] <==> |set k | 0 <= k < |h| && h[k] > now - 900_000_000_000| < 5
  {
    InOrderPrefix(t, es, Attempt(key, now));
    AnswersAgree(Login, t, map[], map[], es);
    AnswersAgree(Login, t, map[], map[], es + [Attempt(key, now)]);
    NextAnswer(RateOf(Login), es, key, now);
  }

  /** A read of a share is let through exactly when fewer than 120 reads of its token were
      later than a minute before it. */
  lemma ReadsExactly(t: int, es: seq<Event>, token: string, now: int)
    requires InOrder(t, es + [Attempt(token, now)])
    ensures |CodeAnswers(Share, map[], es)| == |es| && |CodeAnswers(Share, map[], es + [Attempt(token, now)])| == |es| + 1
    ensures var h := AdmittedSoFar(es, CodeAnswers(Share, map[], es), token);
      CodeAnswers(Share, map[], es + [Attempt(token, now)])[|es|] <==> |set k | 0 <= k < |h| && h[k] > now - 60_000_000_000| < 120
  {
    InOrderPrefix(t, es, Attempt(token, now));
    AnswersAgree(Share, t, map[], map[], es);
    AnswersAgree(Share, t, map[], map[], es + [Attempt(token, now)]);
    NextAnswer(RateOf(Share), es, token, now);
  }

  // ---- the floor between manual checks ----

  function CheckStep(last: map<string, int>, id: string, now: int): (map<string, int>, int, bool) {
    if id in last && now - last[id] < CHECK_INTERVAL then (last, CHECK_INTERVAL - (now - last[id]), false)
    else (last[id := now], 0, true)
  }

  class CheckLimiter {
    var last: map<string, int>

    constructor ()
      ensures last == map[]
    {
      last := map[];
    }

    method Allow(id: string, now: int) returns (wait: int, ok: bool)
      modifies this
      ensures (last, wait, ok) == CheckStep(old(last), id, now)
    {
      if id in last {
        var elapsed := now - last[id];
        if elapsed < CHECK_INTERVAL {
          return CHECK_INTERVAL - elapsed, false;
        }
      }
      last := last[id := now];
      return 0, true;
    }
  }

  /** Remembering only the last time is a window of one: the histories are in order, and
      the last time is their end. */
  ghost predicate LastAgrees(t: int, last: map<string, int>, h: Times) {
    forall id ::
      && (id in last <==> Get(h, id) != [])
      && (id in last ==> last[id] == Get(h, id)[|Get(h, id)| - 1] && forall x | x in Get(h, id) :: x <= last[id] <= t)
  }

  lemma {:induction false} KeptEmpty(s: seq<int>, c: int)
    ensures |Kept(s, c)| == 0 <==> forall x | x in s :: x <= c
  {
    if s != [] {
      var front, t := s[..|s| - 1], s[|s| - 1];
      KeptEmpty(front, c);
      assert |Kept(s, c)| == |Kept(front, c)| + if t > c then 1 else 0;
      assert t in s && forall x | x in front :: x in s;
      assert forall x | x in s :: x in front || x == t;
    }
  }

  /** The check limiter answers as the sliding window with one call per interval, and the
      wait it quotes is exact: refused until then, admitted at it. */
  lemma NextCheck(s: seq<int>, last: int, now: int)
    requires s != [] && last in s && forall x | x in s :: x <= last
    ensures Admits(Rate(1, CHECK_INTERVAL), s, now) <==> last + CHECK_INTERVAL <= now
  {
    KeptEmpty(s, now - CHECK_INTERVAL);
  }

  lemma CheckKeepsLast(t: int, last: map<string, int>, h: Times, id: string, now: int)
    requires LastAgrees(t, last, h) && t <= now
    requires CheckStep(last, id, now).2 == Admits(Rate(1, CHECK_INTERVAL), Get(h, id), now)
    ensures LastAgrees(now, CheckStep(last, id, now).0, SpecStep(Rate(1, CHECK_INTERVAL), h, Attempt(id, now)).0)
  {
    var h' := SpecStep(Rate(1, CHECK_INTERVAL), h, Attempt(id, now)).0;
    assert forall k | k != id :: Get(h', k) == Get(h, k);
  }

  lemma CheckRefinesTheWindow(t: int, last: map<string, int>, h: Times, id: string, now: int)
    requires LastAgrees(t, last, h) && t <= now
    ensures var (last', wait, ok) := CheckStep(last, id, now);
      var r := Rate(1, CHECK_INTERVAL);
      && ok == Admits(r, Get(h, id), now)
      && LastAgrees(now, last', SpecStep(r, h, Attempt(id, now)).0)
      && (ok ==> wait == 0)
      && (!ok ==> wait > 0 && forall later | now <= later :: Admits(r, Get(h, id), later) <==> now + wait <= later)
  {
    var r := Rate(1, CHECK_INTERVAL);
    if id in last {
      var s := Get(h, id);
      assert last[id] in s;
      forall later ensures Admits(r, s, later) <==> last[id] + CHECK_INTERVAL <= later {
        NextCheck(s, last[id], later);
      }
    }
    CheckKeepsLast(t, last, h, id, now);
  }

  function CheckAnswers(last: map<string, int>, es: seq<Event>): seq<bool>
    requires forall e | e in es :: e.Attempt?
    decreases |es|
  {
    if es == [] then []
    else
      assert es[0] in es && forall e | e in es[1..] :: e in es;
      var (last', wait, ok) := CheckStep(last, es[0].key, es[0].now);
      [ok] + CheckAnswers(last', es[1..])
  }

  /** Over every run the check limiter admits what a window of one call per interval, kept
      for each monitor over the whole history, would admit. */
  lemma {:induction false} CheckAnswersAgree(t: int, last: map<string, int>, h: Times, es: seq<Event>)
    requires LastAgrees(t, last, h) && InOrder(t, es) && forall e | e in es :: e.Attempt?
    ensures CheckAnswers(last, es) == SpecAnswers(Rate(1, CHECK_INTERVAL), h, es)
    decreases |es|
  {
    if es != [] {
      assert es[0] in es && forall e | e in es[1..] :: e in es;
      var r, e := Rate(1, CHECK_INTERVAL), es[0];
      CheckRefinesTheWindow(t, last, h, e.key, e.now);
      CheckAnswersAgree(e.now, CheckStep(last, e.key, e.now).0, SpecStep(r, h, e).0, es[1..]);
    }
  }

  /** From its first call on. */
  lemma CheckLimiterIsAWindow(t: int, es: seq<Event>, id: string, from: int)
    requires InOrder(t, es) && forall e | e in es :: e.Attempt?
    ensures var r := Rate(1, CHECK_INTERVAL);
      && CheckAnswers(map[], es) == SpecAnswers(r, map[], es)
      && |Within(Get(SpecHistory(r, map[], es), id), from, CHECK_INTERVAL)| <= 1
  {
    var r := Rate(1, CHECK_INTERVAL);
    CheckAnswersAgree(t, map[], map[], es);
    HistoryLegal(r, map[], es);
    WindowBound(r, Get(SpecHistory(r, map[], es), id), from);
  }

  lemma NoneLate(h: seq<int>, cutoff: int)
    ensures |set k | 0 <= k < |h| && h[k] > cutoff| < 1 <==> forall k | 0 <= k < |h| :: h[k] <= cutoff
  {
    var late := set k | 0 <= k < |h| && h[k] > cutoff;
    if k :| 0 <= k < |h| && h[k] > cutoff {
      assert k in late;
    } else {
      assert late == {};
    }
  }

  /** A check is let through exactly when no check of its monitor was within the ten seconds
      before it. */
  lemma ChecksExactly(t: int, es: seq<Event>, id: string, now: int)
    requires InOrder(t, es + [Attempt(id, now)]) && forall e | e in es :: e.Attempt?
    ensures |CheckAnswers(map[], es)| == |es| && |CheckAnswers(map[], es + [Attempt(id, now)])| == |es| + 1
    ensures var h := AdmittedSoFar(es, CheckAnswers(map[], es), id);
      CheckAnswers(map[], es + [Attempt(id, now)])[|es|] <==> forall k | 0 <= k < |h| :: h[k] <= now - 10_000_000_000
  {
    InOrderPrefix(t, es, Attempt(id, now));
    CheckAnswersAgree(t, map[], map[], es);
    CheckAnswersAgree(t, map[], map[], es + [Attempt(id, now)]);
    var r := Rate(1, CHECK_INTERVAL);
    NextAnswer(r, es, id, now);
    NoneLate(AdmittedSoFar(es, SpecAnswers(r, map[], es), id), now - r.window);
  }
}
