/** Choosing the resolution of a history chart. Durations are in nanoseconds. */
module HistoryTiers {
  datatype Tier = Tier(name: string, interval: int)

  const MIN_BUCKETS := 120
  const MAX_BUCKETS := 2000
  const MINUTE: int := 60_000_000_000
  const DAY: int := 1440 * MINUTE
  const MAX_SPAN: int := 3650 * DAY

  /** Finest to coarsest. */
  const ROLLUP_TIERS: seq<Tier> := [
    Tier("1m", MINUTE), Tier("5m", 5 * MINUTE), Tier("1h", 60 * MINUTE), Tier("1d", DAY)]

  /** Go's division: it truncates towards zero. */
  function Quot(a: int, b: int): int
    requires b > 0
  {
    if a >= 0 then a / b else -(-a / b)
  }

  ghost predicate Ascending(ts: seq<Tier>) {
    && |ts| > 0 && (forall k | 0 <= k < |ts| :: ts[k].interval > 0)
    && (forall j, k | 0 <= j < k < |ts| :: ts[j].interval < ts[k].interval)
  }

  function Buckets(ts: seq<Tier>, span: int, k: int): int
    requires 0 <= k < |ts| && ts[k].interval > 0
  {
    Quot(span, ts[k].interval)
  }

  lemma QuotMonotone(a: int, a': int, b: int)
    requires b > 0 && a <= a'
    ensures Quot(a, b) <= Quot(a', b)
  {
    if a >= 0 {
      DivMonotone(a, a', b);
    } else if a' >= 0 {
      DivMonotone(a', a', b);
      DivMonotone(-a, -a, b);
    } else {
      DivMonotone(-a', -a, b);
    }
  }

  lemma {:induction false} MulMonotone(b: int, x: int, y: int)
    requires b >= 0 && x <= y
    ensures b * x <= b * y
    decreases b
  {
    if b > 0 {
      MulMonotone(b - 1, x, y);
      assert b * x == (b - 1) * x + x && b * y == (b - 1) * y + y;
    }
  }

  lemma DivAtLeast(a: int, b: int, q: int)
    requires b > 0 && b * q <= a
    ensures q <= a / b
  {
    var d, r := a / b, a % b;
    assert a == b * d + r && r < b;
    assert d + 1 <= q ==> b * (d + 1) <= b * q by {
      if d + 1 <= q {
        MulMonotone(b, d + 1, q);
      }
    }
    assert b * (d + 1) == b * d + b;
  }

  lemma DivMonotone(a: int, a': int, b: int)
    requires b > 0
    ensures 0 <= a <= a' ==> a / b <= a' / b
    ensures 0 <= a ==> 0 <= a / b
  {
    if 0 <= a {
      assert a == b * (a / b) + a % b;
      DivAtLeast(a, b, 0);
      if a <= a' {
        DivAtLeast(a', b, a / b);
      }
    }
  }

  /** A finer width never has fewer buckets, for a span that is not negative. */
  lemma FinerHasMore(a: int, b: int, b': int)
    requires 0 <= a && 0 < b <= b'
    ensures Quot(a, b') <= Quot(a, b)
  {
    var q := a / b';
    DivMonotone(a, a, b');
    assert a == b' * q + a % b';
    assert b * q == q * b && b' * q == q * b';
    MulMonotone(q, b, b');
    DivAtLeast(a, b, q);
  }

  // ---- auto ----

  predicate InRange(ts: seq<Tier>, span: int, k: int)
    requires 0 <= k < |ts| && ts[k].interval > 0
  {
    MIN_BUCKETS <= Buckets(ts, span, k) <= MAX_BUCKETS
  }

  /** The coarsest tier with a useful number of buckets; failing that the finest that is
      not too many; failing that the coarsest. */
  ghost predicate AutoChoice(ts: seq<Tier>, span: int, k: int)
    requires Ascending(ts)
  {
    && 0 <= k < |ts|
    && if exists j :: 0 <= j < |ts| && InRange(ts, span, j) then
         InRange(ts, span, k) && forall j | k < j < |ts| :: !InRange(ts, span, j)
       else if exists j :: 0 <= j < |ts| && Buckets(ts, span, j) <= MAX_BUCKETS then
         Buckets(ts, span, k) <= MAX_BUCKETS && forall j | 0 <= j < k :: Buckets(ts, span, j) > MAX_BUCKETS
       else k == |ts| - 1
  }

  /** internal/api/history.go autoHistoryTier, for any tier list. */
  method AutoHistoryTier(ts: seq<Tier>, span: int) returns (best: Tier)
    requires Ascending(ts)
    ensures exists k :: AutoChoice(ts, span, k) && best == ts[k]
  {
    best := ts[|ts| - 1];
    ghost var chosen := |ts| - 1;
    var i := |ts| - 1;
    while i >= 0
      invariant -1 <= i < |ts| && 0 <= chosen < |ts| && best == ts[chosen]
      invariant chosen == if i == |ts| - 1 then i else i + 1
      invariant forall j | i < j < |ts| :: Buckets(ts, span, j) <= MAX_BUCKETS && !InRange(ts, span, j)
      invariant i < 0 ==> AutoChoice(ts, span, chosen)
      decreases i
    {
      var count := Quot(span, ts[i].interval);
      if count > MAX_BUCKETS {
        TooManyBelow(ts, span, i);
        break;
      }
      best := ts[i];
      chosen := i;
      if count >= MIN_BUCKETS {
        assert InRange(ts, span, i) && AutoChoice(ts, span, i);
        break;
      }
      i := i - 1;
      assert i < 0 ==> AutoChoice(ts, span, 0);
    }
  }

  lemma NegativeIsFew(a: int, b: int)
    requires b > 0 && Quot(a, b) > 0
    ensures a >= 0
  {
    if a < 0 {
      DivMonotone(-a, -a, b);
    }
  }

  /** The choice is unique. */
  lemma AutoChoiceUnique(ts: seq<Tier>, span: int, k: int, k': int)
    requires Ascending(ts)
    ensures AutoChoice(ts, span, k) && AutoChoice(ts, span, k') ==> k == k'
  {
  }

  /** What the choice means: the last tier with 120 to 2000 buckets; if there is none, the
      first with at most 2000; if there is none either, the last. */
  lemma AutoChoiceMeans(ts: seq<Tier>, span: int, k: int)
    requires Ascending(ts) && AutoChoice(ts, span, k)
    ensures forall j | 0 <= j < |ts| && 120 <= Quot(span, ts[j].interval) <= 2000 :: j <= k && 120 <= Quot(span, ts[k].interval) <= 2000
    ensures (forall j | 0 <= j < |ts| :: !(120 <= Quot(span, ts[j].interval) <= 2000)) ==>
      && (forall j | 0 <= j < |ts| && Quot(span, ts[j].interval) <= 2000 :: k <= j && Quot(span, ts[k].interval) <= 2000)
      && ((forall j | 0 <= j < |ts| :: Quot(span, ts[j].interval) > 2000) ==> k == |ts| - 1)
  {
    if (forall j | 0 <= j < |ts| :: !(120 <= Quot(span, ts[j].interval) <= 2000)) {
      assert forall j | 0 <= j < |ts| :: !InRange(ts, span, j);
      assert forall j | 0 <= j < |ts| :: Buckets(ts, span, j) == Quot(span, ts[j].interval);
    } else {
      var j :| 0 <= j < |ts| && 120 <= Quot(span, ts[j].interval) <= 2000;
      assert InRange(ts, span, j);
      forall i | 0 <= i < |ts| && 120 <= Quot(span, ts[i].interval) <= 2000 ensures i <= k {
        assert InRange(ts, span, i);
      }
    }
  }

  /** With the tiers the product has: minutes below ten hours, five minutes below five days,
      hours below 2001 hours, and days from there on. */
  lemma AutoTable(span: int, k: int)
    ensures Ascending(ROLLUP_TIERS)
    ensures AutoChoice(ROLLUP_TIERS, span, k) <==>
      k == if span < 600 * 60_000_000_000 then 0
           else if span < 120 * 3600_000_000_000 then 1
           else if span < 2001 * 3600_000_000_000 then 2
           else 3
    ensures [ROLLUP_TIERS[0].name, ROLLUP_TIERS[1].name, ROLLUP_TIERS[2].name, ROLLUP_TIERS[3].name] == ["1m", "5m", "1h", "1d"]
  {
    RollupTiersAscend();
    var n := if span < 600 * 60_000_000_000 then 0
             else if span < 120 * 3600_000_000_000 then 1
             else if span < 2001 * 3600_000_000_000 then 2
             else 3;
    TierBuckets(span);
    assert AutoChoice(ROLLUP_TIERS, span, n);
    AutoChoiceUnique(ROLLUP_TIERS, span, k, n);
  }

  /** Where each tier of the product begins to be useful, and where it becomes too fine. */
  lemma TierBuckets(span: int)
    ensures |ROLLUP_TIERS| == 4 && forall j | 0 <= j < 4 :: ROLLUP_TIERS[j].interval > 0
    ensures InRange(ROLLUP_TIERS, span, 0) <==> 120 * 60_000_000_000 <= span < 2001 * 60_000_000_000
    ensures InRange(ROLLUP_TIERS, span, 1) <==> 600 * 60_000_000_000 <= span < 10005 * 60_000_000_000
    ensures InRange(ROLLUP_TIERS, span, 2) <==> 120 * 3600_000_000_000 <= span < 2001 * 3600_000_000_000
    ensures InRange(ROLLUP_TIERS, span, 3) <==> 2880 * 3600_000_000_000 <= span < 48024 * 3600_000_000_000
    ensures Buckets(ROLLUP_TIERS, span, 0) <= 2000 <==> span < 2001 * 60_000_000_000
    ensures Buckets(ROLLUP_TIERS, span, 1) <= 2000 <==> span < 10005 * 60_000_000_000
    ensures Buckets(ROLLUP_TIERS, span, 2) <= 2000 <==> span < 2001 * 3600_000_000_000
    ensures Buckets(ROLLUP_TIERS, span, 3) <= 2000 <==> span < 48024 * 3600_000_000_000
  {
  }

  lemma BucketsGrow(ts: seq<Tier>, span: int, span': int)
    requires Ascending(ts) && span <= span'
    ensures forall j | 0 <= j < |ts| :: Buckets(ts, span, j) <= Buckets(ts, span', j)
  {
    forall j | 0 <= j < |ts| ensures Buckets(ts, span, j) <= Buckets(ts, span', j) {
      QuotMonotone(span, span', ts[j].interval);
    }
  }

  /** Everything finer than a tier that is too many is too many. */
  lemma TooManyBelow(ts: seq<Tier>, span: int, k: int)
    requires Ascending(ts) && 0 <= k < |ts| && Buckets(ts, span, k) > MAX_BUCKETS
    ensures forall j | 0 <= j <= k :: Buckets(ts, span, j) > MAX_BUCKETS
  {
    NegativeIsFew(span, ts[k].interval);
    forall j | 0 <= j <= k ensures Buckets(ts, span, j) > MAX_BUCKETS {
      FinerHasMore(span, ts[j].interval, ts[k].interval);
    }
  }

  /** A longer span is never shown at a finer resolution. */
  lemma AutoIsMonotone(ts: seq<Tier>, span: int, span': int, k: int, k': int)
    requires Ascending(ts) && span <= span'
    ensures AutoChoice(ts, span, k) && AutoChoice(ts, span', k') ==> k <= k'
  {
    if AutoChoice(ts, span, k) && AutoChoice(ts, span', k') {
      BucketsGrow(ts, span, span');
      if Buckets(ts, span', k) > MAX_BUCKETS {
        TooManyBelow(ts, span', k);
      } else {
        assert InRange(ts, span, k) ==> InRange(ts, span', k);
      }
    }
  }

  // ---- an explicit resolution ----

  ghost predicate FirstFit(ts: seq<Tier>, span: int, start: int, k: int)
    requires Ascending(ts) && 0 <= start
  {
    && start <= k < |ts|
    && (forall j | start <= j < k :: Buckets(ts, span, j) > MAX_BUCKETS)
    && (Buckets(ts, span, k) <= MAX_BUCKETS || k == |ts| - 1)
  }

  datatype Outcome = Chosen(tier: Tier) | Unknown | BadRange

  /** internal/api/history.go resolveHistoryTier, for any tier list without the names
      "auto" and "raw". */
  method ResolveHistoryTier(ts: seq<Tier>, requested: string, span: int, monitorInterval: int) returns (r: Outcome)
    requires Ascending(ts)
    ensures requested == "auto" ==> r.Chosen? && exists k :: AutoChoice(ts, span, k) && r.tier == ts[k]
    ensures requested == "raw" && monitorInterval > 0 && Quot(span, monitorInterval) <= 2000 ==> r == Chosen(Tier("raw", monitorInterval))
    ensures requested == "raw" && !(monitorInterval > 0 && Quot(span, monitorInterval) <= 2000) ==>
      r.Chosen? && exists k :: FirstFit(ts, span, 0, k) && r.tier == ts[k]
    ensures requested != "auto" && requested != "raw" && r.Chosen? ==>
      exists i, k :: 0 <= i < |ts| && ts[i].name == requested && (forall j | 0 <= j < i :: ts[j].name != requested)
                     && FirstFit(ts, span, i, k) && r.tier == ts[k]
    ensures requested != "auto" && requested != "raw" ==> (r.Unknown? <==> forall j | 0 <= j < |ts| :: ts[j].name != requested)
    ensures !r.BadRange?
  {
    if requested == "auto" {
      var best := AutoHistoryTier(ts, span);
      return Chosen(best);
    }
    var start := -1;
    if requested == "raw" {
      if monitorInterval > 0 && Quot(span, monitorInterval) <= MAX_BUCKETS {
        return Chosen(Tier("raw", monitorInterval));
      }
      start := 0;
    } else {
      var n := 0;
      while n < |ts|
        invariant 0 <= n <= |ts| && start == -1
        invariant forall j | 0 <= j < n :: ts[j].name != requested
      {
        if ts[n].name == requested {
          start := n;
          break;
        }
        n := n + 1;
      }
      if start < 0 {
        return Unknown;
      }
    }
    var i := start;
    while i < |ts|
      invariant start <= i <= |ts|
      invariant forall j | start <= j < i :: Buckets(ts, span, j) > MAX_BUCKETS
    {
      if Quot(span, ts[i].interval) <= MAX_BUCKETS {
        assert FirstFit(ts, span, start, i);
        return Chosen(ts[i]);
      }
      i := i + 1;
    }
    assert FirstFit(ts, span, start, |ts| - 1);
    return Chosen(ts[|ts| - 1]);
  }

  /** What an explicit request is answered with: no tier finer than the one asked for; among
      the rest the first with at most 2000 buckets, or the last if none has so few. */
  lemma FirstFitMeans(ts: seq<Tier>, span: int, start: int, k: int)
    requires Ascending(ts) && 0 <= start && FirstFit(ts, span, start, k)
    ensures start <= k < |ts|
    ensures forall j | start <= j < |ts| && Quot(span, ts[j].interval) <= 2000 :: k <= j && Quot(span, ts[k].interval) <= 2000
    ensures (forall j | start <= j < |ts| :: Quot(span, ts[j].interval) > 2000) ==> k == |ts| - 1
  {
    assert forall j | start <= j < |ts| :: Buckets(ts, span, j) == Quot(span, ts[j].interval);
  }

  /** What was asked for is never answered finer ... */
  lemma NeverFiner(ts: seq<Tier>, span: int, start: int, k: int)
    requires Ascending(ts) && 0 <= start && FirstFit(ts, span, start, k)
    ensures ts[start].interval <= ts[k].interval
  {
  }

  /** ... raw included, unless the monitor is checked more rarely than the coarsest tier. */
  lemma RawNeverFiner(ts: seq<Tier>, span: int, monitorInterval: int, k: int)
    requires Ascending(ts) && !(monitorInterval > 0 && Quot(span, monitorInterval) <= 2000) && FirstFit(ts, span, 0, k)
    requires monitorInterval <= ts[|ts| - 1].interval
    ensures monitorInterval <= ts[k].interval
  {
    if monitorInterval > 0 && ts[k].interval < monitorInterval {
      NegativeIsFew(span, monitorInterval);
      FinerHasMore(span, ts[k].interval, monitorInterval);
    }
  }

  lemma RollupTiersAscend()
    ensures Ascending(ROLLUP_TIERS) && |ROLLUP_TIERS| == 4 && ROLLUP_TIERS[3].interval == DAY
  {
  }

  /** Ten years of days, and not one more or less. */
  lemma TenYears(span: int)
    ensures span <= MAX_SPAN ==> Quot(span, DAY) <= 3650
    ensures Quot(MAX_SPAN, DAY) == 3650
  {
    if span <= MAX_SPAN {
      QuotMonotone(span, MAX_SPAN, DAY);
    }
  }

  predicate BoundedBy(tier: Tier, span: int) {
    && tier.interval > 0 && Quot(span, tier.interval) <= 3650
    && (Quot(span, tier.interval) > 2000 ==> tier.interval == 24 * 3600_000_000_000)
  }

  /** Over any range timeRange lets through, no answer has more than 3650 buckets, and one
      of more than 2000 is a request that even days cannot fit. */
  lemma AnswersAreBounded(span: int, start: int, k: int)
    requires span <= MAX_SPAN && 0 <= start
    ensures Ascending(ROLLUP_TIERS)
    ensures AutoChoice(ROLLUP_TIERS, span, k) ==> Buckets(ROLLUP_TIERS, span, k) <= 3650
    ensures FirstFit(ROLLUP_TIERS, span, start, k) ==> Buckets(ROLLUP_TIERS, span, k) <= 3650
    ensures AutoChoice(ROLLUP_TIERS, span, k) || FirstFit(ROLLUP_TIERS, span, start, k) ==>
      Buckets(ROLLUP_TIERS, span, k) > 2000 ==> ROLLUP_TIERS[k].interval == DAY
  {
    RollupTiersAscend();
    TenYears(span);
    if AutoChoice(ROLLUP_TIERS, span, k) && Buckets(ROLLUP_TIERS, span, k) > MAX_BUCKETS {
      assert k == 3;
    }
  }

  lemma AllBounded(span: int)
    requires span <= MAX_SPAN
    ensures Ascending(ROLLUP_TIERS)
    ensures forall k | AutoChoice(ROLLUP_TIERS, span, k) :: BoundedBy(ROLLUP_TIERS[k], span)
    ensures forall start, k | 0 <= start && FirstFit(ROLLUP_TIERS, span, start, k) :: BoundedBy(ROLLUP_TIERS[k], span)
  {
    RollupTiersAscend();
    forall k | AutoChoice(ROLLUP_TIERS, span, k) ensures BoundedBy(ROLLUP_TIERS[k], span) {
      AnswersAreBounded(span, 0, k);
    }
    forall start, k | 0 <= start && FirstFit(ROLLUP_TIERS, span, start, k) ensures BoundedBy(ROLLUP_TIERS[k], span) {
      AnswersAreBounded(span, start, k);
    }
  }

  lemma TierNames(name: string)
    ensures (forall j | 0 <= j < |ROLLUP_TIERS| :: ROLLUP_TIERS[j].name != name) <==> name != "1m" && name != "5m" && name != "1h" && name != "1d"
  {
    assert ROLLUP_TIERS[0].name == "1m" && ROLLUP_TIERS[1].name == "5m" && ROLLUP_TIERS[2].name == "1h" && ROLLUP_TIERS[3].name == "1d";
  }

  /** A chart as it is asked for: the range is checked as timeRange does, and the tier is
      then chosen among the product's. Whatever the request, raw included, an answer has at
      most 3650 buckets. */
  method ChartTier(requested: string, from: int, to: int, monitorInterval: int) returns (r: Outcome)
    ensures r.BadRange? <==> to <= from || to - from > 3650 * 24 * 3600_000_000_000
    ensures r.Unknown? ==> requested != "1m" && requested != "5m" && requested != "1h" && requested != "1d"
    ensures r.Chosen? ==> r.tier.interval > 0 && Quot(to - from, r.tier.interval) <= 3650
    ensures r.Chosen? && Quot(to - from, r.tier.interval) > 2000 ==> r.tier.interval == 24 * 3600_000_000_000
  {
    if to <= from || to - from > MAX_SPAN {
      return BadRange;
    }
    AllBounded(to - from);
    TierNames(requested);
    var ts := ROLLUP_TIERS;
    r := ResolveHistoryTier(ts, requested, to - from, monitorInterval);
  }
}
