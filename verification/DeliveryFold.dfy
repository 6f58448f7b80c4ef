/** The delivery log of a report run, folded from one row per attempt to one record per
    target. */
module DeliveryFold {
  import opened Basics

  datatype Attempt = Attempt(kind: string, target: string, outcome: string, error: string, number: int, at: Option<int>)

  datatype Record = Record(kind: string, outcome: string, error: Option<string>, attempts: int, at: Option<int>)

  function KeyOf(d: Attempt): string {
    d.kind + "|" + d.target
  }

  function Optional(s: string): Option<string> {
    if s == "" then None else Some(s)
  }

  function Max(a: int, b: int): int {
    if a < b then b else a
  }

  // ---- the specification ----

  /** The keys in order of first appearance. */
  function Keys(rows: seq<Attempt>): seq<string> {
    if rows == [] then []
    else
      var before, key := Keys(rows[..|rows| - 1]), KeyOf(rows[|rows| - 1]);
      if key in before then before else before + [key]
  }

  /** The rows of one key, in order. */
  function Group(rows: seq<Attempt>, key: string): seq<Attempt> {
    if rows == [] then []
    else
      var d := rows[|rows| - 1];
      Group(rows[..|rows| - 1], key) + if KeyOf(d) == key then [d] else []
  }

  function MaxNumber(rows: seq<Attempt>): int
    requires rows != []
  {
    if |rows| == 1 then rows[0].number else Max(MaxNumber(rows[..|rows| - 1]), rows[|rows| - 1].number)
  }

  /** The greatest attempt, and everything else from the last row. */
  function Summary(rows: seq<Attempt>): Record
    requires rows != []
  {
    var last := rows[|rows| - 1];
    Record(rows[0].kind, last.outcome, Optional(last.error), MaxNumber(rows), last.at)
  }

  lemma {:induction false} KeysHaveRows(rows: seq<Attempt>, key: string)
    ensures key in Keys(rows) <==> Group(rows, key) != []
  {
    if rows != [] {
      KeysHaveRows(rows[..|rows| - 1], key);
    }
  }

  function Records(rows: seq<Attempt>, keys: seq<string>): seq<Record>
    requires forall k | k in keys :: Group(rows, k) != []
  {
    seq(|keys|, i requires 0 <= i < |keys| => Summary(Group(rows, keys[i])))
  }

  // ---- the code ----

  /** Where each key's record is, and each record the summary of its rows so far. */
  ghost predicate Progress(rows: seq<Attempt>, byTarget: map<string, nat>, out: seq<Record>) {
    Indexes(byTarget, Keys(rows)) && Summarizes(out, rows, Keys(rows))
  }

  ghost predicate Indexes(byTarget: map<string, nat>, keys: seq<string>) {
    && (forall key :: key in byTarget <==> key in keys)
    && (forall key | key in byTarget :: byTarget[key] < |keys| && keys[byTarget[key]] == key)
    && (forall i | 0 <= i < |keys| :: keys[i] in byTarget && byTarget[keys[i]] == i)
  }

  ghost predicate Summarizes(out: seq<Record>, rows: seq<Attempt>, keys: seq<string>) {
    |out| == |keys| && forall i | 0 <= i < |keys| :: Group(rows, keys[i]) != [] && out[i] == Summary(Group(rows, keys[i]))
  }

  lemma IndexGrows(byTarget: map<string, nat>, keys: seq<string>, key: string)
    requires Indexes(byTarget, keys) && key !in keys
    ensures Indexes(byTarget[key := |keys|], keys + [key])
  {
  }

  lemma Snoc(rows: seq<Attempt>, d: Attempt, key: string)
    ensures Group(rows + [d], key) == Group(rows, key) + if KeyOf(d) == key then [d] else []
    ensures Keys(rows + [d]) == if KeyOf(d) in Keys(rows) then Keys(rows) else Keys(rows) + [KeyOf(d)]
  {
    assert (rows + [d])[..|rows + [d]| - 1] == rows;
  }

  lemma SummarySnoc(g: seq<Attempt>, d: Attempt)
    requires g != []
    ensures Summary(g + [d]) == Record(Summary(g).kind, d.outcome, Optional(d.error), Max(Summary(g).attempts, d.number), d.at)
  {
    assert (g + [d])[..|g + [d]| - 1] == g;
  }

  lemma KnownKey(rows: seq<Attempt>, d: Attempt, byTarget: map<string, nat>, out: seq<Record>)
    requires Progress(rows, byTarget, out) && KeyOf(d) in byTarget
    ensures var at := byTarget[KeyOf(d)];
      Progress(rows + [d], byTarget,
               out[at := Record(out[at].kind, d.outcome, Optional(d.error), Max(out[at].attempts, d.number), d.at)])
  {
    var at := byTarget[KeyOf(d)];
    var out' := out[at := Record(out[at].kind, d.outcome, Optional(d.error), Max(out[at].attempts, d.number), d.at)];
    Snoc(rows, d, KeyOf(d));
    var keys := Keys(rows);
    forall i | 0 <= i < |out| ensures Group(rows + [d], keys[i]) != [] && out'[i] == Summary(Group(rows + [d], keys[i])) {
      GroupSummary(rows, d, keys[i]);
    }
  }

  /** What one more row does to the summary of a group. */
  lemma GroupSummary(rows: seq<Attempt>, d: Attempt, key: string)
    requires Group(rows, key) != []
    ensures Group(rows + [d], key) != []
    ensures var was := Summary(Group(rows, key));
      Summary(Group(rows + [d], key)) ==
        if KeyOf(d) == key then Record(was.kind, d.outcome, Optional(d.error), Max(was.attempts, d.number), d.at) else was
  {
    Snoc(rows, d, key);
    if key == KeyOf(d) {
      SummarySnoc(Group(rows, key), d);
    } else {
      assert Group(rows + [d], key) == Group(rows, key);
    }
  }

  lemma NewGroup(rows: seq<Attempt>, d: Attempt)
    requires KeyOf(d) !in Keys(rows)
    ensures Keys(rows + [d]) == Keys(rows) + [KeyOf(d)]
    ensures Group(rows + [d], KeyOf(d)) == [d]
    ensures forall key | key in Keys(rows) :: Group(rows + [d], key) == Group(rows, key)
  {
    Snoc(rows, d, KeyOf(d));
    KeysHaveRows(rows, KeyOf(d));
    forall key | key in Keys(rows) ensures Group(rows + [d], key) == Group(rows, key) {
      Snoc(rows, d, key);
    }
  }

  lemma NewKey(rows: seq<Attempt>, d: Attempt, byTarget: map<string, nat>, out: seq<Record>)
    requires Progress(rows, byTarget, out) && KeyOf(d) !in byTarget
    ensures Progress(rows + [d], byTarget[KeyOf(d) := |out|],
                     out + [Record(d.kind, d.outcome, Optional(d.error), d.number, d.at)])
  {
    var out' := out + [Record(d.kind, d.outcome, Optional(d.error), d.number, d.at)];
    NewGroup(rows, d);
    IndexGrows(byTarget, Keys(rows), KeyOf(d));
    var keys, keys' := Keys(rows), Keys(rows + [d]);
    assert out'[|out|] == Summary([d]);
    forall i | 0 <= i < |keys'| ensures Group(rows + [d], keys'[i]) != [] && out'[i] == Summary(Group(rows + [d], keys'[i])) {
      if i < |keys| {
        assert keys'[i] == keys[i] && keys[i] in keys;
      }
    }
  }

  /** The fold at the end of reportRunToJSON. */
  method FoldDeliveries(rows: seq<Attempt>) returns (out: seq<Record>)
    ensures forall k | k in Keys(rows) :: Group(rows, k) != []
    ensures out == Records(rows, Keys(rows))
  {
    out := [];
    var byTarget: map<string, nat> := map[];
    for n := 0 to |rows|
      invariant Progress(rows[..n], byTarget, out)
    {
      var d := rows[n];
      assert rows[..n + 1] == rows[..n] + [d];
      var key := KeyOf(d);
      if key in byTarget {
        KnownKey(rows[..n], d, byTarget, out);
        var at := byTarget[key];
        var existing := out[at];
        existing := existing.(attempts := Max(existing.attempts, d.number));
        existing := existing.(outcome := d.outcome, error := Optional(d.error), at := d.at);
        out := out[at := existing];
        continue;
      }
      NewKey(rows[..n], d, byTarget, out);
      byTarget := byTarget[key := |out|];
      out := out + [Record(d.kind, d.outcome, Optional(d.error), d.number, d.at)];
    }
    assert rows[..|rows|] == rows;
    forall k | k in Keys(rows) ensures Group(rows, k) != [] {
      KeysHaveRows(rows, k);
    }
  }

  // ---- what the specification means ----

  lemma {:induction false} KeysDistinct(rows: seq<Attempt>)
    ensures forall i, j | 0 <= i < j < |Keys(rows)| :: Keys(rows)[i] != Keys(rows)[j]
  {
    if rows != [] {
      KeysDistinct(rows[..|rows| - 1]);
    }
  }

  /** Keys come in the order of their first rows. */
  lemma {:induction false} FirstRow(rows: seq<Attempt>, i: nat) returns (n: nat)
    requires i < |Keys(rows)|
    ensures n < |rows| && KeyOf(rows[n]) == Keys(rows)[i]
    ensures forall m | 0 <= m < n :: KeyOf(rows[m]) in Keys(rows)[..i]
  {
    var front := rows[..|rows| - 1];
    if i < |Keys(front)| {
      n := FirstRow(front, i);
      assert forall m | 0 <= m < n :: rows[m] == front[m];
      assert Keys(rows)[..i] == Keys(front)[..i];
    } else {
      n := |rows| - 1;
      assert Keys(rows)[..i] == Keys(front);
      forall m | 0 <= m < n ensures KeyOf(rows[m]) in Keys(front) {
        assert rows[m] == front[m];
        RowInGroup(front, m);
        KeysHaveRows(front, KeyOf(rows[m]));
      }
    }
  }

  lemma {:induction false} RowInGroup(rows: seq<Attempt>, n: nat)
    requires n < |rows|
    ensures rows[n] in Group(rows, KeyOf(rows[n]))
  {
    if n < |rows| - 1 {
      assert rows[..|rows| - 1][n] == rows[n];
      RowInGroup(rows[..|rows| - 1], n);
    }
  }

  lemma {:induction false} GroupEnds(rows: seq<Attempt>, key: string) returns (first: nat, last: nat)
    requires Group(rows, key) != []
    ensures first <= last < |rows| && KeyOf(rows[first]) == KeyOf(rows[last]) == key
    ensures forall m | 0 <= m < |rows| && KeyOf(rows[m]) == key :: first <= m <= last
    ensures Group(rows, key)[0] == rows[first] && Group(rows, key)[|Group(rows, key)| - 1] == rows[last]
  {
    var front, n := rows[..|rows| - 1], |rows| - 1;
    if Group(front, key) != [] {
      first, last := GroupEnds(front, key);
      assert forall m | 0 <= m < n :: front[m] == rows[m];
      if KeyOf(rows[n]) == key {
        last := n;
      }
    } else {
      first, last := n, n;
      forall m | 0 <= m < n ensures KeyOf(rows[m]) != key {
        if KeyOf(rows[m]) == key {
          assert front[m] == rows[m];
          RowInGroup(front, m);
          assert false;
        }
      }
    }
  }

  lemma {:induction false} GroupRows(rows: seq<Attempt>, key: string, d: Attempt)
    requires d in Group(rows, key)
    ensures d in rows && KeyOf(d) == key
  {
    if rows != [] && d in Group(rows[..|rows| - 1], key) {
      GroupRows(rows[..|rows| - 1], key, d);
    }
  }

  /** A record of the answer, said of the rows: its type is that of the first row with its
      key, its outcome, error and time are those of the last, an empty error is none at all,
      and its attempts are the greatest number of any row with its key. */
  lemma RecordOfRows(rows: seq<Attempt>, out: seq<Record>, i: nat) returns (first: nat, last: nat)
    requires forall k | k in Keys(rows) :: Group(rows, k) != []
    requires out == Records(rows, Keys(rows)) && i < |out|
    ensures first <= last < |rows| && KeyOf(rows[first]) == KeyOf(rows[last]) == Keys(rows)[i]
    ensures forall m | 0 <= m < |rows| && KeyOf(rows[m]) == Keys(rows)[i] :: first <= m <= last && rows[m].number <= out[i].attempts
    ensures exists m :: 0 <= m < |rows| && KeyOf(rows[m]) == Keys(rows)[i] && rows[m].number == out[i].attempts
    ensures out[i].kind == rows[first].kind && out[i].outcome == rows[last].outcome && out[i].at == rows[last].at
    ensures if rows[last].error == "" then out[i].error == None else out[i].error == Some(rows[last].error)
  {
    var key := Keys(rows)[i];
    first, last := GroupEnds(rows, key);
    MaxNumberIsMax(Group(rows, key));
    forall m | 0 <= m < |rows| && KeyOf(rows[m]) == key ensures rows[m].number <= out[i].attempts {
      RowInGroup(rows, m);
    }
    var d :| d in Group(rows, key) && d.number == MaxNumber(Group(rows, key));
    GroupRows(rows, key, d);
    var m :| 0 <= m < |rows| && rows[m] == d;
  }

  function CountRows(rows: seq<Attempt>, keys: seq<string>): nat {
    if keys == [] then 0 else |Group(rows, keys[0])| + CountRows(rows, keys[1..])
  }

  lemma {:induction false} CountSnoc(rows: seq<Attempt>, d: Attempt, keys: seq<string>)
    requires forall i, j | 0 <= i < j < |keys| :: keys[i] != keys[j]
    ensures CountRows(rows + [d], keys) == CountRows(rows, keys) + if KeyOf(d) in keys then 1 else 0
  {
    if keys != [] {
      assert (rows + [d])[..|rows + [d]| - 1] == rows;
      assert forall i | 0 <= i < |keys| - 1 :: keys[1..][i] == keys[i + 1];
      CountSnoc(rows, d, keys[1..]);
      assert keys == [keys[0]] + keys[1..];
    }
  }

  lemma {:induction false} CountConcat(rows: seq<Attempt>, a: seq<string>, key: string)
    ensures CountRows(rows, a + [key]) == CountRows(rows, a) + |Group(rows, key)|
  {
    if a == [] {
      assert [] + [key] == [key];
    } else {
      CountConcat(rows, a[1..], key);
      assert (a + [key])[1..] == a[1..] + [key];
    }
  }

  /** Every stored row is accounted for in exactly one record. */
  lemma {:induction false} EveryRowOnce(rows: seq<Attempt>)
    ensures CountRows(rows, Keys(rows)) == |rows|
  {
    if rows != [] {
      var front, d := rows[..|rows| - 1], rows[|rows| - 1];
      assert rows == front + [d];
      EveryRowOnce(front);
      KeysDistinct(front);
      CountSnoc(front, d, Keys(front));
      if KeyOf(d) !in Keys(front) {
        CountConcat(rows, Keys(front), KeyOf(d));
        KeysHaveRows(front, KeyOf(d));
      }
    }
  }

  /** The attempts of a record are the greatest of its rows. */
  lemma {:induction false} MaxNumberIsMax(rows: seq<Attempt>)
    requires rows != []
    ensures forall d | d in rows :: d.number <= MaxNumber(rows)
    ensures exists d :: d in rows && d.number == MaxNumber(rows)
  {
    if |rows| > 1 {
      var front, last := rows[..|rows| - 1], rows[|rows| - 1];
      MaxNumberIsMax(front);
      assert forall d :: d in rows <==> d in front || d == last;
    } else {
      assert rows[0] in rows;
    }
  }

  /** Two attempts share a record exactly when they went the same way to the same target,
      for kinds without the separator, which all kinds the product has are. */
  lemma KeyIsThePair(d: Attempt, e: Attempt)
    requires '|' !in d.kind && '|' !in e.kind
    ensures KeyOf(d) == KeyOf(e) <==> d.kind == e.kind && d.target == e.target
  {
    if KeyOf(d) == KeyOf(e) {
      BarUnique(d.kind, d.target, e.kind, e.target);
    }
  }

  lemma BarUnique(a: string, x: string, b: string, y: string)
    requires '|' !in a && '|' !in b && a + "|" + x == b + "|" + y
    ensures a == b && x == y
  {
    var s := a + "|" + x;
    assert forall i | 0 <= i < |a| :: s[i] == a[i];
    assert forall i | 0 <= i < |b| :: s[i] == b[i];
    assert s[|a|] == '|' && s[|b|] == '|';
    assert a == s[..|a|] && x == s[|a| + 1..];
  }

  /** Attempts of these kinds can share a record although they went to different targets. */
  ghost predicate CanCollide(a: string, b: string) {
    exists d: Attempt, e: Attempt :: d.kind == a && e.kind == b && KeyOf(d) == KeyOf(e) && (d.kind, d.target) != (e.kind, e.target)
  }

  /** Two kinds can collide exactly when they differ and one of them, followed by the
      separator, begins the other followed by the separator. */
  lemma CollideExactly(a: string, b: string)
    ensures CanCollide(a, b) <==> a != b && (a + "|" <= b + "|" || b + "|" <= a + "|")
  {
    if d: Attempt, e: Attempt :| d.kind == a && e.kind == b && KeyOf(d) == KeyOf(e) && (d.kind, d.target) != (e.kind, e.target) {
      PrefixesNest(a + "|", d.target, b + "|", e.target);
      assert d.target == KeyOf(d)[|a + "|"|..] && e.target == KeyOf(e)[|b + "|"|..];
    }
    if a != b && a + "|" <= b + "|" {
      PrefixCollides(a, b);
    }
    if a != b && b + "|" <= a + "|" {
      PrefixCollides(b, a);
      assert CanCollide(b, a);
    }
  }

  lemma PrefixesNest(p: string, x: string, q: string, y: string)
    requires p + x == q + y
    ensures p <= q || q <= p
  {
    var s := p + x;
    assert p == s[..|p|] && q == s[..|q|];
  }

  lemma PrefixCollides(a: string, b: string)
    requires a != b && a + "|" <= b + "|"
    ensures CanCollide(a, b) && CanCollide(b, a)
  {
    var rest := (b + "|")[|a + "|"|..];
    assert a + "|" + rest == b + "|" && b + "|" + "" == b + "|";
    var d, e := Attempt(a, rest, "", "", 0, None), Attempt(b, "", "", "", 0, None);
    assert KeyOf(d) == KeyOf(e);
  }

  const KINDS: seq<string> := ["email", "slack", "webhook", "s3"]

  lemma KindsHaveNoBar()
    ensures forall k | k in KINDS :: '|' !in k
  {
  }
}
