/** Keyset pagination: pages of a filtered table in descending (updated_at, id) order,
    and whole walks over a table that other clients keep changing. */
module Keyset {
  import opened Basics

  /** An id stands for the number its sixteen bytes spell; that order is bytewise order. */
  type Id = nat

  /** `group` is the monitor's group, `parent` the group that one is in. */
  datatype Row = Row(at: int, org: nat, status: string, group: Option<nat>, parent: Option<nat>, tags: set<nat>)

  type Table = map<Id, Row>

  datatype Key = Key(at: int, id: Id)

  /** The filters of one listing. In the product they all apply (`both`), and a group holds
      its own monitors and those of the groups in it; in the schema target the first that is
      set wins. */
  datatype Filter = Filter(org: nat, status: string, tag: Option<nat>, group: Option<nat>, both: bool)

  predicate Matches(f: Filter, r: Row) {
    && r.org == f.org
    && if f.both then
         && (f.status != "" ==> r.status == f.status)
         && (f.tag.Some? ==> f.tag.value in r.tags)
         && (f.group.Some? ==> r.group == f.group || r.parent == f.group)
       else if f.status != "" then r.status == f.status
       else if f.tag.Some? then f.tag.value in r.tags
       else if f.group.Some? then r.group == f.group
       else true
  }

  /** Row-value comparison. */
  predicate Less(a: Key, b: Key) {
    a.at < b.at || (a.at == b.at && a.id < b.id)
  }

  predicate Past(k: Key, cursor: Option<Key>) {
    cursor.Some? ==> Less(k, cursor.value)
  }

  /** The rows a query selects before ORDER BY and LIMIT. */
  function Selected(t: Table, f: Filter, cursor: Option<Key>): set<Key> {
    set id | id in t && Matches(f, t[id]) && Past(Key(t[id].at, id), cursor) :: Key(t[id].at, id)
  }

  /** Whom the schema target selects: past the cursor in time, or in id at its time, and by
      the first filter that is set. */
  lemma SchemaSelects(t: Table, f: Filter, cursor: Option<Key>, k: Key)
    requires !f.both
    ensures k in Selected(t, f, cursor) <==>
      && k.id in t && t[k.id].org == f.org && t[k.id].at == k.at
      && (cursor.None? || k.at < cursor.value.at || (k.at == cursor.value.at && k.id < cursor.value.id))
      && (f.status == "" || t[k.id].status == f.status)
      && (f.status != "" || f.tag.None? || f.tag.value in t[k.id].tags)
      && (f.status != "" || f.tag.Some? || f.group.None? || t[k.id].group == f.group)
  {
  }

  /** Whom the product selects: past the cursor in the same order, and by all filters. */
  lemma ProductSelects(t: Table, f: Filter, cursor: Option<Key>, k: Key)
    requires f.both
    ensures k in Selected(t, f, cursor) <==>
      && k.id in t && t[k.id].org == f.org && t[k.id].at == k.at
      && (cursor.None? || k.at < cursor.value.at || (k.at == cursor.value.at && k.id < cursor.value.id))
      && (f.status == "" || t[k.id].status == f.status)
      && (f.tag.None? || f.tag.value in t[k.id].tags)
      && (f.group.None? || f.group == t[k.id].group || f.group == t[k.id].parent)
  {
  }

  lemma GreatestExists(s: set<Key>)
    requires s != {}
    ensures exists m :: m in s && forall k | k in s :: k == m || Less(k, m)
  {
    var x :| x in s;
    if s != {x} {
      GreatestExists(s - {x});
      var m :| m in s - {x} && forall k | k in s - {x} :: k == m || Less(k, m);
      var g := if Less(x, m) then m else x;
      forall k | k in s ensures k == g || Less(k, g) {
        assert k == x || k in s - {x};
      }
      assert g in s && forall k | k in s :: k == g || Less(k, g);
    } else {
      assert x in s && forall k | k in s :: k == x || Less(k, x);
    }
  }

  function Greatest(s: set<Key>): (m: Key)
    requires s != {}
    ensures m in s && forall k | k in s :: k == m || Less(k, m)
  {
    GreatestExists(s);
    assert forall m, m' | m in s && m' in s && m != m' :: Less(m, m') ==> !Less(m', m);
    var m :| m in s && forall k | k in s :: k == m || Less(k, m);
    m
  }

  /** ORDER BY updated_at DESC, id DESC. */
  function Desc(s: set<Key>): (q: seq<Key>)
    ensures |q| == |s|
    decreases |s|
  {
    if s == {} then [] else [Greatest(s)] + Desc(s - {Greatest(s)})
  }

  /** Later first, and at one time the greater id first. */
  predicate Descending(q: seq<Key>) {
    forall i, j | 0 <= i < j < |q| :: q[j].at < q[i].at || (q[j].at == q[i].at && q[j].id < q[i].id)
  }

  lemma {:induction false} DescMembers(s: set<Key>, k: Key)
    ensures k in Desc(s) <==> k in s
    decreases |s|
  {
    if s != {} {
      DescMembers(s - {Greatest(s)}, k);
    }
  }

  lemma {:induction false} DescDescends(s: set<Key>)
    ensures Descending(Desc(s))
    decreases |s|
  {
    if s != {} {
      var rest := s - {Greatest(s)};
      DescDescends(rest);
      forall j | 0 <= j < |Desc(rest)| ensures Less(Desc(rest)[j], Greatest(s)) {
        DescMembers(rest, Desc(rest)[j]);
      }
    }
  }

  lemma DescExactly(s: set<Key>)
    ensures Descending(Desc(s)) && forall k :: k in Desc(s) <==> k in s
  {
    DescDescends(s);
    forall k ensures k in Desc(s) <==> k in s {
      DescMembers(s, k);
    }
  }

  function Min(a: nat, b: nat): nat {
    if a < b then a else b
  }

  function Page(t: Table, f: Filter, cursor: Option<Key>, limit: nat): seq<Key> {
    var s := Selected(t, f, cursor);
    Desc(s)[..Min(limit, |s|)]
  }

  /** A page without a word about how it is found: as many of the selected rows as fit, in
      descending order of time and id, and every other one lies below all of them. */
  lemma PageIsTheTop(t: Table, f: Filter, cursor: Option<Key>, limit: nat)
    ensures var s, p := Selected(t, f, cursor), Page(t, f, cursor, limit);
      && |p| == (if |s| < limit then |s| else limit)
      && (forall k | k in p :: k in s)
      && (forall i, j | 0 <= i < j < |p| :: p[j].at < p[i].at || (p[j].at == p[i].at && p[j].id < p[i].id))
      && (forall k, j | k in s && k !in p && 0 <= j < |p| :: k.at < p[j].at || (k.at == p[j].at && k.id < p[j].id))
  {
    var s, p := Selected(t, f, cursor), Page(t, f, cursor, limit);
    DescExactly(s);
    TopOf(Desc(s), limit);
    assert p == Desc(s)[..Min(limit, |Desc(s)|)];
  }

  lemma TopOf(q: seq<Key>, limit: nat)
    requires Descending(q)
    ensures var p := q[..Min(limit, |q|)];
      && Descending(p) && (forall k | k in p :: k in q)
      && (forall k, j | k in q && k !in p && 0 <= j < |p| :: k.at < p[j].at || (k.at == p[j].at && k.id < p[j].id))
  {
    var p := q[..Min(limit, |q|)];
    forall k, j | k in q && k !in p && 0 <= j < |p| ensures k.at < p[j].at || (k.at == p[j].at && k.id < p[j].id) {
      BelowThePage(q, |p|, k, j);
    }
  }

  lemma BelowThePage(q: seq<Key>, n: nat, k: Key, j: nat)
    requires Descending(q) && j < n <= |q| && k in q && k !in q[..n]
    ensures k.at < q[j].at || (k.at == q[j].at && k.id < q[j].id)
  {
    var i := BeyondThePage(q, n, k);
  }

  /** The cursor a page hands on. The API asks for one row more than the page to learn
      whether there is more; the schema target always hands on the last row it read. */
  function NextCursor(t: Table, f: Filter, cursor: Option<Key>, limit: nat, api: bool): Option<Key> {
    var page := Page(t, f, cursor, limit);
    if page == [] || (api && |Selected(t, f, cursor)| <= limit) then None else Some(page[|page| - 1])
  }

  /** The row loop of the schema target's listing. */
  method ReadRows(rows: seq<Key>) returns (n: nat, next: Option<Key>)
    ensures n == |rows|
    ensures next == if rows == [] then None else Some(rows[|rows| - 1])
  {
    n, next := 0, None;
    for i := 0 to |rows|
      invariant n == i
      invariant next == if i == 0 then None else Some(rows[i - 1])
    {
      n := n + 1;
      next := Some(rows[i]);
    }
  }

  ghost function Under(s: set<Key>, x: Key): set<Key> {
    set k | k in s && Less(k, x)
  }

  /** What is left after a page is what lies past its last row. */
  lemma {:induction false} DescTail(s: set<Key>, n: nat)
    requires 0 < n <= |s|
    ensures Desc(s)[n..] == Desc(Under(s, Desc(s)[n - 1]))
    decreases |s|
  {
    var m := Greatest(s);
    var rest := s - {m};
    assert Desc(s) == [m] + Desc(rest);
    assert Desc(s)[n..] == Desc(rest)[n - 1..];
    if n == 1 {
      assert rest == Under(s, m);
    } else {
      DescTail(rest, n - 1);
      var x := Desc(rest)[n - 2];
      DescMembers(rest, x);
      assert Desc(s)[n - 1] == x;
      assert Under(s, x) == Under(rest, x);
    }
  }

  // ---- walks over a changing table ----

  /** `used` holds every id that was ever in the table. */
  datatype Walk = Walk(table: Table, used: set<Id>, cursor: Option<Key>, returned: seq<Key>, done: bool)

  /** An update may carry a time before the row's: the product takes it when the request
      begins. */
  datatype Step = Fetch | Insert(id: Id, row: Row) | Update(id: Id, row: Row) | Delete(id: Id)

  datatype Setting = Setting(filter: Filter, limit: nat, api: bool)

  function Start(t: Table): Walk {
    Walk(t, t.Keys, None, [], false)
  }

  predicate Enabled(w: Walk, a: Step) {
    match a
    case Fetch => !w.done
    case Insert(id, _) => id !in w.used
    case Update(id, _) => id in w.table
    case Delete(id) => id in w.table
  }

  ghost function Apply(c: Setting, w: Walk, a: Step): Walk
    requires Enabled(w, a)
  {
    match a
    case Fetch =>
      var next := NextCursor(w.table, c.filter, w.cursor, c.limit, c.api);
      w.(returned := w.returned + Page(w.table, c.filter, w.cursor, c.limit), done := next.None?,
         cursor := if next.Some? then next else w.cursor)
    case Insert(id, row) => w.(table := w.table[id := row], used := w.used + {id})
    case Update(id, row) => w.(table := w.table[id := row])
    case Delete(id) => w.(table := w.table - {id})
  }

  ghost predicate ValidRun(c: Setting, w: Walk, steps: seq<Step>)
    decreases |steps|
  {
    steps == [] || (Enabled(w, steps[0]) && ValidRun(c, Apply(c, w, steps[0]), steps[1..]))
  }

  ghost function Exec(c: Setting, w: Walk, steps: seq<Step>): Walk
    requires ValidRun(c, w, steps)
    decreases |steps|
  {
    if steps == [] then w else Exec(c, Apply(c, w, steps[0]), steps[1..])
  }

  predicate Touches(a: Step, id: Id) {
    !a.Fetch? && a.id == id
  }

  lemma {:induction false} RowStands(c: Setting, w: Walk, steps: seq<Step>, id: Id)
    requires ValidRun(c, w, steps) && forall a | a in steps :: !Touches(a, id)
    ensures var t := Exec(c, w, steps).table; (id in t <==> id in w.table) && (id in t ==> t[id] == w.table[id])
    decreases |steps|
  {
    if steps != [] {
      assert !Touches(steps[0], id);
      RowStands(c, Apply(c, w, steps[0]), steps[1..], id);
    }
  }

  /** After a run a row is as the last step that touched it left it. */
  lemma {:induction false} LastTouchStands(c: Setting, w: Walk, steps: seq<Step>, k: nat, id: Id)
    requires ValidRun(c, w, steps) && k < |steps| && Touches(steps[k], id)
    requires forall a | a in steps[k + 1..] :: !Touches(a, id)
    ensures var t := Exec(c, w, steps).table; (id in t <==> !steps[k].Delete?) && (id in t ==> t[id] == steps[k].row)
    decreases |steps|
  {
    var w', rest := Apply(c, w, steps[0]), steps[1..];
    if k == 0 {
      RowStands(c, w', rest, id);
    } else {
      assert rest[k..] == steps[k + 1..] && rest[k - 1] == steps[k];
      LastTouchStands(c, w', rest, k - 1, id);
    }
  }

  /** The walk only goes down: no returned key lies ahead of the cursor. */
  ghost predicate Inv(w: Walk) {
    && w.table.Keys <= w.used
    && (forall k | k in w.returned :: k.id in w.used)
    && (!w.done ==> forall k | k in w.returned :: w.cursor.Some? && !Less(k, w.cursor.value))
  }

  predicate OnceIn(q: seq<Key>, id: Id) {
    forall i, j | 0 <= i < j < |q| :: q[i].id == id ==> q[j].id != id
  }

  /** This row was returned once at most, and is no lower than when it was. */
  ghost predicate OnceSoFar(w: Walk, id: Id) {
    && OnceIn(w.returned, id)
    && (id in w.table ==> forall k | k in w.returned && k.id == id :: k.at <= w.table[id].at)
  }

  lemma PageFacts(t: Table, f: Filter, cursor: Option<Key>, limit: nat)
    ensures var p := Page(t, f, cursor, limit);
      && Descending(p)
      && (forall k | k in p :: k.id in t && k.at == t[k.id].at && Matches(f, t[k.id]) && Past(k, cursor))
  {
    var s := Selected(t, f, cursor);
    DescDescends(s);
    forall k | k in Page(t, f, cursor, limit) ensures k in s {
      DescMembers(s, k);
    }
  }

  lemma FetchInv(c: Setting, w: Walk)
    requires Inv(w) && !w.done
    ensures Inv(Apply(c, w, Fetch))
  {
    var p := Page(w.table, c.filter, w.cursor, c.limit);
    PageFacts(w.table, c.filter, w.cursor, c.limit);
    var w' := Apply(c, w, Fetch);
    if !w'.done {
      forall k | k in w'.returned ensures !Less(k, w'.cursor.value) {
        assert p[|p| - 1] in p;
        if k in p {
          var i :| 0 <= i < |p| && p[i] == k;
        }
      }
    }
  }

  lemma StepInv(c: Setting, w: Walk, a: Step)
    requires Inv(w) && Enabled(w, a)
    ensures Inv(Apply(c, w, a))
  {
    match a
    case Fetch => FetchInv(c, w);
    case Insert(id, row) =>
    case Update(id, row) =>
    case Delete(id) =>
  }

  lemma {:induction false} RunInv(c: Setting, w: Walk, steps: seq<Step>)
    requires Inv(w) && ValidRun(c, w, steps)
    ensures Inv(Exec(c, w, steps))
    decreases |steps|
  {
    if steps != [] {
      StepInv(c, w, steps[0]);
      RunInv(c, Apply(c, w, steps[0]), steps[1..]);
    }
  }

  /** No update of the run takes this row's time back. */
  ghost predicate NeverLowered(c: Setting, w: Walk, steps: seq<Step>, id: Id)
    requires ValidRun(c, w, steps)
    decreases |steps|
  {
    steps == [] ||
    ((steps[0].Update? && steps[0].id == id ==> w.table[id].at <= steps[0].row.at)
     && NeverLowered(c, Apply(c, w, steps[0]), steps[1..], id))
  }

  /** A page has a row once, and one that was returned only if it lies lower now. */
  lemma PageOnce(c: Setting, w: Walk, i: nat)
    requires Inv(w) && !w.done && i < |Page(w.table, c.filter, w.cursor, c.limit)|
    ensures var p := Page(w.table, c.filter, w.cursor, c.limit);
      && (forall j | 0 <= j < |p| && j != i :: p[j].id != p[i].id)
      && (forall r | r in w.returned && r.id == p[i].id :: p[i].at < r.at)
  {
    var p := Page(w.table, c.filter, w.cursor, c.limit);
    PageFacts(w.table, c.filter, w.cursor, c.limit);
    assert p[i] in p;
    forall j | 0 <= j < |p| && j != i ensures p[j].id != p[i].id {
      assert p[j] in p;
    }
  }

  lemma FetchOnce(c: Setting, w: Walk, id: Id)
    requires Inv(w) && !w.done && OnceSoFar(w, id)
    ensures OnceSoFar(Apply(c, w, Fetch), id)
  {
    var p := Page(w.table, c.filter, w.cursor, c.limit);
    var q := w.returned + p;
    PageFacts(w.table, c.filter, w.cursor, c.limit);
    forall i, j | 0 <= i < j < |q| && q[i].id == id ensures q[j].id != id {
      if j >= |w.returned| {
        var n := j - |w.returned|;
        PageOnce(c, w, n);
        assert q[j] == p[n] && p[n] in p;
        if i < |w.returned| {
          assert q[i] in w.returned;
        } else {
          assert q[i] == p[i - |w.returned|];
        }
      }
    }
    forall k | k in q && k.id == id && id in w.table ensures k.at <= w.table[id].at {
      assert k in w.returned || k in p;
    }
  }

  lemma {:induction false} OnceThroughout(c: Setting, w: Walk, steps: seq<Step>, id: Id)
    requires Inv(w) && ValidRun(c, w, steps) && NeverLowered(c, w, steps, id) && OnceSoFar(w, id)
    ensures OnceSoFar(Exec(c, w, steps), id)
    decreases |steps|
  {
    if steps != [] {
      StepInv(c, w, steps[0]);
      if steps[0].Fetch? {
        FetchOnce(c, w, id);
      }
      OnceThroughout(c, Apply(c, w, steps[0]), steps[1..], id);
    }
  }

  /** However the rest of the table changes underneath, a row whose time is never taken back
      is not returned twice. */
  lemma RowOnce(c: Setting, t: Table, steps: seq<Step>, id: Id)
    requires ValidRun(c, Start(t), steps) && NeverLowered(c, Start(t), steps, id)
    ensures OnceIn(Exec(c, Start(t), steps).returned, id)
  {
    OnceThroughout(c, Start(t), steps, id);
  }

  /** Hence no row is, while no update takes a time back. */
  lemma NoRowTwice(c: Setting, t: Table, steps: seq<Step>)
    requires ValidRun(c, Start(t), steps) && forall id :: NeverLowered(c, Start(t), steps, id)
    ensures var q := Exec(c, Start(t), steps).returned;
      forall i, j | 0 <= i < j < |q| :: q[i].id != q[j].id
  {
    var q := Exec(c, Start(t), steps).returned;
    forall i, j | 0 <= i < j < |q| ensures q[i].id != q[j].id {
      var id := q[i].id;
      assert NeverLowered(c, Start(t), steps, id);
      RowOnce(c, t, steps, id);
      assert q[i].id == id && i < j;
    }
  }

  predicate Untouched(id: Id, steps: seq<Step>) {
    forall a | a in steps :: !(a.Update? && a.id == id) && !(a.Delete? && a.id == id)
  }

  /** The row is still to come. */
  ghost predicate ToCome(c: Setting, w: Walk, id: Id) {
    !w.done && id in w.table && Matches(c.filter, w.table[id]) && Past(Key(w.table[id].at, id), w.cursor)
  }

  /** A fetch returns a row that was to come, or leaves it to come; and no other row. */
  lemma FetchTakes(c: Setting, w: Walk, id: Id)
    requires 0 < c.limit && !w.done
    ensures var p := Page(w.table, c.filter, w.cursor, c.limit);
      && (forall k | k in p && k.id == id :: ToCome(c, w, id) && k == Key(w.table[id].at, id))
      && (ToCome(c, Apply(c, w, Fetch), id) ==> ToCome(c, w, id))
      && (ToCome(c, w, id) ==> Key(w.table[id].at, id) in p || ToCome(c, Apply(c, w, Fetch), id))
  {
    var s := Selected(w.table, c.filter, w.cursor);
    var p := Page(w.table, c.filter, w.cursor, c.limit);
    PageFacts(w.table, c.filter, w.cursor, c.limit);
    if p != [] {
      assert p[|p| - 1] in p;
    }
    if ToCome(c, w, id) && Key(w.table[id].at, id) !in p {
      LeftOut(s, c.limit, Key(w.table[id].at, id));
    }
  }

  lemma BeyondThePage(q: seq<Key>, n: nat, k: Key) returns (i: nat)
    requires n <= |q| && k in q && k !in q[..n]
    ensures n <= i < |q| && q[i] == k
  {
    var page := q[..n];
    assert forall j | 0 <= j < n :: page[j] in page && page[j] == q[j];
    i :| 0 <= i < |q| && q[i] == k;
  }

  /** What the page has no room for lies below its last row. */
  lemma LeftOut(s: set<Key>, limit: nat, k: Key)
    requires 0 < limit && k in s && k !in Desc(s)[..Min(limit, |s|)]
    ensures limit < |s| && Less(k, Desc(s)[limit - 1])
  {
    var q := Desc(s);
    DescDescends(s);
    DescMembers(s, k);
    var i := BeyondThePage(q, Min(limit, |s|), k);
    assert Less(q[i], q[limit - 1]);
  }

  predicate Returns(q: seq<Key>, id: Id) {
    exists k :: k in q && k.id == id
  }

  lemma ReturnsConcat(a: seq<Key>, b: seq<Key>, id: Id)
    ensures Returns(a + b, id) <==> Returns(a, id) || Returns(b, id)
  {
    assert forall k :: k in a + b <==> k in a || k in b;
  }

  lemma {:induction false} ReturnedGrows(c: Setting, w: Walk, steps: seq<Step>)
    requires ValidRun(c, w, steps)
    ensures w.returned <= Exec(c, w, steps).returned
    decreases |steps|
  {
    if steps != [] {
      ReturnedGrows(c, Apply(c, w, steps[0]), steps[1..]);
    }
  }

  /** What the rest of a walk returns of a row that nobody touches any more: the row as it
      is, exactly when it is still to come. So a row returned before comes back exactly when
      its time was taken back below the cursor. */
  lemma {:induction false} ReturnedFromHere(c: Setting, w: Walk, steps: seq<Step>, id: Id)
    requires 0 < c.limit && ValidRun(c, w, steps) && Exec(c, w, steps).done
    requires id in w.used && w.table.Keys <= w.used && Untouched(id, steps)
    ensures w.returned <= Exec(c, w, steps).returned
    ensures var q := Exec(c, w, steps).returned[|w.returned|..];
      && (Returns(q, id) <==> ToCome(c, w, id))
      && forall k | k in q && k.id == id :: k == Key(w.table[id].at, id)
    decreases |steps|
  {
    ReturnedGrows(c, w, steps);
    if steps != [] {
      assert steps[0] in steps && forall a | a in steps[1..] :: a in steps;
      var w' := Apply(c, w, steps[0]);
      ReturnedGrows(c, w', steps[1..]);
      ReturnedFromHere(c, w', steps[1..], id);
      var end := Exec(c, w, steps).returned;
      if steps[0].Fetch? {
        var p := Page(w.table, c.filter, w.cursor, c.limit);
        FetchTakes(c, w, id);
        SuffixAfter(w.returned, p, end);
        ReturnsConcat(p, end[|w'.returned|..], id);
      }
    }
  }

  lemma SuffixAfter(a: seq<Key>, p: seq<Key>, end: seq<Key>)
    requires a + p <= end
    ensures end[|a|..] == p + end[|a + p|..]
  {
  }

  /** A walk that has ended has returned every matching row that nobody touched, once,
      however the rest of the table changed. */
  lemma UntouchedRowsExactlyOnce(c: Setting, t: Table, steps: seq<Step>, id: Id)
    requires 0 < c.limit && ValidRun(c, Start(t), steps) && Exec(c, Start(t), steps).done
    requires id in t && Matches(c.filter, t[id]) && Untouched(id, steps)
    ensures var q := Exec(c, Start(t), steps).returned;
      exists i :: 0 <= i < |q| && q[i] == Key(t[id].at, id) && forall j | 0 <= j < |q| && j != i :: q[j].id != id
  {
    ReturnedFromHere(c, Start(t), steps, id);
    UntouchedIsNotLowered(c, Start(t), steps, id);
    RowOnce(c, t, steps, id);
    var q := Exec(c, Start(t), steps).returned;
    assert q[0..] == q;
    var k :| k in q && k.id == id;
    var i :| 0 <= i < |q| && q[i] == k;
  }

  lemma {:induction false} UntouchedIsNotLowered(c: Setting, w: Walk, steps: seq<Step>, id: Id)
    requires ValidRun(c, w, steps) && Untouched(id, steps)
    ensures NeverLowered(c, w, steps, id)
    decreases |steps|
  {
    if steps != [] {
      assert steps[0] in steps && forall a | a in steps[1..] :: a in steps;
      UntouchedIsNotLowered(c, Apply(c, w, steps[0]), steps[1..], id);
    }
  }

  // ---- a table that stands still ----

  lemma SelectedPast(t: Table, f: Filter, cursor: Option<Key>, k: Key)
    requires Past(k, cursor)
    ensures Selected(t, f, Some(k)) == Under(Selected(t, f, cursor), k)
  {
  }

  ghost function Ahead(c: Setting, w: Walk): seq<Key> {
    if w.done then [] else Desc(Selected(w.table, c.filter, w.cursor))
  }

  lemma AheadAfterFetch(c: Setting, w: Walk)
    requires 0 < c.limit && !w.done
    ensures var s := Selected(w.table, c.filter, w.cursor);
      Ahead(c, Apply(c, w, Fetch)) == Desc(s)[Min(c.limit, |s|)..]
  {
    var s := Selected(w.table, c.filter, w.cursor);
    var n := Min(c.limit, |s|);
    var p := Page(w.table, c.filter, w.cursor, c.limit);
    var w' := Apply(c, w, Fetch);
    if w'.done {
      assert Desc(s)[n..] == [];
    } else {
      var last := p[n - 1];
      DescTail(s, n);
      PageFacts(w.table, c.filter, w.cursor, c.limit);
      assert last in p && last == Desc(s)[n - 1] && w'.cursor == Some(last);
      SelectedPast(w.table, c.filter, w.cursor, last);
    }
  }

  lemma Regroup(a: seq<Key>, b: seq<Key>, c: seq<Key>)
    ensures a + b + c == a + (b + c)
  {
  }

  /** The pages so far and what is still ahead make up the whole ordering. */
  lemma FetchSplits(c: Setting, w: Walk)
    requires 0 < c.limit && !w.done
    ensures Apply(c, w, Fetch).returned + Ahead(c, Apply(c, w, Fetch)) == w.returned + Ahead(c, w)
  {
    var s := Selected(w.table, c.filter, w.cursor);
    var n := Min(c.limit, |s|);
    var p, rest := Desc(s)[..n], Desc(s)[n..];
    AheadAfterFetch(c, w);
    assert p + rest == Desc(s);
    assert Apply(c, w, Fetch).returned == w.returned + p;
    Regroup(w.returned, p, rest);
  }

  lemma {:induction false} StaticSplits(c: Setting, w: Walk, steps: seq<Step>)
    requires 0 < c.limit && ValidRun(c, w, steps) && forall a | a in steps :: a == Fetch
    ensures Exec(c, w, steps).table == w.table
    ensures Exec(c, w, steps).returned + Ahead(c, Exec(c, w, steps)) == w.returned + Ahead(c, w)
    decreases |steps|
  {
    if steps != [] {
      assert steps[0] in steps && forall a | a in steps[1..] :: a in steps;
      FetchSplits(c, w);
      StaticSplits(c, Apply(c, w, Fetch), steps[1..]);
    }
  }

  lemma NothingLeft(returned: seq<Key>, ahead: seq<Key>, all: seq<Key>)
    requires ahead == [] && returned + ahead == [] + all
    ensures returned == all
  {
    assert returned + [] == returned && [] + all == all;
  }

  lemma StaticReturned(c: Setting, t: Table, steps: seq<Step>)
    requires 0 < c.limit && ValidRun(c, Start(t), steps) && forall a | a in steps :: a == Fetch
    requires Exec(c, Start(t), steps).done
    ensures Exec(c, Start(t), steps).returned == Desc(Selected(t, c.filter, None))
  {
    StaticSplits(c, Start(t), steps);
    var w := Exec(c, Start(t), steps);
    NothingLeft(w.returned, Ahead(c, w), Desc(Selected(t, c.filter, None)));
  }

  /** On a table nobody changes, the concatenated pages are exactly the filtered rows, later
      before earlier and at one time the greater id first, whatever the page size. */
  lemma StaticWalkIsTheOrdering(c: Setting, t: Table, steps: seq<Step>, q: seq<Key>)
    requires 0 < c.limit && ValidRun(c, Start(t), steps) && forall a | a in steps :: a == Fetch
    requires Exec(c, Start(t), steps).done && q == Exec(c, Start(t), steps).returned
    ensures q == Desc(Selected(t, c.filter, None))
    ensures forall k :: k in q <==> k in Selected(t, c.filter, None)
    ensures forall i, j | 0 <= i < j < |q| :: q[j].at < q[i].at || (q[j].at == q[i].at && q[j].id < q[i].id)
  {
    StaticReturned(c, t, steps);
    DescExactly(Selected(t, c.filter, None));
  }

  lemma TimesOneMore(n: int, limit: nat)
    ensures (n + 1) * limit == n * limit + limit
  {
  }

  /** How many pages are read when so many rows are ahead. The API learns from a page that
      it is the last; the schema target only from one that is empty. */
  function PagesAhead(limit: nat, api: bool, rows: nat): (n: nat)
    requires 0 < limit
    ensures 1 <= n
    ensures api ==> (n - 1) * limit <= rows <= n * limit && (1 < n ==> (n - 1) * limit < rows)
    ensures !api ==> rows <= (n - 1) * limit && (1 < n ==> (n - 2) * limit < rows)
    decreases rows
  {
    if rows == 0 || (api && rows <= limit) then 1
    else
      var rest := PagesAhead(limit, api, if rows <= limit then 0 else rows - limit);
      TimesOneMore(rest, limit);
      TimesOneMore(rest - 1, limit);
      TimesOneMore(rest - 2, limit);
      1 + rest
  }

  function Fetches(n: nat): (steps: seq<Step>)
    ensures |steps| == n && forall a | a in steps :: a == Fetch
  {
    seq(n, i => Fetch)
  }

  function PagesLeft(c: Setting, done: bool, rows: nat): nat
    requires 0 < c.limit
  {
    if done then 0 else PagesAhead(c.limit, c.api, rows)
  }

  /** Each page read leaves one page fewer to read. */
  lemma OnePageLess(c: Setting, w: Walk)
    requires 0 < c.limit && !w.done
    ensures var w' := Apply(c, w, Fetch);
      PagesLeft(c, w.done, |Ahead(c, w)|) == 1 + PagesLeft(c, w'.done, |Ahead(c, w')|)
  {
    AheadAfterFetch(c, w);
  }

  lemma FirstFetch(c: Setting, w: Walk, k: nat)
    requires 0 < k && !w.done
    ensures ValidRun(c, w, Fetches(k)) <==> ValidRun(c, Apply(c, w, Fetch), Fetches(k - 1))
    ensures ValidRun(c, w, Fetches(k)) ==> Exec(c, w, Fetches(k)) == Exec(c, Apply(c, w, Fetch), Fetches(k - 1))
  {
    assert Fetches(k)[0] == Fetch && Fetches(k)[1..] == Fetches(k - 1);
  }

  /** On a table that stands still, exactly so many fetches are possible, and then the walk
      is done. */
  lemma {:induction false} WalkLength(c: Setting, w: Walk, k: nat)
    requires 0 < c.limit
    ensures var n := PagesLeft(c, w.done, |Ahead(c, w)|);
      && (ValidRun(c, w, Fetches(k)) <==> k <= n)
      && (k <= n ==> (Exec(c, w, Fetches(k)).done <==> k == n))
    decreases k
  {
    if k == 0 {
      assert Fetches(k) == [];
    } else if w.done {
      assert Fetches(k)[0] == Fetch;
    } else {
      OnePageLess(c, w);
      FirstFetch(c, w, k);
      WalkLength(c, Apply(c, w, Fetch), k - 1);
    }
  }

  /** Every walk over a table that stands still ends, after this many pages: the least
      number that holds the rows, and for the schema target one empty page more. What it
      returned is then the whole ordering. */
  lemma StaticWalkEnds(c: Setting, t: Table)
    requires 0 < c.limit
    ensures var n := PagesAhead(c.limit, c.api, |Selected(t, c.filter, None)|);
      && (forall k: nat :: ValidRun(c, Start(t), Fetches(k)) <==> k <= n)
      && (forall k: nat | k <= n :: Exec(c, Start(t), Fetches(k)).done <==> k == n)
      && Exec(c, Start(t), Fetches(n)).returned == Desc(Selected(t, c.filter, None))
  {
    var n := PagesAhead(c.limit, c.api, |Selected(t, c.filter, None)|);
    forall k: nat
      ensures ValidRun(c, Start(t), Fetches(k)) <==> k <= n
      ensures k <= n ==> (Exec(c, Start(t), Fetches(k)).done <==> k == n)
    {
      WalkLength(c, Start(t), k);
    }
    StaticReturned(c, t, Fetches(n));
  }

  // ---- an edit that comes late ----

  const EVERYTHING := Filter(0, "", None, None, false)

  function PlainRow(at: int): Row {
    Row(at, 0, "", None, None, {})
  }

  lemma FirstOfTwo(api: bool)
    ensures var t := map[1 := PlainRow(10), 2 := PlainRow(5)];
      Page(t, EVERYTHING, None, 1) == [Key(10, 1)]
      && NextCursor(t, EVERYTHING, None, 1, api) == Some(Key(10, 1))
  {
    var t := map[1 := PlainRow(10), 2 := PlainRow(5)];
    var s := Selected(t, EVERYTHING, None);
    assert Matches(EVERYTHING, PlainRow(10)) && Matches(EVERYTHING, PlainRow(5));
    assert t[1].at == 10 && t[2].at == 5;
    assert Key(t[1].at, 1) in s && Key(t[2].at, 2) in s;
    assert s == {Key(10, 1), Key(5, 2)};
    assert |s| == 2 && Greatest(s) == Key(10, 1);
    assert Desc(s)[0] == Key(10, 1);
  }

  /** A walk that returns a row twice, on either kind of target: the product's own late edit
      is enough. */
  lemma LateEditReturnsTwice(api: bool) returns (t: Table, steps: seq<Step>)
    ensures ValidRun(Setting(EVERYTHING, 1, api), Start(t), steps)
    ensures var q := Exec(Setting(EVERYTHING, 1, api), Start(t), steps).returned;
      exists i, j :: 0 <= i < j < |q| && q[i].id == q[j].id
  {
    var c := Setting(EVERYTHING, 1, api);
    t := map[1 := PlainRow(10), 2 := PlainRow(5)];
    FirstOfTwo(api);
    var w1 := Apply(c, Start(t), Fetch);
    assert w1.returned == [Key(10, 1)] && w1.cursor == Some(Key(10, 1)) && !w1.done;
    var w2 := Apply(c, w1, Update(1, PlainRow(4)));
    assert ToCome(c, w2, 1);
    var n := PagesLeft(c, w2.done, |Ahead(c, w2)|);
    WalkLength(c, w2, n);
    ReturnedFromHere(c, w2, Fetches(n), 1);
    steps := [Fetch] + ([Update(1, PlainRow(4))] + Fetches(n));
    Prepend(c, w1, Update(1, PlainRow(4)), Fetches(n));
    Prepend(c, Start(t), Fetch, [Update(1, PlainRow(4))] + Fetches(n));
    var q := Exec(c, w2, Fetches(n)).returned;
    var k :| k in q[1..] && k.id == 1;
    var j :| 1 <= j < |q| && q[j] == k;
    assert q[0].id == q[j].id;
  }

  lemma Prepend(c: Setting, w: Walk, a: Step, rest: seq<Step>)
    requires Enabled(w, a) && ValidRun(c, Apply(c, w, a), rest)
    ensures ValidRun(c, w, [a] + rest) && Exec(c, w, [a] + rest) == Exec(c, Apply(c, w, a), rest)
  {
    assert ([a] + rest)[1..] == rest;
  }

  // ---- the two deep cursors ----

  /** The listing of the API: the store is asked for one row more than the page, and
      whether it came says whether there is a next cursor. */
  method ListPage(t: Table, f: Filter, cursor: Option<Key>, limit: nat) returns (rows: seq<Key>, next: Option<Key>)
    ensures rows == Page(t, f, cursor, limit)
    ensures next == NextCursor(t, f, cursor, limit, true)
  {
    rows := Page(t, f, cursor, limit + 1);
    var hasMore := |rows| > limit;
    if hasMore {
      rows := rows[..limit];
    }
    next := None;
    if hasMore && |rows| > 0 {
      next := Some(rows[|rows| - 1]);
    }
  }

  /** How many pages the deep walk keeps the cursor of: as many as reach the target, but
      never the last page, whose answer carries no cursor. */
  function DeepPages(total: nat, target: nat, size: nat): nat
    requires 0 < size
  {
    Min((target + size - 1) / size, if total == 0 then 0 else (total - 1) / size)
  }

  function DeepCursor(ordered: seq<Key>, target: nat, size: nat): Option<Key>
    requires 0 < size
  {
    var p := DeepPages(|ordered|, target, size);
    if p == 0 || p * size > |ordered| then None else Some(ordered[p * size - 1])
  }

  /** After p full pages, what is selected is everything but the first p pages. */
  lemma PagePosition(t: Table, f: Filter, n: nat)
    requires 0 < n <= |Selected(t, f, None)|
    ensures Desc(Selected(t, f, Some(Desc(Selected(t, f, None))[n - 1]))) == Desc(Selected(t, f, None))[n..]
  {
    var s := Selected(t, f, None);
    DescTail(s, n);
    SelectedPast(t, f, None, Desc(s)[n - 1]);
  }

  /** The walk stops after p pages because the target is reached or the next page is the last. */
  lemma WalkEnds(total: nat, target: nat, p: nat)
    requires p == 0 || (100 * p < total && 100 * (p - 1) < target)
    requires target <= 100 * p || total <= 100 * p + 100
    ensures DeepPages(total, target, 100) == p
  {
  }

  lemma NextOf(t: Table, f: Filter, cursor: Option<Key>, limit: nat, rest: seq<Key>)
    requires 0 < limit && Desc(Selected(t, f, cursor)) == rest
    ensures |Page(t, f, cursor, limit)| == Min(limit, |rest|)
    ensures NextCursor(t, f, cursor, limit, true) == if |rest| <= limit then None else Some(rest[limit - 1])
  {
  }

  /** One page of the walk, after seen rows. */
  lemma DeepStep(t: Table, f: Filter, cursor: Option<Key>, seen: nat)
    requires var all := Desc(Selected(t, f, None));
      if seen == 0 then cursor == None else seen < |all| && cursor == Some(all[seen - 1])
    ensures var all := Desc(Selected(t, f, None));
      && |Page(t, f, cursor, 100)| == Min(100, |all| - seen)
      && NextCursor(t, f, cursor, 100, true) == if |all| - seen <= 100 then None else Some(all[seen + 99])
  {
    var all := Desc(Selected(t, f, None));
    if seen > 0 {
      PagePosition(t, f, seen);
    }
    NextOf(t, f, cursor, 100, all[seen..]);
  }

  /** harness/http.go findDeepCursor on a table that stands still: it ends at the last row
      of the page that reaches the target, or of the last page that handed on a cursor. */
  method FindDeepCursor(t: Table, f: Filter, target: nat) returns (cursor: Option<Key>)
    ensures cursor == DeepCursor(Desc(Selected(t, f, None)), target, 100)
  {
    ghost var all := Desc(Selected(t, f, None));
    ghost var p: nat := 0;
    cursor := None;
    var seen := 0;
    while seen < target
      invariant seen == 100 * p && (seen == 0 || seen < |all|)
      invariant cursor == if p == 0 then None else Some(all[seen - 1])
      invariant p == 0 || 100 * (p - 1) < target
      decreases if target > seen then target - seen else 0
    {
      DeepStep(t, f, cursor, seen);
      var rows, next := ListPage(t, f, cursor, 100);
      seen := seen + |rows|;
      if next == None {
        break;
      }
      cursor := next;
      p := p + 1;
    }
    WalkEnds(|all|, target, p);
  }

  /** Walked over n rows, the deep cursor is None for at most a page of rows, and otherwise
      has at least n/2 and fewer than n/2 + 100 rows at or above it. */
  lemma DeepCursorIsMidway(t: Table, f: Filter, n: nat)
    requires n == |Selected(t, f, None)|
    ensures var d := DeepCursor(Desc(Selected(t, f, None)), n / 2, 100);
      && (d.None? <==> n <= 100)
      && (d.Some? ==> n / 2 <= n - |Selected(t, f, d)| < n / 2 + 100)
  {
    var p := DeepPages(n, n / 2, 100);
    DeepPagesOf(n);
    if n > 100 {
      RowsBeyond(t, f, 100 * p);
    }
  }

  lemma DeepPagesOf(n: nat)
    ensures var p := DeepPages(n, n / 2, 100);
      && (p == 0 <==> n <= 100)
      && (p > 0 ==> n / 2 <= 100 * p < n / 2 + 100 && 100 * p <= n)
  {
  }

  lemma RowsBeyond(t: Table, f: Filter, n: nat)
    requires 0 < n <= |Selected(t, f, None)|
    ensures |Selected(t, f, Some(Desc(Selected(t, f, None))[n - 1]))| == |Selected(t, f, None)| - n
  {
    PagePosition(t, f, n);
  }

  const BASE_TIME: int := 1_767_225_600_000

  /** The generated monitors: one per second, in order of creation. */
  ghost predicate IsWorkload(t: Table, ids: seq<Id>, org: nat) {
    && (forall i, j | 0 <= i < j < |ids| :: ids[i] != ids[j])
    && (forall id :: id in t <==> id in ids)
    && (forall i | 0 <= i < |ids| :: t[ids[i]].org == org && t[ids[i]].at == BASE_TIME + 1000 * i)
  }

  ghost function FirstKeys(ids: seq<Id>, n: nat): set<Key>
    requires n <= |ids|
  {
    set i | 0 <= i < n :: Key(BASE_TIME + 1000 * i, ids[i])
  }

  lemma {:induction false} FirstKeysCount(ids: seq<Id>, n: nat)
    requires n <= |ids|
    ensures |FirstKeys(ids, n)| == n
  {
    if n > 0 {
      FirstKeysCount(ids, n - 1);
      var k := Key(BASE_TIME + 1000 * (n - 1), ids[n - 1]);
      assert FirstKeys(ids, n) == FirstKeys(ids, n - 1) + {k};
      assert k !in FirstKeys(ids, n - 1);
    } else {
      assert FirstKeys(ids, 0) == {};
    }
  }

  /** The schema target's cursor, the middle monitor, has exactly n/2 rows below it. */
  lemma MidpointCursor(t: Table, ids: seq<Id>, org: nat)
    requires 0 < |ids| && IsWorkload(t, ids, org)
    ensures var mid := |ids| / 2;
      |Selected(t, Filter(org, "", None, None, false), Some(Key(t[ids[mid]].at, ids[mid])))| == mid
  {
    var mid := |ids| / 2;
    var s := Selected(t, Filter(org, "", None, None, false), Some(Key(t[ids[mid]].at, ids[mid])));
    forall k ensures k in s <==> k in FirstKeys(ids, mid) {
      BelowTheMiddle(t, ids, org, mid, k);
    }
    assert s == FirstKeys(ids, mid);
    FirstKeysCount(ids, mid);
  }

  lemma BelowTheMiddle(t: Table, ids: seq<Id>, org: nat, mid: nat, k: Key)
    requires mid < |ids| && IsWorkload(t, ids, org)
    ensures k in Selected(t, Filter(org, "", None, None, false), Some(Key(t[ids[mid]].at, ids[mid]))) <==> k in FirstKeys(ids, mid)
  {
    if k in Selected(t, Filter(org, "", None, None, false), Some(Key(t[ids[mid]].at, ids[mid]))) {
      var i :| 0 <= i < |ids| && ids[i] == k.id;
      assert k == Key(BASE_TIME + 1000 * i, ids[i]);
    }
    if k in FirstKeys(ids, mid) {
      var i :| 0 <= i < mid && k == Key(BASE_TIME + 1000 * i, ids[i]);
      assert ids[i] in t;
    }
  }
}
