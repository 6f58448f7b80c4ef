/** The change signal of a filtered view: the schema target's maximum version and count,
    and the sum the product's store returns. A client compares two signals and takes
    equality to mean that its view has not changed. */
module Membership {
  import opened Basics

  type Id = nat

  /** A monitor's group, with the group that one is in. */
  datatype Group = Group(id: nat, parent: Option<nat>)

  /** A monitor's state row, with what a filter or a reader can see of the monitor. */
  datatype Row = Row(org: nat, group: Option<Group>, status: string, tags: set<nat>, content: string, version: nat, at: int)

  type Table = map<Id, Row>

  /** `both` says whether tag and status combine, as in the product, or the tag wins over
      the status, as in the schema target. Only the product filters by group. */
  datatype Filter = Filter(org: nat, group: Option<nat>, tag: Option<nat>, status: string, both: bool)

  /** A group holds its own monitors and those of the groups in it. */
  predicate InGroup(g: Option<Group>, want: nat) {
    g.Some? && (g.value.id == want || g.value.parent == Some(want))
  }

  predicate Matches(f: Filter, r: Row) {
    && r.org == f.org
    && (f.both && f.group.Some? ==> InGroup(r.group, f.group.value))
    && (f.tag.Some? ==> f.tag.value in r.tags)
    && ((f.tag.None? || f.both) && f.status != "" ==> r.status == f.status)
  }

  function View(t: Table, f: Filter): Table {
    map id | id in t && Matches(f, t[id]) :: t[id]
  }

  /** COALESCE(MAX(state_version), 0). */
  ghost function MaxVersion(v: Table): (m: nat)
    ensures forall id | id in v :: v[id].version <= m
    ensures v != map[] ==> exists id :: id in v && v[id].version == m
    ensures v == map[] ==> m == 0
    decreases |v|
  {
    if v == map[] then 0
    else
      var id :| id in v;
      var rest := v - {id};
      var m := MaxVersion(rest);
      assert forall j | j in v :: j == id || (j in rest && rest[j] == v[j]);
      if v[id].version >= m || rest == map[] then v[id].version
      else
        assert exists j :: j in rest && rest[j].version == m;
        m
  }

  datatype Signal = Signal(version: int, count: nat)

  ghost function MaxSignal(t: Table, f: Filter): Signal {
    Signal(MaxVersion(View(t, f)), |View(t, f)|)
  }

  /** What the schema target's query answers, said of the rows: the tag decides whom it
      counts if it is set, else the status, else the organisation alone. */
  lemma SchemaSignal(t: Table, f: Filter, ids: set<Id>)
    requires !f.both
    requires forall id :: id in ids <==>
      id in t && t[id].org == f.org && if f.tag.Some? then f.tag.value in t[id].tags else f.status == "" || t[id].status == f.status
    ensures View(t, f).Keys == ids && forall id | id in ids :: View(t, f)[id] == t[id]
    ensures MaxSignal(t, f).count == |ids|
    ensures ids == {} ==> MaxSignal(t, f).version == 0
    ensures forall id | id in ids :: t[id].version <= MaxSignal(t, f).version
    ensures ids != {} ==> exists id :: id in ids && t[id].version == MaxSignal(t, f).version
  {
    var v := View(t, f);
    assert v.Keys == ids && |v| == |v.Keys|;
    if ids != {} {
      assert v != map[];
      var id :| id in v && v[id].version == MaxVersion(v);
      assert id in ids;
    }
  }

  // ---- stamping: every write takes a version above all earlier ones ----

  datatype Write = Put(id: Id, row: Row) | Remove(id: Id)

  predicate Stamped(clock: nat, w: Write) {
    w.Put? ==> clock < w.row.version
  }

  function ApplyWrite(t: Table, w: Write): Table {
    match w
    case Put(id, row) => t[id := row]
    case Remove(id) => t - {id}
  }

  function Tick(clock: nat, w: Write): nat {
    if w.Put? && clock < w.row.version then w.row.version else clock
  }

  predicate StampedRun(clock: nat, ws: seq<Write>)
    decreases |ws|
  {
    ws == [] || (Stamped(clock, ws[0]) && StampedRun(Tick(clock, ws[0]), ws[1..]))
  }

  function Run(t: Table, ws: seq<Write>): Table
    decreases |ws|
  {
    if ws == [] then t else Run(ApplyWrite(t, ws[0]), ws[1..])
  }

  /** Every version put is above the clock and above all that were put before it. */
  lemma {:induction false} StampedExactly(clock: nat, ws: seq<Write>)
    ensures StampedRun(clock, ws) <==>
      && (forall k | 0 <= k < |ws| && ws[k].Put? :: clock < ws[k].row.version)
      && (forall j, k | 0 <= j < k < |ws| && ws[j].Put? && ws[k].Put? :: ws[j].row.version < ws[k].row.version)
    decreases |ws|
  {
    if ws != [] {
      var rest, next := ws[1..], Tick(clock, ws[0]);
      StampedExactly(next, rest);
      assert forall k | 0 < k < |ws| :: ws[k] == rest[k - 1];
      assert forall k | 0 <= k < |rest| :: rest[k] == ws[k + 1];
    }
  }

  lemma {:induction false} UnwrittenStands(t: Table, ws: seq<Write>, id: Id)
    requires forall w | w in ws :: w.id != id
    ensures (id in Run(t, ws) <==> id in t) && (id in t ==> Run(t, ws)[id] == t[id])
    decreases |ws|
  {
    if ws != [] {
      UnwrittenStands(ApplyWrite(t, ws[0]), ws[1..], id);
    }
  }

  /** After a run a monitor is as its last write left it. */
  lemma {:induction false} LastWriteStands(t: Table, ws: seq<Write>, k: nat)
    requires k < |ws| && forall w | w in ws[k + 1..] :: w.id != ws[k].id
    ensures ws[k].id in Run(t, ws) <==> ws[k].Put?
    ensures ws[k].Put? ==> Run(t, ws)[ws[k].id] == ws[k].row
    decreases k
  {
    if k == 0 {
      UnwrittenStands(ApplyWrite(t, ws[0]), ws[1..], ws[0].id);
    } else {
      assert ws[1..][k..] == ws[k + 1..] && ws[1..][k - 1] == ws[k];
      LastWriteStands(ApplyWrite(t, ws[0]), ws[1..], k - 1);
    }
  }

  /** A row whose version is no newer than a past clock has not changed since. */
  lemma {:induction false} OldRowsAreUnchanged(t0: Table, c0: nat, t: Table, clock: nat, ws: seq<Write>)
    requires c0 <= clock && StampedRun(clock, ws)
    requires forall id | id in t && t[id].version <= c0 :: id in t0 && t0[id] == t[id]
    ensures var t1 := Run(t, ws); forall id | id in t1 && t1[id].version <= c0 :: id in t0 && t0[id] == t1[id]
    decreases |ws|
  {
    if ws != [] {
      OldRowsAreUnchanged(t0, c0, ApplyWrite(t, ws[0]), Tick(clock, ws[0]), ws[1..]);
    }
  }

  lemma SubmapOfSameSize(a: Table, b: Table)
    requires (forall id | id in a :: id in b && b[id] == a[id]) && |a| == |b|
    ensures a == b
  {
    assert a.Keys <= b.Keys && |a.Keys| == |a| && |b.Keys| == |b|;
    forall id | id in b ensures id in a {
      if id !in a {
        SubsetSize(a.Keys, b.Keys - {id});
        assert false;
      }
    }
  }

  lemma SubsetSize(a: set<Id>, b: set<Id>)
    requires a <= b
    ensures |a| <= |b|
    decreases a
  {
    if x :| x in a {
      SubsetSize(a - {x}, b - {x});
    }
  }

  /** With stamped writes the maximum and the count are a sound signal, for every filter:
      equal signals at two moments mean the very same rows. */
  lemma MaxSignalIsSound(t: Table, clock: nat, ws: seq<Write>, f: Filter)
    requires StampedRun(clock, ws) && forall id | id in t :: t[id].version <= clock
    requires MaxSignal(t, f) == MaxSignal(Run(t, ws), f)
    ensures View(t, f) == View(Run(t, ws), f)
  {
    OldRowsAreUnchanged(t, clock, t, clock, ws);
    var v0, v1 := View(t, f), View(Run(t, ws), f);
    if v1 == map[] {
      assert |v0| == 0;
    } else {
      assert v0 != map[];
      assert MaxVersion(v0) <= clock;
      forall id | id in v1 ensures id in v0 && v0[id] == v1[id] {
      }
      SubmapOfSameSize(v1, v0);
    }
  }

  // ---- the product's writes: each row counts its own, and not every write counts ----

  /** Save is a check result, which leaves updated_at alone. Edit is a configuration edit; its
      time was taken when the request began, so it may be earlier than the row's. Create
      starts at version zero and never reuses an id. The others leave version and time alone:
      Retag replaces a monitor's tags, DropTag takes a tag off every monitor, DropGroup
      deletes a group, MoveGroup puts one into another or into none, and Reassign changes
      what else monitors show, such as their channels. One change writes one stamp: a
      maintenance sweep is as many changes as it stamps rows. */
  datatype Change =
    | Create(id: Id, row: Row)
    | Save(id: Id, row: Row)
    | Edit(id: Id, row: Row)
    | Delete(id: Id)
    | Retag(id: Id, tags: set<nat>)
    | DropTag(tag: nat)
    | DropGroup(group: nat)
    | MoveGroup(group: nat, parent: Option<nat>)
    | Reassign(contents: map<Id, string>)

  datatype Store = Store(table: Table, used: set<Id>)

  const EMPTY := Store(map[], {})

  predicate Unstamped(c: Change) {
    !c.Create? && !c.Save? && !c.Edit? && !c.Delete?
  }

  /** What Save and Edit do to the version, and what they leave alone. */
  predicate Stamps(was: Row, row: Row) {
    row.version == was.version + 1 && row.org == was.org && row.tags == was.tags
  }

  /** Monitors of one group agree on the group it is in. */
  ghost predicate GroupsAgree(t: Table) {
    forall i, j | i in t && j in t && t[i].group.Some? && t[j].group.Some? && t[i].group.value.id == t[j].group.value.id ::
      t[i].group == t[j].group
  }

  ghost predicate Sound(s: Store) {
    s.table.Keys <= s.used && GroupsAgree(s.table)
  }

  ghost predicate Allowed(s: Store, c: Change) {
    match c
    case Create(id, row) => id !in s.used && row.version == 0 && GroupsAgree(s.table[id := row])
    case Save(id, row) =>
      id in s.table && Stamps(s.table[id], row) && row.at == s.table[id].at && row.group == s.table[id].group
    case Edit(id, row) => id in s.table && Stamps(s.table[id], row) && GroupsAgree(s.table[id := row])
    case Delete(id) => id in s.table
    case Retag(id, _) => id in s.table
    case DropTag(_) => true
    case DropGroup(_) => true
    case MoveGroup(_, _) => true
    case Reassign(contents) => contents.Keys <= s.table.Keys
  }

  /** What a change without a stamp makes of one row. */
  function Redone(c: Change, id: Id, r: Row): Row {
    match c
    case Retag(i, tags) => if id == i then r.(tags := tags) else r
    case DropTag(tag) => r.(tags := r.tags - {tag})
    case DropGroup(g) =>
      if r.group.None? then r
      else if r.group.value.id == g then r.(group := None)
      else if r.group.value.parent == Some(g) then r.(group := Some(Group(r.group.value.id, None)))
      else r
    case MoveGroup(g, parent) => if r.group.Some? && r.group.value.id == g then r.(group := Some(Group(g, parent))) else r
    case Reassign(contents) => if id in contents then r.(content := contents[id]) else r
    case _ => r
  }

  function ApplyChange(s: Store, c: Change): Store {
    match c
    case Create(id, row) => Store(s.table[id := row], s.used + {id})
    case Save(id, row) => s.(table := s.table[id := row])
    case Edit(id, row) => s.(table := s.table[id := row])
    case Delete(id) => s.(table := s.table - {id})
    case _ => s.(table := map id | id in s.table :: Redone(c, id, s.table[id]))
  }

  ghost predicate ProductRun(s: Store, cs: seq<Change>)
    decreases |cs|
  {
    cs == [] || (Allowed(s, cs[0]) && ProductRun(ApplyChange(s, cs[0]), cs[1..]))
  }

  function After(s: Store, cs: seq<Change>): Store
    decreases |cs|
  {
    if cs == [] then s else After(ApplyChange(s, cs[0]), cs[1..])
  }

  ghost function SumVersions(v: Table, ids: set<Id>): nat
    requires ids <= v.Keys
    decreases ids
  {
    if ids == {} then 0 else var id :| id in ids; v[id].version + SumVersions(v, ids - {id})
  }

  /** COALESCE(MAX(updated_at), 0), for times after the epoch. */
  ghost function MaxAt(v: Table): (m: int)
    ensures forall id | id in v :: v[id].at <= m
    ensures v != map[] ==> exists id :: id in v && v[id].at == m
    ensures v == map[] ==> m == 0
    decreases |v|
  {
    if v == map[] then 0
    else
      var id :| id in v;
      var rest := v - {id};
      var m := MaxAt(rest);
      assert forall j | j in v :: j == id || (j in rest && rest[j] == v[j]);
      if v[id].at >= m || rest == map[] then v[id].at
      else
        assert exists j :: j in rest && rest[j].at == m;
        m
  }

  /** The store's signal: the versions of the members summed, plus their latest edit. */
  ghost function SumSignal(t: Table, f: Filter): Signal {
    SignalOf(View(t, f))
  }

  ghost function SignalOf(v: Table): Signal {
    Signal(SumVersions(v, v.Keys) + MaxAt(v), |v|)
  }

  /** What the store's query answers, said of the rows: all filters apply, a group counts its
      own monitors and those of the groups in it, and the versions of all it counts are
      summed, plus the latest edit among them. */
  lemma ProductSignal(t: Table, f: Filter, ids: set<Id>) returns (latest: int)
    requires f.both
    requires forall id :: id in ids <==>
      && id in t && t[id].org == f.org
      && (f.tag.None? || f.tag.value in t[id].tags) && (f.status == "" || t[id].status == f.status)
      && (f.group.None? || (t[id].group.Some? && (t[id].group.value.id == f.group.value || t[id].group.value.parent == f.group)))
    ensures View(t, f).Keys == ids && forall id | id in ids :: View(t, f)[id] == t[id]
    ensures SumSignal(t, f).count == |ids|
    ensures SumSignal(t, f).version == SumVersions(t, ids) + latest
    ensures ids == {} ==> latest == 0
    ensures forall id | id in ids :: t[id].at <= latest
    ensures ids != {} ==> exists id :: id in ids && t[id].at == latest
  {
    var v := View(t, f);
    assert v.Keys == ids && |v| == |v.Keys|;
    SameVersionsSameSum(v, t, ids);
    latest := MaxAt(v);
    if ids != {} {
      assert v != map[];
      var id :| id in v && v[id].at == MaxAt(v);
      assert id in ids;
    } else {
      assert v == map[];
    }
  }

  /** A row's version only grows, and its stamp stands still when its version does. */
  predicate Forward(a: Row, b: Row) {
    a.version <= b.version && a.org == b.org && (a.version == b.version ==> SameStamp(a, b))
  }

  /** Nothing but what no version counts differs. */
  predicate SameStamp(a: Row, b: Row) {
    a.(tags := b.tags, content := b.content, group := b.group) == b
  }

  /** No id of t0 is ever given out again, and what is left of t0 moved forward. */
  lemma {:induction false} RowsMoveForward(t0: Table, s: Store, cs: seq<Change>)
    requires ProductRun(s, cs) && s.table.Keys <= s.used && t0.Keys <= s.used
    requires forall id | id in s.table && id in t0 :: Forward(t0[id], s.table[id])
    ensures var t := After(s, cs).table; forall id | id in t && id in t0 :: Forward(t0[id], t[id])
    decreases |cs|
  {
    if cs != [] {
      RowsMoveForward(t0, ApplyChange(s, cs[0]), cs[1..]);
    }
  }

  /** The edit carries no time before the row's. */
  predicate Timely(s: Store, c: Change) {
    c.Edit? && c.id in s.table ==> s.table[c.id].at <= c.row.at
  }

  predicate TimelyRun(s: Store, cs: seq<Change>)
    decreases |cs|
  {
    cs == [] || (Timely(s, cs[0]) && TimelyRun(ApplyChange(s, cs[0]), cs[1..]))
  }

  lemma {:induction false} TimesMoveForward(t0: Table, s: Store, cs: seq<Change>)
    requires ProductRun(s, cs) && TimelyRun(s, cs) && s.table.Keys <= s.used && t0.Keys <= s.used
    requires forall id | id in s.table && id in t0 :: t0[id].at <= s.table[id].at
    ensures var t := After(s, cs).table; forall id | id in t && id in t0 :: t0[id].at <= t[id].at
    decreases |cs|
  {
    if cs != [] {
      TimesMoveForward(t0, ApplyChange(s, cs[0]), cs[1..]);
    }
  }

  lemma {:induction false} SumsCompare(a: Table, b: Table, ids: set<Id>)
    requires ids <= a.Keys && ids <= b.Keys && forall id | id in ids :: a[id].version <= b[id].version
    ensures SumVersions(a, ids) <= SumVersions(b, ids)
    ensures SumVersions(a, ids) == SumVersions(b, ids) ==> forall id | id in ids :: a[id].version == b[id].version
    decreases ids
  {
    if ids != {} {
      var id :| id in ids && SumVersions(a, ids) == a[id].version + SumVersions(a, ids - {id});
      SumSplit(b, ids, id);
      SumsCompare(a, b, ids - {id});
    }
  }

  /** Any member may be taken out of the sum first. */
  lemma {:induction false} SumSplit(v: Table, ids: set<Id>, id: Id)
    requires ids <= v.Keys && id in ids
    ensures SumVersions(v, ids) == v[id].version + SumVersions(v, ids - {id})
    decreases ids
  {
    var x :| x in ids && SumVersions(v, ids) == v[x].version + SumVersions(v, ids - {x});
    if x != id {
      SumSplit(v, ids - {x}, id);
      SumSplit(v, ids - {id}, x);
      assert ids - {x} - {id} == ids - {id} - {x};
    }
  }

  /** While the same monitors are in the view and no edit comes late, the store's signal
      stands still exactly when none of them was stamped. */
  lemma SumSignalOnFixedMembers(s: Store, cs: seq<Change>, f: Filter)
    requires s.table.Keys <= s.used && ProductRun(s, cs) && TimelyRun(s, cs)
    requires View(s.table, f).Keys == View(After(s, cs).table, f).Keys
    ensures var v0, v1 := View(s.table, f), View(After(s, cs).table, f);
      SumSignal(s.table, f) == SumSignal(After(s, cs).table, f) <==> forall id | id in v0 :: SameStamp(v0[id], v1[id])
  {
    RowsMoveForward(s.table, s, cs);
    TimesMoveForward(s.table, s, cs);
    var v0, v1 := View(s.table, f), View(After(s, cs).table, f);
    assert forall id | id in v0 :: Forward(v0[id], v1[id]) && v0[id].at <= v1[id].at;
    SignalsOfForward(v0, v1);
  }

  lemma SignalsOfForward(v0: Table, v1: Table)
    requires v0.Keys == v1.Keys && forall id | id in v0 :: Forward(v0[id], v1[id]) && v0[id].at <= v1[id].at
    ensures SignalOf(v0) == SignalOf(v1) <==> forall id | id in v0 :: SameStamp(v0[id], v1[id])
  {
    SumsCompare(v0, v1, v0.Keys);
    assert MaxAt(v0) <= MaxAt(v1);
    assert |v0| == |v0.Keys| && |v1| == |v1.Keys|;
    if forall id | id in v0 :: SameStamp(v0[id], v1[id]) {
      SumsCompare(v1, v0, v0.Keys);
    }
  }

  // ---- what a client that filters by nothing may conclude ----

  predicate Unfiltered(f: Filter) {
    f.group.None? && f.tag.None? && f.status == ""
  }

  predicate KeepsMonitors(c: Change) {
    !c.Create? && !c.Delete?
  }

  /** How many of the changes stamp one of these monitors. */
  function StampsOn(cs: seq<Change>, ids: set<Id>): nat
    decreases |cs|
  {
    if cs == [] then 0 else (if (cs[0].Save? || cs[0].Edit?) && cs[0].id in ids then 1 else 0) + StampsOn(cs[1..], ids)
  }

  lemma {:induction false} MonitorsKept(s: Store, cs: seq<Change>, f: Filter)
    requires ProductRun(s, cs) && Unfiltered(f) && forall c | c in cs :: KeepsMonitors(c)
    ensures View(After(s, cs).table, f).Keys == View(s.table, f).Keys
    decreases |cs|
  {
    if cs != [] {
      assert KeepsMonitors(cs[0]) && forall c | c in cs[1..] :: c in cs;
      var s' := ApplyChange(s, cs[0]);
      assert forall id :: id in View(s'.table, f) <==> id in View(s.table, f);
      MonitorsKept(s', cs[1..], f);
    }
  }

  lemma StampAdds(s: Store, c: Change, ids: set<Id>)
    requires Allowed(s, c) && KeepsMonitors(c) && ids <= s.table.Keys
    ensures ids <= ApplyChange(s, c).table.Keys
    ensures SumVersions(ApplyChange(s, c).table, ids) == SumVersions(s.table, ids) + StampsOn([c], ids)
  {
    var t, t' := s.table, ApplyChange(s, c).table;
    assert [c][1..] == [];
    if (c.Save? || c.Edit?) && c.id in ids {
      SumSplit(t, ids, c.id);
      SumSplit(t', ids, c.id);
      SameVersionsSameSum(t, t', ids - {c.id});
    } else {
      SameVersionsSameSum(t, t', ids);
    }
  }

  lemma SameVersionsSameSum(a: Table, b: Table, ids: set<Id>)
    requires ids <= a.Keys && ids <= b.Keys && forall id | id in ids :: a[id].version == b[id].version
    ensures SumVersions(a, ids) == SumVersions(b, ids)
  {
    SumsCompare(a, b, ids);
    SumsCompare(b, a, ids);
  }

  lemma {:induction false} SumCountsStamps(s: Store, cs: seq<Change>, ids: set<Id>)
    requires ProductRun(s, cs) && ids <= s.table.Keys && forall c | c in cs :: KeepsMonitors(c)
    ensures ids <= After(s, cs).table.Keys
    ensures SumVersions(After(s, cs).table, ids) == SumVersions(s.table, ids) + StampsOn(cs, ids)
    decreases |cs|
  {
    if cs != [] {
      assert KeepsMonitors(cs[0]) && forall c | c in cs[1..] :: c in cs;
      StampAdds(s, cs[0], ids);
      assert [cs[0]][1..] == [];
      SumCountsStamps(ApplyChange(s, cs[0]), cs[1..], ids);
    }
  }

  /** Over any run that neither creates nor deletes a monitor, the signal of the unfiltered
      view stands still exactly when its latest time fell by as much as its monitors were
      stamped: with late edits a client can miss any number of stamps. */
  lemma UnfilteredSignalExactly(s: Store, cs: seq<Change>, f: Filter)
    requires ProductRun(s, cs) && Unfiltered(f) && forall c | c in cs :: KeepsMonitors(c)
    ensures var v0, v1 := View(s.table, f), View(After(s, cs).table, f);
      v0.Keys == v1.Keys
      && (SumSignal(s.table, f) == SumSignal(After(s, cs).table, f) <==> StampsOn(cs, v0.Keys) == MaxAt(v0) - MaxAt(v1))
  {
    MonitorsKept(s, cs, f);
    var t1 := After(s, cs).table;
    var v0, v1 := View(s.table, f), View(t1, f);
    SumCountsStamps(s, cs, v0.Keys);
    SameVersionsSameSum(s.table, v0, v0.Keys);
    SameVersionsSameSum(t1, v1, v0.Keys);
    assert |v0| == |v0.Keys| && |v1| == |v1.Keys|;
  }

  /** Hence, while no edit comes late, exactly when no monitor in it was stamped. */
  lemma UnfilteredSignalSeesEveryStamp(s: Store, cs: seq<Change>, f: Filter)
    requires s.table.Keys <= s.used && ProductRun(s, cs) && Unfiltered(f) && forall c | c in cs :: KeepsMonitors(c)
    requires TimelyRun(s, cs)
    ensures SumSignal(s.table, f) == SumSignal(After(s, cs).table, f) <==> StampsOn(cs, View(s.table, f).Keys) == 0
  {
    UnfilteredSignalExactly(s, cs, f);
    TimesMoveForward(s.table, s, cs);
    var v0, v1 := View(s.table, f), View(After(s, cs).table, f);
    assert forall id | id in v0 :: v0[id].at <= v1[id].at;
    assert MaxAt(v0) <= MaxAt(v1);
    if StampsOn(cs, v0.Keys) == 0 {
      NoStampNoTime(s, cs, v0.Keys);
      MaxAtOfSame(v0, v1);
    }
  }

  lemma {:induction false} NoStampNoTime(s: Store, cs: seq<Change>, ids: set<Id>)
    requires ProductRun(s, cs) && ids <= s.table.Keys && StampsOn(cs, ids) == 0 && forall c | c in cs :: KeepsMonitors(c)
    ensures ids <= After(s, cs).table.Keys && forall id | id in ids :: After(s, cs).table[id].at == s.table[id].at
    decreases |cs|
  {
    if cs != [] {
      assert KeepsMonitors(cs[0]) && forall c | c in cs[1..] :: c in cs;
      NoStampNoTime(ApplyChange(s, cs[0]), cs[1..], ids);
    }
  }

  lemma MaxAtOfSame(a: Table, b: Table)
    requires a.Keys == b.Keys && forall id | id in a :: a[id].at == b[id].at
    ensures MaxAt(a) == MaxAt(b)
  {
    if a == map[] {
      assert b == map[];
    } else {
      assert b != map[];
      var i :| i in a && a[i].at == MaxAt(a);
      var j :| j in b && b[j].at == MaxAt(b);
    }
  }

  // ---- one change ----

  lemma ViewOfUpdate(t: Table, f: Filter, id: Id, row: Row)
    ensures View(t[id := row], f) == if Matches(f, row) then View(t, f)[id := row] else View(t, f) - {id}
  {
  }

  lemma CountOfUpdate(v: Table, id: Id, row: Row)
    ensures |v[id := row]| == |v| + if id in v then 0 else 1
    ensures |v - {id}| == |v| - if id in v then 1 else 0
  {
    assert v[id := row].Keys == v.Keys + {id} && (v - {id}).Keys == v.Keys - {id};
    assert |v| == |v.Keys| && |v[id := row]| == |v[id := row].Keys| && |v - {id}| == |(v - {id}).Keys|;
  }

  /** A write that stays in the view raises the sum by what it raises the row's version. */
  lemma SumOfUpdate(v: Table, id: Id, row: Row)
    requires id in v
    ensures v[id := row].Keys == v.Keys
    ensures SumVersions(v[id := row], v.Keys) == SumVersions(v, v.Keys) - v[id].version + row.version
  {
    var v' := v[id := row];
    SumSplit(v, v.Keys, id);
    SumSplit(v', v.Keys, id);
    SameVersionsSameSum(v, v', v.Keys - {id});
  }

  lemma MaxAtOfUpdate(v: Table, id: Id, row: Row)
    requires id in v && v[id].at <= row.at
    ensures MaxAt(v) <= MaxAt(v[id := row])
  {
    var j :| j in v && v[j].at == MaxAt(v);
    assert j in v[id := row];
  }

  /** The one stamp a signal can miss: the monitor stays in the view, and the latest time of
      the view falls by exactly the one that its version rises. */
  ghost predicate CancelsOut(v: Table, id: Id, row: Row) {
    id in v && MaxAt(v[id := row]) == MaxAt(v) - 1
  }

  lemma StampInView(v: Table, id: Id, row: Row)
    requires id in v && row.version == v[id].version + 1
    ensures SignalOf(v[id := row]) != SignalOf(v) <==> !CancelsOut(v, id, row)
  {
    CountOfUpdate(v, id, row);
    SumOfUpdate(v, id, row);
  }

  lemma ComingOrGoing(v: Table, id: Id, row: Row)
    ensures id !in v ==> SignalOf(v[id := row]) != SignalOf(v)
    ensures id in v ==> SignalOf(v - {id}) != SignalOf(v)
  {
    CountOfUpdate(v, id, row);
  }

  lemma RowIsSeen(t: Table, f: Filter, id: Id, row: Row)
    requires id in View(t, f) ==> row.version == View(t, f)[id].version + 1
    ensures SumSignal(t[id := row], f) != SumSignal(t, f) <==>
      View(t[id := row], f) != View(t, f) && !(Matches(f, row) && CancelsOut(View(t, f), id, row))
  {
    var v: Table := View(t, f);
    ViewOfUpdate(t, f, id, row);
    ComingOrGoing(v, id, row);
    if id in v && Matches(f, row) {
      StampInView(v, id, row);
      assert v[id := row][id] != v[id];
    } else if id !in v {
      assert v - {id} == v;
    }
  }

  lemma DeletionIsSeen(t: Table, f: Filter, id: Id)
    requires id in t
    ensures SumSignal(t - {id}, f) != SumSignal(t, f) <==> View(t - {id}, f) != View(t, f)
  {
    var v: Table := View(t, f);
    assert View(t - {id}, f) == v - {id};
    ComingOrGoing(v, id, t[id]);
    assert id !in v ==> v - {id} == v;
  }

  /** A result, an edit, a creation or a deletion moves the signal exactly when it changes
      the view and is not an edit that cancels out. */
  lemma OneChangeIsSeen(s: Store, c: Change, f: Filter)
    requires s.table.Keys <= s.used && Allowed(s, c) && !Unstamped(c)
    ensures SumSignal(ApplyChange(s, c).table, f) != SumSignal(s.table, f) <==>
      View(ApplyChange(s, c).table, f) != View(s.table, f)
      && !(c.Edit? && Matches(f, c.row) && CancelsOut(View(s.table, f), c.id, c.row))
  {
    if c.Delete? {
      DeletionIsSeen(s.table, f, c.id);
    } else {
      var v := View(s.table, f);
      assert c.id in v ==> v[c.id] == s.table[c.id];
      RowIsSeen(s.table, f, c.id, c.row);
      if c.Save? && c.id in v {
        MaxAtOfUpdate(v, c.id, c.row);
      }
    }
  }

  /** A timely edit never cancels out. */
  lemma TimelyIsSeen(s: Store, c: Change, f: Filter)
    requires s.table.Keys <= s.used && Allowed(s, c) && !Unstamped(c) && Timely(s, c)
    ensures SumSignal(ApplyChange(s, c).table, f) != SumSignal(s.table, f) <==> View(ApplyChange(s, c).table, f) != View(s.table, f)
  {
    OneChangeIsSeen(s, c, f);
    var v := View(s.table, f);
    if c.Edit? && c.id in v {
      MaxAtOfUpdate(v, c.id, c.row);
    }
  }

  // ---- changes without a stamp ----

  /** One change lets monitors into the view or out of it, not both. */
  lemma MembersMoveOneWay(s: Store, c: Change, f: Filter)
    requires Sound(s) && Allowed(s, c)
    ensures var v, v' := View(s.table, f), View(ApplyChange(s, c).table, f); v.Keys <= v'.Keys || v'.Keys <= v.Keys
  {
    if c.MoveGroup? {
      GroupMovesOneWay(s, c, f);
    }
  }

  lemma GroupMovesOneWay(s: Store, c: Change, f: Filter)
    requires Sound(s) && c.MoveGroup?
    ensures var v, v' := View(s.table, f), View(ApplyChange(s, c).table, f); v.Keys <= v'.Keys || v'.Keys <= v.Keys
  {
    var v, v' := View(s.table, f), View(ApplyChange(s, c).table, f);
    if i :| i in v && i !in v' {
      var g := s.table[i].group;
      assert g.Some? && g.value.id == c.group && f.group.Some? && InGroup(g, f.group.value);
      assert !InGroup(Some(Group(c.group, c.parent)), f.group.value);
      assert v'.Keys <= v.Keys;
    }
  }

  lemma SizeTellsSubsets(a: set<Id>, b: set<Id>)
    requires a <= b && |a| == |b|
    ensures a == b
  {
    if x :| x in b && x !in a {
      SubsetSize(a, b - {x});
    }
  }

  lemma SizeTells(a: Table, b: Table)
    requires a.Keys <= b.Keys || b.Keys <= a.Keys
    ensures |a| == |b| <==> a.Keys == b.Keys
  {
    assert |a| == |a.Keys| && |b| == |b.Keys|;
    if |a| == |b| {
      if a.Keys <= b.Keys {
        SizeTellsSubsets(a.Keys, b.Keys);
      } else {
        SizeTellsSubsets(b.Keys, a.Keys);
      }
    }
  }

  lemma SameStampsSameSignal(v: Table, v': Table)
    requires v.Keys == v'.Keys && forall id | id in v :: SameStamp(v[id], v'[id])
    ensures SignalOf(v) == SignalOf(v')
  {
    SameVersionsSameSum(v, v', v.Keys);
    MaxAtOfSame(v, v');
    assert |v| == |v.Keys| && |v'| == |v'.Keys|;
  }

  /** A change without a stamp moves the signal exactly when it changes who is in the view.
      A monitor that stays in it goes unseen, whatever it now shows. */
  lemma UnstampedIsSeen(s: Store, c: Change, f: Filter)
    requires Sound(s) && Allowed(s, c) && Unstamped(c)
    ensures SumSignal(ApplyChange(s, c).table, f) != SumSignal(s.table, f) <==>
      exists id :: id in s.table && Matches(f, s.table[id]) != Matches(f, Redone(c, id, s.table[id]))
  {
    var v, v' := View(s.table, f), View(ApplyChange(s, c).table, f);
    MembersMoveOneWay(s, c, f);
    SizeTells(v, v');
    if v.Keys == v'.Keys {
      SameStampsSameSignal(v, v');
      forall id | id in s.table ensures Matches(f, s.table[id]) == Matches(f, Redone(c, id, s.table[id])) {
        assert id in v <==> id in v';
      }
    } else {
      var id :| (id in v) != (id in v');
      assert Matches(f, s.table[id]) != Matches(f, Redone(c, id, s.table[id]));
    }
  }

  /** What else monitors show is never seen to change, though what they show is new. */
  lemma ReassignGoesUnseen(s: Store, c: Change, f: Filter)
    requires Sound(s) && Allowed(s, c) && c.Reassign?
    ensures SumSignal(ApplyChange(s, c).table, f) == SumSignal(s.table, f)
    ensures forall id | id in c.contents && id in View(s.table, f) ::
      id in View(ApplyChange(s, c).table, f) && View(ApplyChange(s, c).table, f)[id].content == c.contents[id]
  {
    UnstampedIsSeen(s, c, f);
  }

  /** A monitor's new tags are seen exactly by the views of a tag it gains or loses that
      hold it but for that tag. */
  lemma RetagIsSeen(s: Store, c: Change, f: Filter)
    requires Sound(s) && Allowed(s, c) && c.Retag? && f.both
    ensures SumSignal(ApplyChange(s, c).table, f) != SumSignal(s.table, f) <==>
      && f.tag.Some? && (f.tag.value in c.tags) != (f.tag.value in s.table[c.id].tags)
      && Matches(f.(tag := None), s.table[c.id])
  {
    UnstampedIsSeen(s, c, f);
  }

  /** A tag's deletion is seen by the view of that tag alone, if it holds a monitor. */
  lemma DropTagIsSeen(s: Store, c: Change, f: Filter)
    requires Sound(s) && c.DropTag?
    ensures SumSignal(ApplyChange(s, c).table, f) != SumSignal(s.table, f) <==> f.tag == Some(c.tag) && View(s.table, f) != map[]
  {
    UnstampedIsSeen(s, c, f);
    if f.tag == Some(c.tag) && View(s.table, f) != map[] {
      var id :| id in View(s.table, f);
      assert !Matches(f, Redone(c, id, s.table[id]));
    }
  }

  /** A group's deletion is seen by the view of that group, if it holds a monitor; by the
      view of the group it is in, if it holds a monitor of the deleted one; by no other. */
  lemma DropGroupIsSeen(s: Store, c: Change, f: Filter)
    requires Sound(s) && c.DropGroup?
    ensures SumSignal(ApplyChange(s, c).table, f) != SumSignal(s.table, f) <==>
      f.both && f.group.Some? && exists id :: id in View(s.table, f) && (f.group.value == c.group || s.table[id].group.value.id == c.group)
  {
    UnstampedIsSeen(s, c, f);
    if id :| id in s.table && Matches(f, s.table[id]) != Matches(f, Redone(c, id, s.table[id])) {
      DropGroupMatters(f, c, id, s.table[id]);
      assert id in View(s.table, f);
    }
    if f.both && f.group.Some? {
      if id :| id in View(s.table, f) && (f.group.value == c.group || s.table[id].group.value.id == c.group) {
        DropGroupMatters(f, c, id, s.table[id]);
      }
    }
  }

  lemma DropGroupMatters(f: Filter, c: Change, id: Id, r: Row)
    requires c.DropGroup?
    ensures Matches(f, r) != Matches(f, Redone(c, id, r)) <==>
      Matches(f, r) && f.both && f.group.Some? && (f.group.value == c.group || r.group.value.id == c.group)
  {
  }

  /** Moving a group is seen by the view of the group it leaves and by the view of the one
      it comes into, if some monitor of it matches otherwise; by no other view. */
  lemma MoveGroupIsSeen(s: Store, c: Change, f: Filter)
    requires Sound(s) && c.MoveGroup? && f.both
    ensures SumSignal(ApplyChange(s, c).table, f) != SumSignal(s.table, f) <==>
      && f.group.Some? && f.group.value != c.group
      && exists id :: id in s.table && Moved(c, f, s.table[id])
  {
    UnstampedIsSeen(s, c, f);
    forall id | id in s.table
      ensures Matches(f, s.table[id]) != Matches(f, Redone(c, id, s.table[id])) <==>
        f.group.Some? && f.group.value != c.group && Moved(c, f, s.table[id])
    {
      MoveMatters(f, c, id, s.table[id]);
    }
  }

  /** A monitor of the group moved, of all else the filter asks for, whose group goes into
      the filter's group or out of it. */
  predicate Moved(c: Change, f: Filter, r: Row)
    requires c.MoveGroup?
  {
    && r.group.Some? && r.group.value.id == c.group && Matches(f.(group := None), r)
    && (r.group.value.parent == f.group) != (c.parent == f.group)
  }

  lemma MoveMatters(f: Filter, c: Change, id: Id, r: Row)
    requires c.MoveGroup? && f.both
    ensures Matches(f, r) != Matches(f, Redone(c, id, r)) <==> f.group.Some? && f.group.value != c.group && Moved(c, f, r)
  {
  }

  // ---- runs: reachable stores, and changes that cancel out ----

  ghost predicate Reachable(s: Store) {
    exists cs :: ProductRun(EMPTY, cs) && After(EMPTY, cs) == s
  }

  lemma {:induction false} RunConcat(s: Store, a: seq<Change>, b: seq<Change>)
    requires ProductRun(s, a) && ProductRun(After(s, a), b)
    ensures ProductRun(s, a + b) && After(s, a + b) == After(After(s, a), b)
    decreases |a|
  {
    if a == [] {
      assert a + b == b;
    } else {
      RunConcat(ApplyChange(s, a[0]), a[1..], b);
      assert (a + b)[1..] == a[1..] + b;
    }
  }

  lemma OneChange(s: Store, c: Change)
    requires Allowed(s, c)
    ensures ProductRun(s, [c]) && After(s, [c]) == ApplyChange(s, c)
  {
    assert [c][1..] == [];
    assert ProductRun(ApplyChange(s, c), []);
  }

  lemma TwoChanges(s: Store, a: Change, b: Change)
    requires Allowed(s, a) && Allowed(ApplyChange(s, a), b)
    ensures ProductRun(s, [a, b]) && After(s, [a, b]) == ApplyChange(ApplyChange(s, a), b)
  {
    OneChange(s, a);
    OneChange(ApplyChange(s, a), b);
    RunConcat(s, [a], [b]);
    assert [a] + [b] == [a, b];
  }

  lemma ReachStep(s: Store, c: Change)
    requires Reachable(s) && Allowed(s, c)
    ensures Reachable(ApplyChange(s, c))
  {
    var cs :| ProductRun(EMPTY, cs) && After(EMPTY, cs) == s;
    OneChange(s, c);
    RunConcat(EMPTY, cs, [c]);
  }

  lemma StepIsSound(s: Store, c: Change)
    requires Sound(s) && Allowed(s, c)
    ensures Sound(ApplyChange(s, c))
  {
  }

  lemma {:induction false} RunIsSound(s: Store, cs: seq<Change>)
    requires Sound(s) && ProductRun(s, cs)
    ensures Sound(After(s, cs))
    decreases |cs|
  {
    if cs != [] {
      StepIsSound(s, cs[0]);
      RunIsSound(ApplyChange(s, cs[0]), cs[1..]);
    }
  }

  lemma ReachableIsSound(s: Store)
    requires Reachable(s)
    ensures Sound(s)
  {
    var cs :| ProductRun(EMPTY, cs) && After(EMPTY, cs) == s;
    RunIsSound(EMPTY, cs);
  }

  lemma ReachStart()
    ensures Reachable(EMPTY)
  {
    assert ProductRun(EMPTY, []) && After(EMPTY, []) == EMPTY;
  }

  lemma SignalOfOne(id: Id, row: Row)
    ensures SignalOf(map[id := row]) == Signal(row.version + row.at, 1)
  {
    var v := map[id := row];
    SumSplit(v, v.Keys, id);
    assert v.Keys - {id} == {};
    assert |v| == |v.Keys| == 1;
  }

  /** Two monitors, one down after two results and one up after one: a run of five changes. */
  lemma OneDownOneUp(content: string) returns (s: Store)
    ensures Reachable(s) && s.table.Keys <= s.used
    ensures s.table == map[1 := Row(0, None, "down", {}, content, 2, 0), 2 := Row(0, None, "up", {}, content, 1, 0)]
  {
    var pending := Row(0, None, "pending", {}, content, 0, 0);
    ReachStart();
    s := EMPTY;
    var c := Create(1, pending);
    ReachStep(s, c); s := ApplyChange(s, c);
    c := Create(2, pending);
    ReachStep(s, c); s := ApplyChange(s, c);
    c := Save(1, pending.(status := "up", version := 1));
    ReachStep(s, c); s := ApplyChange(s, c);
    c := Save(1, pending.(status := "down", version := 2));
    ReachStep(s, c); s := ApplyChange(s, c);
    c := Save(2, pending.(status := "up", version := 1));
    ReachStep(s, c); s := ApplyChange(s, c);
  }

  lemma ViewOfTwo(f: Filter, i: Id, x: Row, j: Id, y: Row)
    requires i != j && Matches(f, x) && !Matches(f, y)
    ensures View(map[i := x, j := y], f) == map[i := x]
  {
  }

  /** Two results the signal of the monitors that are down does not show: one monitor
      recovers and another goes down, at the version the first one had. */
  lemma SumSignalMissesASwap(content: string) returns (s: Store, cs: seq<Change>, f: Filter)
    ensures Reachable(s) && ProductRun(s, cs) && |cs| == 2 && forall c | c in cs :: c.Save?
    ensures SumSignal(s.table, f) == SumSignal(After(s, cs).table, f)
    ensures View(s.table, f).Keys != View(After(s, cs).table, f).Keys
  {
    s := OneDownOneUp(content);
    f := Filter(0, None, None, "down", true);
    var a := Save(2, Row(0, None, "down", {}, content, 2, 0));
    var b := Save(1, Row(0, None, "up", {}, content, 3, 0));
    cs := [a, b];
    var s2 := ApplyChange(ApplyChange(s, a), b);
    TwoChanges(s, a, b);
    assert s2.table == map[1 := b.row, 2 := a.row];
    ViewOfTwo(f, 1, s.table[1], 2, s.table[2]);
    ViewOfTwo(f, 2, a.row, 1, b.row);
    assert map[1 := b.row, 2 := a.row] == map[2 := a.row, 1 := b.row];
    SignalOfOne(1, s.table[1]);
    SignalOfOne(2, a.row);
  }

  predicate AllStamped(cs: seq<Change>) {
    forall c | c in cs :: !Unstamped(c)
  }

  /** Equal signals before and after n stamped changes always mean equal views. */
  ghost predicate AlwaysSeen(f: Filter, n: nat) {
    forall s, cs | Reachable(s) && ProductRun(s, cs) && |cs| == n && AllStamped(cs) ::
      SumSignal(s.table, f) == SumSignal(After(s, cs).table, f) ==> View(s.table, f) == View(After(s, cs).table, f)
  }

  /** The same of changes none of which is a late edit. */
  ghost predicate AlwaysSeenTimely(f: Filter, n: nat) {
    forall s, cs | Reachable(s) && ProductRun(s, cs) && |cs| == n && AllStamped(cs) && TimelyRun(s, cs) ::
      SumSignal(s.table, f) == SumSignal(After(s, cs).table, f) ==> View(s.table, f) == View(After(s, cs).table, f)
  }

  /** Changes no one sees: monitors of another organisation. */
  lemma {:induction false} Elsewhere(s: Store, f: Filter, n: nat) returns (cs: seq<Change>)
    requires Sound(s)
    ensures ProductRun(s, cs) && |cs| == n && AllStamped(cs) && TimelyRun(s, cs)
    ensures View(After(s, cs).table, f) == View(s.table, f)
    decreases n
  {
    if n == 0 {
      cs := [];
    } else {
      var id := Unused(s.used);
      var c := Create(id, Row(f.org + 1, None, "pending", {}, "", 0, 0));
      var s' := ApplyChange(s, c);
      ViewOfUpdate(s.table, f, id, c.row);
      assert id !in View(s.table, f);
      StepIsSound(s, c);
      var rest := Elsewhere(s', f, n - 1);
      cs := [c] + rest;
      assert cs[1..] == rest;
    }
  }

  lemma ViewOfOne(f: Filter, id: Id, row: Row)
    requires Matches(f, row)
    ensures View(map[id := row], f) == map[id := row]
  {
  }

  /** A row every filter is content with. */
  function Wanted(f: Filter): Row {
    Row(f.org, if f.group.Some? then Some(Group(f.group.value, None)) else None, f.status,
        if f.tag.Some? then {f.tag.value} else {}, "", 0, 0)
  }

  /** The store of one monitor that is in the view. */
  lemma OneWanted(f: Filter) returns (s: Store)
    ensures Reachable(s) && s == Store(map[1 := Wanted(f)], {1}) && Matches(f, Wanted(f))
  {
    ReachStart();
    var c := Create(1, Wanted(f));
    ReachStep(EMPTY, c);
    s := ApplyChange(EMPTY, c);
  }

  /** For any filter: a monitor of the view is deleted and another one created at the same
      version and time. */
  lemma Replacement(f: Filter) returns (s: Store, cs: seq<Change>)
    ensures Reachable(s) && ProductRun(s, cs) && |cs| == 2 && AllStamped(cs) && TimelyRun(s, cs)
    ensures SumSignal(s.table, f) == SumSignal(After(s, cs).table, f)
    ensures View(s.table, f) != View(After(s, cs).table, f)
  {
    var row := Wanted(f);
    s := OneWanted(f);
    var a, b := Delete(1), Create(2, row);
    cs := [a, b];
    var s2 := ApplyChange(ApplyChange(s, a), b);
    TwoChanges(s, a, b);
    assert s2.table == map[2 := row];
    ViewOfOne(f, 1, row);
    ViewOfOne(f, 2, row);
    SignalOfOne(1, row);
    SignalOfOne(2, row);
    assert 1 !in map[2 := row];
    assert cs[1..] == [b] && cs[1..][1..] == [];
  }

  /** For any filter: a monitor of the view gets another tag, and the signal stands still. */
  lemma RetagGoesUnseen(f: Filter) returns (s: Store, c: Change)
    ensures Reachable(s) && Allowed(s, c) && c.Retag?
    ensures SumSignal(ApplyChange(s, c).table, f) == SumSignal(s.table, f)
    ensures View(ApplyChange(s, c).table, f) != View(s.table, f)
  {
    var row := Wanted(f);
    s := OneWanted(f);
    c := Retag(1, row.tags + {if f.tag.Some? then f.tag.value + 1 else 0});
    var row' := row.(tags := c.tags);
    assert (if f.tag.Some? then f.tag.value + 1 else 0) in row'.tags - row.tags;
    assert ApplyChange(s, c).table == map[1 := row'];
    RetaggedAlone(f, row, row');
  }

  lemma RetaggedAlone(f: Filter, row: Row, row': Row)
    requires Matches(f, row) && Matches(f, row') && row' == row.(tags := row'.tags) && row' != row
    ensures SumSignal(map[1 := row'], f) == SumSignal(map[1 := row], f)
    ensures View(map[1 := row'], f) != View(map[1 := row], f)
  {
    ViewOfOne(f, 1, row);
    ViewOfOne(f, 1, row');
    SignalOfOne(1, row);
    SignalOfOne(1, row');
    assert map[1 := row][1] != map[1 := row'][1];
  }

  lemma OneEdited(f: Filter, row: Row) returns (s: Store)
    requires row == Wanted(f).(version := 1, at := 100)
    ensures Reachable(s) && s == Store(map[1 := row], {1}) && Matches(f, row)
  {
    var s0 := OneWanted(f);
    var c := Edit(1, row);
    assert Allowed(s0, c);
    ReachStep(s0, c);
    s := ApplyChange(s0, c);
  }

  /** For any filter: a batch takes its time at 99, another edit of the monitor commits at
      100, and then the batch reaches the monitor. The version rises by one, the latest time
      falls by one, and the signal stands still. */
  lemma LateEditGoesUnseen(f: Filter) returns (s: Store, c: Change)
    ensures Reachable(s) && Allowed(s, c) && c.Edit? && !Timely(s, c)
    ensures SumSignal(ApplyChange(s, c).table, f) == SumSignal(s.table, f)
    ensures View(ApplyChange(s, c).table, f) != View(s.table, f)
  {
    var row := Wanted(f).(version := 1, at := 100);
    var row' := row.(content := "batch", version := 2, at := 99);
    s := OneEdited(f, row);
    c := Edit(1, row');
    assert ApplyChange(s, c).table == map[1 := row'];
    ViewOfOne(f, 1, row);
    ViewOfOne(f, 1, row');
    SignalOfOne(1, row);
    SignalOfOne(1, row');
    assert map[1 := row][1] != map[1 := row'][1];
  }

  lemma SeenAlone(f: Filter, s: Store, cs: seq<Change>)
    requires Reachable(s) && ProductRun(s, cs) && |cs| <= 1 && AllStamped(cs) && TimelyRun(s, cs)
    ensures SumSignal(s.table, f) == SumSignal(After(s, cs).table, f) ==> View(s.table, f) == View(After(s, cs).table, f)
  {
    ReachableIsSound(s);
    if |cs| == 1 {
      assert cs == [cs[0]] && !Unstamped(cs[0]);
      OneChange(s, cs[0]);
      TimelyIsSeen(s, cs[0], f);
    }
  }

  /** Changes after a run that went unseen: the longer run goes unseen as well. */
  lemma Lengthen(f: Filter, s: Store, cs: seq<Change>, n: nat) returns (more: seq<Change>)
    requires Reachable(s) && ProductRun(s, cs) && AllStamped(cs) && |cs| <= n
    ensures ProductRun(s, more) && |more| == n && AllStamped(more) && View(After(s, more).table, f) == View(After(s, cs).table, f)
    ensures TimelyRun(s, cs) ==> TimelyRun(s, more)
  {
    ReachableIsSound(s);
    RunIsSound(s, cs);
    var rest := Elsewhere(After(s, cs), f, n - |cs|);
    RunConcat(s, cs, rest);
    more := cs + rest;
    if TimelyRun(s, cs) {
      TimelyConcat(s, cs, rest);
    }
  }

  lemma {:induction false} TimelyConcat(s: Store, a: seq<Change>, b: seq<Change>)
    requires TimelyRun(s, a) && TimelyRun(After(s, a), b)
    ensures TimelyRun(s, a + b)
    decreases |a|
  {
    if a == [] {
      assert a + b == b;
    } else {
      TimelyConcat(ApplyChange(s, a[0]), a[1..], b);
      assert (a + b)[1..] == a[1..] + b;
    }
  }

  /** For every filter: a client that compares its signal after every n results, timely
      edits, creations and deletions misses no change of its view exactly when n is at most
      one. */
  lemma SeenExactlyOneByOne(f: Filter, n: nat)
    ensures AlwaysSeenTimely(f, n) <==> n <= 1
  {
    if n <= 1 {
      forall s, cs | Reachable(s) && ProductRun(s, cs) && |cs| == n && AllStamped(cs) && TimelyRun(s, cs)
        ensures SumSignal(s.table, f) == SumSignal(After(s, cs).table, f) ==> View(s.table, f) == View(After(s, cs).table, f)
      {
        SeenAlone(f, s, cs);
      }
    } else {
      var s, cs := Replacement(f);
      var more := Lengthen(f, s, cs, n);
      assert !(SumSignal(s.table, f) == SumSignal(After(s, more).table, f) ==> View(s.table, f) == View(After(s, more).table, f));
    }
  }

  /** With edits that may come late, not even one by one. */
  lemma NeverAlwaysSeen(f: Filter, n: nat)
    ensures AlwaysSeen(f, n) <==> n == 0
  {
    if n > 0 {
      var s, c := LateEditGoesUnseen(f);
      OneChange(s, c);
      var more := Lengthen(f, s, [c], n);
      assert !(SumSignal(s.table, f) == SumSignal(After(s, more).table, f) ==> View(s.table, f) == View(After(s, more).table, f));
    }
  }

  lemma MaxOfSame(a: Table, b: Table)
    requires a.Keys == b.Keys && forall id | id in a :: a[id].version == b[id].version
    ensures MaxVersion(a) == MaxVersion(b)
  {
    if a != map[] {
      var i :| i in a && a[i].version == MaxVersion(a);
      assert b != map[];
      var j :| j in b && b[j].version == MaxVersion(b);
    } else {
      assert b == map[];
    }
  }

  lemma MaxOfStamped(v: Table, id: Id, row: Row)
    requires id in v && row.version == v[id].version + 1
    ensures MaxVersion(v[id := row]) != MaxVersion(v) <==> v[id].version == MaxVersion(v)
  {
    var v' := v[id := row];
    assert v != map[] && v' != map[] && row.version <= MaxVersion(v') by {
      assert id in v' && v'[id] == row;
    }
    var i :| i in v && v[i].version == MaxVersion(v);
    var j :| j in v' && v'[j].version == MaxVersion(v');
    assert i in v' && v'[i].version >= v[i].version;
    assert j == id || v[j] == v'[j];
  }

  /** The maximum and the count, were they read off the product's rows (which only the
      schema target's own query does): one write moves them exactly when it changes who is
      in the view, or is stamped and hits the member with the greatest version. */
  lemma MaxSignalUnderProductWrites(s: Store, c: Change, f: Filter)
    requires Sound(s) && Allowed(s, c)
    ensures var v, v' := View(s.table, f), View(ApplyChange(s, c).table, f);
      MaxSignal(ApplyChange(s, c).table, f) != MaxSignal(s.table, f) <==>
        v.Keys != v'.Keys || ((c.Save? || c.Edit?) && c.id in v && v[c.id].version == MaxVersion(v))
  {
    var v, v' := View(s.table, f), View(ApplyChange(s, c).table, f);
    if v.Keys != v'.Keys {
      MembersMoveOneWay(s, c, f);
      SizeTells(v, v');
    } else if (c.Save? || c.Edit?) && c.id in v {
      assert v' == v[c.id := c.row];
      MaxOfStamped(v, c.id, c.row);
    } else {
      assert forall id | id in v :: v'[id].version == v[id].version;
      MaxOfSame(v, v');
    }
  }
}
