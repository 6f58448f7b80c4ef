/** Permission scopes and the API keys that carry them: what a key can be granted, over
    every chain of create, update and revoke. */
module Scopes {
  import opened Basics

  type Scope = string

  /** strings.Cut at the first colon. */
  function Cut(s: string): (r: Option<(string, string)>)
    ensures r.None? <==> ':' !in s
    ensures r.Some? ==> ':' !in r.value.0 && s == r.value.0 + ":" + r.value.1
  {
    if s == "" then None
    else if s[0] == ':' then Some(("", s[1..]))
    else
      var r := Cut(s[1..]);
      if r.None? then None else Some(([s[0]] + r.value.0, r.value.1))
  }

  predicate Implies(s: Scope, want: Scope) {
    s == want
    || var c := Cut(s); c.Some? && c.value.1 == "write" && want == c.value.0 + ":read"
  }

  predicate Grants(held: seq<Scope>, want: Scope) {
    exists s :: s in held && Implies(s, want)
  }

  predicate Covers(held: seq<Scope>, other: seq<Scope>) {
    forall want | want in other :: Grants(held, want)
  }

  lemma {:induction false} CutUnique(r: string, a: string)
    requires ':' !in r
    ensures Cut(r + ":" + a) == Some((r, a))
  {
    if r == "" {
      assert (r + ":" + a)[1..] == a;
    } else {
      assert (r + ":" + a)[1..] == r[1..] + ":" + a && (r + ":" + a)[0] == r[0];
      CutUnique(r[1..], a);
      assert [r[0]] + r[1..] == r;
    }
  }

  /** A read scope implies nothing but itself, so chains of implication collapse. */
  lemma ImpliesTransitive(a: Scope, b: Scope, c: Scope)
    requires Implies(a, b) && Implies(b, c)
    ensures Implies(a, c)
  {
    if a != b {
      var r := Cut(a).value.0;
      assert r + ":read" == r + ":" + "read";
      CutUnique(r, "read");
    }
  }

  /** write implies read of the same resource, and nothing else implies anything. */
  lemma ImpliesExactly(a: Scope, b: Scope)
    ensures Implies(a, b) <==> a == b || exists r :: ':' !in r && a == r + ":write" && b == r + ":read"
  {
    if r :| ':' !in r && a == r + ":write" && b == r + ":read" {
      assert r + ":write" == r + ":" + "write";
      CutUnique(r, "write");
    }
    if Implies(a, b) && a != b {
      var r := Cut(a).value.0;
      assert r + ":" + "write" == r + ":write";
      assert a == r + ":write" && b == r + ":read";
    }
  }

  lemma GrantsThrough(a: seq<Scope>, b: seq<Scope>, want: Scope)
    requires Covers(a, b) && Grants(b, want)
    ensures Grants(a, want)
  {
    var s :| s in b && Implies(s, want);
    var t :| t in a && Implies(t, s);
    ImpliesTransitive(t, s, want);
  }

  /** Covering is a preorder: it is inclusion of what two sets grant. */
  lemma CoversIsInclusion(a: seq<Scope>, b: seq<Scope>)
    ensures Covers(a, b) <==> forall want :: Grants(b, want) ==> Grants(a, want)
  {
    if Covers(a, b) {
      forall want | Grants(b, want) ensures Grants(a, want) {
        GrantsThrough(a, b, want);
      }
    }
    forall want | want in b ensures Grants(b, want) {
      assert Implies(want, want);
    }
  }

  // ---- roles ----

  const VIEWER: seq<Scope> := [
    "monitors:read", "heartbeats:read", "groups:read", "tags:read", "incidents:read", "status_pages:read", "maintenance:read"]
  const RESPONDER: seq<Scope> := [
    "monitors:read", "heartbeats:read", "groups:read", "tags:read", "incidents:read", "incidents:write",
    "maintenance:read", "maintenance:write"]
  const EDITOR: seq<Scope> := [
    "monitors:read", "monitors:write", "heartbeats:read", "groups:read", "groups:write", "tags:read", "tags:write",
    "notifications:read", "notifications:write", "maintenance:read", "maintenance:write",
    "incidents:read", "incidents:write", "status_pages:read", "status_pages:write"]
  const ALL_SCOPES: seq<Scope> := [
    "monitors:read", "monitors:write", "heartbeats:read", "groups:read", "groups:write", "tags:read", "tags:write",
    "notifications:read", "notifications:write", "maintenance:read", "maintenance:write",
    "incidents:read", "incidents:write", "status_pages:read", "status_pages:write",
    "webhooks:read", "webhooks:write", "imports:write", "settings:read", "settings:write",
    "users:read", "users:write", "api_keys:read", "api_keys:write", "metrics:read",
    "teams:read", "teams:write", "schedules:read", "schedules:write", "reports:read", "reports:write",
    "brand_profiles:read", "brand_profiles:write"]

  function ScopesFor(role: string): seq<Scope> {
    if role == "owner" || role == "admin" then ALL_SCOPES
    else if role == "editor" then EDITOR
    else if role == "responder" then RESPONDER
    else if role == "viewer" then VIEWER
    else []
  }

  predicate ValidScope(s: Scope) {
    s in ALL_SCOPES
  }

  predicate AllValid(ss: seq<Scope>) {
    forall s | s in ss :: ValidScope(s)
  }

  // ---- keys ----

  type KeyId = nat

  datatype Key = Key(scopes: seq<Scope>, expires: Option<int>, revoked: bool)

  /** Who is calling: a key of the store, or a user with a role. */
  datatype Caller = ByKey(id: KeyId) | ByUser(role: string)

  datatype Step =
    | Create(caller: Caller, id: KeyId, scopes: seq<Scope>, expires: Option<int>, now: int)
    | Update(caller: Caller, id: KeyId, change: Option<seq<Scope>>, expires: Option<int>, now: int)
    | Revoke(caller: Caller, id: KeyId, now: int)

  datatype Status = Created | Updated | Revoked | Invalid | Forbidden | Absent

  type Keys = map<KeyId, Key>

  function CallerScopes(keys: Keys, caller: Caller): seq<Scope> {
    match caller
    case ByKey(id) => if id in keys then keys[id].scopes else []
    case ByUser(role) => ScopesFor(role)
  }

  function CreateStatus(held: seq<Scope>, scopes: seq<Scope>, expires: Option<int>, now: int): Status {
    var bad := scopes == [] || !AllValid(scopes);
    if !bad && !Covers(held, scopes) then Forbidden
    else if bad || (expires.Some? && expires.value <= now) then Invalid
    else Created
  }

  function UpdateStatus(held: seq<Scope>, scopes: Option<seq<Scope>>): Status {
    if scopes.Some? && !AllValid(scopes.value) then Invalid
    else if scopes.Some? && !Covers(held, scopes.value) then Forbidden
    else Updated
  }

  function Apply(keys: Keys, a: Step): Keys {
    match a
    case Create(caller, id, scopes, expires, now) =>
      if CreateStatus(CallerScopes(keys, caller), scopes, expires, now).Created? then keys[id := Key(scopes, expires, false)] else keys
    case Update(caller, id, scopes, expires, _) =>
      if id !in keys || !UpdateStatus(CallerScopes(keys, caller), scopes).Updated? then keys
      else
        var k := keys[id];
        keys[id := Key(if scopes.Some? then scopes.value else k.scopes, if expires.Some? then expires else k.expires, k.revoked)]
    case Revoke(caller, id, _) => if id in keys then keys[id := keys[id].(revoked := true)] else keys
  }

  /** A new key has a new id. */
  predicate Enabled(keys: Keys, a: Step) {
    a.Create? ==> a.id !in keys
  }

  /** The store behind the three handlers. */
  class KeyStore {
    var keys: Keys

    constructor ()
      ensures keys == map[]
    {
      keys := map[];
    }

    /** The loop of the two handlers: the scopes that are known, and whether all were. */
    method KnownScopes(raw: seq<string>) returns (scopes: seq<Scope>, bad: bool)
      ensures bad <==> !AllValid(raw)
      ensures !bad ==> scopes == raw
    {
      scopes, bad := [], false;
      for i := 0 to |raw|
        invariant bad <==> !AllValid(raw[..i])
        invariant !bad ==> scopes == raw[..i]
      {
        assert forall s :: s in raw[..i + 1] <==> s in raw[..i] || s == raw[i];
        assert raw[..i + 1] == raw[..i] + [raw[i]];
        if !ValidScope(raw[i]) {
          bad := true;
        } else {
          scopes := scopes + [raw[i]];
        }
      }
      assert raw[..|raw|] == raw;
    }

    method CoversAll(held: seq<Scope>, other: seq<Scope>) returns (ok: bool)
      ensures ok == Covers(held, other)
    {
      for i := 0 to |other|
        invariant forall k | 0 <= k < i :: Grants(held, other[k])
      {
        var granted := false;
        for j := 0 to |held|
          invariant granted <==> exists k :: 0 <= k < j && Implies(held[k], other[i])
        {
          if Implies(held[j], other[i]) {
            granted := true;
          }
        }
        if !granted {
          assert other[i] in other && !Grants(held, other[i]);
          return false;
        }
      }
      return true;
    }

    /** createAPIKey, for a key that decodes. */
    method CreateAPIKey(caller: Caller, id: KeyId, raw: seq<string>, expires: Option<int>, now: int) returns (status: Status)
      requires id !in keys
      modifies this
      ensures keys == Apply(old(keys), Create(caller, id, raw, expires, now))
      ensures status == CreateStatus(CallerScopes(old(keys), caller), raw, expires, now)
      ensures keys == if status.Created? then old(keys)[id := Key(raw, expires, false)] else old(keys)
      ensures status.Created? <==>
        raw != [] && (expires.None? || now < expires.value) && forall s | s in raw :: s in ALL_SCOPES && Grants(CallerScopes(old(keys), caller), s)
      ensures status.Forbidden? <==>
        raw != [] && (forall s | s in raw :: s in ALL_SCOPES) && exists s :: s in raw && !Grants(CallerScopes(old(keys), caller), s)
      ensures status.Created? || status.Forbidden? || status.Invalid?
    {
      var scopes, bad := KnownScopes(raw);
      var problems := bad || raw == [];
      if !problems {
        var ok := CoversAll(CallerScopes(keys, caller), scopes);
        if !ok {
          return Forbidden;
        }
      }
      if problems || (expires.Some? && expires.value <= now) {
        return Invalid;
      }
      keys := keys[id := Key(scopes, expires, false)];
      return Created;
    }

    method UpdateAPIKey(caller: Caller, id: KeyId, raw: Option<seq<string>>, expires: Option<int>, now: int) returns (status: Status)
      modifies this
      ensures keys == Apply(old(keys), Update(caller, id, raw, expires, now))
      ensures status == if id !in old(keys) then Absent else UpdateStatus(CallerScopes(old(keys), caller), raw)
      ensures status.Absent? <==> id !in old(keys)
      ensures status.Invalid? <==> id in old(keys) && raw.Some? && exists s :: s in raw.value && s !in ALL_SCOPES
      ensures status.Forbidden? <==>
        id in old(keys) && raw.Some? && (forall s | s in raw.value :: s in ALL_SCOPES)
        && exists s :: s in raw.value && !Grants(CallerScopes(old(keys), caller), s)
      ensures status.Absent? || status.Invalid? || status.Forbidden? ==> keys == old(keys)
      ensures status.Absent? || status.Invalid? || status.Forbidden? || status.Updated?
      ensures status.Updated? ==> keys.Keys == old(keys).Keys && forall other | other in keys && other != id :: keys[other] == old(keys)[other]
      ensures status.Updated? ==>
        && keys[id].revoked == old(keys)[id].revoked
        && keys[id].scopes == (if raw.Some? then raw.value else old(keys)[id].scopes)
        && keys[id].expires == (if expires.Some? then expires else old(keys)[id].expires)
    {
      if id !in keys {
        return Absent;
      }
      var key := keys[id];
      if raw.Some? {
        var scopes, bad := KnownScopes(raw.value);
        if bad {
          return Invalid;
        }
        var ok := CoversAll(CallerScopes(keys, caller), scopes);
        if !ok {
          return Forbidden;
        }
        key := key.(scopes := scopes);
      }
      if expires.Some? {
        key := key.(expires := expires);
      }
      keys := keys[id := key];
      return Updated;
    }

    /** A key already revoked is not found. */
    method RevokeAPIKey(caller: Caller, id: KeyId, now: int) returns (status: Status)
      modifies this
      ensures keys == Apply(old(keys), Revoke(caller, id, now))
      ensures status == if id in old(keys) && !old(keys)[id].revoked then Revoked else Absent
    {
      if id !in keys || keys[id].revoked {
        return Absent;
      }
      keys := keys[id := keys[id].(revoked := true)];
      return Revoked;
    }
  }

  // ---- what the operations ask, said without them ----

  /** The caller may pass this scope on: the key or the role it acts with has it, or has
      write access to the resource it reads. */
  ghost predicate Holds(keys: Keys, caller: Caller, s: Scope) {
    exists h: Scope ::
      && (if caller.ByKey? then caller.id in keys && h in keys[caller.id].scopes else h in ScopesFor(caller.role))
      && (h == s || exists r :: ':' !in r && h == r + ":write" && s == r + ":read")
  }

  lemma HoldsIsGrants(keys: Keys, caller: Caller, s: Scope)
    ensures Holds(keys, caller, s) <==> Grants(CallerScopes(keys, caller), s)
  {
    var held := CallerScopes(keys, caller);
    if h :| h in held && Implies(h, s) {
      ImpliesExactly(h, s);
    }
    if Holds(keys, caller, s) {
      var h: Scope :| h in held && (h == s || exists r :: ':' !in r && h == r + ":write" && s == r + ":read");
      ImpliesExactly(h, s);
    }
  }

  /** A key is created exactly when it asks for something, all of it defined and held by the
      caller, and is not expired yet; refused as forbidden exactly when all it asks for is
      defined and some of it not held; and is then the very key asked for, or nothing. */
  lemma CreateExactly(keys: Keys, caller: Caller, id: KeyId, scopes: seq<Scope>, expires: Option<int>, now: int)
    requires id !in keys
    ensures var keys' := Apply(keys, Create(caller, id, scopes, expires, now));
      && (id in keys' <==>
            scopes != [] && (forall s | s in scopes :: s in ALL_SCOPES && Holds(keys, caller, s)) && (expires.None? || now < expires.value))
      && keys' == if id in keys' then keys[id := Key(scopes, expires, false)] else keys
    ensures CreateStatus(CallerScopes(keys, caller), scopes, expires, now) == Forbidden <==>
      scopes != [] && (forall s | s in scopes :: s in ALL_SCOPES) && exists s :: s in scopes && !Holds(keys, caller, s)
    ensures CreateStatus(CallerScopes(keys, caller), scopes, expires, now) == Invalid <==>
      || scopes == [] || (exists s :: s in scopes && s !in ALL_SCOPES)
      || ((forall s | s in scopes :: Holds(keys, caller, s)) && expires.Some? && expires.value <= now)
  {
    forall s ensures Holds(keys, caller, s) <==> Grants(CallerScopes(keys, caller), s) {
      HoldsIsGrants(keys, caller, s);
    }
  }

  /** An update of a key goes through exactly when the scopes sent, if any, are all defined
      and held by the caller. */
  lemma UpdateAllowedExactly(keys: Keys, caller: Caller, change: Option<seq<Scope>>)
    ensures UpdateStatus(CallerScopes(keys, caller), change) == Updated <==>
      change.None? || forall s | s in change.value :: s in ALL_SCOPES && Holds(keys, caller, s)
    ensures UpdateStatus(CallerScopes(keys, caller), change) == Invalid <==> change.Some? && exists s :: s in change.value && s !in ALL_SCOPES
    ensures UpdateStatus(CallerScopes(keys, caller), change) in {Updated, Invalid, Forbidden}
  {
    forall s ensures Holds(keys, caller, s) <==> Grants(CallerScopes(keys, caller), s) {
      HoldsIsGrants(keys, caller, s);
    }
  }

  /** What goes through changes that key alone, and of it only what was sent. */
  lemma UpdateExactly(keys: Keys, caller: Caller, id: KeyId, change: Option<seq<Scope>>, expires: Option<int>, now: int)
    requires id in keys
    ensures var keys' := Apply(keys, Update(caller, id, change, expires, now));
      var through := change.None? || forall s | s in change.value :: s in ALL_SCOPES && Holds(keys, caller, s);
      && (!through ==> keys' == keys)
      && keys'.Keys == keys.Keys && (forall other | other in keys && other != id :: keys'[other] == keys[other])
      && keys'[id].revoked == keys[id].revoked
      && (through ==> keys'[id].scopes == (if change.Some? then change.value else keys[id].scopes))
      && (through ==> keys'[id].expires == (if expires.Some? then expires else keys[id].expires))
  {
    UpdateAllowedExactly(keys, caller, change);
  }

  /** A key that is new after a step is the one asked for, and can be used at once. */
  lemma NewKeysAreUsable(keys: Keys, a: Step, id: KeyId)
    requires id in Apply(keys, a) && id !in keys
    ensures a.Create? && a.id == id && Apply(keys, a)[id].scopes == a.scopes != []
    ensures !Apply(keys, a)[id].revoked && (Apply(keys, a)[id].expires.None? || a.now < Apply(keys, a)[id].expires.value)
  {
  }

  /** From its creation on, while nobody updates or revokes it, a key can be used exactly
      until the moment it was asked to expire at. */
  lemma {:induction false} KeyLives(keys: Keys, steps: seq<Step>, id: KeyId, now: int)
    requires id in keys && !keys[id].revoked && RunEnabled(keys, steps)
    requires forall a | a in steps :: a.Create? || a.id != id
    ensures id in Run(keys, steps) && Run(keys, steps)[id] == keys[id]
    ensures Usable(Run(keys, steps)[id], now) <==> keys[id].expires.None? || now < keys[id].expires.value
    decreases |steps|
  {
    if steps != [] {
      assert steps[0] in steps && forall a | a in steps[1..] :: a in steps;
      KeyLives(Apply(keys, steps[0]), steps[1..], id, now);
    }
  }

  lemma HeldAt(held: seq<Scope>, other: seq<Scope>, at: seq<nat>)
    requires |at| == |other| && forall k | 0 <= k < |other| :: at[k] < |held| && held[at[k]] == other[k]
    ensures Covers(held, other)
  {
    forall want | want in other ensures Grants(held, want) {
      var k :| 0 <= k < |other| && other[k] == want;
      assert held[at[k]] in held && Implies(held[at[k]], want);
    }
  }

  lemma EditorOverResponder()
    ensures Covers(ScopesFor("editor"), ScopesFor("responder"))
  {
    HeldAt(EDITOR, RESPONDER, [0, 2, 3, 5, 11, 12, 9, 10]);
  }

  lemma EditorOverViewer()
    ensures Covers(ScopesFor("editor"), ScopesFor("viewer"))
  {
    HeldAt(EDITOR, VIEWER, [0, 2, 3, 5, 11, 13, 9]);
  }

  /** The roles nest. An owner or administrator may grant every scope there is, an editor
      all that a responder or a viewer may, and any other role nothing. */
  lemma RolesNest(role: string, want: Scope)
    ensures role == "owner" || role == "admin" ==> (want in ALL_SCOPES ==> Grants(ScopesFor(role), want))
    ensures Grants(ScopesFor("responder"), want) || Grants(ScopesFor("viewer"), want) ==> Grants(ScopesFor("editor"), want)
    ensures role != "owner" && role != "admin" && role != "editor" && role != "responder" && role != "viewer" ==> !Grants(ScopesFor(role), want)
  {
    assert Implies(want, want);
    EditorOverResponder();
    EditorOverViewer();
    CoversIsInclusion(ScopesFor("editor"), ScopesFor("responder"));
    CoversIsInclusion(ScopesFor("editor"), ScopesFor("viewer"));
  }

  /** One action on each of the resources. */
  function Each(resources: seq<string>, action: string): seq<Scope> {
    seq(|resources|, k requires 0 <= k < |resources| => resources[k] + action)
  }

  lemma EachOf(resources: seq<string>, action: string, s: Scope)
    ensures s in Each(resources, action) <==> exists r :: r in resources && s == r + action
  {
    var e := Each(resources, action);
    if s in e {
      var k :| 0 <= k < |e| && e[k] == s;
      assert resources[k] in resources && s == resources[k] + action;
    }
    if r :| r in resources && s == r + action {
      var k :| 0 <= k < |resources| && resources[k] == r;
      assert e[k] == s;
    }
  }

  /** The table lists reading these resources and writing those. */
  ghost predicate Lists(table: seq<Scope>, readable: seq<string>, writable: seq<string>) {
    forall s :: s in table <==> s in Each(readable, ":read") || s in Each(writable, ":write")
  }

  /** `at` says where each scope of the table stands among what is read and then what is written. */
  lemma ListsByPosition(table: seq<Scope>, readable: seq<string>, writable: seq<string>, at: seq<nat>, back: seq<nat>)
    requires |at| == |table| && |back| == |readable| + |writable|
    requires forall k | 0 <= k < |at| :: at[k] < |readable| + |writable|
    requires forall j | 0 <= j < |back| :: back[j] < |at| && at[back[j]] == j
    requires forall k | 0 <= k < |at| ::
      table[k] == if at[k] < |readable| then readable[at[k]] + ":read" else writable[at[k] - |readable|] + ":write"
    ensures Lists(table, readable, writable)
  {
    var all := Each(readable, ":read") + Each(writable, ":write");
    assert forall k | 0 <= k < |table| :: table[k] == all[at[k]];
    SamePlaces(table, all, at, back);
    assert forall s :: s in all <==> s in Each(readable, ":read") || s in Each(writable, ":write");
  }

  lemma SamePlaces(table: seq<Scope>, all: seq<Scope>, at: seq<nat>, back: seq<nat>)
    requires |at| == |table| && |back| == |all|
    requires forall k | 0 <= k < |at| :: at[k] < |all| && table[k] == all[at[k]]
    requires forall j | 0 <= j < |back| :: back[j] < |at| && at[back[j]] == j
    ensures forall s :: s in table <==> s in all
  {
    forall s | s in all ensures s in table {
      var j :| 0 <= j < |all| && all[j] == s;
      assert table[back[j]] == s;
    }
  }

  lemma SuffixDecides(a: string, b: string)
    ensures a + ":read" == b + ":read" ==> a == b
    ensures a + ":write" == b + ":write" ==> a == b
    ensures a + ":read" != b + ":write"
  {
    var ar, br, aw, bw := a + ":read", b + ":read", a + ":write", b + ":write";
    assert ar[..|ar| - 5] == a && br[..|br| - 5] == b && aw[..|aw| - 6] == a && bw[..|bw| - 6] == b;
    assert ar[|ar| - 1] == 'd' && bw[|bw| - 1] == 'e';
  }

  lemma ListedAre(table: seq<Scope>, readable: seq<string>, writable: seq<string>, r: string)
    requires Lists(table, readable, writable)
    ensures r + ":read" in table <==> r in readable
    ensures r + ":write" in table <==> r in writable
  {
    EachOf(readable, ":read", r + ":read");
    EachOf(writable, ":write", r + ":read");
    EachOf(readable, ":read", r + ":write");
    EachOf(writable, ":write", r + ":write");
    forall a: string ensures (r + ":read" == a + ":read" ==> r == a) && (r + ":write" == a + ":write" ==> r == a)
      ensures r + ":read" != a + ":write" && a + ":read" != r + ":write"
    {
      SuffixDecides(r, a);
      SuffixDecides(a, r);
    }
  }

  /** Who holds such a table may read what is listed to read or write, and write what is
      listed to write. */
  lemma TableGrants(table: seq<Scope>, readable: seq<string>, writable: seq<string>, r: string)
    requires ':' !in r && Lists(table, readable, writable)
    ensures Grants(table, r + ":read") <==> r in readable || r in writable
    ensures Grants(table, r + ":write") <==> r in writable
  {
    ListedAre(table, readable, writable, r);
    forall s ensures Implies(s, r + ":read") <==> s == r + ":read" || s == r + ":write" {
      ImpliesExactly(s, r + ":read");
      if a :| ':' !in a && s == a + ":write" && r + ":read" == a + ":read" { SuffixDecides(r, a); }
    }
    forall s ensures Implies(s, r + ":write") <==> s == r + ":write" {
      ImpliesExactly(s, r + ":write");
      if a :| ':' !in a && s == a + ":write" && r + ":write" == a + ":read" { SuffixDecides(a, r); }
    }
  }

  lemma ViewerLists()
    ensures Lists(VIEWER, ["monitors", "heartbeats", "groups", "tags", "incidents", "status_pages", "maintenance"], [])
  {
    ListsByPosition(VIEWER, ["monitors", "heartbeats", "groups", "tags", "incidents", "status_pages", "maintenance"], [],
      [0, 1, 2, 3, 4, 5, 6], [0, 1, 2, 3, 4, 5, 6]);
  }

  lemma ResponderLists()
    ensures Lists(RESPONDER, ["monitors", "heartbeats", "groups", "tags", "incidents", "maintenance"], ["incidents", "maintenance"])
  {
    ListsByPosition(RESPONDER, ["monitors", "heartbeats", "groups", "tags", "incidents", "maintenance"], ["incidents", "maintenance"],
      [0, 1, 2, 3, 4, 6, 5, 7], [0, 1, 2, 3, 4, 6, 5, 7]);
  }

  lemma ListsJoin(table: seq<Scope>, i: nat, ra: seq<string>, wa: seq<string>, rb: seq<string>, wb: seq<string>)
    requires i <= |table| && Lists(table[..i], ra, wa) && Lists(table[i..], rb, wb)
    ensures Lists(table, ra + rb, wa + wb)
  {
    assert table == table[..i] + table[i..];
    assert Each(ra + rb, ":read") == Each(ra, ":read") + Each(rb, ":read");
    assert Each(wa + wb, ":write") == Each(wa, ":write") + Each(wb, ":write");
  }

  lemma EditorFirst()
    ensures Lists(EDITOR[..7], ["monitors", "heartbeats", "groups", "tags"], ["monitors", "groups", "tags"])
  {
    ListsByPosition(EDITOR[..7], ["monitors", "heartbeats", "groups", "tags"], ["monitors", "groups", "tags"], [0, 4, 1, 2, 5, 3, 6], [0, 2, 3, 5, 1, 4, 6]);
  }

  lemma EditorRest()
    ensures Lists(EDITOR[7..], ["notifications", "maintenance", "incidents", "status_pages"], ["notifications", "maintenance", "incidents", "status_pages"])
  {
    ListsByPosition(EDITOR[7..], ["notifications", "maintenance", "incidents", "status_pages"], ["notifications", "maintenance", "incidents", "status_pages"], [0, 4, 1, 5, 2, 6, 3, 7], [0, 2, 4, 6, 1, 3, 5, 7]);
  }

  lemma EditorLists()
    ensures Lists(EDITOR,
      ["monitors", "heartbeats", "groups", "tags"] + ["notifications", "maintenance", "incidents", "status_pages"],
      ["monitors", "groups", "tags"] + ["notifications", "maintenance", "incidents", "status_pages"])
  {
    EditorFirst();
    EditorRest();
    ListsJoin(EDITOR, 7, ["monitors", "heartbeats", "groups", "tags"], ["monitors", "groups", "tags"],
      ["notifications", "maintenance", "incidents", "status_pages"], ["notifications", "maintenance", "incidents", "status_pages"]);
  }

  /** What each role may do with a resource: a viewer only reads, a responder also writes
      incidents and maintenance, an editor writes all it reads but heartbeats. */
  lemma RoleGrants(r: string)
    requires ':' !in r
    ensures Grants(ScopesFor("viewer"), r + ":read") <==>
      r in ["monitors", "heartbeats", "groups", "tags", "incidents", "status_pages", "maintenance"]
    ensures !Grants(ScopesFor("viewer"), r + ":write")
    ensures Grants(ScopesFor("responder"), r + ":read") <==>
      r in ["monitors", "heartbeats", "groups", "tags", "incidents", "maintenance"]
    ensures Grants(ScopesFor("responder"), r + ":write") <==> r in ["incidents", "maintenance"]
    ensures Grants(ScopesFor("editor"), r + ":read") <==>
      r in ["monitors", "heartbeats", "groups", "tags"] + ["notifications", "maintenance", "incidents", "status_pages"]
    ensures Grants(ScopesFor("editor"), r + ":write") <==>
      r in ["monitors", "groups", "tags"] + ["notifications", "maintenance", "incidents", "status_pages"]
  {
    ViewerGrants(r);
    ResponderGrants(r);
    EditorLists();
    TableGrants(EDITOR,
      ["monitors", "heartbeats", "groups", "tags"] + ["notifications", "maintenance", "incidents", "status_pages"],
      ["monitors", "groups", "tags"] + ["notifications", "maintenance", "incidents", "status_pages"], r);
  }

  lemma ViewerGrants(r: string)
    requires ':' !in r
    ensures Grants(VIEWER, r + ":read") <==>
      r in ["monitors", "heartbeats", "groups", "tags", "incidents", "status_pages", "maintenance"]
    ensures !Grants(VIEWER, r + ":write")
  {
    ViewerLists();
    TableGrants(VIEWER, ["monitors", "heartbeats", "groups", "tags", "incidents", "status_pages", "maintenance"], [], r);
  }

  lemma ResponderGrants(r: string)
    requires ':' !in r
    ensures Grants(RESPONDER, r + ":read") <==>
      r in ["monitors", "heartbeats", "groups", "tags", "incidents", "maintenance"]
    ensures Grants(RESPONDER, r + ":write") <==> r in ["incidents", "maintenance"]
  {
    ResponderLists();
    TableGrants(RESPONDER, ["monitors", "heartbeats", "groups", "tags", "incidents", "maintenance"], ["incidents", "maintenance"], r);
  }

  lemma EditorScope(s: Scope)
    requires s in EDITOR
    ensures s != "" && s[0] != 'a' && s[0] != ':'
  {
    var k :| 0 <= k < |EDITOR| && EDITOR[k] == s;
  }

  /** Only an owner or administrator may manage keys: what an editor holds starts with no 'a'. */
  lemma EditorsHaveNoKeys(want: Scope)
    requires want != "" && want[0] == 'a'
    ensures !Grants(ScopesFor("editor"), want)
  {
    forall s | s in EDITOR ensures !Implies(s, want) {
      EditorScope(s);
      ImpliesExactly(s, want);
    }
  }

  // ---- what keys can hold ----

  /** Some key grants it, whether or not it can be used now. */
  ghost predicate Reachable(keys: Keys, want: Scope) {
    exists id :: id in keys && Grants(keys[id].scopes, want)
  }

  /** What a step can add is what its caller already held. */
  lemma StepDelegates(keys: Keys, a: Step, want: Scope)
    ensures Reachable(Apply(keys, a), want) ==>
      Reachable(keys, want) || (a.caller.ByUser? && Grants(ScopesFor(a.caller.role), want))
  {
    var keys' := Apply(keys, a);
    if id :| id in keys' && Grants(keys'[id].scopes, want) {
      if !Reachable(keys, want) {
        var held := CallerScopes(keys, a.caller);
        assert Covers(held, keys'[id].scopes);
        GrantsThrough(held, keys'[id].scopes, want);
      }
    }
  }

  function Run(keys: Keys, steps: seq<Step>): Keys
    decreases |steps|
  {
    if steps == [] then keys else Run(Apply(keys, steps[0]), steps[1..])
  }

  /** Steps performed by keys never enlarge the union of what all keys grant. */
  lemma {:induction false} KeysNeverEscalate(keys: Keys, steps: seq<Step>, want: Scope)
    requires forall a | a in steps :: a.caller.ByKey?
    requires Reachable(Run(keys, steps), want)
    ensures Reachable(keys, want)
    decreases |steps|
  {
    if steps != [] {
      assert steps[0] in steps && forall a | a in steps[1..] :: a in steps;
      KeysNeverEscalate(Apply(keys, steps[0]), steps[1..], want);
      StepDelegates(keys, steps[0], want);
    }
  }

  /** With users acting too, whatever a key grants was granted by some key at the start or
      is held by the role of some user who acted. */
  lemma {:induction false} GrantsComeFromUsers(keys: Keys, steps: seq<Step>, want: Scope)
    requires Reachable(Run(keys, steps), want)
    ensures Reachable(keys, want) || exists a :: a in steps && a.caller.ByUser? && Grants(ScopesFor(a.caller.role), want)
    decreases |steps|
  {
    if steps != [] {
      GrantsComeFromUsers(Apply(keys, steps[0]), steps[1..], want);
      assert steps[0] in steps && forall a | a in steps[1..] :: a in steps;
      StepDelegates(keys, steps[0], want);
    }
  }

  predicate KeysValid(keys: Keys) {
    forall id | id in keys :: AllValid(keys[id].scopes)
  }

  /** Keys only ever hold scopes the specification defines, and a revoked key stays so. */
  lemma {:induction false} KeysStayValid(keys: Keys, steps: seq<Step>)
    requires KeysValid(keys)
    ensures KeysValid(Run(keys, steps))
    decreases |steps|
  {
    if steps != [] {
      KeysStayValid(Apply(keys, steps[0]), steps[1..]);
    }
  }

  ghost predicate RunEnabled(keys: Keys, steps: seq<Step>)
    decreases |steps|
  {
    steps == [] || (Enabled(keys, steps[0]) && RunEnabled(Apply(keys, steps[0]), steps[1..]))
  }

  lemma {:induction false} RevokedForever(keys: Keys, steps: seq<Step>, id: KeyId)
    requires RunEnabled(keys, steps) && id in keys && keys[id].revoked
    ensures id in Run(keys, steps) && Run(keys, steps)[id].revoked
    decreases |steps|
  {
    if steps != [] {
      RevokedForever(Apply(keys, steps[0]), steps[1..], id);
    }
  }

  // ---- what keys that can be used grant ----

  /** model.APIKey.Usable. */
  predicate Usable(k: Key, now: int) {
    !k.revoked && (k.expires.None? || now < k.expires.value)
  }

  ghost predicate UsableGrants(keys: Keys, want: Scope, now: int) {
    exists id :: id in keys && Usable(keys[id], now) && Grants(keys[id].scopes, want)
  }

  /** A request gets this far if its key can be used; users come with a session. */
  predicate Authenticated(keys: Keys, a: Step) {
    a.caller.ByKey? ==> a.caller.id in keys && Usable(keys[a.caller.id], a.now)
  }

  /** The update without scopes that moves a key's expiry from before an instant past it: the
      one write that is not checked against what its caller holds. */
  predicate Prolongs(keys: Keys, a: Step, later: int) {
    && a.Update? && a.change.None? && a.id in keys && !keys[a.id].revoked && !Usable(keys[a.id], later)
    && a.expires.Some? && later < a.expires.value
  }

  /** It revives the key if that had expired already. */
  predicate Revives(keys: Keys, a: Step) {
    Prolongs(keys, a, a.now)
  }

  /** The write of scopes, all of which its caller holds, into a key that outlives an
      instant. */
  predicate HandsOn(keys: Keys, a: Step, want: Scope, later: int) {
    match a
    case Create(caller, id, scopes, expires, now) =>
      && CreateStatus(CallerScopes(keys, caller), scopes, expires, now).Created?
      && Grants(scopes, want) && Usable(Key(scopes, expires, false), later)
    case Update(caller, id, change, expires, now) =>
      && change.Some? && id in keys && UpdateStatus(CallerScopes(keys, caller), change).Updated?
      && Grants(change.value, want)
      && Usable(Key(change.value, if expires.Some? then expires else keys[id].expires, keys[id].revoked), later)
    case Revoke(_, _, _) => false
  }

  /** A step adds to what keys usable at some instant, now or later, grant exactly when it
      prolongs beyond it a key that grants more, or hands on beyond it what its caller
      holds. */
  lemma GrantsLater(keys: Keys, a: Step, want: Scope, later: int)
    requires Enabled(keys, a) && !UsableGrants(keys, want, later)
    ensures UsableGrants(Apply(keys, a), want, later) <==>
      (Prolongs(keys, a, later) && Grants(keys[a.id].scopes, want)) || HandsOn(keys, a, want, later)
  {
    var keys' := Apply(keys, a);
    if id :| id in keys' && Usable(keys'[id], later) && Grants(keys'[id].scopes, want) {
      assert id == a.id;
    }
    if (Prolongs(keys, a, later) && Grants(keys[a.id].scopes, want)) || HandsOn(keys, a, want, later) {
      assert a.id in keys' && Usable(keys'[a.id], later) && Grants(keys'[a.id].scopes, want);
    }
  }

  /** What is handed on was held: by a key that can be used now, or by the user's role. */
  lemma HandedOnWasHeld(keys: Keys, a: Step, want: Scope, later: int)
    requires Authenticated(keys, a)
    ensures HandsOn(keys, a, want, later) ==>
      if a.caller.ByKey? then UsableGrants(keys, want, a.now) else Grants(ScopesFor(a.caller.role), want)
  {
    if HandsOn(keys, a, want, later) {
      var held := CallerScopes(keys, a.caller);
      GrantsThrough(held, if a.Create? then a.scopes else a.change.value, want);
    }
  }

  /** At its own instant a step by a key that can be used enlarges what such keys grant
      exactly when it revives a key that grants more. */
  lemma OnlyRevivalEscalates(keys: Keys, a: Step, want: Scope)
    requires Enabled(keys, a) && Authenticated(keys, a) && !UsableGrants(keys, want, a.now)
    ensures a.caller.ByKey? ==> (UsableGrants(Apply(keys, a), want, a.now) <==> Revives(keys, a) && Grants(keys[a.id].scopes, want))
    ensures a.caller.ByUser? && UsableGrants(Apply(keys, a), want, a.now) ==>
      (Revives(keys, a) && Grants(keys[a.id].scopes, want)) || Grants(ScopesFor(a.caller.role), want)
  {
    GrantsLater(keys, a, want, a.now);
    HandedOnWasHeld(keys, a, want, a.now);
  }

  /** At any instant a step by a key that can be used enlarges what such keys will grant
      beyond what they grant now exactly when it prolongs a key that grants more. */
  lemma OnlyProlongingEscalates(keys: Keys, a: Step, want: Scope, later: int)
    requires Enabled(keys, a) && Authenticated(keys, a) && a.caller.ByKey? && a.now <= later
    requires !UsableGrants(keys, want, later) && !UsableGrants(keys, want, a.now)
    ensures UsableGrants(Apply(keys, a), want, later) <==> Prolongs(keys, a, later) && Grants(keys[a.id].scopes, want)
  {
    GrantsLater(keys, a, want, later);
    HandedOnWasHeld(keys, a, want, later);
  }

  /** Time alone only takes grants away. */
  lemma GrantsExpire(keys: Keys, want: Scope, now: int, later: int)
    requires now <= later && UsableGrants(keys, want, later)
    ensures UsableGrants(keys, want, now)
  {
    var id :| id in keys && Usable(keys[id], later) && Grants(keys[id].scopes, want);
    assert Usable(keys[id], now);
  }

  /** Authenticated requests, in order of time from t on. */
  ghost predicate UsableRun(keys: Keys, t: int, steps: seq<Step>)
    decreases |steps|
  {
    steps == [] ||
    (t <= steps[0].now && Enabled(keys, steps[0]) && Authenticated(keys, steps[0])
     && UsableRun(Apply(keys, steps[0]), steps[0].now, steps[1..]))
  }

  function End(t: int, steps: seq<Step>): int {
    if steps == [] then t else steps[|steps| - 1].now
  }

  /** Some step of the run revives a key that grants it. */
  ghost predicate RevivedInRun(keys: Keys, steps: seq<Step>, want: Scope)
    decreases |steps|
  {
    steps != [] && ((Revives(keys, steps[0]) && Grants(keys[steps[0].id].scopes, want))
                    || RevivedInRun(Apply(keys, steps[0]), steps[1..], want))
  }

  /** Whatever usable keys grant at the end of a run, usable keys granted at its start, or
      an expired key granting it was revived on the way, or the role of a user who acted
      holds it. */
  lemma {:induction false} UsableGrantsComeFrom(keys: Keys, t: int, steps: seq<Step>, want: Scope, later: int)
    requires UsableRun(keys, t, steps) && End(t, steps) <= later && UsableGrants(Run(keys, steps), want, later)
    ensures UsableGrants(keys, want, t) || RevivedInRun(keys, steps, want)
            || exists a :: a in steps && a.caller.ByUser? && Grants(ScopesFor(a.caller.role), want)
    decreases |steps|
  {
    if steps == [] {
      GrantsExpire(keys, want, t, later);
    } else {
      var a, rest := steps[0], steps[1..];
      assert a in steps && (forall b | b in rest :: b in steps) && End(a.now, rest) == End(t, steps);
      UsableGrantsComeFrom(Apply(keys, a), a.now, rest, want, later);
      if UsableGrants(keys, want, a.now) {
        GrantsExpire(keys, want, t, a.now);
      } else if UsableGrants(Apply(keys, a), want, a.now) {
        OnlyRevivalEscalates(keys, a, want);
      }
    }
  }

  /** Hence usable keys never escalate while none of them revives an expired one. */
  lemma UsableKeysNeverEscalate(keys: Keys, t: int, steps: seq<Step>, want: Scope, later: int)
    requires UsableRun(keys, t, steps) && End(t, steps) <= later && forall a | a in steps :: a.caller.ByKey?
    requires !RevivedInRun(keys, steps, want) && UsableGrants(Run(keys, steps), want, later)
    ensures UsableGrants(keys, want, t)
  {
    UsableGrantsComeFrom(keys, t, steps, want, later);
  }

  /** An owner makes a key that may manage keys and one for users that expires at 10. */
  lemma WeakAndStrong() returns (keys: Keys)
    ensures var made := [Create(ByUser("owner"), 1, ["api_keys:write"], None, 0),
                         Create(ByUser("owner"), 2, ["users:write"], Some(10), 0)];
      UsableRun(map[], 0, made) && Run(map[], made) == keys
    ensures keys == map[1 := Key(["api_keys:write"], None, false), 2 := Key(["users:write"], Some(10), false)]
    ensures !Grants(["api_keys:write"], "users:write") && Grants(["users:write"], "users:write")
  {
    var c1, c2 := Create(ByUser("owner"), 1, ["api_keys:write"], None, 0), Create(ByUser("owner"), 2, ["users:write"], Some(10), 0);
    OwnerMints(map[], 1, "api_keys:write", None);
    var keys1 := Apply(map[], c1);
    OwnerMints(keys1, 2, "users:write", Some(10));
    keys := Apply(keys1, c2);
    TwoSteps(map[], c1, c2);
    WriteIsNotWrite();
  }

  lemma WriteIsNotWrite()
    ensures !Grants(["api_keys:write"], "users:write") && Grants(["users:write"], "users:write")
  {
    var a, b := "api_keys:write", "users:write";
    assert a[0] != b[0] && b[|b| - 1] == 'e';
    EndsInE(a, b);
    GrantsOfOne(a, b);
    GrantsOfOne(b, b);
  }

  lemma GrantsOfOne(a: Scope, want: Scope)
    ensures Grants([a], want) <==> Implies(a, want)
    ensures a == want ==> Implies(a, want)
  {
    assert a in [a];
  }

  /** What is read ends in 'd'. */
  lemma EndsInE(a: Scope, b: Scope)
    requires b != "" && b[|b| - 1] == 'e' && a != b
    ensures !Implies(a, b)
  {
    ImpliesExactly(a, b);
  }

  lemma OwnerMints(keys: Keys, id: KeyId, s: Scope, expires: Option<int>)
    requires id !in keys && ValidScope(s) && (expires.None? || 0 < expires.value)
    ensures Apply(keys, Create(ByUser("owner"), id, [s], expires, 0)) == keys[id := Key([s], expires, false)]
  {
    OwnerMayMint(s);
  }

  lemma TwoSteps(keys: Keys, a: Step, b: Step)
    requires a.now == 0 && Enabled(keys, a) && Authenticated(keys, a)
    requires b.now == 0 && Enabled(Apply(keys, a), b) && Authenticated(Apply(keys, a), b)
    ensures UsableRun(keys, 0, [a, b]) && Run(keys, [a, b]) == Apply(Apply(keys, a), b)
  {
    assert [a, b][1..] == [b] && [b][1..] == [];
    assert UsableRun(Apply(Apply(keys, a), b), 0, []) && UsableRun(Apply(keys, a), 0, [b]) && Run(Apply(keys, a), [b]) == Apply(Apply(keys, a), b);
  }

  /** At 20 the first key, sending no scopes, gives the expired second one until 30. */
  lemma RevivalEscalates() returns (keys: Keys, a: Step)
    ensures var made := [Create(ByUser("owner"), 1, ["api_keys:write"], None, 0),
                         Create(ByUser("owner"), 2, ["users:write"], Some(10), 0)];
      UsableRun(map[], 0, made) && Run(map[], made) == keys
    ensures Enabled(keys, a) && Authenticated(keys, a) && a.caller == ByKey(1) && a.now == 20
    ensures !UsableGrants(keys, "users:write", 20) && UsableGrants(Apply(keys, a), "users:write", 20)
  {
    keys := WeakAndStrong();
    a := Update(ByKey(1), 2, None, Some(30), 20);
    OnlyRevivalEscalates(keys, a, "users:write");
  }

  /** At 5 the first key, sending no scopes, gives the second one until 60: no revival, and
      at 50 usable keys grant what otherwise none would. */
  lemma ProlongingEscalates() returns (keys: Keys, a: Step)
    ensures var made := [Create(ByUser("owner"), 1, ["api_keys:write"], None, 0),
                         Create(ByUser("owner"), 2, ["users:write"], Some(10), 0)];
      UsableRun(map[], 0, made) && Run(map[], made) == keys
    ensures Enabled(keys, a) && Authenticated(keys, a) && a.caller == ByKey(1) && a.now == 5 && !Revives(keys, a)
    ensures !UsableGrants(keys, "users:write", 50) && UsableGrants(Apply(keys, a), "users:write", 50)
  {
    keys := WeakAndStrong();
    a := Prolonged(keys);
  }

  lemma Prolonged(keys: Keys) returns (a: Step)
    requires keys == map[1 := Key(["api_keys:write"], None, false), 2 := Key(["users:write"], Some(10), false)]
    requires !Grants(["api_keys:write"], "users:write") && Grants(["users:write"], "users:write")
    ensures Enabled(keys, a) && Authenticated(keys, a) && a.caller == ByKey(1) && a.now == 5 && !Revives(keys, a)
    ensures !UsableGrants(keys, "users:write", 50) && UsableGrants(Apply(keys, a), "users:write", 50)
  {
    a := Update(ByKey(1), 2, None, Some(60), 5);
    GrantsLater(keys, a, "users:write", 50);
  }

  lemma OwnerMayMint(s: Scope)
    requires ValidScope(s)
    ensures AllValid([s]) && Covers(ScopesFor("owner"), [s])
  {
    assert Implies(s, s) && s in ALL_SCOPES;
  }
}
