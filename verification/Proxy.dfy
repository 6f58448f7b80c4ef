/** Who is asking: the right-to-left reading of the forwarded header behind declared
    proxies. Go's net package (host and port splitting, address parsing, block
    membership) is a parameter. */
module Proxy {
  import opened Basics
  import Texts
  import Wrap

  type Ip = nat

  datatype Net = Net(splitHostPort: string -> Option<string>, parseIP: string -> Option<Ip>)

  /** The declared blocks, each as a test of the addresses it contains. */
  type Blocks = seq<Ip -> bool>

  datatype Client = Client(ip: string, known: bool)

  /** clientIP: what stands before the first colon. */
  function PeerOf(remote: string): (peer: string)
    ensures ':' !in peer
    ensures ':' !in remote ==> peer == remote
  {
    if remote == "" || remote[0] == ':' then "" else [remote[0]] + PeerOf(remote[1..])
  }

  function TrimLeft(s: string): string {
    if s != "" && Wrap.IsSpace(s[0]) then TrimLeft(s[1..]) else s
  }

  function TrimRight(s: string): string {
    if s != "" && Wrap.IsSpace(s[|s| - 1]) then TrimRight(s[..|s| - 1]) else s
  }

  function TrimSpace(s: string): string {
    TrimRight(TrimLeft(s))
  }

  predicate Bracket(c: char) {
    c == '[' || c == ']'
  }

  /** strings.Trim(s, "[]"). */
  function TrimBrackets(s: string): string {
    if s != "" && Bracket(s[0]) then TrimBrackets(s[1..])
    else if s != "" && Bracket(s[|s| - 1]) then TrimBrackets(s[..|s| - 1])
    else s
  }

  predicate AllSpace(s: string) {
    forall c | c in s :: Wrap.IsSpace(c)
  }

  /** What trimming takes off: all white space at both ends, and nothing else. */
  lemma {:induction false} TrimSpaceExactly(s: string) returns (l: string, t: string)
    ensures s == l + TrimSpace(s) + t && AllSpace(l) && AllSpace(t)
    ensures TrimSpace(s) != "" ==> !Wrap.IsSpace(TrimSpace(s)[0]) && !Wrap.IsSpace(TrimSpace(s)[|TrimSpace(s)| - 1])
  {
    l := TrimLeftExactly(s);
    t := TrimRightExactly(TrimLeft(s));
    if TrimSpace(s) != "" {
      assert TrimSpace(s)[0] == TrimLeft(s)[0];
    }
  }

  lemma {:induction false} TrimLeftExactly(s: string) returns (l: string)
    ensures s == l + TrimLeft(s) && AllSpace(l)
    ensures TrimLeft(s) != "" ==> !Wrap.IsSpace(TrimLeft(s)[0])
  {
    if s != "" && Wrap.IsSpace(s[0]) {
      var rest := TrimLeftExactly(s[1..]);
      l := [s[0]] + rest;
    } else {
      l := "";
    }
  }

  lemma {:induction false} TrimRightExactly(s: string) returns (t: string)
    ensures s == TrimRight(s) + t && AllSpace(t)
    ensures TrimRight(s) != "" ==> !Wrap.IsSpace(TrimRight(s)[|TrimRight(s)| - 1])
    decreases |s|
  {
    if s != "" && Wrap.IsSpace(s[|s| - 1]) {
      var rest := TrimRightExactly(s[..|s| - 1]);
      t := rest + [s[|s| - 1]];
    } else {
      t := "";
    }
  }

  lemma {:induction false} TrimLeftPadded(l: string, s: string)
    requires AllSpace(l)
    ensures TrimLeft(l + s) == TrimLeft(s)
  {
    if l == "" {
      assert l + s == s;
    } else {
      assert (l + s)[1..] == l[1..] + s && l[0] in l;
      TrimLeftPadded(l[1..], s);
    }
  }

  lemma {:induction false} TrimRightPadded(s: string, t: string)
    requires AllSpace(t)
    ensures TrimRight(s + t) == TrimRight(s)
    decreases |t|
  {
    if t == "" {
      assert s + t == s;
    } else {
      var front := t[..|t| - 1];
      assert (s + t)[..|s + t| - 1] == s + front && t[|t| - 1] in t;
      TrimRightPadded(s, front);
    }
  }

  lemma {:induction false} TrimLeftKeepsTail(s: string, t: string)
    ensures TrimLeft(s + t) == if TrimLeft(s) == "" then TrimLeft(t) else TrimLeft(s) + t
  {
    if s == "" {
      assert s + t == t;
    } else {
      assert (s + t)[1..] == s[1..] + t;
      if Wrap.IsSpace(s[0]) {
        TrimLeftKeepsTail(s[1..], t);
      }
    }
  }

  /** White space round an entry makes no difference. */
  lemma TrimSpacePadded(l: string, s: string, t: string)
    requires AllSpace(l) && AllSpace(t)
    ensures TrimSpace(l + s + t) == TrimSpace(s)
  {
    assert l + s + t == l + (s + t);
    TrimLeftPadded(l, s + t);
    TrimLeftKeepsTail(s, t);
    if TrimLeft(s) == "" {
      TrimLeftPadded(t, "");
      assert t + "" == t;
    } else {
      TrimRightPadded(TrimLeft(s), t);
    }
  }

  predicate AllBrackets(s: string) {
    forall c | c in s :: c in ['[', ']']
  }

  /** All brackets at both ends, and nothing else. */
  lemma {:induction false} TrimBracketsExactly(s: string) returns (l: string, t: string)
    ensures s == l + TrimBrackets(s) + t && AllBrackets(l) && AllBrackets(t)
    ensures TrimBrackets(s) != "" ==> TrimBrackets(s)[0] !in ['[', ']'] && TrimBrackets(s)[|TrimBrackets(s)| - 1] !in ['[', ']']
    decreases |s|
  {
    l, t := "", "";
    if s != "" && Bracket(s[0]) {
      l, t := TrimBracketsExactly(s[1..]);
      l := [s[0]] + l;
    } else if s != "" && Bracket(s[|s| - 1]) {
      l, t := TrimBracketsExactly(s[..|s| - 1]);
      t := t + [s[|s| - 1]];
    }
  }

  /** The address an entry names, without port and brackets. */
  function Address(net: Net, entry: string): string {
    var hop := TrimSpace(entry);
    var host := net.splitHostPort(hop);
    TrimBrackets(if host.Some? then host.value else hop)
  }

  predicate Contains(block: Ip -> bool, ip: Ip) {
    block(ip)
  }

  ghost predicate Has(net: Net, blocks: Blocks, ip: string) {
    net.parseIP(ip).Some? && exists k :: 0 <= k < |blocks| && Contains(blocks[k], net.parseIP(ip).value)
  }

  /** trustedProxies.has */
  method IsDeclared(net: Net, blocks: Blocks, ip: string) returns (has: bool)
    ensures has == Has(net, blocks, ip)
  {
    if |blocks| == 0 {
      return false;
    }
    var parsed := net.parseIP(ip);
    if parsed == None {
      return false;
    }
    for k := 0 to |blocks|
      invariant forall j | 0 <= j < k :: !Contains(blocks[j], parsed.value)
    {
      if Contains(blocks[k], parsed.value) {
        return true;
      }
    }
    return false;
  }

  /** An entry that settles the question: not blank, and not a declared proxy. */
  ghost predicate Decisive(net: Net, blocks: Blocks, entry: string) {
    TrimSpace(entry) != "" && !Has(net, blocks, Address(net, entry))
  }

  /** The last decisive entry, at k; -1 when there is none. */
  ghost predicate LastDecisive(net: Net, blocks: Blocks, hops: seq<string>, k: int) {
    && -1 <= k < |hops|
    && (k >= 0 ==> Decisive(net, blocks, hops[k]))
    && forall j | k < j < |hops| :: !Decisive(net, blocks, hops[j])
  }

  /** What the last decisive entry says: its address, if it is one; the peer if none. */
  function Verdict(net: Net, peer: string, hops: seq<string>, k: int): Client
    requires -1 <= k < |hops|
  {
    if k < 0 then Client(peer, true)
    else if net.parseIP(Address(net, hops[k])) == None then Client(peer, false)
    else Client(Address(net, hops[k]), true)
  }

  /** http.Header.Get: the first line of the field, or the empty text. */
  function FirstLine(lines: seq<string>): string {
    if lines == [] then "" else lines[0]
  }

  /** The answer for one text of the field. */
  ghost predicate Answers(net: Net, blocks: Blocks, peer: string, forwarded: string, r: Client) {
    if !Has(net, blocks, peer) then r == Client(peer, forwarded == "")
    else
      exists k :: LastDecisive(net, blocks, Texts.Split(forwarded, ','), k) && r == Verdict(net, peer, Texts.Split(forwarded, ','), k)
  }

  /** internal/api/proxy.go resolveClient. Of several lines of the field only the first is
      read. */
  method ResolveClient(net: Net, blocks: Blocks, remote: string, lines: seq<string>) returns (r: Client)
    ensures lines == [] ==> Answers(net, blocks, PeerOf(remote), "", r)
    ensures lines != [] ==> Answers(net, blocks, PeerOf(remote), lines[0], r)
  {
    var peer := PeerOf(remote);
    var forwarded := FirstLine(lines);
    var declared := IsDeclared(net, blocks, peer);
    if !declared {
      if forwarded == "" {
        return Client(peer, true);
      }
      return Client(peer, false);
    }
    var hops := Texts.Split(forwarded, ',');
    var i := |hops| - 1;
    while i >= 0
      invariant -1 <= i < |hops|
      invariant forall j | i < j < |hops| :: !Decisive(net, blocks, hops[j])
    {
      var hop := TrimSpace(hops[i]);
      if hop == "" {
        i := i - 1;
        continue;
      }
      var host := net.splitHostPort(hop);
      if host.Some? {
        hop := host.value;
      }
      hop := TrimBrackets(hop);
      assert hop == Address(net, hops[i]);
      var skip := IsDeclared(net, blocks, hop);
      if skip {
        i := i - 1;
        continue;
      }
      assert LastDecisive(net, blocks, hops, i);
      if net.parseIP(hop) == None {
        return Client(peer, false);
      }
      return Client(hop, true);
    }
    assert LastDecisive(net, blocks, hops, -1);
    return Client(peer, true);
  }

  /** The relation the method is held to is a function. */
  lemma LastDecisiveUnique(net: Net, blocks: Blocks, hops: seq<string>, k: int, k': int)
    requires LastDecisive(net, blocks, hops, k) && LastDecisive(net, blocks, hops, k')
    ensures k == k'
  {
  }

  /** What a declared proxy forwarded is read from the right: once an entry has settled the
      question, nothing written to the left of it can change the answer; and if none has,
      the answer is whatever the left part alone would have given. */
  lemma LeftOfTheChainIsIgnored(net: Net, blocks: Blocks, peer: string, left: string, right: string, k: int, k': int)
    requires LastDecisive(net, blocks, Texts.Split(right, ','), k)
    requires LastDecisive(net, blocks, Texts.Split(left + "," + right, ','), k')
    ensures k >= 0 ==> Verdict(net, peer, Texts.Split(left + "," + right, ','), k') == Verdict(net, peer, Texts.Split(right, ','), k)
    ensures k < 0 ==> LastDecisive(net, blocks, Texts.Split(left, ','), k')
                      && Verdict(net, peer, Texts.Split(left + "," + right, ','), k') == Verdict(net, peer, Texts.Split(left, ','), k')
  {
    var a, b, all := Texts.Split(left, ','), Texts.Split(right, ','), Texts.Split(left + "," + right, ',');
    Texts.SplitConcat(left, ',', right);
    assert all == a + b;
    assert forall j | 0 <= j < |b| :: all[|a| + j] == b[j];
    assert forall j | 0 <= j < |a| :: all[j] == a[j];
    if k >= 0 {
      assert all[|a| + k] == b[k];
      assert k' == |a| + k;
    } else {
      forall j | |a| <= j < |all| ensures !Decisive(net, blocks, all[j]) {
        assert all[j] == b[j - |a|];
      }
    }
  }

  /** An entry is passed over exactly when it is all white space or names an address that
      some declared block contains. */
  lemma DecisiveExactly(net: Net, blocks: Blocks, entry: string)
    ensures !Decisive(net, blocks, entry) <==>
      || (forall c | c in entry :: Wrap.IsSpace(c))
      || (net.parseIP(Address(net, entry)).Some? && exists k :: 0 <= k < |blocks| && blocks[k](net.parseIP(Address(net, entry)).value))
  {
    var l, t := TrimSpaceExactly(entry);
    if TrimSpace(entry) == "" {
      assert entry == l + t;
    } else {
      assert TrimSpace(entry)[0] in entry;
    }
    assert forall k | 0 <= k < |blocks| && net.parseIP(Address(net, entry)).Some? ::
      Contains(blocks[k], net.parseIP(Address(net, entry)).value) == blocks[k](net.parseIP(Address(net, entry)).value);
  }

  /** What an answer means. The client is known exactly when an undeclared peer forwarded
      nothing, or behind a declared one the last entry that is not passed over, if there is
      one, is an address; it is then that address, which is no declared proxy, or the peer
      when all were passed over. An unknown client is given as the peer. */
  lemma KnownExactly(net: Net, blocks: Blocks, peer: string, forwarded: string, hops: seq<string>, r: Client)
    requires Answers(net, blocks, peer, forwarded, r) && hops == Texts.Split(forwarded, ',')
    ensures !Has(net, blocks, peer) ==> r.ip == peer && (r.known <==> forwarded == "")
    ensures Has(net, blocks, peer) ==>
      && (r.known <==> forall k | LastDecisive(net, blocks, hops, k) && k >= 0 :: net.parseIP(Address(net, hops[k])).Some?)
      && (!r.known ==> r.ip == peer)
      && (r.known ==>
            || (r.ip == peer && forall j | 0 <= j < |hops| :: !Decisive(net, blocks, hops[j]))
            || (net.parseIP(r.ip).Some? && !Has(net, blocks, r.ip)
                && exists k :: 0 <= k < |hops| && Address(net, hops[k]) == r.ip && forall j | k < j < |hops| :: !Decisive(net, blocks, hops[j])))
  {
    if Has(net, blocks, peer) {
      var k :| LastDecisive(net, blocks, hops, k) && r == Verdict(net, peer, hops, k);
      forall k' | LastDecisive(net, blocks, hops, k') ensures k' == k {
        LastDecisiveUnique(net, blocks, hops, k, k');
      }
    }
  }

  /** The forms an entry may have, white space aside: an address that does not split into
      host and port stands for itself, brackets or none; one that does, for its host. */
  lemma AddressForms(net: Net, entry: string, text: string, l: string, t: string)
    requires AllSpace(l) && AllSpace(t) && entry == l + text + t
    requires text != "" && !Wrap.IsSpace(text[0]) && !Wrap.IsSpace(text[|text| - 1])
    ensures forall host, a, b |
      && (net.splitHostPort(text) == Some(a + host + b) || (net.splitHostPort(text) == None && text == a + host + b))
      && AllBrackets(a) && AllBrackets(b)
      && host != "" && host[0] !in ['[', ']'] && host[|host| - 1] !in ['[', ']'] :: Address(net, entry) == host
  {
    TrimSpacePadded(l, text, t);
    forall host, a, b |
      && (net.splitHostPort(text) == Some(a + host + b) || (net.splitHostPort(text) == None && text == a + host + b))
      && AllBrackets(a) && AllBrackets(b)
      && host != "" && host[0] !in ['[', ']'] && host[|host| - 1] !in ['[', ']']
      ensures Address(net, entry) == host
    {
      BracketsOff(a, host, b);
    }
  }

  lemma {:induction false} BracketsOff(a: string, s: string, b: string)
    requires AllBrackets(a) && AllBrackets(b) && s != "" && s[0] !in ['[', ']'] && s[|s| - 1] !in ['[', ']']
    ensures TrimBrackets(a + s + b) == s
    decreases |a| + |b|
  {
    var all := a + s + b;
    if a != "" {
      assert a[0] in a && all[1..] == a[1..] + s + b;
      BracketsOff(a[1..], s, b);
    } else if b != "" {
      assert b[|b| - 1] in b && all[..|all| - 1] == a + s + b[..|b| - 1];
      BracketsOff(a, s, b[..|b| - 1]);
    } else {
      assert all == s;
    }
  }

  /** White space round an entry changes neither what it names nor whether it decides. */
  lemma PaddedEntry(net: Net, blocks: Blocks, l: string, entry: string, t: string)
    requires AllSpace(l) && AllSpace(t)
    ensures Address(net, l + entry + t) == Address(net, entry)
    ensures Decisive(net, blocks, l + entry + t) <==> Decisive(net, blocks, entry)
  {
    TrimSpacePadded(l, entry, t);
  }

  /** Two chains that differ in white space round their entries. */
  ghost predicate SameButSpace(a: seq<string>, b: seq<string>) {
    && |a| == |b| > 0
    && forall i | 0 <= i < |a| :: ',' !in a[i] && ',' !in b[i] && exists l, t :: AllSpace(l) && AllSpace(t) && b[i] == l + a[i] + t
  }

  /** Behind a declared proxy the answer does not depend on white space round the entries. */
  lemma SpaceIsIgnored(net: Net, blocks: Blocks, peer: string, a: seq<string>, b: seq<string>, r: Client)
    requires Has(net, blocks, peer) && SameButSpace(a, b)
    ensures Answers(net, blocks, peer, Texts.Join(a, ','), r) <==> Answers(net, blocks, peer, Texts.Join(b, ','), r)
  {
    Texts.SplitJoin(a, ',');
    Texts.SplitJoin(b, ',');
    forall i | 0 <= i < |a|
      ensures Decisive(net, blocks, b[i]) <==> Decisive(net, blocks, a[i])
      ensures Address(net, b[i]) == Address(net, a[i])
    {
      var l, t :| AllSpace(l) && AllSpace(t) && b[i] == l + a[i] + t;
      PaddedEntry(net, blocks, l, a[i], t);
    }
    assert forall k :: LastDecisive(net, blocks, a, k) <==> LastDecisive(net, blocks, b, k);
    assert forall k | -1 <= k < |a| :: Verdict(net, peer, a, k) == Verdict(net, peer, b, k);
  }

  /** A field has an answer, and one only. */
  lemma OneAnswer(net: Net, blocks: Blocks, peer: string, forwarded: string) returns (r: Client)
    ensures Answers(net, blocks, peer, forwarded, r)
    ensures forall r' :: Answers(net, blocks, peer, forwarded, r') ==> r' == r
  {
    var hops := Texts.Split(forwarded, ',');
    var k := FindLast(net, blocks, hops, |hops|);
    r := if Has(net, blocks, peer) then Verdict(net, peer, hops, k) else Client(peer, forwarded == "");
    forall k' | LastDecisive(net, blocks, hops, k') ensures k' == k {
      LastDecisiveUnique(net, blocks, hops, k, k');
    }
  }

  lemma {:induction false} FindLast(net: Net, blocks: Blocks, hops: seq<string>, n: nat) returns (k: int)
    requires n <= |hops| && forall j | n <= j < |hops| :: !Decisive(net, blocks, hops[j])
    ensures LastDecisive(net, blocks, hops, k)
    decreases n
  {
    if n == 0 {
      k := -1;
    } else if Decisive(net, blocks, hops[n - 1]) {
      k := n - 1;
    } else {
      k := FindLast(net, blocks, hops, n - 1);
    }
  }

  /** When reading the first line alone answers as reading all lines joined by commas would,
      which is what the field means (section 5.3 of RFC 9110): for an undeclared peer, unless
      the first of several lines is empty; behind a declared proxy, unless an entry of the
      later lines settles the question, and otherwise than the first line does. */
  lemma FirstLineIsEnoughExactly(net: Net, blocks: Blocks, peer: string, first: string, more: seq<string>, k: int, r: Client, joined: Client)
    requires more != [] && LastDecisive(net, blocks, Texts.Split(Texts.Join(more, ','), ','), k)
    requires Answers(net, blocks, peer, first, r) && Answers(net, blocks, peer, Texts.Join([first] + more, ','), joined)
    ensures r == joined <==>
      if !Has(net, blocks, peer) then first != ""
      else k < 0 || Verdict(net, peer, Texts.Split(Texts.Join(more, ','), ','), k) == r
  {
    var right := Texts.Join(more, ',');
    var whole := Texts.Join([first] + more, ',');
    assert ([first] + more)[1..] == more && whole == first + "," + right;
    if Has(net, blocks, peer) {
      var k1 :| LastDecisive(net, blocks, Texts.Split(first, ','), k1) && r == Verdict(net, peer, Texts.Split(first, ','), k1);
      var k2 :| LastDecisive(net, blocks, Texts.Split(whole, ','), k2) && joined == Verdict(net, peer, Texts.Split(whole, ','), k2);
      LeftOfTheChainIsIgnored(net, blocks, peer, first, right, k, k2);
      if k < 0 {
        LastDecisiveUnique(net, blocks, Texts.Split(first, ','), k1, k2);
      }
    } else {
      assert whole != "";
    }
  }

  lemma {:induction false} CutAtColon(s: string, rest: string)
    requires ':' !in s
    ensures PeerOf(s + ":" + rest) == s
  {
    if s != "" {
      assert (s + ":" + rest)[1..] == s[1..] + ":" + rest;
      CutAtColon(s[1..], rest);
      assert [s[0]] + s[1..] == s;
    }
  }

  /** Of an address and port the peer is the address exactly when the address has no colon,
      as an IPv6 address always has. */
  lemma PeerIsTheHostExactly(host: string, port: string)
    ensures PeerOf(host + ":" + port) == host <==> ':' !in host
  {
    if ':' !in host {
      CutAtColon(host, port);
    }
  }

  /** A bracketed address is cut at its first group, so all that share one are the same
      peer; and as no address starts with a bracket, it is never a declared proxy. */
  lemma BracketedPeerIsNeverDeclared(net: Net, blocks: Blocks, group: string, rest: string)
    requires ':' !in group && net.parseIP("[" + group) == None
    ensures PeerOf("[" + group + ":" + rest) == "[" + group
    ensures !Has(net, blocks, PeerOf("[" + group + ":" + rest))
  {
    CutAtColon("[" + group, rest);
  }
}
