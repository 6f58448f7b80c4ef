/** The encoded argon2id hash: its printer, its parser, and that they undo each other.
    argon2 itself is a parameter, and so is the salt. */
module Password {
  import opened Basics
  import Base64
  import Texts
  import Wrap

  const ARGON_VERSION: int := 19
  const ARGON_MEMORY: nat := 19456
  const ARGON_TIME: nat := 2
  const ARGON_THREADS: nat := 1
  const ARGON_KEY_LEN: nat := 32

  /** argon2.IDKey: password, salt, time, memory, threads and key length. */
  type Argon = (string, seq<Byte>, nat, nat, nat, nat) -> seq<Byte>

  // ---- decimal numbers ----

  function Print(n: nat): (s: string)
    ensures s != "" && forall c | c in s :: IsDigit(c)
  {
    if n < 10 then ['0' + n as char] else Print(n / 10) + ['0' + (n % 10) as char]
  }

  predicate IsDigit(c: char) {
    '0' <= c <= '9'
  }

  /** The longest run of digits at the front. */
  function Digits(s: string): (d: string)
    ensures d <= s && forall c | c in d :: IsDigit(c)
  {
    if s != "" && IsDigit(s[0]) then [s[0]] + Digits(s[1..]) else ""
  }

  function Number(d: string): nat
    requires forall c | c in d :: IsDigit(c)
  {
    if d == "" then 0
    else
      var last := d[|d| - 1];
      assert last in d && IsDigit(last);
      Number(d[..|d| - 1]) * 10 + (last as int - '0' as int)
  }

  lemma {:induction false} NumberOfPrint(n: nat)
    ensures Number(Print(n)) == n
  {
    var s := Print(n);
    if n >= 10 {
      NumberOfPrint(n / 10);
      assert s[..|s| - 1] == Print(n / 10);
    } else {
      assert s[..0] == "" && Number("") == 0;
    }
  }

  function Pow10(k: nat): nat {
    if k == 0 then 1 else 10 * Pow10(k - 1)
  }

  /** Digits count by their place, the greatest place first. */
  lemma {:induction false} NumberConcat(a: string, b: string)
    requires (forall c | c in a :: IsDigit(c)) && forall c | c in b :: IsDigit(c)
    ensures Number(a + b) == Number(a) * Pow10(|b|) + Number(b)
    decreases |b|
  {
    if b == "" {
      assert a + b == a;
    } else {
      var front, last := b[..|b| - 1], b[|b| - 1];
      assert (a + b)[..|a + b| - 1] == a + front;
      NumberConcat(a, front);
      Distribute(Number(a), Pow10(|front|), Number(front));
    }
  }

  lemma Distribute(x: nat, y: nat, z: nat)
    ensures (x * y + z) * 10 == x * (10 * y) + z * 10
  {
  }

  /** A printed number begins with no zero, but for zero itself, and every digit is itself. */
  lemma {:induction false} PrintExactly(n: nat)
    ensures n > 0 ==> Print(n)[0] != '0'
    ensures n < 10 ==> Print(n) == ["0123456789"[n]] && Number(["0123456789"[n]]) == n
  {
    if n >= 10 {
      PrintExactly(n / 10);
    } else {
      NumberOfPrint(n);
      assert ["0123456789"[n]] == ['0' + n as char];
    }
  }

  lemma {:induction false} DigitsOf(d: string, rest: string)
    requires forall c | c in d :: IsDigit(c)
    requires rest == "" || !IsDigit(rest[0])
    ensures Digits(d + rest) == d
  {
    if d == "" {
      assert d + rest == rest;
    } else {
      assert (d + rest)[1..] == d[1..] + rest;
      DigitsOf(d[1..], rest);
    }
  }

  // ---- fmt.Sscanf for the two formats used ----

  /** White space before a number is skipped, but a newline is an error. */
  function SkipSpace(s: string): Option<string> {
    if s == "" || !Wrap.IsSpace(s[0]) then Some(s)
    else if s[0] == '\n' then None
    else SkipSpace(s[1..])
  }

  function Literal(s: string, lit: string): Option<string> {
    if lit <= s then Some(s[|lit|..]) else None
  }

  /** %d into an unsigned variable that holds numbers below limit. */
  function ScanUint(s: string, limit: nat): Option<(nat, string)> {
    var t := SkipSpace(s);
    if t == None then None
    else
      var d := Digits(t.value);
      if d == "" || Number(d) >= limit then None else Some((Number(d), t.value[|d|..]))
  }

  /** %d into an int of 64 bits. */
  function ScanInt(s: string): Option<(int, string)> {
    var t := SkipSpace(s);
    if t == None then None else ScanSigned(t.value)
  }

  function ScanSigned(t: string): Option<(int, string)> {
    if t != "" && (t[0] == '+' || t[0] == '-') then ScanDigits(t[1..], t[0] == '-') else ScanDigits(t, false)
  }

  function ScanDigits(u: string, negative: bool): Option<(int, string)> {
    var d := Digits(u);
    var n: int := if negative then 0 - Number(d) else Number(d);
    if d == "" || n < -0x8000_0000_0000_0000 || n >= 0x8000_0000_0000_0000 then None else Some((n, u[|d|..]))
  }

  /** "v=%d"; what follows is not looked at. */
  function ScanVersion(s: string): Option<int> {
    var a := Literal(s, "v=");
    if a == None then None
    else var n := ScanInt(a.value); if n == None then None else Some(n.value.0)
  }

  datatype Params = Params(memory: nat, time: nat, threads: nat)

  /** "m=%d,t=%d,p=%d" into two 32-bit numbers and an 8-bit one. */
  function ScanParams(s: string): Option<Params> {
    var a := Literal(s, "m=");
    if a == None then None else
    var m := ScanUint(a.value, 0x1_0000_0000);
    if m == None then None else
    var b := Literal(m.value.1, ",t=");
    if b == None then None else
    var t := ScanUint(b.value, 0x1_0000_0000);
    if t == None then None else
    var c := Literal(t.value.1, ",p=");
    if c == None then None else
    var p := ScanUint(c.value, 0x100);
    if p == None then None else Some(Params(m.value.0, t.value.0, p.value.0))
  }

  // ---- printing and verifying ----

  datatype Hash = Hash(version: int, params: Params, salt: seq<Byte>, digest: seq<Byte>)

  function PrintVersion(v: nat): string {
    "v=" + Print(v)
  }

  function PrintParams(p: Params): string {
    "m=" + Print(p.memory) + ",t=" + Print(p.time) + ",p=" + Print(p.threads)
  }

  function Encode(h: Hash): string
    requires h.version >= 0
  {
    "$argon2id$" + (PrintVersion(h.version) + ("$" + (PrintParams(h.params) + ("$" + (Base64.Encode(h.salt) + ("$" + Base64.Encode(h.digest)))))))
  }

  function HashPassword(argon: Argon, password: string, salt: seq<Byte>): string {
    var sum := argon(password, salt, ARGON_TIME, ARGON_MEMORY, ARGON_THREADS, ARGON_KEY_LEN);
    Encode(Hash(ARGON_VERSION, Params(ARGON_MEMORY, ARGON_TIME, ARGON_THREADS), salt, sum))
  }

  datatype Parsed = Good(hash: Hash) | InvalidHash | WrongVersion(version: int)

  function Parse(encoded: string): Parsed {
    var parts := Texts.Split(encoded, '$');
    if |parts| != 6 || parts[1] != "argon2id" then InvalidHash else
    var version := ScanVersion(parts[2]);
    if version == None then InvalidHash
    else if version.value != ARGON_VERSION then WrongVersion(version.value) else
    var params := ScanParams(parts[3]);
    if params == None then InvalidHash else
    var salt := Base64.Decode(parts[4]);
    if salt == None then InvalidHash else
    var want := Base64.Decode(parts[5]);
    if want == None then InvalidHash else Good(Hash(version.value, params.value, salt.value, want.value))
  }

  datatype Verdict = Answer(matches: bool) | Refused(why: Parsed)

  function VerifyPassword(argon: Argon, password: string, encoded: string): Verdict {
    var p := Parse(encoded);
    if !p.Good? then Refused(p)
    else
      var h := p.hash;
      Answer(argon(password, h.salt, h.params.time, h.params.memory, h.params.threads, |h.digest|) == h.digest)
  }

  predicate InRange(p: Params) {
    p.memory < 0x1_0000_0000 && p.time < 0x1_0000_0000 && p.threads < 0x100
  }

  lemma ScanUintOf(n: nat, rest: string, limit: nat)
    requires n < limit && (rest == "" || !IsDigit(rest[0]))
    ensures ScanUint(Print(n) + rest, limit) == Some((n, rest))
  {
    var s := Print(n) + rest;
    assert s[0] == Print(n)[0] && Print(n)[0] in Print(n) && !Wrap.IsSpace(s[0]);
    DigitsOf(Print(n), rest);
    NumberOfPrint(n);
    assert s[|Print(n)|..] == rest;
  }

  lemma ScanVersionOf(v: nat)
    requires v < 0x8000_0000_0000_0000
    ensures ScanVersion(PrintVersion(v)) == Some(v)
  {
    var d := Print(v);
    assert d[0] in d && IsDigit(d[0]) && !Wrap.IsSpace(d[0]);
    LiteralOf("v=", d);
    DigitsOf(d, "");
    assert d + "" == d;
    NumberOfPrint(v);
    assert ScanInt(d) == Some((v, ""));
  }

  lemma LiteralOf(lit: string, rest: string)
    ensures Literal(lit + rest, lit) == Some(rest)
  {
    assert (lit + rest)[|lit|..] == rest;
  }

  lemma ScanThree(m: nat, t: nat, p: nat, s1: string, s2: string, s3: string)
    requires InRange(Params(m, t, p))
    requires Literal(s1, "m=") == Some(Print(m) + s2) && Literal(s2, ",t=") == Some(Print(t) + s3)
    requires Literal(s3, ",p=") == Some(Print(p) + "")
    ensures ScanParams(s1) == Some(Params(m, t, p))
  {
    ScanUintOf(m, s2, 0x1_0000_0000);
    ScanUintOf(t, s3, 0x1_0000_0000);
    ScanUintOf(p, "", 0x100);
  }

  lemma ScanParamsOf(p: Params)
    requires InRange(p)
    ensures ScanParams(PrintParams(p)) == Some(p)
  {
    var third := ",p=" + Print(p.threads);
    var second := ",t=" + (Print(p.time) + third);
    assert PrintParams(p) == "m=" + (Print(p.memory) + second);
    LiteralOf("m=", Print(p.memory) + second);
    LiteralOf(",t=", Print(p.time) + third);
    LiteralOf(",p=", Print(p.threads));
    assert Print(p.threads) + "" == Print(p.threads);
    ScanThree(p.memory, p.time, p.threads, PrintParams(p), second, third);
  }

  lemma NoDollar(v: nat, p: Params)
    ensures '$' !in PrintVersion(v) && '$' !in PrintParams(p)
  {
    assert !IsDigit('$');
  }

  lemma SplitFirst(x: string, rest: string)
    requires '$' !in x
    ensures Texts.Split(x + ("$" + rest), '$') == [x] + Texts.Split(rest, '$')
  {
    var text := x + ['$'] + rest;
    assert x + ("$" + rest) == text;
    Texts.SplitWhole(x, '$');
    Texts.SplitConcat(x, '$', rest);
    assert Texts.Split(text, '$') == [x] + Texts.Split(rest, '$');
  }

  lemma SplitFour(v: string, p: string, s: string, d: string)
    requires '$' !in v && '$' !in p && '$' !in s && '$' !in d
    ensures Texts.Split(v + ("$" + (p + ("$" + (s + ("$" + d))))), '$') == [v, p, s, d]
  {
    SplitFirst(v, p + ("$" + (s + ("$" + d))));
    SplitFirst(p, s + ("$" + d));
    SplitFirst(s, d);
    Texts.SplitWhole(d, '$');
  }

  lemma SplitSix(v: string, p: string, s: string, d: string)
    requires '$' !in v && '$' !in p && '$' !in s && '$' !in d
    ensures Texts.Split("$argon2id$" + (v + ("$" + (p + ("$" + (s + ("$" + d)))))), '$') == ["", "argon2id", v, p, s, d]
  {
    var four := v + ("$" + (p + ("$" + (s + ("$" + d)))));
    SplitFour(v, p, s, d);
    SplitFirst("argon2id", four);
    SplitFirst("", "argon2id" + ("$" + four));
    assert "" + ("$" + ("argon2id" + ("$" + four))) == "$argon2id$" + four;
  }

  lemma EncodeParts(h: Hash)
    requires h.version >= 0
    ensures Texts.Split(Encode(h), '$')
            == ["", "argon2id", PrintVersion(h.version), PrintParams(h.params), Base64.Encode(h.salt), Base64.Encode(h.digest)]
  {
    NoDollar(h.version, h.params);
    Base64.RoundTrip(h.salt);
    Base64.RoundTrip(h.digest);
    SplitSix(PrintVersion(h.version), PrintParams(h.params), Base64.Encode(h.salt), Base64.Encode(h.digest));
  }

  /** Parsing recovers exactly the version, parameters, salt and digest that were printed. */
  lemma ParseRoundTrip(h: Hash)
    requires h.version == ARGON_VERSION && InRange(h.params)
    ensures Parse(Encode(h)) == Good(h)
  {
    EncodeParts(h);
    var parts := Texts.Split(Encode(h), '$');
    ScanVersionOf(h.version);
    ScanParamsOf(h.params);
    Base64.RoundTrip(h.salt);
    Base64.RoundTrip(h.digest);
    assert ScanVersion(parts[2]) == Some(h.version) && ScanParams(parts[3]) == Some(h.params);
    assert Base64.Decode(parts[4]) == Some(h.salt) && Base64.Decode(parts[5]) == Some(h.digest);
  }

  // ---- what is accepted, whoever wrote it ----

  predicate Padding(pad: string) {
    forall c | c in pad :: Wrap.IsSpace(c) && c != '\n'
  }

  lemma {:induction false} SkipsPadding(pad: string, t: string)
    requires Padding(pad) && (t == "" || !Wrap.IsSpace(t[0]))
    ensures SkipSpace(pad + t) == Some(t)
  {
    if pad == "" {
      assert pad + t == t;
    } else {
      assert (pad + t)[1..] == pad[1..] + t && pad[0] in pad;
      SkipsPadding(pad[1..], t);
    }
  }

  lemma {:induction false} SkipsOnlyPadding(s: string) returns (pad: string)
    requires SkipSpace(s).Some?
    ensures s == pad + SkipSpace(s).value && Padding(pad)
    ensures SkipSpace(s).value != "" ==> !Wrap.IsSpace(SkipSpace(s).value[0])
  {
    if s == "" || !Wrap.IsSpace(s[0]) {
      pad := "";
    } else {
      var rest := SkipsOnlyPadding(s[1..]);
      pad := [s[0]] + rest;
    }
  }

  lemma {:induction false} DigitsAreAll(s: string)
    ensures |Digits(s)| < |s| ==> !IsDigit(s[|Digits(s)|])
  {
    if s != "" && IsDigit(s[0]) {
      DigitsAreAll(s[1..]);
    }
  }

  /** A number as it may be written: white space but no newline, digits of which there is at
      least one, and after them no further digit. */
  ghost predicate Written(s: string, pad: string, d: string, rest: string) {
    s == pad + d + rest && Padding(pad) && d != "" && (forall c | c in d :: IsDigit(c)) && (rest == "" || !IsDigit(rest[0]))
  }

  lemma ScanUintReads(s: string, limit: nat, n: nat, rest: string) returns (pad: string, d: string)
    requires ScanUint(s, limit) == Some((n, rest))
    ensures n < limit && Written(s, pad, d, rest) && Number(d) == n
  {
    pad := SkipsOnlyPadding(s);
    var t := SkipSpace(s).value;
    d := Digits(t);
    DigitsAreAll(t);
    Reassemble(s, pad, t, d, rest);
  }

  lemma Reassemble(s: string, pad: string, t: string, d: string, rest: string)
    requires s == pad + t && d <= t && rest == t[|d|..]
    ensures s == pad + d + rest && (rest != "" ==> |d| < |t| && rest[0] == t[|d|])
  {
  }

  lemma ScanUintReadsIt(s: string, limit: nat, pad: string, d: string, rest: string)
    requires Written(s, pad, d, rest) && Number(d) < limit
    ensures ScanUint(s, limit) == Some((Number(d), rest))
  {
    assert d[0] in d && s == pad + (d + rest);
    SkipsPadding(pad, d + rest);
    DigitsOf(d, rest);
    assert (d + rest)[|d|..] == rest;
  }

  /** What is read as a number, and what is left: exactly what is so written and in range. */
  lemma ScanUintExactly(s: string, limit: nat, n: nat, rest: string)
    ensures ScanUint(s, limit) == Some((n, rest)) <==> n < limit && exists pad, d :: Written(s, pad, d, rest) && Number(d) == n
  {
    if ScanUint(s, limit) == Some((n, rest)) {
      var pad, d := ScanUintReads(s, limit, n, rest);
    }
    if pad, d :| Written(s, pad, d, rest) && Number(d) == n {
      if n < limit {
        ScanUintReadsIt(s, limit, pad, d, rest);
      }
    }
  }

  predicate Sign(sign: string) {
    sign == "" || (|sign| == 1 && (sign[0] == '+' || sign[0] == '-'))
  }

  function Signed(sign: string, n: nat): int {
    if |sign| == 1 && sign[0] == '-' then 0 - n else n
  }

  ghost predicate WrittenSigned(s: string, pad: string, sign: string, d: string, rest: string) {
    && s == pad + (sign + (d + rest)) && Padding(pad) && Sign(sign)
    && d != "" && (forall c | c in d :: IsDigit(c)) && (rest == "" || !IsDigit(rest[0]))
  }

  lemma SignTaken(t: string) returns (sign: string, u: string)
    ensures t == sign + u && Sign(sign)
    ensures ScanSigned(t).Some? ==> Digits(u) != "" && ScanSigned(t).value == (Signed(sign, Number(Digits(u))), u[|Digits(u)|..])
  {
    sign := if t != "" && (t[0] == '+' || t[0] == '-') then [t[0]] else "";
    u := t[|sign|..];
  }

  lemma SignedReads(t: string, n: int, rest: string) returns (sign: string, d: string)
    requires ScanSigned(t) == Some((n, rest))
    ensures t == sign + (d + rest) && Sign(sign) && d != "" && (forall c | c in d :: IsDigit(c))
    ensures n == Signed(sign, Number(d)) && (rest == "" || !IsDigit(rest[0]))
    ensures -0x8000_0000_0000_0000 <= n < 0x8000_0000_0000_0000
  {
    var u;
    sign, u := SignTaken(t);
    d := Digits(u);
    DigitsAreAll(u);
    assert u == d + rest;
  }

  lemma SignSkipped(sign: string, u: string)
    requires Sign(sign) && u != "" && IsDigit(u[0])
    ensures ScanSigned(sign + u) == ScanDigits(u, sign == "-")
  {
    if sign == "" {
      assert sign + u == u;
    } else {
      assert (sign + u)[0] == sign[0] && (sign + u)[1..] == u;
      assert sign == "-" <==> sign[0] == '-';
    }
  }

  lemma SignedReadsIt(sign: string, d: string, rest: string)
    requires Sign(sign) && d != "" && (forall c | c in d :: IsDigit(c)) && (rest == "" || !IsDigit(rest[0]))
    requires -0x8000_0000_0000_0000 <= Signed(sign, Number(d)) < 0x8000_0000_0000_0000
    ensures ScanSigned(sign + (d + rest)) == Some((Signed(sign, Number(d)), rest))
  {
    var u := d + rest;
    assert d[0] in d && u[0] == d[0];
    DigitsOf(d, rest);
    assert u[|d|..] == rest;
    SignSkipped(sign, u);
    assert sign == "-" <==> |sign| == 1 && sign[0] == '-';
  }

  lemma ScanIntReads(s: string, n: int, rest: string) returns (pad: string, sign: string, d: string)
    requires ScanInt(s) == Some((n, rest))
    ensures WrittenSigned(s, pad, sign, d, rest) && n == Signed(sign, Number(d))
    ensures -0x8000_0000_0000_0000 <= n < 0x8000_0000_0000_0000
  {
    pad := SkipsOnlyPadding(s);
    sign, d := SignedReads(SkipSpace(s).value, n, rest);
  }

  lemma NotSpace(sign: string, d: string, rest: string)
    requires Sign(sign) && d != "" && forall c | c in d :: IsDigit(c)
    ensures sign + (d + rest) != "" && !Wrap.IsSpace((sign + (d + rest))[0])
  {
    assert d[0] in d;
    assert (sign + (d + rest))[0] == if sign == "" then d[0] else sign[0];
  }

  lemma ScanIntReadsIt(s: string, pad: string, sign: string, d: string, rest: string)
    requires WrittenSigned(s, pad, sign, d, rest)
    requires -0x8000_0000_0000_0000 <= Signed(sign, Number(d)) < 0x8000_0000_0000_0000
    ensures ScanInt(s) == Some((Signed(sign, Number(d)), rest))
  {
    NotSpace(sign, d, rest);
    SkipsPadding(pad, sign + (d + rest));
    SignedReadsIt(sign, d, rest);
  }

  /** "v=", then a number with or without a sign; exactly the number 19 is this version. */
  lemma VersionExactly(s: string)
    ensures ScanVersion(s) == Some(ARGON_VERSION) <==>
      "v=" <= s && exists pad, sign, d, rest :: WrittenSigned(s[2..], pad, sign, d, rest) && Signed(sign, Number(d)) == 19
  {
    if ScanVersion(s) == Some(ARGON_VERSION) {
      var rest := ScanInt(s[2..]).value.1;
      var pad, sign, d := ScanIntReads(s[2..], 19, rest);
      assert WrittenSigned(s[2..], pad, sign, d, rest);
    }
    if "v=" <= s {
      if pad, sign, d, rest :| WrittenSigned(s[2..], pad, sign, d, rest) && Signed(sign, Number(d)) == 19 {
        ScanIntReadsIt(s[2..], pad, sign, d, rest);
      }
    }
  }

  /** The three parameters follow one another, each introduced by its own text, and each is
      below the width of the variable it is read into; what follows them is not looked at. */
  ghost predicate Parameters(s: string, s1: string, s2: string, s3: string, after: string, p: Params) {
    && s == "m=" + s1
    && ScanUint(s1, 0x1_0000_0000) == Some((p.memory, ",t=" + s2))
    && ScanUint(s2, 0x1_0000_0000) == Some((p.time, ",p=" + s3))
    && ScanUint(s3, 0x100) == Some((p.threads, after))
  }

  lemma LiteralExactly(s: string, lit: string, rest: string)
    ensures Literal(s, lit) == Some(rest) <==> s == lit + rest
  {
    if lit <= s {
      assert s == lit + s[|lit|..];
    }
    if s == lit + rest {
      LiteralOf(lit, rest);
    }
  }

  lemma ParamsRead(s: string, p: Params) returns (s1: string, s2: string, s3: string, after: string)
    requires ScanParams(s) == Some(p)
    ensures Parameters(s, s1, s2, s3, after, p)
  {
    s1 := Literal(s, "m=").value;
    LiteralExactly(s, "m=", s1);
    var after1 := ScanUint(s1, 0x1_0000_0000).value.1;
    s2 := Literal(after1, ",t=").value;
    LiteralExactly(after1, ",t=", s2);
    var after2 := ScanUint(s2, 0x1_0000_0000).value.1;
    s3 := Literal(after2, ",p=").value;
    LiteralExactly(after2, ",p=", s3);
    after := ScanUint(s3, 0x100).value.1;
  }

  lemma ParamsExactly(s: string, p: Params)
    ensures ScanParams(s) == Some(p) <==> exists s1, s2, s3, after :: Parameters(s, s1, s2, s3, after, p)
  {
    if ScanParams(s) == Some(p) {
      var s1, s2, s3, after := ParamsRead(s, p);
    }
    if s1, s2, s3, after :| Parameters(s, s1, s2, s3, after, p) {
      LiteralExactly(s, "m=", s1);
      LiteralExactly(",t=" + s2, ",t=", s2);
      LiteralExactly(",p=" + s3, ",p=", s3);
    }
  }

  /** The texts that are a hash of this version: six parts between dollar signs, the second
      naming the algorithm, the third the version, and the rest readable. */
  ghost predicate Describes(encoded: string, first: string, v: string, p: string, salt: string, digest: string, h: Hash) {
    && encoded == Texts.Join([first, "argon2id", v, p, salt, digest], '$')
    && '$' !in first && '$' !in v && '$' !in p && '$' !in salt && '$' !in digest
    && ScanVersion(v) == Some(19) && h.version == 19 && ScanParams(p) == Some(h.params)
    && Base64.Decode(salt) == Some(h.salt) && Base64.Decode(digest) == Some(h.digest)
  }

  lemma DescribedIsParsed(encoded: string, first: string, v: string, p: string, salt: string, digest: string, h: Hash)
    requires Describes(encoded, first, v, p, salt, digest, h)
    ensures Parse(encoded) == Good(h)
  {
    SplitDescribed(encoded, first, v, p, salt, digest);
    var parts := Texts.Split(encoded, '$');
    assert parts[1] == "argon2id" && parts[2] == v && parts[3] == p && parts[4] == salt && parts[5] == digest;
  }

  lemma SplitDescribed(encoded: string, first: string, v: string, p: string, salt: string, digest: string)
    requires encoded == Texts.Join([first, "argon2id", v, p, salt, digest], '$')
    requires '$' !in first && '$' !in v && '$' !in p && '$' !in salt && '$' !in digest
    ensures Texts.Split(encoded, '$') == [first, "argon2id", v, p, salt, digest]
  {
    assert '$' !in "argon2id";
    Texts.SplitJoin([first, "argon2id", v, p, salt, digest], '$');
  }

  /** A stored text lets a password in exactly when it is such a text, whatever wrote it, and
      argon2 under the parameters in it makes of the password the digest in it. */
  lemma VerifiesExactly(argon: Argon, password: string, encoded: string)
    ensures VerifyPassword(argon, password, encoded) == Answer(true) <==>
      exists first, v, p, salt, digest, h ::
        && Describes(encoded, first, v, p, salt, digest, h)
        && argon(password, h.salt, h.params.time, h.params.memory, h.params.threads, |h.digest|) == h.digest
  {
    if Parse(encoded).Good? {
      var h, parts := Parse(encoded).hash, Texts.Split(encoded, '$');
      assert parts == [parts[0], "argon2id", parts[2], parts[3], parts[4], parts[5]];
      assert parts[0] in parts && parts[2] in parts && parts[3] in parts && parts[4] in parts && parts[5] in parts;
      assert Describes(encoded, parts[0], parts[2], parts[3], parts[4], parts[5], h);
    }
    if first, v, p, salt, digest, h :|
      && Describes(encoded, first, v, p, salt, digest, h)
      && argon(password, h.salt, h.params.time, h.params.memory, h.params.threads, |h.digest|) == h.digest
    {
      DescribedIsParsed(encoded, first, v, p, salt, digest, h);
    }
  }

  /** A hash of another version is refused by that version. */
  lemma OtherVersionsAreNamed(h: Hash)
    requires 0 <= h.version < 0x8000_0000_0000_0000 && h.version != ARGON_VERSION
    ensures forall argon, password :: VerifyPassword(argon, password, Encode(h)) == Refused(WrongVersion(h.version))
  {
    EncodeParts(h);
    ScanVersionOf(h.version);
  }

  /** A stored hash is checked under its own parameters, whatever the current ones are. */
  lemma VerifiesUnderItsOwnParameters(argon: Argon, password: string, h: Hash)
    requires h.version == ARGON_VERSION && InRange(h.params)
    ensures VerifyPassword(argon, password, Encode(h))
            == Answer(argon(password, h.salt, h.params.time, h.params.memory, h.params.threads, |h.digest|) == h.digest)
  {
    ParseRoundTrip(h);
  }

  /** What was hashed, with two passes over 19456 KiB in one lane for a key of 32 bytes,
      verifies, provided argon2 returns keys of the length asked for; and another password
      verifies only if argon2 gives both the same key. */
  lemma HashThenVerify(argon: Argon, password: string, other: string, salt: seq<Byte>)
    requires |argon(password, salt, 2, 19456, 1, 32)| == 32
    ensures VerifyPassword(argon, password, HashPassword(argon, password, salt)) == Answer(true)
    ensures VerifyPassword(argon, other, HashPassword(argon, password, salt)) == Answer(true) <==>
      argon(other, salt, 2, 19456, 1, 32)
        == argon(password, salt, 2, 19456, 1, 32)
  {
    var sum := argon(password, salt, ARGON_TIME, ARGON_MEMORY, ARGON_THREADS, ARGON_KEY_LEN);
    var h := Hash(ARGON_VERSION, Params(ARGON_MEMORY, ARGON_TIME, ARGON_THREADS), salt, sum);
    VerifiesUnderItsOwnParameters(argon, password, h);
    VerifiesUnderItsOwnParameters(argon, other, h);
  }
}
