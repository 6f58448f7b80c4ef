/** Identifiers: UUIDv7 bytes, their order, and the dashed form the API speaks. */
module Uuid {
  import opened Basics

  // ---- hexadecimal ----

  function HexOf(n: nat): char
    requires n < 16
  {
    if n < 10 then '0' + n as char else 'a' + (n - 10) as char
  }

  /** hex.DecodeString accepts both cases. */
  function NibbleOf(c: char): (n: Option<nat>)
    ensures n.Some? ==> n.value < 16
  {
    if '0' <= c <= '9' then Some(c as nat - '0' as nat)
    else if 'a' <= c <= 'f' then Some(c as nat - 'a' as nat + 10)
    else if 'A' <= c <= 'F' then Some(c as nat - 'A' as nat + 10)
    else None
  }

  function HexEncode(b: seq<Byte>): (s: string)
    ensures |s| == 2 * |b|
    ensures forall c | c in s :: NibbleOf(c).Some?
  {
    if b == [] then "" else [HexOf(b[0] / 16)] + [HexOf(b[0] % 16)] + HexEncode(b[1..])
  }

  function HexDecode(s: string): Option<seq<Byte>> {
    if s == "" then Some([])
    else if |s| == 1 then None
    else
      var hi, lo, rest := NibbleOf(s[0]), NibbleOf(s[1]), HexDecode(s[2..]);
      if hi.Some? && lo.Some? && rest.Some? then Some([hi.value * 16 + lo.value] + rest.value) else None
  }

  lemma {:induction false} HexRoundTrip(b: seq<Byte>)
    ensures HexDecode(HexEncode(b)) == Some(b)
  {
    if b != [] {
      HexRoundTrip(b[1..]);
      var s := HexEncode(b);
      assert s[2..] == HexEncode(b[1..]);
      assert NibbleOf(s[0]) == Some(b[0] / 16) && NibbleOf(s[1]) == Some(b[0] % 16);
      assert [b[0]] + b[1..] == b;
    }
  }

  const HEX_DIGITS: string := "0123456789abcdef"

  /** The form of one byte: its high half first (section 8 of RFC 4648, in lower case). */
  lemma {:induction false} HexEncodeExactly(b: seq<Byte>, i: nat)
    requires i < |b|
    ensures HexEncode(b)[2 * i] == HEX_DIGITS[b[i] / 16] && HexEncode(b)[2 * i + 1] == HEX_DIGITS[b[i] % 16]
  {
    HexOfExactly(b[0] / 16);
    HexOfExactly(b[0] % 16);
    if i > 0 {
      HexEncodeExactly(b[1..], i - 1);
      assert HexEncode(b)[2..] == HexEncode(b[1..]);
      assert HexEncode(b)[2 * i] == HexEncode(b[1..])[2 * (i - 1)] && HexEncode(b)[2 * i + 1] == HexEncode(b[1..])[2 * (i - 1) + 1];
    }
  }

  lemma HexOfExactly(n: nat)
    requires n < 16
    ensures HexOf(n) == HEX_DIGITS[n] && NibbleOf(HexOf(n)) == Some(n)
  {
  }

  /** Either case stands for the same digit, and no other character for any. */
  lemma NibbleExactly(c: char, n: nat)
    requires n < 16
    ensures NibbleOf(c) == Some(n) <==> c == "0123456789abcdef"[n] || c == "0123456789ABCDEF"[n]
  {
  }

  // ---- the dashed form ----

  /** harness/http.go hexUUID, and model.ID.String for sixteen bytes. */
  function HexUuid(b: seq<Byte>): string {
    if |b| != 16 then "" else Dashed(HexEncode(b))
  }

  function Dashed(t: string): (s: string)
    requires |t| == 32
    ensures |s| == 36
  {
    t[0..8] + "-" + t[8..12] + "-" + t[12..16] + "-" + t[16..20] + "-" + t[20..32]
  }

  /** strings.ReplaceAll(s, "-", ""). */
  function DropDashes(s: string): string {
    if s == "" then "" else if s[0] == '-' then DropDashes(s[1..]) else [s[0]] + DropDashes(s[1..])
  }

  function ParseUuid(s: string): (r: Option<seq<Byte>>)
    ensures r.Some? ==> |r.value| == 16
  {
    var b := HexDecode(DropDashes(s));
    if b.Some? && |b.value| == 16 then b else None
  }

  lemma {:induction false} DropConcat(x: string, y: string)
    ensures DropDashes(x + y) == DropDashes(x) + DropDashes(y)
  {
    if x == "" {
      assert x + y == y;
    } else {
      DropConcat(x[1..], y);
      assert (x + y)[1..] == x[1..] + y;
    }
  }

  lemma {:induction false} DropNothing(s: string)
    requires '-' !in s
    ensures DropDashes(s) == s
  {
    if s != "" {
      DropNothing(s[1..]);
    }
  }

  lemma DropStep(x: string, y: string)
    requires '-' !in y
    ensures DropDashes(x + "-" + y) == DropDashes(x) + y
  {
    assert x + "-" + y == x + ("-" + y);
    DropConcat(x, "-" + y);
    assert ("-" + y)[1..] == y;
    DropNothing(y);
  }

  lemma DropFour(s: string)
    requires |s| == 32 && '-' !in s
    ensures DropDashes(Dashed(s)) == s
  {
    DropNothing(s[0..8]);
    DropStep(s[0..8], s[8..12]);
    assert s[0..8] + s[8..12] == s[0..12];
    DropStep(s[0..8] + "-" + s[8..12], s[12..16]);
    assert s[0..12] + s[12..16] == s[0..16];
    DropStep(s[0..8] + "-" + s[8..12] + "-" + s[12..16], s[16..20]);
    assert s[0..16] + s[16..20] == s[0..20];
    DropStep(s[0..8] + "-" + s[8..12] + "-" + s[12..16] + "-" + s[16..20], s[20..32]);
    assert s[0..20] + s[20..32] == s;
  }

  /** Reading the dashed form gives the sixteen bytes back. */
  lemma UuidRoundTrip(b: seq<Byte>)
    requires |b| == 16
    ensures ParseUuid(HexUuid(b)) == Some(b)
    ensures |HexUuid(b)| == 36 && '/' !in HexUuid(b)
  {
    var t := HexEncode(b);
    NoSigns(b);
    DropFour(t);
    HexRoundTrip(b);
    forall i | 0 <= i < 36 ensures Dashed(t)[i] != '/' {
      DashedAt(t, i);
    }
  }

  lemma NoSigns(b: seq<Byte>)
    ensures '-' !in HexEncode(b) && '/' !in HexEncode(b)
  {
    assert NibbleOf('-') == None && NibbleOf('/') == None;
  }

  predicate DashAt(i: int) {
    i == 8 || i == 13 || i == 18 || i == 23
  }

  lemma DashedAt(t: string, i: nat)
    requires |t| == 32 && i < 36
    ensures Dashed(t)[i] == if DashAt(i) then '-' else t[i - (if i < 8 then 0 else if i < 13 then 1 else if i < 18 then 2 else if i < 23 then 3 else 4)]
  {
  }

  // ---- what the parser accepts ----

  predicate HexDigit(c: char) {
    NibbleOf(c).Some?
  }

  predicate LowerHex(c: char) {
    '0' <= c <= '9' || 'a' <= c <= 'f'
  }

  lemma {:induction false} DecodesExactly(s: string)
    ensures HexDecode(s).Some? <==> |s| % 2 == 0 && forall c | c in s :: HexDigit(c)
    ensures HexDecode(s).Some? ==> |HexDecode(s).value| == |s| / 2
    decreases |s|
  {
    if |s| > 1 {
      DecodesExactly(s[2..]);
      assert s == [s[0], s[1]] + s[2..];
      assert (forall c | c in s :: HexDigit(c)) <==> HexDigit(s[0]) && HexDigit(s[1]) && forall c | c in s[2..] :: HexDigit(c);
    }
  }

  /** Exactly the texts that have 32 hexadecimal digits, of either case, and else only
      dashes, wherever they stand and however many. */
  lemma ParsesExactly(s: string)
    ensures ParseUuid(s).Some? <==> |DropDashes(s)| == 32 && forall c | c in DropDashes(s) :: HexDigit(c)
  {
    DecodesExactly(DropDashes(s));
  }

  /** The form the API speaks: lower case, with the four dashes in their places. */
  predicate Canonical(s: string) {
    |s| == 36 && forall i | 0 <= i < 36 :: if DashAt(i) then s[i] == '-' else LowerHex(s[i])
  }

  lemma {:induction false} EncodesLower(b: seq<Byte>)
    ensures forall i | 0 <= i < |HexEncode(b)| :: LowerHex(HexEncode(b)[i])
  {
    if b != [] {
      EncodesLower(b[1..]);
      assert forall i | 2 <= i < |HexEncode(b)| :: HexEncode(b)[i] == HexEncode(b[1..])[i - 2];
    }
  }

  lemma LowerPair(h: char, l: char)
    requires LowerHex(h) && LowerHex(l)
    ensures var x := NibbleOf(h).value * 16 + NibbleOf(l).value; HexOf(x / 16) == h && HexOf(x % 16) == l
  {
    var n, m := NibbleOf(h).value, NibbleOf(l).value;
    assert (n * 16 + m) / 16 == n && (n * 16 + m) % 16 == m;
  }

  lemma {:induction false} LowerRoundTrip(s: string)
    requires |s| % 2 == 0 && forall i | 0 <= i < |s| :: LowerHex(s[i])
    ensures HexDecode(s).Some? && HexEncode(HexDecode(s).value) == s
    decreases |s|
  {
    if s != "" {
      LowerRoundTrip(s[2..]);
      LowerPair(s[0], s[1]);
      var b := HexDecode(s).value;
      assert b[1..] == HexDecode(s[2..]).value;
      assert s == [s[0]] + [s[1]] + s[2..];
    }
  }

  /** A text is the dashed form of what it reads as exactly when it is in that form. */
  lemma OwnFormExactly(s: string)
    ensures ParseUuid(s).Some? && HexUuid(ParseUuid(s).value) == s <==> Canonical(s)
  {
    if Canonical(s) {
      var t := s[0..8] + s[9..13] + s[14..18] + s[19..23] + s[24..36];
      forall i | 0 <= i < 36 ensures s[i] == Dashed(t)[i] {
        DashedAt(t, i);
      }
      assert s == Dashed(t);
      assert forall i | 0 <= i < 32 :: LowerHex(t[i]);
      LowerRoundTrip(t);
      DropFour(t);
    } else if ParseUuid(s).Some? && HexUuid(ParseUuid(s).value) == s {
      var t := HexEncode(ParseUuid(s).value);
      EncodesLower(ParseUuid(s).value);
      forall i | 0 <= i < 36 ensures if DashAt(i) then s[i] == '-' else LowerHex(s[i]) {
        DashedAt(t, i);
      }
      assert false;
    }
  }

  // ---- version 7 identifiers ----

  /** What uuidv7 fills in before the version and variant bits: 48 bits of milliseconds,
      most significant byte first and truncated as a Go byte conversion truncates, then
      ten random bytes. */
  function Filled(ms: int, random: seq<Byte>): (b: seq<Byte>)
    requires |random| == 10
    ensures |b| == 16
  {
    [ms / 0x100_0000_0000 % 256, ms / 0x1_0000_0000 % 256, ms / 0x100_0000 % 256,
     ms / 0x1_0000 % 256, ms / 0x100 % 256, ms % 256] + random
  }

  /** harness/workload.go uuidv7. */
  method UuidV7(ms: int, random: seq<Byte>) returns (b: array<int>)
    requires |random| == 10
    ensures fresh(b) && b.Length == 16
    ensures forall i | 0 <= i < 16 :: 0 <= b[i] < 256
    ensures b[..] == V7(ms, random)
  {
    b := new int[16];
    b[0] := ms / 0x100_0000_0000 % 256;
    b[1] := ms / 0x1_0000_0000 % 256;
    b[2] := ms / 0x100_0000 % 256;
    b[3] := ms / 0x1_0000 % 256;
    b[4] := ms / 0x100 % 256;
    b[5] := ms % 256;
    forall i | 0 <= i < 10 {
      b[6 + i] := random[i];
    }
    b[6] := b[6] % 16 + 0x70;
    b[8] := b[8] % 64 + 0x80;
    assert b[..] == V7(ms, random);
  }

  /** The identifier: bits 4-7 of byte 6 are the version, bits 6-7 of byte 8 the variant. */
  function V7(ms: int, random: seq<Byte>): (b: seq<Byte>)
    requires |random| == 10
    ensures |b| == 16
  {
    var f := Filled(ms, random);
    f[6 := f[6] % 16 + 0x70][8 := f[8] % 64 + 0x80]
  }

  /** The masks of the source, on bytes as bit vectors, are the arithmetic used here. */
  lemma MasksAreArithmetic(b: bv8)
    ensures (b & 0x0f) | 0x70 == (b % 16) + 0x70
    ensures (b & 0x3f) | 0x80 == (b % 64) + 0x80
  {
  }

  /** The 48-bit big-endian timestamp field (section 5.7 of RFC 9562). */
  function TimestampOf(b: seq<Byte>): int
    requires |b| == 16
  {
    b[0] as int * 0x100_0000_0000 + b[1] as int * 0x1_0000_0000 + b[2] as int * 0x100_0000
    + b[3] as int * 0x1_0000 + b[4] as int * 0x100 + b[5] as int
  }

  /** Bytewise comparison. */
  predicate BytesLess(a: seq<Byte>, b: seq<Byte>)
    requires |a| == |b|
  {
    a != [] && (a[0] < b[0] || (a[0] == b[0] && BytesLess(a[1..], b[1..])))
  }

  /** The number the bytes spell after the digits already in acc, most significant first. */
  function BigEndian(acc: nat, b: seq<Byte>): nat
    decreases |b|
  {
    if b == [] then acc else BigEndian(256 * acc + b[0], b[1..])
  }

  lemma {:induction false} LeadDecides(x: nat, a: seq<Byte>, y: nat, b: seq<Byte>)
    requires |a| == |b| && x < y
    ensures BigEndian(x, a) < BigEndian(y, b)
    decreases |a|
  {
    if a != [] {
      LeadDecides(256 * x + a[0], a[1..], 256 * y + b[0], b[1..]);
    }
  }

  /** Bytewise order is the order of the numbers the bytes spell. */
  lemma {:induction false} BytesLessIsNumericLess(acc: nat, a: seq<Byte>, b: seq<Byte>)
    requires |a| == |b|
    ensures BytesLess(a, b) <==> BigEndian(acc, a) < BigEndian(acc, b)
    ensures BigEndian(acc, a) == BigEndian(acc, b) ==> a == b
    decreases |a|
  {
    if a != [] {
      if a[0] < b[0] {
        LeadDecides(256 * acc + a[0], a[1..], 256 * acc + b[0], b[1..]);
      } else if b[0] < a[0] {
        LeadDecides(256 * acc + b[0], b[1..], 256 * acc + a[0], a[1..]);
      } else {
        BytesLessIsNumericLess(256 * acc + a[0], a[1..], b[1..]);
        assert a == [a[0]] + a[1..] && b == [b[0]] + b[1..];
      }
    }
  }

  /** Version 7, RFC variant, and the timestamp back, modulo 2^48. */
  lemma V7Fields(ms: int, random: seq<Byte>)
    requires |random| == 10
    ensures var b := V7(ms, random);
      && b[6] / 16 == 7 && b[8] / 64 == 2
      && TimestampOf(b) == ms % 0x1_0000_0000_0000
      && (forall i | 0 <= i < 10 && i != 0 && i != 2 :: b[6 + i] == random[i])
      && b[6] % 16 == random[0] % 16 && b[8] % 64 == random[2] % 64
  {
    var q5 := ms / 0x100;
    var q4 := ms / 0x1_0000;
    var q3 := ms / 0x100_0000;
    var q2 := ms / 0x1_0000_0000;
    var q1 := ms / 0x100_0000_0000;
    var q0 := ms / 0x1_0000_0000_0000;
    assert ms == q5 * 0x100 + ms % 0x100;
    assert q4 == q5 / 0x100 && q5 == q4 * 0x100 + q5 % 0x100;
    assert q3 == q4 / 0x100 && q4 == q3 * 0x100 + q4 % 0x100;
    assert q2 == q3 / 0x100 && q3 == q2 * 0x100 + q3 % 0x100;
    assert q1 == q2 / 0x100 && q2 == q1 * 0x100 + q2 % 0x100;
    assert q0 == q1 / 0x100 && q1 == q0 * 0x100 + q1 % 0x100;
    assert ms == q0 * 0x1_0000_0000_0000 + ms % 0x1_0000_0000_0000;
  }

  lemma V7Timestamp(ms: int, random: seq<Byte>)
    requires |random| == 10 && 0 <= ms < 0x1_0000_0000_0000
    ensures TimestampOf(V7(ms, random)) == ms
  {
    V7Fields(ms, random);
  }

  /** Earlier milliseconds sort first, whatever the random bits. */
  lemma V7Order(ms: int, random: seq<Byte>, ms': int, random': seq<Byte>)
    requires |random| == 10 && |random'| == 10
    requires 0 <= ms < ms' < 0x1_0000_0000_0000
    ensures BytesLess(V7(ms, random), V7(ms', random'))
  {
    V7Timestamp(ms, random);
    V7Timestamp(ms', random');
    TimestampDecides(V7(ms, random), V7(ms', random'));
  }

  lemma TimestampDecides(a: seq<Byte>, b: seq<Byte>)
    requires |a| == 16 && |b| == 16 && TimestampOf(a) < TimestampOf(b)
    ensures BytesLess(a, b)
  {
    var x, y := a[..6], b[..6];
    Horner(x, a);
    Horner(y, b);
    BytesLessIsNumericLess(0, x, y);
    LessExtends(a, b, 6);
  }

  lemma Horner(x: seq<Byte>, b: seq<Byte>)
    requires |b| == 16 && x == b[..6]
    ensures BigEndian(0, x) == TimestampOf(b)
  {
    var n1: nat := b[0];
    var n2: nat := 256 * n1 + b[1];
    var n3: nat := 256 * n2 + b[2];
    var n4: nat := 256 * n3 + b[3];
    var n5: nat := 256 * n4 + b[4];
    var n6: nat := 256 * n5 + b[5];
    assert x[5..][1..] == [] && BigEndian(n5, x[5..]) == n6;
    assert x[4..][1..] == x[5..] && BigEndian(n4, x[4..]) == n6;
    assert x[3..][1..] == x[4..] && BigEndian(n3, x[3..]) == n6;
    assert x[2..][1..] == x[3..] && BigEndian(n2, x[2..]) == n6;
    assert x[1..][1..] == x[2..] && BigEndian(n1, x[1..]) == n6;
  }

  lemma {:induction false} LessExtends(a: seq<Byte>, b: seq<Byte>, k: nat)
    requires |a| == |b| && k <= |a| && BytesLess(a[..k], b[..k])
    ensures BytesLess(a, b)
    decreases k
  {
    if a[0] == b[0] {
      assert a[..k][1..] == a[1..][..k - 1] && b[..k][1..] == b[1..][..k - 1];
      LessExtends(a[1..], b[1..], k - 1);
    }
  }
}
