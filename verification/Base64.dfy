/** Unpadded standard base64 (sections 4 and 3.2 of RFC 4648), as Go's RawStdEncoding
    writes and reads it: the reader skips line breaks and does not ask the unused low bits
    of the last character to be zero. */
module Base64 {
  import opened Basics

  type Sextet = n: int | 0 <= n < 64

  function Digit(n: Sextet): char {
    if n < 26 then 'A' + n as char
    else if n < 52 then 'a' + (n - 26) as char
    else if n < 62 then '0' + (n - 52) as char
    else if n == 62 then '+' else '/'
  }

  function Value(c: char): Option<Sextet> {
    if 'A' <= c <= 'Z' then Some(c as int - 'A' as int)
    else if 'a' <= c <= 'z' then Some(c as int - 'a' as int + 26)
    else if '0' <= c <= '9' then Some(c as int - '0' as int + 52)
    else if c == '+' then Some(62)
    else if c == '/' then Some(63)
    else None
  }

  /** Table 1 of RFC 4648: the capitals, the small letters and the digits, each in order,
      then plus and slash; and each is read as the value it stands for. */
  lemma DigitExactly(n: Sextet, c: char)
    ensures Digit(0) == 'A' && Digit(25) == 'Z' && Digit(26) == 'a' && Digit(51) == 'z' && Digit(52) == '0' && Digit(61) == '9'
    ensures Digit(62) == '+' && Digit(63) == '/'
    ensures n < 25 || 26 <= n < 51 || 52 <= n < 61 ==> Digit(n + 1) as int == Digit(n) as int + 1
    ensures Value(c) == Some(n) <==> Digit(n) == c
  {
  }

  predicate InAlphabet(c: char) {
    'A' <= c <= 'Z' || 'a' <= c <= 'z' || '0' <= c <= '9' || c == '+' || c == '/'
  }

  /** The bits of four values, or of three bytes, the first ones most significant. */
  function OfFour(a: int, b: int, c: int, d: int): int {
    a * 0x4_0000 + b * 0x1000 + c * 0x40 + d
  }

  function OfThree(x: int, y: int, z: int): int {
    x * 0x1_0000 + y * 0x100 + z
  }

  function Sextet1(x: Byte): Sextet {
    x / 4
  }

  function Sextet2(x: Byte, y: Byte): Sextet {
    x % 4 * 16 + y / 16
  }

  function Sextet3(y: Byte, z: Byte): Sextet {
    y % 16 * 4 + z / 64
  }

  function Sextet4(z: Byte): Sextet {
    z % 64
  }

  /** Bytes to six-bit values; the bits missing at the end are zero. */
  function Sextets(b: seq<Byte>): (v: seq<Sextet>)
    ensures |v| == (8 * |b| + 5) / 6
  {
    if b == [] then []
    else if |b| == 1 then [Sextet1(b[0]), Sextet2(b[0], 0)]
    else if |b| == 2 then [Sextet1(b[0]), Sextet2(b[0], b[1]), Sextet3(b[1], 0)]
    else [Sextet1(b[0]), Sextet2(b[0], b[1]), Sextet3(b[1], b[2]), Sextet4(b[2])] + Sextets(b[3..])
  }

  function Digits(v: seq<Sextet>): (s: string)
    ensures |s| == |v|
  {
    if v == [] then "" else [Digit(v[0])] + Digits(v[1..])
  }

  function Encode(b: seq<Byte>): string {
    Digits(Sextets(b))
  }

  function DropBreaks(s: string): string {
    if s == "" then ""
    else if s[0] == '\n' || s[0] == '\r' then DropBreaks(s[1..])
    else [s[0]] + DropBreaks(s[1..])
  }

  /** Six-bit values to bytes; a single left-over value is an error. */
  function Bytes(v: seq<Sextet>): Option<seq<Byte>> {
    if v == [] then Some([])
    else if |v| == 1 then None
    else if |v| == 2 then Some([First(v[0], v[1])])
    else if |v| == 3 then Some([First(v[0], v[1]), Second(v[1], v[2])])
    else
      var rest := Bytes(v[4..]);
      if rest.None? then None
      else Some([First(v[0], v[1]), Second(v[1], v[2]), Third(v[2], v[3])] + rest.value)
  }

  function First(a: Sextet, b: Sextet): Byte {
    a * 4 + b / 16
  }

  function Second(b: Sextet, c: Sextet): Byte {
    b % 16 * 16 + c / 4
  }

  function Third(c: Sextet, d: Sextet): Byte {
    c % 4 * 64 + d
  }

  function Values(s: string): (v: Option<seq<Sextet>>)
    ensures v.Some? ==> |v.value| == |s|
  {
    if s == "" then Some([])
    else
      var n, rest := Value(s[0]), Values(s[1..]);
      if n.Some? && rest.Some? then Some([n.value] + rest.value) else None
  }

  function Decode(s: string): Option<seq<Byte>> {
    var v := Values(DropBreaks(s));
    if v.None? then None else Bytes(v.value)
  }

  lemma DigitValue(n: Sextet)
    ensures Value(Digit(n)) == Some(n)
  {
  }

  /** What Digits prints holds no line break and no '$', and reads back. */
  lemma {:induction false} DigitsReadBack(v: seq<Sextet>)
    ensures Values(Digits(v)) == Some(v)
    ensures DropBreaks(Digits(v)) == Digits(v)
    ensures '$' !in Digits(v)
  {
    if v != [] {
      DigitsReadBack(v[1..]);
      DigitValue(v[0]);
      var s := Digits(v);
      assert s[0] == Digit(v[0]) && s[1..] == Digits(v[1..]);
      assert v == [v[0]] + v[1..];
      assert Value('$').None? && Value('\n').None? && Value('\r').None?;
    }
  }

  /** Four values are the 24 bits of three bytes, most significant first; of two bytes or one,
      the bits there are, with zeros after them (section 4 of RFC 4648). */
  lemma SextetsAreTheBits(b: seq<Byte>)
    requires b != []
    ensures var v := Sextets(b);
      && |v| >= (if |b| > 2 then 4 else |b| + 1)
      && (|b| == 1 ==> OfFour(v[0], v[1], 0, 0) == OfThree(b[0], 0, 0))
      && (|b| == 2 ==> OfFour(v[0], v[1], v[2], 0) == OfThree(b[0], b[1], 0))
      && (|b| > 2 ==> OfFour(v[0], v[1], v[2], v[3]) == OfThree(b[0], b[1], b[2]) && v[4..] == Sextets(b[3..]))
  {
    if |b| == 1 {
      BitsAddUp(b[0], 0, 0);
    } else if |b| == 2 {
      BitsAddUp(b[0], b[1], 0);
    } else {
      BitsAddUp(b[0], b[1], b[2]);
      FirstFour(b);
    }
  }

  lemma FirstFour(b: seq<Byte>)
    requires |b| > 2
    ensures var v := Sextets(b);
      |v| >= 4 && v[0] == Sextet1(b[0]) && v[1] == Sextet2(b[0], b[1]) && v[2] == Sextet3(b[1], b[2]) && v[3] == Sextet4(b[2])
      && v[4..] == Sextets(b[3..])
  {
  }

  lemma BitsAddUp(x: Byte, y: Byte, z: Byte)
    ensures OfFour(Sextet1(x), Sextet2(x, y), Sextet3(y, z), Sextet4(z)) == OfThree(x, y, z)
  {
  }

  lemma {:induction false} ValuesExactly(s: string)
    ensures Values(s).Some? <==> forall c | c in s :: InAlphabet(c)
  {
    if s != "" {
      ValuesExactly(s[1..]);
      assert s[0] in s && forall c | c in s[1..] :: c in s;
      assert Value(s[0]).Some? <==> InAlphabet(s[0]);
      assert forall c | c in s :: c == s[0] || c in s[1..];
    }
  }

  lemma LessFour(n: nat)
    requires n > 3
    ensures (n - 4) % 4 == n % 4 && 6 * (n - 4) / 8 + 3 == 6 * n / 8
  {
  }

  lemma {:induction false} BytesExactly(v: seq<Sextet>)
    ensures Bytes(v).Some? <==> |v| % 4 != 1
    ensures Bytes(v).Some? ==> |Bytes(v).value| == 6 * |v| / 8
    decreases |v|
  {
    if |v| > 3 {
      BytesExactly(v[4..]);
      LessFour(|v|);
    }
  }

  /** What the reader accepts: line breaks aside, letters of the alphabet, and not one more
      than a multiple of four. */
  lemma DecodesExactly(s: string)
    ensures Decode(s).Some? <==> (forall c | c in DropBreaks(s) :: InAlphabet(c)) && |DropBreaks(s)| % 4 != 1
    ensures Decode(s).Some? ==> |Decode(s).value| == 6 * |DropBreaks(s)| / 8
  {
    ValuesExactly(DropBreaks(s));
    if Values(DropBreaks(s)).Some? {
      BytesExactly(Values(DropBreaks(s)).value);
    }
  }

  /** Line breaks are skipped wherever they stand, and nothing else is. */
  lemma {:induction false} DropBreaksExactly(a: string, c: char, b: string)
    ensures DropBreaks(a + [c] + b) == DropBreaks(a) + (if c in "\r\n" then "" else [c]) + DropBreaks(b)
  {
    if a == "" {
      assert (a + [c] + b)[1..] == b;
    } else {
      assert (a + [c] + b)[1..] == a[1..] + [c] + b;
      DropBreaksExactly(a[1..], c, b);
    }
  }

  lemma FirstJoins(x: Byte, y: Byte)
    ensures First(Sextet1(x), Sextet2(x, y)) == x
  {
  }

  lemma BitsJoin(x: Byte, y: Byte, z: Byte)
    ensures First(Sextet1(x), Sextet2(x, y)) == x
    ensures Second(Sextet2(x, y), Sextet3(y, z)) == y
    ensures Third(Sextet3(y, z), Sextet4(z)) == z
  {
  }

  lemma ShortBytes(v: seq<Sextet>, x: Byte, y: Byte)
    requires 2 <= |v| <= 3 && First(v[0], v[1]) == x
    requires |v| == 3 ==> Second(v[1], v[2]) == y
    ensures Bytes(v) == Some(if |v| == 2 then [x] else [x, y])
  {
  }

  lemma OneReadsBack(b: seq<Byte>)
    requires |b| == 1
    ensures Bytes(Sextets(b)) == Some(b)
  {
    var v := [Sextet1(b[0]), Sextet2(b[0], 0)];
    FirstJoins(b[0], 0);
    ShortBytes(v, b[0], 0);
    assert Sextets(b) == v;
    assert b == [b[0]];
  }

  lemma TwoReadsBack(b: seq<Byte>)
    requires |b| == 2
    ensures Bytes(Sextets(b)) == Some(b)
  {
    BitsJoin(b[0], b[1], 0);
    var v := Sextets(b);
    assert |v| == 3;
    assert Second(v[1], v[2]) == b[1];
    ShortBytes(v, b[0], b[1]);
    assert b == [b[0], b[1]];
  }

  lemma {:induction false} SextetsReadBack(b: seq<Byte>)
    ensures Bytes(Sextets(b)) == Some(b)
  {
    if |b| == 1 {
      OneReadsBack(b);
    } else if |b| == 2 {
      TwoReadsBack(b);
    } else if |b| >= 3 {
      var rest := b[3..];
      SextetsReadBack(rest);
      BitsJoin(b[0], b[1], b[2]);
      var v := Sextets(b);
      assert v[4..] == Sextets(rest);
      assert Bytes(v) == Some([b[0], b[1], b[2]] + rest);
      assert b == [b[0], b[1], b[2]] + rest;
    }
  }

  /** Decoding undoes encoding, for every byte string. */
  lemma RoundTrip(b: seq<Byte>)
    ensures Decode(Encode(b)) == Some(b)
    ensures |Encode(b)| == (8 * |b| + 5) / 6 && '$' !in Encode(b)
  {
    DigitsReadBack(Sextets(b));
    SextetsReadBack(b);
  }
}
