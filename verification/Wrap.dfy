/** The greedy text wrap of the import report: what it keeps, and that no other layout
    of the same words is shorter. Lengths are lengths in bytes of UTF-8. */
module Wrap {
  // ---- words ----

  /** unicode.IsSpace. */
  predicate IsSpace(c: char) {
    '\t' <= c <= '\r' || c == ' ' || c == '\U{85}' || c == '\U{A0}' || c == '\U{1680}' || '\U{2000}' <= c <= '\U{200A}'
    || c == '\U{2028}' || c == '\U{2029}' || c == '\U{202F}' || c == '\U{205F}' || c == '\U{3000}'
  }

  /** The characters Unicode calls white space. */
  const SPACES: string :=
    "\t\n\U{B}\U{C}\r \U{85}\U{A0}\U{1680}\U{2000}\U{2001}\U{2002}\U{2003}\U{2004}\U{2005}\U{2006}\U{2007}\U{2008}\U{2009}\U{200A}\U{2028}\U{2029}\U{202F}\U{205F}\U{3000}"

  lemma IsSpaceExactly(c: char)
    ensures IsSpace(c) <==> c in SPACES
  {
  }

  function RuneLen(c: char): nat {
    if c < '\U{80}' then 1 else if c < '\U{800}' then 2 else if c < '\U{10000}' then 3 else 4
  }

  /** A character's bytes in UTF-8 (section 3 of RFC 3629). */
  function Utf8(c: char): seq<int> {
    var n := c as int;
    if n < 0x80 then [n]
    else if n < 0x800 then [0xC0 + n / 0x40, 0x80 + n % 0x40]
    else if n < 0x1_0000 then [0xE0 + n / 0x1000, 0x80 + n / 0x40 % 0x40, 0x80 + n % 0x40]
    else [0xF0 + n / 0x4_0000, 0x80 + n / 0x1000 % 0x40, 0x80 + n / 0x40 % 0x40, 0x80 + n % 0x40]
  }

  /** How many bytes a character's first byte announces, and the number the bytes carry. */
  function Announced(b: int): nat {
    if b < 0x80 then 1 else if b < 0xE0 then 2 else if b < 0xF0 then 3 else 4
  }

  function Carried(b: seq<int>): int {
    if |b| == 2 then (b[0] - 0xC0) * 0x40 + b[1] - 0x80
    else if |b| == 3 then ((b[0] - 0xE0) * 0x40 + b[1] - 0x80) * 0x40 + b[2] - 0x80
    else if |b| == 4 then (((b[0] - 0xF0) * 0x40 + b[1] - 0x80) * 0x40 + b[2] - 0x80) * 0x40 + b[3] - 0x80
    else if |b| == 1 then b[0]
    else 0
  }

  /** The length used is that of the character's bytes, which its first byte announces and
      from which it can be read back; and no shorter form could carry it. */
  lemma RuneLenIsUtf8(c: char)
    ensures RuneLen(c) == |Utf8(c)| == Announced(Utf8(c)[0])
    ensures Carried(Utf8(c)) == c as int
    ensures 0 <= Utf8(c)[0] < 0x80 || 0xC0 <= Utf8(c)[0] < 0x100
    ensures forall k | 1 <= k < |Utf8(c)| :: 0x80 <= Utf8(c)[k] < 0xC0
    ensures |Utf8(c)| > 1 ==> [0x80, 0x800, 0x1_0000][|Utf8(c)| - 2] <= c as int
  {
    var n := c as int;
    assert n == n / 0x40 * 0x40 + n % 0x40;
    assert n / 0x40 == n / 0x1000 * 0x40 + n / 0x40 % 0x40;
    assert n / 0x1000 == n / 0x4_0000 * 0x40 + n / 0x1000 % 0x40;
  }

  function ByteLen(s: string): (n: nat)
    ensures n == 0 <==> s == ""
  {
    if s == "" then 0 else RuneLen(s[0]) + ByteLen(s[1..])
  }

  lemma {:induction false} ByteLenConcat(a: string, b: string)
    ensures ByteLen(a + b) == ByteLen(a) + ByteLen(b)
  {
    if a == "" {
      assert a + b == b;
    } else {
      ByteLenConcat(a[1..], b);
      assert (a + b)[1..] == a[1..] + b;
    }
  }

  predicate IsWord(w: string) {
    w != "" && forall c | c in w :: !IsSpace(c)
  }

  predicate AllWords(ws: seq<string>) {
    forall w | w in ws :: IsWord(w)
  }

  /** The longest prefix without white space. */
  function Head(s: string): (w: string)
    ensures |w| <= |s| && s[..|w|] == w
    ensures forall c | c in w :: !IsSpace(c)
    ensures |w| < |s| ==> IsSpace(s[|w|])
  {
    if s == "" || IsSpace(s[0]) then "" else [s[0]] + Head(s[1..])
  }

  /** strings.Fields. */
  function Fields(s: string): (ws: seq<string>)
    ensures AllWords(ws)
    decreases |s|
  {
    if s == "" then []
    else if IsSpace(s[0]) then Fields(s[1..])
    else [Head(s)] + Fields(s[|Head(s)|..])
  }

  function JoinWords(ws: seq<string>): string {
    if ws == [] then ""
    else if |ws| == 1 then ws[0]
    else JoinWords(ws[..|ws| - 1]) + " " + ws[|ws| - 1]
  }

  lemma {:induction false} HeadOfWord(w: string, rest: string)
    requires forall c | c in w :: !IsSpace(c)
    requires rest == "" || IsSpace(rest[0])
    ensures Head(w + rest) == w
  {
    if w == "" {
      assert w + rest == rest;
    } else {
      assert (w + rest)[1..] == w[1..] + rest;
      HeadOfWord(w[1..], rest);
    }
  }

  lemma FieldsOfWord(w: string, rest: string)
    requires IsWord(w) && (rest == "" || IsSpace(rest[0]))
    ensures Fields(w + rest) == [w] + Fields(rest)
  {
    HeadOfWord(w, rest);
    assert (w + rest)[|w|..] == rest;
  }

  /** A space separates fields, and adds none. */
  lemma {:induction false} FieldsConcat(a: string, b: string)
    ensures Fields(a + " " + b) == Fields(a) + Fields(b)
    decreases |a|
  {
    var s := a + " " + b;
    if a == "" {
      assert s[1..] == b;
    } else if IsSpace(a[0]) {
      assert s[1..] == a[1..] + " " + b;
      FieldsConcat(a[1..], b);
    } else {
      var h := Head(a);
      var rest := a[|h|..];
      assert a == h + rest;
      assert s == h + (rest + " " + b);
      assert h != "";
      FieldsOfWord(h, rest + " " + b);
      FieldsConcat(rest, b);
    }
  }

  lemma {:induction false} FieldsOfJoin(ws: seq<string>)
    requires AllWords(ws)
    ensures Fields(JoinWords(ws)) == ws
  {
    if ws != [] {
      var front, w := ws[..|ws| - 1], ws[|ws| - 1];
      FieldsOfWord(w, "");
      assert w + "" == w;
      assert ws == front + [w];
      if |ws| > 1 {
        FieldsOfJoin(front);
        FieldsConcat(JoinWords(front), w);
      }
    }
  }

  // ---- layouts ----

  /** The length of words i to j - 1 on one line. */
  function Span(ws: seq<string>, i: nat, j: nat): nat
    requires i <= j <= |ws|
    decreases j - i
  {
    if i == j then 0
    else if i + 1 == j then ByteLen(ws[i])
    else Span(ws, i, j - 1) + 1 + ByteLen(ws[j - 1])
  }

  lemma {:induction false} SpanIsLength(ws: seq<string>, i: nat, j: nat)
    requires i <= j <= |ws|
    ensures ByteLen(JoinWords(ws[i..j])) == Span(ws, i, j)
    decreases j - i
  {
    var run := ws[i..j];
    if i + 1 < j {
      SpanIsLength(ws, i, j - 1);
      assert run[..|run| - 1] == ws[i..j - 1];
      ByteLenConcat(JoinWords(ws[i..j - 1]) + " ", ws[j - 1]);
      ByteLenConcat(JoinWords(ws[i..j - 1]), " ");
      assert ByteLen(" ") == 1;
    }
  }

  /** A line may be too long only when it is a single word. */
  predicate Fits(ws: seq<string>, width: int, i: nat, j: nat)
    requires i < j <= |ws|
  {
    j == i + 1 || Span(ws, i, j) <= width
  }

  /** Where the line that starts at word i ends, having reached word k. */
  function Extend(ws: seq<string>, width: int, i: nat, k: nat): (m: nat)
    requires i < k <= |ws|
    ensures k <= m <= |ws|
    decreases |ws| - k
  {
    if k == |ws| || Span(ws, i, k) + 1 + ByteLen(ws[k]) > width then k else Extend(ws, width, i, k + 1)
  }

  function Runs(ws: seq<string>, width: int, i: nat): seq<seq<string>>
    requires i <= |ws|
    decreases |ws| - i
  {
    if i == |ws| then []
    else var m := Extend(ws, width, i, i + 1); [ws[i..m]] + Runs(ws, width, m)
  }

  function Lines(runs: seq<seq<string>>): seq<string> {
    if runs == [] then [] else [JoinWords(runs[0])] + Lines(runs[1..])
  }

  function Concat(runs: seq<seq<string>>): seq<string> {
    if runs == [] then [] else runs[0] + Concat(runs[1..])
  }

  lemma Flush(ws: seq<string>, width: int, i: nat, k: nat)
    requires i < k <= |ws| && Extend(ws, width, i, i + 1) == k
    ensures Lines(Runs(ws, width, i)) == [JoinWords(ws[i..k])] + Lines(Runs(ws, width, k))
  {
    assert Runs(ws, width, i) == [ws[i..k]] + Runs(ws, width, k);
  }

  lemma JoinSnoc(ws: seq<string>, i: nat, k: nat)
    requires i <= k < |ws|
    ensures JoinWords(ws[i..k + 1]) == if i == k then ws[k] else JoinWords(ws[i..k]) + " " + ws[k]
  {
    var run := ws[i..k + 1];
    assert run[..|run| - 1] == ws[i..k];
  }

  /** A line under construction has the length of its span, which is not zero. */
  lemma LineLength(ws: seq<string>, i: nat, k: nat)
    requires AllWords(ws) && i < k <= |ws|
    ensures ByteLen(JoinWords(ws[i..k])) == Span(ws, i, k) > 0
  {
    SpanIsLength(ws, i, k);
    assert ws[i] in ws;
    SpanPositive(ws, i, k);
  }

  /** After k words: the open line holds words i to k - 1, and the finished lines followed
      by the layout of the words from i on are the whole layout. */
  ghost predicate Progress(ws: seq<string>, width: int, k: nat, i: nat, line: string, lines: seq<string>) {
    && k <= |ws| && (if k == 0 then i == 0 else i < k)
    && line == JoinWords(ws[i..k])
    && (k > 0 ==> Extend(ws, width, i, i + 1) == Extend(ws, width, i, k))
    && lines + Lines(Runs(ws, width, i)) == Lines(Runs(ws, width, 0))
  }

  lemma OpenLine(ws: seq<string>, width: int, k: nat, i: nat, line: string, lines: seq<string>)
    requires AllWords(ws) && Progress(ws, width, k, i, line, lines)
    ensures ByteLen(line) > 0 <==> k > 0
    ensures ByteLen(line) == Span(ws, i, k)
  {
    if k > 0 {
      LineLength(ws, i, k);
    }
  }

  lemma WordAdded(ws: seq<string>, width: int, k: nat, i: nat, line: string, lines: seq<string>)
    requires AllWords(ws) && Progress(ws, width, k, i, line, lines) && k < |ws|
    requires k > 0 ==> ByteLen(line) + 1 + ByteLen(ws[k]) <= width
    ensures Progress(ws, width, k + 1, i, (if ByteLen(line) > 0 then line + " " else line) + ws[k], lines)
  {
    OpenLine(ws, width, k, i, line, lines);
    JoinSnoc(ws, i, k);
    assert "" + ws[k] == ws[k];
  }

  lemma LineFlushed(ws: seq<string>, width: int, k: nat, i: nat, line: string, lines: seq<string>)
    requires AllWords(ws) && Progress(ws, width, k, i, line, lines) && 0 < k
    requires k == |ws| || ByteLen(line) + 1 + ByteLen(ws[k]) > width
    ensures (lines + [line]) + Lines(Runs(ws, width, k)) == Lines(Runs(ws, width, 0))
    ensures k < |ws| ==> Progress(ws, width, k + 1, k, ws[k], lines + [line])
  {
    OpenLine(ws, width, k, i, line, lines);
    Flush(ws, width, i, k);
    assert lines + ([line] + Lines(Runs(ws, width, k))) == (lines + [line]) + Lines(Runs(ws, width, k));
  }

  /** internal/app/importcmd.go wrap. */
  method Wrap(s: string, width: int) returns (lines: seq<string>)
    ensures lines == Lines(Runs(Fields(s), width, 0))
  {
    var words := Fields(s);
    if words == [] {
      return [];
    }
    lines := [];
    var line := "";
    ghost var i := 0;
    for k := 0 to |words|
      invariant Progress(words, width, k, i, line, lines)
    {
      var word := words[k];
      OpenLine(words, width, k, i, line, lines);
      if ByteLen(line) > 0 && ByteLen(line) + 1 + ByteLen(word) > width {
        LineFlushed(words, width, k, i, line, lines);
        lines := lines + [line];
        line := "";
        i := k;
      } else {
        WordAdded(words, width, k, i, line, lines);
      }
      if ByteLen(line) > 0 {
        line := line + " ";
      }
      line := line + word;
    }
    OpenLine(words, width, |words|, i, line, lines);
    LineFlushed(words, width, |words|, i, line, lines);
    if ByteLen(line) > 0 {
      lines := lines + [line];
    }
  }

  lemma {:induction false} SpanPositive(ws: seq<string>, i: nat, j: nat)
    requires i < j <= |ws| && IsWord(ws[i])
    ensures Span(ws, i, j) > 0
    decreases j - i
  {
    if i + 1 < j {
      SpanPositive(ws, i, j - 1);
    }
  }

  // ---- what a layout keeps ----

  lemma {:induction false} RunsKeepWords(ws: seq<string>, width: int, i: nat)
    requires i <= |ws|
    ensures Concat(Runs(ws, width, i)) == ws[i..]
    decreases |ws| - i
  {
    if i < |ws| {
      var m := Extend(ws, width, i, i + 1);
      RunsKeepWords(ws, width, m);
      assert ws[i..m] + ws[m..] == ws[i..];
    }
  }

  lemma {:induction false} FieldsOfLines(runs: seq<seq<string>>)
    requires forall r | r in runs :: AllWords(r)
    ensures Fields(JoinLines(Lines(runs))) == Concat(runs)
  {
    if runs != [] {
      FieldsOfJoin(runs[0]);
      FieldsOfLines(runs[1..]);
      FieldsConcat(JoinWords(runs[0]), JoinLines(Lines(runs[1..])));
    }
  }

  /** The lines one after the other, with a space after each. */
  function JoinLines(lines: seq<string>): string {
    if lines == [] then "" else lines[0] + " " + JoinLines(lines[1..])
  }

  lemma {:induction false} RunsAreRuns(ws: seq<string>, width: int, i: nat)
    requires i <= |ws| && AllWords(ws)
    ensures forall r | r in Runs(ws, width, i) :: AllWords(r) && r != [] && (|r| == 1 || ByteLen(JoinWords(r)) <= width)
    decreases |ws| - i
  {
    if i < |ws| {
      var m := Extend(ws, width, i, i + 1);
      RunsAreRuns(ws, width, m);
      ExtendFits(ws, width, i, i + 1);
      SpanIsLength(ws, i, m);
    }
  }

  lemma {:induction false} ExtendFits(ws: seq<string>, width: int, i: nat, k: nat)
    requires i < k <= |ws| && Fits(ws, width, i, k)
    ensures Fits(ws, width, i, Extend(ws, width, i, k))
    decreases |ws| - k
  {
    if k < |ws| && Span(ws, i, k) + 1 + ByteLen(ws[k]) <= width {
      ExtendFits(ws, width, i, k + 1);
    }
  }

  lemma {:induction false} LinesAt(runs: seq<seq<string>>, k: nat)
    requires k < |runs|
    ensures |Lines(runs)| == |runs| && Lines(runs)[k] == JoinWords(runs[k])
  {
    if k > 0 {
      LinesAt(runs[1..], k - 1);
    } else if |runs| > 1 {
      LinesAt(runs[1..], 0);
    }
  }

  /** Wrapping loses, adds and reorders no word, and every line is within the width or a
      single word. */
  lemma WrapKeepsWordsAndWidth(s: string, width: int)
    ensures var lines := Lines(Runs(Fields(s), width, 0));
      && Fields(JoinLines(lines)) == Fields(s)
      && forall l | l in lines :: IsWord(l) || (l != "" && ByteLen(l) <= width)
  {
    var ws := Fields(s);
    var runs := Runs(ws, width, 0);
    RunsAreRuns(ws, width, 0);
    RunsKeepWords(ws, width, 0);
    FieldsOfLines(runs);
    forall l | l in Lines(runs) ensures IsWord(l) || (l != "" && ByteLen(l) <= width) {
      var k :| 0 <= k < |Lines(runs)| && Lines(runs)[k] == l;
      LinesLength(runs);
      LinesAt(runs, k);
      var r := runs[k];
      assert r in runs;
      FieldsOfJoin(r);
      if |r| == 1 {
        assert r[0] in r;
      }
    }
  }

  lemma {:induction false} LinesLength(runs: seq<seq<string>>)
    ensures |Lines(runs)| == |runs|
  {
    if runs != [] {
      LinesLength(runs[1..]);
    }
  }

  // ---- optimality ----

  lemma {:induction false} SpanGrowsRight(ws: seq<string>, i: nat, j: nat, j': nat)
    requires i < j <= j' <= |ws|
    ensures Span(ws, i, j) <= Span(ws, i, j')
    decreases j'
  {
    if j < j' {
      SpanGrowsRight(ws, i, j, j' - 1);
    }
  }

  lemma {:induction false} SpanShrinksLeft(ws: seq<string>, i: nat, i': nat, j: nat)
    requires i <= i' < j <= |ws|
    ensures Span(ws, i', j) <= Span(ws, i, j)
    decreases j
  {
    if i' + 1 < j {
      SpanShrinksLeft(ws, i, i', j - 1);
    }
  }

  /** The greedy line is the longest that fits. */
  lemma {:induction false} ExtendIsLongest(ws: seq<string>, width: int, i: nat, k: nat, j: nat)
    requires i < k <= j <= |ws| && Fits(ws, width, i, j)
    ensures j <= Extend(ws, width, i, k)
    decreases |ws| - k
  {
    if k < j {
      SpanGrowsRight(ws, i, k + 1, j);
      ExtendIsLongest(ws, width, i, k + 1, j);
    }
  }

  function Count(ws: seq<string>, width: int, i: nat): nat
    requires i <= |ws|
    decreases |ws| - i
  {
    if i == |ws| then 0 else 1 + Count(ws, width, Extend(ws, width, i, i + 1))
  }

  lemma {:induction false} CountIsLength(ws: seq<string>, width: int, i: nat)
    requires i <= |ws|
    ensures |Runs(ws, width, i)| == Count(ws, width, i)
    decreases |ws| - i
  {
    if i < |ws| {
      CountIsLength(ws, width, Extend(ws, width, i, i + 1));
    }
  }

  /** The exchange: starting further along never costs a line. */
  lemma {:induction false} LaterStartIsNoWorse(ws: seq<string>, width: int, i: nat, i': nat)
    requires i <= i' <= |ws|
    ensures Count(ws, width, i') <= Count(ws, width, i)
    decreases |ws| - i
  {
    if i < i' {
      var m := Extend(ws, width, i, i + 1);
      if m <= i' {
        LaterStartIsNoWorse(ws, width, m, i');
      } else {
        ExtendFits(ws, width, i, i + 1);
        SpanShrinksLeft(ws, i, i', m);
        assert Fits(ws, width, i', m);
        ExtendIsLongest(ws, width, i', i' + 1, m);
        LaterStartIsNoWorse(ws, width, m, Extend(ws, width, i', i' + 1));
      }
    }
  }

  /** A division of words into consecutive non-empty runs obeying the width rule. */
  predicate Layout(runs: seq<seq<string>>, width: int) {
    forall r | r in runs :: r != [] && (|r| == 1 || ByteLen(JoinWords(r)) <= width)
  }

  lemma {:induction false} GreedyIsShortest(ws: seq<string>, width: int, i: nat, other: seq<seq<string>>)
    requires i <= |ws| && Layout(other, width) && Concat(other) == ws[i..]
    ensures Count(ws, width, i) <= |other|
    decreases |other|
  {
    if other == [] {
      assert i == |ws|;
    } else {
      var r := other[0];
      assert r in other;
      var j := i + |r|;
      assert r == Concat(other)[..|r|] && r == ws[i..j];
      assert Concat(other[1..]) == Concat(other)[|r|..] == ws[j..];
      SpanIsLength(ws, i, j);
      ExtendIsLongest(ws, width, i, i + 1, j);
      LaterStartIsNoWorse(ws, width, j, Extend(ws, width, i, i + 1));
      assert Layout(other[1..], width);
      GreedyIsShortest(ws, width, j, other[1..]);
    }
  }

  /** No layout of the same words in the same order uses fewer lines than wrap does. */
  lemma WrapIsOptimal(s: string, width: int, other: seq<seq<string>>)
    requires Layout(other, width) && Concat(other) == Fields(s)
    ensures |Lines(Runs(Fields(s), width, 0))| <= |other|
  {
    assert Fields(s)[0..] == Fields(s);
    GreedyIsShortest(Fields(s), width, 0, other);
    CountIsLength(Fields(s), width, 0);
    LinesLength(Runs(Fields(s), width, 0));
  }
}
