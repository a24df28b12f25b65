/** The lexer of the IRC formatting parser: a line of text becomes a sequence
    of tokens, runs of literal text and mIRC formatting control codes.

    The source tries the rules of its grammar table in turn and lets one pass
    of its loop emit several tokens. The six control rules and the text rule
    differ on their first character and every match is maximal, so the tokens
    it emits are exactly those of a scanner that reads one token per step,
    which is what this module models. */
module Tokenizer {

  datatype Option<T> = None | Some(value: T)

  /** The six formatting control characters. */
  const COLOR: char := 0x03 as char
  const BOLD: char := 0x02 as char
  const ITALIC: char := 0x1d as char
  const UNDERLINE: char := 0x1f as char
  const REVERSE: char := 0x16 as char
  const RESET: char := 0x0f as char

  /** The characters the text rule excludes. The text rule's class is built
      from the six control rules only, so 0x01 counts as ordinary text. */
  predicate IsControl(c: char) {
    c == COLOR || c == BOLD || c == ITALIC || c == UNDERLINE || c == REVERSE || c == RESET
  }

  /** `\d` of the grammar: an ASCII decimal digit. */
  predicate IsDigit(c: char) {
    '0' <= c <= '9'
  }

  predicate AllDigits(s: string) {
    forall i | 0 <= i < |s| :: IsDigit(s[i])
  }

  predicate NoControl(s: string) {
    forall i | 0 <= i < |s| :: !IsControl(s[i])
  }

  /** What a color argument group captures: decimal digits, kept as a string. */
  type DigitString = s: string | AllDigits(s)

  /** A token: a text run, a color code with the digit strings its optional
      foreground and background groups captured, or one of the five
      argument-less codes. */
  datatype Token =
    | Text(text: string)
    | Color(fg: Option<DigitString>, bg: Option<DigitString>)
    | Bold
    | Italic
    | Underline
    | Reverse
    | Reset

  /** The characters of the line that a token was read from. */
  function Span(t: Token): string {
    match t
    case Text(s) => s
    case Color(fg, bg) =>
      [COLOR] + (if fg.Some? then fg.value else "") + (if bg.Some? then [','] + bg.value else "")
    case Bold => [BOLD]
    case Italic => [ITALIC]
    case Underline => [UNDERLINE]
    case Reverse => [REVERSE]
    case Reset => [RESET]
  }

  /** The line a token sequence was read from: the spans, in order. */
  function Unlex(ts: seq<Token>): string {
    if ts == [] then "" else Span(ts[0]) + Unlex(ts[1..])
  }

  /** A token the grammar can produce: a non-empty text run free of control
      characters, or a color code whose groups hold one or two digits, with a
      background only after a foreground. */
  predicate WellFormed(t: Token) {
    match t
    case Text(s) => |s| > 0 && NoControl(s)
    case Color(fg, bg) =>
      (fg.Some? ==> 1 <= |fg.value| <= 2) && (bg.Some? ==> fg.Some? && 1 <= |bg.value| <= 2)
    case _ => true
  }

  predicate StartsWithDigit(s: string) {
    |s| > 0 && IsDigit(s[0])
  }

  /** The input that follows `t` could not have extended its match: text runs
      end at a control character or at the end of the line, and a color code
      stops only where its grammar cannot take one more digit or a `,`
      followed by a digit. */
  predicate Separated(t: Token, rest: string) {
    match t
    case Text(_) => |rest| == 0 || IsControl(rest[0])
    case Color(None, _) => !StartsWithDigit(rest)
    case Color(Some(f), None) =>
      (|f| < 2 ==> !StartsWithDigit(rest)) && !(|rest| >= 2 && rest[0] == ',' && IsDigit(rest[1]))
    case Color(Some(_), Some(g)) => |g| < 2 ==> !StartsWithDigit(rest)
    case _ => true
  }

  /** The length of the `\d{1,2}` match at the front of `s`, 0 if there is none. */
  function LeadingDigits(s: string): (n: nat)
    ensures n <= 2 && n <= |s|
    ensures AllDigits(s[..n])
    ensures n < 2 && n < |s| ==> !IsDigit(s[n])
  {
    if |s| == 0 || !IsDigit(s[0]) then 0
    else if |s| == 1 || !IsDigit(s[1]) then 1
    else 2
  }

  /** The length of the text rule's match at the front of `s`: the longest
      prefix free of control characters. */
  function TextRun(s: string): (n: nat)
    ensures n <= |s|
    ensures NoControl(s[..n])
    ensures n < |s| ==> IsControl(s[n])
  {
    if |s| == 0 || IsControl(s[0]) then 0
    else
      var m := TextRun(s[1..]);
      assert s[..1 + m] == [s[0]] + s[1..][..m];
      1 + m
  }

  /** The color rule at the front of a line that starts with the color
      character: the token and the number of characters it consumes. */
  function MatchColor(line: string): (m: (Token, nat))
    requires |line| > 0 && line[0] == COLOR
    ensures 0 < m.1 <= |line|
    ensures Span(m.0) == line[..m.1]
    ensures WellFormed(m.0) && Separated(m.0, line[m.1..])
  {
    var f := LeadingDigits(line[1..]);
    if f == 0 then (Color(None, None), 1)
    else if 2 + f < |line| && line[1 + f] == ',' && IsDigit(line[2 + f]) then
      var g := LeadingDigits(line[2 + f..]);
      ForegroundSpan(line, f);
      BackgroundSpan(line, f, g);
      (Color(Some(line[1..1 + f]), Some(line[2 + f..2 + f + g])), 2 + f + g)
    else
      ForegroundSpan(line, f);
      (Color(Some(line[1..1 + f]), None), 1 + f)
  }

  /** The foreground group of a color code: the digits after the color character. */
  lemma ForegroundSpan(line: string, f: nat)
    requires 1 + f <= |line|
    requires AllDigits(line[1..][..f])
    ensures AllDigits(line[1..1 + f])
    ensures line[..1 + f] == [line[0]] + line[1..1 + f]
  {
    assert line[1..][..f] == line[1..1 + f];
  }

  /** The background group of a color code: the digits after the comma. */
  lemma BackgroundSpan(line: string, f: nat, g: nat)
    requires 2 + f + g <= |line| && line[1 + f] == ','
    requires AllDigits(line[2 + f..][..g])
    ensures AllDigits(line[2 + f..2 + f + g])
    ensures line[..2 + f + g] == [line[0]] + line[1..1 + f] + ([','] + line[2 + f..2 + f + g])
  {
    assert line[2 + f..][..g] == line[2 + f..2 + f + g];
    assert line[..2 + f + g] == line[..1] + line[1..1 + f] + (line[1 + f..2 + f] + line[2 + f..2 + f + g]);
  }

  /** One step of the scanner: the token that the grammar matches at the
      front of a non-empty line, and how many characters it consumes. */
  function MatchToken(line: string): (m: (Token, nat))
    requires |line| > 0
    ensures 0 < m.1 <= |line|
    ensures Span(m.0) == line[..m.1]
    ensures WellFormed(m.0) && Separated(m.0, line[m.1..])
    ensures m.0.Text? <==> !IsControl(line[0])
  {
    var c := line[0];
    if c == COLOR then MatchColor(line)
    else if c == BOLD then (Bold, 1)
    else if c == ITALIC then (Italic, 1)
    else if c == UNDERLINE then (Underline, 1)
    else if c == REVERSE then (Reverse, 1)
    else if c == RESET then (Reset, 1)
    else
      var n := TextRun(line);
      (Text(line[..n]), n)
  }

  /** The token sequence of a line. Every step consumes at least one
      character, so the scan ends on every input. */
  function Lex(line: string): (ts: seq<Token>)
    ensures |ts| <= |line|
    ensures ts == [] <==> line == []
    decreases |line|
  {
    if |line| == 0 then []
    else
      var m := MatchToken(line);
      [m.0] + Lex(line[m.1..])
  }

  /** `tokenize`: repeatedly match a token at the front of the remaining
      line, append it and cut the matched characters off. */
  method Tokenize(line: string) returns (tokens: seq<Token>)
    ensures tokens == Lex(line)
  {
    tokens := [];
    var rest := line;
    while |rest| > 0
      invariant tokens + Lex(rest) == Lex(line)
      decreases |rest|
    {
      var m := MatchToken(rest);
      tokens := tokens + [m.0];
      rest := rest[m.1..];
    }
  }

  /** The token sequences the scanner can produce, followed by `rest`: every
      token is well formed and is not extended by what follows it. */
  predicate CanonicalBefore(ts: seq<Token>, rest: string) {
    ts == [] ||
    (WellFormed(ts[0]) && Separated(ts[0], Unlex(ts[1..]) + rest) && CanonicalBefore(ts[1..], rest))
  }

  predicate Canonical(ts: seq<Token>) {
    CanonicalBefore(ts, "")
  }

  lemma {:induction false} UnlexAppend(a: seq<Token>, b: seq<Token>)
    ensures Unlex(a + b) == Unlex(a) + Unlex(b)
  {
    if a == [] {
      assert a + b == b;
    } else {
      assert (a + b)[0] == a[0];
      assert (a + b)[1..] == a[1..] + b;
      UnlexAppend(a[1..], b);
    }
  }

  /** Nothing is lost: the tokens of a line spell the line again. */
  lemma {:induction false} LexLossless(line: string)
    ensures Unlex(Lex(line)) == line
    decreases |line|
  {
    if |line| > 0 {
      var m := MatchToken(line);
      LexLossless(line[m.1..]);
      assert line == line[..m.1] + line[m.1..];
    }
  }

  /** Every sequence the scanner produces is canonical: text tokens are
      non-empty runs without control characters, color groups hold one or two
      digits, and each match is maximal. */
  lemma {:induction false} LexCanonical(line: string)
    ensures Canonical(Lex(line))
    decreases |line|
  {
    if |line| > 0 {
      var m := MatchToken(line);
      var ts := Lex(line);
      assert ts[1..] == Lex(line[m.1..]);
      LexLossless(line[m.1..]);
      LexCanonical(line[m.1..]);
      assert Unlex(ts[1..]) + "" == line[m.1..];
    }
  }

  /** No two text tokens are adjacent: a text run always stops at a control
      character, which starts a control token. */
  lemma {:induction false} LexNoAdjacentText(line: string)
    ensures forall i | 0 <= i < |Lex(line)| - 1 :: !(Lex(line)[i].Text? && Lex(line)[i + 1].Text?)
    decreases |line|
  {
    if |line| > 0 {
      var m := MatchToken(line);
      var rest := line[m.1..];
      LexNoAdjacentText(rest);
      var ts := Lex(line);
      assert ts[1..] == Lex(rest);
      if m.0.Text? && |rest| > 0 {
        assert IsControl(rest[0]);
        assert Lex(rest)[0] == MatchToken(rest).0;
      }
      forall i | 0 <= i < |ts| - 1
        ensures !(ts[i].Text? && ts[i + 1].Text?)
      {
        if i > 0 {
          assert ts[i] == Lex(rest)[i - 1] && ts[i + 1] == Lex(rest)[i];
        }
      }
    }
  }

  /** A non-empty run free of control characters, followed by nothing or by
      a control character, is matched whole by the text rule. */
  lemma MatchText(s: string, rest: string)
    requires |s| > 0 && NoControl(s) && (|rest| == 0 || IsControl(rest[0]))
    ensures MatchToken(s + rest) == (Text(s), |s|)
  {
    var line := s + rest;
    assert line[0] == s[0];
    var n := TextRun(line);
    assert forall i | 0 <= i < |s| :: line[i] == s[i];
    assert |rest| > 0 ==> line[|s|] == rest[0];
    assert line[..n] == s;
  }

  lemma MatchColorBare(rest: string)
    requires !StartsWithDigit(rest)
    ensures MatchColor([COLOR] + rest) == (Color(None, None), 1)
  {
    assert ([COLOR] + rest)[1..] == rest;
  }

  lemma MatchColorFg(f: DigitString, rest: string)
    requires 1 <= |f| <= 2
    requires |f| < 2 ==> !StartsWithDigit(rest)
    requires !(|rest| >= 2 && rest[0] == ',' && IsDigit(rest[1]))
    ensures MatchColor([COLOR] + f + rest) == (Color(Some(f), None), 1 + |f|)
  {
    var line := [COLOR] + f + rest;
    var after1 := line[1..];
    assert after1 == f + rest;
    assert after1[0] == f[0];
    if |f| == 2 {
      assert after1[1] == f[1];
    } else if |rest| > 0 {
      assert after1[1] == rest[0];
    }
    assert LeadingDigits(after1) == |f|;
    assert line[1 + |f|..] == rest;
    assert line[1..1 + |f|] == f;
  }

  lemma MatchColorFgBg(f: DigitString, g: DigitString, rest: string)
    requires 1 <= |f| <= 2 && 1 <= |g| <= 2
    requires |g| < 2 ==> !StartsWithDigit(rest)
    ensures MatchColor([COLOR] + f + [','] + g + rest) == (Color(Some(f), Some(g)), 2 + |f| + |g|)
  {
    var line := [COLOR] + f + [','] + g + rest;
    var after1 := line[1..];
    assert after1 == f + [','] + g + rest;
    assert after1[0] == f[0];
    if |f| == 2 {
      assert after1[1] == f[1];
    } else {
      assert after1[1] == ',';
    }
    assert LeadingDigits(after1) == |f|;
    var after := line[1 + |f|..];
    assert after == [','] + g + rest;
    var after2 := after[1..];
    assert after2 == g + rest;
    assert after2[0] == g[0];
    if |g| == 2 {
      assert after2[1] == g[1];
    } else if |rest| > 0 {
      assert after2[1] == rest[0];
    }
    assert LeadingDigits(after2) == |g|;
    assert line[1..1 + |f|] == f;
    assert after[1..1 + |g|] == g;
  }

  /** A well-formed token that nothing after it can extend is exactly what
      the scanner matches at the front of its own span. */
  lemma MatchSpan(t: Token, rest: string)
    requires WellFormed(t) && Separated(t, rest)
    ensures |Span(t) + rest| > 0
    ensures MatchToken(Span(t) + rest) == (t, |Span(t)|)
  {
    match t
    case Text(s) => MatchText(s, rest);
    case Color(fg, bg) =>
      if fg.None? {
        assert Span(t) + rest == [COLOR] + rest;
        MatchColorBare(rest);
      } else if bg.None? {
        assert Span(t) + rest == [COLOR] + fg.value + rest;
        MatchColorFg(fg.value, rest);
      } else {
        assert Span(t) + rest == [COLOR] + fg.value + [','] + bg.value + rest;
        MatchColorFgBg(fg.value, bg.value, rest);
      }
    case Bold =>
    case Italic =>
    case Underline =>
    case Reverse =>
    case Reset =>
  }

  lemma LexCons(t: Token, rest: string)
    requires WellFormed(t) && Separated(t, rest)
    ensures Lex(Span(t) + rest) == [t] + Lex(rest)
  {
    MatchSpan(t, rest);
    assert (Span(t) + rest)[|Span(t)|..] == rest;
  }

  lemma AppendAssoc<T>(a: seq<T>, b: seq<T>, c: seq<T>)
    ensures (a + b) + c == a + (b + c)
  {
  }

  lemma ConsAppend<T>(s: seq<T>, a: seq<T>, b: seq<T>, c: seq<T>)
    requires s != [] && a == [s[0]] + b && b == s[1..] + c
    ensures a == s + c
  {
    assert s == [s[0]] + s[1..];
  }

  /** Lexing a canonical token sequence's spans, followed by anything, reads
      those tokens back first. */
  lemma {:induction false} LexAppend(ts: seq<Token>, rest: string)
    requires CanonicalBefore(ts, rest)
    ensures Lex(Unlex(ts) + rest) == ts + Lex(rest)
  {
    if ts == [] {
      assert Unlex(ts) + rest == rest;
      assert ts + Lex(rest) == Lex(rest);
    } else {
      var t, tail := ts[0], Unlex(ts[1..]) + rest;
      assert Unlex(ts) + rest == Span(t) + tail by {
        assert Unlex(ts) == Span(t) + Unlex(ts[1..]);
      }
      LexCons(t, tail);
      LexAppend(ts[1..], rest);
      ConsAppend(ts, Lex(Unlex(ts) + rest), Lex(tail), Lex(rest));
    }
  }

  lemma CanonicalCons(t: Token, tail: seq<Token>, rest: string)
    requires WellFormed(t) && Separated(t, Unlex(tail) + rest) && CanonicalBefore(tail, rest)
    ensures CanonicalBefore([t] + tail, rest)
  {
    assert ([t] + tail)[1..] == tail;
  }

  lemma CanonicalConsAppend(a: seq<Token>, b: seq<Token>, rest: string)
    requires a != [] && WellFormed(a[0]) && Separated(a[0], Unlex(a[1..]) + (Unlex(b) + rest))
    requires CanonicalBefore(a[1..] + b, rest)
    ensures CanonicalBefore(a + b, rest)
  {
    var c := a[1..] + b;
    assert Unlex(c) + rest == Unlex(a[1..]) + (Unlex(b) + rest) by {
      UnlexAppend(a[1..], b);
      AppendAssoc(Unlex(a[1..]), Unlex(b), rest);
    }
    CanonicalCons(a[0], c, rest);
    ConsAppend(a, [a[0]] + c, c, b);
  }

  lemma {:induction false} CanonicalAppend(a: seq<Token>, b: seq<Token>, rest: string)
    requires CanonicalBefore(a, Unlex(b) + rest) && CanonicalBefore(b, rest)
    ensures CanonicalBefore(a + b, rest)
  {
    if a == [] {
      assert a + b == b;
    } else {
      CanonicalAppend(a[1..], b, rest);
      CanonicalConsAppend(a, b, rest);
    }
  }

  /** The scanner is a bijection between lines and canonical token
      sequences: a token sequence is read back from its own spans exactly
      when it is canonical. */
  lemma LexUnlex(ts: seq<Token>)
    ensures Lex(Unlex(ts)) == ts <==> Canonical(ts)
  {
    if Canonical(ts) {
      LexAppend(ts, "");
      assert Unlex(ts) + "" == Unlex(ts);
    }
    LexCanonical(Unlex(ts));
  }

  /** The color grammar on its edge cases: a bare color code, a `,` without
      a foreground, a third digit, and a background. */
  lemma BareColor()
    ensures Lex([COLOR]) == [Color(None, None)]
  {
    LexCons(Color(None, None), "");
    assert [COLOR] == Span(Color(None, None)) + "";
  }

  lemma CommaWithoutForeground()
    ensures Lex([COLOR, ',', '5']) == [Color(None, None), Text(",5")]
  {
    LexCons(Text(",5"), "");
    assert ",5" == Span(Text(",5")) + "";
    LexCons(Color(None, None), ",5");
    assert [COLOR, ',', '5'] == Span(Color(None, None)) + ",5";
  }

  lemma ThirdDigitIsText(line: string)
    requires line == [COLOR, '1', '2', '3']
    ensures Lex(line) == [Color(Some("12"), None), Text("3")]
  {
    var c := Color(Some("12"), None);
    assert Span(c) == [COLOR] + "12" + "";
    assert line == Span(c) + "3";
    LexCons(Text("3"), "");
    assert "3" == Span(Text("3")) + "";
    LexCons(c, "3");
  }

  lemma ForegroundAndBackground(line: string)
    requires line == [COLOR, '1', ',', '2', '3', '4']
    ensures Lex(line) == [Color(Some("1"), Some("23")), Text("4")]
  {
    var c := Color(Some("1"), Some("23"));
    assert Span(c) == [COLOR] + "1" + ([','] + "23");
    assert line == Span(c) + "4";
    LexCons(Text("4"), "");
    assert "4" == Span(Text("4")) + "";
    LexCons(c, "4");
  }
}
