/** The serializer against the parser: the text `stringize` writes for a
    sequence of blocks is read back by `tokenize` and `blockize` as exactly
    those blocks, provided no block's text could be swallowed by the color
    code before it, every color fits the two-digit grammar, and no two
    neighbouring blocks share a style. Without these conditions the round
    trip fails, and the examples at the end of this module show how. */
module RoundTrip {
  import opened Tokenizer
  import opened Blockizer
  import opened Stringizer

  /** A text the serializer can write after a color code without the code
      reading any of it: non-empty and free of control characters, and, for
      the minimal notation, starting with neither a digit nor a comma. */
  predicate SafeText(notation: ColorNotation, s: string) {
    |s| > 0 && NoControl(s) && (notation == Minimal ==> !IsDigit(s[0]) && s[0] != ',')
  }

  /** The blocks for which the round trip holds: safe texts, colors in
      0..99, and no two neighbours in the same style. */
  predicate Safe(notation: ColorNotation, bs: seq<Block>) {
    (forall i | 0 <= i < |bs| :: SafeText(notation, bs[i].text) && InPalette(bs[i])) &&
    (forall i | 0 < i < |bs| :: !SameStyle(bs[i - 1], bs[i]))
  }

  /** What can follow a text run: nothing, or a control character. */
  predicate Boundary(s: string) {
    |s| == 0 || IsControl(s[0])
  }

  /** What can follow a color code without extending it. */
  predicate FreeStart(s: string) {
    |s| > 0 && !IsDigit(s[0]) && s[0] != ','
  }

  // The tokens behind the serializer's output.

  /** The color token written for `b` after `prev`, if any. */
  function ColorTokens(notation: ColorNotation, prev: Block, b: Block): seq<Token>
    requires InPalette(b)
  {
    if (b.textColor, b.bgColor) != (prev.textColor, prev.bgColor) then
      match notation
      case Minimal =>
        var fg: DigitString := NatToString(b.textColor);
        var bg: DigitString := NatToString(b.bgColor);
        [Color(Some(fg), if b.bgColor != prev.bgColor then Some(bg) else None)]
      case Padded =>
        var fg: DigitString := PaddedDecimal(b.textColor);
        var bg: DigitString := PaddedDecimal(b.bgColor);
        [Color(Some(fg), Some(bg))]
    else []
  }

  function ToggleToken(differs: bool, t: Token): seq<Token> {
    if differs then [t] else []
  }

  /** The bold, italic and underline tokens `stringize` writes for `b`. */
  function ToggleTokens(prev: Block, b: Block): seq<Token> {
    ToggleToken(b.bold != prev.bold, Bold) + ToggleToken(b.italic != prev.italic, Italic) +
    ToggleToken(b.underline != prev.underline, Underline)
  }

  function Codes(notation: ColorNotation, prev: Block, b: Block): seq<Token>
    requires InPalette(b)
  {
    ColorTokens(notation, prev, b) + ToggleTokens(prev, b)
  }

  function ChunkTokens(notation: ColorNotation, prev: Block, b: Block): seq<Token>
    requires InPalette(b)
  {
    Codes(notation, prev, b) + [Text(b.text)]
  }

  function EncodeTokens(notation: ColorNotation, prev: Block, bs: seq<Block>): seq<Token>
    requires forall i | 0 <= i < |bs| :: InPalette(bs[i])
    decreases |bs|
  {
    if bs == [] then [] else ChunkTokens(notation, prev, bs[0]) + EncodeTokens(notation, bs[0], bs[1..])
  }

  // The tokens spell out the serializer's output.

  lemma {:induction false} UnlexSingle(t: Token)
    ensures Unlex([t]) == Span(t)
  {
    assert [t][1..] == [];
  }

  lemma {:induction false} UnlexColor(notation: ColorNotation, prev: Block, b: Block)
    requires InPalette(b)
    ensures Unlex(ColorTokens(notation, prev, b)) == ColorCode(notation, prev, b)
  {
    if ColorTokens(notation, prev, b) != [] {
      UnlexSingle(ColorTokens(notation, prev, b)[0]);
    }
  }

  lemma {:induction false} UnlexToggle(differs: bool, t: Token)
    ensures Unlex(ToggleToken(differs, t)) == if differs then Span(t) else ""
  {
    if differs {
      UnlexSingle(t);
    }
  }

  lemma {:induction false} UnlexToggles(prev: Block, b: Block)
    ensures Unlex(ToggleTokens(prev, b)) ==
      Toggle(b.bold != prev.bold, BOLD) + Toggle(b.italic != prev.italic, ITALIC) + Toggle(b.underline != prev.underline, UNDERLINE)
  {
    var tb, ti, tu := ToggleToken(b.bold != prev.bold, Bold), ToggleToken(b.italic != prev.italic, Italic),
      ToggleToken(b.underline != prev.underline, Underline);
    UnlexAppend(tb + ti, tu);
    UnlexAppend(tb, ti);
    UnlexToggle(b.bold != prev.bold, Bold);
    UnlexToggle(b.italic != prev.italic, Italic);
    UnlexToggle(b.underline != prev.underline, Underline);
  }

  lemma {:induction false} UnlexChunk(notation: ColorNotation, prev: Block, b: Block)
    requires InPalette(b)
    ensures Unlex(ChunkTokens(notation, prev, b)) == Chunk(notation, prev, b)
  {
    var c, t := ColorTokens(notation, prev, b), ToggleTokens(prev, b);
    UnlexAppend(c + t, [Text(b.text)]);
    UnlexAppend(c, t);
    UnlexSingle(Text(b.text));
    UnlexColor(notation, prev, b);
    UnlexToggles(prev, b);
    var cc, tt := ColorCode(notation, prev, b), Unlex(t);
    AppendAssoc(cc, Toggle(b.bold != prev.bold, BOLD) + Toggle(b.italic != prev.italic, ITALIC),
      Toggle(b.underline != prev.underline, UNDERLINE));
    AppendAssoc(cc, Toggle(b.bold != prev.bold, BOLD), Toggle(b.italic != prev.italic, ITALIC));
  }

  /** The serializer's output is the spans of the encoding tokens. */
  lemma {:induction false} UnlexEncode(notation: ColorNotation, prev: Block, bs: seq<Block>)
    requires forall i | 0 <= i < |bs| :: InPalette(bs[i])
    ensures Unlex(EncodeTokens(notation, prev, bs)) == EncodedFrom(notation, prev, bs)
    decreases |bs|
  {
    if bs != [] {
      UnlexAppend(ChunkTokens(notation, prev, bs[0]), EncodeTokens(notation, bs[0], bs[1..]));
      UnlexChunk(notation, prev, bs[0]);
      UnlexEncode(notation, bs[0], bs[1..]);
    }
  }

  // The encoding tokens are what the lexer reads back.

  lemma {:induction false} ToggleCanonical(ts: seq<Token>, rest: string)
    requires forall i | 0 <= i < |ts| :: ts[i] == Bold || ts[i] == Italic || ts[i] == Underline
    ensures CanonicalBefore(ts, rest)
  {
    if ts != [] {
      ToggleCanonical(ts[1..], rest);
    }
  }

  lemma {:induction false} UnlexStartsControl(ts: seq<Token>)
    requires ts != [] && !ts[0].Text?
    ensures |Unlex(ts)| > 0 && IsControl(Unlex(ts)[0])
  {
  }

  lemma {:induction false} CanonicalText(s: string, rest: string)
    requires |s| > 0 && NoControl(s) && Boundary(rest)
    ensures CanonicalBefore([Text(s)], rest)
  {
    assert Unlex([]) + rest == rest;
    CanonicalCons(Text(s), [], rest);
    assert [Text(s)] + [] == [Text(s)];
  }

  lemma {:induction false} TogglesThenText(notation: ColorNotation, prev: Block, b: Block, rest: string)
    requires SafeText(notation, b.text) && Boundary(rest)
    ensures CanonicalBefore(ToggleTokens(prev, b) + [Text(b.text)], rest)
    ensures notation == Minimal ==> FreeStart(Unlex(ToggleTokens(prev, b) + [Text(b.text)]) + rest)
  {
    var t, x := ToggleTokens(prev, b), [Text(b.text)];
    CanonicalText(b.text, rest);
    ToggleCanonical(t, Unlex(x) + rest);
    CanonicalAppend(t, x, rest);
    UnlexAppend(t, x);
    UnlexSingle(Text(b.text));
    AppendAssoc(Unlex(t), b.text, rest);
    if t != [] {
      UnlexStartsControl(t);
    }
  }

  /** One block's tokens are read back whole when what follows them starts
      a new token. */
  lemma {:induction false} CanonicalChunk(notation: ColorNotation, prev: Block, b: Block, rest: string)
    requires SafeText(notation, b.text) && InPalette(b) && Boundary(rest)
    ensures CanonicalBefore(ChunkTokens(notation, prev, b), rest)
  {
    var c, t, x := ColorTokens(notation, prev, b), ToggleTokens(prev, b), [Text(b.text)];
    TogglesThenText(notation, prev, b, rest);
    ColorCanonical(notation, prev, b, Unlex(t + x) + rest);
    CanonicalAppend(c, t + x, rest);
    AppendAssoc(c, t, x);
  }

  /** A color code is read whole when what follows cannot extend it: with
      the minimal notation, what follows must not start with a digit or a
      comma; with two-digit numbers, anything may follow. */
  lemma {:induction false} ColorCanonical(notation: ColorNotation, prev: Block, b: Block, after: string)
    requires InPalette(b) && (notation == Minimal ==> FreeStart(after))
    ensures CanonicalBefore(ColorTokens(notation, prev, b), after)
  {
    var c := ColorTokens(notation, prev, b);
    if c != [] {
      assert Unlex([]) + after == after;
      CanonicalCons(c[0], [], after);
      assert c == [c[0]] + [];
    }
  }

  lemma {:induction false} CodesStart(notation: ColorNotation, prev: Block, b: Block)
    requires InPalette(b) && !SameStyle(prev, b)
    ensures Codes(notation, prev, b) != [] && !Codes(notation, prev, b)[0].Text?
  {
  }

  lemma {:induction false} EncodeStartsControl(notation: ColorNotation, prev: Block, bs: seq<Block>)
    requires forall i | 0 <= i < |bs| :: InPalette(bs[i])
    requires bs != [] && !SameStyle(prev, bs[0])
    ensures Boundary(Unlex(EncodeTokens(notation, prev, bs)) + "")
  {
    var ts := EncodeTokens(notation, prev, bs);
    CodesStart(notation, prev, bs[0]);
    assert ts[0] == Codes(notation, prev, bs[0])[0];
    UnlexStartsControl(ts);
  }

  lemma {:induction false} SafeTail(notation: ColorNotation, bs: seq<Block>)
    requires bs != [] && Safe(notation, bs)
    ensures Safe(notation, bs[1..])
  {
    var tail := bs[1..];
    forall i | 0 < i < |tail|
      ensures !SameStyle(tail[i - 1], tail[i])
    {
      assert tail[i - 1] == bs[i] && tail[i] == bs[i + 1];
    }
  }

  lemma {:induction false} CanonicalEncode(notation: ColorNotation, prev: Block, bs: seq<Block>)
    requires Safe(notation, bs)
    ensures CanonicalBefore(EncodeTokens(notation, prev, bs), "")
    decreases |bs|
  {
    if bs != [] {
      var b, tail := bs[0], bs[1..];
      SafeTail(notation, bs);
      CanonicalEncode(notation, b, tail);
      if tail != [] {
        EncodeStartsControl(notation, b, tail);
      }
      CanonicalChunk(notation, prev, b, Unlex(EncodeTokens(notation, b, tail)) + "");
      CanonicalAppend(ChunkTokens(notation, prev, b), EncodeTokens(notation, b, tail), "");
    }
  }

  /** `tokenize` of `stringize`'s output gives back the encoding tokens. */
  lemma {:induction false} LexEncoded(notation: ColorNotation, bs: seq<Block>)
    requires Safe(notation, bs)
    ensures Lex(EncodedFrom(notation, Default, bs)) == EncodeTokens(notation, Default, bs)
  {
    UnlexEncode(notation, Default, bs);
    CanonicalEncode(notation, Default, bs);
    LexUnlex(EncodeTokens(notation, Default, bs));
  }

  // The builder turns the encoding tokens back into the blocks.

  /** The effect of a sequence of control tokens on one block. */
  function ApplyAll(b: Block, ts: seq<Token>): Block
    decreases |ts|
  {
    if ts == [] then b else ApplyAll(Apply(b, ts[0]), ts[1..])
  }

  lemma {:induction false} ApplyAllAppend(b: Block, x: seq<Token>, y: seq<Token>)
    ensures ApplyAll(b, x + y) == ApplyAll(ApplyAll(b, x), y)
    decreases |x|
  {
    if x == [] {
      assert x + y == y;
    } else {
      assert (x + y)[1..] == x[1..] + y;
      ApplyAllAppend(Apply(b, x[0]), x[1..], y);
    }
  }

  lemma {:induction false} ApplyToggle(b: Block, differs: bool, t: Token)
    ensures ApplyAll(b, ToggleToken(differs, t)) == if differs then Apply(b, t) else b
  {
    if differs {
      assert [t][1..] == [];
    }
  }

  lemma {:induction false} TogglesReach(q: Block, prev: Block, b: Block)
    requires q.bold == prev.bold && q.italic == prev.italic && q.underline == prev.underline
    ensures ApplyAll(q, ToggleTokens(prev, b)) == q.(bold := b.bold, italic := b.italic, underline := b.underline)
  {
    var tb, ti, tu := ToggleToken(b.bold != prev.bold, Bold), ToggleToken(b.italic != prev.italic, Italic),
      ToggleToken(b.underline != prev.underline, Underline);
    ApplyAllAppend(q, tb + ti, tu);
    ApplyAllAppend(q, tb, ti);
    ApplyToggle(q, b.bold != prev.bold, Bold);
    var q1 := ApplyAll(q, tb);
    ApplyToggle(q1, b.italic != prev.italic, Italic);
    var q2 := ApplyAll(q1, ti);
    ApplyToggle(q2, b.underline != prev.underline, Underline);
  }

  lemma {:induction false} ColorReach(notation: ColorNotation, prev: Block, b: Block)
    requires InPalette(b)
    ensures ApplyAll(prev, ColorTokens(notation, prev, b)) == prev.(textColor := b.textColor, bgColor := b.bgColor)
  {
    if ColorTokens(notation, prev, b) != [] {
      if notation == Minimal {
        DecimalRoundTrip(b.textColor);
        DecimalRoundTrip(b.bgColor);
      } else {
        PaddedRoundTrip(b.textColor);
        PaddedRoundTrip(b.bgColor);
      }
      assert ColorTokens(notation, prev, b)[1..] == [];
    }
  }

  /** The codes written before `b` turn the block before it into `b`'s
      style, its text untouched. */
  lemma {:induction false} CodesReach(notation: ColorNotation, prev: Block, b: Block)
    requires InPalette(b)
    ensures ApplyAll(prev, Codes(notation, prev, b)) == b.(text := prev.text)
  {
    ApplyAllAppend(prev, ColorTokens(notation, prev, b), ToggleTokens(prev, b));
    ColorReach(notation, prev, b);
    TogglesReach(prev.(textColor := b.textColor, bgColor := b.bgColor), prev, b);
  }

  lemma {:induction false} RunAppend(bs: seq<Block>, x: seq<Token>, y: seq<Token>)
    requires |bs| > 0
    ensures Run(bs, x + y) == Run(Run(bs, x), y)
    decreases |x|
  {
    if x == [] {
      assert x + y == y;
    } else {
      assert (x + y)[1..] == x[1..] + y;
      RunAppend(Step(bs, x[0]), x[1..], y);
    }
  }

  /** Control tokens on an empty current block change it in place. */
  lemma {:induction false} RunInPlace(bs: seq<Block>, ts: seq<Token>)
    requires |bs| > 0 && Last(bs).text == ""
    requires forall i | 0 <= i < |ts| :: !ts[i].Text?
    ensures Run(bs, ts) == bs[..|bs| - 1] + [ApplyAll(Last(bs), ts)]
    decreases |ts|
  {
    if ts == [] {
      InitLast(bs);
    } else {
      var next := Step(bs, ts[0]);
      assert next == bs[|bs| - 1 := Apply(Last(bs), ts[0])];
      RunInPlace(next, ts[1..]);
      assert next[..|next| - 1] == bs[..|bs| - 1];
    }
  }

  /** Control tokens after a block with text seal it and style a new one. */
  lemma {:induction false} RunSplit(bs: seq<Block>, ts: seq<Token>)
    requires |bs| > 0 && Last(bs).text != ""
    requires ts != [] && forall i | 0 <= i < |ts| :: !ts[i].Text?
    ensures Run(bs, ts) == bs + [ApplyAll(Last(bs).(text := ""), ts)]
  {
    var next := Step(bs, ts[0]);
    assert next == bs + [Apply(Last(bs).(text := ""), ts[0])];
    RunInPlace(next, ts[1..]);
    assert next[..|next| - 1] == bs;
  }

  lemma {:induction false} CodesControl(notation: ColorNotation, prev: Block, b: Block)
    requires InPalette(b)
    ensures forall i | 0 <= i < |Codes(notation, prev, b)| :: !Codes(notation, prev, b)[i].Text?
  {
  }

  /** A text token after control tokens that left an empty block in `x`'s
      style fills that block with `x`'s text. */
  lemma {:induction false} RunThenText(bs: seq<Block>, c: seq<Token>, init: seq<Block>, x: Block)
    requires |bs| > 0 && Run(bs, c) == init + [x.(text := "")]
    ensures Run(bs, c + [Text(x.text)]) == init + [x]
  {
    RunAppend(bs, c, [Text(x.text)]);
    FillEmpty(init, x);
  }

  lemma {:induction false} FillEmpty(init: seq<Block>, x: Block)
    ensures Run(init + [x.(text := "")], [Text(x.text)]) == init + [x]
  {
    var empty := init + [x.(text := "")];
    assert [Text(x.text)][1..] == [];
    assert Run(empty, [Text(x.text)]) == Step(empty, Text(x.text));
    assert Last(empty) == x.(text := "");
    assert Last(empty).(text := Last(empty).text + x.text) == x;
    assert empty[|empty| - 1 := x] == init + [x];
  }

  /** The first block's tokens, read from the default block. */
  lemma {:induction false} RunFirst(notation: ColorNotation, b: Block)
    requires InPalette(b)
    ensures Run([Default], ChunkTokens(notation, Default, b)) == [b]
  {
    var c := Codes(notation, Default, b);
    CodesControl(notation, Default, b);
    CodesReach(notation, Default, b);
    RunInPlace([Default], c);
    RunThenText([Default], c, [], b);
  }

  /** A later block's tokens, read after a block with text in another style. */
  lemma {:induction false} RunNext(notation: ColorNotation, bs: seq<Block>, b: Block)
    requires |bs| > 0 && Last(bs).text != "" && !SameStyle(Last(bs), b) && InPalette(b)
    ensures Run(bs, ChunkTokens(notation, Last(bs), b)) == bs + [b]
  {
    var c := Codes(notation, Last(bs), b);
    CodesStart(notation, Last(bs), b);
    CodesControl(notation, Last(bs), b);
    RunSplit(bs, c);
    CodesReach(notation, Last(bs).(text := ""), b);
    RunThenText(bs, c, bs, b);
  }

  lemma {:induction false} RunEncode(notation: ColorNotation, bs: seq<Block>, more: seq<Block>)
    requires |bs| > 0 && Last(bs).text != ""
    requires Safe(notation, more) && (more != [] ==> !SameStyle(Last(bs), more[0]))
    ensures Run(bs, EncodeTokens(notation, Last(bs), more)) == bs + more
    decreases |more|
  {
    if more == [] {
      assert bs + more == bs;
    } else {
      var b, tail := more[0], more[1..];
      var next := bs + [b];
      var chunk, rest := ChunkTokens(notation, Last(bs), b), EncodeTokens(notation, b, tail);
      assert EncodeTokens(notation, Last(bs), more) == chunk + rest;
      RunAppend(bs, chunk, rest);
      RunNext(notation, bs, b);
      SafeTail(notation, more);
      assert Last(next) == b && b.text != "";
      RunEncode(notation, next, tail);
      ConsTail(bs, more);
    }
  }

  lemma {:induction false} ConsTail<T>(a: seq<T>, s: seq<T>)
    requires s != []
    ensures a + [s[0]] + s[1..] == a + s
  {
  }

  /** The round trip: `blockize(tokenize(stringize(bs)))` is `bs` itself for
      blocks with safe texts, colors in 0..99 and no two neighbours in the
      same style. */
  lemma {:induction false} RoundTrip(notation: ColorNotation, bs: seq<Block>)
    requires Safe(notation, bs)
    ensures Blocks(Lex(EncodedFrom(notation, Default, bs))) == bs
  {
    LexEncoded(notation, bs);
    if bs == [] {
      BlocksOfNothing();
    } else {
      BuiltEncoded(notation, bs);
      NonEmptyAll(bs);
    }
  }

  /** The builder, before its final filter, already holds exactly the
      blocks. */
  lemma {:induction false} BuiltEncoded(notation: ColorNotation, bs: seq<Block>)
    requires Safe(notation, bs) && bs != []
    ensures Built(EncodeTokens(notation, Default, bs)) == bs
  {
    var b, tail := bs[0], bs[1..];
    assert InPalette(b) && b.text != "";
    assert tail != [] ==> !SameStyle(b, tail[0]);
    SafeTail(notation, bs);
    BuiltFirst(notation, b, tail);
    assert [b] + tail == bs;
  }

  lemma {:induction false} BuiltFirst(notation: ColorNotation, b: Block, tail: seq<Block>)
    requires InPalette(b) && b.text != ""
    requires Safe(notation, tail) && (tail != [] ==> !SameStyle(b, tail[0]))
    ensures Built(EncodeTokens(notation, Default, [b] + tail)) == [b] + tail
  {
    var chunk, rest := ChunkTokens(notation, Default, b), EncodeTokens(notation, b, tail);
    assert ([b] + tail)[0] == b && ([b] + tail)[1..] == tail;
    assert EncodeTokens(notation, Default, [b] + tail) == chunk + rest;
    RunAppend([Default], chunk, rest);
    RunFirst(notation, b);
    assert Last([b]) == b;
    RunEncode(notation, [b], tail);
  }

  // Neighbours in the same style.

  /** The blocks with every run of neighbours in the same style joined into
      one block that holds their texts, concatenated. */
  function Merged(bs: seq<Block>): (r: seq<Block>)
    ensures |r| <= |bs|
    ensures bs != [] ==> r != [] && SameStyle(r[0], bs[0])
    ensures forall i | 0 < i < |r| :: !SameStyle(r[i - 1], r[i])
    decreases |bs|
  {
    if |bs| <= 1 then bs
    else
      var m := Merged(bs[1..]);
      if SameStyle(bs[0], m[0]) then [bs[0].(text := bs[0].text + m[0].text)] + m[1..]
      else [bs[0]] + m
  }

  /** Blocks whose neighbours all differ in style are left as they are. */
  lemma {:induction false} MergedDistinct(bs: seq<Block>)
    requires forall i | 0 < i < |bs| :: !SameStyle(bs[i - 1], bs[i])
    ensures Merged(bs) == bs
    decreases |bs|
  {
    if |bs| > 1 {
      var tail := bs[1..];
      forall i | 0 < i < |tail|
        ensures !SameStyle(tail[i - 1], tail[i])
      {
        assert tail[i - 1] == bs[i] && tail[i] == bs[i + 1];
      }
      MergedDistinct(tail);
      assert !SameStyle(bs[0], bs[1]);
      assert [bs[0]] + tail == bs;
    }
  }

  lemma {:induction false} TextsCons(b: Block, bs: seq<Block>)
    ensures Texts([b] + bs) == b.text + Texts(bs)
    decreases |bs|
  {
    if bs == [] {
      assert [b] + bs == [b];
      assert [b][..0] == [];
    } else {
      var init := bs[..|bs| - 1];
      assert ([b] + bs)[..|bs|] == [b] + init;
      TextsCons(b, init);
      AppendAssoc(b.text, Texts(init), Last(bs).text);
    }
  }

  /** Merging loses no text and reorders none. */
  lemma {:induction false} MergedKeepsText(bs: seq<Block>)
    ensures Texts(Merged(bs)) == Texts(bs)
    decreases |bs|
  {
    if |bs| > 1 {
      var b, m := bs[0], Merged(bs[1..]);
      MergedKeepsText(bs[1..]);
      TextsCons(b, bs[1..]);
      assert [b] + bs[1..] == bs;
      if SameStyle(b, m[0]) {
        TextsCons(m[0], m[1..]);
        assert [m[0]] + m[1..] == m;
        TextsCons(b.(text := b.text + m[0].text), m[1..]);
        AppendAssoc(b.text, m[0].text, Texts(m[1..]));
      } else {
        TextsCons(b, m);
      }
    }
  }

  /** Safe texts and colors in 0..99 stay so when neighbours are merged:
      a merged text starts with the first of the texts it joins. */
  lemma {:induction false} MergedSafe(notation: ColorNotation, bs: seq<Block>)
    requires forall i | 0 <= i < |bs| :: SafeText(notation, bs[i].text) && InPalette(bs[i])
    ensures Safe(notation, Merged(bs))
    decreases |bs|
  {
    if |bs| > 1 {
      var b, m := bs[0], Merged(bs[1..]);
      MergedSafe(notation, bs[1..]);
      if SameStyle(b, m[0]) {
        var c := b.(text := b.text + m[0].text);
        NoControlAppend(b.text, m[0].text);
        assert c.text[0] == b.text[0];
        var r := [c] + m[1..];
        forall i | 0 <= i < |r|
          ensures SafeText(notation, r[i].text) && InPalette(r[i])
        {
          if i > 0 {
            assert r[i] == m[i];
          }
        }
      } else {
        var r := [b] + m;
        forall i | 0 <= i < |r|
          ensures SafeText(notation, r[i].text) && InPalette(r[i])
        {
          if i > 0 {
            assert r[i] == m[i - 1];
          }
        }
      }
    }
  }

  /** Only the style of the block before them matters to how blocks are
      written. */
  lemma {:induction false} EncodedFromStyle(notation: ColorNotation, p: Block, q: Block, bs: seq<Block>)
    requires SameStyle(p, q)
    ensures EncodedFrom(notation, p, bs) == EncodedFrom(notation, q, bs)
  {
    if bs != [] {
      assert Chunk(notation, p, bs[0]) == Chunk(notation, q, bs[0]);
    }
  }

  /** A block with more text is written with the same codes, then all of
      its text. */
  lemma {:induction false} ChunkLonger(notation: ColorNotation, prev: Block, b: Block, t: string)
    ensures Chunk(notation, prev, b.(text := b.text + t)) == Chunk(notation, prev, b) + t
  {
    var codes := ColorCode(notation, prev, b) + Toggle(b.bold != prev.bold, BOLD) + Toggle(b.italic != prev.italic, ITALIC) +
      Toggle(b.underline != prev.underline, UNDERLINE);
    AppendAssoc(codes, b.text, t);
  }

  /** Neighbours in the same style are written exactly as their merged
      block: the second contributes only its text. */
  lemma {:induction false} EncodedMerged(notation: ColorNotation, prev: Block, bs: seq<Block>)
    ensures EncodedFrom(notation, prev, Merged(bs)) == EncodedFrom(notation, prev, bs)
    decreases |bs|
  {
    if |bs| > 1 {
      var b, m := bs[0], Merged(bs[1..]);
      EncodedMerged(notation, b, bs[1..]);
      if SameStyle(b, m[0]) {
        var c := b.(text := b.text + m[0].text);
        assert Merged(bs) == [c] + m[1..];
        assert ([c] + m[1..])[1..] == m[1..];
        ChunkIsTextIffSameStyle(notation, b, m[0]);
        assert EncodedFrom(notation, b, m) == m[0].text + EncodedFrom(notation, m[0], m[1..]);
        EncodedFromStyle(notation, c, m[0], m[1..]);
        ChunkLonger(notation, prev, b, m[0].text);
        AppendAssoc(Chunk(notation, prev, b), m[0].text, EncodedFrom(notation, m[0], m[1..]));
      } else {
        assert Merged(bs) == [b] + m;
        assert ([b] + m)[1..] == m;
      }
    }
  }

  /** The round trip up to merging: `blockize(tokenize(stringize(bs)))` is
      `bs` with neighbours in the same style joined, for blocks with safe
      texts and colors in 0..99. */
  lemma {:induction false} RoundTripMerged(notation: ColorNotation, bs: seq<Block>)
    requires forall i | 0 <= i < |bs| :: SafeText(notation, bs[i].text) && InPalette(bs[i])
    ensures Blocks(Lex(EncodedFrom(notation, Default, bs))) == Merged(bs)
  {
    EncodedMerged(notation, Default, bs);
    MergedSafe(notation, bs);
    RoundTrip(notation, Merged(bs));
  }

  /** With two-digit color codes the round trip holds for every block
      sequence read from a line, up to merging neighbours in the same
      style. */
  lemma {:induction false} PaddedParsedRoundTrip(line: string)
    ensures Blocks(Lex(PaddedEncoded(Blocks(Lex(line))))) == Merged(Blocks(Lex(line)))
  {
    var bs := Blocks(Lex(line));
    LexedBlocks(line);
    RoundTripMerged(Padded, bs);
  }

  // Where the round trip fails.

  lemma {:induction false} ApplyAllText(b: Block, ts: seq<Token>)
    ensures ApplyAll(b, ts).text == b.text
    decreases |ts|
  {
    if ts != [] {
      ApplyAllText(Apply(b, ts[0]), ts[1..]);
    }
  }

  lemma {:induction false} RunCodesThenText(c: seq<Token>, s: string)
    requires forall i | 0 <= i < |c| :: !c[i].Text?
    ensures Run([Default], c + [Text(s)]) == [ApplyAll(Default, c).(text := s)]
  {
    var x := ApplyAll(Default, c).(text := s);
    ApplyAllText(Default, c);
    RunInPlace([Default], c);
    assert Run([Default], c) == [] + [x.(text := "")];
    RunThenText([Default], c, [], x);
  }

  /** Control tokens then one text token give one block. */
  lemma {:induction false} BlocksOfCodesThenText(c: seq<Token>, s: string)
    requires forall i | 0 <= i < |c| :: !c[i].Text?
    requires s != ""
    ensures Blocks(c + [Text(s)]) == [ApplyAll(Default, c).(text := s)]
  {
    RunCodesThenText(c, s);
    NonEmptyAll([ApplyAll(Default, c).(text := s)]);
  }

  /** Control tokens alone leave no block. */
  lemma {:induction false} BlocksOfCodes(c: seq<Token>)
    requires forall i | 0 <= i < |c| :: !c[i].Text?
    ensures Blocks(c) == []
  {
    var x := ApplyAll(Default, c);
    ApplyAllText(Default, c);
    RunInPlace([Default], c);
    assert [Default][..0] + [x] == [x];
    EmptyDropped(x);
  }

  lemma {:induction false} EmptyDropped(x: Block)
    requires x.text == ""
    ensures NonEmpty([x]) == []
  {
    assert [x][..0] == [];
  }

  lemma {:induction false} LexText(s: string)
    requires |s| > 0 && NoControl(s)
    ensures Lex(s) == [Text(s)]
  {
    LexCons(Text(s), "");
    assert s == Span(Text(s)) + "";
  }

  /** A text starting with a digit is read as part of the color code before
      it: a block in color 4 with text "5x" comes back in color 45 with text
      "x". */
  lemma {:induction false} DigitJoinsColor(b: Block)
    requires b == Block(4, 0, false, false, false, "5x")
    ensures Blocks(Lex(Encoded([b]))) == [Block(45, 0, false, false, false, "x")]
  {
    var fg: DigitString := "45";
    ForegroundOnly(4, "5x");
    assert ([COLOR] + "4") + "5x" == Span(Color(Some(fg), None)) + "x";
    TwoDigitColorThenText(fg, "x");
    SwallowedColor(4, '5', fg);
  }

  /** A two-digit foreground code cannot be extended by a text that does
      not start with a comma. */
  lemma {:induction false} TwoDigitColorThenText(fg: DigitString, x: string)
    requires |fg| == 2 && |x| > 0 && NoControl(x) && x[0] != ','
    ensures Blocks(Lex(Span(Color(Some(fg), None)) + x)) == [ApplyAll(Default, [Color(Some(fg), None)]).(text := x)]
  {
    ColorThenText(Color(Some(fg), None), x);
  }

  /** The two digits read back as one color number. */
  lemma {:induction false} SwallowedColor(n: nat, d: char, fg: DigitString)
    requires n <= 9 && fg == [DigitChar(n), d]
    ensures ApplyAll(Default, [Color(Some(fg), None)]) == Default.(textColor := 10 * n + (d as int - '0' as int))
  {
    ApplyForeground(fg);
    TwoDigits(fg);
    assert fg[0] as int - '0' as int == n;
  }

  /** A color code that the text after it cannot extend, then that text. */
  lemma {:induction false} ColorThenText(c: Token, x: string)
    requires c.Color? && WellFormed(c) && |x| > 0 && NoControl(x) && Separated(c, x)
    ensures Blocks(Lex(Span(c) + x)) == [ApplyAll(Default, [c]).(text := x)]
  {
    LexText(x);
    LexCons(c, x);
    BlocksOfCodesThenText([c], x);
  }

  /** A block in the default style but for its foreground is written as the
      color code with the foreground alone, then its text. */
  lemma {:induction false} ForegroundOnly(n: nat, t: string)
    requires n <= 9 && n != Default.textColor
    ensures Encoded([Block(n, 0, false, false, false, t)]) == ([COLOR] + [DigitChar(n)]) + t
  {
    var b := Block(n, 0, false, false, false, t);
    assert [b][1..] == [];
    assert Encoded([b]) == Chunk(Minimal, Default, b) + EncodedFrom(Minimal, b, [b][1..]);
    assert ColorCode(Minimal, Default, b) == [COLOR] + [DigitChar(n)] + "";
  }

  /** A foreground code alone on the default block. */
  lemma {:induction false} ApplyForeground(d: DigitString)
    requires d != ""
    ensures ApplyAll(Default, [Color(Some(d), None)]) == Default.(textColor := DecimalValue(d))
  {
    assert [Color(Some(d), None)][1..] == [];
  }

  lemma {:induction false} TwoDigits(d: DigitString)
    requires |d| == 2
    ensures DecimalValue(d) == 10 * (d[0] as int - '0' as int) + (d[1] as int - '0' as int)
  {
    var init: DigitString := d[..1];
    assert init[..0] == [];
  }

  /** Neighbours in the same style come back as one block. */
  lemma {:induction false} SameStyleMerges(a: Block, b: Block)
    requires a == Default.(text := "a") && b == Default.(text := "b")
    ensures Blocks(Lex(Encoded([a, b]))) == [Default.(text := "ab")]
  {
    EncodedSameStyle(a, b);
    var s := a.text + b.text;
    assert s == "ab";
    BlocksOfPlainText(s);
  }

  /** Two blocks in the default style are written as their texts alone. */
  lemma {:induction false} EncodedSameStyle(a: Block, b: Block)
    requires SameStyle(Default, a) && SameStyle(a, b)
    ensures Encoded([a, b]) == a.text + b.text
  {
    ChunkIsTextIffSameStyle(Minimal, Default, a);
    ChunkIsTextIffSameStyle(Minimal, a, b);
    assert [a, b][1..] == [b];
    assert EncodedFrom(Minimal, a, [b]) == b.text + EncodedFrom(Minimal, b, []);
  }

  /** Text without control characters is one block in the default style. */
  lemma {:induction false} BlocksOfPlainText(s: string)
    requires |s| > 0 && NoControl(s)
    ensures Blocks(Lex(s)) == [Default.(text := s)]
  {
    LexText(s);
    BlocksOfCodesThenText([], s);
    assert [] + [Text(s)] == [Text(s)];
  }

  lemma {:induction false} DoubleBold(b: Block)
    ensures ApplyAll(b, [Bold, Bold]) == b
  {
    assert [Bold, Bold][1..] == [Bold];
    assert [Bold][1..] == [];
  }

  lemma {:induction false} LexBold(rest: string)
    ensures Lex([BOLD] + rest) == [Bold] + Lex(rest)
  {
    LexCons(Bold, rest);
  }

  lemma {:induction false} LexColorBold(line: string)
    requires line == [COLOR, '2', BOLD, BOLD, '5']
    ensures Lex(line) == [Color(Some("2"), None)] + ([Bold, Bold] + [Text("5")])
  {
    var c2 := Color(Some("2"), None);
    var five := "5";
    var rest := [BOLD] + ([BOLD] + five);
    LexText(five);
    LexBold(five);
    LexBold([BOLD] + five);
    PrependTwo(Bold, Bold, [Text(five)]);
    assert Span(c2) == [COLOR, '2'];
    assert line == Span(c2) + rest;
    LexCons(c2, rest);
  }

  /** Blocks read from a line need not round-trip: a foreground 2 whose
      text "5" follows a bold code that a second bold code cancels is
      written back as "\x0325", which reads as foreground 25 with no text,
      so the block is lost. */
  lemma {:induction false} ParsedBlocksLoseText()
    ensures Blocks(Lex([COLOR, '2', BOLD, BOLD, '5'])) == [Block(2, 0, false, false, false, "5")]
    ensures Blocks(Lex(Encoded([Block(2, 0, false, false, false, "5")]))) == []
  {
    ColorThenCancelledBold();
    ForegroundSwallowsText();
  }

  lemma {:induction false} ColorThenCancelledBold()
    ensures Blocks(Lex([COLOR, '2', BOLD, BOLD, '5'])) == [Block(2, 0, false, false, false, "5")]
  {
    var c2 := Color(Some("2"), None);
    LexColorBold([COLOR, '2', BOLD, BOLD, '5']);
    AppendAssoc([c2], [Bold, Bold], [Text("5")]);
    BlocksOfCodesThenText([c2] + [Bold, Bold], "5");
    ApplyAllAppend(Default, [c2], [Bold, Bold]);
    ApplyForeground("2");
    var digit: DigitString := "2";
    assert digit[..0] == "";
    DoubleBold(Default.(textColor := 2));
  }

  lemma {:induction false} ForegroundSwallowsText()
    ensures Blocks(Lex(Encoded([Block(2, 0, false, false, false, "5")]))) == []
  {
    var c25 := Color(Some("25"), None);
    ForegroundOnly(2, "5");
    assert ([COLOR] + "2") + "5" == Span(c25) + "";
    LexCons(c25, "");
    BlocksOfCodes([c25]);
  }

  lemma {:induction false} PrependTwo<T>(x: T, y: T, s: seq<T>)
    ensures [x] + ([y] + s) == [x, y] + s
  {
  }

  lemma {:induction false} LexCancelled(a: string, b: string)
    requires |a| > 0 && NoControl(a) && |b| > 0 && NoControl(b)
    ensures Lex([BOLD, BOLD] + (a + ([BOLD, BOLD] + b))) == ([Bold, Bold] + [Text(a)]) + ([Bold, Bold] + [Text(b)])
  {
    var tail := [BOLD] + ([BOLD] + b);
    var second := [Bold, Bold] + [Text(b)];
    LexText(b);
    LexBold(b);
    LexBold([BOLD] + b);
    PrependTwo(Bold, Bold, [Text(b)]);
    assert Lex(tail) == second;
    LexCons(Text(a), tail);
    assert Lex(a + tail) == [Text(a)] + second;
    LexBold(a + tail);
    LexBold([BOLD] + (a + tail));
    PrependTwo(Bold, Bold, [Text(a)] + second);
    AppendAssoc([Bold, Bold], [Text(a)], second);
    PrependTwo(BOLD, BOLD, b);
    PrependTwo(BOLD, BOLD, a + tail);
  }

  /** Blocks are not always maximal runs of one style: a bold code that a
      second one cancels still splits the text around it, so two texts in
      the default style, each after such a pair, give two blocks in the same
      style. */
  lemma {:induction false} CancelledToggleSplits(a: string, b: string)
    requires |a| > 0 && NoControl(a) && |b| > 0 && NoControl(b)
    ensures Blocks(Lex([BOLD, BOLD] + (a + ([BOLD, BOLD] + b)))) == [Default.(text := a), Default.(text := b)]
  {
    var first, second := Default.(text := a), Default.(text := b);
    var bb := [Bold, Bold];
    LexCancelled(a, b);
    RunAppend([Default], bb + [Text(a)], bb + [Text(b)]);
    RunCodesThenText(bb, a);
    DoubleBold(Default);
    RunSplit([first], bb);
    RunThenText([first], bb, [first], second);
    NonEmptyAll([first, second]);
  }
}
