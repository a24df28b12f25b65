/** The block builder of the IRC formatting parser: a token sequence is
    folded into blocks, runs of text that share one formatting state. */
module Blockizer {
  import opened Tokenizer

  /** One run of text under one style: foreground and background color
      numbers, the three toggles, and the text itself. */
  datatype Block = Block(textColor: int, bgColor: int, bold: bool, italic: bool, underline: bool, text: string)

  /** `Block()`: the class-level defaults, with empty text. */
  const Default := Block(1, 0, false, false, false, "")

  predicate SameStyle(a: Block, b: Block) {
    a.textColor == b.textColor && a.bgColor == b.bgColor &&
    a.bold == b.bold && a.italic == b.italic && a.underline == b.underline
  }

  function Last(bs: seq<Block>): Block
    requires |bs| > 0
  {
    bs[|bs| - 1]
  }

  /** `int(...)` of a captured digit string. */
  function DecimalValue(s: DigitString): (n: nat)
    ensures |s| <= 1 ==> n <= 9
    ensures |s| <= 2 ==> n <= 99
    decreases |s|
  {
    if |s| == 0 then 0
    else
      var init: DigitString := s[..|s| - 1];
      10 * DecimalValue(init) + (s[|s| - 1] as int - '0' as int)
  }

  /** Whether a color group matched: Python's truth value of the captured
      string, so an absent group and an empty one both count as missing. */
  predicate Present(o: Option<DigitString>) {
    o.Some? && o.value != ""
  }

  /** On the color codes the grammar produces, a group counts as given
      exactly when it matched: a matched group always holds a digit. */
  lemma PresentIffMatched(t: Token)
    requires t.Color? && WellFormed(t)
    ensures Present(t.fg) <==> t.fg.Some?
    ensures Present(t.bg) <==> t.bg.Some?
  {
  }

  /** The effect of a control token on the current block. */
  function Apply(b: Block, t: Token): (r: Block)
    ensures r.text == b.text
  {
    match t
    case Text(_) => b
    case Bold => b.(bold := !b.bold)
    case Italic => b.(italic := !b.italic)
    case Underline => b.(underline := !b.underline)
    case Color(fg, bg) =>
      var reset := if !Present(fg) && !Present(bg) then b.(textColor := Default.textColor, bgColor := Default.bgColor) else b;
      var withFg := if Present(fg) then reset.(textColor := DecimalValue(fg.value)) else reset;
      if Present(bg) then withFg.(bgColor := DecimalValue(bg.value)) else withFg
    case Reverse => b.(textColor := b.bgColor, bgColor := b.textColor)
    case Reset => Default.(text := b.text)
  }

  /** One iteration of the builder's loop. Text is appended to the current
      block; before any other token, a current block that already holds text
      is sealed and a copy of its style with empty text becomes current, and
      then the token's effect is applied to the current block. */
  function Step(bs: seq<Block>, t: Token): (r: seq<Block>)
    requires |bs| > 0
    ensures |r| == |bs| + (if !t.Text? && Last(bs).text != "" then 1 else 0)
    ensures r[..|bs| - 1] == bs[..|bs| - 1]
    ensures !t.Text? && Last(bs).text != "" ==> r[|bs| - 1] == Last(bs)
    ensures Last(r).text == if t.Text? then Last(bs).text + t.text else ""
    ensures t.Text? ==> SameStyle(Last(r), Last(bs))
  {
    var last := Last(bs);
    if t.Text? then bs[|bs| - 1 := last.(text := last.text + t.text)]
    else
      var cur := if last.text != "" then bs + [last.(text := "")] else bs;
      cur[|cur| - 1 := Apply(Last(cur), t)]
  }

  /** The builder's loop from state `bs` over the tokens `ts`. */
  function Run(bs: seq<Block>, ts: seq<Token>): (r: seq<Block>)
    requires |bs| > 0
    ensures |bs| <= |r| <= |bs| + |ts|
    ensures r[..|bs| - 1] == bs[..|bs| - 1]
    decreases |ts|
  {
    if ts == [] then bs else Run(Step(bs, ts[0]), ts[1..])
  }

  /** The blocks the builder holds after its loop, before filtering. */
  function Built(ts: seq<Token>): (r: seq<Block>)
    ensures 0 < |r| <= |ts| + 1
    ensures ts != [] ==> |r| <= |ts|
    ensures ts == [] ==> r == [Default]
  {
    assert ts != [] ==> |Step([Default], ts[0])| == 1;
    Run([Default], ts)
  }

  /** The final filter: the blocks whose text is not empty, in order. */
  function NonEmpty(bs: seq<Block>): (r: seq<Block>)
    ensures |r| <= |bs|
    ensures forall i | 0 <= i < |r| :: r[i].text != ""
  {
    if bs == [] then []
    else
      var init := NonEmpty(bs[..|bs| - 1]);
      if Last(bs).text != "" then init + [Last(bs)] else init
  }

  /** `blockize`: at most one block per token, each holding text. */
  function Blocks(ts: seq<Token>): (r: seq<Block>)
    ensures |r| <= |ts|
    ensures forall i | 0 <= i < |r| :: r[i].text != ""
  {
    NonEmpty(Built(ts))
  }

  /** `blockize`: one block to start with, then one step per token, with the
      current block updated in place, and the empty blocks dropped at the end. */
  method Blockize(tokens: seq<Token>) returns (blocks: seq<Block>)
    ensures blocks == Blocks(tokens)
  {
    blocks := [Default];
    for i := 0 to |tokens|
      invariant |blocks| > 0
      invariant Run(blocks, tokens[i..]) == Built(tokens)
    {
      assert tokens[i..][1..] == tokens[i + 1..];
      blocks := Feed(blocks, tokens[i]);
    }
    blocks := NonEmpty(blocks);
  }

  /** The body of `blockize`'s loop: text extends the current block; any
      other token first seals a current block that holds text, then applies
      its effect to the current block. */
  method Feed(blocks: seq<Block>, token: Token) returns (r: seq<Block>)
    requires |blocks| > 0
    ensures r == Step(blocks, token)
  {
    var block := blocks[|blocks| - 1];
    if token.Text? {
      r := blocks[|blocks| - 1 := block.(text := block.text + token.text)];
    } else {
      r := blocks;
      if block.text != "" {
        block := block.(text := "");
        r := r + [block];
      }
      block := ApplyControl(block, token);
      r := r[|r| - 1 := block];
    }
  }

  /** The branch chain of the builder's loop for a control token, applied
      to the current block. */
  method ApplyControl(block: Block, t: Token) returns (r: Block)
    ensures r == Apply(block, t)
  {
    r := block;
    if t.Bold? {
      r := r.(bold := !r.bold);
    } else if t.Italic? {
      r := r.(italic := !r.italic);
    } else if t.Underline? {
      r := r.(underline := !r.underline);
    } else if t.Color? {
      if !Present(t.fg) && !Present(t.bg) {
        r := r.(textColor := Default.textColor, bgColor := Default.bgColor);
      }
      if Present(t.fg) {
        r := r.(textColor := DecimalValue(t.fg.value));
      }
      if Present(t.bg) {
        r := r.(bgColor := DecimalValue(t.bg.value));
      }
    } else if t.Reverse? {
      r := r.(textColor := r.bgColor, bgColor := r.textColor);
    } else if t.Reset? {
      r := Default.(text := r.text);
    }
  }

  // ---- Properties of the builder ----

  /** The texts of the blocks, concatenated in order. */
  function Texts(bs: seq<Block>): string {
    if bs == [] then "" else Texts(bs[..|bs| - 1]) + Last(bs).text
  }

  /** The contents of the text tokens, concatenated in order. */
  function TextContent(ts: seq<Token>): string {
    if ts == [] then "" else (if ts[0].Text? then ts[0].text else "") + TextContent(ts[1..])
  }

  /** Every block but the last holds text. */
  predicate Sealed(bs: seq<Block>) {
    forall i | 0 <= i < |bs| - 1 :: bs[i].text != ""
  }

  lemma TextsReplaceLast(bs: seq<Block>, b: Block)
    requires |bs| > 0
    ensures Texts(bs[|bs| - 1 := b]) == Texts(bs[..|bs| - 1]) + b.text
  {
    assert bs[|bs| - 1 := b][..|bs| - 1] == bs[..|bs| - 1];
  }

  lemma TextsStep(bs: seq<Block>, t: Token)
    requires |bs| > 0
    ensures Texts(Step(bs, t)) == Texts(bs) + (if t.Text? then t.text else "")
  {
    if t.Text? {
      var last := Last(bs);
      assert Step(bs, t) == bs[|bs| - 1 := last.(text := last.text + t.text)];
      TextsExtendLast(bs, t.text);
    } else {
      TextsControl(bs, t);
      assert Texts(bs) + "" == Texts(bs);
    }
  }

  lemma TextsExtendLast(bs: seq<Block>, s: string)
    requires |bs| > 0
    ensures Texts(bs[|bs| - 1 := Last(bs).(text := Last(bs).text + s)]) == Texts(bs) + s
  {
    var last := Last(bs);
    TextsReplaceLast(bs, last.(text := last.text + s));
    AppendAssoc(Texts(bs[..|bs| - 1]), last.text, s);
  }

  lemma TextsControl(bs: seq<Block>, t: Token)
    requires |bs| > 0 && !t.Text?
    ensures Texts(Step(bs, t)) == Texts(bs)
  {
    if Last(bs).text != "" {
      TextsSeal(bs, t);
    } else {
      TextsApplyEmpty(bs, t);
    }
  }

  /** A control token on an empty current block changes no text. */
  lemma TextsApplyEmpty(bs: seq<Block>, t: Token)
    requires |bs| > 0 && !t.Text? && Last(bs).text == ""
    ensures Texts(Step(bs, t)) == Texts(bs)
  {
    var b := Apply(Last(bs), t);
    assert Step(bs, t) == bs[|bs| - 1 := b];
    TextsReplaceLast(bs, b);
    assert b.text == Last(bs).text;
  }

  /** A control token after text opens a new, empty current block. */
  lemma TextsSeal(bs: seq<Block>, t: Token)
    requires |bs| > 0 && !t.Text? && Last(bs).text != ""
    ensures Texts(Step(bs, t)) == Texts(bs)
  {
    var cur := bs + [Last(bs).(text := "")];
    var b := Apply(Last(cur), t);
    assert Step(bs, t) == cur[|cur| - 1 := b];
    assert cur[..|cur| - 1] == bs;
    TextsReplaceLast(cur, b);
    assert Texts(bs) + b.text == Texts(bs);
  }

  lemma {:induction false} TextsRun(bs: seq<Block>, ts: seq<Token>)
    requires |bs| > 0
    ensures Texts(Run(bs, ts)) == Texts(bs) + TextContent(ts)
    decreases |ts|
  {
    if ts != [] {
      TextsStep(bs, ts[0]);
      TextsRun(Step(bs, ts[0]), ts[1..]);
      AppendAssoc(Texts(bs), if ts[0].Text? then ts[0].text else "", TextContent(ts[1..]));
    }
  }

  lemma {:induction false} TextsNonEmpty(bs: seq<Block>)
    ensures Texts(NonEmpty(bs)) == Texts(bs)
  {
    if bs != [] {
      var init := NonEmpty(bs[..|bs| - 1]);
      TextsNonEmpty(bs[..|bs| - 1]);
      if Last(bs).text != "" {
        assert (init + [Last(bs)])[..|init|] == init;
      }
    }
  }

  /** No text is lost or reordered: the blocks' texts, concatenated, are the
      text tokens' contents, concatenated. */
  lemma BlocksKeepText(ts: seq<Token>)
    ensures Texts(Blocks(ts)) == TextContent(ts)
  {
    TextsRun([Default], ts);
    TextsNonEmpty(Built(ts));
  }

  lemma SealedStep(bs: seq<Block>, t: Token)
    requires |bs| > 0 && Sealed(bs)
    ensures Sealed(Step(bs, t))
  {
    var r := Step(bs, t);
    forall i | 0 <= i < |r| - 1
      ensures r[i].text != ""
    {
      if i < |bs| - 1 {
        assert r[i] == r[..|bs| - 1][i];
      }
    }
  }

  lemma {:induction false} SealedRun(bs: seq<Block>, ts: seq<Token>)
    requires |bs| > 0 && Sealed(bs)
    ensures Sealed(Run(bs, ts))
    decreases |ts|
  {
    if ts != [] {
      SealedStep(bs, ts[0]);
      SealedRun(Step(bs, ts[0]), ts[1..]);
    }
  }

  lemma {:induction false} NonEmptyAll(bs: seq<Block>)
    requires forall i | 0 <= i < |bs| :: bs[i].text != ""
    ensures NonEmpty(bs) == bs
  {
    if bs != [] {
      NonEmptyAll(bs[..|bs| - 1]);
      assert bs == bs[..|bs| - 1] + [Last(bs)];
    }
  }

  lemma InitLast<T>(s: seq<T>)
    requires |s| > 0
    ensures s[..|s| - 1] + [s[|s| - 1]] == s
  {
  }

  lemma FilterSealed(b: seq<Block>)
    requires |b| > 0 && Sealed(b)
    ensures NonEmpty(b) == if Last(b).text == "" then b[..|b| - 1] else b
  {
    var init := b[..|b| - 1];
    assert forall i | 0 <= i < |init| :: init[i].text != "" by {
      forall i | 0 <= i < |init| ensures init[i].text != "" {
        assert init[i] == b[i];
      }
    }
    NonEmptyAll(init);
    InitLast(b);
  }

  /** The filter works block by block: it keeps a single block exactly when
      its text is not empty, and filtering two parts and joining them is
      filtering the whole. */
  lemma {:induction false} NonEmptyAppend(a: seq<Block>, b: seq<Block>)
    ensures |b| == 1 ==> NonEmpty(b) == if b[0].text != "" then b else []
    ensures NonEmpty(a + b) == NonEmpty(a) + NonEmpty(b)
    decreases |b|
  {
    if |b| == 1 {
      assert b[..0] == [];
    }
    if b == [] {
      assert a + b == a;
    } else {
      var c, init := a + b, b[..|b| - 1];
      assert c[..|c| - 1] == a + init;
      NonEmptyAppend(a, init);
      if Last(b).text != "" {
        AppendAssoc(NonEmpty(a), NonEmpty(init), [Last(b)]);
      }
    }
  }

  /** Only the last block the builder holds can be empty, so the final filter
      drops at most that one block. */
  lemma OnlyLastEmpty(ts: seq<Token>)
    ensures Sealed(Built(ts))
    ensures Blocks(ts) == if Last(Built(ts)).text == "" then Built(ts)[..|Built(ts)| - 1] else Built(ts)
  {
    SealedRun([Default], ts);
    FilterSealed(Built(ts));
  }

  /** No tokens, no blocks. */
  lemma BlocksOfNothing()
    ensures Blocks([]) == []
  {
    assert Built([]) == [Default];
    assert NonEmpty([Default]) == NonEmpty([]);
  }

  /** The effect of each token on the current block: the toggles negate only
      their own flag, a bare color code restores both default colors, a
      foreground sets the text color and keeps the background unless one is
      given too, reverse swaps the two colors, and reset gives the default
      block with empty text. The current block's text is empty after any
      control token; a text token only extends the current block's text. */
  lemma StepEffect(bs: seq<Block>, t: Token)
    requires |bs| > 0
    ensures var b, c := Last(bs), Last(Step(bs, t));
      match t
      case Bold => c == b.(bold := !b.bold, text := "")
      case Italic => c == b.(italic := !b.italic, text := "")
      case Underline => c == b.(underline := !b.underline, text := "")
      case Color(fg, bg) =>
        c.bold == b.bold && c.italic == b.italic && c.underline == b.underline && c.text == "" &&
        (!Present(fg) && !Present(bg) ==> c.textColor == 1 && c.bgColor == 0) &&
        (Present(fg) ==> c.textColor == DecimalValue(fg.value)) &&
        (!Present(fg) ==> c.textColor == (if Present(bg) then b.textColor else 1)) &&
        c.bgColor == (if Present(bg) then DecimalValue(bg.value) else if Present(fg) then b.bgColor else 0)
      case Reverse => c == b.(textColor := b.bgColor, bgColor := b.textColor, text := "")
      case Reset => c == Default
      case Text(s) => c == b.(text := b.text + s)
  {
  }

  /** Toggling twice, or reversing twice, restores the block; a reset
      forgets the style it was applied to. */
  lemma ApplyInvolutions(b: Block, other: Block)
    ensures Apply(Apply(b, Bold), Bold) == b
    ensures Apply(Apply(b, Italic), Italic) == b
    ensures Apply(Apply(b, Underline), Underline) == b
    ensures Apply(Apply(b, Reverse), Reverse) == b
    ensures Apply(b, Reset) == Apply(other.(text := b.text), Reset)
  {
  }

  predicate InPalette(b: Block) {
    0 <= b.textColor <= 99 && 0 <= b.bgColor <= 99
  }

  /** Every block holds colors 0..99 and text without control characters. */
  predicate Tidy(bs: seq<Block>) {
    forall i | 0 <= i < |bs| :: InPalette(bs[i]) && NoControl(bs[i].text)
  }

  lemma NoControlAppend(a: string, b: string)
    requires NoControl(a) && NoControl(b)
    ensures NoControl(a + b)
  {
    assert forall i | |a| <= i < |a + b| :: (a + b)[i] == b[i - |a|];
  }

  lemma TidyStep(bs: seq<Block>, t: Token)
    requires |bs| > 0 && Tidy(bs) && WellFormed(t)
    ensures Tidy(Step(bs, t))
  {
    var last := Last(bs);
    if t.Text? {
      NoControlAppend(last.text, t.text);
    }
  }

  lemma {:induction false} TidyRun(bs: seq<Block>, ts: seq<Token>)
    requires |bs| > 0 && Tidy(bs)
    requires forall i | 0 <= i < |ts| :: WellFormed(ts[i])
    ensures Tidy(Run(bs, ts))
    decreases |ts|
  {
    if ts != [] {
      TidyStep(bs, ts[0]);
      TidyRun(Step(bs, ts[0]), ts[1..]);
    }
  }

  lemma {:induction false} CanonicalWellFormed(ts: seq<Token>, rest: string)
    requires CanonicalBefore(ts, rest)
    ensures forall i | 0 <= i < |ts| :: WellFormed(ts[i])
  {
    if ts != [] {
      CanonicalWellFormed(ts[1..], rest);
      assert forall i | 1 <= i < |ts| :: ts[i] == ts[1..][i - 1];
    }
  }

  /** What the builder makes of any line: blocks with non-empty text free of
      control characters, and colors in 0..99, since a color group holds at
      most two digits. */
  lemma LexedBlocks(line: string)
    ensures forall i | 0 <= i < |Blocks(Lex(line))| ::
      Blocks(Lex(line))[i].text != "" && NoControl(Blocks(Lex(line))[i].text) && InPalette(Blocks(Lex(line))[i])
  {
    var ts := Lex(line);
    LexCanonical(line);
    CanonicalWellFormed(ts, "");
    TidyRun([Default], ts);
    TidyNonEmpty(Built(ts));
  }

  lemma {:induction false} TidyNonEmpty(bs: seq<Block>)
    requires Tidy(bs)
    ensures Tidy(NonEmpty(bs))
  {
    if bs != [] {
      var init := bs[..|bs| - 1];
      assert forall i | 0 <= i < |init| :: init[i] == bs[i];
      TidyNonEmpty(init);
    }
  }
}
