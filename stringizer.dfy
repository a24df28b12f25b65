/** The serializer of the IRC formatting parser: blocks are written back as
    text with control codes, a code only where the style changes. */
module Stringizer {
  import opened Tokenizer
  import opened Blockizer

  function DigitChar(d: nat): (c: char)
    requires d < 10
    ensures IsDigit(c)
  {
    ('0' as int + d) as char
  }

  /** `"{0}".format(n)` for a natural number: its decimal digits. */
  function NatToString(n: nat): (s: string)
    ensures |s| > 0 && AllDigits(s)
    ensures n <= 9 ==> |s| == 1
    ensures n <= 99 ==> |s| <= 2
  {
    if n < 10 then [DigitChar(n)]
    else
      var init := NatToString(n / 10);
      assert forall i | 0 <= i < |init| :: (init + [DigitChar(n % 10)])[i] == init[i];
      init + [DigitChar(n % 10)]
  }

  /** `"{0}".format(n)` for any integer: a minus sign before a negative one.
      `int` reads the digits back as the number. */
  function IntToString(n: int): (s: string)
    ensures |s| > 0
    ensures n >= 0 ==> AllDigits(s) && DecimalValue(s) == n
    ensures n < 0 ==> s[0] == '-' && AllDigits(s[1..]) && DecimalValue(s[1..]) == -n
  {
    if n < 0 then
      DecimalRoundTrip(-n);
      assert ("-" + NatToString(-n))[1..] == NatToString(-n);
      "-" + NatToString(-n)
    else
      DecimalRoundTrip(n);
      NatToString(n)
  }

  /** Reading the decimal digits back gives the number: `int` undoes `format`. */
  lemma {:induction false} DecimalRoundTrip(n: nat)
    ensures DecimalValue(NatToString(n)) == n
  {
    if n >= 10 {
      var s := NatToString(n);
      assert s[..|s| - 1] == NatToString(n / 10);
      DecimalRoundTrip(n / 10);
    }
  }

  /** How a color code writes its numbers. `Minimal` is what `stringize`
      writes: the foreground in as few digits as it takes, and `,` with the
      background only when the background changes. `Padded` is the corrected
      notation: both numbers, each in exactly two digits, so that no text
      after the code can be read as part of it. */
  datatype ColorNotation = Minimal | Padded

  /** `"{0:02d}".format(n)` for a color number: two digits for 0..99. */
  function PaddedDecimal(n: int): (s: string)
    ensures 0 <= n <= 99 ==> |s| == 2 && AllDigits(s)
  {
    if 0 <= n < 10 then ['0', DigitChar(n)] else IntToString(n)
  }

  /** Reading the two digits back gives the color number. */
  lemma PaddedRoundTrip(n: nat)
    requires n <= 99
    ensures DecimalValue(PaddedDecimal(n)) == n
  {
    if n < 10 {
      var s: DigitString := PaddedDecimal(n);
      var init: DigitString := s[..1];
      assert init[..0] == [];
    } else {
      DecimalRoundTrip(n);
    }
  }

  /** The color code written before `b` when `prev` came before it, or
      nothing when the color pair is the same. In the padded notation a code
      for colors 0..99 is always six characters long. */
  function ColorCode(notation: ColorNotation, prev: Block, b: Block): (s: string)
    ensures s == "" <==> (b.textColor, b.bgColor) == (prev.textColor, prev.bgColor)
    ensures s != "" ==> s[0] == COLOR
    ensures notation == Padded && s != "" && InPalette(b) ==> |s| == 6
  {
    if (b.textColor, b.bgColor) != (prev.textColor, prev.bgColor) then
      match notation
      case Minimal =>
        [COLOR] + IntToString(b.textColor) + (if b.bgColor != prev.bgColor then [','] + IntToString(b.bgColor) else "")
      case Padded =>
        [COLOR] + PaddedDecimal(b.textColor) + ([','] + PaddedDecimal(b.bgColor))
    else ""
  }

  function Toggle(differs: bool, code: char): string {
    if differs then [code] else ""
  }

  /** What is written for block `b` after block `prev`: color, bold, italic
      and underline codes where the style differs, then the text. It ends
      with the text, and starts with a control character when the style
      differs. */
  function Chunk(notation: ColorNotation, prev: Block, b: Block): (s: string)
    ensures |s| >= |b.text|
    ensures !SameStyle(prev, b) ==> |s| > |b.text| && IsControl(s[0])
  {
    ColorCode(notation, prev, b) + Toggle(b.bold != prev.bold, BOLD) + Toggle(b.italic != prev.italic, ITALIC) +
    Toggle(b.underline != prev.underline, UNDERLINE) + b.text
  }

  /** The serialization of `bs` when `prev` is the block before them. */
  function EncodedFrom(notation: ColorNotation, prev: Block, bs: seq<Block>): (s: string)
    ensures bs != [] && !SameStyle(prev, bs[0]) ==> |s| > 0 && IsControl(s[0])
    decreases |bs|
  {
    if bs == [] then "" else Chunk(notation, prev, bs[0]) + EncodedFrom(notation, bs[0], bs[1..])
  }

  /** `stringize`: the first block is compared with the default block, so
      the output starts with a code unless that block is in the default
      style. */
  function Encoded(bs: seq<Block>): (s: string)
    ensures bs != [] && !SameStyle(Default, bs[0]) ==> |s| > 0 && IsControl(s[0])
  {
    EncodedFrom(Minimal, Default, bs)
  }

  /** The corrected serializer: `stringize` with two-digit color codes that
      always carry both colors. */
  function PaddedEncoded(bs: seq<Block>): string {
    EncodedFrom(Padded, Default, bs)
  }

  /** The block `stringize` compares the block at `offset` with. */
  function Previous(bs: seq<Block>, offset: nat): Block
    requires offset <= |bs|
  {
    if offset == 0 then Default else bs[offset - 1]
  }

  /** One step of `stringize`'s loop: the block at `offset` is written after
      the output so far, and the rest follows. */
  lemma EncodedFromStep(bs: seq<Block>, offset: nat, output: string)
    requires offset < |bs|
    requires output + EncodedFrom(Minimal, Previous(bs, offset), bs[offset..]) == Encoded(bs)
    ensures output + Chunk(Minimal, Previous(bs, offset), bs[offset]) + EncodedFrom(Minimal, Previous(bs, offset + 1), bs[offset + 1..]) == Encoded(bs)
  {
    assert bs[offset..][1..] == bs[offset + 1..];
    AppendAssoc(output, Chunk(Minimal, Previous(bs, offset), bs[offset]), EncodedFrom(Minimal, bs[offset], bs[offset + 1..]));
  }

  /** Before the first block the whole serialization is still to come;
      after the last block nothing is. */
  lemma EncodedFromEnds(bs: seq<Block>, output: string)
    ensures "" + EncodedFrom(Minimal, Previous(bs, 0), bs[0..]) == Encoded(bs)
    ensures output + EncodedFrom(Minimal, Previous(bs, |bs|), bs[|bs|..]) == output
  {
    assert bs[0..] == bs;
    assert bs[|bs|..] == [];
  }

  /** `stringize`: one pass over the blocks, each compared with the one
      before it, appending to the output. */
  method Stringize(blocks: seq<Block>) returns (output: string)
    ensures output == Encoded(blocks)
  {
    output := "";
    EncodedFromEnds(blocks, output);
    for offset := 0 to |blocks|
      invariant output + EncodedFrom(Minimal, Previous(blocks, offset), blocks[offset..]) == Encoded(blocks)
    {
      var prevBlock := if offset > 0 then blocks[offset - 1] else Default;
      EncodedFromStep(blocks, offset, output);
      output := AppendBlock(output, prevBlock, blocks[offset]);
    }
    EncodedFromEnds(blocks, output);
  }

  /** No blocks, no output. */
  lemma StringizeOfNothing()
    ensures Encoded([]) == ""
  {
  }

  /** The body of `stringize`'s loop: append the codes for the attributes in
      which `block` differs from `prevBlock`, in the order color, bold,
      italic, underline, then its text. */
  method AppendBlock(output: string, prevBlock: Block, block: Block) returns (result: string)
    ensures result == output + Chunk(Minimal, prevBlock, block)
  {
    var colored := AppendColor(output, prevBlock, block);
    var toggled := AppendToggles(colored, prevBlock, block);
    result := toggled + block.text;
    ghost var toggles := Toggle(block.bold != prevBlock.bold, BOLD) + Toggle(block.italic != prevBlock.italic, ITALIC) +
      Toggle(block.underline != prevBlock.underline, UNDERLINE);
    AppendAssoc(output, ColorCode(Minimal, prevBlock, block), toggles);
    AppendAssoc(output, ColorCode(Minimal, prevBlock, block) + toggles, block.text);
    ChunkToggles(Minimal, prevBlock, block, toggles);
  }

  /** The toggle part of the loop body: bold, italic and underline codes,
      each where that flag differs. */
  method AppendToggles(output: string, prevBlock: Block, block: Block) returns (result: string)
    ensures result == output + (Toggle(block.bold != prevBlock.bold, BOLD) + Toggle(block.italic != prevBlock.italic, ITALIC) +
      Toggle(block.underline != prevBlock.underline, UNDERLINE))
  {
    result := output;
    if block.bold != prevBlock.bold {
      result := result + [BOLD];
    }
    if block.italic != prevBlock.italic {
      result := result + [ITALIC];
    }
    if block.underline != prevBlock.underline {
      result := result + [UNDERLINE];
    }
  }

  lemma ChunkToggles(notation: ColorNotation, prev: Block, b: Block, toggles: string)
    requires toggles == Toggle(b.bold != prev.bold, BOLD) + Toggle(b.italic != prev.italic, ITALIC) +
      Toggle(b.underline != prev.underline, UNDERLINE)
    ensures Chunk(notation, prev, b) == ColorCode(notation, prev, b) + toggles + b.text
  {
    var code := ColorCode(notation, prev, b);
    AppendAssoc(code, Toggle(b.bold != prev.bold, BOLD) + Toggle(b.italic != prev.italic, ITALIC), Toggle(b.underline != prev.underline, UNDERLINE));
    AppendAssoc(code, Toggle(b.bold != prev.bold, BOLD), Toggle(b.italic != prev.italic, ITALIC));
  }

  /** The color part of the loop body: the foreground code when the color
      pair differs, followed by the background when that differs. */
  method AppendColor(output: string, prevBlock: Block, block: Block) returns (result: string)
    ensures result == output + ColorCode(Minimal, prevBlock, block)
  {
    result := output;
    if (block.textColor, block.bgColor) != (prevBlock.textColor, prevBlock.bgColor) {
      var fg := IntToString(block.textColor);
      result := result + [COLOR] + fg;
      if block.bgColor != prevBlock.bgColor {
        var bg := IntToString(block.bgColor);
        result := result + [','] + bg;
        assert result == output + ([COLOR] + fg + ([','] + bg));
      } else {
        assert result == output + ([COLOR] + fg + "");
      }
    }
  }

  /** A block contributes only its text exactly when its style equals the
      style of the block before it: every other block gets at least one code. */
  lemma ChunkIsTextIffSameStyle(notation: ColorNotation, prev: Block, b: Block)
    ensures Chunk(notation, prev, b) == b.text <==> SameStyle(prev, b)
  {
    var prefix := ColorCode(notation, prev, b) + Toggle(b.bold != prev.bold, BOLD) + Toggle(b.italic != prev.italic, ITALIC) +
      Toggle(b.underline != prev.underline, UNDERLINE);
    assert Chunk(notation, prev, b) == prefix + b.text;
    if !SameStyle(prev, b) {
      assert |prefix| > 0;
    }
  }
}
