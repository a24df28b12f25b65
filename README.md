# IRC formatting parser, modelled in Dafny

`parser.py` converts IRC text that carries mIRC formatting control characters
into styled blocks and back. The control characters are color 0x03, bold 0x02,
italic 0x1d, underline 0x1f, reverse 0x16 and reset 0x0f. It is a pipeline of
three stages:

- `tokenize` cuts a line into tokens: runs of literal text and control codes.
  A color code may carry a foreground of one or two digits and, after a comma,
  a background of one or two digits.
- `blockize` folds the tokens into `Block`s. A block is a run of text under
  one style: text color, background color, bold, italic and underline.
- `stringize` writes blocks back as text. It emits a code only where a block's
  style differs from the block before it; the first block is compared with the
  default block.

Each stage is modelled twice, in the same module:

- a pure specification function: `Tokenizer.Lex`, `Blockizer.Blocks` and
  `Stringizer.Encoded`;
- an imperative method with the source's loop: `Tokenizer.Tokenize`,
  `Blockizer.Blockize` and `Stringizer.Stringize`. Each method is proved equal
  to its specification function.

The properties are proved about the specification functions:

- The lexer is lossless and produces canonical tokens. It is a bijection
  between lines and canonical token sequences.
- The builder keeps all text, in order. Only its last block can be empty.
- Each token has a precise effect on the current block.
- The serializer writes a code exactly where the style changes.

The module `RoundTrip` proves the conditional round trip
`blockize(tokenize(stringize(bs))) == bs` and shows, on concrete inputs, how
it fails when its conditions are not met. One of those failures starts from
blocks that `blockize` itself produced (see "## Findings"). For a corrected
serializer that writes every color code with two-digit foreground and
background, the round trip is proved for the blocks read from any line, up to
joining neighbours in the same style.

Files:

- `tokenizer.dfy`: module `Tokenizer`, the grammar and `tokenize`.
- `blockizer.dfy`: module `Blockizer`, the `Block` record and `blockize`.
- `stringizer.dfy`: module `Stringizer`, `stringize`.
- `roundtrip.dfy`: module `RoundTrip`, the three stages together.

## Model

| member | source | states |
|---|---|---|
| Tokenizer.TextRun | parser.py:29 | the text rule matches the longest prefix free of the six control characters; the character after it is a control character |
| Tokenizer.MatchColor | parser.py:20 | the color rule consumes the color character, 0 to 2 digits of foreground, and a comma with 1 to 2 background digits only after a foreground; the token spells the consumed prefix, and what follows could not have extended the match |
| Tokenizer.MatchToken | parser.py:19-29 | at the front of a non-empty line exactly one rule matches; it consumes at least one character; the token spells what it consumes, is well formed and maximal; it is a text token exactly when the line does not start with a control character |
| Tokenizer.Lex | parser.py:51-61 | the scan ends on every line; it yields no more tokens than characters, and no tokens exactly for the empty line |
| Tokenizer.Tokenize | parser.py:51-61 | the loop that cuts one token at a time off the front of the line returns `Lex(line)` |
| Tokenizer.LexLossless | parser.py:51-61 | concatenating the spans of the tokens gives the line back |
| Tokenizer.LexCanonical | parser.py:20-29 | every token is well formed: text runs are non-empty and free of control characters, color groups hold 1 or 2 digits; every match is maximal given what follows |
| Tokenizer.LexNoAdjacentText | parser.py:29 | no two text tokens are adjacent |
| Tokenizer.MatchSpan | parser.py:19-29 | a well-formed token that what follows cannot extend is exactly what the scanner matches at the front of its own span |
| Tokenizer.LexAppend | parser.py:51-61 | lexing the spans of tokens that are canonical before the text that follows them, then that text, yields those tokens, then the tokens of that text |
| Tokenizer.CanonicalAppend | parser.py:20-29 | two canonical token sequences concatenate to a canonical one when the first is canonical before the second's spans |
| Tokenizer.LexUnlex | parser.py:19-61 | a token sequence is read back from its own spans if and only if it is canonical |
| Tokenizer.BareColor | parser.py:20 | a lone color character is a color code with neither group |
| Tokenizer.CommaWithoutForeground | parser.py:20 | `\x03,5` is a bare color code followed by the text `,5` |
| Tokenizer.ThirdDigitIsText | parser.py:20 | `\x03123` is foreground `12` followed by the text `3` |
| Tokenizer.ForegroundAndBackground | parser.py:20 | `\x031,234` is foreground `1` and background `23`, followed by the text `4` |
| Blockizer.DecimalValue | parser.py:95-97 | `int` of a one-digit group is at most 9, of a two-digit group at most 99 |
| Blockizer.PresentIffMatched | parser.py:91-97 | `Present` is Python's truth test on a captured group; on a color code the grammar produces it holds exactly when the group matched |
| Blockizer.Apply | parser.py:80-104 | a control token never changes the text of the block it is applied to |
| Blockizer.ApplyControl | parser.py:80-104 | the branch chain for a control token computes `Apply` of the current block |
| Blockizer.Step | parser.py:68-104 | one loop iteration: a text token extends the current block's text and keeps its style and the number of blocks; any other token seals a current block that holds text and opens an empty one; earlier blocks never change, and the current text is empty after a control token |
| Blockizer.Run | parser.py:68-104 | the loop never removes a block, adds at most one block per token, and never changes a block before the current one |
| Blockizer.Built | parser.py:66-104 | the builder ends with at least one block and at most one per token, or exactly the starting block `Block()` when there are no tokens |
| Blockizer.NonEmpty | parser.py:106 | the filter keeps only blocks with non-empty text |
| Blockizer.NonEmptyAppend | parser.py:106 | the filter keeps a single block exactly when its text is not empty, and filtering two parts and joining them is filtering the whole: every non-empty block is kept, in order |
| Blockizer.Blocks | parser.py:65-107 | `blockize` returns at most one block per token, each holding text |
| Blockizer.Feed | parser.py:69-104 | the body of the loop updates the block list exactly as `Step` does |
| Blockizer.Blockize | parser.py:65-107 | the loop with in-place updates of the current block, then the filter, returns `Blocks(tokens)` |
| Blockizer.TextsRun | parser.py:71-73 | the loop appends the contents of the text tokens, in order, to the texts it starts with |
| Blockizer.BlocksKeepText | parser.py:65-107 | the blocks' texts, concatenated, are the text tokens' contents, concatenated |
| Blockizer.SealedRun | parser.py:75-78 | before the filter, every block except the last holds text |
| Blockizer.FilterSealed | parser.py:106 | on such a sequence the filter drops at most the last block |
| Blockizer.OnlyLastEmpty | parser.py:65-107 | `blockize` returns the builder's blocks, minus the last one exactly when its text is empty |
| Blockizer.BlocksOfNothing | parser.py:65-107 | `blockize([])` is empty |
| Blockizer.StepEffect | parser.py:75-104 | bold, italic and underline negate only their own flag; a bare color restores colors (1, 0); a foreground sets the text color and keeps the background unless one is given; reverse swaps the colors; reset gives the default block; the text is empty after each; a text token only appends its text to the current block |
| Blockizer.ApplyInvolutions | parser.py:80-104 | toggling twice or reversing twice restores the block; reset forgets the style it was applied to |
| Blockizer.TidyRun | parser.py:68-104 | from blocks with colors in 0..99 and text free of control characters, well-formed tokens keep both properties |
| Blockizer.LexedBlocks | parser.py:65-107 | every block read from any line has non-empty text free of control characters and colors in 0..99 |
| Stringizer.NatToString | parser.py:120-122 | `"{0}".format(n)` is a non-empty digit string, of one digit below 10 and at most two below 100 |
| Stringizer.DecimalRoundTrip | parser.py:94-97 | `int` reads back the number that `format` wrote |
| Stringizer.IntToString | parser.py:120-122 | `"{0}".format(n)` is non-empty; for a non-negative number it is digits that `int` reads back as the number, for a negative one a minus sign before such digits |
| Stringizer.ColorCode | parser.py:119-122 | a color code is written exactly when the color pair differs from the previous block's; it starts with the color character; in the padded notation it is six characters for colors 0..99 |
| Stringizer.Chunk | parser.py:119-133 | what is written for a block is at least its text, and starts with a control character when its style differs from the previous block's |
| Stringizer.EncodedFrom | parser.py:113-133 | the serialization of blocks starts with a control character when the first block's style differs from the block before it |
| Stringizer.Encoded | parser.py:110-135 | the output of `stringize` starts with a code unless the first block is in the default style |
| Stringizer.StringizeOfNothing | parser.py:110-135 | `stringize([])` is empty |
| Stringizer.AppendColor | parser.py:119-122 | appends `\x03` and the foreground exactly when the color pair differs, then `,` and the background exactly when the background differs |
| Stringizer.AppendToggles | parser.py:124-131 | appends the bold, italic and underline codes, in that order, each exactly when that flag differs |
| Stringizer.AppendBlock | parser.py:119-133 | appends the color code, then the toggle codes, then the text |
| Stringizer.Stringize | parser.py:110-135 | the loop compares each block with the one before it, the first with the default block, and returns `Encoded(blocks)` |
| Stringizer.ChunkIsTextIffSameStyle | parser.py:119-133 | a block contributes only its text exactly when its style equals that of the block before it |
| RoundTrip.UnlexEncode | parser.py:110-135 | the serializer's output is the concatenated spans of a color token, toggle tokens and a text token per block |
| RoundTrip.CanonicalEncode | parser.py:110-135 | for safe blocks those tokens are canonical: no text is swallowed by the color code before it |
| RoundTrip.LexEncoded | parser.py:110-135 | `tokenize` of the output of `stringize` on safe blocks gives back exactly those tokens |
| RoundTrip.CodesReach | parser.py:119-131 | the codes written before a block turn the block before it into the block's style and leave the text alone |
| RoundTrip.BuiltEncoded | parser.py:65-107 | on safe blocks, the builder, before its filter, rebuilds exactly the blocks |
| RoundTrip.RoundTrip | parser.py:51-135 | `blockize(tokenize(stringize(bs))) == bs` when every text is non-empty, free of control characters and starts with neither a digit nor a comma, every color is in 0..99, and neighbours differ in style; with two-digit color codes the condition on the first character is not needed |
| RoundTrip.EncodedMerged | parser.py:119-133 | `stringize` writes neighbours in the same style exactly as their merged block, since the second contributes only its text |
| RoundTrip.RoundTripMerged | parser.py:51-135 | for any blocks with safe texts and colors in 0..99, `blockize(tokenize(stringize(bs)))` is `bs` with neighbours in the same style joined |
| RoundTrip.DigitJoinsColor | parser.py:119-122 | a block in color 4 with text `5x` comes back in color 45 with text `x` |
| RoundTrip.SameStyleMerges | parser.py:119-133 | two neighbours in the default style with texts `a` and `b` come back as one block with text `ab` |
| RoundTrip.BlocksOfPlainText | parser.py:51-107 | a non-empty text without control characters is read as one block in the default style |
| RoundTrip.ParsedBlocksLoseText | parser.py:119-122 | the line `\x032\x02\x025` gives one block, foreground 2 with text `5`, which `stringize` writes as `\x0325`; that reads back as no block at all |
| RoundTrip.CancelledToggleSplits | parser.py:75-81 | two bold codes in a row still split the text around them, so two neighbours in the same style can come out of `blockize` |
| RoundTrip.PaddedParsedRoundTrip | parser.py:119-122 | with color codes written as two-digit foreground and background, the round trip holds for the blocks read from any line, up to joining neighbours in the same style |

## Left out

- The regular-expression engine and the dictionary order of `token_defs`. The
  lexer is an explicit scanner that reads one token per step. The source's
  inner loop at parser.py:55-59 has no `break`, so one pass may emit several
  tokens. But the six control rules and the text rule differ on their first
  character and every match is maximal, so the token sequence is the same in
  any rule order.
- `to_hex_re` and the regular-expression strings: the six control characters
  are a predicate, and the grammar is the scanner.
- `__repr__` and `__eq__`: blocks are a datatype compared field by field.
- `copy.copy` and the class-level defaults. `Block` is a value record, and
  `Block()` is the constant `Default` with colors (1, 0), no toggles and empty
  text. In `blockize` the name `block` aliases the last list element; the model
  writes the updated block back into the sequence instead.
- Python 2 specifics: byte strings are sequences of characters, and `filter`
  returning a list is a function on sequences.
- `int(...)` on a captured group is defined only for digit strings, which is
  all the grammar can capture (the `DigitString` type).
- `"{0}".format(n)` is modelled for every integer, a minus sign before a
  negative one. The round trip is stated only for colors in 0..99, which are
  all that parsing can produce.
- `Stringizer.AppendBlock`, `Stringizer.AppendColor` and
  `Stringizer.AppendToggles` are the body of `stringize`'s loop as methods of
  their own, and `Blockizer.Feed` and `Blockizer.ApplyControl` are the body
  of `blockize`'s loop. They are not separate functions in the source.
- Blocks are not maximal runs of one style. A block is usually described as a
  maximal run of text sharing one formatting state, but `blockize` splits the
  current block before every control code once it holds text, even when the
  code leaves the style unchanged (parser.py:75-78). The model follows the
  code: `RoundTrip.CancelledToggleSplits` proves that two neighbours in the
  same style can come out, and the round trip is stated up to joining such
  neighbours (`RoundTrip.Merged`).

## Findings

| source | as written | input that shows it | evidently intended | confidence | as-written member | corrected member |
|---|---|---|---|---|---|---|
| parser.py:119-122 | the color code writes the foreground in as few digits as it takes, and the background only when it changes, so a block text that starts with a digit, or with a comma and a digit, is read back as part of the code | the line `\x032\x02\x025` gives one block, foreground 2 with text `5`; `stringize` writes it as `\x0325`, which reads back as foreground 25 and no text, so the block is lost | for every block sequence read from a line, `stringize` writes text that reads back as the same blocks, up to joining neighbours in the same style | not executed | RoundTrip.ParsedBlocksLoseText | RoundTrip.PaddedParsedRoundTrip |

The corrected serializer is `Stringizer.PaddedEncoded`. It is `stringize`
with every color code written as `\x03` followed by both colors, each in two
digits: what the format `"\x03{0:02d},{1:02d}"` writes. A color code then always
ends after the second background digit. No text after it can be read as part
of it.
