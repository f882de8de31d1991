# RenderFont: packed text rasterizer for a vertically scanned LED matrix

`RenderFont.h` turns a run of character codes into a packed sequence of
column bytes. Each column is 8 vertically stacked pixels. For every
character, `RenderLetter` looks up its 6-column glyph and copies only the
non-zero columns. `RenderText` resets the scan cursor `TextPos` and the fill
level `TextLen`. It then packs the glyphs of up to `MaxTextLen - 8`
characters into the 255-byte buffer `Text`, with one blank spacer column
after each character. The scanning driver reads `Text[0..TextLen)` later.

The model lives in the single module `RenderFont` (`render_font.dfy`):

- It has specification functions for what a rendering is:
  - `Cols` keeps the non-zero columns of a glyph;
  - `Width` and `Rendered` give the byte count and the buffer contents for a text;
  - `Processed` takes the characters the loop reaches;
  - `StrLen` is the length of a zero-terminated string.
- `RenderLetter` is a method that writes into any `array<Column>` at an
  offset, as the C function writes through a pointer.
- `Rasterizer` is a class holding the globals: `Text` (an `array<bv8>` of
  length 255), `TextLen`, `TextPos`, and the compiled-in font as a constant
  field. `RenderText` is a method of this class, proved against `Width` and
  `Rendered`. The two wrapper overloads delegate to it.
- The font table is an abstract parameter: a sequence of glyphs, each 6
  columns wide.

## Model

| member | source | states |
|---|---|---|
| RenderFont.RenderLetter | RenderFont.h:17-26 | returns the number of non-zero columns of the glyph (at most FontWidth, 0 exactly for a blank glyph). `pos[offset..offset+l)` holds those columns in order, all non-zero, and every byte before `offset` or from `offset+l` on is unchanged |
| RenderFont.Cols | RenderFont.h:19-24 | the columns RenderLetter keeps are never more than the glyph has |
| RenderFont.ColsNoZero | RenderFont.h:20-21 | every column RenderLetter copies is non-zero |
| RenderFont.ColsEmptyIffBlank | RenderFont.h:20-25 | a glyph yields no columns exactly when all its columns are zero (the space writes nothing and returns 0) |
| RenderFont.ColsOfFullGlyph | RenderFont.h:19-24 | a glyph with no zero column is copied whole |
| RenderFont.ColsAppend | RenderFont.h:19-24 | dropping zero columns column by column distributes over splitting the glyph, so the scan order is kept |
| RenderFont.NonZeroIndicesExact | RenderFont.h:19-20 | the positions the scan keeps are exactly the non-zero positions of the glyph, ascending and without omission |
| RenderFont.ColsAreNonZeroColumnsInOrder | RenderFont.h:19-23 | the k-th copied column is the glyph's column at its k-th non-zero position, and there are as many copied columns as non-zero positions |
| RenderFont.ColsStep | RenderFont.h:20-23 | one loop step of RenderLetter advances `l` exactly when the column is non-zero, and that column is the next one of the result |
| RenderFont.Width | RenderFont.h:34-37 | a text takes at least one byte per character |
| RenderFont.Rendered | RenderFont.h:34-37 | the rendering of a text is Width bytes long and ends with the 0 spacer |
| RenderFont.RenderedAppend | RenderFont.h:33-38 | the buffer of a text is the concatenation of the buffers of its parts, and widths add up |
| RenderFont.RenderedSingle | RenderFont.h:34-36 | one character renders to its non-zero columns and one 0 spacer; a blank glyph renders to the spacer alone |
| RenderFont.PrefixNarrower | RenderFont.h:34-37 | every character adds at least its spacer byte, so each proper prefix is strictly narrower |
| RenderFont.RenderedPrefixStep | RenderFont.h:34-37 | one more character appends its columns and its spacer to the buffer of the prefix |
| RenderFont.WidthAtMostFullGlyphs | RenderFont.h:34-37 | each character takes at most FontWidth + 1 bytes |
| RenderFont.WidthRepeat | RenderFont.h:34-37 | n copies of one character take n times that character's bytes |
| RenderFont.Repeat | RenderFont.h:33 | a text of n copies of one character code |
| RenderFont.Processed | RenderFont.h:33 | the loop reaches the first `min(len, MaxTextLen - 8)` characters, as a prefix of the input |
| RenderFont.ProcessedIgnoresTail | RenderFont.h:33 | characters after the first MaxTextLen - 8 do not change what is rendered |
| RenderFont.ProcessedStep | RenderFont.h:33-37 | while the loop runs, the next character is one of the processed ones and extends the rendering within the processed text's width |
| RenderFont.ProcessedWhenDone | RenderFont.h:33 | where the loop stops it has consumed exactly the processed characters |
| RenderFont.StrLen | RenderFont.h:41-43 | the length strlen computes: the position of the first 0 byte, with no 0 before it |
| RenderFont.PackedStep | RenderFont.h:34-36 | after a glyph's columns and the spacer are written at `TextLen`, the buffer prefix is the old prefix plus those columns plus 0, and the rest is unchanged |
| RenderFont.Rasterizer.constructor | RenderFont.h:7-11 | the static state: a zeroed 255-byte buffer and both cursors at 0 |
| RenderFont.Rasterizer.PackLetter | RenderFont.h:34-37 | one loop iteration: TextLen grows by the glyph's columns plus one, the new prefix is the old one plus those columns and a 0, and the bytes past it are unchanged |
| RenderFont.Rasterizer.RenderText | RenderFont.h:29-40 | TextPos is 0. When the processed text fits the buffer, TextLen is its Width and `Text[0..TextLen)` is its Rendered form. Bytes from TextLen on are unchanged, and an empty text leaves TextLen at 0 |
| RenderFont.Rasterizer.RenderTextTwice | RenderFont.h:31-38 | rendering the same text again gives the same TextLen and the same buffer prefix: nothing carries over between calls |
| RenderFont.Rasterizer.RenderCString | RenderFont.h:41-43 | the `const char*` overload renders exactly the bytes before the first 0, leaves the bytes from TextLen on unchanged, and leaves TextLen at 0 for an empty string |
| RenderFont.Rasterizer.RenderString | RenderFont.h:44-46 | the `String` overload renders all bytes of the string, leaves the bytes from TextLen on unchanged, and leaves TextLen at 0 for an empty string |
| RenderFont.OverflowWitness | RenderFont.h:33-37 | 37 characters whose glyph has six non-zero columns pass the character bound, yet need 259 bytes, more than the 255 of Text |
| RenderFont.OverflowWithAnyInkedGlyph | RenderFont.h:33-37 | for any font, 128 copies of a character whose glyph has a non-zero column all pass the character bound, yet need at least 256 bytes, more than the 255 of Text |
| RenderFont.GuardedCount | RenderFont.h:33 | the number of characters a loop guarded on bytes renders: it stops at the end of the text or at the first prefix at least MaxTextLen - 8 wide, and every shorter prefix is below that |
| RenderFont.GuardedFrom | RenderFont.h:33 | the same count, scanning from position i |
| RenderFont.GuardedContinues | RenderFont.h:33 | while text remains and the bytes are below MaxTextLen - 8, the guarded loop renders at least one more character |
| RenderFont.GuardedAgreesWhenNarrow | RenderFont.h:33 | for a text at most MaxTextLen - 8 bytes wide, the guarded loop and the loop as written both render all of it |
| RenderFont.Rasterizer.RenderTextGuarded | RenderFont.h:29-40 | with the loop guarded on TextLen, TextLen stays below 255 for every renderable text. The buffer prefix is the rendering of the characters the guard admits, and the bytes past it are unchanged |

## Left out

- `TextCol` and `TextOffsetY` (RenderFont.h:5-6): display parameters that only the external LED driver uses.
- `TextTimer` and `TextTimerId` (RenderFont.h:12-13): scroll timing in a timer library that is not part of this model.
- The contents of the font table (`fonts/6x8_vertikal_MSB_1.h`) are not part of this model. The font is a parameter, with every glyph FontWidth columns wide.
- RenderFont.RenderLetter: character codes of 0x80 and above are excluded by the precondition. Passed as a signed `char`, they index the font table with a negative number, which is platform-dependent undefined behaviour. Codes past the end of the table are excluded for the same reason.
- RenderFont.Rasterizer.RenderText: requires the processed characters to be renderable and their total width to fit the 255-byte buffer. The code does not check the width (see Findings). The 8-byte margin at RenderFont.h:33 bounds the number of characters, not the bytes, so it does not keep the writes inside `Text`.
- RenderFont.Rasterizer.RenderTextGuarded: can cut short a text 248 to 255 bytes wide that the loop as written renders inside Text: exactly those whose rendering reaches MaxTextLen - 8 bytes before their last character. It agrees with that loop on every text at most MaxTextLen - 8 bytes wide (GuardedAgreesWhenNarrow).
- RenderFont.Rasterizer.RenderTextGuarded: requires every character of the text to be renderable, including those after the ones the guard admits.
- `strlen`, `String::c_str()` and `String::length()` are library calls and are not modelled. RenderCString takes the bytes up to a required terminating 0 and uses StrLen for their length. RenderString takes the string's bytes as a sequence.
- The scanning driver that advances `TextPos` and reads `Text` is outside this file.
- The `byte` returned by RenderLetter is at most 6, so it never wraps, and the model adds it to TextLen as an integer. `TextLen` itself never goes past 255 under RenderText's precondition.

## Findings

| source | as written | input that shows it | evidently intended | confidence | as-written member | corrected member |
|---|---|---|---|---|---|---|
| RenderFont.h:33 | the loop stops after `MaxTextLen - 8` characters, but each character can add up to 7 bytes, so the bound does not keep `Text[TextLen]` writes below 255 | 37 copies of a character whose glyph has six non-zero columns: 37 <= 247 characters are processed and need 37 * 7 = 259 bytes. With any font, 128 copies of a character with a non-zero column need at least 256 bytes | a guard on the bytes written (`TextLen < MaxTextLen - 8`), leaving room for one full glyph and its spacer | not executed | RenderFont.OverflowWitness | RenderFont.Rasterizer.RenderTextGuarded |
