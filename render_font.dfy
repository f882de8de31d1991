/**
  The text rasterizer of a vertically scanned LED matrix: every character of a
  run of text is looked up in a 6-column font, its non-zero columns are packed
  into a fixed 255-byte buffer, and one blank spacer column follows each
  character.
 */
module RenderFont {

  /** Columns per glyph in the font table. */
  const FontWidth: nat := 6

  /** Capacity of the column buffer `Text`. */
  const MaxTextLen: nat := 255

  /** RenderText looks at no more than this many characters. */
  const MaxChars: nat := MaxTextLen - 8

  /** One column: 8 vertically stacked pixels. */
  type Column = bv8

  /** The columns of one character, left to right. */
  type Glyph = seq<Column>

  /** The font table, indexed by character code. */
  type Font = seq<Glyph>

  /** Every glyph of the table is FontWidth columns wide. */
  predicate ValidFont(font: Font)
  {
    forall i | 0 <= i < |font| :: |font[i]| == FontWidth
  }

  /** Character code `c` indexes the table without going through a negative
      signed `char` and without running off its end. */
  predicate Renderable(font: Font, c: bv8)
  {
    c < 0x80 && c as int < |font|
  }

  predicate AllRenderable(font: Font, text: seq<bv8>)
  {
    forall i | 0 <= i < |text| :: Renderable(font, text[i])
  }

  /** A fully blank glyph, such as the space. */
  predicate AllZero(g: Glyph)
  {
    forall j | 0 <= j < |g| :: g[j] == 0
  }

  /** A glyph with no blank column. */
  predicate NoZero(g: Glyph)
  {
    forall j | 0 <= j < |g| :: g[j] != 0
  }

  // ---------------------------------------------------------------------
  // Glyph columns
  // ---------------------------------------------------------------------

  /** The non-zero columns of a glyph, in their left-to-right order. */
  function Cols(g: Glyph): (r: seq<Column>)
    ensures |r| <= |g|
  {
    if g == [] then []
    else if g[0] == 0 then Cols(g[1..])
    else [g[0]] + Cols(g[1..])
  }

  /** Every column Cols keeps is non-zero. */
  lemma {:induction false} ColsNoZero(g: Glyph)
    ensures NoZero(Cols(g))
  {
    if g != [] {
      ColsNoZero(g[1..]);
    }
  }

  /** A glyph without blank columns is kept whole. */
  lemma {:induction false} ColsOfFullGlyph(g: Glyph)
    requires NoZero(g)
    ensures Cols(g) == g
  {
    if g != [] {
      assert NoZero(g[1..]) by {
        forall j | 0 <= j < |g[1..]| ensures g[1..][j] != 0 {
          assert g[1..][j] == g[j + 1];
        }
      }
      ColsOfFullGlyph(g[1..]);
    }
  }

  /** Cols drops everything exactly when the glyph is blank. */
  lemma {:induction false} ColsEmptyIffBlank(g: Glyph)
    ensures Cols(g) == [] <==> AllZero(g)
  {
    if g != [] {
      ColsEmptyIffBlank(g[1..]);
      if AllZero(g) {
        assert AllZero(g[1..]) by {
          forall j | 0 <= j < |g[1..]| ensures g[1..][j] == 0 {
            assert g[1..][j] == g[j + 1];
          }
        }
      } else if g[0] == 0 {
        var j :| 0 <= j < |g| && g[j] != 0;
        assert g[1..][j - 1] == g[j];
      }
    }
  }

  /** Dropping zero columns distributes over concatenation. */
  lemma {:induction false} ColsAppend(a: Glyph, b: Glyph)
    ensures Cols(a + b) == Cols(a) + Cols(b)
  {
    if a == [] {
      assert a + b == b;
    } else {
      assert (a + b)[1..] == a[1..] + b;
      ColsAppend(a[1..], b);
    }
  }

  /** Strictly increasing positions. */
  predicate Ascending(p: seq<nat>)
  {
    forall k, m | 0 <= k < m < |p| :: p[k] < p[m]
  }

  /** `p` lists every position at or after `from` of a non-zero column. */
  predicate CoversNonZero(g: Glyph, from: nat, p: seq<nat>)
  {
    forall j | from <= j < |g| && g[j] != 0 :: j in p
  }

  /** The positions `j >= from` of the non-zero columns of `g`, left to
      right. */
  function NonZeroIndices(g: Glyph, from: nat): (p: seq<nat>)
    requires from <= |g|
    ensures forall k | 0 <= k < |p| :: from <= p[k] < |g|
    decreases |g| - from
  {
    if from == |g| then []
    else if g[from] != 0 then [from] + NonZeroIndices(g, from + 1)
    else NonZeroIndices(g, from + 1)
  }

  /** NonZeroIndices lists exactly the non-zero positions at or after
      `from`, each once, in ascending order. */
  lemma {:induction false} NonZeroIndicesExact(g: Glyph, from: nat)
    requires from <= |g|
    ensures forall k | 0 <= k < |NonZeroIndices(g, from)| :: g[NonZeroIndices(g, from)[k]] != 0
    ensures Ascending(NonZeroIndices(g, from))
    ensures CoversNonZero(g, from, NonZeroIndices(g, from))
    decreases |g| - from
  {
    if from < |g| {
      NonZeroIndicesExact(g, from + 1);
    }
  }

  /** Cols keeps exactly the non-zero columns, each once, in the order they
      stand in the glyph: its k-th result is the column at the k-th non-zero
      position. */
  lemma {:induction false} ColsAreNonZeroColumnsInOrder(g: Glyph, from: nat)
    requires from <= |g|
    ensures |Cols(g[from..])| == |NonZeroIndices(g, from)|
    ensures forall k | 0 <= k < |Cols(g[from..])| ::
      Cols(g[from..])[k] == g[NonZeroIndices(g, from)[k]]
    decreases |g| - from
  {
    if from < |g| {
      var rest := g[from + 1..];
      ColsAreNonZeroColumnsInOrder(g, from + 1);
      var c, q := Cols(g[from..]), NonZeroIndices(g, from);
      var c', q' := Cols(rest), NonZeroIndices(g, from + 1);
      assert g[from..] == [g[from]] + rest;
      if g[from] != 0 {
        assert c == [g[from]] + c' && q == [from] + q';
        forall k | 0 <= k < |c| ensures c[k] == g[q[k]] {
          if k > 0 {
            assert c[k] == c'[k - 1] && q[k] == q'[k - 1];
          }
        }
      } else {
        assert c == c' && q == q';
      }
    }
  }

  /** Scanning one more column of a glyph copies it exactly when it is
      non-zero, and then it is the next of the glyph's non-zero columns. */
  lemma ColsStep(g: Glyph, i: nat)
    requires i < |g|
    ensures |Cols(g[..i + 1])| == |Cols(g[..i])| + if g[i] != 0 then 1 else 0
    ensures |Cols(g[..i + 1])| <= |Cols(g)|
    ensures g[i] != 0 ==> Cols(g)[|Cols(g[..i])|] == g[i]
  {
    assert g[..i + 1] == g[..i] + [g[i]];
    ColsAppend(g[..i], [g[i]]);
    assert g == g[..i + 1] + g[i + 1..];
    ColsAppend(g[..i + 1], g[i + 1..]);
  }

  // ---------------------------------------------------------------------
  // The packed rendering of a text
  // ---------------------------------------------------------------------

  /** The glyph of character `c`. The methods below only look up
      renderable characters; for the others this gives an empty glyph, so
      that the functions describing a rendering are total. */
  function GlyphOf(font: Font, c: bv8): Glyph
  {
    if c as int < |font| then font[c as int] else []
  }

  /** Bytes a text occupies in the buffer: each character's non-zero
      columns plus one spacer. */
  function Width(font: Font, text: seq<bv8>): (w: nat)
    ensures |text| <= w
  {
    if text == [] then 0
    else Width(font, text[..|text| - 1]) + |Cols(GlyphOf(font, text[|text| - 1]))| + 1
  }

  /** The buffer contents for a text: for each character in order, its
      non-zero columns followed by one 0 spacer. */
  function Rendered(font: Font, text: seq<bv8>): (r: seq<Column>)
    ensures |r| == Width(font, text)
    ensures text != [] ==> r[|r| - 1] == 0
  {
    if text == [] then []
    else Rendered(font, text[..|text| - 1]) + Cols(GlyphOf(font, text[|text| - 1])) + [0]
  }

  /** Unfolds Rendered at a text whose last character is `c`. */
  lemma RenderedSnoc(font: Font, t: seq<bv8>, c: bv8)
    ensures Rendered(font, t + [c]) == Rendered(font, t) + Cols(GlyphOf(font, c)) + [0]
  {
    assert (t + [c])[..|t|] == t;
  }

  lemma ConcatAssoc(x: seq<Column>, y: seq<Column>, z: seq<Column>, w: seq<Column>)
    ensures (x + y) + z + w == x + (y + z + w)
  {
  }

  /** Rendering a text is rendering its parts one after the other, so the
      buffer is the concatenation of the characters' renderings. */
  lemma {:induction false} RenderedAppend(font: Font, a: seq<bv8>, b: seq<bv8>)
    ensures Rendered(font, a + b) == Rendered(font, a) + Rendered(font, b)
    ensures Width(font, a + b) == Width(font, a) + Width(font, b)
    decreases |b|
  {
    if b == [] {
      assert a + b == a;
    } else {
      var b', c := b[..|b| - 1], b[|b| - 1];
      assert b == b' + [c];
      assert a + b == (a + b') + [c];
      RenderedAppend(font, a, b');
      RenderedSnoc(font, a + b', c);
      RenderedSnoc(font, b', c);
      ConcatAssoc(Rendered(font, a), Rendered(font, b'), Cols(GlyphOf(font, c)), [0]);
    }
  }

  /** One character renders to its non-zero columns and one spacer; an
      all-zero glyph (the space) renders to the spacer alone. */
  lemma RenderedSingle(font: Font, c: bv8)
    ensures Rendered(font, [c]) == Cols(GlyphOf(font, c)) + [0]
    ensures AllZero(GlyphOf(font, c)) ==> Rendered(font, [c]) == [0]
  {
    assert [c][..0] == [];
    ColsEmptyIffBlank(GlyphOf(font, c));
  }

  /** Every proper prefix of a text is strictly narrower than the text. */
  lemma PrefixNarrower(font: Font, text: seq<bv8>, j: nat)
    requires j < |text|
    ensures Width(font, text[..j]) < Width(font, text)
  {
    assert text == text[..j] + text[j..];
    RenderedAppend(font, text[..j], text[j..]);
  }

  /** Rendering one more character of `t` appends that character's columns
      and its spacer, and the longer prefix is still no wider than `t`. */
  lemma RenderedPrefixStep(font: Font, t: seq<bv8>, i: nat)
    requires i < |t|
    ensures Rendered(font, t[..i + 1]) == Rendered(font, t[..i]) + Cols(GlyphOf(font, t[i])) + [0]
    ensures Width(font, t[..i + 1]) <= Width(font, t)
  {
    assert t[..i + 1] == t[..i] + [t[i]];
    RenderedSnoc(font, t[..i], t[i]);
    if i + 1 < |t| {
      PrefixNarrower(font, t, i + 1);
    } else {
      assert t[..i + 1] == t;
    }
  }

  /** No character takes more than its FontWidth columns and a spacer. */
  lemma {:induction false} WidthAtMostFullGlyphs(font: Font, text: seq<bv8>)
    requires ValidFont(font) && AllRenderable(font, text)
    ensures Width(font, text) <= (FontWidth + 1) * |text|
  {
    if text != [] {
      var t', c := text[..|text| - 1], text[|text| - 1];
      assert Renderable(font, c);
      assert |GlyphOf(font, c)| == FontWidth;
      assert AllRenderable(font, t') by {
        forall k | 0 <= k < |t'| ensures Renderable(font, t'[k]) {
          assert t'[k] == text[k];
        }
      }
      WidthAtMostFullGlyphs(font, t');
    }
  }

  /** `n` copies of character `c`. */
  function Repeat(c: bv8, n: nat): (r: seq<bv8>)
    ensures |r| == n && forall k | 0 <= k < n :: r[k] == c
  {
    if n == 0 then [] else Repeat(c, n - 1) + [c]
  }

  /** A text of `n` copies of one character is n times as wide as that
      character's `w` bytes. */
  lemma {:induction false} WidthRepeat(font: Font, c: bv8, n: nat, w: nat)
    requires w == |Cols(GlyphOf(font, c))| + 1
    ensures Width(font, Repeat(c, n)) == n * w
  {
    if n > 0 {
      assert Repeat(c, n)[..n - 1] == Repeat(c, n - 1);
      WidthRepeat(font, c, n - 1, w);
      assert (n - 1) * w + w == n * w;
    }
  }

  /** The characters RenderText processes: the first MaxChars of the text,
      the rest silently ignored. */
  function Processed(text: seq<bv8>): (r: seq<bv8>)
    ensures |r| <= MaxChars && |r| <= |text| && r == text[..|r|]
    ensures |text| <= MaxChars ==> r == text
    ensures |text| > MaxChars ==> |r| == MaxChars
  {
    if |text| <= MaxChars then text else text[..MaxChars]
  }

  /** Characters appended after the first MaxChars change nothing. */
  lemma ProcessedIgnoresTail(text: seq<bv8>, tail: seq<bv8>)
    requires |text| >= MaxChars
    ensures Processed(text + tail) == Processed(text)
  {
    assert (text + tail)[..MaxChars] == text[..MaxChars];
  }

  /** One step of RenderText's loop over the processed characters: the
      next character is renderable, and rendering it extends the rendering
      of the prefix while staying within the whole processed text. */
  lemma ProcessedStep(font: Font, text: seq<bv8>, i: nat)
    requires i < |text| && i < MaxChars
    requires AllRenderable(font, Processed(text))
    ensures Renderable(font, text[i])
    ensures Width(font, text[..i + 1]) == Width(font, text[..i]) + |Cols(GlyphOf(font, text[i]))| + 1
    ensures Rendered(font, text[..i + 1]) == Rendered(font, text[..i]) + Cols(GlyphOf(font, text[i])) + [0]
    ensures Width(font, text[..i + 1]) <= Width(font, Processed(text))
  {
    var done := Processed(text);
    assert text[i] == done[i];
    assert done[..i] == text[..i] && done[..i + 1] == text[..i + 1];
    RenderedPrefixStep(font, done, i);
  }

  /** Where RenderText's loop stops, it has gone through exactly the
      processed characters. */
  lemma ProcessedWhenDone(text: seq<bv8>, i: nat)
    requires i <= |text| && i <= MaxChars
    requires i == |text| || i == MaxChars
    ensures text[..i] == Processed(text)
  {
  }

  // ---------------------------------------------------------------------
  // Length of a zero-terminated string
  // ---------------------------------------------------------------------

  /** Length of a zero-terminated byte string: the position of its first 0. */
  function StrLen(s: seq<bv8>): (n: nat)
    requires 0 in s
    ensures n < |s| && s[n] == 0
    ensures forall j | 0 <= j < n :: s[j] != 0
  {
    if s[0] == 0 then 0 else 1 + StrLen(s[1..])
  }

  // ---------------------------------------------------------------------
  // RenderLetter
  // ---------------------------------------------------------------------

  /** Copies the non-zero columns of character `x`'s glyph, in order, to
      `pos[offset..]` and returns how many it copied. The caller must leave
      room for them: nothing here checks the buffer's bounds. */
  method RenderLetter(font: Font, pos: array<Column>, offset: nat, x: bv8) returns (l: bv8)
    requires ValidFont(font) && Renderable(font, x)
    requires offset + |Cols(font[x as int])| <= pos.Length
    modifies pos
    ensures l as int == |Cols(font[x as int])| <= FontWidth
    ensures l == 0 <==> AllZero(font[x as int])
    ensures pos[offset..offset + |Cols(font[x as int])|] == Cols(font[x as int])
    ensures NoZero(pos[offset..offset + |Cols(font[x as int])|])
    ensures forall k | 0 <= k < offset :: pos[k] == old(pos[k])
    ensures forall k | offset + |Cols(font[x as int])| <= k < pos.Length :: pos[k] == old(pos[k])
  {
    var g := font[x as int];
    ghost var cols := Cols(g);
    var n: nat := 0;
    for i := 0 to FontWidth
      invariant n == |Cols(g[..i])| <= |cols|
      invariant forall k | 0 <= k < n :: pos[offset + k] == cols[k]
      invariant forall k | 0 <= k < offset :: pos[k] == old(pos[k])
      invariant forall k | offset + n <= k < pos.Length :: pos[k] == old(pos[k])
    {
      ColsStep(g, i);
      if g[i] != 0 {
        pos[offset + n] := g[i];
        n := n + 1;
      }
    }
    assert g[..FontWidth] == g;
    ColsNoZero(g);
    ColsEmptyIffBlank(g);
    l := n as bv8;
  }

  /** The buffer after one loop step of RenderText: `s0` before the glyph,
      `s1` after RenderLetter put `cols` at `at`, and `buf` after the spacer. */
  lemma PackedStep(s0: seq<Column>, s1: seq<Column>, buf: array<Column>, at: nat, cols: seq<Column>)
    requires |s0| == |s1| == buf.Length && at + |cols| < |s1|
    requires forall k | 0 <= k < at :: s1[k] == s0[k]
    requires s1[at..at + |cols|] == cols
    requires forall k | at + |cols| <= k < |s1| :: s1[k] == s0[k]
    requires buf[..] == s1[at + |cols| := 0]
    ensures buf[..at + |cols| + 1] == s0[..at] + cols + [0]
    ensures forall k | at + |cols| + 1 <= k < buf.Length :: buf[k] == s0[k]
  {
    assert buf[..at + |cols| + 1] == s1[..at] + s1[at..at + |cols|] + [0];
  }

  // ---------------------------------------------------------------------
  // The rasterizer state and RenderText
  // ---------------------------------------------------------------------

  /** The column buffer and its two cursors, with the compiled-in font. */
  class Rasterizer {
    const font: Font
    const Text: array<Column>
    /** Number of valid bytes at the start of Text. */
    var TextLen: int
    /** Read position of the external scanning driver. */
    var TextPos: int

    ghost predicate Valid()
      reads this
    {
      ValidFont(font) && Text.Length == MaxTextLen && 0 <= TextLen <= Text.Length
    }

    /** Static storage: a zeroed buffer and both cursors at 0. */
    constructor (f: Font)
      requires ValidFont(f)
      ensures Valid() && fresh(Text) && font == f
      ensures TextLen == 0 && TextPos == 0
      ensures forall k | 0 <= k < Text.Length :: Text[k] == 0
    {
      font := f;
      Text := new Column[MaxTextLen](_ => 0);
      TextLen, TextPos := 0, 0;
    }

    /** One step of RenderText's loop: packs the non-zero columns of `c` at
        TextLen, writes the spacer after them and moves TextLen past both. */
    method PackLetter(c: bv8)
      requires Valid() && Renderable(font, c)
      requires TextLen + |Cols(GlyphOf(font, c))| < Text.Length
      modifies this`TextLen, Text
      ensures Valid()
      ensures TextLen == old(TextLen) + |Cols(GlyphOf(font, c))| + 1
      ensures Text[..TextLen] == old(Text[..TextLen]) + Cols(GlyphOf(font, c)) + [0]
      ensures forall k | TextLen <= k < Text.Length :: Text[k] == old(Text[k])
    {
      ghost var cols := Cols(font[c as int]);
      ghost var at, s0 := TextLen, Text[..];
      var l := RenderLetter(font, Text, TextLen, c);
      ghost var s1 := Text[..];
      TextLen := TextLen + l as int;
      Text[TextLen] := 0;
      PackedStep(s0, s1, Text, at, cols);
      TextLen := TextLen + 1;
    }

    /** Resets both cursors and packs the first MaxChars characters of `text`
        into Text. The character bound does not bound the bytes written, so
        the caller must make sure the rendering fits the buffer. */
    method RenderText(text: seq<bv8>)
      requires Valid()
      requires AllRenderable(font, Processed(text))
      requires Width(font, Processed(text)) <= MaxTextLen
      modifies this, Text
      ensures Valid()
      ensures TextPos == 0
      ensures TextLen == Width(font, Processed(text))
      ensures Text[..TextLen] == Rendered(font, Processed(text))
      ensures forall k | TextLen <= k < Text.Length :: Text[k] == old(Text[k])
      ensures text == [] ==> TextLen == 0
    {
      TextPos, TextLen := 0, 0;
      var i := 0;
      while i < |text| && i < MaxTextLen - 8
        invariant 0 <= i <= |text| && i <= MaxChars
        invariant TextPos == 0
        invariant TextLen == Width(font, text[..i]) <= Width(font, Processed(text))
        invariant Text[..TextLen] == Rendered(font, text[..i])
        invariant forall k | TextLen <= k < Text.Length :: Text[k] == old(Text[k])
      {
        ProcessedStep(font, text, i);
        PackLetter(text[i]);
        i := i + 1;
      }
      ProcessedWhenDone(text, i);
    }

    /** Rendering the same text twice gives the same buffer prefix and
        length: nothing accumulates across calls. */
    method RenderTextTwice(text: seq<bv8>) returns (first: seq<Column>, firstLen: int)
      requires Valid()
      requires AllRenderable(font, Processed(text))
      requires Width(font, Processed(text)) <= MaxTextLen
      modifies this, Text
      ensures Valid()
      ensures firstLen == TextLen && first == Text[..TextLen]
    {
      RenderText(text);
      first, firstLen := Text[..TextLen], TextLen;
      RenderText(text);
    }

    /** The zero-terminated-string overload: renders the bytes before the
        first 0. */
    method RenderCString(s: seq<bv8>)
      requires Valid() && 0 in s
      requires AllRenderable(font, Processed(s[..StrLen(s)]))
      requires Width(font, Processed(s[..StrLen(s)])) <= MaxTextLen
      modifies this, Text
      ensures Valid() && TextPos == 0
      ensures TextLen == Width(font, Processed(s[..StrLen(s)]))
      ensures Text[..TextLen] == Rendered(font, Processed(s[..StrLen(s)]))
      ensures forall k | TextLen <= k < Text.Length :: Text[k] == old(Text[k])
      ensures s[0] == 0 ==> TextLen == 0
    {
      RenderText(s[..StrLen(s)]);
    }

    /** The string-object overload: renders all bytes of the string. */
    method RenderString(s: seq<bv8>)
      requires Valid()
      requires AllRenderable(font, Processed(s))
      requires Width(font, Processed(s)) <= MaxTextLen
      modifies this, Text
      ensures Valid() && TextPos == 0
      ensures TextLen == Width(font, Processed(s))
      ensures Text[..TextLen] == Rendered(font, Processed(s))
      ensures forall k | TextLen <= k < Text.Length :: Text[k] == old(Text[k])
      ensures s == [] ==> TextLen == 0
    {
      RenderText(s);
    }

    /** RenderText with the loop bounded by the bytes written instead of the
        characters read: a character is started only while TextLen is below
        MaxTextLen - 8, which leaves room for a full-width glyph and its
        spacer. No precondition on the width of the text is needed. */
    method RenderTextGuarded(text: seq<bv8>)
      requires Valid()
      requires AllRenderable(font, text)
      modifies this, Text
      ensures Valid()
      ensures TextPos == 0
      ensures TextLen == Width(font, text[..GuardedCount(font, text)])
      ensures Text[..TextLen] == Rendered(font, text[..GuardedCount(font, text)])
      ensures TextLen < MaxTextLen
      ensures forall k | TextLen <= k < Text.Length :: Text[k] == old(Text[k])
    {
      TextPos, TextLen := 0, 0;
      var i := 0;
      while i < |text| && TextLen < MaxTextLen - 8
        invariant 0 <= i <= GuardedCount(font, text)
        invariant TextPos == 0
        invariant TextLen == Width(font, text[..i]) < MaxTextLen - 8 + FontWidth + 1
        invariant Text[..TextLen] == Rendered(font, text[..i])
        invariant forall k | TextLen <= k < Text.Length :: Text[k] == old(Text[k])
      {
        assert Renderable(font, text[i]);
        GuardedContinues(font, text, i);
        RenderedPrefixStep(font, text, i);
        PackLetter(text[i]);
        i := i + 1;
      }
    }
  }

  // ---------------------------------------------------------------------
  // The bound on the number of characters does not bound the bytes
  // ---------------------------------------------------------------------

  /** Number of characters the byte-guarded loop renders: it stops at the
      end of the text or at the first prefix at least MaxTextLen - 8 wide. */
  function GuardedCount(font: Font, text: seq<bv8>): (m: nat)
    ensures m <= |text|
    ensures m == |text| || Width(font, text[..m]) >= MaxTextLen - 8
    ensures forall j | 0 <= j < m :: Width(font, text[..j]) < MaxTextLen - 8
  {
    GuardedFrom(font, text, 0)
  }

  function GuardedFrom(font: Font, text: seq<bv8>, i: nat): (m: nat)
    requires i <= |text|
    requires forall j | 0 <= j < i :: Width(font, text[..j]) < MaxTextLen - 8
    ensures i <= m <= |text|
    ensures m == |text| || Width(font, text[..m]) >= MaxTextLen - 8
    ensures forall j | 0 <= j < m :: Width(font, text[..j]) < MaxTextLen - 8
    decreases |text| - i
  {
    if i == |text| || Width(font, text[..i]) >= MaxTextLen - 8 then i
    else GuardedFrom(font, text, i + 1)
  }

  /** While the text is not exhausted and the bytes so far are below
      MaxTextLen - 8, the guarded loop renders at least one more character. */
  lemma GuardedContinues(font: Font, text: seq<bv8>, i: nat)
    requires i < |text| && i <= GuardedCount(font, text)
    requires Width(font, text[..i]) < MaxTextLen - 8
    ensures i < GuardedCount(font, text)
  {
  }

  /** Whenever a text is at most MaxTextLen - 8 bytes wide, the guarded loop
      and the loop as written both render all of it. */
  lemma GuardedAgreesWhenNarrow(font: Font, text: seq<bv8>)
    requires Width(font, text) <= MaxTextLen - 8
    ensures GuardedCount(font, text) == |text|
    ensures Processed(text) == text
  {
    var m := GuardedCount(font, text);
    if m < |text| {
      PrefixNarrower(font, text, m);
    }
  }

  /** The loop as written admits 37 characters whose glyphs have six
      non-zero columns each, and they need 259 bytes: more than the 255 of
      Text, so RenderText writes past its end. */
  lemma OverflowWitness(font: Font, c: bv8)
    requires ValidFont(font) && Renderable(font, c)
    requires NoZero(font[c as int])
    ensures AllRenderable(font, Repeat(c, 37))
    ensures Processed(Repeat(c, 37)) == Repeat(c, 37)
    ensures Width(font, Processed(Repeat(c, 37))) == 259 > MaxTextLen
  {
    ColsOfFullGlyph(font[c as int]);
    WidthRepeat(font, c, 37, FontWidth + 1);
  }

  /** The overflow needs no particular font: 128 copies of any character
      whose glyph has a non-zero column all pass the character bound, and
      each takes at least two bytes, so together they need at least 256. */
  lemma OverflowWithAnyInkedGlyph(font: Font, c: bv8)
    requires ValidFont(font) && Renderable(font, c)
    requires !AllZero(font[c as int])
    ensures AllRenderable(font, Repeat(c, 128))
    ensures Processed(Repeat(c, 128)) == Repeat(c, 128)
    ensures Width(font, Processed(Repeat(c, 128))) >= 256 > MaxTextLen
  {
    ColsEmptyIffBlank(font[c as int]);
    var w := |Cols(font[c as int])| + 1;
    WidthRepeat(font, c, 128, w);
    assert 128 * w >= 256;
  }
}
