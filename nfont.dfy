/*
 * ngl::Font (src/nFont.cpp): lays strings out as glyph quads, caches each
 * laid-out string under a hash of the pen position and the text, keeps the
 * strings used during the last frame and hands the renderer one vertex
 * buffer and one 16-bit index buffer for all of them.
 */
module NFont {
  import opened FontTypes
  import opened TextLayout
  import opened Face
  import opened FontCache

  // ---------------------------------------------------------------------
  // Cache entries

  /** Font::CacheEntry; the vertex array it points to is held by value. */
  datatype CacheEntry = CacheEntry(hash: Hash, lastUsed: U32, verts: seq<Vertex>,
                                   positionDelta: Vec2, vertCount: nat)

  function HashOf(e: CacheEntry): Hash { e.hash }
  function LastUsed(e: CacheEntry): U32 { e.lastUsed }
  function VertCountOf(e: CacheEntry): nat { e.vertCount }

  function VertsOf(e: CacheEntry): seq<Vertex> { e.verts }

  // ---------------------------------------------------------------------
  // print

  /** The code print fetches for a character: '\n' is drawn as a space. */
  function PrintKey(c: Char8): Char8 { if c == '\n' then ' ' else c }

  /** print's pen after character c, whose glyph is g: a null glyph is
      skipped outright (even for '\n'); any other moves the pen by its
      advance, and after a '\n' the pen goes back to startX one line
      lower. */
  function PenAfter(pen: Vec2, c: Char8, g: Glyph, startX: int, lineHeight: int): Vec2
  {
    if IsNullGlyph(g) then pen
    else if c == '\n' then Vec2(startX, pen.y - lineHeight)
    else Vec2(pen.x + g.advance, pen.y)
  }

  /** print's pen after the first |gs| characters of msg, gs being the
      glyphs fetched for them. */
  function PrintPen(msg: String8, gs: seq<Glyph>, start: Vec2, lineHeight: int): Vec2
    requires |gs| <= |msg|
    decreases |gs|
  {
    if gs == [] then start
    else
      var n := |gs| - 1;
      PenAfter(PrintPen(msg, gs[..n], start, lineHeight), msg[n], gs[n], start.x, lineHeight)
  }

  /** The entry's vertices after the first |gs| characters: a non-null
      glyph's quad goes into the slot of its character. */
  function PrintVerts(msg: String8, gs: seq<Glyph>, start: Vec2, lineHeight: int, color: Color32): (vs: seq<Vertex>)
    requires |gs| <= |msg|
    ensures |vs| == 4 * |msg|
    decreases |gs|
  {
    if gs == [] then Blank(4 * |msg|)
    else
      var n := |gs| - 1;
      var vs := PrintVerts(msg, gs[..n], start, lineHeight, color);
      if IsNullGlyph(gs[n]) then vs
      else Overlay(vs, 4 * n, Quad(gs[n], PrintPen(msg, gs[..n], start, lineHeight), color))
  }

  /** The glyphs print fetched: one per character, each what get_glyph
      returns for its PrintKey. */
  predicate Fetched(msg: String8, gs: seq<Glyph>, face: FontFace)
  {
    |gs| == |msg| && forall i :: 0 <= i < |gs| ==> face.Returns(PrintKey(msg[i]), gs[i])
  }

  /** What quad slot k holds once print has fetched the glyphs gs: the
      glyph of character k drawn at the pen print had reached before it,
      or still blank when that glyph is null or not fetched yet. */
  function SlotOf(msg: String8, gs: seq<Glyph>, start: Vec2, lineHeight: int, color: Color32, k: nat): seq<Vertex>
    requires |gs| <= |msg|
  {
    if k < |gs| && !IsNullGlyph(gs[k]) then Quad(gs[k], PrintPen(msg, gs[..k], start, lineHeight), color)
    else Blank(4)
  }

  /** Print's vertices are the quad slots of its characters. */
  lemma {:induction false} PrintSlot(msg: String8, gs: seq<Glyph>, start: Vec2, lineHeight: int, color: Color32, k: nat)
    requires |gs| <= |msg| && k < |msg|
    ensures PrintVerts(msg, gs, start, lineHeight, color)[4 * k..4 * k + 4]
            == SlotOf(msg, gs, start, lineHeight, color, k)
    decreases |gs|
  {
    if gs == [] {
      assert Blank(4 * |msg|)[4 * k..4 * k + 4] == Blank(4);
    } else {
      var n := |gs| - 1;
      PrintSlot(msg, gs[..n], start, lineHeight, color, k);
      var prev := PrintVerts(msg, gs[..n], start, lineHeight, color);
      if k != n {
        SlotOfPrefix(msg, gs, start, lineHeight, color, k);
        if !IsNullGlyph(gs[n]) {
          OverlaySlot(prev, 4 * n, Quad(gs[n], PrintPen(msg, gs[..n], start, lineHeight), color), 4 * k, 4);
        }
      } else if !IsNullGlyph(gs[n]) {
        OverlayWindow(prev, 4 * n, Quad(gs[n], PrintPen(msg, gs[..n], start, lineHeight), color));
      } else {
        assert SlotOf(msg, gs[..n], start, lineHeight, color, k) == Blank(4);
      }
    }
  }

  /** Only the newest glyph's slot differs from the shorter run's. */
  lemma {:induction false} SlotOfPrefix(msg: String8, gs: seq<Glyph>, start: Vec2, lineHeight: int, color: Color32, k: nat)
    requires 0 < |gs| <= |msg| && k != |gs| - 1
    ensures SlotOf(msg, gs, start, lineHeight, color, k) == SlotOf(msg, gs[..|gs| - 1], start, lineHeight, color, k)
  {
    if k < |gs| - 1 {
      assert gs[..|gs| - 1][..k] == gs[..k];
    }
  }

  /** What print needs of the glyph it fetched for character c: the advance
      the face reports for c's PrintKey, and, when the glyph is null, a
      character that is neither a line break nor advances text_width. */
  predicate Agrees(c: Char8, g: Glyph, adv: Char8 -> nat)
  {
    g.advance == adv(PrintKey(c)) && (IsNullGlyph(g) ==> c != '\n' && adv(c) == 0)
  }

  /** After n characters print's pen stands where text_width's scan of the
      same n characters puts it. */
  lemma {:induction false} PrintPenTracksMeasure(msg: String8, gs: seq<Glyph>, start: Vec2, lineHeight: int,
                                                 adv: Char8 -> nat)
    requires |gs| <= |msg|
    requires forall i :: 0 <= i < |gs| ==> Agrees(msg[i], gs[i], adv)
    ensures PrintPen(msg, gs, start, lineHeight) == MeasuredPen(msg[..|gs|], start, lineHeight, adv)
    decreases |gs|
  {
    var n := |gs|;
    if n == 0 {
      assert msg[..0] == [];
    } else {
      var p := gs[..n - 1];
      assert forall i :: 0 <= i < |p| ==> p[i] == gs[i];
      PrintPenTracksMeasure(msg, p, start, lineHeight, adv);
      var pen := PrintPen(msg, p, start, lineHeight);
      assert Agrees(msg[n - 1], gs[n - 1], adv);
      PenStepAt(pen, msg, n, gs[n - 1], start, lineHeight, adv);
      assert PrintPen(msg, gs, start, lineHeight) == PenAfter(pen, msg[n - 1], gs[n - 1], start.x, lineHeight);
    }
  }

  /** One character more: print's pen follows text_width's open line. */
  lemma {:induction false} PenStepAt(pen: Vec2, msg: String8, n: nat, g: Glyph, start: Vec2, lineHeight: int,
                                     adv: Char8 -> nat)
    requires 0 < n <= |msg| && Agrees(msg[n - 1], g, adv)
    requires pen == MeasuredPen(msg[..n - 1], start, lineHeight, adv)
    ensures PenAfter(pen, msg[n - 1], g, start.x, lineHeight) == MeasuredPen(msg[..n], start, lineHeight, adv)
  {
    MeasuredPenAt(msg, n, start, lineHeight, adv);
  }

  /** The glyphs get_glyph returns agree with text_width's advances for
      text without NUL, provided a line break (fetched as a space) finds a
      space glyph: a glyph is null only for a character text_width
      measures as 0. */
  lemma {:induction false} FetchedAgrees(msg: String8, gs: seq<Glyph>, face: FontFace)
    requires Fetched(msg, gs, face) && NUL !in msg
    requires '\n' in msg ==> face.loaded && face.raster(' ').Some?
    ensures forall i :: 0 <= i < |gs| ==> Agrees(msg[i], gs[i], face.Adv())
  {
    forall i | 0 <= i < |gs|
      ensures Agrees(msg[i], gs[i], face.Adv())
    {
      assert msg[i] in msg;
      ReturnsNullExactly(face, PrintKey(msg[i]), gs[i]);
    }
  }

  /** print's pen, over the glyphs get_glyph returned, ends where
      text_width's scan of the whole text ends. */
  lemma {:induction false} PrintPenIsMeasure(msg: String8, gs: seq<Glyph>, face: FontFace, start: Vec2, lineHeight: int)
    requires Fetched(msg, gs, face) && NUL !in msg
    requires '\n' in msg ==> face.loaded && face.raster(' ').Some?
    ensures PrintPen(msg, gs, start, lineHeight) == MeasuredPen(msg, start, lineHeight, face.Adv())
  {
    FetchedAgrees(msg, gs, face);
    PrintPenTracksMeasure(msg, gs, start, lineHeight, face.Adv());
    assert msg[..|gs|] == msg;
  }

  /** On a single line print moves the pen right by exactly text_width(msg)
      and leaves it on its row. */
  lemma {:induction false} PrintOneLineWidth(msg: String8, gs: seq<Glyph>, face: FontFace, start: Vec2, lineHeight: int)
    requires Fetched(msg, gs, face) && NUL !in msg && '\n' !in msg
    ensures PrintPen(msg, gs, start, lineHeight) == Vec2(start.x + WidestLine(msg, face.Adv()), start.y)
  {
    PrintPenIsMeasure(msg, gs, face, start, lineHeight);
    LinesOfPlain(msg);
    MeasureOfWidths(msg, face.Adv(), [], SumAdvance(msg, face.Adv()));
    MeasureWhole(msg, face.Adv());
  }

  // ---------------------------------------------------------------------
  // cprint

  /** What cprint makes of the text: line breaks, colour escapes and
      characters to draw. */
  datatype Token = Newline | SetColor(index: nat) | Emit(c: Char8)

  predicate IsDigit(c: Char8) { '0' <= c <= '9' }

  function DigitValue(c: Char8): nat
    requires IsDigit(c)
  {
    c as int - '0' as int
  }

  /** One step of cprint's scan at index i: the token and the index the
      scan goes on from.  After '^' it reads the next character of c_str()
      (the terminator when '^' is last): "^d" and "^dd" select palette
      entry d or dd, and any other character after '^' (a second '^'
      included) is drawn in place of the caret. */
  function Scan(msg: String8, i: nat): (r: (Token, nat))
    requires i < |msg|
    ensures i < r.1 <= |msg| + 1
    ensures r.1 == |msg| + 1 ==> r.0 == Emit(NUL)
  {
    if msg[i] == '\n' then (Newline, i + 1)
    else if msg[i] != '^' then (Emit(msg[i]), i + 1)
    else
      var c := CStrAt(msg, i + 1);
      if IsDigit(c) then
        var d := CStrAt(msg, i + 2);
        if IsDigit(d) then (SetColor(10 * DigitValue(c) + DigitValue(d)), i + 3)
        else (SetColor(DigitValue(c)), i + 2)
      else (Emit(c), i + 2)
  }

  /** cprint's scan of msg from index i on: never more tokens than
      characters. */
  function TokensFrom(msg: String8, i: nat): (ts: seq<Token>)
    requires i <= |msg| + 1
    ensures i <= |msg| ==> |ts| <= |msg| - i
    ensures i == |msg| + 1 ==> ts == []
    decreases |msg| + 1 - i
  {
    if i >= |msg| then []
    else [Scan(msg, i).0] + TokensFrom(msg, Scan(msg, i).1)
  }

  /** One more token read: the tokens of msg are those read so far, then
      the ones from the index Scan stops at. */
  lemma {:induction false} TokensStep(msg: String8, i: nat, ts: seq<Token>)
    requires i < |msg| && TokensFrom(msg, 0) == ts + TokensFrom(msg, i)
    ensures TokensFrom(msg, 0) == (ts + [Scan(msg, i).0]) + TokensFrom(msg, Scan(msg, i).1)
  {
    var rest := TokensFrom(msg, Scan(msg, i).1);
    assert TokensFrom(msg, i) == [Scan(msg, i).0] + rest;
    assert ts + ([Scan(msg, i).0] + rest) == (ts + [Scan(msg, i).0]) + rest;
  }

  /** Every colour index has at most two digits. */
  lemma {:induction false} TokensBounds(msg: String8, i: nat)
    requires i <= |msg| + 1
    ensures forall t :: t in TokensFrom(msg, i) && t.SetColor? ==> t.index < 100
    decreases |msg| + 1 - i
  {
    if i < |msg| {
      TokensBounds(msg, Scan(msg, i).1);
    }
  }

  /** The tokens of a text without '^': its characters, with '\n' as line
      breaks. */
  function Plain(msg: String8): seq<Token>
    decreases |msg|
  {
    if msg == [] then []
    else [if msg[0] == '\n' then Newline else Emit(msg[0])] + Plain(msg[1..])
  }

  lemma {:induction false} TokensOfPlain(msg: String8, i: nat)
    requires i <= |msg| && '^' !in msg[i..]
    ensures TokensFrom(msg, i) == Plain(msg[i..])
    decreases |msg| - i
  {
    if i < |msg| {
      assert msg[i..][0] == msg[i] && msg[i..][1..] == msg[i + 1..];
      TokensOfPlain(msg, i + 1);
    }
  }

  /** The escapes at work: two digits, one digit, a doubled caret, and a
      caret at the very end that draws the terminator. */
  lemma {:induction false} EscapeExamples()
    ensures TokensFrom("^12a", 0) == [SetColor(12), Emit('a')]
    ensures TokensFrom("^3a", 0) == [SetColor(3), Emit('a')]
    ensures TokensFrom("^^", 0) == [Emit('^')]
    ensures TokensFrom("a^", 0) == [Emit('a'), Emit(NUL)]
    ensures TokensFrom("^x\n", 0) == [Emit('x'), Newline]
  {
    assert TokensFrom("^12a", 4) == [];
    assert TokensFrom("^12a", 3) == [Emit('a')];
    assert TokensFrom("^3a", 2) == [Emit('a')];
    assert TokensFrom("^^", 2) == [];
    assert TokensFrom("a^", 3) == [];
    assert TokensFrom("a^", 1) == [Emit(NUL)];
    assert TokensFrom("^x\n", 2) == [Newline];
  }

  /** colors[index]: the 16-entry palette, and whatever memory lies past it
      for an index of 16 or more. */
  function Palette(index: nat, beyond: nat -> Color32): Color32
  {
    if index < 16 then
      [White, RedColor, GreenColor, LightGreen, DarkGreen, BlueColor, LightBlue, Yellow,
       Grey, Black, LightGrey, DarkGrey, LightRed, DarkRed, DarkBlue, Orange][index]
    else beyond(index - 16)
  }

  /** The palette in source order, white first and orange last; an index
      past it reads the memory that follows. */
  lemma {:induction false} PaletteEntries(beyond: nat -> Color32)
    ensures Palette(0, beyond) == White && Palette(1, beyond) == RedColor && Palette(2, beyond) == GreenColor
    ensures Palette(3, beyond) == LightGreen && Palette(4, beyond) == DarkGreen && Palette(5, beyond) == BlueColor
    ensures Palette(6, beyond) == LightBlue && Palette(7, beyond) == Yellow && Palette(8, beyond) == Grey
    ensures Palette(9, beyond) == Black && Palette(10, beyond) == LightGrey && Palette(11, beyond) == DarkGrey
    ensures Palette(12, beyond) == LightRed && Palette(13, beyond) == DarkRed && Palette(14, beyond) == DarkBlue
    ensures Palette(15, beyond) == Orange
    ensures forall i :: 16 <= i ==> Palette(i, beyond) == beyond(i - 16)
  {
  }

  /** cprint's pen, current colour and quads drawn so far. */
  datatype Brush = Brush(pen: Vec2, color: Color32, quads: nat)

  /** cprint's loop body on its locals for token t, whose glyph (for an
      Emit token) is g. */
  function BrushAfter(b: Brush, t: Token, g: Glyph, startX: int, lineHeight: int, beyond: nat -> Color32): Brush
  {
    match t
    case Newline => b.(pen := Vec2(startX, b.pen.y - lineHeight))
    case SetColor(x) => b.(color := Palette(x, beyond))
    case Emit(_) =>
      if IsNullGlyph(g) then b
      else Brush(Vec2(b.pen.x + g.advance, b.pen.y), b.color, b.quads + 1)
  }

  /** cprint's locals after the tokens ts; gs holds the glyph fetched for
      each Emit token (the others' entries are not looked at). */
  function CBrush(ts: seq<Token>, gs: seq<Glyph>, start: Vec2, lineHeight: int, beyond: nat -> Color32): (b: Brush)
    requires |gs| == |ts|
    ensures b.quads <= |ts|
    decreases |ts|
  {
    if ts == [] then Brush(start, White, 0)
    else
      var n := |ts| - 1;
      BrushAfter(CBrush(ts[..n], gs[..n], start, lineHeight, beyond), ts[n], gs[n], start.x, lineHeight, beyond)
  }

  /** The entry's vertices after the tokens ts: every drawn glyph's quad
      goes into the next free slot, in the colour then current. */
  function CVerts(ts: seq<Token>, gs: seq<Glyph>, start: Vec2, lineHeight: int, size: nat,
                  beyond: nat -> Color32): (vs: seq<Vertex>)
    requires |gs| == |ts| && 4 * |ts| <= size
    ensures |vs| == size
    decreases |ts|
  {
    if ts == [] then Blank(size)
    else
      var n := |ts| - 1;
      var vs := CVerts(ts[..n], gs[..n], start, lineHeight, size, beyond);
      var b := CBrush(ts[..n], gs[..n], start, lineHeight, beyond);
      if ts[n].Emit? && !IsNullGlyph(gs[n]) then Overlay(vs, 4 * b.quads, Quad(gs[n], b.pen, b.color))
      else vs
  }

  /** cprint packs its quads: the vertices past the last drawn quad stay
      blank. */
  lemma {:induction false} CVertsPacked(ts: seq<Token>, gs: seq<Glyph>, start: Vec2, lineHeight: int, size: nat,
                                        beyond: nat -> Color32)
    requires |gs| == |ts| && 4 * |ts| <= size
    ensures forall j :: 4 * CBrush(ts, gs, start, lineHeight, beyond).quads <= j < size ==>
              CVerts(ts, gs, start, lineHeight, size, beyond)[j] == BlankVertex
    decreases |ts|
  {
    if ts != [] {
      var n := |ts| - 1;
      var vs := CVerts(ts[..n], gs[..n], start, lineHeight, size, beyond);
      var b := CBrush(ts[..n], gs[..n], start, lineHeight, beyond);
      CVertsPacked(ts[..n], gs[..n], start, lineHeight, size, beyond);
      if ts[n].Emit? && !IsNullGlyph(gs[n]) {
        OverlayAt(vs, 4 * b.quads, Quad(gs[n], b.pen, b.color));
      }
    }
  }

  /** The glyphs cprint fetched: one slot per token, and an Emit token's
      glyph is what get_glyph returns for its character. */
  predicate CFetched(ts: seq<Token>, gs: seq<Glyph>, face: FontFace)
  {
    |gs| == |ts| && forall k :: 0 <= k < |ts| && ts[k].Emit? ==> face.Returns(ts[k].c, gs[k])
  }

  // ---------------------------------------------------------------------
  // Font

  class Font {
    /** m_face */
    const face: FontFace
    /** m_position: where the next string starts. */
    var position: Vec2
    /** m_requestedPosition: where update_cache puts the pen back. */
    var requestedPosition: Vec2
    /** m_vertCount */
    var vertCount: nat
    /** m_counter: the current generation. */
    var counter: U32
    /** m_cache */
    var cache: seq<CacheEntry>
    /** m_cacheUpdated: vertCount is current. */
    var cacheUpdated: bool
    /** m_cacheTTL */
    const cacheTTL: U32

    ghost predicate Valid()
      reads this, face, face.atlas
    {
      face.Valid() && Packed(cache, VertsOf, VertCountOf)
      && (cacheUpdated ==> vertCount == SumOf(cache, VertCountOf))
    }

    /** Font(face, sizeInPt): a fresh face, generation 0, an empty cache
        kept for one generation. */
    constructor (loaded: bool, raster: Char8 -> Option<Raster>, maxSize: Size2, texture: nat)
      ensures Valid() && fresh(face) && fresh(face.atlas)
      ensures face.loaded == loaded && face.raster == raster && face.maxSize == maxSize
      ensures counter == 0 && vertCount == 0 && !cacheUpdated && cacheTTL == 1 && cache == []
      ensures position == Zero && requestedPosition == Zero
    {
      face := new FontFace(loaded, raster, maxSize, texture);
      counter, vertCount, cacheUpdated, cacheTTL := 0, 0, false, 1;
      cache := [];
      position, requestedPosition := Zero, Zero;
    }

    /** vertex_count(): the vertices get_geometry writes, once update_cache
        has run since the last new string. */
    function VertexCount(): (n: nat)
      reads this
      ensures cacheUpdated ==> n == vertCount
      ensures !cacheUpdated ==> n == InvalidIndex
    {
      if cacheUpdated then vertCount else InvalidIndex
    }

    /** tri_count(): vertCount >> 1. */
    function TriCount(): (n: nat)
      reads this
      ensures cacheUpdated ==> n == vertCount / 2
      ensures !cacheUpdated ==> n == InvalidIndex
    {
      if cacheUpdated then vertCount / 2 else InvalidIndex
    }

    /** set_position(position) */
    method SetPosition(p: Vec2)
      modifies this
      ensures position == p && requestedPosition == p
      ensures cache == old(cache) && vertCount == old(vertCount) && counter == old(counter)
      ensures cacheUpdated == old(cacheUpdated)
    {
      position, requestedPosition := p, p;
    }

    /** init_position(screenHeight): five pixels from the left, one
        maximal glyph height below the top. */
    method InitPosition(screenHeight: int)
      modifies this
      ensures position == Vec2(5, screenHeight - face.maxSize.height) && requestedPosition == position
      ensures cache == old(cache) && vertCount == old(vertCount) && counter == old(counter)
      ensures cacheUpdated == old(cacheUpdated)
    {
      SetPosition(Vec2(5, screenHeight - face.maxSize.height));
    }

    /** find_cached(msg): the entry for msg printed at the current pen. */
    method FindCached(msg: String8) returns (k: Option<nat>)
      ensures k == Hit(cache, HashOf, position, msg)
    {
      var key := ComputeCacheKey(position, msg);
      k := FindFirst(cache, HashOf, key);
    }

    /** cache(msg): appends an entry for msg at the current pen, with room
        for one quad per character, and marks the vertex count stale. */
    method Cache(msg: String8) returns (k: nat)
      requires Valid()
      modifies this
      ensures Valid()
      ensures k == |old(cache)|
      ensures cache == old(cache) + [CacheEntry(CacheKey(position, msg), counter, Blank(4 * |msg|), Zero, 4 * |msg|)]
      ensures !cacheUpdated
      ensures position == old(position) && requestedPosition == old(requestedPosition)
      ensures counter == old(counter) && vertCount == old(vertCount)
    {
      var key := ComputeCacheKey(position, msg);
      cache := cache + [CacheEntry(key, counter, Blank(4 * |msg|), Zero, 4 * |msg|)];
      cacheUpdated := false;
      k := |cache| - 1;
    }

    /** A string already cached at this pen: the entry is marked used in
        this generation and the pen moves by its recorded delta. */
    method Reuse(k: nat)
      requires Valid() && k < |cache|
      modifies this
      ensures Valid()
      ensures cache == old(cache)[k := old(cache)[k].(lastUsed := counter)]
      ensures position == Add(old(position), old(cache)[k].positionDelta)
      ensures requestedPosition == old(requestedPosition) && counter == old(counter)
      ensures vertCount == old(vertCount) && cacheUpdated == old(cacheUpdated)
    {
      SumOfReplace(cache, k, cache[k].(lastUsed := counter), VertCountOf);
      position := Add(position, cache[k].positionDelta);
      cache := cache[k := cache[k].(lastUsed := counter)];
    }

    /** print's loop: the glyph quads of msg laid out from `start`. */
    method LayOut(msg: String8, color: Color32, start: Vec2) returns (pen: Vec2, verts: seq<Vertex>, ghost gs: seq<Glyph>)
      requires face.Valid()
      modifies face, face.atlas
      ensures face.Valid()
      ensures Fetched(msg, gs, face)
      ensures pen == PrintPen(msg, gs, start, face.maxSize.height)
      ensures verts == PrintVerts(msg, gs, start, face.maxSize.height, color)
      ensures NUL !in msg && ('\n' in msg ==> face.loaded && face.raster(' ').Some?) ==>
                pen == MeasuredPen(msg, start, face.maxSize.height, face.Adv())
      ensures NUL !in msg && '\n' !in msg ==> pen == Vec2(start.x + WidestLine(msg, face.Adv()), start.y)
    {
      var buf := new Vertex[4 * |msg|](_ => BlankVertex);
      pen, gs := start, [];
      assert buf[..] == Blank(4 * |msg|);
      for i := 0 to |msg|
        invariant face.Valid()
        invariant |gs| == i && forall j :: 0 <= j < i ==> face.Returns(PrintKey(msg[j]), gs[j])
        invariant pen == PrintPen(msg, gs, start, face.maxSize.height)
        invariant buf[..] == PrintVerts(msg, gs, start, face.maxSize.height, color)
      {
        gs, pen := PrintAt(msg, color, start, buf, i, gs, pen);
      }
      verts := buf[..];
      if NUL !in msg && ('\n' in msg ==> face.loaded && face.raster(' ').Some?) {
        PrintPenIsMeasure(msg, gs, face, start, face.maxSize.height);
      }
      if NUL !in msg && '\n' !in msg {
        PrintOneLineWidth(msg, gs, face, start, face.maxSize.height);
      }
    }

    /** One pass of print's loop: fetches the glyph for character i (a
        space for a line break), draws it into quad slot i unless it is
        null, and moves the pen on. */
    method PrintAt(msg: String8, color: Color32, start: Vec2, buf: array<Vertex>, i: nat, ghost gs: seq<Glyph>, pen: Vec2)
      returns (ghost gs': seq<Glyph>, pen': Vec2)
      requires face.Valid() && buf.Length == 4 * |msg| && i < |msg|
      requires |gs| == i && forall j :: 0 <= j < i ==> face.Returns(PrintKey(msg[j]), gs[j])
      requires pen == PrintPen(msg, gs, start, face.maxSize.height)
      requires buf[..] == PrintVerts(msg, gs, start, face.maxSize.height, color)
      modifies face, face.atlas, buf
      ensures face.Valid()
      ensures |gs'| == i + 1 && forall j :: 0 <= j < i + 1 ==> face.Returns(PrintKey(msg[j]), gs'[j])
      ensures pen' == PrintPen(msg, gs', start, face.maxSize.height)
      ensures buf[..] == PrintVerts(msg, gs', start, face.maxSize.height, color)
    {
      var g := face.GetGlyph(if msg[i] == '\n' then ' ' else msg[i]);
      gs', pen' := gs + [g], pen;
      assert gs'[..i] == gs;
      if IsNullGlyph(g) {
        return;
      }
      Generate(buf, i, g, pen, color);
      pen' := Vec2(pen.x + g.advance, pen.y);
      if msg[i] == '\n' {
        pen' := Vec2(start.x, pen'.y - face.maxSize.height);
      }
    }

    /** print(msg, color) */
    method Print(msg: String8, color: Color32) returns (ghost gs: seq<Glyph>)
      requires Valid()
      modifies this, face, face.atlas
      ensures Valid()
      ensures requestedPosition == old(requestedPosition) && counter == old(counter)
      ensures msg == [] ==>
                cache == old(cache) && position == old(position)
                && vertCount == old(vertCount) && cacheUpdated == old(cacheUpdated)
      ensures (msg == [] || Hit(old(cache), HashOf, old(position), msg).Some?) ==>
                face.glyphs == old(face.glyphs) && unchanged(face.atlas)
      ensures msg != [] && Hit(old(cache), HashOf, old(position), msg).Some? ==>
                var k := Hit(old(cache), HashOf, old(position), msg).value;
                && cache == old(cache)[k := old(cache)[k].(lastUsed := counter)]
                && position == Add(old(position), old(cache)[k].positionDelta)
                && vertCount == old(vertCount) && cacheUpdated == old(cacheUpdated)
      ensures msg != [] && Hit(old(cache), HashOf, old(position), msg).None? ==>
                && Fetched(msg, gs, face)
                && var pen := PrintPen(msg, gs, old(position), face.maxSize.height);
                && cache == old(cache) + [CacheEntry(CacheKey(old(position), msg), counter,
                                                     PrintVerts(msg, gs, old(position), face.maxSize.height, color),
                                                     Sub(pen, old(position)), 4 * |msg|)]
                && position == pen && vertCount == old(vertCount) && !cacheUpdated
      ensures msg != [] && Hit(old(cache), HashOf, old(position), msg).None? && NUL !in msg
              && ('\n' in msg ==> face.loaded && face.raster(' ').Some?) ==>
                position == MeasuredPen(msg, old(position), face.maxSize.height, face.Adv())
      ensures msg != [] && Hit(old(cache), HashOf, old(position), msg).None? && NUL !in msg && '\n' !in msg ==>
                position == Vec2(old(position).x + WidestLine(msg, face.Adv()), old(position).y)
    {
      gs := [];
      if msg == [] {
        return;
      }
      var cached := FindCached(msg);
      if cached.Some? {
        Reuse(cached.value);
        return;
      }
      var k := Cache(msg);
      var pen, verts;
      pen, verts, gs := LayOut(msg, color, position);
      var e := cache[k].(verts := verts, positionDelta := Sub(pen, position));
      FillLast(old(cache), cache[k], e, VertsOf, VertCountOf);
      cache := cache[k := e];
      position := pen;
    }

    /** The part of cprint's loop body after the newline and escape tests:
        fetches the glyph for c and draws it into quad slot vi unless it is
        null. */
    method Draw(c: Char8, pen: Vec2, color: Color32, vi: nat, buf: array<Vertex>) returns (g: Glyph, pen': Vec2, vi': nat)
      requires face.Valid() && 4 * vi + 4 <= buf.Length
      modifies face, face.atlas, buf
      ensures face.Valid()
      ensures face.Returns(c, g)
      ensures IsNullGlyph(g) ==> pen' == pen && vi' == vi && buf[..] == old(buf[..])
      ensures !IsNullGlyph(g) ==>
                pen' == Vec2(pen.x + g.advance, pen.y) && vi' == vi + 1
                && buf[..] == Overlay(old(buf[..]), 4 * vi, Quad(g, pen, color))
    {
      g := face.GetGlyph(c);
      pen', vi' := pen, vi;
      if !IsNullGlyph(g) {
        Generate(buf, vi, g, pen, color);
        pen', vi' := Vec2(pen.x + g.advance, pen.y), vi + 1;
      }
    }

    /** One pass of cprint's loop from index i: acts on the token Scan
        reads there. */
    method CPrintAt(msg: String8, start: Vec2, beyond: nat -> Color32, buf: array<Vertex>, i: nat,
                    ghost ts: seq<Token>, ghost gs: seq<Glyph>, pen: Vec2, color: Color32, vi: nat)
      returns (i': nat, ghost ts': seq<Token>, ghost gs': seq<Glyph>, pen': Vec2, color': Color32, vi': nat)
      requires face.Valid() && buf.Length == 4 * |msg| && i < |msg|
      requires |ts| <= i && CFetched(ts, gs, face)
      requires Brush(pen, color, vi) == CBrush(ts, gs, start, face.maxSize.height, beyond)
      requires buf[..] == CVerts(ts, gs, start, face.maxSize.height, 4 * |msg|, beyond)
      modifies face, face.atlas, buf
      ensures face.Valid()
      ensures ts' == ts + [Scan(msg, i).0] && i' == Scan(msg, i).1
      ensures |ts'| <= i' && |ts'| <= |msg| && CFetched(ts', gs', face)
      ensures Brush(pen', color', vi') == CBrush(ts', gs', start, face.maxSize.height, beyond)
      ensures buf[..] == CVerts(ts', gs', start, face.maxSize.height, 4 * |msg|, beyond)
    {
      var sc := Scan(msg, i);
      var t := sc.0;
      i' := sc.1;
      ts', gs', pen', color', vi' := ts + [t], gs + [NullGlyph], pen, color, vi;
      match t {
        case Newline =>
          pen' := Vec2(start.x, pen.y - face.maxSize.height);
        case SetColor(x) =>
          color' := Palette(x, beyond);
        case Emit(c) =>
          var g;
          g, pen', vi' := Draw(c, pen, color, vi, buf);
          gs' := gs + [g];
      }
      assert ts'[..|ts|] == ts && gs'[..|gs|] == gs;
    }

    /** cprint's loop: the tokens of msg rendered from `start`. */
    method CLayOut(msg: String8, start: Vec2, beyond: nat -> Color32)
      returns (b: Brush, verts: seq<Vertex>, ghost gs: seq<Glyph>)
      requires face.Valid()
      modifies face, face.atlas
      ensures face.Valid()
      ensures CFetched(TokensFrom(msg, 0), gs, face)
      ensures b == CBrush(TokensFrom(msg, 0), gs, start, face.maxSize.height, beyond)
      ensures verts == CVerts(TokensFrom(msg, 0), gs, start, face.maxSize.height, 4 * |msg|, beyond)
      ensures 4 * b.quads <= |verts| == 4 * |msg|
    {
      var pen, color, vi;
      var buf := new Vertex[4 * |msg|](_ => BlankVertex);
      pen, color, vi, gs := start, White, 0, [];
      ghost var ts: seq<Token> := [];
      var i := 0;
      assert buf[..] == Blank(4 * |msg|);
      while i < |msg|
        invariant face.Valid() && i <= |msg| + 1
        invariant |ts| <= i && |ts| <= |msg| && CFetched(ts, gs, face)
        invariant TokensFrom(msg, 0) == ts + TokensFrom(msg, i)
        invariant Brush(pen, color, vi) == CBrush(ts, gs, start, face.maxSize.height, beyond)
        invariant buf[..] == CVerts(ts, gs, start, face.maxSize.height, 4 * |msg|, beyond)
        decreases |msg| + 1 - i
      {
        TokensStep(msg, i, ts);
        i, ts, gs, pen, color, vi := CPrintAt(msg, start, beyond, buf, i, ts, gs, pen, color, vi);
      }
      assert TokensFrom(msg, i) == [];
      assert ts + [] == ts;
      b, verts := Brush(pen, color, vi), buf[..];
    }

    /** cprint(msg), with `beyond` standing for the memory past the
        16-colour palette that an escape of 16 to 99 reads. */
    method CPrint(msg: String8, beyond: nat -> Color32) returns (ghost gs: seq<Glyph>)
      requires Valid()
      modifies this, face, face.atlas
      ensures Valid()
      ensures requestedPosition == old(requestedPosition) && counter == old(counter)
      ensures msg == [] ==>
                cache == old(cache) && position == old(position)
                && vertCount == old(vertCount) && cacheUpdated == old(cacheUpdated)
      ensures (msg == [] || Hit(old(cache), HashOf, old(position), msg).Some?) ==>
                face.glyphs == old(face.glyphs) && unchanged(face.atlas)
      ensures msg != [] && Hit(old(cache), HashOf, old(position), msg).Some? ==>
                var k := Hit(old(cache), HashOf, old(position), msg).value;
                && cache == old(cache)[k := old(cache)[k].(lastUsed := counter)]
                && position == Add(old(position), old(cache)[k].positionDelta)
                && vertCount == old(vertCount) && cacheUpdated == old(cacheUpdated)
      ensures msg != [] && Hit(old(cache), HashOf, old(position), msg).None? ==>
                && CFetched(TokensFrom(msg, 0), gs, face)
                && var ts := TokensFrom(msg, 0);
                && var b := CBrush(ts, gs, old(position), face.maxSize.height, beyond);
                && cache == old(cache) + [CacheEntry(CacheKey(old(position), msg), counter,
                                                     CVerts(ts, gs, old(position), face.maxSize.height, 4 * |msg|, beyond),
                                                     Sub(b.pen, old(position)), 4 * b.quads)]
                && position == b.pen && vertCount == old(vertCount) && !cacheUpdated
    {
      gs := [];
      if msg == [] {
        return;
      }
      var cached := FindCached(msg);
      if cached.Some? {
        Reuse(cached.value);
        return;
      }
      var k := Cache(msg);
      var b, verts;
      b, verts, gs := CLayOut(msg, position, beyond);
      var e := cache[k].(verts := verts, positionDelta := Sub(b.pen, position), vertCount := 4 * b.quads);
      WholeQuads(b.quads);
      FillLast(old(cache), cache[k], e, VertsOf, VertCountOf);
      cache := cache[k := e];
      position := b.pen;
    }

    /** update_cache(): starts a new generation, keeps the entries used in
        the one that ended, totals their vertices and puts the pen back at
        the requested position. */
    method UpdateCache()
      requires Valid()
      modifies this
      ensures Valid()
      ensures counter == ToU32(old(counter) + 1)
      ensures cache == Survivors(old(cache), LastUsed, cacheTTL, old(counter))
      ensures vertCount == SumOf(cache, VertCountOf) && cacheUpdated
      ensures position == old(requestedPosition) && requestedPosition == old(requestedPosition)
    {
      PreviousGeneration(counter);
      counter := ToU32(counter + 1);
      var generation := ToU32(counter - 1);
      assert generation == old(counter);
      var kept, total := Reap(cache, LastUsed, VertCountOf, cacheTTL, generation);
      SurvivorsPacked(cache, VertsOf, VertCountOf, LastUsed, cacheTTL, generation);
      cache, vertCount := kept, total;
      cacheUpdated := true;
      position := requestedPosition;
    }

    /** get_geometry(vb, ib, texID): every entry's vertices one after the
        other, then two triangles per quad over all of them, and the atlas
        texture. */
    method GetGeometry(vb: array<Vertex>, ib: array<Triangle16>) returns (texID: nat)
      requires Valid()
      requires SumOf(cache, VertCountOf) <= vb.Length && SumOf(cache, VertCountOf) / 2 <= ib.Length
      modifies vb, ib
      ensures vb[..] == Overlay(old(vb[..]), 0, Copied(cache, VertsOf, VertCountOf))
      ensures ib[..] == Overlay(old(ib[..]), 0, Triangulation(0, |Copied(cache, VertsOf, VertCountOf)| / 4))
      ensures texID == face.atlas.texture
    {
      CopiedLength(cache, VertsOf, VertCountOf);
      ghost var vb0 := vb[..];
      var vOff := 0;
      for j := 0 to |cache|
        invariant Packed(cache[..j], VertsOf, VertCountOf)
        invariant vOff == |Copied(cache[..j], VertsOf, VertCountOf)| && vOff <= vb.Length
        invariant vb[..] == Overlay(vb0, 0, Copied(cache[..j], VertsOf, VertCountOf))
        invariant ib[..] == old(ib[..])
      {
        vOff := CopyEntry(vb, vb0, cache, VertsOf, VertCountOf, j, vOff);
      }
      assert cache[..|cache|] == cache;
      WriteTriangles(ib, 0, 0, vOff);
      texID := face.atlas.texture;
    }
  }

  lemma {:induction false} WholeQuads(quads: nat)
    ensures (4 * quads) % 4 == 0
  {
  }

  /** get_geometry is repeatable: a second call with nothing printed in
      between leaves both buffers as the first call left them. */
  lemma {:induction false} GeometryIsRepeatable(f: Font, vb: seq<Vertex>, ib: seq<Triangle16>)
    requires f.Valid()
    requires SumOf(f.cache, VertCountOf) <= |vb| && SumOf(f.cache, VertCountOf) / 2 <= |ib|
    ensures var vs := Copied(f.cache, VertsOf, VertCountOf);
            var once := Overlay(vb, 0, vs);
            Overlay(once, 0, vs) == once
    ensures var ts := Triangulation(0, |Copied(f.cache, VertsOf, VertCountOf)| / 4);
            var once := Overlay(ib, 0, ts);
            Overlay(once, 0, ts) == once
  {
    var vs := Copied(f.cache, VertsOf, VertCountOf);
    CopiedLength(f.cache, VertsOf, VertCountOf);
    QuadHalves(|vs|);
    OverlayTwice(vb, 0, vs);
    OverlayTwice(ib, 0, Triangulation(0, |vs| / 4));
  }

  /** Once update_cache has run, vertex_count() and tri_count() are exactly
      what get_geometry writes: a vertex buffer and an index buffer of
      those sizes are filled to the end. */
  lemma {:induction false} CountsSizeGeometry(f: Font)
    requires f.Valid() && f.cacheUpdated
    ensures f.VertexCount() == |Copied(f.cache, VertsOf, VertCountOf)|
    ensures f.TriCount() == |Triangulation(0, |Copied(f.cache, VertsOf, VertCountOf)| / 4)|
  {
    CopiedLength(f.cache, VertsOf, VertCountOf);
    QuadHalves(f.vertCount);
  }
}
