/*
 * The older ngl::Font (src/Font.cpp): the same cache of laid-out strings
 * as the newer Font, but every entry also keeps its own triangle list,
 * print handles a line break without fetching a glyph, and there is no
 * cprint.  get_geometry builds the index buffer entry by entry.
 */
module LegacyFont {
  import opened FontTypes
  import opened TextLayout
  import opened Face
  import opened FontCache

  /** Font::CacheEntry, with its own triangle array. */
  datatype CacheEntry = CacheEntry(hash: Hash, lastUsed: U32, verts: seq<Vertex>, positionDelta: Vec2,
                                   tris: seq<Triangle16>, vertCount: nat)

  function HashOf(e: CacheEntry): Hash { e.hash }
  function LastUsed(e: CacheEntry): U32 { e.lastUsed }
  function VertCountOf(e: CacheEntry): nat { e.vertCount }
  function VertsOf(e: CacheEntry): seq<Vertex> { e.verts }

  /** A triangle slot nothing has written yet (the source leaves it
      uninitialised). */
  const BlankTriangle: Triangle16 := Triangle16(0, 0, 0)

  function BlankTris(n: nat): (r: seq<Triangle16>)
    ensures |r| == n
    ensures forall j :: 0 <= j < n ==> r[j] == BlankTriangle
  {
    seq(n, _ => BlankTriangle)
  }

  // ---------------------------------------------------------------------
  // print

  /** print's loop body on its pen: a line break goes back to the start
      column one line lower without a glyph, a null glyph leaves the pen,
      any other glyph moves it right by its advance. */
  function PenAfter(pen: Vec2, c: Char8, g: Glyph, startX: int, lineHeight: int): Vec2
  {
    if c == '\n' then Vec2(startX, pen.y - lineHeight)
    else if IsNullGlyph(g) then pen
    else Vec2(pen.x + g.advance, pen.y)
  }

  /** print's pen after the first |gs| characters of msg; gs[i] is the
      glyph fetched for character i (NullGlyph for a line break, which
      fetches none). */
  function PrintPen(msg: String8, gs: seq<Glyph>, start: Vec2, lineHeight: int): Vec2
    requires |gs| <= |msg|
    decreases |gs|
  {
    if gs == [] then start
    else
      var n := |gs| - 1;
      PenAfter(PrintPen(msg, gs[..n], start, lineHeight), msg[n], gs[n], start.x, lineHeight)
  }

  /** Character c gets a quad and two triangles. */
  predicate Drawn(c: Char8, g: Glyph)
  {
    c != '\n' && !IsNullGlyph(g)
  }

  /** The entry's vertices after the first |gs| characters: quad i holds
      character i's glyph at the pen reached before it. */
  function PrintVerts(msg: String8, gs: seq<Glyph>, start: Vec2, lineHeight: int, color: Color32): (vs: seq<Vertex>)
    requires |gs| <= |msg|
    ensures |vs| == 4 * |msg|
    decreases |gs|
  {
    if gs == [] then Blank(4 * |msg|)
    else
      var n := |gs| - 1;
      var vs := PrintVerts(msg, gs[..n], start, lineHeight, color);
      if Drawn(msg[n], gs[n]) then Overlay(vs, 4 * n, Quad(gs[n], PrintPen(msg, gs[..n], start, lineHeight), color))
      else vs
  }

  /** The entry's triangles after the first |gs| characters: triangles 2i
      and 2i+1 are those of quad i. */
  function PrintTris(msg: String8, gs: seq<Glyph>): (ts: seq<Triangle16>)
    requires |gs| <= |msg|
    ensures |ts| == 2 * |msg|
    decreases |gs|
  {
    if gs == [] then BlankTris(2 * |msg|)
    else
      var n := |gs| - 1;
      var ts := PrintTris(msg, gs[..n]);
      if Drawn(msg[n], gs[n]) then Overlay(ts, 2 * n, QuadTris(4 * n)) else ts
  }

  /** What print fetched for character c: nothing for a line break, else
      what get_glyph returns for c. */
  predicate FetchedAt(c: Char8, g: Glyph, face: FontFace)
  {
    if c == '\n' then g == NullGlyph else face.Returns(c, g)
  }

  predicate Fetched(msg: String8, gs: seq<Glyph>, face: FontFace)
  {
    |gs| == |msg| && forall i :: 0 <= i < |gs| ==> FetchedAt(msg[i], gs[i], face)
  }

  /** What the pen needs of the glyph of a character other than a line
      break: the face's advance, and none when the glyph is null. */
  predicate Agrees(c: Char8, g: Glyph, adv: Char8 -> nat)
  {
    c != '\n' ==> g.advance == adv(c) && (IsNullGlyph(g) ==> adv(c) == 0)
  }

  /** After n characters print's pen stands where text_width's scan of the
      same n characters puts it. */
  lemma {:induction false} PrintPenTracksMeasure(msg: String8, gs: seq<Glyph>, start: Vec2, lineHeight: int,
                                                 adv: Char8 -> nat)
    requires |gs| <= |msg|
    requires forall i :: 0 <= i < |gs| ==> Agrees(msg[i], gs[i], adv)
    ensures PrintPen(msg, gs, start, lineHeight) == MeasuredPen(msg[..|gs|], start, lineHeight, adv)
    decreases |gs|
  {
    var n := |gs|;
    if n == 0 {
      assert msg[..0] == [];
    } else {
      var p := gs[..n - 1];
      assert forall i :: 0 <= i < |p| ==> p[i] == gs[i];
      PrintPenTracksMeasure(msg, p, start, lineHeight, adv);
      var pen := PrintPen(msg, p, start, lineHeight);
      assert Agrees(msg[n - 1], gs[n - 1], adv);
      PenStepAt(pen, msg, n, gs[n - 1], start, lineHeight, adv);
      assert PrintPen(msg, gs, start, lineHeight) == PenAfter(pen, msg[n - 1], gs[n - 1], start.x, lineHeight);
    }
  }

  /** The glyphs get_glyph returns agree with text_width's advances for
      text without NUL: a glyph is null only for a character text_width
      measures as 0. */
  lemma {:induction false} FetchedAgrees(msg: String8, gs: seq<Glyph>, face: FontFace)
    requires Fetched(msg, gs, face) && NUL !in msg
    ensures forall i :: 0 <= i < |gs| ==> Agrees(msg[i], gs[i], face.Adv())
  {
    forall i | 0 <= i < |gs| && msg[i] != '\n'
      ensures Agrees(msg[i], gs[i], face.Adv())
    {
      assert msg[i] in msg;
      ReturnsNullExactly(face, msg[i], gs[i]);
    }
  }

  /** print's pen, over the glyphs get_glyph returned, ends where
      text_width's scan of the whole text ends. */
  lemma {:induction false} PrintPenIsMeasure(msg: String8, gs: seq<Glyph>, face: FontFace, start: Vec2, lineHeight: int)
    requires Fetched(msg, gs, face) && NUL !in msg
    ensures PrintPen(msg, gs, start, lineHeight) == MeasuredPen(msg, start, lineHeight, face.Adv())
  {
    FetchedAgrees(msg, gs, face);
    PrintPenTracksMeasure(msg, gs, start, lineHeight, face.Adv());
    assert msg[..|gs|] == msg;
  }

  /** On a single line print moves the pen right by exactly text_width(msg)
      and leaves it on its row. */
  lemma {:induction false} PrintOneLineWidth(msg: String8, gs: seq<Glyph>, face: FontFace, start: Vec2, lineHeight: int)
    requires Fetched(msg, gs, face) && NUL !in msg && '\n' !in msg
    ensures PrintPen(msg, gs, start, lineHeight) == Vec2(start.x + WidestLine(msg, face.Adv()), start.y)
  {
    PrintPenIsMeasure(msg, gs, face, start, lineHeight);
    LinesOfPlain(msg);
    MeasureOfWidths(msg, face.Adv(), [], SumAdvance(msg, face.Adv()));
    MeasureWhole(msg, face.Adv());
  }

  /** One character more: print's pen follows text_width's open line. */
  lemma {:induction false} PenStepAt(pen: Vec2, msg: String8, n: nat, g: Glyph, start: Vec2, lineHeight: int,
                                     adv: Char8 -> nat)
    requires 0 < n <= |msg| && Agrees(msg[n - 1], g, adv)
    requires pen == MeasuredPen(msg[..n - 1], start, lineHeight, adv)
    ensures PenAfter(pen, msg[n - 1], g, start.x, lineHeight) == MeasuredPen(msg[..n], start, lineHeight, adv)
  {
    MeasuredPenAt(msg, n, start, lineHeight, adv);
  }

  /** What quad slot k holds once print has fetched the glyphs gs. */
  function SlotOf(msg: String8, gs: seq<Glyph>, start: Vec2, lineHeight: int, color: Color32, k: nat): seq<Vertex>
    requires |gs| <= |msg|
  {
    if k < |gs| && Drawn(msg[k], gs[k]) then Quad(gs[k], PrintPen(msg, gs[..k], start, lineHeight), color)
    else Blank(4)
  }

  /** Print's vertices are the quad slots of its characters. */
  lemma {:induction false} PrintSlot(msg: String8, gs: seq<Glyph>, start: Vec2, lineHeight: int, color: Color32, k: nat)
    requires |gs| <= |msg| && k < |msg|
    ensures PrintVerts(msg, gs, start, lineHeight, color)[4 * k..4 * k + 4]
            == SlotOf(msg, gs, start, lineHeight, color, k)
    decreases |gs|
  {
    if gs == [] {
      assert Blank(4 * |msg|)[4 * k..4 * k + 4] == Blank(4);
    } else {
      var n := |gs| - 1;
      PrintSlot(msg, gs[..n], start, lineHeight, color, k);
      var prev := PrintVerts(msg, gs[..n], start, lineHeight, color);
      if k != n {
        SlotOfPrefix(msg, gs, start, lineHeight, color, k);
        if Drawn(msg[n], gs[n]) {
          OverlaySlot(prev, 4 * n, Quad(gs[n], PrintPen(msg, gs[..n], start, lineHeight), color), 4 * k, 4);
        }
      } else if Drawn(msg[n], gs[n]) {
        OverlayWindow(prev, 4 * n, Quad(gs[n], PrintPen(msg, gs[..n], start, lineHeight), color));
      } else {
        assert SlotOf(msg, gs[..n], start, lineHeight, color, k) == Blank(4);
      }
    }
  }

  /** Only the newest glyph's slot differs from the shorter run's. */
  lemma {:induction false} SlotOfPrefix(msg: String8, gs: seq<Glyph>, start: Vec2, lineHeight: int, color: Color32, k: nat)
    requires 0 < |gs| <= |msg| && k != |gs| - 1
    ensures SlotOf(msg, gs, start, lineHeight, color, k) == SlotOf(msg, gs[..|gs| - 1], start, lineHeight, color, k)
  {
    if k < |gs| - 1 {
      assert gs[..|gs| - 1][..k] == gs[..k];
    }
  }

  /** What triangle slots 2k and 2k+1 of the entry hold once print has
      fetched the glyphs gs. */
  function TriSlotOf(msg: String8, gs: seq<Glyph>, k: nat): seq<Triangle16>
    requires |gs| <= |msg|
  {
    if k < |gs| && Drawn(msg[k], gs[k]) then QuadTris(4 * k) else BlankTris(2)
  }

  /** Print's triangles are the triangle pairs of its characters. */
  lemma {:induction false} TriSlot(msg: String8, gs: seq<Glyph>, k: nat)
    requires |gs| <= |msg| && k < |msg|
    ensures PrintTris(msg, gs)[2 * k..2 * k + 2] == TriSlotOf(msg, gs, k)
    decreases |gs|
  {
    if gs == [] {
      assert BlankTris(2 * |msg|)[2 * k..2 * k + 2] == BlankTris(2);
    } else {
      var n := |gs| - 1;
      TriSlot(msg, gs[..n], k);
      var prev := PrintTris(msg, gs[..n]);
      if k != n {
        TriSlotOfPrefix(msg, gs, k);
        if Drawn(msg[n], gs[n]) {
          OverlaySlot(prev, 2 * n, QuadTris(4 * n), 2 * k, 2);
        }
      } else if Drawn(msg[n], gs[n]) {
        OverlayWindow(prev, 2 * n, QuadTris(4 * n));
      } else {
        assert TriSlotOf(msg, gs[..n], k) == BlankTris(2);
      }
    }
  }

  lemma {:induction false} TriSlotOfPrefix(msg: String8, gs: seq<Glyph>, k: nat)
    requires 0 < |gs| <= |msg| && k != |gs| - 1
    ensures TriSlotOf(msg, gs, k) == TriSlotOf(msg, gs[..|gs| - 1], k)
  {
    if k < |gs| - 1 {
      assert gs[..|gs| - 1][k] == gs[k];
    }
  }

  /** A drawn character's own triangles are those the whole-buffer
      triangulation has at its quad. */
  lemma {:induction false} EntryTrisAreTriangulation(msg: String8, gs: seq<Glyph>, k: nat)
    requires k < |gs| <= |msg| && Drawn(msg[k], gs[k])
    ensures PrintTris(msg, gs)[2 * k..2 * k + 2] == Triangulation(0, |msg|)[2 * k..2 * k + 2]
  {
    TriSlot(msg, gs, k);
    QuadTrisAt(|msg|, k);
  }

  /** Triangles 2k and 2k+1 of the triangulation are quad k's. */
  lemma {:induction false} QuadTrisAt(n: nat, k: nat)
    requires k < n
    ensures Triangulation(0, n)[2 * k..2 * k + 2] == QuadTris(4 * k)
  {
    TriangulationAt(0, n, k);
  }

  /** A character print does not draw leaves the vertices and triangles
      as they were. */
  lemma {:induction false} SkipStep(msg: String8, gs: seq<Glyph>, g: Glyph, start: Vec2, lineHeight: int, color: Color32)
    requires |gs| < |msg| && !Drawn(msg[|gs|], g)
    ensures PrintVerts(msg, gs + [g], start, lineHeight, color) == PrintVerts(msg, gs, start, lineHeight, color)
    ensures PrintTris(msg, gs + [g]) == PrintTris(msg, gs)
    ensures PrintPen(msg, gs + [g], start, lineHeight)
            == PenAfter(PrintPen(msg, gs, start, lineHeight), msg[|gs|], g, start.x, lineHeight)
  {
    assert (gs + [g])[..|gs|] == gs;
  }

  /** A drawn character adds its quad at the pen and its two triangles. */
  lemma {:induction false} DrawStep(msg: String8, gs: seq<Glyph>, g: Glyph, start: Vec2, lineHeight: int, color: Color32)
    requires |gs| < |msg| && Drawn(msg[|gs|], g)
    ensures PrintVerts(msg, gs + [g], start, lineHeight, color)
            == Overlay(PrintVerts(msg, gs, start, lineHeight, color), 4 * |gs|,
                       Quad(g, PrintPen(msg, gs, start, lineHeight), color))
    ensures PrintTris(msg, gs + [g]) == Overlay(PrintTris(msg, gs), 2 * |gs|, QuadTris(4 * |gs|))
    ensures PrintPen(msg, gs + [g], start, lineHeight)
            == PenAfter(PrintPen(msg, gs, start, lineHeight), msg[|gs|], g, start.x, lineHeight)
  {
    assert (gs + [g])[..|gs|] == gs;
  }

  /** The two triangle writes of print's loop body for quad i. */
  method WriteQuadIndices(tris: array<Triangle16>, i: nat)
    requires 2 * i + 2 <= tris.Length
    modifies tris
    ensures tris[..] == Overlay(old(tris[..]), 2 * i, QuadTris(4 * i))
  {
    tris[2 * i] := Tri16(4 * i + 0, 4 * i + 1, 4 * i + 3);
    tris[2 * i + 1] := Tri16(4 * i + 3, 4 * i + 1, 4 * i + 2);
    OverlayAt(old(tris[..]), 2 * i, QuadTris(4 * i));
  }

  // ---------------------------------------------------------------------
  // get_geometry as written

  /** get_geometry's tOff once the entries es are done: the index loop
      adds two per quad and line 152 adds vertCount/2 more. */
  function AsWrittenTOff(es: seq<CacheEntry>): nat
    decreases |es|
  {
    if es == [] then 0
    else
      var e := es[|es| - 1];
      AsWrittenTOff(es[..|es| - 1]) + 2 * (e.vertCount / 4) + e.vertCount / 2
  }

  /** One past the highest index-buffer slot get_geometry writes for es. */
  function AsWrittenReach(es: seq<CacheEntry>): (r: nat)
    ensures es != [] ==> AsWrittenTOff(es[..|es| - 1]) + 2 * (es[|es| - 1].vertCount / 4) <= r
    decreases |es|
  {
    if es == [] then 0
    else
      var e := es[|es| - 1];
      var prev := AsWrittenReach(es[..|es| - 1]);
      var top := AsWrittenTOff(es[..|es| - 1]) + 2 * (e.vertCount / 4);
      if top > prev then top else prev
  }

  /** The index buffer after get_geometry as written: entry j's triangles,
      numbered from its first vertex, start at the j-th tOff. */
  function AsWrittenIndex(buf: seq<Triangle16>, es: seq<CacheEntry>): (r: seq<Triangle16>)
    requires AsWrittenReach(es) <= |buf|
    ensures |r| == |buf|
    decreases |es|
  {
    if es == [] then buf
    else
      var p := es[..|es| - 1];
      var e := es[|es| - 1];
      Overlay(AsWrittenIndex(buf, p), AsWrittenTOff(p), Triangulation(SumOf(p, VertCountOf), e.vertCount / 4))
  }

  /** For whole quads each entry moves tOff by its vertex count: entry j's
      triangles start at its first vertex's index, not at half of it. */
  lemma {:induction false} AsWrittenTOffIsVertexOffset(es: seq<CacheEntry>)
    requires Packed(es, VertsOf, VertCountOf)
    ensures AsWrittenTOff(es) == SumOf(es, VertCountOf)
    decreases |es|
  {
    if es != [] {
      var e := es[|es| - 1];
      assert VertCountOf(e) % 4 == 0;
      AsWrittenTOffIsVertexOffset(es[..|es| - 1]);
      QuadHalves(e.vertCount);
    }
  }

  /** As soon as an entry follows one with vertices, get_geometry writes
      past the tri_count() triangles its caller made room for. */
  lemma {:induction false} AsWrittenOverruns(es: seq<CacheEntry>)
    requires Packed(es, VertsOf, VertCountOf) && es != []
    requires SumOf(es[..|es| - 1], VertCountOf) > 0
    ensures AsWrittenReach(es) > SumOf(es, VertCountOf) / 2
  {
    var p := es[..|es| - 1];
    var e := es[|es| - 1];
    assert VertCountOf(e) % 4 == 0;
    AsWrittenTOffIsVertexOffset(p);
    QuadHalves(e.vertCount);
  }

  /** Two one-character entries: 8 vertices, so tri_count() is 4, but the
      second entry's triangles go to slots 4 and 5. */
  lemma {:induction false} AsWrittenTwoEntries(a: CacheEntry, b: CacheEntry)
    requires a.vertCount == 4 && b.vertCount == 4
    ensures SumOf([a, b], VertCountOf) / 2 == 4
    ensures AsWrittenTOff([a]) == 4 && AsWrittenReach([a, b]) == 6
  {
    assert [a, b][..1] == [a] && [a][..0] == [];
    assert SumOf([a], VertCountOf) == 4;
    assert AsWrittenTOff([a]) == 4 && AsWrittenReach([a]) == 2;
  }

  lemma {:induction false} AsWrittenReachPrefix(es: seq<CacheEntry>, j: nat)
    requires j <= |es|
    ensures AsWrittenReach(es[..j]) <= AsWrittenReach(es)
    decreases |es|
  {
    if j < |es| {
      assert es[..|es| - 1][..j] == es[..j];
      AsWrittenReachPrefix(es[..|es| - 1], j);
    } else {
      assert es[..j] == es;
    }
  }

  // ---------------------------------------------------------------------
  // Font

  class Font {
    /** m_face */
    const face: FontFace
    /** m_position */
    var position: Vec2
    /** m_requestedPosition */
    var requestedPosition: Vec2
    /** m_vertCount */
    var vertCount: nat
    /** m_counter */
    var counter: U32
    /** m_cache */
    var cache: seq<CacheEntry>
    /** m_cacheUpdated */
    var cacheUpdated: bool
    /** m_cacheTTL */
    const cacheTTL: U32

    ghost predicate Valid()
      reads this, face, face.atlas
    {
      face.Valid() && Packed(cache, VertsOf, VertCountOf)
      && (cacheUpdated ==> vertCount == SumOf(cache, VertCountOf))
    }

    constructor (loaded: bool, raster: Char8 -> Option<Raster>, maxSize: Size2, texture: nat)
      ensures Valid() && fresh(face) && fresh(face.atlas)
      ensures face.loaded == loaded && face.raster == raster && face.maxSize == maxSize
      ensures counter == 0 && vertCount == 0 && !cacheUpdated && cacheTTL == 1 && cache == []
      ensures position == Zero && requestedPosition == Zero
    {
      face := new FontFace(loaded, raster, maxSize, texture);
      counter, vertCount, cacheUpdated, cacheTTL := 0, 0, false, 1;
      cache := [];
      position, requestedPosition := Zero, Zero;
    }

    /** vertex_count() */
    function VertexCount(): (n: nat)
      reads this
      ensures cacheUpdated ==> n == vertCount
      ensures !cacheUpdated ==> n == InvalidIndex
    {
      if cacheUpdated then vertCount else InvalidIndex
    }

    /** tri_count(): vertCount >> 1 */
    function TriCount(): (n: nat)
      reads this
      ensures cacheUpdated ==> n == vertCount / 2
      ensures !cacheUpdated ==> n == InvalidIndex
    {
      if cacheUpdated then vertCount / 2 else InvalidIndex
    }

    /** set_position(position) */
    method SetPosition(p: Vec2)
      modifies this
      ensures position == p && requestedPosition == p
      ensures cache == old(cache) && vertCount == old(vertCount) && counter == old(counter)
      ensures cacheUpdated == old(cacheUpdated)
    {
      position, requestedPosition := p, p;
    }

    /** find_cached(msg) */
    method FindCached(msg: String8) returns (k: Option<nat>)
      ensures k == Hit(cache, HashOf, position, msg)
    {
      var key := ComputeCacheKey(position, msg);
      k := FindFirst(cache, HashOf, key);
    }

    /** cache(msg): appends an entry with room for one quad and two
        triangles per character. */
    method Cache(msg: String8) returns (k: nat)
      requires Valid()
      modifies this
      ensures Valid()
      ensures k == |old(cache)|
      ensures cache == old(cache) + [CacheEntry(CacheKey(position, msg), counter, Blank(4 * |msg|), Zero,
                                                BlankTris(2 * |msg|), 4 * |msg|)]
      ensures !cacheUpdated
      ensures position == old(position) && requestedPosition == old(requestedPosition)
      ensures counter == old(counter) && vertCount == old(vertCount)
    {
      var key := ComputeCacheKey(position, msg);
      cache := cache + [CacheEntry(key, counter, Blank(4 * |msg|), Zero, BlankTris(2 * |msg|), 4 * |msg|)];
      cacheUpdated := false;
      k := |cache| - 1;
    }

    /** A cache hit: marked used, the pen moves by the recorded delta. */
    method Reuse(k: nat)
      requires Valid() && k < |cache|
      modifies this
      ensures Valid()
      ensures cache == old(cache)[k := old(cache)[k].(lastUsed := counter)]
      ensures position == Add(old(position), old(cache)[k].positionDelta)
      ensures requestedPosition == old(requestedPosition) && counter == old(counter)
      ensures vertCount == old(vertCount) && cacheUpdated == old(cacheUpdated)
    {
      SumOfReplace(cache, k, cache[k].(lastUsed := counter), VertCountOf);
      position := Add(position, cache[k].positionDelta);
      cache := cache[k := cache[k].(lastUsed := counter)];
    }

    /** print's loop. */
    method LayOut(msg: String8, color: Color32, start: Vec2)
      returns (pen: Vec2, verts: seq<Vertex>, tris: seq<Triangle16>, ghost gs: seq<Glyph>)
      requires face.Valid()
      modifies face, face.atlas
      ensures face.Valid()
      ensures Fetched(msg, gs, face)
      ensures pen == PrintPen(msg, gs, start, face.maxSize.height)
      ensures verts == PrintVerts(msg, gs, start, face.maxSize.height, color)
      ensures tris == PrintTris(msg, gs)
      ensures NUL !in msg ==> pen == MeasuredPen(msg, start, face.maxSize.height, face.Adv())
      ensures NUL !in msg && '\n' !in msg ==> pen == Vec2(start.x + WidestLine(msg, face.Adv()), start.y)
    {
      var vbuf := new Vertex[4 * |msg|](_ => BlankVertex);
      var tbuf := new Triangle16[2 * |msg|](_ => BlankTriangle);
      pen, gs := start, [];
      assert vbuf[..] == Blank(4 * |msg|) && tbuf[..] == BlankTris(2 * |msg|);
      for i := 0 to |msg|
        invariant face.Valid()
        invariant |gs| == i && forall j :: 0 <= j < i ==> FetchedAt(msg[j], gs[j], face)
        invariant pen == PrintPen(msg, gs, start, face.maxSize.height)
        invariant vbuf[..] == PrintVerts(msg, gs, start, face.maxSize.height, color)
        invariant tbuf[..] == PrintTris(msg, gs)
      {
        gs, pen := PrintAt(msg, color, start, vbuf, tbuf, i, gs, pen);
      }
      verts, tris := vbuf[..], tbuf[..];
      if NUL !in msg {
        PrintPenIsMeasure(msg, gs, face, start, face.maxSize.height);
      }
      if NUL !in msg && '\n' !in msg {
        PrintOneLineWidth(msg, gs, face, start, face.maxSize.height);
      }
    }

    /** One pass of print's loop: a line break moves the pen; any other
        character fetches its glyph and, unless it is null, gets quad i,
        triangles 2i and 2i+1 and moves the pen by its advance. */
    method PrintAt(msg: String8, color: Color32, start: Vec2, vbuf: array<Vertex>, tbuf: array<Triangle16>, i: nat,
                   ghost gs: seq<Glyph>, pen: Vec2)
      returns (ghost gs': seq<Glyph>, pen': Vec2)
      requires face.Valid() && vbuf.Length == 4 * |msg| && tbuf.Length == 2 * |msg| && i < |msg|
      requires |gs| == i && forall j :: 0 <= j < i ==> FetchedAt(msg[j], gs[j], face)
      requires pen == PrintPen(msg, gs, start, face.maxSize.height)
      requires vbuf[..] == PrintVerts(msg, gs, start, face.maxSize.height, color)
      requires tbuf[..] == PrintTris(msg, gs)
      modifies face, face.atlas, vbuf, tbuf
      ensures face.Valid()
      ensures |gs'| == i + 1 && forall j :: 0 <= j < i + 1 ==> FetchedAt(msg[j], gs'[j], face)
      ensures pen' == PrintPen(msg, gs', start, face.maxSize.height)
      ensures vbuf[..] == PrintVerts(msg, gs', start, face.maxSize.height, color)
      ensures tbuf[..] == PrintTris(msg, gs')
    {
      var lh := face.maxSize.height;
      if msg[i] == '\n' {
        gs' := gs + [NullGlyph];
        SkipStep(msg, gs, NullGlyph, start, lh, color);
        pen' := Vec2(start.x, pen.y - lh);
        return;
      }
      var g := face.GetGlyph(msg[i]);
      gs', pen' := gs + [g], pen;
      if IsNullGlyph(g) {
        SkipStep(msg, gs, g, start, lh, color);
        return;
      }
      DrawStep(msg, gs, g, start, lh, color);
      Generate(vbuf, i, g, pen, color);
      WriteQuadIndices(tbuf, i);
      pen' := Vec2(pen.x + g.advance, pen.y);
    }

    /** print(msg, color) */
    method Print(msg: String8, color: Color32) returns (ghost gs: seq<Glyph>)
      requires Valid()
      modifies this, face, face.atlas
      ensures Valid()
      ensures requestedPosition == old(requestedPosition) && counter == old(counter)
      ensures msg == [] ==>
                cache == old(cache) && position == old(position)
                && vertCount == old(vertCount) && cacheUpdated == old(cacheUpdated)
      ensures (msg == [] || Hit(old(cache), HashOf, old(position), msg).Some?) ==>
                face.glyphs == old(face.glyphs) && unchanged(face.atlas)
      ensures msg != [] && Hit(old(cache), HashOf, old(position), msg).Some? ==>
                var k := Hit(old(cache), HashOf, old(position), msg).value;
                && cache == old(cache)[k := old(cache)[k].(lastUsed := counter)]
                && position == Add(old(position), old(cache)[k].positionDelta)
                && vertCount == old(vertCount) && cacheUpdated == old(cacheUpdated)
      ensures msg != [] && Hit(old(cache), HashOf, old(position), msg).None? ==>
                && Fetched(msg, gs, face)
                && var pen := PrintPen(msg, gs, old(position), face.maxSize.height);
                && cache == old(cache) + [CacheEntry(CacheKey(old(position), msg), counter,
                                                     PrintVerts(msg, gs, old(position), face.maxSize.height, color),
                                                     Sub(pen, old(position)), PrintTris(msg, gs), 4 * |msg|)]
                && position == pen && vertCount == old(vertCount) && !cacheUpdated
      ensures msg != [] && Hit(old(cache), HashOf, old(position), msg).None? && NUL !in msg ==>
                position == MeasuredPen(msg, old(position), face.maxSize.height, face.Adv())
      ensures msg != [] && Hit(old(cache), HashOf, old(position), msg).None? && NUL !in msg && '\n' !in msg ==>
                position == Vec2(old(position).x + WidestLine(msg, face.Adv()), old(position).y)
    {
      gs := [];
      if msg == [] {
        return;
      }
      var cached := FindCached(msg);
      if cached.Some? {
        Reuse(cached.value);
        return;
      }
      var k := Cache(msg);
      var pen, verts, tris;
      pen, verts, tris, gs := LayOut(msg, color, position);
      var e := cache[k].(verts := verts, tris := tris, positionDelta := Sub(pen, position));
      FillLast(old(cache), cache[k], e, VertsOf, VertCountOf);
      cache := cache[k := e];
      position := pen;
    }

    /** update_cache() */
    method UpdateCache()
      requires Valid()
      modifies this
      ensures Valid()
      ensures counter == ToU32(old(counter) + 1)
      ensures cache == Survivors(old(cache), LastUsed, cacheTTL, old(counter))
      ensures vertCount == SumOf(cache, VertCountOf) && cacheUpdated
      ensures position == old(requestedPosition) && requestedPosition == old(requestedPosition)
    {
      PreviousGeneration(counter);
      counter := ToU32(counter + 1);
      var generation := ToU32(counter - 1);
      assert generation == old(counter);
      var kept, total := Reap(cache, LastUsed, VertCountOf, cacheTTL, generation);
      SurvivorsPacked(cache, VertsOf, VertCountOf, LastUsed, cacheTTL, generation);
      cache, vertCount := kept, total;
      cacheUpdated := true;
      position := requestedPosition;
    }

    /** get_geometry(vb, ib, texID) as written: the vertices are copied
        one entry after the other, but entry j's triangles start at tOff,
        which the index loop and line 152 both advance. */
    method GetGeometryAsWritten(vb: array<Vertex>, ib: array<Triangle16>) returns (texID: nat)
      requires Valid()
      requires SumOf(cache, VertCountOf) <= vb.Length && AsWrittenReach(cache) <= ib.Length
      modifies vb, ib
      ensures vb[..] == Overlay(old(vb[..]), 0, Copied(cache, VertsOf, VertCountOf))
      ensures ib[..] == AsWrittenIndex(old(ib[..]), cache)
      ensures texID == face.atlas.texture
    {
      ghost var vb0, ib0 := vb[..], ib[..];
      var vOff, tOff := 0, 0;
      assert cache[..0] == [];
      for j := 0 to |cache|
        invariant Packed(cache[..j], VertsOf, VertCountOf)
        invariant vOff == |Copied(cache[..j], VertsOf, VertCountOf)| && vOff <= vb.Length
        invariant vb[..] == Overlay(vb0, 0, Copied(cache[..j], VertsOf, VertCountOf))
        invariant tOff == AsWrittenTOff(cache[..j]) && AsWrittenReach(cache[..j]) <= ib.Length
        invariant ib[..] == AsWrittenIndex(ib0, cache[..j])
      {
        vOff, tOff := GeometryEntryAsWritten(vb, ib, vb0, ib0, cache, j, vOff, tOff);
      }
      assert cache[..|cache|] == cache;
      texID := face.atlas.texture;
    }

    /** get_geometry(vb, ib, texID) with tOff advanced by the index loop
        alone: the triangles of all entries are contiguous and exactly fill
        tri_count() slots. */
    method GetGeometry(vb: array<Vertex>, ib: array<Triangle16>) returns (texID: nat)
      requires Valid()
      requires SumOf(cache, VertCountOf) <= vb.Length && SumOf(cache, VertCountOf) / 2 <= ib.Length
      modifies vb, ib
      ensures vb[..] == Overlay(old(vb[..]), 0, Copied(cache, VertsOf, VertCountOf))
      ensures ib[..] == Overlay(old(ib[..]), 0, Triangulation(0, |Copied(cache, VertsOf, VertCountOf)| / 4))
      ensures texID == face.atlas.texture
    {
      ghost var vb0, ib0 := vb[..], ib[..];
      var vOff, tOff := 0, 0;
      ghost var q := 0;
      assert cache[..0] == [];
      for j := 0 to |cache|
        invariant Packed(cache[..j], VertsOf, VertCountOf)
        invariant vOff == |Copied(cache[..j], VertsOf, VertCountOf)| && vOff <= vb.Length
        invariant vb[..] == Overlay(vb0, 0, Copied(cache[..j], VertsOf, VertCountOf))
        invariant vOff == 4 * q && tOff == 2 * q && 2 * q <= ib.Length
        invariant ib[..] == Overlay(ib0, 0, Triangulation(0, q))
      {
        vOff, tOff, q := GeometryEntry(vb, ib, vb0, ib0, cache, j, vOff, tOff, q);
      }
      assert cache[..|cache|] == cache;
      assert vOff / 4 == q;
      texID := face.atlas.texture;
    }
  }

  /** One pass of get_geometry's loop as written: entry j's vertices after
      those before it, its triangles from tOff on. */
  method GeometryEntryAsWritten(vb: array<Vertex>, ib: array<Triangle16>, ghost vb0: seq<Vertex>,
                                ghost ib0: seq<Triangle16>, es: seq<CacheEntry>, j: nat, vOff: nat, tOff: nat)
    returns (vOff': nat, tOff': nat)
    requires Packed(es, VertsOf, VertCountOf) && j < |es| && Packed(es[..j], VertsOf, VertCountOf)
    requires SumOf(es, VertCountOf) <= vb.Length && AsWrittenReach(es) <= ib.Length
    requires |vb0| == vb.Length && |ib0| == ib.Length
    requires vOff == |Copied(es[..j], VertsOf, VertCountOf)| && vOff <= vb.Length
    requires vb[..] == Overlay(vb0, 0, Copied(es[..j], VertsOf, VertCountOf))
    requires tOff == AsWrittenTOff(es[..j]) && AsWrittenReach(es[..j]) <= ib.Length
    requires ib[..] == AsWrittenIndex(ib0, es[..j])
    modifies vb, ib
    ensures Packed(es[..j + 1], VertsOf, VertCountOf)
    ensures vOff' == |Copied(es[..j + 1], VertsOf, VertCountOf)| && vOff' <= vb.Length
    ensures vb[..] == Overlay(vb0, 0, Copied(es[..j + 1], VertsOf, VertCountOf))
    ensures tOff' == AsWrittenTOff(es[..j + 1]) && AsWrittenReach(es[..j + 1]) <= ib.Length
    ensures ib[..] == AsWrittenIndex(ib0, es[..j + 1])
  {
    vOff' := CopyEntry(vb, vb0, es, VertsOf, VertCountOf, j, vOff);
    CopiedLength(es[..j], VertsOf, VertCountOf);
    tOff' := IndexEntryAsWritten(ib, ib0, es, j, vOff, tOff);
  }

  /** One entry of get_geometry as written: its triangles from tOff on,
      then tOff moved on by the loop and by vertCount/2. */
  method IndexEntryAsWritten(ib: array<Triangle16>, ghost ib0: seq<Triangle16>, es: seq<CacheEntry>, j: nat,
                             vOff: nat, tOff: nat)
    returns (tOff': nat)
    requires Packed(es, VertsOf, VertCountOf) && j < |es| && |ib0| == ib.Length
    requires AsWrittenReach(es) <= ib.Length
    requires vOff == SumOf(es[..j], VertCountOf) && tOff == AsWrittenTOff(es[..j])
    requires AsWrittenReach(es[..j]) <= ib.Length && ib[..] == AsWrittenIndex(ib0, es[..j])
    modifies ib
    ensures tOff' == AsWrittenTOff(es[..j + 1]) && AsWrittenReach(es[..j + 1]) <= ib.Length
    ensures ib[..] == AsWrittenIndex(ib0, es[..j + 1])
  {
    var e := es[j];
    assert VertCountOf(e) % 4 == 0;
    assert es[..j + 1][..j] == es[..j] && es[..j + 1][j] == e;
    AsWrittenReachPrefix(es, j + 1);
    WriteTriangles(ib, tOff, vOff, e.vertCount);
    tOff' := tOff + 2 * (e.vertCount / 4) + e.vertCount / 2;
  }

  /** One pass of the corrected get_geometry's loop: entry j's vertices
      after those before it, its triangles after theirs. */
  method GeometryEntry(vb: array<Vertex>, ib: array<Triangle16>, ghost vb0: seq<Vertex>, ghost ib0: seq<Triangle16>,
                       es: seq<CacheEntry>, j: nat, vOff: nat, tOff: nat, ghost q: nat)
    returns (vOff': nat, tOff': nat, ghost q': nat)
    requires Packed(es, VertsOf, VertCountOf) && j < |es| && Packed(es[..j], VertsOf, VertCountOf)
    requires SumOf(es, VertCountOf) <= vb.Length && SumOf(es, VertCountOf) / 2 <= ib.Length
    requires |vb0| == vb.Length && |ib0| == ib.Length
    requires vOff == |Copied(es[..j], VertsOf, VertCountOf)| && vOff <= vb.Length
    requires vb[..] == Overlay(vb0, 0, Copied(es[..j], VertsOf, VertCountOf))
    requires vOff == 4 * q && tOff == 2 * q && 2 * q <= ib.Length
    requires ib[..] == Overlay(ib0, 0, Triangulation(0, q))
    modifies vb, ib
    ensures Packed(es[..j + 1], VertsOf, VertCountOf)
    ensures vOff' == |Copied(es[..j + 1], VertsOf, VertCountOf)| && vOff' <= vb.Length
    ensures vb[..] == Overlay(vb0, 0, Copied(es[..j + 1], VertsOf, VertCountOf))
    ensures vOff' == 4 * q' && tOff' == 2 * q' && 2 * q' <= ib.Length
    ensures ib[..] == Overlay(ib0, 0, Triangulation(0, q'))
  {
    vOff' := CopyEntry(vb, vb0, es, VertsOf, VertCountOf, j, vOff);
    var vc := es[j].vertCount;
    assert VertCountOf(es[j]) % 4 == 0;
    QuadBound(q, vc, SumOf(es, VertCountOf), ib.Length);
    tOff', q' := IndexEntry(ib, ib0, q, vc / 4, tOff);
  }

  /** One entry of the corrected get_geometry: its b quads' triangles
      right after the q quads' triangles of the entries before it. */
  method IndexEntry(ib: array<Triangle16>, ghost ib0: seq<Triangle16>, ghost q: nat, b: nat, tOff: nat)
    returns (tOff': nat, ghost q': nat)
    requires 2 * (q + b) <= ib.Length && |ib0| == ib.Length
    requires tOff == 2 * q && ib[..] == Overlay(ib0, 0, Triangulation(0, q))
    modifies ib
    ensures q' == q + b && tOff' == 2 * q'
    ensures ib[..] == Overlay(ib0, 0, Triangulation(0, q'))
  {
    q' := q + b;
    FourQuads(b);
    WriteTriangles(ib, tOff, 2 * tOff, 4 * b);
    AppendQuads(ib0, q, b, q');
    tOff' := tOff + 2 * b;
  }

  /** Triangulating q quads and then b more is triangulating q + b. */
  lemma {:induction false} AppendQuads(buf: seq<Triangle16>, q: nat, b: nat, n: nat)
    requires n == q + b && 2 * n <= |buf|
    ensures Overlay(Overlay(buf, 0, Triangulation(0, q)), 2 * q, Triangulation(4 * q, b))
            == Overlay(buf, 0, Triangulation(0, n))
  {
    OverlayAppend(buf, 0, Triangulation(0, q), Triangulation(4 * q, b));
    TriangulationConcat(0, q, b);
  }

  lemma {:induction false} FourQuads(b: nat)
    ensures (4 * b) % 4 == 0 && (4 * b) / 2 == 2 * b && (4 * b) / 4 == b
  {
  }

  /** An entry of vc vertices after q quads still fits an index buffer
      sized for half the total. */
  lemma {:induction false} QuadBound(q: nat, vc: nat, total: nat, len: nat)
    requires vc % 4 == 0 && 4 * q + vc <= total && total / 2 <= len
    ensures 2 * (q + vc / 4) <= len && 4 * (q + vc / 4) == 4 * q + vc
  {
  }

  /** With the index loop alone moving tOff, vertex_count() and tri_count()
      are what get_geometry writes. */
  lemma {:induction false} CountsSizeGeometry(f: Font)
    requires f.Valid() && f.cacheUpdated
    ensures f.VertexCount() == |Copied(f.cache, VertsOf, VertCountOf)|
    ensures f.TriCount() == |Triangulation(0, |Copied(f.cache, VertsOf, VertCountOf)| / 4)|
  {
    CopiedLength(f.cache, VertsOf, VertCountOf);
    QuadHalves(f.vertCount);
  }
}
