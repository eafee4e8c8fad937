/*
 * What the two Font classes share: the vertex layout of a glyph quad, the
 * 16-bit triangle index buffer, and the list of cached strings with its
 * lookup by hash and its generational reaping.
 */
module FontCache {
  import opened FontTypes

  // ---------------------------------------------------------------------
  // Vertices

  /** Font::Vertex: screen position, texture coordinate and colour. */
  datatype Vertex = Vertex(position: Vec2, texCoord: TexCoord, color: Color32)

  /** A slot nothing has written yet (the source leaves it uninitialised). */
  const BlankVertex: Vertex := Vertex(Zero, TexCoord(0, 0), Color32(0))

  function Blank(n: nat): (r: seq<Vertex>)
    ensures |r| == n
    ensures forall j :: 0 <= j < n ==> r[j] == BlankVertex
  {
    seq(n, _ => BlankVertex)
  }

  /** The four corners generate writes for a glyph drawn at `pen`:
      bottom-left, bottom-right, top-right, top-left. */
  function Quad(g: Glyph, pen: Vec2, color: Color32): seq<Vertex>
  {
    var x0, y0 := g.off.x + pen.x, g.off.y + pen.y;
    var x1, y1 := x0 + g.size.width, y0 + g.size.height;
    [Vertex(Vec2(x0, y0), g.botLeft, color),
     Vertex(Vec2(x1, y0), TexCoord(g.topRight.u, g.botLeft.v), color),
     Vertex(Vec2(x1, y1), g.topRight, color),
     Vertex(Vec2(x0, y1), TexCoord(g.botLeft.u, g.topRight.v), color)]
  }

  /** A quad is the glyph's size-by-size rectangle at pen + bearing, its
      texture rectangle spans the glyph's two texture corners in the same
      corner order, and all four corners carry the one colour. */
  lemma {:induction false} QuadIsRectangle(g: Glyph, pen: Vec2, color: Color32)
    ensures var q := Quad(g, pen, color);
            && |q| == 4
            && q[0].position == Add(g.off, pen)
            && q[2].position == Add(Add(g.off, pen), Vec2(g.size.width, g.size.height))
            && q[1].position == Vec2(q[2].position.x, q[0].position.y)
            && q[3].position == Vec2(q[0].position.x, q[2].position.y)
            && q[0].texCoord == g.botLeft && q[2].texCoord == g.topRight
            && q[1].texCoord == TexCoord(q[2].texCoord.u, q[0].texCoord.v)
            && q[3].texCoord == TexCoord(q[0].texCoord.u, q[2].texCoord.v)
            && forall j :: 0 <= j < 4 ==> q[j].color == color
  {
  }

  /** The buffer with src written over it from index `at` on. */
  function Overlay<T>(buf: seq<T>, at: nat, src: seq<T>): (r: seq<T>)
    requires at + |src| <= |buf|
    ensures |r| == |buf|
  {
    buf[..at] + src + buf[at + |src|..]
  }

  /** Overlay writes exactly the slots at .. at+|src|-1. */
  lemma {:induction false} OverlayAt<T>(buf: seq<T>, at: nat, src: seq<T>)
    requires at + |src| <= |buf|
    ensures forall j :: 0 <= j < |buf| ==>
              Overlay(buf, at, src)[j] == if at <= j < at + |src| then src[j - at] else buf[j]
  {
  }

  /** Two writes side by side are one write of both. */
  lemma {:induction false} OverlayAppend<T>(buf: seq<T>, at: nat, x: seq<T>, y: seq<T>)
    requires at + |x| + |y| <= |buf|
    ensures Overlay(Overlay(buf, at, x), at + |x|, y) == Overlay(buf, at, x + y)
  {
    var b1 := Overlay(buf, at, x);
    assert b1[..at + |x|] == buf[..at] + x;
    assert b1[at + |x| + |y|..] == buf[at + |x| + |y|..];
  }

  /** The written range holds src. */
  lemma {:induction false} OverlayWindow<T>(buf: seq<T>, at: nat, src: seq<T>)
    requires at + |src| <= |buf|
    ensures Overlay(buf, at, src)[at..at + |src|] == src
  {
    assert (buf[..at] + src + buf[at + |src|..])[at..at + |src|] == src;
  }

  /** Writing the same range with the same contents again changes nothing. */
  lemma {:induction false} OverlayTwice<T>(buf: seq<T>, at: nat, src: seq<T>)
    requires at + |src| <= |buf|
    ensures Overlay(Overlay(buf, at, src), at, src) == Overlay(buf, at, src)
  {
    var once := Overlay(buf, at, src);
    OverlayAt(buf, at, src);
    OverlayAt(once, at, src);
    assert forall j :: 0 <= j < |buf| ==> Overlay(once, at, src)[j] == once[j];
  }

  /** What quad k of a buffer holds. */
  lemma {:induction false} OverlaySlot<T>(buf: seq<T>, at: nat, src: seq<T>, k: nat, n: nat)
    requires at + |src| <= |buf| && k + n <= |buf|
    requires k + n <= at || at + |src| <= k
    ensures Overlay(buf, at, src)[k..k + n] == buf[k..k + n]
  {
    OverlayAt(buf, at, src);
  }

  /** Writing one element just past a written range extends the range. */
  lemma {:induction false} OverlaySnoc<T>(buf: seq<T>, at: nat, x: seq<T>, a: T)
    requires at + |x| + 1 <= |buf|
    ensures Overlay(buf, at, x)[at + |x| := a] == Overlay(buf, at, x + [a])
  {
    OverlayAt(buf, at, x);
    OverlayAt(buf, at, x + [a]);
  }

  /** memcpy(&dst[at], src, |src| * sizeof(T)) */
  method CopyInto<T>(dst: array<T>, at: nat, src: seq<T>)
    requires at + |src| <= dst.Length
    modifies dst
    ensures dst[..] == Overlay(old(dst[..]), at, src)
  {
    ghost var buf := dst[..];
    for j := 0 to |src|
      invariant dst[..] == Overlay(buf, at, src[..j])
    {
      ghost var before := dst[..];
      dst[at + j] := src[j];
      assert dst[..] == before[at + j := src[j]];
      OverlaySnoc(buf, at, src[..j], src[j]);
      assert src[..j] + [src[j]] == src[..j + 1];
    }
    assert src[..|src|] == src;
  }

  /** generate(verts, index, glyph, position, color): fills the slots of
      quad `index` and no other. */
  method Generate(verts: array<Vertex>, index: nat, g: Glyph, pen: Vec2, color: Color32)
    requires 4 * index + 4 <= verts.Length
    modifies verts
    ensures verts[..] == Overlay(old(verts[..]), 4 * index, Quad(g, pen, color))
  {
    var b := 4 * index;
    verts[b] := Vertex(Vec2(g.off.x + pen.x, g.off.y + pen.y), g.botLeft, color);
    verts[b + 1] := Vertex(Vec2(g.off.x + pen.x + g.size.width, g.off.y + pen.y),
                           TexCoord(g.topRight.u, g.botLeft.v), color);
    verts[b + 2] := Vertex(Vec2(g.off.x + pen.x + g.size.width, g.off.y + pen.y + g.size.height),
                           g.topRight, color);
    verts[b + 3] := Vertex(Vec2(g.off.x + pen.x, g.off.y + pen.y + g.size.height),
                           TexCoord(g.botLeft.u, g.topRight.v), color);
    OverlayAt(old(verts[..]), b, Quad(g, pen, color));
  }

  // ---------------------------------------------------------------------
  // Triangles

  /** Triangle16: three uint16_t vertex indices. */
  datatype Triangle16 = Triangle16(a: nat, b: nat, c: nat)

  /** An index stored into a uint16_t: it keeps the low 16 bits. */
  function U16(x: int): nat { x % 0x1_0000 }

  function Tri16(a: int, b: int, c: int): Triangle16
  {
    Triangle16(U16(a), U16(b), U16(c))
  }

  /** The two triangles of the quad whose first vertex is i. */
  function QuadTris(i: int): seq<Triangle16>
  {
    [Tri16(i, i + 1, i + 3), Tri16(i + 3, i + 1, i + 2)]
  }

  /** The index buffer for n quads whose first vertex is v0, two triangles
      each. */
  function Triangulation(v0: int, n: nat): (r: seq<Triangle16>)
    ensures |r| == 2 * n
  {
    if n == 0 then [] else Triangulation(v0, n - 1) + QuadTris(v0 + 4 * (n - 1))
  }

  /** Triangles 2k and 2k+1 are those of quad k. */
  lemma {:induction false} TriangulationAt(v0: int, n: nat, k: nat)
    requires k < n
    ensures Triangulation(v0, n)[2 * k] == Tri16(v0 + 4 * k, v0 + 4 * k + 1, v0 + 4 * k + 3)
    ensures Triangulation(v0, n)[2 * k + 1] == Tri16(v0 + 4 * k + 3, v0 + 4 * k + 1, v0 + 4 * k + 2)
    decreases n
  {
    if k < n - 1 {
      TriangulationAt(v0, n - 1, k);
    }
  }

  /** Consecutive quad runs triangulate as one run. */
  lemma {:induction false} TriangulationConcat(v0: int, a: nat, b: nat)
    ensures Triangulation(v0, a) + Triangulation(v0 + 4 * a, b) == Triangulation(v0, a + b)
    decreases b
  {
    if b > 0 {
      TriangulationConcat(v0, a, b - 1);
      assert v0 + 4 * a + 4 * (b - 1) == v0 + 4 * (a + b - 1);
    }
  }

  /** With at most 65536 vertices no index wraps: triangle 2k is exactly
      (4k, 4k+1, 4k+3) and triangle 2k+1 is (4k+3, 4k+1, 4k+2). */
  lemma {:induction false} TriangulationIsExact(n: nat)
    requires 4 * n <= 0x1_0000
    ensures forall k :: 0 <= k < n ==>
              Triangulation(0, n)[2 * k] == Triangle16(4 * k, 4 * k + 1, 4 * k + 3)
              && Triangulation(0, n)[2 * k + 1] == Triangle16(4 * k + 3, 4 * k + 1, 4 * k + 2)
  {
    forall k | 0 <= k < n
      ensures Triangulation(0, n)[2 * k] == Triangle16(4 * k, 4 * k + 1, 4 * k + 3)
      ensures Triangulation(0, n)[2 * k + 1] == Triangle16(4 * k + 3, 4 * k + 1, 4 * k + 2)
    {
      TriangulationAt(0, n, k);
      QuadTrisExact(4 * k);
    }
  }

  lemma {:induction false} QuadTrisExact(i: nat)
    requires i + 3 < 0x1_0000
    ensures Tri16(i, i + 1, i + 3) == Triangle16(i, i + 1, i + 3)
    ensures Tri16(i + 3, i + 1, i + 2) == Triangle16(i + 3, i + 1, i + 2)
  {
  }

  /** One vertex more than 65536 and the indices wrap: the first triangle of
      quad 16384 points back at vertices 0, 1 and 3. */
  lemma {:induction false} TriangulationWraps()
    ensures Triangulation(0, 0x4001)[0x8000] == Triangle16(0, 1, 3)
  {
    TriangulationAt(0, 0x4001, 0x4000);
  }

  /** The index loop of get_geometry: two triangles for every four vertices
      from v0 on, written from ib[t] on. */
  method WriteTriangles(ib: array<Triangle16>, t: nat, v0: int, vc: nat)
    requires vc % 4 == 0 && t + vc / 2 <= ib.Length
    modifies ib
    ensures ib[..] == Overlay(old(ib[..]), t, Triangulation(v0, vc / 4))
  {
    ghost var buf := ib[..];
    var q := vc / 4;
    assert t + 2 * q <= ib.Length;
    var n, i, tOff := 0, v0, t;
    while n < q
      invariant n <= q && i == v0 + 4 * n && tOff == t + 2 * n
      invariant ib[..] == Overlay(buf, t, Triangulation(v0, n))
    {
      WriteQuadTris(ib, buf, t, v0, n, i, tOff);
      n, i, tOff := n + 1, i + 4, tOff + 2;
    }
  }

  /** One pass of the index loop: the two triangles of quad n. */
  method WriteQuadTris(ib: array<Triangle16>, ghost buf: seq<Triangle16>, t: nat, v0: int, n: nat, i: int, tOff: nat)
    requires |buf| == ib.Length && i == v0 + 4 * n && tOff == t + 2 * n && tOff + 2 <= ib.Length
    requires ib[..] == Overlay(buf, t, Triangulation(v0, n))
    modifies ib
    ensures ib[..] == Overlay(buf, t, Triangulation(v0, n + 1))
  {
    ghost var tris := Triangulation(v0, n);
    ghost var x := Tri16(i, i + 1, i + 3);
    ghost var y := Tri16(i + 3, i + 1, i + 2);
    ghost var before := ib[..];
    ib[tOff] := Tri16(i + 0, i + 1, i + 3);
    assert ib[..] == before[tOff := x];
    OverlaySnoc(buf, t, tris, x);
    ghost var mid := ib[..];
    ib[tOff + 1] := Tri16(i + 3, i + 1, i + 2);
    assert ib[..] == mid[tOff + 1 := y];
    OverlaySnoc(buf, t, tris + [x], y);
    assert tris + [x] + [y] == Triangulation(v0, n + 1);
  }

  // ---------------------------------------------------------------------
  // The cache list

  /** The index of the first entry whose hash is h. */
  function FirstWith<E>(es: seq<E>, hashOf: E -> Hash, h: Hash): (k: Option<nat>)
    ensures k.Some? ==> k.value < |es| && hashOf(es[k.value]) == h
    ensures k.Some? ==> forall j :: 0 <= j < k.value ==> hashOf(es[j]) != h
    ensures k.None? ==> forall j :: 0 <= j < |es| ==> hashOf(es[j]) != h
    decreases |es|
  {
    if es == [] then None
    else if hashOf(es[0]) == h then Some(0)
    else match FirstWith(es[1..], hashOf, h)
      case None => None
      case Some(k) => Some(k + 1)
  }

  /** The entry find_cached returns for `msg` printed at `pen`: the first
      whose hash is the cache key of the pen and the text. */
  function Hit<E>(cache: seq<E>, hashOf: E -> Hash, pen: Vec2, msg: String8): (k: Option<nat>)
    ensures k.Some? ==> k.value < |cache| && hashOf(cache[k.value]) == CacheKey(pen, msg)
    ensures k.Some? ==> forall j :: 0 <= j < k.value ==> hashOf(cache[j]) != CacheKey(pen, msg)
    ensures k.None? ==> forall j :: 0 <= j < |cache| ==> hashOf(cache[j]) != CacheKey(pen, msg)
  {
    FirstWith(cache, hashOf, CacheKey(pen, msg))
  }

  lemma {:induction false} FirstWithIsFirst<E>(es: seq<E>, hashOf: E -> Hash, h: Hash, k: nat)
    requires k < |es| && hashOf(es[k]) == h
    requires forall j :: 0 <= j < k ==> hashOf(es[j]) != h
    ensures FirstWith(es, hashOf, h) == Some(k)
    decreases k
  {
    if k > 0 {
      FirstWithIsFirst(es[1..], hashOf, h, k - 1);
    }
  }

  /** find_cached's scan: the first entry with the hash, if any. */
  method FindFirst<E>(es: seq<E>, hashOf: E -> Hash, h: Hash) returns (k: Option<nat>)
    ensures k == FirstWith(es, hashOf, h)
  {
    var i := 0;
    while i < |es|
      invariant i <= |es|
      invariant forall j :: 0 <= j < i ==> hashOf(es[j]) != h
    {
      if hashOf(es[i]) == h {
        FirstWithIsFirst(es, hashOf, h, i);
        return Some(i);
      }
      i := i + 1;
    }
    return None;
  }

  /** An entry outlives update_cache when the cache is on (ttl != 0) and the
      entry was used during the generation that just ended. */
  predicate Live<E>(e: E, usedIn: E -> U32, ttl: U32, generation: U32)
  {
    ttl != 0 && usedIn(e) == generation
  }

  /** The entries update_cache keeps, in their order. */
  function Survivors<E>(es: seq<E>, usedIn: E -> U32, ttl: U32, generation: U32): seq<E>
    decreases |es|
  {
    if es == [] then []
    else
      Survivors(es[..|es| - 1], usedIn, ttl, generation)
      + (if Live(es[|es| - 1], usedIn, ttl, generation) then [es[|es| - 1]] else [])
  }

  /** Reaping a list is reaping its parts: the survivors keep their relative
      order. */
  lemma {:induction false} SurvivorsConcat<E>(a: seq<E>, b: seq<E>, usedIn: E -> U32, ttl: U32, generation: U32)
    ensures Survivors(a + b, usedIn, ttl, generation)
            == Survivors(a, usedIn, ttl, generation) + Survivors(b, usedIn, ttl, generation)
    decreases |b|
  {
    if b == [] {
      assert a + b == a;
    } else {
      var b' := b[..|b| - 1];
      assert (a + b)[..|a + b| - 1] == a + b';
      SurvivorsConcat(a, b', usedIn, ttl, generation);
    }
  }

  /** The survivors are exactly the live entries. */
  lemma {:induction false} SurvivorsAreLive<E>(es: seq<E>, usedIn: E -> U32, ttl: U32, generation: U32)
    ensures forall e :: e in Survivors(es, usedIn, ttl, generation) <==>
              e in es && Live(e, usedIn, ttl, generation)
    ensures |Survivors(es, usedIn, ttl, generation)| <= |es|
    decreases |es|
  {
    if es != [] {
      var p := es[..|es| - 1];
      SurvivorsAreLive(p, usedIn, ttl, generation);
      assert es == p + [es[|es| - 1]];
    }
  }

  /** Total of `size` over a list. */
  function SumOf<E>(es: seq<E>, size: E -> nat): nat
    decreases |es|
  {
    if es == [] then 0 else SumOf(es[..|es| - 1], size) + size(es[|es| - 1])
  }

  /** update_cache's loop: drops the dead entries and totals the vertex
      counts of the rest. */
  method Reap<E>(es: seq<E>, usedIn: E -> U32, size: E -> nat, ttl: U32, generation: U32)
    returns (kept: seq<E>, total: nat)
    ensures kept == Survivors(es, usedIn, ttl, generation)
    ensures total == SumOf(kept, size)
  {
    kept, total := [], 0;
    for i := 0 to |es|
      invariant kept == Survivors(es[..i], usedIn, ttl, generation)
      invariant total == SumOf(kept, size)
    {
      assert es[..i + 1][..i] == es[..i];
      if ttl != 0 && usedIn(es[i]) == generation {
        assert (kept + [es[i]])[..|kept|] == kept;
        total := total + size(es[i]);
        kept := kept + [es[i]];
      }
    }
    assert es[..|es|] == es;
  }

  /** Changing an entry without changing its size keeps the total. */
  lemma {:induction false} SumOfReplace<E>(es: seq<E>, k: nat, e: E, size: E -> nat)
    requires k < |es| && size(e) == size(es[k])
    ensures SumOf(es[k := e], size) == SumOf(es, size)
    decreases |es|
  {
    var n := |es|;
    var es' := es[k := e];
    assert es'[..n - 1] == if k < n - 1 then es[..n - 1][k := e] else es[..n - 1];
    if k < n - 1 {
      SumOfReplace(es[..n - 1], k, e, size);
    }
  }

  // ---------------------------------------------------------------------
  // What get_geometry copies out of the cache

  /** Every entry keeps count(e) vertices in its array, whole quads. */
  predicate Packed<E>(es: seq<E>, verts: E -> seq<Vertex>, count: E -> nat)
  {
    forall j :: 0 <= j < |es| ==> count(es[j]) <= |verts(es[j])| && count(es[j]) % 4 == 0
  }

  /** The vertex buffer get_geometry fills: the first count(e) vertices of
      every entry, entry after entry. */
  function Copied<E>(es: seq<E>, verts: E -> seq<Vertex>, count: E -> nat): (vs: seq<Vertex>)
    requires Packed(es, verts, count)
    ensures |vs| == SumOf(es, count)
    decreases |es|
  {
    if es == [] then []
    else
      var e := es[|es| - 1];
      Copied(es[..|es| - 1], verts, count) + verts(e)[..count(e)]
  }

  /** The copied vertices form whole quads. */
  lemma {:induction false} CopiedLength<E>(es: seq<E>, verts: E -> seq<Vertex>, count: E -> nat)
    requires Packed(es, verts, count)
    ensures |Copied(es, verts, count)| % 4 == 0
    decreases |es|
  {
    if es != [] {
      CopiedLength(es[..|es| - 1], verts, count);
    }
  }

  lemma {:induction false} CopiedPrefix<E>(es: seq<E>, verts: E -> seq<Vertex>, count: E -> nat, j: nat)
    requires Packed(es, verts, count) && j < |es|
    ensures Packed(es[..j + 1], verts, count)
    ensures Copied(es[..j + 1], verts, count) == Copied(es[..j], verts, count) + verts(es[j])[..count(es[j])]
    ensures |Copied(es[..j + 1], verts, count)| <= SumOf(es, count)
  {
    assert es[..j + 1][..j] == es[..j];
    SumOfPrefix(es, count, j + 1);
  }

  lemma {:induction false} SumOfPrefix<E>(es: seq<E>, size: E -> nat, j: nat)
    requires j <= |es|
    ensures SumOf(es[..j], size) <= SumOf(es, size)
    decreases |es|
  {
    if j < |es| {
      assert es[..|es| - 1][..j] == es[..j];
      SumOfPrefix(es[..|es| - 1], size, j);
    } else {
      assert es[..j] == es;
    }
  }

  /** One pass of get_geometry's copy loop: entry j's vertices go right
      after those of the entries before it. */
  method CopyEntry<E>(vb: array<Vertex>, ghost vb0: seq<Vertex>, es: seq<E>, verts: E -> seq<Vertex>, count: E -> nat,
                      j: nat, vOff: nat)
    returns (vOff': nat)
    requires Packed(es, verts, count) && j < |es| && Packed(es[..j], verts, count)
    requires SumOf(es, count) <= vb.Length && |vb0| == vb.Length
    requires vOff == |Copied(es[..j], verts, count)| && vOff <= vb.Length
    requires vb[..] == Overlay(vb0, 0, Copied(es[..j], verts, count))
    modifies vb
    ensures Packed(es[..j + 1], verts, count) && vOff' == |Copied(es[..j + 1], verts, count)| && vOff' <= vb.Length
    ensures vOff' == vOff + count(es[j]) && vOff' <= SumOf(es, count)
    ensures vb[..] == Overlay(vb0, 0, Copied(es[..j + 1], verts, count))
  {
    var e := es[j];
    CopiedPrefix(es, verts, count, j);
    OverlayAppend(vb0, 0, Copied(es[..j], verts, count), verts(e)[..count(e)]);
    CopyInto(vb, vOff, verts(e)[..count(e)]);
    vOff' := vOff + count(e);
  }

  /** Reaping keeps every entry whole. */
  lemma {:induction false} SurvivorsPacked<E>(es: seq<E>, verts: E -> seq<Vertex>, count: E -> nat,
                                            usedIn: E -> U32, ttl: U32, generation: U32)
    requires Packed(es, verts, count)
    ensures Packed(Survivors(es, usedIn, ttl, generation), verts, count)
    decreases |es|
  {
    if es != [] {
      var p := es[..|es| - 1];
      SurvivorsPacked(p, verts, count, usedIn, ttl, generation);
      var kept := Survivors(p, usedIn, ttl, generation);
      var last := es[|es| - 1];
      if Live(last, usedIn, ttl, generation) {
        assert forall j :: 0 <= j < |kept| ==> (kept + [last])[j] == kept[j];
      }
    }
  }

  /** Half the vertices of whole quads is two triangles per quad. */
  lemma {:induction false} QuadHalves(n: nat)
    requires n % 4 == 0
    ensures n / 2 == 2 * (n / 4)
  {
    var q := n / 4;
    assert n == 4 * q;
  }

  /** The entry cache() appended, once print has filled it in. */
  lemma {:induction false} FillLast<E>(es: seq<E>, e: E, e': E, verts: E -> seq<Vertex>, count: E -> nat)
    requires Packed(es, verts, count) && count(e') <= |verts(e')| && count(e') % 4 == 0
    ensures (es + [e])[|es| := e'] == es + [e'] && Packed(es + [e'], verts, count)
  {
    assert forall j :: 0 <= j < |es| ==> (es + [e'])[j] == es[j];
  }

  /** m_counter - 1 after ++m_counter, in uint32_t: the generation that
      just ended, also across the wrap from 0xffffffff to 0. */
  lemma {:induction false} PreviousGeneration(c: U32)
    ensures ToU32(ToU32(c + 1) - 1) == c
  {
    if c + 1 == 0x1_0000_0000 {
      assert ToU32(c + 1) == 0;
    } else {
      assert ToU32(c + 1) == c + 1;
    }
  }
}
