/*
 * The glyph atlas: a texture filled left to right in shelves.  A cursor marks
 * the next free pixel of the current shelf and the shelf is as tall as the
 * tallest glyph placed since the atlas was created (the height is never
 * reset when the cursor moves to a new shelf).
 */
module Atlas {
  import opened FontTypes

  /** The pixels [x0, x1) x [y0, y1) of the atlas. */
  datatype Rect = Rect(x0: nat, y0: nat, x1: nat, y1: nat)

  /** The packer's state: atlas size, free cursor and current row height. */
  datatype Shelf = Shelf(width: nat, height: nat, x: nat, y: nat, rowHeight: nat)

  predicate InAtlas(r: Rect, width: nat, height: nat)
  {
    r.x0 <= r.x1 <= width && r.y0 <= r.y1 <= height
  }

  predicate Apart(r: Rect, s: Rect)
  {
    r.x1 <= s.x0 || s.x1 <= r.x0 || r.y1 <= s.y0 || s.y1 <= r.y0
  }

  /** The cursor after the wrap test: a glyph too wide for the rest of the
      shelf sends the cursor to the start of the next shelf. */
  function Wrap(p: Shelf, w: nat): Shelf
  {
    if p.x + w > p.width then p.(x := 0, y := p.y + p.rowHeight) else p
  }

  /** One add of a w x h glyph: the state after it and the rectangle it
      filled, or None when the glyph does not fit after the wrap. */
  function Place(p: Shelf, w: nat, h: nat): (r: (Shelf, Option<Rect>))
    ensures r.0.width == p.width && r.0.height == p.height
    ensures r.0.y >= p.y && r.0.rowHeight >= p.rowHeight
    ensures r.1.None? <==> Wrap(p, w).y + h > p.height || Wrap(p, w).x + w > p.width
    ensures r.1.None? ==> r.0 == Wrap(p, w)
    ensures r.1.Some? ==>
              var c := r.1.value;
              InAtlas(c, p.width, p.height) && c.x1 - c.x0 == w && c.y1 - c.y0 == h
              && c.x0 == Wrap(p, w).x && c.y0 == Wrap(p, w).y
              && r.0 == Wrap(p, w).(x := c.x1, rowHeight := if h > p.rowHeight then h else p.rowHeight)
  {
    var q := Wrap(p, w);
    if q.y + h > q.height || q.x + w > q.width then
      (q, None)
    else
      (q.(x := q.x + w, rowHeight := if h > q.rowHeight then h else q.rowHeight),
       Some(Rect(q.x, q.y, q.x + w, q.y + h)))
  }

  /** Where a placed rectangle sits relative to the cursor: on an earlier
      shelf, or on the current shelf to the left of the cursor. */
  predicate Behind(r: Rect, p: Shelf)
  {
    r.y1 <= p.y || (p.y <= r.y0 && r.x1 <= p.x && r.y1 <= p.y + p.rowHeight)
  }

  /** The packing invariant: the cursor is on the atlas, every placed
      rectangle lies inside the atlas and behind the cursor, and no two
      placed rectangles overlap. */
  predicate Packed(p: Shelf, placed: seq<Rect>)
  {
    && p.x <= p.width
    && (forall i :: 0 <= i < |placed| ==> InAtlas(placed[i], p.width, p.height))
    && (forall i :: 0 <= i < |placed| ==> Behind(placed[i], p))
    && (forall i, j :: 0 <= i < j < |placed| ==> Apart(placed[i], placed[j]))
  }

  function Placed(placed: seq<Rect>, r: Option<Rect>): seq<Rect>
  {
    if r.Some? then placed + [r.value] else placed
  }

  /** Every add keeps the packing invariant: successive placements stay
      inside the atlas and never overlap. */
  lemma {:induction false} PlaceKeepsPacked(p: Shelf, placed: seq<Rect>, w: nat, h: nat)
    requires Packed(p, placed)
    ensures Packed(Place(p, w, h).0, Placed(placed, Place(p, w, h).1))
  {
    var q := Wrap(p, w);
    assert forall i :: 0 <= i < |placed| ==> Behind(placed[i], q);
    var (p', r) := Place(p, w, h);
    if r.Some? {
      var c := r.value;
      var all := placed + [c];
      forall i | 0 <= i < |placed|
        ensures Apart(placed[i], c) && Behind(placed[i], p')
      {
      }
      forall i, j | 0 <= i < j < |all| ensures Apart(all[i], all[j]) {
        if j == |placed| {
          assert Apart(placed[i], c);
        } else {
          assert Apart(placed[i], placed[j]);
        }
      }
      assert Behind(c, p');
    }
  }

  /** An empty atlas is trivially packed. */
  lemma {:induction false} EmptyAtlasPacked(width: nat, height: nat)
    ensures Packed(Shelf(width, height, 0, 0, 0), [])
  {
  }

  /** The row height outlives the shelf: after a 10-pixel-tall glyph the
      shelves below all start 10 pixels apart, even for 2-pixel glyphs. */
  lemma {:induction false} RowHeightIsNeverReset()
    ensures var a := Place(Shelf(4, 100, 0, 0, 0), 4, 10).0;
            var b := Place(a, 4, 2).0;
            var c := Place(b, 4, 2);
            a.y == 0 && b.y == 10 && c.0.y == 20 && c.1 == Some(Rect(0, 20, 4, 22))
  {
  }

  class GlyphAtlas {
    /** GL texture name. */
    const texture: nat
    /** m_size, recorded by init_atlas. */
    const width: nat
    const height: nat
    /** m_freeOff */
    var x: nat
    var y: nat
    /** m_currRowHeight */
    var rowHeight: nat
    /** Rectangles filled so far, oldest first. */
    ghost var placed: seq<Rect>

    function State(): Shelf
      reads this
    {
      Shelf(width, height, x, y, rowHeight)
    }

    ghost predicate Valid()
      reads this
    {
      Packed(State(), placed)
    }

    /** Constructor followed by init_atlas: the cursor and row height start
        at zero and the size is recorded; `texture` is the name the GL
        returned for the new texture. */
    constructor (width: nat, height: nat, texture: nat)
      ensures Valid()
      ensures State() == Shelf(width, height, 0, 0, 0) && placed == []
      ensures this.texture == texture
    {
      this.texture := texture;
      this.width, this.height := width, height;
      x, y, rowHeight := 0, 0, 0;
      placed := [];
    }

    /** add_glyph / add: places a w x h bitmap and returns `out` with its
        texture rectangle and owner filled in.  On failure `out` is
        returned as it came, but a wrap already done stays done. */
    method Add(out: Glyph, w: nat, h: nat) returns (err: int, result: Glyph)
      requires Valid()
      modifies this
      ensures Valid()
      ensures State() == Place(old(State()), w, h).0
      ensures Place(old(State()), w, h).1.None? ==>
                err == ENotEnoughMemory && result == out && placed == old(placed)
      ensures Place(old(State()), w, h).1.Some? ==>
                var r := Place(old(State()), w, h).1.value;
                && err == EOk && placed == old(placed) + [r]
                && result == out.(owner := this, botLeft := TexCoord(r.x0, r.y0),
                                  topRight := TexCoord(r.x1, r.y1))
    {
      PlaceKeepsPacked(State(), placed, w, h);
      if x + w > width {
        y := y + rowHeight;
        x := 0;
      }
      if y + h > height || x + w > width {
        return ENotEnoughMemory, out;
      }
      result := out.(owner := this, botLeft := TexCoord(x, y), topRight := TexCoord(x + w, y + h));
      placed := placed + [Rect(x, y, x + w, y + h)];
      x := x + w;
      if h > rowHeight {
        rowHeight := h;
      }
      err := EOk;
    }
  }
}
