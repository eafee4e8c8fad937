/*
 * FontFace: a glyph memo in front of the rasteriser, plus the measuring and
 * wrapping loops.  The rasteriser is the constant `raster`: for a character
 * it reports the bitmap size, bearing offset and advance, or None when it
 * cannot load the character.  Glyph bitmaps go into the face's atlas.
 */
module Face {
  import opened FontTypes
  import opened Atlas
  import opened TextLayout

  /** What the rasteriser reports for one character. */
  datatype Raster = Raster(size: Size2, off: Vec2, advance: nat)

  /** The code get_glyph looks up: a tab is looked up as a space. */
  function Key(c: Char8): Char8 { if c == '\t' then ' ' else c }

  /** The index of the first stored glyph with the given code. */
  function Lookup(glyphs: seq<Glyph>, code: Char8): (k: Option<nat>)
    ensures k.Some? ==> k.value < |glyphs| && glyphs[k.value].code == code
    ensures k.Some? ==> forall j :: 0 <= j < k.value ==> glyphs[j].code != code
    ensures k.None? ==> forall j :: 0 <= j < |glyphs| ==> glyphs[j].code != code
    decreases |glyphs|
  {
    if glyphs == [] then None
    else if glyphs[0].code == code then Some(0)
    else match Lookup(glyphs[1..], code)
      case None => None
      case Some(k) => Some(k + 1)
  }

  /** Lookup names the one match that has no match before it. */
  lemma {:induction false} LookupIsFirst(glyphs: seq<Glyph>, code: Char8, k: nat)
    requires k < |glyphs| && glyphs[k].code == code
    requires forall j :: 0 <= j < k ==> glyphs[j].code != code
    ensures Lookup(glyphs, code) == Some(k)
    decreases k
  {
    if k > 0 {
      LookupIsFirst(glyphs[1..], code, k - 1);
    }
  }

  /** A stored tab is never found: lookups are by Key, which is never a tab. */
  lemma {:induction false} TabIsNeverFound(glyphs: seq<Glyph>, c: Char8)
    ensures Lookup(glyphs, Key(c)).Some? ==> glyphs[Lookup(glyphs, Key(c)).value].code != '\t'
  {
  }

  /** The advance every use of get_glyph(c) sees: the rasteriser's advance
      for Key(c), or the null glyph's 0 when there is no face or the
      character cannot be loaded. */
  function AdvanceOf(loaded: bool, raster: Char8 -> Option<Raster>, c: Char8): nat
  {
    if loaded && raster(Key(c)).Some? then raster(Key(c)).value.advance else 0
  }

  function Advances(loaded: bool, raster: Char8 -> Option<Raster>): Char8 -> nat
  {
    c => AdvanceOf(loaded, raster, c)
  }

  /** The glyph get_glyph builds from a rasterisation, before the atlas
      fills in its texture rectangle and owner.  The source leaves the
      texture corners and the owner uninitialised; here they are zero and
      null, and stay so when the atlas add fails. */
  function NewGlyph(code: Char8, r: Raster): Glyph
  {
    Glyph(code, TexCoord(0, 0), TexCoord(0, 0), r.size, r.off, r.advance, null)
  }

  /** The part of split's loop body after the glyph lookup, for a character
      other than '\n' whose advance is `a`: the wrap decision, with the line
      it appends, if any. */
  method BreakAt(text: String8, width: nat, mode: WrapMode, ghost adv: Char8 -> nat, i: nat, a: nat,
                 lineStart: nat, off: nat, lastSpace: nat, lastWordWidth: nat)
    returns (lineStart': nat, off': nat, lastSpace': nat, lastWordWidth': nat, line: Option<String8>)
    requires i < |text| && text[i] != '\n' && lineStart <= i && lastSpace <= i && adv(text[i]) == a
    ensures var next := SplitStep(text, width, mode, adv, i, SplitState(lineStart, off, lastSpace, lastWordWidth, []));
            && SplitState(lineStart', off', lastSpace', lastWordWidth', if line.Some? then [line.value] else []) == next
  {
    lineStart', off', lastSpace', lastWordWidth', line := lineStart, off, lastSpace, lastWordWidth, None;
    if mode == LineWrap {
      if off' + a > width {
        line := Some(text[lineStart'..i] + ['\n']);
        lineStart' := i;
        off' := 0;
      }
    } else if mode == WordWrap {
      if text[i] == ' ' || text[i] == '\t' {
        lastSpace' := i;
        lastWordWidth' := 0;
      }
      if off' + a > width {
        if lastSpace' > lineStart' {
          line := Some(text[lineStart'..lastSpace'] + ['\n']);
          lineStart' := lastSpace' + 1;
          off' := lastWordWidth';
          lastWordWidth' := 0;
        } else {
          line := Some(text[lineStart'..i] + ['\n']);
          lineStart' := i;
          off' := 0;
        }
      }
      lastWordWidth' := lastWordWidth' + a;
    }
    off' := off' + a;
  }

  /** A step's new lines do not depend on the lines already emitted. */
  lemma {:induction false} StepLines(text: String8, width: nat, mode: WrapMode, adv: Char8 -> nat, i: nat, st: SplitState)
    requires i < |text| && st.lineStart <= i && st.lastSpace <= i
    ensures var a := SplitStep(text, width, mode, adv, i, st.(lines := []));
            SplitStep(text, width, mode, adv, i, st) == a.(lines := st.lines + a.lines)
  {
  }

  lemma {:induction false} NewlineStep(text: String8, width: nat, mode: WrapMode, adv: Char8 -> nat, i: nat, st: SplitState)
    requires i < |text| && text[i] == '\n' && st.lineStart <= i && st.lastSpace <= i
    ensures SplitFrom(text, width, mode, adv, i, st) ==
              SplitFrom(text, width, mode, adv, i + 1,
                        st.(lines := st.lines + [if i == st.lineStart then ['\n'] else text[st.lineStart..i + 1]],
                            lineStart := i + 1, off := 0))
  {
  }

  lemma {:induction false} CharStep(text: String8, width: nat, mode: WrapMode, adv: Char8 -> nat, i: nat, st: SplitState,
                 step: SplitState)
    requires i < |text| && text[i] != '\n' && st.lineStart <= i && st.lastSpace <= i
    requires step == SplitStep(text, width, mode, adv, i, st.(lines := []))
    ensures SplitFrom(text, width, mode, adv, i, st) ==
              SplitFrom(text, width, mode, adv, i + 1, step.(lines := st.lines + step.lines))
  {
    StepLines(text, width, mode, adv, i, st);
  }

  /** A run's new lines do not depend on the lines already emitted. */
  lemma {:induction false} RunLines(text: String8, width: nat, mode: WrapMode, adv: Char8 -> nat, i: nat,
                                    st: SplitState, prior: seq<String8>)
    requires i <= |text| && st.lineStart <= i && st.lastSpace <= i
    ensures var r := SplitFrom(text, width, mode, adv, i, st);
            SplitFrom(text, width, mode, adv, i, st.(lines := prior + st.lines)) == r.(lines := prior + r.lines)
    decreases |text| - i
  {
    if i < |text| {
      var next := SplitStep(text, width, mode, adv, i, st);
      StepLines(text, width, mode, adv, i, st);
      StepLines(text, width, mode, adv, i, st.(lines := prior + st.lines));
      assert SplitStep(text, width, mode, adv, i, st.(lines := prior + st.lines)) == next.(lines := prior + next.lines);
      RunLines(text, width, mode, adv, i + 1, next, prior);
    }
  }

  /** The loop, started on `prior` lines, has run to the end: what split
      appends and returns. */
  lemma {:induction false} SplitDone(text: String8, width: nat, mode: WrapMode, adv: Char8 -> nat, prior: seq<String8>, st: SplitState)
    requires st.lineStart <= |text| && st.lastSpace <= |text|
    requires SplitFrom(text, width, mode, adv, |text|, st) == SplitFrom(text, width, mode, adv, 0, SplitStart.(lines := prior))
    ensures prior + TextLayout.Split(text, width, mode, adv).0 == st.lines + LastLine(text, st)
    ensures TextLayout.Split(text, width, mode, adv).1 == st.off
  {
    RunLines(text, width, mode, adv, 0, SplitStart, prior);
    assert SplitStart.(lines := prior + SplitStart.lines) == SplitStart.(lines := prior);
  }

  class FontFace {
    /** m_ftFace != 0: the face file was opened. */
    const loaded: bool
    /** FT_Load_Char with the metrics the glyph takes from it. */
    const raster: Char8 -> Option<Raster>
    /** m_maxSize, in whole pixels. */
    const maxSize: Size2
    /** m_atlas */
    const atlas: GlyphAtlas
    /** m_glyphs */
    var glyphs: seq<Glyph>

    /** The advance of every character, as get_glyph reports it. */
    function Adv(): Char8 -> nat
    {
      Advances(loaded, raster)
    }

    /** Every stored glyph carries the rasteriser's metrics for its key. */
    predicate Stored(g: Glyph)
    {
      loaded && raster(Key(g.code)).Some?
      && g.size == raster(Key(g.code)).value.size
      && g.off == raster(Key(g.code)).value.off
      && g.advance == raster(Key(g.code)).value.advance
    }

    /** What get_glyph(c) may return: Glyph::null when there is no face or
        c's key cannot be rasterised, and otherwise a glyph for that key
        carrying the rasteriser's metrics. */
    predicate Returns(c: Char8, g: Glyph)
    {
      if loaded && raster(Key(c)).Some? then Stored(g) && Key(g.code) == Key(c)
      else g == NullGlyph
    }

    ghost predicate Valid()
      reads this, atlas
    {
      atlas.Valid() && forall k :: 0 <= k < |glyphs| ==> Stored(glyphs[k])
    }

    /** FontFace(face, size): a 128 x 128 atlas and no glyphs yet. */
    constructor (loaded: bool, raster: Char8 -> Option<Raster>, maxSize: Size2, texture: nat)
      ensures Valid() && fresh(atlas)
      ensures this.loaded == loaded && this.raster == raster && this.maxSize == maxSize
      ensures atlas.State() == Shelf(128, 128, 0, 0, 0) && glyphs == []
    {
      this.loaded, this.raster, this.maxSize := loaded, raster, maxSize;
      atlas := new GlyphAtlas(128, 128, texture);
      glyphs := [];
    }

    /** get_glyph(code): the memoised glyph for a character. */
    method GetGlyph(code: Char8) returns (g: Glyph)
      requires Valid()
      modifies this, atlas
      ensures Valid()
      ensures Returns(code, g) && g.advance == AdvanceOf(loaded, raster, code)
      ensures !loaded ==> g == NullGlyph && glyphs == old(glyphs) && unchanged(atlas)
      ensures loaded && Lookup(old(glyphs), Key(code)).Some? ==>
                g == old(glyphs)[Lookup(old(glyphs), Key(code)).value]
                && glyphs == old(glyphs) && unchanged(atlas)
      ensures loaded && Lookup(old(glyphs), Key(code)).None? && raster(Key(code)).None? ==>
                g == NullGlyph && glyphs == old(glyphs) && unchanged(atlas)
      ensures loaded && Lookup(old(glyphs), Key(code)).None? && raster(Key(code)).Some? ==>
                var r := raster(Key(code)).value;
                var p := Place(old(atlas.State()), r.size.width, r.size.height);
                && atlas.State() == p.0
                && glyphs == old(glyphs) + [g]
                && (p.1.None? ==> g == NewGlyph(code, r))
                && (p.1.Some? ==> g == NewGlyph(code, r).(owner := atlas,
                                        botLeft := TexCoord(p.1.value.x0, p.1.value.y0),
                                        topRight := TexCoord(p.1.value.x1, p.1.value.y1)))
    {
      if !loaded {
        return NullGlyph;
      }
      var key := Key(code);
      var i := 0;
      while i < |glyphs|
        invariant i <= |glyphs|
        invariant forall j :: 0 <= j < i ==> glyphs[j].code != key
      {
        if glyphs[i].code == key {
          LookupIsFirst(glyphs, key, i);
          return glyphs[i];
        }
        i := i + 1;
      }
      var r := raster(key);
      if r.None? {
        return NullGlyph;
      }
      var glyph := NewGlyph(code, r.value);
      var err;
      err, glyph := atlas.Add(glyph, r.value.size.width, r.value.size.height);
      glyphs := glyphs + [glyph];
      g := glyph;
    }

    /** text_width(text): the width of the widest '\n'-separated line. */
    method TextWidth(text: String8) returns (w: nat)
      requires Valid()
      modifies this, atlas
      ensures Valid()
      ensures w == WidestLine(text, Adv())
    {
      var maxWidth, width := 0, 0;
      assert text[..0] == [];
      for i := 0 to |text|
        invariant Valid()
        invariant maxWidth == Measure(text[..i], Adv()).widest
        invariant width == Measure(text[..i], Adv()).open
      {
        MeasureStepAt(text, i, Adv());
        if text[i] == '\n' {
          if width > maxWidth {
            maxWidth := width;
          }
          width := 0;
          continue;
        }
        var glyph := GetGlyph(text[i]);
        width := width + glyph.advance;
      }
      if width > maxWidth {
        maxWidth := width;
      }
      assert text[..|text|] == text;
      MeasureWhole(text, Adv());
      w := maxWidth;
    }

    /** One character of split's loop other than '\n': looks up its glyph
        and takes the wrap decision; `line` is the line it appends, if any. */
    method SplitChar(text: String8, width: nat, mode: WrapMode, i: nat,
                     lineStart: nat, off: nat, lastSpace: nat, lastWordWidth: nat)
      returns (lineStart': nat, off': nat, lastSpace': nat, lastWordWidth': nat, line: Option<String8>)
      requires Valid()
      requires i < |text| && text[i] != '\n' && lineStart <= i && lastSpace <= i
      modifies this, atlas
      ensures Valid()
      ensures SplitState(lineStart', off', lastSpace', lastWordWidth', if line.Some? then [line.value] else [])
              == SplitStep(text, width, mode, Adv(), i, SplitState(lineStart, off, lastSpace, lastWordWidth, []))
    {
      var glyph := GetGlyph(text[i]);
      lineStart', off', lastSpace', lastWordWidth', line :=
        BreakAt(text, width, mode, Adv(), i, glyph.advance, lineStart, off, lastSpace, lastWordWidth);
    }

    /** One pass of split's loop at index i: a '\n' closes the line,
        anything else goes through SplitChar. */
    method SplitAt(text: String8, width: nat, mode: WrapMode, i: nat,
                   lineStart: nat, off: nat, lastSpace: nat, lastWordWidth: nat, lines: seq<String8>)
      returns (lineStart': nat, off': nat, lastSpace': nat, lastWordWidth': nat, lines': seq<String8>)
      requires Valid()
      requires i < |text| && lineStart <= i && lastSpace <= i
      modifies this, atlas
      ensures Valid()
      ensures lineStart' <= i + 1 && lastSpace' <= i + 1
      ensures SplitFrom(text, width, mode, Adv(), i + 1, SplitState(lineStart', off', lastSpace', lastWordWidth', lines'))
              == SplitFrom(text, width, mode, Adv(), i, SplitState(lineStart, off, lastSpace, lastWordWidth, lines))
    {
      var st := SplitState(lineStart, off, lastSpace, lastWordWidth, lines);
      if text[i] == '\n' {
        NewlineStep(text, width, mode, Adv(), i, st);
        var line: String8 := if i == lineStart then ['\n'] else text[lineStart..i + 1];
        lines' := lines + [line];
        lineStart', off', lastSpace', lastWordWidth' := i + 1, 0, lastSpace, lastWordWidth;
      } else {
        var line: Option<String8>;
        lineStart', off', lastSpace', lastWordWidth', line :=
          SplitChar(text, width, mode, i, lineStart, off, lastSpace, lastWordWidth);
        lines' := if line.Some? then lines + [line.value] else lines;
        CharStep(text, width, mode, Adv(), i, st,
                 SplitState(lineStart', off', lastSpace', lastWordWidth', if line.Some? then [line.value] else []));
      }
    }

    /** split(text, width, lines, mode): appends the wrapped lines to
        `lines` and returns the width of the last one. */
    method Split(text: String8, width: nat, lines: seq<String8>, mode: WrapMode)
      returns (newLines: seq<String8>, off: nat)
      requires Valid()
      modifies this, atlas
      ensures Valid()
      ensures newLines == lines + TextLayout.Split(text, width, mode, Adv()).0
      ensures off == TextLayout.Split(text, width, mode, Adv()).1
    {
      var lineStart: nat, lastSpace: nat, lastWordWidth: nat := 0, 0, 0;
      off := 0;
      newLines := lines;
      ghost var final: SplitState := SplitFrom(text, width, mode, Adv(), 0, SplitStart.(lines := lines));
      for i := 0 to |text|
        invariant Valid()
        invariant lineStart <= i && lastSpace <= i
        invariant SplitFrom(text, width, mode, Adv(), i,
                            SplitState(lineStart, off, lastSpace, lastWordWidth, newLines)) == final
      {
        lineStart, off, lastSpace, lastWordWidth, newLines :=
          SplitAt(text, width, mode, i, lineStart, off, lastSpace, lastWordWidth, newLines);
      }
      SplitDone(text, width, mode, Adv(), lines, SplitState(lineStart, off, lastSpace, lastWordWidth, newLines));
      if off > 0 {
        var line: String8 := text[lineStart..] + ['\n'];
        newLines := newLines + [line];
      }
    }
  }

  /** For a character other than NUL, what get_glyph returns is null
      exactly when the character cannot be rasterised, and its advance is
      the one text_width measures. */
  lemma {:induction false} ReturnsNullExactly(face: FontFace, c: Char8, g: Glyph)
    requires face.Returns(c, g) && c != NUL
    ensures IsNullGlyph(g) <==> !(face.loaded && face.raster(Key(c)).Some?)
    ensures g.advance == face.Adv()(c)
  {
    if face.loaded && face.raster(Key(c)).Some? {
      assert Key(g.code) != NUL;
      NonNulCodeIsNotNull(g);
    }
  }

  /** Whatever the memo holds, every character measures at the rasteriser's
      advance for its key: a tab measures as a space. */
  lemma {:induction false} TabMeasuresAsSpace(loaded: bool, raster: Char8 -> Option<Raster>)
    ensures AdvanceOf(loaded, raster, '\t') == AdvanceOf(loaded, raster, ' ')
    ensures !loaded ==> forall c :: AdvanceOf(loaded, raster, c) == 0
  {
  }
}
