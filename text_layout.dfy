/*
 * Measuring and wrapping text by glyph advances, as FontFace does it.  The
 * advance of each character is a parameter `adv`; the FontFace class
 * supplies the advances of its rasteriser.
 */
module TextLayout {
  import opened FontTypes

  /** TextWrap::Mode */
  datatype WrapMode = NoWrap | LineWrap | WordWrap

  const NewlineOnly: set<Char8> := {'\n'}
  /** The characters a word wrap may drop: the break space and newlines. */
  const Blanks: set<Char8> := {' ', '\t', '\n'}

  /** Total advance of a run of characters. */
  function SumAdvance(s: String8, adv: Char8 -> nat): nat
    decreases |s|
  {
    if s == [] then 0 else SumAdvance(s[..|s| - 1], adv) + adv(s[|s| - 1])
  }

  lemma {:induction false} SumAdvanceConcat(a: String8, b: String8, adv: Char8 -> nat)
    ensures SumAdvance(a + b, adv) == SumAdvance(a, adv) + SumAdvance(b, adv)
    decreases |b|
  {
    if b == [] {
      assert a + b == a;
    } else {
      assert (a + b)[..|a + b| - 1] == a + b[..|b| - 1];
      SumAdvanceConcat(a, b[..|b| - 1], adv);
    }
  }

  /** The text with the characters of `drop` removed. */
  function Without(s: String8, drop: set<Char8>): String8
    decreases |s|
  {
    if s == [] then []
    else Without(s[..|s| - 1], drop) + (if s[|s| - 1] in drop then [] else [s[|s| - 1]])
  }

  lemma {:induction false} WithoutConcat(a: String8, b: String8, drop: set<Char8>)
    ensures Without(a + b, drop) == Without(a, drop) + Without(b, drop)
    decreases |b|
  {
    if b == [] {
      assert a + b == a;
    } else {
      assert (a + b)[..|a + b| - 1] == a + b[..|b| - 1];
      WithoutConcat(a, b[..|b| - 1], drop);
    }
  }

  // ---------------------------------------------------------------------
  // text_width

  /** The '\n'-separated lines of a text (a text without '\n' is one line). */
  function Lines(s: String8): (ls: seq<String8>)
    ensures |ls| >= 1
    decreases |s|
  {
    if s == [] then [[]]
    else
      var ls := Lines(s[..|s| - 1]);
      if s[|s| - 1] == '\n' then ls + [[]]
      else ls[..|ls| - 1] + [ls[|ls| - 1] + [s[|s| - 1]]]
  }

  /** The inverse of Lines: the lines glued back with '\n'. */
  function JoinLines(ls: seq<String8>): String8
    requires |ls| >= 1
    decreases |ls|
  {
    if |ls| == 1 then ls[0] else JoinLines(ls[..|ls| - 1]) + ['\n'] + ls[|ls| - 1]
  }

  /** Splitting at newlines and joining again gives back the text. */
  lemma {:induction false} JoinLinesOfLines(s: String8)
    ensures JoinLines(Lines(s)) == s
    decreases |s|
  {
    if s != [] {
      var p, c := s[..|s| - 1], s[|s| - 1];
      JoinLinesOfLines(p);
      assert s == p + [c];
      LinesSnoc(p, c);
      if c == '\n' {
        JoinLinesNewline(Lines(p));
      } else {
        JoinLinesExtend(Lines(p), c);
      }
    }
  }

  /** Lines of a text one character longer. */
  lemma {:induction false} LinesSnoc(p: String8, c: Char8)
    ensures Lines(p + [c]) ==
              if c == '\n' then Lines(p) + [[]]
              else Lines(p)[..|Lines(p)| - 1] + [Lines(p)[|Lines(p)| - 1] + [c]]
  {
    assert (p + [c])[..|p|] == p;
  }

  lemma {:induction false} JoinLinesNewline(ls: seq<String8>)
    requires |ls| >= 1
    ensures JoinLines(ls + [[]]) == JoinLines(ls) + ['\n']
  {
    assert (ls + [[]])[..|ls|] == ls;
  }

  lemma {:induction false} JoinLinesExtend(ls: seq<String8>, c: Char8)
    requires |ls| >= 1
    ensures JoinLines(ls[..|ls| - 1] + [ls[|ls| - 1] + [c]]) == JoinLines(ls) + [c]
  {
    var n := |ls|;
    var ls' := ls[..n - 1] + [ls[n - 1] + [c]];
    if n > 1 {
      assert ls'[..n - 1] == ls[..n - 1];
      var j := JoinLines(ls[..n - 1]);
      assert j + ['\n'] + (ls[n - 1] + [c]) == (j + ['\n'] + ls[n - 1]) + [c];
    }
  }

  lemma {:induction false} LinesHaveNoNewline(s: String8)
    ensures forall k :: 0 <= k < |Lines(s)| ==> '\n' !in Lines(s)[k]
    decreases |s|
  {
    if s != [] {
      var p, c := s[..|s| - 1], s[|s| - 1];
      LinesHaveNoNewline(p);
      var lp := Lines(p);
      var n := |lp|;
      if c != '\n' {
        assert '\n' !in lp[n - 1] + [c];
      }
    }
  }

  /** A newline-free run is one line. */
  lemma {:induction false} LinesOfPlain(l: String8)
    requires '\n' !in l
    ensures Lines(l) == [l]
    decreases |l|
  {
    if l != [] {
      var l', c := l[..|l| - 1], l[|l| - 1];
      LinesOfPlain(l');
      assert c in l;
      assert l' + [c] == l;
    }
  }

  /** Appending a newline and a newline-free run adds one line. */
  lemma {:induction false} LinesAppendLine(x: String8, l: String8)
    requires '\n' !in l
    ensures Lines(x + ['\n'] + l) == Lines(x) + [l]
    decreases |l|
  {
    var y := x + ['\n'] + l;
    if l == [] {
      assert y[..|y| - 1] == x;
      assert y[|y| - 1] == '\n';
    } else {
      var l', c := l[..|l| - 1], l[|l| - 1];
      assert c in l;
      assert y[..|y| - 1] == x + ['\n'] + l';
      assert y[|y| - 1] == c;
      LinesAppendLine(x, l');
      var ly' := Lines(x) + [l'];
      assert Lines(y) == ly'[..|ly'| - 1] + [ly'[|ly'| - 1] + [c]];
      assert ly'[..|ly'| - 1] == Lines(x);
      assert l' + [c] == l;
    }
  }

  /** Joining newline-free lines and splitting again gives back the lines. */
  lemma {:induction false} LinesOfJoinLines(ls: seq<String8>)
    requires |ls| >= 1
    requires forall k :: 0 <= k < |ls| ==> '\n' !in ls[k]
    ensures Lines(JoinLines(ls)) == ls
    decreases |ls|
  {
    if |ls| == 1 {
      LinesOfPlain(ls[0]);
    } else {
      var n := |ls|;
      LinesOfJoinLines(ls[..n - 1]);
      LinesAppendLine(JoinLines(ls[..n - 1]), ls[n - 1]);
      assert ls[..n - 1] + [ls[n - 1]] == ls;
    }
  }

  /** Largest element, 0 for none. */
  function MaxOf(xs: seq<nat>): nat
    decreases |xs|
  {
    if xs == [] then 0
    else
      var m := MaxOf(xs[..|xs| - 1]);
      if xs[|xs| - 1] > m then xs[|xs| - 1] else m
  }

  lemma {:induction false} MaxOfIsMax(xs: seq<nat>)
    ensures forall k :: 0 <= k < |xs| ==> xs[k] <= MaxOf(xs)
    ensures xs != [] ==> exists k :: 0 <= k < |xs| && xs[k] == MaxOf(xs)
    decreases |xs|
  {
    if xs != [] {
      var p := xs[..|xs| - 1];
      MaxOfIsMax(p);
      assert forall k :: 0 <= k < |p| ==> xs[k] == p[k];
      if p != [] && MaxOf(p) >= xs[|xs| - 1] {
        var k :| 0 <= k < |p| && p[k] == MaxOf(p);
        assert xs[k] == MaxOf(xs);
      }
    }
  }

  /** The width of each line. */
  function Widths(ls: seq<String8>, adv: Char8 -> nat): (ws: seq<nat>)
    ensures |ws| == |ls|
    decreases |ls|
  {
    if ls == [] then [] else Widths(ls[..|ls| - 1], adv) + [SumAdvance(ls[|ls| - 1], adv)]
  }

  /** What text_width computes: the width of the widest line. */
  function WidestLine(s: String8, adv: Char8 -> nat): nat
  {
    MaxOf(Widths(Lines(s), adv))
  }

  /** Each width is the advance of its line. */
  lemma {:induction false} WidthsAt(ls: seq<String8>, adv: Char8 -> nat)
    ensures forall k :: 0 <= k < |ls| ==> Widths(ls, adv)[k] == SumAdvance(ls[k], adv)
    decreases |ls|
  {
    if ls != [] {
      WidthsAt(ls[..|ls| - 1], adv);
    }
  }

  /** The widest line is at least as wide as every line and as wide as one
      of them; the empty text is 0 wide. */
  lemma {:induction false} WidestLineIsMax(s: String8, adv: Char8 -> nat)
    ensures forall l :: l in Lines(s) ==> SumAdvance(l, adv) <= WidestLine(s, adv)
    ensures exists l :: l in Lines(s) && SumAdvance(l, adv) == WidestLine(s, adv)
    ensures s == [] ==> WidestLine(s, adv) == 0
  {
    var ls := Lines(s);
    var ws := Widths(ls, adv);
    WidthsAt(ls, adv);
    MaxOfIsMax(ws);
    forall l | l in ls ensures SumAdvance(l, adv) <= WidestLine(s, adv) {
      var k :| 0 <= k < |ls| && ls[k] == l;
      assert ws[k] == SumAdvance(l, adv);
    }
    var k :| 0 <= k < |ws| && ws[k] == MaxOf(ws);
    assert ls[k] in ls;
  }

  /** The two accumulators of text_width after a prefix of the text: the
      widest finished line and the width of the line still open. */
  datatype Extent = Extent(widest: nat, open: nat)

  function Measure(s: String8, adv: Char8 -> nat): Extent
  {
    var ws := Widths(Lines(s), adv);
    Extent(MaxOf(ws[..|ws| - 1]), ws[|ws| - 1])
  }

  /** text_width's loop body on the accumulators (widest, open line). */
  function MeasureChar(m: Extent, c: Char8, adv: Char8 -> nat): Extent
  {
    if c == '\n' then Extent(if m.open > m.widest then m.open else m.widest, 0)
    else Extent(m.widest, m.open + adv(c))
  }

  /** One more character: a newline closes the open line, anything else
      widens it. */
  lemma {:induction false} MeasureStep(s: String8, c: Char8, adv: Char8 -> nat)
    ensures Measure(s + [c], adv) == MeasureChar(Measure(s, adv), c, adv)
  {
    var ls := Lines(s);
    var n := |ls|;
    var ws := Widths(ls[..n - 1], adv);
    var x := SumAdvance(ls[n - 1], adv);
    assert ls[..n - 1] + [ls[n - 1]] == ls;
    WidthsSnoc(ls[..n - 1], ls[n - 1], adv);
    MeasureOfWidths(s, adv, ws, x);
    if c == '\n' {
      MeasureNewline(s, adv, ws, x);
    } else {
      WidthsOther(s, c, adv, ws, x);
      MeasureOfWidths(s + [c], adv, ws, x + adv(c));
    }
  }

  lemma {:induction false} MeasureNewline(s: String8, adv: Char8 -> nat, ws: seq<nat>, x: nat)
    requires Widths(Lines(s), adv) == ws + [x]
    ensures Measure(s + ['\n'], adv) == Extent(if x > MaxOf(ws) then x else MaxOf(ws), 0)
  {
    LinesSnoc(s, '\n');
    WidthsSnoc(Lines(s), [], adv);
    MeasureOfWidths(s + ['\n'], adv, ws + [x], 0);
    MaxOfSnoc(ws, x);
  }

  /** A character other than '\n' widens the last line. */
  lemma {:induction false} WidthsOther(s: String8, c: Char8, adv: Char8 -> nat, ws: seq<nat>, x: nat)
    requires c != '\n'
    requires Widths(Lines(s), adv) == ws + [x]
    ensures Widths(Lines(s + [c]), adv) == ws + [x + adv(c)]
  {
    var ls := Lines(s);
    var l := ls[|ls| - 1] + [c];
    LinesWiden(s, c, ls);
    SumAdvanceSnoc(ls[|ls| - 1], c, adv);
    WidthsReplaceLast(ls, l, adv, ws, x);
    assert Widths(Lines(s + [c]), adv) == Widths(ls[..|ls| - 1] + [l], adv);
    assert SumAdvance(l, adv) == x + adv(c);
  }

  /** A character other than '\n' extends the last line. */
  lemma {:induction false} LinesWiden(s: String8, c: Char8, ls: seq<String8>)
    requires c != '\n' && ls == Lines(s)
    ensures Lines(s + [c]) == ls[..|ls| - 1] + [ls[|ls| - 1] + [c]]
  {
    assert (s + [c])[..|s|] == s;
  }

  /** Replacing the last line changes only the last width. */
  lemma {:induction false} WidthsReplaceLast(ls: seq<String8>, l: String8, adv: Char8 -> nat, ws: seq<nat>, x: nat)
    requires |ls| >= 1 && Widths(ls, adv) == ws + [x]
    ensures SumAdvance(ls[|ls| - 1], adv) == x
    ensures Widths(ls[..|ls| - 1] + [l], adv) == ws + [SumAdvance(l, adv)]
  {
    var n := |ls|;
    assert ls[..n - 1] + [ls[n - 1]] == ls;
    WidthsSnoc(ls[..n - 1], ls[n - 1], adv);
    assert (ws + [x])[..n - 1] == ws && (ws + [x])[n - 1] == x;
    WidthsSnoc(ls[..n - 1], l, adv);
  }

  lemma {:induction false} SumAdvanceSnoc(l: String8, c: Char8, adv: Char8 -> nat)
    ensures SumAdvance(l + [c], adv) == SumAdvance(l, adv) + adv(c)
  {
    assert (l + [c])[..|l|] == l;
  }

  lemma {:induction false} MaxOfSnoc(xs: seq<nat>, x: nat)
    ensures MaxOf(xs + [x]) == if x > MaxOf(xs) then x else MaxOf(xs)
  {
    assert (xs + [x])[..|xs|] == xs;
  }

  /** Measure in terms of a snoc form of the line widths. */
  lemma {:induction false} MeasureOfWidths(s: String8, adv: Char8 -> nat, ws: seq<nat>, last: nat)
    requires Widths(Lines(s), adv) == ws + [last]
    ensures Measure(s, adv) == Extent(MaxOf(ws), last)
  {
    assert (ws + [last])[..|ws|] == ws;
  }

  lemma {:induction false} WidthsSnoc(ls: seq<String8>, l: String8, adv: Char8 -> nat)
    ensures Widths(ls + [l], adv) == Widths(ls, adv) + [SumAdvance(l, adv)]
  {
    assert (ls + [l])[..|ls|] == ls;
  }

  lemma {:induction false} MeasureStepAt(s: String8, i: nat, adv: Char8 -> nat)
    requires i < |s|
    ensures Measure(s[..i + 1], adv) == MeasureChar(Measure(s[..i], adv), s[i], adv)
  {
    assert s[..i + 1] == s[..i] + [s[i]];
    MeasureStep(s[..i], s[i], adv);
  }

  /** Closing the open line at the end gives the widest line. */
  lemma {:induction false} MeasureWhole(s: String8, adv: Char8 -> nat)
    ensures WidestLine(s, adv) ==
              if Measure(s, adv).open > Measure(s, adv).widest then Measure(s, adv).open else Measure(s, adv).widest
  {
  }

  // ---------------------------------------------------------------------
  // The pen of text drawn line by line

  /** y moved down by n lines of the given height. */
  function Below(y: int, lineHeight: int, n: nat): int
  {
    if n == 0 then y else Below(y, lineHeight, n - 1) - lineHeight
  }

  lemma {:induction false} BelowIsProduct(y: int, lineHeight: int, n: nat)
    ensures Below(y, lineHeight, n) == y - lineHeight * n
  {
    if n > 0 {
      BelowIsProduct(y, lineHeight, n - 1);
      assert lineHeight * n == lineHeight * (n - 1) + lineHeight;
    }
  }

  /** Where the pen of s drawn from `start` ends, by text_width's measure:
      the width of the open line right of the start, one line height lower
      for every line break. */
  function MeasuredPen(s: String8, start: Vec2, lineHeight: int, adv: Char8 -> nat): Vec2
  {
    Vec2(start.x + Measure(s, adv).open, Below(start.y, lineHeight, |Lines(s)| - 1))
  }

  /** One character more: a line break takes the pen back to the start
      column one line lower, any other character moves it right by its
      advance. */
  lemma {:induction false} MeasuredPenStep(s: String8, c: Char8, start: Vec2, lineHeight: int, adv: Char8 -> nat)
    ensures MeasuredPen(s + [c], start, lineHeight, adv)
            == if c == '\n' then Vec2(start.x, MeasuredPen(s, start, lineHeight, adv).y - lineHeight)
               else Vec2(MeasuredPen(s, start, lineHeight, adv).x + adv(c), MeasuredPen(s, start, lineHeight, adv).y)
  {
    MeasureStep(s, c, adv);
    LinesSnoc(s, c);
    var k := |Lines(s)| - 1;
    if c == '\n' {
      assert |Lines(s + [c])| - 1 == k + 1;
    } else {
      assert |Lines(s + [c])| - 1 == k;
    }
  }

  lemma {:induction false} MeasuredPenAt(msg: String8, n: nat, start: Vec2, lineHeight: int, adv: Char8 -> nat)
    requires 0 < n <= |msg|
    ensures MeasuredPen(msg[..n], start, lineHeight, adv)
            == if msg[n - 1] == '\n' then Vec2(start.x, MeasuredPen(msg[..n - 1], start, lineHeight, adv).y - lineHeight)
               else Vec2(MeasuredPen(msg[..n - 1], start, lineHeight, adv).x + adv(msg[n - 1]),
                         MeasuredPen(msg[..n - 1], start, lineHeight, adv).y)
  {
    assert msg[..n] == msg[..n - 1] + [msg[n - 1]];
    MeasuredPenStep(msg[..n - 1], msg[n - 1], start, lineHeight, adv);
  }

  // ---------------------------------------------------------------------
  // split

  /** The locals of split's loop, and the lines it has appended so far. */
  datatype SplitState = SplitState(lineStart: nat, off: nat, lastSpace: nat,
                                   lastWordWidth: nat, lines: seq<String8>)

  const SplitStart: SplitState := SplitState(0, 0, 0, 0, [])

  /** An explicit '\n' closes the line, newline included. */
  function NewlineBreak(text: String8, i: nat, st: SplitState): SplitState
    requires i < |text| && st.lineStart <= i
  {
    var line: String8 := if i == st.lineStart then ['\n'] else text[st.lineStart..i + 1];
    st.(lines := st.lines + [line], lineStart := i + 1, off := 0)
  }

  /** LineWrap on a character other than '\n': a character that would
      overflow the line starts a new one. */
  function LineWrapChar(text: String8, width: nat, adv: Char8 -> nat, i: nat, st: SplitState): SplitState
    requires i < |text| && st.lineStart <= i
  {
    var a := adv(text[i]);
    var s1 :=
      if st.off + a > width then
        var line: String8 := text[st.lineStart..i] + ['\n'];
        st.(lines := st.lines + [line], lineStart := i, off := 0)
      else st;
    s1.(off := s1.off + a)
  }

  predicate IsSpace(c: Char8) { c == ' ' || c == '\t' }

  /** The state after the space test of a WordWrap iteration. */
  function NoteSpace(text: String8, i: nat, st: SplitState): SplitState
    requires i < |text|
  {
    if IsSpace(text[i]) then st.(lastSpace := i, lastWordWidth := 0) else st
  }

  /** The rest of a WordWrap iteration on a non-newline character. */
  function WordWrapFinish(text: String8, width: nat, adv: Char8 -> nat, i: nat, s1: SplitState): SplitState
    requires i < |text| && s1.lineStart <= i && s1.lastSpace <= i
  {
    var a := adv(text[i]);
    var s2 :=
      if s1.off + a <= width then s1
      else if s1.lastSpace > s1.lineStart then
        var line: String8 := text[s1.lineStart..s1.lastSpace] + ['\n'];
        s1.(lines := s1.lines + [line],
            lineStart := s1.lastSpace + 1, off := s1.lastWordWidth, lastWordWidth := 0)
      else
        var line: String8 := text[s1.lineStart..i] + ['\n'];
        s1.(lines := s1.lines + [line], lineStart := i, off := 0);
    s2.(lastWordWidth := s2.lastWordWidth + a, off := s2.off + a)
  }

  /** One iteration of split's loop, at character i. */
  function SplitStep(text: String8, width: nat, mode: WrapMode, adv: Char8 -> nat,
                     i: nat, st: SplitState): (r: SplitState)
    requires i < |text| && st.lineStart <= i && st.lastSpace <= i
    ensures r.lineStart <= i + 1 && r.lastSpace <= i
    ensures |st.lines| <= |r.lines| <= |st.lines| + 1 && r.lines[..|st.lines|] == st.lines
  {
    if text[i] == '\n' then NewlineBreak(text, i, st)
    else match mode
      case NoWrap => st.(off := st.off + adv(text[i]))
      case LineWrap => LineWrapChar(text, width, adv, i, st)
      case WordWrap => WordWrapFinish(text, width, adv, i, NoteSpace(text, i, st))
  }

  /** The loop from character i to the end. */
  function SplitFrom(text: String8, width: nat, mode: WrapMode, adv: Char8 -> nat,
                     i: nat, st: SplitState): (r: SplitState)
    requires i <= |text| && st.lineStart <= i && st.lastSpace <= i
    ensures r.lineStart <= |text| && r.lastSpace <= |text|
    ensures |st.lines| <= |r.lines| && r.lines[..|st.lines|] == st.lines
    decreases |text| - i
  {
    if i == |text| then st
    else SplitFrom(text, width, mode, adv, i + 1, SplitStep(text, width, mode, adv, i, st))
  }

  function SplitRun(text: String8, width: nat, mode: WrapMode, adv: Char8 -> nat): SplitState
  {
    SplitFrom(text, width, mode, adv, 0, SplitStart)
  }

  /** The open line at the end, closed with '\n' if it has a positive width. */
  function LastLine(text: String8, st: SplitState): seq<String8>
    requires st.lineStart <= |text|
  {
    var line: String8 := text[st.lineStart..] + ['\n'];
    if st.off > 0 then [line] else []
  }

  /** What split appends to `lines`, and what it returns. */
  function Split(text: String8, width: nat, mode: WrapMode, adv: Char8 -> nat): (seq<String8>, nat)
  {
    var st := SplitRun(text, width, mode, adv);
    (st.lines + LastLine(text, st), st.off)
  }

  /** A line as split emits it: ends in '\n' and holds no other newline. */
  predicate IsLine(l: String8)
  {
    |l| > 0 && l[|l| - 1] == '\n' && '\n' !in l[..|l| - 1]
  }

  /** A line narrow enough for `width`, or a single glyph that alone is wider. */
  predicate Fits(l: String8, width: nat, adv: Char8 -> nat)
    requires |l| > 0
  {
    SumAdvance(l[..|l| - 1], adv) <= width || |l| <= 2
  }

  function Flatten(ls: seq<String8>): String8
    decreases |ls|
  {
    if ls == [] then [] else Flatten(ls[..|ls| - 1]) + ls[|ls| - 1]
  }

  lemma {:induction false} FlattenSnoc(ls: seq<String8>, l: String8)
    ensures Flatten(ls + [l]) == Flatten(ls) + l
  {
    assert (ls + [l])[..|ls|] == ls;
  }

  /** A run with a newline appended, as a line. */
  lemma {:induction false} CloseLine(text: String8, a: nat, b: nat)
    requires a <= b <= |text| && '\n' !in text[a..b]
    ensures IsLine(text[a..b] + ['\n'])
    ensures (text[a..b] + ['\n'])[..|text[a..b] + ['\n']| - 1] == text[a..b]
  {
    var l := text[a..b] + ['\n'];
    assert l[..|l| - 1] == text[a..b];
  }

  lemma {:induction false} SumAdvanceOne(c: Char8, adv: Char8 -> nat)
    ensures SumAdvance([c], adv) == adv(c)
  {
    assert [c][..0] == [];
  }

  lemma {:induction false} WithoutOne(c: Char8, drop: set<Char8>)
    ensures Without([c], drop) == if c in drop then [] else [c]
  {
    assert [c][..0] == [];
  }

  /** Cutting text[..c] at b: the covered text grows by the cut piece. */
  lemma {:induction false} CoverGrows(text: String8, a: nat, b: nat, c: nat, drop: set<Char8>)
    requires a <= b <= c <= |text|
    requires forall k :: b <= k < c ==> text[k] in drop
    ensures Without(text[..c], drop) == Without(text[..a], drop) + Without(text[a..b], drop)
  {
    assert text[..c] == text[..a] + text[a..b] + text[b..c];
    WithoutConcat(text[..a] + text[a..b], text[b..c], drop);
    WithoutConcat(text[..a], text[a..b], drop);
    WithoutAllDropped(text[b..c], drop);
  }

  lemma {:induction false} WithoutAllDropped(s: String8, drop: set<Char8>)
    requires forall k :: 0 <= k < |s| ==> s[k] in drop
    ensures Without(s, drop) == []
    decreases |s|
  {
    if s != [] {
      WithoutAllDropped(s[..|s| - 1], drop);
    }
  }

  /** Appending a line keeps every line proper. */
  lemma {:induction false} AppendLine(lines: seq<String8>, line: String8, drop: set<Char8>)
    requires forall k :: 0 <= k < |lines| ==> IsLine(lines[k])
    requires IsLine(line)
    ensures forall k :: 0 <= k < |lines + [line]| ==> IsLine((lines + [line])[k])
    ensures Without(Flatten(lines + [line]), drop) == Without(Flatten(lines), drop) + Without(line, drop)
  {
    FlattenSnoc(lines, line);
    WithoutConcat(Flatten(lines), line, drop);
  }

  /** The text covered by the emitted lines grows by text[a..b], then
      skips the blanks text[b..c]; the closing newline adds nothing. */
  lemma {:induction false} CoverStep(text: String8, lines: seq<String8>, line: String8, lines': seq<String8>,
                   a: nat, b: nat, c: nat, drop: set<Char8>)
    requires a <= b <= c <= |text| && line == text[a..b] + ['\n'] && lines' == lines + [line]
    requires '\n' in drop && '\n' !in text[a..b]
    requires forall k :: b <= k < c ==> text[k] in drop
    requires forall k :: 0 <= k < |lines| ==> IsLine(lines[k])
    requires Without(Flatten(lines), drop) == Without(text[..a], drop)
    ensures IsLine(line)
    ensures forall k :: 0 <= k < |lines'| ==> IsLine(lines'[k])
    ensures Without(Flatten(lines'), drop) == Without(text[..c], drop)
  {
    CloseLine(text, a, b);
    AppendLine(lines, line, drop);
    LineCover(text, a, b, c, drop);
  }

  /** What a closed line adds to the covered text. */
  lemma {:induction false} LineCover(text: String8, a: nat, b: nat, c: nat, drop: set<Char8>)
    requires a <= b <= c <= |text| && '\n' in drop
    requires forall k :: b <= k < c ==> text[k] in drop
    ensures Without(text[..c], drop) == Without(text[..a], drop) + Without(text[a..b] + ['\n'], drop)
  {
    CoverGrows(text, a, b, c, drop);
    WithoutConcat(text[a..b], ['\n'], drop);
    WithoutOne('\n', drop);
    assert Without(text[a..b] + ['\n'], drop) == Without(text[a..b], drop);
  }

  /** An explicit newline emits text[lineStart..i] with its newline. */
  lemma {:induction false} NewlineLine(text: String8, i: nat, st: SplitState)
    requires st.lineStart <= i < |text| && text[i] == '\n'
    ensures NewlineBreak(text, i, st) ==
              st.(lines := st.lines + [text[st.lineStart..i] + ['\n']], lineStart := i + 1, off := 0)
  {
    assert (if i == st.lineStart then ['\n'] else text[st.lineStart..i + 1]) == text[st.lineStart..i] + ['\n'];
  }

  // --- LineWrap

  /** What holds after each iteration of a LineWrap split. */
  predicate LineWrapInv(text: String8, width: nat, adv: Char8 -> nat, i: nat, st: SplitState)
    requires i <= |text|
  {
    && st.lineStart <= i && st.lastSpace <= i
    && (forall k :: 0 <= k < |st.lines| ==> IsLine(st.lines[k]))
    && (forall k :: 0 <= k < |st.lines| ==> Fits(st.lines[k], width, adv))
    && '\n' !in text[st.lineStart..i]
    && st.off == SumAdvance(text[st.lineStart..i], adv)
    && (st.off <= width || i - st.lineStart == 1)
    && Without(Flatten(st.lines), NewlineOnly) == Without(text[..st.lineStart], NewlineOnly)
  }

  /** Emitting text[lineStart..i] as a line keeps every line fitting. */
  lemma {:induction false} LineWrapEmit(text: String8, width: nat, adv: Char8 -> nat, i: nat, st: SplitState)
    requires i < |text| && LineWrapInv(text, width, adv, i, st)
    ensures var line: String8 := text[st.lineStart..i] + ['\n'];
            var lines := st.lines + [line];
            && (forall k :: 0 <= k < |lines| ==> IsLine(lines[k]))
            && (forall k :: 0 <= k < |lines| ==> Fits(lines[k], width, adv))
  {
    var line: String8 := text[st.lineStart..i] + ['\n'];
    CloseLine(text, st.lineStart, i);
    AppendLine(st.lines, line, NewlineOnly);
    assert Fits(line, width, adv);
  }

  lemma {:induction false} LineWrapNewline(text: String8, width: nat, adv: Char8 -> nat, i: nat, st: SplitState)
    requires i < |text| && text[i] == '\n' && LineWrapInv(text, width, adv, i, st)
    ensures LineWrapInv(text, width, adv, i + 1, SplitStep(text, width, LineWrap, adv, i, st))
  {
    var line: String8 := text[st.lineStart..i] + ['\n'];
    var st' := NewlineBreak(text, i, st);
    NewlineLine(text, i, st);
    LineWrapEmit(text, width, adv, i, st);
    CoverStep(text, st.lines, line, st'.lines, st.lineStart, i, i + 1, NewlineOnly);
    LineWrapFreshLine(text, width, adv, i + 1, st');
  }

  /** The state right after a newline: an empty line at i. */
  lemma {:induction false} LineWrapFreshLine(text: String8, width: nat, adv: Char8 -> nat, i: nat, st: SplitState)
    requires i <= |text| && st.lineStart == i && st.off == 0 && st.lastSpace <= i
    requires forall k :: 0 <= k < |st.lines| ==> IsLine(st.lines[k])
    requires forall k :: 0 <= k < |st.lines| ==> |st.lines[k]| > 0 && Fits(st.lines[k], width, adv)
    requires Without(Flatten(st.lines), NewlineOnly) == Without(text[..i], NewlineOnly)
    ensures LineWrapInv(text, width, adv, i, st)
  {
    assert text[i..i] == [];
  }

  lemma {:induction false} LineWrapBreak(text: String8, width: nat, adv: Char8 -> nat, i: nat, st: SplitState)
    requires i < |text| && text[i] != '\n' && LineWrapInv(text, width, adv, i, st)
    requires st.off + adv(text[i]) > width
    ensures LineWrapInv(text, width, adv, i + 1, SplitStep(text, width, LineWrap, adv, i, st))
  {
    var r := LineWrapChar(text, width, adv, i, st);
    LineWrapEmit(text, width, adv, i, st);
    CoverStep(text, st.lines, text[st.lineStart..i] + ['\n'], r.lines, st.lineStart, i, i, NewlineOnly);
    assert text[i..i + 1] == [text[i]];
    SumAdvanceOne(text[i], adv);
  }

  lemma {:induction false} LineWrapContinue(text: String8, width: nat, adv: Char8 -> nat, i: nat, st: SplitState)
    requires i < |text| && text[i] != '\n' && LineWrapInv(text, width, adv, i, st)
    requires st.off + adv(text[i]) <= width
    ensures LineWrapInv(text, width, adv, i + 1, SplitStep(text, width, LineWrap, adv, i, st))
  {
    var ls := st.lineStart;
    assert text[ls..i + 1] == text[ls..i] + [text[i]];
    SumAdvanceConcat(text[ls..i], [text[i]], adv);
    SumAdvanceOne(text[i], adv);
  }

  lemma {:induction false} LineWrapRun(text: String8, width: nat, adv: Char8 -> nat, i: nat, st: SplitState)
    requires i <= |text| && LineWrapInv(text, width, adv, i, st)
    ensures LineWrapInv(text, width, adv, |text|, SplitFrom(text, width, LineWrap, adv, i, st))
    decreases |text| - i
  {
    if i < |text| {
      if text[i] == '\n' {
        LineWrapNewline(text, width, adv, i, st);
      } else if st.off + adv(text[i]) > width {
        LineWrapBreak(text, width, adv, i, st);
      } else {
        LineWrapContinue(text, width, adv, i, st);
      }
      LineWrapRun(text, width, adv, i + 1, SplitStep(text, width, LineWrap, adv, i, st));
    }
  }

  /** LineWrap: every emitted line is a proper line no wider than `width`
      (unless it is a single glyph wider on its own); the lines hold the
      text's characters in order, newlines aside; and the returned width
      is that of the last line.  Only a tail of zero total advance can be
      left unemitted. */
  lemma {:induction false} LineWrapSplit(text: String8, width: nat, adv: Char8 -> nat)
    ensures var (lines, off) := Split(text, width, LineWrap, adv);
            && (forall k :: 0 <= k < |lines| ==> IsLine(lines[k]) && Fits(lines[k], width, adv))
            && (off > 0 ==> Without(Flatten(lines), NewlineOnly) == Without(text, NewlineOnly)
                            && off == SumAdvance(lines[|lines| - 1][..|lines[|lines| - 1]| - 1], adv))
            && (off == 0 ==>
                  var k := SplitRun(text, width, LineWrap, adv).lineStart;
                  Without(Flatten(lines), NewlineOnly) == Without(text[..k], NewlineOnly)
                  && SumAdvance(text[k..], adv) == 0)
  {
    assert text[0..0] == [] && text[..0] == [];
    LineWrapRun(text, width, adv, 0, SplitStart);
    LineWrapClose(text, width, adv, SplitRun(text, width, LineWrap, adv));
  }

  /** Closing the open line after the last character. */
  lemma {:induction false} LineWrapClose(text: String8, width: nat, adv: Char8 -> nat, st: SplitState)
    requires LineWrapInv(text, width, adv, |text|, st)
    ensures var lines := st.lines + LastLine(text, st);
            && (forall k :: 0 <= k < |lines| ==> IsLine(lines[k]) && Fits(lines[k], width, adv))
            && (st.off > 0 ==> Without(Flatten(lines), NewlineOnly) == Without(text, NewlineOnly)
                               && st.off == SumAdvance(lines[|lines| - 1][..|lines[|lines| - 1]| - 1], adv))
            && (st.off == 0 ==>
                  Without(Flatten(lines), NewlineOnly) == Without(text[..st.lineStart], NewlineOnly)
                  && SumAdvance(text[st.lineStart..], adv) == 0)
  {
    var n := |text|;
    assert text[st.lineStart..n] == text[st.lineStart..];
    if st.off > 0 {
      var line: String8 := text[st.lineStart..] + ['\n'];
      assert line == text[st.lineStart..n] + ['\n'];
      assert LastLine(text, st) == [line];
      CoverStep(text, st.lines, line, st.lines + LastLine(text, st), st.lineStart, n, n, NewlineOnly);
      CloseLine(text, st.lineStart, n);
      assert Fits(line, width, adv);
      assert text[..n] == text;
    } else {
      assert st.lines + LastLine(text, st) == st.lines;
    }
  }

  // --- WordWrap

  /** The characters a word wrap drops, as facts about an otherwise
      unknown set (the proofs need no more than these three). */
  predicate DropsBlanks(drop: set<Char8>)
  {
    ' ' in drop && '\t' in drop && '\n' in drop
  }


  /** What holds after each iteration of a WordWrap split. */
  predicate WordWrapInv(text: String8, adv: Char8 -> nat, drop: set<Char8>, i: nat, st: SplitState)
    requires i <= |text|
  {
    && st.lineStart <= i && st.lastSpace <= i
    && (forall k :: 0 <= k < |st.lines| ==> IsLine(st.lines[k]))
    && '\n' !in text[st.lineStart..i]
    && st.off >= SumAdvance(text[st.lineStart..i], adv)
    && (st.lastSpace == 0 || (st.lastSpace < i && IsSpace(text[st.lastSpace])))
    && (st.lastSpace > st.lineStart ==> st.lastWordWidth == SumAdvance(text[st.lastSpace..i], adv))
    && Without(Flatten(st.lines), drop) == Without(text[..st.lineStart], drop)
  }

  /** What holds between the space test and the overflow test. */
  predicate WordWrapMid(text: String8, adv: Char8 -> nat, drop: set<Char8>, i: nat, st: SplitState)
    requires i < |text|
  {
    && st.lineStart <= i && st.lastSpace <= i
    && (forall k :: 0 <= k < |st.lines| ==> IsLine(st.lines[k]))
    && '\n' !in text[st.lineStart..i + 1]
    && st.off >= SumAdvance(text[st.lineStart..i], adv)
    && (st.lastSpace == 0 || IsSpace(text[st.lastSpace]))
    && (st.lastSpace > st.lineStart ==> st.lastWordWidth == SumAdvance(text[st.lastSpace..i], adv))
    && Without(Flatten(st.lines), drop) == Without(text[..st.lineStart], drop)
  }

  lemma {:induction false} WordWrapNoteSpace(text: String8, adv: Char8 -> nat, drop: set<Char8>, i: nat, st: SplitState)
    requires i < |text| && text[i] != '\n' && WordWrapInv(text, adv, drop, i, st)
    ensures WordWrapMid(text, adv, drop, i, NoteSpace(text, i, st))
  {
    assert text[st.lineStart..i + 1] == text[st.lineStart..i] + [text[i]];
    assert text[i..i] == [];
  }

  lemma {:induction false} WordWrapContinue(text: String8, width: nat, adv: Char8 -> nat, drop: set<Char8>, i: nat, s1: SplitState)
    requires i < |text| && WordWrapMid(text, adv, drop, i, s1)
    requires s1.off + adv(text[i]) <= width
    ensures WordWrapInv(text, adv, drop, i + 1, WordWrapFinish(text, width, adv, i, s1))
  {
    var ls := s1.lineStart;
    SumAdvanceOne(text[i], adv);
    assert text[ls..i + 1] == text[ls..i] + [text[i]];
    SumAdvanceConcat(text[ls..i], [text[i]], adv);
    if s1.lastSpace > ls {
      var sp := s1.lastSpace;
      assert text[sp..i + 1] == text[sp..i] + [text[i]];
      SumAdvanceConcat(text[sp..i], [text[i]], adv);
    }
  }

  lemma {:induction false} WordWrapWordBreak(text: String8, width: nat, adv: Char8 -> nat, drop: set<Char8>, i: nat, s1: SplitState)
    requires i < |text| && WordWrapMid(text, adv, drop, i, s1)
    requires DropsBlanks(drop)
    requires s1.off + adv(text[i]) > width && s1.lastSpace > s1.lineStart
    ensures WordWrapInv(text, adv, drop, i + 1, WordWrapFinish(text, width, adv, i, s1))
  {
    var ls, sp := s1.lineStart, s1.lastSpace;
    var line: String8 := text[ls..sp] + ['\n'];
    var r := WordWrapFinish(text, width, adv, i, s1);
    assert r.lines == s1.lines + [line] && r.lineStart == sp + 1;
    assert text[ls..sp] == text[ls..i + 1][..sp - ls];
    assert text[sp + 1..i + 1] == text[ls..i + 1][sp + 1 - ls..];
    CoverStep(text, s1.lines, line, r.lines, ls, sp, sp + 1, drop);
    WordWidthAfterBreak(text, adv, sp, i);
  }

  /** The word carried to the next line is no wider than the word measured
      from the space that ended the previous one. */
  lemma {:induction false} WordWidthAfterBreak(text: String8, adv: Char8 -> nat, sp: nat, i: nat)
    requires sp <= i < |text|
    ensures SumAdvance(text[sp..i], adv) + adv(text[i]) >= SumAdvance(text[sp + 1..i + 1], adv)
  {
    SumAdvanceOne(text[i], adv);
    if sp < i {
      assert text[sp + 1..i + 1] == text[sp + 1..i] + [text[i]];
      SumAdvanceConcat(text[sp + 1..i], [text[i]], adv);
      assert text[sp..i] == [text[sp]] + text[sp + 1..i];
      SumAdvanceConcat([text[sp]], text[sp + 1..i], adv);
    } else {
      assert text[sp + 1..i + 1] == [];
    }
  }

  lemma {:induction false} WordWrapHardBreak(text: String8, width: nat, adv: Char8 -> nat, drop: set<Char8>, i: nat, s1: SplitState)
    requires i < |text| && WordWrapMid(text, adv, drop, i, s1)
    requires DropsBlanks(drop)
    requires s1.off + adv(text[i]) > width && s1.lastSpace <= s1.lineStart
    ensures WordWrapInv(text, adv, drop, i + 1, WordWrapFinish(text, width, adv, i, s1))
  {
    var ls := s1.lineStart;
    var r := WordWrapFinish(text, width, adv, i, s1);
    assert text[ls..i] == text[ls..i + 1][..i - ls];
    assert text[ls..i + 1][i - ls] == text[i];
    CoverStep(text, s1.lines, text[ls..i] + ['\n'], r.lines, ls, i, i, drop);
    WordWrapOneChar(text, adv, drop, i, r);
  }

  /** The state after a hard break: a one-glyph line at i. */
  lemma {:induction false} WordWrapOneChar(text: String8, adv: Char8 -> nat, drop: set<Char8>, i: nat, st: SplitState)
    requires i < |text| && text[i] != '\n'
    requires st.lineStart == i && st.off == adv(text[i]) && st.lastSpace <= i
    requires st.lastSpace == 0 || IsSpace(text[st.lastSpace])
    requires forall k :: 0 <= k < |st.lines| ==> IsLine(st.lines[k])
    requires Without(Flatten(st.lines), drop) == Without(text[..i], drop)
    ensures WordWrapInv(text, adv, drop, i + 1, st)
  {
    SumAdvanceOne(text[i], adv);
    assert text[i..i + 1] == [text[i]];
  }

  lemma {:induction false} WordWrapNewline(text: String8, adv: Char8 -> nat, drop: set<Char8>, i: nat, st: SplitState)
    requires DropsBlanks(drop)
    requires i < |text| && text[i] == '\n' && st.lineStart <= i && st.lastSpace <= i
    requires '\n' !in text[st.lineStart..i]
    requires st.lastSpace == 0 || IsSpace(text[st.lastSpace])
    requires forall k :: 0 <= k < |st.lines| ==> IsLine(st.lines[k])
    requires Without(Flatten(st.lines), drop) == Without(text[..st.lineStart], drop)
    ensures WordWrapInv(text, adv, drop, i + 1, NewlineBreak(text, i, st))
  {
    var line: String8 := text[st.lineStart..i] + ['\n'];
    var st' := NewlineBreak(text, i, st);
    NewlineLine(text, i, st);
    CoverStep(text, st.lines, line, st'.lines, st.lineStart, i, i + 1, drop);
    WordWrapFreshLine(text, adv, drop, i + 1, st');
  }

  /** The state right after a newline: an empty line at i. */
  lemma {:induction false} WordWrapFreshLine(text: String8, adv: Char8 -> nat, drop: set<Char8>, i: nat, st: SplitState)
    requires i <= |text| && st.lineStart == i && st.lastSpace < i
    requires st.lastSpace == 0 || IsSpace(text[st.lastSpace])
    requires forall k :: 0 <= k < |st.lines| ==> IsLine(st.lines[k])
    requires Without(Flatten(st.lines), drop) == Without(text[..i], drop)
    ensures WordWrapInv(text, adv, drop, i, st)
  {
    assert text[i..i] == [];
  }

  lemma {:induction false} WordWrapChar(text: String8, width: nat, adv: Char8 -> nat, drop: set<Char8>, i: nat, st: SplitState)
    requires i < |text| && text[i] != '\n' && WordWrapInv(text, adv, drop, i, st)
    requires DropsBlanks(drop)
    ensures WordWrapInv(text, adv, drop, i + 1, SplitStep(text, width, WordWrap, adv, i, st))
  {
    var s1 := NoteSpace(text, i, st);
    WordWrapNoteSpace(text, adv, drop, i, st);
    if s1.off + adv(text[i]) <= width {
      WordWrapContinue(text, width, adv, drop, i, s1);
    } else if s1.lastSpace > s1.lineStart {
      WordWrapWordBreak(text, width, adv, drop, i, s1);
    } else {
      WordWrapHardBreak(text, width, adv, drop, i, s1);
    }
  }

  lemma {:induction false} WordWrapRun(text: String8, width: nat, adv: Char8 -> nat, drop: set<Char8>, i: nat, st: SplitState)
    requires i <= |text| && WordWrapInv(text, adv, drop, i, st)
    requires DropsBlanks(drop)
    ensures WordWrapInv(text, adv, drop, |text|, SplitFrom(text, width, WordWrap, adv, i, st))
    decreases |text| - i
  {
    if i < |text| {
      var st' := SplitStep(text, width, WordWrap, adv, i, st);
      if text[i] == '\n' {
        WordWrapNewline(text, adv, drop, i, st);
      } else {
        WordWrapChar(text, width, adv, drop, i, st);
      }
      WordWrapRun(text, width, adv, drop, i + 1, st');
    }
  }

  /** WordWrap: every emitted line is a proper line, and the lines hold the
      text's characters in order except for blanks (the space a word break
      drops, and the newlines).  Only a tail of zero total advance can be
      left unemitted. */
  lemma {:induction false} WordWrapSplit(text: String8, width: nat, adv: Char8 -> nat)
    ensures var (lines, off) := Split(text, width, WordWrap, adv);
            && (forall k :: 0 <= k < |lines| ==> IsLine(lines[k]))
            && (off > 0 ==> Without(Flatten(lines), Blanks) == Without(text, Blanks))
            && (off == 0 ==>
                  var k := SplitRun(text, width, WordWrap, adv).lineStart;
                  Without(Flatten(lines), Blanks) == Without(text[..k], Blanks)
                  && SumAdvance(text[k..], adv) == 0)
  {
    assert text[0..0] == [] && text[..0] == [];
    WordWrapRun(text, width, adv, Blanks, 0, SplitStart);
    WordWrapClose(text, adv, Blanks, SplitRun(text, width, WordWrap, adv));
  }

  /** Closing the open line after the last character. */
  lemma {:induction false} WordWrapClose(text: String8, adv: Char8 -> nat, drop: set<Char8>, st: SplitState)
    requires DropsBlanks(drop)
    requires WordWrapInv(text, adv, drop, |text|, st)
    ensures var lines := st.lines + LastLine(text, st);
            && (forall k :: 0 <= k < |lines| ==> IsLine(lines[k]))
            && (st.off > 0 ==> Without(Flatten(lines), drop) == Without(text, drop))
            && (st.off == 0 ==>
                  Without(Flatten(lines), drop) == Without(text[..st.lineStart], drop)
                  && SumAdvance(text[st.lineStart..], adv) == 0)
  {
    var n := |text|;
    assert text[st.lineStart..n] == text[st.lineStart..];
    if st.off > 0 {
      var line: String8 := text[st.lineStart..] + ['\n'];
      assert line == text[st.lineStart..n] + ['\n'];
      assert LastLine(text, st) == [line];
      CoverStep(text, st.lines, line, st.lines + LastLine(text, st), st.lineStart, n, n, drop);
      assert text[..n] == text;
    } else {
      assert st.lines + LastLine(text, st) == st.lines;
    }
  }

  /** One unit of advance for every character. */
  function UnitAdvance(c: Char8): nat { 1 }

  /** A word break restarts the next line at the width of the word so far,
      which includes the dropped space: "a b" with unit advances and width
      2 splits into "a" and "b" but reports 2 for the one-glyph last line. */
  lemma {:induction false} WordWrapCountsDroppedSpace()
    ensures Split("a b", 2, WordWrap, UnitAdvance) == (["a\n", "b\n"], 2)
    ensures SumAdvance("b", UnitAdvance) == 1
  {
    var text: String8 := "a b";
    var s1 := SplitStep(text, 2, WordWrap, UnitAdvance, 0, SplitStart);
    assert s1 == SplitState(0, 1, 0, 1, []);
    var s2 := SplitStep(text, 2, WordWrap, UnitAdvance, 1, s1);
    assert s2 == SplitState(0, 2, 1, 1, []);
    var s3 := SplitStep(text, 2, WordWrap, UnitAdvance, 2, s2);
    assert text[0..1] + ['\n'] == "a\n";
    assert s3 == SplitState(2, 2, 1, 1, ["a\n"]);
    assert SplitFrom(text, 2, WordWrap, UnitAdvance, 3, s3) == s3;
    assert SplitFrom(text, 2, WordWrap, UnitAdvance, 2, s2) == s3;
    assert SplitFrom(text, 2, WordWrap, UnitAdvance, 1, s1) == s3;
    assert SplitRun(text, 2, WordWrap, UnitAdvance) == s3;
    assert text[2..] + ['\n'] == "b\n";
    assert LastLine(text, s3) == ["b\n"];
    assert s3.lines + ["b\n"] == ["a\n", "b\n"];
    SumAdvanceOne('b', UnitAdvance);
  }
}
