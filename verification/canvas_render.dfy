/**
 The drawing half of an animation frame. Instead of painting pixels the
 drawing pass returns what it would paint: the glyphs with their positions
 and opacities, the pen position after the text, and the blinking cursor.
 Character widths come from an abstract measuring function.
 */
module CanvasRender {
  import opened Browser
  import opened CodeCanvas
  import opened CanvasSteps

  datatype Rgb = Rgb(red: nat, green: nat, blue: nat)

  const White: Rgb := Rgb(255, 255, 255)
  const Black: Rgb := Rgb(0, 0, 0)

  /** Opacity of the cursor bar. */
  const CursorAlpha: real := 0.8

  /** Length of one cursor blink phase, in milliseconds. */
  const BlinkMillis: int := 400

  /** One character painted with `fillText`. */
  datatype Glyph = Glyph(ch: char, x: real, y: real, alpha: real)

  /** The cursor bar painted with `fillRect`. */
  datatype Cursor = Cursor(left: real, top: real, width: real, height: real, alpha: real)

  /** Everything the drawing pass paints for one row. */
  datatype Picture = Picture(color: Rgb, glyphs: seq<Glyph>, pen: real, cursor: Option<Cursor>)

  /** Text colour of the frame: white text on the dark theme, black otherwise. */
  function TextColor(dark: bool): (c: Rgb)
    ensures c == White <==> dark
    ensures c == Black <==> !dark
  {
    if dark then White else Black
  }

  /** Total width of the first `n` characters of `text`. */
  function Advance(text: string, n: nat, measure: char -> real): real
    requires n <= |text|
  {
    if n == 0 then 0.0 else Advance(text, n - 1, measure) + measure(text[n - 1])
  }

  /** The glyphs painted for the first `n` characters: each character with a
      positive opacity, at the pen position reached before it. */
  function Glyphs(text: string, alpha: seq<real>, x: real, y: real, n: nat, measure: char -> real): seq<Glyph>
    requires n <= |text| && n <= |alpha|
  {
    if n == 0 then []
    else
      var before := Glyphs(text, alpha, x, y, n - 1, measure);
      if alpha[n - 1] > 0.0
      then before + [Glyph(text[n - 1], x + Advance(text, n - 1, measure), y, alpha[n - 1])]
      else before
  }

  /** The positions among the first `n` whose opacity is positive, in order. */
  function VisibleIndices(alpha: seq<real>, n: nat): seq<nat>
    requires n <= |alpha|
  {
    if n == 0 then []
    else VisibleIndices(alpha, n - 1) + (if alpha[n - 1] > 0.0 then [n - 1] else [])
  }

  /** The cursor blinks: visible while the number of whole blink phases
      elapsed is even. */
  predicate CursorVisible(now: int) {
    (now / BlinkMillis) % 2 == 0
  }

  /** The drawing pass over one row's shown characters, character by
      character: a character is painted only when its opacity is positive,
      but the pen always moves on by its width. */
  method DrawText(s: Slot, measure: char -> real)
    returns (glyphs: seq<Glyph>, pen: real)
    requires s.shown <= |s.text| && s.shown <= |s.charsAlpha|
    ensures pen == s.x + Advance(s.text, s.shown, measure)
    ensures glyphs == Glyphs(s.text, s.charsAlpha, s.x, s.y, s.shown, measure)
  {
    glyphs := [];
    pen := s.x;
    var c := 0;
    while c < s.shown
      invariant 0 <= c <= s.shown
      invariant pen == s.x + Advance(s.text, c, measure)
      invariant glyphs == Glyphs(s.text, s.charsAlpha, s.x, s.y, c, measure)
    {
      var alpha := s.charsAlpha[c];
      if alpha > 0.0 {
        glyphs := glyphs + [Glyph(s.text[c], pen, s.y, alpha)];
        pen := pen + measure(s.text[c]);
      } else {
        pen := pen + measure(s.text[c]);
      }
      c := c + 1;
    }
  }

  /** What the frame paints for a row that is not waiting out its delay. */
  function Render(s: Slot, dark: bool, now: int, measure: char -> real): (p: Picture)
    requires s.shown <= |s.text| && s.shown <= |s.charsAlpha|
    ensures p.pen == s.x + Advance(s.text, s.shown, measure)
    ensures p.color == TextColor(dark)
    ensures p.cursor.Some? <==> s.phase == Typing && CursorVisible(now)
    ensures p.cursor.Some? ==> p.cursor.value.left == p.pen + 2.0
  {
    var pen := s.x + Advance(s.text, s.shown, measure);
    var cursor :=
      if s.phase == Typing && CursorVisible(now)
      then Some(Cursor(pen + 2.0, s.y - FontSize + 3.0, 2.0, FontSize - 2.0, CursorAlpha))
      else None;
    Picture(TextColor(dark), Glyphs(s.text, s.charsAlpha, s.x, s.y, s.shown, measure), pen, cursor)
  }

  /** One frame for one row: update it, then paint it unless it was still
      waiting out its delay at the start of the frame. */
  function FrameSlot(s: Slot, width: nat, d: ResetDraws, dark: bool, now: int, measure: char -> real)
    : (out: (Slot, Option<Picture>))
    requires WellFormed(s) && ResetDrawsInRange(d)
    ensures out.0 == Step(s, width, d)
    ensures out.1.None? <==> s.delay > 0
  {
    var r := Step(s, width, d);
    if s.delay > 0 then (r, None) else (r, Some(Render(r, dark, now, measure)))
  }

  /** One frame over all rows, in row order. The clock is read once per
      row, so `nows[i]` is the time row `i` sees. Each row is updated on its
      own, and painted exactly when its delay was 0 at the start of the
      frame. */
  function Frame(slots: seq<Slot>, width: nat, ds: seq<ResetDraws>, dark: bool, nows: seq<int>, measure: char -> real)
    : (out: (seq<Slot>, seq<Option<Picture>>))
    requires |ds| == |slots| && |nows| == |slots|
    requires forall i :: 0 <= i < |slots| ==> WellFormed(slots[i]) && ResetDrawsInRange(ds[i])
    ensures |out.0| == |slots| && |out.1| == |slots|
    ensures forall i :: 0 <= i < |slots| ==> out.0[i] == Step(slots[i], width, ds[i])
    ensures forall i :: 0 <= i < |slots| ==> (out.1[i].Some? <==> slots[i].delay == 0)
    ensures forall i :: 0 <= i < |slots| && out.1[i].Some? ==>
              out.1[i].value.color == TextColor(dark) &&
              (out.1[i].value.cursor.Some? <==> out.0[i].phase == Typing && CursorVisible(nows[i]))
  {
    var n := |slots|;
    (seq(n, (i: int) requires 0 <= i < n => FrameSlot(slots[i], width, ds[i], dark, nows[i], measure).0),
     seq(n, (i: int) requires 0 <= i < n => FrameSlot(slots[i], width, ds[i], dark, nows[i], measure).1))
  }

  /** A frame over all rows keeps every row valid. (`WellFormed`, implied by
      `Valid`, is listed so the call to `Frame` in the ensures can see it.) */
  lemma FrameKeepsValid(slots: seq<Slot>, width: nat, ds: seq<ResetDraws>, dark: bool, nows: seq<int>, measure: char -> real)
    requires |ds| == |slots| && |nows| == |slots|
    requires forall i :: 0 <= i < |slots| ==> WellFormed(slots[i]) && Valid(slots[i]) && ResetDrawsInRange(ds[i])
    ensures var out := Frame(slots, width, ds, dark, nows, measure);
      forall i :: 0 <= i < |out.0| ==> Valid(out.0[i])
  {
    var out := Frame(slots, width, ds, dark, nows, measure);
    forall i | 0 <= i < |out.0|
      ensures Valid(out.0[i])
    {
      StepPreservesValid(slots[i], width, ds[i]);
    }
  }

  /** The positive-opacity positions are listed once each, in increasing
      order: every listed position is below `n` with a positive opacity, and
      every such position is listed. */
  lemma {:induction false} VisibleIndicesAreThePositiveOnes(alpha: seq<real>, n: nat)
    requires n <= |alpha|
    ensures var idx := VisibleIndices(alpha, n);
      && (forall k :: 0 <= k < |idx| ==> idx[k] < n && alpha[idx[k]] > 0.0)
      && (forall k, l :: 0 <= k < l < |idx| ==> idx[k] < idx[l])
      && (forall c :: 0 <= c < n && alpha[c] > 0.0 ==> c in idx)
  {
    if n > 0 {
      VisibleIndicesAreThePositiveOnes(alpha, n - 1);
    }
  }

  /** The painted glyphs are exactly the shown characters with a positive
      opacity, one glyph per character, in text order: glyph `k` is
      character `VisibleIndices(alpha, n)[k]`, on the row's baseline, at the
      width of the characters before it. */
  lemma {:induction false} GlyphsAreVisibleCharacters(text: string, alpha: seq<real>, x: real, y: real, n: nat, measure: char -> real)
    requires n <= |text| && n <= |alpha|
    ensures var g := Glyphs(text, alpha, x, y, n, measure);
      var idx := VisibleIndices(alpha, n);
      && |g| == |idx|
      && (forall k :: 0 <= k < |idx| ==> idx[k] < n)
      && (forall k :: 0 <= k < |g| ==>
            g[k] == Glyph(text[idx[k]], x + Advance(text, idx[k], measure), y, alpha[idx[k]]))
  {
    VisibleIndicesAreThePositiveOnes(alpha, n);
    if n > 0 {
      GlyphsAreVisibleCharacters(text, alpha, x, y, n - 1, measure);
    }
  }

  /** A shown character whose opacity is positive is painted at the pen
      position reached before it. */
  lemma {:induction false} VisibleCharactersArePainted(text: string, alpha: seq<real>, x: real, y: real, n: nat, measure: char -> real, c: nat)
    requires n <= |text| && n <= |alpha|
    requires c < n && alpha[c] > 0.0
    ensures Glyph(text[c], x + Advance(text, c, measure), y, alpha[c]) in Glyphs(text, alpha, x, y, n, measure)
  {
    if c < n - 1 {
      VisibleCharactersArePainted(text, alpha, x, y, n - 1, measure, c);
    }
  }

  /** The pen position does not depend on the opacities: zero-opacity
      characters still take their width. With equal widths `w` for every
      character, it ends `n * w` right of the start. */
  lemma {:induction false} MonospaceAdvance(text: string, n: nat, measure: char -> real, w: real)
    requires n <= |text|
    requires forall ch :: measure(ch) == w
    ensures Advance(text, n, measure) == n as real * w
  {
    if n > 0 {
      MonospaceAdvance(text, n - 1, measure, w);
      assert n as real * w == (n - 1) as real * w + w;
    }
  }

  /** The cursor blink alternates every 400 milliseconds. */
  lemma CursorBlinks(now: int)
    ensures CursorVisible(now + BlinkMillis) <==> !CursorVisible(now)
  {
    assert (now + BlinkMillis) / BlinkMillis == now / BlinkMillis + 1;
  }

  /** The theme changes only the colour: the updated row, the glyphs, the pen
      and the cursor are the same on both themes. */
  lemma ThemeOnlyChangesColor(s: Slot, width: nat, d: ResetDraws, now: int, measure: char -> real)
    requires WellFormed(s) && ResetDrawsInRange(d)
    ensures var dark := FrameSlot(s, width, d, true, now, measure);
      var light := FrameSlot(s, width, d, false, now, measure);
      && dark.0 == light.0
      && (dark.1.Some? <==> light.1.Some?)
      && (dark.1.Some? ==>
            && dark.1.value.color == White && light.1.value.color == Black
            && dark.1.value.(color := Black) == light.1.value)
  {
  }
}
