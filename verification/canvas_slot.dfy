/**
 The ambient "typing code" background of the portfolio page.

 Every row of the canvas is a slot: one line of code that is typed character
 by character, held, faded out and then replaced by another snippet. This
 module holds the slot record, its creation and the per-frame update. The
 browser's random source and the canvas width are explicit parameters; every
 random number is a value in [0, 1), as `Math.random` promises.
 */
module CodeCanvas {
  import opened Browser

  /** Font size of the background code, in pixels. */
  const FontSize: real := 16.0

  /** Vertical distance between two rows (FONT_SIZE * 2.8). */
  const LineHeight: real := FontSize * 2.8

  /** Opacity lost per frame by already typed characters while typing and holding. */
  const TrailDecay: real := 0.015

  /** The fixed corpus of code lines a row can show. */
  const Snippets: seq<string> := [
    "func buildExperience() -> UIViewController { }",
    "let future = async { await success() }",
    "Widget build(BuildContext context) {",
    "Provider.of<ThemeData>(context, listen: false)",
    "@State private var isAnimating: Bool = false",
    "void update(float deltaTime) { render(scene); }",
    "struct ContentView: View { var body: some View {",
    "if (isAwesome) { portfolio.ship() }",
    "useEffect(() => { animate(entry) }, [visible])",
    "let skills: [String] = [\"Swift\", \"Flutter\", \"Unity\"]",
    "@Published var projects: [Project] = []",
    "GameScene.run(SKAction.repeatForever(.rotate))",
    "import SwiftUI // Crafting native experiences",
    "flutter pub get && flutter run --release",
    "Navigator.pushNamed(context, '/projects')",
    "git commit -m 'feat: ship something great'"
  ]

  datatype Phase = Typing | Holding | Fading

  /** One animated row. `shown` counts the characters revealed so far and
      `charsAlpha` holds one opacity per character once the row has started. */
  datatype Slot = Slot(
    x: real,
    y: real,
    text: string,
    shown: nat,
    charsAlpha: seq<real>,
    phase: Phase,
    timer: real,
    speed: real,
    holdTime: real,
    fadeSpeed: real,
    delay: nat)

  /** The six random numbers `createSlot` consumes, in call order. */
  datatype SlotDraws = SlotDraws(forX: real, forText: real, forSpeed: real,
                                 forHold: real, forFade: real, forDelay: real)

  /** The three random numbers a reset consumes, in call order. */
  datatype ResetDraws = ResetDraws(forX: real, forText: real, forDelay: real)

  predicate SlotDrawsInRange(d: SlotDraws) {
    Unit(d.forX) && Unit(d.forText) && Unit(d.forSpeed) &&
    Unit(d.forHold) && Unit(d.forFade) && Unit(d.forDelay)
  }

  predicate ResetDrawsInRange(d: ResetDraws) {
    Unit(d.forX) && Unit(d.forText) && Unit(d.forDelay)
  }

  function Min(a: int, b: int): int {
    if a <= b then a else b
  }

  function MaxReal(a: real, b: real): real {
    if a >= b then a else b
  }

  lemma FloorDivBounds(h: real, spacing: real)
    requires h >= 0.0 && spacing > 0.0
    ensures (h / spacing).Floor >= 0
    ensures (h / spacing).Floor as real * spacing <= h
    ensures h < ((h / spacing).Floor + 1) as real * spacing
  {
    var q := h / spacing;
    var f := q.Floor;
    assert q * spacing == h;
    MulMonotone(f as real, q, spacing);
    assert q < (f + 1) as real;
    MulMonotone(q, (f + 1) as real, spacing);
    assert h < (f + 1) as real * spacing;
  }

  lemma MulMonotone(a: real, b: real, c: real)
    requires a <= b && c > 0.0
    ensures a * c <= b * c
    ensures a < b ==> a * c < b * c
  {
  }

  /** Number of rows that fit a viewport: the floor of height over spacing. */
  function RowCount(viewportHeight: nat, spacing: real): (rows: nat)
    requires spacing > 0.0
    ensures rows as real * spacing <= viewportHeight as real
    ensures viewportHeight as real < (rows + 1) as real * spacing
  {
    FloorDivBounds(viewportHeight as real, spacing);
    (viewportHeight as real / spacing).Floor
  }

  /** Floor semantics of the row count: an empty viewport has no rows, 280
      pixels hold 7 rows spaced 40 apart but only 6 rows of the page's
      44.8-pixel line height. */
  lemma RowCountExamples()
    ensures RowCount(0, LineHeight) == 0
    ensures RowCount(280, 40.0) == 7
    ensures RowCount(280, LineHeight) == 6
  {
    var a := RowCount(280, 40.0);
    assert a as real * 40.0 <= 280.0 < (a + 1) as real * 40.0;
    var b := RowCount(280, LineHeight);
    assert b as real * 44.8 <= 280.0 < (b + 1) as real * 44.8;
  }

  /** Baseline of the row with the given index: one line height per row,
      starting one line height below the top. */
  function RowBaseline(index: nat): real {
    LineHeight * index as real + LineHeight
  }

  /** A row's baseline lies inside the viewport exactly when the row is one of
      the `ROWS` rows counted for that viewport. */
  lemma RowFitsViewport(index: nat, viewportHeight: nat)
    ensures RowBaseline(index) <= viewportHeight as real <==> index < RowCount(viewportHeight, LineHeight)
  {
    var rows := RowCount(viewportHeight, LineHeight);
    if index < rows {
      MulMonotone((index + 1) as real, rows as real, LineHeight);
    } else {
      MulMonotone((rows + 1) as real, (index + 1) as real, LineHeight);
    }
  }

  /** The snippet picked by `randomSnippet` for the random number `r`. */
  function RandomSnippet(r: real): (text: string)
    requires Unit(r)
    ensures text in Snippets
  {
    var i := (r * |Snippets| as real).Floor;
    assert 0 <= i < |Snippets| by {
      assert 0.0 <= r * 16.0 < 16.0;
    }
    Snippets[i]
  }

  /** Scaling by a random number stays between zero and the scaled amount. */
  lemma MulUnit(r: real, room: real)
    requires Unit(r) && room >= 0.0
    ensures 0.0 <= r * room <= room
    ensures room == 0.0 ==> r * room == 0.0
  {
    assert room - r * room == (1.0 - r) * room;
  }

  /** Horizontal start of a row: at least 24 pixels in, and at most 24 pixels
      plus the width beyond 300 when the canvas is wider than 300. */
  function StartX(width: nat, r: real): (x: real)
    requires Unit(r)
    ensures 24.0 <= x
    ensures width >= 300 ==> x <= 24.0 + (width - 300) as real
    ensures width <= 300 ==> x == 24.0
  {
    var room := MaxReal(0.0, (width as int - 300) as real);
    assert room >= 0.0;
    assert width >= 300 ==> room == (width - 300) as real;
    assert width <= 300 ==> room == 0.0;
    MulUnit(r, room);
    24.0 + r * room
  }

  /** Delay, in frames, before a reset row starts typing again. */
  function ResetDelay(r: real): (d: nat)
    requires Unit(r)
    ensures 10 <= d <= 69
  {
    var v := 10.0 + r * 60.0;
    assert 10.0 <= v < 70.0;
    v.Floor
  }

  /** Delay, in frames, before a newly created row starts typing. */
  function InitialDelay(r: real): (d: nat)
    requires Unit(r)
    ensures d < 200
  {
    var v := r * 200.0;
    assert 0.0 <= v < 200.0;
    v.Floor
  }

  /** A row that has not started yet: nothing revealed, no opacities. */
  predicate Fresh(s: Slot) {
    s.shown == 0 && s.charsAlpha == [] && s.phase == Typing && s.timer == 0.0
  }

  /** The per-row timing parameters keep the ranges they were drawn from. */
  predicate ParametersInRange(s: Slot) {
    0.3 <= s.speed < 0.7 && 30.0 <= s.holdTime < 80.0 && 0.01 <= s.fadeSpeed < 0.02
  }

  predicate Opacities(a: seq<real>) {
    forall i :: 0 <= i < |a| ==> 0.0 <= a[i] <= 1.0
  }

  /** What the frame update needs to stay inside the row's text and opacities
      and to keep its counters non-negative. */
  predicate WellFormed(s: Slot) {
    s.shown <= |s.text| && s.timer >= 0.0 && s.speed >= 0.0
  }

  /** Every state a row reaches from `createSlot` through frame updates. */
  predicate Valid(s: Slot) {
    && WellFormed(s)
    && s.text in Snippets
    && ParametersInRange(s)
    && s.delay < 200
    && Opacities(s.charsAlpha)
    && (|s.charsAlpha| == |s.text| || Fresh(s))
    && (s.delay > 0 ==> Fresh(s))
    && (s.phase != Typing ==> s.delay == 0 && s.shown == |s.text|)
    && (s.phase == Typing ==> s.shown < |s.text| && s.shown == s.timer.Floor)
    && (s.phase == Typing && 0 < s.shown ==> s.charsAlpha[s.shown - 1] == 1.0)
    && (s.phase == Holding ==> s.timer < s.holdTime)
  }

  /** `createSlot(index)`. */
  function CreateSlot(index: nat, width: nat, d: SlotDraws): (s: Slot)
    requires SlotDrawsInRange(d)
    ensures Valid(s)
    ensures Fresh(s)
    ensures s.y == RowBaseline(index)
  {
    Slot(
      x := StartX(width, d.forX),
      y := RowBaseline(index),
      text := RandomSnippet(d.forText),
      shown := 0,
      charsAlpha := [],
      phase := Typing,
      timer := 0.0,
      speed := 0.3 + d.forSpeed * 0.4,
      holdTime := 30.0 + d.forHold * 50.0,
      fadeSpeed := 0.01 + d.forFade * 0.01,
      delay := InitialDelay(d.forDelay))
  }

  /** The slots built at start-up for a viewport of the given height. */
  function CreatePool(viewportHeight: nat, width: nat, ds: seq<SlotDraws>): (pool: seq<Slot>)
    requires |ds| == RowCount(viewportHeight, LineHeight)
    requires forall i :: 0 <= i < |ds| ==> SlotDrawsInRange(ds[i])
    ensures |pool| == RowCount(viewportHeight, LineHeight)
    ensures forall i :: 0 <= i < |pool| ==> Valid(pool[i]) && Fresh(pool[i])
    ensures forall i :: 0 <= i < |pool| ==> pool[i].y == RowBaseline(i) <= viewportHeight as real
  {
    var rows := RowCount(viewportHeight, LineHeight);
    var pool := seq(rows, (i: int) requires 0 <= i < rows => CreateSlot(i, width, ds[i]));
    assert forall i :: 0 <= i < rows ==> RowBaseline(i) <= viewportHeight as real by {
      forall i | 0 <= i < rows
        ensures RowBaseline(i) <= viewportHeight as real
      {
        assert (i + 1) as real <= rows as real;
      }
    }
    pool
  }

  /** Opacities of a row that starts animating: when there are fewer entries
      than characters the array is resized to the text and zero-filled. */
  function Pad(a: seq<real>, len: nat): (r: seq<real>)
    ensures |a| < len ==> |r| == len && forall i :: 0 <= i < len ==> r[i] == 0.0
    ensures |a| >= len ==> r == a
  {
    if |a| < len then seq(len, _ => 0.0) else a
  }

  /** Sets the opacities of positions `from` up to (not including) `to` to 1. */
  function Reveal(a: seq<real>, from: nat, to: nat): (r: seq<real>)
    requires to <= |a|
    ensures |r| == |a|
    ensures Opacities(a) ==> Opacities(r)
  {
    seq(|a|, (i: int) requires 0 <= i < |a| => if from <= i < to then 1.0 else a[i])
  }

  /** Lowers the first `n` opacities by `step`, never below 0. A
      non-negative step never raises an opacity and keeps every opacity in
      [0, 1]. */
  function Decay(a: seq<real>, n: nat, step: real): (r: seq<real>)
    requires n <= |a|
    ensures |r| == |a|
    ensures forall i :: 0 <= i < n ==> 0.0 <= r[i]
    ensures step >= 0.0 ==> forall i :: 0 <= i < |a| ==> r[i] <= MaxReal(a[i], 0.0)
    ensures step >= 0.0 && Opacities(a) ==> Opacities(r)
  {
    seq(|a|, (i: int) requires 0 <= i < |a| => if i < n then MaxReal(0.0, a[i] - step) else a[i])
  }

  /** Some revealed character still has a positive opacity. */
  predicate StillVisible(a: seq<real>, shown: nat)
    requires shown <= |a|
  {
    exists c :: 0 <= c < shown && a[c] > 0.0
  }

  /** One `typing` frame: advance the timer, reveal the newly reached
      characters, trail-fade all but the newest and switch to `holding`
      once the whole text is out. */
  function TypeFrame(s: Slot): (r: Slot)
    requires WellFormed(s) && |s.text| <= |s.charsAlpha|
  {
    var t := s.timer + s.speed;
    var n: nat := Min(t.Floor, |s.text|);
    var a := Decay(Reveal(s.charsAlpha, s.shown, n), if n > 0 then n - 1 else 0, TrailDecay);
    if n >= |s.text| then s.(charsAlpha := a, shown := n, phase := Holding, timer := 0.0)
    else s.(charsAlpha := a, shown := n, timer := t)
  }

  /** One `holding` frame: trail-fade every shown character, count the frame
      and start fading once the hold time is reached. */
  function HoldFrame(s: Slot): (r: Slot)
    requires WellFormed(s) && |s.text| <= |s.charsAlpha|
  {
    var t := s.timer + 1.0;
    s.(charsAlpha := Decay(s.charsAlpha, s.shown, TrailDecay),
       timer := t,
       phase := if t >= s.holdTime then Fading else Holding)
  }

  /** One `fading` frame: fade every shown character by the row's own rate and
      start over with a new snippet once none of them is visible. */
  function FadeFrame(s: Slot, width: nat, d: ResetDraws): (r: Slot)
    requires WellFormed(s) && |s.text| <= |s.charsAlpha|
    requires ResetDrawsInRange(d)
  {
    var a := Decay(s.charsAlpha, s.shown, s.fadeSpeed);
    if StillVisible(a, s.shown) then s.(charsAlpha := a)
    else s.(x := StartX(width, d.forX),
            text := RandomSnippet(d.forText),
            shown := 0,
            charsAlpha := [],
            phase := Typing,
            timer := 0.0,
            delay := ResetDelay(d.forDelay))
  }

  /** The update one animation frame applies to one row. A row still counting
      down its delay only loses one frame of delay; any other row first gets
      one opacity per character, then runs the frame of its phase. */
  function Step(s: Slot, width: nat, d: ResetDraws): (r: Slot)
    requires WellFormed(s) && ResetDrawsInRange(d)
    ensures WellFormed(r)
    ensures s.delay == 0 ==> r.shown <= |r.charsAlpha|
    ensures s.delay > 0 ==> r.delay < s.delay
  {
    if s.delay > 0 then s.(delay := s.delay - 1)
    else
      var p := s.(charsAlpha := Pad(s.charsAlpha, |s.text|));
      match p.phase
      case Typing => TypeFrame(p)
      case Holding => HoldFrame(p)
      case Fading => FadeFrame(p, width, d)
  }
}
