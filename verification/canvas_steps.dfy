/**
 What one animation frame does to one row of the background, phase by phase,
 and the invariant every row keeps from creation on.
 */
module CanvasSteps {
  import opened CodeCanvas

  /** Every snippet of the corpus has at least one character. */
  lemma SnippetsNonEmpty(text: string)
    requires text in Snippets
    ensures |text| > 0
  {
  }

  /** Adding a rate below one frame to a non-negative timer moves its floor
      by at most one. */
  lemma FloorAdvance(t: real, sp: real)
    requires t >= 0.0 && 0.0 <= sp < 1.0
    ensures t.Floor <= (t + sp).Floor <= t.Floor + 1
  {
    assert t.Floor as real <= t + sp;
    assert t + sp < (t.Floor + 2) as real;
  }

  /** A row whose delay is still running only counts it down: its text,
      progress, opacities, phase and timer stay as they were. */
  lemma DelayedFrameOnlyCountsDown(s: Slot, width: nat, d: ResetDraws)
    requires WellFormed(s) && ResetDrawsInRange(d)
    requires s.delay > 0
    ensures var r := Step(s, width, d);
      r.delay == s.delay - 1 && r.(delay := s.delay) == s
  {
  }

  /** Decaying and revealing keep every opacity inside [0, 1]. This needs only
      a non-negative fade rate, not the full row invariant. */
  lemma StepKeepsOpacities(s: Slot, width: nat, d: ResetDraws)
    requires WellFormed(s) && ResetDrawsInRange(d)
    requires Opacities(s.charsAlpha) && s.fadeSpeed >= 0.0
    ensures Opacities(Step(s, width, d).charsAlpha)
  {
    if s.delay == 0 {
      var p := s.(charsAlpha := Pad(s.charsAlpha, |s.text|));
      assert Opacities(p.charsAlpha);
      match p.phase
      case Typing =>
        var t := p.timer + p.speed;
        var n: nat := Min(t.Floor, |p.text|);
        var a1 := Reveal(p.charsAlpha, p.shown, n);
        assert Opacities(a1);
        assert Opacities(Decay(a1, if n > 0 then n - 1 else 0, TrailDecay));
      case Holding =>
        assert Opacities(Decay(p.charsAlpha, p.shown, TrailDecay));
      case Fading =>
        assert Opacities(Decay(p.charsAlpha, p.shown, p.fadeSpeed));
    }
  }

  /** The first frame after the delay of a fresh row gives it one opacity per
      character, all still 0: at under one character per frame nothing is
      revealed yet, and only the timer moves. */
  lemma FirstLiveFrame(s: Slot, width: nat, d: ResetDraws)
    requires Valid(s) && ResetDrawsInRange(d)
    requires Fresh(s) && s.delay == 0
    ensures var r := Step(s, width, d);
      && r.text == s.text
      && |r.charsAlpha| == |s.text|
      && (forall i :: 0 <= i < |r.charsAlpha| ==> r.charsAlpha[i] == 0.0)
      && r.shown == 0 && r.phase == Typing && r.timer == s.speed
  {
    SnippetsNonEmpty(s.text);
    var r := Step(s, width, d);
    assert s.speed.Floor == 0;
    assert r.shown == 0;
  }

  /** A typing frame never hides a character, reveals at most one, and moves
      to holding, with a cleared timer, exactly when the whole text is out. */
  lemma TypingFrame(s: Slot, width: nat, d: ResetDraws)
    requires Valid(s) && ResetDrawsInRange(d)
    requires s.phase == Typing && s.delay == 0
    ensures var r := Step(s, width, d);
      && r.text == s.text
      && s.shown <= r.shown <= s.shown + 1
      && r.shown <= |s.text|
      && r.phase != Fading
      && (r.phase == Holding <==> r.shown == |s.text|)
      && (r.phase == Holding ==> r.timer == 0.0)
      && (r.phase == Typing ==> r.timer == s.timer + s.speed)
  {
    FloorAdvance(s.timer, s.speed);
  }

  /** The opacities after a typing frame: the newest shown character is at
      full opacity, and every older one has lost one step of the trail decay,
      never going below 0. */
  lemma TypingFrameTrail(s: Slot, width: nat, d: ResetDraws)
    requires Valid(s) && ResetDrawsInRange(d)
    requires s.phase == Typing && s.delay == 0
    ensures var r := Step(s, width, d);
      && |r.charsAlpha| == |s.text|
      && r.shown <= s.shown + 1
      && (forall c :: 0 <= c < r.shown - 1 ==>
            r.charsAlpha[c] == MaxReal(0.0, s.charsAlpha[c] - TrailDecay))
      && (0 < r.shown ==> r.charsAlpha[r.shown - 1] == 1.0)
  {
    FloorAdvance(s.timer, s.speed);
    SnippetsNonEmpty(s.text);
    var p := s.(charsAlpha := Pad(s.charsAlpha, |s.text|));
    var t := p.timer + p.speed;
    var n: nat := Min(t.Floor, |p.text|);
    var a1 := Reveal(p.charsAlpha, p.shown, n);
    var r := Step(s, width, d);
    assert r.shown == n;
    assert r.charsAlpha == Decay(a1, if n > 0 then n - 1 else 0, TrailDecay);
    assert |a1| == |s.text|;
    if 0 < s.shown {
      assert p.charsAlpha == s.charsAlpha;
    }
    forall c | 0 <= c < n - 1
      ensures r.charsAlpha[c] == MaxReal(0.0, s.charsAlpha[c] - TrailDecay)
    {
      assert a1[c] == p.charsAlpha[c] == s.charsAlpha[c];
    }
    if 0 < n {
      assert a1[n - 1] == 1.0;
      assert r.charsAlpha[n - 1] == a1[n - 1];
    }
  }

  /** A typing frame whose timer stays below the length of the text keeps
      typing with the characters under the timer revealed. This holds of any
      well-formed row, whatever its speed. */
  lemma TypingFrameContinues(s: Slot, width: nat, d: ResetDraws)
    requires WellFormed(s) && ResetDrawsInRange(d)
    requires s.phase == Typing && s.delay == 0
    requires (s.timer + s.speed).Floor < |s.text|
    ensures var r := Step(s, width, d);
      && r.phase == Typing && r.text == s.text && r.delay == 0
      && r.timer == s.timer + s.speed && r.shown == r.timer.Floor
  {
  }

  /** A typing frame whose timer reaches the length of the text reveals the
      whole text and holds with a cleared timer. */
  lemma TypingFrameFinishes(s: Slot, width: nat, d: ResetDraws)
    requires WellFormed(s) && ResetDrawsInRange(d)
    requires s.phase == Typing && s.delay == 0
    requires (s.timer + s.speed).Floor >= |s.text|
    ensures var r := Step(s, width, d);
      && r.phase == Holding && r.text == s.text && r.delay == 0
      && r.timer == 0.0 && r.shown == |s.text|
  {
  }

  /** A holding frame counts exactly one frame and starts fading on the first
      frame whose count reaches the hold time; text and progress stay, and
      every shown character loses one step of the trail decay. */
  lemma HoldingFrame(s: Slot, width: nat, d: ResetDraws)
    requires Valid(s) && ResetDrawsInRange(d)
    requires s.phase == Holding
    ensures var r := Step(s, width, d);
      && r.timer == s.timer + 1.0
      && r.text == s.text && r.shown == s.shown && r.delay == 0
      && r.holdTime == s.holdTime
      && (r.phase == Fading <==> s.timer + 1.0 >= s.holdTime)
      && (r.phase == Holding <==> s.timer + 1.0 < s.holdTime)
      && |r.charsAlpha| == |s.charsAlpha| == s.shown
      && (forall c :: 0 <= c < s.shown ==>
            r.charsAlpha[c] == MaxReal(0.0, s.charsAlpha[c] - TrailDecay))
  {
  }

  /** A fading frame lowers every shown opacity by the row's fade rate, never
      below 0, and restarts the row exactly when no revealed character keeps
      any opacity after this frame's fade; a restart draws a new snippet,
      position and delay and keeps the row's band and timing parameters. */
  lemma FadingFrame(s: Slot, width: nat, d: ResetDraws)
    requires Valid(s) && ResetDrawsInRange(d)
    requires s.phase == Fading
    ensures var r := Step(s, width, d);
      && (r.phase == Typing <==> forall c :: 0 <= c < s.shown ==> s.charsAlpha[c] <= s.fadeSpeed)
      && (r.phase != Typing ==> r.phase == Fading && r.text == s.text && r.shown == s.shown)
      && (r.phase != Typing ==>
            && |r.charsAlpha| == |s.charsAlpha| == s.shown
            && forall c :: 0 <= c < s.shown ==>
                 r.charsAlpha[c] == MaxReal(0.0, s.charsAlpha[c] - s.fadeSpeed))
      && (r.phase == Typing ==>
            && r.shown == 0 && r.charsAlpha == [] && r.timer == 0.0
            && 10 <= r.delay <= 69 && r.text in Snippets && r.x >= 24.0
            && r.y == s.y && r.speed == s.speed && r.holdTime == s.holdTime
            && r.fadeSpeed == s.fadeSpeed)
  {
    var a := Decay(s.charsAlpha, s.shown, s.fadeSpeed);
    assert |s.charsAlpha| == |s.text|;
    if forall c :: 0 <= c < s.shown ==> s.charsAlpha[c] <= s.fadeSpeed {
      assert !StillVisible(a, s.shown);
    } else {
      var c :| 0 <= c < s.shown && s.charsAlpha[c] > s.fadeSpeed;
      assert a[c] > 0.0;
    }
  }

  /** The opacities, once sized to the text, keep that size until a restart
      empties them. */
  lemma OpacitiesFollowText(s: Slot, width: nat, d: ResetDraws)
    requires Valid(s) && ResetDrawsInRange(d)
    requires |s.charsAlpha| == |s.text|
    ensures var r := Step(s, width, d);
      |r.charsAlpha| == |r.text| ||
      (s.phase == Fading && r.phase == Typing && r.charsAlpha == [])
  {
    SnippetsNonEmpty(s.text);
  }

  /** The row invariant holds after every frame. */
  lemma StepPreservesValid(s: Slot, width: nat, d: ResetDraws)
    requires Valid(s) && ResetDrawsInRange(d)
    ensures Valid(Step(s, width, d))
  {
    SnippetsNonEmpty(s.text);
    StepKeepsOpacities(s, width, d);
    var r := Step(s, width, d);
    if s.delay == 0 {
      var p := s.(charsAlpha := Pad(s.charsAlpha, |s.text|));
      assert |p.charsAlpha| == |s.text|;
      match s.phase
      case Typing =>
        FloorAdvance(s.timer, s.speed);
        var t := p.timer + p.speed;
        var n: nat := Min(t.Floor, |p.text|);
        if n < |s.text| {
          assert r.shown == n == t.Floor;
          if 0 < n {
            assert r.charsAlpha[n - 1] == 1.0;
          }
        }
      case Holding =>
      case Fading =>
        if r.phase == Typing {
          SnippetsNonEmpty(r.text);
        }
    }
  }
}
