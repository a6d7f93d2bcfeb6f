/**
 Several consecutive animation frames of one row: the delay countdown, the
 typing run, the exact end of the hold, and the invariant over any run.
 */
module CanvasRuns {
  import opened CodeCanvas
  import opened CanvasSteps

  predicate AllDrawsInRange(ds: seq<ResetDraws>) {
    forall i :: 0 <= i < |ds| ==> ResetDrawsInRange(ds[i])
  }

  /** The row after one frame per element of `ds`, the last frame last. */
  function Run(s: Slot, width: nat, ds: seq<ResetDraws>): (r: Slot)
    requires WellFormed(s) && AllDrawsInRange(ds)
    ensures WellFormed(r)
    ensures Valid(s) ==> Valid(r)
    decreases |ds|
  {
    if ds == [] then s
    else
      var before := Run(s, width, ds[..|ds| - 1]);
      var r := Step(before, width, ds[|ds| - 1]);
      assert Valid(before) ==> Valid(r) by {
        if Valid(before) {
          StepPreservesValid(before, width, ds[|ds| - 1]);
        }
      }
      r
  }

  /** A row with at least `k` frames of delay left comes out of the next `k`
      frames unchanged except for the delay, which has dropped by exactly
      `k`. */
  lemma {:induction false} DelayRun(s: Slot, width: nat, ds: seq<ResetDraws>)
    requires WellFormed(s) && AllDrawsInRange(ds)
    requires |ds| <= s.delay
    ensures Run(s, width, ds) == s.(delay := s.delay - |ds|)
    decreases |ds|
  {
    if ds != [] {
      DelayRun(s, width, ds[..|ds| - 1]);
    }
  }

  /** The typing timer after `k` frames at speed `sp`, starting from `t`. */
  function TimerAfter(t: real, sp: real, k: nat): real {
    if k == 0 then t else TimerAfter(t, sp, k - 1) + sp
  }

  /** The timer grows linearly: `k` frames add `k` times the speed. */
  lemma {:induction false} TimerAfterIsLinear(t: real, sp: real, k: nat)
    ensures TimerAfter(t, sp, k) == t + k as real * sp
  {
    if k > 0 {
      TimerAfterIsLinear(t, sp, k - 1);
      assert k as real * sp == (k - 1) as real * sp + sp;
    }
  }

  /** At a non-negative speed the timer never runs backwards. */
  lemma {:induction false} TimerAfterMonotone(t: real, sp: real, j: nat, k: nat)
    requires sp >= 0.0 && j <= k
    ensures TimerAfter(t, sp, j) <= TimerAfter(t, sp, k)
    decreases k
  {
    if j < k {
      TimerAfterMonotone(t, sp, j, k - 1);
    }
  }

  lemma FloorMonotone(a: real, b: real)
    requires a <= b
    ensures a.Floor <= b.Floor
  {
  }

  /** While the timer stays below the next unrevealed character, a typing row
      keeps typing: its timer has grown by the speed once per frame and exactly
      the characters under the timer are revealed. */
  lemma {:induction false} TypingRun(s: Slot, width: nat, ds: seq<ResetDraws>)
    requires WellFormed(s) && AllDrawsInRange(ds)
    requires s.phase == Typing && s.delay == 0 && s.shown == s.timer.Floor
    requires TimerAfter(s.timer, s.speed, |ds|).Floor < |s.text|
    ensures var r := Run(s, width, ds);
      && r.phase == Typing && r.text == s.text && r.delay == 0 && r.speed == s.speed
      && r.timer == TimerAfter(s.timer, s.speed, |ds|)
      && r.shown == r.timer.Floor
    decreases |ds|
  {
    if ds != [] {
      var k := |ds| - 1;
      TimerAfterMonotone(s.timer, s.speed, k, |ds|);
      FloorMonotone(TimerAfter(s.timer, s.speed, k), TimerAfter(s.timer, s.speed, |ds|));
      TypingRun(s, width, ds[..k]);
      var before := Run(s, width, ds[..k]);
      TypingFrameContinues(before, width, ds[k]);
    }
  }

  /** The frame on which the timer first reaches the length of the text ends
      the typing: the whole text is revealed and the row holds with a cleared
      timer. */
  lemma TypingCompletes(s: Slot, width: nat, ds: seq<ResetDraws>)
    requires WellFormed(s) && AllDrawsInRange(ds)
    requires s.phase == Typing && s.delay == 0 && s.shown == s.timer.Floor
    requires |ds| > 0
    requires TimerAfter(s.timer, s.speed, |ds| - 1).Floor < |s.text|
    requires TimerAfter(s.timer, s.speed, |ds|).Floor >= |s.text|
    ensures var r := Run(s, width, ds);
      r.phase == Holding && r.shown == |s.text| && r.text == s.text && r.timer == 0.0
  {
    var k := |ds| - 1;
    TypingRun(s, width, ds[..k]);
    var before := Run(s, width, ds[..k]);
    TypingFrameFinishes(before, width, ds[k]);
  }

  /** At one character per frame, a row that starts typing with `n`
      characters reveals one character per frame and holds after exactly `n`
      frames. */
  lemma UnitSpeedTyping(s: Slot, width: nat, ds: seq<ResetDraws>)
    requires WellFormed(s) && AllDrawsInRange(ds)
    requires s.phase == Typing && s.delay == 0 && s.shown == 0 && s.timer == 0.0
    requires s.speed == 1.0
    requires 0 < |ds| <= |s.text|
    ensures var r := Run(s, width, ds);
      && (|ds| < |s.text| ==> r.phase == Typing && r.shown == |ds|)
      && (|ds| == |s.text| ==> r.phase == Holding && r.shown == |s.text|)
  {
    TimerAfterIsLinear(0.0, 1.0, |ds|);
    TimerAfterIsLinear(0.0, 1.0, |ds| - 1);
    if |ds| < |s.text| {
      TypingRun(s, width, ds);
    } else {
      TypingCompletes(s, width, ds);
    }
  }

  /** A holding row counts one per frame and starts fading on the first frame
      at which the count reaches the hold time, neither earlier nor later. */
  lemma {:induction false} HoldingRun(s: Slot, width: nat, ds: seq<ResetDraws>)
    requires Valid(s) && AllDrawsInRange(ds)
    requires s.phase == Holding
    requires s.timer + (|ds| - 1) as real < s.holdTime
    ensures var r := Run(s, width, ds);
      && r.timer == s.timer + |ds| as real
      && r.text == s.text && r.shown == s.shown && r.holdTime == s.holdTime
      && (r.phase == Fading <==> s.timer + |ds| as real >= s.holdTime)
      && (r.phase == Holding <==> s.timer + |ds| as real < s.holdTime)
    decreases |ds|
  {
    if ds != [] {
      var k := |ds| - 1;
      HoldingRun(s, width, ds[..k]);
      var before := Run(s, width, ds[..k]);
      HoldingFrame(before, width, ds[k]);
    }
  }
}
