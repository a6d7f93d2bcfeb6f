/**
 The rotating typewriter of the hero section (`TxtType`). It types a word
 one character per tick, pauses, deletes it one character per tick, moves on
 to the next word of the list and starts over. The element update and the
 `setTimeout` scheduling are left out: a tick returns the new state and the
 delay, in milliseconds, before the next tick.
 */
module HeroTypewriter {
  import opened Browser

  /** Pause at a fully typed word when `data-period` is missing or zero. */
  const DefaultPeriod: int := 2000

  /** Pause after a word has been fully deleted. */
  const NewWordPause: real := 500.0

  /** The widget state. `isDeleting` is false before it is first assigned,
      which is how JavaScript treats the undefined property in a test. */
  datatype Typer = Typer(loopNum: nat, txt: string, isDeleting: bool)

  datatype TickResult = TickResult(next: Typer, delta: real)

  /** `parseInt(period, 10) || 2000`: an unparsable or zero period falls back
      to the default. */
  function EffectivePeriod(parsed: Option<int>): (p: int)
    ensures p != 0
    ensures parsed.Some? && parsed.value != 0 ==> p == parsed.value
    ensures parsed.None? || parsed.value == 0 ==> p == DefaultPeriod
  {
    match parsed
    case Some(k) => if k != 0 then k else DefaultPeriod
    case None => DefaultPeriod
  }

  /** `w.substring(0, end)`: an end below zero counts as zero and one past the
      word counts as its length. */
  function Substring(w: string, end: int): (r: string)
    ensures r <= w
    ensures end <= 0 ==> r == []
    ensures 0 <= end <= |w| ==> |r| == end
    ensures end >= |w| ==> r == w
  {
    if end <= 0 then [] else if end >= |w| then w else w[..end]
  }

  /** The word the widget is currently working on. */
  function CurrentWord(words: seq<string>, loopNum: nat): string
    requires |words| > 0
  {
    words[loopNum % |words|]
  }

  /** `TxtType.prototype.tick`, with `r` the value of `Math.random()`. */
  function Tick(words: seq<string>, period: int, st: Typer, r: real): (res: TickResult)
    requires |words| > 0 && Unit(r)
    ensures res.next.txt <= CurrentWord(words, res.next.loopNum)
    ensures res.next.loopNum == st.loopNum || res.next.loopNum == st.loopNum + 1
  {
    var full := CurrentWord(words, st.loopNum);
    var txt := if st.isDeleting then Substring(full, |st.txt| - 1) else Substring(full, |st.txt| + 1);
    var keystroke := 150.0 - r * 50.0;
    var delta := if st.isDeleting then keystroke / 2.0 else keystroke;
    if !st.isDeleting && txt == full then TickResult(Typer(st.loopNum, txt, true), period as real)
    else if st.isDeleting && txt == [] then TickResult(Typer(st.loopNum + 1, txt, false), NewWordPause)
    else TickResult(Typer(st.loopNum, txt, st.isDeleting), delta)
  }

  /** The constructor, given the parsed `data-period` attribute: it settles
      the period, ticks once from the empty text and only then sets
      `isDeleting` to false, discarding whatever that first tick decided. */
  function Start(words: seq<string>, parsed: Option<int>, r: real): (res: TickResult)
    requires |words| > 0 && Unit(r)
    ensures res.next.loopNum == 0 && !res.next.isDeleting
    ensures res.next.txt <= words[0]
  {
    var first := Tick(words, EffectivePeriod(parsed), Typer(0, [], false), r);
    TickResult(first.next.(isDeleting := false), first.delta)
  }

  predicate AllUnit(rs: seq<real>) {
    forall i :: 0 <= i < |rs| ==> Unit(rs[i])
  }

  /** The state after one tick per element of `rs`, the first tick first. */
  function Ticks(words: seq<string>, period: int, st: Typer, rs: seq<real>): (t: Typer)
    requires |words| > 0 && AllUnit(rs)
    ensures |rs| > 0 ==> t.txt <= CurrentWord(words, t.loopNum)
    ensures st.loopNum <= t.loopNum <= st.loopNum + |rs|
    decreases |rs|
  {
    if rs == [] then st else Ticks(words, period, Tick(words, period, st, rs[0]).next, rs[1..])
  }

  /** A tick moves the text by at most one character, in its direction:
      typing only extends the text and deleting only shortens it. */
  lemma TickMovesOneCharacter(words: seq<string>, period: int, st: Typer, r: real)
    requires |words| > 0 && Unit(r)
    requires st.txt <= CurrentWord(words, st.loopNum)
    ensures var t := Tick(words, period, st, r).next;
      && |t.txt| - 1 <= |st.txt| <= |t.txt| + 1
      && (!st.isDeleting ==> st.txt <= t.txt)
      && (st.isDeleting ==> t.txt <= st.txt)
  {
  }

  /** The three outcomes of a tick and the delay each one schedules. */
  lemma TickOutcomes(words: seq<string>, period: int, st: Typer, r: real)
    requires |words| > 0 && Unit(r)
    ensures var res := Tick(words, period, st, r);
      var full := CurrentWord(words, st.loopNum);
      && (!st.isDeleting && res.next.txt == full ==>
            res.next.isDeleting && res.next.loopNum == st.loopNum && res.delta == period as real)
      && (st.isDeleting && res.next.txt == [] ==>
            !res.next.isDeleting && res.next.loopNum == st.loopNum + 1 && res.delta == NewWordPause)
      && (!(!st.isDeleting && res.next.txt == full) && !(st.isDeleting && res.next.txt == []) ==>
            && res.next.isDeleting == st.isDeleting && res.next.loopNum == st.loopNum
            && res.delta == (if st.isDeleting then (150.0 - r * 50.0) / 2.0 else 150.0 - r * 50.0)
            && (st.isDeleting ==> 50.0 < res.delta <= 75.0)
            && (!st.isDeleting ==> 100.0 < res.delta <= 150.0))
  {
  }

  /** Typing from the first `j` characters of the current word reaches the
      whole word after one tick per missing character, then turns to
      deleting. */
  lemma {:induction false} TypeOutWord(words: seq<string>, period: int, k: nat, j: nat, rs: seq<real>)
    requires |words| > 0 && AllUnit(rs)
    requires j < |CurrentWord(words, k)|
    requires |rs| == |CurrentWord(words, k)| - j
    ensures Ticks(words, period, Typer(k, CurrentWord(words, k)[..j], false), rs)
            == Typer(k, CurrentWord(words, k), true)
    decreases |rs|
  {
    var w := CurrentWord(words, k);
    var t := Tick(words, period, Typer(k, w[..j], false), rs[0]).next;
    if j + 1 == |w| {
      assert t == Typer(k, w, true);
    } else {
      assert t == Typer(k, w[..j + 1], false);
      TypeOutWord(words, period, k, j + 1, rs[1..]);
    }
  }

  /** Deleting from the first `j` characters of the current word empties the
      text after `j` ticks and moves on to the next word, typing again. */
  lemma {:induction false} DeleteWord(words: seq<string>, period: int, k: nat, j: nat, rs: seq<real>)
    requires |words| > 0 && AllUnit(rs)
    requires 0 < j <= |CurrentWord(words, k)|
    requires |rs| == j
    ensures Ticks(words, period, Typer(k, CurrentWord(words, k)[..j], true), rs) == Typer(k + 1, [], false)
    decreases |rs|
  {
    var w := CurrentWord(words, k);
    var t := Tick(words, period, Typer(k, w[..j], true), rs[0]).next;
    if j == 1 {
      assert t == Typer(k + 1, [], false);
    } else {
      assert t == Typer(k, w[..j - 1], true);
      DeleteWord(words, period, k, j - 1, rs[1..]);
    }
  }

  /** Ticking through two lists of random numbers one after the other is
      ticking through their concatenation. */
  lemma {:induction false} TicksAppend(words: seq<string>, period: int, st: Typer, rs1: seq<real>, rs2: seq<real>)
    requires |words| > 0 && AllUnit(rs1) && AllUnit(rs2)
    ensures AllUnit(rs1 + rs2)
    ensures Ticks(words, period, st, rs1 + rs2)
            == Ticks(words, period, Ticks(words, period, st, rs1), rs2)
    decreases |rs1|
  {
    assert AllUnit(rs1 + rs2) by {
      forall i | 0 <= i < |rs1 + rs2|
        ensures Unit((rs1 + rs2)[i])
      {
        if i < |rs1| {
          assert (rs1 + rs2)[i] == rs1[i];
        } else {
          assert (rs1 + rs2)[i] == rs2[i - |rs1|];
        }
      }
    }
    if rs1 != [] {
      var both := rs1 + rs2;
      var t := Tick(words, period, st, rs1[0]).next;
      assert both[0] == rs1[0];
      assert both[1..] == rs1[1..] + rs2;
      TicksAppend(words, period, t, rs1[1..], rs2);
      assert Ticks(words, period, st, both) == Ticks(words, period, t, both[1..]);
      assert Ticks(words, period, st, rs1) == Ticks(words, period, t, rs1[1..]);
    } else {
      assert rs1 + rs2 == rs2;
    }
  }

  /** An empty word also takes two ticks: the first finds the (empty) text
      equal to the word and turns to deleting, the second finds the text
      empty and moves on to the next word. */
  lemma EmptyWordCycle(words: seq<string>, period: int, k: nat, rs: seq<real>)
    requires |words| > 0 && AllUnit(rs)
    requires CurrentWord(words, k) == []
    requires |rs| == 2
    ensures Tick(words, period, Typer(k, [], false), rs[0]).next == Typer(k, [], true)
    ensures Ticks(words, period, Typer(k, [], false), rs) == Typer(k + 1, [], false)
  {
    var t1 := Tick(words, period, Typer(k, [], false), rs[0]).next;
    assert t1 == Typer(k, [], true);
    var t2 := Tick(words, period, t1, rs[1..][0]).next;
    assert t2 == Typer(k + 1, [], false);
    assert Ticks(words, period, t1, rs[1..]) == Ticks(words, period, t2, rs[1..][1..]);
    assert rs[1..][1..] == [];
  }

  /** A non-empty word takes exactly twice its length in ticks: typed out,
      deleted, and the widget is on the next word with an empty text. */
  lemma WordCycle(words: seq<string>, period: int, k: nat, rs: seq<real>)
    requires |words| > 0 && AllUnit(rs)
    requires |CurrentWord(words, k)| > 0
    requires |rs| == 2 * |CurrentWord(words, k)|
    ensures Ticks(words, period, Typer(k, [], false), rs) == Typer(k + 1, [], false)
  {
    var w := CurrentWord(words, k);
    var n := |w|;
    assert rs == rs[..n] + rs[n..];
    TicksAppend(words, period, Typer(k, [], false), rs[..n], rs[n..]);
    assert w[..0] == [];
    TypeOutWord(words, period, k, 0, rs[..n]);
    assert w[..n] == w;
    DeleteWord(words, period, k, n, rs[n..]);
  }

  /** The constructor's late `isDeleting = false` matters exactly when the
      first word has at most one character: then the first tick has already
      reached the whole word and turned to deleting, and the constructor
      turns it back, so the next tick shows the whole word again and pauses
      a second full period. For longer words the assignment changes nothing. */
  lemma StartOverwritesFirstTick(words: seq<string>, parsed: Option<int>, r: real, r2: real)
    requires |words| > 0 && Unit(r) && Unit(r2)
    ensures var period := EffectivePeriod(parsed);
      var first := Tick(words, period, Typer(0, [], false), r);
      var started := Start(words, parsed, r);
      && (first.next.isDeleting <==> |words[0]| <= 1)
      && (|words[0]| > 1 ==> started == first)
      && (|words[0]| <= 1 ==>
            && started.next == Typer(0, words[0], false)
            && started.delta == period as real
            && Tick(words, period, started.next, r2) == TickResult(Typer(0, words[0], true), period as real))
  {
    assert CurrentWord(words, 0) == words[0];
  }
}
