# Portfolio page animations, modelled in Dafny

The portfolio page's script (`script.js`) drives two small frame-by-frame
animations:

- **The code canvas.** This is the ambient background. The viewport is cut into
  `ROWS` horizontal bands. Each band holds a *slot* that types a line of code
  one character at a time (`typing`), keeps it on screen (`holding`), fades
  it out (`fading`), and then starts again with a new snippet after a short
  random delay. Already typed characters leave a trail: their opacity drops
  by 0.015 each frame. On every frame the script first updates each slot and
  then paints it: the visible characters, plus a blinking cursor while the
  slot is typing.
- **The hero typewriter (`TxtType`).** It types the current word of a list,
  pauses for `period` milliseconds, deletes the word, pauses 500 ms, and
  moves on to the next word.

The model is functional:

- A slot is an immutable `Slot` record.
- One animation frame of one slot is the pure function `CodeCanvas.Step`.
- The painting pass returns what it would paint, as a `Picture`: glyphs with
  position and opacity, the pen position, and the cursor rectangle.
- A typewriter tick is the pure function `HeroTypewriter.Tick`. It returns
  the new state and the delay before the next tick.
- Everything random or environmental becomes a parameter:
  - each `Math.random()` value is a real in [0, 1);
  - `Date.now()` is an integer, read separately for each row of a frame;
  - `canvas.width` and `window.innerHeight` are naturals;
  - `measureText(ch).width` is an abstract function `char -> real`;
  - the dark-theme attribute is a boolean.

Files:

- `browser.dfy` (`Browser`): the range of `Math.random` and an `Option` type.
- `canvas_slot.dfy` (`CodeCanvas`): constants, the snippet corpus, the slot
  record, `createSlot`, the row count, and the per-frame update.
- `canvas_steps.dfy` (`CanvasSteps`): what one frame does in each phase, and
  the invariant `Valid` that every reachable slot keeps.
- `canvas_runs.dfy` (`CanvasRuns`): runs of several frames. These cover the
  delay countdown, typing progress, and the exact frame on which holding
  ends.
- `canvas_render.dfy` (`CanvasRender`): the painting pass, the blinking
  cursor, the text colour, and a whole frame over all slots.
- `hero_typewriter.dfy` (`HeroTypewriter`): `TxtType.prototype.tick`, the
  constructor, and the type-out / delete cycle of a word.

Details of the code that the model keeps as written:

- A reset after fading draws a new position, snippet and delay. It keeps the
  slot's `speed`, `holdTime` and `fadeSpeed`; the code does not re-randomise
  them.
- Resizing the window only resizes the canvas. `ROWS` is computed once, and
  the slots are never rebuilt, so there is no pool reset to model.
- The cursor is drawn 2 pixels after the pen position. The pen has advanced
  past every shown character, including characters whose opacity has
  reached 0, not only past the last character actually painted.
- Holding ends when the timer is `>= holdTime`. `holdTime` is a real number,
  so this happens on the first whole frame count at or above it.

## Model

| member | source | states |
|---|---|---|
| `CodeCanvas.RowCount` | script.js:75 | The row count is the floor of viewport height over line spacing. |
| `CodeCanvas.RowCountExamples` | script.js:46 | An empty viewport has 0 rows. 280 px holds 7 rows at spacing 40, and 6 rows at the page's 44.8 px line height. |
| `CodeCanvas.RowFitsViewport` | script.js:75-85 | Row `i`'s baseline `(i + 1) * LINE_HEIGHT` lies inside the viewport exactly when `i` is below `ROWS`. |
| `CodeCanvas.RandomSnippet` | script.js:78-80 | Every random number in [0, 1) picks a snippet of the corpus. |
| `CodeCanvas.StartX` | script.js:84 | The start position is at least 24 px. It is at most 24 px plus the width beyond 300, and exactly 24 px on canvases 300 px wide or narrower. |
| `CodeCanvas.InitialDelay` | script.js:94 | A new slot waits fewer than 200 frames. |
| `CodeCanvas.ResetDelay` | script.js:167 | A reset slot waits between 10 and 69 frames. |
| `CodeCanvas.CreateSlot` | script.js:82-96 | A new slot sits on its band and has not started. It satisfies the slot invariant: timing parameters in their drawn ranges, text from the corpus, delay below 200. |
| `CodeCanvas.CreatePool` | script.js:74-100 | Start-up builds one fresh, valid slot per row. Slot `i` has baseline `RowBaseline(i)`, and that baseline lies inside the viewport. |
| `CodeCanvas.Pad` | script.js:120-123 | An opacity array shorter than the text becomes one zero per character. A long-enough array is left alone. |
| `CodeCanvas.Step` | script.js:111-169 | A frame keeps the slot well formed. After an undelayed frame every shown character has an opacity. A delayed frame lowers the delay. |
| `CanvasSteps.SnippetsNonEmpty` | script.js:48-65 | Every snippet of the corpus is non-empty. |
| `CanvasSteps.DelayedFrameOnlyCountsDown` | script.js:113-116 | A frame with `delay > 0` lowers the delay by exactly 1 and changes nothing else. |
| `CanvasSteps.StepKeepsOpacities` | script.js:125-158 | If every opacity is in [0, 1] and the fade rate is non-negative, every opacity is still in [0, 1] after the frame. |
| `CanvasSteps.FirstLiveFrame` | script.js:120-132 | The first undelayed frame of a fresh slot gives it exactly one opacity per character, all 0. Nothing is revealed yet, and the timer equals the speed. |
| `CanvasSteps.TypingFrame` | script.js:125-142 | A typing frame never lowers `shown` and raises it by at most 1, never past the text length. The slot moves to holding, with timer 0, exactly when the whole text is shown. |
| `CanvasSteps.TypingFrameTrail` | script.js:129-137 | After a typing frame the newest shown character has opacity 1. Every older shown character has lost 0.015, never going below 0. |
| `CanvasSteps.TypingFrameContinues` | script.js:126-132 | For any well-formed slot: while the advanced timer's floor is below the text length, the slot keeps typing, and `shown` equals that floor. |
| `CanvasSteps.TypingFrameFinishes` | script.js:126-142 | For any well-formed slot: once the advanced timer's floor reaches the text length, the whole text is shown and the slot holds with timer 0. |
| `CanvasSteps.HoldingFrame` | script.js:144-151 | A holding frame raises the timer by exactly 1. It leaves text and `shown` alone, and moves to fading exactly when the new timer is at least `holdTime`. Every shown character loses 0.015 of opacity, never going below 0. |
| `CanvasSteps.FadingFrame` | script.js:153-168 | A fading slot resets exactly when every shown opacity is at most `fadeSpeed`. The reset sets `shown` 0, no opacities, typing, timer 0, a delay in [10, 69] and a corpus snippet, and keeps band and timing parameters. Otherwise the slot stays fading with the same text, and every shown opacity has dropped by `fadeSpeed`, never below 0. |
| `CanvasSteps.OpacitiesFollowText` | script.js:120-168 | Once the opacity array has one entry per character, it keeps that size until a reset empties it. |
| `CanvasSteps.StepPreservesValid` | script.js:82-169 | Every frame preserves the slot invariant. Opacities stay in [0, 1]. The array has one entry per character or the slot is fresh. A delayed slot is fresh. A typing slot shows `floor(timer)` characters, the newest at opacity 1. A holding slot's timer is below `holdTime`. |
| `CanvasRuns.Run` | script.js:106-198 | Any number of frames keeps a slot well formed, and keeps a valid slot valid. |
| `CanvasRuns.DelayRun` | script.js:113-116 | A slot with `k` frames of delay left comes out of `k` or fewer frames unchanged except for the delay. |
| `CanvasRuns.TimerAfterIsLinear` | script.js:126 | After `k` typing frames the timer has grown by `k` times the speed. |
| `CanvasRuns.TypingRun` | script.js:125-142 | While the timer's floor stays below the text length, a typing slot keeps typing. Its timer is advanced once per frame, and `shown` is the timer's floor. |
| `CanvasRuns.TypingCompletes` | script.js:125-142 | On the frame where the timer's floor first reaches the text length, the whole text is shown and the slot holds. |
| `CanvasRuns.UnitSpeedTyping` | script.js:126-142 | At speed 1, a text of `n` characters shows `k` characters after `k < n` frames, and holds after exactly `n` frames. |
| `CanvasRuns.HoldingRun` | script.js:144-151 | A holding slot counts one per frame. It starts fading on the first frame at which the count reaches `holdTime`, neither earlier nor later. |
| `CanvasRender.TextColor` | script.js:109 | The text is white exactly on the dark theme, and black otherwise. |
| `CanvasRender.DrawText` | script.js:172-183 | The character-by-character loop ends with the pen at `slot.x` plus the widths of the first `shown` characters, whatever their opacity. Its glyph list equals the reference `Glyphs`. |
| `CanvasRender.VisibleIndicesAreThePositiveOnes` | script.js:173-176 | The listed positions are strictly increasing, each below `shown` with positive opacity, and every shown position with positive opacity is listed. |
| `CanvasRender.GlyphsAreVisibleCharacters` | script.js:173-183 | The painted glyphs are exactly the shown characters with positive opacity, one glyph each, in text order. Each lies on the row's baseline at the width of the characters before it. |
| `CanvasRender.VisibleCharactersArePainted` | script.js:173-183 | Every shown character with positive opacity is painted, at the width of the characters before it. |
| `CanvasRender.MonospaceAdvance` | script.js:172-183 | With equal character widths `w`, the pen moves `n * w` over `n` characters. |
| `CanvasRender.Render` | script.js:172-192 | The painted row's pen is `x` plus the shown widths. A cursor is drawn exactly when the slot is typing and `floor(now / 400)` is even, 2 px right of the pen. |
| `CanvasRender.CursorBlinks` | script.js:187 | Cursor visibility flips every 400 ms. |
| `CanvasRender.FrameSlot` | script.js:111-192 | A frame paints a slot exactly when its delay was 0 at the start of the frame, and updates it by `Step`. |
| `CanvasRender.Frame` | script.js:106-196 | A frame updates every slot by `Step`. It paints a slot exactly when its delay was 0 at the start of the frame, in the theme's colour, with a cursor exactly when the updated slot is typing and that slot's own clock reading is in a visible blink phase. |
| `CanvasRender.FrameKeepsValid` | script.js:106-196 | A frame over all slots keeps every slot valid. |
| `CanvasRender.ThemeOnlyChangesColor` | script.js:102-109 | Switching the theme changes only the text colour. The updated slot, glyphs, pen and cursor stay the same. |
| `HeroTypewriter.EffectivePeriod` | script.js:287 | The period is never 0. A parsed non-zero period is used as is; a missing or zero period becomes 2000. |
| `HeroTypewriter.Substring` | script.js:298-300 | `substring(0, end)` returns a prefix of the word. A negative end gives the empty string, and an end past the word gives the whole word. |
| `HeroTypewriter.Tick` | script.js:293-322 | After a tick the text is a prefix of the word at the new `loopNum`, and `loopNum` has grown by at most 1. |
| `HeroTypewriter.Start` | script.js:283-291 | The constructor ticks with the period settled by `EffectivePeriod`. Afterwards `loopNum` is 0, `isDeleting` is false, and the text is a prefix of the first word. |
| `HeroTypewriter.Ticks` | script.js:293-322 | After any number of ticks the text is a prefix of the current word, and `loopNum` has grown by at most one per tick. |
| `HeroTypewriter.TickMovesOneCharacter` | script.js:294-301 | Starting from a prefix of the current word, a tick changes the length by at most 1. Typing only extends the text; deleting only shortens it. |
| `HeroTypewriter.TickOutcomes` | script.js:306-317 | Reaching the whole word while typing turns to deleting with delay `period`. Reaching the empty text while deleting turns to typing, advances `loopNum` by exactly 1, and waits 500 ms. Otherwise the direction is kept and the delay is `150 - 50 r`, halved when deleting: in (100, 150] when typing, (50, 75] when deleting. |
| `HeroTypewriter.TypeOutWord` | script.js:297-312 | Typing from the first `j` characters reaches the whole word after exactly `|word| - j` ticks, and then turns to deleting. |
| `HeroTypewriter.DeleteWord` | script.js:297-317 | Deleting from the first `j` characters empties the text after exactly `j` ticks, and moves to the next word. |
| `HeroTypewriter.WordCycle` | script.js:293-317 | A non-empty word takes exactly twice its length in ticks, from empty text on that word to empty text on the next word. |
| `HeroTypewriter.EmptyWordCycle` | script.js:297-317 | An empty word takes exactly two ticks: the first turns to deleting with the text still empty, the second moves to the next word with empty text. |
| `HeroTypewriter.StartOverwritesFirstTick` | script.js:288-290 | The first tick turns to deleting exactly when the first word has at most one character. In that case the constructor turns it back, and the next tick shows the whole word again with a second full `period` pause. For longer words the late assignment changes nothing. |

## Left out

- Canvas painting calls (`clearRect`, `fillText`, `fillRect`, the font
  setting) and pixel output. The painting pass returns glyphs, a pen position
  and a cursor rectangle instead. `measureText` is an abstract width
  function.
- The `requestAnimationFrame` loop and the `setTimeout` re-scheduling. The
  model covers single frames and ticks, and finite runs of them
  (`CanvasRuns.Run`, `HeroTypewriter.Ticks`), not the endless loop.
- The resize handler. It only resets the canvas size. The canvas width is a
  parameter of each frame.
- IEEE double rounding. All timers, speeds and opacities are exact reals, so
  `LINE_HEIGHT` is exactly 44.8. Frame-count claims hold for exact
  arithmetic, and nothing is claimed about how many frames a fade takes under
  floating-point accumulation.
- `Math.random` and `Date.now`. They are parameters; each random value is
  assumed to lie in [0, 1).
- DOM and event glue with no logic beyond class and attribute flips:
  - scroll fade-ins;
  - the copyright year;
  - the navigation scroll class;
  - the theme toggle and its `localStorage` entry;
  - the mobile menu;
  - the contact form stub;
  - `JSON.parse`, the `parseInt` call itself, and `innerHTML` in the
    typewriter setup.
- HeroTypewriter.Tick: requires a non-empty word list. On an empty list
  `toRotate[NaN]` is `undefined`, and the script throws a TypeError when it
  calls `substring` on that value, so there is no behaviour to model.
- HeroTypewriter.Tick: a word is a Dafny `string`, a sequence of Unicode
  scalar values, and a tick adds or removes one of them. The page's
  `length` and `substring` count UTF-16 code units. For a word with a
  character outside the Basic Multilingual Plane the page takes one extra
  tick per such character in each direction, and shows a lone surrogate in
  between. `TypeOutWord`, `DeleteWord` and `WordCycle` count ticks in scalar
  values, so they match the page only for words within that plane.
- HeroTypewriter.Typer: `loopNum` is an unbounded natural. The loss of
  precision of a JavaScript number past 2^53 ticks is not modelled.
- CodeCanvas.Step: requires a well-formed slot: `shown <= |text|`, and a
  non-negative timer and speed. Every slot the script creates satisfies
  this, and every frame keeps it. Outside those states the script can make
  `shown` negative (a negative timer or speed while typing). It can also
  read and write past the end of the opacity array (holding or fading with
  `shown` beyond the text length). Neither behaviour is modelled.
