/** The gesture classifier (`check_button_tact`): a fixed-depth tree of deadline loops
    built on the debounced level reader. A press is timed against KEYLONGDELAY; after a
    short press a window of ALLOWED_MULTIPRESS_DELAY waits for the next one; at most three
    presses are chained. */
module Classifier {
  import opened Gestures
  import opened Environment
  import opened LevelReader

  /** How a timed press ended: still held when a clock read reached the long-press
      deadline, or released (a debounced read answered false) before that. */
  datatype Hold = HeldLong | Released

  /** How a multi-press window ended: a further debounced press, or the window elapsed. */
  datatype Gap = Repressed | Expired

  /** The loop `while (button_pressed()) { if (millis() >= presstime) ... }`. */
  function HoldLoop(active: Level, tm: Timing, tr: Trace, pos: nat, deadline: nat): (r: Run<Hold>)
    ensures r.Ran? ==> pos < r.next <= |tr|
    decreases |tr| - pos
  {
    var b := Debounce(active, tm, tr, pos);
    if b.Starved? then Starved
    else if !b.value then Ran(Released, b.next)
    else if b.next >= |tr| then Starved
    else if tr[b.next].time >= deadline then Ran(HeldLong, b.next + 1)
    else HoldLoop(active, tm, tr, b.next + 1, deadline)
  }

  /** `presstime = millis() + KEYLONGDELAY` followed by the hold loop. */
  function TimedHold(active: Level, tm: Timing, tr: Trace, pos: nat): (r: Run<Hold>)
    ensures r.Ran? ==> pos < r.next <= |tr|
  {
    if pos >= |tr| then Starved
    else HoldLoop(active, tm, tr, pos + 1, tr[pos].time + tm.longPress)
  }

  /** The loop `while (millis() < presstime) { if (button_pressed()) ... }`. */
  function GapLoop(active: Level, tm: Timing, tr: Trace, pos: nat, deadline: nat): (r: Run<Gap>)
    ensures r.Ran? ==> pos < r.next <= |tr|
    decreases |tr| - pos
  {
    if pos >= |tr| then Starved
    else if tr[pos].time >= deadline then Ran(Expired, pos + 1)
    else
      var b := Debounce(active, tm, tr, pos + 1);
      if b.Starved? then Starved
      else if b.value then Ran(Repressed, b.next)
      else GapLoop(active, tm, tr, b.next, deadline)
  }

  /** `presstime = millis() + ALLOWED_MULTIPRESS_DELAY` followed by the window loop. */
  function TimedGap(active: Level, tm: Timing, tr: Trace, pos: nat): (r: Run<Gap>)
    ensures r.Ran? ==> pos < r.next <= |tr|
  {
    if pos >= |tr| then Starved
    else GapLoop(active, tm, tr, pos + 1, tr[pos].time + tm.multiPress)
  }

  /** The rest of the classification once the `n`-th press has been debounced. */
  function Press(active: Level, tm: Timing, tr: Trace, n: Count, pos: nat): (r: Run<Gesture>)
    ensures r.Ran? ==> pos < r.next <= |tr|
    ensures r.Ran? ==> Dispatchable(r.value) && r.value.presses >= n
    decreases 3 - n, 2
  {
    AfterHold(active, tm, tr, n, TimedHold(active, tm, tr, pos))
  }

  /** The rest of the classification once the `n`-th press has been timed: long if held,
      triple short after a third release, otherwise a window for one more press. */
  function AfterHold(active: Level, tm: Timing, tr: Trace, n: Count, h: Run<Hold>): (r: Run<Gesture>)
    requires h.Ran? ==> h.next <= |tr|
    ensures r.Ran? ==> h.Ran? && h.next <= r.next <= |tr|
    ensures r.Ran? ==> Dispatchable(r.value) && r.value.presses >= n
    decreases 3 - n, 1
  {
    match h
    case Starved => Starved
    case Ran(HeldLong, p) => Ran(Long(n), p)
    case Ran(Released, p) =>
      if n == 3 then Ran(Short(3), p)
      else AfterGap(active, tm, tr, n, TimedGap(active, tm, tr, p))
  }

  /** The rest of the classification once the window after the `n`-th press has ended. */
  function AfterGap(active: Level, tm: Timing, tr: Trace, n: Count, g: Run<Gap>): (r: Run<Gesture>)
    requires n < 3
    requires g.Ran? ==> g.next <= |tr|
    ensures r.Ran? ==> g.Ran? && g.next <= r.next <= |tr|
    ensures r.Ran? ==> Dispatchable(r.value) && r.value.presses >= n
    decreases 3 - n, 0
  {
    match g
    case Starved => Starved
    case Ran(Expired, q) => Ran(Short(n), q)
    case Ran(Repressed, q) => Press(active, tm, tr, n + 1, q)
  }

  /** Reference definition of `check_button_tact` started at trace position `pos`. */
  function Classify(active: Level, tm: Timing, tr: Trace, pos: nat): (r: Run<Gesture>)
    ensures r.Ran? ==> pos < r.next <= |tr|
    ensures r.Ran? ==> r.value != None
    ensures (r.Ran? && r.value == NotPressed)
            <==> (Debounce(active, tm, tr, pos).Ran? && !Debounce(active, tm, tr, pos).value)
    ensures r.Ran? && r.value == NotPressed ==> r.next == Debounce(active, tm, tr, pos).next
  {
    var b := Debounce(active, tm, tr, pos);
    if b.Starved? then Starved
    else if !b.value then Ran(NotPressed, b.next)
    else Press(active, tm, tr, 1, b.next)
  }

  /** The chain of presses from the `n`-th to the `m`-th: `start` is the clock read
      `presstime = millis() + KEYLONGDELAY` that starts timing the `n`-th press, and `x` the one
      that starts timing the `m`-th. Every press before the `m`-th was released and followed by
      a window that saw a further debounced press. */
  ghost predicate Chain(active: Level, tm: Timing, tr: Trace, start: nat, n: Count, m: Count, x: nat)
    decreases 3 - n
  {
    if m == n then x == start
    else
      && n < m
      && n < 3
      && var h := TimedHold(active, tm, tr, start);
         && h.Ran?
         && h.value == Released
         && var g := TimedGap(active, tm, tr, h.next);
            && g.Ran?
            && g.value == Repressed
            && Chain(active, tm, tr, g.next, n + 1, m, x)
  }

  /** The chain names one read: from a given start, the timing of the `m`-th press starts at
      exactly one position. */
  lemma {:induction false} ChainUnique(active: Level, tm: Timing, tr: Trace, start: nat, n: Count, m: Count, x: nat, y: nat)
    requires Chain(active, tm, tr, start, n, m, x)
    requires Chain(active, tm, tr, start, n, m, y)
    ensures x == y
    decreases 3 - n
  {
    if m != n {
      var h := TimedHold(active, tm, tr, start);
      ChainUnique(active, tm, tr, TimedGap(active, tm, tr, h.next).next, n + 1, m, x, y);
    }
  }

  /** One more link: a released press whose window saw a further press extends the chain. */
  lemma ChainStep(active: Level, tm: Timing, tr: Trace, start: nat, n: Count, m: Count, x: nat)
    requires n < m
    requires TimedHold(active, tm, tr, start).Ran? && TimedHold(active, tm, tr, start).value == Released
    requires TimedGap(active, tm, tr, TimedHold(active, tm, tr, start).next).Ran?
    requires TimedGap(active, tm, tr, TimedHold(active, tm, tr, start).next).value == Repressed
    requires Chain(active, tm, tr, TimedGap(active, tm, tr, TimedHold(active, tm, tr, start).next).next, n + 1, m, x)
    ensures Chain(active, tm, tr, start, n, m, x)
  {
  }

  /** Evidence for a long code counting `m` presses that ends before sample `p`: the clock read
      `s` started timing the `m`-th press (reached through the chain from the `n`-th press, timed
      from `pos`); that timed press ended long at `p`; the `button_pressed()` call at `x` answered
      true just before the last clock read, which was KEYLONGDELAY or more after `s`. */
  ghost predicate LongEvidence(active: Level, tm: Timing, tr: Trace, pos: nat, n: Count, m: Count, p: nat, s: nat, x: nat)
  {
    && pos <= s < x < p - 1
    && p <= |tr|
    && Chain(active, tm, tr, pos, n, m, s)
    && TimedHold(active, tm, tr, s) == Ran(HeldLong, p)
    && Debounce(active, tm, tr, x) == Ran(true, p - 1)
    && tr[p - 1].time >= tr[s].time + tm.longPress
  }

  /** Evidence for a short code counting `m` presses that ends before sample `p`: the clock read
      `x` started timing the `m`-th press (reached through the chain from the `n`-th press, timed
      from `pos`); that press was released with `s` the next clock read; the window that `s`
      opened saw no further debounced press and ended at `p`, on a clock read
      ALLOWED_MULTIPRESS_DELAY or more after `s`. */
  ghost predicate ShortEvidence(active: Level, tm: Timing, tr: Trace, pos: nat, n: Count, m: Count, p: nat, x: nat, s: nat)
  {
    && pos <= x < s < p - 1
    && p <= |tr|
    && Chain(active, tm, tr, pos, n, m, x)
    && TimedHold(active, tm, tr, x) == Ran(Released, s)
    && TimedGap(active, tm, tr, s) == Ran(Expired, p)
    && tr[p - 1].time >= tr[s].time + tm.multiPress
  }

  /** A hold loop ends long only on a clock read at or past its deadline that directly
      follows a `button_pressed()` call answering true. */
  lemma {:induction false} HoldLoopLong(active: Level, tm: Timing, tr: Trace, pos: nat, deadline: nat)
    requires HoldLoop(active, tm, tr, pos, deadline).Ran?
    requires HoldLoop(active, tm, tr, pos, deadline).value == HeldLong
    ensures var p := HoldLoop(active, tm, tr, pos, deadline).next;
            && tr[p - 1].time >= deadline
            && exists x :: pos <= x < p - 1 && Debounce(active, tm, tr, x) == Ran(true, p - 1)
    decreases |tr| - pos
  {
    var b := Debounce(active, tm, tr, pos);
    if tr[b.next].time < deadline {
      HoldLoopLong(active, tm, tr, b.next + 1, deadline);
    }
  }

  /** A timed press that ends long is evidence for a long code counting the press it times. */
  lemma HeldLongEvidence(active: Level, tm: Timing, tr: Trace, n: Count, pos: nat)
    requires TimedHold(active, tm, tr, pos).Ran? && TimedHold(active, tm, tr, pos).value == HeldLong
    ensures exists s, x :: LongEvidence(active, tm, tr, pos, n, n, TimedHold(active, tm, tr, pos).next, s, x)
  {
    var p := TimedHold(active, tm, tr, pos).next;
    HoldLoopLong(active, tm, tr, pos + 1, tr[pos].time + tm.longPress);
    var x :| pos + 1 <= x < p - 1 && Debounce(active, tm, tr, x) == Ran(true, p - 1);
    assert LongEvidence(active, tm, tr, pos, n, n, p, pos, x);
  }

  /** A long code counting `m` presses is produced only when a clock read reached KEYLONGDELAY
      after the clock read `s` that started timing the `m`-th press, right after
      `button_pressed()` answered true. */
  lemma {:induction false} PressLong(active: Level, tm: Timing, tr: Trace, n: Count, pos: nat)
    requires Press(active, tm, tr, n, pos).Ran?
    requires Press(active, tm, tr, n, pos).value.Long?
    ensures var r := Press(active, tm, tr, n, pos);
            exists s, x :: LongEvidence(active, tm, tr, pos, n, r.value.presses, r.next, s, x)
    decreases 3 - n
  {
    var r := Press(active, tm, tr, n, pos);
    var h := TimedHold(active, tm, tr, pos);
    if h.value == HeldLong {
      assert r == Ran(Long(n), h.next);
      HeldLongEvidence(active, tm, tr, n, pos);
    } else {
      var g := TimedGap(active, tm, tr, h.next);
      assert n < 3 && g.Ran? && g.value == Repressed;
      assert Press(active, tm, tr, n + 1, g.next) == r;
      PressLong(active, tm, tr, n + 1, g.next);
      var s, x :| LongEvidence(active, tm, tr, g.next, n + 1, r.value.presses, r.next, s, x);
      ChainStep(active, tm, tr, pos, n, r.value.presses, s);
      assert LongEvidence(active, tm, tr, pos, n, r.value.presses, r.next, s, x);
    }
  }

  /** `check_button_tact` returns a long code counting `m` presses only at a clock read at or
      past KEYLONGDELAY after the read that started timing the `m`-th press, directly after a
      `button_pressed()` call answering true. The chain starts at the first press, timed right
      after the first `button_pressed()` call. */
  lemma ClassifyLong(active: Level, tm: Timing, tr: Trace, pos: nat)
    requires Classify(active, tm, tr, pos).Ran?
    requires Classify(active, tm, tr, pos).value.Long?
    ensures var r := Classify(active, tm, tr, pos);
            exists s, x :: LongEvidence(active, tm, tr, Debounce(active, tm, tr, pos).next, 1, r.value.presses, r.next, s, x)
  {
    var b := Debounce(active, tm, tr, pos);
    PressLong(active, tm, tr, 1, b.next);
  }

  /** A multi-press window ends without a further press only on a clock read at or past its deadline. */
  lemma {:induction false} GapLoopExpired(active: Level, tm: Timing, tr: Trace, pos: nat, deadline: nat)
    requires GapLoop(active, tm, tr, pos, deadline).Ran?
    requires GapLoop(active, tm, tr, pos, deadline).value == Expired
    ensures tr[GapLoop(active, tm, tr, pos, deadline).next - 1].time >= deadline
    decreases |tr| - pos
  {
    if tr[pos].time < deadline {
      GapLoopExpired(active, tm, tr, Debounce(active, tm, tr, pos + 1).next, deadline);
    }
  }

  /** A released press whose window expires is evidence for a short code counting the press. */
  lemma ExpiredEvidence(active: Level, tm: Timing, tr: Trace, n: Count, pos: nat)
    requires TimedHold(active, tm, tr, pos).Ran? && TimedHold(active, tm, tr, pos).value == Released
    requires TimedGap(active, tm, tr, TimedHold(active, tm, tr, pos).next).Ran?
    requires TimedGap(active, tm, tr, TimedHold(active, tm, tr, pos).next).value == Expired
    ensures var s := TimedHold(active, tm, tr, pos).next;
            ShortEvidence(active, tm, tr, pos, n, n, TimedGap(active, tm, tr, s).next, pos, s)
  {
    var s := TimedHold(active, tm, tr, pos).next;
    GapLoopExpired(active, tm, tr, s + 1, tr[s].time + tm.multiPress);
  }

  /** A single or double short press is reported only when the `m`-th press, reached through
      the chain, is released and the window opened by the next clock read `s` ends with no
      further press, on a clock read ALLOWED_MULTIPRESS_DELAY or more after `s`. */
  lemma {:induction false} PressShortWaits(active: Level, tm: Timing, tr: Trace, n: Count, pos: nat)
    requires Press(active, tm, tr, n, pos).Ran?
    requires Press(active, tm, tr, n, pos).value.Short?
    requires Press(active, tm, tr, n, pos).value.presses < 3
    ensures var r := Press(active, tm, tr, n, pos);
            exists x, s :: ShortEvidence(active, tm, tr, pos, n, r.value.presses, r.next, x, s)
    decreases 3 - n
  {
    var r := Press(active, tm, tr, n, pos);
    var h := TimedHold(active, tm, tr, pos);
    assert h.Ran? && h.value == Released && n < 3;
    var g := TimedGap(active, tm, tr, h.next);
    if g.value == Expired {
      assert r == Ran(Short(n), g.next);
      ExpiredEvidence(active, tm, tr, n, pos);
    } else {
      assert Press(active, tm, tr, n + 1, g.next) == r;
      PressShortWaits(active, tm, tr, n + 1, g.next);
      var x, s :| ShortEvidence(active, tm, tr, g.next, n + 1, r.value.presses, r.next, x, s);
      ChainStep(active, tm, tr, pos, n, r.value.presses, x);
      assert ShortEvidence(active, tm, tr, pos, n, r.value.presses, r.next, x, s);
    }
  }

  /** `check_button_tact` reports SINGLE_PRESS_SHORT or DOUBLE_PRESS_SHORT only when the
      window opened right after the release of the last press expires, with no further press,
      on a clock read ALLOWED_MULTIPRESS_DELAY or more past the read that opened it. The chain
      starts at the first press, timed right after the first `button_pressed()` call. */
  lemma ClassifyShortWaits(active: Level, tm: Timing, tr: Trace, pos: nat)
    requires Classify(active, tm, tr, pos).Ran?
    requires Classify(active, tm, tr, pos).value.Short?
    requires Classify(active, tm, tr, pos).value.presses < 3
    ensures var r := Classify(active, tm, tr, pos);
            exists x, s :: ShortEvidence(active, tm, tr, Debounce(active, tm, tr, pos).next, 1, r.value.presses, r.next, x, s)
  {
    var b := Debounce(active, tm, tr, pos);
    PressShortWaits(active, tm, tr, 1, b.next);
  }

  /** While the button is held, a timed press can only end long. */
  lemma {:induction false} HoldLoopHeld(active: Level, tm: Timing, tr: Trace, pos: nat, deadline: nat)
    requires HeldFrom(active, tr, pos)
    ensures HoldLoop(active, tm, tr, pos, deadline).Ran? ==> HoldLoop(active, tm, tr, pos, deadline).value == HeldLong
    decreases |tr| - pos
  {
    HeldNeverReleased(active, tm, tr, pos);
    var b := Debounce(active, tm, tr, pos);
    if b.Ran? && b.next < |tr| && tr[b.next].time < deadline {
      HoldLoopHeld(active, tm, tr, b.next + 1, deadline);
    }
  }

  /** The hold loop depends only on the samples it consumes. */
  lemma {:induction false} HoldLoopAgree(active: Level, tm: Timing, tr: Trace, other: Trace, pos: nat, deadline: nat)
    requires HoldLoop(active, tm, tr, pos, deadline).Ran?
    requires Agree(tr, other, HoldLoop(active, tm, tr, pos, deadline).next)
    ensures HoldLoop(active, tm, other, pos, deadline) == HoldLoop(active, tm, tr, pos, deadline)
    decreases |tr| - pos
  {
    DebounceAgree(active, tm, tr, other, pos);
    var b := Debounce(active, tm, tr, pos);
    if b.value && tr[b.next].time < deadline {
      HoldLoopAgree(active, tm, tr, other, b.next + 1, deadline);
    }
  }

  /** The multi-press window loop depends only on the samples it consumes. */
  lemma {:induction false} GapLoopAgree(active: Level, tm: Timing, tr: Trace, other: Trace, pos: nat, deadline: nat)
    requires GapLoop(active, tm, tr, pos, deadline).Ran?
    requires Agree(tr, other, GapLoop(active, tm, tr, pos, deadline).next)
    ensures GapLoop(active, tm, other, pos, deadline) == GapLoop(active, tm, tr, pos, deadline)
    decreases |tr| - pos
  {
    if tr[pos].time < deadline {
      DebounceAgree(active, tm, tr, other, pos + 1);
      var b := Debounce(active, tm, tr, pos + 1);
      if !b.value {
        GapLoopAgree(active, tm, tr, other, b.next, deadline);
      }
    }
  }

  /** A timed press depends only on the samples it consumes. */
  lemma TimedHoldAgree(active: Level, tm: Timing, tr: Trace, other: Trace, pos: nat)
    requires TimedHold(active, tm, tr, pos).Ran?
    requires Agree(tr, other, TimedHold(active, tm, tr, pos).next)
    ensures TimedHold(active, tm, other, pos) == TimedHold(active, tm, tr, pos)
  {
    var deadline := tr[pos].time + tm.longPress;
    assert other[pos] == tr[pos];
    HoldLoopAgree(active, tm, tr, other, pos + 1, deadline);
  }

  /** A multi-press window depends only on the samples it consumes. */
  lemma TimedGapAgree(active: Level, tm: Timing, tr: Trace, other: Trace, pos: nat)
    requires TimedGap(active, tm, tr, pos).Ran?
    requires Agree(tr, other, TimedGap(active, tm, tr, pos).next)
    ensures TimedGap(active, tm, other, pos) == TimedGap(active, tm, tr, pos)
  {
    var deadline := tr[pos].time + tm.multiPress;
    assert other[pos] == tr[pos];
    GapLoopAgree(active, tm, tr, other, pos + 1, deadline);
  }

  /** The classification after the `n`-th debounced press depends only on the samples it consumes. */
  lemma {:induction false} PressAgree(active: Level, tm: Timing, tr: Trace, other: Trace, n: Count, pos: nat)
    requires Press(active, tm, tr, n, pos).Ran?
    requires Agree(tr, other, Press(active, tm, tr, n, pos).next)
    ensures Press(active, tm, other, n, pos) == Press(active, tm, tr, n, pos)
    decreases 3 - n
  {
    var h := TimedHold(active, tm, tr, pos);
    TimedHoldAgree(active, tm, tr, other, pos);
    if h.value == Released && n < 3 {
      var g := TimedGap(active, tm, tr, h.next);
      TimedGapAgree(active, tm, tr, other, h.next);
      if g.value == Repressed {
        PressAgree(active, tm, tr, other, n + 1, g.next);
      }
    }
  }

  /** `check_button_tact` reads the trace strictly in order: cutting the trace anywhere at or
      after the sample where a call ends leaves its answer unchanged, and cutting it earlier
      leaves the call still waiting. */
  lemma ClassifyPrefix(active: Level, tm: Timing, tr: Trace, pos: nat, m: nat, v: Gesture, n: nat)
    requires m <= |tr|
    ensures Classify(active, tm, tr[..m], pos) == Ran(v, n)
            <==> Classify(active, tm, tr, pos) == Ran(v, n) && n <= m
  {
    var cut := tr[..m];
    if Classify(active, tm, cut, pos) == Ran(v, n) {
      ClassifyAgree(active, tm, cut, tr, pos);
    }
    if Classify(active, tm, tr, pos) == Ran(v, n) && n <= m {
      ClassifyAgree(active, tm, tr, cut, pos);
    }
  }

  /** A `check_button_tact` call depends only on the samples it consumes. */
  lemma ClassifyAgree(active: Level, tm: Timing, tr: Trace, other: Trace, pos: nat)
    requires Classify(active, tm, tr, pos).Ran?
    requires Agree(tr, other, Classify(active, tm, tr, pos).next)
    ensures Classify(active, tm, other, pos) == Classify(active, tm, tr, pos)
  {
    DebounceAgree(active, tm, tr, other, pos);
    var b := Debounce(active, tm, tr, pos);
    if b.value {
      PressAgree(active, tm, tr, other, 1, b.next);
    }
  }

  /** While the button is held, a timed press, its starting clock read included, can only end long. */
  lemma TimedHoldHeld(active: Level, tm: Timing, tr: Trace, pos: nat)
    requires HeldFrom(active, tr, pos)
    ensures TimedHold(active, tm, tr, pos).Ran? ==> TimedHold(active, tm, tr, pos).value == HeldLong
  {
    if pos < |tr| {
      HoldLoopHeld(active, tm, tr, pos + 1, tr[pos].time + tm.longPress);
    }
  }

  /** A button held down from the call to the end of the trace is classified
      SINGLE_PRESS_LONG, never short or not pressed (unless the trace ends first). */
  lemma HeldToEndIsLong(active: Level, tm: Timing, tr: Trace, pos: nat)
    requires HeldFrom(active, tr, pos)
    ensures Classify(active, tm, tr, pos).Ran? ==> Classify(active, tm, tr, pos).value == Long(1)
  {
    HeldNeverReleased(active, tm, tr, pos);
    var b := Debounce(active, tm, tr, pos);
    if b.Ran? {
      TimedHoldHeld(active, tm, tr, b.next);
    }
  }

  /** A button held down through every read of a `check_button_tact` call is classified
      SINGLE_PRESS_LONG, never short or not pressed, whatever the pin does after the call. */
  lemma ContinuousHoldIsLong(active: Level, tm: Timing, tr: Trace, pos: nat)
    requires Classify(active, tm, tr, pos).Ran?
    requires HeldUntil(active, tr, pos, Classify(active, tm, tr, pos).next)
    ensures Classify(active, tm, tr, pos).value == Long(1)
  {
    var cut := tr[..Classify(active, tm, tr, pos).next];
    ClassifyAgree(active, tm, tr, cut, pos);
    HeldToEndIsLong(active, tm, cut, pos);
  }

  /** One timed press as the source writes it (lines 112-117, 124-129, 136-141):
      `presstime = millis() + KEYLONGDELAY`, then poll `button_pressed()` until it answers
      false or a clock read reaches the deadline. */
  method TimePress(active: Level, tm: Timing, tr: Trace, pos: nat) returns (h: Run<Hold>)
    ensures h == TimedHold(active, tm, tr, pos)
  {
    if pos >= |tr| {
      return Starved;
    }
    var presstime := tr[pos].time + tm.longPress;     // millis() + KEYLONGDELAY
    var at := pos + 1;
    while true
      invariant pos < at <= |tr|
      invariant HoldLoop(active, tm, tr, at, presstime) == TimedHold(active, tm, tr, pos)
      decreases |tr| - at
    {
      var b := ButtonPressed(active, tm, tr, at);
      if b.Starved? {
        return Starved;
      }
      at := b.next;
      if !b.value {
        return Ran(Released, at);
      }
      if at >= |tr| {
        return Starved;
      }
      var now := tr[at].time;                         // millis()
      at := at + 1;
      if now >= presstime {
        return Ran(HeldLong, at);
      }
    }
  }

  /** One multi-press window as the source writes it (lines 121-123, 133-135):
      `presstime = millis() + ALLOWED_MULTIPRESS_DELAY`, then, while a clock read is
      before the deadline, poll `button_pressed()` for a further press. */
  method AwaitPress(active: Level, tm: Timing, tr: Trace, pos: nat) returns (g: Run<Gap>)
    ensures g == TimedGap(active, tm, tr, pos)
  {
    if pos >= |tr| {
      return Starved;
    }
    var presstime := tr[pos].time + tm.multiPress;    // millis() + ALLOWED_MULTIPRESS_DELAY
    var at := pos + 1;
    while true
      invariant pos < at <= |tr|
      invariant GapLoop(active, tm, tr, at, presstime) == TimedGap(active, tm, tr, pos)
      decreases |tr| - at
    {
      if at >= |tr| {
        return Starved;
      }
      var now := tr[at].time;                         // millis()
      at := at + 1;
      if now >= presstime {
        return Ran(Expired, at);
      }
      var b := ButtonPressed(active, tm, tr, at);
      if b.Starved? {
        return Starved;
      }
      at := b.next;
      if b.value {
        return Ran(Repressed, at);
      }
    }
  }

  /** `check_button_tact`: the source's decision tree, with each timed press and each
      multi-press window run by the methods above in the source's order. */
  method CheckButtonTact(active: Level, tm: Timing, tr: Trace, pos: nat) returns (r: Run<Gesture>)
    ensures r == Classify(active, tm, tr, pos)
  {
    var b := ButtonPressed(active, tm, tr, pos);
    if b.Starved? {
      return Starved;
    }
    if !b.value {
      return Ran(NotPressed, b.next);
    }
    // First press.
    var h := TimePress(active, tm, tr, b.next);
    if h.Starved? {
      return Starved;
    }
    if h.value == HeldLong {
      return Ran(Long(1), h.next);
    }
    var g := AwaitPress(active, tm, tr, h.next);
    if g.Starved? {
      return Starved;
    }
    if g.value == Expired {
      return Ran(Short(1), g.next);
    }
    // Second press.
    h := TimePress(active, tm, tr, g.next);
    if h.Starved? {
      return Starved;
    }
    if h.value == HeldLong {
      return Ran(Long(2), h.next);
    }
    g := AwaitPress(active, tm, tr, h.next);
    if g.Starved? {
      return Starved;
    }
    if g.value == Expired {
      return Ran(Short(2), g.next);
    }
    // Third press; there is no window after it.
    h := TimePress(active, tm, tr, g.next);
    if h.Starved? {
      return Starved;
    }
    if h.value == HeldLong {
      return Ran(Long(3), h.next);
    }
    return Ran(Short(3), h.next);
  }
}
