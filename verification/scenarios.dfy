/** Concrete gestures played against the classifier, for every choice of the active level and
    of the three delays (the double and triple taps need a non-zero ALLOWED_MULTIPRESS_DELAY):
    a bounce, a single, double and triple tap, and a long press. */
module Scenarios {
  import opened Gestures
  import opened Environment
  import opened LevelReader
  import opened Classifier

  /** The reads of one `button_pressed()` call that answers true: the entry clock read at
      `t`, an active pin read, and a clock read exactly KEYDBDELAY later. */
  function Debounced(active: Level, tm: Timing, t: nat): (tr: Trace)
    ensures |tr| == 3
  {
    [Sample(t, active), Sample(t, active), Sample(t + tm.debounce, active)]
  }

  /** A short tap starting at `t`: a debounced press, the clock read that starts its timing,
      then a `button_pressed()` call that sees the button up at once. */
  function Tap(active: Level, tm: Timing, t: nat): (tr: Trace)
    ensures |tr| == 6
  {
    var u := t + tm.debounce;
    Debounced(active, tm, t) + [Sample(u, active), Sample(u, Opposite(active)), Sample(u, Opposite(active))]
  }

  /** A pin that is up again at its first read is not a press, however short the bounce. */
  lemma BounceIgnored(active: Level, tm: Timing)
    ensures var tr := [Sample(0, active), Sample(0, Opposite(active))];
            Classify(active, tm, tr, 0) == Ran(NotPressed, 2)
  {
  }

  /** One tap and a quiet window of ALLOWED_MULTIPRESS_DELAY: SINGLE_PRESS_SHORT, reported
      at the clock read that closes the window. */
  lemma SingleTap(active: Level, tm: Timing)
    ensures var u := tm.debounce;
            var tr := Tap(active, tm, 0) + [Sample(u, active), Sample(u + tm.multiPress, active)];
            Classify(active, tm, tr, 0) == Ran(Short(1), 8)
  {
  }

  /** Two taps, the second inside the window: DOUBLE_PRESS_SHORT. */
  lemma DoubleTap(active: Level, tm: Timing)
    requires tm.multiPress > 0
    ensures var u := tm.debounce;
            var tr := Tap(active, tm, 0) + [Sample(u, active), Sample(u, active)]
                      + Tap(active, tm, u) + [Sample(2 * u, active), Sample(2 * u + tm.multiPress, active)];
            Classify(active, tm, tr, 0) == Ran(Short(2), 16)
  {
  }

  /** Three taps, each inside the window of the one before: TRIPLE_PRESS_SHORT, reported
      as soon as the third press is released, without waiting out another window. */
  lemma TripleTap(active: Level, tm: Timing)
    requires tm.multiPress > 0
    ensures var u := tm.debounce;
            var tr := Tap(active, tm, 0) + [Sample(u, active), Sample(u, active)]
                      + Tap(active, tm, u) + [Sample(2 * u, active), Sample(2 * u, active)]
                      + Tap(active, tm, 2 * u);
            Classify(active, tm, tr, 0) == Ran(Short(3), 22)
  {
  }

  /** A press still held when a clock read reaches KEYLONGDELAY: SINGLE_PRESS_LONG. */
  lemma LongPress(active: Level, tm: Timing)
    ensures var u := tm.debounce;
            var tr := Debounced(active, tm, 0) + [Sample(u, active)] + Debounced(active, tm, u)
                      + [Sample(2 * u + tm.longPress, active)];
            Classify(active, tm, tr, 0) == Ran(Long(1), 8)
  {
  }

  /** A press held past KEYLONGDELAY and released afterwards is still SINGLE_PRESS_LONG:
      the release falls after the read that reports it. */
  lemma LongPressThenRelease(active: Level, tm: Timing)
    ensures var u := tm.debounce;
            var tr := Debounced(active, tm, 0) + [Sample(u, active)] + Debounced(active, tm, u)
                      + [Sample(2 * u + tm.longPress, active), Sample(2 * u + tm.longPress, Opposite(active))];
            Classify(active, tm, tr, 0) == Ran(Long(1), 8)
  {
  }
}
