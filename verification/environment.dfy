/** The button's outside world, abstracted: a finite trace of samples consumed one per
    clock read (`millis()`) or pin read (`digitalRead()`), and the three tunable delays. */
module Environment {
  import opened Gestures

  /** One observation of the world: a clock read uses `time`, a pin read uses `level`. */
  datatype Sample = Sample(time: nat, level: Level)

  type Trace = seq<Sample>

  /** KEYDBDELAY, KEYLONGDELAY and ALLOWED_MULTIPRESS_DELAY, in milliseconds. Their values
      live in a header that is not part of this model, so every result holds for all of them. */
  datatype Timing = Timing(debounce: nat, longPress: nat, multiPress: nat)

  /** The outcome of a blocking call that starts at some trace position: it returned `value`
      and the next unread sample is `next`, or the trace ended while it was still waiting. */
  datatype Run<T> = Starved | Ran(value: T, next: nat)

  /** Every pin read from `pos` on sees the level `active`: the button is held down. */
  ghost predicate HeldFrom(active: Level, tr: Trace, pos: nat)
  {
    forall i :: pos <= i < |tr| ==> tr[i].level == active
  }

  /** Every pin read from `pos` up to, not including, `end` sees the level `active`. */
  ghost predicate HeldUntil(active: Level, tr: Trace, pos: nat, end: nat)
  {
    forall i :: pos <= i < end && i < |tr| ==> tr[i].level == active
  }

  /** Two traces that both have at least `n` samples and agree on the first `n` of them. */
  ghost predicate Agree(tr: Trace, other: Trace, n: nat)
  {
    && n <= |tr|
    && n <= |other|
    && forall i :: 0 <= i < n ==> tr[i] == other[i]
  }
}
