/** The debounced level reader (`button_pressed`). One clock read fixes the deadline
    entry time + KEYDBDELAY; then each round reads the pin and, while it is still at the
    active level, the clock. The first inactive read answers false; a clock read at or past
    the deadline answers true. */
module LevelReader {
  import opened Gestures
  import opened Environment

  /** Reference definition of `button_pressed` started at trace position `pos`. */
  function Debounce(active: Level, tm: Timing, tr: Trace, pos: nat): (r: Run<bool>)
    ensures r.Ran? ==> pos < r.next <= |tr|
    ensures r.Ran? ==> (r.next - pos) % 2 == (if r.value then 1 else 0)
  {
    if pos >= |tr| then Starved
    else Sampling(active, tr, pos + 1, tr[pos].time + tm.debounce)
  }

  /** The sampling loop of `button_pressed`, from the round whose pin read is at `pos`. */
  function Sampling(active: Level, tr: Trace, pos: nat, deadline: nat): (r: Run<bool>)
    ensures r.Ran? ==> pos < r.next <= |tr|
    ensures r.Ran? ==> (r.next - pos) % 2 == (if r.value then 0 else 1)
    decreases |tr| - pos
  {
    if pos >= |tr| then Starved
    else if tr[pos].level != active then Ran(false, pos + 1)
    else if pos + 1 >= |tr| then Starved
    else if tr[pos + 1].time >= deadline then Ran(true, pos + 2)
    else Sampling(active, tr, pos + 2, deadline)
  }

  /** The pin read of round `i` of a sampling loop whose first round starts at `start`. */
  function PinRead(tr: Trace, start: nat, i: nat): Level
    requires start + 2 * i < |tr|
  {
    tr[start + 2 * i].level
  }

  /** The clock read of round `i` of a sampling loop whose first round starts at `start`. */
  function ClockRead(tr: Trace, start: nat, i: nat): nat
    requires start + 2 * i + 1 < |tr|
  {
    tr[start + 2 * i + 1].time
  }

  /** In each of the first `k` rounds the pin was active and the clock was before the deadline. */
  ghost predicate StillActive(active: Level, tr: Trace, start: nat, deadline: nat, k: nat)
    requires start + 2 * k <= |tr|
  {
    forall i :: 0 <= i < k ==> PinRead(tr, start, i) == active && ClockRead(tr, start, i) < deadline
  }

  /** Round `k` is the first one whose pin read is not active. */
  ghost predicate ReleasedAt(active: Level, tr: Trace, start: nat, deadline: nat, k: nat)
  {
    && start + 2 * k < |tr|
    && StillActive(active, tr, start, deadline, k)
    && PinRead(tr, start, k) != active
  }

  /** Round `k` is the first one whose clock read reached the deadline, every pin read so far active. */
  ghost predicate ConfirmedAt(active: Level, tr: Trace, start: nat, deadline: nat, k: nat)
  {
    && start + 2 * k + 1 < |tr|
    && StillActive(active, tr, start, deadline, k)
    && PinRead(tr, start, k) == active
    && ClockRead(tr, start, k) >= deadline
  }

  lemma StillActiveStep(active: Level, tr: Trace, start: nat, deadline: nat, k: nat)
    requires start + 2 * (k + 1) <= |tr|
    ensures StillActive(active, tr, start, deadline, k + 1) <==>
              && PinRead(tr, start, 0) == active
              && ClockRead(tr, start, 0) < deadline
              && StillActive(active, tr, start + 2, deadline, k)
  {
    var next := start + 2;
    if StillActive(active, tr, start, deadline, k + 1) {
      forall i | 0 <= i < k
        ensures PinRead(tr, next, i) == active && ClockRead(tr, next, i) < deadline
      {
        assert PinRead(tr, start, i + 1) == active && ClockRead(tr, start, i + 1) < deadline;
      }
    }
    if StillActive(active, tr, start + 2, deadline, k) && PinRead(tr, start, 0) == active
       && ClockRead(tr, start, 0) < deadline
    {
      forall i | 0 <= i < k + 1
        ensures PinRead(tr, start, i) == active && ClockRead(tr, start, i) < deadline
      {
        if i > 0 {
          assert PinRead(tr, start + 2, i - 1) == active;
        }
      }
    }
  }

  /** The sampling loop answers false after round `k` exactly when round `k` is the first
      inactive pin read and no earlier clock read reached the deadline. */
  lemma {:induction false} SamplingReleased(active: Level, tr: Trace, start: nat, deadline: nat, k: nat)
    ensures Sampling(active, tr, start, deadline) == Ran(false, start + 2 * k + 1)
            <==> ReleasedAt(active, tr, start, deadline, k)
    decreases k
  {
    if k > 0 && start + 2 * k < |tr| {
      SamplingReleased(active, tr, start + 2, deadline, k - 1);
      StillActiveStep(active, tr, start, deadline, k - 1);
      assert start + 2 + 2 * (k - 1) + 1 == start + 2 * k + 1;
      assert PinRead(tr, start + 2, k - 1) == PinRead(tr, start, k);
    }
  }

  /** The sampling loop answers true after round `k` exactly when round `k` is the first
      clock read at or past the deadline and every pin read up to it was active. */
  lemma {:induction false} SamplingConfirmed(active: Level, tr: Trace, start: nat, deadline: nat, k: nat)
    ensures Sampling(active, tr, start, deadline) == Ran(true, start + 2 * k + 2)
            <==> ConfirmedAt(active, tr, start, deadline, k)
    decreases k
  {
    if k > 0 && start + 2 * k + 1 < |tr| {
      SamplingConfirmed(active, tr, start + 2, deadline, k - 1);
      StillActiveStep(active, tr, start, deadline, k - 1);
      assert start + 2 + 2 * (k - 1) + 2 == start + 2 * k + 2;
      assert PinRead(tr, start + 2, k - 1) == PinRead(tr, start, k);
      assert ClockRead(tr, start + 2, k - 1) == ClockRead(tr, start, k);
    }
  }

  /** `button_pressed` returns false, with `p` the next unread sample, exactly when some pin
      read is inactive (the very first one included) before any clock read reaches entry
      time + KEYDBDELAY. */
  lemma DebounceFalseIff(active: Level, tm: Timing, tr: Trace, pos: nat, p: nat)
    requires pos < |tr|
    ensures Debounce(active, tm, tr, pos) == Ran(false, p)
            <==> exists k: nat :: p == pos + 2 * k + 2
                   && ReleasedAt(active, tr, pos + 1, tr[pos].time + tm.debounce, k)
  {
    var d := tr[pos].time + tm.debounce;
    if Debounce(active, tm, tr, pos) == Ran(false, p) {
      var k: nat := (p - pos - 2) / 2;
      assert pos + 1 + 2 * k + 1 == p;
      SamplingReleased(active, tr, pos + 1, d, k);
    }
    if exists k: nat :: p == pos + 2 * k + 2 && ReleasedAt(active, tr, pos + 1, d, k) {
      var k: nat :| p == pos + 2 * k + 2 && ReleasedAt(active, tr, pos + 1, d, k);
      SamplingReleased(active, tr, pos + 1, d, k);
    }
  }

  /** `button_pressed` returns true, with `p` the next unread sample, exactly when every pin
      read since entry was active and the last read, a clock read, reached entry time +
      KEYDBDELAY while all earlier clock reads were short of it. */
  lemma DebounceTrueIff(active: Level, tm: Timing, tr: Trace, pos: nat, p: nat)
    requires pos < |tr|
    ensures Debounce(active, tm, tr, pos) == Ran(true, p)
            <==> exists k: nat :: p == pos + 2 * k + 3
                   && ConfirmedAt(active, tr, pos + 1, tr[pos].time + tm.debounce, k)
  {
    var d := tr[pos].time + tm.debounce;
    if Debounce(active, tm, tr, pos) == Ran(true, p) {
      var k: nat := (p - pos - 3) / 2;
      assert pos + 1 + 2 * k + 2 == p;
      SamplingConfirmed(active, tr, pos + 1, d, k);
    }
    if exists k: nat :: p == pos + 2 * k + 3 && ConfirmedAt(active, tr, pos + 1, d, k) {
      var k: nat :| p == pos + 2 * k + 3 && ConfirmedAt(active, tr, pos + 1, d, k);
      SamplingConfirmed(active, tr, pos + 1, d, k);
    }
  }

  /** While the button is held, `button_pressed` never answers false. */
  lemma {:induction false} HeldNeverReleased(active: Level, tm: Timing, tr: Trace, pos: nat)
    requires HeldFrom(active, tr, pos)
    ensures Debounce(active, tm, tr, pos).Ran? ==> Debounce(active, tm, tr, pos).value
  {
    if pos < |tr| {
      SamplingHeld(active, tr, pos + 1, tr[pos].time + tm.debounce);
    }
  }

  lemma {:induction false} SamplingHeld(active: Level, tr: Trace, pos: nat, deadline: nat)
    requires HeldFrom(active, tr, pos)
    ensures Sampling(active, tr, pos, deadline).Ran? ==> Sampling(active, tr, pos, deadline).value
    decreases |tr| - pos
  {
    if pos + 1 < |tr| && tr[pos + 1].time < deadline {
      SamplingHeld(active, tr, pos + 2, deadline);
    }
  }

  /** The sampling loop depends only on the samples it consumes. */
  lemma {:induction false} SamplingAgree(active: Level, tr: Trace, other: Trace, pos: nat, deadline: nat)
    requires Sampling(active, tr, pos, deadline).Ran?
    requires Agree(tr, other, Sampling(active, tr, pos, deadline).next)
    ensures Sampling(active, other, pos, deadline) == Sampling(active, tr, pos, deadline)
    decreases |tr| - pos
  {
    if tr[pos].level == active && tr[pos + 1].time < deadline {
      SamplingAgree(active, tr, other, pos + 2, deadline);
    }
  }

  /** A `button_pressed()` call depends only on the samples it consumes. */
  lemma DebounceAgree(active: Level, tm: Timing, tr: Trace, other: Trace, pos: nat)
    requires Debounce(active, tm, tr, pos).Ran?
    requires Agree(tr, other, Debounce(active, tm, tr, pos).next)
    ensures Debounce(active, tm, other, pos) == Debounce(active, tm, tr, pos)
  {
    SamplingAgree(active, tr, other, pos + 1, tr[pos].time + tm.debounce);
  }

  /** `button_pressed` as the source writes it: one clock read, then a loop that reads the
      pin and, while it is active, the clock. */
  method ButtonPressed(active: Level, tm: Timing, tr: Trace, pos: nat) returns (r: Run<bool>)
    ensures r == Debounce(active, tm, tr, pos)
  {
    if pos >= |tr| {
      return Starved;
    }
    var presstime := tr[pos].time + tm.debounce;    // millis() + KEYDBDELAY
    var at := pos + 1;
    while true
      invariant pos < at <= |tr|
      invariant Sampling(active, tr, at, presstime) == Debounce(active, tm, tr, pos)
      decreases |tr| - at
    {
      if at >= |tr| {
        return Starved;
      }
      var level := tr[at].level;                    // digitalRead(pin)
      at := at + 1;
      if level != active {
        return Ran(false, at);
      }
      if at >= |tr| {
        return Starved;
      }
      var now := tr[at].time;                       // millis()
      at := at + 1;
      if now >= presstime {
        return Ran(true, at);
      }
    }
  }
}
