# OneTact in Dafny

A verified model of the OneTact single-button gesture recogniser (`src/OneTact.cpp`). The
library debounces one digital push button. It sorts each interaction into a single, double
or triple press, each either short or long, and runs the user callback registered for that
gesture. The model covers the library's four parts:

- **Callback table** (`callbacks.dfy`, module `Callbacks`). This has six nullable handler
  slots, `set_callback` and `callback`.
- **Debounced level reader** (`debounce.dfy`, module `LevelReader`). This is
  `button_pressed`: `Debounce` is the reference definition and `ButtonPressed` is the
  source's loop.
- **Gesture classifier** (`classifier.dfy`, module `Classifier`). This is
  `check_button_tact`:
  - `Classify` is the reference definition. It is built from the hold loop
    (`HoldLoop`/`TimedHold`), the multi-press window (`GapLoop`/`TimedGap`) and the chaining
    of presses (`Press`/`AfterHold`/`AfterGap`).
  - `CheckButtonTact`, `TimePress` and `AwaitPress` are the source's loops, proved equal to
    the reference.
- **Edge/repeat filter** (`onetact.dfy`, module `OneTact`). This covers the button record,
  the three constructors, and `check_button` (`Filter` followed by dispatch, in
  `CheckButton`).

`gestures.dfy` defines the gesture codes as `None | NotPressed | Short(n) | Long(n)` with
`n` in 1..3. `Long?` plays the part of the `LONG_PRESS` bit and `presses` the part of the
`BUTTON_MASK` field. `environment.dfy` defines the outside world. `scenarios.dfy` plays
concrete taps and holds against the classifier.

**Clock and pin.** Each `millis()` call and each `digitalRead()` call consumes one sample of
a finite trace. A clock read uses the sample's `time`; a pin read uses its `level`. Every
blocking operation returns `Ran(value, next)`, where `next` is the first unread sample. It
returns `Starved` when the trace ends while the source would still be busy-waiting. No
property depends on the clock being monotone; they hold for every trace.

**Delays.** `KEYDBDELAY`, `KEYLONGDELAY` and `ALLOWED_MULTIPRESS_DELAY` are a `Timing`
parameter. Their values are in `OneTact.h`, which is not part of this model, so every result
is proved for all values. The only exceptions are the double- and triple-tap scenarios, which
need a non-zero ALLOWED_MULTIPRESS_DELAY: with a zero window the test `millis() < presstime`
at line 122 fails at once and the answer is SINGLE_PRESS_SHORT.

**Deadlines.** `button_pressed` tests `millis() >= presstime` (src/OneTact.cpp:91), so a
press is confirmed once the elapsed time reaches `KEYDBDELAY`; the long-press test (line 114)
is `>=` as well, and a multi-press window ends at the first clock read with
`millis() < presstime` false (lines 122 and 134). The model uses exactly these comparisons.
None of them is safe across clock wrap-around (see Left out).

## Model

| member | source | states |
|---|---|---|
| `Callbacks.SetCallback` | src/OneTact.cpp:46-56 | succeeds exactly for the six codes SHORT1..LONG3; on success that slot holds the new handler and every other slot is unchanged; on failure the table is untouched |
| `Callbacks.Callback` | src/OneTact.cpp:58-68 | returns the handler in the code's slot; if it is non-null, invokes it exactly once with (pin, code); for a code without a slot or an empty slot, returns null and invokes nothing |
| `Callbacks.RegisteredHandlerRuns` | src/OneTact.cpp:46-68 | after registering a handler for a code, dispatching that code runs exactly that handler once with (pin, code); dispatch of every other code is unchanged |
| `Callbacks.RejectedRegistrationInert` | src/OneTact.cpp:46-48 | a registration for NONE or NOT_PRESSED returns false and changes the dispatch of no code |
| `Callbacks.EmptyTableInvokesNothing` | src/OneTact.cpp:60-66 | with every slot null, dispatching any code returns null and runs nothing |
| `OneTact.NewButton` | src/OneTact.cpp:19-26 | `OneTact(pin)` starts in state NONE, active HIGH, plain INPUT mode, with no handlers |
| `OneTact.NewButtonWithLevel` | src/OneTact.cpp:28-35 | `OneTact(pin, active)` starts in state NONE with the given active level and plain INPUT mode |
| `OneTact.NewButtonWithMode` | src/OneTact.cpp:37-44 | `OneTact(pin, active, input_mode)` starts in state NONE with the given level and mode |
| `OneTact.Register` | src/OneTact.cpp:46-56 | `set_callback` on a button changes only the table, and only the slot of an accepted code |
| `OneTact.Filter` | src/OneTact.cpp:166-185 | the return value always equals the stored state, and any dispatched code is that value; long after long keeps the previous long code (press count included) and dispatches it; non-long after long forces NOT_PRESSED with no dispatch; otherwise the state becomes the classifier's code, dispatched iff it is not NONE |
| `OneTact.CheckButton` | src/OneTact.cpp:164-186 | a poll consumes exactly the reads of one classification; it never changes configuration or table; it returns the new state, never NONE; it runs exactly the handlers that dispatching the returned code runs; the result follows the long-after-long, release-after-long and normal rules |
| `OneTact.LongPressRepeats` | src/OneTact.cpp:166-171 | from a long state, any number of polls whose classifier answers are long all return that same stored long gesture |
| `OneTact.FirstLongLatches` | src/OneTact.cpp:166-185 | from a non-long state, the first long gesture reported is reported again by every following poll while the answers stay long |
| `OneTact.ReleaseAfterLong` | src/OneTact.cpp:173-176 | after a long state, a non-long classifier answer yields NOT_PRESSED, stores it, and runs no handler |
| `OneTact.HeldLongRepeats` | src/OneTact.cpp:164-171 | with a long state, a poll during all of whose reads the button is held returns the stored long gesture, leaves the button unchanged and re-runs its handler, whatever the pin does after the poll |
| `OneTact.IdlePoll` | src/OneTact.cpp:105-108 | when the first pin read of a poll is inactive, the poll returns NOT_PRESSED after exactly two reads, runs no handler, and keeps the table, whatever the previous state |
| `OneTact.RegisteredHandlerDispatched` | src/OneTact.cpp:179-183 | a handler registered for a code runs exactly once, with the button's pin and that code, on any poll that reports the code |
| `LevelReader.Debounce` | src/OneTact.cpp:88-97 | a completed `button_pressed` consumes at least one sample and stays inside the trace; it answers false after an even and true after an odd number of reads |
| `LevelReader.Sampling` | src/OneTact.cpp:90-96 | the sampling loop consumes whole rounds: an odd number of reads when it ends on an inactive pin read, an even number when it ends on the confirming clock read |
| `LevelReader.SamplingReleased` | src/OneTact.cpp:90-96 | the loop answers false after round k iff round k's pin read is the first inactive one and no earlier clock read reached the deadline |
| `LevelReader.SamplingConfirmed` | src/OneTact.cpp:90-94 | the loop answers true after round k iff every pin read up to round k was active and round k's clock read is the first to reach the deadline |
| `LevelReader.DebounceFalseIff` | src/OneTact.cpp:88-97 | `button_pressed` returns false iff some pin read, the very first included, is inactive before any clock read reaches entry time + KEYDBDELAY |
| `LevelReader.DebounceTrueIff` | src/OneTact.cpp:88-97 | `button_pressed` returns true iff every pin read since entry was active and a clock read reached entry time + KEYDBDELAY |
| `LevelReader.HeldNeverReleased` | src/OneTact.cpp:90-96 | while the pin stays active, `button_pressed` never answers false |
| `LevelReader.SamplingAgree` | src/OneTact.cpp:90-96 | the sampling loop's outcome depends only on the samples it consumes |
| `LevelReader.DebounceAgree` | src/OneTact.cpp:88-97 | a `button_pressed()` call depends only on the samples it consumes |
| `LevelReader.ButtonPressed` | src/OneTact.cpp:88-97 | the source's loop consumes the same reads and returns the same answer as the reference definition |
| `Classifier.HoldLoop` | src/OneTact.cpp:113-117 | the hold loop consumes at least one sample and stays inside the trace |
| `Classifier.TimedHold` | src/OneTact.cpp:112-117 | `presstime = millis() + KEYLONGDELAY` and the hold loop consume at least one sample and stay inside the trace |
| `Classifier.GapLoop` | src/OneTact.cpp:122-149 | the multi-press window loop consumes at least one sample and stays inside the trace |
| `Classifier.TimedGap` | src/OneTact.cpp:121-123 | `presstime = millis() + ALLOWED_MULTIPRESS_DELAY` and the window loop consume at least one sample and stay inside the trace |
| `Classifier.Press` | src/OneTact.cpp:112-151 | once the n-th press is debounced, the classification ends in a short or long code counting at least n presses |
| `Classifier.AfterHold` | src/OneTact.cpp:115-143 | once the n-th press is timed, the classification ends no earlier than the timing did, in a short or long code counting at least n presses |
| `Classifier.AfterGap` | src/OneTact.cpp:121-151 | once the window after the n-th press has ended, the classification ends no earlier than the window did, in a short or long code counting at least n presses |
| `Classifier.Classify` | src/OneTact.cpp:105-152 | `check_button_tact` never returns NONE; it returns NOT_PRESSED iff its first `button_pressed()` answers false, and then right after that call |
| `Classifier.HoldLoopLong` | src/OneTact.cpp:113-116 | a hold ends long only at a clock read at or past its deadline, made right after a `button_pressed()` call that answered true |
| `Classifier.ChainUnique` | src/OneTact.cpp:112-141 | the chain of presses names exactly one read that starts timing the m-th press |
| `Classifier.ChainStep` | src/OneTact.cpp:119-125 | a released press whose window saw a further press extends the chain by one press |
| `Classifier.HeldLongEvidence` | src/OneTact.cpp:112-116 | a timed press that ends long ends on a clock read at least KEYLONGDELAY after the read that started its timing, directly after a true `button_pressed()` |
| `Classifier.PressLong` | src/OneTact.cpp:112-141 | a long code counting m presses comes from the timed press that the chain of released-and-repressed presses reaches as the m-th; that press ended long exactly where the call ends, on a clock read at least KEYLONGDELAY after the read that started its timing, directly after a true `button_pressed()` |
| `Classifier.ClassifyLong` | src/OneTact.cpp:105-152 | `check_button_tact` returns a long code counting m presses only at a clock read at least KEYLONGDELAY after the read that started timing the m-th press (reached from the first press through the chain), directly after a true `button_pressed()` |
| `Classifier.GapLoopExpired` | src/OneTact.cpp:122-123 | a multi-press window ends without a press only at a clock read at or past its deadline |
| `Classifier.ExpiredEvidence` | src/OneTact.cpp:119-123 | a released press followed by a window that expires ends on a clock read at least ALLOWED_MULTIPRESS_DELAY after the read right after the release |
| `Classifier.PressShortWaits` | src/OneTact.cpp:121-151 | a short single or double code counting m presses comes from the m-th press of the chain, which ended released; the window opened by the clock read right after that release saw no further debounced press and ended exactly where the call ends, on a clock read at least ALLOWED_MULTIPRESS_DELAY after the read that opened it |
| `Classifier.ClassifyShortWaits` | src/OneTact.cpp:119-151 | `check_button_tact` returns SINGLE_PRESS_SHORT or DOUBLE_PRESS_SHORT only when the window opened right after the release of the last press (the m-th of the chain from the first press) ends with no further press, exactly where the call ends, on a clock read at least ALLOWED_MULTIPRESS_DELAY after the read that opened it |
| `Classifier.HoldLoopHeld` | src/OneTact.cpp:113-117 | while the pin stays active, a timed press can only end long |
| `Classifier.HoldLoopAgree` | src/OneTact.cpp:113-117 | the hold loop's outcome depends only on the samples it consumes |
| `Classifier.TimedHoldAgree` | src/OneTact.cpp:112-117 | a timed press depends only on the samples it consumes |
| `Classifier.TimedGapAgree` | src/OneTact.cpp:121-123 | a multi-press window depends only on the samples it consumes |
| `Classifier.GapLoopAgree` | src/OneTact.cpp:121-123 | the multi-press window's outcome depends only on the samples it consumes |
| `Classifier.PressAgree` | src/OneTact.cpp:112-151 | the classification after a debounced press depends only on the samples it consumes |
| `Classifier.ClassifyAgree` | src/OneTact.cpp:105-152 | a `check_button_tact` call depends only on the samples it consumes |
| `Classifier.ClassifyPrefix` | src/OneTact.cpp:105-152 | cutting the trace at or after the sample where a call ends leaves its answer unchanged; cutting it earlier leaves the call still waiting (both directions) |
| `Classifier.TimedHoldHeld` | src/OneTact.cpp:112-117 | while the pin stays active, a timed press, started by its clock read, can only end long |
| `Classifier.HeldToEndIsLong` | src/OneTact.cpp:105-117 | a button held from the call to the end of the trace is classified SINGLE_PRESS_LONG if the call completes |
| `Classifier.ContinuousHoldIsLong` | src/OneTact.cpp:105-117 | a button held during every read of the call is classified SINGLE_PRESS_LONG, never short and never NOT_PRESSED, whatever the pin does after the call (a press held past KEYLONGDELAY and then released included) |
| `Classifier.TimePress` | src/OneTact.cpp:112-117 | the source's timed-press loop, proved equal to the reference hold |
| `Classifier.AwaitPress` | src/OneTact.cpp:121-123 | the source's multi-press window loop, proved equal to the reference window |
| `Classifier.CheckButtonTact` | src/OneTact.cpp:105-152 | the source's decision tree consumes the same reads and returns the same code as the reference classification |
| `Scenarios.BounceIgnored` | src/OneTact.cpp:88-108 | a pin that is up again at its first read gives NOT_PRESSED, whatever KEYDBDELAY is |
| `Scenarios.SingleTap` | src/OneTact.cpp:119-151 | one tap followed by a quiet window gives SINGLE_PRESS_SHORT at the clock read that closes the window |
| `Scenarios.DoubleTap` | src/OneTact.cpp:121-147 | two taps, the second inside the window, give DOUBLE_PRESS_SHORT |
| `Scenarios.TripleTap` | src/OneTact.cpp:133-143 | three chained taps give TRIPLE_PRESS_SHORT as soon as the third is released, with no further window |
| `Scenarios.LongPress` | src/OneTact.cpp:112-116 | a press still held when a clock read reaches KEYLONGDELAY gives SINGLE_PRESS_LONG |
| `Scenarios.LongPressThenRelease` | src/OneTact.cpp:112-116 | a press held past KEYLONGDELAY and released afterwards gives SINGLE_PRESS_LONG at the read that reached the deadline |

## Left out

- `set_button_input` / `pinMode` (src/OneTact.cpp:75-77) is left out. It only configures the
  hardware and has no behaviour to state. The constructors record the mode but do not model
  the call.
- The real-time behaviour of `millis()` and `digitalRead()` is left out. The busy-wait
  loops consume an abstract finite trace, and time spent spinning is not modelled. When
  the trace runs out the result is `Starved`; the device would keep waiting.
- 32-bit wrap-around of `millis()` is left out. Time is an unbounded `nat`. The source
  computes `presstime = millis() + DELAY` in `uint32_t` and then tests
  `millis() >= presstime` or `millis() < presstime`. That test is not safe across wrap:
  near the top of the counter the deadline wraps to a small value and the test fires at
  once.
- Numeric gesture codes, masks and delays are left out because `OneTact.h` is not part of
  this model. The codes are a datatype and the delays are a universally quantified
  parameter. A raw `uint8_t` code outside the eight named ones cannot be passed to
  `SetCallback`; the source would reject it exactly as it rejects NONE and NOT_PRESSED.
- An `active` or `input_mode` argument other than HIGH/LOW or INPUT/INPUT_PULLUP is left
  out. `Level` and `InputMode` have two values each. With any other `active` value, every
  pin read in the source would count as inactive.
- The initial contents of the callback slots are assumed null (`EmptyTable`), since the
  header that declares them is not part of this model.
- Handler bodies are left out. Handlers are opaque identities, and a dispatch records each
  invocation as (handler, pin, code). A handler that re-enters the button or touches the
  clock or pin is not modelled.
- `check_button` mutates the object in the source. Here `CheckButton` is a pure function
  that returns the updated button.
- `Classifier.TimePress`, `Classifier.AwaitPress` and `Classifier.CheckButtonTact` split
  the source's nested loops into one method per loop kind. `CheckButtonTact` calls them in
  the source's order and makes the same reads in the same sequence. The micro-release
  behaviour inside the long-press loop is kept as written: one false `button_pressed()`
  ends the hold as a release.
- LevelReader.Debounce: its own contract states only progress and read parity. Its full
  meaning, in both directions, is stated by `LevelReader.DebounceFalseIff` and
  `LevelReader.DebounceTrueIff`.
- LevelReader.Sampling: its own contract states only progress and read parity. Its meaning
  round by round is stated by `LevelReader.SamplingReleased` and
  `LevelReader.SamplingConfirmed`.
- Classifier.HoldLoop: its own contract states only progress. When it ends long or
  released is stated by `Classifier.HoldLoopLong` and `Classifier.HoldLoopHeld`.
- Classifier.TimedHold: its own contract states only progress. How a timed press ends is
  stated by `Classifier.HoldLoopLong` and `Classifier.HoldLoopHeld`, and by the evidence in
  `Classifier.PressLong` and `Classifier.PressShortWaits`.
- Classifier.GapLoop: its own contract states only progress. When the window expires is
  stated by `Classifier.GapLoopExpired`.
- Classifier.TimedGap: its own contract states only progress. When a window expires is
  stated by `Classifier.GapLoopExpired` and `Classifier.PressShortWaits`.
- Classifier.Press: its own contract states only the kind and the minimum press count of
  the result. Its timing is stated by `Classifier.PressLong` and
  `Classifier.PressShortWaits`.
- Classifier.AfterHold: its own contract states only progress, the kind and the minimum
  press count. Its branches (long, triple short, one more window) are characterised by
  `Classifier.PressLong` and `Classifier.PressShortWaits`.
- Classifier.AfterGap: its own contract states only progress, the kind and the minimum press
  count. Its branches (short on expiry, next press otherwise) are characterised by
  `Classifier.PressShortWaits` and `Classifier.PressLong`.
