/** The button object: its fixed configuration, the last reported gesture, its callback
    table, and the polled entry point `check_button` (the edge/repeat filter). */
module OneTact {
  import opened Gestures
  import opened Environment
  import opened Callbacks
  import opened LevelReader
  import opened Classifier

  /** Fixed at construction: the pin, the level that means "pressed", and the pin mode. */
  datatype Config = Config(pin: int, active: Level, inputMode: InputMode)

  datatype Button = Button(config: Config, state: Gesture, table: Table)

  /** `OneTact(pin)`: active high, plain input. */
  function NewButton(pin: int): (b: Button)
    ensures b.state == None
    ensures b.config == Config(pin, High, Input)
    ensures b.table == EmptyTable
  {
    NewButtonWithMode(pin, High, Input)
  }

  /** `OneTact(pin, active)`: plain input. */
  function NewButtonWithLevel(pin: int, active: Level): (b: Button)
    ensures b.state == None
    ensures b.config == Config(pin, active, Input)
    ensures b.table == EmptyTable
  {
    NewButtonWithMode(pin, active, Input)
  }

  /** `OneTact(pin, active, input_mode)`. */
  function NewButtonWithMode(pin: int, active: Level, mode: InputMode): (b: Button)
    ensures b.state == None
    ensures b.config == Config(pin, active, mode)
    ensures b.table == EmptyTable
  {
    Button(Config(pin, active, mode), None, EmptyTable)
  }

  /** `set_callback` on a button: only the table changes, and only as the table operation says. */
  function Register(b: Button, code: Gesture, cb: Handler): (r: (bool, Button))
    ensures r.0 <==> Dispatchable(code)
    ensures r.1.config == b.config && r.1.state == b.state
    ensures r.0 ==> Slot(r.1.table, code) == cb
    ensures forall g :: g != code ==> Slot(r.1.table, g) == Slot(b.table, g)
    ensures !r.0 ==> r.1 == b
  {
    var (ok, t) := SetCallback(b.table, code, cb);
    (ok, b.(table := t))
  }

  /** The decision of one `check_button` call, written with the source's variables: the
      stored state after the call, the value returned, and the code passed to `callback`. */
  datatype Transition = Transition(state: Gesture, result: Gesture, dispatched: seq<Gesture>)

  /** The edge/repeat filter applied to the previous `state` and the classifier's `latest` code.
      The return value always equals the stored state, and whatever is dispatched is that code. */
  function Filter(prev: Gesture, latest: Gesture): (t: Transition)
    ensures t.result == t.state
    ensures t.dispatched == [] || t.dispatched == [t.state]
    ensures prev.Long? && latest.Long? ==> t.state == prev && t.dispatched == [prev]
    ensures prev.Long? && !latest.Long? ==> t.state == NotPressed && t.dispatched == []
    ensures !prev.Long? ==> t.state == latest && (t.dispatched != [] <==> latest != None)
  {
    if latest.Long? then
      if prev.Long? then
        var repeated := Long(prev.presses);
        Transition(prev, repeated, [repeated])
      else Adopt(latest)
    else if prev.Long? then Transition(NotPressed, NotPressed, [])
    else Adopt(latest)
  }

  /** `state = newstate; if (NONE != state) callback(state); return state;` */
  function Adopt(latest: Gesture): Transition
  {
    Transition(latest, latest, if latest != None then [latest] else [])
  }

  /** The effect of dispatching each code in turn. */
  function DispatchAll(t: Table, pin: int, codes: seq<Gesture>): (calls: seq<Call>)
    ensures |calls| <= |codes|
    ensures forall c :: c in calls ==> c.pin == pin && c.code in codes && Slot(t, c.code) == Fn(c.handler)
  {
    if codes == [] then [] else Callback(t, pin, codes[0]).calls + DispatchAll(t, pin, codes[1..])
  }

  /** What one poll produced: the button afterwards, the value returned, the handlers run. */
  datatype Poll = Poll(button: Button, result: Gesture, calls: seq<Call>)

  /** `check_button` started at trace position `pos`: classify, filter, dispatch. */
  function CheckButton(b: Button, tm: Timing, tr: Trace, pos: nat): (r: Run<Poll>)
    ensures r.Ran? <==> Classify(b.config.active, tm, tr, pos).Ran?
    ensures r.Ran? ==> r.next == Classify(b.config.active, tm, tr, pos).next
    ensures r.Ran? ==> r.value.button.config == b.config && r.value.button.table == b.table
    ensures r.Ran? ==> r.value.result == r.value.button.state && r.value.result != None
    ensures r.Ran? ==> r.value.calls == Callback(b.table, b.config.pin, r.value.result).calls
    ensures r.Ran? ==> var latest := Classify(b.config.active, tm, tr, pos).value;
                       && (b.state.Long? && latest.Long? ==> r.value.result == b.state)
                       && (b.state.Long? && !latest.Long? ==> r.value.result == NotPressed)
                       && (!b.state.Long? ==> r.value.result == latest)
  {
    match Classify(b.config.active, tm, tr, pos)
    case Starved => Starved
    case Ran(latest, next) =>
      var t := Filter(b.state, latest);
      Ran(Poll(b.(state := t.state), t.result, DispatchAll(b.table, b.config.pin, t.dispatched)), next)
  }

  /** The values returned by successive polls whose classifier answers are `latest`. */
  function Replay(prev: Gesture, latest: seq<Gesture>): (results: seq<Gesture>)
    ensures |results| == |latest|
    decreases |latest|
  {
    if latest == [] then []
    else
      var t := Filter(prev, latest[0]);
      [t.result] + Replay(t.state, latest[1..])
  }

  /** While a long press continues (the classifier keeps answering long), every poll
      reports the long gesture already stored, press count included. */
  lemma {:induction false} LongPressRepeats(prev: Gesture, latest: seq<Gesture>)
    requires prev.Long?
    requires forall i :: 0 <= i < |latest| ==> latest[i].Long?
    ensures forall i :: 0 <= i < |latest| ==> Replay(prev, latest)[i] == prev
    decreases |latest|
  {
    if latest != [] {
      LongPressRepeats(prev, latest[1..]);
    }
  }

  /** The first long code latches: from a non-long state, the long gesture the first poll
      reports is reported again by every following poll while the press stays long. */
  lemma FirstLongLatches(prev: Gesture, latest: seq<Gesture>)
    requires !prev.Long?
    requires |latest| > 0
    requires forall i :: 0 <= i < |latest| ==> latest[i].Long?
    ensures forall i :: 0 <= i < |latest| ==> Replay(prev, latest)[i] == latest[0]
  {
    LongPressRepeats(latest[0], latest[1..]);
  }

  /** After a long press, the first poll whose classifier answer is not long reports
      NOT_PRESSED, never a short code, and runs no handler. */
  lemma ReleaseAfterLong(b: Button, tm: Timing, tr: Trace, pos: nat)
    requires b.state.Long?
    requires Classify(b.config.active, tm, tr, pos).Ran?
    requires !Classify(b.config.active, tm, tr, pos).value.Long?
    ensures CheckButton(b, tm, tr, pos).Ran?
    ensures CheckButton(b, tm, tr, pos).value == Poll(b.(state := NotPressed), NotPressed, [])
  {
  }

  /** While the button stays held after a long gesture, each poll during which it is held
      returns that same long gesture, leaves the button unchanged, and re-runs the handler
      registered for it. */
  lemma HeldLongRepeats(b: Button, tm: Timing, tr: Trace, pos: nat)
    requires b.state.Long?
    requires CheckButton(b, tm, tr, pos).Ran?
    requires HeldUntil(b.config.active, tr, pos, CheckButton(b, tm, tr, pos).next)
    ensures CheckButton(b, tm, tr, pos).value.result == b.state
    ensures CheckButton(b, tm, tr, pos).value.button == b
    ensures CheckButton(b, tm, tr, pos).value.calls == Callback(b.table, b.config.pin, b.state).calls
  {
    ContinuousHoldIsLong(b.config.active, tm, tr, pos);
    assert DispatchAll(b.table, b.config.pin, [b.state]) == Callback(b.table, b.config.pin, b.state).calls + [];
  }

  /** A poll with the button up at its first pin read returns NOT_PRESSED after two reads,
      runs no handler and leaves the table alone, whatever the previous state. */
  lemma IdlePoll(b: Button, tm: Timing, tr: Trace, pos: nat)
    requires pos + 1 < |tr|
    requires tr[pos + 1].level != b.config.active
    ensures CheckButton(b, tm, tr, pos) == Ran(Poll(b.(state := NotPressed), NotPressed, []), pos + 2)
  {
  }

  /** A handler registered for a code runs, once, with the button's pin and that code, on
      every poll that reports the code. */
  lemma RegisteredHandlerDispatched(b: Button, code: Gesture, id: nat, tm: Timing, tr: Trace, pos: nat)
    requires Dispatchable(code)
    requires CheckButton(Register(b, code, Fn(id)).1, tm, tr, pos).Ran?
    requires CheckButton(Register(b, code, Fn(id)).1, tm, tr, pos).value.result == code
    ensures CheckButton(Register(b, code, Fn(id)).1, tm, tr, pos).value.calls == [Call(id, b.config.pin, code)]
  {
  }
}
