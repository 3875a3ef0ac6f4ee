/** The per-button callback table: six nullable handler slots, one per dispatchable
    gesture code, with registration (`set_callback`) and dispatch (`callback`). */
module Callbacks {
  import opened Gestures

  /** A nullable function pointer. Handlers are opaque: only their identity matters. */
  datatype Handler = Null | Fn(id: nat)

  /** One invocation of a user handler, with the arguments it received. */
  datatype Call = Call(handler: nat, pin: int, code: Gesture)

  /** What a dispatch did: the pointer it returned and the handlers it invoked. */
  datatype Dispatch = Dispatch(returned: Handler, calls: seq<Call>)

  datatype Table = Table(short1: Handler, long1: Handler,
                         short2: Handler, long2: Handler,
                         short3: Handler, long3: Handler)

  /** The table of a freshly constructed button: every slot null. */
  const EmptyTable := Table(Null, Null, Null, Null, Null, Null)

  /** The slot that holds the handler for `code`; Null for the two codes without a slot. */
  function Slot(t: Table, code: Gesture): (h: Handler)
    ensures !Dispatchable(code) ==> h == Null
  {
    match code
    case Short(n) => if n == 1 then t.short1 else if n == 2 then t.short2 else t.short3
    case Long(n) => if n == 1 then t.long1 else if n == 2 then t.long2 else t.long3
    case _ => Null
  }

  /** Registers `cb` for `code`. Succeeds exactly for the six dispatchable codes; on
      success only the slot of `code` changes, on failure nothing does. */
  function SetCallback(t: Table, code: Gesture, cb: Handler): (r: (bool, Table))
    ensures r.0 <==> Dispatchable(code)
    ensures r.0 ==> Slot(r.1, code) == cb
    ensures forall g :: g != code ==> Slot(r.1, g) == Slot(t, g)
    ensures !r.0 ==> r.1 == t
  {
    match code
    case Short(n) =>
      (true, if n == 1 then t.(short1 := cb) else if n == 2 then t.(short2 := cb) else t.(short3 := cb))
    case Long(n) =>
      (true, if n == 1 then t.(long1 := cb) else if n == 2 then t.(long2 := cb) else t.(long3 := cb))
    case _ => (false, t)
  }

  /** Dispatches `code`: invokes the handler in its slot once with (pin, code) and returns
      it, or invokes nothing and returns Null when the code has no slot or the slot is empty. */
  function Callback(t: Table, pin: int, code: Gesture): (d: Dispatch)
    ensures d.returned == Slot(t, code)
    ensures d.returned.Fn? ==> Dispatchable(code) && d.calls == [Call(d.returned.id, pin, code)]
    ensures d.returned.Null? ==> d.calls == []
  {
    match Slot(t, code)
    case Null => Dispatch(Null, [])
    case Fn(id) => Dispatch(Fn(id), [Call(id, pin, code)])
  }

  /** A handler registered for a code is the one the next dispatch of that code runs,
      and registering it leaves the dispatch of every other code as it was. */
  lemma RegisteredHandlerRuns(t: Table, code: Gesture, id: nat, pin: int)
    requires Dispatchable(code)
    ensures SetCallback(t, code, Fn(id)).0
    ensures Callback(SetCallback(t, code, Fn(id)).1, pin, code) == Dispatch(Fn(id), [Call(id, pin, code)])
    ensures forall g :: g != code ==>
              Callback(SetCallback(t, code, Fn(id)).1, pin, g) == Callback(t, pin, g)
  {
  }

  /** A failed registration leaves every dispatch exactly as it was. */
  lemma RejectedRegistrationInert(t: Table, code: Gesture, cb: Handler, pin: int)
    requires !Dispatchable(code)
    ensures !SetCallback(t, code, cb).0
    ensures forall g :: Callback(SetCallback(t, code, cb).1, pin, g) == Callback(t, pin, g)
  {
  }

  /** Nothing is invoked through an empty table. */
  lemma EmptyTableInvokesNothing(pin: int, code: Gesture)
    ensures Callback(EmptyTable, pin, code) == Dispatch(Null, [])
  {
  }
}
