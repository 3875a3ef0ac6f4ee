/** Gesture codes, pin levels and pin modes shared by every layer of the button model.
    The source encodes a gesture as a byte with a "long" flag bit and a two-bit press
    count; here the flag/count split is a tagged variant. */
module Gestures {

  /** The two digital levels a pin read can return. */
  datatype Level = Low | High

  /** Whether the pin is configured as a plain input or with the internal pull-up. */
  datatype InputMode = Input | InputPullup

  /** Number of presses in a gesture: single, double or triple. */
  type Count = n: int | 1 <= n <= 3 witness 1

  /** The eight gesture codes. `Long?` plays the role of the LONG_PRESS flag and
      `presses` the role of the BUTTON_MASK field. */
  datatype Gesture = None | NotPressed | Short(presses: Count) | Long(presses: Count)

  /** The six codes that have a callback slot (SHORT1..SHORT3, LONG1..LONG3). */
  predicate Dispatchable(code: Gesture)
  {
    code.Short? || code.Long?
  }

  /** The level that is not `l`. */
  function Opposite(l: Level): (r: Level)
    ensures r != l
  {
    if l == High then Low else High
  }
}
