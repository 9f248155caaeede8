/** Vocabulary shared by the two copies of the keyed countdown registry. */
module Countdown {

  datatype Option<T> = None | Some(value: T)

  /** The closed key enumeration `CountDownKey`. */
  datatype Key = Test1 | Test2

  /** `CountDownKey.allCases`: every key, in declaration order. */
  const AllKeys: seq<Key> := [Test1, Test2]

  /** A callback closure, reduced to an opaque identity. */
  type CallbackId = nat

  /** A timer handle (`DispatchSourceTimer`): an index into a registry's ticker table. */
  type TickerId = nat

  /** One invocation `callBack(count, finished)`. */
  datatype Event = Event(callback: CallbackId, count: int, finished: bool)

  /** A `CountDownInfo` record: the ticker handle (nil until launched), the
      absolute deadline in whole seconds, and the callback. */
  datatype Info = Info(timer: Option<TickerId>, endTime: int, callback: CallbackId)

  /** The `n` callbacks a ticker makes when its first fire reports `first`:
      the counts go down by one per fire and `finished` holds exactly when the
      count has reached zero or below. */
  function CountdownEvents(callback: CallbackId, first: int, n: nat): (events: seq<Event>)
    ensures |events| == n
    ensures forall i :: 0 <= i < n ==>
      events[i] == Event(callback, first - i, first - i <= 0)
    decreases n
  {
    if n == 0 then []
    else [Event(callback, first, first <= 0)] + CountdownEvents(callback, first - 1, n - 1)
  }
}
