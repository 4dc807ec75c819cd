/** The record a clock hands back from `schedule_once` and
    `schedule_interval`: one scheduled callback with its deadline, the time it
    last fired (or was scheduled), its repeat interval and a lazy
    cancellation flag. */
module ClockEvents {

  /** Logical time. The tests drive the clock with integers, and the engine
      only adds, subtracts and compares times. */
  type Time = int

  datatype Option<T> = None | Some(value: T)

  /** A handle naming a callback function object. What the callback does
      when it is called is given separately, per tick (TickSpec.Reaction). */
  datatype Callback = Callback(id: nat)

  /** The fields of a ClockEvent at one moment. */
  datatype Ev = Ev(deadline: Time, lastTick: Time, callback: Callback, interval: Option<Time>, cancelled: bool)

  /** No element occurs twice. */
  predicate Distinct<T(==)>(s: seq<T>) {
    forall i, j :: 0 <= i < j < |s| ==> s[i] != s[j]
  }

  /** An event is identified by the object, not by its field values. */
  class ClockEvent {
    var deadline: Time
    var lastTick: Time
    /** The callback is a public attribute: its holder may replace it, and
        the clock calls whatever is stored here when the event fires. */
    var callback: Callback
    /** None for an event made by `schedule_once`; never reassigned. */
    const interval: Option<Time>
    var cancelled: bool

    constructor (deadline: Time, lastTick: Time, callback: Callback, interval: Option<Time>)
      ensures State() == Ev(deadline, lastTick, callback, interval, false)
    {
      this.deadline := deadline;
      this.lastTick := lastTick;
      this.callback := callback;
      this.interval := interval;
      this.cancelled := false;
    }

    function State(): Ev
      reads this
    {
      Ev(deadline, lastTick, callback, interval, cancelled)
    }

    /** Sets the flag and nothing else; calling it again changes nothing. */
    method Cancel()
      modifies this
      ensures State() == old(State()).(cancelled := true)
    {
      cancelled := true;
    }

    /** What `tick` does to a repeating event whose callback did not return
        False: the next deadline is one interval after the one just reached,
        and the elapsed time is measured from now. */
    method Advance(now: Time)
      requires interval.Some?
      modifies this
      ensures State() == old(State()).(deadline := old(deadline) + interval.value, lastTick := now)
    {
      deadline := deadline + interval.value;
      lastTick := now;
    }
  }
}
