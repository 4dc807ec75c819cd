/** The `Timer` of `asyncgui_ext.timer`: the same double-buffered engine as
    `Clock`, starting at time 0, whose `progress` is `tick` and whose
    `TimerEvent` has the fields and the `cancel` of `ClockEvent`. */
module Timers {
  import opened ClockEvents
  import opened TickSpec
  import opened TickFacts
  import opened TickProperties
  import opened Clocks

  class Timer {
    /** `_cur_time`, `_events` and `_events_to_be_added`, kept by an engine
        that runs the algorithm of `Clock`. */
    const engine: Clock

    ghost predicate Valid()
      reads this, engine
    {
      engine.Valid()
    }

    constructor ()
      ensures fresh(engine)
      ensures engine.time == 0 && engine.pending == [] && engine.incoming == [] && engine.log == []
      ensures Valid()
    {
      engine := new Clock(0);
    }

    /** The `current_time` property. */
    function CurrentTime(): (t: Time)
      reads this, engine
      ensures t == engine.time
    {
      engine.CurrentTime()
    }

    /** `progress(delta_time)`: `tick` under another name. */
    method Progress(dt: Time, rs: seq<Reaction>) returns (made: seq<ClockEvent>, ghost pass: Pass)
      requires Valid()
      modifies engine, engine.pending, engine.incoming, Targets(rs)
      ensures pass == Run(old(engine.Initial(rs)), old(engine.pending + engine.incoming), old(engine.time) + dt, rs, made)
      ensures engine.Settled(pass, made, old(engine.time) + dt, old(engine.log))
      ensures Distinct(made) && forall k :: 0 <= k < |made| ==> fresh(made[k])
      ensures forall y :: y in old(engine.pending + engine.incoming) ==> y !in made
      ensures Valid()
    {
      made, pass := engine.Tick(dt, rs);
    }

    /** `schedule_once(func, delay=0)`: with the default delay the event is
        due at the next `progress`, whatever its `delta_time`. */
    method ScheduleOnce(callback: Callback, delay: Time := 0) returns (e: ClockEvent)
      modifies engine
      ensures fresh(e) && e.State() == Ev(engine.time + delay, engine.time, callback, None, false)
      ensures engine.incoming == old(engine.incoming) + [e]
      ensures engine.time == old(engine.time) && engine.pending == old(engine.pending) && engine.log == old(engine.log)
      ensures old(Valid()) ==> Valid()
    {
      e := engine.ScheduleOnce(callback, delay);
    }

    /** `schedule_interval(func, interval)`. */
    method ScheduleInterval(callback: Callback, interval: Time) returns (e: ClockEvent)
      modifies engine
      ensures fresh(e) && e.State() == Ev(engine.time + interval, engine.time, callback, Some(interval), false)
      ensures engine.incoming == old(engine.incoming) + [e]
      ensures engine.time == old(engine.time) && engine.pending == old(engine.pending) && engine.log == old(engine.log)
      ensures old(Valid()) ==> Valid()
    {
      e := engine.ScheduleInterval(callback, interval);
    }
  }

  /** An event made by `schedule_once(f)` at time t, uncancelled and not
      cancelled by any callback, fires at the next `progress(dt)` with
      dt >= 0 (even dt = 0), exactly once, with elapsed time dt, and is
      dropped. */
  lemma DefaultDelayFiresOnce(s: map<ClockEvent, Ev>, b: seq<ClockEvent>, i: nat, t: Time, dt: Time, rs: seq<Reaction>, ids: seq<ClockEvent>)
    returns (j: nat)
    requires WellFormed(s, b, t + dt, rs, ids) && i < |b| && dt >= 0
    requires s[b[i]] == Ev(t, t, s[b[i]].callback, None, false) && b[i] !in Targets(rs)
    ensures var r := Run(Start(s), b, t + dt, rs, ids);
            && j < |r.log| && r.log[j] == Firing(b[i], s[b[i]].callback, dt)
            && (forall j' :: 0 <= j' < |r.log| && r.log[j'].event == b[i] ==> j' == j)
            && b[i] !in r.out
  {
    j := DueFiresOnce(s, b, i, t + dt, rs, ids);
  }

  /** An event with interval 0 that is due stays due: if its callback keeps
      it, its deadline is unchanged, so the next `progress(dt)` with dt >= 0
      fires it again, with the elapsed time of that call. */
  lemma ZeroIntervalStaysDue(s: map<ClockEvent, Ev>, b: seq<ClockEvent>, i: nat, cur: Time, rs: seq<Reaction>, ids: seq<ClockEvent>, dt: Time)
    returns (j: nat)
    requires WellFormed(s, b, cur, rs, ids) && i < |b| && dt >= 0
    requires s[b[i]].interval == Some(0) && Due(s[b[i]], cur) && b[i] !in Targets(rs)
    ensures var r := Run(Start(s), b, cur, rs, ids);
            && j < |r.log| && r.log[j].event == b[i]
            && (forall j' :: 0 <= j' < |r.log| && r.log[j'].event == b[i] ==> j' == j)
            && (b[i] in r.out <==> !ReactionAt(rs, j).returnedFalse)
            && (b[i] in r.out ==> Due(r.store[b[i]], cur + dt) && r.store[b[i]].lastTick == cur)
  {
    j := DueFiresOnce(s, b, i, cur, rs, ids);
  }
}
