/** The behaviour pinned down by tests/clock/test_schedule_xxx.py, replayed
    on the model: each trace builds a clock, schedules events, ticks it and
    returns the elapsed times the callbacks received after each tick, as the
    `dt_list` of the test.

    The pass lemmas below (`LoneVisit`, `LoneFires`, `PairFires`,
    `SpawnPass2`, ...) take the pass and its result `r` as parameters pinned
    by `requires r == Run(...)` rather than naming `Run(...)` in their
    ensures: a caller then never holds an unfolded `Run` term, which keeps
    each trace cheap to verify. */
module Traces {
  import opened ClockEvents
  import opened TickSpec
  import opened TickFacts
  import opened Clocks
  import opened Timers

  /** The elapsed times of a firing log, in order: what `dt_list.append`
      collects. */
  function Dts(log: seq<Firing>): (d: seq<Time>)
    ensures |d| == |log| && forall k :: 0 <= k < |log| ==> d[k] == log[k].dt
  {
    seq(|log|, k requires 0 <= k < |log| => log[k].dt)
  }

  /** The elapsed times of a log that grew by `more` are the old ones
      followed by those of `more`. */
  lemma DtsAppend(log: seq<Firing>, more: seq<Firing>)
    ensures Dts(log + more) == Dts(log) + Dts(more)
  {
    assert forall k :: 0 <= k < |log| ==> (log + more)[k] == log[k];
    assert forall k :: |log| <= k < |log| + |more| ==> (log + more)[k] == more[k - |log|];
  }

  /** The pass of a tick whose buffers hold the single event `e` is one
      visit of `e`. */
  lemma LoneVisit(p: Pass, b: seq<ClockEvent>, cur: Time, rs: seq<Reaction>, ids: seq<ClockEvent>, s: map<ClockEvent, Ev>, e: ClockEvent)
    requires e in s && p == Start(s) && b == [e]
    requires forall x :: x in b ==> x in p.store
    ensures Run(p, b, cur, rs, ids) == Visit(Start(s), e, cur, rs, ids)
  {
    assert [e][..0] == [];
  }

  /** ... the repeating event is due: it fires and is re-queued. */
  lemma LoneFires(r: Pass, cur: Time, ids: seq<ClockEvent>, s: map<ClockEvent, Ev>, e: ClockEvent)
    requires e in s && r == Visit(Start(s), e, cur, [], ids)
    requires !s[e].cancelled && s[e].deadline <= cur && s[e].interval.Some?
    ensures r.log == [Firing(e, s[e].callback, cur - s[e].lastTick)] && r.out == [e]
    ensures e in r.store && r.store[e] == s[e].(deadline := s[e].deadline + s[e].interval.value, lastTick := cur)
  {
    assert ReactionAt([], 0) == Reaction(false, []);
    assert r.log == [] + [Firing(e, s[e].callback, cur - s[e].lastTick)];
  }

  /** ... the one-shot event is due: it fires and is dropped. */
  lemma LoneFiresOnce(r: Pass, cur: Time, ids: seq<ClockEvent>, s: map<ClockEvent, Ev>, e: ClockEvent)
    requires e in s && r == Visit(Start(s), e, cur, [], ids)
    requires !s[e].cancelled && s[e].deadline <= cur && s[e].interval.None?
    ensures r.log == [Firing(e, s[e].callback, cur - s[e].lastTick)] && r.out == []
  {
    assert ReactionAt([], 0) == Reaction(false, []);
    assert r.log == [] + [Firing(e, s[e].callback, cur - s[e].lastTick)];
  }

  /** A tick of a clock whose buffers hold the single event `e`, whose
      callbacks cancel at most `e`: one visit of `e` in the state `s` it had
      before, the events it schedules being the new objects `made`. */
  method LoneTick(clock: Clock, e: ClockEvent, dt: Time, rs: seq<Reaction>)
    returns (made: seq<ClockEvent>, ghost pass: Pass, ghost s: map<ClockEvent, Ev>)
    requires clock.Valid() && clock.pending + clock.incoming == [e] && Targets(rs) <= {e}
    modifies clock, e
    ensures e in s && s[e] == old(e.State())
    ensures pass == Visit(Start(s), e, clock.time, rs, made)
    ensures clock.time == old(clock.time) + dt && clock.incoming == [] && clock.pending == pass.out
    ensures clock.log == old(clock.log) + pass.log
    ensures e in pass.store && pass.store[e] == e.State()
    ensures |made| == pass.scheduled && Mirrors(pass) && clock.Valid()
    ensures forall k :: 0 <= k < |made| ==> fresh(made[k]) && made[k] != e
  {
    ghost var p0 := clock.Initial(rs);
    SoleEvent(clock, e, rs);
    s := p0.store;
    made, pass := clock.Tick(dt, rs);
    LoneVisit(p0, [e], clock.time, rs, made, s, e);
  }

  /** A tick before the lone event is due: nothing fires and the event is
      carried over as it was. */
  method Waits(clock: Clock, e: ClockEvent, dt: Time)
    requires clock.Valid() && clock.pending + clock.incoming == [e]
    requires !e.cancelled && e.deadline > clock.time + dt
    modifies clock, e
    ensures clock.time == old(clock.time) + dt && clock.Valid()
    ensures clock.pending == [e] && clock.incoming == [] && clock.log == old(clock.log)
    ensures e.State() == old(e.State())
  {
    assert Targets([]) == {};
    var made, pass, s := LoneTick(clock, e, dt, []);
  }

  /** A tick at which the lone repeating event is due: it fires with the
      time since it last fired and is re-queued one interval later. */
  method Fires(clock: Clock, e: ClockEvent, dt: Time)
    requires clock.Valid() && clock.pending + clock.incoming == [e]
    requires !e.cancelled && e.deadline <= clock.time + dt && e.interval.Some?
    modifies clock, e
    ensures clock.time == old(clock.time) + dt && clock.Valid()
    ensures clock.pending == [e] && clock.incoming == []
    ensures clock.log == old(clock.log) + [Firing(e, old(e.callback), clock.time - old(e.lastTick))]
    ensures e.deadline == old(e.deadline) + e.interval.value && e.lastTick == clock.time
    ensures e.callback == old(e.callback) && !e.cancelled
  {
    assert Targets([]) == {};
    var made, pass, s := LoneTick(clock, e, dt, []);
    LoneFires(pass, clock.time, made, s, e);
  }

  /** A `progress(dt)` of a timer whose buffers hold the single one-shot
      event `e`, due by then: it fires and is dropped. */
  method ProgressFiresOnce(timer: Timer, e: ClockEvent, dt: Time)
    requires timer.Valid() && timer.engine.pending + timer.engine.incoming == [e]
    requires !e.cancelled && e.deadline <= timer.engine.time + dt && e.interval.None?
    modifies timer.engine, e
    ensures timer.engine.time == old(timer.engine.time) + dt && timer.Valid()
    ensures timer.engine.pending == [] && timer.engine.incoming == []
    ensures timer.engine.log == old(timer.engine.log) + [Firing(e, old(e.callback), timer.engine.time - old(e.lastTick))]
  {
    ghost var p0 := timer.engine.Initial([]);
    assert Targets([]) == {};
    SoleEvent(timer.engine, e, []);
    ghost var s := p0.store;
    var made, pass := timer.Progress(dt, []);
    LoneVisit(p0, [e], timer.engine.time, [], made, s, e);
    LoneFiresOnce(pass, timer.engine.time, made, s, e);
  }

  /** A `progress(dt)` of a timer with no events: only the time moves. */
  method ProgressIdle(timer: Timer, dt: Time)
    requires timer.engine.pending == [] && timer.engine.incoming == []
    modifies timer.engine
    ensures timer.engine.time == old(timer.engine.time) + dt && timer.Valid()
    ensures timer.engine.pending == [] && timer.engine.incoming == [] && timer.engine.log == old(timer.engine.log)
  {
    ghost var p0 := timer.engine.Initial([]);
    var made, pass := timer.Progress(dt, []);
    assert made == [];
  }

  /** A tick after the lone event was cancelled: nothing fires and the
      event is dropped. */
  method Skips(clock: Clock, e: ClockEvent, dt: Time)
    requires clock.Valid() && clock.pending + clock.incoming == [e] && e.cancelled
    modifies clock, e
    ensures clock.time == old(clock.time) + dt && clock.Valid()
    ensures clock.pending == [] && clock.incoming == [] && clock.log == old(clock.log)
  {
    assert Targets([]) == {};
    var made, pass, s := LoneTick(clock, e, dt, []);
  }

  /** The pass of a tick whose buffers hold the two events `e1` and `e2`,
      in that order, is the visit of `e1` followed by the visit of `e2`. */
  lemma PairVisit(p: Pass, b: seq<ClockEvent>, cur: Time, rs: seq<Reaction>, ids: seq<ClockEvent>,
                  s: map<ClockEvent, Ev>, e1: ClockEvent, e2: ClockEvent)
    requires e1 in s && e2 in s && p == Start(s) && b == [e1, e2]
    requires forall x :: x in b ==> x in p.store
    ensures Run(p, b, cur, rs, ids) == Visit(Visit(Start(s), e1, cur, rs, ids), e2, cur, rs, ids)
  {
    assert [e1, e2][..1] == [e1];
    LoneVisit(p, [e1], cur, rs, ids, s, e1);
  }

  /** ... the visit of the due repeating event `e1`, whose callback
      returns None after cancelling `e1` when `cancelFirst` holds: it fires
      and is re-queued, marked cancelled or not, and nothing else changes. */
  lemma FirstFires(q: Pass, cur: Time, rs: seq<Reaction>, ids: seq<ClockEvent>, s: map<ClockEvent, Ev>,
                   e1: ClockEvent, cancelFirst: bool)
    requires e1 in s
    requires rs == if cancelFirst then [Reaction(false, [Cancel(Existing(e1))])] else []
    requires !s[e1].cancelled && s[e1].deadline <= cur && s[e1].interval.Some?
    requires q == Visit(Start(s), e1, cur, rs, ids)
    ensures q.log == [Firing(e1, s[e1].callback, cur - s[e1].lastTick)] && q.out == [e1]
    ensures q.store == s[e1 := s[e1].(deadline := s[e1].deadline + s[e1].interval.value, lastTick := cur, cancelled := cancelFirst)]
  {
    var q0 := Start(s).(log := [] + [Firing(e1, s[e1].callback, cur - s[e1].lastTick)]);
    var effects := ReactionAt(rs, 0).effects;
    var a := ApplyEffects(q0, effects, cur, ids);
    if cancelFirst {
      assert effects == [Cancel(Existing(e1))] && effects[..0] == [];
      assert ApplyEffects(q0, effects[..0], cur, ids) == q0;
      assert a == ApplyEffect(q0, Cancel(Existing(e1)), cur, ids);
      assert a == CancelIn(q0, e1);
    } else {
      assert effects == [];
    }
    assert q == Requeued(a, e1, s[e1].interval.value, cur);
  }

  /** ... both repeating events are due: `e1` fires first, then `e2`, and
      both are re-queued in the same order. When the callback of `e1`
      cancels `e1` (and returns None), `e1` is still re-queued, but marked
      cancelled. */
  lemma PairFires(r: Pass, cur: Time, rs: seq<Reaction>, ids: seq<ClockEvent>, s: map<ClockEvent, Ev>,
                  e1: ClockEvent, e2: ClockEvent, cancelFirst: bool)
    requires e1 in s && e2 in s && e1 != e2
    requires rs == if cancelFirst then [Reaction(false, [Cancel(Existing(e1))])] else []
    requires !s[e1].cancelled && s[e1].deadline <= cur && s[e1].interval.Some?
    requires !s[e2].cancelled && s[e2].deadline <= cur && s[e2].interval.Some?
    requires r == Visit(Visit(Start(s), e1, cur, rs, ids), e2, cur, rs, ids)
    ensures r.log == [Firing(e1, s[e1].callback, cur - s[e1].lastTick), Firing(e2, s[e2].callback, cur - s[e2].lastTick)]
    ensures r.out == [e1, e2] && e1 in r.store && e2 in r.store
    ensures r.store[e1] == s[e1].(deadline := s[e1].deadline + s[e1].interval.value, lastTick := cur, cancelled := cancelFirst)
    ensures r.store[e2] == s[e2].(deadline := s[e2].deadline + s[e2].interval.value, lastTick := cur)
  {
    var q := Visit(Start(s), e1, cur, rs, ids);
    FirstFires(q, cur, rs, ids, s, e1, cancelFirst);
    assert q.store[e2] == s[e2];
    assert ReactionAt(rs, |q.log|) == Reaction(false, []);
    assert r.log == q.log + [Firing(e2, s[e2].callback, cur - s[e2].lastTick)];
  }

  /** ... `e1` was cancelled and `e2` is due: `e1` is skipped and dropped,
      `e2` fires and is re-queued. */
  lemma SecondFires(r: Pass, cur: Time, ids: seq<ClockEvent>, s: map<ClockEvent, Ev>, e1: ClockEvent, e2: ClockEvent)
    requires e1 in s && e2 in s && e1 != e2 && s[e1].cancelled
    requires !s[e2].cancelled && s[e2].deadline <= cur && s[e2].interval.Some?
    requires r == Visit(Visit(Start(s), e1, cur, [], ids), e2, cur, [], ids)
    ensures r.log == [Firing(e2, s[e2].callback, cur - s[e2].lastTick)] && r.out == [e2] && e2 in r.store
    ensures r.store[e2] == s[e2].(deadline := s[e2].deadline + s[e2].interval.value, lastTick := cur)
  {
    assert Visit(Start(s), e1, cur, [], ids) == Start(s);
    assert ReactionAt([], 0) == Reaction(false, []);
    assert r.log == [] + [Firing(e2, s[e2].callback, cur - s[e2].lastTick)];
  }

  /** A tick of a clock whose buffers hold the two events `e1` and `e2`, in
      that order, whose callbacks cancel at most these two: the visit of
      `e1` and then of `e2`, in the states `s` they had before. */
  method PairTick(clock: Clock, e1: ClockEvent, e2: ClockEvent, dt: Time, rs: seq<Reaction>)
    returns (made: seq<ClockEvent>, ghost pass: Pass, ghost s: map<ClockEvent, Ev>)
    requires clock.Valid() && clock.pending + clock.incoming == [e1, e2] && Targets(rs) <= {e1, e2}
    modifies clock, e1, e2
    ensures e1 in s && e2 in s && e1 != e2 && s[e1] == old(e1.State()) && s[e2] == old(e2.State())
    ensures pass == Visit(Visit(Start(s), e1, clock.time, rs, made), e2, clock.time, rs, made)
    ensures clock.time == old(clock.time) + dt && clock.incoming == [] && clock.pending == pass.out
    ensures clock.log == old(clock.log) + pass.log
    ensures e1 in pass.store && pass.store[e1] == e1.State() && e2 in pass.store && pass.store[e2] == e2.State()
    ensures |made| == pass.scheduled && Mirrors(pass) && clock.Valid()
    ensures forall k :: 0 <= k < |made| ==> fresh(made[k]) && made[k] != e1 && made[k] != e2
  {
    ghost var batch := clock.pending + clock.incoming;
    assert batch[0] == e1 && batch[1] == e2;
    ghost var p0 := clock.Initial(rs);
    assert e1 in p0.store && e2 in p0.store;
    s := p0.store;
    made, pass := clock.Tick(dt, rs);
    PairVisit(p0, [e1, e2], clock.time, rs, made, s, e1, e2);
  }

  /** A tick of a clock whose buffers hold `e1`, `e2` and `e3`, in that
      order, whose callbacks cancel nothing: the visits of the three in
      turn, in the states `s` they had before. */
  method TripleTick(clock: Clock, e1: ClockEvent, e2: ClockEvent, e3: ClockEvent, dt: Time, rs: seq<Reaction>)
    returns (made: seq<ClockEvent>, ghost pass: Pass, ghost s: map<ClockEvent, Ev>)
    requires clock.Valid() && clock.pending + clock.incoming == [e1, e2, e3] && Targets(rs) == {}
    modifies clock, e1, e2, e3
    ensures e1 in s && e2 in s && e3 in s && e1 != e2 && e1 != e3 && e2 != e3
    ensures s[e1] == old(e1.State()) && s[e2] == old(e2.State()) && s[e3] == old(e3.State())
    ensures pass == Visit(Visit(Visit(Start(s), e1, clock.time, rs, made), e2, clock.time, rs, made), e3, clock.time, rs, made)
    ensures clock.time == old(clock.time) + dt && clock.incoming == [] && clock.pending == pass.out
    ensures clock.log == old(clock.log) + pass.log
    ensures |made| == pass.scheduled
    ensures forall k :: 0 <= k < |made| ==> fresh(made[k]) && made[k] != e1 && made[k] != e2 && made[k] != e3
  {
    ghost var batch := clock.pending + clock.incoming;
    assert batch[0] == e1 && batch[1] == e2 && batch[2] == e3;
    ghost var p0 := clock.Initial(rs);
    assert e1 in p0.store && e2 in p0.store && e3 in p0.store;
    s := p0.store;
    made, pass := clock.Tick(dt, rs);
    TripleVisit(p0, [e1, e2, e3], clock.time, rs, made, s, e1, e2, e3);
  }

  /** A tick at which both repeating events are due, the callback of `e1`
      cancelling `e1` when `cancelFirst` holds: both fire, in order, each
      with the time since it last fired, and both stay in the buffer, one
      interval later. */
  method BothFire(clock: Clock, e1: ClockEvent, e2: ClockEvent, dt: Time, cancelFirst: bool)
    requires clock.Valid() && clock.pending + clock.incoming == [e1, e2]
    requires !e1.cancelled && e1.deadline <= clock.time + dt && e1.interval.Some?
    requires !e2.cancelled && e2.deadline <= clock.time + dt && e2.interval.Some?
    modifies clock, e1, e2
    ensures clock.time == old(clock.time) + dt && clock.Valid()
    ensures clock.pending == [e1, e2] && clock.incoming == []
    ensures clock.log == old(clock.log) + [Firing(e1, old(e1.callback), clock.time - old(e1.lastTick)),
                                           Firing(e2, old(e2.callback), clock.time - old(e2.lastTick))]
    ensures e1.deadline == old(e1.deadline) + e1.interval.value && e1.lastTick == clock.time
    ensures e1.callback == old(e1.callback) && e1.cancelled == cancelFirst
    ensures e2.deadline == old(e2.deadline) + e2.interval.value && e2.lastTick == clock.time
    ensures e2.callback == old(e2.callback) && !e2.cancelled
  {
    var rs := if cancelFirst then [Reaction(false, [Cancel(Existing(e1))])] else [];
    assert Targets(rs) <= {e1, e2} by {
      assert forall k, x :: 0 <= k < |rs| && x in EffectTargets(rs[k].effects) ==> x == e1;
    }
    var made, pass, s := PairTick(clock, e1, e2, dt, rs);
    PairFires(pass, clock.time, rs, made, s, e1, e2, cancelFirst);
  }

  /** A tick after `e1` was cancelled, at which `e2` is due: only `e2`
      fires, and only `e2` stays in the buffer. */
  method SecondOnly(clock: Clock, e1: ClockEvent, e2: ClockEvent, dt: Time)
    requires clock.Valid() && clock.pending + clock.incoming == [e1, e2] && e1.cancelled
    requires !e2.cancelled && e2.deadline <= clock.time + dt && e2.interval.Some?
    modifies clock, e1, e2
    ensures clock.time == old(clock.time) + dt && clock.Valid()
    ensures clock.pending == [e2] && clock.incoming == []
    ensures clock.log == old(clock.log) + [Firing(e2, old(e2.callback), clock.time - old(e2.lastTick))]
    ensures e2.deadline == old(e2.deadline) + e2.interval.value && e2.lastTick == clock.time
    ensures e2.callback == old(e2.callback) && !e2.cancelled
  {
    assert Targets([]) == {};
    var made, pass, s := PairTick(clock, e1, e2, dt, []);
    SecondFires(pass, clock.time, made, s, e1, e2);
  }

  /** Lines 1-15: interval 100, ticks of 50, 50, 50, 100 and 100. The event
      fires once per tick at most, with the time since it last fired. */
  method IntervalTrace() returns (observed: seq<seq<Time>>)
    ensures observed == [[], [], [100], [100], [100, 150], [100, 150, 100]]
  {
    var clock := new Clock(0);
    var cb := Callback(0);
    var e := clock.ScheduleInterval(cb, 100);
    observed := [Dts(clock.log)];
    Waits(clock, e, 50);
    observed := observed + [Dts(clock.log)];
    Fires(clock, e, 50);
    assert clock.log == [Firing(e, cb, 100)];
    assert Dts(clock.log) == [100];
    observed := observed + [Dts(clock.log)];
    Waits(clock, e, 50);
    observed := observed + [Dts(clock.log)];
    Fires(clock, e, 100);
    assert clock.log == [Firing(e, cb, 100), Firing(e, cb, 150)];
    assert Dts(clock.log) == [100, 150];
    observed := observed + [Dts(clock.log)];
    Fires(clock, e, 100);
    assert clock.log == [Firing(e, cb, 100), Firing(e, cb, 150), Firing(e, cb, 100)];
    assert Dts(clock.log) == [100, 150, 100];
    observed := observed + [Dts(clock.log)];
  }

  /** Lines 18-28: interval 0 fires at every tick, even a tick of 0. */
  method ZeroIntervalTrace() returns (observed: seq<seq<Time>>)
    ensures observed == [[], [0], [0, 20], [0, 20, 0]]
  {
    var clock := new Clock(0);
    var cb := Callback(0);
    var e := clock.ScheduleInterval(cb, 0);
    observed := [Dts(clock.log)];
    Fires(clock, e, 0);
    assert clock.log == [Firing(e, cb, 0)];
    assert Dts(clock.log) == [0];
    observed := observed + [Dts(clock.log)];
    Fires(clock, e, 20);
    assert clock.log == [Firing(e, cb, 0), Firing(e, cb, 20)];
    assert Dts(clock.log) == [0, 20];
    observed := observed + [Dts(clock.log)];
    Fires(clock, e, 0);
    assert clock.log == [Firing(e, cb, 0), Firing(e, cb, 20), Firing(e, cb, 0)];
    assert Dts(clock.log) == [0, 20, 0];
    observed := observed + [Dts(clock.log)];
  }

  /** Lines 31-41: once cancelled, the event no longer fires and is gone
      from both buffers after the next tick. */
  method CancelTrace() returns (observed: seq<seq<Time>>, buffered: seq<ClockEvent>)
    ensures observed == [[], [100], [100]] && buffered == []
  {
    var clock := new Clock(0);
    var cb := Callback(0);
    var e := clock.ScheduleInterval(cb, 100);
    observed := [Dts(clock.log)];
    Fires(clock, e, 100);
    assert clock.log == [Firing(e, cb, 100)];
    assert Dts(clock.log) == [100];
    observed := observed + [Dts(clock.log)];
    e.Cancel();
    Skips(clock, e, 100);
    assert Dts(clock.log) == [100];
    observed := observed + [Dts(clock.log)];
    buffered := clock.pending + clock.incoming;
  }

  /** `Timer.schedule_once(f)` with the default delay: `progress(0)` fires
      it with elapsed time 0, and a second `progress(0)` does not. */
  method DefaultDelayTrace() returns (observed: seq<seq<Time>>, buffered: seq<ClockEvent>)
    ensures observed == [[], [0], [0]] && buffered == []
  {
    var timer := new Timer();
    var cb := Callback(0);
    var e := timer.ScheduleOnce(cb);
    observed := [Dts(timer.engine.log)];
    ProgressFiresOnce(timer, e, 0);
    assert timer.engine.log == [Firing(e, cb, 0)];
    assert Dts(timer.engine.log) == [0];
    observed := observed + [Dts(timer.engine.log)];
    ProgressIdle(timer, 0);
    assert Dts(timer.engine.log) == [0];
    observed := observed + [Dts(timer.engine.log)];
    buffered := timer.engine.pending + timer.engine.incoming;
  }

  /** The first two ticks of lines 44-61: two events of interval 30, the
      callback of the first cancelling its own event once it receives more
      than 80. Both fire at each tick, neither is cancelled yet. */
  method CancelFromCallbackStart() returns (clock: Clock, e1: ClockEvent, e2: ClockEvent, observed: seq<seq<Time>>)
    ensures fresh(clock) && fresh(e1) && fresh(e2) && clock.Valid()
    ensures clock.pending == [e1, e2] && clock.incoming == [] && clock.time == 90
    ensures e1.State() == Ev(90, 90, Callback(0), Some(30), false)
    ensures e2.State() == Ev(90, 90, Callback(1), Some(30), false)
    ensures Dts(clock.log) == [30, 30, 60, 60]
    ensures observed == [[30, 30], [30, 30, 60, 60]]
  {
    clock := new Clock(0);
    e1 := clock.ScheduleInterval(Callback(0), 30);
    e2 := clock.ScheduleInterval(Callback(1), 30);
    BothFire(clock, e1, e2, 30, clock.time + 30 - e1.lastTick > 80);
    assert clock.log == [Firing(e1, Callback(0), 30), Firing(e2, Callback(1), 30)];
    assert Dts(clock.log) == [30, 30];
    observed := [Dts(clock.log)];
    BothFire(clock, e1, e2, 60, clock.time + 60 - e1.lastTick > 80);
    assert clock.log == [Firing(e1, Callback(0), 30), Firing(e2, Callback(1), 30), Firing(e1, Callback(0), 60), Firing(e2, Callback(1), 60)];
    assert Dts(clock.log) == [30, 30, 60, 60];
    observed := observed + [Dts(clock.log)];
  }

  /** Lines 44-61: after the first two ticks, the callback of the first
      event cancels it at the third, where both still fire; the cancelled
      one is skipped at the fourth, and only the other one remains. */
  method CancelFromCallbackTrace() returns (observed: seq<seq<Time>>, buffered: seq<ClockEvent>)
    ensures observed == [[30, 30], [30, 30, 60, 60], [30, 30, 60, 60, 90, 90], [30, 30, 60, 60, 90, 90, 120]]
    ensures |buffered| == 1 && buffered[0].callback == Callback(1) && !buffered[0].cancelled
  {
    var clock, e1, e2, start := CancelFromCallbackStart();
    ghost var log0 := clock.log;
    BothFire(clock, e1, e2, 90, clock.time + 90 - e1.lastTick > 80);
    assert e1.cancelled;
    assert clock.log == log0 + [Firing(e1, Callback(0), 90), Firing(e2, Callback(1), 90)];
    DtsAppend(log0, [Firing(e1, Callback(0), 90), Firing(e2, Callback(1), 90)]);
    assert Dts(clock.log) == [30, 30, 60, 60] + [90, 90] == [30, 30, 60, 60, 90, 90];
    observed := start + [Dts(clock.log)];
    ghost var log1 := clock.log;
    SecondOnly(clock, e1, e2, 120);
    assert clock.log == log1 + [Firing(e2, Callback(1), 120)];
    DtsAppend(log1, [Firing(e2, Callback(1), 120)]);
    assert Dts(clock.log) == [30, 30, 60, 60, 90, 90] + [120] == [30, 30, 60, 60, 90, 90, 120];
    observed := observed + [Dts(clock.log)];
    buffered := clock.pending + clock.incoming;
  }

  /** The visit of a due repeating event `x` whose callback returns None
      and does nothing: it fires with the time since it last fired and is
      appended to the buffer being built, one interval later. */
  lemma FiresPlain(p: Pass, x: ClockEvent, cur: Time, rs: seq<Reaction>, ids: seq<ClockEvent>)
    requires x in p.store && !p.store[x].cancelled && p.store[x].deadline <= cur && p.store[x].interval.Some?
    requires ReactionAt(rs, |p.log|) == Reaction(false, [])
    ensures var ev := p.store[x];
            Visit(p, x, cur, rs, ids)
            == Pass(p.store[x := ev.(deadline := ev.deadline + ev.interval.value, lastTick := cur)],
                    p.out + [x], p.log + [Firing(x, ev.callback, cur - ev.lastTick)], p.scheduled)
  {
  }

  /** The visit of a due repeating event `x` whose callback calls
      `schedule_interval` once and returns None counts one `schedule_*`
      call. */
  lemma SchedulingCount(p: Pass, x: ClockEvent, cur: Time, rs: seq<Reaction>, ids: seq<ClockEvent>, cb: Callback, interval: Time)
    requires x in p.store && !p.store[x].cancelled && p.store[x].deadline <= cur
    requires ReactionAt(rs, |p.log|) == Reaction(false, [ScheduleInterval(cb, interval)])
    ensures Visit(p, x, cur, rs, ids).scheduled == p.scheduled + 1
  {
    var ev := p.store[x];
    var q := p.(log := p.log + [Firing(x, ev.callback, cur - ev.lastTick)]);
    var effects := ReactionAt(rs, |p.log|).effects;
    assert effects[..0] == [] && ApplyEffects(q, effects[..0], cur, ids) == q;
    assert ApplyEffects(q, effects, cur, ids).scheduled == p.scheduled + 1;
  }

  /** ... and when an object is left for it, the new event lands in the
      buffer being built before `x` is re-queued. */
  lemma FiresScheduling(p: Pass, x: ClockEvent, cur: Time, rs: seq<Reaction>, ids: seq<ClockEvent>, cb: Callback, interval: Time)
    requires x in p.store && !p.store[x].cancelled && p.store[x].deadline <= cur && p.store[x].interval.Some?
    requires ReactionAt(rs, |p.log|) == Reaction(false, [ScheduleInterval(cb, interval)])
    requires p.scheduled < |ids| && ids[p.scheduled] != x
    ensures var ev := p.store[x];
            var g := ids[p.scheduled];
            Visit(p, x, cur, rs, ids)
            == Pass(p.store[g := Ev(cur + interval, cur, cb, Some(interval), false)]
                           [x := ev.(deadline := ev.deadline + ev.interval.value, lastTick := cur)],
                    p.out + [g, x], p.log + [Firing(x, ev.callback, cur - ev.lastTick)], p.scheduled + 1)
  {
    var ev := p.store[x];
    var g := ids[p.scheduled];
    var effects := ReactionAt(rs, |p.log|).effects;
    var q := p.(log := p.log + [Firing(x, ev.callback, cur - ev.lastTick)]);
    assert effects[..0] == [] && ApplyEffects(q, effects[..0], cur, ids) == q;
    var a := ApplyEffects(q, effects, cur, ids);
    assert a == Schedule(q, Ev(cur + interval, cur, cb, Some(interval), false), ids);
    assert a.store[x] == ev;
  }

  /** The pass of a tick whose buffers hold `e1`, `e2` and `e3`, in that
      order, is the visits of the three in turn. */
  lemma TripleVisit(p: Pass, b: seq<ClockEvent>, cur: Time, rs: seq<Reaction>, ids: seq<ClockEvent>,
                    s: map<ClockEvent, Ev>, e1: ClockEvent, e2: ClockEvent, e3: ClockEvent)
    requires e1 in s && e2 in s && e3 in s && p == Start(s) && b == [e1, e2, e3]
    requires forall x :: x in b ==> x in p.store
    ensures Run(p, b, cur, rs, ids) == Visit(Visit(Visit(Start(s), e1, cur, rs, ids), e2, cur, rs, ids), e3, cur, rs, ids)
  {
    assert [e1, e2, e3][..2] == [e1, e2];
    PairVisit(p, [e1, e2], cur, rs, ids, s, e1, e2);
  }

  /** What the callback `f` of lines 64-78 does: schedule an event of
      interval 10 whose callback is `Callback(1)` (`dt_list.append`), and
      return None. */
  function Spawn(): Reaction
  {
    Reaction(false, [ScheduleInterval(Callback(1), 10)])
  }

  /** The pass of the second tick of lines 64-78, on the due events `g1`
      and `f`: `g1` fires and is re-queued, then `f` fires, schedules the
      first object left, and is re-queued after it. */
  lemma SpawnPass2(r: Pass, cur: Time, rs: seq<Reaction>, ids: seq<ClockEvent>, s: map<ClockEvent, Ev>, g1: ClockEvent, f: ClockEvent)
    requires g1 in s && f in s && g1 != f && rs == [Reaction(false, []), Spawn()]
    requires !s[g1].cancelled && s[g1].deadline <= cur && s[g1].interval.Some?
    requires !s[f].cancelled && s[f].deadline <= cur && s[f].interval.Some?
    requires r == Visit(Visit(Start(s), g1, cur, rs, ids), f, cur, rs, ids)
    requires |ids| == r.scheduled && forall k :: 0 <= k < |ids| ==> ids[k] != g1 && ids[k] != f
    ensures |ids| == 1 && r.out == [g1, ids[0], f]
    ensures r.log == [Firing(g1, s[g1].callback, cur - s[g1].lastTick), Firing(f, s[f].callback, cur - s[f].lastTick)]
    ensures r.store[g1] == s[g1].(deadline := s[g1].deadline + s[g1].interval.value, lastTick := cur)
    ensures r.store[ids[0]] == Ev(cur + 10, cur, Callback(1), Some(10), false)
    ensures r.store[f] == s[f].(deadline := s[f].deadline + s[f].interval.value, lastTick := cur)
  {
    var q := Visit(Start(s), g1, cur, rs, ids);
    FiresPlain(Start(s), g1, cur, rs, ids);
    SchedulingCount(q, f, cur, rs, ids, Callback(1), 10);
    FiresScheduling(q, f, cur, rs, ids, Callback(1), 10);
  }

  /** The pass of the third tick of lines 64-78, on the due events `g1`,
      `g2` and `f`: both fire and are re-queued, then `f` fires, schedules
      the first object left, and is re-queued after it. */
  lemma SpawnPass3(r: Pass, cur: Time, rs: seq<Reaction>, ids: seq<ClockEvent>, s: map<ClockEvent, Ev>,
                   g1: ClockEvent, g2: ClockEvent, f: ClockEvent, c1: Callback, t1: Time, c2: Callback, t2: Time, cf: Callback, tf: Time)
    requires g1 in s && g2 in s && f in s && g1 != g2 && g1 != f && g2 != f
    requires s[g1].callback == c1 && s[g1].lastTick == t1 && s[g2].callback == c2 && s[g2].lastTick == t2
    requires s[f].callback == cf && s[f].lastTick == tf
    requires rs == [Reaction(false, []), Reaction(false, []), Spawn()]
    requires !s[g1].cancelled && s[g1].deadline <= cur && s[g1].interval.Some?
    requires !s[g2].cancelled && s[g2].deadline <= cur && s[g2].interval.Some?
    requires !s[f].cancelled && s[f].deadline <= cur && s[f].interval.Some?
    requires r == Visit(Visit(Visit(Start(s), g1, cur, rs, ids), g2, cur, rs, ids), f, cur, rs, ids)
    requires |ids| == r.scheduled && forall k :: 0 <= k < |ids| ==> ids[k] != f
    ensures |ids| == 1 && r.out == [g1, g2, ids[0], f]
    ensures r.log == [Firing(g1, c1, cur - t1), Firing(g2, c2, cur - t2), Firing(f, cf, cur - tf)]
  {
    var q1 := Visit(Start(s), g1, cur, rs, ids);
    FiresPlain(Start(s), g1, cur, rs, ids);
    var q2 := Visit(q1, g2, cur, rs, ids);
    FiresPlain(q1, g2, cur, rs, ids);
    SchedulingCount(q2, f, cur, rs, ids, Callback(1), 10);
    FiresScheduling(q2, f, cur, rs, ids, Callback(1), 10);
  }

  /** The first tick of lines 64-78: `f` alone is due and schedules the
      event `g1`, which lands in the buffer before `f`. */
  method SpawnTick1(clock: Clock, f: ClockEvent, dt: Time) returns (g1: ClockEvent)
    requires clock.Valid() && clock.pending + clock.incoming == [f]
    requires !f.cancelled && f.deadline <= clock.time + dt && f.interval == Some(10)
    modifies clock, f
    ensures fresh(g1) && g1.State() == Ev(clock.time + 10, clock.time, Callback(1), Some(10), false)
    ensures clock.time == old(clock.time) + dt && clock.Valid()
    ensures clock.pending == [g1, f] && clock.incoming == []
    ensures clock.log == old(clock.log) + [Firing(f, old(f.callback), clock.time - old(f.lastTick))]
    ensures f.State() == old(f.State()).(deadline := old(f.deadline) + 10, lastTick := clock.time)
  {
    var rs := [Spawn()];
    assert Targets(rs) == {} by {
      assert EffectTargets(rs[0].effects) == {};
    }
    var made, pass, s := LoneTick(clock, f, dt, rs);
    SchedulingCount(Start(s), f, clock.time, rs, made, Callback(1), 10);
    FiresScheduling(Start(s), f, clock.time, rs, made, Callback(1), 10);
    g1 := made[0];
    assert g1.State() == pass.store[g1];
  }


  /** The second tick: `g1` fires, then `f`, which schedules `g2`; the
      buffer becomes `g1`, `g2`, `f`. */
  method SpawnTick2(clock: Clock, g1: ClockEvent, f: ClockEvent, dt: Time) returns (g2: ClockEvent)
    requires clock.Valid() && clock.pending + clock.incoming == [g1, f]
    requires !g1.cancelled && g1.deadline <= clock.time + dt && g1.interval.Some?
    requires !f.cancelled && f.deadline <= clock.time + dt && f.interval == Some(10)
    modifies clock, g1, f
    ensures fresh(g2) && g2.State() == Ev(clock.time + 10, clock.time, Callback(1), Some(10), false)
    ensures clock.time == old(clock.time) + dt && clock.Valid()
    ensures clock.pending == [g1, g2, f] && clock.incoming == []
    ensures clock.log == old(clock.log) + [Firing(g1, old(g1.callback), clock.time - old(g1.lastTick)),
                                           Firing(f, old(f.callback), clock.time - old(f.lastTick))]
    ensures g1.State() == old(g1.State()).(deadline := old(g1.deadline) + g1.interval.value, lastTick := clock.time)
    ensures f.State() == old(f.State()).(deadline := old(f.deadline) + 10, lastTick := clock.time)
  {
    var rs := [Reaction(false, []), Spawn()];
    assert Targets(rs) == {} by {
      assert EffectTargets(rs[0].effects) == {} && EffectTargets(rs[1].effects) == {};
    }
    var made, pass, s := PairTick(clock, g1, f, dt, rs);
    SpawnPass2(pass, clock.time, rs, made, s, g1, f);
    g2 := made[0];
    assert g2.State() == pass.store[g2];
  }


  /** The third tick: `g1` and `g2` fire, then `f`, which schedules `g3`;
      the buffer becomes `g1`, `g2`, `g3`, `f`. The ghost parameters name
      the callback and the last tick of each of the three events before the
      tick. */
  method SpawnTick3(clock: Clock, g1: ClockEvent, g2: ClockEvent, f: ClockEvent, dt: Time,
                    ghost c1: Callback, ghost t1: Time, ghost c2: Callback, ghost t2: Time, ghost cf: Callback, ghost tf: Time)
    returns (g3: ClockEvent)
    requires clock.Valid() && clock.pending + clock.incoming == [g1, g2, f]
    requires !g1.cancelled && g1.deadline <= clock.time + dt && g1.interval.Some? && g1.callback == c1 && g1.lastTick == t1
    requires !g2.cancelled && g2.deadline <= clock.time + dt && g2.interval.Some? && g2.callback == c2 && g2.lastTick == t2
    requires !f.cancelled && f.deadline <= clock.time + dt && f.interval == Some(10) && f.callback == cf && f.lastTick == tf
    modifies clock, g1, g2, f
    ensures fresh(g3)
    ensures clock.time == old(clock.time) + dt
    ensures clock.pending == [g1, g2, g3, f] && clock.incoming == []
    ensures clock.log == old(clock.log) + [Firing(g1, c1, clock.time - t1), Firing(g2, c2, clock.time - t2), Firing(f, cf, clock.time - tf)]
  {
    var rs := [Reaction(false, []), Reaction(false, []), Spawn()];
    assert Targets(rs) == {} by {
      assert EffectTargets(rs[0].effects) == {} && EffectTargets(rs[1].effects) == {} && EffectTargets(rs[2].effects) == {};
    }
    var made, pass, s := TripleTick(clock, g1, g2, f, dt, rs);
    SpawnPass3(pass, clock.time, rs, made, s, g1, g2, f, c1, t1, c2, t2, cf, tf);
    g3 := made[0];
  }


  /** Lines 64-78: `f`, of interval 10, schedules another event of interval
      10 each time it is called. An event scheduled during a tick is not
      visited by that tick, and lands in the buffer before `f` is
      re-queued, so at each later tick the events it scheduled fire before
      it. */
  method ScheduleFromCallbackTrace() returns (observed: seq<seq<Time>>, buffered: nat)
    ensures observed == [[], [10], [10, 20, 20], [10, 20, 20, 30, 30, 30]]
    ensures buffered == 4
  {
    var clock := new Clock(0);
    var f := clock.ScheduleInterval(Callback(0), 10);
    observed := [Dts(clock.log)];
    var g1 := SpawnTick1(clock, f, 10);
    assert clock.log == [Firing(f, Callback(0), 10)];
    assert Dts(clock.log) == [10];
    observed := observed + [Dts(clock.log)];
    var g2 := SpawnTick2(clock, g1, f, 20);
    assert clock.log == [Firing(f, Callback(0), 10), Firing(g1, Callback(1), 20), Firing(f, Callback(0), 20)];
    assert Dts(clock.log) == [10, 20, 20];
    observed := observed + [Dts(clock.log)];
    ghost var log2 := clock.log;
    var g3 := SpawnTick3(clock, g1, g2, f, 30, Callback(1), 30, Callback(1), 30, Callback(0), 30);
    assert clock.log == log2 + [Firing(g1, Callback(1), 30), Firing(g2, Callback(1), 30), Firing(f, Callback(0), 30)];
    DtsAppend(log2, [Firing(g1, Callback(1), 30), Firing(g2, Callback(1), 30), Firing(f, Callback(0), 30)]);
    assert Dts(clock.log) == [10, 20, 20] + [30, 30, 30] == [10, 20, 20, 30, 30, 30];
    observed := observed + [Dts(clock.log)];
    buffered := |clock.pending + clock.incoming|;
  }
}
