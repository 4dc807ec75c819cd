/** The double-buffered clock of `asyncgui_ext.clock`: a logical time, the
    list of pending events and the list of events to be added, which `tick`
    merges, walks once and swaps. */
module Clocks {
  import opened ClockEvents
  import opened TickSpec
  import opened TickFacts
  import opened TickProperties

  lemma DistinctAppend(s: seq<ClockEvent>, x: ClockEvent)
    requires Distinct(s) && x !in s
    ensures Distinct(s + [x])
  {
  }

  /** A clock whose buffers hold the single event `e` touches no other
      event, and its pass starts from the fields `e` has now. */
  lemma SoleEvent(clock: Clock, e: ClockEvent, rs: seq<Reaction>)
    requires clock.pending + clock.incoming == [e]
    ensures forall x :: x in clock.pending || x in clock.incoming ==> x == e
    ensures e in clock.Initial(rs).store && clock.Initial(rs).store[e] == e.State()
  {
    assert forall x :: x in clock.pending || x in clock.incoming ==> x in clock.pending + clock.incoming;
  }

  class Clock {
    var time: Time
    /** `_events`: the events the next tick walks. */
    var pending: seq<ClockEvent>
    /** `_events_to_be_added`: where `schedule_*` put new events, and where a
        tick re-queues the events it keeps. */
    var incoming: seq<ClockEvent>
    /** Every callback invocation so far, in order: what the callbacks
        observe of the clock. The program's `Clock` has no such field; it
        stands for nothing in the program and only records the invocations
        so that the traces can be stated. */
    var log: seq<Firing>

    /** No event is in the buffers twice. */
    ghost predicate Valid()
      reads this
    {
      Distinct(pending + incoming)
    }

    constructor (initialTime: Time := 0)
      ensures time == initialTime && pending == [] && incoming == [] && log == []
      ensures Valid()
    {
      time := initialTime;
      pending := [];
      incoming := [];
      log := [];
    }

    /** The `current_time` property: the time the last tick reached. */
    function CurrentTime(): (t: Time)
      reads this
      ensures t == time
    {
      time
    }

    /** Where the pass of a tick starts: the fields, as they are now, of the
        events of both buffers and of every event the reactions cancel. */
    ghost function Initial(rs: seq<Reaction>): (p: Pass)
      reads this, pending, incoming, Targets(rs)
      ensures p == Start(p.store) && forall x :: x in pending + incoming ==> x in p.store
    {
      Start(Snapshot(Elems(pending + incoming) + Targets(rs)))
    }

    /** The state after a tick that performed the pass `p`, scheduling the
        objects `made`, from time t - dt and firing log `log0`. */
    ghost predicate Settled(p: Pass, made: seq<ClockEvent>, t: Time, log0: seq<Firing>)
      reads this, p.store.Keys
    {
      && time == t
      && incoming == []
      && pending == p.out
      && log == log0 + p.log
      && p.scheduled == |made|
      && Mirrors(p)
    }

    method ScheduleOnce(callback: Callback, delay: Time) returns (e: ClockEvent)
      modifies this
      ensures fresh(e) && e.State() == Ev(time + delay, time, callback, None, false)
      ensures incoming == old(incoming) + [e]
      ensures time == old(time) && pending == old(pending) && log == old(log)
      ensures old(Valid()) ==> Valid()
    {
      e := new ClockEvent(time + delay, time, callback, None);
      if Valid() {
        DistinctAppend(pending + incoming, e);
      }
      incoming := incoming + [e];
      assert pending + incoming == old(pending + incoming) + [e];
    }

    method ScheduleInterval(callback: Callback, interval: Time) returns (e: ClockEvent)
      modifies this
      ensures fresh(e) && e.State() == Ev(time + interval, time, callback, Some(interval), false)
      ensures incoming == old(incoming) + [e]
      ensures time == old(time) && pending == old(pending) && log == old(log)
      ensures old(Valid()) ==> Valid()
    {
      e := new ClockEvent(time + interval, time, callback, Some(interval));
      if Valid() {
        DistinctAppend(pending + incoming, e);
      }
      incoming := incoming + [e];
      assert pending + incoming == old(pending + incoming) + [e];
    }

    /** One effect of a running callback on this clock; `made` holds the
        events callbacks scheduled earlier in this tick. */
    method Perform(effect: Effect, ghost q: Pass, made: seq<ClockEvent>) returns (made': seq<ClockEvent>)
      requires q.scheduled == |made| && Mirrors(q) && incoming == q.out && Distinct(made)
      modifies this, (if effect.Cancel? && effect.target.Existing? then {effect.target.event} else {}), made
      ensures time == old(time) && pending == old(pending) && log == old(log)
      ensures made <= made' && Distinct(made')
      ensures forall k :: |made| <= k < |made'| ==> fresh(made'[k])
      ensures var r := ApplyEffect(q, effect, time, made');
              r.scheduled == |made'| && Mirrors(r) && incoming == r.out
    {
      made' := made;
      match effect
      case Cancel(Existing(x)) =>
        x.Cancel();
      case Cancel(Scheduled(k)) =>
        if k < |made| {
          made[k].Cancel();
        }
      case ScheduleOnce(cb, delay) =>
        var ev := ScheduleOnce(cb, delay);
        made' := made + [ev];
      case ScheduleInterval(cb, interval) =>
        var ev := ScheduleInterval(cb, interval);
        made' := made + [ev];
    }

    /** The effects of a running callback that behaves as `r` says, from
        the pass `q`. */
    method Invoke(r: Reaction, ghost q: Pass, made: seq<ClockEvent>) returns (made': seq<ClockEvent>)
      requires q.scheduled == |made| && Mirrors(q) && incoming == q.out && Distinct(made)
      modifies this, EffectTargets(r.effects), made
      ensures time == old(time) && pending == old(pending) && log == old(log)
      ensures made <= made' && Distinct(made')
      ensures forall k :: |made| <= k < |made'| ==> fresh(made'[k])
      ensures var q' := ApplyEffects(q, r.effects, time, made');
              q'.scheduled == |made'| && Mirrors(q') && incoming == q'.out
    {
      ghost var q' := q;
      made' := made;
      var j := 0;
      while j < |r.effects|
        invariant 0 <= j <= |r.effects|
        invariant q' == ApplyEffects(q, r.effects[..j], time, made')
        invariant time == old(time) && pending == old(pending) && log == old(log)
        invariant made <= made' && Distinct(made')
        invariant forall k :: |made| <= k < |made'| ==> fresh(made'[k])
        invariant q'.scheduled == |made'| && Mirrors(q') && incoming == q'.out
      {
        var effect := r.effects[j];
        if effect.Cancel? && effect.target.Existing? {
          assert effect.target.event in EffectTargets(r.effects);
        }
        ghost var before := made';
        made' := Perform(effect, q', made');
        EffectsStable(q, r.effects[..j], time, before, made');
        assert r.effects[..j + 1][..j] == r.effects[..j] && r.effects[..j + 1][j] == effect;
        q' := ApplyEffect(q', effect, time, made');
        j := j + 1;
      }
      assert r.effects[..j] == r.effects;
    }

    /** `tick` puts a repeating event back into `_events_to_be_added`. */
    method Requeue(e: ClockEvent, cur: Time, ghost q: Pass)
      requires e in q.store && e.interval.Some? && Mirrors(q) && incoming == q.out
      modifies this, e
      ensures time == old(time) && pending == old(pending) && log == old(log)
      ensures var r := Requeued(q, e, e.interval.value, cur); Mirrors(r) && incoming == r.out
    {
      label Before:
      e.Advance(cur);
      incoming := incoming + [e];
      ghost var r := Requeued(q, e, e.interval.value, cur);
      forall x | x in r.store
        ensures x.State() == r.store[x]
      {
        if x != e {
          assert x.State() == old@Before(x.State());
        }
      }
    }

    /** A due event fires: its callback is invoked, and a repeating event
        whose callback did not return False is re-queued. */
    method Fire(e: ClockEvent, cur: Time, rs: seq<Reaction>, k: nat, ghost p: Pass, ghost log0: seq<Firing>, made: seq<ClockEvent>)
      returns (made': seq<ClockEvent>)
      requires e in p.store && !p.store[e].cancelled && p.store[e].deadline <= cur
      requires k == |p.log| && time == cur && log == log0 + p.log
      requires p.scheduled == |made| && Mirrors(p) && incoming == p.out && Distinct(made)
      modifies this, e, EffectTargets(ReactionAt(rs, k).effects), made
      ensures time == old(time) && pending == old(pending)
      ensures made <= made' && Distinct(made')
      ensures forall j :: |made| <= j < |made'| ==> fresh(made'[j])
      ensures var q := Visit(p, e, cur, rs, made');
              && |q.log| == k + 1 && log == log0 + q.log
              && q.scheduled == |made'| && Mirrors(q) && incoming == q.out
    {
      var reaction := ReactionAt(rs, k);
      ghost var ev := e.State();
      ghost var q := p.(log := p.log + [Firing(e, ev.callback, cur - ev.lastTick)]);
      log := log + [Firing(e, e.callback, cur - e.lastTick)];
      made' := Invoke(reaction, q, made);
      ghost var after := ApplyEffects(q, reaction.effects, cur, made');
      assert e in after.store && e.interval == ev.interval;
      if !reaction.returnedFalse && e.interval.Some? {
        Requeue(e, cur, after);
      }
    }

    /** One iteration of the loop of `tick` on the event `e` at time `cur`,
        `k` callbacks having been invoked earlier in the tick. */
    method Step(e: ClockEvent, cur: Time, rs: seq<Reaction>, k: nat, ghost p: Pass, ghost log0: seq<Firing>, made: seq<ClockEvent>)
      returns (k': nat, made': seq<ClockEvent>)
      requires e in p.store && k == |p.log| && time == cur && log == log0 + p.log
      requires p.scheduled == |made| && Mirrors(p) && incoming == p.out && Distinct(made)
      modifies this, e, EffectTargets(ReactionAt(rs, k).effects), made
      ensures time == old(time) && pending == old(pending)
      ensures made <= made' && Distinct(made')
      ensures forall j :: |made| <= j < |made'| ==> fresh(made'[j])
      ensures var q := Visit(p, e, cur, rs, made');
              && k' == |q.log| && log == log0 + q.log
              && q.scheduled == |made'| && Mirrors(q) && incoming == q.out
    {
      k', made' := k, made;
      assert e.State() == p.store[e];
      if e.cancelled {
      } else if e.deadline > cur {
        incoming := incoming + [e];
      } else {
        made' := Fire(e, cur, rs, k, p, log0, made);
        k' := k + 1;
      }
    }

    /** The loop of `tick`: visits `events`, the merged buffer, in order. */
    method Walk(events: seq<ClockEvent>, cur: Time, rs: seq<Reaction>, ghost p0: Pass) returns (made: seq<ClockEvent>)
      requires p0 == Start(p0.store) && forall x :: x in events ==> x in p0.store
      requires Targets(rs) <= p0.store.Keys && Mirrors(p0)
      requires time == cur && incoming == []
      modifies this, Elems(events), Targets(rs)
      ensures time == old(time) && pending == old(pending)
      ensures Distinct(made) && forall k :: 0 <= k < |made| ==> fresh(made[k])
      ensures var p := Run(p0, events, cur, rs, made);
              && log == old(log) + p.log && p.scheduled == |made| && Mirrors(p) && incoming == p.out
    {
      ghost var log0 := log;
      ghost var p := p0;
      made := [];
      var k := 0;
      var i := 0;
      while i < |events|
        invariant 0 <= i <= |events| && time == cur && pending == old(pending)
        invariant p == Run(p0, events[..i], cur, rs, made)
        invariant k == |p.log| && log == log0 + p.log
        invariant Distinct(made) && forall j :: 0 <= j < |made| ==> fresh(made[j])
        invariant p.scheduled == |made| && Mirrors(p) && incoming == p.out
      {
        assert events[..i + 1][..i] == events[..i];
        var e := events[i];
        if k >= |rs| {
          assert EffectTargets(ReactionAt(rs, k).effects) == {};
        }
        ghost var before := made;
        k, made := Step(e, cur, rs, k, p, log0, made);
        RunStable(p0, events[..i], cur, rs, before, made);
        p := Visit(p, e, cur, rs, made);
        i := i + 1;
      }
      assert events[..i] == events;
    }

    /** `tick(delta_time)`: advance the time, merge the incoming buffer into
        the pending one, visit each of its events once, in order, and swap
        the buffers. The k-th callback invoked reacts as `rs[k]`; the events
        the callbacks schedule are returned, in scheduling order, and `pass`
        is the pass the tick performed. */
    method Tick(dt: Time, rs: seq<Reaction>) returns (made: seq<ClockEvent>, ghost pass: Pass)
      requires Valid()
      modifies this, pending, incoming, Targets(rs)
      ensures pass == Run(old(Initial(rs)), old(pending + incoming), old(time) + dt, rs, made)
      ensures Settled(pass, made, old(time) + dt, old(log))
      ensures Distinct(made) && forall k :: 0 <= k < |made| ==> fresh(made[k])
      ensures forall y :: y in old(pending + incoming) ==> y !in made
      ensures Valid()
    {
      ghost var p0 := old(Initial(rs));
      time := time + dt;
      if incoming != [] {
        pending := pending + incoming;
        incoming := [];
      }
      assert pending == old(pending + incoming);
      made, pass := Sweep(rs, p0);
    }

    /** The loop of `tick` over the merged buffer `pending`, and the swap
        that ends it. */
    method Sweep(rs: seq<Reaction>, ghost p0: Pass) returns (made: seq<ClockEvent>, ghost pass: Pass)
      requires p0 == Start(p0.store) && forall x :: x in pending ==> x in p0.store
      requires Targets(rs) <= p0.store.Keys && Mirrors(p0)
      requires incoming == [] && Distinct(pending)
      modifies this, Elems(pending), Targets(rs)
      ensures pass == Run(p0, old(pending), time, rs, made)
      ensures Settled(pass, made, old(time), old(log))
      ensures Distinct(made) && forall k :: 0 <= k < |made| ==> fresh(made[k])
      ensures forall y :: y in old(pending) ==> y !in made
      ensures Valid()
    {
      made := Walk(pending, time, rs, p0);
      pass := Run(p0, pending, time, rs, made);
      assert Mirrors(pass);
      forall y | y in pending ensures y !in made {
        assert !fresh(y);
      }
      PassWellFormed(p0.store, pending, time, rs, made);
      Swap();
      assert Mirrors(pass);
    }

    /** The end of `tick`: the buffer built during the pass becomes `_events`,
        and the emptied one becomes `_events_to_be_added`. */
    method Swap()
      modifies this
      ensures pending == old(incoming) && incoming == []
      ensures time == old(time) && log == old(log)
    {
      pending, incoming := incoming, [];
    }
  }

  /** A tick of a clock with no events: only the time moves. */
  method EmptyTick(clock: Clock, dt: Time)
    requires clock.pending == [] && clock.incoming == []
    modifies clock
    ensures clock.time == old(clock.time) + dt && clock.Valid()
    ensures clock.pending == [] && clock.incoming == [] && clock.log == old(clock.log)
  {
    ghost var p0 := clock.Initial([]);
    var made, pass := clock.Tick(dt, []);
    assert made == [];
  }
}
