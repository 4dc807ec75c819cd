/** What one call of `Clock.tick` does, as functions on values.

    A pass starts from a snapshot of every event it may touch (the events of
    both buffers, and the events the callbacks cancel) and visits the merged
    buffer once, in order. The buffer it builds for the next tick is a
    sequence of events; the k-th event a callback schedules during the pass is
    the k-th object of a given sequence `ids`, standing for the objects that
    allocation hands out. */
module TickSpec {
  import opened ClockEvents

  /** The event a callback cancels: one that existed when the tick began, or
      the k-th event scheduled by a callback earlier in the same tick. */
  datatype Target = Existing(event: ClockEvent) | Scheduled(index: nat)

  /** What a callback may do to its clock while it runs. */
  datatype Effect =
    | Cancel(target: Target)
    | ScheduleOnce(callback: Callback, delay: Time)
    | ScheduleInterval(callback: Callback, interval: Time)

  /** How one invocation of a callback behaves: whether it returned `False`
      (the only return value the clock looks at), and what it did. */
  datatype Reaction = Reaction(returnedFalse: bool, effects: seq<Effect>)

  /** The k-th callback invoked during a tick reacts with `rs[k]`; past the end
      of `rs` a callback returns None and does nothing. */
  function ReactionAt(rs: seq<Reaction>, k: nat): Reaction
  {
    if k < |rs| then rs[k] else Reaction(false, [])
  }

  function EffectTargets(effects: seq<Effect>): set<ClockEvent>
  {
    set j | 0 <= j < |effects| && effects[j].Cancel? && effects[j].target.Existing? :: effects[j].target.event
  }

  /** Every pre-existing event some reaction cancels. */
  function Targets(rs: seq<Reaction>): (ts: set<ClockEvent>)
    ensures forall k :: 0 <= k < |rs| ==> EffectTargets(rs[k].effects) <= ts
  {
    set k, x | 0 <= k < |rs| && x in EffectTargets(rs[k].effects) :: x
  }

  /** One invocation of a callback: the event, the callback object stored in
      it at that moment, and the elapsed time it was given. */
  datatype Firing = Firing(event: ClockEvent, callback: Callback, dt: Time)

  /** The state of a pass: the fields of every event it tracks, the buffer it
      is building (`_events_to_be_added`), the callbacks invoked so far and
      the number of `schedule_*` calls the callbacks made. */
  datatype Pass = Pass(store: map<ClockEvent, Ev>, out: seq<ClockEvent>, log: seq<Firing>, scheduled: nat)

  function Start(store: map<ClockEvent, Ev>): Pass
  {
    Pass(store, [], [], 0)
  }

  /** `b` is `a`, except that it may have been cancelled since. */
  predicate CancelledOrSame(a: Ev, b: Ev)
  {
    b == a || b == a.(cancelled := true)
  }

  /** `schedule_once`/`schedule_interval` called by a callback. The k-th call
      of the pass creates the object `ids[k]` (the objects allocation hands
      out), which is appended to the buffer being built and so lands after
      every event appended before it. */
  function Schedule(p: Pass, ev: Ev, ids: seq<ClockEvent>): (r: Pass)
    ensures r.log == p.log && r.scheduled == p.scheduled + 1
    ensures p.scheduled < |ids| ==>
              var x := ids[p.scheduled];
              && r.store.Keys == p.store.Keys + {x} && r.store[x] == ev && r.out == p.out + [x]
    ensures |ids| <= p.scheduled ==> r.store == p.store && r.out == p.out
  {
    var k := p.scheduled;
    if k < |ids| then
      p.(store := p.store[ids[k] := ev], out := p.out + [ids[k]], scheduled := k + 1)
    else
      p.(scheduled := k + 1)
  }

  /** `cancel` on the object `x`: its flag is set, nothing else changes. */
  function CancelIn(p: Pass, x: ClockEvent): (r: Pass)
    ensures r.store.Keys == p.store.Keys && r.out == p.out && r.log == p.log && r.scheduled == p.scheduled
    ensures x in p.store ==> r.store[x] == p.store[x].(cancelled := true)
  {
    if x in p.store then p.(store := p.store[x := p.store[x].(cancelled := true)]) else p
  }

  function ApplyEffect(p: Pass, effect: Effect, cur: Time, ids: seq<ClockEvent>): (r: Pass)
    ensures p.store.Keys <= r.store.Keys && r.log == p.log && p.scheduled <= r.scheduled
  {
    match effect
    case Cancel(Existing(x)) =>
      CancelIn(p, x)
    case Cancel(Scheduled(k)) =>
      if k < p.scheduled && k < |ids| then CancelIn(p, ids[k]) else p
    case ScheduleOnce(cb, delay) =>
      Schedule(p, Ev(cur + delay, cur, cb, None, false), ids)
    case ScheduleInterval(cb, interval) =>
      Schedule(p, Ev(cur + interval, cur, cb, Some(interval), false), ids)
  }

  /** The effects of one callback invocation, in the order it performs them. */
  function ApplyEffects(p: Pass, effects: seq<Effect>, cur: Time, ids: seq<ClockEvent>): (r: Pass)
    decreases |effects|
    ensures p.store.Keys <= r.store.Keys && r.log == p.log && p.scheduled <= r.scheduled
  {
    if effects == [] then
      p
    else
      ApplyEffect(ApplyEffects(p, effects[..|effects| - 1], cur, ids), effects[|effects| - 1], cur, ids)
  }

  /** A repeating event whose callback did not return False goes back into
      the buffer being built, due one interval after the deadline it reached
      and measuring elapsed time from `cur`. */
  function Requeued(p: Pass, x: ClockEvent, interval: Time, cur: Time): (r: Pass)
    requires x in p.store
    ensures r.store.Keys == p.store.Keys && r.scheduled == p.scheduled
  {
    var now := p.store[x];
    p.(store := p.store[x := now.(deadline := now.deadline + interval, lastTick := cur)], out := p.out + [x])
  }

  /** One iteration of the loop of `tick` on the event `x`, the pass having
      invoked |p.log| callbacks so far. */
  function Visit(p: Pass, x: ClockEvent, cur: Time, rs: seq<Reaction>, ids: seq<ClockEvent>): (r: Pass)
    requires x in p.store
    ensures p.store.Keys <= r.store.Keys && p.scheduled <= r.scheduled
  {
    var ev := p.store[x];
    if ev.cancelled then
      p
    else if ev.deadline > cur then
      p.(out := p.out + [x])
    else
      var reaction := ReactionAt(rs, |p.log|);
      var after := ApplyEffects(p.(log := p.log + [Firing(x, ev.callback, cur - ev.lastTick)]), reaction.effects, cur, ids);
      if reaction.returnedFalse || ev.interval.None? then after else Requeued(after, x, ev.interval.value, cur)
  }

  /** The loop of `tick` over `batch` (the merged buffer), up to its end. */
  function Run(p: Pass, batch: seq<ClockEvent>, cur: Time, rs: seq<Reaction>, ids: seq<ClockEvent>): (r: Pass)
    requires forall x :: x in batch ==> x in p.store
    decreases |batch|
    ensures p.store.Keys <= r.store.Keys && p.scheduled <= r.scheduled
  {
    if batch == [] then
      p
    else
      Visit(Run(p, batch[..|batch| - 1], cur, rs, ids), batch[|batch| - 1], cur, rs, ids)
  }

  /** Handing out more objects changes nothing for a pass that did not run
      out of them. */
  lemma EffectStable(p: Pass, effect: Effect, cur: Time, ids: seq<ClockEvent>, ids': seq<ClockEvent>)
    requires ids <= ids' && ApplyEffect(p, effect, cur, ids).scheduled <= |ids|
    ensures ApplyEffect(p, effect, cur, ids') == ApplyEffect(p, effect, cur, ids)
  {
  }

  lemma {:induction false} EffectsStable(p: Pass, effects: seq<Effect>, cur: Time, ids: seq<ClockEvent>, ids': seq<ClockEvent>)
    requires ids <= ids' && ApplyEffects(p, effects, cur, ids).scheduled <= |ids|
    decreases |effects|
    ensures ApplyEffects(p, effects, cur, ids') == ApplyEffects(p, effects, cur, ids)
  {
    if effects != [] {
      var init := effects[..|effects| - 1];
      EffectsStable(p, init, cur, ids, ids');
      EffectStable(ApplyEffects(p, init, cur, ids), effects[|effects| - 1], cur, ids, ids');
    }
  }

  lemma VisitStable(p: Pass, x: ClockEvent, cur: Time, rs: seq<Reaction>, ids: seq<ClockEvent>, ids': seq<ClockEvent>)
    requires x in p.store && ids <= ids' && Visit(p, x, cur, rs, ids).scheduled <= |ids|
    ensures Visit(p, x, cur, rs, ids') == Visit(p, x, cur, rs, ids)
  {
    var ev := p.store[x];
    if !ev.cancelled && ev.deadline <= cur {
      var reaction := ReactionAt(rs, |p.log|);
      EffectsStable(p.(log := p.log + [Firing(x, ev.callback, cur - ev.lastTick)]), reaction.effects, cur, ids, ids');
    }
  }

  lemma {:induction false} RunStable(p: Pass, batch: seq<ClockEvent>, cur: Time, rs: seq<Reaction>, ids: seq<ClockEvent>, ids': seq<ClockEvent>)
    requires forall x :: x in batch ==> x in p.store
    requires ids <= ids' && Run(p, batch, cur, rs, ids).scheduled <= |ids|
    decreases |batch|
    ensures Run(p, batch, cur, rs, ids') == Run(p, batch, cur, rs, ids)
  {
    if batch != [] {
      var init := batch[..|batch| - 1];
      assert forall x :: x in init ==> x in batch;
      RunStable(p, init, cur, rs, ids, ids');
      VisitStable(Run(p, init, cur, rs, ids), batch[|batch| - 1], cur, rs, ids, ids');
    }
  }

  /** The heap agrees with the pass: every event it tracks holds the fields
      the pass says. */
  ghost predicate Mirrors(p: Pass)
    reads p.store.Keys
  {
    forall x {:trigger x.State()} :: x in p.store ==> x.State() == p.store[x]
  }

  /** The fields of the given events, as they are now. */
  ghost function Snapshot(objs: set<ClockEvent>): (m: map<ClockEvent, Ev>)
    reads objs
    ensures m.Keys == objs
    ensures forall x :: x in objs ==> m[x] == x.State()
  {
    map x | x in objs :: x.State()
  }
}
