/** `n_frames(clock, n)`: a task waits for n ticks through a zero-interval
    event whose callback counts down a shared counter. The task itself is
    represented by a flag that the callback sets where it would resume the
    task. */
module Frames {
  import opened ClockEvents
  import opened TickSpec
  import opened TickFacts
  import opened TickProperties
  import opened Clocks

  /** What `n_frames` does before the first tick: raise `ValueError`, return
      at once, or wait on the event it scheduled. */
  datatype FrameWait = InvalidCount | Immediate | Waiting(event: ClockEvent)

  /** The state shared by the waiting task and its callback: the `nonlocal n`
      and whether the callback has resumed the task. */
  class FrameCounter {
    var remaining: int
    var resumed: bool

    constructor (n: int)
      ensures remaining == n && !resumed
    {
      remaining := n;
      resumed := false;
    }

    /** The callback of the event `e`: decrement the counter; on reaching 0,
        resume the task, which leaves its `try` and cancels `e` in the
        `finally`, and return False. Otherwise return None. */
    method OnTick(e: ClockEvent) returns (r: Reaction)
      modifies this
      ensures remaining == old(remaining) - 1
      ensures resumed == (old(resumed) || remaining == 0)
      ensures r == (if remaining == 0 then Reaction(true, [Cancel(Existing(e))]) else Reaction(false, []))
    {
      remaining := remaining - 1;
      if remaining == 0 {
        resumed := true;
        r := Reaction(true, [Cancel(Existing(e))]);
      } else {
        r := Reaction(false, []);
      }
    }
  }

  /** `n_frames(clock, n)` up to the point where the task suspends. */
  method NFrames(clock: Clock, n: int, callback: Callback) returns (w: FrameWait)
    modifies clock
    ensures n < 0 ==> w == InvalidCount
    ensures n == 0 ==> w == Immediate
    ensures n <= 0 ==> clock.incoming == old(clock.incoming)
    ensures n > 0 ==> && w.Waiting? && fresh(w.event)
                      && w.event.State() == Ev(clock.time + 0, clock.time, callback, Some(0), false)
                      && clock.incoming == old(clock.incoming) + [w.event]
    ensures clock.time == old(clock.time) && clock.pending == old(clock.pending) && clock.log == old(clock.log)
    ensures old(clock.Valid()) ==> clock.Valid()
  {
    if n < 0 {
      w := InvalidCount;
    } else if n == 0 {
      w := Immediate;
    } else {
      var e := clock.ScheduleInterval(callback, 0);
      w := Waiting(e);
    }
  }

  /** The pass `r` of a tick whose only event is the zero-interval event
      `e` of `n_frames`, scheduled with deadline d and last fired (or
      scheduled) at t >= d, with fields `s` when the tick begins and
      dt >= 0: its callback is invoked once, with elapsed time dt, and
      schedules nothing. If it returns None the event is kept and stays due,
      measuring elapsed time from now; if it cancels the event and returns
      False, the rebuilt buffer is empty. The pass and its result are pinned
      by `requires` (`r == Run(...)`) so that `CountedTick` applies the
      lemma to the pass `Clock.Tick` hands back without unfolding `Run`. */
  lemma FrameTick(p: Pass, b: seq<ClockEvent>, cur: Time, rs: seq<Reaction>, ids: seq<ClockEvent>, r: Pass,
                  s: map<ClockEvent, Ev>, e: ClockEvent, d: Time, t: Time, dt: Time, callback: Callback, reaction: Reaction)
    requires e in s && s[e] == Ev(d, t, callback, Some(0), false) && d <= t && 0 <= dt
    requires reaction == Reaction(false, []) || reaction == Reaction(true, [Cancel(Existing(e))])
    requires p == Start(s) && b == [e] && cur == t + dt && rs == [reaction]
    requires forall x :: x in b ==> x in p.store
    requires r == Run(p, b, cur, rs, ids)
    ensures && r.scheduled == 0 && r.log == [Firing(e, callback, dt)] && e in r.store
            && (!reaction.returnedFalse ==> r.out == [e] && r.store[e] == Ev(d, cur, callback, Some(0), false))
            && (reaction.returnedFalse ==> r.out == [] && r.store[e].cancelled)
  {
    assert [e][..0] == [];
    assert Run(Start(s), [e], cur, rs, ids) == Visit(Start(s), e, cur, rs, ids);
    assert ReactionAt(rs, 0) == reaction;
    var q := Start(s).(log := Start(s).log + [Firing(e, callback, cur - t)]);
    assert q.log == [Firing(e, callback, dt)];
    if reaction.returnedFalse {
      assert reaction.effects[..0] == [];
      assert ApplyEffects(q, reaction.effects, cur, ids) == CancelIn(q, e);
    }
  }

  /** The zero-interval event `b[i]` of `n_frames`, with deadline d <= cur,
      in a tick among any other events. Either a callback of the tick
      cancelled it before the walk reached it, and then it does not fire and
      is dropped; or it fires exactly once, at position j of the log, with
      the time since it last fired. Then it is kept exactly when its callback
      did not return False, and if kept its deadline is still d, so it is due
      again at the next tick, with elapsed time measured from now (a later
      callback may still cancel it). When its callback is the one that
      resumes the task, which cancels it and returns False, it leaves the
      tick cancelled and out of the rebuilt buffer. */
  lemma FrameAmong(s: map<ClockEvent, Ev>, b: seq<ClockEvent>, i: nat, cur: Time, rs: seq<Reaction>, ids: seq<ClockEvent>,
                   d: Time, t: Time, callback: Callback)
    returns (fired: bool, j: nat)
    requires WellFormed(s, b, cur, rs, ids) && i < |b|
    requires s[b[i]] == Ev(d, t, callback, Some(0), false) && d <= cur
    ensures var r := Run(Start(s), b, cur, rs, ids); var x := b[i];
            && (!fired ==> && x in Targets(rs) && r.store[x].cancelled && x !in r.out
                           && forall k :: 0 <= k < |r.log| ==> r.log[k].event != x)
            && (fired ==> && j < |r.log| && r.log[j] == Firing(x, callback, cur - t)
                          && (forall k :: 0 <= k < |r.log| && r.log[k].event == x ==> k == j)
                          && (x in r.out <==> !ReactionAt(rs, j).returnedFalse)
                          && (x in r.out ==> CancelledOrSame(Ev(d, cur, callback, Some(0), false), r.store[x]))
                          && (ReactionAt(rs, j) == Reaction(true, [Cancel(Existing(x))]) ==> r.store[x].cancelled && x !in r.out))
  {
    var x := b[i];
    DistinctParts(b, ids);
    FateStore(Start(s), b, i, cur, rs, ids);
    FateFires(Start(s), b, i, cur, rs, ids);
    FateOnce(Start(s), b, i, cur, rs, ids);
    FateOut(Start(s), b, i, cur, rs, ids);
    var q := Run(Start(s), b[..i], cur, rs, ids);
    fired := !q.store[x].cancelled;
    j := |q.log|;
    if fired && ReactionAt(rs, j) == Reaction(true, [Cancel(Existing(x))]) {
      RunAround(Start(s), b, i, cur, rs, ids);
      DistinctAt(b, i);
      assert Cancel(Existing(x)) in ReactionAt(rs, j).effects;
      VisitCancels(q, x, cur, rs, ids, x);
      RunOther(Visit(q, x, cur, rs, ids), b[i + 1..], cur, rs, ids, x);
    }
  }

  /** A tick of a clock whose only event is the one `n_frames` scheduled,
      before the task resumes: the callback reacts as the counter said. */
  method CountedTick(clock: Clock, e: ClockEvent, callback: Callback, dt: Time, reaction: Reaction) returns (ghost pass: Pass)
    requires dt >= 0 && clock.Valid() && e.deadline <= clock.time
    requires clock.pending + clock.incoming == [e] && e.State() == Ev(e.deadline, clock.time, callback, Some(0), false)
    requires reaction == Reaction(false, []) || reaction == Reaction(true, [Cancel(Existing(e))])
    modifies clock, e
    ensures clock.Valid() && clock.time == old(clock.time) + dt
    ensures clock.log == old(clock.log) + [Firing(e, callback, dt)]
    ensures e in pass.store && e.State() == pass.store[e] && clock.pending == pass.out && clock.incoming == []
    ensures !reaction.returnedFalse ==> pass.out == [e] && pass.store[e] == Ev(old(e.deadline), clock.time, callback, Some(0), false)
    ensures reaction.returnedFalse ==> pass.out == [] && pass.store[e].cancelled
  {
    ghost var t0 := clock.time;
    ghost var d := e.deadline;
    ghost var batch := clock.pending + clock.incoming;
    ghost var p0 := clock.Initial([reaction]);
    SoleEvent(clock, e, [reaction]);
    assert Targets([reaction]) <= {e} by {
      assert forall x :: x in EffectTargets(reaction.effects) ==> x == e;
    }
    var made;
    made, pass := clock.Tick(dt, [reaction]);
    FrameTick(p0, batch, t0 + dt, [reaction], made, pass, p0.store, e, d, t0, dt, callback, reaction);
    assert e.State() == pass.store[e];
  }

  /** `n_frames(clock, n)` awaited on a clock, at whatever time it has
      reached, whose buffers hold no event, the clock then being ticked by
      `dts`, each dt at least 0. The task resumes exactly at the n-th tick
      (or at once for n = 0), the callback is invoked once per tick up to
      and including that one with that tick's elapsed time, and afterwards
      the event is cancelled and both buffers are empty. */
  method AwaitFrames(clock: Clock, n: int, callback: Callback, dts: seq<Time>) returns (w: FrameWait, resumedAt: Option<nat>, firings: seq<Firing>)
    requires clock.pending == [] && clock.incoming == []
    requires forall k :: 0 <= k < |dts| ==> dts[k] >= 0
    modifies clock
    ensures n < 0 <==> w == InvalidCount
    ensures n == 0 <==> w == Immediate
    ensures n <= 0 ==> resumedAt == (if n == 0 then Some(0) else None) && firings == []
    ensures n <= 0 ==> clock.pending == [] && clock.incoming == []
    ensures n >= 0 ==> resumedAt == (if n <= |dts| then Some(n) else None)
    ensures n > 0 ==> w.Waiting? && fresh(w.event)
    ensures |firings| == (if n <= 0 then 0 else if n <= |dts| then n else |dts|)
    ensures forall k :: 0 <= k < |firings| ==> firings[k] == Firing(w.event, callback, dts[k])
    ensures clock.log == old(clock.log) + firings
    ensures n > 0 && n <= |dts| ==> clock.pending == [] && clock.incoming == [] && w.event.cancelled
    ensures n > |dts| ==> clock.pending + clock.incoming == [w.event] && !w.event.cancelled
  {
    var log0 := clock.log;
    w := NFrames(clock, n, callback);
    if n < 0 {
      return w, None, [];
    }
    if n == 0 {
      return w, Some(0), [];
    }
    var e := w.event;
    var counter := new FrameCounter(n);
    resumedAt := None;
    var i := 0;
    while i < |dts|
      invariant 0 <= i <= |dts| && clock.Valid()
      invariant i < n ==> && resumedAt == None && e.deadline <= clock.time && counter.remaining == n - i && !counter.resumed
                          && clock.pending + clock.incoming == [e]
                          && e.State() == Ev(e.deadline, clock.time, callback, Some(0), false)
      invariant i >= n ==> && resumedAt == Some(n)
                           && clock.pending == [] && clock.incoming == [] && e.cancelled
      invariant |clock.log| == |log0| + (if i <= n then i else n)
      invariant clock.log[..|log0|] == log0
      invariant forall k :: 0 <= k < |clock.log| - |log0| ==> clock.log[|log0| + k] == Firing(e, callback, dts[k])
    {
      if i < n {
        var reaction := counter.OnTick(e);
        ghost var pass := CountedTick(clock, e, callback, dts[i], reaction);
        if counter.resumed {
          resumedAt := Some(i + 1);
        }
      } else {
        EmptyTick(clock, dts[i]);
      }
      i := i + 1;
    }
    firings := clock.log[|log0|..];
    assert clock.log == clock.log[..|log0|] + firings;
  }

  /** `n_frames(clock, n)` awaited on a new `Clock(start)` that is then
      ticked by `dts`. */
  method WaitFrames(start: Time, n: int, callback: Callback, dts: seq<Time>) returns (w: FrameWait, resumedAt: Option<nat>, firings: seq<Firing>, buffered: seq<ClockEvent>)
    requires forall k :: 0 <= k < |dts| ==> dts[k] >= 0
    ensures n < 0 <==> w == InvalidCount
    ensures n == 0 <==> w == Immediate
    ensures n < 0 ==> resumedAt == None && firings == []
    ensures n <= 0 ==> buffered == []
    ensures n >= 0 ==> resumedAt == (if n <= |dts| then Some(n) else None)
    ensures n > 0 ==> w.Waiting?
    ensures |firings| == (if n <= 0 then 0 else if n <= |dts| then n else |dts|)
    ensures forall k :: 0 <= k < |firings| ==> firings[k] == Firing(w.event, callback, dts[k])
    ensures n > 0 && n <= |dts| ==> buffered == [] && w.event.cancelled
    ensures n > |dts| ==> buffered == [w.event] && !w.event.cancelled
  {
    var clock := new Clock(start);
    w, resumedAt, firings := AwaitFrames(clock, n, callback, dts);
    buffered := clock.pending + clock.incoming;
  }
}
