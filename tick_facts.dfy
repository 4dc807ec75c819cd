/** What one pass of `tick` guarantees, proved about the functions of
    TickSpec: the order in which callbacks run, the contents and order of the
    buffer it builds, and the fate of every event it visits. */
module TickFacts {
  import opened ClockEvents
  import opened TickSpec

  function Elems(s: seq<ClockEvent>): set<ClockEvent>
  {
    set x | x in s
  }

  lemma ElemsSplit(s: seq<ClockEvent>, a: nat, b: nat, c: nat)
    requires a <= b <= c <= |s|
    ensures s[a..c] == s[a..b] + s[b..c]
    ensures Elems(s[a..c]) == Elems(s[a..b]) + Elems(s[b..c])
  {
    assert s[a..c] == s[a..b] + s[b..c];
  }

  /** One effect appends exactly the event it schedules, if any. */
  lemma EffectOut(p: Pass, effect: Effect, cur: Time, ids: seq<ClockEvent>)
    requires ApplyEffect(p, effect, cur, ids).scheduled <= |ids|
    ensures var r := ApplyEffect(p, effect, cur, ids);
            && r.out == p.out + ids[p.scheduled..r.scheduled]
            && r.store.Keys == p.store.Keys + Elems(ids[p.scheduled..r.scheduled])
  {
    var r := ApplyEffect(p, effect, cur, ids);
    if r.scheduled == p.scheduled {
      assert ids[p.scheduled..r.scheduled] == [];
    } else {
      assert ids[p.scheduled..r.scheduled] == [ids[p.scheduled]];
    }
  }

  /** One effect changes no event other than the one it schedules, except
      to cancel the event it names. */
  lemma EffectStore(p: Pass, effect: Effect, cur: Time, ids: seq<ClockEvent>, y: ClockEvent)
    requires y in p.store && y !in ids
    ensures var r := ApplyEffect(p, effect, cur, ids);
            && CancelledOrSame(p.store[y], r.store[y])
            && (!(effect.Cancel? && effect.target == Existing(y)) ==> r.store[y] == p.store[y])
  {
  }

  /** The effects of one callback append exactly the events they schedule,
      in scheduling order. */
  lemma {:induction false} EffectsOut(p: Pass, effects: seq<Effect>, cur: Time, ids: seq<ClockEvent>)
    requires ApplyEffects(p, effects, cur, ids).scheduled <= |ids|
    decreases |effects|
    ensures var r := ApplyEffects(p, effects, cur, ids);
            && r.out == p.out + ids[p.scheduled..r.scheduled]
            && r.store.Keys == p.store.Keys + Elems(ids[p.scheduled..r.scheduled])
  {
    if effects != [] {
      var init := effects[..|effects| - 1];
      var q := ApplyEffects(p, init, cur, ids);
      EffectsOut(p, init, cur, ids);
      EffectOut(q, effects[|effects| - 1], cur, ids);
      var r := ApplyEffect(q, effects[|effects| - 1], cur, ids);
      ElemsSplit(ids, p.scheduled, q.scheduled, r.scheduled);
    }
  }

  lemma EffectTargetsInit(effects: seq<Effect>)
    requires effects != []
    ensures EffectTargets(effects[..|effects| - 1]) <= EffectTargets(effects)
  {
    var init := effects[..|effects| - 1];
    forall y | y in EffectTargets(init) ensures y in EffectTargets(effects) {
      var j :| 0 <= j < |init| && init[j].Cancel? && init[j].target.Existing? && init[j].target.event == y;
      assert effects[j] == init[j];
    }
  }

  /** The effects of one callback touch no event other than those they
      schedule, except to cancel the events they name. */
  lemma {:induction false} EffectsStore(p: Pass, effects: seq<Effect>, cur: Time, ids: seq<ClockEvent>, y: ClockEvent)
    requires y in p.store && y !in ids
    decreases |effects|
    ensures var r := ApplyEffects(p, effects, cur, ids);
            && CancelledOrSame(p.store[y], r.store[y])
            && (y !in EffectTargets(effects) ==> r.store[y] == p.store[y])
  {
    if effects != [] {
      var init := effects[..|effects| - 1];
      var effect := effects[|effects| - 1];
      EffectsStore(p, init, cur, ids, y);
      EffectStore(ApplyEffects(p, init, cur, ids), effect, cur, ids, y);
      EffectTargetsInit(effects);
      if effect.Cancel? && effect.target == Existing(y) {
        assert y in EffectTargets(effects);
      }
    }
  }

  /** A callback that calls `cancel` on an event that existed before the
      tick leaves it cancelled, whatever else it does. */
  lemma {:induction false} EffectsCancel(p: Pass, effects: seq<Effect>, cur: Time, ids: seq<ClockEvent>, y: ClockEvent)
    requires y in p.store && y !in ids && Cancel(Existing(y)) in effects
    decreases |effects|
    ensures ApplyEffects(p, effects, cur, ids).store[y].cancelled
  {
    var init := effects[..|effects| - 1];
    var last := effects[|effects| - 1];
    var q := ApplyEffects(p, init, cur, ids);
    if last != Cancel(Existing(y)) {
      assert effects == init + [last];
      EffectsCancel(p, init, cur, ids, y);
      EffectStore(q, last, cur, ids, y);
    }
  }

  /** The visit fires the event: it is neither cancelled nor in the future. */
  predicate Due(ev: Ev, cur: Time)
  {
    !ev.cancelled && ev.deadline <= cur
  }

  /** The visit puts the event back into the buffer being built. */
  predicate Kept(ev: Ev, cur: Time, reaction: Reaction)
  {
    !ev.cancelled && (ev.deadline > cur || (!reaction.returnedFalse && ev.interval.Some?))
  }

  /** The fields a visit leaves in a kept event, before any cancellation. */
  function Expected(ev: Ev, cur: Time, reaction: Reaction): Ev
  {
    if Due(ev, cur) && Kept(ev, cur, reaction) then
      ev.(deadline := ev.deadline + ev.interval.value, lastTick := cur)
    else
      ev
  }

  lemma ReactionTargets(rs: seq<Reaction>, k: nat)
    ensures EffectTargets(ReactionAt(rs, k).effects) <= Targets(rs)
  {
    if k >= |rs| {
      assert EffectTargets(ReactionAt(rs, k).effects) == {};
    }
  }

  /** A visit logs one firing exactly when the event is due, with the
      callback stored in it and the time elapsed since it last fired. */
  lemma VisitLog(p: Pass, x: ClockEvent, cur: Time, rs: seq<Reaction>, ids: seq<ClockEvent>)
    requires x in p.store
    ensures var ev := p.store[x];
            Visit(p, x, cur, rs, ids).log ==
              p.log + (if Due(ev, cur) then [Firing(x, ev.callback, cur - ev.lastTick)] else [])
  {
  }

  /** A visit appends the events the callback schedules, then the visited
      event if it is kept. */
  lemma VisitOut(p: Pass, x: ClockEvent, cur: Time, rs: seq<Reaction>, ids: seq<ClockEvent>)
    requires x in p.store && Visit(p, x, cur, rs, ids).scheduled <= |ids|
    ensures var v := Visit(p, x, cur, rs, ids);
            && v.out == p.out + ids[p.scheduled..v.scheduled]
                 + (if Kept(p.store[x], cur, ReactionAt(rs, |p.log|)) then [x] else [])
            && v.store.Keys == p.store.Keys + Elems(ids[p.scheduled..v.scheduled])
  {
    var ev := p.store[x];
    if Due(ev, cur) {
      var reaction := ReactionAt(rs, |p.log|);
      EffectsOut(p.(log := p.log + [Firing(x, ev.callback, cur - ev.lastTick)]), reaction.effects, cur, ids);
    } else {
      assert ids[p.scheduled..p.scheduled] == [];
    }
  }

  /** A visit leaves every other event as it was, except that a callback may
      cancel it. */
  lemma VisitOther(p: Pass, x: ClockEvent, cur: Time, rs: seq<Reaction>, ids: seq<ClockEvent>, y: ClockEvent)
    requires x in p.store && y in p.store && y != x && y !in ids
    ensures var v := Visit(p, x, cur, rs, ids);
            && CancelledOrSame(p.store[y], v.store[y])
            && (y !in Targets(rs) ==> v.store[y] == p.store[y])
  {
    var ev := p.store[x];
    if Due(ev, cur) {
      var reaction := ReactionAt(rs, |p.log|);
      EffectsStore(p.(log := p.log + [Firing(x, ev.callback, cur - ev.lastTick)]), reaction.effects, cur, ids, y);
      ReactionTargets(rs, |p.log|);
    }
  }

  /** What a visit does to the visited event itself. */
  lemma VisitSelf(p: Pass, x: ClockEvent, cur: Time, rs: seq<Reaction>, ids: seq<ClockEvent>)
    requires x in p.store && x !in ids
    ensures var v := Visit(p, x, cur, rs, ids);
            var expected := Expected(p.store[x], cur, ReactionAt(rs, |p.log|));
            && CancelledOrSame(expected, v.store[x])
            && (x !in Targets(rs) ==> v.store[x] == expected)
  {
    var ev := p.store[x];
    if Due(ev, cur) {
      var reaction := ReactionAt(rs, |p.log|);
      EffectsStore(p.(log := p.log + [Firing(x, ev.callback, cur - ev.lastTick)]), reaction.effects, cur, ids, x);
      ReactionTargets(rs, |p.log|);
    }
  }

  /** A due event whose callback cancels the pre-existing event `y` leaves
      `y` cancelled after its visit. */
  lemma VisitCancels(p: Pass, x: ClockEvent, cur: Time, rs: seq<Reaction>, ids: seq<ClockEvent>, y: ClockEvent)
    requires x in p.store && y in p.store && y !in ids && Due(p.store[x], cur)
    requires Cancel(Existing(y)) in ReactionAt(rs, |p.log|).effects
    ensures Visit(p, x, cur, rs, ids).store[y].cancelled
  {
    var ev := p.store[x];
    EffectsCancel(p.(log := p.log + [Firing(x, ev.callback, cur - ev.lastTick)]), ReactionAt(rs, |p.log|).effects, cur, ids, y);
  }

  /** Walking `a + b` is walking `a`, then `b`. */
  lemma {:induction false} RunSplit(p: Pass, a: seq<ClockEvent>, b: seq<ClockEvent>, cur: Time, rs: seq<Reaction>, ids: seq<ClockEvent>)
    requires forall x :: x in a + b ==> x in p.store
    decreases |b|
    ensures forall x :: x in b ==> x in Run(p, a, cur, rs, ids).store
    ensures Run(p, a + b, cur, rs, ids) == Run(Run(p, a, cur, rs, ids), b, cur, rs, ids)
  {
    assert forall x :: x in a ==> x in a + b;
    assert forall x :: x in b ==> x in a + b;
    if b == [] {
      assert a + b == a;
    } else {
      var init := b[..|b| - 1];
      assert (a + b)[..|a + b| - 1] == a + init;
      assert forall x :: x in a + init ==> x in a + b;
      RunSplit(p, a, init, cur, rs, ids);
    }
  }

  /** The callbacks a walk invokes belong to events of the batch, taken in
      batch order: `idx` says which position each firing comes from, and it
      strictly increases. */
  lemma {:induction false} RunLog(p: Pass, b: seq<ClockEvent>, cur: Time, rs: seq<Reaction>, ids: seq<ClockEvent>)
    returns (idx: seq<nat>)
    requires forall x :: x in b ==> x in p.store
    decreases |b|
    ensures var r := Run(p, b, cur, rs, ids);
            && |r.log| == |p.log| + |idx| && r.log[..|p.log|] == p.log
            && (forall k :: 0 <= k < |idx| ==> idx[k] < |b| && b[idx[k]] == r.log[|p.log| + k].event)
            && (forall k, k' :: 0 <= k < k' < |idx| ==> idx[k] < idx[k'])
  {
    if b == [] {
      idx := [];
    } else {
      var init := b[..|b| - 1];
      assert forall x :: x in init ==> x in b;
      var idx0 := RunLog(p, init, cur, rs, ids);
      var q := Run(p, init, cur, rs, ids);
      VisitLog(q, b[|b| - 1], cur, rs, ids);
      if Due(q.store[b[|b| - 1]], cur) {
        idx := idx0 + [|b| - 1];
      } else {
        idx := idx0;
      }
    }
  }

  /** A walk only appends to the buffer being built, and only events of the
      batch or events scheduled during the walk. */
  lemma {:induction false} RunOut(p: Pass, b: seq<ClockEvent>, cur: Time, rs: seq<Reaction>, ids: seq<ClockEvent>)
    requires forall x :: x in b ==> x in p.store
    requires Run(p, b, cur, rs, ids).scheduled <= |ids|
    decreases |b|
    ensures var r := Run(p, b, cur, rs, ids);
            && |p.out| <= |r.out| && r.out[..|p.out|] == p.out
            && (forall j :: |p.out| <= j < |r.out| ==> r.out[j] in b || r.out[j] in ids[p.scheduled..r.scheduled])
            && r.store.Keys == p.store.Keys + Elems(ids[p.scheduled..r.scheduled])
  {
    if b == [] {
      assert ids[p.scheduled..p.scheduled] == [];
    } else {
      var init := b[..|b| - 1];
      var x := b[|b| - 1];
      assert forall y :: y in init ==> y in b;
      var q := Run(p, init, cur, rs, ids);
      var r := Run(p, b, cur, rs, ids);
      RunOut(p, init, cur, rs, ids);
      VisitOut(q, x, cur, rs, ids);
      ElemsSplit(ids, p.scheduled, q.scheduled, r.scheduled);
      forall j | |p.out| <= j < |r.out|
        ensures r.out[j] in b || r.out[j] in ids[p.scheduled..r.scheduled]
      {
        if j < |q.out| {
          assert r.out[j] == q.out[j];
          assert r.out[j] in init || r.out[j] in ids[p.scheduled..q.scheduled];
        } else if j < |q.out| + (r.scheduled - q.scheduled) {
          assert r.out[j] == ids[q.scheduled..r.scheduled][j - |q.out|];
        } else {
          assert r.out[j] == x;
        }
      }
    }
  }

  /** An event the walk does not visit, and which it does not create, keeps
      its fields, except that a callback may cancel it. */
  lemma {:induction false} RunOther(p: Pass, b: seq<ClockEvent>, cur: Time, rs: seq<Reaction>, ids: seq<ClockEvent>, y: ClockEvent)
    requires forall x :: x in b ==> x in p.store
    requires y in p.store && y !in b && y !in ids
    decreases |b|
    ensures var r := Run(p, b, cur, rs, ids);
            && CancelledOrSame(p.store[y], r.store[y])
            && (y !in Targets(rs) ==> r.store[y] == p.store[y])
  {
    if b != [] {
      var init := b[..|b| - 1];
      assert forall x :: x in init ==> x in b;
      RunOther(p, init, cur, rs, ids, y);
      VisitOther(Run(p, init, cur, rs, ids), b[|b| - 1], cur, rs, ids, y);
    }
  }

  lemma DistinctJoin(a: seq<ClockEvent>, c: seq<ClockEvent>)
    requires Distinct(a) && Distinct(c) && forall y :: y in a ==> y !in c
    ensures Distinct(a + c)
  {
    forall i, j | 0 <= i < j < |a + c| ensures (a + c)[i] != (a + c)[j] {
      if j >= |a| && i < |a| {
        assert (a + c)[i] in a && (a + c)[j] in c;
      }
    }
  }

  lemma DistinctParts(b: seq<ClockEvent>, ids: seq<ClockEvent>)
    requires Distinct(b + ids)
    ensures Distinct(b) && Distinct(ids) && forall y :: y in b ==> y !in ids
  {
    forall i, j | 0 <= i < j < |ids| ensures ids[i] != ids[j] {
      assert (b + ids)[|b| + i] == ids[i] && (b + ids)[|b| + j] == ids[j];
    }
    forall i, j | 0 <= i < j < |b| ensures b[i] != b[j] {
      assert (b + ids)[i] == b[i] && (b + ids)[j] == b[j];
    }
    forall y | y in b ensures y !in ids {
      var i :| 0 <= i < |b| && b[i] == y;
      forall j | 0 <= j < |ids| ensures ids[j] != y {
        assert (b + ids)[i] == b[i] && (b + ids)[|b| + j] == ids[j];
      }
    }
  }

  /** One visit keeps the buffer free of repetitions: it appends events
      not scheduled before, and possibly the visited event, which is new to
      the buffer. */
  lemma AppendDistinct(out: seq<ClockEvent>, seen: seq<ClockEvent>, ids: seq<ClockEvent>, s: nat, s': nat, x: ClockEvent, keep: bool)
    requires s <= s' <= |ids| && Distinct(out) && Distinct(ids)
    requires forall y :: y in out ==> y in seen || y in ids[..s]
    requires forall y :: y in seen ==> y !in ids
    requires x !in seen && x !in ids
    ensures Distinct(out + ids[s..s'] + (if keep then [x] else []))
  {
    var added := ids[s..s'];
    assert Distinct(added) by {
      forall i, j | 0 <= i < j < |added| ensures added[i] != added[j] {
        assert added[i] == ids[s + i] && added[j] == ids[s + j];
      }
    }
    forall y | y in out ensures y !in added {
      if y !in seen {
        var u :| 0 <= u < s && ids[u] == y;
        forall w | 0 <= w < |added| ensures added[w] != y {
          assert added[w] == ids[s + w];
        }
      }
    }
    DistinctJoin(out, added);
    if keep {
      forall y | y in out + added ensures y !in [x] {
        if y in out {
        } else {
          var w :| 0 <= w < |added| && added[w] == y;
          assert added[w] == ids[s + w];
        }
      }
      DistinctJoin(out + added, [x]);
    } else {
      assert out + added + [] == out + added;
    }
  }

  /** The buffer a pass builds holds no event twice, provided the batch and
      the newly created events are all different objects. */
  lemma {:induction false} RunDistinct(p: Pass, b: seq<ClockEvent>, cur: Time, rs: seq<Reaction>, ids: seq<ClockEvent>)
    requires p.out == [] && p.scheduled == 0
    requires forall x :: x in b ==> x in p.store
    requires Distinct(b + ids) && Run(p, b, cur, rs, ids).scheduled <= |ids|
    decreases |b|
    ensures Distinct(Run(p, b, cur, rs, ids).out)
  {
    if b != [] {
      var init := b[..|b| - 1];
      var x := b[|b| - 1];
      assert forall y :: y in init ==> y in b;
      DistinctParts(b, ids);
      assert b == init + [x];
      assert Distinct(init + ids) by {
        DistinctJoin(init, ids);
      }
      assert x !in init by {
        forall u | 0 <= u < |init| ensures init[u] != x {
          assert init[u] == b[u];
        }
      }
      var q := Run(p, init, cur, rs, ids);
      var r := Run(p, b, cur, rs, ids);
      RunDistinct(p, init, cur, rs, ids);
      RunOut(p, init, cur, rs, ids);
      VisitOut(q, x, cur, rs, ids);
      assert ids[p.scheduled..q.scheduled] == ids[..q.scheduled];
      AppendDistinct(q.out, init, ids, q.scheduled, r.scheduled, x, Kept(q.store[x], cur, ReactionAt(rs, |q.log|)));
    }
  }

  /** Walking `b` is walking the events before position i, visiting b[i],
      and walking the rest. */
  lemma RunAround(p: Pass, b: seq<ClockEvent>, i: nat, cur: Time, rs: seq<Reaction>, ids: seq<ClockEvent>)
    requires forall x :: x in b ==> x in p.store
    requires i < |b|
    ensures forall x :: x in b ==> x in Run(p, b[..i], cur, rs, ids).store
    ensures var q := Run(p, b[..i], cur, rs, ids);
            var v := Visit(q, b[i], cur, rs, ids);
            && (forall x :: x in b[i + 1..] ==> x in v.store)
            && Run(p, b, cur, rs, ids) == Run(v, b[i + 1..], cur, rs, ids)
            && q.scheduled <= v.scheduled <= Run(p, b, cur, rs, ids).scheduled
  {
    assert b == b[..i] + b[i..];
    RunSplit(p, b[..i], b[i..], cur, rs, ids);
    var q := Run(p, b[..i], cur, rs, ids);
    assert b[i..] == [b[i]] + b[i + 1..];
    assert forall x :: x in [b[i]] + b[i + 1..] ==> x in q.store;
    RunSplit(q, [b[i]], b[i + 1..], cur, rs, ids);
    assert [b[i]][..0] == [];
  }

  lemma DistinctAt(b: seq<ClockEvent>, i: nat)
    requires Distinct(b) && i < |b|
    ensures b[i] !in b[..i] && b[i] !in b[i + 1..]
  {
    forall y | y in b[..i] ensures y != b[i] {
      var u :| 0 <= u < i && b[..i][u] == y;
      assert b[..i][u] == b[u];
    }
    var rest := b[i + 1..];
    forall y | y in rest ensures y != b[i] {
      var u :| 0 <= u < |rest| && rest[u] == y;
      assert rest[u] == b[i + 1 + u];
    }
  }

  /** When the callback of the event at an earlier position j fires and
      cancels the event at position i, that event is cancelled by the time
      the walk reaches it. */
  lemma CancelAhead(p: Pass, b: seq<ClockEvent>, i: nat, j: nat, cur: Time, rs: seq<Reaction>, ids: seq<ClockEvent>)
    requires forall x :: x in b ==> x in p.store
    requires Distinct(b) && j < i < |b| && b[i] !in ids
    requires forall x :: x in b[..j] ==> x in p.store
    requires var q := Run(p, b[..j], cur, rs, ids);
             && b[j] in q.store && Due(q.store[b[j]], cur)
             && Cancel(Existing(b[i])) in ReactionAt(rs, |q.log|).effects
    ensures forall x :: x in b[..i] ==> x in p.store
    ensures var r := Run(p, b[..i], cur, rs, ids); b[i] in r.store && r.store[b[i]].cancelled
  {
    var a := b[..i];
    assert forall x :: x in a ==> x in b;
    assert a[..j] == b[..j] && a[j] == b[j];
    RunAround(p, a, j, cur, rs, ids);
    var q := Run(p, b[..j], cur, rs, ids);
    var v := Visit(q, b[j], cur, rs, ids);
    VisitCancels(q, b[j], cur, rs, ids, b[i]);
    DistinctAt(b, i);
    assert b[i] !in a[j + 1..] by {
      forall x | x in a[j + 1..] ensures x in a {
        var u :| 0 <= u < |a[j + 1..]| && a[j + 1..][u] == x;
        assert a[j + 1 + u] == x;
      }
    }
    RunOther(v, a[j + 1..], cur, rs, ids, b[i]);
  }

  /** The event at position i of the batch fires when it is still
      uncancelled and due when the walk reaches it, with the callback it then
      holds and the time elapsed since it last fired. */
  lemma FateFires(p: Pass, b: seq<ClockEvent>, i: nat, cur: Time, rs: seq<Reaction>, ids: seq<ClockEvent>)
    requires forall x :: x in b ==> x in p.store
    requires i < |b|
    ensures forall x :: x in b ==> x in Run(p, b[..i], cur, rs, ids).store
    ensures var q := Run(p, b[..i], cur, rs, ids); var r := Run(p, b, cur, rs, ids); var ev := q.store[b[i]];
            Due(ev, cur) ==> |q.log| < |r.log| && r.log[|q.log|] == Firing(b[i], ev.callback, cur - ev.lastTick)
  {
    RunAround(p, b, i, cur, rs, ids);
    var q := Run(p, b[..i], cur, rs, ids);
    var v := Visit(q, b[i], cur, rs, ids);
    VisitLog(q, b[i], cur, rs, ids);
    var after := RunLog(v, b[i + 1..], cur, rs, ids);
  }

  /** ... and at no other point of the pass: each event fires at most once
      per tick. */
  lemma {:induction false} FateOnce(p: Pass, b: seq<ClockEvent>, i: nat, cur: Time, rs: seq<Reaction>, ids: seq<ClockEvent>)
    requires forall x :: x in b ==> x in p.store
    requires Distinct(b) && i < |b|
    ensures forall x :: x in b ==> x in Run(p, b[..i], cur, rs, ids).store
    ensures var q := Run(p, b[..i], cur, rs, ids); var r := Run(p, b, cur, rs, ids);
            forall j :: |p.log| <= j < |r.log| && r.log[j].event == b[i] ==> Due(q.store[b[i]], cur) && j == |q.log|
  {
    var x := b[i];
    RunAround(p, b, i, cur, rs, ids);
    DistinctAt(b, i);
    var q := Run(p, b[..i], cur, rs, ids);
    var v := Visit(q, x, cur, rs, ids);
    var r := Run(p, b, cur, rs, ids);
    var before := RunLog(p, b[..i], cur, rs, ids);
    VisitLog(q, x, cur, rs, ids);
    var after := RunLog(v, b[i + 1..], cur, rs, ids);
    forall j | |p.log| <= j < |r.log|
      ensures r.log[j].event != x || (Due(q.store[x], cur) && j == |q.log|)
    {
      if j < |q.log| {
        var k := j - |p.log|;
        assert r.log[j] == r.log[..|v.log|][j] == v.log[j] == q.log[|p.log| + k];
        assert before[k] < i && r.log[j].event == b[..i][before[k]];
      } else if j >= |v.log| {
        var k := j - |v.log|;
        assert after[k] < |b| - i - 1 && r.log[j].event == b[i + 1..][after[k]];
      }
    }
  }

  /** The event at position i ends up in the buffer being built exactly when
      the walk keeps it on its visit. */
  lemma {:induction false} FateOut(p: Pass, b: seq<ClockEvent>, i: nat, cur: Time, rs: seq<Reaction>, ids: seq<ClockEvent>)
    requires forall x :: x in b ==> x in p.store
    requires Distinct(b) && i < |b| && b[i] !in ids && b[i] !in p.out
    requires Run(p, b, cur, rs, ids).scheduled <= |ids|
    ensures forall x :: x in b ==> x in Run(p, b[..i], cur, rs, ids).store
    ensures var q := Run(p, b[..i], cur, rs, ids);
            b[i] in Run(p, b, cur, rs, ids).out <==> Kept(q.store[b[i]], cur, ReactionAt(rs, |q.log|))
  {
    var x := b[i];
    RunAround(p, b, i, cur, rs, ids);
    DistinctAt(b, i);
    var q := Run(p, b[..i], cur, rs, ids);
    var v := Visit(q, x, cur, rs, ids);
    var r := Run(p, b, cur, rs, ids);
    RunOut(p, b[..i], cur, rs, ids);
    VisitOut(q, x, cur, rs, ids);
    RunOut(v, b[i + 1..], cur, rs, ids);
    assert x !in q.out by {
      forall j | 0 <= j < |q.out| ensures q.out[j] != x {
        if j < |p.out| {
          assert q.out[j] == p.out[j];
        } else {
          assert q.out[j] in b[..i] || q.out[j] in ids[p.scheduled..q.scheduled];
        }
      }
    }
    assert x !in ids[q.scheduled..v.scheduled];
    var kept := Kept(q.store[x], cur, ReactionAt(rs, |q.log|));
    assert x in v.out <==> kept;
    forall j | |v.out| <= j < |r.out| ensures r.out[j] != x {
      assert r.out[j] in b[i + 1..] || r.out[j] in ids[v.scheduled..r.scheduled];
    }
    if x in r.out {
      var j :| 0 <= j < |r.out| && r.out[j] == x;
      if j < |v.out| {
        assert v.out[j] == x;
      }
    }
    if kept {
      assert v.out[|v.out| - 1] == x;
      assert r.out[|v.out| - 1] == x;
    }
  }

  /** The fields of the event at position i: up to its visit only a callback
      may touch it, by cancelling it; the visit gives it its next deadline if
      it is kept after firing; after the visit, again only a cancellation
      may change it. */
  lemma FateStore(p: Pass, b: seq<ClockEvent>, i: nat, cur: Time, rs: seq<Reaction>, ids: seq<ClockEvent>)
    requires forall x :: x in b ==> x in p.store
    requires Distinct(b) && i < |b| && b[i] !in ids
    ensures forall x :: x in b ==> x in Run(p, b[..i], cur, rs, ids).store
    ensures var q := Run(p, b[..i], cur, rs, ids); var r := Run(p, b, cur, rs, ids);
            var x := b[i]; var expected := Expected(q.store[x], cur, ReactionAt(rs, |q.log|));
            && CancelledOrSame(p.store[x], q.store[x])
            && CancelledOrSame(expected, r.store[x])
            && (x !in Targets(rs) ==> q.store[x] == p.store[x] && r.store[x] == expected)
  {
    var x := b[i];
    RunAround(p, b, i, cur, rs, ids);
    DistinctAt(b, i);
    var q := Run(p, b[..i], cur, rs, ids);
    var v := Visit(q, x, cur, rs, ids);
    RunOther(p, b[..i], cur, rs, ids, x);
    VisitSelf(q, x, cur, rs, ids);
    RunOther(v, b[i + 1..], cur, rs, ids, x);
  }

  /** The elements of `s` that belong to `m`, in their order in `s`. */
  function Only(s: seq<ClockEvent>, m: set<ClockEvent>): (r: seq<ClockEvent>)
    decreases |s|
  {
    if s == [] then [] else Only(s[..|s| - 1], m) + (if s[|s| - 1] in m then [s[|s| - 1]] else [])
  }

  lemma {:induction false} OnlyConcat(a: seq<ClockEvent>, c: seq<ClockEvent>, m: set<ClockEvent>)
    decreases |c|
    ensures Only(a + c, m) == Only(a, m) + Only(c, m)
  {
    if c == [] {
      assert a + c == a;
    } else {
      assert (a + c)[..|a + c| - 1] == a + c[..|c| - 1];
      OnlyConcat(a, c[..|c| - 1], m);
    }
  }

  /** Filtering by two sets that agree on the elements of `s` gives the same
      result. */
  lemma {:induction false} OnlySame(s: seq<ClockEvent>, m: set<ClockEvent>, m': set<ClockEvent>)
    requires forall y :: y in s ==> (y in m <==> y in m')
    decreases |s|
    ensures Only(s, m) == Only(s, m')
  {
    if s != [] {
      assert forall y :: y in s[..|s| - 1] ==> y in s;
      OnlySame(s[..|s| - 1], m, m');
    }
  }

  lemma {:induction false} OnlyAll(s: seq<ClockEvent>, m: set<ClockEvent>)
    requires forall y :: y in s ==> y in m
    decreases |s|
    ensures Only(s, m) == s
  {
    if s != [] {
      assert forall y :: y in s[..|s| - 1] ==> y in s;
      OnlyAll(s[..|s| - 1], m);
    }
  }

  lemma {:induction false} OnlyNone(s: seq<ClockEvent>, m: set<ClockEvent>)
    requires forall y :: y in s ==> y !in m
    decreases |s|
    ensures Only(s, m) == []
  {
    if s != [] {
      assert forall y :: y in s[..|s| - 1] ==> y in s;
      OnlyNone(s[..|s| - 1], m);
    }
  }

  lemma NewOrderStep(out: seq<ClockEvent>, ids: seq<ClockEvent>, s: nat, s': nat, tail: seq<ClockEvent>)
    requires s <= s' <= |ids| && Only(out, Elems(ids)) == ids[..s]
    requires forall y :: y in tail ==> y !in ids
    ensures Only(out + ids[s..s'] + tail, Elems(ids)) == ids[..s']
  {
    var added := ids[s..s'];
    var m := Elems(ids);
    var lead := out + added;
    assert Only(added, m) == added by {
      forall y | y in added ensures y in m {
        var u :| 0 <= u < |added| && added[u] == y;
        assert ids[s + u] == y;
      }
      OnlyAll(added, m);
    }
    assert Only(tail, m) == [] by {
      OnlyNone(tail, m);
    }
    assert Only(lead, m) == ids[..s] + added by {
      OnlyConcat(out, added, m);
    }
    assert Only(lead + tail, m) == ids[..s] + added by {
      OnlyConcat(lead, tail, m);
    }
    assert ids[..s] + added == ids[..s'];
  }

  /** The events scheduled during a pass all land in the buffer it builds,
      in the order they were scheduled. */
  lemma {:induction false} RunNewOrder(p: Pass, b: seq<ClockEvent>, cur: Time, rs: seq<Reaction>, ids: seq<ClockEvent>)
    requires p.out == [] && p.scheduled == 0
    requires forall x :: x in b ==> x in p.store
    requires Distinct(b + ids) && Run(p, b, cur, rs, ids).scheduled <= |ids|
    decreases |b|
    ensures var r := Run(p, b, cur, rs, ids); Only(r.out, Elems(ids)) == ids[..r.scheduled]
  {
    if b != [] {
      var init := b[..|b| - 1];
      var x := b[|b| - 1];
      assert forall y :: y in init ==> y in b;
      DistinctParts(b, ids);
      assert Distinct(init + ids) by {
        DistinctJoin(init, ids);
      }
      var q := Run(p, init, cur, rs, ids);
      var r := Run(p, b, cur, rs, ids);
      RunNewOrder(p, init, cur, rs, ids);
      VisitOut(q, x, cur, rs, ids);
      NewOrderStep(q.out, ids, q.scheduled, r.scheduled, if Kept(q.store[x], cur, ReactionAt(rs, |q.log|)) then [x] else []);
    }
  }

  lemma KeptOrderLeft(out: seq<ClockEvent>, init: seq<ClockEvent>, x: ClockEvent, added: seq<ClockEvent>, ids: seq<ClockEvent>, tail: seq<ClockEvent>)
    requires forall y :: y in out ==> y in init || y in ids
    requires forall y :: y in added ==> y in ids
    requires forall y :: y in init ==> y !in ids
    requires x !in ids && (tail == [] || tail == [x])
    ensures Only(out + added + tail, Elems(init + [x])) == Only(out, Elems(init)) + tail
  {
    var eb := Elems(init + [x]);
    OnlyConcat(out + added, tail, eb);
    OnlyConcat(out, added, eb);
    OnlySame(out, eb, Elems(init));
    OnlyNone(added, eb);
    OnlyAll(tail, eb);
  }

  lemma KeptOrderRight(out: seq<ClockEvent>, init: seq<ClockEvent>, x: ClockEvent, added: seq<ClockEvent>, ids: seq<ClockEvent>, tail: seq<ClockEvent>)
    requires forall y :: y in out ==> y in init || y in ids
    requires forall y :: y in added ==> y in ids
    requires forall y :: y in init ==> y !in ids
    requires x !in init && x !in ids && (tail == [] || tail == [x])
    ensures Only(init + [x], Elems(out + added + tail)) == Only(init, Elems(out)) + tail
  {
    var b := init + [x];
    var m := Elems(out + added + tail);
    assert b[..|b| - 1] == init && b[|b| - 1] == x;
    assert forall y :: y in init ==> (y in m <==> y in Elems(out));
    OnlySame(init, m, Elems(out));
    assert x in m <==> tail == [x];
  }

  lemma KeptOrderStep(out: seq<ClockEvent>, init: seq<ClockEvent>, x: ClockEvent, added: seq<ClockEvent>, ids: seq<ClockEvent>, keep: bool)
    requires Only(out, Elems(init)) == Only(init, Elems(out))
    requires forall y :: y in out ==> y in init || y in ids
    requires forall y :: y in added ==> y in ids
    requires forall y :: y in init ==> y !in ids
    requires x !in init && x !in ids
    ensures var out' := out + added + (if keep then [x] else []);
            Only(out', Elems(init + [x])) == Only(init + [x], Elems(out'))
  {
    var tail := if keep then [x] else [];
    KeptOrderLeft(out, init, x, added, ids, tail);
    KeptOrderRight(out, init, x, added, ids, tail);
  }

  /** The events of the batch that a pass keeps appear in the buffer it
      builds in their batch order. */
  lemma {:induction false} RunKeptOrder(p: Pass, b: seq<ClockEvent>, cur: Time, rs: seq<Reaction>, ids: seq<ClockEvent>)
    requires p.out == [] && p.scheduled == 0
    requires forall x :: x in b ==> x in p.store
    requires Distinct(b + ids) && Run(p, b, cur, rs, ids).scheduled <= |ids|
    decreases |b|
    ensures var r := Run(p, b, cur, rs, ids); Only(r.out, Elems(b)) == Only(b, Elems(r.out))
  {
    if b != [] {
      var init := b[..|b| - 1];
      var x := b[|b| - 1];
      assert forall y :: y in init ==> y in b;
      DistinctParts(b, ids);
      assert b == init + [x];
      assert Distinct(init + ids) by {
        DistinctJoin(init, ids);
      }
      DistinctAt(b, |b| - 1);
      var q := Run(p, init, cur, rs, ids);
      var r := Run(p, b, cur, rs, ids);
      RunKeptOrder(p, init, cur, rs, ids);
      RunOut(p, init, cur, rs, ids);
      VisitOut(q, x, cur, rs, ids);
      forall y | y in q.out ensures y in init || y in ids {
        var j :| 0 <= j < |q.out| && q.out[j] == y;
        assert y in init || y in ids[0..q.scheduled];
      }
      KeptOrderStep(q.out, init, x, ids[q.scheduled..r.scheduled], ids, Kept(q.store[x], cur, ReactionAt(rs, |q.log|)));
    }
  }
}
