/** The behaviour `tick` promises, for a pass that starts from the fields
    `s` of the events it may touch and walks the merged buffer `b`, the
    callbacks scheduling the objects `ids`. */
module TickProperties {
  import opened ClockEvents
  import opened TickSpec
  import opened TickFacts

  /** What every statement below assumes: the batch holds each event once,
      the objects created during the pass are new, and there are enough of
      them for every `schedule_*` call. */
  predicate WellFormed(s: map<ClockEvent, Ev>, b: seq<ClockEvent>, cur: Time, rs: seq<Reaction>, ids: seq<ClockEvent>)
  {
    && (forall x :: x in b ==> x in s)
    && Distinct(b + ids)
    && Run(Start(s), b, cur, rs, ids).scheduled <= |ids|
  }

  /** A pass whose batch holds distinct events and whose new objects are
      distinct and outside the batch is well formed, and so is the buffer
      it builds. */
  lemma PassWellFormed(s: map<ClockEvent, Ev>, b: seq<ClockEvent>, cur: Time, rs: seq<Reaction>, ids: seq<ClockEvent>)
    requires forall x :: x in b ==> x in s
    requires Distinct(b) && Distinct(ids) && (forall y :: y in b ==> y !in ids)
    requires Run(Start(s), b, cur, rs, ids).scheduled == |ids|
    ensures WellFormed(s, b, cur, rs, ids)
    ensures Distinct(Run(Start(s), b, cur, rs, ids).out)
  {
    DistinctJoin(b, ids);
    RunDistinct(Start(s), b, cur, rs, ids);
  }

  /** An event that is cancelled when the walk reaches it, whether before
      the tick or by a callback earlier in the same tick, is not invoked and
      is left out of the rebuilt buffer. */
  lemma CancelledVanishes(s: map<ClockEvent, Ev>, b: seq<ClockEvent>, i: nat, cur: Time, rs: seq<Reaction>, ids: seq<ClockEvent>)
    requires WellFormed(s, b, cur, rs, ids) && i < |b|
    requires Run(Start(s), b[..i], cur, rs, ids).store[b[i]].cancelled
    ensures var r := Run(Start(s), b, cur, rs, ids);
            && (forall j :: 0 <= j < |r.log| ==> r.log[j].event != b[i])
            && b[i] !in r.out
  {
    DistinctParts(b, ids);
    FateOnce(Start(s), b, i, cur, rs, ids);
    FateOut(Start(s), b, i, cur, rs, ids);
  }

  /** In particular an event already cancelled when the tick starts. */
  lemma CancelledBeforeVanishes(s: map<ClockEvent, Ev>, b: seq<ClockEvent>, i: nat, cur: Time, rs: seq<Reaction>, ids: seq<ClockEvent>)
    requires WellFormed(s, b, cur, rs, ids) && i < |b| && s[b[i]].cancelled
    ensures var r := Run(Start(s), b, cur, rs, ids);
            && (forall j :: 0 <= j < |r.log| ==> r.log[j].event != b[i])
            && b[i] !in r.out
  {
    DistinctParts(b, ids);
    FateStore(Start(s), b, i, cur, rs, ids);
    CancelledVanishes(s, b, i, cur, rs, ids);
  }

  /** In particular an event that the callback of an earlier event of the
      same tick cancels: the earlier event fires, its callback calls
      `cancel` on the later one, and the later one is then skipped. */
  lemma CancelledAheadVanishes(s: map<ClockEvent, Ev>, b: seq<ClockEvent>, i: nat, j: nat, cur: Time, rs: seq<Reaction>, ids: seq<ClockEvent>)
    requires WellFormed(s, b, cur, rs, ids) && j < i < |b|
    requires var q := Run(Start(s), b[..j], cur, rs, ids);
             && b[j] in q.store && Due(q.store[b[j]], cur)
             && Cancel(Existing(b[i])) in ReactionAt(rs, |q.log|).effects
    ensures var r := Run(Start(s), b, cur, rs, ids);
            && (forall k :: 0 <= k < |r.log| ==> r.log[k].event != b[i])
            && b[i] !in r.out
  {
    DistinctParts(b, ids);
    assert forall x :: x in b[..j] ==> x in b;
    CancelAhead(Start(s), b, i, j, cur, rs, ids);
    CancelledVanishes(s, b, i, cur, rs, ids);
  }

  /** An uncancelled event whose deadline is still ahead, and which no
      callback cancels, is not invoked and is carried into the rebuilt
      buffer with its fields unchanged. */
  lemma NotDueCarried(s: map<ClockEvent, Ev>, b: seq<ClockEvent>, i: nat, cur: Time, rs: seq<Reaction>, ids: seq<ClockEvent>)
    requires WellFormed(s, b, cur, rs, ids) && i < |b|
    requires !s[b[i]].cancelled && s[b[i]].deadline > cur && b[i] !in Targets(rs)
    ensures var r := Run(Start(s), b, cur, rs, ids);
            && (forall j :: 0 <= j < |r.log| ==> r.log[j].event != b[i])
            && b[i] in r.out && r.store[b[i]] == s[b[i]]
  {
    DistinctParts(b, ids);
    FateStore(Start(s), b, i, cur, rs, ids);
    FateOnce(Start(s), b, i, cur, rs, ids);
    FateOut(Start(s), b, i, cur, rs, ids);
  }

  /** An uncancelled due event that no callback cancels is invoked exactly
      once, at position j of the log, with the time elapsed since it last
      fired. It is kept exactly when it repeats and its callback did not
      return False, and then it is due one interval after the deadline it
      reached, measuring elapsed time from now. */
  lemma DueFiresOnce(s: map<ClockEvent, Ev>, b: seq<ClockEvent>, i: nat, cur: Time, rs: seq<Reaction>, ids: seq<ClockEvent>)
    returns (j: nat)
    requires WellFormed(s, b, cur, rs, ids) && i < |b|
    requires !s[b[i]].cancelled && s[b[i]].deadline <= cur && b[i] !in Targets(rs)
    ensures var r := Run(Start(s), b, cur, rs, ids); var x := b[i]; var ev := s[x];
            && j < |r.log| && r.log[j] == Firing(x, ev.callback, cur - ev.lastTick)
            && (forall j' :: 0 <= j' < |r.log| && r.log[j'].event == x ==> j' == j)
            && (x in r.out <==> !ReactionAt(rs, j).returnedFalse && ev.interval.Some?)
            && (x in r.out ==> r.store[x] == ev.(deadline := ev.deadline + ev.interval.value, lastTick := cur))
  {
    DistinctParts(b, ids);
    FateStore(Start(s), b, i, cur, rs, ids);
    FateFires(Start(s), b, i, cur, rs, ids);
    FateOnce(Start(s), b, i, cur, rs, ids);
    FateOut(Start(s), b, i, cur, rs, ids);
    j := |Run(Start(s), b[..i], cur, rs, ids).log|;
  }

  /** Callbacks run in buffer order, each event at most once, and only
      events of the batch run: an event scheduled during the tick, even with
      no delay, waits for the next one. */
  lemma FiringOrder(s: map<ClockEvent, Ev>, b: seq<ClockEvent>, cur: Time, rs: seq<Reaction>, ids: seq<ClockEvent>)
    returns (idx: seq<nat>)
    requires WellFormed(s, b, cur, rs, ids)
    ensures var r := Run(Start(s), b, cur, rs, ids);
            && |idx| == |r.log|
            && (forall k :: 0 <= k < |idx| ==> idx[k] < |b| && b[idx[k]] == r.log[k].event)
            && (forall k, k' :: 0 <= k < k' < |idx| ==> idx[k] < idx[k'])
            && (forall k :: 0 <= k < |r.log| ==> r.log[k].event !in ids)
  {
    DistinctParts(b, ids);
    idx := RunLog(Start(s), b, cur, rs, ids);
  }

  /** The rebuilt buffer holds each event once: the kept events of the
      batch in batch order, interleaved with every event scheduled during the
      tick, in scheduling order. */
  lemma RebuiltBuffer(s: map<ClockEvent, Ev>, b: seq<ClockEvent>, cur: Time, rs: seq<Reaction>, ids: seq<ClockEvent>)
    requires WellFormed(s, b, cur, rs, ids)
    ensures var r := Run(Start(s), b, cur, rs, ids);
            && Distinct(r.out)
            && (forall x :: x in r.out ==> x in b || x in ids[..r.scheduled])
            && Only(r.out, Elems(b)) == Only(b, Elems(r.out))
            && Only(r.out, Elems(ids)) == ids[..r.scheduled]
  {
    RunDistinct(Start(s), b, cur, rs, ids);
    RunOut(Start(s), b, cur, rs, ids);
    RunKeptOrder(Start(s), b, cur, rs, ids);
    RunNewOrder(Start(s), b, cur, rs, ids);
    var r := Run(Start(s), b, cur, rs, ids);
    forall x | x in r.out ensures x in b || x in ids[..r.scheduled] {
      var j :| 0 <= j < |r.out| && r.out[j] == x;
      assert ids[0..r.scheduled] == ids[..r.scheduled];
    }
  }
}
