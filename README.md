# asyncgui-ext-clock: the double-buffered timer engine

This project models the scheduling engine of `asyncgui_ext.clock` and its
copy in `asyncgui_ext.timer`, and proves what one `tick` does.

A `Clock` keeps a logical time and two lists of `ClockEvent`s:

- `_events`, the pending buffer;
- `_events_to_be_added`, the incoming buffer.

`schedule_once` and `schedule_interval` append a new event to the incoming
buffer. `tick(dt)` works in these steps:

1. It advances the time by `dt`.
2. It merges the incoming buffer into the pending one.
3. It walks the merged buffer once, in order:
   - a cancelled event is dropped;
   - an event that is not yet due is put back;
   - a due event's callback is called with the time since the event last fired;
   - after firing, a repeating event whose callback did not return `False`
     is re-queued one interval later.
4. It swaps the two buffers.

During the walk, the buffer that events are put back into is the very list
that `schedule_*` appends to. So events scheduled by a callback are
interleaved with the kept events, in the order the appends happen.

`Timer` (`timer.py`) runs the same algorithm:

- its `progress` is `tick`;
- its time starts at 0;
- its `schedule_once` has a default delay of 0.

The small state machine of `n_frames` sits on top of a zero-interval event.

The modules are:

- **`ClockEvents`** (clock_event.dfy): `ClockEvent` is a class whose fields are updated in place, with `Cancel`. `Ev` is the value of its fields at one moment.
- **`TickSpec`** (tick_spec.dfy): one pass of `tick` as functions on values.
  - `Visit` is one loop iteration.
  - `Run` is the whole loop.
  - Callbacks are an oracle. The k-th callback invoked in a tick behaves as `rs[k]`: it may cancel events, call `schedule_*`, and return `False` or not.
  - The k-th event a callback schedules is the k-th object of `ids`.
- **`TickFacts`** (tick_facts.dfy): lemmas about `Run`, by induction over the batch.
- **`TickProperties`** (tick_properties.dfy): the properties `tick` promises, stated on `Run`.
- **`Clocks`** (clock.dfy): the `Clock` class.
  - Its `tick` is a method with the loop of the source.
  - It is proved to leave the heap as the pass `Run` says, and its buffers are proved to hold each event at most once.
  - It keeps a firing log: the callback invocations with their elapsed times.
- **`Timers`** (timer.dfy): `Timer`, on a `Clock` engine.
- **`Frames`** (frames.dfy): `n_frames` and its countdown callback.
- **`Traces`** (traces.dfy): the integer traces of tests/clock/test_schedule_xxx.py, replayed on the classes.

## Model

| member | source | states |
|---|---|---|
| ClockEvents.ClockEvent.constructor | src/asyncgui_ext/clock.py:25-41 | a new event holds the given deadline, last tick, callback and interval, and is not cancelled |
| ClockEvents.ClockEvent.Cancel | src/asyncgui_ext/clock.py:43-44 | sets the cancelled flag and changes no other field, so a second call changes nothing |
| ClockEvents.ClockEvent.Advance | src/asyncgui_ext/clock.py:81-82 | a kept repeating event gets the deadline it reached plus one interval, and its last tick becomes the current time |
| Clocks.Clock.constructor | src/asyncgui_ext/clock.py:50-53 | the time is `initial_time` (0 by default), both buffers are empty |
| Clocks.Clock.CurrentTime | src/asyncgui_ext/clock.py:55-57 | the `current_time` property is the clock's time |
| Clocks.Clock.ScheduleOnce | src/asyncgui_ext/clock.py:89-103 | returns a fresh uncancelled event due at now + delay, last tick now, no interval, appended to the end of the incoming buffer; time, pending buffer and log unchanged; no event doubled |
| Clocks.Clock.ScheduleInterval | src/asyncgui_ext/clock.py:105-127 | as ScheduleOnce, due at now + interval with that interval |
| Clocks.Clock.Perform | src/asyncgui_ext/clock.py:43-127 | a callback's `cancel` or `schedule_*` call changes the heap as `ApplyEffect` says; a new event goes to the buffer being built |
| Clocks.Clock.Invoke | src/asyncgui_ext/clock.py:79 | the effects of a running callback, in their order, leave the heap as `ApplyEffects` says |
| Clocks.Clock.Requeue | src/asyncgui_ext/clock.py:81-83 | re-queuing a kept event leaves the heap and the built buffer as `Requeued` says |
| Clocks.Clock.Fire | src/asyncgui_ext/clock.py:79-83 | a due event's callback is logged with the time since it last fired, its effects are applied, and it is re-queued as `Visit` says |
| Clocks.Clock.Step | src/asyncgui_ext/clock.py:74-83 | one loop iteration leaves the heap, the built buffer and the log as `Visit` says |
| Clocks.Clock.Walk | src/asyncgui_ext/clock.py:73-84 | the loop over the merged buffer leaves the heap, the built buffer and the log as `Run` says; the scheduled objects are fresh and distinct |
| Clocks.Clock.Tick | src/asyncgui_ext/clock.py:59-87 | time becomes old time + dt; the pass is `Run` over old pending followed by old incoming; the incoming buffer ends empty, the pending one is the built buffer; the heap mirrors the pass; no event doubled |
| Clocks.Clock.Sweep | src/asyncgui_ext/clock.py:73-87 | the walk and the swap: the built buffer becomes pending and the incoming buffer is empty |
| Clocks.Clock.Swap | src/asyncgui_ext/clock.py:84-87 | the two list fields are exchanged after the emptied one is cleared |
| Clocks.Clock.Initial | src/asyncgui_ext/clock.py:67-72 | the pass starts with no firings from the fields of every event in both buffers |
| Clocks.EmptyTick | src/asyncgui_ext/clock.py:59-87 | a tick of a clock with no events only moves the time by dt, and fires nothing |
| Clocks.SoleEvent | src/asyncgui_ext/clock.py:68-72 | with one event in the buffers, the pass starts from that event's current fields |
| TickSpec.Schedule | src/asyncgui_ext/clock.py:100-102 | a `schedule_*` call from a callback tracks one new object with the given fields and appends it to the end of the buffer being built, logging nothing |
| TickSpec.CancelIn | src/asyncgui_ext/clock.py:43-44 | `cancel` sets the flag of that event only, and leaves the buffer being built and the log alone |
| TickSpec.ApplyEffect | src/asyncgui_ext/clock.py:43-127 | one effect of a callback never forgets an event, never logs a firing, never lowers the schedule count |
| TickSpec.ApplyEffects | src/asyncgui_ext/clock.py:79 | effects never forget an event, never log a firing, never lower the schedule count |
| TickSpec.Requeued | src/asyncgui_ext/clock.py:81-83 | re-queuing keeps the tracked events and the schedule count |
| TickSpec.Visit | src/asyncgui_ext/clock.py:73-84 | a visit never forgets an event and never lowers the schedule count |
| TickSpec.Run | src/asyncgui_ext/clock.py:73-84 | the whole loop never forgets an event and never lowers the schedule count |
| TickFacts.EffectsCancel | src/asyncgui_ext/clock.py:43-44 | a callback that calls `cancel` on an event that existed before the tick leaves it cancelled, whatever else it does |
| TickFacts.RunOther | src/asyncgui_ext/clock.py:73-84 | an event the walk neither visits nor creates keeps its fields, except that a callback may cancel it |
| TickFacts.CancelAhead | src/asyncgui_ext/clock.py:74-79 | when the callback of a due event at an earlier position cancels the event at a later position, that event is cancelled when the walk reaches it |
| TickFacts.RunLog | src/asyncgui_ext/clock.py:73-84 | each firing of the walk comes from a batch position, positions strictly increasing |
| TickFacts.RunOut | src/asyncgui_ext/clock.py:68-84 | the walk only appends to the built buffer, and only batch events or events scheduled during the walk |
| TickFacts.RunDistinct | src/asyncgui_ext/clock.py:68-84 | the built buffer holds each event once |
| TickFacts.FateFires | src/asyncgui_ext/clock.py:79 | the event at position i fires if it is uncancelled and due when the walk reaches it, with its callback and elapsed time |
| TickFacts.FateOnce | src/asyncgui_ext/clock.py:73-84 | that event fires at no other point of the pass |
| TickFacts.FateOut | src/asyncgui_ext/clock.py:74-84 | it ends in the built buffer exactly when its visit keeps it |
| TickFacts.FateStore | src/asyncgui_ext/clock.py:74-84 | before and after its visit only a cancellation can change its fields; the visit gives it the expected fields |
| TickFacts.RunKeptOrder | src/asyncgui_ext/clock.py:68-84 | the kept batch events appear in the built buffer in batch order |
| TickFacts.RunNewOrder | src/asyncgui_ext/clock.py:68-84 | the events scheduled during the walk appear in the built buffer in scheduling order |
| TickProperties.PassWellFormed | src/asyncgui_ext/clock.py:59-87 | a batch of distinct events, with new objects outside it, gives a built buffer of distinct events |
| TickProperties.CancelledVanishes | src/asyncgui_ext/clock.py:74-75 | an event cancelled before its visit, even by an earlier callback of the same tick, is not invoked and is not in the rebuilt buffer |
| TickProperties.CancelledBeforeVanishes | src/asyncgui_ext/clock.py:74-75 | in particular an event cancelled before the tick |
| TickProperties.CancelledAheadVanishes | src/asyncgui_ext/clock.py:74-79 | in particular an event whose `cancel` is called by the callback of an earlier due event of the same tick: it is not invoked and is not in the rebuilt buffer |
| TickProperties.NotDueCarried | src/asyncgui_ext/clock.py:76-78 | an uncancelled event not yet due, that no callback of the tick cancels, is not invoked and is carried into the rebuilt buffer with its fields unchanged |
| TickProperties.DueFiresOnce | src/asyncgui_ext/clock.py:79-84 | a due uncancelled event that no callback of the tick cancels fires exactly once, with now minus its last tick; it is kept iff it repeats and did not return False, and then it is due one interval later with last tick now |
| TickProperties.FiringOrder | src/asyncgui_ext/clock.py:68-84 | callbacks run in buffer order, each event at most once, and no event scheduled during the tick runs in it |
| TickProperties.RebuiltBuffer | src/asyncgui_ext/clock.py:68-87 | the rebuilt buffer holds each event once: the kept batch events in batch order, interleaved with every event scheduled during the tick in scheduling order |
| Timers.Timer.constructor | src/asyncgui_ext/timer.py:68-71 | time 0, both buffers empty |
| Timers.Timer.CurrentTime | src/asyncgui_ext/timer.py:73-75 | the `current_time` property is the time of the engine |
| Timers.Timer.Progress | src/asyncgui_ext/timer.py:77-101 | has the contract of `Clock.Tick` |
| Timers.Timer.ScheduleOnce | src/asyncgui_ext/timer.py:103-112 | a fresh uncancelled one-shot event due at now + delay, delay 0 by default, appended to the incoming buffer |
| Timers.Timer.ScheduleInterval | src/asyncgui_ext/timer.py:114-123 | a fresh uncancelled event due at now + interval, appended to the incoming buffer |
| Timers.DefaultDelayFiresOnce | src/asyncgui_ext/timer.py:103-112 | an event made by `schedule_once(f)`, that no callback of the tick cancels, fires at the next `progress(dt)` with dt >= 0, exactly once, with elapsed time dt, and is dropped |
| Timers.ZeroIntervalStaysDue | src/asyncgui_ext/timer.py:114-123 | a due event of interval 0 that no callback of the tick cancels fires exactly once in the tick; if kept, it is due again at the next `progress(dt)` with dt >= 0 |
| Frames.FrameCounter.constructor | src/asyncgui_ext/clock.py:188-190 | the shared counter starts at n and the task is not yet resumed |
| Frames.FrameCounter.OnTick | src/asyncgui_ext/clock.py:188-200 | the callback decrements the counter; at 0 it resumes the task, which cancels the event, and returns False |
| Frames.NFrames | src/asyncgui_ext/clock.py:181-196 | n < 0 is `ValueError`, n = 0 returns at once, otherwise a fresh zero-interval event is scheduled |
| Frames.FrameTick | src/asyncgui_ext/clock.py:188-200 | a tick whose only event is the `n_frames` event, of any deadline already reached, invokes the callback once with dt; the event is kept and stays due, or is cancelled and dropped |
| Frames.FrameAmong | src/asyncgui_ext/clock.py:188-200 | among any other events, the `n_frames` event is either cancelled by another callback before its visit, and then neither fires nor stays, or fires exactly once with the time since it last fired and stays in the buffer exactly when its callback did not return False, with its fields as left by the firing (still due) unless a later callback of the tick cancels it; when its callback resumes the task, it leaves the tick cancelled and dropped |
| Frames.CountedTick | src/asyncgui_ext/clock.py:59-87 | the same as `FrameTick` for the `Clock` heap, at any clock time |
| Frames.AwaitFrames | src/asyncgui_ext/clock.py:181-200 | `n_frames` awaited on a clock at any time whose buffers hold no other event: the task resumes exactly at the n-th tick, the callback fires once per tick up to it with that tick's dt, and then the event is cancelled and both buffers are empty |
| Frames.WaitFrames | src/asyncgui_ext/clock.py:181-200 | on a new `Clock(start)`: n < 0 is `ValueError` and n = 0 returns at once, both scheduling nothing; otherwise the task resumes exactly at the n-th tick, the callback fires once for each tick up to it with that tick's dt, and then both buffers are empty |
| Traces.IntervalTrace | tests/clock/test_schedule_xxx.py:1-15 | interval 100 under ticks 50, 50, 50, 100, 100 observes [], [], [100], [100], [100, 150], [100, 150, 100] |
| Traces.ZeroIntervalTrace | tests/clock/test_schedule_xxx.py:18-28 | interval 0 under ticks 0, 20, 0 observes [0], [0, 20], [0, 20, 0] |
| Traces.CancelTrace | tests/clock/test_schedule_xxx.py:31-41 | cancelled after its first firing, the event never fires again and both buffers end empty |
| Traces.CancelFromCallbackTrace | tests/clock/test_schedule_xxx.py:44-61 | a callback cancelling its own event: [30, 30], then [.., 60, 60], then [.., 90, 90], then [.., 120]; only the other event stays buffered |
| Traces.ScheduleFromCallbackTrace | tests/clock/test_schedule_xxx.py:64-78 | a callback scheduling an interval event each time: [10], [10, 20, 20], [10, 20, 20, 30, 30, 30]; four events stay buffered |
| Traces.ProgressFiresOnce | src/asyncgui_ext/timer.py:87-94 | `progress(dt)` on a timer whose only event is a due one-shot event fires it once with the time since it was scheduled and leaves both buffers empty |
| Traces.ProgressIdle | src/asyncgui_ext/timer.py:77-101 | `progress(dt)` on a timer with no events only moves the time |
| Traces.DefaultDelayTrace | src/asyncgui_ext/timer.py:103-112 | `schedule_once(f)` then `progress(0)` twice observes [0] and [0], and leaves both buffers empty |
| Traces.PairFires | src/asyncgui_ext/clock.py:73-84 | two due repeating events fire in buffer order, and both are re-queued in that order, one marked cancelled if its callback cancelled it |
| Traces.FiresScheduling | src/asyncgui_ext/clock.py:79-83 | an event scheduled by a callback lands in the built buffer before the re-queued event that scheduled it |

## Left out

- The asyncgui coroutine runtime (`Task._step`, `_current_task`, `_sleep_forever`, `ISignal`, `wait_any_cm`) is foreign code. Resuming a task is a flag of `FrameCounter`. `sleep`, `move_on_after` and the `anim_with_*` family are not modelled.
- `run_in_thread` and `run_in_executor` are threads and executors, i.e. concurrency, and are not modelled.
- `anim_attrs`, `interpolate_scalar`, `interpolate_sequence` and the ratios of `anim_with_ratio` are floating point and `setattr` on arbitrary objects, and are not modelled.
- Callback exceptions are not modelled. `tick` has no try/finally, so an exception would skip the clear and the swap.
- The context-manager form of an event (tests/clock/test_schedule_xxx.py:81-91) does not exist in the `ClockEvent` class shown, so it is not modelled.
- The tests call `clock.advance(dt)`. The traces read it as `tick(dt)`.
- What a callback does is an oracle fixed before the tick: one `Reaction` per invocation. A callback can only cancel events and call `schedule_*`. A callback that reassigns some event's `callback` attribute, or calls `tick` re-entrantly, is not modelled.
- A callback is named by `Callback(id)`, and what it computes is not modelled. The log records the callback object an event held when it fired.
- Frames.AwaitFrames: the countdown over several ticks is proved only for a clock whose buffers hold no event but the `n_frames` one, because the callbacks of other events are an oracle indexed by firing order. One tick among arbitrary other events is `Frames.FrameAmong`.
- Frames.WaitFrames: it starts from a new clock; `Frames.AwaitFrames` covers a clock that has already run.
- Clocks.Clock.Tick: there is no `requires dt >= 0`. The code does not check it; only the docstring of `tick` (src/asyncgui_ext/clock.py:62) asks for it. The lemmas that need it (`DefaultDelayFiresOnce`, `ZeroIntervalStaysDue`, `FrameTick`, `CountedTick`, `AwaitFrames`) take it as a hypothesis.
- Timers.Timer.Progress: `Timer` runs on a `Clock` engine whose method is the loop of `progress`, since the two bodies are the same. `TimerEvent` is `ClockEvent`, which has the same fields and the same `cancel`.
- The ordering lemmas (`TickProperties.*`) assume that all the objects handed out during a pass are new and distinct. `Clock.Tick` proves this for the objects it allocates.
- Time is an unbounded integer. The tests use integers, and the engine only adds, subtracts and compares.
