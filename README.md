# gtimer timing wheel: one level, one tick

This project models one level of the GoFrame `gtimer` timing wheel
(`os/gtimer/gtimer_loop.go`) and proves what it does on each tick of its ticker.
A wheel has `number` slots. Each slot is a FIFO list of timer entries. The wheel
also keeps a tick counter.

- **The status switch of the ticking loop** (`Wheels.OnTick`, `Wheels.Wheel.Tick`).
  - A `Running` timer makes the wheel proceed.
  - A `Closed` timer ends the loop.
  - Any other status does nothing. In particular, a `Stopped` timer does not advance the tick counter.
- **One tick** (`Wheels.Wheel.Proceed`).
  - The counter goes up by one.
  - The slot `counter % number` is selected. The remainder is Go's, which truncates toward zero.
  - If the slot is not empty, it is drained by `Wheels.Wheel.DrainSlot`, with at most as many pops as the slot held when the tick began.
- **The drain loop** (`Wheels.Wheel.DrainSlot`, one iteration `Wheels.Wheel.DrainFront`).
  - Pop the front entry, and stop early if the list is empty.
  - Ask the entry's check for `(runnable, addable)`. The check may also change the entry's status.
  - Dispatch the job if runnable.
  - If addable, re-arm a `Reset` entry to `Ready` and hand the entry to the timer's requeue routine.
- **The job-completion handler** (`Entries.AfterJob`, `Entries.Entry.Complete`).
  - The `panicExit` sentinel closes the entry.
  - Any other panic is re-raised before the status is touched.
  - Otherwise a `Running` entry goes back to `Ready`.

The imperative code is a `Wheel` class whose `slots` field is an `array<seq<Entry>>`, plus an `Entry` class with a mutable `status`. `Entries.Entry.Complete` is proved equal to the function `Entries.AfterJob`. `Entry.Close`, `Wheel.PopFront` and `Wheel.PushBack` state their new state directly. The drain methods (`Wheel.DrainSlot`, `Wheel.DrainFront`, `Wheel.Hand`), `Wheel.Proceed` and `Wheel.Tick` are proved against a value-level specification in module `Drains`:

- `Drain(p, idx, n, env)` is one drain pass over the slot lists and entry statuses.
- It yields the new state and the list of visits. A visit records the entry, its status before, the check's verdict and its status after.
- `Dispatches` and `Requeues` read off the dispatched jobs and the requeue calls from the visits.

The lemmas about `Drain` give the properties of `proceed`:

- FIFO order;
- the pop cap;
- early stop;
- which slots change, and how;
- the per-entry status rule;
- which statuses survive.

Three routines defined elsewhere in the package are parameters:

- `entry.check` is `check: (Entry, Status, ticks, nowMs) -> Verdict`.
- `doAddEntryByParent` is `route: Requeue -> Option<nat>`. `Some(k)` with `k` below the slot count appends the entry to slot `k` of this wheel. Anything else sends it to another wheel.
- The wall clock: `nowMs` is an input.

## Model

| member | source | states |
|---|---|---|
| Entries.AfterJob | os/gtimer/gtimer_loop.go:67-78 | Exactly the non-sentinel panics are re-raised, with their own value and the status untouched. The sentinel always leaves the entry Closed. The only other change is Running to Ready after a normal return. A handler that finishes never leaves the entry Running. Closed is terminal. |
| Entries.Entry.Complete | os/gtimer/gtimer_loop.go:66-80 | The deferred handler's new status and re-raised panic are exactly those that `AfterJob` gives for the old status and the job's outcome. |
| Entries.Entry.Close | os/gtimer/gtimer_loop.go:72 | Closing an entry leaves it Closed. |
| Wheels.OnTick | os/gtimer/gtimer_loop.go:25-35 | The loop proceeds iff the timer is Running and halts iff it is Closed. Every other status (Stopped included) is idle. |
| Wheels.Wheel.Tick | os/gtimer/gtimer_loop.go:24-35 | One firing of the ticker takes the `OnTick` action. On Advance the wheel does what `Proceed` promises. Otherwise the tick counter, every slot list and the statuses of the entries in the next slot are unchanged, and nothing is dispatched or requeued. |
| Wheels.SlotIndex | os/gtimer/gtimer_loop.go:49 | A non-negative counter selects a slot in `[0, number)`. A negative one, reachable only through wrap-around, gives a value in `(-number, 0]` under Go's truncating remainder. |
| Wheels.SlotIndexWraps | os/gtimer/gtimer_loop.go:48-49 | The wheel comes back to the same slot every `number` ticks. |
| Wheels.SlotIndexNext | os/gtimer/gtimer_loop.go:48-49 | Consecutive ticks select consecutive slots, with the last slot followed by slot 0. |
| Wheels.Wheel.Proceed | os/gtimer/gtimer_loop.go:46-93 | The tick counter goes up by exactly one. The slot of the new counter value is drained with at most its length at tick start as the pop cap. The new slot lists, the new statuses of that slot's entries, the dispatched jobs and the requeue calls are those of `Drain` on the old state. An empty slot leaves every slot list unchanged and dispatches and requeues nothing. |
| Wheels.TickDrainVisitsAll | os/gtimer/gtimer_loop.go:50-61 | A tick pops every entry its slot held at tick start, once each, front to back: its i-th visit is of the slot's i-th entry. |
| Wheels.TickDrainSlots | os/gtimer/gtimer_loop.go:50-88 | After a tick the drained slot holds only the entries requeued into it during the tick. Every other slot holds its old entries followed by those routed to it, in call order. |
| Wheels.Wheel.DrainSlot | os/gtimer/gtimer_loop.go:55-91 | The count-down loop with its early `break` leaves the slot lists, the entries' statuses, the dispatched jobs and the requeue calls exactly as `Drain` says, for any cap `length`. |
| Wheels.Wheel.DrainFront | os/gtimer/gtimer_loop.go:57-88 | One iteration takes the wheel from state `p` to `Step(p)`. It dispatches the front entry iff its check says runnable. It makes the requeue call `(!runnable, nowMs, installIntervalMs, entry)` iff the check says addable. |
| Wheels.Wheel.PopFront | os/gtimer/gtimer_loop.go:57 | Pops and returns the front entry of one slot. No other slot changes. |
| Wheels.Wheel.Hand | os/gtimer/gtimer_loop.go:88 | A requeue call appends the entry to the slot of this wheel it is routed to, or changes no slot of this wheel. |
| Drains.Settle | os/gtimer/gtimer_loop.go:84-87 | The status after a check differs from the check's only when the entry is addable and was Reset, and then it is Ready. An addable entry is never left Reset. A non-addable entry keeps the check's status. |
| Drains.Drain | os/gtimer/gtimer_loop.go:56-91 | A drain pass makes at most `n` pops. It keeps the slot count and the set of tracked entries. |
| Drains.DrainVisitsFront | os/gtimer/gtimer_loop.go:56-61 | When the slot holds at least `n` entries, the pass visits exactly its first `n`, front to back. |
| Drains.DrainStopsWhenEmpty | os/gtimer/gtimer_loop.go:56-61 | When nothing is routed back into the drained slot, a pass asked for `n` pops makes exactly `min(n, length)` of them, on the slot's front entries, and stops without error. |
| Drains.DrainLeavesRest | os/gtimer/gtimer_loop.go:56-61 | Under the same condition, what stays in the slot is everything after the popped entries. |
| Drains.DrainSlotContents | os/gtimer/gtimer_loop.go:50-88 | The drained slot loses exactly its first `n` entries. Every slot gains at its back the entries the requeue calls route to it, in call order. Entries put back into the drained slot stay there for a later rotation. No slot changes in any other way. |
| Drains.DispatchesExactly | os/gtimer/gtimer_loop.go:63-81 | An entry's job is dispatched iff one of its visits found it runnable. |
| Drains.RequeuesExactly | os/gtimer/gtimer_loop.go:83-88 | A requeue call is made iff a visit found the entry addable. It carries `!runnable`, the tick's `nowMs` and the entry's `installIntervalMs`. A non-addable entry is never handed back. |
| Drains.RoutedToExactly | os/gtimer/gtimer_loop.go:88 | An entry lands in slot `k` of this wheel iff one of its requeue calls is routed there. |
| Drains.DrainVisitsSound | os/gtimer/gtimer_loop.go:63-87 | Every visit asks the check about the entry's status at pop time, with the tick's counter and wall time. The status it leaves is the check's, re-armed from Reset to Ready for addable entries. |
| Drains.DrainKeepsUnvisited | os/gtimer/gtimer_loop.go:56-88 | Entries the pass does not pop keep their status. |
| Drains.DrainSeesStartStatus | os/gtimer/gtimer_loop.go:56-63 | When the popped entries are distinct, the i-th is checked with the status it had when the pass began. |
| Drains.DrainStatusOfDistinct | os/gtimer/gtimer_loop.go:56-87 | When the popped entries are distinct, the i-th ends the pass with the status its own visit left. |

## Left out

- The goroutines are not modelled. The ticker goroutine of `start`, the drain goroutine of `proceed` and the job goroutines all run concurrently in Go. Here the drain is one atomic sequential step, job completion is a separate step (`Entries.Entry.Complete`), and interleavings between the tick loop, the drain, the jobs and callers are not modelled.
- Wheels.Wheel.Tick: the endless `for`/`select` loop of `start` and `time.Ticker` are not modelled. One loop iteration is one call, and `Halt` stands for `ticker.Stop(); return`.
- The wall clock is not read: the tick's `nowMs` is an input.
- The bodies of `entry.check`, `doAddEntryByParent` and `entry.Close` are not part of this model. They are the `check` and `route` parameters and an abstract `Close`. The model assumes nothing about the multi-level cascading arithmetic behind `route`.
- The atomic integer types become plain fields.
- The job body is not modelled. Only its outcome is: a normal return, the `panicExit` sentinel, or another panic value.
- Wheels.SlotIndex: the 64-bit tick counter is an unbounded integer. Wrap-around after 2^63 ticks is not modelled, so `Valid` keeps the counter non-negative. The negative branch only records what Go's remainder would give. A wheel with no slots, on which Go's `nowTicks%w.number` panics with an integer divide by zero, is excluded by `requires number > 0` here and in the `Wheel` constructor and `Valid`; that panic is not modelled.
- Entries.AfterJob: `panic(nil)`, which `recover` reports as nil in older Go versions, is not distinguished from a normal return.
- Drains.DrainSeesStartStatus, Drains.DrainStatusOfDistinct: these state the per-entry status only for distinct popped entries. An entry listed twice in one slot would be checked twice in the same pass, and the general case is covered only by `Drains.DrainVisitsSound` and `Drains.DrainKeepsUnvisited`.
- Drains.Place, Drains.RoutedToExactly, Drains.DrainSlotContents: the requeue routine is assumed to put back the same `Entry` object, at the back of at most one slot of this wheel. If `doAddEntryByParent` builds a new entry from its parent instead, these lemmas speak of the object handed to it, not of the one that lands in the slot.
- Drains.DrainStopsWhenEmpty, Drains.DrainLeavesRest: these assume that nothing is routed back into the slot being drained. Without that assumption, `Drains.DrainSlotContents` gives the slot's contents.
- The wheel's own `intervalMs` (`Wheels.Wheel.intervalMs`) is kept as a field but not used: it only sets the ticker's period.
