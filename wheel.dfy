// One level of the timing wheel: its tick counter, its slot lists, the per-tick
// `proceed` step that drains the current slot, and the status switch of the
// ticking loop.

module Wheels {
  import opened Entries
  import opened Drains

  /** What one firing of the wheel's ticker does, by timer status. */
  datatype TickAction = Advance | Idle | Halt

  /**
   * The status switch of the ticking loop: a running timer advances the wheel,
   * a closed one ends the loop, and any other status (Stopped, and the values
   * the switch has no case for) does nothing, so the wheel's ticks stay put.
   */
  function OnTick(timerStatus: Status): (a: TickAction)
    ensures a == Advance <==> timerStatus == Running
    ensures a == Halt <==> timerStatus == Closed
    ensures a == Idle <==> timerStatus != Running && timerStatus != Closed
  {
    match timerStatus
    case Running => Advance
    case Closed => Halt
    case _ => Idle
  }

  /**
   * The slot of tick `ticks` in a wheel of `number` slots, with Go's
   * remainder, which truncates toward zero (so a negative counter,
   * which only a wrapped-around counter could be, would give a non-positive slot).
   */
  function SlotIndex(ticks: int, number: int): (k: int)
    requires number > 0
    ensures ticks >= 0 ==> 0 <= k < number
    ensures ticks < 0 ==> -number < k <= 0
  {
    if ticks >= 0 then ticks % number else -((-ticks) % number)
  }

  /** A positive multiple of a positive number is at least that number. */
  lemma {:induction false} MultipleAtLeast(a: int, n: int)
    requires a >= 1 && n > 0
    ensures a * n >= n
    decreases a
  {
    if a > 1 {
      MultipleAtLeast(a - 1, n);
      assert a * n == (a - 1) * n + n;
    }
  }

  /** The remainder is determined by any quotient-remainder split of the dividend. */
  lemma ModOfSplit(t: int, q: int, r: int, n: int)
    requires n > 0 && 0 <= r < n && t == q * n + r
    ensures t % n == r
  {
    var q', r' := t / n, t % n;
    assert (q - q') * n == r' - r;
    if q - q' >= 1 {
      MultipleAtLeast(q - q', n);
      assert false;
    } else if q' - q >= 1 {
      assert (q' - q) * n == r - r';
      MultipleAtLeast(q' - q, n);
      assert false;
    }
  }

  /** The wheel comes back to the same slot every `number` ticks. */
  lemma {:induction false} SlotIndexWraps(ticks: int, number: int)
    requires number > 0 && ticks >= 0
    ensures SlotIndex(ticks + number, number) == SlotIndex(ticks, number)
  {
    ModOfSplit(ticks + number, ticks / number + 1, ticks % number, number);
  }

  /** Consecutive ticks visit consecutive slots, the last slot followed by the first. */
  lemma {:induction false} SlotIndexNext(ticks: int, number: int)
    requires number > 0 && ticks >= 0
    ensures SlotIndex(ticks + 1, number) ==
              if SlotIndex(ticks, number) == number - 1 then 0 else SlotIndex(ticks, number) + 1
  {
    var q, r := ticks / number, ticks % number;
    if r == number - 1 {
      ModOfSplit(ticks + 1, q + 1, 0, number);
    } else {
      ModOfSplit(ticks + 1, q, r + 1, number);
    }
  }

  /** The entries of a slot list, as a set. */
  function Members(es: seq<Entry>): set<Entry>
  {
    set e | e in es
  }

  /** The statuses of the entries of a slot list, as a map. */
  ghost function StatusOf(es: seq<Entry>): (m: map<Entry, Status>)
    reads Members(es)
    ensures m.Keys == Members(es)
    ensures forall e :: e in es ==> e in m && m[e] == e.status
  {
    map e | e in es :: e.status
  }

  /**
   * The drain pass a tick makes: slot `idx` of the wheel state `slots`, at most
   * its current length of pops, with the slot's entries in the statuses `status`.
   */
  ghost function TickDrain(slots: seq<seq<Entry>>, status: map<Entry, Status>, idx: nat, env: TickEnv): Drained
    requires idx < |slots| && forall e :: e in slots[idx] ==> e in status
  {
    Drain(Pass(slots, status), idx, |slots[idx]|, env)
  }

  /** A tick pops every entry its slot held when the tick began, once each, front to back. */
  lemma TickDrainVisitsAll(slots: seq<seq<Entry>>, status: map<Entry, Status>, idx: nat, env: TickEnv)
    requires idx < |slots| && forall e :: e in slots[idx] ==> e in status
    ensures EntriesOf(TickDrain(slots, status, idx, env).visits) == slots[idx]
    ensures var t := TickDrain(slots, status, idx, env).visits;
            |t| == |slots[idx]| && forall i :: 0 <= i < |t| ==> t[i].entry == slots[idx][i]
  {
    var t := TickDrain(slots, status, idx, env).visits;
    DrainVisitsFront(Pass(slots, status), idx, |slots[idx]|, env);
    assert slots[idx][..|slots[idx]|] == slots[idx];
    forall i | 0 <= i < |t|
      ensures t[i].entry == slots[idx][i]
    {
      EntriesOfAt(t, i);
    }
  }

  /**
   * After a tick, the drained slot holds only the entries the requeue routine put
   * back into it during the tick, and every other slot `k` holds its old entries
   * followed by those routed to it.
   */
  lemma TickDrainSlots(slots: seq<seq<Entry>>, status: map<Entry, Status>, idx: nat, env: TickEnv, k: nat)
    requires idx < |slots| && forall e :: e in slots[idx] ==> e in status
    requires k < |slots|
    ensures var d := TickDrain(slots, status, idx, env);
            d.pass.slots[k] == (if k == idx then [] else slots[k]) +
                               RoutedTo(Requeues(d.visits, env.nowMs), env.route, k)
  {
    DrainSlotContents(Pass(slots, status), idx, |slots[idx]|, env, k);
    assert slots[idx][|slots[idx]|..] == [];
  }

  class Wheel {
    /** The number of slots. */
    const number: int
    /** The tick interval, in milliseconds. */
    const intervalMs: int
    /** The slot lists, each in FIFO order. */
    const slots: array<seq<Entry>>
    /** Ticks observed so far. */
    var ticks: int

    ghost predicate Valid()
      reads this
    {
      number > 0 && slots.Length == number && ticks >= 0
    }

    constructor (number: int, intervalMs: int)
      requires number > 0
      ensures Valid() && fresh(slots)
      ensures this.number == number && this.intervalMs == intervalMs && ticks == 0
      ensures forall k :: 0 <= k < number ==> slots[k] == []
    {
      this.number := number;
      this.intervalMs := intervalMs;
      slots := new seq<Entry>[number](_ => []);
      ticks := 0;
    }

    /**
     * The draining routine of one tick: pop at most `length` entries from the
     * front of slot `idx`, check each, re-arm `Reset` to `Ready` for those that
     * stay scheduled and hand those to the requeue routine; stop early if the
     * slot runs out. Returns the entries whose job is dispatched and the requeue
     * calls made, both in pop order.
     */
    method DrainSlot(idx: nat, length: nat, env: TickEnv) returns (dispatched: seq<Entry>, requeued: seq<Requeue>)
      requires Valid() && idx < number
      modifies slots, Members(slots[idx])
      ensures var d := Drain(Pass(old(slots[..]), old(StatusOf(slots[idx]))), idx, length, env);
              slots[..] == d.pass.slots &&
              (forall e :: e in d.pass.status ==> e.status == d.pass.status[e]) &&
              dispatched == Dispatches(d.visits) &&
              requeued == Requeues(d.visits, env.nowMs)
    {
      ghost var start := Pass(slots[..], StatusOf(slots[idx]));
      ghost var final := Drain(start, idx, length, env);
      ghost var cur := start;
      ghost var visits: seq<Visit> := [];
      assert final.visits == visits + final.visits;
      dispatched, requeued := [], [];
      var i := length;
      while i > 0
        invariant Resumes(final, cur, idx, i, visits, env)
        invariant |cur.slots| == number && cur.status.Keys == start.status.Keys
        invariant slots[..] == cur.slots
        invariant forall e :: e in cur.status ==> e.status == cur.status[e]
        invariant dispatched == Dispatches(visits) && requeued == Requeues(visits, env.nowMs)
      {
        if slots[idx] == [] {
          break;
        }
        ghost var here, done, n := cur, visits, i;
        var one, oneRequeued := DrainFront(idx, env, cur);
        dispatched, requeued := dispatched + one, requeued + oneRequeued;
        visits := visits + [Front(here, idx, env)];
        cur := Step(here, idx, env);
        i := i - 1;
        DrainAdvance(final, here, idx, n, i, done, env);
      }
      DrainFinished(final, cur, idx, i, visits, env);
    }

    /**
     * One iteration of the draining routine, on a slot that is not empty: pop the
     * front entry, ask its check about this tick, dispatch it if runnable, and if
     * addable re-arm `Reset` to `Ready` and hand it to the requeue routine. `p` is
     * the wheel state before the iteration, as a value; the iteration takes it to
     * `Step(p, idx, env)` and reports the visit `Front(p, idx, env)`.
     */
    method DrainFront(idx: nat, env: TickEnv, ghost p: Pass) returns (dispatched: seq<Entry>, requeued: seq<Requeue>)
      requires Valid() && idx < number
      requires Drainable(p, idx) && slots[..] == p.slots && |p.slots[idx]| > 0
      requires forall e :: e in p.status ==> e.status == p.status[e]
      modifies slots, slots[idx][0]
      ensures slots[..] == Step(p, idx, env).slots
      ensures forall e :: e in Step(p, idx, env).status ==> e.status == Step(p, idx, env).status[e]
      ensures dispatched == Dispatches([Front(p, idx, env)])
      ensures requeued == Requeues([Front(p, idx, env)], env.nowMs)
    {
      SingleVisit(Front(p, idx, env), env.nowMs);
      var entry := PopFront(idx);
      var verdict := env.check(entry, entry.status, env.nowTicks, env.nowMs);
      entry.status := verdict.status;
      dispatched, requeued := [], [];
      if verdict.runnable {
        dispatched := [entry];
      }
      if verdict.addable {
        if entry.status == Reset {
          entry.status := Ready;
        }
        var r := Requeue(!verdict.runnable, env.nowMs, entry.installIntervalMs, entry);
        requeued := [r];
        Hand(r, env.route);
      }
    }

    /** Remove and return the front entry of slot `idx`. */
    method PopFront(idx: nat) returns (e: Entry)
      requires Valid() && idx < number && slots[idx] != []
      modifies slots
      ensures e == old(slots[idx][0])
      ensures slots[..] == old(slots[..])[idx := old(slots[idx][1..])]
    {
      e := slots[idx][0];
      slots[idx] := slots[idx][1..];
    }

    /** Append an entry at the back of slot `k`. */
    method PushBack(k: nat, e: Entry)
      requires Valid() && k < number
      modifies slots
      ensures slots[..] == old(slots[..])[k := old(slots[k]) + [e]]
    {
      slots[k] := slots[k] + [e];
    }

    /**
     * The requeue routine, as far as this wheel sees it: the entry is appended
     * to the slot of this wheel that `route` names, or goes to another wheel.
     */
    method Hand(r: Requeue, route: Requeue -> Option<nat>)
      requires Valid()
      modifies slots
      ensures slots[..] == Place(old(slots[..]), r, route)
    {
      match route(r) {
        case Some(k) =>
          if k < slots.Length {
            PushBack(k, r.entry);
          }
        case None =>
      }
    }

    /**
     * One tick of the wheel: advance the tick counter, select the slot of the new
     * counter value and, when that slot is not empty, drain it, popping at most
     * as many entries as it held when the tick began.
     */
    method Proceed(nowMs: int, check: (Entry, Status, int, int) -> Verdict, route: Requeue -> Option<nat>)
      returns (dispatched: seq<Entry>, requeued: seq<Requeue>)
      requires Valid()
      modifies this`ticks, slots, Members(slots[SlotIndex(ticks + 1, number)])
      ensures Valid() && ticks == old(ticks) + 1
      ensures var idx := SlotIndex(ticks, number);
              var d := TickDrain(old(slots[..]), old(StatusOf(slots[idx])), idx, TickEnv(ticks, nowMs, check, route));
              slots[..] == d.pass.slots &&
              (forall e :: e in d.pass.status ==> e.status == d.pass.status[e]) &&
              dispatched == Dispatches(d.visits) &&
              requeued == Requeues(d.visits, nowMs)
      // an empty slot: nothing but the tick counter changes
      ensures var idx := SlotIndex(ticks, number);
              old(slots[idx]) == [] ==> slots[..] == old(slots[..]) && dispatched == [] && requeued == []
    {
      ghost var before := slots[..];
      ticks := ticks + 1;
      assert slots[..] == before;
      var nowTicks := ticks;
      var idx := SlotIndex(nowTicks, number);
      var length := |slots[idx]|;
      var env := TickEnv(nowTicks, nowMs, check, route);
      ghost var p := Pass(slots[..], StatusOf(slots[idx]));
      assert TickDrain(old(slots[..]), old(StatusOf(slots[idx])), idx, env) == Drain(p, idx, length, env);
      dispatched, requeued := [], [];
      if length > 0 {
        dispatched, requeued := DrainSlot(idx, length, env);
      } else {
        assert Drain(p, idx, length, env) == Drained(p, []);
        assert slots[..] == old(slots[..]);
      }
    }

    /**
     * One firing of the ticker: a running timer makes the wheel proceed, any
     * other status leaves the wheel and its entries exactly as they were, and a
     * closed timer also ends the loop (`Halt`).
     */
    method Tick(timerStatus: Status, nowMs: int, check: (Entry, Status, int, int) -> Verdict, route: Requeue -> Option<nat>)
      returns (action: TickAction, dispatched: seq<Entry>, requeued: seq<Requeue>)
      requires Valid()
      modifies this`ticks, slots, Members(slots[SlotIndex(ticks + 1, number)])
      ensures Valid() && action == OnTick(timerStatus)
      ensures action == Advance ==>
                ticks == old(ticks) + 1 &&
                var idx := SlotIndex(ticks, number);
                var d := TickDrain(old(slots[..]), old(StatusOf(slots[idx])), idx, TickEnv(ticks, nowMs, check, route));
                slots[..] == d.pass.slots &&
                (forall e :: e in d.pass.status ==> e.status == d.pass.status[e]) &&
                dispatched == Dispatches(d.visits) &&
                requeued == Requeues(d.visits, nowMs)
      ensures action != Advance ==>
                ticks == old(ticks) && slots[..] == old(slots[..]) &&
                (forall e :: e in old(slots[SlotIndex(ticks + 1, number)]) ==> e.status == old(e.status)) &&
                dispatched == [] && requeued == []
    {
      action := OnTick(timerStatus);
      dispatched, requeued := [], [];
      if action == Advance {
        dispatched, requeued := Proceed(nowMs, check, route);
      }
    }
  }
}
