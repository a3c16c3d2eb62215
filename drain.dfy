// One drain pass over one slot of a timing wheel, as values: which entries are
// popped, what their check says, what happens to their status, which of them are
// handed back to the timer and where they land. The Wheel class in wheel.dfy is
// proved to do exactly this.

module Drains {
  import opened Entries

  /**
   * What `entry.check(nowTicks, nowMs)` answers: whether the job runs now, whether
   * the entry stays scheduled, and the status check leaves the entry in (the check
   * itself may change it, e.g. when it claims the entry for a run).
   */
  datatype Verdict = Verdict(runnable: bool, addable: bool, status: Status)

  /** One call of the timer's requeue routine: `doAddEntryByParent(!runnable, nowMs, installIntervalMs, entry)`. */
  datatype Requeue = Requeue(notRunnable: bool, nowMs: int, intervalMs: int, entry: Entry)

  /**
   * Everything a drain pass depends on besides the wheel: the tick's counter value
   * and wall time (read once per tick), the entries' check routine, and where the
   * timer's requeue routine puts an entry: `Some(k)` with k below the slot count
   * is slot k of this wheel; `None`, or an index this wheel does not have, is
   * some other wheel.
   */
  datatype TickEnv = TickEnv(
    nowTicks: int,
    nowMs: int,
    check: (Entry, Status, int, int) -> Verdict,
    route: Requeue -> Option<nat>)

  /** One popped entry: its status when popped, the check's verdict, its status afterwards. */
  datatype Visit = Visit(entry: Entry, before: Status, verdict: Verdict, after: Status)

  /** What a drain pass works on: the wheel's slot lists and the statuses of the entries it may pop. */
  datatype Pass = Pass(slots: seq<seq<Entry>>, status: map<Entry, Status>)

  /** The outcome of a drain pass: the new state, and the visits made, in pop order. */
  datatype Drained = Drained(pass: Pass, visits: seq<Visit>)

  /** `p` can be drained at slot `idx`: the slot exists and the status of every entry in it is known. */
  ghost predicate Drainable(p: Pass, idx: nat)
  {
    idx < |p.slots| &&
    forall e :: e in p.slots[idx] ==> e in p.status
  }

  /** The status an entry keeps after its check: an addable entry left in `Reset` is re-armed to `Ready`. */
  function Settle(v: Verdict): (s: Status)
    ensures s != v.status ==> v.addable && v.status == Reset && s == Ready
    ensures v.addable ==> s != Reset
  {
    if v.addable && v.status == Reset then Ready else v.status
  }

  /** The requeue call made for a visit. */
  function RequeueOf(v: Visit, nowMs: int): Requeue
  {
    Requeue(!v.verdict.runnable, nowMs, v.entry.installIntervalMs, v.entry)
  }

  /** The requeue routine's effect on this wheel: append the entry to the slot it names, if any. */
  function Place(slots: seq<seq<Entry>>, r: Requeue, route: Requeue -> Option<nat>): (s: seq<seq<Entry>>)
    ensures |s| == |slots|
  {
    match route(r)
    case Some(k) => if k < |slots| then slots[k := slots[k] + [r.entry]] else slots
    case None => slots
  }

  /** Placing an entry appends it to the one slot it is routed to and leaves every other slot as it was. */
  lemma PlaceAt(slots: seq<seq<Entry>>, r: Requeue, route: Requeue -> Option<nat>, k: nat)
    requires k < |slots|
    ensures Place(slots, r, route)[k] == slots[k] + (if route(r) == Some(k) then [r.entry] else [])
  {
  }

  /** The i-th popped entry of a trace is the entry of its i-th visit. */
  lemma {:induction false} EntriesOfAt(t: seq<Visit>, i: nat)
    requires i < |t|
    ensures EntriesOf(t)[i] == t[i].entry
  {
    if i > 0 {
      EntriesOfAt(t[1..], i - 1);
    }
  }

  /** The popped entries of a trace, in pop order. */
  function EntriesOf(t: seq<Visit>): (es: seq<Entry>)
    ensures |es| == |t|
  {
    if t == [] then [] else [t[0].entry] + EntriesOf(t[1..])
  }

  /** The entries whose job is dispatched, in pop order: those whose check said runnable. */
  function Dispatches(t: seq<Visit>): seq<Entry>
  {
    if t == [] then []
    else (if t[0].verdict.runnable then [t[0].entry] else []) + Dispatches(t[1..])
  }

  /** The requeue calls made, in pop order: one for each visit whose check said addable. */
  function Requeues(t: seq<Visit>, nowMs: int): seq<Requeue>
  {
    if t == [] then []
    else (if t[0].verdict.addable then [RequeueOf(t[0], nowMs)] else []) + Requeues(t[1..], nowMs)
  }

  /** The entries that a sequence of requeue calls appends to slot k of this wheel, in call order. */
  function RoutedTo(rs: seq<Requeue>, route: Requeue -> Option<nat>, k: nat): seq<Entry>
  {
    if rs == [] then []
    else (if route(rs[0]) == Some(k) then [rs[0].entry] else []) + RoutedTo(rs[1..], route, k)
  }

  /** The visit of the front entry of slot `idx`: what check answers for it, and the status it is left in. */
  function Front(p: Pass, idx: nat, env: TickEnv): (v: Visit)
    requires Drainable(p, idx) && |p.slots[idx]| > 0
    ensures v.entry == p.slots[idx][0] && v.before == p.status[v.entry]
  {
    var e := p.slots[idx][0];
    var verdict := env.check(e, p.status[e], env.nowTicks, env.nowMs);
    Visit(e, p.status[e], verdict, Settle(verdict))
  }

  /**
   * One iteration of the drain loop: pop the front entry of slot `idx`, apply the
   * status its visit leaves, and if the check said addable, hand it to the
   * requeue routine.
   */
  function Step(p: Pass, idx: nat, env: TickEnv): (q: Pass)
    requires Drainable(p, idx) && |p.slots[idx]| > 0
    ensures Drainable(q, idx)
    ensures |q.slots| == |p.slots| && q.status.Keys == p.status.Keys
  {
    var v := Front(p, idx, env);
    var popped := p.slots[idx := p.slots[idx][1..]];
    Pass(if v.verdict.addable then Place(popped, RequeueOf(v, env.nowMs), env.route) else popped,
         p.status[v.entry := v.after])
  }

  /**
   * A drain pass that may pop at most `n` entries from slot `idx` and stops early,
   * without error, once the slot is empty.
   */
  function Drain(p: Pass, idx: nat, n: nat, env: TickEnv): (d: Drained)
    requires Drainable(p, idx)
    ensures Drainable(d.pass, idx)
    ensures |d.pass.slots| == |p.slots| && d.pass.status.Keys == p.status.Keys
    // at most n entries are popped
    ensures |d.visits| <= n
    decreases n
  {
    if n == 0 || |p.slots[idx]| == 0 then Drained(p, [])
    else
      var rest := Drain(Step(p, idx, env), idx, n - 1, env);
      Drained(rest.pass, [Front(p, idx, env)] + rest.visits)
  }

  // ---------------------------------------------------------------------------
  // What the trace filters select.

  /** An entry's job is dispatched exactly when one of its visits found it runnable. */
  lemma {:induction false} DispatchesExactly(t: seq<Visit>, e: Entry)
    ensures e in Dispatches(t) <==> exists i :: 0 <= i < |t| && t[i].verdict.runnable && t[i].entry == e
  {
    if t != [] {
      DispatchesExactly(t[1..], e);
      if e in Dispatches(t[1..]) {
        var i :| 0 <= i < |t| - 1 && t[1..][i].verdict.runnable && t[1..][i].entry == e;
        assert t[i + 1] == t[1..][i];
      }
      if exists i :: 0 <= i < |t| && t[i].verdict.runnable && t[i].entry == e {
        var i :| 0 <= i < |t| && t[i].verdict.runnable && t[i].entry == e;
        if i > 0 {
          assert t[1..][i - 1] == t[i];
        }
      }
    }
  }

  /**
   * A requeue call is made exactly for the visits whose check said addable, and
   * carries `!runnable`, the tick's wall time and the entry's install interval.
   */
  lemma {:induction false} RequeuesExactly(t: seq<Visit>, nowMs: int, r: Requeue)
    ensures r in Requeues(t, nowMs) <==>
              exists i :: 0 <= i < |t| && t[i].verdict.addable &&
                r == Requeue(!t[i].verdict.runnable, nowMs, t[i].entry.installIntervalMs, t[i].entry)
  {
    if t != [] {
      RequeuesExactly(t[1..], nowMs, r);
      if r in Requeues(t[1..], nowMs) {
        var i :| 0 <= i < |t| - 1 && t[1..][i].verdict.addable &&
                 r == Requeue(!t[1..][i].verdict.runnable, nowMs, t[1..][i].entry.installIntervalMs, t[1..][i].entry);
        assert t[i + 1] == t[1..][i];
      }
      if exists i :: 0 <= i < |t| && t[i].verdict.addable &&
           r == Requeue(!t[i].verdict.runnable, nowMs, t[i].entry.installIntervalMs, t[i].entry) {
        var i :| 0 <= i < |t| && t[i].verdict.addable &&
                 r == Requeue(!t[i].verdict.runnable, nowMs, t[i].entry.installIntervalMs, t[i].entry);
        if i > 0 {
          assert t[1..][i - 1] == t[i];
        }
      }
    }
  }

  /** An entry lands in slot k of this wheel exactly when one of the requeue calls for it is routed there. */
  lemma {:induction false} RoutedToExactly(rs: seq<Requeue>, route: Requeue -> Option<nat>, k: nat, e: Entry)
    ensures e in RoutedTo(rs, route, k) <==> exists j :: 0 <= j < |rs| && route(rs[j]) == Some(k) && rs[j].entry == e
  {
    if rs != [] {
      RoutedToExactly(rs[1..], route, k, e);
      if e in RoutedTo(rs[1..], route, k) {
        var j :| 0 <= j < |rs| - 1 && route(rs[1..][j]) == Some(k) && rs[1..][j].entry == e;
        assert rs[j + 1] == rs[1..][j];
      }
      if exists j :: 0 <= j < |rs| && route(rs[j]) == Some(k) && rs[j].entry == e {
        var j :| 0 <= j < |rs| && route(rs[j]) == Some(k) && rs[j].entry == e;
        if j > 0 {
          assert rs[1..][j - 1] == rs[j];
        }
      }
    }
  }

  // ---------------------------------------------------------------------------
  // The trace filters distribute over concatenation.

  lemma {:induction false} DispatchesAppend(a: seq<Visit>, b: seq<Visit>)
    ensures Dispatches(a + b) == Dispatches(a) + Dispatches(b)
  {
    if a == [] {
      assert a + b == b;
    } else {
      var head := if a[0].verdict.runnable then [a[0].entry] else [];
      assert (a + b)[0] == a[0] && (a + b)[1..] == a[1..] + b;
      calc {
        Dispatches(a + b);
        head + Dispatches(a[1..] + b);
        { DispatchesAppend(a[1..], b); }
        head + (Dispatches(a[1..]) + Dispatches(b));
        (head + Dispatches(a[1..])) + Dispatches(b);
      }
    }
  }

  lemma {:induction false} RequeuesAppend(a: seq<Visit>, b: seq<Visit>, nowMs: int)
    ensures Requeues(a + b, nowMs) == Requeues(a, nowMs) + Requeues(b, nowMs)
  {
    if a == [] {
      assert a + b == b;
    } else {
      var head := if a[0].verdict.addable then [RequeueOf(a[0], nowMs)] else [];
      assert (a + b)[0] == a[0] && (a + b)[1..] == a[1..] + b;
      calc {
        Requeues(a + b, nowMs);
        head + Requeues(a[1..] + b, nowMs);
        { RequeuesAppend(a[1..], b, nowMs); }
        head + (Requeues(a[1..], nowMs) + Requeues(b, nowMs));
        (head + Requeues(a[1..], nowMs)) + Requeues(b, nowMs);
      }
    }
  }

  lemma {:induction false} RoutedToAppend(a: seq<Requeue>, b: seq<Requeue>, route: Requeue -> Option<nat>, k: nat)
    ensures RoutedTo(a + b, route, k) == RoutedTo(a, route, k) + RoutedTo(b, route, k)
  {
    if a == [] {
      assert a + b == b;
    } else {
      var head := if route(a[0]) == Some(k) then [a[0].entry] else [];
      assert (a + b)[0] == a[0] && (a + b)[1..] == a[1..] + b;
      calc {
        RoutedTo(a + b, route, k);
        head + RoutedTo(a[1..] + b, route, k);
        { RoutedToAppend(a[1..], b, route, k); }
        head + (RoutedTo(a[1..], route, k) + RoutedTo(b, route, k));
        (head + RoutedTo(a[1..], route, k)) + RoutedTo(b, route, k);
      }
    }
  }

  // ---------------------------------------------------------------------------
  // The loop form of a drain pass.

  /**
   * The drain loop's invariant: a pass that has made the visits `done` and is at
   * `p` with `n` pops to go ends as `final`.
   */
  ghost predicate Resumes(final: Drained, p: Pass, idx: nat, n: nat, done: seq<Visit>, env: TickEnv)
  {
    Drainable(p, idx) &&
    final.pass == Drain(p, idx, n, env).pass &&
    final.visits == done + Drain(p, idx, n, env).visits
  }

  /**
   * The invariant survives one iteration: one step later it holds of `Step(p)`
   * with the visit of the front entry done and one pop fewer (`m`) to go.
   */
  lemma DrainAdvance(final: Drained, p: Pass, idx: nat, n: nat, m: nat, done: seq<Visit>, env: TickEnv)
    requires Resumes(final, p, idx, n, done, env) && n > 0 && |p.slots[idx]| > 0 && m == n - 1
    ensures Resumes(final, Step(p, idx, env), idx, m, done + [Front(p, idx, env)], env)
    ensures Dispatches(done + [Front(p, idx, env)]) == Dispatches(done) + Dispatches([Front(p, idx, env)])
    ensures Requeues(done + [Front(p, idx, env)], env.nowMs) ==
              Requeues(done, env.nowMs) + Requeues([Front(p, idx, env)], env.nowMs)
  {
    var v := Front(p, idx, env);
    var d := Drain(Step(p, idx, env), idx, n - 1, env);
    assert Drain(p, idx, n, env).visits == [v] + d.visits;
    assert done + ([v] + d.visits) == (done + [v]) + d.visits;
    DispatchesAppend(done, [v]);
    RequeuesAppend(done, [v], env.nowMs);
  }

  /** When the pass has stopped, the visits made are all of `final`'s and `p` is where it ends. */
  lemma DrainFinished(final: Drained, p: Pass, idx: nat, n: nat, done: seq<Visit>, env: TickEnv)
    requires Resumes(final, p, idx, n, done, env) && (n == 0 || |p.slots[idx]| == 0)
    ensures final.pass == p && final.visits == done
  {
    assert done + [] == done;
  }

  /** A singleton trace dispatches its entry iff the check said runnable, and requeues it iff addable. */
  lemma SingleVisit(v: Visit, nowMs: int)
    ensures Dispatches([v]) == if v.verdict.runnable then [v.entry] else []
    ensures Requeues([v], nowMs) == if v.verdict.addable then [RequeueOf(v, nowMs)] else []
  {
    assert [v][1..] == [];
  }

  // ---------------------------------------------------------------------------
  // Properties of a drain pass.

  /**
   * FIFO and the cap: when the slot holds at least `n` entries, the pass visits
   * exactly its first `n` entries, front to back.
   */
  lemma {:induction false} DrainVisitsFront(p: Pass, idx: nat, n: nat, env: TickEnv)
    requires Drainable(p, idx) && n <= |p.slots[idx]|
    ensures EntriesOf(Drain(p, idx, n, env).visits) == p.slots[idx][..n]
    decreases n
  {
    if n > 0 {
      var q := Step(p, idx, env);
      var m := n - 1;
      var t := Drain(p, idx, n, env).visits;
      var later := Drain(q, idx, m, env).visits;
      assert t == [Front(p, idx, env)] + later;
      StepSlot(p, idx, env, idx);
      assert q.slots[idx][..m] == p.slots[idx][1..n];
      DrainVisitsFront(q, idx, m, env);
      assert t[1..] == later;
      assert EntriesOf(t) == [p.slots[idx][0]] + p.slots[idx][1..n];
    }
  }

  /** One step: the drained slot loses its front entry, and the requeue of that entry, if any, lands where it is routed. */
  lemma StepSlot(p: Pass, idx: nat, env: TickEnv, k: nat)
    requires Drainable(p, idx) && |p.slots[idx]| > 0 && k < |p.slots|
    ensures var v := Front(p, idx, env);
            Step(p, idx, env).slots[k] ==
              (if k == idx then p.slots[idx][1..] else p.slots[k]) +
              RoutedTo(Requeues([v], env.nowMs), env.route, k)
  {
    var v := Front(p, idx, env);
    var first := Requeues([v], env.nowMs);
    assert [v][1..] == [];
    assert Requeues([v][1..], env.nowMs) == [];
    var popped := p.slots[idx := p.slots[idx][1..]];
    if v.verdict.addable {
      assert first == [RequeueOf(v, env.nowMs)];
      assert first[1..] == [];
      assert RoutedTo(first[1..], env.route, k) == [];
    } else {
      assert first == [];
      assert Step(p, idx, env).slots[k] == popped[k] + [];
    }
  }

  /**
   * Which lists a pass changes, and how: the drained slot loses exactly its first
   * `n` entries; every slot `k`, the drained one included, gains at its back the
   * entries the requeue routine sends to it, in requeue order. Entries put back
   * into the drained slot are therefore not popped again in this pass.
   */
  lemma {:induction false} DrainSlotContents(p: Pass, idx: nat, n: nat, env: TickEnv, k: nat)
    requires Drainable(p, idx) && n <= |p.slots[idx]| && k < |p.slots|
    ensures var d := Drain(p, idx, n, env);
            d.pass.slots[k] == (if k == idx then p.slots[idx][n..] else p.slots[k]) +
                               RoutedTo(Requeues(d.visits, env.nowMs), env.route, k)
    decreases n
  {
    var d := Drain(p, idx, n, env);
    if n == 0 {
      assert d.visits == [] && d.pass.slots == p.slots;
      assert RoutedTo(Requeues(d.visits, env.nowMs), env.route, k) == [];
      assert p.slots[k] + [] == p.slots[k];
    } else {
      var q := Step(p, idx, env);
      var v := Front(p, idx, env);
      var e := Drain(q, idx, n - 1, env);
      assert d.visits == [v] + e.visits && d.pass.slots == e.pass.slots;
      StepSlot(p, idx, env, k);
      DrainSlotContents(q, idx, n - 1, env, k);
      RequeuesAppend([v], e.visits, env.nowMs);
      var first := Requeues([v], env.nowMs);
      var later := Requeues(e.visits, env.nowMs);
      RoutedToAppend(first, later, env.route, k);
      SlotCompose(p.slots[idx], p.slots[k], k == idx, n, q.slots[k], e.pass.slots[k],
                  RoutedTo(first, env.route, k), RoutedTo(later, env.route, k));
    }
  }

  /** The bookkeeping of one induction step of `DrainSlotContents`, on plain sequences. */
  lemma SlotCompose(front: seq<Entry>, other: seq<Entry>, isDrained: bool, n: nat,
                    next: seq<Entry>, last: seq<Entry>, here: seq<Entry>, there: seq<Entry>)
    requires 0 < n <= |front|
    requires next == (if isDrained then front[1..] else other) + here
    requires last == (if isDrained then next[n - 1..] else next) + there
    ensures last == (if isDrained then front[n..] else other) + (here + there)
  {
    if isDrained {
      assert next[n - 1..] == front[n..] + here;
    }
  }

  /**
   * Early stop: when nothing is sent back to the drained slot, a pass asked for `n`
   * pops makes exactly `min(n, |slot|)` of them, on the slot's front entries.
   */
  lemma {:induction false} DrainStopsWhenEmpty(p: Pass, idx: nat, n: nat, env: TickEnv)
    requires Drainable(p, idx)
    requires forall r :: env.route(r) != Some(idx)
    ensures var m := if n <= |p.slots[idx]| then n else |p.slots[idx]|;
            EntriesOf(Drain(p, idx, n, env).visits) == p.slots[idx][..m]
    decreases n
  {
    var d := Drain(p, idx, n, env);
    var m := if n <= |p.slots[idx]| then n else |p.slots[idx]|;
    if n == 0 || |p.slots[idx]| == 0 {
      assert d.visits == [] && m == 0;
    } else {
      var q := Step(p, idx, env);
      var e := Drain(q, idx, n - 1, env);
      assert d.visits == [Front(p, idx, env)] + e.visits;
      StepKeepsSlotUnrouted(p, idx, env);
      DrainStopsWhenEmpty(q, idx, n - 1, env);
      assert d.visits[1..] == e.visits;
      FrontCompose(p.slots[idx], m, EntriesOf(e.visits), p.slots[idx][1..][m - 1..]);
    }
  }

  /** ... and what is left in the slot is everything after the popped entries. */
  lemma {:induction false} DrainLeavesRest(p: Pass, idx: nat, n: nat, env: TickEnv)
    requires Drainable(p, idx)
    requires forall r :: env.route(r) != Some(idx)
    ensures var m := if n <= |p.slots[idx]| then n else |p.slots[idx]|;
            Drain(p, idx, n, env).pass.slots[idx] == p.slots[idx][m..]
    decreases n
  {
    var d := Drain(p, idx, n, env);
    var m := if n <= |p.slots[idx]| then n else |p.slots[idx]|;
    if n == 0 || |p.slots[idx]| == 0 {
      assert d.pass.slots == p.slots && m == 0;
    } else {
      var q := Step(p, idx, env);
      var e := Drain(q, idx, n - 1, env);
      assert d.pass.slots == e.pass.slots;
      StepKeepsSlotUnrouted(p, idx, env);
      DrainLeavesRest(q, idx, n - 1, env);
      assert p.slots[idx][1..][m - 1..] == p.slots[idx][m..];
    }
  }

  /** One step on a slot nothing is routed to just drops the slot's front entry. */
  lemma StepKeepsSlotUnrouted(p: Pass, idx: nat, env: TickEnv)
    requires Drainable(p, idx) && |p.slots[idx]| > 0
    requires forall r :: env.route(r) != Some(idx)
    ensures Step(p, idx, env).slots[idx] == p.slots[idx][1..]
  {
    var v := Front(p, idx, env);
    var popped := p.slots[idx := p.slots[idx][1..]];
    if v.verdict.addable {
      PlaceAt(popped, RequeueOf(v, env.nowMs), env.route, idx);
    }
    assert popped[idx] + [] == p.slots[idx][1..];
  }

  /** The bookkeeping of one induction step of `DrainStopsWhenEmpty`, on plain sequences. */
  lemma FrontCompose(s: seq<Entry>, m: nat, taken: seq<Entry>, left: seq<Entry>)
    requires 0 < m <= |s|
    requires taken == s[1..][..m - 1] && left == s[1..][m - 1..]
    ensures [s[0]] + taken == s[..m] && left == s[m..]
  {
  }

  /**
   * Every visit follows the per-entry rule: the check is asked about the entry's
   * status at pop time with the tick's counter and wall time, and the status left
   * behind is the check's, with `Reset` re-armed to `Ready` for addable entries.
   */
  lemma {:induction false} DrainVisitsSound(p: Pass, idx: nat, n: nat, env: TickEnv)
    requires Drainable(p, idx)
    ensures var t := Drain(p, idx, n, env).visits;
            forall i :: 0 <= i < |t| ==>
              t[i].verdict == env.check(t[i].entry, t[i].before, env.nowTicks, env.nowMs) &&
              t[i].after == Settle(t[i].verdict)
    decreases n
  {
    if n > 0 && |p.slots[idx]| > 0 {
      var q := Step(p, idx, env);
      var t := Drain(p, idx, n, env).visits;
      assert t == [Front(p, idx, env)] + Drain(q, idx, n - 1, env).visits;
      DrainVisitsSound(q, idx, n - 1, env);
      assert forall i :: 1 <= i < |t| ==> t[i] == Drain(q, idx, n - 1, env).visits[i - 1];
    }
  }

  /** Entries the pass does not pop keep their status. */
  lemma {:induction false} DrainKeepsUnvisited(p: Pass, idx: nat, n: nat, env: TickEnv)
    requires Drainable(p, idx)
    ensures var d := Drain(p, idx, n, env);
            forall e :: e in p.status && e !in EntriesOf(d.visits) ==> d.pass.status[e] == p.status[e]
    decreases n
  {
    if n > 0 && |p.slots[idx]| > 0 {
      var q := Step(p, idx, env);
      var v := Front(p, idx, env);
      var d := Drain(p, idx, n, env);
      var rest := Drain(q, idx, n - 1, env);
      assert d.visits == [v] + rest.visits && d.pass.status == rest.pass.status;
      assert d.visits[1..] == rest.visits;
      DrainKeepsUnvisited(q, idx, n - 1, env);
      assert EntriesOf(d.visits) == [v.entry] + EntriesOf(rest.visits);
      KeepCompose(p.status, q.status, d.pass.status, v.entry, v.after, EntriesOf(rest.visits));
    }
  }

  /** The bookkeeping of one induction step of `DrainKeepsUnvisited`, on plain maps. */
  lemma KeepCompose(before: map<Entry, Status>, next: map<Entry, Status>, last: map<Entry, Status>,
                    x: Entry, s: Status, later: seq<Entry>)
    requires x in before && next == before[x := s] && last.Keys == next.Keys
    requires forall e :: e in next && e !in later ==> last[e] == next[e]
    ensures forall e :: e in before && e !in [x] + later ==> last[e] == before[e]
  {
    forall e | e in before && e !in [x] + later
      ensures last[e] == before[e]
    {
      assert e != x && e !in later;
    }
  }

  /** No entry occurs twice in `s`. */
  ghost predicate Distinct(s: seq<Entry>)
  {
    forall a, b :: 0 <= a < b < |s| ==> s[a] != s[b]
  }

  /** The tail of a list without repeats has none, and does not contain the head. */
  lemma DistinctTail(s: seq<Entry>)
    requires Distinct(s) && |s| > 0
    ensures Distinct(s[1..]) && s[0] !in s[1..]
  {
    forall a, b | 0 <= a < b < |s| - 1
      ensures s[1..][a] != s[1..][b]
    {
      assert s[1..][a] == s[a + 1] && s[1..][b] == s[b + 1];
    }
    forall j | 0 <= j < |s| - 1
      ensures s[1..][j] != s[0]
    {
      assert s[1..][j] == s[j + 1];
    }
  }

  /**
   * When the popped entries are distinct (an entry sits in at most one place in a
   * slot list), the i-th of them is checked with the status it had when the pass
   * began.
   */
  lemma {:induction false} DrainSeesStartStatus(p: Pass, idx: nat, n: nat, env: TickEnv, i: nat)
    requires Drainable(p, idx) && i < n <= |p.slots[idx]|
    requires Distinct(p.slots[idx][..n])
    ensures var d := Drain(p, idx, n, env);
            |d.visits| == n && d.visits[i].before == p.status[p.slots[idx][i]]
    decreases n
  {
    var d := Drain(p, idx, n, env);
    var q := Step(p, idx, env);
    var v := Front(p, idx, env);
    var m := n - 1;
    var rest := Drain(q, idx, m, env);
    assert d.visits == [v] + rest.visits;
    var s := p.slots[idx][..n];
    DistinctTail(s);
    assert q.slots[idx][..m] == s[1..];
    DrainVisitsFront(q, idx, m, env);
    assert |rest.visits| == m;
    if i == 0 {
      assert d.visits[0] == v;
    } else {
      var e := s[i];
      assert e == q.slots[idx][..m][i - 1];
      DrainSeesStartStatus(q, idx, m, env, i - 1);
      assert d.visits[i] == rest.visits[i - 1];
      assert e != v.entry;
      assert q.status[e] == p.status[e];
    }
  }

  /**
   * ... and ends the pass with the status its own visit left behind: no later
   * visit of the pass touches it.
   */
  lemma {:induction false} DrainStatusOfDistinct(p: Pass, idx: nat, n: nat, env: TickEnv, i: nat)
    requires Drainable(p, idx) && i < n <= |p.slots[idx]|
    requires Distinct(p.slots[idx][..n])
    ensures var d := Drain(p, idx, n, env);
            |d.visits| == n && d.pass.status[p.slots[idx][i]] == d.visits[i].after
    decreases n
  {
    var d := Drain(p, idx, n, env);
    var q := Step(p, idx, env);
    var v := Front(p, idx, env);
    var m := n - 1;
    var rest := Drain(q, idx, m, env);
    assert d.visits == [v] + rest.visits && d.pass.status == rest.pass.status;
    var s := p.slots[idx][..n];
    DistinctTail(s);
    assert q.slots[idx][..m] == s[1..];
    DrainVisitsFront(q, idx, m, env);
    assert |rest.visits| == m;
    if i == 0 {
      var e := s[0];
      assert e !in EntriesOf(rest.visits);
      DrainKeepsUnvisited(q, idx, m, env);
      assert q.status[e] == v.after;
      assert rest.pass.status[e] == v.after;
    } else {
      var e := s[i];
      assert e == q.slots[idx][..m][i - 1];
      DrainStatusOfDistinct(q, idx, m, env, i - 1);
      assert d.visits[i] == rest.visits[i - 1];
      assert rest.pass.status[e] == rest.visits[i - 1].after;
    }
  }
}
