// Timer entries: their lifecycle status and what happens to that status when
// a dispatched job finishes (the deferred handler around `entry.job()`).

module Entries {

  datatype Option<T> = None | Some(value: T)

  /** The status values shared by entries and timers. */
  datatype Status = Ready | Running | Stopped | Reset | Closed

  /** A value a job may panic with: the package's `panicExit` sentinel, or anything else. */
  datatype PanicValue = ExitSignal | Failure(reason: string)

  /** How a job body ended. */
  datatype JobOutcome = Returned | Panicked(value: PanicValue)

  /** The entry's status after the handler, and the panic it re-raises, if any. */
  datatype Completion = Completion(status: Status, reraised: Option<PanicValue>)

  /**
   * The effect of the deferred completion handler on an entry whose status was `s`
   * when the job ended with `o`:
   *   - a panic with any value other than the sentinel is re-raised, and since the
   *     re-raise leaves the handler, the status is not touched;
   *   - the sentinel closes the entry;
   *   - then a status still `Running` goes back to `Ready`.
   */
  function AfterJob(s: Status, o: JobOutcome): (c: Completion)
    // exactly the non-sentinel panics are re-raised, with their own value
    ensures c.reraised.Some? <==> o.Panicked? && o.value != ExitSignal
    ensures c.reraised.Some? ==> c.reraised.value == o.value && c.status == s
    // the sentinel always ends with the entry closed
    ensures o == Panicked(ExitSignal) ==> c.status == Closed
    // the only changes are Running -> Ready after a normal return, and -> Closed on the sentinel
    ensures c.status != s ==>
              (o == Returned && s == Running && c.status == Ready) ||
              (o == Panicked(ExitSignal) && c.status == Closed)
    // a handler that finishes never leaves the entry Running
    ensures c.reraised.None? ==> c.status != Running
    // Closed is terminal
    ensures s == Closed ==> c.status == Closed
  {
    match o
    case Panicked(v) =>
      if v != ExitSignal then Completion(s, Some(v))
      else Completion(Closed, None)
    case Returned =>
      Completion(if s == Running then Ready else s, None)
  }

  /**
   * A scheduled job's entry. Only the status is mutable here; the job itself is
   * represented by its outcome (see `Complete`).
   */
  class Entry {
    var status: Status
    const installIntervalMs: int

    constructor (status0: Status, intervalMs: int)
      ensures status == status0 && installIntervalMs == intervalMs
    {
      status := status0;
      installIntervalMs := intervalMs;
    }

    /** Closing an entry marks it Closed, so the next check drops it. */
    method Close()
      modifies this
      ensures status == Closed
    {
      status := Closed;
    }

    /** The deferred handler that runs when the job body of this entry ends with `outcome`. */
    method Complete(outcome: JobOutcome) returns (reraised: Option<PanicValue>)
      modifies this
      ensures Completion(status, reraised) == AfterJob(old(status), outcome)
    {
      reraised := None;
      if outcome.Panicked? {
        if outcome.value != ExitSignal {
          reraised := Some(outcome.value);
          return;
        }
        Close();
      }
      if status == Running {
        status := Ready;
      }
    }
  }
}
