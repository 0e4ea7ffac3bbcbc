/** The bounded counting semaphore that guards one key.

    A `Sem` is the value of one Go `*Semaphore`: its capacity `max`, the
    number of granted slots `value`, and `refs`, the reference count that
    only the registry updates. The condition variable is not state here: a
    caller blocked in Acquire is an Acquire that returns `Blocked`.
 */
module Semaphore {
  import opened Outcomes

  datatype Sem = Sem(refs: int, max: nat, value: nat)

  /** What Acquire does to a semaphore: either nothing yet (the caller waits
      on the condition variable), or one more slot granted, with the new
      counter as its result. */
  datatype AcquireOutcome = Blocked | Acquired(sem: Sem, x: nat)

  /** What a successful Release leaves: the semaphore and the Go named
      result `result`. */
  datatype Released = Released(sem: Sem, result: nat)

  /** The semaphore's own invariant: a usable capacity, never exceeded. */
  predicate Valid(s: Sem) {
    1 <= s.max && s.value <= s.max
  }

  /** NewSemaphore: a zero capacity is refused; otherwise a fresh semaphore
      with nothing granted and no references. */
  function NewSemaphore(max: nat): (r: Result<Sem>)
    ensures r.Fail? <==> max == 0
    ensures r.Fail? ==> r.panic == ZeroMax
    ensures r.Ok? ==> Valid(r.value) && r.value.max == max
    ensures r.Ok? ==> r.value.value == 0 && r.value.refs == 0
  {
    if max == 0 then Fail(ZeroMax) else Ok(Sem(0, max, 0))
  }

  /** One pass of Acquire's loop under the semaphore lock. It takes a slot
      only while one more still fits under `max`, and reports the new count.
      On a valid semaphore it blocks exactly when every slot is taken, and a
      granted count lies in 1..max. */
  function Acquire(s: Sem): (r: AcquireOutcome)
    ensures r.Acquired? ==> r.sem == s.(value := r.x) && r.x == s.value + 1
    ensures r.Acquired? ==> r.x <= s.max
    ensures Valid(s) ==> (r.Blocked? <==> s.value == s.max)
    ensures Valid(s) && r.Acquired? ==> Valid(r.sem) && 1 <= r.x <= s.max
  {
    if s.value + 1 <= s.max then Acquired(s.(value := s.value + 1), s.value + 1)
    else Blocked
  }

  /** Release: panics with nothing granted; otherwise frees exactly one slot.
      The named result is never assigned, so it is always zero. */
  function Release(s: Sem): (r: Result<Released>)
    ensures r.Fail? <==> s.value == 0
    ensures r.Fail? ==> r.panic == ReleaseWithoutAcquire
    ensures r.Ok? ==> r.value.sem == s.(value := s.value - 1)
    ensures r.Ok? ==> r.value.result == 0
    ensures Valid(s) && r.Ok? ==> Valid(r.value.sem) && r.value.sem.value < s.max
  {
    if s.value == 0 then Fail(ReleaseWithoutAcquire)
    else Ok(Released(s.(value := s.value - 1), 0))
  }

  /** A granted slot given back restores the semaphore exactly. */
  lemma AcquireThenRelease(s: Sem)
    requires Acquire(s).Acquired?
    ensures Release(Acquire(s).sem) == Ok(Released(s, 0))
  {
  }

  /** A slot freed on a valid semaphore can always be taken again, and taking
      it restores the semaphore exactly. */
  lemma ReleaseThenAcquire(s: Sem)
    requires Valid(s) && s.value > 0
    ensures Release(s).Ok?
    ensures Acquire(Release(s).value.sem) == Acquired(s, s.value)
  {
  }
}
