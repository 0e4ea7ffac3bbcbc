/** The keyed registry: Go's `LimitMap`.

    Every change to `limits` and to the reference counts happens under the
    registry lock, so each operation is one atomic step here. Acquire is
    split in two steps: `Register` (look up or create the entry, count the
    reference, add to the wait group) and `Grant` (take a slot of the
    entry's semaphore, which may have to wait). `outstanding` is the
    counter of the `sync.WaitGroup`.
 */
module Registry {
  import opened Outcomes
  import opened Semaphore
  import MapSum

  datatype LimitMap = LimitMap(limits: map<string, Sem>, outstanding: int)

  /** The outcome of one Grant step: still waiting on the semaphore, a slot
      granted, or the overflow panic. */
  datatype GrantOutcome = Waiting | Granted(next: LimitMap) | Panicked(panic: Panic)

  function RefsOf(s: Sem): int { s.refs }

  function GrantedOf(s: Sem): int { s.value }

  /** A live entry: a valid semaphore, referenced by at least one caller, and
      never more slots granted than callers referencing it (a referencing
      caller may still be waiting for its slot). */
  predicate EntryValid(s: Sem) {
    Valid(s) && 1 <= s.refs && s.value <= s.refs
  }

  /** The registry invariant: every live entry is valid, and the wait group
      counts exactly the references over all keys. */
  ghost predicate Inv(m: LimitMap) {
    && (forall k :: k in m.limits ==> EntryValid(m.limits[k]))
    && m.outstanding == MapSum.Sum(m.limits, RefsOf)
  }

  /** Every key but `key` has the same entry, or the same absence, in both. */
  ghost predicate OthersUnchanged(m: LimitMap, m': LimitMap, key: string) {
    forall k :: k != key ==>
      && (k in m.limits <==> k in m'.limits)
      && (k in m.limits ==> m'.limits[k] == m.limits[k])
  }

  /** NewLimitMap: no keys and nothing outstanding. */
  function NewLimitMap(): (m: LimitMap)
    ensures Inv(m)
    ensures forall k :: k !in m.limits
    ensures m.outstanding == 0
  {
    LimitMap(map[], 0)
  }

  /** The bookkeeping half of Acquire (the critical section and the wait
      group Add). An absent key gets a new semaphore of capacity `max`,
      which fails for zero; a present key keeps its semaphore and ignores
      `max`. Either way the key gains one reference and the wait group one
      count, and no other key is touched. */
  function Register(m: LimitMap, key: string, max: nat): (r: Result<LimitMap>)
    ensures r.Fail? <==> key !in m.limits && max == 0
    ensures r.Fail? ==> r.panic == ZeroMax
    ensures r.Ok? ==> key in r.value.limits && r.value.outstanding == m.outstanding + 1
    ensures r.Ok? && key in m.limits ==>
      r.value.limits[key] == m.limits[key].(refs := m.limits[key].refs + 1)
    ensures r.Ok? && key !in m.limits ==> r.value.limits[key] == Sem(1, max, 0)
    ensures r.Ok? ==> OthersUnchanged(m, r.value, key)
  {
    var found := if key in m.limits then Ok(m.limits[key]) else NewSemaphore(max);
    match found
    case Fail(p) => Fail(p)
    case Ok(l) => Ok(LimitMap(m.limits[key := l.(refs := l.refs + 1)], m.outstanding + 1))
  }

  /** The blocking half of Acquire, for a caller holding the entry of `key`:
      one attempt to take a slot of its semaphore, followed by the overflow
      check on the granted count. Waiting happens exactly when the entry is
      full; a grant raises that key's count by one and touches nothing else. */
  function Grant(m: LimitMap, key: string): (r: GrantOutcome)
    requires key in m.limits
    ensures Valid(m.limits[key]) ==> (r.Waiting? <==> m.limits[key].value == m.limits[key].max)
    ensures Valid(m.limits[key]) ==> !r.Panicked?
    ensures r.Granted? ==> key in r.next.limits && r.next.outstanding == m.outstanding
    ensures r.Granted? ==>
      r.next.limits[key] == m.limits[key].(value := m.limits[key].value + 1)
    ensures r.Granted? ==> r.next.limits[key].value <= r.next.limits[key].max
    ensures r.Granted? ==> OthersUnchanged(m, r.next, key)
  {
    var l := m.limits[key];
    match Semaphore.Acquire(l)
    case Blocked => Waiting
    case Acquired(l', x) =>
      if x > l.max then Panicked(AcquireOverflow)
      else Granted(m.(limits := m.limits[key := l']))
  }

  /** Release as one step: the critical section, the semaphore Release and the
      wait group Done. An absent key panics. Otherwise the key loses one
      reference and one granted slot, and its entry is deleted exactly when
      that was the last reference. */
  function Release(m: LimitMap, key: string): (r: Result<LimitMap>)
    ensures r == Fail(KeyNotInMap) <==> key !in m.limits
    ensures key in m.limits && 1 <= m.limits[key].refs ==>
      (r.Fail? <==> m.limits[key].value == 0)
    ensures key in m.limits && 1 <= m.limits[key].refs && r.Fail? ==>
      r.panic == ReleaseWithoutAcquire
    ensures r.Ok? ==> key in m.limits && r.value.outstanding == m.outstanding - 1
    ensures r.Ok? ==> (key in r.value.limits <==> m.limits[key].refs > 1)
    ensures r.Ok? && key in r.value.limits ==>
      r.value.limits[key]
        == m.limits[key].(refs := m.limits[key].refs - 1, value := m.limits[key].value - 1)
    ensures r.Ok? ==> OthersUnchanged(m, r.value, key)
  {
    if key !in m.limits then Fail(KeyNotInMap)
    else
      var l := m.limits[key].(refs := m.limits[key].refs - 1);
      if l.refs < 0 then Fail(NegativeRefs)
      else
        match Semaphore.Release(l)
        case Fail(p) => Fail(p)
        case Ok(Released(l', x)) =>
          if x > l'.max then Fail(ReleaseOverflow)
          // the entry deleted at refs == 0 is the released semaphore itself
          else Ok(LimitMap(if l.refs == 0 then m.limits - {key} else m.limits[key := l'],
                           m.outstanding - 1))
  }

  /** Wait returns exactly when the wait group counter is zero; under the
      invariant that is exactly when no key is live. */
  function Wait(m: LimitMap): (done: bool)
    requires Inv(m)
    ensures done <==> m.limits == map[]
  {
    OutstandingCountsLiveKeys(m);
    m.outstanding == 0
  }

  /** Each live key holds at least one reference, so the wait group counts
      at least the live keys and is zero only when none is live. */
  lemma OutstandingCountsLiveKeys(m: LimitMap)
    requires Inv(m)
    ensures m.outstanding == 0 <==> m.limits == map[]
    ensures m.outstanding >= |m.limits|
  {
    MapSum.SumAtLeastSize(m.limits, RefsOf);
  }

  /** Size: the number of live keys and the granted slots summed over them. */
  method Size(m: LimitMap) returns (keys: int, total: int)
    ensures keys == |m.limits|
    ensures total == MapSum.Sum(m.limits, GrantedOf)
    ensures Inv(m) ==> 0 <= total <= m.outstanding
  {
    keys := |m.limits|;
    total := 0;
    var rest := m.limits;
    while rest != map[]
      invariant total + MapSum.Sum(rest, GrantedOf) == MapSum.Sum(m.limits, GrantedOf)
      decreases |rest|
    {
      var k :| k in rest;
      MapSum.SumRemove(rest, GrantedOf, k);
      total := total + rest[k].value;
      assert (rest - {k}).Keys == rest.Keys - {k};
      rest := rest - {k};
    }
    if Inv(m) {
      SizeBounds(m);
    }
  }

  /** Under the invariant no more slots are granted than references exist. */
  lemma SizeBounds(m: LimitMap)
    requires Inv(m)
    ensures 0 <= MapSum.Sum(m.limits, GrantedOf) <= m.outstanding
  {
    MapSum.SumMonotone(m.limits, GrantedOf, RefsOf);
    MapSum.SumNonNegative(m.limits, GrantedOf);
  }

  /** Register keeps the invariant: the new reference is matched by the wait
      group's new count. */
  lemma RegisterPreservesInv(m: LimitMap, key: string, max: nat)
    requires Inv(m) && Register(m, key, max).Ok?
    ensures Inv(Register(m, key, max).value)
  {
    var m' := Register(m, key, max).value;
    assert m'.limits == m.limits[key := m'.limits[key]];
    if key in m.limits {
      MapSum.SumUpdate(m.limits, RefsOf, key, m'.limits[key]);
    } else {
      MapSum.SumInsert(m.limits, RefsOf, key, m'.limits[key]);
    }
  }

  /** A Grant taken by a registered caller that is still waiting: the
      overflow panic cannot fire, the caller waits exactly when the entry is
      full, and a grant keeps the invariant with a count in 1..max. */
  lemma GrantStep(m: LimitMap, key: string)
    requires Inv(m) && key in m.limits
    requires m.limits[key].value < m.limits[key].refs
    ensures !Grant(m, key).Panicked?
    ensures Grant(m, key).Waiting? <==> m.limits[key].value == m.limits[key].max
    ensures Grant(m, key).Granted? ==> Inv(Grant(m, key).next)
    ensures Grant(m, key).Granted? ==>
      1 <= Grant(m, key).next.limits[key].value <= m.limits[key].max
  {
    var r := Grant(m, key);
    if r.Granted? {
      assert r.next.limits == m.limits[key := r.next.limits[key]];
      MapSum.SumUpdate(m.limits, RefsOf, key, r.next.limits[key]);
    }
  }

  /** Release under the invariant: only the two misuse panics can happen
      (absent key, nothing granted), never the internal ones; and a
      successful Release keeps the invariant. */
  lemma ReleaseStep(m: LimitMap, key: string)
    requires Inv(m)
    ensures Release(m, key).Fail? ==>
      Release(m, key).panic == KeyNotInMap || Release(m, key).panic == ReleaseWithoutAcquire
    ensures Release(m, key).Ok? ==> Inv(Release(m, key).value)
  {
    var r := Release(m, key);
    if r.Ok? {
      var l := m.limits[key];
      if l.refs == 1 {
        assert r.value.limits == m.limits - {key};
        MapSum.SumRemove(m.limits, RefsOf, key);
      } else {
        assert r.value.limits == m.limits[key := r.value.limits[key]];
        MapSum.SumUpdate(m.limits, RefsOf, key, r.value.limits[key]);
      }
    }
  }

  /** First writer wins: while a key is live, a later Register keeps the
      capacity of the one that created the entry, whatever `max` it passes. */
  lemma FirstWriterWins(m: LimitMap, key: string, first: nat, later: nat)
    requires Register(m, key, first).Ok?
    ensures Register(Register(m, key, first).value, key, later).Ok?
    ensures Register(Register(m, key, first).value, key, later).value.limits[key].max
         == (if key in m.limits then m.limits[key].max else first)
  {
  }

  /** On a live key the `max` argument of Register has no effect at all. */
  lemma RegisterIgnoresMax(m: LimitMap, key: string, a: nat, b: nat)
    requires key in m.limits
    ensures Register(m, key, a) == Register(m, key, b)
  {
  }

  /** Acquire does not block before the key's counter reaches its maximum: a
      caller that registers on an absent key, or on one with a free slot, is
      granted at once. */
  lemma AcquireBelowMaxIsGranted(m: LimitMap, key: string, max: nat)
    requires Inv(m) && Register(m, key, max).Ok?
    requires key in m.limits ==> m.limits[key].value < m.limits[key].max
    ensures Grant(Register(m, key, max).value, key).Granted?
  {
    RegisterPreservesInv(m, key, max);
  }

  /** Acquire followed by its Release gives back the registry it started
      from: the reference, the slot and the wait group count are returned,
      and an entry created by the Acquire is deleted again. */
  lemma AcquireThenReleaseRestores(m: LimitMap, key: string, max: nat)
    requires Inv(m) && Register(m, key, max).Ok?
    requires Grant(Register(m, key, max).value, key).Granted?
    ensures Release(Grant(Register(m, key, max).value, key).next, key) == Ok(m)
  {
    var m1 := Register(m, key, max).value;
    var m2 := Grant(m1, key).next;
    var r := Release(m2, key);
    assert r.Ok?;
    assert r.value.limits == m.limits;
  }
}
