/** Executions of the registry as sequences of atomic steps.

    Concurrent callers interleave their Register, Grant and Release steps
    arbitrarily; an execution is any sequence of such steps in which each
    step is enabled. A Grant is enabled for a caller that has registered and
    is still waiting, and whose semaphore has a free slot. A trace that
    panics or takes a disabled step is not an execution and runs to `None`.
 */
module Trace {
  import opened Outcomes
  import opened Registry
  import Semaphore
  import MapSum

  datatype Event =
    | RegisterKey(key: string, max: nat)
    | GrantKey(key: string)
    | ReleaseKey(key: string)

  /** One atomic step, or `None` when the step panics or cannot be taken. */
  function Step(m: LimitMap, e: Event): Option<LimitMap> {
    match e
    case RegisterKey(k, max) =>
      (match Register(m, k, max)
       case Ok(m') => Some(m')
       case Fail(_) => None)
    case GrantKey(k) =>
      if k in m.limits && m.limits[k].value < m.limits[k].refs then
        (match Grant(m, k)
         case Granted(m') => Some(m')
         case _ => None)
      else None
    case ReleaseKey(k) =>
      (match Release(m, k)
       case Ok(m') => Some(m')
       case Fail(_) => None)
  }

  /** The registry after taking the events in order. */
  function Run(m: LimitMap, evs: seq<Event>): Option<LimitMap>
    decreases |evs|
  {
    if evs == [] then Some(m)
    else
      match Step(m, evs[0])
      case None => None
      case Some(m') => Run(m', evs[1..])
  }

  /** How many references `key` holds: zero when it has no entry. */
  function RefsAt(m: LimitMap, key: string): int {
    if key in m.limits then m.limits[key].refs else 0
  }

  /** The number of Register, respectively Release, events for `key`. */
  function Registers(evs: seq<Event>, key: string): nat
    decreases |evs|
  {
    if evs == [] then 0
    else (if evs[0].RegisterKey? && evs[0].key == key then 1 else 0) + Registers(evs[1..], key)
  }

  function Releases(evs: seq<Event>, key: string): nat
    decreases |evs|
  {
    if evs == [] then 0
    else (if evs[0] == ReleaseKey(key) then 1 else 0) + Releases(evs[1..], key)
  }

  /** One step keeps the invariant and moves the references of each key by
      its own Register (+1) or Release (-1) only. */
  lemma StepKeepsInv(m: LimitMap, e: Event, key: string)
    requires Inv(m) && Step(m, e).Some?
    ensures Inv(Step(m, e).value)
    ensures RefsAt(Step(m, e).value, key)
         == RefsAt(m, key)
          + (if e.RegisterKey? && e.key == key then 1 else 0)
          - (if e == ReleaseKey(key) then 1 else 0)
  {
    match e
    case RegisterKey(k, max) =>
      RegisterPreservesInv(m, k, max);
    case GrantKey(k) =>
      GrantStep(m, k);
    case ReleaseKey(k) =>
      ReleaseStep(m, k);
  }

  /** Every execution from a valid registry ends in a valid one, and each
      key's references are its initial ones plus its Registers minus its
      Releases. */
  lemma {:induction false} RunKeepsInv(m: LimitMap, evs: seq<Event>, key: string)
    requires Inv(m) && Run(m, evs).Some?
    ensures Inv(Run(m, evs).value)
    ensures RefsAt(Run(m, evs).value, key)
         == RefsAt(m, key) + Registers(evs, key) - Releases(evs, key)
    decreases |evs|
  {
    if evs != [] {
      StepKeepsInv(m, evs[0], key);
      RunKeepsInv(Step(m, evs[0]).value, evs[1..], key);
    }
  }

  /** After n Acquires and n Releases of a key that had no entry, the key has
      no entry again, whatever happened to other keys in between. */
  lemma BalancedKeyIsRemoved(m: LimitMap, evs: seq<Event>, key: string)
    requires Inv(m) && key !in m.limits && Run(m, evs).Some?
    requires Registers(evs, key) == Releases(evs, key)
    ensures key !in Run(m, evs).value.limits
  {
    RunKeepsInv(m, evs, key);
  }

  /** From an empty registry, an execution in which every key is released as
      often as it is registered drains completely: no live key, no granted
      slot, a zero wait group, so Wait returns. */
  lemma BalancedRunDrains(evs: seq<Event>)
    requires Run(NewLimitMap(), evs).Some?
    requires forall k :: Registers(evs, k) == Releases(evs, k)
    ensures Run(NewLimitMap(), evs).value.limits == map[]
    ensures Run(NewLimitMap(), evs).value.outstanding == 0
    ensures MapSum.Sum(Run(NewLimitMap(), evs).value.limits, GrantedOf) == 0
    ensures Inv(Run(NewLimitMap(), evs).value) && Wait(Run(NewLimitMap(), evs).value)
  {
    var m' := Run(NewLimitMap(), evs).value;
    forall k | k in m'.limits
      ensures false
    {
      RunKeepsInv(NewLimitMap(), evs, k);
    }
    RunKeepsInv(NewLimitMap(), evs, "");
    assert m'.limits == map[];
    OutstandingCountsLiveKeys(m');
  }

  /** Every key is released as often as it is registered. */
  ghost predicate Balanced(evs: seq<Event>) {
    forall k :: Registers(evs, k) == Releases(evs, k)
  }

  /** Wait returns after an execution from a new map exactly when every key
      has been released as often as it was registered: a balanced run
      drains, and while any key is unbalanced Wait keeps blocking. */
  lemma DrainsExactlyWhenBalanced(evs: seq<Event>)
    requires Run(NewLimitMap(), evs).Some?
    ensures Inv(Run(NewLimitMap(), evs).value)
    ensures Wait(Run(NewLimitMap(), evs).value) <==> Balanced(evs)
  {
    var m' := Run(NewLimitMap(), evs).value;
    RunKeepsInv(NewLimitMap(), evs, "");
    if Wait(m') {
      assert m'.limits == map[];
      forall k
        ensures Registers(evs, k) == Releases(evs, k)
      {
        RunKeepsInv(NewLimitMap(), evs, k);
        assert RefsAt(m', k) == 0;
      }
    } else if Balanced(evs) {
      BalancedRunDrains(evs);
      assert false;
    }
  }

  /** A registry whose only entry is key "a" with capacity 2. */
  function SoloA(refs: int, value: nat): LimitMap {
    LimitMap(map["a" := Semaphore.Sem(refs, 2, value)], refs)
  }

  /** Replacing the only entry of key "a". */
  lemma SoloAUpdate(refs: int, value: nat, refs': int, value': nat)
    ensures SoloA(refs, value).limits["a" := Semaphore.Sem(refs', 2, value')]
         == SoloA(refs', value').limits
  {
    var m := SoloA(refs, value).limits["a" := Semaphore.Sem(refs', 2, value')];
    assert m.Keys == {"a"};
  }

  /** Key "a" with capacity 2 and three workers: two are granted, the third
      waits; one Release lets the third through; after all three Release the
      registry is empty again. */
  lemma CapacityTwoThreeWorkers()
    ensures var m1 := Run(NewLimitMap(), [RegisterKey("a", 2), RegisterKey("a", 2), RegisterKey("a", 2),
                                          GrantKey("a"), GrantKey("a")]);
      && m1.Some?
      && Grant(m1.value, "a").Waiting?
      && var m2 := Run(m1.value, [ReleaseKey("a"), GrantKey("a")]);
      && m2.Some?
      && m2.value.limits["a"] == Semaphore.Sem(2, 2, 2)
      && Run(m2.value, [ReleaseKey("a"), ReleaseKey("a")]) == Some(NewLimitMap())
  {
    var m0 := NewLimitMap();
    assert Step(m0, RegisterKey("a", 2)) == Some(SoloA(1, 0));
    SoloAUpdate(1, 0, 2, 0);
    assert Step(SoloA(1, 0), RegisterKey("a", 2)) == Some(SoloA(2, 0));
    SoloAUpdate(2, 0, 3, 0);
    assert Step(SoloA(2, 0), RegisterKey("a", 2)) == Some(SoloA(3, 0));
    SoloAUpdate(3, 0, 3, 1);
    assert Step(SoloA(3, 0), GrantKey("a")) == Some(SoloA(3, 1));
    SoloAUpdate(3, 1, 3, 2);
    assert Step(SoloA(3, 1), GrantKey("a")) == Some(SoloA(3, 2));
    var evs := [RegisterKey("a", 2), RegisterKey("a", 2), RegisterKey("a", 2),
                GrantKey("a"), GrantKey("a")];
    assert evs[1..][1..][1..][1..][1..] == [];
    assert Run(m0, evs) == Some(SoloA(3, 2));
    SoloAUpdate(3, 2, 2, 1);
    assert Step(SoloA(3, 2), ReleaseKey("a")) == Some(SoloA(2, 1));
    SoloAUpdate(2, 1, 2, 2);
    assert Step(SoloA(2, 1), GrantKey("a")) == Some(SoloA(2, 2));
    assert [ReleaseKey("a"), GrantKey("a")][1..][1..] == [];
    assert Run(SoloA(3, 2), [ReleaseKey("a"), GrantKey("a")]) == Some(SoloA(2, 2));
    SoloAUpdate(2, 2, 1, 1);
    assert Step(SoloA(2, 2), ReleaseKey("a")) == Some(SoloA(1, 1));
    assert SoloA(1, 1).limits - {"a"} == map[];
    assert Step(SoloA(1, 1), ReleaseKey("a")) == Some(m0);
    assert [ReleaseKey("a"), ReleaseKey("a")][1..][1..] == [];
    assert Run(SoloA(2, 2), [ReleaseKey("a"), ReleaseKey("a")]) == Some(m0);
  }
}
