/** Sums of a per-entry quantity over a finite map.

    The registry's invariants talk about the total number of references and
    the total number of granted slots over all keys; `Sum` is that total. It
    is defined by removing an arbitrary key, and `SumRemove` shows that the
    choice of key does not matter.
 */
module MapSum {

  /** The sum of `f` over the values of `m`. */
  ghost function Sum<K, V>(m: map<K, V>, f: V -> int): int
    decreases |m|
  {
    if m == map[] then 0
    else
      var k :| k in m;
      assert |(m - {k}).Keys| < |m.Keys| by {
        assert (m - {k}).Keys == m.Keys - {k};
      }
      f(m[k]) + Sum(m - {k}, f)
  }

  /** Any key may be peeled off first. */
  lemma {:induction false} SumRemove<K, V>(m: map<K, V>, f: V -> int, k: K)
    requires k in m
    ensures Sum(m, f) == f(m[k]) + Sum(m - {k}, f)
    decreases |m|
  {
    var j :| j in m && Sum(m, f) == f(m[j]) + Sum(m - {j}, f);
    if j != k {
      var mj, mk := m - {j}, m - {k};
      assert (mj - {k}).Keys == mj.Keys - {k};
      assert (mk - {j}).Keys == mk.Keys - {j};
      assert mj.Keys == m.Keys - {j};
      assert mk.Keys == m.Keys - {k};
      SumRemove(mj, f, k);
      SumRemove(mk, f, j);
      assert mj - {k} == mk - {j};
    }
  }

  /** Replacing the value at a present key changes the sum by the difference. */
  lemma SumUpdate<K, V>(m: map<K, V>, f: V -> int, k: K, v: V)
    requires k in m
    ensures Sum(m[k := v], f) == Sum(m, f) - f(m[k]) + f(v)
  {
    SumRemove(m, f, k);
    SumRemove(m[k := v], f, k);
    assert m[k := v] - {k} == m - {k};
  }

  /** Inserting a fresh key adds its value. */
  lemma SumInsert<K, V>(m: map<K, V>, f: V -> int, k: K, v: V)
    requires k !in m
    ensures Sum(m[k := v], f) == Sum(m, f) + f(v)
  {
    SumRemove(m[k := v], f, k);
    assert m[k := v] - {k} == m;
  }

  /** Pointwise `f <= g` lifts to the sums. */
  lemma {:induction false} SumMonotone<K, V>(m: map<K, V>, f: V -> int, g: V -> int)
    requires forall k :: k in m ==> f(m[k]) <= g(m[k])
    ensures Sum(m, f) <= Sum(m, g)
    decreases |m|
  {
    if m != map[] {
      var k :| k in m;
      SumRemove(m, f, k);
      SumRemove(m, g, k);
      assert (m - {k}).Keys == m.Keys - {k};
      SumMonotone(m - {k}, f, g);
    }
  }

  /** When every entry contributes at least one, the sum is at least the
      number of entries; in particular it is zero only for the empty map. */
  lemma {:induction false} SumAtLeastSize<K, V>(m: map<K, V>, f: V -> int)
    requires forall k :: k in m ==> 1 <= f(m[k])
    ensures Sum(m, f) >= |m|
    ensures Sum(m, f) == 0 <==> m == map[]
    decreases |m|
  {
    if m != map[] {
      var k :| k in m;
      SumRemove(m, f, k);
      assert (m - {k}).Keys == m.Keys - {k};
      SumAtLeastSize(m - {k}, f);
    }
  }

  /** A sum of non-negative terms is non-negative. */
  lemma {:induction false} SumNonNegative<K, V>(m: map<K, V>, f: V -> int)
    requires forall k :: k in m ==> 0 <= f(m[k])
    ensures 0 <= Sum(m, f)
    decreases |m|
  {
    if m != map[] {
      var k :| k in m;
      SumRemove(m, f, k);
      assert (m - {k}).Keys == m.Keys - {k};
      SumNonNegative(m - {k}, f);
    }
  }
}
