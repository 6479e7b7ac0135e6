/** Sums over the rows of a table: each row has one weight, and the sum does not depend on order. */
module TableSums {

  ghost function Total<K>(weights: map<K, int>): int
    decreases |weights|
  {
    if |weights| == 0 then 0
    else
      var k :| k in weights;
      weights[k] + Total(weights - {k})
  }

  lemma Smaller<K>(weights: map<K, int>, k: K)
    requires k in weights
    ensures |weights - {k}| == |weights| - 1
  {
    assert weights == (weights - {k})[k := weights[k]];
  }

  lemma FirstRow<K>(weights: map<K, int>) returns (k: K)
    requires |weights| > 0
    ensures k in weights && Total(weights) == weights[k] + Total(weights - {k})
  {
    k :| k in weights && Total(weights) == weights[k] + Total(weights - {k});
  }

  /** Any row may be taken out first. */
  lemma {:induction false} TotalRemove<K>(weights: map<K, int>, k: K)
    requires k in weights
    ensures Total(weights) == weights[k] + Total(weights - {k})
    decreases |weights|
  {
    hide Total;
    var first := FirstRow(weights);
    if first != k {
      Smaller(weights, first);
      Smaller(weights, k);
      TotalRemove(weights - {first}, k);
      TotalRemove(weights - {k}, first);
      assert weights - {first} - {k} == weights - {k} - {first};
    }
  }

  /** Writing one row changes the sum by the difference of its weights. */
  lemma TotalPut<K>(weights: map<K, int>, k: K, w: int)
    ensures Total(weights[k := w]) == Total(weights) + w - (if k in weights then weights[k] else 0)
  {
    var after := weights[k := w];
    TotalRemove(after, k);
    assert after - {k} == weights - {k};
    if k in weights {
      TotalRemove(weights, k);
    } else {
      assert weights - {k} == weights;
    }
  }

  lemma {:induction false} TotalNonnegative<K>(weights: map<K, int>)
    requires forall k :: k in weights ==> weights[k] >= 0
    ensures Total(weights) >= 0
    ensures forall k :: k in weights ==> weights[k] <= Total(weights)
    decreases |weights|
  {
    forall k | k in weights ensures 0 <= weights[k] <= Total(weights) {
      TotalRemove(weights, k);
      TotalNonnegative(weights - {k});
    }
    if |weights| > 0 {
      var k :| k in weights;
    }
  }

  lemma {:induction false} TotalZero<K>(weights: map<K, int>)
    requires forall k :: k in weights ==> weights[k] == 0
    ensures Total(weights) == 0
    decreases |weights|
  {
    if |weights| > 0 {
      var k :| k in weights;
      TotalRemove(weights, k);
      TotalZero(weights - {k});
    }
  }

  lemma {:induction false} TotalMonotone<K>(a: map<K, int>, b: map<K, int>)
    requires a.Keys == b.Keys
    requires forall k :: k in a ==> a[k] <= b[k]
    ensures Total(a) <= Total(b)
    decreases |a|
  {
    if |a| > 0 {
      var k :| k in a;
      TotalRemove(a, k);
      TotalRemove(b, k);
      TotalMonotone(a - {k}, b - {k});
    } else {
      assert |b.Keys| == 0;
    }
  }
}
