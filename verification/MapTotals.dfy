/** Sums over the values of a finite map, independent of the order of enumeration. */
module MapTotals {

  /** The sum of w over all values of m. */
  ghost function Total<K, V>(m: map<K, V>, w: V -> nat): nat
    decreases |m|
  {
    if m.Keys == {} then 0
    else
      var k :| k in m;
      assert (m - {k}).Keys == m.Keys - {k};
      w(m[k]) + Total(m - {k}, w)
  }

  /** Any entry can be taken out first. */
  lemma {:induction false} TotalRemove<K, V>(m: map<K, V>, k: K, w: V -> nat)
    requires k in m
    ensures Total(m, w) == w(m[k]) + Total(m - {k}, w)
    decreases |m|
  {
    var c :| c in m && Total(m, w) == w(m[c]) + Total(m - {c}, w);
    if c != k {
      assert (m - {c}).Keys == m.Keys - {c} && (m - {k}).Keys == m.Keys - {k};
      TotalRemove(m - {c}, k, w);
      TotalRemove(m - {k}, c, w);
      assert m - {c} - {k} == m - {k} - {c};
    }
  }

  lemma TotalInsert<K, V>(m: map<K, V>, k: K, v: V, w: V -> nat)
    requires k !in m
    ensures Total(m[k := v], w) == Total(m, w) + w(v)
  {
    TotalRemove(m[k := v], k, w);
    assert m[k := v] - {k} == m;
  }

  lemma TotalUpdate<K, V>(m: map<K, V>, k: K, v: V, w: V -> nat)
    requires k in m
    ensures Total(m[k := v], w) + w(m[k]) == Total(m, w) + w(v)
  {
    TotalRemove(m, k, w);
    TotalRemove(m[k := v], k, w);
    assert m[k := v] - {k} == m - {k};
  }

  /** A pointwise larger weight has a larger total. */
  lemma {:induction false} TotalMono<K, V>(m: map<K, V>, w: V -> nat, u: V -> nat)
    requires forall k :: k in m ==> w(m[k]) <= u(m[k])
    ensures Total(m, w) <= Total(m, u)
    decreases |m|
  {
    if k :| k in m {
      assert (m - {k}).Keys == m.Keys - {k};
      TotalRemove(m, k, w);
      TotalRemove(m, k, u);
      TotalMono(m - {k}, w, u);
    }
  }

  /** Two weights that agree on the values of the map have the same total. */
  lemma TotalSame<K, V>(m: map<K, V>, w: V -> nat, u: V -> nat)
    requires forall k :: k in m ==> w(m[k]) == u(m[k])
    ensures Total(m, w) == Total(m, u)
  {
    TotalMono(m, w, u);
    TotalMono(m, u, w);
  }

  /** A weight that is the sum of two others has the sum of their totals. */
  lemma {:induction false} TotalSplit<K, V>(m: map<K, V>, w: V -> nat, u: V -> nat, x: V -> nat)
    requires forall k :: k in m ==> w(m[k]) == u(m[k]) + x(m[k])
    ensures Total(m, w) == Total(m, u) + Total(m, x)
    decreases |m|
  {
    if k :| k in m {
      assert (m - {k}).Keys == m.Keys - {k};
      TotalRemove(m, k, w);
      TotalRemove(m, k, u);
      TotalRemove(m, k, x);
      TotalSplit(m - {k}, w, u, x);
    }
  }

  /** A total is positive exactly when some entry is. */
  lemma {:induction false} TotalPositive<K, V>(m: map<K, V>, w: V -> nat)
    ensures Total(m, w) > 0 <==> exists k :: k in m && w(m[k]) > 0
    decreases |m|
  {
    if c :| c in m && w(m[c]) > 0 {
      TotalRemove(m, c, w);
    } else if k :| k in m {
      assert (m - {k}).Keys == m.Keys - {k};
      TotalRemove(m, k, w);
      TotalPositive(m - {k}, w);
    }
  }
}
