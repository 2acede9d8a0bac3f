/** The multiset of everything a map holds. */
module Bags {

  /** Sum of `bag` over the values of `m`. */
  ghost function Total<K(!new), V, S>(m: map<K, V>, bag: V -> multiset<S>): multiset<S>
    decreases |m|
  {
    if m == map[] then multiset{}
    else
      var k :| k in m;
      SmallerWithout(m, k);
      Total(m - {k}, bag) + bag(m[k])
  }

  lemma SmallerWithout<K, V>(m: map<K, V>, k: K)
    requires k in m
    ensures |m - {k}| == |m| - 1
  {}

  /** Any key may be taken out first. */
  lemma {:induction false} TotalWithout<K(!new), V, S>(m: map<K, V>, bag: V -> multiset<S>, k: K)
    requires k in m
    ensures Total(m, bag) == Total(m - {k}, bag) + bag(m[k])
    decreases |m|
  {
    var j :| j in m && Total(m, bag) == Total(m - {j}, bag) + bag(m[j]);
    if j != k {
      SmallerWithout(m, j);
      SmallerWithout(m, k);
      TotalWithout(m - {j}, bag, k);
      TotalWithout(m - {k}, bag, j);
      assert m - {j} - {k} == m - {k} - {j};
    }
  }

  lemma TotalWith<K(!new), V, S>(m: map<K, V>, bag: V -> multiset<S>, k: K, v: V)
    requires k !in m
    ensures Total(m[k := v], bag) == Total(m, bag) + bag(v)
  {
    assert m[k := v] - {k} == m;
    TotalWithout(m[k := v], bag, k);
  }

  lemma Swap<S>(a: multiset<S>, b: multiset<S>, c: multiset<S>)
    ensures a + b + c == a + c + b
  {}

  /** Putting `v` under `k` trades whatever was there for `v`. */
  lemma TotalPut<K(!new), V, S>(m: map<K, V>, bag: V -> multiset<S>, k: K, v: V)
    ensures Total(m[k := v], bag) + (if k in m then bag(m[k]) else multiset{}) == Total(m, bag) + bag(v)
  {
    var rest := m - {k};
    assert rest[k := v] == m[k := v];
    TotalWith(rest, bag, k, v);
    if k in m {
      TotalWithout(m, bag, k);
      Swap(Total(rest, bag), bag(v), bag(m[k]));
    } else {
      assert rest == m;
    }
  }

  function One<S>(s: S): multiset<S> { multiset{s} }

  function Many<S>(rows: seq<S>): multiset<S> { multiset(rows) }
}
