/** Sequences of rows with the keys they were read under. */
module Items {

  function Keys<K, R>(items: seq<(K, R)>): seq<K> { seq(|items|, i requires 0 <= i < |items| => items[i].0) }

  ghost predicate Distinct<T>(s: seq<T>) { forall i, j :: 0 <= i < j < |s| ==> s[i] != s[j] }

  lemma KeysAppend<K, R>(a: seq<(K, R)>, b: seq<(K, R)>)
    ensures Keys(a + b) == Keys(a) + Keys(b)
  {}

  lemma DistinctParts<T>(a: seq<T>, b: seq<T>)
    requires Distinct(a + b)
    ensures Distinct(a) && Distinct(b)
  {
    forall i, j | 0 <= i < j < |a| ensures a[i] != a[j] { assert (a + b)[i] != (a + b)[j]; }
    forall i, j | 0 <= i < j < |b| ensures b[i] != b[j] { assert (a + b)[|a| + i] != (a + b)[|a| + j]; }
  }
}
