/** The hot store: a partition of keyed payloads, and the order in which a range scan yields its keys. */
module HotStore {
  import opened Bytes
  import opened Samples

  type Key = Bytestring
  type Store = map<Key, Payload>

  /**
   * One Fjall partition. Failures come from outside: `insertFails(i)` says that the `i`-th insert of
   * the run is refused, `removeFails(k)` that removals of `k` are.
   */
  class Partition {
    var content: Store
    var inserts: nat
    const insertFails: nat -> bool
    const removeFails: Key -> bool

    constructor (content: Store, insertFails: nat -> bool, removeFails: Key -> bool)
      ensures this.content == content && inserts == 0
      ensures this.insertFails == insertFails && this.removeFails == removeFails
    {
      this.content := content;
      this.inserts := 0;
      this.insertFails := insertFails;
      this.removeFails := removeFails;
    }

    method Insert(key: Key, value: Payload)
      modifies this
      ensures inserts == old(inserts) + 1
      ensures content == if insertFails(old(inserts)) then old(content) else old(content)[key := value]
    {
      if !insertFails(inserts) {
        content := content[key := value];
      }
      inserts := inserts + 1;
    }

    method Remove(key: Key)
      modifies this`content
      ensures content == Without(old(content), {key}, removeFails)
    {
      if !removeFails(key) {
        content := content - {key};
      }
    }
  }

  /** `store` after removals of `keys`, some of which may be refused. */
  ghost function Without(store: Store, keys: set<Key>, fails: Key -> bool): Store
  {
    map k | k in store && (k in keys ==> fails(k)) :: store[k]
  }

  /** `items` is what a scan of the range below `bound` yields: its keys, ascending. */
  ghost predicate IsScan(items: seq<Key>, store: Store, bound: Key)
  {
    && (forall i, j :: 0 <= i < j < |items| ==> Less(items[i], items[j]))
    && (forall k :: k in items <==> k in store && Less(k, bound))
  }

  lemma ScanDistinct(items: seq<Key>, store: Store, bound: Key)
    requires IsScan(items, store, bound)
    ensures forall i, j :: 0 <= i < j < |items| ==> items[i] != items[j]
  {
    forall i, j | 0 <= i < j < |items| ensures items[i] != items[j] { LessAsymmetric(items[i], items[j]); }
  }

  /** Every range has a scan. */
  lemma ScanExists(store: Store, bound: Key) returns (items: seq<Key>)
    ensures IsScan(items, store, bound)
  {
    items := Ascending(set k | k in store && Less(k, bound));
  }

  lemma {:induction false} Ascending(keys: set<Key>) returns (items: seq<Key>)
    ensures forall i, j :: 0 <= i < j < |items| ==> Less(items[i], items[j])
    ensures forall k :: k in items <==> k in keys
    decreases |keys|
  {
    if keys == {} {
      items := [];
    } else {
      var least := Least(keys);
      var rest := Ascending(keys - {least});
      items := [least] + rest;
      forall i, j | 0 <= i < j < |items| ensures Less(items[i], items[j]) {
        if i == 0 { assert items[j] == rest[j - 1] && rest[j - 1] in rest; }
      }
    }
  }

  lemma {:induction false} Least(keys: set<Key>) returns (least: Key)
    requires keys != {}
    ensures least in keys
    ensures forall k :: k in keys && k != least ==> Less(least, k)
    decreases |keys|
  {
    var k :| k in keys;
    if keys == {k} {
      least := k;
    } else {
      var m := Least(keys - {k});
      LessTotal(k, m);
      least := if Less(k, m) then k else m;
      forall x | x in keys && x != least ensures Less(least, x) {
        if x != k && x != m && least == k { LessTransitive(k, m, x); }
      }
    }
  }

  /** A range has only one scan, so what a pass does is determined by the store and the bound. */
  lemma {:induction false} ScanUnique(a: seq<Key>, b: seq<Key>)
    requires forall i, j :: 0 <= i < j < |a| ==> Less(a[i], a[j])
    requires forall i, j :: 0 <= i < j < |b| ==> Less(b[i], b[j])
    requires forall k :: k in a <==> k in b
    ensures a == b
  {
    assert |b| > 0 ==> b[0] in b;
    if a != [] {
      assert a[0] in b && b[0] in a by { assert a[0] in a; }
      var i :| 0 <= i < |a| && a[i] == b[0];
      var j :| 0 <= j < |b| && b[j] == a[0];
      if i > 0 && j > 0 { LessAsymmetric(a[0], a[i]); }
      assert a[0] == b[0];
      forall k ensures k in a[1..] <==> k in b[1..] { TailMembers(a, k); TailMembers(b, k); }
      ScanUnique(a[1..], b[1..]);
    }
  }

  lemma TailMembers(a: seq<Key>, k: Key)
    requires a != [] && forall i, j :: 0 <= i < j < |a| ==> Less(a[i], a[j])
    ensures k in a[1..] <==> k in a && k != a[0]
  {
    if k in a[1..] {
      var i :| 0 <= i < |a[1..]| && a[1..][i] == k;
      LessAsymmetric(a[0], a[i + 1]);
    }
  }
}
