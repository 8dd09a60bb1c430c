/**
 * The sequence operations every repository performs on its array of
 * records: `find`/`findIndex` by a key (first match wins), `splice(i, 1)`,
 * and the "all keys distinct" invariant that the repositories preserve.
 */
module Table {
  import opened Wrappers

  /** `i` is the position of the first record whose key is `k`. */
  predicate IsFirst<T, K(==)>(xs: seq<T>, key: T -> K, k: K, i: int) {
    && 0 <= i < |xs|
    && key(xs[i]) == k
    && forall j :: 0 <= j < i ==> key(xs[j]) != k
  }

  /** Some record carries the key `k`. */
  predicate Has<T, K(==)>(xs: seq<T>, key: T -> K, k: K) {
    exists i :: 0 <= i < |xs| && key(xs[i]) == k
  }

  /** No two records share a key. */
  predicate Unique<T, K(==)>(xs: seq<T>, key: T -> K) {
    forall i, j :: 0 <= i < j < |xs| ==> key(xs[i]) != key(xs[j])
  }

  /** Array.prototype.findIndex with `x => key(x) === k`, with `None` for -1. */
  function IndexOf<T, K(==)>(xs: seq<T>, key: T -> K, k: K): (r: Option<nat>)
    ensures r.None? <==> !Has(xs, key, k)
    ensures r.Some? ==> IsFirst(xs, key, k, r.value)
    decreases |xs|
  {
    if |xs| == 0 then None
    else if key(xs[0]) == k then Some(0)
    else
      match IndexOf(xs[1..], key, k)
      case None =>
        assert forall j :: 1 <= j < |xs| ==> xs[j] == xs[1..][j - 1];
        None
      case Some(i) =>
        assert forall j :: 1 <= j < i + 1 ==> xs[j] == xs[1..][j - 1];
        Some(i + 1)
  }

  /** There is at most one first match. */
  lemma FirstIsUnique<T, K>(xs: seq<T>, key: T -> K, k: K, i: int, j: int)
    requires IsFirst(xs, key, k, i) && IsFirst(xs, key, k, j)
    ensures i == j
  {
  }

  /** `xs.splice(i, 1)`: the sequence without its `i`-th element. */
  function RemoveAt<T>(xs: seq<T>, i: nat): (r: seq<T>)
    requires i < |xs|
    ensures |r| == |xs| - 1
    ensures forall j :: 0 <= j < i ==> r[j] == xs[j]
    ensures forall j :: i <= j < |r| ==> r[j] == xs[j + 1]
    ensures multiset(r) + multiset{xs[i]} == multiset(xs)
  {
    assert xs == xs[..i] + [xs[i]] + xs[i + 1..];
    xs[..i] + xs[i + 1..]
  }

  /** Appending a record with a fresh key keeps keys distinct, and the new record is the first with its key. */
  lemma AppendFresh<T, K>(xs: seq<T>, key: T -> K, x: T)
    requires Unique(xs, key)
    requires !Has(xs, key, key(x))
    ensures Unique(xs + [x], key)
    ensures IsFirst(xs + [x], key, key(x), |xs|)
  {
  }

  /** Removing a record keeps keys distinct; in a store with distinct keys its key is then gone. */
  lemma RemoveKeepsUnique<T, K>(xs: seq<T>, key: T -> K, i: nat)
    requires i < |xs|
    requires Unique(xs, key)
    ensures Unique(RemoveAt(xs, i), key)
    ensures !Has(RemoveAt(xs, i), key, key(xs[i]))
  {
    var r := RemoveAt(xs, i);
    forall a, b | 0 <= a < b < |r| ensures key(r[a]) != key(r[b]) {
      var a' := if a < i then a else a + 1;
      var b' := if b < i then b else b + 1;
      assert r[a] == xs[a'] && r[b] == xs[b'];
    }
    forall j | 0 <= j < |r| ensures key(r[j]) != key(xs[i]) {
      var j' := if j < i then j else j + 1;
      assert r[j] == xs[j'];
    }
  }

  /** Replacing a record by one with the same key keeps keys distinct. */
  lemma ReplaceKeepsUnique<T, K>(xs: seq<T>, key: T -> K, i: nat, x: T)
    requires i < |xs|
    requires Unique(xs, key)
    requires key(x) == key(xs[i])
    ensures Unique(xs[i := x], key)
  {
  }
}
