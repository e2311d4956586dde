/**
  A collection of documents held in natural (insertion) order and looked up by
  a key field. `Find`/`Get` are what a `findOne({field: k})` query returns, and
  `Put` is an upsert on that field: the first matching document is replaced in
  place, otherwise the new document is appended.
*/
module Keyed {
  import opened Optional

  /** No two documents share a key (what a unique index guarantees). */
  ghost predicate Distinct<T, K>(s: seq<T>, key: T -> K) {
    forall i, j :: 0 <= i < j < |s| ==> key(s[i]) != key(s[j])
  }

  /** Some document has key `k`. */
  ghost predicate Has<T, K>(s: seq<T>, key: T -> K, k: K) {
    exists i :: 0 <= i < |s| && key(s[i]) == k
  }

  /** Position of the first document whose key is `k`. */
  function Find<T, K(==)>(s: seq<T>, key: T -> K, k: K): (r: Option<nat>)
    ensures r.None? <==> !Has(s, key, k)
    ensures r.Some? ==> r.value < |s| && key(s[r.value]) == k
    ensures r.Some? ==> forall i :: 0 <= i < r.value ==> key(s[i]) != k
    decreases |s|
  {
    if |s| == 0 then None
    else if key(s[0]) == k then Some(0)
    else
      match Find(s[1..], key, k)
      case None =>
        assert forall i :: 1 <= i < |s| ==> s[i] == s[1..][i - 1];
        None
      case Some(i) => Some(i + 1)
  }

  /** `Find` is pinned down by "first position with that key". */
  lemma {:induction false} FindIs<T, K>(s: seq<T>, key: T -> K, k: K, j: nat)
    requires j < |s| && key(s[j]) == k
    requires forall i :: 0 <= i < j ==> key(s[i]) != k
    ensures Find(s, key, k) == Some(j)
  {
    assert Has(s, key, k);
    var r := Find(s, key, k);
    assert key(s[r.value]) == k;
  }

  /** The first document whose key is `k`, if any. */
  function Get<T, K(==)>(s: seq<T>, key: T -> K, k: K): (r: Option<T>)
    ensures r.None? <==> !Has(s, key, k)
    ensures r.Some? ==> key(r.value) == k
    ensures r.Some? ==> exists i :: 0 <= i < |s| && s[i] == r.value
  {
    match Find(s, key, k)
    case None => None
    case Some(i) => Some(s[i])
  }

  /** Under a unique key, the document at any position with key `k` is the one `Get` returns. */
  lemma {:induction false} GetAt<T, K>(s: seq<T>, key: T -> K, i: nat)
    requires Distinct(s, key)
    requires i < |s|
    ensures Get(s, key, key(s[i])) == Some(s[i])
  {
    FindIs(s, key, key(s[i]), i);
  }

  /** Documents of `r` agree with those of `s` under every key other than `k0`. */
  lemma {:induction false} GetOthers<T, K>(s: seq<T>, r: seq<T>, key: T -> K, k0: K, k: K)
    requires k != k0
    requires |s| <= |r|
    requires forall i :: 0 <= i < |s| && key(s[i]) != k0 ==> r[i] == s[i]
    requires forall i :: 0 <= i < |s| ==> key(r[i]) == key(s[i])
    requires forall i :: |s| <= i < |r| ==> key(r[i]) == k0
    ensures Get(r, key, k) == Get(s, key, k)
  {
    match Find(s, key, k)
    case None =>
      assert forall i :: 0 <= i < |r| ==> key(r[i]) != k;
    case Some(m) =>
      FindIs(r, key, k, m);
  }

  /** Upsert keyed on `key(x)`: replace the first document with that key, or append `x`. */
  function Put<T, K(==,!new)>(s: seq<T>, key: T -> K, x: T): (r: seq<T>)
    ensures Get(r, key, key(x)) == Some(x)
    ensures forall k :: k != key(x) ==> Get(r, key, k) == Get(s, key, k)
    ensures Distinct(s, key) ==> Distinct(r, key)
    ensures |r| == if Has(s, key, key(x)) then |s| else |s| + 1
    ensures forall i :: 0 <= i < |s| ==> key(r[i]) == key(s[i])
    ensures forall i :: 0 <= i < |s| && key(s[i]) != key(x) ==> r[i] == s[i]
    ensures forall i :: |s| <= i < |r| ==> r[i] == x
  {
    match Find(s, key, key(x))
    case Some(j) =>
      FindIs(s[j := x], key, key(x), j);
      PutOthers(s, s[j := x], key, x);
      s[j := x]
    case None =>
      FindIs(s + [x], key, key(x), |s|);
      PutOthers(s, s + [x], key, x);
      s + [x]
  }

  /** Under a unique key, an upsert on a stored key replaces the document at that key's position. */
  lemma {:induction false} PutAt<T, K(!new)>(s: seq<T>, key: T -> K, x: T, i: nat)
    requires Distinct(s, key)
    requires i < |s| && key(s[i]) == key(x)
    ensures |Put(s, key, x)| == |s|
    ensures Put(s, key, x)[i] == x
  {
    GetAt(Put(s, key, x), key, i);
  }

  lemma {:induction false} PutOthers<T, K(!new)>(s: seq<T>, r: seq<T>, key: T -> K, x: T)
    requires |s| <= |r|
    requires forall i :: 0 <= i < |s| && key(s[i]) != key(x) ==> r[i] == s[i]
    requires forall i :: 0 <= i < |s| ==> key(r[i]) == key(s[i])
    requires forall i :: |s| <= i < |r| ==> key(r[i]) == key(x)
    ensures forall k :: k != key(x) ==> Get(r, key, k) == Get(s, key, k)
  {
    forall k | k != key(x)
      ensures Get(r, key, k) == Get(s, key, k)
    {
      GetOthers(s, r, key, key(x), k);
    }
  }

  /** The last element whose key is `k`, if any: what a run of upserts on that key leaves behind. */
  function Last<T, K(==)>(s: seq<T>, key: T -> K, k: K): (r: Option<T>)
    ensures r.None? <==> !Has(s, key, k)
    ensures r.Some? ==> key(r.value) == k
    ensures r.Some? ==> exists i :: 0 <= i < |s| && s[i] == r.value
    decreases |s|
  {
    if |s| == 0 then None
    else if key(s[|s| - 1]) == k then Some(s[|s| - 1])
    else
      var r := Last(s[..|s| - 1], key, k);
      assert forall i :: 0 <= i < |s| - 1 ==> s[..|s| - 1][i] == s[i];
      r
  }

  /** Appending an element with key `k` makes it the last; any other leaves the last as it was. */
  lemma {:induction false} LastSnoc<T, K>(s: seq<T>, key: T -> K, x: T, k: K)
    ensures Last(s + [x], key, k) == if key(x) == k then Some(x) else Last(s, key, k)
  {
    assert (s + [x])[..|s|] == s;
  }
}
