/** What several parts share: optional values, and the orders in which a collection is visited. */
module Collections {

  datatype Option<+T> = None | Some(value: T)

  /** `order` holds each of `keys` exactly once, as a loop over a Go map visits them. */
  ghost predicate Lists<K(!new)>(order: seq<K>, keys: set<K>) {
    && (forall i, j | 0 <= i < j < |order| :: order[i] != order[j])
    && (forall k :: k in order <==> k in keys)
  }

  ghost function Below(n: nat): (s: set<nat>)
    ensures forall i: nat :: i in s <==> i < n
  {
    if n == 0 then {} else Below(n - 1) + {n - 1}
  }

  /** `order` is a permutation of the first n numbers. */
  ghost predicate Permutes(order: seq<nat>, n: nat) {
    |order| == n && Lists(order, Below(n))
  }

  lemma {:induction false} SomeListing<K(!new)>(keys: set<K>) returns (order: seq<K>)
    ensures Lists(order, keys)
    decreases |keys|
  {
    order := [];
    if keys != {} {
      var k :| k in keys;
      var init := SomeListing(keys - {k});
      order := init + [k];
    }
  }

  /** Any key can come first. */
  lemma ListingFrom<K(!new)>(keys: set<K>, first: K) returns (order: seq<K>)
    requires first in keys
    ensures Lists(order, keys) && |order| > 0 && order[0] == first
  {
    var rest := SomeListing(keys - {first});
    order := [first] + rest;
  }

  /** Any key can come last. */
  lemma ListingTo<K(!new)>(keys: set<K>, last: K) returns (order: seq<K>)
    requires last in keys
    ensures Lists(order, keys) && |order| > 0 && order[|order| - 1] == last
  {
    var init := SomeListing(keys - {last});
    order := init + [last];
  }

  // ----- subsequences -----

  /** `r` is what `s` has at the places `at`, which ascend. */
  ghost predicate Picks<T>(s: seq<T>, at: seq<nat>, r: seq<T>) {
    && |at| == |r|
    && (forall i, j | 0 <= i < j < |at| :: at[i] < at[j])
    && (forall k | 0 <= k < |at| :: at[k] < |s| && r[k] == s[at[k]])
  }

  /** `r` has the elements at some places of `s`, in the same order. */
  ghost predicate Subsequence<T(!new)>(r: seq<T>, s: seq<T>) {
    exists at :: Picks(s, at, r)
  }

  lemma NothingIsSubsequence<T(!new)>(s: seq<T>)
    ensures Subsequence([], s)
  {
    assert Picks(s, [], []);
  }

  lemma SubsequenceNext<T(!new)>(r: seq<T>, s: seq<T>, x: T)
    requires Subsequence(r, s)
    ensures Subsequence(r, s + [x]) && Subsequence(r + [x], s + [x])
  {
    var at: seq<nat> :| Picks(s, at, r);
    assert Picks(s + [x], at, r);
    assert Picks(s + [x], at + [|s|], r + [x]);
  }
}
