/**
  Ordering entries by a score, highest first, as the leaderboards do. An entry is put
  after every entry whose score is at least its own, so entries with equal scores stay
  in the order they arrived: inserting the entries one by one gives what appending them
  and then calling Python's stable list.sort(key=…, reverse=True) gives.
 */
module Ranking {

  /** The scores never increase along s. */
  predicate SortedDesc<T>(s: seq<T>, key: T -> int) {
    forall i, j :: 0 <= i < j < |s| ==> key(s[i]) >= key(s[j])
  }

  /** No two entries of s share an id. */
  predicate DistinctBy<T>(s: seq<T>, id: T -> int) {
    forall i, j :: 0 <= i < j < |s| ==> id(s[i]) != id(s[j])
  }

  /** Where an entry with score k goes: after the leading entries whose score is at least k. */
  function Pos<T>(s: seq<T>, k: int, key: T -> int): (p: nat)
    ensures p <= |s|
    ensures forall i :: 0 <= i < p ==> key(s[i]) >= k
    ensures p < |s| ==> key(s[p]) < k
  {
    if s == [] || key(s[0]) < k then 0 else 1 + Pos(s[1..], k, key)
  }

  /** s with x put in its place. */
  function InsertDesc<T>(s: seq<T>, x: T, key: T -> int): seq<T> {
    var p := Pos(s, key(x), key);
    s[..p] + [x] + s[p..]
  }

  /** Inserting into a list sorted by decreasing score keeps it sorted. */
  lemma InsertKeepsSorted<T>(s: seq<T>, x: T, key: T -> int)
    requires SortedDesc(s, key)
    ensures SortedDesc(InsertDesc(s, x, key), key)
  {
    var p := Pos(s, key(x), key);
    var r := InsertDesc(s, x, key);
    assert forall i :: 0 <= i < p ==> r[i] == s[i];
    assert r[p] == x;
    assert forall i :: p < i < |r| ==> r[i] == s[i - 1];
  }

  /** Inserting adds x and keeps every other entry, the same number of times. */
  lemma InsertElements<T>(s: seq<T>, x: T, key: T -> int)
    ensures |InsertDesc(s, x, key)| == |s| + 1
    ensures multiset(InsertDesc(s, x, key)) == multiset(s) + multiset{x}
    ensures forall y :: y in InsertDesc(s, x, key) <==> y == x || y in s
  {
    var p := Pos(s, key(x), key);
    assert s == s[..p] + s[p..];
  }

  /** Inserting an entry with a new id keeps the ids distinct. */
  lemma InsertKeepsDistinct<T>(s: seq<T>, x: T, key: T -> int, id: T -> int)
    requires DistinctBy(s, id)
    requires forall i :: 0 <= i < |s| ==> id(s[i]) != id(x)
    ensures DistinctBy(InsertDesc(s, x, key), id)
  {
    var p := Pos(s, key(x), key);
    var r := InsertDesc(s, x, key);
    assert forall i :: 0 <= i < p ==> r[i] == s[i];
    assert r[p] == x;
    assert forall i :: p < i < |r| ==> r[i] == s[i - 1];
  }
}
