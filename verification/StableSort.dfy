// Python's sorted(..., key=...): a stable sort by an integer key.
module StableSort {

  // x goes after every entry whose key is not larger.
  function Insert<T>(s: seq<T>, x: T, key: T -> int): seq<T> {
    if s == [] || key(s[|s| - 1]) <= key(x) then s + [x]
    else Insert(s[..|s| - 1], x, key) + [s[|s| - 1]]
  }

  function SortBy<T>(s: seq<T>, key: T -> int): seq<T> {
    if s == [] then [] else Insert(SortBy(s[..|s| - 1], key), s[|s| - 1], key)
  }

  ghost predicate Ascending<T>(s: seq<T>, key: T -> int) {
    forall i, j :: 0 <= i < j < |s| ==> key(s[i]) <= key(s[j])
  }

  // The entries with a given key, in order.
  function OfKey<T>(s: seq<T>, key: T -> int, k: int): seq<T> {
    if s == [] then []
    else OfKey(s[..|s| - 1], key, k) + (if key(s[|s| - 1]) == k then [s[|s| - 1]] else [])
  }

  lemma {:induction false} InsertPermutes<T>(s: seq<T>, x: T, key: T -> int)
    ensures multiset(Insert(s, x, key)) == multiset(s) + multiset{x}
  {
    if s != [] && key(s[|s| - 1]) > key(x) {
      var init, y := s[..|s| - 1], s[|s| - 1];
      assert s == init + [y];
      InsertPermutes(init, x, key);
    }
  }

  lemma {:induction false} InsertAscends<T>(s: seq<T>, x: T, key: T -> int)
    requires Ascending(s, key)
    ensures Ascending(Insert(s, x, key), key)
  {
    if s != [] && key(s[|s| - 1]) > key(x) {
      var init, y := s[..|s| - 1], s[|s| - 1];
      InsertAscends(init, x, key);
      InsertPermutes(init, x, key);
      var t := Insert(init, x, key);
      forall i | 0 <= i < |t| ensures key(t[i]) <= key(y) {
        assert t[i] in multiset(t);
        assert t[i] == x || t[i] in init;
      }
    }
  }

  lemma {:induction false} InsertStable<T>(s: seq<T>, x: T, key: T -> int, k: int)
    ensures OfKey(Insert(s, x, key), key, k) == OfKey(s, key, k) + if key(x) == k then [x] else []
  {
    if s == [] || key(s[|s| - 1]) <= key(x) {
      assert (s + [x])[..|s|] == s;
    } else {
      var init, y := s[..|s| - 1], s[|s| - 1];
      InsertStable(init, x, key, k);
      var t := Insert(init, x, key);
      assert (t + [y])[..|t|] == t;
    }
  }

  // Sorted, a permutation, and stable.
  lemma {:induction false} SortBySorts<T>(s: seq<T>, key: T -> int)
    ensures Ascending(SortBy(s, key), key)
    ensures multiset(SortBy(s, key)) == multiset(s)
    ensures |SortBy(s, key)| == |s|
    ensures forall k :: OfKey(SortBy(s, key), key, k) == OfKey(s, key, k)
  {
    if s != [] {
      var init, x := s[..|s| - 1], s[|s| - 1];
      assert s == init + [x];
      SortBySorts(init, key);
      var t := SortBy(init, key);
      InsertPermutes(t, x, key);
      InsertAscends(t, x, key);
      forall k ensures OfKey(SortBy(s, key), key, k) == OfKey(s, key, k) {
        InsertStable(t, x, key, k);
      }
    }
    assert |multiset(SortBy(s, key))| == |multiset(s)|;
  }

  // ----- where each entry goes -----

  // perm lists every index below n once.
  ghost predicate Permutes(perm: seq<nat>, n: nat) {
    && |perm| == n
    && (forall i :: 0 <= i < n ==> perm[i] < n)
    && (forall i, j :: 0 <= i < j < n ==> perm[i] != perm[j])
  }

  // Smaller key first, and the earlier index first among equal keys.
  ghost predicate Precedes<T>(s: seq<T>, key: T -> int, a: nat, b: nat)
    requires a < |s| && b < |s|
  {
    key(s[a]) < key(s[b]) || (key(s[a]) == key(s[b]) && a < b)
  }

  lemma {:induction false} InsertPosition<T>(s: seq<T>, x: T, key: T -> int) returns (p: nat)
    requires Ascending(s, key)
    ensures p <= |s| && Insert(s, x, key) == s[..p] + [x] + s[p..]
    ensures forall i :: 0 <= i < p ==> key(s[i]) <= key(x)
    ensures forall i :: p <= i < |s| ==> key(x) < key(s[i])
  {
    if s == [] || key(s[|s| - 1]) <= key(x) {
      p := |s|;
    } else {
      var init, y := s[..|s| - 1], s[|s| - 1];
      p := InsertPosition(init, x, key);
      assert s[p..] == init[p..] + [y] && s[..p] == init[..p];
    }
  }

  // The sorted list is the list at the indices perm, which are in the order of
  // their keys and, among equal keys, in the original order.
  ghost predicate SortsAs<T>(s: seq<T>, key: T -> int, perm: seq<nat>, sorted: seq<T>) {
    && Permutes(perm, |s|) && |sorted| == |s|
    && (forall i :: 0 <= i < |s| ==> sorted[i] == s[perm[i]])
    && (forall i, j :: 0 <= i < j < |s| ==> Precedes(s, key, perm[i], perm[j]))
  }

  lemma {:induction false} SortIndices<T>(s: seq<T>, key: T -> int) returns (perm: seq<nat>)
    ensures SortsAs(s, key, perm, SortBy(s, key))
  {
    if s == [] {
      perm := [];
    } else {
      var n := |s| - 1;
      var init, x := s[..n], s[n];
      var before := SortIndices(init, key);
      SortBySorts(init, key);
      var t := SortBy(init, key);
      var p := InsertPosition(t, x, key);
      perm := before[..p] + [n] + before[p..];
      IndicesInserted(s, key, before, t, p);
    }
  }

  lemma IndicesInserted<T>(s: seq<T>, key: T -> int, before: seq<nat>, t: seq<T>, p: nat)
    requires s != [] && SortsAs(s[..|s| - 1], key, before, t) && p <= |t|
    requires forall i :: 0 <= i < p ==> key(t[i]) <= key(s[|s| - 1])
    requires forall i :: p <= i < |t| ==> key(s[|s| - 1]) < key(t[i])
    ensures SortsAs(s, key, before[..p] + [|s| - 1] + before[p..], t[..p] + [s[|s| - 1]] + t[p..])
  {
    var n := |s| - 1;
    var perm, sorted := before[..p] + [n] + before[p..], t[..p] + [s[n]] + t[p..];
    forall i | 0 <= i <= n ensures perm[i] <= n && sorted[i] == s[perm[i]] {
      InsertedIndex(before, n, p, i);
      InsertedIndex(t, s[n], p, i);
    }
    forall i, j | 0 <= i < j <= n ensures perm[i] != perm[j] && Precedes(s, key, perm[i], perm[j]) {
      InsertedIndex(before, n, p, i);
      InsertedIndex(before, n, p, j);
      hide *;
      IndicesPrecede(s, key, before, t, p, i, j);
    }
  }

  // Where the entries of a list are after an insertion at p.
  function Shifted(p: nat, i: nat): int {
    if i < p then i else i - 1
  }

  lemma InsertedIndex<T>(s: seq<T>, x: T, p: nat, i: nat)
    requires p <= |s| && i <= |s|
    ensures i == p ==> (s[..p] + [x] + s[p..])[i] == x
    ensures i != p ==> 0 <= Shifted(p, i) < |s| && (s[..p] + [x] + s[p..])[i] == s[Shifted(p, i)]
  {
  }

  lemma IndicesPrecede<T>(s: seq<T>, key: T -> int, before: seq<nat>, t: seq<T>, p: nat, i: nat, j: nat)
    requires s != [] && SortsAs(s[..|s| - 1], key, before, t) && p <= |t| && i < j < |s|
    requires forall i :: 0 <= i < p ==> key(t[i]) <= key(s[|s| - 1])
    requires forall i :: p <= i < |t| ==> key(s[|s| - 1]) < key(t[i])
    ensures var n := |s| - 1;
            var a, b := if i == p then n else before[Shifted(p, i)], if j == p then n else before[Shifted(p, j)];
            a <= n && b <= n && a != b && Precedes(s, key, a, b)
  {
    var n := |s| - 1;
    if i != p && j != p {
      assert Precedes(s[..n], key, before[Shifted(p, i)], before[Shifted(p, j)]);
    } else if i == p {
      assert t[j - 1] == s[..n][before[j - 1]];
    } else {
      assert t[i] == s[..n][before[i]];
    }
  }
}
