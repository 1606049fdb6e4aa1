// A static base vocabulary extended on line, cached behind a dirty flag, and
// logits computed over the active tokens only (README_Dyna.md,
// DynamicVocabularyManager and LlamaForCausalLM.forward).
module Vocabulary {
  import opened Options

  ghost predicate Increasing(s: seq<nat>) {
    forall i, j :: 0 <= i < j < |s| ==> s[i] < s[j]
  }

  // v lists the members of ids in strictly increasing order.
  ghost predicate Lists(v: seq<nat>, ids: set<nat>) {
    Increasing(v) && forall x :: x in v <==> x in ids
  }

  lemma MembersListed(v: seq<nat>, ids: set<nat>)
    requires Lists(v, ids)
    ensures forall i :: 0 <= i < |v| ==> v[i] in ids
    ensures v == [] <==> ids == {}
  {
    if v == [] {
      assert forall x :: x in ids ==> x in v;
    } else {
      assert v[0] in v;
    }
    assert forall i :: 0 <= i < |v| ==> v[i] in v;
  }

  lemma {:induction false} ListsUnique(v: seq<nat>, w: seq<nat>, ids: set<nat>)
    requires Lists(v, ids) && Lists(w, ids)
    ensures v == w
    decreases |v|
  {
    MembersListed(v, ids);
    MembersListed(w, ids);
    if v != [] {
      var n, m := |v| - 1, |w| - 1;
      SameLast(v, w, ids);
      ListsInit(v, ids);
      ListsInit(w, ids);
      hide Lists;
      ListsUnique(v[..n], w[..m], ids - {v[n]});
      assert v == v[..n] + [v[n]] && w == w[..m] + [w[m]];
    }
  }

  lemma SameLast(v: seq<nat>, w: seq<nat>, ids: set<nat>)
    requires Lists(v, ids) && Lists(w, ids) && v != [] && w != []
    ensures v[|v| - 1] == w[|w| - 1]
  {
    var x, y := v[|v| - 1], w[|w| - 1];
    assert x in v && y in w;
    LastIsLargest(v, y);
    LastIsLargest(w, x);
  }

  lemma LastIsLargest(v: seq<nat>, x: nat)
    requires Increasing(v) && x in v
    ensures x <= v[|v| - 1]
  {
  }

  lemma ListsInit(v: seq<nat>, ids: set<nat>)
    requires Lists(v, ids) && v != []
    ensures Lists(v[..|v| - 1], ids - {v[|v| - 1]})
  {
    var n := |v| - 1;
    assert v == v[..n] + [v[n]];
    forall x ensures x in v[..n] <==> x in ids - {v[n]} {
      assert x in v <==> x in ids;
    }
  }

  lemma LeastExists(ids: set<nat>) returns (m: nat)
    requires ids != {}
    ensures Least(m, ids)
  {
    m := Member(ids);
    assert forall x :: x in ids ==> x == m || x in ids - {m};
    if ids - {m} != {} {
      var rest := LeastExists(ids - {m});
      if rest < m {
        m := rest;
      }
    }
  }

  lemma Member<T>(s: set<T>) returns (x: T)
    requires s != {}
    ensures x in s
  {
    x :| x in s;
  }

  ghost predicate Least(m: nat, ids: set<nat>) {
    m in ids && forall x :: x in ids ==> m <= x
  }

  lemma ListsCons(m: nat, v: seq<nat>, ids: set<nat>)
    requires Least(m, ids) && Lists(v, ids - {m})
    ensures Lists([m] + v, ids)
  {
    MembersListed(v, ids - {m});
    assert forall i :: 0 <= i < |v| ==> v[i] > m;
    forall x ensures x in [m] + v <==> x in ids {
      assert x in v <==> x in ids - {m};
    }
  }

  // sorted(list(ids))
  function SortedList(ids: set<nat>): (v: seq<nat>)
    ensures Lists(v, ids)
  {
    if ids == {} then []
    else
      assert exists m :: Least(m, ids) by { var m := LeastExists(ids); }
      var m :| m in ids && forall x :: x in ids ==> m <= x;
      var v := SortedList(ids - {m});
      ListsCons(m, v, ids);
      [m] + v
  }

  class DynamicVocabularyManager {
    const baseVocab: set<nat>
    var dynamicVocab: set<nat>
    var cache: Option<seq<nat>>
    var isDirty: bool
    ghost var added: set<nat>  // every id ever passed to Add

    // The cache may be trusted whenever it is not marked dirty.
    ghost predicate Valid()
      reads this
    {
      dynamicVocab == added
      && (!isDirty && cache.Some? ==> Lists(cache.value, baseVocab + added))
    }

    constructor (baseIndices: Option<seq<nat>>)
      ensures Valid() && added == {}
      ensures baseVocab == if baseIndices.Some? then set x | x in baseIndices.value else {}
    {
      baseVocab := if baseIndices.Some? then set x | x in baseIndices.value else {};
      dynamicVocab, cache, isDirty, added := {}, None, true, {};
    }

    method Add(tokenIds: seq<nat>)
      requires Valid()
      modifies this
      ensures Valid() && added == old(added) + set x | x in tokenIds
    {
      var newTokens := set x | x in tokenIds;
      if !(newTokens <= dynamicVocab) {
        dynamicVocab := dynamicVocab + newTokens;
        isDirty := true;
      }
      added := added + newTokens;
    }

    // The active vocabulary, from the cache or rebuilt.
    method GetActiveVocab() returns (active: seq<nat>)
      requires Valid()
      modifies this`cache, this`isDirty
      ensures Valid() && added == old(added)
      ensures Lists(active, baseVocab + added)
      ensures active == SortedList(baseVocab + added)
      ensures !isDirty && cache == Some(active)
    {
      if isDirty || cache.None? {
        cache := Some(SortedList(baseVocab + dynamicVocab));
        isDirty := false;
      }
      active := cache.value;
      ListsUnique(active, SortedList(baseVocab + added), baseVocab + added);
    }
  }

  // ----- logits over the active vocabulary -----

  function Dot(a: seq<real>, b: seq<real>): real
    requires |a| == |b|
  {
    if a == [] then 0.0 else Dot(a[..|a| - 1], b[..|b| - 1]) + a[|a| - 1] * b[|b| - 1]
  }

  ghost predicate Matrix(weight: seq<seq<real>>, hidden: seq<real>) {
    forall i :: 0 <= i < |weight| ==> |weight[i]| == |hidden|
  }

  function FullLogits(hidden: seq<real>, weight: seq<seq<real>>): (r: seq<real>)
    requires Matrix(weight, hidden)
    ensures |r| == |weight| && forall i :: 0 <= i < |r| ==> r[i] == Dot(hidden, weight[i])
  {
    seq(|weight|, i requires 0 <= i < |weight| => Dot(hidden, weight[i]))
  }

  // index_select, which fails on an id outside the vocabulary, then matmul.
  function ReducedLogits(hidden: seq<real>, weight: seq<seq<real>>, active: seq<nat>): Option<seq<real>>
    requires Matrix(weight, hidden)
  {
    if exists k :: 0 <= k < |active| && active[k] >= |weight| then None
    else Some(FullLogits(hidden, seq(|active|, k requires 0 <= k < |active| => weight[active[k]])))
  }

  // The lookup fails exactly when some active token is outside the vocabulary,
  // and otherwise gives one logit per active token, that of the full product.
  lemma ReducedIffInside(hidden: seq<real>, weight: seq<seq<real>>, ids: set<nat>, active: seq<nat>)
    requires Matrix(weight, hidden) && Lists(active, ids)
    ensures ReducedLogits(hidden, weight, active).Some? <==> forall t :: t in ids ==> t < |weight|
    ensures ReducedLogits(hidden, weight, active).Some? ==>
              var r := ReducedLogits(hidden, weight, active).value;
              && |r| == |active| == |ids|
              && forall k :: 0 <= k < |active| ==> active[k] < |weight| && r[k] == FullLogits(hidden, weight)[active[k]]
  {
    MembersListed(active, ids);
    ListsSize(active, ids);
    if ReducedLogits(hidden, weight, active).Some? {
      forall t | t in ids ensures t < |weight| {
        assert t in active;
      }
    }
  }

  lemma {:induction false} ListsSize(v: seq<nat>, ids: set<nat>)
    requires Lists(v, ids)
    ensures |v| == |ids|
    decreases |v|
  {
    MembersListed(v, ids);
    if v != [] {
      ListsInit(v, ids);
      ListsSize(v[..|v| - 1], ids - {v[|v| - 1]});
    }
  }

  // The product of two vectors is additive in the second and picks entry i of
  // the first for the i-th unit vector.
  lemma {:induction false} DotAdds(a: seq<real>, b: seq<real>, c: seq<real>, sum: seq<real>)
    requires |a| == |b| == |c| == |sum| && forall i :: 0 <= i < |a| ==> sum[i] == b[i] + c[i]
    ensures Dot(a, sum) == Dot(a, b) + Dot(a, c)
  {
    if a != [] {
      var n := |a| - 1;
      DotAdds(a[..n], b[..n], c[..n], sum[..n]);
      Distributes(a[n], b[n], c[n]);
    }
  }

  lemma Distributes(x: real, y: real, z: real)
    ensures x * (y + z) == x * y + x * z
  {
  }

  lemma {:induction false} DotPicks(a: seq<real>, b: seq<real>, i: nat, x: real)
    requires |a| == |b| && i < |a| && forall k :: 0 <= k < |b| ==> b[k] == if k == i then x else 0.0
    ensures Dot(a, b) == a[i] * x
  {
    var n := |a| - 1;
    assert Dot(a, b) == Dot(a[..n], b[..n]) + a[n] * b[n];
    hide Dot;
    if i == n {
      DotZero(a[..n], b[..n]);
      assert b[n] == x;
    } else {
      DotPicks(a[..n], b[..n], i, x);
      Distributes(a[n], 0.0, 0.0);
    }
  }

  lemma {:induction false} DotZero(a: seq<real>, b: seq<real>)
    requires |a| == |b| && forall k :: 0 <= k < |b| ==> b[k] == 0.0
    ensures Dot(a, b) == 0.0
  {
    if a != [] {
      var n := |a| - 1;
      DotZero(a[..n], b[..n]);
      Distributes(a[n], 0.0, 0.0);
    }
  }

  ghost predicate IsMax(logits: seq<real>, i: int) {
    0 <= i < |logits| && forall j :: 0 <= j < |logits| ==> logits[j] <= logits[i]
  }

  ghost predicate IsStrictMax(logits: seq<real>, i: int) {
    0 <= i < |logits| && forall j :: 0 <= j < |logits| && j != i ==> logits[j] < logits[i]
  }

  // Mapping back is injective, and a maximiser of the reduced logits maps to a
  // best token among the active ones.
  lemma ReducedMaxIsBestActive(hidden: seq<real>, weight: seq<seq<real>>, ids: set<nat>, active: seq<nat>, k: int)
    requires Matrix(weight, hidden) && Lists(active, ids) && ReducedLogits(hidden, weight, active).Some?
    ensures forall i, j :: 0 <= i < |active| && 0 <= j < |active| && active[i] == active[j] ==> i == j
    ensures forall i :: 0 <= i < |active| ==> active[i] < |weight|
    ensures IsMax(ReducedLogits(hidden, weight, active).value, k) <==>
              0 <= k < |active| && active[k] in ids
              && forall t :: t in ids ==> FullLogits(hidden, weight)[t] <= FullLogits(hidden, weight)[active[k]]
  {
    MembersListed(active, ids);
    var full, reduced := FullLogits(hidden, weight), ReducedLogits(hidden, weight, active).value;
    assert forall i :: 0 <= i < |active| ==> active[i] < |weight| && active[i] in active && reduced[i] == full[active[i]];
    if IsMax(reduced, k) {
      forall t | t in ids ensures full[t] <= full[active[k]] {
        var i :| 0 <= i < |active| && active[i] == t;
      }
    }
  }

  // A strict winner over the whole vocabulary that is active is found by any
  // maximisation over the reduced logits.
  lemma WinnerSurvives(hidden: seq<real>, weight: seq<seq<real>>, ids: set<nat>, active: seq<nat>, winner: nat, k: int)
    requires Matrix(weight, hidden) && Lists(active, ids) && ReducedLogits(hidden, weight, active).Some?
    requires IsStrictMax(FullLogits(hidden, weight), winner) && winner in ids
    requires IsMax(ReducedLogits(hidden, weight, active).value, k)
    ensures 0 <= k < |active| && active[k] == winner
  {
    ReducedMaxIsBestActive(hidden, weight, ids, active, k);
  }
}
