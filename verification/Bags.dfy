// Which clients are in a queue, as a multiset.
module Bags {

  function Drop<T>(s: seq<T>, i: nat): seq<T>
    requires i < |s|
  {
    s[..i] + s[i + 1..]
  }

  function Who<T>(s: seq<T>, f: T -> nat): multiset<nat> {
    if s == [] then multiset{} else Who(s[..|s| - 1], f) + multiset{f(s[|s| - 1])}
  }

  lemma WhoSnoc<T>(s: seq<T>, x: T, f: T -> nat)
    ensures Who(s + [x], f) == Who(s, f) + multiset{f(x)}
  {
    assert (s + [x])[..|s|] == s;
  }

  lemma DropInit<T>(s: seq<T>, i: nat)
    requires i < |s| - 1
    ensures Drop(s, i) == Drop(s[..|s| - 1], i) + [s[|s| - 1]]
  {
  }

  lemma {:induction false} WhoDrop<T>(s: seq<T>, i: nat, f: T -> nat)
    requires i < |s|
    ensures Who(s, f) == Who(Drop(s, i), f) + multiset{f(s[i])}
  {
    var init, last := s[..|s| - 1], s[|s| - 1];
    if i == |s| - 1 {
      assert Drop(s, i) == init;
    } else {
      WhoDrop(init, i, f);
      WhoSnoc(Drop(init, i), last, f);
      DropInit(s, i);
    }
  }

  lemma {:induction false} WhoSize<T>(s: seq<T>, f: T -> nat)
    ensures |Who(s, f)| == |s|
  {
    if s != [] {
      WhoSize(s[..|s| - 1], f);
    }
  }

  lemma {:induction false} WhoIn<T>(s: seq<T>, f: T -> nat, c: nat)
    ensures c in Who(s, f) <==> exists i :: 0 <= i < |s| && f(s[i]) == c
  {
    if s != [] {
      var init := s[..|s| - 1];
      WhoIn(init, f, c);
      assert forall i :: 0 <= i < |init| ==> init[i] == s[i];
      assert s[|s| - 1] == s[|init|];
    }
  }

  // Each of 0..n-1 once.
  ghost function AllBelow(n: nat): (m: multiset<nat>)
    ensures |m| == n
    ensures forall c: nat :: m[c] == if c < n then 1 else 0
  {
    if n == 0 then multiset{} else AllBelow(n - 1) + multiset{n - 1}
  }

  lemma FullBag(m: multiset<nat>, n: nat)
    requires m <= AllBelow(n) && |m| == n
    ensures m == AllBelow(n)
  {
    assert |AllBelow(n) - m| == 0;
  }

  // How many entries of a queue belong to c.
  function Num<T>(s: seq<T>, f: T -> nat, c: nat): nat {
    Who(s, f)[c]
  }

  lemma NumSnoc<T>(s: seq<T>, x: T, f: T -> nat, c: nat)
    ensures Num(s + [x], f, c) == Num(s, f, c) + if f(x) == c then 1 else 0
  {
    WhoSnoc(s, x, f);
  }

  lemma NumDrop<T>(s: seq<T>, i: nat, f: T -> nat, c: nat)
    requires i < |s|
    ensures Num(s, f, c) == Num(Drop(s, i), f, c) + if f(s[i]) == c then 1 else 0
  {
    WhoDrop(s, i, f);
  }

  lemma NumIn<T>(s: seq<T>, i: nat, f: T -> nat)
    requires i < |s|
    ensures Num(s, f, f(s[i])) > 0
  {
    WhoIn(s, f, f(s[i]));
  }

  // A queue of n entries without repetition, all below n, has every client.
  lemma FullQueue<T>(s: seq<T>, f: T -> nat, n: nat, c: nat)
    requires |s| == n && c < n
    requires forall d: nat :: Num(s, f, d) <= if d < n then 1 else 0
    ensures Num(s, f, c) == 1
  {
    WhoSize(s, f);
    var m := Who(s, f);
    assert forall d: nat :: d in m ==> m[d] <= AllBelow(n)[d] by {
      forall d: nat ensures m[d] <= AllBelow(n)[d] { assert Num(s, f, d) == m[d]; }
    }
    FullBag(m, n);
  }

  function SumTo(m: multiset<nat>, n: nat): nat {
    if n == 0 then 0 else SumTo(m, n - 1) + m[n - 1]
  }

  lemma {:induction false} SumIsSize(m: multiset<nat>, n: nat)
    requires forall c: nat :: c in m ==> c < n
    ensures SumTo(m, n) == |m|
  {
    if n == 0 {
      assert m == multiset{};
    } else {
      var m' := m[n - 1 := 0];
      SumIsSize(m', n - 1);
      SumSame(m, m', n - 1);
    }
  }

  lemma {:induction false} SumSame(m: multiset<nat>, m': multiset<nat>, n: nat)
    requires forall c: nat :: c < n ==> m[c] == m'[c]
    ensures SumTo(m, n) == SumTo(m', n)
  {
    if n > 0 {
      SumSame(m, m', n - 1);
    }
  }

  // The queue 0, 1, ..., |q| - 1.
  lemma {:induction false} CountingQueue<T>(q: seq<T>, f: T -> nat, c: nat)
    requires forall i :: 0 <= i < |q| ==> f(q[i]) == i
    ensures Num(q, f, c) == if c < |q| then 1 else 0
  {
    if q != [] {
      CountingQueue(q[..|q| - 1], f, c);
      assert q == q[..|q| - 1] + [q[|q| - 1]];
      NumSnoc(q[..|q| - 1], q[|q| - 1], f, c);
    }
  }
}
