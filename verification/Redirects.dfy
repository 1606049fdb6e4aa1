// Redirect resolution and ring detection over a list of lines
// (benchmark/line_retrieval/gen_data.py, generate_lines).
module Redirects {
  import opened Options

  // redirects[i] is the line that line i refers to, if any.
  type RedirectList = seq<Option<nat>>

  ghost predicate InRange(r: RedirectList) {
    forall i :: 0 <= i < |r| && r[i].Some? ==> r[i].value < |r|
  }

  // ----- following a redirect chain -----

  // The line reached from i after k hops; an unredirected line is final.
  function Walk(r: RedirectList, i: nat, k: nat): (c: nat)
    requires InRange(r) && i < |r|
    ensures c < |r|
  {
    if k == 0 then i
    else
      var c := Walk(r, i, k - 1);
      if r[c].Some? then r[c].value else c
  }

  // The chain from i never reaches an unredirected line.
  ghost predicate Ring(r: RedirectList, i: nat)
    requires InRange(r) && i < |r|
  {
    forall k: nat :: r[Walk(r, i, k)].Some?
  }

  // All lines before hop k are redirected and different from each other.
  ghost predicate Fresh(r: RedirectList, i: nat, k: nat)
    requires InRange(r) && i < |r|
  {
    && (forall m: nat :: m < k ==> r[Walk(r, i, m)].Some?)
    && (forall m: nat, n: nat :: m < n < k ==> Walk(r, i, m) != Walk(r, i, n))
  }

  ghost predicate Repeats(r: RedirectList, i: nat, k: nat)
    requires InRange(r) && i < |r|
  {
    exists m: nat :: m < k && Walk(r, i, m) == Walk(r, i, k)
  }

  // Hop k is where the search from i ends: an unredirected line, or the first
  // line met twice.
  ghost predicate Stops(r: RedirectList, i: nat, k: nat)
    requires InRange(r) && i < |r|
  {
    Fresh(r, i, k) && (r[Walk(r, i, k)].None? || Repeats(r, i, k))
  }

  lemma {:induction false} WalkFrom(r: RedirectList, i: nat, j: nat, k: nat)
    requires InRange(r) && i < |r|
    ensures Walk(r, Walk(r, i, j), k) == Walk(r, i, j + k)
    decreases k
  {
    if k > 0 {
      WalkFrom(r, i, j, k - 1);
    }
  }

  lemma {:induction false} FinalStays(r: RedirectList, i: nat, k: nat, m: nat)
    requires InRange(r) && i < |r| && k <= m && r[Walk(r, i, k)].None?
    ensures Walk(r, i, m) == Walk(r, i, k)
    decreases m
  {
    if k < m {
      FinalStays(r, i, k, m - 1);
    }
  }

  // A chain that meets a line twice goes round for ever.
  lemma {:induction false} RepeatGoesRound(r: RedirectList, i: nat, j: nat, k: nat, m: nat)
    requires InRange(r) && i < |r| && j < k && Walk(r, i, j) == Walk(r, i, k)
    requires forall n: nat :: n < k ==> r[Walk(r, i, n)].Some?
    ensures r[Walk(r, i, m)].Some?
    decreases m
  {
    if m >= k {
      RepeatGoesRound(r, i, j, k, m - (k - j));
      WalkFrom(r, i, k, m - k);
      WalkFrom(r, i, j, m - k);
    }
  }

  ghost function Below(n: nat): (s: set<nat>)
    ensures forall x: nat :: x in s <==> x < n
  {
    if n == 0 then {} else Below(n - 1) + {n - 1}
  }

  // The lines met before hop k.
  ghost function Met(r: RedirectList, i: nat, k: nat): set<nat>
    requires InRange(r) && i < |r|
  {
    set m: nat | m < k :: Walk(r, i, m)
  }

  lemma MetGrows(r: RedirectList, i: nat, k: nat)
    requires InRange(r) && i < |r|
    ensures Met(r, i, k + 1) == Met(r, i, k) + {Walk(r, i, k)}
    ensures Walk(r, i, k) !in Met(r, i, k) ==> Below(|r|) - Met(r, i, k + 1) < Below(|r|) - Met(r, i, k)
  {
    if Walk(r, i, k) !in Met(r, i, k) {
      assert Walk(r, i, k) in Below(|r|) - Met(r, i, k);
    }
  }

  lemma FreshGrows(r: RedirectList, i: nat, k: nat)
    requires InRange(r) && i < |r| && Fresh(r, i, k) && r[Walk(r, i, k)].Some? && Walk(r, i, k) !in Met(r, i, k)
    ensures Fresh(r, i, k + 1)
  {
    assert forall m: nat :: m < k ==> Walk(r, i, m) in Met(r, i, k);
  }

  // By pigeonhole every search ends.
  lemma StopExists(r: RedirectList, i: nat)
    requires InRange(r) && i < |r|
    ensures exists k: nat :: Stops(r, i, k)
  {
    var k: nat := 0;
    assert Fresh(r, i, 0);
    while r[Walk(r, i, k)].Some? && Walk(r, i, k) !in Met(r, i, k)
      invariant Fresh(r, i, k)
      decreases Below(|r|) - Met(r, i, k)
    {
      FreshGrows(r, i, k);
      MetGrows(r, i, k);
      k := k + 1;
    }
    assert Stops(r, i, k);
  }

  lemma StopUnique(r: RedirectList, i: nat, k: nat, k': nat)
    requires InRange(r) && i < |r| && Stops(r, i, k) && Stops(r, i, k')
    ensures k == k'
  {
    NotBefore(r, i, k, k');
    NotBefore(r, i, k', k);
  }

  lemma NotBefore(r: RedirectList, i: nat, k: nat, k': nat)
    requires InRange(r) && i < |r| && Stops(r, i, k) && Stops(r, i, k')
    ensures k <= k'
  {
  }

  ghost function Stop(r: RedirectList, i: nat): (k: nat)
    requires InRange(r) && i < |r|
    ensures Stops(r, i, k)
  {
    StopExists(r, i);
    var k: nat :| Stops(r, i, k);
    k
  }

  // The line whose value line i ends up with.
  ghost function Landing(r: RedirectList, i: nat): (c: nat)
    requires InRange(r) && i < |r|
    ensures c < |r|
  {
    Walk(r, i, Stop(r, i))
  }

  // A line is in a ring exactly when its search ends on a redirected line.
  lemma RingIff(r: RedirectList, i: nat)
    requires InRange(r) && i < |r|
    ensures Ring(r, i) <==> r[Landing(r, i)].Some?
  {
    var k := Stop(r, i);
    if r[Walk(r, i, k)].Some? {
      var j: nat :| j < k && Walk(r, i, j) == Walk(r, i, k);
      forall m: nat ensures r[Walk(r, i, m)].Some? {
        RepeatGoesRound(r, i, j, k, m);
      }
    }
  }

  // The line a search ends on is where its own search ends: an unredirected
  // line at once, a line of a cycle after one turn.
  lemma LandingIsFixed(r: RedirectList, i: nat)
    requires InRange(r) && i < |r|
    ensures Landing(r, Landing(r, i)) == Landing(r, i)
  {
    var k := Stop(r, i);
    var c := Walk(r, i, k);
    if r[c].None? {
      assert Walk(r, c, 0) == c && Stops(r, c, 0);
      StopUnique(r, c, 0, Stop(r, c));
    } else {
      var j: nat :| j < k && Walk(r, i, j) == c;
      var turn := k - j;
      forall m: nat | m <= turn ensures Walk(r, c, m) == Walk(r, i, j + m) {
        WalkFrom(r, i, j, m);
      }
      assert Walk(r, c, 0) == c && Walk(r, c, turn) == c;
      assert Stops(r, c, turn);
      StopUnique(r, c, turn, Stop(r, c));
    }
  }

  // ----- chains -----

  // `chain` is the list of lines met after q, each the target of the one
  // before, all of them in the list, ending on an unredirected line.
  ghost predicate IsChain(r: RedirectList, q: nat, chain: seq<nat>)
    decreases |chain|
  {
    && q < |r|
    && if chain == [] then r[q].None? else r[q] == Some(chain[0]) && IsChain(r, chain[0], chain[1..])
  }

  function Terminal(q: nat, chain: seq<nat>): nat {
    if chain == [] then q else chain[|chain| - 1]
  }

  // Hops 1..k from i.
  function Hops(r: RedirectList, i: nat, k: nat): (s: seq<nat>)
    requires InRange(r) && i < |r|
    ensures |s| == k
    ensures forall m :: 0 <= m < k ==> s[m] == Walk(r, i, m + 1)
  {
    if k == 0 then [] else Hops(r, i, k - 1) + [Walk(r, i, k)]
  }

  ghost function Link(r: RedirectList, i: nat): seq<nat>
    requires InRange(r) && i < |r|
  {
    Hops(r, i, Stop(r, i))
  }

  lemma {:induction false} ChainFrom(r: RedirectList, i: nat, j: nat, k: nat)
    requires InRange(r) && i < |r| && j <= k && r[Walk(r, i, k)].None?
    requires forall m: nat :: m < k ==> r[Walk(r, i, m)].Some?
    ensures IsChain(r, Walk(r, i, j), Hops(r, i, k)[j..])
    decreases k - j
  {
    var chain := Hops(r, i, k)[j..];
    if j < k {
      ChainFrom(r, i, j + 1, k);
      assert chain[0] == Walk(r, i, j + 1);
      assert chain[1..] == Hops(r, i, k)[j + 1..];
    }
  }

  // Off a ring the recorded link is the redirect chain.
  lemma LinkIsChain(r: RedirectList, i: nat)
    requires InRange(r) && i < |r| && !Ring(r, i)
    ensures IsChain(r, i, Link(r, i))
    ensures Terminal(i, Link(r, i)) == Landing(r, i)
  {
    RingIff(r, i);
    var k := Stop(r, i);
    ChainFrom(r, i, 0, k);
    assert Hops(r, i, k)[0..] == Hops(r, i, k);
  }

  lemma {:induction false} ChainUnique(r: RedirectList, q: nat, a: seq<nat>, b: seq<nat>)
    requires IsChain(r, q, a) && IsChain(r, q, b)
    ensures a == b
    decreases |a|
  {
    if a != [] {
      ChainUnique(r, a[0], a[1..], b[1..]);
      assert a == [a[0]] + a[1..] && b == [b[0]] + b[1..];
    }
  }

  // On a ring there is no chain to record.
  lemma {:induction false} RingHasNoChain(r: RedirectList, i: nat, chain: seq<nat>)
    requires InRange(r) && i < |r| && Ring(r, i)
    ensures !IsChain(r, i, chain)
    decreases |chain|
  {
    assert r[Walk(r, i, 0)].Some?;
    if chain != [] && r[i] == Some(chain[0]) {
      assert Walk(r, i, 1) == chain[0];
      forall k: nat ensures r[Walk(r, chain[0], k)].Some? {
        WalkFrom(r, i, 1, k);
      }
      RingHasNoChain(r, chain[0], chain[1..]);
    }
  }

  // ----- the generator's loops -----

  // The inner loop: where the search from i ends, and the link it records.
  method FollowRedirects(r: RedirectList, i: nat) returns (cur: nat, link: Option<seq<nat>>)
    requires InRange(r) && i < |r|
    ensures cur == Landing(r, i)
    ensures link == if Ring(r, i) then None else Some(Link(r, i))
  {
    var tmpLink: seq<nat> := [];
    var visited: set<nat> := {};
    cur := i;
    ghost var k: nat := 0;
    RingIff(r, i);
    assert Fresh(r, i, 0);
    hide Ring, Fresh, Below;
    while r[cur].Some?
      invariant cur == Walk(r, i, k) && cur !in visited
      invariant tmpLink == Hops(r, i, k)
      invariant Fresh(r, i, k)
      invariant visited == Met(r, i, k)
      decreases Below(|r|) - visited
    {
      FreshGrows(r, i, k);
      MetGrows(r, i, k);
      visited := visited + {cur};
      tmpLink := tmpLink + [r[cur].value];
      cur := r[cur].value;
      k := k + 1;
      if cur in visited {
        assert Repeats(r, i, k);
        StopUnique(r, i, k, Stop(r, i));
        return cur, None;
      }
    }
    StopUnique(r, i, k, Stop(r, i));
    link := Some(tmpLink);
  }

  // The outer loop over all lines, overwriting `values` in place.
  method ResolveAll<V>(r: RedirectList, values: array<V>)
    returns (links: seq<Option<seq<nat>>>, containsRing: set<nat>)
    requires InRange(r) && values.Length == |r|
    modifies values
    ensures forall i: nat :: i < |r| ==> values[i] == old(values[Landing(r, i)])
    ensures |links| == |r|
    ensures forall i: nat :: i < |r| ==> links[i] == if Ring(r, i) then None else Some(Link(r, i))
    ensures forall i: nat :: i in containsRing <==> i < |r| && Ring(r, i)
  {
    links := seq(|r|, _ => Some([]));
    containsRing := {};
    for i := 0 to |r|
      invariant |links| == |r|
      invariant forall j: nat :: j < i ==> values[j] == old(values[Landing(r, j)])
      invariant forall j: nat :: i <= j < |r| ==> values[j] == old(values[j])
      invariant forall j: nat :: j < i ==> links[j] == if Ring(r, j) then None else Some(Link(r, j))
      invariant forall j: nat :: i <= j < |r| ==> links[j] == Some([])
      invariant forall j: nat :: j in containsRing <==> j < i && Ring(r, j)
    {
      if r[i].None? {
        Unredirected(r, i);
      } else {
        var cur, link := FollowRedirects(r, i);
        LandingIsFixed(r, i);
        if link.None? {
          containsRing := containsRing + {i};
        }
        values[i] := values[cur];
        links := links[i := link];
      }
    }
  }

  lemma Unredirected(r: RedirectList, i: nat)
    requires InRange(r) && i < |r| && r[i].None?
    ensures Landing(r, i) == i && Link(r, i) == [] && !Ring(r, i)
  {
    assert Walk(r, i, 0) == i && Stops(r, i, 0);
    StopUnique(r, i, 0, Stop(r, i));
    RingIff(r, i);
  }
}
