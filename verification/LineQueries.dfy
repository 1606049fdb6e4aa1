// Grouping the generated lines by chain length, and the query filter of the
// evaluation that relies on it (benchmark/line_retrieval/gen_data.py and
// benchmark/line_retrieval/bench_sglang.py).
module LineQueries {
  import opened Options
  import opened Redirects

  ghost predicate Increasing(s: seq<nat>) {
    forall i, j :: 0 <= i < j < |s| ==> s[i] < s[j]
  }

  // Line i belongs to group h: it is off every ring and h - 1 hops long.
  ghost predicate HasHoops(r: RedirectList, i: nat, h: nat)
    requires InRange(r)
  {
    i < |r| && !Ring(r, i) && |Link(r, i)| + 1 == h
  }

  // The groups are non-empty increasing lists and hold, between them, every
  // ring-free line exactly once, under its chain length plus one.
  ghost predicate GroupsBy(r: RedirectList, groups: map<nat, seq<nat>>, n: nat)
    requires InRange(r)
  {
    && (forall h :: h in groups ==> groups[h] != [] && Increasing(groups[h]))
    && (forall h, i :: h in groups && i in groups[h] ==> i < n && HasHoops(r, i, h))
    && (forall h, i: nat :: i < n && HasHoops(r, i, h) ==> h in groups && i in groups[h])
  }

  // Links, rings, values and groups of a list of lines.
  method BuildGroups<V>(r: RedirectList, values: array<V>)
    returns (links: seq<Option<seq<nat>>>, containsRing: set<nat>, groups: map<nat, seq<nat>>)
    requires InRange(r) && values.Length == |r|
    modifies values
    ensures forall i: nat :: i < |r| ==> values[i] == old(values[Landing(r, i)])
    ensures |links| == |r|
    ensures forall i: nat :: i < |r| ==> links[i] == if Ring(r, i) then None else Some(Link(r, i))
    ensures forall i: nat :: i in containsRing <==> i < |r| && Ring(r, i)
    ensures GroupsBy(r, groups, |r|)
  {
    links, containsRing := ResolveAll(r, values);
    groups := GroupByNumHoops(r, links, containsRing);
  }

  method GroupByNumHoops(r: RedirectList, links: seq<Option<seq<nat>>>, containsRing: set<nat>)
    returns (groups: map<nat, seq<nat>>)
    requires InRange(r) && |links| == |r|
    requires forall i: nat :: i < |r| ==> links[i] == if Ring(r, i) then None else Some(Link(r, i))
    requires forall i: nat :: i in containsRing <==> i < |r| && Ring(r, i)
    ensures GroupsBy(r, groups, |r|)
  {
    groups := map[];
    for i := 0 to |r|
      invariant GroupsBy(r, groups, i)
    {
      if i !in containsRing {
        var h := |links[i].value| + 1;
        GroupsGrow(r, groups, i, h);
        groups := groups[h := (if h in groups then groups[h] else []) + [i]];
      }
    }
  }

  lemma GroupsGrow(r: RedirectList, groups: map<nat, seq<nat>>, i: nat, h: nat)
    requires InRange(r) && GroupsBy(r, groups, i) && HasHoops(r, i, h)
    ensures GroupsBy(r, groups[h := (if h in groups then groups[h] else []) + [i]], i + 1)
  {
    hide HasHoops;
    var before := if h in groups then groups[h] else [];
    var groups' := groups[h := before + [i]];
    assert forall x :: x in before ==> x < i;
    forall g | g in groups' ensures groups'[g] != [] && Increasing(groups'[g]) {
      assert g != h ==> groups'[g] == groups[g];
      assert forall k :: 0 <= k < |before| ==> before[k] in before;
    }
    forall g, x | g in groups' && x in groups'[g] ensures x < i + 1 && HasHoops(r, x, g) {
      assert g != h ==> x in groups[g];
      assert g == h ==> x in before || x == i;
    }
    forall g, x: nat | x < i + 1 && HasHoops(r, x, g) ensures g in groups' && x in groups'[g] {
      if x == i {
        OneGroup(r, i, g, h);
      }
    }
  }

  lemma OneGroup(r: RedirectList, i: nat, g: nat, h: nat)
    requires InRange(r) && HasHoops(r, i, g) && HasHoops(r, i, h)
    ensures g == h
  {
  }

  // ----- the query filter -----

  predicate Kept(link: seq<nat>, src: nat, q: nat) {
    (forall i :: 0 <= i < |link| ==> link[i] <= src) && q < src
  }

  // lines[: src + 1]
  function Truncated<T>(s: seq<T>, src: nat): seq<T> {
    if src + 1 <= |s| then s[..src + 1] else s
  }

  // A chain can be followed in the truncated list exactly when it can be
  // followed in the full one and every line on it is still there.
  lemma {:induction false} TruncatedChain(r: RedirectList, src: nat, q: nat, chain: seq<nat>)
    ensures IsChain(Truncated(r, src), q, chain)
       <==> IsChain(r, q, chain) && q <= src && forall i :: 0 <= i < |chain| ==> chain[i] <= src
    decreases |chain|
  {
    if chain != [] {
      TruncatedChain(r, src, chain[0], chain[1..]);
      assert forall i :: 1 <= i < |chain| ==> chain[i] == chain[1..][i - 1];
      assert forall i :: 0 <= i < |chain| - 1 ==> chain[1..][i] == chain[i + 1];
    }
  }

  // The chain of q can be followed in the lines that are left.
  ghost predicate Resolvable(r: RedirectList, src: nat, q: nat) {
    exists chain :: IsChain(Truncated(r, src), q, chain)
  }

  // The filter keeps a ring-free query before the cut exactly when the query
  // can be resolved from the lines that are left.
  lemma KeptIffResolvable(r: RedirectList, src: nat, q: nat)
    requires InRange(r) && q < |r| && !Ring(r, q)
    ensures Kept(Link(r, q), src, q) <==> q < src && Resolvable(r, src, q)
  {
    LinkIsChain(r, q);
    TruncatedChain(r, src, q, Link(r, q));
    forall chain | IsChain(Truncated(r, src), q, chain) ensures q < src ==> Kept(Link(r, q), src, q) {
      TruncatedChain(r, src, q, chain);
      ChainUnique(r, q, chain, Link(r, q));
    }
  }

  // Resolving a kept query with the truncated list leads to the same line as
  // with the full list.
  lemma TruncationSafe(r: RedirectList, src: nat, q: nat, chain: seq<nat>)
    requires InRange(r) && q < |r| && !Ring(r, q) && Kept(Link(r, q), src, q)
    requires IsChain(Truncated(r, src), q, chain)
    ensures chain == Link(r, q) && Terminal(q, chain) == Landing(r, q)
    ensures Landing(r, q) <= src
  {
    LinkIsChain(r, q);
    TruncatedChain(r, src, q, chain);
    ChainUnique(r, q, chain, Link(r, q));
  }

  function KeptQueries(queries: seq<nat>, links: seq<Option<seq<nat>>>, src: nat): (kept: seq<nat>)
    requires forall q :: q in queries ==> q < |links| && links[q].Some?
    ensures forall q :: q in kept <==> q in queries && Kept(links[q].value, src, q)
    ensures Increasing(queries) ==> Increasing(kept)
  {
    if queries == [] then []
    else
      var n := |queries| - 1;
      var init, q := queries[..n], queries[n];
      assert queries == init + [q] && q in queries && forall x :: x in init ==> x in queries;
      var kept := KeptQueries(init, links, src);
      assert Increasing(queries) ==> forall x :: x in kept ==> x < q;
      if Kept(links[q].value, src, q) then KeptSnoc(kept, q); kept + [q] else kept
  }

  lemma KeptSnoc(kept: seq<nat>, q: nat)
    ensures Increasing(kept) && (forall x :: x in kept ==> x < q) ==> Increasing(kept + [q])
  {
    assert forall i :: 0 <= i < |kept| ==> kept[i] in kept;
  }

  // min(int(len * percent), len - 1)
  function PickIndex(n: nat, percent: real): (k: int)
    requires 0.0 <= percent
    ensures n > 0 ==> 0 <= k < n && (k as real) <= n as real * percent
    ensures 0 <= k < n - 1 ==> n as real * percent < (k + 1) as real
  {
    var i := (n as real * percent).Floor;
    if i < n - 1 then i else n - 1
  }

  function Below(all: set<nat>, x: nat): set<nat> {
    set q | q in all && q < x
  }

  // x is the member of `all` at the given percentage: the number of smaller
  // ones is the percentage of their number, rounded down, or one less than
  // their number if that is not reached.
  ghost predicate AtPercent(all: set<nat>, x: nat, percent: real) {
    var m, k := |all|, |Below(all, x)|;
    && x in all && k < m && k as real <= m as real * percent
    && (k < m - 1 ==> m as real * percent < (k + 1) as real)
  }

  lemma {:induction false} IncreasingRank(v: seq<nat>, all: set<nat>, k: nat)
    requires Increasing(v) && k < |v| && forall x :: x in v <==> x in all
    ensures |all| == |v| && |Below(all, v[k])| == k
  {
    PrefixSet(v, k);
    PrefixSet(v, |v|);
    assert v[..|v|] == v;
    assert all == Members(v);
    assert Below(all, v[k]) == Members(v[..k]) by {
      forall x ensures x in v && x < v[k] <==> x in v[..k] {
        if x in v {
          var i :| 0 <= i < |v| && v[i] == x;
        }
      }
    }
  }

  function Members(v: seq<nat>): set<nat> {
    set x | x in v
  }

  lemma {:induction false} PrefixSet(v: seq<nat>, k: nat)
    requires Increasing(v) && k <= |v|
    ensures |Members(v[..k])| == k
  {
    if k > 0 {
      PrefixSet(v, k - 1);
      assert v[..k] == v[..k - 1] + [v[k - 1]];
      assert Members(v[..k]) == Members(v[..k - 1]) + {v[k - 1]};
    }
  }

  // One evaluated query: its label and the four parts of the truncated body.
  datatype Query<V, L> = Query(index: nat, answer: V, body: seq<seq<L>>)

  function Join<L>(parts: seq<seq<L>>): seq<L> {
    if parts == [] then [] else parts[0] + Join(parts[1..])
  }

  // Query q has the wanted chain length and can be resolved from the lines
  // that are left.
  ghost predicate Answerable(r: RedirectList, hoops: nat, src: nat, q: nat)
    requires InRange(r)
  {
    HasHoops(r, q, hoops) && q < src && Resolvable(r, src, q)
  }

  ghost function AnswerableSet(r: RedirectList, hoops: nat, src: nat): set<nat>
    requires InRange(r)
  {
    set q: nat | q < |r| && Answerable(r, hoops, src, q)
  }

  // Whoever resolves q from the lines that are left takes hoops - 1 hops and
  // finds `answer` there.
  ghost predicate Answers<V>(r: RedirectList, original: seq<V>, hoops: nat, src: nat, q: nat, answer: V)
    requires |original| == |r|
  {
    forall chain :: IsChain(Truncated(r, src), q, chain) ==>
      |chain| + 1 == hoops && Terminal(q, chain) < |r| && answer == original[Terminal(q, chain)]
  }

  lemma KeptAreAnswerable(r: RedirectList, links: seq<Option<seq<nat>>>, group: seq<nat>, hoops: nat, src: nat, q: nat)
    requires InRange(r) && |links| == |r|
    requires forall i: nat :: i < |r| ==> links[i] == if Ring(r, i) then None else Some(Link(r, i))
    requires forall i: nat :: i in group <==> HasHoops(r, i, hoops)
    ensures forall i: nat :: i in group ==> i < |links| && links[i].Some?
    ensures q in KeptQueries(group, links, src) <==> Answerable(r, hoops, src, q)
  {
    assert forall i: nat :: i in group ==> HasHoops(r, i, hoops);
    if HasHoops(r, q, hoops) {
      KeptIffResolvable(r, src, q);
    }
  }

  lemma AnswerFound<V>(r: RedirectList, original: seq<V>, hoops: nat, src: nat, q: nat)
    requires InRange(r) && |original| == |r| && Answerable(r, hoops, src, q)
    ensures Answers(r, original, hoops, src, q, original[Landing(r, q)])
  {
    KeptIffResolvable(r, src, q);
    forall chain | IsChain(Truncated(r, src), q, chain)
      ensures |chain| + 1 == hoops && Terminal(q, chain) == Landing(r, q)
    {
      TruncationSafe(r, src, q, chain);
    }
  }

  // The inner block of eval_model for one (src_index, dst_percent) pair; None
  // is the IndexError of picking from an empty list, or the KeyError of a
  // chain length no line has.
  method MakeQuery<V, L>(r: RedirectList, ghost original: seq<V>, values: seq<V>, lines: seq<L>,
                         links: seq<Option<seq<nat>>>, groups: map<nat, seq<nat>>,
                         hoops: nat, src: nat, percent: real)
    returns (query: Option<Query<V, L>>)
    requires InRange(r) && |original| == |values| == |lines| == |links| == |r| && 0.0 <= percent
    requires forall i: nat :: i < |r| ==> values[i] == original[Landing(r, i)]
    requires forall i: nat :: i < |r| ==> links[i] == if Ring(r, i) then None else Some(Link(r, i))
    requires GroupsBy(r, groups, |r|)
    ensures query.None? <==> forall q: nat :: !Answerable(r, hoops, src, q)
    ensures query.Some? ==>
              var q := query.value.index;
              && Answerable(r, hoops, src, q)
              && Answers(r, original, hoops, src, q, query.value.answer)
              && |query.value.body| == 4 && Join(query.value.body) == Truncated(lines, src)
              && forall k :: 0 <= k < 3 ==> |query.value.body[k]| == |Truncated(lines, src)| / 4
    ensures query.Some? ==> AtPercent(AnswerableSet(r, hoops, src), query.value.index, percent)
  {
    if hoops !in groups {
      return None;
    }
    forall q: nat
      ensures forall i: nat :: i in groups[hoops] ==> i < |links| && links[i].Some?
      ensures q in KeptQueries(groups[hoops], links, src) <==> Answerable(r, hoops, src, q)
    {
      KeptAreAnswerable(r, links, groups[hoops], hoops, src, q);
    }
    var kept := KeptQueries(groups[hoops], links, src);
    assert Increasing(kept);
    hide Answerable, KeptQueries, GroupsBy, Answers, Landing, Link, Ring, Join, PickIndex, Increasing, AtPercent;
    var k := PickIndex(|kept|, percent);
    if kept == [] {
      assert forall q: nat :: q !in kept;
      return None;
    }
    var q := kept[k];
    assert q in kept;
    AnswerFound(r, original, hoops, src, q);
    InGroup(r, hoops, src, q);
    AnswerableListed(r, hoops, src, kept);
    KeptAtPercent(AnswerableSet(r, hoops, src), kept, k, percent);
    var parts := SplitBody(Truncated(lines, src));
    query := Some(Query(q, values[q], parts));
  }

  lemma KeptAtPercent(all: set<nat>, kept: seq<nat>, k: nat, percent: real)
    requires Increasing(kept) && k < |kept| && 0.0 <= percent && k == PickIndex(|kept|, percent)
    requires forall q: nat :: q in kept <==> q in all
    ensures AtPercent(all, kept[k], percent)
  {
    hide PickIndex;
    IncreasingRank(kept, all, k);
    assert kept[k] in kept;
    hide Below, Increasing;
  }

  lemma AnswerableListed(r: RedirectList, hoops: nat, src: nat, kept: seq<nat>)
    requires InRange(r) && forall q: nat :: q in kept <==> Answerable(r, hoops, src, q)
    ensures forall q: nat :: q in kept <==> q in AnswerableSet(r, hoops, src)
  {
    forall q: nat ensures q in kept <==> q in AnswerableSet(r, hoops, src) {
      if q in kept {
        InGroup(r, hoops, src, q);
      }
      hide Answerable;
    }
  }

  // body_0 to body_3
  method SplitBody<L>(body: seq<L>) returns (parts: seq<seq<L>>)
    ensures |parts| == 4 && Join(parts) == body
    ensures forall k :: 0 <= k < 3 ==> |parts[k]| == |body| / 4
  {
    var part := |body| / 4;
    JoinFour(body, part);
    parts := [body[..part], body[part..2 * part], body[2 * part..3 * part], body[3 * part..]];
  }

  lemma InGroup(r: RedirectList, hoops: nat, src: nat, q: nat)
    requires InRange(r) && Answerable(r, hoops, src, q)
    ensures q < |r|
  {
  }

  lemma JoinFour<L>(body: seq<L>, part: nat)
    requires 4 * part <= |body|
    ensures Join([body[..part], body[part..2 * part], body[2 * part..3 * part], body[3 * part..]]) == body
  {
    var parts := [body[..part], body[part..2 * part], body[2 * part..3 * part], body[3 * part..]];
    var tail := parts[3..];
    assert tail == [body[3 * part..]] && tail[1..] == [] && Join(tail) == body[3 * part..];
    assert parts[2..] == [parts[2]] + tail && parts[2..][1..] == tail;
    assert Join(parts[2..]) == body[2 * part..];
    assert parts[1..][1..] == parts[2..];
    assert Join(parts[1..]) == body[part..];
  }
}
