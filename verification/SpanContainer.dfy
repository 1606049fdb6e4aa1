// One track of the converted trace: a list of intervals kept in Python's
// tuple order, an overlap test that looks at two neighbours only, and a
// sorted insertion (scripts/convert_otel_2_perfetto.py, SpanLayoutContainer).
module SpanContainer {

  datatype Interval = Interval(start: int, end: int)

  // The second component of a bisection key: a time, or float("-inf").
  datatype Bound = NegInf | At(time: int)

  // Python's order on pairs: `iv < (start, bound)`.
  predicate Less(iv: Interval, start: int, bound: Bound) {
    iv.start < start || (iv.start == start && bound.At? && iv.end < bound.time)
  }

  predicate LessEq(a: Interval, b: Interval) {
    !Less(b, a.start, At(a.end))
  }

  ghost predicate Sorted(s: seq<Interval>) {
    forall i, j :: 0 <= i < j < |s| ==> LessEq(s[i], s[j])
  }

  // Two half-open intervals share an inner instant. A zero-length interval
  // overlaps exactly those that contain its instant strictly.
  predicate Overlap(a: Interval, b: Interval) {
    a.start < b.end && b.start < a.end
  }

  ghost predicate Forward(s: seq<Interval>) {
    forall iv :: iv in s ==> iv.start <= iv.end
  }

  predicate HasLength(iv: Interval) {
    iv.start < iv.end
  }

  // An overlap that counts: any, or only one between spans of positive length.
  predicate Clash(a: Interval, b: Interval, longOnly: bool) {
    Overlap(a, b) && (longOnly ==> HasLength(a) && HasLength(b))
  }

  ghost predicate Disjoint(s: seq<Interval>, longOnly: bool := false) {
    forall i, j :: 0 <= i < j < |s| ==> !Clash(s[i], s[j], longOnly)
  }

  // The naive scan that the neighbour test stands for.
  ghost predicate OverlapsSome(s: seq<Interval>, start: int, end: int, longOnly: bool := false) {
    exists iv :: iv in s && Clash(iv, Interval(start, end), longOnly)
  }

  // ----- bisection and sorted insertion, as functions of the list -----

  // The number of leading entries below the key.
  function LowerBound(s: seq<Interval>, start: int, bound: Bound): (k: nat)
    ensures k <= |s|
    ensures forall i :: 0 <= i < k ==> Less(s[i], start, bound)
    ensures k < |s| ==> !Less(s[k], start, bound)
  {
    if s == [] || !Less(s[0], start, bound) then 0
    else
      var k := LowerBound(s[1..], start, bound);
      assert forall i :: 0 <= i < k + 1 ==> Less(s[i], start, bound) by {
        forall i | 1 <= i < k + 1 ensures Less(s[i], start, bound) { assert s[i] == s[1..][i - 1]; }
      }
      k + 1
  }

  function NeighbourTest(s: seq<Interval>, start: int, end: int): bool {
    var k := LowerBound(s, start, NegInf);
    (k > 0 && s[k - 1].end > start) || (k < |s| && s[k].start < end)
  }

  function Inserted(s: seq<Interval>, iv: Interval): seq<Interval> {
    var k := LowerBound(s, iv.start, At(iv.end));
    s[..k] + [iv] + s[k..]
  }

  lemma InsertedPermutes(s: seq<Interval>, iv: Interval)
    ensures multiset(Inserted(s, iv)) == multiset(s) + multiset{iv}
  {
    var k := LowerBound(s, iv.start, At(iv.end));
    assert s == s[..k] + s[k..];
  }

  lemma InsertedSorted(s: seq<Interval>, iv: Interval)
    requires Sorted(s)
    ensures Sorted(Inserted(s, iv))
  {
    var k := LowerBound(s, iv.start, At(iv.end));
    var t := Inserted(s, iv);
    forall i, j | 0 <= i < j < |t| ensures LessEq(t[i], t[j]) {
      if i == k {
        assert t[j] == s[j - 1] && (j - 1 == k || LessEq(s[k], s[j - 1]));
      } else if j == k {
        assert t[i] == s[i] && Less(s[i], iv.start, At(iv.end));
      } else {
        assert t[i] == s[if i < k then i else i - 1] && t[j] == s[if j < k then j else j - 1];
      }
    }
  }

  // ----- the neighbour test against the naive scan -----

  // Both neighbours are out of the way, but an entry before them is not.
  ghost predicate Hidden(s: seq<Interval>, start: int, end: int) {
    var k := LowerBound(s, start, NegInf);
    && k > 0 && s[k - 1].end <= start && (k == |s| || end <= s[k].start)
    && exists j :: 0 <= j < k - 1 && start < s[j].end
  }

  // On every sorted track the two-neighbour test is the naive scan, but for one
  // harmless false alarm, a stored zero-length span exactly at the start of a
  // positive-length query, and for the entries it cannot see.
  lemma NeighbourTestExact(s: seq<Interval>, start: int, end: int)
    requires Sorted(s) && Forward(s) && start <= end
    ensures NeighbourTest(s, start, end)
       <==> (OverlapsSome(s, start, end) && !Hidden(s, start, end)) || (start < end && Interval(start, start) in s)
  {
    var k := LowerBound(s, start, NegInf);
    var q := Interval(start, end);
    if NeighbourTest(s, start, end) {
      if k > 0 && s[k - 1].end > start {
        assert s[k - 1] in s && Clash(s[k - 1], q, false);
      } else if s[k].end > start {
        assert s[k] in s && Clash(s[k], q, false);
      } else {
        assert s[k] in s && s[k] == Interval(start, start);
      }
    }
    forall i | 0 <= i < |s| && Overlap(s[i], q) && !Hidden(s, start, end)
      ensures NeighbourTest(s, start, end)
    {
      if k < i {
        assert LessEq(s[k], s[i]);
      }
    }
    forall i | 0 <= i < |s| && start < end && s[i] == Interval(start, start)
      ensures NeighbourTest(s, start, end)
    {
      assert k <= i;
      assert k == i || LessEq(s[k], s[i]);
    }
  }

  // Nothing is hidden on a track without overlaps.
  lemma NothingHidden(s: seq<Interval>, start: int, end: int)
    requires Sorted(s) && Forward(s) && Disjoint(s)
    ensures !Hidden(s, start, end)
  {
    var k := LowerBound(s, start, NegInf);
    if k > 0 && s[k - 1].end <= start {
      assert s[k - 1] in s;
      forall j | 0 <= j < k - 1 ensures s[j].end <= start {
        assert LessEq(s[j], s[k - 1]) && !Clash(s[j], s[k - 1], false);
      }
    }
  }

  // The entry just before `start` is an instant inside a longer span that is
  // still open at `start`, and the next entry begins at `end` or later.
  ghost predicate BehindInstant(s: seq<Interval>, start: int, end: int) {
    var k := LowerBound(s, start, NegInf);
    && k > 0 && !HasLength(s[k - 1]) && (k == |s| || end <= s[k].start)
    && exists j :: 0 <= j < k - 1 && s[j].start <= s[k - 1].start < s[j].end && start < s[j].end
  }

  // On a sorted track whose positive-length spans do not overlap, the test is
  // silent although one of them overlaps the query exactly when that one lies
  // behind an instant.
  lemma MissesLongIff(s: seq<Interval>, start: int, end: int)
    requires Sorted(s) && Forward(s) && Disjoint(s, true) && start < end
    ensures !NeighbourTest(s, start, end) && OverlapsSome(s, start, end, true) <==> BehindInstant(s, start, end)
  {
    var k := LowerBound(s, start, NegInf);
    assert k > 0 ==> s[k - 1] in s;
    assert forall i :: k < i < |s| ==> LessEq(s[k], s[i]);
    forall j | 0 <= j < |s| && Clash(s[j], Interval(start, end), true) && !NeighbourTest(s, start, end)
      ensures BehindInstant(s, start, end)
    {
      if j < k {
        assert LessEq(s[j], s[k - 1]) && !Clash(s[j], s[k - 1], true);
      }
    }
    forall j | 0 <= j < k - 1 && s[j].start <= s[k - 1].start < s[j].end && start < s[j].end
      ensures OverlapsSome(s, start, end, true)
    {
      assert s[j] in s && Clash(s[j], Interval(start, end), true);
    }
  }

  lemma InsertedAt(s: seq<Interval>, iv: Interval, i: nat)
    requires i < |s|
    ensures var k := LowerBound(s, iv.start, At(iv.end));
            Inserted(s, iv)[k] == iv && Inserted(s, iv)[if i < k then i else i + 1] == s[i]
  {
    hide LowerBound;
  }

  lemma InsertedConflicts(s: seq<Interval>, iv: Interval, longOnly: bool)
    requires Disjoint(Inserted(s, iv), longOnly)
    ensures Disjoint(s, longOnly) && !OverlapsSome(s, iv.start, iv.end, longOnly)
  {
    forall i, j | 0 <= i < j < |s| ensures !Clash(s[i], s[j], longOnly) {
      InsertedAt(s, iv, i);
      InsertedAt(s, iv, j);
    }
    forall i | 0 <= i < |s| ensures !Clash(s[i], iv, longOnly) {
      InsertedAt(s, iv, i);
    }
  }

  // Inserting keeps a track non-overlapping exactly when the naive scan finds
  // nothing: no span already there is in the way.
  lemma InsertedDisjoint(s: seq<Interval>, iv: Interval, longOnly: bool)
    ensures Disjoint(Inserted(s, iv), longOnly)
       <==> Disjoint(s, longOnly) && !OverlapsSome(s, iv.start, iv.end, longOnly)
  {
    var k := LowerBound(s, iv.start, At(iv.end));
    var t := Inserted(s, iv);
    if Disjoint(t, longOnly) {
      InsertedConflicts(s, iv, longOnly);
    } else if Disjoint(s, longOnly) && !OverlapsSome(s, iv.start, iv.end, longOnly) {
      forall i, j | 0 <= i < j < |t| ensures !Clash(t[i], t[j], longOnly) {
        assert i != k ==> t[i] == s[if i < k then i else i - 1] && t[i] in s;
        assert j != k ==> t[j] == s[if j < k then j else j - 1] && t[j] in s;
      }
      assert false;
    }
  }

  // ----- the container itself -----

  lemma LowerBoundCuts(s: seq<Interval>, start: int, bound: Bound, i: nat)
    requires Sorted(s) && i < |s|
    ensures Less(s[i], start, bound) <==> i < LowerBound(s, start, bound)
  {
    var k := LowerBound(s, start, bound);
    if k < i {
      assert LessEq(s[k], s[i]);
    }
  }

  // bisect.bisect_left
  method BisectLeft(s: seq<Interval>, start: int, bound: Bound) returns (lo: nat)
    requires Sorted(s)
    ensures lo == LowerBound(s, start, bound)
  {
    ghost var k := LowerBound(s, start, bound);
    lo := 0;
    var hi := |s|;
    while lo < hi
      invariant 0 <= lo <= k <= hi <= |s|
    {
      var mid := (lo + hi) / 2;
      LowerBoundCuts(s, start, bound, mid);
      if Less(s[mid], start, bound) {
        lo := mid + 1;
      } else {
        hi := mid;
      }
    }
  }

  class SpanLayoutContainer {
    var intervals: seq<Interval>

    constructor ()
      ensures intervals == []
    {
      intervals := [];
    }

    method CheckOverlap(start: int, end: int) returns (conflict: bool)
      requires Sorted(intervals)
      ensures conflict == NeighbourTest(intervals, start, end)
    {
      var idx := BisectLeft(intervals, start, NegInf);
      if idx > 0 && intervals[idx - 1].end > start {
        return true;
      }
      if idx < |intervals| && intervals[idx].start < end {
        return true;
      }
      return false;
    }

    method InsertSpan(start: int, end: int)
      requires Sorted(intervals)
      modifies this
      ensures intervals == Inserted(old(intervals), Interval(start, end))
      ensures Sorted(intervals)
    {
      var idx := BisectLeft(intervals, start, At(end));
      InsertedSorted(intervals, Interval(start, end));
      intervals := intervals[..idx] + [Interval(start, end)] + intervals[idx..];
    }
  }
}
