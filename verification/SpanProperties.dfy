// What the span layout guarantees over whole runs.
module SpanProperties {
  import opened SpanContainer
  import opened SpanLayout

  ghost predicate AllForward(spans: seq<Span>) {
    forall i :: 0 <= i < |spans| ==> spans[i].start <= spans[i].end
  }

  ghost predicate AllPositive(spans: seq<Span>) {
    forall i :: 0 <= i < |spans| ==> spans[i].start < spans[i].end
  }

  // No two spans, or no two spans of positive length, shown on the same line of
  // the same process overlap.
  ghost predicate ConflictFree(spans: seq<Span>, tids: seq<int>, longOnly: bool := false)
    requires |spans| == |tids|
  {
    forall i, j :: 0 <= i < j < |spans| && spans[i].pid == spans[j].pid && tids[i] == tids[j] ==>
      !Clash(Iv(spans[i]), Iv(spans[j]), longOnly)
  }

  ghost predicate TracksDisjoint(l: Layout, longOnly: bool := false) {
    forall t: Track :: t in l.lines ==> Disjoint(l.lines[t], longOnly)
  }

  ghost predicate Clean(st: State, longOnly: bool := false) {
    Inv(st) && ConflictFree(st.spans, st.tids, longOnly) && TracksDisjoint(st.layout, longOnly)
  }

  // The unchecked branch of __find_line is about to do harm: a zero-length
  // span whose process has a sticky line on which its instant is taken.
  ghost predicate Shortcut(st: State, s: Span)
    requires Inv(st)
  {
    s.pid in st.sticky && s.start == s.end && OverlapsSome(st.layout.lines[(s.pid, st.sticky[s.pid])], s.start, s.end)
  }

  // The line chosen for a positive-length span passes the neighbour test only
  // because an instant stands before a longer span that is in the way.
  ghost predicate Blinded(st: State, s: Span)
    requires Inv(st)
  {
    var f := FindLine(st.layout, st.sticky, s);
    var t := (s.pid, f.line);
    s.start < s.end && t in st.layout.lines && BehindInstant(st.layout.lines[t], s.start, s.end)
  }

  // What makes a placement add a clash: between any spans, or between spans of
  // positive length.
  ghost predicate Harmful(st: State, s: Span, longOnly: bool)
    requires Inv(st)
  {
    if longOnly then Blinded(st, s) else Shortcut(st, s)
  }

  // ----- one placement -----

  lemma TracksForward(st: State, t: Track)
    requires Inv(st) && AllForward(st.spans) && t in st.layout.lines
    ensures Forward(st.layout.lines[t])
  {
    assert Holds(st.spans, st.tids, t, st.layout.lines[t]);
  }

  // The line chosen has a span in the way exactly when the unchecked branch
  // was taken onto an occupied instant; and it has a span of positive length
  // in the way of another exactly when an instant hides it.
  lemma ChosenLineFree(st: State, s: Span, longOnly: bool)
    requires Clean(st, longOnly) && AllForward(st.spans) && s.start <= s.end
    ensures var f := FindLine(st.layout, st.sticky, s);
            (s.pid, f.line) in f.layout.lines
            && (OverlapsSome(f.layout.lines[(s.pid, f.line)], s.start, s.end, longOnly) <==> Harmful(st, s, longOnly))
  {
    var f := FindLine(st.layout, st.sticky, s);
    FindLineCases(st.layout, st.sticky, s);
    var t := (s.pid, f.line);
    if t in st.layout.lines {
      var line := st.layout.lines[t];
      assert Sorted(line) && Disjoint(line, longOnly);
      TracksForward(st, t);
      if !longOnly {
        NeighbourTestExact(line, s.start, s.end);
        NothingHidden(line, s.start, s.end);
      } else if s.start < s.end {
        MissesLongIff(line, s.start, s.end);
      }
    }
  }

  lemma OnTrack(st: State, s: Span, t: Track, longOnly: bool)
    requires Inv(st) && t in st.layout.lines
    ensures OverlapsSome(st.layout.lines[t], s.start, s.end, longOnly)
       <==> exists i :: On(st.spans, st.tids, i, t) && Clash(Iv(st.spans[i]), Iv(s), longOnly)
  {
    assert Holds(st.spans, st.tids, t, st.layout.lines[t]);
    if OverlapsSome(st.layout.lines[t], s.start, s.end, longOnly) {
      var iv :| iv in st.layout.lines[t] && Clash(iv, Iv(s), longOnly);
      var i :| On(st.spans, st.tids, i, t) && Iv(st.spans[i]) == iv;
    }
    forall i | On(st.spans, st.tids, i, t) && Clash(Iv(st.spans[i]), Iv(s), longOnly)
      ensures OverlapsSome(st.layout.lines[t], s.start, s.end, longOnly)
    {
      assert Iv(st.spans[i]) in st.layout.lines[t];
    }
  }

  lemma ChosenLineConflict(st: State, s: Span, longOnly: bool)
    requires Inv(st)
    ensures var f := FindLine(st.layout, st.sticky, s);
            (s.pid, f.line) in f.layout.lines
            && (OverlapsSome(f.layout.lines[(s.pid, f.line)], s.start, s.end, longOnly)
                <==> exists i :: On(st.spans, st.tids, i, (s.pid, f.line)) && Clash(Iv(st.spans[i]), Iv(s), longOnly))
  {
    var f := FindLine(st.layout, st.sticky, s);
    FindLineCases(st.layout, st.sticky, s);
    var t := (s.pid, f.line);
    if t in st.layout.lines {
      OnTrack(st, s, t, longOnly);
    } else {
      forall i ensures !On(st.spans, st.tids, i, t) {
        if 0 <= i < |st.spans| { assert (st.spans[i].pid, st.tids[i]) in st.layout.lines; }
      }
    }
  }

  lemma ConflictFreeSnoc(spans: seq<Span>, tids: seq<int>, s: Span, line: int, longOnly: bool)
    requires |spans| == |tids|
    ensures ConflictFree(spans + [s], tids + [line], longOnly)
       <==> ConflictFree(spans, tids, longOnly)
            && !exists i :: On(spans, tids, i, (s.pid, line)) && Clash(Iv(spans[i]), Iv(s), longOnly)
  {
    var spans', tids' := spans + [s], tids + [line];
    hide Clash;
    if ConflictFree(spans', tids', longOnly) {
      forall i, j | 0 <= i < j < |spans| && spans[i].pid == spans[j].pid && tids[i] == tids[j]
        ensures !Clash(Iv(spans[i]), Iv(spans[j]), longOnly)
      {
        assert spans'[i] == spans[i] && spans'[j] == spans[j] && tids'[i] == tids[i] && tids'[j] == tids[j];
      }
      forall i | On(spans, tids, i, (s.pid, line)) ensures !Clash(Iv(spans[i]), Iv(s), longOnly) {
        assert spans'[i] == spans[i] && spans'[|spans|] == s && tids'[i] == tids[i] && tids'[|spans|] == line;
      }
    }
    if ConflictFree(spans, tids, longOnly)
       && !exists i :: On(spans, tids, i, (s.pid, line)) && Clash(Iv(spans[i]), Iv(s), longOnly) {
      forall i, j | 0 <= i < j < |spans'| && spans'[i].pid == spans'[j].pid && tids'[i] == tids'[j]
        ensures !Clash(Iv(spans'[i]), Iv(spans'[j]), longOnly)
      {
        if j == |spans| { assert On(spans, tids, i, (s.pid, line)); }
      }
    }
  }

  lemma TracksDisjointInserted(lines: map<Track, seq<Interval>>, t: Track, iv: Interval, longOnly: bool)
    requires t in lines
    ensures (forall u: Track :: u in lines ==> Disjoint(lines[t := Inserted(lines[t], iv)][u], longOnly))
       <==> (forall u: Track :: u in lines ==> Disjoint(lines[u], longOnly))
            && !OverlapsSome(lines[t], iv.start, iv.end, longOnly)
  {
    var lines' := lines[t := Inserted(lines[t], iv)];
    InsertedDisjoint(lines[t], iv, longOnly);
    hide Disjoint, OverlapsSome, Inserted;
    assert forall u: Track :: u in lines && u != t ==> lines'[u] == lines[u];
    assert lines'[t] == Inserted(lines[t], iv);
  }

  // Once two spans of a line clash they always will, and a placement adds a
  // clash exactly when there is a span in the way.
  lemma PlaceConflicts(st: State, s: Span, longOnly: bool)
    requires Inv(st)
    ensures var r := Place(st, s);
            var f := FindLine(st.layout, st.sticky, s);
            (s.pid, f.line) in f.layout.lines
            && (var taken := OverlapsSome(f.layout.lines[(s.pid, f.line)], s.start, s.end, longOnly);
                && (ConflictFree(r.spans, r.tids, longOnly) <==> ConflictFree(st.spans, st.tids, longOnly) && !taken)
                && (TracksDisjoint(r.layout, longOnly) <==> TracksDisjoint(st.layout, longOnly) && !taken))
  {
    var f := FindLine(st.layout, st.sticky, s);
    FindLineCases(st.layout, st.sticky, s);
    var t := (s.pid, f.line);
    ChosenLineConflict(st, s, longOnly);
    ConflictFreeSnoc(st.spans, st.tids, s, f.line, longOnly);
    TracksDisjointInserted(f.layout.lines, t, Iv(s), longOnly);
    assert TracksDisjoint(st.layout, longOnly) <==> TracksDisjoint(f.layout, longOnly) by {
      if t !in st.layout.lines {
        assert f.layout.lines == st.layout.lines[t := []];
        assert forall u: Track :: u in st.layout.lines ==> u in f.layout.lines && f.layout.lines[u] == st.layout.lines[u];
      }
    }
  }

  // A placement keeps the layout free of overlaps if and only if it does not
  // take the unchecked branch onto an occupied instant; and it keeps it free of
  // overlaps between positive-length spans if and only if it is not blinded by
  // an instant.
  lemma PlaceKeepsCleanIff(st: State, s: Span, longOnly: bool)
    requires Clean(st, longOnly) && AllForward(st.spans) && s.start <= s.end
    ensures Clean(Place(st, s), longOnly) <==> !Harmful(st, s, longOnly)
    ensures ConflictFree(Place(st, s).spans, Place(st, s).tids, longOnly) <==> !Harmful(st, s, longOnly)
  {
    ChosenLineFree(st, s, longOnly);
    PlaceConflicts(st, s, longOnly);
  }

  // ----- whole runs: no overlap on any line -----

  ghost predicate Harmless(st: State, spans: seq<Span>, longOnly: bool)
    requires Inv(st)
  {
    spans == []
    || (var init := spans[..|spans| - 1];
        Harmless(st, init, longOnly) && !Harmful(RunSpans(st, init), spans[|spans| - 1], longOnly))
  }

  ghost predicate HarmlessRooms(rooms: seq<seq<Span>>, longOnly: bool) {
    rooms == []
    || (var init := rooms[..|rooms| - 1];
        HarmlessRooms(init, longOnly) && Harmless(RunRooms(init).(sticky := map[]), rooms[|rooms| - 1], longOnly))
  }

  ghost predicate CleanOrConflicted(st: State, clean: bool, longOnly: bool) {
    Inv(st) && AllForward(st.spans) && if clean then Clean(st, longOnly) else !ConflictFree(st.spans, st.tids, longOnly)
  }

  lemma PlaceCleanIff(st: State, clean: bool, s: Span, longOnly: bool)
    requires CleanOrConflicted(st, clean, longOnly) && s.start <= s.end
    ensures CleanOrConflicted(Place(st, s), clean && !Harmful(st, s, longOnly), longOnly)
  {
    PlaceConflicts(st, s, longOnly);
    if clean {
      PlaceKeepsCleanIff(st, s, longOnly);
    }
  }

  lemma {:induction false} RunSpansCleanIff(st: State, spans: seq<Span>, clean: bool, longOnly: bool)
    requires CleanOrConflicted(st, clean, longOnly) && AllForward(spans)
    ensures CleanOrConflicted(RunSpans(st, spans), clean && Harmless(st, spans, longOnly), longOnly)
  {
    if spans != [] {
      var init := spans[..|spans| - 1];
      RunSpansCleanIff(st, init, clean, longOnly);
      PlaceCleanIff(RunSpans(st, init), clean && Harmless(st, init, longOnly), spans[|spans| - 1], longOnly);
    }
  }

  lemma {:induction false} RunRoomsCleanIff(rooms: seq<seq<Span>>, longOnly: bool)
    requires AllForward(Concat(rooms))
    ensures CleanOrConflicted(RunRooms(rooms), HarmlessRooms(rooms, longOnly), longOnly)
  {
    if rooms != [] {
      var init, room := rooms[..|rooms| - 1], rooms[|rooms| - 1];
      ConcatForward(init, room);
      assert rooms == init + [room];
      RunRoomsCleanIff(init, longOnly);
      RunSpansCleanIff(RunRooms(init).(sticky := map[]), room, HarmlessRooms(init, longOnly), longOnly);
    }
  }

  lemma ConcatForward(init: seq<seq<Span>>, room: seq<Span>)
    requires AllForward(Concat(init + [room]))
    ensures AllForward(Concat(init)) && AllForward(room)
  {
    assert (init + [room])[..|init|] == init;
    var all := Concat(init + [room]);
    assert all == Concat(init) + room;
    assert forall i :: 0 <= i < |Concat(init)| ==> all[i] == Concat(init)[i];
    assert forall i :: 0 <= i < |room| ==> all[|Concat(init)| + i] == room[i];
  }

  // The exact condition under which a layout of forward spans shows no two
  // overlapping spans on one line: no zero-length span went unchecked onto an
  // occupied instant.
  lemma LayoutConflictFreeIff(rooms: seq<seq<Span>>)
    requires AllForward(Concat(rooms))
    ensures ConflictFree(RunRooms(rooms).spans, RunRooms(rooms).tids) <==> HarmlessRooms(rooms, false)
  {
    RunRoomsCleanIff(rooms, false);
  }

  // The exact condition under which no two positive-length spans of a line
  // overlap: no placement was blinded by an instant.
  lemma LongSpansConflictFreeIff(rooms: seq<seq<Span>>)
    requires AllForward(Concat(rooms))
    ensures ConflictFree(RunRooms(rooms).spans, RunRooms(rooms).tids, true) <==> HarmlessRooms(rooms, true)
  {
    RunRoomsCleanIff(rooms, true);
  }

  lemma {:induction false} PositiveHarmless(st: State, spans: seq<Span>)
    requires Inv(st) && AllPositive(spans)
    ensures Harmless(st, spans, false)
  {
    if spans != [] {
      PositiveHarmless(st, spans[..|spans| - 1]);
    }
  }

  lemma {:induction false} PositiveRoomsHarmless(rooms: seq<seq<Span>>)
    requires AllPositive(Concat(rooms))
    ensures HarmlessRooms(rooms, false)
  {
    if rooms != [] {
      var init, room := rooms[..|rooms| - 1], rooms[|rooms| - 1];
      var all := Concat(rooms);
      assert forall i :: 0 <= i < |Concat(init)| ==> all[i] == Concat(init)[i];
      assert forall i :: 0 <= i < |room| ==> all[|Concat(init)| + i] == room[i];
      PositiveRoomsHarmless(init);
      PositiveHarmless(RunRooms(init).(sticky := map[]), room);
    }
  }

  // Positive-length spans never conflict, whatever the rooms and their order,
  // and on every track the neighbour test is exactly the naive scan.
  lemma PositiveLayoutClean(rooms: seq<seq<Span>>)
    requires AllPositive(Concat(rooms))
    ensures Clean(RunRooms(rooms))
    ensures forall t: Track, a, b :: t in RunRooms(rooms).layout.lines && a <= b ==>
              var line := RunRooms(rooms).layout.lines[t];
              NeighbourTest(line, a, b) == OverlapsSome(line, a, b)
  {
    PositiveRoomsHarmless(rooms);
    RunRoomsCleanIff(rooms, false);
    var st := RunRooms(rooms);
    forall t: Track, a, b | t in st.layout.lines && a <= b
      ensures NeighbourTest(st.layout.lines[t], a, b) == OverlapsSome(st.layout.lines[t], a, b)
    {
      PositiveTestExact(st, t, a, b);
    }
  }

  lemma PositiveTestExact(st: State, t: Track, a: int, b: int)
    requires Clean(st) && AllPositive(st.spans) && t in st.layout.lines && a <= b
    ensures NeighbourTest(st.layout.lines[t], a, b) == OverlapsSome(st.layout.lines[t], a, b)
  {
    TracksForward(st, t);
    NeighbourTestExact(st.layout.lines[t], a, b);
    NothingHidden(st.layout.lines[t], a, b);
    assert Holds(st.spans, st.tids, t, st.layout.lines[t]);
    assert Interval(a, a) !in st.layout.lines[t];
  }

  // ----- the line search against a naive one -----

  // No span on line n is in the way; a line not yet opened is free.
  ghost predicate Free(l: Layout, s: Span, n: int) {
    (s.pid, n) in l.lines ==> !OverlapsSome(l.lines[(s.pid, n)], s.start, s.end)
  }

  // The search gives the sticky line if that is free by a scan of all its
  // spans, else the lowest free line, opened or not; and that becomes sticky.
  lemma SearchIsStickyThenLowest(st: State, s: Span)
    requires Clean(st) && AllPositive(st.spans) && s.start < s.end
    ensures var f := FindLine(st.layout, st.sticky, s);
            && f.sticky == st.sticky[s.pid := f.line]
            && (if s.pid in st.sticky && Free(st.layout, s, st.sticky[s.pid]) then f.line == st.sticky[s.pid]
                else f.line >= 1 && Free(st.layout, s, f.line) && forall n :: 1 <= n < f.line ==> !Free(st.layout, s, n))
  {
    var l := st.layout;
    forall n | (s.pid, n) in l.lines
      ensures NeighbourTest(l.lines[(s.pid, n)], s.start, s.end) <==> !Free(l, s, n)
    {
      PositiveTestExact(st, (s.pid, n), s.start, s.end);
    }
    FindLineCases(l, st.sticky, s);
    assert WellFormed(l);
    hide NeighbourTest, OverlapsSome, Inv, Opened, ConflictFree, TracksDisjoint, MetaExact, AllSorted;
  }

  // ----- how many lines are opened -----

  // The spans of a process that cover an instant.
  ghost function CoverSet(spans: seq<Span>, pid: int, t: int): set<int> {
    set i | 0 <= i < |spans| && spans[i].pid == pid && spans[i].start <= t < spans[i].end
  }

  // The other spans of its process that overlap span i.
  ghost function RivalSet(spans: seq<Span>, i: int): set<int>
    requires 0 <= i < |spans|
  {
    set j | 0 <= j < |spans| && j != i && spans[j].pid == spans[i].pid && Overlap(Iv(spans[j]), Iv(spans[i]))
  }

  ghost predicate Ordered(spans: seq<Span>) {
    forall i, j :: 0 <= i < j < |spans| && spans[i].pid == spans[j].pid ==> spans[i].start <= spans[j].start
  }

  ghost function LinesUsed(spans: seq<Span>, tids: seq<int>, pid: int): set<int>
    requires |spans| == |tids|
  {
    set i | 0 <= i < |spans| && spans[i].pid == pid :: tids[i]
  }

  ghost function Image(ix: set<int>, tids: seq<int>): set<int>
    requires forall i :: i in ix ==> 0 <= i < |tids|
  {
    set i | i in ix :: tids[i]
  }

  lemma Pick<T>(a: set<T>) returns (x: T)
    requires a != {}
    ensures x in a
  {
    x :| x in a;
  }

  lemma SubsetCard<T>(a: set<T>, b: set<T>)
    requires a <= b
    ensures |a| <= |b|
  {
    if a != {} {
      var x :| x in a;
      SubsetCard(a - {x}, b - {x});
    }
  }

  lemma ImageCard(ix: set<int>, tids: seq<int>)
    requires forall i :: i in ix ==> 0 <= i < |tids|
    ensures |Image(ix, tids)| <= |ix|
    ensures (forall i, j :: i in ix && j in ix && tids[i] == tids[j] ==> i == j) ==> |Image(ix, tids)| == |ix|
  {
    if ix != {} {
      var x := Pick(ix);
      var rest := ix - {x};
      ImageCard(rest, tids);
      assert Image(ix, tids) == Image(rest, tids) + {tids[x]};
    }
  }

  ghost function OneTo(n: nat): (r: set<int>)
    ensures forall k :: k in r <==> 1 <= k <= n
  {
    if n == 0 then {} else OneTo(n - 1) + {n}
  }

  lemma OneToCard(n: nat)
    ensures |OneTo(n)| == n
  {
    if n > 0 {
      OneToCard(n - 1);
    }
  }

  // n lines each with a member of `ix` on it: `ix` has at least n members.
  lemma EnoughWitnesses(ix: set<int>, tids: seq<int>, n: nat)
    requires forall i :: i in ix ==> 0 <= i < |tids|
    requires OneTo(n) <= Image(ix, tids)
    ensures |ix| >= n
  {
    OneToCard(n);
    SubsetCard(OneTo(n), Image(ix, tids));
    ImageCard(ix, tids);
  }

  // Every line 1..n of the process holds a span that overlaps s.
  ghost predicate AllLinesTaken(spans: seq<Span>, tids: seq<int>, s: Span, n: nat)
    requires |spans| == |tids|
  {
    forall k :: 1 <= k <= n ==> exists i :: On(spans, tids, i, (s.pid, k)) && Overlap(Iv(spans[i]), Iv(s))
  }

  // A fresh line is opened only when every existing line of the process holds
  // a span that overlaps the new one.
  lemma OpensOnlyWhenFull(st: State, s: Span, pid: int)
    requires Clean(st) && AllPositive(st.spans) && s.start < s.end
    ensures var n, n' := Count(st.layout, pid), Count(Place(st, s).layout, pid);
            n' == n || (pid == s.pid && n' == n + 1 && AllLinesTaken(st.spans, st.tids, s, n))
  {
    FindLineCases(st.layout, st.sticky, s);
    var n := Count(st.layout, s.pid);
    if Count(Place(st, s).layout, s.pid) != n {
      forall k | 1 <= k <= n
        ensures exists i :: On(st.spans, st.tids, i, (s.pid, k)) && Overlap(Iv(st.spans[i]), Iv(s))
      {
        PositiveTestExact(st, (s.pid, k), s.start, s.end);
        OnTrack(st, s, (s.pid, k), false);
      }
    }
  }

  ghost predicate Crowded(st: State, pid: int) {
    Count(st.layout, pid) > 0 ==>
      exists i :: 0 <= i < |st.spans| && st.spans[i].pid == pid && Count(st.layout, pid) <= 1 + |RivalSet(st.spans, i)|
  }

  ghost predicate PeakReached(st: State, pid: int) {
    exists t :: Count(st.layout, pid) <= |CoverSet(st.spans, pid, t)|
  }

  lemma TakenRivals(spans: seq<Span>, tids: seq<int>, s: Span, n: nat)
    requires |spans| == |tids| && AllLinesTaken(spans, tids, s, n)
    ensures n <= |RivalSet(spans + [s], |spans|)|
  {
    var ix := RivalSet(spans + [s], |spans|);
    forall k | k in OneTo(n) ensures k in Image(ix, tids) {
      var i :| On(spans, tids, i, (s.pid, k)) && Overlap(Iv(spans[i]), Iv(s));
      assert i in ix;
    }
    EnoughWitnesses(ix, tids, n);
  }

  lemma TakenCover(spans: seq<Span>, tids: seq<int>, s: Span, n: nat)
    requires |spans| == |tids| && AllLinesTaken(spans, tids, s, n)
    requires s.start < s.end && Ordered(spans + [s])
    ensures n + 1 <= |CoverSet(spans + [s], s.pid, s.start)|
  {
    var ix := CoverSet(spans, s.pid, s.start);
    forall k | k in OneTo(n) ensures k in Image(ix, tids) {
      var i :| On(spans, tids, i, (s.pid, k)) && Overlap(Iv(spans[i]), Iv(s));
      assert (spans + [s])[i] == spans[i] && (spans + [s])[|spans|] == s;
      assert i in ix;
    }
    EnoughWitnesses(ix, tids, n);
    assert CoverSet(spans + [s], s.pid, s.start) == ix + {|spans|};
  }

  lemma CrowdedStep(st: State, s: Span, pid: int)
    requires Clean(st) && AllPositive(st.spans) && s.start < s.end && Crowded(st, pid)
    ensures Crowded(Place(st, s), pid)
  {
    OpensOnlyWhenFull(st, s, pid);
    var st' := Place(st, s);
    var n, n' := Count(st.layout, pid), Count(st'.layout, pid);
    if n' == n && n > 0 {
      var i :| 0 <= i < |st.spans| && st.spans[i].pid == pid && n <= 1 + |RivalSet(st.spans, i)|;
      SubsetCard(RivalSet(st.spans, i), RivalSet(st'.spans, i));
      assert 0 <= i < |st'.spans| && st'.spans[i].pid == pid;
    } else if n' == n + 1 {
      TakenRivals(st.spans, st.tids, s, n);
      assert st'.spans[|st.spans|].pid == pid;
    }
  }

  lemma PeakStep(st: State, s: Span, pid: int)
    requires Clean(st) && AllPositive(st.spans) && s.start < s.end && Ordered(st.spans + [s]) && PeakReached(st, pid)
    ensures PeakReached(Place(st, s), pid)
  {
    OpensOnlyWhenFull(st, s, pid);
    var st' := Place(st, s);
    var n := Count(st.layout, pid);
    if Count(st'.layout, pid) == n {
      var t :| n <= |CoverSet(st.spans, pid, t)|;
      SubsetCard(CoverSet(st.spans, pid, t), CoverSet(st'.spans, pid, t));
    } else {
      TakenCover(st.spans, st.tids, s, n);
    }
  }

  lemma Prefix(spans: seq<Span>, init: seq<Span>, s: Span)
    requires spans == init + [s]
    ensures AllPositive(spans) ==> AllPositive(init) && s.start < s.end
    ensures Ordered(spans) ==> Ordered(init)
  {
    assert spans[|init|] == s;
    assert forall i :: 0 <= i < |init| ==> spans[i] == init[i];
  }

  lemma {:induction false} RunSpansCrowded(st: State, spans: seq<Span>, pid: int)
    requires Clean(st) && AllPositive(st.spans + spans) && Crowded(st, pid)
    ensures Clean(RunSpans(st, spans)) && Crowded(RunSpans(st, spans), pid)
  {
    if spans != [] {
      var init, s := spans[..|spans| - 1], spans[|spans| - 1];
      var mid := RunSpans(st, init);
      assert st.spans + spans == mid.spans + [s];
      Prefix(st.spans + spans, mid.spans, s);
      RunSpansCrowded(st, init, pid);
      CrowdedStep(mid, s, pid);
      PlaceKeepsCleanIff(mid, s, false);
    }
  }

  lemma {:induction false} RunSpansPeak(st: State, spans: seq<Span>, pid: int)
    requires Clean(st) && AllPositive(st.spans + spans) && Ordered(st.spans + spans) && PeakReached(st, pid)
    ensures Clean(RunSpans(st, spans)) && PeakReached(RunSpans(st, spans), pid)
  {
    if spans != [] {
      var init, s := spans[..|spans| - 1], spans[|spans| - 1];
      var mid := RunSpans(st, init);
      assert st.spans + spans == mid.spans + [s];
      Prefix(st.spans + spans, mid.spans, s);
      RunSpansPeak(st, init, pid);
      PeakStep(mid, s, pid);
      PlaceKeepsCleanIff(mid, s, false);
    }
  }

  lemma Front(all: seq<Span>, init: seq<Span>, room: seq<Span>)
    requires all == init + room
    ensures AllPositive(all) ==> AllPositive(init)
    ensures Ordered(all) ==> Ordered(init)
  {
    assert forall i :: 0 <= i < |init| ==> all[i] == init[i];
  }

  // For any rooms in any order: a process gets at most one line more than the
  // largest number of its other spans that overlap some one span of it.
  lemma {:induction false} LineCountBounded(rooms: seq<seq<Span>>, pid: int)
    requires AllPositive(Concat(rooms))
    ensures Crowded(RunRooms(rooms), pid)
  {
    if rooms != [] {
      var init, room := rooms[..|rooms| - 1], rooms[|rooms| - 1];
      Front(Concat(rooms), Concat(init), room);
      LineCountBounded(init, pid);
      PositiveLayoutClean(init);
      var st := RunRooms(init).(sticky := map[]);
      assert Crowded(st, pid);
      RunSpansCrowded(st, room, pid);
    }
  }

  lemma {:induction false} LineCountReachesPeak(rooms: seq<seq<Span>>, pid: int)
    requires AllPositive(Concat(rooms)) && Ordered(Concat(rooms))
    ensures PeakReached(RunRooms(rooms), pid)
  {
    if rooms == [] {
      assert 0 <= |CoverSet([], pid, 0)|;
    } else {
      var init, room := rooms[..|rooms| - 1], rooms[|rooms| - 1];
      Front(Concat(rooms), Concat(init), room);
      LineCountReachesPeak(init, pid);
      PositiveLayoutClean(init);
      var st := RunRooms(init).(sticky := map[]);
      assert PeakReached(st, pid);
      RunSpansPeak(st, room, pid);
    }
  }

  // Any conflict-free assignment of lines needs as many lines for a process as
  // it has spans covering one instant.
  lemma CoverNeedsLines(spans: seq<Span>, tids: seq<int>, pid: int, t: int)
    requires |spans| == |tids| && ConflictFree(spans, tids)
    ensures |CoverSet(spans, pid, t)| <= |LinesUsed(spans, tids, pid)|
  {
    var ix := CoverSet(spans, pid, t);
    assert forall i, j :: i in ix && j in ix && i < j ==> Overlap(Iv(spans[i]), Iv(spans[j]));
    assert forall i, j :: i in ix && j in ix && i < j ==> tids[i] != tids[j];
    ImageCard(ix, tids);
    SubsetCard(Image(ix, tids), LinesUsed(spans, tids, pid));
  }

  lemma LinesUsedCounted(st: State, pid: int)
    requires Inv(st)
    ensures |LinesUsed(st.spans, st.tids, pid)| <= Count(st.layout, pid)
  {
    var n := Count(st.layout, pid);
    forall x | x in LinesUsed(st.spans, st.tids, pid) ensures x in OneTo(n) {
      var i :| 0 <= i < |st.spans| && st.spans[i].pid == pid && st.tids[i] == x;
      assert (st.spans[i].pid, st.tids[i]) in st.layout.lines;
    }
    SubsetCard(LinesUsed(st.spans, st.tids, pid), OneTo(n));
    OneToCard(n);
  }

  // n is the largest number of the process's spans alive at one instant.
  ghost predicate IsPeak(spans: seq<Span>, pid: int, n: nat) {
    && (forall t :: |CoverSet(spans, pid, t)| <= n)
    && (exists t :: |CoverSet(spans, pid, t)| == n)
  }

  // When each process's spans come in start order, as they do inside one
  // sorted room, sticky-then-first-fit opens exactly the peak number of lines,
  // and no assignment without overlaps uses fewer.
  lemma LayoutOptimal(rooms: seq<seq<Span>>, pid: int)
    requires AllPositive(Concat(rooms)) && Ordered(Concat(rooms))
    ensures IsPeak(Concat(rooms), pid, Count(RunRooms(rooms).layout, pid))
    ensures forall tids: seq<int> :: |tids| == |Concat(rooms)| && ConflictFree(Concat(rooms), tids) ==>
              Count(RunRooms(rooms).layout, pid) <= |LinesUsed(Concat(rooms), tids, pid)|
  {
    var st := RunRooms(rooms);
    var n := Count(st.layout, pid);
    PositiveLayoutClean(rooms);
    LinesUsedCounted(st, pid);
    forall t ensures |CoverSet(st.spans, pid, t)| <= n {
      CoverNeedsLines(st.spans, st.tids, pid, t);
    }
    LineCountReachesPeak(rooms, pid);
    var t :| n <= |CoverSet(st.spans, pid, t)|;
    assert |CoverSet(st.spans, pid, t)| == n;
    forall tids: seq<int> | |tids| == |st.spans| && ConflictFree(st.spans, tids)
      ensures n <= |LinesUsed(st.spans, tids, pid)|
    {
      CoverNeedsLines(st.spans, tids, pid, t);
    }
  }
}
