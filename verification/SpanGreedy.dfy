// The line of every span, told from the spans laid out before it: what the
// sticky lines, the first fit and the new lines of
// scripts/convert_otel_2_perfetto.py come to over a whole layout.
module SpanGreedy {
  import opened SpanContainer
  import opened SpanLayout
  import opened SpanProperties

  // ----- sticky lines -----

  // Whatever line is found becomes the sticky line of the process.
  lemma FoundSticky(l: Layout, sticky: map<int, int>, s: Span)
    requires WellFormed(l) && StickyExists(l, sticky)
    ensures FindLine(l, sticky, s).sticky == sticky[s.pid := FindLine(l, sticky, s).line]
  {
    hide NeighbourTest, WellFormed, StickyExists;
  }

  // Span i is the last one of process p.
  ghost predicate IsLast(spans: seq<Span>, p: int, i: int) {
    0 <= i < |spans| && spans[i].pid == p && forall j :: i < j < |spans| ==> spans[j].pid != p
  }

  ghost predicate Has(spans: seq<Span>, p: int) {
    exists i :: 0 <= i < |spans| && spans[i].pid == p
  }

  lemma PlaceSticky(st: State, s: Span)
    requires Inv(st)
    ensures var r := Place(st, s);
            |r.tids| == |st.tids| + 1 && r.tids == st.tids + [r.tids[|st.tids|]]
            && r.sticky == st.sticky[s.pid := r.tids[|st.tids|]]
  {
    FoundSticky(st.layout, st.sticky, s);
  }

  // The last step of a run over the spans of a room.
  lemma RunLast(st: State, spans: seq<Span>) returns (mid: State, line: int)
    requires Inv(st) && spans != []
    ensures Inv(mid) && mid == RunSpans(st, spans[..|spans| - 1]) && RunSpans(st, spans) == Place(mid, spans[|spans| - 1])
    ensures RunSpans(st, spans).tids == mid.tids + [line]
    ensures RunSpans(st, spans).sticky == mid.sticky[spans[|spans| - 1].pid := line]
  {
    mid := RunSpans(st, spans[..|spans| - 1]);
    PlaceSticky(mid, spans[|spans| - 1]);
    hide Inv;
    line := RunSpans(st, spans).tids[|mid.tids|];
  }

  lemma {:induction false} RunSpansKeeps(st: State, spans: seq<Span>)
    requires Inv(st)
    ensures |RunSpans(st, spans).tids| == |st.tids| + |spans| && st.tids <= RunSpans(st, spans).tids
  {
    if spans != [] {
      hide Inv, RunSpans;
      var mid, line := RunLast(st, spans);
      RunSpansKeeps(st, spans[..|spans| - 1]);
    }
  }

  // From sticky lines `before`, spans with these lines lead to `after`: a
  // process has a sticky line exactly if it has a span here, or had one before,
  // and that is the line of its last span.
  ghost predicate Follows(before: map<int, int>, spans: seq<Span>, tids: seq<int>, after: map<int, int>, p: int) {
    && |tids| == |spans|
    && (p in after <==> p in before || Has(spans, p))
    && (forall i :: IsLast(spans, p, i) ==> p in after && after[p] == tids[i])
    && (p in before && !Has(spans, p) ==> p in after && after[p] == before[p])
  }

  lemma FollowsSnoc(before: map<int, int>, spans: seq<Span>, tids: seq<int>, mid: map<int, int>, s: Span, line: int, p: int)
    requires Follows(before, spans, tids, mid, p)
    ensures Follows(before, spans + [s], tids + [line], mid[s.pid := line], p)
  {
    var spans', n := spans + [s], |spans|;
    if Has(spans, p) {
      var i :| 0 <= i < n && spans[i].pid == p;
      assert spans'[i].pid == p;
    }
    assert spans'[n] == s;
    forall i | IsLast(spans', p, i) ensures mid[s.pid := line][p] == (tids + [line])[i] {
      if i < n {
        assert spans'[n].pid != p;
        forall j | i < j < n ensures spans[j].pid != p { assert spans'[j].pid != p; }
        assert IsLast(spans, p, i);
      }
    }
  }

  lemma RunNone(st: State)
    requires Inv(st)
    ensures RunSpans(st, []) == st
  {
  }

  lemma FollowsNone(before: map<int, int>, p: int)
    ensures Follows(before, [], [], before, p)
  {
  }

  lemma {:induction false} StickyIsLast(st: State, spans: seq<Span>, p: int)
    requires Inv(st)
    ensures |RunSpans(st, spans).tids| == |st.tids| + |spans|
    ensures Follows(st.sticky, spans, RunSpans(st, spans).tids[|st.tids|..], RunSpans(st, spans).sticky, p)
  {
    hide *;
    RunSpansKeeps(st, spans);
    RunNone(st);
    FollowsNone(st.sticky, p);
    if spans == [] {
      assert st.tids[|st.tids|..] == [];
    } else {
      var n, m := |spans| - 1, |st.tids|;
      var mid, line := RunLast(st, spans);
      StickyIsLast(st, spans[..n], p);
      FollowsSnoc(st.sticky, spans[..n], mid.tids[m..], mid.sticky, spans[n], line, p);
      assert spans[..n] + [spans[n]] == spans && mid.tids[m..] + [line] == (mid.tids + [line])[m..];
    }
  }

  // ----- what stands on a line -----

  // The first i spans that went onto track t, as the container lists them.
  function Entries(spans: seq<Span>, tids: seq<int>, i: nat, t: Track): seq<Interval>
    requires i <= |spans| == |tids|
  {
    if i == 0 then []
    else
      var before := Entries(spans, tids, i - 1, t);
      if spans[i - 1].pid == t.0 && tids[i - 1] == t.1 then Inserted(before, Iv(spans[i - 1])) else before
  }

  lemma {:induction false} EntriesPrefix(spans: seq<Span>, tids: seq<int>, spans': seq<Span>, tids': seq<int>, i: nat, t: Track)
    requires |spans| == |tids| && |spans'| == |tids'| && i <= |spans| && spans <= spans' && tids <= tids'
    ensures Entries(spans', tids', i, t) == Entries(spans, tids, i, t)
  {
    if i > 0 {
      EntriesPrefix(spans, tids, spans', tids', i - 1, t);
    }
  }

  function LineOf(l: Layout, t: Track): seq<Interval> {
    if t in l.lines then l.lines[t] else []
  }

  // Every line is the list of the spans that went onto it.
  ghost predicate Recorded(st: State) {
    && |st.spans| == |st.tids|
    && forall t: Track :: LineOf(st.layout, t) == Entries(st.spans, st.tids, |st.spans|, t)
  }

  // The lines after a placement: one more entry on the line that was found.
  lemma PlaceLine(st: State, s: Span, t: Track)
    requires Inv(st)
    ensures var before, after := LineOf(st.layout, t), LineOf(Place(st, s).layout, t);
            after == if t == (s.pid, FindLine(st.layout, st.sticky, s).line) then Inserted(before, Iv(s)) else before
  {
    FindLineCases(st.layout, st.sticky, s);
    hide Inserted, FindLine, WellFormed, StickyExists, NeighbourTest;
  }

  lemma PlaceRecorded(st: State, s: Span)
    requires Inv(st) && Recorded(st)
    ensures Recorded(Place(st, s))
  {
    PlaceParts(st, s);
    var n, line, r := |st.spans|, FindLine(st.layout, st.sticky, s).line, Place(st, s);
    hide Place, Inv, FindLine, LineOf, Inserted;
    forall t: Track ensures LineOf(r.layout, t) == Entries(r.spans, r.tids, n + 1, t) {
      PlaceLine(st, s, t);
      EntriesPrefix(st.spans, st.tids, r.spans, r.tids, n, t);
    }
  }

  lemma PlaceParts(st: State, s: Span)
    requires Inv(st)
    ensures var r, f := Place(st, s), FindLine(st.layout, st.sticky, s);
            && r.spans == st.spans + [s] && r.tids == st.tids + [f.line] && |st.spans| == |st.tids|
            && r.layout.meta == f.layout.meta
  {
  }

  lemma {:induction false} RunSpansRecorded(st: State, spans: seq<Span>)
    requires Inv(st) && Recorded(st)
    ensures Recorded(RunSpans(st, spans))
  {
    RunNone(st);
    hide *;
    if spans != [] {
      var mid, line := RunLast(st, spans);
      RunSpansRecorded(st, spans[..|spans| - 1]);
      PlaceRecorded(mid, spans[|spans| - 1]);
    }
  }

  // ----- the line of one span -----

  // The neighbour test of span i against the spans before it on line n fires.
  ghost predicate Blocked(spans: seq<Span>, tids: seq<int>, i: nat, n: int)
    requires i < |spans| == |tids|
  {
    NeighbourTest(Entries(spans, tids, i, (spans[i].pid, n)), spans[i].start, spans[i].end)
  }

  // Span i may stay on line n, where the last span of its process in its room
  // went: an instant always may.
  ghost predicate MayStay(spans: seq<Span>, tids: seq<int>, i: nat, n: int)
    requires i < |spans| == |tids|
  {
    spans[i].start == spans[i].end || !Blocked(spans, tids, i, n)
  }

  // h is the last span before i, in the room that begins at `from`, of the
  // same process.
  ghost predicate Recent(spans: seq<Span>, from: nat, i: nat, h: int)
    requires i < |spans|
  {
    from <= h < i && spans[h].pid == spans[i].pid && forall g :: h < g < i ==> spans[g].pid != spans[i].pid
  }

  // Span i stays on the line of the span before it if it may; otherwise it
  // takes the lowest line, opened or not, whose test is silent.
  ghost predicate GreedyAt(spans: seq<Span>, tids: seq<int>, from: nat, i: nat)
    requires i < |spans| == |tids|
  {
    && (forall h :: Recent(spans, from, i, h) && MayStay(spans, tids, i, tids[h]) ==> tids[i] == tids[h])
    && ((forall h :: Recent(spans, from, i, h) ==> !MayStay(spans, tids, i, tids[h])) ==>
          && tids[i] >= 1 && !Blocked(spans, tids, i, tids[i])
          && forall n :: 1 <= n < tids[i] ==> Blocked(spans, tids, i, n))
  }

  // The lines before it and the room leave one line for each span.
  lemma GreedyDetermines(spans: seq<Span>, tids: seq<int>, tids': seq<int>, from: nat, i: nat)
    requires i < |spans| == |tids| == |tids'| && tids[..i] == tids'[..i]
    requires GreedyAt(spans, tids, from, i) && GreedyAt(spans, tids', from, i)
    ensures tids[i] == tids'[i]
  {
    forall n ensures Blocked(spans, tids, i, n) == Blocked(spans, tids', i, n) {
      EntriesAgree(spans, tids, tids', i, (spans[i].pid, n));
    }
    hide Blocked;
    forall h | Recent(spans, from, i, h) ensures tids[h] == tids'[h] {
      assert tids[..i][h] == tids'[..i][h];
    }
  }

  lemma {:induction false} EntriesAgree(spans: seq<Span>, tids: seq<int>, tids': seq<int>, i: nat, t: Track)
    requires i <= |spans| == |tids| == |tids'| && tids[..i] == tids'[..i]
    ensures Entries(spans, tids, i, t) == Entries(spans, tids', i, t)
  {
    if i > 0 {
      assert tids[..i][..i - 1] == tids[..i - 1] && tids'[..i][..i - 1] == tids'[..i - 1];
      assert tids[i - 1] == tids[..i][i - 1] == tids'[i - 1];
      EntriesAgree(spans, tids, tids', i - 1, t);
    }
  }

  lemma FoundGreedy(l: Layout, sticky: map<int, int>, s: Span)
    requires WellFormed(l) && StickyExists(l, sticky)
    ensures var line := FindLine(l, sticky, s).line;
            if s.pid in sticky
               && (s.start == s.end || !NeighbourTest(LineOf(l, (s.pid, sticky[s.pid])), s.start, s.end))
            then line == sticky[s.pid]
            else && line >= 1 && !NeighbourTest(LineOf(l, (s.pid, line)), s.start, s.end)
                 && forall n :: 1 <= n < line ==> NeighbourTest(LineOf(l, (s.pid, n)), s.start, s.end)
  {
    var line := FindLine(l, sticky, s).line;
    assert !NeighbourTest([], s.start, s.end);
    assert forall n :: (s.pid, n) in l.lines <==> s.pid in l.order && 1 <= n <= |l.order[s.pid]|;
    hide NeighbourTest, Keyed, MetaExact, AllSorted, Opened;
  }

  // Some span is the last of its process.
  lemma {:induction false} LastExists(spans: seq<Span>, p: int) returns (i: int)
    requires Has(spans, p)
    ensures IsLast(spans, p, i)
  {
    var n := |spans| - 1;
    if spans[n].pid == p {
      i := n;
    } else {
      var k :| 0 <= k < |spans| && spans[k].pid == p;
      assert spans[..n][k].pid == p;
      i := LastExists(spans[..n], p);
    }
  }

  lemma RecentIsSticky(spans: seq<Span>, tids: seq<int>, from: nat, sticky: map<int, int>, s: Span)
    requires from <= |spans| == |tids| && Follows(map[], spans[from..], tids[from..], sticky, s.pid)
    ensures forall h :: Recent(spans + [s], from, |spans|, h) ==> s.pid in sticky && sticky[s.pid] == tids[h]
    ensures s.pid in sticky ==> exists h :: Recent(spans + [s], from, |spans|, h)
  {
    var room, all := spans[from..], spans + [s];
    forall h | Recent(all, from, |spans|, h) ensures s.pid in sticky && sticky[s.pid] == tids[h] {
      forall j | h - from < j < |room| ensures room[j].pid != s.pid { assert all[from + j].pid != s.pid; }
      assert IsLast(room, s.pid, h - from);
    }
    if s.pid in sticky {
      var i := LastExists(room, s.pid);
      forall g | from + i < g < |spans| ensures all[g].pid != s.pid { assert room[g - from].pid != s.pid; }
      assert Recent(all, from, |spans|, from + i);
    }
  }

  lemma BlockedIsTest(st: State, s: Span, line: int, n: int)
    requires Recorded(st)
    ensures Blocked(st.spans + [s], st.tids + [line], |st.spans|, n)
       <==> NeighbourTest(LineOf(st.layout, (s.pid, n)), s.start, s.end)
  {
    EntriesPrefix(st.spans, st.tids, st.spans + [s], st.tids + [line], |st.spans|, (s.pid, n));
    hide NeighbourTest, Entries, LineOf;
  }

  // One placement in a room that began at `from`.
  lemma PlaceGreedy(st: State, from: nat, s: Span)
    requires Inv(st) && Recorded(st) && from <= |st.spans|
    requires Follows(map[], st.spans[from..], st.tids[from..], st.sticky, s.pid)
    ensures |Place(st, s).spans| == |Place(st, s).tids| == |st.spans| + 1
    ensures GreedyAt(Place(st, s).spans, Place(st, s).tids, from, |st.spans|)
  {
    PlaceParts(st, s);
    FoundGreedy(st.layout, st.sticky, s);
    hide *;
    var line, n := FindLine(st.layout, st.sticky, s).line, |st.spans|;
    GreedyPlaced(st, from, s, line);
  }

  lemma GreedyPlaced(st: State, from: nat, s: Span, line: int)
    requires Recorded(st) && from <= |st.spans| && Follows(map[], st.spans[from..], st.tids[from..], st.sticky, s.pid)
    requires if s.pid in st.sticky
                && (s.start == s.end || !NeighbourTest(LineOf(st.layout, (s.pid, st.sticky[s.pid])), s.start, s.end))
             then line == st.sticky[s.pid]
             else && line >= 1 && !NeighbourTest(LineOf(st.layout, (s.pid, line)), s.start, s.end)
                  && forall n :: 1 <= n < line ==> NeighbourTest(LineOf(st.layout, (s.pid, n)), s.start, s.end)
    ensures GreedyAt(st.spans + [s], st.tids + [line], from, |st.spans|)
  {
    var spans, tids, i := st.spans + [s], st.tids + [line], |st.spans|;
    RecentIsSticky(st.spans, st.tids, from, st.sticky, s);
    forall n ensures Blocked(spans, tids, i, n) <==> NeighbourTest(LineOf(st.layout, (s.pid, n)), s.start, s.end) {
      BlockedIsTest(st, s, line, n);
    }
    hide Blocked, NeighbourTest, LineOf, Recorded, Follows;
    forall h | Recent(spans, from, i, h) ensures tids[h] == st.sticky[s.pid] {
      assert tids[h] == st.tids[h];
    }
    hide Recent;
  }

  lemma GreedyExtends(spans: seq<Span>, tids: seq<int>, spans': seq<Span>, tids': seq<int>, from: nat, i: nat)
    requires i < |spans| == |tids| && |spans'| == |tids'| && spans <= spans' && tids <= tids'
    requires GreedyAt(spans, tids, from, i)
    ensures GreedyAt(spans', tids', from, i)
  {
    forall n ensures Blocked(spans', tids', i, n) == Blocked(spans, tids, i, n) {
      EntriesPrefix(spans, tids, spans', tids', i, (spans[i].pid, n));
    }
    hide Blocked;
    forall h ensures Recent(spans', from, i, h) == Recent(spans, from, i, h) {
    }
    assert forall h :: Recent(spans, from, i, h) ==> tids'[h] == tids[h];
    hide Recent;
  }

  // ----- runs as prefixes of longer runs -----

  // What a has laid out, b begins with.
  ghost predicate Extends(b: State, a: State) {
    a.tids <= b.tids && a.spans <= b.spans
  }

  lemma RunSpansExtends(st: State, spans: seq<Span>)
    requires Inv(st)
    ensures Extends(RunSpans(st, spans), st)
  {
    RunSpansKeeps(st, spans);
  }

  lemma RunSpansSnoc(st: State, spans: seq<Span>, s: Span)
    requires Inv(st)
    ensures RunSpans(st, spans + [s]) == Place(RunSpans(st, spans), s)
  {
    assert (spans + [s])[..|spans|] == spans;
  }

  lemma {:induction false} RunSpansOn(st: State, a: seq<Span>, b: seq<Span>)
    requires Inv(st)
    ensures RunSpans(st, a + b) == RunSpans(RunSpans(st, a), b)
    decreases |b|
  {
    hide *;
    if b == [] {
      assert a + b == a;
      RunNone(RunSpans(st, a));
    } else {
      var n := |b| - 1;
      RunSpansOn(st, a, b[..n]);
      assert a + b == a + b[..n] + [b[n]] && b == b[..n] + [b[n]];
      RunSpansSnoc(st, a + b[..n], b[n]);
      RunSpansSnoc(RunSpans(st, a), b[..n], b[n]);
    }
  }

  // The state as room k begins.
  function AtRoom(rooms: seq<seq<Span>>, k: nat): (st: State)
    requires k <= |rooms|
    ensures Inv(st) && st.sticky == map[] && |st.tids| == |st.spans| && st.spans == Concat(rooms[..k])
  {
    RunRooms(rooms[..k]).(sticky := map[])
  }

  lemma RunRoomsAt(rooms: seq<seq<Span>>, k: nat)
    requires k < |rooms|
    ensures RunRooms(rooms[..k + 1]) == RunSpans(AtRoom(rooms, k), rooms[k])
    ensures Extends(AtRoom(rooms, k), RunRooms(rooms[..k]))
  {
    assert rooms[..k + 1][..k] == rooms[..k];
    hide Inv, RunSpans;
  }

  lemma ExtendsOn(c: State, b: State, a: State)
    requires Extends(c, b) && Extends(b, a)
    ensures Extends(c, a)
  {
  }

  lemma ExtendsItself(a: State)
    ensures Extends(a, a)
  {
  }

  lemma {:induction false} RunRoomsExtends(rooms: seq<seq<Span>>, k: nat, n: nat)
    requires k <= n <= |rooms|
    ensures Extends(RunRooms(rooms[..n]), RunRooms(rooms[..k]))
    decreases n
  {
    hide *;
    if k == n {
      ExtendsItself(RunRooms(rooms[..k]));
    } else {
      RunRoomsExtends(rooms, k, n - 1);
      RunRoomsAt(rooms, n - 1);
      var st := AtRoom(rooms, n - 1);
      RunSpansExtends(st, rooms[n - 1]);
      ExtendsOn(st, RunRooms(rooms[..n - 1]), RunRooms(rooms[..k]));
      ExtendsOn(RunSpans(st, rooms[n - 1]), st, RunRooms(rooms[..k]));
    }
  }

  lemma {:induction false} RunRoomsRecorded(rooms: seq<seq<Span>>)
    ensures Recorded(RunRooms(rooms))
  {
    if rooms != [] {
      var st := RunRooms(rooms[..|rooms| - 1]);
      RunRoomsRecorded(rooms[..|rooms| - 1]);
      RunSpansRecorded(st.(sticky := map[]), rooms[|rooms| - 1]);
      hide Inv;
    } else {
      forall t: Track ensures LineOf(Start.layout, t) == Entries([], [], 0, t) {}
    }
  }

  lemma SameLength(rooms: seq<seq<Span>>)
    ensures |RunRooms(rooms).tids| == |RunRooms(rooms).spans|
  {
  }

  // The state before span j of room k is placed.
  function Before(rooms: seq<seq<Span>>, k: nat, j: nat): (st: State)
    requires k < |rooms| && j <= |rooms[k]|
    ensures Inv(st) && |st.tids| == |st.spans|
  {
    RunSpans(AtRoom(rooms, k), rooms[k][..j])
  }

  lemma AtRoomRecorded(rooms: seq<seq<Span>>, k: nat)
    requires k <= |rooms|
    ensures Recorded(AtRoom(rooms, k))
  {
    RunRoomsRecorded(rooms[..k]);
    hide Inv, RunRooms;
  }

  lemma BeforeParts(rooms: seq<seq<Span>>, k: nat, j: nat, p: int)
    requires k < |rooms| && j <= |rooms[k]|
    ensures var st, from := Before(rooms, k, j), |Concat(rooms[..k])|;
            && |st.spans| == from + j && st.spans[from..] == rooms[k][..j]
            && Recorded(st) && Follows(map[], st.spans[from..], st.tids[from..], st.sticky, p)
  {
    var first := AtRoom(rooms, k);
    AtRoomRecorded(rooms, k);
    hide Inv, RunSpans, Recorded, Follows, AtRoom;
    RunSpansRecorded(first, rooms[k][..j]);
    StickyIsLast(first, rooms[k][..j], p);
  }

  lemma BeforeNext(rooms: seq<seq<Span>>, k: nat, j: nat)
    requires k < |rooms| && j < |rooms[k]|
    ensures Before(rooms, k, j + 1) == Place(Before(rooms, k, j), rooms[k][j])
  {
    assert rooms[k][..j + 1] == rooms[k][..j] + [rooms[k][j]];
    hide Inv, RunSpans, AtRoom, Place;
    RunSpansSnoc(AtRoom(rooms, k), rooms[k][..j], rooms[k][j]);
  }

  // The rest of the layout only adds to it.
  lemma BeforeKeeps(rooms: seq<seq<Span>>, k: nat, j: nat)
    requires k < |rooms| && j <= |rooms[k]|
    ensures Extends(RunRooms(rooms), Before(rooms, k, j))
  {
    hide Inv, RunSpans, AtRoom, RunRooms, Extends;
    var room, st := rooms[k], Before(rooms, k, j);
    RunRoomsAt(rooms, k);
    RunRoomsExtends(rooms, k + 1, |rooms|);
    assert rooms[..|rooms|] == rooms && room[..j] + room[j..] == room;
    RunSpansOn(AtRoom(rooms, k), room[..j], room[j..]);
    RunSpansExtends(st, room[j..]);
    ExtendsOn(RunRooms(rooms), RunRooms(rooms[..k + 1]), st);
  }

  lemma NextGreedy(rooms: seq<seq<Span>>, k: nat, j: nat)
    requires k < |rooms| && j < |rooms[k]|
    ensures var st, from := Before(rooms, k, j + 1), |Concat(rooms[..k])|;
            && |st.spans| == from + j + 1 && st.spans[from + j] == rooms[k][j]
            && GreedyAt(st.spans, st.tids, from, from + j)
  {
    hide *;
    var from, s := |Concat(rooms[..k])|, rooms[k][j];
    BeforeParts(rooms, k, j, s.pid);
    BeforeNext(rooms, k, j);
    var st := Before(rooms, k, j);
    PlaceGreedy(st, from, s);
    PlaceParts(st, s);
  }

  // The line of every span of every layout, whatever the spans.
  lemma LayoutIsGreedy(rooms: seq<seq<Span>>, k: nat, j: nat)
    requires k < |rooms| && j < |rooms[k]|
    ensures var r, from := RunRooms(rooms), |Concat(rooms[..k])|;
            && |r.tids| == |r.spans| && from + j < |r.spans| && r.spans[from + j] == rooms[k][j]
            && GreedyAt(r.spans, r.tids, from, from + j)
  {
    hide *;
    SameLength(rooms);
    BeforeKeeps(rooms, k, j + 1);
    NextGreedy(rooms, k, j);
    var st, r, from := Before(rooms, k, j + 1), RunRooms(rooms), |Concat(rooms[..k])|;
    ExtendsParts(r, st);
    GreedyExtends(st.spans, st.tids, r.spans, r.tids, from, from + j);
  }

  lemma ExtendsParts(b: State, a: State)
    requires Extends(b, a)
    ensures a.tids <= b.tids && a.spans <= b.spans
  {
  }

  // ----- positive lengths -----

  // A span before i on line n overlaps span i.
  ghost predicate Meets(spans: seq<Span>, tids: seq<int>, i: nat, n: int)
    requires i < |spans| == |tids|
  {
    exists h :: 0 <= h < i && On(spans, tids, h, (spans[i].pid, n)) && Overlap(Iv(spans[h]), Iv(spans[i]))
  }

  lemma TestIsMeets(st: State, s: Span, n: int, spans: seq<Span>, tids: seq<int>)
    requires Clean(st) && AllPositive(st.spans) && s.start < s.end
    requires |spans| == |tids| && st.spans + [s] <= spans && st.tids <= tids
    ensures NeighbourTest(LineOf(st.layout, (s.pid, n)), s.start, s.end) <==> Meets(spans, tids, |st.spans|, n)
  {
    var t, i := (s.pid, n), |st.spans|;
    assert spans[i] == s;
    assert forall h :: 0 <= h < i ==> spans[h] == st.spans[h] && tids[h] == st.tids[h];
    if t in st.layout.lines {
      PositiveTestExact(st, t, s.start, s.end);
      OnTrack(st, s, t, false);
      if Meets(spans, tids, i, n) {
        var h :| 0 <= h < i && On(spans, tids, h, t) && Overlap(Iv(spans[h]), Iv(s));
        assert On(st.spans, st.tids, h, t) && Clash(Iv(st.spans[h]), Iv(s), false);
      }
    } else {
      forall h | 0 <= h < i ensures !On(spans, tids, h, t) {
        assert (st.spans[h].pid, st.tids[h]) in st.layout.lines;
      }
    }
  }

  // With spans of positive length only, the test that decides is the overlap
  // with a span laid out before on that line.
  lemma BlockedIffMeets(rooms: seq<seq<Span>>, k: nat, j: nat, n: int)
    requires k < |rooms| && j < |rooms[k]| && AllPositive(Concat(rooms))
    ensures var r, i := RunRooms(rooms), |Concat(rooms[..k])| + j;
            |r.tids| == |r.spans| && i < |r.spans| && (Blocked(r.spans, r.tids, i, n) <==> Meets(r.spans, r.tids, i, n))
  {
    var r, i, s := RunRooms(rooms), |Concat(rooms[..k])| + j, rooms[k][j];
    SameLength(rooms);
    BeforeParts(rooms, k, j, s.pid);
    BeforeNext(rooms, k, j);
    BeforeKeeps(rooms, k, j + 1);
    BeforeClean(rooms, k, j);
    var st := Before(rooms, k, j);
    PlaceParts(st, s);
    hide *;
    assert st.spans + [s] <= r.spans && st.tids <= r.tids;
    PositiveAt(r.spans, i);
    BlockedAt(st, s, n, r.spans, r.tids);
    TestIsMeets(st, s, n, r.spans, r.tids);
  }

  lemma PositiveAt(spans: seq<Span>, i: nat)
    requires AllPositive(spans) && i < |spans|
    ensures spans[i].start < spans[i].end
  {
  }

  lemma BlockedAt(st: State, s: Span, n: int, spans: seq<Span>, tids: seq<int>)
    requires Recorded(st) && |spans| == |tids| && st.spans + [s] <= spans && st.tids <= tids
    ensures Blocked(spans, tids, |st.spans|, n) <==> NeighbourTest(LineOf(st.layout, (s.pid, n)), s.start, s.end)
  {
    assert spans[|st.spans|] == s && st.spans <= spans;
    EntriesPrefix(st.spans, st.tids, spans, tids, |st.spans|, (s.pid, n));
    hide NeighbourTest, Entries, LineOf;
  }

  lemma SameRun(cut: seq<seq<Span>>, rooms: seq<seq<Span>>, k: nat)
    requires k < |rooms| && |cut| == k + 1 && cut[..k] == rooms[..k]
    ensures RunRooms(cut) == RunSpans(AtRoom(rooms, k), cut[k])
  {
    assert cut[..k + 1] == cut;
    RunRoomsAt(cut, k);
    hide Inv, RunSpans, RunRooms;
  }

  lemma BeforeClean(rooms: seq<seq<Span>>, k: nat, j: nat)
    requires k < |rooms| && j <= |rooms[k]| && AllPositive(Concat(rooms))
    ensures AllPositive(RunRooms(rooms).spans) && Clean(Before(rooms, k, j)) && AllPositive(Before(rooms, k, j).spans)
  {
    var cut := rooms[..k] + [rooms[k][..j]];
    assert cut[..k] == rooms[..k];
    BeforeKeeps(rooms, k, j);
    SameRun(cut, rooms, k);
    var st := Before(rooms, k, j);
    assert AllPositive(Concat(cut)) by {
      assert Concat(cut) == st.spans;
      forall i | 0 <= i < |st.spans| ensures st.spans[i].start < st.spans[i].end {
        assert st.spans[i] == Concat(rooms)[i];
      }
    }
    hide *;
    PositiveLayoutClean(cut);
  }

  // ----- metadata records -----

  // The tracks of the first i spans, each where it is first used.
  function FirstUses(spans: seq<Span>, tids: seq<int>, i: nat): seq<Track>
    requires i <= |spans| == |tids|
  {
    if i == 0 then []
    else
      var before, t := FirstUses(spans, tids, i - 1), (spans[i - 1].pid, tids[i - 1]);
      if t in before then before else before + [t]
  }

  lemma {:induction false} FirstUsesPrefix(spans: seq<Span>, tids: seq<int>, spans': seq<Span>, tids': seq<int>, i: nat)
    requires |spans| == |tids| && |spans'| == |tids'| && i <= |spans| && spans <= spans' && tids <= tids'
    ensures FirstUses(spans', tids', i) == FirstUses(spans, tids, i)
  {
    if i > 0 {
      FirstUsesPrefix(spans, tids, spans', tids', i - 1);
    }
  }

  ghost predicate MetaInOrder(st: State) {
    |st.spans| == |st.tids| && st.layout.meta == FirstUses(st.spans, st.tids, |st.spans|)
  }

  lemma FoundMeta(l: Layout, sticky: map<int, int>, s: Span)
    requires WellFormed(l) && StickyExists(l, sticky)
    ensures var f := FindLine(l, sticky, s);
            f.layout.meta == if (s.pid, f.line) in l.meta then l.meta else l.meta + [(s.pid, f.line)]
  {
    FindLineCases(l, sticky, s);
    OpenedNew(l, s.pid);
    var t := (s.pid, FindLine(l, sticky, s).line);
    assert t in l.meta <==> t in l.lines by {
      assert multiset(l.meta)[t] == if t in l.lines then 1 else 0;
    }
    hide FindLine, WellFormed, NeighbourTest, StickyExists;
  }

  lemma PlaceMeta(st: State, s: Span)
    requires Inv(st) && MetaInOrder(st)
    ensures MetaInOrder(Place(st, s))
  {
    hide Place, FindLine;
    var r := Place(st, s);
    FoundMeta(st.layout, st.sticky, s);
    PlaceParts(st, s);
    hide Inv;
    FirstUsesPrefix(st.spans, st.tids, r.spans, r.tids, |st.spans|);
  }

  lemma OpenedNew(l: Layout, pid: int)
    requires WellFormed(l)
    ensures (pid, Count(l, pid) + 1) !in l.lines && Opened(l, pid).meta == l.meta + [(pid, Count(l, pid) + 1)]
  {
  }

  lemma {:induction false} RunSpansMeta(st: State, spans: seq<Span>)
    requires Inv(st) && MetaInOrder(st)
    ensures MetaInOrder(RunSpans(st, spans))
  {
    RunNone(st);
    hide *;
    if spans != [] {
      var mid, line := RunLast(st, spans);
      RunSpansMeta(st, spans[..|spans| - 1]);
      PlaceMeta(mid, spans[|spans| - 1]);
    }
  }

  // A metadata record is appended when a track gets its first span, and only
  // then.
  lemma {:induction false} RunRoomsMeta(rooms: seq<seq<Span>>)
    ensures MetaInOrder(RunRooms(rooms))
  {
    if rooms != [] {
      var n := |rooms| - 1;
      RunRoomsMeta(rooms[..n]);
      assert MetaInOrder(AtRoom(rooms, n));
      RunRoomsAt(rooms, n);
      assert rooms[..n + 1] == rooms;
      hide Inv, RunSpans, AtRoom, RunRooms, MetaInOrder;
      RunSpansMeta(AtRoom(rooms, n), rooms[n]);
    }
  }
}
