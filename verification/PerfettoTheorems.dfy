// The layout pass as a whole, from the rooms it is given.
module PerfettoTheorems {
  import opened Options
  import opened SpanContainer
  import opened SpanLayout
  import opened SpanProperties
  import opened StableSort
  import opened PerfettoTracks

  function Covers(s: Span, pid: int, t: int): nat {
    if s.pid == pid && s.start <= t < s.end then 1 else 0
  }

  lemma CoverSnoc(spans: seq<Span>, s: Span, pid: int, t: int)
    ensures |CoverSet(spans + [s], pid, t)| == |CoverSet(spans, pid, t)| + Covers(s, pid, t)
  {
    var before := CoverSet(spans, pid, t);
    if Covers(s, pid, t) == 1 {
      assert CoverSet(spans + [s], pid, t) == before + {|spans|};
    } else {
      assert CoverSet(spans + [s], pid, t) == before;
    }
  }

  lemma {:induction false} CoverInsert(spans: seq<Span>, s: Span, pid: int, t: int)
    ensures |CoverSet(Insert(spans, s, StartOf), pid, t)| == |CoverSet(spans, pid, t)| + Covers(s, pid, t)
  {
    if spans == [] || StartOf(spans[|spans| - 1]) <= StartOf(s) {
      CoverSnoc(spans, s, pid, t);
    } else {
      var init, last := spans[..|spans| - 1], spans[|spans| - 1];
      assert spans == init + [last];
      CoverInsert(init, s, pid, t);
      CoverSnoc(Insert(init, s, StartOf), last, pid, t);
      CoverSnoc(init, last, pid, t);
    }
  }

  // Sorting a room does not change how many of its spans cover an instant.
  lemma {:induction false} CoverSort(spans: seq<Span>, pid: int, t: int)
    ensures |CoverSet(SortBy(spans, StartOf), pid, t)| == |CoverSet(spans, pid, t)|
  {
    if spans != [] {
      var init, last := spans[..|spans| - 1], spans[|spans| - 1];
      assert spans == init + [last];
      CoverSort(init, pid, t);
      CoverInsert(SortBy(init, StartOf), last, pid, t);
      CoverSnoc(init, last, pid, t);
    }
  }

  lemma SameSpansPositive(a: seq<Span>, b: seq<Span>)
    requires multiset(a) == multiset(b) && AllPositive(a)
    ensures AllPositive(b)
  {
    forall i | 0 <= i < |b| ensures b[i].start < b[i].end {
      assert b[i] in multiset(b);
      assert b[i] in a;
    }
  }

  // One room with spans of positive length, in any order: the lines opened for
  // a process are exactly as many as its spans alive at the busiest instant.
  lemma OneRoomOptimal(room: seq<Span>, pid: int)
    requires room != [] && AllPositive(room)
    ensures SortedRooms([room]) == Some([SortBy(room, StartOf)])
    ensures IsPeak(room, pid, Count(RunRooms([SortBy(room, StartOf)]).layout, pid))
  {
    var sorted := SortBy(room, StartOf);
    SortBySorts(room, StartOf);
    SameSpansPositive(room, sorted);
    OneRoom(room);
    assert Concat([sorted]) == sorted by { assert [sorted][..0] == []; }
    assert Ordered(sorted);
    LayoutOptimal([sorted], pid);
    var n := Count(RunRooms([sorted]).layout, pid);
    forall t ensures |CoverSet(room, pid, t)| <= n {
      CoverSort(room, pid, t);
      assert |CoverSet(sorted, pid, t)| <= n;
    }
    var t :| |CoverSet(sorted, pid, t)| == n;
    CoverSort(room, pid, t);
  }

  lemma OneRoom(room: seq<Span>)
    requires room != []
    ensures SortedRooms([room]) == Some([SortBy(room, StartOf)])
  {
    var each := SortEach([room]);
    assert each == [SortBy(room, StartOf)];
    assert each[..0] == [] && SortBy(each[..0], FirstStart) == [];
    assert SortBy(each, FirstStart) == Insert([], each[0], FirstStart) == each;
    assert !exists i :: 0 <= i < |[room]| && [room][i] == [];
  }

  // ----- any number of rooms -----

  lemma ConcatSnoc(rooms: seq<seq<Span>>, room: seq<Span>)
    ensures Concat(rooms + [room]) == Concat(rooms) + room
  {
    assert (rooms + [room])[..|rooms|] == rooms;
  }

  lemma {:induction false} ConcatInsert(rooms: seq<seq<Span>>, room: seq<Span>)
    ensures multiset(Concat(Insert(rooms, room, FirstStart))) == multiset(Concat(rooms)) + multiset(room)
  {
    if rooms == [] || FirstStart(rooms[|rooms| - 1]) <= FirstStart(room) {
      ConcatSnoc(rooms, room);
    } else {
      var init, last := rooms[..|rooms| - 1], rooms[|rooms| - 1];
      ConcatInsert(init, room);
      ConcatSnoc(Insert(init, room, FirstStart), last);
    }
  }

  lemma {:induction false} ConcatSort(rooms: seq<seq<Span>>)
    ensures multiset(Concat(SortBy(rooms, FirstStart))) == multiset(Concat(rooms))
  {
    if rooms != [] {
      var init, last := rooms[..|rooms| - 1], rooms[|rooms| - 1];
      ConcatSort(init);
      ConcatInsert(SortBy(init, FirstStart), last);
    }
  }

  lemma {:induction false} ConcatSortEach(rooms: seq<seq<Span>>)
    ensures multiset(Concat(SortEach(rooms))) == multiset(Concat(rooms))
  {
    if rooms != [] {
      var init, last := rooms[..|rooms| - 1], rooms[|rooms| - 1];
      ConcatSortEach(init);
      SortBySorts(last, StartOf);
      assert SortEach(rooms)[..|rooms| - 1] == SortEach(init);
    }
  }

  // The pass fails exactly when some room is empty; otherwise it lays out every
  // span of every room exactly once.
  lemma EverySpanLaidOut(rooms: seq<seq<Span>>)
    ensures SortedRooms(rooms).None? <==> exists i :: 0 <= i < |rooms| && rooms[i] == []
    ensures SortedRooms(rooms).Some? ==>
              var st := RunRooms(SortedRooms(rooms).value);
              multiset(st.spans) == multiset(Concat(rooms)) && |st.tids| == |st.spans|
  {
    ConcatSortEach(rooms);
    ConcatSort(SortEach(rooms));
  }

  // ----- the order of the layout -----

  // The spans of a room by start, in their original order where starts agree;
  // perm says where each stood.
  ghost predicate InStartOrder(room: seq<Span>, perm: seq<nat>, sorted: seq<Span>) {
    && Permutes(perm, |room|) && |sorted| == |room|
    && (forall i :: 0 <= i < |room| ==> sorted[i] == room[perm[i]])
    && (forall i, j :: 0 <= i < j < |room| ==>
          sorted[i].start < sorted[j].start || (sorted[i].start == sorted[j].start && perm[i] < perm[j]))
  }

  ghost predicate SortedFrom(room: seq<Span>, sorted: seq<Span>) {
    exists perm :: InStartOrder(room, perm, sorted)
  }

  // Some span of a starts no later than every span of b.
  ghost predicate OpensBy(a: seq<Span>, b: seq<Span>) {
    exists x :: x in a && forall y :: y in b ==> x.start <= y.start
  }

  // Rooms in the order of their earliest spans, and in their original order
  // where these start together; perm says where each stood.
  ghost predicate InRoomOrder(rooms: seq<seq<Span>>, perm: seq<nat>, laidOut: seq<seq<Span>>) {
    && Permutes(perm, |rooms|) && |laidOut| == |rooms|
    && (forall i :: 0 <= i < |rooms| ==> SortedFrom(rooms[perm[i]], laidOut[i]))
    && (forall i, j :: 0 <= i < j < |rooms| ==>
          && OpensBy(rooms[perm[i]], rooms[perm[j]])
          && (OpensBy(rooms[perm[j]], rooms[perm[i]]) ==> perm[i] < perm[j]))
  }

  lemma SortedSpans(room: seq<Span>)
    ensures SortedFrom(room, SortBy(room, StartOf))
  {
    var q := SortIndices(room, StartOf);
    forall i, j | 0 <= i < j < |room|
      ensures var s := SortBy(room, StartOf); s[i].start < s[j].start || (s[i].start == s[j].start && q[i] < q[j])
    {
      assert Precedes(room, StartOf, q[i], q[j]);
    }
    assert InStartOrder(room, q, SortBy(room, StartOf));
  }

  // The key of a sorted room is the start of its earliest span.
  lemma OpensByKey(a: seq<Span>, b: seq<Span>)
    requires a != [] && b != []
    ensures OpensBy(a, b) <==> FirstStart(SortBy(a, StartOf)) <= FirstStart(SortBy(b, StartOf))
  {
    EarliestFirst(a);
    EarliestFirst(b);
    var x, y := SortBy(a, StartOf)[0], SortBy(b, StartOf)[0];
    if OpensBy(a, b) {
      var z :| z in a && forall y :: y in b ==> z.start <= y.start;
      assert x.start <= z.start <= y.start;
    }
  }

  lemma EarliestFirst(room: seq<Span>)
    requires room != []
    ensures var s := SortBy(room, StartOf); s != [] && s[0] in room && forall y :: y in room ==> s[0].start <= y.start
  {
    SortBySorts(room, StartOf);
    var s := SortBy(room, StartOf);
    assert s[0] in multiset(s);
    forall y | y in room ensures s[0].start <= y.start {
      assert y in multiset(room);
      var i :| 0 <= i < |s| && s[i] == y;
      assert StartOf(s[0]) <= StartOf(s[i]);
    }
  }

  // The rooms are laid out in the order of their earliest spans.
  lemma RoomsInOrder(rooms: seq<seq<Span>>)
    requires SortedRooms(rooms).Some?
    ensures exists perm :: InRoomOrder(rooms, perm, SortedRooms(rooms).value)
  {
    var each := SortEach(rooms);
    var perm := SortIndices(each, FirstStart);
    var out := SortBy(each, FirstStart);
    hide SortBy, OpensBy, Precedes, SortedFrom;
    forall i | 0 <= i < |rooms| ensures SortedFrom(rooms[perm[i]], out[i]) {
      SortedSpans(rooms[perm[i]]);
    }
    forall i, j | 0 <= i < j < |rooms|
      ensures OpensBy(rooms[perm[i]], rooms[perm[j]])
      ensures OpensBy(rooms[perm[j]], rooms[perm[i]]) ==> perm[i] < perm[j]
    {
      RoomPrecedes(rooms, perm[i], perm[j]);
    }
    assert InRoomOrder(rooms, perm, out);
  }

  lemma RoomPrecedes(rooms: seq<seq<Span>>, a: nat, b: nat)
    requires SortedRooms(rooms).Some? && a < |rooms| && b < |rooms| && Precedes(SortEach(rooms), FirstStart, a, b)
    ensures OpensBy(rooms[a], rooms[b]) && (OpensBy(rooms[b], rooms[a]) ==> a < b)
  {
    hide SortBy, OpensBy;
    OpensByKey(rooms[a], rooms[b]);
    OpensByKey(rooms[b], rooms[a]);
  }

  // For any rooms of positive-length spans: no two spans of one line overlap,
  // lines are numbered 1..n with one metadata record each, and n is within one
  // of the largest number of rivals of a single span.
  lemma LayoutOfPositiveSpans(rooms: seq<seq<Span>>, pid: int)
    requires SortedRooms(rooms).Some? && AllPositive(Concat(rooms))
    ensures var st := RunRooms(SortedRooms(rooms).value);
            && ConflictFree(st.spans, st.tids)
            && TracksDisjoint(st.layout)
            && WellFormed(st.layout)
            && Crowded(st, pid)
  {
    EverySpanLaidOut(rooms);
    var sorted := SortedRooms(rooms).value;
    SameSpansPositive(Concat(rooms), Concat(sorted));
    PositiveLayoutClean(sorted);
    LineCountBounded(sorted, pid);
  }

  // ----- why positive length is needed -----

  const Long := Span(7, 0, 10)
  const Instant := Span(7, 5, 5)
  const Short := Span(7, 6, 8)

  function Line7(line: seq<Interval>, spans: seq<Span>, tids: seq<int>): State {
    State(Layout(map[7 := [1]], map[(7, 1) := line], [(7, 1)]), map[7 := 1], spans, tids)
  }

  lemma AfterLong()
    ensures RunSpans(Start, [Long]) == Line7([Interval(0, 10)], [Long], [1])
  {
    assert Inserted([], Interval(0, 10)) == [Interval(0, 10)];
    assert [Long][..0] == [] && RunSpans(Start, [Long][..0]) == Start;
  }

  lemma StickySpan(line: seq<Interval>, spans: seq<Span>, tids: seq<int>, s: Span)
    requires Inv(Line7(line, spans, tids)) && s.pid == 7 && (s.start == s.end || !NeighbourTest(line, s.start, s.end))
    ensures Place(Line7(line, spans, tids), s) == Line7(Inserted(line, Iv(s)), spans + [s], tids + [1])
  {
    hide Inserted, NeighbourTest;
  }

  lemma HiddenNeighbour()
    ensures Inserted([Interval(0, 10)], Interval(5, 5)) == [Interval(0, 10), Interval(5, 5)]
    ensures !NeighbourTest([Interval(0, 10), Interval(5, 5)], 6, 8)
  {
    var line := [Interval(0, 10), Interval(5, 5)];
    assert LowerBound([Interval(0, 10)], 5, At(5)) == 1;
    assert line[1..] == [Interval(5, 5)] && LowerBound([Interval(5, 5)], 6, NegInf) == 1;
    assert LowerBound(line, 6, NegInf) == 2;
  }

  lemma AfterSticky(room: seq<Span>, line: seq<Interval>, tids: seq<int>, s: Span)
    requires RunSpans(Start, room) == Line7(line, room, tids)
    requires s.pid == 7 && (s.start == s.end || !NeighbourTest(line, s.start, s.end))
    ensures RunSpans(Start, room + [s]) == Line7(Inserted(line, Iv(s)), room + [s], tids + [1])
  {
    assert (room + [s])[..|room|] == room;
    StickySpan(line, room, tids, s);
  }

  lemma AfterInstant()
    ensures RunSpans(Start, [Long, Instant]) == Line7([Interval(0, 10), Interval(5, 5)], [Long, Instant], [1, 1])
  {
    hide RunSpans, Inserted, NeighbourTest, Inv;
    AfterLong();
    HiddenNeighbour();
    AfterSticky([Long], [Interval(0, 10)], [1], Instant);
    assert [Long] + [Instant] == [Long, Instant];
  }

  lemma AfterShort()
    ensures RunSpans(Start, [Long, Instant, Short]).tids == [1, 1, 1]
  {
    hide RunSpans, Inserted, NeighbourTest, Inv;
    AfterInstant();
    HiddenNeighbour();
    AfterSticky([Long, Instant], [Interval(0, 10), Interval(5, 5)], [1, 1], Short);
    assert [Long, Instant] + [Short] == [Long, Instant, Short];
  }

  lemma RunOfOneRoom(room: seq<Span>)
    ensures RunRooms([room]) == RunSpans(Start, room)
    ensures Concat([room]) == room
  {
    hide Inv;
    var rooms := [room];
    RunRoomsNext(rooms, 0);
    assert rooms[..0] == [] && rooms[..1] == rooms;
  }

  // A zero-length span put on the sticky line unchecked hides the long span
  // from the neighbour test: two positive-length spans of one process overlap
  // on line 1 of a layout of a single, already sorted room.
  lemma ZeroLengthHidesConflict()
    ensures RunRooms([[Long, Instant, Short]]).spans == [Long, Instant, Short]
    ensures RunRooms([[Long, Instant, Short]]).tids == [1, 1, 1]
    ensures Overlap(Iv(Long), Iv(Short))
    ensures !HarmlessRooms([[Long, Instant, Short]], true)
  {
    hide RunSpans, Inv, RunRooms, HarmlessRooms;
    var st := RunRooms([[Long, Instant, Short]]);
    RunOfOneRoom([Long, Instant, Short]);
    AfterShort();
    LongSpansConflictFreeIff([[Long, Instant, Short]]);
    assert st.spans[0] == Long && st.spans[2] == Short;
  }

  lemma InstantConflicts(spans: seq<Span>, tids: seq<int>)
    requires spans == [Long, Instant] && tids == [1, 1]
    ensures !ConflictFree(spans, tids) && ConflictFree(spans, tids, true)
  {
    assert spans[0] == Long && spans[1] == Instant;
    assert Clash(Iv(spans[0]), Iv(spans[1]), false);
  }

  // Without the last span the two conditions part: the instant overlaps the
  // long span, but no two spans of positive length overlap.
  lemma InstantAlone()
    ensures RunRooms([[Long, Instant]]).tids == [1, 1]
    ensures !HarmlessRooms([[Long, Instant]], false) && HarmlessRooms([[Long, Instant]], true)
  {
    RunOfOneRoom([Long, Instant]);
    AfterInstant();
    hide RunSpans, Inv, RunRooms, HarmlessRooms, ConflictFree, Concat;
    var st := RunRooms([[Long, Instant]]);
    InstantConflicts(st.spans, st.tids);
    LayoutConflictFreeIff([[Long, Instant]]);
    LongSpansConflictFreeIff([[Long, Instant]]);
  }
}
