// The imperative layout pass: container objects held in `graph`, updated in
// place while the rooms are walked
// (scripts/convert_otel_2_perfetto.py, generate_perfetto_span_layout).
module PerfettoTracks {
  import opened Options
  import opened SpanContainer
  import opened SpanLayout
  import opened SpanProperties
  import opened StableSort

  const StartOf: Span -> int := (s: Span) => s.start

  // Sorting key of a room; sorting is only reached when no room is empty.
  const FirstStart: seq<Span> -> int := (room: seq<Span>) => if room == [] then 0 else room[0].start

  function SortEach(rooms: seq<seq<Span>>): (r: seq<seq<Span>>)
    ensures |r| == |rooms|
    ensures forall i :: 0 <= i < |rooms| ==> r[i] == SortBy(rooms[i], StartOf)
  {
    seq(|rooms|, i requires 0 <= i < |rooms| => SortBy(rooms[i], StartOf))
  }

  // The rooms in the order they are laid out, or None for the IndexError that
  // a room without spans raises.
  function SortedRooms(rooms: seq<seq<Span>>): Option<seq<seq<Span>>> {
    if exists i :: 0 <= i < |rooms| && rooms[i] == [] then None
    else Some(SortBy(SortEach(rooms), FirstStart))
  }

  lemma RunSpansNext(st: State, room: seq<Span>, j: nat)
    requires Inv(st) && j < |room|
    ensures RunSpans(st, room[..j + 1]) == Place(RunSpans(st, room[..j]), room[j])
  {
    assert room[..j + 1][..j] == room[..j];
  }

  lemma RunRoomsNext(rooms: seq<seq<Span>>, k: nat)
    requires k < |rooms|
    ensures var st := RunRooms(rooms[..k]).(sticky := map[]);
            Inv(st) && RunRooms(rooms[..k + 1]) == RunSpans(st, rooms[k])
  {
    assert rooms[..k + 1][..k] == rooms[..k];
  }

  class Tracks {
    // graph[pid] in key order, graph[pid][line], and slot_meta_data
    var order: map<int, seq<int>>
    var cells: map<Track, SpanLayoutContainer>
    var meta: seq<Track>

    ghost var repr: set<SpanLayoutContainer>          // every container in cells
    ghost var owner: map<SpanLayoutContainer, Track>  // and the one track it belongs to

    ghost function Lines(): map<Track, seq<Interval>>
      requires forall t :: t in cells ==> cells[t] in repr
      reads this, repr
    {
      map t | t in cells :: cells[t].intervals
    }

    ghost function View(): Layout
      requires forall t :: t in cells ==> cells[t] in repr
      reads this, repr
    {
      Layout(order, Lines(), meta)
    }

    // Every track has a container of its own.
    ghost predicate Valid()
      reads this, repr
    {
      forall t :: t in cells ==> cells[t] in repr && cells[t] in owner && owner[cells[t]] == t
    }

    // The heap holds the layout of run state st.
    ghost predicate Shows(st: State)
      reads this, repr
    {
      Valid() && View() == st.layout
    }

    constructor ()
      ensures Valid() && View() == EmptyLayout && repr == {}
    {
      order, cells, meta, repr, owner := map[], map[], [], {}, map[];
    }

    method NewContainer(t: Track)
      requires Valid() && t !in cells
      modifies this`cells, this`repr, this`owner
      ensures Valid() && Lines() == old(Lines())[t := []]
      ensures fresh(repr - old(repr))
    {
      ghost var before := Lines();
      var c := new SpanLayoutContainer();
      cells := cells[t := c];
      repr, owner := repr + {c}, owner[c := t];
      assert Lines() == before[t := []];
    }

    method OpenLine(pid: int, line: int)
      requires Valid() && line == Count(View(), pid) + 1 && (pid, line) !in cells
      modifies this
      ensures Valid() && View() == Opened(old(View()), pid)
      ensures fresh(repr - old(repr))
    {
      NewContainer((pid, line));
      ghost var lines := Lines();
      order := order[pid := (if pid in order then order[pid] else []) + [line]];
      meta := meta + [(pid, line)];
      assert Lines() == lines;
      hide Lines;
    }

    method Conflicts(s: Span, line: int) returns (conflict: bool)
      requires Valid() && WellFormed(View()) && (s.pid, line) in cells
      ensures conflict == NeighbourTest(View().lines[(s.pid, line)], s.start, s.end)
    {
      assert Sorted(View().lines[(s.pid, line)]);
      conflict := cells[(s.pid, line)].CheckOverlap(s.start, s.end);
    }

    // the scan over graph[pid]
    method FirstFit(s: Span) returns (r: Option<int>)
      requires Valid() && WellFormed(View()) && s.pid in order
      ensures r == FirstFree(View(), s, 0)
    {
      hide NeighbourTest, Sorted, MetaExact;
      var i := 0;
      while i < |order[s.pid]|
        invariant 0 <= i <= |order[s.pid]|
        invariant FirstFree(View(), s, 0) == FirstFree(View(), s, i)
      {
        var line := order[s.pid][i];
        assert line == i + 1 && (s.pid, line) in View().lines;
        var conflict := Conflicts(s, line);
        if !conflict {
          return Some(line);
        }
        i := i + 1;
      }
      return None;
    }

    // __find_line
    method FindLine(sticky: map<int, int>, s: Span) returns (sticky': map<int, int>, line: int)
      requires Valid() && WellFormed(View()) && StickyExists(View(), sticky)
      modifies this
      ensures Valid()
      ensures fresh(repr - old(repr))
      ensures SpanLayout.FindLine(old(View()), sticky, s) == Found(View(), sticky', line)
    {
      hide NeighbourTest, Sorted, MetaExact;
      if s.pid in sticky {
        line := sticky[s.pid];
        assert (s.pid, line) in View().lines;
        if s.start == s.end {
          return sticky, line;
        }
        var conflict := Conflicts(s, line);
        if !conflict {
          return sticky, line;
        }
      }
      assert (s.pid, Count(View(), s.pid) + 1) !in View().lines;
      if s.pid !in order {
        OpenLine(s.pid, 1);
        return sticky[s.pid := 1], 1;
      }
      var free := FirstFit(s);
      if free.Some? {
        return sticky[s.pid := free.value], free.value;
      }
      line := |order[s.pid]| + 1;
      OpenLine(s.pid, line);
      sticky' := sticky[s.pid := line];
    }

    method InsertSpan(t: Track, start: int, end: int)
      requires Valid() && t in cells && Sorted(cells[t].intervals)
      modifies cells[t]
      ensures Valid()
      ensures repr == old(repr)
      ensures View() == old(View()).(lines := old(View()).lines[t := Inserted(old(View()).lines[t], Interval(start, end))])
    {
      ghost var l := View();
      cells[t].InsertSpan(start, end);
      assert View().lines == l.lines[t := Inserted(l.lines[t], Interval(start, end))];
    }

    method PlaceSpan(ghost st: State, sticky: map<int, int>, s: Span)
      returns (sticky': map<int, int>, line: int, ghost st': State)
      requires Inv(st) && Shows(st) && st.sticky == sticky
      modifies this, repr
      ensures st' == Place(st, s) && Shows(st') && st'.sticky == sticky' && st'.tids == st.tids + [line]
      ensures fresh(repr - old(repr))
    {
      FindLineCases(st.layout, sticky, s);
      sticky', line := FindLine(sticky, s);
      assert Sorted(View().lines[(s.pid, line)]);
      InsertSpan((s.pid, line), s.start, s.end);
      st' := Place(st, s);
    }

    method PlaceRoom(ghost st: State, room: seq<Span>, before: seq<int>)
      returns (tids: seq<int>, ghost st': State)
      requires Inv(st) && Shows(st) && st.sticky == map[] && st.tids == before
      modifies this, repr
      ensures st' == RunSpans(st, room) && Shows(st') && st'.tids == tids
      ensures fresh(repr - old(repr))
    {
      hide Inv;
      var sticky: map<int, int> := map[];
      tids, st' := before, st;
      assert room[..0] == [];
      for j := 0 to |room|
        invariant st' == RunSpans(st, room[..j]) && Shows(st') && st'.sticky == sticky && st'.tids == tids
        invariant fresh(repr - old(repr))
      {
        var line;
        RunSpansNext(st, room, j);
        sticky, line, st' := PlaceSpan(st', sticky, room[j]);
        tids := tids + [line];
      }
      assert room[..|room|] == room;
    }

    // generate_perfetto_span_layout: the rooms as they are laid out, and the
    // tid of every span in that order.
    method Generate(rooms: seq<seq<Span>>) returns (laidOut: Option<seq<seq<Span>>>, tids: seq<int>)
      requires Shows(Start)
      modifies this, repr
      ensures laidOut == SortedRooms(rooms)
      ensures laidOut.None? ==> tids == [] && Shows(Start)
      ensures laidOut.Some? ==> Shows(RunRooms(laidOut.value)) && RunRooms(laidOut.value).tids == tids
    {
      hide Inv;
      laidOut, tids := SortedRooms(rooms), [];
      if laidOut.None? {
        return;
      }
      var sorted := laidOut.value;
      ghost var st := Start;
      for k := 0 to |sorted|
        invariant st == RunRooms(sorted[..k]) && Shows(st) && st.tids == tids
        invariant fresh(repr - old(repr))
      {
        RunRoomsNext(sorted, k);
        tids, st := PlaceRoom(st.(sticky := map[]), sorted[k], tids);
      }
      assert sorted[..|sorted|] == sorted;
    }
  }
}
