// Placement of spans on per-process tracks: a sticky line per room, then first
// fit over the existing lines, then a new line
// (scripts/convert_otel_2_perfetto.py, __find_line and
// generate_perfetto_span_layout), as functions of the layout so far.
module SpanLayout {
  import opened Options
  import opened SpanContainer

  datatype Span = Span(pid: int, start: int, end: int)

  function Iv(s: Span): Interval { Interval(s.start, s.end) }

  // A track is a (pid, line) pair.
  type Track = (int, int)

  // `graph` and `slot_meta_data`. The inner dictionary of a pid is its list of
  // line numbers in insertion order (Python's iteration order) together with
  // the entries of `lines` for that pid.
  datatype Layout = Layout(order: map<int, seq<int>>, lines: map<Track, seq<Interval>>, meta: seq<Track>)

  const EmptyLayout := Layout(map[], map[], [])

  // The lines of a pid are numbered 1..n in the order they were opened.
  ghost predicate Numbered(order: map<int, seq<int>>) {
    forall p :: p in order ==> IsOneTo(order[p])
  }

  ghost predicate IsOneTo(s: seq<int>) {
    |s| > 0 && forall k :: 0 <= k < |s| ==> s[k] == k + 1
  }

  ghost predicate Keyed(order: map<int, seq<int>>, lines: map<Track, seq<Interval>>) {
    forall p, n :: (p, n) in lines <==> p in order && 1 <= n <= |order[p]|
  }

  // One metadata record per track, and none for anything else.
  ghost predicate MetaExact(meta: seq<Track>, lines: map<Track, seq<Interval>>) {
    forall t: Track :: multiset(meta)[t] == if t in lines then 1 else 0
  }

  ghost predicate AllSorted(lines: map<Track, seq<Interval>>) {
    forall t: Track :: t in lines ==> Sorted(lines[t])
  }

  ghost predicate WellFormed(l: Layout) {
    Numbered(l.order) && Keyed(l.order, l.lines) && MetaExact(l.meta, l.lines) && AllSorted(l.lines)
  }

  ghost predicate StickyExists(l: Layout, sticky: map<int, int>) {
    forall p :: p in sticky ==> (p, sticky[p]) in l.lines
  }

  function Count(l: Layout, pid: int): nat {
    if pid in l.order then |l.order[pid]| else 0
  }

  // ----- __find_line -----

  function FirstFree(l: Layout, s: Span, i: nat): (r: Option<int>)
    requires WellFormed(l) && s.pid in l.order && i <= |l.order[s.pid]|
    ensures r.Some? ==> (s.pid, r.value) in l.lines && !NeighbourTest(l.lines[(s.pid, r.value)], s.start, s.end)
    ensures r.Some? ==> forall n :: i < n < r.value ==> NeighbourTest(l.lines[(s.pid, n)], s.start, s.end)
    ensures r.None? ==> forall n :: i < n <= |l.order[s.pid]| ==> NeighbourTest(l.lines[(s.pid, n)], s.start, s.end)
    decreases |l.order[s.pid]| - i
  {
    if i == |l.order[s.pid]| then None
    else
      assert l.order[s.pid][i] == i + 1;
      if !NeighbourTest(l.lines[(s.pid, l.order[s.pid][i])], s.start, s.end) then Some(l.order[s.pid][i])
      else FirstFree(l, s, i + 1)
  }

  function Opened(l: Layout, pid: int): Layout {
    var n := Count(l, pid) + 1;
    Layout(l.order[pid := (if pid in l.order then l.order[pid] else []) + [n]],
           l.lines[(pid, n) := []],
           l.meta + [(pid, n)])
  }

  datatype Found = Found(layout: Layout, sticky: map<int, int>, line: int)

  function FindLine(l: Layout, sticky: map<int, int>, s: Span): (r: Found)
    requires WellFormed(l) && StickyExists(l, sticky)
  {
    if s.pid in sticky && (s.start == s.end || !NeighbourTest(l.lines[(s.pid, sticky[s.pid])], s.start, s.end)) then
      Found(l, sticky, sticky[s.pid])
    else if s.pid !in l.order then
      Found(Opened(l, s.pid), sticky[s.pid := 1], 1)
    else
      match FirstFree(l, s, 0)
      case Some(line) => Found(l, sticky[s.pid := line], line)
      case None => Found(Opened(l, s.pid), sticky[s.pid := Count(l, s.pid) + 1], Count(l, s.pid) + 1)
  }

  lemma OpenedWellFormed(l: Layout, pid: int)
    requires WellFormed(l)
    ensures WellFormed(Opened(l, pid))
  {
    OpenedKeyed(l, pid);
    OpenedMeta(l.meta, l.lines, (pid, Count(l, pid) + 1));
    OpenedNumbered(l, pid);
    hide MetaExact, Numbered, Keyed, Sorted;
  }

  lemma OpenedKeyed(l: Layout, pid: int)
    requires Keyed(l.order, l.lines)
    ensures Keyed(Opened(l, pid).order, Opened(l, pid).lines) && (pid, Count(l, pid) + 1) !in l.lines
  {
    var o := Opened(l, pid);
    var m := Count(l, pid) + 1;
    assert (pid, m) !in l.lines;
    forall p, n ensures (p, n) in o.lines <==> p in o.order && 1 <= n <= |o.order[p]| {
      assert (p, n) in o.lines <==> (p, n) in l.lines || (p == pid && n == m);
    }
  }

  lemma OpenedNumbered(l: Layout, pid: int)
    requires Numbered(l.order)
    ensures Numbered(Opened(l, pid).order)
  {
    assert pid in l.order ==> IsOneTo(l.order[pid]);
    assert IsOneTo(Opened(l, pid).order[pid]);
  }

  lemma OpenedSticky(l: Layout, sticky: map<int, int>, pid: int)
    requires StickyExists(l, sticky)
    ensures StickyExists(Opened(l, pid), sticky[pid := Count(l, pid) + 1])
    ensures (pid, Count(l, pid) + 1) in Opened(l, pid).lines
  {
    hide Count;
  }

  lemma OpenedMeta(meta: seq<Track>, lines: map<Track, seq<Interval>>, t: Track)
    requires MetaExact(meta, lines) && t !in lines
    ensures MetaExact(meta + [t], lines[t := []])
  {
    assert multiset(meta + [t]) == multiset(meta) + multiset{t};
  }

  // Every answer of __find_line is one of three things: the sticky line taken
  // unchecked by a zero-length span, an existing line whose neighbour test is
  // silent, or a fresh line numbered one past the last when every existing
  // line of the process raised the test.
  lemma FindLineCases(l: Layout, sticky: map<int, int>, s: Span)
    requires WellFormed(l) && StickyExists(l, sticky)
    ensures var r := FindLine(l, sticky, s);
            && WellFormed(r.layout) && StickyExists(r.layout, r.sticky) && (s.pid, r.line) in r.layout.lines
            && s.pid in r.sticky && r.sticky[s.pid] == r.line
            && ((r.layout == l && s.start == s.end && s.pid in sticky && r.line == sticky[s.pid])
                || (r.layout == l && !NeighbourTest(l.lines[(s.pid, r.line)], s.start, s.end))
                || (r.layout == Opened(l, s.pid) && r.line == Count(l, s.pid) + 1
                    && forall n :: 1 <= n <= Count(l, s.pid) ==> NeighbourTest(l.lines[(s.pid, n)], s.start, s.end)))
  {
    OpenedWellFormed(l, s.pid);
    OpenedSticky(l, sticky, s.pid);
    hide NeighbourTest, Numbered, Keyed, MetaExact, AllSorted, Opened;
  }

  // ----- the run -----

  // The layout, the sticky lines of the current room, and the spans laid out
  // so far with the line (`tid`) each one got.
  datatype State = State(layout: Layout, sticky: map<int, int>, spans: seq<Span>, tids: seq<int>)

  const Start := State(EmptyLayout, map[], [], [])

  ghost predicate On(spans: seq<Span>, tids: seq<int>, i: int, t: Track)
    requires |spans| == |tids|
  {
    0 <= i < |spans| && spans[i].pid == t.0 && tids[i] == t.1
  }

  // A track holds exactly the spans that were given its line.
  ghost predicate Holds(spans: seq<Span>, tids: seq<int>, t: Track, line: seq<Interval>)
    requires |spans| == |tids|
  {
    forall iv :: iv in line <==> exists i :: On(spans, tids, i, t) && Iv(spans[i]) == iv
  }

  ghost predicate Inv(st: State) {
    && WellFormed(st.layout)
    && StickyExists(st.layout, st.sticky)
    && |st.spans| == |st.tids|
    && (forall i :: 0 <= i < |st.spans| ==> (st.spans[i].pid, st.tids[i]) in st.layout.lines)
    && (forall t: Track :: t in st.layout.lines ==> Holds(st.spans, st.tids, t, st.layout.lines[t]))
  }

  function Place(st: State, s: Span): (r: State)
    requires Inv(st)
    ensures Inv(r)
    ensures r.spans == st.spans + [s]
    ensures |r.tids| == |st.tids| + 1 && r.tids[..|st.tids|] == st.tids
  {
    var f := FindLine(st.layout, st.sticky, s);
    FindLineCases(st.layout, st.sticky, s);
    var t := (s.pid, f.line);
    var r := State(f.layout.(lines := f.layout.lines[t := Inserted(f.layout.lines[t], Iv(s))]),
                   f.sticky, st.spans + [s], st.tids + [f.line]);
    PlaceInv(st, s, r);
    r
  }

  lemma PlaceInv(st: State, s: Span, r: State)
    requires Inv(st)
    requires var f := FindLine(st.layout, st.sticky, s);
             var t := (s.pid, f.line);
             && t in f.layout.lines
             && r == State(f.layout.(lines := f.layout.lines[t := Inserted(f.layout.lines[t], Iv(s))]),
                           f.sticky, st.spans + [s], st.tids + [f.line])
    ensures Inv(r)
  {
    var f := FindLine(st.layout, st.sticky, s);
    FindLineCases(st.layout, st.sticky, s);
    var t := (s.pid, f.line);
    InsertWellFormed(f.layout, t, Iv(s));
    InsertedPermutes(f.layout.lines[t], Iv(s));
    hide WellFormed, Inserted, FindLine;
    forall u: Track | u in r.layout.lines ensures Holds(r.spans, r.tids, u, r.layout.lines[u]) {
      HoldsBefore(st, s, u, f.layout);
      HoldsAfter(st.spans, st.tids, s, f.line, u, f.layout.lines[u], r.layout.lines[u]);
    }
  }

  lemma InsertWellFormed(l: Layout, t: Track, iv: Interval)
    requires WellFormed(l) && t in l.lines
    ensures WellFormed(l.(lines := l.lines[t := Inserted(l.lines[t], iv)]))
  {
    InsertedSorted(l.lines[t], iv);
    hide Sorted, Inserted, Numbered;
  }

  // A track opened just now holds nothing yet.
  lemma HoldsBefore(st: State, s: Span, u: Track, l: Layout)
    requires Inv(st) && (l == st.layout || l == Opened(st.layout, s.pid)) && u in l.lines
    ensures Holds(st.spans, st.tids, u, l.lines[u])
  {
    if u !in st.layout.lines {
      forall i ensures !On(st.spans, st.tids, i, u) {
        if 0 <= i < |st.spans| { assert (st.spans[i].pid, st.tids[i]) in st.layout.lines; }
      }
    }
  }

  lemma HoldsAfter(spans: seq<Span>, tids: seq<int>, s: Span, line: int, u: Track, before: seq<Interval>, after: seq<Interval>)
    requires |spans| == |tids| && Holds(spans, tids, u, before)
    requires if u == (s.pid, line) then multiset(after) == multiset(before) + multiset{Iv(s)} else after == before
    ensures Holds(spans + [s], tids + [line], u, after)
  {
    var spans', tids' := spans + [s], tids + [line];
    forall iv ensures iv in after <==> exists i :: On(spans', tids', i, u) && Iv(spans'[i]) == iv {
      assert iv in after <==> iv in multiset(after);
      assert iv in before <==> iv in multiset(before);
      if iv in before {
        var i :| On(spans, tids, i, u) && Iv(spans[i]) == iv;
        assert On(spans', tids', i, u) && Iv(spans'[i]) == iv;
      }
      if u == (s.pid, line) && iv == Iv(s) {
        assert On(spans', tids', |spans|, u) && Iv(spans'[|spans|]) == iv;
      }
      forall i | On(spans', tids', i, u) && Iv(spans'[i]) == iv ensures iv in after {
        if i < |spans| { assert On(spans, tids, i, u); }
      }
    }
  }

  lemma InitLast<T>(before: seq<T>, s: seq<T>)
    requires s != []
    ensures before + s == before + s[..|s| - 1] + [s[|s| - 1]]
  {
  }

  // The spans of one room, in order.
  function RunSpans(st: State, spans: seq<Span>): (r: State)
    requires Inv(st)
    ensures Inv(r)
    ensures r.spans == st.spans + spans
  {
    if spans == [] then st
    else
      InitLast(st.spans, spans);
      Place(RunSpans(st, spans[..|spans| - 1]), spans[|spans| - 1])
  }

  function Concat(rooms: seq<seq<Span>>): seq<Span> {
    if rooms == [] then [] else Concat(rooms[..|rooms| - 1]) + rooms[|rooms| - 1]
  }

  // All rooms; the sticky lines are forgotten at the start of each.
  function RunRooms(rooms: seq<seq<Span>>): (r: State)
    ensures Inv(r)
    ensures r.spans == Concat(rooms)
  {
    if rooms == [] then Start
    else RunSpans(RunRooms(rooms[..|rooms| - 1]).(sticky := map[]), rooms[|rooms| - 1])
  }
}
