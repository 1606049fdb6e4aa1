// Whole runs of the serving benchmark.
module ServingTheorems {
  import opened Options
  import opened Bags
  import opened ServingTurn
  import opened ServingQueue
  import opened ServingSafety

  ghost predicate Inv(cfg: Config, s: State) {
    Conserved(cfg, s) && Convs(cfg, s) && Counters(cfg, s)
  }

  // ----- every state of every run -----

  lemma {:induction false} SumLensEmpty<T>(ss: seq<seq<T>>)
    requires forall i :: 0 <= i < |ss| ==> ss[i] == []
    ensures SumLens(ss) == 0
  {
    if ss != [] {
      SumLensEmpty(ss[..|ss| - 1]);
    }
  }

  lemma InitInv(cfg: Config, s: State)
    requires Init(cfg, s)
    ensures Inv(cfg, s)
  {
    forall c: nat ensures Places(s, c) == if c < |cfg.original| then 1 else 0 {
      CountingQueue(s.queue, Id, c);
    }
    SumLensEmpty(s.replies);
  }

  lemma ConservedStep(cfg: Config, s: State, step: Step)
    requires Conserved(cfg, s) && Convs(cfg, s) && Enabled(cfg, s, step)
    ensures Conserved(cfg, Apply(cfg, s, step))
  {
    hide Apply, Enabled, Places, Convs;
    forall c: nat ensures Places(Apply(cfg, s, step), c) == Places(s, c) {
      PlacesStep(cfg, s, step, c);
    }
  }

  lemma ConvsStep(cfg: Config, s: State, step: Step)
    requires Conserved(cfg, s) && Convs(cfg, s) && Enabled(cfg, s, step)
    ensures Convs(cfg, Apply(cfg, s, step))
  {
    SameIndexed(cfg, s, step);
    hide Apply, Enabled, Conserved, ConvOf;
    forall c: nat | c < |cfg.original| ensures ConvOf(cfg, Apply(cfg, s, step), c) {
      ConvStep(cfg, s, step, c);
    }
  }

  lemma InvStep(cfg: Config, s: State, step: Step)
    requires Inv(cfg, s) && Enabled(cfg, s, step)
    ensures Inv(cfg, Apply(cfg, s, step))
  {
    hide Apply, Enabled, Conserved, Convs, Counters;
    ConservedStep(cfg, s, step);
    ConvsStep(cfg, s, step);
    CountersStep(cfg, s, step);
  }

  lemma SameIndexed(cfg: Config, s: State, step: Step)
    requires Enabled(cfg, s, step) && Indexed(cfg, s)
    ensures Indexed(cfg, Apply(cfg, s, step))
  {
  }

  function After(cfg: Config, s: State, steps: seq<Step>): Option<State> {
    if steps == [] then Some(s)
    else
      match After(cfg, s, steps[..|steps| - 1])
      case None => None
      case Some(mid) =>
        var step := steps[|steps| - 1];
        if Enabled(cfg, mid, step) then Some(Apply(cfg, mid, step)) else None
  }

  lemma {:induction false} RunInv(cfg: Config, init: State, steps: seq<Step>)
    requires Init(cfg, init) && After(cfg, init, steps).Some?
    ensures Inv(cfg, After(cfg, init, steps).value)
  {
    if steps == [] {
      InitInv(cfg, init);
    } else {
      hide Inv, Init;
      RunInv(cfg, init, steps[..|steps| - 1]);
      InvStep(cfg, After(cfg, init, steps[..|steps| - 1]).value, steps[|steps| - 1]);
    }
  }

  // ----- what is sent -----

  lemma {:induction false} TranscriptShape(o: seq<Prompt>, r: seq<Reply>, k: nat)
    requires k <= |o| && k <= |r|
    ensures |Transcript(o, r, k)| == 2 * k
    ensures forall j :: 0 <= j < k ==>
              Transcript(o, r, k)[2 * j] == User(o[j].content) && Transcript(o, r, k)[2 * j + 1] == Assistant(r[j].text)
    decreases k
  {
    if k > 0 {
      TranscriptShape(o, r, k - 1);
    }
  }

  // Each turn is sent at most once and in order; turn k carries 2k + 1
  // messages, users and assistant alternating, its own prompt last, and its
  // prompt length is the real length of every earlier turn plus its input.
  lemma TurnsInOrder(cfg: Config, init: State, steps: seq<Step>, c: nat, k: nat)
    requires Init(cfg, init) && After(cfg, init, steps).Some? && c < |cfg.original|
    ensures var s := After(cfg, init, steps).value;
            && Indexed(cfg, s)
            && |s.replies[c]| <= |s.sent[c]| <= |cfg.original[c]| && |s.sent[c]| <= |s.replies[c]| + 1
            && (k < |s.sent[c]| ==>
                  && |s.sent[c][k].messages| == 2 * k + 1
                  && (forall j :: 0 <= j <= k ==> s.sent[c][k].messages[2 * j] == User(cfg.original[c][j].content))
                  && (forall j :: 0 <= j < k ==> s.sent[c][k].messages[2 * j + 1] == Assistant(s.replies[c][j].text))
                  && s.sent[c][k].promptLen == RealLengths(cfg.original[c], s.replies[c], k) + cfg.original[c][k].inputLen)
  {
    hide After, Init;
    RunInv(cfg, init, steps);
    var s := After(cfg, init, steps).value;
    assert ConvOf(cfg, s, c);
    if k < |s.sent[c]| {
      TranscriptShape(cfg.original[c], s.replies[c], k);
    }
  }

  // ----- the bounded queue -----

  // The queue never exceeds its size, and a conversation being put back always
  // finds room; at most the allowed number of requests is under way.
  lemma PutNeverBlocks(cfg: Config, init: State, steps: seq<Step>)
    requires Init(cfg, init) && After(cfg, init, steps).Some?
    ensures var s := After(cfg, init, steps).value;
            && |s.queue| <= |cfg.original|
            && (forall i :: 0 <= i < |s.putting| ==> Enabled(cfg, s, Put(i)))
            && (cfg.maxConcurrency.Some? ==> |s.running| <= cfg.maxConcurrency.value)
  {
    hide After, Init, Conserved, Convs;
    RunInv(cfg, init, steps);
  }

  // ----- the order of fetching -----

  function Fetches(steps: seq<Step>): nat {
    if steps == [] then 0 else Fetches(steps[..|steps| - 1]) + if steps[|steps| - 1].Fetch? then 1 else 0
  }

  // First come, first served: from any state the next fetches take the
  // conversations of its queue in order, whatever is put back meanwhile.
  lemma {:induction false} FetchedInQueueOrder(cfg: Config, s: State, steps: seq<Step>)
    requires After(cfg, s, steps).Some? && Fetches(steps) <= |s.queue|
    ensures var s', f := After(cfg, s, steps).value, Fetches(steps);
            s'.order == s.order + s.queue[..f] && s.queue[f..] <= s'.queue
  {
    if steps != [] {
      var init := steps[..|steps| - 1];
      FetchedInQueueOrder(cfg, s, init);
      FetchedNext(cfg, s, After(cfg, s, init).value, steps[|steps| - 1], Fetches(init));
    }
  }

  lemma FetchedNext(cfg: Config, s: State, mid: State, step: Step, f: nat)
    requires Enabled(cfg, mid, step) && f <= |s.queue| && (step.Fetch? ==> f < |s.queue|)
    requires mid.order == s.order + s.queue[..f] && s.queue[f..] <= mid.queue
    ensures var s', f' := Apply(cfg, mid, step), if step.Fetch? then f + 1 else f;
            s'.order == s.order + s.queue[..f'] && s.queue[f'..] <= s'.queue
  {
    if step.Fetch? {
      assert mid.queue[0] == s.queue[f..][0] == s.queue[f];
      assert s.queue[..f + 1] == s.queue[..f] + [s.queue[f]];
      assert s.queue[f + 1..] == s.queue[f..][1..];
      assert Drop(mid.queue, 0) == mid.queue[1..];
    }
  }

  // The first n fetches are conversations 0..n-1; those still to come stand at
  // the head of the queue.
  ghost predicate FirstRound(n: nat, s: State) {
    && |s.order| == s.taken
    && (forall i :: 0 <= i < |s.order| && i < n ==> s.order[i] == i)
    && n - |s.order| <= |s.queue|
    && (forall j :: 0 <= j < n - |s.order| ==> s.queue[j] == |s.order| + j)
  }

  lemma FirstRoundStep(cfg: Config, s: State, step: Step, n: nat)
    requires FirstRound(n, s) && Enabled(cfg, s, step)
    ensures FirstRound(n, Apply(cfg, s, step))
  {
    if step.Fetch? {
      assert Drop(s.queue, 0) == s.queue[1..];
      assert |s.order| < n ==> s.queue[0] == |s.order| + 0;
      forall j | 0 <= j < n - |s.order| - 1 ensures s.queue[1..][j] == |s.order| + 1 + j {
        assert s.queue[j + 1] == |s.order| + (j + 1);
      }
    }
  }

  // The first turns go first: the opening fetches of every run are
  // conversation 0, 1, 2 and so on, before any second turn.
  lemma {:induction false} FirstTurnsFirst(cfg: Config, init: State, steps: seq<Step>)
    requires Init(cfg, init) && After(cfg, init, steps).Some?
    ensures FirstRound(|cfg.original|, After(cfg, init, steps).value)
  {
    if steps != [] {
      hide Init, Apply, Enabled, FirstRound;
      FirstTurnsFirst(cfg, init, steps[..|steps| - 1]);
      FirstRoundStep(cfg, After(cfg, init, steps[..|steps| - 1]).value, steps[|steps| - 1], |cfg.original|);
    }
  }

  // ----- conversations without prompts -----

  // Conversation c, which has no prompt, was not put back.
  ghost predicate GoneOnce(cfg: Config, s: State, c: nat) {
    c < |cfg.original| && cfg.original[c] == [] && c < s.taken ==> Num(s.queue, Id, c) == 0 && Num(s.putting, Id, c) == 0
  }

  lemma QueuedHead(cfg: Config, s: State, c: nat)
    requires Inv(cfg, s) && s.queue != [] && s.queue[0] == c
    ensures c < |cfg.original| && Num(Drop(s.queue, 0), Id, c) == 0 && Num(s.putting, Id, c) == 0
  {
    NumIn(s.queue, 0, Id);
    NumDrop(s.queue, 0, Id, c);
    hide Num;
    assert Places(s, c) == if c < |cfg.original| then 1 else 0;
  }

  lemma GoneOnceFetch(cfg: Config, s: State, c: nat)
    requires Inv(cfg, s) && FirstRound(|cfg.original|, s) && GoneOnce(cfg, s, c) && Enabled(cfg, s, Fetch)
    ensures GoneOnce(cfg, Apply(cfg, s, Fetch), c)
  {
    NumDrop(s.queue, 0, Id, c);
    if c == s.taken && c < |cfg.original| {
      assert s.queue[0] == |s.order| + 0;
      QueuedHead(cfg, s, c);
    }
    hide Num, Inv;
  }

  lemma GoneOnceSucceed(cfg: Config, s: State, i: nat, text: string, len: nat, c: nat)
    requires GoneOnce(cfg, s, c) && Enabled(cfg, s, Succeed(i, text, len))
    requires Works(cfg, s, s.running[i]) && cfg.original[s.running[i]] != []
    ensures GoneOnce(cfg, Apply(cfg, s, Succeed(i, text, len)), c)
  {
    hide Num;
    NumSnoc(s.putting, s.running[i], Id, c);
  }

  lemma GoneOncePut(cfg: Config, s: State, i: nat, c: nat)
    requires GoneOnce(cfg, s, c) && Enabled(cfg, s, Put(i))
    ensures GoneOnce(cfg, Apply(cfg, s, Put(i)), c)
  {
    hide Num;
    NumDrop(s.putting, i, Id, c);
    NumSnoc(s.queue, s.putting[i], Id, c);
  }

  lemma GoneOnceStep(cfg: Config, s: State, step: Step, c: nat)
    requires Inv(cfg, s) && FirstRound(|cfg.original|, s) && GoneOnce(cfg, s, c) && Enabled(cfg, s, step)
    ensures GoneOnce(cfg, Apply(cfg, s, step), c)
  {
    StepWorkable(cfg, s, step);
    hide Num, Inv, FirstRound;
    match step
    case Fetch => GoneOnceFetch(cfg, s, c);
    case Succeed(i, text, len) => GoneOnceSucceed(cfg, s, i, text, len, c);
    case Put(i) => GoneOncePut(cfg, s, i, c);
    case _ =>
  }

  lemma {:induction false} RunGoneOnce(cfg: Config, init: State, steps: seq<Step>, c: nat)
    requires Init(cfg, init) && After(cfg, init, steps).Some?
    ensures GoneOnce(cfg, After(cfg, init, steps).value, c)
  {
    if steps != [] {
      hide Init, Apply, Enabled, FirstRound, GoneOnce, Inv;
      var before := steps[..|steps| - 1];
      RunGoneOnce(cfg, init, before, c);
      RunInv(cfg, init, before);
      FirstTurnsFirst(cfg, init, before);
      GoneOnceStep(cfg, After(cfg, init, before).value, steps[|steps| - 1], c);
    }
  }

  // It is still in the queue, waits for its task, or raised an IndexError.
  lemma EmptyPlaces(cfg: Config, s: State, c: nat)
    requires Inv(cfg, s) && FirstRound(|cfg.original|, s) && GoneOnce(cfg, s, c)
    requires c < |cfg.original| && cfg.original[c] == []
    ensures s.raised[c] + Num(s.waiting, Id, c) == if c < s.taken then 1 else 0
  {
    assert Places(s, c) == 1 && ConvOf(cfg, s, c);
    if s.taken <= c {
      assert s.queue[c - s.taken] == |s.order| + (c - s.taken);
      NumIn(s.queue, c - s.taken, Id);
    }
  }

  ghost predicate AllFetch(steps: seq<Step>) {
    forall i :: 0 <= i < |steps| ==> steps[i] == Fetch
  }

  // After k fetches and nothing else.
  ghost predicate Prefetched(init: State, s: State, k: nat) {
    && k <= |init.queue| && s.taken == k && s.queue == init.queue[k..] && s.waiting == init.queue[..k]
    && s.running == [] && s.putting == [] && !s.aborted && s.convs == init.convs && s.sent == init.sent
  }

  lemma PrefetchedNext(cfg: Config, init: State, s: State, k: nat)
    requires Prefetched(init, s, k) && k < Total(cfg) && k < |init.queue|
    ensures Enabled(cfg, s, Fetch) && Prefetched(init, Apply(cfg, s, Fetch), k + 1)
  {
    assert Drop(s.queue, 0) == init.queue[k + 1..];
    assert init.queue[..k + 1] == init.queue[..k] + [init.queue[k]];
  }

  lemma {:induction false} FetchRun(cfg: Config, init: State, steps: seq<Step>)
    requires Init(cfg, init) && AllFetch(steps) && |steps| <= Total(cfg) && |steps| <= |cfg.original|
    ensures After(cfg, init, steps).Some? && Prefetched(init, After(cfg, init, steps).value, |steps|)
  {
    if steps != [] {
      var k := |steps| - 1;
      FetchRun(cfg, init, steps[..k]);
      assert steps[k] == Fetch && |init.queue| == |cfg.original|;
      PrefetchedNext(cfg, init, After(cfg, init, steps[..k]).value, k);
      hide Init, Prefetched, Apply, Enabled;
      AfterSnoc(cfg, init, steps);
    }
  }

  lemma AfterSnoc(cfg: Config, s: State, steps: seq<Step>)
    requires steps != [] && After(cfg, s, steps[..|steps| - 1]).Some?
    requires Enabled(cfg, After(cfg, s, steps[..|steps| - 1]).value, steps[|steps| - 1])
    ensures After(cfg, s, steps)
         == Some(Apply(cfg, After(cfg, s, steps[..|steps| - 1]).value, steps[|steps| - 1]))
  {
  }

  // A run in which conversation c raises an IndexError.
  ghost predicate Raises(cfg: Config, init: State, steps: seq<Step>, c: nat) {
    After(cfg, init, steps).Some? && After(cfg, init, steps).value.raised[c] > 0
  }

  // A conversation can raise an IndexError if and only if it has no prompt and
  // the loop gets to it: it counts no iteration for it but spends one.
  lemma RaiseReachableIff(cfg: Config, init: State, c: nat)
    requires Init(cfg, init) && (cfg.maxConcurrency.Some? ==> cfg.maxConcurrency.value >= 1)
    ensures (exists steps :: Raises(cfg, init, steps, c))
       <==> c < |cfg.original| && cfg.original[c] == [] && c < Total(cfg)
  {
    forall steps | Raises(cfg, init, steps, c)
      ensures c < |cfg.original| && cfg.original[c] == [] && c < Total(cfg)
    {
      RaisedWhy(cfg, init, steps, c);
    }
    if c < |cfg.original| && cfg.original[c] == [] && c < Total(cfg) {
      RaiseRun(cfg, init, c);
    }
  }

  lemma RaisedWhy(cfg: Config, init: State, steps: seq<Step>, c: nat)
    requires Init(cfg, init) && Raises(cfg, init, steps, c)
    ensures c < |cfg.original| && cfg.original[c] == [] && c < Total(cfg)
  {
    var s := After(cfg, init, steps).value;
    RunInv(cfg, init, steps);
    FirstTurnsFirst(cfg, init, steps);
    RunGoneOnce(cfg, init, steps, c);
    hide After, Init, FirstRound, GoneOnce;
    assert Places(s, c) == if c < |cfg.original| then 1 else 0;
    assert ConvOf(cfg, s, c);
    EmptyPlaces(cfg, s, c);
  }

  lemma RaiseRun(cfg: Config, init: State, c: nat)
    requires Init(cfg, init) && (cfg.maxConcurrency.Some? ==> cfg.maxConcurrency.value >= 1)
    requires c < |cfg.original| && cfg.original[c] == [] && c < Total(cfg)
    ensures exists steps :: Raises(cfg, init, steps, c)
  {
    var fetches := seq(c + 1, i => Fetch);
    var steps := fetches + [Start(c)];
    FetchRun(cfg, init, fetches);
    assert steps[..|steps| - 1] == fetches;
    var mid := After(cfg, init, fetches).value;
    assert mid.waiting[c] == c;
    AfterSnoc(cfg, init, steps);
    hide After;
    assert Raises(cfg, init, steps, c);
  }

  // ----- sums over conversations -----

  // What m holds for empty lists.
  function OnEmpty<U>(bounds: seq<seq<U>>, m: multiset<nat>): nat {
    if bounds == [] then 0
    else OnEmpty(bounds[..|bounds| - 1], m) + if bounds[|bounds| - 1] == [] then m[|bounds| - 1] else 0
  }

  ghost predicate Within<T, U>(s: seq<T>, extra: nat, bound: seq<U>) {
    if bound == [] then s == [] else |s| + extra <= |bound|
  }

  // If no list is longer than its bound by more than m says, the total reaches
  // the bound only when each list does, not counting empty bounds.
  lemma {:induction false} NoSlack<T, U>(ss: seq<seq<T>>, m: multiset<nat>, bounds: seq<seq<U>>, c: nat)
    requires |ss| == |bounds| && forall i :: 0 <= i < |ss| ==> Within(ss[i], m[i], bounds[i])
    ensures SumLens(ss) + SumTo(m, |ss|) <= SumLens(bounds) + OnEmpty(bounds, m)
    ensures c < |ss| && |ss[c]| + m[c] < |bounds[c]| ==>
              SumLens(ss) + SumTo(m, |ss|) < SumLens(bounds) + OnEmpty(bounds, m)
  {
    if ss != [] {
      var k := |ss| - 1;
      assert Within(ss[k], m[k], bounds[k]);
      NoSlack(ss[..k], m, bounds[..k], c);
    }
  }

  lemma {:induction false} NoGap<T, U>(ss: seq<seq<T>>, m: multiset<nat>, bounds: seq<seq<U>>)
    requires |ss| == |bounds|
    requires forall i :: 0 <= i < |ss| ==> if bounds[i] == [] then ss[i] == [] else |ss[i]| + m[i] == |bounds[i]|
    ensures SumLens(ss) + SumTo(m, |ss|) == SumLens(bounds) + OnEmpty(bounds, m)
  {
    if ss != [] {
      var k := |ss| - 1;
      assert if bounds[k] == [] then ss[k] == [] else |ss[k]| + m[k] == |bounds[k]|;
      NoGap(ss[..k], m, bounds[..k]);
    }
  }

  lemma {:induction false} NothingOnEmpty<U>(bounds: seq<seq<U>>, m: multiset<nat>)
    requires forall i :: 0 <= i < |bounds| && bounds[i] == [] ==> m[i] == 0
    ensures OnEmpty(bounds, m) == 0
  {
    if bounds != [] {
      NothingOnEmpty(bounds[..|bounds| - 1], m);
    }
  }

  // Conversations with a fetched turn that is not answered.
  function Fetched(s: State): multiset<nat> {
    Who(s.waiting, Id) + Who(s.running, Id) + s.failed + s.raised
  }

  lemma FetchedAt(cfg: Config, s: State, c: nat)
    requires Inv(cfg, s)
    ensures Fetched(s)[c] == Num(s.waiting, Id, c) + Num(s.running, Id, c) + s.failed[c] + s.raised[c]
    ensures Fetched(s)[c] > 0 ==> c < |cfg.original|
    ensures c < |cfg.original| ==> Within(s.replies[c], Fetched(s)[c], cfg.original[c])
    ensures c < |cfg.original| && s.failed[c] > 0 ==> cfg.original[c] != [] && Fetched(s)[c] == 1
    ensures c < |cfg.original| && s.done[c] > 0 ==> |s.replies[c]| == |cfg.original[c]| && Fetched(s)[c] == 0
  {
    assert Places(s, c) == if c < |cfg.original| then 1 else 0;
    if c < |cfg.original| {
      assert ConvOf(cfg, s, c);
    }
  }

  lemma TakenIsFetched(cfg: Config, s: State)
    requires Inv(cfg, s)
    ensures s.taken == SumLens(s.replies) + SumTo(Fetched(s), |cfg.original|)
    ensures |s.replies| == |cfg.original|
    ensures forall i :: 0 <= i < |cfg.original| ==> Within(s.replies[i], Fetched(s)[i], cfg.original[i])
  {
    WhoSize(s.waiting, Id);
    WhoSize(s.running, Id);
    forall c: nat ensures c in Fetched(s) ==> c < |cfg.original|
                  ensures c < |cfg.original| ==> Within(s.replies[c], Fetched(s)[c], cfg.original[c])
    {
      FetchedAt(cfg, s, c);
    }
    hide Within, Conserved, Convs;
    SumIsSize(Fetched(s), |cfg.original|);
  }

  // ----- no starvation -----

  // The fetching loop never waits in vain: without failures, an empty queue
  // before the last fetch means that some conversation is still under way.
  lemma NoStarvation(cfg: Config, s: State)
    requires Inv(cfg, s) && s.failed == multiset{} && s.taken < Total(cfg) && s.queue == []
    ensures s.waiting != [] || s.running != [] || s.putting != []
  {
    if s.waiting == [] && s.running == [] && s.putting == [] {
      forall c: nat | c < |cfg.original|
        ensures if cfg.original[c] == [] then s.replies[c] == [] else |s.replies[c]| + Fetched(s)[c] == |cfg.original[c]|
      {
        assert Places(s, c) == 1 && ConvOf(cfg, s, c);
        FetchedAt(cfg, s, c);
      }
      TakenIsFetched(cfg, s);
      hide Inv, Within, Fetched;
      NoGap(s.replies, Fetched(s), cfg.original);
    }
  }

  // Without failures the fetch times out only while some conversation is under
  // way, and a loop that timed out stays short of its last iteration for good.
  lemma {:induction false} TimedOutShort(cfg: Config, init: State, steps: seq<Step>)
    requires Init(cfg, init) && After(cfg, init, steps).Some?
    ensures var s := After(cfg, init, steps).value;
            && (s.aborted ==> s.taken < Total(cfg) && !Enabled(cfg, s, Fetch))
            && (Enabled(cfg, s, Abort) && s.failed == multiset{} ==> s.waiting != [] || s.running != [] || s.putting != [])
  {
    if steps != [] {
      TimedOutShort(cfg, init, steps[..|steps| - 1]);
    }
    RunInv(cfg, init, steps);
    hide Init, Inv;
    var s := After(cfg, init, steps).value;
    if Enabled(cfg, s, Abort) && s.failed == multiset{} {
      NoStarvation(cfg, s);
    }
  }

  // A conversation that fails before its last turn keeps the loop from its
  // last iteration, apart from iterations spent on conversations without
  // prompts, for which it counts none.
  lemma EarlyFailureStarves(cfg: Config, s: State, c: nat)
    requires Inv(cfg, s) && c < |cfg.original| && s.failed[c] > 0 && |s.replies[c]| + 1 < |cfg.original[c]|
    ensures s.taken < Total(cfg) + OnEmpty(cfg.original, Fetched(s))
  {
    TakenIsFetched(cfg, s);
    FetchedAt(cfg, s, c);
    hide Inv, Within, Fetched;
    NoSlack(s.replies, Fetched(s), cfg.original, c);
  }

  // All tasks have ended and there is nothing to fetch.
  ghost predicate Settled(cfg: Config, s: State) {
    s.waiting == [] && s.running == [] && s.putting == [] && (s.queue == [] || s.taken == Total(cfg))
  }

  ghost predicate Exhausted(cfg: Config, s: State, c: nat)
    requires c < |cfg.original| == |s.replies|
  {
    |s.replies[c]| + s.failed[c] == |cfg.original[c]|
  }

  ghost predicate FailedEarly(cfg: Config, s: State, c: nat)
    requires c < |cfg.original| == |s.replies|
  {
    s.failed[c] > 0 && |s.replies[c]| + 1 < |cfg.original[c]|
  }

  lemma FailedBounds(cfg: Config, s: State, c: nat)
    requires Inv(cfg, s)
    ensures s.failed[c] > 0 ==> c < |cfg.original|
    ensures c < |cfg.original| ==>
              && s.failed[c] <= 1 && Within(s.replies[c], s.failed[c], cfg.original[c])
              && (cfg.original[c] == [] ==> s.failed[c] == 0)
              && (s.queue == [] && s.waiting == [] && s.running == [] && s.putting == [] && s.raised == multiset{} ==>
                    Exhausted(cfg, s, c) || FailedEarly(cfg, s, c))
  {
    assert Places(s, c) == if c < |cfg.original| then 1 else 0;
    if c < |cfg.original| {
      assert ConvOf(cfg, s, c);
    }
  }

  lemma SettledSums(cfg: Config, s: State, c: nat)
    requires Inv(cfg, s) && Settled(cfg, s)
    ensures |s.replies| == |cfg.original| && s.taken <= Total(cfg)
    ensures SumLens(s.replies) + |s.failed| + |s.raised| == s.taken && SumLens(s.replies) + |s.failed| <= Total(cfg)
    ensures c < |cfg.original| && !Exhausted(cfg, s, c) ==> SumLens(s.replies) + |s.failed| < Total(cfg)
    ensures (forall d: nat :: d < |cfg.original| ==> Exhausted(cfg, s, d)) ==> SumLens(s.replies) + |s.failed| == Total(cfg)
  {
    forall d: nat ensures d in s.failed ==> d < |cfg.original|
                  ensures d < |cfg.original| ==> Within(s.replies[d], s.failed[d], cfg.original[d])
                  ensures d < |cfg.original| && cfg.original[d] == [] ==> s.failed[d] == 0
    {
      FailedBounds(cfg, s, d);
    }
    assert |s.replies| == |cfg.original|;
    SumIsSize(s.failed, |cfg.original|);
    NothingOnEmpty(cfg.original, s.failed);
    NoSlack(s.replies, s.failed, cfg.original, c);
    if forall d: nat :: d < |cfg.original| ==> Exhausted(cfg, s, d) {
      forall i | 0 <= i < |s.replies|
        ensures if cfg.original[i] == [] then s.replies[i] == [] else |s.replies[i]| + s.failed[i] == |cfg.original[i]|
      {
        assert Exhausted(cfg, s, i);
      }
      NoGap(s.replies, s.failed, cfg.original);
    }
  }

  // A settled run has fetched every turn of every conversation if and only if
  // no conversation failed before its last turn and none without prompts was
  // fetched in place of a turn.
  lemma EveryTurnFetchedIff(cfg: Config, s: State)
    requires Inv(cfg, s) && Settled(cfg, s)
    ensures |s.replies| == |cfg.original|
    ensures (forall c: nat :: c < |cfg.original| ==> Exhausted(cfg, s, c))
       <==> (forall c: nat :: c < |cfg.original| ==> !FailedEarly(cfg, s, c)) && s.raised == multiset{}
    ensures s.raised == multiset{} ==>
              (s.taken == Total(cfg) <==> forall c: nat :: c < |cfg.original| ==> !FailedEarly(cfg, s, c))
  {
    SettledSums(cfg, s, 0);
    forall c: nat ensures c < |cfg.original| && Exhausted(cfg, s, c) ==> !FailedEarly(cfg, s, c)
                  ensures c < |cfg.original| && s.queue == [] && s.raised == multiset{} ==>
                            Exhausted(cfg, s, c) || FailedEarly(cfg, s, c)
                  ensures c < |cfg.original| && s.taken == Total(cfg) && s.raised == multiset{} ==> Exhausted(cfg, s, c)
    {
      FailedBounds(cfg, s, c);
      SettledSums(cfg, s, c);
    }
  }

  // A settled run without failures has answered every turn of every
  // conversation if and only if no IndexError was raised; and then its loop
  // made exactly one iteration per turn, and what is left in the queue has no
  // prompts.
  lemma SettledMeansDone(cfg: Config, s: State)
    requires Inv(cfg, s) && Settled(cfg, s) && s.failed == multiset{}
    ensures |s.replies| == |cfg.original|
    ensures (forall c: nat :: c < |cfg.original| ==> |s.replies[c]| == |cfg.original[c]|) <==> s.raised == multiset{}
    ensures s.raised == multiset{} ==>
              && s.taken == Total(cfg)
              && (forall c: nat :: c < |cfg.original| ==> s.done[c] == if cfg.original[c] == [] then 0 else 1)
              && forall i :: 0 <= i < |s.queue| ==> s.queue[i] < |cfg.original| && cfg.original[s.queue[i]] == []
  {
    EveryTurnFetchedIff(cfg, s);
    SettledSums(cfg, s, 0);
    if forall c: nat :: c < |cfg.original| ==> |s.replies[c]| == |cfg.original[c]| {
      assert forall c: nat :: c < |cfg.original| ==> Exhausted(cfg, s, c);
    }
    if s.raised == multiset{} {
      forall c: nat | c < |cfg.original|
        ensures |s.replies[c]| == |cfg.original[c]| && s.done[c] == if cfg.original[c] == [] then 0 else 1
      {
        assert !FailedEarly(cfg, s, c) && Exhausted(cfg, s, c);
        assert ConvOf(cfg, s, c) && Places(s, c) == 1;
      }
      forall i | 0 <= i < |s.queue| ensures s.queue[i] < |cfg.original| && cfg.original[s.queue[i]] == [] {
        QueuedNotDone(cfg, s, i);
      }
    }
  }

  lemma QueuedNotDone(cfg: Config, s: State, i: nat)
    requires Inv(cfg, s) && i < |s.queue|
    ensures s.queue[i] < |cfg.original| && s.done[s.queue[i]] == 0
  {
    NumIn(s.queue, i, Id);
    assert Places(s, s.queue[i]) == if s.queue[i] < |cfg.original| then 1 else 0;
  }

  lemma {:induction false} FailureFreeRun(cfg: Config, init: State, steps: seq<Step>)
    requires Init(cfg, init) && After(cfg, init, steps).Some?
    requires forall i :: 0 <= i < |steps| ==> !steps[i].Fail?
    ensures After(cfg, init, steps).value.failed == multiset{}
  {
    if steps != [] {
      FailureFreeRun(cfg, init, steps[..|steps| - 1]);
    }
  }

  // A conversation without prompts among as many as there are turns.
  ghost predicate EmptyInReach(cfg: Config, c: nat) {
    c < |cfg.original| && cfg.original[c] == [] && c < Total(cfg)
  }

  lemma RaisedIffInReach(cfg: Config, s: State)
    requires Inv(cfg, s) && FirstRound(|cfg.original|, s) && Settled(cfg, s) && s.failed == multiset{}
    requires forall c: nat :: GoneOnce(cfg, s, c)
    ensures s.raised == multiset{} <==> forall c: nat :: !EmptyInReach(cfg, c)
  {
    if s.taken < Total(cfg) {
      NoStarvation(cfg, s);
    }
    assert s.taken == Total(cfg);
    forall c: nat ensures EmptyInReach(cfg, c) <==> s.raised[c] > 0 {
      RaisedAtIff(cfg, s, c);
    }
  }

  lemma RaisedAtIff(cfg: Config, s: State, c: nat)
    requires Inv(cfg, s) && FirstRound(|cfg.original|, s) && GoneOnce(cfg, s, c) && s.waiting == [] && s.taken == Total(cfg)
    ensures EmptyInReach(cfg, c) <==> s.raised[c] > 0
  {
    assert Places(s, c) == if c < |cfg.original| then 1 else 0;
    if c < |cfg.original| {
      assert ConvOf(cfg, s, c);
      if cfg.original[c] == [] {
        EmptyPlaces(cfg, s, c);
      }
    }
  }

  // Every run without failures that settles has answered every turn of every
  // conversation if and only if no conversation without prompts stands among
  // as many as there are turns; each that does costs a turn.
  lemma FailureFreeRunCompletes(cfg: Config, init: State, steps: seq<Step>)
    requires Init(cfg, init) && After(cfg, init, steps).Some? && Settled(cfg, After(cfg, init, steps).value)
    requires forall i :: 0 <= i < |steps| ==> !steps[i].Fail?
    ensures var s := After(cfg, init, steps).value;
            && s.taken == Total(cfg) && Indexed(cfg, s)
            && ((forall c: nat :: c < |cfg.original| ==> |s.replies[c]| == |cfg.original[c]|)
                <==> forall c: nat :: !EmptyInReach(cfg, c))
            && SumLens(s.replies) + |s.raised| == Total(cfg)
  {
    var s := After(cfg, init, steps).value;
    forall c: nat ensures GoneOnce(cfg, s, c) {
      RunGoneOnce(cfg, init, steps, c);
    }
    RunInv(cfg, init, steps);
    FailureFreeRun(cfg, init, steps);
    FirstTurnsFirst(cfg, init, steps);
    hide Init, After, FirstRound, GoneOnce, EmptyInReach;
    if s.taken < Total(cfg) {
      NoStarvation(cfg, s);
    }
    SettledSums(cfg, s, 0);
    SettledMeansDone(cfg, s);
    RaisedIffInReach(cfg, s);
  }

  // Of one, no and one prompt the second conversation is in reach and costs a
  // turn; of one and none it is not.
  lemma EmptyConversations(p: Prompt)
    ensures EmptyInReach(Config([[p], [], [p]], None), 1)
    ensures forall c: nat :: !EmptyInReach(Config([[p], []], None), c)
  {
    var two, three := [[p], []], [[p], [], [p]];
    assert two[..1] == [[p]] && three[..2] == two && [[p]][..0] == [];
    assert SumLens([[p]]) == 1;
    assert SumLens(two) == 1;
    assert SumLens(three) == 2;
  }

  // ----- progress -----

  function Work(cfg: Config, s: State): int {
    8 * (Total(cfg) - SumLens(s.replies)) + 5 * |s.queue| + 4 * |s.waiting| + 3 * |s.running| + 6 * |s.putting|
    + if s.aborted then 0 else 1
  }

  lemma WorkNonNegative(cfg: Config, s: State)
    requires Inv(cfg, s)
    ensures Work(cfg, s) >= 0
  {
    TakenIsFetched(cfg, s);
    NoSlack(s.replies, Fetched(s), cfg.original, 0);
  }

  lemma WorkSucceed(cfg: Config, s: State, i: nat, text: string, len: nat)
    requires Enabled(cfg, s, Succeed(i, text, len)) && Indexed(cfg, s)
    requires Works(cfg, s, s.running[i]) && cfg.original[s.running[i]] != []
    ensures Work(cfg, Apply(cfg, s, Succeed(i, text, len))) < Work(cfg, s)
  {
    hide SumLens;
    SumLensGrows(s.replies, s.running[i], Reply(text, len));
  }

  // Every step uses up work, failures and time-outs included.
  lemma WorkStep(cfg: Config, s: State, step: Step)
    requires Inv(cfg, s) && Enabled(cfg, s, step)
    ensures Work(cfg, Apply(cfg, s, step)) < Work(cfg, s)
  {
    StepWorkable(cfg, s, step);
    hide Conserved, Counters, SumLens, ConvOf;
    if step.Succeed? {
      WorkSucceed(cfg, s, step.index, step.text, step.len);
    }
  }

  lemma {:induction false} RunWork(cfg: Config, init: State, steps: seq<Step>)
    requires Init(cfg, init) && After(cfg, init, steps).Some?
    ensures |steps| + Work(cfg, After(cfg, init, steps).value) <= Work(cfg, init)
  {
    if steps != [] {
      hide Init, Work, Apply, Inv;
      RunWork(cfg, init, steps[..|steps| - 1]);
      RunInv(cfg, init, steps[..|steps| - 1]);
      WorkStep(cfg, After(cfg, init, steps[..|steps| - 1]).value, steps[|steps| - 1]);
    }
  }

  // No run is longer than eight steps per turn, five per conversation and one.
  lemma RunBounded(cfg: Config, init: State, steps: seq<Step>)
    requires Init(cfg, init) && After(cfg, init, steps).Some?
    ensures |steps| <= 8 * Total(cfg) + 5 * |cfg.original| + 1
  {
    RunWork(cfg, init, steps);
    RunInv(cfg, init, steps);
    WorkNonNegative(cfg, After(cfg, init, steps).value);
    hide After, Inv;
    SumLensEmpty(init.replies);
  }

  // A run that is not settled can always go on without a failure or time-out.
  lemma NoDeadlock(cfg: Config, s: State)
    requires Inv(cfg, s) && !Settled(cfg, s) && !s.aborted
    requires cfg.maxConcurrency.Some? ==> cfg.maxConcurrency.value >= 1
    ensures exists step :: Enabled(cfg, s, step) && !step.Fail? && !step.Abort?
  {
    if s.running != [] {
      assert Enabled(cfg, s, Succeed(0, [], 0));
    } else if s.putting != [] {
      assert Enabled(cfg, s, Put(0));
    } else if s.waiting != [] {
      assert Enabled(cfg, s, Start(0));
    } else {
      assert Enabled(cfg, s, Fetch);
    }
  }

  // ----- shared prefixes -----

  // Flattening into one-turn conversations keeps the number of requests.
  function Flatten<T>(ss: seq<seq<T>>): seq<seq<T>> {
    if ss == [] then [] else Flatten(ss[..|ss| - 1]) + Singletons(ss[|ss| - 1])
  }

  function Singletons<T>(s: seq<T>): seq<seq<T>> {
    if s == [] then [] else Singletons(s[..|s| - 1]) + [[s[|s| - 1]]]
  }

  lemma {:induction false} SingletonsShape<T>(s: seq<T>)
    ensures |Singletons(s)| == |s| && forall i :: 0 <= i < |s| ==> Singletons(s)[i] == [s[i]]
  {
    if s != [] {
      SingletonsShape(s[..|s| - 1]);
    }
  }

  lemma {:induction false} SingletonsSum<T>(ss: seq<seq<T>>)
    requires forall i :: 0 <= i < |ss| ==> |ss[i]| == 1
    ensures SumLens(ss) == |ss|
  {
    if ss != [] {
      SingletonsSum(ss[..|ss| - 1]);
    }
  }

  lemma {:induction false} FlattenShape<T>(ss: seq<seq<T>>)
    ensures |Flatten(ss)| == SumLens(ss) == SumLens(Flatten(ss))
    ensures forall i :: 0 <= i < |Flatten(ss)| ==> |Flatten(ss)[i]| == 1
  {
    if ss != [] {
      FlattenShape(ss[..|ss| - 1]);
      SingletonsShape(ss[|ss| - 1]);
    }
    SingletonsSum(Flatten(ss));
  }

  // Prompt j of conversation i becomes the one prompt of the request that
  // comes after all earlier ones.
  lemma {:induction false} FlattenInOrder<T>(ss: seq<seq<T>>, i: nat, j: nat)
    requires i < |ss| && j < |ss[i]|
    ensures SumLens(ss[..i]) + j < |Flatten(ss)| && Flatten(ss)[SumLens(ss[..i]) + j] == [ss[i][j]]
  {
    var n := |ss| - 1;
    FlattenShape(ss[..n]);
    SingletonsShape(ss[n]);
    if i < n {
      FlattenInOrder(ss[..n], i, j);
      assert ss[..n][..i] == ss[..i];
    }
  }
}
