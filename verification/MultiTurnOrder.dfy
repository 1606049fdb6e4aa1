// What is asked and in which order requests and responses are handled, over
// whole runs of the multi-turn load generator.
module MultiTurnOrder {
  import opened Options
  import opened Bags
  import opened MultiTurn
  import opened MultiTurnSafety
  import opened MultiTurnTheorems

  // ----- sub-questions -----

  // How often q is asked.
  function AsksOf(said: seq<Utterance>, q: string): nat {
    if said == [] then 0
    else AsksOf(said[..|said| - 1], q) + if said[|said| - 1] == Ask(q) then 1 else 0
  }

  // ... of a client after its first question.
  function LaterOf(said: seq<Utterance>, q: string): nat {
    if said == [] then 0 else AsksOf(said[1..], q)
  }

  // ... of all clients.
  function LaterAsks(rs: seq<Record>, q: string): nat {
    if rs == [] then 0 else LaterAsks(rs[..|rs| - 1], q) + LaterOf(rs[|rs| - 1].said, q)
  }

  lemma LaterSnoc(said: seq<Utterance>, u: Utterance, q: string)
    requires said != []
    ensures LaterOf(said + [u], q) == LaterOf(said, q) + if u == Ask(q) then 1 else 0
  {
    assert (said + [u])[1..] == said[1..] + [u];
    assert (said[1..] + [u])[..|said[1..]|] == said[1..];
  }

  lemma {:induction false} LaterUpdate(rs: seq<Record>, c: nat, r: Record, q: string)
    requires c < |rs|
    ensures LaterAsks(rs[c := r], q) + LaterOf(rs[c].said, q) == LaterAsks(rs, q) + LaterOf(r.said, q)
  {
    var n := |rs| - 1;
    hide LaterOf;
    if c == n {
      assert rs[c := r][..n] == rs[..n];
    } else {
      LaterUpdate(rs[..n], c, r, q);
      assert rs[c := r][..n] == rs[..n][c := r];
    }
  }

  lemma {:induction false} NothingLater(rs: seq<Record>, q: string)
    requires forall i :: 0 <= i < |rs| ==> |rs[i].said| == 1
    ensures LaterAsks(rs, q) == 0
  {
    if rs != [] {
      NothingLater(rs[..|rs| - 1], q);
      assert rs[|rs| - 1].said[1..] == [];
    }
  }

  // Every client's first question is the payload it began with.
  ghost predicate FirstAsked(init: State, s: State) {
    && |s.records| == |init.ready|
    && forall c :: 0 <= c < |s.records| ==>
         s.records[c].said != [] && s.records[c].said[0] == Ask(init.ready[c].payload)
  }

  // Of the sub-questions only the last ones are gone, and these are what the
  // clients were asked after their first questions, each once.
  ghost predicate AskedOnce(init: State, s: State) {
    s.questions <= init.questions && forall q: string :: AskedAsOften(init, s, q)
  }

  ghost predicate AskedAsOften(init: State, s: State, q: string)
    requires s.questions <= init.questions
  {
    LaterAsks(s.records, q) == multiset(init.questions[|s.questions|..])[q]
  }

  lemma TailSplits(qs: seq<string>, n: nat, q: string)
    requires n < |qs|
    ensures multiset(qs[n..])[q] == multiset(qs[n + 1..])[q] + if q == qs[n] then 1 else 0
  {
    assert qs[n..] == [qs[n]] + qs[n + 1..];
  }

  lemma SaidStep(cfg: Config, s: State, step: Step)
    requires Enabled(cfg, s, step) && !Apply(cfg, s, step).handler.Crashed?
    ensures var s' := Apply(cfg, s, step);
            if step.Take? && s.responses[0].success then
              var c := s.responses[0].client;
              && c < |s.records| && s'.questions == s.questions
              && s'.records == s.records[c := Replied(s.records[c], s.responses[0].text)]
            else if step.Requeue? && s.records[s.handler.client].round < cfg.rounds then
              var c, n := s.handler.client, |s.questions| - 1;
              && s.questions != [] && s'.questions == s.questions[..n]
              && s'.records == s.records[c := Asked(s.records[c], s.questions[n])]
            else s'.questions == s.questions && s'.records == s.records
  {
  }

  lemma FirstAskedStep(cfg: Config, init: State, s: State, step: Step)
    requires Enabled(cfg, s, step) && !Apply(cfg, s, step).handler.Crashed? && FirstAsked(init, s)
    ensures FirstAsked(init, Apply(cfg, s, step))
  {
    SaidStep(cfg, s, step);
    hide Apply, Enabled;
  }

  lemma AskedOftenStep(cfg: Config, init: State, s: State, step: Step, q: string)
    requires Enabled(cfg, s, step) && !Apply(cfg, s, step).handler.Crashed?
    requires FirstAsked(init, s) && s.questions <= init.questions && AskedAsOften(init, s, q)
    ensures Apply(cfg, s, step).questions <= init.questions && AskedAsOften(init, Apply(cfg, s, step), q)
  {
    SaidStep(cfg, s, step);
    var s' := Apply(cfg, s, step);
    hide Apply, Enabled, LaterAsks, LaterOf;
    if step.Take? && s.responses[0].success {
      var c := s.responses[0].client;
      LaterUpdate(s.records, c, s'.records[c], q);
      LaterSnoc(s.records[c].said, Reply(s.responses[0].text), q);
    } else if step.Requeue? && s.records[s.handler.client].round < cfg.rounds {
      var c, n := s.handler.client, |s.questions| - 1;
      LaterUpdate(s.records, c, s'.records[c], q);
      LaterSnoc(s.records[c].said, Ask(s.questions[n]), q);
      TailSplits(init.questions, n, q);
    }
  }

  lemma AskedStep(cfg: Config, init: State, s: State, step: Step)
    requires Enabled(cfg, s, step) && !Apply(cfg, s, step).handler.Crashed?
    requires FirstAsked(init, s) && AskedOnce(init, s)
    ensures AskedOnce(init, Apply(cfg, s, step))
  {
    hide Apply, Enabled, AskedAsOften, FirstAsked;
    forall q: string
      ensures Apply(cfg, s, step).questions <= init.questions && AskedAsOften(init, Apply(cfg, s, step), q)
    {
      AskedOftenStep(cfg, init, s, step, q);
    }
    AskedOftenStep(cfg, init, s, step, "");
  }

  // In every state of every run, failures included, the sub-questions left are
  // a prefix of the list, and those gone were asked once each, of some client.
  lemma {:induction false} EachQuestionOnce(cfg: Config, init: State, steps: seq<Step>)
    requires Init(cfg, init) && After(cfg, init, steps).Some?
    ensures FirstAsked(init, After(cfg, init, steps).value) && AskedOnce(init, After(cfg, init, steps).value)
  {
    if steps == [] {
      forall q: string ensures AskedAsOften(init, init, q) {
        NothingLater(init.records, q);
      }
    } else {
      var before := steps[..|steps| - 1];
      EachQuestionOnce(cfg, init, before);
      RunInv(cfg, init, before);
      RunInv(cfg, init, steps);
      hide Init, FirstAsked, AskedOnce;
      FirstAskedStep(cfg, init, After(cfg, init, before).value, steps[|steps| - 1]);
      AskedStep(cfg, init, After(cfg, init, before).value, steps[|steps| - 1]);
    }
  }

  // ----- requests -----

  // The request that a step makes: its client has rounds left.
  function Made(cfg: Config, s: State, step: Step): seq<Request> {
    if step.Requeue? && s.handler.Counted? && s.handler.client < |s.records| && s.questions != []
       && s.records[s.handler.client].round < cfg.rounds
    then [Following(s, s.handler.client)] else []
  }

  // The request that a step appends to the ready queue: the one it makes, or
  // with the barrier the next of those that are let go.
  function Appended(cfg: Config, s: State, step: Step): seq<Request> {
    if step.Flush? && s.handler.Flushing? then (if s.handler.rest == [] then [] else [s.handler.rest[0]])
    else if cfg.barrier then []
    else Made(cfg, s, step)
  }

  // The request that a step takes out of the ready queue.
  function Taken(s: State, step: Step): seq<Request> {
    if step.PopRequest? && step.index < |s.ready| then [s.ready[step.index]] else []
  }

  // Every step leaves the ready queue alone, pops from it, or appends to it as
  // the queue does.
  lemma ReadyStep(cfg: Config, s: State, step: Step)
    requires Enabled(cfg, s, step) && !Apply(cfg, s, step).handler.Crashed?
    ensures var s', policy := Apply(cfg, s, step), if cfg.fifo then "fifo" else "random";
            if step.PopRequest? then Pops(s.ready, policy, Got(s.ready[step.index]), s'.ready)
            else if Appended(cfg, s, step) == [] then s'.ready == s.ready
            else Appends(s.ready, Appended(cfg, s, step)[0], s'.ready)
  {
    if step.PopRequest? {
      PopIsStep(cfg, s, Got(s.ready[step.index]), Apply(cfg, s, step).ready);
      assert PopStep(cfg, s, step, Got(s.ready[step.index]), Apply(cfg, s, step).ready);
    }
  }

  // Requests held back by the barrier, those let go first.
  function HeldBack(s: State): seq<Request> {
    (if s.handler.Flushing? then s.handler.rest else []) + s.barrier
  }

  lemma FlushHeldBack(cfg: Config, s: State)
    requires Enabled(cfg, s, Flush)
    ensures HeldBack(s) == Appended(cfg, s, Flush) + HeldBack(Apply(cfg, s, Flush))
  {
    if s.handler.rest != [] {
      var tail := Drop(s.handler.rest, 0);
      assert s.handler.rest == [s.handler.rest[0]] + tail;
      assert [s.handler.rest[0]] + tail + s.barrier == [s.handler.rest[0]] + (tail + s.barrier);
    }
  }

  lemma RequeueHeldBack(cfg: Config, s: State)
    requires Enabled(cfg, s, Requeue) && !Apply(cfg, s, Requeue).handler.Crashed? && BarrierShape(cfg, s)
    ensures HeldBack(s) + Made(cfg, s, Requeue) == Appended(cfg, s, Requeue) + HeldBack(Apply(cfg, s, Requeue))
  {
    assert HeldBack(s) == s.barrier;
  }

  lemma OthersHeldBack(cfg: Config, s: State, step: Step)
    requires Enabled(cfg, s, step) && !step.Flush? && !step.Requeue?
    ensures HeldBack(Apply(cfg, s, step)) == HeldBack(s)
  {
  }

  // The barrier lets requests go in the order they came.
  lemma HeldBackStep(cfg: Config, s: State, step: Step)
    requires Enabled(cfg, s, step) && !Apply(cfg, s, step).handler.Crashed? && BarrierShape(cfg, s)
    ensures HeldBack(s) + Made(cfg, s, step) == Appended(cfg, s, step) + HeldBack(Apply(cfg, s, step))
  {
    hide HeldBack, Apply;
    if step.Flush? {
      FlushHeldBack(cfg, s);
      assert HeldBack(s) + [] == HeldBack(s);
    } else if step.Requeue? {
      RequeueHeldBack(cfg, s);
    } else {
      OthersHeldBack(cfg, s, step);
      assert HeldBack(s) + [] == [] + HeldBack(s);
    }
  }

  // What the steps of a run yield, one after the other.
  function Trace<T>(cfg: Config, s: State, steps: seq<Step>, f: (State, Step) -> seq<T>): seq<T> {
    if steps == [] then []
    else
      var init, last := steps[..|steps| - 1], steps[|steps| - 1];
      Trace(cfg, s, init, f) + match After(cfg, s, init) case Some(mid) => f(mid, last) case None => []
  }

  function MadeBy(cfg: Config): (State, Step) -> seq<Request> {
    (s: State, step: Step) => Made(cfg, s, step)
  }

  function AppendedBy(cfg: Config): (State, Step) -> seq<Request> {
    (s: State, step: Step) => Appended(cfg, s, step)
  }

  const TakenBy: (State, Step) -> seq<Request> := (s: State, step: Step) => Taken(s, step)

  lemma Chained<T>(ins: seq<T>, outs: seq<T>, mid: seq<T>, put: seq<T>, got: seq<T>, last: seq<T>)
    requires ins == outs + mid && mid + put == got + last
    ensures ins + put == outs + got + last
  {
    assert outs + mid + put == outs + (mid + put);
    assert outs + got + last == outs + (got + last);
  }

  // Requests go to the ready queue in the order they are made, those held back
  // by the barrier last.
  lemma {:induction false} MadeInOrder(cfg: Config, init: State, steps: seq<Step>)
    requires Init(cfg, init) && After(cfg, init, steps).Some?
    ensures Trace(cfg, init, steps, MadeBy(cfg))
         == Trace(cfg, init, steps, AppendedBy(cfg)) + HeldBack(After(cfg, init, steps).value)
  {
    if steps != [] {
      var before, step := steps[..|steps| - 1], steps[|steps| - 1];
      MadeInOrder(cfg, init, before);
      RunInv(cfg, init, before);
      RunInv(cfg, init, steps);
      var s, s' := After(cfg, init, before).value, After(cfg, init, steps).value;
      assert BarrierShape(cfg, s) && !s'.handler.Crashed?;
      hide Init, Inv, Made, Appended, HeldBack, BarrierShape, Enabled, Apply;
      HeldBackStep(cfg, s, step);
      Chained(Trace(cfg, init, before, MadeBy(cfg)), Trace(cfg, init, before, AppendedBy(cfg)), HeldBack(s),
              Made(cfg, s, step), Appended(cfg, s, step), HeldBack(s'));
    }
  }

  // What goes in and what comes out, in order under fifo.
  ghost predicate Moves(fifo: bool, before: seq<Request>, put: seq<Request>, got: seq<Request>, after: seq<Request>) {
    && (fifo ==> before + put == got + after)
    && multiset(before) + multiset(put) == multiset(got) + multiset(after)
  }

  lemma PopMoves(cfg: Config, before: seq<Request>, r: Request, after: seq<Request>)
    requires Pops(before, if cfg.fifo then "fifo" else "random", Got(r), after)
    ensures Moves(cfg.fifo, before, [], [r], after)
  {
    var i :| 0 <= i < |before| && (cfg.fifo ==> i == 0) && r == before[i] && after == Drop(before, i);
    DropBag(before, i);
    if cfg.fifo {
      assert before + [] == [before[0]] + before[1..];
    }
  }

  lemma DropBag<T>(q: seq<T>, i: nat)
    requires i < |q|
    ensures multiset(q) + multiset([]) == multiset([q[i]]) + multiset(Drop(q, i))
  {
    assert q == q[..i] + [q[i]] + q[i + 1..];
  }

  lemma AppendMoves(fifo: bool, before: seq<Request>, r: Request, after: seq<Request>)
    requires Appends(before, r, after)
    ensures Moves(fifo, before, [r], [], after)
  {
    assert after == before + [r];
  }

  lemma ReadyMoves(cfg: Config, s: State, step: Step)
    requires Enabled(cfg, s, step) && !Apply(cfg, s, step).handler.Crashed?
    ensures Moves(cfg.fifo, s.ready, Appended(cfg, s, step), Taken(s, step), Apply(cfg, s, step).ready)
  {
    ReadyStep(cfg, s, step);
    var s', put := Apply(cfg, s, step), Appended(cfg, s, step);
    assert |put| <= 1 && (step.PopRequest? ==> put == []);
    if step.PopRequest? {
      hide Apply, Appended;
      PopMoves(cfg, s.ready, s.ready[step.index], s'.ready);
    } else {
      hide Apply, Appended, Appends;
      if put != [] {
        assert put == [put[0]];
        AppendMoves(cfg.fifo, s.ready, put[0], s'.ready);
      }
    }
  }

  lemma MovesOn(fifo: bool, first: seq<Request>, put: seq<Request>, got: seq<Request>, mid: seq<Request>,
                put': seq<Request>, got': seq<Request>, last: seq<Request>)
    requires Moves(fifo, first, put, got, mid) && Moves(fifo, mid, put', got', last)
    ensures Moves(fifo, first, put + put', got + got', last)
  {
    BagsOn(multiset(first), multiset(put), multiset(got), multiset(mid), multiset(put'), multiset(got'), multiset(last));
    assert multiset(put + put') == multiset(put) + multiset(put') && multiset(got + got') == multiset(got) + multiset(got');
    if fifo {
      Chained(first + put, got, mid, put', got', last);
      assert first + (put + put') == first + put + put';
    }
  }

  lemma BagsOn<T>(first: multiset<T>, put: multiset<T>, got: multiset<T>, mid: multiset<T>,
                  put': multiset<T>, got': multiset<T>, last: multiset<T>)
    requires first + put == got + mid && mid + put' == got' + last
    ensures first + (put + put') == got + got' + last
  {
    forall x: T ensures (first + (put + put'))[x] == (got + got' + last)[x] {
      assert (first + put)[x] == (got + mid)[x] && (mid + put')[x] == (got' + last)[x];
    }
  }

  // The ready queue over a whole run: under fifo requests are sent in the
  // order they were put in, and under any policy none is lost or doubled.
  lemma {:induction false} ReadyInOrder(cfg: Config, init: State, steps: seq<Step>)
    requires Init(cfg, init) && After(cfg, init, steps).Some?
    ensures Moves(cfg.fifo, init.ready, Trace(cfg, init, steps, AppendedBy(cfg)), Trace(cfg, init, steps, TakenBy),
                  After(cfg, init, steps).value.ready)
  {
    if steps != [] {
      var before, step := steps[..|steps| - 1], steps[|steps| - 1];
      ReadyInOrder(cfg, init, before);
      RunInv(cfg, init, steps);
      var s, s' := After(cfg, init, before).value, After(cfg, init, steps).value;
      assert !s'.handler.Crashed?;
      hide Init, Inv, Appended, Taken, Moves, Enabled, Apply;
      ReadyMoves(cfg, s, step);
      MovesOn(cfg.fifo, init.ready, Trace(cfg, init, before, AppendedBy(cfg)), Trace(cfg, init, before, TakenBy), s.ready,
              Appended(cfg, s, step), Taken(s, step), s'.ready);
    }
  }

  // ----- responses -----

  const DeliveredBy: (State, Step) -> seq<Response> :=
    (s: State, step: Step) => if step.Deliver? && step.index < |s.answered| then [s.answered[step.index]] else []

  const HandledBy: (State, Step) -> seq<Response> :=
    (s: State, step: Step) => if step.Take? && s.responses != [] then [s.responses[0]] else []

  lemma ResponsesStep(cfg: Config, s: State, step: Step)
    requires Enabled(cfg, s, step)
    ensures s.responses + DeliveredBy(s, step) == HandledBy(s, step) + Apply(cfg, s, step).responses
  {
    if step.Take? {
      assert s.responses == [s.responses[0]] + Drop(s.responses, 0);
    }
  }

  // Responses are handled in the order they are delivered, none twice.
  lemma {:induction false} HandledInOrder(cfg: Config, init: State, steps: seq<Step>)
    requires Init(cfg, init) && After(cfg, init, steps).Some?
    ensures Trace(cfg, init, steps, DeliveredBy)
         == Trace(cfg, init, steps, HandledBy) + After(cfg, init, steps).value.responses
  {
    if steps != [] {
      var before, step := steps[..|steps| - 1], steps[|steps| - 1];
      HandledInOrder(cfg, init, before);
      var s, s' := After(cfg, init, before).value, After(cfg, init, steps).value;
      ResponsesStep(cfg, s, step);
      hide Init, Apply;
      Chained(Trace(cfg, init, before, DeliveredBy), Trace(cfg, init, before, HandledBy), s.responses,
              DeliveredBy(s, step), HandledBy(s, step), s'.responses);
    }
  }
}
