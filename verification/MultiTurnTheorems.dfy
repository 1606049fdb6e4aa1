// Whole runs of the multi-turn load generator.
module MultiTurnTheorems {
  import opened Options
  import opened Bags
  import opened MultiTurn
  import opened MultiTurnSafety

  // The barrier list is used only with the barrier on, and is emptied as soon
  // as it holds every client.
  ghost predicate BarrierShape(cfg: Config, s: State) {
    && (!cfg.barrier ==> s.barrier == [])
    && (s.barrier != [] ==> |s.barrier| < cfg.clients)
  }

  ghost predicate Inv(cfg: Config, s: State) {
    && Conserved(cfg, s) && !s.handler.Crashed?
    && Counters(cfg, s) && Questions(cfg, s)
    && Rounds(cfg, s) && Transcripts(cfg, s) && Payloads(s)
    && (cfg.barrier ==> Level(cfg, s))
    && BarrierShape(cfg, s)
  }

  // ----- every state of every run -----

  lemma InitInv(cfg: Config, s: State)
    requires Init(cfg, s)
    ensures Inv(cfg, s)
  {
    forall c: nat ensures Places(s, c) == if c < cfg.clients then 1 else 0 {
      CountingQueue(s.ready, ReqClient, c);
    }
    TotalZero(s.records, RoundOf);
    TotalZero(s.records, Capped(Max(cfg.rounds - 1, 0)));
    forall c: nat | c < cfg.clients ensures TranscriptOf(s, c) && RoundsOf(cfg, s, c) && LevelOf(s, c) {
      CountingQueue(s.ready, ReqClient, c);
      TextSnoc([], s.records[c].said[0]);
      assert [] + s.records[c].said == s.records[c].said;
    }
  }

  lemma TakenIsClient(cfg: Config, s: State, step: Step)
    requires Conserved(cfg, s) && Enabled(cfg, s, step)
    ensures step.Take? ==> s.responses[0].client < cfg.clients
  {
    if step.Take? {
      NumIn(s.responses, 0, RespClient);
      assert Places(s, s.responses[0].client) > 0;
    }
  }

  lemma ShapeStep(cfg: Config, s: State, step: Step)
    requires BarrierShape(cfg, s) && Enabled(cfg, s, step) && !Apply(cfg, s, step).handler.Crashed?
    requires Conserved(cfg, s) && (step.Take? ==> s.responses[0].client < |s.records|)
    ensures BarrierShape(cfg, Apply(cfg, s, step))
  {
    hide Apply, Num, Live;
    match step
    case Take => TakeMoves(cfg, s, 0);
    case Requeue =>
      RequeueMoves(cfg, s, 0);
      assert Places(s, s.handler.client) > 0;
    case _ => QuietStep(cfg, s, step, 0);
  }

  lemma SameClients(cfg: Config, s: State, step: Step)
    requires Enabled(cfg, s, step)
    ensures |Apply(cfg, s, step).records| == |s.records|
  {
  }

  lemma ConservedStep(cfg: Config, s: State, step: Step)
    requires Conserved(cfg, s) && Enabled(cfg, s, step) && !Apply(cfg, s, step).handler.Crashed?
    requires step.Take? ==> s.responses[0].client < |s.records|
    ensures Conserved(cfg, Apply(cfg, s, step))
  {
    hide Apply, Places;
    forall c: nat ensures Places(Apply(cfg, s, step), c) == Places(s, c) {
      PlacesStep(cfg, s, step, c);
    }
  }

  lemma RecordsStep(cfg: Config, s: State, step: Step)
    requires Conserved(cfg, s) && Rounds(cfg, s) && Transcripts(cfg, s) && (cfg.barrier ==> Level(cfg, s))
    requires Enabled(cfg, s, step) && !Apply(cfg, s, step).handler.Crashed?
    requires step.Take? ==> s.responses[0].client < |s.records|
    ensures var s' := Apply(cfg, s, step);
            Rounds(cfg, s') && Transcripts(cfg, s') && (cfg.barrier ==> Level(cfg, s'))
  {
    SameClients(cfg, s, step);
    hide Apply, Conserved, RoundsOf, TranscriptOf, LevelOf;
    forall c: nat | c < cfg.clients ensures RoundsOf(cfg, Apply(cfg, s, step), c) {
      RoundsStep(cfg, s, step, c);
    }
    forall c: nat | c < cfg.clients ensures TranscriptOf(Apply(cfg, s, step), c) {
      TranscriptStep(cfg, s, step, c);
    }
    if cfg.barrier {
      forall c: nat | c < cfg.clients ensures LevelOf(Apply(cfg, s, step), c) {
        LevelStep(cfg, s, step, c);
      }
    }
  }

  lemma InvStep(cfg: Config, s: State, step: Step)
    requires Inv(cfg, s) && Enabled(cfg, s, step)
    ensures Inv(cfg, Apply(cfg, s, step))
  {
    assert |s.records| == cfg.clients;
    hide Conserved, Counters, Questions, Rounds, Transcripts, Payloads, Level, BarrierShape, Apply, Enabled;
    TakenIsClient(cfg, s, step);
    NoCrash(cfg, s, step);
    ConservedStep(cfg, s, step);
    CountersStep(cfg, s, step);
    QuestionsStep(cfg, s, step);
    RecordsStep(cfg, s, step);
    PayloadsStep(cfg, s, step);
    ShapeStep(cfg, s, step);
  }

  // The state after a list of steps, if each is enabled in turn.
  function After(cfg: Config, s: State, steps: seq<Step>): Option<State> {
    if steps == [] then Some(s)
    else
      match After(cfg, s, steps[..|steps| - 1])
      case None => None
      case Some(mid) =>
        var step := steps[|steps| - 1];
        if Enabled(cfg, mid, step) then Some(Apply(cfg, mid, step)) else None
  }

  lemma {:induction false} RunInv(cfg: Config, init: State, steps: seq<Step>)
    requires Init(cfg, init) && After(cfg, init, steps).Some?
    ensures Inv(cfg, After(cfg, init, steps).value)
  {
    if steps == [] {
      InitInv(cfg, init);
    } else {
      hide Inv, Init;
      RunInv(cfg, init, steps[..|steps| - 1]);
      InvStep(cfg, After(cfg, init, steps[..|steps| - 1]).value, steps[|steps| - 1]);
    }
  }

  // Round-barrier safety, failures included: while some client's request for
  // round r is ready, in flight or awaiting handling, every client has
  // completed at least r rounds; and no two clients are ever more than one
  // round apart.
  lemma BarrierSafety(cfg: Config, init: State, steps: seq<Step>, c: nat, d: nat)
    requires cfg.barrier && Init(cfg, init) && After(cfg, init, steps).Some? && c < cfg.clients && d < cfg.clients
    ensures var s := After(cfg, init, steps).value;
            |s.records| == cfg.clients
            && (Live(s, c) > 0 ==> s.records[d].round >= s.records[c].round)
            && s.records[d].round <= s.records[c].round + 1
  {
    hide Init, After, Live, Num;
    RunInv(cfg, init, steps);
    var s := After(cfg, init, steps).value;
    assert LevelOf(s, c) && LevelOf(s, d);
  }

  // Conservation: each client is in exactly one place, completed requests are
  // the client rounds, the handler never fails, and requests sent but not
  // completed, failed ones among them, never exceed the limit.
  lemma ClientConservation(cfg: Config, init: State, steps: seq<Step>, c: nat)
    requires Init(cfg, init) && After(cfg, init, steps).Some? && c < cfg.clients
    ensures var s := After(cfg, init, steps).value;
            && Places(s, c) == 1
            && s.completed + Uncounted(s) == Total(s.records, RoundOf)
            && !s.handler.Crashed?
            && s.sent - s.completed <= cfg.maxParallel
            && |s.inflight| + |s.answered| + |s.responses| + |s.failed| + |s.lost| <= cfg.maxParallel
  {
    hide Init, After;
    RunInv(cfg, init, steps);
    hide Places, Rounds, Transcripts, Level;
    assert Conserved(cfg, After(cfg, init, steps).value);
  }

  // Failed requests keep their slots: once as many have failed as may run in
  // parallel, the sender may not even look for a request.
  lemma FailuresHoldSlots(cfg: Config, s: State)
    requires Inv(cfg, s) && |s.failed| + |s.lost| >= cfg.maxParallel
    ensures s.sender.Check? && !Enabled(cfg, s, Permit)
  {
    hide Conserved, Rounds, Transcripts, Level, Payloads;
  }

  lemma FailuresStay(cfg: Config, s: State, step: Step)
    requires Enabled(cfg, s, step)
    ensures |Apply(cfg, s, step).failed| >= |s.failed| && |Apply(cfg, s, step).lost| >= |s.lost|
    ensures Apply(cfg, s, step).sent == if step.Send? then s.sent + 1 else s.sent
  {
  }

  // ... and no continuation of the run, however long, sends another request.
  lemma {:induction false} SenderStopsForGood(cfg: Config, s: State, steps: seq<Step>)
    requires Inv(cfg, s) && |s.failed| + |s.lost| >= cfg.maxParallel && After(cfg, s, steps).Some?
    ensures var s' := After(cfg, s, steps).value;
            Inv(cfg, s') && |s'.failed| + |s'.lost| >= cfg.maxParallel && s'.sent == s.sent
  {
    if steps != [] {
      SenderStopsForGood(cfg, s, steps[..|steps| - 1]);
      var mid, step := After(cfg, s, steps[..|steps| - 1]).value, steps[|steps| - 1];
      FailuresHoldSlots(cfg, mid);
      hide Inv, Apply;
      InvStep(cfg, mid, step);
      FailuresStay(cfg, mid, step);
    }
  }

  // ----- progress -----

  predicate Polls(step: Step) {
    step.Permit? || step.PopNothing?
  }

  function HandlerWork(h: Handler): nat {
    match h
    case Idle => 0
    case Updated(_) => 12
    case Counted(_) => 11
    case Flushing(rest) => 9 * |rest| + 1
    case Crashed => 0
  }

  // Work left: sixteen units for each outstanding completion, plus what the
  // request still has to go through in its current round.
  function Work(cfg: Config, s: State): int {
    16 * (cfg.clients * Max(cfg.rounds, 1) - s.completed - Uncounted(s))
    + 10 * |s.barrier| + 8 * |s.ready| + (if s.sender.Holding? then 7 else 0)
    + 6 * |s.inflight| + 5 * |s.answered| + 4 * |s.responses| + HandlerWork(s.handler)
  }

  // Every step but a poll of the sender uses up work, failures included.
  lemma WorkStep(cfg: Config, s: State, step: Step)
    requires Enabled(cfg, s, step) && !Apply(cfg, s, step).handler.Crashed?
    ensures if Polls(step) then Work(cfg, Apply(cfg, s, step)) == Work(cfg, s)
            else Work(cfg, Apply(cfg, s, step)) < Work(cfg, s)
  {
    if step.Requeue? {
      WorkRequeue(cfg, s);
    } else {
      hide NextRound;
    }
  }

  lemma WorkRequeue(cfg: Config, s: State)
    requires Enabled(cfg, s, Requeue) && !Apply(cfg, s, Requeue).handler.Crashed?
    ensures Work(cfg, Apply(cfg, s, Requeue)) < Work(cfg, s)
  {
    var t := NextRound(cfg, s, s.handler.client);
    assert t.completed == s.completed && Uncounted(t) == Uncounted(s) == 0;
  }

  lemma WorkNonNegative(cfg: Config, s: State)
    requires Inv(cfg, s)
    ensures Work(cfg, s) >= 0
  {
    hide Conserved, Questions, Transcripts, Level, Payloads;
    forall i | 0 <= i < |s.records| ensures s.records[i].round <= Max(cfg.rounds, 1) {
      assert RoundsOf(cfg, s, i);
    }
    RoundsBound(s.records, Max(cfg.rounds, 1));
  }

  lemma {:induction false} RoundsBound(rs: seq<Record>, k: nat)
    requires forall i :: 0 <= i < |rs| ==> rs[i].round <= k
    ensures Total(rs, RoundOf) <= |rs| * k
  {
    if rs != [] {
      RoundsBound(rs[..|rs| - 1], k);
      assert |rs| * k == (|rs| - 1) * k + k;
    }
  }

  function Moves(steps: seq<Step>): nat {
    if steps == [] then 0 else Moves(steps[..|steps| - 1]) + if Polls(steps[|steps| - 1]) then 0 else 1
  }

  lemma {:induction false} RunWork(cfg: Config, init: State, steps: seq<Step>)
    requires Init(cfg, init) && After(cfg, init, steps).Some?
    ensures Moves(steps) + Work(cfg, After(cfg, init, steps).value) <= Work(cfg, init)
  {
    if steps != [] {
      hide Init, Work, Apply, Inv;
      var last := steps[|steps| - 1];
      RunWork(cfg, init, steps[..|steps| - 1]);
      var mid := After(cfg, init, steps[..|steps| - 1]).value;
      RunInv(cfg, init, steps[..|steps| - 1]);
      RunInv(cfg, init, steps);
      NotCrashed(cfg, Apply(cfg, mid, last));
      WorkStep(cfg, mid, last);
    }
  }

  lemma NotCrashed(cfg: Config, s: State)
    requires Inv(cfg, s)
    ensures !s.handler.Crashed?
  {
  }

  // No run, failing or not, has more than 16 * rounds + 8 steps per client
  // besides the sender's polls.
  lemma RunBounded(cfg: Config, init: State, steps: seq<Step>)
    requires Init(cfg, init) && After(cfg, init, steps).Some?
    ensures Moves(steps) <= 16 * (cfg.clients * Max(cfg.rounds, 1)) + 8 * cfg.clients
  {
    RunWork(cfg, init, steps);
    RunInv(cfg, init, steps);
    WorkNonNegative(cfg, After(cfg, init, steps).value);
  }

  // Nothing but polling can happen any more.
  ghost predicate Quiescent(cfg: Config, s: State) {
    && s.inflight == [] && s.answered == [] && s.responses == [] && s.handler.Idle?
    && !s.sender.Holding?
    && (s.ready == [] || (s.sender.Check? && s.sent - s.completed >= cfg.maxParallel))
  }

  predicate Fails(step: Step) {
    step.Lose? || (step.Answer? && !step.success)
  }

  // Whenever a run is not quiescent, a step that uses up work and does not fail
  // is enabled, at once or after one poll.
  lemma NoDeadlock(cfg: Config, s: State)
    requires !s.handler.Crashed? && !Quiescent(cfg, s)
    ensures (exists step :: Enabled(cfg, s, step) && !Polls(step) && !Fails(step))
         || (Enabled(cfg, s, Permit) && Enabled(cfg, Apply(cfg, s, Permit), PopRequest(0)))
  {
    if s.sender.Holding? {
      assert Enabled(cfg, s, Send);
    } else if s.inflight != [] {
      assert Enabled(cfg, s, Answer(0, true, []));
    } else if s.answered != [] {
      assert Enabled(cfg, s, Deliver(0));
    } else if s.handler.Updated? {
      assert Enabled(cfg, s, Count);
    } else if s.handler.Counted? {
      assert Enabled(cfg, s, Requeue);
    } else if s.handler.Flushing? {
      assert Enabled(cfg, s, Flush);
    } else if s.responses != [] {
      assert Enabled(cfg, s, Take);
    } else if s.sender.Permitted? {
      assert Enabled(cfg, s, PopRequest(0));
    }
  }

  // Without failures nobody is left at the barrier when a run falls quiet.
  lemma QuietBarrierEmpty(cfg: Config, s: State)
    requires Inv(cfg, s) && Quiescent(cfg, s) && s.ready == [] && s.failed == multiset{} && s.lost == multiset{}
    ensures s.barrier == []
  {
    if s.barrier != [] {
      var d := s.barrier[0].client;
      NumIn(s.barrier, 0, ReqClient);
      assert Places(s, d) == 1;
      assert LevelOf(s, d) && RoundsOf(cfg, s, d);
      forall c: nat | c < cfg.clients ensures Num(s.barrier, ReqClient, c) == 1 {
        assert LevelOf(s, c) && RoundsOf(cfg, s, c);
        assert Places(s, c) == 1;
      }
      AllPresent(s.barrier, cfg.clients);
    }
  }

  lemma AllPresent(q: seq<Request>, n: nat)
    requires forall c: nat :: c < n ==> Num(q, ReqClient, c) == 1
    ensures |q| >= n
  {
    WhoSize(q, ReqClient);
    var m := Who(q, ReqClient);
    assert AllBelow(n) <= m by {
      forall c: nat | c < n ensures m[c] == 1 { assert Num(q, ReqClient, c) == 1; }
    }
    assert |m| == |m - AllBelow(n)| + |AllBelow(n)|;
  }

  // A run that falls quiet has completed exactly clients * rounds requests if
  // and only if none failed; and then every client is finished.
  lemma QuietMeansDone(cfg: Config, s: State)
    requires Inv(cfg, s) && Quiescent(cfg, s) && cfg.maxParallel >= 1 && cfg.rounds >= 1
    ensures s.completed == cfg.clients * cfg.rounds <==> s.failed == multiset{} && s.lost == multiset{}
    ensures s.failed == multiset{} && s.lost == multiset{} ==> forall c: nat :: c < cfg.clients ==> s.finished[c] == 1
  {
    if s.failed == multiset{} && s.lost == multiset{} {
      QuietAllFinished(cfg, s);
    } else {
      GivenUpNotDone(cfg, s);
    }
  }

  lemma QuietAllFinished(cfg: Config, s: State)
    requires Inv(cfg, s) && Quiescent(cfg, s) && s.failed == multiset{} && s.lost == multiset{}
    requires cfg.maxParallel >= 1 && cfg.rounds >= 1
    ensures s.completed == cfg.clients * cfg.rounds
    ensures forall c: nat :: c < cfg.clients ==> s.finished[c] == 1
  {
    assert s.sent == s.completed && s.ready == [];
    QuietBarrierEmpty(cfg, s);
    forall c: nat | c < cfg.clients ensures s.finished[c] == 1 && s.records[c].round == cfg.rounds {
      assert Places(s, c) == 1 && RoundsOf(cfg, s, c);
    }
    RoundsExact(s.records, cfg.rounds);
  }

  // A client that was given up on leaves completions missing for good.
  lemma GivenUpNotDone(cfg: Config, s: State)
    requires Inv(cfg, s) && cfg.rounds >= 1 && (s.failed != multiset{} || s.lost != multiset{})
    ensures s.completed < cfg.clients * cfg.rounds
  {
    var c :| s.failed[c] + s.lost[c] > 0;
    assert Places(s, c) == if c < cfg.clients then 1 else 0;
    forall i | 0 <= i < |s.records| ensures s.records[i].round <= cfg.rounds {
      assert RoundsOf(cfg, s, i);
    }
    assert RoundsOf(cfg, s, c);
    hide Conserved, Rounds, Transcripts, Level, Payloads, Questions;
    NoSlack(s.records, multiset{}, cfg.rounds, c);
  }

  lemma {:induction false} RoundsExact(rs: seq<Record>, k: nat)
    requires forall i :: 0 <= i < |rs| ==> rs[i].round == k
    ensures Total(rs, RoundOf) == |rs| * k
  {
    if rs != [] {
      RoundsExact(rs[..|rs| - 1], k);
      assert |rs| * k == (|rs| - 1) * k + k;
    }
  }

  // No request is lost and none is answered without success.
  ghost predicate FailureFree(steps: seq<Step>) {
    forall i :: 0 <= i < |steps| ==> !Fails(steps[i])
  }

  ghost predicate AllWell(s: State) {
    && s.failed == multiset{} && s.lost == multiset{}
    && (forall i :: 0 <= i < |s.answered| ==> s.answered[i].success)
    && (forall i :: 0 <= i < |s.responses| ==> s.responses[i].success)
  }

  lemma AllWellStep(cfg: Config, s: State, step: Step)
    requires AllWell(s) && Enabled(cfg, s, step) && !Fails(step)
    ensures AllWell(Apply(cfg, s, step))
  {
  }

  lemma {:induction false} FailureFreeRun(cfg: Config, init: State, steps: seq<Step>)
    requires Init(cfg, init) && After(cfg, init, steps).Some? && FailureFree(steps)
    ensures AllWell(After(cfg, init, steps).value)
  {
    if steps != [] {
      FailureFreeRun(cfg, init, steps[..|steps| - 1]);
      hide Init, Apply;
      AllWellStep(cfg, After(cfg, init, steps[..|steps| - 1]).value, steps[|steps| - 1]);
    }
  }

  // Every failure-free run that falls quiet has completed exactly clients *
  // rounds requests, whatever the interleaving, the barrier and the policy.
  lemma FailureFreeRunCompletes(cfg: Config, init: State, steps: seq<Step>)
    requires Init(cfg, init) && After(cfg, init, steps).Some? && FailureFree(steps)
    requires cfg.maxParallel >= 1 && cfg.rounds >= 1 && Quiescent(cfg, After(cfg, init, steps).value)
    ensures After(cfg, init, steps).value.completed == cfg.clients * cfg.rounds
    ensures forall c: nat :: c < cfg.clients ==> After(cfg, init, steps).value.finished[c] == 1
  {
    hide Init, After;
    RunInv(cfg, init, steps);
    FailureFreeRun(cfg, init, steps);
    hide Inv;
    QuietMeansDone(cfg, After(cfg, init, steps).value);
  }

  // ----- leaving the loops -----

  // The clients whose last reply has come in but is not yet counted.
  function Replying(s: State): multiset<nat> {
    Who(s.answered, RespClient) + Who(s.responses, RespClient) + s.failed
  }

  // If no client's rounds and pending reply exceed k, the total reaches n * k
  // only when each client's does.
  lemma {:induction false} NoSlack(rs: seq<Record>, m: multiset<nat>, k: nat, c: nat)
    requires forall i :: 0 <= i < |rs| ==> rs[i].round + m[i] <= k
    ensures Total(rs, RoundOf) + SumTo(m, |rs|) <= |rs| * k
    ensures c < |rs| && rs[c].round + m[c] < k ==> Total(rs, RoundOf) + SumTo(m, |rs|) < |rs| * k
  {
    if rs != [] {
      NoSlack(rs[..|rs| - 1], m, k, c);
      assert |rs| * k == (|rs| - 1) * k + k;
    }
  }

  // The progress bar reaches its total only when there is nothing left to
  // send: each client is finished or handled, or waits for its last reply to
  // be handled, or failed in its last round.
  lemma FullProgressMeansSent(cfg: Config, s: State, c: nat)
    requires Inv(cfg, s) && cfg.rounds >= 1 && c < cfg.clients && s.progress == cfg.clients * cfg.rounds
    ensures Num(s.ready, ReqClient, c) == 0 && Held(s.sender, c) == 0 && Num(s.inflight, ReqClient, c) == 0
    ensures Released(s.handler, c) == 0 && Num(s.barrier, ReqClient, c) == 0 && s.lost[c] == 0
    ensures s.records[c].round + Replying(s)[c] == cfg.rounds
  {
    var m := Replying(s);
    WhoSize(s.answered, RespClient);
    WhoSize(s.responses, RespClient);
    forall i: nat ensures i in m ==> i < cfg.clients
                  ensures i < cfg.clients ==> s.records[i].round + m[i] <= cfg.rounds
    {
      ReplyingAt(cfg, s, i);
    }
    SumIsSize(m, cfg.clients);
    NoSlack(s.records, m, cfg.rounds, c);
    ReplyingAt(cfg, s, c);
    hide Conserved, Transcripts, Payloads, Level, Questions, Replying;
  }

  lemma ReplyingAt(cfg: Config, s: State, c: nat)
    requires Inv(cfg, s) && cfg.rounds >= 1
    ensures Replying(s)[c] > 0 ==> c < cfg.clients
    ensures c < cfg.clients ==> s.records[c].round + Replying(s)[c] <= cfg.rounds
    ensures c < cfg.clients && s.records[c].round + Replying(s)[c] == cfg.rounds ==>
              && Num(s.ready, ReqClient, c) == 0 && Held(s.sender, c) == 0 && Num(s.inflight, ReqClient, c) == 0
              && Released(s.handler, c) == 0 && Num(s.barrier, ReqClient, c) == 0 && s.lost[c] == 0
  {
    assert Places(s, c) == if c < cfg.clients then 1 else 0;
    assert Replying(s)[c] == Num(s.answered, RespClient, c) + Num(s.responses, RespClient, c) + s.failed[c];
    hide Transcripts, Payloads, Level, Questions, Counters, Num, Replying;
    if c < cfg.clients {
      assert RoundsOf(cfg, s, c);
    }
  }

  // The test that lets the sender leave its loop: it is made only when there
  // is room for another request.
  ghost predicate MayLeave(cfg: Config, s: State) {
    s.sent - s.completed < cfg.maxParallel && s.progress == cfg.clients * cfg.rounds
  }

  lemma {:induction false} FullSum(rs: seq<Record>, m: multiset<nat>, k: nat)
    requires forall i :: 0 <= i < |rs| ==> rs[i].round + m[i] == k
    ensures Total(rs, RoundOf) + SumTo(m, |rs|) == |rs| * k
  {
    if rs != [] {
      FullSum(rs[..|rs| - 1], m, k);
      assert |rs| * k == (|rs| - 1) * k + k;
    }
  }

  lemma QuietFull(cfg: Config, s: State)
    requires Inv(cfg, s) && Quiescent(cfg, s) && cfg.rounds >= 1
    ensures s.progress == cfg.clients * cfg.rounds
       <==> forall c: nat :: c < cfg.clients ==> s.records[c].round + s.failed[c] == cfg.rounds
    ensures s.progress == cfg.clients * cfg.rounds ==> s.lost == multiset{}
  {
    assert Replying(s) == s.failed;
    forall c: nat ensures s.failed[c] > 0 ==> c < cfg.clients
                  ensures s.lost[c] > 0 ==> c < cfg.clients
    {
      assert Places(s, c) == if c < cfg.clients then 1 else 0;
    }
    if s.progress == cfg.clients * cfg.rounds {
      forall c: nat | c < cfg.clients ensures s.records[c].round + s.failed[c] == cfg.rounds && s.lost[c] == 0 {
        FullProgressMeansSent(cfg, s, c);
      }
    } else if forall c: nat :: c < cfg.clients ==> s.records[c].round + s.failed[c] == cfg.rounds {
      SumIsSize(s.failed, cfg.clients);
      FullSum(s.records, s.failed, cfg.rounds);
      assert false;
    }
  }

  // Once quiet, the sender can leave if and only if every client failed at
  // most in its last round, none was lost, and the failures leave a slot free.
  lemma SenderLeavesIff(cfg: Config, s: State)
    requires Inv(cfg, s) && Quiescent(cfg, s) && cfg.rounds >= 1
    ensures MayLeave(cfg, s) <==> s.progress == cfg.clients * cfg.rounds && |s.failed| + |s.lost| < cfg.maxParallel
    ensures MayLeave(cfg, s) <==>
            (forall c: nat :: c < cfg.clients ==> s.records[c].round + s.failed[c] == cfg.rounds)
            && |s.failed| < cfg.maxParallel
  {
    QuietFull(cfg, s);
    hide Conserved, Rounds, Transcripts, Level, Payloads, Questions;
  }
}
