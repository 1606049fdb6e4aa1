// What every interleaving of the multi-turn load generator keeps.
module MultiTurnSafety {
  import opened Bags
  import opened MultiTurn

  // ----- sums over the client records -----

  function Total(rs: seq<Record>, f: Record -> nat): nat {
    if rs == [] then 0 else Total(rs[..|rs| - 1], f) + f(rs[|rs| - 1])
  }

  const RoundOf: Record -> nat := (r: Record) => r.round

  function Capped(cap: nat): Record -> nat {
    (r: Record) => if r.round < cap then r.round else cap
  }

  lemma {:induction false} TotalUpdate(rs: seq<Record>, c: nat, r: Record, f: Record -> nat)
    requires c < |rs|
    ensures Total(rs[c := r], f) + f(rs[c]) == Total(rs, f) + f(r)
  {
    var init, last := rs[..|rs| - 1], rs[|rs| - 1];
    if c == |rs| - 1 {
      assert rs[c := r][..|rs| - 1] == init;
    } else {
      TotalUpdate(init, c, r, f);
      assert rs[c := r][..|rs| - 1] == init[c := r];
    }
  }

  lemma {:induction false} TotalBound(rs: seq<Record>, f: Record -> nat, k: nat)
    requires forall r :: f(r) <= k
    ensures Total(rs, f) <= |rs| * k
  {
    if rs != [] {
      TotalBound(rs[..|rs| - 1], f, k);
      assert |rs| * k == (|rs| - 1) * k + k;
    }
  }

  lemma {:induction false} TotalZero(rs: seq<Record>, f: Record -> nat)
    requires forall i :: 0 <= i < |rs| ==> f(rs[i]) == 0
    ensures Total(rs, f) == 0
  {
    if rs != [] {
      TotalZero(rs[..|rs| - 1], f);
    }
  }

  // ----- counters -----

  function Uncounted(s: State): nat {
    if s.handler.Updated? then 1 else 0
  }

  // A sub-question that the client being handled will still take.
  function Pending(cfg: Config, s: State): nat {
    if (s.handler.Updated? || s.handler.Counted?) && s.handler.client < |s.records|
       && s.records[s.handler.client].round < cfg.rounds then 1 else 0
  }

  ghost predicate Counters(cfg: Config, s: State) {
    && s.completed + Uncounted(s) == Total(s.records, RoundOf)
    && s.sent == s.completed + Uncounted(s) + |s.inflight| + |s.answered| + |s.responses| + |s.failed| + |s.lost|
    && s.progress == s.completed + Uncounted(s) + |s.answered| + |s.responses| + |s.failed|
    && s.sent - s.completed <= cfg.maxParallel
    && (!s.sender.Check? ==> s.sent - s.completed < cfg.maxParallel)
  }

  ghost predicate Questions(cfg: Config, s: State) {
    |s.questions| + Total(s.records, Capped(Max(cfg.rounds - 1, 0)))
    == cfg.clients * Max(cfg.rounds - 1, 1) + Pending(cfg, s)
  }

  // ----- steps that advance a record -----

  lemma TakeTotals(cfg: Config, s: State, f: Record -> nat)
    requires Enabled(cfg, s, Take) && s.responses[0].success && s.responses[0].client < |s.records|
    ensures var c, s' := s.responses[0].client, Apply(cfg, s, Take);
            |s'.records| == |s.records| && Total(s'.records, f) + f(s.records[c]) == Total(s.records, f) + f(s'.records[c])
  {
    var c := s.responses[0].client;
    TotalUpdate(s.records, c, Apply(cfg, s, Take).records[c], f);
  }

  lemma CountersStep(cfg: Config, s: State, step: Step)
    requires Counters(cfg, s) && Enabled(cfg, s, step) && !Apply(cfg, s, step).handler.Crashed?
    ensures Counters(cfg, Apply(cfg, s, step))
  {
    hide Total;
    match step
    case Take =>
      if s.responses[0].success {
        TakeTotals(cfg, s, RoundOf);
      }
    case Requeue =>
      RequeueTotals(cfg, s);
    case _ =>
  }

  // Going to the next round changes no round number.
  lemma RequeueTotals(cfg: Config, s: State)
    requires Enabled(cfg, s, Requeue) && !Apply(cfg, s, Requeue).handler.Crashed?
    ensures Total(Apply(cfg, s, Requeue).records, RoundOf) == Total(s.records, RoundOf)
    ensures forall cap: nat :: Total(Apply(cfg, s, Requeue).records, Capped(cap)) == Total(s.records, Capped(cap))
  {
    var c := s.handler.client;
    if s.records[c].round < cfg.rounds {
      var r := Apply(cfg, s, Requeue).records[c];
      TotalUpdate(s.records, c, r, RoundOf);
      forall cap: nat ensures Total(s.records[c := r], Capped(cap)) == Total(s.records, Capped(cap)) {
        TotalUpdate(s.records, c, r, Capped(cap));
      }
    }
  }

  lemma QuestionsStep(cfg: Config, s: State, step: Step)
    requires Questions(cfg, s) && Enabled(cfg, s, step) && !Apply(cfg, s, step).handler.Crashed?
    ensures Questions(cfg, Apply(cfg, s, step))
  {
    hide Total;
    match step
    case Take =>
      if s.responses[0].success {
        TakeTotals(cfg, s, Capped(Max(cfg.rounds - 1, 0)));
      }
    case Requeue =>
      RequeueTotals(cfg, s);
    case _ =>
  }

  // `sub_question_inputs.pop()` always finds one.
  lemma QuestionLeft(cfg: Config, s: State)
    requires |s.records| == cfg.clients && Questions(cfg, s) && Pending(cfg, s) == 1
    ensures s.questions != []
  {
    var k := cfg.rounds - 1;
    TotalBound(s.records, Capped(k), k);
    assert cfg.clients * k <= cfg.clients * Max(k, 1);
  }

  // ----- conservation -----

  lemma NoCrash(cfg: Config, s: State, step: Step)
    requires Conserved(cfg, s) && |s.records| == cfg.clients && Questions(cfg, s)
    requires Enabled(cfg, s, step) && !s.handler.Crashed?
    ensures !Apply(cfg, s, step).handler.Crashed?
  {
    match step
    case Take =>
      NumIn(s.responses, 0, RespClient);
      assert Places(s, s.responses[0].client) > 0;
    case Requeue =>
      assert Places(s, s.handler.client) > 0;
      if s.records[s.handler.client].round < cfg.rounds {
        QuestionLeft(cfg, s);
      }
    case _ =>
  }

  // Steps other than taking a response and going to the next round leave the
  // records as they are and move a request between the places before the
  // handler, or to `lost`.
  lemma QuietStep(cfg: Config, s: State, step: Step, c: nat)
    requires Enabled(cfg, s, step) && !step.Take? && !step.Requeue?
    ensures var s' := Apply(cfg, s, step);
            && s'.records == s.records && s'.barrier == s.barrier && s'.epoch == s.epoch
            && s'.finished == s.finished && s'.failed == s.failed
            && Live(s', c) + s'.lost[c] == Live(s, c) + s.lost[c] && s.lost[c] <= s'.lost[c]
            && Busy(s'.handler, c) == Busy(s.handler, c)
  {
    hide Num;
    match step
    case PopRequest(i) => NumDrop(s.ready, i, ReqClient, c);
    case Send => NumSnoc(s.inflight, s.sender.request, ReqClient, c);
    case Answer(i, success, text) =>
      NumDrop(s.inflight, i, ReqClient, c);
      NumSnoc(s.answered, Response(s.inflight[i].client, success, text), RespClient, c);
    case Lose(i) => NumDrop(s.inflight, i, ReqClient, c);
    case Deliver(i) =>
      NumDrop(s.answered, i, RespClient, c);
      NumSnoc(s.responses, s.answered[i], RespClient, c);
    case Flush =>
      NumNone(c);
      if s.handler.rest != [] {
        NumDrop(s.handler.rest, 0, ReqClient, c);
        NumSnoc(s.ready, s.handler.rest[0], ReqClient, c);
      }
    case _ =>
  }

  // Taking a response moves its client from the response queue to the handler,
  // one round further, or to `failed`.
  lemma TakeMoves(cfg: Config, s: State, c: nat)
    requires Enabled(cfg, s, Take) && s.responses[0].client < |s.records|
    ensures var s', r := Apply(cfg, s, Take), s.responses[0];
            var one := if r.client == c then 1 else 0;
            && Live(s', c) + one == Live(s, c)
            && s'.barrier == s.barrier && s'.epoch == s.epoch && s'.finished == s.finished && s'.lost == s.lost
            && s'.failed[c] == s.failed[c] + (if r.success then 0 else one)
            && Busy(s'.handler, c) == (if r.success then one else 0)
            && s'.records == if r.success
                 then s.records[r.client := Replied(s.records[r.client], r.text)]
                 else s.records
  {
    hide Num;
    NumDrop(s.responses, 0, RespClient, c);
  }

  // The request of client d for its next round.
  function Following(s: State, d: nat): Request
    requires d < |s.records| && s.questions != []
  {
    Request(d, s.records[d].history + s.questions[|s.questions| - 1])
  }

  // Going to the next round moves the client being handled to `finished`, to
  // the ready queue, or to the barrier list, and a full barrier list becomes
  // live as a whole.
  lemma RequeueMoves(cfg: Config, s: State, c: nat)
    requires Enabled(cfg, s, Requeue) && !Apply(cfg, s, Requeue).handler.Crashed?
    ensures var s', d := Apply(cfg, s, Requeue), s.handler.client;
            var one := if d == c then 1 else 0;
            && d < |s.records| && s'.lost == s.lost && s'.failed == s.failed && Busy(s'.handler, c) == 0
            && if s.records[d].round >= cfg.rounds then
                 && s'.finished[c] == s.finished[c] + one && s'.records == s.records && s'.epoch == s.epoch
                 && Live(s', c) == Live(s, c) && s'.barrier == s.barrier
               else
                 && s.questions != [] && s'.finished == s.finished
                 && s'.records == s.records[d := Asked(s.records[d], s.questions[|s.questions| - 1])]
                 && (if !cfg.barrier then
                       s'.epoch == s.epoch && Live(s', c) == Live(s, c) + one && s'.barrier == s.barrier
                     else if |s.barrier| + 1 == cfg.clients then
                       && s'.epoch == s.epoch + 1 && s'.barrier == []
                       && Live(s', c) == Live(s, c) + Num(s.barrier + [Following(s, d)], ReqClient, c)
                     else
                       s'.epoch == s.epoch && Live(s', c) == Live(s, c) && s'.barrier == s.barrier + [Following(s, d)])
  {
    hide Num;
    var d := s.handler.client;
    if s.records[d].round < cfg.rounds {
      NumSnoc(s.ready, Following(s, d), ReqClient, c);
    }
  }

  lemma NumNone(c: nat)
    ensures Num([], ReqClient, c) == 0
  {
  }

  lemma PlacesStep(cfg: Config, s: State, step: Step, c: nat)
    requires Enabled(cfg, s, step) && !Apply(cfg, s, step).handler.Crashed?
    requires step.Take? ==> s.responses[0].client < |s.records|
    ensures Places(Apply(cfg, s, step), c) == Places(s, c)
  {
    hide Num, Live;
    match step
    case Take => TakeMoves(cfg, s, c);
    case Requeue =>
      RequeueMoves(cfg, s, c);
      NumNone(c);
      if s.questions != [] {
        NumSnoc(s.barrier, Following(s, s.handler.client), ReqClient, c);
      }
    case _ => QuietStep(cfg, s, step, c);
  }

  // ----- rounds stay within bounds -----

  ghost predicate RoundsOf(cfg: Config, s: State, c: nat)
    requires c < |s.records|
  {
    && s.records[c].round <= Max(cfg.rounds, 1)
    && (Waiting(s, c) > 0 ==> s.records[c].round < Max(cfg.rounds, 1))
    && (Busy(s.handler, c) > 0 ==> s.records[c].round >= 1)
    && (s.finished[c] > 0 ==> s.records[c].round == Max(cfg.rounds, 1))
  }

  ghost predicate Rounds(cfg: Config, s: State) {
    |s.records| == cfg.clients && forall c: nat :: c < cfg.clients ==> RoundsOf(cfg, s, c)
  }

  lemma RoundsStep(cfg: Config, s: State, step: Step, c: nat)
    requires Conserved(cfg, s) && Rounds(cfg, s) && Enabled(cfg, s, step) && !Apply(cfg, s, step).handler.Crashed?
    requires step.Take? ==> s.responses[0].client < |s.records|
    requires c < cfg.clients
    ensures |Apply(cfg, s, step).records| == cfg.clients && RoundsOf(cfg, Apply(cfg, s, step), c)
  {
    hide Num, Live, Apply;
    assert RoundsOf(cfg, s, c) && Places(s, c) == 1;
    PlacesStep(cfg, s, step, c);
    match step
    case Take => TakeMoves(cfg, s, c);
    case Requeue =>
      RequeueMoves(cfg, s, c);
      NumNone(c);
      if s.questions != [] {
        NumSnoc(s.barrier, Following(s, s.handler.client), ReqClient, c);
      }
    case _ => QuietStep(cfg, s, step, c);
  }

  // ----- the round barrier -----

  // Live requests belong to round `epoch`; who is past it waits at the barrier.
  ghost predicate LevelOf(s: State, c: nat)
    requires c < |s.records|
  {
    && s.epoch <= s.records[c].round <= s.epoch + 1
    && (Live(s, c) > 0 ==> s.records[c].round == s.epoch)
    && (Num(s.barrier, ReqClient, c) > 0 ==> s.records[c].round == s.epoch + 1)
    && (Busy(s.handler, c) > 0 ==> s.records[c].round == s.epoch + 1)
  }

  ghost predicate Level(cfg: Config, s: State) {
    |s.records| == cfg.clients && forall c: nat :: c < cfg.clients ==> LevelOf(s, c)
  }

  // When the barrier list is full every client has just completed the round.
  lemma BarrierFull(cfg: Config, s: State, c: nat)
    requires Conserved(cfg, s) && Level(cfg, s) && s.handler.Counted? && s.handler.client < cfg.clients
    requires |s.barrier| + 1 == cfg.clients && c < cfg.clients && s.questions != []
    ensures s.records[c].round == s.epoch + 1
  {
    var q := s.barrier + [Following(s, s.handler.client)];
    forall d: nat ensures Num(q, ReqClient, d) <= if d < cfg.clients then 1 else 0 {
      NumSnoc(s.barrier, Following(s, s.handler.client), ReqClient, d);
      assert Places(s, d) == if d < cfg.clients then 1 else 0;
    }
    FullQueue(q, ReqClient, cfg.clients, c);
    NumSnoc(s.barrier, Following(s, s.handler.client), ReqClient, c);
    assert LevelOf(s, c);
  }

  lemma LevelStep(cfg: Config, s: State, step: Step, c: nat)
    requires cfg.barrier && Conserved(cfg, s) && Level(cfg, s) && Enabled(cfg, s, step) && !Apply(cfg, s, step).handler.Crashed?
    requires step.Take? ==> s.responses[0].client < |s.records|
    requires c < cfg.clients
    ensures |Apply(cfg, s, step).records| == cfg.clients && LevelOf(Apply(cfg, s, step), c)
  {
    hide Num, Live, Apply;
    assert LevelOf(s, c) && Places(s, c) == 1;
    match step
    case Take => TakeMoves(cfg, s, c);
    case Requeue =>
      RequeueMoves(cfg, s, c);
      NumNone(c);
      var d := s.handler.client;
      if s.records[d].round < cfg.rounds {
        NumSnoc(s.barrier, Following(s, d), ReqClient, c);
        if |s.barrier| + 1 == cfg.clients {
          BarrierFull(cfg, s, c);
        }
      }
    case _ => QuietStep(cfg, s, step, c);
  }

  // ----- transcripts -----

  function Text(said: seq<Utterance>): string {
    if said == [] then [] else Text(said[..|said| - 1]) + said[|said| - 1].text
  }

  // Questions and replies alternate, a question first, two to a round; the
  // last question is unanswered while the client waits.
  ghost predicate TranscriptOf(s: State, c: nat)
    requires c < |s.records|
  {
    var r := s.records[c];
    && r.history == Text(r.said)
    && (forall i :: 0 <= i < |r.said| ==> (r.said[i].Ask? <==> i % 2 == 0))
    && |r.said| == 2 * r.round + if Waiting(s, c) > 0 then 1 else 0
  }

  ghost predicate Transcripts(cfg: Config, s: State) {
    |s.records| == cfg.clients && forall c: nat :: c < cfg.clients ==> TranscriptOf(s, c)
  }

  lemma TextSnoc(said: seq<Utterance>, u: Utterance)
    ensures Text(said + [u]) == Text(said) + u.text
  {
    assert (said + [u])[..|said|] == said;
  }

  lemma TranscriptStep(cfg: Config, s: State, step: Step, c: nat)
    requires Conserved(cfg, s) && Transcripts(cfg, s) && Enabled(cfg, s, step) && !Apply(cfg, s, step).handler.Crashed?
    requires step.Take? ==> s.responses[0].client < |s.records|
    requires c < cfg.clients
    ensures |Apply(cfg, s, step).records| == cfg.clients && TranscriptOf(Apply(cfg, s, step), c)
  {
    hide Num, Live, Apply, Text;
    assert TranscriptOf(s, c) && Places(s, c) == 1;
    PlacesStep(cfg, s, step, c);
    match step
    case Take =>
      TakeMoves(cfg, s, c);
      TextSnoc(s.records[c].said, Reply(s.responses[0].text));
    case Requeue =>
      RequeueMoves(cfg, s, c);
      NumNone(c);
      if s.questions != [] {
        NumSnoc(s.barrier, Following(s, s.handler.client), ReqClient, c);
        TextSnoc(s.records[c].said, Ask(s.questions[|s.questions| - 1]));
      }
    case _ => QuietStep(cfg, s, step, c);
  }

  // ----- payloads -----

  // A request that has not been answered carries its client's whole history.
  ghost predicate Carries(records: seq<Record>, r: Request) {
    r.client < |records| && r.payload == records[r.client].history
  }

  ghost predicate AllCarry(records: seq<Record>, q: seq<Request>) {
    forall i :: 0 <= i < |q| ==> Carries(records, q[i])
  }

  ghost predicate Payloads(s: State) {
    && AllCarry(s.records, s.ready) && AllCarry(s.records, s.inflight) && AllCarry(s.records, s.barrier)
    && (s.sender.Holding? ==> Carries(s.records, s.sender.request))
    && (s.handler.Flushing? ==> AllCarry(s.records, s.handler.rest))
  }

  lemma CarryOthers(records: seq<Record>, q: seq<Request>, d: nat, r: Record)
    requires d < |records| && AllCarry(records, q) && Num(q, ReqClient, d) == 0
    ensures AllCarry(records[d := r], q)
  {
    forall i | 0 <= i < |q| ensures Carries(records[d := r], q[i]) {
      NumIn(q, i, ReqClient);
      assert Carries(records, q[i]);
    }
  }

  // A record may change while its client has no request anywhere.
  lemma PayloadsOthers(s: State, d: nat, r: Record)
    requires Payloads(s) && d < |s.records| && Live(s, d) == 0 && Num(s.barrier, ReqClient, d) == 0
    ensures Payloads(s.(records := s.records[d := r]))
  {
    CarryOthers(s.records, s.ready, d, r);
    CarryOthers(s.records, s.inflight, d, r);
    CarryOthers(s.records, s.barrier, d, r);
    if s.handler.Flushing? {
      CarryOthers(s.records, s.handler.rest, d, r);
    }
  }

  lemma TakenElsewhere(cfg: Config, s: State)
    requires Conserved(cfg, s) && Enabled(cfg, s, Take) && s.responses[0].client < cfg.clients
    ensures var c := s.responses[0].client;
            Live(s.(responses := Drop(s.responses, 0)), c) == 0 && Num(s.barrier, ReqClient, c) == 0
  {
    var c := s.responses[0].client;
    NumDrop(s.responses, 0, RespClient, c);
    hide Num;
    assert Places(s, c) == 1;
  }

  lemma PayloadsStep(cfg: Config, s: State, step: Step)
    requires Conserved(cfg, s) && |s.records| == cfg.clients && Payloads(s)
    requires Enabled(cfg, s, step) && !Apply(cfg, s, step).handler.Crashed?
    requires step.Take? ==> s.responses[0].client < |s.records|
    ensures Payloads(Apply(cfg, s, step))
  {
    hide Num, Live;
    match step
    case Take =>
      if s.responses[0].success {
        TakenElsewhere(cfg, s);
        PayloadsOthers(s.(responses := Drop(s.responses, 0)), s.responses[0].client,
                       Apply(cfg, s, step).records[s.responses[0].client]);
      }
    case Requeue =>
      var c := s.handler.client;
      assert Places(s, c) == if c < cfg.clients then 1 else 0;
      if s.records[c].round < cfg.rounds {
        PayloadsOthers(s, c, Apply(cfg, s, step).records[c]);
      }
    case _ =>
  }
}
