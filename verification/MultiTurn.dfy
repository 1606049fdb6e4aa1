// The multi-turn load generator: a sender thread, asynchronous requests and a
// response-handler thread that share queues and counters, with an optional
// barrier between rounds (benchmark/hicache/bench_multiturn.py,
// WorkloadGenerator). Every step below is one atomic action of one of them;
// a run is any interleaving.
module MultiTurn {
  import opened Bags

  datatype Config = Config(clients: nat, rounds: nat, maxParallel: nat, barrier: bool, fifo: bool)

  datatype Request = Request(client: nat, payload: string)
  datatype Response = Response(client: nat, success: bool, text: string)
  datatype Utterance = Ask(text: string) | Reply(text: string)

  // `said` only records what `history` was put together from.
  datatype Record = Record(round: nat, history: string, said: seq<Utterance>)

  // The sender between two atomic actions: about to compare the counters,
  // allowed to pop a request, or holding the request it popped.
  datatype Sender = Check | Permitted | Holding(request: Request)

  // The handler between two atomic actions: waiting for a response, round
  // advanced but not yet counted, counted, or emptying the barrier list.
  // Crashed stands for an uncaught IndexError or KeyError.
  datatype Handler = Idle | Updated(client: nat) | Counted(client: nat) | Flushing(rest: seq<Request>) | Crashed

  // `finished`, `failed` (answered without success), `lost` (never answered)
  // and `epoch` (barrier openings) only record history.
  datatype State = State(
    ready: seq<Request>, sender: Sender, inflight: seq<Request>, answered: seq<Response>, responses: seq<Response>,
    handler: Handler, barrier: seq<Request>, records: seq<Record>, questions: seq<string>,
    sent: nat, completed: nat, progress: nat,
    finished: multiset<nat>, failed: multiset<nat>, lost: multiset<nat>, epoch: nat)

  datatype Step =
    | Permit
    | PopNothing
    | PopRequest(index: nat)
    | Send
    | Answer(index: nat, success: bool, text: string)
    | Lose(index: nat)
    | Deliver(index: nat)
    | Take
    | Count
    | Requeue
    | Flush

  const ReqClient: Request -> nat := (r: Request) => r.client
  const RespClient: Response -> nat := (r: Response) => r.client

  function Max(a: int, b: int): int { if a < b then b else a }

  // ----- the ready queue -----

  // What pop gives: nothing, a request, or a ValueError for an unknown policy.
  datatype Popped = Nothing | Got(request: Request) | UnknownPolicy

  // Nothing of an empty queue; else some request under "random" and the first
  // under "fifo", taken out while the others keep their order.
  ghost predicate Pops(before: seq<Request>, policy: string, popped: Popped, after: seq<Request>) {
    match popped
    case Nothing => before == [] && after == before
    case Got(r) =>
      && policy in {"random", "fifo"}
      && exists i :: 0 <= i < |before| && (policy == "fifo" ==> i == 0) && r == before[i] && after == Drop(before, i)
    case UnknownPolicy => before != [] && policy !in {"random", "fifo"} && after == before
  }

  ghost predicate Appends(before: seq<Request>, item: Request, after: seq<Request>) {
    |after| == |before| + 1 && after[|before|] == item && after[..|before|] == before
  }

  class ReadyQueue {
    var requests: seq<Request>
    const policy: string

    constructor (requests: seq<Request>, policy: string)
      ensures this.requests == requests && this.policy == policy
    {
      this.requests, this.policy := requests, policy;
    }

    method Append(item: Request)
      modifies this
      ensures Appends(old(requests), item, requests)
    {
      requests := requests + [item];
    }

    // `draw` is the random number.
    method Pop(draw: nat) returns (popped: Popped)
      modifies this
      ensures Pops(old(requests), policy, popped, requests)
    {
      if requests == [] {
        return Nothing;
      }
      if policy == "random" {
        var index := draw % |requests|;
        popped := Got(requests[index]);
        requests := Drop(requests, index);
      } else if policy == "fifo" {
        popped := Got(requests[0]);
        requests := Drop(requests, 0);
      } else {
        popped := UnknownPolicy;
      }
    }
  }

  // ----- the protocol -----

  // WorkloadGenerator.__init__
  ghost predicate Init(cfg: Config, s: State) {
    && |s.ready| == |s.records| == cfg.clients
    && (forall i :: 0 <= i < cfg.clients ==>
          s.ready[i].client == i && s.records[i] == Record(0, s.ready[i].payload, [Ask(s.ready[i].payload)]))
    && s.sender == Check && s.inflight == [] && s.answered == [] && s.responses == []
    && s.handler == Idle && s.barrier == []
    && |s.questions| == cfg.clients * Max(cfg.rounds - 1, 1)
    && s.sent == 0 && s.completed == 0 && s.progress == 0
    && s.finished == multiset{} && s.failed == multiset{} && s.lost == multiset{} && s.epoch == 0
  }

  predicate Enabled(cfg: Config, s: State, step: Step) {
    match step
    case Permit => s.sender.Check? && s.sent - s.completed < cfg.maxParallel
    case PopNothing => s.sender.Permitted? && s.ready == []
    case PopRequest(i) => s.sender.Permitted? && i < |s.ready| && (cfg.fifo ==> i == 0)
    case Send => s.sender.Holding?
    case Answer(i, _, _) => i < |s.inflight|
    case Lose(i) => i < |s.inflight|
    case Deliver(i) => i < |s.answered|
    case Take => s.handler.Idle? && s.responses != []
    case Count => s.handler.Updated?
    case Requeue => s.handler.Counted?
    case Flush => s.handler.Flushing?
  }

  function Apply(cfg: Config, s: State, step: Step): State
    requires Enabled(cfg, s, step)
  {
    match step
    case Permit => s.(sender := Permitted)
    case PopNothing => s.(sender := Check)
    case PopRequest(i) => s.(ready := Drop(s.ready, i), sender := Holding(s.ready[i]))
    case Send => s.(inflight := s.inflight + [s.sender.request], sent := s.sent + 1, sender := Check)
    case Answer(i, success, text) =>
      s.(inflight := Drop(s.inflight, i), progress := s.progress + 1,
         answered := s.answered + [Response(s.inflight[i].client, success, text)])
    case Lose(i) => s.(inflight := Drop(s.inflight, i), lost := s.lost + multiset{s.inflight[i].client})
    case Deliver(i) => s.(answered := Drop(s.answered, i), responses := s.responses + [s.answered[i]])
    case Take => TakeResponse(s.(responses := Drop(s.responses, 0)), s.responses[0])
    case Count => s.(completed := s.completed + 1, handler := Counted(s.handler.client))
    case Requeue => NextRound(cfg, s, s.handler.client)
    case Flush =>
      if s.handler.rest == [] then s.(handler := Idle)
      else s.(ready := s.ready + [s.handler.rest[0]], handler := Flushing(Drop(s.handler.rest, 0)))
  }

  // The sender's step that hands out what was popped.
  ghost predicate PopStep(cfg: Config, s: State, step: Step, popped: Popped, after: seq<Request>) {
    && (step.PopNothing? || step.PopRequest?) && Enabled(cfg, s, step)
    && Apply(cfg, s, step) == s.(ready := after, sender := if popped.Got? then Holding(popped.request) else Check)
    && (popped.Nothing? <==> step.PopNothing?) && !popped.UnknownPolicy?
  }

  // What the queue can hand out to the sender, and leave behind, is exactly
  // what a step of the protocol does.
  lemma PopIsStep(cfg: Config, s: State, popped: Popped, after: seq<Request>)
    requires s.sender.Permitted?
    ensures Pops(s.ready, if cfg.fifo then "fifo" else "random", popped, after)
       <==> exists step :: PopStep(cfg, s, step, popped, after)
  {
    var policy := if cfg.fifo then "fifo" else "random";
    assert policy == "fifo" <==> cfg.fifo by { assert "fifo"[0] != "random"[0]; }
    if Pops(s.ready, policy, popped, after) {
      if popped.Nothing? {
        assert PopStep(cfg, s, PopNothing, popped, after);
      } else {
        var i :| 0 <= i < |s.ready| && (policy == "fifo" ==> i == 0) && popped.request == s.ready[i] && after == Drop(s.ready, i);
        assert PopStep(cfg, s, PopRequest(i), popped, after);
      }
    }
  }

  function Replied(r: Record, text: string): Record {
    Record(r.round + 1, r.history + text, r.said + [Reply(text)])
  }

  function Asked(r: Record, text: string): Record {
    Record(r.round, r.history + text, r.said + [Ask(text)])
  }

  function TakeResponse(s: State, r: Response): State {
    if !r.success then s.(failed := s.failed + multiset{r.client})
    else if r.client >= |s.records| then s.(handler := Crashed)
    else
      s.(records := s.records[r.client := Replied(s.records[r.client], r.text)], handler := Updated(r.client))
  }

  function NextRound(cfg: Config, s: State, c: nat): State {
    if c >= |s.records| then s.(handler := Crashed)
    else if s.records[c].round >= cfg.rounds then s.(finished := s.finished + multiset{c}, handler := Idle)
    else if s.questions == [] then s.(handler := Crashed)
    else
      var last := |s.questions| - 1;
      var record := Asked(s.records[c], s.questions[last]);
      var req := Request(c, record.history);
      var t := s.(records := s.records[c := record], questions := s.questions[..last]);
      if !cfg.barrier then t.(ready := t.ready + [req], handler := Idle)
      else if |t.barrier| + 1 == cfg.clients then
        t.(barrier := [], handler := Flushing(t.barrier + [req]), epoch := t.epoch + 1)
      else t.(barrier := t.barrier + [req], handler := Idle)
  }

  // ----- every client is in exactly one place -----

  function Held(sender: Sender, c: nat): nat {
    if sender.Holding? && sender.request.client == c then 1 else 0
  }

  // The client whose response is being handled.
  function Busy(handler: Handler, c: nat): nat {
    if (handler.Updated? || handler.Counted?) && handler.client == c then 1 else 0
  }

  function Released(handler: Handler, c: nat): nat {
    if handler.Flushing? then Num(handler.rest, ReqClient, c) else 0
  }

  // How often client c has a request that is ready, being sent, in flight,
  // answered or awaiting handling.
  function Live(s: State, c: nat): nat {
    Num(s.ready, ReqClient, c) + Held(s.sender, c) + Num(s.inflight, ReqClient, c)
    + Num(s.answered, RespClient, c) + Num(s.responses, RespClient, c) + Released(s.handler, c)
  }

  // ... or waiting at the barrier, or given up on.
  function Waiting(s: State, c: nat): nat {
    Live(s, c) + Num(s.barrier, ReqClient, c) + s.failed[c] + s.lost[c]
  }

  function Places(s: State, c: nat): nat {
    Waiting(s, c) + Busy(s.handler, c) + s.finished[c]
  }

  ghost predicate Conserved(cfg: Config, s: State) {
    forall c: nat :: Places(s, c) == if c < cfg.clients then 1 else 0
  }
}
