// The serving benchmark's queue of conversations: a fetching loop, one task
// per fetched turn behind an optional semaphore, and answered conversations
// put back at the end of a bounded queue
// (benchmark/hicache/bench_serving.py, get_requests and benchmark).
module ServingQueue {
  import opened Options
  import opened Bags
  import opened ServingTurn

  datatype Config = Config(original: seq<seq<Prompt>>, maxConcurrency: Option<nat>)

  datatype Reply = Reply(text: string, len: nat)

  // Tasks wait for the semaphore, run, and may be putting their conversation
  // back. `order` (conversations as fetched), `done`, `failed`, `raised` (tasks
  // ended by an IndexError), `sent` and `replies` only record history.
  datatype State = State(
    queue: seq<nat>, waiting: seq<nat>, running: seq<nat>, putting: seq<nat>,
    convs: seq<Conv>, taken: nat, aborted: bool,
    order: seq<nat>, done: multiset<nat>, failed: multiset<nat>, raised: multiset<nat>, sent: seq<seq<Sent>>, replies: seq<seq<Reply>>)

  datatype Step =
    | Fetch
    | Abort
    | Start(index: nat)
    | Succeed(index: nat, text: string, len: nat)
    | Fail(index: nat)
    | Put(index: nat)

  const Id: nat -> nat := (c: nat) => c

  function SumLens<T>(ss: seq<seq<T>>): nat {
    if ss == [] then 0 else SumLens(ss[..|ss| - 1]) + |ss[|ss| - 1]|
  }

  // num_actual_requests
  function Total(cfg: Config): nat {
    SumLens(cfg.original)
  }

  // The queue after the conversations are put in, before the first fetch.
  ghost predicate Init(cfg: Config, s: State) {
    && |s.queue| == |s.convs| == |s.sent| == |s.replies| == |cfg.original|
    && (forall c :: 0 <= c < |cfg.original| ==>
          && s.queue[c] == c && s.convs[c] == Conv(cfg.original[c], [], 0)
          && s.sent[c] == [] && s.replies[c] == [])
    && s.waiting == [] && s.running == [] && s.putting == []
    && s.taken == 0 && s.order == [] && !s.aborted
    && s.done == multiset{} && s.failed == multiset{} && s.raised == multiset{}
  }

  predicate Enabled(cfg: Config, s: State, step: Step) {
    match step
    case Fetch => !s.aborted && s.taken < Total(cfg) && s.queue != []
    case Abort => !s.aborted && s.taken < Total(cfg) && s.queue == []
    case Start(i) =>
      i < |s.waiting| && (cfg.maxConcurrency.Some? ==> |s.running| + |s.putting| < cfg.maxConcurrency.value)
    case Succeed(i, _, _) => i < |s.running|
    case Fail(i) => i < |s.running|
    case Put(i) => i < |s.putting| && |s.queue| < |cfg.original|
  }

  function Apply(cfg: Config, s: State, step: Step): State
    requires Enabled(cfg, s, step)
  {
    match step
    case Fetch =>
      s.(queue := Drop(s.queue, 0), waiting := s.waiting + [s.queue[0]], taken := s.taken + 1,
         order := s.order + [s.queue[0]])
    case Abort => s.(aborted := true)
    case Start(i) => StartTask(s.(waiting := Drop(s.waiting, i)), s.waiting[i])
    case Succeed(i, text, len) => FinishTask(s.(running := Drop(s.running, i)), s.running[i], text, len)
    case Fail(i) => s.(running := Drop(s.running, i), failed := s.failed + multiset{s.running[i]})
    case Put(i) => s.(putting := Drop(s.putting, i), queue := s.queue + [s.putting[i]])
  }

  // The index of a turn that does not exist raises an IndexError, which ends
  // the task and gives its place behind the semaphore back; the others go on.
  function StartTask(s: State, c: nat): State {
    if c >= |s.convs| || c >= |s.sent| || s.convs[c].finished >= |s.convs[c].prompts| then s.(raised := s.raised + multiset{c})
    else
      s.(running := s.running + [c], convs := s.convs[c := Started(s.convs[c])],
         sent := s.sent[c := s.sent[c] + [Carried(s.convs[c])]])
  }

  function FinishTask(s: State, c: nat, text: string, len: nat): State {
    if c >= |s.convs| || c >= |s.replies| || s.convs[c].finished >= |s.convs[c].prompts| then s.(raised := s.raised + multiset{c})
    else
      var t := s.(convs := s.convs[c := Answered(s.convs[c], text, len)],
                  replies := s.replies[c := s.replies[c] + [Reply(text, len)]]);
      if HasNext(s.convs[c]) then t.(putting := t.putting + [c]) else t.(done := t.done + multiset{c})
  }

  // ----- places -----

  // Conversation c is between two turns.
  function Between(s: State, c: nat): nat {
    Num(s.queue, Id, c) + Num(s.waiting, Id, c) + Num(s.putting, Id, c)
  }

  // A turn of c was sent and has not been answered.
  function Open(s: State, c: nat): nat {
    Num(s.running, Id, c) + s.failed[c]
  }

  function Places(s: State, c: nat): nat {
    Between(s, c) + Open(s, c) + s.done[c] + s.raised[c]
  }

  ghost predicate Conserved(cfg: Config, s: State) {
    forall c: nat :: Places(s, c) == if c < |cfg.original| then 1 else 0
  }

  // ----- what a conversation should look like -----

  // The messages of the first k turns.
  function Transcript(o: seq<Prompt>, r: seq<Reply>, k: nat): seq<Message>
    requires k <= |o| && k <= |r|
  {
    if k == 0 then [] else Transcript(o, r, k - 1) + [User(o[k - 1].content), Assistant(r[k - 1].text)]
  }

  // The real lengths of the first k turns.
  function RealLengths(o: seq<Prompt>, r: seq<Reply>, k: nat): nat
    requires k <= |o| && k <= |r|
  {
    if k == 0 then 0 else RealLengths(o, r, k - 1) + o[k - 1].inputLen + r[k - 1].len
  }

  // The request for turn k.
  function TurnRequest(o: seq<Prompt>, r: seq<Reply>, k: nat): Sent
    requires k < |o| && k <= |r|
  {
    Sent(Transcript(o, r, k) + [User(o[k].content)], RealLengths(o, r, k) + o[k].inputLen, o[k].tokens)
  }

  // Prompts keep everything but the output lengths of answered turns.
  ghost predicate PromptsMatch(o: seq<Prompt>, r: seq<Reply>, prompts: seq<Prompt>) {
    && |prompts| == |o| && |r| <= |o|
    && forall j :: 0 <= j < |o| ==> prompts[j] == if j < |r| then o[j].(tokens := r[j].len) else o[j]
  }

  ghost predicate SentMatch(o: seq<Prompt>, r: seq<Reply>, sent: seq<Sent>, open: nat) {
    && open <= 1 && |sent| == |r| + open && |sent| <= |o|
    && forall k :: 0 <= k < |sent| ==> sent[k] == TurnRequest(o, r, k)
  }

  // Original prompts o and replies r so far account for a conversation: its
  // prompts, every request sent for it, where it stands and its messages.
  ghost predicate Accounts(o: seq<Prompt>, r: seq<Reply>, v: Conv, sent: seq<Sent>, open: nat, done: nat) {
    && PromptsMatch(o, r, v.prompts)
    && SentMatch(o, r, sent, open)
    && (if done > 0 then |r| == |o| == v.finished + 1 else (|r| < |o| || o == []) && v.finished == |r|)
    && v.messages == Transcript(o, r, |r|) + if open > 0 && |r| < |o| then [User(o[|r|].content)] else []
  }

  ghost predicate ConvOf(cfg: Config, s: State, c: nat)
    requires c < |cfg.original| == |s.convs| == |s.sent| == |s.replies|
  {
    && Accounts(cfg.original[c], s.replies[c], s.convs[c], s.sent[c], Open(s, c), s.done[c])
    && (s.raised[c] > 0 ==> cfg.original[c] == [])
    && (s.done[c] > 0 ==> cfg.original[c] != [])
  }

  ghost predicate Convs(cfg: Config, s: State) {
    && |s.convs| == |s.sent| == |s.replies| == |cfg.original|
    && forall c: nat :: c < |cfg.original| ==> ConvOf(cfg, s, c)
  }

  ghost predicate Counters(cfg: Config, s: State) {
    && |s.queue| + |s.waiting| + |s.running| + |s.putting| + |s.done| + |s.failed| + |s.raised| == |cfg.original|
    && s.taken == SumLens(s.replies) + |s.waiting| + |s.running| + |s.failed| + |s.raised|
    && (cfg.maxConcurrency.Some? ==> |s.running| + |s.putting| <= cfg.maxConcurrency.value)
    && s.taken <= Total(cfg)
  }
}
