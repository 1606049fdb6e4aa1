// One turn of a multi-turn conversation: the state that the request function
// updates in place (benchmark/hicache/bench_serving.py, RequestFuncInput and
// async_request_openai_completions).
module ServingTurn {
  import opened Options

  // A prompt with its input length; `tokens` is the requested number of output
  // tokens until the turn is answered, and the real number afterwards.
  datatype Prompt = Prompt(content: string, inputLen: nat, tokens: nat)

  datatype Message = User(content: string) | Assistant(content: string)

  datatype Conv = Conv(prompts: seq<Prompt>, messages: seq<Message>, finished: nat)

  // What one request carries.
  datatype Sent = Sent(messages: seq<Message>, promptLen: nat, maxTokens: nat)

  // The lengths of the first k turns, input and output.
  function TurnLengths(prompts: seq<Prompt>, k: nat): nat
    requires k <= |prompts|
  {
    if k == 0 then 0 else TurnLengths(prompts, k - 1) + prompts[k - 1].inputLen + prompts[k - 1].tokens
  }

  function Started(v: Conv): Conv
    requires v.finished < |v.prompts|
  {
    v.(messages := v.messages + [User(v.prompts[v.finished].content)])
  }

  function Carried(v: Conv): Sent
    requires v.finished < |v.prompts|
  {
    Sent(Started(v).messages,
         TurnLengths(v.prompts, v.finished) + v.prompts[v.finished].inputLen,
         v.prompts[v.finished].tokens)
  }

  // After a successful reply; only a conversation with turns left moves on.
  function Answered(v: Conv, text: string, outputLen: nat): Conv
    requires v.finished < |v.prompts|
  {
    Conv(v.prompts[v.finished := v.prompts[v.finished].(tokens := outputLen)],
         v.messages + [Assistant(text)],
         if v.finished + 1 < |v.prompts| then v.finished + 1 else v.finished)
  }

  predicate HasNext(v: Conv) {
    v.finished + 1 < |v.prompts|
  }

  class RequestFuncInput {
    var prompts: seq<Prompt>
    var prevMessages: seq<Message>
    var finishedPrompts: nat

    function View(): Conv
      reads this
    {
      Conv(prompts, prevMessages, finishedPrompts)
    }

    constructor (prompts: seq<Prompt>)
      ensures View() == Conv(prompts, [], 0)
    {
      this.prompts, prevMessages, finishedPrompts := prompts, [], 0;
    }

    // Up to the POST: None is the IndexError of a conversation without a
    // prompt for this turn.
    method StartTurn() returns (sent: Option<Sent>)
      modifies this`prevMessages
      ensures sent.None? <==> finishedPrompts >= |prompts|
      ensures sent.None? ==> View() == old(View())
      ensures sent.Some? ==> sent.value == Carried(old(View())) && View() == Started(old(View()))
    {
      var promptIdx := finishedPrompts;
      if promptIdx >= |prompts| {
        return None;
      }
      var promptLen := 0;
      for j := 0 to promptIdx
        invariant promptLen == TurnLengths(prompts, j)
      {
        promptLen := promptLen + prompts[j].inputLen + prompts[j].tokens;
      }
      promptLen := promptLen + prompts[promptIdx].inputLen;
      prevMessages := prevMessages + [User(prompts[promptIdx].content)];
      sent := Some(Sent(prevMessages, promptLen, prompts[promptIdx].tokens));
    }

    // After a complete answer; `requeue` tells whether the conversation goes
    // back to the queue.
    method FinishTurn(text: string, outputLen: nat) returns (requeue: bool)
      requires finishedPrompts < |prompts|
      modifies this
      ensures View() == Answered(old(View()), text, outputLen)
      ensures requeue == HasNext(old(View()))
    {
      var promptIdx := finishedPrompts;
      prompts := prompts[promptIdx := prompts[promptIdx].(tokens := outputLen)];
      promptIdx := promptIdx + 1;
      prevMessages := prevMessages + [Assistant(text)];
      requeue := promptIdx < |prompts|;
      if requeue {
        finishedPrompts := promptIdx;
      }
    }
  }
}
