// What every interleaving of the serving benchmark keeps.
module ServingSafety {
  import opened Bags
  import opened ServingTurn
  import opened ServingQueue

  // ----- conversations as answers come in -----

  lemma {:induction false} TranscriptGrows(o: seq<Prompt>, r: seq<Reply>, x: Reply, k: nat)
    requires k <= |o| && k <= |r|
    ensures Transcript(o, r + [x], k) == Transcript(o, r, k)
    ensures RealLengths(o, r + [x], k) == RealLengths(o, r, k)
    decreases k
  {
    if k > 0 {
      TranscriptGrows(o, r, x, k - 1);
    }
  }

  lemma {:induction false} LengthsMatch(o: seq<Prompt>, r: seq<Reply>, prompts: seq<Prompt>, k: nat)
    requires PromptsMatch(o, r, prompts) && k <= |r|
    ensures TurnLengths(prompts, k) == RealLengths(o, r, k)
    decreases k
  {
    if k > 0 {
      LengthsMatch(o, r, prompts, k - 1);
    }
  }

  // A turn is sent with the whole conversation so far and its real length.
  lemma CarriedIsTurnRequest(o: seq<Prompt>, r: seq<Reply>, v: Conv)
    requires PromptsMatch(o, r, v.prompts) && |r| < |o| && v.finished == |r| && v.messages == Transcript(o, r, |r|)
    ensures Carried(v) == TurnRequest(o, r, |r|)
  {
    LengthsMatch(o, r, v.prompts, |r|);
  }

  lemma SentSnoc(o: seq<Prompt>, r: seq<Reply>, sent: seq<Sent>, x: Sent)
    requires SentMatch(o, r, sent, 0) && |r| < |o| && x == TurnRequest(o, r, |r|)
    ensures SentMatch(o, r, sent + [x], 1)
  {
  }

  lemma SentAnswered(o: seq<Prompt>, r: seq<Reply>, sent: seq<Sent>, x: Reply)
    requires SentMatch(o, r, sent, 1)
    ensures SentMatch(o, r + [x], sent, 0)
  {
    forall k | 0 <= k < |sent| ensures sent[k] == TurnRequest(o, r + [x], k) {
      TranscriptGrows(o, r, x, k);
    }
  }

  lemma MessagesAnswered(o: seq<Prompt>, r: seq<Reply>, x: Reply)
    requires |r| < |o|
    ensures Transcript(o, r + [x], |r| + 1) == Transcript(o, r, |r|) + [User(o[|r|].content)] + [Assistant(x.text)]
  {
    TranscriptGrows(o, r, x, |r|);
  }

  lemma PromptsAnswered(o: seq<Prompt>, r: seq<Reply>, prompts: seq<Prompt>, x: Reply)
    requires PromptsMatch(o, r, prompts) && |r| < |o|
    ensures PromptsMatch(o, r + [x], prompts[|r| := prompts[|r|].(tokens := x.len)])
  {
  }

  lemma AccountsStarted(o: seq<Prompt>, r: seq<Reply>, v: Conv, sent: seq<Sent>)
    requires Accounts(o, r, v, sent, 0, 0) && o != []
    ensures v.finished < |v.prompts| && Accounts(o, r, Started(v), sent + [Carried(v)], 1, 0)
  {
    CarriedIsTurnRequest(o, r, v);
    SentSnoc(o, r, sent, Carried(v));
  }

  lemma AccountsAnswered(o: seq<Prompt>, r: seq<Reply>, v: Conv, sent: seq<Sent>, x: Reply)
    requires Accounts(o, r, v, sent, 1, 0)
    ensures v.finished < |v.prompts|
    ensures Accounts(o, r + [x], Answered(v, x.text, x.len), sent, 0, if HasNext(v) then 0 else 1)
  {
    PromptsAnswered(o, r, v.prompts, x);
    SentAnswered(o, r, sent, x);
    MessagesAnswered(o, r, x);
  }

  // ----- places -----

  lemma QuietStep(cfg: Config, s: State, step: Step, c: nat)
    requires Enabled(cfg, s, step) && (step.Fetch? || step.Abort? || step.Put? || step.Fail?)
    ensures var s' := Apply(cfg, s, step);
            && s'.convs == s.convs && s'.sent == s.sent && s'.replies == s.replies && s'.done == s.done && s'.raised == s.raised
            && Between(s', c) == Between(s, c) && Open(s', c) == Open(s, c)
  {
    hide Num;
    match step
    case Fetch =>
      NumDrop(s.queue, 0, Id, c);
      NumSnoc(s.waiting, s.queue[0], Id, c);
    case Fail(i) => NumDrop(s.running, i, Id, c);
    case Put(i) =>
      NumDrop(s.putting, i, Id, c);
      NumSnoc(s.queue, s.putting[i], Id, c);
    case _ =>
  }

  ghost predicate Indexed(cfg: Config, s: State) {
    |s.convs| == |s.sent| == |s.replies| == |cfg.original|
  }

  lemma StartMoves(cfg: Config, s: State, i: nat, c: nat)
    requires Enabled(cfg, s, Start(i)) && Indexed(cfg, s) && s.waiting[i] < |s.convs|
    requires s.convs[s.waiting[i]].finished < |s.convs[s.waiting[i]].prompts|
    ensures var s', d := Apply(cfg, s, Start(i)), s.waiting[i];
            var one := if d == c then 1 else 0;
            && s'.raised == s.raised && s'.replies == s.replies && s'.done == s.done
            && Between(s', c) + one == Between(s, c) && Open(s', c) == Open(s, c) + one
            && s'.convs == s.convs[d := Started(s.convs[d])]
            && s'.sent == s.sent[d := s.sent[d] + [Carried(s.convs[d])]]
  {
    hide Num;
    NumDrop(s.waiting, i, Id, c);
    NumSnoc(s.running, s.waiting[i], Id, c);
  }

  lemma SucceedMoves(cfg: Config, s: State, i: nat, text: string, len: nat, c: nat)
    requires Enabled(cfg, s, Succeed(i, text, len)) && Indexed(cfg, s) && s.running[i] < |s.convs|
    requires s.convs[s.running[i]].finished < |s.convs[s.running[i]].prompts|
    ensures var s', d := Apply(cfg, s, Succeed(i, text, len)), s.running[i];
            var one := if d == c then 1 else 0;
            && s'.raised == s.raised && s'.sent == s.sent && Open(s', c) + one == Open(s, c)
            && s'.convs == s.convs[d := Answered(s.convs[d], text, len)]
            && s'.replies == s.replies[d := s.replies[d] + [Reply(text, len)]]
            && (if HasNext(s.convs[d]) then s'.done == s.done && Between(s', c) == Between(s, c) + one
                else s'.done[c] == s.done[c] + one && Between(s', c) == Between(s, c))
  {
    hide Num;
    NumDrop(s.running, i, Id, c);
    NumSnoc(s.putting, s.running[i], Id, c);
  }

  lemma RaiseMoves(cfg: Config, s: State, i: nat, c: nat)
    requires Enabled(cfg, s, Start(i)) && Indexed(cfg, s) && s.waiting[i] < |s.convs|
    requires s.convs[s.waiting[i]].finished >= |s.convs[s.waiting[i]].prompts|
    ensures var s', d := Apply(cfg, s, Start(i)), s.waiting[i];
            && s'.raised == s.raised + multiset{d} && s'.done == s.done && Open(s', c) == Open(s, c)
            && Between(s', c) + (if d == c then 1 else 0) == Between(s, c)
            && s'.convs == s.convs && s'.sent == s.sent && s'.replies == s.replies
  {
    hide Num;
    NumDrop(s.waiting, i, Id, c);
  }

  // The conversation a step works on exists and has a turn to work on, unless
  // it never had a prompt.
  lemma Workable(cfg: Config, s: State, d: nat)
    requires Conserved(cfg, s) && Convs(cfg, s) && Places(s, d) > s.done[d] + s.raised[d]
    ensures d < |cfg.original| && s.done[d] == 0
    ensures s.convs[d].finished >= |s.convs[d].prompts| <==> cfg.original[d] == []
    ensures Open(s, d) > 0 ==> cfg.original[d] != []
  {
    assert Places(s, d) == if d < |cfg.original| then 1 else 0;
    assert ConvOf(cfg, s, d);
  }

  ghost predicate Works(cfg: Config, s: State, d: nat) {
    d < |s.convs| && d < |cfg.original| && (s.convs[d].finished >= |s.convs[d].prompts| <==> cfg.original[d] == [])
  }

  lemma StepWorkable(cfg: Config, s: State, step: Step)
    requires Conserved(cfg, s) && Convs(cfg, s) && Enabled(cfg, s, step)
    ensures step.Start? ==> Works(cfg, s, s.waiting[step.index])
    ensures step.Succeed? ==> Works(cfg, s, s.running[step.index]) && cfg.original[s.running[step.index]] != []
  {
    hide Num, ConvOf;
    if step.Start? {
      NumIn(s.waiting, step.index, Id);
      Workable(cfg, s, s.waiting[step.index]);
    } else if step.Succeed? {
      NumIn(s.running, step.index, Id);
      Workable(cfg, s, s.running[step.index]);
    }
  }

  // Only a task for a conversation without prompts raises an IndexError.
  lemma RaisesIff(cfg: Config, s: State, step: Step, c: nat)
    requires Conserved(cfg, s) && Convs(cfg, s) && Enabled(cfg, s, step)
    ensures Apply(cfg, s, step).raised[c]
         == s.raised[c] + if step.Start? && s.waiting[step.index] == c && c < |cfg.original| && cfg.original[c] == [] then 1 else 0
  {
    StepWorkable(cfg, s, step);
    hide ConvOf, Places;
  }

  lemma PlacesStep(cfg: Config, s: State, step: Step, c: nat)
    requires Conserved(cfg, s) && Convs(cfg, s) && Enabled(cfg, s, step)
    ensures Places(Apply(cfg, s, step), c) == Places(s, c)
  {
    StepWorkable(cfg, s, step);
    hide Apply, Between, Open, ConvOf;
    match step
    case Start(i) =>
      if cfg.original[s.waiting[i]] == [] {
        RaiseMoves(cfg, s, i, c);
      } else {
        StartMoves(cfg, s, i, c);
      }
    case Succeed(i, text, len) => SucceedMoves(cfg, s, i, text, len, c);
    case _ => QuietStep(cfg, s, step, c);
  }

  // ----- conversations -----

  lemma RaiseConv(cfg: Config, s: State, i: nat, c: nat)
    requires Conserved(cfg, s) && Convs(cfg, s) && Enabled(cfg, s, Start(i)) && c < |cfg.original|
    requires Works(cfg, s, s.waiting[i]) && cfg.original[s.waiting[i]] == []
    ensures Indexed(cfg, Apply(cfg, s, Start(i))) && ConvOf(cfg, Apply(cfg, s, Start(i)), c)
  {
    hide Apply, Between, Open, Accounts;
    assert ConvOf(cfg, s, c);
    RaiseMoves(cfg, s, i, c);
  }

  lemma StartConv(cfg: Config, s: State, i: nat, c: nat)
    requires Conserved(cfg, s) && Convs(cfg, s) && Enabled(cfg, s, Start(i)) && c < |cfg.original|
    requires Works(cfg, s, s.waiting[i]) && cfg.original[s.waiting[i]] != []
    ensures Indexed(cfg, Apply(cfg, s, Start(i))) && ConvOf(cfg, Apply(cfg, s, Start(i)), c)
  {
    hide Apply, Between, Open, Accounts;
    assert ConvOf(cfg, s, c) && Places(s, c) == 1;
    StartMoves(cfg, s, i, c);
    if s.waiting[i] == c {
      AccountsStarted(cfg.original[c], s.replies[c], s.convs[c], s.sent[c]);
    }
  }

  // The answered conversation: its one open turn is closed.
  lemma SucceedAt(cfg: Config, s: State, i: nat, text: string, len: nat)
    requires Enabled(cfg, s, Succeed(i, text, len)) && Indexed(cfg, s) && s.running[i] < |cfg.original|
    requires s.convs[s.running[i]].finished < |s.convs[s.running[i]].prompts|
    ensures var s', c := Apply(cfg, s, Succeed(i, text, len)), s.running[i];
            && Indexed(cfg, s') && s'.raised[c] == s.raised[c] && Open(s', c) + 1 == Open(s, c)
            && s'.sent[c] == s.sent[c] && s'.replies[c] == s.replies[c] + [Reply(text, len)]
            && s'.convs[c] == Answered(s.convs[c], text, len)
            && s'.done[c] == s.done[c] + if HasNext(s.convs[c]) then 0 else 1
  {
    hide Apply, Open, Answered, HasNext;
    SucceedMoves(cfg, s, i, text, len, s.running[i]);
  }

  lemma SucceedSame(cfg: Config, s: State, i: nat, text: string, len: nat)
    requires Convs(cfg, s) && Enabled(cfg, s, Succeed(i, text, len)) && s.running[i] < |cfg.original|
    requires s.convs[s.running[i]].finished < |s.convs[s.running[i]].prompts|
    requires Open(s, s.running[i]) == 1 && s.done[s.running[i]] == 0
    ensures Indexed(cfg, Apply(cfg, s, Succeed(i, text, len)))
    ensures ConvOf(cfg, Apply(cfg, s, Succeed(i, text, len)), s.running[i])
  {
    var c := s.running[i];
    assert ConvOf(cfg, s, c);
    SucceedAt(cfg, s, i, text, len);
    AccountsAnswered(cfg.original[c], s.replies[c], s.convs[c], s.sent[c], Reply(text, len));
    assert s.sent[c] != [] && cfg.original[c] != [];
    hide Apply, Open, Accounts, Answered, Convs, HasNext, Enabled;
  }

  lemma SucceedConv(cfg: Config, s: State, i: nat, text: string, len: nat, c: nat)
    requires Conserved(cfg, s) && Convs(cfg, s) && Enabled(cfg, s, Succeed(i, text, len)) && c < |cfg.original|
    requires Works(cfg, s, s.running[i]) && cfg.original[s.running[i]] != []
    ensures Indexed(cfg, Apply(cfg, s, Succeed(i, text, len))) && ConvOf(cfg, Apply(cfg, s, Succeed(i, text, len)), c)
  {
    if s.running[i] == c {
      assert Places(s, c) == 1;
      NumIn(s.running, i, Id);
      hide Apply, Convs, Conserved, Num;
      SucceedSame(cfg, s, i, text, len);
    } else {
      assert ConvOf(cfg, s, c);
      hide Apply, Between, Open, Accounts, Answered, Conserved;
      SucceedMoves(cfg, s, i, text, len, c);
    }
  }

  lemma ConvStep(cfg: Config, s: State, step: Step, c: nat)
    requires Conserved(cfg, s) && Convs(cfg, s) && Enabled(cfg, s, step) && c < |cfg.original|
    ensures Indexed(cfg, Apply(cfg, s, step)) && ConvOf(cfg, Apply(cfg, s, step), c)
  {
    StepWorkable(cfg, s, step);
    match step
    case Start(i) =>
      hide Apply, ConvOf;
      if cfg.original[s.waiting[i]] == [] {
        RaiseConv(cfg, s, i, c);
      } else {
        StartConv(cfg, s, i, c);
      }
    case Succeed(i, text, len) => SucceedConv(cfg, s, i, text, len, c);
    case _ =>
      assert ConvOf(cfg, s, c);
      hide Apply, Between, Open, Accounts;
      QuietStep(cfg, s, step, c);
  }

  // ----- counters -----

  lemma {:induction false} SumLensGrows<T>(ss: seq<seq<T>>, c: nat, x: T)
    requires c < |ss|
    ensures SumLens(ss[c := ss[c] + [x]]) == SumLens(ss) + 1
  {
    var init := ss[..|ss| - 1];
    if c == |ss| - 1 {
      assert ss[c := ss[c] + [x]][..|ss| - 1] == init;
    } else {
      SumLensGrows(init, c, x);
      assert ss[c := ss[c] + [x]][..|ss| - 1] == init[c := init[c] + [x]];
    }
  }

  lemma CountersStart(cfg: Config, s: State, i: nat)
    requires Counters(cfg, s) && Enabled(cfg, s, Start(i)) && Indexed(cfg, s) && Works(cfg, s, s.waiting[i])
    ensures Counters(cfg, Apply(cfg, s, Start(i)))
  {
    hide SumLens, Works;
  }

  lemma CountersSucceed(cfg: Config, s: State, i: nat, text: string, len: nat)
    requires Counters(cfg, s) && Enabled(cfg, s, Succeed(i, text, len)) && Indexed(cfg, s)
    requires Works(cfg, s, s.running[i]) && cfg.original[s.running[i]] != []
    ensures Counters(cfg, Apply(cfg, s, Succeed(i, text, len)))
  {
    hide SumLens;
    SumLensGrows(s.replies, s.running[i], Reply(text, len));
  }

  lemma CountersStep(cfg: Config, s: State, step: Step)
    requires Conserved(cfg, s) && Convs(cfg, s) && Counters(cfg, s) && Enabled(cfg, s, step)
    ensures Counters(cfg, Apply(cfg, s, step))
  {
    StepWorkable(cfg, s, step);
    hide Conserved, ConvOf, SumLens, Works;
    match step
    case Start(i) => CountersStart(cfg, s, i);
    case Succeed(i, text, len) => CountersSucceed(cfg, s, i, text, len);
    case _ =>
  }
}
