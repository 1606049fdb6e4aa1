// Inter-token latencies recorded while a reply streams in
// (python/sglang/bench_serving.py). Times are exact.
module StreamLatency {
  import opened Options

  // A decoded chunk: its text, the clock when it came in, the time since the
  // request was sent as read for the first token, and the reported number of
  // completion tokens.
  datatype Chunk = Chunk(text: string, time: real, sinceStart: real, tokens: int)

  function Sum(s: seq<real>): real {
    if s == [] then 0.0 else Sum(s[..|s| - 1]) + s[|s| - 1]
  }

  function Repeat(x: real, n: int): (r: seq<real>)
    ensures |r| == (if n > 0 then n else 0) && forall i :: 0 <= i < |r| ==> r[i] == x
  {
    if n <= 0 then [] else Repeat(x, n - 1) + [x]
  }

  lemma {:induction false} SumConcat(a: seq<real>, b: seq<real>)
    ensures Sum(a + b) == Sum(a) + Sum(b)
    decreases |b|
  {
    if b == [] {
      assert a + b == a;
    } else {
      SumConcat(a, b[..|b| - 1]);
      assert (a + b)[..|a + b| - 1] == a + b[..|b| - 1];
    }
  }

  lemma SumSnoc(s: seq<real>, x: real)
    ensures Sum(s + [x]) == Sum(s) + x
  {
    assert (s + [x])[..|s|] == s;
  }

  // x added up n times.
  function Times(x: real, n: int): real {
    if n <= 0 then 0.0 else Times(x, n - 1) + x
  }

  lemma {:induction false} SumRepeat(x: real, n: int)
    ensures |Repeat(x, n)| == if n > 0 then n else 0
    ensures Sum(Repeat(x, n)) == Times(x, n)
    decreases n
  {
    assert Sum([]) == 0.0;
    hide Sum;
    if n > 0 {
      SumRepeat(x, n - 1);
      SumSnoc(Repeat(x, n - 1), x);
    }
  }

  lemma OneMore(k: real, x: real)
    ensures (k + 1.0) * x == k * x + x
  {
  }

  lemma {:induction false} TimesIsProduct(x: real, n: int)
    requires n >= 0
    ensures Times(x, n) == n as real * x
  {
    if n > 0 {
      TimesIsProduct(x, n - 1);
      OneMore((n - 1) as real, x);
    }
  }

  // One of n equal parts of a gap.
  function Share(gap: real, n: int): real
    requires n != 0
  {
    gap / n as real
  }

  lemma SharesAddUp(gap: real, n: int)
    requires n > 0
    ensures n as real * Share(gap, n) == gap
  {
  }

  // n equal parts of a gap add up to the gap; a negative n makes no parts.
  lemma EqualParts(gap: real, n: int)
    requires n != 0
    ensures |Repeat(Share(gap, n), n)| == if n > 0 then n else 0
    ensures Sum(Repeat(Share(gap, n), n)) == if n > 0 then gap else 0.0
  {
    SumRepeat(Share(gap, n), n);
    if n > 0 {
      TimesIsProduct(Share(gap, n), n);
      SharesAddUp(gap, n);
    }
  }

  // ----- async_request_sglang_generate -----

  datatype Meter = Meter(ttft: real, recent: real, lastLen: int, itl: seq<real>)

  function OnChunk(m: Meter, c: Chunk): Meter {
    if c.text == [] then m
    else if m.ttft == 0.0 then m.(ttft := c.sinceStart, recent := c.time, lastLen := c.tokens)
    else if c.tokens == m.lastLen then m
    else
      var n := c.tokens - m.lastLen;
      Meter(m.ttft, c.time, c.tokens, m.itl + Repeat(Share(c.time - m.recent, n), n))
  }

  function Metered(start: real, chunks: seq<Chunk>): Meter {
    if chunks == [] then Meter(0.0, start, 0, [])
    else OnChunk(Metered(start, chunks[..|chunks| - 1]), chunks[|chunks| - 1])
  }

  method MeterGenerate(start: real, chunks: seq<Chunk>) returns (ttft: real, itl: seq<real>)
    ensures ttft == Metered(start, chunks).ttft && itl == Metered(start, chunks).itl
  {
    ttft, itl := 0.0, [];
    var mostRecent, lastOutputLen := start, 0;
    for k := 0 to |chunks|
      invariant Metered(start, chunks[..k]) == Meter(ttft, mostRecent, lastOutputLen, itl)
    {
      assert chunks[..k + 1][..k] == chunks[..k];
      var c := chunks[k];
      if c.text != [] {
        var counted := true;
        if ttft == 0.0 {
          ttft := c.sinceStart;
        } else {
          var numNewTokens := c.tokens - lastOutputLen;
          if numNewTokens == 0 {
            counted := false;
          } else {
            var adjusted := (c.time - mostRecent) / numNewTokens as real;
            itl := itl + Repeat(adjusted, numNewTokens);
          }
        }
        if counted {
          mostRecent, lastOutputLen := c.time, c.tokens;
        }
      }
    }
    assert chunks[..|chunks|] == chunks;
  }

  // ----- what the latencies add up to -----

  // The first chunk with text.
  function First(chunks: seq<Chunk>): Option<Chunk> {
    if chunks == [] then None
    else
      var f := First(chunks[..|chunks| - 1]);
      if f.Some? then f else if chunks[|chunks| - 1].text != [] then Some(chunks[|chunks| - 1]) else None
  }

  // Time and tokens that a falling token count makes the meter skip.
  function Skipped(start: real, chunks: seq<Chunk>): (real, int) {
    if chunks == [] then (0.0, 0)
    else
      var before, c := Metered(start, chunks[..|chunks| - 1]), chunks[|chunks| - 1];
      var skipped := Skipped(start, chunks[..|chunks| - 1]);
      if c.text != [] && before.ttft != 0.0 && c.tokens < before.lastLen
      then (skipped.0 + c.time - before.recent, skipped.1 + before.lastLen - c.tokens)
      else skipped
  }

  ghost predicate PositiveTtft(chunks: seq<Chunk>) {
    forall i :: 0 <= i < |chunks| ==> chunks[i].sinceStart > 0.0
  }

  lemma {:induction false} FirstPositive(chunks: seq<Chunk>)
    requires PositiveTtft(chunks)
    ensures First(chunks).Some? ==> First(chunks).value.sinceStart > 0.0
  {
    if chunks != [] {
      FirstPositive(chunks[..|chunks| - 1]);
    }
  }

  // For every stream: the recorded latencies and the skipped time add up to
  // the last counted timestamp minus the first, and there is one latency for
  // each token beyond the first chunk's, skipped ones apart.
  lemma {:induction false} LatencyAccounting(start: real, chunks: seq<Chunk>)
    requires PositiveTtft(chunks)
    ensures var m, f, skipped := Metered(start, chunks), First(chunks), Skipped(start, chunks);
            if f.None? then m == Meter(0.0, start, 0, []) && skipped == (0.0, 0)
            else && m.ttft == f.value.sinceStart
                 && Sum(m.itl) + skipped.0 == m.recent - f.value.time
                 && |m.itl| - skipped.1 == m.lastLen - f.value.tokens
  {
    if chunks != [] {
      var init, c := chunks[..|chunks| - 1], chunks[|chunks| - 1];
      FirstPositive(init);
      LatencyAccounting(start, init);
      var m := Metered(start, init);
      hide Sum, Repeat, Share;
      if c.text != [] && m.ttft != 0.0 && c.tokens != m.lastLen {
        var n := c.tokens - m.lastLen;
        EqualParts(c.time - m.recent, n);
        SumConcat(m.itl, Repeat(Share(c.time - m.recent, n), n));
      }
    }
  }

  ghost predicate NeverFalls(chunks: seq<Chunk>) {
    forall i, j :: 0 <= i < j < |chunks| && chunks[i].text != [] && chunks[j].text != [] ==> chunks[i].tokens <= chunks[j].tokens
  }

  lemma {:induction false} LastLenSeen(start: real, chunks: seq<Chunk>)
    ensures Metered(start, chunks).ttft != 0.0 ==>
              exists i :: 0 <= i < |chunks| && chunks[i].text != [] && chunks[i].tokens == Metered(start, chunks).lastLen
  {
    if chunks != [] {
      var init := chunks[..|chunks| - 1];
      LastLenSeen(start, init);
      if Metered(start, init).ttft != 0.0 {
        var i :| 0 <= i < |init| && init[i].text != [] && init[i].tokens == Metered(start, init).lastLen;
        assert chunks[i] == init[i];
      }
      assert chunks[|chunks| - 1] == chunks[|init|];
    }
  }

  lemma {:induction false} NothingSkipped(start: real, chunks: seq<Chunk>)
    requires NeverFalls(chunks)
    ensures Skipped(start, chunks) == (0.0, 0)
  {
    if chunks != [] {
      var init := chunks[..|chunks| - 1];
      NothingSkipped(start, init);
      LastLenSeen(start, init);
      if Metered(start, init).ttft != 0.0 {
        var i :| 0 <= i < |init| && init[i].text != [] && init[i].tokens == Metered(start, init).lastLen;
        assert chunks[i] == init[i];
      }
    }
  }

  // With token counts that never fall nothing is skipped: the latencies sum to
  // the last counted timestamp minus the first and number the tokens between.
  lemma LatencyConserved(start: real, chunks: seq<Chunk>)
    requires PositiveTtft(chunks) && NeverFalls(chunks) && First(chunks).Some?
    ensures var m, f := Metered(start, chunks), First(chunks).value;
            Sum(m.itl) == m.recent - f.time && |m.itl| == m.lastLen - f.tokens
  {
    LatencyAccounting(start, chunks);
    NothingSkipped(start, chunks);
  }

  // ----- each single latency -----

  // The chunks that count: with text, and with a token count other than that
  // of the one before.
  function Counted(chunks: seq<Chunk>): seq<Chunk> {
    if chunks == [] then []
    else
      var before, c := Counted(chunks[..|chunks| - 1]), chunks[|chunks| - 1];
      if Counts(before, c) then before + [c] else before
  }

  predicate Counts(before: seq<Chunk>, c: Chunk) {
    c.text != [] && (before == [] || before[|before| - 1].tokens != c.tokens)
  }

  ghost predicate Changing(cs: seq<Chunk>) {
    forall i :: 0 < i < |cs| ==> cs[i].tokens != cs[i - 1].tokens
  }

  // The latencies between consecutive chunks: the time between them shared
  // equally among the new tokens.
  ghost function Gaps(cs: seq<Chunk>): seq<real>
    requires Changing(cs)
  {
    if |cs| < 2 then []
    else
      var a, b := cs[|cs| - 2], cs[|cs| - 1];
      Gaps(cs[..|cs| - 1]) + Repeat((b.time - a.time) / (b.tokens - a.tokens) as real, b.tokens - a.tokens)
  }

  // The last counted chunk gives the clock and the token count, the first the
  // time to the first token, and each latency is the time since the counted
  // chunk before over the tokens since.
  ghost predicate MeterOf(m: Meter, start: real, cs: seq<Chunk>)
    requires Changing(cs)
  {
    if cs == [] then m == Meter(0.0, start, 0, [])
    else
      && m.ttft == cs[0].sinceStart > 0.0 && m.recent == cs[|cs| - 1].time && m.lastLen == cs[|cs| - 1].tokens
      && m.itl == Gaps(cs)
  }

  lemma MeterNext(m: Meter, start: real, cs: seq<Chunk>, c: Chunk)
    requires Changing(cs) && MeterOf(m, start, cs) && c.sinceStart > 0.0
    ensures Changing(if Counts(cs, c) then cs + [c] else cs)
    ensures MeterOf(OnChunk(m, c), start, if Counts(cs, c) then cs + [c] else cs)
  {
    if Counts(cs, c) {
      assert (cs + [c])[..|cs|] == cs;
    }
    hide Repeat;
  }

  // What is recorded of every stream, chunk by chunk.
  lemma {:induction false} LatencyOfEachChunk(start: real, chunks: seq<Chunk>)
    requires PositiveTtft(chunks)
    ensures Changing(Counted(chunks)) && MeterOf(Metered(start, chunks), start, Counted(chunks))
  {
    if chunks != [] {
      var n := |chunks| - 1;
      LatencyOfEachChunk(start, chunks[..n]);
      hide Changing, MeterOf, Counts, OnChunk;
      MeterNext(Metered(start, chunks[..n]), start, Counted(chunks[..n]), chunks[n]);
    }
  }

  // ----- async_request_openai_completions -----

  datatype TextMeter = TextMeter(ttft: real, recent: real, itl: seq<real>, texts: seq<string>)

  function OnText(m: TextMeter, c: Chunk): TextMeter {
    if c.text == [] then m
    else if m.ttft == 0.0 then m.(ttft := c.sinceStart, recent := c.time)
    else TextMeter(m.ttft, c.time, m.itl + [c.time - m.recent], m.texts + [c.text])
  }

  function TextMetered(start: real, chunks: seq<Chunk>): TextMeter {
    if chunks == [] then TextMeter(0.0, start, [], [])
    else OnText(TextMetered(start, chunks[..|chunks| - 1]), chunks[|chunks| - 1])
  }

  method MeterCompletions(start: real, chunks: seq<Chunk>) returns (ttft: real, itl: seq<real>, textChunks: seq<string>)
    ensures var m := TextMetered(start, chunks); ttft == m.ttft && itl == m.itl && textChunks == m.texts
  {
    ttft, itl, textChunks := 0.0, [], [];
    var mostRecent := start;
    for k := 0 to |chunks|
      invariant TextMetered(start, chunks[..k]) == TextMeter(ttft, mostRecent, itl, textChunks)
    {
      assert chunks[..k + 1][..k] == chunks[..k];
      var c := chunks[k];
      if c.text != [] {
        if ttft == 0.0 {
          ttft := c.sinceStart;
        } else {
          textChunks := textChunks + [c.text];
          itl := itl + [c.time - mostRecent];
        }
        mostRecent := c.time;
      }
    }
    assert chunks[..|chunks|] == chunks;
  }

  function Texts(chunks: seq<Chunk>): seq<string> {
    if chunks == [] then []
    else Texts(chunks[..|chunks| - 1]) + if chunks[|chunks| - 1].text != [] then [chunks[|chunks| - 1].text] else []
  }

  // One latency per text chunk after the first, in step with the recorded
  // texts, and together they span the first text chunk to the last.
  lemma {:induction false} TextsInStep(start: real, chunks: seq<Chunk>)
    requires PositiveTtft(chunks)
    ensures var m, f := TextMetered(start, chunks), First(chunks);
            if f.None? then m == TextMeter(0.0, start, [], []) && Texts(chunks) == []
            else && m.ttft == f.value.sinceStart
                 && |m.itl| == |m.texts| && Texts(chunks) == [f.value.text] + m.texts
                 && Sum(m.itl) == m.recent - f.value.time
  {
    if chunks != [] {
      var init, c := chunks[..|chunks| - 1], chunks[|chunks| - 1];
      FirstPositive(init);
      TextsInStep(start, init);
      var m := TextMetered(start, init);
      SumSnoc(m.itl, c.time - m.recent);
      hide Sum;
    }
  }

  function WithText(chunks: seq<Chunk>): seq<Chunk> {
    if chunks == [] then []
    else WithText(chunks[..|chunks| - 1]) + if chunks[|chunks| - 1].text != [] then [chunks[|chunks| - 1]] else []
  }

  // Each latency is the time between one chunk with text and the next, and
  // each recorded text is that of the later one.
  lemma {:induction false} TextLatencies(start: real, chunks: seq<Chunk>)
    requires PositiveTtft(chunks)
    ensures var m, cs := TextMetered(start, chunks), WithText(chunks);
            if cs == [] then m == TextMeter(0.0, start, [], [])
            else && m.ttft == cs[0].sinceStart > 0.0 && m.recent == cs[|cs| - 1].time
                 && |m.itl| == |m.texts| == |cs| - 1
                 && forall j :: 0 <= j < |cs| - 1 ==>
                      m.itl[j] == cs[j + 1].time - cs[j].time && m.texts[j] == cs[j + 1].text
  {
    if chunks != [] {
      TextLatencies(start, chunks[..|chunks| - 1]);
    }
  }

  // ----- re-spreading over retokenised chunks (calculate_metrics) -----

  // None is the ZeroDivisionError of a chunk without tokens.
  function Respread(itl: seq<real>, tokens: seq<nat>): Option<seq<real>>
    requires |itl| == |tokens|
  {
    if itl == [] then Some([])
    else
      var n := |itl| - 1;
      match Respread(itl[..n], tokens[..n])
      case None => None
      case Some(r) => if tokens[n] == 0 then None else Some(r + Repeat(Share(itl[n], tokens[n]), tokens[n]))
  }

  function SumNat(s: seq<nat>): nat {
    if s == [] then 0 else SumNat(s[..|s| - 1]) + s[|s| - 1]
  }

  // Re-spreading succeeds exactly when every chunk has a token, and then keeps
  // the total latency, with one entry per token.
  lemma {:induction false} RespreadConserves(itl: seq<real>, tokens: seq<nat>)
    requires |itl| == |tokens|
    ensures Respread(itl, tokens).Some? <==> forall i :: 0 <= i < |tokens| ==> tokens[i] > 0
    ensures Respread(itl, tokens).Some? ==>
              Sum(Respread(itl, tokens).value) == Sum(itl) && |Respread(itl, tokens).value| == SumNat(tokens)
  {
    hide Share, Repeat;
    if itl != [] {
      var n := |itl| - 1;
      RespreadConserves(itl[..n], tokens[..n]);
      var before := Respread(itl[..n], tokens[..n]);
      assert forall i :: 0 <= i < n ==> tokens[..n][i] == tokens[i];
      if before.Some? && tokens[n] > 0 {
        EqualParts(itl[n], tokens[n]);
        SumConcat(before.value, Repeat(Share(itl[n], tokens[n]), tokens[n]));
      }
    }
  }

  // Token j of chunk k gets an equal share of the latency of chunk k, and
  // chunks come in order.
  lemma {:induction false} RespreadInOrder(itl: seq<real>, tokens: seq<nat>, k: nat, j: nat)
    requires |itl| == |tokens| && Respread(itl, tokens).Some? && k < |tokens| && j < tokens[k]
    ensures var r := Respread(itl, tokens).value;
            SumNat(tokens[..k]) + j < |r| && r[SumNat(tokens[..k]) + j] == itl[k] / tokens[k] as real
  {
    var n := |itl| - 1;
    RespreadConserves(itl[..n], tokens[..n]);
    if k < n {
      RespreadInOrder(itl[..n], tokens[..n], k, j);
      assert tokens[..n][..k] == tokens[..k];
    }
    hide Sum;
  }

  method RetokenizeItl(itl: seq<real>, tokens: seq<nat>) returns (spread: Option<seq<real>>)
    requires |itl| == |tokens|
    ensures spread == Respread(itl, tokens)
  {
    var retokenized: seq<real> := [];
    for k := 0 to |itl|
      invariant Respread(itl[..k], tokens[..k]) == Some(retokenized)
    {
      assert itl[..k + 1][..k] == itl[..k] && tokens[..k + 1][..k] == tokens[..k];
      if tokens[k] == 0 {
        RespreadConserves(itl, tokens);
        return None;
      }
      retokenized := retokenized + Repeat(Share(itl[k], tokens[k]), tokens[k]);
    }
    assert itl[..|itl|] == itl && tokens[..|tokens|] == tokens;
    spread := Some(retokenized);
  }
}
