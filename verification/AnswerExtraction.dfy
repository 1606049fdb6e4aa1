// Boxed-answer extraction
// (benchmark/reasoning_benchmark/answer_extraction.py, extract_boxed_answers).
module AnswerExtraction {
  import opened Options
  import opened Splitting

  // ----- brace depth -----

  function Depth(s: string): int {
    if s == [] then 0
    else Depth(s[..|s| - 1]) + (if s[|s| - 1] == '{' then 1 else if s[|s| - 1] == '}' then -1 else 0)
  }

  ghost predicate Balanced(s: string) {
    Depth(s) == 0 && forall k :: 0 <= k <= |s| ==> Depth(s[..k]) >= 0
  }

  lemma DepthSnoc(s: string, i: nat)
    requires i < |s|
    ensures Depth(s[..i + 1]) == Depth(s[..i]) + (if s[i] == '{' then 1 else if s[i] == '}' then -1 else 0)
  {
    assert s[..i + 1][..i] == s[..i];
  }

  // ----- extract_boxed_answers -----

  const Boxed: string := "boxed{"

  // i closes the box: the text before it is balanced and it is the '}' too many.
  ghost predicate Closes(piece: string, i: int) {
    0 <= i < |piece| && piece[i] == '}' && Balanced(piece[..i])
  }

  // The brace that closes the box, scanning from i with depth n.
  function ClosingBrace(piece: string, i: nat, n: nat): (r: Option<nat>)
    requires i <= |piece| && n == Depth(piece[..i]) && forall k :: 0 <= k <= i ==> Depth(piece[..k]) >= 0
    ensures r.Some? ==> Closes(piece, r.value)
    ensures r.None? ==> forall k :: i <= k <= |piece| ==> Depth(piece[..k]) >= 0
    decreases |piece| - i
  {
    if i == |piece| then None
    else
      DepthSnoc(piece, i);
      if piece[i] == '{' then ClosingBrace(piece, i + 1, n + 1)
      else if piece[i] == '}' then
        if n == 0 then
          assert forall k :: 0 <= k <= i ==> piece[..i][..k] == piece[..k];
          Some(i)
        else ClosingBrace(piece, i + 1, n - 1)
      else ClosingBrace(piece, i + 1, n)
  }

  // The answer taken from a box closed at i.
  function Taken(piece: string, i: nat): string
    requires i < |piece|
  {
    if i + 1 < |piece| && piece[i + 1] == '%' then piece[..i + 1] else piece[..i]
  }

  function PieceAnswer(piece: string): Option<string> {
    match ClosingBrace(piece, 0, 0)
    case None => None
    case Some(i) => Some(Taken(piece, i))
  }

  function Answers(pieces: seq<string>): seq<string> {
    if pieces == [] then []
    else
      Answers(pieces[..|pieces| - 1])
      + (match PieceAnswer(pieces[|pieces| - 1]) case Some(a) => [a] case None => [])
  }

  // A piece has at most one closing brace, and the scan finds it if there is one.
  lemma ClosingBraceIff(piece: string, i: nat)
    ensures ClosingBrace(piece, 0, 0) == Some(i) <==> Closes(piece, i)
  {
    var r := ClosingBrace(piece, 0, 0);
    if Closes(piece, i) {
      DepthSnoc(piece, i);
      if r.Some? && r.value < i {
        ClosedBefore(piece, r.value, i);
      } else if r.Some? && i < r.value {
        ClosedBefore(piece, i, r.value);
      }
    }
  }

  lemma ClosedBefore(piece: string, i: nat, j: nat)
    requires Closes(piece, i) && i < j
    ensures !Closes(piece, j)
  {
    DepthSnoc(piece, i);
    if j < |piece| {
      assert piece[..j][..i + 1] == piece[..i + 1];
    }
  }

  method ExtractBoxedAnswers(text: string) returns (answers: seq<string>)
    ensures answers == Answers(Split(text, Boxed)[1..])
    ensures exists at :: AnswersFrom(Split(text, Boxed)[1..], at, answers)
  {
    answers := [];
    var pieces := Split(text, Boxed)[1..];
    for p := 0 to |pieces|
      invariant answers == Answers(pieces[..p])
    {
      assert pieces[..p + 1][..p] == pieces[..p];
      var piece := pieces[p];
      var n: nat := 0;
      var i: nat := 0;
      ghost var whole := ClosingBrace(piece, 0, 0);
      while i < |piece|
        invariant i <= |piece| && n == Depth(piece[..i])
        invariant forall k :: 0 <= k <= i ==> Depth(piece[..k]) >= 0
        invariant answers == Answers(pieces[..p])
        invariant whole == ClosingBrace(piece, i, n)
      {
        DepthSnoc(piece, i);
        if piece[i] == '{' {
          n := n + 1;
        } else if piece[i] == '}' {
          if n == 0 {
            answers := answers + [if i + 1 < |piece| && piece[i + 1] == '%' then piece[..i + 1] else piece[..i]];
            break;
          }
          n := n - 1;
        }
        i := i + 1;
      }
    }
    assert pieces[..|pieces|] == pieces;
    ghost var at := AnswersComplete(pieces);
  }

  // ----- a printer for boxed answers, and the round trip -----

  // A box and the text that follows it.
  datatype Box = Box(content: string, filler: string)

  function Piece(b: Box): string {
    b.content + "}" + b.filler
  }

  function Pieces(boxes: seq<Box>): (r: seq<string>)
    ensures |r| == |boxes| && forall i :: 0 <= i < |boxes| ==> r[i] == Piece(boxes[i])
  {
    if boxes == [] then [] else Pieces(boxes[..|boxes| - 1]) + [Piece(boxes[|boxes| - 1])]
  }

  function Document(intro: string, boxes: seq<Box>): string {
    Join([intro] + Pieces(boxes), Boxed)
  }

  function Contents(boxes: seq<Box>): (r: seq<string>)
    ensures |r| == |boxes|
    ensures forall i :: 0 <= i < |boxes| ==>
              r[i] == if boxes[i].filler != [] && boxes[i].filler[0] == '%' then boxes[i].content + "}" else boxes[i].content
  {
    if boxes == [] then []
    else
      var b := boxes[|boxes| - 1];
      Contents(boxes[..|boxes| - 1]) + [if b.filler != [] && b.filler[0] == '%' then b.content + "}" else b.content]
  }

  ghost predicate WellBoxed(boxes: seq<Box>) {
    forall i :: 0 <= i < |boxes| ==>
      Balanced(boxes[i].content) && !Contains(boxes[i].content, Boxed) && !Contains(boxes[i].filler, Boxed)
  }

  lemma BoxedBorderFree()
    ensures BorderFree(Boxed)
  {
    forall n | 0 < n < |Boxed| ensures Boxed[..n] != Boxed[|Boxed| - n..] {
      assert Boxed[..n][0] == 'b';
      assert Boxed[|Boxed| - n..][0] == Boxed[|Boxed| - n];
    }
  }

  lemma BoxAnswer(b: Box)
    requires Balanced(b.content)
    ensures PieceAnswer(Piece(b))
         == Some(if b.filler != [] && b.filler[0] == '%' then b.content + "}" else b.content)
  {
    var i := |b.content|;
    assert Piece(b)[..i] == b.content && Piece(b)[..i + 1] == b.content + "}";
    ClosingBraceIff(Piece(b), i);
  }

  lemma {:induction false} BoxAnswers(boxes: seq<Box>)
    requires WellBoxed(boxes)
    ensures Answers(Pieces(boxes)) == Contents(boxes)
  {
    if boxes != [] {
      var init := boxes[..|boxes| - 1];
      BoxAnswers(init);
      BoxAnswer(boxes[|boxes| - 1]);
      assert Pieces(boxes)[..|boxes| - 1] == Pieces(init);
    }
  }

  lemma PiecesClean(intro: string, boxes: seq<Box>)
    requires WellBoxed(boxes) && !Contains(intro, Boxed)
    ensures Split(Document(intro, boxes), Boxed)[1..] == Pieces(boxes)
  {
    var pieces := [intro] + Pieces(boxes);
    forall i | 0 <= i < |pieces| ensures !Contains(pieces[i], Boxed) {
      if i > 0 {
        ContainsAcross(boxes[i - 1].content, '}', boxes[i - 1].filler, Boxed);
      }
    }
    BoxedBorderFree();
    JoinThenSplit(pieces, Boxed);
    assert pieces[1..] == Pieces(boxes);
  }

  ghost predicate NoPercent(boxes: seq<Box>) {
    forall i :: 0 <= i < |boxes| ==> boxes[i].filler == [] || boxes[i].filler[0] != '%'
  }

  ghost predicate AreContents(boxes: seq<Box>, answers: seq<string>) {
    |answers| == |boxes| && forall i :: 0 <= i < |boxes| ==> answers[i] == boxes[i].content
  }

  // Extraction gives back exactly the boxed contents, in order, if and only if
  // no box is followed by '%'; a box that is keeps its closing brace.
  lemma BoxedRoundTrip(intro: string, boxes: seq<Box>)
    requires WellBoxed(boxes) && !Contains(intro, Boxed)
    ensures Answers(Split(Document(intro, boxes), Boxed)[1..]) == Contents(boxes)
    ensures AreContents(boxes, Contents(boxes)) <==> NoPercent(boxes)
  {
    PiecesClean(intro, boxes);
    BoxAnswers(boxes);
    ContentsKeptIff(boxes);
    hide Split, WellBoxed, Answers, AreContents, NoPercent;
  }

  lemma ContentsKeptIff(boxes: seq<Box>)
    ensures AreContents(boxes, Contents(boxes)) <==> NoPercent(boxes)
  {
    if AreContents(boxes, Contents(boxes)) {
      forall i | 0 <= i < |boxes| ensures boxes[i].filler == [] || boxes[i].filler[0] != '%' {
        assert |boxes[i].content + "}"| != |boxes[i].content|;
      }
    }
  }

  // On any text a piece yields exactly what stands before the brace that
  // closes its box, and nothing if the box is never closed.
  lemma PieceAnswerIff(piece: string, a: string)
    ensures PieceAnswer(piece) == Some(a) <==> exists i :: Closes(piece, i) && a == Taken(piece, i)
  {
    forall i | Closes(piece, i) ensures ClosingBrace(piece, 0, 0) == Some(i) {
      ClosingBraceIff(piece, i);
    }
  }

  predicate PercentAt(piece: string, i: nat) {
    i < |piece| && piece[i] == '%'
  }

  // Answer a of a piece whose box closes at i is balanced unless '%' follows,
  // and then it is a balanced text with the closing brace kept.
  ghost predicate AnswerAt(piece: string, i: nat, a: string) {
    && Closes(piece, i)
    && (Balanced(a) <==> !PercentAt(piece, i + 1))
    && a == piece[..i] + if PercentAt(piece, i + 1) then "}" else ""
  }

  lemma TakenBalance(piece: string, i: nat)
    requires Closes(piece, i)
    ensures AnswerAt(piece, i, Taken(piece, i))
  {
    DepthSnoc(piece, i);
    assert piece[..i + 1] == piece[..i] + "}";
    assert piece[..i + 1][..i + 1] == piece[..i + 1];
  }

  // Every answer of any text comes from one of its pieces, and whether it is
  // balanced depends on that piece alone.
  lemma {:induction false} AnswersBalanced(pieces: seq<string>, a: string)
    requires a in Answers(pieces)
    ensures exists p, i :: p in pieces && AnswerAt(p, i, a)
  {
    var init, last := pieces[..|pieces| - 1], pieces[|pieces| - 1];
    if a in Answers(init) {
      AnswersBalanced(init, a);
      var p, i :| p in init && AnswerAt(p, i, a);
      assert p in pieces;
    } else {
      PieceAnswerIff(last, a);
      var i :| Closes(last, i) && a == Taken(last, i);
      TakenBalance(last, i);
      assert last in pieces;
    }
  }

  // ----- all answers -----

  ghost predicate ClosesSomewhere(piece: string) {
    exists i :: Closes(piece, i)
  }

  ghost predicate IsAnswer(piece: string, a: string) {
    exists i :: AnswerAt(piece, i, a)
  }

  // The answers are those of the pieces at the indices `at`, in order: exactly
  // the pieces whose box closes.
  ghost predicate AnswersFrom(pieces: seq<string>, at: seq<nat>, answers: seq<string>) {
    && |at| == |answers|
    && (forall j, k :: 0 <= j < k < |at| ==> at[j] < at[k])
    && (forall k: nat :: k in at <==> k < |pieces| && ClosesSomewhere(pieces[k]))
    && (forall j :: 0 <= j < |at| ==> at[j] < |pieces| && IsAnswer(pieces[at[j]], answers[j]))
  }

  lemma PieceAnswered(piece: string)
    ensures PieceAnswer(piece).Some? <==> ClosesSomewhere(piece)
    ensures PieceAnswer(piece).Some? ==> IsAnswer(piece, PieceAnswer(piece).value)
  {
    if PieceAnswer(piece).Some? {
      PieceAnswerIff(piece, PieceAnswer(piece).value);
      var i :| Closes(piece, i) && PieceAnswer(piece).value == Taken(piece, i);
      TakenBalance(piece, i);
    } else {
      forall i ensures !Closes(piece, i) {
        if Closes(piece, i) {
          PieceAnswerIff(piece, Taken(piece, i));
        }
      }
    }
  }

  lemma AnswersSkip(pieces: seq<string>, at: seq<nat>, answers: seq<string>, p: string)
    requires AnswersFrom(pieces, at, answers) && !ClosesSomewhere(p)
    ensures AnswersFrom(pieces + [p], at, answers)
  {
    var all := pieces + [p];
    hide ClosesSomewhere, IsAnswer;
    assert forall k: nat :: k < |pieces| ==> all[k] == pieces[k];
    assert all[|pieces|] == p;
  }

  lemma AnswersSnoc(pieces: seq<string>, at: seq<nat>, answers: seq<string>, p: string, a: string)
    requires AnswersFrom(pieces, at, answers) && ClosesSomewhere(p) && IsAnswer(p, a)
    ensures AnswersFrom(pieces + [p], at + [|pieces|], answers + [a])
  {
    var all, at' := pieces + [p], at + [|pieces|];
    hide ClosesSomewhere, IsAnswer;
    assert forall k: nat :: k < |pieces| ==> all[k] == pieces[k];
    assert all[|pieces|] == p;
    forall k: nat ensures k in at' <==> k < |all| && ClosesSomewhere(all[k]) {
      assert k in at' <==> k in at || k == |pieces|;
    }
  }

  lemma AnswersNone()
    ensures AnswersFrom([], [], Answers([]))
  {
  }

  lemma AnswersLast(init: seq<string>, p: string)
    ensures Answers(init + [p]) == Answers(init) + match PieceAnswer(p) case Some(a) => [a] case None => []
  {
    assert (init + [p])[..|init|] == init;
    hide PieceAnswer;
  }

  // Every piece whose box closes gives its answer, in order, and no other does,
  // on any text: a box that is cut off costs none of the others.
  lemma {:induction false} AnswersComplete(pieces: seq<string>) returns (at: seq<nat>)
    ensures AnswersFrom(pieces, at, Answers(pieces))
  {
    hide *;
    if pieces == [] {
      at := [];
      AnswersNone();
    } else {
      var n := |pieces| - 1;
      var init, p := pieces[..n], pieces[n];
      assert pieces == init + [p];
      at := AnswersComplete(init);
      PieceAnswered(p);
      AnswersLast(init, p);
      match PieceAnswer(p)
      case None =>
        AnswersSkip(init, at, Answers(init), p);
        assert Answers(init) + [] == Answers(init);
      case Some(a) =>
        AnswersSnoc(init, at, Answers(init), p, a);
        at := at + [n];
    }
  }

  // Answers of a text are those of its parts, one after the other.
  lemma {:induction false} AnswersConcat(a: seq<string>, b: seq<string>)
    ensures Answers(a + b) == Answers(a) + Answers(b)
    decreases |b|
  {
    if b == [] {
      assert a + b == a;
    } else {
      AnswersConcat(a, b[..|b| - 1]);
      assert (a + b)[..|a + b| - 1] == a + b[..|b| - 1];
      hide PieceAnswer;
    }
  }
}
