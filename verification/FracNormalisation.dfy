// Rewriting \frac12 and \frac1{2} to \frac{1}{2}
// (benchmark/reasoning_benchmark/answer_extraction.py, _fix_fracs).
module FracNormalisation {
  import opened Splitting

  const Frac: string := "\\frac"

  predicate Braced(p: string) {
    |p| > 0 && p[0] == '{'
  }

  // The text after a \frac that makes the rewriter give up.
  predicate TooShort(p: string) {
    !Braced(p) && |p| < 2
  }

  function FixPiece(p: string): string
    requires !TooShort(p)
  {
    if Braced(p) then p
    else if p[1] != '{' then "{" + [p[0]] + "}{" + [p[1]] + "}" + p[2..]
    else "{" + [p[0]] + "}" + [p[1]] + p[2..]
  }

  function FixPieces(ps: seq<string>): (r: seq<string>)
    requires forall i :: 0 <= i < |ps| ==> !TooShort(ps[i])
    ensures |r| == |ps| && forall i :: 0 <= i < |ps| ==> r[i] == FixPiece(ps[i])
  {
    if ps == [] then [] else FixPieces(ps[..|ps| - 1]) + [FixPiece(ps[|ps| - 1])]
  }

  predicate SomeTooShort(ps: seq<string>) {
    exists i :: 1 <= i < |ps| && TooShort(ps[i])
  }

  predicate GivesUp(s: string) {
    SomeTooShort(Split(s, Frac))
  }

  function FixedPieces(s: string): (r: seq<string>)
    requires !GivesUp(s)
    ensures r != []
  {
    var ps := Split(s, Frac);
    [ps[0]] + FixPieces(ps[1..])
  }

  function Fixed(s: string): string {
    if GivesUp(s) then s else Join(FixedPieces(s), Frac)
  }

  // ----- the rewriter -----

  lemma {:induction false} JoinSnoc(ps: seq<string>, p: string, sep: string)
    requires ps != []
    ensures Join(ps + [p], sep) == Join(ps, sep) + sep + p
    decreases |ps|
  {
    if |ps| > 1 {
      JoinSnoc(ps[1..], p, sep);
      assert (ps + [p])[1..] == ps[1..] + [p];
    }
  }

  lemma JoinOne(p: string)
    ensures Join([p], Frac) == p
  {
  }

  // one pass through the body of the loop
  method FixOne(p: string) returns (r: string)
    requires !TooShort(p)
    ensures r == FixPiece(p)
  {
    if |p| > 0 && p[0] == '{' {
      return p;
    }
    var a, b := p[0], p[1];
    if b != '{' {
      return "{" + [a] + "}{" + [b] + "}" + p[2..];
    } else {
      return "{" + [a] + "}" + [b] + p[2..];
    }
  }

  method FixFracs(s: string) returns (r: string)
    ensures r == Fixed(s)
  {
    hide Split, Join, TooShort, FixPiece;
    var ps := Split(s, Frac);
    var newStr := ps[0];
    var tail := ps[1..];
    assert forall i :: 0 <= i < |tail| ==> tail[i] == ps[i + 1];
    ghost var done := [ps[0]];
    JoinOne(ps[0]);
    for k := 0 to |tail|
      invariant forall i :: 0 <= i < k ==> !TooShort(tail[i])
      invariant done == [ps[0]] + FixPieces(tail[..k]) && newStr == Join(done, Frac)
    {
      if TooShort(tail[k]) {
        return s;
      }
      assert tail[..k + 1][..k] == tail[..k];
      var fixed := FixOne(tail[k]);
      JoinSnoc(done, fixed, Frac);
      newStr := newStr + Frac + fixed;
      done := done + [fixed];
    }
    assert tail[..|tail|] == tail;
    r := newStr;
  }

  // ----- idempotence -----

  lemma FracBorderFree()
    ensures BorderFree(Frac)
  {
    forall n | 0 < n < |Frac| ensures Frac[..n] != Frac[|Frac| - n..] {
      assert Frac[..n][0] == '\\';
      assert Frac[|Frac| - n..][0] == Frac[|Frac| - n];
    }
  }

  lemma ShortHasNone(p: string)
    requires |p| < |Frac|
    ensures !Contains(p, Frac)
  {
  }

  lemma SuffixHasNone(p: string, k: nat)
    requires k <= |p| && !Contains(p, Frac)
    ensures !Contains(p[k..], Frac)
  {
    forall i ensures !Occurs(p[k..], Frac, i) {
      if 0 <= i && i + |Frac| <= |p| - k {
        assert p[k..][i..i + |Frac|] == p[i + k..i + k + |Frac|];
        assert !Occurs(p, Frac, i + k);
      }
    }
  }

  // A rewritten piece is braced and brings in no new \frac.
  lemma FixPieceClean(p: string)
    requires !TooShort(p) && !Contains(p, Frac)
    ensures Braced(FixPiece(p)) && !Contains(FixPiece(p), Frac)
  {
    if !Braced(p) {
      var group := "{" + [p[0]] + "}";
      ShortHasNone(group);
      SuffixHasNone(p, 2);
      if p[1] == '{' {
        ContainsAcross(group, '{', p[2..], Frac);
        assert FixPiece(p) == group + ['{'] + p[2..];
      } else {
        ShortHasNone([p[1]]);
        ContainsAcross(group, '{', [p[1]], Frac);
        ContainsAcross(group + ['{'] + [p[1]], '}', p[2..], Frac);
        assert FixPiece(p) == group + ['{'] + [p[1]] + ['}'] + p[2..];
      }
    }
  }

  ghost predicate AllBraced(ps: seq<string>) {
    forall i :: 1 <= i < |ps| ==> Braced(ps[i])
  }

  // Splitting the rewritten text gives back the rewritten pieces.
  lemma SplitFixed(s: string)
    requires !GivesUp(s)
    ensures Split(Fixed(s), Frac) == FixedPieces(s)
    ensures AllBraced(FixedPieces(s))
  {
    var ps, qs := Split(s, Frac), FixedPieces(s);
    SplitPieces(s, Frac);
    forall i | 0 <= i < |qs| ensures !Contains(qs[i], Frac) && (i > 0 ==> Braced(qs[i])) {
      if i > 0 {
        FixPieceClean(ps[i]);
      }
    }
    FracBorderFree();
    JoinThenSplit(qs, Frac);
  }

  lemma BracedUnchanged(s: string)
    requires AllBraced(Split(s, Frac))
    ensures !GivesUp(s) && Fixed(s) == s
  {
    var ps := Split(s, Frac);
    assert FixPieces(ps[1..]) == ps[1..];
    assert FixedPieces(s) == ps;
    SplitThenJoin(s, Frac);
  }

  // Rewriting a second time changes nothing, on any string.
  lemma FixIdempotent(s: string)
    ensures Fixed(Fixed(s)) == Fixed(s)
  {
    if !GivesUp(s) {
      SplitFixed(s);
      BracedUnchanged(Fixed(s));
    }
  }

  // ----- every \frac gets its braces -----

  ghost predicate EveryFracBraced(s: string) {
    forall i :: Occurs(s, Frac, i) ==> i + |Frac| < |s| && s[i + |Frac|] == '{'
  }

  lemma HeadPiece(s: string)
    ensures Braced(s) <==> Braced(Split(s, Frac)[0])
  {
    hide Find;
    var k := Find(s, Frac);
    if k == 0 {
      assert s[0] == s[0..|Frac|][0] == '\\';
    }
  }

  // The occurrences of the separator are where the pieces meet.
  lemma {:induction false} BracedPieces(s: string)
    ensures EveryFracBraced(s) <==> AllBraced(Split(s, Frac))
    decreases |s|
  {
    hide Find;
    var k := Find(s, Frac);
    if k >= 0 {
      var rest := s[k + |Frac|..];
      BracedPieces(rest);
      HeadPiece(rest);
      OccurrencesAfter(s, k);
      var ps, qs := Split(s, Frac), Split(rest, Frac);
      assert ps == [s[..k]] + qs;
      assert AllBraced(ps) <==> Braced(qs[0]) && AllBraced(qs) by {
        if AllBraced(ps) {
          assert Braced(ps[1]);
          forall i | 1 <= i < |qs| ensures Braced(qs[i]) { assert Braced(ps[i + 1]); }
        }
      }
    }
  }

  lemma OccurrencesAfter(s: string, k: nat)
    requires Find(s, Frac) == k
    ensures EveryFracBraced(s) <==> Braced(s[k + |Frac|..]) && EveryFracBraced(s[k + |Frac|..])
  {
    hide Find;
    var rest := s[k + |Frac|..];
    forall i | i > k ensures Occurs(s, Frac, i) <==> Occurs(rest, Frac, i - k - |Frac|) {
      if i < k + |Frac| {
        assert s[i] == s[k..k + |Frac|][i - k] == Frac[i - k] != Frac[0];
        assert i + |Frac| <= |s| ==> s[i..i + |Frac|][0] == s[i];
      } else if i + |Frac| <= |s| {
        assert rest[i - k - |Frac|..i - k] == s[i..i + |Frac|];
      }
    }
    if EveryFracBraced(s) {
      assert Occurs(s, Frac, k);
      forall j | Occurs(rest, Frac, j) ensures j + |Frac| < |rest| && rest[j + |Frac|] == '{' {
        assert Occurs(s, Frac, j + k + |Frac|);
      }
    }
    if Braced(rest) && EveryFracBraced(rest) {
      forall i | Occurs(s, Frac, i) ensures i + |Frac| < |s| && s[i + |Frac|] == '{' {
        if i != k {
          assert Occurs(rest, Frac, i - k - |Frac|);
        }
      }
    }
  }

  // ----- when the rewriter gives up -----

  // The text from j on does not begin with a brace, and ends or comes to the
  // next \frac within two characters.
  ghost predicate Starved(s: string, j: nat) {
    (j >= |s| || s[j] != '{') && (|s| < j + 2 || Occurs(s, Frac, j) || Occurs(s, Frac, j + 1))
  }

  ghost predicate SomeStarved(s: string) {
    exists i: nat :: Occurs(s, Frac, i) && Starved(s, i + |Frac|)
  }

  lemma HeadStarved(s: string)
    ensures TooShort(Split(s, Frac)[0]) <==> Starved(s, 0)
  {
    hide Find;
    var k := Find(s, Frac);
    HeadPiece(s);
    assert Occurs(s, Frac, 0) || Occurs(s, Frac, 1) ==> 0 <= k <= 1;
    assert 0 <= k <= 1 ==> Occurs(s, Frac, k);
  }

  lemma StarvedAfter(s: string, k: nat)
    requires Find(s, Frac) == k
    ensures SomeStarved(s) <==> Starved(s[k + |Frac|..], 0) || SomeStarved(s[k + |Frac|..])
  {
    hide Find;
    var m := k + |Frac|;
    var rest := s[m..];
    forall i: nat ensures Occurs(rest, Frac, i) <==> Occurs(s, Frac, i + m) {
      if i + |Frac| <= |rest| { assert rest[i..i + |Frac|] == s[i + m..i + m + |Frac|]; }
    }
    forall j: nat ensures Starved(rest, j) <==> Starved(s, j + m) {
      assert Occurs(rest, Frac, j + 1) <==> Occurs(s, Frac, j + 1 + m);
    }
    hide Starved;
    if SomeStarved(s) {
      var i: nat :| Occurs(s, Frac, i) && Starved(s, i + |Frac|);
      OccursApart(s, k, i);
      if i != k {
        assert Occurs(rest, Frac, i - m) && Starved(rest, i - m + |Frac|);
      }
    }
    if Starved(rest, 0) {
      assert Occurs(s, Frac, k) && Starved(s, k + |Frac|);
    }
    if SomeStarved(rest) {
      var i: nat :| Occurs(rest, Frac, i) && Starved(rest, i + |Frac|);
      assert Occurs(s, Frac, i + m) && Starved(s, i + m + |Frac|);
    }
  }

  lemma OccursApart(s: string, k: nat, i: nat)
    requires Find(s, Frac) == k && Occurs(s, Frac, i)
    ensures i == k || i >= k + |Frac|
  {
    hide Find;
    assert s[i] == s[i..i + |Frac|][0] == Frac[0];
    assert forall d :: 0 <= d < |Frac| ==> s[k + d] == s[k..k + |Frac|][d] == Frac[d];
    assert forall d :: 0 < d < |Frac| ==> Frac[d] != Frac[0];
  }

  // The rewriter gives the text back as it was if and only if some \frac has
  // neither a brace nor two characters behind it before the next.
  lemma {:induction false} GivesUpIff(s: string)
    ensures GivesUp(s) <==> SomeStarved(s)
    decreases |s|
  {
    var k := Find(s, Frac);
    if k < 0 {
      assert forall i: nat :: !Occurs(s, Frac, i);
    } else {
      var rest := s[k + |Frac|..];
      GivesUpIff(rest);
      HeadStarved(rest);
      StarvedAfter(s, k);
      var ps, qs := Split(s, Frac), Split(rest, Frac);
      assert ps == [s[..k]] + qs;
      hide Find, Split, Starved, SomeStarved, SomeTooShort;
      ShortNext(s[..k], qs);
    }
  }

  lemma ShortNext(p: string, qs: seq<string>)
    requires qs != []
    ensures SomeTooShort([p] + qs) <==> TooShort(qs[0]) || SomeTooShort(qs)
  {
    var ps := [p] + qs;
    hide TooShort;
    if SomeTooShort(ps) {
      var i :| 1 <= i < |ps| && TooShort(ps[i]);
      assert ps[i] == qs[i - 1];
    }
    if TooShort(qs[0]) {
      assert ps[1] == qs[0];
    }
    if SomeTooShort(qs) {
      var i :| 1 <= i < |qs| && TooShort(qs[i]);
      assert ps[i + 1] == qs[i];
    }
  }

  // Every \frac of the result is followed by '{' exactly when the rewriter did
  // not give up; and it changes the text exactly when it did not give up and
  // some \frac lacked its brace.
  lemma FixBraces(s: string)
    ensures EveryFracBraced(Fixed(s)) <==> !GivesUp(s)
    ensures Fixed(s) == s <==> GivesUp(s) || EveryFracBraced(s)
  {
    BracedPieces(s);
    BracedPieces(Fixed(s));
    if GivesUp(s) {
      var i :| 1 <= i < |Split(s, Frac)| && TooShort(Split(s, Frac)[i]);
      assert !AllBraced(Split(s, Frac));
    } else {
      SplitFixed(s);
      if EveryFracBraced(s) {
        BracedUnchanged(s);
      }
    }
  }

  // ----- nothing but braces is added -----

  function Unbraced(s: string): string {
    if s == [] then []
    else (if s[0] == '{' || s[0] == '}' then [] else [s[0]]) + Unbraced(s[1..])
  }

  lemma UnbracedStep(s: string)
    requires s != []
    ensures Unbraced(s) == (if s[0] == '{' || s[0] == '}' then [] else [s[0]]) + Unbraced(s[1..])
  {
  }

  lemma {:induction false} UnbracedConcat(a: string, b: string)
    ensures Unbraced(a + b) == Unbraced(a) + Unbraced(b)
    decreases |a|
  {
    if a == [] {
      assert a + b == b;
    } else {
      UnbracedConcat(a[1..], b);
      UnbracedStep(a);
      UnbracedStep(a + b);
      hide Unbraced;
      assert (a + b)[1..] == a[1..] + b && (a + b)[0] == a[0];
    }
  }

  lemma UnbracedPiece(p: string)
    requires !TooShort(p)
    ensures Unbraced(FixPiece(p)) == Unbraced(p)
  {
    if !Braced(p) {
      var a, b, rest := [p[0]], [p[1]], p[2..];
      assert p == a + b + rest;
      UnbracedConcat(a + b, rest);
      UnbracedConcat(a, b);
      var head := if p[1] != '{' then "{" + a + "}{" + b + "}" else "{" + a + "}" + b;
      assert FixPiece(p) == head + rest;
      UnbracedConcat(head, rest);
      UnbracedHead(p[0], p[1]);
    }
  }

  lemma UnbracedHead(a: char, b: char)
    ensures Unbraced("{" + [a] + "}{" + [b] + "}") == Unbraced([a]) + Unbraced([b])
    ensures Unbraced("{" + [a] + "}" + [b]) == Unbraced([a]) + Unbraced([b])
  {
    assert Unbraced("{") == [] && Unbraced("}") == [] && Unbraced("}{") == [];
    UnbracedConcat("{", [a]);
    UnbracedConcat("{" + [a], "}{");
    UnbracedConcat("{" + [a], "}");
    UnbracedConcat("{" + [a] + "}{", [b]);
    UnbracedConcat("{" + [a] + "}{" + [b], "}");
    UnbracedConcat("{" + [a] + "}", [b]);
  }

  lemma {:induction false} UnbracedJoin(ps: seq<string>, qs: seq<string>)
    requires |ps| == |qs| > 0 && forall i :: 0 <= i < |ps| ==> Unbraced(ps[i]) == Unbraced(qs[i])
    ensures Unbraced(Join(ps, Frac)) == Unbraced(Join(qs, Frac))
    decreases |ps|
  {
    if |ps| > 1 {
      UnbracedJoin(ps[1..], qs[1..]);
      UnbracedConcat(ps[0] + Frac, Join(ps[1..], Frac));
      UnbracedConcat(qs[0] + Frac, Join(qs[1..], Frac));
      UnbracedConcat(ps[0], Frac);
      UnbracedConcat(qs[0], Frac);
    }
  }

  // Apart from braces the rewritten text is the original, in the same order.
  lemma FixAddsOnlyBraces(s: string)
    ensures Unbraced(Fixed(s)) == Unbraced(s)
  {
    if !GivesUp(s) {
      var ps, qs := Split(s, Frac), FixedPieces(s);
      forall i | 0 <= i < |ps| ensures Unbraced(ps[i]) == Unbraced(qs[i]) {
        if i > 0 {
          UnbracedPiece(ps[i]);
        }
      }
      UnbracedJoin(ps, qs);
      SplitThenJoin(s, Frac);
    }
  }

  // ----- the rewriting itself, on the text -----

  lemma NothingToFix(s: string)
    requires !Contains(s, Frac)
    ensures !GivesUp(s) && Fixed(s) == s
  {
    assert Find(s, Frac) < 0;
    assert Split(s, Frac) == [s];
    assert FixedPieces(s) == [s];
  }

  lemma JoinHead(head: string, p: string, tail: seq<string>)
    ensures Join([head + p] + tail, Frac) == head + Join([p] + tail, Frac)
  {
    if tail != [] {
      assert ([head + p] + tail)[1..] == tail && ([p] + tail)[1..] == tail;
      var rest := Frac + Join(tail, Frac);
      assert head + p + Frac + Join(tail, Frac) == head + (p + rest);
      assert p + Frac + Join(tail, Frac) == p + rest;
    }
  }

  // Text put in front that begins no \frac goes to the first piece.
  lemma SplitShift(head: string, t: string)
    requires forall i :: 0 <= i < |head| ==> !Occurs(head + t, Frac, i)
    ensures Split(head + t, Frac) == [head + Split(t, Frac)[0]] + Split(t, Frac)[1..]
  {
    var s := head + t;
    hide Find;
    forall i ensures Occurs(t, Frac, i) <==> i >= 0 && Occurs(s, Frac, i + |head|) {
      if 0 <= i && i + |Frac| <= |t| {
        assert s[i + |head|..i + |head| + |Frac|] == t[i..i + |Frac|];
      }
    }
    var j, k := Find(s, Frac), Find(t, Frac);
    assert Occurs(t, Frac, j - |head|) <==> j - |head| >= 0 && Occurs(s, Frac, j);
    if k < 0 {
      assert j < 0;
    } else {
      assert Occurs(s, Frac, k + |head|);
      assert j == k + |head|;
      assert s[j + |Frac|..] == t[k + |Frac|..] && s[..j] == head + t[..k];
    }
  }

  // What a head that is rewritten as h means for the whole text.
  lemma FixedFrom(x: string, head: string, h: string, t: string)
    requires !Contains(x, Frac) && forall i :: 0 <= i < |head| ==> !Occurs(head + t, Frac, i)
    requires forall p: string :: !TooShort(head + p) && FixPiece(head + p) == h + p
    ensures GivesUp(x + Frac + (head + t)) == GivesUp(t)
    ensures !GivesUp(t) ==> Fixed(x + Frac + (head + t)) == x + Frac + (h + Fixed(t))
  {
    var s, qs := x + Frac + (head + t), Split(t, Frac);
    FracBorderFree();
    SplitAt(x, Frac, head + t);
    SplitShift(head, t);
    var us := Split(head + t, Frac);
    hide Split, BorderFree, Contains, FixPiece, TooShort;
    assert Split(s, Frac) == [x] + us && us == [head + qs[0]] + qs[1..];
    ShortNext(x, us);
    SameShort(head + qs[0], qs[0], qs[1..]);
    assert [qs[0]] + qs[1..] == qs;
    if !GivesUp(t) {
      FixedPiecesFrom(x, head, h, qs, s);
      var tail := FixPieces(qs[1..]);
      assert FixedPieces(t) == [qs[0]] + tail;
      JoinHead(h, qs[0], tail);
      assert ([x] + ([h + qs[0]] + tail))[1..] == [h + qs[0]] + tail;
    }
  }

  lemma SameShort(p: string, q: string, rest: seq<string>)
    ensures SomeTooShort([p] + rest) <==> SomeTooShort([q] + rest)
  {
    hide TooShort;
    assert forall i :: 1 <= i < |rest| + 1 ==> ([p] + rest)[i] == ([q] + rest)[i];
  }

  lemma FixedPiecesFrom(x: string, head: string, h: string, qs: seq<string>, s: string)
    requires qs != [] && Split(s, Frac) == [x] + ([head + qs[0]] + qs[1..]) && !GivesUp(s)
    requires !TooShort(head + qs[0]) && FixPiece(head + qs[0]) == h + qs[0]
    requires forall i :: 1 <= i < |qs| ==> !TooShort(qs[i])
    ensures FixedPieces(s) == [x] + ([h + qs[0]] + FixPieces(qs[1..]))
  {
    var ps := Split(s, Frac);
    assert ps[1..] == [head + qs[0]] + qs[1..];
    hide Split, TooShort, FixPiece;
    FixPiecesTail(ps[1..]);
    assert ps[1..][0] == head + qs[0] && ps[1..][1..] == qs[1..];
  }

  lemma {:induction false} FixPiecesTail(ps: seq<string>)
    requires ps != [] && forall i :: 0 <= i < |ps| ==> !TooShort(ps[i])
    ensures FixPieces(ps) == [FixPiece(ps[0])] + FixPieces(ps[1..])
  {
    hide TooShort, FixPiece;
    assert FixPieces(ps)[1..] == FixPieces(ps[1..]);
  }

  function BracedPair(a: char, b: char): string {
    "{" + [a] + "}" + if b == '{' then "{" else "{" + [b] + "}"
  }

  // \frac followed by two characters, whatever they are but a brace in first
  // place: the first gets braces, and the second too unless it is one.
  lemma FixedPair(x: string, a: char, b: char, t: string)
    requires !Contains(x, Frac) && a != '{'
    requires !Occurs([a, b] + t, Frac, 0) && !Occurs([a, b] + t, Frac, 1)
    ensures GivesUp(x + Frac + ([a, b] + t)) == GivesUp(t)
    ensures !GivesUp(t) ==> Fixed(x + Frac + ([a, b] + t)) == x + Frac + (BracedPair(a, b) + Fixed(t))
  {
    var h := BracedPair(a, b);
    forall p: string ensures !TooShort([a, b] + p) && FixPiece([a, b] + p) == h + p {
      assert ([a, b] + p)[2..] == p;
    }
    hide TooShort, FixPiece, GivesUp, Fixed, Contains;
    FixedFrom(x, [a, b], h, t);
  }

  // \frac followed by a brace is left alone.
  lemma FixedBrace(x: string, t: string)
    requires !Contains(x, Frac)
    ensures GivesUp(x + Frac + ("{" + t)) == GivesUp(t)
    ensures !GivesUp(t) ==> Fixed(x + Frac + ("{" + t)) == x + Frac + ("{" + Fixed(t))
  {
    var s := "{" + t;
    assert |s| >= |Frac| ==> s[0..|Frac|][0] == '{';
    assert !Occurs(s, Frac, 0);
    forall p: string ensures !TooShort("{" + p) && FixPiece("{" + p) == "{" + p {}
    hide TooShort, FixPiece, GivesUp, Fixed, Contains, Occurs;
    FixedFrom(x, "{", "{", t);
  }
}
