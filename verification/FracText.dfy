// How TeX reads a whole text with fractions inside fractions, and exactly when
// the rewriter keeps what it reads
// (benchmark/reasoning_benchmark/answer_extraction.py, _fix_fracs).
module FracText {
  import opened Options
  import opened Splitting
  import opened FracNormalisation
  import opened FracMeaning

  // The text as read: \frac, groups, and everything else symbol by symbol. An
  // argument of a \frac written without braces is read as a group of one.
  datatype Token = Over | Open | Close | Symbol(text: string)

  // For the text outside all groups and for each open group, innermost last,
  // how many arguments the latest \frac still waits for.
  type Waiting = seq<nat>

  ghost predicate Valid(w: Waiting) {
    w != [] && forall i :: 0 <= i < |w| ==> w[i] <= 2
  }

  function Top(w: Waiting): nat
    requires w != []
  {
    w[|w| - 1]
  }

  function Given(w: Waiting): Waiting
    requires w != []
  {
    if Top(w) == 0 then w else w[|w| - 1 := Top(w) - 1]
  }

  datatype Reading = Reading(out: seq<Token>, rest: string, waiting: Waiting)

  function ReadSymbol(s: string, n: nat, w: Waiting): Reading
    requires w != [] && n <= |s|
  {
    Reading(if Top(w) == 0 then [Symbol(s[..n])] else [Open, Symbol(s[..n]), Close], s[n..], Given(w))
  }

  // One step of reading. \frac runs into the letters behind it once spaces are
  // gone, and is taken as \frac all the same. A \frac is no argument of another
  // unless in a group, and a group does not close on a \frac that still waits.
  function ReadNext(s: string, w: Waiting): Option<Reading>
    requires s != [] && w != []
  {
    if s[0] == '{' then Some(Reading([Open], s[1..], w + [0]))
    else if s[0] == '}' then
      if |w| == 1 || Top(w) > 0 then None else Some(Reading([Close], s[1..], Given(w[..|w| - 1])))
    else if Frac <= s then
      if Top(w) > 0 then None else Some(Reading([Over], s[|Frac|..], w[|w| - 1 := 2]))
    else if s[0] != '\\' then Some(ReadSymbol(s, 1, w))
    else if |s| == 1 then None
    else Some(ReadSymbol(s, ControlLength(s), w))
  }

  function Prefixed(out: seq<Token>, r: Option<seq<Token>>): Option<seq<Token>> {
    match r
    case None => None
    case Some(tokens) => Some(out + tokens)
  }

  // All of s; at its end every group is closed and no argument is missing.
  function Read(s: string, w: Waiting): Option<seq<Token>>
    requires w != []
    decreases |s|
  {
    if s == [] then (if w == [0] then Some([]) else None)
    else
      match ReadNext(s, w)
      case None => None
      case Some(r) => Prefixed(r.out, Read(r.rest, r.waiting))
  }

  function ReadText(s: string): Option<seq<Token>> {
    Read(s, [0])
  }

  // ----- the exact condition -----

  // The last backslash escapes whatever is put behind the text.
  predicate EndsEscaped(s: string) {
    s != [] && if s[0] == '\\' then |s| == 1 || EndsEscaped(s[2..]) else EndsEscaped(s[1..])
  }

  // A piece that keeps its meaning: it had its brace, or it stands behind a
  // real \frac and its head is plain.
  predicate Spared(before: string, p: string) {
    Braced(p) || (!EndsEscaped(before) && |p| >= 2 && PlainHead(p))
  }

  ghost predicate AllSpared(before: string, ps: seq<string>)
    decreases |ps|
  {
    ps == [] || (Spared(before, ps[0]) && AllSpared(ps[0], ps[1..]))
  }

  // The text of the pieces, each behind its separator.
  function Rest(ps: seq<string>): string {
    if ps == [] then [] else Frac + ps[0] + Rest(ps[1..])
  }

  ghost predicate Fixable(ps: seq<string>) {
    forall i :: 0 <= i < |ps| ==> !TooShort(ps[i]) && !Contains(ps[i], Frac)
  }

  // ----- reading within one piece -----

  ghost predicate AtFrac(r: string) {
    r == [] || Frac <= r
  }

  ghost predicate NoLetter(r: string) {
    r == [] || !Letter(r[0])
  }

  lemma RestAtFrac(ps: seq<string>)
    ensures AtFrac(Rest(ps))
  {
  }

  lemma {:induction false} LetterRunStops(x: string, r: string)
    requires NoLetter(r)
    ensures LetterRun(x + r) == LetterRun(x)
    decreases |x|
  {
    if x == [] {
      assert x + r == r;
    } else {
      assert (x + r)[1..] == x[1..] + r;
      LetterRunStops(x[1..], r);
    }
  }

  lemma {:induction false} EndsAfterLetters(x: string)
    ensures EndsEscaped(x) == EndsEscaped(x[LetterRun(x)..])
    decreases |x|
  {
    if x != [] && Letter(x[0]) {
      EndsAfterLetters(x[1..]);
      assert x[1..][LetterRun(x[1..])..] == x[LetterRun(x)..];
    }
  }

  lemma NotFrac(x: string, r: string)
    requires x != [] && !Contains(x, Frac) && AtFrac(r)
    ensures !(Frac <= x + r) && !(Frac <= x)
  {
    var s := x + r;
    if |x| >= |Frac| {
      assert !Occurs(x, Frac, 0);
      assert s[..|Frac|] == x[..|Frac|];
    } else if r != [] {
      assert s[|x|] == r[0] == '\\' && Frac[|x|] != '\\';
    }
  }

  lemma ControlWithin(x: string, r: string)
    requires |x| >= 2 && NoLetter(r)
    ensures ControlLength(x + r) == ControlLength(x)
  {
    assert (x + r)[1..] == x[1..] + r;
    LetterRunStops(x[1..], r);
    hide LetterRun;
  }

  lemma EndsAfterControl(x: string)
    requires |x| >= 2 && x[0] == '\\'
    ensures EndsEscaped(x) == EndsEscaped(x[ControlLength(x)..])
  {
    if Letter(x[1]) {
      var y := x[2..];
      EndsAfterLetters(y);
      assert x[1..][1..] == y && ControlLength(x) == 2 + LetterRun(y);
      assert y[LetterRun(y)..] == x[2 + LetterRun(y)..];
    }
  }

  lemma SymbolWithin(x: string, r: string, n: nat, w: Waiting)
    requires n <= |x| && Valid(w)
    ensures var a := ReadSymbol(x, n, w);
            ReadSymbol(x + r, n, w) == Reading(a.out, a.rest + r, a.waiting) && Valid(a.waiting)
  {
    var s := x + r;
    assert s[n..] == x[n..] + r && s[..n] == x[..n];
  }

  lemma BraceWithin(x: string, r: string, w: Waiting)
    requires x != [] && (x[0] == '{' || x[0] == '}') && Valid(w)
    ensures var n := ReadNext(x, w);
            if n.None? then ReadNext(x + r, w).None?
            else
              && ReadNext(x + r, w) == Some(Reading(n.value.out, n.value.rest + r, n.value.waiting))
              && n.value.rest == x[1..] && Valid(n.value.waiting)
  {
    var s := x + r;
    assert s[1..] == x[1..] + r;
  }

  // A step that begins within a piece ends within it.
  lemma ReadWithin(x: string, r: string, w: Waiting)
    requires x != [] && x != "\\" && !Contains(x, Frac) && AtFrac(r) && Valid(w)
    ensures var n := ReadNext(x, w);
            if n.None? then ReadNext(x + r, w).None?
            else
              && ReadNext(x + r, w) == Some(Reading(n.value.out, n.value.rest + r, n.value.waiting))
              && |n.value.rest| < |x| && Valid(n.value.waiting)
              && !Contains(n.value.rest, Frac) && EndsEscaped(n.value.rest) == EndsEscaped(x)
  {
    if x[0] == '{' || x[0] == '}' {
      BraceWithin(x, r, w);
      SuffixHasNone(x, 1);
    } else {
      NotFrac(x, r);
      assert (x + r)[0] == x[0];
      var k := if x[0] == '\\' then ControlLength(x) else 1;
      SymbolWithin(x, r, k, w);
      SuffixHasNone(x, k);
      if x[0] == '\\' {
        ControlWithin(x, r);
        EndsAfterControl(x);
      }
      assert ReadSymbol(x, k, w).rest == x[k..];
      hide ReadSymbol, ControlLength, Contains, Valid;
    }
  }

  // ----- the same first tokens -----

  lemma Cancel(out: seq<Token>, a: Option<seq<Token>>, b: Option<seq<Token>>)
    ensures Prefixed(out, a) == Prefixed(out, b) <==> a == b
  {
    if a.Some? && b.Some? && out + a.value == out + b.value {
      assert a.value == (out + a.value)[|out|..] == b.value;
    }
  }

  function AsArgument(text: string): seq<Token> {
    [Open, Symbol(text), Close]
  }

  lemma {:induction false} Prefixes(a: seq<Token>, b: seq<Token>, r: Option<seq<Token>>)
    ensures Prefixed(a, Prefixed(b, r)) == Prefixed(a + b, r)
  {
    if r.Some? {
      assert a + (b + r.value) == a + b + r.value;
    }
  }

  // A character is read the same with braces as without.
  lemma CharacterArgument(c: char, t: string, w: Waiting)
    requires c !in "{}\\" && Valid(w) && Top(w) > 0
    ensures Read([c] + t, w) == Prefixed(AsArgument([c]), Read(t, Given(w)))
    ensures Read("{" + [c] + "}" + t, w) == Prefixed(AsArgument([c]), Read(t, Given(w)))
  {
    var s, u := [c] + t, "{" + [c] + "}" + t;
    assert s[..1] == [c] && s[1..] == t;
    assert u[1..] == [c] + ("}" + t) && u[1..][..1] == [c];
    assert u[1..][1..] == "}" + t && ("}" + t)[1..] == t;
    assert (w + [0])[..|w|] == w;
    hide Read;
    OneStep(s, w);
    OneStep(u, w);
    OneStep(u[1..], w + [0]);
    OneStep("}" + t, w + [0]);
    Prefixes([Symbol([c])], [Close], Read(t, Given(w)));
    Prefixes([Open], [Symbol([c])] + [Close], Read(t, Given(w)));
    assert [Open] + ([Symbol([c])] + [Close]) == AsArgument([c]);
  }

  lemma OneStep(s: string, w: Waiting)
    requires s != [] && w != []
    ensures Read(s, w) == match ReadNext(s, w) case None => None case Some(r) => Prefixed(r.out, Read(r.rest, r.waiting))
  {
  }

  lemma ControlArgument(s: string, w: Waiting)
    requires |s| >= 2 && s[0] == '\\' && !(Frac <= s) && Valid(w) && Top(w) > 0
    ensures var n := ControlLength(s);
            && Read(s, w) == Prefixed(AsArgument(s[..n]), Read(s[n..], Given(w)))
            && (!Letter(s[1]) ==> s[..n] == ['\\', s[1]])
  {
  }

  // A backslash put in braces escapes the closing one.
  lemma BackslashGroup(t: string, w: Waiting)
    requires Valid(w)
    ensures Read("{" + "\\" + "}" + t, w) == Prefixed([Open, Symbol("\\}")], Read(t, w + [0]))
  {
    var s := "{" + "\\" + "}" + t;
    assert s[1..] == "\\}" + t;
    assert s[1..][..2] == "\\}" && s[1..][2..] == t;
    assert ControlLength(s[1..]) == 2;
    assert !(Frac <= s[1..]) by { assert s[1..][1] == '}' && Frac[1] == 'f'; }
    assert Given(w + [0]) == w + [0];
    hide Read, ControlLength;
    OneStep(s, w);
    OneStep(s[1..], w + [0]);
    Prefixes([Open], [Symbol("\\}")], Read(t, w + [0]));
    assert [Open] + [Symbol("\\}")] == [Open, Symbol("\\}")];
  }

  predicate PlainSecond(rest: string)
    requires rest != []
  {
    rest[0] != '\\' || (|rest| > 1 && rest[1] == '}')
  }

  function SecondLength(rest: string): nat
    requires rest != []
  {
    if rest[0] == '\\' then 2 else 1
  }

  lemma EscapedBraceArgument(t: string, w: Waiting)
    requires Valid(w) && Top(w) > 0
    ensures Read("\\}" + t, w) == Prefixed(AsArgument("\\}"), Read(t, Given(w)))
    ensures Read("{" + "\\" + "}" + ("}" + t), w) == Prefixed(AsArgument("\\}"), Read(t, Given(w)))
  {
    var s := "\\}" + t;
    assert s[1] == '}' && s[..2] == "\\}" && s[2..] == t;
    assert !(Frac <= s) by { assert Frac[1] == 'f'; }
    ControlArgument(s, w);
    BackslashGroup("}" + t, w);
    assert (w + [0])[..|w|] == w && ("}" + t)[1..] == t;
    hide Read;
    OneStep("}" + t, w + [0]);
    Prefixes([Open, Symbol("\\}")], [Close], Read(t, Given(w)));
    assert [Open, Symbol("\\}")] + [Close] == AsArgument("\\}");
  }

  lemma SecondKept(rest: string, r: string, w: Waiting)
    requires rest != [] && rest[0] != '{' && rest[0] != '}' && PlainSecond(rest) && Valid(w) && Top(w) > 0
    ensures var k := SecondLength(rest);
            && Read(rest + r, w) == Prefixed(AsArgument(rest[..k]), Read(rest[k..] + r, Given(w)))
            && Read("{" + [rest[0]] + "}" + (rest[1..] + r), w) == Read(rest + r, w)
            && EndsEscaped(rest[k..]) == EndsEscaped(rest)
  {
    if rest[0] == '\\' {
      var t := rest[2..] + r;
      assert rest + r == "\\}" + t && rest[1..] + r == "}" + t && rest[..2] == "\\}";
      EscapedBraceArgument(t, w);
    } else {
      assert rest + r == [rest[0]] + (rest[1..] + r) && rest[..1] == [rest[0]];
      CharacterArgument(rest[0], rest[1..] + r, w);
    }
  }

  lemma SecondLost(rest: string, r: string, q: string, w: Waiting)
    requires rest != [] && !PlainSecond(rest) && !Contains(rest, Frac) && AtFrac(r) && Valid(w) && Top(w) > 0
    requires Read(rest + r, w).Some?
    ensures Read("{" + [rest[0]] + "}" + (rest[1..] + q), w) != Read(rest + r, w)
  {
    var s := rest + r;
    NotFrac(rest, r);
    assert |s| >= 2 && s[1] != '}';
    ControlArgument(s, w);
    BackslashGroup(rest[1..] + q, w);
    assert "{" + [rest[0]] + "}" == "{" + "\\" + "}";
    assert s[..ControlLength(s)][1] == s[1];
    hide Read, ControlLength;
    assert Read(s, w).value[1] == Symbol(s[..ControlLength(s)]);
  }

  lemma FirstLost(p: string, r: string, tail: string, w: Waiting)
    requires |p| >= 2 && p[0] == '\\' && !Contains(p, Frac) && AtFrac(r) && Valid(w) && Top(w) > 0
    requires Read(p + r, w).Some? && tail != [] && tail[0] == '{'
    ensures Read("{" + "\\" + "}" + tail, w) != Read(p + r, w)
  {
    NotFrac(p, r);
    ControlArgument(p + r, w);
    BackslashGroup(tail, w);
    OneStep(tail, w + [0]);
    hide Read, ControlLength;
    assert Read(p + r, w).value[2] == Close;
  }

  // ----- the head of a piece behind a real \frac -----

  lemma Stray(s: string, w: Waiting)
    requires s != [] && s[0] == '}' && w != [] && Top(w) > 0
    ensures Read(s, w).None?
  {
  }

  lemma FixedText(p: string, q: string)
    requires !TooShort(p) && !Braced(p)
    ensures var rest := p[1..];
            FixPiece(p) + q == "{" + [p[0]] + "}" + (if rest[0] == '{' then rest + q
                                                    else "{" + [rest[0]] + "}" + (rest[1..] + q))
  {
    assert p[1..][1..] == p[2..] && (p[1] == '{' ==> p[1..] == "{" + p[2..]);
  }

  // How much of the head is read as arguments and tokens before both texts go
  // on alike.
  function HeadLength(p: string): nat
    requires |p| >= 2
  {
    if p[1] == '{' then 1 else 1 + SecondLength(p[1..])
  }

  function HeadTokens(p: string): seq<Token>
    requires |p| >= 2 && PlainHead(p)
  {
    AsArgument([p[0]]) + if p[1] == '{' then [] else AsArgument(p[1..HeadLength(p)])
  }

  function HeadWaiting(p: string, w: Waiting): Waiting
    requires |p| >= 2 && w != []
  {
    if p[1] == '{' then Given(w) else Given(Given(w))
  }

  lemma FirstKept(p: string, r: string, w: Waiting)
    requires |p| >= 2 && p[0] !in "{}\\" && Valid(w) && Top(w) > 0
    ensures Read(p + r, w) == Prefixed(AsArgument([p[0]]), Read(p[1..] + r, Given(w)))
  {
    assert p + r == [p[0]] + (p[1..] + r);
    CharacterArgument(p[0], p[1..] + r, w);
  }

  lemma HeadEnds(p: string)
    requires |p| >= 2 && PlainHead(p)
    ensures HeadLength(p) <= |p| && EndsEscaped(p[HeadLength(p)..]) == EndsEscaped(p)
  {
    assert p[1..][1..] == p[2..] && (|p| > 2 ==> p[1..][2..] == p[3..]);
  }

  lemma GivenValid(w: Waiting)
    requires Valid(w)
    ensures Valid(Given(w))
  {
  }

  lemma HeadRead(p: string, r: string, w: Waiting)
    requires |p| >= 2 && p[0] !in "{}" && p[1] != '}' && PlainHead(p) && Valid(w) && Top(w) == 2
    ensures HeadLength(p) <= |p|
    ensures Read(p + r, w) == Prefixed(HeadTokens(p), Read(p[HeadLength(p)..] + r, HeadWaiting(p, w)))
  {
    FirstKept(p, r, w);
    hide Read, EndsEscaped;
    if p[1] == '{' {
      assert HeadTokens(p) == AsArgument([p[0]]);
    } else {
      var rest := p[1..];
      var k := SecondLength(rest);
      GivenValid(w);
      SecondKept(rest, r, Given(w));
      assert rest[k..] == p[1 + k..] && rest[..k] == p[1..1 + k];
      hide Prefixed;
      Prefixes(AsArgument([p[0]]), AsArgument(rest[..k]), Read(rest[k..] + r, HeadWaiting(p, w)));
    }
  }

  // Behind a real \frac a plain head is read the same after rewriting.
  lemma HeadKept(p: string, r: string, w: Waiting)
    requires |p| >= 2 && p[0] !in "{}" && p[1] != '}' && PlainHead(p) && Valid(w) && Top(w) == 2
    ensures Read(FixPiece(p) + r, w) == Read(p + r, w)
  {
    var rest := p[1..];
    FixedText(p, r);
    FirstKept(p, r, w);
    hide FixPiece, Read;
    if rest[0] == '{' {
      CharacterArgument(p[0], rest + r, w);
    } else {
      CharacterArgument(p[0], "{" + [rest[0]] + "}" + (rest[1..] + r), w);
      SecondKept(rest, r, Given(w));
    }
  }

  // Any other head is not, whatever follows.
  lemma HeadLost(p: string, r: string, q: string, w: Waiting)
    requires !TooShort(p) && !Braced(p) && !PlainHead(p) && !Contains(p, Frac) && AtFrac(r) && Valid(w) && Top(w) == 2
    requires Read(p + r, w).Some?
    ensures Read(FixPiece(p) + q, w) != Read(p + r, w)
  {
    var rest := p[1..];
    var tail := if rest[0] == '{' then rest + q else "{" + [rest[0]] + "}" + (rest[1..] + q);
    FixedText(p, q);
    hide FixPiece, Contains;
    if p[0] == '\\' {
      FirstLost(p, r, tail, w);
      assert "{" + [p[0]] + "}" == "{" + "\\" + "}";
    } else {
      if p[0] == '}' { Stray(p + r, w); }
      FirstKept(p, r, w);
      CharacterArgument(p[0], tail, w);
      SuffixHasNone(p, 1);
      SecondLost(rest, r, q, Given(w));
      Cancel(AsArgument([p[0]]), Read(tail, Given(w)), Read(rest + r, Given(w)));
    }
  }

  // ----- a piece behind an escaped backslash -----

  predicate PlainChar(c: char) {
    c != '{' && c != '}' && c != '\\'
  }

  lemma LetterCancels(c: char, t: string, u: string, w: Waiting)
    requires PlainChar(c) && Valid(w)
    ensures Valid(Given(w))
    ensures Read([c] + t, w) == Read([c] + u, w) <==> Read(t, Given(w)) == Read(u, Given(w))
    ensures Read([c] + t, w).Some? ==> Read(t, Given(w)).Some?
  {
    var out := if Top(w) == 0 then [Symbol([c])] else AsArgument([c]);
    forall v ensures Read([c] + v, w) == Prefixed(out, Read(v, Given(w))) {
      var s := [c] + v;
      assert s[..1] == [c] && s[1..] == v;
    }
    Cancel(out, Read(t, Given(w)), Read(u, Given(w)));
  }

  lemma FracLetters(t: string, u: string, w: Waiting)
    requires Valid(w)
    ensures Read("frac" + t, w) == Read("frac" + u, w)
       <==> Read(t, w[|w| - 1 := 0]) == Read(u, w[|w| - 1 := 0])
    ensures Read("frac" + t, w).Some? ==> Read(t, w[|w| - 1 := 0]).Some?
  {
    hide Read, GivenTimes;
    assert forall i :: 0 <= i < |"frac"| ==> PlainChar("frac"[i]);
    WordCancels("frac", t, u, w);
    GivenOften(w, 4);
  }

  function GivenTimes(w: Waiting, n: nat): (v: Waiting)
    requires w != []
    ensures v != []
    decreases n
  {
    if n == 0 then w else GivenTimes(Given(w), n - 1)
  }

  lemma {:induction false} WordCancels(word: string, t: string, u: string, w: Waiting)
    requires Valid(w) && forall i :: 0 <= i < |word| ==> PlainChar(word[i])
    ensures var v := GivenTimes(w, |word|);
            && (Read(word + t, w) == Read(word + u, w) <==> Read(t, v) == Read(u, v))
            && (Read(word + t, w).Some? ==> Read(t, v).Some?)
    decreases |word|
  {
    if word == [] {
      assert word + t == t && word + u == u;
    } else {
      hide Read;
      var tail := word[1..];
      assert word + t == [word[0]] + (tail + t) && word + u == [word[0]] + (tail + u);
      LetterCancels(word[0], tail + t, tail + u, w);
      WordCancels(tail, t, u, Given(w));
    }
  }

  lemma {:induction false} GivenOften(w: Waiting, n: nat)
    requires Valid(w) && n >= Top(w)
    ensures GivenTimes(w, n) == w[|w| - 1 := 0]
    decreases n
  {
    if n > 0 {
      GivenValid(w);
      GivenOften(Given(w), n - 1);
    }
  }

  // Braces are added where none were read.
  lemma EscapedLost(p: string, r: string, q: string, w: Waiting)
    requires !TooShort(p) && !Braced(p) && !Contains(p, Frac) && AtFrac(r) && w != [] && Top(w) == 0
    requires Read(p + r, w).Some?
    ensures Read(FixPiece(p) + q, w) != Read(p + r, w)
  {
    NotFrac(p, r);
    assert (FixPiece(p) + q)[0] == '{';
    assert (p + r)[0] == p[0];
    OneStep(p + r, w);
    OneStep(FixPiece(p) + q, w);
    hide Read, FixPiece, ControlLength;
    assert Read(p + r, w).value[0] != Open;
  }

  // ----- whole texts -----

  // Both texts, from within a piece on, are read alike.
  ghost predicate Alike(x: string, ps: seq<string>, w: Waiting)
    requires Fixable(ps) && w != []
  {
    Read(x + Rest(FixPieces(ps)), w) == Read(x + Rest(ps), w)
  }

  lemma Unrolled(ps: seq<string>)
    requires Fixable(ps) && ps != []
    ensures Fixable(ps[1..]) && !TooShort(ps[0]) && !Contains(ps[0], Frac)
    ensures var r, q := Rest(ps[1..]), Rest(FixPieces(ps[1..]));
            && AtFrac(r) && AtFrac(q)
            && Rest(ps) == Frac + (ps[0] + r) && Rest(FixPieces(ps)) == Frac + (FixPiece(ps[0]) + q)
  {
    FixableTail(ps);
    hide FixPiece, Fixable;
    RestAtFrac(ps[1..]);
    RestAtFrac(FixPieces(ps[1..]));
    RestUnrolled(ps);
    RestUnrolled(FixPieces(ps));
    hide Rest, AtFrac, FixPieces, TooShort, Contains;
  }

  lemma RestUnrolled(ps: seq<string>)
    requires ps != []
    ensures Rest(ps) == Frac + (ps[0] + Rest(ps[1..]))
  {
    assert Frac + ps[0] + Rest(ps[1..]) == Frac + (ps[0] + Rest(ps[1..]));
  }

  lemma FixableTail(ps: seq<string>)
    requires Fixable(ps) && ps != []
    ensures Fixable(ps[1..]) && !TooShort(ps[0]) && !Contains(ps[0], Frac)
    ensures FixPieces(ps)[1..] == FixPieces(ps[1..]) && FixPieces(ps)[0] == FixPiece(ps[0])
  {
    hide FixPiece, TooShort, Contains;
  }

  lemma AllSparedAfter(x: string, y: string, ps: seq<string>)
    requires EndsEscaped(x) == EndsEscaped(y)
    ensures AllSpared(x, ps) == AllSpared(y, ps)
  {
  }

  lemma WithinPiece(x: string, r: string, q: string, w: Waiting) returns (y: string, v: Waiting)
    requires x != [] && x != "\\" && !Contains(x, Frac) && AtFrac(r) && AtFrac(q) && Valid(w) && Read(x + r, w).Some?
    ensures |y| < |x| && !Contains(y, Frac) && EndsEscaped(y) == EndsEscaped(x) && Valid(v) && Read(y + r, v).Some?
    ensures Read(x + q, w) == Read(x + r, w) <==> Read(y + q, v) == Read(y + r, v)
  {
    ReadWithin(x, r, w);
    ReadWithin(x, q, w);
    OneStep(x + r, w);
    OneStep(x + q, w);
    hide Read, ReadNext, Contains, EndsEscaped, AtFrac;
    var n := ReadNext(x, w).value;
    y, v := n.rest, n.waiting;
    Cancel(n.out, Read(y + q, v), Read(y + r, v));
  }

  lemma AtFraction(t: string, w: Waiting)
    requires Valid(w) && Read(Frac + t, w).Some?
    ensures Top(w) == 0
    ensures forall u :: Read(Frac + u, w) == Prefixed([Over], Read(u, w[|w| - 1 := 2]))
  {
    forall u ensures Top(w) == 0 ==> Read(Frac + u, w) == Prefixed([Over], Read(u, w[|w| - 1 := 2])) {
      assert (Frac + u)[|Frac|..] == u;
    }
    assert Frac <= Frac + t;
  }

  lemma FractionCancels(t: string, u: string, w: Waiting)
    requires Valid(w) && Read(Frac + t, w).Some?
    ensures var v := w[|w| - 1 := 2];
            && Valid(v) && Top(v) == 2 && Read(t, v).Some?
            && (Read(Frac + u, w) == Read(Frac + t, w) <==> Read(u, v) == Read(t, v))
  {
    AtFraction(t, w);
    var v := w[|w| - 1 := 2];
    hide Read;
    Cancel([Over], Read(u, v), Read(t, v));
  }

  lemma NoStray(p: string, r: string, w: Waiting)
    requires !TooShort(p) && !Braced(p) && PlainHead(p) && Valid(w) && Top(w) == 2 && Read(p + r, w).Some?
    ensures p[0] !in "{}" && p[1] != '}'
  {
    if p[0] == '}' {
      Stray(p + r, w);
    } else if p[1] == '}' {
      FirstKept(p, r, w);
      Stray(p[1..] + r, Given(w));
    }
  }

  // The rest of a piece that keeps its head.
  lemma HeadReduces(p: string, r: string, q: string, w: Waiting) returns (y: string, v: Waiting)
    requires !TooShort(p) && !Contains(p, Frac) && Valid(w) && Top(w) == 2 && Read(p + r, w).Some?
    requires Braced(p) || PlainHead(p)
    ensures |y| <= |p| && !Contains(y, Frac) && EndsEscaped(y) == EndsEscaped(p) && Valid(v) && Read(y + r, v).Some?
    ensures Read(FixPiece(p) + q, w) == Read(p + r, w) <==> Read(y + q, v) == Read(y + r, v)
  {
    if Braced(p) {
      y, v := p, w;
    } else {
      NoStray(p, r, w);
      HeadKept(p, q, w);
      HeadRead(p, r, w);
      HeadRead(p, q, w);
      HeadEnds(p);
      SuffixHasNone(p, HeadLength(p));
      GivenValid(w);
      GivenValid(Given(w));
      y, v := p[HeadLength(p)..], HeadWaiting(p, w);
      hide Read, FixPiece, Contains, HeadLength, EndsEscaped, HeadTokens;
      Cancel(HeadTokens(p), Read(y + q, v), Read(y + r, v));
    }
  }

  // Two backslashes are one symbol, and the letters of \frac are letters.
  lemma EscapeCancels(t: string, u: string, w: Waiting)
    requires Valid(w) && Read("\\" + (Frac + t), w).Some?
    ensures Valid(Given(w)) && Read("frac" + t, Given(w)).Some?
    ensures Read("\\" + (Frac + u), w) == Read("\\" + (Frac + t), w)
       <==> Read("frac" + u, Given(w)) == Read("frac" + t, Given(w))
  {
    GivenValid(w);
    EscapeStep(t, w);
    EscapeStep(u, w);
    hide Read;
    Cancel(ReadSymbol("\\\\", 2, w).out, Read("frac" + u, Given(w)), Read("frac" + t, Given(w)));
  }

  lemma EscapeStep(t: string, w: Waiting)
    requires Valid(w)
    ensures Read("\\" + (Frac + t), w) == Prefixed(ReadSymbol("\\\\", 2, w).out, Read("frac" + t, Given(w)))
  {
    var s := "\\" + (Frac + t);
    assert s[1] == '\\' && !(Frac <= s) by { assert Frac[1] == 'f'; }
    assert s[..2] == "\\\\" && s[2..] == "frac" + t && "\\\\"[..2] == "\\\\";
    assert ControlLength(s) == 2;
    OneStep(s, w);
  }

  lemma LettersHaveNone(p: string)
    requires !Contains(p, Frac)
    ensures !Contains("frac" + p, Frac) && EndsEscaped("frac" + p) == EndsEscaped(p)
  {
    var s := "frac" + p;
    forall i ensures !Occurs(s, Frac, i) {
      if 0 <= i && i + |Frac| <= |s| {
        assert s[i..i + |Frac|][0] == s[i];
        if i >= 4 {
          assert s[i..i + |Frac|] == p[i - 4..i - 4 + |Frac|];
          assert !Occurs(p, Frac, i - 4);
        }
      }
    }
    assert LetterRun("frac") == 4;
    assert s[1..] == "rac" + p && s[1..][1..] == "ac" + p && s[2..] == "ac" + p;
    assert ("ac" + p)[1..] == "c" + p && ("c" + p)[1..] == p;
    assert EndsEscaped("c" + p) == EndsEscaped(p);
    assert EndsEscaped("ac" + p) == EndsEscaped("c" + p);
    assert EndsEscaped("rac" + p) == EndsEscaped("ac" + p);
  }

  // Behind the end x of a piece: past the separator and a piece that is
  // spared, both texts go on alike from a rest of that piece.
  lemma Behind(x: string, p: string, r: string, q: string, w: Waiting) returns (y: string, v: Waiting)
    requires (x == [] || x == "\\") && Spared(x, p) && !TooShort(p) && !Contains(p, Frac) && Valid(w)
    requires Read(x + (Frac + (p + r)), w).Some?
    ensures |y| <= |p| + 4 && !Contains(y, Frac) && EndsEscaped(y) == EndsEscaped(p) && Valid(v) && Read(y + r, v).Some?
    ensures Read(x + (Frac + (FixPiece(p) + q)), w) == Read(x + (Frac + (p + r)), w)
       <==> Read(y + q, v) == Read(y + r, v)
  {
    hide Read, FixPiece, Contains;
    if x == [] {
      assert x + (Frac + (p + r)) == Frac + (p + r);
      assert x + (Frac + (FixPiece(p) + q)) == Frac + (FixPiece(p) + q);
      FractionCancels(p + r, FixPiece(p) + q, w);
      y, v := HeadReduces(p, r, q, w[|w| - 1 := 2]);
    } else {
      EscapeCancels(p + r, FixPiece(p) + q, w);
      LettersHaveNone(p);
      y, v := "frac" + p, Given(w);
      BracedKept(p);
      assert y + r == "frac" + (p + r) && y + q == "frac" + (p + q);
    }
  }

  lemma BracedKept(p: string)
    requires Braced(p)
    ensures FixPiece(p) == p
  {
  }

  // Past a piece that is not spared they do not.
  lemma BehindLost(x: string, p: string, r: string, q: string, w: Waiting)
    requires (x == [] || x == "\\") && !Spared(x, p) && !TooShort(p) && !Contains(p, Frac) && AtFrac(r) && Valid(w)
    requires Read(x + (Frac + (p + r)), w).Some?
    ensures Read(x + (Frac + (FixPiece(p) + q)), w) != Read(x + (Frac + (p + r)), w)
  {
    hide Read, FixPiece, Contains;
    if x == [] {
      assert x + (Frac + (p + r)) == Frac + (p + r);
      assert x + (Frac + (FixPiece(p) + q)) == Frac + (FixPiece(p) + q);
      FractionCancels(p + r, FixPiece(p) + q, w);
      HeadLost(p, r, q, w[|w| - 1 := 2]);
    } else {
      EscapeCancels(p + r, FixPiece(p) + q, w);
      FracLetters(p + r, FixPiece(p) + q, Given(w));
      EscapedLost(p, r, q, Given(w)[|w| - 1 := 0]);
    }
  }

  // From any point within a piece on, rewriting keeps the reading if and only
  // if every later piece is spared.
  lemma {:induction false} AlikeIff(x: string, ps: seq<string>, w: Waiting)
    requires !Contains(x, Frac) && Fixable(ps) && Valid(w) && Read(x + Rest(ps), w).Some?
    ensures Alike(x, ps, w) <==> AllSpared(x, ps)
    decreases |x| + |Rest(ps)|
  {
    RestAtFrac(ps);
    RestAtFrac(FixPieces(ps));
    if x != [] && x != "\\" {
      hide Contains, Fixable, Valid, Read, Rest, EndsEscaped, Spared, AllSpared;
      var y, v := WithinPiece(x, Rest(ps), Rest(FixPieces(ps)), w);
      AlikeIff(y, ps, v);
      AllSparedAfter(x, y, ps);
    } else if ps != [] {
      var p, r, q := ps[0], Rest(ps[1..]), Rest(FixPieces(ps[1..]));
      Unrolled(ps);
      hide Contains, Fixable, Valid, Read, Rest, EndsEscaped, Spared, TooShort, FixPiece;
      if Spared(x, p) {
        var y, v := Behind(x, p, r, q, w);
        AlikeIff(y, ps[1..], v);
        AllSparedAfter(p, y, ps[1..]);
      } else {
        BehindLost(x, p, r, q, w);
      }
    }
  }

  lemma {:induction false} JoinIsRest(ps: seq<string>)
    requires ps != []
    ensures Join(ps, Frac) == ps[0] + Rest(ps[1..])
    decreases |ps|
  {
    if |ps| > 1 {
      JoinIsRest(ps[1..]);
      assert ps[0] + Frac + (ps[1] + Rest(ps[2..])) == ps[0] + (Frac + ps[1] + Rest(ps[2..]));
      assert ps[1..][1..] == ps[2..];
    }
  }

  ghost predicate EachSpared(ps: seq<string>) {
    forall i :: 1 <= i < |ps| ==> Spared(ps[i - 1], ps[i])
  }

  lemma {:induction false} AllSparedIff(ps: seq<string>)
    requires ps != []
    ensures AllSpared(ps[0], ps[1..]) <==> EachSpared(ps)
    decreases |ps|
  {
    if |ps| > 1 {
      var qs := ps[1..];
      AllSparedIff(qs);
      hide Spared;
      if EachSpared(ps) {
        assert Spared(ps[0], ps[1]);
        forall i | 1 <= i < |qs| ensures Spared(qs[i - 1], qs[i]) {
          assert Spared(ps[i], ps[i + 1]);
        }
      }
      if Spared(ps[0], ps[1]) && EachSpared(qs) {
        forall i | 1 <= i < |ps| ensures Spared(ps[i - 1], ps[i]) {
          if i > 1 { assert Spared(qs[i - 2], qs[i - 1]); }
        }
      }
    }
  }

  lemma PiecesFixable(s: string)
    requires !GivesUp(s)
    ensures Fixable(Split(s, Frac)[1..]) && FixedPieces(s)[1..] == FixPieces(Split(s, Frac)[1..])
  {
    SplitPieces(s, Frac);
    hide Split, TooShort, FixPiece, Contains;
  }

  lemma Joined(s: string)
    requires !GivesUp(s)
    ensures var ps := Split(s, Frac);
            && Fixable(ps[1..]) && !Contains(ps[0], Frac)
            && s == ps[0] + Rest(ps[1..]) && Fixed(s) == ps[0] + Rest(FixPieces(ps[1..]))
  {
    var ps := Split(s, Frac);
    PiecesFixable(s);
    SplitPieces(s, Frac);
    SplitThenJoin(s, Frac);
    hide Split, Join, Rest, TooShort, FixPiece, Fixable, GivesUp, Contains;
    JoinIsRest(ps);
    JoinIsRest(FixedPieces(s));
  }

  lemma AlikeTexts(s: string, f: string, x: string, ps: seq<string>)
    requires Fixable(ps) && !Contains(x, Frac) && s == x + Rest(ps) && f == x + Rest(FixPieces(ps)) && ReadText(s).Some?
    ensures ReadText(f) == ReadText(s) <==> AllSpared(x, ps)
  {
    assert Valid([0]);
    hide Fixable, Rest, Contains, AllSpared, FixPieces, Read, Valid;
    AlikeIff(x, ps, [0]);
  }

  // What TeX reads of a whole text, nested fractions included, is kept by the
  // rewriter if and only if it gave up or every piece behind a \frac had its
  // brace, or stands behind a real \frac with a plain head.
  lemma TextKeptIff(s: string)
    requires ReadText(s).Some?
    ensures ReadText(Fixed(s)) == ReadText(s) <==> GivesUp(s) || EachSpared(Split(s, Frac))
  {
    if !GivesUp(s) {
      hide ReadText, Fixable, Rest, Contains, AllSpared, EachSpared, Fixed, GivesUp, Split;
      var ps := Split(s, Frac);
      Joined(s);
      AllSparedIff(ps);
      AlikeTexts(s, Fixed(s), ps[0], ps[1..]);
    }
  }

  // ----- fractions inside fractions -----

  lemma GivenInside(w: Waiting, v: Waiting)
    requires v != []
    ensures Top(w + v) == Top(v) && Given(w + v) == w + Given(v) && Given(v) != []
  {
  }

  lemma FracInside(t: string, u: string)
    requires t != []
    ensures Frac <= t + ("}" + u) <==> Frac <= t
  {
    var s := t + ("}" + u);
    if |t| < |Frac| {
      assert s[|t|] == '}' && Frac[|t|] != '}';
    } else {
      assert s[..|Frac|] == t[..|Frac|];
    }
  }

  // The same step inside further open groups, with the end of a group to come.
  ghost predicate SameInside(t: string, u: string, w: Waiting, v: Waiting)
    requires t != [] && v != []
  {
    var r := ReadNext(t, v);
    r.Some? ==>
      && ReadNext(t + ("}" + u), w + v) == Some(Reading(r.value.out, r.value.rest + ("}" + u), w + r.value.waiting))
      && r.value.waiting != []
  }

  lemma BraceInside(t: string, u: string, w: Waiting, v: Waiting)
    requires t != [] && v != [] && (t[0] == '{' || t[0] == '}')
    ensures SameInside(t, u, w, v)
  {
    var s := t + ("}" + u);
    assert s[0] == t[0] && s[1..] == t[1..] + ("}" + u) && Top(w + v) == Top(v);
    assert w + v + [0] == w + (v + [0]);
    assert (w + v)[..|w + v| - 1] == w + v[..|v| - 1];
    if |v| > 1 {
      GivenInside(w, v[..|v| - 1]);
    }
    hide Given, Top;
  }

  lemma SymbolInside(t: string, n: nat, u: string, w: Waiting, v: Waiting)
    requires v != [] && n <= |t|
    ensures var r := ReadSymbol(t, n, v);
            ReadSymbol(t + ("}" + u), n, w + v) == Reading(r.out, r.rest + ("}" + u), w + r.waiting) && r.waiting != []
  {
    var s := t + ("}" + u);
    GivenInside(w, v);
    assert s[n..] == t[n..] + ("}" + u) && s[..n] == t[..n];
    hide Given, Top;
  }

  lemma StepInside(t: string, u: string, w: Waiting, v: Waiting)
    requires t != [] && v != []
    ensures SameInside(t, u, w, v)
  {
    var s := t + ("}" + u);
    if t[0] == '{' || t[0] == '}' {
      BraceInside(t, u, w, v);
    } else if Frac <= t {
      assert s[0] == t[0] && Frac <= s && s[|Frac|..] == t[|Frac|..] + ("}" + u);
      assert (w + v)[|w + v| - 1 := 2] == w + v[|v| - 1 := 2] && Top(w + v) == Top(v);
    } else if |t| > 1 || t[0] != '\\' {
      FracInside(t, u);
      assert s[0] == t[0];
      var n := if t[0] == '\\' then ControlLength(t) else 1;
      if t[0] == '\\' {
        ControlWithin(t, "}" + u);
      }
      SymbolInside(t, n, u, w, v);
      hide ControlLength, ReadSymbol;
    }
  }

  // A text that can be read is read the same inside a group.
  lemma {:induction false} ReadInside(t: string, u: string, w: Waiting, v: Waiting)
    requires v != [] && Read(t, v).Some?
    ensures Read(t + ("}" + u), w + v) == Prefixed(Read(t, v).value, Read("}" + u, w + [0]))
    decreases |t|
  {
    if t == [] {
      assert t + ("}" + u) == "}" + u;
      PrefixedNone(Read("}" + u, w + [0]));
    } else {
      StepInside(t, u, w, v);
      OneStep(t, v);
      OneStep(t + ("}" + u), w + v);
      hide ReadNext;
      var r := ReadNext(t, v).value;
      ReadInside(r.rest, u, w, r.waiting);
      hide Read;
      Prefixes(r.out, Read(r.rest, r.waiting).value, Read("}" + u, w + [0]));
    }
  }

  lemma PrefixedNone(r: Option<seq<Token>>)
    ensures Prefixed([], r) == r
  {
    if r.Some? {
      assert [] + r.value == r.value;
    }
  }

  // A readable text in braces is one argument.
  lemma GroupArgument(t: string, u: string, w: Waiting)
    requires Valid(w) && ReadText(t).Some?
    ensures Read("{" + (t + ("}" + u)), w) == Prefixed([Open] + ReadText(t).value + [Close], Read(u, Given(w)))
  {
    var ts := ReadText(t).value;
    var s := "{" + (t + ("}" + u));
    assert s[1..] == t + ("}" + u) && ("}" + u)[1..] == u && (w + [0])[..|w|] == w;
    ReadInside(t, u, w, [0]);
    OneStep(s, w);
    OneStep("}" + u, w + [0]);
    hide Read;
    Prefixes(ts, [Close], Read(u, Given(w)));
    Prefixes([Open], ts + [Close], Read(u, Given(w)));
    assert [Open] + (ts + [Close]) == [Open] + ts + [Close];
  }

  // The reading of a \frac of two readable texts is made of their readings,
  // wherever it stands, however deep fractions are nested in them.
  lemma FractionOfTexts(a: string, b: string, u: string, w: Waiting)
    requires Valid(w) && Top(w) == 0 && ReadText(a).Some? && ReadText(b).Some?
    ensures Read(Frac + ("{" + (a + ("}" + ("{" + (b + ("}" + u)))))), w)
         == Prefixed([Over] + ([Open] + ReadText(a).value + [Close]) + ([Open] + ReadText(b).value + [Close]), Read(u, w))
  {
    var ga, gb := [Open] + ReadText(a).value + [Close], [Open] + ReadText(b).value + [Close];
    var tb := "{" + (b + ("}" + u));
    var ta := "{" + (a + ("}" + tb));
    var v := w[|w| - 1 := 2];
    assert Valid(Given(v)) && Given(Given(v)) == w;
    assert (Frac + ta)[|Frac|..] == ta;
    OneStep(Frac + ta, w);
    GroupArgument(a, tb, v);
    GroupArgument(b, u, Given(v));
    hide Read, ReadText;
    Prefixes(ga, gb, Read(u, w));
    Prefixes([Over], ga + gb, Read(u, w));
    assert [Over] + (ga + gb) == [Over] + ga + gb;
  }
}
