// How TeX reads the two arguments of a \frac, and when the rewriter keeps them
// (benchmark/reasoning_benchmark/answer_extraction.py, _fix_fracs). Spaces are
// taken to be gone, as they are when the rewriter is called.
module FracMeaning {
  import opened Options
  import opened FracNormalisation

  predicate Letter(c: char) {
    'a' <= c <= 'z' || 'A' <= c <= 'Z'
  }

  function LetterRun(s: string): (n: nat)
    ensures n <= |s|
  {
    if s == [] || !Letter(s[0]) then 0 else 1 + LetterRun(s[1..])
  }

  // The length of the control sequence at the head of s: a backslash and all
  // the letters that follow, or a backslash and one other character.
  function ControlLength(s: string): (n: nat)
    requires |s| >= 2
    ensures 2 <= n <= |s|
  {
    if Letter(s[1]) then 1 + LetterRun(s[1..]) else 2
  }

  // Where the group that was open before s[i..] closes, with `depth` further
  // groups open inside it; an escaped brace opens and closes nothing.
  function GroupEnd(s: string, i: nat, depth: nat): (r: Option<nat>)
    ensures r.Some? ==> i <= r.value < |s|
    decreases |s| - i
  {
    if i >= |s| then None
    else if s[i] == '\\' then GroupEnd(s, i + 2, depth)
    else if s[i] == '{' then GroupEnd(s, i + 1, depth + 1)
    else if s[i] != '}' then GroupEnd(s, i + 1, depth)
    else if depth == 0 then Some(i)
    else GroupEnd(s, i + 1, depth - 1)
  }

  // An argument and the text after it.
  datatype Argument = Argument(text: string, rest: string)

  // A braced group, a control sequence or a single character.
  function ReadArgument(s: string): Option<Argument> {
    if s == [] || s[0] == '}' then None
    else if s[0] == '{' then
      match GroupEnd(s, 1, 0)
      case None => None
      case Some(i) => Some(Argument(s[1..i], s[i + 1..]))
    else if s[0] == '\\' then
      if |s| == 1 then None else Some(Argument(s[..ControlLength(s)], s[ControlLength(s)..]))
    else Some(Argument([s[0]], s[1..]))
  }

  datatype Fraction = Fraction(numerator: string, denominator: string, rest: string)

  // What the text after a \frac stands for.
  function ReadFraction(s: string): Option<Fraction> {
    match ReadArgument(s)
    case None => None
    case Some(num) =>
      match ReadArgument(num.rest)
      case None => None
      case Some(den) => Some(Fraction(num.text, den.text, den.rest))
  }

  // A single character put in braces is read as that character, unless it is
  // a backslash: that escapes the brace put behind it.
  lemma GroupOfOne(c: char, tail: string)
    requires c !in "{}\\"
    ensures ReadArgument("{" + [c] + "}" + tail) == Some(Argument([c], tail))
  {
    var s := "{" + [c] + "}" + tail;
    assert s[1] == c && s[2] == '}';
    assert GroupEnd(s, 2, 0) == Some(2);
    assert s[1..2] == [c] && s[3..] == tail;
  }

  lemma GroupOfBackslash(tail: string)
    ensures var r := ReadArgument("{" + "\\" + "}" + tail);
            if tail != [] && tail[0] == '}' then r == Some(Argument("\\}", tail[1..]))
            else r.Some? ==> |r.value.text| > 2 && r.value.text[..3] == "\\}" + [tail[0]]
  {
    var s := "{" + "\\" + "}" + tail;
    assert s[1] == '\\' && s[2] == '}' && GroupEnd(s, 1, 0) == GroupEnd(s, 3, 0);
    if tail != [] {
      assert s[3] == tail[0] && s[4..] == tail[1..];
      assert s[1..3] == "\\}";
      if GroupEnd(s, 1, 0).Some? {
        assert tail[0] != '}' ==> GroupEnd(s, 3, 0).value >= 4;
      }
    }
  }

  lemma Ordinary(s: string)
    requires s != [] && s[0] !in "{}\\"
    ensures ReadArgument(s) == Some(Argument([s[0]], s[1..]))
  {
  }

  // A control sequence begins with its two first characters, and a brace
  // escaped is all of one; a stray closing brace is no argument.
  lemma NotOrdinary(s: string)
    ensures s != [] && s[0] == '\\' && ReadArgument(s).Some? ==>
              var a := ReadArgument(s).value;
              && |s| > 1 && |a.text| >= 2 && a.text[1] == s[1]
              && (s[1] == '}' ==> a == Argument("\\}", s[2..]))
    ensures s != [] && s[0] == '}' ==> ReadArgument(s).None?
  {
    if |s| > 1 && s[0] == '\\' && s[1] == '}' {
      assert s[..2] == "\\}";
    }
  }

  // The two arguments written without braces are single characters, or the
  // second is an escaped closing brace.
  predicate PlainHead(p: string)
    requires |p| >= 2
  {
    p[0] != '\\' && (p[1] != '\\' || (|p| > 2 && p[2] == '}'))
  }

  lemma DenominatorKeptIff(rest: string)
    requires |rest| >= 1 && rest[0] != '{' && ReadArgument(rest).Some?
    ensures ReadArgument("{" + [rest[0]] + "}" + rest[1..]) == ReadArgument(rest)
       <==> rest[0] != '\\' || (|rest| > 1 && rest[1] == '}')
  {
    NotOrdinary(rest);
    if rest[0] != '\\' {
      Ordinary(rest);
      GroupOfOne(rest[0], rest[1..]);
    } else {
      GroupOfBackslash(rest[1..]);
      assert rest[1..][1..] == rest[2..];
    }
  }

  // Where the text after a \frac can be read at all, rewriting keeps numerator,
  // denominator and what follows if and only if it had its brace already or
  // its head is plain.
  lemma MeaningKeptIff(p: string)
    requires !TooShort(p) && ReadFraction(p).Some?
    ensures ReadFraction(FixPiece(p)) == ReadFraction(p) <==> Braced(p) || PlainHead(p)
  {
    hide ReadArgument;
    if !Braced(p) {
      var a, b, rest := p[0], p[1], p[1..];
      var tail := if b != '{' then "{" + [b] + "}" + rest[1..] else rest;
      assert rest[0] == b && rest[1..] == p[2..];
      assert FixPiece(p) == "{" + [a] + "}" + tail;
      hide FixPiece;
      NotOrdinary(p);
      if a == '\\' {
        GroupOfBackslash(tail);
        assert "{" + [a] + "}" == "{" + "\\" + "}";
      } else {
        Ordinary(p);
        GroupOfOne(a, tail);
        if b != '{' {
          DenominatorKeptIff(rest);
        }
      }
    }
  }

  lemma ReadPi()
    ensures ReadArgument("\\pi2") == Some(Argument("\\pi", "2"))
  {
    var s := "\\pi2";
    assert s[1..] == "pi2" && "pi2"[1..] == "i2" && "i2"[1..] == "2";
    assert LetterRun("2") == 0;
    assert LetterRun("i2") == 1;
    assert LetterRun("pi2") == 2;
    assert s[..3] == "\\pi" && s[3..] == "2";
  }

  // \frac\pi2 is read as pi over two; what it is rewritten to has no reading,
  // since the brace meant to close the numerator is escaped.
  lemma ControlSequenceBroken()
    ensures ReadFraction("\\pi2") == Some(Fraction("\\pi", "2", ""))
    ensures FixPiece("\\pi2") == "{\\}{p}i2" && ReadFraction("{\\}{p}i2").None?
  {
    ReadPi();
    Ordinary("2");
    assert "2"[1..] == "" && "\\pi2"[2..] == "i2";
    var s := "{\\}{p}i2";
    assert GroupEnd(s, 6, 0) == GroupEnd(s, 7, 0) == GroupEnd(s, 8, 0) == None;
    assert GroupEnd(s, 3, 0) == GroupEnd(s, 4, 1) == GroupEnd(s, 5, 1) == GroupEnd(s, 6, 0);
    assert GroupEnd(s, 1, 0) == GroupEnd(s, 3, 0);
  }

  // \frac1\} is rewritten to \frac{1}{\}}, which is read the same.
  lemma EscapedBraceKept(tail: string)
    ensures ReadFraction("1\\}" + tail) == Some(Fraction("1", "\\}", tail))
    ensures ReadFraction(FixPiece("1\\}" + tail)) == Some(Fraction("1", "\\}", tail))
  {
    var p := "1\\}" + tail;
    assert p[0] == '1' && p[1] == '\\' && p[2] == '}' && p[3..] == tail;
    var rest := p[1..];
    assert rest[2..] == tail && rest[..2] == "\\}";
    assert ReadArgument(rest) == Some(Argument("\\}", tail));
    MeaningKeptIff(p);
  }
}
