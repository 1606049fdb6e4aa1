// Python's str.split with a separator of several characters, and its inverse.
module Splitting {

  ghost predicate Occurs(s: string, sep: string, i: int) {
    0 <= i && i + |sep| <= |s| && s[i..i + |sep|] == sep
  }

  ghost predicate Contains(s: string, sep: string) {
    exists i :: Occurs(s, sep, i)
  }

  // No proper prefix of sep is also a suffix, so occurrences never overlap.
  ghost predicate BorderFree(sep: string) {
    sep != [] && forall n :: 0 < n < |sep| ==> sep[..n] != sep[|sep| - n..]
  }

  // str.find: the first occurrence, or -1.
  function Find(s: string, sep: string): (k: int)
    ensures -1 <= k <= |s|
    ensures k >= 0 ==> Occurs(s, sep, k)
    ensures forall i :: Occurs(s, sep, i) ==> 0 <= k <= i
  {
    if |s| < |sep| then -1
    else if s[..|sep|] == sep then 0
    else if s == [] then -1
    else
      OccursInTail(s, sep);
      var k := Find(s[1..], sep);
      if k < 0 then -1 else k + 1
  }

  lemma OccursInTail(s: string, sep: string)
    requires s != []
    ensures forall i :: i > 0 ==> (Occurs(s, sep, i) <==> Occurs(s[1..], sep, i - 1))
    ensures forall i :: i >= 0 ==> (Occurs(s[1..], sep, i) <==> Occurs(s, sep, i + 1))
  {
    forall i | i > 0 ensures Occurs(s, sep, i) <==> Occurs(s[1..], sep, i - 1) {
      if i + |sep| <= |s| {
        assert s[1..][i - 1..i - 1 + |sep|] == s[i..i + |sep|];
      }
    }
  }

  // str.split
  function Split(s: string, sep: string): (pieces: seq<string>)
    requires sep != []
    ensures pieces != []
  {
    var k := Find(s, sep);
    if k < 0 then [s] else [s[..k]] + Split(s[k + |sep|..], sep)
  }

  // sep.join
  function Join(pieces: seq<string>, sep: string): string
    requires pieces != []
  {
    if |pieces| == 1 then pieces[0] else pieces[0] + sep + Join(pieces[1..], sep)
  }

  lemma {:induction false} SplitThenJoin(s: string, sep: string)
    requires sep != []
    ensures Join(Split(s, sep), sep) == s
    decreases |s|
  {
    hide Find;
    var k := Find(s, sep);
    if k >= 0 {
      var rest := s[k + |sep|..];
      SplitThenJoin(rest, sep);
      assert Split(s, sep) == [s[..k]] + Split(rest, sep);
      assert Split(s, sep)[1..] == Split(rest, sep);
      assert s == s[..k] + sep + rest;
    }
  }

  lemma BeforeFound(s: string, sep: string)
    requires sep != [] && Find(s, sep) >= 0
    ensures !Contains(s[..Find(s, sep)], sep)
  {
    hide Find;
    var k := Find(s, sep);
    forall i ensures !Occurs(s[..k], sep, i) {
      if 0 <= i && i + |sep| <= k {
        assert s[..k][i..i + |sep|] == s[i..i + |sep|];
        assert Occurs(s, sep, i) ==> k <= i;
      }
    }
  }

  lemma {:induction false} SplitPieces(s: string, sep: string)
    requires sep != []
    ensures forall i :: 0 <= i < |Split(s, sep)| ==> !Contains(Split(s, sep)[i], sep)
    decreases |s|
  {
    hide Find;
    var k := Find(s, sep);
    if k < 0 {
      assert !Contains(s, sep);
    } else {
      BeforeFound(s, sep);
      SplitPieces(s[k + |sep|..], sep);
    }
  }

  // A separator set between two texts is found where it was put.
  lemma FindAfter(p: string, sep: string, rest: string)
    requires BorderFree(sep) && !Contains(p, sep)
    ensures Find(p + sep + rest, sep) == |p|
  {
    var s := p + sep + rest;
    assert s[|p|..|p| + |sep|] == sep;
    assert Occurs(s, sep, |p|);
    forall i | 0 <= i < |p| ensures !Occurs(s, sep, i) {
      if i + |sep| <= |p| {
        assert p[i..i + |sep|] == s[i..i + |sep|];
        assert !Occurs(p, sep, i);
      } else {
        var n := i + |sep| - |p|;
        assert s[i..i + |sep|][|sep| - n..] == sep[..n];
      }
    }
  }

  lemma SplitAt(p: string, sep: string, rest: string)
    requires BorderFree(sep) && !Contains(p, sep)
    ensures Split(p + sep + rest, sep) == [p] + Split(rest, sep)
  {
    FindAfter(p, sep, rest);
    hide Find, BorderFree, Contains;
    var s := p + sep + rest;
    assert s[|p| + |sep|..] == rest && s[..|p|] == p;
  }

  lemma {:induction false} JoinThenSplit(pieces: seq<string>, sep: string)
    requires BorderFree(sep) && pieces != []
    requires forall i :: 0 <= i < |pieces| ==> !Contains(pieces[i], sep)
    ensures Split(Join(pieces, sep), sep) == pieces
    decreases |pieces|
  {
    if |pieces| == 1 {
      assert !Contains(pieces[0], sep) && Find(pieces[0], sep) < 0;
    } else {
      hide Find, BorderFree, Contains;
      SplitAt(pieces[0], sep, Join(pieces[1..], sep));
      JoinThenSplit(pieces[1..], sep);
      assert pieces == [pieces[0]] + pieces[1..];
    }
  }

  // A text without the separator on either side of a character that the
  // separator does not have is still without it.
  lemma ContainsAcross(a: string, c: char, b: string, sep: string)
    requires sep != [] && c !in sep && !Contains(a, sep) && !Contains(b, sep)
    ensures !Contains(a + [c] + b, sep)
  {
    var s := a + [c] + b;
    forall i ensures !Occurs(s, sep, i) {
      if 0 <= i && i + |sep| <= |s| {
        if i + |sep| <= |a| {
          assert s[i..i + |sep|] == a[i..i + |sep|];
          assert !Occurs(a, sep, i);
        } else if i > |a| {
          var j := i - |a| - 1;
          assert s[i..i + |sep|] == b[j..j + |sep|];
          assert !Occurs(b, sep, j);
        } else {
          assert s[i..i + |sep|][|a| - i] == c;
        }
      }
    }
  }
}
