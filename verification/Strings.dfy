/** Splitting a string at delimiters and joining strings with a separator. */
module Strings {

  /** No character of the string is one of the delimiters. */
  predicate Free(s: string, delims: string) {
    forall c :: c in s ==> c !in delims
  }

  /** The index of the first delimiter, or the length of the string. */
  function FirstOf(s: string, delims: string): (i: nat)
    ensures i <= |s| && Free(s[..i], delims) && (i < |s| ==> s[i] in delims)
  {
    if s == [] || s[0] in delims then 0 else
    var i := 1 + FirstOf(s[1..], delims);
    assert s[..i] == [s[0]] + s[1..][..i - 1];
    i
  }

  lemma {:induction false} FirstOfIs(s: string, delims: string, i: nat)
    requires i <= |s| && Free(s[..i], delims) && (i < |s| ==> s[i] in delims)
    ensures FirstOf(s, delims) == i
  {
    if i > 0 {
      assert s[0] == s[..i][0];
      assert s[1..][..i - 1] == s[..i][1..];
      FirstOfIs(s[1..], delims, i - 1);
    }
  }

  /** The pieces between delimiters: one more than there are delimiters. */
  function Pieces(s: string, delims: string): (r: seq<string>)
    ensures r != []
    decreases |s|
  {
    var i := FirstOf(s, delims);
    if i == |s| then [s] else [s[..i]] + Pieces(s[i + 1..], delims)
  }

  method Split(s: string, delims: string) returns (result: seq<string>)
    ensures result == Pieces(s, delims)
  {
    result := [];
    var base := 0;
    assert s[0..] == s;
    while true
      invariant base <= |s| && Pieces(s, delims) == result + Pieces(s[base..], delims)
      decreases |s| - base
    {
      ghost var before := result;
      var found := base + FirstOf(s[base..], delims);
      PieceStep(s, base, found, delims);
      result := result + [s[base..found]];
      if found == |s| {
        return;
      }
      Regroup(before, s[base..found], Pieces(s[found + 1..], delims));
      base := found + 1;
    }
  }

  lemma Regroup(a: seq<string>, x: string, b: seq<string>)
    ensures a + ([x] + b) == (a + [x]) + b
  {
  }

  lemma CutRest(s: string, base: nat, found: nat)
    requires base <= found <= |s|
    ensures s[base..][..found - base] == s[base..found]
    ensures found < |s| ==> s[base..][found - base + 1..] == s[found + 1..]
    ensures found == |s| ==> s[base..] == s[base..found]
  {
  }

  lemma PiecesAt(s: string, i: nat, delims: string)
    requires i == FirstOf(s, delims)
    ensures Pieces(s, delims) == if i == |s| then [s] else [s[..i]] + Pieces(s[i + 1..], delims)
  {
  }

  /** One round of the loop: the piece up to the delimiter found, and the rest. */
  lemma PieceStep(s: string, base: nat, found: nat, delims: string)
    requires base <= |s| && found == base + FirstOf(s[base..], delims)
    ensures found <= |s|
    ensures Pieces(s[base..], delims)
            == if found == |s| then [s[base..found]] else [s[base..found]] + Pieces(s[found + 1..], delims)
  {
    CutRest(s, base, found);
    PiecesAt(s[base..], found - base, delims);
  }

  function Joined(things: seq<string>, separator: char): string {
    if things == [] then "" else if |things| == 1 then things[0]
    else things[0] + [separator] + Joined(things[1..], separator)
  }

  lemma {:induction false} JoinedSnoc(things: seq<string>, separator: char, x: string)
    requires things != []
    ensures Joined(things + [x], separator) == Joined(things, separator) + [separator] + x
  {
    if |things| > 1 {
      JoinedSnoc(things[1..], separator, x);
      assert (things + [x])[1..] == things[1..] + [x];
    } else {
      assert (things + [x])[1..] == [x];
    }
  }

  method Join(things: seq<string>, separator: char) returns (result: string)
    ensures result == Joined(things, separator)
  {
    if things == [] {
      return "";
    }
    result := things[0];
    for i := 1 to |things|
      invariant result == Joined(things[..i], separator)
    {
      JoinedSnoc(things[..i], separator, things[i]);
      assert things[..i + 1] == things[..i] + [things[i]];
      result := result + [separator] + things[i];
    }
    assert things[..|things|] == things;
  }

  /** The pieces are free of delimiters, and have no other characters than the string. */
  lemma {:induction false} PiecesAreFree(s: string, delims: string)
    ensures forall p :: p in Pieces(s, delims) ==> Free(p, delims) && forall c :: c in p ==> c in s
    decreases |s|
  {
    var i := FirstOf(s, delims);
    if i == |s| {
      assert s[..i] == s;
    } else {
      PiecesAreFree(s[i + 1..], delims);
    }
  }

  lemma JoinedCons(x: string, rest: seq<string>, separator: char)
    requires rest != []
    ensures Joined([x] + rest, separator) == x + [separator] + Joined(rest, separator)
  {
    assert ([x] + rest)[1..] == rest;
  }

  lemma AroundDelimiter(s: string, i: nat)
    requires i < |s|
    ensures s == s[..i] + [s[i]] + s[i + 1..]
  {
  }

  /** Joining the pieces gives back the string. */
  lemma {:induction false} JoinPieces(s: string, separator: char)
    ensures Joined(Pieces(s, [separator]), separator) == s
    decreases |s|
  {
    var i := FirstOf(s, [separator]);
    PiecesAt(s, i, [separator]);
    if i < |s| {
      var rest := Pieces(s[i + 1..], [separator]);
      JoinPieces(s[i + 1..], separator);
      JoinedCons(s[..i], rest, separator);
      AroundDelimiter(s, i);
    }
  }

  /** Splitting what was joined gives back the things, if none of them holds the separator. */
  lemma {:induction false} PiecesOfJoined(things: seq<string>, separator: char)
    requires things != [] && forall x :: x in things ==> separator !in x
    ensures Pieces(Joined(things, separator), [separator]) == things
  {
    var x := things[0];
    if |things| == 1 {
      PiecesOfOne(x, separator);
    } else {
      PiecesOfJoined(things[1..], separator);
      PiecesCons(x, separator, Joined(things[1..], separator));
    }
  }

  /** The pieces of a string in front of one more thing. */
  lemma {:induction false} PiecesSnoc(s: string, separator: char, x: string)
    requires separator !in x
    ensures Pieces(s + [separator] + x, [separator]) == Pieces(s, [separator]) + [x]
    decreases |s|
  {
    var i, all := FirstOf(s, [separator]), s + [separator] + x;
    FirstOfLonger(s, separator, x);
    PiecesAt(s, i, [separator]);
    PiecesAt(all, i, [separator]);
    if i < |s| {
      CutInFront(s, separator, x, i);
      PiecesSnoc(s[i + 1..], separator, x);
    } else {
      CutAtEnd(s, separator, x);
      PiecesOfOne(x, separator);
    }
  }

  lemma FirstOfLonger(s: string, separator: char, x: string)
    ensures FirstOf(s + [separator] + x, [separator]) == FirstOf(s, [separator])
  {
    var i, all := FirstOf(s, [separator]), s + [separator] + x;
    assert all[..i] == s[..i];
    FirstOfIs(all, [separator], i);
  }

  lemma CutInFront(s: string, separator: char, x: string, i: nat)
    requires i < |s|
    ensures (s + [separator] + x)[..i] == s[..i]
    ensures (s + [separator] + x)[i + 1..] == s[i + 1..] + [separator] + x
  {
  }

  lemma CutAtEnd(s: string, separator: char, x: string)
    ensures (s + [separator] + x)[..|s|] == s && (s + [separator] + x)[|s| + 1..] == x
  {
  }

  /** The pieces of a string behind one more thing. */
  lemma PiecesCons(x: string, separator: char, s: string)
    requires separator !in x
    ensures Pieces(x + [separator] + s, [separator]) == [x] + Pieces(s, [separator])
  {
    CutAtEnd(x, separator, s);
    FirstOfIs(x + [separator] + s, [separator], |x|);
    PiecesAt(x + [separator] + s, |x|, [separator]);
  }

  lemma PiecesOfOne(x: string, separator: char)
    requires separator !in x
    ensures Pieces(x, [separator]) == [x]
  {
    assert x[..|x|] == x;
    FirstOfIs(x, [separator], |x|);
  }
}
