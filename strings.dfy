/**
  The string operations both puzzle solutions are built from: splitting on a
  separator (JavaScript's `String.prototype.split` with a string argument keeps
  empty pieces; Swift's `split(separator:)` drops them, which is `NonEmpty` of
  the same split), the inverse `Join`, and JavaScript's `trim`.
*/
module Strings {

  /** The characters JavaScript's `trim` removes: WhiteSpace and LineTerminator. */
  const WHITESPACE: set<char> := {
    '\t', '\U{000B}', '\U{000C}', ' ', '\U{00A0}', '\U{FEFF}',
    '\U{1680}', '\U{2000}', '\U{2001}', '\U{2002}', '\U{2003}', '\U{2004}',
    '\U{2005}', '\U{2006}', '\U{2007}', '\U{2008}', '\U{2009}', '\U{200A}',
    '\U{202F}', '\U{205F}', '\U{3000}',
    '\n', '\r', '\U{2028}', '\U{2029}'
  }

  predicate IsWhitespace(c: char)
  {
    c in WHITESPACE
  }

  predicate AllWhitespace(s: string)
  {
    AllIn(s, WHITESPACE)
  }

  // ---------------------------------------------------------------- split

  /**
    The pieces of `s` between the occurrences of `sep`, scanning left to right
    and matching without overlap. Empty pieces are kept, so there is always one
    more piece than there are separators.
  */
  function Split(s: string, sep: string): (pieces: seq<string>)
    requires |sep| > 0
    ensures |pieces| >= 1
    decreases |s|
  {
    if |s| < |sep| then [s]
    else if s[..|sep|] == sep then [""] + Split(s[|sep|..], sep)
    else
      var rest := Split(s[1..], sep);
      [[s[0]] + rest[0]] + rest[1..]
  }

  /** The pieces written one after the other with `sep` between them. */
  function Join(pieces: seq<string>, sep: string): string
    requires |pieces| >= 1
  {
    if |pieces| == 1 then pieces[0] else pieces[0] + sep + Join(pieces[1..], sep)
  }

  /** Joining a piece in front of others puts the separator between them. */
  lemma JoinCons(piece: string, rest: seq<string>, sep: string)
    requires |rest| >= 1
    ensures Join([piece] + rest, sep) == piece + sep + Join(rest, sep)
  {
    assert ([piece] + rest)[1..] == rest;
  }

  /** Splitting loses nothing: the pieces joined back give the input. */
  lemma {:induction false} JoinSplit(s: string, sep: string)
    requires |sep| > 0
    ensures Join(Split(s, sep), sep) == s
    decreases |s|
  {
    if |s| < |sep| {
    } else if s[..|sep|] == sep {
      JoinSplit(s[|sep|..], sep);
      JoinSplitAtSeparator(s, sep);
    } else {
      JoinSplit(s[1..], sep);
      JoinSplitPastChar(s, sep);
    }
  }

  /** The step of `JoinSplit` where `s` starts with the separator. */
  lemma JoinSplitAtSeparator(s: string, sep: string)
    requires |sep| > 0 && |s| >= |sep| && s[..|sep|] == sep
    requires Join(Split(s[|sep|..], sep), sep) == s[|sep|..]
    ensures Join(Split(s, sep), sep) == s
  {
    var rest := Split(s[|sep|..], sep);
    var pieces := Split(s, sep);
    assert pieces == [""] + rest;
    JoinAfterEmpty(pieces, rest, sep);
    assert s == s[..|sep|] + s[|sep|..];
  }

  /** An empty first piece leaves only the separator in front of the rest. */
  lemma JoinAfterEmpty(pieces: seq<string>, rest: seq<string>, sep: string)
    requires |rest| >= 1 && pieces == [""] + rest
    ensures Join(pieces, sep) == sep + Join(rest, sep)
  {
    assert pieces[1..] == rest;
  }

  /** The step of `JoinSplit` where the first character of `s` joins the first piece. */
  lemma JoinSplitPastChar(s: string, sep: string)
    requires |sep| > 0 && |s| >= |sep| && s[..|sep|] != sep
    requires Join(Split(s[1..], sep), sep) == s[1..]
    ensures Join(Split(s, sep), sep) == s
  {
    var rest := Split(s[1..], sep);
    var pieces := Split(s, sep);
    assert pieces == [[s[0]] + rest[0]] + rest[1..];
    JoinPrepend(pieces, rest, s[0], sep);
    assert s == [s[0]] + s[1..];
  }

  /** A character put in front of the first piece comes first in the joined text. */
  lemma JoinPrepend(pieces: seq<string>, rest: seq<string>, c: char, sep: string)
    requires |rest| >= 1 && pieces == [[c] + rest[0]] + rest[1..]
    ensures Join(pieces, sep) == [c] + Join(rest, sep)
  {
    if |rest| > 1 {
      assert pieces[1..] == rest[1..];
      ConcatRegroup([c], rest[0], sep, Join(rest[1..], sep));
    }
  }

  lemma ConcatRegroup(a: string, b: string, c: string, d: string)
    ensures (a + b) + c + d == a + (b + c + d)
  {
  }

  /** A string without the separator character is a single piece. */
  lemma {:induction false} SplitWithoutSeparator(s: string, c: char)
    requires c !in s
    ensures Split(s, [c]) == [s]
    decreases |s|
  {
    if |s| >= 1 {
      assert s[..1] == [s[0]];
      SplitWithoutSeparator(s[1..], c);
      assert [s[0]] + s[1..] == s;
    }
  }

  /** For a one-character separator, splitting distributes over a separator occurrence. */
  lemma {:induction false} SplitAppend(x: string, c: char, y: string)
    ensures Split(x + [c] + y, [c]) == Split(x, [c]) + Split(y, [c])
    decreases |x|
  {
    var s := x + [c] + y;
    if x == [] {
      assert s[..1] == [c];
      assert s[1..] == y;
    } else if x[0] == c {
      assert s[..1] == [c];
      assert s[1..] == x[1..] + [c] + y;
      SplitAppend(x[1..], c, y);
      assert x[..1] == [c];
      assert x[1..] == x[|[c]|..];
    } else {
      assert s[..1] == [x[0]] != [c];
      assert s[1..] == x[1..] + [c] + y;
      SplitAppend(x[1..], c, y);
      assert x[..1] == [x[0]];
      var left := Split(x[1..], [c]);
      var right := Split(y, [c]);
      assert Split(s, [c]) == [[x[0]] + (left + right)[0]] + (left + right)[1..];
      assert Split(x, [c]) == [[x[0]] + left[0]] + left[1..];
      FirstPieceAppend(x[0], left, right);
    }
  }

  /** Growing the first piece commutes with appending further pieces. */
  lemma FirstPieceAppend(ch: char, left: seq<string>, right: seq<string>)
    requires |left| >= 1
    ensures [[ch] + (left + right)[0]] + (left + right)[1..] == ([[ch] + left[0]] + left[1..]) + right
  {
    assert (left + right)[0] == left[0];
    assert (left + right)[1..] == left[1..] + right;
  }

  /** No piece of a one-character split holds that character. */
  lemma {:induction false} SplitPiecesLackSeparator(s: string, c: char)
    ensures forall i :: 0 <= i < |Split(s, [c])| ==> c !in Split(s, [c])[i]
    ensures forall p :: p in Split(s, [c]) ==> c !in p
    decreases |s|
  {
    if |s| >= 1 {
      SplitPiecesLackSeparator(s[1..], c);
      if s[..1] != [c] {
        assert s[..1] == [s[0]];
        var rest := Split(s[1..], [c]);
        assert c !in [s[0]] + rest[0];
        forall i | 1 <= i < |Split(s, [c])| ensures c !in Split(s, [c])[i] {
          assert Split(s, [c])[i] == rest[i];
        }
      }
    }
  }

  /** A one-character split yields a single piece exactly when the character is absent. */
  lemma SplitSinglePiece(s: string, c: char)
    ensures |Split(s, [c])| == 1 <==> c !in s
  {
    if c in s {
      var i :| 0 <= i < |s| && s[i] == c;
      assert s == s[..i] + [c] + s[i + 1..];
      SplitAppend(s[..i], c, s[i + 1..]);
    } else {
      SplitWithoutSeparator(s, c);
    }
  }

  /** For a one-character separator, joining pieces that avoid it and splitting again gives the pieces back. */
  lemma {:induction false} SplitJoin(pieces: seq<string>, c: char)
    requires |pieces| >= 1
    requires forall i :: 0 <= i < |pieces| ==> c !in pieces[i]
    ensures Split(Join(pieces, [c]), [c]) == pieces
    decreases |pieces|
  {
    SplitWithoutSeparator(pieces[0], c);
    if |pieces| > 1 {
      SplitJoin(pieces[1..], c);
      SplitAppend(pieces[0], c, Join(pieces[1..], [c]));
      assert pieces == [pieces[0]] + pieces[1..];
    }
  }

  /** `sep` occurs in `s` at position `p`. */
  predicate MatchesAt(s: string, sep: string, p: int)
  {
    0 <= p && p + |sep| <= |s| && s[p..p + |sep|] == sep
  }

  /**
    When `x` is followed by `sep`, the left-to-right scan finds no separator
    starting inside `x`: neither one wholly inside it nor one that overlaps its end.
  */
  predicate NoMatchBefore(x: string, sep: string)
  {
    forall p :: 0 <= p < |x| ==> !MatchesAt(x + sep, sep, p)
  }

  lemma NoMatchBeforeTail(x: string, sep: string)
    requires |x| >= 1 && NoMatchBefore(x, sep)
    ensures NoMatchBefore(x[1..], sep)
  {
    forall p | 0 <= p < |x[1..]| ensures !MatchesAt(x[1..] + sep, sep, p) {
      assert !MatchesAt(x + sep, sep, p + 1);
      assert x[1..] + sep == (x + sep)[1..];
    }
  }

  /** A piece with no separator starting in it stays whole. */
  lemma {:induction false} SplitUnmatched(x: string, sep: string)
    requires |sep| > 0 && NoMatchBefore(x, sep)
    ensures Split(x, sep) == [x]
    decreases |x|
  {
    if |x| >= |sep| {
      assert !MatchesAt(x + sep, sep, 0);
      assert (x + sep)[..|sep|] == x[..|sep|];
      NoMatchBeforeTail(x, sep);
      SplitUnmatched(x[1..], sep);
      assert [x[0]] + x[1..] == x;
    }
  }

  /** The first separator after such a piece ends the piece. */
  lemma {:induction false} SplitAfterPiece(x: string, sep: string, y: string)
    requires |sep| > 0 && NoMatchBefore(x, sep)
    ensures Split(x + sep + y, sep) == [x] + Split(y, sep)
    decreases |x|
  {
    var s := x + sep + y;
    if x == [] {
      assert s[..|sep|] == sep;
      assert s[|sep|..] == y;
    } else {
      assert !MatchesAt(x + sep, sep, 0);
      assert s[..|sep|] == (x + sep)[..|sep|];
      assert s[1..] == x[1..] + sep + y;
      NoMatchBeforeTail(x, sep);
      SplitAfterPiece(x[1..], sep, y);
      assert [x[0]] + x[1..] == x;
    }
  }

  /** Joining pieces in which no separator starts and splitting again gives the pieces back. */
  lemma {:induction false} SplitJoinUnmatched(pieces: seq<string>, sep: string)
    requires |sep| > 0 && |pieces| >= 1
    requires forall i :: 0 <= i < |pieces| ==> NoMatchBefore(pieces[i], sep)
    ensures Split(Join(pieces, sep), sep) == pieces
    decreases |pieces|
  {
    if |pieces| == 1 {
      SplitUnmatched(pieces[0], sep);
    } else {
      SplitJoinUnmatched(pieces[1..], sep);
      SplitAfterPiece(pieces[0], sep, Join(pieces[1..], sep));
      assert pieces == [pieces[0]] + pieces[1..];
    }
  }

  // ---------------------------------------------------------------- filtering

  /** The non-empty pieces, in order (JavaScript's `filter(l => l.length > 0)`). */
  function NonEmpty(pieces: seq<string>): (kept: seq<string>)
    ensures |kept| <= |pieces|
    ensures forall i :: 0 <= i < |kept| ==> kept[i] != ""
    ensures forall p :: p in kept <==> p in pieces && p != ""
  {
    if pieces == [] then []
    else if pieces[0] == "" then NonEmpty(pieces[1..])
    else [pieces[0]] + NonEmpty(pieces[1..])
  }

  /** Filtering distributes over concatenation, so it keeps the order of the pieces. */
  lemma {:induction false} NonEmptyAppend(a: seq<string>, b: seq<string>)
    ensures NonEmpty(a + b) == NonEmpty(a) + NonEmpty(b)
    decreases |a|
  {
    if a == [] {
      assert a + b == b;
    } else {
      assert (a + b)[0] == a[0];
      assert (a + b)[1..] == a[1..] + b;
      NonEmptyAppend(a[1..], b);
    }
  }

  /** Pieces that are all non-empty pass the filter unchanged. */
  lemma {:induction false} NonEmptyKeepsAll(pieces: seq<string>)
    requires forall i :: 0 <= i < |pieces| ==> pieces[i] != ""
    ensures NonEmpty(pieces) == pieces
    decreases |pieces|
  {
    if pieces != [] {
      NonEmptyKeepsAll(pieces[1..]);
    }
  }

  // ---------------------------------------------------------------- trimming

  /*
    Stripping is defined for any set `ws` of characters, so that its proofs
    never look inside the whitespace set; `Trim` fixes `ws` to `WHITESPACE`.
  */

  predicate AllIn(s: string, ws: set<char>)
  {
    forall i :: 0 <= i < |s| ==> s[i] in ws
  }

  /** `s` without its leading characters from `ws`. */
  function StripStart(s: string, ws: set<char>): (r: string)
    ensures |r| <= |s| && r == s[|s| - |r|..]
    ensures r == [] || r[0] !in ws
    decreases |s|
  {
    if |s| > 0 && s[0] in ws then StripStart(s[1..], ws) else s
  }

  /** `s` without its trailing characters from `ws`. */
  function StripEnd(s: string, ws: set<char>): (r: string)
    ensures |r| <= |s| && r == s[..|r|]
    ensures r == [] || r[|r| - 1] !in ws
    decreases |s|
  {
    if |s| > 0 && s[|s| - 1] in ws then StripEnd(s[..|s| - 1], ws) else s
  }

  /** JavaScript's `trim`: `s` without leading and trailing whitespace. */
  function Trim(s: string): (r: string)
    ensures |r| <= |s|
    ensures r == [] || (!IsWhitespace(r[0]) && !IsWhitespace(r[|r| - 1]))
  {
    StripEnd(StripStart(s, WHITESPACE), WHITESPACE)
  }

  /** Only characters from `ws` are removed from the front. */
  lemma {:induction false} StripStartRemovesOnlyWs(s: string, ws: set<char>)
    ensures forall i :: 0 <= i < |s| - |StripStart(s, ws)| ==> s[i] in ws
    decreases |s|
  {
    if |s| > 0 && s[0] in ws {
      var t := s[1..];
      StripStartRemovesOnlyWs(t, ws);
      assert StripStart(s, ws) == StripStart(t, ws);
      forall i | 0 < i < |s| - |StripStart(t, ws)|
        ensures s[i] in ws
      {
        assert s[i] == t[i - 1];
      }
    }
  }

  /** Only characters from `ws` are removed from the back. */
  lemma {:induction false} StripEndRemovesOnlyWs(s: string, ws: set<char>)
    ensures forall i :: |StripEnd(s, ws)| <= i < |s| ==> s[i] in ws
    decreases |s|
  {
    if |s| > 0 && s[|s| - 1] in ws {
      var t := s[..|s| - 1];
      StripEndRemovesOnlyWs(t, ws);
      assert StripEnd(s, ws) == StripEnd(t, ws);
      forall i | |StripEnd(t, ws)| <= i < |s| - 1
        ensures s[i] in ws
      {
        assert s[i] == t[i];
      }
    }
  }

  /** `r` is the slice of `s` starting at `lo`, and everything around it is in `ws`. */
  ghost predicate IsStrippedAt(s: string, r: string, lo: int, ws: set<char>)
  {
    && 0 <= lo && lo + |r| <= |s|
    && r == s[lo..lo + |r|]
    && AllIn(s[..lo], ws)
    && AllIn(s[lo + |r|..], ws)
  }

  /**
    Stripping both ends keeps a slice of the input with only characters from
    `ws` around it, and keeps nothing exactly when the input is all `ws`.
  */
  lemma StripKeepsMiddle(s: string, ws: set<char>)
    ensures exists lo :: IsStrippedAt(s, StripEnd(StripStart(s, ws), ws), lo, ws)
    ensures StripEnd(StripStart(s, ws), ws) == [] <==> AllIn(s, ws)
  {
    var t := StripStart(s, ws);
    var r := StripEnd(t, ws);
    var lo := |s| - |t|;
    StripStartRemovesOnlyWs(s, ws);
    StripEndRemovesOnlyWs(t, ws);
    assert t == s[lo..] && r == t[..|r|];
    var front := s[..lo];
    forall i | 0 <= i < |front| ensures front[i] in ws {
      assert front[i] == s[i];
    }
    var back := s[lo + |r|..];
    forall j | 0 <= j < |back| ensures back[j] in ws {
      assert back[j] == t[|r| + j];
    }
    assert IsStrippedAt(s, r, lo, ws);
    if r != [] {
      assert s[lo] == r[0];
    }
  }

  /**
    What `trim` keeps is a slice of its input with only whitespace around it,
    and it keeps nothing exactly when the input is all whitespace.
  */
  lemma TrimKeepsMiddle(s: string)
    ensures exists lo :: IsStrippedAt(s, Trim(s), lo, WHITESPACE)
    ensures Trim(s) == [] <==> AllWhitespace(s)
  {
    StripKeepsMiddle(s, WHITESPACE);
    var r := StripEnd(StripStart(s, WHITESPACE), WHITESPACE);
    assert Trim(s) == r;
    var lo :| IsStrippedAt(s, r, lo, WHITESPACE);
    assert IsStrippedAt(s, Trim(s), lo, WHITESPACE);
  }

  /** A string that neither starts nor ends with whitespace is left as it is. */
  lemma TrimUnpadded(s: string)
    requires s == [] || (!IsWhitespace(s[0]) && !IsWhitespace(s[|s| - 1]))
    ensures Trim(s) == s
  {
  }

  /** One whitespace character on each side of an unpadded string is trimmed away. */
  lemma TrimPadded(before: char, m: string, after: char)
    requires IsWhitespace(before) && IsWhitespace(after)
    requires m != [] && !IsWhitespace(m[0]) && !IsWhitespace(m[|m| - 1])
    ensures Trim([before] + m + [after]) == m
  {
    StripPadded(before, m, after, WHITESPACE);
  }

  lemma StripPadded(before: char, m: string, after: char, ws: set<char>)
    requires before in ws && after in ws
    requires m != [] && m[0] !in ws && m[|m| - 1] !in ws
    ensures StripEnd(StripStart([before] + m + [after], ws), ws) == m
  {
    var s := [before] + m + [after];
    assert s[1..] == m + [after];
    assert StripStart(s, ws) == m + [after];
    assert (m + [after])[..|m|] == m;
    assert StripEnd(m + [after], ws) == StripEnd(m, ws);
  }
}
