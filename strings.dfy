/**
 * The parts of Go's string handling the core relies on: the `<` operator on
 * strings, `strings.Contains`, `strings.Index` and `strings.Split`.
 *
 * Go compares strings byte by byte on their UTF-8 encoding. UTF-8 preserves
 * the order of code points, so on valid UTF-8 text that order is the
 * lexicographic order of the characters, which is what `Less` states.
 */
module Strings {

  /** Go's `a < b` on strings: lexicographic, a proper prefix sorts first. */
  predicate Less(a: string, b: string)
    ensures Less(a, b) && |a| > 0 ==> |b| > 0 && a[0] <= b[0]
  {
    if |a| == 0 then |b| > 0
    else if |b| == 0 then false
    else if a[0] != b[0] then a[0] < b[0]
    else Less(a[1..], b[1..])
  }

  /** A proper prefix sorts before the text it begins. */
  lemma {:induction false} ProperPrefixSortsFirst(a: string, b: string)
    requires |a| < |b| && a == b[..|a|]
    ensures Less(a, b)
  {
    if |a| > 0 {
      assert a[1..] == b[1..][..|a| - 1];
      ProperPrefixSortsFirst(a[1..], b[1..]);
    }
  }

  lemma {:induction false} LessIrreflexive(a: string)
    ensures !Less(a, a)
  {
    if |a| > 0 {
      LessIrreflexive(a[1..]);
    }
  }

  lemma {:induction false} LessTransitive(a: string, b: string, c: string)
    requires Less(a, b) && Less(b, c)
    ensures Less(a, c)
  {
    if |a| > 0 && a[0] == b[0] && b[0] == c[0] {
      LessTransitive(a[1..], b[1..], c[1..]);
    }
  }

  lemma LessAsymmetric(a: string, b: string)
    requires Less(a, b)
    ensures !Less(b, a)
  {
    if Less(b, a) {
      LessTransitive(a, b, a);
      LessIrreflexive(a);
    }
  }

  /** Any two different strings are ordered one way or the other. */
  lemma {:induction false} LessTotal(a: string, b: string)
    requires a != b
    ensures Less(a, b) || Less(b, a)
  {
    if |a| > 0 && |b| > 0 && a[0] == b[0] {
      assert a == [a[0]] + a[1..] && b == [b[0]] + b[1..];
      LessTotal(a[1..], b[1..]);
    }
  }

  /** "Not after": the order `sort.Slice` leaves neighbours in. */
  lemma NotLessTransitive(a: string, b: string, c: string)
    requires !Less(b, a) && !Less(c, b)
    ensures !Less(c, a)
  {
    if Less(c, a) {
      if a == b {
      } else {
        LessTotal(a, b);
        LessTransitive(c, a, b);
      }
    }
  }

  /** `sub` occurs in `s` starting at index `i`. */
  predicate OccursAt(s: string, sub: string, i: int)
  {
    0 <= i && i + |sub| <= |s| && s[i..i + |sub|] == sub
  }

  /** `strings.Contains(s, sub)`. */
  predicate Contains(s: string, sub: string)
    ensures Contains(s, sub) ==> |sub| <= |s|
  {
    exists i | 0 <= i <= |s| :: OccursAt(s, sub, i)
  }

  /** The first occurrence of `sub` in `s` at index `i` or later, or -1. */
  function IndexFrom(s: string, sub: string, i: nat): (r: int)
    ensures r == -1 || (i <= r && OccursAt(s, sub, r))
    ensures forall j :: i <= j && (r == -1 || j < r) ==> !OccursAt(s, sub, j)
    decreases |s| + 1 - i
  {
    if i + |sub| > |s| then -1
    else if s[i..i + |sub|] == sub then i
    else IndexFrom(s, sub, i + 1)
  }

  /** `strings.Index(s, sub)`: the first occurrence of `sub` in `s`, or -1 when there is none. */
  function Index(s: string, sub: string): (r: int)
    ensures -1 <= r <= |s|
    ensures r == -1 || OccursAt(s, sub, r)
    ensures forall j :: 0 <= j && (r == -1 || j < r) ==> !OccursAt(s, sub, j)
  {
    IndexFrom(s, sub, 0)
  }

  lemma IndexIsFirstOccurrence(s: string, sub: string)
    ensures Index(s, sub) >= 0 <==> Contains(s, sub)
    ensures Index(s, sub) >= 0 ==> OccursAt(s, sub, Index(s, sub))
    ensures forall j :: 0 <= j < Index(s, sub) ==> !OccursAt(s, sub, j)
  {
    var r := Index(s, sub);
    if Contains(s, sub) {
      var j :| 0 <= j <= |s| && OccursAt(s, sub, j);
    }
    if r >= 0 {
      assert OccursAt(s, sub, r) && r <= |s|;
    }
  }

  /**
   * `strings.Split(s, sep)` for a non-empty separator: the texts around each
   * occurrence of `sep`, scanning from the left.
   */
  function Split(s: string, sep: string): (parts: seq<string>)
    requires |sep| > 0
    ensures |parts| >= 1
    decreases |s|
  {
    var i := Index(s, sep);
    if i < 0 then [s]
    else
      [s[..i]] + Split(s[i + |sep|..], sep)
  }

  /** `strings.Join(parts, sep)`. */
  function Join(parts: seq<string>, sep: string): string
  {
    if |parts| == 0 then ""
    else if |parts| == 1 then parts[0]
    else parts[0] + sep + Join(parts[1..], sep)
  }

  /** Split never yields an empty list, and yields a single piece exactly when `sep` is absent. */
  lemma {:induction false} SplitLength(s: string, sep: string)
    requires |sep| > 0
    ensures |Split(s, sep)| >= 1
    ensures |Split(s, sep)| == 1 <==> !Contains(s, sep)
    decreases |s|
  {
    IndexIsFirstOccurrence(s, sep);
    var i := Index(s, sep);
    if i >= 0 {
      SplitLength(s[i + |sep|..], sep);
    }
  }

  lemma JoinCons(head: string, tail: seq<string>, sep: string)
    requires |tail| >= 1
    ensures Join([head] + tail, sep) == head + sep + Join(tail, sep)
  {
    assert ([head] + tail)[1..] == tail;
  }

  /** Cutting `s` around an occurrence of `sub` and gluing it back gives `s`. */
  lemma CutAround(s: string, sub: string, i: int)
    requires OccursAt(s, sub, i)
    ensures s == s[..i] + sub + s[i + |sub|..]
  {
    assert s == s[..i] + s[i..i + |sub|] + s[i + |sub|..];
  }

  /** Joining the pieces with the separator gives back the original text. */
  lemma {:induction false} SplitJoin(s: string, sep: string)
    requires |sep| > 0
    ensures Join(Split(s, sep), sep) == s
    decreases |s|
  {
    var i := Index(s, sep);
    if i >= 0 {
      var rest := s[i + |sep|..];
      SplitJoin(rest, sep);
      SplitLength(rest, sep);
      JoinCons(s[..i], Split(rest, sep), sep);
      CutAround(s, sep, i);
    }
  }

  /** A prefix that ends before the first occurrence holds no occurrence. */
  lemma PrefixBeforeFirst(s: string, sub: string, j: nat)
    requires |sub| > 0 && j <= |s|
    requires forall p :: 0 <= p < j ==> !OccursAt(s, sub, p)
    ensures !Contains(s[..j], sub)
  {
    if Contains(s[..j], sub) {
      var p :| 0 <= p <= j && OccursAt(s[..j], sub, p);
      assert s[..j][p..p + |sub|] == s[p..p + |sub|];
      assert OccursAt(s, sub, p);
    }
  }

  /**
   * The first piece of a split is a prefix of the text free of the
   * separator, followed by the separator or by nothing.
   */
  lemma SplitFirstPiece(s: string, sep: string)
    requires |sep| > 0
    ensures |Split(s, sep)| >= 1
    ensures var p := Split(s, sep)[0];
            && |p| <= |s| && s[..|p|] == p && !Contains(p, sep)
            && (|p| == |s| || OccursAt(s, sep, |p|))
  {
    SplitLength(s, sep);
    IndexIsFirstOccurrence(s, sep);
    var i := Index(s, sep);
    if i < 0 {
      assert Split(s, sep)[0] == s;
      PrefixBeforeFirst(s, sep, |s|);
      assert s[..|s|] == s;
    } else {
      assert Split(s, sep)[0] == s[..i];
      PrefixBeforeFirst(s, sep, i);
    }
  }

  /** When the separator occurs, the second piece is the first piece of what follows its first occurrence. */
  lemma SplitSecondPiece(s: string, sep: string)
    requires |sep| > 0 && Contains(s, sep)
    ensures Index(s, sep) >= 0 && |Split(s, sep)| >= 2
    ensures |Split(s[Index(s, sep) + |sep|..], sep)| >= 1
    ensures Split(s, sep)[1] == Split(s[Index(s, sep) + |sep|..], sep)[0]
  {
    IndexIsFirstOccurrence(s, sep);
    var rest := s[Index(s, sep) + |sep|..];
    SplitLength(rest, sep);
    assert Split(s, sep) == [s[..Index(s, sep)]] + Split(rest, sep);
  }

  /**
   * `piece` is what follows the first `sep` in `s`, up to the next `sep` or
   * the end: it starts right after the first occurrence, holds no `sep`, and
   * is followed by `sep` or by nothing.
   */
  predicate FollowsFirst(s: string, sep: string, piece: string)
  {
    var at := Index(s, sep) + |sep|;
    && Index(s, sep) >= 0
    && at + |piece| <= |s|
    && s[at..at + |piece|] == piece
    && !Contains(piece, sep)
    && (at + |piece| == |s| || OccursAt(s, sep, at + |piece|))
  }

  /** An occurrence in a suffix is an occurrence in the whole text, shifted. */
  lemma OccursInSuffix(s: string, sub: string, at: int, j: int)
    requires 0 <= at <= |s| && OccursAt(s[at..], sub, j)
    ensures OccursAt(s, sub, at + j)
  {
    assert s[at..][j..j + |sub|] == s[at + j..at + j + |sub|];
  }

  /** The second piece of a split sits right after the first separator. */
  lemma SecondPiecePosition(s: string, sep: string)
    requires |sep| > 0 && Contains(s, sep)
    ensures |Split(s, sep)| >= 2
    ensures var at := Index(s, sep) + |sep|; var piece := Split(s, sep)[1];
            && Index(s, sep) >= 0
            && at + |piece| <= |s| && s[at..at + |piece|] == piece
            && !Contains(piece, sep)
  {
    SplitSecondPiece(s, sep);
    var at := Index(s, sep) + |sep|;
    var rest := s[at..];
    SplitFirstPiece(rest, sep);
    var piece := Split(s, sep)[1];
    assert piece == Split(rest, sep)[0];
    assert s[at..at + |piece|] == rest[..|piece|];
  }

  /** The second piece of a split runs to the end or up to the next separator. */
  lemma SecondPieceEnd(s: string, sep: string)
    requires |sep| > 0 && Contains(s, sep)
    ensures |Split(s, sep)| >= 2
    ensures var at := Index(s, sep) + |sep|; var piece := Split(s, sep)[1];
            at + |piece| == |s| || OccursAt(s, sep, at + |piece|)
  {
    SplitSecondPiece(s, sep);
    var at := Index(s, sep) + |sep|;
    var rest := s[at..];
    SplitFirstPiece(rest, sep);
    var piece := Split(s, sep)[1];
    assert piece == Split(rest, sep)[0];
    if |piece| < |s| - at {
      OccursInSuffix(s, sep, at, |piece|);
    }
  }

  /** The second piece of a split is the text between the first separator and the next one or the end. */
  lemma SecondPieceFollowsFirst(s: string, sep: string)
    requires |sep| > 0 && Contains(s, sep)
    ensures |Split(s, sep)| >= 2
    ensures FollowsFirst(s, sep, Split(s, sep)[1])
  {
    SecondPiecePosition(s, sep);
    SecondPieceEnd(s, sep);
  }

  /** No piece of a split holds the separator. */
  lemma {:induction false} SplitPiecesFree(s: string, sep: string)
    requires |sep| > 0
    ensures forall k :: 0 <= k < |Split(s, sep)| ==> !Contains(Split(s, sep)[k], sep)
    decreases |s|
  {
    IndexIsFirstOccurrence(s, sep);
    var i := Index(s, sep);
    if i < 0 {
      assert Split(s, sep) == [s];
    } else {
      PrefixBeforeFirst(s, sep, i);
      SplitPiecesFree(s[i + |sep|..], sep);
    }
  }
}
