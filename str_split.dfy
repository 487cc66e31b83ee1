/**
 * Rust's `str::split` with a string pattern, and the piece `last()` takes.
 *
 * For a non-empty pattern the searcher reports its matches left to right,
 * each time the leftmost one at or after the end of the previous match, so
 * matches never overlap; the pieces are the text between them.  For the
 * empty pattern every character boundary matches, so the pieces are an empty
 * string, each character, and another empty string.  Either way there is at
 * least one piece, which is why `last().unwrap()` cannot fail.
 */
module StrSplit {
  import opened Wrappers

  /** `pat` occurs in `s` starting at index `i`. */
  predicate OccursAt(s: string, pat: string, i: int) {
    0 <= i && i + |pat| <= |s| && s[i..i + |pat|] == pat
  }

  predicate OccursFrom(s: string, pat: string, from: int) {
    exists i :: from <= i <= |s| && OccursAt(s, pat, i)
  }

  predicate Contains(s: string, pat: string) {
    OccursFrom(s, pat, 0)
  }

  /** The searcher's next match: the leftmost occurrence of `pat` at or after `from`. */
  function FindFrom(s: string, pat: string, from: nat): (r: Option<nat>)
    requires from <= |s|
    decreases |s| - from
    ensures r.Some? ==> from <= r.value && OccursAt(s, pat, r.value)
    ensures r.Some? ==> forall j :: from <= j < r.value ==> !OccursAt(s, pat, j)
    ensures r.None? ==> forall j :: from <= j ==> !OccursAt(s, pat, j)
  {
    if from + |pat| > |s| then None
    else if s[from..from + |pat|] == pat then Some(from)
    else FindFrom(s, pat, from + 1)
  }

  /** The pieces of `s[start..]` between successive matches of a non-empty pattern. */
  function SplitFrom(s: string, pat: string, start: nat): (pieces: seq<string>)
    requires |pat| > 0 && start <= |s|
    decreases |s| - start
    ensures |pieces| >= 1
  {
    match FindFrom(s, pat, start)
    case None => [s[start..]]
    case Some(i) => [s[start..i]] + SplitFrom(s, pat, i + |pat|)
  }

  /** Each character of `s` as a string of its own. */
  function Chars(s: string): (pieces: seq<string>)
    ensures |pieces| == |s|
  {
    seq(|s|, i requires 0 <= i < |s| => [s[i]])
  }

  /** `s.split(pat)`, as the sequence of pieces it yields. */
  function Split(s: string, pat: string): (pieces: seq<string>)
    ensures |pieces| >= 1
    ensures pat == [] ==> pieces[0] == [] && pieces[|pieces| - 1] == []
  {
    if pat == [] then [[]] + Chars(s) + [[]] else SplitFrom(s, pat, 0)
  }

  function Last<T>(xs: seq<T>): (x: T)
    requires |xs| > 0
  {
    xs[|xs| - 1]
  }

  /** The pieces glued back together with the pattern between them. */
  function Join(pieces: seq<string>, pat: string): (s: string)
    requires |pieces| > 0
    decreases |pieces|
  {
    if |pieces| == 1 then pieces[0] else pieces[0] + pat + Join(pieces[1..], pat)
  }

  /** The pattern never overlaps itself: no proper suffix of it is also a prefix of it. */
  predicate NoSelfOverlap(pat: string) {
    forall d :: 0 < d < |pat| ==> pat[d..] != pat[..|pat| - d]
  }

  // ---------------------------------------------------------------------
  // Occurrences inside slices.

  /** Occurrences inside a slice are the occurrences in the whole string that fit in the slice. */
  lemma OccursInSlice(s: string, pat: string, a: int, b: int, j: int)
    requires 0 <= a <= b <= |s| && 0 <= j && j + |pat| <= b - a
    ensures OccursAt(s[a..b], pat, j) <==> OccursAt(s, pat, a + j)
  {
    var u, w := s[a..b][j..j + |pat|], s[a + j..a + j + |pat|];
    forall k | 0 <= k < |pat|
      ensures u[k] == w[k]
    {
      assert u[k] == s[a + j + k];
    }
    assert u == w;
  }

  /** Occurrences at or after `a` are the occurrences in `s[a..]`. */
  lemma OccursInSuffix(s: string, pat: string, a: int, j: int)
    requires 0 <= a <= j && a <= |s|
    ensures OccursAt(s, pat, j) <==> OccursAt(s[a..], pat, j - a)
  {
    if j + |pat| <= |s| {
      assert s[a..][j - a..j - a + |pat|] == s[j..j + |pat|];
    }
  }

  /** A pattern that cannot overlap itself does not occur again inside one of its own matches. */
  lemma NoOccurrenceInsideMatch(s: string, pat: string, m: int, j: int)
    requires NoSelfOverlap(pat) && OccursAt(s, pat, m) && m < j < m + |pat|
    ensures !OccursAt(s, pat, j)
  {
    var d, e := j - m, m + |pat|;
    assert pat[d..] == s[j..e];
    assert pat[d..] != pat[..|pat| - d];
    if j + |pat| <= |s| {
      assert s[j..j + |pat|][..|pat| - d] == s[j..e];
    }
  }

  /** The leftmost occurrence at or after `from` is what FindFrom reports. */
  lemma {:induction false} FindFromLeftmost(s: string, pat: string, from: nat, i: nat)
    requires from <= i && OccursAt(s, pat, i)
    requires forall j :: from <= j < i ==> !OccursAt(s, pat, j)
    ensures FindFrom(s, pat, from) == Some(i)
    decreases i - from
  {
    if from < i {
      assert !OccursAt(s, pat, from);
      FindFromLeftmost(s, pat, from + 1, i);
    }
  }

  /** With no occurrence at or after `from`, FindFrom reports none. */
  lemma {:induction false} FindFromAbsent(s: string, pat: string, from: nat)
    requires from <= |s|
    requires forall j :: from <= j ==> !OccursAt(s, pat, j)
    ensures FindFrom(s, pat, from) == None
    decreases |s| - from
  {
    if from + |pat| <= |s| {
      assert !OccursAt(s, pat, from);
      FindFromAbsent(s, pat, from + 1);
    }
  }

  /** One step of SplitFrom: no further match ends the split, a match cuts off one piece. */
  lemma SplitFromStep(s: string, pat: string, start: nat)
    requires |pat| > 0 && start <= |s|
    ensures FindFrom(s, pat, start).None? ==> SplitFrom(s, pat, start) == [s[start..]]
    ensures FindFrom(s, pat, start).Some? ==>
      var i := FindFrom(s, pat, start).value;
      i + |pat| <= |s| && SplitFrom(s, pat, start) == [s[start..i]] + SplitFrom(s, pat, i + |pat|)
  {
  }

  // ---------------------------------------------------------------------
  // Properties of the pieces.

  lemma {:induction false} JoinSplitFrom(s: string, pat: string, start: nat)
    requires |pat| > 0 && start <= |s|
    ensures Join(SplitFrom(s, pat, start), pat) == s[start..]
    decreases |s| - start
  {
    SplitFromStep(s, pat, start);
    if FindFrom(s, pat, start).Some? {
      var i := FindFrom(s, pat, start).value;
      var rest := SplitFrom(s, pat, i + |pat|);
      JoinSplitFrom(s, pat, i + |pat|);
      assert ([s[start..i]] + rest)[1..] == rest;
      assert s[start..] == s[start..i] + s[i..i + |pat|] + s[i + |pat|..];
    }
  }

  lemma {:induction false} JoinChars(s: string)
    ensures Join(Chars(s) + [[]], []) == s
    decreases |s|
  {
    if s == [] {
      assert Chars(s) + [[]] == [[]];
    } else {
      JoinChars(s[1..]);
      assert (Chars(s) + [[]])[1..] == Chars(s[1..]) + [[]];
      assert s == [s[0]] + [] + s[1..];
    }
  }

  /** Gluing the pieces back with the pattern gives back the string. */
  lemma JoinSplit(s: string, pat: string)
    ensures Join(Split(s, pat), pat) == s
  {
    if pat == [] {
      JoinChars(s);
      assert Split(s, pat)[1..] == Chars(s) + [[]];
    } else {
      JoinSplitFrom(s, pat, 0);
    }
  }

  /** A slice `s[a..b]` that holds no match of `pat` starting in `[a, b - |pat|]` does not contain `pat`. */
  lemma SliceFree(s: string, pat: string, a: nat, b: nat)
    requires a <= b <= |s|
    requires forall j :: a <= j && j + |pat| <= b ==> !OccursAt(s, pat, j)
    ensures !Contains(s[a..b], pat)
  {
    forall j | 0 <= j <= |s[a..b]|
      ensures !OccursAt(s[a..b], pat, j)
    {
      if j + |pat| <= b - a {
        OccursInSlice(s, pat, a, b, j);
      }
    }
  }

  lemma {:induction false} SplitFromPiecesFree(s: string, pat: string, start: nat)
    requires |pat| > 0 && start <= |s|
    ensures forall k :: 0 <= k < |SplitFrom(s, pat, start)| ==> !Contains(SplitFrom(s, pat, start)[k], pat)
    decreases |s| - start
  {
    SplitFromStep(s, pat, start);
    match FindFrom(s, pat, start)
    case None =>
      SliceFree(s, pat, start, |s|);
      assert s[start..] == s[start..|s|];
    case Some(i) =>
      var rest := SplitFrom(s, pat, i + |pat|);
      SplitFromPiecesFree(s, pat, i + |pat|);
      SliceFree(s, pat, start, i);
      var pieces := [s[start..i]] + rest;
      forall k | 0 <= k < |pieces|
        ensures !Contains(pieces[k], pat)
      {
        if k > 0 {
          assert pieces[k] == rest[k - 1];
        }
      }
  }

  /** With a non-empty pattern no piece contains the pattern. */
  lemma SplitPiecesFree(s: string, pat: string)
    requires |pat| > 0
    ensures forall k :: 0 <= k < |Split(s, pat)| ==> !Contains(Split(s, pat)[k], pat)
  {
    SplitFromPiecesFree(s, pat, 0);
  }

  // ---------------------------------------------------------------------
  // The last piece.

  /** The last piece of `s[start..]` is a suffix of `s[start..]`. */
  lemma {:induction false} LastSplitFromSuffix(s: string, pat: string, start: nat)
    requires |pat| > 0 && start <= |s|
    ensures var r := Last(SplitFrom(s, pat, start));
      |r| <= |s| - start && r == s[|s| - |r|..]
    decreases |s| - start
  {
    SplitFromStep(s, pat, start);
    if FindFrom(s, pat, start).Some? {
      var i := FindFrom(s, pat, start).value;
      var rest := SplitFrom(s, pat, i + |pat|);
      LastSplitFromSuffix(s, pat, i + |pat|);
      assert Last([s[start..i]] + rest) == Last(rest);
    }
  }

  /**
   * When the pattern occurs at or after `start`, the last piece of `s[start..]`
   * starts right after a match that begins at or after `start`.
   */
  lemma {:induction false} LastSplitFromAfterMatch(s: string, pat: string, start: nat)
    requires |pat| > 0 && start <= |s| && OccursFrom(s, pat, start)
    ensures var r := Last(SplitFrom(s, pat, start));
      start + |pat| <= |s| - |r| && OccursAt(s, pat, |s| - |r| - |pat|)
    decreases |s| - start
  {
    SplitFromStep(s, pat, start);
    var i := FindFrom(s, pat, start).value;
    var next := i + |pat|;
    var rest := SplitFrom(s, pat, next);
    var r := Last(rest);
    assert Last([s[start..i]] + rest) == r;
    LastSplitFromSuffix(s, pat, next);
    if OccursFrom(s, pat, next) {
      LastSplitFromAfterMatch(s, pat, next);
    } else {
      SplitFromStep(s, pat, next);
      FindFromAbsent(s, pat, next);
      assert r == s[next..];
    }
  }

  /** The last piece is a suffix of the string. */
  lemma LastPieceSuffix(s: string, pat: string)
    ensures var r := Last(Split(s, pat));
      |r| <= |s| && r == s[|s| - |r|..]
  {
    if pat != [] {
      LastSplitFromSuffix(s, pat, 0);
    }
  }

  /** The empty pattern matches at the end of the string, so the last piece is empty. */
  lemma LastPieceEmptyPattern(s: string)
    ensures Last(Split(s, "")) == ""
  {
  }

  /** With a non-empty pattern, the last piece contains no match of it. */
  lemma LastPieceFree(s: string, pat: string)
    requires |pat| > 0
    ensures !Contains(Last(Split(s, pat)), pat)
  {
    SplitPiecesFree(s, pat);
  }

  /** With a non-empty pattern, the last piece is the whole string exactly when the pattern does not occur. */
  lemma LastPieceWhole(s: string, pat: string)
    requires |pat| > 0
    ensures Last(Split(s, pat)) == s <==> !Contains(s, pat)
  {
    if Contains(s, pat) {
      LastSplitFromAfterMatch(s, pat, 0);
    }
  }

  /** When the pattern occurs, the last piece starts right after one of its matches. */
  lemma LastPieceAfterMatch(s: string, pat: string)
    requires |pat| > 0 && Contains(s, pat)
    ensures var r := Last(Split(s, pat));
      |r| + |pat| <= |s| && OccursAt(s, pat, |s| - |r| - |pat|)
  {
    LastSplitFromAfterMatch(s, pat, 0);
  }

  /**
   * For a pattern that cannot overlap itself, the match the last piece follows
   * is the last occurrence of the pattern in the string.
   */
  lemma LastPieceAfterLastOccurrence(s: string, pat: string)
    requires |pat| > 0 && NoSelfOverlap(pat) && Contains(s, pat)
    ensures var r := Last(Split(s, pat));
      |r| + |pat| <= |s| && OccursAt(s, pat, |s| - |r| - |pat|)
      && forall j :: |s| - |r| - |pat| < j ==> !OccursAt(s, pat, j)
  {
    var r := Last(Split(s, pat));
    LastSplitFromSuffix(s, pat, 0);
    LastSplitFromAfterMatch(s, pat, 0);
    LastPieceFree(s, pat);
    var e := |s| - |r|;
    var m := e - |pat|;
    forall j | m < j
      ensures !OccursAt(s, pat, j)
    {
      if e <= j {
        OccursInSuffix(s, pat, e, j);
        assert r == s[e..];
        assert !OccursAt(r, pat, j - e) by {
          assert j - e <= |r| ==> !OccursAt(r, pat, j - e);
        }
      } else {
        NoOccurrenceInsideMatch(s, pat, m, j);
      }
    }
  }

  /** For a pattern that cannot overlap itself, a string ending in the pattern has an empty last piece. */
  lemma LastPieceOfTrailingPattern(s: string, pat: string)
    requires |pat| > 0 && NoSelfOverlap(pat)
    requires |pat| <= |s| && s[|s| - |pat|..] == pat
    ensures Last(Split(s, pat)) == ""
  {
    assert OccursAt(s, pat, |s| - |pat|);
    LastPieceAfterLastOccurrence(s, pat);
  }

  /**
   * The hypothesis above is needed: `"aaa".split("aa")` yields `""` and `"a"`, so a
   * string ending in a self-overlapping pattern can have a non-empty last piece.
   */
  lemma OverlappingPatternLastPiece()
    ensures Split("aaa", "aa") == ["", "a"]
    ensures !NoSelfOverlap("aa")
  {
    assert FindFrom("aaa", "aa", 0) == Some(0);
    assert FindFrom("aaa", "aa", 2) == None;
    assert "aa"[1..] == "aa"[..1];
  }

  /**
   * A pattern with a character `pat[k]` found nowhere else in the pattern, and
   * in neither `pre` nor `post`, splits `pre + pat + post` into `pre` and `post`.
   */
  lemma SplitAtUniqueAnchor(pre: string, pat: string, post: string, k: nat)
    requires k < |pat|
    requires forall i :: 0 <= i < |pat| && i != k ==> pat[i] != pat[k]
    requires pat[k] !in pre && pat[k] !in post
    ensures Split(pre + pat + post, pat) == [pre, post]
  {
    var s := pre + pat + post;
    var n := |pre| + |pat|;
    assert s[|pre|..n] == pat;
    forall j | 0 <= j && j != |pre|
      ensures !OccursAt(s, pat, j)
    {
      if j + |pat| > |s| {
      } else if j + k < |pre| {
        assert s[j + k] == pre[j + k];
      } else if j + k < n {
        assert s[j + k] == pat[j + k - |pre|];
      } else {
        assert s[j + k] == post[j + k - n];
      }
      if j + |pat| <= |s| {
        assert s[j..j + |pat|][k] == s[j + k];
      }
    }
    FindFromLeftmost(s, pat, 0, |pre|);
    FindFromAbsent(s, pat, n);
    assert s[0..|pre|] == pre && s[n..] == post;
    assert SplitFrom(s, pat, n) == [post];
    assert SplitFrom(s, pat, 0) == [pre] + [post];
  }
}
