/**
 * The version-shaped tokens that the Yarn, requirements.txt and Pipfile.lock
 * extractors search for with regular expressions. Each search is written out
 * as the scan a backtracking matcher performs: the leftmost start wins, and
 * greedy repetitions take the longest run.
 */
module Patterns {
  import opened Strings
  import opened Model

  /** The end of the maximal run of digits starting at `i` (`i` itself when `s[i]` is not a digit). */
  function DigitRunEnd(s: string, i: nat): (j: nat)
    requires i <= |s|
    ensures i <= j <= |s|
    ensures forall k :: i <= k < j ==> IsDigit(s[k])
    ensures j < |s| ==> !IsDigit(s[j])
    decreases |s| - i
  {
    if i < |s| && IsDigit(s[i]) then DigitRunEnd(s, i + 1) else i
  }

  /** `\d+\.\d+` matches at `i`; the function gives the end of the second digit run, or -1. */
  function PairEnd(s: string, i: nat): (r: int)
    requires i <= |s|
    ensures r == -1 || i < r <= |s|
  {
    if i < |s| && IsDigit(s[i]) then
      var a := DigitRunEnd(s, i);
      if a + 1 < |s| && s[a] == '.' && IsDigit(s[a + 1]) then DigitRunEnd(s, a + 1) else -1
    else -1
  }

  /** `\d+\.\d+` matches at `i`. */
  predicate PairAt(s: string, i: nat)
    requires i <= |s|
  {
    PairEnd(s, i) >= 0
  }

  /** `\d+\.\d+\.\d+` matches at `i`. */
  predicate TripleAt(s: string, i: nat)
    requires i <= |s|
  {
    var b := PairEnd(s, i);
    b >= 0 && b + 1 < |s| && s[b] == '.' && IsDigit(s[b + 1])
  }

  /** The leftmost `k >= from` where `TripleAt` holds, or -1. */
  function FirstTriple(s: string, from: nat): (r: int)
    requires from <= |s|
    ensures r == -1 || (from <= r <= |s| && TripleAt(s, r))
    ensures r == -1 ==> forall k :: from <= k <= |s| ==> !TripleAt(s, k)
    ensures r >= 0 ==> forall k :: from <= k < r ==> !TripleAt(s, k)
    decreases |s| - from
  {
    if TripleAt(s, from) then from
    else if from == |s| then -1
    else FirstTriple(s, from + 1)
  }

  /** The leftmost `k >= from` where `PairAt` holds, or -1. */
  function FirstPair(s: string, from: nat): (r: int)
    requires from <= |s|
    ensures r == -1 || (from <= r <= |s| && PairAt(s, r))
    ensures r == -1 ==> forall k :: from <= k <= |s| ==> !PairAt(s, k)
    ensures r >= 0 ==> forall k :: from <= k < r ==> !PairAt(s, k)
    decreases |s| - from
  {
    if PairAt(s, from) then from
    else if from == |s| then -1
    else FirstPair(s, from + 1)
  }

  /** A character that `[^\s]` (or `[^\s,]` when `comma`) refuses. */
  predicate IsStop(c: char, comma: bool)
  {
    IsWhitespace(c) || (comma && c == ',')
  }

  /** The end of the maximal run of non-stop characters starting at `i`. */
  function StopRunEnd(s: string, i: nat, comma: bool): (j: nat)
    requires i <= |s|
    ensures i <= j <= |s|
    ensures forall k :: i <= k < j ==> !IsStop(s[k], comma)
    ensures j < |s| ==> IsStop(s[j], comma)
    decreases |s| - i
  {
    if i < |s| && !IsStop(s[i], comma) then StopRunEnd(s, i + 1, comma) else i
  }

  /** Characters of `[a-zA-Z0-9.-]`. */
  predicate IsVersionChar(c: char)
  {
    IsAsciiLetter(c) || IsDigit(c) || c == '.' || c == '-'
  }

  /** The end of the maximal run of `[a-zA-Z0-9.-]` starting at `i`. */
  function VersionRunEnd(s: string, i: nat): (j: nat)
    requires i <= |s|
    ensures i <= j <= |s|
    ensures forall k :: i <= k < j ==> IsVersionChar(s[k])
    ensures j < |s| ==> !IsVersionChar(s[j])
    decreases |s| - i
  {
    if i < |s| && IsVersionChar(s[i]) then VersionRunEnd(s, i + 1) else i
  }

  /**
   * The first match of `\d+\.\d+\.\d+[^\s]*` (or `[^\s,]*` when `comma`):
   * from the leftmost place where three dot-separated digit runs start, up to
   * the first stop character.
   */
  function TripleMatch(s: string, comma: bool): (r: Option<string>)
    ensures r.Some? ==> r.value != ""
  {
    var i := FirstTriple(s, 0);
    if i < 0 then None
    else
      TripleReachesStop(s, i, comma);
      Some(s[i..StopRunEnd(s, i, comma)])
  }

  /**
   * The first match of `\d+\.\d+(?:\.\d+)?(?:[a-zA-Z0-9.-]*)?`: from the
   * leftmost place where two dot-separated digit runs start, up to the end of
   * the run of `[a-zA-Z0-9.-]` (every greedy part takes such characters only).
   */
  function PairMatch(s: string): (r: Option<string>)
    ensures r.Some? ==> r.value != ""
  {
    var i := FirstPair(s, 0);
    if i < 0 then None
    else
      VersionRunCovers(s, i, PairEnd(s, i));
      Some(s[i..VersionRunEnd(s, i)])
  }

  /** A triple is a pair followed by `.` and a digit. */
  lemma TripleIsPair(s: string, i: nat)
    requires i <= |s| && TripleAt(s, i)
    ensures PairAt(s, i)
  {
  }

  /**
   * The triple match is a token that starts at the leftmost triple, runs to
   * the first stop character (or the end), and holds no stop character; there
   * is none exactly when no triple occurs anywhere.
   */
  lemma TripleMatchSpec(s: string, comma: bool)
    ensures TripleMatch(s, comma).None? <==> forall k :: 0 <= k <= |s| ==> !TripleAt(s, k)
    ensures TripleMatch(s, comma).Some? ==> exists i :: TripleMatchedAt(s, comma, i, TripleMatch(s, comma).value)
  {
    if TripleMatch(s, comma).Some? {
      var i := FirstTriple(s, 0);
      var j := StopRunEnd(s, i, comma);
      TripleReachesStop(s, i, comma);
      TripleSlice(s, i, j);
      assert TripleMatchedAt(s, comma, i, s[i..j]);
    }
  }

  /** The stop run from a triple start covers the whole triple. */
  lemma TripleReachesStop(s: string, i: nat, comma: bool)
    requires i <= |s| && TripleAt(s, i)
    ensures PairEnd(s, i) + 2 <= StopRunEnd(s, i, comma)
  {
    var a := DigitRunEnd(s, i);
    StopRunCovers(s, i, comma, PairEnd(s, i) + 2);
  }

  /** A triple stays a triple in a slice that keeps it whole. */
  lemma TripleSlice(s: string, i: nat, j: nat)
    requires i <= |s| && TripleAt(s, i) && PairEnd(s, i) + 2 <= j <= |s|
    ensures TripleAt(s[i..j], 0)
  {
    var a := DigitRunEnd(s, i);
    DigitRunSlice(s, i, j, i);
    DigitRunSlice(s, i, j, a + 1);
  }

  /** `m` is the token the triple pattern matches at the leftmost triple start `i` of `s`. */
  ghost predicate TripleMatchedAt(s: string, comma: bool, i: nat, m: string)
  {
    i + |m| <= |s| && m == s[i..i + |m|]
    && TripleAt(s, i) && (forall k :: 0 <= k < i ==> !TripleAt(s, k))
    && TripleAt(m, 0) && (forall k :: 0 <= k < |m| ==> !IsStop(m[k], comma))
    && (i + |m| == |s| || IsStop(s[i + |m|], comma))
  }

  /**
   * The fallback match is a token that starts at the leftmost pair of digit
   * runs, takes the whole run of `[a-zA-Z0-9.-]` from there, and ends before a
   * character outside that class (or at the end); there is none exactly when
   * no pair occurs anywhere.
   */
  lemma PairMatchSpec(s: string)
    ensures PairMatch(s).None? <==> forall k :: 0 <= k <= |s| ==> !PairAt(s, k)
    ensures PairMatch(s).Some? ==> exists i :: PairMatchedAt(s, i, PairMatch(s).value)
  {
    if PairMatch(s).Some? {
      var i := FirstPair(s, 0);
      var j := VersionRunEnd(s, i);
      VersionRunCovers(s, i, PairEnd(s, i));
      PairSlice(s, i, j);
      assert PairMatchedAt(s, i, s[i..j]);
    }
  }

  /** `m` is the token the fallback pattern matches at the leftmost pair start `i` of `s`. */
  ghost predicate PairMatchedAt(s: string, i: nat, m: string)
  {
    i + |m| <= |s| && m == s[i..i + |m|]
    && PairAt(s, i) && (forall k :: 0 <= k < i ==> !PairAt(s, k))
    && PairAt(m, 0) && (forall k :: 0 <= k < |m| ==> IsVersionChar(m[k]))
    && (i + |m| == |s| || !IsVersionChar(s[i + |m|]))
  }

  /** The version-character run from `i` reaches past every position before the first other character. */
  lemma VersionRunCovers(s: string, i: nat, n: nat)
    requires i <= n <= |s|
    requires forall k :: i <= k < n ==> IsVersionChar(s[k])
    ensures n <= VersionRunEnd(s, i)
    decreases |s| - i
  {
    if i < n {
      VersionRunCovers(s, i + 1, n);
    }
  }

  /** A pair stays a pair in a slice that keeps it whole. */
  lemma PairSlice(s: string, i: nat, j: nat)
    requires i <= |s| && PairAt(s, i) && PairEnd(s, i) <= j <= |s|
    ensures PairAt(s[i..j], 0)
  {
    var a := DigitRunEnd(s, i);
    if j == PairEnd(s, i) {
      PairSliceAtEnd(s, i, j);
    } else {
      DigitRunSlice(s, i, j, i);
      DigitRunSlice(s, i, j, a + 1);
    }
  }

  /** Slicing exactly at the end of the second digit run keeps the pair. */
  lemma PairSliceAtEnd(s: string, i: nat, j: nat)
    requires i <= |s| && PairAt(s, i) && j == PairEnd(s, i)
    ensures PairAt(s[i..j], 0)
  {
    var a := DigitRunEnd(s, i);
    DigitRunSlice(s, i, j, i);
    DigitRunSliceToEnd(s, i, j, a + 1);
  }

  /** A digit run that ends exactly at the slice end reaches the end of the slice. */
  lemma DigitRunSliceToEnd(s: string, start: nat, j: nat, i: nat)
    requires start <= i <= j <= |s| && DigitRunEnd(s, i) == j
    ensures DigitRunEnd(s[start..j], i - start) == j - start
    decreases j - i
  {
    if i < j {
      DigitRunSliceToEnd(s, start, j, i + 1);
    }
  }

  /** A stop run from `i` reaches past every position before the first stop. */
  lemma StopRunCovers(s: string, i: nat, comma: bool, n: nat)
    requires i <= n <= |s|
    requires forall k :: i <= k < n ==> !IsStop(s[k], comma)
    ensures n <= StopRunEnd(s, i, comma)
    decreases |s| - i
  {
    if i < n {
      StopRunCovers(s, i + 1, comma, n);
    }
  }

  /** A digit run reads the same in a slice that keeps its end. */
  lemma DigitRunSlice(s: string, start: nat, j: nat, i: nat)
    requires start <= i <= |s| && DigitRunEnd(s, i) < j <= |s|
    ensures DigitRunEnd(s[start..j], i - start) == DigitRunEnd(s, i) - start
    decreases |s| - i
  {
    if i < |s| && IsDigit(s[i]) {
      DigitRunSlice(s, start, j, i + 1);
    }
  }
  /** A digit run read after a prefix ends at the same place, shifted. */
  lemma DigitRunShift(p: string, v: string, i: nat)
    requires i <= |v|
    ensures DigitRunEnd(p + v, |p| + i) == |p| + DigitRunEnd(v, i)
    decreases |v| - i
  {
    if i < |v| {
      assert (p + v)[|p| + i] == v[i];
      if IsDigit(v[i]) {
        DigitRunShift(p, v, i + 1);
      }
    }
  }

  /** A triple at the start of `v` is a triple right after any prefix. */
  lemma TripleShift(p: string, v: string)
    requires TripleAt(v, 0)
    ensures TripleAt(p + v, |p|) && PairEnd(p + v, |p|) == |p| + PairEnd(v, 0)
  {
    var a := DigitRunEnd(v, 0);
    DigitRunShift(p, v, 0);
    DigitRunShift(p, v, a + 1);
    assert (p + v)[|p|] == v[0];
    assert (p + v)[|p| + a] == v[a] && (p + v)[|p| + a + 1] == v[a + 1];
    var b := PairEnd(v, 0);
    assert (p + v)[|p| + b] == v[b] && (p + v)[|p| + b + 1] == v[b + 1];
  }

  /**
   * A token that is a three-part version with no stop character, after a
   * prefix holding no digit and before a stop character (or the end), is
   * what the triple search returns.
   */
  lemma TripleAfterPrefix(p: string, v: string, q: string, comma: bool)
    requires TripleAt(v, 0) && (forall k :: 0 <= k < |v| ==> !IsStop(v[k], comma))
    requires forall k :: 0 <= k < |p| ==> !IsDigit(p[k])
    requires q == [] || IsStop(q[0], comma)
    ensures TripleMatch(p + v + q, comma) == Some(v)
  {
    var w := v + q;
    var s := p + w;
    assert p + v + q == s;
    TripleExtend(v, q);
    TripleFirstAfterPrefix(p, w);
    forall k | |p| <= k < |p| + |v|
      ensures !IsStop(s[k], comma)
    {
      assert s[k] == v[k - |p|];
    }
    assert |p| + |v| < |s| ==> s[|p| + |v|] == q[0];
    StopRunAt(s, |p|, |p| + |v|, comma);
    assert s[|p|..|p| + |v|] == v;
  }

  /** A triple at the start survives appending anything. */
  lemma TripleExtend(v: string, q: string)
    requires TripleAt(v, 0)
    ensures TripleAt(v + q, 0)
  {
    var a := DigitRunEnd(v, 0);
    DigitRunExtend(v, q, 0);
    DigitRunExtend(v, q, a + 1);
    var b := PairEnd(v, 0);
    assert (v + q)[a] == v[a] && (v + q)[a + 1] == v[a + 1];
    assert (v + q)[b] == v[b] && (v + q)[b + 1] == v[b + 1];
  }

  /** A digit run that ends inside `v` ends at the same place when more text follows. */
  lemma DigitRunExtend(v: string, q: string, i: nat)
    requires i <= |v| && DigitRunEnd(v, i) < |v|
    ensures DigitRunEnd(v + q, i) == DigitRunEnd(v, i)
    decreases |v| - i
  {
    assert (v + q)[i] == v[i];
    if IsDigit(v[i]) {
      DigitRunExtend(v, q, i + 1);
    }
  }

  /** After a prefix holding no digit, the leftmost triple is the one that starts right after it. */
  lemma TripleFirstAfterPrefix(p: string, w: string)
    requires TripleAt(w, 0) && forall k :: 0 <= k < |p| ==> !IsDigit(p[k])
    ensures FirstTriple(p + w, 0) == |p|
  {
    var s := p + w;
    TripleShift(p, w);
    forall k | 0 <= k < |p|
      ensures !TripleAt(s, k)
    {
      assert s[k] == p[k];
    }
    FirstTripleAt(s, |p|);
  }

  /** The stop run from `i` ends at `e` when no stop lies in between and a stop (or the end) is at `e`. */
  lemma StopRunAt(s: string, i: nat, e: nat, comma: bool)
    requires i <= e <= |s| && (forall k :: i <= k < e ==> !IsStop(s[k], comma))
    requires e == |s| || IsStop(s[e], comma)
    ensures StopRunEnd(s, i, comma) == e
  {
    StopRunCovers(s, i, comma, e);
  }

  /** The search finds `i` when a triple starts there and none starts before it. */
  lemma FirstTripleAt(s: string, i: nat)
    requires i <= |s| && TripleAt(s, i) && forall k :: 0 <= k < i ==> !TripleAt(s, k)
    ensures FirstTriple(s, 0) == i
  {
  }
}
