/**
 * Character classes and string operations of the JavaScript runtime that the
 * lockfile resolvers rely on: `trim`, `split`/`join` on one character,
 * `indexOf`/`lastIndexOf`, `startsWith`/`endsWith`, ASCII case folding and
 * decimal numerals. Strings are sequences of characters.
 */
module Strings {

  /** `\d` in a JavaScript regular expression. */
  predicate IsDigit(c: char) { '0' <= c <= '9' }

  predicate IsAsciiLetter(c: char) { ('a' <= c <= 'z') || ('A' <= c <= 'Z') }

  /** The characters that `.` does not match in a JavaScript regular expression. */
  predicate IsLineTerminator(c: char) {
    c == '\n' || c == '\r' || c == '\U{2028}' || c == '\U{2029}'
  }

  /** `\s` in a JavaScript regular expression, and what `String.prototype.trim` removes. */
  predicate IsWhitespace(c: char) {
    c == '\t' || c == '\n' || c == '\U{000B}' || c == '\U{000C}' || c == '\r' || c == ' '
    || c == '\U{00A0}' || c == '\U{1680}' || ('\U{2000}' <= c <= '\U{200A}')
    || c == '\U{2028}' || c == '\U{2029}' || c == '\U{202F}' || c == '\U{205F}'
    || c == '\U{3000}' || c == '\U{FEFF}'
  }

  predicate AllWhitespace(s: string) { forall i :: 0 <= i < |s| ==> IsWhitespace(s[i]) }

  predicate AllDigits(s: string) { forall i :: 0 <= i < |s| ==> IsDigit(s[i]) }

  /** True when `.` matches every character of `s`. */
  predicate NoLineTerminator(s: string) { forall i :: 0 <= i < |s| ==> !IsLineTerminator(s[i]) }

  predicate StartsWith(s: string, prefix: string) { prefix <= s }

  predicate EndsWith(s: string, suffix: string) {
    |suffix| <= |s| && s[|s| - |suffix|..] == suffix
  }

  /** A concatenation starts with its first part and ends with its second. */
  lemma ConcatEnds(a: string, b: string)
    ensures StartsWith(a + b, a) && EndsWith(a + b, b)
  {
    assert (a + b)[|a|..] == b;
  }

  // ---------------------------------------------------------------------------
  // trim

  /** Length of the leading whitespace run. */
  function LeadingWhitespace(s: string): (n: nat)
    ensures n <= |s|
    ensures AllWhitespace(s[..n])
    ensures n < |s| ==> !IsWhitespace(s[n])
  {
    if |s| == 0 || !IsWhitespace(s[0]) then 0
    else
      var k := LeadingWhitespace(s[1..]);
      assert s[..k + 1] == [s[0]] + s[1..][..k];
      1 + k
  }

  /** Start of the whitespace run that ends at `j`. */
  function WhitespaceRunStart(s: string, j: nat): (r: nat)
    requires j <= |s|
    ensures r <= j
    ensures forall k :: r <= k < j ==> IsWhitespace(s[k])
    ensures r > 0 ==> !IsWhitespace(s[r - 1])
  {
    if j > 0 && IsWhitespace(s[j - 1]) then WhitespaceRunStart(s, j - 1) else j
  }

  /** Length of the trailing whitespace run. */
  function TrailingWhitespace(s: string): (n: nat)
    ensures n <= |s|
    ensures AllWhitespace(s[|s| - n..])
    ensures n < |s| ==> !IsWhitespace(s[|s| - n - 1])
  {
    |s| - WhitespaceRunStart(s, |s|)
  }

  /** The end of the maximal whitespace run (`\s*`) starting at `i`. */
  function WhitespaceRunEnd(s: string, i: nat): (j: nat)
    requires i <= |s|
    ensures i <= j <= |s|
    ensures forall k :: i <= k < j ==> IsWhitespace(s[k])
    ensures j < |s| ==> !IsWhitespace(s[j])
    decreases |s| - i
  {
    if i < |s| && IsWhitespace(s[i]) then WhitespaceRunEnd(s, i + 1) else i
  }

  /** A character other than whitespace survives trimming. */
  lemma TrimKeeps(s: string, k: nat)
    requires k < |s| && !IsWhitespace(s[k])
    ensures s[k] in Trim(s)
  {
    var a := LeadingWhitespace(s);
    var r := Trim(s);
    forall i | 0 <= i < a
      ensures IsWhitespace(s[i])
    {
      assert s[..a][i] == s[i];
    }
    forall i | a + |r| <= i < |s|
      ensures IsWhitespace(s[i])
    {
      assert s[a + |r|..][i - a - |r|] == s[i];
    }
    assert r[k - a] == s[k];
  }

  /** `String.prototype.trim`: the slice of `s` between its leading and trailing whitespace. */
  function Trim(s: string): (r: string)
    ensures LeadingWhitespace(s) + |r| <= |s|
    ensures r == s[LeadingWhitespace(s)..LeadingWhitespace(s) + |r|]
    ensures AllWhitespace(s[LeadingWhitespace(s) + |r|..])
    ensures r != [] ==> !IsWhitespace(r[0]) && !IsWhitespace(r[|r| - 1])
    ensures r == [] <==> AllWhitespace(s)
  {
    var a := LeadingWhitespace(s);
    var t := s[a..];
    var b := TrailingWhitespace(t);
    TrimSlice(s, a, b);
    TrimEmpty(s, a, b);
    t[..|t| - b]
  }

  /** The slice between the two whitespace runs: where it sits, what follows it, how it starts and ends. */
  lemma TrimSlice(s: string, a: nat, b: nat)
    requires a == LeadingWhitespace(s) && b == TrailingWhitespace(s[a..])
    ensures var r := s[a..][..|s| - a - b];
      a + |r| <= |s| && r == s[a..a + |r|] && AllWhitespace(s[a + |r|..])
      && (r != [] ==> !IsWhitespace(r[0]) && !IsWhitespace(r[|r| - 1]))
  {
    var t := s[a..];
    assert s[a + (|t| - b)..] == t[|t| - b..];
  }

  /** The slice between the two whitespace runs is empty exactly when the string is all whitespace. */
  lemma TrimEmpty(s: string, a: nat, b: nat)
    requires a == LeadingWhitespace(s) && b == TrailingWhitespace(s[a..])
    ensures s[a..][..|s| - a - b] == [] <==> AllWhitespace(s)
  {
    if a < |s| {
      var t := s[a..];
      assert t[0] == s[a];
      assert !IsWhitespace(s[a]);
    } else {
      forall i | 0 <= i < |s|
        ensures IsWhitespace(s[i])
      {
        assert s[..a][i] == s[i];
      }
    }
  }

  /** A string that neither starts nor ends with whitespace is its own trim. */
  lemma TrimUnchanged(s: string)
    requires s != [] && !IsWhitespace(s[0]) && !IsWhitespace(s[|s| - 1])
    ensures Trim(s) == s
  {
    assert s[0] == s[LeadingWhitespace(s)..][0];
  }

  // ---------------------------------------------------------------------------
  // indexOf / lastIndexOf

  /** `s.indexOf(c)`: the first position of `c`, or -1. */
  function IndexOf(s: string, c: char): (r: int)
    ensures -1 <= r < |s|
    ensures r == -1 <==> c !in s
    ensures r >= 0 ==> s[r] == c && c !in s[..r]
  {
    if |s| == 0 then -1
    else if s[0] == c then 0
    else
      var k := IndexOf(s[1..], c);
      assert s == [s[0]] + s[1..];
      if k == -1 then -1
      else
        assert s[..k + 1] == [s[0]] + s[1..][..k];
        k + 1
  }

  /** The first `c` of a string is the one right after a prefix without `c`. */
  lemma IndexOfAfter(head: string, c: char, rest: string)
    requires c !in head
    ensures IndexOf(head + [c] + rest, c) == |head|
  {
    var s := head + [c] + rest;
    assert s[|head|] == c && s[..|head|] == head;
  }

  /** `s.lastIndexOf(c)`: the last position of `c`, or -1. */
  function LastIndexOf(s: string, c: char): (r: int)
    ensures -1 <= r < |s|
    ensures r == -1 <==> c !in s
    ensures r >= 0 ==> s[r] == c && c !in s[r + 1..]
  {
    if |s| == 0 then -1
    else if s[|s| - 1] == c then |s| - 1
    else
      assert s == s[..|s| - 1] + [s[|s| - 1]];
      var k := LastIndexOf(s[..|s| - 1], c);
      assert k >= 0 ==> s[k + 1..] == s[..|s| - 1][k + 1..] + [s[|s| - 1]];
      k
  }

  /** `t` occurs in `s` at position `k`. */
  predicate OccursAt(s: string, t: string, k: nat) {
    k + |t| <= |s| && s[k..k + |t|] == t
  }

  /** Position of the first occurrence of the non-empty string `t` in `s` at or after `from`, or -1. */
  function IndexOfString(s: string, t: string, from: nat): (r: int)
    requires |t| > 0
    ensures r == -1 || (from <= r && OccursAt(s, t, r))
    ensures r == -1 ==> forall k: nat :: from <= k ==> !OccursAt(s, t, k)
    ensures r >= 0 ==> forall k: nat :: from <= k < r ==> !OccursAt(s, t, k)
    decreases |s| - from
  {
    if from + |t| > |s| then -1
    else if OccursAt(s, t, from) then from
    else IndexOfString(s, t, from + 1)
  }

  // ---------------------------------------------------------------------------
  // split / join on one character

  /** `s.split(sep)` for a one-character separator. */
  function Split(s: string, sep: char): (parts: seq<string>)
    ensures |parts| >= 1
    ensures forall i :: 0 <= i < |parts| ==> sep !in parts[i]
    decreases |s|
  {
    var i := IndexOf(s, sep);
    if i < 0 then [s] else [s[..i]] + Split(s[i + 1..], sep)
  }

  /** `parts.join(sep)` for a one-character separator. */
  function Join(parts: seq<string>, sep: char): string
  {
    if |parts| == 0 then ""
    else if |parts| == 1 then parts[0]
    else parts[0] + [sep] + Join(parts[1..], sep)
  }

  /** `split` yields a single part exactly when the separator does not occur. */
  lemma SplitSingle(s: string, sep: char)
    ensures |Split(s, sep)| == 1 <==> sep !in s
  {
  }

  /** Splitting at the first separator peels off the text before it. */
  lemma SplitCons(a: string, sep: char, b: string)
    requires sep !in a
    ensures Split(a + [sep] + b, sep) == [a] + Split(b, sep)
  {
    var s := a + [sep] + b;
    var i := IndexOf(s, sep);
    assert s[|a|] == sep;
    assert s[..|a|] == a;
    assert i == |a|;
    assert s[..i] == a && s[i + 1..] == b;
  }

  /** Joining what `Split` produced gives back the original string. */
  lemma {:induction false} JoinSplit(s: string, sep: char)
    ensures Join(Split(s, sep), sep) == s
    decreases |s|
  {
    var i := IndexOf(s, sep);
    if i >= 0 {
      var rest := Split(s[i + 1..], sep);
      JoinSplit(s[i + 1..], sep);
      Around(s, i);
      calc {
        Join(Split(s, sep), sep);
        { assert Split(s, sep) == [s[..i]] + rest; }
        Join([s[..i]] + rest, sep);
        { JoinCons(s[..i], rest, sep); }
        s[..i] + [sep] + Join(rest, sep);
        s[..i] + [sep] + s[i + 1..];
      }
    }
  }

  /** A string is the text before a position, the character there, and the text after it. */
  lemma Around(s: string, i: nat)
    requires i < |s|
    ensures s == s[..i] + [s[i]] + s[i + 1..]
  {
    assert s[..i] + [s[i]] == s[..i + 1];
  }

  /** Joining a part in front of a non-empty list puts one separator after it. */
  lemma JoinCons(x: string, rest: seq<string>, sep: char)
    requires |rest| >= 1
    ensures Join([x] + rest, sep) == x + [sep] + Join(rest, sep)
  {
    assert ([x] + rest)[1..] == rest;
  }

  /** Splitting a join of separator-free parts gives back the parts. */
  lemma {:induction false} SplitJoin(parts: seq<string>, sep: char)
    requires |parts| >= 1
    requires forall i :: 0 <= i < |parts| ==> sep !in parts[i]
    ensures Split(Join(parts, sep), sep) == parts
  {
    if |parts| == 1 {
      assert IndexOf(parts[0], sep) == -1;
    } else {
      SplitJoin(parts[1..], sep);
      SplitCons(parts[0], sep, Join(parts[1..], sep));
      assert parts == [parts[0]] + parts[1..];
    }
  }

  /** Joining a concatenation of two non-empty part lists puts one separator between their joins. */
  lemma {:induction false} JoinAppend(a: seq<string>, b: seq<string>, sep: char)
    requires |a| >= 1 && |b| >= 1
    ensures Join(a + b, sep) == Join(a, sep) + [sep] + Join(b, sep)
  {
    if |a| == 1 {
      assert (a + b)[1..] == b;
    } else {
      JoinAppend(a[1..], b, sep);
      assert (a + b)[1..] == a[1..] + b;
    }
  }

  // ---------------------------------------------------------------------------
  // searching a sequence of strings

  /** `parts.indexOf(x)`: the first index of `x`, or -1. */
  function SeqIndexOf(parts: seq<string>, x: string): (r: int)
    ensures -1 <= r < |parts|
    ensures r == -1 <==> x !in parts
    ensures r >= 0 ==> parts[r] == x && x !in parts[..r]
  {
    if |parts| == 0 then -1
    else if parts[0] == x then 0
    else
      var k := SeqIndexOf(parts[1..], x);
      assert parts == [parts[0]] + parts[1..];
      if k == -1 then -1
      else
        assert parts[..k + 1] == [parts[0]] + parts[1..][..k];
        k + 1
  }

  // ---------------------------------------------------------------------------
  // file names

  /** `filename.split("/").pop()`: the text after the last `/` (all of `s` when it has none). */
  function LastSegment(s: string): (r: string)
    ensures '/' !in r
    ensures EndsWith(s, r)
    ensures |r| < |s| ==> s[|s| - |r| - 1] == '/'
  {
    s[LastIndexOf(s, '/') + 1..]
  }

  /** The last occurrence of `c` is at `k` when `c` sits at `k` and nowhere after it. */
  lemma {:induction false} LastIndexOfAt(s: string, k: nat, c: char)
    requires k < |s| && s[k] == c && c !in s[k + 1..]
    ensures LastIndexOf(s, c) == k
    decreases |s|
  {
    if k < |s| - 1 {
      var init := s[..|s| - 1];
      assert s[|s| - 1] == s[k + 1..][|s| - k - 2];
      assert init[k + 1..] == s[k + 1..][..|s| - k - 2];
      LastIndexOfAt(init, k, c);
    }
  }

  /** The last segment is a slash-free `name` exactly when the path is `name` or ends with `/name`. */
  lemma LastSegmentIs(s: string, name: string)
    requires '/' !in name
    ensures LastSegment(s) == name <==> s == name || EndsWith(s, "/" + name)
  {
    if EndsWith(s, "/" + name) {
      var k := |s| - |name| - 1;
      assert s[k] == ("/" + name)[0];
      assert s[k + 1..] == name;
      assert forall i :: k < i < |s| ==> s[i] != '/' by {
        forall i | k < i < |s| ensures s[i] != '/' {
          assert s[i] == s[k + 1..][i - k - 1];
        }
      }
      LastIndexOfAt(s, k, '/');
    }
    if LastSegment(s) == name && s != name {
      var k := |s| - |name| - 1;
      assert s[k..] == [s[k]] + s[k + 1..];
    }
  }

  /** `filename.split("/").pop() || filename`: the last segment, or the whole name when that is empty. */
  function PopOrSelf(s: string): string
  {
    if LastSegment(s) == "" then s else LastSegment(s)
  }

  /**
   * The test `basename === name || basename.endsWith("/" + name)` on
   * `PopOrSelf` holds exactly when the last segment is `name`.
   */
  lemma PopOrSelfIs(s: string, name: string)
    requires name != "" && '/' !in name
    ensures (PopOrSelf(s) == name || EndsWith(PopOrSelf(s), "/" + name)) <==> LastSegment(s) == name
  {
    var last := LastSegment(s);
    if last == "" && |s| > 0 {
      assert s[|s| - 1] == '/';
      assert ("/" + name)[|name|] == name[|name| - 1] != '/';
    }
    assert ("/" + name)[0] == '/';
  }

  /** Length of `s` without its trailing `/` characters. */
  function WithoutTrailingSlashes(s: string): (r: string)
    ensures r <= s
    ensures r == [] || r[|r| - 1] != '/'
    ensures forall i :: |r| <= i < |s| ==> s[i] == '/'
  {
    if |s| == 0 || s[|s| - 1] != '/' then s
    else WithoutTrailingSlashes(s[..|s| - 1])
  }

  /** `path.basename` on POSIX: the last segment after trailing slashes are removed. */
  function PathBasename(s: string): (r: string)
    ensures '/' !in r
  {
    LastSegment(WithoutTrailingSlashes(s))
  }

  // ---------------------------------------------------------------------------
  // ASCII case folding

  function ToLowerChar(c: char): char {
    if 'A' <= c <= 'Z' then (c as int - 'A' as int + 'a' as int) as char else c
  }

  function ToLower(s: string): (r: string)
    ensures |r| == |s|
    ensures forall i :: 0 <= i < |s| ==> r[i] == ToLowerChar(s[i])
  {
    if |s| == 0 then "" else [ToLowerChar(s[0])] + ToLower(s[1..])
  }

  /**
   * The JavaScript test `/(^|\/)NAME$/i`: `s` ends with `name` up to ASCII case,
   * and that ending is either all of `s` or preceded by `/`. `name` is lower case.
   */
  predicate EndsWithFileNameIgnoringCase(s: string, name: string) {
    |name| <= |s| && ToLower(s[|s| - |name|..]) == name
    && (|s| == |name| || s[|s| - |name| - 1] == '/')
  }

  /** Lower-casing keeps `/` and makes no other `/`. */
  lemma ToLowerSlashFree(s: string)
    ensures '/' in ToLower(s) <==> '/' in s
  {
    if '/' in ToLower(s) {
      var i :| 0 <= i < |s| && ToLower(s)[i] == '/';
      assert s[i] == '/';
    }
    if '/' in s {
      var i :| 0 <= i < |s| && s[i] == '/';
      assert ToLower(s)[i] == '/';
    }
  }

  /** The case-blind file-name test holds exactly when the last segment lower-cases to `name`. */
  lemma EndsWithFileNameMeaning(s: string, name: string)
    requires '/' !in name
    ensures EndsWithFileNameIgnoringCase(s, name) <==> ToLower(LastSegment(s)) == name
  {
    if EndsWithFileNameIgnoringCase(s, name) {
      var tail := s[|s| - |name|..];
      ToLowerSlashFree(tail);
      if |s| == |name| {
        assert tail == s;
      } else {
        assert s[|s| - |name| - 1..] == "/" + tail;
      }
      LastSegmentIs(s, tail);
    }
    if ToLower(LastSegment(s)) == name {
      var tail := LastSegment(s);
      assert s[|s| - |tail|..] == tail;
    }
  }

  // ---------------------------------------------------------------------------
  // decimal numerals

  function DigitValue(c: char): nat
    requires IsDigit(c)
  {
    c as int - '0' as int
  }

  function DigitChar(d: nat): (c: char)
    requires d < 10
    ensures IsDigit(c) && DigitValue(c) == d
  {
    ('0' as int + d) as char
  }

  /** The value of a string of decimal digits (`Number` on such a string). */
  function DigitsValue(s: string): nat
    requires AllDigits(s)
  {
    if |s| == 0 then 0 else 10 * DigitsValue(s[..|s| - 1]) + DigitValue(s[|s| - 1])
  }

  /** The canonical decimal numeral of `n`. */
  function NatToString(n: nat): (r: string)
    ensures |r| >= 1 && AllDigits(r)
    ensures |r| == 1 || r[0] != '0'
  {
    if n < 10 then [DigitChar(n)] else NatToString(n / 10) + [DigitChar(n % 10)]
  }

  /** `n` as JavaScript writes an integer as text. */
  function IntToString(n: int): string
  {
    if n < 0 then "-" + NatToString(-n) else NatToString(n)
  }

  /** A numeral with no superfluous leading zero. */
  predicate IsCanonicalNumeral(s: string) {
    |s| >= 1 && AllDigits(s) && (|s| == 1 || s[0] != '0')
  }

  lemma {:induction false} DigitsValueOfNatToString(n: nat)
    ensures DigitsValue(NatToString(n)) == n
  {
    if n >= 10 {
      DigitsValueOfNatToString(n / 10);
      var r := NatToString(n);
      assert r[..|r| - 1] == NatToString(n / 10);
    }
  }

  lemma {:induction false} LeadingDigitPositive(s: string)
    requires |s| >= 1 && AllDigits(s) && s[0] != '0'
    ensures DigitsValue(s) >= 1
    decreases |s|
  {
    if |s| > 1 {
      LeadingDigitPositive(s[..|s| - 1]);
    }
  }

  /** Printing the value of a canonical numeral gives the numeral back. */
  lemma {:induction false} NatToStringOfDigitsValue(s: string)
    requires IsCanonicalNumeral(s)
    ensures NatToString(DigitsValue(s)) == s
    decreases |s|
  {
    if |s| > 1 {
      var p := s[..|s| - 1];
      LeadingDigitPositive(p);
      NatToStringOfDigitsValue(p);
      var v := DigitsValue(s);
      assert v == 10 * DigitsValue(p) + DigitValue(s[|s| - 1]);
      assert v / 10 == DigitsValue(p) && v % 10 == DigitValue(s[|s| - 1]);
      assert DigitChar(v % 10) == s[|s| - 1];
      assert s == p + [s[|s| - 1]];
    } else {
      assert DigitChar(DigitValue(s[0])) == s[0];
    }
  }

  /** Two canonical numerals with the same value are the same string. */
  lemma CanonicalNumeralInjective(a: string, b: string)
    requires IsCanonicalNumeral(a) && IsCanonicalNumeral(b)
    requires DigitsValue(a) == DigitsValue(b)
    ensures a == b
  {
    NatToStringOfDigitsValue(a);
    NatToStringOfDigitsValue(b);
  }
}
