/**
 * Semantic Versioning 2.0.0 as the diff engine consults it: the grammar of a
 * valid version string (sections 2, 9 and 10 of the Semantic Versioning 2.0.0
 * specification) and precedence (section 11), which ignores build metadata.
 */
module SemVer {
  import opened Strings
  import opened Model

  /** A parsed version; `prerelease` and `build` hold the dot-separated identifiers. */
  datatype Version = Version(major: nat, minor: nat, patch: nat, prerelease: seq<string>, build: seq<string>)

  /** Characters allowed in pre-release and build identifiers: `[0-9A-Za-z-]`. */
  predicate IsIdentifierChar(c: char) { IsDigit(c) || IsAsciiLetter(c) || c == '-' }

  predicate AllIdentifierChars(s: string) { forall i :: 0 <= i < |s| ==> IsIdentifierChar(s[i]) }

  /** A pre-release identifier: non-empty, `[0-9A-Za-z-]`, and no leading zero when numeric. */
  predicate IsPrereleaseIdentifier(s: string) {
    |s| >= 1 && AllIdentifierChars(s) && (AllDigits(s) ==> IsCanonicalNumeral(s))
  }

  /** A build identifier: non-empty, `[0-9A-Za-z-]` (leading zeros allowed). */
  predicate IsBuildIdentifier(s: string) {
    |s| >= 1 && AllIdentifierChars(s)
  }

  predicate AllPrereleaseIdentifiers(ids: seq<string>) {
    forall i :: 0 <= i < |ids| ==> IsPrereleaseIdentifier(ids[i])
  }

  predicate AllBuildIdentifiers(ids: seq<string>) {
    forall i :: 0 <= i < |ids| ==> IsBuildIdentifier(ids[i])
  }

  /** A version whose identifiers obey the grammar. */
  predicate WellFormed(v: Version) {
    AllPrereleaseIdentifiers(v.prerelease) && AllBuildIdentifiers(v.build)
  }

  /** The text before the first `c`, and the text after it when there is one. */
  function SplitAtFirst(s: string, c: char): (r: (string, Option<string>))
    ensures c !in r.0
    ensures r.1.None? ==> r.0 == s
    ensures r.1.Some? ==> s == r.0 + [c] + r.1.value
  {
    var i := IndexOf(s, c);
    if i < 0 then (s, None)
    else
      assert s == s[..i] + [c] + s[i + 1..];
      (s[..i], Some(s[i + 1..]))
  }

  /** The identifiers after a separator, none when the separator is absent. */
  function Identifiers(part: Option<string>): seq<string>
  {
    if part.Some? then Split(part.value, '.') else []
  }

  /** The three numerals of `major.minor.patch`. */
  function ParseNumbers(core: string): Option<(nat, nat, nat)>
  {
    var nums := Split(core, '.');
    if |nums| == 3 && IsCanonicalNumeral(nums[0]) && IsCanonicalNumeral(nums[1]) && IsCanonicalNumeral(nums[2])
    then Some((DigitsValue(nums[0]), DigitsValue(nums[1]), DigitsValue(nums[2])))
    else None
  }

  /**
   * Parses `major.minor.patch[-prerelease][+build]`. Build metadata starts at
   * the first `+`; within the rest, the pre-release starts at the first `-`.
   */
  function Parse(s: string): Option<Version>
  {
    var plus := SplitAtFirst(s, '+');
    var dash := SplitAtFirst(plus.0, '-');
    var nums := ParseNumbers(dash.0);
    var pre, build := Identifiers(dash.1), Identifiers(plus.1);
    if nums.Some? && AllPrereleaseIdentifiers(pre) && AllBuildIdentifiers(build)
    then Some(Version(nums.value.0, nums.value.1, nums.value.2, pre, build))
    else None
  }

  /** `valid` of the semver package, without its leniencies. */
  predicate IsValid(s: string) { Parse(s).Some? }

  function FormatNumbers(major: nat, minor: nat, patch: nat): string
  {
    NatToString(major) + "." + NatToString(minor) + "." + NatToString(patch)
  }

  /** The text of an identifier list after its separator, empty when there are none. */
  function FormatIdentifiers(sep: char, ids: seq<string>): string
  {
    if ids == [] then "" else [sep] + Join(ids, '.')
  }

  /** The canonical text of a version. */
  function Format(v: Version): string
  {
    FormatNumbers(v.major, v.minor, v.patch) + FormatIdentifiers('-', v.prerelease) + FormatIdentifiers('+', v.build)
  }

  // ---------------------------------------------------------------------------
  // Round trip between Parse and Format

  lemma {:induction false} JoinOmits(parts: seq<string>, sep: char, c: char)
    requires c != sep
    requires forall i :: 0 <= i < |parts| ==> c !in parts[i]
    ensures c !in Join(parts, sep)
  {
    if |parts| > 1 {
      JoinOmits(parts[1..], sep, c);
    }
  }

  lemma IdentifiersOmit(ids: seq<string>, c: char)
    requires AllBuildIdentifiers(ids)
    requires !IsIdentifierChar(c)
    ensures forall i :: 0 <= i < |ids| ==> c !in ids[i]
  {
  }

  lemma NumeralOmits(n: nat, c: char)
    requires !IsDigit(c)
    ensures c !in NatToString(n)
  {
  }

  lemma JoinThree(nums: seq<string>)
    requires |nums| == 3
    ensures Join(nums, '.') == nums[0] + "." + nums[1] + "." + nums[2]
  {
    assert nums[1..][1..] == [nums[2]];
    assert Join(nums[1..], '.') == nums[1] + ['.'] + nums[2];
  }

  lemma ParseNumbersThenFormat(core: string)
    requires ParseNumbers(core).Some?
    ensures var v := ParseNumbers(core).value; FormatNumbers(v.0, v.1, v.2) == core
  {
    var nums := Split(core, '.');
    JoinSplit(core, '.');
    JoinThree(nums);
    NatToStringOfDigitsValue(nums[0]);
    NatToStringOfDigitsValue(nums[1]);
    NatToStringOfDigitsValue(nums[2]);
  }

  lemma SplitNumbers(a: nat, b: nat, c: nat)
    ensures Split(FormatNumbers(a, b, c), '.') == [NatToString(a), NatToString(b), NatToString(c)]
  {
    var n0, n1, n2 := NatToString(a), NatToString(b), NatToString(c);
    NumeralOmits(a, '.'); NumeralOmits(b, '.'); NumeralOmits(c, '.');
    assert FormatNumbers(a, b, c) == n0 + ['.'] + (n1 + ['.'] + n2);
    SplitCons(n0, '.', n1 + ['.'] + n2);
    SplitCons(n1, '.', n2);
    assert Split(n2, '.') == [n2];
  }

  lemma FormatNumbersThenParse(a: nat, b: nat, c: nat)
    ensures ParseNumbers(FormatNumbers(a, b, c)) == Some((a, b, c))
    ensures '+' !in FormatNumbers(a, b, c) && '-' !in FormatNumbers(a, b, c)
  {
    SplitNumbers(a, b, c);
    NumeralOmits(a, '+'); NumeralOmits(b, '+'); NumeralOmits(c, '+');
    NumeralOmits(a, '-'); NumeralOmits(b, '-'); NumeralOmits(c, '-');
    DigitsValueOfNatToString(a);
    DigitsValueOfNatToString(b);
    DigitsValueOfNatToString(c);
  }

  /** The text after a separator reads back as the identifiers it was built from. */
  lemma SplitAtFirstOfFormat(s: string, head: string, sep: char, ids: seq<string>)
    requires s == head + FormatIdentifiers(sep, ids)
    requires sep !in head
    requires AllBuildIdentifiers(ids)
    ensures SplitAtFirst(s, sep).0 == head
    ensures Identifiers(SplitAtFirst(s, sep).1) == ids
  {
    if ids == [] {
      assert s == head;
    } else {
      var rest := Join(ids, '.');
      assert s == head + [sep] + rest;
      IndexOfAfter(head, sep, rest);
      assert s[..|head|] == head && s[|head| + 1..] == rest;
      IdentifiersOmit(ids, '.');
      SplitJoin(ids, '.');
    }
  }

  /** The text of identifiers read from a separator onward, as `Format` writes it back. */
  lemma IdentifiersThenFormat(sep: char, part: Option<string>)
    ensures part.Some? ==> FormatIdentifiers(sep, Identifiers(part)) == [sep] + part.value
    ensures part.None? ==> FormatIdentifiers(sep, Identifiers(part)) == ""
  {
    if part.Some? {
      JoinSplit(part.value, '.');
    }
  }

  /** What `Parse` returns, component by component. */
  lemma ParseComponents(s: string)
    requires IsValid(s)
    ensures var plus := SplitAtFirst(s, '+');
      var dash := SplitAtFirst(plus.0, '-');
      var nums := ParseNumbers(dash.0).value;
      Parse(s).value == Version(nums.0, nums.1, nums.2, Identifiers(dash.1), Identifiers(plus.1))
  {
  }

  /** Text split at a separator and written back from its identifiers is the text again. */
  lemma Reassemble(s: string, sep: char, head: string)
    requires SplitAtFirst(s, sep).0 == head
    ensures head + FormatIdentifiers(sep, Identifiers(SplitAtFirst(s, sep).1)) == s
  {
    IdentifiersThenFormat(sep, SplitAtFirst(s, sep).1);
  }

  /** Whatever `Parse` accepts is the canonical text of what it returns. */
  lemma ParseThenFormat(s: string)
    requires IsValid(s)
    ensures WellFormed(Parse(s).value)
    ensures Format(Parse(s).value) == s
  {
    var plus := SplitAtFirst(s, '+');
    var dash := SplitAtFirst(plus.0, '-');
    ParseComponents(s);
    ParseNumbersThenFormat(dash.0);
    Reassemble(plus.0, '-', dash.0);
    Reassemble(s, '+', plus.0);
  }

  /** `Parse` returns `v` when the pieces of `s` read back as the parts of `v`. */
  lemma ParseFromPieces(s: string, v: Version)
    requires WellFormed(v)
    requires Identifiers(SplitAtFirst(s, '+').1) == v.build
    requires Identifiers(SplitAtFirst(SplitAtFirst(s, '+').0, '-').1) == v.prerelease
    requires ParseNumbers(SplitAtFirst(SplitAtFirst(s, '+').0, '-').0) == Some((v.major, v.minor, v.patch))
    ensures Parse(s) == Some(v)
  {
  }

  /** No `+` comes before the build metadata of a canonical text. */
  lemma MainOmitsPlus(v: Version)
    requires WellFormed(v)
    ensures '+' !in FormatNumbers(v.major, v.minor, v.patch) + FormatIdentifiers('-', v.prerelease)
  {
    FormatNumbersThenParse(v.major, v.minor, v.patch);
    IdentifiersOmit(v.prerelease, '+');
    JoinOmits(v.prerelease, '.', '+');
  }

  /** `Parse` reads back every well-formed version from its canonical text. */
  lemma FormatThenParse(v: Version)
    requires WellFormed(v)
    ensures Parse(Format(v)) == Some(v)
  {
    var core := FormatNumbers(v.major, v.minor, v.patch);
    var main := core + FormatIdentifiers('-', v.prerelease);
    FormatNumbersThenParse(v.major, v.minor, v.patch);
    MainOmitsPlus(v);
    SplitAtFirstOfFormat(Format(v), main, '+', v.build);
    SplitAtFirstOfFormat(main, core, '-', v.prerelease);
    ParseFromPieces(Format(v), v);
  }

  // ---------------------------------------------------------------------------
  // Precedence (section 11)

  function CompareNat(a: nat, b: nat): int
  {
    if a < b then -1 else if a > b then 1 else 0
  }

  /** Lexical order by character code, as JavaScript's `<` on strings. */
  function CompareLex(a: string, b: string): (r: int)
    ensures r == 0 <==> a == b
    ensures -1 <= r <= 1
  {
    if |a| == 0 && |b| == 0 then 0
    else if |a| == 0 then -1
    else if |b| == 0 then 1
    else if a[0] < b[0] then -1
    else if a[0] > b[0] then 1
    else
      assert a == [a[0]] + a[1..] && b == [b[0]] + b[1..];
      CompareLex(a[1..], b[1..])
  }

  predicate IsNumeric(s: string) { |s| >= 1 && AllDigits(s) }

  /** Numeric identifiers compare numerically and before alphanumeric ones, which compare lexically. */
  function CompareIdentifiers(a: string, b: string): int
  {
    if IsNumeric(a) && IsNumeric(b) then CompareNat(DigitsValue(a), DigitsValue(b))
    else if IsNumeric(a) then -1
    else if IsNumeric(b) then 1
    else CompareLex(a, b)
  }

  /** Identifier lists compare field by field; a proper prefix comes first. */
  function CompareIdentifierLists(p: seq<string>, q: seq<string>): int
  {
    if |p| == 0 && |q| == 0 then 0
    else if |q| == 0 then 1
    else if |p| == 0 then -1
    else if p[0] == q[0] then CompareIdentifierLists(p[1..], q[1..])
    else CompareIdentifiers(p[0], q[0])
  }

  /** A version with a pre-release precedes the same version without one. */
  function ComparePrerelease(p: seq<string>, q: seq<string>): int
  {
    if |p| > 0 && |q| == 0 then -1
    else if |p| == 0 && |q| > 0 then 1
    else if |p| == 0 && |q| == 0 then 0
    else CompareIdentifierLists(p, q)
  }

  /** `compare` of the semver package: -1, 0 or 1 by precedence; build metadata plays no part. */
  function Compare(a: Version, b: Version): int
  {
    if a.major != b.major then CompareNat(a.major, b.major)
    else if a.minor != b.minor then CompareNat(a.minor, b.minor)
    else if a.patch != b.patch then CompareNat(a.patch, b.patch)
    else ComparePrerelease(a.prerelease, b.prerelease)
  }

  /** Two distinct pre-release identifiers never compare equal. */
  lemma CompareIdentifiersZero(a: string, b: string)
    requires IsPrereleaseIdentifier(a) && IsPrereleaseIdentifier(b)
    ensures CompareIdentifiers(a, b) == 0 <==> a == b
  {
    if IsNumeric(a) && IsNumeric(b) && DigitsValue(a) == DigitsValue(b) {
      CanonicalNumeralInjective(a, b);
    }
  }

  lemma {:induction false} CompareIdentifierListsZero(p: seq<string>, q: seq<string>)
    requires AllPrereleaseIdentifiers(p) && AllPrereleaseIdentifiers(q)
    ensures CompareIdentifierLists(p, q) == 0 <==> p == q
  {
    if |p| > 0 && |q| > 0 {
      if p[0] == q[0] {
        CompareIdentifierListsZero(p[1..], q[1..]);
        assert p == [p[0]] + p[1..] && q == [q[0]] + q[1..];
      } else {
        CompareIdentifiersZero(p[0], q[0]);
      }
    }
  }

  /**
   * Equal precedence means equal major, minor, patch and pre-release: only
   * build metadata may differ.
   */
  lemma CompareZeroIff(a: Version, b: Version)
    requires WellFormed(a) && WellFormed(b)
    ensures Compare(a, b) == 0 <==>
      a.major == b.major && a.minor == b.minor && a.patch == b.patch && a.prerelease == b.prerelease
  {
    if a.major == b.major && a.minor == b.minor && a.patch == b.patch && |a.prerelease| > 0 && |b.prerelease| > 0 {
      CompareIdentifierListsZero(a.prerelease, b.prerelease);
    }
  }

  lemma {:induction false} CompareLexAntisymmetric(a: string, b: string)
    ensures CompareLex(a, b) == -CompareLex(b, a)
  {
    if |a| > 0 && |b| > 0 && a[0] == b[0] {
      CompareLexAntisymmetric(a[1..], b[1..]);
    }
  }

  lemma {:induction false} CompareIdentifierListsAntisymmetric(p: seq<string>, q: seq<string>)
    ensures CompareIdentifierLists(p, q) == -CompareIdentifierLists(q, p)
  {
    if |p| > 0 && |q| > 0 {
      if p[0] == q[0] {
        CompareIdentifierListsAntisymmetric(p[1..], q[1..]);
      } else if !IsNumeric(p[0]) && !IsNumeric(q[0]) {
        CompareLexAntisymmetric(p[0], q[0]);
      }
    }
  }

  /** Swapping the operands negates the comparison. */
  lemma CompareAntisymmetric(a: Version, b: Version)
    ensures Compare(a, b) == -Compare(b, a)
  {
    if |a.prerelease| > 0 && |b.prerelease| > 0 {
      CompareIdentifierListsAntisymmetric(a.prerelease, b.prerelease);
    }
  }
}
