/**
 * The Ruby resolver: scans the lines of `Gemfile.lock` with two flags, one
 * set by the `GEM` line and one by the `specs:` line under it, collects each
 * indented `name (version)` entry of the specs, and stops at the next
 * top-level section. A lockfile does not mark development gems, so every gem
 * is a production dependency.
 */
module Ruby {
  import opened Strings
  import opened Model

  const FileName := "gemfile.lock"

  /** `canResolve`: `/(^|\/)Gemfile\.lock$/i`. */
  predicate CanResolve(filename: string)
  {
    EndsWithFileNameIgnoringCase(filename, FileName)
  }

  /** The resolver claims exactly the paths whose last segment is `Gemfile.lock` in any case. */
  lemma {:induction false} CanResolveMeaning(filename: string)
    ensures CanResolve(filename) <==> ToLower(LastSegment(filename)) == FileName
  {
    EndsWithFileNameMeaning(filename, FileName);
  }

  // ---------------------------------------------------------------------------
  // `/^\s+([^\s(]+)\s+\(([^)]+)\)/`

  /** The end of the maximal run of characters other than whitespace and `(`, from `i` on. */
  function NameRunEnd(s: string, i: nat): (j: nat)
    requires i <= |s|
    ensures i <= j <= |s|
    ensures forall k :: i <= k < j ==> !IsWhitespace(s[k]) && s[k] != '('
    ensures j < |s| ==> IsWhitespace(s[j]) || s[j] == '('
    decreases |s| - i
  {
    if i < |s| && !IsWhitespace(s[i]) && s[i] != '(' then NameRunEnd(s, i + 1) else i
  }

  /**
   * The two groups of the entry pattern, when it matches. Every part is a
   * run whose next character cannot belong to it, so backtracking never
   * shortens one: the indent, the name and the gap take their maximal runs,
   * `(` must follow the gap, and the version runs up to the first `)`,
   * which must exist and not come first.
   */
  function GemMatch(line: string): (r: Option<Package>)
    ensures r.Some? ==> IsGemName(r.value.name) && IsGemVersion(r.value.version)
  {
    var e := WhitespaceRunEnd(line, 0);
    var n := NameRunEnd(line, e);
    if e == 0 || n == e || n == |line| || line[n] == '(' then None
    else
      var m := WhitespaceRunEnd(line, n);
      if m == |line| || line[m] != '(' then None
      else
        var version := VersionGroup(line[m + 1..]);
        if version.None? then None else Some(Package(line[e..n], version.value))
  }

  /** `\(([^)]+)\)` after the `(`: the text up to the first `)`, which must exist and not come first. */
  function VersionGroup(rest: string): (r: Option<string>)
    ensures r.Some? ==> IsGemVersion(r.value) && |r.value| < |rest| && rest[|r.value|] == ')' && r.value == rest[..|r.value|]
  {
    var t := IndexOf(rest, ')');
    if t <= 0 then None else Some(rest[..t])
  }

  /** A gem name as the pattern reads it: not empty, no whitespace, no `(`. */
  predicate IsGemName(name: string)
  {
    name != [] && forall k :: 0 <= k < |name| ==> !IsWhitespace(name[k]) && name[k] != '('
  }

  /** A gem version as the pattern reads it: not empty, no `)`. */
  predicate IsGemVersion(version: string)
  {
    version != [] && ')' !in version
  }

  /** A run of whitespace of at least one character. */
  predicate IsGap(s: string)
  {
    s != [] && AllWhitespace(s)
  }

  /** An entry line: indent, name, gap, the parenthesised version, and anything after it. */
  function EntryLine(indent: string, name: string, gap: string, version: string, rest: string): string
  {
    indent + name + gap + "(" + version + ")" + rest
  }

  // ---------------------------------------------------------------------------
  // The scanner

  /**
   * What a line is to the scanner, classified in the order the loop checks it:
   * the `GEM` header, the `specs:` header, a top-level line (one that ends
   * the GEM section), an entry of the specs, or anything else.
   */
  datatype LineKind = GemHeader | SpecsHeader | TopLevel | Entry(gem: Package) | Other

  /** A non-blank line that starts with neither a space nor a tab. */
  predicate IsTopLevel(line: string)
  {
    Trim(line) != "" && !StartsWith(line, " ") && !StartsWith(line, "\t")
  }

  function KindOf(line: string): LineKind
  {
    var trimmed := Trim(line);
    if trimmed == "GEM" then GemHeader
    else if trimmed == "specs:" then SpecsHeader
    else if IsTopLevel(line) then TopLevel
    else
      var gemMatch := GemMatch(line);
      if gemMatch.Some? then Entry(gemMatch.value) else Other
  }

  /** The kind of every line, in order. */
  function Kinds(lines: seq<string>): (kinds: seq<LineKind>)
    ensures |kinds| == |lines| && forall i :: 0 <= i < |lines| ==> kinds[i] == KindOf(lines[i])
  {
    seq(|lines|, i requires 0 <= i < |lines| => KindOf(lines[i]))
  }

  /**
   * The scanner's state after some lines: the two flags, whether it has
   * stopped (the `break`), and the gems so far.
   */
  datatype Scanner = Scanner(inGemSection: bool, inSpecs: bool, stopped: bool, gems: seq<Package>)

  const Start := Scanner(false, false, false, [])

  /**
   * What one line does to the scanner: `GEM` opens the section, `specs:`
   * under it opens the specs, a top-level line in the section stops the
   * scan, and an entry inside the specs adds its gem.
   */
  function Step(st: Scanner, kind: LineKind): Scanner
  {
    if st.stopped then st
    else
      match kind
      case GemHeader => st.(inGemSection := true)
      case SpecsHeader => if st.inGemSection then st.(inSpecs := true) else st
      case TopLevel => if st.inGemSection then st.(stopped := true) else st
      case Entry(gem) => if st.inGemSection && st.inSpecs then st.(gems := st.gems + [gem]) else st
      case Other => st
  }

  /** The scanner's state after lines of the given kinds, from the start. */
  function Run(kinds: seq<LineKind>): Scanner
  {
    if kinds == [] then Start else Step(Run(kinds[..|kinds| - 1]), kinds[|kinds| - 1])
  }

  /** The scanner's state after the lines. */
  function Scan(lines: seq<string>): Scanner
  {
    Run(Kinds(lines))
  }

  /** The lines of the content, as `content.split("\n")` cuts them. */
  function Lines(content: string): seq<string>
  {
    Split(content, '\n')
  }

  /** The resolution of a lockfile's content: its gems, all as production dependencies. */
  function ResolutionOf(content: string): (r: Resolution)
    ensures r.devDependencies == []
  {
    Resolution(Scan(Lines(content)).gems, [])
  }

  /**
   * One pass of the loop body on a line, written with the tests the body
   * makes: nothing once the scan has stopped.
   */
  function StepLine(st: Scanner, line: string): Scanner
  {
    var trimmed := Trim(line);
    if st.stopped then st
    else if trimmed == "GEM" then st.(inGemSection := true)
    else if st.inGemSection && trimmed == "specs:" then st.(inSpecs := true)
    else if st.inGemSection && trimmed != "" && !StartsWith(line, " ") && !StartsWith(line, "\t") && trimmed != "specs:"
    then st.(stopped := true)
    else if st.inGemSection && st.inSpecs && GemMatch(line).Some? then st.(gems := st.gems + [GemMatch(line).value])
    else st
  }

  /** The loop body over the first lines, one after the other. */
  function ScanLines(lines: seq<string>): Scanner
  {
    if lines == [] then Start else StepLine(ScanLines(lines[..|lines| - 1]), lines[|lines| - 1])
  }

  /** The loop body's tests on a line agree with the step on the line's kind. */
  lemma {:induction false} StepOfLine(st: Scanner, line: string)
    ensures StepLine(st, line) == Step(st, KindOf(line))
  {
    var trimmed := Trim(line);
    if !st.stopped && trimmed != "GEM" && trimmed != "specs:" {
      assert IsTopLevel(line) <==> trimmed != "" && !StartsWith(line, " ") && !StartsWith(line, "\t");
    }
  }

  /** The loop body over the lines computes the scan over their kinds. */
  lemma {:induction false} ScanLinesIsScan(lines: seq<string>)
    ensures ScanLines(lines) == Scan(lines)
    decreases |lines|
  {
    if lines != [] {
      var p := lines[..|lines| - 1];
      ScanLinesIsScan(p);
      StepOfLine(Scan(p), lines[|lines| - 1]);
      KindsSnoc(lines);
      RunSnoc(Kinds(p), KindOf(lines[|lines| - 1]));
    }
  }

  /** The kinds of the lines are those of all but the last, then the last's. */
  lemma {:induction false} KindsSnoc(lines: seq<string>)
    requires lines != []
    ensures Kinds(lines) == Kinds(lines[..|lines| - 1]) + [KindOf(lines[|lines| - 1])]
  {
    var p := lines[..|lines| - 1];
    forall i | 0 <= i < |p|
      ensures Kinds(lines)[i] == Kinds(p)[i]
    {
      assert p[i] == lines[i];
    }
  }

  /** The tests of the loop body, in terms of the kind of the line. */
  lemma {:induction false} KindTests(line: string)
    ensures var trimmed := Trim(line);
      (KindOf(line) == GemHeader <==> trimmed == "GEM")
      && (KindOf(line) == SpecsHeader <==> trimmed == "specs:")
      && (KindOf(line) == TopLevel <==> trimmed != "GEM" && trimmed != "specs:" && IsTopLevel(line))
      && (KindOf(line).Entry? <==> trimmed != "GEM" && trimmed != "specs:" && !IsTopLevel(line) && GemMatch(line).Some?)
      && (KindOf(line).Entry? ==> KindOf(line).gem == GemMatch(line).value)
  {
  }

  /** `parseLockfile`. */
  method ParseLockfile(content: string) returns (gems: seq<Package>)
    ensures gems == ScanLines(Lines(content)).gems
  {
    var lines := Lines(content);
    gems := [];
    var inGemSection, inSpecs := false, false;
    var i := 0;
    while i < |lines|
      invariant 0 <= i <= |lines|
      invariant ScanLines(lines[..i]) == Scanner(inGemSection, inSpecs, false, gems)
    {
      var line := lines[i];
      var trimmed := Trim(line);
      ScanLinesSnoc(lines, i);
      if trimmed == "GEM" {
        inGemSection := true;
        assert ScanLines(lines[..i + 1]) == Scanner(inGemSection, inSpecs, false, gems);
        i := i + 1;
        continue;
      }
      if inGemSection && trimmed == "specs:" {
        inSpecs := true;
        assert ScanLines(lines[..i + 1]) == Scanner(inGemSection, inSpecs, false, gems);
        i := i + 1;
        continue;
      }
      if inGemSection && trimmed != "" && !StartsWith(line, " ") && !StartsWith(line, "\t") {
        if trimmed != "specs:" {
          assert ScanLines(lines[..i + 1]) == Scanner(inGemSection, inSpecs, true, gems);
          StoppedLinesStay(lines, i + 1);
          assert ScanLines(lines).gems == gems;
          break;
        }
      }
      if inGemSection && inSpecs {
        var gemMatch := GemMatch(line);
        if gemMatch.Some? {
          gems := gems + [gemMatch.value];
        }
      }
      assert ScanLines(lines[..i + 1]) == Scanner(inGemSection, inSpecs, false, gems);
      i := i + 1;
    }
    assert lines[..|lines|] == lines;
    assert gems == ScanLines(lines).gems;
  }

  /** One more line is one more pass of the loop body. */
  lemma {:induction false} ScanLinesSnoc(lines: seq<string>, i: nat)
    requires i < |lines|
    ensures ScanLines(lines[..i + 1]) == StepLine(ScanLines(lines[..i]), lines[i])
  {
    assert lines[..i + 1][..i] == lines[..i];
  }

  /** Once the loop has stopped, the remaining lines change nothing. */
  lemma {:induction false} StoppedLinesStay(lines: seq<string>, k: nat)
    requires k <= |lines| && ScanLines(lines[..k]).stopped
    ensures ScanLines(lines) == ScanLines(lines[..k])
    decreases |lines| - k
  {
    if k < |lines| {
      var p := lines[..k + 1];
      assert p[..k] == lines[..k];
      StoppedLinesStay(lines, k + 1);
    } else {
      assert lines[..k] == lines;
    }
  }

  /** `resolve` after the file is read: every gem, in order, as a production dependency. */
  method Resolve(content: string) returns (r: Resolution)
    ensures r == ResolutionOf(content)
  {
    var gems := ParseLockfile(content);
    var dependencies: seq<Package> := [];
    for i := 0 to |gems|
      invariant dependencies == gems[..i]
    {
      dependencies := dependencies + [gems[i]];
    }
    assert gems[..|gems|] == gems;
    ScanLinesIsScan(Lines(content));
    r := Resolution(dependencies, []);
  }

  // ---------------------------------------------------------------------------
  // The entry pattern

  /** `\s+` starting at `i` ends at `j` when it is followed by a character other than whitespace. */
  lemma {:induction false} GapOver(s: string, i: nat, j: nat)
    requires i <= j < |s| && AllWhitespace(s[i..j]) && !IsWhitespace(s[j])
    ensures WhitespaceRunEnd(s, i) == j
  {
    forall k | i <= k < j
      ensures IsWhitespace(s[k])
    {
      assert s[k] == s[i..j][k - i];
    }
  }

  /** `[^\s(]+` starting at `i` ends at `j` when whitespace follows the name. */
  lemma {:induction false} NameOver(s: string, i: nat, j: nat)
    requires i < j < |s| && IsGemName(s[i..j]) && IsWhitespace(s[j])
    ensures NameRunEnd(s, i) == j
  {
    forall k | i <= k < j
      ensures !IsWhitespace(s[k]) && s[k] != '('
    {
      assert s[k] == s[i..j][k - i];
    }
  }

  /** The slices of an entry line are its parts. */
  lemma {:induction false} EntryLineSlices(indent: string, name: string, gap: string, version: string, rest: string)
    ensures var line := EntryLine(indent, name, gap, version, rest);
      var e := |indent|;
      var n := e + |name|;
      var m := n + |gap|;
      m < |line| && line[..e] == indent && line[e..n] == name && line[n..m] == gap
      && line[m] == '(' && line[m + 1..] == version + ")" + rest
  {
    var line := EntryLine(indent, name, gap, version, rest);
    var tail := "(" + version + ")" + rest;
    assert line == indent + name + gap + tail;
    var m := |indent| + |name| + |gap|;
    assert line[m..] == tail;
    assert tail[1..] == version + ")" + rest;
  }

  /** The version runs up to the first `)`. */
  lemma {:induction false} VersionOver(t: string, version: string, rest: string)
    requires IsGemVersion(version) && t == version + ")" + rest
    ensures VersionGroup(t) == Some(version)
  {
    assert t[|version|] == ')';
    assert t[..|version|] == version;
  }

  /** The pattern matches when each of its runs ends where the next part needs it to. */
  lemma {:induction false} GemMatchOf(line: string, e: nat, n: nat, m: nat)
    requires 0 < e && WhitespaceRunEnd(line, 0) == e
    requires e < n < |line| && NameRunEnd(line, e) == n && line[n] != '('
    requires m < |line| && WhitespaceRunEnd(line, n) == m && line[m] == '('
    requires VersionGroup(line[m + 1..]).Some?
    ensures GemMatch(line) == Some(Package(line[e..n], VersionGroup(line[m + 1..]).value))
  {
    var name := line[e..n];
    var version := VersionGroup(line[m + 1..]).value;
    assert GemMatch(line).Some? && GemMatch(line).value.name == name;
    assert GemMatch(line).value.version == version;
  }

  /** When the pattern matches, these are the ends of its runs. */
  lemma {:induction false} GemMatchIndices(line: string)
    requires GemMatch(line).Some?
    ensures var e := WhitespaceRunEnd(line, 0);
      var n := NameRunEnd(line, e);
      var m := WhitespaceRunEnd(line, n);
      0 < e < n < m < |line| && line[m] == '(' && VersionGroup(line[m + 1..]).Some?
      && GemMatch(line).value == Package(line[e..n], VersionGroup(line[m + 1..]).value)
  {
  }

  /** A sequence is the concatenation of its slices. */
  lemma {:induction false} Slices(s: string, a: nat, b: nat, c: nat, d: nat)
    requires a <= b <= c <= d <= |s|
    ensures s == s[..a] + s[a..b] + s[b..c] + s[c..d] + s[d..]
  {
  }

  /** In an entry line, each run of the pattern ends where its part ends. */
  lemma {:induction false} EntryLineRuns(indent: string, name: string, gap: string, version: string, rest: string)
    requires IsGap(indent) && IsGemName(name) && IsGap(gap) && IsGemVersion(version)
    ensures var line := EntryLine(indent, name, gap, version, rest);
      var e := |indent|;
      var n := e + |name|;
      var m := n + |gap|;
      m < |line| && WhitespaceRunEnd(line, 0) == e && NameRunEnd(line, e) == n && WhitespaceRunEnd(line, n) == m
      && line[e..n] == name && IsWhitespace(line[n]) && line[m] == '(' && line[m + 1..] == version + ")" + rest
  {
    var line := EntryLine(indent, name, gap, version, rest);
    var e := |indent|;
    var n := e + |name|;
    var m := n + |gap|;
    EntryLineSlices(indent, name, gap, version, rest);
    assert line[e] == line[e..n][0] && line[n] == line[n..m][0];
    GapOver(line, 0, e);
    NameOver(line, e, n);
    GapOver(line, n, m);
  }

  /** An entry line is matched back into its name and version. */
  lemma {:induction false} EntryLineMatched(indent: string, name: string, gap: string, version: string, rest: string)
    requires IsGap(indent) && IsGemName(name) && IsGap(gap) && IsGemVersion(version)
    ensures GemMatch(EntryLine(indent, name, gap, version, rest)) == Some(Package(name, version))
  {
    var e := |indent|;
    EntryLineRuns(indent, name, gap, version, rest);
    MatchAt(EntryLine(indent, name, gap, version, rest), e, e + |name|, e + |name| + |gap|, name, version, rest);
  }

  /** The pattern returns the name and version found at the ends of its runs. */
  lemma {:induction false} MatchAt(line: string, e: nat, n: nat, m: nat, name: string, version: string, rest: string)
    requires IsGemVersion(version)
    requires 0 < e && WhitespaceRunEnd(line, 0) == e
    requires e < n < |line| && NameRunEnd(line, e) == n && IsWhitespace(line[n]) && line[e..n] == name
    requires m < |line| && WhitespaceRunEnd(line, n) == m && line[m] == '(' && line[m + 1..] == version + ")" + rest
    ensures GemMatch(line) == Some(Package(name, version))
  {
    VersionOver(line[m + 1..], version, rest);
    GemMatchOf(line, e, n, m);
  }

  /** Whatever the pattern matches is an entry line with the name and version it returns. */
  lemma {:induction false} MatchedIsEntryLine(line: string)
    requires GemMatch(line).Some?
    ensures var p := GemMatch(line).value;
      exists indent, gap, rest :: IsGap(indent) && IsGap(gap) && line == EntryLine(indent, p.name, gap, p.version, rest)
  {
    GemMatchIndices(line);
    var e := WhitespaceRunEnd(line, 0);
    var n := NameRunEnd(line, e);
    var m := WhitespaceRunEnd(line, n);
    var p := GemMatch(line).value;
    EntryOfRuns(line, e, n, m, p.name, p.version);
  }

  /** A line whose runs end at `e`, `n` and `m`, with the version after `m`, is an entry line. */
  lemma {:induction false} EntryOfRuns(line: string, e: nat, n: nat, m: nat, name: string, version: string)
    requires 0 < e < n < m < |line| && line[m] == '(' && name == line[e..n]
    requires forall k :: 0 <= k < e ==> IsWhitespace(line[k])
    requires forall k :: n <= k < m ==> IsWhitespace(line[k])
    requires |version| < |line[m + 1..]| && line[m + 1..][|version|] == ')' && version == line[m + 1..][..|version|]
    ensures exists indent, gap, rest :: IsGap(indent) && IsGap(gap) && line == EntryLine(indent, name, gap, version, rest)
  {
    EntryOfSlices(line, e, n, m, version);
    GapOfRun(line, 0, e);
    GapOfRun(line, n, m);
    assert line[0..e] == line[..e];
    var indent, gap, rest := line[..e], line[n..m], line[m + 2 + |version|..];
    assert IsGap(indent) && IsGap(gap) && line == EntryLine(indent, name, gap, version, rest);
  }

  /** A run of whitespace characters is a gap. */
  lemma {:induction false} GapOfRun(s: string, i: nat, j: nat)
    requires i < j <= |s| && forall k :: i <= k < j ==> IsWhitespace(s[k])
    ensures IsGap(s[i..j])
  {
    forall k | 0 <= k < j - i
      ensures IsWhitespace(s[i..j][k])
    {
      assert s[i..j][k] == s[i + k];
    }
  }

  /** A line cut at the ends of the runs and around the parenthesised version is an entry line. */
  lemma {:induction false} EntryOfSlices(line: string, e: nat, n: nat, m: nat, version: string)
    requires e <= n <= m < |line| && line[m] == '('
    requires |version| < |line[m + 1..]| && line[m + 1..][|version|] == ')' && version == line[m + 1..][..|version|]
    ensures line == EntryLine(line[..e], line[e..n], line[n..m], version, line[m + 2 + |version|..])
  {
    var t := |version|;
    assert line[m + 1 + t] == ')';
    assert line[m..m + 2 + t] == "(" + version + ")";
    Slices(line, e, n, m, m + 2 + t);
  }

  /** An entry line trims to text holding `(`, so it is neither `GEM` nor `specs:`. */
  lemma {:induction false} EntryLineNoHeader(indent: string, name: string, gap: string, version: string, rest: string)
    requires IsGap(indent) && IsGemName(name) && IsGap(gap) && IsGemVersion(version)
    ensures var trimmed := Trim(EntryLine(indent, name, gap, version, rest));
      trimmed != "GEM" && trimmed != "specs:"
  {
    var line := EntryLine(indent, name, gap, version, rest);
    EntryLineSlices(indent, name, gap, version, rest);
    var k := |indent| + |name| + |gap|;
    TrimKeeps(line, k);
    assert '(' !in "GEM" && '(' !in "specs:";
  }

  /** An entry line indented with a space or a tab is of the entry kind. */
  lemma {:induction false} EntryLineKind(indent: string, name: string, gap: string, version: string, rest: string)
    requires IsGap(indent) && (indent[0] == ' ' || indent[0] == '\t')
    requires IsGemName(name) && IsGap(gap) && IsGemVersion(version)
    ensures KindOf(EntryLine(indent, name, gap, version, rest)) == Entry(Package(name, version))
  {
    var line := EntryLine(indent, name, gap, version, rest);
    EntryLineSlices(indent, name, gap, version, rest);
    EntryLineNoHeader(indent, name, gap, version, rest);
    EntryLineMatched(indent, name, gap, version, rest);
    assert line[0] == indent[0];
    assert StartsWith(line, " ") || StartsWith(line, "\t");
  }

  // ---------------------------------------------------------------------------
  // Properties of the scan

  /** Run over a concatenation: the last kind is the last step. */
  lemma {:induction false} RunSnoc(kinds: seq<LineKind>, kind: LineKind)
    ensures Run(kinds + [kind]) == Step(Run(kinds), kind)
  {
    assert (kinds + [kind])[..|kinds|] == kinds;
  }

  /** Lines after the scan stops change nothing. */
  lemma {:induction false} StoppedStays(p: seq<LineKind>, q: seq<LineKind>)
    requires Run(p).stopped
    ensures Run(p + q) == Run(p)
    decreases |q|
  {
    if q != [] {
      var q' := q[..|q| - 1];
      assert p + q == (p + q') + [q[|q| - 1]];
      RunSnoc(p + q', q[|q| - 1]);
      StoppedStays(p, q');
    } else {
      assert p + q == p;
    }
  }

  /** The flags only ever switch on, `specs:` only under `GEM`, and gems only inside the specs. */
  lemma {:induction false} RunFlags(kinds: seq<LineKind>)
    ensures var st := Run(kinds);
      (st.inSpecs ==> st.inGemSection) && (st.stopped ==> st.inGemSection) && (st.gems != [] ==> st.inSpecs)
  {
    if kinds != [] {
      RunFlags(kinds[..|kinds| - 1]);
    }
  }

  /** The scan is in the GEM section exactly when some kind is the `GEM` header. */
  lemma {:induction false} RunInGemSection(kinds: seq<LineKind>)
    ensures Run(kinds).inGemSection <==> GemHeader in kinds
  {
    if kinds != [] {
      var p := kinds[..|kinds| - 1];
      RunInGemSection(p);
      RunFlags(p);
      assert kinds == p + [kinds[|kinds| - 1]];
    }
  }

  /** The specs flag is on only after a `GEM` header followed, later, by a `specs:` header. */
  lemma {:induction false} RunInSpecs(kinds: seq<LineKind>)
    ensures Run(kinds).inSpecs ==>
      exists i, j :: 0 <= i < j < |kinds| && kinds[i] == GemHeader && kinds[j] == SpecsHeader
  {
    if kinds != [] {
      var p := kinds[..|kinds| - 1];
      RunInSpecs(p);
      RunInGemSection(p);
      RunFlags(p);
      if Run(p).inSpecs {
        var i, j :| 0 <= i < j < |p| && p[i] == GemHeader && p[j] == SpecsHeader;
        assert kinds[i] == p[i] && kinds[j] == p[j];
      } else if Run(kinds).inSpecs {
        var i :| 0 <= i < |p| && p[i] == GemHeader;
        assert kinds[i] == p[i];
      }
    }
  }

  /** Gems are collected in line order: the gems of a prefix of the lines come first. */
  lemma {:induction false} GemsGrow(p: seq<LineKind>, q: seq<LineKind>)
    ensures Run(p).gems <= Run(p + q).gems
    decreases |q|
  {
    if q == [] {
      assert p + q == p;
    } else {
      var q' := q[..|q| - 1];
      assert p + q == (p + q') + [q[|q| - 1]];
      RunSnoc(p + q', q[|q| - 1]);
      GemsGrow(p, q');
    }
  }

  /** The scan is in the GEM section exactly when some line trims to `GEM`. */
  lemma {:induction false} InGemSectionIff(lines: seq<string>)
    ensures Scan(lines).inGemSection <==> exists i :: 0 <= i < |lines| && Trim(lines[i]) == "GEM"
  {
    var kinds := Kinds(lines);
    RunInGemSection(kinds);
    forall i | 0 <= i < |lines|
      ensures kinds[i] == GemHeader <==> Trim(lines[i]) == "GEM"
    {
      KindTests(lines[i]);
    }
  }

  /** Without a `GEM` line the scan ends where it started, with no gems and no error. */
  lemma {:induction false} NoGemSection(lines: seq<string>)
    requires forall i :: 0 <= i < |lines| ==> Trim(lines[i]) != "GEM"
    ensures Scan(lines) == Start
  {
    InGemSectionIff(lines);
    RunFlags(Kinds(lines));
  }

  /** Content with no `GEM` line resolves to two empty lists. */
  lemma {:induction false} NoGemSectionEmpty(content: string)
    requires forall i :: 0 <= i < |Lines(content)| ==> Trim(Lines(content)[i]) != "GEM"
    ensures ResolutionOf(content) == Resolution([], [])
  {
    NoGemSection(Lines(content));
  }

  /** No line contributes unless a `GEM` line and, after it, a `specs:` line come before it. */
  lemma {:induction false} NothingBeforeSpecs(lines: seq<string>)
    requires !exists i, j :: 0 <= i < j < |lines| && Trim(lines[i]) == "GEM" && Trim(lines[j]) == "specs:"
    ensures Scan(lines).gems == []
  {
    var kinds := Kinds(lines);
    RunFlags(kinds);
    RunInSpecs(kinds);
    if Run(kinds).inSpecs {
      var i, j :| 0 <= i < j < |kinds| && kinds[i] == GemHeader && kinds[j] == SpecsHeader;
      KindTests(lines[i]);
      KindTests(lines[j]);
    }
  }

  /** Gems are collected in line order: those of the first lines come first. */
  lemma {:induction false} GemsInLineOrder(lines: seq<string>, k: nat)
    requires k <= |lines|
    ensures Scan(lines[..k]).gems <= Scan(lines).gems
  {
    KindsPrefix(lines, k);
    GemsPrefix(Kinds(lines), k);
  }

  /** The gems after the first kinds are a prefix of the gems after all of them. */
  lemma GemsPrefix(kinds: seq<LineKind>, k: nat)
    requires k <= |kinds|
    ensures Run(kinds[..k]).gems <= Run(kinds).gems
  {
    GemsGrow(kinds[..k], kinds[k..]);
    assert kinds[..k] + kinds[k..] == kinds;
  }

  /** The kinds of the first lines are the first kinds. */
  lemma KindsPrefix(lines: seq<string>, k: nat)
    requires k <= |lines|
    ensures Kinds(lines[..k]) == Kinds(lines)[..k]
  {
  }

  /** One more line is one more step, on that line's kind. */
  lemma {:induction false} ScanSnoc(lines: seq<string>, k: nat)
    requires k < |lines|
    ensures Scan(lines[..k + 1]) == Step(Scan(lines[..k]), KindOf(lines[k]))
  {
    var p := lines[..k + 1];
    KindsSnoc(p);
    assert p[..|p| - 1] == lines[..k] && p[|p| - 1] == lines[k];
    assert Kinds(p) == Kinds(lines[..k]) + [KindOf(lines[k])];
    RunSnoc(Kinds(lines[..k]), KindOf(lines[k]));
  }

  /**
   * Inside the GEM section, a top-level line other than `specs:` stops the
   * scan: the gems are those collected before it, whatever follows.
   */
  lemma {:induction false} TopLevelLineStops(lines: seq<string>, k: nat)
    requires k < |lines| && Scan(lines[..k]).inGemSection
    requires IsTopLevel(lines[k]) && Trim(lines[k]) != "GEM" && Trim(lines[k]) != "specs:"
    ensures Scan(lines).gems == Scan(lines[..k]).gems
  {
    ScanSnoc(lines, k);
    KindTests(lines[k]);
    KindsPrefix(lines, k + 1);
    StoppedPrefix(Kinds(lines), k + 1);
  }

  /** Once the first kinds stop the scan, the rest change nothing. */
  lemma StoppedPrefix(kinds: seq<LineKind>, k: nat)
    requires k <= |kinds| && Run(kinds[..k]).stopped
    ensures Run(kinds) == Run(kinds[..k])
  {
    StoppedStays(kinds[..k], kinds[k..]);
    assert kinds[..k] + kinds[k..] == kinds;
  }

  /**
   * Inside the specs, an entry line indented with a space or a tab adds its
   * gem, even one already collected: there is no de-duplication.
   */
  lemma {:induction false} EntryLineCollected(lines: seq<string>, k: nat, indent: string, name: string, gap: string, version: string, rest: string)
    requires k < |lines| && lines[k] == EntryLine(indent, name, gap, version, rest)
    requires IsGap(indent) && (indent[0] == ' ' || indent[0] == '\t')
    requires IsGemName(name) && IsGap(gap) && IsGemVersion(version)
    requires var st := Scan(lines[..k]); st.inGemSection && st.inSpecs && !st.stopped
    ensures Scan(lines[..k + 1]).gems == Scan(lines[..k]).gems + [Package(name, version)]
  {
    ScanSnoc(lines, k);
    EntryLineKind(indent, name, gap, version, rest);
  }

  /** A line of no kind the scanner knows changes nothing. */
  lemma {:induction false} OtherLineIgnored(lines: seq<string>, k: nat)
    requires k < |lines| && Trim(lines[k]) != "GEM" && Trim(lines[k]) != "specs:"
    requires !IsTopLevel(lines[k]) && GemMatch(lines[k]).None?
    ensures Scan(lines[..k + 1]) == Scan(lines[..k])
  {
    ScanSnoc(lines, k);
    KindTests(lines[k]);
  }
}
