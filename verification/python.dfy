/**
 * The requirements.txt resolver: each line of the file is trimmed, blank
 * lines, comments, includes and editable installs are skipped, and the rest
 * is matched against three regular expressions to find a package name and a
 * version. Every package is a production dependency.
 *
 * The regular expressions are written out as the searches a backtracking
 * matcher performs: a lazy group tries the shortest length first, a greedy
 * one the longest, and the first combination that lets the whole pattern
 * match wins. `.` matches anything but a line terminator.
 */
module Python {
  import opened Strings
  import opened Model
  import opened Routing
  import opened Patterns

  // ---------------------------------------------------------------------------
  // File names

  /** `/^requirements.*\.txt$/`. */
  predicate IsRequirementsName(basename: string)
  {
    |basename| >= 16 && StartsWith(basename, "requirements") && EndsWith(basename, ".txt")
    && NoLineTerminator(basename[12..|basename| - 4])
  }

  /** `canResolve`: the basename (`split("/").pop() || filename`) is a requirements file name. */
  predicate CanResolve(filename: string)
  {
    IsRequirementsName(PopOrSelf(filename))
  }

  /** The resolver claims exactly the paths whose last segment is a requirements file name. */
  lemma CanResolveMeaning(filename: string)
    ensures CanResolve(filename) <==> IsRequirementsName(LastSegment(filename))
  {
    if LastSegment(filename) == "" && |filename| > 0 {
      assert filename[|filename| - 1] == '/';
      NameEndsWithT(filename);
    }
  }

  /** A requirements file name ends with `t`. */
  lemma NameEndsWithT(name: string)
    ensures IsRequirementsName(name) ==> name[|name| - 1] == 't'
  {
    if IsRequirementsName(name) {
      assert name[|name| - 1] == name[|name| - 4..][3];
    }
  }

  // ---------------------------------------------------------------------------
  // Pieces of the patterns

  /**
   * Where `\s*(.+)$` starting at `q` puts its group: greedy `\s*` gives back
   * whitespace only until `.+` can run to the end, so the group starts at
   * the end of the whitespace run, or at the last character when the run
   * reaches the end; there is no match when the group would hold a line
   * terminator or be empty.
   */
  function TailStart(s: string, q: nat): (r: Option<nat>)
    requires q <= |s|
    ensures r.Some? ==> q <= r.value < |s|
  {
    if q >= |s| then None
    else
      var e := WhitespaceRunEnd(s, q);
      if e < |s| then (if NoLineTerminator(s[e..]) then Some(e) else None)
      else if !IsLineTerminator(s[|s| - 1]) then Some(|s| - 1)
      else None
  }

  // ---------------------------------------------------------------------------
  // `^(.+?)\s*@\s*(https?|git\+|file\+)`

  /** The protocol alternatives at position `c`. */
  predicate ProtocolAt(s: string, c: nat)
    requires c <= |s|
  {
    StartsWith(s[c..], "http") || StartsWith(s[c..], "git+") || StartsWith(s[c..], "file+")
  }

  /**
   * The pattern matches with its `@` at `b`: a non-empty group free of line
   * terminators, then whitespace up to `b`, then `@`, whitespace and a
   * protocol (which starts with a letter, so `\s*` takes the whole run).
   */
  predicate UrlAt(s: string, b: nat)
    requires b < |s|
  {
    s[b] == '@'
    && (exists a :: 1 <= a <= b && NoLineTerminator(s[..a]) && AllWhitespace(s[a..b]))
    && ProtocolAt(s, WhitespaceRunEnd(s, b + 1))
  }

  predicate HasUrlSpec(s: string)
  {
    exists b :: 0 <= b < |s| && UrlAt(s, b)
  }

  // ---------------------------------------------------------------------------
  // `^(.+?)\[.+\]\s*(.+)$`

  /**
   * The greedy `.+\]`: the largest `c` in `[a + 2, top]` holding `]` with no
   * line terminator before it and a tail match after it, or -1.
   */
  function LastClose(s: string, a: nat, top: int): (c: int)
    requires top < |s|
    ensures c == -1 || (a + 2 <= c <= top && ClosesAt(s, c))
    decreases top - a
  {
    if top < a + 2 then -1
    else if ClosesAt(s, top) then top
    else LastClose(s, a, top - 1)
  }

  /** `\]` can match at `t`: no line terminator before it, and the tail matches after it. */
  predicate ClosesAt(s: string, t: nat)
    requires t < |s|
  {
    s[t] == ']' && NoLineTerminator(s[..t]) && TailStart(s, t + 1).Some?
  }

  /** The lazy group: the smallest `a >= from` holding `[` after which the rest can match, with its `]`. */
  function ExtrasFrom(s: string, from: nat): (r: Option<(nat, nat)>)
    requires 1 <= from <= |s|
    ensures r.Some? ==> from <= r.value.0 && r.value.0 + 2 <= r.value.1 < |s| && TailStart(s, r.value.1 + 1).Some?
    decreases |s| - from
  {
    if from == |s| then None
    else if s[from] == '[' && NoLineTerminator(s[..from]) && LastClose(s, from, |s| - 1) >= 0 then
      Some((from, LastClose(s, from, |s| - 1)))
    else ExtrasFrom(s, from + 1)
  }

  /** The two groups of the extras pattern, when it matches. */
  function ExtrasSpec(s: string): Option<(string, string)>
  {
    if |s| == 0 then None
    else
      var m := ExtrasFrom(s, 1);
      if m.None? then None
      else Some((s[..m.value.0], s[TailStart(s, m.value.1 + 1).value..]))
  }

  // ---------------------------------------------------------------------------
  // `^(.+?)\s*(==|>=|<=|>|<|~=|!=)\s*(.+)$`

  /** The operator alternatives, in the order the pattern tries them. */
  const Operators: seq<string> := ["==", ">=", "<=", ">", "<", "~=", "!="]

  /** The first alternative from index `k` on that matches at `p` and lets the tail match, with the tail's start. */
  function OperatorAt(s: string, p: nat, k: nat): (r: Option<(string, nat)>)
    requires p <= |s| && k <= |Operators|
    ensures r.Some? ==> r.value.0 in Operators && p + |r.value.0| <= r.value.1 < |s|
    decreases |Operators| - k
  {
    if k == |Operators| then None
    else
      var op := Operators[k];
      var t := OperatorTail(s, p, op);
      if t.Some? then Some((op, t.value)) else OperatorAt(s, p, k + 1)
  }

  /** `op` at `p` followed by a match of the tail, with the tail's start. */
  function OperatorTail(s: string, p: nat, op: string): (t: Option<nat>)
    requires p <= |s|
    ensures t.Some? ==> p + |op| <= t.value < |s|
  {
    if StartsWith(s[p..], op) then TailStart(s, p + |op|) else None
  }

  /** Greedy `\s*` before the operator: the operator is tried at `p`, then at each earlier position down to `a`. */
  function SpaceThenOperator(s: string, a: nat, p: nat): (r: Option<(string, nat)>)
    requires a <= p <= |s|
    ensures r.Some? ==> r.value.0 in Operators && a < r.value.1 < |s|
    decreases p - a
  {
    var r := OperatorAt(s, p, 0);
    if r.Some? then r
    else if p == a then None
    else SpaceThenOperator(s, a, p - 1)
  }

  /** The lazy group: the smallest `a >= from` after which the rest can match. */
  function OperatorFrom(s: string, from: nat): (r: Option<(nat, string, nat)>)
    requires 1 <= from <= |s|
    ensures r.Some? ==> from <= r.value.0 < r.value.2 < |s|
    decreases |s| - from
  {
    if from == |s| then None
    else
      var m := SpaceThenOperator(s, from, WhitespaceRunEnd(s, from));
      if NoLineTerminator(s[..from]) && m.Some? then Some((from, m.value.0, m.value.1))
      else OperatorFrom(s, from + 1)
  }

  /** The three groups of the operator pattern, when it matches. */
  function OperatorSpec(s: string): Option<(string, string, string)>
  {
    if |s| == 0 then None
    else
      var m := OperatorFrom(s, 1);
      if m.None? then None else Some((s[..m.value.0], m.value.1, s[m.value.2..]))
  }

  // ---------------------------------------------------------------------------
  // The parser

  /**
   * `extractVersion`: the first `\d+\.\d+\.\d+[^\s,]*` token of the trimmed
   * specifier, else its first `\d+\.\d+(?:\.\d+)?(?:[a-zA-Z0-9.-]*)?` token.
   */
  function ExtractVersion(versionSpec: string): (r: Option<string>)
    ensures r.Some? ==> r.value != ""
  {
    var cleaned := Trim(versionSpec);
    var firstVersionMatch := TripleMatch(cleaned, true);
    if firstVersionMatch.Some? then firstVersionMatch else PairMatch(cleaned)
  }

  /** `versionSpec.split("==")[0]`: the text before the first `==`. */
  function BeforePin(versionSpec: string): (r: string)
    ensures r <= versionSpec
    ensures r == versionSpec || OccursAt(versionSpec, "==", |r|)
    ensures forall k: nat :: k < |r| ==> !OccursAt(versionSpec, "==", k)
  {
    var k := IndexOfString(versionSpec, "==", 0);
    if k >= 0 then versionSpec[..k] else versionSpec
  }

  /** The package an extras line (`name[extra]spec`) names, when both parts are found. */
  function FromExtras(cleanLine: string): Option<Package>
  {
    var m := ExtrasSpec(cleanLine);
    if m.None? then None
    else
      var packageName := Trim(m.value.0);
      var version := ExtractVersion(Trim(m.value.1));
      if version.Some? && packageName != "" then Some(Package(packageName, version.value)) else None
  }

  /** The package an operator line (`name op spec`) names: `==` pins verbatim, other operators extract. */
  function FromOperator(cleanLine: string): Option<Package>
  {
    var m := OperatorSpec(cleanLine);
    if m.None? then None
    else
      var packageName := Trim(m.value.0);
      var versionSpec := Trim(m.value.2);
      var version := if m.value.1 == "==" then Some(Trim(BeforePin(versionSpec))) else ExtractVersion(versionSpec);
      if version.Some? && version.value != "" && packageName != "" then Some(Package(packageName, version.value))
      else None
  }

  /**
   * `parsePackageLine`: drop an inline comment, skip URL installs, try the
   * extras pattern and fall back to the operator pattern.
   */
  function ParsePackageLine(line: string): (r: Option<Package>)
    ensures r.Some? ==> r.value.name != "" && r.value.version != ""
  {
    var commentIndex := IndexOf(line, '#');
    var cleanLine := if commentIndex >= 0 then Trim(line[..commentIndex]) else Trim(line);
    if cleanLine == "" then None
    else if HasUrlSpec(cleanLine) then None
    else
      var fromExtras := FromExtras(cleanLine);
      if fromExtras.Some? then fromExtras else FromOperator(cleanLine)
  }

  /** Lines the loop skips before parsing: blank, comments, includes and editable installs. */
  predicate IsSkipped(trimmed: string)
  {
    trimmed == "" || StartsWith(trimmed, "#")
    || StartsWith(trimmed, "-r ") || StartsWith(trimmed, "--requirement ")
    || StartsWith(trimmed, "-e ") || StartsWith(trimmed, "--editable ")
  }

  /** The decision on one line: every package found is a production dependency. */
  function Classify(line: string): Outcome
  {
    var trimmed := Trim(line);
    if IsSkipped(trimmed) then Skip
    else
      var packageInfo := ParsePackageLine(trimmed);
      if packageInfo.None? then Skip else Keep(packageInfo.value, false)
  }

  /** The resolution of a requirements file's content, split into lines at `\n`. */
  function ResolutionOf(content: string): Resolution
  {
    Resolved(Outcomes(Split(content, '\n'), Classify))
  }

  /** `resolve` after the file is read. */
  method Resolve(content: string) returns (r: Resolution)
    ensures r == ResolutionOf(content)
  {
    var lines := Split(content, '\n');
    var dependencies, devDependencies := [], [];
    ghost var outs: seq<Outcome> := [];
    for i := 0 to |lines|
      invariant outs == Outcomes(lines[..i], Classify)
      invariant dependencies == Routed(outs, false) && devDependencies == Routed(outs, true)
    {
      var trimmed := Trim(lines[i]);
      ghost var o := Classify(lines[i]);
      OutcomesStep(lines, Classify, i);
      RoutedSnoc(outs, o, false);
      RoutedSnoc(outs, o, true);
      if !IsSkipped(trimmed) {
        var packageInfo := ParsePackageLine(trimmed);
        if packageInfo.Some? {
          dependencies := dependencies + [packageInfo.value];
        }
      }
      outs := outs + [o];
    }
    assert lines[..|lines|] == lines;
    r := Resolution(dependencies, devDependencies);
  }
  // ---------------------------------------------------------------------------
  // Properties of the walk

  /** The line is not skipped and parses to `p`. */
  predicate LineYields(line: string, p: Package)
  {
    !IsSkipped(Trim(line)) && ParsePackageLine(Trim(line)) == Some(p)
  }

  /** A package is a dependency exactly when some line of the file parses to it. */
  lemma ResolvedMember(content: string, p: Package)
    ensures p in ResolutionOf(content).dependencies
      <==> exists i :: 0 <= i < |Split(content, '\n')| && LineYields(Split(content, '\n')[i], p)
  {
    var lines := Split(content, '\n');
    OutcomesMember(lines, Classify, false, p);
    forall i | 0 <= i < |lines|
      ensures Classify(lines[i]) == Keep(p, false) <==> LineYields(lines[i], p)
    {
    }
  }

  /** A requirements file never has development dependencies. */
  lemma NoDevDependencies(content: string)
    ensures ResolutionOf(content).devDependencies == []
  {
    OutcomesNoneFor(Split(content, '\n'), Classify, true);
  }

  // ---------------------------------------------------------------------------
  // Properties of single lines

  /** A character that plays no part in any of the patterns: not whitespace, `#`, `@`, a bracket or an operator character. */
  predicate PlainChar(c: char)
  {
    !IsWhitespace(c) && c !in "#@[]=<>~!"
  }

  predicate IsPlain(s: string)
  {
    forall k :: 0 <= k < |s| ==> PlainChar(s[k])
  }

  /** No operator alternative starts with a character other than `=<>~!`. */
  lemma {:induction false} OperatorAtNone(s: string, p: nat, k: nat)
    requires p < |s| && k <= |Operators| && s[p] !in "=<>~!"
    ensures OperatorAt(s, p, k) == None
    decreases |Operators| - k
  {
    if k < |Operators| {
      assert Operators[k][0] in "=<>~!";
      assert s[p..][0] == s[p];
      OperatorAtNone(s, p, k + 1);
    }
  }

  /**
   * The lazy name group stops at `n` when every earlier character from
   * `from` on is plain and the operator alternatives match at `n`.
   */
  lemma {:induction false} OperatorFromAt(s: string, from: nat, n: nat)
    requires 1 <= from <= n < |s|
    requires forall k :: from <= k < n ==> PlainChar(s[k])
    requires NoLineTerminator(s[..n]) && !IsWhitespace(s[n]) && OperatorAt(s, n, 0).Some?
    ensures OperatorFrom(s, from) == Some((n, OperatorAt(s, n, 0).value.0, OperatorAt(s, n, 0).value.1))
    decreases n - from
  {
    assert WhitespaceRunEnd(s, from) == from;
    if from < n {
      OperatorAtNone(s, from, 0);
      OperatorFromAt(s, from + 1, n);
    }
  }

  /** With no operator character anywhere from `from` on, the operator pattern cannot match. */
  lemma {:induction false} OperatorFromNone(s: string, from: nat)
    requires 1 <= from <= |s| && forall k :: from <= k < |s| ==> PlainChar(s[k])
    ensures OperatorFrom(s, from) == None
    decreases |s| - from
  {
    if from < |s| {
      assert WhitespaceRunEnd(s, from) == from;
      OperatorAtNone(s, from, 0);
      OperatorFromNone(s, from + 1);
    }
  }

  /** Without `[`, the extras pattern cannot match. */
  lemma {:induction false} ExtrasNone(s: string, from: nat)
    requires 1 <= from <= |s| && '[' !in s
    ensures ExtrasFrom(s, from) == None
    decreases |s| - from
  {
    if from < |s| {
      ExtrasNone(s, from + 1);
    }
  }

  /** A line free of whitespace, `#` and `@` is its own clean line and is no URL install. */
  lemma CleanLineOf(s: string)
    requires s != [] && forall k :: 0 <= k < |s| ==> !IsWhitespace(s[k]) && s[k] != '#' && s[k] != '@'
    ensures Trim(s) == s && IndexOf(s, '#') == -1 && !HasUrlSpec(s)
  {
    TrimUnchanged(s);
  }

  /** The operator line `name==version` sits in the model as the parts it was built from. */
  lemma PinnedParts(name: string, version: string)
    requires name != "" && version != "" && IsPlain(name) && IsPlain(version)
    ensures var s := name + "==" + version;
      (forall k :: 0 <= k < |s| ==> !IsWhitespace(s[k]) && s[k] !in "#@[")
      && s[..|name|] == name && s[|name| + 2..] == version
      && OperatorAt(s, |name|, 0) == Some(("==", |name| + 2))
  {
    var s := name + "==" + version;
    forall k | 0 <= k < |s|
      ensures !IsWhitespace(s[k]) && s[k] !in "#@["
    {
      if k < |name| {
        assert s[k] == name[k];
      } else if k >= |name| + 2 {
        assert s[k] == version[k - |name| - 2];
      }
    }
    assert s[|name| + 2..] == version;
    assert WhitespaceRunEnd(s, |name| + 2) == |name| + 2;
    assert s[|name|..][..2] == "==";
  }

  /** The operator pattern splits `name==version` into its parts. */
  lemma PinnedOperatorSpec(name: string, version: string)
    requires name != "" && version != "" && IsPlain(name) && IsPlain(version)
    ensures OperatorSpec(name + "==" + version) == Some((name, "==", version))
  {
    var s := name + "==" + version;
    PinnedParts(name, version);
    forall k | 1 <= k < |name|
      ensures PlainChar(s[k])
    {
      assert s[k] == name[k];
    }
    OperatorFromAt(s, 1, |name|);
  }

  /** A plain pinned version is taken verbatim: it holds no `==` and nothing to trim. */
  lemma PinnedVersionText(version: string)
    requires version != "" && IsPlain(version)
    ensures Trim(BeforePin(Trim(version))) == version
  {
    TrimUnchanged(version);
    forall k: nat | k + 2 <= |version|
      ensures !OccursAt(version, "==", k)
    {
      assert version[k..k + 2][0] == version[k];
    }
  }

  /** The operator branch reads `name==version` back as its parts. */
  lemma PinnedFromOperator(name: string, version: string)
    requires name != "" && version != "" && IsPlain(name) && IsPlain(version)
    ensures FromOperator(name + "==" + version) == Some(Package(name, version))
  {
    PinnedOperatorSpec(name, version);
    PinnedVersionText(version);
    TrimUnchanged(name);
  }

  /** A line free of whitespace, `#`, `@` and `[` goes straight to the operator branch. */
  lemma OperatorBranchOnly(s: string)
    requires s != [] && forall k :: 0 <= k < |s| ==> !IsWhitespace(s[k]) && s[k] !in "#@["
    ensures ParsePackageLine(s) == FromOperator(s)
  {
    CleanLineOf(s);
    ExtrasNone(s, 1);
    assert FromExtras(s) == None;
  }

  /** A pinned line `name==version` with plain parts gives exactly that package. */
  lemma PinnedLine(name: string, version: string)
    requires name != "" && version != "" && IsPlain(name) && IsPlain(version)
    ensures ParsePackageLine(name + "==" + version) == Some(Package(name, version))
  {
    PinnedParts(name, version);
    OperatorBranchOnly(name + "==" + version);
    PinnedFromOperator(name, version);
  }

  /** An inline comment is dropped: everything from the first `#` on plays no part. */
  lemma CommentDropped(s: string, comment: string)
    requires '#' !in s
    ensures ParsePackageLine(s + "#" + comment) == ParsePackageLine(s)
  {
    var line := s + "#" + comment;
    IndexOfAfter(s, '#', comment);
    assert line[..|s|] == s;
  }

  /**
   * The text of a pin as the operator branch reads it after `==`: trimmed,
   * on one line, and free of `#`, `@` and `[`, which the comment cut, the URL
   * pattern and the extras pattern look for.
   */
  predicate IsPinText(v: string)
  {
    v != [] && !IsWhitespace(v[0]) && !IsWhitespace(v[|v| - 1]) && NoLineTerminator(v)
    && '#' !in v && '@' !in v && '[' !in v
  }

  /** The line `name==version` is its own clean line, with no `#`, `@` or `[` in it. */
  lemma PinChars(name: string, version: string)
    requires name != "" && IsPlain(name) && IsPinText(version)
    ensures var s := name + "==" + version;
      Trim(s) == s && '#' !in s && '@' !in s && '[' !in s
  {
    var s := name + "==" + version;
    var n := |name|;
    assert s[0] == name[0] && s[|s| - 1] == version[|version| - 1];
    TrimUnchanged(s);
    forall k | 0 <= k < |s|
      ensures s[k] !in "#@["
    {
      if k < n {
        assert s[k] == name[k];
      } else if k >= n + 2 {
        assert s[k] == version[k - n - 2];
      }
    }
  }

  /** The operator pattern splits `name==version` at its first `==`. */
  lemma PinOperator(name: string, version: string)
    requires name != "" && IsPlain(name) && IsPinText(version)
    ensures OperatorSpec(name + "==" + version) == Some((name, "==", version))
  {
    var s := name + "==" + version;
    var n := |name|;
    assert s[..n] == name && s[n + 2..] == version;
    forall k | 0 <= k < n
      ensures PlainChar(s[k]) && !IsLineTerminator(s[k])
    {
      assert s[k] == name[k];
    }
    assert NoLineTerminator(s[..n]);
    assert s[n + 2] == version[0];
    assert WhitespaceRunEnd(s, n + 2) == n + 2;
    assert TailStart(s, n + 2) == Some(n + 2);
    assert s[n..][..2] == "==";
    assert OperatorAt(s, n, 0) == Some(("==", n + 2));
    OperatorFromAt(s, 1, n);
  }

  /** A trimmed line with no `#`, `@` or `[` is parsed by the operator branch alone. */
  lemma OperatorBranch(s: string)
    requires s != "" && Trim(s) == s && '#' !in s && '@' !in s && '[' !in s
    ensures ParsePackageLine(s) == FromOperator(s)
  {
    assert !HasUrlSpec(s);
    ExtrasNone(s, 1);
    assert FromExtras(s) == None;
  }

  /**
   * `name==version`: the version is the trimmed text before any further
   * `==`, verbatim (markers such as `; python_version<"3.8"` included), and
   * there is no package when that text is empty.
   */
  lemma PinnedLineVerbatim(name: string, version: string)
    requires name != "" && IsPlain(name) && IsPinText(version)
    ensures var pin := Trim(BeforePin(version));
      ParsePackageLine(name + "==" + version) == if pin == "" then None else Some(Package(name, pin))
    ensures (forall k: nat :: !OccursAt(version, "==", k))
      ==> ParsePackageLine(name + "==" + version) == Some(Package(name, version))
  {
    var s := name + "==" + version;
    PinChars(name, version);
    PinOperator(name, version);
    OperatorBranch(s);
    TrimUnchanged(name);
    TrimUnchanged(version);
    if forall k: nat :: !OccursAt(version, "==", k) {
      assert BeforePin(version) == version;
    }
  }

  /** The loop keeps such a line as a production dependency. */
  lemma PinnedLineKept(name: string, version: string)
    requires name != "" && version != "" && IsPlain(name) && IsPlain(version)
    ensures Classify(name + "==" + version) == Keep(Package(name, version), false)
  {
    var s := name + "==" + version;
    PinnedParts(name, version);
    NotSkipped(s);
    PinnedLine(name, version);
  }

  /** A line without whitespace that does not start with `#` is neither skipped nor changed by trimming. */
  lemma NotSkipped(s: string)
    requires s != [] && s[0] != '#' && forall k :: 0 <= k < |s| ==> !IsWhitespace(s[k])
    ensures Trim(s) == s && !IsSkipped(s)
  {
    TrimUnchanged(s);
    forall prefix | prefix in ["-r ", "--requirement ", "-e ", "--editable "]
      ensures !StartsWith(s, prefix)
    {
      if |prefix| <= |s| {
        assert s[..|prefix|][|prefix| - 1] == s[|prefix| - 1];
        assert prefix[|prefix| - 1] == ' ';
      }
    }
  }
  /** A bare name, with no operator, names no version and is skipped. */
  lemma NameOnlyLine(name: string)
    requires name != "" && IsPlain(name)
    ensures ParsePackageLine(name) == None
  {
    OperatorBranchOnly(name);
    OperatorFromNone(name, 1);
  }

  /** A three-part version with no character that stops the version token, or that any pattern reacts to. */
  predicate IsVersionToken(v: string)
  {
    TripleAt(v, 0) && IsPlain(v) && ',' !in v
  }

  /** What a prefix test tells about the characters. */
  lemma StartsWithChars(t: string, o: string)
    ensures StartsWith(t, o) ==> forall i :: 0 <= i < |o| ==> t[i] == o[i]
  {
    if StartsWith(t, o) {
      forall i | 0 <= i < |o|
        ensures t[i] == o[i]
      {
        assert t[..|o|][i] == t[i];
      }
    }
  }

  /** An operator alternative before the one at `k` does not start an operator that is followed by a digit. */
  lemma OtherOperatorMisses(s: string, p: nat, j: nat, k: nat)
    requires j < k < |Operators|
    requires p + |Operators[k]| < |s| && s[p..p + |Operators[k]|] == Operators[k] && IsDigit(s[p + |Operators[k]|])
    ensures !StartsWith(s[p..], Operators[j])
  {
    var op := Operators[k];
    assert s[p] == op[0];
    assert s[p + 1] == if |op| == 2 then op[1] else s[p + |op|];
    StartsWithChars(s[p..], Operators[j]);
    assert s[p..][0] == s[p] && s[p..][1] == s[p + 1];
  }

  /** `\s*(.+)$` at a character other than whitespace starts its group there. */
  lemma TailAtVisible(s: string, q: nat)
    requires q < |s| && !IsWhitespace(s[q]) && NoLineTerminator(s[q..])
    ensures TailStart(s, q) == Some(q)
  {
  }

  /** The alternative at `k` itself matches at `p`. */
  lemma OperatorAtHit(s: string, p: nat, k: nat)
    requires k < |Operators|
    requires p + |Operators[k]| < |s| && s[p..p + |Operators[k]|] == Operators[k] && IsDigit(s[p + |Operators[k]|])
    requires NoLineTerminator(s[p + |Operators[k]|..])
    ensures OperatorAt(s, p, k) == Some((Operators[k], (p + |Operators[k]|) as nat))
  {
    var op := Operators[k];
    assert s[p..][..|op|] == op;
    TailAtVisible(s, p + |op|);
  }

  /** The alternatives before `k` miss, so the one at `k` is the operator found at `p`. */
  lemma {:induction false} OperatorAtIndex(s: string, p: nat, j: nat, k: nat)
    requires j <= k < |Operators|
    requires p + |Operators[k]| < |s| && s[p..p + |Operators[k]|] == Operators[k] && IsDigit(s[p + |Operators[k]|])
    requires NoLineTerminator(s[p + |Operators[k]|..])
    ensures OperatorAt(s, p, j) == Some((Operators[k], (p + |Operators[k]|) as nat))
    decreases k - j
  {
    if j < k {
      OtherOperatorMisses(s, p, j, k);
      OperatorAtIndex(s, p, j + 1, k);
    } else {
      OperatorAtHit(s, p, k);
    }
  }

  /** The operator line `name op v` sits in the model as the parts it was built from. */
  lemma RangeParts(name: string, k: nat, v: string)
    requires name != "" && IsPlain(name) && 1 <= k < |Operators| && IsVersionToken(v)
    ensures var s := name + Operators[k] + v;
      (forall i :: 0 <= i < |s| ==> !IsWhitespace(s[i]) && s[i] !in "#@[")
      && (forall i :: 1 <= i < |name| ==> PlainChar(s[i]))
      && OperatorAt(s, |name|, 0) == Some((Operators[k], (|name| + |Operators[k]|) as nat))
  {
    RangeChars(name, k, v);
    assert IsDigit(v[0]);
    RangeOperator(name, k, v);
  }

  /** Every character of `name op v` is visible and none is `#`, `@` or `[`; the name's stay plain. */
  lemma RangeChars(name: string, k: nat, v: string)
    requires name != "" && IsPlain(name) && 1 <= k < |Operators| && IsVersionToken(v)
    ensures var s := name + Operators[k] + v;
      (forall i :: 0 <= i < |s| ==> !IsWhitespace(s[i]) && s[i] !in "#@[")
      && (forall i :: 1 <= i < |name| ==> PlainChar(s[i]))
  {
    var op := Operators[k];
    var s := name + op + v;
    forall i | 0 <= i < |s|
      ensures !IsWhitespace(s[i]) && s[i] !in "#@["
      ensures 1 <= i < |name| ==> PlainChar(s[i])
    {
      if i < |name| {
        assert s[i] == name[i];
      } else if i >= |name| + |op| {
        assert s[i] == v[i - |name| - |op|];
      } else {
        assert s[i] == op[i - |name|];
      }
    }
  }

  /** The operator of `name op v` is found right after the name. */
  lemma RangeOperator(name: string, k: nat, v: string)
    requires name != "" && 1 <= k < |Operators| && v != [] && IsDigit(v[0]) && IsPlain(v)
    ensures OperatorAt(name + Operators[k] + v, |name|, 0) == Some((Operators[k], (|name| + |Operators[k]|) as nat))
  {
    var op := Operators[k];
    var s := name + op + v;
    var t := |name| + |op|;
    ThreeParts(name, op, v);
    assert s[t..] == v;
    assert IsPlain(s[t..]);
    assert IsDigit(s[t]);
    OperatorBeforeVersion(s, |name|, k);
  }

  /** An operator followed by plain text starting with a digit is the operator found there. */
  lemma OperatorBeforeVersion(s: string, p: nat, k: nat)
    requires 1 <= k < |Operators| && p + |Operators[k]| < |s|
    requires s[p..p + |Operators[k]|] == Operators[k] && IsDigit(s[p + |Operators[k]|]) && IsPlain(s[p + |Operators[k]|..])
    ensures OperatorAt(s, p, 0) == Some((Operators[k], (p + |Operators[k]|) as nat))
  {
    PlainNoLineTerminator(s[p + |Operators[k]|..]);
    OperatorAtIndex(s, p, 0, k);
  }

  /** The slices of a concatenation of three parts. */
  lemma ThreeParts(a: string, b: string, c: string)
    requires c != []
    ensures var s := a + b + c; var t := |a| + |b|;
      t < |s| && s[|a|..t] == b && s[t..] == c && s[t] == c[0]
  {
    var s := a + b + c;
    assert s[|a|..|a| + |b|] == b;
    assert s[|a| + |b|..] == c;
  }

  /** Plain text holds no line terminator. */
  lemma PlainNoLineTerminator(v: string)
    requires IsPlain(v)
    ensures NoLineTerminator(v)
  {
    forall i | 0 <= i < |v|
      ensures !IsLineTerminator(v[i])
    {
      assert PlainChar(v[i]);
    }
  }

  /** A version token is its own first three-part match. */
  lemma VersionTokenExtracted(v: string)
    requires IsVersionToken(v)
    ensures ExtractVersion(Trim(v)) == Some(v)
  {
    TrimUnchanged(v);
    TokenIsTriple(v);
  }

  /** A version token is its own three-part match. */
  lemma TokenIsTriple(v: string)
    requires IsVersionToken(v)
    ensures TripleMatch(v, true) == Some(v)
  {
    forall k | 0 <= k < |v|
      ensures !IsStop(v[k], true)
    {
      assert PlainChar(v[k]) && v[k] != ',';
    }
    assert [] + v + [] == v;
    TripleAfterPrefix([], v, [], true);
  }

  /** The operator pattern splits `name op v` into its parts. */
  lemma RangeOperatorSpec(name: string, k: nat, v: string)
    requires name != "" && IsPlain(name) && 1 <= k < |Operators| && IsVersionToken(v)
    ensures OperatorSpec(name + Operators[k] + v) == Some((name, Operators[k], v))
  {
    var s := name + Operators[k] + v;
    RangeParts(name, k, v);
    OperatorFromAt(s, 1, |name|);
    assert s[..|name|] == name;
    assert s[|name| + |Operators[k]|..] == v;
  }

  /** An operator other than `==` has its version extracted from the trimmed specifier. */
  lemma FromOperatorExtracts(line: string, name: string, op: string, spec: string)
    requires OperatorSpec(line) == Some((name, op, spec)) && op != "=="
    requires Trim(name) == name && name != "" && ExtractVersion(Trim(spec)).Some?
    ensures FromOperator(line) == Some(Package(name, ExtractVersion(Trim(spec)).value))
  {
  }

  /** The operator branch reads `name op v` back as the name and the version token. */
  lemma RangeFromOperator(name: string, k: nat, v: string)
    requires name != "" && IsPlain(name) && 1 <= k < |Operators| && IsVersionToken(v)
    ensures FromOperator(name + Operators[k] + v) == Some(Package(name, v))
  {
    var op := Operators[k];
    assert op[0] != '=';
    RangeOperatorSpec(name, k, v);
    VersionTokenExtracted(v);
    TrimUnchanged(name);
    FromOperatorExtracts(name + op + v, name, op, v);
  }

  /** A range line `name>=v`, or one with another operator than `==`, gives the version token after the operator. */
  lemma RangeLine(name: string, k: nat, v: string)
    requires name != "" && IsPlain(name) && 1 <= k < |Operators| && IsVersionToken(v)
    ensures ParsePackageLine(name + Operators[k] + v) == Some(Package(name, v))
  {
    RangeParts(name, k, v);
    OperatorBranchOnly(name + Operators[k] + v);
    RangeFromOperator(name, k, v);
  }
  // ---------------------------------------------------------------------------
  // URL installs

  /** ` @ http` after a name free of line terminators is a URL install with its `@` at `a + 1`. */
  lemma UrlAtSpaced(s: string, a: nat)
    requires 1 <= a && a + 7 <= |s| && NoLineTerminator(s[..a]) && s[a..a + 7] == " @ http"
    ensures UrlAt(s, a + 1)
  {
    var b := a + 1;
    assert s[b] == s[a..a + 7][1];
    assert s[b + 1] == s[a..a + 7][2] && s[b + 2] == s[a..a + 7][3];
    assert s[a..b] == s[a..a + 7][..1];
    assert WhitespaceRunEnd(s, b + 1) == b + 2;
    assert s[b + 2..][..4] == s[a..a + 7][3..];
  }

  /** A URL line holds no `#`. */
  lemma UrlLineUncommented(name: string, host: string)
    requires IsPlain(name) && IsPlain(host)
    ensures IndexOf(name + " @ https://" + host, '#') == -1
  {
    var s := name + " @ https://" + host;
    var mid := " @ https://";
    forall k | 0 <= k < |s|
      ensures s[k] != '#'
    {
      if k < |name| {
        assert s[k] == name[k];
      } else if k < |name| + |mid| {
        assert s[k] == mid[k - |name|];
      } else {
        assert s[k] == host[k - |name| - |mid|];
      }
    }
  }

  /** The URL line `name @ https://host` sits in the model as the parts it was built from. */
  lemma UrlParts(name: string, host: string)
    requires name != "" && IsPlain(name) && IsPlain(host)
    ensures var s := name + " @ https://" + host;
      Trim(s) == s && IndexOf(s, '#') == -1 && NoLineTerminator(s[..|name|])
      && s[|name|..|name| + 7] == " @ http"
  {
    var s := name + " @ https://" + host;
    UrlLineUncommented(name, host);
    assert s[..|name|] == name;
    assert s[|name|..|name| + 7] == " @ https://"[..7];
    assert s[0] == name[0];
    assert s[|s| - 1] == if host == "" then '/' else host[|host| - 1];
    TrimUnchanged(s);
  }

  /** `name @ https://host`: a direct URL install names no version the model can use, and is skipped. */
  lemma UrlLineSkipped(name: string, host: string)
    requires name != "" && IsPlain(name) && IsPlain(host)
    ensures ParsePackageLine(name + " @ https://" + host) == None
  {
    var s := name + " @ https://" + host;
    UrlParts(name, host);
    UrlAtSpaced(s, |name|);
    assert HasUrlSpec(s);
  }

  // ---------------------------------------------------------------------------
  // Extras

  /** The lazy name group of the extras pattern stops at the first `[` after which the rest matches. */
  lemma {:induction false} ExtrasFromAt(s: string, from: nat, n: nat)
    requires 1 <= from <= n < |s| && s[n] == '[' && NoLineTerminator(s[..n])
    requires forall k :: from <= k < n ==> s[k] != '['
    requires LastClose(s, n, |s| - 1) >= 0
    ensures ExtrasFrom(s, from) == Some((n, LastClose(s, n, |s| - 1) as nat))
    decreases n - from
  {
    if from < n {
      assert s[from] != '[';
      ExtrasFromAt(s, from + 1, n);
    } else {
      var c := LastClose(s, n, |s| - 1);
      assert ExtrasFrom(s, n) == Some((n, c));
    }
  }

  /** The greedy group of the extras pattern ends at the last `]` after which the tail matches. */
  lemma LastCloseAt(s: string, a: nat, top: int, c: nat)
    requires a + 2 <= c <= top < |s| && s[c] == ']' && NoLineTerminator(s[..c]) && TailStart(s, c + 1).Some?
    requires forall t :: c < t <= top ==> s[t] != ']'
    ensures LastClose(s, a, top) == c
  {
    LastCloseHit(s, a, c);
    LastCloseAbove(s, a, top, c);
  }

  /** Positions above a taken `]` that hold no `]` are skipped down to it. */
  lemma {:induction false} LastCloseAbove(s: string, a: nat, top: int, c: nat)
    requires a + 2 <= c <= top < |s| && LastClose(s, a, c) == c
    requires forall t :: c < t <= top ==> s[t] != ']'
    ensures LastClose(s, a, top) == c
    decreases top - c
  {
    if c < top {
      assert s[top] != ']';
      LastCloseSkips(s, a, top);
      LastCloseAbove(s, a, top - 1, c);
    }
  }

  /** A `]` with no line terminator before it and a tail match after it is taken. */
  lemma LastCloseHit(s: string, a: nat, c: nat)
    requires a + 2 <= c < |s| && s[c] == ']' && NoLineTerminator(s[..c]) && TailStart(s, c + 1).Some?
    ensures LastClose(s, a, c) == c
  {
  }

  /** A position not holding `]` is skipped by the greedy search. */
  lemma LastCloseSkips(s: string, a: nat, top: nat)
    requires a + 2 <= top < |s| && s[top] != ']'
    ensures LastClose(s, a, top) == LastClose(s, a, top - 1)
  {
  }

  /** The extras line `name[extras]==v` sits in the model as the parts it was built from. */
  lemma ExtrasParts(name: string, extras: string, v: string)
    requires name != "" && IsPlain(name) && extras != "" && IsPlain(extras) && IsVersionToken(v)
    ensures var s := name + "[" + extras + "]==" + v;
      var c := |name| + 1 + |extras|;
      (forall k :: 0 <= k < |s| ==> !IsWhitespace(s[k]) && s[k] != '#' && s[k] != '@')
      && NoLineTerminator(s)
      && (forall k :: 1 <= k < |name| ==> s[k] != '[')
      && (forall t :: c < t < |s| ==> s[t] != ']')
      && s[|name|] == '[' && s[c] == ']' && s[c + 1] == '='
      && s[..|name|] == name && s[c + 1..] == "==" + v
  {
    var s := name + "[" + extras + "]==" + v;
    var c := |name| + 1 + |extras|;
    forall k | 0 <= k < |s|
      ensures !IsWhitespace(s[k]) && s[k] != '#' && s[k] != '@' && (k < |name| ==> s[k] != '[')
      ensures c < k ==> s[k] != ']'
    {
      if k < |name| {
        assert s[k] == name[k];
      } else if |name| < k < c {
        assert s[k] == extras[k - |name| - 1];
      } else if k >= c + 3 {
        assert s[k] == v[k - c - 3];
      }
    }
    assert s[c + 1..] == "==" + v;
  }

  /** On a line free of line terminators, the greedy group closes at the last `]` when a visible character follows it. */
  lemma CloseAtLast(s: string, n: nat, c: nat)
    requires n + 2 <= c && c + 1 < |s| && s[c] == ']' && !IsWhitespace(s[c + 1]) && NoLineTerminator(s)
    requires forall t :: c < t < |s| ==> s[t] != ']'
    ensures LastClose(s, n, |s| - 1) == c && TailStart(s, c + 1) == Some(c + 1)
  {
    assert NoLineTerminator(s[c + 1..]);
    TailAtVisible(s, c + 1);
    assert NoLineTerminator(s[..c]);
    LastCloseAt(s, n, |s| - 1, c);
  }

  /** The extras pattern splits `name[extras]==v` into the name and the specifier after `]`. */
  lemma ExtrasSpecOf(name: string, extras: string, v: string)
    requires name != "" && IsPlain(name) && extras != "" && IsPlain(extras) && IsVersionToken(v)
    ensures ExtrasSpec(name + "[" + extras + "]==" + v) == Some((name, "==" + v))
  {
    var s := name + "[" + extras + "]==" + v;
    var c := |name| + 1 + |extras|;
    ExtrasParts(name, extras, v);
    CloseAtLast(s, |name|, c);
    assert NoLineTerminator(s[..|name|]);
    ExtrasFromAt(s, 1, |name|);
  }

  /** The specifier `==v` holds the version token after the pin. */
  lemma PinnedSpecExtracted(v: string)
    requires IsVersionToken(v)
    ensures ExtractVersion(Trim("==" + v)) == Some(v)
  {
    var spec := "==" + v;
    assert spec[|spec| - 1] == v[|v| - 1];
    TrimUnchanged(spec);
    TripleAfterPrefix("==", v, [], true);
    assert "==" + v + [] == spec;
  }

  /** The extras branch reads `name[extras]==v` back as the name and the version token. */
  lemma ExtrasFromExtras(name: string, extras: string, v: string)
    requires name != "" && IsPlain(name) && extras != "" && IsPlain(extras) && IsVersionToken(v)
    ensures FromExtras(name + "[" + extras + "]==" + v) == Some(Package(name, v))
  {
    ExtrasSpecOf(name, extras, v);
    PinnedSpecExtracted(v);
    TrimUnchanged(name);
  }

  /** An extras line `name[extras]==v` gives the name without its extras and the version token. */
  lemma ExtrasLine(name: string, extras: string, v: string)
    requires name != "" && IsPlain(name) && extras != "" && IsPlain(extras) && IsVersionToken(v)
    ensures ParsePackageLine(name + "[" + extras + "]==" + v) == Some(Package(name, v))
  {
    var s := name + "[" + extras + "]==" + v;
    ExtrasParts(name, extras, v);
    CleanLineOf(s);
    ExtrasFromExtras(name, extras, v);
  }
}
