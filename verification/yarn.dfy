/**
 * The Yarn resolver: walks the object the `yarn.lock` parser returns, whose
 * keys are `name@range` (or `@scope/name@range`) and whose entries carry the
 * resolved `version`.
 */
module Yarn {
  import opened Strings
  import opened Model
  import opened Routing
  import opened Patterns

  /** An entry: its `version` field and whether `devDependency === true`. */
  datatype YarnEntry = YarnEntry(version: FieldValue, devDependency: bool)

  /** What the lockfile parser returns: whether its `type` is `"success"`, and the parsed object. */
  datatype ParseResult = ParseResult(success: bool, entries: seq<(string, Entry<YarnEntry>)>)

  const FileName := "yarn.lock"
  const ParseFailedMessage := "Failed to parse yarn.lock file"

  /** `canResolve`: the name is `yarn.lock` or ends with `/yarn.lock`. */
  predicate CanResolve(filename: string)
  {
    filename == FileName || EndsWith(filename, "/" + FileName)
  }

  /** The resolver claims exactly the paths whose last segment is `yarn.lock`. */
  lemma CanResolveMeaning(filename: string)
    ensures CanResolve(filename) <==> LastSegment(filename) == FileName
  {
    LastSegmentIs(filename, FileName);
  }

  /**
   * `extractVersionFromKey`: the version in the text after the key's last `@`.
   */
  function ExtractVersionFromKey(key: string): Option<string>
  {
    var atIndex := LastIndexOf(key, '@');
    if atIndex == -1 then None else VersionOfRange(key[atIndex + 1..])
  }

  /**
   * The version in a key's range: the trimmed range without a protocol
   * prefix up to its first `:`, reduced to its first `\d+\.\d+\.\d+[^\s]*`
   * token when there is one. The result may be empty.
   */
  function VersionOfRange(range: string): Option<string>
  {
    var versionPart := Trim(range);
    if versionPart == "" then None
    else
      var protocolIndex := IndexOf(versionPart, ':');
      var version := if protocolIndex >= 0 then versionPart[protocolIndex + 1..] else versionPart;
      var versionMatch := TripleMatch(version, false);
      if versionMatch.Some? then versionMatch else Some(version)
  }

  /** The version an entry resolves to: its own non-empty string `version`, else the key's. */
  function EntryVersion(key: string, entry: YarnEntry): Option<string>
  {
    if entry.version.Str? && entry.version.text != "" then Some(entry.version.text)
    else ExtractVersionFromKey(key)
  }

  /** `extractPackageInfo`: the trimmed name before the last `@` with the entry's version. */
  function ExtractPackageInfo(key: string, entry: YarnEntry): Option<Package>
  {
    var atIndex := LastIndexOf(key, '@');
    if atIndex == -1 then None
    else
      var packageName := Trim(key[..atIndex]);
      if packageName == "" then None
      else
        var version := EntryVersion(key, entry);
        if version.None? || version.value == "" then None
        else Some(Package(packageName, version.value))
  }

  /** The decision on one entry of the parsed object; an array has none of the fields. */
  function Classify(entry: (string, Entry<YarnEntry>)): Outcome
  {
    var yarnEntry := if entry.1.Object? then entry.1.fields else YarnEntry(Missing, false);
    if !(entry.1.Object? || entry.1.Array?) then Skip
    else
      var packageInfo := ExtractPackageInfo(entry.0, yarnEntry);
      if packageInfo.None? then Skip else Keep(packageInfo.value, yarnEntry.devDependency)
  }

  /** The resolution of a parsed `yarn.lock`, or the error that parsing raised. */
  function ResolutionOf(parsed: Parsed<ParseResult>): Result<Resolution>
  {
    match parsed
    case ParseError(message) => Failure(ParseFailedMessage + ": " + message)
    case Parsed(result) =>
      if !result.success then Failure(ParseFailedMessage)
      else Success(Resolved(Outcomes(result.entries, Classify)))
  }

  /** `resolve` after the file is read and handed to the lockfile parser. */
  method Resolve(parsed: Parsed<ParseResult>) returns (r: Result<Resolution>)
    ensures r == ResolutionOf(parsed)
  {
    if parsed.ParseError? {
      return Failure(ParseFailedMessage + ": " + parsed.message);
    }
    if !parsed.value.success {
      return Failure(ParseFailedMessage);
    }
    var entries := parsed.value.entries;
    var dependencies, devDependencies := [], [];
    ghost var outs: seq<Outcome> := [];
    for i := 0 to |entries|
      invariant outs == Outcomes(entries[..i], Classify)
      invariant dependencies == Routed(outs, false) && devDependencies == Routed(outs, true)
    {
      var key, entry := entries[i].0, entries[i].1;
      ghost var o := Classify(entries[i]);
      OutcomesStep(entries, Classify, i);
      RoutedSnoc(outs, o, false);
      RoutedSnoc(outs, o, true);
      EntryEmits(entries[i]);
      if entry.Object? || entry.Array? {
        var yarnEntry := if entry.Object? then entry.fields else YarnEntry(Missing, false);
        var packageInfo := ExtractPackageInfo(key, yarnEntry);
        if packageInfo.Some? {
          if yarnEntry.devDependency {
            devDependencies := devDependencies + [packageInfo.value];
          } else {
            dependencies := dependencies + [packageInfo.value];
          }
        }
      }
      outs := outs + [o];
    }
    assert entries[..|entries|] == entries;
    r := Success(Resolution(dependencies, devDependencies));
  }

  /** What one entry appends to each list, in the terms of the loop body. */
  lemma EntryEmits(entry: (string, Entry<YarnEntry>))
    ensures var yarnEntry := if entry.1.Object? then entry.1.fields else YarnEntry(Missing, false);
      var info := ExtractPackageInfo(entry.0, yarnEntry);
      var kept := (entry.1.Object? || entry.1.Array?) && info.Some?;
      Emitted(Classify(entry), true) == (if kept && yarnEntry.devDependency then [info.value] else [])
      && Emitted(Classify(entry), false) == (if kept && !yarnEntry.devDependency then [info.value] else [])
  {
  }

  // ---------------------------------------------------------------------------
  // Properties

  /** The name is the trimmed text before the last `@`; the version is never empty. */
  lemma PackageInfoShape(key: string, entry: YarnEntry)
    requires ExtractPackageInfo(key, entry).Some?
    ensures var p := ExtractPackageInfo(key, entry).value;
      '@' in key && p.name == Trim(key[..LastIndexOf(key, '@')]) && p.name != "" && p.version != ""
  {
  }

  /** A key without `@`, or whose only `@` is the leading one, yields no package. */
  lemma NoNameBeforeAt(key: string, entry: YarnEntry)
    requires '@' !in key || (key[0] == '@' && '@' !in key[1..])
    ensures ExtractPackageInfo(key, entry) == None
  {
    if '@' in key {
      assert key[0..] == key;
      LastIndexOfAt(key, 0, '@');
    }
  }

  /** `name@range`: a trimmed name with no `@` after its first character is read back whole. */
  lemma NameOfKey(name: string, range: string, entry: YarnEntry)
    requires name != "" && Trim(name) == name && '@' !in range
    requires EntryVersion(name + "@" + range, entry).Some? && EntryVersion(name + "@" + range, entry).value != ""
    ensures ExtractPackageInfo(name + "@" + range, entry)
      == Some(Package(name, EntryVersion(name + "@" + range, entry).value))
  {
    var key := name + "@" + range;
    assert key[|name|] == '@' && key[|name| + 1..] == range;
    LastIndexOfAt(key, |name|, '@');
    assert key[..|name|] == name;
  }

  /** An entry's own non-empty string version wins over anything derived from the key. */
  lemma EntryVersionWins(key: string, entry: YarnEntry, text: string)
    requires entry.version == Str(text) && text != ""
    ensures EntryVersion(key, entry) == Some(text)
  {
  }

  /** The key's version is read from the text after the `@` that ends the name. */
  lemma VersionAfterName(name: string, range: string)
    requires '@' !in range
    ensures ExtractVersionFromKey(name + "@" + range) == VersionOfRange(range)
  {
    var key := name + "@" + range;
    assert key[|name|] == '@' && key[|name| + 1..] == range;
    LastIndexOfAt(key, |name|, '@');
  }

  /**
   * A range `protocol:rest` drops the protocol: its version is the first
   * three-part version token in `rest`, or `rest` itself when it has none.
   */
  lemma VersionAfterProtocol(protocol: string, rest: string)
    requires ':' !in protocol && Trim(protocol + ":" + rest) == protocol + ":" + rest
    ensures VersionOfRange(protocol + ":" + rest)
      == Some(if TripleMatch(rest, false).Some? then TripleMatch(rest, false).value else rest)
  {
    var range := protocol + ":" + rest;
    assert range[|protocol|] == ':' && range[..|protocol|] == protocol;
    assert IndexOf(range, ':') == |protocol|;
    assert range[|protocol| + 1..] == rest;
  }

  /** A trimmed range without `:` gives its first three-part version token, or the range itself. */
  lemma VersionWithoutProtocol(range: string)
    requires ':' !in range && range != "" && Trim(range) == range
    ensures VersionOfRange(range)
      == Some(if TripleMatch(range, false).Some? then TripleMatch(range, false).value else range)
  {
  }

  /** A range that is blank gives no version. */
  lemma BlankRange(range: string)
    requires AllWhitespace(range)
    ensures VersionOfRange(range) == None
  {
  }

  /** A package is in a list exactly when some entry's key and fields yield it for that list. */
  lemma ResolvedMember(entries: seq<(string, Entry<YarnEntry>)>, p: Package, dev: bool)
    ensures p in Routed(Outcomes(entries, Classify), dev)
      <==> exists i :: 0 <= i < |entries| && Yields(entries[i].0, entries[i].1, p, dev)
  {
    OutcomesMember(entries, Classify, dev, p);
    forall i | 0 <= i < |entries|
      ensures Classify(entries[i]) == Keep(p, dev) <==> Yields(entries[i].0, entries[i].1, p, dev)
    {
    }
  }

  /** The entry under `key` is an object or array whose key and fields make `p`, flagged `dev`. */
  ghost predicate Yields(key: string, entry: Entry<YarnEntry>, p: Package, dev: bool)
  {
    (entry.Object? || entry.Array?)
    && var yarnEntry := if entry.Object? then entry.fields else YarnEntry(Missing, false);
    ExtractPackageInfo(key, yarnEntry) == Some(p) && dev == yarnEntry.devDependency
  }
}
