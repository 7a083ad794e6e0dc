/**
 * The pnpm resolver: walks the `packages` map of `pnpm-lock.yaml`, whose keys
 * carry the package name and often its version (`express@4.18.2`,
 * `@types/node@20.0.0`, or a path through `node_modules`).
 */
module Pnpm {
  import opened Strings
  import opened Model
  import opened Routing
  import Npm

  /** An entry of `packages`: its `version` field and whether `dev === true`. */
  datatype PackageEntry = PackageEntry(version: FieldValue, dev: bool)

  datatype Lockfile = Lockfile(packages: seq<(string, Entry<PackageEntry>)>)

  /** A package name with the version its key carries, if any. */
  datatype NameAndVersion = NameAndVersion(name: string, version: Option<string>)

  const FileName := "pnpm-lock.yaml"
  const NullErrorMessage := "Cannot read properties of null (reading 'packages')"

  /** `canResolve`: the name is `pnpm-lock.yaml` or ends with `/pnpm-lock.yaml`. */
  predicate CanResolve(filename: string)
  {
    filename == FileName || EndsWith(filename, "/" + FileName)
  }

  /** The resolver claims exactly the paths whose last segment is `pnpm-lock.yaml`. */
  lemma CanResolveMeaning(filename: string)
    ensures CanResolve(filename) <==> LastSegment(filename) == FileName
  {
    LastSegmentIs(filename, FileName);
  }

  /** `/^@[^/]+\/[^/]+$/`: an `@`, a non-empty scope, one `/`, a non-empty name. */
  predicate IsScopedName(key: string)
  {
    var slash := IndexOf(key, '/');
    |key| > 0 && key[0] == '@' && 2 <= slash < |key| - 1 && '/' !in key[slash + 1..]
  }

  /**
   * `cleanPackageName`: a key through `node_modules` keeps what follows its
   * only such segment (none when there are several); any other key with a
   * `/` is a nested path and is dropped unless it starts with `@`.
   */
  function CleanPackageName(key: string): Option<string>
  {
    var parts := Split(key, '/');
    var index := SeqIndexOf(parts, "node_modules");
    if index != -1 then
      if Npm.Count(parts, "node_modules") != 1 then None
      else Some(Join(parts[index + 1..], '/'))
    else if |parts| > 1 && !StartsWith(key, "@") && !IsScopedName(key) then None
    else Some(key)
  }

  /**
   * The split of a cleaned key: a scoped key splits at its last `@` (no
   * version when that `@` is the leading one); any other key splits at its
   * first `@`, the rest rejoined with `@`.
   */
  function SplitPackageKey(packageKey: string): NameAndVersion
  {
    if StartsWith(packageKey, "@") then
      var lastAtIndex := LastIndexOf(packageKey, '@');
      if lastAtIndex <= 0 then NameAndVersion(packageKey, None)
      else NameAndVersion(packageKey[..lastAtIndex], Some(packageKey[lastAtIndex + 1..]))
    else
      var keyParts := Split(packageKey, '@');
      if |keyParts| == 1 then NameAndVersion(packageKey, None)
      else NameAndVersion(keyParts[0], Some(Join(keyParts[1..], '@')))
  }

  /** `extractPackageInfoFromName`: clean the key, then split it; an empty cleaned key gives none. */
  function ExtractPackageInfoFromName(key: string): Option<NameAndVersion>
  {
    var packageKey := CleanPackageName(key);
    if packageKey.None? || packageKey.value == "" then None
    else Some(SplitPackageKey(packageKey.value))
  }

  /**
   * The version an entry resolves to: its own string `version` field when it
   * has one (even an empty one), else the version in its key.
   */
  function PreferredVersion(pkg: PackageEntry, info: NameAndVersion): Option<string>
  {
    if pkg.version.Str? then Some(pkg.version.text) else info.version
  }

  /** The decision on one object-typed entry. */
  function Decide(key: string, pkg: PackageEntry): Outcome
  {
    var info := ExtractPackageInfoFromName(key);
    if info.None? then Skip
    else
      var version := PreferredVersion(pkg, info.value);
      if version.None? || version.value == "" then Skip
      else Keep(Package(info.value.name, version.value), pkg.dev)
  }

  /** The decision on one entry of `packages`; an array has none of the fields. */
  function Classify(entry: (string, Entry<PackageEntry>)): Outcome
  {
    match entry.1
    case Object(pkg) => Decide(entry.0, pkg)
    case Array => Decide(entry.0, PackageEntry(Missing, false))
    case _ => Skip
  }

  /** The resolution of a parsed `pnpm-lock.yaml`. */
  function ResolutionOf(doc: Parsed<Entry<Lockfile>>): Result<Resolution>
  {
    match doc
    case ParseError(message) => Failure(message)
    case Parsed(Null) => Failure(NullErrorMessage)
    case Parsed(Object(lockfile)) => Success(Resolved(Outcomes(lockfile.packages, Classify)))
    case Parsed(_) => Success(Resolution([], []))
  }

  /** `resolve` after the file is read and handed to the YAML parser. */
  method Resolve(doc: Parsed<Entry<Lockfile>>) returns (r: Result<Resolution>)
    ensures r == ResolutionOf(doc)
  {
    if doc.ParseError? {
      return Failure(doc.message);
    }
    if doc.value == Null {
      return Failure(NullErrorMessage);
    }
    if !doc.value.Object? {
      return Success(Resolution([], []));
    }
    var packages := doc.value.fields.packages;
    var dependencies, devDependencies := [], [];
    ghost var outs: seq<Outcome> := [];
    for i := 0 to |packages|
      invariant outs == Outcomes(packages[..i], Classify)
      invariant dependencies == Routed(outs, false) && devDependencies == Routed(outs, true)
    {
      var name, entry := packages[i].0, packages[i].1;
      ghost var o := Classify(packages[i]);
      OutcomesStep(packages, Classify, i);
      RoutedSnoc(outs, o, false);
      RoutedSnoc(outs, o, true);
      EntryEmits(packages[i]);
      if entry.Object? || entry.Array? {
        var pkg := if entry.Object? then entry.fields else PackageEntry(Missing, false);
        var nameAndVersion := ExtractPackageInfoFromName(name);
        if nameAndVersion.Some? {
          var version := if pkg.version.Str? then Some(pkg.version.text) else nameAndVersion.value.version;
          if version.Some? && version.value != "" {
            var packageInfo := Package(nameAndVersion.value.name, version.value);
            if pkg.dev {
              devDependencies := devDependencies + [packageInfo];
            } else {
              dependencies := dependencies + [packageInfo];
            }
          }
        }
      }
      outs := outs + [o];
    }
    assert packages[..|packages|] == packages;
    r := Success(Resolution(dependencies, devDependencies));
  }

  /** What one entry appends to each list, in the terms of the loop body. */
  lemma EntryEmits(entry: (string, Entry<PackageEntry>))
    ensures var pkg := if entry.1.Object? then entry.1.fields else PackageEntry(Missing, false);
      var info := ExtractPackageInfoFromName(entry.0);
      var version := if info.Some? then PreferredVersion(pkg, info.value) else None;
      var kept := (entry.1.Object? || entry.1.Array?) && info.Some? && version.Some? && version.value != "";
      Emitted(Classify(entry), true) == (if kept && pkg.dev then [Package(info.value.name, version.value)] else [])
      && Emitted(Classify(entry), false) == (if kept && !pkg.dev then [Package(info.value.name, version.value)] else [])
  {
  }

  // ---------------------------------------------------------------------------
  // Keys

  /** On keys through `node_modules`, pnpm cleans exactly as npm extracts names. */
  lemma NodeModulesKeysAsNpm(key: string)
    requires key != "" && "node_modules" in Split(key, '/')
    ensures CleanPackageName(key) == Npm.ExtractPackageName(key)
  {
  }

  /**
   * A key without a `node_modules` segment is dropped exactly when it holds a
   * `/` and does not start with `@`; otherwise it is kept whole.
   */
  lemma NestedPathDropped(key: string)
    requires "node_modules" !in Split(key, '/')
    ensures CleanPackageName(key) == None <==> '/' in key && !StartsWith(key, "@")
    ensures CleanPackageName(key) != None ==> CleanPackageName(key) == Some(key)
  {
    SplitSingle(key, '/');
  }

  /** `name@version` with a scoped name splits back at the `@` before the version. */
  lemma ScopedKeyRoundTrip(name: string, version: string)
    requires |name| > 0 && name[0] == '@' && '@' !in version
    ensures SplitPackageKey(name + "@" + version) == NameAndVersion(name, Some(version))
  {
    var k := name + "@" + version;
    assert k[|name|] == '@';
    assert k[|name| + 1..] == version;
    LastIndexOfAt(k, |name|, '@');
    assert k[..|name|] == name;
  }

  /** A scoped key with no other `@` carries no version. */
  lemma ScopedKeyWithoutVersion(key: string)
    requires |key| > 0 && key[0] == '@' && '@' !in key[1..]
    ensures SplitPackageKey(key) == NameAndVersion(key, None)
  {
    assert key[0..] == key;
    LastIndexOfAt(key, 0, '@');
  }

  /** `name@version` with a plain name splits at its first `@`; the version keeps any later `@`. */
  lemma PlainKeyRoundTrip(name: string, version: string)
    requires |name| > 0 && name[0] != '@' && '@' !in name
    ensures SplitPackageKey(name + "@" + version) == NameAndVersion(name, Some(version))
  {
    var k := name + "@" + version;
    assert k == name + ['@'] + version;
    SplitCons(name, '@', version);
    JoinSplit(version, '@');
    assert Split(k, '@')[1..] == Split(version, '@');
  }

  /** A plain key without `@` carries no version. */
  lemma PlainKeyWithoutVersion(key: string)
    requires |key| > 0 && key[0] != '@' && '@' !in key
    ensures SplitPackageKey(key) == NameAndVersion(key, None)
  {
    SplitSingle(key, '@');
  }

  // ---------------------------------------------------------------------------
  // The walk

  /**
   * The entry under `key` yields `p` for list `dev`: it is an object or an
   * array, its key names `p.name`, the entry's own string version or else the
   * key's version is `p.version` and is not empty, and `dev` is its flag.
   */
  ghost predicate Yields(key: string, entry: Entry<PackageEntry>, p: Package, dev: bool)
  {
    (entry.Object? || entry.Array?)
    && var pkg := if entry.Object? then entry.fields else PackageEntry(Missing, false);
    var info := ExtractPackageInfoFromName(key);
    info.Some? && info.value.name == p.name
    && PreferredVersion(pkg, info.value) == Some(p.version) && p.version != ""
    && dev == pkg.dev
  }

  /** A package is in a list exactly when some entry yields it for that list. */
  lemma ResolvedMember(lockfile: Lockfile, p: Package, dev: bool)
    ensures p in Routed(Outcomes(lockfile.packages, Classify), dev)
      <==> exists i :: 0 <= i < |lockfile.packages| && Yields(lockfile.packages[i].0, lockfile.packages[i].1, p, dev)
  {
    var entries := lockfile.packages;
    OutcomesMember(entries, Classify, dev, p);
    forall i | 0 <= i < |entries|
      ensures Classify(entries[i]) == Keep(p, dev) <==> Yields(entries[i].0, entries[i].1, p, dev)
    {
      ClassifyKeeps(entries[i], p, dev);
    }
  }

  lemma ClassifyKeeps(entry: (string, Entry<PackageEntry>), p: Package, dev: bool)
    ensures Classify(entry) == Keep(p, dev) <==> Yields(entry.0, entry.1, p, dev)
  {
  }

  /** An entry's own non-empty string version wins over the version in its key. */
  lemma EntryVersionWins(key: string, pkg: PackageEntry, text: string)
    requires pkg.version == Str(text) && text != ""
    requires ExtractPackageInfoFromName(key).Some?
    ensures Classify((key, Object(pkg))) == Keep(Package(ExtractPackageInfoFromName(key).value.name, text), pkg.dev)
  {
  }

  /** An entry with an empty string version is skipped even when its key has a version. */
  lemma EmptyEntryVersionSkips(key: string, pkg: PackageEntry)
    requires pkg.version == Str("")
    ensures Classify((key, Object(pkg))) == Skip
  {
  }
}
