/**
 * The Poetry resolver: `poetry.lock` is TOML whose `package` array of tables
 * lists every locked package; a table with `category = "dev"` is a
 * development dependency.
 */
module Poetry {
  import opened Strings
  import opened Model
  import opened Routing

  /**
   * A package table: `name` and `version` as `String(...)` renders them when
   * the keys are present, and the `category` value.
   */
  datatype PoetryPackage = PoetryPackage(name: Option<string>, version: Option<string>, category: FieldValue)

  /** The document's `package` value when it is an array, else `None`. */
  datatype Lockfile = Lockfile(package: Option<seq<Entry<PoetryPackage>>>)

  const FileName := "poetry.lock"
  const ParseFailedPrefix := "Failed to parse poetry.lock: "

  /** `canResolve`: `/(^|\/)poetry\.lock$/i`. */
  predicate CanResolve(filename: string)
  {
    EndsWithFileNameIgnoringCase(filename, FileName)
  }

  /** The resolver claims exactly the paths whose last segment is `poetry.lock` in any letter case. */
  lemma CanResolveMeaning(filename: string)
    ensures CanResolve(filename) <==> ToLower(LastSegment(filename)) == FileName
  {
    EndsWithFileNameMeaning(filename, FileName);
  }

  /** The guard of the loop: a table that has both a `name` and a `version` key. */
  predicate IsComplete(item: Entry<PoetryPackage>)
  {
    item.Object? && item.fields.name.Some? && item.fields.version.Some?
  }

  /** A table with both a name and a version is kept; `category = "dev"` sends it to the development list. */
  function Classify(item: Entry<PoetryPackage>): Outcome
  {
    if IsComplete(item) then
      Keep(Package(item.fields.name.value, item.fields.version.value), item.fields.category == Str("dev"))
    else Skip
  }

  /** The resolution of a parsed `poetry.lock`, or the error that parsing raised. */
  function ResolutionOf(doc: Parsed<Entry<Lockfile>>): Result<Resolution>
  {
    var lockfile := ParseObject("TOML", doc);
    if lockfile.Failure? then Failure(ParseFailedPrefix + lockfile.message)
    else if lockfile.value.package.None? then Success(Resolution([], []))
    else Success(Resolved(Outcomes(lockfile.value.package.value, Classify)))
  }

  /** `resolve` (`parseContent`) after the file is read and handed to the TOML parser. */
  method Resolve(doc: Parsed<Entry<Lockfile>>) returns (r: Result<Resolution>)
    ensures r == ResolutionOf(doc)
  {
    var lockfile := ParseObject("TOML", doc);
    if lockfile.Failure? {
      return Failure(ParseFailedPrefix + lockfile.message);
    }
    var dependencies, devDependencies := [], [];
    if lockfile.value.package.Some? {
      var items := lockfile.value.package.value;
      ghost var outs: seq<Outcome> := [];
      for i := 0 to |items|
        invariant outs == Outcomes(items[..i], Classify)
        invariant dependencies == Routed(outs, false) && devDependencies == Routed(outs, true)
      {
        var pkg := items[i];
        ghost var o := Classify(pkg);
        OutcomesStep(items, Classify, i);
        RoutedSnoc(outs, o, false);
        RoutedSnoc(outs, o, true);
        if IsComplete(pkg) {
          var packageInfo := Package(pkg.fields.name.value, pkg.fields.version.value);
          var isDev := pkg.fields.category == Str("dev");
          if isDev {
            devDependencies := devDependencies + [packageInfo];
          } else {
            dependencies := dependencies + [packageInfo];
          }
        }
        outs := outs + [o];
      }
      assert items[..|items|] == items;
    }
    r := Success(Resolution(dependencies, devDependencies));
  }

  // ---------------------------------------------------------------------------
  // Properties

  /**
   * A package is a development dependency exactly when some table with its
   * name and version has `category = "dev"`, and a production dependency
   * exactly when some such table has any other category or none.
   */
  lemma ResolvedMember(items: seq<Entry<PoetryPackage>>, p: Package, dev: bool)
    ensures p in Routed(Outcomes(items, Classify), dev)
      <==> exists i :: 0 <= i < |items| && Lists(items[i], p, dev)
  {
    OutcomesMember(items, Classify, dev, p);
  }

  /** The table names `p` with its version, and its category selects the list `dev`. */
  predicate Lists(item: Entry<PoetryPackage>, p: Package, dev: bool)
  {
    item.Object? && item.fields.name == Some(p.name) && item.fields.version == Some(p.version)
    && (item.fields.category == Str("dev") <==> dev)
  }

  /** Each table with a name and a version appears exactly once across the two lists. */
  lemma EveryTableOnce(items: seq<Entry<PoetryPackage>>)
    ensures |Routed(Outcomes(items, Classify), false)| + |Routed(Outcomes(items, Classify), true)|
      == |set i | 0 <= i < |items| && IsComplete(items[i])|
  {
    OutcomesPartition(items, Classify);
    assert KeptIndices(items, Classify) == set i | 0 <= i < |items| && IsComplete(items[i]);
  }

  /** A `package` value that is not an array resolves to two empty lists. */
  lemma PackageNotArray(lockfile: Lockfile)
    requires lockfile.package.None?
    ensures ResolutionOf(Parsed(Object(lockfile))) == Success(Resolution([], []))
  {
  }

  /** A document that is not a table is refused with the wrapped loader message. */
  lemma NotAnObject(doc: Entry<Lockfile>)
    requires !doc.Object?
    ensures ResolutionOf(Parsed(doc)) == Failure(ParseFailedPrefix + "Failed to parse TOML: Parsed TOML is not an object")
  {
    NotAnObjectRefused("TOML", doc);
  }
}
