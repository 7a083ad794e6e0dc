/**
 * The PDM resolver: `pdm.lock` is read as JSON whose `package` array lists
 * every locked package; a package in the `dev` group, or flagged
 * `dev = true`, is a development dependency.
 */
module Pdm {
  import opened Strings
  import opened Model
  import opened Routing

  /**
   * A package record: `name` and `version` as `String(...)` renders them when
   * the keys are present, the `groups` value when it is an array, and whether
   * `dev === true`.
   */
  datatype PdmPackage = PdmPackage(name: Option<string>, version: Option<string>, groups: Option<seq<FieldValue>>, dev: bool)

  /** The document's `package` value when it is an array, else `None`. */
  datatype Lockfile = Lockfile(package: Option<seq<Entry<PdmPackage>>>)

  const FileName := "pdm.lock"
  const NullErrorMessage := "Cannot read properties of null (reading 'package')"

  /** `canResolve`: the basename (`split("/").pop() || filename`) is `pdm.lock` or ends with `/pdm.lock`. */
  predicate CanResolve(filename: string)
  {
    var basename := PopOrSelf(filename);
    basename == FileName || EndsWith(basename, "/" + FileName)
  }

  /** The resolver claims exactly the paths whose last segment is `pdm.lock`. */
  lemma CanResolveMeaning(filename: string)
    ensures CanResolve(filename) <==> LastSegment(filename) == FileName
  {
    PopOrSelfIs(filename, FileName);
  }

  /** The guard of the loop: a record that has both a `name` and a `version` key. */
  predicate IsComplete(item: Entry<PdmPackage>)
  {
    item.Object? && item.fields.name.Some? && item.fields.version.Some?
  }

  /** `groups` is an array holding the string `"dev"`, or `dev` is `true`. */
  predicate IsDev(pkg: PdmPackage)
  {
    (pkg.groups.Some? && Str("dev") in pkg.groups.value) || pkg.dev
  }

  /** A complete record is kept, for the development list when it is a dev package. */
  function Classify(item: Entry<PdmPackage>): Outcome
  {
    if IsComplete(item) then
      Keep(Package(item.fields.name.value, item.fields.version.value), IsDev(item.fields))
    else Skip
  }

  /**
   * The resolution of `JSON.parse` of the file: a syntax error propagates, a
   * `null` document fails on reading `package`, and any other non-object
   * document has no `package` array.
   */
  function ResolutionOf(doc: Parsed<Entry<Lockfile>>): Result<Resolution>
  {
    match doc
    case ParseError(message) => Failure(message)
    case Parsed(Null) => Failure(NullErrorMessage)
    case Parsed(Object(lockfile)) =>
      if lockfile.package.None? then Success(Resolution([], []))
      else Success(Resolved(Outcomes(lockfile.package.value, Classify)))
    case Parsed(_) => Success(Resolution([], []))
  }

  /** `resolve` (`parseContent`) after the file is read and handed to `JSON.parse`. */
  method Resolve(doc: Parsed<Entry<Lockfile>>) returns (r: Result<Resolution>)
    ensures r == ResolutionOf(doc)
  {
    if doc.ParseError? {
      return Failure(doc.message);
    }
    if doc.value == Null {
      return Failure(NullErrorMessage);
    }
    var dependencies, devDependencies := [], [];
    if doc.value.Object? && doc.value.fields.package.Some? {
      var items := doc.value.fields.package.value;
      ghost var outs: seq<Outcome> := [];
      for i := 0 to |items|
        invariant outs == Outcomes(items[..i], Classify)
        invariant dependencies == Routed(outs, false) && devDependencies == Routed(outs, true)
      {
        var pkg := items[i];
        ghost var o := Classify(pkg);
        OutcomesStep(items, Classify, i);
        RoutedSnoc(outs, o, false);
        RoutedSnoc(outs, o, true);
        if IsComplete(pkg) {
          var packageInfo := Package(pkg.fields.name.value, pkg.fields.version.value);
          var isDev := (pkg.fields.groups.Some? && Str("dev") in pkg.fields.groups.value) || pkg.fields.dev;
          if isDev {
            devDependencies := devDependencies + [packageInfo];
          } else {
            dependencies := dependencies + [packageInfo];
          }
        }
        outs := outs + [o];
      }
      assert items[..|items|] == items;
    }
    r := Success(Resolution(dependencies, devDependencies));
  }

  // ---------------------------------------------------------------------------
  // Properties

  /** The record names `p` with its version, and its groups or flag select the list `dev`. */
  predicate Lists(item: Entry<PdmPackage>, p: Package, dev: bool)
  {
    item.Object? && item.fields.name == Some(p.name) && item.fields.version == Some(p.version)
    && (IsDev(item.fields) <==> dev)
  }

  /** A package is in a list exactly when some record with its name and version is routed there. */
  lemma ResolvedMember(items: seq<Entry<PdmPackage>>, p: Package, dev: bool)
    ensures p in Routed(Outcomes(items, Classify), dev) <==> exists i :: 0 <= i < |items| && Lists(items[i], p, dev)
  {
    OutcomesMember(items, Classify, dev, p);
  }

  /** Each record with a name and a version appears exactly once across the two lists. */
  lemma EveryRecordOnce(items: seq<Entry<PdmPackage>>)
    ensures |Routed(Outcomes(items, Classify), false)| + |Routed(Outcomes(items, Classify), true)|
      == |set i | 0 <= i < |items| && IsComplete(items[i])|
  {
    OutcomesPartition(items, Classify);
    assert KeptIndices(items, Classify) == set i | 0 <= i < |items| && IsComplete(items[i]);
  }

  /** Either marker alone makes a record a development dependency. */
  lemma EitherMarkerIsDev(name: string, version: string, groups: seq<FieldValue>, dev: bool)
    requires Str("dev") in groups || dev
    ensures Classify(Object(PdmPackage(Some(name), Some(version), Some(groups), dev))) == Keep(Package(name, version), true)
  {
  }

  /** A `groups` value that is not an array counts for nothing; only the flag decides then. */
  lemma GroupsNotArray(name: string, version: string, dev: bool)
    ensures Classify(Object(PdmPackage(Some(name), Some(version), None, dev))) == Keep(Package(name, version), dev)
  {
  }
}
