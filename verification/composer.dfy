/**
 * The Composer resolver: `composer.lock` is JSON whose `packages` and
 * `packages-dev` arrays list the installed packages with their `name` and
 * `version`.
 */
module Composer {
  import opened Strings
  import opened Model

  /** A package record, with its `name` and `version` when those fields are present. */
  datatype ComposerPackage = ComposerPackage(name: Option<string>, version: Option<string>)

  /** The lockfile's two arrays, when present and truthy. */
  datatype Lockfile = Lockfile(
    packages: Option<seq<Entry<ComposerPackage>>>,
    packagesDev: Option<seq<Entry<ComposerPackage>>>)

  const FileName := "composer.lock"
  const ParseFailedPrefix := "Failed to parse composer.lock: "

  /** `canResolve`: `/(^|\/)composer\.lock$/i`. */
  predicate CanResolve(filename: string)
  {
    EndsWithFileNameIgnoringCase(filename, FileName)
  }

  /** The resolver claims exactly the paths whose last segment is `composer.lock` in any letter case. */
  lemma CanResolveMeaning(filename: string)
    ensures CanResolve(filename) <==> ToLower(LastSegment(filename)) == FileName
  {
    EndsWithFileNameMeaning(filename, FileName);
  }

  /** An item is taken when it is an object with both a `name` and a `version` field. */
  predicate IsComplete(item: Entry<ComposerPackage>)
  {
    item.Object? && item.fields.name.Some? && item.fields.version.Some?
  }

  /** The packages of the complete items, in order. */
  function Collected(items: seq<Entry<ComposerPackage>>): (r: seq<Package>)
    ensures |r| <= |items|
  {
    if items == [] then []
    else
      var last := items[|items| - 1];
      Collected(items[..|items| - 1])
        + (if IsComplete(last) then [Package(last.fields.name.value, last.fields.version.value)] else [])
  }

  /** A section that is absent contributes nothing. */
  function Section(section: Option<seq<Entry<ComposerPackage>>>): seq<Package>
  {
    if section.None? then [] else Collected(section.value)
  }

  /** The resolution of a parsed `composer.lock`, or the error that parsing raised. */
  function ResolutionOf(doc: Parsed<Entry<Lockfile>>): Result<Resolution>
  {
    var lockfile := ParseObject("JSON", doc);
    if lockfile.Failure? then Failure(ParseFailedPrefix + lockfile.message)
    else Success(Resolution(Section(lockfile.value.packages), Section(lockfile.value.packagesDev)))
  }

  /** One of the two loops of `resolve`: the complete items of one array, in order. */
  method CollectPackages(items: seq<Entry<ComposerPackage>>) returns (list: seq<Package>)
    ensures list == Collected(items)
  {
    list := [];
    for i := 0 to |items|
      invariant list == Collected(items[..i])
    {
      var pkg := items[i];
      assert items[..i + 1][..i] == items[..i];
      if pkg.Object? && pkg.fields.name.Some? && pkg.fields.version.Some? {
        list := list + [Package(pkg.fields.name.value, pkg.fields.version.value)];
      }
    }
    assert items[..|items|] == items;
  }

  /** `resolve` after the file is read and handed to the JSON parser. */
  method Resolve(doc: Parsed<Entry<Lockfile>>) returns (r: Result<Resolution>)
    ensures r == ResolutionOf(doc)
  {
    var lockfile := ParseObject("JSON", doc);
    if lockfile.Failure? {
      return Failure(ParseFailedPrefix + lockfile.message);
    }
    var dependencies, devDependencies := [], [];
    if lockfile.value.packages.Some? {
      dependencies := CollectPackages(lockfile.value.packages.value);
    }
    if lockfile.value.packagesDev.Some? {
      devDependencies := CollectPackages(lockfile.value.packagesDev.value);
    }
    r := Success(Resolution(dependencies, devDependencies));
  }

  // ---------------------------------------------------------------------------
  // Properties

  /** A package is collected exactly when some complete item carries its name and version. */
  lemma {:induction false} CollectedMember(items: seq<Entry<ComposerPackage>>, p: Package)
    ensures p in Collected(items)
      <==> exists i :: 0 <= i < |items| && items[i] == Object(ComposerPackage(Some(p.name), Some(p.version)))
  {
    if items != [] {
      var init := items[..|items| - 1];
      CollectedMember(init, p);
      if p in Collected(init) {
        var i :| 0 <= i < |init| && init[i] == Object(ComposerPackage(Some(p.name), Some(p.version)));
        assert items[i] == init[i];
      }
      if exists i :: 0 <= i < |items| && items[i] == Object(ComposerPackage(Some(p.name), Some(p.version))) {
        var i :| 0 <= i < |items| && items[i] == Object(ComposerPackage(Some(p.name), Some(p.version)));
        if i < |init| {
          assert init[i] == items[i];
        }
      }
    }
  }

  /** One package per complete item: nothing is merged, dropped or invented. */
  lemma {:induction false} CollectedCount(items: seq<Entry<ComposerPackage>>)
    ensures |Collected(items)| == |set i | 0 <= i < |items| && IsComplete(items[i])|
  {
    if items != [] {
      var n := |items| - 1;
      var init := items[..n];
      CollectedCount(init);
      var before := set i | 0 <= i < n && IsComplete(init[i]);
      var after := set i | 0 <= i < |items| && IsComplete(items[i]);
      if IsComplete(items[n]) {
        assert after == before + {n};
      } else {
        assert after == before;
      }
    }
  }

  /** Production packages come from `packages` alone and development packages from `packages-dev` alone. */
  lemma SectionsIndependent(lockfile: Lockfile)
    ensures var r := ResolutionOf(Parsed(Object(lockfile)));
      r.Success?
      && r.value.dependencies == Section(lockfile.packages)
      && r.value.devDependencies == Section(lockfile.packagesDev)
  {
  }

  /** A document that is not an object is refused with the wrapped loader message. */
  lemma NotAnObject(doc: Entry<Lockfile>)
    requires !doc.Object?
    ensures ResolutionOf(Parsed(doc))
      == Failure(ParseFailedPrefix + "Failed to parse JSON: Parsed JSON is not an object")
  {
    NotAnObjectRefused("JSON", doc);
  }
}
