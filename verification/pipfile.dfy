/**
 * The Pipfile resolver: `Pipfile.lock` is read as JSON whose `default` and
 * `develop` sections map package names to records with a version
 * specifier such as `==1.0.0`.
 */
module Pipfile {
  import opened Strings
  import opened Model
  import opened Patterns
  import opened Routing

  /** A package record: its `version` value, `Missing` when the key is absent. */
  datatype PipEntry = PipEntry(version: FieldValue)

  /** A section as `Object.entries` lists it: name and record, in order. */
  type Section = seq<(string, Entry<PipEntry>)>

  /** The two sections, `None` when the value is falsy. */
  datatype Lockfile = Lockfile(default: Option<Section>, develop: Option<Section>)

  const FileName := "Pipfile.lock"
  const NullErrorMessage := "Cannot read properties of null (reading 'default')"

  /** `canResolve`: the basename (`split("/").pop() || filename`) is `Pipfile.lock` or ends with `/Pipfile.lock`. */
  predicate CanResolve(filename: string)
  {
    var basename := PopOrSelf(filename);
    basename == FileName || EndsWith(basename, "/" + FileName)
  }

  /** The resolver claims exactly the paths whose last segment is `Pipfile.lock`, in that letter case. */
  lemma CanResolveMeaning(filename: string)
    ensures CanResolve(filename) <==> LastSegment(filename) == FileName
  {
    PopOrSelfIs(filename, FileName);
  }

  /**
   * `extractVersionFromPipfile`: nothing for a non-string; otherwise the
   * first `\d+\.\d+\.\d+[^\s,]*` token, else the first
   * `\d+\.\d+(?:\.\d+)?(?:[a-zA-Z0-9.-]*)?` token, else nothing.
   */
  function ExtractVersion(version: FieldValue): (r: Option<string>)
    ensures r.Some? ==> version.Str? && r.value != ""
  {
    if !version.Str? then None
    else
      var versionMatch := TripleMatch(version.text, true);
      if versionMatch.Some? then versionMatch
      else PairMatch(version.text)
  }

  /**
   * The decision on one record of a section: an object whose version
   * extracts to something is kept under its name. The list it goes to is
   * chosen by the section, not by the record.
   */
  function Classify(entry: (string, Entry<PipEntry>)): Outcome
  {
    if entry.1.Object? && ExtractVersion(entry.1.fields.version).Some? then
      Keep(Package(entry.0, ExtractVersion(entry.1.fields.version).value), false)
    else Skip
  }

  /** The packages of one section, in order. */
  function Collected(section: Section): seq<Package>
  {
    Routed(Outcomes(section, Classify), false)
  }

  /** A falsy section contributes nothing. */
  function FromSection(section: Option<Section>): seq<Package>
  {
    if section.None? then [] else Collected(section.value)
  }

  /**
   * The resolution of `JSON.parse` of the file: a syntax error propagates, a
   * `null` document fails on reading `default`, and any other non-object
   * document has neither section.
   */
  function ResolutionOf(doc: Parsed<Entry<Lockfile>>): Result<Resolution>
  {
    match doc
    case ParseError(message) => Failure(message)
    case Parsed(Null) => Failure(NullErrorMessage)
    case Parsed(Object(lockfile)) => Success(Resolution(FromSection(lockfile.default), FromSection(lockfile.develop)))
    case Parsed(_) => Success(Resolution([], []))
  }

  /** One of the two loops of `parseContent`: the packages of one section, in order. */
  method CollectSection(section: Section) returns (list: seq<Package>)
    ensures list == Collected(section)
  {
    list := [];
    ghost var outs: seq<Outcome> := [];
    for i := 0 to |section|
      invariant outs == Outcomes(section[..i], Classify)
      invariant list == Routed(outs, false)
    {
      var name, pkg := section[i].0, section[i].1;
      ghost var o := Classify(section[i]);
      OutcomesStep(section, Classify, i);
      RoutedSnoc(outs, o, false);
      if pkg.Object? && pkg.fields.version != Missing {
        var version := ExtractVersion(pkg.fields.version);
        if version.Some? {
          list := list + [Package(name, version.value)];
        }
      }
      outs := outs + [o];
    }
    assert section[..|section|] == section;
  }

  /** `resolve` (`parseContent`) after the file is read and handed to `JSON.parse`. */
  method Resolve(doc: Parsed<Entry<Lockfile>>) returns (r: Result<Resolution>)
    ensures r == ResolutionOf(doc)
  {
    if doc.ParseError? {
      return Failure(doc.message);
    }
    if doc.value == Null {
      return Failure(NullErrorMessage);
    }
    var dependencies, devDependencies := [], [];
    if doc.value.Object? {
      if doc.value.fields.default.Some? {
        dependencies := CollectSection(doc.value.fields.default.value);
      }
      if doc.value.fields.develop.Some? {
        devDependencies := CollectSection(doc.value.fields.develop.value);
      }
    }
    r := Success(Resolution(dependencies, devDependencies));
  }

  // ---------------------------------------------------------------------------
  // Properties

  /** A pinned specifier `==v`, with `v` a three-part version free of spaces and commas, gives `v`. */
  lemma PinnedVersion(v: string)
    requires TripleAt(v, 0) && forall k :: 0 <= k < |v| ==> !IsStop(v[k], true)
    ensures ExtractVersion(Str("==" + v)) == Some(v)
  {
    TripleAfterPrefix("==", v, "", true);
    assert "==" + v + "" == "==" + v;
  }

  /** A range `>=v,<rest` gives its lower bound `v`. */
  lemma LowerBoundOfRange(v: string, rest: string)
    requires TripleAt(v, 0) && forall k :: 0 <= k < |v| ==> !IsStop(v[k], true)
    ensures ExtractVersion(Str(">=" + v + ",<" + rest)) == Some(v)
  {
    TripleAfterPrefix(">=", v, ",<" + rest, true);
    assert ">=" + v + ",<" + rest == ">=" + v + (",<" + rest);
  }

  /** Without a three-part version, the two-part fallback decides; without either there is none. */
  lemma FallbackVersion(text: string)
    requires forall k :: 0 <= k <= |text| ==> !TripleAt(text, k)
    ensures ExtractVersion(Str(text)) == PairMatch(text)
    ensures ExtractVersion(Str(text)).None? <==> forall k :: 0 <= k <= |text| ==> !PairAt(text, k)
  {
    TripleMatchSpec(text, true);
    PairMatchSpec(text);
  }

  /** A record yields `p` when it is an object whose version extracts to `p.version`, under the name `p.name`. */
  predicate Yields(entry: (string, Entry<PipEntry>), p: Package)
  {
    entry.0 == p.name && entry.1.Object? && ExtractVersion(entry.1.fields.version) == Some(p.version)
  }

  /** A package is collected exactly when some record of the section yields it. */
  lemma CollectedMember(section: Section, p: Package)
    ensures p in Collected(section) <==> exists i :: 0 <= i < |section| && Yields(section[i], p)
  {
    OutcomesMember(section, Classify, false, p);
    forall i | 0 <= i < |section|
      ensures Classify(section[i]) == Keep(p, false) <==> Yields(section[i], p)
    {
    }
  }

  /** Production packages come from `default` alone and development packages from `develop` alone. */
  lemma SectionsIndependent(lockfile: Lockfile)
    ensures ResolutionOf(Parsed(Object(lockfile)))
      == Success(Resolution(FromSection(lockfile.default), FromSection(lockfile.develop)))
  {
  }
}
