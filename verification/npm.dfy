/**
 * The npm resolver: reads `package-lock.json` (lockfile versions 1, 2 and 3)
 * and keeps the top-level packages, sending to the development list those
 * flagged `dev: true` (and, in version 1, everything under `devDependencies`).
 */
module Npm {
  import opened Strings
  import opened Model
  import opened Routing

  /**
   * An entry of a `dependencies` or `packages` record: its `version` when the
   * key is present, whether `dev === true`, and the nested record (never read).
   */
  datatype Dependency = Dependency(version: Option<string>, dev: bool, dependencies: seq<(string, Entry<Dependency>)>)

  /** `lockfileVersion`: absent (or `null`), an integral number, or any other value with its text. */
  datatype LockfileVersion = Absent | Number(n: int) | OtherValue(text: string)

  /** The fields the resolver reads; an absent record has no entries. */
  datatype Lockfile = Lockfile(
    lockfileVersion: LockfileVersion,
    packages: seq<(string, Entry<Dependency>)>,
    dependencies: seq<(string, Entry<Dependency>)>,
    devDependencies: seq<(string, Entry<Dependency>)>)

  /** The lockfile a document without the fields reads as. */
  const EmptyLockfile := Lockfile(Absent, [], [], [])

  const TypeErrorMessage := "Cannot use 'in' operator to search for 'version'"
  const NullErrorMessage := "Cannot read properties of null (reading 'lockfileVersion')"

  function UnsupportedMessage(text: string): string
  {
    "Unsupported lockfileVersion: " + text + ". Only versions 1, 2, and 3 are supported."
  }

  const FileName := "package-lock.json"

  /** `canResolve`: the name is `package-lock.json` or ends with `/package-lock.json`. */
  predicate CanResolve(filename: string)
  {
    filename == FileName || EndsWith(filename, "/" + FileName)
  }

  /** The resolver claims exactly the paths whose last segment is `package-lock.json`. */
  lemma CanResolveMeaning(filename: string)
    ensures CanResolve(filename) <==> LastSegment(filename) == FileName
  {
    LastSegmentIs(filename, FileName);
  }

  /** The number of segments equal to `x`. */
  function Count(parts: seq<string>, x: string): nat
  {
    if |parts| == 0 then 0 else (if parts[0] == x then 1 else 0) + Count(parts[1..], x)
  }

  /**
   * `extractPackageName`: none for the root key `""`; a key without a
   * `node_modules` segment is a name already; a key with exactly one such
   * segment names what follows it; a key with several is a nested module.
   */
  function ExtractPackageName(key: string): Option<string>
  {
    if key == "" then None
    else
      var parts := Split(key, '/');
      var index := SeqIndexOf(parts, "node_modules");
      if index == -1 then Some(key)
      else if Count(parts, "node_modules") != 1 then None
      else Some(Join(parts[index + 1..], '/'))
  }

  /** What one entry of a record contributes, or the `TypeError` of `"version" in dep` on a primitive. */
  function Classify(key: string, dep: Entry<Dependency>, forceDev: bool): (r: Result<Outcome>)
    ensures r.Failure? <==> dep == Scalar(true)
  {
    match dep
    case Null => Success(Skip)
    case Scalar(truthy) => if truthy then Failure(TypeErrorMessage) else Success(Skip)
    case Array => Success(Skip)
    case Object(d) =>
      if d.version.None? then Success(Skip)
      else
        var name := ExtractPackageName(key);
        if name.None? || name.value == "" then Success(Skip)
        else Success(Keep(Package(name.value, d.version.value), forceDev || d.dev))
  }

  /** Some entry of the record is a truthy primitive, which `"version" in dep` rejects. */
  predicate HoldsTruthyPrimitive(deps: seq<(string, Entry<Dependency>)>)
  {
    exists i :: 0 <= i < |deps| && deps[i].1 == Scalar(true)
  }

  /** The outcomes of a record's entries in order, or the first failure. */
  function ExtractOutcomes(deps: seq<(string, Entry<Dependency>)>, forceDev: bool): (r: Result<seq<Outcome>>)
    ensures r.Failure? <==> HoldsTruthyPrimitive(deps)
    ensures r.Failure? ==> r.message == TypeErrorMessage
    ensures r.Success? ==> |r.value| == |deps|
  {
    if |deps| == 0 then Success([])
    else
      var init := deps[..|deps| - 1];
      var last := deps[|deps| - 1];
      var prefix := ExtractOutcomes(init, forceDev);
      assert HoldsTruthyPrimitive(deps) <==> HoldsTruthyPrimitive(init) || last.1 == Scalar(true) by {
        assert forall i :: 0 <= i < |init| ==> init[i] == deps[i];
      }
      if prefix.Failure? then prefix
      else
        var o := Classify(last.0, last.1, forceDev);
        if o.Failure? then Failure(o.message) else Success(prefix.value + [o.value])
  }

  /**
   * `extractDependencies`: appends the kept packages of a record to the two
   * lists it is given, in entry order; `forceDev` sends every one of them to
   * the development list.
   */
  method ExtractDependencies(deps: seq<(string, Entry<Dependency>)>, dependencies: seq<Package>,
                             devDependencies: seq<Package>, forceDev: bool)
    returns (r: Result<Resolution>)
    ensures var outs := ExtractOutcomes(deps, forceDev);
      r == if outs.Failure? then Failure(outs.message)
           else Success(Resolution(dependencies + Routed(outs.value, false), devDependencies + Routed(outs.value, true)))
  {
    var prod, dev := dependencies, devDependencies;
    ghost var outs: seq<Outcome> := [];
    for i := 0 to |deps|
      invariant ExtractOutcomes(deps[..i], forceDev) == Success(outs)
      invariant prod == dependencies + Routed(outs, false)
      invariant dev == devDependencies + Routed(outs, true)
    {
      var key, dep := deps[i].0, deps[i].1;
      if dep == Scalar(true) {
        ExtractFails(deps, i, forceDev);
        return Failure(TypeErrorMessage);
      }
      ghost var o := Classify(key, dep, forceDev).value;
      ExtractStep(deps, i, forceDev);
      RoutedSnoc(outs, o, false);
      RoutedSnoc(outs, o, true);
      ClassifyEmits(key, dep, forceDev);
      if dep.Object? && dep.fields.version.Some? {
        var packageName := ExtractPackageName(key);
        if packageName.Some? && packageName.value != "" {
          var packageInfo := Package(packageName.value, dep.fields.version.value);
          if forceDev || dep.fields.dev {
            AppendAssoc(devDependencies, Routed(outs, true), [packageInfo]);
            dev := dev + [packageInfo];
          } else {
            AppendAssoc(dependencies, Routed(outs, false), [packageInfo]);
            prod := prod + [packageInfo];
          }
        }
      }
      outs := outs + [o];
    }
    assert deps[..|deps|] == deps;
    r := Success(Resolution(prod, dev));
  }

  /** What one entry appends to each list, in the terms of the loop body. */
  lemma ClassifyEmits(key: string, dep: Entry<Dependency>, forceDev: bool)
    requires dep != Scalar(true)
    ensures var o, name := Classify(key, dep, forceDev).value, ExtractPackageName(key);
      var kept := dep.Object? && dep.fields.version.Some? && name.Some? && name.value != "";
      Emitted(o, true) == (if kept && (forceDev || dep.fields.dev) then [Package(name.value, dep.fields.version.value)] else [])
      && Emitted(o, false) == (if kept && !(forceDev || dep.fields.dev) then [Package(name.value, dep.fields.version.value)] else [])
  {
  }

  /** Each outcome is the classification of the entry at the same position. */
  lemma {:induction false} OutcomesAt(deps: seq<(string, Entry<Dependency>)>, forceDev: bool, i: nat)
    requires ExtractOutcomes(deps, forceDev).Success? && i < |deps|
    ensures Classify(deps[i].0, deps[i].1, forceDev) == Success(ExtractOutcomes(deps, forceDev).value[i])
  {
    var init := deps[..|deps| - 1];
    if i < |init| {
      assert init[i] == deps[i];
      OutcomesAt(init, forceDev, i);
    }
  }

  /** A truthy primitive anywhere makes the whole record fail. */
  lemma ExtractFails(deps: seq<(string, Entry<Dependency>)>, i: nat, forceDev: bool)
    requires i < |deps| && deps[i].1 == Scalar(true)
    ensures ExtractOutcomes(deps, forceDev) == Failure(TypeErrorMessage)
  {
    assert HoldsTruthyPrimitive(deps);
  }

  /** One more entry extends the outcomes of a prefix by that entry's outcome. */
  lemma ExtractStep(deps: seq<(string, Entry<Dependency>)>, i: nat, forceDev: bool)
    requires i < |deps| && ExtractOutcomes(deps[..i], forceDev).Success? && deps[i].1 != Scalar(true)
    ensures ExtractOutcomes(deps[..i + 1], forceDev)
      == Success(ExtractOutcomes(deps[..i], forceDev).value + [Classify(deps[i].0, deps[i].1, forceDev).value])
  {
    assert deps[..i + 1][..i] == deps[..i];
  }

  /** Chains two extractions: the second record's packages follow the first's. */
  function Both(a: Result<seq<Outcome>>, b: Result<seq<Outcome>>): Result<Resolution>
  {
    if a.Failure? then Failure(a.message)
    else if b.Failure? then Failure(b.message)
    else Success(Resolved(a.value + b.value))
  }

  /** Version 1: `dependencies` by their own flag, then everything in `devDependencies` as development. */
  function Version1Resolution(lockfile: Lockfile): Result<Resolution>
  {
    Both(ExtractOutcomes(lockfile.dependencies, false), ExtractOutcomes(lockfile.devDependencies, true))
  }

  /** Versions 2 and 3: `packages`, then the backwards-compatible `dependencies`, both by their own flag. */
  function Version2Or3Resolution(lockfile: Lockfile): Result<Resolution>
  {
    Both(ExtractOutcomes(lockfile.packages, false), ExtractOutcomes(lockfile.dependencies, false))
  }

  /** The resolution of a parsed document, dispatched on `lockfileVersion ?? 1`. */
  function ResolutionOf(doc: Parsed<Entry<Lockfile>>): Result<Resolution>
  {
    match doc
    case ParseError(message) => Failure(message)
    case Parsed(Null) => Failure(NullErrorMessage)
    case Parsed(Object(lockfile)) => Dispatch(lockfile)
    case Parsed(_) => Dispatch(EmptyLockfile)
  }

  function Dispatch(lockfile: Lockfile): Result<Resolution>
  {
    match lockfile.lockfileVersion
    case Absent => Version1Resolution(lockfile)
    case Number(n) =>
      if n == 1 then Version1Resolution(lockfile)
      else if n == 2 || n == 3 then Version2Or3Resolution(lockfile)
      else Failure(UnsupportedMessage(IntToString(n)))
    case OtherValue(text) => Failure(UnsupportedMessage(text))
  }

  method ResolveVersion1(lockfile: Lockfile) returns (r: Result<Resolution>)
    ensures r == Version1Resolution(lockfile)
  {
    ghost var a := ExtractOutcomes(lockfile.dependencies, false);
    ghost var b := ExtractOutcomes(lockfile.devDependencies, true);
    r := ExtractDependencies(lockfile.dependencies, [], [], false);
    if r.Success? {
      assert [] + Routed(a.value, false) == Routed(a.value, false) && [] + Routed(a.value, true) == Routed(a.value, true);
      r := ExtractDependencies(lockfile.devDependencies, r.value.dependencies, r.value.devDependencies, true);
      if a.Success? && b.Success? {
        RoutedAppend(a.value, b.value, false);
        RoutedAppend(a.value, b.value, true);
      }
    }
  }

  method ResolveVersion2Or3(lockfile: Lockfile) returns (r: Result<Resolution>)
    ensures r == Version2Or3Resolution(lockfile)
  {
    ghost var a := ExtractOutcomes(lockfile.packages, false);
    ghost var b := ExtractOutcomes(lockfile.dependencies, false);
    r := ExtractDependencies(lockfile.packages, [], [], false);
    if r.Success? {
      assert [] + Routed(a.value, false) == Routed(a.value, false) && [] + Routed(a.value, true) == Routed(a.value, true);
      r := ExtractDependencies(lockfile.dependencies, r.value.dependencies, r.value.devDependencies, false);
      if a.Success? && b.Success? {
        RoutedAppend(a.value, b.value, false);
        RoutedAppend(a.value, b.value, true);
      }
    }
  }

  /** `resolve` after the file is read and handed to `JSON.parse`. */
  method Resolve(doc: Parsed<Entry<Lockfile>>) returns (r: Result<Resolution>)
    ensures r == ResolutionOf(doc)
  {
    if doc.ParseError? {
      return Failure(doc.message);
    }
    if doc.value == Null {
      return Failure(NullErrorMessage);
    }
    var lockfile := if doc.value.Object? then doc.value.fields else EmptyLockfile;
    match lockfile.lockfileVersion {
      case Absent =>
        r := ResolveVersion1(lockfile);
      case Number(n) =>
        if n == 1 {
          r := ResolveVersion1(lockfile);
        } else if n == 2 || n == 3 {
          r := ResolveVersion2Or3(lockfile);
        } else {
          r := Failure(UnsupportedMessage(IntToString(n)));
        }
      case OtherValue(text) =>
        r := Failure(UnsupportedMessage(text));
    }
  }

  // ---------------------------------------------------------------------------
  // Properties

  /**
   * A missing `lockfileVersion` reads as version 1; versions 2 and 3 resolve
   * alike; every other number is refused with a message naming it.
   */
  lemma VersionDispatch(lockfile: Lockfile, n: int)
    ensures Dispatch(lockfile.(lockfileVersion := Absent)) == Dispatch(lockfile.(lockfileVersion := Number(1)))
    ensures Dispatch(lockfile.(lockfileVersion := Number(2))) == Dispatch(lockfile.(lockfileVersion := Number(3)))
    ensures n != 1 && n != 2 && n != 3 ==>
      Dispatch(lockfile.(lockfileVersion := Number(n))) == Failure(UnsupportedMessage(IntToString(n)))
  {
  }

  /** A record fails exactly when it holds a truthy primitive; otherwise a package is kept exactly when some entry calls for it. */
  lemma {:induction false} ExtractedMember(deps: seq<(string, Entry<Dependency>)>, forceDev: bool, p: Package, dev: bool)
    requires ExtractOutcomes(deps, forceDev).Success?
    ensures p in Routed(ExtractOutcomes(deps, forceDev).value, dev) <==>
      exists i :: 0 <= i < |deps| && KeptBy(deps[i].0, deps[i].1, forceDev, p, dev)
  {
    var outs := ExtractOutcomes(deps, forceDev).value;
    RoutedMember(outs, dev, p);
    if exists i :: 0 <= i < |outs| && outs[i] == Keep(p, dev) {
      var i :| 0 <= i < |outs| && outs[i] == Keep(p, dev);
      KeptAt(deps, forceDev, i, p, dev);
    }
    if exists i :: 0 <= i < |deps| && KeptBy(deps[i].0, deps[i].1, forceDev, p, dev) {
      var i :| 0 <= i < |deps| && KeptBy(deps[i].0, deps[i].1, forceDev, p, dev);
      KeptAt(deps, forceDev, i, p, dev);
    }
  }

  lemma KeptAt(deps: seq<(string, Entry<Dependency>)>, forceDev: bool, i: nat, p: Package, dev: bool)
    requires ExtractOutcomes(deps, forceDev).Success? && i < |deps|
    ensures ExtractOutcomes(deps, forceDev).value[i] == Keep(p, dev) <==> KeptBy(deps[i].0, deps[i].1, forceDev, p, dev)
  {
    OutcomesAt(deps, forceDev, i);
  }

  /**
   * The entry under `key` yields package `p` for the list `dev`: it is an
   * object with a version, its key names a non-empty package, and it goes to
   * the development list when forced or flagged.
   */
  ghost predicate KeptBy(key: string, dep: Entry<Dependency>, forceDev: bool, p: Package, dev: bool)
  {
    dep.Object? && dep.fields.version == Some(p.version)
    && ExtractPackageName(key) == Some(p.name) && p.name != ""
    && dev == (forceDev || dep.fields.dev)
  }

  /** In a version 1 lockfile, nothing under `devDependencies` reaches the production list. */
  lemma {:induction false} ForcedDevOnly(deps: seq<(string, Entry<Dependency>)>)
    requires ExtractOutcomes(deps, true).Success?
    ensures Routed(ExtractOutcomes(deps, true).value, false) == []
  {
    var outs := ExtractOutcomes(deps, true).value;
    forall i | 0 <= i < |outs| ensures !(outs[i].Keep? && outs[i].dev == false) {
      OutcomesAt(deps, true, i);
    }
    RoutedEmpty(outs, false);
  }

  /** Drops the nested records of every entry. */
  function StripNested(deps: seq<(string, Entry<Dependency>)>): (r: seq<(string, Entry<Dependency>)>)
    ensures |r| == |deps|
    ensures forall i :: 0 <= i < |deps| ==> r[i].0 == deps[i].0
    ensures forall i :: 0 <= i < |deps| && deps[i].1.Object? ==> r[i].1 == Object(deps[i].1.fields.(dependencies := []))
    ensures forall i :: 0 <= i < |deps| && !deps[i].1.Object? ==> r[i].1 == deps[i].1
  {
    seq(|deps|, i requires 0 <= i < |deps| =>
      (deps[i].0, if deps[i].1.Object? then Object(deps[i].1.fields.(dependencies := [])) else deps[i].1))
  }

  /** Nested `dependencies` records never contribute: resolving without them gives the same result. */
  lemma NestedIgnored(lockfile: Lockfile)
    ensures var stripped := lockfile.(packages := StripNested(lockfile.packages),
                                      dependencies := StripNested(lockfile.dependencies),
                                      devDependencies := StripNested(lockfile.devDependencies));
      Dispatch(lockfile) == Dispatch(stripped)
  {
    OutcomesIgnoreNested(lockfile.packages, false);
    OutcomesIgnoreNested(lockfile.dependencies, false);
    OutcomesIgnoreNested(lockfile.dependencies, true);
    OutcomesIgnoreNested(lockfile.devDependencies, true);
  }

  lemma {:induction false} OutcomesIgnoreNested(deps: seq<(string, Entry<Dependency>)>, forceDev: bool)
    ensures ExtractOutcomes(StripNested(deps), forceDev) == ExtractOutcomes(deps, forceDev)
    decreases |deps|
  {
    if |deps| > 0 {
      var n := |deps|;
      var s := StripNested(deps);
      assert s[..n - 1] == StripNested(deps[..n - 1]);
      OutcomesIgnoreNested(deps[..n - 1], forceDev);
      assert Classify(s[n - 1].0, s[n - 1].1, forceDev) == Classify(deps[n - 1].0, deps[n - 1].1, forceDev);
    }
  }

  // ---------------------------------------------------------------------------
  // Package names from path keys

  /** A key without a `node_modules` segment is already the package name. */
  lemma NameWithoutNodeModules(key: string)
    requires key != "" && "node_modules" !in Split(key, '/')
    ensures ExtractPackageName(key) == Some(key)
  {
  }

  /** A key with several `node_modules` segments is a nested module and yields no name. */
  lemma NameOfNestedModule(key: string)
    requires Count(Split(key, '/'), "node_modules") >= 2
    ensures ExtractPackageName(key) == None
  {
    CountPositive(Split(key, '/'), "node_modules");
  }

  lemma {:induction false} CountPositive(parts: seq<string>, x: string)
    requires Count(parts, x) > 0
    ensures x in parts
  {
    if parts[0] != x {
      CountPositive(parts[1..], x);
    }
  }

  lemma {:induction false} CountAbsent(parts: seq<string>, x: string)
    requires x !in parts
    ensures Count(parts, x) == 0
  {
    if |parts| > 0 {
      CountAbsent(parts[1..], x);
    }
  }

  lemma {:induction false} CountAppend(a: seq<string>, b: seq<string>, x: string)
    ensures Count(a + b, x) == Count(a, x) + Count(b, x)
  {
    if |a| > 0 {
      assert (a + b)[1..] == a[1..] + b;
      CountAppend(a[1..], b, x);
    } else {
      assert a + b == b;
    }
  }

  /**
   * A path `prefix/node_modules/rest` whose only `node_modules` segment is the
   * one shown names the package `rest`, scope included.
   */
  lemma NameAfterNodeModules(prefix: seq<string>, rest: seq<string>)
    requires "node_modules" !in prefix && "node_modules" !in rest
    requires forall i :: 0 <= i < |prefix| ==> '/' !in prefix[i]
    requires forall i :: 0 <= i < |rest| ==> '/' !in rest[i]
    ensures ExtractPackageName(Join(prefix + ["node_modules"] + rest, '/')) == Some(Join(rest, '/'))
  {
    var segs := prefix + ["node_modules"] + rest;
    SegmentsRejoin(prefix, rest);
    SegmentsIndex(prefix, rest);
    NameFromSegments(Join(segs, '/'), segs, |prefix|);
  }

  lemma SegmentsRejoin(prefix: seq<string>, rest: seq<string>)
    requires forall i :: 0 <= i < |prefix| ==> '/' !in prefix[i]
    requires forall i :: 0 <= i < |rest| ==> '/' !in rest[i]
    ensures var segs := prefix + ["node_modules"] + rest;
      Join(segs, '/') != "" && Split(Join(segs, '/'), '/') == segs
  {
    var segs := prefix + ["node_modules"] + rest;
    SegmentsSlashFree(prefix, rest);
    SplitJoin(segs, '/');
    assert segs == prefix + (["node_modules"] + rest);
    JoinNonEmpty(prefix, ["node_modules"] + rest);
  }

  lemma SegmentsIndex(prefix: seq<string>, rest: seq<string>)
    requires "node_modules" !in prefix && "node_modules" !in rest
    ensures var segs := prefix + ["node_modules"] + rest;
      SeqIndexOf(segs, "node_modules") == |prefix| && Count(segs, "node_modules") == 1
      && segs[|prefix| + 1..] == rest
  {
    var segs := prefix + ["node_modules"] + rest;
    assert segs[..|prefix|] == prefix;
    SeqIndexOfAt(segs, "node_modules", |prefix|);
    CountOnce(prefix, rest, "node_modules");
    assert segs[|prefix| + 1..] == rest;
  }

  lemma NameFromSegments(key: string, segs: seq<string>, k: nat)
    requires key != "" && Split(key, '/') == segs && k < |segs|
    requires SeqIndexOf(segs, "node_modules") == k && Count(segs, "node_modules") == 1
    ensures ExtractPackageName(key) == Some(Join(segs[k + 1..], '/'))
  {
  }

  lemma CountOnce(prefix: seq<string>, rest: seq<string>, x: string)
    requires x !in prefix && x !in rest
    ensures Count(prefix + [x] + rest, x) == 1
  {
    CountAppend(prefix + [x], rest, x);
    CountAppend(prefix, [x], x);
    CountAbsent(prefix, x);
    CountAbsent(rest, x);
  }

  lemma SegmentsSlashFree(prefix: seq<string>, rest: seq<string>)
    requires forall i :: 0 <= i < |prefix| ==> '/' !in prefix[i]
    requires forall i :: 0 <= i < |rest| ==> '/' !in rest[i]
    ensures var segs := prefix + ["node_modules"] + rest;
      forall i :: 0 <= i < |segs| ==> '/' !in segs[i]
  {
    var segs := prefix + ["node_modules"] + rest;
    forall i | 0 <= i < |segs| ensures '/' !in segs[i] {
      if i < |prefix| {
        assert segs[i] == prefix[i];
      } else if i > |prefix| {
        assert segs[i] == rest[i - |prefix| - 1];
      }
    }
  }

  /** The first occurrence of `x` is at `k` when it sits at `k` and not before. */
  lemma {:induction false} SeqIndexOfAt(parts: seq<string>, x: string, k: nat)
    requires k < |parts| && parts[k] == x && x !in parts[..k]
    ensures SeqIndexOf(parts, x) == k
  {
    if k > 0 {
      assert parts[0] == parts[..k][0];
      assert parts[1..][..k - 1] == parts[..k][1..];
      SeqIndexOfAt(parts[1..], x, k - 1);
    }
  }

  /** Joining onto a list that starts with a non-empty segment gives non-empty text. */
  lemma JoinNonEmpty(a: seq<string>, b: seq<string>)
    requires |b| > 0 && b[0] != ""
    ensures Join(a + b, '/') != ""
  {
    assert |Join(b, '/')| >= |b[0]|;
    if |a| == 0 {
      assert a + b == b;
    } else {
      JoinAppend(a, b, '/');
    }
  }
}
