/**
 * The semantic diff engine: two package lists are indexed by name (the last
 * occurrence of a name wins, the first occurrence fixes its position), and
 * every name is then reported at most once as removed, added or upgraded.
 */
module Diff {
  import opened Strings
  import opened Model
  import opened SemVer

  // ---------------------------------------------------------------------------
  // Version-change classification

  /**
   * `Number` applied to one dot-separated part of a version string, `None`
   * standing for `NaN`. Only runs of decimal digits are given a value; every
   * part the classifier reads from a valid version is one (`PartNumbersOfValid`).
   */
  function ToNumber(part: string): Option<nat>
  {
    if |part| >= 1 && AllDigits(part) then Some(DigitsValue(part)) else None
  }

  /** `s.split(".").map(Number)[k]`; an index past the end reads `undefined`, whose number is `NaN`. */
  function PartNumber(s: string, k: nat): Option<nat>
  {
    var parts := Split(s, '.');
    if k < |parts| then ToNumber(parts[k]) else None
  }

  /** JavaScript `!==` on numbers: `NaN` differs from everything, itself included. */
  predicate NumbersDiffer(a: Option<nat>, b: Option<nat>)
  {
    a.None? || b.None? || a.value != b.value
  }

  /**
   * The bucket of a version change: none when either version is invalid or
   * both have equal precedence; otherwise major when the first parts differ,
   * minor when the second parts differ, and patch for everything else.
   */
  function GetVersionChangeType(from: string, to: string): Option<VersionChange>
  {
    if !IsValid(from) || !IsValid(to) then None
    else if Compare(Parse(from).value, Parse(to).value) == 0 then None
    else if NumbersDiffer(PartNumber(from, 0), PartNumber(to, 0)) then Some(Major)
    else if NumbersDiffer(PartNumber(from, 1), PartNumber(to, 1)) then Some(Minor)
    else Some(Patch)
  }

  /** The first two parts of text split at `.`, when neither contains a `.`. */
  lemma SplitFirstTwo(a: string, b: string, rest: string)
    requires '.' !in a && '.' !in b
    ensures |Split(a + ['.'] + (b + ['.'] + rest), '.')| >= 2
    ensures Split(a + ['.'] + (b + ['.'] + rest), '.')[0] == a
    ensures Split(a + ['.'] + (b + ['.'] + rest), '.')[1] == b
  {
    SplitCons(a, '.', b + ['.'] + rest);
    SplitCons(b, '.', rest);
  }

  /** The canonical text of a version starts with its major and minor numerals. */
  lemma FormatHead(v: Version)
    ensures Format(v) == NatToString(v.major) + ['.'] + (NatToString(v.minor) + ['.'] +
      (NatToString(v.patch) + FormatIdentifiers('-', v.prerelease) + FormatIdentifiers('+', v.build)))
  {
  }

  /** The first two dot-separated parts of a valid version are its major and minor numerals. */
  lemma PartNumbersOfValid(s: string)
    requires IsValid(s)
    ensures PartNumber(s, 0) == Some(Parse(s).value.major)
    ensures PartNumber(s, 1) == Some(Parse(s).value.minor)
  {
    var v := Parse(s).value;
    ParseThenFormat(s);
    FormatHead(v);
    NumeralOmits(v.major, '.');
    NumeralOmits(v.minor, '.');
    SplitFirstTwo(NatToString(v.major), NatToString(v.minor),
      NatToString(v.patch) + FormatIdentifiers('-', v.prerelease) + FormatIdentifiers('+', v.build));
    DigitsValueOfNatToString(v.major);
    DigitsValueOfNatToString(v.minor);
  }

  /**
   * The classifier in terms of the parsed versions: it abstains exactly when
   * either version is invalid or their precedence is equal (only build
   * metadata differs); major and minor are decided by the parsed numbers, and
   * patch covers a patch or pre-release difference on the same major.minor.
   */
  lemma VersionChangeMeaning(from: string, to: string)
    ensures GetVersionChangeType(from, to).None? <==>
      !IsValid(from) || !IsValid(to) || Compare(Parse(from).value, Parse(to).value) == 0
    ensures GetVersionChangeType(from, to) == Some(Major) <==>
      IsValid(from) && IsValid(to) && Parse(from).value.major != Parse(to).value.major
    ensures GetVersionChangeType(from, to) == Some(Minor) <==>
      IsValid(from) && IsValid(to) && Parse(from).value.major == Parse(to).value.major
      && Parse(from).value.minor != Parse(to).value.minor
    ensures GetVersionChangeType(from, to) == Some(Patch) <==>
      IsValid(from) && IsValid(to)
      && Parse(from).value.major == Parse(to).value.major && Parse(from).value.minor == Parse(to).value.minor
      && (Parse(from).value.patch != Parse(to).value.patch || Parse(from).value.prerelease != Parse(to).value.prerelease)
  {
    if IsValid(from) && IsValid(to) {
      var a, b := Parse(from).value, Parse(to).value;
      PartNumbersOfValid(from);
      PartNumbersOfValid(to);
      ParseThenFormat(from);
      ParseThenFormat(to);
      CompareZeroIff(a, b);
    }
  }

  /** The bucket does not depend on the direction of the change. */
  lemma VersionChangeSymmetric(from: string, to: string)
    ensures GetVersionChangeType(from, to) == GetVersionChangeType(to, from)
  {
    if IsValid(from) && IsValid(to) {
      var a, b := Parse(from).value, Parse(to).value;
      CompareAntisymmetric(a, b);
      var f0, f1, t0, t1 := PartNumber(from, 0), PartNumber(from, 1), PartNumber(to, 0), PartNumber(to, 1);
      assert GetVersionChangeType(from, to) == if Compare(a, b) == 0 then None
        else if NumbersDiffer(f0, t0) then Some(Major) else if NumbersDiffer(f1, t1) then Some(Minor) else Some(Patch);
      assert GetVersionChangeType(to, from) == if Compare(b, a) == 0 then None
        else if NumbersDiffer(t0, f0) then Some(Major) else if NumbersDiffer(t1, f1) then Some(Minor) else Some(Patch);
    }
  }

  // ---------------------------------------------------------------------------
  // Name-keyed indexing of a package list

  predicate Distinct(names: seq<string>)
  {
    forall i, j :: 0 <= i < j < |names| ==> names[i] != names[j]
  }

  /** The keys of a `Map` filled from `pkgs` by name, in insertion order: each name at its first occurrence. */
  function KeysOf(pkgs: seq<Package>): seq<string>
  {
    if |pkgs| == 0 then []
    else
      var keys := KeysOf(pkgs[..|pkgs| - 1]);
      var name := pkgs[|pkgs| - 1].name;
      if name in keys then keys else keys + [name]
  }

  /** The values of a `Map` filled from `pkgs` by name: a later package replaces an earlier one. */
  function ValuesOf(pkgs: seq<Package>): map<string, Package>
  {
    if |pkgs| == 0 then map[]
    else ValuesOf(pkgs[..|pkgs| - 1])[pkgs[|pkgs| - 1].name := pkgs[|pkgs| - 1]]
  }

  /**
   * The index holds each name of the list exactly once, in both its key order
   * and its value map, and never a name the list lacks.
   */
  lemma {:induction false} IndexNames(pkgs: seq<Package>)
    ensures Distinct(KeysOf(pkgs))
    ensures forall n :: n in KeysOf(pkgs) <==> n in ValuesOf(pkgs)
    ensures forall n :: n in ValuesOf(pkgs) <==> exists i :: 0 <= i < |pkgs| && pkgs[i].name == n
  {
    if |pkgs| > 0 {
      var init := pkgs[..|pkgs| - 1];
      IndexNames(init);
      forall n ensures n in ValuesOf(pkgs) <==> exists i :: 0 <= i < |pkgs| && pkgs[i].name == n {
        if exists i :: 0 <= i < |init| && init[i].name == n {
          var i :| 0 <= i < |init| && init[i].name == n;
          assert pkgs[i].name == n;
        }
        if exists i :: 0 <= i < |pkgs| && pkgs[i].name == n {
          var i :| 0 <= i < |pkgs| && pkgs[i].name == n;
          if i < |init| { assert init[i].name == n; }
        }
      }
    }
  }

  /** For a repeated name, the index keeps the package of its last occurrence. */
  lemma {:induction false} IndexLastWins(pkgs: seq<Package>, i: nat)
    requires i < |pkgs|
    requires forall j :: i < j < |pkgs| ==> pkgs[j].name != pkgs[i].name
    ensures pkgs[i].name in ValuesOf(pkgs) && ValuesOf(pkgs)[pkgs[i].name] == pkgs[i]
  {
    if i < |pkgs| - 1 {
      IndexLastWins(pkgs[..|pkgs| - 1], i);
    }
  }

  /** Every indexed package is stored under its own name. */
  lemma {:induction false} IndexValuesNamed(pkgs: seq<Package>)
    ensures forall n :: n in ValuesOf(pkgs) ==> ValuesOf(pkgs)[n].name == n
  {
    if |pkgs| > 0 {
      IndexValuesNamed(pkgs[..|pkgs| - 1]);
    }
  }

  /** A JavaScript `Map<string, Package>`: keys in insertion order, and the value of each key. */
  class PackageMap {
    var keys: seq<string>
    var values: map<string, Package>

    ghost predicate Valid()
      reads this
    {
      Distinct(keys) && forall n :: n in keys <==> n in values
    }

    constructor()
      ensures Valid() && keys == [] && values == map[]
    {
      keys := [];
      values := map[];
    }

    /** `get`: the value stored under `name`, if any. */
    function Get(name: string): (r: Option<Package>)
      reads this
      ensures r.Some? <==> name in values
      ensures r.Some? ==> r.value == values[name]
    {
      if name in values then Some(values[name]) else None
    }

    /** `has` */
    predicate Has(name: string)
      reads this
    {
      name in values
    }

    /** `set`: a new key goes to the end; an existing key keeps its place and takes the new value. */
    method Set(name: string, pkg: Package)
      requires Valid()
      modifies this
      ensures Valid()
      ensures keys == if name in old(values) then old(keys) else old(keys) + [name]
      ensures values == old(values)[name := pkg]
    {
      if name !in values {
        keys := keys + [name];
      }
      values := values[name := pkg];
    }
  }

  /** Fills a fresh map from `pkgs` by name, as the first two loops of `diffPackages` do. */
  method Index(pkgs: seq<Package>) returns (m: PackageMap)
    ensures fresh(m) && m.Valid()
    ensures m.keys == KeysOf(pkgs) && m.values == ValuesOf(pkgs)
  {
    m := new PackageMap();
    for i := 0 to |pkgs|
      invariant m.Valid()
      invariant m.keys == KeysOf(pkgs[..i]) && m.values == ValuesOf(pkgs[..i])
    {
      assert pkgs[..i + 1][..i] == pkgs[..i];
      m.Set(pkgs[i].name, pkgs[i]);
    }
    assert pkgs[..|pkgs|] == pkgs;
  }

  // ---------------------------------------------------------------------------
  // The diff of two package lists

  /** What one source entry contributes: removed, upgraded (when classified) or nothing. */
  function SourceChange(name: string, sourcePkg: Package, targetPkg: Option<Package>): seq<PackageChange>
  {
    if targetPkg.None? then
      [PackageChange(name, Removed, None, Some(sourcePkg.version), None)]
    else if sourcePkg.version != targetPkg.value.version then
      var vc := GetVersionChangeType(sourcePkg.version, targetPkg.value.version);
      if vc.Some? then
        [PackageChange(name, Upgraded, vc, Some(sourcePkg.version), Some(targetPkg.value.version))]
      else []
    else []
  }

  function Lookup(m: map<string, Package>, name: string): Option<Package>
  {
    if name in m then Some(m[name]) else None
  }

  /** The entries the walk over the source keys `names` emits, in key order. */
  function SourceChanges(names: seq<string>, sv: map<string, Package>, tv: map<string, Package>): seq<PackageChange>
    requires forall i :: 0 <= i < |names| ==> names[i] in sv
  {
    if |names| == 0 then []
    else
      var name := names[|names| - 1];
      SourceChanges(names[..|names| - 1], sv, tv) + SourceChange(name, sv[name], Lookup(tv, name))
  }

  /** The `added` entries the walk over the target keys `names` emits, in key order. */
  function AddedChanges(names: seq<string>, tv: map<string, Package>, sv: map<string, Package>): seq<PackageChange>
    requires forall i :: 0 <= i < |names| ==> names[i] in tv
  {
    if |names| == 0 then []
    else
      var name := names[|names| - 1];
      AddedChanges(names[..|names| - 1], tv, sv)
      + (if name !in sv then [PackageChange(name, Added, None, None, Some(tv[name].version))] else [])
  }

  /** The diff of two package lists: source-driven entries first, then the added ones. */
  function Diff(source: seq<Package>, target: seq<Package>): seq<PackageChange>
  {
    IndexNames(source);
    IndexNames(target);
    SourceChanges(KeysOf(source), ValuesOf(source), ValuesOf(target))
    + AddedChanges(KeysOf(target), ValuesOf(target), ValuesOf(source))
  }

  /** `diffPackages`: indexes both lists, walks the source keys, then the target keys. */
  method DiffPackages(source: seq<Package>, target: seq<Package>) returns (changes: seq<PackageChange>)
    ensures changes == Diff(source, target)
  {
    var sourceMap := Index(source);
    var targetMap := Index(target);
    var fromSource := WalkSource(sourceMap, targetMap);
    var added := WalkTarget(targetMap, sourceMap);
    changes := fromSource + added;
    DiffOfIndexes(source, target, sourceMap.keys, sourceMap.values, targetMap.keys, targetMap.values);
  }

  /** The walk of `diffPackages` over the source keys: removals and classified upgrades, in key order. */
  method WalkSource(sourceMap: PackageMap, targetMap: PackageMap) returns (changes: seq<PackageChange>)
    requires sourceMap.Valid()
    ensures changes == SourceChanges(sourceMap.keys, sourceMap.values, targetMap.values)
  {
    changes := [];
    for j := 0 to |sourceMap.keys|
      invariant changes == SourceChanges(sourceMap.keys[..j], sourceMap.values, targetMap.values)
    {
      SourceChangesSnoc(sourceMap.keys, j, sourceMap.values, targetMap.values);
      var name := sourceMap.keys[j];
      var sourcePkg := sourceMap.values[name];
      var targetPkg := targetMap.Get(name);
      if targetPkg.None? {
        changes := changes + [PackageChange(name, Removed, None, Some(sourcePkg.version), None)];
      } else if sourcePkg.version != targetPkg.value.version {
        var versionChange := GetVersionChangeType(sourcePkg.version, targetPkg.value.version);
        if versionChange.Some? {
          changes := changes + [PackageChange(name, Upgraded, versionChange, Some(sourcePkg.version), Some(targetPkg.value.version))];
        }
      }
    }
    assert sourceMap.keys[..|sourceMap.keys|] == sourceMap.keys;
  }

  /** The walk of `diffPackages` over the target keys: an `added` entry for each name the source lacks. */
  method WalkTarget(targetMap: PackageMap, sourceMap: PackageMap) returns (changes: seq<PackageChange>)
    requires targetMap.Valid()
    ensures changes == AddedChanges(targetMap.keys, targetMap.values, sourceMap.values)
  {
    changes := [];
    for j := 0 to |targetMap.keys|
      invariant changes == AddedChanges(targetMap.keys[..j], targetMap.values, sourceMap.values)
    {
      AddedChangesSnoc(targetMap.keys, j, targetMap.values, sourceMap.values);
      var name := targetMap.keys[j];
      var targetPkg := targetMap.values[name];
      if !sourceMap.Has(name) {
        changes := changes + [PackageChange(name, Added, None, None, Some(targetPkg.version))];
      }
    }
    assert targetMap.keys[..|targetMap.keys|] == targetMap.keys;
  }

  /** The diff in terms of the two filled maps. */
  lemma DiffOfIndexes(source: seq<Package>, target: seq<Package>,
                      sk: seq<string>, sv: map<string, Package>, tk: seq<string>, tv: map<string, Package>)
    requires sk == KeysOf(source) && sv == ValuesOf(source) && tk == KeysOf(target) && tv == ValuesOf(target)
    ensures forall i :: 0 <= i < |sk| ==> sk[i] in sv
    ensures forall i :: 0 <= i < |tk| ==> tk[i] in tv
    ensures Diff(source, target) == SourceChanges(sk, sv, tv) + AddedChanges(tk, tv, sv)
  {
    IndexNames(source);
    IndexNames(target);
  }

  /** One more source key extends the source walk by that key's contribution. */
  lemma SourceChangesSnoc(names: seq<string>, j: nat, sv: map<string, Package>, tv: map<string, Package>)
    requires j < |names| && forall i :: 0 <= i < |names| ==> names[i] in sv
    ensures SourceChanges(names[..j + 1], sv, tv)
      == SourceChanges(names[..j], sv, tv) + SourceChange(names[j], sv[names[j]], Lookup(tv, names[j]))
  {
    assert names[..j + 1][..j] == names[..j];
  }

  /** One more target key extends the target walk by its `added` entry, if any. */
  lemma AddedChangesSnoc(names: seq<string>, j: nat, tv: map<string, Package>, sv: map<string, Package>)
    requires j < |names| && forall i :: 0 <= i < |names| ==> names[i] in tv
    ensures AddedChanges(names[..j + 1], tv, sv) == AddedChanges(names[..j], tv, sv)
      + (if names[j] !in sv then [PackageChange(names[j], Added, None, None, Some(tv[names[j]].version))] else [])
  {
    assert names[..j + 1][..j] == names[..j];
  }

  /** `diffResolutions`: the production pair and the development pair are diffed independently. */
  method DiffResolutions(source: Resolution, target: Resolution) returns (d: ResolutionDiff)
    ensures d.dependencies == Diff(source.dependencies, target.dependencies)
    ensures d.devDependencies == Diff(source.devDependencies, target.devDependencies)
  {
    var deps := DiffPackages(source.dependencies, target.dependencies);
    var devDeps := DiffPackages(source.devDependencies, target.devDependencies);
    d := ResolutionDiff(deps, devDeps);
  }

  // ---------------------------------------------------------------------------
  // Properties of the diff

  /** The entries of `changes` that carry `name`, in order. */
  function WithName(changes: seq<PackageChange>, name: string): seq<PackageChange>
  {
    if |changes| == 0 then []
    else
      var last := changes[|changes| - 1];
      WithName(changes[..|changes| - 1], name) + (if last.name == name then [last] else [])
  }

  lemma {:induction false} WithNameAppend(a: seq<PackageChange>, b: seq<PackageChange>, name: string)
    ensures WithName(a + b, name) == WithName(a, name) + WithName(b, name)
    decreases |b|
  {
    if |b| > 0 {
      assert (a + b)[..|a + b| - 1] == a + b[..|b| - 1];
      WithNameAppend(a, b[..|b| - 1], name);
    } else {
      assert a + b == a;
    }
  }

  /** `WithName` keeps exactly the entries that carry the name. */
  lemma {:induction false} WithNameMember(changes: seq<PackageChange>, name: string, c: PackageChange)
    ensures c in WithName(changes, name) <==> c in changes && c.name == name
  {
    if |changes| > 0 {
      var init := changes[..|changes| - 1];
      WithNameMember(init, name, c);
      assert changes == init + [changes[|changes| - 1]];
    }
  }

  /** Two entries with the same name make `WithName` hold at least two. */
  lemma {:induction false} WithNameTwice(changes: seq<PackageChange>, i: nat, j: nat)
    requires i < j < |changes| && changes[i].name == changes[j].name
    ensures |WithName(changes, changes[i].name)| >= 2
  {
    var init := changes[..|changes| - 1];
    if j < |changes| - 1 {
      WithNameTwice(init, i, j);
    } else {
      assert init[i] == changes[i];
      WithNameMember(init, changes[i].name, changes[i]);
    }
  }

  /** A list of distinct names is its init and a last name that the init lacks. */
  lemma InitLast(names: seq<string>)
    requires |names| > 0 && Distinct(names)
    ensures var init, last := names[..|names| - 1], names[|names| - 1];
      Distinct(init) && last !in init && forall n :: n in names <==> n in init || n == last
  {
    assert names == names[..|names| - 1] + [names[|names| - 1]];
  }

  /** A walk step contributes at most one entry, under its own name. */
  lemma WithNameOfStep(step: seq<PackageChange>, name: string, n: string)
    requires |step| <= 1 && forall c :: c in step ==> c.name == name
    ensures WithName(step, n) == if name == n then step else []
  {
    if |step| == 1 {
      assert step[..0] == [];
      assert step[0] in step;
    }
  }

  /** One source entry contributes at most one change, under its own name. */
  lemma SourceChangeNamed(name: string, sourcePkg: Package, targetPkg: Option<Package>)
    ensures |SourceChange(name, sourcePkg, targetPkg)| <= 1
    ensures forall c :: c in SourceChange(name, sourcePkg, targetPkg) ==> c.name == name && c.kind != Added && c.kind != Downgraded
    ensures forall c :: c in SourceChange(name, sourcePkg, targetPkg) && c.kind == Upgraded ==> c.versionChange.Some?
  {
  }

  /** The per-name contribution of the source walk. */
  lemma {:induction false} SourceChangesWithName(names: seq<string>, sv: map<string, Package>, tv: map<string, Package>, n: string)
    requires forall i :: 0 <= i < |names| ==> names[i] in sv
    requires Distinct(names)
    ensures WithName(SourceChanges(names, sv, tv), n) ==
      if n in names then SourceChange(n, sv[n], Lookup(tv, n)) else []
  {
    if |names| > 0 {
      var init, last := names[..|names| - 1], names[|names| - 1];
      var one := SourceChange(last, sv[last], Lookup(tv, last));
      SourceChangesWithName(init, sv, tv, n);
      WithNameAppend(SourceChanges(init, sv, tv), one, n);
      SourceChangeNamed(last, sv[last], Lookup(tv, last));
      WithNameOfStep(one, last, n);
      InitLast(names);
    }
  }

  /** The per-name contribution of the target walk. */
  lemma {:induction false} AddedChangesWithName(names: seq<string>, tv: map<string, Package>, sv: map<string, Package>, n: string)
    requires forall i :: 0 <= i < |names| ==> names[i] in tv
    requires Distinct(names)
    ensures WithName(AddedChanges(names, tv, sv), n) ==
      if n in names && n !in sv then [PackageChange(n, Added, None, None, Some(tv[n].version))] else []
  {
    if |names| > 0 {
      var init, last := names[..|names| - 1], names[|names| - 1];
      AddedChangesWithName(init, tv, sv, n);
      var one := if last !in sv then [PackageChange(last, Added, None, None, Some(tv[last].version))] else [];
      WithNameAppend(AddedChanges(init, tv, sv), one, n);
      WithNameOfStep(one, last, n);
      InitLast(names);
    }
  }

  /**
   * What the diff holds for one name, in terms of the two indexes: a source
   * name contributes its removed or classified entry, a name only in the
   * target one added entry, and any other name nothing.
   */
  function Expected(name: string, sv: map<string, Package>, tv: map<string, Package>): seq<PackageChange>
  {
    if name in sv then SourceChange(name, sv[name], Lookup(tv, name))
    else if name in tv then [PackageChange(name, Added, None, None, Some(tv[name].version))]
    else []
  }

  /** The diff, name by name, is exactly what the two indexes call for. */
  lemma DiffWithName(source: seq<Package>, target: seq<Package>, n: string)
    ensures WithName(Diff(source, target), n) == Expected(n, ValuesOf(source), ValuesOf(target))
  {
    var sv, tv := ValuesOf(source), ValuesOf(target);
    IndexNames(source);
    IndexNames(target);
    WithNameAppend(SourceChanges(KeysOf(source), sv, tv), AddedChanges(KeysOf(target), tv, sv), n);
    SourceChangesWithName(KeysOf(source), sv, tv, n);
    AddedChangesWithName(KeysOf(target), tv, sv, n);
  }

  /** No name appears twice in a diff. */
  lemma DiffNamesUnique(source: seq<Package>, target: seq<Package>)
    ensures forall i, j :: 0 <= i < j < |Diff(source, target)| ==> Diff(source, target)[i].name != Diff(source, target)[j].name
  {
    var d := Diff(source, target);
    forall i, j | 0 <= i < j < |d| ensures d[i].name != d[j].name {
      if d[i].name == d[j].name {
        WithNameTwice(d, i, j);
        DiffWithName(source, target, d[i].name);
      }
    }
  }

  /** Every name in a diff comes from the source list or the target list. */
  lemma DiffNamesFromInputs(source: seq<Package>, target: seq<Package>, c: PackageChange)
    requires c in Diff(source, target)
    ensures (exists i :: 0 <= i < |source| && source[i].name == c.name)
         || (exists i :: 0 <= i < |target| && target[i].name == c.name)
  {
    WithNameMember(Diff(source, target), c.name, c);
    DiffWithName(source, target, c.name);
    IndexNames(source);
    IndexNames(target);
  }

  /**
   * A name in the source list but not in the target list appears once, as
   * removed, with the version of its last source occurrence and no target version.
   */
  lemma DiffRemoved(source: seq<Package>, target: seq<Package>, i: nat)
    requires i < |source|
    requires forall j :: i < j < |source| ==> source[j].name != source[i].name
    requires forall j :: 0 <= j < |target| ==> target[j].name != source[i].name
    ensures WithName(Diff(source, target), source[i].name) ==
      [PackageChange(source[i].name, Removed, None, Some(source[i].version), None)]
  {
    DiffWithName(source, target, source[i].name);
    IndexLastWins(source, i);
    IndexNames(target);
  }

  /**
   * A name in the target list but not in the source list appears once, as
   * added, with the version of its last target occurrence and no source version.
   */
  lemma DiffAdded(source: seq<Package>, target: seq<Package>, i: nat)
    requires i < |target|
    requires forall j :: i < j < |target| ==> target[j].name != target[i].name
    requires forall j :: 0 <= j < |source| ==> source[j].name != target[i].name
    ensures WithName(Diff(source, target), target[i].name) ==
      [PackageChange(target[i].name, Added, None, None, Some(target[i].version))]
  {
    DiffWithName(source, target, target[i].name);
    IndexLastWins(target, i);
    IndexNames(source);
  }

  /**
   * A name in both lists appears only when the versions of its last
   * occurrences differ and the classifier gives a bucket; it is then an
   * upgrade carrying that bucket and both versions, whichever way the
   * versions moved.
   */
  lemma DiffChanged(source: seq<Package>, target: seq<Package>, i: nat, k: nat)
    requires i < |source| && k < |target| && source[i].name == target[k].name
    requires forall j :: i < j < |source| ==> source[j].name != source[i].name
    requires forall j :: k < j < |target| ==> target[j].name != target[k].name
    ensures var vc := GetVersionChangeType(source[i].version, target[k].version);
      WithName(Diff(source, target), source[i].name) ==
        if source[i].version != target[k].version && vc.Some?
        then [PackageChange(source[i].name, Upgraded, vc, Some(source[i].version), Some(target[k].version))]
        else []
  {
    DiffWithName(source, target, source[i].name);
    IndexLastWins(source, i);
    IndexLastWins(target, k);
  }

  /** Lists with the same packages under the same names produce no entry at all. */
  lemma DiffSelfEmpty(pkgs: seq<Package>)
    ensures Diff(pkgs, pkgs) == []
  {
    var d := Diff(pkgs, pkgs);
    if |d| > 0 {
      WithNameMember(d, d[0].name, d[0]);
      DiffWithName(pkgs, pkgs, d[0].name);
      IndexValuesNamed(pkgs);
      assert false;
    }
  }

  /** The diff never reports a downgrade. */
  lemma DiffNeverDowngraded(source: seq<Package>, target: seq<Package>)
    ensures forall c :: c in Diff(source, target) ==> c.kind != Downgraded
  {
    var d := Diff(source, target);
    forall c | c in d ensures c.kind != Downgraded {
      WithNameMember(d, c.name, c);
      DiffWithName(source, target, c.name);
      IndexNames(source);
      if c.name in ValuesOf(source) {
        var sv := ValuesOf(source);
        SourceChangeNamed(c.name, sv[c.name], Lookup(ValuesOf(target), c.name));
      }
    }
  }

  /** Every upgrade the diff reports carries a version change: unclassified version changes are dropped. */
  lemma DiffUpgradesClassified(source: seq<Package>, target: seq<Package>)
    ensures forall c :: c in Diff(source, target) && c.kind == Upgraded ==> c.versionChange.Some?
  {
    var d := Diff(source, target);
    forall c | c in d && c.kind == Upgraded ensures c.versionChange.Some? {
      WithNameMember(d, c.name, c);
      DiffWithName(source, target, c.name);
      IndexNames(source);
      if c.name in ValuesOf(source) {
        var sv := ValuesOf(source);
        SourceChangeNamed(c.name, sv[c.name], Lookup(ValuesOf(target), c.name));
      }
    }
  }

  /** No removed or upgraded entry follows an added one. */
  predicate AddedLast(changes: seq<PackageChange>)
  {
    forall i, j :: 0 <= i < j < |changes| && changes[i].kind == Added ==> changes[j].kind == Added
  }

  lemma ConcatAddedLast(front: seq<PackageChange>, back: seq<PackageChange>)
    requires forall i :: 0 <= i < |front| ==> front[i].kind != Added
    requires forall i :: 0 <= i < |back| ==> back[i].kind == Added
    ensures AddedLast(front + back)
  {
    var d := front + back;
    forall i, j | 0 <= i < j < |d| && d[i].kind == Added ensures d[j].kind == Added {
      assert d[j] == back[j - |front|];
    }
  }

  /** Every added entry follows all removed and upgraded ones. */
  lemma DiffAddedLast(source: seq<Package>, target: seq<Package>)
    ensures AddedLast(Diff(source, target))
  {
    IndexNames(source);
    IndexNames(target);
    var sv, tv := ValuesOf(source), ValuesOf(target);
    var front := SourceChanges(KeysOf(source), sv, tv);
    var back := AddedChanges(KeysOf(target), tv, sv);
    assert Diff(source, target) == front + back;
    SourceChangesKinds(KeysOf(source), sv, tv);
    AddedChangesKinds(KeysOf(target), tv, sv);
    ConcatAddedLast(front, back);
  }

  lemma {:induction false} SourceChangesKinds(names: seq<string>, sv: map<string, Package>, tv: map<string, Package>)
    requires forall i :: 0 <= i < |names| ==> names[i] in sv
    ensures forall i :: 0 <= i < |SourceChanges(names, sv, tv)| ==> SourceChanges(names, sv, tv)[i].kind != Added
  {
    if |names| > 0 {
      var last := names[|names| - 1];
      SourceChangesKinds(names[..|names| - 1], sv, tv);
      SourceChangeNamed(last, sv[last], Lookup(tv, last));
    }
  }

  lemma {:induction false} AddedChangesKinds(names: seq<string>, tv: map<string, Package>, sv: map<string, Package>)
    requires forall i :: 0 <= i < |names| ==> names[i] in tv
    ensures forall i :: 0 <= i < |AddedChanges(names, tv, sv)| ==> AddedChanges(names, tv, sv)[i].kind == Added
  {
    if |names| > 0 {
      AddedChangesKinds(names[..|names| - 1], tv, sv);
    }
  }
}
