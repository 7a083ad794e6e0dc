/**
 * The normalised data shapes shared by every resolver and by the diff engine:
 * a `Package` is a name and the literal resolved version string; a
 * `Resolution` splits the packages of one lockfile into production and
 * development lists; a `PackageChange` is one entry of a diff.
 *
 * Also the shapes of already-parsed lockfile content that the resolvers walk.
 */
module Model {

  datatype Option<T> = None | Some(value: T)

  /** The outcome of an operation that may throw; `Failure` carries the error message. */
  datatype Result<T> = Success(value: T) | Failure(message: string)

  datatype Package = Package(name: string, version: string)

  datatype Resolution = Resolution(dependencies: seq<Package>, devDependencies: seq<Package>)

  /**
   * The four kinds of change a diff entry can carry. The diff engine emits only
   * the first three; reporters also know `Downgraded`.
   */
  datatype ChangeType = Added | Removed | Upgraded | Downgraded

  /** The bucket of a version change. */
  datatype VersionChange = Major | Minor | Patch

  datatype PackageChange = PackageChange(
    name: string,
    kind: ChangeType,
    versionChange: Option<VersionChange>,
    fromVersion: Option<string>,
    toVersion: Option<string>)

  datatype ResolutionDiff = ResolutionDiff(dependencies: seq<PackageChange>, devDependencies: seq<PackageChange>)

  /**
   * One value of a parsed document, as far as the resolvers' guards tell
   * values apart: `null`, a scalar (string, number, boolean) with its
   * JavaScript truthiness, an array, or an object whose fields the resolver
   * reads, given as `T`. An array has `typeof "object"` but none of the named
   * fields.
   */
  datatype Entry<T> = Null | Scalar(truthy: bool) | Array | Object(fields: T)

  /** A field that the source tests with `typeof x === "string"`. */
  datatype FieldValue = Missing | Str(text: string) | NonString

  /** What a foreign parser (JSON, YAML, TOML, the Yarn lockfile parser) returned, or the message it threw. */
  datatype Parsed<T> = Parsed(value: T) | ParseError(message: string)

  /**
   * `parseJson` / `parseToml` of the loader utilities: the parsed document
   * must be an object that is not an array; every failure is rethrown with
   * the prefix `Failed to parse <format>: `.
   */
  function ParseObject<T>(format: string, doc: Parsed<Entry<T>>): (r: Result<T>)
    ensures doc.ParseError? ==> r == Failure("Failed to parse " + format + ": " + doc.message)
    ensures r.Success? <==> doc.Parsed? && doc.value.Object?
    ensures r.Success? ==> r.value == doc.value.fields
  {
    match doc
    case ParseError(message) => Failure("Failed to parse " + format + ": " + message)
    case Parsed(Object(fields)) => Success(fields)
    case Parsed(_) => Failure("Failed to parse " + format + ": Parsed " + format + " is not an object")
  }

  /** The loader's refusal of a document that parsed to something other than an object. */
  lemma NotAnObjectRefused<T>(format: string, doc: Entry<T>)
    requires !doc.Object?
    ensures ParseObject(format, Parsed(doc)) == Failure("Failed to parse " + format + ": Parsed " + format + " is not an object")
  {
  }
}

/**
 * The routing every resolver loop shares: each entry is either skipped or
 * kept as a package bound for the production or the development list, and
 * the loop appends kept packages to their list in input order.
 */
module Routing {
  import opened Model

  datatype Outcome = Skip | Keep(pkg: Package, dev: bool)

  /** What one outcome appends to the list selected by `dev`. */
  function Emitted(o: Outcome, dev: bool): seq<Package>
  {
    if o.Keep? && o.dev == dev then [o.pkg] else []
  }

  /** The packages that the outcomes send to the list selected by `dev`, in order. */
  function Routed(outs: seq<Outcome>, dev: bool): seq<Package>
  {
    if |outs| == 0 then []
    else Routed(outs[..|outs| - 1], dev) + Emitted(outs[|outs| - 1], dev)
  }

  /** Appending to a list that already extends another: the extension grows. */
  lemma AppendAssoc(a: seq<Package>, b: seq<Package>, c: seq<Package>)
    ensures (a + b) + c == a + (b + c)
  {
  }

  /** Routing one more outcome appends what it emits. */
  lemma RoutedSnoc(outs: seq<Outcome>, o: Outcome, dev: bool)
    ensures Routed(outs + [o], dev) == Routed(outs, dev) + Emitted(o, dev)
  {
    assert (outs + [o])[..|outs|] == outs;
  }

  /** The number of kept outcomes. */
  function KeptCount(outs: seq<Outcome>): nat
  {
    if |outs| == 0 then 0
    else KeptCount(outs[..|outs| - 1]) + (if outs[|outs| - 1].Keep? then 1 else 0)
  }

  /** The resolution that a loop over `outs` builds. */
  function Resolved(outs: seq<Outcome>): Resolution
  {
    Resolution(Routed(outs, false), Routed(outs, true))
  }

  /** Routing a concatenation routes each part and concatenates: input order is kept. */
  lemma {:induction false} RoutedAppend(a: seq<Outcome>, b: seq<Outcome>, dev: bool)
    ensures Routed(a + b, dev) == Routed(a, dev) + Routed(b, dev)
    decreases |b|
  {
    if |b| > 0 {
      var b' := b[..|b| - 1];
      assert (a + b)[..|a + b| - 1] == a + b';
      RoutedAppend(a, b', dev);
    } else {
      assert a + b == a;
    }
  }

  /** Every kept outcome lands in exactly one of the two lists. */
  lemma {:induction false} RoutedPartition(outs: seq<Outcome>)
    ensures |Routed(outs, false)| + |Routed(outs, true)| == KeptCount(outs)
  {
    if |outs| > 0 {
      RoutedPartition(outs[..|outs| - 1]);
    }
  }

  /** A package is in a list exactly when some outcome keeps it for that list. */
  lemma {:induction false} RoutedMember(outs: seq<Outcome>, dev: bool, p: Package)
    ensures p in Routed(outs, dev) <==> exists i :: 0 <= i < |outs| && outs[i] == Keep(p, dev)
  {
    if |outs| > 0 {
      var init := outs[..|outs| - 1];
      RoutedMember(init, dev, p);
      if exists i :: 0 <= i < |init| && init[i] == Keep(p, dev) {
        var i :| 0 <= i < |init| && init[i] == Keep(p, dev);
        assert outs[i] == Keep(p, dev);
      }
      if exists i :: 0 <= i < |outs| && outs[i] == Keep(p, dev) {
        var i :| 0 <= i < |outs| && outs[i] == Keep(p, dev);
        if i < |init| { assert init[i] == Keep(p, dev); }
      }
    }
  }

  /** When no outcome is kept for a list, that list is empty. */
  lemma {:induction false} RoutedEmpty(outs: seq<Outcome>, dev: bool)
    requires forall i :: 0 <= i < |outs| ==> !(outs[i].Keep? && outs[i].dev == dev)
    ensures Routed(outs, dev) == []
  {
    if |outs| > 0 {
      RoutedEmpty(outs[..|outs| - 1], dev);
    }
  }

  /**
   * The outcomes of a walk whose per-entry decision `classify` cannot fail:
   * one outcome per entry, in entry order.
   */
  function Outcomes<E>(entries: seq<E>, classify: E -> Outcome): (r: seq<Outcome>)
    ensures |r| == |entries|
  {
    if |entries| == 0 then []
    else Outcomes(entries[..|entries| - 1], classify) + [classify(entries[|entries| - 1])]
  }

  /** The outcome at each position is the decision on the entry there. */
  lemma {:induction false} OutcomesAt<E>(entries: seq<E>, classify: E -> Outcome, i: nat)
    requires i < |entries|
    ensures Outcomes(entries, classify)[i] == classify(entries[i])
  {
    var init := entries[..|entries| - 1];
    if i < |init| {
      assert init[i] == entries[i];
      OutcomesAt(init, classify, i);
    }
  }

  /** One more entry appends its own outcome. */
  lemma OutcomesStep<E>(entries: seq<E>, classify: E -> Outcome, i: nat)
    requires i < |entries|
    ensures Outcomes(entries[..i + 1], classify) == Outcomes(entries[..i], classify) + [classify(entries[i])]
  {
    assert entries[..i + 1][..i] == entries[..i];
  }

  /** A package is in a list exactly when the decision on some entry keeps it for that list. */
  lemma OutcomesMember<E>(entries: seq<E>, classify: E -> Outcome, dev: bool, p: Package)
    ensures p in Routed(Outcomes(entries, classify), dev)
      <==> exists i :: 0 <= i < |entries| && classify(entries[i]) == Keep(p, dev)
  {
    var outs := Outcomes(entries, classify);
    RoutedMember(outs, dev, p);
    if exists i :: 0 <= i < |outs| && outs[i] == Keep(p, dev) {
      var i :| 0 <= i < |outs| && outs[i] == Keep(p, dev);
      OutcomesAt(entries, classify, i);
    }
    if exists i :: 0 <= i < |entries| && classify(entries[i]) == Keep(p, dev) {
      var i :| 0 <= i < |entries| && classify(entries[i]) == Keep(p, dev);
      OutcomesAt(entries, classify, i);
    }
  }

  /** The positions of the entries whose decision keeps them. */
  function KeptIndices<E>(entries: seq<E>, classify: E -> Outcome): set<int>
  {
    set i | 0 <= i < |entries| && classify(entries[i]).Keep?
  }

  /** Every entry whose decision keeps it lands in exactly one of the two lists, once. */
  lemma OutcomesPartition<E>(entries: seq<E>, classify: E -> Outcome)
    ensures |Routed(Outcomes(entries, classify), false)| + |Routed(Outcomes(entries, classify), true)|
      == |KeptIndices(entries, classify)|
  {
    RoutedPartition(Outcomes(entries, classify));
    KeptCountOutcomes(entries, classify);
  }

  /** The kept count of a walk is the number of entries whose decision keeps them. */
  lemma {:induction false} KeptCountOutcomes<E>(entries: seq<E>, classify: E -> Outcome)
    ensures KeptCount(Outcomes(entries, classify)) == |KeptIndices(entries, classify)|
  {
    if |entries| > 0 {
      var n := |entries| - 1;
      var init := entries[..n];
      KeptCountOutcomes(init, classify);
      var outs := Outcomes(entries, classify);
      assert outs[..n] == Outcomes(init, classify);
      var before := KeptIndices(init, classify);
      var after := KeptIndices(entries, classify);
      if classify(entries[n]).Keep? {
        assert after == before + {n};
      } else {
        assert after == before;
      }
    }
  }

  /** When no entry is kept for a list, that list stays empty. */
  lemma OutcomesNoneFor<E>(entries: seq<E>, classify: E -> Outcome, dev: bool)
    requires forall i :: 0 <= i < |entries| ==> !(classify(entries[i]).Keep? && classify(entries[i]).dev == dev)
    ensures Routed(Outcomes(entries, classify), dev) == []
  {
    var outs := Outcomes(entries, classify);
    forall i | 0 <= i < |outs| ensures !(outs[i].Keep? && outs[i].dev == dev) {
      OutcomesAt(entries, classify, i);
    }
    RoutedEmpty(outs, dev);
  }
}
