/**
 * The resolver registry: the ordered list of resolvers tried on a file name,
 * and the lookup of a resolver by its name. In this revision only the npm,
 * Composer and pnpm resolvers are registered.
 */
module Registry {
  import opened Strings
  import opened Model
  import Npm
  import Composer
  import Pnpm

  /** A registered resolver. */
  datatype ResolverKind = NpmResolver | ComposerResolver | PnpmResolver

  /** `resolvers`: the order in which the resolvers are tried. */
  const Registered: seq<ResolverKind> := [NpmResolver, ComposerResolver, PnpmResolver]

  /** The resolver's `canResolve`. */
  predicate Accepts(resolver: ResolverKind, filename: string)
  {
    match resolver
    case NpmResolver => Npm.CanResolve(filename)
    case ComposerResolver => Composer.CanResolve(filename)
    case PnpmResolver => Pnpm.CanResolve(filename)
  }

  /** The name a resolver is asked for by, in lower case. */
  function Name(resolver: ResolverKind): string
  {
    match resolver
    case NpmResolver => "npm"
    case ComposerResolver => "composer"
    case PnpmResolver => "pnpm"
  }

  /** The index of the first resolver in `list` that accepts the name, or `|list|` when none does. */
  function FirstAccepting(list: seq<ResolverKind>, filename: string): (k: nat)
    ensures k <= |list|
    ensures forall j :: 0 <= j < k ==> !Accepts(list[j], filename)
    ensures k < |list| ==> Accepts(list[k], filename)
  {
    if list == [] then 0
    else if Accepts(list[0], filename) then 0
    else 1 + FirstAccepting(list[1..], filename)
  }

  /** `findResolver`: the first registered resolver whose `canResolve` accepts the name. */
  function FindResolver(filename: string): (r: Option<ResolverKind>)
    ensures r.None? <==> forall i :: 0 <= i < |Registered| ==> !Accepts(Registered[i], filename)
    ensures r.Some? ==> Accepts(r.value, filename)
    ensures r.Some? ==>
      exists k :: 0 <= k < |Registered| && Registered[k] == r.value && forall j :: 0 <= j < k ==> !Accepts(Registered[j], filename)
  {
    var k := FirstAccepting(Registered, filename);
    if k < |Registered| then Some(Registered[k]) else None
  }

  /** `getResolverByName`: the resolver whose name is `name` in any letter case. */
  function GetResolverByName(name: string): (r: Option<ResolverKind>)
    ensures r.Some? ==> Name(r.value) == ToLower(name)
  {
    match ToLower(name)
    case "npm" => Some(NpmResolver)
    case "composer" => Some(ComposerResolver)
    case "pnpm" => Some(PnpmResolver)
    case _ => None
  }

  // ---------------------------------------------------------------------------
  // Properties

  /** The registered resolvers accept disjoint sets of names: their file names differ in length. */
  lemma {:induction false} AcceptsAtMostOne(filename: string, a: ResolverKind, b: ResolverKind)
    requires Accepts(a, filename) && Accepts(b, filename)
    ensures a == b
  {
    Npm.CanResolveMeaning(filename);
    Composer.CanResolveMeaning(filename);
    Pnpm.CanResolveMeaning(filename);
    var last := LastSegment(filename);
    assert |ToLower(last)| == |last|;
  }

  /**
   * Since no two resolvers accept the same name, the search order does not
   * matter: the name is resolved to a resolver exactly when that resolver
   * accepts it.
   */
  lemma {:induction false} FindResolverAccepts(filename: string, resolver: ResolverKind)
    ensures FindResolver(filename) == Some(resolver) <==> Accepts(resolver, filename)
  {
    var r := FindResolver(filename);
    if Accepts(resolver, filename) {
      assert resolver == Registered[0] || resolver == Registered[1] || resolver == Registered[2];
      AcceptsAtMostOne(filename, r.value, resolver);
    }
  }

  /** A name no resolver accepts is given to none. */
  lemma NoneAcceptsNoneFound(filename: string)
    ensures (forall other: ResolverKind :: !Accepts(other, filename)) ==> FindResolver(filename) == None
  {
    var r := FindResolver(filename);
    assert r.Some? ==> Accepts(r.value, filename);
  }

  /** Which resolver a path is given to, in terms of the path's last segment. */
  lemma {:induction false} FindResolverByFileName(filename: string)
    ensures var last := LastSegment(filename);
      FindResolver(filename)
      == if last == Npm.FileName then Some(NpmResolver)
         else if ToLower(last) == Composer.FileName then Some(ComposerResolver)
         else if last == Pnpm.FileName then Some(PnpmResolver)
         else None
  {
    Npm.CanResolveMeaning(filename);
    Composer.CanResolveMeaning(filename);
    Pnpm.CanResolveMeaning(filename);
    FindResolverAccepts(filename, NpmResolver);
    FindResolverAccepts(filename, ComposerResolver);
    FindResolverAccepts(filename, PnpmResolver);
  }

  /** Lockfiles of the formats not registered here are given to no resolver. */
  lemma {:induction false} UnregisteredFormats(filename: string)
    requires LastSegment(filename) in {"yarn.lock", "Gemfile.lock", "requirements.txt", "Pipfile.lock", "poetry.lock", "pdm.lock"}
    ensures FindResolver(filename) == None
  {
    FindResolverByFileName(filename);
    var last := LastSegment(filename);
    assert |ToLower(last)| == |last| != |Composer.FileName|;
  }

  /** Every registered resolver is found by its name, whatever the letter case. */
  lemma {:induction false} GetResolverByNameIff(name: string, resolver: ResolverKind)
    ensures GetResolverByName(name) == Some(resolver) <==> ToLower(name) == Name(resolver)
  {
  }

  /** Any name that is not one of the three, in some letter case, gives no resolver. */
  lemma {:induction false} UnknownNameGivesNone(name: string)
    requires forall resolver: ResolverKind :: ToLower(name) != Name(resolver)
    ensures GetResolverByName(name) == None
  {
    assert ToLower(name) != Name(NpmResolver) && ToLower(name) != Name(ComposerResolver)
      && ToLower(name) != Name(PnpmResolver);
  }

  /** Upper-case letters make no difference: `NPM`, `Npm` and `npm` name the same resolver. */
  lemma {:induction false} NameCaseInsensitive(a: string, b: string)
    requires ToLower(a) == ToLower(b)
    ensures GetResolverByName(a) == GetResolverByName(b)
  {
  }
}
