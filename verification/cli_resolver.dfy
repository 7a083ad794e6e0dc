/**
 * The choice of the resolver pair for a run: a resolver named on the command
 * line is used for both files; otherwise the resolver the source file's base
 * name selects, or failing that the target file's, is used for both.
 */
module CliResolver {
  import opened Strings
  import opened Model
  import opened Registry

  /** The resolvers that read the source and the target lockfile. */
  datatype ResolverPair = ResolverPair(sourceResolver: ResolverKind, targetResolver: ResolverKind)

  const UnknownResolverPrefix := "Unknown resolver: "
  const AvailableSuffix := ". Available: npm, composer, pnpm"
  const NoResolverPrefix := "No resolver found for source or target files. Source: "
  const TargetInfix := ", Target: "

  /** The resolver chosen for a file: the one its base name selects. */
  function ForFile(path: string): Option<ResolverKind>
  {
    FindResolver(PathBasename(path))
  }

  /**
   * `lookupResolvers`. The resolver name is used only when it is given and
   * not empty (a JavaScript truthiness test).
   */
  function LookupResolvers(sourceFile: string, targetFile: string, resolverName: Option<string>): (r: Result<ResolverPair>)
    ensures r.Success? ==> r.value.sourceResolver == r.value.targetResolver
  {
    if resolverName.Some? && resolverName.value != "" then
      var resolver := GetResolverByName(resolverName.value);
      if resolver.None? then Failure(UnknownResolverPrefix + resolverName.value + AvailableSuffix)
      else Success(ResolverPair(resolver.value, resolver.value))
    else
      var sourceResolver := ForFile(sourceFile);
      var chosen := if sourceResolver.None? then ForFile(targetFile) else sourceResolver;
      if chosen.None? then Failure(NoResolverPrefix + sourceFile + TargetInfix + targetFile)
      else Success(ResolverPair(chosen.value, chosen.value))
  }

  // ---------------------------------------------------------------------------
  // Properties

  /** A name that is not a registered resolver's fails, and the message starts by naming it. */
  lemma {:induction false} UnknownNameFails(sourceFile: string, targetFile: string, name: string)
    requires name != "" && GetResolverByName(name).None?
    ensures var r := LookupResolvers(sourceFile, targetFile, Some(name));
      r.Failure? && StartsWith(r.message, UnknownResolverPrefix + name)
  {
    var r := LookupResolvers(sourceFile, targetFile, Some(name));
    assert r.message == (UnknownResolverPrefix + name) + AvailableSuffix;
  }

  /** A registered resolver's name, in any letter case, is used for both files, whatever their names. */
  lemma {:induction false} KnownNameUsed(sourceFile: string, targetFile: string, name: string, resolver: ResolverKind)
    requires ToLower(name) == Name(resolver)
    ensures LookupResolvers(sourceFile, targetFile, Some(name)) == Success(ResolverPair(resolver, resolver))
  {
    GetResolverByNameIff(name, resolver);
    assert |name| == |Name(resolver)| > 0;
  }

  /** With a name given, the file names are not consulted. */
  lemma {:induction false} NameIgnoresFiles(s1: string, t1: string, s2: string, t2: string, name: string)
    requires name != ""
    ensures LookupResolvers(s1, t1, Some(name)) == LookupResolvers(s2, t2, Some(name))
  {
  }

  /** Without a name, a source file that selects a resolver decides, whatever the target. */
  lemma {:induction false} SourcePreferred(sourceFile: string, targetFile: string, resolverName: Option<string>, resolver: ResolverKind)
    requires resolverName.None? || resolverName == Some("")
    requires Accepts(resolver, PathBasename(sourceFile))
    ensures LookupResolvers(sourceFile, targetFile, resolverName) == Success(ResolverPair(resolver, resolver))
  {
    FindResolverAccepts(PathBasename(sourceFile), resolver);
  }

  /** A file whose base name no resolver accepts is given to none. */
  lemma NoneForFile(path: string)
    requires forall other: ResolverKind :: !Accepts(other, PathBasename(path))
    ensures ForFile(path) == None
  {
    NoneAcceptsNoneFound(PathBasename(path));
  }

  /** Without a name, the source file's resolver is chosen, or failing that the target file's. */
  lemma ChosenByFiles(sourceFile: string, targetFile: string, resolverName: Option<string>)
    requires resolverName.None? || resolverName == Some("")
    ensures var chosen := if ForFile(sourceFile).None? then ForFile(targetFile) else ForFile(sourceFile);
      LookupResolvers(sourceFile, targetFile, resolverName)
      == if chosen.None? then Failure(NoResolverPrefix + sourceFile + TargetInfix + targetFile)
         else Success(ResolverPair(chosen.value, chosen.value))
  {
  }

  /** Without a name, the target file decides only when the source file selects nothing. */
  lemma {:induction false} TargetFallback(sourceFile: string, targetFile: string, resolverName: Option<string>, resolver: ResolverKind)
    requires resolverName.None? || resolverName == Some("")
    requires forall other: ResolverKind :: !Accepts(other, PathBasename(sourceFile))
    requires Accepts(resolver, PathBasename(targetFile))
    ensures LookupResolvers(sourceFile, targetFile, resolverName) == Success(ResolverPair(resolver, resolver))
  {
    NoneForFile(sourceFile);
    FindResolverAccepts(PathBasename(targetFile), resolver);
    ChosenByFiles(sourceFile, targetFile, resolverName);
  }

  /**
   * Without a name, when neither base name selects a resolver, the lookup
   * fails with a message that names the source path and then the target path.
   */
  lemma {:induction false} NeitherMatches(sourceFile: string, targetFile: string, resolverName: Option<string>)
    requires resolverName.None? || resolverName == Some("")
    requires forall other: ResolverKind :: !Accepts(other, PathBasename(sourceFile))
    requires forall other: ResolverKind :: !Accepts(other, PathBasename(targetFile))
    ensures var r := LookupResolvers(sourceFile, targetFile, resolverName);
      r.Failure? && StartsWith(r.message, NoResolverPrefix + sourceFile) && EndsWith(r.message, targetFile)
  {
    NoneForFile(sourceFile);
    NoneForFile(targetFile);
    ChosenByFiles(sourceFile, targetFile, resolverName);
    var r := LookupResolvers(sourceFile, targetFile, resolverName);
    var head := NoResolverPrefix + sourceFile;
    assert r.message == (head + TargetInfix) + targetFile;
    ConcatEnds(head, TargetInfix);
    ConcatEnds(head + TargetInfix, targetFile);
  }

  /**
   * Every success uses a resolver that was named, or that accepts the base
   * name of the source or of the target file.
   */
  lemma {:induction false} SuccessJustified(sourceFile: string, targetFile: string, resolverName: Option<string>)
    requires LookupResolvers(sourceFile, targetFile, resolverName).Success?
    ensures var resolver := LookupResolvers(sourceFile, targetFile, resolverName).value.sourceResolver;
      (resolverName.Some? && resolverName.value != "" && ToLower(resolverName.value) == Name(resolver))
      || Accepts(resolver, PathBasename(sourceFile)) || Accepts(resolver, PathBasename(targetFile))
  {
  }
}
