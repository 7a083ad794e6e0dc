# beefdiff, modelled in Dafny

beefdiff compares two lockfiles of the same ecosystem and reports which
packages were added, removed or changed version. It works in three steps:

1. A *resolver* turns a lockfile's text into a `Resolution`: two ordered
   lists of `Package(name, version)`, one for production and one for
   development dependencies. The ecosystems are npm, pnpm, Yarn, Composer,
   Bundler (`Gemfile.lock`), pip (`requirements*.txt`), Pipenv
   (`Pipfile.lock`), Poetry and PDM.
2. The *diff engine* indexes both lists by name and reports each name at
   most once, as removed, added or upgraded. An upgrade carries a
   major/minor/patch bucket decided by semantic-version parsing and
   precedence.
3. The command line picks the resolver by name or by file name. The
   reporters group the changes by kind before rendering them.

This project models those steps in Dafny and proves properties of the model:
- the diff is exactly what the two name indexes call for, name by name;
- the version bucket means what the parsed versions say;
- each resolver keeps exactly the entries it should, in order, in the right
  list;
- the resolver lookup and the argument parser behave as the command line
  promises;
- the grouping keeps every change in exactly one group, in order.

Foreign parsers (`JSON.parse`, the YAML, TOML and `@yarnpkg/lockfile`
parsers) are not modelled. Each resolver takes what the parser returned as a
parameter:
- a typed document (`Parsed<Entry<Lockfile>>`);
- or the message the parser threw.

The file system is not modelled either: each resolver works on the file's
content. Where the code keeps state across a loop (the Bundler line scanner,
the argument cursor, the diff's maps, each resolver's output lists), the
model is a method with a loop. It is proved equal to a specification
function, and the lemmas are stated about that function.

Modules, one per source file:
- `Strings`: JavaScript string operations (`trim`, `split`, `indexOf`,
  ASCII `toLowerCase`, `path.basename`).
- `Patterns`: the version regular expressions shared by the Python
  resolvers and Yarn.
- `Model`: the shared types and the loader's object check.
- `Routing`: the production/development routing every resolver loop shares.
- `SemVer`: the `semver` library's `valid` and `compare`.
- `Diff`.
- `Npm`, `Pnpm`, `Yarn`, `Composer`, `Ruby`, `Python`, `Pipfile`, `Poetry`,
  `Pdm`.
- `Registry`: `resolvers/index.ts`.
- `CliResolver`, `Args`.
- `Grouping`: `reporters/utils.ts`.

Where the code and its descriptions disagree, the model follows the code:
- **Downgrades.** `src/diff.ts:61-69` labels every classified version change
  `upgraded`, also when the target version is lower. The change types and
  the reporters have a `downgraded` kind, but the diff never produces it
  (`Diff.DiffNeverDowngraded`, `Diff.DiffChanged`). A report's downgrade
  group is therefore always empty (`Grouping.DiffHasNoDowngrades`).
- **Registry.** In this revision the registry (`src/resolvers/index.ts:6-10`)
  holds only the npm, Composer and pnpm resolvers. The other resolvers
  exist but are never selected (`Registry.UnregisteredFormats`). The
  `--help` text still lists `python` and `yarn` as resolver names, and
  `getResolverByName` refuses both.
- **Requirements files.** The tests of the pip resolver expect `canResolve`
  to accept `requirements.lock` and `poetry.lock`. Its code
  (`src/resolvers/python.ts:5-9`) accepts only names matching
  `^requirements.*\.txt$`, and the model follows the code
  (`Python.CanResolveMeaning`).

## Model

| member | source | states |
|---|---|---|
| Model.ParseObject | src/resolvers/loader-utils.ts:7-19 | a parsed document is accepted exactly when it is an object; a parser error is rethrown as `Failed to parse <format>: <message>` |
| Model.NotAnObjectRefused | src/resolvers/loader-utils.ts:10-13 | a document that parsed to a non-object is refused with `Parsed <format> is not an object` |
| Routing.RoutedMember | src/resolvers/pnpm.ts:53-58 | a package is in the production (development) list exactly when some loop outcome keeps it for that list |
| Routing.RoutedPartition | src/resolvers/pnpm.ts:53-58 | every kept package lands in exactly one of the two lists |
| Routing.OutcomesMember | src/resolvers/yarn.ts:36-60 | over a loop's entries: a package is listed exactly when some entry's classification keeps it for that list |
| Routing.OutcomesPartition | src/resolvers/yarn.ts:54-59 | the two lists together hold one package per kept entry |
| Strings.Trim | src/resolvers/python.ts:19 | `trim` removes exactly the leading and trailing whitespace: the result is the middle slice, starts and ends with non-whitespace, and is empty exactly when the text is all whitespace |
| Strings.IndexOf | src/resolvers/python.ts:54 | `indexOf` gives the first position of the character, or -1 exactly when it is absent |
| Strings.LastIndexOf | src/resolvers/yarn.ts:74 | `lastIndexOf` gives the last position of the character, or -1 exactly when it is absent |
| Strings.Split | src/resolvers/python.ts:13 | `split` gives at least one part and no part contains the separator |
| Strings.JoinSplit | src/resolvers/npm.ts:125-142 | joining the parts of a split with the separator gives back the text |
| Strings.SplitJoin | src/resolvers/npm.ts:125-142 | splitting a join of separator-free parts gives back the parts |
| Strings.LastSegmentIs | src/resolvers/npm.ts:14-19 | the text after the last `/` is `name` exactly when the text is `name` or ends with `/name` |
| Strings.ToLower | src/resolvers/index.ts:17 | ASCII case folding: keeps the length and lowers each ASCII capital, which is what `toLowerCase` does on ASCII text |
| Strings.EndsWithFileNameMeaning | src/resolvers/composer.ts:11-13 | `/(^\|\/)name$/i` matches exactly when the lowered last segment is `name` |
| Strings.PathBasename | src/cli/resolver.ts:35-37 | `path.basename` gives a text without `/` |
| SemVer.ParseThenFormat | src/diff.ts:90 | every string `valid` accepts is the canonical text of its parsed version |
| SemVer.FormatThenParse | src/diff.ts:90 | every well-formed version's text parses back to it |
| SemVer.CompareZeroIff | src/diff.ts:94-97 | `compare` is zero exactly when major, minor, patch and pre-release agree (build metadata is ignored) |
| SemVer.CompareAntisymmetric | src/diff.ts:94 | swapping the versions negates `compare` |
| Diff.VersionChangeMeaning | src/diff.ts:86-109 | the bucket is none exactly when either version is invalid or their precedence is equal; major exactly when the majors differ, minor when only the minors differ, patch when patch or pre-release differs on the same major.minor |
| Diff.VersionChangeSymmetric | src/diff.ts:86-109 | the bucket does not depend on the direction of the change |
| Diff.PartNumbersOfValid | src/diff.ts:99-107 | the first two numbers of `split(".").map(Number)` of a valid version are its parsed major and minor |
| Diff.IndexNames | src/diff.ts:35-44 | the name index holds each name of the list once, in key order and in its map, and no other name |
| Diff.IndexLastWins | src/diff.ts:38-40 | for a repeated name, the index keeps the package of the last occurrence |
| Diff.PackageMap.Get | src/diff.ts:49 | `get` returns the stored package exactly when the name is a key |
| Diff.PackageMap.Set | src/diff.ts:39 | `set` appends a new key and keeps an existing key's place; the value is replaced |
| Diff.Index | src/diff.ts:35-44 | filling a map from a list gives the first-occurrence key order and the last-occurrence values |
| Diff.DiffPackages | src/diff.ts:34-84 | the two loops over the source and target keys compute the diff of the two lists |
| Diff.WalkSource | src/diff.ts:48-71 | the walk over the source keys emits, in key order, a removal for each name the target lacks and an upgrade for each classified version difference |
| Diff.WalkTarget | src/diff.ts:73-81 | the walk over the target keys emits, in key order, an addition for each name the source lacks |
| Diff.DiffResolutions | src/diff.ts:21-32 | production and development lists are diffed independently |
| Diff.DiffWithName | src/diff.ts:48-81 | name by name, the diff holds exactly the entry the two indexes call for: removed, classified upgrade, added, or nothing |
| Diff.DiffNamesUnique | src/diff.ts:48-81 | no name appears twice in a diff |
| Diff.DiffNamesFromInputs | src/diff.ts:48-81 | every name in a diff comes from the source or the target list |
| Diff.DiffRemoved | src/diff.ts:50-55 | a name only in the source appears once, as removed, with its last source version and no target version |
| Diff.DiffAdded | src/diff.ts:73-80 | a name only in the target appears once, as added, with its last target version and no source version |
| Diff.DiffChanged | src/diff.ts:56-69 | a name in both appears exactly when the versions differ and a bucket is found, as an upgrade with that bucket and both versions, whichever way the version moved |
| Diff.DiffSelfEmpty | src/diff.ts:34-84 | a list diffed against itself gives no entry |
| Diff.DiffNeverDowngraded | src/diff.ts:61-69 | the diff never reports a downgrade |
| Diff.DiffUpgradesClassified | src/diff.ts:57-69 | every upgrade in a diff carries a bucket; unclassified version changes are dropped |
| Diff.DiffAddedLast | src/diff.ts:48-81 | every added entry follows all removed and upgraded entries |
| Npm.CanResolveMeaning | src/resolvers/npm.ts:14-19 | the resolver claims exactly the paths whose last segment is `package-lock.json` |
| Npm.Classify | src/resolvers/npm.ts:153-155 | an entry fails exactly when it is a truthy primitive, which `"version" in dep` rejects with a `TypeError` |
| Npm.ExtractOutcomes | src/resolvers/npm.ts:152-175 | a record fails exactly when it holds a truthy primitive, with the `TypeError` message; otherwise there is one outcome per entry |
| Npm.ExtractDependencies | src/resolvers/npm.ts:145-176 | appends each record's kept packages to the two lists in entry order, or fails as the record does |
| Npm.ClassifyEmits | src/resolvers/npm.ts:153-174 | an object entry with a version and a non-empty name goes to the development list when forced or `dev === true`, else to production; any other entry goes nowhere |
| Npm.ExtractFails | src/resolvers/npm.ts:153 | one truthy primitive anywhere fails the whole record |
| Npm.ExtractedMember | src/resolvers/npm.ts:152-175 | a package is extracted for a list exactly when some entry calls for it |
| Npm.ForcedDevOnly | src/resolvers/npm.ts:62-69 | with `forceDev` nothing reaches the production list |
| Npm.ResolveVersion1 | src/resolvers/npm.ts:47-75 | version 1: `dependencies` by their own flag, then all of `devDependencies` as development |
| Npm.ResolveVersion2Or3 | src/resolvers/npm.ts:85-115 | versions 2 and 3: `packages`, then the compatibility `dependencies`, both by their own flag |
| Npm.Resolve | src/resolvers/npm.ts:21-45 | the resolution is dispatched on `lockfileVersion ?? 1` |
| Npm.VersionDispatch | src/resolvers/npm.ts:25-44 | a missing version reads as 1; versions 2 and 3 resolve alike; any other number fails with the message naming it |
| Npm.NestedIgnored | src/resolvers/npm.ts:51-52 | nested `dependencies` records never contribute |
| Npm.NameWithoutNodeModules | src/resolvers/npm.ts:125-131 | a key without a `node_modules` segment is the package name |
| Npm.NameOfNestedModule | src/resolvers/npm.ts:136-139 | a key with several `node_modules` segments yields no name |
| Npm.NameAfterNodeModules | src/resolvers/npm.ts:140-142 | `prefix/node_modules/rest` names `rest`, scope included |
| Pnpm.CanResolveMeaning | src/resolvers/pnpm.ts:11-15 | the resolver claims exactly the paths whose last segment is `pnpm-lock.yaml` |
| Pnpm.Resolve | src/resolvers/pnpm.ts:17-66 | the loop over `packages` computes the specification's resolution |
| Pnpm.EntryEmits | src/resolvers/pnpm.ts:25-59 | an object entry whose key gives a name and that has a non-empty version goes to exactly one list, by its `dev` flag; other entries go nowhere |
| Pnpm.ResolvedMember | src/resolvers/pnpm.ts:24-60 | a package is listed exactly when some entry yields it for that list |
| Pnpm.ClassifyKeeps | src/resolvers/pnpm.ts:26-58 | an entry is kept as a package exactly when it yields that package |
| Pnpm.EntryVersionWins | src/resolvers/pnpm.ts:37-42 | a non-empty string `version` in the entry is preferred over the key's version |
| Pnpm.EmptyEntryVersionSkips | src/resolvers/pnpm.ts:39-46 | an empty string `version` in the entry skips the entry, whatever the key says |
| Pnpm.NodeModulesKeysAsNpm | src/resolvers/pnpm.ts:102-122 | a key with `node_modules` segments is cleaned as npm reads it |
| Pnpm.NestedPathDropped | src/resolvers/pnpm.ts:124-134 | without `node_modules`, a key is dropped exactly when it holds `/` and does not start with `@`; otherwise it is kept as is |
| Pnpm.ScopedKeyRoundTrip | src/resolvers/pnpm.ts:76-88 | `@scope/name@version` splits back into its name and version |
| Pnpm.ScopedKeyWithoutVersion | src/resolvers/pnpm.ts:78-82 | a scoped key with no second `@` has no version |
| Pnpm.PlainKeyRoundTrip | src/resolvers/pnpm.ts:90-99 | `name@version` splits back into its parts |
| Pnpm.PlainKeyWithoutVersion | src/resolvers/pnpm.ts:91-94 | a key without `@` has no version |
| Yarn.CanResolveMeaning | src/resolvers/yarn.ts:12-14 | the resolver claims exactly the paths whose last segment is `yarn.lock` |
| Yarn.Resolve | src/resolvers/yarn.ts:16-66 | the parse checks and the loop compute the specification's resolution |
| Yarn.EntryEmits | src/resolvers/yarn.ts:36-59 | an object entry whose key gives a package goes to exactly one list, by `devDependency === true` |
| Yarn.ResolvedMember | src/resolvers/yarn.ts:36-60 | a package is listed exactly when some entry yields it for that list |
| Yarn.PackageInfoShape | src/resolvers/yarn.ts:68-98 | a package read from a key is named by the trimmed text before the key's last `@`, with non-empty name and version |
| Yarn.NoNameBeforeAt | src/resolvers/yarn.ts:74-82 | a key without `@`, or with only a leading `@`, gives no package |
| Yarn.NameOfKey | src/resolvers/yarn.ts:79-97 | `name@range` gives the package `name` with the entry's version |
| Yarn.EntryVersionWins | src/resolvers/yarn.ts:85-88 | a non-empty string `version` in the entry is used as it is |
| Yarn.VersionAfterName | src/resolvers/yarn.ts:100-107 | the key's version is read from the text after its last `@` |
| Yarn.VersionAfterProtocol | src/resolvers/yarn.ts:112-127 | after a `protocol:`, the first `x.y.z…` token is taken, or the rest as it is |
| Yarn.VersionWithoutProtocol | src/resolvers/yarn.ts:113-127 | without a protocol, the first `x.y.z…` token is taken, or the range as it is |
| Yarn.BlankRange | src/resolvers/yarn.ts:107-110 | a blank range gives no version |
| Composer.CanResolveMeaning | src/resolvers/composer.ts:11-13 | the resolver claims exactly the paths whose last segment, lowered, is `composer.lock` |
| Composer.CollectPackages | src/resolvers/composer.ts:23-35 | the loop over a section computes the specification's list |
| Composer.Resolve | src/resolvers/composer.ts:15-58 | the parse and the two loops compute the specification's resolution |
| Composer.CollectedMember | src/resolvers/composer.ts:23-35 | a package is collected exactly when some entry is an object with that name and version |
| Composer.CollectedCount | src/resolvers/composer.ts:23-35 | one package per complete entry |
| Composer.SectionsIndependent | src/resolvers/composer.ts:22-57 | `packages` gives the production list and `packages-dev` the development list |
| Composer.NotAnObject | src/resolvers/composer.ts:60-68 | a document that is not an object fails with the loader's message behind `Failed to parse composer.lock: ` |
| Ruby.CanResolveMeaning | src/resolvers/ruby.ts:5-7 | the resolver claims exactly the paths whose last segment, lowered, is `gemfile.lock` |
| Ruby.GemMatch | src/resolvers/ruby.ts:72 | a match gives a name free of whitespace and `(`, and a non-empty version free of `)` |
| Ruby.EntryLineMatched | src/resolvers/ruby.ts:72-76 | an indented `name (version)…` line is matched as that gem |
| Ruby.MatchedIsEntryLine | src/resolvers/ruby.ts:72 | every matched line is an indented `name (version)…` line |
| Ruby.Kinds | src/resolvers/ruby.ts:42-66 | each line is read as one kind: a header, a top-level line, a gem entry or another line |
| Ruby.StepOfLine | src/resolvers/ruby.ts:42-78 | the loop body's tests on a line amount to a step on its kind |
| Ruby.ScanLinesIsScan | src/resolvers/ruby.ts:40-79 | the line-by-line scan equals the scan over the lines' kinds |
| Ruby.ParseLockfile | src/resolvers/ruby.ts:32-82 | the loop over the lines collects the scan's gems |
| Ruby.Resolve | src/resolvers/ruby.ts:9-30 | every gem becomes a production dependency, in order |
| Ruby.ResolutionOf | src/resolvers/ruby.ts:26-29 | a Gemfile.lock has no development dependencies |
| Ruby.EntryLineKind | src/resolvers/ruby.ts:56-76 | an indented entry line is read as that gem entry |
| Ruby.StoppedStays | src/resolvers/ruby.ts:63-65 | after the scan stops, later lines change nothing |
| Ruby.RunFlags | src/resolvers/ruby.ts:45-78 | `specs:` counts only inside `GEM`, the scan stops only inside `GEM`, and gems are collected only inside `specs:` |
| Ruby.RunInGemSection | src/resolvers/ruby.ts:45-48 | the scan is in the `GEM` section exactly when a `GEM` line was read |
| Ruby.RunInSpecs | src/resolvers/ruby.ts:51-54 | the scan is in `specs:` only after a `GEM` line and a later `specs:` line |
| Ruby.GemsGrow | src/resolvers/ruby.ts:76 | the gem list only grows |
| Ruby.InGemSectionIff | src/resolvers/ruby.ts:45-48 | the scan ends in the `GEM` section exactly when some line trims to `GEM` |
| Ruby.NoGemSection | src/resolvers/ruby.ts:44-78 | without a `GEM` line the scan does nothing |
| Ruby.NoGemSectionEmpty | src/resolvers/ruby.ts:9-30 | a file without a `GEM` line resolves to no packages |
| Ruby.NothingBeforeSpecs | src/resolvers/ruby.ts:69-78 | with no `GEM` line followed by a `specs:` line, no gem is collected |
| Ruby.GemsInLineOrder | src/resolvers/ruby.ts:40-79 | the gems of a prefix of the lines are a prefix of the gems |
| Ruby.TopLevelLineStops | src/resolvers/ruby.ts:56-66 | inside `GEM`, an unindented non-blank line other than a header ends the collection |
| Ruby.EntryLineCollected | src/resolvers/ruby.ts:69-77 | inside `specs:`, an entry line appends its gem, duplicates included |
| Ruby.OtherLineIgnored | src/resolvers/ruby.ts:40-79 | an indented line that is no header and no entry changes nothing |
| Python.CanResolveMeaning | src/resolvers/python.ts:5-9 | the resolver claims exactly the paths whose last segment matches `^requirements.*\.txt$` |
| Python.ExtractVersion | src/resolvers/python.ts:115-135 | a version found is non-empty |
| Python.ParsePackageLine | src/resolvers/python.ts:52-113 | a package found has a non-empty name and version |
| Python.CommentDropped | src/resolvers/python.ts:53-60 | everything from the first `#` on is dropped: the line parses as the text before it |
| Python.BeforePin | src/resolvers/python.ts:93 | `split("==")[0]`: a prefix of the text with no `==` starting inside it, followed by `==` unless it is the whole text |
| Python.PinnedLineVerbatim | src/resolvers/python.ts:82-96 | `name==version` gives the trimmed text before any further `==` as the version, verbatim (environment markers included), and no package when that text is empty |
| Python.Resolve | src/resolvers/python.ts:11-50 | the loop over the lines computes the specification's resolution |
| Python.ResolvedMember | src/resolvers/python.ts:18-44 | a package is a dependency exactly when some line is not skipped and parses to it |
| Python.NoDevDependencies | src/resolvers/python.ts:39-49 | a requirements file has no development dependencies |
| Python.NotSkipped | src/resolvers/python.ts:19-34 | a line without whitespace that does not start with `#` is neither skipped nor changed by trimming |
| Python.PinnedLine | src/resolvers/python.ts:82-96 | `name==version` gives exactly that package |
| Python.PinnedLineKept | src/resolvers/python.ts:37-43 | the loop keeps a pinned line as a production dependency |
| Python.RangeLine | src/resolvers/python.ts:97-104 | `name>=v` (or another operator than `==`) gives the version token after the operator |
| Python.VersionTokenExtracted | src/resolvers/python.ts:121-124 | a three-part version token is its own first match |
| Python.NameOnlyLine | src/resolvers/python.ts:105-110 | a bare name is skipped |
| Python.UrlLineSkipped | src/resolvers/python.ts:62-67 | `name @ https://…` is skipped |
| Python.ExtrasLine | src/resolvers/python.ts:69-78 | `name[extras]==v` gives the name without its extras and the version token |
| Patterns.TripleMatchSpec | src/resolvers/python.ts:121 | the first `\d+\.\d+\.\d+[^\s,]*` match starts at the leftmost triple, runs to the first stop character, and is absent exactly when no triple occurs |
| Patterns.PairMatchSpec | src/resolvers/python.ts:127-129 | the fallback match starts at the leftmost pair of digit runs, takes the whole run of `[a-zA-Z0-9.-]`, and is absent exactly when no pair occurs |
| Patterns.TripleAfterPrefix | src/resolvers/yarn.ts:121-124 | after a prefix holding no digit, a version token is what the triple search returns |
| Pipfile.CanResolveMeaning | src/resolvers/python-pipfile.ts:10-13 | the resolver claims exactly the paths whose last segment is `Pipfile.lock` |
| Pipfile.ExtractVersion | src/resolvers/python-pipfile.ts:57-78 | only a string gives a version, and a version found is non-empty |
| Pipfile.CollectSection | src/resolvers/python-pipfile.ts:28-36 | the loop over a section computes the specification's list |
| Pipfile.Resolve | src/resolvers/python-pipfile.ts:15-55 | the parse and the two loops compute the specification's resolution |
| Pipfile.PinnedVersion | src/resolvers/python-pipfile.ts:62-67 | `==v` gives `v` |
| Pipfile.LowerBoundOfRange | src/resolvers/python-pipfile.ts:62-67 | `>=v,<w` gives the lower bound `v` |
| Pipfile.FallbackVersion | src/resolvers/python-pipfile.ts:69-77 | without a triple, the two-part fallback decides, and there is no version exactly when no pair occurs |
| Pipfile.CollectedMember | src/resolvers/python-pipfile.ts:28-36 | a package is collected exactly when some entry yields it |
| Pipfile.SectionsIndependent | src/resolvers/python-pipfile.ts:26-54 | `default` gives the production list and `develop` the development list |
| Poetry.CanResolveMeaning | src/resolvers/python-poetry.ts:11-13 | the resolver claims exactly the paths whose last segment, lowered, is `poetry.lock` |
| Poetry.Resolve | src/resolvers/python-poetry.ts:15-56 | the parse and the loop compute the specification's resolution |
| Poetry.ResolvedMember | src/resolvers/python-poetry.ts:26-50 | a package is listed exactly when some table has its name and version and the matching category |
| Poetry.EveryTableOnce | src/resolvers/python-poetry.ts:26-50 | one package per table with a name and a version |
| Poetry.PackageNotArray | src/resolvers/python-poetry.ts:26 | a `package` that is not an array gives no packages |
| Poetry.NotAnObject | src/resolvers/python-poetry.ts:58-66 | a document that is not an object fails with the loader's message behind `Failed to parse poetry.lock: ` |
| Pdm.CanResolveMeaning | src/resolvers/python-pdm.ts:5-8 | the resolver claims exactly the paths whose last segment is `pdm.lock` |
| Pdm.Resolve | src/resolvers/python-pdm.ts:10-55 | the parse and the loop compute the specification's resolution |
| Pdm.ResolvedMember | src/resolvers/python-pdm.ts:21-49 | a package is listed exactly when some record has its name and version and the matching markers |
| Pdm.EveryRecordOnce | src/resolvers/python-pdm.ts:21-49 | one package per record with a name and a version |
| Pdm.EitherMarkerIsDev | src/resolvers/python-pdm.ts:36-40 | a `dev` group or `dev === true` makes the record a development dependency |
| Pdm.GroupsNotArray | src/resolvers/python-pdm.ts:36-40 | without a `groups` array, the `dev` flag alone decides |
| Registry.FirstAccepting | src/resolvers/index.ts:13 | the index of the first resolver that accepts the name: all earlier ones refuse it |
| Registry.FindResolver | src/resolvers/index.ts:12-14 | no resolver exactly when every registered one refuses; otherwise the first registered one that accepts |
| Registry.GetResolverByName | src/resolvers/index.ts:16-28 | a resolver found by name has that name in lower case |
| Registry.AcceptsAtMostOne | src/resolvers/index.ts:6-10 | no two registered resolvers accept the same file name |
| Registry.FindResolverAccepts | src/resolvers/index.ts:12-14 | a name is given to a resolver exactly when that resolver accepts it, so the order does not matter |
| Registry.FindResolverByFileName | src/resolvers/index.ts:6-14 | which resolver a path is given to, in terms of its last segment |
| Registry.UnregisteredFormats | src/resolvers/index.ts:6-10 | Yarn, Bundler, pip, Pipenv, Poetry and PDM lockfiles are given to no resolver |
| Registry.GetResolverByNameIff | src/resolvers/index.ts:16-28 | a name gives a resolver exactly when it is that resolver's name in some letter case |
| Registry.UnknownNameGivesNone | src/resolvers/index.ts:25-26 | any other name gives none |
| Registry.NameCaseInsensitive | src/resolvers/index.ts:17 | names equal up to letter case give the same resolver |
| CliResolver.LookupResolvers | src/cli/resolver.ts:10-55 | a success uses the same resolver for both files |
| CliResolver.UnknownNameFails | src/cli/resolver.ts:17-24 | an unknown resolver name fails, and the message starts by naming it |
| CliResolver.KnownNameUsed | src/cli/resolver.ts:17-31 | a known name, in any letter case, is used for both files |
| CliResolver.NameIgnoresFiles | src/cli/resolver.ts:17-32 | with a name given, the file names are not consulted |
| CliResolver.SourcePreferred | src/cli/resolver.ts:34-38 | without a name, a source file that selects a resolver decides |
| CliResolver.TargetFallback | src/cli/resolver.ts:35-38 | without a name, the target file decides only when the source selects nothing |
| CliResolver.NeitherMatches | src/cli/resolver.ts:40-45 | without a name and with neither file selecting, the lookup fails with a message naming the source and then the target |
| CliResolver.SuccessJustified | src/cli/resolver.ts:10-55 | every success uses a named resolver, or one that accepts the source's or the target's base name |
| Args.ParseArgs | src/cli/args.ts:3-30 | the loop over `argv` from index 2 computes the fold of the argument tokens over the defaults |
| Args.TokensAt | src/cli/args.ts:10-27 | the tokens from a cursor are the token there, then the tokens after the value it consumes |
| Args.FormatValue | src/cli/args.ts:13 | the format is never empty, and is the given value when that is truthy |
| Args.ValidateArgs | src/cli/args.ts:32-42 | succeeds exactly when help or version is set or both paths are truthy; otherwise fails with the missing-arguments message |
| Args.FoldHelp | src/cli/args.ts:18-19 | help is set exactly when a help flag occurs |
| Args.FoldVersion | src/cli/args.ts:20-21 | version is set exactly when a version flag occurs |
| Args.FormatLastWins | src/cli/args.ts:12-13 | the last format option decides the format |
| Args.ResolverLastWins | src/cli/args.ts:14-15 | the last resolver option decides the resolver name |
| Args.OutputLastWins | src/cli/args.ts:16-17 | the last output option decides the output file |
| Args.FoldFiles | src/cli/args.ts:22-26 | the two path fields hold the first two non-empty positionals, after any already taken |
| Args.ParsedFiles | src/cli/args.ts:22-26 | the source path is the first non-empty positional and the target the second; each is set exactly when there are that many |
| Args.ParsedFlags | src/cli/args.ts:18-21 | help and version are set exactly when their flags occur |
| Args.FirstTwoIgnored | src/cli/args.ts:10 | the first two elements of `argv` play no part |
| Args.ParsedDefaults | src/cli/args.ts:4-8 | with no arguments the defaults stand: text format, no flags, no paths |
| Args.ParsedValid | src/cli/args.ts:3-42 | a command line validates exactly when it has a help or version flag or at least two non-empty positionals |
| Grouping.SlotOf | src/reporters/utils.ts:15-29 | an upgrade goes to the group of its version change; a downgrade, addition or removal to its own group; an upgrade without a version change to none |
| Grouping.GroupByVersionChange | src/reporters/utils.ts:4-33 | the loop computes the specification's groups |
| Grouping.MatchingAppend | src/reporters/utils.ts:14-30 | the groups of a concatenation are the groups of each part, in order |
| Grouping.GroupMembership | src/reporters/utils.ts:14-30 | a change is in a group exactly when it is one of the changes and that group is its slot |
| Grouping.GroupCounts | src/reporters/utils.ts:14-30 | each group holds every change of its slot as often as the input does, and nothing else |
| Grouping.GroupedAppend | src/reporters/utils.ts:14-30 | grouping a concatenation groups each part, one after the other |
| Grouping.AtMostOneGroup | src/reporters/utils.ts:15-29 | no change is in two groups |
| Grouping.TotalAccounts | src/reporters/utils.ts:14-30 | the groups plus the upgrades without a version change account for every change once |
| Grouping.UnclassifiedUpgradeDropped | src/reporters/utils.ts:15-22 | an upgrade without a version change is in no group |
| Grouping.DiffHasNoDowngrades | src/reporters/utils.ts:23-24 | for a diff's changes the downgrade group is empty |
| Grouping.DiffFullyGrouped | src/reporters/utils.ts:14-30 | every change of a diff is in some group |

## Left out

- Reading files, `JSON.parse` and the YAML, TOML and Yarn lockfile parsers are outside the model. A resolver takes the parser's typed result, or its error message, as a parameter.
- Field values are modelled as strings or markers (`FieldValue`). `String(x)` of a non-string name or version in Poetry and PDM is kept only as "some text", not rendered.
- Object identity is not modelled. `getResolverByName` creates a new resolver object on each call; the model returns the kind of resolver.
- SemVer: `valid` and `compare` are modelled as SemVer 2.0.0's grammar and precedence. The `semver` library also trims surrounding whitespace and accepts a leading `v` (`v1.2.3`), and neither is modelled. Its 256-character limit and its `MAX_SAFE_INTEGER` bound on numbers are not modelled either.
- Diff.GetVersionChangeType: it differs from `getVersionChange` on versions with a leading `v` or surrounding whitespace, which the model's `valid` refuses. The library accepts `v1.2.3` and `v1.2.4`. Then `"v1.2.3".split(".").map(Number)` gives `NaN` as the first part, so the source reports `major`. The model reports no bucket (`Diff.VersionChangeMeaning` holds only for SemVer 2.0.0 text).
- `showHelp` (src/cli/args.ts:44-74) only prints text and is not modelled.
- The renderers (text, Markdown, HTML) and the application driver (`app.ts`, `bin.ts`) are not part of this model. The Markdown renderer's private grouping is not part of this model either.
- `Npm.Classify`: `"version" in dep` on a truthy primitive throws a `TypeError`. Its exact message is JavaScript-engine text and is modelled as one fixed message.
- Npm.Classify: an entry's `version` is modelled as a string or absent (`Option<string>`). The source checks only `"version" in dep` and keeps `dep.version` as it is, so a `null`, number or object version reaches the package list there. The model cannot represent such a version.
- Composer.Resolve: `packages` and `packages-dev` are modelled as absent, or as an array of entries. The source runs `for...of` over any truthy value. An object, a number or `true` throws "… is not iterable", and a string iterates its characters, each of which is skipped. Neither case is modelled. A package's `name` and `version` are modelled as strings; the source casts them with `as string`, so other values pass through unchanged, and the model does not represent them.
- Strings.ToLower: ASCII folding only. `toLowerCase` lowers every cased character and can change the length (`"İ"` gives two characters). The fold is exact wherever the model uses it: the registered resolver names, and the `/i` file-name patterns, which are ASCII and have no `u` flag.
- Strings.IntToString: it writes every integer in plain decimal. JavaScript writes numbers of magnitude `1e21` and above in exponent form. This only affects the "Unsupported lockfileVersion" message for such numbers.
