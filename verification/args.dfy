/**
 * The command-line parser: `parseArgs` walks `argv` from its third entry,
 * letting options consume the token after them, and `validateArgs` checks
 * that both lockfile paths were given unless help or the version was asked
 * for.
 */
module Args {
  import opened Model

  /**
   * The parsed arguments. An absent field is `None`; an option given as the
   * last token, with nothing after it, sets its field to `None` as well.
   */
  datatype CliArgs = CliArgs(
    format: string,
    help: bool,
    version: bool,
    resolverName: Option<string>,
    outputFile: Option<string>,
    sourceFile: Option<string>,
    targetFile: Option<string>)

  const Defaults := CliArgs("text", false, false, None, None, None, None)
  const DefaultFormat := "text"
  const MissingArgumentsMessage := "Missing required arguments: source-lockfile and target-lockfile are required"

  /** JavaScript truthiness of an optional string: present and not empty. */
  predicate Truthy(s: Option<string>)
  {
    s.Some? && s.value != ""
  }

  // ---------------------------------------------------------------------------
  // Tokens

  /**
   * What the loop makes of the token at its cursor: an option with the
   * token after it (none at the end of `argv`), a flag, or a positional.
   */
  datatype Token =
    | FormatOpt(value: Option<string>)
    | ResolverOpt(value: Option<string>)
    | OutputOpt(value: Option<string>)
    | HelpFlag
    | VersionFlag
    | Positional(text: string)

  predicate IsFormatOption(arg: string) { arg == "--format" || arg == "-f" }
  predicate IsResolverOption(arg: string) { arg == "--resolver" || arg == "-r" }
  predicate IsOutputOption(arg: string) { arg == "--output" || arg == "-o" }
  predicate IsHelpFlag(arg: string) { arg == "--help" || arg == "-h" }
  predicate IsVersionFlag(arg: string) { arg == "--version" || arg == "-v" }

  /** The tokens of `rest`, read from the front; an option takes the next entry as its value. */
  function Tokens(rest: seq<string>): (ts: seq<Token>)
    ensures |ts| <= |rest|
    decreases |rest|
  {
    if rest == [] then []
    else
      var arg := rest[0];
      var value := if |rest| > 1 then Some(rest[1]) else None;
      var after := if |rest| > 1 then rest[2..] else [];
      if IsFormatOption(arg) then [FormatOpt(value)] + Tokens(after)
      else if IsResolverOption(arg) then [ResolverOpt(value)] + Tokens(after)
      else if IsOutputOption(arg) then [OutputOpt(value)] + Tokens(after)
      else if IsHelpFlag(arg) then [HelpFlag] + Tokens(rest[1..])
      else if IsVersionFlag(arg) then [VersionFlag] + Tokens(rest[1..])
      else [Positional(arg)] + Tokens(rest[1..])
  }

  /** `argv[++i] || "text"`: a missing or empty value gives the default format. */
  function FormatValue(value: Option<string>): (format: string)
    ensures format != ""
    ensures Truthy(value) ==> format == value.value
  {
    if Truthy(value) then value.value else DefaultFormat
  }

  /** What one token does to the arguments. */
  function Apply(args: CliArgs, t: Token): CliArgs
  {
    match t
    case FormatOpt(value) => args.(format := FormatValue(value))
    case ResolverOpt(value) => args.(resolverName := value)
    case OutputOpt(value) => args.(outputFile := value)
    case HelpFlag => args.(help := true)
    case VersionFlag => args.(version := true)
    case Positional(arg) =>
      if !Truthy(args.sourceFile) then args.(sourceFile := Some(arg))
      else if !Truthy(args.targetFile) then args.(targetFile := Some(arg))
      else args
  }

  /** The arguments after the tokens, in order. */
  function Fold(args: CliArgs, ts: seq<Token>): CliArgs
    decreases |ts|
  {
    if ts == [] then args else Fold(Apply(args, ts[0]), ts[1..])
  }

  /** The entries of `argv` from index `i` on (none past its end). */
  function From(argv: seq<string>, i: nat): seq<string>
  {
    if i >= |argv| then [] else argv[i..]
  }

  /** The arguments `parseArgs` returns: the defaults, then the tokens of `argv` after its first two entries. */
  function Parsed(argv: seq<string>): CliArgs
  {
    Fold(Defaults, Tokens(From(argv, 2)))
  }

  /** `parseArgs`. */
  method ParseArgs(argv: seq<string>) returns (args: CliArgs)
    ensures args == Parsed(argv)
  {
    args := Defaults;
    var i := 2;
    while i < |argv|
      invariant 2 <= i
      invariant Fold(args, Tokens(From(argv, i))) == Parsed(argv)
      decreases |argv| - i
    {
      var arg := argv[i];
      ghost var before, t, next := args, TokenAt(argv, i), NextAt(argv, i);
      TokensAt(argv, i);
      FoldCons(args, t, Tokens(From(argv, next)));
      if arg == "--format" || arg == "-f" {
        i := i + 1;
        args := args.(format := if i < |argv| && argv[i] != "" then argv[i] else DefaultFormat);
      } else if arg == "--resolver" || arg == "-r" {
        i := i + 1;
        args := args.(resolverName := if i < |argv| then Some(argv[i]) else None);
      } else if arg == "--output" || arg == "-o" {
        i := i + 1;
        args := args.(outputFile := if i < |argv| then Some(argv[i]) else None);
      } else if arg == "--help" || arg == "-h" {
        args := args.(help := true);
      } else if arg == "--version" || arg == "-v" {
        args := args.(version := true);
      } else if !Truthy(args.sourceFile) {
        args := args.(sourceFile := Some(arg));
      } else if !Truthy(args.targetFile) {
        args := args.(targetFile := Some(arg));
      }
      i := i + 1;
      assert i == next && args == Apply(before, t);
    }
  }

  /** The token the loop reads at index `i`, with the entry after it for an option. */
  function TokenAt(argv: seq<string>, i: nat): Token
    requires i < |argv|
  {
    var arg := argv[i];
    var value := if i + 1 < |argv| then Some(argv[i + 1]) else None;
    if IsFormatOption(arg) then FormatOpt(value)
    else if IsResolverOption(arg) then ResolverOpt(value)
    else if IsOutputOption(arg) then OutputOpt(value)
    else if IsHelpFlag(arg) then HelpFlag
    else if IsVersionFlag(arg) then VersionFlag
    else Positional(arg)
  }

  /** Where the loop reads next: past the option's value, or past the token. */
  function NextAt(argv: seq<string>, i: nat): nat
    requires i < |argv|
  {
    var arg := argv[i];
    if IsFormatOption(arg) || IsResolverOption(arg) || IsOutputOption(arg) then i + 2 else i + 1
  }

  /** The tokens from the cursor: the token there, then those from where the loop goes next. */
  lemma {:induction false} TokensAt(argv: seq<string>, i: nat)
    requires i < |argv|
    ensures Tokens(From(argv, i)) == [TokenAt(argv, i)] + Tokens(From(argv, NextAt(argv, i)))
  {
    var rest := argv[i..];
    assert rest[1..] == From(argv, i + 1);
    if |rest| > 1 {
      assert rest[2..] == From(argv, i + 2);
    }
  }

  /** Folding over a token and more is applying the token, then folding over the rest. */
  lemma {:induction false} FoldCons(args: CliArgs, t: Token, ts: seq<Token>)
    ensures Fold(args, [t] + ts) == Fold(Apply(args, t), ts)
  {
    assert ([t] + ts)[1..] == ts;
  }

  /** `validateArgs`: `Failure` is the error it throws. */
  function ValidateArgs(args: CliArgs): (r: Result<()>)
    ensures r.Success? <==> args.help || args.version || (Truthy(args.sourceFile) && Truthy(args.targetFile))
    ensures r.Failure? ==> r.message == MissingArgumentsMessage
  {
    if args.help || args.version then Success(())
    else if !Truthy(args.sourceFile) || !Truthy(args.targetFile) then Failure(MissingArgumentsMessage)
    else Success(())
  }

  // ---------------------------------------------------------------------------
  // Properties of the fold

  /** Folding over two runs of tokens is folding over the first, then the second. */
  lemma {:induction false} FoldAppend(args: CliArgs, xs: seq<Token>, ys: seq<Token>)
    ensures Fold(args, xs + ys) == Fold(Fold(args, xs), ys)
    decreases |xs|
  {
    if xs != [] {
      assert (xs + ys)[1..] == xs[1..] + ys;
      FoldAppend(Apply(args, xs[0]), xs[1..], ys);
    } else {
      assert xs + ys == ys;
    }
  }

  /** Help is asked for exactly when it was already, or some token is the help flag. */
  lemma {:induction false} FoldHelp(args: CliArgs, ts: seq<Token>)
    ensures Fold(args, ts).help <==> args.help || HelpFlag in ts
    decreases |ts|
  {
    if ts != [] {
      FoldHelp(Apply(args, ts[0]), ts[1..]);
      assert ts == [ts[0]] + ts[1..];
    }
  }

  /** The version is asked for exactly when it was already, or some token is the version flag. */
  lemma {:induction false} FoldVersion(args: CliArgs, ts: seq<Token>)
    ensures Fold(args, ts).version <==> args.version || VersionFlag in ts
    decreases |ts|
  {
    if ts != [] {
      FoldVersion(Apply(args, ts[0]), ts[1..]);
      assert ts == [ts[0]] + ts[1..];
    }
  }

  /** Tokens other than format options leave the format alone. */
  lemma {:induction false} FoldKeepsFormat(args: CliArgs, ts: seq<Token>)
    requires forall k :: 0 <= k < |ts| ==> !ts[k].FormatOpt?
    ensures Fold(args, ts).format == args.format
    decreases |ts|
  {
    if ts != [] {
      FoldKeepsFormat(Apply(args, ts[0]), ts[1..]);
    }
  }

  /** Tokens other than resolver options leave the resolver name alone. */
  lemma {:induction false} FoldKeepsResolver(args: CliArgs, ts: seq<Token>)
    requires forall k :: 0 <= k < |ts| ==> !ts[k].ResolverOpt?
    ensures Fold(args, ts).resolverName == args.resolverName
    decreases |ts|
  {
    if ts != [] {
      FoldKeepsResolver(Apply(args, ts[0]), ts[1..]);
    }
  }

  /** Tokens other than output options leave the output file alone. */
  lemma {:induction false} FoldKeepsOutput(args: CliArgs, ts: seq<Token>)
    requires forall k :: 0 <= k < |ts| ==> !ts[k].OutputOpt?
    ensures Fold(args, ts).outputFile == args.outputFile
    decreases |ts|
  {
    if ts != [] {
      FoldKeepsOutput(Apply(args, ts[0]), ts[1..]);
    }
  }

  /** The last format option wins; a missing or empty value gives `text`. */
  lemma {:induction false} FormatLastWins(args: CliArgs, before: seq<Token>, value: Option<string>, after: seq<Token>)
    requires forall k :: 0 <= k < |after| ==> !after[k].FormatOpt?
    ensures Fold(args, before + [FormatOpt(value)] + after).format == FormatValue(value)
  {
    FoldAppend(args, before + [FormatOpt(value)], after);
    FoldAppend(args, before, [FormatOpt(value)]);
    FoldKeepsFormat(Fold(args, before + [FormatOpt(value)]), after);
  }

  /** The last resolver option wins, even when it has no value and so clears the name. */
  lemma {:induction false} ResolverLastWins(args: CliArgs, before: seq<Token>, value: Option<string>, after: seq<Token>)
    requires forall k :: 0 <= k < |after| ==> !after[k].ResolverOpt?
    ensures Fold(args, before + [ResolverOpt(value)] + after).resolverName == value
  {
    FoldAppend(args, before + [ResolverOpt(value)], after);
    FoldAppend(args, before, [ResolverOpt(value)]);
    FoldKeepsResolver(Fold(args, before + [ResolverOpt(value)]), after);
  }

  /** The last output option wins, even when it has no value and so clears the file. */
  lemma {:induction false} OutputLastWins(args: CliArgs, before: seq<Token>, value: Option<string>, after: seq<Token>)
    requires forall k :: 0 <= k < |after| ==> !after[k].OutputOpt?
    ensures Fold(args, before + [OutputOpt(value)] + after).outputFile == value
  {
    FoldAppend(args, before + [OutputOpt(value)], after);
    FoldAppend(args, before, [OutputOpt(value)]);
    FoldKeepsOutput(Fold(args, before + [OutputOpt(value)]), after);
  }

  // ---------------------------------------------------------------------------
  // The two lockfile paths

  /** The texts of the positional tokens, in order. */
  function Positionals(ts: seq<Token>): (ps: seq<string>)
    ensures |ps| <= |ts|
    decreases |ts|
  {
    if ts == [] then []
    else (if ts[0].Positional? then [ts[0].text] else []) + Positionals(ts[1..])
  }

  /** The non-empty strings of `ps`, in order. */
  function NonEmpty(ps: seq<string>): (r: seq<string>)
    ensures forall k :: 0 <= k < |r| ==> r[k] != ""
    decreases |ps|
  {
    if ps == [] then []
    else (if ps[0] != "" then [ps[0]] else []) + NonEmpty(ps[1..])
  }

  /** The paths already taken, source first: the truthy ones among the two fields. */
  function Taken(args: CliArgs): seq<string>
  {
    (if Truthy(args.sourceFile) then [args.sourceFile.value] else [])
    + (if Truthy(args.targetFile) then [args.targetFile.value] else [])
  }

  /** The target is only ever taken after the source. */
  predicate Ordered(args: CliArgs)
  {
    Truthy(args.targetFile) ==> Truthy(args.sourceFile)
  }

  /**
   * The two path fields hold the first two of `paths`: each is truthy
   * exactly when `paths` is long enough to reach it.
   */
  predicate HoldsFirstTwo(args: CliArgs, paths: seq<string>)
  {
    (Truthy(args.sourceFile) <==> |paths| >= 1)
    && (|paths| >= 1 ==> args.sourceFile == Some(paths[0]))
    && (Truthy(args.targetFile) <==> |paths| >= 2)
    && (|paths| >= 2 ==> args.targetFile == Some(paths[1]))
  }

  /**
   * After the tokens, the two path fields hold the first two of the paths
   * already taken followed by the non-empty positionals: an empty positional
   * fills a field without making it truthy, so the next one replaces it, and
   * positionals past the second path are ignored.
   */
  lemma {:induction false} FoldFiles(args: CliArgs, ts: seq<Token>)
    requires Ordered(args)
    ensures HoldsFirstTwo(Fold(args, ts), Taken(args) + NonEmpty(Positionals(ts)))
    decreases |ts|
  {
    if ts == [] {
      assert Taken(args) + [] == Taken(args);
    } else {
      var t, rest := ts[0], ts[1..];
      TokenTaken(args, t, []);
      FoldFiles(Apply(args, t), rest);
      assert ts == [t] + rest;
      FilesStep(args, t, rest, Fold(Apply(args, t), rest));
    }
  }

  /** The induction step of `FoldFiles`: one token in front of the rest. */
  lemma {:induction false} FilesStep(args: CliArgs, t: Token, rest: seq<Token>, after: CliArgs)
    requires Ordered(args)
    requires HoldsFirstTwo(after, Taken(Apply(args, t)) + NonEmpty(Positionals(rest)))
    ensures HoldsFirstTwo(after, Taken(args) + NonEmpty(Positionals([t] + rest)))
  {
    var tail := NonEmpty(Positionals(rest));
    var own := if t.Positional? && t.text != "" then [t.text] else [];
    TokenTaken(args, t, tail);
    FilesCons(t, rest);
    SameFirstTwo(after, Taken(Apply(args, t)) + tail, Taken(args) + (own + tail));
  }

  /** The non-empty positionals of a token followed by more: its own text first, when it has one. */
  lemma {:induction false} FilesCons(t: Token, rest: seq<Token>)
    ensures NonEmpty(Positionals([t] + rest))
      == (if t.Positional? && t.text != "" then [t.text] else []) + NonEmpty(Positionals(rest))
  {
    assert ([t] + rest)[0] == t && ([t] + rest)[1..] == rest;
    NonEmptyCons(if t.Positional? then [t.text] else [], Positionals(rest));
  }

  /** The non-empty strings of at most one string followed by more. */
  lemma {:induction false} NonEmptyCons(p: seq<string>, ps: seq<string>)
    requires |p| <= 1
    ensures NonEmpty(p + ps) == (if p != [] && p[0] != "" then p else []) + NonEmpty(ps)
  {
    if p != [] {
      assert (p + ps)[1..] == ps;
    } else {
      assert p + ps == ps;
    }
  }

  /** Two sequences of paths that agree on what the two fields can hold. */
  predicate AgreeOnFirstTwo(p: seq<string>, q: seq<string>)
  {
    (|p| >= 1 <==> |q| >= 1) && (|p| >= 2 <==> |q| >= 2)
    && (|p| >= 1 ==> p[0] == q[0]) && (|p| >= 2 ==> p[1] == q[1])
  }

  lemma {:induction false} SameFirstTwo(args: CliArgs, p: seq<string>, q: seq<string>)
    requires HoldsFirstTwo(args, p) && AgreeOnFirstTwo(p, q)
    ensures HoldsFirstTwo(args, q)
  {
  }

  /**
   * One token keeps the fields ordered, and the paths taken after it,
   * followed by the later non-empty positionals, agree with those taken
   * before it followed by its own text when that is a non-empty positional.
   */
  lemma {:induction false} TokenTaken(args: CliArgs, t: Token, tail: seq<string>)
    requires Ordered(args)
    ensures Ordered(Apply(args, t))
    ensures AgreeOnFirstTwo(Taken(Apply(args, t)) + tail,
      Taken(args) + ((if t.Positional? && t.text != "" then [t.text] else []) + tail))
  {
    var next := Apply(args, t);
    if t.Positional? && t.text != "" && Truthy(args.sourceFile) && Truthy(args.targetFile) {
      assert next == args;
      var q := Taken(args) + ([t.text] + tail);
      assert q[0] == args.sourceFile.value && q[1] == args.targetFile.value;
    } else if t.Positional? && t.text != "" {
      assert Taken(next) == Taken(args) + [t.text];
    } else {
      assert Taken(next) == Taken(args);
    }
  }

  /**
   * `parseArgs` takes the first non-empty positional as the source path and
   * the second as the target path; each is set exactly when there are that
   * many.
   */
  lemma {:induction false} ParsedFiles(argv: seq<string>)
    ensures HoldsFirstTwo(Parsed(argv), NonEmpty(Positionals(Tokens(From(argv, 2)))))
  {
    FoldFiles(Defaults, Tokens(From(argv, 2)));
    assert Taken(Defaults) == [];
  }

  /** `parseArgs` asks for help or the version exactly when some token is that flag. */
  lemma {:induction false} ParsedFlags(argv: seq<string>)
    ensures Parsed(argv).help <==> HelpFlag in Tokens(From(argv, 2))
    ensures Parsed(argv).version <==> VersionFlag in Tokens(From(argv, 2))
  {
    FoldHelp(Defaults, Tokens(From(argv, 2)));
    FoldVersion(Defaults, Tokens(From(argv, 2)));
  }

  /** The first two entries of `argv` are never read. */
  lemma {:induction false} FirstTwoIgnored(a: seq<string>, b: seq<string>, rest: seq<string>)
    requires |a| == 2 && |b| == 2
    ensures Parsed(a + rest) == Parsed(b + rest)
  {
    assert From(a + rest, 2) == From(b + rest, 2);
  }

  /** Without tokens after the first two, the arguments are the defaults. */
  lemma {:induction false} ParsedDefaults(argv: seq<string>)
    requires |argv| <= 2
    ensures Parsed(argv) == CliArgs(DefaultFormat, false, false, None, None, None, None)
  {
  }

  /**
   * The parsed arguments pass validation exactly when help or the version
   * was asked for, or at least two non-empty positionals were given.
   */
  lemma {:induction false} ParsedValid(argv: seq<string>)
    ensures var ts := Tokens(From(argv, 2));
      ValidateArgs(Parsed(argv)).Success?
      <==> HelpFlag in ts || VersionFlag in ts || |NonEmpty(Positionals(ts))| >= 2
  {
    ParsedFiles(argv);
    ParsedFlags(argv);
  }
}
