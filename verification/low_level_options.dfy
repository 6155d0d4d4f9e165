/** `parse_options` of the low-level benchmark (src/low-level/options.c): a
    loop over `argv` from index 1 that sets the benchmark type, the number of
    iterations and the number of repeats, stops the program on `--help` or
    on an error, and requires a type at the end. Printing and `exit` are
    modelled by the outcome they end in. */
module LowLevelOptions {
  import opened Wrappers
  import opened CommandLine

  /** `enum benchmark_type`; `quad-latency` exists only in builds with
      `FPPLUS_HAVE_FLOAT128`. */
  datatype BenchmarkType =
    | TypeNone
    | DoubleDoubleLatency
    | DoubleDoubleThroughput
    | QuadLatency
    | PolevlLatency

  datatype Options = Options(kind: BenchmarkType, iterations: nat, repeats: nat)

  const Defaults: Options := Options(TypeNone, 1000, 1024)

  /** Why the program exits with `EXIT_FAILURE`. */
  datatype Failure =
    | ExpectedType
    | InvalidType(name: string)
    | BadRepeats(error: ValueError)
    | BadIterations(error: ValueError)
    | UnknownArgument(token: string)
    | TypeNotSpecified

  /** How `parse_options` ends: it returns the options, or it prints the help
      and exits with success, or it exits with failure. */
  datatype Outcome = Parsed(options: Options) | Help | Failed(failure: Failure)

  /** The name under which `-t` selects a type. */
  function TypeName(t: BenchmarkType): string
  {
    match t
    case TypeNone => ""
    case DoubleDoubleLatency => "doubledouble-latency"
    case DoubleDoubleThroughput => "doubledouble-throughput"
    case QuadLatency => "quad-latency"
    case PolevlLatency => "polevl-latency"
  }

  /** The types a build accepts. */
  predicate Selectable(t: BenchmarkType, haveFloat128: bool)
  {
    t != TypeNone && (t == QuadLatency ==> haveFloat128)
  }

  /** The value of `-t`: the `strcmp` chain of the source. */
  function TypeNamed(name: string, haveFloat128: bool): (r: Option<BenchmarkType>)
    ensures r.Some? ==> Selectable(r.value, haveFloat128) && TypeName(r.value) == name
  {
    if name == "doubledouble-latency" then Some(DoubleDoubleLatency)
    else if name == "doubledouble-throughput" then Some(DoubleDoubleThroughput)
    else if haveFloat128 && name == "quad-latency" then Some(QuadLatency)
    else if name == "polevl-latency" then Some(PolevlLatency)
    else None
  }

  /** Every selectable type is accepted under its own name, so `-t` accepts
      exactly the names of the selectable types. */
  lemma TypeNamesRoundTrip(t: BenchmarkType, haveFloat128: bool)
    requires Selectable(t, haveFloat128)
    ensures TypeNamed(TypeName(t), haveFloat128) == Some(t)
  {
  }

  /** Where the loop stands: still running with the options so far, or the
      program has ended. */
  datatype Progress = Running(options: Options) | Stopped(outcome: Outcome)

  /** The loop `for (argi = ...; argi < argc; argi += 1)` from `argi` on. A
      valued flag consumes the token after it. */
  function ParseFrom(scan: Scanner, haveFloat128: bool, args: seq<string>, argi: nat, options: Options): (r: Progress)
    ensures r.Running? && options.iterations >= 1 && options.repeats >= 1 ==>
      r.options.iterations >= 1 && r.options.repeats >= 1
    ensures r.Running? && (options.kind == TypeNone || Selectable(options.kind, haveFloat128)) ==>
      r.options.kind == TypeNone || Selectable(r.options.kind, haveFloat128)
    ensures r.Stopped? ==> !r.outcome.Parsed?
    decreases |args| - argi
  {
    if argi >= |args| then Running(options)
    else
      var token := args[argi];
      if IsFlag(token, "--type", "-t") then
        if argi + 1 == |args| then Stopped(Failed(ExpectedType))
        else
          match TypeNamed(args[argi + 1], haveFloat128)
          case None => Stopped(Failed(InvalidType(args[argi + 1])))
          case Some(t) => ParseFrom(scan, haveFloat128, args, argi + 2, options.(kind := t))
      else if IsFlag(token, "--repeats", "-r") then
        match PositiveValue(scan, args, argi)
        case Rejected(e) => Stopped(Failed(BadRepeats(e)))
        case Positive(v) => ParseFrom(scan, haveFloat128, args, argi + 2, options.(repeats := v))
      else if IsFlag(token, "--iterations", "-i") then
        match PositiveValue(scan, args, argi)
        case Rejected(e) => Stopped(Failed(BadIterations(e)))
        case Positive(v) => ParseFrom(scan, haveFloat128, args, argi + 2, options.(iterations := v))
      else if IsFlag(token, "--help", "-h") then Stopped(Help)
      else Stopped(Failed(UnknownArgument(token)))
  }

  /** `parse_options(argc, argv)`. */
  function ParseOptions(scan: Scanner, haveFloat128: bool, args: seq<string>): (r: Outcome)
    ensures r.Parsed? ==> Selectable(r.options.kind, haveFloat128)
    ensures r.Parsed? ==> r.options.iterations >= 1 && r.options.repeats >= 1
  {
    match ParseFrom(scan, haveFloat128, args, 1, Defaults)
    case Stopped(outcome) => outcome
    case Running(o) => if o.kind == TypeNone then Failed(TypeNotSpecified) else Parsed(o)
  }

  /** Without arguments the type is missing. */
  lemma NoArguments(scan: Scanner, haveFloat128: bool, program: string)
    ensures ParseOptions(scan, haveFloat128, [program]) == Failed(TypeNotSpecified)
  {
  }

  /** With only a type, the counts keep their defaults. */
  lemma TypeOnly(scan: Scanner, haveFloat128: bool, program: string, t: BenchmarkType)
    requires Selectable(t, haveFloat128)
    ensures ParseOptions(scan, haveFloat128, [program, "-t", TypeName(t)]) == Parsed(Options(t, 1000, 1024))
    ensures ParseOptions(scan, haveFloat128, [program, "--type", TypeName(t)]) == Parsed(Options(t, 1000, 1024))
  {
    TypeNamesRoundTrip(t, haveFloat128);
    var short, long := [program, "-t", TypeName(t)], [program, "--type", TypeName(t)];
    assert short[1] == "-t" && short[2] == TypeName(t);
    assert long[1] == "--type" && long[2] == TypeName(t);
    assert ParseFrom(scan, haveFloat128, short, 3, Defaults.(kind := t)) == Running(Defaults.(kind := t));
    assert ParseFrom(scan, haveFloat128, long, 3, Defaults.(kind := t)) == Running(Defaults.(kind := t));
  }

  /** A prefix of the arguments that the loop gets through leaves it in the
      same state whatever follows: the loop reads each token at most once and
      never looks ahead past a flag's value. */
  lemma {:induction false} ParseAfter(scan: Scanner, haveFloat128: bool, args: seq<string>, more: seq<string>,
                                      argi: nat, options: Options, reached: Options)
    requires argi <= |args|
    requires ParseFrom(scan, haveFloat128, args, argi, options) == Running(reached)
    ensures ParseFrom(scan, haveFloat128, args + more, argi, options)
         == ParseFrom(scan, haveFloat128, args + more, |args|, reached)
    decreases |args| - argi
  {
    if argi < |args| {
      var token := args[argi];
      assert (args + more)[argi] == token;
      if IsFlag(token, "--type", "-t") {
        assert (args + more)[argi + 1] == args[argi + 1];
        var t := TypeNamed(args[argi + 1], haveFloat128).value;
        ParseAfter(scan, haveFloat128, args, more, argi + 2, options.(kind := t), reached);
      } else if IsFlag(token, "--repeats", "-r") {
        PositiveValueOfPrefix(scan, args, more, argi);
        var v := PositiveValue(scan, args, argi).value;
        ParseAfter(scan, haveFloat128, args, more, argi + 2, options.(repeats := v), reached);
      } else if IsFlag(token, "--iterations", "-i") {
        PositiveValueOfPrefix(scan, args, more, argi);
        var v := PositiveValue(scan, args, argi).value;
        ParseAfter(scan, haveFloat128, args, more, argi + 2, options.(iterations := v), reached);
      }
    }
  }

  /** `-h` or `--help` ends the program with success as soon as the loop
      reaches it, whatever follows. */
  lemma HelpStops(scan: Scanner, haveFloat128: bool, args: seq<string>, reached: Options, help: string, rest: seq<string>)
    requires |args| >= 1 && ParseFrom(scan, haveFloat128, args, 1, Defaults) == Running(reached)
    requires IsFlag(help, "--help", "-h")
    ensures ParseOptions(scan, haveFloat128, args + [help] + rest) == Help
  {
    ParseAfter(scan, haveFloat128, args, [help] + rest, 1, Defaults, reached);
    assert args + [help] + rest == args + ([help] + rest);
  }

  predicate Known(token: string)
  {
    IsFlag(token, "--type", "-t") || IsFlag(token, "--repeats", "-r")
    || IsFlag(token, "--iterations", "-i") || IsFlag(token, "--help", "-h")
  }

  /** A token that is not a flag ends the program with failure. */
  lemma UnknownFails(scan: Scanner, haveFloat128: bool, args: seq<string>, reached: Options, token: string, rest: seq<string>)
    requires |args| >= 1 && ParseFrom(scan, haveFloat128, args, 1, Defaults) == Running(reached)
    requires !Known(token)
    ensures ParseOptions(scan, haveFloat128, args + [token] + rest) == Failed(UnknownArgument(token))
  {
    ParseAfter(scan, haveFloat128, args, [token] + rest, 1, Defaults, reached);
    assert args + [token] + rest == args + ([token] + rest);
  }

  /** A valued flag as the last argument ends the program with failure. */
  lemma MissingValueFails(scan: Scanner, haveFloat128: bool, args: seq<string>, reached: Options, flag: string)
    requires |args| >= 1 && ParseFrom(scan, haveFloat128, args, 1, Defaults) == Running(reached)
    requires IsFlag(flag, "--type", "-t") || IsFlag(flag, "--repeats", "-r") || IsFlag(flag, "--iterations", "-i")
    ensures ParseOptions(scan, haveFloat128, args + [flag]).Failed?
    ensures ParseOptions(scan, haveFloat128, args + [flag]) in
      {Failed(ExpectedType), Failed(BadRepeats(MissingValue)), Failed(BadIterations(MissingValue))}
  {
    ParseAfter(scan, haveFloat128, args, [flag], 1, Defaults, reached);
  }

  /** A count that does not scan, or scans as zero, ends the program with
      failure. */
  lemma BadCountFails(scan: Scanner, haveFloat128: bool, args: seq<string>, reached: Options, flag: string, value: string, rest: seq<string>)
    requires |args| >= 1 && ParseFrom(scan, haveFloat128, args, 1, Defaults) == Running(reached)
    requires IsFlag(flag, "--repeats", "-r") || IsFlag(flag, "--iterations", "-i")
    requires scan(value) == None || scan(value) == Some(0)
    ensures ParseOptions(scan, haveFloat128, args + [flag, value] + rest).Failed?
  {
    ParseAfter(scan, haveFloat128, args, [flag, value] + rest, 1, Defaults, reached);
    assert args + [flag, value] + rest == args + ([flag, value] + rest);
    assert (args + [flag, value] + rest)[|args| + 1] == value;
  }

  /** A later `-i`, `-r` or `-t` overrides what earlier ones set, and leaves
      the other fields alone. */
  lemma LastWins(scan: Scanner, haveFloat128: bool, args: seq<string>, reached: Options, value: string, n: nat, t: BenchmarkType)
    requires |args| >= 1 && ParseFrom(scan, haveFloat128, args, 1, Defaults) == Running(reached)
    requires scan(value) == Some(n) && n > 0 && Selectable(t, haveFloat128)
    ensures ParseFrom(scan, haveFloat128, args + ["-i", value], 1, Defaults) == Running(reached.(iterations := n))
    ensures ParseFrom(scan, haveFloat128, args + ["-r", value], 1, Defaults) == Running(reached.(repeats := n))
    ensures ParseFrom(scan, haveFloat128, args + ["-t", TypeName(t)], 1, Defaults) == Running(reached.(kind := t))
  {
    ParseAfter(scan, haveFloat128, args, ["-i", value], 1, Defaults, reached);
    ParseAfter(scan, haveFloat128, args, ["-r", value], 1, Defaults, reached);
    ParseAfter(scan, haveFloat128, args, ["-t", TypeName(t)], 1, Defaults, reached);
    TypeNamesRoundTrip(t, haveFloat128);
  }
}
