/** `parse_options` of the dot-product benchmark (src/dot/options.c): a loop
    over `argv` from index 1 that sets the array size and the number of
    iterations, stops the program on `--help` or on an error, and requires
    an array size at the end. Printing and `exit` are modelled by the
    outcome they end in. */
module DotOptions {
  import opened Wrappers
  import opened CommandLine

  datatype Options = Options(iterations: nat, arraySize: nat)

  /** No array size yet: zero stands for "not specified". */
  const Defaults: Options := Options(1000, 0)

  /** Why the program exits with `EXIT_FAILURE`. The last one is reported as
      "the block size is not specified". */
  datatype Failure =
    | BadArraySize(error: ValueError)
    | BadIterations(error: ValueError)
    | UnknownArgument(token: string)
    | SizeNotSpecified

  /** How `parse_options` ends: it returns the options, or it prints the help
      and exits with success, or it exits with failure. */
  datatype Outcome = Parsed(options: Options) | Help | Failed(failure: Failure)

  /** Where the loop stands: still running with the options so far, or the
      program has ended. */
  datatype Progress = Running(options: Options) | Stopped(outcome: Outcome)

  /** The loop `for (argi = ...; argi < argc; argi += 1)` from `argi` on. A
      valued flag consumes the token after it. */
  function ParseFrom(scan: Scanner, args: seq<string>, argi: nat, options: Options): (r: Progress)
    ensures r.Running? && options.iterations >= 1 ==> r.options.iterations >= 1
    ensures r.Running? && options.arraySize >= 1 ==> r.options.arraySize >= 1
    ensures r.Stopped? ==> !r.outcome.Parsed?
    decreases |args| - argi
  {
    if argi >= |args| then Running(options)
    else
      var token := args[argi];
      if IsFlag(token, "--array-size", "-s") then
        match PositiveValue(scan, args, argi)
        case Rejected(e) => Stopped(Failed(BadArraySize(e)))
        case Positive(v) => ParseFrom(scan, args, argi + 2, options.(arraySize := v))
      else if IsFlag(token, "--iterations", "-i") then
        match PositiveValue(scan, args, argi)
        case Rejected(e) => Stopped(Failed(BadIterations(e)))
        case Positive(v) => ParseFrom(scan, args, argi + 2, options.(iterations := v))
      else if IsFlag(token, "--help", "-h") then Stopped(Help)
      else Stopped(Failed(UnknownArgument(token)))
  }

  /** `parse_options(argc, argv)`. A returned array size is positive: either
      a `-s` set it, and zero is rejected there, or the final check fails. */
  function ParseOptions(scan: Scanner, args: seq<string>): (r: Outcome)
    ensures r.Parsed? ==> r.options.arraySize >= 1 && r.options.iterations >= 1
  {
    match ParseFrom(scan, args, 1, Defaults)
    case Stopped(outcome) => outcome
    case Running(o) => if o.arraySize == 0 then Failed(SizeNotSpecified) else Parsed(o)
  }

  /** Without arguments the array size is missing. */
  lemma NoArguments(scan: Scanner, program: string)
    ensures ParseOptions(scan, [program]) == Failed(SizeNotSpecified)
  {
  }

  /** With only an array size, the iterations keep their default. */
  lemma SizeOnly(scan: Scanner, program: string, value: string, n: nat)
    requires scan(value) == Some(n) && n > 0
    ensures ParseOptions(scan, [program, "-s", value]) == Parsed(Options(1000, n))
    ensures ParseOptions(scan, [program, "--array-size", value]) == Parsed(Options(1000, n))
  {
    var short, long := [program, "-s", value], [program, "--array-size", value];
    assert short[1] == "-s" && short[2] == value;
    assert long[1] == "--array-size" && long[2] == value;
    assert PositiveValue(scan, short, 1) == Positive(n);
    assert PositiveValue(scan, long, 1) == Positive(n);
    assert ParseFrom(scan, short, 3, Defaults.(arraySize := n)) == Running(Options(1000, n));
    assert ParseFrom(scan, long, 3, Defaults.(arraySize := n)) == Running(Options(1000, n));
  }

  /** A prefix of the arguments that the loop gets through leaves it in the
      same state whatever follows. */
  lemma {:induction false} ParseAfter(scan: Scanner, args: seq<string>, more: seq<string>,
                                      argi: nat, options: Options, reached: Options)
    requires argi <= |args|
    requires ParseFrom(scan, args, argi, options) == Running(reached)
    ensures ParseFrom(scan, args + more, argi, options) == ParseFrom(scan, args + more, |args|, reached)
    decreases |args| - argi
  {
    if argi < |args| {
      var token := args[argi];
      assert (args + more)[argi] == token;
      if IsFlag(token, "--array-size", "-s") {
        PositiveValueOfPrefix(scan, args, more, argi);
        var v := PositiveValue(scan, args, argi).value;
        ParseAfter(scan, args, more, argi + 2, options.(arraySize := v), reached);
      } else if IsFlag(token, "--iterations", "-i") {
        PositiveValueOfPrefix(scan, args, more, argi);
        var v := PositiveValue(scan, args, argi).value;
        ParseAfter(scan, args, more, argi + 2, options.(iterations := v), reached);
      }
    }
  }

  /** `-h` or `--help` ends the program with success as soon as the loop
      reaches it, whatever follows. */
  lemma HelpStops(scan: Scanner, args: seq<string>, reached: Options, help: string, rest: seq<string>)
    requires |args| >= 1 && ParseFrom(scan, args, 1, Defaults) == Running(reached)
    requires IsFlag(help, "--help", "-h")
    ensures ParseOptions(scan, args + [help] + rest) == Help
  {
    var all := args + ([help] + rest);
    assert args + [help] + rest == all;
    ParseAfter(scan, args, [help] + rest, 1, Defaults, reached);
    assert all[|args|] == help;
    assert !IsFlag(help, "--array-size", "-s") && !IsFlag(help, "--iterations", "-i") by {
      assert "-h"[1] != "-s"[1] && "-h"[1] != "-i"[1];
      assert |"--help"| != |"--array-size"| && |"--help"| != |"--iterations"|;
    }
  }

  /** A token that is not a flag ends the program with failure. */
  lemma UnknownFails(scan: Scanner, args: seq<string>, reached: Options, token: string, rest: seq<string>)
    requires |args| >= 1 && ParseFrom(scan, args, 1, Defaults) == Running(reached)
    requires !IsFlag(token, "--array-size", "-s") && !IsFlag(token, "--iterations", "-i")
    requires !IsFlag(token, "--help", "-h")
    ensures ParseOptions(scan, args + [token] + rest) == Failed(UnknownArgument(token))
  {
    ParseAfter(scan, args, [token] + rest, 1, Defaults, reached);
    assert args + [token] + rest == args + ([token] + rest);
  }

  /** `-s` or `-i` needs a following value that scans as a positive number;
      otherwise the program ends with failure. */
  lemma BadValueFails(scan: Scanner, args: seq<string>, reached: Options, flag: string, value: string, rest: seq<string>)
    requires |args| >= 1 && ParseFrom(scan, args, 1, Defaults) == Running(reached)
    requires IsFlag(flag, "--array-size", "-s") || IsFlag(flag, "--iterations", "-i")
    requires scan(value) == None || scan(value) == Some(0)
    ensures ParseOptions(scan, args + [flag]).Failed?
    ensures ParseOptions(scan, args + [flag, value] + rest).Failed?
  {
    ParseAfter(scan, args, [flag], 1, Defaults, reached);
    ParseAfter(scan, args, [flag, value] + rest, 1, Defaults, reached);
    assert args + [flag, value] + rest == args + ([flag, value] + rest);
    assert (args + [flag, value] + rest)[|args| + 1] == value;
  }

  /** A later `-s` or `-i` overrides what earlier ones set, and leaves the
      other field alone. */
  lemma LastWins(scan: Scanner, args: seq<string>, reached: Options, value: string, n: nat)
    requires |args| >= 1 && ParseFrom(scan, args, 1, Defaults) == Running(reached)
    requires scan(value) == Some(n) && n > 0
    ensures ParseFrom(scan, args + ["-s", value], 1, Defaults) == Running(reached.(arraySize := n))
    ensures ParseFrom(scan, args + ["-i", value], 1, Defaults) == Running(reached.(iterations := n))
  {
    ParseAfter(scan, args, ["-s", value], 1, Defaults, reached);
    ParseAfter(scan, args, ["-i", value], 1, Defaults, reached);
  }
}
