/** What the two benchmark option parsers share: `argv` as a sequence of
    strings, flags with a long and a short spelling, and the positive
    `size_t` value that follows a valued flag. `sscanf(token, "%zu", &v)` is
    a parameter: a scanner that yields the number a token denotes, or
    nothing when it does not parse. */
module CommandLine {
  import opened Wrappers

  type Scanner = string -> Option<nat>

  /** `strcmp(token, long) == 0 || strcmp(token, short) == 0`. */
  predicate IsFlag(token: string, long: string, short: string)
  {
    token == long || token == short
  }

  /** Why the value after a valued flag was rejected: no token follows, the
      token does not scan as an unsigned integer, or it is zero. */
  datatype ValueError = MissingValue | NotUnsigned(token: string) | NotPositive(token: string)

  datatype Value = Positive(value: nat) | Rejected(error: ValueError)

  /** The value of the flag at `argi`, read from `argv[argi + 1]`. */
  function PositiveValue(scan: Scanner, args: seq<string>, argi: nat): (r: Value)
    requires argi < |args|
    ensures r.Positive? <==>
      argi + 1 < |args| && scan(args[argi + 1]).Some? && scan(args[argi + 1]).value > 0
    ensures r.Positive? ==> r.value >= 1 && scan(args[argi + 1]) == Some(r.value)
    ensures r == Rejected(MissingValue) <==> argi + 1 == |args|
  {
    if argi + 1 == |args| then Rejected(MissingValue)
    else
      match scan(args[argi + 1])
      case None => Rejected(NotUnsigned(args[argi + 1]))
      case Some(v) => if v == 0 then Rejected(NotPositive(args[argi + 1])) else Positive(v)
  }

  /** Only the flag's token and the one after it are read. */
  lemma PositiveValueOfPrefix(scan: Scanner, args: seq<string>, more: seq<string>, argi: nat)
    requires argi + 1 < |args|
    ensures PositiveValue(scan, args + more, argi) == PositiveValue(scan, args, argi)
  {
    assert (args + more)[argi + 1] == args[argi + 1];
  }
}
