/** Worked inputs for the scanner of arg-parse.c, over a specification with
    one positional `name`, a flag `-v`/`--verbose`, a flag `--help` that
    stops the scan, and an option `-c`/`--count` that takes exactly one
    value. */
module ArgParseScenarios {
  import opened ArgsDef
  import opened ArgParse

  const Name := ArgPositional("name", true, DefaultParser)
  const Verbose := ArgFlag(Some("v"), Some("verbose"), None, true, DefaultParser, false)
  const Help := ArgFlag(None, Some("help"), None, true, DefaultParser, true)

  function Count(n: ArgsNum): (o: ArgOption) {
    ArgOption(n, Some("c"), Some("count"), None, true, DefaultParser, false)
  }

  function SpecWith(n: ArgsNum): (spec: ArgSpec) {
    ArgSpec([Name], [Verbose, Help], [Count(n)])
  }

  const Spec := SpecWith(ArgsNum(1, 1))

  /** A caller's parser that never fails; the library parsers do the work. */
  function NoFail(e: Entity, name: string, arg: Option<string>): (st: Status) {
    Ok
  }

  lemma Plain(t: string)
    requires t != [] && t[0] != '-'
    ensures !StartsWith(t, "-") && !StartsWith(t, "--")
  {
    assert t[..1][0] == t[0];
  }

  lemma Long(t: string)
    requires |t| >= 2 && t[0] == '-' && t[1] == '-'
    ensures StartsWith(t, "--") && StartsWith(t, "-")
  {
    assert t[..2] == [t[0], t[1]];
    assert t[..1] == [t[0]];
  }

  lemma Short(t: string)
    requires |t| >= 1 && t[0] == '-' && (|t| == 1 || t[1] != '-')
    ensures StartsWith(t, "-") && !StartsWith(t, "--")
  {
    assert t[..1] == [t[0]];
    if |t| >= 2 {
      assert t[..2][1] == t[1];
    }
  }

  const KindsArgs: seq<string> := ["-v", "--count", "3", "alice"]
  const FlagCall := Call(FlagAt(0), "v", None, 0)
  const OptionCall := Call(OptionAt(0), "count", Some("3"), 2)
  const PositionalCall := Call(PositionalAt(0), "name", Some("alice"), 3)
  const AfterFlag := ScanState(NoErr, World(map[FlagAt(0) := BoolValue(true)], 0, [FlagCall]), 0)
  const AfterOption := ScanState(NoErr, World(AfterFlag.w.dest[OptionAt(0) := StrValue("3")], 0, [FlagCall, OptionCall]), 0)
  const AfterPositional := ScanState(NoErr, World(AfterOption.w.dest[PositionalAt(0) := StrValue("alice")], 0,
                                                  [FlagCall, OptionCall, PositionalCall]), 1)

  lemma KindsFlagStep()
    ensures ValidSpec(Spec) && Step(Spec, NoFail, KindsArgs, 0, Init(0, map[])) == Continue(AfterFlag, 1)
  {
    Short("-v");
  }

  lemma KindsOptionStep()
    ensures ValidSpec(Spec) && Step(Spec, NoFail, KindsArgs, 1, AfterFlag) == Continue(AfterOption, 3)
  {
    Long("--count");
    Plain("3");
    var o := Count(ArgsNum(1, 1));
    var rest := KindsArgs[2..];
    assert rest == ["3", "alice"];
    var w := AfterOption.w;
    assert Invoke(ArgParseStr, NoFail, OptionAt(0), "count", Some("3"), true, 2, AfterFlag.w) == w;
    assert OptionArgsFrom(o, 0, "count", rest, 2, NoFail, 1, w) == OptionArgs(1, NoErr, w);
    assert OptionArgsOf(o, 0, "count", rest, 2, NoFail, AfterFlag.w) == OptionArgs(1, NoErr, w);
  }

  lemma KindsPositionalStep()
    ensures ValidSpec(Spec) && Step(Spec, NoFail, KindsArgs, 3, AfterOption) == Continue(AfterPositional, 4)
  {
    Plain("alice");
  }

  /** Long and short names, an option with its value and a positional. */
  lemma AllKinds()
    ensures ValidSpec(Spec)
    ensures var r := Run(Spec, NoFail, ["-v", "--count", "3", "alice"], 0, map[]);
      && r.err == NoErr
      && r.w.dest == map[FlagAt(0) := BoolValue(true), OptionAt(0) := StrValue("3"), PositionalAt(0) := StrValue("alice")]
      && r.w.log == [FlagCall, OptionCall, PositionalCall]
  {
    KindsFlagStep();
    RunFromStep(Spec, NoFail, KindsArgs, 0, Init(0, map[]));
    KindsOptionStep();
    RunFromStep(Spec, NoFail, KindsArgs, 1, AfterFlag);
    KindsPositionalStep();
    RunFromStep(Spec, NoFail, KindsArgs, 3, AfterOption);
    assert AfterPositional.w.dest
        == map[FlagAt(0) := BoolValue(true), OptionAt(0) := StrValue("3"), PositionalAt(0) := StrValue("alice")];
  }

  /** An option without its value is reported by its name without prefix. */
  lemma OptionWithoutValue()
    ensures ValidSpec(Spec)
    ensures Run(Spec, NoFail, ["alice", "--count"], 0, map[]).err == ArgsError(MissingOptionArg, 0, "count")
  {
    Plain("alice");
    Long("--count");
  }

  /** A token starting with `-` is never taken as a value. */
  lemma DashValueRejected()
    ensures ValidSpec(Spec)
    ensures Run(Spec, NoFail, ["alice", "-c", "-5"], 0, map[]).err == ArgsError(MissingOptionArg, 0, "c")
  {
    Plain("alice");
    Short("-c");
    Short("-5");
  }

  /** A `-` token naming nothing is unknown, even while a positional is
      still unbound. */
  lemma DashTokenUnknown()
    ensures ValidSpec(Spec)
    ensures Run(Spec, NoFail, ["-5"], 0, map[]).err == ArgsError(UnknownArg, 0, "-5")
  {
    Short("-5");
  }

  /** A long name is not matched after a single `-`, nor a short one after `--`. */
  lemma PrefixSelectsNames()
    ensures ValidSpec(Spec)
    ensures Run(Spec, NoFail, ["-verbose"], 0, map[]).err == ArgsError(UnknownArg, 0, "-verbose")
    ensures Run(Spec, NoFail, ["--v"], 0, map[]).err == ArgsError(UnknownArg, 0, "--v")
  {
    Short("-verbose");
    Long("--v");
  }

  /** No token at all: the positional is missing. */
  lemma NoTokens()
    ensures ValidSpec(Spec)
    ensures Run(Spec, NoFail, [], 0, map[]).err == ArgsError(MissingArg, 0, "name")
  {
  }

  /** A token beyond the last positional. */
  lemma ExtraToken()
    ensures ValidSpec(Spec)
    ensures Run(Spec, NoFail, ["alice", "bob"], 0, map[]).err == ArgsError(UnknownArg, 0, "bob")
  {
    Plain("alice");
    Plain("bob");
  }

  /** A stop flag ends the scan at once: the later token is not read and
      the missing positional is not reported. */
  lemma StopFlagEndsScan()
    ensures ValidSpec(Spec)
    ensures var r := Run(Spec, NoFail, ["--help", "bob", "bob"], 0, map[]);
      && r.err == NoErr && r.w.log == [Call(FlagAt(1), "help", None, 0)]
  {
    Long("--help");
    Plain("bob");
  }

  /** An option whose maximum is `NONE` takes no value: the token after it
      binds the positional. */
  lemma NoneMaximumTakesNothing()
    ensures ValidSpec(SpecWith(ArgsNum(NONE, NONE)))
    ensures var r := Run(SpecWith(ArgsNum(NONE, NONE)), NoFail, ["--count", "v"], 0, map[]);
      && r.err == NoErr && r.w.dest == map[PositionalAt(0) := StrValue("v")]
  {
    Long("--count");
    Plain("v");
  }

  /** An option taking two to four values takes four, and leaves the fifth
      token to the positional. */
  lemma BoundedOptionValues(rest: seq<string>, w: World)
    requires rest == ["a", "b", "c", "d", "e"] && w.errno == 0
    ensures var v := OptionArgsOf(Count(ArgsNum(2, 4)), 0, "count", rest, 1, NoFail, w);
      v.count == 4 && v.err == NoErr && |v.w.log| == |w.log| + 4
  {
    var o := Count(ArgsNum(2, 4));
    Plain("a");
    Plain("b");
    Plain("c");
    Plain("d");
    var w1 := Invoke(ArgParseStr, NoFail, OptionAt(0), "count", Some("a"), true, 1, w);
    var w2 := Invoke(ArgParseStr, NoFail, OptionAt(0), "count", Some("b"), true, 2, w1);
    var w3 := Invoke(ArgParseStr, NoFail, OptionAt(0), "count", Some("c"), true, 3, w2);
    var w4 := Invoke(ArgParseStr, NoFail, OptionAt(0), "count", Some("d"), true, 4, w3);
    assert OptionArgsFrom(o, 0, "count", rest, 1, NoFail, 4, w4) == OptionArgs(4, NoErr, w4);
    assert OptionArgsFrom(o, 0, "count", rest, 1, NoFail, 3, w3) == OptionArgs(4, NoErr, w4);
    assert OptionArgsFrom(o, 0, "count", rest, 1, NoFail, 2, w2) == OptionArgs(4, NoErr, w4);
    assert OptionArgsFrom(o, 0, "count", rest, 1, NoFail, 1, w1) == OptionArgs(4, NoErr, w4);
    assert OptionArgsFrom(o, 0, "count", rest, 1, NoFail, 0, w) == OptionArgs(4, NoErr, w4);
  }

  lemma BoundedOptionStopsAtMax()
    ensures ValidSpec(SpecWith(ArgsNum(2, 4)))
    ensures var r := Run(SpecWith(ArgsNum(2, 4)), NoFail, ["--count", "a", "b", "c", "d", "e"], 0, map[]);
      && r.err == NoErr && |r.w.log| == 5 && PositionalAt(0) in r.w.dest && r.w.dest[PositionalAt(0)] == StrValue("e")
  {
    var spec := SpecWith(ArgsNum(2, 4));
    var args := ["--count", "a", "b", "c", "d", "e"];
    Long("--count");
    Plain("e");
    var s0 := Init(0, map[]);
    assert args[1..] == ["a", "b", "c", "d", "e"];
    BoundedOptionValues(args[1..], s0.w);
    var v := OptionArgsOf(Count(ArgsNum(2, 4)), 0, "count", args[1..], 1, NoFail, s0.w);
    var s1 := ScanState(NoErr, v.w, 0);
    assert Step(spec, NoFail, args, 0, s0) == Continue(s1, 5);
    RunFromStep(spec, NoFail, args, 0, s0);
  }

  /** An `errno` left over from before the call fails the first parser,
      unless an option's values came first, which clear it. */
  lemma StaleErrno()
    ensures ValidSpec(Spec)
    ensures Run(Spec, NoFail, ["alice"], 5, map[]).err == ArgsError(ParseArg, 5, "alice")
    ensures Run(Spec, NoFail, ["--count", "3", "alice"], 5, map[]).err == NoErr
  {
    Long("--count");
    Plain("3");
    Plain("alice");
  }
}
