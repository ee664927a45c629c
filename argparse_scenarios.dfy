/** Worked inputs for the scanner of argparse.c, over a specification with
    one positional `name`, a flag `--verbose` and an option `--count` that
    takes exactly one value. */
module ArgparseScenarios {
  import opened ArgsDef
  import opened Argparse

  const Name := ArgPositional(DefaultArity, "name", true, DefaultParser)
  const Verbose := ArgFlag(None, None, Some("--verbose"), true, DefaultParser, false)

  function Count(parser: ParserFn): (o: ArgOption) {
    ArgOption(ArgsNum(1, 1), None, None, Some("--count"), true, parser, false)
  }

  const Spec := ArgsSpec([Name], [Verbose], [Count(DefaultParser)])

  /** A caller's parser that rejects the token `bad` with `EINVAL`. */
  function RejectBad(e: Entity, name: string, arg: Option<string>): (st: Status) {
    if arg == Some("bad") then Fail(22) else Ok
  }

  lemma SpecIsValid()
    ensures ValidSpec(Spec) && ValidSpec(Custom1) && ValidSpec(NoneMax)
  {
  }

  const Custom1 := Spec.(options := [Count(Custom)])
  const NoneMax := Spec.(options := [Count(DefaultParser).(numArgs := ArgsNum(NONE, NONE))])

  const S0 := Init(0, map[])

  /** `s` after the positional `name` took `arg` at `pos`. */
  function Bound(s: ScanState, arg: string, pos: nat): (t: ScanState) {
    s.(positional := Some(0), positionalArgCount := 1,
       w := s.w.(dest := s.w.dest[PositionalAt(0) := StrValue(arg)],
                 log := s.w.log + [Call(PositionalAt(0), "name", Some(arg), pos)]))
  }

  /** `s` after `--count` opened the option, the previous positional closed. */
  function Opened(s: ScanState): (t: ScanState) {
    s.(numPositionals := if s.positional.Some? then 1 else s.numPositionals, positional := None,
       positionalArgCount := 0, option := Some(0), optionName := "--count", optionArgCount := 0,
       preserveOption := true)
  }

  /** `s` after the open option took `arg` at `pos` with the library parser
      and so reached its maximum. */
  function Valued(s: ScanState, arg: string, pos: nat): (t: ScanState) {
    s.(optionArgCount := s.optionArgCount + 1, preserveOption := false,
       w := s.w.(dest := s.w.dest[OptionAt(0) := StrValue(arg)],
                 log := s.w.log + [Call(OptionAt(0), "--count", Some(arg), pos)]))
  }

  /** `s` after the open option's own parser rejected `arg` at `pos`. */
  function Rejected(s: ScanState, arg: string, pos: nat): (t: ScanState) {
    s.(optionArgCount := 1, preserveOption := false, err := ArgsError(ParseArg, 22, arg),
       w := s.w.(errno := 22, log := s.w.log + [Call(OptionAt(0), "--count", Some(arg), pos)]))
  }

  /** `s` with the open option closed. */
  function Closed(s: ScanState): (t: ScanState) {
    s.(option := None, optionArgCount := 0, optionName := "")
  }

  const Flagged := S0.(w := World(map[FlagAt(0) := BoolValue(true)], 0, [Call(FlagAt(0), "--verbose", None, 0)]))

  lemma FlagFirst()
    ensures ValidSpec(Spec) && Step(Spec, RejectBad, S0, "--verbose", 0) == Continue(Flagged)
  {
  }

  lemma OpenAfterFlag()
    ensures ValidSpec(Spec) && Step(Spec, RejectBad, Flagged, "--count", 1) == Continue(Opened(Flagged))
  {
  }

  lemma ValueAfterFlag()
    ensures ValidSpec(Spec)
    ensures Step(Spec, RejectBad, Opened(Flagged), "3", 2) == Continue(Valued(Opened(Flagged), "3", 2))
  {
  }

  lemma BindAfterValue()
    ensures ValidSpec(Spec)
    ensures var s := Valued(Opened(Flagged), "3", 2);
      Step(Spec, RejectBad, s, "alice", 3) == Continue(Bound(Closed(s), "alice", 3))
  {
  }

  /** A flag, an option with its value and a positional, in any order. */
  lemma AllKinds()
    ensures ValidSpec(Spec)
    ensures var r := Run(Spec, RejectBad, ["--verbose", "--count", "3", "alice"], 0, map[]);
      && r.err == NoErr
      && r.w.dest == map[FlagAt(0) := BoolValue(true), OptionAt(0) := StrValue("3"), PositionalAt(0) := StrValue("alice")]
  {
    var args := ["--verbose", "--count", "3", "alice"];
    var s3 := Valued(Opened(Flagged), "3", 2);
    FlagFirst();
    RunFromStep(Spec, RejectBad, args, 0, S0);
    OpenAfterFlag();
    RunFromStep(Spec, RejectBad, args, 1, Flagged);
    ValueAfterFlag();
    RunFromStep(Spec, RejectBad, args, 2, Opened(Flagged));
    BindAfterValue();
    RunFromStep(Spec, RejectBad, args, 3, s3);
    assert Finish(Spec, Bound(Closed(s3), "alice", 3)).w == Bound(Closed(s3), "alice", 3).w;
  }

  const Alice := Bound(S0, "alice", 0)

  lemma BindFirst(spec: ArgsSpec)
    requires spec == Spec || spec == Custom1
    ensures ValidSpec(spec) && Step(spec, RejectBad, S0, "alice", 0) == Continue(Alice)
  {
  }

  lemma OpenAfterBind(spec: ArgsSpec)
    requires spec == Spec || spec == Custom1
    ensures ValidSpec(spec) && Step(spec, RejectBad, Alice, "--count", 1) == Continue(Opened(Alice))
  {
  }

  /** An option named last, without its value. */
  lemma OptionWithoutValue()
    ensures ValidSpec(Spec)
    ensures Run(Spec, RejectBad, ["alice", "--count"], 0, map[]).err == ArgsError(MissingOptionArg, 0, "--count")
  {
    var args := ["alice", "--count"];
    BindFirst(Spec);
    RunFromStep(Spec, RejectBad, args, 0, S0);
    OpenAfterBind(Spec);
    RunFromStep(Spec, RejectBad, args, 1, Alice);
  }

  const Stopping := Spec.(flags := [Verbose.(stop := true)])

  /** A stop flag ends the scan as soon as its parser succeeds: the tokens
      after it are never looked at, so neither the extra token nor the
      positional left unbound is reported. */
  lemma StopFlagEndsScan()
    ensures ValidSpec(Stopping)
    ensures var r := Run(Stopping, RejectBad, ["--verbose", "alice", "bob"], 0, map[]);
      && r.err == NoErr
      && r.w.log == [Call(FlagAt(0), "--verbose", None, 0)]
      && r.w.dest == map[FlagAt(0) := BoolValue(true)]
  {
    var args := ["--verbose", "alice", "bob"];
    assert Step(Stopping, RejectBad, S0, "--verbose", 0) == Return(Flagged);
    RunFromStep(Stopping, RejectBad, args, 0, S0);
  }

  /** No token at all: the positional is missing. */
  lemma NoTokens()
    ensures ValidSpec(Spec)
    ensures Run(Spec, RejectBad, [], 0, map[]).err == ArgsError(MissingArg, 0, "name")
  {
  }

  /** A token beyond the last positional. */
  lemma ExtraToken()
    ensures ValidSpec(Spec)
    ensures Run(Spec, RejectBad, ["alice", "bob"], 0, map[]).err == ArgsError(UnknownArg, 0, "bob")
  {
    var args := ["alice", "bob"];
    BindFirst(Spec);
    RunFromStep(Spec, RejectBad, args, 0, S0);
    var t := Alice.(numPositionals := 1, positional := None, positionalArgCount := 0);
    assert ResetPositional(Spec, Alice) == Continue(t);
    assert ResetOption(Spec, t) == Continue(t);
    assert Step(Spec, RejectBad, Alice, "bob", 1) == Return(t.(err := ArgsError(UnknownArg, 0, "bob")));
    RunFromStep(Spec, RejectBad, args, 1, Alice);
  }

  /** `errno` is never cleared: a value left over from before the call makes
      the first successful library parser look like a failure. */
  lemma StaleErrnoFailsParser()
    ensures ValidSpec(Spec)
    ensures Run(Spec, RejectBad, ["alice"], 5, map[]).err == ArgsError(ParseArg, 5, "alice")
  {
  }

  lemma RejectAfterBind()
    ensures ValidSpec(Custom1)
    ensures Step(Custom1, RejectBad, Opened(Alice), "bad", 2) == Continue(Rejected(Opened(Alice), "bad", 2))
  {
  }

  lemma ReopenAfterReject()
    ensures ValidSpec(Custom1)
    ensures var s := Rejected(Opened(Alice), "bad", 2);
      Step(Custom1, RejectBad, s, "--count", 3) == Continue(Opened(Closed(s)))
  {
  }

  /** A failed option value is recorded and the scan goes on: here it
      reaches the end, where the option opened again without a value
      replaces the recorded error. */
  lemma OptionValueFailureContinues()
    ensures ValidSpec(Custom1)
    ensures var r := Run(Custom1, RejectBad, ["alice", "--count", "bad", "--count"], 0, map[]);
      && r.err == ArgsError(MissingOptionArg, 0, "--count")
      && |r.w.log| == 2
  {
    var args := ["alice", "--count", "bad", "--count"];
    var s3 := Rejected(Opened(Alice), "bad", 2);
    BindFirst(Custom1);
    RunFromStep(Custom1, RejectBad, args, 0, S0);
    OpenAfterBind(Custom1);
    RunFromStep(Custom1, RejectBad, args, 1, Alice);
    RejectAfterBind();
    RunFromStep(Custom1, RejectBad, args, 2, Opened(Alice));
    ReopenAfterReject();
    RunFromStep(Custom1, RejectBad, args, 3, s3);
  }

  lemma OpenFirst(spec: ArgsSpec)
    requires spec == Spec || spec == Custom1 || spec == NoneMax || spec == Pair
    ensures ValidSpec(spec) && Step(spec, RejectBad, S0, "--count", 0) == Continue(Opened(S0))
  {
  }

  lemma RejectFirst()
    ensures ValidSpec(Custom1)
    ensures Step(Custom1, RejectBad, Opened(S0), "bad", 1) == Continue(Rejected(Opened(S0), "bad", 1))
  {
  }

  lemma BindAfterReject()
    ensures ValidSpec(Custom1)
    ensures var s := Closed(Rejected(Opened(S0), "bad", 1));
      Step(Custom1, RejectBad, Rejected(Opened(S0), "bad", 1), "alice", 2)
        == Return(Bound(s, "alice", 2).(positionalArgCount := 0, err := ArgsError(ParseArg, 22, "alice")))
  {
  }

  /** The `errno` a failed option value leaves behind makes the next
      parser's success look like a failure, after that parser has already
      written its destination. */
  lemma FailedValueErrnoCarriesOver()
    ensures ValidSpec(Custom1)
    ensures var r := Run(Custom1, RejectBad, ["--count", "bad", "alice"], 0, map[]);
      && r.err == ArgsError(ParseArg, 22, "alice")
      && r.w.dest == map[PositionalAt(0) := StrValue("alice")]
  {
    var args := ["--count", "bad", "alice"];
    OpenFirst(Custom1);
    RunFromStep(Custom1, RejectBad, args, 0, S0);
    RejectFirst();
    RunFromStep(Custom1, RejectBad, args, 1, Opened(S0));
    BindAfterReject();
    RunFromStep(Custom1, RejectBad, args, 2, Rejected(Opened(S0), "bad", 1));
  }

  lemma ValueFirst(spec: ArgsSpec, arg: string)
    requires (spec == Spec && arg == "-5") || (spec == NoneMax && arg == "v")
    ensures ValidSpec(spec) && Step(spec, RejectBad, Opened(S0), arg, 1) == Continue(Valued(Opened(S0), arg, 1))
  {
  }

  lemma BindAfterFirstValue(spec: ArgsSpec, arg: string)
    requires (spec == Spec && arg == "-5") || (spec == NoneMax && arg == "v")
    ensures ValidSpec(spec)
    ensures var s := Valued(Opened(S0), arg, 1);
      Step(spec, RejectBad, s, "alice", 2) == Continue(Bound(Closed(s), "alice", 2))
  {
  }

  /** The scan of `--count`, `arg` and `alice`, when `arg` is taken as the
      option's value. */
  lemma ValueThenBind(spec: ArgsSpec, arg: string)
    requires (spec == Spec && arg == "-5") || (spec == NoneMax && arg == "v")
    ensures ValidSpec(spec)
    ensures var r := Run(spec, RejectBad, ["--count", arg, "alice"], 0, map[]);
      && r.err == NoErr
      && r.w.dest == map[OptionAt(0) := StrValue(arg), PositionalAt(0) := StrValue("alice")]
  {
    var args := ["--count", arg, "alice"];
    var s2 := Valued(Opened(S0), arg, 1);
    OpenFirst(spec);
    RunFromStep(spec, RejectBad, args, 0, S0);
    ValueFirst(spec, arg);
    RunFromStep(spec, RejectBad, args, 1, Opened(S0));
    BindAfterFirstValue(spec, arg);
    RunFromStep(spec, RejectBad, args, 2, s2);
    assert Finish(spec, Bound(Closed(s2), "alice", 2)).w == Bound(Closed(s2), "alice", 2).w;
  }

  /** A token starting with `-` that names nothing is taken as a value. */
  lemma DashValueAccepted()
    ensures ValidSpec(Spec)
    ensures var r := Run(Spec, RejectBad, ["--count", "-5", "alice"], 0, map[]);
      && r.err == NoErr
      && r.w.dest == map[OptionAt(0) := StrValue("-5"), PositionalAt(0) := StrValue("alice")]
  {
    ValueThenBind(Spec, "-5");
  }

  /** An option whose maximum is `NONE` still takes the token after it. */
  lemma NoneMaximumTakesOneValue()
    ensures ValidSpec(NoneMax)
    ensures var r := Run(NoneMax, RejectBad, ["--count", "v", "alice"], 0, map[]);
      && r.err == NoErr
      && r.w.dest == map[OptionAt(0) := StrValue("v"), PositionalAt(0) := StrValue("alice")]
  {
    ValueThenBind(NoneMax, "v");
  }

  // An option and a positional that take up to two values each

  const Pair := Spec.(options := [Count(DefaultParser).(numArgs := ArgsNum(1, 2))])
  const Other := ArgPositional(DefaultArity, "other", true, DefaultParser)
  const Twice := ArgsSpec([Name.(numArgs := ArgsNum(1, 2)), Other], [], [])

  lemma WiderSpecsAreValid()
    ensures ValidSpec(Pair) && ValidSpec(Twice)
  {
  }

  /** `s` after the open option took `arg` at `pos` with the library parser
      and, below its maximum, stays open for the next token. */
  function Kept(s: ScanState, arg: string, pos: nat): (t: ScanState) {
    s.(optionArgCount := s.optionArgCount + 1, preserveOption := true,
       w := s.w.(dest := s.w.dest[OptionAt(0) := StrValue(arg)],
                 log := s.w.log + [Call(OptionAt(0), "--count", Some(arg), pos)]))
  }

  /** `s` after positional `k`, named `name`, took `arg` at `pos`; `room`
      says whether it is still below its maximum. */
  function Took(s: ScanState, k: nat, name: string, arg: string, pos: nat, room: bool): (t: ScanState) {
    s.(positional := Some(k), positionalArgCount := s.positionalArgCount + 1, preservePositional := room,
       w := s.w.(dest := s.w.dest[PositionalAt(k) := StrValue(arg)],
                 log := s.w.log + [Call(PositionalAt(k), name, Some(arg), pos)]))
  }

  lemma FirstOfTwo(arg: string)
    requires arg == "1" || arg == "a"
    ensures ValidSpec(Pair) && Step(Pair, RejectBad, Opened(S0), arg, 1) == Continue(Kept(Opened(S0), arg, 1))
  {
  }

  lemma SecondOfTwo(first: string, arg: string)
    requires (first == "1" && arg == "2") || (first == "a" && arg == "b")
    ensures var s := Kept(Opened(S0), first, 1);
      ValidSpec(Pair) && Step(Pair, RejectBad, s, arg, 2) == Continue(Valued(s, arg, 2))
  {
    var s := Kept(Opened(S0), first, 1);
    assert ResetPositional(Pair, s) == Continue(s);
    assert ResetOption(Pair, s) == Continue(s.(preserveOption := false));
  }

  lemma BindAfterTwo()
    ensures var s := Valued(Kept(Opened(S0), "1", 1), "2", 2);
      ValidSpec(Pair) && Step(Pair, RejectBad, s, "alice", 3) == Continue(Bound(Closed(s), "alice", 3))
  {
    var s := Valued(Kept(Opened(S0), "1", 1), "2", 2);
    assert ResetPositional(Pair, s) == Continue(s);
    assert ResetOption(Pair, s) == Continue(Closed(s));
  }

  lemma FinishAfterTwo()
    ensures var s := Valued(Kept(Opened(S0), "a", 1), "b", 2);
      && ValidSpec(Pair)
      && Finish(Pair, s) == s.(err := ArgsError(MissingArg, 0, "name"))
      && s.w.log == [Call(OptionAt(0), "--count", Some("a"), 1), Call(OptionAt(0), "--count", Some("b"), 2)]
  {
  }

  lemma FinishAfterBind()
    ensures var s := Bound(Closed(Valued(Kept(Opened(S0), "1", 1), "2", 2)), "alice", 3);
      && ValidSpec(Pair)
      && Finish(Pair, s) == s.(numPositionals := 1)
      && s.err == NoErr
      && s.w.log == [Call(OptionAt(0), "--count", Some("1"), 1), Call(OptionAt(0), "--count", Some("2"), 2),
                     Call(PositionalAt(0), "name", Some("alice"), 3)]
      && s.w.dest == map[OptionAt(0) := StrValue("2"), PositionalAt(0) := StrValue("alice")]
  {
  }

  /** An option whose maximum is two takes the two tokens after it, and the
      token after those goes to the positional. */
  lemma OptionTakesUpToMax()
    ensures ValidSpec(Pair)
    ensures var r := Run(Pair, RejectBad, ["--count", "1", "2", "alice"], 0, map[]);
      && r.err == NoErr
      && r.w.log == [Call(OptionAt(0), "--count", Some("1"), 1), Call(OptionAt(0), "--count", Some("2"), 2),
                     Call(PositionalAt(0), "name", Some("alice"), 3)]
      && r.w.dest == map[OptionAt(0) := StrValue("2"), PositionalAt(0) := StrValue("alice")]
  {
    var args := ["--count", "1", "2", "alice"];
    var one := Kept(Opened(S0), "1", 1);
    var two := Valued(one, "2", 2);
    OpenFirst(Pair);
    RunFromStep(Pair, RejectBad, args, 0, S0);
    FirstOfTwo("1");
    RunFromStep(Pair, RejectBad, args, 1, Opened(S0));
    SecondOfTwo("1", "2");
    RunFromStep(Pair, RejectBad, args, 2, one);
    BindAfterTwo();
    RunFromStep(Pair, RejectBad, args, 3, two);
    FinishAfterBind();
  }

  /** The option below its maximum keeps the token that the positional
      would have taken, so the positional is reported missing. */
  lemma OptionKeepsPositionalsToken()
    ensures ValidSpec(Pair)
    ensures var r := Run(Pair, RejectBad, ["--count", "a", "b"], 0, map[]);
      && r.err == ArgsError(MissingArg, 0, "name")
      && r.w.log == [Call(OptionAt(0), "--count", Some("a"), 1), Call(OptionAt(0), "--count", Some("b"), 2)]
  {
    var args := ["--count", "a", "b"];
    var one := Kept(Opened(S0), "a", 1);
    OpenFirst(Pair);
    RunFromStep(Pair, RejectBad, args, 0, S0);
    FirstOfTwo("a");
    RunFromStep(Pair, RejectBad, args, 1, Opened(S0));
    SecondOfTwo("a", "b");
    RunFromStep(Pair, RejectBad, args, 2, one);
    FinishAfterTwo();
  }

  const A := Took(S0, 0, "name", "a", 0, true)
  const AB := Took(A.(preservePositional := false), 0, "name", "b", 1, false)
  const Closed0 := AB.(numPositionals := 1, positional := None, positionalArgCount := 0)

  lemma FirstOfPositional()
    ensures ValidSpec(Twice) && Step(Twice, RejectBad, S0, "a", 0) == Continue(A)
  {
  }

  lemma SecondOfPositional()
    ensures ValidSpec(Twice) && Step(Twice, RejectBad, A, "b", 1) == Continue(AB)
  {
    assert ResetPositional(Twice, A) == Continue(A.(preservePositional := false));
  }

  lemma BindAfterFull()
    ensures ValidSpec(Twice)
    ensures Step(Twice, RejectBad, AB, "c", 2) == Continue(Took(Closed0, 1, "other", "c", 2, false))
  {
    assert ResetPositional(Twice, AB) == Continue(Closed0);
    assert ResetOption(Twice, Closed0) == Continue(Closed0);
  }

  /** A positional whose maximum is two takes two consecutive tokens; the
      third goes to the next positional. */
  lemma PositionalTakesUpToMax()
    ensures ValidSpec(Twice)
    ensures var r := Run(Twice, RejectBad, ["a", "b", "c"], 0, map[]);
      && r.err == NoErr
      && r.w.log == [Call(PositionalAt(0), "name", Some("a"), 0), Call(PositionalAt(0), "name", Some("b"), 1),
                     Call(PositionalAt(1), "other", Some("c"), 2)]
      && r.w.dest == map[PositionalAt(0) := StrValue("b"), PositionalAt(1) := StrValue("c")]
  {
    var args := ["a", "b", "c"];
    var r := Took(Closed0, 1, "other", "c", 2, false);
    FirstOfPositional();
    RunFromStep(Twice, RejectBad, args, 0, S0);
    SecondOfPositional();
    RunFromStep(Twice, RejectBad, args, 1, A);
    BindAfterFull();
    RunFromStep(Twice, RejectBad, args, 2, AB);
    assert Finish(Twice, r) == r.(numPositionals := 2);
  }

  /** The first positional, below its maximum, keeps the second token, so
      the second positional is reported missing. */
  lemma PositionalKeepsNextToken()
    ensures ValidSpec(Twice)
    ensures var r := Run(Twice, RejectBad, ["a", "b"], 0, map[]);
      && r.err == ArgsError(MissingArg, 0, "other")
      && r.w.dest == map[PositionalAt(0) := StrValue("b")]
  {
    var args := ["a", "b"];
    FirstOfPositional();
    RunFromStep(Twice, RejectBad, args, 0, S0);
    SecondOfPositional();
    RunFromStep(Twice, RejectBad, args, 1, A);
  }
}
