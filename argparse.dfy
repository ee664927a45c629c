/** The scanner of argparse.c: one left-to-right pass over the tokens that
    carries an open positional and an open option from one token to the next,
    each with its value count and a "preserve" bit saying whether the next
    token may continue it. */
module Argparse {
  import opened ArgsDef

  // ---------------------------------------------------------------------
  // The specification (def/arg-positional.h, def/argoption.h, def/argsspec.h)
  // ---------------------------------------------------------------------

  /** A positional: its arity, the name reported in errors and passed to
      its parser, whether it has a destination, and its parser. */
  datatype ArgPositional = ArgPositional(numArgs: ArgsNum, name: string, hasDest: bool, parser: ParserFn)

  /** A flag: matched by a pattern predicate, by a list of names or by one
      name; `stop` ends the scan once the flag is parsed. */
  datatype ArgFlag = ArgFlag(pattern: Option<string -> bool>, names: Option<seq<string>>,
                             name: Option<string>, hasDest: bool, parser: ParserFn, stop: bool)

  /** An option: matched like a flag, then takes values as its arity allows.
      Its `stop` field exists but the scanner never reads it. */
  datatype ArgOption = ArgOption(numArgs: ArgsNum, pattern: Option<string -> bool>,
                                 names: Option<seq<string>>, name: Option<string>,
                                 hasDest: bool, parser: ParserFn, stop: bool)

  datatype ArgsSpec = ArgsSpec(positionals: seq<ArgPositional>, flags: seq<ArgFlag>,
                               options: seq<ArgOption>)

  /** What the assertions reached by the scan demand of a specification:
      arities in range, and library parsers given what they need (a flag's
      parser is called without a token, so it cannot be `arg_parse_str`). */
  predicate ValidSpec(spec: ArgsSpec) {
    && (forall k :: 0 <= k < |spec.positionals| ==>
          ValidArgsNum(spec.positionals[k].numArgs)
          && CanInvoke(Resolve(spec.positionals[k].parser, ArgParseStr), true, spec.positionals[k].hasDest, false))
    && (forall k :: 0 <= k < |spec.flags| ==>
          CanInvoke(Resolve(spec.flags[k].parser, ArgSetTrue), false, spec.flags[k].hasDest, false))
    && (forall k :: 0 <= k < |spec.options| ==>
          ValidArgsNum(spec.options[k].numArgs)
          && CanInvoke(Resolve(spec.options[k].parser, ArgParseStr), true, spec.options[k].hasDest, false))
  }

  // ---------------------------------------------------------------------
  // Matching
  // ---------------------------------------------------------------------

  /** `str_one_of`: is `xs` one of the names in `yss`? */
  function StrOneOf(xs: string, yss: seq<string>): (r: bool)
    ensures r <==> xs in yss
  {
    if yss == [] then false
    else if yss[0] == xs then true
    else StrOneOf(xs, yss[1..])
  }

  predicate FlagMatches(f: ArgFlag, arg: string) {
    || (f.pattern.Some? && f.pattern.value(arg))
    || (f.names.Some? && StrOneOf(arg, f.names.value))
    || (f.name.Some? && f.name.value == arg)
  }

  predicate OptionMatches(o: ArgOption, arg: string) {
    || (o.pattern.Some? && o.pattern.value(arg))
    || (o.names.Some? && StrOneOf(arg, o.names.value))
    || (o.name.Some? && o.name.value == arg)
  }

  /** `find_flag`: the first flag, in declaration order, that accepts `arg`. */
  function FindFlag(flags: seq<ArgFlag>, arg: string): (r: Option<nat>)
    ensures r.Some? ==> r.value < |flags|
  {
    if flags == [] then None
    else if FlagMatches(flags[0], arg) then Some(0)
    else
      match FindFlag(flags[1..], arg)
      case None => None
      case Some(k) => Some(k + 1)
  }

  /** `find_option`: the first option, in declaration order, that accepts `arg`. */
  function FindOption(options: seq<ArgOption>, arg: string): (r: Option<nat>)
    ensures r.Some? ==> r.value < |options|
  {
    if options == [] then None
    else if OptionMatches(options[0], arg) then Some(0)
    else
      match FindOption(options[1..], arg)
      case None => None
      case Some(k) => Some(k + 1)
  }

  /** `find_flag` returns the first flag that accepts `arg`, and nothing
      exactly when no flag does. */
  lemma {:induction false} FindFlagFirstMatch(flags: seq<ArgFlag>, arg: string)
    ensures FindFlag(flags, arg).Some? ==> FlagMatches(flags[FindFlag(flags, arg).value], arg)
    ensures forall j :: 0 <= j < |flags| && (FindFlag(flags, arg).None? || j < FindFlag(flags, arg).value)
                   ==> !FlagMatches(flags[j], arg)
  {
    if flags != [] && !FlagMatches(flags[0], arg) {
      FindFlagFirstMatch(flags[1..], arg);
      assert forall j :: 1 <= j < |flags| ==> flags[j] == flags[1..][j - 1];
    }
  }

  /** `find_option` returns the first option that accepts `arg`, and
      nothing exactly when no option does. */
  lemma {:induction false} FindOptionFirstMatch(options: seq<ArgOption>, arg: string)
    ensures FindOption(options, arg).Some? ==> OptionMatches(options[FindOption(options, arg).value], arg)
    ensures forall j :: 0 <= j < |options| && (FindOption(options, arg).None? || j < FindOption(options, arg).value)
                   ==> !OptionMatches(options[j], arg)
  {
    if options != [] && !OptionMatches(options[0], arg) {
      FindOptionFirstMatch(options[1..], arg);
      assert forall j :: 1 <= j < |options| ==> options[j] == options[1..][j - 1];
    }
  }

  // ---------------------------------------------------------------------
  // The scan, as a function of the tokens
  // ---------------------------------------------------------------------

  /** The local state of `argparse_array`, together with `*err` and the
      world that the parsers act on. `optionName` is the token that opened
      the current option. */
  datatype ScanState = ScanState(
    err: ArgsError, w: World,
    numPositionals: nat,
    positional: Option<nat>, positionalArgCount: nat, preservePositional: bool,
    option: Option<nat>, optionArgCount: nat, optionName: string, preserveOption: bool)

  /** After one token: go on with the next one, or return from the call. */
  datatype Next = Continue(st: ScanState) | Return(st: ScanState)

  predicate WellFormed(spec: ArgsSpec, s: ScanState) {
    && s.numPositionals <= |spec.positionals|
    && (s.positional.Some? ==> s.positional.value == s.numPositionals < |spec.positionals|)
    && (s.option.Some? ==> s.option.value < |spec.options|)
  }

  function Init(errno0: int, dest0: map<Entity, Value>): (s: ScanState) {
    ScanState(NoErr, World(dest0, errno0, []), 0, None, 0, false, None, 0, "", false)
  }

  /** Closes the open positional unless the previous token continued it:
      too few values is `MISSING_ARG` naming it, otherwise it counts as
      bound. */
  function ResetPositional(spec: ArgsSpec, s: ScanState): (r: Next)
    requires ValidSpec(spec) && WellFormed(spec, s)
    ensures WellFormed(spec, r.st)
  {
    if s.preservePositional then Continue(s.(preservePositional := false))
    else if s.positional.Some? && UnderMin(spec.positionals[s.positional.value].numArgs, s.positionalArgCount) then
      Return(s.(err := ArgsError(MissingArg, 0, spec.positionals[s.positional.value].name)))
    else
      var n := if s.positional.Some? then s.numPositionals + 1 else s.numPositionals;
      Continue(s.(numPositionals := n, positional := None, positionalArgCount := 0, preservePositional := false))
  }

  /** Closes the open option unless the previous token continued it: too
      few values is `MISSING_OPTION_ARG` naming the token that opened it. */
  function ResetOption(spec: ArgsSpec, s: ScanState): (r: Next)
    requires ValidSpec(spec) && WellFormed(spec, s)
    ensures WellFormed(spec, r.st)
  {
    if s.preserveOption then Continue(s.(preserveOption := false))
    else if s.option.Some? && UnderMin(spec.options[s.option.value].numArgs, s.optionArgCount) then
      Return(s.(err := ArgsError(MissingOptionArg, 0, s.optionName)))
    else
      Continue(s.(option := None, optionArgCount := 0, optionName := "", preserveOption := false))
  }

  /** Classifies `arg`, in this order, as a flag, an option name, a value
      of the open option, a value of the next positional, or unknown. */
  function Dispatch(spec: ArgsSpec, cb: Callback, s: ScanState, arg: string, pos: nat): (r: Next)
    requires ValidSpec(spec) && WellFormed(spec, s)
    ensures WellFormed(spec, r.st)
  {
    match FindFlag(spec.flags, arg)
    case Some(k) =>
      var f := spec.flags[k];
      var w := Invoke(Resolve(f.parser, ArgSetTrue), cb, FlagAt(k), arg, None, f.hasDest, pos, s.w);
      if w.errno != 0 then Return(s.(w := w, err := ArgsError(ParseArg, w.errno, arg)))
      else if f.stop then Return(s.(w := w))
      else Continue(s.(w := w))
    case None =>
      match FindOption(spec.options, arg)
      case Some(k) =>
        if s.option.Some? && UnderMin(spec.options[s.option.value].numArgs, s.optionArgCount) then
          Return(s.(err := ArgsError(MissingOptionArg, 0, s.optionName)))
        else
          Continue(s.(option := Some(k), optionName := arg, optionArgCount := 0, preserveOption := true))
      case None =>
        if s.option.Some? then
          var k := s.option.value;
          var o := spec.options[k];
          var w := Invoke(Resolve(o.parser, ArgParseStr), cb, OptionAt(k), s.optionName, Some(arg), o.hasDest, pos, s.w);
          var err := if w.errno != 0 then ArgsError(ParseArg, w.errno, arg) else s.err;
          var count := s.optionArgCount + 1;
          Continue(s.(w := w, err := err, optionArgCount := count,
                      preserveOption := !OverOrEqMax(o.numArgs, count)))
        else if s.numPositionals < |spec.positionals| then
          var k := s.numPositionals;
          var p := spec.positionals[k];
          var w := Invoke(Resolve(p.parser, ArgParseStr), cb, PositionalAt(k), p.name, Some(arg), p.hasDest, pos, s.w);
          if w.errno != 0 then
            Return(s.(positional := Some(k), w := w, err := ArgsError(ParseArg, w.errno, arg)))
          else
            var count := s.positionalArgCount + 1;
            Continue(s.(positional := Some(k), w := w, positionalArgCount := count,
                        preservePositional := !OverOrEqMax(p.numArgs, count)))
        else
          Return(s.(err := ArgsError(UnknownArg, 0, arg)))
  }

  /** One iteration of the scan loop, for the token `arg` at position `pos`. */
  function Step(spec: ArgsSpec, cb: Callback, s: ScanState, arg: string, pos: nat): (r: Next)
    requires ValidSpec(spec) && WellFormed(spec, s)
    ensures WellFormed(spec, r.st)
  {
    match ResetPositional(spec, s)
    case Return(t) => Return(t)
    case Continue(t) =>
      match ResetOption(spec, t)
      case Return(u) => Return(u)
      case Continue(u) => Dispatch(spec, cb, u, arg, pos)
  }

  /** The checks after the last token: the open option's and the open
      positional's minimum, then that every positional was bound. */
  function Finish(spec: ArgsSpec, s: ScanState): (r: ScanState)
    requires ValidSpec(spec) && WellFormed(spec, s)
  {
    if s.option.Some? && UnderMin(spec.options[s.option.value].numArgs, s.optionArgCount) then
      s.(err := ArgsError(MissingOptionArg, 0, s.optionName))
    else if s.positional.Some? && UnderMin(spec.positionals[s.positional.value].numArgs, s.positionalArgCount) then
      s.(err := ArgsError(MissingArg, 0, spec.positionals[s.positional.value].name))
    else
      var n := if s.positional.Some? then s.numPositionals + 1 else s.numPositionals;
      var t := s.(numPositionals := n);
      if n < |spec.positionals| then t.(err := ArgsError(MissingArg, 0, spec.positionals[n].name))
      else t
  }

  /** The scan of `args[i..]` from state `s`, up to the state it returns in. */
  function RunFrom(spec: ArgsSpec, cb: Callback, args: seq<string>, i: nat, s: ScanState): (r: ScanState)
    requires ValidSpec(spec) && WellFormed(spec, s) && i <= |args|
    decreases |args| - i
  {
    if i == |args| then Finish(spec, s)
    else
      match Step(spec, cb, s, args[i], i)
      case Return(t) => t
      case Continue(t) => RunFrom(spec, cb, args, i + 1, t)
  }

  /** `argparse_array`, as a function: the final state of the scan of `args`
      with `errno` holding `errno0` and the destinations holding `dest0`. */
  function Run(spec: ArgsSpec, cb: Callback, args: seq<string>, errno0: int, dest0: map<Entity, Value>): (r: ScanState)
    requires ValidSpec(spec)
  {
    RunFrom(spec, cb, args, 0, Init(errno0, dest0))
  }

  /** One token of the scan: returning ends it, continuing goes on with the
      next token. */
  lemma RunFromStep(spec: ArgsSpec, cb: Callback, args: seq<string>, i: nat, s: ScanState)
    requires ValidSpec(spec) && WellFormed(spec, s) && i < |args|
    ensures Step(spec, cb, s, args[i], i).Return? ==> RunFrom(spec, cb, args, i, s) == Step(spec, cb, s, args[i], i).st
    ensures Step(spec, cb, s, args[i], i).Continue? ==>
              RunFrom(spec, cb, args, i, s) == RunFrom(spec, cb, args, i + 1, Step(spec, cb, s, args[i], i).st)
  {
  }

  // ---------------------------------------------------------------------
  // The scan, as the loop of argparse.c
  // ---------------------------------------------------------------------

  /** One iteration of the loop of `argparse_array`, on the token `arg` at
      position `pos`: the loop's local variables come in as `s` and leave as
      `t`; `halt` says that the call returns. */
  method ScanToken(spec: ArgsSpec, cb: Callback, s: ScanState, arg: string, pos: nat)
    returns (halt: bool, t: ScanState)
    requires ValidSpec(spec) && WellFormed(spec, s)
    ensures Step(spec, cb, s, arg, pos) == if halt then Return(t) else Continue(t)
  {
    var err, w := s.err, s.w;
    var numPositionals, positional, positionalArgCount, preservePositional :=
      s.numPositionals, s.positional, s.positionalArgCount, s.preservePositional;
    var option, optionArgCount, optionName, preserveOption :=
      s.option, s.optionArgCount, s.optionName, s.preserveOption;
    halt := true;
    // Close the positional unless the previous token continued it.
    if !preservePositional {
      if positional.Some? {
        if UnderMin(spec.positionals[positional.value].numArgs, positionalArgCount) {
          err := ArgsError(MissingArg, 0, spec.positionals[positional.value].name);
          t := s.(err := err);
          return;
        }
        numPositionals := numPositionals + 1;
      }
      positional := None;
      positionalArgCount := 0;
    }
    preservePositional := false;
    // Close the option unless the previous token continued it.
    if !preserveOption {
      if option.Some? && UnderMin(spec.options[option.value].numArgs, optionArgCount) {
        err := ArgsError(MissingOptionArg, 0, optionName);
        t := ScanState(err, w, numPositionals, positional, positionalArgCount, preservePositional,
                       option, optionArgCount, optionName, preserveOption);
        return;
      }
      option := None;
      optionArgCount := 0;
      optionName := "";
    }
    preserveOption := false;
    halt, t := DispatchToken(spec, cb, ScanState(err, w, numPositionals, positional, positionalArgCount,
                                                 preservePositional, option, optionArgCount, optionName,
                                                 preserveOption), arg, pos);
  }

  /** The rest of an iteration, once the positional and the option have
      been closed or continued: the token is a flag, an option name, a value
      of the open option, a value of the next positional, or unknown. */
  method DispatchToken(spec: ArgsSpec, cb: Callback, s: ScanState, arg: string, pos: nat)
    returns (halt: bool, t: ScanState)
    requires ValidSpec(spec) && WellFormed(spec, s)
    ensures Dispatch(spec, cb, s, arg, pos) == if halt then Return(t) else Continue(t)
  {
    var err, w := s.err, s.w;
    var positional, positionalArgCount, preservePositional := s.positional, s.positionalArgCount, s.preservePositional;
    var option, optionArgCount, optionName, preserveOption :=
      s.option, s.optionArgCount, s.optionName, s.preserveOption;
    halt := true;
    // A flag.
    var flag := FindFlag(spec.flags, arg);
    if flag.Some? {
      var f := spec.flags[flag.value];
      w := Invoke(Resolve(f.parser, ArgSetTrue), cb, FlagAt(flag.value), arg, None, f.hasDest, pos, w);
      if w.errno != 0 {
        err := ArgsError(ParseArg, w.errno, arg);
      }
      halt := w.errno != 0 || f.stop;
      t := s.(err := err, w := w);
      return;
    }
    // An option name.
    var newOption := FindOption(spec.options, arg);
    if newOption.Some? {
      if option.Some? && UnderMin(spec.options[option.value].numArgs, optionArgCount) {
        err := ArgsError(MissingOptionArg, 0, optionName);
        t := s.(err := err);
        return;
      }
      halt := false;
      t := s.(option := newOption, optionName := arg, optionArgCount := 0, preserveOption := true);
      return;
    }
    // A value of the open option: a failure is recorded, but the scan goes on.
    if option.Some? {
      var o := spec.options[option.value];
      w := Invoke(Resolve(o.parser, ArgParseStr), cb, OptionAt(option.value), optionName, Some(arg), o.hasDest, pos, w);
      if w.errno != 0 {
        err := ArgsError(ParseArg, w.errno, arg);
      }
      optionArgCount := optionArgCount + 1;
      preserveOption := !OverOrEqMax(o.numArgs, optionArgCount);
      halt := false;
      t := s.(err := err, w := w, optionArgCount := optionArgCount, preserveOption := preserveOption);
      return;
    }
    // A value of the next positional.
    if s.numPositionals < |spec.positionals| {
      positional := Some(s.numPositionals);
      var p := spec.positionals[s.numPositionals];
      w := Invoke(Resolve(p.parser, ArgParseStr), cb, PositionalAt(s.numPositionals), p.name, Some(arg), p.hasDest, pos, w);
      if w.errno != 0 {
        err := ArgsError(ParseArg, w.errno, arg);
        t := s.(err := err, w := w, positional := positional);
        return;
      }
      positionalArgCount := positionalArgCount + 1;
      preservePositional := !OverOrEqMax(p.numArgs, positionalArgCount);
      halt := false;
      t := s.(w := w, positional := positional, positionalArgCount := positionalArgCount,
              preservePositional := preservePositional);
      return;
    }
    // Nothing takes the token.
    err := ArgsError(UnknownArg, 0, arg);
    t := s.(err := err);
  }

  /** `argparse_array`: scans `args` once, left to right, and returns `*err`
      together with the destinations, `errno` and the log of parser calls. */
  method ArgparseArray(args: seq<string>, spec: ArgsSpec, cb: Callback, errno0: int, dest0: map<Entity, Value>)
    returns (err: ArgsError, w: World)
    requires ValidSpec(spec)
    ensures err == Run(spec, cb, args, errno0, dest0).err
    ensures w == Run(spec, cb, args, errno0, dest0).w
  {
    // `s` holds `*err`, the world and the local variables of the scan.
    var s := Init(errno0, dest0);
    var i := 0;
    while i < |args|
      invariant 0 <= i <= |args| && WellFormed(spec, s)
      invariant RunFrom(spec, cb, args, i, s) == Run(spec, cb, args, errno0, dest0)
    {
      RunFromStep(spec, cb, args, i, s);
      var halt;
      halt, s := ScanToken(spec, cb, s, args[i], i);
      if halt {
        return s.err, s.w;
      }
      i := i + 1;
    }
    // The checks after the last token.
    assert RunFrom(spec, cb, args, i, s) == Finish(spec, s);
    if s.option.Some? && UnderMin(spec.options[s.option.value].numArgs, s.optionArgCount) {
      return ArgsError(MissingOptionArg, 0, s.optionName), s.w;
    }
    var numPositionals := s.numPositionals;
    if s.positional.Some? {
      if UnderMin(spec.positionals[s.positional.value].numArgs, s.positionalArgCount) {
        return ArgsError(MissingArg, 0, spec.positionals[s.positional.value].name), s.w;
      }
      numPositionals := numPositionals + 1;
    }
    if numPositionals < |spec.positionals| {
      return ArgsError(MissingArg, 0, spec.positionals[numPositionals].name), s.w;
    }
    return s.err, s.w;
  }

  /** `argparse`: the same scan over a process's arguments, leaving out the
      program name `argv[0]`. */
  method Argparse(argv: seq<string>, spec: ArgsSpec, cb: Callback, errno0: int, dest0: map<Entity, Value>)
    returns (err: ArgsError, w: World)
    requires |argv| >= 1 && ValidSpec(spec)
    ensures err == Run(spec, cb, argv[1..], errno0, dest0).err
    ensures w == Run(spec, cb, argv[1..], errno0, dest0).w
  {
    err, w := ArgparseArray(argv[1..], spec, cb, errno0, dest0);
  }
}
