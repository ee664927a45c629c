/** The scanner of arg-parse.c: a token starting with `--` names a long flag
    or option, one starting with `-` a short one, and any other token binds
    the next positional. An option eagerly takes the tokens after it as its
    values, and the scan resumes after the last one it took. */
module ArgParse {
  import opened ArgsDef

  // ---------------------------------------------------------------------
  // The specification (types.h)
  // ---------------------------------------------------------------------

  datatype ArgPositional = ArgPositional(name: string, hasDest: bool, parser: ParserFn)

  /** A flag: matched by its short name after `-`, or by its long pattern or
      long name after `--`; `stop` ends the scan once the flag is parsed. */
  datatype ArgFlag = ArgFlag(shortName: Option<string>, longName: Option<string>,
                             longPattern: Option<string -> bool>,
                             hasDest: bool, parser: ParserFn, stop: bool)

  /** An option: matched like a flag, then takes values as its arity allows;
      `stop` ends the scan once its values are parsed. */
  datatype ArgOption = ArgOption(numArgs: ArgsNum, shortName: Option<string>, longName: Option<string>,
                                 longPattern: Option<string -> bool>,
                                 hasDest: bool, parser: ParserFn, stop: bool)

  datatype ArgSpec = ArgSpec(positionals: seq<ArgPositional>, flags: seq<ArgFlag>, options: seq<ArgOption>)

  /** What the assertions reached by the scan demand of a specification:
      arities in range, and library parsers given what they need (here
      `arg_parse_str` also needs a destination). */
  predicate ValidSpec(spec: ArgSpec) {
    && (forall k :: 0 <= k < |spec.positionals| ==>
          CanInvoke(Resolve(spec.positionals[k].parser, ArgParseStr), true, spec.positionals[k].hasDest, true))
    && (forall k :: 0 <= k < |spec.flags| ==>
          CanInvoke(Resolve(spec.flags[k].parser, ArgSetTrue), false, spec.flags[k].hasDest, true))
    && (forall k :: 0 <= k < |spec.options| ==>
          ValidArgsNum(spec.options[k].numArgs)
          && CanInvoke(Resolve(spec.options[k].parser, ArgParseStr), true, spec.options[k].hasDest, true))
  }

  // ---------------------------------------------------------------------
  // Matching
  // ---------------------------------------------------------------------

  /** `str__is_prefix(s, p)`. */
  predicate StartsWith(s: string, p: string) {
    |p| <= |s| && s[..|p|] == p
  }

  /** The index of the first element of `xs` that `accepts`, if any. */
  function FindFirst<T>(xs: seq<T>, accepts: T -> bool): (r: Option<nat>)
    ensures r.Some? ==> r.value < |xs|
  {
    if xs == [] then None
    else if accepts(xs[0]) then Some(0)
    else
      match FindFirst(xs[1..], accepts)
      case None => None
      case Some(k) => Some(k + 1)
  }

  /** `FindFirst` finds the first accepted element, and nothing exactly
      when no element is accepted. */
  lemma {:induction false} FindFirstIsFirst<T>(xs: seq<T>, accepts: T -> bool)
    ensures FindFirst(xs, accepts).Some? ==> accepts(xs[FindFirst(xs, accepts).value])
    ensures forall j :: 0 <= j < |xs| && (FindFirst(xs, accepts).None? || j < FindFirst(xs, accepts).value)
                   ==> !accepts(xs[j])
  {
    if xs != [] && !accepts(xs[0]) {
      FindFirstIsFirst(xs[1..], accepts);
      assert forall j :: 1 <= j < |xs| ==> xs[j] == xs[1..][j - 1];
    }
  }

  predicate FlagLongMatches(f: ArgFlag, name: string) {
    (f.longPattern.Some? && f.longPattern.value(name)) || (f.longName.Some? && f.longName.value == name)
  }

  predicate OptionLongMatches(o: ArgOption, name: string) {
    (o.longPattern.Some? && o.longPattern.value(name)) || (o.longName.Some? && o.longName.value == name)
  }

  predicate FlagShortMatches(f: ArgFlag, name: string) {
    f.shortName.Some? && f.shortName.value == name
  }

  predicate OptionShortMatches(o: ArgOption, name: string) {
    o.shortName.Some? && o.shortName.value == name
  }

  /** `find_flag_long_match`: the first flag whose long pattern or long name
      accepts `name`. */
  function FindFlagLongMatch(flags: seq<ArgFlag>, name: string): (r: Option<nat>)
    ensures r.Some? ==> r.value < |flags| && FlagLongMatches(flags[r.value], name)
    ensures forall j :: 0 <= j < |flags| && (r.None? || j < r.value) ==> !FlagLongMatches(flags[j], name)
  {
    FindFirstIsFirst(flags, f => FlagLongMatches(f, name));
    FindFirst(flags, f => FlagLongMatches(f, name))
  }

  /** `find_option_long_match`: the first option whose long pattern or long
      name accepts `name`. */
  function FindOptionLongMatch(options: seq<ArgOption>, name: string): (r: Option<nat>)
    ensures r.Some? ==> r.value < |options| && OptionLongMatches(options[r.value], name)
    ensures forall j :: 0 <= j < |options| && (r.None? || j < r.value) ==> !OptionLongMatches(options[j], name)
  {
    FindFirstIsFirst(options, o => OptionLongMatches(o, name));
    FindFirst(options, o => OptionLongMatches(o, name))
  }

  /** `find_flag_short_match`: the first flag whose short name is `name`. */
  function FindFlagShortMatch(flags: seq<ArgFlag>, name: string): (r: Option<nat>)
    ensures r.Some? ==> r.value < |flags| && FlagShortMatches(flags[r.value], name)
    ensures forall j :: 0 <= j < |flags| && (r.None? || j < r.value) ==> !FlagShortMatches(flags[j], name)
  {
    FindFirstIsFirst(flags, f => FlagShortMatches(f, name));
    FindFirst(flags, f => FlagShortMatches(f, name))
  }

  /** `find_option_short_match`: the first option whose short name is `name`. */
  function FindOptionShortMatch(options: seq<ArgOption>, name: string): (r: Option<nat>)
    ensures r.Some? ==> r.value < |options| && OptionShortMatches(options[r.value], name)
    ensures forall j :: 0 <= j < |options| && (r.None? || j < r.value) ==> !OptionShortMatches(options[j], name)
  {
    FindFirstIsFirst(options, o => OptionShortMatches(o, name));
    FindFirst(options, o => OptionShortMatches(o, name))
  }

  // ---------------------------------------------------------------------
  // An option's values (parse_option_args)
  // ---------------------------------------------------------------------

  /** How many values an option took, the error it ended with (`NoErr` if
      none), and the world after its parser calls. */
  datatype OptionArgs = OptionArgs(count: nat, err: ArgsError, w: World)

  /** The calls of option `k`'s parser on `rest[i..n]`, the tokens at
      positions `base + i` to `base + n` of the scan. */
  function ValueCalls(k: nat, name: string, rest: seq<string>, base: nat, i: nat, n: nat): (log: seq<Call>)
    requires i <= n <= |rest|
    ensures |log| == n - i
    decreases n - i
  {
    if i == n then [] else [Call(OptionAt(k), name, Some(rest[i]), base + i)] + ValueCalls(k, name, rest, base, i + 1, n)
  }

  /** The `m`-th of those calls is on `rest[i + m]`, at position `base + i + m`. */
  lemma {:induction false} ValueCallsAt(k: nat, name: string, rest: seq<string>, base: nat, i: nat, n: nat, m: nat)
    requires i <= n <= |rest| && m < n - i
    ensures ValueCalls(k, name, rest, base, i, n)[m] == Call(OptionAt(k), name, Some(rest[i + m]), base + i + m)
    decreases n - i
  {
    if m > 0 {
      ValueCallsAt(k, name, rest, base, i + 1, n, m - 1);
    }
  }

  /** The values of option `k`, named `name`, taken from `rest[i..]` while
      its maximum is not reached and no token starts with `-`; the first
      failing parser call ends it with `PARSE_ARG`, and too few values with
      `MISSING_OPTION_ARG`. */
  function OptionArgsFrom(o: ArgOption, k: nat, name: string, rest: seq<string>, base: nat,
                          cb: Callback, i: nat, w: World): (r: OptionArgs)
    requires ValidArgsNum(o.numArgs) && CanInvoke(Resolve(o.parser, ArgParseStr), true, o.hasDest, true)
    requires i <= |rest|
    ensures i <= r.count <= |rest|
    ensures forall j :: i <= j < r.count ==> !StartsWith(rest[j], "-") && !OverOrEqMax(o.numArgs, j)
    ensures r.err.kind.NoError? || r.err.kind.ParseArg? || r.err.kind.MissingOptionArg?
    ensures r.err.kind.ParseArg? ==>
      && r.count < |rest| && r.err.str == rest[r.count] && r.err.error == r.w.errno != 0
      && !StartsWith(rest[r.count], "-") && !OverOrEqMax(o.numArgs, r.count)
    ensures !r.err.kind.ParseArg? ==>
      && (r.count == |rest| || OverOrEqMax(o.numArgs, r.count) || StartsWith(rest[r.count], "-"))
      && (r.err.kind.MissingOptionArg? <==> UnderMin(o.numArgs, r.count))
      && (r.err.kind.MissingOptionArg? ==> r.err == ArgsError(MissingOptionArg, 0, name))
      && (r.err.kind.NoError? ==> r.err == NoErr)
    decreases |rest| - i
  {
    if i == |rest| || OverOrEqMax(o.numArgs, i) || StartsWith(rest[i], "-") then
      OptionArgs(i, if UnderMin(o.numArgs, i) then ArgsError(MissingOptionArg, 0, name) else NoErr, w)
    else
      var w' := Invoke(Resolve(o.parser, ArgParseStr), cb, OptionAt(k), name, Some(rest[i]), o.hasDest, base + i, w);
      if w'.errno != 0 then OptionArgs(i, ArgsError(ParseArg, w'.errno, rest[i]), w')
      else OptionArgsFrom(o, k, name, rest, base, cb, i + 1, w')
  }

  /** The parser calls an option's values make: one per value taken, in
      order, plus the failing one if any; `errno` is left clear when none
      fails. */
  lemma {:induction false} OptionArgsCalls(o: ArgOption, k: nat, name: string, rest: seq<string>, base: nat,
                                            cb: Callback, i: nat, w: World)
    requires ValidArgsNum(o.numArgs) && CanInvoke(Resolve(o.parser, ArgParseStr), true, o.hasDest, true)
    requires i <= |rest| && w.errno == 0
    ensures var r := OptionArgsFrom(o, k, name, rest, base, cb, i, w);
      && (r.err.kind.ParseArg? ==> r.w.log == w.log + ValueCalls(k, name, rest, base, i, r.count + 1))
      && (!r.err.kind.ParseArg? ==> r.w.log == w.log + ValueCalls(k, name, rest, base, i, r.count) && r.w.errno == 0)
    decreases |rest| - i
  {
    var r := OptionArgsFrom(o, k, name, rest, base, cb, i, w);
    if !(i == |rest| || OverOrEqMax(o.numArgs, i) || StartsWith(rest[i], "-")) {
      var c := Call(OptionAt(k), name, Some(rest[i]), base + i);
      var w' := Invoke(Resolve(o.parser, ArgParseStr), cb, OptionAt(k), name, Some(rest[i]), o.hasDest, base + i, w);
      if w'.errno != 0 {
      } else {
        OptionArgsCalls(o, k, name, rest, base, cb, i + 1, w');
        if r.err.kind.ParseArg? {
          assert w.log + [c] + ValueCalls(k, name, rest, base, i + 1, r.count + 1)
              == w.log + ([c] + ValueCalls(k, name, rest, base, i + 1, r.count + 1));
        } else {
          assert w.log + [c] + ValueCalls(k, name, rest, base, i + 1, r.count)
              == w.log + ([c] + ValueCalls(k, name, rest, base, i + 1, r.count));
        }
      }
    }
  }

  /** `parse_option_args` for option `k`, named `name` after its prefix,
      on the tokens `rest` that follow it at position `base`: `errno` is
      cleared, then values are taken from the start of `rest`. */
  function OptionArgsOf(o: ArgOption, k: nat, name: string, rest: seq<string>, base: nat,
                        cb: Callback, w: World): (v: OptionArgs)
    requires ValidArgsNum(o.numArgs) && CanInvoke(Resolve(o.parser, ArgParseStr), true, o.hasDest, true)
  {
    OptionArgsFrom(o, k, name, rest, base, cb, 0, w.(errno := 0))
  }

  /** The count `parse_option_args` returns never exceeds the option's
      maximum: none for `NONE`, one for `0`, `max` itself otherwise, and
      no limit for `INFINITE`. A failing value is counted with the values
      before it against the maximum. */
  lemma OptionArgsWithinMax(o: ArgOption, k: nat, name: string, rest: seq<string>, base: nat, cb: Callback, w: World)
    requires ValidArgsNum(o.numArgs) && CanInvoke(Resolve(o.parser, ArgParseStr), true, o.hasDest, true)
    ensures var r := OptionArgsOf(o, k, name, rest, base, cb, w);
      && r.count <= |rest|
      && (MaxBound(o.numArgs).AtMost? ==>
            r.count + (if r.err.kind.ParseArg? then 1 else 0) <= MaxBound(o.numArgs).k)
      && (o.numArgs.max == NONE ==> r.count == 0 && r.w == w.(errno := 0))
  {
    var r := OptionArgsOf(o, k, name, rest, base, cb, w);
    if MaxBound(o.numArgs).AtMost? && r.count > 0 {
      assert !OverOrEqMax(o.numArgs, r.count - 1);
    }
    if r.err.kind.ParseArg? {
      assert !OverOrEqMax(o.numArgs, r.count);
    }
  }

  /** `parse_option_args` as written: a counted loop that breaks at the
      maximum or at a `-` token, and returns early when a parser fails. */
  method ParseOptionArgs(o: ArgOption, k: nat, name: string, rest: seq<string>, base: nat,
                         cb: Callback, w0: World) returns (count: nat, err: ArgsError, w: World)
    requires ValidArgsNum(o.numArgs) && CanInvoke(Resolve(o.parser, ArgParseStr), true, o.hasDest, true)
    ensures OptionArgs(count, err, w) == OptionArgsOf(o, k, name, rest, base, cb, w0)
  {
    w := w0.(errno := 0);
    err := NoErr;
    count := 0;
    while count < |rest|
      invariant count <= |rest|
      invariant OptionArgsFrom(o, k, name, rest, base, cb, count, w) == OptionArgsOf(o, k, name, rest, base, cb, w0)
      decreases |rest| - count
    {
      if OverOrEqMax(o.numArgs, count) {
        break;
      }
      if StartsWith(rest[count], "-") {
        break;
      }
      w := Invoke(Resolve(o.parser, ArgParseStr), cb, OptionAt(k), name, Some(rest[count]), o.hasDest, base + count, w);
      if w.errno != 0 {
        err := ArgsError(ParseArg, w.errno, rest[count]);
        return;
      }
      count := count + 1;
    }
    if UnderMin(o.numArgs, count) {
      err := ArgsError(MissingOptionArg, 0, name);
    }
  }

  // ---------------------------------------------------------------------
  // The scan, as a function of the tokens
  // ---------------------------------------------------------------------

  /** `*err`, the world the parsers act on, and `npos`, the number of
      positionals bound so far. */
  datatype ScanState = ScanState(err: ArgsError, w: World, npos: nat)

  /** After one token: go on at token `next`, or return from the call. */
  datatype Next = Continue(st: ScanState, next: nat) | Return(st: ScanState)

  /** Flag `k`, named `name` after its prefix, matched the token at `i`. */
  function FlagStep(spec: ArgSpec, cb: Callback, k: nat, name: string, arg: string, i: nat, s: ScanState): (r: Next)
    requires ValidSpec(spec) && k < |spec.flags| && s.npos <= |spec.positionals|
    ensures r.st.npos == s.npos && (r.Continue? ==> r.next == i + 1)
  {
    var f := spec.flags[k];
    var w := Invoke(Resolve(f.parser, ArgSetTrue), cb, FlagAt(k), name, None, f.hasDest, i, s.w);
    if w.errno != 0 then Return(s.(w := w, err := ArgsError(ParseArg, w.errno, arg)))
    else if f.stop then Return(s.(w := w))
    else Continue(s.(w := w), i + 1)
  }

  /** Option `k`, named `name` after its prefix, matched the token at `i`. */
  function OptionStep(spec: ArgSpec, cb: Callback, args: seq<string>, k: nat, name: string, i: nat, s: ScanState): (r: Next)
    requires ValidSpec(spec) && k < |spec.options| && i < |args| && s.npos <= |spec.positionals|
    ensures r.st.npos == s.npos && (r.Continue? ==> i < r.next <= |args|)
  {
    var o := spec.options[k];
    var v := OptionArgsOf(o, k, name, args[i + 1..], i + 1, cb, s.w);
    if !v.err.kind.NoError? then Return(s.(w := v.w, err := v.err))
    else if o.stop then Return(s.(w := v.w))
    else Continue(s.(w := v.w), i + 1 + v.count)
  }

  /** A token without a `-` prefix binds the next positional, if any is left. */
  function PositionalStep(spec: ArgSpec, cb: Callback, arg: string, i: nat, s: ScanState): (r: Next)
    requires ValidSpec(spec) && s.npos <= |spec.positionals|
    ensures r.st.npos <= |spec.positionals| && (r.Continue? ==> r.next == i + 1)
  {
    if s.npos < |spec.positionals| then
      var p := spec.positionals[s.npos];
      var w := Invoke(Resolve(p.parser, ArgParseStr), cb, PositionalAt(s.npos), p.name, Some(arg), p.hasDest, i, s.w);
      if w.errno != 0 then Return(s.(w := w, err := ArgsError(ParseArg, w.errno, arg)))
      else Continue(s.(w := w, npos := s.npos + 1), i + 1)
    else Return(s.(err := ArgsError(UnknownArg, 0, arg)))
  }

  /** One iteration of the scan loop, on the token at position `i`. */
  function Step(spec: ArgSpec, cb: Callback, args: seq<string>, i: nat, s: ScanState): (r: Next)
    requires ValidSpec(spec) && i < |args| && s.npos <= |spec.positionals|
    ensures r.st.npos <= |spec.positionals| && (r.Continue? ==> i < r.next <= |args|)
  {
    var arg := args[i];
    if StartsWith(arg, "--") then
      var name := arg[2..];
      match FindFlagLongMatch(spec.flags, name)
      case Some(k) => FlagStep(spec, cb, k, name, arg, i, s)
      case None =>
        match FindOptionLongMatch(spec.options, name)
        case Some(k) => OptionStep(spec, cb, args, k, name, i, s)
        case None => Return(s.(err := ArgsError(UnknownArg, 0, arg)))
    else if StartsWith(arg, "-") then
      var name := arg[1..];
      match FindFlagShortMatch(spec.flags, name)
      case Some(k) => FlagStep(spec, cb, k, name, arg, i, s)
      case None =>
        match FindOptionShortMatch(spec.options, name)
        case Some(k) => OptionStep(spec, cb, args, k, name, i, s)
        case None => Return(s.(err := ArgsError(UnknownArg, 0, arg)))
    else PositionalStep(spec, cb, arg, i, s)
  }

  /** The check after the last token: every positional must be bound. */
  function Finish(spec: ArgSpec, s: ScanState): (r: ScanState)
    requires s.npos <= |spec.positionals|
  {
    if s.npos < |spec.positionals| then s.(err := ArgsError(MissingArg, 0, spec.positionals[s.npos].name))
    else s
  }

  /** The scan of `args` from token `i` in state `s`, up to the state it
      returns in. */
  function RunFrom(spec: ArgSpec, cb: Callback, args: seq<string>, i: nat, s: ScanState): (r: ScanState)
    requires ValidSpec(spec) && i <= |args| && s.npos <= |spec.positionals|
    decreases |args| - i
  {
    if i == |args| then Finish(spec, s)
    else
      match Step(spec, cb, args, i, s)
      case Return(t) => t
      case Continue(t, j) => RunFrom(spec, cb, args, j, t)
  }

  function Init(errno0: int, dest0: map<Entity, Value>): (s: ScanState) {
    ScanState(NoErr, World(dest0, errno0, []), 0)
  }

  /** `arg_parse_array` on `args`, starting from the given `errno` and
      destinations. */
  function Run(spec: ArgSpec, cb: Callback, args: seq<string>, errno0: int, dest0: map<Entity, Value>): (r: ScanState)
    requires ValidSpec(spec)
  {
    RunFrom(spec, cb, args, 0, Init(errno0, dest0))
  }

  lemma RunFromStep(spec: ArgSpec, cb: Callback, args: seq<string>, i: nat, s: ScanState)
    requires ValidSpec(spec) && i < |args| && s.npos <= |spec.positionals|
    ensures Step(spec, cb, args, i, s).Return? ==> RunFrom(spec, cb, args, i, s) == Step(spec, cb, args, i, s).st
    ensures Step(spec, cb, args, i, s).Continue? ==>
      RunFrom(spec, cb, args, i, s) == RunFrom(spec, cb, args, Step(spec, cb, args, i, s).next, Step(spec, cb, args, i, s).st)
  {
  }

  // ---------------------------------------------------------------------
  // The scan, as written
  // ---------------------------------------------------------------------

  /** The flag branch of the loop body of `arg_parse_array`. */
  method ParseFlag(spec: ArgSpec, cb: Callback, k: nat, name: string, arg: string, i: nat, s: ScanState)
    returns (halt: bool, t: ScanState, next: nat)
    requires ValidSpec(spec) && k < |spec.flags| && s.npos <= |spec.positionals|
    ensures FlagStep(spec, cb, k, name, arg, i, s) == if halt then Return(t) else Continue(t, next)
  {
    var f := spec.flags[k];
    var w := Invoke(Resolve(f.parser, ArgSetTrue), cb, FlagAt(k), name, None, f.hasDest, i, s.w);
    if w.errno != 0 {
      return true, s.(w := w, err := ArgsError(ParseArg, w.errno, arg)), 0;
    }
    if f.stop {
      return true, s.(w := w), 0;
    }
    return false, s.(w := w), i + 1;
  }

  /** The option branch of the loop body of `arg_parse_array`. */
  method ParseOption(spec: ArgSpec, cb: Callback, args: seq<string>, k: nat, name: string, i: nat, s: ScanState)
    returns (halt: bool, t: ScanState, next: nat)
    requires ValidSpec(spec) && k < |spec.options| && i < |args| && s.npos <= |spec.positionals|
    ensures OptionStep(spec, cb, args, k, name, i, s) == if halt then Return(t) else Continue(t, next)
  {
    var o := spec.options[k];
    var count, err, w := ParseOptionArgs(o, k, name, args[i + 1..], i + 1, cb, s.w);
    if !err.kind.NoError? {
      return true, s.(w := w, err := err), 0;
    }
    if o.stop {
      return true, s.(w := w), 0;
    }
    return false, s.(w := w), i + 1 + count;
  }

  /** One pass of the loop body of `arg_parse_array` on the token at `i`:
      `halt` when the call returns. */
  method ScanToken(spec: ArgSpec, cb: Callback, args: seq<string>, i: nat, s: ScanState)
    returns (halt: bool, t: ScanState, next: nat)
    requires ValidSpec(spec) && i < |args| && s.npos <= |spec.positionals|
    ensures Step(spec, cb, args, i, s) == if halt then Return(t) else Continue(t, next)
  {
    var arg := args[i];
    if StartsWith(arg, "--") {
      var name := arg[2..];
      var af := FindFlagLongMatch(spec.flags, name);
      if af.Some? {
        halt, t, next := ParseFlag(spec, cb, af.value, name, arg, i, s);
        return;
      }
      var ao := FindOptionLongMatch(spec.options, name);
      if ao.Some? {
        halt, t, next := ParseOption(spec, cb, args, ao.value, name, i, s);
        return;
      }
    } else if StartsWith(arg, "-") {
      var name := arg[1..];
      var af := FindFlagShortMatch(spec.flags, name);
      if af.Some? {
        halt, t, next := ParseFlag(spec, cb, af.value, name, arg, i, s);
        return;
      }
      var ao := FindOptionShortMatch(spec.options, name);
      if ao.Some? {
        halt, t, next := ParseOption(spec, cb, args, ao.value, name, i, s);
        return;
      }
    } else if s.npos < |spec.positionals| {
      var p := spec.positionals[s.npos];
      var w := Invoke(Resolve(p.parser, ArgParseStr), cb, PositionalAt(s.npos), p.name, Some(arg), p.hasDest, i, s.w);
      if w.errno != 0 {
        return true, s.(w := w, err := ArgsError(ParseArg, w.errno, arg)), 0;
      }
      return false, s.(w := w, npos := s.npos + 1), i + 1;
    }
    return true, s.(err := ArgsError(UnknownArg, 0, arg)), 0;
  }

  /** `arg_parse_array`: scans `args` once, left to right, and reports the
      error and the world the scan ends in. */
  method ArgParseArray(args: seq<string>, spec: ArgSpec, cb: Callback, errno0: int, dest0: map<Entity, Value>)
    returns (err: ArgsError, w: World)
    requires ValidSpec(spec)
    ensures err == Run(spec, cb, args, errno0, dest0).err
    ensures w == Run(spec, cb, args, errno0, dest0).w
  {
    var s := Init(errno0, dest0);
    var i := 0;
    while i < |args|
      invariant i <= |args| && s.npos <= |spec.positionals|
      invariant RunFrom(spec, cb, args, i, s) == Run(spec, cb, args, errno0, dest0)
      decreases |args| - i
    {
      RunFromStep(spec, cb, args, i, s);
      var halt, next;
      halt, s, next := ScanToken(spec, cb, args, i, s);
      if halt {
        return s.err, s.w;
      }
      i := next;
    }
    if s.npos < |spec.positionals| {
      return ArgsError(MissingArg, 0, spec.positionals[s.npos].name), s.w;
    }
    return s.err, s.w;
  }

  /** `arg_parse`: `arg_parse_array` on `argv` without the program name. */
  method ArgParse(argv: seq<string>, spec: ArgSpec, cb: Callback, errno0: int, dest0: map<Entity, Value>)
    returns (err: ArgsError, w: World)
    requires |argv| >= 1 && ValidSpec(spec)
    ensures err == Run(spec, cb, argv[1..], errno0, dest0).err
    ensures w == Run(spec, cb, argv[1..], errno0, dest0).w
  {
    err, w := ArgParseArray(argv[1..], spec, cb, errno0, dest0);
  }
}
