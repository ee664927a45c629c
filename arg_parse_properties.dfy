/** What the scan of arg-parse.c guarantees, proved about `ArgParse.Run`:
    which parser saw which token and in what order, that every token the
    scan reached went to a parser or named an option, that plain tokens
    bind the positionals one each in declaration order, where a stop flag
    or option ends the scan, and what each error kind it reports says
    about the input. */
module ArgParseProperties {
  import opened ArgsDef
  import opened ArgParse

  // ---------------------------------------------------------------------
  // How a token is read
  // ---------------------------------------------------------------------

  /** A token's name: without its `--` or `-` prefix, if it has one. */
  function TokenName(t: string): (n: string) {
    if StartsWith(t, "--") then t[2..] else if StartsWith(t, "-") then t[1..] else t
  }

  /** The flag a token names: by long name after `--`, by short name after `-`. */
  function TokenFlag(spec: ArgSpec, t: string): (r: Option<nat>)
    ensures r.Some? ==> r.value < |spec.flags| && StartsWith(t, "-")
  {
    if StartsWith(t, "--") then FindFlagLongMatch(spec.flags, t[2..])
    else if StartsWith(t, "-") then FindFlagShortMatch(spec.flags, t[1..])
    else None
  }

  /** The option a token names, when it names no flag. */
  function TokenOption(spec: ArgSpec, t: string): (r: Option<nat>)
    ensures r.Some? ==> r.value < |spec.options| && StartsWith(t, "-") && TokenFlag(spec, t).None?
  {
    if TokenFlag(spec, t).Some? then None
    else if StartsWith(t, "--") then FindOptionLongMatch(spec.options, t[2..])
    else if StartsWith(t, "-") then FindOptionShortMatch(spec.options, t[1..])
    else None
  }

  /** A token naming a flag or option whose `stop` bit is set. */
  predicate StopToken(spec: ArgSpec, t: string) {
    || (TokenFlag(spec, t).Some? && spec.flags[TokenFlag(spec, t).value].stop)
    || (TokenOption(spec, t).Some? && spec.options[TokenOption(spec, t).value].stop)
  }

  /** `0, 1, ..., n - 1`. */
  function Range(n: nat): (r: seq<nat>)
    ensures |r| == n
  {
    if n == 0 then [] else Range(n - 1) + [n - 1]
  }

  /** A token without `-` names no flag or option, and has no `--` either. */
  lemma PlainToken(spec: ArgSpec, t: string)
    requires !StartsWith(t, "-")
    ensures !StartsWith(t, "--") && TokenFlag(spec, t).None? && TokenOption(spec, t).None? && TokenName(t) == t
    ensures !StopToken(spec, t)
  {
  }

  // ---------------------------------------------------------------------
  // The shape of a scan
  // ---------------------------------------------------------------------

  /** The token at `p` is a value of option `k` named `name`, opened by the
      token at `o`: every token after `o` up to `p` has no `-` prefix, and
      the option's maximum was not reached before it. */
  predicate ValueOf(spec: ArgSpec, args: seq<string>, o: nat, p: nat, k: nat, name: string) {
    && o < p < |args|
    && TokenOption(spec, args[o]) == Some(k) && TokenName(args[o]) == name
    && (forall q :: o < q <= p ==> !StartsWith(args[q], "-"))
    && k < |spec.options| && spec.options[k].numArgs.max >= INFINITE
    && !OverOrEqMax(spec.options[k].numArgs, p - o - 1)
  }

  /** A logged call fits the scan of `args`: a flag's parser got no token,
      under the name its token gives after the prefix; an option's parser
      got one of the option's values, under the name of the token that
      opened it; a positional's parser got a token without `-`, under the
      positional's own name. */
  predicate CallFits(spec: ArgSpec, args: seq<string>, c: Call) {
    && c.pos < |args|
    && match c.entity
       case FlagAt(k) =>
         c.arg.None? && TokenFlag(spec, args[c.pos]) == Some(k) && c.name == TokenName(args[c.pos])
       case OptionAt(k) =>
         c.arg == Some(args[c.pos]) && exists o :: 0 <= o < c.pos && ValueOf(spec, args, o, c.pos, k, c.name)
       case PositionalAt(k) =>
         && c.arg == Some(args[c.pos]) && !StartsWith(args[c.pos], "-")
         && k < |spec.positionals| && c.name == spec.positionals[k].name
  }

  /** Every call of the log fits and took a token before position `i`, and
      the calls follow the order of the tokens, at most one call per token. */
  predicate LogFits(spec: ArgSpec, args: seq<string>, log: seq<Call>, i: nat) {
    && PositionsIncreasing(log)
    && forall j :: 0 <= j < |log| ==> log[j].pos < i && CallFits(spec, args, log[j])
  }

  /** Every token before position `i` was given to a parser, except the
      tokens that named an option. */
  predicate Covered(spec: ArgSpec, args: seq<string>, log: seq<Call>, i: nat) {
    forall t :: 0 <= t < i && t < |args| ==> t in Positions(log) || TokenOption(spec, args[t]).Some?
  }

  /** No token before position `i` names a stop flag or option. */
  predicate Unstopped(spec: ArgSpec, args: seq<string>, i: nat) {
    forall t :: 0 <= t < i && t < |args| ==> !StopToken(spec, args[t])
  }

  function LastCall(log: seq<Call>): (c: Call)
    requires log != []
  {
    log[|log| - 1]
  }

  /** `PARSE_ARG` names the token of the last parser call, and carries the
      current, non-zero `errno`. */
  predicate ErrTracked(args: seq<string>, s: ScanState) {
    s.err.kind.ParseArg? ==>
      && s.w.log != [] && LastCall(s.w.log).pos < |args|
      && s.err.str == args[LastCall(s.w.log).pos] && s.err.error == s.w.errno != 0
  }

  /** The state between two iterations, with token `i` next: no error yet,
      the log fits and covers the tokens before `i`, none of which stops
      the scan, and the positionals called are exactly the first `npos`,
      each once, in order. */
  predicate Inv(spec: ArgSpec, args: seq<string>, i: nat, s: ScanState) {
    && i <= |args| && s.npos <= |spec.positionals| && s.err == NoErr
    && LogFits(spec, args, s.w.log, i)
    && Covered(spec, args, s.w.log, i)
    && Unstopped(spec, args, i)
    && PositionalIndices(s.w.log) == Range(s.npos)
  }

  /** The only calls on tokens after `e` are values of the option that the
      token at `e` names. */
  predicate AfterEnd(spec: ArgSpec, args: seq<string>, log: seq<Call>, e: nat) {
    forall j :: 0 <= j < |log| && log[j].pos > e ==>
      e < |args| && TokenOption(spec, args[e]).Some? && log[j].entity == OptionAt(TokenOption(spec, args[e]).value)
  }

  /** The shape of the final state of a scan that returned at token `e`
      (or ran past the last token, `e == |args|`): the log fits, covers the
      tokens before `e`, none of which stops the scan, and reaches past `e`
      only with the values of an option named at `e`; the positionals
      called are the first `npos`, and also positional `npos` when its
      parser failed. */
  predicate Shape(spec: ArgSpec, args: seq<string>, e: nat, r: ScanState) {
    && e <= |args|
    && LogFits(spec, args, r.w.log, |args|)
    && Covered(spec, args, r.w.log, e)
    && Unstopped(spec, args, e)
    && AfterEnd(spec, args, r.w.log, e)
    && (|| PositionalIndices(r.w.log) == Range(r.npos)
        || (r.err.kind.ParseArg? && r.npos < |spec.positionals| && PositionalIndices(r.w.log) == Range(r.npos + 1)))
  }

  /** What the final state says about the input, when the scan ended at
      token `e`:
      - only the scanner's own error kinds occur;
      - `PARSE_ARG` names the token of the last parser call and carries the
        current `errno`;
      - `NONE` means every positional was bound and the scan reached the
        end, or the scan ended at a stop flag or option;
      - at a flag, the flag's parser was the last called, and the error is
        `PARSE_ARG` exactly when `errno` is set and `NONE` otherwise;
      - `UNKNOWN_ARG` names the token the scan ended at, which names no flag
        or option, and which has a `-` prefix or came after every
        positional was bound;
      - `MISSING_ARG` is reported only at the end, for the first positional
        left unbound;
      - `MISSING_OPTION_ARG` names, without its prefix, the token the scan
        ended at, which names an option. */
  predicate Outcome(spec: ArgSpec, args: seq<string>, e: nat, r: ScanState) {
    && e <= |args| && r.npos <= |spec.positionals|
    && ScanKind(r.err.kind)
    && ErrTracked(args, r)
    && (r.err.kind.NoError? ==>
          (e == |args| && r.npos == |spec.positionals|) || (e < |args| && StopToken(spec, args[e])))
    && (e < |args| && TokenFlag(spec, args[e]).Some? ==>
          && r.w.log != []
          && LastCall(r.w.log) == Call(FlagAt(TokenFlag(spec, args[e]).value), TokenName(args[e]), None, e)
          && (r.err.kind.NoError? || r.err.kind.ParseArg?)
          && (r.err.kind.ParseArg? <==> r.w.errno != 0))
    && (e < |args| && TokenOption(spec, args[e]).Some? ==>
          r.err.kind.NoError? || r.err.kind.ParseArg? || r.err.kind.MissingOptionArg?)
    && (r.err.kind.UnknownArg? ==>
          && e < |args| && r.err.str == args[e]
          && TokenFlag(spec, args[e]).None? && TokenOption(spec, args[e]).None?
          && (!StartsWith(args[e], "-") ==> r.npos == |spec.positionals|))
    && (r.err.kind.MissingArg? ==>
          e == |args| && r.npos < |spec.positionals| && r.err.str == spec.positionals[r.npos].name)
    && (r.err.kind.MissingOptionArg? ==>
          e < |args| && TokenOption(spec, args[e]).Some? && r.err.str == TokenName(args[e]))
  }

  /** What holds when the scan returns at token `e`. */
  predicate Final(spec: ArgSpec, args: seq<string>, e: nat, r: ScanState) {
    Shape(spec, args, e, r) && Outcome(spec, args, e, r)
  }

  /** What one iteration on token `i` leaves: the state for the token it
      goes on at, or a final state that ended at `i`. */
  predicate NextOk(spec: ArgSpec, args: seq<string>, i: nat, r: Next) {
    match r
    case Continue(t, j) => i < j <= |args| && Inv(spec, args, j, t)
    case Return(t) => Final(spec, args, i, t)
  }

  /** The token at which the scan of `args[i..]` from `s` returns, or
      `|args|` when it runs past the last token. */
  function ScanEnd(spec: ArgSpec, cb: Callback, args: seq<string>, i: nat, s: ScanState): (e: nat)
    requires ValidSpec(spec) && i <= |args| && s.npos <= |spec.positionals|
    ensures i <= e <= |args|
    decreases |args| - i
  {
    if i == |args| then |args|
    else
      match Step(spec, cb, args, i, s)
      case Return(_) => i
      case Continue(t, j) => ScanEnd(spec, cb, args, j, t)
  }

  // ---------------------------------------------------------------------
  // Growing the log
  // ---------------------------------------------------------------------

  lemma LogFitsWiden(spec: ArgSpec, args: seq<string>, log: seq<Call>, i: nat, j: nat)
    requires LogFits(spec, args, log, i) && i <= j
    ensures LogFits(spec, args, log, j)
  {
  }

  /** A call that fits, on the token at position `i`, extends a fitting log
      and covers its token. */
  lemma AppendFits(spec: ArgSpec, args: seq<string>, i: nat, log: seq<Call>, c: Call)
    requires LogFits(spec, args, log, i) && Covered(spec, args, log, i) && c.pos == i && CallFits(spec, args, c)
    ensures LogFits(spec, args, log + [c], i + 1) && Covered(spec, args, log + [c], i + 1)
    ensures Covered(spec, args, log + [c], i) && AfterEnd(spec, args, log + [c], i)
  {
    PositionsAppend(log, c);
    var l := log + [c];
    assert l[|log|] == c;
    forall j | 0 <= j < |log| ensures l[j] == log[j] && l[j].pos < i {
    }
  }

  /** The calls an option named by the token at `i` makes on its values:
      the log grows by one call per value taken, plus the failing one; the
      tokens they take have no `-` prefix and stay below the maximum; the
      positionals are left alone, a failing value is the last call, and
      `errno` is clear when none fails. */
  lemma OptionValuesFit(spec: ArgSpec, cb: Callback, args: seq<string>, i: nat, k: nat, name: string, s: ScanState,
                        v: OptionArgs, n: nat)
    requires ValidSpec(spec) && i < |args|
    requires TokenOption(spec, args[i]) == Some(k) && TokenName(args[i]) == name
    requires v == OptionArgsOf(spec.options[k], k, name, args[i + 1..], i + 1, cb, s.w)
    requires n == if v.err.kind.ParseArg? then v.count + 1 else v.count
    ensures i + 1 + n <= |args|
    ensures v.w.log == s.w.log + ValueCalls(k, name, args[i + 1..], i + 1, 0, n)
    ensures forall q :: i < q <= i + n ==> !StartsWith(args[q], "-")
    ensures forall m :: 0 <= m < n ==> !OverOrEqMax(spec.options[k].numArgs, m)
    ensures PositionalIndices(v.w.log) == PositionalIndices(s.w.log)
    ensures v.err.kind.ParseArg? ==> v.w.log != [] && LastCall(v.w.log).pos == i + 1 + v.count
    ensures !v.err.kind.ParseArg? ==> v.w.errno == 0
  {
    var o := spec.options[k];
    var rest := args[i + 1..];
    OptionArgsCalls(o, k, name, rest, i + 1, cb, 0, s.w.(errno := 0));
    ValuesTaken(o, k, name, args, i, cb, s.w, n);
    ValueCallsSkipPositionals(k, name, rest, i + 1, s.w.log, 0, n);
    if v.err.kind.ParseArg? {
      ValueCallsAt(k, name, rest, i + 1, 0, n, n - 1);
      assert LastCall(v.w.log) == ValueCalls(k, name, rest, i + 1, 0, n)[n - 1];
    }
  }

  /** The tokens an option's parser was given (the values taken, and the
      failing one if any) have no `-` prefix and stay below the maximum. */
  lemma ValuesTaken(o: ArgOption, k: nat, name: string, args: seq<string>, i: nat, cb: Callback, w: World, n: nat)
    requires ValidArgsNum(o.numArgs) && CanInvoke(Resolve(o.parser, ArgParseStr), true, o.hasDest, true) && i < |args|
    requires var v := OptionArgsOf(o, k, name, args[i + 1..], i + 1, cb, w);
      n == if v.err.kind.ParseArg? then v.count + 1 else v.count
    ensures i + 1 + n <= |args|
    ensures forall q :: i < q <= i + n ==> !StartsWith(args[q], "-")
    ensures forall m :: 0 <= m < n ==> !OverOrEqMax(o.numArgs, m)
  {
    var rest := args[i + 1..];
    forall q | i < q <= i + n ensures !StartsWith(args[q], "-") {
      assert args[q] == rest[q - i - 1];
    }
  }

  /** The log grown by `n` value calls of option `k` on the tokens after
      `i`, which have no `-` prefix and stay below the maximum. */
  lemma ValuesFit(spec: ArgSpec, args: seq<string>, i: nat, k: nat, name: string, log: seq<Call>, count: nat, n: nat)
    requires ValidSpec(spec) && i < |args| && LogFits(spec, args, log, i) && Covered(spec, args, log, i)
    requires TokenOption(spec, args[i]) == Some(k) && TokenName(args[i]) == name
    requires count <= n && i + 1 + n <= |args|
    requires forall q :: i < q <= i + n ==> !StartsWith(args[q], "-")
    requires forall m :: 0 <= m < n ==> !OverOrEqMax(spec.options[k].numArgs, m)
    ensures var l := log + ValueCalls(k, name, args[i + 1..], i + 1, 0, n);
      && LogFits(spec, args, l, i + 1 + n)
      && Covered(spec, args, l, i + 1 + count)
      && AfterEnd(spec, args, l, i)
  {
    var l := log + ValueCalls(k, name, args[i + 1..], i + 1, 0, n);
    ValuesAt(spec, args, i, k, name, log, n, l);
    forall j | 0 <= j < |log| ensures l[j] == log[j] {
    }
    ValuesCovered(args, i, log, l, count, n, spec);
  }

  /** Each value call in the grown log is on its token, and fits the scan. */
  lemma ValuesAt(spec: ArgSpec, args: seq<string>, i: nat, k: nat, name: string, log: seq<Call>, n: nat, l: seq<Call>)
    requires ValidSpec(spec) && i < |args|
    requires TokenOption(spec, args[i]) == Some(k) && TokenName(args[i]) == name
    requires i + 1 + n <= |args|
    requires forall q :: i < q <= i + n ==> !StartsWith(args[q], "-")
    requires forall m :: 0 <= m < n ==> !OverOrEqMax(spec.options[k].numArgs, m)
    requires l == log + ValueCalls(k, name, args[i + 1..], i + 1, 0, n)
    ensures forall j | |log| <= j < |l| ::
      l[j] == Call(OptionAt(k), name, Some(args[j - |log| + i + 1]), j - |log| + i + 1) && CallFits(spec, args, l[j])
  {
    var rest := args[i + 1..];
    forall j | |log| <= j < |l|
      ensures l[j] == Call(OptionAt(k), name, Some(args[j - |log| + i + 1]), j - |log| + i + 1)
      ensures CallFits(spec, args, l[j])
    {
      var m := j - |log|;
      ValueCallsAt(k, name, rest, i + 1, 0, n, m);
      assert rest[m] == args[i + 1 + m];
      assert ValueOf(spec, args, i, i + 1 + m, k, name);
    }
  }

  /** The grown log covers the option's values up to `count`. */
  lemma ValuesCovered(args: seq<string>, i: nat, log: seq<Call>, l: seq<Call>, count: nat, n: nat, spec: ArgSpec)
    requires i < |args| && TokenOption(spec, args[i]).Some?
    requires count <= n && |l| == |log| + n && Covered(spec, args, log, i)
    requires forall j | 0 <= j < |log| :: l[j] == log[j]
    requires forall j | |log| <= j < |l| :: l[j].pos == j - |log| + i + 1
    ensures Covered(spec, args, l, i + 1 + count)
  {
    forall t | 0 <= t < i + 1 + count && t < |args| ensures t in Positions(l) || TokenOption(spec, args[t]).Some? {
      if t < i {
        if t in Positions(log) {
          var j :| 0 <= j < |log| && log[j].pos == t;
          assert l[j].pos == t;
        }
      } else if t > i {
        assert l[|log| + (t - i - 1)].pos == t;
      }
    }
  }

  /** An option's calls leave the positional indices alone. */
  lemma {:induction false} ValueCallsSkipPositionals(k: nat, name: string, rest: seq<string>, base: nat,
                                                     log: seq<Call>, j: nat, n: nat)
    requires j <= n <= |rest|
    ensures PositionalIndices(log + ValueCalls(k, name, rest, base, j, n)) == PositionalIndices(log)
    decreases n - j
  {
    if j < n {
      var c := Call(OptionAt(k), name, Some(rest[j]), base + j);
      PositionalIndicesAppend(log, c);
      assert PositionalIndices(log + [c]) == PositionalIndices(log) + [];
      assert PositionalIndices(log) + [] == PositionalIndices(log);
      ValueCallsSkipPositionals(k, name, rest, base, log + [c], j + 1, n);
      assert ValueCalls(k, name, rest, base, j, n) == [c] + ValueCalls(k, name, rest, base, j + 1, n);
      assert log + ([c] + ValueCalls(k, name, rest, base, j + 1, n)) == (log + [c]) + ValueCalls(k, name, rest, base, j + 1, n);
    } else {
      assert log + ValueCalls(k, name, rest, base, j, n) == log;
    }
  }

  // ---------------------------------------------------------------------
  // Which branch a token takes
  // ---------------------------------------------------------------------

  lemma StepFlag(spec: ArgSpec, cb: Callback, args: seq<string>, i: nat, s: ScanState)
    requires ValidSpec(spec) && i < |args| && s.npos <= |spec.positionals| && TokenFlag(spec, args[i]).Some?
    ensures Step(spec, cb, args, i, s)
         == FlagStep(spec, cb, TokenFlag(spec, args[i]).value, TokenName(args[i]), args[i], i, s)
  {
  }

  lemma StepOption(spec: ArgSpec, cb: Callback, args: seq<string>, i: nat, s: ScanState)
    requires ValidSpec(spec) && i < |args| && s.npos <= |spec.positionals| && TokenOption(spec, args[i]).Some?
    ensures Step(spec, cb, args, i, s)
         == OptionStep(spec, cb, args, TokenOption(spec, args[i]).value, TokenName(args[i]), i, s)
  {
  }

  // ---------------------------------------------------------------------
  // One iteration
  // ---------------------------------------------------------------------

  /** A flag's token (arg-parse.c:228-243 and 256-272): the flag's parser is
      called with no value, under the token's name; the scan returns
      `PARSE_ARG` with the token when `errno` is then set, returns with no
      error at a stop flag, and otherwise goes on at the next token. */
  lemma FlagOk(spec: ArgSpec, cb: Callback, args: seq<string>, i: nat, s: ScanState)
    requires ValidSpec(spec) && i < |args| && Inv(spec, args, i, s) && TokenFlag(spec, args[i]).Some?
    ensures var k := TokenFlag(spec, args[i]).value;
      var r := Step(spec, cb, args, i, s);
      && r.st.w.log == s.w.log + [Call(FlagAt(k), TokenName(args[i]), None, i)]
      && r.st.npos == s.npos
      && (r.Return? <==> r.st.w.errno != 0 || spec.flags[k].stop)
      && (r.st.w.errno != 0 ==> r.st.err == ArgsError(ParseArg, r.st.w.errno, args[i]))
      && (r.st.w.errno == 0 ==> r.st.err == NoErr)
      && (r.Continue? ==> r.next == i + 1)
      && NextOk(spec, args, i, r)
  {
    var k := TokenFlag(spec, args[i]).value;
    var f := spec.flags[k];
    var c := Call(FlagAt(k), TokenName(args[i]), None, i);
    var w := Invoke(Resolve(f.parser, ArgSetTrue), cb, FlagAt(k), TokenName(args[i]), None, f.hasDest, i, s.w);
    StepFlag(spec, cb, args, i, s);
    AppendFits(spec, args, i, s.w.log, c);
    PositionalIndicesAppend(s.w.log, c);
    if w.errno != 0 {
      FlagReturnFinal(spec, args, i, s, s.(w := w, err := ArgsError(ParseArg, w.errno, args[i])));
    } else if f.stop {
      FlagReturnFinal(spec, args, i, s, s.(w := w));
    } else {
      assert !StopToken(spec, args[i]);
    }
  }

  /** A flag's call on token `i` that ends the scan, with `PARSE_ARG` when
      `errno` is set and at a stop flag otherwise, leaves a final state. */
  lemma FlagReturnFinal(spec: ArgSpec, args: seq<string>, i: nat, s: ScanState, r: ScanState)
    requires i < |args| && Inv(spec, args, i, s) && TokenFlag(spec, args[i]).Some?
    requires r == s.(w := r.w, err := r.err)
    requires r.w.log == s.w.log + [Call(FlagAt(TokenFlag(spec, args[i]).value), TokenName(args[i]), None, i)]
    requires r.w.errno != 0 ==> r.err == ArgsError(ParseArg, r.w.errno, args[i])
    requires r.w.errno == 0 ==> r.err == NoErr && StopToken(spec, args[i])
    ensures Final(spec, args, i, r)
  {
    var c := Call(FlagAt(TokenFlag(spec, args[i]).value), TokenName(args[i]), None, i);
    AppendFits(spec, args, i, s.w.log, c);
    LogFitsWiden(spec, args, r.w.log, i + 1, |args|);
    PositionalIndicesAppend(s.w.log, c);
    assert LastCall(r.w.log) == c;
  }

  /** An option's token (arg-parse.c:244-253 and 273-282): the option takes
      its values as `parse_option_args` reads them from the tokens after it,
      under the token's name; any error it reports ends the scan, so does a
      stop option, and otherwise the scan goes on after the last value. */
  lemma OptionStepOk(spec: ArgSpec, cb: Callback, args: seq<string>, i: nat, k: nat, name: string, s: ScanState)
    requires ValidSpec(spec) && i < |args| && Inv(spec, args, i, s)
    requires TokenOption(spec, args[i]) == Some(k) && TokenName(args[i]) == name
    ensures var o := spec.options[k];
      var v := OptionArgsOf(o, k, name, args[i + 1..], i + 1, cb, s.w);
      var r := OptionStep(spec, cb, args, k, name, i, s);
      && v.w.log == s.w.log + ValueCalls(k, name, args[i + 1..], i + 1, 0,
                                         if v.err.kind.ParseArg? then v.count + 1 else v.count)
      && r.st == s.(w := v.w, err := v.err)
      && (r.Return? <==> !v.err.kind.NoError? || o.stop)
      && (r.Continue? ==> r.next == i + 1 + v.count)
      && NextOk(spec, args, i, r)
  {
    var o := spec.options[k];
    var v := OptionArgsOf(o, k, name, args[i + 1..], i + 1, cb, s.w);
    var n := if v.err.kind.ParseArg? then v.count + 1 else v.count;
    OptionValuesFit(spec, cb, args, i, k, name, s, v, n);
    var r := s.(w := v.w, err := v.err);
    if !v.err.kind.NoError? || o.stop {
      assert OptionStep(spec, cb, args, k, name, i, s) == Return(r);
      OptionReturnNext(spec, cb, args, i, k, name, s, v);
    } else {
      assert OptionStep(spec, cb, args, k, name, i, s) == Continue(r, i + 1 + v.count);
      OptionContinueNext(spec, cb, args, i, k, name, s, v);
    }
  }

  /** An option whose values failed, or that stops the scan, leaves a final
      state. */
  lemma OptionReturnNext(spec: ArgSpec, cb: Callback, args: seq<string>, i: nat, k: nat, name: string, s: ScanState,
                         v: OptionArgs)
    requires ValidSpec(spec) && i < |args| && Inv(spec, args, i, s)
    requires TokenOption(spec, args[i]) == Some(k) && TokenName(args[i]) == name
    requires v == OptionArgsOf(spec.options[k], k, name, args[i + 1..], i + 1, cb, s.w)
    requires !v.err.kind.NoError? || spec.options[k].stop
    ensures Final(spec, args, i, s.(w := v.w, err := v.err))
  {
    var n := if v.err.kind.ParseArg? then v.count + 1 else v.count;
    OptionValuesFit(spec, cb, args, i, k, name, s, v, n);
    ValuesFit(spec, args, i, k, name, s.w.log, v.count, n);
    LogFitsWiden(spec, args, v.w.log, i + 1 + n, |args|);
    OptionReturnFinal(spec, args, i, s, s.(w := v.w, err := v.err), v.count);
  }

  /** An option that took its values without error and does not stop keeps
      the invariant at the token after its last value. */
  lemma OptionContinueNext(spec: ArgSpec, cb: Callback, args: seq<string>, i: nat, k: nat, name: string, s: ScanState,
                           v: OptionArgs)
    requires ValidSpec(spec) && i < |args| && Inv(spec, args, i, s)
    requires TokenOption(spec, args[i]) == Some(k) && TokenName(args[i]) == name
    requires v == OptionArgsOf(spec.options[k], k, name, args[i + 1..], i + 1, cb, s.w)
    requires v.err.kind.NoError? && !spec.options[k].stop
    ensures i + 1 + v.count <= |args| && Inv(spec, args, i + 1 + v.count, s.(w := v.w, err := v.err))
  {
    OptionValuesFit(spec, cb, args, i, k, name, s, v, v.count);
    ValuesFit(spec, args, i, k, name, s.w.log, v.count, v.count);
    OptionKept(spec, args, i, v.count, s.(w := v.w, err := v.err));
  }

  /** An option that ends the scan at token `i`, with the error its values
      reported or at a stop option, leaves a final state. */
  lemma OptionReturnFinal(spec: ArgSpec, args: seq<string>, i: nat, s: ScanState, r: ScanState, count: nat)
    requires i < |args| && Inv(spec, args, i, s) && TokenOption(spec, args[i]).Some?
    requires r.npos == s.npos && LogFits(spec, args, r.w.log, |args|) && Covered(spec, args, r.w.log, i + 1 + count)
    requires AfterEnd(spec, args, r.w.log, i) && PositionalIndices(r.w.log) == PositionalIndices(s.w.log)
    requires r.err.kind.NoError? || r.err.kind.ParseArg? || r.err.kind.MissingOptionArg?
    requires r.err.kind.NoError? ==> r.err == NoErr && StopToken(spec, args[i])
    requires r.err.kind.MissingOptionArg? ==> r.err.str == TokenName(args[i])
    requires r.err.kind.ParseArg? ==> && r.w.log != [] && LastCall(r.w.log).pos < |args|
                                      && r.err.str == args[LastCall(r.w.log).pos] && r.err.error == r.w.errno != 0
    ensures Final(spec, args, i, r)
  {
  }

  /** An option that took its values without error and does not stop keeps
      the state between iterations, at the token after its last value. */
  lemma OptionKept(spec: ArgSpec, args: seq<string>, i: nat, count: nat, r: ScanState)
    requires i < |args| && i + 1 + count <= |args| && Unstopped(spec, args, i)
    requires TokenOption(spec, args[i]).Some? && !spec.options[TokenOption(spec, args[i]).value].stop
    requires forall q :: i < q < i + 1 + count ==> !StartsWith(args[q], "-")
    requires r.npos <= |spec.positionals| && r.err == NoErr
    requires LogFits(spec, args, r.w.log, i + 1 + count) && Covered(spec, args, r.w.log, i + 1 + count)
    requires PositionalIndices(r.w.log) == Range(r.npos)
    ensures Inv(spec, args, i + 1 + count, r)
  {
    forall t | 0 <= t < i + 1 + count && t < |args| ensures !StopToken(spec, args[t]) {
      if t > i {
        PlainToken(spec, args[t]);
      }
    }
  }

  /** A token naming an option goes to that option's step, under the
      token's name without its prefix. */
  lemma OptionOk(spec: ArgSpec, cb: Callback, args: seq<string>, i: nat, s: ScanState)
    requires ValidSpec(spec) && i < |args| && Inv(spec, args, i, s) && TokenOption(spec, args[i]).Some?
    ensures Step(spec, cb, args, i, s)
         == OptionStep(spec, cb, args, TokenOption(spec, args[i]).value, TokenName(args[i]), i, s)
    ensures NextOk(spec, args, i, Step(spec, cb, args, i, s))
  {
    StepOption(spec, cb, args, i, s);
    OptionStepOk(spec, cb, args, i, TokenOption(spec, args[i]).value, TokenName(args[i]), s);
  }

  /** A plain token while positionals remain (arg-parse.c:284-295):
      positional `npos`'s parser gets the token under the positional's
      name; the scan returns `PARSE_ARG` with the token exactly when `errno`
      is then set, and otherwise goes on at the next token with one more
      positional bound. */
  lemma PositionalBindOk(spec: ArgSpec, cb: Callback, args: seq<string>, i: nat, s: ScanState)
    requires ValidSpec(spec) && i < |args| && Inv(spec, args, i, s)
    requires !StartsWith(args[i], "-") && s.npos < |spec.positionals|
    ensures var r := Step(spec, cb, args, i, s);
      && r.st.w.log == s.w.log + [Call(PositionalAt(s.npos), spec.positionals[s.npos].name, Some(args[i]), i)]
      && (r.Return? <==> r.st.w.errno != 0)
      && (r.Return? ==> r.st.err == ArgsError(ParseArg, r.st.w.errno, args[i]) && r.st.npos == s.npos)
      && (r.Continue? ==> r.st.err == NoErr && r.st.npos == s.npos + 1 && r.next == i + 1)
      && NextOk(spec, args, i, r)
  {
    var p := spec.positionals[s.npos];
    var w := Invoke(Resolve(p.parser, ArgParseStr), cb, PositionalAt(s.npos), p.name, Some(args[i]), p.hasDest, i, s.w);
    PlainToken(spec, args[i]);
    assert Step(spec, cb, args, i, s) == PositionalStep(spec, cb, args[i], i, s);
    if w.errno != 0 {
      var r := s.(w := w, err := ArgsError(ParseArg, w.errno, args[i]));
      assert PositionalStep(spec, cb, args[i], i, s) == Return(r);
      PositionalReturnNext(spec, cb, args, i, s, w);
    } else {
      assert PositionalStep(spec, cb, args[i], i, s) == Continue(s.(w := w, npos := s.npos + 1), i + 1);
      PositionalContinueNext(spec, cb, args, i, s, w);
    }
  }

  /** A positional whose parser failed on the token at `i` leaves a final
      state. */
  lemma PositionalReturnNext(spec: ArgSpec, cb: Callback, args: seq<string>, i: nat, s: ScanState, w: World)
    requires ValidSpec(spec) && i < |args| && Inv(spec, args, i, s)
    requires !StartsWith(args[i], "-") && s.npos < |spec.positionals|
    requires w == Invoke(Resolve(spec.positionals[s.npos].parser, ArgParseStr), cb, PositionalAt(s.npos),
                         spec.positionals[s.npos].name, Some(args[i]), spec.positionals[s.npos].hasDest, i, s.w)
    requires w.errno != 0
    ensures Final(spec, args, i, s.(w := w, err := ArgsError(ParseArg, w.errno, args[i])))
  {
    var c := Call(PositionalAt(s.npos), spec.positionals[s.npos].name, Some(args[i]), i);
    PlainToken(spec, args[i]);
    AppendFits(spec, args, i, s.w.log, c);
    PositionalIndicesAppend(s.w.log, c);
    LogFitsWiden(spec, args, w.log, i + 1, |args|);
    assert LastCall(w.log) == c;
  }

  /** A positional whose parser took the token at `i` keeps the invariant at
      the next token, with one more positional bound. */
  lemma PositionalContinueNext(spec: ArgSpec, cb: Callback, args: seq<string>, i: nat, s: ScanState, w: World)
    requires ValidSpec(spec) && i < |args| && Inv(spec, args, i, s)
    requires !StartsWith(args[i], "-") && s.npos < |spec.positionals|
    requires w == Invoke(Resolve(spec.positionals[s.npos].parser, ArgParseStr), cb, PositionalAt(s.npos),
                         spec.positionals[s.npos].name, Some(args[i]), spec.positionals[s.npos].hasDest, i, s.w)
    requires w.errno == 0
    ensures Inv(spec, args, i + 1, s.(w := w, npos := s.npos + 1))
  {
    var c := Call(PositionalAt(s.npos), spec.positionals[s.npos].name, Some(args[i]), i);
    PlainToken(spec, args[i]);
    PositionalIndicesAppend(s.w.log, c);
    InvAfterCall(spec, args, i, s, s.(w := w, npos := s.npos + 1), c);
  }

  /** One more call on the token at `i`, which does not stop the scan, keeps
      the invariant at the next token. */
  lemma InvAfterCall(spec: ArgSpec, args: seq<string>, i: nat, s: ScanState, t: ScanState, c: Call)
    requires i < |args| && Inv(spec, args, i, s) && !StopToken(spec, args[i])
    requires c.pos == i && CallFits(spec, args, c) && t.w.log == s.w.log + [c]
    requires t.npos <= |spec.positionals| && t.err == NoErr && PositionalIndices(t.w.log) == Range(t.npos)
    ensures Inv(spec, args, i + 1, t)
  {
    AppendFits(spec, args, i, s.w.log, c);
  }

  /** A plain token after every positional is bound (arg-parse.c:297-301):
      the scan returns `UNKNOWN_ARG` naming it, with nothing else changed. */
  lemma PositionalUnknownOk(spec: ArgSpec, cb: Callback, args: seq<string>, i: nat, s: ScanState)
    requires ValidSpec(spec) && i < |args| && Inv(spec, args, i, s)
    requires !StartsWith(args[i], "-") && s.npos == |spec.positionals|
    ensures Step(spec, cb, args, i, s) == Return(s.(err := ArgsError(UnknownArg, 0, args[i])))
    ensures NextOk(spec, args, i, Step(spec, cb, args, i, s))
  {
    PlainToken(spec, args[i]);
    assert Step(spec, cb, args, i, s) == PositionalStep(spec, cb, args[i], i, s);
    UnknownFinal(spec, args, i, s);
  }

  /** A token with a `-` prefix that names no flag or option
      (arg-parse.c:297-301): the scan returns `UNKNOWN_ARG` naming it, even
      while positionals remain. */
  lemma UnknownOk(spec: ArgSpec, cb: Callback, args: seq<string>, i: nat, s: ScanState)
    requires ValidSpec(spec) && i < |args| && Inv(spec, args, i, s)
    requires StartsWith(args[i], "-") && TokenFlag(spec, args[i]).None? && TokenOption(spec, args[i]).None?
    ensures Step(spec, cb, args, i, s) == Return(s.(err := ArgsError(UnknownArg, 0, args[i])))
    ensures NextOk(spec, args, i, Step(spec, cb, args, i, s))
  {
    UnknownFinal(spec, args, i, s);
  }

  /** Reporting token `i` as unknown leaves a final state. */
  lemma UnknownFinal(spec: ArgSpec, args: seq<string>, i: nat, s: ScanState)
    requires i < |args| && Inv(spec, args, i, s)
    requires TokenFlag(spec, args[i]).None? && TokenOption(spec, args[i]).None?
    requires !StartsWith(args[i], "-") ==> s.npos == |spec.positionals|
    ensures Final(spec, args, i, s.(err := ArgsError(UnknownArg, 0, args[i])))
  {
    LogFitsWiden(spec, args, s.w.log, i, |args|);
  }

  lemma PlainOk(spec: ArgSpec, cb: Callback, args: seq<string>, i: nat, s: ScanState)
    requires ValidSpec(spec) && i < |args| && Inv(spec, args, i, s) && !StartsWith(args[i], "-")
    ensures NextOk(spec, args, i, Step(spec, cb, args, i, s))
  {
    if s.npos < |spec.positionals| {
      PositionalBindOk(spec, cb, args, i, s);
    } else {
      PositionalUnknownOk(spec, cb, args, i, s);
    }
  }

  /** One iteration keeps the state between iterations, or returns with a
      final state that ended at this token. */
  lemma StepOk(spec: ArgSpec, cb: Callback, args: seq<string>, i: nat, s: ScanState)
    requires ValidSpec(spec) && i < |args| && Inv(spec, args, i, s)
    ensures NextOk(spec, args, i, Step(spec, cb, args, i, s))
  {
    if TokenFlag(spec, args[i]).Some? {
      FlagOk(spec, cb, args, i, s);
    } else if TokenOption(spec, args[i]).Some? {
      OptionOk(spec, cb, args, i, s);
    } else if StartsWith(args[i], "-") {
      UnknownOk(spec, cb, args, i, s);
    } else {
      PlainOk(spec, cb, args, i, s);
    }
  }

  /** The check after the last token (arg-parse.c:303-306): the first
      positional left unbound is `MISSING_ARG`, and otherwise the scan
      reports no error. */
  lemma FinishOk(spec: ArgSpec, args: seq<string>, s: ScanState)
    requires Inv(spec, args, |args|, s)
    ensures var r := Finish(spec, s);
      && r.w == s.w && r.npos == s.npos
      && (s.npos < |spec.positionals| ==> r.err == ArgsError(MissingArg, 0, spec.positionals[s.npos].name))
      && (s.npos == |spec.positionals| ==> r.err == NoErr)
      && Final(spec, args, |args|, r)
  {
  }

  // ---------------------------------------------------------------------
  // The whole scan
  // ---------------------------------------------------------------------

  lemma {:induction false} RunFromOk(spec: ArgSpec, cb: Callback, args: seq<string>, i: nat, s: ScanState)
    requires ValidSpec(spec) && i <= |args| && Inv(spec, args, i, s)
    ensures Final(spec, args, ScanEnd(spec, cb, args, i, s), RunFrom(spec, cb, args, i, s))
    decreases |args| - i
  {
    if i == |args| {
      FinishOk(spec, args, s);
    } else {
      StepOk(spec, cb, args, i, s);
      RunFromStep(spec, cb, args, i, s);
      match Step(spec, cb, args, i, s)
      case Return(t) =>
      case Continue(t, j) =>
        RunFromOk(spec, cb, args, j, t);
    }
  }

  /** The main theorem about `arg_parse_array`: the scan ends at some token
      `e`, or past the last one; every parser call fits the token it was
      given (and is the only call on that token), the calls follow the
      tokens in order, every token before `e` got its call or named an
      option, no token before `e` stops the scan, the positionals called
      are the first `npos`, once each and in declaration order, and the
      error reported means what its kind says about the token at `e`. */
  lemma RunOutcome(spec: ArgSpec, cb: Callback, args: seq<string>, errno0: int, dest0: map<Entity, Value>)
    requires ValidSpec(spec)
    ensures Final(spec, args, ScanEnd(spec, cb, args, 0, Init(errno0, dest0)), Run(spec, cb, args, errno0, dest0))
  {
    RunFromOk(spec, cb, args, 0, Init(errno0, dest0));
  }

  /** Every token the scan passed got its call: a flag's token its flag's
      call, with no value, and a plain token a positional's or an option's
      call with the token as its value. */
  lemma ScannedTokensCalled(spec: ArgSpec, args: seq<string>, e: nat, r: ScanState, t: nat)
    requires Final(spec, args, e, r) && t < e
    ensures TokenFlag(spec, args[t]).Some? ==>
      exists j :: 0 <= j < |r.w.log|
                  && r.w.log[j] == Call(FlagAt(TokenFlag(spec, args[t]).value), TokenName(args[t]), None, t)
    ensures !StartsWith(args[t], "-") ==>
      exists j :: 0 <= j < |r.w.log| && r.w.log[j].pos == t && r.w.log[j].arg == Some(args[t])
                  && !r.w.log[j].entity.FlagAt?
  {
    if TokenOption(spec, args[t]).None? {
      assert t in Positions(r.w.log);
      var j :| 0 <= j < |r.w.log| && r.w.log[j].pos == t;
      assert CallFits(spec, args, r.w.log[j]);
    }
  }

  // ---------------------------------------------------------------------
  // Plain tokens bind positionals in order
  // ---------------------------------------------------------------------

  /** Positionals that store their token as a string. */
  predicate StringPositionals(spec: ArgSpec) {
    forall k :: 0 <= k < |spec.positionals| ==>
      Resolve(spec.positionals[k].parser, ArgParseStr) == ArgParseStr && spec.positionals[k].hasDest
  }

  /** No token has a `-` prefix. */
  predicate AllPlain(args: seq<string>) {
    forall j :: 0 <= j < |args| ==> !StartsWith(args[j], "-")
  }

  /** The calls that bind token `k` to positional `k`, for `k < n`. */
  function PlainLog(spec: ArgSpec, args: seq<string>, n: nat): (log: seq<Call>)
    requires n <= |args| && n <= |spec.positionals|
    ensures |log| == n
  {
    seq(n, k requires 0 <= k < n => Call(PositionalAt(k), spec.positionals[k].name, Some(args[k]), k))
  }

  /** The scan state after `i` plain tokens. */
  predicate PlainState(spec: ArgSpec, args: seq<string>, i: nat, s: ScanState)
    requires i <= |args| <= |spec.positionals|
  {
    && s.err == NoErr && s.w.errno == 0 && s.npos == i
    && s.w.log == PlainLog(spec, args, i)
    && (forall k :: 0 <= k < i ==> PositionalAt(k) in s.w.dest && s.w.dest[PositionalAt(k)] == StrValue(args[k]))
  }

  lemma PlainStep(spec: ArgSpec, cb: Callback, args: seq<string>, i: nat, s: ScanState)
    requires ValidSpec(spec) && StringPositionals(spec) && AllPlain(args)
    requires i < |args| <= |spec.positionals| && PlainState(spec, args, i, s)
    ensures Step(spec, cb, args, i, s).Continue? && Step(spec, cb, args, i, s).next == i + 1
    ensures PlainState(spec, args, i + 1, Step(spec, cb, args, i, s).st)
  {
    var p := spec.positionals[i];
    assert Resolve(p.parser, ArgParseStr) == ArgParseStr && p.hasDest;
    assert !StartsWith(args[i], "-");
    PlainToken(spec, args[i]);
    var w := Invoke(ArgParseStr, cb, PositionalAt(i), p.name, Some(args[i]), true, i, s.w);
    assert Step(spec, cb, args, i, s) == Continue(s.(w := w, npos := i + 1), i + 1);
    assert PlainLog(spec, args, i) + [Call(PositionalAt(i), p.name, Some(args[i]), i)] == PlainLog(spec, args, i + 1);
  }

  lemma {:induction false} PlainRunFrom(spec: ArgSpec, cb: Callback, args: seq<string>, i: nat, s: ScanState)
    requires ValidSpec(spec) && StringPositionals(spec) && AllPlain(args)
    requires i <= |args| <= |spec.positionals| && PlainState(spec, args, i, s)
    ensures var r := RunFrom(spec, cb, args, i, s);
      && r.w.log == PlainLog(spec, args, |args|)
      && r.err == (if |args| == |spec.positionals| then NoErr
                   else ArgsError(MissingArg, 0, spec.positionals[|args|].name))
      && forall k :: 0 <= k < |args| ==> PositionalAt(k) in r.w.dest && r.w.dest[PositionalAt(k)] == StrValue(args[k])
    decreases |args| - i
  {
    if i < |args| {
      PlainStep(spec, cb, args, i, s);
      RunFromStep(spec, cb, args, i, s);
      PlainRunFrom(spec, cb, args, i + 1, Step(spec, cb, args, i, s).st);
    }
  }

  /** With `errno` clear, tokens without a `-` prefix are bound to
      positionals that store strings one by one, in order: token `k` is
      stored into positional `k`'s destination and no other parser is
      called; the scan reports no error when every positional got a token,
      empty input with no positionals included, and otherwise
      `MISSING_ARG` for the first positional left over. */
  lemma PlainTokensBindInOrder(spec: ArgSpec, cb: Callback, args: seq<string>, dest0: map<Entity, Value>)
    requires ValidSpec(spec) && StringPositionals(spec) && AllPlain(args)
    requires |args| <= |spec.positionals|
    ensures var r := Run(spec, cb, args, 0, dest0);
      && r.w.log == PlainLog(spec, args, |args|)
      && r.err == (if |args| == |spec.positionals| then NoErr
                   else ArgsError(MissingArg, 0, spec.positionals[|args|].name))
      && forall k :: 0 <= k < |args| ==> PositionalAt(k) in r.w.dest && r.w.dest[PositionalAt(k)] == StrValue(args[k])
  {
    PlainRunFrom(spec, cb, args, 0, Init(0, dest0));
  }
}
