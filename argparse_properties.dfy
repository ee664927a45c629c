/** What the scan of argparse.c guarantees, proved about `Argparse.Run`:
    which parser saw which token and in what order, how many values each
    option and positional took, which tokens the scan reached, where a stop
    flag ends it, and what each error kind it reports says about the input. */
module ArgparseProperties {
  import opened ArgsDef
  import opened Argparse

  // ---------------------------------------------------------------------
  // How a token is read
  // ---------------------------------------------------------------------

  /** No flag and no option accepts the token. */
  predicate NamesNothing(spec: ArgsSpec, t: string) {
    FindFlag(spec.flags, t).None? && FindOption(spec.options, t).None?
  }

  /** The token opens an option: no flag accepts it, but an option does. */
  predicate NamesOption(spec: ArgsSpec, t: string) {
    FindFlag(spec.flags, t).None? && FindOption(spec.options, t).Some?
  }

  /** The token is taken by a flag whose `stop` bit is set. */
  predicate StopFlag(spec: ArgsSpec, t: string) {
    FindFlag(spec.flags, t).Some? && spec.flags[FindFlag(spec.flags, t).value].stop
  }

  /** The position of the last token before `p` that a flag or an option
      accepts, if there is one. */
  function LastNamed(spec: ArgsSpec, args: seq<string>, p: nat): (r: Option<nat>)
    requires p <= |args|
    ensures r.Some? ==> r.value < p && !NamesNothing(spec, args[r.value])
    ensures r.Some? ==> forall q :: r.value < q < p ==> NamesNothing(spec, args[q])
    ensures r.None? ==> forall q :: 0 <= q < p ==> NamesNothing(spec, args[q])
  {
    if p == 0 then None
    else if NamesNothing(spec, args[p - 1]) then LastNamed(spec, args, p - 1)
    else Some(p - 1)
  }

  /** Can an entity end up with `c` values, when it takes a value only while
      its maximum is not reached? The first value is always taken, so this
      allows no more than the maximum, reading `NONE` as one. */
  function ValuesAllowed(n: ArgsNum, c: nat): (r: bool)
    ensures ValidArgsNum(n) ==>
      (r <==> MaxBound(n).Unbounded? || c <= MaxBound(n).k || c <= 1)
  {
    c <= 1 || (n.max >= INFINITE && !OverOrEqMax(n, c - 1))
  }

  // ---------------------------------------------------------------------
  // The shape of a scan
  // ---------------------------------------------------------------------

  /** The token at `p` is a value of option `k` opened by `name`: the last
      token before `p` that a flag or an option accepts is `name`, option
      `k` is the first option to accept it and no flag does, and `p` is
      within the option's maximum counted from it. */
  predicate OpenedBy(spec: ArgsSpec, args: seq<string>, p: nat, k: nat, name: string)
    requires p <= |args|
  {
    && k < |spec.options| && ValidArgsNum(spec.options[k].numArgs)
    && LastNamed(spec, args, p).Some?
    && args[LastNamed(spec, args, p).value] == name
    && FindFlag(spec.flags, name).None? && FindOption(spec.options, name) == Some(k)
    && ValuesAllowed(spec.options[k].numArgs, p - LastNamed(spec, args, p).value)
  }

  /** The option opened last still claims the token at `p`: the last token
      before `p` that a flag or an option accepts opens an option, and `p`
      is within that option's maximum counted from it. The scan keeps an
      option for the next token while it is under its maximum. */
  predicate OptionClaims(spec: ArgsSpec, args: seq<string>, p: nat) {
    && p <= |args|
    && LastNamed(spec, args, p).Some?
    && NamesOption(spec, args[LastNamed(spec, args, p).value])
    && ValuesAllowed(spec.options[FindOption(spec.options, args[LastNamed(spec, args, p).value]).value].numArgs,
                     p - LastNamed(spec, args, p).value)
  }

  /** The positional that took the token before `p` still claims the token
      at `p`: it holds fewer values than its maximum. */
  predicate PositionalClaims(spec: ArgsSpec, log: seq<Call>, p: nat) {
    && log != [] && LastCall(log).pos + 1 == p && LastCall(log).entity.PositionalAt?
    && LastCall(log).entity.index < |spec.positionals|
    && ValidArgsNum(spec.positionals[LastCall(log).entity.index].numArgs)
    && !OverOrEqMax(spec.positionals[LastCall(log).entity.index].numArgs,
                    multiset(PositionalIndices(log))[LastCall(log).entity.index])
  }

  /** A positional keeps taking tokens while it has room: when two
      consecutive tokens went to positionals, the second went to the same
      positional exactly when that one still claimed it. */
  predicate PositionalRuns(spec: ArgsSpec, log: seq<Call>) {
    forall j :: 0 < j < |log| && log[j].entity.PositionalAt? && log[j - 1].entity.PositionalAt?
                && log[j - 1].pos + 1 == log[j].pos
      ==> (log[j].entity == log[j - 1].entity <==> PositionalClaims(spec, log[..j], log[j].pos))
  }

  /** A logged call fits the scan of `args`: a flag's parser got the token
      itself, which that flag is the first to accept; an option's parser got
      a token that no flag or option accepts, as one of the values after the
      token that opened the option; a positional's parser got such a token,
      which no open option claims, under the positional's own name. */
  predicate CallFits(spec: ArgsSpec, args: seq<string>, c: Call) {
    && c.pos < |args|
    && match c.entity
       case FlagAt(k) =>
         c.name == args[c.pos] && c.arg.None? && FindFlag(spec.flags, args[c.pos]) == Some(k)
       case OptionAt(k) =>
         && c.arg == Some(args[c.pos]) && NamesNothing(spec, args[c.pos])
         && OpenedBy(spec, args, c.pos, k, c.name)
       case PositionalAt(k) =>
         && c.arg == Some(args[c.pos]) && NamesNothing(spec, args[c.pos]) && !OptionClaims(spec, args, c.pos)
         && k < |spec.positionals| && c.name == spec.positionals[k].name
  }

  /** Every call of the log fits, took a token before position `i`, and the
      calls follow the order of the tokens, at most one call per token. */
  predicate LogFits(spec: ArgsSpec, args: seq<string>, log: seq<Call>, i: nat) {
    && PositionsIncreasing(log)
    && forall j :: 0 <= j < |log| ==> log[j].pos < i && CallFits(spec, args, log[j])
  }

  /** Every token before position `i` was given to a parser, except the
      tokens that opened an option. */
  predicate Covered(spec: ArgsSpec, args: seq<string>, log: seq<Call>, i: nat) {
    forall t :: 0 <= t < i && t < |args| ==> t in Positions(log) || NamesOption(spec, args[t])
  }

  /** Positionals are bound in declaration order, one index at a time: the
      indices start at 0 and each is the previous one or the next. */
  predicate Staircase(s: seq<nat>) {
    && (|s| > 0 ==> s[0] == 0)
    && forall j :: 0 < j < |s| ==> s[j] == s[j - 1] || s[j] == s[j - 1] + 1
  }

  function Last(s: seq<nat>): (x: nat)
    requires s != []
  {
    s[|s| - 1]
  }

  function LastCall(log: seq<Call>): (c: Call)
    requires log != []
  {
    log[|log| - 1]
  }

  /** Every positional before index `n` got at least one token. */
  predicate AllBound(pi: seq<nat>, n: nat) {
    forall k :: 0 <= k < n ==> k in pi
  }

  /** No positional got more values than its maximum allows. */
  predicate Counted(spec: ArgsSpec, pi: seq<nat>) {
    forall k :: 0 <= k < |spec.positionals| ==> ValuesAllowed(spec.positionals[k].numArgs, multiset(pi)[k])
  }

  /** A call of a flag whose `stop` bit is set. */
  predicate IsStopCall(spec: ArgsSpec, c: Call) {
    c.entity.FlagAt? && c.entity.index < |spec.flags| && spec.flags[c.entity.index].stop
  }

  predicate NoStopCall(spec: ArgsSpec, log: seq<Call>) {
    forall j :: 0 <= j < |log| ==> !IsStopCall(spec, log[j])
  }

  /** A staircase holds every index up to its last one. */
  lemma {:induction false} StaircaseCovers(s: seq<nat>)
    requires Staircase(s) && s != []
    ensures AllBound(s, Last(s) + 1)
  {
    if |s| > 1 {
      var p := s[..|s| - 1];
      assert Staircase(p) by {
        forall j | 0 < j < |p| ensures p[j] == p[j - 1] || p[j] == p[j - 1] + 1 {
          assert p[j] == s[j] && p[j - 1] == s[j - 1];
        }
      }
      StaircaseCovers(p);
      forall k | 0 <= k <= Last(s) ensures k in s {
        if k <= Last(p) {
          assert k in p;
        } else {
          assert k == Last(s);
        }
      }
    }
  }

  /** A staircase holds no index above its last one. */
  lemma {:induction false} StaircaseMax(s: seq<nat>)
    requires Staircase(s) && s != []
    ensures forall j :: 0 <= j < |s| ==> s[j] <= Last(s)
  {
    if |s| > 1 {
      var p := s[..|s| - 1];
      assert Staircase(p) by {
        forall j | 0 < j < |p| ensures p[j] == p[j - 1] || p[j] == p[j - 1] + 1 {
          assert p[j] == s[j] && p[j - 1] == s[j - 1];
        }
      }
      StaircaseMax(p);
      forall j | 0 <= j < |s| ensures s[j] <= Last(s) {
        if j < |p| {
          assert s[j] == p[j] <= Last(p) == s[|s| - 2];
        }
      }
    }
  }

  // ---------------------------------------------------------------------
  // The state between tokens
  // ---------------------------------------------------------------------

  /** The positional counters agree with the log: the log's positional
      indices form a staircase ending at the open positional, or at the last
      bound one when none is open. */
  predicate PositionalsTracked(s: ScanState) {
    var pi := PositionalIndices(s.w.log);
    && Staircase(pi)
    && if s.positional.Some? then pi != [] && Last(pi) == s.numPositionals
       else if s.numPositionals == 0 then pi == []
       else pi != [] && Last(pi) == s.numPositionals - 1
  }

  /** The value counters agree with the log: no positional holds more values
      than it may, the open one holds `positionalArgCount`, and a closed one
      leaves the counter at zero. */
  predicate PositionalsCounted(spec: ArgsSpec, s: ScanState) {
    var pi := PositionalIndices(s.w.log);
    && Counted(spec, pi)
    && (s.positional.Some? ==> multiset(pi)[s.numPositionals] == s.positionalArgCount)
    && (s.positional.None? ==> s.positionalArgCount == 0)
  }

  /** The open option is the first one that accepts a token of `args` that
      no flag accepts. */
  predicate OptionNamed(spec: ArgsSpec, args: seq<string>, s: ScanState) {
    s.option.Some? ==>
      && FindOption(spec.options, s.optionName) == s.option
      && FindFlag(spec.flags, s.optionName).None?
      && s.optionName in args
  }

  /** The open option took its `optionArgCount` values from the tokens just
      before `i`, right after the token that opened it, and its maximum is
      not reached unless it has no value yet. */
  predicate OpenRun(spec: ArgsSpec, args: seq<string>, i: nat, s: ScanState) {
    && s.option.Some? && s.option.value < |spec.options|
    && ValidArgsNum(spec.options[s.option.value].numArgs)
    && s.optionArgCount < i <= |args|
    && LastNamed(spec, args, i) == Some(i - 1 - s.optionArgCount)
    && args[i - 1 - s.optionArgCount] == s.optionName
    && (s.optionArgCount == 0 || !OverOrEqMax(spec.options[s.option.value].numArgs, s.optionArgCount))
  }

  /** While the scan goes on, `*err` is `NONE`, or `PARSE_ARG` from a
      failed option value. */
  predicate ContinueErr(s: ScanState) {
    s.err == NoErr || (s.err.kind.ParseArg? && s.err.error != 0)
  }

  /** `PARSE_ARG` names the token of the last parser call, and carries the
      current `errno`. */
  predicate ErrTracked(args: seq<string>, s: ScanState) {
    s.err.kind.ParseArg? ==>
      && s.w.log != [] && LastCall(s.w.log).pos < |args|
      && s.err.str == args[LastCall(s.w.log).pos] && s.err.error == s.w.errno
  }

  /** What holds at every point of the scan before token `i`. */
  predicate Core(spec: ArgsSpec, args: seq<string>, i: nat, s: ScanState) {
    && i <= |args|
    && WellFormed(spec, s)
    && ContinueErr(s)
    && ErrTracked(args, s)
    && OptionNamed(spec, args, s)
    && LogFits(spec, args, s.w.log, i)
    && NoStopCall(spec, s.w.log)
    && PositionalsTracked(s)
    && PositionalsCounted(spec, s)
    && PositionalRuns(spec, s.w.log)
    && Covered(spec, args, s.w.log, i)
  }

  /** A positional kept open for the next token `i` has room for another
      value, and a positional that claims token `i` is kept open. */
  predicate PositionalKept(spec: ArgsSpec, i: nat, s: ScanState)
    requires ValidSpec(spec) && WellFormed(spec, s)
  {
    && (s.positional.Some? && s.preservePositional ==>
          !OverOrEqMax(spec.positionals[s.numPositionals].numArgs, s.positionalArgCount))
    && (PositionalClaims(spec, s.w.log, i) ==> s.positional.Some? && s.preservePositional)
  }

  /** An option kept open for the next token `i` has room for another value,
      and an option that claims token `i` is kept open. */
  predicate OptionKept(spec: ArgsSpec, args: seq<string>, i: nat, s: ScanState) {
    && (s.option.Some? && s.preserveOption ==> OpenRun(spec, args, i, s))
    && (OptionClaims(spec, args, i) ==> s.option.Some? && s.preserveOption)
  }

  /** The state between two tokens, with token `i` next. */
  predicate Inv(spec: ArgsSpec, args: seq<string>, i: nat, s: ScanState)
    requires ValidSpec(spec)
  {
    && Core(spec, args, i, s)
    && PositionalKept(spec, i, s)
    && OptionKept(spec, args, i, s)
  }

  /** Once the positional is closed or continued: a positional still open
      has room for the value of token `i`, and one that claims it is open. */
  predicate PositionalReady(spec: ArgsSpec, i: nat, s: ScanState)
    requires ValidSpec(spec) && WellFormed(spec, s)
  {
    && !s.preservePositional
    && (s.positional.Some? ==> !OverOrEqMax(spec.positionals[s.numPositionals].numArgs, s.positionalArgCount))
    && (PositionalClaims(spec, s.w.log, i) ==> s.positional.Some?)
  }

  /** Once the option is closed or continued: an option still open has room
      for the value of token `i`, and one that claims it is open. */
  predicate OptionReady(spec: ArgsSpec, args: seq<string>, i: nat, s: ScanState) {
    && !s.preserveOption && (s.option.Some? ==> OpenRun(spec, args, i, s))
    && (OptionClaims(spec, args, i) ==> s.option.Some?)
  }

  /** The state in which token `i` is classified. */
  predicate Ready(spec: ArgsSpec, args: seq<string>, i: nat, s: ScanState)
    requires ValidSpec(spec)
  {
    && Core(spec, args, i, s)
    && PositionalReady(spec, i, s)
    && OptionReady(spec, args, i, s)
  }

  // ---------------------------------------------------------------------
  // The final state
  // ---------------------------------------------------------------------

  /** What the final state says about the input, when the scan ended at
      token `e` (or ran past the last token, `e == |args|`):
      - only the scanner's own error kinds occur;
      - `PARSE_ARG` names the token of the last parser call and carries the
        current `errno`;
      - `NONE` means every positional got a token and the scan reached the
        end, or the scan stopped at a stop flag;
      - at a stop flag the flag's parser was the last called, and the error
        is `PARSE_ARG` exactly when `errno` is set, unless the flag's token
        closed a positional or an option with too few values;
      - `UNKNOWN_ARG` names the token the scan ended at, which no flag or
        option accepts and no open option or positional claims, once every
        positional got a token;
      - `MISSING_ARG` names the first positional not completely bound: it
        has no value, or fewer than its minimum;
      - `MISSING_OPTION_ARG` names a token that opened an option which got
        fewer values than its minimum;
      - a scan that reached the end reports an unbound positional. */
  predicate Outcome(spec: ArgsSpec, args: seq<string>, e: nat, r: ScanState)
    requires ValidSpec(spec)
  {
    var pi := PositionalIndices(r.w.log);
    && e <= |args|
    && ScanKind(r.err.kind)
    && ErrTracked(args, r)
    && (r.err.kind.NoError? ==>
          (e == |args| && AllBound(pi, |spec.positionals|)) || (e < |args| && StopFlag(spec, args[e])))
    && (e < |args| && StopFlag(spec, args[e]) && !r.err.kind.MissingArg? && !r.err.kind.MissingOptionArg? ==>
          && r.w.log != []
          && LastCall(r.w.log) == Call(FlagAt(FindFlag(spec.flags, args[e]).value), args[e], None, e)
          && (r.err.kind.NoError? || r.err.kind.ParseArg?)
          && (r.err.kind.ParseArg? <==> r.w.errno != 0))
    && (r.err.kind.UnknownArg? ==>
          && e < |args| && r.err.str == args[e] && NamesNothing(spec, args[e])
          && !OptionClaims(spec, args, e) && !PositionalClaims(spec, r.w.log, e)
          && AllBound(pi, |spec.positionals|))
    && (r.err.kind.MissingArg? ==>
          && r.numPositionals < |spec.positionals|
          && r.err.str == spec.positionals[r.numPositionals].name
          && AllBound(pi, r.numPositionals)
          && (multiset(pi)[r.numPositionals] == 0
              || UnderMin(spec.positionals[r.numPositionals].numArgs, multiset(pi)[r.numPositionals])))
    && (r.err.kind.MissingOptionArg? ==>
          && r.err.str in args && NamesOption(spec, r.err.str)
          && r.option == FindOption(spec.options, r.err.str)
          && UnderMin(spec.options[r.option.value].numArgs, r.optionArgCount))
    && (e == |args| && !r.err.kind.MissingArg? && !r.err.kind.MissingOptionArg? ==>
          AllBound(pi, |spec.positionals|))
  }

  /** The shape of the final state of a scan that returned at token `e`:
      the calls took tokens up to `e`, every token before `e` was given to a
      parser or opened an option, positionals were bound in order, none got
      more values than it may and each kept its tokens while it had room, and
      no stop flag comes before `e`. */
  predicate Shape(spec: ArgsSpec, args: seq<string>, e: nat, r: ScanState) {
    var pi := PositionalIndices(r.w.log);
    && e <= |args|
    && LogFits(spec, args, r.w.log, if e < |args| then e + 1 else e)
    && Staircase(pi)
    && Covered(spec, args, r.w.log, e)
    && Counted(spec, pi)
    && PositionalRuns(spec, r.w.log)
    && (forall t :: 0 <= t < e ==> !StopFlag(spec, args[t]))
  }

  /** What holds when the scan returns at token `e`: the shape above and
      the outcome. */
  predicate Final(spec: ArgsSpec, args: seq<string>, e: nat, r: ScanState)
    requires ValidSpec(spec)
  {
    Shape(spec, args, e, r) && Outcome(spec, args, e, r)
  }

  /** What one iteration on token `i` leaves: the state for token `i + 1`,
      or a final state that ended at `i`. */
  predicate NextOk(spec: ArgsSpec, args: seq<string>, i: nat, r: Next)
    requires ValidSpec(spec)
  {
    && (r.Continue? ==> Inv(spec, args, i + 1, r.st))
    && (r.Return? ==> Final(spec, args, i, r.st))
  }

  /** The token at which the scan of `args[i..]` from `s` returns, or
      `|args|` when it runs past the last token. */
  function ScanEnd(spec: ArgsSpec, cb: Callback, args: seq<string>, i: nat, s: ScanState): (e: nat)
    requires ValidSpec(spec) && WellFormed(spec, s) && i <= |args|
    ensures i <= e <= |args|
    decreases |args| - i
  {
    if i == |args| then |args|
    else
      match Step(spec, cb, s, args[i], i)
      case Return(_) => i
      case Continue(t) => ScanEnd(spec, cb, args, i + 1, t)
  }

  // ---------------------------------------------------------------------
  // Facts about the state between tokens
  // ---------------------------------------------------------------------

  /** The indices before the last bound positional are all bound. */
  lemma TrackedBound(s: ScanState)
    requires PositionalsTracked(s)
    ensures AllBound(PositionalIndices(s.w.log), s.numPositionals)
    ensures s.positional.Some? ==> AllBound(PositionalIndices(s.w.log), s.numPositionals + 1)
  {
    var pi := PositionalIndices(s.w.log);
    if pi != [] {
      StaircaseCovers(pi);
    }
  }

  /** No positional after the open one, or after the last bound one when
      none is open, has been called. */
  lemma TrackedUnbound(s: ScanState)
    requires PositionalsTracked(s)
    ensures forall k :: k >= s.numPositionals + (if s.positional.Some? then 1 else 0)
                        ==> multiset(PositionalIndices(s.w.log))[k] == 0
  {
    var pi := PositionalIndices(s.w.log);
    if pi != [] {
      StaircaseMax(pi);
    }
  }

  /** A scan never passes a token taken by a stop flag: such a token got
      its flag's call, and the log holds no stop flag's call. */
  lemma NoStopBefore(spec: ArgsSpec, args: seq<string>, log: seq<Call>, i: nat)
    requires i <= |args| && LogFits(spec, args, log, i) && Covered(spec, args, log, i) && NoStopCall(spec, log)
    ensures forall t :: 0 <= t < i ==> !StopFlag(spec, args[t])
  {
    forall t | 0 <= t < i ensures !StopFlag(spec, args[t]) {
      if t in Positions(log) {
        var j :| 0 <= j < |log| && log[j].pos == t;
        assert CallFits(spec, args, log[j]) && !IsStopCall(spec, log[j]);
      }
    }
  }

  /** A state that returns at token `i` without a new call has the final
      shape. */
  lemma CoreShape(spec: ArgsSpec, args: seq<string>, i: nat, s: ScanState)
    requires ValidSpec(spec) && Core(spec, args, i, s)
    ensures Shape(spec, args, i, s)
  {
    NoStopBefore(spec, args, s.w.log, i);
  }

  /** A fitting call on token `i` keeps the log fitting, one token further. */
  lemma AppendFits(spec: ArgsSpec, args: seq<string>, i: nat, log: seq<Call>, c: Call)
    requires LogFits(spec, args, log, i) && c.pos == i && CallFits(spec, args, c)
    ensures LogFits(spec, args, log + [c], i + 1)
  {
    var l := log + [c];
    assert l[|log|] == c;
    forall j | 0 <= j < |log| ensures l[j] == log[j] && l[j].pos < i {
    }
  }

  /** A call on token `i` covers it. */
  lemma AppendCovered(spec: ArgsSpec, args: seq<string>, i: nat, log: seq<Call>, c: Call)
    requires Covered(spec, args, log, i) && c.pos == i
    ensures Covered(spec, args, log + [c], i + 1)
  {
    PositionsAppend(log, c);
  }

  /** A call that is not a stop flag's keeps the log free of them. */
  lemma AppendNoStop(spec: ArgsSpec, log: seq<Call>, c: Call)
    requires NoStopCall(spec, log) && !IsStopCall(spec, c)
    ensures NoStopCall(spec, log + [c])
  {
    var l := log + [c];
    assert l[|log|] == c;
    forall j | 0 <= j < |log| ensures l[j] == log[j] {
    }
  }

  /** A call on token `i` that fits extends the log of a state before
      token `i`: the log still fits, token `i` is covered, and the call adds
      to the positional indices only when it went to a positional. */
  lemma CallAppended(spec: ArgsSpec, args: seq<string>, i: nat, s: ScanState, c: Call, log: seq<Call>)
    requires i < |args| && LogFits(spec, args, s.w.log, i) && Covered(spec, args, s.w.log, i)
    requires NoStopCall(spec, s.w.log)
    requires c.pos == i && CallFits(spec, args, c) && log == s.w.log + [c]
    ensures LogFits(spec, args, log, i + 1) && Covered(spec, args, log, i + 1)
    ensures !IsStopCall(spec, c) ==> NoStopCall(spec, log)
    ensures PositionalIndices(log)
         == PositionalIndices(s.w.log) + (if c.entity.PositionalAt? then [c.entity.index] else [])
    ensures forall t :: 0 <= t < i ==> !StopFlag(spec, args[t])
    ensures PositionalRuns(spec, s.w.log) && !c.entity.PositionalAt? ==> PositionalRuns(spec, log)
  {
    if PositionalRuns(spec, s.w.log) && !c.entity.PositionalAt? {
      RunsAppend(spec, s.w.log, c);
    }
    AppendFits(spec, args, i, s.w.log, c);
    AppendCovered(spec, args, i, s.w.log, c);
    if !IsStopCall(spec, c) {
      AppendNoStop(spec, s.w.log, c);
    }
    PositionalIndicesAppend(s.w.log, c);
    NoStopBefore(spec, args, s.w.log, i);
  }

  /** A call extends the runs of positionals when, after a positional's
      call on the token before it, it goes to the same positional exactly
      when that one claims its token. */
  lemma RunsAppend(spec: ArgsSpec, log: seq<Call>, c: Call)
    requires PositionalRuns(spec, log)
    requires log != [] && c.entity.PositionalAt? && LastCall(log).entity.PositionalAt? && LastCall(log).pos + 1 == c.pos
             ==> (c.entity == LastCall(log).entity <==> PositionalClaims(spec, log, c.pos))
    ensures PositionalRuns(spec, log + [c])
  {
    var l := log + [c];
    forall j | 0 < j < |l| && l[j].entity.PositionalAt? && l[j - 1].entity.PositionalAt? && l[j - 1].pos + 1 == l[j].pos
      ensures l[j].entity == l[j - 1].entity <==> PositionalClaims(spec, l[..j], l[j].pos)
    {
      if j < |log| {
        assert l[j] == log[j] && l[j - 1] == log[j - 1] && l[..j] == log[..j];
      } else {
        assert l[..j] == log && l[j] == c && l[j - 1] == LastCall(log);
      }
    }
  }

  /** A log whose last call is a positional's ends its positional indices
      with that positional. */
  lemma LastPositional(log: seq<Call>)
    requires log != [] && LastCall(log).entity.PositionalAt?
    ensures PositionalIndices(log) != [] && Last(PositionalIndices(log)) == LastCall(log).entity.index
  {
  }

  /** An option's claim does not skip a token: if the option opened last
      claims the token after a token that nothing names, it claims that
      token too. */
  lemma OptionClaimsBefore(spec: ArgsSpec, args: seq<string>, i: nat)
    requires ValidSpec(spec) && i < |args| && NamesNothing(spec, args[i]) && OptionClaims(spec, args, i + 1)
    ensures OptionClaims(spec, args, i)
  {
    assert LastNamed(spec, args, i + 1) == LastNamed(spec, args, i);
    var o := LastNamed(spec, args, i).value;
    var n := spec.options[FindOption(spec.options, args[o]).value].numArgs;
    if i - o >= 2 {
      ArityMonotone(n, i - o - 1, i - o);
    }
  }

  /** An option's call that fits the scan took a token its option claims. */
  lemma OpenedByClaims(spec: ArgsSpec, args: seq<string>, c: Call)
    requires CallFits(spec, args, c) && c.entity.OptionAt?
    ensures OptionClaims(spec, args, c.pos)
  {
  }

  // ---------------------------------------------------------------------
  // One iteration
  // ---------------------------------------------------------------------

  /** Closing the open positional (argparse.c:193-206): it returns exactly
      when a positional that the previous token did not continue has fewer
      values than its minimum, with `MISSING_ARG` naming it; otherwise the
      positional is continued or closed with the world unchanged. */
  lemma ResetPositionalOk(spec: ArgsSpec, args: seq<string>, i: nat, s: ScanState)
    requires ValidSpec(spec) && i < |args| && Inv(spec, args, i, s)
    ensures var r := ResetPositional(spec, s);
      && (r.Return? <==> s.positional.Some? && !s.preservePositional
                         && UnderMin(spec.positionals[s.numPositionals].numArgs, s.positionalArgCount))
      && (r.Return? ==> r.st.err == ArgsError(MissingArg, 0, spec.positionals[s.numPositionals].name)
                        && Final(spec, args, i, r.st))
      && (r.Continue? ==> r.st.w == s.w && Core(spec, args, i, r.st) && PositionalReady(spec, i, r.st)
                          && OptionKept(spec, args, i, r.st))
      && (r.Continue? && s.preservePositional ==>
            && r.st.positional == s.positional && r.st.positionalArgCount == s.positionalArgCount
            && r.st.numPositionals == s.numPositionals)
      && (r.Continue? && !s.preservePositional ==>
            && r.st.positional.None? && r.st.positionalArgCount == 0
            && r.st.numPositionals == s.numPositionals + (if s.positional.Some? then 1 else 0))
  {
    if s.preservePositional {
      PositionalContinued(spec, args, i, s);
    } else if s.positional.Some? && UnderMin(spec.positionals[s.numPositionals].numArgs, s.positionalArgCount) {
      MissingArgFinal(spec, args, i, s);
    } else {
      PositionalClosed(spec, args, i, s);
    }
  }

  /** The state before token `i` does not depend on whether the previous
      token continued the positional or the option. */
  lemma PreserveDropped(spec: ArgsSpec, args: seq<string>, i: nat, s: ScanState, t: ScanState)
    requires Core(spec, args, i, s)
    requires t == s.(preservePositional := t.preservePositional, preserveOption := t.preserveOption)
    ensures Core(spec, args, i, t)
  {
    assert t.w == s.w;
  }

  /** Continuing the positional keeps the state before token `i`, with
      room for one more value. */
  lemma PositionalContinued(spec: ArgsSpec, args: seq<string>, i: nat, s: ScanState)
    requires ValidSpec(spec) && Inv(spec, args, i, s) && s.preservePositional
    ensures var t := s.(preservePositional := false);
      Core(spec, args, i, t) && PositionalReady(spec, i, t) && OptionKept(spec, args, i, t)
  {
    var t := s.(preservePositional := false);
    PreserveDropped(spec, args, i, s, t);
    OptionKeptSame(spec, args, i, s, t);
    assert PositionalReady(spec, i, t);
  }

  /** The option's part of the state between tokens does not depend on the
      positional's. */
  lemma OptionKeptSame(spec: ArgsSpec, args: seq<string>, i: nat, s: ScanState, t: ScanState)
    requires OptionKept(spec, args, i, s)
    requires t.option == s.option && t.optionArgCount == s.optionArgCount && t.optionName == s.optionName
    requires t.preserveOption == s.preserveOption
    ensures OptionKept(spec, args, i, t)
  {
    assert OpenRun(spec, args, i, t) == OpenRun(spec, args, i, s);
  }

  /** A positional with fewer values than its minimum, reported at token
      `i`, leaves a final state. */
  lemma MissingArgFinal(spec: ArgsSpec, args: seq<string>, i: nat, s: ScanState)
    requires ValidSpec(spec) && i < |args| && Core(spec, args, i, s)
    requires s.positional.Some? && UnderMin(spec.positionals[s.numPositionals].numArgs, s.positionalArgCount)
    ensures Final(spec, args, i, s.(err := ArgsError(MissingArg, 0, spec.positionals[s.numPositionals].name)))
  {
    TrackedBound(s);
    CoreShape(spec, args, i, s);
  }

  /** Closing a positional that has its minimum, or none at all, keeps the
      state before token `i`. */
  lemma PositionalClosed(spec: ArgsSpec, args: seq<string>, i: nat, s: ScanState)
    requires ValidSpec(spec) && i < |args| && Core(spec, args, i, s) && OptionKept(spec, args, i, s)
    requires !PositionalClaims(spec, s.w.log, i)
    ensures var n := if s.positional.Some? then s.numPositionals + 1 else s.numPositionals;
      var t := s.(numPositionals := n, positional := None, positionalArgCount := 0, preservePositional := false);
      Core(spec, args, i, t) && PositionalReady(spec, i, t) && OptionKept(spec, args, i, t)
  {
    var n := if s.positional.Some? then s.numPositionals + 1 else s.numPositionals;
    var t := s.(numPositionals := n, positional := None, positionalArgCount := 0, preservePositional := false);
    assert t.w == s.w;
    assert PositionalsTracked(t) && PositionalsCounted(spec, t);
    OptionKeptSame(spec, args, i, s, t);
  }

  /** Closing the open option (argparse.c:207-219): it returns exactly when
      an option that the previous token did not continue has fewer values
      than its minimum, with `MISSING_OPTION_ARG` naming its opening token;
      otherwise token `i` can be classified. */
  lemma ResetOptionOk(spec: ArgsSpec, args: seq<string>, i: nat, s: ScanState)
    requires ValidSpec(spec) && i < |args| && Core(spec, args, i, s)
    requires PositionalReady(spec, i, s) && OptionKept(spec, args, i, s)
    ensures var r := ResetOption(spec, s);
      && (r.Return? <==> s.option.Some? && !s.preserveOption
                         && UnderMin(spec.options[s.option.value].numArgs, s.optionArgCount))
      && (r.Return? ==> r.st.err == ArgsError(MissingOptionArg, 0, s.optionName) && Final(spec, args, i, r.st))
      && (r.Continue? ==> r.st.w == s.w && Ready(spec, args, i, r.st))
      && (r.Continue? && s.preserveOption ==>
            r.st.option == s.option && r.st.optionArgCount == s.optionArgCount && r.st.optionName == s.optionName)
      && (r.Continue? && !s.preserveOption ==> r.st.option.None? && r.st.optionArgCount == 0)
  {
    if s.preserveOption {
      PreserveDropped(spec, args, i, s, s.(preserveOption := false));
    } else if s.option.Some? && UnderMin(spec.options[s.option.value].numArgs, s.optionArgCount) {
      MissingOptionArgFinal(spec, args, i, s);
    } else {
      OptionClosed(spec, args, i, s);
    }
  }

  /** An option with fewer values than its minimum, reported at token `i`,
      leaves a final state. */
  lemma MissingOptionArgFinal(spec: ArgsSpec, args: seq<string>, i: nat, s: ScanState)
    requires ValidSpec(spec) && i < |args| && Core(spec, args, i, s)
    requires s.option.Some? && UnderMin(spec.options[s.option.value].numArgs, s.optionArgCount)
    ensures Final(spec, args, i, s.(err := ArgsError(MissingOptionArg, 0, s.optionName)))
  {
    CoreShape(spec, args, i, s);
  }

  /** Closing an option that has its minimum, or no option at all, leaves
      token `i` ready to be classified. */
  lemma OptionClosed(spec: ArgsSpec, args: seq<string>, i: nat, s: ScanState)
    requires ValidSpec(spec) && i < |args| && Core(spec, args, i, s) && PositionalReady(spec, i, s)
    requires !OptionClaims(spec, args, i)
    ensures Ready(spec, args, i, s.(option := None, optionArgCount := 0, optionName := "", preserveOption := false))
  {
  }

  /** A call on token `i` that is not a positional's keeps the state
      before token `i + 1`, once the error and `errno` agree. */
  lemma CoreAfterCall(spec: ArgsSpec, args: seq<string>, i: nat, s: ScanState, c: Call, t: ScanState)
    requires ValidSpec(spec) && i < |args| && Core(spec, args, i, s)
    requires c.pos == i && CallFits(spec, args, c) && !IsStopCall(spec, c) && !c.entity.PositionalAt?
    requires t == s.(w := t.w, err := t.err, optionArgCount := t.optionArgCount, preserveOption := t.preserveOption)
    requires t.w.log == s.w.log + [c]
    requires ContinueErr(t) && (t.err.kind.ParseArg? ==> t.err == ArgsError(ParseArg, t.w.errno, args[i]))
    ensures Core(spec, args, i + 1, t)
  {
    CallAppended(spec, args, i, s, c, t.w.log);
    assert LastCall(t.w.log) == c;
  }

  /** A flag's call on token `i` that ends the scan, with `PARSE_ARG` when
      `errno` is set and at a stop flag otherwise, leaves a final state. */
  lemma FlagReturnFinal(spec: ArgsSpec, args: seq<string>, i: nat, s: ScanState, r: ScanState)
    requires ValidSpec(spec) && i < |args| && Core(spec, args, i, s)
    requires FindFlag(spec.flags, args[i]).Some?
    requires r == s.(w := r.w, err := r.err)
    requires r.w.log == s.w.log + [Call(FlagAt(FindFlag(spec.flags, args[i]).value), args[i], None, i)]
    requires r.w.errno != 0 ==> r.err == ArgsError(ParseArg, r.w.errno, args[i])
    requires r.w.errno == 0 ==> r.err == NoErr && StopFlag(spec, args[i])
    ensures Final(spec, args, i, r)
  {
    var c := Call(FlagAt(FindFlag(spec.flags, args[i]).value), args[i], None, i);
    CallAppended(spec, args, i, s, c, r.w.log);
    assert LastCall(r.w.log) == c;
    assert PositionalIndices(r.w.log) == PositionalIndices(s.w.log);
    assert Shape(spec, args, i, r);
  }

  /** A flag's token (argparse.c:220-233): the flag's parser gets the token
      itself and no value; the scan returns `PARSE_ARG` with the token when
      `errno` is then set, returns with no error at a stop flag, and
      otherwise goes on. */
  lemma DispatchFlagOk(spec: ArgsSpec, cb: Callback, args: seq<string>, i: nat, s: ScanState)
    requires ValidSpec(spec) && i < |args| && Ready(spec, args, i, s)
    requires FindFlag(spec.flags, args[i]).Some?
    ensures var k := FindFlag(spec.flags, args[i]).value;
      var r := Dispatch(spec, cb, s, args[i], i);
      && r.st.w.log == s.w.log + [Call(FlagAt(k), args[i], None, i)]
      && (r.Return? <==> r.st.w.errno != 0 || spec.flags[k].stop)
      && (r.st.w.errno != 0 ==> r.st.err == ArgsError(ParseArg, r.st.w.errno, args[i]))
      && (r.st.w.errno == 0 ==> r.st.err == NoErr)
      && NextOk(spec, args, i, r)
  {
    var k := FindFlag(spec.flags, args[i]).value;
    var f := spec.flags[k];
    var p := Resolve(f.parser, ArgSetTrue);
    var c := Call(FlagAt(k), args[i], None, i);
    var w := Invoke(p, cb, FlagAt(k), args[i], None, f.hasDest, i, s.w);
    InvokeErrnoSticky(p, cb, FlagAt(k), args[i], None, f.hasDest, i, s.w);
    var t := s.(w := w);
    if w.errno != 0 {
      var r := t.(err := ArgsError(ParseArg, w.errno, args[i]));
      assert Dispatch(spec, cb, s, args[i], i) == Return(r);
      FlagReturnFinal(spec, args, i, s, r);
    } else {
      assert s.err == NoErr;
      if f.stop {
        assert Dispatch(spec, cb, s, args[i], i) == Return(t);
        FlagReturnFinal(spec, args, i, s, t);
      } else {
        assert Dispatch(spec, cb, s, args[i], i) == Continue(t);
        CoreAfterCall(spec, args, i, s, c, t);
      }
    }
  }

  /** A token that opens an option (argparse.c:234-248): when the option
      still open has fewer values than its minimum, the scan returns
      `MISSING_OPTION_ARG` naming that option's token; otherwise the first
      option that accepts the token is opened under it, with no value yet. */
  lemma DispatchOptionNameOk(spec: ArgsSpec, cb: Callback, args: seq<string>, i: nat, s: ScanState)
    requires ValidSpec(spec) && i < |args| && Ready(spec, args, i, s)
    requires NamesOption(spec, args[i])
    ensures var r := Dispatch(spec, cb, s, args[i], i);
      && r.st.w == s.w
      && (r.Return? <==> s.option.Some? && UnderMin(spec.options[s.option.value].numArgs, s.optionArgCount))
      && (r.Return? ==> r.st.err == ArgsError(MissingOptionArg, 0, s.optionName))
      && (r.Continue? ==> && r.st.option == FindOption(spec.options, args[i]) && r.st.optionName == args[i]
                          && r.st.optionArgCount == 0 && r.st.err == s.err && r.st.preserveOption)
      && NextOk(spec, args, i, r)
  {
    DispatchOptionNameIs(spec, cb, s, args[i], i);
    if s.option.Some? && UnderMin(spec.options[s.option.value].numArgs, s.optionArgCount) {
      MissingOptionArgFinal(spec, args, i, s);
    } else {
      OptionOpened(spec, args, i, s);
    }
  }

  /** The step taken on a token that names an option. */
  lemma DispatchOptionNameIs(spec: ArgsSpec, cb: Callback, s: ScanState, arg: string, pos: nat)
    requires ValidSpec(spec) && WellFormed(spec, s) && NamesOption(spec, arg)
    ensures Dispatch(spec, cb, s, arg, pos)
         == if s.option.Some? && UnderMin(spec.options[s.option.value].numArgs, s.optionArgCount)
            then Return(s.(err := ArgsError(MissingOptionArg, 0, s.optionName)))
            else Continue(s.(option := FindOption(spec.options, arg), optionName := arg, optionArgCount := 0,
                             preserveOption := true))
  {
  }

  /** Opening the option that token `i` names keeps the state between
      tokens. */
  lemma OptionOpened(spec: ArgsSpec, args: seq<string>, i: nat, s: ScanState)
    requires ValidSpec(spec) && i < |args| && Ready(spec, args, i, s) && NamesOption(spec, args[i])
    ensures Inv(spec, args, i + 1, s.(option := FindOption(spec.options, args[i]), optionName := args[i],
                                      optionArgCount := 0, preserveOption := true))
  {
    var t := s.(option := FindOption(spec.options, args[i]), optionName := args[i], optionArgCount := 0,
                preserveOption := true);
    assert LastNamed(spec, args, i + 1) == Some(i);
    assert Covered(spec, args, t.w.log, i + 1);
  }

  /** A value of the open option (argparse.c:249-262): the option's parser
      gets the token under the option's opening token; a failure records
      `PARSE_ARG` with the token and `errno`, and the scan goes on with the
      option's count one higher. */
  lemma DispatchOptionValueOk(spec: ArgsSpec, cb: Callback, args: seq<string>, i: nat, s: ScanState)
    requires ValidSpec(spec) && i < |args| && Ready(spec, args, i, s)
    requires NamesNothing(spec, args[i]) && s.option.Some?
    ensures var r := Dispatch(spec, cb, s, args[i], i);
      && r.Continue?
      && r.st.w.log == s.w.log + [Call(OptionAt(s.option.value), s.optionName, Some(args[i]), i)]
      && r.st.optionArgCount == s.optionArgCount + 1
      && r.st.preserveOption == !OverOrEqMax(spec.options[s.option.value].numArgs, s.optionArgCount + 1)
      && r.st.err == (if r.st.w.errno != 0 then ArgsError(ParseArg, r.st.w.errno, args[i]) else NoErr)
      && NextOk(spec, args, i, r)
  {
    var k := s.option.value;
    var o := spec.options[k];
    var p := Resolve(o.parser, ArgParseStr);
    var c := Call(OptionAt(k), s.optionName, Some(args[i]), i);
    var w := Invoke(p, cb, OptionAt(k), s.optionName, Some(args[i]), o.hasDest, i, s.w);
    InvokeErrnoSticky(p, cb, OptionAt(k), s.optionName, Some(args[i]), o.hasDest, i, s.w);
    var count := s.optionArgCount + 1;
    var err := if w.errno != 0 then ArgsError(ParseArg, w.errno, args[i]) else s.err;
    var t := s.(w := w, err := err, optionArgCount := count, preserveOption := !OverOrEqMax(o.numArgs, count));
    DispatchOptionValueIs(spec, cb, s, args[i], i);
    if w.errno == 0 {
      assert s.err == NoErr;
    }
    OptionValueKept(spec, args, i, s, c, t);
  }

  /** The step taken on a value of the open option. */
  lemma DispatchOptionValueIs(spec: ArgsSpec, cb: Callback, s: ScanState, arg: string, pos: nat)
    requires ValidSpec(spec) && WellFormed(spec, s)
    requires NamesNothing(spec, arg) && s.option.Some?
    ensures var o := spec.options[s.option.value];
      var w := Invoke(Resolve(o.parser, ArgParseStr), cb, OptionAt(s.option.value), s.optionName, Some(arg), o.hasDest, pos, s.w);
      var err := if w.errno != 0 then ArgsError(ParseArg, w.errno, arg) else s.err;
      Dispatch(spec, cb, s, arg, pos)
        == Continue(s.(w := w, err := err, optionArgCount := s.optionArgCount + 1,
                       preserveOption := !OverOrEqMax(o.numArgs, s.optionArgCount + 1)))
  {
  }

  /** The state after a value of the open option on token `i`. */
  lemma OptionValueKept(spec: ArgsSpec, args: seq<string>, i: nat, s: ScanState, c: Call, t: ScanState)
    requires ValidSpec(spec) && i < |args| && Ready(spec, args, i, s)
    requires NamesNothing(spec, args[i]) && s.option.Some?
    requires c == Call(OptionAt(s.option.value), s.optionName, Some(args[i]), i)
    requires t == s.(w := t.w, err := t.err, optionArgCount := s.optionArgCount + 1,
                     preserveOption := !OverOrEqMax(spec.options[s.option.value].numArgs, s.optionArgCount + 1))
    requires t.w.log == s.w.log + [c]
    requires t.err == (if t.w.errno != 0 then ArgsError(ParseArg, t.w.errno, args[i]) else NoErr)
    ensures Inv(spec, args, i + 1, t)
  {
    OptionValueFits(spec, args, i, s, c);
    CoreAfterCall(spec, args, i, s, c, t);
  }

  /** A value of the open option fits the scan, and leaves the option's
      opening token the last named one. */
  lemma OptionValueFits(spec: ArgsSpec, args: seq<string>, i: nat, s: ScanState, c: Call)
    requires i < |args| && OpenRun(spec, args, i, s) && OptionNamed(spec, args, s)
    requires NamesNothing(spec, args[i])
    requires c == Call(OptionAt(s.option.value), s.optionName, Some(args[i]), i)
    ensures CallFits(spec, args, c)
    ensures LastNamed(spec, args, i + 1) == LastNamed(spec, args, i)
  {
    assert ValuesAllowed(spec.options[s.option.value].numArgs, s.optionArgCount + 1);
    assert OpenedBy(spec, args, i, s.option.value, s.optionName);
  }

  /** Binding the token to positional `numPositionals` keeps the positional
      counters in step with the log. */
  lemma BindTracked(s: ScanState, log: seq<Call>, c: Call)
    requires PositionalsTracked(s)
    requires c.entity == PositionalAt(s.numPositionals) && log == s.w.log + [c]
    ensures PositionalsTracked(s.(positional := Some(s.numPositionals), w := s.w.(log := log)))
  {
    PositionalIndicesAppend(s.w.log, c);
    var pi := PositionalIndices(s.w.log);
    var pi' := pi + [s.numPositionals];
    assert PositionalIndices(log) == pi';
    forall j | 0 < j < |pi'| ensures pi'[j] == pi'[j - 1] || pi'[j] == pi'[j - 1] + 1 {
      if j < |pi| {
        assert pi'[j] == pi[j] && pi'[j - 1] == pi[j - 1];
      }
    }
  }

  /** The positional indices after a positional's call on token `i`: a
      staircase again, with one more value for that positional, which still
      fits its maximum. */
  lemma BindCounted(spec: ArgsSpec, args: seq<string>, i: nat, s: ScanState, w: World)
    requires ValidSpec(spec) && i < |args| && Ready(spec, args, i, s)
    requires NamesNothing(spec, args[i]) && s.option.None? && s.numPositionals < |spec.positionals|
    requires w.log == s.w.log + [Call(PositionalAt(s.numPositionals), spec.positionals[s.numPositionals].name, Some(args[i]), i)]
    ensures var t := s.(positional := Some(s.numPositionals), w := w);
      && Shape(spec, args, i, t)
      && LogFits(spec, args, w.log, i + 1) && Covered(spec, args, w.log, i + 1) && NoStopCall(spec, w.log)
      && PositionalsTracked(t)
      && multiset(PositionalIndices(w.log))[s.numPositionals] == s.positionalArgCount + 1
  {
    var k := s.numPositionals;
    var c := Call(PositionalAt(k), spec.positionals[k].name, Some(args[i]), i);
    CallAppended(spec, args, i, s, c, w.log);
    BindTracked(s, w.log, c);
    TrackedUnbound(s);
    var t := s.(positional := Some(k), w := w);
    assert t.w.log == s.(positional := Some(k), w := s.w.(log := w.log)).w.log;
    var pi := PositionalIndices(s.w.log);
    assert PositionalIndices(w.log) == pi + [k];
    assert multiset(pi)[k] == s.positionalArgCount;
    CountedAfterBind(spec, pi, k, s.positionalArgCount);
    BindRuns(spec, args, i, s, c);
  }

  /** A positional's call on token `i` goes to the positional that took
      token `i - 1` exactly when that one claims token `i`. */
  lemma BindRuns(spec: ArgsSpec, args: seq<string>, i: nat, s: ScanState, c: Call)
    requires ValidSpec(spec) && i < |args| && Ready(spec, args, i, s)
    requires s.option.None? && s.numPositionals < |spec.positionals|
    requires c.entity == PositionalAt(s.numPositionals) && c.pos == i
    ensures PositionalRuns(spec, s.w.log + [c])
  {
    var log := s.w.log;
    if log != [] && LastCall(log).entity.PositionalAt? && LastCall(log).pos + 1 == i {
      LastPositional(log);
      var k := LastCall(log).entity.index;
      assert c.entity == LastCall(log).entity <==> s.positional.Some?;
      if s.positional.Some? {
        assert multiset(PositionalIndices(log))[k] == s.positionalArgCount;
      }
    }
    RunsAppend(spec, log, c);
  }

  /** One more value for positional `k`, which had room for it, keeps every
      positional within its maximum. */
  lemma CountedAfterBind(spec: ArgsSpec, pi: seq<nat>, k: nat, count: nat)
    requires ValidSpec(spec) && k < |spec.positionals| && Counted(spec, pi) && multiset(pi)[k] == count
    requires count == 0 || !OverOrEqMax(spec.positionals[k].numArgs, count)
    ensures Counted(spec, pi + [k]) && multiset(pi + [k])[k] == count + 1
  {
    var before: multiset<nat> := multiset(pi);
    var after: multiset<nat> := multiset(pi + [k]);
    assert after == before + multiset{k};
    forall j: nat | j < |spec.positionals|
      ensures ValuesAllowed(spec.positionals[j].numArgs, after[j])
    {
      if j != k {
        assert after[j] == before[j];
      }
    }
  }

  /** A value of the next positional (argparse.c:263-278): positional
      `numPositionals`'s parser gets the token under the positional's name;
      the scan returns `PARSE_ARG` with the token exactly when `errno` is
      then set, and otherwise goes on with the positional open and its count
      one higher. */
  lemma DispatchBindOk(spec: ArgsSpec, cb: Callback, args: seq<string>, i: nat, s: ScanState)
    requires ValidSpec(spec) && i < |args| && Ready(spec, args, i, s)
    requires NamesNothing(spec, args[i]) && s.option.None? && s.numPositionals < |spec.positionals|
    ensures var k := s.numPositionals;
      var r := Dispatch(spec, cb, s, args[i], i);
      && r.st.w.log == s.w.log + [Call(PositionalAt(k), spec.positionals[k].name, Some(args[i]), i)]
      && (r.Return? <==> r.st.w.errno != 0)
      && (r.Return? ==> r.st.err == ArgsError(ParseArg, r.st.w.errno, args[i]))
      && (r.Continue? ==> && r.st.err == NoErr && r.st.positional == Some(k)
                          && r.st.positionalArgCount == s.positionalArgCount + 1
                          && r.st.preservePositional == !OverOrEqMax(spec.positionals[k].numArgs, s.positionalArgCount + 1))
      && NextOk(spec, args, i, r)
  {
    var k := s.numPositionals;
    var p := spec.positionals[k];
    var fn := Resolve(p.parser, ArgParseStr);
    var w := Invoke(fn, cb, PositionalAt(k), p.name, Some(args[i]), p.hasDest, i, s.w);
    InvokeErrnoSticky(fn, cb, PositionalAt(k), p.name, Some(args[i]), p.hasDest, i, s.w);
    DispatchBindIs(spec, cb, s, args[i], i);
    var t := s.(positional := Some(k), w := w);
    if w.errno != 0 {
      BindCounted(spec, args, i, s, w);
      var r := t.(err := ArgsError(ParseArg, w.errno, args[i]));
      assert LastCall(w.log).pos == i;
      BindReturnFinal(spec, args, i, r);
    } else {
      assert s.err == NoErr;
      BindKept(spec, args, i, s, w);
    }
  }

  /** The step taken on a value of the next positional. */
  lemma DispatchBindIs(spec: ArgsSpec, cb: Callback, s: ScanState, arg: string, pos: nat)
    requires ValidSpec(spec) && WellFormed(spec, s)
    requires NamesNothing(spec, arg) && s.option.None? && s.numPositionals < |spec.positionals|
    ensures var k := s.numPositionals;
      var p := spec.positionals[k];
      var w := Invoke(Resolve(p.parser, ArgParseStr), cb, PositionalAt(k), p.name, Some(arg), p.hasDest, pos, s.w);
      var count := s.positionalArgCount + 1;
      Dispatch(spec, cb, s, arg, pos)
        == if w.errno != 0 then Return(s.(positional := Some(k), w := w, err := ArgsError(ParseArg, w.errno, arg)))
           else Continue(s.(positional := Some(k), w := w, positionalArgCount := count,
                            preservePositional := !OverOrEqMax(p.numArgs, count)))
  {
  }

  /** A positional's parser that set `errno` on token `i` leaves a final
      state. */
  lemma BindReturnFinal(spec: ArgsSpec, args: seq<string>, i: nat, r: ScanState)
    requires ValidSpec(spec) && i < |args| && NamesNothing(spec, args[i]) && Shape(spec, args, i, r)
    requires r.w.log != [] && LastCall(r.w.log).pos == i
    requires r.w.errno != 0 && r.err == ArgsError(ParseArg, r.w.errno, args[i])
    ensures Final(spec, args, i, r)
  {
  }

  /** A positional's parser that left `errno` clear on token `i` keeps the
      state between tokens, with the positional open and one more value. */
  lemma BindKept(spec: ArgsSpec, args: seq<string>, i: nat, s: ScanState, w: World)
    requires ValidSpec(spec) && i < |args| && Ready(spec, args, i, s) && s.err == NoErr
    requires NamesNothing(spec, args[i]) && s.option.None? && s.numPositionals < |spec.positionals|
    requires w.log == s.w.log + [Call(PositionalAt(s.numPositionals), spec.positionals[s.numPositionals].name, Some(args[i]), i)]
    ensures var count := s.positionalArgCount + 1;
      Inv(spec, args, i + 1, s.(positional := Some(s.numPositionals), w := w, positionalArgCount := count,
                                preservePositional := !OverOrEqMax(spec.positionals[s.numPositionals].numArgs, count)))
  {
    BindCounted(spec, args, i, s, w);
  }

  /** A token nothing takes (argparse.c:279-284): the scan returns
      `UNKNOWN_ARG` naming it, with nothing else changed. */
  lemma DispatchUnknownOk(spec: ArgsSpec, cb: Callback, args: seq<string>, i: nat, s: ScanState)
    requires ValidSpec(spec) && i < |args| && Ready(spec, args, i, s)
    requires NamesNothing(spec, args[i]) && s.option.None? && s.numPositionals >= |spec.positionals|
    ensures Dispatch(spec, cb, s, args[i], i) == Return(s.(err := ArgsError(UnknownArg, 0, args[i])))
    ensures NextOk(spec, args, i, Dispatch(spec, cb, s, args[i], i))
  {
    TrackedBound(s);
    CoreShape(spec, args, i, s);
  }

  /** One iteration keeps the state between tokens, or returns with a final
      state that ended at this token. */
  lemma StepOk(spec: ArgsSpec, cb: Callback, args: seq<string>, i: nat, s: ScanState)
    requires ValidSpec(spec) && i < |args| && Inv(spec, args, i, s)
    ensures NextOk(spec, args, i, Step(spec, cb, s, args[i], i))
  {
    ResetPositionalOk(spec, args, i, s);
    match ResetPositional(spec, s)
    case Return(t) =>
    case Continue(t) =>
      ResetOptionOk(spec, args, i, t);
      match ResetOption(spec, t)
      case Return(u) =>
      case Continue(u) =>
        var arg := args[i];
        if FindFlag(spec.flags, arg).Some? {
          DispatchFlagOk(spec, cb, args, i, u);
        } else if FindOption(spec.options, arg).Some? {
          DispatchOptionNameOk(spec, cb, args, i, u);
        } else if u.option.Some? {
          DispatchOptionValueOk(spec, cb, args, i, u);
        } else if u.numPositionals < |spec.positionals| {
          DispatchBindOk(spec, cb, args, i, u);
        } else {
          DispatchUnknownOk(spec, cb, args, i, u);
        }
  }

  /** The checks after the last token (argparse.c:286-310): an open option
      with fewer values than its minimum is reported first, then an open
      positional with fewer values than its minimum, then the first
      positional with no value; otherwise `*err` stays as the loop left it. */
  lemma FinishOk(spec: ArgsSpec, args: seq<string>, s: ScanState)
    requires ValidSpec(spec) && Core(spec, args, |args|, s)
    ensures var r := Finish(spec, s);
      && r.w == s.w
      && (s.option.Some? && UnderMin(spec.options[s.option.value].numArgs, s.optionArgCount) ==>
            r.err == ArgsError(MissingOptionArg, 0, s.optionName))
      && (!(s.option.Some? && UnderMin(spec.options[s.option.value].numArgs, s.optionArgCount))
          && s.positional.Some? && UnderMin(spec.positionals[s.numPositionals].numArgs, s.positionalArgCount) ==>
            r.err == ArgsError(MissingArg, 0, spec.positionals[s.numPositionals].name))
      && (!r.err.kind.MissingArg? && !r.err.kind.MissingOptionArg? ==> r.err == s.err)
      && Final(spec, args, |args|, r)
  {
    FinishResult(spec, s);
    FinishFinal(spec, args, s);
  }

  /** The error the checks after the last token report, and the world they
      leave. */
  lemma FinishResult(spec: ArgsSpec, s: ScanState)
    requires ValidSpec(spec) && WellFormed(spec, s) && ContinueErr(s)
    ensures var r := Finish(spec, s);
      && r.w == s.w
      && (s.option.Some? && UnderMin(spec.options[s.option.value].numArgs, s.optionArgCount) ==>
            r.err == ArgsError(MissingOptionArg, 0, s.optionName))
      && (!(s.option.Some? && UnderMin(spec.options[s.option.value].numArgs, s.optionArgCount))
          && s.positional.Some? && UnderMin(spec.positionals[s.numPositionals].numArgs, s.positionalArgCount) ==>
            r.err == ArgsError(MissingArg, 0, spec.positionals[s.numPositionals].name))
      && (!r.err.kind.MissingArg? && !r.err.kind.MissingOptionArg? ==> r.err == s.err)
  {
  }

  /** The checks after the last token leave a final state. */
  lemma FinishFinal(spec: ArgsSpec, args: seq<string>, s: ScanState)
    requires ValidSpec(spec) && Core(spec, args, |args|, s)
    ensures Final(spec, args, |args|, Finish(spec, s))
  {
    if s.option.Some? && UnderMin(spec.options[s.option.value].numArgs, s.optionArgCount) {
      FinishOptionFinal(spec, args, s);
    } else if s.positional.Some? && UnderMin(spec.positionals[s.numPositionals].numArgs, s.positionalArgCount) {
      FinishPositionalFinal(spec, args, s);
    } else {
      FinishClosedFinal(spec, args, s);
    }
  }

  /** An option left with too few values after the last token. */
  lemma FinishOptionFinal(spec: ArgsSpec, args: seq<string>, s: ScanState)
    requires ValidSpec(spec) && Core(spec, args, |args|, s)
    requires s.option.Some? && UnderMin(spec.options[s.option.value].numArgs, s.optionArgCount)
    ensures Final(spec, args, |args|, Finish(spec, s))
  {
    CoreShape(spec, args, |args|, s);
    assert Finish(spec, s) == s.(err := ArgsError(MissingOptionArg, 0, s.optionName));
  }

  /** A positional left with too few values after the last token. */
  lemma FinishPositionalFinal(spec: ArgsSpec, args: seq<string>, s: ScanState)
    requires ValidSpec(spec) && Core(spec, args, |args|, s)
    requires !(s.option.Some? && UnderMin(spec.options[s.option.value].numArgs, s.optionArgCount))
    requires s.positional.Some? && UnderMin(spec.positionals[s.numPositionals].numArgs, s.positionalArgCount)
    ensures Final(spec, args, |args|, Finish(spec, s))
  {
    CoreShape(spec, args, |args|, s);
    TrackedBound(s);
    assert Finish(spec, s) == s.(err := ArgsError(MissingArg, 0, spec.positionals[s.numPositionals].name));
  }

  /** After the last token with no entity short of its minimum: the first
      positional with no value is reported, or the error stays. */
  lemma FinishClosedFinal(spec: ArgsSpec, args: seq<string>, s: ScanState)
    requires ValidSpec(spec) && Core(spec, args, |args|, s)
    requires !(s.option.Some? && UnderMin(spec.options[s.option.value].numArgs, s.optionArgCount))
    requires !(s.positional.Some? && UnderMin(spec.positionals[s.numPositionals].numArgs, s.positionalArgCount))
    ensures Final(spec, args, |args|, Finish(spec, s))
  {
    TrackedBound(s);
    TrackedUnbound(s);
    CoreShape(spec, args, |args|, s);
  }

  // ---------------------------------------------------------------------
  // The whole scan
  // ---------------------------------------------------------------------

  lemma {:induction false} RunFromOk(spec: ArgsSpec, cb: Callback, args: seq<string>, i: nat, s: ScanState)
    requires ValidSpec(spec) && i <= |args| && Inv(spec, args, i, s)
    ensures Final(spec, args, ScanEnd(spec, cb, args, i, s), RunFrom(spec, cb, args, i, s))
    decreases |args| - i
  {
    if i == |args| {
      FinishOk(spec, args, s);
    } else {
      StepOk(spec, cb, args, i, s);
      match Step(spec, cb, s, args[i], i)
      case Return(t) =>
      case Continue(t) =>
        RunFromOk(spec, cb, args, i + 1, t);
    }
  }

  /** The main theorem about `argparse_array`, for the token `e` the scan
      ends at:
      - every parser call fits the token it was given, and is the only call
        on that token; the calls follow the tokens in order, up to `e`;
      - every token before `e` was given to a parser or opened an option;
      - positionals are bound in declaration order one index at a time, and
        no option or positional takes more values than its maximum;
      - the scan does not pass a stop flag;
      - the error reported means what its kind says (`Outcome`). */
  lemma RunOutcome(spec: ArgsSpec, cb: Callback, args: seq<string>, errno0: int, dest0: map<Entity, Value>)
    requires ValidSpec(spec)
    ensures Final(spec, args, ScanEnd(spec, cb, args, 0, Init(errno0, dest0)), Run(spec, cb, args, errno0, dest0))
  {
    var s := Init(errno0, dest0);
    assert PositionalIndices(s.w.log) == [];
    RunFromOk(spec, cb, args, 0, s);
  }

  /** Completeness: in a final state, every token before the end that a
      flag takes got that flag's call with the token itself, and every token
      before the end that nothing names was given, as a value, to an option
      or a positional. */
  lemma ScannedTokensCalled(spec: ArgsSpec, args: seq<string>, e: nat, r: ScanState, t: nat)
    requires ValidSpec(spec) && Final(spec, args, e, r) && t < e
    ensures FindFlag(spec.flags, args[t]).Some? ==>
      exists j :: 0 <= j < |r.w.log|
                  && r.w.log[j] == Call(FlagAt(FindFlag(spec.flags, args[t]).value), args[t], None, t)
    ensures NamesNothing(spec, args[t]) ==>
      exists j :: 0 <= j < |r.w.log| && r.w.log[j].pos == t && r.w.log[j].arg == Some(args[t])
                  && !r.w.log[j].entity.FlagAt?
  {
    if !NamesOption(spec, args[t]) {
      assert t in Positions(r.w.log);
      var j :| 0 <= j < |r.w.log| && r.w.log[j].pos == t;
      assert CallFits(spec, args, r.w.log[j]);
    }
  }

  /** No option takes more values than its maximum: a call on option `k`
      took a token that follows the token opening the option with nothing
      but such values in between, at most the maximum away from it (reading
      `NONE` as one). */
  lemma OptionValuesWithinMax(spec: ArgsSpec, args: seq<string>, e: nat, r: ScanState, j: nat)
    requires ValidSpec(spec) && Final(spec, args, e, r) && j < |r.w.log| && r.w.log[j].entity.OptionAt?
    ensures var c := r.w.log[j];
      var n := spec.options[c.entity.index].numArgs;
      exists o :: 0 <= o < c.pos
        && args[o] == c.name && NamesOption(spec, c.name)
        && FindOption(spec.options, c.name) == Some(c.entity.index)
        && (forall q :: o < q <= c.pos ==> NamesNothing(spec, args[q]))
        && (MaxBound(n).Unbounded? || c.pos - o <= MaxBound(n).k || c.pos - o == 1)
  {
    assert CallFits(spec, args, r.w.log[j]);
    OptionCallWithinMax(spec, args, r.w.log[j]);
  }

  /** An option's call that fits the scan took a value within the option's
      maximum from the token that opened it. */
  lemma OptionCallWithinMax(spec: ArgsSpec, args: seq<string>, c: Call)
    requires ValidSpec(spec) && CallFits(spec, args, c) && c.entity.OptionAt?
    ensures var n := spec.options[c.entity.index].numArgs;
      exists o :: 0 <= o < c.pos
        && args[o] == c.name && NamesOption(spec, c.name)
        && FindOption(spec.options, c.name) == Some(c.entity.index)
        && (forall q :: o < q <= c.pos ==> NamesNothing(spec, args[q]))
        && (MaxBound(n).Unbounded? || c.pos - o <= MaxBound(n).k || c.pos - o == 1)
  {
    var o := LastNamed(spec, args, c.pos).value;
    assert ValuesAllowed(spec.options[c.entity.index].numArgs, c.pos - o);
  }

  /** An option keeps taking tokens while it is under its maximum: a
      scanned token that no flag or option accepts went to the option opened
      last, under the token that opened it, exactly when that option claims
      it, and to a positional otherwise. */
  lemma ScannedValueTaken(spec: ArgsSpec, args: seq<string>, e: nat, r: ScanState, p: nat)
    requires ValidSpec(spec) && Shape(spec, args, e, r) && p < e && NamesNothing(spec, args[p])
    ensures OptionClaims(spec, args, p) ==>
      var o := LastNamed(spec, args, p).value;
      exists j :: 0 <= j < |r.w.log|
        && r.w.log[j] == Call(OptionAt(FindOption(spec.options, args[o]).value), args[o], Some(args[p]), p)
    ensures !OptionClaims(spec, args, p) ==>
      exists j :: 0 <= j < |r.w.log| && r.w.log[j].pos == p && r.w.log[j].entity.PositionalAt?
                  && r.w.log[j].arg == Some(args[p])
  {
    assert p in Positions(r.w.log);
    var j :| 0 <= j < |r.w.log| && r.w.log[j].pos == p;
    assert CallFits(spec, args, r.w.log[j]);
  }

  /** A positional keeps taking tokens while it has room: when positional
      `k` took token `p` and the scan went on past the next token, which no
      flag or option accepts, that token is the next call, a positional's,
      and it went to `k` again exactly when `k` then held fewer values than
      its maximum. */
  lemma PositionalKeepsTokens(spec: ArgsSpec, args: seq<string>, e: nat, r: ScanState, j: nat)
    requires ValidSpec(spec) && Shape(spec, args, e, r) && j < |r.w.log| && r.w.log[j].entity.PositionalAt?
    requires r.w.log[j].pos + 1 < e && NamesNothing(spec, args[r.w.log[j].pos + 1])
    ensures var log := r.w.log;
      var k := log[j].entity.index;
      && j + 1 < |log| && log[j + 1].pos == log[j].pos + 1 && log[j + 1].entity.PositionalAt?
      && k < |spec.positionals|
      && (log[j + 1].entity == PositionalAt(k)
          <==> !OverOrEqMax(spec.positionals[k].numArgs, multiset(PositionalIndices(log[..j + 1]))[k]))
  {
    var m := ShapeParts(spec, args, e, r);
    RunsNextToken(spec, args, e, m, r.w.log, j);
  }

  /** The parts of a scan's shape that the lemmas about its tokens use. */
  lemma ShapeParts(spec: ArgsSpec, args: seq<string>, e: nat, r: ScanState) returns (m: nat)
    requires Shape(spec, args, e, r)
    ensures e <= |args| && LogFits(spec, args, r.w.log, m)
    ensures Covered(spec, args, r.w.log, e) && PositionalRuns(spec, r.w.log)
  {
    m := if e < |args| then e + 1 else e;
  }

  /** A positional's call in a log that fits the scan took a token that
      nothing names and no option claims. */
  lemma PositionalCallUnclaimed(spec: ArgsSpec, args: seq<string>, log: seq<Call>, m: nat, j: nat)
    requires LogFits(spec, args, log, m) && j < |log| && log[j].entity.PositionalAt?
    ensures log[j].pos < |args| && NamesNothing(spec, args[log[j].pos])
    ensures !OptionClaims(spec, args, log[j].pos) && log[j].entity.index < |spec.positionals|
  {
    assert CallFits(spec, args, log[j]);
  }

  /** A call in a log that fits the scan, on a token that nothing names
      and no option claims, is a positional's. */
  lemma UnclaimedCallIsPositional(spec: ArgsSpec, args: seq<string>, log: seq<Call>, m: nat, j: nat, q: nat)
    requires LogFits(spec, args, log, m) && j < |log| && log[j].pos == q
    requires q < |args| && NamesNothing(spec, args[q]) && !OptionClaims(spec, args, q)
    ensures log[j].entity.PositionalAt?
  {
    assert CallFits(spec, args, log[j]);
    if log[j].entity.OptionAt? {
      OpenedByClaims(spec, args, log[j]);
    }
  }

  /** In a log whose positions increase, the call on the token right after
      call `j`'s is call `j + 1`. */
  lemma NextCall(log: seq<Call>, j: nat, j': nat)
    requires PositionsIncreasing(log) && j < |log| && j' < |log| && log[j'].pos == log[j].pos + 1
    ensures j' == j + 1
  {
    assert j < j';
    assert log[j + 1].pos >= log[j'].pos;
  }

  /** The proof of `PositionalKeepsTokens`, from the parts of the final
      state it needs. */
  lemma RunsNextToken(spec: ArgsSpec, args: seq<string>, e: nat, m: nat, log: seq<Call>, j: nat)
    requires ValidSpec(spec) && e <= |args|
    requires LogFits(spec, args, log, m) && Covered(spec, args, log, e) && PositionalRuns(spec, log)
    requires j < |log| && log[j].entity.PositionalAt?
    requires log[j].pos + 1 < e && NamesNothing(spec, args[log[j].pos + 1])
    ensures var k := log[j].entity.index;
      && j + 1 < |log| && log[j + 1].pos == log[j].pos + 1 && log[j + 1].entity.PositionalAt?
      && k < |spec.positionals|
      && (log[j + 1].entity == PositionalAt(k)
          <==> !OverOrEqMax(spec.positionals[k].numArgs, multiset(PositionalIndices(log[..j + 1]))[k]))
  {
    NextTokenPositional(spec, args, e, m, log, j);
    RunAt(spec, log, j + 1);
  }

  /** The token after a positional's value, when nothing names it, was
      taken by the very next call, a positional's. */
  lemma NextTokenPositional(spec: ArgsSpec, args: seq<string>, e: nat, m: nat, log: seq<Call>, j: nat)
    requires ValidSpec(spec) && e <= |args|
    requires LogFits(spec, args, log, m) && Covered(spec, args, log, e)
    requires j < |log| && log[j].entity.PositionalAt?
    requires log[j].pos + 1 < e && NamesNothing(spec, args[log[j].pos + 1])
    ensures j + 1 < |log| && log[j + 1].pos == log[j].pos + 1 && log[j + 1].entity.PositionalAt?
    ensures log[j].entity.index < |spec.positionals|
  {
    CoveredAt(spec, args, log, e, j);
    NextIndex(log, j);
    NextCallPositional(spec, args, log, m, j);
  }

  /** A positional's call followed, on the next token, by a call on a
      token that nothing names: that call is a positional's too. */
  lemma NextCallPositional(spec: ArgsSpec, args: seq<string>, log: seq<Call>, m: nat, j: nat)
    requires ValidSpec(spec) && LogFits(spec, args, log, m)
    requires j + 1 < |log| && log[j].entity.PositionalAt? && log[j + 1].pos == log[j].pos + 1
    requires log[j].pos + 1 < |args| && NamesNothing(spec, args[log[j].pos + 1])
    ensures log[j + 1].entity.PositionalAt? && log[j].entity.index < |spec.positionals|
  {
    var p := log[j].pos;
    PositionalCallUnclaimed(spec, args, log, m, j);
    NextTokenUnclaimed(spec, args, p);
    UnclaimedCallIsPositional(spec, args, log, m, j + 1, p + 1);
  }

  /** An option that does not claim a token that nothing names does not
      claim the token after it either. */
  lemma NextTokenUnclaimed(spec: ArgsSpec, args: seq<string>, p: nat)
    requires ValidSpec(spec) && p + 1 < |args| && NamesNothing(spec, args[p]) && NamesNothing(spec, args[p + 1])
    requires !OptionClaims(spec, args, p)
    ensures !OptionClaims(spec, args, p + 1)
  {
    if OptionClaims(spec, args, p + 1) {
      OptionClaimsBefore(spec, args, p);
    }
  }

  /** A covered token that opens no option, here the one after call
      `j`'s, was given to a parser. */
  lemma CoveredAt(spec: ArgsSpec, args: seq<string>, log: seq<Call>, e: nat, j: nat)
    requires e <= |args| && Covered(spec, args, log, e) && j < |log|
    requires log[j].pos + 1 < e && NamesNothing(spec, args[log[j].pos + 1])
    ensures log[j].pos + 1 in Positions(log)
  {
  }

  /** In a log whose positions increase, the token after the one of call
      `j`, when some call took it, was taken by call `j + 1`. */
  lemma NextIndex(log: seq<Call>, j: nat)
    requires PositionsIncreasing(log) && j < |log| && log[j].pos + 1 in Positions(log)
    ensures j + 1 < |log| && log[j + 1].pos == log[j].pos + 1
  {
    var j' :| 0 <= j' < |log| && log[j'].pos == log[j].pos + 1;
    NextCall(log, j, j');
  }

  /** Two consecutive positional calls on consecutive tokens belong to the
      same positional exactly when it was still below its maximum. */
  lemma RunAt(spec: ArgsSpec, log: seq<Call>, j: nat)
    requires ValidSpec(spec) && PositionalRuns(spec, log)
    requires 0 < j < |log| && log[j].entity.PositionalAt? && log[j - 1].entity.PositionalAt?
    requires log[j - 1].pos + 1 == log[j].pos
    requires log[j - 1].entity.index < |spec.positionals|
    ensures var k := log[j - 1].entity.index;
      log[j].entity == PositionalAt(k)
      <==> !OverOrEqMax(spec.positionals[k].numArgs, multiset(PositionalIndices(log[..j]))[k])
  {
    assert LastCall(log[..j]) == log[j - 1];
  }

  // ---------------------------------------------------------------------
  // Plain tokens bind positionals in order
  // ---------------------------------------------------------------------

  /** Positionals that take exactly one value and store it as a string. */
  predicate PlainPositionals(spec: ArgsSpec) {
    forall k :: 0 <= k < |spec.positionals| ==>
      && spec.positionals[k].numArgs == DefaultArity
      && Resolve(spec.positionals[k].parser, ArgParseStr) == ArgParseStr
      && spec.positionals[k].hasDest
  }

  /** No token names a flag or an option. */
  predicate Unclaimed(spec: ArgsSpec, args: seq<string>) {
    forall j :: 0 <= j < |args| ==> FindFlag(spec.flags, args[j]).None? && FindOption(spec.options, args[j]).None?
  }

  /** The calls that bind token `k` to positional `k`, for `k < n`. */
  function PlainLog(spec: ArgsSpec, args: seq<string>, n: nat): (log: seq<Call>)
    requires n <= |args| && n <= |spec.positionals|
    ensures |log| == n
  {
    seq(n, k requires 0 <= k < n => Call(PositionalAt(k), spec.positionals[k].name, Some(args[k]), k))
  }

  /** The scan state after `i` plain tokens. */
  predicate PlainState(spec: ArgsSpec, args: seq<string>, i: nat, s: ScanState)
    requires i <= |args| == |spec.positionals|
  {
    && s.err == NoErr && s.option.None? && s.w.errno == 0
    && s.w.log == PlainLog(spec, args, i)
    && (forall k :: 0 <= k < i ==> PositionalAt(k) in s.w.dest && s.w.dest[PositionalAt(k)] == StrValue(args[k]))
    && if i == 0 then s.positional.None? && s.numPositionals == 0 && !s.preservePositional
       else s.positional == Some(i - 1) && s.numPositionals == i - 1
            && s.positionalArgCount == 1 && !s.preservePositional
  }

  lemma PlainStep(spec: ArgsSpec, cb: Callback, args: seq<string>, i: nat, s: ScanState)
    requires ValidSpec(spec) && PlainPositionals(spec) && Unclaimed(spec, args)
    requires i < |args| == |spec.positionals| && WellFormed(spec, s) && PlainState(spec, args, i, s)
    ensures Step(spec, cb, s, args[i], i).Continue?
    ensures PlainState(spec, args, i + 1, Step(spec, cb, s, args[i], i).st)
  {
    var t := ResetPositional(spec, s).st;
    assert ResetPositional(spec, s) == Continue(t);
    assert t.numPositionals == i && t.positional.None? && t.w == s.w;
    var u := ResetOption(spec, t).st;
    assert ResetOption(spec, t) == Continue(u);
    var p := spec.positionals[i];
    assert p.numArgs == DefaultArity && Resolve(p.parser, ArgParseStr) == ArgParseStr && p.hasDest;
    assert !FindFlag(spec.flags, args[i]).Some? && !FindOption(spec.options, args[i]).Some?;
    var w := Invoke(ArgParseStr, cb, PositionalAt(i), p.name, Some(args[i]), true, i, u.w);
    var v := u.(positional := Some(i), w := w, positionalArgCount := 1, preservePositional := false);
    assert w.errno == 0 && u.positionalArgCount == 0 && OverOrEqMax(p.numArgs, 1);
    assert Dispatch(spec, cb, u, args[i], i) == Continue(v);
    assert PlainLog(spec, args, i) + [Call(PositionalAt(i), p.name, Some(args[i]), i)] == PlainLog(spec, args, i + 1);
  }

  /** A scan that bound every token to its positional and nothing else. */
  predicate PlainResult(spec: ArgsSpec, args: seq<string>, r: ScanState)
    requires |args| <= |spec.positionals|
  {
    && r.err == NoErr && r.w.log == PlainLog(spec, args, |args|)
    && forall k :: 0 <= k < |args| ==> PositionalAt(k) in r.w.dest && r.w.dest[PositionalAt(k)] == StrValue(args[k])
  }

  lemma PlainFinish(spec: ArgsSpec, args: seq<string>, s: ScanState)
    requires ValidSpec(spec) && PlainPositionals(spec)
    requires |args| == |spec.positionals| && WellFormed(spec, s) && PlainState(spec, args, |args|, s)
    ensures PlainResult(spec, args, Finish(spec, s))
  {
    if s.positional.Some? {
      assert spec.positionals[s.positional.value].numArgs == DefaultArity;
      assert !UnderMin(DefaultArity, s.positionalArgCount);
    }
    assert Finish(spec, s).w == s.w;
  }

  lemma {:induction false} PlainRunFrom(spec: ArgsSpec, cb: Callback, args: seq<string>, i: nat, s: ScanState)
    requires ValidSpec(spec) && PlainPositionals(spec) && Unclaimed(spec, args)
    requires i <= |args| == |spec.positionals| && WellFormed(spec, s) && PlainState(spec, args, i, s)
    ensures PlainResult(spec, args, RunFrom(spec, cb, args, i, s))
    decreases |args| - i
  {
    if i < |args| {
      PlainStep(spec, cb, args, i, s);
      RunFromStep(spec, cb, args, i, s);
      PlainRunFrom(spec, cb, args, i + 1, Step(spec, cb, s, args[i], i).st);
    } else {
      PlainFinish(spec, args, s);
    }
  }

  /** With `errno` clear, tokens that name no flag or option are bound to
      single-valued string positionals one by one, in order: the scan
      reports no error, stores token `k` into positional `k`'s destination,
      and calls no other parser. */
  lemma PlainTokensBindInOrder(spec: ArgsSpec, cb: Callback, args: seq<string>, dest0: map<Entity, Value>)
    requires ValidSpec(spec) && PlainPositionals(spec) && Unclaimed(spec, args)
    requires |args| == |spec.positionals|
    ensures var r := Run(spec, cb, args, 0, dest0);
      && r.err == NoErr
      && r.w.log == PlainLog(spec, args, |args|)
      && forall k :: 0 <= k < |args| ==> PositionalAt(k) in r.w.dest && r.w.dest[PositionalAt(k)] == StrValue(args[k])
  {
    PlainRunFrom(spec, cb, args, 0, Init(0, dest0));
  }

  // ---------------------------------------------------------------------
  // An option's `stop` field is never read
  // ---------------------------------------------------------------------

  function ClearStop(o: ArgOption): (r: ArgOption) {
    o.(stop := false)
  }

  function ClearStops(options: seq<ArgOption>): (r: seq<ArgOption>)
    ensures |r| == |options|
    ensures forall k :: 0 <= k < |options| ==> r[k] == ClearStop(options[k])
  {
    seq(|options|, k requires 0 <= k < |options| => ClearStop(options[k]))
  }

  lemma {:induction false} FindOptionIgnoresStop(options: seq<ArgOption>, arg: string)
    ensures FindOption(ClearStops(options), arg) == FindOption(options, arg)
  {
    if options != [] {
      assert ClearStops(options)[1..] == ClearStops(options[1..]);
      FindOptionIgnoresStop(options[1..], arg);
    }
  }

  lemma ResetOptionIgnoresStop(spec: ArgsSpec, s: ScanState)
    requires ValidSpec(spec) && WellFormed(spec, s)
    ensures ValidSpec(spec.(options := ClearStops(spec.options)))
    ensures ResetOption(spec.(options := ClearStops(spec.options)), s) == ResetOption(spec, s)
  {
  }

  lemma DispatchIgnoresStop(spec: ArgsSpec, cb: Callback, s: ScanState, arg: string, pos: nat)
    requires ValidSpec(spec) && WellFormed(spec, s)
    ensures ValidSpec(spec.(options := ClearStops(spec.options)))
    ensures Dispatch(spec.(options := ClearStops(spec.options)), cb, s, arg, pos) == Dispatch(spec, cb, s, arg, pos)
  {
    FindOptionIgnoresStop(spec.options, arg);
  }

  lemma StepIgnoresStop(spec: ArgsSpec, cb: Callback, s: ScanState, arg: string, pos: nat)
    requires ValidSpec(spec) && WellFormed(spec, s)
    ensures ValidSpec(spec.(options := ClearStops(spec.options)))
    ensures Step(spec.(options := ClearStops(spec.options)), cb, s, arg, pos) == Step(spec, cb, s, arg, pos)
  {
    var spec' := spec.(options := ClearStops(spec.options));
    assert ResetPositional(spec', s) == ResetPositional(spec, s);
    match ResetPositional(spec, s)
    case Return(t) =>
    case Continue(t) =>
      ResetOptionIgnoresStop(spec, t);
      match ResetOption(spec, t)
      case Return(u) =>
      case Continue(u) =>
        DispatchIgnoresStop(spec, cb, u, arg, pos);
  }

  lemma {:induction false} RunFromIgnoresStop(spec: ArgsSpec, cb: Callback, args: seq<string>, i: nat, s: ScanState)
    requires ValidSpec(spec) && WellFormed(spec, s) && i <= |args|
    ensures ValidSpec(spec.(options := ClearStops(spec.options)))
    ensures RunFrom(spec.(options := ClearStops(spec.options)), cb, args, i, s) == RunFrom(spec, cb, args, i, s)
    decreases |args| - i
  {
    var spec' := spec.(options := ClearStops(spec.options));
    if i < |args| {
      StepIgnoresStop(spec, cb, s, args[i], i);
      RunFromStep(spec, cb, args, i, s);
      RunFromStep(spec', cb, args, i, s);
      if Step(spec, cb, s, args[i], i).Continue? {
        RunFromIgnoresStop(spec, cb, args, i + 1, Step(spec, cb, s, args[i], i).st);
      }
    } else {
      assert ValidSpec(spec');
    }
  }

  /** Setting `stop` on an option changes nothing: the scan never reads it,
      unlike a flag's. */
  lemma OptionStopIgnored(spec: ArgsSpec, cb: Callback, args: seq<string>, errno0: int, dest0: map<Entity, Value>)
    requires ValidSpec(spec)
    ensures ValidSpec(spec.(options := ClearStops(spec.options)))
    ensures Run(spec.(options := ClearStops(spec.options)), cb, args, errno0, dest0) == Run(spec, cb, args, errno0, dest0)
  {
    RunFromIgnoresStop(spec, cb, args, 0, Init(errno0, dest0));
  }
}
