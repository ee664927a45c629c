# libargs scanners in Dafny

libargs parses a C program's command line against a specification. The
specification lists positionals, flags and options. Each entity has a
destination and a parser callback, and options and positionals also have a
minimum and maximum value count. The library ships two independent scanners
over the token array `argv[1..]`:

- `argparse_array` in `argparse.c` matches each whole token against a flag's
  or option's pattern, name list or single name. It keeps one open positional
  and one open option across tokens, and it checks their minimum counts when
  they close or when the scan ends.
- `arg_parse_array` in `arg-parse.c` reads `--name` as a long name and `-name`
  as a short name. An option takes its values right away through
  `parse_option_args`, which stops at the maximum or at the first token
  starting with `-`. Every other token binds the next positional.

Both scanners report problems in an `ArgsError` record, and both call the
parsers, whose failures show up only in `errno`. arg-parse.c returns at its
first problem. argparse.c returns at most of them too, but a failing option
value is recorded and the scan goes on, so a later problem can replace it.

The model has seven modules:

- `ArgsDef` (`args_def.dfy`) holds what both scanners share:
  - value counts with their `NONE` and `INFINITE` sentinels;
  - `over_or_eq_max` and `under_min`, which are identical in both files;
  - the error record and `argserrortype__to_str`;
  - the three library parsers.
- `Argparse` (`argparse.dfy`) models `argparse.c`. The scan is a function
  (`Step`, `Finish`, `RunFrom`, `Run`). The methods `ArgparseArray` and
  `Argparse` keep the C loop and its local variables, and each is proved to
  compute `Run`.
- `ArgparseProperties` and `ArgparseScenarios` hold what is proved about that
  scan, in general and on worked inputs.
- `ArgParse` (`arg_parse.dfy`) models `arg-parse.c` the same way.
  `ParseOptionArgs` is a loop proved equal to the function `OptionArgsOf`, and
  `ArgParseArray` is a loop proved equal to `Run`.
- `ArgParseProperties` and `ArgParseScenarios` hold what is proved about it.

The parsers act on a `World` that has three parts:

- **Destinations:** a map from entity to value. `arg_set_true` and
  `arg_set_false` store a boolean there. `arg_parse_str` stores the token, or
  nothing when `argparse.c` gives it no destination.
- **`errno`:** an explicit integer. The scanners read it after every call, and
  the caller chooses its value at entry.
- **A log:** every parser call, with its entity, the name and token it got,
  and the position of the token being scanned.

A caller-supplied parser is a pure function of the entity, name and token. It
returns `Ok`, which leaves `errno` as it was, or `Fail(code)`, which sets it.
A parser that clears `errno` itself is not modelled (see "Left out").

## Model

| member | source | states |
|---|---|---|
| ArgsDef.OverOrEqMax | argparse.c:124-138 | true exactly when the maximum is a number and `count` has reached it. `NONE` counts as a maximum of 0, `0` as 1, and `INFINITE` is never reached. arg-parse.c:135-149 is the same function. |
| ArgsDef.UnderMin | argparse.c:141-153 | true exactly when `count` is below the minimum. `NONE` requires nothing and `0` counts as 1. arg-parse.c:152-164 is the same function. |
| ArgsDef.ArityMonotone | argparse.c:124-153 | reaching the maximum stays true as the count grows, and being under the minimum stays true as it shrinks |
| ArgsDef.DefaultArityIsExactlyOne | def/args-num.h:35-38 | counts left at `{0, 0}` mean exactly one value: under the minimum at 0, not at 1, and at the maximum from 1 on |
| ArgsDef.Ordinal | def/argserror.h:24-33 | each error kind's integer value is in 0..7, in declaration order |
| ArgsDef.ErrorTypeToStr | argparse.c:314-328 | the label is "unknown" exactly for values outside the enumeration. arg-parse.c:310-324 is the same table. |
| ArgsDef.ErrorLabelRoundTrip | argparse.c:314-328 | reading back a kind's label gives that kind, and no label of an out-of-range value reads back as a kind |
| ArgsDef.Invoke | argparse.c:30-64 | a parser call appends exactly its own call to the log |
| ArgsDef.InvokeEffect | argparse.c:30-64 | a call writes only its own entity's destination. `arg_set_true` and `arg_set_false` store their boolean. `arg_parse_str` stores the token, or nothing without a destination. Library parsers leave `errno` alone. A caller's parser sets `errno` exactly when it fails. |
| ArgsDef.PositionalIndicesAppend | argparse.c:264-278 | appending a call to the log extends the positional indices by that call's index when it went to a positional, and otherwise leaves them unchanged |
| Argparse.StrOneOf | argparse.c:67-81 | true exactly when the token is in the name list |
| Argparse.FindFlagFirstMatch | argparse.c:84-101 | `find_flag` returns a flag that accepts the token by pattern, name list or name, and no earlier flag accepts it. It returns nothing exactly when no flag accepts it. |
| Argparse.FindOptionFirstMatch | argparse.c:104-121 | the same for `find_option` over the options |
| Argparse.ResetPositional | argparse.c:193-206 | closing or keeping the open positional keeps the scan state well formed: the open positional is the next unbound one and the open option exists |
| Argparse.ResetOption | argparse.c:207-219 | closing or keeping the open option keeps the scan state well formed |
| Argparse.Dispatch | argparse.c:220-284 | classifying a token as a flag, an option name, an option value, a positional value or an unknown token keeps the scan state well formed |
| Argparse.Step | argparse.c:190-285 | one loop iteration keeps the scan state well formed |
| Argparse.ScanToken | argparse.c:190-285 | the loop body, run on the C locals, produces exactly `Step`'s outcome: whether it returns, and the state it leaves |
| Argparse.DispatchToken | argparse.c:220-284 | the classification statements produce exactly `Dispatch`'s outcome |
| Argparse.ArgparseArray | argparse.c:170-311 | the loop and the end-of-scan checks leave `*err` and the world exactly as `Run` says |
| Argparse.Argparse | argparse.c:156-167 | scans `argv[1..]`, with the result of `Run` on it |
| ArgparseProperties.StaircaseCovers | argparse.c:264-278 | positional indices that start at 0 and rise by at most one per call include every index up to the last one |
| ArgparseProperties.TrackedBound | argparse.c:193-205 | when the counters agree with the log, every positional before the current one has been called |
| ArgparseProperties.ResetPositionalOk | argparse.c:193-206 | closing the open positional returns exactly when the previous token did not continue it and it has fewer values than its minimum. It then reports `MISSING_ARG` naming that positional. Otherwise the world is unchanged and the invariant kept. A positional the previous token continued stays open with its count. Otherwise no positional is open, the count is 0, and the bound count grows by one when a positional was open. |
| ArgparseProperties.ResetOptionOk | argparse.c:207-219 | closing the open option returns exactly when the previous token did not continue it and it has fewer values than its minimum. It then reports `MISSING_OPTION_ARG` naming the option's opening token. Otherwise the world is unchanged and the token can be classified. An option the previous token continued stays open under the same opening token with its count. Otherwise no option is open and its count is 0. |
| ArgparseProperties.DispatchFlagOk | argparse.c:220-233 | a flag's parser is called once, on the token itself, with no value. The scan returns exactly when `errno` is then set or the flag has `stop`. A set `errno` is `PARSE_ARG` with that `errno` and the token, and otherwise there is no error. |
| ArgparseProperties.DispatchOptionNameOk | argparse.c:234-248 | no parser is called. The scan returns exactly when the option still open has fewer values than its minimum, with `MISSING_OPTION_ARG` naming its opening token. Otherwise the first option accepting the token is opened under it with no value yet, and it is kept open for the next token. |
| ArgparseProperties.DispatchOptionValueOk | argparse.c:249-262 | the open option's parser is called on the token, under the option's opening token, and the option's count grows by one. The scan always goes on, with `PARSE_ARG` carrying `errno` and the token recorded when `errno` is set. The option stays open for the next token exactly when its new count is below its maximum. |
| ArgparseProperties.BindTracked | argparse.c:263-278 | binding the token to positional `numPositionals` keeps the positional indices a staircase that ends at that positional |
| ArgparseProperties.DispatchBindOk | argparse.c:263-278 | positional `numPositionals`'s parser is called on the token under the positional's name. The scan returns exactly when `errno` is then set, with `PARSE_ARG` carrying `errno` and the token. Otherwise the positional is open with one more value, and it stays open for the next token exactly when its new count is below its maximum. |
| ArgparseProperties.DispatchUnknownOk | argparse.c:279-284 | a token that nothing takes, once every positional is bound and no option is open, returns `UNKNOWN_ARG` naming it, with nothing else changed |
| ArgparseProperties.StepOk | argparse.c:190-285 | one iteration keeps the invariant, and any error it returns means what its kind says |
| ArgparseProperties.FinishOk | argparse.c:286-310 | the world is unchanged. An open option under its minimum is reported first, as `MISSING_OPTION_ARG` naming its opening token. Next comes an open positional under its minimum, as `MISSING_ARG` naming it. Otherwise the error is `MISSING_ARG` for the first positional without a value, or stays as the loop left it. |
| ArgparseProperties.RunFromOk | argparse.c:190-311 | the scan from any state that keeps the invariant ends with the outcome guarantees |
| ArgparseProperties.RunOutcome | argparse.c:170-311 | the scan ends at some token `e` or past the last one. Every parser call fits its token and is the only call on it, in token order, and no call comes after `e`. Every token before `e` got its call or opened an option, and none of them is a stop flag. Positionals are bound in declaration order, and no positional takes more values than its maximum. No positional's call is on a token that the option opened last still claims, that is, a token within that option's maximum of its opening token with only values in between. Consecutive tokens given to positionals go to the same positional exactly while it is below its maximum. `PARSE_ARG` names the token of the last call and carries the current `errno`. No error means every positional was bound, or the scan ended at a stop flag whose call was the last one. `UNKNOWN_ARG` names a token that nothing names and that neither an open option nor the last positional claims. The other kinds name the token or entity they are about. |
| ArgparseProperties.ScannedTokensCalled | argparse.c:220-278 | every token before the end that names a flag got that flag's call on it. Every token before the end that names nothing was given, as a value, to an option or a positional. |
| ArgparseProperties.ScannedValueTaken | argparse.c:193-278 | a token before the end that names nothing went to the option opened last, under its opening token, whenever that option still claims it. Otherwise it went to a positional. |
| ArgparseProperties.PositionalKeepsTokens | argparse.c:193-206 | when a positional took a token and the next token, before the end, names nothing, that token went to a positional in the very next call. It went to the same positional exactly when that positional was below its maximum (argparse.c:274-276). |
| ArgparseProperties.OptionValuesWithinMax | argparse.c:249-262 | every option call took a value after the token that opened the option, with only values in between. It is at most the option's maximum away from that token, reading `NONE` as one. |
| ArgparseProperties.PlainStep | argparse.c:263-278 | with `errno` clear, a token that names nothing binds the next single-valued positional and leaves the scan on the next one |
| ArgparseProperties.PlainFinish | argparse.c:294-310 | once every positional holds one plain token, the end-of-scan checks report no error |
| ArgparseProperties.PlainRunFrom | argparse.c:190-311 | plain tokens keep binding positionals in order until the scan ends |
| ArgparseProperties.PlainTokensBindInOrder | argparse.c:263-278 | with `errno` clear, plain tokens bind single-valued positionals one each, in order. There is no error, token `k` is stored into positional `k`, and no other parser is called. |
| ArgparseProperties.FindOptionIgnoresStop | argparse.c:104-121 | `find_option` does not depend on `stop` |
| ArgparseProperties.ResetOptionIgnoresStop | argparse.c:207-219 | closing an option does not depend on `stop` |
| ArgparseProperties.DispatchIgnoresStop | argparse.c:234-262 | classifying a token does not depend on any option's `stop` |
| ArgparseProperties.StepIgnoresStop | argparse.c:190-285 | an iteration does not depend on any option's `stop` |
| ArgparseProperties.RunFromIgnoresStop | argparse.c:190-311 | the rest of a scan does not depend on any option's `stop` |
| ArgparseProperties.OptionStopIgnored | argparse.c:234-262 | setting `stop` on options never changes the scan: an option's `stop` is never read, unlike a flag's (argparse.c:231) |
| ArgparseScenarios.AllKinds | argparse.c:170-311 | `--verbose --count 3 alice` sets the flag, stores `3` into the option and `alice` into the positional, with no error |
| ArgparseScenarios.OptionWithoutValue | argparse.c:286-293 | `alice --count` ends with `MISSING_OPTION_ARG` naming `--count` |
| ArgparseScenarios.NoTokens | argparse.c:304-310 | an empty command line reports the positional `name` as missing |
| ArgparseScenarios.ExtraToken | argparse.c:279-284 | `alice bob` reports `bob` as unknown |
| ArgparseScenarios.StaleErrnoFailsParser | argparse.c:264-273 | a non-zero `errno` at entry makes the first positional's successful parse report `PARSE_ARG` with that value |
| ArgparseScenarios.OptionValueFailureContinues | argparse.c:250-262 | a rejected option value does not stop the scan. A later `MISSING_OPTION_ARG` replaces the recorded `PARSE_ARG`. |
| ArgparseScenarios.FailedValueErrnoCarriesOver | argparse.c:250-273 | after a rejected option value, the next positional is stored and then reported as `PARSE_ARG` with the leftover `errno` |
| ArgparseScenarios.DashValueAccepted | argparse.c:249-262 | `-5`, which names nothing, is taken as the option's value |
| ArgparseScenarios.NoneMaximumTakesOneValue | argparse.c:258-260 | an option whose maximum is `NONE` still takes one value, because the maximum is checked only after a value is taken |
| ArgparseScenarios.OptionTakesUpToMax | argparse.c:249-262 | with a maximum of two, `--count 1 2 alice` gives both values to the option, which stores `2`, and binds `alice`, with no error |
| ArgparseScenarios.OptionKeepsPositionalsToken | argparse.c:257-260 | with a maximum of two, `--count a b` gives both tokens to the option, so the positional `name` is reported missing |
| ArgparseScenarios.PositionalTakesUpToMax | argparse.c:274-276 | a first positional with a maximum of two takes `a` and `b`, and `c` goes to the second positional, with no error |
| ArgparseScenarios.PositionalKeepsNextToken | argparse.c:274-276 | with `a b`, the first positional takes both tokens, so the second positional `other` is reported missing |
| ArgparseScenarios.StopFlagEndsScan | argparse.c:231-232 | a `stop` flag ends the scan after its own call: the tokens after it are not looked at, and neither the extra token nor the unbound positional is reported |
| ArgParse.FindFirstIsFirst | arg-parse.c:72-79 | the generic first-match search returns an accepted element, and no earlier element is accepted |
| ArgParse.FindFlagLongMatch | arg-parse.c:65-80 | the first flag whose long pattern or long name accepts the name, and nothing exactly when none does |
| ArgParse.FindOptionLongMatch | arg-parse.c:83-98 | the first option whose long pattern or long name accepts the name, and nothing exactly when none does |
| ArgParse.FindFlagShortMatch | arg-parse.c:101-115 | the first flag whose short name equals the name, and nothing exactly when none does |
| ArgParse.FindOptionShortMatch | arg-parse.c:118-132 | the first option whose short name equals the name, and nothing exactly when none does |
| ArgParse.OptionArgsFrom | arg-parse.c:167-200 | every value taken is free of `-` and under the maximum. Taking stops at the end of the tokens, at the maximum, or at a `-` token. `MISSING_OPTION_ARG` names the option and is reported exactly when the count is under the minimum. `PARSE_ARG` carries the non-zero `errno` and the failing value. |
| ArgParse.OptionArgsCalls | arg-parse.c:176-194 | the option's parser is called once per value taken, in order, plus once on the failing value. `errno` stays clear when none fails. |
| ArgParse.ValueCallsAt | arg-parse.c:186-187 | the `m`-th value call is on the `m`-th token after the option, at that token's position |
| ArgParse.OptionArgsWithinMax | arg-parse.c:176-185 | no more values than the maximum are taken, counting a failing one. With maximum `NONE`, nothing is taken and no parser is called. |
| ArgParse.ParseOptionArgs | arg-parse.c:167-200 | the loop with its breaks and early return computes exactly `OptionArgsOf`: the count, the error and the world |
| ArgParse.FlagStep | arg-parse.c:233-243 | a flag never binds a positional, and the scan continues with the next token |
| ArgParse.OptionStep | arg-parse.c:248-253 | an option never binds a positional, and the scan continues after its values |
| ArgParse.PositionalStep | arg-parse.c:284-301 | binds at most the next positional and continues with the next token |
| ArgParse.Step | arg-parse.c:225-302 | the positional counter stays in range, and a continuing iteration moves forward within the tokens |
| ArgParse.ParseFlag | arg-parse.c:233-243 | the flag branch on the C locals produces exactly `FlagStep`'s outcome |
| ArgParse.ParseOption | arg-parse.c:248-253 | the option branch produces exactly `OptionStep`'s outcome, including the advanced index |
| ArgParse.ScanToken | arg-parse.c:225-302 | the loop body produces exactly `Step`'s outcome |
| ArgParse.ArgParseArray | arg-parse.c:216-307 | the loop and the final check leave `*err` and the world exactly as `Run` says |
| ArgParse.ArgParse | arg-parse.c:203-213 | scans `argv[1..]`, with the result of `Run` on it |
| ArgParseProperties.ValueCallsSkipPositionals | arg-parse.c:176-194 | an option's value calls leave the positional indices unchanged |
| ArgParseProperties.PlainToken | arg-parse.c:228-284 | a token without `-` names no flag or option and keeps its whole text as its name |
| ArgParseProperties.FlagOk | arg-parse.c:228-243 | a flag's parser is called once, with no value, under the token's name without its prefix. The scan returns exactly when `errno` is then set or the flag has `stop`. A set `errno` is `PARSE_ARG` with that `errno` and the whole token, and otherwise there is no error. A continuing scan goes on at the next token. arg-parse.c:256-272 is the same for `-`. |
| ArgParseProperties.OptionValuesFit | arg-parse.c:176-194 | an option's value calls are made on the tokens right after it, in order: one per value taken, plus the failing one. Every token handed to the parser lacks a `-` prefix and sits below the option's maximum. No positional is called. A failing value is the last call. When no value fails, `errno` is left clear. |
| ArgParseProperties.ValuesFit | arg-parse.c:178-187 | those value calls fit the scan: each is on its own token under the option's name, after the opening token. They cover the values taken, and nothing but the option's values follows the opening token. |
| ArgParseProperties.OptionStepOk | arg-parse.c:245-253 | the log grows by exactly the option's value calls, and the error is the one `parse_option_args` reports. The scan returns exactly when that error is set or the option has `stop`. Otherwise it goes on after the last value. arg-parse.c:273-282 is the same for `-`. |
| ArgParseProperties.OptionOk | arg-parse.c:245-282 | a `--` or `-` token that names an option is handled by that option's step, under the token's name without its prefix. The invariant is kept, or the scan returns with the final guarantees. |
| ArgParseProperties.PositionalBindOk | arg-parse.c:284-296 | positional `npos`'s parser is called on the token under the positional's name. The scan returns exactly when `errno` is then set, with `PARSE_ARG` carrying `errno` and the token. Otherwise it goes on at the next token with `npos` one higher. |
| ArgParseProperties.PositionalUnknownOk | arg-parse.c:297-301 | a plain token after every positional is bound returns `UNKNOWN_ARG` naming it, with nothing else changed |
| ArgParseProperties.PlainOk | arg-parse.c:284-301 | one iteration on a token without `-` keeps the invariant or ends with a guaranteed outcome |
| ArgParseProperties.UnknownOk | arg-parse.c:297-301 | a `-` token that names no flag or option returns `UNKNOWN_ARG` naming it, even while positionals remain, with nothing else changed |
| ArgParseProperties.StepOk | arg-parse.c:225-302 | one iteration keeps the invariant, or it returns with the final guarantees |
| ArgParseProperties.RunFromOk | arg-parse.c:225-306 | the scan from any state that keeps the invariant ends with the final guarantees |
| ArgParseProperties.RunOutcome | arg-parse.c:216-307 | the scan ends at some token `e` or past the last one. Every parser call fits its token, at most one per token, in token order. Only the values of an option named at `e` come after `e`. Every token before `e` got its call or named an option, and none of them stops the scan. Positionals are called as `0..npos` in order, plus `npos` when its parser failed. `PARSE_ARG` names the token of the last call and carries the current `errno`. No error means every positional was bound and the scan reached the end, or it ended at a stop token. At a flag, that flag's call is the last one. `UNKNOWN_ARG`, `MISSING_ARG` and `MISSING_OPTION_ARG` name the token or positional they are about. |
| ArgParseProperties.FinishOk | arg-parse.c:303-306 | the world is unchanged. The first positional left unbound is `MISSING_ARG` naming it, and otherwise there is no error. |
| ArgParseProperties.ScannedTokensCalled | arg-parse.c:228-295 | every token before the end that names a flag got that flag's call. Every token before the end without `-` was given, as a value, to an option or a positional. |
| ArgParseProperties.PlainStep | arg-parse.c:284-295 | with `errno` clear, a token without `-` binds the next string positional and the scan goes on at the next token |
| ArgParseProperties.PlainRunFrom | arg-parse.c:225-306 | tokens without `-` keep binding string positionals in order until the tokens run out |
| ArgParseProperties.PlainTokensBindInOrder | arg-parse.c:284-306 | with `errno` clear, tokens without `-` bind string positionals one each, in order. Token `k` is stored into positional `k` and no other parser is called. There is no error when every positional got a token, which includes empty input with no positionals. Otherwise `MISSING_ARG` names the first positional left over. |
| ArgParseScenarios.AllKinds | arg-parse.c:216-307 | `-v --count 3 alice` sets the flag, stores `3` and `alice`, and calls the three parsers in that order |
| ArgParseScenarios.OptionWithoutValue | arg-parse.c:195-198 | an option named last without a value is `MISSING_OPTION_ARG` under its name without the prefix |
| ArgParseScenarios.DashValueRejected | arg-parse.c:183-185 | `-5` after `-c` is not taken as a value, so the option's value is missing |
| ArgParseScenarios.DashTokenUnknown | arg-parse.c:256-282 | a dash token that names nothing is `UNKNOWN_ARG` |
| ArgParseScenarios.PrefixSelectsNames | arg-parse.c:228-282 | a long name after `-` and a short name after `--` are both unknown |
| ArgParseScenarios.NoTokens | arg-parse.c:303-306 | an empty command line reports the positional `name` as missing |
| ArgParseScenarios.ExtraToken | arg-parse.c:297-301 | a plain token after the last positional is unknown |
| ArgParseScenarios.StopFlagEndsScan | arg-parse.c:242 | a `stop` flag ends the scan at once, with no error and no later call |
| ArgParseScenarios.NoneMaximumTakesNothing | arg-parse.c:179-181 | an option whose maximum is `NONE` takes no value, and the next token binds the positional |
| ArgParseScenarios.BoundedOptionStopsAtMax | arg-parse.c:176-194 | with at most 4 values, the fifth token goes to the positional |
| ArgParseScenarios.StaleErrno | arg-parse.c:176 | a non-zero `errno` at entry fails the first positional, unless an option's value parsing cleared it first |

## Left out

- Value conversion beyond the three library parsers: a caller's parser is
  only logged and may fail with an `errno` code. A parser that writes its
  destination, or that keeps state between calls, is not modelled.
- Pattern callbacks (`pattern`, `long_pattern`) are pure predicates on the
  name.
- `argparse.h`, `arg-parse.h`, `def/argsspec.h` and `examples/demo.c` only
  declare, lay out or exercise the core. The demo program's printing and exit
  codes are not part of this model.
- The `strm` field of `ArgsError` is never set by either scanner and is not
  modelled. The null `str` of the `NONE` state is the empty string.
- Integer widths: `types.h` declares the counts of arg-parse.c as `size_t`.
  The model reads every count as an unbounded integer with the sentinels `-1`
  and `-2` of `def/args-num.h`, so wrap-around of the unsigned fields is not
  captured.
- The C `ASSERT`s become preconditions. The model requires them of every
  entity of the specification (`ValidSpec`), not only of the entities a scan
  reaches:
  - value counts are `NONE`, `INFINITE` or non-negative;
  - `arg_set_true` and `arg_set_false` have a destination;
  - arg-parse.c's `arg_parse_str` has a destination.
- Pointers and aliasing: entities are named by kind and declaration index,
  and destinations are a map from those names. Two entities that share one
  destination pointer are not modelled.
- The position of the token in each logged call exists only in the model, to
  state call order.
- A caller's parser that clears `errno` itself, as a `strtol`-style
  parser does with `errno = 0`, is not modelled. `Ok` always leaves `errno`
  as it was. With such a parser, a stale `errno` from before the call or
  from a failed option value would no longer fail later parsers. The
  scenarios `ArgparseScenarios.StaleErrnoFailsParser`,
  `ArgparseScenarios.FailedValueErrnoCarriesOver` and
  `ArgParseScenarios.StaleErrno` show the behaviour for parsers that leave
  `errno` alone.
- ArgParse.Step: its own contract states only the bounds the scan needs.
  What each branch does is stated by `ArgParseProperties.FlagOk`,
  `ArgParseProperties.OptionOk`, `ArgParseProperties.PositionalBindOk`,
  `ArgParseProperties.PositionalUnknownOk` and `ArgParseProperties.UnknownOk`.
- ArgParse.FlagStep: its own contract states only that the positional count
  is unchanged. The call made, the error and whether the scan returns are
  stated by `ArgParseProperties.FlagOk`.
- ArgParse.OptionStep: its own contract states only the bounds the scan
  needs. The calls made, the error and whether the scan returns are stated
  by `ArgParseProperties.OptionStepOk`.
- ArgParse.PositionalStep: its own contract states only the bounds the scan
  needs. The call made, the error and whether the scan returns are stated by
  `ArgParseProperties.PositionalBindOk` and
  `ArgParseProperties.PositionalUnknownOk`.
- Argparse.ResetPositional: its own contract states only well-formedness.
  `ArgparseProperties.ResetPositionalOk` states when it returns and with
  which error. It also states what a continuing call leaves: a preserved
  positional with its count, or a closed one with the bound count advanced.
- Argparse.ResetOption: its own contract states only well-formedness.
  `ArgparseProperties.ResetOptionOk` states when it returns and with which
  error. It also states what a continuing call leaves: a preserved option
  under its opening token with its count, or no open option.
- Argparse.Dispatch: its own contract states only well-formedness. The call
  made, the error and whether the scan returns are stated, branch by branch,
  by `ArgparseProperties.DispatchFlagOk`,
  `ArgparseProperties.DispatchOptionNameOk`,
  `ArgparseProperties.DispatchOptionValueOk`,
  `ArgparseProperties.DispatchBindOk` and
  `ArgparseProperties.DispatchUnknownOk`.
- Argparse.Step: its own contract states only well-formedness. Its result is
  stated by `ArgparseProperties.StepOk` and the `Dispatch...Ok` lemmas.
