/** Definitions shared by both scanners of libargs: argument counts with their
    sentinels, the error record and its labels, and the parser callbacks that
    the scanners invoke on the caller's destinations. */
module ArgsDef {

  datatype Option<+T> = None | Some(value: T)

  // ---------------------------------------------------------------------
  // Argument counts (def/args-num.h)
  // ---------------------------------------------------------------------

  /** `ArgsNum_NONE`: the bound is absent. */
  const NONE: int := -1
  /** `ArgsNum_INFINITE`: there is no upper bound. */
  const INFINITE: int := -2

  /** A (min, max) pair of value counts. `0` in either field is read as `1`,
      so that an entity whose counts are left out takes exactly one value. */
  datatype ArgsNum = ArgsNum(min: int, max: int)

  /** The arity used when the counts are left out: `{ 0, 0 }`. */
  const DefaultArity: ArgsNum := ArgsNum(0, 0)

  /** The values the arity helpers accept: any other negative value fails
      their assertion that the field is non-negative. */
  predicate ValidArgsNum(n: ArgsNum) {
    n.min >= NONE && n.max >= INFINITE
  }

  /** The sentinel-free reading of a maximum: at most `k` values, or no limit. */
  datatype Bound = AtMost(k: nat) | Unbounded

  /** What a maximum means: `NONE` admits no value at all, `INFINITE` any
      number, `0` exactly one, and any other value itself. */
  function MaxBound(n: ArgsNum): (b: Bound)
    requires n.max >= INFINITE
    ensures b.Unbounded? <==> n.max == INFINITE
  {
    if n.max == INFINITE then Unbounded
    else if n.max == NONE then AtMost(0)
    else if n.max == 0 then AtMost(1)
    else AtMost(n.max)
  }

  /** What a minimum means: `NONE` requires nothing, `0` one value, and any
      other value itself. */
  function MinRequired(n: ArgsNum): (m: nat)
    requires n.min >= NONE
  {
    if n.min == NONE then 0 else if n.min == 0 then 1 else n.min
  }

  /** `over_or_eq_max`: has an entity that holds `count` values reached its
      maximum? */
  function OverOrEqMax(n: ArgsNum, count: nat): (r: bool)
    requires n.max >= INFINITE
    ensures r <==> MaxBound(n).AtMost? && count >= MaxBound(n).k
    ensures n.max == NONE ==> r
    ensures n.max == INFINITE ==> !r
  {
    if n.max == NONE then true
    else if n.max == INFINITE then false
    else
      var max := if n.max == 0 then 1 else n.max;
      count >= max
  }

  /** `under_min`: does an entity that holds `count` values still lack some? */
  function UnderMin(n: ArgsNum, count: nat): (r: bool)
    requires n.min >= NONE
    ensures r <==> count < MinRequired(n)
    ensures n.min == NONE ==> !r
  {
    if n.min == NONE then false
    else
      var min := if n.min == 0 then 1 else n.min;
      count < min
  }

  /** Both helpers are monotone in the count: once the maximum is reached it
      stays reached, and once the minimum is met it stays met. */
  lemma ArityMonotone(n: ArgsNum, c1: nat, c2: nat)
    requires ValidArgsNum(n) && c1 <= c2
    ensures OverOrEqMax(n, c1) ==> OverOrEqMax(n, c2)
    ensures UnderMin(n, c2) ==> UnderMin(n, c1)
  {
  }

  /** With the counts left out, an entity takes exactly one value: zero
      values are too few and one value reaches the maximum. */
  lemma DefaultArityIsExactlyOne()
    ensures UnderMin(DefaultArity, 0) && !UnderMin(DefaultArity, 1)
    ensures !OverOrEqMax(DefaultArity, 0) && OverOrEqMax(DefaultArity, 1)
  {
  }

  // ---------------------------------------------------------------------
  // Errors (def/argserror.h)
  // ---------------------------------------------------------------------

  /** `enum ArgsErrorType`. */
  datatype ErrorType =
    | NoError | Error | MissingArg | ParseArg | UnknownArg
    | MissingOptionArg | InconsistentArg | SystemError

  /** The enumerator's integer value, in declaration order from `0`. */
  function Ordinal(t: ErrorType): (n: int)
    ensures 0 <= n < 8
  {
    match t
    case NoError => 0
    case Error => 1
    case MissingArg => 2
    case ParseArg => 3
    case UnknownArg => 4
    case MissingOptionArg => 5
    case InconsistentArg => 6
    case SystemError => 7
  }

  /** `ArgsError`: the error kind, the `errno` value of a failed parser, and
      the offending token or entity name (the empty string stands for the
      null pointer of the `NONE` state). */
  datatype ArgsError = ArgsError(kind: ErrorType, error: int, str: string)

  /** The state every scan starts in. */
  const NoErr: ArgsError := ArgsError(NoError, 0, "")

  /** The kinds the scanners themselves report; the others are reserved for
      callers. */
  predicate ScanKind(t: ErrorType) {
    t.NoError? || t.MissingArg? || t.ParseArg? || t.UnknownArg? || t.MissingOptionArg?
  }

  /** `argserrortype__to_str`: the label of an error kind, given as the
      enumeration's integer value. */
  function ErrorTypeToStr(t: int): (s: string)
    ensures s == "unknown" <==> t < 0 || 8 <= t
  {
    if t == 0 then "none"
    else if t == 1 then "error"
    else if t == 2 then "missing argument"
    else if t == 3 then "parse argument"
    else if t == 4 then "unknown argument"
    else if t == 5 then "missing option argument"
    else if t == 6 then "inconsistent argument"
    else if t == 7 then "system error"
    else "unknown"
  }

  /** Reading a label back: the partner of `ErrorTypeToStr`. */
  function ErrorTypeOfStr(s: string): (r: Option<ErrorType>) {
    if s == "none" then Some(NoError)
    else if s == "error" then Some(Error)
    else if s == "missing argument" then Some(MissingArg)
    else if s == "parse argument" then Some(ParseArg)
    else if s == "unknown argument" then Some(UnknownArg)
    else if s == "missing option argument" then Some(MissingOptionArg)
    else if s == "inconsistent argument" then Some(InconsistentArg)
    else if s == "system error" then Some(SystemError)
    else None
  }

  /** Every kind's label names that kind and no other, and no value outside
      the enumeration is mistaken for one. */
  lemma ErrorLabelRoundTrip(t: ErrorType, n: int)
    ensures ErrorTypeOfStr(ErrorTypeToStr(Ordinal(t))) == Some(t)
    ensures (n < 0 || 8 <= n) ==> ErrorTypeOfStr(ErrorTypeToStr(n)) == None
  {
  }

  // ---------------------------------------------------------------------
  // Parser callbacks and the state they act on
  // ---------------------------------------------------------------------

  /** An entity of a specification, by its kind and its declaration index. */
  datatype Entity = PositionalAt(index: nat) | FlagAt(index: nat) | OptionAt(index: nat)

  /** A value written into a destination by one of the library's parsers. */
  datatype Value = BoolValue(b: bool) | StrValue(s: string)

  /** A non-zero `errno` value. */
  type ErrnoCode = c: int | c != 0 witness 1

  /** What a caller-supplied parser reports: success, which leaves `errno`
      as it was, or failure, which sets `errno` to a non-zero code. */
  datatype Status = Ok | Fail(code: ErrnoCode)

  /** The caller-supplied parsers, as one function of the entity they belong
      to, the name they are given and the token (absent for flags). */
  type Callback = (Entity, string, Option<string>) -> Status

  /** The parser field of an entity: absent (`NULL`), one of the library's
      own parsers, or a caller-supplied one. */
  datatype ParserFn = DefaultParser | ArgParseStr | ArgSetTrue | ArgSetFalse | Custom

  /** The parser that is called: the field, or the scanner's fallback when
      the field is absent. */
  function Resolve(p: ParserFn, fallback: ParserFn): (r: ParserFn) {
    if p.DefaultParser? then fallback else p
  }

  /** One parser invocation: which entity's parser, with which name and
      token, and the position of the token being scanned. */
  datatype Call = Call(entity: Entity, name: string, arg: Option<string>, pos: nat)

  /** Everything outside the scanner that a parser invocation touches: the
      destinations, `errno`, and the log of invocations so far. */
  datatype World = World(dest: map<Entity, Value>, errno: int, log: seq<Call>)

  /** What the assertions of the library's parsers demand: `arg_set_true`
      and `arg_set_false` need a destination; `arg_parse_str` needs a token
      and, when `strictStr` holds, also a destination. */
  predicate CanInvoke(p: ParserFn, hasArg: bool, hasDest: bool, strictStr: bool) {
    && !p.DefaultParser?
    && ((p.ArgSetTrue? || p.ArgSetFalse?) ==> hasDest)
    && (p.ArgParseStr? ==> hasArg && (strictStr ==> hasDest))
  }

  /** Invokes parser `p` of entity `e` with `name` and `arg`: the library's
      parsers write the destination and never touch `errno`; a caller's
      parser may fail, setting `errno`. Every invocation is logged. */
  function Invoke(p: ParserFn, cb: Callback, e: Entity, name: string, arg: Option<string>,
                  hasDest: bool, pos: nat, w: World): (r: World)
    requires !p.DefaultParser? && (p.ArgParseStr? ==> arg.Some?)
    ensures r.log == w.log + [Call(e, name, arg, pos)]
  {
    var log := w.log + [Call(e, name, arg, pos)];
    match p
    case ArgParseStr =>
      World(if hasDest then w.dest[e := StrValue(arg.value)] else w.dest, w.errno, log)
    case ArgSetTrue => World(w.dest[e := BoolValue(true)], w.errno, log)
    case ArgSetFalse => World(w.dest[e := BoolValue(false)], w.errno, log)
    case Custom =>
      match cb(e, name, arg)
      case Ok => World(w.dest, w.errno, log)
      case Fail(c) => World(w.dest, c, log)
  }

  /** A parser invocation writes at most the destination of its own entity;
      the library's parsers write it as their names say and leave `errno`
      alone, and a caller's parser changes `errno` exactly when it fails. */
  lemma InvokeEffect(p: ParserFn, cb: Callback, e: Entity, name: string, arg: Option<string>,
                     hasDest: bool, pos: nat, w: World)
    requires !p.DefaultParser? && (p.ArgParseStr? ==> arg.Some?)
    ensures var r := Invoke(p, cb, e, name, arg, hasDest, pos, w);
      && (forall x :: x != e ==> (x in r.dest <==> x in w.dest))
      && (forall x :: x != e && x in w.dest ==> r.dest[x] == w.dest[x])
      && (p.ArgSetTrue? ==> r.dest == w.dest[e := BoolValue(true)])
      && (p.ArgSetFalse? ==> r.dest == w.dest[e := BoolValue(false)])
      && (p.ArgParseStr? && hasDest ==> r.dest == w.dest[e := StrValue(arg.value)])
      && (p.ArgParseStr? && !hasDest ==> r.dest == w.dest)
      && (p.Custom? ==> r.dest == w.dest)
      && (!p.Custom? ==> r.errno == w.errno)
      && (p.Custom? ==> r.errno == (match cb(e, name, arg) case Ok => w.errno case Fail(c) => c))
  {
  }

  /** Once `errno` is set, no parser call clears it: the library's parsers
      leave it alone, and a caller's parser either keeps it or sets another
      non-zero code. */
  lemma InvokeErrnoSticky(p: ParserFn, cb: Callback, e: Entity, name: string, arg: Option<string>,
                          hasDest: bool, pos: nat, w: World)
    requires !p.DefaultParser? && (p.ArgParseStr? ==> arg.Some?)
    ensures w.errno != 0 ==> Invoke(p, cb, e, name, arg, hasDest, pos, w).errno != 0
    ensures Invoke(p, cb, e, name, arg, hasDest, pos, w).errno == 0 ==> w.errno == 0
  {
    InvokeEffect(p, cb, e, name, arg, hasDest, pos, w);
  }

  // ---------------------------------------------------------------------
  // Views of the invocation log
  // ---------------------------------------------------------------------

  /** The declaration indices of the positionals the logged calls went to,
      in call order. */
  function PositionalIndices(log: seq<Call>): (r: seq<nat>)
    ensures |r| <= |log|
  {
    if log == [] then []
    else
      var rest := PositionalIndices(log[..|log| - 1]);
      var c := log[|log| - 1];
      if c.entity.PositionalAt? then rest + [c.entity.index] else rest
  }

  /** The positional indices of a log grow by the new call's index, if it
      went to a positional. */
  lemma PositionalIndicesAppend(log: seq<Call>, c: Call)
    ensures PositionalIndices(log + [c])
         == PositionalIndices(log) + (if c.entity.PositionalAt? then [c.entity.index] else [])
  {
    assert (log + [c])[..|log + [c]| - 1] == log;
  }

  /** The scan positions of the tokens that the logged calls were given. */
  function Positions(log: seq<Call>): (ps: set<nat>) {
    set j | 0 <= j < |log| :: log[j].pos
  }

  /** A call adds its own position to those of a log. */
  lemma PositionsAppend(log: seq<Call>, c: Call)
    ensures Positions(log + [c]) == Positions(log) + {c.pos}
  {
    var l := log + [c];
    assert l[|log|] == c;
    forall t | t in Positions(log) ensures t in Positions(l) {
      var j :| 0 <= j < |log| && log[j].pos == t;
      assert l[j] == log[j];
    }
  }

  /** The tokens of a log are taken from strictly increasing scan positions. */
  predicate PositionsIncreasing(log: seq<Call>) {
    forall a, b :: 0 <= a < b < |log| ==> log[a].pos < log[b].pos
  }
}
