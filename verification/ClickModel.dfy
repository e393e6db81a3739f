/**
 Command-line options as functions of the parsing state: what one option, one word and the whole option loop do.
 */
module ClickModel {
  import opened Options
  import U = ClickUnpack

  // ----- values and errors -----

  /** `ProgramError` stands for the TypeError, ValueError, AttributeError, IndexError or AssertionError of a parser
      that was set up wrongly; the others report what is wrong with the command line. */
  datatype Error = NoSuchOption(name: string) | BadOptionUsage(name: string) | BadArgumentUsage | ProgramError

  datatype Outcome<+T> = Done(value: T) | Raised(error: Error) {
    predicate IsFailure() { Raised? }
    function PropagateFailure<U>(): Outcome<U>
      requires Raised?
    {
      Raised(error)
    }
    function Extract(): T
      requires Done?
    {
      value
    }
  }

  datatype Value =
    Text(text: string) | Tuple(words: seq<Option<string>>) | List(items: seq<Value>) | Number(n: int)
    | Other(id: int) | UnsetValue | NeedsValue

  type Dest = Option<string>

  datatype Action = Store | StoreConst | Append | AppendConst | CountUp | UnknownAction

  datatype Opt = Opt(dest: Dest, action: Action, nargs: int, constant: Value, obj: int, mayOmitValue: bool) {
    predicate TakesValue() { action.Store? || action.Append? }
  }

  datatype State = State(opts: map<Dest, Value>, largs: seq<string>, rargs: seq<string>, order: seq<int>)

  datatype Config = Config(
    shortOpt: map<string, Opt>, longOpt: map<string, Opt>, prefixes: set<string>,
    interspersed: bool, ignoreUnknown: bool)

  // ----- option names -----

  /** The prefix of an option and the rest of it. */
  function SplitOpt(opt: string, alnum: char -> bool): (string, string) {
    if opt == "" then ("", "")
    else if alnum(opt[0]) then ("", opt)
    else if |opt| > 1 && opt[1] == opt[0] then (opt[..2], opt[2..])
    else (opt[..1], opt[1..])
  }

  predicate LooksLikeOption(c: Config, arg: string) {
    |arg| > 1 && arg[..1] in c.prefixes
  }

  /** The first `=` of a word, or its end. */
  function EqualSign(arg: string): (k: nat)
    ensures k <= |arg| && '=' !in arg[..k] && (k < |arg| ==> arg[k] == '=')
  {
    if arg == "" || arg[0] == '=' then 0
    else
      var k := 1 + EqualSign(arg[1..]);
      assert arg[..k] == [arg[0]] + arg[1..][..k - 1];
      k
  }

  /** What `add_option` keeps true of the names it collects. */
  ghost predicate WellFormed(c: Config, alnum: char -> bool) {
    && (forall prefix <- c.prefixes ::
          prefix != "" && !alnum(prefix[0]) && (|prefix| == 1 || prefix == [prefix[0], prefix[0]]))
    && (forall name <- c.shortOpt :: |name| == 2 && name[1] != name[0] && name[..1] in c.prefixes)
    && (forall name <- c.longOpt ::
          name != "" && name[..1] in c.prefixes && (|name| == 2 ==> name[1] == name[0]))
  }

  // ----- one option -----

  function AddTo(opts: map<Dest, Value>, dest: Dest, value: Value): Outcome<map<Dest, Value>> {
    if dest !in opts then Done(opts[dest := List([value])])
    else if opts[dest].List? then Done(opts[dest := List(opts[dest].items + [value])])
    else Raised(ProgramError)
  }

  function NewOpts(o: Opt, value: Value, opts: map<Dest, Value>): Outcome<map<Dest, Value>> {
    match o.action
    case Store => Done(opts[o.dest := value])
    case StoreConst => Done(opts[o.dest := o.constant])
    case Append => AddTo(opts, o.dest, value)
    case AppendConst => AddTo(opts, o.dest, o.constant)
    case CountUp =>
      if o.dest !in opts then Done(opts[o.dest := Number(1)])
      else if opts[o.dest].Number? then Done(opts[o.dest := Number(opts[o.dest].n + 1)])
      else Raised(ProgramError)
    case UnknownAction => Raised(ProgramError)
  }

  function Process(o: Opt, value: Value, st: State): Outcome<State> {
    var opts :- NewOpts(o, value, st.opts);
    Done(st.(opts := opts, order := st.order + [o.obj]))
  }

  /** The end of `rargs[:nargs]`; a negative bound counts from the back. */
  function SliceEnd(rargs: seq<string>, nargs: int): (k: nat)
    ensures k <= |rargs|
  {
    var k := if nargs < 0 then |rargs| + nargs else nargs;
    if k < 0 then 0 else if k > |rargs| then |rargs| else k
  }

  /** The value of an option, and the words behind it. */
  function GetValue(c: Config, name: string, o: Opt, rargs: seq<string>): (r: Outcome<(Value, seq<string>)>)
    ensures r.Done? ==> exists k: nat :: k <= |rargs| && r.value.1 == rargs[k..]
  {
    if |rargs| < o.nargs then
      if o.mayOmitValue then
        assert rargs == rargs[0..];
        Done((NeedsValue, rargs))
      else Raised(BadOptionUsage(name))
    else if o.nargs == 1 then
      if o.mayOmitValue && LooksLikeOption(c, rargs[0]) then
        assert rargs == rargs[0..];
        Done((NeedsValue, rargs))
      else Done((Text(rargs[0]), rargs[1..]))
    else
      var k := SliceEnd(rargs, o.nargs);
      Done((Tuple(U.Words(rargs[..k])), rargs[k..]))
  }

  /** An option that takes a value, with what is attached to it, if anything, put back in front of the words. */
  function TakeValue(c: Config, name: string, o: Opt, attached: Option<string>, st: State): Outcome<State> {
    var rargs := if attached.Some? then [attached.value] + st.rargs else st.rargs;
    var got :- GetValue(c, name, o, rargs);
    Process(o, got.0, st.(rargs := got.1))
  }

  function MatchLong(c: Config, name: string, explicit: Option<string>, st: State): Outcome<State> {
    if name !in c.longOpt then Raised(NoSuchOption(name))
    else
      var o := c.longOpt[name];
      if o.TakesValue() then TakeValue(c, name, o, explicit, st)
      else if explicit.Some? then Raised(BadOptionUsage(name))
      else Process(o, UnsetValue, st)
  }

  /** Unknown letters of a cluster go to the arguments together. */
  function EndCluster(c: Config, arg: string, unknown: string, st: State): State
    requires arg != ""
  {
    if c.ignoreUnknown && unknown != "" then st.(largs := st.largs + [[arg[0]] + unknown]) else st
  }

  /** The letters of a cluster from `i` on. */
  function MatchShort(c: Config, arg: string, i: nat, unknown: string, st: State): Outcome<State>
    requires 0 < i <= |arg|
    decreases |arg| - i
  {
    if i == |arg| then Done(EndCluster(c, arg, unknown, st))
    else
      var name := [arg[0], arg[i]];
      if name !in c.shortOpt then
        if c.ignoreUnknown then MatchShort(c, arg, i + 1, unknown + [arg[i]], st) else Raised(NoSuchOption(name))
      else
        var o := c.shortOpt[name];
        if o.TakesValue() then
          var next :- TakeValue(c, name, o, if i + 1 < |arg| then Some(arg[i + 1..]) else None, st);
          Done(EndCluster(c, arg, unknown, next))
        else
          var next :- Process(o, UnsetValue, st);
          MatchShort(c, arg, i + 1, unknown, next)
  }

  /** One word that looks like an option. */
  function ProcessOpts(c: Config, arg: string, st: State): Outcome<State>
    requires |arg| > 1
  {
    var k := EqualSign(arg);
    var name := arg[..k];
    if name in c.longOpt then MatchLong(c, name, if k < |arg| then Some(arg[k + 1..]) else None, st)
    else if arg[..2] !in c.prefixes then MatchShort(c, arg, 1, "", st)
    else if c.ignoreUnknown then Done(st.(largs := st.largs + [arg]))
    else Raised(NoSuchOption(name))
  }

  // ----- the option loop -----

  /** How much there is still to be read. */
  function Measure(rargs: seq<string>): nat {
    if rargs == [] then 0 else |rargs[0]| + 1 + Measure(rargs[1..])
  }

  /** What handles one word that looks like an option. */
  type Handler = (string, State) -> Outcome<State>

  /** It leaves less to be read than there was with the word itself. */
  ghost predicate Shrinks(h: Handler) {
    forall arg, st {:trigger h(arg, st)} ::
      |arg| > 1 && h(arg, st).Done? ==> Measure(h(arg, st).value.rargs) < |arg| + 1 + Measure(st.rargs)
  }

  ghost function OptionLoop(h: Handler, c: Config, st: State): Outcome<State>
    requires Shrinks(h)
    decreases Measure(st.rargs)
  {
    if st.rargs == [] then Done(st)
    else
      var arg, rest := st.rargs[0], st.rargs[1..];
      if arg == "--" then Done(st.(rargs := rest))
      else if LooksLikeOption(c, arg) then
        var next :- h(arg, st.(rargs := rest));
        OptionLoop(h, c, next)
      else if c.interspersed then OptionLoop(h, c, st.(largs := st.largs + [arg], rargs := rest))
      else Done(st)
  }

  function HandlerOf(c: Config): Handler {
    (arg, st) => if |arg| > 1 then ProcessOpts(c, arg, st) else Done(st)
  }

  /** A handler that does what a parser with this configuration does. */
  ghost predicate IsHandler(h: Handler, c: Config) {
    forall arg, st {:trigger ProcessOpts(c, arg, st)} :: |arg| > 1 ==> h(arg, st) == ProcessOpts(c, arg, st)
  }

  // ----- every word makes progress -----

  lemma {:induction false} MeasureDrop(rargs: seq<string>, k: nat)
    requires k <= |rargs|
    ensures Measure(rargs[k..]) <= Measure(rargs)
  {
    if k == 0 {
      assert rargs[0..] == rargs;
    } else {
      MeasureDrop(rargs[1..], k - 1);
      assert rargs[k..] == rargs[1..][k - 1..];
    }
  }

  lemma TakeValueShrinks(c: Config, name: string, o: Opt, attached: Option<string>, st: State)
    requires TakeValue(c, name, o, attached, st).Done?
    ensures Measure(TakeValue(c, name, o, attached, st).value.rargs)
         <= Measure(st.rargs) + if attached.Some? then |attached.value| + 1 else 0
  {
    var rargs := if attached.Some? then [attached.value] + st.rargs else st.rargs;
    assert attached.Some? ==> rargs[1..] == st.rargs;
    var got := GetValue(c, name, o, rargs);
    var k: nat :| k <= |rargs| && got.value.1 == rargs[k..];
    MeasureDrop(rargs, k);
  }

  lemma {:induction false} MatchShortShrinks(c: Config, arg: string, i: nat, unknown: string, st: State)
    requires 0 < i <= |arg| && MatchShort(c, arg, i, unknown, st).Done?
    ensures Measure(MatchShort(c, arg, i, unknown, st).value.rargs) <= Measure(st.rargs) + |arg| - i
    decreases |arg| - i
  {
    if i < |arg| {
      var name := [arg[0], arg[i]];
      if name !in c.shortOpt {
        MatchShortShrinks(c, arg, i + 1, unknown + [arg[i]], st);
      } else if c.shortOpt[name].TakesValue() {
        TakeValueShrinks(c, name, c.shortOpt[name], if i + 1 < |arg| then Some(arg[i + 1..]) else None, st);
      } else {
        MatchShortShrinks(c, arg, i + 1, unknown, Process(c.shortOpt[name], UnsetValue, st).value);
      }
    }
  }

  /** Whatever the configuration, and even where a value that was put back stays there. */
  lemma ProcessOptsShrinks(c: Config, arg: string, st: State)
    requires |arg| > 1 && ProcessOpts(c, arg, st).Done?
    ensures Measure(ProcessOpts(c, arg, st).value.rargs) < |arg| + 1 + Measure(st.rargs)
  {
    var k := EqualSign(arg);
    var name := arg[..k];
    if name in c.longOpt {
      if c.longOpt[name].TakesValue() {
        TakeValueShrinks(c, name, c.longOpt[name], if k < |arg| then Some(arg[k + 1..]) else None, st);
      }
    } else if arg[..2] !in c.prefixes {
      MatchShortShrinks(c, arg, 1, "", st);
    }
  }

  /** So the option loop comes to an end for every command line and every configuration. */
  lemma HandlerShrinks(c: Config)
    ensures Shrinks(HandlerOf(c)) && IsHandler(HandlerOf(c), c)
  {
    var h := HandlerOf(c);
    forall arg, st | |arg| > 1 && h(arg, st).Done?
      ensures Measure(h(arg, st).value.rargs) < |arg| + 1 + Measure(st.rargs)
    {
      ProcessOptsShrinks(c, arg, st);
    }
  }
}
