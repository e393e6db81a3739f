/**
 The parser as the source has it: a state that its methods change in place, and a parser that options and
 arguments are added to.  Each method does what the function of the model says.
 */
module ClickParser {
  import opened Options
  import opened ClickModel
  import U = ClickUnpack
  import L = ClickLeftovers
  import R = ClickRoundTrip

  // ----- positional arguments -----

  datatype Argument = Argument(dest: Dest, nargs: int, obj: int)

  function SlotValue(slot: U.Slot): Value {
    match slot
    case Unset => UnsetValue
    case One(word) => Text(word)
    case Many(words) => Tuple(words)
  }

  function Holes(words: seq<Option<string>>): nat {
    if words == [] then 0 else (if words[0].None? then 1 else 0) + Holes(words[1..])
  }

  /** A tuple must be whole, or missing altogether. */
  function ArgumentValue(a: Argument, value: Value): Outcome<Value> {
    if a.nargs > 1 then
      match value
      case Tuple(words) =>
        if Holes(words) == |words| then Done(UnsetValue)
        else if Holes(words) != 0 then Raised(BadArgumentUsage)
        else Done(value)
      case Text(text) => if text == "" then Done(UnsetValue) else Done(value)
      case _ => Raised(ProgramError)
    else if value == Tuple([]) then Done(UnsetValue)
    else Done(value)
  }

  function ProcessArgument(a: Argument, value: Value, st: State): Outcome<State> {
    var v :- ArgumentValue(a, value);
    Done(st.(opts := st.opts[a.dest := v], order := st.order + [a.obj]))
  }

  function ProcessArguments(args: seq<Argument>, slots: seq<U.Slot>, idx: nat, st: State): Outcome<State>
    requires idx <= |args|
    decreases |args| - idx
  {
    if idx == |args| then Done(st)
    else if idx >= |slots| then Raised(ProgramError)
    else
      var next :- ProcessArgument(args[idx], SlotValue(slots[idx]), st);
      ProcessArguments(args, slots, idx + 1, next)
  }

  function Nargs(args: seq<Argument>): seq<int> {
    seq(|args|, i requires 0 <= i < |args| => args[i].nargs)
  }

  function DistributeArguments(args: seq<Argument>, st: State): Outcome<State> {
    var spec := Nargs(args);
    if U.Wildcards(spec) > 1 then Raised(ProgramError)
    else
      var unpacked := U.ClosedForm(st.largs + st.rargs, U.NonZero(spec));
      var next :- ProcessArguments(args, unpacked.slots, 0, st);
      Done(next.(largs := unpacked.rest, rargs := []))
  }

  /** A whole command line. */
  ghost function ParseAll(c: Config, args: seq<Argument>, words: seq<string>): Outcome<State> {
    HandlerShrinks(c);
    var st :- OptionLoop(HandlerOf(c), c, State(map[], [], words, []));
    DistributeArguments(args, st)
  }

  // ----- the state -----

  class ParsingState {
    var opts: map<Dest, Value>
    var largs: seq<string>
    var rargs: seq<string>
    var order: seq<int>

    constructor (words: seq<string>)
      ensures Value() == State(map[], [], words, [])
    {
      opts, largs, rargs, order := map[], [], words, [];
    }

    function Value(): State
      reads this
    {
      State(opts, largs, rargs, order)
    }
  }

  /** What a method that may raise an error has done to the state. */
  ghost predicate Did(r: Outcome<()>, expected: Outcome<State>, now: State) {
    if expected.Done? then r.Done? && now == expected.value else r.Raised? && r.error == expected.error
  }

  method ProcessOption(o: Opt, value: Value, state: ParsingState) returns (r: Outcome<()>)
    modifies state
    ensures Did(r, Process(o, value, old(state.Value())), state.Value())
  {
    if o.action.Store? {
      state.opts := state.opts[o.dest := value];
    } else if o.action.StoreConst? {
      state.opts := state.opts[o.dest := o.constant];
    } else if o.action.Append? || o.action.AppendConst? {
      if o.dest !in state.opts {
        state.opts := state.opts[o.dest := List([])];
      }
      if !state.opts[o.dest].List? {
        return Raised(ProgramError);
      }
      var item := if o.action.Append? then value else o.constant;
      assert [] + [item] == [item];
      assert old(state.opts)[o.dest := List([])][o.dest := List([item])] == old(state.opts)[o.dest := List([item])];
      state.opts := state.opts[o.dest := List(state.opts[o.dest].items + [item])];
    } else if o.action.CountUp? {
      var n := if o.dest in state.opts then state.opts[o.dest] else Number(0);
      if !n.Number? {
        return Raised(ProgramError);
      }
      state.opts := state.opts[o.dest := Number(n.n + 1)];
    } else {
      return Raised(ProgramError);
    }
    state.order := state.order + [o.obj];
    return Done(());
  }

  method ProcessArgumentValue(a: Argument, given: Value, state: ParsingState) returns (r: Outcome<()>)
    modifies state
    ensures Did(r, ProcessArgument(a, given, old(state.Value())), state.Value())
  {
    var value := given;
    if a.nargs > 1 {
      if !value.Tuple? && !value.Text? {
        return Raised(ProgramError);
      }
      var holes := if value.Tuple? then Holes(value.words) else 0;
      var length := if value.Tuple? then |value.words| else |value.text|;
      if holes == length {
        value := UnsetValue;
      } else if holes != 0 {
        return Raised(BadArgumentUsage);
      }
    }
    if value == Tuple([]) {
      value := UnsetValue;
    }
    state.opts := state.opts[a.dest := value];
    state.order := state.order + [a.obj];
    return Done(());
  }

  // ----- the parser -----

  class OptionParser {
    var allowInterspersedArgs: bool
    var ignoreUnknownOptions: bool
    var shortOpt: map<string, Opt>
    var longOpt: map<string, Opt>
    var optPrefixes: set<string>
    var args: seq<Argument>

    function Settings(): Config
      reads this
    {
      ClickModel.Config.Config(shortOpt, longOpt, optPrefixes, allowInterspersedArgs, ignoreUnknownOptions)
    }

    constructor (ghost alnum: char -> bool)
      requires !alnum('-')
      ensures WellFormed(Settings(), alnum) && args == []
      ensures Settings() == ClickModel.Config.Config(map[], map[], {"-", "--"}, true, false)
    {
      allowInterspersedArgs, ignoreUnknownOptions := true, false;
      shortOpt, longOpt, optPrefixes, args := map[], map[], {"-", "--"}, [];
    }

    method AddArgument(obj: int, dest: Dest, nargs: int)
      modifies `args
      ensures args == old(args) + [Argument(dest, nargs, obj)]
    {
      args := args + [Argument(dest, nargs, obj)];
    }

    method GetValueFromState(name: string, o: Opt, state: ParsingState) returns (value: Outcome<Value>)
      modifies state`rargs
      ensures var got := GetValue(Settings(), name, o, old(state.rargs));
        if got.Done? then value == Done(got.value.0) && state.rargs == got.value.1
        else value == Raised(got.error) && state.rargs == old(state.rargs)
    {
      if |state.rargs| < o.nargs {
        if o.mayOmitValue {
          return Done(NeedsValue);
        }
        return Raised(BadOptionUsage(name));
      } else if o.nargs == 1 {
        var next := state.rargs[0];
        if o.mayOmitValue && |next| > 1 && next[..1] in optPrefixes {
          return Done(NeedsValue);
        }
        state.rargs := state.rargs[1..];
        return Done(Text(next));
      } else {
        var k := SliceEnd(state.rargs, o.nargs);
        value := Done(Tuple(U.Words(state.rargs[..k])));
        state.rargs := state.rargs[k..];
      }
    }

    method MatchLongOpt(opt: string, explicitValue: Option<string>, state: ParsingState) returns (r: Outcome<()>)
      modifies state
      ensures Did(r, MatchLong(Settings(), opt, explicitValue, old(state.Value())), state.Value())
      ensures opt !in longOpt ==> state.Value() == old(state.Value())
    {
      if opt !in longOpt {
        return Raised(NoSuchOption(opt));
      }
      var option := longOpt[opt];
      var value := UnsetValue;
      if option.TakesValue() {
        if explicitValue.Some? {
          state.rargs := [explicitValue.value] + state.rargs;
        }
        value :- GetValueFromState(opt, option, state);
      } else if explicitValue.Some? {
        return Raised(BadOptionUsage(opt));
      }
      r := ProcessOption(option, value, state);
    }

    /** One known letter of a cluster, with the letters behind it if there are any. */
    method MatchLetter(opt: string, option: Opt, attached: Option<string>, state: ParsingState) returns (r: Outcome<()>)
      modifies state
      ensures Did(r,
        if option.TakesValue() then TakeValue(Settings(), opt, option, attached, old(state.Value()))
        else Process(option, UnsetValue, old(state.Value())), state.Value())
    {
      var value := UnsetValue;
      if option.TakesValue() {
        if attached.Some? {
          state.rargs := [attached.value] + state.rargs;
        }
        value :- GetValueFromState(opt, option, state);
      }
      r := ProcessOption(option, value, state);
    }

    method MatchShortOpt(arg: string, state: ParsingState) returns (r: Outcome<()>)
      requires arg != ""
      modifies state
      ensures Did(r, MatchShort(Settings(), arg, 1, "", old(state.Value())), state.Value())
    {
      var stop := false;
      var i := 1;
      var prefix := arg[0];
      var unknownOptions := "";
      while i < |arg| && !stop
        invariant 0 < i <= |arg|
        invariant MatchShort(Settings(), arg, 1, "", old(state.Value()))
               == if stop then Done(EndCluster(Settings(), arg, unknownOptions, state.Value()))
                  else MatchShort(Settings(), arg, i, unknownOptions, state.Value())
        decreases |arg| - i
      {
        var letter := arg[i];
        var opt := [prefix, letter];
        i := i + 1;
        if opt !in shortOpt {
          if !ignoreUnknownOptions {
            return Raised(NoSuchOption(opt));
          }
          unknownOptions := unknownOptions + [letter];
        } else {
          var option := shortOpt[opt];
          var _ :- MatchLetter(opt, option, if i < |arg| then Some(arg[i..]) else None, state);
          stop := option.TakesValue() && i < |arg|;
        }
      }
      if ignoreUnknownOptions && unknownOptions != "" {
        state.largs := state.largs + [[prefix] + unknownOptions];
      }
      return Done(());
    }

    method ProcessWord(arg: string, state: ParsingState) returns (r: Outcome<()>)
      requires |arg| > 1
      modifies state
      ensures Did(r, ProcessOpts(Settings(), arg, old(state.Value())), state.Value())
    {
      var longOption := arg;
      var explicitValue := None;
      var k := EqualSign(arg);
      if k < |arg| {
        longOption := arg[..k];
        explicitValue := Some(arg[k + 1..]);
      }
      assert arg[..|arg|] == arg;
      ghost var before := state.Value();
      LongErrors(Settings(), longOption, explicitValue, before);
      r := MatchLongOpt(longOption, explicitValue, state);
      assert r.Raised? && r.error.NoSuchOption? ==> longOption !in longOpt && state.Value() == before;
      if r.Raised? && r.error.NoSuchOption? {
        if arg[..2] !in optPrefixes {
          r := MatchShortOpt(arg, state);
        } else if ignoreUnknownOptions {
          state.largs := state.largs + [arg];
          r := Done(());
        }
      }
    }

    method ProcessArgsForOptions(state: ParsingState, ghost h: Handler) returns (r: Outcome<()>)
      requires Shrinks(h) && IsHandler(h, Settings())
      modifies state
      ensures Did(r, OptionLoop(h, Settings(), old(state.Value())), state.Value())
    {
      while state.rargs != []
        invariant OptionLoop(h, Settings(), old(state.Value())) == OptionLoop(h, Settings(), state.Value())
        decreases Measure(state.rargs)
      {
        var arg := state.rargs[0];
        state.rargs := state.rargs[1..];
        if arg == "--" {
          return Done(());
        } else if |arg| > 1 && arg[..1] in optPrefixes {
          var _ :- ProcessWord(arg, state);
        } else if allowInterspersedArgs {
          state.largs := state.largs + [arg];
        } else {
          state.rargs := [arg] + state.rargs;
          return Done(());
        }
      }
      return Done(());
    }

    method ProcessArgsForArgs(state: ParsingState) returns (r: Outcome<()>)
      modifies state
      ensures Did(r, DistributeArguments(args, old(state.Value())), state.Value())
    {
      var unpacked := U.UnpackArgs(state.largs + state.rargs, Nargs(args));
      if unpacked.TwoWildcards? {
        return Raised(ProgramError);
      }
      var _ :- ProcessSlots(unpacked.slots, state);
      state.largs := unpacked.rest;
      state.rargs := [];
      return Done(());
    }

    method ProcessSlots(slots: seq<U.Slot>, state: ParsingState) returns (r: Outcome<()>)
      modifies state
      ensures Did(r, ProcessArguments(args, slots, 0, old(state.Value())), state.Value())
    {
      var idx := 0;
      while idx < |args|
        invariant idx <= |args|
        invariant ProcessArguments(args, slots, 0, old(state.Value()))
               == ProcessArguments(args, slots, idx, state.Value())
      {
        if idx >= |slots| {
          return Raised(ProgramError);
        }
        var _ :- ProcessArgumentValue(args[idx], SlotValue(slots[idx]), state);
        idx := idx + 1;
      }
      return Done(());
    }

    method ParseArgs(words: seq<string>) returns (r: Outcome<(map<Dest, Value>, seq<string>, seq<int>)>)
      ensures var expected := ParseAll(Settings(), args, words);
        if expected.Done? then r == Done((expected.value.opts, expected.value.largs, expected.value.order))
        else r == Raised(expected.error)
    {
      HandlerShrinks(Settings());
      var state := new ParsingState(words);
      var _ :- ProcessArgsForOptions(state, HandlerOf(Settings()));
      var _ :- ProcessArgsForArgs(state);
      return Done((state.opts, state.largs, state.order));
    }

    // ----- setting up -----

    method AddOption(obj: int, opts: seq<string>, dest: Dest, action: Action, nargs: int, constant: Value,
                     mayOmitValue: bool, alnum: char -> bool)
      returns (r: Outcome<()>)
      modifies `shortOpt, `longOpt, `optPrefixes
      ensures r == if HasPrefixes(opts, alnum) then Done(()) else Raised(ProgramError)
      ensures r.Raised? ==> Settings() == old(Settings())
      ensures r.Done? ==>
        var option := Opt(dest, action, nargs, constant, obj, mayOmitValue);
        && shortOpt == old(shortOpt) + Entries(opts, opt => IsShort(opt, alnum), option)
        && longOpt == old(longOpt) + Entries(opts, opt => !IsShort(opt, alnum), option)
        && optPrefixes == old(optPrefixes) + PrefixesOf(opts, alnum)
      ensures old(WellFormed(Settings(), alnum)) ==> WellFormed(Settings(), alnum)
    {
      var made := MakeOption(opts, alnum);
      if made.Raised? {
        return Raised(made.error);
      }
      var (shortOpts, longOpts, prefixes) := made.value;
      var option := Opt(dest, action, nargs, constant, obj, mayOmitValue);
      optPrefixes := optPrefixes + prefixes;
      shortOpt := EnterAll(shortOpt, shortOpts, option);
      longOpt := EnterAll(longOpt, longOpts, option);
      SameEntries(shortOpts, opts, opt => IsShort(opt, alnum), option);
      SameEntries(longOpts, opts, opt => !IsShort(opt, alnum), option);
      if old(WellFormed(Settings(), alnum)) { StaysWellFormed(old(Settings()), Settings(), opts, alnum); }
      return Done(());
    }
  }

  /** Only a missing name is reported as such. */
  lemma LongErrors(c: Config, name: string, explicit: Option<string>, st: State)
    ensures var r := MatchLong(c, name, explicit, st);
      r.Raised? && r.error.NoSuchOption? <==> name !in c.longOpt
  {
  }

  // ----- the names of one option -----

  predicate HasPrefixes(opts: seq<string>, alnum: char -> bool) {
    forall opt <- opts :: SplitOpt(opt, alnum).0 != ""
  }

  predicate IsShort(opt: string, alnum: char -> bool) {
    |SplitOpt(opt, alnum).0| == 1 && |SplitOpt(opt, alnum).1| == 1
  }

  /** The first character of every prefix, and the whole prefix of every long option. */
  function PrefixesOf(opts: seq<string>, alnum: char -> bool): set<string> {
    if opts == [] then {}
    else
      var last := opts[|opts| - 1];
      var prefix := SplitOpt(last, alnum).0;
      PrefixesOf(opts[..|opts| - 1], alnum)
      + (if prefix == "" then {} else if IsShort(last, alnum) then {prefix[..1]} else {prefix[..1], prefix})
  }

  method MakeOption(opts: seq<string>, alnum: char -> bool)
    returns (r: Outcome<(seq<string>, seq<string>, set<string>)>)
    ensures HasPrefixes(opts, alnum) <==> r.Done?
    ensures r.Raised? ==> r.error == ProgramError
    ensures r.Done? ==>
      && (forall opt :: opt in r.value.0 <==> opt in opts && IsShort(opt, alnum))
      && (forall opt :: opt in r.value.1 <==> opt in opts && !IsShort(opt, alnum))
      && r.value.2 == PrefixesOf(opts, alnum)
  {
    var shortOpts: seq<string>, longOpts: seq<string>, prefixes: set<string> := [], [], {};
    var n := 0;
    while n < |opts|
      invariant n <= |opts| && HasPrefixes(opts[..n], alnum)
      invariant forall opt :: opt in shortOpts <==> opt in opts[..n] && IsShort(opt, alnum)
      invariant forall opt :: opt in longOpts <==> opt in opts[..n] && !IsShort(opt, alnum)
      invariant prefixes == PrefixesOf(opts[..n], alnum)
    {
      var opt := opts[n];
      var (prefix, value) := SplitOpt(opt, alnum);
      if prefix == "" {
        assert opt in opts;
        return Raised(ProgramError);
      }
      assert opts[..n + 1] == opts[..n] + [opt];
      prefixes := prefixes + {prefix[..1]};
      if |prefix| == 1 && |value| == 1 {
        shortOpts := shortOpts + [opt];
      } else {
        longOpts := longOpts + [opt];
        prefixes := prefixes + {prefix};
      }
      n := n + 1;
    }
    assert opts[..n] == opts;
    return Done((shortOpts, longOpts, prefixes));
  }

  /** An entry for each name of this kind. */
  function Entries(names: seq<string>, kind: string -> bool, option: Opt): map<string, Opt> {
    map name | name in names && kind(name) :: option
  }

  lemma SameEntries(some: seq<string>, names: seq<string>, kind: string -> bool, option: Opt)
    requires forall name :: name in some <==> name in names && kind(name)
    ensures Entries(some, _ => true, option) == Entries(names, kind, option)
  {
  }

  method EnterAll(table: map<string, Opt>, names: seq<string>, option: Opt) returns (entered: map<string, Opt>)
    ensures entered == table + Entries(names, _ => true, option)
  {
    entered := table;
    var n := 0;
    while n < |names|
      invariant n <= |names| && entered == table + Entries(names[..n], _ => true, option)
    {
      entered := entered[names[n] := option];
      n := n + 1;
    }
  }

  lemma SplitFacts(opt: string, alnum: char -> bool)
    requires SplitOpt(opt, alnum).0 != ""
    ensures var (prefix, value) := SplitOpt(opt, alnum);
      && opt == prefix + value && !alnum(prefix[0]) && prefix[..1] == opt[..1]
      && (|prefix| == 1 || prefix == [prefix[0], prefix[0]])
      && (IsShort(opt, alnum) ==> |opt| == 2 && opt[1] != opt[0])
      && (!IsShort(opt, alnum) && |opt| == 2 ==> opt[1] == opt[0])
  {
  }

  predicate FitPrefix(prefix: string, alnum: char -> bool) {
    prefix != "" && !alnum(prefix[0]) && (|prefix| == 1 || prefix == [prefix[0], prefix[0]])
  }

  lemma OnePrefixFits(opt: string, alnum: char -> bool)
    requires SplitOpt(opt, alnum).0 != ""
    ensures var prefix := SplitOpt(opt, alnum).0;
      FitPrefix(prefix, alnum) && FitPrefix(prefix[..1], alnum) && opt != "" && opt[..1] == prefix[..1]
  {
    SplitFacts(opt, alnum);
  }

  lemma {:induction false} PrefixesFit(opts: seq<string>, alnum: char -> bool)
    requires HasPrefixes(opts, alnum)
    ensures forall prefix <- PrefixesOf(opts, alnum) :: FitPrefix(prefix, alnum)
    ensures forall opt <- opts :: opt != "" && opt[..1] in PrefixesOf(opts, alnum)
  {
    if opts != [] {
      var init, last := opts[..|opts| - 1], opts[|opts| - 1];
      assert opts == init + [last] && last in opts;
      OnePrefixFits(last, alnum);
      PrefixesFit(init, alnum);
    }
  }

  lemma StaysWellFormed(before: Config, after: Config, opts: seq<string>, alnum: char -> bool)
    requires WellFormed(before, alnum) && HasPrefixes(opts, alnum)
    requires after.prefixes == before.prefixes + PrefixesOf(opts, alnum)
    requires forall name <- after.shortOpt :: name in before.shortOpt || (name in opts && IsShort(name, alnum))
    requires forall name <- after.longOpt :: name in before.longOpt || (name in opts && !IsShort(name, alnum))
    ensures WellFormed(after, alnum)
  {
    PrefixesFit(opts, alnum);
    forall name <- after.shortOpt ensures |name| == 2 && name[1] != name[0] && name[..1] in after.prefixes {
      if name !in before.shortOpt { SplitFacts(name, alnum); }
    }
    forall name <- after.longOpt
      ensures name != "" && name[..1] in after.prefixes && (|name| == 2 ==> name[1] == name[0])
    {
      if name !in before.longOpt { SplitFacts(name, alnum); }
    }
  }

  /** Short names are two different characters, the first of them a prefix; any other name is long. */
  lemma NamesByText(opts: seq<string>, alnum: char -> bool)
    ensures HasPrefixes(opts, alnum) <==> forall opt <- opts :: opt != "" && !alnum(opt[0])
    ensures forall opt <- opts ::
      opt != "" && !alnum(opt[0]) ==> (IsShort(opt, alnum) <==> |opt| == 2 && opt[1] != opt[0])
  {
  }

  /** The prefix is the first character, doubled if the second is the same. */
  predicate IsPrefixOf(prefix: string, opt: string) {
    && opt != ""
    && (prefix == opt[..1] || (|opt| > 1 && opt[1] == opt[0] && prefix == opt[..2]))
  }

  /** Every name adds its first character, and a name that starts with it twice adds that too; nothing else is added. */
  lemma {:induction false} PrefixesByText(opts: seq<string>, alnum: char -> bool, prefix: string)
    requires HasPrefixes(opts, alnum)
    ensures prefix in PrefixesOf(opts, alnum) <==> exists opt :: opt in opts && IsPrefixOf(prefix, opt)
  {
    if opts != [] {
      var init, last := opts[..|opts| - 1], opts[|opts| - 1];
      assert opts == init + [last] && last in opts;
      PrefixesByText(init, alnum, prefix);
      LastPrefixes(last, alnum, prefix);
    }
  }

  lemma LastPrefixes(opt: string, alnum: char -> bool, prefix: string)
    requires SplitOpt(opt, alnum).0 != ""
    ensures var p := SplitOpt(opt, alnum).0;
      prefix in (if IsShort(opt, alnum) then {p[..1]} else {p[..1], p}) <==> IsPrefixOf(prefix, opt)
  {
    SplitFacts(opt, alnum);
  }

  // ----- a rendered command line, arguments and all -----

  /** Options, `--` and words: the options are read back and the words go to the arguments as they stand. */
  lemma RenderThenParseAll(c: Config, args: seq<Argument>, ss: seq<R.Setting>, words: seq<string>,
                           actions: Dest -> Action)
    requires forall s <- ss :: R.Settable(c, s) && R.Suits(c, s, actions)
    ensures exists st :: R.Means(c, ss, actions, st) && st.largs + st.rargs == words
              && ParseAll(c, args, R.Render(ss) + ["--"] + words) == DistributeArguments(args, st)
  {
    R.RenderThenParse(c, ss, words, actions);
    var st := L.ParseOptions(c, R.Render(ss) + ["--"] + words).value;
    assert st.largs + st.rargs == words;
  }

  /** Without arguments the words are all left over, and the options are what the settings come to. */
  lemma WordsAreLeft(c: Config, ss: seq<R.Setting>, words: seq<string>, actions: Dest -> Action)
    requires forall s <- ss :: R.Settable(c, s) && R.Suits(c, s, actions)
    ensures var r := ParseAll(c, [], R.Render(ss) + ["--"] + words);
      r.Done? && R.Means(c, ss, actions, r.value) && r.value.largs == words
  {
    R.RenderThenParse(c, ss, words, actions);
    var st := L.ParseOptions(c, R.Render(ss) + ["--"] + words).value;
    assert st.largs + st.rargs == words;
    assert Nargs([]) == [];
  }
}
