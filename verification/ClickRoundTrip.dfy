/**
 Command lines that are written for a parser are read as they were meant.
 */
module ClickRoundTrip {
  import opened Options
  import opened ClickModel
  import opened ClickLeftovers
  import U = ClickUnpack

  // ----- long options with values -----

  /** A long option and its values; the first of them is attached with a `=`, or a word of its own as the others are. */
  datatype Setting = Setting(name: string, values: seq<string>, attached: bool)

  function Tokens(s: Setting): seq<string> {
    if s.attached && s.values != [] then [s.name + "=" + s.values[0]] + s.values[1..] else [s.name] + s.values
  }

  function Render(ss: seq<Setting>): seq<string> {
    if ss == [] then [] else Tokens(ss[0]) + Render(ss[1..])
  }

  /** The setting names a long option and has as many values as it takes. */
  predicate Fits(c: Config, s: Setting) {
    && s.name in c.longOpt && s.name != "" && '=' !in s.name && s.name[..1] in c.prefixes
    && (!s.attached ==> |s.name| > 1 && s.name != "--")
    && var o := c.longOpt[s.name]; o.TakesValue() && o.nargs == |s.values| >= 1
  }

  /** An option that may omit its one value does not take one that looks like an option. */
  predicate Refused(c: Config, s: Setting)
    requires Fits(c, s)
  {
    c.longOpt[s.name].mayOmitValue && |s.values| == 1 && LooksLikeOption(c, s.values[0])
  }

  predicate Settable(c: Config, s: Setting) {
    Fits(c, s) && !Refused(c, s)
  }

  /** The value of an option that takes one word is the word, otherwise all of the words. */
  function Given(s: Setting): Value {
    if |s.values| == 1 then Text(s.values[0]) else Tuple(U.Words(s.values))
  }

  /** What the settings do to the state, one after the other. */
  function Applied(c: Config, ss: seq<Setting>, st: State): Outcome<State>
    decreases |ss|
  {
    if ss == [] then Done(st)
    else if ss[0].name !in c.longOpt then Raised(NoSuchOption(ss[0].name))
    else
      var next :- Process(c.longOpt[ss[0].name], Given(ss[0]), st);
      Applied(c, ss[1..], next)
  }

  lemma GivenIsFetched(c: Config, s: Setting, rest: seq<string>)
    requires Fits(c, s)
    ensures GetValue(c, s.name, c.longOpt[s.name], s.values + rest)
         == if Refused(c, s) then Done((NeedsValue, s.values + rest)) else Done((Given(s), rest))
  {
    var rargs, n := s.values + rest, |s.values|;
    assert rargs[0] == s.values[0] && rargs[..n] == s.values && rargs[n..] == rest;
  }

  /** What the first word of a setting does, with the others and more words behind it. */
  lemma SettingIsProcessed(c: Config, s: Setting, st: State, rest: seq<string>)
    requires Fits(c, s)
    ensures var arg, more := Tokens(s)[0], Tokens(s)[1..] + rest;
      && LooksLikeOption(c, arg) && arg != "--"
      && ProcessOpts(c, arg, st.(rargs := more))
         == if Refused(c, s) then Process(c.longOpt[s.name], NeedsValue, st.(rargs := s.values + rest))
            else Process(c.longOpt[s.name], Given(s), st.(rargs := rest))
  {
    var tail := if s.attached then "=" + s.values[0] else "";
    var arg, more := s.name + tail, Tokens(s)[1..] + rest;
    assert Tokens(s)[0] == arg;
    EqualSignBehind(s.name, tail);
    assert arg[..|s.name|] == s.name && arg[..1] == s.name[..1];
    GivenIsFetched(c, s, rest);
    if s.attached {
      assert arg[|s.name|] == '=' && arg[|s.name| + 1..] == s.values[0];
      assert [s.values[0]] + more == s.values + rest;
    } else {
      assert more == s.values + rest;
    }
  }

  /** A setting is processed as it is meant exactly if its value is not refused. */
  lemma ProcessedIffNotRefused(c: Config, s: Setting, st: State, rest: seq<string>)
    requires Fits(c, s) && Process(c.longOpt[s.name], Given(s), st).Done?
    ensures !Refused(c, s) <==>
      ProcessOpts(c, Tokens(s)[0], st.(rargs := Tokens(s)[1..] + rest))
      == Process(c.longOpt[s.name], Given(s), st.(rargs := rest))
  {
    SettingIsProcessed(c, s, st, rest);
    assert |s.values + rest| > |rest|;
  }

  /** One setting, however it is written, is one step of the loop. */
  lemma LoopSetting(h: Handler, c: Config, s: Setting, st: State, rest: seq<string>)
    requires Shrinks(h) && IsHandler(h, c) && Settable(c, s) && st.rargs == Tokens(s) + rest
    ensures var next := Process(c.longOpt[s.name], Given(s), st.(rargs := rest));
      OptionLoop(h, c, st) == if next.Done? then OptionLoop(h, c, next.value) else next
  {
    var arg, more := Tokens(s)[0], Tokens(s)[1..] + rest;
    assert st.rargs == [arg] + more;
    SettingIsProcessed(c, s, st, rest);
    assert h(arg, st.(rargs := more)) == ProcessOpts(c, arg, st.(rargs := more));
    LoopHandled(h, c, st, arg, more);
  }

  /** What a setting does is the same whatever words are left. */
  lemma AppliedStep(c: Config, ss: seq<Setting>, st: State, rest: seq<string>, words: seq<string>)
    requires ss != [] && ss[0].name in c.longOpt
    ensures var next := Process(c.longOpt[ss[0].name], Given(ss[0]), st.(rargs := rest));
      if next.Done? then
        && next.value.rargs == rest
        && Applied(c, ss, st.(rargs := words)) == Applied(c, ss[1..], next.value.(rargs := words))
      else Applied(c, ss, st.(rargs := words)) == next
  {
  }

  predicate AllSettable(c: Config, ss: seq<Setting>) {
    forall s <- ss :: Settable(c, s)
  }

  lemma FirstSettable(c: Config, ss: seq<Setting>)
    requires AllSettable(c, ss) && ss != []
    ensures Settable(c, ss[0]) && AllSettable(c, ss[1..])
  {
    assert ss[0] in ss;
  }

  lemma RenderApart(ss: seq<Setting>, tail: seq<string>)
    requires ss != []
    ensures Render(ss) + tail == Tokens(ss[0]) + (Render(ss[1..]) + tail)
  {
  }

  /** Settings, then `--`, then any words: the settings are applied and the words are left alone. */
  lemma {:induction false} LoopRendered(h: Handler, c: Config, ss: seq<Setting>, words: seq<string>, st: State)
    requires Shrinks(h) && IsHandler(h, c) && AllSettable(c, ss)
    requires st.rargs == Render(ss) + (["--"] + words)
    ensures OptionLoop(h, c, st) == Applied(c, ss, st.(rargs := words))
    decreases |ss|
  {
    if ss == [] {
      assert st.rargs == ["--"] + words;
      LoopDashes(h, c, st, words);
    } else {
      var rest := Render(ss[1..]) + (["--"] + words);
      FirstSettable(c, ss);
      RenderApart(ss, ["--"] + words);
      LoopSetting(h, c, ss[0], st, rest);
      AppliedStep(c, ss, st, rest, words);
      var next := Process(c.longOpt[ss[0].name], Given(ss[0]), st.(rargs := rest));
      if next.Done? { LoopRendered(h, c, ss[1..], words, next.value); }
    }
  }

  // ----- what the settings come to -----

  /** The values given for a destination, in order. */
  function ValuesOf(c: Config, ss: seq<Setting>, dest: Dest): seq<Value> {
    if ss == [] then []
    else
      var last := ss[|ss| - 1];
      ValuesOf(c, ss[..|ss| - 1], dest)
      + if last.name in c.longOpt && c.longOpt[last.name].dest == dest then [Given(last)] else []
  }

  /** An option that stores has its last value, one that appends has all of them. */
  function Combined(action: Action, values: seq<Value>): Value
    requires values != []
  {
    if action.Store? then values[|values| - 1] else List(values)
  }

  function Objects(c: Config, ss: seq<Setting>): seq<int> {
    seq(|ss|, i requires 0 <= i < |ss| => if ss[i].name in c.longOpt then c.longOpt[ss[i].name].obj else 0)
  }

  /** What a destination has of these values. */
  predicate Holds(opts: map<Dest, Value>, dest: Dest, action: Action, values: seq<Value>) {
    if values == [] then dest !in opts else dest in opts && opts[dest] == Combined(action, values)
  }

  /** The state has exactly what these settings come to. */
  ghost predicate Means(c: Config, ss: seq<Setting>, actions: Dest -> Action, st: State) {
    && st.order == Objects(c, ss)
    && (forall dest {:trigger ValuesOf(c, ss, dest)} {:trigger dest in st.opts} ::
          Holds(st.opts, dest, actions(dest), ValuesOf(c, ss, dest)))
  }

  lemma ValuesOfMore(c: Config, ss: seq<Setting>, s: Setting, dest: Dest)
    requires s.name in c.longOpt
    ensures ValuesOf(c, ss + [s], dest)
         == ValuesOf(c, ss, dest) + if c.longOpt[s.name].dest == dest then [Given(s)] else []
  {
    assert (ss + [s])[..|ss|] == ss;
  }

  /** One more value for a destination. */
  lemma NewOptsHold(o: Opt, value: Value, values: seq<Value>, opts: map<Dest, Value>)
    requires o.TakesValue() && Holds(opts, o.dest, o.action, values)
    ensures NewOpts(o, value, opts) == Done(opts[o.dest := Combined(o.action, values + [value])])
  {
    assert [] + [value] == [value];
  }

  lemma DestMeans(c: Config, ss: seq<Setting>, s: Setting, o: Opt, action: Action, opts: map<Dest, Value>, dest: Dest)
    requires s.name in c.longOpt && o == c.longOpt[s.name] && (dest == o.dest ==> action == o.action)
    requires Holds(opts, dest, action, ValuesOf(c, ss, dest))
    ensures Holds(opts[o.dest := Combined(o.action, ValuesOf(c, ss, o.dest) + [Given(s)])], dest, action,
                  ValuesOf(c, ss + [s], dest))
  {
    ValuesOfMore(c, ss, s, dest);
  }

  lemma ProcessMeans(c: Config, ss: seq<Setting>, s: Setting, actions: Dest -> Action, st: State)
    requires s.name in c.longOpt && Means(c, ss, actions, st)
    requires var o := c.longOpt[s.name]; o.TakesValue() && o.action == actions(o.dest)
    ensures var r := Process(c.longOpt[s.name], Given(s), st); r.Done? && Means(c, ss + [s], actions, r.value)
  {
    var o := c.longOpt[s.name];
    var values := ValuesOf(c, ss, o.dest);
    NewOptsHold(o, Given(s), values, st.opts);
    var opts := st.opts[o.dest := Combined(o.action, values + [Given(s)])];
    forall dest ensures Holds(opts, dest, actions(dest), ValuesOf(c, ss + [s], dest)) {
      DestMeans(c, ss, s, o, actions(dest), st.opts, dest);
    }
    assert Objects(c, ss + [s]) == Objects(c, ss) + [o.obj];
  }

  lemma {:induction false} AppliedMeans(
      c: Config, before: seq<Setting>, ss: seq<Setting>, all: seq<Setting>, actions: Dest -> Action, st: State)
    requires Means(c, before, actions, st) && all == before + ss && forall s <- ss :: Suits(c, s, actions)
    ensures var r := Applied(c, ss, st);
      r.Done? && Means(c, all, actions, r.value) && r.value.largs == st.largs && r.value.rargs == st.rargs
    decreases |ss|
  {
    if ss == [] {
      assert all == before;
    } else {
      var s := ss[0];
      assert s in ss;
      ProcessMeans(c, before, s, actions, st);
      var next := Process(c.longOpt[s.name], Given(s), st).value;
      assert all == (before + [s]) + ss[1..];
      AppliedMeans(c, before + [s], ss[1..], all, actions, next);
      assert Applied(c, ss, st) == Applied(c, ss[1..], next);
    }
  }

  /** The option of the setting does what all options with its destination do. */
  predicate Suits(c: Config, s: Setting, actions: Dest -> Action) {
    s.name in c.longOpt && var o := c.longOpt[s.name]; o.TakesValue() && o.action == actions(o.dest)
  }

  /** Rendered settings, `--` and words are read back: last or all values, the order of the options, the words. */
  lemma RenderThenParse(c: Config, ss: seq<Setting>, words: seq<string>, actions: Dest -> Action)
    requires forall s <- ss :: Settable(c, s) && Suits(c, s, actions)
    ensures var r := ParseOptions(c, Render(ss) + ["--"] + words);
      r.Done? && Means(c, ss, actions, r.value) && r.value.largs == [] && r.value.rargs == words
  {
    HandlerShrinks(c);
    var args := Render(ss) + ["--"] + words;
    assert args == Render(ss) + (["--"] + words);
    var st := State(map[], [], args, []);
    assert AllSettable(c, ss);
    LoopRendered(HandlerOf(c), c, ss, words, st);
    assert Means(c, [], actions, st.(rargs := words));
    AppliedMeans(c, [], ss, ss, actions, st.(rargs := words));
  }

  // ----- a value that is refused -----

  /** Whatever a handler does to the values is seen in the order. */
  predicate Logged(st: State, next: State) {
    |next.order| >= |st.order| && (|next.order| == |st.order| ==> next.opts == st.opts)
  }

  ghost predicate Logs(h: Handler) {
    forall arg, st {:trigger h(arg, st)} :: |arg| > 1 && h(arg, st).Done? ==> Logged(st, h(arg, st).value)
  }

  lemma {:induction false} MatchShortLogs(c: Config, arg: string, i: nat, unknown: string, st: State)
    requires 0 < i <= |arg| && MatchShort(c, arg, i, unknown, st).Done?
    ensures Logged(st, MatchShort(c, arg, i, unknown, st).value)
    decreases |arg| - i
  {
    if i < |arg| {
      var name := [arg[0], arg[i]];
      if name !in c.shortOpt {
        MatchShortLogs(c, arg, i + 1, unknown + [arg[i]], st);
      } else if !c.shortOpt[name].TakesValue() {
        MatchShortLogs(c, arg, i + 1, unknown, Process(c.shortOpt[name], UnsetValue, st).value);
      }
    }
  }

  lemma HandlerLogs(c: Config)
    ensures Logs(HandlerOf(c))
  {
    var h := HandlerOf(c);
    forall arg, st | |arg| > 1 && h(arg, st).Done? ensures Logged(st, h(arg, st).value) {
      if arg[..EqualSign(arg)] !in c.longOpt && arg[..2] !in c.prefixes { MatchShortLogs(c, arg, 1, "", st); }
    }
  }

  lemma {:induction false} LoopLogs(h: Handler, c: Config, st: State)
    requires Shrinks(h) && Logs(h) && OptionLoop(h, c, st).Done?
    ensures Logged(st, OptionLoop(h, c, st).value)
    decreases Measure(st.rargs)
  {
    if st.rargs != [] {
      var arg, rest := st.rargs[0], st.rargs[1..];
      if arg == "--" {
      } else if LooksLikeOption(c, arg) {
        var next := h(arg, st.(rargs := rest));
        if next.Done? { LoopLogs(h, c, next.value); }
      } else if c.interspersed {
        LoopLogs(h, c, st.(largs := st.largs + [arg], rargs := rest));
      }
    }
  }

  /** On a command line of its own, a setting is read back exactly if its value is not refused. */
  lemma ReadBackIffNotRefused(c: Config, s: Setting, words: seq<string>, actions: Dest -> Action)
    requires Fits(c, s) && Suits(c, s, actions)
    ensures var r := ParseOptions(c, Tokens(s) + ["--"] + words);
      (r.Done? && Means(c, [s], actions, r.value) && r.value.largs == [] && r.value.rargs == words) <==> !Refused(c, s)
  {
    if !Refused(c, s) {
      assert [s][1..] == [] && Render([s]) == Tokens(s) + [] == Tokens(s);
      RenderThenParse(c, [s], words, actions);
    } else {
      var args := Tokens(s) + ["--"] + words;
      HandlerShrinks(c);
      var h, st, rest := HandlerOf(c), State(map[], [], args, []), ["--"] + words;
      assert args == Tokens(s) + rest;
      assert args[0] == Tokens(s)[0] && args[1..] == Tokens(s)[1..] + rest;
      SettingIsProcessed(c, s, st, rest);
      var next := Process(c.longOpt[s.name], NeedsValue, st.(rargs := s.values + rest));
      assert st.rargs == [args[0]] + (Tokens(s)[1..] + rest);
      LoopHandled(h, c, st, args[0], Tokens(s)[1..] + rest);
      RefusedIsNotMeant(h, c, s, actions, st.(rargs := s.values + rest), next);
    }
  }

  lemma RefusedIsNotMeant(h: Handler, c: Config, s: Setting, actions: Dest -> Action, st: State, next: Outcome<State>)
    requires Shrinks(h) && h == HandlerOf(c) && Fits(c, s) && Refused(c, s) && Suits(c, s, actions)
    requires st.opts == map[] && st.order == [] && next == Process(c.longOpt[s.name], NeedsValue, st) && next.Done?
    ensures OptionLoop(h, c, next.value).Done? ==> !Means(c, [s], actions, OptionLoop(h, c, next.value).value)
  {
    ValuesOfMore(c, [], s, c.longOpt[s.name].dest);
    assert [] + [s] == [s];
    if OptionLoop(h, c, next.value).Done? && Means(c, [s], actions, OptionLoop(h, c, next.value).value) {
      HandlerLogs(c);
      LoopLogs(h, c, next.value);
    }
  }

  // ----- clusters of flags -----

  predicate IsFlag(c: Config, prefix: char, letter: char) {
    [prefix, letter] in c.shortOpt && !c.shortOpt[[prefix, letter]].TakesValue()
  }

  function Separate(prefix: char, letters: string): seq<string> {
    if letters == "" then [] else [[prefix, letters[0]]] + Separate(prefix, letters[1..])
  }

  function Flagged(c: Config, prefix: char, letters: string, st: State): Outcome<State>
    decreases |letters|
  {
    if letters == "" then Done(st)
    else if [prefix, letters[0]] !in c.shortOpt then Raised(NoSuchOption([prefix, letters[0]]))
    else
      var next :- Process(c.shortOpt[[prefix, letters[0]]], UnsetValue, st);
      Flagged(c, prefix, letters[1..], next)
  }

  lemma {:induction false} ClusterIsFlagged(c: Config, prefix: char, arg: string, i: nat, st: State)
    requires 0 < i <= |arg| && arg[0] == prefix && forall x <- arg[i..] :: IsFlag(c, prefix, x)
    ensures MatchShort(c, arg, i, "", st) == Flagged(c, prefix, arg[i..], st)
    decreases |arg| - i
  {
    if i < |arg| {
      assert arg[i..][0] == arg[i] && arg[i] in arg[i..];
      assert arg[i..][1..] == arg[i + 1..];
      var next := Process(c.shortOpt[[prefix, arg[i]]], UnsetValue, st);
      if next.Done? { ClusterIsFlagged(c, prefix, arg, i + 1, next.value); }
    }
  }

  /** A cluster of flags that is no long option is read letter by letter; behind the prefix `=` the name that is
      looked for among the long options is empty, and there is none. */
  lemma ClusterIsMatched(c: Config, alnum: char -> bool, prefix: char, letters: string, st: State)
    requires WellFormed(c, alnum) && !alnum('=') && [prefix] in c.prefixes
    requires letters != "" && (prefix != '=' ==> [prefix] + letters !in c.longOpt)
    requires forall x <- letters :: alnum(x) && IsFlag(c, prefix, x)
    ensures var arg := [prefix] + letters;
      && LooksLikeOption(c, arg) && arg != "--"
      && ProcessOpts(c, arg, st) == Flagged(c, prefix, letters, st)
  {
    var arg := [prefix] + letters;
    assert arg[..1] == [prefix] && arg[1..] == letters;
    assert letters[0] in letters && [prefix][0] == prefix;
    assert arg[..2][1] == letters[0] && arg[..2][0] == prefix;
    if prefix != '=' {
      assert '=' !in arg;
      EqualSignBehind(arg, "");
      assert arg + "" == arg && arg[..|arg|] == arg;
    } else {
      assert EqualSign(arg) == 0 && arg[..0] == "";
    }
    ClusterIsFlagged(c, prefix, arg, 1, st);
  }

  lemma {:induction false} FlaggedKeepsWords(c: Config, prefix: char, letters: string, st: State)
    requires forall x <- letters :: IsFlag(c, prefix, x)
    ensures var r := Flagged(c, prefix, letters, st);
      r.Done? ==> r.value.largs == st.largs && r.value.rargs == st.rargs
    decreases |letters|
  {
    if letters != "" {
      assert letters[0] in letters;
      var next := Process(c.shortOpt[[prefix, letters[0]]], UnsetValue, st);
      if next.Done? { FlaggedKeepsWords(c, prefix, letters[1..], next.value); }
    }
  }

  /** The loop goes on behind a word that was handled. */
  lemma LoopHandled(h: Handler, c: Config, st: State, arg: string, rest: seq<string>)
    requires Shrinks(h) && st.rargs == [arg] + rest && LooksLikeOption(c, arg) && arg != "--"
    ensures var next := h(arg, st.(rargs := rest));
      OptionLoop(h, c, st) == if next.Done? then OptionLoop(h, c, next.value) else next
  {
    assert st.rargs[1..] == rest;
  }

  lemma {:induction false} LoopSeparate(
      h: Handler, c: Config, alnum: char -> bool, prefix: char, letters: string, rest: seq<string>, st: State)
    requires Shrinks(h) && IsHandler(h, c) && WellFormed(c, alnum) && !alnum('=')
    requires [prefix] in c.prefixes && forall x <- letters :: alnum(x) && IsFlag(c, prefix, x)
    requires st.rargs == Separate(prefix, letters) + rest
    ensures var next := Flagged(c, prefix, letters, st.(rargs := rest));
      OptionLoop(h, c, st) == if next.Done? then OptionLoop(h, c, next.value) else next
    decreases |letters|
  {
    if letters != "" {
      var x, more := letters[0], Separate(prefix, letters[1..]) + rest;
      assert x in letters;
      assert [prefix] + [x] == [prefix, x];
      assert st.rargs == [[prefix, x]] + more;
      ShortIsNotLong(c, alnum, prefix, x);
      ClusterIsMatched(c, alnum, prefix, [x], st.(rargs := more));
      LoopHandled(h, c, st, [prefix, x], more);
      var next := Process(c.shortOpt[[prefix, x]], UnsetValue, st.(rargs := more));
      assert [x][1..] == "";
      assert Flagged(c, prefix, [x], st.(rargs := more)) == next;
      if next.Done? { LoopSeparate(h, c, alnum, prefix, letters[1..], rest, next.value); }
    } else {
      assert st.rargs == rest;
    }
  }

  lemma ShortIsNotLong(c: Config, alnum: char -> bool, prefix: char, x: char)
    requires WellFormed(c, alnum) && [prefix] in c.prefixes && alnum(x)
    ensures [prefix, x] !in c.longOpt
  {
    assert [prefix][0] == prefix;
    assert [prefix, x][0] == prefix && [prefix, x][1] == x;
  }

  /** A cluster `-xyz` of flags parses as `-x -y -z` does, when it is no long option. */
  lemma ClusterSplits(c: Config, alnum: char -> bool, prefix: char, letters: string, rest: seq<string>, st: State)
    requires WellFormed(c, alnum) && !alnum('=') && [prefix] in c.prefixes
    requires letters != "" && (prefix != '=' ==> [prefix] + letters !in c.longOpt)
    requires forall x <- letters :: alnum(x) && IsFlag(c, prefix, x)
    ensures Shrinks(HandlerOf(c))
    ensures OptionLoop(HandlerOf(c), c, st.(rargs := [[prefix] + letters] + rest))
         == OptionLoop(HandlerOf(c), c, st.(rargs := Separate(prefix, letters) + rest))
  {
    HandlerShrinks(c);
    var h := HandlerOf(c);
    LoopSeparate(h, c, alnum, prefix, letters, rest, st.(rargs := Separate(prefix, letters) + rest));
    ClusterIsMatched(c, alnum, prefix, letters, st.(rargs := rest));
    LoopHandled(h, c, st.(rargs := [[prefix] + letters] + rest), [prefix] + letters, rest);
  }

  lemma LoopDashes(h: Handler, c: Config, st: State, words: seq<string>)
    requires Shrinks(h) && st.rargs == ["--"] + words
    ensures OptionLoop(h, c, st) == Done(st.(rargs := words))
  {
    assert st.rargs[1..] == words;
  }
}
