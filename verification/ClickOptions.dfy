/**
 What flags, counters and unknown options come to, and which errors there are.
 */
module ClickOptions {
  import opened Options
  import opened ClickModel
  import opened ClickLeftovers
  import opened ClickRoundTrip
  import opened ClickArguments
  import P = ClickParser
  import U = ClickUnpack

  // ----- flags given several times -----

  /** A flag that is given `n` times to a parser that knows nothing yet. */
  function Times(o: Opt, n: nat, st: State): Outcome<State> {
    if n == 0 then Done(st)
    else
      var next :- Times(o, n - 1, st);
      Process(o, UnsetValue, next)
  }

  function Repeated<T>(x: T, n: nat): seq<T> { seq(n, _ => x) }

  lemma RepeatedMore<T>(x: T, n: nat)
    ensures Repeated(x, n + 1) == Repeated(x, n) + [x]
    ensures Repeated(x, n + 1) == [x] + Repeated(x, n)
  {
  }

  /** What a flag comes to: its constant, as often as it is given, or how often it is given. */
  function FlagValue(o: Opt, n: nat): Value
    requires o.action in {StoreConst, AppendConst, CountUp}
  {
    match o.action
    case StoreConst => o.constant
    case AppendConst => List(Repeated(o.constant, n))
    case CountUp => Number(n)
  }

  lemma OneFlagMore(o: Opt, n: nat, opts: map<Dest, Value>)
    requires o.action in {StoreConst, AppendConst, CountUp} && o.dest !in opts
    ensures NewOpts(o, UnsetValue, if n == 0 then opts else opts[o.dest := FlagValue(o, n)])
         == Done(opts[o.dest := FlagValue(o, n + 1)])
  {
    RepeatedMore(o.constant, n);
    assert Repeated(o.constant, 1) == [o.constant];
    if n > 0 {
      assert opts[o.dest := FlagValue(o, n)][o.dest := FlagValue(o, n + 1)] == opts[o.dest := FlagValue(o, n + 1)];
    }
  }

  lemma {:induction false} FlagTimes(o: Opt, n: nat, st: State)
    requires o.action in {StoreConst, AppendConst, CountUp} && o.dest !in st.opts
    ensures Times(o, n, st)
         == Done(st.(opts := if n == 0 then st.opts else st.opts[o.dest := FlagValue(o, n)],
                     order := st.order + Repeated(o.obj, n)))
  {
    if n == 0 {
      assert st.order + Repeated(o.obj, 0) == st.order;
    } else {
      FlagTimes(o, n - 1, st);
      RepeatedMore(o.obj, n - 1);
      assert st.order + Repeated(o.obj, n - 1) + [o.obj] == st.order + Repeated(o.obj, n);
      OneFlagMore(o, n - 1, st.opts);
    }
  }

  lemma {:induction false} TimesFirst(o: Opt, n: nat, st: State)
    requires n > 0
    ensures Times(o, n, st)
         == var next := Process(o, UnsetValue, st); if next.Done? then Times(o, n - 1, next.value) else next
  {
    if n > 1 { TimesFirst(o, n - 1, st); }
  }

  lemma {:induction false} FlaggedTimes(c: Config, prefix: char, x: char, n: nat, st: State)
    requires [prefix, x] in c.shortOpt
    ensures Flagged(c, prefix, Repeated(x, n), st) == Times(c.shortOpt[[prefix, x]], n, st)
    decreases n
  {
    if n > 0 {
      var o := c.shortOpt[[prefix, x]];
      RepeatedMore(x, n - 1);
      assert Repeated(x, n)[1..] == Repeated(x, n - 1);
      TimesFirst(o, n, st);
      var next := Process(o, UnsetValue, st);
      if next.Done? { FlaggedTimes(c, prefix, x, n - 1, next.value); }
    }
  }

  /** A command line of one cluster of the same flag, `-vvv`. */
  lemma ClusterCounts(c: Config, alnum: char -> bool, prefix: char, x: char, n: nat)
    requires WellFormed(c, alnum) && !alnum('=') && [prefix] in c.prefixes && alnum(x) && IsFlag(c, prefix, x)
    requires n > 0 && (prefix != '=' ==> [prefix] + Repeated(x, n) !in c.longOpt)
    requires c.shortOpt[[prefix, x]].action in {StoreConst, AppendConst, CountUp}
    ensures var o := c.shortOpt[[prefix, x]];
      ParseOptions(c, [[prefix] + Repeated(x, n)])
      == Done(State(map[o.dest := FlagValue(o, n)], [], [], Repeated(o.obj, n)))
  {
    HandlerShrinks(c);
    var o, letters, h := c.shortOpt[[prefix, x]], Repeated(x, n), HandlerOf(c);
    var arg, none := [prefix] + letters, State(map[], [], [], []);
    var st := none.(rargs := [arg]);
    assert forall y <- letters :: y == x;
    ClusterIsMatched(c, alnum, prefix, letters, none);
    FlaggedTimes(c, prefix, x, n, none);
    FlagTimes(o, n, none);
    assert st.rargs == [arg] + [];
    LoopHandled(h, c, st, arg, []);
    assert [] + Repeated(o.obj, n) == Repeated(o.obj, n);
  }

  lemma {:induction false} LoopFlag(h: Handler, c: Config, name: string, n: nat, st: State)
    requires Shrinks(h) && IsHandler(h, c) && IsLongFlag(c, name) && st.rargs == Repeated(name, n)
    ensures OptionLoop(h, c, st) == Times(c.longOpt[name], n, st.(rargs := []))
    decreases n
  {
    if n > 0 {
      RepeatedMore(name, n - 1);
      var more := Repeated(name, n - 1);
      LongFlag(c, name, st.(rargs := more));
      LoopHandled(h, c, st, name, more);
      TimesFirst(c.longOpt[name], n, st.(rargs := []));
      var next := Process(c.longOpt[name], UnsetValue, st.(rargs := more));
      if next.Done? { LoopFlag(h, c, name, n - 1, next.value); }
    } else {
      assert st.rargs == [];
    }
  }

  /** A long option that takes no value, written as a word. */
  predicate IsLongFlag(c: Config, name: string) {
    && name in c.longOpt && !c.longOpt[name].TakesValue() && '=' !in name
    && |name| > 1 && name[..1] in c.prefixes && name != "--"
  }

  lemma LongFlag(c: Config, name: string, st: State)
    requires IsLongFlag(c, name)
    ensures ProcessOpts(c, name, st) == Process(c.longOpt[name], UnsetValue, st)
  {
    EqualSignBehind(name, "");
    assert name + "" == name && name[..|name|] == name;
  }

  /** A command line of the same long flag, given `n` times. */
  lemma FlagCounts(c: Config, name: string, n: nat)
    requires IsLongFlag(c, name) && n > 0 && c.longOpt[name].action in {StoreConst, AppendConst, CountUp}
    ensures var o := c.longOpt[name];
      ParseOptions(c, Repeated(name, n)) == Done(State(map[o.dest := FlagValue(o, n)], [], [], Repeated(o.obj, n)))
  {
    HandlerShrinks(c);
    var o, none := c.longOpt[name], State(map[], [], [], []);
    LoopFlag(HandlerOf(c), c, name, n, none.(rargs := Repeated(name, n)));
    FlagTimes(o, n, none);
    assert [] + Repeated(o.obj, n) == Repeated(o.obj, n);
  }

  // ----- errors -----

  /** An option fails only where the program asks for what does not fit: its action is not known, or values are to be
      collected or counted in a place that holds something else. */
  lemma FailsIff(o: Opt, value: Value, st: State)
    ensures Process(o, value, st).Raised? <==>
      || o.action.UnknownAction?
      || (o.action in {Append, AppendConst} && o.dest in st.opts && !st.opts[o.dest].List?)
      || (o.action.CountUp? && o.dest in st.opts && !st.opts[o.dest].Number?)
    ensures Process(o, value, st).Raised? ==> Process(o, value, st).error == ProgramError
  {
  }

  /** The name of a word: what is before its first `=`. */
  function NameOf(arg: string): string { arg[..EqualSign(arg)] }

  /** An unknown name is an error if no letters are tried. */
  lemma UnknownName(c: Config, arg: string, st: State)
    requires |arg| > 1 && NameOf(arg) !in c.longOpt && arg[..2] in c.prefixes && !c.ignoreUnknown
    ensures ProcessOpts(c, arg, st) == Raised(NoSuchOption(NameOf(arg)))
  {
  }

  /** A value that is attached to a flag is an error. */
  lemma ValueForFlag(c: Config, name: string, value: string, st: State)
    requires IsLongFlag(c, name)
    ensures ProcessOpts(c, name + "=" + value, st) == Raised(BadOptionUsage(name))
  {
    var tail := "=" + value;
    EqualSignBehind(name, tail);
    assert name + "=" + value == name + tail && (name + tail)[..|name|] == name;
  }

  /** Too few words for an option that cannot omit its value are an error. */
  lemma TooFewWords(c: Config, name: string, st: State)
    requires name in c.longOpt && '=' !in name && |name| > 1
    requires var o := c.longOpt[name]; o.TakesValue() && !o.mayOmitValue && |st.rargs| < o.nargs
    ensures ProcessOpts(c, name, st) == Raised(BadOptionUsage(name))
  {
    EqualSignBehind(name, "");
    assert name + "" == name && name[..|name|] == name;
  }

  /** An error in the first word that looks like an option is the error of the command line. */
  lemma FirstOptionDecides(c: Config, a: seq<string>, arg: string, rest: seq<string>, error: Error)
    requires c.interspersed && (forall word <- a :: IsWord(c, word)) && LooksLikeOption(c, arg) && arg != "--"
    requires ProcessOpts(c, arg, State(map[], a, rest, [])) == Raised(error)
    ensures ParseOptions(c, a + [arg] + rest) == Raised(error)
  {
    HandlerShrinks(c);
    var h, args := HandlerOf(c), a + [arg] + rest;
    assert args == a + ([arg] + rest) && [] + a == a;
    LoopWords(h, c, a, [arg] + rest, State(map[], [], args, []));
    LoopHandled(h, c, State(map[], a, [arg] + rest, []), arg, rest);
  }

  // ----- clusters with letters that are unknown, or take values -----

  /** The letters that are flags, and those that are unknown. */
  function Known(c: Config, prefix: char, letters: string): string {
    if letters == "" then ""
    else (if [prefix, letters[0]] in c.shortOpt then [letters[0]] else "") + Known(c, prefix, letters[1..])
  }

  function Unknown(c: Config, prefix: char, letters: string): string {
    if letters == "" then ""
    else (if [prefix, letters[0]] in c.shortOpt then "" else [letters[0]]) + Unknown(c, prefix, letters[1..])
  }

  lemma KnownStep(c: Config, prefix: char, letters: string, st: State)
    requires letters != "" && [prefix, letters[0]] in c.shortOpt
    ensures Flagged(c, prefix, Known(c, prefix, letters), st)
         == var next := Process(c.shortOpt[[prefix, letters[0]]], UnsetValue, st);
            if next.Done? then Flagged(c, prefix, Known(c, prefix, letters[1..]), next.value) else next
  {
    var k := Known(c, prefix, letters);
    assert k == [letters[0]] + Known(c, prefix, letters[1..]);
    assert k[1..] == Known(c, prefix, letters[1..]);
  }

  lemma {:induction false} ClusterIsFiltered(c: Config, prefix: char, arg: string, i: nat, unknown: string, st: State)
    requires c.ignoreUnknown && 0 < i <= |arg| && arg[0] == prefix
    requires forall x <- arg[i..] :: [prefix, x] in c.shortOpt ==> IsFlag(c, prefix, x)
    ensures var done := Flagged(c, prefix, Known(c, prefix, arg[i..]), st);
      MatchShort(c, arg, i, unknown, st)
      == if done.Done? then Done(EndCluster(c, arg, unknown + Unknown(c, prefix, arg[i..]), done.value)) else done
    decreases |arg| - i
  {
    var letters := arg[i..];
    if i == |arg| {
      assert letters == "" && Known(c, prefix, letters) == "" && unknown + "" == unknown;
    } else {
      assert letters[0] == arg[i] && letters[0] in letters && letters[1..] == arg[i + 1..];
      if [prefix, arg[i]] in c.shortOpt {
        KnownStep(c, prefix, letters, st);
        assert Unknown(c, prefix, letters) == "" + Unknown(c, prefix, letters[1..]) == Unknown(c, prefix, letters[1..]);
        var next := Process(c.shortOpt[[prefix, arg[i]]], UnsetValue, st);
        if next.Done? { ClusterIsFiltered(c, prefix, arg, i + 1, unknown, next.value); }
      } else {
        ClusterIsFiltered(c, prefix, arg, i + 1, unknown + [arg[i]], st);
        assert Known(c, prefix, letters) == "" + Known(c, prefix, letters[1..]) == Known(c, prefix, letters[1..]);
        assert unknown + [arg[i]] + Unknown(c, prefix, letters[1..]) == unknown + Unknown(c, prefix, letters);
      }
    }
  }

  /** Where unknown options are ignored, a word with an unknown name is kept as it is. */
  lemma UnknownIsKept(c: Config, arg: string, st: State)
    requires c.ignoreUnknown && |arg| > 1 && NameOf(arg) !in c.longOpt && arg[..2] in c.prefixes
    ensures ProcessOpts(c, arg, st) == Done(st.(largs := st.largs + [arg]))
  {
  }

  /** And a cluster is read as its flags, while its unknown letters are kept together behind its prefix. */
  lemma UnknownLettersAreKept(c: Config, arg: string, st: State)
    requires c.ignoreUnknown && |arg| > 1 && NameOf(arg) !in c.longOpt && arg[..2] !in c.prefixes
    requires forall x <- arg[1..] :: [arg[0], x] in c.shortOpt ==> IsFlag(c, arg[0], x)
    ensures var unknown, done := Unknown(c, arg[0], arg[1..]), Flagged(c, arg[0], Known(c, arg[0], arg[1..]), st);
      ProcessOpts(c, arg, st)
      == if done.Done? && unknown != "" then
           Done(done.value.(largs := done.value.largs + [[arg[0]] + unknown]))
         else done
  {
    ClusterIsFiltered(c, arg[0], arg, 1, "", st);
    assert "" + Unknown(c, arg[0], arg[1..]) == Unknown(c, arg[0], arg[1..]);
  }

  lemma {:induction false} NoKnown(c: Config, prefix: char, letters: string)
    requires forall x <- letters :: [prefix, x] !in c.shortOpt
    ensures Known(c, prefix, letters) == "" && Unknown(c, prefix, letters) == letters
  {
    if letters != "" {
      assert letters[0] in letters;
      NoKnown(c, prefix, letters[1..]);
      assert [letters[0]] + letters[1..] == letters;
    }
  }

  /** A word that looks like an option and has neither a name nor a letter that is known. */
  predicate IsUnknown(c: Config, word: string) {
    && LooksLikeOption(c, word) && word != "--" && NameOf(word) !in c.longOpt
    && (word[..2] in c.prefixes || forall x <- word[1..] :: [word[0], x] !in c.shortOpt)
  }

  lemma UnknownStays(c: Config, word: string, st: State)
    requires c.ignoreUnknown && IsUnknown(c, word)
    ensures ProcessOpts(c, word, st) == Done(st.(largs := st.largs + [word]))
  {
    if word[..2] in c.prefixes {
      UnknownIsKept(c, word, st);
    } else {
      UnknownLettersAreKept(c, word, st);
      NoKnown(c, word[0], word[1..]);
      assert [word[0]] + word[1..] == word;
    }
  }

  lemma {:induction false} LoopKeeps(h: Handler, c: Config, words: seq<string>, st: State)
    requires Shrinks(h) && IsHandler(h, c) && c.ignoreUnknown && c.interspersed && st.rargs == words
    requires forall word <- words :: IsWord(c, word) || IsUnknown(c, word)
    ensures OptionLoop(h, c, st) == Done(st.(largs := st.largs + words, rargs := []))
    decreases |words|
  {
    if words == [] {
      assert st.largs + [] == st.largs;
    } else {
      var word, rest := words[0], words[1..];
      assert word in words && words == [word] + rest && st.largs + [word] + rest == st.largs + words;
      LoopKeeps(h, c, rest, st.(largs := st.largs + [word], rargs := rest));
      if IsUnknown(c, word) {
        UnknownStays(c, word, st.(rargs := rest));
        LoopHandled(h, c, st, word, rest);
      }
    }
  }

  /** A command line of words and unknown options, in any order, is left over as it stands. */
  lemma UnknownAreLeft(c: Config, words: seq<string>)
    requires c.ignoreUnknown && c.interspersed
    requires forall word <- words :: IsWord(c, word) || IsUnknown(c, word)
    ensures ParseOptions(c, words) == Done(State(map[], words, [], []))
  {
    HandlerShrinks(c);
    assert [] + words == words;
    LoopKeeps(HandlerOf(c), c, words, State(map[], [], words, []));
  }

  predicate IsNoSuchOption(r: Outcome<State>) { r.Raised? && r.error.NoSuchOption? }

  lemma {:induction false} ClusterKnows(c: Config, arg: string, i: nat, unknown: string, st: State)
    requires c.ignoreUnknown && 0 < i <= |arg|
    ensures !IsNoSuchOption(MatchShort(c, arg, i, unknown, st))
    decreases |arg| - i
  {
    if i < |arg| {
      var name := [arg[0], arg[i]];
      if name !in c.shortOpt {
        ClusterKnows(c, arg, i + 1, unknown + [arg[i]], st);
      } else if !c.shortOpt[name].TakesValue() {
        var next := Process(c.shortOpt[name], UnsetValue, st);
        if next.Done? { ClusterKnows(c, arg, i + 1, unknown, next.value); }
      }
    }
  }

  lemma WordByName(c: Config, arg: string, attached: Option<string>, st: State)
    requires |arg| > 1 && NameOf(arg) in c.longOpt
    requires attached == if EqualSign(arg) < |arg| then Some(arg[EqualSign(arg) + 1..]) else None
    ensures ProcessOpts(c, arg, st) == MatchLong(c, NameOf(arg), attached, st)
  {
  }

  lemma WordKnows(c: Config, arg: string, st: State)
    requires c.ignoreUnknown && |arg| > 1
    ensures !IsNoSuchOption(ProcessOpts(c, arg, st))
  {
    if NameOf(arg) in c.longOpt {
      var attached := if EqualSign(arg) < |arg| then Some(arg[EqualSign(arg) + 1..]) else None;
      WordByName(c, arg, attached, st);
      P.LongErrors(c, NameOf(arg), attached, st);
    } else if arg[..2] in c.prefixes {
      UnknownIsKept(c, arg, st);
    } else {
      ClusterKnows(c, arg, 1, "", st);
    }
  }

  lemma {:induction false} LoopKnows(h: Handler, c: Config, st: State)
    requires Shrinks(h) && c.ignoreUnknown
    requires forall arg, st {:trigger h(arg, st)} :: |arg| > 1 ==> !IsNoSuchOption(h(arg, st))
    ensures !IsNoSuchOption(OptionLoop(h, c, st))
    decreases Measure(st.rargs)
  {
    if st.rargs != [] && st.rargs[0] != "--" {
      var arg, rest := st.rargs[0], st.rargs[1..];
      if LooksLikeOption(c, arg) {
        var next := h(arg, st.(rargs := rest));
        if next.Done? { LoopKnows(h, c, next.value); }
      } else if c.interspersed {
        LoopKnows(h, c, st.(largs := st.largs + [arg], rargs := rest));
      }
    }
  }

  /** Where unknown options are ignored, no command line is refused for one. */
  lemma NeverUnknown(c: Config, words: seq<string>)
    requires c.ignoreUnknown
    ensures !IsNoSuchOption(ParseOptions(c, words))
  {
    HandlerShrinks(c);
    var h := HandlerOf(c);
    forall arg, st | |arg| > 1 ensures !IsNoSuchOption(h(arg, st)) { WordKnows(c, arg, st); }
    LoopKnows(h, c, State(map[], [], words, []));
  }

  /** Otherwise the first unknown letter is an error. */
  lemma UnknownLetter(c: Config, arg: string, i: nat, st: State)
    requires !c.ignoreUnknown && |arg| > 1 && NameOf(arg) !in c.longOpt && arg[..2] !in c.prefixes
    requires 0 < i < |arg| && [arg[0], arg[i]] !in c.shortOpt && forall x <- arg[1..i] :: IsFlag(c, arg[0], x)
    ensures var done := Flagged(c, arg[0], arg[1..i], st);
      ProcessOpts(c, arg, st) == if done.Done? then Raised(NoSuchOption([arg[0], arg[i]])) else done
  {
    ClusterUpTo(c, arg, 1, i, st);
  }

  /** Flags at the start of a cluster are processed, and then its next letter. */
  lemma {:induction false} ClusterUpTo(c: Config, arg: string, i: nat, n: nat, st: State)
    requires 0 < i <= n <= |arg| && forall x <- arg[i..n] :: IsFlag(c, arg[0], x)
    ensures var done := Flagged(c, arg[0], arg[i..n], st);
      MatchShort(c, arg, i, "", st) == if done.Done? then MatchShort(c, arg, n, "", done.value) else done
    decreases n - i
  {
    if i < n {
      var letters := arg[i..n];
      assert letters[0] == arg[i] && letters[0] in letters && letters[1..] == arg[i + 1..n];
      var next := Process(c.shortOpt[[arg[0], arg[i]]], UnsetValue, st);
      if next.Done? { ClusterUpTo(c, arg, i + 1, n, next.value); }
    }
  }

  /** Behind its flags, a cluster may end with an option and its values: attached to it, or as the next words. */
  lemma ClusterWithValue(c: Config, arg: string, n: nat, values: seq<string>, st: State, rest: seq<string>)
    requires |arg| > 1 && NameOf(arg) !in c.longOpt && arg[..2] !in c.prefixes
    requires 0 < n < |arg| && (forall x <- arg[1..n] :: IsFlag(c, arg[0], x)) && [arg[0], arg[n]] in c.shortOpt
    requires c.shortOpt[[arg[0], arg[n]]].TakesValue() && c.shortOpt[[arg[0], arg[n]]].nargs == |values| >= 1
    requires c.shortOpt[[arg[0], arg[n]]].mayOmitValue && |values| == 1 ==> !LooksLikeOption(c, values[0])
    requires st.rargs == (if n + 1 < |arg| then values[1..] else values) + rest
    requires n + 1 < |arg| ==> arg[n + 1..] == values[0]
    ensures var done, o := Flagged(c, arg[0], arg[1..n], st.(rargs := rest)), c.shortOpt[[arg[0], arg[n]]];
      ProcessOpts(c, arg, st)
      == if done.Done? then
           Process(o, if |values| == 1 then Text(values[0]) else Tuple(U.Words(values)), done.value)
         else done
  {
    ClusterUpTo(c, arg, 1, n, st);
    FlaggedAnyWords(c, arg[0], arg[1..n], st, rest);
    var o, all := c.shortOpt[[arg[0], arg[n]]], values + rest;
    assert (if n + 1 < |arg| then [arg[n + 1..]] + st.rargs else st.rargs) == all;
    assert all[0] == values[0] && all[..|values|] == values && all[|values|..] == rest;
  }

  lemma {:induction false} FlaggedAnyWords(c: Config, prefix: char, letters: string, st: State, rest: seq<string>)
    requires forall x <- letters :: IsFlag(c, prefix, x)
    ensures var a, b := Flagged(c, prefix, letters, st), Flagged(c, prefix, letters, st.(rargs := rest));
      if a.Done? then a.value.rargs == st.rargs && b == Done(a.value.(rargs := rest)) else a == b
    decreases |letters|
  {
    if letters != "" {
      assert letters[0] in letters;
      var next := Process(c.shortOpt[[prefix, letters[0]]], UnsetValue, st);
      if next.Done? { FlaggedAnyWords(c, prefix, letters[1..], next.value, rest); }
    }
  }
}
