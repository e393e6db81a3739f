/**
 What is left of a command line when its options have been taken out.
 */
module ClickLeftovers {
  import opened Options
  import opened ClickModel

  /** The words of `a` occur in `b`, in this order. */
  predicate IsSubsequence(a: seq<string>, b: seq<string>) {
    a == [] || (b != [] && ((a[0] == b[0] && IsSubsequence(a[1..], b[1..])) || IsSubsequence(a, b[1..])))
  }

  lemma {:induction false} SubsequenceOfSuffix(a: seq<string>, b: seq<string>, k: nat)
    requires k <= |b| && IsSubsequence(a, b[k..])
    ensures IsSubsequence(a, b)
    decreases k
  {
    if k == 0 {
      assert b[0..] == b;
    } else {
      assert b[k..] == b[1..][k - 1..];
      SubsequenceOfSuffix(a, b[1..], k - 1);
    }
  }

  lemma {:induction false} SubsequenceOfItself(a: seq<string>)
    ensures IsSubsequence(a, a)
  {
    if a != [] { SubsequenceOfItself(a[1..]); }
  }

  // ----- handlers that only take words from the front -----

  predicate IsSuffix(a: seq<string>, b: seq<string>) {
    |a| <= |b| && a == b[|b| - |a|..]
  }

  /** These are the last of the words, possibly behind a value that was put back and looks like an option. */
  predicate IsSuffixOrPutBack(c: Config, a: seq<string>, b: seq<string>) {
    IsSuffix(a, b) || (a != [] && LooksLikeOption(c, a[0]) && IsSuffix(a[1..], b))
  }

  ghost predicate Tame(h: Handler, c: Config) {
    forall arg, st {:trigger h(arg, st)} :: |arg| > 1 && h(arg, st).Done? ==>
      h(arg, st).value.largs == st.largs && IsSuffixOrPutBack(c, h(arg, st).value.rargs, st.rargs)
  }

  lemma SuffixOfSuffix(a: seq<string>, b: seq<string>, d: seq<string>)
    requires IsSuffix(a, b) && IsSuffix(b, d)
    ensures IsSuffix(a, d)
  {
    assert b == d[|d| - |b|..];
    assert b[|b| - |a|..] == d[|d| - |a|..];
  }

  lemma PutBackOfSuffix(c: Config, a: seq<string>, b: seq<string>, d: seq<string>)
    requires IsSuffixOrPutBack(c, a, b) && IsSuffix(b, d)
    ensures IsSuffixOrPutBack(c, a, d)
  {
    if IsSuffix(a, b) { SuffixOfSuffix(a, b, d); } else { SuffixOfSuffix(a[1..], b, d); }
  }

  /** What has been added to the arguments since, and what is left to be read, comes from these words. */
  ghost predicate Leaves(c: Config, largs: seq<string>, rargs: seq<string>, r: State) {
    && largs <= r.largs && IsSubsequence(r.largs[|largs|..] + r.rargs, rargs) && IsSuffix(r.rargs, rargs)
    && (!c.interspersed ==> r.largs == largs)
  }

  lemma LeavesAll(c: Config, largs: seq<string>, rargs: seq<string>, r: State)
    requires r.largs == largs && IsSuffix(r.rargs, rargs)
    ensures Leaves(c, largs, rargs, r)
  {
    SubsequenceOfItself(r.rargs);
    SubsequenceOfSuffix(r.rargs, rargs, |rargs| - |r.rargs|);
    assert r.largs[|largs|..] + r.rargs == r.rargs;
  }

  lemma LeavesArgument(c: Config, largs: seq<string>, arg: string, rest: seq<string>, words: seq<string>, r: State)
    requires c.interspersed && Leaves(c, largs + [arg], rest, r) && IsSuffix([arg] + rest, words)
    ensures Leaves(c, largs, words, r)
  {
    Behind(largs, arg, r.largs, r.rargs);
    var left := r.largs[|largs|..] + r.rargs;
    assert left[1..] == r.largs[|largs + [arg]|..] + r.rargs;
    assert ([arg] + rest)[1..] == rest;
    SubsequenceOfSuffix(left, words, |words| - |[arg] + rest|);
    SuffixOfSuffix(rest, [arg] + rest, words);
    SuffixOfSuffix(r.rargs, rest, words);
  }

  /** Behind its first word, what is read is the last of the words, whether the first one was put back or not. */
  lemma RestIsSuffix(c: Config, rargs: seq<string>, words: seq<string>)
    requires rargs != [] && IsSuffixOrPutBack(c, rargs, words)
    ensures IsSuffix(rargs[1..], words)
  {
    if IsSuffix(rargs, words) { SuffixOfSuffix(rargs[1..], rargs, words); }
  }

  /** A value that was put back looks like an option, so the loop takes it: it never gets to the arguments. */
  lemma {:induction false} LoopLeavesWords(h: Handler, c: Config, st: State, words: seq<string>)
    requires Shrinks(h) && Tame(h, c) && OptionLoop(h, c, st).Done?
    requires IsSuffixOrPutBack(c, st.rargs, words)
    ensures Leaves(c, st.largs, words, OptionLoop(h, c, st).value)
    decreases Measure(st.rargs)
  {
    var r := OptionLoop(h, c, st).value;
    if st.rargs == [] {
      LeavesAll(c, st.largs, words, r);
    } else {
      var arg, rest := st.rargs[0], st.rargs[1..];
      assert st.rargs == [arg] + rest;
      RestIsSuffix(c, st.rargs, words);
      if arg == "--" {
        LeavesAll(c, st.largs, words, r);
      } else if LooksLikeOption(c, arg) {
        var next := h(arg, st.(rargs := rest)).value;
        PutBackOfSuffix(c, next.rargs, rest, words);
        LoopLeavesWords(h, c, next, words);
      } else if c.interspersed {
        LoopLeavesWords(h, c, st.(largs := st.largs + [arg], rargs := rest), rest);
        LeavesArgument(c, st.largs, arg, rest, words, r);
      } else {
        LeavesAll(c, st.largs, words, r);
      }
    }
  }

  lemma Behind(before: seq<string>, arg: string, after: seq<string>, rest: seq<string>)
    requires before + [arg] <= after
    ensures after[|before|..] + rest == [arg] + (after[|before| + 1..] + rest)
  {
  }

  // ----- which configurations are tame -----

  /** This option, if it takes a value at all, takes one word at least, and just one if it may go without. */
  predicate Consumes(o: Opt) {
    o.TakesValue() ==> o.nargs >= 1 && (o.mayOmitValue ==> o.nargs == 1)
  }

  predicate Consuming(c: Config) {
    && !c.ignoreUnknown
    && (forall name <- c.longOpt :: Consumes(c.longOpt[name]))
    && (forall name <- c.shortOpt :: Consumes(c.shortOpt[name]))
  }

  /** Such an option takes its words, or leaves all of them because there are none or the first looks like an option. */
  lemma WordsTaken(c: Config, name: string, o: Opt, rargs: seq<string>)
    requires o.TakesValue() && Consumes(o) && GetValue(c, name, o, rargs).Done?
    ensures var left := GetValue(c, name, o, rargs).value.1;
      || (left == rargs && (rargs == [] || LooksLikeOption(c, rargs[0])))
      || (o.nargs <= |rargs| && left == rargs[o.nargs..])
  {
  }

  lemma DropIsSuffix(rargs: seq<string>, words: seq<string>, n: nat)
    requires n <= |rargs| && (rargs == words || (n > 0 && rargs[1..] == words))
    ensures IsSuffix(rargs[n..], words)
  {
    if rargs != words { assert rargs[n..] == rargs[1..][n - 1..]; }
  }

  lemma TakeValueIsTame(c: Config, name: string, o: Opt, attached: Option<string>, st: State)
    requires o.TakesValue() && Consumes(o) && TakeValue(c, name, o, attached, st).Done?
    ensures var r := TakeValue(c, name, o, attached, st).value;
      r.largs == st.largs && IsSuffixOrPutBack(c, r.rargs, st.rargs)
  {
    var rargs := if attached.Some? then [attached.value] + st.rargs else st.rargs;
    assert attached.Some? ==> rargs[1..] == st.rargs;
    WordsTaken(c, name, o, rargs);
    if GetValue(c, name, o, rargs).value.1 != rargs { DropIsSuffix(rargs, st.rargs, o.nargs); }
  }

  lemma {:induction false} MatchShortIsTame(c: Config, arg: string, i: nat, st: State)
    requires Consuming(c) && 0 < i <= |arg| && MatchShort(c, arg, i, "", st).Done?
    ensures var r := MatchShort(c, arg, i, "", st).value;
      r.largs == st.largs && IsSuffixOrPutBack(c, r.rargs, st.rargs)
    decreases |arg| - i
  {
    if i < |arg| {
      var name := [arg[0], arg[i]];
      var o := c.shortOpt[name];
      if o.TakesValue() {
        TakeValueIsTame(c, name, o, if i + 1 < |arg| then Some(arg[i + 1..]) else None, st);
      } else {
        MatchShortIsTame(c, arg, i + 1, Process(o, UnsetValue, st).value);
      }
    }
  }

  lemma ProcessOptsIsTame(c: Config, arg: string, st: State)
    requires Consuming(c) && |arg| > 1 && ProcessOpts(c, arg, st).Done?
    ensures var r := ProcessOpts(c, arg, st).value;
      r.largs == st.largs && IsSuffixOrPutBack(c, r.rargs, st.rargs)
  {
    var k := EqualSign(arg);
    var name := arg[..k];
    if name in c.longOpt {
      if c.longOpt[name].TakesValue() {
        TakeValueIsTame(c, name, c.longOpt[name], if k < |arg| then Some(arg[k + 1..]) else None, st);
      }
    } else {
      MatchShortIsTame(c, arg, 1, st);
    }
  }

  ghost function ParseOptions(c: Config, args: seq<string>): Outcome<State> {
    HandlerShrinks(c);
    OptionLoop(HandlerOf(c), c, State(map[], [], args, []))
  }

  /** The leftovers of a command line are some of its words in their order: arguments that were met, and then the words
      that were not read, which are its end. */
  lemma LeftoversAreWords(c: Config, args: seq<string>)
    requires Consuming(c) && ParseOptions(c, args).Done?
    ensures var r := ParseOptions(c, args).value;
      && IsSubsequence(r.largs + r.rargs, args) && IsSuffix(r.rargs, args)
      && (!c.interspersed ==> r.largs == [])
  {
    var h := HandlerOf(c);
    HandlerShrinks(c);
    forall arg, st | |arg| > 1 && h(arg, st).Done?
      ensures h(arg, st).value.largs == st.largs && IsSuffixOrPutBack(c, h(arg, st).value.rargs, st.rargs)
    {
      ProcessOptsIsTame(c, arg, st);
    }
    LoopLeavesWords(h, c, State(map[], [], args, []), args);
    var r := ParseOptions(c, args).value;
    assert r.largs[0..] == r.largs;
  }

  // ----- exactly when a value that was put back is consumed -----

  /** If there is no error, the attached value is gone, possibly with words behind it. */
  predicate IsConsumed(c: Config, name: string, o: Opt, value: string, st: State) {
    var r := TakeValue(c, name, o, Some(value), st);
    r.Done? ==> IsSuffix(r.value.rargs, st.rargs)
  }

  predicate AlwaysConsumes(o: Opt) { o.nargs >= 1 && !o.mayOmitValue }

  /** An option that takes one word and may omit it leaves a value that looks like an option, and no other. */
  lemma OneWordIsConsumedIff(c: Config, name: string, o: Opt, value: string, st: State)
    requires o.nargs == 1 && o.mayOmitValue && TakeValue(c, name, o, Some(value), st).Done?
    ensures IsConsumed(c, name, o, value, st) <==> !LooksLikeOption(c, value)
    ensures LooksLikeOption(c, value) ==> TakeValue(c, name, o, Some(value), st).value.rargs == [value] + st.rargs
  {
    var rargs := [value] + st.rargs;
    assert rargs[1..] == st.rargs;
  }

  lemma EnoughIsConsumed(c: Config, name: string, o: Opt, value: string, st: State)
    requires AlwaysConsumes(o)
    ensures IsConsumed(c, name, o, value, st)
  {
    var rargs := [value] + st.rargs;
    assert rargs[1..] == st.rargs;
    if o.nargs <= |rargs| { DropIsSuffix(rargs, st.rargs, o.nargs); }
  }

  lemma OneWordStays(c: Config, name: string, o: Opt, rargs: seq<string>)
    requires |rargs| == 1 && !AlwaysConsumes(o) && LooksLikeOption(c, rargs[0])
    ensures GetValue(c, name, o, rargs).Done? && GetValue(c, name, o, rargs).value.1 == rargs
  {
    assert o.nargs <= 0 ==> SliceEnd(rargs, o.nargs) == 0;
    assert rargs[0..] == rargs;
  }

  lemma LastWordStays(c: Config, name: string, o: Opt, value: string, st: State)
    requires o.TakesValue() && !AlwaysConsumes(o) && LooksLikeOption(c, value)
    requires st.rargs == [] && st.opts == map[]
    ensures !IsConsumed(c, name, o, value, st)
  {
    var rargs := [value] + st.rargs;
    OneWordStays(c, name, o, rargs);
    assert TakeValue(c, name, o, Some(value), st).value.rargs == rargs;
  }

  /** Whatever the value and the words behind it, it is consumed exactly if the option takes a word and must have it. */
  lemma ConsumedIff(c: Config, name: string, o: Opt, prefix: char)
    requires o.TakesValue() && [prefix] in c.prefixes
    ensures AlwaysConsumes(o) <==> forall value, st :: IsConsumed(c, name, o, value, st)
  {
    if AlwaysConsumes(o) {
      forall value, st ensures IsConsumed(c, name, o, value, st) { EnoughIsConsumed(c, name, o, value, st); }
    } else {
      var value, st := [prefix, 'x'], State(map[], [], [], []);
      assert value[..1] == [prefix];
      LastWordStays(c, name, o, value, st);
    }
  }

  // ----- exactly when the leftovers are words of the command line -----

  /** Names as `add_option` takes them, none of them with a `=` in it. */
  ghost predicate NamesFit(c: Config, alnum: char -> bool) {
    && WellFormed(c, alnum)
    && (forall name <- c.longOpt :: '=' !in name)
    && (forall name <- c.shortOpt :: '=' !in name)
  }

  /** Its leftovers occur in the command line, in order. */
  ghost predicate LeavesOnlyWords(c: Config, args: seq<string>) {
    var r := ParseOptions(c, args);
    r.Done? ==> IsSubsequence(r.value.largs + r.value.rargs, args)
  }

  lemma {:induction false} EqualSignBehind(name: string, rest: string)
    requires '=' !in name && (rest == "" || rest[0] == '=')
    ensures EqualSign(name + rest) == |name|
  {
    if name == "" {
      assert name + rest == rest;
    } else {
      assert name[0] in name;
      EqualSignBehind(name[1..], rest);
      assert (name + rest)[1..] == name[1..] + rest;
    }
  }

  /** A value attached to an option that takes no words, or that may omit several, stays where it was put. */
  lemma ValueStays(c: Config, name: string, o: Opt, value: string, st: State)
    requires !Consumes(o) && o.dest !in st.opts && st.rargs == []
    ensures var r := TakeValue(c, name, o, Some(value), st);
      r.Done? && r.value.largs == st.largs && r.value.rargs == [value]
  {
    var rargs := [value] + st.rargs;
    assert rargs[..0] == [] && rargs[0..] == rargs == [value];
    assert o.nargs <= 0 ==> SliceEnd(rargs, o.nargs) == 0;
    assert GetValue(c, name, o, rargs).value.1 == rargs;
  }

  lemma LoopArgument(h: Handler, c: Config, st: State, arg: string)
    requires Shrinks(h) && st.rargs == [arg] && !LooksLikeOption(c, arg) && arg != "--"
    ensures OptionLoop(h, c, st)
         == Done(if c.interspersed then st.(largs := st.largs + [arg], rargs := []) else st)
  {
    assert st.rargs[1..] == [];
  }

  /** Then it ends up among the leftovers, if it does not look like an option. */
  lemma ValueIsLeft(h: Handler, c: Config, st: State, arg: string, next: State, value: string)
    requires Shrinks(h) && st.rargs == [arg] && LooksLikeOption(c, arg) && arg != "--"
    requires h(arg, st.(rargs := [])) == Done(next) && next.largs == [] && next.rargs == [value]
    requires !LooksLikeOption(c, value) && value != "--"
    ensures var r := OptionLoop(h, c, st); r.Done? && r.value.largs + r.value.rargs == [value]
  {
    assert st.rargs[1..] == [];
    LoopArgument(h, c, next, value);
  }

  lemma LongValueIsLeft(c: Config, name: string)
    requires name in c.longOpt && name != "" && '=' !in name && name[..1] in c.prefixes
    requires !Consumes(c.longOpt[name])
    ensures !LeavesOnlyWords(c, [name + "=v"])
  {
    var arg := name + "=v";
    HandlerShrinks(c);
    EqualSignBehind(name, "=v");
    assert arg[..|name|] == name && arg[|name| + 1..] == "v" && arg[..1] == name[..1];
    var st := State(map[], [], [arg], []);
    ValueStays(c, name, c.longOpt[name], "v", st.(rargs := []));
    var next := TakeValue(c, name, c.longOpt[name], Some("v"), st.(rargs := [])).value;
    assert ProcessOpts(c, arg, st.(rargs := [])) == Done(next);
    ValueIsLeft(HandlerOf(c), c, st, arg, next, "v");
    NotSubsequence("v", arg);
  }

  lemma NotSubsequence(a: string, b: string)
    requires a != b
    ensures !IsSubsequence([a], [b])
  {
    assert [b][1..] == [];
  }

  /** There are words of letters longer than all names. */
  lemma LongerThan(names: set<string>) returns (w: string)
    ensures |w| > 1 && (forall i :: 0 <= i < |w| ==> w[i] == 'v') && forall name <- names :: |name| < |w|
    decreases names
  {
    if names == {} {
      w := "vv";
    } else {
      var name :| name in names;
      var shorter := LongerThan(names - {name});
      w := seq(|shorter| + |name|, i => 'v');
      forall other <- names ensures |other| < |w| {
        if other != name { assert other in names - {name}; }
      }
    }
  }

  /** A short option with letters attached that make no long option of it. */
  lemma ShortWithValue(c: Config, alnum: char -> bool, name: string, w: string, st: State)
    requires NamesFit(c, alnum) && name in c.shortOpt && c.shortOpt[name].TakesValue()
    requires w != "" && '=' !in w && name + w !in c.longOpt
    ensures ProcessOpts(c, name + w, st) == MatchShort(c, name + w, 1, "", st)
    ensures MatchShort(c, name + w, 1, "", st) ==
      (var next :- TakeValue(c, name, c.shortOpt[name], Some(w), st); Done(EndCluster(c, name + w, "", next)))
  {
    var arg := name + w;
    assert '=' !in arg by { assert forall x :: x in arg ==> x in name || x in w; }
    EqualSignBehind(arg, "");
    assert arg + "" == arg && arg[..|arg|] == arg;
    assert arg[2..] == w && arg[..2] == name && [arg[0], arg[1]] == name;
  }

  lemma ShortValueIsLeft(c: Config, alnum: char -> bool, name: string) returns (args: seq<string>)
    requires NamesFit(c, alnum) && alnum('v') && !c.ignoreUnknown && name in c.shortOpt
    requires !Consumes(c.shortOpt[name])
    ensures !LeavesOnlyWords(c, args)
  {
    var w := LongerThan(c.longOpt.Keys);
    var arg := name + w;
    args := [arg];
    HandlerShrinks(c);
    var st := State(map[], [], [arg], []);
    assert w[0] == 'v' && arg[..1] == name[..1] && |arg| > 2;
    ShortWithValue(c, alnum, name, w, st.(rargs := []));
    ValueStays(c, name, c.shortOpt[name], w, st.(rargs := []));
    var next := TakeValue(c, name, c.shortOpt[name], Some(w), st.(rargs := [])).value;
    NotAnOption(c, alnum, w);
    ValueIsLeft(HandlerOf(c), c, st, arg, next, w);
    NotSubsequence(w, arg);
  }

  lemma NotAnOption(c: Config, alnum: char -> bool, w: string)
    requires NamesFit(c, alnum) && w != "" && alnum(w[0]) && w[0] == 'v'
    ensures !LooksLikeOption(c, w) && w != "--"
  {
    assert w[..1][0] == w[0];
  }

  /** The leftovers are words of the command line, whatever it is, exactly if every option that takes a value takes
      one word at least, and just one if it may go without. */
  lemma LeavesOnlyWordsIff(c: Config, alnum: char -> bool)
    requires NamesFit(c, alnum) && alnum('v') && !c.ignoreUnknown
    ensures Consuming(c) <==> forall args :: LeavesOnlyWords(c, args)
  {
    if Consuming(c) {
      forall args ensures LeavesOnlyWords(c, args) {
        if ParseOptions(c, args).Done? { LeftoversAreWords(c, args); }
      }
    } else if name :| name in c.longOpt && !Consumes(c.longOpt[name]) {
      LongValueIsLeft(c, name);
    } else {
      var name :| name in c.shortOpt && !Consumes(c.shortOpt[name]);
      var args := ShortValueIsLeft(c, alnum, name);
    }
  }
}
