/**
 What a `--` protects: the words behind it stay as they are, and what stands before it is read as if it were alone.
 */
module ClickDashes {
  import opened Options
  import opened ClickModel
  import opened ClickLeftovers

  // ----- options that do not look beyond the end -----

  /** If it gets by without more words, the option does the same with a `--` and more words behind. */
  predicate Bounded(o: Opt) {
    o.TakesValue() ==> o.nargs >= 0 && (o.mayOmitValue ==> o.nargs <= 1)
  }

  predicate AllBounded(c: Config) {
    && "-" in c.prefixes
    && (forall name <- c.longOpt :: Bounded(c.longOpt[name]))
    && (forall name <- c.shortOpt :: Bounded(c.shortOpt[name]))
  }

  function Dashes(words: seq<string>): seq<string> { ["--"] + words }

  /** Where it finds a value without these words behind, it finds the same with them. */
  ghost predicate SameValue(c: Config, name: string, o: Opt, rargs: seq<string>, words: seq<string>) {
    var r := GetValue(c, name, o, rargs);
    r.Done? ==> GetValue(c, name, o, rargs + Dashes(words)) == Done((r.value.0, r.value.1 + Dashes(words)))
  }

  /** There are enough words in front. */
  lemma EnoughWords(c: Config, name: string, o: Opt, rargs: seq<string>, words: seq<string>)
    requires 0 <= o.nargs <= |rargs| && (o.mayOmitValue ==> o.nargs <= 1)
    ensures SameValue(c, name, o, rargs, words)
  {
    var n, more := o.nargs, rargs + Dashes(words);
    assert more[..n] == rargs[..n] && more[n..] == rargs[n..] + Dashes(words);
    if n == 1 { assert more[0] == rargs[0] && rargs[1..] == rargs[n..]; }
  }

  /** A value that is omitted at the end of the words is omitted in front of a `--` too. */
  lemma NoWords(c: Config, name: string, o: Opt, words: seq<string>)
    requires "-" in c.prefixes && o.nargs == 1 && o.mayOmitValue
    ensures SameValue(c, name, o, [], words)
  {
    var more := [] + Dashes(words);
    assert more == Dashes(words) && more[0] == "--" && "--"[..1] == "-";
  }

  lemma BoundedValue(c: Config, name: string, o: Opt, rargs: seq<string>, words: seq<string>)
    requires "-" in c.prefixes && Bounded(o) && o.TakesValue()
    ensures SameValue(c, name, o, rargs, words)
  {
    if o.nargs <= |rargs| {
      EnoughWords(c, name, o, rargs, words);
    } else if o.mayOmitValue {
      assert rargs == [];
      NoWords(c, name, o, words);
    }
  }

  /** Exactly the bounded options keep to themselves. */
  lemma BoundedIff(c: Config, name: string, o: Opt)
    requires "-" in c.prefixes && o.TakesValue()
    ensures Bounded(o) <==> forall rargs, words :: SameValue(c, name, o, rargs, words)
  {
    if Bounded(o) {
      forall rargs, words ensures SameValue(c, name, o, rargs, words) { BoundedValue(c, name, o, rargs, words); }
    } else {
      var size := if o.nargs < 0 then -o.nargs else o.nargs;
      var words := seq(size, _ => "");
      assert |[] + Dashes(words)| == size + 1;
      assert !SameValue(c, name, o, [], words);
    }
  }

  // ----- handlers -----

  function Behind(st: State, words: seq<string>): State { st.(rargs := st.rargs + Dashes(words)) }

  ghost predicate KeepsApart(h: Handler, words: seq<string>) {
    forall arg, st {:trigger h(arg, st)} :: |arg| > 1 && h(arg, st).Done? ==>
      h(arg, Behind(st, words)) == Done(Behind(h(arg, st).value, words))
  }

  lemma TakeValueApart(c: Config, name: string, o: Opt, attached: Option<string>, st: State, words: seq<string>)
    requires "-" in c.prefixes && Bounded(o) && o.TakesValue() && TakeValue(c, name, o, attached, st).Done?
    ensures TakeValue(c, name, o, attached, Behind(st, words))
         == Done(Behind(TakeValue(c, name, o, attached, st).value, words))
  {
    var rargs := if attached.Some? then [attached.value] + st.rargs else st.rargs;
    var more := if attached.Some? then [attached.value] + (st.rargs + Dashes(words)) else st.rargs + Dashes(words);
    assert more == rargs + Dashes(words);
    assert GetValue(c, name, o, more) ==
      var r := GetValue(c, name, o, rargs).value; Done((r.0, r.1 + Dashes(words))) by {
      BoundedValue(c, name, o, rargs, words);
    }
  }

  lemma {:induction false} MatchShortApart(
      c: Config, arg: string, i: nat, unknown: string, st: State, words: seq<string>)
    requires AllBounded(c) && 0 < i <= |arg| && MatchShort(c, arg, i, unknown, st).Done?
    ensures MatchShort(c, arg, i, unknown, Behind(st, words))
         == Done(Behind(MatchShort(c, arg, i, unknown, st).value, words))
    decreases |arg| - i
  {
    if i < |arg| {
      var name := [arg[0], arg[i]];
      if name !in c.shortOpt {
        MatchShortApart(c, arg, i + 1, unknown + [arg[i]], st, words);
      } else if c.shortOpt[name].TakesValue() {
        TakeValueApart(c, name, c.shortOpt[name], if i + 1 < |arg| then Some(arg[i + 1..]) else None, st, words);
      } else {
        MatchShortApart(c, arg, i + 1, unknown, Process(c.shortOpt[name], UnsetValue, st).value, words);
      }
    }
  }

  lemma ProcessOptsApart(c: Config, arg: string, st: State, words: seq<string>)
    requires AllBounded(c) && |arg| > 1 && ProcessOpts(c, arg, st).Done?
    ensures ProcessOpts(c, arg, Behind(st, words)) == Done(Behind(ProcessOpts(c, arg, st).value, words))
  {
    var k := EqualSign(arg);
    var name := arg[..k];
    if name in c.longOpt {
      if c.longOpt[name].TakesValue() {
        TakeValueApart(c, name, c.longOpt[name], if k < |arg| then Some(arg[k + 1..]) else None, st, words);
      }
    } else if arg[..2] !in c.prefixes {
      MatchShortApart(c, arg, 1, "", st, words);
    }
  }

  // ----- the loop -----

  /** The loop ends before the last word: at a `--`, or at an argument behind which no options are looked for. */
  ghost predicate EndsEarly(h: Handler, c: Config, st: State)
    requires Shrinks(h)
    decreases Measure(st.rargs)
  {
    if st.rargs == [] then false
    else
      var arg, rest := st.rargs[0], st.rargs[1..];
      if arg == "--" then true
      else if LooksLikeOption(c, arg) then
        h(arg, st.(rargs := rest)).Done? && EndsEarly(h, c, h(arg, st.(rargs := rest)).value)
      else !c.interspersed || EndsEarly(h, c, st.(largs := st.largs + [arg], rargs := rest))
  }

  lemma {:induction false} LoopApart(h: Handler, c: Config, st: State, words: seq<string>)
    requires Shrinks(h) && KeepsApart(h, words) && OptionLoop(h, c, st).Done?
    ensures var r := OptionLoop(h, c, st).value;
      && OptionLoop(h, c, Behind(st, words))
         == Done(if EndsEarly(h, c, st) then Behind(r, words) else r.(rargs := words))
      && (!EndsEarly(h, c, st) ==> r.rargs == [])
    decreases Measure(st.rargs)
  {
    var all := Behind(st, words);
    if st.rargs == [] {
      assert all.rargs == ["--"] + words && all.rargs[1..] == words;
    } else {
      var arg, rest := st.rargs[0], st.rargs[1..];
      assert all.rargs[0] == arg && all.rargs[1..] == rest + Dashes(words);
      if arg == "--" {
      } else if LooksLikeOption(c, arg) {
        LoopApart(h, c, h(arg, st.(rargs := rest)).value, words);
      } else if c.interspersed {
        LoopApart(h, c, st.(largs := st.largs + [arg], rargs := rest), words);
      }
    }
  }

  ghost predicate ReadToItsEnd(c: Config, front: seq<string>) {
    HandlerShrinks(c);
    ParseOptions(c, front).Done? && !EndsEarly(HandlerOf(c), c, State(map[], [], front, []))
  }

  /** What stands in front of a `--` is read as if nothing followed, and what follows is left as it is: without the
      `--`, or with it if the front had its end before. */
  lemma DoubleDash(c: Config, front: seq<string>, words: seq<string>)
    requires AllBounded(c) && ParseOptions(c, front).Done?
    ensures var r := ParseOptions(c, front).value;
      && (ReadToItsEnd(c, front) ==> r.rargs == [])
      && ParseOptions(c, front + (["--"] + words))
         == Done(r.(rargs := if ReadToItsEnd(c, front) then words else r.rargs + (["--"] + words)))
  {
    var h := HandlerOf(c);
    HandlerShrinks(c);
    forall arg, st | |arg| > 1 && h(arg, st).Done?
      ensures h(arg, Behind(st, words)) == Done(Behind(h(arg, st).value, words))
    {
      ProcessOptsApart(c, arg, st, words);
    }
    LoopApart(h, c, State(map[], [], front, []), words);
  }
}
