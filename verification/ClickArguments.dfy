/**
 What positional arguments get, said of the words of the command line: each its piece, one after the other.
 */
module ClickArguments {
  import opened Options
  import opened ClickModel
  import opened ClickLeftovers
  import opened ClickParser
  import U = ClickUnpack

  // ----- words that are no options -----

  predicate IsWord(c: Config, word: string) { word != "--" && (|word| <= 1 || word[..1] !in c.prefixes) }

  lemma {:induction false} LoopWords(h: Handler, c: Config, a: seq<string>, tail: seq<string>, st: State)
    requires Shrinks(h) && c.interspersed && (forall word <- a :: IsWord(c, word)) && st.rargs == a + tail
    ensures OptionLoop(h, c, st) == OptionLoop(h, c, st.(largs := st.largs + a, rargs := tail))
    decreases |a|
  {
    if a == [] {
      assert st.rargs == tail && st.largs + [] == st.largs;
    } else {
      var rest := a[1..] + tail;
      assert st.rargs[0] == a[0] && a[0] in a && st.rargs[1..] == rest;
      LoopWords(h, c, a[1..], tail, st.(largs := st.largs + [a[0]], rargs := rest));
      assert st.largs + [a[0]] + a[1..] == st.largs + a;
    }
  }

  /** Words, then `--` and any words: the words before are collected, those behind are left to be read. */
  lemma WordsAndDashes(c: Config, a: seq<string>, b: seq<string>)
    requires c.interspersed && forall word <- a :: IsWord(c, word)
    ensures ParseOptions(c, a + ["--"] + b) == Done(State(map[], a, b, []))
  {
    HandlerShrinks(c);
    var args, tail := a + ["--"] + b, ["--"] + b;
    assert args == a + tail && tail[1..] == b && [] + a == a;
    LoopWords(HandlerOf(c), c, a, tail, State(map[], [], args, []));
  }

  /** Without interspersed arguments the first word that is no option ends the options, and nothing is lost. */
  lemma FirstWordStops(c: Config, words: seq<string>)
    requires !c.interspersed && words != [] && IsWord(c, words[0])
    ensures ParseOptions(c, words) == Done(State(map[], [], words, []))
  {
    HandlerShrinks(c);
  }

  // ----- pieces of the words -----

  /** The words are cut into one piece for each argument: as many words as it takes, or any number for the one that
      takes all that remain; what is behind the last piece is left over. */
  predicate Cut(words: seq<string>, spec: seq<int>, cuts: seq<nat>) {
    && |cuts| == |spec| + 1 && cuts[0] == 0 && cuts[|spec|] <= |words|
    && (forall j :: 0 <= j < |spec| ==> cuts[j] <= cuts[j + 1] && spec[j] != 0)
    && (forall j :: 0 <= j < |spec| && spec[j] > 0 ==> cuts[j + 1] == cuts[j] + spec[j])
    && (forall i, j :: 0 <= i < j < |spec| && spec[i] < 0 ==> spec[j] > 0)
    && ((exists j :: 0 <= j < |spec| && spec[j] < 0) ==> cuts[|spec|] == |words|)
  }

  function Piece(words: seq<string>, cuts: seq<nat>, j: nat): seq<string>
    requires j + 1 < |cuts|
  {
    if cuts[j] <= cuts[j + 1] <= |words| then words[cuts[j]..cuts[j + 1]] else []
  }

  lemma {:induction false} Ascend(cuts: seq<nat>, i: nat, j: nat)
    requires i <= j < |cuts| && forall k :: 0 <= k < |cuts| - 1 ==> cuts[k] <= cuts[k + 1]
    ensures cuts[i] <= cuts[j]
    decreases j
  {
    if i < j { Ascend(cuts, i, j - 1); assert cuts[j - 1] <= cuts[j - 1 + 1]; }
  }

  lemma {:induction false} TotalIsCut(spec: seq<int>, cuts: seq<nat>, i: nat, j: nat)
    requires i <= j <= |spec| && |cuts| == |spec| + 1
    requires forall k :: i <= k < j ==> cuts[k + 1] == cuts[k] + spec[k]
    ensures cuts[i] + U.Total(spec, i, j) == cuts[j]
    decreases j - i
  {
    if i < j { TotalIsCut(spec, cuts, i + 1, j); }
  }

  /** What an argument gets from its piece. */
  function PieceValue(n: int, piece: seq<string>): Value {
    if n == 1 && |piece| == 1 then Text(piece[0])
    else if n < 0 && piece == [] then UnsetValue
    else Tuple(U.Words(piece))
  }

  function PieceSlot(n: int, piece: seq<string>): U.Slot {
    if n == 1 && |piece| == 1 then U.One(piece[0]) else U.Many(U.Words(piece))
  }

  lemma WholeSlice(words: seq<string>, lo: int, start: nat, n: nat)
    requires 0 <= lo <= start && start + n <= |words| && n > 0
    ensures U.Slice(words, lo, start, n) == PieceSlot(n, words[start..start + n])
  {
    if n != 1 {
      var many, piece := U.Slice(words, lo, start, n).values, words[start..start + n];
      assert |many| == n && forall i :: 0 <= i < n ==> many[i] == U.WordAt(words, lo, start + i) == Some(piece[i]);
      assert many == U.Words(piece);
    }
  }

  lemma FrontSlot(words: seq<string>, spec: seq<int>, cuts: seq<nat>, j: nat)
    requires Cut(words, spec, cuts) && j < U.FirstWildcard(spec)
    ensures U.SlotAt(words, spec, j) == PieceSlot(spec[j], Piece(words, cuts, j))
  {
    TotalIsCut(spec, cuts, 0, j);
    Ascend(cuts, j + 1, |spec|);
    assert spec[j] > 0;
    WholeSlice(words, 0, cuts[j], spec[j]);
  }

  lemma FrontIsCut(words: seq<string>, spec: seq<int>, cuts: seq<nat>)
    requires Cut(words, spec, cuts)
    ensures U.Front(words, spec) == cuts[U.FirstWildcard(spec)] <= |words|
  {
    TotalIsCut(spec, cuts, 0, U.FirstWildcard(spec));
    Ascend(cuts, U.FirstWildcard(spec), |spec|);
  }

  lemma BehindIsCut(words: seq<string>, spec: seq<int>, cuts: seq<nat>, j: nat)
    requires Cut(words, spec, cuts) && U.FirstWildcard(spec) < j <= |spec|
    ensures |words| - U.Total(spec, j, |spec|) == cuts[j] <= |words|
  {
    var w := U.FirstWildcard(spec);
    assert spec[w] < 0;
    forall k | j <= k < |spec| ensures cuts[k + 1] == cuts[k] + spec[k] { assert spec[k] > 0; }
    TotalIsCut(spec, cuts, j, |spec|);
    Ascend(cuts, j, |spec|);
  }

  lemma BackSlot(words: seq<string>, spec: seq<int>, cuts: seq<nat>, j: nat)
    requires Cut(words, spec, cuts) && U.FirstWildcard(spec) < j < |spec|
    ensures U.SlotAt(words, spec, j) == PieceSlot(spec[j], Piece(words, cuts, j))
  {
    var w := U.FirstWildcard(spec);
    assert spec[w] < 0 && spec[j] > 0;
    FrontIsCut(words, spec, cuts);
    BehindIsCut(words, spec, cuts, j);
    Ascend(cuts, w, j);
    Ascend(cuts, j + 1, |spec|);
    WholeSlice(words, cuts[w], cuts[j], spec[j]);
  }

  lemma WildSlot(words: seq<string>, spec: seq<int>, cuts: seq<nat>, w: nat)
    requires Cut(words, spec, cuts) && w == U.FirstWildcard(spec) < |spec|
    ensures U.SlotAt(words, spec, w) == PieceSlot(spec[w], Piece(words, cuts, w))
  {
    FrontIsCut(words, spec, cuts);
    BehindIsCut(words, spec, cuts, w + 1);
  }

  /** Each slot is made of its piece. */
  lemma SlotIsPiece(words: seq<string>, spec: seq<int>, cuts: seq<nat>, j: nat)
    requires Cut(words, spec, cuts) && j < |spec|
    ensures cuts[j] <= cuts[j + 1] <= |words|
    ensures U.ClosedForm(words, spec).slots[j] == PieceSlot(spec[j], Piece(words, cuts, j))
  {
    Ascend(cuts, j + 1, |spec|);
    var w := U.FirstWildcard(spec);
    if j < w {
      FrontSlot(words, spec, cuts, j);
    } else if j > w {
      BackSlot(words, spec, cuts, j);
    } else {
      WildSlot(words, spec, cuts, w);
    }
  }

  lemma RestIsPiece(words: seq<string>, spec: seq<int>, cuts: seq<nat>)
    requires Cut(words, spec, cuts)
    ensures U.ClosedForm(words, spec).rest == words[cuts[|spec|]..]
  {
    FrontIsCut(words, spec, cuts);
  }

  // ----- what is stored -----

  lemma {:induction false} NoHoles(piece: seq<string>)
    ensures Holes(U.Words(piece)) == 0
  {
    if piece != [] {
      assert U.Words(piece)[1..] == U.Words(piece[1..]);
      NoHoles(piece[1..]);
    }
  }

  lemma PieceIsStored(a: Argument, piece: seq<string>)
    requires a.nargs != 0 && (a.nargs > 0 ==> |piece| == a.nargs)
    ensures ArgumentValue(a, SlotValue(PieceSlot(a.nargs, piece))) == Done(PieceValue(a.nargs, piece))
  {
    NoHoles(piece);
    if a.nargs < 0 && piece != [] { assert U.Words(piece) != []; }
  }

  predicate IsLastFor(args: seq<Argument>, idx: nat, dest: Dest, j: int) {
    idx <= j < |args| && args[j].dest == dest && forall i :: j < i < |args| ==> args[i].dest != dest
  }

  /** The value of the last argument, from the one at `idx` on, that asks for this place. */
  function LastFor(args: seq<Argument>, values: seq<Value>, idx: nat, dest: Dest): (v: Option<Value>)
    requires idx <= |args| == |values|
    ensures v.None? <==> forall j :: idx <= j < |args| ==> args[j].dest != dest
    ensures forall j :: IsLastFor(args, idx, dest, j) ==> v == Some(values[j])
    decreases |args| - idx
  {
    if idx == |args| then None
    else
      var later := LastFor(args, values, idx + 1, dest);
      if later.Some? then later else if args[idx].dest == dest then Some(values[idx]) else None
  }

  function Objects(args: seq<Argument>, idx: nat): (order: seq<int>)
    requires idx <= |args|
    ensures |order| == |args| - idx && forall j :: 0 <= j < |order| ==> order[j] == args[idx + j].obj
    decreases |args| - idx
  {
    if idx == |args| then [] else [args[idx].obj] + Objects(args, idx + 1)
  }

  function Lookup(opts: map<Dest, Value>, dest: Dest): Option<Value> {
    if dest in opts then Some(opts[dest]) else None
  }

  function Either(first: Option<Value>, second: Option<Value>): Option<Value> {
    if first.Some? then first else second
  }

  /** Every place has the last value for it, or what was there before. */
  ghost predicate Stores(
      args: seq<Argument>, values: seq<Value>, idx: nat, before: map<Dest, Value>, after: map<Dest, Value>)
    requires idx <= |args| == |values|
  {
    forall dest :: Lookup(after, dest) == Either(LastFor(args, values, idx, dest), Lookup(before, dest))
  }

  lemma StoresNext(
      args: seq<Argument>, values: seq<Value>, idx: nat, before: map<Dest, Value>, after: map<Dest, Value>)
    requires idx < |args| == |values|
    requires Stores(args, values, idx + 1, before[args[idx].dest := values[idx]], after)
    ensures Stores(args, values, idx, before, after)
  {
  }

  lemma {:induction false} ProcessStores(
      args: seq<Argument>, slots: seq<U.Slot>, values: seq<Value>, idx: nat, st: State)
    requires idx <= |args| == |values| <= |slots|
    requires forall j :: idx <= j < |args| ==> ArgumentValue(args[j], SlotValue(slots[j])) == Done(values[j])
    ensures var r := ProcessArguments(args, slots, idx, st);
      && r.Done? && Stores(args, values, idx, st.opts, r.value.opts)
      && r.value == st.(opts := r.value.opts, order := st.order + Objects(args, idx))
    decreases |args| - idx
  {
    if idx < |args| {
      var next := ProcessArgument(args[idx], SlotValue(slots[idx]), st).value;
      ProcessStores(args, slots, values, idx + 1, next);
      StoresNext(args, values, idx, st.opts, ProcessArguments(args, slots, idx, st).value.opts);
    }
  }

  lemma {:induction false} ProcessRaises(
      args: seq<Argument>, slots: seq<U.Slot>, idx: nat, bad: nat, error: Error, st: State)
    requires idx <= bad < |args| <= |slots|
    requires forall j :: idx <= j < bad ==> ArgumentValue(args[j], SlotValue(slots[j])).Done?
    requires ArgumentValue(args[bad], SlotValue(slots[bad])) == Raised(error)
    ensures ProcessArguments(args, slots, idx, st) == Raised(error)
    decreases |args| - idx
  {
    if idx < bad {
      ProcessRaises(args, slots, idx + 1, bad, error, ProcessArgument(args[idx], SlotValue(slots[idx]), st).value);
    }
  }

  lemma {:induction false} FewWildcards(spec: seq<int>)
    requires forall i, j :: 0 <= i < j < |spec| && spec[i] < 0 ==> spec[j] > 0
    ensures U.Wildcards(spec) <= 1 && ((forall j :: 0 <= j < |spec| ==> spec[j] >= 0) ==> U.Wildcards(spec) == 0)
  {
    if spec != [] {
      var rest := spec[1..];
      forall i, j | 0 <= i < j < |rest| && rest[i] < 0 ensures rest[j] > 0 { assert spec[i + 1] < 0; }
      FewWildcards(rest);
      if spec[0] < 0 {
        forall j | 0 <= j < |rest| ensures rest[j] >= 0 { assert spec[j + 1] > 0; }
      }
    }
  }

  lemma SpecIsPlain(args: seq<Argument>)
    requires forall i :: 0 <= i < |args| ==> args[i].nargs != 0
    requires forall i, j :: 0 <= i < j < |args| && args[i].nargs < 0 ==> args[j].nargs > 0
    ensures U.Wildcards(Nargs(args)) <= 1 && U.NonZero(Nargs(args)) == Nargs(args)
  {
    FewWildcards(Nargs(args));
    U.RegularSpec(Nargs(args));
  }

  function PieceValues(args: seq<Argument>, words: seq<string>, cuts: seq<nat>): seq<Value>
    requires |cuts| == |args| + 1
  {
    seq(|args|, j requires 0 <= j < |args| => PieceValue(args[j].nargs, Piece(words, cuts, j)))
  }

  lemma CutSpec(args: seq<Argument>, words: seq<string>, cuts: seq<nat>)
    requires Cut(words, Nargs(args), cuts)
    ensures U.Wildcards(Nargs(args)) <= 1 && U.NonZero(Nargs(args)) == Nargs(args)
  {
    var spec := Nargs(args);
    forall i | 0 <= i < |args| ensures args[i].nargs != 0 { assert spec[i] == args[i].nargs; }
    forall i, j | 0 <= i < j < |args| && args[i].nargs < 0 ensures args[j].nargs > 0 {
      assert spec[i] == args[i].nargs && spec[j] == args[j].nargs;
    }
    SpecIsPlain(args);
  }

  /** However the words of a state can be cut, each argument gets its piece, and what is behind them is left over. */
  ghost predicate Distributed(args: seq<Argument>, words: seq<string>, cuts: seq<nat>, before: State, after: State)
    requires |cuts| == |args| + 1 && cuts[|args|] <= |words|
  {
    && Stores(args, PieceValues(args, words, cuts), 0, before.opts, after.opts)
    && after.order == before.order + Objects(args, 0) && after.largs == words[cuts[|args|]..] && after.rargs == []
  }

  lemma PiecesAreStored(args: seq<Argument>, st: State, cuts: seq<nat>)
    requires Cut(st.largs + st.rargs, Nargs(args), cuts)
    ensures var r := DistributeArguments(args, st);
      r.Done? && Distributed(args, st.largs + st.rargs, cuts, st, r.value)
  {
    var words, spec := st.largs + st.rargs, Nargs(args);
    CutSpec(args, words, cuts);
    var slots, values := U.ClosedForm(words, spec).slots, PieceValues(args, words, cuts);
    forall j | 0 <= j < |args| ensures ArgumentValue(args[j], SlotValue(slots[j])) == Done(values[j]) {
      SlotIsPiece(words, spec, cuts, j);
      PieceIsStored(args[j], Piece(words, cuts, j));
    }
    ProcessStores(args, slots, values, 0, st);
    RestIsPiece(words, spec, cuts);
  }

  // ----- whole command lines -----

  /** Words in front of a `--` and behind it come to the arguments in the order of the command line. */
  lemma WordsAreStored(c: Config, args: seq<Argument>, a: seq<string>, b: seq<string>, cuts: seq<nat>)
    requires c.interspersed && (forall word <- a :: IsWord(c, word)) && Cut(a + b, Nargs(args), cuts)
    ensures var r := ParseAll(c, args, a + ["--"] + b);
      r.Done? && Distributed(args, a + b, cuts, State(map[], [], [], []), r.value)
  {
    WordsAndDashes(c, a, b);
    PiecesAreStored(args, State(map[], a, b, []), cuts);
  }

  lemma SingleWords(args: seq<Argument>, words: seq<string>, cuts: seq<nat>, j: nat)
    requires |cuts| == |args| + 1 == |words| + 1 && (forall i :: 0 <= i <= |args| ==> cuts[i] == i)
    requires j < |args| && args[j].nargs == 1
    ensures PieceValues(args, words, cuts)[j] == Text(words[j])
  {
    assert Piece(words, cuts, j) == words[j..j + 1] == [words[j]];
  }

  /** The last argument for each place has stored the word at its own index, and there are no other places. */
  ghost predicate StoresWords(args: seq<Argument>, words: seq<string>, opts: map<Dest, Value>)
    requires |words| == |args|
  {
    && (forall j :: 0 <= j < |args| && IsLastFor(args, 0, args[j].dest, j) ==>
          Lookup(opts, args[j].dest) == Some(Text(words[j])))
    && (forall dest <- opts :: exists j :: 0 <= j < |args| && args[j].dest == dest)
  }

  lemma OneWordStores(args: seq<Argument>, words: seq<string>, cuts: seq<nat>, opts: map<Dest, Value>)
    requires |cuts| == |args| + 1 == |words| + 1 && (forall i :: 0 <= i <= |args| ==> cuts[i] == i)
    requires forall j :: 0 <= j < |args| ==> args[j].nargs == 1
    requires Stores(args, PieceValues(args, words, cuts), 0, map[], opts)
    ensures StoresWords(args, words, opts)
  {
    var values := PieceValues(args, words, cuts);
    forall j | 0 <= j < |args| && IsLastFor(args, 0, args[j].dest, j)
      ensures Lookup(opts, args[j].dest) == Some(Text(words[j]))
    {
      SingleWords(args, words, cuts, j);
      assert LastFor(args, values, 0, args[j].dest) == Some(values[j]);
    }
    forall dest <- opts ensures exists j :: 0 <= j < |args| && args[j].dest == dest {
      assert Lookup(opts, dest).Some? && LastFor(args, values, 0, dest).Some?;
    }
  }

  /** With one word for each argument, the one at `j` gets the word at `j`, and all are listed in order. */
  lemma OneWordEach(c: Config, args: seq<Argument>, a: seq<string>, b: seq<string>)
    requires c.interspersed && forall word <- a :: IsWord(c, word)
    requires |args| == |a| + |b| && forall j :: 0 <= j < |args| ==> args[j].nargs == 1
    ensures var r := ParseAll(c, args, a + ["--"] + b);
      && r.Done? && r.value.largs == [] && r.value.rargs == [] && StoresWords(args, a + b, r.value.opts)
      && |r.value.order| == |args| && (forall j :: 0 <= j < |args| ==> r.value.order[j] == args[j].obj)
  {
    var cuts: seq<nat> := seq(|args| + 1, j => j);
    WordsAreStored(c, args, a, b, cuts);
    OneWordStores(args, a + b, cuts, ParseAll(c, args, a + ["--"] + b).value.opts);
  }

  /** Without arguments all the words are left over. */
  lemma NoArguments(c: Config, a: seq<string>, b: seq<string>)
    requires c.interspersed && forall word <- a :: IsWord(c, word)
    ensures ParseAll(c, [], a + ["--"] + b) == Done(State(map[], a + b, [], []))
  {
    WordsAreStored(c, [], a, b, [0]);
    var r := ParseAll(c, [], a + ["--"] + b).value;
    assert (a + b)[0..] == a + b;
    forall dest ensures dest !in r.opts { assert Lookup(r.opts, dest) == None; }
    assert r.opts == map[];
  }

  // ----- when the words run out -----

  /** What an argument of `n` words gets from `start` on: all it takes, nothing, or too few. */
  function ShortValue(words: seq<string>, start: nat, n: nat): Outcome<Value>
    requires n > 0
  {
    if start + n <= |words| then Done(PieceValue(n, words[start..start + n]))
    else if start >= |words| then Done(UnsetValue)
    else Raised(BadArgumentUsage)
  }

  function Gaps(n: nat): seq<Option<string>> { seq(n, _ => None) }

  lemma {:induction false} AllGaps(n: nat)
    ensures Holes(Gaps(n)) == n
  {
    if n > 0 {
      assert Gaps(n)[1..] == Gaps(n - 1);
      AllGaps(n - 1);
    }
  }

  lemma {:induction false} HolesBehind(piece: seq<string>, n: nat)
    ensures Holes(U.Words(piece) + Gaps(n)) == n
  {
    if piece == [] {
      assert U.Words(piece) + Gaps(n) == Gaps(n);
      AllGaps(n);
    } else {
      assert (U.Words(piece) + Gaps(n))[1..] == U.Words(piece[1..]) + Gaps(n);
      HolesBehind(piece[1..], n);
    }
  }

  lemma ShortSlice(words: seq<string>, start: nat, n: nat)
    requires n > 1 && start + n > |words|
    ensures var piece := if start <= |words| then words[start..] else [];
      U.Slice(words, 0, start, n) == U.Many(U.Words(piece) + Gaps(n - |piece|))
  {
    var piece := if start <= |words| then words[start..] else [];
    var many, holes := U.Slice(words, 0, start, n).values, U.Words(piece) + Gaps(n - |piece|);
    assert |many| == n == |holes| && forall i :: 0 <= i < n ==> many[i] == U.WordAt(words, 0, start + i) == holes[i];
    assert many == holes;
  }

  /** A tuple is whole, unset, or an error, according to the words that are left for it. */
  lemma ShortIsStored(a: Argument, words: seq<string>, start: nat)
    requires a.nargs > 0
    ensures ArgumentValue(a, SlotValue(U.Slice(words, 0, start, a.nargs))) == ShortValue(words, start, a.nargs)
  {
    if start + a.nargs <= |words| {
      WholeSlice(words, 0, start, a.nargs);
      PieceIsStored(a, words[start..start + a.nargs]);
    } else if a.nargs > 1 {
      var piece := if start <= |words| then words[start..] else [];
      ShortSlice(words, start, a.nargs);
      HolesBehind(piece, a.nargs - |piece|);
    }
  }

  lemma {:induction false} HolesAre(words: seq<Option<string>>)
    ensures Holes(words) <= |words|
    ensures Holes(words) == 0 <==> forall word <- words :: word.Some?
    ensures Holes(words) == |words| <==> forall word <- words :: word.None?
  {
    if words != [] {
      HolesAre(words[1..]);
      assert words == [words[0]] + words[1..] && words[0] in words;
    }
  }

  /** Whatever an argument of several words is given: nothing but holes is no value, some holes are an error. */
  lemma TupleValueIs(a: Argument, value: Value)
    requires a.nargs > 1 && (value.Tuple? || value.Text?)
    ensures var unset := if value.Text? then value.text == "" else forall word <- value.words :: word.None?;
      ArgumentValue(a, value)
      == if unset then Done(UnsetValue)
         else if value.Tuple? && exists word <- value.words :: word.None? then Raised(BadArgumentUsage)
         else Done(value)
  {
    if value.Tuple? { HolesAre(value.words); }
  }

  /** Where each argument starts: behind what those before it take. */
  function StartOf(args: seq<Argument>, j: nat): (start: nat)
    requires j <= |args| && forall i :: 0 <= i < |args| ==> args[i].nargs > 0
  {
    if j == 0 then 0 else StartOf(args, j - 1) + args[j - 1].nargs
  }

  lemma {:induction false} TotalMore(spec: seq<int>, i: nat, j: nat)
    requires i <= j < |spec|
    ensures U.Total(spec, i, j + 1) == U.Total(spec, i, j) + spec[j]
    decreases j - i
  {
    if i < j { TotalMore(spec, i + 1, j); }
  }

  lemma {:induction false} TotalIsStart(args: seq<Argument>, j: nat)
    requires j <= |args| && forall i :: 0 <= i < |args| ==> args[i].nargs > 0
    ensures U.Total(Nargs(args), 0, j) == StartOf(args, j)
  {
    if j > 0 {
      TotalIsStart(args, j - 1);
      TotalMore(Nargs(args), 0, j - 1);
    }
  }

  lemma StartSlot(args: seq<Argument>, words: seq<string>, j: nat)
    requires j < |args| && forall i :: 0 <= i < |args| ==> args[i].nargs > 0
    ensures var a := args[j]; var r := U.ClosedForm(words, Nargs(args));
      ArgumentValue(a, SlotValue(r.slots[j])) == ShortValue(words, StartOf(args, j), a.nargs)
  {
    assert U.FirstWildcard(Nargs(args)) == |args|;
    TotalIsStart(args, j);
    ShortIsStored(args[j], words, StartOf(args, j));
  }

  ghost predicate SomeFallShort(args: seq<Argument>, words: seq<string>)
    requires forall i :: 0 <= i < |args| ==> args[i].nargs > 0
  {
    exists j :: 0 <= j < |args| && ShortValue(words, StartOf(args, j), args[j].nargs).Raised?
  }

  lemma {:induction false} FirstShort(args: seq<Argument>, words: seq<string>, j: nat) returns (bad: nat)
    requires forall i :: 0 <= i < |args| ==> args[i].nargs > 0
    requires j < |args| && ShortValue(words, StartOf(args, j), args[j].nargs).Raised?
    ensures bad <= j && ShortValue(words, StartOf(args, bad), args[bad].nargs).Raised?
    ensures forall i :: 0 <= i < bad ==> ShortValue(words, StartOf(args, i), args[i].nargs).Done?
    decreases j
  {
    bad := j;
    if i: nat :| i < j && ShortValue(words, StartOf(args, i), args[i].nargs).Raised? {
      bad := FirstShort(args, words, i);
    }
  }

  function ShortValues(args: seq<Argument>, words: seq<string>): seq<Value>
    requires forall i :: 0 <= i < |args| ==> args[i].nargs > 0
  {
    seq(|args|, j requires 0 <= j < |args| =>
      var v := ShortValue(words, StartOf(args, j), args[j].nargs); if v.Done? then v.value else UnsetValue)
  }

  /** If every argument takes a fixed number of words: it is an error exactly if one gets some of its words and not all;
      otherwise those behind the last word are unset, and the words behind the last argument are left over. */
  lemma FixedArguments(c: Config, args: seq<Argument>, a: seq<string>, b: seq<string>)
    requires c.interspersed && forall word <- a :: IsWord(c, word)
    requires forall i :: 0 <= i < |args| ==> args[i].nargs > 0
    ensures var words, r := a + b, ParseAll(c, args, a + ["--"] + b);
      if SomeFallShort(args, words) then r == Raised(BadArgumentUsage)
      else
        && r.Done? && Stores(args, ShortValues(args, words), 0, map[], r.value.opts)
        && r.value.order == Objects(args, 0) && r.value.rargs == []
        && r.value.largs == words[U.Min(StartOf(args, |args|), |words|)..]
  {
    WordsAndDashes(c, a, b);
    FixedAreStored(args, State(map[], a, b, []));
  }

  /** The slots of a state's words, for arguments that take fixed numbers of words. */
  ghost predicate FixedSlots(args: seq<Argument>, words: seq<string>, slots: seq<U.Slot>)
    requires forall i :: 0 <= i < |args| ==> args[i].nargs > 0
  {
    |slots| == |args| && forall j :: 0 <= j < |args| ==>
      ArgumentValue(args[j], SlotValue(slots[j])) == ShortValue(words, StartOf(args, j), args[j].nargs)
  }

  lemma SlotsAreFixed(args: seq<Argument>, words: seq<string>)
    requires forall i :: 0 <= i < |args| ==> args[i].nargs > 0
    ensures FixedSlots(args, words, U.ClosedForm(words, Nargs(args)).slots)
    ensures U.ClosedForm(words, Nargs(args)).rest == words[U.Min(StartOf(args, |args|), |words|)..]
  {
    forall j | 0 <= j < |args| ensures
      ArgumentValue(args[j], SlotValue(U.ClosedForm(words, Nargs(args)).slots[j]))
      == ShortValue(words, StartOf(args, j), args[j].nargs)
    {
      StartSlot(args, words, j);
    }
    assert U.FirstWildcard(Nargs(args)) == |args|;
    TotalIsStart(args, |args|);
  }

  lemma ShortRaises(args: seq<Argument>, words: seq<string>, slots: seq<U.Slot>, st: State)
    requires forall i :: 0 <= i < |args| ==> args[i].nargs > 0
    requires FixedSlots(args, words, slots) && SomeFallShort(args, words)
    ensures ProcessArguments(args, slots, 0, st) == Raised(BadArgumentUsage)
  {
    var j: nat :| j < |args| && ShortValue(words, StartOf(args, j), args[j].nargs).Raised?;
    var bad := FirstShort(args, words, j);
    ProcessRaises(args, slots, 0, bad, BadArgumentUsage, st);
  }

  lemma FixedAreStored(args: seq<Argument>, st: State)
    requires forall i :: 0 <= i < |args| ==> args[i].nargs > 0
    ensures var words, r := st.largs + st.rargs, DistributeArguments(args, st);
      if SomeFallShort(args, words) then r == Raised(BadArgumentUsage)
      else
        && r.Done? && Stores(args, ShortValues(args, words), 0, st.opts, r.value.opts)
        && r.value.order == st.order + Objects(args, 0) && r.value.rargs == []
        && r.value.largs == words[U.Min(StartOf(args, |args|), |words|)..]
  {
    var words := st.largs + st.rargs;
    SpecIsPlain(args);
    SlotsAreFixed(args, words);
    var slots := U.ClosedForm(words, Nargs(args)).slots;
    if SomeFallShort(args, words) {
      ShortRaises(args, words, slots, st);
    } else {
      ProcessStores(args, slots, ShortValues(args, words), 0, st);
    }
  }

  /** One argument of several words gets its tuple, or is unset, or it is an error. */
  lemma TupleArgument(c: Config, x: Argument, a: seq<string>, b: seq<string>)
    requires c.interspersed && (forall word <- a :: IsWord(c, word)) && x.nargs > 1
    ensures var words, r := a + b, ParseAll(c, [x], a + ["--"] + b);
      && (|words| >= x.nargs ==>
            r == Done(State(map[x.dest := Tuple(U.Words(words[..x.nargs]))], words[x.nargs..], [], [x.obj])))
      && (|words| == 0 ==> r == Done(State(map[x.dest := UnsetValue], [], [], [x.obj])))
      && (0 < |words| < x.nargs ==> r == Raised(BadArgumentUsage))
  {
    var words, args := a + b, [x];
    FixedArguments(c, args, a, b);
    assert StartOf(args, 0) == 0 && StartOf(args, 1) == x.nargs;
    assert ShortValue(words, StartOf(args, 0), args[0].nargs).Raised? <==> 0 < |words| < x.nargs;
    assert SomeFallShort(args, words) <==> 0 < |words| < x.nargs;
    if !SomeFallShort(args, words) {
      var r := ParseAll(c, args, a + ["--"] + b).value;
      OneStores(x, ShortValues(args, words), r.opts);
      assert Objects(args, 0) == [x.obj] + Objects(args, 1) == [x.obj] && [] + [x.obj] == [x.obj];
      if |words| >= x.nargs {
        assert words[0..0 + x.nargs] == words[..x.nargs];
      } else {
        assert words[0..] == [];
      }
    }
  }

  lemma OneStores(x: Argument, values: seq<Value>, opts: map<Dest, Value>)
    requires |values| == 1 && Stores([x], values, 0, map[], opts)
    ensures opts == map[x.dest := values[0]]
  {
    forall dest ensures Lookup(opts, dest) == if dest == x.dest then Some(values[0]) else None {
      assert LastFor([x], values, 0, dest) == if dest == x.dest then Some(values[0]) else None;
    }
    forall dest | dest in opts ensures dest == x.dest && opts[dest] == values[0] {
      assert Lookup(opts, dest).Some?;
    }
    assert Lookup(opts, x.dest) == Some(values[0]);
  }

  // ----- arguments that no command line suits -----

  lemma {:induction false} OneWildcard(spec: seq<int>, i: nat)
    requires i < |spec| && spec[i] < 0
    ensures U.Wildcards(spec) >= 1
  {
    if i > 0 { OneWildcard(spec[1..], i - 1); }
  }

  lemma {:induction false} NoWildcard(spec: seq<int>)
    requires U.Wildcards(spec) > 0
    ensures exists i :: 0 <= i < |spec| && spec[i] < 0
  {
    if spec[0] >= 0 {
      NoWildcard(spec[1..]);
      var i :| 0 <= i < |spec[1..]| && spec[1..][i] < 0;
      assert spec[i + 1] < 0;
    }
  }

  lemma {:induction false} TwoWildcardsIff(spec: seq<int>)
    ensures U.Wildcards(spec) > 1 <==> exists i, j :: 0 <= i < j < |spec| && spec[i] < 0 && spec[j] < 0
  {
    if spec != [] {
      var rest := spec[1..];
      TwoWildcardsIff(rest);
      if U.Wildcards(spec) > 1 {
        if spec[0] < 0 {
          NoWildcard(rest);
          var j :| 0 <= j < |rest| && rest[j] < 0;
          assert spec[0] < 0 && spec[j + 1] < 0;
        } else {
          var i, j :| 0 <= i < j < |rest| && rest[i] < 0 && rest[j] < 0;
          assert spec[i + 1] < 0 && spec[j + 1] < 0;
        }
      }
      if i, j :| 0 <= i < j < |spec| && spec[i] < 0 && spec[j] < 0 {
        OneWildcard(rest, j - 1);
        if i > 0 { assert rest[i - 1] < 0 && rest[j - 1] < 0; }
      }
    }
  }

  lemma {:induction false} FewerSlots(spec: seq<int>, i: nat)
    requires i < |spec| && spec[i] == 0
    ensures |U.NonZero(spec)| < |spec|
  {
    if i > 0 { FewerSlots(spec[1..], i - 1); } else { NoMoreSlots(spec[1..]); }
  }

  lemma {:induction false} NoMoreSlots(spec: seq<int>)
    ensures |U.NonZero(spec)| <= |spec|
  {
    if spec != [] { NoMoreSlots(spec[1..]); }
  }

  lemma {:induction false} SlotsForAll(args: seq<Argument>, slots: seq<U.Slot>, idx: nat, st: State)
    requires idx <= |args| && ProcessArguments(args, slots, idx, st).Done?
    ensures idx == |args| || |args| <= |slots|
    decreases |args| - idx
  {
    if idx < |args| {
      SlotsForAll(args, slots, idx + 1, ProcessArgument(args[idx], SlotValue(slots[idx]), st).value);
    }
  }

  /** Two arguments that take all that remains are an error of the program, whatever the words. */
  lemma TwoWildcardsFail(args: seq<Argument>, st: State, i: nat, j: nat)
    requires i < j < |args| && args[i].nargs < 0 && args[j].nargs < 0
    ensures DistributeArguments(args, st) == Raised(ProgramError)
  {
    TwoWildcardsIff(Nargs(args));
    assert Nargs(args)[i] < 0 && Nargs(args)[j] < 0;
  }

  /** And no words suit an argument that takes none. */
  lemma NoWordsNoSlot(args: seq<Argument>, st: State, i: nat)
    requires i < |args| && args[i].nargs == 0
    ensures DistributeArguments(args, st).Raised?
  {
    var spec := Nargs(args);
    assert spec[i] == 0;
    FewerSlots(spec, i);
    var slots := U.ClosedForm(st.largs + st.rargs, U.NonZero(spec)).slots;
    if ProcessArguments(args, slots, 0, st).Done? { SlotsForAll(args, slots, 0, st); }
  }

  lemma {:induction false} ManyForTuples(args: seq<Argument>, slots: seq<U.Slot>, idx: nat, st: State)
    requires idx <= |args| == |slots| && forall j :: 0 <= j < |args| && args[j].nargs > 1 ==> slots[j].Many?
    ensures ProcessArguments(args, slots, idx, st) != Raised(ProgramError)
    decreases |args| - idx
  {
    if idx < |args| {
      var next := ProcessArgument(args[idx], SlotValue(slots[idx]), st);
      if next.Done? { ManyForTuples(args, slots, idx + 1, next.value); }
    }
  }

  /** Of arguments it is the program's error exactly then; what the words can be wrong about is another one. */
  lemma ProgramErrorIff(args: seq<Argument>, st: State)
    requires forall i :: 0 <= i < |args| ==> args[i].nargs != 0
    ensures DistributeArguments(args, st) == Raised(ProgramError)
       <==> exists i, j :: 0 <= i < j < |args| && args[i].nargs < 0 && args[j].nargs < 0
  {
    if i, j :| 0 <= i < j < |args| && args[i].nargs < 0 && args[j].nargs < 0 {
      TwoWildcardsFail(args, st, i, j);
    } else {
      SpecIsPlain(args);
      var slots := U.ClosedForm(st.largs + st.rargs, Nargs(args)).slots;
      ManyForTuples(args, slots, 0, st);
    }
  }
}
