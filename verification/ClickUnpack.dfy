/**
 Distributing command-line words to positional arguments: a loop that takes from the front of two deques, and
 from their backs once it has met the one argument that takes all that remains.
 */
module ClickUnpack {
  import opened Options

  /** What one positional argument gets; holes of a tuple are `None`. */
  datatype Slot = Unset | One(value: string) | Many(values: seq<Option<string>>)

  datatype Unpacked = TwoWildcards | Unpacked(slots: seq<Slot>, rest: seq<string>)

  // ----- the closed form -----

  /** How many words the arguments from `i` up to `j` take. */
  function Total(spec: seq<int>, i: nat, j: nat): int
    requires j <= |spec|
    decreases j - i
  {
    if i >= j then 0 else spec[i] + Total(spec, i + 1, j)
  }

  function Max(a: int, b: int): int { if a < b then b else a }
  function Min(a: int, b: int): int { if a < b then a else b }

  /** The word at `k`, if there is one there at or behind `lo`. */
  function WordAt(args: seq<string>, lo: int, k: int): Option<string> {
    if 0 <= lo <= k < |args| then Some(args[k]) else None
  }

  /** The slice of `n` words from `start`, as a slot; words before `lo` are taken already. */
  function Slice(args: seq<string>, lo: int, start: int, n: int): Slot {
    if n == 1 then
      var word := WordAt(args, lo, start);
      if word.Some? then One(word.value) else Unset
    else Many(seq(Max(n, 0), i requires 0 <= i < n => WordAt(args, lo, start + i)))
  }

  function Wildcards(spec: seq<int>): nat {
    if spec == [] then 0 else (if spec[0] < 0 then 1 else 0) + Wildcards(spec[1..])
  }

  /** The first wildcard from `i` on, or the end. */
  function WildcardFrom(spec: seq<int>, i: nat): (w: nat)
    requires i <= |spec|
    ensures i <= w <= |spec| && (forall j :: i <= j < w ==> spec[j] >= 0) && (w < |spec| ==> spec[w] < 0)
    decreases |spec| - i
  {
    if i == |spec| || spec[i] < 0 then i else WildcardFrom(spec, i + 1)
  }

  function FirstWildcard(spec: seq<int>): (w: nat)
    ensures w <= |spec| && (forall j :: 0 <= j < w ==> spec[j] >= 0) && (w < |spec| ==> spec[w] < 0)
  {
    WildcardFrom(spec, 0)
  }

  /** How many words the arguments before the wildcard take. */
  function Front(args: seq<string>, spec: seq<int>): int {
    Min(Total(spec, 0, FirstWildcard(spec)), |args|)
  }

  /** Where the words of the argument at `j` start. */
  function Start(args: seq<string>, spec: seq<int>, j: nat): int
    requires j < |spec|
  {
    if j <= FirstWildcard(spec) then Total(spec, 0, j) else |args| - Total(spec, j, |spec|)
  }

  function Words(args: seq<string>): seq<Option<string>> {
    seq(|args|, i requires 0 <= i < |args| => Some(args[i]))
  }

  /** What the wildcard gets: the words that no slice on either side covers. */
  function Middle(args: seq<string>, spec: seq<int>): seq<string>
    requires FirstWildcard(spec) < |spec|
  {
    var lo := Front(args, spec);
    var hi := Max(lo, |args| - Total(spec, FirstWildcard(spec) + 1, |spec|));
    if 0 <= lo <= hi <= |args| then args[lo..hi] else []
  }

  function SlotAt(args: seq<string>, spec: seq<int>, j: nat): Slot
    requires j < |spec|
  {
    var w := FirstWildcard(spec);
    if j < w then Slice(args, 0, Start(args, spec, j), spec[j])
    else if j == w then Many(Words(Middle(args, spec)))
    else Slice(args, Front(args, spec), Start(args, spec, j), spec[j])
  }

  /** The slices of the arguments before the wildcard, the middle, and the slices of those behind it. */
  function ClosedSlots(args: seq<string>, spec: seq<int>): seq<Slot> {
    seq(|spec|, j requires 0 <= j < |spec| => SlotAt(args, spec, j))
  }

  function ClosedForm(args: seq<string>, spec: seq<int>): Unpacked {
    Unpacked(ClosedSlots(args, spec), Leftover(args, spec))
  }

  /** Without a wildcard the words behind the slices are left over. */
  function Leftover(args: seq<string>, spec: seq<int>): seq<string> {
    if FirstWildcard(spec) < |spec| then [] else args[Max(0, Front(args, spec))..]
  }

  /** An argument that takes no words gets no slot either. */
  function NonZero(spec: seq<int>): seq<int> {
    if spec == [] then [] else (if spec[0] == 0 then [] else [spec[0]]) + NonZero(spec[1..])
  }

  // ----- taking from a deque -----

  method Fetch<T>(c: seq<T>, back: bool) returns (item: Option<T>, rest: seq<T>)
    ensures c == [] ==> item == None && rest == []
    ensures c != [] && !back ==> item == Some(c[0]) && rest == c[1..]
    ensures c != [] && back ==> item == Some(c[|c| - 1]) && rest == c[..|c| - 1]
  {
    if c == [] {
      return None, [];
    } else if !back {
      return Some(c[0]), c[1..];
    } else {
      return Some(c[|c| - 1]), c[..|c| - 1];
    }
  }

  function Reversed<T>(s: seq<T>): (r: seq<T>)
    ensures |r| == |s|
  {
    seq(|s|, i requires 0 <= i < |s| => s[|s| - 1 - i])
  }

  /** The slot that `n` words from the front, or from the back, of these words make. */
  function SlotOf(words: seq<string>, n: nat, back: bool): Slot {
    Slice(words, 0, if back then |words| - n else 0, n)
  }

  function Without(words: seq<string>, n: nat, back: bool): seq<string> {
    if back then words[..Max(0, |words| - n)] else words[Min(n, |words|)..]
  }

  /** Where the word stands that is fetched after `n` others. */
  function Place(words: seq<string>, n: nat, back: bool): int {
    if back then |words| - 1 - n else n
  }

  lemma FetchStep(words: seq<string>, n: nat, back: bool)
    ensures var rest, word := Without(words, n, back), WordAt(words, 0, Place(words, n, back));
      && (rest == [] ==> word.None? && Without(words, n + 1, back) == [])
      && (rest != [] && back ==> word == Some(rest[|rest| - 1]) && Without(words, n + 1, back) == rest[..|rest| - 1])
      && (rest != [] && !back ==> word == Some(rest[0]) && Without(words, n + 1, back) == rest[1..])
  {
  }

  method FetchMany(words: seq<string>, n: nat, back: bool) returns (x: seq<Option<string>>, rest: seq<string>)
    ensures |x| == n && rest == Without(words, n, back)
    ensures forall i :: 0 <= i < n ==> x[i] == WordAt(words, 0, Place(words, i, back))
  {
    x, rest := [], words;
    while |x| < n
      invariant |x| <= n && rest == Without(words, |x|, back)
      invariant forall i :: 0 <= i < |x| ==> x[i] == WordAt(words, 0, Place(words, i, back))
    {
      FetchStep(words, |x|, back);
      var item;
      item, rest := Fetch(rest, back);
      x := x + [item];
    }
  }

  method TakeSlot(words: seq<string>, n: nat, back: bool) returns (slot: Slot, rest: seq<string>)
    requires n > 0
    ensures slot == SlotOf(words, n, back) && rest == Without(words, n, back)
  {
    if n == 1 {
      var item;
      item, rest := Fetch(words, back);
      slot := if item.Some? then One(item.value) else Unset;
    } else {
      var x;
      x, rest := FetchMany(words, n, back);
      if back {
        x := Reversed(x);
      }
      slot := Many(x);
    }
  }

  // ----- sums and filters of specs -----

  lemma {:induction false} TotalSplit(spec: seq<int>, i: nat, k: nat, j: nat)
    requires i <= k <= j <= |spec|
    ensures Total(spec, i, j) == Total(spec, i, k) + Total(spec, k, j)
    decreases k - i
  {
    if i < k { TotalSplit(spec, i + 1, k, j); }
  }

  lemma Regroup<T>(a: seq<T>, b: seq<T>, c: seq<T>)
    ensures a + (b + c) == (a + b) + c
  {
  }

  lemma {:induction false} NonZeroAppend(a: seq<int>, b: seq<int>)
    ensures NonZero(a + b) == NonZero(a) + NonZero(b)
  {
    if a == [] {
      assert a + b == b;
    } else {
      NonZeroAppend(a[1..], b);
      assert (a + b)[1..] == a[1..] + b;
      Regroup(if a[0] == 0 then [] else [a[0]], NonZero(a[1..]), NonZero(b));
    }
  }

  lemma {:induction false} WildcardsAppend(a: seq<int>, b: seq<int>)
    ensures Wildcards(a + b) == Wildcards(a) + Wildcards(b)
  {
    if a == [] {
      assert a + b == b;
    } else {
      WildcardsAppend(a[1..], b);
      assert (a + b)[1..] == a[1..] + b;
    }
  }

  lemma {:induction false} NonZeroKeepsWildcards(spec: seq<int>)
    ensures Wildcards(NonZero(spec)) == Wildcards(spec)
    ensures forall j :: 0 <= j < |NonZero(spec)| ==> NonZero(spec)[j] != 0
  {
    if spec != [] {
      NonZeroKeepsWildcards(spec[1..]);
      WildcardsAppend(if spec[0] == 0 then [] else [spec[0]], NonZero(spec[1..]));
    }
  }

  // ----- the loop -----

  /** Before the wildcard: the first `|slots|` arguments have their words, from the front. */
  ghost predicate FrontState(args: seq<string>, z: seq<int>, want: seq<Slot>,
                             todo: seq<int>, slots: seq<Slot>, words: seq<string>)
  {
    var j := |slots|;
    && |want| == |z| && j <= |z| && NonZero(todo) == z[j..] && j <= FirstWildcard(z)
    && 0 <= Total(z, 0, j) && words == args[Min(Total(z, 0, j), |args|)..]
    && forall i :: 0 <= i < j ==> slots[i] == want[i]
  }

  lemma NonZeroHead(todo: seq<int>, z: seq<int>, j: nat)
    requires j <= |z| && NonZero(todo) == z[j..] && todo != []
    ensures todo[0] == 0 ==> NonZero(todo[1..]) == z[j..]
    ensures todo[0] != 0 ==> j < |z| && z[j] == todo[0] && NonZero(todo[1..]) == z[j + 1..]
  {
    var rest := NonZero(todo[1..]);
    if todo[0] != 0 {
      assert z[j..] == [todo[0]] + rest;
      assert z[j..][0] == z[j] && z[j..][1..] == z[j + 1..];
    }
  }

  lemma SameSlice(a: seq<string>, b: seq<string>, lo: int, i: int, j: int, n: nat)
    requires n > 0 && forall k :: i <= k < i + n ==> WordAt(a, 0, k) == WordAt(b, lo, k + (j - i))
    ensures Slice(a, 0, i, n) == Slice(b, lo, j, n)
  {
    assert WordAt(a, 0, i) == WordAt(b, lo, i + (j - i));
    if n > 1 {
      var x, y := Slice(a, 0, i, n).values, Slice(b, lo, j, n).values;
      forall k | 0 <= k < n ensures x[k] == y[k] {
        assert WordAt(a, 0, i + k) == WordAt(b, lo, (i + k) + (j - i));
      }
      assert x == y;
    }
  }

  lemma FrontSlice(args: seq<string>, s: nat, n: nat)
    requires n > 0
    ensures SlotOf(args[Min(s, |args|)..], n, false) == Slice(args, 0, s, n)
    ensures Without(args[Min(s, |args|)..], n, false) == args[Min(s + n, |args|)..]
  {
    SameSlice(args[Min(s, |args|)..], args, 0, 0, s, n);
  }

  /** The words between the front and the last `s`, if there are any. */
  function Between(args: seq<string>, lo: nat, s: nat): seq<string>
    requires lo <= |args|
  {
    args[lo..Max(lo, |args| - s)]
  }

  lemma BackSlice(args: seq<string>, lo: nat, s: nat, n: nat)
    requires n > 0 && lo <= |args|
    ensures SlotOf(Between(args, lo, s), n, true) == Slice(args, lo, |args| - s - n, n)
    ensures Without(Between(args, lo, s), n, true) == Between(args, lo, s + n)
  {
    var words := Between(args, lo, s);
    SameSlice(words, args, lo, |words| - n, |args| - s - n, n);
  }

  lemma FrontWildcard(
      args: seq<string>, z: seq<int>, want: seq<Slot>, todo: seq<int>, slots: seq<Slot>, words: seq<string>)
    requires FrontState(args, z, want, todo, slots, words) && todo != [] && todo[0] < 0
    ensures |slots| == FirstWildcard(z) < |z| && NonZero(todo[1..]) == z[|slots| + 1..]
    ensures words == args[Front(args, z)..]
  {
    NonZeroHead(todo, z, |slots|);
  }

  lemma FrontStep(args: seq<string>, z: seq<int>, want: seq<Slot>, todo: seq<int>, slots: seq<Slot>, words: seq<string>)
    requires want == ClosedSlots(args, z) && FrontState(args, z, want, todo, slots, words) && todo != [] && todo[0] > 0
    ensures FrontState(
      args, z, want, todo[1..], slots + [SlotOf(words, todo[0], false)], Without(words, todo[0], false))
  {
    var j := |slots|;
    NonZeroHead(todo, z, j);
    TotalSplit(z, 0, j, j + 1);
    FrontSlice(args, Total(z, 0, j), z[j]);
    assert want[j] == SlotAt(args, z, j);
  }

  /** Behind the wildcard: the arguments from `e` on have their words, from the back; their slots stand in reverse. */
  ghost predicate BackFrom(args: seq<string>, z: seq<int>, want: seq<Slot>, w: nat, e: nat,
                           todo: seq<int>, slots: seq<Slot>, words: seq<string>)
  {
    && |want| == |z| && w < e <= |z| && |slots| == w + 1 + |z| - e && 0 <= Front(args, z) <= |args|
    && NonZero(todo) == z[w + 1..e] && 0 <= Total(z, e, |z|) && words == Between(args, Front(args, z), Total(z, e, |z|))
    && (forall i :: 0 <= i < w ==> slots[i] == want[i])
    && (forall j :: e <= j < |z| ==> slots[w + |z| - j] == want[j] && z[j] > 0)
  }

  ghost predicate BackState(args: seq<string>, z: seq<int>, want: seq<Slot>,
                            todo: seq<int>, slots: seq<Slot>, words: seq<string>)
  {
    var w := FirstWildcard(z);
    w < |slots| <= |z| && BackFrom(args, z, want, w, |z| + w + 1 - |slots|, todo, slots, words)
  }

  lemma NonZeroInit(todo: seq<int>, init: seq<int>, x: int, z: seq<int>, i: nat, e: nat)
    requires i <= e <= |z| && NonZero(todo) == z[i..e] && todo == init + [x]
    ensures x == 0 ==> NonZero(init) == z[i..e]
    ensures x != 0 ==> i < e && z[e - 1] == x && NonZero(init) == z[i..e - 1]
  {
    NonZeroOfLast(todo, x, init);
    if x == 0 {
      assert NonZero(init) + [] == NonZero(init);
    } else {
      LastOf(z, i, e, NonZero(init), x);
    }
  }

  lemma NonZeroLast(todo: seq<int>, z: seq<int>, i: nat, e: nat)
    requires i <= e <= |z| && NonZero(todo) == z[i..e] && todo != []
    ensures var x, init := todo[|todo| - 1], NonZero(todo[..|todo| - 1]);
      && (x == 0 ==> init == z[i..e])
      && (x != 0 ==> i < e && z[e - 1] == x && init == z[i..e - 1])
  {
    NonZeroInit(todo, todo[..|todo| - 1], todo[|todo| - 1], z, i, e);
  }

  lemma NonZeroOfLast(todo: seq<int>, x: int, init: seq<int>)
    requires todo == init + [x]
    ensures NonZero(todo) == NonZero(init) + if x == 0 then [] else [x]
  {
    NonZeroAppend(init, [x]);
    assert [x][1..] == [];
  }

  lemma LastOf(z: seq<int>, i: nat, e: nat, front: seq<int>, x: int)
    requires i <= e <= |z| && z[i..e] == front + [x]
    ensures i < e && z[e - 1] == x && z[i..e - 1] == front
  {
    var part := z[i..e];
    assert |part| == |front| + 1;
    assert part[e - 1 - i] == z[e - 1];
    assert part[..e - 1 - i] == z[i..e - 1];
  }

  /** The words of the last argument that still has none. */
  lemma LastWords(args: seq<string>, z: seq<int>, e: nat, s: nat, n: nat, words: seq<string>, slot: Slot)
    requires FirstWildcard(z) + 1 < e <= |z| && n == z[e - 1] > 0 && s == Total(z, e, |z|)
    requires 0 <= Front(args, z) <= |args| && words == Between(args, Front(args, z), s)
    requires slot == SlotAt(args, z, e - 1)
    ensures Total(z, e - 1, |z|) == n + s && SlotOf(words, n, true) == slot
    ensures Without(words, n, true) == Between(args, Front(args, z), s + n)
  {
    BackSlice(args, Front(args, z), s, n);
    SlotBehind(args, z, e - 1, s + n);
  }

  lemma SlotBehind(args: seq<string>, z: seq<int>, j: nat, s: nat)
    requires FirstWildcard(z) < j < |z| && s == Total(z, j, |z|)
    ensures SlotAt(args, z, j) == Slice(args, Front(args, z), |args| - s, z[j])
  {
  }

  lemma BackFromStep(args: seq<string>, z: seq<int>, want: seq<Slot>, w: nat, e: nat, todo: seq<int>,
                     slots: seq<Slot>, words: seq<string>, init: seq<int>, n: nat)
    requires want == ClosedSlots(args, z) && w == FirstWildcard(z)
    requires BackFrom(args, z, want, w, e, todo, slots, words) && todo == init + [n] && n > 0
    ensures w + 1 < e
    ensures BackFrom(args, z, want, w, e - 1, init, slots + [SlotOf(words, n, true)], Without(words, n, true))
  {
    NonZeroInit(todo, init, n, z, w + 1, e);
    assert want[e - 1] == SlotAt(args, z, e - 1);
    LastWords(args, z, e, Total(z, e, |z|), n, words, want[e - 1]);
    BackSlots(z, want, w, e, slots);
  }

  lemma BackStep(args: seq<string>, z: seq<int>, want: seq<Slot>, todo: seq<int>, slots: seq<Slot>, words: seq<string>)
    requires want == ClosedSlots(args, z) && BackState(args, z, want, todo, slots, words)
    requires todo != [] && todo[|todo| - 1] > 0
    ensures var n := todo[|todo| - 1];
      BackState(args, z, want, todo[..|todo| - 1], slots + [SlotOf(words, n, true)], Without(words, n, true))
  {
    var w, n := FirstWildcard(z), todo[|todo| - 1];
    BackFromStep(args, z, want, w, |z| + w + 1 - |slots|, todo, slots, words, todo[..|todo| - 1], n);
  }

  lemma BackSlots(z: seq<int>, want: seq<Slot>, w: nat, e: nat, slots: seq<Slot>)
    requires w + 1 < e <= |z| == |want| && |slots| == w + 1 + |z| - e && z[e - 1] > 0
    requires forall j :: e <= j < |z| ==> slots[w + |z| - j] == want[j] && z[j] > 0
    ensures forall j :: e - 1 <= j < |z| ==> (slots + [want[e - 1]])[w + |z| - j] == want[j] && z[j] > 0
  {
  }

  lemma {:induction false} TwoNegatives(z: seq<int>, i: nat, j: nat)
    requires i < j < |z| && z[i] < 0 && z[j] < 0
    ensures Wildcards(z) > 1
  {
    if i > 0 {
      TwoNegatives(z[1..], i - 1, j - 1);
    } else {
      OneNegative(z[1..], j - 1);
    }
  }

  lemma {:induction false} OneNegative(z: seq<int>, j: nat)
    requires j < |z| && z[j] < 0
    ensures Wildcards(z) > 0
  {
    if j > 0 { OneNegative(z[1..], j - 1); }
  }

  lemma {:induction false} NoNegatives(z: seq<int>)
    requires forall j :: 0 <= j < |z| ==> z[j] >= 0
    ensures Wildcards(z) == 0
  {
    if z != [] { NoNegatives(z[1..]); }
  }

  lemma BackStart(args: seq<string>, z: seq<int>, want: seq<Slot>, todo: seq<int>, slots: seq<Slot>, words: seq<string>)
    requires FrontState(args, z, want, todo, slots, words) && todo != [] && todo[0] < 0
    ensures BackState(args, z, want, todo[1..], slots + [Unset], words)
  {
    FrontWildcard(args, z, want, todo, slots, words);
    assert z[|z|..] == [];
    assert z[|slots| + 1..|z|] == z[|slots| + 1..];
    assert BackFrom(args, z, want, |slots|, |z|, todo[1..], slots + [Unset], words);
  }

  lemma FrontDone(args: seq<string>, z: seq<int>, want: seq<Slot>, slots: seq<Slot>, words: seq<string>)
    requires want == ClosedSlots(args, z) && FrontState(args, z, want, [], slots, words)
    ensures FirstWildcard(z) == |z| && Unpacked(slots, words) == ClosedForm(args, z)
  {
    var j := |slots|;
    assert |z[j..]| == 0;
    assert Max(0, Front(args, z)) == Min(Total(z, 0, j), |args|);
    assert slots == want;
  }

  /** The slots with the middle put in and the back turned round. */
  function Filled(slots: seq<Slot>, w: nat, words: seq<string>): seq<Slot>
    requires w < |slots|
  {
    slots[..w] + [Many(Words(words))] + Reversed(slots[w + 1..])
  }

  lemma BackDone(args: seq<string>, z: seq<int>, want: seq<Slot>, slots: seq<Slot>, words: seq<string>)
    requires want == ClosedSlots(args, z) && BackState(args, z, want, [], slots, words)
    ensures |slots| == |z| && Unpacked(Filled(slots, FirstWildcard(z), words), []) == ClosedForm(args, z)
  {
    var w := FirstWildcard(z);
    var e := |z| + w + 1 - |slots|;
    assert |z[w + 1..e]| == 0;
    assert want[w] == SlotAt(args, z, w);
    MiddleIs(args, z, w, Total(z, e, |z|), words);
    FilledIsWanted(z, want, w, slots, words);
  }

  lemma MiddleIs(args: seq<string>, z: seq<int>, w: nat, s: nat, words: seq<string>)
    requires w == FirstWildcard(z) < |z| && s == Total(z, w + 1, |z|) && 0 <= Front(args, z) <= |args|
    requires words == Between(args, Front(args, z), s)
    ensures Middle(args, z) == words && SlotAt(args, z, w) == Many(Words(words))
  {
  }

  lemma FilledIsWanted(z: seq<int>, want: seq<Slot>, w: nat, slots: seq<Slot>, words: seq<string>)
    requires w < |z| == |want| == |slots| && want[w] == Many(Words(words))
    requires forall i :: 0 <= i < w ==> slots[i] == want[i]
    requires forall j :: w < j < |z| ==> slots[w + |z| - j] == want[j]
    ensures Filled(slots, w, words) == want
  {
    var filled := Filled(slots, w, words);
    forall j | 0 <= j < |z| ensures filled[j] == want[j] {
      if j > w { assert slots[w + |z| - j] == want[j]; }
    }
  }

  lemma {:induction false} AllPositive(z: seq<int>, w: nat)
    requires w < |z| && z[w] < 0
    requires forall j :: 0 <= j < |z| && j != w ==> z[j] >= 0
    ensures Wildcards(z) == 1
  {
    if w > 0 {
      AllPositive(z[1..], w - 1);
    } else {
      NoNegatives(z[1..]);
    }
  }

  /** There is one wildcard at most exactly if every argument but the first one of them takes a fixed number. */
  lemma WildcardsAreFew(spec: seq<int>)
    ensures var z := NonZero(spec); var w := FirstWildcard(z);
      Wildcards(spec) <= 1 <==> forall j :: w < j < |z| ==> z[j] > 0
  {
    var z := NonZero(spec);
    var w := FirstWildcard(z);
    NonZeroKeepsWildcards(spec);
    if w < |z| {
      if j :| w < j < |z| && z[j] <= 0 {
        TwoNegatives(z, w, j);
      } else {
        AllPositive(z, w);
      }
    } else {
      NoNegatives(z);
    }
  }

  /** What the loop maintains, on either side of the wildcard. */
  ghost predicate LoopState(args: seq<string>, z: seq<int>, want: seq<Slot>, spos: Option<nat>, todo: seq<int>,
                            slots: seq<Slot>, words: seq<string>)
  {
    if spos.None? then FrontState(args, z, want, todo, slots, words)
    else spos.value == FirstWildcard(z) && BackState(args, z, want, todo, slots, words)
  }

  function Next(todo: seq<int>, back: bool): int
    requires todo != []
  {
    if back then todo[|todo| - 1] else todo[0]
  }

  function Rest(todo: seq<int>, back: bool): seq<int>
    requires todo != []
  {
    if back then todo[..|todo| - 1] else todo[1..]
  }

  lemma TakeStep(args: seq<string>, z: seq<int>, want: seq<Slot>, spos: Option<nat>, todo: seq<int>,
                 slots: seq<Slot>, words: seq<string>)
    requires want == ClosedSlots(args, z) && LoopState(args, z, want, spos, todo, slots, words)
    requires todo != [] && Next(todo, spos.Some?) > 0
    ensures var n := Next(todo, spos.Some?);
      LoopState(args, z, want, spos, Rest(todo, spos.Some?),
                slots + [SlotOf(words, n, spos.Some?)], Without(words, n, spos.Some?))
  {
    if spos.None? {
      FrontStep(args, z, want, todo, slots, words);
    } else {
      BackStep(args, z, want, todo, slots, words);
    }
  }

  lemma SkipStep(args: seq<string>, z: seq<int>, want: seq<Slot>, spos: Option<nat>, todo: seq<int>,
                 slots: seq<Slot>, words: seq<string>)
    requires LoopState(args, z, want, spos, todo, slots, words) && todo != [] && Next(todo, spos.Some?) == 0
    ensures LoopState(args, z, want, spos, Rest(todo, spos.Some?), slots, words)
  {
    if spos.None? {
      NonZeroHead(todo, z, |slots|);
    } else {
      NonZeroLast(todo, z, FirstWildcard(z) + 1, |z| + FirstWildcard(z) + 1 - |slots|);
    }
  }

  lemma TurnStep(args: seq<string>, z: seq<int>, want: seq<Slot>, todo: seq<int>, slots: seq<Slot>, words: seq<string>)
    requires LoopState(args, z, want, None, todo, slots, words) && todo != [] && Next(todo, false) < 0
    ensures LoopState(args, z, want, Some(|slots|), Rest(todo, false), slots + [Unset], words)
  {
    FrontWildcard(args, z, want, todo, slots, words);
    BackStart(args, z, want, todo, slots, words);
  }

  lemma SecondWildcard(args: seq<string>, spec: seq<int>, want: seq<Slot>, spos: Option<nat>, todo: seq<int>,
                       slots: seq<Slot>, words: seq<string>)
    requires spos.Some? && LoopState(args, NonZero(spec), want, spos, todo, slots, words)
    requires todo != [] && Next(todo, true) < 0
    ensures Wildcards(spec) > 1
  {
    var z := NonZero(spec);
    var w := FirstWildcard(z);
    var e := |z| + w + 1 - |slots|;
    var n := todo[|todo| - 1];
    assert w + 1 < e && z[e - 1] == n by { NonZeroInit(todo, todo[..|todo| - 1], n, z, w + 1, e); }
    TwoNegatives(z, w, e - 1);
    NonZeroKeepsWildcards(spec);
  }

  lemma LoopDone(args: seq<string>, spec: seq<int>, want: seq<Slot>, spos: Option<nat>, slots: seq<Slot>,
                 words: seq<string>)
    requires want == ClosedSlots(args, NonZero(spec)) && LoopState(args, NonZero(spec), want, spos, [], slots, words)
    ensures Wildcards(spec) <= 1
    ensures spos.None? ==> ClosedForm(args, NonZero(spec)) == Unpacked(slots, words)
    ensures spos.Some? ==> spos.value < |slots|
    ensures spos.Some? ==> ClosedForm(args, NonZero(spec)) == Unpacked(Filled(slots, spos.value, words), [])
  {
    var z := NonZero(spec);
    WildcardsAreFew(spec);
    if spos.None? {
      FrontDone(args, z, want, slots, words);
    } else {
      BackDone(args, z, want, slots, words);
    }
  }

  method FillWildcard(slots: seq<Slot>, w: nat, words: seq<string>) returns (filled: seq<Slot>)
    requires w < |slots|
    ensures filled == Filled(slots, w, words)
  {
    filled := slots[w := Many(Words(words))];
    filled := filled[..w + 1] + Reversed(filled[w + 1..]);
    assert slots[w := Many(Words(words))][w + 1..] == slots[w + 1..];
  }

  /** The loop with its two deques comes to the closed form; a second wildcard is an error. */
  method UnpackArgs(arguments: seq<string>, nargsSpec: seq<int>) returns (r: Unpacked)
    ensures r == if Wildcards(nargsSpec) > 1 then TwoWildcards else ClosedForm(arguments, NonZero(nargsSpec))
  {
    var args := arguments;
    var spec := nargsSpec;
    var rv: seq<Slot> := [];
    var spos: Option<nat> := None;
    ghost var z := NonZero(nargsSpec);
    ghost var want := ClosedSlots(arguments, z);
    while spec != []
      invariant LoopState(arguments, NonZero(nargsSpec), want, spos, spec, rv, args)
      decreases |spec|
    {
      var item, rest := Fetch(spec, spos.Some?);
      var nargs := item.value;
      assert nargs == Next(spec, spos.Some?) && rest == Rest(spec, spos.Some?);
      if nargs > 0 {
        TakeStep(arguments, z, want, spos, spec, rv, args);
        var slot;
        slot, args := TakeSlot(args, nargs, spos.Some?);
        rv := rv + [slot];
      } else if nargs < 0 {
        if spos.Some? {
          SecondWildcard(arguments, nargsSpec, want, spos, spec, rv, args);
          return TwoWildcards;
        }
        TurnStep(arguments, z, want, spec, rv, args);
        spos := Some(|rv|);
        rv := rv + [Unset];
      } else {
        SkipStep(arguments, z, want, spos, spec, rv, args);
      }
      spec := rest;
    }
    LoopDone(arguments, nargsSpec, want, spos, rv, args);
    if spos.Some? {
      rv := FillWildcard(rv, spos.value, args);
      args := [];
    }
    return Unpacked(rv, args);
  }

  // ----- what the closed form promises -----

  function Present(words: seq<Option<string>>): seq<string> {
    if words == [] then [] else (if words[0].Some? then [words[0].value] else []) + Present(words[1..])
  }

  /** The words of a slot, without holes. */
  function Held(slot: Slot): seq<string> {
    match slot
    case Unset => []
    case One(word) => [word]
    case Many(words) => Present(words)
  }

  function AllHeld(slots: seq<Slot>): seq<string> {
    if slots == [] then [] else Held(slots[0]) + AllHeld(slots[1..])
  }

  /** Nothing is missing from the slot. */
  predicate Full(slot: Slot) {
    match slot
    case Unset => false
    case One(_) => true
    case Many(words) => forall i :: 0 <= i < |words| ==> words[i].Some?
  }

  /** A range of words, cut to those that there are. */
  function Range(args: seq<string>, lo: int, from: int, to: int): seq<string> {
    var a, b := Max(Max(lo, from), 0), Min(to, |args|);
    if a <= b then args[a..b] else []
  }

  /** These are the words from `from` on, with holes where there are none. */
  predicate AreWordsAt(words: seq<Option<string>>, args: seq<string>, lo: nat, from: int) {
    forall i :: 0 <= i < |words| ==> words[i] == WordAt(args, lo, from + i)
  }

  lemma RestAreWords(words: seq<Option<string>>, args: seq<string>, lo: nat, from: int)
    requires words != [] && AreWordsAt(words, args, lo, from)
    ensures words[0] == WordAt(args, lo, from) && AreWordsAt(words[1..], args, lo, from + 1)
  {
    forall i | 0 <= i < |words| - 1 ensures words[1..][i] == WordAt(args, lo, from + 1 + i) {
      assert words[1..][i] == words[i + 1];
    }
  }

  lemma {:induction false} PresentRange(args: seq<string>, lo: nat, from: int, to: int, words: seq<Option<string>>)
    requires AreWordsAt(words, args, lo, from) && to == from + |words|
    ensures Present(words) == Range(args, lo, from, to)
    decreases |words|
  {
    if words == [] {
      EmptyRange(args, lo, from);
    } else {
      RestAreWords(words, args, lo, from);
      PresentRange(args, lo, from + 1, to, words[1..]);
      RangeStep(args, lo, from, to);
    }
  }

  lemma EmptyRange(args: seq<string>, lo: nat, from: int)
    ensures Range(args, lo, from, from) == []
  {
  }

  lemma RangeStep(args: seq<string>, lo: nat, from: int, to: int)
    requires from < to
    ensures var word := WordAt(args, lo, from);
      Range(args, lo, from, to) == (if word.Some? then [word.value] else []) + Range(args, lo, from + 1, to)
  {
  }

  lemma HeldSlice(args: seq<string>, lo: nat, from: int, n: nat)
    requires n > 0
    ensures Held(Slice(args, lo, from, n)) == Range(args, lo, from, from + n)
  {
    if n == 1 {
      RangeStep(args, lo, from, from + 1);
      assert Range(args, lo, from + 1, from + 1) == [];
    } else {
      var words := Slice(args, lo, from, n).values;
      assert AreWordsAt(words, args, lo, from);
      PresentRange(args, lo, from, from + n, words);
    }
  }

  lemma {:induction false} AllHeldAppend(slots: seq<Slot>, slot: Slot)
    ensures AllHeld(slots + [slot]) == AllHeld(slots) + Held(slot)
  {
    if slots == [] {
      assert [slot][1..] == [];
    } else {
      AllHeldAppend(slots[1..], slot);
      assert (slots + [slot])[1..] == slots[1..] + [slot];
      Regroup(Held(slots[0]), AllHeld(slots[1..]), Held(slot));
    }
  }

  lemma {:induction false} PresentWords(words: seq<string>)
    ensures Present(Words(words)) == words
  {
    if words != [] {
      assert Words(words)[1..] == Words(words[1..]);
      PresentWords(words[1..]);
    }
  }

  lemma {:induction false} TotalIsNat(spec: seq<int>, i: nat, j: nat)
    requires j <= |spec| && forall k :: i <= k < j ==> spec[k] >= 0
    ensures Total(spec, i, j) >= 0
    decreases j - i
  {
    if i < j { TotalIsNat(spec, i + 1, j); }
  }

  /** Every argument but the first wildcard takes a fixed number of words. */
  predicate Regular(z: seq<int>) {
    forall j :: 0 <= j < |z| ==> z[j] > 0 || j == FirstWildcard(z)
  }

  /** How many words the first `j` arguments hold. */
  function Cut(args: seq<string>, z: seq<int>, j: nat): (c: nat)
    requires Regular(z) && j <= |z|
    ensures c <= |args|
  {
    if j <= FirstWildcard(z) then
      TotalIsNat(z, 0, j);
      Min(Total(z, 0, j), |args|)
    else
      TotalIsNat(z, j, |z|);
      TotalIsNat(z, 0, FirstWildcard(z));
      Max(Front(args, z), |args| - Total(z, j, |z|))
  }

  lemma FrontIsNat(args: seq<string>, z: seq<int>)
    requires Regular(z)
    ensures 0 <= Front(args, z) <= |args| && Front(args, z) == Cut(args, z, FirstWildcard(z))
  {
    TotalIsNat(z, 0, FirstWildcard(z));
  }

  lemma HeldIsCut(args: seq<string>, z: seq<int>, j: nat)
    requires Regular(z) && j < |z|
    ensures Cut(args, z, j) <= Cut(args, z, j + 1)
    ensures Held(SlotAt(args, z, j)) == args[Cut(args, z, j)..Cut(args, z, j + 1)]
  {
    FrontIsNat(args, z);
    var w := FirstWildcard(z);
    if j < w {
      HeldFront(args, z, j);
    } else if j == w {
      TotalIsNat(z, w + 1, |z|);
      PresentWords(Middle(args, z));
    } else {
      HeldBack(args, z, j, Cut(args, z, j), Cut(args, z, j + 1), SlotAt(args, z, j));
    }
  }

  lemma HeldFront(args: seq<string>, z: seq<int>, j: nat)
    requires Regular(z) && j < FirstWildcard(z)
    ensures Cut(args, z, j) <= Cut(args, z, j + 1)
    ensures Held(SlotAt(args, z, j)) == args[Cut(args, z, j)..Cut(args, z, j + 1)]
  {
    TotalSplit(z, 0, j, j + 1);
    TotalIsNat(z, 0, j);
    HeldSlice(args, 0, Total(z, 0, j), z[j]);
  }

  /** Where the argument at `j`, behind the wildcard, has its words. */
  lemma Behind(args: seq<string>, z: seq<int>, j: nat) returns (lo: nat, s: nat, n: nat)
    requires Regular(z) && FirstWildcard(z) < j < |z|
    ensures lo == Front(args, z) <= |args| && s == Total(z, j + 1, |z|) && n == z[j] > 0
    ensures Cut(args, z, j) == Max(lo, |args| - s - n) && Cut(args, z, j + 1) == Max(lo, |args| - s)
    ensures SlotAt(args, z, j) == Slice(args, lo, |args| - s - n, n)
  {
    TotalIsNat(z, j + 1, |z|);
    FrontIsNat(args, z);
    lo, s, n := Front(args, z), Total(z, j + 1, |z|), z[j];
  }

  lemma HeldBack(args: seq<string>, z: seq<int>, j: nat, c: nat, c': nat, slot: Slot)
    requires Regular(z) && FirstWildcard(z) < j < |z|
    requires c == Cut(args, z, j) && c' == Cut(args, z, j + 1) && slot == SlotAt(args, z, j)
    ensures c <= c' && Held(slot) == args[c..c']
  {
    var lo, s, n := Behind(args, z, j);
    HeldBackSlice(args, lo, s, n, slot, c, c');
  }

  lemma HeldBackSlice(args: seq<string>, lo: nat, s: nat, n: nat, slot: Slot, c: nat, c': nat)
    requires n > 0 && lo <= |args| && slot == Slice(args, lo, |args| - s - n, n)
    requires c == Max(lo, |args| - s - n) && c' == Max(lo, |args| - s)
    ensures c <= c' && Held(slot) == args[c..c']
  {
    HeldSlice(args, lo, |args| - s - n, n);
  }

  lemma AppendHeld(args: seq<string>, slots: seq<Slot>, slot: Slot, c: nat, c': nat)
    requires c <= c' <= |args| && AllHeld(slots) == args[..c] && Held(slot) == args[c..c']
    ensures AllHeld(slots + [slot]) == args[..c']
  {
    AllHeldAppend(slots, slot);
    assert args[..c'] == args[..c] + args[c..c'];
  }

  lemma {:induction false} HeldUpTo(args: seq<string>, z: seq<int>, j: nat)
    requires Regular(z) && j <= |z|
    ensures AllHeld(ClosedForm(args, z).slots[..j]) == args[..Cut(args, z, j)]
  {
    var slots := ClosedForm(args, z).slots;
    if j > 0 {
      var i := j - 1;
      HeldUpTo(args, z, i);
      HeldIsCut(args, z, i);
      AppendHeld(args, slots[..i], SlotAt(args, z, i), Cut(args, z, i), Cut(args, z, i + 1));
      OneMore(slots, i);
    }
  }

  lemma OneMore(slots: seq<Slot>, i: nat)
    requires i < |slots|
    ensures slots[..i + 1] == slots[..i] + [slots[i]]
  {
  }

  /** One slot for each argument; all words, in order, are in the slots and the leftovers. */
  lemma Conserved(args: seq<string>, z: seq<int>)
    requires Regular(z)
    ensures var r := ClosedForm(args, z); |r.slots| == |z| && AllHeld(r.slots) + r.rest == args
  {
    HeldUpTo(args, z, |z|);
    FrontIsNat(args, z);
    var slots := ClosedForm(args, z).slots;
    assert slots[..|z|] == slots;
    assert z[|z|..] == [];
  }

  lemma MissingInFront(args: seq<string>, z: seq<int>, j: nat)
    requires Regular(z) && j < FirstWildcard(z) && !Full(SlotAt(args, z, j))
    ensures Front(args, z) == |args|
  {
    var w := FirstWildcard(z);
    TotalSplit(z, 0, j, w);
    TotalIsNat(z, 0, j);
    TotalIsNat(z, j + 1, w);
    FullSlice(args, 0, Total(z, 0, j), z[j]);
  }

  lemma MissingBehind(args: seq<string>, z: seq<int>, j: nat)
    requires Regular(z) && FirstWildcard(z) < j < |z| && !Full(SlotAt(args, z, j))
    ensures |args| - Total(z, FirstWildcard(z) + 1, |z|) < Front(args, z)
  {
    var lo, s, n := Behind(args, z, j);
    FullBackSlice(args, lo, s, n, SlotAt(args, z, j));
    TotalSplit(z, FirstWildcard(z) + 1, j, |z|);
    TotalIsNat(z, FirstWildcard(z) + 1, j);
  }

  lemma FullBackSlice(args: seq<string>, lo: nat, s: nat, n: nat, slot: Slot)
    requires n > 0 && slot == Slice(args, lo, |args| - s - n, n) && !Full(slot)
    ensures |args| - s - n < lo
  {
    FullSlice(args, lo, |args| - s - n, n);
  }

  /** Words are missing somewhere only if the wildcard gets nothing and nothing is left over. */
  lemma MissingOnlyIfExhausted(args: seq<string>, z: seq<int>, j: nat)
    requires Regular(z) && j < |z| && !Full(ClosedForm(args, z).slots[j])
    ensures ClosedForm(args, z).rest == []
    ensures FirstWildcard(z) < |z| ==> Middle(args, z) == []
  {
    FrontIsNat(args, z);
    assert ClosedForm(args, z).slots[j] == SlotAt(args, z, j);
    if j < FirstWildcard(z) {
      MissingInFront(args, z, j);
      FrontTakesAll(args, z);
    } else if j > FirstWildcard(z) {
      MissingBehind(args, z, j);
      SidesMeet(args, z);
    }
  }

  lemma FrontTakesAll(args: seq<string>, z: seq<int>)
    requires Front(args, z) == |args|
    ensures ClosedForm(args, z).rest == [] && (FirstWildcard(z) < |z| ==> Middle(args, z) == [])
  {
    var hi := if FirstWildcard(z) < |z| then |args| - Total(z, FirstWildcard(z) + 1, |z|) else 0;
    assert Max(|args|, hi) >= |args|;
  }

  lemma SidesMeet(args: seq<string>, z: seq<int>)
    requires FirstWildcard(z) < |z| && 0 <= Front(args, z) <= |args|
    requires |args| - Total(z, FirstWildcard(z) + 1, |z|) < Front(args, z)
    ensures ClosedForm(args, z).rest == [] && Middle(args, z) == []
  {
    EmptyMiddle(args, z, FirstWildcard(z), Front(args, z), Total(z, FirstWildcard(z) + 1, |z|));
  }

  lemma EmptyMiddle(args: seq<string>, z: seq<int>, w: nat, lo: nat, s: int)
    requires w == FirstWildcard(z) < |z| && lo == Front(args, z) <= |args| && s == Total(z, w + 1, |z|)
    requires |args| - s < lo
    ensures Middle(args, z) == []
  {
  }

  lemma FullSlice(args: seq<string>, lo: nat, from: int, n: nat)
    requires n > 0
    ensures lo <= from && from + n <= |args| ==> Full(Slice(args, lo, from, n))
  {
    if lo <= from && from + n <= |args| {
      assert WordAt(args, lo, from).Some?;
      if n > 1 {
        var words := Slice(args, lo, from, n).values;
        forall i | 0 <= i < n ensures words[i].Some? { assert words[i] == WordAt(args, lo, from + i); }
      }
    }
  }

  /** Specifications without zeros and with one wildcard at most are regular. */
  lemma RegularSpec(spec: seq<int>)
    requires Wildcards(spec) <= 1
    ensures Regular(NonZero(spec))
    ensures (forall i :: 0 <= i < |spec| ==> spec[i] != 0) ==> NonZero(spec) == spec
  {
    NonZeroKeepsWildcards(spec);
    WildcardsAreFew(spec);
    NonZeroIsSame(spec);
  }

  lemma {:induction false} NonZeroIsSame(spec: seq<int>)
    ensures (forall i :: 0 <= i < |spec| ==> spec[i] != 0) ==> NonZero(spec) == spec
  {
    if spec != [] { NonZeroIsSame(spec[1..]); }
  }
}
