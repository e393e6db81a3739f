/**
 Reading a whole text binding by binding, and rewriting it so that the bindings of one key change.
 This holds for any way of reading bindings in which a tidy binding says the same wherever it is copied to.
 */
module DotenvRewriting {
  import opened Options
  import opened DotenvGrammar
  import opened DotenvLocality

  type Pair = (string, Option<string>)

  function Own(b: Parsed): seq<Pair> {
    if b.key.None? then [] else [(b.key.value, b.value)]
  }

  /** The keys and values that are read from `i` on. */
  ghost function Pairs(p: Parser, s: string, i: nat): seq<Pair>
    requires Advances(p) && i <= |s|
    decreases |s| - i
  {
    if i == |s| then [] else Own(p(s, i)) + Pairs(p, s, p(s, i).end)
  }

  /** The text from `i` on with every binding of `key` replaced by `line`, all else copied. */
  ghost function Rewrite(p: Parser, s: string, i: nat, key: string, line: string): string
    requires Advances(p) && i <= |s|
    decreases |s| - i
  {
    if i == |s| then ""
    else
      (if p(s, i).key == Some(key) then line else s[i..p(s, i).end]) + Rewrite(p, s, p(s, i).end, key, line)
  }

  ghost predicate Mentions(p: Parser, s: string, i: nat, key: string)
    requires Advances(p) && i <= |s|
    decreases |s| - i
  {
    i < |s| && (p(s, i).key == Some(key) || Mentions(p, s, p(s, i).end, key))
  }

  /** Every pair of the key makes way for `said`, the others stay as and where they are. */
  function Replaced(ps: seq<Pair>, key: string, said: seq<Pair>): seq<Pair> {
    if ps == [] then [] else (if ps[0].0 == key then said else [ps[0]]) + Replaced(ps[1..], key, said)
  }

  /** Such bindings can be relied on. */
  type Trust = (string, nat) -> bool

  ghost predicate Tidy(p: Parser, trust: Trust, s: string, i: nat)
    requires Advances(p) && i <= |s|
    decreases |s| - i
  {
    i == |s| || (trust(s, i) && Tidy(p, trust, s, p(s, i).end))
  }

  /** Where what a trusted binding says ends: before its line break. */
  type Stop = (string, nat) -> nat

  ghost predicate Spaces(s: string, i: nat, j: nat) {
    j <= |s| && forall x :: i <= x < j ==> IsSpace(s[x])
  }

  ghost predicate SpaceAt(s: string, i: nat) { i < |s| && IsSpace(s[i]) }

  /** White space before a binding makes no difference; a text ends with it as without it. */
  ghost predicate SkipsSpace(p: Parser, trust: Trust) {
    && Advances(p)
    && forall t: string, k: nat {:trigger SpaceAt(t, k)} :: SpaceAt(t, k) ==>
         (if k + 1 < |t| then p(t, k) == p(t, k + 1) && trust(t, k) == trust(t, k + 1)
          else p(t, k).key == None && trust(t, k))
  }

  ghost predicate Blank(s: string, i: nat) { i <= |s| && Span(s, i, IsSpace) == |s| }

  /** A trusted binding ends with its line, if a line follows; or it is white space at the end of the text. */
  ghost predicate Stops(p: Parser, stop: Stop, s: string, i: nat) {
    var n, e := stop(s, i), p(s, i).end;
    if Blank(s, i) then p(s, i).key == None && e == |s|
    else
      && i < n <= e && (e < |s| ==> n < e) && Spaces(s, n, e)
      && LineEnd(s, n) && !IsNewline(s[n - 1])
  }

  /** What a trusted binding says stands in `t` too, and a line ends behind it. */
  ghost predicate Copied(trust: Trust, stop: Stop, s: string, i: nat, t: string, d: int) {
    i < |s| && trust(s, i) && !Blank(s, i) && Mirror(s, i, stop(s, i), t, d) && LineEnd(t, stop(s, i) + d)
  }

  /** At `k` stands such a binding, which says this and has nothing but white space from `n` on. */
  ghost predicate Reads(p: Parser, trust: Trust, t: string, k: int, n: int, said: seq<Pair>) {
    0 <= k < |t| && trust(t, k) && Own(p(t, k)) == said && k <= n <= p(t, k).end && Spaces(t, n, p(t, k).end)
  }

  /** Wherever it is copied to, a trusted binding says what it said before, and is trusted as before. */
  ghost predicate Local(p: Parser, trust: Trust, stop: Stop) {
    && SkipsSpace(p, trust)
    && (forall s: string, i: nat {:trigger Stops(p, stop, s, i)} :: i < |s| && trust(s, i) ==> Stops(p, stop, s, i))
    && (forall s: string, i: nat, t: string, d: int {:trigger Copied(trust, stop, s, i, t, d)} ::
          Copied(trust, stop, s, i, t, d) ==> Reads(p, trust, t, i + d, stop(s, i) + d, Own(p(s, i))))
  }

  /** A text of one trusted line, with its break, that says this; or no text that says nothing. */
  ghost predicate Says(p: Parser, trust: Trust, stop: Stop, line: string, said: seq<Pair>) {
    if line == "" then said == []
    else
      && trust(line, 0) && !Blank(line, 0) && stop(line, 0) < |line| == p(line, 0).end
      && said == Own(p(line, 0))
  }

  // ----- white space -----

  lemma SkipOne(p: Parser, trust: Trust, t: string, k: nat)
    requires SkipsSpace(p, trust) && SpaceAt(t, k)
    ensures Pairs(p, t, k) == Pairs(p, t, k + 1) && Tidy(p, trust, t, k) == Tidy(p, trust, t, k + 1)
  {
  }

  lemma {:induction false} SkipSpaces(p: Parser, trust: Trust, t: string, k: nat, m: nat)
    requires SkipsSpace(p, trust) && k <= m && Spaces(t, k, m)
    ensures Pairs(p, t, k) == Pairs(p, t, m) && Tidy(p, trust, t, k) == Tidy(p, trust, t, m)
    decreases m - k
  {
    if k < m {
      assert SpaceAt(t, k);
      SkipOne(p, trust, t, k);
      SkipSpaces(p, trust, t, k + 1, m);
    }
  }

  lemma CopiedSpace(s: string, i: nat, j: nat, t: string, d: int)
    requires Mirror(s, i, j, t, d) && Spaces(s, i, j)
    ensures Spaces(t, i + d, j + d)
  {
    forall x | i + d <= x < j + d ensures IsSpace(t[x]) { assert t[(x - d) + d] == s[x - d]; }
  }

  // ----- what is copied and what is replaced -----

  lemma ReplacedOwn(b: Parsed, rest: seq<Pair>, key: string, said: seq<Pair>)
    ensures Replaced(Own(b) + rest, key, said)
         == (if b.key == Some(key) then said else Own(b)) + Replaced(rest, key, said)
  {
    if b.key.Some? { assert (Own(b) + rest)[1..] == rest; } else { assert Own(b) + rest == rest; }
  }

  lemma SliceMirror(s: string, i: nat, j: nat, t: string, k: nat)
    requires i <= j <= |s| && k + j - i <= |t| && t[k..k + j - i] == s[i..j]
    ensures Mirror(s, i, j, t, k - i)
  {
    forall x | i <= x < j ensures t[x + (k - i)] == s[x] { assert t[k..k + j - i][x - i] == s[i..j][x - i]; }
  }

  /** The text `t` continues at `k` with the rewritten rest of `s` and then ends with `tail`. */
  ghost predicate Continues(
      t: string, k: nat, p: Parser, s: string, i: nat, key: string, line: string, tail: string)
    requires Advances(p) && i <= |s|
  {
    k <= |t| && t[k..] == Rewrite(p, s, i, key, line) + tail
  }

  lemma ContinuesBehind(t: string, k: nat, p: Parser, s: string, i: nat, key: string, line: string, tail: string)
    requires Advances(p) && i < |s| && Continues(t, k, p, s, i, key, line, tail)
    ensures if p(s, i).key == Some(key) then
        Mirror(line, 0, |line|, t, k) && Continues(t, k + |line|, p, s, p(s, i).end, key, line, tail)
      else
        Mirror(s, i, p(s, i).end, t, k - i) && Continues(t, k + p(s, i).end - i, p, s, p(s, i).end, key, line, tail)
  {
    var e := p(s, i).end;
    var first := if p(s, i).key == Some(key) then line else s[i..e];
    var rest := Rewrite(p, s, e, key, line) + tail;
    assert t[k..] == first + rest;
    assert t[k..k + |first|] == first by { assert t[k..][..|first|] == first; }
    assert t[k + |first|..] == rest by { assert t[k..][|first|..] == rest; }
    if p(s, i).key == Some(key) {
      assert line == line[0..|line|];
      SliceMirror(line, 0, |line|, t, k);
    } else {
      SliceMirror(s, i, e, t, k);
    }
  }

  lemma ReadPairs(p: Parser, trust: Trust, t: string, k: nat, n: nat, said: seq<Pair>)
    requires SkipsSpace(p, trust) && Reads(p, trust, t, k, n, said)
    ensures Pairs(p, t, k) == said + Pairs(p, t, n)
    ensures Tidy(p, trust, t, n) ==> Tidy(p, trust, t, k)
  {
    SkipSpaces(p, trust, t, n, p(t, k).end);
  }

  /** Two ends with white space up to the further one are as good as each other. */
  lemma SkipEither(p: Parser, trust: Trust, t: string, k: nat, n: nat, m: nat, said: seq<Pair>)
    requires SkipsSpace(p, trust) && Reads(p, trust, t, k, n, said) && n <= m && Spaces(t, n, m)
    ensures Pairs(p, t, k) == said + Pairs(p, t, m)
    ensures Tidy(p, trust, t, m) ==> Tidy(p, trust, t, k)
  {
    ReadPairs(p, trust, t, k, n, said);
    SkipSpaces(p, trust, t, n, m);
  }

  lemma CopiedBlank(p: Parser, trust: Trust, s: string, i: nat, e: nat, t: string, k: nat)
    requires SkipsSpace(p, trust) && Blank(s, i) && e == |s| && Mirror(s, i, e, t, k - i)
    ensures Pairs(p, t, k) == [] + Pairs(p, t, k + e - i)
    ensures Tidy(p, trust, t, k + e - i) ==> Tidy(p, trust, t, k)
  {
    SpanHolds(s, i, IsSpace);
    CopiedSpace(s, i, |s|, t, k - i);
    SkipSpaces(p, trust, t, k, k + |s| - i);
  }

  lemma CopiedLine(p: Parser, trust: Trust, stop: Stop, s: string, i: nat, e: nat, t: string, k: nat)
    requires Local(p, trust, stop) && i < |s| && trust(s, i) && !Blank(s, i)
    requires e == p(s, i).end && Mirror(s, i, e, t, k - i)
    requires stop(s, i) == e ==> LineEnd(t, k + e - i)
    ensures Pairs(p, t, k) == Own(p(s, i)) + Pairs(p, t, k + e - i)
    ensures Tidy(p, trust, t, k + e - i) ==> Tidy(p, trust, t, k)
  {
    var m := k + e - i;
    var n := CopiedReads(p, trust, stop, s, i, e, t, k);
    SkipEither(p, trust, t, k, n, m, Own(p(s, i)));
  }

  lemma CopiedReads(p: Parser, trust: Trust, stop: Stop, s: string, i: nat, e: nat, t: string, k: nat)
    returns (n: nat)
    requires Local(p, trust, stop) && i < |s| && trust(s, i) && !Blank(s, i)
    requires e == p(s, i).end && Mirror(s, i, e, t, k - i)
    requires stop(s, i) == e ==> LineEnd(t, k + e - i)
    ensures Reads(p, trust, t, k, n, Own(p(s, i))) && n <= k + e - i && Spaces(t, n, k + e - i)
  {
    assert Stops(p, stop, s, i);
    n := stop(s, i) + k - i;
    assert stop(s, i) < e ==> t[stop(s, i) + (k - i)] == s[stop(s, i)];
    assert Copied(trust, stop, s, i, t, k - i);
    CopiedSpace(s, stop(s, i), e, t, k - i);
  }

  lemma BlankIsNothing(p: Parser, trust: Trust, stop: Stop, s: string, i: nat)
    requires Local(p, trust, stop) && i < |s| && trust(s, i) && Blank(s, i)
    ensures p(s, i).end == |s| && Own(p(s, i)) == []
  {
    assert Stops(p, stop, s, i);
  }

  lemma CopiedBinding(p: Parser, trust: Trust, stop: Stop, s: string, i: nat, e: nat, t: string, k: nat)
    requires Local(p, trust, stop) && i < |s| && trust(s, i)
    requires e == p(s, i).end && Mirror(s, i, e, t, k - i)
    requires !Blank(s, i) && stop(s, i) == e ==> LineEnd(t, k + e - i)
    ensures Pairs(p, t, k) == Own(p(s, i)) + Pairs(p, t, k + e - i)
    ensures Tidy(p, trust, t, k + e - i) ==> Tidy(p, trust, t, k)
  {
    if Blank(s, i) {
      BlankIsNothing(p, trust, stop, s, i);
      CopiedBlank(p, trust, s, i, e, t, k);
    } else {
      CopiedLine(p, trust, stop, s, i, e, t, k);
    }
  }

  lemma WrittenLine(p: Parser, trust: Trust, stop: Stop, line: string, said: seq<Pair>, t: string, k: nat)
    requires Local(p, trust, stop) && Says(p, trust, stop, line, said) && Mirror(line, 0, |line|, t, k)
    ensures Pairs(p, t, k) == said + Pairs(p, t, k + |line|)
    ensures Tidy(p, trust, t, k + |line|) ==> Tidy(p, trust, t, k)
  {
    if line != "" { CopiedBinding(p, trust, stop, line, 0, |line|, t, k); }
  }

  lemma ReplacedLine(p: Parser, trust: Trust, stop: Stop, s: string, i: nat, key: string, line: string,
                     said: seq<Pair>, tail: string, t: string, k: nat)
    requires Local(p, trust, stop) && i < |s| && p(s, i).key == Some(key) && Says(p, trust, stop, line, said)
    requires Continues(t, k, p, s, i, key, line, tail)
    ensures Continues(t, k + |line|, p, s, p(s, i).end, key, line, tail)
    ensures Pairs(p, t, k) == said + Pairs(p, t, k + |line|)
    ensures Tidy(p, trust, t, k + |line|) ==> Tidy(p, trust, t, k)
  {
    ContinuesBehind(t, k, p, s, i, key, line, tail);
    WrittenLine(p, trust, stop, line, said, t, k);
  }

  lemma KeptLine(p: Parser, trust: Trust, stop: Stop, s: string, i: nat, e: nat, key: string, line: string,
                 tail: string, t: string, k: nat)
    requires Local(p, trust, stop) && i < |s| && trust(s, i) && e == p(s, i).end
    requires p(s, i).key != Some(key) && Continues(t, k, p, s, i, key, line, tail)
    requires IsNewline(s[|s| - 1]) || LineEnd(tail, 0)
    ensures Continues(t, k + e - i, p, s, e, key, line, tail)
    ensures Pairs(p, t, k) == Own(p(s, i)) + Pairs(p, t, k + e - i)
    ensures Tidy(p, trust, t, k + e - i) ==> Tidy(p, trust, t, k)
  {
    ContinuesBehind(t, k, p, s, i, key, line, tail);
    if !Blank(s, i) && stop(s, i) == e { LineEndsInTail(p, stop, s, i, e, key, line, tail, t, k + e - i); }
    CopiedBinding(p, trust, stop, s, i, e, t, k);
  }

  /** A binding that ends without its line break ends the source, and `tail` starts with one. */
  lemma LineEndsInTail(p: Parser, stop: Stop, s: string, i: nat, e: nat, key: string, line: string,
                       tail: string, t: string, m: nat)
    requires Advances(p) && i < |s| && e == p(s, i).end && Stops(p, stop, s, i) && !Blank(s, i) && stop(s, i) == e
    requires Continues(t, m, p, s, e, key, line, tail) && (IsNewline(s[|s| - 1]) || LineEnd(tail, 0))
    ensures LineEnd(t, m)
  {
    assert t[m..] == tail;
    assert tail != "" ==> t[m] == tail[0];
  }

  /** Reading a rewritten text gives the pairs of the source with those of the key replaced. */
  lemma {:induction false} RewrittenPairs(
      p: Parser, trust: Trust, stop: Stop, s: string, i: nat, key: string, line: string, said: seq<Pair>,
      tail: string, t: string, k: nat)
    requires Local(p, trust, stop) && i <= |s| && Tidy(p, trust, s, i) && Says(p, trust, stop, line, said)
    requires Continues(t, k, p, s, i, key, line, tail)
    requires i < |s| ==> IsNewline(s[|s| - 1]) || LineEnd(tail, 0)
    ensures |tail| <= |t|
    ensures Pairs(p, t, k) == Replaced(Pairs(p, s, i), key, said) + Pairs(p, t, |t| - |tail|)
    ensures Tidy(p, trust, t, |t| - |tail|) ==> Tidy(p, trust, t, k)
    decreases |s| - i
  {
    if i < |s| {
      var next := RewrittenStep(p, trust, stop, s, i, key, line, said, tail, t, k);
      RewrittenPairs(p, trust, stop, s, p(s, i).end, key, line, said, tail, t, next);
      ReplacedFirst(p, s, i, key, said);
      Regroup(First(p(s, i), key, said), Replaced(Pairs(p, s, p(s, i).end), key, said), Pairs(p, t, |t| - |tail|));
    }
  }

  /** What takes the place of a binding. */
  function First(b: Parsed, key: string, said: seq<Pair>): seq<Pair> {
    if b.key == Some(key) then said else Own(b)
  }

  lemma ReplacedFirst(p: Parser, s: string, i: nat, key: string, said: seq<Pair>)
    requires Advances(p) && i < |s|
    ensures Replaced(Pairs(p, s, i), key, said)
         == First(p(s, i), key, said) + Replaced(Pairs(p, s, p(s, i).end), key, said)
  {
    ReplacedOwn(p(s, i), Pairs(p, s, p(s, i).end), key, said);
  }

  /** One binding further in the source and in the rewritten text. */
  lemma RewrittenStep(
      p: Parser, trust: Trust, stop: Stop, s: string, i: nat, key: string, line: string, said: seq<Pair>,
      tail: string, t: string, k: nat) returns (next: nat)
    requires Local(p, trust, stop) && i < |s| && trust(s, i) && Says(p, trust, stop, line, said)
    requires Continues(t, k, p, s, i, key, line, tail) && (IsNewline(s[|s| - 1]) || LineEnd(tail, 0))
    ensures Continues(t, next, p, s, p(s, i).end, key, line, tail)
    ensures Pairs(p, t, k) == First(p(s, i), key, said) + Pairs(p, t, next)
    ensures Tidy(p, trust, t, next) ==> Tidy(p, trust, t, k)
  {
    if p(s, i).key == Some(key) {
      next := k + |line|;
      StepReplaced(p, trust, stop, s, i, key, line, said, tail, t, k, next);
    } else {
      next := k + p(s, i).end - i;
      StepKept(p, trust, stop, s, i, key, line, said, tail, t, k, next);
    }
  }

  lemma StepReplaced(
      p: Parser, trust: Trust, stop: Stop, s: string, i: nat, key: string, line: string, said: seq<Pair>,
      tail: string, t: string, k: nat, next: nat)
    requires Local(p, trust, stop) && i < |s| && Says(p, trust, stop, line, said)
    requires p(s, i).key == Some(key) && next == k + |line| && Continues(t, k, p, s, i, key, line, tail)
    ensures Continues(t, next, p, s, p(s, i).end, key, line, tail)
    ensures Pairs(p, t, k) == First(p(s, i), key, said) + Pairs(p, t, next)
    ensures Tidy(p, trust, t, next) ==> Tidy(p, trust, t, k)
  {
    ReplacedLine(p, trust, stop, s, i, key, line, said, tail, t, k);
  }

  lemma StepKept(
      p: Parser, trust: Trust, stop: Stop, s: string, i: nat, key: string, line: string, said: seq<Pair>,
      tail: string, t: string, k: nat, next: nat)
    requires Local(p, trust, stop) && i < |s| && trust(s, i) && (IsNewline(s[|s| - 1]) || LineEnd(tail, 0))
    requires p(s, i).key != Some(key) && next == k + p(s, i).end - i && Continues(t, k, p, s, i, key, line, tail)
    ensures Continues(t, next, p, s, p(s, i).end, key, line, tail)
    ensures Pairs(p, t, k) == First(p(s, i), key, said) + Pairs(p, t, next)
    ensures Tidy(p, trust, t, next) ==> Tidy(p, trust, t, k)
  {
    KeptLine(p, trust, stop, s, i, p(s, i).end, key, line, tail, t, k);
  }

  lemma Regroup<T>(a: seq<T>, b: seq<T>, c: seq<T>)
    ensures a + (b + c) == (a + b) + c
  {
  }
}
