/**
 The sequence of bindings of a text, with the pieces of text they come from and their line numbers, for any
 parser that gets ahead.
 */
module DotenvBindings {
  import opened Options
  import opened DotenvGrammar
  import opened DotenvReader

  datatype Binding = Binding(key: Option<string>, value: Option<string>, original: Original, error: bool)

  /** The binding at `i`, which stands on this line. */
  ghost function BindingAt(p: Parser, s: string, i: nat, line: nat): Binding
    requires i <= p(s, i).end <= |s|
  {
    var b := p(s, i);
    Binding(b.key, b.value, Original(s[i..b.end], line), b.error)
  }

  ghost function BindingsFrom(p: Parser, s: string, i: nat, line: nat): seq<Binding>
    requires Advances(p) && i <= |s|
    decreases |s| - i
  {
    if i == |s| then []
    else
      var b := BindingAt(p, s, i, line);
      [b] + BindingsFrom(p, s, p(s, i).end, line + Newlines(b.original.text))
  }

  lemma BindingsStep(p: Parser, s: string, i: nat, line: nat, before: seq<Binding>)
    requires Advances(p) && i < |s|
    ensures var b := BindingAt(p, s, i, line);
      before + BindingsFrom(p, s, i, line)
      == before + [b] + BindingsFrom(p, s, p(s, i).end, line + Newlines(b.original.text))
  {
  }

  // ----- nothing of the text is lost -----

  function Texts(bs: seq<Binding>): string {
    if bs == [] then "" else bs[0].original.text + Texts(bs[1..])
  }

  lemma Rejoin(s: string, i: nat, e: nat)
    requires i <= e <= |s|
    ensures s[i..] == s[i..e] + s[e..]
  {
  }

  lemma {:induction false} TextsFrom(p: Parser, s: string, i: nat, line: nat)
    requires Advances(p) && i <= |s|
    ensures Texts(BindingsFrom(p, s, i, line)) == s[i..]
    ensures forall b <- BindingsFrom(p, s, i, line) :: b.original.text != ""
    decreases |s| - i
  {
    if i < |s| {
      var b, e := BindingAt(p, s, i, line), p(s, i).end;
      var rest := BindingsFrom(p, s, e, line + Newlines(b.original.text));
      TextsFrom(p, s, e, line + Newlines(b.original.text));
      assert BindingsFrom(p, s, i, line)[1..] == rest;
      Rejoin(s, i, e);
    } else {
      assert s[i..] == "";
    }
  }

  // ----- line numbers -----

  /** A line break is cut in two between these texts. */
  predicate CutsBreak(a: string, b: string) {
    a != "" && b != "" && a[|a| - 1] == '\r' && b[0] == '\n'
  }

  /** The two halves of a cut break are counted twice. */
  lemma {:induction false} NewlinesOfParts(a: string, b: string)
    ensures Newlines(a) + Newlines(b) == Newlines(a + b) + if CutsBreak(a, b) then 1 else 0
    decreases |a|
  {
    var t := a + b;
    if a == "" {
      assert t == b;
    } else if |a| > 1 && a[0] == '\r' && a[1] == '\n' {
      assert t[2..] == a[2..] + b;
      NewlinesOfParts(a[2..], b);
    } else if |a| == 1 {
      OneThenMore(a, b);
    } else {
      assert t[1..] == a[1..] + b && t[1] == a[1];
      NewlinesOfParts(a[1..], b);
    }
  }

  lemma OneThenMore(a: string, b: string)
    requires |a| == 1
    ensures Newlines(a) + Newlines(b) == Newlines(a + b) + if CutsBreak(a, b) then 1 else 0
  {
    var t := a + b;
    assert a[1..] == "" && t[1..] == b;
    if CutsBreak(a, b) {
      assert t[2..] == b[1..];
    }
  }

  /** How many line breaks are cut in two between one binding and the next. */
  function Cuts(bs: seq<Binding>): nat {
    if |bs| < 2 then 0
    else (if CutsBreak(bs[0].original.text, bs[1].original.text) then 1 else 0) + Cuts(bs[1..])
  }

  lemma {:induction false} LinesFrom(p: Parser, s: string, i: nat, line: nat, k: nat)
    requires Advances(p) && i <= |s| && k < |BindingsFrom(p, s, i, line)|
    ensures var bs := BindingsFrom(p, s, i, line);
      bs[k].original.line == line + Newlines(Texts(bs[..k])) + Cuts(bs[..k])
    decreases k
  {
    var bs := BindingsFrom(p, s, i, line);
    if k > 0 {
      var b, e := BindingAt(p, s, i, line), p(s, i).end;
      var next := line + Newlines(b.original.text);
      var rest := BindingsFrom(p, s, e, next);
      var front := bs[..k];
      assert bs[1..] == rest && front[1..] == rest[..k - 1] && front[0] == b;
      LinesFrom(p, s, e, next, k - 1);
      NewlinesOfParts(b.original.text, Texts(rest[..k - 1]));
      CutsOfFirst(front);
    }
  }

  /** The texts behind the first binding begin as the second one does. */
  lemma CutsOfFirst(bs: seq<Binding>)
    requires bs != [] && (|bs| > 1 ==> bs[1].original.text != "")
    ensures Cuts(bs) == (if CutsBreak(bs[0].original.text, Texts(bs[1..])) then 1 else 0) + Cuts(bs[1..])
  {
    if |bs| > 1 { assert Texts(bs[1..])[0] == bs[1].original.text[0]; }
  }

  lemma {:induction false} NoCuts(bs: seq<Binding>)
    ensures Cuts(bs) == 0 <==> forall j :: 0 < j < |bs| ==> !CutsBreak(bs[j - 1].original.text, bs[j].original.text)
  {
    if |bs| > 1 {
      NoCuts(bs[1..]);
      var rest := bs[1..];
      if Cuts(bs) == 0 {
        forall j | 0 < j < |bs| ensures !CutsBreak(bs[j - 1].original.text, bs[j].original.text) {
          if j > 1 { assert rest[j - 2] == bs[j - 1] && rest[j - 1] == bs[j]; }
        }
      } else if Cuts(rest) > 0 {
        var j :| 0 < j < |rest| && CutsBreak(rest[j - 1].original.text, rest[j].original.text);
        assert CutsBreak(bs[j + 1 - 1].original.text, bs[j + 1].original.text);
      } else {
        assert CutsBreak(bs[1 - 1].original.text, bs[1].original.text);
      }
    }
  }

  function LineFeeds(t: string): nat {
    if t == "" then 0 else (if t[0] == '\n' then 1 else 0) + LineFeeds(t[1..])
  }

  lemma {:induction false} OnlyLineFeeds(t: string)
    requires '\r' !in t
    ensures Newlines(t) == LineFeeds(t)
  {
    if t != "" {
      assert t[0] in t;
      OnlyLineFeeds(t[1..]);
    }
  }

  lemma {:induction false} PartOfTexts(bs: seq<Binding>, k: nat)
    requires k <= |bs|
    ensures Texts(bs[..k]) <= Texts(bs)
    ensures k < |bs| ==> forall c <- bs[k].original.text :: c in Texts(bs)
  {
    if bs != [] && k > 0 {
      PartOfTexts(bs[1..], k - 1);
      assert bs[..k][1..] == bs[1..][..k - 1];
    }
  }

  // ----- where line numbers are right -----

  /** A binding's line is one more than the line breaks before it and the cuts between the bindings before it. */
  lemma LineNumbersBy(p: Parser, s: string, k: nat)
    requires Advances(p) && k < |BindingsFrom(p, s, 0, 1)|
    ensures var bs := BindingsFrom(p, s, 0, 1);
      && bs[k].original.line == 1 + Newlines(Texts(bs[..k])) + Cuts(bs[..k])
      && (bs[k].original.line == 1 + Newlines(Texts(bs[..k])) <==>
            forall j :: 0 < j < k ==> !CutsBreak(bs[j - 1].original.text, bs[j].original.text))
  {
    LinesFrom(p, s, 0, 1, k);
    NoCuts(BindingsFrom(p, s, 0, 1)[..k]);
  }

  lemma LinesWithoutReturnsBy(p: Parser, s: string, k: nat)
    requires Advances(p) && k < |BindingsFrom(p, s, 0, 1)| && '\r' !in s
    ensures var bs := BindingsFrom(p, s, 0, 1); bs[k].original.line == 1 + LineFeeds(Texts(bs[..k]))
  {
    var bs := BindingsFrom(p, s, 0, 1);
    TextsFrom(p, s, 0, 1);
    assert s[0..] == s;
    LineNumbersBy(p, s, k);
    PartOfTexts(bs, k);
    OnlyLineFeeds(Texts(bs[..k]));
    forall j | 0 < j < k ensures !CutsBreak(bs[j - 1].original.text, bs[j].original.text) { PartOfTexts(bs, j - 1); }
  }

  /** The parser cuts a break only behind an error. */
  ghost predicate EndsWhole(p: Parser, s: string) {
    forall m: nat {:trigger p(s, m)} :: m < |s| && !p(s, m).error ==> Whole(s, p(s, m).end)
  }

  lemma {:induction false} OnlyErrorsCut(p: Parser, s: string, i: nat, line: nat, j: nat)
    requires Advances(p) && EndsWhole(p, s) && i <= |s| && 0 < j < |BindingsFrom(p, s, i, line)|
    requires !BindingsFrom(p, s, i, line)[j - 1].error
    ensures var bs := BindingsFrom(p, s, i, line); !CutsBreak(bs[j - 1].original.text, bs[j].original.text)
    decreases j
  {
    var b, e := BindingAt(p, s, i, line), p(s, i).end;
    var rest := BindingsFrom(p, s, e, line + Newlines(b.original.text));
    if j > 1 {
      OnlyErrorsCut(p, s, e, line + Newlines(b.original.text), j - 1);
    } else {
      assert rest[0].original.text == s[e..p(s, e).end];
    }
  }

  lemma LinesWithoutErrorsBy(p: Parser, s: string, k: nat)
    requires Advances(p) && EndsWhole(p, s) && k < |BindingsFrom(p, s, 0, 1)|
    requires forall b <- BindingsFrom(p, s, 0, 1)[..k] :: !b.error
    ensures var bs := BindingsFrom(p, s, 0, 1); bs[k].original.line == 1 + Newlines(Texts(bs[..k]))
  {
    var bs := BindingsFrom(p, s, 0, 1);
    LineNumbersBy(p, s, k);
    forall j | 0 < j < k ensures !CutsBreak(bs[j - 1].original.text, bs[j].original.text) {
      assert bs[..k][j - 1] == bs[j - 1] && bs[j - 1] in bs[..k];
      OnlyErrorsCut(p, s, 0, 1, j);
    }
  }

  /** Three bindings of a text, the break between the first two of which is cut. */
  lemma LineAfterCut(p: Parser, s: string, a: nat, b: nat)
    requires Advances(p) && 0 < a < b < |s| && p(s, 0).end == a && p(s, a).end == b
    requires s[a - 1] == '\r' && s[a] == '\n'
    ensures var bs := BindingsFrom(p, s, 0, 1);
      |bs| > 2 && Texts(bs[..2]) == s[..b] && bs[2].original.line == 2 + Newlines(s[..b])
  {
    var bs := BindingsFrom(p, s, 0, 1);
    var l1 := 1 + Newlines(s[0..a]);
    var l2 := l1 + Newlines(s[a..b]);
    assert bs == [BindingAt(p, s, 0, 1)] + BindingsFrom(p, s, a, l1);
    assert BindingsFrom(p, s, a, l1) == [BindingAt(p, s, a, l1)] + BindingsFrom(p, s, b, l2);
    assert BindingsFrom(p, s, b, l2)[0] == BindingAt(p, s, b, l2);
    TextsOfTwo(bs);
    assert s[0..a] + s[a..b] == s[..b];
    NewlinesOfParts(s[0..a], s[a..b]);
  }

  lemma TextsOfTwo(bs: seq<Binding>)
    requires |bs| > 1
    ensures Texts(bs[..2]) == bs[0].original.text + bs[1].original.text
  {
    var two := bs[..2];
    assert two[1..][0] == bs[1] && two[1..][1..] == [];
    assert Texts(two[1..]) == bs[1].original.text + "";
  }
}
