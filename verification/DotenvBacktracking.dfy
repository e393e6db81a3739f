/**
 The patterns of quoted values as a backtracking engine runs them: a star over two alternatives, tried in order and
 as often as possible, and then the closing quote.  `Close` finds what that search finds first.
 */
module DotenvBacktracking {
  import opened Options
  import opened DotenvGrammar

  /** Where the star can have got to, in the order in which the engine tries to go on from there. */
  function StarEnds(s: string, i: nat, quote: char): (ends: seq<nat>)
    requires i <= |s|
    ensures forall e <- ends :: i <= e <= |s|
    decreases |s| - i
  {
    (if i + 2 <= |s| && s[i] == '\\' && s[i + 1] == quote then StarEnds(s, i + 2, quote) else [])
    + (if i < |s| && s[i] != quote then StarEnds(s, i + 1, quote) else [])
    + [i]
  }

  /** The first of these places where the closing quote matches. */
  function FirstQuote(s: string, ends: seq<nat>, quote: char): Option<nat> {
    if ends == [] then None
    else if ends[0] < |s| && s[ends[0]] == quote then Some(ends[0])
    else FirstQuote(s, ends[1..], quote)
  }

  lemma {:induction false} FirstOfBoth(s: string, a: seq<nat>, b: seq<nat>, quote: char)
    ensures FirstQuote(s, a + b, quote)
         == if FirstQuote(s, a, quote).Some? then FirstQuote(s, a, quote) else FirstQuote(s, b, quote)
  {
    if a == [] {
      assert a + b == b;
    } else {
      FirstOfBoth(s, a[1..], b, quote);
      assert (a + b)[1..] == a[1..] + b;
    }
  }

  /** The first quote without a backslash closes a value; if there is none, the last quote does. */
  lemma {:induction false} CloseIsFirstMatch(s: string, i: nat, quote: char)
    requires i <= |s| && quote != '\\'
    ensures Close(s, i, quote) == FirstQuote(s, StarEnds(s, i, quote), quote)
    decreases |s| - i
  {
    var escaped := i + 2 <= |s| && s[i] == '\\' && s[i + 1] == quote;
    var a := if escaped then StarEnds(s, i + 2, quote) else [];
    var b := if i < |s| && s[i] != quote then StarEnds(s, i + 1, quote) else [];
    FirstOfBoth(s, a + b, [i], quote);
    FirstOfBoth(s, a, b, quote);
    if i < |s| && s[i] != quote {
      CloseIsFirstMatch(s, i + 1, quote);
      if escaped { CloseIsFirstMatch(s, i + 2, quote); }
    }
  }

  /** A quote of a value that starts at `i`, with or without a backslash of the value before it. */
  predicate QuoteAt(s: string, i: nat, k: nat, quote: char, escaped: bool) {
    i <= k < |s| && s[k] == quote && escaped == (i < k && s[k - 1] == '\\')
  }

  lemma QuotesFrom(s: string, i: nat, next: nat, quote: char)
    requires i < next <= i + 2 && next <= |s| && quote != '\\'
    requires if next == i + 1 then !(s[i] == '\\' && next < |s| && s[next] == quote) else s[i + 1] == quote
    ensures forall k: nat, escaped :: next <= k ==>
      (QuoteAt(s, next, k, quote, escaped) <==> QuoteAt(s, i, k, quote, escaped))
  {
  }

  /** Where a value is closed, said without any search. */
  lemma {:induction false} CloseMeans(s: string, i: nat, quote: char)
    requires i <= |s| && quote != '\\'
    ensures var c := Close(s, i, quote);
      if exists k: nat :: QuoteAt(s, i, k, quote, false) then
        c.Some? && QuoteAt(s, i, c.value, quote, false) &&
        forall k: nat :: QuoteAt(s, i, k, quote, false) ==> c.value <= k
      else if exists k: nat :: QuoteAt(s, i, k, quote, true) then
        c.Some? && QuoteAt(s, i, c.value, quote, true) &&
        forall k: nat :: QuoteAt(s, i, k, quote, true) ==> k <= c.value
      else c == None
    decreases |s| - i
  {
    if i == |s| {
    } else if s[i] == quote {
      assert QuoteAt(s, i, i, quote, false);
    } else if s[i] == '\\' && i + 1 < |s| && s[i + 1] == quote {
      assert QuoteAt(s, i, i + 1, quote, true);
      QuotesFrom(s, i, i + 2, quote);
      CloseMeans(s, i + 2, quote);
    } else {
      QuotesFrom(s, i, i + 1, quote);
      CloseMeans(s, i + 1, quote);
    }
  }
}
