/**
 What setting and unsetting keys do to what a .env text says, once and through whole histories of edits.
 */
module DotenvTheorems {
  import opened Options
  import opened DotenvGrammar
  import opened DotenvLocality
  import opened DotenvReader
  import opened DotenvBindings
  import opened DotenvRewriting
  import opened DotenvStream
  import opened DotenvWriting
  import opened DotenvEditing

  // ----- one edit -----

  /** Values that the mode can carry: quotes take all but some backslashes, bare text must not need quotes. */
  predicate Suits(v: string, mode: string, alnum: char -> bool) {
    if Quotes(v, mode, alnum) then Encodable(v) else Plain(v)
  }

  lemma ValueOutIsValue(v: string, mode: string, alnum: char -> bool)
    requires Suits(v, mode, alnum)
    ensures IsValue(ValueOut(v, mode, alnum), v)
  {
    if Quotes(v, mode, alnum) {
      QuotedIsValue(v);
    } else {
      BareIsValue(v);
    }
  }

  /** The text that `set_key` leaves. */
  ghost function Set(s: string, key: string, v: string, mode: string, export_: bool, alnum: char -> bool): string {
    ParseAdvances();
    SetText(Parse, s, key, LineText(key, ValueOut(v, mode, alnum), export_))
  }

  ghost function Unset(s: string, key: string): string {
    ParseAdvances();
    Rewrite(Parse, s, 0, key, "")
  }

  /** What a text says: its keys and values in order. */
  ghost function Said(s: string): seq<Pair> {
    ParseAdvances();
    Pairs(Parse, s, 0)
  }

  ghost predicate IsTidy(s: string) {
    ParseAdvances();
    Tidy(Parse, TidyAt, s, 0)
  }

  /** A key bound anew wherever it was bound, or else added at the end. */
  ghost function Bound(ps: seq<Pair>, key: string, v: string): seq<Pair> {
    if exists pair <- ps :: pair.0 == key then Rebound(ps, key, Some(v)) else ps + [(key, Some(v))]
  }

  /** Setting a key binds it anew wherever it was bound, or adds it at the end; the text stays tidy. */
  lemma SetThenParse(s: string, key: string, v: string, mode: string, export_: bool, alnum: char -> bool)
    requires KnownMode(mode) && WellFormedKey(key) && Suits(v, mode, alnum) && IsTidy(s)
    ensures Said(Set(s, key, v, mode, export_, alnum)) == Bound(Said(s), key, v)
    ensures IsTidy(Set(s, key, v, mode, export_, alnum))
  {
    ParserIsLocal();
    ValueOutIsValue(v, mode, alnum);
    var x := ValueOut(v, mode, alnum);
    WrittenLineSays(key, x, export_, v);
    SetPairsBy(Parse, TidyAt, StopAt, s, key, LineText(key, x, export_), [(key, Some(v))]);
    MentionedInPairs(Parse, s, 0, key);
    ReplacedIsRebound(Said(s), key, Some(v));
  }

  /** Unsetting a key takes away exactly its pairs; the text stays tidy. */
  lemma UnsetThenParse(s: string, key: string)
    requires IsTidy(s)
    ensures Said(Unset(s, key)) == Without(Said(s), key) && IsTidy(Unset(s, key))
  {
    ParserIsLocal();
    UnsetPairsBy(Parse, TidyAt, StopAt, s, key);
  }

  /** A key that no binding has, in any text whatever, leaves the text as it is when it is unset. */
  lemma UnsetAbsentIsIdentity(s: string, key: string)
    requires forall pair <- Said(s) :: pair.0 != key
    ensures Unset(s, key) == s
  {
    ParseAdvances();
    MentionedInPairs(Parse, s, 0, key);
    UnmentionedIsCopied(Parse, s, 0, key, "");
  }

  // ----- texts without backslashes -----

  lemma NoErrorIsTidy(s: string, i: nat)
    requires '\\' !in s && i < |s| && !Parse(s, i).error
    ensures TidyAt(s, i)
  {
    var j := Span(s, i, IsSpace);
    if j < |s| { NothingLate(s, j); }
  }

  lemma NothingLate(s: string, j: nat)
    requires '\\' !in s && j < |s|
    ensures !LateLine(s, j)
  {
  }

  lemma {:induction false} TidyBindings(p: Parser, trust: Trust, s: string, i: nat, line: nat)
    requires Advances(p) && i <= |s| && forall b <- BindingsFrom(p, s, i, line) :: !b.error
    requires forall k: nat {:trigger p(s, k)} :: k < |s| && !p(s, k).error ==> trust(s, k)
    ensures Tidy(p, trust, s, i)
    decreases |s| - i
  {
    if i < |s| {
      var b := BindingAt(p, s, i, line);
      var rest := BindingsFrom(p, s, p(s, i).end, line + Newlines(b.original.text));
      assert BindingsFrom(p, s, i, line) == [b] + rest;
      assert b in BindingsFrom(p, s, i, line);
      assert forall c <- rest :: c in BindingsFrom(p, s, i, line);
      TidyBindings(p, trust, s, p(s, i).end, line + Newlines(b.original.text));
    }
  }

  ghost predicate NoErrors(s: string) {
    ParseAdvances();
    forall b <- BindingsFrom(Parse, s, 0, 1) :: !b.error
  }

  /** Without a backslash in it, a text that parses without errors is tidy. */
  lemma BackslashFreeIsTidy(s: string)
    requires '\\' !in s && NoErrors(s)
    ensures IsTidy(s)
  {
    ParseAdvances();
    forall k: nat | k < |s| && !Parse(s, k).error ensures TidyAt(s, k) { NoErrorIsTidy(s, k); }
    TidyBindings(Parse, TidyAt, s, 0, 1);
  }

  /** What is alphanumeric is neither white space nor a quote. */
  ghost predicate AlnumIsPlain(alnum: char -> bool) {
    forall c {:trigger alnum(c)} :: alnum(c) ==> !IsSpace(c) && c !in "'\""
  }

  lemma AlnumIsPlainText(v: string, alnum: char -> bool)
    requires AlnumIsPlain(alnum) && AllAlnum(v, alnum)
    ensures Plain(v)
  {
    forall c | c in v ensures !IsSpace(c) && c !in "'\"" { assert alnum(c); }
    assert forall i :: 0 <= i < |v| ==> v[i] in v;
  }

  /** The promise of set_key for texts and values without backslashes. */
  lemma SetThenParsePlain(s: string, key: string, v: string, mode: string, export_: bool, alnum: char -> bool)
    requires mode == "always" || mode == "auto"
    requires AlnumIsPlain(alnum) && WellFormedKey(key) && '\\' !in s && '\\' !in v && NoErrors(s)
    ensures Said(Set(s, key, v, mode, export_, alnum)) == Bound(Said(s), key, v)
  {
    BackslashFreeIsTidy(s);
    if AllAlnum(v, alnum) { AlnumIsPlainText(v, alnum); }
    SetThenParse(s, key, v, mode, export_, alnum);
  }

  // ----- whole histories of edits -----

  datatype Edit = Put(key: string, value: string, mode: string, export_: bool) | Drop(key: string)

  predicate Sound(e: Edit, alnum: char -> bool) {
    e.Put? ==> KnownMode(e.mode) && WellFormedKey(e.key) && Suits(e.value, e.mode, alnum)
  }

  ghost function EditText(s: string, e: Edit, alnum: char -> bool): string {
    if e.Put? then Set(s, e.key, e.value, e.mode, e.export_, alnum) else Unset(s, e.key)
  }

  ghost function EditPairs(ps: seq<Pair>, e: Edit): seq<Pair> {
    if e.Drop? then Without(ps, e.key) else Bound(ps, e.key, e.value)
  }

  ghost function EditAllText(s: string, es: seq<Edit>, alnum: char -> bool): string
    decreases |es|
  {
    if es == [] then s else EditAllText(EditText(s, es[0], alnum), es[1..], alnum)
  }

  ghost function EditAllPairs(ps: seq<Pair>, es: seq<Edit>): seq<Pair>
    decreases |es|
  {
    if es == [] then ps else EditAllPairs(EditPairs(ps, es[0]), es[1..])
  }

  /** However a tidy text is edited, it goes on saying what the same edits make of its pairs. */
  lemma {:induction false} EditsAgree(s: string, es: seq<Edit>, alnum: char -> bool)
    requires IsTidy(s) && forall e <- es :: Sound(e, alnum)
    ensures Said(EditAllText(s, es, alnum)) == EditAllPairs(Said(s), es) && IsTidy(EditAllText(s, es, alnum))
    decreases |es|
  {
    if es != [] {
      var e := es[0];
      assert e in es;
      if e.Put? {
        SetThenParse(s, e.key, e.value, e.mode, e.export_, alnum);
      } else {
        UnsetThenParse(s, e.key);
      }
      EditsAgree(EditText(s, e, alnum), es[1..], alnum);
    }
  }
}
