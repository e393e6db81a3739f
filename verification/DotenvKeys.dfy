/**
 Exactly which keys can be read, and which can be set: `set_key` writes a key as it is, without the quotes that the
 parser allows around it.
 */
module DotenvKeys {
  import opened Options
  import opened DotenvGrammar
  import opened DotenvLocality
  import opened DotenvRewriting
  import opened DotenvStream
  import opened DotenvWriting
  import opened DotenvEditing
  import opened DotenvTheorems
  import opened DotenvLimits

  // ----- which keys are read -----

  /** Neither of these is in front of a key. */
  predicate BeforeKey(c: char) { c != '\'' && c != '=' }

  lemma SpaceIsBefore(s: string, i: nat, p: char -> bool)
    requires i <= |s| && !p('\'') && !p('=')
    ensures forall x :: i <= x < Span(s, i, p) ==> BeforeKey(s[x])
  {
    SpanHolds(s, i, p);
  }

  lemma ExportIsBefore(s: string, i: nat)
    requires i <= |s|
    ensures forall x :: i <= x < ExportEnd(s, i) ==> BeforeKey(s[x])
  {
    if ExportEnd(s, i) > i {
      var word := s[i..i + 6];
      assert word == "export";
      forall x | i <= x < i + 6 ensures BeforeKey(s[x]) { assert s[x] == word[x - i]; }
      SpaceIsBefore(s, i + 6, IsBlank);
    }
  }

  /** A key stands in quotes from `a` on, and no quote or `=` stands before it. */
  ghost predicate QuotedKeyAt(s: string, i: nat, a: nat, key: string) {
    && i <= a && a + |key| + 1 < |s| && s[a] == s[a + |key| + 1] == '\'' && s[a + 1..a + |key| + 1] == key
    && key != "" && '\'' !in key && forall x :: i <= x < a ==> BeforeKey(s[x])
  }

  lemma ScannedKey(s: string, e: nat)
    requires e <= |s| && ScanKey(s, e).Found? && ScanKey(s, e).extent.Some?
    ensures var x := ScanKey(s, e).extent.value;
      WellFormedKey(s[x.from..x.to]) || (x.from == e + 1 && QuotedKeyAt(s, e, e, s[x.from..x.to]))
  {
    if s[e] == '\'' {
      SpanHolds(s, e + 1, InQuotedKey);
    } else {
      SpanHolds(s, e, InKey);
    }
  }

  lemma KeyOfLine(s: string, i: nat, key: string)
    requires i < |s| && Parse(s, i).key == Some(key)
    ensures var e := ExportEnd(s, Span(s, i, IsSpace)); var k := ScanKey(s, e);
      k.Found? && k.extent.Some? && key == s[k.extent.value.from..k.extent.value.to]
  {
  }

  /** A key that is read needs no quotes, or stands in quotes. */
  lemma KeyRead(s: string, i: nat, key: string) returns (a: nat)
    requires i < |s| && Parse(s, i).key == Some(key)
    ensures WellFormedKey(key) || QuotedKeyAt(s, i, a, key)
  {
    var j := Span(s, i, IsSpace);
    a := ExportEnd(s, j);
    KeyOfLine(s, i, key);
    ScannedKey(s, a);
    SpaceIsBefore(s, i, IsSpace);
    ExportIsBefore(s, j);
  }

  // ----- which keys are read from a written line -----

  lemma NoQuoteInFront(l: string, key: string, x: string, export_: bool, q: nat)
    requires l == LineText(key, x, export_) && q == |Prefix(export_)| + |key|
    ensures |l| == q + |x| + 2 && l[q] == '=' && l[|l| - 1] == '\n'
    ensures '\'' !in key ==> forall a :: 0 <= a <= q ==> l[a] != '\''
  {
    var front := Prefix(export_) + key;
    assert l == front + ("=" + x + "\n") == (front + "=" + x) + "\n";
    assert '\'' !in Prefix(export_);
    if '\'' !in key {
      forall a | 0 <= a < q ensures l[a] != '\'' { assert l[a] == front[a] && front[a] in front; }
    }
  }

  lemma KeyOfWrittenLine(l: string, key: string, x: string, export_: bool, q: nat)
    requires l == LineText(key, x, export_) && q == |Prefix(export_)| + |key| && Parse(l, 0).key == Some(key)
    ensures WellFormedKey(key)
  {
    NoQuoteInFront(l, key, x, export_, q);
    assert !BeforeKey(l[q]);
    var a := KeyRead(l, 0, key);
  }

  /** A written line is read as its key and value exactly if the key needs no quotes. */
  lemma WrittenKeyIff(key: string, x: string, export_: bool, v: string)
    requires IsValue(x, v)
    ensures Own(Parse(LineText(key, x, export_), 0)) == [(key, Some(v))] <==> WellFormedKey(key)
  {
    if WellFormedKey(key) {
      WrittenLineSays(key, x, export_, v);
    } else if Parse(LineText(key, x, export_), 0).key == Some(key) {
      KeyOfWrittenLine(LineText(key, x, export_), key, x, export_, |Prefix(export_)| + |key|);
    }
  }

  // ----- which keys are set -----

  /** From the line for an empty value no key is read that needs quotes. */
  lemma EmptyValueKeys(l: string, key: string, x: string, export_: bool, i: nat)
    requires l == LineText(key, x, export_) && x in ["", "''"] && i < |l| && Parse(l, i).key == Some(key)
    ensures WellFormedKey(key)
  {
    NoQuoteInFront(l, key, x, export_, |Prefix(export_)| + |key|);
    var a := KeyRead(l, i, key);
  }

  lemma {:induction false} NoPairOf(p: Parser, s: string, i: nat, key: string)
    requires Advances(p) && i <= |s| && forall m: nat {:trigger p(s, m)} :: m < |s| ==> p(s, m).key != Some(key)
    ensures forall pair <- Pairs(p, s, i) :: pair.0 != key
    decreases |s| - i
  {
    if i < |s| { NoPairOf(p, s, p(s, i).end, key); }
  }

  lemma EmptyValueSaid(key: string, x: string, export_: bool)
    requires x in ["", "''"] && !WellFormedKey(key)
    ensures forall pair <- Said(LineText(key, x, export_)) :: pair.0 != key
  {
    ParseAdvances();
    var l := LineText(key, x, export_);
    forall m: nat | m < |l| ensures Parse(l, m).key != Some(key) {
      if Parse(l, m).key == Some(key) { EmptyValueKeys(l, key, x, export_, m); }
    }
    NoPairOf(Parse, l, 0, key);
  }

  lemma EmptyValueOut(mode: string, alnum: char -> bool)
    ensures ValueOut("", mode, alnum) in ["", "''"] && Suits("", mode, alnum)
  {
    assert Quoted("") == "''";
  }

  /** In each mode, setting a key comes out right for all values that suit and all tidy sources exactly if the key needs
      no quotes. */
  lemma SetIffWellFormedKey(key: string, mode: string, export_: bool, alnum: char -> bool)
    requires KnownMode(mode)
    ensures WellFormedKey(key) <==>
      forall s, v :: IsTidy(s) && Suits(v, mode, alnum) ==> SetsRight(s, key, v, mode, export_, alnum)
  {
    if WellFormedKey(key) {
      forall s, v | IsTidy(s) && Suits(v, mode, alnum) ensures SetsRight(s, key, v, mode, export_, alnum) {
        SetThenParse(s, key, v, mode, export_, alnum);
      }
    } else {
      EmptyValueOut(mode, alnum);
      EmptyValueSaid(key, ValueOut("", mode, alnum), export_);
      ParseAdvances();
      assert Set("", key, "", mode, export_, alnum) == LineText(key, ValueOut("", mode, alnum), export_);
      assert IsTidy("") && (key, Some("")) in Bound(Said(""), key, "");
      assert !SetsRight("", key, "", mode, export_, alnum);
    }
  }

  // ----- a binding that is destroyed -----

  /** A binding with a quoted key and no value. */
  function QuotedKeyText(key: string): string { "'" + key + "'=\n" }

  lemma QuotedKeyParts(s: string, key: string)
    requires '\'' !in key && s == QuotedKeyText(key)
    ensures var n := |key|;
      && |s| == n + 4 && s[0] == s[n + 1] == '\'' && s[n + 2] == '=' && s[n + 3] == '\n' && s[1..n + 1] == key
      && forall k :: 1 <= k < n + 1 ==> InQuotedKey(s[k])
  {
    forall k | 1 <= k < |key| + 1 ensures InQuotedKey(s[k]) { assert s[k] == key[k - 1] && key[k - 1] in key; }
  }

  lemma QuotedKeyKey(s: string, n: nat)
    requires n > 0 && |s| == n + 4 && s[0] == s[n + 1] == '\'' && forall k :: 1 <= k < n + 1 ==> InQuotedKey(s[k])
    ensures !IsSpace(s[0]) && ScanKey(s, ExportEnd(s, 0)) == Found(Some(Extent(1, n + 1)), n + 2)
  {
    assert |s| >= 6 ==> s[0..6][0] == '\'';
    SpanIs(s, 1, InQuotedKey, n + 1);
  }

  lemma NoValueScan(s: string, k: nat)
    requires k + 2 == |s| && s[k] == '=' && s[k + 1] == '\n'
    ensures ScanAssignment(s, k) == Line(None, Some(Extent(k + 1, k + 1)), k + 1) && !LateAssignment(s, k)
    ensures ScanRest(s, k + 1) == Line(None, None, k + 1) && LineEnd(s, k + 1)
  {
    SpanIs(s, k, IsBlank, k);
    SpanIs(s, k + 1, IsBlank, k + 1);
    SpanIs(s, k + 1, InLine, k + 1);
  }

  lemma QuotedKeySays(s: string, key: string)
    requires key != "" && '\'' !in key && s == QuotedKeyText(key)
    ensures Own(Parse(s, 0)) == [(key, Some(""))] && Parse(s, 0).end == |s| && TidyAt(s, 0)
  {
    var n := |key|;
    QuotedKeyParts(s, key);
    QuotedKeyKey(s, n);
    NoValueScan(s, n + 2);
    QuotedKeyLine(s, Extent(1, n + 1), Extent(n + 3, n + 3), n + 2);
    assert s[n + 3..n + 3] == "";
    ParseOfScanned(s, 0, Line(Some(Extent(1, n + 1)), Some(Extent(n + 3, n + 3)), n + 3));
  }

  lemma QuotedKeyLine(s: string, key: Extent, x: Extent, k: nat)
    requires s != "" && !IsSpace(s[0]) && ScanKey(s, ExportEnd(s, 0)) == Found(Some(key), k) && k <= |s|
    requires x.to <= |s| && ScanAssignment(s, k) == Line(None, Some(x), x.to) && !LateAssignment(s, k)
    requires ScanRest(s, x.to) == Line(None, None, x.to) && LineEnd(s, x.to)
    ensures ScanLine(s, 0) == Line(Some(key), Some(x), x.to) && TidyAt(s, 0)
  {
  }

  lemma OneReplaced(p: Parser, s: string, key: string, line: string)
    requires Advances(p) && s != "" && p(s, 0).end == |s| && p(s, 0).key == Some(key)
    ensures SetText(p, s, key, line) == line
  {
    assert Rewrite(p, s, |s|, key, line) == "";
  }

  /** A key that is read because it stands in quotes: setting it leaves a text that does not have it any more. */
  lemma QuotedKeyIsLost(key: string, mode: string, export_: bool, alnum: char -> bool)
    requires key != "" && '\'' !in key && !WellFormedKey(key)
    ensures var s := QuotedKeyText(key);
      && IsTidy(s) && Said(s) == [(key, Some(""))]
      && forall pair <- Said(Set(s, key, "", mode, export_, alnum)) :: pair.0 != key
  {
    ParseAdvances();
    var s := QuotedKeyText(key);
    QuotedKeySays(s, key);
    OneBinding(Parse, s);
    EmptyValueOut(mode, alnum);
    var line := LineText(key, ValueOut("", mode, alnum), export_);
    OneReplaced(Parse, s, key, line);
    EmptyValueSaid(key, ValueOut("", mode, alnum), export_);
  }

  lemma BlankInKeyIsLost(mode: string, export_: bool, alnum: char -> bool)
    ensures Said("'a b'=\n") == [("a b", Some(""))]
    ensures forall pair <- Said(Set("'a b'=\n", "a b", "", mode, export_, alnum)) :: pair.0 != "a b"
  {
    assert "a b"[1] == ' ' && "a b"[1] in "a b";
    assert QuotedKeyText("a b") == "'a b'=\n";
    QuotedKeyIsLost("a b", mode, export_, alnum);
  }

  /** Which keys any text can have: those that need no quotes, and those that quotes can be put around. */
  lemma ReadableIff(key: string)
    ensures (exists s, i: nat :: i < |s| && Parse(s, i).key == Some(key))
       <==> WellFormedKey(key) || (key != "" && '\'' !in key)
  {
    if s, i: nat :| i < |s| && Parse(s, i).key == Some(key) {
      var a := KeyRead(s, i, key);
    }
    if WellFormedKey(key) {
      BareIsValue("");
      WrittenLineSays(key, "", false, "");
      assert Parse(LineText(key, "", false), 0).key == Some(key);
    } else if key != "" && '\'' !in key {
      QuotedKeySays(QuotedKeyText(key), key);
    }
  }
}
