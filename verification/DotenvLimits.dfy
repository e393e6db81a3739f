/**
 Exactly which values `set_key` can set: backslashes are not escaped, and what is written bare may need quotes.
 */
module DotenvLimits {
  import opened Options
  import opened DotenvGrammar
  import opened DotenvLocality
  import opened DotenvBindings
  import opened DotenvRewriting
  import opened DotenvStream
  import opened DotenvWriting
  import opened DotenvEditing
  import opened DotenvTheorems

  // ----- a new key -----

  /** The line of a quoted value as the last one of a text. */
  lemma LastLine(t: string, k: nat, key: string, v: string, export_: bool)
    requires QuotedAt(t, k, key, v, export_) && |t| == k + |LineText(key, Quoted(v), export_)|
    ensures Own(Parse(t, k)) == [(key, Some(DecodeSingle(Escape(v))))] && Parse(t, k).end == |t|
  {
    var i, n := k + |Prefix(export_)| + |key| + 2, |Escape(v)|;
    QuotedPart(t, k, key, v, export_);
    CloseEscaped(t, i, v);
    assert Close(t, i + n + 1, '\'') == Close(t, i + n + 2, '\'') == None;
    QuotedLineSays(t, k, key, v, export_, i, i + n, Escape(v));
  }

  lemma NewKeyText(s: string, key: string, line: string, t: string)
    requires forall pair <- Said(s) :: pair.0 != key
    requires Advances(Parse) && t == SetText(Parse, s, key, line)
    ensures !Mentions(Parse, s, 0, key) && t == s + (Ending(s) + line)
  {
    MentionedInPairs(Parse, s, 0, key);
    UnmentionedIsCopied(Parse, s, 0, key, line);
    assert s[0..] == s;
  }

  lemma NewKeySaid(s: string, key: string, v: string, export_: bool, line: string, t: string)
    requires line == LineText(key, Quoted(v), export_) && WellFormedKey(key) && IsTidy(s)
    requires Advances(Parse) && !Mentions(Parse, s, 0, key) && t == s + (Ending(s) + line)
    ensures Said(t) == Said(s) + [(key, Some(DecodeSingle(Escape(v))))]
  {
    var k: nat := |t| - |line|;
    assert Own(Parse(t, k)) == [(key, Some(DecodeSingle(Escape(v))))] && Parse(t, k).end == |t| by {
      EndingIsSpace(s, line, t);
      LastLine(t, k, key, v, export_);
    }
    ParserIsLocal();
    NewLinePairs(Parse, TidyAt, StopAt, s, key, line, t, k);
  }

  /** A new key at the end of a text gets what unescaping makes of the written value. */
  lemma SetNewKey(s: string, key: string, v: string, mode: string, export_: bool, alnum: char -> bool)
    requires Quotes(v, mode, alnum) && WellFormedKey(key) && IsTidy(s)
    requires forall pair <- Said(s) :: pair.0 != key
    ensures Said(Set(s, key, v, mode, export_, alnum)) == Said(s) + [(key, Some(DecodeSingle(Escape(v))))]
    ensures Said(Set(s, key, v, mode, export_, alnum)) == Bound(Said(s), key, v) <==> NoDoubleBackslash(v)
  {
    var line := LineText(key, Quoted(v), export_);
    var t := Set(s, key, v, mode, export_, alnum);
    ParseAdvances();
    NewKeyText(s, key, line, t);
    NewKeySaid(s, key, v, export_, line, t);
    EscapeRoundTrip(v);
    OtherLast(Said(s), (key, Some(DecodeSingle(Escape(v)))), (key, Some(v)));
  }

  lemma OtherLast(ps: seq<Pair>, a: Pair, b: Pair)
    ensures ps + [a] == ps + [b] <==> a == b
  {
    assert (ps + [a])[|ps|] == a && (ps + [b])[|ps|] == b;
  }

  // ----- a source that does not bear a backslash at the end -----

  /** An empty binding of the key, and a comment with a quote in it. */
  function QuoteBehind(key: string): string { LineText(key, "", false) + "#'" }

  lemma CommentAt(s: string, j: nat)
    requires j + 2 == |s| && s[j..] == "#'"
    ensures Parse(s, j) == Parsed(None, None, false, |s|) && TidyAt(s, j)
  {
    assert s[j] == s[j..][0] && s[j + 1] == s[j..][1];
    SpanIs(s, j, IsSpace, j);
    CommentScan(s, j);
    ParseOfScanned(s, j, Line(None, None, |s|));
  }

  lemma CommentScan(s: string, j: nat)
    requires j + 2 == |s| && s[j] == '#' && s[j + 1] == '\''
    ensures ScanLine(s, j) == Line(None, None, |s|) && !LateLine(s, j)
  {
    SpanIs(s, j, IsBlank, j);
    SpanIs(s, j, InLine, |s|);
    SpanIs(s, |s|, IsBlank, |s|);
  }

  lemma EmptyLine(l: string, key: string)
    requires WellFormedKey(key) && l == LineText(key, "", false)
    ensures l != "" && TidyLine(l, 0) && LineAt(l, 0).end == |l| - 1 && Own(Parse(l, 0)) == [(key, Some(""))]
  {
    BareIsValue("");
    WrittenLineScan(key, "", false, "");
    WrittenLineSays(key, "", false, "");
    SpanIs(l, 0, IsSpace, 0);
  }

  lemma EmptyBinding(s: string, key: string, l: string)
    requires WellFormedKey(key) && l == LineText(key, "", false) && s == l + "#'"
    ensures Own(Parse(s, 0)) == [(key, Some(""))] && Parse(s, 0).end == |s| - 2 > 0 && TidyAt(s, 0)
  {
    EmptyLine(l, key);
    BindingInFront(l, |l| - 1, s);
    TidyFrom(s);
  }

  lemma BindingInFront(l: string, n: nat, s: string)
    requires l <= s && n + 1 == |l| && l[n] == '\n' && TidyLine(l, 0) && LineAt(l, 0).end == n
    ensures TidyLine(s, 0) && Own(Parse(s, 0)) == Own(Parse(l, 0)) && Parse(s, 0).end == n + 1
  {
    assert Mirror(l, 0, n, s, 0);
    BindingMirror(l, 0, s, 0);
  }

  lemma TidyFrom(s: string)
    requires TidyLine(s, 0)
    ensures TidyAt(s, 0)
  {
  }

  /** A text of two bindings, the first of which is the key's. */
  lemma TwoBindings(p: Parser, trust: Trust, s: string, a: nat, pair: Pair)
    requires Advances(p) && 0 < a < |s| && p(s, 0).end == a && p(s, a).end == |s|
    requires trust(s, 0) && trust(s, a) && p(s, a).key == None && Own(p(s, 0)) == [pair]
    ensures Tidy(p, trust, s, 0) && Pairs(p, s, 0) == [pair]
  {
    assert Pairs(p, s, a) == [] && Tidy(p, trust, s, a);
  }

  lemma FirstReplaced(p: Parser, s: string, a: nat, key: string, line: string)
    requires Advances(p) && 0 < a < |s| && p(s, 0).end == a && p(s, a).end == |s|
    requires p(s, a).key == None && p(s, 0).key == Some(key)
    ensures SetText(p, s, key, line) == line + s[a..]
  {
    assert Rewrite(p, s, a, key, line) == s[a..|s|] + "";
  }

  lemma CloseBehindComment(t: string, j: nat)
    requires j + 3 == |t| && t[j] == '\n' && t[j + 1] == '#' && t[j + 2] == '\''
    ensures Close(t, j, '\'') == Some(j + 2)
  {
    assert Close(t, j + 1, '\'') == Close(t, j + 2, '\'') == Some(j + 2);
  }

  /** Where the value of that line is, and the later quote that closes it. */
  lemma LaterQuote(t: string, i: nat, e: string, v: string, n: nat)
    requires EndsInBackslash(v) && e == Escape(v) && n == |e| && |t| == i + n + 4
    requires t[i..] == e + "'\n#'"
    ensures Close(t, i, '\'') == Some(|t| - 1) && t[i..|t| - 1] == Coded(v, "'\n#")
  {
    var x := t[i..];
    forall y | 0 <= y < n ensures t[y + i] == e[y] { assert x[y] == e[y]; }
    assert x[n] == '\'' && x[n + 1] == '\n' && x[n + 2] == '#' && x[n + 3] == '\'';
    CloseEscaped(t, i, v);
    CloseBehindComment(t, i + n + 1);
    assert t[i..|t| - 1] == x[..n + 3] == e + "'\n#";
  }

  lemma BehindEqualSign(t: string, front: string, v: string, i: nat)
    requires t == ((front + "=") + Quoted(v) + "\n") + "#'" && i == |front| + 2
    ensures i + |Escape(v)| + 4 == |t| && t[i..] == Escape(v) + "'\n#'"
  {
    assert t == (front + "='") + (Escape(v) + "'\n#'");
  }

  /** The later quote closes the value. */
  lemma ReadToLaterQuote(t: string, key: string, v: string, export_: bool, l: string)
    requires WellFormedKey(key) && EndsInBackslash(v) && l == LineText(key, Quoted(v), export_) && t == l + "#'"
    ensures Own(Parse(t, 0)) == [(key, Some(DecodeSingle(Coded(v, "'\n#"))))] && Parse(t, 0).end == |t|
  {
    var i := |Prefix(export_)| + |key| + 2;
    BehindEqualSign(t, Prefix(export_) + key, v, i);
    LaterQuote(t, i, Escape(v), v, |Escape(v)|);
    assert QuotedAt(t, 0, key, v, export_);
    QuotedLineSays(t, 0, key, v, export_, i, |t| - 1, Coded(v, "'\n#"));
  }

  lemma QuoteBehindIsTidy(s: string, key: string, line: string, t: string)
    requires WellFormedKey(key) && s == QuoteBehind(key) && t == line + "#'"
    ensures IsTidy(s) && Said(s) == [(key, Some(""))]
    ensures Advances(Parse) && SetText(Parse, s, key, line) == t
  {
    ParseAdvances();
    EmptyBinding(s, key, LineText(key, "", false));
    var a := |s| - 2;
    assert s[a..] == "#'";
    CommentAt(s, a);
    TwoBindings(Parse, TidyAt, s, a, (key, Some("")));
    FirstReplaced(Parse, s, a, key, line);
  }

  lemma SaidOfOne(t: string, key: string, v: string)
    requires t != "" && Own(Parse(t, 0)) == [(key, Some(v))] && Parse(t, 0).end == |t|
    ensures Said(t) == [(key, Some(v))]
  {
    ParseAdvances();
    OneBinding(Parse, t);
  }

  lemma BoundOnce(key: string, u: string, v: string)
    ensures Bound([(key, Some(u))], key, v) == [(key, Some(v))]
  {
    var ps := [(key, Some(u))];
    assert ps[0] in ps && ps[0].0 == key;
  }

  /** For every value that ends in a backslash there is a tidy source in which setting it goes wrong. */
  lemma BackslashAtEndIsLost(key: string, v: string, mode: string, export_: bool, alnum: char -> bool)
    requires Quotes(v, mode, alnum) && WellFormedKey(key) && EndsInBackslash(v)
    ensures var s := QuoteBehind(key);
      && IsTidy(s) && Said(s) == [(key, Some(""))]
      && Said(Set(s, key, v, mode, export_, alnum)) == [(key, Some(DecodeSingle(Coded(v, "'\n#"))))]
      && Said(Set(s, key, v, mode, export_, alnum)) != Bound(Said(s), key, v)
  {
    var line := LineText(key, Quoted(v), export_);
    var t, read := line + "#'", DecodeSingle(Coded(v, "'\n#"));
    QuoteBehindIsTidy(QuoteBehind(key), key, line, t);
    ReadToLaterQuote(t, key, v, export_, line);
    SaidOfOne(t, key, read);
    LateIsOther(v, "'\n#");
    BoundOnce(key, "", v);
    OtherLast([], (key, Some(read)), (key, Some(v)));
  }

  lemma OneBinding(p: Parser, t: string)
    requires Advances(p) && t != "" && p(t, 0).end == |t|
    ensures Pairs(p, t, 0) == Own(p(t, 0))
  {
    assert Pairs(p, t, |t|) == [];
  }

  // ----- values written bare -----

  /** No value is longer than the text it is read from. */
  lemma ParsedIsShorter(s: string, i: nat)
    requires i < |s| && Parse(s, i).value.Some?
    ensures |Parse(s, i).value.value| < |s| - i
  {
    var j := Span(s, i, IsSpace);
    var line := ScanLine(s, j);
    ValueFrom(s, j);
    DecodedFits(s[line.value.value.from..line.value.value.to]);
  }

  lemma ValueFrom(s: string, j: nat)
    requires j < |s| && !IsSpace(s[j]) && ScanLine(s, j).Line? && ScanLine(s, j).value.Some?
    ensures ScanLine(s, j).value.value.from > j
  {
  }

  lemma DecodedFits(raw: string)
    ensures |Decode(raw)| <= |raw| && (|raw| > 1 && raw[0] in "'\"" ==> |Decode(raw)| < |raw|)
  {
    if |raw| > 1 { DecodedIsShorter(raw[1..|raw| - 1]); }
    CommentFree(raw, 0);
    StrippedIsShorter(CutComment(raw, 0));
  }

  lemma {:induction false} PairsAreShorter(p: Parser, s: string, i: nat)
    requires Advances(p) && i <= |s|
    requires forall m: nat {:trigger p(s, m)} :: m < |s| && p(s, m).value.Some? ==> |p(s, m).value.value| < |s| - m
    ensures forall pair <- Pairs(p, s, i) :: pair.1.Some? ==> |pair.1.value| < |s| - i
    decreases |s| - i
  {
    if i < |s| { PairsAreShorter(p, s, p(s, i).end); }
  }

  /** Behind the `=` at `q` of a line, up to its end, stands the bare value. */
  ghost predicate BareAt(t: string, q: nat, v: string) {
    q + |v| + 2 == |t| && t[q] == '=' && t[q + 1..|t| - 1] == v && t[|t| - 1] == '\n'
  }

  /** Only a plain value is read there. */
  lemma BareReading(t: string, q: nat, v: string, w: nat)
    requires BareAt(t, q, v) && w == Span(t, q + 1, IsBlank) && ScanValue(t, w).Found? && !Plain(v)
    ensures Decode(t[w..ScanValue(t, w).end]) != v
  {
    var e := ScanValue(t, w).end;
    var raw := t[w..e];
    SpanHolds(t, q + 1, IsBlank);
    SpanHolds(t, w, InLine);
    assert w <= |t| - 1 && e <= |t| - 1;
    DecodedFits(raw);
    if |raw| == |v| && t[w] !in "'\"" {
      assert raw == v;
      NotPlain(v);
    }
  }

  lemma NotPlain(v: string)
    requires !Plain(v) && (forall c <- v :: InLine(c)) && (v != "" ==> v[0] !in "'\"" && !IsSpace(v[0]))
    ensures Decode(v) != v
  {
    CommentFree(v, 0);
    StrippedIsShorter(CutComment(v, 0));
    StrippedIsShorter(v);
  }

  lemma BareLineScan(t: string, name: Extent, q: nat, w: nat)
    requires q < |t| && !IsSpace(t[0]) && ScanKey(t, ExportEnd(t, 0)) == Found(Some(name), q)
    requires t[q] == '=' && w == Span(t, q + 1, IsBlank)
    ensures var line := ScanLine(t, 0);
      if line.Broken? then line.at >= w
      else ScanValue(t, w).Found? && line.key == Some(name) && line.value == Some(Extent(w, ScanValue(t, w).end))
  {
    SpanIs(t, q, IsBlank, q);
  }

  lemma BareLineParse(t: string, key: string, name: Extent, w: nat)
    requires t != "" && !IsSpace(t[0]) && name.from <= name.to <= w <= |t| && t[name.from..name.to] == key
    requires var line := ScanLine(t, 0);
      if line.Broken? then line.at >= w
      else ScanValue(t, w).Found? && line.key == Some(name) && line.value == Some(Extent(w, ScanValue(t, w).end))
    ensures var b := Parse(t, 0);
      if b.error then Own(b) == [] && (b.end > w || b.end == |t|)
      else ScanValue(t, w).Found? && Own(b) == [(key, Some(Decode(t[w..ScanValue(t, w).end])))]
  {
  }

  lemma BareLineParts(t: string, key: string, v: string, export_: bool, p: nat, q: nat)
    requires WellFormedKey(key) && t == LineText(key, v, export_)
    requires p == |Prefix(export_)| && q == p + |key|
    ensures BareAt(t, q, v) && !IsSpace(t[0]) && t[p..q] == key
    ensures ScanKey(t, ExportEnd(t, 0)) == Found(Some(Extent(p, q)), q)
  {
    LineParts(key, v, export_);
    KeyStart(key, v, export_);
    ExportStart(key, v, export_);
    assert t == (Prefix(export_) + key + "=") + (v + "\n");
  }

  /** Alone in a text, the line of a bare value that is not plain says something else. */
  lemma BareLineDiffers(t: string, key: string, v: string, export_: bool, p: nat, q: nat, w: nat)
    requires WellFormedKey(key) && t == LineText(key, v, export_) && !Plain(v)
    requires p == |Prefix(export_)| && q == p + |key| && q + 1 <= |t| && w == Span(t, q + 1, IsBlank)
    ensures var b := Parse(t, 0);
      if b.error then Own(b) == [] && |t| - b.end <= |v| else |Own(b)| == 1 && Own(b)[0] != (key, Some(v))
  {
    BareLineParts(t, key, v, export_, p, q);
    BareLineScan(t, Extent(p, q), q, w);
    BareLineParse(t, key, Extent(p, q), w);
    if ScanValue(t, w).Found? { BareReading(t, q, v, w); }
  }

  /** What is written bare and is not plain is read back otherwise. */
  lemma BareIsLost(key: string, v: string, mode: string, export_: bool, alnum: char -> bool)
    requires !Quotes(v, mode, alnum) && WellFormedKey(key) && !Plain(v)
    ensures IsTidy("") && Said("") == [] && Said(Set("", key, v, mode, export_, alnum)) != [(key, Some(v))]
  {
    ParseAdvances();
    var t := LineText(key, v, export_);
    assert Set("", key, v, mode, export_, alnum) == t;
    var q := |Prefix(export_)| + |key|;
    BareLineDiffers(t, key, v, export_, |Prefix(export_)|, q, Span(t, q + 1, IsBlank));
    forall m: nat | m < |t| && Parse(t, m).value.Some? ensures |Parse(t, m).value.value| < |t| - m {
      ParsedIsShorter(t, m);
    }
    PairsAreShorter(Parse, t, Parse(t, 0).end);
    FirstDecides(Parse, t, (key, Some(v)));
  }

  lemma FirstDecides(p: Parser, t: string, pair: Pair)
    requires Advances(p) && t != ""
    requires if Own(p(t, 0)) == [] then pair !in Pairs(p, t, p(t, 0).end) else Own(p(t, 0))[0] != pair
    ensures Pairs(p, t, 0) != [pair]
  {
    var rest := Pairs(p, t, p(t, 0).end);
    assert Pairs(p, t, 0) == Own(p(t, 0)) + rest;
    if Own(p(t, 0)) == [] {
      assert Own(p(t, 0)) + rest == rest;
      assert [pair][0] == pair;
    } else {
      assert (Own(p(t, 0)) + rest)[0] == Own(p(t, 0))[0];
    }
  }

  // ----- exactly which values -----

  /** Setting a key to this value does what it is meant to. */
  ghost predicate SetsRight(s: string, key: string, v: string, mode: string, export_: bool, alnum: char -> bool) {
    Said(Set(s, key, v, mode, export_, alnum)) == Bound(Said(s), key, v)
  }

  /** In every mode, exactly the values that suit it are set as they should be in every tidy source. */
  lemma SetIffSuits(key: string, v: string, mode: string, export_: bool, alnum: char -> bool)
    requires KnownMode(mode) && WellFormedKey(key)
    ensures Suits(v, mode, alnum) <==> forall s :: IsTidy(s) ==> SetsRight(s, key, v, mode, export_, alnum)
  {
    if Suits(v, mode, alnum) {
      forall s | IsTidy(s) ensures SetsRight(s, key, v, mode, export_, alnum) {
        SetThenParse(s, key, v, mode, export_, alnum);
      }
    } else if !Quotes(v, mode, alnum) {
      BareIsLost(key, v, mode, export_, alnum);
      assert !SetsRight("", key, v, mode, export_, alnum);
    } else if EndsInBackslash(v) {
      BackslashAtEndIsLost(key, v, mode, export_, alnum);
      assert !SetsRight(QuoteBehind(key), key, v, mode, export_, alnum);
    } else {
      assert IsTidy("") && Said("") == [];
      SetNewKey("", key, v, mode, export_, alnum);
      assert !SetsRight("", key, v, mode, export_, alnum);
    }
  }
}
