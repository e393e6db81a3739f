/**
 The line that `set_key` writes, and when it reads back as the key and the value that were asked for.
 */
module DotenvWriting {
  import opened Options
  import opened DotenvGrammar
  import opened DotenvLocality
  import opened DotenvRewriting
  import opened DotenvStream

  // ----- quoting -----

  /** Every single quote gets a backslash. */
  function Escape(v: string): string {
    if v == "" then "" else (if v[0] == '\'' then "\\'" else [v[0]]) + Escape(v[1..])
  }

  predicate NoDoubleBackslash(v: string) {
    forall i :: 0 <= i < |v| - 1 ==> !(v[i] == '\\' && v[i + 1] == '\\')
  }

  /** An escaped value and what stands behind it. */
  function Coded(v: string, tail: string): string { Escape(v) + tail }

  lemma EscapeStep(v: string, tail: string)
    requires v != ""
    ensures var e := Coded(v, tail);
      if v[0] == '\'' then e[0] == '\\' && e[1] == '\'' && e[2..] == Coded(v[1..], tail)
      else e[0] == v[0] && e[1..] == Coded(v[1..], tail)
  {
  }

  lemma DecodePair(e: string, rest: string)
    requires |e| > 1 && e[0] == '\\' && e[1] in "\\'" && e[2..] == rest
    ensures DecodeSingle(e) == [e[1]] + DecodeSingle(rest)
  {
  }

  lemma DecodeOne(e: string, rest: string)
    requires e != "" && !(|e| > 1 && e[0] == '\\' && e[1] in "\\'") && e[1..] == rest
    ensures DecodeSingle(e) == [e[0]] + DecodeSingle(rest)
  {
  }

  lemma DecodeBackslashes(v: string, tail: string)
    requires |v| > 1 && v[0] == '\\' && v[1] == '\\'
    ensures DecodeSingle(Coded(v, tail)) == "\\" + DecodeSingle(Coded(v[2..], tail))
  {
    EscapeStep(v, tail);
    EscapeStep(v[1..], tail);
    assert v[1..][1..] == v[2..];
    assert Coded(v, tail)[2..] == Coded(v[1..], tail)[1..];
    DecodePair(Coded(v, tail), Coded(v[2..], tail));
  }

  lemma DecodeEscapedQuote(v: string, tail: string)
    requires |v| > 1 && v[0] == '\\' && v[1] == '\''
    ensures DecodeSingle(Coded(v, tail)) == "\\" + ("'" + DecodeSingle(Coded(v[2..], tail)))
  {
    EscapeStep(v, tail);
    EscapeStep(v[1..], tail);
    assert v[1..][1..] == v[2..];
    var rest := Coded(v[1..], tail)[1..];
    assert rest[1..] == Coded(v[1..], tail)[2..];
    assert Coded(v, tail)[2..] == rest;
    DecodePair(Coded(v, tail), rest);
    DecodeOne(rest, Coded(v[2..], tail));
  }

  lemma DecodeOther(v: string, tail: string)
    requires v != "" && !(|v| > 1 && v[0] == '\\' && v[1] in "\\'") && (v == "\\" ==> tail == "")
    ensures DecodeSingle(Coded(v, tail)) == [v[0]] + DecodeSingle(Coded(v[1..], tail))
  {
    EscapeStep(v, tail);
    if v[0] == '\'' {
      DecodePair(Coded(v, tail), Coded(v[1..], tail));
    } else {
      if |v| > 1 {
        EscapeStep(v[1..], tail);
        assert Coded(v, tail)[1] == Coded(v[1..], tail)[0];
      }
      DecodeOne(Coded(v, tail), Coded(v[1..], tail));
    }
  }

  lemma {:induction false} DecodeShrinks(v: string)
    ensures |DecodeSingle(Coded(v, ""))| <= |v|
    ensures !NoDoubleBackslash(v) ==> |DecodeSingle(Coded(v, ""))| < |v|
    decreases |v|
  {
    if v != "" {
      if |v| > 1 && v[0] == '\\' && v[1] == '\\' {
        DecodeBackslashes(v, "");
        DecodeShrinks(v[2..]);
      } else if |v| > 1 && v[0] == '\\' && v[1] == '\'' {
        DecodeEscapedQuote(v, "");
        DecodeShrinks(v[2..]);
      } else {
        DecodeOther(v, "");
        DecodeShrinks(v[1..]);
      }
      if !NoDoubleBackslash(v) {
        var i :| 0 <= i < |v| - 1 && v[i] == '\\' && v[i + 1] == '\\';
        if i > 0 { assert v[1..][i - 1] == v[i] && v[1..][i] == v[i + 1]; }
        if i > 1 { assert v[2..][i - 2] == v[i] && v[2..][i - 1] == v[i + 1]; }
      }
    }
  }

  lemma {:induction false} DecodeInverts(v: string)
    requires NoDoubleBackslash(v)
    ensures DecodeSingle(Coded(v, "")) == v
    decreases |v|
  {
    if v != "" {
      if |v| > 1 && v[0] == '\\' && v[1] == '\'' {
        DecodeEscapedQuote(v, "");
        DecodeInverts(v[2..]);
        assert v == "\\" + ("'" + v[2..]);
      } else {
        assert |v| > 1 && v[0] == '\\' ==> v[1] != '\\';
        DecodeOther(v, "");
        DecodeInverts(v[1..]);
      }
    }
  }

  /** Escaping is undone exactly for the values without two backslashes in a row. */
  lemma EscapeRoundTrip(v: string)
    ensures DecodeSingle(Escape(v)) == v <==> NoDoubleBackslash(v)
  {
    assert Coded(v, "") == Escape(v);
    DecodeShrinks(v);
    if NoDoubleBackslash(v) { DecodeInverts(v); }
  }

  predicate EndsInBackslash(v: string) { v != "" && v[|v| - 1] == '\\' }

  /** The values that a quoted line carries whatever stands behind it. */
  predicate Encodable(v: string) { NoDoubleBackslash(v) && !EndsInBackslash(v) }

  lemma EscapeBegins(v: string)
    requires v != ""
    ensures Escape(v) != "" && Escape(v)[0] != '\''
  {
  }

  /** Where a value is closed that has a quote at `k`, which may have a backslash before it. */
  function ClosedFrom(t: string, k: nat, escaped: bool): Option<nat>
    requires k < |t|
  {
    if escaped && Close(t, k + 1, '\'').Some? then Close(t, k + 1, '\'') else Some(k)
  }

  /** The quote behind an escaped value closes it, unless the value ends in a backslash and a later quote does. */
  lemma {:induction false} CloseEscaped(t: string, p: nat, v: string)
    requires var n := |Escape(v)|; p + n < |t| && Mirror(Escape(v), 0, n, t, p) && t[p + n] == '\''
    ensures Close(t, p, '\'') == ClosedFrom(t, p + |Escape(v)|, EndsInBackslash(v))
    decreases |v|
  {
    if v != "" {
      var w := v[1..];
      assert Coded(v, "") == Escape(v) && Coded(w, "") == Escape(w);
      EscapeStep(v, "");
      assert t[0 + p] == Escape(v)[0];
      if v[0] == '\'' {
        assert t[1 + p] == Escape(v)[1];
        assert Mirror(Escape(w), 0, |Escape(w)|, t, p + 2) by { TailMirror(Escape(v), 2, t, p); }
        CloseEscaped(t, p + 2, w);
      } else if |v| == 1 {
        assert Escape(w) == "";
      } else {
        EscapeBegins(w);
        assert t[1 + p] == Escape(v)[1] == Escape(w)[0];
        assert Mirror(Escape(w), 0, |Escape(w)|, t, p + 1) by { TailMirror(Escape(v), 1, t, p); }
        CloseEscaped(t, p + 1, w);
      }
    }
  }

  lemma TailMirror(e: string, m: nat, t: string, p: nat)
    requires m <= |e| && Mirror(e, 0, |e|, t, p)
    ensures Mirror(e[m..], 0, |e| - m, t, p + m)
  {
    forall x | 0 <= x < |e| - m ensures t[x + (p + m)] == e[m..][x] { assert t[(x + m) + p] == e[x + m]; }
  }

  function Quoted(v: string): string { "'" + Escape(v) + "'" }

  /** A quoted value on a line that others follow. */
  function QuotedLine(v: string, rest: string): string { Quoted(v) + ("\n" + rest) }

  /** From behind a `=`, the value is read back before these lines. */
  predicate ReadsBackBefore(v: string, rest: string) {
    var t := QuotedLine(v, rest);
    var value := ScanValue(t, 0);
    value.Found? && Decode(t[..value.end]) == v
  }

  /** It is read back whatever follows its line. */
  ghost predicate ReadsBack(v: string) {
    forall rest: string :: ReadsBackBefore(v, rest)
  }

  lemma QuotedMirror(v: string, rest: string)
    ensures var t, n := QuotedLine(v, rest), |Escape(v)|;
      && Mirror(Escape(v), 0, n, t, 1) && t[0] == '\'' && t[n + 1] == '\'' && |Quoted(v)| == n + 2 && t[n + 2] == '\n'
      && t[n + 3..] == rest && t[..n + 2] == Quoted(v)
  {
    var t := QuotedLine(v, rest);
    forall x | 0 <= x < |Escape(v)| ensures t[x + 1] == Escape(v)[x] {}
  }

  lemma {:induction false} CloseOnlyAtQuote(s: string, i: nat, quote: char)
    requires i <= |s| && quote != '\\'
    ensures Close(s, i, quote).Some? <==> quote in s[i..]
    decreases |s| - i
  {
    if i < |s| {
      assert s[i..] == [s[i]] + s[i + 1..];
      if s[i] == '\\' && i + 1 < |s| && s[i + 1] == quote {
        assert s[i..][1] == quote;
      } else {
        CloseOnlyAtQuote(s, i + 1, quote);
      }
    }
  }

  lemma QuotedCloses(v: string, rest: string)
    ensures var t, n := QuotedLine(v, rest), |Escape(v)|;
      Close(t, 1, '\'') == if EndsInBackslash(v) && '\'' in rest then Close(t, n + 3, '\'') else Some(n + 1)
    ensures EndsInBackslash(v) && '\'' in rest ==> Close(QuotedLine(v, rest), |Escape(v)| + 3, '\'').Some?
  {
    var t, n := QuotedLine(v, rest), |Escape(v)|;
    QuotedMirror(v, rest);
    CloseEscaped(t, 1, v);
    CloseOnlyAtQuote(t, n + 3, '\'');
    assert Close(t, n + 2, '\'') == Close(t, n + 3, '\'');
  }

  lemma DecodeQuoted(v: string)
    ensures Decode(Quoted(v)) == DecodeSingle(Escape(v))
  {
    var q := Quoted(v);
    assert q[1..|q| - 1] == Escape(v);
  }

  function Leading(x: string): nat {
    if x != "" && x[0] == '\\' then 1 + Leading(x[1..]) else 0
  }

  /** A quote behind an escaped value is never decoded to a backslash. */
  lemma {:induction false} LeadingShrinks(v: string, tail: string)
    requires tail != "" && tail[0] == '\''
    ensures Leading(DecodeSingle(Coded(v, tail))) <= Leading(v)
    decreases |v|
  {
    if v == "" {
      DecodeOne(tail, tail[1..]);
      assert Coded(v, tail) == tail;
    } else if v == "\\" {
      EscapeStep(v, tail);
      assert Coded(v[1..], tail) == tail;
      DecodePair(Coded(v, tail), tail[1..]);
    } else if |v| > 1 && v[0] == '\\' && v[1] == '\\' {
      DecodeBackslashes(v, tail);
      LeadingShrinks(v[2..], tail);
      assert v[1..][1..] == v[2..];
    } else if |v| > 1 && v[0] == '\\' && v[1] == '\'' {
      DecodeEscapedQuote(v, tail);
    } else {
      DecodeOther(v, tail);
      LeadingShrinks(v[1..], tail);
    }
  }

  /** A value that ends in a backslash is not what is read up to a later quote. */
  lemma {:induction false} LateIsOther(v: string, tail: string)
    requires EndsInBackslash(v) && tail != "" && tail[0] == '\''
    ensures DecodeSingle(Coded(v, tail)) != v
    decreases |v|
  {
    if v == "\\" {
      EscapeStep(v, tail);
      assert Coded(v[1..], tail) == tail;
      DecodePair(Coded(v, tail), tail[1..]);
    } else if v[0] == '\\' && v[1] == '\\' {
      DecodeBackslashes(v, tail);
      LeadingShrinks(v[2..], tail);
      assert v[1..][1..] == v[2..] && v == "\\" + v[1..];
    } else if v[0] == '\\' && v[1] == '\'' {
      DecodeEscapedQuote(v, tail);
      LateIsOther(v[2..], tail);
      assert v == "\\" + ("'" + v[2..]);
    } else {
      DecodeOther(v, tail);
      LateIsOther(v[1..], tail);
    }
  }

  lemma InnerText(t: string, n: nat, c: nat, e: string)
    requires n + 1 < c < |t| && t[1..n + 1] == e
    ensures t[..c + 1][1..c] == e + t[n + 1..c]
  {
    assert t[..c + 1][1..c] == t[1..c] == t[1..n + 1] + t[n + 1..c];
  }

  lemma LateReading(t: string, v: string, n: nat, c: nat)
    requires EndsInBackslash(v) && n + 1 < c < |t| && t[0] == t[n + 1] == '\'' && t[1..n + 1] == Escape(v)
    ensures Decode(t[..c + 1]) != v
  {
    var raw, tail := t[..c + 1], t[n + 1..c];
    assert tail[0] == '\'' && raw[0] == '\'' && |raw| > 1;
    InnerText(t, n, c, Escape(v));
    assert raw[1..|raw| - 1] == Coded(v, tail);
    LateIsOther(v, tail);
  }

  lemma ReadUpTo(v: string, rest: string, c: nat)
    requires Close(QuotedLine(v, rest), 1, '\'') == Some(c)
    ensures ReadsBackBefore(v, rest) <==> Decode(QuotedLine(v, rest)[..c + 1]) == v
  {
    assert QuotedLine(v, rest)[0] == '\'';
  }

  lemma ReadLate(v: string, rest: string, c: nat)
    requires EndsInBackslash(v) && |Escape(v)| + 1 < c < |QuotedLine(v, rest)|
    ensures Decode(QuotedLine(v, rest)[..c + 1]) != v
  {
    var t, n := QuotedLine(v, rest), |Escape(v)|;
    assert t[0] == t[n + 1] == '\'' && t[1..n + 1] == Escape(v) by { QuotedMirror(v, rest); }
    LateReading(t, v, n, c);
  }

  /** Exactly when a value is read back: which value it is, and what stands on the lines behind it. */
  lemma ReadBackExactly(v: string, rest: string)
    ensures ReadsBackBefore(v, rest) <==> NoDoubleBackslash(v) && (EndsInBackslash(v) ==> '\'' !in rest)
  {
    QuotedCloses(v, rest);
    var c := Close(QuotedLine(v, rest), 1, '\'').value;
    ReadUpTo(v, rest, c);
    if EndsInBackslash(v) && '\'' in rest {
      ReadLate(v, rest, c);
    } else {
      assert QuotedLine(v, rest)[..c + 1] == Quoted(v) by { QuotedMirror(v, rest); }
      DecodeQuoted(v);
      EscapeRoundTrip(v);
    }
  }

  /** Exactly the encodable values are read back whatever follows them. */
  lemma ReadBackIffEncodable(v: string)
    ensures ReadsBack(v) <==> Encodable(v)
  {
    forall rest: string
      ensures ReadsBackBefore(v, rest) <==> NoDoubleBackslash(v) && (EndsInBackslash(v) ==> '\'' !in rest)
    {
      ReadBackExactly(v, rest);
    }
    assert ReadsBack(v) ==> ReadsBackBefore(v, "'");
  }

  // ----- the written value -----

  /** On a line of its own this text is a value that stands for `v`. */
  ghost predicate IsValue(x: string, v: string) {
    && ScanValue(x + "\n", 0) == Found(Some(Extent(0, |x|)), |x|) && !LateValue(x + "\n", 0)
    && Decode(x) == v && (x != "" ==> !IsSpace(x[0]))
  }

  lemma {:induction false} EscapeEnds(v: string)
    ensures EndsInBackslash(Escape(v)) <==> EndsInBackslash(v)
  {
    if |v| > 1 {
      assert Coded(v, "") == Escape(v) && Coded(v[1..], "") == Escape(v[1..]);
      EscapeStep(v, "");
      EscapeEnds(v[1..]);
      EscapeBegins(v[1..]);
    }
  }

  lemma QuotedIsValue(v: string)
    requires Encodable(v)
    ensures IsValue(Quoted(v), v)
  {
    var t, n := Quoted(v) + "\n", |Escape(v)|;
    assert t == QuotedLine(v, "");
    QuotedMirror(v, "");
    QuotedCloses(v, "");
    DecodeQuoted(v);
    EscapeRoundTrip(v);
    EscapeEnds(v);
    assert v != "" ==> t[(n - 1) + 1] == Escape(v)[n - 1];
  }

  /** Text that needs no quotes: one line, no comment in it, no quote before it, no white space around it. */
  predicate Plain(x: string) {
    && (forall c <- x :: InLine(c))
    && (forall i :: 0 <= i < |x| - 1 && IsSpace(x[i]) ==> x[i + 1] != '#')
    && (x != "" ==> x[0] !in "'\"" && !IsSpace(x[0]) && !IsSpace(x[|x| - 1]))
  }

  /** A comment is cut off exactly if a `#` stands behind white space. */
  lemma {:induction false} CommentFree(x: string, i: nat)
    requires i <= |x|
    ensures |CutComment(x, i)| <= |x|
    ensures CutComment(x, i) == x <==> forall k :: i <= k < |x| - 1 && IsSpace(x[k]) ==> x[k + 1] != '#'
    decreases |x| - i
  {
    if i < |x| {
      CommentFree(x, i + 1);
      if IsSpace(x[i]) {
        var j := Span(x, i, IsSpace);
        SpanHolds(x, i, IsSpace);
        assert j > i && IsSpace(x[j - 1]);
        if i + 1 < |x| && x[i + 1] == '#' { SpanIs(x, i, IsSpace, i + 1); }
      }
    }
  }

  lemma {:induction false} StrippedIsShorter(t: string)
    ensures |StripRight(t)| <= |t| && (|StripRight(t)| == |t| ==> t == "" || !IsSpace(t[|t| - 1]))
  {
    if t != "" && IsSpace(t[|t| - 1]) { StrippedIsShorter(t[..|t| - 1]); }
  }

  lemma {:induction false} DecodedIsShorter(t: string)
    ensures |DecodeSingle(t)| <= |t| && |DecodeDouble(t)| <= |t|
    decreases |t|
  {
    if |t| > 1 { DecodedIsShorter(t[2..]); }
    if t != "" { DecodedIsShorter(t[1..]); }
  }

  lemma BareScan(x: string)
    requires x == "" || x[0] !in "'\""
    ensures ScanValue(x + "\n", 0) == Found(Some(Extent(0, |x|)), |x|) <==> forall c <- x :: InLine(c)
  {
    var t := x + "\n";
    assert x != "" ==> t[0] == x[0];
    if forall c <- x :: InLine(c) {
      forall k | 0 <= k < |x| ensures InLine(t[k]) { assert x[k] in x; }
      SpanIs(t, 0, InLine, |x|);
    } else {
      var k :| 0 <= k < |x| && !InLine(x[k]);
      SpanHolds(t, 0, InLine);
      assert t[k] == x[k];
    }
  }

  lemma QuotedIsShorter(x: string)
    requires x != "" && x[0] in "'\"" && ScanValue(x + "\n", 0).Found? && ScanValue(x + "\n", 0).end == |x|
    ensures |Decode(x)| < |x|
  {
    assert (x + "\n")[0] == x[0];
    DecodedIsShorter(x[1..|x| - 1]);
  }

  /** Written bare, exactly the plain texts are read back. */
  lemma BareIsValue(x: string)
    ensures IsValue(x, x) <==> Plain(x)
  {
    assert x != "" ==> (x + "\n")[0] == x[0];
    if x != "" && x[0] in "'\"" {
      if IsValue(x, x) { QuotedIsShorter(x); }
    } else {
      BareScan(x);
      CommentFree(x, 0);
      StrippedIsShorter(CutComment(x, 0));
      StrippedIsShorter(x);
    }
  }

  // ----- the written line -----

  predicate WellFormedKey(key: string) {
    key != "" && key[0] != '\'' && forall c <- key :: c != '=' && c != '#' && !IsSpace(c)
  }

  function Prefix(export_: bool): string { if export_ then "export " else "" }

  function LineText(key: string, x: string, export_: bool): string {
    Prefix(export_) + key + "=" + x + "\n"
  }

  /** Where the parts of the written line are. */
  lemma LineParts(key: string, x: string, export_: bool)
    ensures var l, p, q := LineText(key, x, export_), |Prefix(export_)|, |Prefix(export_)| + |key|;
      && |l| == q + |x| + 2 && l[q] == '=' && l[..p] == Prefix(export_)
      && Mirror(key, 0, |key|, l, p) && Mirror(x + "\n", 0, |x| + 1, l, q + 1)
  {
    var l, p, q := LineText(key, x, export_), |Prefix(export_)|, |Prefix(export_)| + |key|;
    assert l == Prefix(export_) + (key + ("=" + (x + "\n")));
    forall k | 0 <= k < |key| ensures l[k + p] == key[k] {}
    forall k | 0 <= k < |x| + 1 ensures l[k + (q + 1)] == (x + "\n")[k] {}
  }

  lemma KeyStart(key: string, x: string, export_: bool)
    requires WellFormedKey(key)
    ensures var l, p, q := LineText(key, x, export_), |Prefix(export_)|, |Prefix(export_)| + |key|;
      && p < |l| && l[p] == key[0] && InKey(key[0]) && ScanKey(l, p) == Found(Some(Extent(p, q)), q)
  {
    var l, p, q := LineText(key, x, export_), |Prefix(export_)|, |Prefix(export_)| + |key|;
    LineParts(key, x, export_);
    assert l[0 + p] == key[0] && key[0] in key;
    forall k | p <= k < q ensures InKey(l[k]) { assert l[(k - p) + p] == key[k - p] && key[k - p] in key; }
    SpanIs(l, p, InKey, q);
  }

  lemma NotExport(l: string, q: nat)
    requires q < 6 <= |l| && l[q] == '='
    ensures l[0..6] != "export"
  {
    assert l[0..6][q] == '=';
  }

  lemma ExportStart(key: string, x: string, export_: bool)
    requires WellFormedKey(key)
    ensures ExportEnd(LineText(key, x, export_), 0) == |Prefix(export_)|
  {
    var l, p, q := LineText(key, x, export_), |Prefix(export_)|, |Prefix(export_)| + |key|;
    LineParts(key, x, export_);
    KeyStart(key, x, export_);
    if export_ {
      assert l[0..6] == "export" && l[6] == ' ' by { assert l[..7] == "export "; }
      SpanIs(l, 6, IsBlank, 7);
    } else if |key| < 6 {
      if |l| >= 6 { NotExport(l, q); }
    } else {
      assert |key| > 6 ==> l[6 + 0] == key[6] && key[6] in key;
    }
  }

  lemma AssignmentAt(l: string, q: nat, x: string, v: string)
    requires q + |x| + 2 == |l| && l[q] == '=' && Mirror(x + "\n", 0, |x| + 1, l, q + 1) && IsValue(x, v)
    ensures var e := q + 1 + |x|;
      && ScanAssignment(l, q) == Line(None, Some(Extent(q + 1, e)), e) && !LateAssignment(l, q)
      && ScanRest(l, e) == Line(None, None, e) && l[e] == '\n'
  {
    var y, e := x + "\n", q + 1 + |x|;
    assert l[0 + (q + 1)] == y[0] && l[|x| + (q + 1)] == y[|x|];
    MirrorWithin(y, 0, |x| + 1, l, q + 1, 0, |x|);
    ValueMirror(y, 0, |x|, l, q + 1);
  }

  /** Where the scanner finds the parts of the written line. */
  lemma WrittenLineScan(key: string, x: string, export_: bool, v: string)
    requires WellFormedKey(key) && IsValue(x, v)
    ensures var l, p, q := LineText(key, x, export_), |Prefix(export_)|, |Prefix(export_)| + |key|;
      && |l| == q + |x| + 2 && !IsSpace(l[0]) && !LateLine(l, 0)
      && ScanLine(l, 0) == Line(Some(Extent(p, q)), Some(Extent(q + 1, q + 1 + |x|)), q + 1 + |x|)
      && l[q + 1 + |x|] == '\n'
  {
    var l, q := LineText(key, x, export_), |Prefix(export_)| + |key|;
    LineParts(key, x, export_);
    KeyStart(key, x, export_);
    ExportStart(key, x, export_);
    AssignmentAt(l, q, x, v);
  }

  lemma WrittenLineMeaning(key: string, x: string, export_: bool, v: string)
    requires WellFormedKey(key) && IsValue(x, v)
    ensures var l, p, q := LineText(key, x, export_), |Prefix(export_)|, |Prefix(export_)| + |key|;
      |l| == q + |x| + 2 && l[p..q] == key && Decode(l[q + 1..q + 1 + |x|]) == v
  {
    var l, p, q := LineText(key, x, export_), |Prefix(export_)|, |Prefix(export_)| + |key|;
    LineParts(key, x, export_);
    MirrorWithin(key, 0, |key|, l, p, 0, |key|);
    MirrorWithin(x + "\n", 0, |x| + 1, l, q + 1, 0, |x|);
    assert key[0..|key|] == key && (x + "\n")[0..|x|] == x;
  }

  /** The written line says the key and the value, wherever it is put. */
  lemma WrittenLineSays(key: string, x: string, export_: bool, v: string)
    requires WellFormedKey(key) && IsValue(x, v)
    ensures Says(Parse, TidyAt, StopAt, LineText(key, x, export_), [(key, Some(v))])
  {
    var l, k, value := WrittenLineParts(key, x, export_, v);
    ScannedLineSays(l, k, value, key, v);
  }

  lemma WrittenLineParts(key: string, x: string, export_: bool, v: string)
    returns (l: string, k: Extent, value: Extent)
    requires WellFormedKey(key) && IsValue(x, v)
    ensures l == LineText(key, x, export_) && l != "" && !IsSpace(l[0]) && !LateLine(l, 0)
    ensures ScanLine(l, 0) == Line(Some(k), Some(value), |l| - 1) && l[|l| - 1] == '\n'
    ensures l[k.from..k.to] == key && Decode(l[value.from..value.to]) == v
  {
    var p, q := |Prefix(export_)|, |Prefix(export_)| + |key|;
    l, k, value := LineText(key, x, export_), Extent(p, q), Extent(q + 1, q + 1 + |x|);
    WrittenLineScan(key, x, export_, v);
    WrittenLineMeaning(key, x, export_, v);
  }

  lemma ScannedLineSays(l: string, k: Extent, x: Extent, key: string, v: string)
    requires l != "" && !IsSpace(l[0]) && !LateLine(l, 0) && ScanLine(l, 0) == Line(Some(k), Some(x), |l| - 1)
    requires l[|l| - 1] == '\n' && l[k.from..k.to] == key && Decode(l[x.from..x.to]) == v
    ensures Says(Parse, TidyAt, StopAt, l, [(key, Some(v))])
  {
    ParseOfLine(l, 0);
  }

  // ----- any quoted line, in any text -----

  /** The written line of a quoted value stands at `k`. */
  ghost predicate QuotedAt(t: string, k: nat, key: string, v: string, export_: bool) {
    WellFormedKey(key) && var l := LineText(key, Quoted(v), export_); Mirror(l, 0, |l|, t, k)
  }

  lemma QuotedPart(t: string, k: nat, key: string, v: string, export_: bool)
    requires QuotedAt(t, k, key, v, export_)
    ensures var i, n := k + |Prefix(export_)| + |key| + 2, |Escape(v)|;
      && i + n + 2 <= |t| && Mirror(Escape(v), 0, n, t, i) && t[i..i + n] == Escape(v)
      && t[i - 2] == '=' && t[i - 1] == t[i + n] == '\'' && t[i + n + 1] == '\n'
  {
    var l, i, n := LineText(key, Quoted(v), export_), |Prefix(export_)| + |key| + 2, |Escape(v)|;
    LineParts(key, Quoted(v), export_);
    var y := Quoted(v) + "\n";
    forall x | 0 <= x < n ensures t[x + (k + i)] == Escape(v)[x] { assert l[(x + 1) + (i - 1)] == y[x + 1]; }
    assert l[0 + (i - 1)] == y[0] && l[(n + 1) + (i - 1)] == y[n + 1] && l[(n + 2) + (i - 1)] == y[n + 2];
    assert t[(i - 2) + k] == l[i - 2] && t[(i - 1) + k] == l[i - 1];
    assert t[(i + n) + k] == l[i + n] && t[(i + n + 1) + k] == l[i + n + 1];
    MirrorWithin(Escape(v), 0, n, t, k + i, 0, n);
  }

  lemma QuotedKeyText(t: string, k: nat, key: string, v: string, export_: bool)
    requires QuotedAt(t, k, key, v, export_)
    ensures var p, q := k + |Prefix(export_)|, k + |Prefix(export_)| + |key|;
      q < |t| && !IsSpace(t[k]) && t[p..q] == key
  {
    var l, p, q := LineText(key, Quoted(v), export_), |Prefix(export_)|, |Prefix(export_)| + |key|;
    LineParts(key, Quoted(v), export_);
    KeyStart(key, Quoted(v), export_);
    assert l[0 + p] == key[0] && t[0 + k] == l[0];
    MirrorWithin(l, 0, |l|, t, k, p, q);
    MirrorWithin(key, 0, |key|, l, p, 0, |key|);
    assert key[0..|key|] == key;
  }

  lemma QuotedKeyPart(t: string, k: nat, key: string, v: string, export_: bool)
    requires QuotedAt(t, k, key, v, export_)
    ensures var p, q := k + |Prefix(export_)|, k + |Prefix(export_)| + |key|;
      ScanKey(t, ExportEnd(t, k)) == Found(Some(Extent(p, q)), q)
  {
    var l := LineText(key, Quoted(v), export_);
    KeyStart(key, Quoted(v), export_);
    ExportStart(key, Quoted(v), export_);
    assert t[(|l| - 1) + k] == l[|l| - 1] == '\n';
    LineStartMirror(l, 0, |l| - 1, t, k);
  }

  lemma QuotedAssignment(t: string, q: nat, x: Extent, c: nat)
    requires q + 1 < |t| && t[q] == '=' && t[q + 1] == '\'' && Close(t, q + 2, '\'') == Some(c) && LineEnd(t, c + 1)
    requires x == Extent(q + 1, c + 1)
    ensures ScanAssignment(t, q) == Line(None, Some(x), c + 1)
    ensures ScanRest(t, c + 1) == Line(None, None, c + 1)
  {
  }

  lemma ScannedLine(t: string, k: nat, key: Extent, x: Extent, c: nat)
    requires k < |t| && !IsSpace(t[k]) && ScanKey(t, ExportEnd(t, k)) == Found(Some(key), key.to)
    requires key.to <= |t| && ScanAssignment(t, key.to) == Line(None, Some(x), c + 1)
    requires c < |t| && LineEnd(t, c + 1) && ScanRest(t, c + 1) == Line(None, None, c + 1)
    ensures ScanLine(t, k) == Line(Some(key), Some(x), c + 1)
  {
  }

  lemma ParseOfScanned(t: string, k: nat, line: Line)
    requires k < |t| && !IsSpace(t[k]) && line.Line? && ScanLine(t, k) == line
    ensures Parse(t, k) == Meaning(t, line)
  {
  }

  lemma DecodeBetween(t: string, a: nat, c: nat)
    requires a < c < |t| && t[a] == '\''
    ensures Decode(t[a..c + 1]) == DecodeSingle(t[a + 1..c])
  {
    var raw := t[a..c + 1];
    var inner := raw[1..|raw| - 1];
    forall x | 0 <= x < |inner| ensures inner[x] == t[a + 1..c][x] { assert inner[x] == raw[x + 1] == t[a + 1 + x]; }
    assert inner == t[a + 1..c];
  }

  lemma QuotedLineScan(
      t: string, k: nat, key: string, v: string, export_: bool, i: nat, c: nat, name: Extent, x: Extent)
    requires QuotedAt(t, k, key, v, export_) && LineEnd(t, c + 1)
    requires i == k + |Prefix(export_)| + |key| + 2 && i <= |t| && Close(t, i, '\'') == Some(c)
    requires name == Extent(k + |Prefix(export_)|, i - 2) && x == Extent(i - 1, c + 1)
    ensures k < |t| && !IsSpace(t[k]) && ScanLine(t, k) == Line(Some(name), Some(x), c + 1)
    ensures t[name.from..name.to] == key && t[i - 1] == '\''
  {
    assert t[i - 2] == '=' && t[i - 1] == '\'' by { QuotedPart(t, k, key, v, export_); }
    QuotedKeyText(t, k, key, v, export_);
    assert ScanKey(t, ExportEnd(t, k)) == Found(Some(name), name.to) by { QuotedKeyPart(t, k, key, v, export_); }
    QuotedAssignment(t, name.to, x, c);
    ScannedLine(t, k, name, x, c);
  }

  lemma MeaningOfQuoted(t: string, key: Extent, x: Extent, c: nat, name: string, value: string)
    requires x.to == c + 1 && x.from < c < |t| && t[x.from] == '\'' && t[x.from + 1..c] == value
    requires key.from <= key.to < x.from && t[key.from..key.to] == name && LineEnd(t, c + 1)
    ensures Meaning(t, Line(Some(key), Some(x), c + 1))
         == Parsed(Some(name), Some(DecodeSingle(value)), false, BreakEnd(t, c + 1))
  {
    DecodeBetween(t, x.from, c);
  }

  lemma ParseOfQuoted(t: string, k: nat, key: Extent, x: Extent, c: nat, name: string, value: string)
    requires k < |t| && !IsSpace(t[k]) && ScanLine(t, k) == Line(Some(key), Some(x), c + 1)
    requires x.to == c + 1 && x.from < c < |t| && t[x.from] == '\'' && t[x.from + 1..c] == value
    requires key.from <= key.to < x.from && t[key.from..key.to] == name
    ensures Parse(t, k) == Parsed(Some(name), Some(DecodeSingle(value)), false, BreakEnd(t, c + 1))
  {
    ParseOfScanned(t, k, Line(Some(key), Some(x), c + 1));
    MeaningOfQuoted(t, key, x, c, name, value);
  }

  /** What a quoted line says if its value is closed at `c`: the text between the quotes, decoded. */
  lemma QuotedLineSays(t: string, k: nat, key: string, v: string, export_: bool, i: nat, c: nat, value: string)
    requires QuotedAt(t, k, key, v, export_) && LineEnd(t, c + 1)
    requires i == k + |Prefix(export_)| + |key| + 2 && i <= |t| && Close(t, i, '\'') == Some(c)
    requires t[i..c] == value
    ensures Parse(t, k) == Parsed(Some(key), Some(DecodeSingle(value)), false, BreakEnd(t, c + 1))
  {
    var name, x := Extent(k + |Prefix(export_)|, i - 2), Extent(i - 1, c + 1);
    QuotedLineScan(t, k, key, v, export_, i, c, name, x);
    ParseOfQuoted(t, k, name, x, c, key, value);
  }
}
