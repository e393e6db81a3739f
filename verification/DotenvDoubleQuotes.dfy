/**
 Values in double quotes: which escapes there are, and that every value can be written with them.
 */
module DotenvDoubleQuotes {
  import opened Options
  import opened DotenvGrammar
  import opened DotenvBacktracking
  import opened DotenvWriting
  import opened DotenvLines

  /** The ten characters that have an escape. */
  function Code(c: char): string {
    if c == '\\' then "\\\\" else if c == '\'' then "\\'" else if c == '"' then "\\\""
    else if c == '\U{7}' then "\\a" else if c == '\U{8}' then "\\b" else if c == '\U{c}' then "\\f"
    else if c == '\n' then "\\n" else if c == '\r' then "\\r" else if c == '\t' then "\\t"
    else if c == '\U{b}' then "\\v" else [c]
  }

  function Encode(v: string): string {
    if v == "" then "" else Code(v[0]) + Encode(v[1..])
  }

  lemma CodeIsDecoded(c: char, rest: string)
    ensures DecodeDouble(Code(c) + rest) == [c] + DecodeDouble(rest)
  {
    var e := Code(c) + rest;
    if |Code(c)| == 2 {
      assert e[0] == '\\' && e[1] == Code(c)[1] && e[2..] == rest && e[1] in "\\'\"abfnrtv";
      assert DoubleEscape(e[1]) == c;
    } else {
      assert e[0] == c && e[1..] == rest;
    }
  }

  /** Every value is what its encoding stands for. */
  lemma {:induction false} EncodeRoundTrip(v: string)
    ensures DecodeDouble(Encode(v)) == v
  {
    if v != "" {
      CodeIsDecoded(v[0], Encode(v[1..]));
      EncodeRoundTrip(v[1..]);
    }
  }

  /** Nothing else is an escape: any other character stands for itself, and a backslash before it does too. */
  lemma OthersStay(c: char, rest: string)
    ensures c != '\\' ==> DecodeDouble([c] + rest) == [c] + DecodeDouble(rest)
    ensures c !in "\\'\"abfnrtv" ==> DecodeDouble("\\" + ([c] + rest)) == "\\" + ([c] + DecodeDouble(rest))
    ensures DecodeDouble("\\") == "\\"
    ensures c != '\\' ==> DecodeSingle([c] + rest) == [c] + DecodeSingle(rest)
    ensures c !in "\\'" ==> DecodeSingle("\\" + ([c] + rest)) == "\\" + ([c] + DecodeSingle(rest))
  {
    var one, two := [c] + rest, "\\" + ([c] + rest);
    assert one[0] == c && one[1..] == rest && two[0] == '\\' && two[1] == c && two[1..] == one;
    assert "\\"[1..] == "";
  }

  // ----- in a text -----

  /** A quote of the encoding has a backslash before it. */
  lemma {:induction false} EncodedQuotes(v: string)
    ensures forall k :: 0 <= k < |Encode(v)| && Encode(v)[k] == '"' ==> k > 0 && Encode(v)[k - 1] == '\\'
  {
    if v != "" {
      EncodedQuotes(v[1..]);
      var code, rest := Code(v[0]), Encode(v[1..]);
      forall k | 0 <= k < |Encode(v)| && Encode(v)[k] == '"' ensures k > 0 && Encode(v)[k - 1] == '\\' {
        if k >= |code| {
          assert Encode(v)[k] == rest[k - |code|];
          assert Encode(v)[k - 1] == rest[k - |code| - 1];
        } else {
          assert Encode(v)[k] == code[k];
        }
      }
    }
  }

  lemma {:induction false} EncodedEnd(v: string)
    ensures EndsInBackslash(Encode(v)) ==> EndsInBackslash(v)
  {
    if |v| > 1 {
      EncodedEnd(v[1..]);
      assert Encode(v[1..]) == Code(v[1]) + Encode(v[2..]) by { assert v[1..][1..] == v[2..]; }
    } else if |v| == 1 {
      assert v[1..] == "" && Encode(v) == Code(v[0]) + "";
    }
  }

  /** The encoding stands at `i`, closed at its end. */
  predicate EncodedAt(t: string, i: nat, c: nat, v: string) {
    i + |Encode(v)| == c < |t| && t[i..c] == Encode(v) && t[c] == '"'
  }

  lemma EncodedCloses(t: string, i: nat, c: nat, v: string)
    requires EncodedAt(t, i, c, v) && (EndsInBackslash(v) ==> '"' !in t[c + 1..])
    ensures ClosedAt(t, i, '"', c)
  {
    EncodedQuotes(v);
    EncodedEnd(v);
    var e := Encode(v);
    assert forall x :: i <= x < c ==> t[x] == e[x - i];
    assert forall x :: c < x < |t| ==> t[x] == t[c + 1..][x - c - 1];
    var late := i < c && t[c - 1] == '\\';
    assert QuoteAt(t, i, c, '"', late);
    forall k: nat | i <= k < c && t[k] == '"' ensures i < k && t[k - 1] == '\\' { assert e[k - i] == '"'; }
    if late { assert e[|e| - 1] == '\\'; }
  }

  /** A key, `=` and an encoded value in double quotes. */
  function DoubleLine(key: string, v: string): string { key + ("=\"" + (Encode(v) + "\"")) }

  lemma DoubleParts(t: string, key: string, v: string, tail: string)
    requires t == DoubleLine(key, v) + tail
    ensures var n, c := |key|, |key| + 2 + |Encode(v)|;
      && |t| == c + 1 + |tail| && t[..n] == key && t[n] == '=' && t[n + 1] == '"'
      && EncodedAt(t, n + 2, c, v) && t[c + 1..] == tail
  {
  }

  lemma KeyPart(t: string, key: string)
    requires WellFormedKey(key) && |key| < |t| && t[..|key|] == key && t[|key|] == '='
    ensures LongestRun(t, 0, 0, IsSpace) && ExportTo(t, 0, 0) && KeyTo(t, 0, |key|, Some(key))
  {
    var n := |key|;
    assert forall x :: 0 <= x < n ==> t[x] == key[x] && key[x] in key;
    assert t[0..n] == key;
    if 7 <= |t| && t[0..6] == "export" {
      assert forall x :: 0 <= x < 6 ==> t[x] == "export"[x];
      assert n >= 6;
    }
  }

  lemma ValuePart(t: string, i: nat, c: nat, v: string)
    requires EncodedAt(t, i, c, v) && i > 0 && t[i - 1] == '"' && (EndsInBackslash(v) ==> '"' !in t[c + 1..])
    ensures ValueTo(t, i - 1, c + 1, v)
  {
    EncodedCloses(t, i, c, v);
    EncodeRoundTrip(v);
  }

  lemma PlacedValue(t: string, i: nat, c: nat, v: string)
    requires i < |t| && t[i] == '"' && EncodedAt(t, i + 1, c, v) && (EndsInBackslash(v) ==> '"' !in t[c + 1..])
    ensures c < |t| && ValueTo(t, i, c + 1, v)
  {
    ValuePart(t, i + 1, c, v);
  }

  lemma LineOfParts(t: string, n: nat, e: nat, key: string, v: string)
    requires LongestRun(t, 0, 0, IsSpace) && ExportTo(t, 0, 0) && KeyTo(t, 0, n, Some(key))
    requires n + 1 < e <= |t| && t[n] == '=' && t[n + 1] == '"' && ValueTo(t, n + 1, e, v) && EndsLine(t, e)
    ensures IsLine(t, 0, Layout(0, 0, n, n, n + 1, e, e, e), Some(key), Some(v))
  {
  }

  lemma LineWithBreak(t: string, l: Layout, key: string, v: string) returns (b: Parsed)
    requires t != "" && IsLine(t, 0, l, Some(key), Some(v)) && l.lineEnd <= |t|
    ensures b == Parsed(Some(key), Some(v), false, b.end) && BreakTo(t, l.lineEnd, b.end) && LineSays(t, 0, b)
  {
    var n := l.lineEnd;
    var e := if n >= |t| then n else n + if t[n] == '\r' && n + 1 < |t| && t[n + 1] == '\n' then 2 else 1;
    b := Parsed(Some(key), Some(v), false, e);
  }

  lemma PlacedLine(t: string, n: nat, c: nat, key: string, v: string)
    requires WellFormedKey(key) && n == |key| && n + 1 < |t| && t[..n] == key && t[n] == '=' && t[n + 1] == '"'
    requires EncodedAt(t, n + 2, c, v) && (EndsInBackslash(v) ==> '"' !in t[c + 1..]) && EndsLine(t, c + 1)
    ensures IsLine(t, 0, Layout(0, 0, n, n, n + 1, c + 1, c + 1, c + 1), Some(key), Some(v))
  {
    assert LongestRun(t, 0, 0, IsSpace) && ExportTo(t, 0, 0) && KeyTo(t, 0, n, Some(key)) by { KeyPart(t, key); }
    assert ValueTo(t, n + 1, c + 1, v) by { PlacedValue(t, n + 1, c, v); }
    LineOfParts(t, n, c + 1, key, v);
  }

  lemma TailEndsLine(t: string, e: nat, tail: string)
    requires e <= |t| && t[e..] == tail && (tail == "" || tail[0] in "\r\n")
    ensures EndsLine(t, e)
  {
    assert tail != "" ==> t[e] == t[e..][0];
  }

  lemma PlacedLineSays(t: string, n: nat, c: nat, key: string, v: string) returns (b: Parsed)
    requires WellFormedKey(key) && n == |key| && n + 1 < |t| && t[..n] == key && t[n] == '=' && t[n + 1] == '"'
    requires EncodedAt(t, n + 2, c, v) && (EndsInBackslash(v) ==> '"' !in t[c + 1..]) && EndsLine(t, c + 1)
    ensures b == Parsed(Some(key), Some(v), false, b.end) && BreakTo(t, c + 1, b.end) && Parse(t, 0) == b
  {
    PlacedLine(t, n, c, key, v);
    b := LineWithBreak(t, Layout(0, 0, n, n, n + 1, c + 1, c + 1, c + 1), key, v);
    LineIsParsed(t, 0, b);
  }

  /** Read from a line, every value in double quotes is what was encoded, unless a later quote closes it. */
  lemma DoubleLineSays(t: string, key: string, v: string, tail: string) returns (end: nat)
    requires WellFormedKey(key) && t == DoubleLine(key, v) + tail && (tail == "" || tail[0] in "\r\n")
    requires EndsInBackslash(v) ==> '"' !in tail
    ensures Parse(t, 0) == Parsed(Some(key), Some(v), false, end) && BreakTo(t, |DoubleLine(key, v)|, end)
  {
    var c := |key| + 2 + |Encode(v)|;
    DoubleParts(t, key, v, tail);
    TailEndsLine(t, c + 1, tail);
    var b := PlacedLineSays(t, |key|, c, key, v);
    end := b.end;
  }
}
