/**
 The grammar of .env files as functions of a text and a place in it.  Each regular expression of the
 source is an exact matcher here; `ScanBinding` says what one turn of the parser does.
 */
module DotenvGrammar {
  import opened Options

  // ----- characters -----

  /** What `\s` matches, which is what str.isspace accepts. */
  predicate IsSpace(c: char) {
    || '\U{9}' <= c <= '\U{d}' || '\U{1c}' <= c <= ' ' || c == '\U{85}' || c == '\U{a0}' || c == '\U{1680}'
    || '\U{2000}' <= c <= '\U{200a}' || c == '\U{2028}' || c == '\U{2029}' || c == '\U{202f}' || c == '\U{205f}'
    || c == '\U{3000}'
  }

  predicate IsNewline(c: char) { c == '\r' || c == '\n' }
  predicate IsBlank(c: char) { IsSpace(c) && !IsNewline(c) }
  predicate InLine(c: char) { !IsNewline(c) }
  predicate InKey(c: char) { c != '=' && c != '#' && !IsSpace(c) }
  predicate InQuotedKey(c: char) { c != '\'' }

  const WHITE_SPACE: set<int> := {
    0x9, 0xA, 0xB, 0xC, 0xD, 0x1C, 0x1D, 0x1E, 0x1F, 0x20, 0x85, 0xA0, 0x1680, 0x2000, 0x2001, 0x2002, 0x2003,
    0x2004, 0x2005, 0x2006, 0x2007, 0x2008, 0x2009, 0x200A, 0x2028, 0x2029, 0x202F, 0x205F, 0x3000}

  /** The classes of characters, by their members. */
  lemma CharactersAre(c: char)
    ensures IsSpace(c) <==> c as int in WHITE_SPACE
    ensures IsBlank(c) <==> c as int in WHITE_SPACE - {0xA, 0xD}
    ensures InLine(c) <==> c as int !in {0xA, 0xD}
    ensures InKey(c) <==> c as int !in WHITE_SPACE + {0x23, 0x3D}
    ensures InQuotedKey(c) <==> c as int != 0x27
  {
  }

  /** The end of the longest run of such characters: what a greedy star matches. */
  function Span(s: string, i: nat, p: char -> bool): (j: nat)
    requires i <= |s|
    ensures i <= j <= |s|
    ensures j < |s| ==> !p(s[j])
    decreases |s| - i
  {
    if i < |s| && p(s[i]) then Span(s, i + 1, p) else i
  }

  lemma {:induction false} SpanHolds(s: string, i: nat, p: char -> bool)
    requires i <= |s|
    ensures forall k :: i <= k < Span(s, i, p) ==> p(s[k])
    decreases |s| - i
  {
    if i < |s| && p(s[i]) { SpanHolds(s, i + 1, p); }
  }

  /** There is only one such end. */
  lemma {:induction false} SpanIs(s: string, i: nat, p: char -> bool, j: nat)
    requires i <= j <= |s| && (forall k :: i <= k < j ==> p(s[k])) && (j < |s| ==> !p(s[j]))
    ensures Span(s, i, p) == j
    decreases j - i
  {
    if i < j { SpanIs(s, i + 1, p, j); }
  }

  // ----- quoted values -----

  /** Where a quoted value that starts at `i` is closed, if anywhere. */
  function Close(s: string, i: nat, quote: char): (end: Option<nat>)
    requires i <= |s|
    ensures end.Some? ==> i <= end.value < |s| && s[end.value] == quote
    decreases |s| - i
  {
    if i == |s| then None
    else if s[i] == quote then Some(i)
    else if s[i] == '\\' && i + 1 < |s| && s[i + 1] == quote then
      var later := Close(s, i + 2, quote);
      if later.Some? then later else Some(i + 1)
    else Close(s, i + 1, quote)
  }

  function DecodeSingle(t: string): string {
    if t == "" then ""
    else if |t| > 1 && t[0] == '\\' && t[1] in "\\'" then [t[1]] + DecodeSingle(t[2..])
    else [t[0]] + DecodeSingle(t[1..])
  }

  function DoubleEscape(c: char): char {
    if c == 'a' then '\U{7}' else if c == 'b' then '\U{8}' else if c == 'f' then '\U{c}' else if c == 'n' then '\n'
    else if c == 'r' then '\r' else if c == 't' then '\t' else if c == 'v' then '\U{b}' else c
  }

  function DecodeDouble(t: string): string {
    if t == "" then ""
    else if |t| > 1 && t[0] == '\\' && t[1] in "\\'\"abfnrtv" then [DoubleEscape(t[1])] + DecodeDouble(t[2..])
    else [t[0]] + DecodeDouble(t[1..])
  }

  // ----- unquoted values -----

  /** Everything from the first run of white space before a `#` on is a comment. */
  function CutComment(t: string, i: nat): string
    requires i <= |t|
    decreases |t| - i
  {
    if i == |t| then t
    else if IsSpace(t[i]) && (var k := Span(t, i, IsSpace); k < |t| && t[k] == '#') then t[..i]
    else CutComment(t, i + 1)
  }

  function StripRight(t: string): string {
    if t != "" && IsSpace(t[|t| - 1]) then StripRight(t[..|t| - 1]) else t
  }

  /** What the text of a value stands for: quotes and escapes undone, or a comment cut off. */
  function Decode(raw: string): string {
    if |raw| > 1 && raw[0] == '\'' then DecodeSingle(raw[1..|raw| - 1])
    else if |raw| > 1 && raw[0] == '"' then DecodeDouble(raw[1..|raw| - 1])
    else StripRight(CutComment(raw, 0))
  }

  // ----- where the pieces of a binding are -----

  datatype Extent = Extent(from: nat, to: nat)

  predicate Inside(x: Option<Extent>, i: nat, j: nat) {
    x.Some? ==> i <= x.value.from <= x.value.to <= j
  }

  /** A piece that ends at `end`, or its pattern was not found. */
  datatype Piece = NotFound | Found(extent: Option<Extent>, end: nat)

  function ExportEnd(s: string, i: nat): (j: nat)
    requires i <= |s|
    ensures i <= j <= |s|
  {
    if i + 6 <= |s| && s[i..i + 6] == "export" && Span(s, i + 6, IsBlank) > i + 6 then Span(s, i + 6, IsBlank) else i
  }

  /** A key; where a comment starts there is none. */
  function ScanKey(s: string, i: nat): (r: Piece)
    requires i <= |s|
    ensures r.Found? ==> i <= r.end <= |s| && Inside(r.extent, i, r.end)
  {
    if i < |s| && s[i] == '#' then Found(None, i)
    else if i < |s| && s[i] == '\'' then
      var j := Span(s, i + 1, InQuotedKey);
      if j == i + 1 || j == |s| then NotFound else Found(Some(Extent(i + 1, j)), j + 1)
    else
      var j := Span(s, i, InKey);
      if j == i then NotFound else Found(Some(Extent(i, j)), j)
  }

  /** A value with its quotes, or up to the end of its line. */
  function ScanValue(s: string, i: nat): (r: Piece)
    requires i <= |s|
    ensures r.Found? ==> i <= r.end <= |s| && r.extent == Some(Extent(i, r.end))
  {
    if i < |s| && s[i] in "'\"" then
      var close := Close(s, i + 1, s[i]);
      if close.None? then NotFound else Found(Some(Extent(i, close.value + 1)), close.value + 1)
    else
      var j := Span(s, i, InLine);
      Found(Some(Extent(i, j)), j)
  }

  function CommentEnd(s: string, i: nat): (j: nat)
    requires i <= |s|
    ensures i <= j <= |s|
  {
    var k := Span(s, i, IsBlank);
    if k < |s| && s[k] == '#' then Span(s, k, InLine) else i
  }

  predicate LineEnd(s: string, k: nat) {
    k == |s| || (k < |s| && IsNewline(s[k]))
  }

  /** The end of the line break at `k`, if there is one. */
  function BreakEnd(s: string, k: nat): (e: nat)
    requires LineEnd(s, k)
    ensures k <= e <= |s|
  {
    if k == |s| then k else if s[k] == '\r' && k + 1 < |s| && s[k + 1] == '\n' then k + 2 else k + 1
  }

  /** A line with its break at `end`; or where its parsing stopped with an error. */
  datatype Line = Broken(at: nat) | Line(key: Option<Extent>, value: Option<Extent>, end: nat)

  /** An optional `=` and value, at `i`. */
  function ScanAssignment(s: string, i: nat): (r: Line)
    requires i <= |s|
    ensures r.Broken? ==> i <= r.at <= |s|
    ensures r.Line? ==> i <= r.end <= |s| && r.key == None && Inside(r.value, i, r.end)
  {
    var j := Span(s, i, IsBlank);
    if j < |s| && s[j] == '=' then
      var v := Span(s, j + 1, IsBlank);
      var value := ScanValue(s, v);
      if value.NotFound? then Broken(v) else Line(None, value.extent, value.end)
    else Line(None, None, j)
  }

  /** The rest of a line: comment, blanks and line break. */
  function ScanRest(s: string, i: nat): (r: Line)
    requires i <= |s|
    ensures r.Broken? ==> i <= r.at <= |s|
    ensures r.Line? ==> i <= r.end <= |s| && LineEnd(s, r.end)
  {
    var c := CommentEnd(s, i);
    var k := Span(s, c, IsBlank);
    if LineEnd(s, k) then Line(None, None, k) else Broken(c)
  }

  /** What comes behind a key that ends at `i`. */
  function ScanBehindKey(s: string, key: Option<Extent>, i: nat): (r: Line)
    requires i <= |s|
    ensures r.Broken? ==> i <= r.at <= |s|
    ensures r.Line? ==> i <= r.end <= |s| && LineEnd(s, r.end) && r.key == key && Inside(r.value, i, r.end)
  {
    var a := ScanAssignment(s, i);
    if a.Broken? then a
    else
      var rest := ScanRest(s, a.end);
      if rest.Broken? then rest else Line(key, a.value, rest.end)
  }

  /** A line whose first character that is not white space is at `i`. */
  function ScanLine(s: string, i: nat): (r: Line)
    requires i < |s| && !IsSpace(s[i])
    ensures r.Broken? ==> i <= r.at <= |s|
    ensures r.Line? ==> i < r.end <= |s| && LineEnd(s, r.end) && Inside(r.key, i, r.end) && Inside(r.value, i, r.end)
  {
    var e := ExportEnd(s, i);
    var key := ScanKey(s, e);
    if key.NotFound? then Broken(e) else ScanBehindKey(s, key.extent, key.end)
  }

  /** After an error the parser resumes behind the rest of the line. */
  function Recover(s: string, i: nat): (e: nat)
    requires i <= |s|
    ensures i <= e <= |s| && (i < |s| ==> i < e)
  {
    var k := Span(s, i, InLine);
    if k < |s| then k + 1 else k
  }

  // ----- bindings -----

  datatype Parsed = Parsed(key: Option<string>, value: Option<string>, error: bool, end: nat)

  /** What a line that was scanned without an error says. */
  function Meaning(s: string, line: Line): Parsed
    requires line.Line? && line.end <= |s| && LineEnd(s, line.end)
    requires Inside(line.key, 0, line.end) && Inside(line.value, 0, line.end)
  {
    Parsed(
      if line.key.None? then None else Some(s[line.key.value.from..line.key.value.to]),
      if line.value.None? then None else Some(Decode(s[line.value.value.from..line.value.value.to])),
      false, BreakEnd(s, line.end))
  }

  /** One binding: the parser always gets ahead. */
  function ScanBinding(s: string, i: nat): (b: Parsed)
    requires i < |s|
    ensures i < b.end <= |s|
  {
    var j := Span(s, i, IsSpace);
    if j == |s| then Parsed(None, None, false, |s|)
    else
      var line := ScanLine(s, j);
      if line.Broken? then Parsed(None, None, true, Recover(s, line.at)) else Meaning(s, line)
  }

  // ----- any parser -----

  /** Reads the binding at a place in a text. */
  type Parser = (string, nat) -> Parsed

  ghost predicate Advances(p: Parser) {
    forall s: string, i: nat {:trigger p(s, i)} :: i < |s| ==> i < p(s, i).end <= |s|
  }

  /** The parser of .env files; there is nothing to read at the end of the text. */
  function Parse(s: string, i: nat): Parsed {
    if i < |s| then ScanBinding(s, i) else Parsed(None, None, false, |s|)
  }

  /** A parser that reads as this one does. */
  ghost predicate IsParse(p: Parser) {
    forall s: string, i: nat {:trigger Parse(s, i)} :: p(s, i) == Parse(s, i)
  }

  lemma ParseAdvances()
    ensures Advances(Parse) && IsParse(Parse)
  {
  }
}
