/** The functions that parse by moving a reader. */
module DotenvParser {
  import opened Options
  import opened DotenvGrammar
  import opened DotenvReader
  import opened DotenvBindings

  /** After a run of characters that are no `\r` the text may be cut. */
  lemma WholeBehindRun(s: string, i: nat, p: char -> bool)
    requires i <= |s| && Whole(s, i) && !p('\r')
    ensures Whole(s, Span(s, i, p))
  {
    SpanHolds(s, i, p);
  }

  /** What was read of a key, as the grammar says it. */
  function KeyOf(s: string, k: Piece): Result<Option<string>>
    requires k.Found? ==> k.end <= |s| && Inside(k.extent, 0, k.end)
  {
    if k.NotFound? then Failed
    else Ok(if k.extent.None? then None else Some(s[k.extent.value.from..k.extent.value.to]))
  }

  function ValueOf(s: string, v: Piece): Result<string>
    requires v.Found? ==> v.extent.Some? && v.end <= |s| && Inside(v.extent, 0, v.end)
  {
    if v.NotFound? then Failed else Ok(Decode(s[v.extent.value.from..v.extent.value.to]))
  }

  function EndOf(p: Piece, i: nat): nat {
    if p.NotFound? then i else p.end
  }

  lemma KeyCases(s: string, i: nat)
    requires i <= |s| && Whole(s, i)
    ensures var k := ScanKey(s, i);
      && Whole(s, EndOf(k, i))
      && (i < |s| && s[i] == '#' ==> k == Found(None, i))
      && (i < |s| && s[i] == '\'' ==> var m := SingleQuotedKey(s, i);
            if m.NoMatch? then k.NotFound? else KeyOf(s, k) == Ok(Some(m.group)) && k.end == m.end)
      && (i == |s| || (s[i] != '#' && s[i] != '\'') ==> var m := UnquotedKey(s, i);
            if m.NoMatch? then k.NotFound? else KeyOf(s, k) == Ok(Some(m.group)) && k.end == m.end)
  {
    WholeBehindRun(s, i, InKey);
  }

  method ParseKey(reader: Reader) returns (key: Result<Option<string>>)
    requires reader.Valid() && Whole(reader.text, reader.position.chars)
    modifies reader.position
    ensures reader.Valid() && Whole(reader.text, reader.position.chars)
    ensures var k := ScanKey(reader.text, old(reader.position.chars));
      key == KeyOf(reader.text, k) && reader.position.chars == EndOf(k, old(reader.position.chars))
  {
    KeyCases(reader.text, reader.position.chars);
    var next := reader.Peek(1);
    if next == "#" {
      assert reader.text[reader.position.chars] == next[0];
      return Ok(None);
    } else if next == "'" {
      assert reader.text[reader.position.chars] == next[0];
      var group :- reader.ReadRegex(SingleQuotedKey);
      return Ok(Some(group));
    } else {
      var group :- reader.ReadRegex(UnquotedKey);
      return Ok(Some(group));
    }
  }

  method ParseUnquotedValue(reader: Reader) returns (value: string)
    requires reader.Valid() && reader.Ready()
    modifies reader.position
    ensures reader.Valid()
    ensures var s, i := reader.text, old(reader.position.chars);
      && reader.position.chars == Span(s, i, InLine)
      && value == StripRight(CutComment(s[i..Span(s, i, InLine)], 0))
  {
    var part := reader.ReadRegex(UnquotedValue);
    return StripRight(CutComment(part.value, 0));
  }

  lemma DecodeOfQuoted(raw: string)
    requires |raw| > 1
    ensures raw[0] == '\'' ==> Decode(raw) == DecodeSingle(raw[1..|raw| - 1])
    ensures raw[0] == '"' ==> Decode(raw) == DecodeDouble(raw[1..|raw| - 1])
  {
  }

  lemma QuotedCases(s: string, i: nat)
    requires i < |s| && s[i] in "'\""
    ensures var v, m := ScanValue(s, i), QuotedValue(s, i, s[i]);
      && Whole(s, EndOf(v, i))
      && (m.NoMatch? ==> v.NotFound?)
      && (m.Match? ==> v.Found? && v.end == m.end)
      && (m.Match? ==> ValueOf(s, v) == Ok(if s[i] == '\'' then DecodeSingle(m.group) else DecodeDouble(m.group)))
  {
    var close := Close(s, i + 1, s[i]);
    if close.Some? {
      var raw := s[i..close.value + 1];
      DecodeOfQuoted(raw);
      InnerSlice(s, i, close.value, raw);
    }
  }

  lemma InnerSlice(s: string, i: nat, e: nat, raw: string)
    requires i < e < |s| && raw == s[i..e + 1]
    ensures raw[1..|raw| - 1] == s[i + 1..e] && raw[0] == s[i]
  {
    var inner := raw[1..|raw| - 1];
    forall k | 0 <= k < |inner| ensures inner[k] == s[i + 1..e][k] { assert inner[k] == raw[k + 1] == s[i + 1 + k]; }
  }

  lemma UnquotedCases(s: string, i: nat)
    requires i <= |s| && Whole(s, i) && (i < |s| ==> s[i] !in "'\"")
    ensures var v, j := ScanValue(s, i), Span(s, i, InLine);
      && v.Found? && v.end == j && Whole(s, j) && ValueOf(s, v) == Ok(StripRight(CutComment(s[i..j], 0)))
      && (LineEnd(s, i) ==> v.end == i && ValueOf(s, v) == Ok(""))
  {
    WholeBehindRun(s, i, InLine);
    assert s[i..i] == "";
  }

  method ParseValue(reader: Reader) returns (value: Result<string>)
    requires reader.Valid() && Whole(reader.text, reader.position.chars)
    modifies reader.position
    ensures reader.Valid() && Whole(reader.text, reader.position.chars)
    ensures var v := ScanValue(reader.text, old(reader.position.chars));
      value == ValueOf(reader.text, v) && reader.position.chars == EndOf(v, old(reader.position.chars))
  {
    ghost var s, i := reader.text, reader.position.chars;
    var next := reader.Peek(1);
    if next == "'" {
      assert s[i] == next[0];
      QuotedCases(s, i);
      var part :- reader.ReadRegex(SingleQuotedValue);
      return Ok(DecodeSingle(part));
    } else if next == "\"" {
      assert s[i] == next[0];
      QuotedCases(s, i);
      var part :- reader.ReadRegex(DoubleQuotedValue);
      return Ok(DecodeDouble(part));
    } else {
      UnquotedCases(s, i);
      if next == "" || next == "\n" || next == "\r" {
        return Ok("");
      } else {
        var text := ParseUnquotedValue(reader);
        return Ok(text);
      }
    }
  }

  // ----- bindings -----

  function ExtentKey(s: string, x: Option<Extent>): Option<string>
    requires Inside(x, 0, |s|)
  {
    if x.None? then None else Some(s[x.value.from..x.value.to])
  }

  function ExtentValue(s: string, x: Option<Extent>): Option<string>
    requires Inside(x, 0, |s|)
  {
    if x.None? then None else Some(Decode(s[x.value.from..x.value.to]))
  }

  /** What an assignment was found to say, and where its parsing stopped. */
  function AssignmentSaid(s: string, a: Line): Result<Option<string>>
    requires a.Line? ==> Inside(a.value, 0, |s|)
  {
    if a.Broken? then Failed else Ok(ExtentValue(s, a.value))
  }

  function PieceSaid(s: string, v: Piece): Result<Option<string>>
    requires v.Found? ==> Inside(v.extent, 0, |s|)
  {
    if v.NotFound? then Failed else Ok(ExtentValue(s, v.extent))
  }

  function StopOf(a: Line): nat {
    if a.Broken? then a.at else a.end
  }

  lemma NoAssignment(s: string, i: nat, j: nat)
    requires i <= |s| && j == Span(s, i, IsBlank) && !(j < |s| && s[j] == '=')
    ensures AssignmentSaid(s, ScanAssignment(s, i)) == Ok(None) && StopOf(ScanAssignment(s, i)) == j
  {
  }

  lemma SomeAssignment(s: string, i: nat, j: nat)
    requires i <= |s| && j == Span(s, i, IsBlank) < |s| && s[j] == '='
    ensures var v := Span(s, j + 1, IsBlank);
      && AssignmentSaid(s, ScanAssignment(s, i)) == PieceSaid(s, ScanValue(s, v))
      && StopOf(ScanAssignment(s, i)) == EndOf(ScanValue(s, v), v)
  {
  }

  /** An optional `=` and value. */
  method ParseAssignment(reader: Reader) returns (value: Result<Option<string>>)
    requires reader.Valid() && Whole(reader.text, reader.position.chars)
    modifies reader.position
    ensures reader.Valid() && Whole(reader.text, reader.position.chars)
    ensures var a := ScanAssignment(reader.text, old(reader.position.chars));
      value == AssignmentSaid(reader.text, a) && reader.position.chars == StopOf(a)
  {
    ghost var s, i := reader.text, reader.position.chars;
    WholeBehindRun(s, i, IsBlank);
    var _ := reader.ReadRegex(Whitespace);
    var next := reader.Peek(1);
    if next == "=" {
      assert s[reader.position.chars] == next[0];
      value := ParseBehindEqualSign(reader, i);
    } else {
      NoAssignment(s, i, reader.position.chars);
      return Ok(None);
    }
  }

  /** From the `=` on, of an assignment that starts at `i`. */
  method ParseBehindEqualSign(reader: Reader, ghost i: nat) returns (value: Result<Option<string>>)
    requires reader.Valid() && Whole(reader.text, reader.position.chars) && i <= |reader.text|
    requires var s, j := reader.text, reader.position.chars; j == Span(s, i, IsBlank) && j < |s| && s[j] == '='
    modifies reader.position
    ensures reader.Valid() && Whole(reader.text, reader.position.chars)
    ensures var a := ScanAssignment(reader.text, i);
      value == AssignmentSaid(reader.text, a) && reader.position.chars == StopOf(a)
  {
    SomeAssignment(reader.text, i, reader.position.chars);
    WholeBehindRun(reader.text, reader.position.chars + 1, IsBlank);
    var _ := reader.ReadRegex(EqualSign);
    var text :- ParseValue(reader);
    return Ok(Some(text));
  }

  /** The end of a line, behind its value. */
  method ParseRest(reader: Reader) returns (done: Result<()>)
    requires reader.Valid() && Whole(reader.text, reader.position.chars)
    modifies reader.position
    ensures reader.Valid()
    ensures var r := ScanRest(reader.text, old(reader.position.chars));
      if r.Broken? then
        done.Failed? && reader.position.chars == r.at && Whole(reader.text, reader.position.chars)
      else done.Ok? && reader.position.chars == BreakEnd(reader.text, r.end)
  {
    ghost var s, i := reader.text, reader.position.chars;
    assert Whole(s, CommentEnd(s, i)) by {
      var k := Span(s, i, IsBlank);
      if k < |s| && s[k] == '#' { WholeBehindRun(s, k, InLine); }
    }
    var _ := reader.ReadRegex(Comment);
    var _ :- reader.ReadRegex(EndOfLine);
    return Ok(());
  }

  /** What a line was found to say. */
  function LineSaid(s: string, line: Line): Result<(Option<string>, Option<string>)>
    requires line.Line? ==> Inside(line.key, 0, |s|) && Inside(line.value, 0, |s|)
  {
    if line.Broken? then Failed else Ok((ExtentKey(s, line.key), ExtentValue(s, line.value)))
  }

  lemma BehindKeyCases(s: string, key: Option<Extent>, i: nat)
    requires i <= |s|
    ensures var line, a := ScanBehindKey(s, key, i), ScanAssignment(s, i);
      && (a.Broken? ==> line == a)
      && (a.Line? ==>
            var rest := ScanRest(s, a.end);
            && (rest.Broken? ==> line == rest)
            && (rest.Line? ==> line == Line(key, a.value, rest.end)))
  {
  }

  lemma StartCases(s: string, i: nat)
    requires i < |s| && !IsSpace(s[i])
    ensures var e := ExportEnd(s, i); var k, line := ScanKey(s, e), ScanLine(s, i);
      && Whole(s, i) && Whole(s, e)
      && (k.NotFound? ==> line == Broken(e))
      && (k.Found? ==> line == ScanBehindKey(s, k.extent, k.end))
  {
    assert Whole(s, i);
    if i + 6 <= |s| && s[i..i + 6] == "export" {
      assert s[i + 5] == s[i..i + 6][5];
      assert Whole(s, i + 6);
      WholeBehindRun(s, i + 6, IsBlank);
    }
  }

  /** A line from its first character that is not white space; an error leaves the reader where it occurs. */
  method ParseLine(reader: Reader) returns (said: Result<(Option<string>, Option<string>)>)
    requires reader.Valid() && reader.Ready()
    requires var i := reader.position.chars; i < |reader.text| && !IsSpace(reader.text[i])
    modifies reader.position
    ensures reader.Valid()
    ensures var s := reader.text;
      var line := ScanLine(s, old(reader.position.chars));
      && said == LineSaid(s, line)
      && (line.Broken? ==> reader.position.chars == line.at && Whole(s, line.at))
      && (line.Line? ==> reader.position.chars == BreakEnd(s, line.end))
  {
    ghost var s, i := reader.text, reader.position.chars;
    StartCases(s, i);
    var _ := reader.ReadRegex(Export);
    var key :- ParseKey(reader);
    ghost var k := ScanKey(s, ExportEnd(s, i));
    BehindKeyCases(s, k.extent, k.end);
    var value :- ParseAssignment(reader);
    var _ :- ParseRest(reader);
    return Ok((key, value));
  }

  method ParseBinding(reader: Reader, ghost p: Parser) returns (binding: Binding)
    requires Advances(p) && IsParse(p) && reader.Valid() && reader.position.chars < |reader.text|
    modifies reader.position, reader.mark
    ensures reader.Valid()
    ensures binding == BindingAt(p, reader.text, old(reader.position.chars), old(reader.position.line))
    ensures reader.position.chars == p(reader.text, old(reader.position.chars)).end
    ensures reader.position.line == old(reader.position.line) + Newlines(binding.original.text)
  {
    assert p(reader.text, reader.position.chars) == Parse(reader.text, reader.position.chars);
    reader.SetMark();
    var _ := reader.ReadRegex(MultilineWhitespace);
    var more := reader.HasNext();
    if !more {
      var original := reader.GetMarked();
      return Binding(None, None, original, false);
    }
    var said := ParseLine(reader);
    if said.Failed? {
      var _ := reader.ReadRegex(RestOfLine);
      var original := reader.GetMarked();
      return Binding(None, None, original, true);
    }
    var original := reader.GetMarked();
    return Binding(said.value.0, said.value.1, original, false);
  }

  // ----- whole texts -----

  method NextBinding(reader: Reader, ghost p: Parser, ghost before: seq<Binding>) returns (binding: Binding)
    requires Advances(p) && IsParse(p) && reader.Valid() && reader.position.chars < |reader.text|
    modifies reader.position, reader.mark
    ensures reader.Valid() && reader.position.chars > old(reader.position.chars)
    ensures before + [binding] + BindingsFrom(p, reader.text, reader.position.chars, reader.position.line)
         == before + old(BindingsFrom(p, reader.text, reader.position.chars, reader.position.line))
  {
    BindingsStep(p, reader.text, reader.position.chars, reader.position.line, before);
    binding := ParseBinding(reader, p);
  }

  method ParseStream(stream: string, ghost p: Parser) returns (bindings: seq<Binding>)
    requires Advances(p) && IsParse(p)
    ensures bindings == BindingsFrom(p, stream, 0, 1)
  {
    bindings := [];
    var reader := new Reader(stream);
    var more := reader.HasNext();
    while more
      invariant reader.Valid() && reader.text == stream && fresh(reader.position) && fresh(reader.mark)
      invariant more == (reader.position.chars < |stream|)
      invariant bindings + BindingsFrom(p, stream, reader.position.chars, reader.position.line)
             == BindingsFrom(p, stream, 0, 1)
      decreases |stream| - reader.position.chars
    {
      var binding := NextBinding(reader, p, bindings);
      bindings := bindings + [binding];
      more := reader.HasNext();
    }
  }

  // ----- what holds for every text -----

  /** The bindings of any text, well-formed or not, take it apart into non-empty pieces. */
  lemma Conservation(s: string)
    ensures Advances(Parse) && Texts(BindingsFrom(Parse, s, 0, 1)) == s
    ensures forall b <- BindingsFrom(Parse, s, 0, 1) :: b.original.text != ""
  {
    ParseAdvances();
    TextsFrom(Parse, s, 0, 1);
  }

  /** A binding's line is one more than the line breaks before it and the cuts between the bindings before it. */
  lemma LineNumbers(s: string, k: nat)
    ensures Advances(Parse)
    ensures var bs := BindingsFrom(Parse, s, 0, 1);
      k < |bs| ==>
        && bs[k].original.line == 1 + Newlines(Texts(bs[..k])) + Cuts(bs[..k])
        && (bs[k].original.line == 1 + Newlines(Texts(bs[..k])) <==>
              forall j :: 0 < j < k ==> !CutsBreak(bs[j - 1].original.text, bs[j].original.text))
  {
    ParseAdvances();
    if k < |BindingsFrom(Parse, s, 0, 1)| { LineNumbersBy(Parse, s, k); }
  }

  /** Without carriage returns it is one more than the line feeds before it. */
  lemma LinesWithoutReturns(s: string, k: nat)
    requires '\r' !in s
    ensures Advances(Parse)
    ensures var bs := BindingsFrom(Parse, s, 0, 1);
      k < |bs| ==> bs[k].original.line == 1 + LineFeeds(Texts(bs[..k]))
  {
    ParseAdvances();
    if k < |BindingsFrom(Parse, s, 0, 1)| { LinesWithoutReturnsBy(Parse, s, k); }
  }

  lemma ParseEndsWhole(s: string, i: nat)
    requires i < |s| && !Parse(s, i).error
    ensures Whole(s, Parse(s, i).end)
  {
  }

  /** With no error before it a binding's line is right, in every text. */
  lemma LinesWithoutErrors(s: string, k: nat)
    ensures Advances(Parse)
    ensures var bs := BindingsFrom(Parse, s, 0, 1);
      k < |bs| && (forall b <- bs[..k] :: !b.error) ==> bs[k].original.line == 1 + Newlines(Texts(bs[..k]))
  {
    ParseAdvances();
    forall m: nat | m < |s| && !Parse(s, m).error ensures Whole(s, Parse(s, m).end) { ParseEndsWhole(s, m); }
    var bs := BindingsFrom(Parse, s, 0, 1);
    if k < |bs| && forall b <- bs[..k] :: !b.error { LinesWithoutErrorsBy(Parse, s, k); }
  }

  // ----- a line number that is wrong -----

  lemma FirstIsCut(s: string)
    requires s == "=\r\nA=1\nB=2"
    ensures Parse(s, 0) == Parsed(None, None, true, 2)
  {
    SpanIs(s, 0, IsSpace, 0);
    assert s[0..6][0] == '=';
    SpanIs(s, 0, InKey, 0);
    SpanIs(s, 0, InLine, 1);
  }

  lemma SecondBehindKey(s: string)
    requires s == "=\r\nA=1\nB=2"
    ensures ScanAssignment(s, 4).Line? && ScanAssignment(s, 4).end == 6 && ScanRest(s, 6) == Line(None, None, 6)
  {
    SpanIs(s, 4, IsBlank, 4);
    SpanIs(s, 5, IsBlank, 5);
    SpanIs(s, 5, InLine, 6);
    SpanIs(s, 6, IsBlank, 6);
  }

  lemma SecondLine(s: string)
    requires s == "=\r\nA=1\nB=2"
    ensures Span(s, 2, IsSpace) == 3 && ScanLine(s, 3).Line? && ScanLine(s, 3).end == 6
  {
    SpanIs(s, 2, IsSpace, 3);
    assert s[3..9][0] == 'A';
    SpanIs(s, 3, InKey, 4);
    SecondBehindKey(s);
  }

  lemma SecondEnds(s: string, j: nat)
    requires |s| > 6 && s[6] == '\n'
    requires j == Span(s, 2, IsSpace) < |s| && ScanLine(s, j).Line? && ScanLine(s, j).end == 6
    ensures Parse(s, 2).end == 7
  {
  }

  /** Behind an error that cuts a `\r\n` the line is one too many: `B` is assigned on line 3. */
  lemma LineTooFar(s: string)
    requires s == "=\r\nA=1\nB=2"
    ensures Advances(Parse)
    ensures var bs := BindingsFrom(Parse, s, 0, 1);
      |bs| > 2 && Texts(bs[..2]) == "=\r\nA=1\n" && bs[2].original.line == 4 && 1 + Newlines("=\r\nA=1\n") == 3
  {
    ParseAdvances();
    FirstIsCut(s);
    SecondLine(s);
    SecondEnds(s, 3);
    LineAfterCut(Parse, s, 2, 7);
    assert s[..7] == "=\r\nA=1\n";
    TwoLines(s[..7]);
  }

  lemma TwoLines(t: string)
    requires t == "=\r\nA=1\n"
    ensures Newlines(t) == 2
  {
    var u, w := t[1..], t[1..][2..];
    assert u == "\r\nA=1\n" && w == "A=1\n" && w[1..] == "=1\n" && w[2..] == "1\n" && w[3..] == "\n";
    assert Newlines(w) == Newlines(w[1..]) == Newlines(w[1..][1..]) == Newlines(w[1..][1..][1..]);
  }
}
