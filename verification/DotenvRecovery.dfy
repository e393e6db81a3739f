/**
 What comes behind a binding, an error or not, is read as a text of its own; and an error in a line without quotes
 ends with that line.
 */
module DotenvRecovery {
  import opened Options
  import opened DotenvGrammar
  import opened DotenvLocality
  import opened DotenvRewriting
  import opened DotenvTheorems

  // ----- the parser does not look back -----

  /** The text `t` is what `s` has from `k` on. */
  predicate IsTail(t: string, s: string, k: nat) { k <= |s| && t == s[k..] }

  lemma {:induction false} SpanShift(s: string, k: nat, t: string, i: nat, p: char -> bool)
    requires IsTail(t, s, k) && i <= |t|
    ensures Span(s, k + i, p) == k + Span(t, i, p)
    decreases |t| - i
  {
    if i < |t| && p(t[i]) { SpanShift(s, k, t, i + 1, p); }
  }

  function Later(end: Option<nat>, k: nat): Option<nat> {
    if end.None? then None else Some(k + end.value)
  }

  lemma {:induction false} CloseShift(s: string, k: nat, t: string, i: nat, quote: char)
    requires IsTail(t, s, k) && i <= |t|
    ensures Close(s, k + i, quote) == Later(Close(t, i, quote), k)
    decreases |t| - i
  {
    if i < |t| && t[i] != quote {
      CloseShift(s, k, t, i + 1, quote);
      if i + 1 < |t| { CloseShift(s, k, t, i + 2, quote); }
    }
  }

  function Shifted(x: Option<Extent>, k: nat): Option<Extent> {
    if x.None? then None else Some(Extent(k + x.value.from, k + x.value.to))
  }

  function ShiftedPiece(p: Piece, k: nat): Piece {
    if p.NotFound? then p else Found(Shifted(p.extent, k), k + p.end)
  }

  function ShiftedLine(l: Line, k: nat): Line {
    match l
    case Broken(at) => Broken(k + at)
    case Line(key, value, end) => Line(Shifted(key, k), Shifted(value, k), k + end)
  }

  lemma ExportShift(s: string, k: nat, t: string, i: nat)
    requires IsTail(t, s, k) && i <= |t|
    ensures ExportEnd(s, k + i) == k + ExportEnd(t, i)
  {
    if i + 6 <= |t| {
      assert s[k + i..k + i + 6] == t[i..i + 6];
      SpanShift(s, k, t, i + 6, IsBlank);
    }
  }

  lemma KeyShift(s: string, k: nat, t: string, i: nat)
    requires IsTail(t, s, k) && i <= |t|
    ensures ScanKey(s, k + i) == ShiftedPiece(ScanKey(t, i), k)
  {
    SpanShift(s, k, t, i, InKey);
    if i < |t| { SpanShift(s, k, t, i + 1, InQuotedKey); }
  }

  lemma ValueShift(s: string, k: nat, t: string, i: nat)
    requires IsTail(t, s, k) && i <= |t|
    ensures ScanValue(s, k + i) == ShiftedPiece(ScanValue(t, i), k)
  {
    SpanShift(s, k, t, i, InLine);
    if i < |t| { CloseShift(s, k, t, i + 1, t[i]); }
  }

  lemma SignShift(s: string, k: nat, t: string, i: nat, j: nat, v: nat)
    requires IsTail(t, s, k) && i <= |t| && j == Span(t, i, IsBlank) < |t|
    requires t[j] == '=' && v == Span(t, j + 1, IsBlank)
    ensures ScanAssignment(s, k + i) == ShiftedLine(ScanAssignment(t, i), k)
  {
    SpanShift(s, k, t, i, IsBlank);
    SpanShift(s, k, t, j + 1, IsBlank);
    ValueShift(s, k, t, v);
  }

  lemma AssignmentShift(s: string, k: nat, t: string, i: nat)
    requires IsTail(t, s, k) && i <= |t|
    ensures ScanAssignment(s, k + i) == ShiftedLine(ScanAssignment(t, i), k)
  {
    var j := Span(t, i, IsBlank);
    if j < |t| && t[j] == '=' {
      SignShift(s, k, t, i, j, Span(t, j + 1, IsBlank));
    } else {
      SpanShift(s, k, t, i, IsBlank);
    }
  }

  lemma RestShift(s: string, k: nat, t: string, i: nat)
    requires IsTail(t, s, k) && i <= |t|
    ensures ScanRest(s, k + i) == ShiftedLine(ScanRest(t, i), k)
  {
    SpanShift(s, k, t, i, IsBlank);
    SpanShift(s, k, t, Span(t, i, IsBlank), InLine);
    SpanShift(s, k, t, CommentEnd(t, i), IsBlank);
  }

  lemma BehindKeyByParts(s: string, key: Option<Extent>, i: nat, a: Line, rest: Line)
    requires i <= |s| && a == ScanAssignment(s, i) && a.Line? && rest == ScanRest(s, a.end)
    ensures ScanBehindKey(s, key, i) == if rest.Broken? then rest else Line(key, a.value, rest.end)
  {
  }

  lemma BehindKeyShift(s: string, k: nat, t: string, key: Option<Extent>, i: nat)
    requires IsTail(t, s, k) && i <= |t|
    ensures ScanBehindKey(s, Shifted(key, k), k + i) == ShiftedLine(ScanBehindKey(t, key, i), k)
  {
    AssignmentShift(s, k, t, i);
    var a := ScanAssignment(t, i);
    if a.Line? {
      RestShift(s, k, t, a.end);
      BehindKeyByParts(t, key, i, a, ScanRest(t, a.end));
      BehindKeyByParts(s, Shifted(key, k), k + i, ShiftedLine(a, k), ShiftedLine(ScanRest(t, a.end), k));
    }
  }

  lemma LineByKey(t: string, i: nat, e: nat, key: Piece)
    requires i < |t| && !IsSpace(t[i]) && e == ExportEnd(t, i) && key == ScanKey(t, e)
    ensures ScanLine(t, i) == if key.NotFound? then Broken(e) else ScanBehindKey(t, key.extent, key.end)
  {
  }

  lemma LineShift(s: string, k: nat, t: string, i: nat, i': nat)
    requires IsTail(t, s, k) && i < |t| && !IsSpace(t[i]) && i' == k + i
    ensures s[i'] == t[i] && ScanLine(s, i') == ShiftedLine(ScanLine(t, i), k)
  {
    var e := ExportEnd(t, i);
    var key := ScanKey(t, e);
    ExportShift(s, k, t, i);
    KeyShift(s, k, t, e);
    LineByKey(t, i, e, key);
    LineByKey(s, i', k + e, ShiftedPiece(key, k));
    FromKeyShift(s, k, t, e, key);
  }

  lemma FromKeyShift(s: string, k: nat, t: string, e: nat, key: Piece)
    requires IsTail(t, s, k) && (key.Found? ==> key.end <= |t|)
    ensures var key' := ShiftedPiece(key, k);
      (if key'.NotFound? then Broken(k + e) else ScanBehindKey(s, key'.extent, key'.end))
      == ShiftedLine(if key.NotFound? then Broken(e) else ScanBehindKey(t, key.extent, key.end), k)
  {
    if key.Found? { BehindKeyShift(s, k, t, key.extent, key.end); }
  }

  lemma RecoverShift(s: string, k: nat, t: string, i: nat)
    requires IsTail(t, s, k) && i <= |t|
    ensures Recover(s, k + i) == k + Recover(t, i)
  {
    SpanShift(s, k, t, i, InLine);
  }

  lemma MeaningShift(s: string, k: nat, t: string, line: Line)
    requires IsTail(t, s, k) && line.Line? && line.end <= |t| && LineEnd(t, line.end)
    requires Inside(line.key, 0, line.end) && Inside(line.value, 0, line.end)
    ensures var m := Meaning(t, line);
      LineEnd(s, k + line.end) && Meaning(s, ShiftedLine(line, k)) == m.(end := k + m.end)
  {
    forall i: nat, j: nat | i <= j <= |t| ensures s[k + i..k + j] == t[i..j] {}
  }

  /** A parser reads what stands at a place without looking at what is before it. */
  ghost predicate LooksAhead(p: Parser) {
    forall s: string, k: nat, t: string, i: nat {:trigger IsTail(t, s, k), p(t, i)} ::
      IsTail(t, s, k) && i < |t| ==> p(s, k + i) == p(t, i).(end := k + p(t, i).end)
  }

  predicate CanBeParsed(t: string, line: Line) {
    if line.Broken? then line.at <= |t|
    else
      && line.end <= |t| && LineEnd(t, line.end)
      && Inside(line.key, 0, line.end) && Inside(line.value, 0, line.end)
  }

  /** What the parser makes of a line that was scanned. */
  function ParsedOf(t: string, line: Line): Parsed
    requires CanBeParsed(t, line)
  {
    if line.Broken? then Parsed(None, None, true, Recover(t, line.at)) else Meaning(t, line)
  }

  lemma ParseByLine(t: string, i: nat, j: nat, line: Line)
    requires i < |t| && j == Span(t, i, IsSpace) < |t| && line == ScanLine(t, j)
    ensures Parse(t, i) == ParsedOf(t, line)
  {
  }

  lemma ParseByBlank(t: string, i: nat)
    requires i < |t| && Span(t, i, IsSpace) == |t|
    ensures Parse(t, i) == Parsed(None, None, false, |t|)
  {
  }

  lemma ParsedOfShift(s: string, k: nat, t: string, line: Line, line': Line)
    requires IsTail(t, s, k) && line' == ShiftedLine(line, k) && CanBeParsed(t, line)
    ensures CanBeParsed(s, line')
    ensures var b := ParsedOf(t, line); ParsedOf(s, line') == b.(end := k + b.end)
  {
    if line.Broken? { RecoverShift(s, k, t, line.at); } else { MeaningShift(s, k, t, line); }
  }

  lemma ByLine(p: Parser, t: string, i: nat, j: nat, line: Line)
    requires IsParse(p) && i < |t| && j == Span(t, i, IsSpace) < |t| && line == ScanLine(t, j)
    ensures p(t, i) == ParsedOf(t, line)
  {
    ParseByLine(t, i, j, line);
  }

  lemma ByBlank(p: Parser, t: string, i: nat)
    requires IsParse(p) && i < |t| && Span(t, i, IsSpace) == |t|
    ensures p(t, i) == Parsed(None, None, false, |t|)
  {
    ParseByBlank(t, i);
  }

  lemma ScannedShift(s: string, k: nat, t: string, j: nat) returns (line: Line, line': Line)
    requires IsTail(t, s, k) && j < |t| && !IsSpace(t[j])
    ensures line == ScanLine(t, j) && k + j < |s| && !IsSpace(s[k + j]) && line' == ScanLine(s, k + j)
    ensures CanBeParsed(t, line) && CanBeParsed(s, line')
    ensures var b := ParsedOf(t, line); ParsedOf(s, line') == b.(end := k + b.end)
  {
    line := LineCanBeParsed(t, j);
    line' := ShiftedLine(line, k);
    LineShift(s, k, t, j, k + j);
    ParsedOfShift(s, k, t, line, line');
  }

  lemma LineCanBeParsed(t: string, j: nat) returns (line: Line)
    requires j < |t| && !IsSpace(t[j])
    ensures line == ScanLine(t, j) && CanBeParsed(t, line)
  {
    line := ScanLine(t, j);
  }

  lemma LinePair(p: Parser, s: string, i': nat, j': nat, t: string, i: nat, j: nat, k: nat, line: Line, line': Line)
    requires IsParse(p) && i < |t| && j == Span(t, i, IsSpace) < |t| && line == ScanLine(t, j)
    requires i' < |s| && j' == Span(s, i', IsSpace) < |s| && line' == ScanLine(s, j')
    requires ParsedOf(s, line') == ParsedOf(t, line).(end := k + ParsedOf(t, line).end)
    ensures p(s, i') == p(t, i).(end := k + p(t, i).end)
  {
    ByLine(p, t, i, j, line);
    ByLine(p, s, i', j', line');
  }

  lemma LineAtShift(p: Parser, s: string, i': nat, j': nat, t: string, i: nat, j: nat, k: nat)
    requires IsParse(p) && IsTail(t, s, k) && i < |t| && j == Span(t, i, IsSpace) < |t|
    requires i' < |s| && j' == k + j == Span(s, i', IsSpace)
    ensures p(s, i') == p(t, i).(end := k + p(t, i).end)
  {
    var line, line' := ScannedShift(s, k, t, j);
    LinePair(p, s, i', j', t, i, j, k, line, line');
  }

  lemma ParseShift(p: Parser, s: string, k: nat, t: string, i: nat)
    requires IsParse(p) && IsTail(t, s, k) && i < |t|
    ensures p(s, k + i) == p(t, i).(end := k + p(t, i).end)
  {
    SpanShift(s, k, t, i, IsSpace);
    var j := Span(t, i, IsSpace);
    if j < |t| {
      LineAtShift(p, s, k + i, k + j, t, i, j, k);
    } else {
      ByBlank(p, t, i);
      ByBlank(p, s, k + i);
    }
  }

  lemma ParseLooksAhead()
    ensures LooksAhead(Parse)
  {
    ParseAdvances();
    forall s: string, k: nat, t: string, i: nat | IsTail(t, s, k) && i < |t|
      ensures Parse(s, k + i) == Parse(t, i).(end := k + Parse(t, i).end)
    {
      ParseShift(Parse, s, k, t, i);
    }
  }

  lemma {:induction false} PairsShift(p: Parser, s: string, k: nat, t: string, i: nat)
    requires Advances(p) && LooksAhead(p) && IsTail(t, s, k) && i <= |t|
    ensures Pairs(p, s, k + i) == Pairs(p, t, i)
    decreases |t| - i
  {
    if i < |t| {
      assert p(s, k + i) == p(t, i).(end := k + p(t, i).end);
      PairsShift(p, s, k, t, p(t, i).end);
    }
  }

  lemma PairsBehind(p: Parser, s: string, e: nat, t: string)
    requires Advances(p) && LooksAhead(p) && s != "" && e == p(s, 0).end && IsTail(t, s, e)
    ensures Pairs(p, s, 0) == Own(p(s, 0)) + Pairs(p, t, 0)
  {
    PairsShift(p, s, e, t, 0);
  }

  /** A text says what its first binding says, if anything, and then what the rest says on its own. */
  lemma SaidBehind(s: string)
    requires s != ""
    ensures Parse(s, 0).end <= |s| && Said(s) == Own(Parse(s, 0)) + Said(s[Parse(s, 0).end..])
  {
    ParseAdvances();
    ParseLooksAhead();
    var e := Parse(s, 0).end;
    PairsBehind(Parse, s, e, s[e..]);
  }

  // ----- errors end with their line -----

  /** No quote stands from `i` up to the line break at `n`. */
  ghost predicate Unquoted(s: string, i: nat, n: nat) {
    i <= n < |s| && IsNewline(s[n]) && forall x :: i <= x < n ==> s[x] !in "'\""
  }

  lemma ExportStays(s: string, i: nat, n: nat)
    requires Unquoted(s, i, n)
    ensures ExportEnd(s, i) <= n
  {
    if i + 6 <= |s| && s[i..i + 6] == "export" {
      assert forall x :: 0 <= x < 6 ==> s[i + x] == s[i..i + 6][x] && !IsNewline("export"[x]);
      assert forall x :: i <= x < i + 6 ==> s[i + (x - i)] == s[x];
      assert i + 6 <= n;
      BlanksStop(s, i + 6, n);
    }
  }

  lemma SignStays(s: string, i: nat, j: nat, v: nat, n: nat)
    requires Unquoted(s, i, n) && i <= j < n && j == Span(s, i, IsBlank) && s[j] == '=' && v == Span(s, j + 1, IsBlank)
    ensures var a := ScanAssignment(s, i); if a.Broken? then a.at <= n else a.end <= n
    ensures !LateAssignment(s, i)
  {
    BlanksStop(s, j + 1, n);
    BlanksStop(s, v, n);
  }

  lemma AssignmentStays(s: string, i: nat, n: nat)
    requires Unquoted(s, i, n)
    ensures var a := ScanAssignment(s, i); if a.Broken? then a.at <= n else a.end <= n
    ensures !LateAssignment(s, i)
  {
    BlanksStop(s, i, n);
    var j := Span(s, i, IsBlank);
    if j < |s| && s[j] == '=' {
      SignStays(s, i, j, Span(s, j + 1, IsBlank), n);
    }
  }

  lemma RestStays(s: string, i: nat, n: nat)
    requires Unquoted(s, i, n)
    ensures var r := ScanRest(s, i); if r.Broken? then r.at <= n else r.end <= n
  {
    BlanksStop(s, i, n);
    BlanksStop(s, Span(s, i, IsBlank), n);
    BlanksStop(s, CommentEnd(s, i), n);
  }

  lemma BehindKeyStays(s: string, key: Option<Extent>, i: nat, n: nat)
    requires Unquoted(s, i, n)
    ensures var line := ScanBehindKey(s, key, i); if line.Broken? then line.at <= n else line.end <= n
    ensures !LateAssignment(s, i)
  {
    AssignmentStays(s, i, n);
    var a := ScanAssignment(s, i);
    if a.Line? { RestStays(s, a.end, n); }
  }

  lemma LineStays(s: string, i: nat, n: nat)
    requires Unquoted(s, i, n) && !IsSpace(s[i])
    ensures var line := ScanLine(s, i); if line.Broken? then line.at <= n else line.end <= n
    ensures !LateLine(s, i)
  {
    var e := ExportEnd(s, i);
    var key := ScanKey(s, e);
    ExportStays(s, i, n);
    LineByKey(s, i, e, key);
    BlanksStop(s, e, n);
    if key.Found? { BehindKeyStays(s, key.extent, key.end, n); }
  }

  lemma RecoverStays(s: string, at: nat, n: nat)
    requires at <= n < |s| && IsNewline(s[n]) && forall x :: at <= x < n ==> InLine(s[x])
    ensures Recover(s, at) == n + 1
  {
    SpanIs(s, at, InLine, n);
  }

  /** If such a line is an error on its own, it is one whatever follows, and the error ends with it. */
  lemma ErrorStays(l: string, t: string, u: string, s: string)
    requires l != "" && !IsSpace(l[0]) && forall c <- l :: c !in "'\"\r\n"
    requires u == l + "\n" && s == u + t && Parse(u, 0).error
    ensures Parse(s, 0) == Parsed(None, None, true, |u|)
  {
    var n := |l|;
    assert forall x :: 0 <= x < n ==> s[x] == u[x] == l[x] && l[x] in l;
    assert s[n] == u[n] == '\n';
    SpanIs(u, 0, IsSpace, 0);
    SpanIs(s, 0, IsSpace, 0);
    var line := ScanLine(s, 0);
    LineStays(s, 0, n);
    ParseByLine(u, 0, 0, ScanLine(u, 0));
    ParseByLine(s, 0, 0, line);
    if line.Line? {
      LineMirror(s, 0, u, 0);
    } else {
      RecoverStays(s, line.at, n);
    }
  }

  /** A line that is an error costs that line alone: what follows is read as if it stood alone. */
  lemma ErrorIsByLine(l: string, t: string)
    requires l != "" && !IsSpace(l[0]) && forall c <- l :: c !in "'\"\r\n"
    requires Parse(l + "\n", 0).error
    ensures Said(l + "\n" + t) == Said(t)
  {
    var u, s := l + "\n", l + "\n" + t;
    ErrorStays(l, t, u, s);
    SaidBehind(s);
    assert s[|u|..] == t;
    assert [] + Said(t) == Said(t);
  }
}
