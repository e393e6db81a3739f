/**
 The parser of .env files is local: what a tidy binding says depends on its own text alone.
 */
module DotenvStream {
  import opened Options
  import opened DotenvGrammar
  import opened DotenvLocality
  import opened DotenvRewriting

  /** There is a line at or behind `i`, read without an error and with no quote closed late. */
  predicate TidyLine(s: string, i: nat)
    requires i <= |s|
  {
    var j := Span(s, i, IsSpace);
    j < |s| && ScanLine(s, j).Line? && !LateLine(s, j)
  }

  /** At `i` there is such a line, or white space up to the end. */
  predicate TidyAt(s: string, i: nat) {
    i <= |s| && (Span(s, i, IsSpace) == |s| || TidyLine(s, i))
  }

  function LineAt(s: string, i: nat): (line: Line)
    requires i <= |s| && TidyLine(s, i)
    ensures line.Line? && i < line.end <= |s| && LineEnd(s, line.end)
    ensures Inside(line.key, i, line.end) && Inside(line.value, i, line.end)
  {
    ScanLine(s, Span(s, i, IsSpace))
  }

  /** Where a tidy binding ends, before its line break. */
  function StopAt(s: string, i: nat): nat {
    if i <= |s| && TidyLine(s, i) then LineAt(s, i).end else |s|
  }

  // ----- moving a binding -----

  lemma ParseOfLine(s: string, i: nat)
    requires i <= |s| && TidyLine(s, i)
    ensures Parse(s, i) == Meaning(s, LineAt(s, i))
  {
  }

  lemma LineAtMirror(s: string, i: nat, t: string, d: int)
    requires i <= |s| && TidyLine(s, i)
    requires var n := LineAt(s, i).end; Mirror(s, i, n, t, d) && LineEnd(t, n + d)
    ensures TidyLine(t, i + d)
    ensures var line := LineAt(s, i);
      LineAt(t, i + d) == Line(Moved(line.key, d), Moved(line.value, d), line.end + d)
  {
    var j, n := Span(s, i, IsSpace), LineAt(s, i).end;
    SpaceMirror(s, i, n, t, d);
    LineMirror(s, j, t, d);
    LineAtLate(s, i, t, d);
  }

  lemma SpaceMirror(s: string, i: nat, n: nat, t: string, d: int)
    requires Mirror(s, i, n, t, d) && Span(s, i, IsSpace) < n
    ensures Span(t, i + d, IsSpace) == Span(s, i, IsSpace) + d && Mirror(s, Span(s, i, IsSpace), n, t, d)
  {
    SpanMirrorInside(s, i, n, t, d, IsSpace);
  }

  lemma LineAtLate(s: string, i: nat, t: string, d: int)
    requires i <= |s| && TidyLine(s, i)
    requires var n := LineAt(s, i).end; Mirror(s, i, n, t, d) && LineEnd(t, n + d)
    ensures i + d <= |t| && !LateLine(t, Span(t, i + d, IsSpace))
  {
    SpaceMirror(s, i, LineAt(s, i).end, t, d);
    LateMirror(s, Span(s, i, IsSpace), t, d);
  }

  lemma MeaningMirror(s: string, i: nat, line: Line, t: string, d: int)
    requires line.Line? && i <= line.end <= |s| && LineEnd(s, line.end)
    requires Inside(line.key, i, line.end) && Inside(line.value, i, line.end)
    requires Mirror(s, i, line.end, t, d) && LineEnd(t, line.end + d)
    ensures var m, m' := Meaning(s, line), Meaning(t, Line(Moved(line.key, d), Moved(line.value, d), line.end + d));
      m'.key == m.key && m'.value == m.value && m'.end == BreakEnd(t, line.end + d)
  {
    if line.key.Some? { MirrorWithin(s, i, line.end, t, d, line.key.value.from, line.key.value.to); }
    if line.value.Some? { MirrorWithin(s, i, line.end, t, d, line.value.value.from, line.value.value.to); }
  }

  /** A tidy binding says the same at another place, whatever follows it. */
  lemma BindingMirror(s: string, i: nat, t: string, d: int)
    requires i <= |s| && TidyLine(s, i)
    requires var n := LineAt(s, i).end; Mirror(s, i, n, t, d) && LineEnd(t, n + d)
    ensures i + d < |t| && TidyLine(t, i + d)
    ensures var b, b' := Parse(s, i), Parse(t, i + d);
      Own(b') == Own(b) && b'.end == BreakEnd(t, LineAt(s, i).end + d)
  {
    LineAtMirror(s, i, t, d);
    ParseOfLine(s, i);
    ParseOfLine(t, i + d);
    MeaningMirror(s, i, LineAt(s, i), t, d);
  }

  // ----- where a line ends -----

  predicate EndsInLine(s: string, i: nat, end: nat)
    requires i <= |s| && end <= |s|
  {
    i < end ==> !IsNewline(s[end - 1])
  }

  lemma RunEndsInLine(s: string, i: nat, p: char -> bool)
    requires i <= |s| && !p('\r') && !p('\n')
    ensures EndsInLine(s, i, Span(s, i, p))
  {
    SpanHolds(s, i, p);
  }

  lemma ValueEndsInLine(s: string, i: nat)
    requires i <= |s| && ScanValue(s, i).Found?
    ensures EndsInLine(s, i, ScanValue(s, i).end)
  {
    RunEndsInLine(s, i, InLine);
  }

  lemma AssignmentEndsInLine(s: string, i: nat)
    requires i <= |s| && ScanAssignment(s, i).Line?
    ensures EndsInLine(s, i, ScanAssignment(s, i).end)
  {
    RunEndsInLine(s, i, IsBlank);
    var j := Span(s, i, IsBlank);
    if j < |s| && s[j] == '=' {
      RunEndsInLine(s, j + 1, IsBlank);
      ValueEndsInLine(s, Span(s, j + 1, IsBlank));
    }
  }

  lemma RestEndsInLine(s: string, i: nat)
    requires i <= |s| && ScanRest(s, i).Line?
    ensures EndsInLine(s, i, ScanRest(s, i).end)
  {
    var k := Span(s, i, IsBlank);
    if k < |s| && s[k] == '#' { RunEndsInLine(s, k, InLine); }
    RunEndsInLine(s, CommentEnd(s, i), IsBlank);
  }

  lemma BehindKeyEndsInLine(s: string, key: Option<Extent>, i: nat)
    requires i <= |s| && ScanBehindKey(s, key, i).Line?
    ensures EndsInLine(s, i, ScanBehindKey(s, key, i).end)
  {
    AssignmentEndsInLine(s, i);
    RestEndsInLine(s, ScanAssignment(s, i).end);
  }

  lemma KeyEndsInLine(s: string, i: nat)
    requires i < |s| && ScanKey(s, i).Found?
    ensures EndsInLine(s, i, ScanKey(s, i).end) && (ScanKey(s, i).end > i || s[i] == '#')
  {
    RunEndsInLine(s, i, InKey);
  }

  lemma LineEndsInLine(s: string, i: nat)
    requires i < |s| && !IsSpace(s[i]) && ScanLine(s, i).Line?
    ensures !IsNewline(s[ScanLine(s, i).end - 1])
  {
    var e := ExportEnd(s, i);
    var key := ScanKey(s, e);
    if e < |s| {
      KeyEndsInLine(s, e);
    }
    BehindKeyEndsInLine(s, key.extent, key.end);
  }

  // ----- the parser is local -----

  lemma SpaceSkipped(t: string, k: nat)
    requires SpaceAt(t, k)
    ensures TidyAt(t, k) && k + 1 == |t| ==> Parse(t, k).key == None
    ensures k + 1 == |t| ==> TidyAt(t, k)
    ensures k + 1 < |t| ==> Parse(t, k) == Parse(t, k + 1) && TidyAt(t, k) == TidyAt(t, k + 1)
  {
    assert Span(t, k, IsSpace) == Span(t, k + 1, IsSpace);
  }

  lemma SpaceFrom(s: string, n: nat)
    requires n < |s| && IsNewline(s[n])
    ensures IsSpace(s[n])
  {
  }

  lemma BreakIsSpace(s: string, n: nat)
    requires LineEnd(s, n)
    ensures Spaces(s, n, BreakEnd(s, n))
  {
    if n < |s| { SpaceFrom(s, n); }
    if BreakEnd(s, n) == n + 2 { SpaceFrom(s, n + 1); }
  }

  lemma ParseOfBlank(s: string, i: nat)
    requires i < |s| && Blank(s, i)
    ensures Parse(s, i).key == None && Parse(s, i).end == |s|
  {
  }

  lemma TidyStops(s: string, i: nat)
    requires i < |s| && TidyAt(s, i)
    ensures Stops(Parse, StopAt, s, i)
  {
    if TidyLine(s, i) {
      var n := StopAt(s, i);
      ParseOfLine(s, i);
      LineEndsInLine(s, Span(s, i, IsSpace));
      BreakIsSpace(s, n);
    } else {
      ParseOfBlank(s, i);
    }
  }

  lemma TidyMoves(s: string, i: nat, t: string, d: int)
    requires Copied(TidyAt, StopAt, s, i, t, d)
    ensures Reads(Parse, TidyAt, t, i + d, StopAt(s, i) + d, Own(Parse(s, i)))
  {
    BindingMirror(s, i, t, d);
    BreakIsSpace(t, StopAt(s, i) + d);
  }

  /** The parser of .env files is local: this is what the editing operations rely on. */
  lemma ParserIsLocal()
    ensures Local(Parse, TidyAt, StopAt)
  {
    ParseAdvances();
    forall t: string, k: nat | SpaceAt(t, k)
      ensures if k + 1 < |t| then Parse(t, k) == Parse(t, k + 1) && TidyAt(t, k) == TidyAt(t, k + 1)
              else Parse(t, k).key == None && TidyAt(t, k)
    {
      SpaceSkipped(t, k);
    }
    forall s: string, i: nat | i < |s| && TidyAt(s, i) ensures Stops(Parse, StopAt, s, i) {
      TidyStops(s, i);
    }
    forall s: string, i: nat, t: string, d: int | Copied(TidyAt, StopAt, s, i, t, d)
      ensures Reads(Parse, TidyAt, t, i + d, StopAt(s, i) + d, Own(Parse(s, i)))
    {
      TidyMoves(s, i, t, d);
    }
  }
}
