/**
 What a line says depends on the line alone: moved to another place, or followed by other text, it
 parses the same, provided that no quoted value in it is closed by a quote with a backslash before it.
 */
module DotenvLocality {
  import opened Options
  import opened DotenvGrammar

  /** `t` repeats the characters of `s` from `i` up to `n`, `d` places further on. */
  ghost predicate Mirror(s: string, i: nat, n: nat, t: string, d: int) {
    && i <= n <= |s| && 0 <= i + d && n + d <= |t|
    && forall k :: i <= k < n ==> t[k + d] == s[k]
  }

  lemma MirrorWithin(s: string, i: nat, n: nat, t: string, d: int, i': nat, n': nat)
    requires Mirror(s, i, n, t, d) && i <= i' <= n' <= n
    ensures Mirror(s, i', n', t, d) && t[i' + d..n' + d] == s[i'..n']
  {
  }

  /** A run ends at the same character, or at the line end that replaces it. */
  lemma SpanMirror(s: string, i: nat, n: nat, t: string, d: int, p: char -> bool)
    requires Mirror(s, i, n, t, d) && LineEnd(t, n + d) && !p('\r') && !p('\n')
    requires Span(s, i, p) <= n
    ensures Span(t, i + d, p) == Span(s, i, p) + d
  {
    var j := Span(s, i, p);
    SpanHolds(s, i, p);
    forall k | i + d <= k < j + d ensures p(t[k]) {
      assert t[(k - d) + d] == s[k - d];
    }
    SpanIs(t, i + d, p, j + d);
  }

  /** A run that stops at a character of the mirrored text, whatever it may contain. */
  lemma SpanMirrorInside(s: string, i: nat, n: nat, t: string, d: int, p: char -> bool)
    requires Mirror(s, i, n, t, d) && Span(s, i, p) < n
    ensures Span(t, i + d, p) == Span(s, i, p) + d
  {
    var j := Span(s, i, p);
    SpanHolds(s, i, p);
    forall k | i + d <= k < j + d ensures p(t[k]) {
      assert t[(k - d) + d] == s[k - d];
    }
    assert t[j + d] == s[j];
    SpanIs(t, i + d, p, j + d);
  }

  // ----- quotes -----

  /** A quote closed where a backslash stands before it: only the end of the text forces that. */
  predicate ClosedLate(s: string, i: nat, quote: char)
    requires i <= |s|
  {
    var close := Close(s, i, quote);
    close.Some? && i < close.value && s[close.value - 1] == '\\'
  }

  lemma {:induction false} CloseMirror(s: string, i: nat, n: nat, t: string, d: int, quote: char)
    requires Mirror(s, i, n, t, d) && quote != '\\'
    requires Close(s, i, quote).Some? && Close(s, i, quote).value < n && !ClosedLate(s, i, quote)
    ensures Close(t, i + d, quote) == Some(Close(s, i, quote).value + d)
    ensures !ClosedLate(t, i + d, quote)
    decreases |s| - i
  {
    var end := Close(s, i, quote).value;
    assert t[i + d] == s[i];
    if s[i] == quote {
    } else if s[i] == '\\' && s[i + 1] == quote {
      assert end > i + 1;
      assert t[i + 1 + d] == s[i + 1];
      CloseMirror(s, i + 2, n, t, d, quote);
      assert t[end - 1 + d] == s[end - 1];
    } else {
      assert end > i;
      assert t[i + 1 + d] == s[i + 1];
      assert i + 1 == end ==> s[i] != '\\';
      CloseMirror(s, i + 1, n, t, d, quote);
      assert t[end - 1 + d] == s[end - 1];
    }
  }

  /** The value at `i` is quoted and closed late. */
  predicate LateValue(s: string, i: nat)
    requires i <= |s|
  {
    i < |s| && s[i] in "'\"" && ClosedLate(s, i + 1, s[i])
  }

  /** The assignment at `i` has a value that is closed late. */
  predicate LateAssignment(s: string, i: nat)
    requires i <= |s|
  {
    var j := Span(s, i, IsBlank);
    j < |s| && s[j] == '=' && LateValue(s, Span(s, j + 1, IsBlank))
  }

  predicate LateLine(s: string, i: nat)
    requires i <= |s|
  {
    var key := ScanKey(s, ExportEnd(s, i));
    key.Found? && LateAssignment(s, key.end)
  }

  // ----- the pieces of a line -----

  lemma ExportMirror(s: string, i: nat, n: nat, t: string, d: int)
    requires Mirror(s, i, n, t, d) && LineEnd(s, n) && LineEnd(t, n + d) && ExportEnd(s, i) <= n
    ensures ExportEnd(t, i + d) == ExportEnd(s, i) + d
  {
    if i + 6 <= n {
      MirrorWithin(s, i, n, t, d, i, i + 6);
      if s[i..i + 6] == "export" {
        BlanksStop(s, i + 6, n);
        SpanMirror(s, i + 6, n, t, d, IsBlank);
      }
    } else {
      assert i + 6 <= |s| ==> s[i..i + 6][n - i] == s[n];
      assert i + d + 6 <= |t| ==> t[i + d..i + d + 6][n - i] == t[n + d];
    }
  }

  /** Blanks do not run over a line end. */
  lemma BlanksStop(s: string, i: nat, n: nat)
    requires i <= n <= |s| && LineEnd(s, n)
    ensures Span(s, i, IsBlank) <= n && Span(s, i, InLine) <= n && Span(s, i, InKey) <= n
  {
    SpanHolds(s, i, IsBlank);
    SpanHolds(s, i, InLine);
    SpanHolds(s, i, InKey);
  }

  function Moved(x: Option<Extent>, d: int): Option<Extent>
    requires x.Some? ==> x.value.from + d >= 0 && x.value.to + d >= 0
  {
    if x.None? then None else Some(Extent(x.value.from + d, x.value.to + d))
  }

  lemma KeyMirror(s: string, i: nat, n: nat, t: string, d: int)
    requires Mirror(s, i, n, t, d) && LineEnd(s, n) && LineEnd(t, n + d)
    requires ScanKey(s, i).Found? && ScanKey(s, i).end <= n
    ensures ScanKey(t, i + d) == Found(Moved(ScanKey(s, i).extent, d), ScanKey(s, i).end + d)
  {
    assert i < n;
    assert t[i + d] == s[i];
    if s[i] == '#' {
    } else if s[i] == '\'' {
      SpanMirrorInside(s, i + 1, n, t, d, InQuotedKey);
    } else {
      SpanMirror(s, i, n, t, d, InKey);
    }
  }

  lemma ValueMirror(s: string, i: nat, n: nat, t: string, d: int)
    requires Mirror(s, i, n, t, d) && LineEnd(s, n) && LineEnd(t, n + d)
    requires ScanValue(s, i).Found? && ScanValue(s, i).end <= n && !LateValue(s, i)
    ensures ScanValue(t, i + d) == Found(Moved(ScanValue(s, i).extent, d), ScanValue(s, i).end + d)
    ensures !LateValue(t, i + d)
  {
    assert i < n ==> t[i + d] == s[i];
    if i < n && s[i] in "'\"" {
      CloseMirror(s, i + 1, n, t, d, s[i]);
    } else {
      SpanMirror(s, i, n, t, d, InLine);
    }
  }

  /** The blanks before a possible `=`, and those behind it. */
  lemma EqualSignMirror(s: string, i: nat, n: nat, t: string, d: int)
    requires Mirror(s, i, n, t, d) && LineEnd(s, n) && LineEnd(t, n + d)
    ensures var j := Span(s, i, IsBlank);
      && i <= j <= n && Span(t, i + d, IsBlank) == j + d
      && ((j < |s| && s[j] == '=') <==> (j + d < |t| && t[j + d] == '='))
      && (j < |s| && s[j] == '=' ==>
        Span(s, j + 1, IsBlank) <= n && Span(t, j + d + 1, IsBlank) == Span(s, j + 1, IsBlank) + d)
  {
    BlanksMirror(s, i, n, t, d);
    var j := Span(s, i, IsBlank);
    if j < n {
      assert t[j + d] == s[j];
      BlanksMirror(s, j + 1, n, t, d);
    }
  }

  lemma BlanksMirror(s: string, i: nat, n: nat, t: string, d: int)
    requires Mirror(s, i, n, t, d) && LineEnd(s, n) && LineEnd(t, n + d)
    ensures Span(s, i, IsBlank) <= n && Span(t, i + d, IsBlank) == Span(s, i, IsBlank) + d
  {
    BlanksStop(s, i, n);
    SpanMirror(s, i, n, t, d, IsBlank);
  }

  lemma AssignmentMirror(s: string, i: nat, n: nat, t: string, d: int)
    requires Mirror(s, i, n, t, d) && LineEnd(s, n) && LineEnd(t, n + d)
    requires ScanAssignment(s, i).Line? && ScanAssignment(s, i).end <= n && !LateAssignment(s, i)
    ensures ScanAssignment(t, i + d) == Line(None, Moved(ScanAssignment(s, i).value, d), ScanAssignment(s, i).end + d)
    ensures !LateAssignment(t, i + d)
  {
    EqualSignMirror(s, i, n, t, d);
    var j := Span(s, i, IsBlank);
    if j < |s| && s[j] == '=' {
      ValueMirror(s, Span(s, j + 1, IsBlank), n, t, d);
    }
  }

  lemma RestMirror(s: string, i: nat, n: nat, t: string, d: int)
    requires Mirror(s, i, n, t, d) && LineEnd(t, n + d)
    requires ScanRest(s, i).Line? && ScanRest(s, i).end == n
    ensures ScanRest(t, i + d) == Line(None, None, n + d)
  {
    BlanksStop(s, i, n);
    SpanMirror(s, i, n, t, d, IsBlank);
    var k := Span(s, i, IsBlank);
    assert k < n ==> t[k + d] == s[k];
    if k < |s| && s[k] == '#' {
      SpanMirror(s, k, n, t, d, InLine);
    }
    SpanMirror(s, CommentEnd(s, i), n, t, d, IsBlank);
  }

  lemma BehindKeyMirror(s: string, key: Option<Extent>, i: nat, t: string, d: int, key': Option<Extent>)
    requires i <= |s| && ScanBehindKey(s, key, i).Line? && !LateAssignment(s, i)
    requires var n := ScanBehindKey(s, key, i).end; Mirror(s, i, n, t, d) && LineEnd(t, n + d)
    ensures var line := ScanBehindKey(s, key, i);
      ScanBehindKey(t, key', i + d) == Line(key', Moved(line.value, d), line.end + d)
  {
    var n := ScanBehindKey(s, key, i).end;
    AssignmentMirror(s, i, n, t, d);
    RestMirror(s, ScanAssignment(s, i).end, n, t, d);
  }

  /** The start of a line up to its key, or its lack of one. */
  lemma LineStartMirror(s: string, i: nat, n: nat, t: string, d: int)
    requires Mirror(s, i, n, t, d) && LineEnd(s, n) && LineEnd(t, n + d)
    requires var key := ScanKey(s, ExportEnd(s, i)); key.Found? && key.end <= n
    ensures var key := ScanKey(s, ExportEnd(s, i));
      ScanKey(t, ExportEnd(t, i + d)) == Found(Moved(key.extent, d), key.end + d)
  {
    ExportMirror(s, i, n, t, d);
    KeyMirror(s, ExportEnd(s, i), n, t, d);
  }

  /** A line is scanned the same wherever it stands and whatever follows its end. */
  lemma LineMirror(s: string, i: nat, t: string, d: int)
    requires i < |s| && !IsSpace(s[i])
    requires ScanLine(s, i).Line? && !LateLine(s, i)
    requires var n := ScanLine(s, i).end; Mirror(s, i, n, t, d) && LineEnd(t, n + d)
    ensures i + d < |t| && t[i + d] == s[i]
    ensures var line := ScanLine(s, i);
      ScanLine(t, i + d) == Line(Moved(line.key, d), Moved(line.value, d), line.end + d)
  {
    assert t[i + d] == s[i];
    var key, m := LineKey(s, i);
    var line, i', m', key' := ScanLine(s, i), i + d, m + d, Moved(key, d);
    LineMirrorFrom(s, i, key, m, line, t, d, i', key', m');
    LineOfParts(t, i', key', m', Line(key', Moved(line.value, d), line.end + d));
  }

  /** The key of a line, or its lack of one, and where it ends. */
  lemma LineKey(s: string, i: nat) returns (key: Option<Extent>, m: nat)
    requires i < |s| && !IsSpace(s[i]) && ScanLine(s, i).Line?
    ensures ScanKey(s, ExportEnd(s, i)) == Found(key, m) && i <= m <= |s|
    ensures ScanLine(s, i) == ScanBehindKey(s, key, m) && LateLine(s, i) == LateAssignment(s, m)
  {
    key, m := ScanKey(s, ExportEnd(s, i)).extent, ScanKey(s, ExportEnd(s, i)).end;
  }

  lemma LineMirrorFrom(
      s: string, i: nat, key: Option<Extent>, m: nat, line: Line,
      t: string, d: int, i': nat, key': Option<Extent>, m': nat)
    requires i <= |s| && ScanKey(s, ExportEnd(s, i)) == Found(key, m) && i <= m <= |s| && Inside(key, i, m)
    requires line == ScanBehindKey(s, key, m) && line.Line? && !LateAssignment(s, m)
    requires Mirror(s, i, line.end, t, d) && LineEnd(t, line.end + d)
    requires i' == i + d && m' == m + d && key' == Moved(key, d)
    ensures ScanKey(t, ExportEnd(t, i')) == Found(key', m')
    ensures m' <= |t| && ScanBehindKey(t, key', m') == Line(key', Moved(line.value, d), line.end + d)
  {
    var n := BehindKeyEnds(s, key, m);
    BehindKeyMirror(s, key, m, t, d, key');
    LineStartFrom(s, i, key, m, n, t, d, i');
  }

  lemma BehindKeyEnds(s: string, key: Option<Extent>, i: nat) returns (n: nat)
    requires i <= |s| && ScanBehindKey(s, key, i).Line?
    ensures n == ScanBehindKey(s, key, i).end && i <= n && LineEnd(s, n)
  {
    n := ScanBehindKey(s, key, i).end;
  }

  lemma LineStartFrom(
      s: string, i: nat, key: Option<Extent>, m: nat, n: nat,
      t: string, d: int, i': nat)
    requires Mirror(s, i, n, t, d) && LineEnd(s, n) && LineEnd(t, n + d) && i' == i + d
    requires ScanKey(s, ExportEnd(s, i)) == Found(key, m) && m <= n
    ensures ScanKey(t, ExportEnd(t, i')) == Found(Moved(key, d), m + d)
  {
    LineStartMirror(s, i, n, t, d);
  }

  lemma LineOfParts(t: string, i: nat, key: Option<Extent>, m: nat, line: Line)
    requires i < |t| && !IsSpace(t[i]) && ScanKey(t, ExportEnd(t, i)) == Found(key, m)
    requires ScanBehindKey(t, key, m) == line
    ensures ScanLine(t, i) == line
  {
  }

  lemma LateMirror(s: string, i: nat, t: string, d: int)
    requires i < |s| && !IsSpace(s[i])
    requires ScanLine(s, i).Line? && !LateLine(s, i)
    requires var n := ScanLine(s, i).end; Mirror(s, i, n, t, d) && LineEnd(t, n + d)
    ensures !LateLine(t, i + d)
  {
    var key, m := LineKey(s, i);
    LateMirrorFrom(s, i, key, m, ScanLine(s, i), t, d, i + d);
  }

  lemma LateMirrorFrom(s: string, i: nat, key: Option<Extent>, m: nat, line: Line, t: string, d: int, i': nat)
    requires i <= m <= |s| && ScanKey(s, ExportEnd(s, i)) == Found(key, m)
    requires line == ScanBehindKey(s, key, m) && line.Line? && !LateAssignment(s, m)
    requires Mirror(s, i, line.end, t, d) && LineEnd(t, line.end + d) && i' == i + d
    ensures !LateLine(t, i')
  {
    var n := BehindKeyEnds(s, key, m);
    LineStartFrom(s, i, key, m, n, t, d, i');
    BehindKeyLate(s, key, m, t, d);
  }

  lemma BehindKeyLate(s: string, key: Option<Extent>, i: nat, t: string, d: int)
    requires i <= |s| && ScanBehindKey(s, key, i).Line? && !LateAssignment(s, i)
    requires var n := ScanBehindKey(s, key, i).end; Mirror(s, i, n, t, d) && LineEnd(t, n + d)
    ensures !LateAssignment(t, i + d)
  {
    AssignmentMirror(s, i, ScanBehindKey(s, key, i).end, t, d);
  }
}
