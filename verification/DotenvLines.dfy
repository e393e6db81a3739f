/**
 What a line of a .env text is, said by its characters and without any scanning: where its pieces are, what they say,
 and where a line that is none stops making sense.  The parser reads exactly these lines.
 */
module DotenvLines {
  import opened Options
  import opened DotenvGrammar
  import opened DotenvBacktracking

  // ----- pieces -----

  /** From `i` up to `j`, and not at `j`, there are such characters. */
  predicate LongestRun(t: string, i: nat, j: nat, p: char -> bool) {
    i <= j <= |t| && (forall x :: i <= x < j ==> p(t[x])) && (j < |t| ==> !p(t[j]))
  }

  predicate EndsLine(t: string, n: nat) { n == |t| || (n < |t| && t[n] in "\r\n") }

  /** `export` counts only with a blank behind it. */
  predicate ExportTo(t: string, i: nat, j: nat) {
    if i + 7 <= |t| && t[i..i + 6] == "export" && IsBlank(t[i + 6]) then LongestRun(t, i + 6, j, IsBlank)
    else j == i <= |t|
  }

  /** In single quotes a key may have any characters but those; otherwise no white space, `=` or `#`. */
  predicate KeyTo(t: string, i: nat, j: nat, key: Option<string>) {
    && i < |t| && i <= j <= |t|
    && if t[i] == '#' then j == i && key == None
       else if t[i] == '\'' then
         i + 2 < j && LongestRun(t, i + 1, j - 1, c => c != '\'') && key == Some(t[i + 1..j - 1])
       else i < j && LongestRun(t, i, j, c => c !in "=#" && !IsSpace(c)) && key == Some(t[i..j])
  }

  predicate NoKeyAt(t: string, i: nat) {
    i == |t| || (i < |t| && (t[i] == '=' || IsSpace(t[i])
                             || (t[i] == '\'' && ('\'' !in t[i + 1..] || t[i + 1] == '\''))))
  }

  /** The first quote without a backslash before it closes a value, or the last quote if all have one. */
  ghost predicate ClosedAt(t: string, i: nat, quote: char, c: nat) {
    || (QuoteAt(t, i, c, quote, false) && forall k: nat :: k < c ==> !QuoteAt(t, i, k, quote, false))
    || (QuoteAt(t, i, c, quote, true) && (forall k: nat :: !QuoteAt(t, i, k, quote, false))
        && forall k: nat :: k > c ==> !QuoteAt(t, i, k, quote, true))
  }

  /** A `#` with white space before it starts a comment. */
  predicate CommentAt(x: string, e: nat) { 0 < e < |x| && x[e] == '#' && IsSpace(x[e - 1]) }

  predicate IsCommentOrEnd(x: string, e: nat) {
    e <= |x| && (e == |x| || CommentAt(x, e)) && forall y :: 0 <= y < e ==> !CommentAt(x, y)
  }

  /** What is in front of the first comment, without white space at its end. */
  ghost predicate Trimmed(x: string, value: string) {
    && value <= x && (value != "" ==> !IsSpace(value[|value| - 1]))
    && exists e :: IsCommentOrEnd(x, e) && |value| <= e && forall y :: |value| <= y < e ==> IsSpace(x[y])
  }

  /** A value in quotes, or up to the end of the line without a comment and white space before it. */
  ghost predicate ValueTo(t: string, i: nat, j: nat, value: string) {
    && i <= j <= |t|
    && if i < |t| && t[i] in "'\"" then
         && i + 1 < j && ClosedAt(t, i + 1, t[i], j - 1)
         && value == if t[i] == '\'' then DecodeSingle(t[i + 1..j - 1]) else DecodeDouble(t[i + 1..j - 1])
       else LongestRun(t, i, j, InLine) && Trimmed(t[i..j], value)
  }

  predicate NoValueAt(t: string, i: nat) {
    i < |t| && t[i] in "'\"" && t[i] !in t[i + 1..]
  }

  /** Blanks, and a comment if there is a `#`, up to the end of the line. */
  predicate RestTo(t: string, i: nat, c: nat, n: nat) {
    && LongestRun(t, i, c, IsBlank)
    && if c < |t| && t[c] == '#' then LongestRun(t, c, n, InLine) else n == c && EndsLine(t, n)
  }

  predicate NoRestAt(t: string, i: nat, c: nat) {
    LongestRun(t, i, c, IsBlank) && c < |t| && t[c] !in "#\r\n"
  }

  predicate BreakTo(t: string, n: nat, e: nat) {
    if n >= |t| then e == n else e == n + if t[n] == '\r' && n + 1 < |t| && t[n + 1] == '\n' then 2 else 1
  }

  /** The end of the first line break from here on, taking each `\r` and `\n` for one; or the end of the text. */
  predicate RecoveredTo(t: string, i: nat, e: nat) {
    && i <= e <= |t|
    && (if i < e && t[e - 1] in "\r\n" then LongestRun(t, i, e - 1, InLine)
        else LongestRun(t, i, e, InLine) && e == |t|)
  }

  /** Where the pieces of a line are. */
  datatype Layout = Layout(
    start: nat, key: nat, keyEnd: nat, sign: nat, value: nat, valueEnd: nat, comment: nat, lineEnd: nat)

  predicate StartsLine(t: string, k: nat, l: Layout) {
    LongestRun(t, k, l.start, IsSpace) && l.start < |t| && ExportTo(t, l.start, l.key)
  }

  predicate HasSign(t: string, l: Layout) {
    && LongestRun(t, l.keyEnd, l.sign, IsBlank) && l.sign < |t| && t[l.sign] == '='
    && LongestRun(t, l.sign + 1, l.value, IsBlank)
  }

  /** Either `=` and a value, or neither. */
  ghost predicate Assigns(t: string, l: Layout, value: Option<string>) {
    if value.Some? then HasSign(t, l) && ValueTo(t, l.value, l.valueEnd, value.value)
    else LongestRun(t, l.keyEnd, l.valueEnd, IsBlank) && (l.valueEnd < |t| ==> t[l.valueEnd] != '=')
  }

  /** From `k` on there is a line with this key and value, behind white space. */
  ghost predicate IsLine(t: string, k: nat, l: Layout, key: Option<string>, value: Option<string>) {
    && StartsLine(t, k, l) && KeyTo(t, l.key, l.keyEnd, key) && Assigns(t, l, value)
    && RestTo(t, l.valueEnd, l.comment, l.lineEnd)
  }

  /** From `k` on there is something that is no line from `at` on. */
  ghost predicate FailsAt(t: string, k: nat, l: Layout, at: nat, key: Option<string>, value: Option<string>) {
    && StartsLine(t, k, l)
    && (|| (NoKeyAt(t, l.key) && at == l.key)
        || (KeyTo(t, l.key, l.keyEnd, key)
            && (|| (HasSign(t, l) && NoValueAt(t, l.value) && at == l.value)
                || (Assigns(t, l, value) && NoRestAt(t, l.valueEnd, l.comment) && at == l.valueEnd))))
  }

  // ----- the scanner finds them -----

  lemma RunIff(t: string, i: nat, j: nat, p: char -> bool)
    requires i <= |t|
    ensures LongestRun(t, i, j, p) <==> Span(t, i, p) == j
  {
    SpanHolds(t, i, p);
    if LongestRun(t, i, j, p) { SpanIs(t, i, p, j); }
  }

  lemma {:induction false} SameRun(t: string, i: nat, p: char -> bool, q: char -> bool)
    requires i <= |t| && forall c :: p(c) == q(c)
    ensures Span(t, i, p) == Span(t, i, q)
    decreases |t| - i
  {
    if i < |t| && p(t[i]) { SameRun(t, i + 1, p, q); }
  }

  lemma ExportIff(t: string, i: nat, j: nat)
    requires i <= |t|
    ensures ExportTo(t, i, j) <==> ExportEnd(t, i) == j
  {
    if i + 6 <= |t| { RunIff(t, i + 6, j, IsBlank); }
  }

  /** What a key piece says. */
  function KeySaid(t: string, k: Piece): Option<string>
    requires k.Found? && Inside(k.extent, 0, |t|)
  {
    if k.extent.None? then None else Some(t[k.extent.value.from..k.extent.value.to])
  }

  lemma KeyIff(t: string, i: nat, j: nat, key: Option<string>)
    requires i <= |t|
    ensures KeyTo(t, i, j, key) <==> ScanKey(t, i).Found? && ScanKey(t, i).end == j && KeySaid(t, ScanKey(t, i)) == key
  {
    if i < |t| && t[i] == '\'' {
      SameRun(t, i + 1, InQuotedKey, c => c != '\'');
      if j > i { RunIff(t, i + 1, j - 1, c => c != '\''); }
    } else {
      SameRun(t, i, InKey, c => c !in "=#" && !IsSpace(c));
      RunIff(t, i, j, c => c !in "=#" && !IsSpace(c));
    }
  }

  lemma NoKeyIff(t: string, i: nat)
    requires i <= |t|
    ensures NoKeyAt(t, i) <==> ScanKey(t, i).NotFound?
  {
    if i < |t| && t[i] == '\'' {
      var j := Span(t, i + 1, InQuotedKey);
      SpanHolds(t, i + 1, InQuotedKey);
      assert forall x :: i + 1 <= x < |t| ==> t[x] == t[i + 1..][x - i - 1];
      if j < |t| { assert t[j] in t[i + 1..]; }
    } else {
      SpanHolds(t, i, InKey);
    }
  }

  lemma ClosedIff(t: string, i: nat, quote: char, c: nat)
    requires i <= |t| && quote != '\\'
    ensures ClosedAt(t, i, quote, c) <==> Close(t, i, quote) == Some(c)
  {
    CloseMeans(t, i, quote);
  }

  lemma NotClosedIff(t: string, i: nat, quote: char)
    requires i <= |t| && quote != '\\'
    ensures Close(t, i, quote) == None <==> quote !in t[i..]
  {
    CloseMeans(t, i, quote);
    if quote in t[i..] {
      var k :| 0 <= k < |t[i..]| && t[i..][k] == quote;
      assert QuoteAt(t, i, i + k, quote, k > 0 && t[i + k - 1] == '\\');
    } else {
      assert forall k :: i <= k < |t| ==> t[k] == t[i..][k - i];
    }
  }

  lemma DecodeQuotes(t: string, i: nat, j: nat)
    requires i + 1 < j <= |t|
    ensures t[i] == '\'' ==> Decode(t[i..j]) == DecodeSingle(t[i + 1..j - 1])
    ensures t[i] == '"' ==> Decode(t[i..j]) == DecodeDouble(t[i + 1..j - 1])
  {
    var raw, inner := t[i..j], t[i + 1..j - 1];
    assert forall x :: 0 <= x < |inner| ==> raw[1 + x] == inner[x];
    assert raw[1..|raw| - 1] == inner;
  }

  lemma {:induction false} StripIs(x: string, m: nat)
    requires m <= |x| && (forall y :: m <= y < |x| ==> IsSpace(x[y])) && (m > 0 ==> !IsSpace(x[m - 1]))
    ensures StripRight(x) == x[..m]
  {
    if m < |x| {
      StripIs(x[..|x| - 1], m);
      assert x[..|x| - 1][..m] == x[..m];
    } else {
      assert x[..m] == x;
    }
  }

  /** Where stripping stops. */
  lemma {:induction false} StripStops(x: string) returns (m: nat)
    ensures m <= |x| && (forall y :: m <= y < |x| ==> IsSpace(x[y])) && (m > 0 ==> !IsSpace(x[m - 1]))
  {
    m := |x|;
    if x != "" && IsSpace(x[|x| - 1]) { m := StripStops(x[..|x| - 1]); }
  }

  lemma StripSpaces(x: string, i: nat, k: nat)
    requires i <= k <= |x| && forall y :: i <= y < k ==> IsSpace(x[y])
    ensures StripRight(x[..i]) == StripRight(x[..k])
  {
    var m := StripStops(x[..i]);
    StripIs(x[..i], m);
    StripIs(x[..k], m);
    assert x[..i][..m] == x[..k][..m];
  }

  lemma {:induction false} CutAtComment(x: string, i: nat, e: nat)
    requires i <= e <= |x| && (i < e || e == |x|) && (e == |x| || CommentAt(x, e))
    requires forall y :: 0 <= y < e ==> !CommentAt(x, y)
    ensures StripRight(CutComment(x, i)) == StripRight(x[..e])
    decreases |x| - i
  {
    if i == |x| {
      assert x[..e] == x;
    } else if IsSpace(x[i]) && (var k := Span(x, i, IsSpace); k < |x| && x[k] == '#') {
      var k := Span(x, i, IsSpace);
      SpanHolds(x, i, IsSpace);
      assert k > i && CommentAt(x, k);
      assert e == k;
      StripSpaces(x, i, k);
    } else {
      if e == i + 1 < |x| { SpanIs(x, i, IsSpace, e); }
      CutAtComment(x, i + 1, e);
    }
  }

  lemma {:induction false} FirstComment(x: string, i: nat) returns (e: nat)
    requires i <= |x| && forall y :: 0 <= y < i ==> !CommentAt(x, y)
    ensures IsCommentOrEnd(x, e)
    decreases |x| - i
  {
    e := i;
    if i < |x| && !CommentAt(x, i) { e := FirstComment(x, i + 1); }
  }

  lemma TrimmedAt(x: string, e: nat, value: string)
    requires IsCommentOrEnd(x, e) && |value| <= e && value <= x && (value != "" ==> !IsSpace(value[|value| - 1]))
    requires forall y :: |value| <= y < e ==> IsSpace(x[y])
    ensures StripRight(CutComment(x, 0)) == value
  {
    CutAtComment(x, 0, e);
    StripIs(x[..e], |value|);
    assert x[..e][..|value|] == value;
  }

  lemma TrimIff(x: string, value: string)
    ensures Trimmed(x, value) <==> StripRight(CutComment(x, 0)) == value
  {
    if Trimmed(x, value) {
      var e :| IsCommentOrEnd(x, e) && |value| <= e && forall y :: |value| <= y < e ==> IsSpace(x[y]);
      TrimmedAt(x, e, value);
    }
    var e := FirstComment(x, 0);
    var m := StripStops(x[..e]);
    forall y | m <= y < e ensures IsSpace(x[y]) { assert x[..e][y] == x[y]; }
    TrimmedAt(x, e, x[..m]);
    assert Trimmed(x, x[..m]);
  }

  lemma ValueIff(t: string, i: nat, j: nat, value: string)
    requires i <= |t|
    ensures ValueTo(t, i, j, value) <==> ScanValue(t, i).Found? && ScanValue(t, i).end == j && Decode(t[i..j]) == value
  {
    if i < |t| && t[i] in "'\"" {
      if i + 1 < j <= |t| {
        ClosedIff(t, i + 1, t[i], j - 1);
        DecodeQuotes(t, i, j);
      }
    } else {
      RunIff(t, i, j, InLine);
      if i <= j <= |t| { TrimIff(t[i..j], value); }
    }
  }

  lemma NoValueIff(t: string, i: nat)
    requires i <= |t|
    ensures NoValueAt(t, i) <==> ScanValue(t, i).NotFound?
  {
    if i < |t| && t[i] in "'\"" { NotClosedIff(t, i + 1, t[i]); }
  }

  /** What the value of a line says. */
  function ValueSaid(t: string, x: Option<Extent>): Option<string>
    requires Inside(x, 0, |t|)
  {
    if x.None? then None else Some(Decode(t[x.value.from..x.value.to]))
  }

  lemma AssignsSound(t: string, l: Layout, value: Option<string>)
    requires l.keyEnd <= |t| && Assigns(t, l, value)
    ensures var a := ScanAssignment(t, l.keyEnd); a.Line? && a.end == l.valueEnd && ValueSaid(t, a.value) == value
  {
    if value.Some? {
      RunIff(t, l.keyEnd, l.sign, IsBlank);
      RunIff(t, l.sign + 1, l.value, IsBlank);
      ValueIff(t, l.value, l.valueEnd, value.value);
    } else {
      RunIff(t, l.keyEnd, l.valueEnd, IsBlank);
    }
  }

  lemma NoValueSound(t: string, l: Layout)
    requires l.keyEnd <= |t| && HasSign(t, l) && NoValueAt(t, l.value)
    ensures ScanAssignment(t, l.keyEnd) == Broken(l.value)
  {
    RunIff(t, l.keyEnd, l.sign, IsBlank);
    RunIff(t, l.sign + 1, l.value, IsBlank);
    NoValueIff(t, l.value);
  }

  lemma ValueComplete(t: string, i: nat)
    requires i <= |t|
    ensures var v := ScanValue(t, i);
      if v.Found? then v.extent == Some(Extent(i, v.end)) && ValueTo(t, i, v.end, Decode(t[i..v.end]))
      else NoValueAt(t, i)
  {
    NoValueIff(t, i);
    var v := ScanValue(t, i);
    if v.Found? { ValueIff(t, i, v.end, Decode(t[i..v.end])); }
  }

  lemma SignComplete(t: string, l: Layout)
    requires l.keyEnd <= |t| && l.sign == Span(t, l.keyEnd, IsBlank) < |t| && t[l.sign] == '='
    requires l.value == Span(t, l.sign + 1, IsBlank)
    ensures HasSign(t, l)
    ensures ScanAssignment(t, l.keyEnd) ==
      var v := ScanValue(t, l.value); if v.NotFound? then Broken(l.value) else Line(None, v.extent, v.end)
  {
    RunIff(t, l.keyEnd, l.sign, IsBlank);
    RunIff(t, l.sign + 1, l.value, IsBlank);
  }

  lemma NoSignComplete(t: string, l: Layout)
    requires l.keyEnd <= |t| && l.sign == Span(t, l.keyEnd, IsBlank) && !(l.sign < |t| && t[l.sign] == '=')
    ensures ScanAssignment(t, l.keyEnd) == Line(None, None, l.sign)
    ensures l.valueEnd == l.sign ==> Assigns(t, l, None)
  {
    RunIff(t, l.keyEnd, l.sign, IsBlank);
  }

  lemma AssignsComplete(t: string, l: Layout) returns (value: Option<string>)
    requires l.keyEnd <= |t| && l.sign == Span(t, l.keyEnd, IsBlank)
    requires l.value == if l.sign < |t| then Span(t, l.sign + 1, IsBlank) else 0
    requires var a := ScanAssignment(t, l.keyEnd); a.Line? ==> l.valueEnd == a.end
    ensures var a := ScanAssignment(t, l.keyEnd);
      if a.Line? then Assigns(t, l, value) else HasSign(t, l) && NoValueAt(t, l.value) && a.at == l.value
  {
    value := None;
    if l.sign < |t| && t[l.sign] == '=' {
      SignComplete(t, l);
      ValueComplete(t, l.value);
      var v := ScanValue(t, l.value);
      if v.Found? { value := Some(Decode(t[l.value..v.end])); }
    } else {
      NoSignComplete(t, l);
    }
  }

  lemma RestSound(t: string, i: nat, c: nat, n: nat)
    requires i <= |t|
    ensures RestTo(t, i, c, n) ==> ScanRest(t, i) == Line(None, None, n)
    ensures NoRestAt(t, i, c) ==> ScanRest(t, i) == Broken(i)
  {
    RunIff(t, i, c, IsBlank);
    if c < |t| && t[c] == '#' {
      RunIff(t, c, n, InLine);
      if LongestRun(t, c, n, InLine) { SpanIs(t, n, IsBlank, n); }
    }
  }

  lemma RestComplete(t: string, i: nat, c: nat)
    requires i <= |t| && c == Span(t, i, IsBlank)
    ensures var r := ScanRest(t, i); if r.Line? then RestTo(t, i, c, r.end) else NoRestAt(t, i, c) && r.at == i
  {
    RunIff(t, i, c, IsBlank);
    if c < |t| && t[c] == '#' {
      var n := Span(t, c, InLine);
      RunIff(t, c, n, InLine);
      SpanIs(t, n, IsBlank, n);
    }
  }

  // ----- whole lines -----

  /** What a scanned line says, as the text has it. */
  predicate Says(t: string, line: Line, key: Option<string>, value: Option<string>, end: nat) {
    && line.Line? && line.end == end && Inside(line.key, 0, |t|) && Inside(line.value, 0, |t|)
    && key == (if line.key.None? then None else Some(t[line.key.value.from..line.key.value.to]))
    && ValueSaid(t, line.value) == value
  }

  lemma LineSound(t: string, k: nat, l: Layout, key: Option<string>, value: Option<string>)
    requires IsLine(t, k, l, key, value)
    ensures !IsSpace(t[l.start]) && Says(t, ScanLine(t, l.start), key, value, l.lineEnd)
  {
    ExportIff(t, l.start, l.key);
    KeyIff(t, l.key, l.keyEnd, key);
    AssignsSound(t, l, value);
    RestSound(t, l.valueEnd, l.comment, l.lineEnd);
  }

  lemma FailSound(t: string, k: nat, l: Layout, at: nat, key: Option<string>, value: Option<string>)
    requires FailsAt(t, k, l, at, key, value)
    ensures !IsSpace(t[l.start]) && ScanLine(t, l.start) == Broken(at)
  {
    ExportIff(t, l.start, l.key);
    NoKeyIff(t, l.key);
    if KeyTo(t, l.key, l.keyEnd, key) {
      KeyIff(t, l.key, l.keyEnd, key);
      if HasSign(t, l) && NoValueAt(t, l.value) { NoValueSound(t, l); }
      if Assigns(t, l, value) {
        AssignsSound(t, l, value);
        RestSound(t, l.valueEnd, l.comment, l.lineEnd);
      }
    }
  }

  /** Where the scanner finds the pieces; what it does not come to is left at 0. */
  function Pieces(t: string, k: nat, start: nat): (l: Layout)
    requires k <= start < |t|
  {
    var key := ExportEnd(t, start);
    var keyEnd := if ScanKey(t, key).Found? then ScanKey(t, key).end else 0;
    var sign := Span(t, keyEnd, IsBlank);
    var value := if sign < |t| then Span(t, sign + 1, IsBlank) else 0;
    var a := ScanAssignment(t, keyEnd);
    var valueEnd := if a.Line? then a.end else 0;
    var r := ScanRest(t, valueEnd);
    Layout(start, key, keyEnd, sign, value, valueEnd, Span(t, valueEnd, IsBlank), if r.Line? then r.end else 0)
  }

  lemma BehindKeyComplete(t: string, l: Layout, key: Option<Extent>) returns (value: Option<string>)
    requires l.keyEnd <= |t| && l.sign == Span(t, l.keyEnd, IsBlank)
    requires l.value == if l.sign < |t| then Span(t, l.sign + 1, IsBlank) else 0
    requires var a := ScanAssignment(t, l.keyEnd); a.Line? ==>
      l.valueEnd == a.end && l.comment == Span(t, a.end, IsBlank)
      && var r := ScanRest(t, a.end); r.Line? ==> l.lineEnd == r.end
    ensures var line := ScanBehindKey(t, key, l.keyEnd);
      if line.Line? then Assigns(t, l, value) && RestTo(t, l.valueEnd, l.comment, l.lineEnd)
      else || (HasSign(t, l) && NoValueAt(t, l.value) && line.at == l.value)
           || (Assigns(t, l, value) && NoRestAt(t, l.valueEnd, l.comment) && line.at == l.valueEnd)
  {
    value := AssignsComplete(t, l);
    if ScanAssignment(t, l.keyEnd).Line? { RestComplete(t, l.valueEnd, l.comment); }
  }

  lemma KeyComplete(t: string, i: nat) returns (key: Option<string>)
    requires i <= |t|
    ensures var k := ScanKey(t, i); if k.Found? then KeyTo(t, i, k.end, key) else NoKeyAt(t, i)
  {
    NoKeyIff(t, i);
    key := None;
    var k := ScanKey(t, i);
    if k.Found? {
      key := KeySaid(t, k);
      KeyIff(t, i, k.end, key);
    }
  }

  lemma KeyedComplete(t: string, k: nat, l: Layout, piece: Piece, key: Option<string>) returns (value: Option<string>)
    requires StartsLine(t, k, l) && piece == ScanKey(t, l.key) && piece.Found? && KeyTo(t, l.key, l.keyEnd, key)
    requires l.keyEnd == piece.end && l.sign == Span(t, l.keyEnd, IsBlank)
    requires l.value == if l.sign < |t| then Span(t, l.sign + 1, IsBlank) else 0
    requires var a := ScanAssignment(t, l.keyEnd); a.Line? ==>
      l.valueEnd == a.end && l.comment == Span(t, a.end, IsBlank)
      && var r := ScanRest(t, a.end); r.Line? ==> l.lineEnd == r.end
    ensures var line := ScanBehindKey(t, piece.extent, l.keyEnd);
      if line.Line? then IsLine(t, k, l, key, value) else FailsAt(t, k, l, line.at, key, value)
  {
    value := BehindKeyComplete(t, l, piece.extent);
  }

  /** Every line that is scanned is a line, and every failure is one. */
  lemma LineComplete(t: string, k: nat, start: nat, l: Layout) returns (key: Option<string>, value: Option<string>)
    requires k <= |t| && LongestRun(t, k, start, IsSpace) && start < |t| && l == Pieces(t, k, start)
    ensures var line := ScanLine(t, start);
      if line.Line? then IsLine(t, k, l, key, value) else FailsAt(t, k, l, line.at, key, value)
  {
    value := None;
    assert StartsLine(t, k, l) by { ExportIff(t, start, l.key); }
    key := KeyComplete(t, l.key);
    var piece := ScanKey(t, l.key);
    if piece.Found? { value := KeyedComplete(t, k, l, piece, key); }
  }

  lemma BreakIff(t: string, n: nat, e: nat)
    requires LineEnd(t, n)
    ensures BreakTo(t, n, e) <==> BreakEnd(t, n) == e
  {
  }

  lemma RecoverIff(t: string, i: nat, e: nat)
    requires i <= |t|
    ensures RecoveredTo(t, i, e) <==> Recover(t, i) == e
  {
    SpanHolds(t, i, InLine);
    if i < e { RunIff(t, i, e - 1, InLine); }
    RunIff(t, i, e, InLine);
  }

  lemma ParseOfBlank(t: string, k: nat)
    requires k < |t| && Span(t, k, IsSpace) == |t|
    ensures Parse(t, k) == Parsed(None, None, false, |t|)
  {
  }

  lemma ParseOfLine(t: string, k: nat, key: Option<string>, value: Option<string>, n: nat)
    requires k < |t| && Span(t, k, IsSpace) < |t| && Says(t, ScanLine(t, Span(t, k, IsSpace)), key, value, n)
    ensures LineEnd(t, n) && Parse(t, k) == Parsed(key, value, false, BreakEnd(t, n))
  {
  }

  lemma ParseOfFailure(t: string, k: nat, at: nat)
    requires k < |t| && Span(t, k, IsSpace) < |t| && ScanLine(t, Span(t, k, IsSpace)) == Broken(at)
    ensures at <= |t| && Parse(t, k) == Parsed(None, None, true, Recover(t, at))
  {
  }

  /** From `k` on there is a line, with its break, that says this. */
  ghost predicate LineSays(t: string, k: nat, b: Parsed) {
    !b.error && exists l :: IsLine(t, k, l, b.key, b.value) && BreakTo(t, l.lineEnd, b.end)
  }

  /** From `k` on there is no line; the error ends with the line in which it was found. */
  ghost predicate ErrorSays(t: string, k: nat, b: Parsed) {
    && b == Parsed(None, None, true, b.end)
    && exists l, at, key, value :: FailsAt(t, k, l, at, key, value) && RecoveredTo(t, at, b.end)
  }

  ghost predicate BlankSays(t: string, k: nat, b: Parsed) {
    b == Parsed(None, None, false, |t|) && forall x :: k <= x < |t| ==> IsSpace(t[x])
  }

  lemma LineIsParsed(t: string, k: nat, b: Parsed)
    requires k < |t| && LineSays(t, k, b)
    ensures Parse(t, k) == b
  {
    var l :| IsLine(t, k, l, b.key, b.value) && BreakTo(t, l.lineEnd, b.end);
    RunIff(t, k, l.start, IsSpace);
    LineSound(t, k, l, b.key, b.value);
    ParseOfLine(t, k, b.key, b.value, l.lineEnd);
    BreakIff(t, l.lineEnd, b.end);
  }

  lemma ErrorIsParsed(t: string, k: nat, b: Parsed)
    requires k < |t| && ErrorSays(t, k, b)
    ensures Parse(t, k) == b
  {
    var l, at, key, value :| FailsAt(t, k, l, at, key, value) && RecoveredTo(t, at, b.end);
    RunIff(t, k, l.start, IsSpace);
    FailSound(t, k, l, at, key, value);
    ParseOfFailure(t, k, at);
    RecoverIff(t, at, b.end);
  }

  lemma ParsedIsLine(t: string, k: nat, start: nat, b: Parsed)
    requires k < |t| && start == Span(t, k, IsSpace) < |t| && b == Parse(t, k)
    ensures LineSays(t, k, b) || ErrorSays(t, k, b)
  {
    RunIff(t, k, start, IsSpace);
    var l := Pieces(t, k, start);
    var key, value := LineComplete(t, k, start, l);
    var line := ScanLine(t, start);
    if line.Line? {
      LineSound(t, k, l, key, value);
      ParseOfLine(t, k, key, value, l.lineEnd);
      BreakIff(t, l.lineEnd, b.end);
    } else {
      ParseOfFailure(t, k, line.at);
      RecoverIff(t, line.at, b.end);
    }
  }

  /** The parser reads exactly what the characters say: white space up to the end, a line, or an error. */
  lemma ParseIff(t: string, k: nat, b: Parsed)
    requires k < |t|
    ensures Parse(t, k) == b <==> BlankSays(t, k, b) || LineSays(t, k, b) || ErrorSays(t, k, b)
  {
    RunIff(t, k, |t|, IsSpace);
    if Span(t, k, IsSpace) == |t| {
      ParseOfBlank(t, k);
    } else if Parse(t, k) == b {
      ParsedIsLine(t, k, Span(t, k, IsSpace), b);
    }
    if LineSays(t, k, b) { LineIsParsed(t, k, b); }
    if ErrorSays(t, k, b) { ErrorIsParsed(t, k, b); }
  }
}
