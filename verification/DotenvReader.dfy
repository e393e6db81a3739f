/**
 The cursor-driven parser: a reader moves a position over a text, pattern by pattern, and the parse
 functions work by moving it.  Each is shown to read exactly what the grammar says.
 */
module DotenvReader {
  import opened Options
  import opened DotenvGrammar

  // ----- line breaks -----

  /** How many line breaks there are: `\r\n` is one. */
  function Newlines(t: string): nat {
    if t == "" then 0
    else if |t| > 1 && t[0] == '\r' && t[1] == '\n' then 1 + Newlines(t[2..])
    else (if IsNewline(t[0]) then 1 else 0) + Newlines(t[1..])
  }

  /** A text may be cut here without cutting a line break in two. */
  predicate Whole(s: string, c: nat) {
    !(0 < c < |s| && s[c - 1] == '\r' && s[c] == '\n')
  }

  lemma {:induction false} NewlinesOfCut(s: string, c: nat)
    requires c <= |s| && Whole(s, c)
    ensures Newlines(s) == Newlines(s[..c]) + Newlines(s[c..])
    decreases |s|
  {
    if c == 0 {
      assert s[0..] == s;
    } else if |s| > 1 && s[0] == '\r' && s[1] == '\n' {
      assert c >= 2;
      assert Whole(s[2..], c - 2);
      NewlinesOfCut(s[2..], c - 2);
      assert s[2..][..c - 2] == s[..c][2..] && s[2..][c - 2..] == s[c..];
      assert s[..c][0] == s[0] && s[..c][1] == s[1];
    } else {
      assert Whole(s[1..], c - 1);
      NewlinesOfCut(s[1..], c - 1);
      assert s[1..][..c - 1] == s[..c][1..] && s[1..][c - 1..] == s[c..];
      assert s[..c][0] == s[0] && (c > 1 ==> s[..c][1] == s[1]);
    }
  }

  /** The line breaks between two places, counted in two parts. */
  lemma NewlinesBetween(s: string, i: nat, c: nat, e: nat)
    requires i <= c <= e <= |s| && (c == i || Whole(s, c))
    ensures Newlines(s[i..e]) == Newlines(s[i..c]) + Newlines(s[c..e])
  {
    var t := s[i..e];
    assert t[..c - i] == s[i..c] && t[c - i..] == s[c..e];
    assert Whole(t, c - i);
    NewlinesOfCut(t, c - i);
  }

  // ----- the reader -----

  class Position {
    var chars: nat
    var line: nat

    constructor Start()
      ensures chars == 0 && line == 1
    {
      chars, line := 0, 1;
    }

    method Set(other: Position)
      modifies this
      ensures chars == old(other.chars) && line == old(other.line)
    {
      chars, line := other.chars, other.line;
    }

    method Advance(text: string)
      modifies this
      ensures chars == old(chars) + |text| && line == old(line) + Newlines(text)
    {
      chars, line := chars + |text|, line + Newlines(text);
    }
  }

  datatype Result<+T> = Ok(value: T) | Failed {
    predicate IsFailure() { Failed? }
    function PropagateFailure<U>(): Result<U>
      requires Failed?
    {
      Failed
    }
    function Extract(): T
      requires Ok?
    {
      value
    }
  }

  /** What a pattern matches at a place, and its group. */
  datatype Match = NoMatch | Match(end: nat, group: string)

  type Regex = (string, nat) -> Match

  datatype Original = Original(text: string, line: nat)

  class Reader {
    const text: string
    const position: Position
    const mark: Position

    ghost predicate Valid()
      reads position, mark
    {
      && position != mark && mark.chars <= position.chars <= |text|
      && position.line == mark.line + Newlines(text[mark.chars..position.chars])
    }

    /** The next match does not begin in the middle of a line break. */
    ghost predicate Ready()
      reads position, mark
    {
      position.chars == mark.chars || Whole(text, position.chars)
    }

    constructor (stream: string)
      ensures Valid() && fresh(position) && fresh(mark)
      ensures text == stream && position.chars == 0 && position.line == 1 && mark.chars == 0
    {
      text := stream;
      position := new Position.Start();
      mark := new Position.Start();
    }

    method HasNext() returns (more: bool)
      ensures more == (position.chars < |text|)
    {
      more := position.chars < |text|;
    }

    method SetMark()
      requires Valid()
      modifies mark
      ensures Valid() && mark.chars == position.chars && mark.line == position.line
    {
      mark.Set(position);
    }

    method GetMarked() returns (original: Original)
      requires Valid()
      ensures original == Original(text[mark.chars..position.chars], mark.line)
    {
      original := Original(text[mark.chars..position.chars], mark.line);
    }

    method Peek(count: nat) returns (next: string)
      requires Valid()
      ensures position.chars + count <= |text| ==> next == text[position.chars..position.chars + count]
      ensures position.chars + count > |text| ==> next == text[position.chars..]
      ensures count == 1 ==> next == if position.chars < |text| then [text[position.chars]] else ""
    {
      var end := position.chars + count;
      next := text[position.chars..if end <= |text| then end else |text|];
    }

    method ReadRegex(regex: Regex) returns (group: Result<string>)
      requires Valid() && Ready()
      requires regex(text, position.chars).Match? ==> position.chars <= regex(text, position.chars).end <= |text|
      modifies position
      ensures Valid()
      ensures var m := regex(text, old(position.chars));
        if m.NoMatch? then group.Failed? && position.chars == old(position.chars)
        else group == Ok(m.group) && position.chars == m.end
    {
      var match_ := regex(text, position.chars);
      if match_.NoMatch? { return Failed; }
      NewlinesBetween(text, mark.chars, position.chars, match_.end);
      position.Advance(text[position.chars..match_.end]);
      return Ok(match_.group);
    }
  }

  // ----- the patterns -----

  function MultilineWhitespace(s: string, i: nat): Match {
    if i <= |s| then Match(Span(s, i, IsSpace), "") else NoMatch
  }

  function Whitespace(s: string, i: nat): Match {
    if i <= |s| then Match(Span(s, i, IsBlank), "") else NoMatch
  }

  function Export(s: string, i: nat): Match {
    if i <= |s| then Match(ExportEnd(s, i), "") else NoMatch
  }

  function SingleQuotedKey(s: string, i: nat): Match {
    if i < |s| && s[i] == '\'' then
      var j := Span(s, i + 1, InQuotedKey);
      if j == i + 1 || j == |s| then NoMatch else Match(j + 1, s[i + 1..j])
    else NoMatch
  }

  function UnquotedKey(s: string, i: nat): Match {
    if i <= |s| && Span(s, i, InKey) > i then Match(Span(s, i, InKey), s[i..Span(s, i, InKey)]) else NoMatch
  }

  function EqualSign(s: string, i: nat): Match {
    if i < |s| && s[i] == '=' then Match(Span(s, i + 1, IsBlank), "") else NoMatch
  }

  function QuotedValue(s: string, i: nat, quote: char): Match {
    if i < |s| && s[i] == quote then
      var close := Close(s, i + 1, quote);
      if close.None? then NoMatch else Match(close.value + 1, s[i + 1..close.value])
    else NoMatch
  }

  function SingleQuotedValue(s: string, i: nat): Match { QuotedValue(s, i, '\'') }
  function DoubleQuotedValue(s: string, i: nat): Match { QuotedValue(s, i, '"') }

  function UnquotedValue(s: string, i: nat): Match {
    if i <= |s| then Match(Span(s, i, InLine), s[i..Span(s, i, InLine)]) else NoMatch
  }

  function Comment(s: string, i: nat): Match {
    if i <= |s| then Match(CommentEnd(s, i), "") else NoMatch
  }

  function EndOfLine(s: string, i: nat): Match {
    if i <= |s| && LineEnd(s, Span(s, i, IsBlank)) then Match(BreakEnd(s, Span(s, i, IsBlank)), "") else NoMatch
  }

  function RestOfLine(s: string, i: nat): Match {
    if i <= |s| then Match(Recover(s, i), "") else NoMatch
  }
}
