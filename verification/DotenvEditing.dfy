/**
 Setting and unsetting one key of a .env text: what `set_key` and `unset_key` write to their destination.
 */
module DotenvEditing {
  import opened Options
  import opened DotenvGrammar
  import opened DotenvReader
  import opened DotenvLocality
  import opened DotenvBindings
  import opened DotenvParser
  import opened DotenvRewriting
  import opened DotenvStream
  import opened DotenvWriting

  // ----- what is written -----

  /** Whether str.isalnum holds, given what it says of one character. */
  predicate AllAlnum(v: string, alnum: char -> bool) {
    v != "" && forall c <- v :: alnum(c)
  }

  predicate KnownMode(mode: string) {
    mode == "always" || mode == "auto" || mode == "never"
  }

  /** Whether the value is written in quotes. */
  predicate Quotes(v: string, mode: string, alnum: char -> bool) {
    mode == "always" || (mode == "auto" && !AllAlnum(v, alnum))
  }

  function ValueOut(v: string, mode: string, alnum: char -> bool): string {
    if Quotes(v, mode, alnum) then Quoted(v) else v
  }

  predicate LacksNewline(s: string) {
    s != "" && s[|s| - 1] != '\n'
  }

  /** A source that does not end its last line has that line ended before another one is appended. */
  function Ending(s: string): string {
    if LacksNewline(s) then "\n" else ""
  }

  ghost function Appended(p: Parser, s: string, key: string, line: string): string
    requires Advances(p)
  {
    if Mentions(p, s, 0, key) then "" else Ending(s) + line
  }

  ghost function SetText(p: Parser, s: string, key: string, line: string): string
    requires Advances(p)
  {
    Rewrite(p, s, 0, key, line) + Appended(p, s, key, line)
  }

  /** Where the key is not mentioned, a text is copied as it is. */
  lemma {:induction false} UnmentionedIsCopied(p: Parser, s: string, i: nat, key: string, line: string)
    requires Advances(p) && i <= |s| && !Mentions(p, s, i, key)
    ensures Rewrite(p, s, i, key, line) == s[i..]
    decreases |s| - i
  {
    if i < |s| {
      UnmentionedIsCopied(p, s, p(s, i).end, key, line);
      Rejoin(s, i, p(s, i).end);
    }
  }

  lemma SetTextCases(p: Parser, s: string, key: string, line: string)
    requires Advances(p)
    ensures Mentions(p, s, 0, key) ==> SetText(p, s, key, line) == Rewrite(p, s, 0, key, line)
    ensures !Mentions(p, s, 0, key) ==>
      SetText(p, s, key, line) == (if LacksNewline(s) then s + "\n" else s) + line
  {
    if !Mentions(p, s, 0, key) {
      UnmentionedIsCopied(p, s, 0, key, line);
      Regroup(s, Ending(s), line);
      assert s + "" == s;
    }
  }

  // ----- the same, said of the bindings and character by character -----

  /** The texts of the bindings one after the other, with the line in place of those of the key. */
  function Edited(bs: seq<Binding>, key: string, line: string): string {
    if bs == [] then ""
    else (if bs[0].key == Some(key) then line else bs[0].original.text) + Edited(bs[1..], key, line)
  }

  predicate Binds(bs: seq<Binding>, key: string) {
    exists b <- bs :: b.key == Some(key)
  }

  lemma {:induction false} RewriteEdits(p: Parser, s: string, i: nat, at: nat, key: string, line: string)
    requires Advances(p) && i <= |s|
    ensures Rewrite(p, s, i, key, line) == Edited(BindingsFrom(p, s, i, at), key, line)
    ensures Mentions(p, s, i, key) <==> Binds(BindingsFrom(p, s, i, at), key)
    decreases |s| - i
  {
    if i < |s| {
      var b, e := BindingAt(p, s, i, at), p(s, i).end;
      var next := at + Newlines(b.original.text);
      RewriteEdits(p, s, e, next, key, line);
      var rest := BindingsFrom(p, s, e, next);
      assert BindingsFrom(p, s, i, at) == [b] + rest && ([b] + rest)[1..] == rest;
      assert forall x :: x in [b] + rest <==> x == b || x in rest;
    }
  }

  /** What is shown of a value: the value itself, or in single quotes that are escaped inside. */
  function Shown(value: string, mode: string, alnum: char -> bool): string {
    if mode == "never" || (mode == "auto" && value != "" && forall c <- value :: alnum(c)) then value
    else "'" + Escape(value) + "'"
  }

  /** The line has `export`, key, `=`, value and line feed, and nothing else. */
  predicate IsLineFor(line: string, key: string, value: string, mode: string, export_: bool, alnum: char -> bool) {
    line == (if export_ then "export " else "") + key + "=" + Shown(value, mode, alnum) + "\n"
  }

  /** Whether it is exported shows in how the line starts. */
  predicate StartsLike(line: string, key: string, export_: bool) {
    && ("export " <= line <==> export_)
    && key + "=" <= line[if export_ then |"export "| else 0..]
  }

  lemma LineStarts(line: string, key: string, tail: string, export_: bool)
    requires WellFormedKey(key) && line == (if export_ then "export " else "") + key + "=" + tail
    ensures StartsLike(line, key, export_)
  {
    if export_ {
      assert line == "export " + ((key + "=") + tail);
    } else {
      assert line == (key + "=") + tail;
      assert line[|key|] == '=' && (|key| > 6 ==> line[6] == key[6] && key[6] in key);
      assert "export "[6] == ' ' && forall k :: 0 <= k < 7 ==> "export "[k] != '=';
    }
  }

  // ----- the loops -----

  /** The state of a loop over the bindings of `s` that has come to place `i`, with `rest` still ahead. */
  ghost predicate Rewriting(p: Parser, s: string, key: string, line: string,
                            i: nat, at: nat, rest: seq<Binding>, dest: string, found: bool)
    requires Advances(p)
  {
    && i <= |s| && rest == BindingsFrom(p, s, i, at)
    && dest + Rewrite(p, s, i, key, line) == Rewrite(p, s, 0, key, line)
    && (found || Mentions(p, s, i, key)) == Mentions(p, s, 0, key)
    && (!found ==> dest == s[..i])
  }

  lemma RewritingStep(p: Parser, s: string, key: string, line: string,
                      i: nat, at: nat, rest: seq<Binding>, dest: string, found: bool)
    requires Advances(p) && Rewriting(p, s, key, line, i, at, rest, dest, found) && rest != []
    ensures i < |s| && i < p(s, i).end <= |s|
    ensures rest[0].key == p(s, i).key && rest[0].original.text == s[i..p(s, i).end]
    ensures rest[0].key == Some(key) ==>
      Rewriting(p, s, key, line, p(s, i).end, at + Newlines(rest[0].original.text), rest[1..], dest + line, true)
    ensures rest[0].key != Some(key) ==>
      Rewriting(p, s, key, line, p(s, i).end, at + Newlines(rest[0].original.text), rest[1..],
                dest + rest[0].original.text, found)
  {
    var e := p(s, i).end;
    assert rest[1..] == BindingsFrom(p, s, e, at + Newlines(rest[0].original.text));
    if rest[0].key == Some(key) {
      Regroup(dest, line, Rewrite(p, s, e, key, line));
    } else {
      Regroup(dest, s[i..e], Rewrite(p, s, e, key, line));
      assert s[..i] + s[i..e] == s[..e];
    }
  }

  /** The same, with the bindings still ahead given by the place in the list. */
  ghost predicate RewritingAt(p: Parser, s: string, key: string, line: string, bindings: seq<Binding>, n: nat,
                              i: nat, at: nat, dest: string, found: bool, missing: bool)
    requires Advances(p)
  {
    && n <= |bindings| && Rewriting(p, s, key, line, i, at, bindings[n..], dest, found)
    && (!found ==> missing == LacksNewline(dest))
  }

  lemma RewritingNext(p: Parser, s: string, key: string, line: string, bindings: seq<Binding>, n: nat,
                      i: nat, at: nat, dest: string, found: bool, missing: bool) returns (i': nat, at': nat)
    requires Advances(p) && n < |bindings|
    requires RewritingAt(p, s, key, line, bindings, n, i, at, dest, found, missing)
    ensures bindings[n].key == Some(key) ==>
      RewritingAt(p, s, key, line, bindings, n + 1, i', at', dest + line, true, missing)
    ensures bindings[n].key != Some(key) ==>
      RewritingAt(p, s, key, line, bindings, n + 1, i', at', dest + bindings[n].original.text, found,
                  LacksNewline(bindings[n].original.text))
  {
    var rest, next := bindings[n..], bindings[n + 1..];
    assert rest != [] && rest[0] == bindings[n] && rest[1..] == next;
    RewritingStep(p, s, key, line, i, at, rest, dest, found);
    i', at' := p(s, i).end, at + Newlines(bindings[n].original.text);
  }

  lemma RewritingDone(p: Parser, s: string, key: string, line: string,
                      i: nat, at: nat, dest: string, found: bool)
    requires Advances(p) && Rewriting(p, s, key, line, i, at, [], dest, found)
    ensures i == |s| && dest == Rewrite(p, s, 0, key, line) && found == Mentions(p, s, 0, key)
    ensures !found ==> dest == s
  {
  }

  method LineOut(key: string, value: string, mode: string, export_: bool, alnum: char -> bool) returns (line: string)
    ensures line == LineText(key, ValueOut(value, mode, alnum), export_)
    ensures KnownMode(mode) ==> IsLineFor(line, key, value, mode, export_, alnum)
    ensures WellFormedKey(key) ==> StartsLike(line, key, export_)
  {
    var quote := mode == "always" || (mode == "auto" && !AllAlnum(value, alnum));
    var valueOut;
    if quote {
      valueOut := "'" + Escape(value) + "'";
    } else {
      valueOut := value;
    }
    if export_ {
      line := "export " + key + "=" + valueOut + "\n";
    } else {
      line := key + "=" + valueOut + "\n";
    }
    if WellFormedKey(key) { LineStarts(line, key, valueOut + "\n", export_); }
  }

  /** Copies all bindings but those of the key, which are replaced. */
  method WriteBindings(source: string, key: string, lineOut: string, ghost p: Parser)
    returns (dest: string, replaced: bool, missingNewline: bool)
    requires Advances(p) && IsParse(p)
    ensures dest == Rewrite(p, source, 0, key, lineOut) && replaced == Mentions(p, source, 0, key)
    ensures !replaced ==> dest == source && missingNewline == LacksNewline(source)
  {
    dest := "";
    replaced := false;
    missingNewline := false;
    var bindings := ParseStream(source, p);
    ghost var i: nat, at: nat := 0, 1;
    var n := 0;
    while n < |bindings|
      invariant RewritingAt(p, source, key, lineOut, bindings, n, i, at, dest, replaced, missingNewline)
    {
      var mapping := bindings[n];
      i, at := RewritingNext(p, source, key, lineOut, bindings, n, i, at, dest, replaced, missingNewline);
      if mapping.key == Some(key) {
        dest := dest + lineOut;
        replaced := true;
      } else {
        dest := dest + mapping.original.text;
        missingNewline := LacksNewline(mapping.original.text);
      }
      n := n + 1;
    }
    RewritingDone(p, source, key, lineOut, i, at, dest, replaced);
  }

  method SetKey(source: string, key: string, value: string, mode: string, export_: bool,
                alnum: char -> bool, ghost p: Parser)
    returns (dest: Result<string>)
    requires Advances(p) && IsParse(p)
    ensures if KnownMode(mode) then
        dest == Ok(SetText(p, source, key, LineText(key, ValueOut(value, mode, alnum), export_)))
      else dest.Failed?
    ensures KnownMode(mode) ==>
      exists line ::
        && IsLineFor(line, key, value, mode, export_, alnum) && (WellFormedKey(key) ==> StartsLike(line, key, export_))
        && var bs := BindingsFrom(p, source, 0, 1);
        dest == Ok(Edited(bs, key, line) + if Binds(bs, key) then "" else
                     (if source != "" && source[|source| - 1] != '\n' then "\n" else "") + line)
  {
    if mode != "always" && mode != "auto" && mode != "never" {
      return Failed;
    }
    var lineOut := LineOut(key, value, mode, export_, alnum);
    var written, replaced, missingNewline := WriteBindings(source, key, lineOut, p);
    SetTextCases(p, source, key, lineOut);
    RewriteEdits(p, source, 0, 1, key, lineOut);
    if !replaced {
      if missingNewline {
        written := written + "\n";
      }
      written := written + lineOut;
    }
    return Ok(written);
  }

  /** The text without the key, and whether it was there. */
  method UnsetKey(source: string, key: string, ghost p: Parser) returns (dest: string, removed: bool)
    requires Advances(p) && IsParse(p)
    ensures dest == Rewrite(p, source, 0, key, "") && removed == Mentions(p, source, 0, key)
    ensures var bs := BindingsFrom(p, source, 0, 1); dest == Edited(bs, key, "") && removed == Binds(bs, key)
    ensures !removed ==> dest == source
  {
    RewriteEdits(p, source, 0, 1, key, "");
    removed := false;
    dest := "";
    var bindings := ParseStream(source, p);
    ghost var i: nat, at: nat := 0, 1;
    var n := 0;
    while n < |bindings|
      invariant RewritingAt(p, source, key, "", bindings, n, i, at, dest, removed, LacksNewline(dest))
    {
      var mapping := bindings[n];
      i, at := RewritingNext(p, source, key, "", bindings, n, i, at, dest, removed, LacksNewline(dest));
      if mapping.key == Some(key) {
        removed := true;
        assert dest + "" == dest;
      } else {
        dest := dest + mapping.original.text;
      }
      n := n + 1;
    }
    RewritingDone(p, source, key, "", i, at, dest, removed);
  }

  // ----- what the written text says, by any local parser -----

  /** Every pair of the key gets the value, where it stands. */
  function Rebound(ps: seq<Pair>, key: string, v: Option<string>): seq<Pair> {
    seq(|ps|, k requires 0 <= k < |ps| => if ps[k].0 == key then (key, v) else ps[k])
  }

  function Without(ps: seq<Pair>, key: string): seq<Pair> {
    if ps == [] then [] else if ps[0].0 == key then Without(ps[1..], key) else [ps[0]] + Without(ps[1..], key)
  }

  lemma {:induction false} ReplacedIsRebound(ps: seq<Pair>, key: string, v: Option<string>)
    ensures Replaced(ps, key, [(key, v)]) == Rebound(ps, key, v)
  {
    if ps != [] { ReplacedIsRebound(ps[1..], key, v); }
  }

  lemma {:induction false} ReplacedIsWithout(ps: seq<Pair>, key: string)
    ensures Replaced(ps, key, []) == Without(ps, key)
  {
    if ps != [] { ReplacedIsWithout(ps[1..], key); }
  }

  /** The pairs name the key exactly if a binding does. */
  lemma {:induction false} MentionedInPairs(p: Parser, s: string, i: nat, key: string)
    requires Advances(p) && i <= |s|
    ensures Mentions(p, s, i, key) <==> exists pair <- Pairs(p, s, i) :: pair.0 == key
    decreases |s| - i
  {
    if i < |s| {
      var e := p(s, i).end;
      MentionedInPairs(p, s, e, key);
      assert forall pair :: pair in Pairs(p, s, i) <==> pair in Own(p(s, i)) || pair in Pairs(p, s, e);
    }
  }

  lemma {:induction false} UnnamedIsKept(ps: seq<Pair>, key: string, said: seq<Pair>)
    requires forall pair <- ps :: pair.0 != key
    ensures Replaced(ps, key, said) == ps
  {
    if ps != [] {
      assert ps[0] in ps;
      UnnamedIsKept(ps[1..], key, said);
    }
  }

  lemma EndingIsSpace(s: string, line: string, t: string)
    requires t == s + (Ending(s) + line)
    ensures |s| <= |t| - |line| && Spaces(t, |s|, |t| - |line|) && Mirror(line, 0, |line|, t, |t| - |line|)
  {
    var k := |t| - |line|;
    forall x | 0 <= x < |line| ensures t[x + k] == line[x] {}
    if LacksNewline(s) { assert t[|s|] == '\n'; }
  }

  lemma AppendedPairs(p: Parser, trust: Trust, stop: Stop, s: string, line: string, said: seq<Pair>, t: string)
    requires Local(p, trust, stop) && Says(p, trust, stop, line, said) && t == s + (Ending(s) + line)
    ensures Pairs(p, t, |s|) == said && Tidy(p, trust, t, |s|)
  {
    var k: nat := |t| - |line|;
    assert k <= |t| && Spaces(t, |s|, k) && Mirror(line, 0, |line|, t, k) by { EndingIsSpace(s, line, t); }
    assert Pairs(p, t, k) == said && Tidy(p, trust, t, k) by {
      WrittenLine(p, trust, stop, line, said, t, k);
      assert k + |line| == |t|;
      assert Pairs(p, t, |t|) == [];
      assert said + [] == said;
    }
    SkipSpaces(p, trust, t, |s|, k);
  }

  lemma SetPairsBy(p: Parser, trust: Trust, stop: Stop, s: string, key: string, line: string, said: seq<Pair>)
    requires Local(p, trust, stop) && Tidy(p, trust, s, 0) && Says(p, trust, stop, line, said)
    ensures Pairs(p, SetText(p, s, key, line), 0)
         == if Mentions(p, s, 0, key) then Replaced(Pairs(p, s, 0), key, said) else Pairs(p, s, 0) + said
    ensures Tidy(p, trust, SetText(p, s, key, line), 0)
  {
    var t := SetText(p, s, key, line);
    var tail := Appended(p, s, key, line);
    RewrittenPairs(p, trust, stop, s, 0, key, line, said, tail, t, 0);
    if !Mentions(p, s, 0, key) {
      MentionedInPairs(p, s, 0, key);
      UnnamedIsKept(Pairs(p, s, 0), key, said);
      UnmentionedIsCopied(p, s, 0, key, line);
      assert s[0..] == s;
      AppendedPairs(p, trust, stop, s, line, said, t);
    }
  }

  /** A tidy text in front of another that starts with a line end, or of one if it ends its own line. */
  lemma FrontPairs(p: Parser, trust: Trust, stop: Stop, s: string, key: string, line: string, t: string)
    requires Local(p, trust, stop) && Tidy(p, trust, s, 0) && !Mentions(p, s, 0, key)
    requires t == s + (Ending(s) + line)
    ensures Pairs(p, t, 0) == Pairs(p, s, 0) + Pairs(p, t, |s|)
  {
    UnmentionedIsCopied(p, s, 0, key, "");
    RewrittenPairs(p, trust, stop, s, 0, key, "", [], Ending(s) + line, t, 0);
    MentionedInPairs(p, s, 0, key);
    UnnamedIsKept(Pairs(p, s, 0), key, []);
  }

  /** A tidy text that does not name the key, with one more line that is read as a whole, trusted or not. */
  lemma NewLinePairs(p: Parser, trust: Trust, stop: Stop, s: string, key: string, line: string, t: string, k: nat)
    requires Local(p, trust, stop) && Tidy(p, trust, s, 0) && !Mentions(p, s, 0, key)
    requires t == s + (Ending(s) + line) && line != "" && k == |t| - |line| && p(t, k).end == |t|
    ensures Pairs(p, t, 0) == Pairs(p, s, 0) + Own(p(t, k))
  {
    FrontPairs(p, trust, stop, s, key, line, t);
    EndingIsSpace(s, line, t);
    SkipSpaces(p, trust, t, |s|, k);
    assert Own(p(t, k)) + [] == Own(p(t, k));
  }

  lemma UnsetPairsBy(p: Parser, trust: Trust, stop: Stop, s: string, key: string)
    requires Local(p, trust, stop) && Tidy(p, trust, s, 0)
    ensures Pairs(p, Rewrite(p, s, 0, key, ""), 0) == Without(Pairs(p, s, 0), key)
    ensures Tidy(p, trust, Rewrite(p, s, 0, key, ""), 0)
  {
    var t := Rewrite(p, s, 0, key, "");
    assert t + "" == t;
    RewrittenPairs(p, trust, stop, s, 0, key, "", [], "", t, 0);
    ReplacedIsWithout(Pairs(p, s, 0), key);
  }
}
