/**
 Resolving the values of a .env text one after the other: a variable stands for an earlier value or for one of
 the environment.
 */
module DotenvResolve {
  import opened Options
  import opened DotenvVariables
  import opened DotenvGrammar
  import opened DotenvRewriting
  import opened DotenvWriting
  import opened DotenvEditing
  import opened DotenvTheorems

  type Env = map<string, Option<string>>

  function Update(env: Env, environ: map<string, string>): Env {
    env + map name | name in environ :: Some(environ[name])
  }

  /** What variables are looked up in: the winner comes last. */
  function Lookup(values: Env, environ: map<string, string>, override: bool): Env {
    if override then Update(map[], environ) + values else Update(values, environ)
  }

  function JoinResolved(atoms: seq<Atom>, env: Env): string {
    if atoms == [] then "" else atoms[0].Resolve(env) + JoinResolved(atoms[1..], env)
  }

  ghost function ResolveValue(value: Option<string>, values: Env, environ: map<string, string>, override: bool)
    : Option<string>
  {
    PatternIsProper();
    if value.None? then None
    else Some(JoinResolved(Atoms(MatchAt, value.value, 0), Lookup(values, environ, override)))
  }

  ghost function Resolved(pairs: seq<Pair>, values: Env, environ: map<string, string>, override: bool): Env
    decreases |pairs|
  {
    if pairs == [] then values
    else
      var value := ResolveValue(pairs[0].1, values, environ, override);
      Resolved(pairs[1..], values[pairs[0].0 := value], environ, override)
  }

  /** The names in the order in which they come first. */
  function Names(pairs: seq<Pair>): seq<string> {
    if pairs == [] then []
    else
      var before, name := Names(pairs[..|pairs| - 1]), pairs[|pairs| - 1].0;
      if name in before then before else before + [name]
  }

  lemma NamesMore(pairs: seq<Pair>, n: nat)
    requires n < |pairs|
    ensures Names(pairs[..n + 1])
         == Names(pairs[..n]) + if pairs[n].0 in Names(pairs[..n]) then [] else [pairs[n].0]
  {
    assert pairs[..n + 1][..n] == pairs[..n];
  }

  /** The first pair of a name. */
  function FirstOf(pairs: seq<Pair>, name: string): (k: nat)
    ensures k <= |pairs| && (k < |pairs| ==> pairs[k].0 == name)
    ensures forall j :: 0 <= j < k ==> pairs[j].0 != name
  {
    if pairs == [] || pairs[0].0 == name then 0
    else
      assert forall j :: 0 < j < |pairs| ==> pairs[1..][j - 1] == pairs[j];
      1 + FirstOf(pairs[1..], name)
  }

  /** Every name is there once, and a name that comes first stands first. */
  lemma {:induction false} NamesInOrder(pairs: seq<Pair>)
    ensures forall pair <- pairs :: pair.0 in Names(pairs)
    ensures forall i :: 0 <= i < |Names(pairs)| ==> FirstOf(pairs, Names(pairs)[i]) < |pairs|
    ensures forall i, j :: 0 <= i < j < |Names(pairs)| ==>
      FirstOf(pairs, Names(pairs)[i]) < FirstOf(pairs, Names(pairs)[j])
  {
    if pairs != [] {
      var front, last := pairs[..|pairs| - 1], |pairs| - 1;
      NamesInOrder(front);
      assert pairs == front + [pairs[last]];
      forall name | FirstOf(front, name) < |front| ensures FirstOf(pairs, name) == FirstOf(front, name) {
        FirstOfFront(front, pairs[last], name);
      }
      if pairs[last].0 !in Names(front) {
        assert FirstOf(pairs, pairs[last].0) == last by {
          forall j | 0 <= j < last ensures pairs[j].0 != pairs[last].0 { assert front[j] in front; }
        }
      }
    }
  }

  lemma FirstOfFront(front: seq<Pair>, pair: Pair, name: string)
    requires FirstOf(front, name) < |front|
    ensures FirstOf(front + [pair], name) == FirstOf(front, name)
  {
    assert forall j :: 0 <= j < |front| ==> (front + [pair])[j] == front[j];
  }

  lemma {:induction false} JoinAppend(a: seq<Atom>, b: Atom, env: Env)
    ensures JoinResolved(a + [b], env) == JoinResolved(a, env) + b.Resolve(env)
  {
    if a == [] {
      assert [b][1..] == [];
    } else {
      JoinAppend(a[1..], b, env);
      assert (a + [b])[1..] == a[1..] + [b];
      Regroup(a[0].Resolve(env), JoinResolved(a[1..], env), b.Resolve(env));
    }
  }

  /** The dictionary: a name that is assigned again keeps its place, and `order` lists the names by their places. */
  method ResolveVariables(pairs: seq<Pair>, environ: map<string, string>, override: bool)
    returns (newValues: Env, order: seq<string>)
    ensures newValues == Resolved(pairs, map[], environ, override) && order == Names(pairs)
    ensures forall name :: name in newValues <==> name in order
  {
    newValues := map[];
    order := [];
    var n := 0;
    while n < |pairs|
      invariant n <= |pairs| && order == Names(pairs[..n])
      invariant Resolved(pairs[n..], newValues, environ, override) == Resolved(pairs, map[], environ, override)
      invariant forall name :: name in newValues <==> name in order
    {
      var (name, value) := pairs[n];
      var result: Option<string>;
      if value.None? {
        result := None;
      } else {
        var env: Env;
        if override {
          env := Update(map[], environ) + newValues;
        } else {
          env := Update(newValues, environ);
        }
        var text := Interpolate(value.value, env);
        result := Some(text);
      }
      assert result == ResolveValue(value, newValues, environ, override);
      assert pairs[n..][0] == pairs[n] && pairs[n..][1..] == pairs[n + 1..];
      NamesMore(pairs, n);
      if name !in newValues {
        order := order + [name];
      }
      newValues := newValues[name := result];
      n := n + 1;
    }
    assert pairs[..n] == pairs;
  }

  method Interpolate(value: string, env: Env) returns (text: string)
    ensures Proper(MatchAt) && text == JoinResolved(Atoms(MatchAt, value, 0), env)
  {
    var atoms := ParseVariables(value);
    PatternIsProper();
    AtomsTile(MatchAt, value, 0);
    TilesUnique(MatchAt, value, 0, atoms, Atoms(MatchAt, value, 0));
    text := Join(atoms, env);
  }

  method Join(atoms: seq<Atom>, env: Env) returns (text: string)
    ensures text == JoinResolved(atoms, env)
  {
    text := "";
    var n := 0;
    while n < |atoms|
      invariant n <= |atoms| && text == JoinResolved(atoms[..n], env)
    {
      JoinAppend(atoms[..n], atoms[n], env);
      assert atoms[..n] + [atoms[n]] == atoms[..n + 1];
      text := text + atoms[n].Resolve(env);
      n := n + 1;
    }
    assert atoms[..n] == atoms;
  }

  // ----- values without variables -----

  ghost predicate NoVariable(v: string) {
    forall k :: 0 <= k < |v| ==> MatchAt(v, k).Miss?
  }

  lemma DollarFree(v: string)
    requires '$' !in v
    ensures NoVariable(v)
  {
  }

  /** A value without variables stands for itself, whatever the environment. */
  lemma PlainValue(v: string, values: Env, environ: map<string, string>, override: bool)
    requires NoVariable(v)
    ensures ResolveValue(Some(v), values, environ, override) == Some(v)
  {
    var atoms := if v == "" then [] else [Literal(v)];
    PatternIsProper();
    assert v[0..|v|] == v;
    assert v != "" ==> atoms[1..] == [];
    assert JoinResolved(atoms, Lookup(values, environ, override)) == v;
    assert Tiles(MatchAt, v, 0, atoms);
    AtomsTile(MatchAt, v, 0);
    TilesUnique(MatchAt, v, 0, atoms, Atoms(MatchAt, v, 0));
  }

  lemma {:induction false} VariableIsThere(m: Pattern, v: string, i: nat, atoms: seq<Atom>, k: nat) returns (j: nat)
    requires Tiles(m, v, i, atoms) && i <= k < |v| && m(v, k).Hit?
    requires Proper(m) && forall x :: i <= x < k ==> m(v, x).Miss?
    ensures j < |atoms| && atoms[j].Variable?
    decreases |atoms|
  {
    if atoms[0].Variable? {
      j := 0;
    } else {
      j := VariableIsThere(m, v, i + |atoms[0].value|, atoms[1..], k);
      j := j + 1;
    }
  }

  lemma {:induction false} JoinHolds(atoms: seq<Atom>, env: Env, j: nat)
    requires j < |atoms|
    ensures |JoinResolved(atoms, env)| >= |atoms[j].Resolve(env)|
  {
    if j > 0 { JoinHolds(atoms[1..], env, j - 1); }
  }

  /** A variable can stand for a text that is longer than the value it occurs in. */
  lemma VariableShows(v: string, override: bool) returns (environ: map<string, string>)
    requires !NoVariable(v)
    ensures ResolveValue(Some(v), map[], environ, override) != Some(v)
  {
    PatternIsProper();
    AtomsTile(MatchAt, v, 0);
    var atoms := Atoms(MatchAt, v, 0);
    var j := VariableIsThere(MatchAt, v, 0, atoms, Find(MatchAt, v, 0));
    var long: string := seq(|v| + 1, _ => 'x');
    environ := map[atoms[j].name := long];
    var env := Lookup(map[], environ, override);
    assert env[atoms[j].name] == Some(long);
    JoinHolds(atoms, env, j);
  }

  /** Exactly the values without variables stand for themselves in every environment. */
  lemma PlainValueIff(v: string, override: bool)
    ensures NoVariable(v) <==>
      forall environ: map<string, string> :: ResolveValue(Some(v), map[], environ, override) == Some(v)
  {
    if NoVariable(v) {
      forall environ: map<string, string> ensures ResolveValue(Some(v), map[], environ, override) == Some(v) {
        PlainValue(v, map[], environ, override);
      }
    } else {
      var environ := VariableShows(v, override);
    }
  }

  // ----- texts without variables -----

  /** The last value of each key. */
  function LastValues(pairs: seq<Pair>, values: Env): Env
    decreases |pairs|
  {
    if pairs == [] then values else LastValues(pairs[1..], values[pairs[0].0 := pairs[0].1])
  }

  lemma {:induction false} PlainPairs(pairs: seq<Pair>, values: Env, environ: map<string, string>, override: bool)
    requires forall pair <- pairs :: pair.1.Some? ==> NoVariable(pair.1.value)
    ensures Resolved(pairs, values, environ, override) == LastValues(pairs, values)
    decreases |pairs|
  {
    if pairs != [] {
      assert pairs[0] in pairs;
      if pairs[0].1.Some? { PlainValue(pairs[0].1.value, values, environ, override); }
      PlainPairs(pairs[1..], values[pairs[0].0 := pairs[0].1], environ, override);
    }
  }

  lemma {:induction false} SingleDollarFree(t: string)
    requires '$' !in t
    ensures '$' !in DecodeSingle(t)
    decreases |t|
  {
    if |t| > 1 && t[0] == '\\' && t[1] in "\\'" {
      SingleDollarFree(t[2..]);
    } else if t != "" {
      SingleDollarFree(t[1..]);
    }
  }

  lemma {:induction false} DoubleDollarFree(t: string)
    requires '$' !in t
    ensures '$' !in DecodeDouble(t)
    decreases |t|
  {
    if |t| > 1 && t[0] == '\\' && t[1] in "\\'\"abfnrtv" {
      DoubleDollarFree(t[2..]);
    } else if t != "" {
      DoubleDollarFree(t[1..]);
    }
  }

  lemma {:induction false} CutDollarFree(t: string, i: nat)
    requires '$' !in t && i <= |t|
    ensures '$' !in CutComment(t, i)
    decreases |t| - i
  {
    if i < |t| { CutDollarFree(t, i + 1); }
  }

  lemma {:induction false} StrippedDollarFree(t: string)
    requires '$' !in t
    ensures '$' !in StripRight(t)
  {
    if t != "" { StrippedDollarFree(t[..|t| - 1]); }
  }

  lemma ReadDollarFree(raw: string)
    requires '$' !in raw
    ensures '$' !in Decode(raw)
  {
    if |raw| > 1 {
      SingleDollarFree(raw[1..|raw| - 1]);
      DoubleDollarFree(raw[1..|raw| - 1]);
    }
    CutDollarFree(raw, 0);
    StrippedDollarFree(CutComment(raw, 0));
  }

  lemma ParsedDollarFree(s: string, i: nat)
    requires '$' !in s && i < |s| && Parse(s, i).value.Some?
    ensures '$' !in Parse(s, i).value.value
  {
    var line := ScanLine(s, Span(s, i, IsSpace));
    ReadDollarFree(s[line.value.value.from..line.value.value.to]);
  }

  lemma {:induction false} PairsDollarFree(p: Parser, s: string, i: nat)
    requires Advances(p) && i <= |s|
    requires forall m: nat {:trigger p(s, m)} :: m < |s| && p(s, m).value.Some? ==> '$' !in p(s, m).value.value
    ensures forall pair <- Pairs(p, s, i) :: pair.1.Some? ==> '$' !in pair.1.value
    decreases |s| - i
  {
    if i < |s| { PairsDollarFree(p, s, p(s, i).end); }
  }

  /** A text without a `$` resolves to the last value of each key, whatever the environment. */
  lemma DollarFreeText(s: string, environ: map<string, string>, override: bool)
    requires '$' !in s
    ensures Resolved(Said(s), map[], environ, override) == LastValues(Said(s), map[])
  {
    ParseAdvances();
    forall m: nat | m < |s| && Parse(s, m).value.Some? ensures '$' !in Parse(s, m).value.value {
      ParsedDollarFree(s, m);
    }
    PairsDollarFree(Parse, s, 0);
    forall pair | pair in Said(s) && pair.1.Some? ensures NoVariable(pair.1.value) { DollarFree(pair.1.value); }
    PlainPairs(Said(s), map[], environ, override);
  }

  // ----- the last value of a key -----

  /** Where a key occurs again the last binding counts, with what the bindings before it have come to. */
  lemma {:induction false} LastWins(pairs: seq<Pair>, k: nat, values: Env, environ: map<string, string>, override: bool)
    requires k < |pairs| && forall j :: k < j < |pairs| ==> pairs[j].0 != pairs[k].0
    ensures var r := Resolved(pairs, values, environ, override);
      var before := Resolved(pairs[..k], values, environ, override);
      pairs[k].0 in r && r[pairs[k].0] == ResolveValue(pairs[k].1, before, environ, override)
    decreases |pairs|
  {
    var next := values[pairs[0].0 := ResolveValue(pairs[0].1, values, environ, override)];
    if k > 0 {
      LastWins(pairs[1..], k - 1, next, environ, override);
      assert pairs[..k][1..] == pairs[1..][..k - 1];
    } else {
      Untouched(pairs[1..], pairs[0].0, next, environ, override);
    }
  }

  lemma {:induction false} Untouched(
      pairs: seq<Pair>, key: string, values: Env, environ: map<string, string>, override: bool)
    requires key in values && forall pair <- pairs :: pair.0 != key
    ensures var r := Resolved(pairs, values, environ, override); key in r && r[key] == values[key]
    decreases |pairs|
  {
    if pairs != [] {
      assert pairs[0] in pairs;
      var next := values[pairs[0].0 := ResolveValue(pairs[0].1, values, environ, override)];
      Untouched(pairs[1..], key, next, environ, override);
    }
  }

  lemma {:induction false} LastIndex(pairs: seq<Pair>, key: string) returns (k: nat)
    requires exists pair <- pairs :: pair.0 == key
    ensures k < |pairs| && pairs[k].0 == key && forall j :: k < j < |pairs| ==> pairs[j].0 != key
    decreases |pairs|
  {
    if exists pair <- pairs[1..] :: pair.0 == key {
      k := LastIndex(pairs[1..], key);
      forall j | k + 1 < j < |pairs| ensures pairs[j].0 != key { assert pairs[j] == pairs[1..][j - 1]; }
      k := k + 1;
    } else {
      forall j | 0 < j < |pairs| ensures pairs[j].0 != key { assert pairs[j] == pairs[1..][j - 1]; }
      k := 0;
    }
  }

  /** Getting a key after setting it to a value without variables gives that value. */
  lemma GetAfterSet(s: string, key: string, v: string, mode: string, export_: bool, alnum: char -> bool,
                    environ: map<string, string>, override: bool)
    requires KnownMode(mode) && WellFormedKey(key) && Suits(v, mode, alnum) && IsTidy(s)
    requires NoVariable(v)
    ensures var r := Resolved(Said(Set(s, key, v, mode, export_, alnum)), map[], environ, override);
      key in r && r[key] == Some(v)
  {
    SetThenParse(s, key, v, mode, export_, alnum);
    var pairs := Said(Set(s, key, v, mode, export_, alnum));
    SetPairsHoldKey(Said(s), key, v, pairs);
    var k := LastIndex(pairs, key);
    LastWins(pairs, k, map[], environ, override);
    PlainValue(v, Resolved(pairs[..k], map[], environ, override), environ, override);
  }

  lemma SetPairsHoldKey(before: seq<Pair>, key: string, v: string, after: seq<Pair>)
    requires after == Bound(before, key, v)
    ensures exists pair <- after :: pair.0 == key
    ensures forall pair <- after :: pair.0 == key ==> pair.1 == Some(v)
  {
    if exists pair <- before :: pair.0 == key {
      var k :| 0 <= k < |before| && before[k].0 == key;
      assert after[k].0 == key && after[k] in after;
    } else {
      assert after[|before|] == (key, Some(v)) && after[|before|] in after;
    }
  }

  // ----- which definition a variable gets -----

  /** Earlier values of the text come first if they override, the environment comes first if they do not. */
  lemma VariableMeans(name: string, default: Option<string>, values: Env, environ: map<string, string>, override: bool)
    ensures var found := Variable(name, default).Resolve(Lookup(values, environ, override));
      && (name in values && (override || name !in environ) ==>
            found == if values[name].Some? then values[name].value else "")
      && (name in environ && (!override || name !in values) ==> found == environ[name])
      && (name !in values && name !in environ ==> found == if default.Some? then default.value else "")
  {
  }

  // ----- what a value with variables comes to -----

  function TextOr(value: Option<string>, otherwise: string): string {
    if value.Some? then value.value else otherwise
  }

  /** What an atom stands for behind bindings that have come to `before`: whoever overrides is asked first, then the
      other, then the default; a name without a value is the empty text. */
  function StandsFor(a: Atom, before: Env, environ: map<string, string>, override: bool): string {
    match a
    case Literal(text) => text
    case Variable(name, default) =>
      if override && name in before then TextOr(before[name], "")
      else if name in environ then environ[name]
      else if name in before then TextOr(before[name], "")
      else TextOr(default, "")
  }

  function AllStandFor(atoms: seq<Atom>, before: Env, environ: map<string, string>, override: bool): string {
    if atoms == [] then ""
    else StandsFor(atoms[0], before, environ, override) + AllStandFor(atoms[1..], before, environ, override)
  }

  lemma {:induction false} JoinStands(atoms: seq<Atom>, before: Env, environ: map<string, string>, override: bool)
    ensures JoinResolved(atoms, Lookup(before, environ, override)) == AllStandFor(atoms, before, environ, override)
  {
    if atoms != [] {
      JoinStands(atoms[1..], before, environ, override);
      if atoms[0].Variable? {
        VariableMeans(atoms[0].name, atoms[0].default, before, environ, override);
      }
    }
  }

  lemma {:induction false} ResolvedMore(
      pairs: seq<Pair>, more: Pair, values: Env, environ: map<string, string>, override: bool)
    ensures var before := Resolved(pairs, values, environ, override);
      Resolved(pairs + [more], values, environ, override)
      == before[more.0 := ResolveValue(more.1, before, environ, override)]
    decreases |pairs|
  {
    if pairs == [] {
      assert [more][1..] == [];
      assert pairs + [more] == [more];
    } else {
      var value := ResolveValue(pairs[0].1, values, environ, override);
      assert (pairs + [more])[1..] == pairs[1..] + [more];
      ResolvedMore(pairs[1..], more, values[pairs[0].0 := value], environ, override);
    }
  }

  /** One binding more gives its key what the atoms of its value stand for, and nothing else changes. */
  lemma BindingResolves(
      pairs: seq<Pair>, key: string, value: string, atoms: seq<Atom>, environ: map<string, string>, override: bool)
    requires Tiles(MatchAt, value, 0, atoms)
    ensures Resolved([], map[], environ, override) == map[]
    ensures var before := Resolved(pairs, map[], environ, override);
      Resolved(pairs + [(key, Some(value))], map[], environ, override)
      == before[key := Some(AllStandFor(atoms, before, environ, override))]
  {
    var before := Resolved(pairs, map[], environ, override);
    PatternIsProper();
    AtomsTile(MatchAt, value, 0);
    TilesUnique(MatchAt, value, 0, atoms, Atoms(MatchAt, value, 0));
    ResolvedMore(pairs, (key, Some(value)), map[], environ, override);
    JoinStands(atoms, before, environ, override);
  }

  /** So do well-formed atoms that are written out. */
  lemma PrintedResolves(
      pairs: seq<Pair>, key: string, atoms: seq<Atom>, environ: map<string, string>, override: bool)
    requires WellFormed(atoms)
    ensures var before := Resolved(pairs, map[], environ, override);
      Resolved(pairs + [(key, Some(Print(atoms)))], map[], environ, override)
      == before[key := Some(AllStandFor(atoms, before, environ, override))]
  {
    PrintThenSplit(atoms);
    BindingResolves(pairs, key, Print(atoms), atoms, environ, override);
  }

  /** A binding without a value gives its key none. */
  lemma NoValueResolves(pairs: seq<Pair>, key: string, environ: map<string, string>, override: bool)
    ensures var before := Resolved(pairs, map[], environ, override);
      Resolved(pairs + [(key, None)], map[], environ, override) == before[key := None]
  {
    ResolvedMore(pairs, (key, None), map[], environ, override);
  }

  lemma OneAtom(a: Atom, before: Env, environ: map<string, string>, override: bool)
    ensures Print([a]) == PrintAtom(a)
    ensures AllStandFor([a], before, environ, override) == StandsFor(a, before, environ, override)
  {
    assert [a][1..] == [];
    assert Print([a]) == PrintAtom(a) + "";
    assert AllStandFor([a], before, environ, override) == StandsFor(a, before, environ, override) + "";
  }

  /** `${name}` and `${name:-default}`, said case by case. */
  lemma VariableResolves(
      pairs: seq<Pair>, key: string, name: string, default: Option<string>,
      environ: map<string, string>, override: bool)
    requires WellFormedAtom(Variable(name, default))
    ensures var before := Resolved(pairs, map[], environ, override);
      var written := if default.None? then "${" + name + "}" else "${" + name + ":-" + default.value + "}";
      var r := Resolved(pairs + [(key, Some(written))], map[], environ, override);
      && key in r
      && (override && name in before ==> r[key] == Some(TextOr(before[name], "")))
      && (override && name !in before && name in environ ==> r[key] == Some(environ[name]))
      && (!override && name in environ ==> r[key] == Some(environ[name]))
      && (!override && name !in environ && name in before ==> r[key] == Some(TextOr(before[name], "")))
      && (name !in before && name !in environ ==> r[key] == Some(TextOr(default, "")))
  {
    var a := Variable(name, default);
    var before := Resolved(pairs, map[], environ, override);
    PrintedResolves(pairs, key, [a], environ, override);
    OneAtom(a, before, environ, override);
    var written := if default.None? then "${" + name + "}" else "${" + name + ":-" + default.value + "}";
    assert PrintAtom(a) == written;
  }
}
