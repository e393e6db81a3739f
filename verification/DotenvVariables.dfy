/**
 Variables in values: splitting a value into literals and `${name}` or `${name:-default}`, and putting in what
 the variables stand for.
 */
module DotenvVariables {
  import opened Options
  import opened DotenvGrammar

  datatype Atom = Literal(value: string) | Variable(name: string, default: Option<string>) {
    function Resolve(env: map<string, Option<string>>): string {
      match this
      case Literal(value) => value
      case Variable(name, default) =>
        var fallback := if default.Some? then default.value else "";
        var result := if name in env then env[name] else Some(fallback);
        if result.Some? then result.value else ""
    }
  }

  // ----- the pattern -----

  predicate InName(c: char) { c != '}' && c != ':' }
  predicate InDefault(c: char) { c != '}' }

  datatype Hit = Miss | Hit(name: string, default: Option<string>, end: nat)

  /** The pattern at this place. */
  function MatchAt(t: string, i: nat): (h: Hit)
    ensures h.Hit? ==> i + 2 < h.end <= |t|
  {
    if i + 2 > |t| || t[i] != '$' || t[i + 1] != '{' then Miss
    else
      var n := Span(t, i + 2, InName);
      if n < |t| && t[n] == '}' then Hit(t[i + 2..n], None, n + 1)
      else if n + 2 <= |t| && t[n] == ':' && t[n + 1] == '-' then
        var d := Span(t, n + 2, InDefault);
        if d < |t| then Hit(t[i + 2..n], Some(t[n + 2..d]), d + 1) else Miss
      else Miss
  }

  /** A compiled pattern; its matches are not empty. */
  type Pattern = (string, nat) -> Hit

  ghost predicate Proper(m: Pattern) {
    forall t: string, i: nat {:trigger m(t, i)} :: m(t, i).Hit? ==> i < m(t, i).end <= |t|
  }

  /** The first place from `i` on where the pattern matches; the end of the text if there is none. */
  function Find(m: Pattern, t: string, i: nat): (k: nat)
    requires i <= |t|
    ensures i <= k <= |t| && (forall x :: i <= x < k ==> m(t, x).Miss?) && (k < |t| ==> m(t, k).Hit?)
    decreases |t| - i
  {
    if i == |t| || m(t, i).Hit? then i else Find(m, t, i + 1)
  }

  // ----- the split -----

  /** The atoms take the text from `i` on apart: literals are maximal, and variables are what matches. */
  ghost predicate Tiles(m: Pattern, t: string, i: nat, atoms: seq<Atom>)
    decreases |atoms|
  {
    if atoms == [] then i == |t|
    else
      match atoms[0]
      case Literal(v) =>
        && v != "" && i + |v| <= |t| && t[i..i + |v|] == v
        && (forall k :: i <= k < i + |v| ==> m(t, k).Miss?)
        && (|atoms| > 1 ==> atoms[1].Variable?)
        && Tiles(m, t, i + |v|, atoms[1..])
      case Variable(name, default) =>
        && m(t, i).Hit? && m(t, i).name == name && m(t, i).default == default
        && Tiles(m, t, m(t, i).end, atoms[1..])
  }

  /** Such a list is the only one. */
  lemma {:induction false} TilesUnique(m: Pattern, t: string, i: nat, a: seq<Atom>, b: seq<Atom>)
    requires Proper(m) && i <= |t| && Tiles(m, t, i, a) && Tiles(m, t, i, b)
    ensures a == b
    decreases |a|
  {
    if a == [] || b == [] {
    } else if a[0].Variable? || b[0].Variable? {
      TilesUnique(m, t, m(t, i).end, a[1..], b[1..]);
    } else {
      LiteralUnique(m, t, i, a, b);
      LiteralUnique(m, t, i, b, a);
      TilesUnique(m, t, i + |a[0].value|, a[1..], b[1..]);
    }
  }

  lemma LiteralUnique(m: Pattern, t: string, i: nat, a: seq<Atom>, b: seq<Atom>)
    requires i <= |t| && Tiles(m, t, i, a) && Tiles(m, t, i, b)
    requires a != [] && b != [] && a[0].Literal? && b[0].Literal?
    ensures |a[0].value| >= |b[0].value|
  {
    var e := i + |a[0].value|;
    if |a| > 1 {
      assert a[1..][0] == a[1];
      assert m(t, e).Hit?;
    } else {
      assert a[1..] == [];
    }
  }

  ghost function Atoms(m: Pattern, t: string, i: nat): seq<Atom>
    requires Proper(m) && i <= |t|
    decreases |t| - i
  {
    var k := Find(m, t, i);
    var literal := if k > i then [Literal(t[i..k])] else [];
    if k == |t| then literal
    else literal + [Variable(m(t, k).name, m(t, k).default)] + Atoms(m, t, m(t, k).end)
  }

  lemma {:induction false} AtomsTile(m: Pattern, t: string, i: nat)
    requires Proper(m) && i <= |t|
    ensures Tiles(m, t, i, Atoms(m, t, i))
    decreases |t| - i
  {
    var k := Find(m, t, i);
    if k < |t| {
      var h := m(t, k);
      AtomsTile(m, t, h.end);
      var rest := [Variable(h.name, h.default)] + Atoms(m, t, h.end);
      assert rest[1..] == Atoms(m, t, h.end);
      assert Tiles(m, t, k, rest);
      if k > i { assert Atoms(m, t, i)[1..] == rest; } else { assert Atoms(m, t, i) == rest; }
    } else if k > i {
      assert Atoms(m, t, i)[1..] == [];
    }
  }

  lemma AtomsStep(m: Pattern, t: string, i: nat, k: nat, before: seq<Atom>)
    requires Proper(m) && i <= |t| && k == Find(m, t, i) < |t|
    ensures before + Atoms(m, t, i)
         == (before + if k > i then [Literal(t[i..k])] else []) + [Variable(m(t, k).name, m(t, k).default)]
            + Atoms(m, t, m(t, k).end)
  {
  }

  /** The loop over the matches of a pattern. */
  method Split(value: string, m: Pattern) returns (atoms: seq<Atom>)
    requires Proper(m)
    ensures atoms == Atoms(m, value, 0)
  {
    atoms := [];
    var cursor := 0;
    var start := Find(m, value, 0);
    while start < |value|
      invariant cursor <= start <= |value| && start == Find(m, value, cursor)
      invariant atoms + Atoms(m, value, cursor) == Atoms(m, value, 0)
      decreases |value| - cursor
    {
      var hit := m(value, start);
      AtomsStep(m, value, cursor, start, atoms);
      if start > cursor {
        atoms := atoms + [Literal(value[cursor..start])];
      }
      atoms := atoms + [Variable(hit.name, hit.default)];
      cursor := hit.end;
      start := Find(m, value, cursor);
    }
    var length := |value|;
    if cursor < length {
      atoms := atoms + [Literal(value[cursor..length])];
    }
  }

  lemma PatternIsProper()
    ensures Proper(MatchAt)
  {
  }

  method ParseVariables(value: string) returns (atoms: seq<Atom>)
    ensures Tiles(MatchAt, value, 0, atoms)
  {
    PatternIsProper();
    atoms := Split(value, MatchAt);
    AtomsTile(MatchAt, value, 0);
  }

  // ----- printing -----

  function PrintAtom(a: Atom): string {
    match a
    case Literal(v) => v
    case Variable(name, None) => "${" + name + "}"
    case Variable(name, Some(default)) => "${" + name + ":-" + default + "}"
  }

  function Print(atoms: seq<Atom>): string {
    if atoms == [] then "" else PrintAtom(atoms[0]) + Print(atoms[1..])
  }

  lemma Slice(t: string, i: nat, e: nat, a: nat, b: nat)
    requires i <= a <= b <= e <= |t|
    ensures t[a..b] == t[i..e][a - i..b - i]
  {
    forall x | 0 <= x < b - a ensures t[a..b][x] == t[i..e][a - i..b - i][x] { assert t[i..e][a - i + x] == t[a + x]; }
  }

  lemma NameIsPrinted(t: string, i: nat, n: nat)
    requires i + 2 <= n < |t| && t[i] == '$' && t[i + 1] == '{' && t[n] == '}'
    ensures t[i..n + 1] == "${" + t[i + 2..n] + "}"
  {
    assert t[i..i + 2] == "${";
    assert t[i..n] == t[i..i + 2] + t[i + 2..n];
    assert t[i..n + 1] == t[i..n] + [t[n]];
  }

  lemma DefaultIsPrinted(t: string, i: nat, n: nat, d: nat)
    requires i + 2 <= n && n + 2 <= d < |t| && t[d] == '}'
    requires t[i] == '$' && t[i + 1] == '{' && t[n] == ':' && t[n + 1] == '-'
    ensures t[i..d + 1] == "${" + t[i + 2..n] + ":-" + t[n + 2..d] + "}"
  {
    assert t[i..i + 2] == "${" && t[n..n + 2] == ":-";
    assert t[i..n] == t[i..i + 2] + t[i + 2..n];
    assert t[i..n + 2] == t[i..n] + t[n..n + 2];
    assert t[i..d] == t[i..n + 2] + t[n + 2..d];
    assert t[i..d + 1] == t[i..d] + [t[d]];
  }

  /** What a match looks like: the end of its name, and that of its default if it has one. */
  lemma MatchShape(t: string, i: nat) returns (n: nat, d: nat)
    requires MatchAt(t, i).Hit?
    ensures i + 2 <= n < |t| && t[i] == '$' && t[i + 1] == '{'
    ensures MatchAt(t, i).default.None? ==> t[n] == '}' && MatchAt(t, i) == Hit(t[i + 2..n], None, n + 1)
    ensures MatchAt(t, i).default.Some? ==> n + 2 <= d < |t| && t[n] == ':' && t[n + 1] == '-' && t[d] == '}'
    ensures MatchAt(t, i).default.Some? ==> MatchAt(t, i) == Hit(t[i + 2..n], Some(t[n + 2..d]), d + 1)
  {
    n := Span(t, i + 2, InName);
    d := if t[n] == ':' then Span(t, n + 2, InDefault) else n;
  }

  lemma MatchIsPrinted(t: string, i: nat)
    requires MatchAt(t, i).Hit?
    ensures var h := MatchAt(t, i); t[i..h.end] == PrintAtom(Variable(h.name, h.default))
  {
    var n, d := MatchShape(t, i);
    var h := MatchAt(t, i);
    if h.default.None? {
      NameIsPrinted(t, i, n);
    } else {
      DefaultIsPrinted(t, i, n, d);
    }
  }

  lemma FirstPrinted(t: string, i: nat, atoms: seq<Atom>) returns (e: nat)
    requires i <= |t| && Tiles(MatchAt, t, i, atoms) && atoms != []
    ensures i <= e <= |t| && t[i..e] == PrintAtom(atoms[0]) && Tiles(MatchAt, t, e, atoms[1..])
  {
    if atoms[0].Variable? {
      MatchIsPrinted(t, i);
      e := MatchAt(t, i).end;
    } else {
      e := i + |atoms[0].value|;
    }
  }

  /** Printing the atoms of a value gives back the value. */
  lemma {:induction false} TilesPrint(t: string, i: nat, atoms: seq<Atom>)
    requires i <= |t| && Tiles(MatchAt, t, i, atoms)
    ensures Print(atoms) == t[i..]
    decreases |atoms|
  {
    if atoms != [] {
      var e := FirstPrinted(t, i, atoms);
      TilesPrint(t, e, atoms[1..]);
      Halves(t, i, e);
    }
  }

  lemma Halves(t: string, i: nat, e: nat)
    requires i <= e <= |t|
    ensures t[i..] == t[i..e] + t[e..]
  {
  }

  lemma {:induction false} TilesShape(m: Pattern, t: string, i: nat, atoms: seq<Atom>)
    requires Tiles(m, t, i, atoms)
    ensures forall k :: 0 <= k < |atoms| ==> atoms[k].Literal? ==> atoms[k].value != ""
    ensures forall k :: 0 <= k < |atoms| - 1 ==> atoms[k].Variable? || atoms[k + 1].Variable?
    decreases |atoms|
  {
    if atoms != [] {
      TilesShape(m, t, if atoms[0].Literal? then i + |atoms[0].value| else m(t, i).end, atoms[1..]);
      forall k | 0 < k < |atoms| - 1 ensures atoms[k].Variable? || atoms[k + 1].Variable? {
        assert atoms[1..][k - 1] == atoms[k] && atoms[1..][k] == atoms[k + 1];
      }
      forall k | 0 < k < |atoms| ensures atoms[k].Literal? ==> atoms[k].value != "" {
        assert atoms[1..][k - 1] == atoms[k];
      }
    }
  }

  /** There is one way to split a value; it prints the value, without empty or adjacent literals. */
  lemma SplitPrints(value: string, atoms: seq<Atom>)
    requires Tiles(MatchAt, value, 0, atoms)
    ensures Print(atoms) == value
    ensures forall k :: 0 <= k < |atoms| ==> atoms[k].Literal? ==> atoms[k].value != ""
    ensures forall k :: 0 <= k < |atoms| - 1 ==> atoms[k].Variable? || atoms[k + 1].Variable?
    ensures forall others :: Tiles(MatchAt, value, 0, others) ==> others == atoms
  {
    PatternIsProper();
    TilesPrint(value, 0, atoms);
    assert value[0..] == value;
    TilesShape(MatchAt, value, 0, atoms);
    forall others | Tiles(MatchAt, value, 0, others) ensures others == atoms {
      TilesUnique(MatchAt, value, 0, others, atoms);
    }
  }

  // ----- reading printed atoms -----

  predicate WellFormedAtom(a: Atom) {
    match a
    case Literal(v) => v != "" && '$' !in v
    case Variable(name, default) =>
      '}' !in name && ':' !in name && (default.Some? ==> '}' !in default.value)
  }

  predicate WellFormed(atoms: seq<Atom>) {
    && (forall a <- atoms :: WellFormedAtom(a))
    && forall k :: 0 <= k < |atoms| - 1 ==> atoms[k].Variable? || atoms[k + 1].Variable?
  }

  lemma PrintedNameMatches(t: string, i: nat, name: string)
    requires i + |name| + 3 <= |t| && t[i..i + |name| + 3] == "${" + name + "}" && forall c <- name :: InName(c)
    ensures MatchAt(t, i) == Hit(name, None, i + |name| + 3)
  {
    var u, n := t[i..i + |name| + 3], i + 2 + |name|;
    assert u[0] == t[i] && u[1] == t[i + 1] && u[|name| + 2] == t[n];
    forall k | i + 2 <= k < n ensures InName(t[k]) { assert u[k - i] == name[k - i - 2] && name[k - i - 2] in name; }
    SpanIs(t, i + 2, InName, n);
    Slice(t, i, n + 1, i + 2, n);
    assert u[2..|name| + 2] == name;
  }

  lemma PrintedDefaultMatches(t: string, i: nat, name: string, default: string)
    requires var e := i + |name| + |default| + 5; e <= |t| && t[i..e] == "${" + name + ":-" + default + "}"
    requires (forall c <- name :: InName(c)) && (forall c <- default :: InDefault(c))
    ensures MatchAt(t, i) == Hit(name, Some(default), i + |name| + |default| + 5)
  {
    var e := i + |name| + |default| + 5;
    var u, n, d := t[i..e], i + 2 + |name|, e - 1;
    assert u[0] == t[i] && u[1] == t[i + 1];
    assert u[n - i] == t[n] == ':' && u[n + 1 - i] == t[n + 1] == '-' && u[d - i] == t[d] == '}';
    forall k | i + 2 <= k < n ensures InName(t[k]) { assert u[k - i] == name[k - i - 2] && name[k - i - 2] in name; }
    SpanIs(t, i + 2, InName, n);
    forall k | n + 2 <= k < d ensures InDefault(t[k]) {
      assert u[k - i] == default[k - n - 2] && default[k - n - 2] in default;
    }
    SpanIs(t, n + 2, InDefault, d);
    Slice(t, i, e, i + 2, n);
    Slice(t, i, e, n + 2, d);
    assert u[2..n - i] == name && u[n + 2 - i..d - i] == default;
  }

  /** The printed atom stands at this place of a text. */
  predicate PrintedAt(t: string, i: nat, a: Atom) {
    i + |PrintAtom(a)| <= |t| && t[i..i + |PrintAtom(a)|] == PrintAtom(a)
  }

  /** There the pattern finds it: all of it if it is a variable, nothing in it if it is a literal. */
  ghost predicate FoundAt(m: Pattern, t: string, i: nat, a: Atom) {
    match a
    case Literal(v) => forall k :: i <= k < i + |v| ==> m(t, k).Miss?
    case Variable(name, default) => m(t, i) == Hit(name, default, i + |PrintAtom(a)|)
  }

  ghost predicate FindsPrinted(m: Pattern) {
    forall t, i, a {:trigger PrintedAt(t, i, a)} :: WellFormedAtom(a) && PrintedAt(t, i, a) ==> FoundAt(m, t, i, a)
  }

  lemma PrintedIsFound(t: string, i: nat, a: Atom)
    requires WellFormedAtom(a) && PrintedAt(t, i, a)
    ensures FoundAt(MatchAt, t, i, a)
  {
    match a
    case Literal(v) =>
      forall k | i <= k < i + |v| ensures MatchAt(t, k).Miss? { assert t[k] == v[k - i] && v[k - i] in v; }
    case Variable(name, None) => PrintedNameMatches(t, i, name);
    case Variable(name, Some(default)) => PrintedDefaultMatches(t, i, name, default);
  }

  lemma PrintedFirst(t: string, i: nat, atoms: seq<Atom>, e: nat)
    requires atoms != [] && i <= |t| && t[i..] == Print(atoms) && e == i + |PrintAtom(atoms[0])|
    ensures e <= |t| && t[e..] == Print(atoms[1..]) && PrintedAt(t, i, atoms[0])
  {
    PrintedApart(t, i, PrintAtom(atoms[0]), Print(atoms[1..]));
  }

  lemma FirstFound(m: Pattern, t: string, i: nat, atoms: seq<Atom>)
    requires FindsPrinted(m) && WellFormed(atoms) && atoms != [] && PrintedAt(t, i, atoms[0])
    ensures WellFormedAtom(atoms[0]) && FoundAt(m, t, i, atoms[0])
  {
    assert atoms[0] in atoms;
  }

  lemma {:induction false} PrintedTiles(m: Pattern, t: string, i: nat, atoms: seq<Atom>)
    requires FindsPrinted(m) && WellFormed(atoms) && i <= |t| && t[i..] == Print(atoms)
    ensures Tiles(m, t, i, atoms)
    decreases |atoms|
  {
    if atoms != [] {
      var e := i + |PrintAtom(atoms[0])|;
      PrintedFirst(t, i, atoms, e);
      FirstFound(m, t, i, atoms);
      RestWellFormed(atoms);
      PrintedTiles(m, t, e, atoms[1..]);
      TilesFirst(m, t, i, atoms, e);
    }
  }

  lemma TilesFirst(m: Pattern, t: string, i: nat, atoms: seq<Atom>, e: nat)
    requires atoms != [] && WellFormed(atoms) && WellFormedAtom(atoms[0]) && e == i + |PrintAtom(atoms[0])|
    requires PrintedAt(t, i, atoms[0]) && FoundAt(m, t, i, atoms[0]) && Tiles(m, t, e, atoms[1..])
    ensures Tiles(m, t, i, atoms)
  {
  }

  lemma PrintedApart(t: string, i: nat, first: string, rest: string)
    requires i <= |t| && t[i..] == first + rest
    ensures i + |first| <= |t| && t[i..i + |first|] == first && t[i + |first|..] == rest
  {
    assert t[i..i + |first|] == t[i..][..|first|];
    assert t[i + |first|..] == t[i..][|first|..];
  }

  lemma RestWellFormed(atoms: seq<Atom>)
    requires WellFormed(atoms) && atoms != []
    ensures WellFormed(atoms[1..])
  {
    forall k | 0 <= k < |atoms| - 2 ensures atoms[1..][k].Variable? || atoms[1..][k + 1].Variable? {
      assert atoms[k + 1].Variable? || atoms[k + 1 + 1].Variable?;
    }
  }

  /** Well-formed atoms, printed and split again, come back as they were. */
  lemma PrintThenSplit(atoms: seq<Atom>)
    requires WellFormed(atoms)
    ensures Tiles(MatchAt, Print(atoms), 0, atoms)
  {
    assert Print(atoms)[0..] == Print(atoms);
    forall t, i, a | WellFormedAtom(a) && PrintedAt(t, i, a) ensures FoundAt(MatchAt, t, i, a) {
      PrintedIsFound(t, i, a);
    }
    PrintedTiles(MatchAt, Print(atoms), 0, atoms);
  }
}
