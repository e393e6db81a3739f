/**
 The in-place Keccak permutation on a list of 25 Python integers, block by block as in the source,
 each block shown to be one step mapping of the standard.
 */
module Sha3Transform {
  import opened PythonInts
  import opened Fips202
  import RoundConstants
  import DivMod

  const ROTATIONS: seq<nat> :=
    [0, 1, 62, 28, 27, 36, 44, 6, 55, 20, 3, 10, 43, 25, 39, 41, 45, 15, 21, 8, 18, 2, 61, 56, 14]

  const PERMUTATION: seq<nat> :=
    [1, 6, 9, 22, 14, 20, 2, 12, 13, 19, 23, 15, 4, 24, 21, 8, 16, 5, 3, 18, 17, 11, 7, 10]

  predicate Words(v: seq<int>) { |v| == 25 && forall i :: 0 <= i < 25 ==> IsWord(v[i]) }

  function Lane(x: int): Bits { seq(64, z requires 0 <= z < 64 => Bit(x, z)) }

  /** The state array that a list of lanes stands for. */
  function Lanes(v: seq<int>): StateArray
    requires |v| == 25
  {
    seq(25, i requires 0 <= i < 25 => Lane(v[i]))
  }

  // ----- rotation -----

  function Rol(x: int, b: nat): int
    requires b <= 64
  {
    BitAnd(BitOr(ShiftLeft(x, b), ShiftRight(x, 64 - b)), WORD - 1)
  }

  lemma RolBit(x: int, b: nat, z: nat)
    requires IsWord(x) && b < 64 && z < 64
    ensures Bit(Rol(x, b), z) == Bit(x, if z < b then z + 64 - b else z - b)
  {
    var left, right := ShiftLeft(x, b), ShiftRight(x, 64 - b);
    BitwiseBit(And, BitOr(left, right), WORD - 1, z);
    BitwiseBit(Or, left, right, z);
    WordMaskBit(z);
    ShiftLeftBit(x, b, z);
    ShiftRightBit(x, 64 - b, z);
    if z >= b { WordHighBits(x, z + 64 - b); }
  }

  lemma RolIsRotate(x: int, b: nat)
    requires IsWord(x) && b < 64
    ensures IsWord(Rol(x, b)) && Lane(Rol(x, b)) == Rotate(Lane(x), b)
  {
    AndBelow(BitOr(ShiftLeft(x, b), ShiftRight(x, 64 - b)), WORD - 1);
    forall z | 0 <= z < 64 ensures Lane(Rol(x, b))[z] == Rotate(Lane(x), b)[z] {
      RolBit(x, b, z);
    }
  }

  // ----- theta -----

  /** The lanes of column `x` in the first `rows` planes, summed from zero. */
  function Column(v: seq<int>, x: nat, rows: nat): int
    requires |v| == 25 && x < 5 && rows <= 5
  {
    if rows == 0 then 0 else BitXor(Column(v, x, rows - 1), v[5 * (rows - 1) + x])
  }

  function Columns(v: seq<int>): (c: seq<int>)
    requires |v| == 25
    ensures |c| == 5
  {
    seq(5, x requires 0 <= x < 5 => Column(v, x, 5))
  }

  function ThetaD(c: seq<int>, x: nat): int
    requires |c| == 5 && x < 5
  {
    BitXor(c[(x + 4) % 5], Rol(c[(x + 1) % 5], 1))
  }

  lemma {:induction false} ColumnIsWord(v: seq<int>, x: nat, rows: nat)
    requires Words(v) && x < 5 && rows <= 5
    ensures IsWord(Column(v, x, rows))
  {
    if rows > 0 {
      ColumnIsWord(v, x, rows - 1);
      XorIsWord(Column(v, x, rows - 1), v[5 * (rows - 1) + x]);
    }
  }

  lemma ColumnIsParity(v: seq<int>, x: nat, z: nat)
    requires Words(v) && x < 5 && z < 64
    ensures Bit(Column(v, x, 5), z) == ColumnParity(Lanes(v), x, z)
  {
    BitwiseBit(Xor, Column(v, x, 4), v[20 + x], z);
    BitwiseBit(Xor, Column(v, x, 3), v[15 + x], z);
    BitwiseBit(Xor, Column(v, x, 2), v[10 + x], z);
    BitwiseBit(Xor, Column(v, x, 1), v[5 + x], z);
    BitwiseBit(Xor, 0, v[x], z);
    SignBits(0, z);
    assert Column(v, x, 1) == BitXor(0, v[x]);
    assert Column(v, x, 3) == BitXor(Column(v, x, 2), v[10 + x]);
  }

  lemma ThetaDIsWord(c: seq<int>, x: nat)
    requires |c| == 5 && x < 5 && IsWord(c[(x + 4) % 5]) && IsWord(c[(x + 1) % 5])
    ensures IsWord(ThetaD(c, x))
  {
    RolIsRotate(c[(x + 1) % 5], 1);
    XorIsWord(c[(x + 4) % 5], Rol(c[(x + 1) % 5], 1));
  }

  lemma ThetaDBit(v: seq<int>, x: nat, z: nat)
    requires Words(v) && x < 5 && z < 64
    ensures Bit(ThetaD(Columns(v), x), z)
            == (ColumnParity(Lanes(v), (x + 4) % 5, z) != ColumnParity(Lanes(v), (x + 1) % 5, Before(z)))
  {
    var a, b := Column(v, (x + 4) % 5, 5), Column(v, (x + 1) % 5, 5);
    ColumnIsWord(v, (x + 1) % 5, 5);
    BitwiseBit(Xor, a, Rol(b, 1), z);
    RolBit(b, 1, z);
    ColumnIsParity(v, (x + 4) % 5, z);
    ColumnIsParity(v, (x + 1) % 5, Before(z));
  }

  /** The lanes after theta. */
  function ThetaLanes(v: seq<int>): seq<int>
    requires |v| == 25
  {
    var c := Columns(v);
    seq(25, i requires 0 <= i < 25 => BitXor(v[i], ThetaD(c, i % 5)))
  }

  lemma ThetaBit(v: seq<int>, i: nat, x: nat, z: nat)
    requires Words(v) && i < 25 && x == i % 5 && z < 64
    ensures Bit(BitXor(v[i], ThetaD(Columns(v), x)), z) == Fips202.Theta(Lanes(v))[i][z]
  {
    var a := Lanes(v);
    assert Bit(BitXor(v[i], ThetaD(Columns(v), x)), z)
           == (a[i][z] != (ColumnParity(a, (x + 4) % 5, z) != ColumnParity(a, (x + 1) % 5, Before(z))))
    by {
      BitwiseBit(Xor, v[i], ThetaD(Columns(v), x), z);
      ThetaDBit(v, x, z);
    }
    ThetaAt(a, i, x, z);
  }

  lemma ThetaLane(v: seq<int>, i: nat)
    requires Words(v) && i < 25
    ensures IsWord(ThetaLanes(v)[i]) && Lane(ThetaLanes(v)[i]) == Fips202.Theta(Lanes(v))[i]
  {
    var x := i % 5;
    var w := BitXor(v[i], ThetaD(Columns(v), x));
    ColumnIsWord(v, (x + 4) % 5, 5);
    ColumnIsWord(v, (x + 1) % 5, 5);
    ThetaDIsWord(Columns(v), x);
    XorIsWord(v[i], ThetaD(Columns(v), x));
    var lane := Fips202.Theta(Lanes(v))[i];
    assert Lane(w) == lane by {
      forall z | 0 <= z < 64 ensures Lane(w)[z] == lane[z] {
        ThetaBit(v, i, x, z);
      }
    }
  }

  lemma ThetaRefines(v: seq<int>)
    requires Words(v)
    ensures Words(ThetaLanes(v)) && Lanes(ThetaLanes(v)) == Fips202.Theta(Lanes(v))
  {
    forall i | 0 <= i < 25
      ensures IsWord(ThetaLanes(v)[i]) && Lane(ThetaLanes(v)[i]) == Fips202.Theta(Lanes(v))[i]
    {
      ThetaLane(v, i);
    }
  }

  /** How many of the first `i` lanes lie in column `x`. */
  function RowsSeen(i: nat, x: nat): nat {
    i / 5 + One(i % 5 > x)
  }

  lemma NextRow(i: nat, x: nat)
    requires x < 5
    ensures RowsSeen(i + 1, x) == RowsSeen(i, x) + One(i % 5 == x)
    ensures i % 5 == x ==> 5 * RowsSeen(i, x) + x == i
  {
  }

  /** The columns of the first `i` lanes. */
  ghost predicate Summed(v: seq<int>, c: seq<int>, i: nat) {
    |v| == 25 && |c| == 5 && i <= 25 && forall x :: 0 <= x < 5 ==> c[x] == Column(v, x, RowsSeen(i, x))
  }

  lemma SumStep(v: seq<int>, c: seq<int>, i: nat)
    requires i < 25 && Summed(v, c, i)
    ensures Summed(v, c[i % 5 := BitXor(c[i % 5], v[i])], i + 1)
  {
    NextRow(i, i % 5);
    forall x | 0 <= x < 5 && x != i % 5 ensures RowsSeen(i + 1, x) == RowsSeen(i, x) { NextRow(i, x); }
  }

  method SumColumns(s: array<int>, c: array<int>)
    requires s.Length == 25 && c.Length == 5 && s != c && forall x :: 0 <= x < 5 ==> c[x] == 0
    modifies c
    ensures forall x :: 0 <= x < 5 ==> c[x] == Column(s[..], x, 5)
  {
    for i := 0 to 25
      invariant Summed(s[..], c[..], i)
    {
      SumStep(s[..], c[..], i);
      assert c[..][i % 5] == c[i % 5] && s[..][i] == s[i];
      c[i % 5] := BitXor(c[i % 5], s[i]);
    }
  }

  method MixColumns(c: array<int>, d: array<int>)
    requires c.Length == 5 && d.Length == 5 && c != d
    modifies d
    ensures forall x :: 0 <= x < 5 ==> d[x] == ThetaD(c[..], x)
  {
    for i := 0 to 5
      invariant forall x :: 0 <= x < i ==> d[x] == ThetaD(c[..], x)
    {
      d[i] := BitXor(c[(i + 4) % 5], Rol(c[(i + 1) % 5], 1));
    }
  }

  method AddColumns(s: array<int>, d: array<int>)
    requires s.Length == 25 && d.Length == 5 && s != d
    modifies s
    ensures forall i :: 0 <= i < 25 ==> s[i] == BitXor(old(s[i]), d[i % 5])
  {
    for i := 0 to 25
      invariant forall k :: i <= k < 25 ==> s[k] == old(s[k])
      invariant forall k :: 0 <= k < i ==> s[k] == BitXor(old(s[k]), d[k % 5])
    {
      s[i] := BitXor(s[i], d[i % 5]);
    }
  }

  lemma ThetaIs(v: seq<int>, c: seq<int>, d: seq<int>, t: seq<int>)
    requires |v| == |t| == 25 && |d| == 5 && c == Columns(v)
    requires forall x :: 0 <= x < 5 ==> d[x] == ThetaD(c, x)
    requires forall i :: 0 <= i < 25 ==> t[i] == BitXor(v[i], d[i % 5])
    ensures t == ThetaLanes(v)
  {
    forall i | 0 <= i < 25 ensures t[i] == ThetaLanes(v)[i] {
      assert d[i % 5] == ThetaD(c, i % 5);
    }
  }

  method Theta(s: array<int>)
    requires s.Length == 25
    modifies s
    ensures s[..] == ThetaLanes(old(s[..]))
  {
    ghost var v := s[..];
    var c := new int[5](_ => 0);
    var d := new int[5](_ => 0);
    SumColumns(s, c);
    assert c[..] == Columns(v);
    MixColumns(c, d);
    AddColumns(s, d);
    ThetaIs(v, c[..], d[..], s[..]);
  }

  // ----- rho -----

  /** When the walk of algorithm 2 visits each lane, and which lane it visits at each time. */
  const VISIT_TIME: seq<nat> :=
    [0, 0, 18, 6, 12, 7, 23, 2, 9, 22, 1, 3, 17, 16, 20, 13, 8, 4, 5, 15, 19, 10, 21, 14, 11]
  const VISITED: seq<nat> :=
    [1, 10, 7, 11, 17, 18, 3, 5, 16, 8, 21, 24, 4, 15, 23, 19, 13, 12, 2, 20, 14, 22, 9, 6]

  /** What a rotation table and its walk must satisfy at lane `i`. */
  predicate WalkFact(time: seq<nat>, visited: seq<nat>, amount: seq<nat>, i: nat)
    requires |time| == |amount| == 25 && |visited| == 24 && i < 25
  {
    var t, next := time[i], 5 * ((2 * (i % 5) + 3 * (i / 5)) % 5) + i / 5;
    && t < 24
    && visited[t] == i
    && (t < 23 ==> next != 0 && time[next] == t + 1)
    && amount[i] < 64
    && amount[i] == ((t + 1) * (t + 2) / 2) % 64
  }

  ghost predicate IsWalk(time: seq<nat>, visited: seq<nat>, amount: seq<nat>) {
    && |time| == |amount| == 25 && |visited| == 24
    && amount[0] == 0 && time[1] == 0
    && forall i :: 0 < i < 25 ==> WalkFact(time, visited, amount, i)
  }

  /** The lanes from `i` up to `end`, checked one after the other. */
  predicate Tabulated(i: nat, end: nat)
    requires i <= end <= 25
    decreases end - i
  {
    i == end || (WalkFact(VISIT_TIME, VISITED, ROTATIONS, i) && Tabulated(i + 1, end))
  }

  lemma {:induction false} TabulatedAt(i: nat, end: nat, k: nat)
    requires i <= k < end <= 25 && Tabulated(i, end)
    ensures WalkFact(VISIT_TIME, VISITED, ROTATIONS, k)
    decreases end - i
  {
    if i < k { TabulatedAt(i + 1, end, k); }
  }

  lemma Lanes1To3()
    ensures Tabulated(1, 4)
  {
  }

  lemma Lanes4To6()
    ensures Tabulated(4, 7)
  {
  }

  lemma Lanes7To9()
    ensures Tabulated(7, 10)
  {
  }

  lemma Lanes10To12()
    ensures Tabulated(10, 13)
  {
  }

  lemma Lanes13To16()
    ensures Tabulated(13, 17)
  {
  }

  lemma Lanes17To20()
    ensures Tabulated(17, 21)
  {
  }

  lemma Lanes21To24()
    ensures Tabulated(21, 25)
  {
  }

  lemma TablesStart()
    ensures ROTATIONS[0] == 0 && VISIT_TIME[1] == 0
  {
  }

  /** The source's rotation table is the one the standard computes. */
  lemma RotationsFollowWalk()
    ensures IsWalk(VISIT_TIME, VISITED, ROTATIONS)
  {
    TablesStart();
    forall k | 0 < k < 25 ensures WalkFact(VISIT_TIME, VISITED, ROTATIONS, k) {
      if k < 4 { Lanes1To3(); TabulatedAt(1, 4, k); }
      else if k < 7 { Lanes4To6(); TabulatedAt(4, 7, k); }
      else if k < 10 { Lanes7To9(); TabulatedAt(7, 10, k); }
      else if k < 13 { Lanes10To12(); TabulatedAt(10, 13, k); }
      else if k < 17 { Lanes13To16(); TabulatedAt(13, 17, k); }
      else if k < 21 { Lanes17To20(); TabulatedAt(17, 21, k); }
      else { Lanes21To24(); TabulatedAt(21, 25, k); }
    }
  }

  /** One step of the walk, in coordinates. */
  lemma WalkStep(time: seq<nat>, visited: seq<nat>, amount: seq<nat>, x: nat, y: nat)
    requires IsWalk(time, visited, amount) && x < 5 && y < 5 && 5 * y + x > 0
    ensures var t, next := time[5 * y + x], 5 * ((2 * x + 3 * y) % 5) + y; t < 23 ==> next != 0 && time[next] == t + 1
  {
    assert WalkFact(time, visited, amount, 5 * y + x);
    assert (5 * y + x) % 5 == x && (5 * y + x) / 5 == y;
  }

  lemma SameRemainder(z: int, m: nat, n: nat)
    requires m % 64 == n % 64
    ensures (z - m) % 64 == (z - n) % 64
  {
    var a, b, q := m / 64, n / 64, (z - n) / 64;
    DivMod.DivisionIsUnique(z - m, 64, q - a + b, (z - n) % 64);
  }

  lemma RotateWraps(lane: Bits, m: nat, n: nat)
    requires |lane| == 64 && m % 64 == n % 64
    ensures Rotate(lane, m) == Rotate(lane, n)
  {
    forall z | 0 <= z < 64 ensures Rotate(lane, m)[z] == Rotate(lane, n)[z] {
      SameRemainder(z, m, n);
    }
  }

  lemma WalkRotates(time: seq<nat>, visited: seq<nat>, amount: seq<nat>, x: nat, y: nat, t: nat, lane: Bits)
    requires IsWalk(time, visited, amount) && x < 5 && y < 5 && 5 * y + x > 0 && time[5 * y + x] == t
    requires |lane| == 64
    ensures Rotate(lane, (t + 1) * (t + 2) / 2) == Rotate(lane, amount[5 * y + x])
  {
    assert WalkFact(time, visited, amount, 5 * y + x);
    RotateWraps(lane, (t + 1) * (t + 2) / 2, amount[5 * y + x]);
  }

  lemma WalkIsInjective(time: seq<nat>, visited: seq<nat>, amount: seq<nat>, i: nat, j: nat)
    requires IsWalk(time, visited, amount) && 0 < i < 25 && 0 < j < 25 && time[i] == time[j]
    ensures i == j && time[i] < 24
  {
    assert WalkFact(time, visited, amount, i);
    assert WalkFact(time, visited, amount, j);
  }

  /** From time `t` on, the walk rotates the lanes not yet visited by the listed amounts. */
  lemma {:induction false} RhoFromAt(time: seq<nat>, visited: seq<nat>, amount: seq<nat>,
                                     a: StateArray, t: nat, x: nat, y: nat, a': StateArray, i: nat)
    requires IsWalk(time, visited, amount) && t <= 24 && x < 5 && y < 5 && i < 25
    requires t < 24 ==> 5 * y + x > 0 && time[5 * y + x] == t
    ensures RhoFrom(a, t, x, y, a')[i] == if i > 0 && time[i] >= t then Rotate(a[i], amount[i]) else a'[i]
    decreases 24 - t
  {
    if i > 0 { WalkIsInjective(time, visited, amount, i, i); }
    if t < 24 {
      var j := 5 * y + x;
      WalkStep(time, visited, amount, x, y);
      WalkRotates(time, visited, amount, x, y, t, a[j]);
      if i > 0 && time[i] == t { WalkIsInjective(time, visited, amount, i, j); }
      var a'' := a'[j := Rotate(a[j], (t + 1) * (t + 2) / 2)];
      RhoFromAt(time, visited, amount, a, t + 1, y, (2 * x + 3 * y) % 5, a'', i);
    }
  }

  function RhoLanes(v: seq<int>, amount: seq<nat>): seq<int>
    requires |v| == |amount| == 25 && forall i :: 0 <= i < 25 ==> amount[i] < 64
  {
    seq(25, i requires 0 <= i < 25 => Rol(v[i], amount[i]))
  }

  lemma WalkAmounts(time: seq<nat>, visited: seq<nat>, amount: seq<nat>)
    requires IsWalk(time, visited, amount)
    ensures forall i :: 0 <= i < 25 ==> amount[i] < 64
  {
    forall i | 0 < i < 25 ensures amount[i] < 64 {
      assert WalkFact(time, visited, amount, i);
    }
  }

  lemma RotateByZero(lane: Bits)
    requires |lane| == 64
    ensures Rotate(lane, 0) == lane
  {
  }

  lemma RhoLane(time: seq<nat>, visited: seq<nat>, amount: seq<nat>, v: seq<int>, i: nat)
    requires IsWalk(time, visited, amount) && Words(v) && i < 25
    requires forall i :: 0 <= i < 25 ==> amount[i] < 64
    ensures IsWord(RhoLanes(v, amount)[i]) && Lane(RhoLanes(v, amount)[i]) == Fips202.Rho(Lanes(v))[i]
  {
    var a, w := Lanes(v), Rol(v[i], amount[i]);
    RhoFromAt(time, visited, amount, a, 0, 1, 0, a, i);
    RotateByZero(a[i]);
    assert Fips202.Rho(a)[i] == Rotate(a[i], amount[i]);
    RolIsRotate(v[i], amount[i]);
    assert Lane(w) == Rotate(a[i], amount[i]);
  }

  lemma RhoRefines(time: seq<nat>, visited: seq<nat>, amount: seq<nat>, v: seq<int>)
    requires IsWalk(time, visited, amount) && Words(v)
    requires forall i :: 0 <= i < 25 ==> amount[i] < 64
    ensures Words(RhoLanes(v, amount)) && Lanes(RhoLanes(v, amount)) == Fips202.Rho(Lanes(v))
  {
    forall i | 0 <= i < 25
      ensures IsWord(RhoLanes(v, amount)[i]) && Lane(RhoLanes(v, amount)[i]) == Fips202.Rho(Lanes(v))[i]
    {
      RhoLane(time, visited, amount, v, i);
    }
  }

  method RotateWords(s: array<int>, rotations: seq<nat>)
    requires s.Length == |rotations| == 25 && forall i :: 0 <= i < 25 ==> rotations[i] < 64
    modifies s
    ensures s[..] == RhoLanes(old(s[..]), rotations)
  {
    for i := 0 to 25
      invariant forall k :: i <= k < 25 ==> s[k] == old(s[k])
      invariant forall k :: 0 <= k < i ==> s[k] == Rol(old(s[k]), rotations[k])
    {
      s[i] := Rol(s[i], rotations[i]);
    }
  }

  // ----- pi -----

  /** The lane that pi moves to place `i`. */
  function PiSource(i: nat): nat
    requires i < 25
  {
    5 * (i % 5) + (i % 5 + 3 * (i / 5)) % 5
  }

  /** Where a lane stands in the list. */
  const PLACE: seq<nat> :=
    [0, 0, 6, 18, 12, 17, 1, 22, 15, 2, 23, 21, 7, 8, 4, 11, 16, 20, 19, 9, 5, 14, 3, 10, 13]

  /** The list goes once round all lanes but the first, each followed by the lane pi puts there. */
  predicate CycleFact(p: seq<nat>, place: seq<nat>, k: nat)
    requires |p| == 24 && |place| == 25 && k < 24
  {
    && 0 < p[k] < 25
    && place[p[k]] == k
    && p[if k == 23 then 0 else k + 1] == PiSource(p[k])
    && place[k + 1] < 24 && p[place[k + 1]] == k + 1
  }

  ghost predicate IsCycle(p: seq<nat>, place: seq<nat>) {
    && |p| == 24 && |place| == 25
    && forall k :: 0 <= k < 24 ==> CycleFact(p, place, k)
  }

  /** The places from `k` up to `end`, checked one after the other. */
  predicate Listed(k: nat, end: nat)
    requires k <= end <= 24
    decreases end - k
  {
    k == end || (CycleFact(PERMUTATION, PLACE, k) && Listed(k + 1, end))
  }

  lemma {:induction false} ListedAt(i: nat, end: nat, k: nat)
    requires i <= k < end <= 24 && Listed(i, end)
    ensures CycleFact(PERMUTATION, PLACE, k)
    decreases end - i
  {
    if i < k { ListedAt(i + 1, end, k); }
  }

  lemma Places0To5()
    ensures Listed(0, 6)
  {
  }

  lemma Places6To11()
    ensures Listed(6, 12)
  {
  }

  lemma Places12To17()
    ensures Listed(12, 18)
  {
  }

  lemma Places18To23()
    ensures Listed(18, 24)
  {
  }

  lemma PermutationIsCycle()
    ensures IsCycle(PERMUTATION, PLACE)
  {
    forall k | 0 <= k < 24 ensures CycleFact(PERMUTATION, PLACE, k) {
      if k < 6 { Places0To5(); ListedAt(0, 6, k); }
      else if k < 12 { Places6To11(); ListedAt(6, 12, k); }
      else if k < 18 { Places12To17(); ListedAt(12, 18, k); }
      else { Places18To23(); ListedAt(18, 24, k); }
    }
  }

  lemma CycleIsInjective(p: seq<nat>, place: seq<nat>)
    requires IsCycle(p, place)
    ensures forall k :: 0 <= k < 24 ==> 0 < p[k] < 25 && place[p[k]] == k
  {
    forall k | 0 <= k < 24 ensures 0 < p[k] < 25 && place[p[k]] == k { assert CycleFact(p, place, k); }
  }

  function PiLanes(v: seq<int>): seq<int>
    requires |v| == 25
  {
    seq(25, i requires 0 <= i < 25 => v[PiSource(i)])
  }

  lemma PiRefines(v: seq<int>)
    requires Words(v)
    ensures Words(PiLanes(v)) && Lanes(PiLanes(v)) == Fips202.Pi(Lanes(v))
  {
    forall i | 0 <= i < 25
      ensures IsWord(PiLanes(v)[i]) && Lane(PiLanes(v)[i]) == Fips202.Pi(Lanes(v))[i]
    {
      var lane := Fips202.Pi(Lanes(v))[i];
      forall z | 0 <= z < 64 ensures lane[z] == Lane(v[PiSource(i)])[z] {}
    }
  }

  /** Walking the cycle in place, with one lane kept aside, moves every lane at once. */
  method PermuteWords(s: array<int>, p: seq<nat>, ghost place: seq<nat>)
    requires s.Length == 25 && IsCycle(p, place)
    modifies s
    ensures s[..] == PiLanes(old(s[..]))
  {
    ghost var v := s[..];
    CycleIsInjective(p, place);
    var t := s[p[0]];
    for i := 0 to |p| - 1
      invariant s[0] == v[0]
      invariant forall k :: 0 <= k < i ==> s[p[k]] == v[p[k + 1]]
      invariant forall k :: i <= k < 24 ==> s[p[k]] == v[p[k]]
    {
      s[p[i]] := s[p[i + 1]];
    }
    s[p[|p| - 1]] := t;
    forall i | 0 <= i < 25 ensures s[i] == v[PiSource(i)] {
      if i > 0 {
        assert CycleFact(p, place, i - 1);
        assert CycleFact(p, place, place[i]);
      }
    }
  }

  // ----- chi -----

  /** The lane `n` places to the right of lane `i` in its row. */
  function Right(i: nat, n: nat): nat
    requires i < 25
  {
    5 * (i / 5) + (i % 5 + n) % 5
  }

  function ChiLanes(v: seq<int>): seq<int>
    requires |v| == 25
  {
    seq(25, i requires 0 <= i < 25 => BitXor(v[i], BitAnd(BitNot(v[Right(i, 1)]), v[Right(i, 2)])))
  }

  lemma ChiBit(a: int, b: int, c: int, z: nat)
    ensures Bit(BitXor(a, BitAnd(BitNot(b), c)), z) == (Bit(a, z) != (!Bit(b, z) && Bit(c, z)))
  {
    BitwiseBit(Xor, a, BitAnd(BitNot(b), c), z);
    BitwiseBit(And, BitNot(b), c, z);
    NotBit(b, z);
  }

  lemma ChiLane(v: seq<int>, i: nat)
    requires Words(v) && i < 25
    ensures IsWord(ChiLanes(v)[i]) && Lane(ChiLanes(v)[i]) == Fips202.Chi(Lanes(v))[i]
  {
    var a, b, c := v[i], v[Right(i, 1)], v[Right(i, 2)];
    AndNotIsWord(b, c);
    XorIsWord(a, BitAnd(BitNot(b), c));
    var w, lane := BitXor(a, BitAnd(BitNot(b), c)), Fips202.Chi(Lanes(v))[i];
    assert Lane(w) == lane by {
      forall z | 0 <= z < 64 ensures lane[z] == Lane(w)[z] {
        ChiBit(a, b, c, z);
        ChiAt(Lanes(v), i % 5, i / 5, z);
      }
    }
  }

  lemma ChiRefines(v: seq<int>)
    requires Words(v)
    ensures Words(ChiLanes(v)) && Lanes(ChiLanes(v)) == Fips202.Chi(Lanes(v))
  {
    forall i | 0 <= i < 25
      ensures IsWord(ChiLanes(v)[i]) && Lane(ChiLanes(v)[i]) == Fips202.Chi(Lanes(v))[i]
    {
      ChiLane(v, i);
    }
  }

  /** A row determines its own image under chi. */
  lemma ChiRow(v: seq<int>, y: nat, j: nat)
    requires |v| == 25 && y < 5 && j < 5
    ensures ChiLanes(v)[5 * y + j]
            == BitXor(v[5 * y + j], BitAnd(BitNot(v[5 * y + (j + 1) % 5]), v[5 * y + (j + 2) % 5]))
  {
    assert (5 * y + j) % 5 == j && (5 * y + j) / 5 == y;
  }

  /** The words of row `y`, its first two repeated. */
  function Unrolled(v: seq<int>, y: nat): seq<int>
    requires |v| == 25 && y < 5
  {
    var i := 5 * y;
    [v[i], v[i + 1], v[i + 2], v[i + 3], v[i + 4], v[i], v[i + 1]]
  }

  function Mixed(t: seq<int>, j: nat): int
    requires j + 2 < |t|
  {
    BitXor(t[j], BitAnd(BitNot(t[j + 1]), t[j + 2]))
  }

  lemma MixedIsChi(v: seq<int>, y: nat, j: nat)
    requires |v| == 25 && y < 5 && j < 5
    ensures ChiLanes(v)[5 * y + j] == Mixed(Unrolled(v, y), j)
  {
    var t := Unrolled(v, y);
    assert t[j] == v[5 * y + j] && t[j + 1] == v[5 * y + (j + 1) % 5] && t[j + 2] == v[5 * y + (j + 2) % 5];
    ChiRow(v, y, j);
  }

  method MixRow(s: array<int>, i: nat, ghost y: nat)
    requires s.Length == 25 && y < 5 && i == 5 * y
    modifies s
    ensures forall k :: 0 <= k < 25 && !(i <= k < i + 5) ==> s[k] == old(s[k])
    ensures forall k :: i <= k < i + 5 ==> s[k] == Mixed(Unrolled(old(s[..]), y), k - i)
  {
    var t := [s[i], s[i + 1], s[i + 2], s[i + 3], s[i + 4], s[i], s[i + 1]];
    assert t == Unrolled(s[..], y);
    for j := 0 to 5
      invariant forall k :: 0 <= k < 25 && !(i <= k < i + j) ==> s[k] == old(s[k])
      invariant forall k :: i <= k < i + j ==> s[k] == Mixed(t, k - i)
    {
      s[i + j] := BitXor(t[j], BitAnd(BitNot(t[j + 1]), t[j + 2]));
    }
  }

  lemma RowIsChi(v: seq<int>, w: seq<int>, y: nat)
    requires |v| == |w| == 25 && y < 5 && forall k :: 5 * y <= k < 5 * y + 5 ==> w[k] == v[k]
    ensures forall k :: 5 * y <= k < 5 * y + 5 ==> Mixed(Unrolled(w, y), k - 5 * y) == ChiLanes(v)[k]
  {
    assert Unrolled(w, y) == Unrolled(v, y);
    forall k | 5 * y <= k < 5 * y + 5 ensures Mixed(Unrolled(w, y), k - 5 * y) == ChiLanes(v)[k] {
      MixedIsChi(v, y, k - 5 * y);
    }
  }

  method Chi(s: array<int>)
    requires s.Length == 25
    modifies s
    ensures s[..] == ChiLanes(old(s[..]))
  {
    ghost var v := s[..];
    var i := 0;
    ghost var y := 0;
    while i < 25
      invariant 0 <= y <= 5 && i == 5 * y
      invariant forall k :: i <= k < 25 ==> s[k] == v[k]
      invariant forall k :: 0 <= k < i ==> s[k] == ChiLanes(v)[k]
    {
      RowIsChi(v, s[..], y);
      MixRow(s, i, y);
      i, y := i + 5, y + 1;
    }
  }

  // ----- iota and the rounds -----

  function IotaLanes(v: seq<int>, c: int): seq<int>
    requires |v| == 25
  {
    v[0 := BitXor(v[0], c)]
  }

  lemma IotaRefines(v: seq<int>, rnd: nat)
    requires Words(v) && rnd < 24
    ensures Words(IotaLanes(v, RoundConstants.RC[rnd]))
    ensures Lanes(IotaLanes(v, RoundConstants.RC[rnd])) == Fips202.Iota(Lanes(v), rnd)
  {
    var c := RoundConstants.RC[rnd];
    RoundConstants.ConstantIsWord(rnd);
    XorIsWord(v[0], c);
    var w, lane := BitXor(v[0], c), Fips202.Iota(Lanes(v), rnd)[0];
    assert Lane(w) == lane by {
      forall z | 0 <= z < 64 ensures Lane(w)[z] == lane[z] {
        BitwiseBit(Xor, v[0], c, z);
        RoundConstants.ConstantBit(rnd, z);
      }
    }
  }

  /** What one turn of the source's loop does to the list of lanes. */
  function RoundLanes(v: seq<int>, rnd: nat): seq<int>
    requires |v| == 25 && rnd < 24
  {
    IotaLanes(ChiLanes(PiLanes(Rotated(ThetaLanes(v)))), RoundConstants.RC[rnd])
  }

  function Rotated(v: seq<int>): seq<int>
    requires |v| == 25
  {
    RotationsAreSmall();
    RhoLanes(v, ROTATIONS)
  }

  lemma RotationsAreSmall()
    ensures |ROTATIONS| == 25 && forall i :: 0 <= i < 25 ==> ROTATIONS[i] < 64
  {
    RotationsFollowWalk();
    WalkAmounts(VISIT_TIME, VISITED, ROTATIONS);
  }

  lemma RotatedRefines(v: seq<int>)
    requires Words(v)
    ensures Words(Rotated(v)) && Lanes(Rotated(v)) == Fips202.Rho(Lanes(v))
  {
    RotationsFollowWalk();
    RotationsAreSmall();
    RhoRefines(VISIT_TIME, VISITED, ROTATIONS, v);
  }

  lemma RoundRefines(v: seq<int>, rnd: nat)
    requires Words(v) && rnd < 24
    ensures Words(RoundLanes(v, rnd)) && Lanes(RoundLanes(v, rnd)) == Rnd(Lanes(v), rnd)
  {
    var t := ThetaLanes(v);
    ThetaRefines(v);
    var r := Rotated(t);
    RotatedRefines(t);
    var p := PiLanes(r);
    PiRefines(r);
    var c := ChiLanes(p);
    ChiRefines(p);
    IotaRefines(c, rnd);
  }

  method Round(s: array<int>, rnd: nat)
    requires s.Length == 25 && rnd < 24
    modifies s
    ensures s[..] == RoundLanes(old(s[..]), rnd)
  {
    Theta(s);
    RotationsAreSmall();
    RotateWords(s, ROTATIONS);
    PermutationIsCycle();
    PermuteWords(s, PERMUTATION, PLACE);
    Chi(s);
    s[0] := BitXor(s[0], RoundConstants.RC[rnd]);
  }

  /** The whole transform is the 24 rounds of the standard, and every lane stays a 64-bit word. */
  method Transform(s: array<int>)
    requires s.Length == 25 && Words(s[..])
    modifies s
    ensures Words(s[..]) && Lanes(s[..]) == Rounds(old(Lanes(s[..])), ROUNDS)
  {
    for rnd := 0 to 24
      invariant Words(s[..]) && Lanes(s[..]) == Rounds(old(Lanes(s[..])), rnd)
    {
      RoundRefines(s[..], rnd);
      Round(s, rnd);
    }
  }
}
