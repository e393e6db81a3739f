/**
 The 24 round constants of the source are the ones that the standard's shift register produces.
 */
module RoundConstants {
  import DivMod
  import opened PythonInts
  import opened Fips202

  const RC: seq<int> :=
    [ 0x0000000000000001, 0x0000000000008082, 0x800000000000808A, 0x8000000080008000,
      0x000000000000808B, 0x0000000080000001, 0x8000000080008081, 0x8000000000008009,
      0x000000000000008A, 0x0000000000000088, 0x0000000080008009, 0x000000008000000A,
      0x000000008000808B, 0x800000000000008B, 0x8000000000008089, 0x8000000000008003,
      0x8000000000008002, 0x8000000000000080, 0x000000000000800A, 0x800000008000000A,
      0x8000000080008081, 0x8000000000008080, 0x0000000080000001, 0x8000000080008008 ]

  /** The seven bits of a round constant, put at places 0, 1, 3, 7, 15, 31 and 63. */
  function Spread(b: Bits): int
    requires |b| == 7
  {
    One(b[0]) + ShiftLeft(One(b[1]) + ShiftLeft(One(b[2]) + ShiftLeft(One(b[3]) + ShiftLeft(One(b[4])
    + ShiftLeft(One(b[5]) + ShiftLeft(One(b[6]), 32), 16), 8), 4), 2), 1)
  }

  /** The bit at the bottom of a gap of `n` places, and the bits above the gap. */
  lemma GapBit(low: bool, high: int, n: nat, k: nat)
    requires n > 0
    ensures Bit(One(low) + ShiftLeft(high, n), k) == if k == 0 then low else k >= n && Bit(high, k - n)
  {
    assert Pow2(n) >= 2;
    JoinedBit(One(low), high, n, k);
    if 0 < k < n { HighBitsAreZero(One(low), 1, k); }
  }

  /** Four bits below a number that starts at place 15. */
  lemma LowBits(b: Bits, h: int, k: nat)
    requires |b| == 4
    ensures Bit(
      One(b[0]) + ShiftLeft(One(b[1]) + ShiftLeft(One(b[2]) + ShiftLeft(One(b[3]) + ShiftLeft(h, 8), 4), 2), 1), k)
            == (if k == 0 then b[0] else if k == 1 then b[1] else if k == 3 then b[2] else if k == 7 then b[3]
                else k >= 15 && Bit(h, k - 15))
  {
    var h3 := One(b[3]) + ShiftLeft(h, 8);
    var h2 := One(b[2]) + ShiftLeft(h3, 4);
    var h1 := One(b[1]) + ShiftLeft(h2, 2);
    GapBit(b[0], h1, 1, k);
    if k >= 1 { GapBit(b[1], h2, 2, k - 1); }
    if k >= 3 { GapBit(b[2], h3, 4, k - 3); }
    if k >= 7 { GapBit(b[3], h, 8, k - 7); }
  }

  /** Three bits at places 0, 16 and 48. */
  lemma HighBits(b: Bits, k: nat)
    requires |b| == 3
    ensures Bit(One(b[0]) + ShiftLeft(One(b[1]) + ShiftLeft(One(b[2]), 32), 16), k)
            == (if k == 0 then b[0] else if k == 16 then b[1] else k == 48 && b[2])
  {
    var h1 := One(b[1]) + ShiftLeft(One(b[2]), 32);
    GapBit(b[0], h1, 16, k);
    if k >= 16 { HighTwoBits(b[1], b[2], k - 16); }
  }

  lemma HighTwoBits(a: bool, b: bool, k: nat)
    ensures Bit(One(a) + ShiftLeft(One(b), 32), k) == (if k == 0 then a else k == 32 && b)
  {
    GapBit(a, One(b), 32, k);
    if k > 32 { HighBitsAreZero(One(b), 1, k - 32); }
  }

  /** Where the standard puts the seven bits. */
  function SpreadBits(b: Bits, k: nat): bool
    requires |b| == 7
  {
    if k == 0 then b[0] else if k == 1 then b[1] else if k == 3 then b[2] else if k == 7 then b[3]
    else if k == 15 then b[4] else if k == 31 then b[5] else k == 63 && b[6]
  }

  lemma SpreadBit(b: Bits, k: nat)
    requires |b| == 7
    ensures Bit(Spread(b), k) == SpreadBits(b, k)
  {
    var low, high := b[..4], b[4..];
    var h := One(high[0]) + ShiftLeft(One(high[1]) + ShiftLeft(One(high[2]), 32), 16);
    LowBits(low, h, k);
    if k >= 15 { HighBits(high, k - 15); }
  }

  lemma ShiftByMore(x: int)
    ensures ShiftLeft(x, 16) == 0x1_0000 * x
    ensures ShiftLeft(x, 32) == 0x1_0000_0000 * x
  {
    ShiftByPowers(x);
    ShiftByPowers(256 * x);
    ShiftTwice(x, 8, 8);
    ShiftByPowers(0x1_0000 * x);
    ShiftByPowers(0x100_0000 * x);
    ShiftTwice(0x1_0000 * x, 8, 8);
    ShiftTwice(x, 16, 16);
  }

  function Value(b: Bits): int
    requires |b| == 7
  {
    One(b[0]) + 2 * (One(b[1]) + 4 * (One(b[2]) + 16 * (One(b[3]) + 0x100 * (One(b[4])
    + 0x1_0000 * (One(b[5]) + 0x1_0000_0000 * One(b[6]))))))
  }

  lemma SpreadValue(b: Bits)
    requires |b| == 7
    ensures Spread(b) == Value(b)
  {
    var h5 := One(b[5]) + 0x1_0000_0000 * One(b[6]);
    var h4 := One(b[4]) + 0x1_0000 * h5;
    var h3 := One(b[3]) + 0x100 * h4;
    var h2 := One(b[2]) + 16 * h3;
    ShiftByMore(One(b[6]));
    ShiftByMore(h5);
    ShiftByPowers(h4);
    ShiftByPowers(h3);
    ShiftByPowers(h2);
    ShiftByPowers(One(b[1]) + 4 * h2);
  }

  // ----- the shift register -----

  /** The next seven output bits of a register, and the register after them. */
  function Output(r: Bits): Bits
    requires |r| == 8
  {
    var a := Clock(r);
    var b := Clock(a);
    var c := Clock(b);
    var d := Clock(c);
    var e := Clock(d);
    var f := Clock(e);
    [r[0], a[0], b[0], c[0], d[0], e[0], f[0]]
  }

  function Clock7(r: Bits): Bits
    requires |r| == 8
  {
    Clock(Clock(Clock(Clock(Clock(Clock(Clock(r)))))))
  }

  /** The register before each round. */
  const REGISTERS: seq<Bits> :=
    [ [true, false, false, false, false, false, false, false],
      [false, false, false, false, false, false, false, true],
      [false, false, false, true, true, false, true, true],
      [false, true, false, true, true, false, false, false],
      [true, true, true, true, true, false, true, true],
      [true, false, false, true, false, false, false, false],
      [true, false, true, false, true, true, false, false],
      [true, true, true, true, false, false, true, false],
      [false, true, false, true, false, false, true, true],
      [false, false, false, false, true, true, true, false],
      [true, false, false, false, false, false, true, false],
      [false, false, true, true, false, true, true, true],
      [true, false, true, false, true, false, true, true],
      [true, false, true, true, false, false, true, true],
      [true, true, false, false, false, true, true, false],
      [true, true, false, true, false, true, false, true],
      [false, true, false, true, false, true, false, true],
      [false, true, false, true, false, true, false, false],
      [false, true, false, false, true, true, true, true],
      [false, false, false, true, false, true, true, true],
      [true, true, true, false, true, true, false, false],
      [false, true, true, true, true, true, false, false],
      [true, true, false, true, false, false, false, false],
      [false, false, true, false, false, false, true, false],
      [false, true, true, true, false, false, false, true] ]

  predicate RegisterFact(regs: seq<Bits>, constants: seq<int>, k: nat)
    requires |regs| == 25 && |constants| == 24 && k < 24
  {
    var r, r' := regs[k], regs[k + 1];
    |r| == |r'| == 8 && Clock7(r) == r' && Value(Output(r)) == constants[k]
  }

  predicate ListedBetween(k: nat, end: nat)
    requires k <= end <= 24
    decreases end - k
  {
    k == end || (RegisterFact(REGISTERS, RC, k) && ListedBetween(k + 1, end))
  }

  lemma {:induction false} ListedAt(i: nat, end: nat, k: nat)
    requires i <= k < end <= 24 && ListedBetween(i, end)
    ensures RegisterFact(REGISTERS, RC, k)
    decreases end - i
  {
    if i < k { ListedAt(i + 1, end, k); }
  }

  lemma Rounds0To1()
    ensures ListedBetween(0, 2)
  {
  }

  lemma Rounds2To3()
    ensures ListedBetween(2, 4)
  {
  }

  lemma Rounds4To5()
    ensures ListedBetween(4, 6)
  {
  }

  lemma Rounds6To7()
    ensures ListedBetween(6, 8)
  {
  }

  lemma Rounds8To9()
    ensures ListedBetween(8, 10)
  {
  }

  lemma Rounds10To11()
    ensures ListedBetween(10, 12)
  {
  }

  lemma Rounds12To13()
    ensures ListedBetween(12, 14)
  {
  }

  lemma Rounds14To16()
    ensures ListedBetween(14, 17)
  {
  }

  lemma Rounds17To19()
    ensures ListedBetween(17, 20)
  {
  }

  lemma Rounds20To23()
    ensures ListedBetween(20, 24)
  {
  }

  lemma Listed(k: nat)
    requires k < 24
    ensures RegisterFact(REGISTERS, RC, k)
  {
    if k < 2 { Rounds0To1(); ListedAt(0, 2, k); }
    else if k < 4 { Rounds2To3(); ListedAt(2, 4, k); }
    else if k < 6 { Rounds4To5(); ListedAt(4, 6, k); }
    else if k < 8 { Rounds6To7(); ListedAt(6, 8, k); }
    else if k < 10 { Rounds8To9(); ListedAt(8, 10, k); }
    else if k < 12 { Rounds10To11(); ListedAt(10, 12, k); }
    else if k < 14 { Rounds12To13(); ListedAt(12, 14, k); }
    else if k < 17 { Rounds14To16(); ListedAt(14, 17, k); }
    else if k < 20 { Rounds17To19(); ListedAt(17, 20, k); }
    else { Rounds20To23(); ListedAt(20, 24, k); }
  }

  lemma SevenTurns(t: nat)
    ensures Register(t + 7) == Clock7(Register(t))
    ensures Output(Register(t)) == [Register(t)[0], Register(t + 1)[0], Register(t + 2)[0], Register(t + 3)[0],
                                    Register(t + 4)[0], Register(t + 5)[0], Register(t + 6)[0]]
  {
    assert Register(t + 2) == Clock(Register(t + 1)) && Register(t + 4) == Clock(Register(t + 3));
    assert Register(t + 6) == Clock(Register(t + 5));
  }

  lemma {:induction false} RegisterIsListed(regs: seq<Bits>, constants: seq<int>, k: nat)
    requires |regs| == 25 && |constants| == 24 && k < 24
    requires regs[0] == Register(0) && forall j :: 0 <= j < 24 ==> RegisterFact(regs, constants, j)
    ensures Register(7 * k) == regs[k] && Value(Output(Register(7 * k))) == constants[k]
  {
    assert RegisterFact(regs, constants, k);
    if k > 0 {
      RegisterIsListed(regs, constants, k - 1);
      assert RegisterFact(regs, constants, k - 1);
      SevenTurns(7 * (k - 1));
    }
  }

  lemma FirstRegister()
    ensures REGISTERS[0] == Register(0)
  {
  }

  /** The constant of round `ir` is spread out from seven outputs of the shift register. */
  lemma ConstantIsSpread(ir: nat)
    requires ir < 24
    ensures RC[ir] == Spread(Output(Register(7 * ir)))
  {
    FirstRegister();
    forall j | 0 <= j < 24 ensures RegisterFact(REGISTERS, RC, j) { Listed(j); }
    RegisterIsListed(REGISTERS, RC, ir);
    SpreadValue(Output(Register(7 * ir)));
  }

  lemma RcIsOutput(t: nat)
    requires t < 255
    ensures Rc(t) == Register(t)[0]
  {
    var i := t % 255;
    DivMod.DivisionIsUnique(t, 255, 0, t);
    assert i == t;
    assert Rc(t) == Register(i)[0];
  }

  lemma OutputIsRc(ir: nat)
    requires ir < 24
    ensures Output(Register(7 * ir)) == [Rc(7 * ir), Rc(1 + 7 * ir), Rc(2 + 7 * ir), Rc(3 + 7 * ir),
                                         Rc(4 + 7 * ir), Rc(5 + 7 * ir), Rc(6 + 7 * ir)]
  {
    var t := 7 * ir;
    SevenTurns(t);
    RcIsOutput(t);
    RcIsOutput(t + 1);
    RcIsOutput(t + 2);
    RcIsOutput(t + 3);
    RcIsOutput(t + 4);
    RcIsOutput(t + 5);
    RcIsOutput(t + 6);
  }

  lemma SpreadOfRc(ir: nat, b: Bits, z: nat)
    requires z < 64
    requires b == [Rc(7 * ir), Rc(1 + 7 * ir), Rc(2 + 7 * ir), Rc(3 + 7 * ir),
                   Rc(4 + 7 * ir), Rc(5 + 7 * ir), Rc(6 + 7 * ir)]
    ensures Bit(Spread(b), z) == RoundConstant(ir, z)
  {
    SpreadBit(b, z);
  }

  /** Bit for bit, the source's constants are those of the standard. */
  lemma ConstantBit(ir: nat, z: nat)
    requires ir < 24 && z < 64
    ensures Bit(RC[ir], z) == RoundConstant(ir, z)
  {
    ConstantIsSpread(ir);
    OutputIsRc(ir);
    SpreadOfRc(ir, Output(Register(7 * ir)), z);
  }

  lemma ConstantIsWord(ir: nat)
    requires ir < 24
    ensures IsWord(RC[ir])
  {
    ConstantIsSpread(ir);
    SpreadValue(Output(Register(7 * ir)));
  }
}
