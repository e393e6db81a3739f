/**
 Python's unbounded integers seen as two's-complement bit strings: `Bit(n, k)` is bit `k` of `n`,
 and a negative number has infinitely many ones at the top.
 */
module PythonInts {

  function Pow2(n: nat): (p: int)
    ensures p > 0
  {
    if n == 0 then 1 else 2 * Pow2(n - 1)
  }

  /** Division by two rounds down here as it does in Python. */
  function Bit(n: int, k: nat): bool
    decreases k
  {
    if k == 0 then n % 2 == 1 else Bit(n / 2, k - 1)
  }

  datatype Gate = And | Or | Xor {
    function Apply(x: bool, y: bool): bool {
      match this
      case And => x && y
      case Or => x || y
      case Xor => x != y
    }
  }

  function One(b: bool): nat { if b then 1 else 0 }

  function Size(n: int): nat { if n < 0 then -n - 1 else n }

  /** The operators `&`, `|` and `^` on unbounded integers. */
  function Bitwise(g: Gate, a: int, b: int): int
    decreases Size(a) + Size(b)
  {
    if a in {0, -1} && b in {0, -1} then (if g.Apply(a < 0, b < 0) then -1 else 0)
    else 2 * Bitwise(g, a / 2, b / 2) + One(g.Apply(a % 2 == 1, b % 2 == 1))
  }

  function BitAnd(a: int, b: int): int { Bitwise(And, a, b) }
  function BitOr(a: int, b: int): int { Bitwise(Or, a, b) }
  function BitXor(a: int, b: int): int { Bitwise(Xor, a, b) }
  function BitNot(a: int): int { -a - 1 }
  function ShiftLeft(a: int, n: nat): int { if n == 0 then a else 2 * ShiftLeft(a, n - 1) }
  function ShiftRight(a: int, n: nat): int
    decreases n
  {
    if n == 0 then a else ShiftRight(a / 2, n - 1)
  }

  lemma {:induction false} SignBits(n: int, k: nat)
    requires n in {0, -1}
    ensures Bit(n, k) == (n < 0)
    decreases k
  {
    if k > 0 { SignBits(n / 2, k - 1); }
  }

  lemma {:induction false} BitwiseBit(g: Gate, a: int, b: int, k: nat)
    ensures Bit(Bitwise(g, a, b), k) == g.Apply(Bit(a, k), Bit(b, k))
    decreases k
  {
    if a in {0, -1} && b in {0, -1} {
      SignBits(a, k);
      SignBits(b, k);
      SignBits(Bitwise(g, a, b), k);
    } else {
      var rest := Bitwise(g, a / 2, b / 2);
      assert Bitwise(g, a, b) / 2 == rest;
      if k > 0 { BitwiseBit(g, a / 2, b / 2, k - 1); }
    }
  }

  /** The result is negative exactly when the gate says so, and no wider than the operands. */
  lemma {:induction false} BitwiseRange(g: Gate, a: int, b: int, n: nat)
    requires -Pow2(n) <= a < Pow2(n) && -Pow2(n) <= b < Pow2(n)
    ensures -Pow2(n) <= Bitwise(g, a, b) < Pow2(n)
    ensures Bitwise(g, a, b) < 0 <==> g.Apply(a < 0, b < 0)
    decreases n
  {
    if !(a in {0, -1} && b in {0, -1}) {
      BitwiseRange(g, a / 2, b / 2, n - 1);
    }
  }

  lemma {:induction false} NotBit(a: int, k: nat)
    ensures Bit(BitNot(a), k) == !Bit(a, k)
    decreases k
  {
    if k > 0 {
      assert BitNot(a) / 2 == BitNot(a / 2);
      NotBit(a / 2, k - 1);
    }
  }

  lemma {:induction false} ShiftLeftBit(a: int, n: nat, k: nat)
    ensures Bit(ShiftLeft(a, n), k) == (k >= n && Bit(a, k - n))
    decreases n
  {
    if n > 0 && k > 0 { ShiftLeftBit(a, n - 1, k - 1); }
  }

  lemma {:induction false} ShiftRightBit(a: int, n: nat, k: nat)
    ensures Bit(ShiftRight(a, n), k) == Bit(a, k + n)
    decreases n
  {
    if n > 0 { ShiftRightBit(a / 2, n - 1, k); }
  }

  lemma {:induction false} HighBitsAreZero(a: int, n: nat, k: nat)
    requires 0 <= a < Pow2(n) && n <= k
    ensures !Bit(a, k)
    decreases k
  {
    if n == 0 {
      SignBits(a, k);
    } else {
      HighBitsAreZero(a / 2, n - 1, k - 1);
    }
  }

  /** The low `n` bits are all ones. */
  lemma {:induction false} MaskBit(n: nat, k: nat)
    ensures Bit(Pow2(n) - 1, k) == (k < n)
    decreases n
  {
    if n == 0 {
      SignBits(0, k);
    } else if k > 0 {
      assert (Pow2(n) - 1) / 2 == Pow2(n - 1) - 1;
      MaskBit(n - 1, k - 1);
    }
  }

  /** Numbers of `n` bits are determined by their bits. */
  lemma {:induction false} SameBitsSameNumber(a: int, b: int, n: nat)
    requires 0 <= a < Pow2(n) && 0 <= b < Pow2(n)
    requires forall k: nat :: k < n ==> Bit(a, k) == Bit(b, k)
    ensures a == b
    decreases n
  {
    if n > 0 {
      assert Bit(a, 0) == Bit(b, 0);
      forall k: nat | k < n - 1 ensures Bit(a / 2, k) == Bit(b / 2, k) {
        assert Bit(a, k + 1) == Bit(b, k + 1);
      }
      SameBitsSameNumber(a / 2, b / 2, n - 1);
    }
  }

  /** A number put together from a low and a high part shows the bits of both. */
  lemma {:induction false} JoinedBit(low: int, high: int, n: nat, k: nat)
    requires 0 <= low < Pow2(n)
    ensures Bit(low + ShiftLeft(high, n), k) == if k < n then Bit(low, k) else Bit(high, k - n)
    decreases n
  {
    if n > 0 {
      assert (low + ShiftLeft(high, n)) / 2 == low / 2 + ShiftLeft(high, n - 1);
      if k > 0 { JoinedBit(low / 2, high, n - 1, k - 1); }
    }
  }

  lemma {:induction false} ShiftTwice(x: int, m: nat, n: nat)
    ensures ShiftLeft(ShiftLeft(x, m), n) == ShiftLeft(x, m + n)
    decreases n
  {
    if n > 0 { ShiftTwice(x, m, n - 1); }
  }

  lemma ShiftByPowers(x: int)
    ensures ShiftLeft(x, 1) == 2 * x
    ensures ShiftLeft(x, 2) == 4 * x
    ensures ShiftLeft(x, 4) == 16 * x
    ensures ShiftLeft(x, 8) == 256 * x
  {
    ShiftTwice(x, 1, 1);
    ShiftTwice(x, 2, 2);
    ShiftTwice(x, 4, 4);
    assert ShiftLeft(4 * x, 2) == 4 * (4 * x) by { ShiftTwice(4 * x, 1, 1); }
    assert ShiftLeft(16 * x, 4) == 16 * (16 * x) by {
      ShiftTwice(16 * x, 2, 2);
      ShiftTwice(16 * x, 1, 1);
      ShiftTwice(64 * x, 1, 1);
    }
  }

  // ----- 64-bit words -----

  const WORD: int := 0x1_0000_0000_0000_0000

  predicate IsWord(x: int) { 0 <= x < WORD }

  lemma WordSize()
    ensures Pow2(64) == WORD
  {
    assert Pow2(8) == 256;
    assert Pow2(16) == 0x1_0000 by { PowSum(8, 8); }
    assert Pow2(32) == 0x1_0000_0000 by { PowSum(16, 16); }
    PowSum(32, 32);
  }

  lemma {:induction false} PowSum(m: nat, n: nat)
    ensures Pow2(m + n) == Pow2(m) * Pow2(n)
    decreases m
  {
    if m > 0 {
      PowSum(m - 1, n);
      assert 2 * (Pow2(m - 1) * Pow2(n)) == (2 * Pow2(m - 1)) * Pow2(n);
    }
  }

  lemma WordMaskBit(k: nat)
    ensures Bit(WORD - 1, k) == (k < 64)
  {
    WordSize();
    MaskBit(64, k);
  }

  lemma WordHighBits(a: int, k: nat)
    requires IsWord(a) && k >= 64
    ensures !Bit(a, k)
  {
    WordSize();
    HighBitsAreZero(a, 64, k);
  }

  lemma XorIsWord(a: int, b: int)
    requires IsWord(a) && IsWord(b)
    ensures IsWord(BitXor(a, b))
  {
    WordSize();
    BitwiseRange(Xor, a, b, 64);
  }

  /** The complement of a word is a negative integer, yet masking a word with it gives a word. */
  lemma AndNotIsWord(a: int, b: int)
    requires IsWord(a) && IsWord(b)
    ensures BitNot(a) < 0 && IsWord(BitAnd(BitNot(a), b))
  {
    WordSize();
    BitwiseRange(And, BitNot(a), b, 64);
  }

  lemma {:induction false} AndBelow(a: int, b: int)
    requires b >= 0
    ensures 0 <= BitAnd(a, b) <= b
    decreases Size(a) + Size(b)
  {
    if !(a in {0, -1} && b in {0, -1}) {
      AndBelow(a / 2, b / 2);
    }
  }
}
