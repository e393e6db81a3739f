/**
 The reference: Keccak-p[1600, 24], the sponge construction and SHAKE256 on strings of bits,
 transcribed from sections 3, 4, 5 and 6 of FIPS 202.
 */
module Fips202 {
  import DivMod

  type Bits = seq<bool>

  /** A[x, y, z] is `a[5 * y + x][z]`: 25 lanes of w = 64 bits (section 3.1). */
  type StateArray = a: seq<Bits> | |a| == 25 && forall i :: 0 <= i < 25 ==> |a[i]| == 64
    witness seq(25, _ => seq(64, _ => false))

  function Get(a: StateArray, x: nat, y: nat, z: nat): bool
    requires x < 5 && y < 5 && z < 64
  {
    a[5 * y + x][z]
  }

  type Coordinates = c: (nat, nat, nat) | c.0 < 5 && c.1 < 5 && c.2 < 64 witness (0, 0, 0)

  function Build(f: Coordinates -> bool): StateArray {
    seq(25, i requires 0 <= i < 25 => seq(64, z requires 0 <= z < 64 => f((i % 5, i / 5, z))))
  }

  // ----- step mappings (section 3.2) -----

  function ColumnParity(a: StateArray, x: nat, z: nat): bool
    requires x < 5 && z < 64
  {
    Get(a, x, 0, z) != (Get(a, x, 1, z) != (Get(a, x, 2, z) != (Get(a, x, 3, z) != Get(a, x, 4, z))))
  }

  function Theta(a: StateArray): StateArray {
    Build((c: Coordinates) =>
      Get(a, c.0, c.1, c.2) != (ColumnParity(a, (c.0 - 1) % 5, c.2) != ColumnParity(a, (c.0 + 1) % 5, (c.2 - 1) % 64)))
  }

  function Before(z: nat): nat { if z == 0 then 63 else z - 1 }

  /** Theta with its coordinates spelled out: lane `i` lies in column `x`. */
  lemma ThetaAt(a: StateArray, i: nat, x: nat, z: nat)
    requires i < 25 && x == i % 5 && z < 64
    ensures Theta(a)[i][z]
            == (a[i][z] != (ColumnParity(a, (x + 4) % 5, z) != ColumnParity(a, (x + 1) % 5, Before(z))))
  {
    assert Get(a, x, i / 5, z) == a[i][z];
    assert (x - 1) % 5 == (x + 4) % 5;
    assert (z - 1) % 64 == Before(z);
  }

  function Rotate(lane: Bits, offset: nat): Bits
    requires |lane| == 64
  {
    seq(64, z requires 0 <= z < 64 => lane[(z - offset) % 64])
  }

  /** Algorithm 2: the lanes are visited along a walk, lane `t` of the walk moving by (t+1)(t+2)/2. */
  function RhoFrom(a: StateArray, t: nat, x: nat, y: nat, a': StateArray): StateArray
    requires t <= 24 && x < 5 && y < 5
    decreases 24 - t
  {
    if t == 24 then a'
    else RhoFrom(a, t + 1, y, (2 * x + 3 * y) % 5, a'[5 * y + x := Rotate(a[5 * y + x], (t + 1) * (t + 2) / 2)])
  }

  function Rho(a: StateArray): StateArray { RhoFrom(a, 0, 1, 0, a) }

  function Pi(a: StateArray): StateArray {
    Build((c: Coordinates) => Get(a, (c.0 + 3 * c.1) % 5, c.0, c.2))
  }

  function Chi(a: StateArray): StateArray {
    Build((c: Coordinates) =>
      Get(a, c.0, c.1, c.2) != (!Get(a, (c.0 + 1) % 5, c.1, c.2) && Get(a, (c.0 + 2) % 5, c.1, c.2)))
  }

  lemma ChiAt(a: StateArray, x: nat, y: nat, z: nat)
    requires x < 5 && y < 5 && z < 64
    ensures Chi(a)[5 * y + x][z]
            == (a[5 * y + x][z] != (!a[5 * y + (x + 1) % 5][z] && a[5 * y + (x + 2) % 5][z]))
  {
    var i := 5 * y + x;
    assert i % 5 == x && i / 5 == y;
  }

  /** One turn of the loop of algorithm 5, on the eight bits of R. */
  function Clock(r: Bits): Bits
    requires |r| == 8
  {
    var out := r[7];
    [out, r[0], r[1], r[2], r[3] != out, r[4] != out, r[5] != out, r[6]]
  }

  function Register(t: nat): (r: Bits)
    ensures |r| == 8
  {
    if t == 0 then [true, false, false, false, false, false, false, false] else Clock(Register(t - 1))
  }

  /** Algorithm 5. */
  function Rc(t: nat): bool { Register(t % 255)[0] }

  /** The round constant: bit 2^j - 1 is rc(j + 7 ir) for j from 0 to 6, all others are 0. */
  function RoundConstant(ir: nat, z: nat): bool {
    if z == 0 then Rc(7 * ir)
    else if z == 1 then Rc(1 + 7 * ir)
    else if z == 3 then Rc(2 + 7 * ir)
    else if z == 7 then Rc(3 + 7 * ir)
    else if z == 15 then Rc(4 + 7 * ir)
    else if z == 31 then Rc(5 + 7 * ir)
    else if z == 63 then Rc(6 + 7 * ir)
    else false
  }

  function Iota(a: StateArray, ir: nat): StateArray {
    a[0 := seq(64, z requires 0 <= z < 64 => a[0][z] != RoundConstant(ir, z))]
  }

  function Rnd(a: StateArray, ir: nat): StateArray {
    Iota(Chi(Pi(Rho(Theta(a)))), ir)
  }

  const ROUNDS: nat := 24

  /** The first `n` rounds of Keccak-p[1600, 24] (section 3.3). */
  function Rounds(a: StateArray, n: nat): StateArray {
    if n == 0 then a else Rnd(Rounds(a, n - 1), n - 1)
  }

  /** Strings of 1600 bits and state arrays (sections 3.1.2 and 3.1.3). */
  type StateString = s: Bits | |s| == 1600 witness seq(1600, _ => false)

  function ToArray(s: StateString): StateArray {
    seq(25, i requires 0 <= i < 25 => seq(64, z requires 0 <= z < 64 => s[64 * i + z]))
  }

  function ToString(a: StateArray): StateString {
    seq(1600, k requires 0 <= k < 1600 => a[k / 64][k % 64])
  }

  function KeccakF(s: StateString): StateString { ToString(Rounds(ToArray(s), ROUNDS)) }

  // ----- sponge construction (section 4) and SHAKE256 (sections 5.1, 6.2) -----

  function Zeros(n: nat): Bits { seq(n, _ => false) }

  /** S xor (block || 0^c). */
  function XorBlock(s: StateString, block: Bits): StateString
    requires |block| <= 1600
  {
    seq(1600, k requires 0 <= k < 1600 => if k < |block| then s[k] != block[k] else s[k])
  }

  /** The sponge construction is generic in the function it iterates. */
  type Permutation = StateString -> StateString

  /** Steps 5 and 6 of algorithm 8: the string is cut into blocks of `r` bits. */
  function Absorb(f: Permutation, s: StateString, p: Bits, r: nat): StateString
    requires 0 < r <= 1600
    decreases |p|
  {
    if |p| < r then s else Absorb(f, f(XorBlock(s, p[..r])), p[r..], r)
  }

  /** Steps 7 to 10 of algorithm 8: `z` is the output so far. */
  function Squeeze(f: Permutation, z: Bits, s: StateString, r: nat, d: nat): Bits
    requires 0 < r <= 1600
    decreases d - |z|
  {
    var z' := z + s[..r];
    if d <= |z'| then z'[..d] else Squeeze(f, z', f(s), r, d)
  }

  /** The sponge on a string that is already padded. */
  function SpongePadded(f: Permutation, p: Bits, r: nat, d: nat): Bits
    requires 0 < r <= 1600
  {
    Squeeze(f, [], Absorb(f, Zeros(1600), p, r), r, d)
  }

  /** pad10*1(x, m), algorithm 9. */
  function Pad(x: nat, m: nat): (p: Bits)
    requires x > 0
    ensures (m + |p|) % x == 0
  {
    var j := (0 - m - 2) % x;
    assert (m + j + 2) % x == 0 by { PadFits(x, m); }
    [true] + Zeros(j) + [true]
  }

  lemma PadFits(x: nat, m: nat)
    requires x > 0
    ensures (m + (0 - m - 2) % x + 2) % x == 0
  {
    var q, j := (0 - m - 2) / x, (0 - m - 2) % x;
    assert m + j + 2 == -q * x;
    DivMod.MultipleMod(-q, x);
  }

  function Sponge(f: Permutation, n: Bits, r: nat, d: nat): Bits
    requires 0 < r <= 1600
  {
    SpongePadded(f, n + Pad(r, |n|), r, d)
  }

  /** KECCAK[c](N, d) = SPONGE[Keccak-p[1600, 24], pad10*1, 1600 - c](N, d). */
  function Keccak(c: nat, n: Bits, d: nat): Bits
    requires c < 1600
  {
    Sponge(KeccakF, n, 1600 - c, d)
  }

  function Shake256(m: Bits, d: nat): Bits { Keccak(512, m + [true, true, true, true], d) }
}
