/**
 The sponge of the source, on bytes and a list of 25 lanes, and its agreement with SHAKE256 of the
 standard on strings of bits.
 */
module Sha3 {
  import opened PythonInts
  import opened Fips202
  import opened Sha3Transform
  import DivMod

  type byte = n: int | 0 <= n < 256

  /** Bytes as bits, the least significant first (section B.1). */
  function ToBits(b: seq<byte>): Bits {
    seq(8 * |b|, k requires 0 <= k < 8 * |b| => Bit(b[k / 8], k % 8))
  }

  /** The state string that a list of lanes stands for. */
  function StateBits(v: seq<int>): StateString
    requires |v| == 25
  {
    seq(1600, k requires 0 <= k < 1600 => Bit(v[k / 64], k % 64))
  }

  lemma StateBitsAreLanes(v: seq<int>)
    requires |v| == 25
    ensures ToArray(StateBits(v)) == Lanes(v) && ToString(Lanes(v)) == StateBits(v)
  {
    forall i | 0 <= i < 25 ensures ToArray(StateBits(v))[i] == Lanes(v)[i] {
      forall z | 0 <= z < 64 ensures ToArray(StateBits(v))[i][z] == Lanes(v)[i][z] {
        assert (64 * i + z) / 64 == i && (64 * i + z) % 64 == z;
      }
    }
  }

  // ----- words and octets -----

  function FromLe(b: seq<byte>): int {
    if b == [] then 0 else b[0] + 256 * FromLe(b[1..])
  }

  function ToLe(x: int, count: nat): (b: seq<byte>)
    ensures |b| == count
    decreases count
  {
    if count == 0 then [] else [x % 256] + ToLe(x / 256, count - 1)
  }

  lemma LowByteBit(low: int, high: int, k: nat)
    requires 0 <= low < 256
    ensures Bit(low + 256 * high, k) == if k < 8 then Bit(low, k) else Bit(high, k - 8)
  {
    ShiftByPowers(high);
    assert Pow2(8) == 256;
    JoinedBit(low, high, 8, k);
  }

  lemma {:induction false} FromLeBit(b: seq<byte>, k: nat)
    requires k < 8 * |b|
    ensures Bit(FromLe(b), k) == Bit(b[k / 8], k % 8)
  {
    LowByteBit(b[0], FromLe(b[1..]), k);
    if k >= 8 {
      FromLeBit(b[1..], k - 8);
      assert (k - 8) / 8 == k / 8 - 1 && (k - 8) % 8 == k % 8;
    }
  }

  lemma {:induction false} FromLeRange(b: seq<byte>)
    ensures 0 <= FromLe(b) < Pow2(8 * |b|)
  {
    if b != [] {
      FromLeRange(b[1..]);
      PowSum(8, 8 * |b[1..]|);
      assert Pow2(8) == 256;
    }
  }

  lemma FromLeIsWord(b: seq<byte>)
    requires |b| == 8
    ensures IsWord(FromLe(b))
  {
    FromLeRange(b);
    WordSize();
  }

  lemma {:induction false} ToLeBit(x: int, count: nat, k: nat)
    requires k < 8 * count
    ensures Bit(ToLe(x, count)[k / 8], k % 8) == Bit(x, k)
    decreases count
  {
    LowByteBit(x % 256, x / 256, k);
    if k >= 8 {
      ToLeBit(x / 256, count - 1, k - 8);
      assert (k - 8) / 8 == k / 8 - 1 && (k - 8) % 8 == k % 8;
    }
  }

  /** The octets of a list of words, eight each. */
  function Octets(w: seq<int>): (b: seq<byte>)
    ensures |b| == 8 * |w|
  {
    if w == [] then [] else Octets(w[..|w| - 1]) + ToLe(w[|w| - 1], 8)
  }

  lemma {:induction false} OctetsBit(w: seq<int>, k: nat)
    requires k < 64 * |w|
    ensures Bit(Octets(w)[k / 8], k % 8) == Bit(w[k / 64], k % 64)
  {
    var last := |w| - 1;
    if k < 64 * last {
      OctetsBit(w[..last], k);
    } else {
      var j := k - 64 * last;
      ToLeBit(w[last], 8, j);
      assert k / 8 == 8 * last + j / 8 && k % 8 == j % 8;
      assert k / 64 == last && k % 64 == j;
    }
  }

  method ReinterpretToOctets(w: seq<int>) returns (mp: seq<byte>)
    requires forall j :: 0 <= j < |w| ==> IsWord(w[j])
    ensures mp == Octets(w)
  {
    mp := [];
    for j := 0 to |w|
      invariant mp == Octets(w[..j])
    {
      assert w[..j + 1][..j] == w[..j];
      mp := mp + ToLe(w[j], 8);
    }
    assert w[..|w|] == w;
  }

  /** The block's octets, read as words, are added to the first lanes. */
  function XorWords(v: seq<int>, b: seq<byte>): seq<int>
    requires |b| <= 8 * |v|
  {
    seq(|v|, i requires 0 <= i < |v| => if i < |b| / 8 then BitXor(v[i], FromLe(b[8 * i..8 * i + 8])) else v[i])
  }

  method ReinterpretToWordsAndXor(s: array<int>, b: seq<byte>)
    requires |b| <= 8 * s.Length
    modifies s
    ensures s[..] == XorWords(old(s[..]), b)
  {
    for j := 0 to |b| / 8
      invariant forall i :: 0 <= i < s.Length ==>
                  s[i] == if i < j then BitXor(old(s[i]), FromLe(b[8 * i..8 * i + 8])) else old(s[i])
    {
      s[j] := BitXor(s[j], FromLe(b[8 * j..8 * j + 8]));
    }
  }

  lemma XorWordsBit(v: seq<int>, b: seq<byte>, k: nat)
    requires |v| == 25 && |b| <= 200 && |b| % 8 == 0 && k < 1600
    ensures Bit(XorWords(v, b)[k / 64], k % 64)
            == if k < 8 * |b| then Bit(v[k / 64], k % 64) != Bit(b[k / 8], k % 8) else Bit(v[k / 64], k % 64)
  {
    var i, z := k / 64, k % 64;
    if k < 8 * |b| {
      var word := b[8 * i..8 * i + 8];
      BitwiseBit(Xor, v[i], FromLe(word), z);
      FromLeBit(word, z);
      assert k / 8 == 8 * i + z / 8 && k % 8 == z % 8;
    }
  }

  lemma XorWordsRefines(v: seq<int>, b: seq<byte>)
    requires Words(v) && |b| <= 200 && |b| % 8 == 0
    ensures Words(XorWords(v, b)) && StateBits(XorWords(v, b)) == XorBlock(StateBits(v), ToBits(b))
  {
    forall i | 0 <= i < 25 ensures IsWord(XorWords(v, b)[i]) {
      if i < |b| / 8 {
        FromLeIsWord(b[8 * i..8 * i + 8]);
        XorIsWord(v[i], FromLe(b[8 * i..8 * i + 8]));
      }
    }
    forall k | 0 <= k < 1600 ensures StateBits(XorWords(v, b))[k] == XorBlock(StateBits(v), ToBits(b))[k] {
      XorWordsBit(v, b, k);
    }
  }

  lemma OctetsRefine(v: seq<int>, n: nat)
    requires |v| == 25 && n <= 25
    ensures ToBits(Octets(v[..n])) == StateBits(v)[..64 * n]
  {
    forall k | 0 <= k < 64 * n ensures ToBits(Octets(v[..n]))[k] == StateBits(v)[k] {
      OctetsBit(v[..n], k);
    }
  }

  lemma ToBitsConcat(a: seq<byte>, b: seq<byte>)
    ensures ToBits(a + b) == ToBits(a) + ToBits(b)
  {
    forall k | 0 <= k < 8 * |a + b| ensures ToBits(a + b)[k] == (ToBits(a) + ToBits(b))[k] {
      if k >= 8 * |a| {
        assert (k - 8 * |a|) / 8 == k / 8 - |a| && (k - 8 * |a|) % 8 == k % 8;
      }
    }
  }

  method TransformBits(s: array<int>)
    requires s.Length == 25 && Words(s[..])
    modifies s
    ensures Words(s[..]) && StateBits(s[..]) == KeccakF(old(StateBits(s[..])))
  {
    StateBitsAreLanes(s[..]);
    Transform(s);
    StateBitsAreLanes(s[..]);
  }

  // ----- padding -----

  /** The octets after a message that leaves `n` octets of its last block free. */
  function Padding(n: nat, o_p: byte): (p: seq<byte>)
    requires n > 0
    ensures |p| == n
  {
    OrIsByte(o_p);
    if n == 1 then [BitOr(o_p, 128)] else [o_p] + seq(n - 2, _ => 0) + [128]
  }

  lemma OrIsByte(b: byte)
    ensures 0 <= BitOr(b, 128) < 256
  {
    assert Pow2(8) == 256;
    BitwiseRange(Or, b, 128, 8);
  }

  /** Octets free in the last block: at least one, since a full block is absorbed before padding. */
  function Free(length: nat, r_b: nat): (n: nat)
    requires r_b > 0
    ensures 0 < n <= r_b && (length + n) % r_b == 0
  {
    var n := r_b - length % r_b;
    assert (length + n) % r_b == 0 by {
      assert length + n == (length / r_b + 1) * r_b;
      DivMod.MultipleMod(length / r_b + 1, r_b);
    }
    n
  }

  function Padded(msg: seq<byte>, r_b: nat, o_p: byte): (p: seq<byte>)
    requires r_b > 0
    ensures |p| % r_b == 0 && |p| <= |msg| + r_b
  {
    msg + Padding(Free(|msg|, r_b), o_p)
  }

  /** Removes a padding: the top bit of the last octet, the zeros before it, then one octet. */
  function Unpadded(p: seq<byte>): seq<byte>
    requires p != []
  {
    var last := |p| - 1;
    DropZeros(p[..last] + [p[last] % 128])
  }

  function DropZeros(p: seq<byte>): seq<byte> {
    if p == [] then [] else if p[|p| - 1] == 0 then DropZeros(p[..|p| - 1]) else p[..|p| - 1]
  }

  lemma {:induction false} DropsZeros(m: seq<byte>, o_p: byte, zeros: nat)
    requires o_p != 0
    ensures DropZeros(m + [o_p] + seq(zeros, _ => 0)) == m
    decreases zeros
  {
    var p := m + [o_p] + seq(zeros, _ => 0);
    if zeros == 0 {
      assert p == m + [o_p];
      assert p[..|p| - 1] == m;
    } else {
      assert p[..|p| - 1] == m + [o_p] + seq(zeros - 1, _ => 0);
      DropsZeros(m, o_p, zeros - 1);
    }
  }

  lemma SuffixWithTopBit()
    ensures BitOr(31, 128) == 159 && BitOr(0, 128) == 128
  {
    assert Bitwise(Or, 0, 1) == 1;
    assert Bitwise(Or, 0, 4) == 4;
    assert Bitwise(Or, 0, 16) == 16;
    assert Bitwise(Or, 1, 8) == 9;
    assert Bitwise(Or, 7, 32) == 39;
  }

  lemma WithoutTopBit(n: nat)
    requires n > 0
    ensures var p := Padding(n, 31); p[..n - 1] + [p[n - 1] % 128] == [31] + seq(n - 1, _ => 0)
  {
    SuffixWithTopBit();
  }

  /** Padding loses nothing: every message is recovered from its padded form. */
  lemma PaddingIsInvertible(msg: seq<byte>, r_b: nat)
    requires r_b > 0
    ensures Unpadded(Padded(msg, r_b, 31)) == msg
  {
    var n := Free(|msg|, r_b);
    var tail, p := Padding(n, 31), Padded(msg, r_b, 31);
    WithoutTopBit(n);
    assert p[..|p| - 1] + [p[|p| - 1] % 128] == msg + (tail[..n - 1] + [tail[n - 1] % 128]);
    assert msg + ([31] + seq(n - 1, _ => 0)) == msg + [31] + seq(n - 1, _ => 0);
    DropsZeros(msg, 31, n - 1);
  }

  /** The padding of the source is the suffix 1111 and pad10*1 of the standard. */
  lemma PaddingRefines(length: nat, r_b: nat)
    requires r_b > 0
    ensures ToBits(Padding(Free(length, r_b), 31)) == [true, true, true, true] + Pad(8 * r_b, 8 * length + 4)
  {
    var n := Free(length, r_b);
    var j := 8 * n - 6;
    assert (0 - (8 * length + 4) - 2) % (8 * r_b) == j by {
      var q := (length + n) / r_b;
      assert length + n == q * r_b;
      assert 0 - (8 * length + 4) - 2 == -q * (8 * r_b) + j by { assert q * (8 * r_b) == 8 * (q * r_b); }
      DivMod.DivisionIsUnique(0 - (8 * length + 4) - 2, 8 * r_b, -q, j);
    }
    forall b | 0 <= b < 8 * n
      ensures ToBits(Padding(n, 31))[b] == ([true, true, true, true] + Pad(8 * r_b, 8 * length + 4))[b]
    {
      PaddingBit(n, b);
    }
  }

  lemma PaddingBit(n: nat, b: nat)
    requires n > 0 && b < 8 * n
    ensures Bit(Padding(n, 31)[b / 8], b % 8) == (b < 5 || b == 8 * n - 1)
  {
    SuffixWithTopBit();
    var k := b % 8;
    ByteBits(k);
  }

  lemma ByteBits(k: nat)
    requires k < 8
    ensures Bit(31, k) == (k < 5)
    ensures Bit(0, k) == false
    ensures Bit(128, k) == (k == 7)
    ensures Bit(159, k) == (k < 5 || k == 7)
  {
    SignBits(0, k);
    if k == 0 {} else if k == 1 {} else if k == 2 {} else if k == 3 {} else if k == 4 {}
    else if k == 5 {} else if k == 6 {} else {}
  }

  // ----- the sponge -----

  /** `f` is the permutation of the standard. */
  ghost predicate IsKeccak(f: Permutation) {
    forall s: StateString {:trigger KeccakF(s)} :: f(s) == KeccakF(s)
  }

  /** Absorbing is a fold over blocks: whole blocks in front can be absorbed first. */
  lemma {:induction false} AbsorbConcat(f: Permutation, s: StateString, p: Bits, q: Bits, r: nat, n: nat)
    requires 0 < r <= 1600 && |p| == n * r
    ensures Absorb(f, s, p + q, r) == Absorb(f, Absorb(f, s, p, r), q, r)
    decreases n
  {
    if n == 0 {
      assert p + q == q;
    } else {
      assert n * r == (n - 1) * r + r;
      assert (p + q)[..r] == p[..r] && (p + q)[r..] == p[r..] + q;
      AbsorbConcat(f, f(XorBlock(s, p[..r])), p[r..], q, r, n - 1);
    }
  }

  lemma AbsorbOne(f: Permutation, s: StateString, block: Bits, r: nat)
    requires 0 < r <= 1600 && |block| == r
    ensures Absorb(f, s, block, r) == f(XorBlock(s, block))
  {
    assert block[..r] == block && block[r..] == [];
  }

  method AbsorbBlock(ghost f: Permutation, s: array<int>, block: seq<byte>, ghost p: Bits, ghost n: nat)
    requires IsKeccak(f) && s.Length == 25 && Words(s[..])
    requires 0 < |block| <= 200 && |block| % 8 == 0 && |p| == n * (8 * |block|)
    requires StateBits(s[..]) == Absorb(f, Zeros(1600), p, 8 * |block|)
    modifies s
    ensures Words(s[..])
    ensures StateBits(s[..]) == Absorb(f, Zeros(1600), p + ToBits(block), 8 * |block|)
  {
    ghost var state := StateBits(s[..]);
    XorWordsRefines(s[..], block);
    ReinterpretToWordsAndXor(s, block);
    TransformBits(s);
    assert StateBits(s[..]) == f(XorBlock(state, ToBits(block)));
    AbsorbOne(f, state, ToBits(block), 8 * |block|);
    AbsorbConcat(f, Zeros(1600), p, ToBits(block), 8 * |block|, n);
  }

  /** The last block: the rest of the message, the suffix octet, zeros, and the top bit. */
  method LastBlock(rest: seq<byte>, r_b: nat, o_p: byte) returns (m: seq<byte>)
    requires |rest| < r_b
    ensures m == rest + Padding(r_b - |rest|, o_p)
  {
    m := rest + [o_p];
    while |m| < r_b
      invariant |rest| < |m| <= r_b
      invariant m == rest + [o_p] + seq(|m| - |rest| - 1, _ => 0)
    {
      m := m + [0];
    }
    SuffixWithTopBit();
    OrIsByte(m[|m| - 1]);
    m := m[|m| - 1 := BitOr(m[|m| - 1], 128)];
  }

  /** The first octet of block `i`. */
  function Start(i: nat, r_b: nat): nat {
    if i == 0 then 0 else Start(i - 1, r_b) + r_b
  }

  lemma {:induction false} StartIsProduct(i: nat, r_b: nat)
    ensures Start(i, r_b) == i * r_b
  {
    if i > 0 {
      StartIsProduct(i - 1, r_b);
      assert i * r_b == (i - 1) * r_b + r_b;
    }
  }

  lemma {:induction false} StartsGrow(i: nat, j: nat, r_b: nat)
    requires i <= j
    ensures Start(i, r_b) <= Start(j, r_b)
    decreases j
  {
    if i < j { StartsGrow(i, j - 1, r_b); }
  }

  lemma WholeBlocks(length: nat, r_b: nat)
    requires r_b > 0
    ensures Start(length / r_b, r_b) + length % r_b == length
  {
    StartIsProduct(length / r_b, r_b);
  }

  /** Everything up to octet `idx`, in whole blocks of `r_b` octets, has been absorbed. */
  ghost predicate Absorbed(f: Permutation, v: seq<int>, msg: seq<byte>, idx: nat, r_b: nat)
    requires 0 < r_b <= 200 && idx <= |msg|
  {
    Words(v) && StateBits(v) == Absorb(f, Zeros(1600), ToBits(msg[..idx]), 8 * r_b)
  }

  method AbsorbNext(ghost f: Permutation, s: array<int>, msg: seq<byte>, idx: nat, r_b: nat, ghost n: nat)
    requires s.Length == 25 && 0 < r_b <= 200 && r_b % 8 == 0 && idx == Start(n, r_b) && idx + r_b <= |msg|
    requires IsKeccak(f) && Absorbed(f, s[..], msg, idx, r_b)
    modifies s
    ensures Absorbed(f, s[..], msg, idx + r_b, r_b)
  {
    ToBitsConcat(msg[..idx], msg[idx..idx + r_b]);
    assert msg[..idx] + msg[idx..idx + r_b] == msg[..idx + r_b];
    StartIsProduct(n, r_b);
    WholeBits(idx, n, r_b);
    AbsorbBlock(f, s, msg[idx..idx + r_b], ToBits(msg[..idx]), n);
  }

  method AbsorbLast(ghost f: Permutation, s: array<int>, msg: seq<byte>, idx: nat, r_b: nat, o_p: byte, ghost n: nat)
    requires s.Length == 25 && 0 < r_b <= 200 && r_b % 8 == 0 && idx == Start(n, r_b) && idx + |msg| % r_b == |msg|
    requires IsKeccak(f) && Absorbed(f, s[..], msg, idx, r_b)
    modifies s
    ensures Words(s[..])
    ensures StateBits(s[..]) == Absorb(f, Zeros(1600), ToBits(Padded(msg, r_b, o_p)), 8 * r_b)
  {
    var m := LastBlock(msg[idx..], r_b, o_p);
    StartIsProduct(n, r_b);
    WholeBits(idx, n, r_b);
    LastBlockCompletes(msg, idx, r_b, o_p, m);
    ToBitsConcat(msg[..idx], m);
    AbsorbBlock(f, s, m, ToBits(msg[..idx]), n);
  }

  lemma LastBlockCompletes(msg: seq<byte>, idx: nat, r_b: nat, o_p: byte, m: seq<byte>)
    requires 0 < r_b && idx + |msg| % r_b == |msg|
    requires m == msg[idx..] + Padding(Free(|msg|, r_b), o_p)
    ensures msg[..idx] + m == Padded(msg, r_b, o_p)
  {
  }

  method AbsorbMessage(ghost f: Permutation, s: array<int>, msg: seq<byte>, r_b: nat, o_p: byte)
    requires IsKeccak(f) && s.Length == 25 && s[..] == seq(25, _ => 0) && 0 < r_b <= 200 && r_b % 8 == 0
    modifies s
    ensures Words(s[..])
    ensures StateBits(s[..]) == Absorb(f, Zeros(1600), ToBits(Padded(msg, r_b, o_p)), 8 * r_b)
  {
    var idx := 0;
    var blocks := |msg| / r_b;
    WholeBlocks(|msg|, r_b);
    NothingAbsorbed(f, s[..], msg, r_b);
    for i := 0 to blocks
      invariant idx == Start(i, r_b) <= |msg|
      invariant Absorbed(f, s[..], msg, idx, r_b)
    {
      StartsGrow(i + 1, blocks, r_b);
      AbsorbNext(f, s, msg, idx, r_b, i);
      idx := idx + r_b;
    }
    AbsorbLast(f, s, msg, idx, r_b, o_p, blocks);
  }

  lemma WholeBits(idx: nat, n: nat, r_b: nat)
    requires idx == n * r_b
    ensures 8 * idx == n * (8 * r_b)
  {
  }

  lemma NothingAbsorbed(f: Permutation, v: seq<int>, msg: seq<byte>, r_b: nat)
    requires v == seq(25, _ => 0) && 0 < r_b <= 200
    ensures Absorbed(f, v, msg, 0, r_b)
  {
    forall k | 0 <= k < 1600 ensures !StateBits(v)[k] {
      SignBits(0, k % 64);
    }
    assert ToBits(msg[..0]) == [];
  }

  method SqueezeOutput(ghost f: Permutation, s: array<int>, r_w: nat, e_b: int) returns (out: seq<byte>)
    requires IsKeccak(f) && s.Length == 25 && Words(s[..]) && 0 < r_w <= 25
    modifies s
    ensures |out| == if e_b < 0 then 0 else e_b
    ensures ToBits(out) == Squeeze(f, [], old(StateBits(s[..])), 64 * r_w, 8 * |out|)
  {
    out := [];
    ghost var d := if e_b < 0 then 0 else 8 * e_b;
    ghost var result := Squeeze(f, [], StateBits(s[..]), 64 * r_w, d);
    while |out| < e_b
      invariant Words(s[..])
      invariant |out| < e_b ==> Squeeze(f, ToBits(out), StateBits(s[..]), 64 * r_w, d) == result
      invariant |out| >= e_b ==> d <= 8 * |out| && ToBits(out)[..d] == result
    {
      OctetsRefine(s[..], r_w);
      ghost var chunk := Octets(s[..r_w]);
      ToBitsConcat(out, chunk);
      assert s[..][..r_w] == s[..r_w];
      var more := ReinterpretToOctets(s[..r_w]);
      out := out + more;
      TransformBits(s);
    }
    out := if e_b < 0 then [] else out[..e_b];
  }

  /** Semi-generic SHA-3. */
  method Sha3Raw(msg: seq<byte>, r_w: nat, o_p: byte, e_b: int) returns (out: seq<byte>)
    requires 0 < r_w <= 25
    ensures |out| == if e_b < 0 then 0 else e_b
    ensures ToBits(out) == SpongePadded(KeccakF, ToBits(Padded(msg, 8 * r_w, o_p)), 64 * r_w, 8 * |out|)
  {
    var s := new int[25](_ => 0);
    assert s[..] == seq(25, _ => 0);
    AbsorbMessage(KeccakF, s, msg, 8 * r_w, o_p);
    out := SqueezeOutput(KeccakF, s, r_w, e_b);
  }

  /** The source's hash of octets is the standard's SHAKE256 of their bits. */
  method Shake256Octets(msg: seq<byte>, outlen: int) returns (out: seq<byte>)
    ensures |out| == if outlen < 0 then 0 else outlen
    ensures ToBits(out) == Shake256(ToBits(msg), 8 * |out|)
  {
    out := Sha3Raw(msg, 17, 31, outlen);
    PaddedIsSponge(KeccakF, msg, 17, 8 * |out|);
  }

  lemma PaddedIsStandard(msg: seq<byte>, r_w: nat)
    requires r_w > 0
    ensures ToBits(Padded(msg, 8 * r_w, 31))
            == ToBits(msg) + [true, true, true, true] + Pad(64 * r_w, 8 * |msg| + 4)
  {
    ToBitsConcat(msg, Padding(Free(|msg|, 8 * r_w), 31));
    PaddingRefines(|msg|, 8 * r_w);
  }

  lemma PaddedIsSponge(f: Permutation, msg: seq<byte>, r_w: nat, d: nat)
    requires 0 < r_w <= 25
    ensures SpongePadded(f, ToBits(Padded(msg, 8 * r_w, 31)), 64 * r_w, d)
            == Sponge(f, ToBits(msg) + [true, true, true, true], 64 * r_w, d)
  {
    PaddedIsStandard(msg, r_w);
    var n := ToBits(msg) + [true, true, true, true];
    assert |n| == 8 * |msg| + 4;
  }

  // ----- consequences for callers -----

  lemma {:induction false} SqueezeLength(f: Permutation, z: Bits, s: StateString, r: nat, d: nat)
    requires 0 < r <= 1600
    ensures |Squeeze(f, z, s, r, d)| == d
    decreases d - |z|
  {
    var z' := z + s[..r];
    if d > |z'| { SqueezeLength(f, z', f(s), r, d); }
  }

  /** Asking for more output only appends to it. */
  lemma {:induction false} SqueezePrefix(f: Permutation, z: Bits, s: StateString, r: nat, d: nat, e: nat)
    requires 0 < r <= 1600 && d <= e
    ensures d <= |Squeeze(f, z, s, r, e)| && Squeeze(f, z, s, r, e)[..d] == Squeeze(f, z, s, r, d)
    decreases e - |z|
  {
    SqueezeLength(f, z, s, r, e);
    var z' := z + s[..r];
    if d > |z'| {
      SqueezePrefix(f, z', f(s), r, d, e);
    } else if e > |z'| {
      SqueezeKeeps(f, z', f(s), r, e);
    }
  }

  lemma {:induction false} SqueezeKeeps(f: Permutation, z: Bits, s: StateString, r: nat, e: nat)
    requires 0 < r <= 1600 && |z| < e
    ensures |z| <= |Squeeze(f, z, s, r, e)| && Squeeze(f, z, s, r, e)[..|z|] == z
    decreases e - |z|
  {
    var z' := z + s[..r];
    if e > |z'| {
      SqueezeKeeps(f, z', f(s), r, e);
      assert Squeeze(f, z', f(s), r, e)[..|z|] == z'[..|z|];
    }
  }

  lemma ShakeLengthAndPrefix(m: Bits, d: nat, e: nat)
    requires d <= e
    ensures |Shake256(m, e)| == e && Shake256(m, e)[..d] == Shake256(m, d)
  {
    var p := m + [true, true, true, true];
    var s := Absorb(KeccakF, Zeros(1600), p + Pad(1088, |p|), 1088);
    SqueezeLength(KeccakF, [], s, 1088, e);
    SqueezePrefix(KeccakF, [], s, 1088, d, e);
  }
}
