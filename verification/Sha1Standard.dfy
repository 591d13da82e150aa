/** FIPS PUB 180-1: what the SHA-1 of a message is. Messages are byte strings here; the padding of
    section 4, which the standard states on bits, is tied to its bytes below. */
module Sha1Standard {
  newtype Byte = x: int | 0 <= x < 256

  datatype Hash = Hash(a: bv32, b: bv32, c: bv32, d: bv32, e: bv32)

  // ----- Sections 3, 5 and 6: operations, functions and constants -----

  function RotateLeft(x: bv32, n: nat): bv32
    requires 0 < n < 32
  {
    (x << n) | (x >> (32 - n))
  }

  function Choice(b: bv32, c: bv32, d: bv32): bv32 { (b & c) | (!b & d) }

  function Parity(b: bv32, c: bv32, d: bv32): bv32 { b ^ c ^ d }

  function Majority(b: bv32, c: bv32, d: bv32): bv32 { (b & c) | (b & d) | (c & d) }

  function F(t: nat, b: bv32, c: bv32, d: bv32): bv32 {
    if t < 20 then Choice(b, c, d)
    else if t < 40 then Parity(b, c, d)
    else if t < 60 then Majority(b, c, d)
    else Parity(b, c, d)
  }

  function K(t: nat): bv32 {
    if t < 20 then 0x5A827999
    else if t < 40 then 0x6ED9EBA1
    else if t < 60 then 0x8F1BBCDC
    else 0xCA62C1D6
  }

  // ----- Section 7: computing the digest -----

  const INITIAL := Hash(0x67452301, 0xEFCDAB89, 0x98BADCFE, 0x10325476, 0xC3D2E1F0)

  function Word(b0: Byte, b1: Byte, b2: Byte, b3: Byte): bv32 {
    ((b0 as bv32) << 24) | ((b1 as bv32) << 16) | ((b2 as bv32) << 8) | (b3 as bv32)
  }

  function BlockWord(block: seq<Byte>, t: nat): bv32
    requires |block| == 64 && t < 16
  {
    Word(block[4 * t], block[4 * t + 1], block[4 * t + 2], block[4 * t + 3])
  }

  function Mix(x: bv32, y: bv32, z: bv32, w: bv32): bv32 { RotateLeft(x ^ y ^ z ^ w, 1) }

  /** W(t), step b. */
  function Schedule(block: seq<Byte>, t: nat): bv32
    requires |block| == 64
  {
    if t < 16 then BlockWord(block, t)
    else
      Mix(Schedule(block, t - 3), Schedule(block, t - 8), Schedule(block, t - 14), Schedule(block, t - 16))
  }

  function Sum(a: bv32, f: bv32, e: bv32, k: bv32, w: bv32): bv32 { RotateLeft(a, 5) + f + e + k + w }

  function Round(t: nat, h: Hash, w: bv32): Hash {
    Hash(Sum(h.a, F(t, h.b, h.c, h.d), h.e, K(t), w), h.a, RotateLeft(h.b, 30), h.c, h.d)
  }

  /** The five working words after t rounds, step d. */
  function Rounds(block: seq<Byte>, h: Hash, t: nat): Hash
    requires |block| == 64
  {
    if t == 0 then h else Round(t - 1, Rounds(block, h, t - 1), Schedule(block, t - 1))
  }

  function Plus(x: bv32, y: bv32): bv32 { x + y }

  function Added(h: Hash, r: Hash): Hash {
    Hash(Plus(h.a, r.a), Plus(h.b, r.b), Plus(h.c, r.c), Plus(h.d, r.d), Plus(h.e, r.e))
  }

  /** One block, steps a to e. */
  function Compress(h: Hash, block: seq<Byte>): Hash
    requires |block| == 64
  {
    Added(h, Rounds(block, h, 80))
  }

  function BlockFold(h: Hash, m: seq<Byte>): Hash
    requires |m| % 64 == 0
  {
    if m == [] then h else Compress(BlockFold(h, m[..|m| - 64]), m[|m| - 64..])
  }

  lemma BlockFoldNext(h: Hash, m: seq<Byte>, block: seq<Byte>)
    requires |m| % 64 == 0 && |block| == 64
    ensures BlockFold(h, m + block) == Compress(BlockFold(h, m), block)
  {
    assert (m + block)[..|m|] == m && (m + block)[|m|..] == block;
    hide Compress;
  }

  function WordBytes(x: bv32): (r: seq<Byte>)
    ensures |r| == 4
  {
    [((x >> 24) & 0xFF) as Byte, ((x >> 16) & 0xFF) as Byte, ((x >> 8) & 0xFF) as Byte, (x & 0xFF) as Byte]
  }

  function DigestBytes(h: Hash): (r: seq<Byte>)
    ensures |r| == 20
  {
    WordBytes(h.a) + WordBytes(h.b) + WordBytes(h.c) + WordBytes(h.d) + WordBytes(h.e)
  }

  // ----- Section 4: padding -----

  const TWO_64: nat := 0x1_0000_0000_0000_0000

  function Pow256(k: nat): nat
    requires k < 8
  {
    if k == 0 then 1
    else if k == 1 then 0x100
    else if k == 2 then 0x1_0000
    else if k == 3 then 0x100_0000
    else if k == 4 then 0x1_0000_0000
    else if k == 5 then 0x100_0000_0000
    else if k == 6 then 0x1_0000_0000_0000
    else 0x100_0000_0000_0000
  }

  function LengthByte(bits: nat, i: nat): Byte
    requires i < 8
  {
    ((bits / Pow256(7 - i)) % 256) as Byte
  }

  /** The length in bits, modulo 2^64, most significant byte first. */
  function LengthBytes(bits: nat): (r: seq<Byte>)
    ensures |r| == 8
  {
    seq(8, i requires 0 <= i < 8 => LengthByte(bits % TWO_64, i))
  }

  function Zeros(n: nat): (r: seq<Byte>)
    ensures |r| == n
  {
    seq(n, i => 0)
  }

  /** The number of zero bytes after the 0x80 that leaves room for the length alone. */
  function ZeroBytes(length: nat): (z: nat)
    ensures z < 64 && (length + 9 + z) % 64 == 0
  {
    var r := length % 64;
    var z := if r < 56 then 55 - r else 119 - r;
    assert length + 9 + z == 64 * (length / 64 + (if r < 56 then 1 else 2));
    z
  }

  function Padded(m: seq<Byte>): (r: seq<Byte>)
    ensures |r| % 64 == 0
  {
    m + [0x80] + Zeros(ZeroBytes(|m|)) + LengthBytes(8 * |m|)
  }

  function Sha1Of(m: seq<Byte>): (r: seq<Byte>)
    ensures |r| == 20
  {
    DigestBytes(BlockFold(INITIAL, Padded(m)))
  }

  // ----- Section 4 on bits -----

  function Pow2(k: nat): nat
    requires k < 8
  {
    if k == 0 then 1 else if k == 1 then 2 else if k == 2 then 4 else if k == 3 then 8
    else if k == 4 then 16 else if k == 5 then 32 else if k == 6 then 64 else 128
  }

  /** Bit i of a byte, the most significant one first. */
  function BitOf(b: Byte, i: nat): bool
    requires i < 8
  {
    ((b as int) / Pow2(7 - i)) % 2 == 1
  }

  function Bits(m: seq<Byte>): (r: seq<bool>)
    ensures |r| == 8 * |m|
  {
    seq(8 * |m|, i requires 0 <= i < 8 * |m| => BitOf(m[i / 8], i % 8))
  }

  function Falses(n: nat): (r: seq<bool>)
    ensures |r| == n
  {
    seq(n, i => false)
  }

  /** Bit i of the 64-bit representation of n, the most significant one first. */
  function LengthBit(n: nat, i: nat): bool
    requires i < 64
  {
    (n / Pow256(7 - i / 8) / Pow2(7 - i % 8)) % 2 == 1
  }

  function Length64(n: nat): (r: seq<bool>)
    ensures |r| == 64
  {
    seq(64, i requires 0 <= i < 64 => LengthBit(n, i))
  }

  /** Section 4: a one, as few zeros as give whole 512-bit blocks, and the length in 64 bits. */
  ghost predicate IsPaddingOf(bits: seq<bool>, padded: seq<bool>) {
    |padded| % 512 == 0 &&
    exists k: nat :: k < 512 && padded == bits + [true] + Falses(k) + Length64(|bits|)
  }

  /** Section 4 leaves no choice. */
  lemma PaddingIsUnique(bits: seq<bool>, p: seq<bool>, q: seq<bool>)
    requires IsPaddingOf(bits, p) && IsPaddingOf(bits, q)
    ensures p == q
  {
    var k: nat :| k < 512 && p == bits + [true] + Falses(k) + Length64(|bits|);
    var l: nat :| l < 512 && q == bits + [true] + Falses(l) + Length64(|bits|);
    assert |p| == |bits| + 65 + k && |q| == |bits| + 65 + l;
    assert k == l;
  }

  lemma BitsConcat(x: seq<Byte>, y: seq<Byte>)
    ensures Bits(x + y) == Bits(x) + Bits(y)
  {
    var l, r := Bits(x + y), Bits(x) + Bits(y);
    hide BitOf;
    forall i | 0 <= i < 8 * |x + y| ensures l[i] == r[i] {
      if i >= 8 * |x| {
        assert (i - 8 * |x|) / 8 == i / 8 - |x| && (i - 8 * |x|) % 8 == i % 8;
      }
    }
  }

  lemma BitsOfMark()
    ensures Bits([0x80]) == [true] + Falses(7)
  {
    var l, r := Bits([0x80]), [true] + Falses(7);
    forall i | 0 <= i < 8 ensures l[i] == r[i] {
      assert i / 8 == 0;
    }
  }

  lemma BitsOfZeros(n: nat)
    ensures Bits(Zeros(n)) == Falses(8 * n)
  {
    forall i | 0 <= i < 8 * n ensures Bits(Zeros(n))[i] == false {
      assert i / 8 < n;
    }
  }

  /** Dividing by a power of two up to 128 keeps a multiple of 256 even. */
  lemma DividedHigh(q: nat, r: nat, k: nat) returns (half: nat)
    requires r < 256 && k < 8
    ensures (256 * q + r) / Pow2(k) == 2 * half + r / Pow2(k)
  {
    if k == 0 {
      half := 128 * q;
    } else if k == 1 {
      half := 64 * q;
    } else if k == 2 {
      half := 32 * q;
    } else if k == 3 {
      half := 16 * q;
    } else if k == 4 {
      half := 8 * q;
    } else if k == 5 {
      half := 4 * q;
    } else if k == 6 {
      half := 2 * q;
    } else {
      half := q;
    }
  }

  lemma LowBits(x: nat, k: nat)
    requires k < 8
    ensures ((x % 256) / Pow2(k)) % 2 == (x / Pow2(k)) % 2
  {
    hide Pow2;
    var q, r := x / 256, x % 256;
    var half := DividedHigh(q, r, k);
    assert x == 256 * q + r;
  }

  lemma BitsOfLength(n: nat)
    requires n < TWO_64
    ensures Bits(LengthBytes(n)) == Length64(n)
  {
    hide BitOf, LengthByte, Pow256, Pow2;
    forall i | 0 <= i < 64 ensures Bits(LengthBytes(n))[i] == Length64(n)[i] {
      BitOfLength(n, i / 8, i % 8);
    }
  }

  lemma BitOfLength(n: nat, i: nat, j: nat)
    requires i < 8 && j < 8
    ensures BitOf(LengthByte(n, i), j) == ((n / Pow256(7 - i) / Pow2(7 - j)) % 2 == 1)
  {
    var x := n / Pow256(7 - i);
    hide Pow256, Pow2;
    LowBits(x, 7 - j);
  }

  lemma FalsesSum(a: nat, b: nat)
    ensures Falses(a) + Falses(b) == Falses(a + b)
  {
  }

  lemma PaddedBits(m: seq<Byte>)
    requires 8 * |m| < TWO_64
    ensures Bits(Padded(m)) == Bits(m) + [true] + Falses(7 + 8 * ZeroBytes(|m|)) + Length64(8 * |m|)
  {
    var z := ZeroBytes(|m|);
    BitsConcat(m + [0x80] + Zeros(z), LengthBytes(8 * |m|));
    BitsConcat(m + [0x80], Zeros(z));
    BitsConcat(m, [0x80]);
    BitsOfMark();
    BitsOfZeros(z);
    BitsOfLength(8 * |m|);
    FalsesSum(7, 8 * z);
    hide Bits, LengthBytes, Length64, Falses, ZeroBytes;
    Regroup(Bits(m), Falses(7), Falses(8 * z), Length64(8 * |m|));
  }

  lemma Regroup(a: seq<bool>, b: seq<bool>, c: seq<bool>, d: seq<bool>)
    ensures a + ([true] + b) + c + d == a + [true] + (b + c) + d
  {
  }

  /** The padded bytes are the padding of section 4. */
  lemma PaddedIsPadding(m: seq<Byte>)
    requires 8 * |m| < TWO_64
    ensures IsPaddingOf(Bits(m), Bits(Padded(m)))
  {
    PaddedBits(m);
    var k := 7 + 8 * ZeroBytes(|m|);
    assert k < 512;
    hide Bits, Length64, Falses, ZeroBytes, Padded;
    assert Bits(Padded(m)) == Bits(m) + [true] + Falses(k) + Length64(|Bits(m)|);
  }
}
