/** The streaming SHA-1 calculator of core/sha1.cc, proved against FIPS PUB 180-1. */
module Sha1Streaming {
  import opened Sha1Standard

  /** The whole blocks of a message. */
  function Whole(m: seq<Byte>): (r: seq<Byte>)
    ensures |r| % 64 == 0 && |r| == |m| - |m| % 64
  {
    m[..|m| - |m| % 64]
  }

  /** What is left after the whole blocks. */
  function Rest(m: seq<Byte>): (r: seq<Byte>)
    ensures |r| == |m| % 64
  {
    m[|m| - |m| % 64..]
  }

  /** The working words as a hash value. */
  function HashOf(s: seq<bv32>): Hash
    requires |s| == 5
  {
    Hash(s[0], s[1], s[2], s[3], s[4])
  }

  /** A 64-bit counter. */
  function Wrapped(x: nat): nat { x % 0x1_0000_0000_0000_0000 }

  /** Where in its block a byte goes. */
  function Place(x: nat): (r: nat)
    ensures r < 64
  {
    x % 64
  }

  lemma WrappedDiffers(x: nat) returns (q: nat)
    ensures x == Wrapped(x) + 0x1_0000_0000_0000_0000 * q
  {
    q := x / 0x1_0000_0000_0000_0000;
  }

  lemma WrappedBound(x: nat)
    ensures Wrapped(x) < TWO_64
  {
  }

  lemma WrappedMultiple(x: nat, q: nat)
    ensures Wrapped(x + 0x1_0000_0000_0000_0000 * q) == Wrapped(x)
  {
  }

  lemma PlaceMultiple(x: nat, k: nat)
    ensures Place(x + 64 * k) == Place(x)
  {
  }

  lemma CountModulo(length: nat)
    ensures Place(Wrapped(length)) == Place(length)
    ensures Wrapped(8 * Wrapped(length)) == Wrapped(8 * length)
  {
    var q := WrappedDiffers(length);
    hide Wrapped, Place;
    PlaceMultiple(Wrapped(length), 0x400_0000_0000_0000 * q);
    WrappedMultiple(8 * Wrapped(length), 8 * q);
  }

  lemma CountSum(x: nat, y: nat)
    ensures Wrapped(Wrapped(x) + y) == Wrapped(x + y)
  {
    var q := WrappedDiffers(x);
    hide Wrapped;
    WrappedMultiple(Wrapped(x) + y, q);
  }

  // ----- Padding, block by block -----

  /** The tail, the mark, zeros and the length fit one block. */
  lemma PaddedInOneBlock(m: seq<Byte>)
    requires |m| % 64 < 56
    ensures Padded(m) == Whole(m) + (Rest(m) + [0x80] + Zeros(55 - |m| % 64) + LengthBytes(8 * |m|))
  {
    assert ZeroBytes(|m|) == 55 - |m| % 64;
    assert m == Whole(m) + Rest(m);
  }

  lemma ZerosSplit(a: nat, b: nat)
    ensures Zeros(a + b) == Zeros(a) + Zeros(b)
  {
  }

  /** Otherwise the length goes into a block of its own. */
  lemma PaddedInTwoBlocks(m: seq<Byte>)
    requires |m| % 64 >= 56
    ensures Padded(m) == Whole(m) + (Rest(m) + [0x80] + Zeros(63 - |m| % 64)) + (Zeros(56) + LengthBytes(8 * |m|))
  {
    var r := |m| % 64;
    assert ZeroBytes(|m|) == (63 - r) + 56;
    ZerosSplit(63 - r, 56);
    hide Zeros, LengthBytes;
    assert m == Whole(m) + Rest(m);
  }

  class Sha1 {
    const state: array<bv32>
    var count: nat
    const buffer: array<Byte>
    var finalized: bool
    const digest: array<Byte>
    /** Every byte fed in so far. */
    ghost var message: seq<Byte>

    ghost predicate Shape()
      reads this
    {
      state.Length == 5 && buffer.Length == 64 && digest.Length == 20 && buffer != digest
    }

    ghost predicate Valid()
      reads this, state, buffer, digest
    {
      && Shape()
      && count == Wrapped(|message|)
      && if finalized then digest[..] == Sha1Of(message)
         else Running(message)
    }

    /** The state has taken in the whole blocks of m, and the buffer holds the rest. */
    ghost predicate Running(m: seq<Byte>)
      reads this, state, buffer
    {
      && state.Length == 5 && buffer.Length == 64
      && HasHashed(m, |m| - |m| % 64) && buffer[..|m| % 64] == Rest(m)
    }

    constructor ()
      ensures Valid() && fresh(state) && fresh(buffer) && fresh(digest)
      ensures message == [] && !finalized
    {
      state := new bv32[5] [0x67452301, 0xEFCDAB89, 0x98BADCFE, 0x10325476, 0xC3D2E1F0];
      buffer := new Byte[64](_ => 0);
      digest := new Byte[20](_ => 0);
      count, finalized, message := 0, false, [];
    }

    /** Works one block into the state. */
    method Transform(block: seq<Byte>)
      requires Shape() && |block| == 64
      modifies state
      ensures HashOf(state[..]) == Compress(old(HashOf(state[..])), block)
    {
      hide Rounds, Schedule, Plus;
      var w := Expand(block);
      var a, b, c, d, e := state[0], state[1], state[2], state[3], state[4];
      a, b, c, d, e := RunRounds(block, w, a, b, c, d, e);
      state[0] := Plus(state[0], a);
      state[1] := Plus(state[1], b);
      state[2] := Plus(state[2], c);
      state[3] := Plus(state[3], d);
      state[4] := Plus(state[4], e);
    }

    /** The eighty schedule words of a block. */
    static method Expand(block: seq<Byte>) returns (w: array<bv32>)
      requires |block| == 64
      ensures fresh(w) && w.Length == 80 && forall t :: 0 <= t < 80 ==> w[t] == Schedule(block, t)
    {
      hide Mix, Word;
      w := new bv32[80];
      for t := 0 to 16
        invariant forall i :: 0 <= i < t ==> w[i] == Schedule(block, i)
      {
        w[t] := Word(block[t * 4 + 0], block[t * 4 + 1], block[t * 4 + 2], block[t * 4 + 3]);
      }
      for t := 16 to 80
        invariant forall i :: 0 <= i < t ==> w[i] == Schedule(block, i)
      {
        w[t] := Mix(w[t - 3], w[t - 8], w[t - 14], w[t - 16]);
      }
    }

    /** The function and the constant of round t. */
    static method Choose(t: nat, b: bv32, c: bv32, d: bv32) returns (f: bv32, k: bv32)
      ensures f == F(t, b, c, d) && k == K(t)
    {
      hide Choice, Parity, Majority;
      if t < 20 {
        f := Choice(b, c, d);
        k := 0x5A827999;
      } else if t < 40 {
        f := Parity(b, c, d);
        k := 0x6ED9EBA1;
      } else if t < 60 {
        f := Majority(b, c, d);
        k := 0x8F1BBCDC;
      } else {
        f := Parity(b, c, d);
        k := 0xCA62C1D6;
      }
    }

    static method RunRounds(
      block: seq<Byte>, w: array<bv32>, a0: bv32, b0: bv32, c0: bv32, d0: bv32, e0: bv32)
      returns (a: bv32, b: bv32, c: bv32, d: bv32, e: bv32)
      requires |block| == 64 && w.Length == 80 && forall t :: 0 <= t < 80 ==> w[t] == Schedule(block, t)
      ensures Hash(a, b, c, d, e) == Rounds(block, Hash(a0, b0, c0, d0, e0), 80)
    {
      hide RotateLeft, Schedule, Sum, F, K;
      a, b, c, d, e := a0, b0, c0, d0, e0;
      for t := 0 to 80
        invariant Hash(a, b, c, d, e) == Rounds(block, Hash(a0, b0, c0, d0, e0), t)
      {
        var f, k := Choose(t, b, c, d);
        var temp := Sum(a, f, e, k, w[t]);
        e := d;
        d := c;
        c := RotateLeft(b, 30);
        b := a;
        a := temp;
      }
    }

    /** Copies bytes to a place in the buffer. */
    method CopyToBuffer(at: nat, data: seq<Byte>)
      requires Shape() && at + |data| <= 64
      modifies buffer
      ensures buffer[..] == old(buffer[..at]) + data + old(buffer[at + |data|..])
    {
      forall i | 0 <= i < |data| {
        buffer[at + i] := data[i];
      }
    }

    /** The state has taken in the first p bytes of m. */
    ghost predicate HasHashed(m: seq<Byte>, p: nat)
      reads this, state
    {
      state.Length == 5 && p <= |m| && p % 64 == 0 && HashOf(state[..]) == BlockFold(INITIAL, m[..p])
    }

    /** One more block. */
    method TransformNext(ghost m: seq<Byte>, ghost p: nat, block: seq<Byte>)
      requires Shape() && HasHashed(m, p) && |block| == 64 && p + 64 <= |m| && block == m[p..p + 64]
      modifies state
      ensures HasHashed(m, p + 64)
    {
      BlockFoldNext(INITIAL, m[..p], block);
      assert m[..p] + block == m[..p + 64];
      hide HashOf, BlockFold, Compress;
      Transform(block);
    }

    /** Feeds bytes in, in any portions; after Finalize nothing changes any more. */
    method Update(data: seq<Byte>)
      requires Valid()
      modifies this`count, this`message, state, buffer
      ensures Valid() && finalized == old(finalized)
      ensures old(finalized) ==> message == old(message)
      ensures !old(finalized) ==> message == old(message) + data
    {
      if finalized || data == [] {
        assert message + [] == message;
        return;
      }
      hide Running, Sha1Of, Wrapped, Place;
      CountModulo(|message|);
      CountSum(|message|, |data|);
      var bufferIndex := Place(count);
      count := Wrapped(count + |data|);
      ghost var m := message;
      message := message + data;
      Absorb(m, bufferIndex, data);
    }

    method Absorb(ghost m: seq<Byte>, bufferIndex: nat, data: seq<Byte>)
      requires Shape() && Running(m) && bufferIndex == Place(|m|)
      modifies state, buffer
      ensures Running(m + data)
    {
      if bufferIndex + |data| < 64 {
        AppendShort(m, data);
        assert (m + data)[..|m| - bufferIndex] == m[..|m| - bufferIndex];
        hide BlockFold, HashOf;
        CopyToBuffer(bufferIndex, data);
        return;
      }
      hide HasHashed;
      var dataIndex := FillBuffer(m, bufferIndex, data);
      dataIndex := HashBlocks(m, data, dataIndex);
      AppendLong(m, data, dataIndex);
      CopyToBuffer(0, data[dataIndex..]);
    }

    /** Completes and hashes a block that is begun in the buffer. */
    method FillBuffer(ghost m: seq<Byte>, bufferIndex: nat, data: seq<Byte>) returns (dataIndex: nat)
      requires Shape() && bufferIndex == |m| % 64 && bufferIndex + |data| >= 64
      requires HasHashed(m, |m| - bufferIndex) && buffer[..bufferIndex] == Rest(m)
      modifies state, buffer
      ensures dataIndex <= |data| && HasHashed(m + data, |m| + dataIndex)
    {
      hide HashOf, BlockFold;
      dataIndex := 0;
      assert (m + data)[..|m| - bufferIndex] == m[..|m| - bufferIndex];
      if bufferIndex > 0 {
        var needed := 64 - bufferIndex;
        CopyToBuffer(bufferIndex, data[..needed]);
        FilledBlock(m, data);
        TransformNext(m + data, |m| - bufferIndex, buffer[..]);
        dataIndex := needed;
      }
    }

    /** Hashes the whole blocks among the remaining bytes. */
    method HashBlocks(ghost m: seq<Byte>, data: seq<Byte>, from: nat) returns (dataIndex: nat)
      requires Shape() && from <= |data| && HasHashed(m + data, |m| + from)
      modifies state
      ensures dataIndex <= |data| && |data| - dataIndex < 64 && (|m| + dataIndex) % 64 == 0
      ensures HasHashed(m + data, |m| + dataIndex)
    {
      assert (|m| + from) % 64 == 0;
      hide HasHashed;
      dataIndex := from;
      while |data| - dataIndex >= 64
        invariant from <= dataIndex <= |data| && (|m| + dataIndex) % 64 == 0
        invariant HasHashed(m + data, |m| + dataIndex)
      {
        assert data[dataIndex..dataIndex + 64] == (m + data)[|m| + dataIndex..|m| + dataIndex + 64];
        TransformNext(m + data, |m| + dataIndex, data[dataIndex..dataIndex + 64]);
        dataIndex := dataIndex + 64;
      }
    }

    /** Zeroes a stretch of the buffer. */
    method ClearBuffer(from: nat, to: nat)
      requires Shape() && from <= to <= 64
      modifies buffer
      ensures buffer[..] == old(buffer[..from]) + Zeros(to - from) + old(buffer[to..])
    {
      forall i | from <= i < to {
        buffer[i] := 0;
      }
    }

    /** Writes the length in bits into the last eight bytes of the buffer. */
    method WriteLength(totalBits: nat)
      requires Shape() && totalBits < TWO_64
      modifies buffer
      ensures buffer[..] == old(buffer[..56]) + LengthBytes(totalBits)
    {
      hide LengthByte;
      var i := 7;
      while i >= 0
        invariant -1 <= i <= 7
        invariant forall k :: 0 <= k < 56 ==> buffer[k] == old(buffer[k])
        invariant forall k :: 0 <= k < 7 - i ==> buffer[56 + k] == LengthByte(totalBits, k)
      {
        buffer[56 + (7 - i)] := LengthByte(totalBits, 7 - i);
        i := i - 1;
      }
    }

    /** Marks the end of the message and, when the length no longer fits, hashes the block. */
    method PadTail(ghost m: seq<Byte>, bufferIndex: nat) returns (index: nat)
      requires Shape() && Running(m) && bufferIndex == Place(|m|)
      modifies state, buffer
      ensures index <= 56 && |Padded(m)| >= 64
      ensures HasHashed(Padded(m), |Padded(m)| - 64)
      ensures buffer[..index] + Zeros(56 - index) + LengthBytes(8 * |m|) == Padded(m)[|Padded(m)| - 64..]
    {
      var p := |m| - bufferIndex;
      PaddedStart(m);
      buffer[bufferIndex] := 0x80;
      index := bufferIndex + 1;
      assert buffer[..index] == Rest(m) + [0x80];
      hide HashOf, BlockFold, Sha1Of, LengthBytes, Running;
      if index > 56 {
        PaddedInTwoBlocks(m);
        ClearBuffer(index, 64);
        hide Zeros, Padded;
        assert buffer[..] == Rest(m) + [0x80] + Zeros(63 - |m| % 64);
        TransformNext(Padded(m), p, buffer[..]);
        index := 0;
        assert buffer[..0] + Zeros(56) == Zeros(56);
      } else {
        PaddedInOneBlock(m);
      }
    }

    method WriteDigest()
      requires Shape()
      modifies digest
      ensures digest[..] == DigestBytes(HashOf(state[..]))
    {
      hide WordBytes;
      for i := 0 to 5
        invariant forall k :: 0 <= k < i ==> digest[4 * k..4 * k + 4] == WordBytes(state[k])
      {
        var bytes := WordBytes(state[i]);
        digest[i * 4 + 0] := bytes[0];
        digest[i * 4 + 1] := bytes[1];
        digest[i * 4 + 2] := bytes[2];
        digest[i * 4 + 3] := bytes[3];
      }
    }

    /** The SHA-1 of everything fed in; asking again gives the same answer. */
    method Finalize() returns (result: seq<Byte>)
      requires Valid()
      modifies this`finalized, state, buffer, digest
      ensures Valid() && finalized && message == old(message)
      ensures result == Sha1Of(message)
    {
      hide Running, HashOf, BlockFold;
      if finalized {
        return digest[..];
      }
      hide Padded, DigestBytes, Wrapped, Place;
      CountModulo(|message|);
      var totalBits := Wrapped(8 * count);
      var index := PadTail(message, Place(count));
      FinishBlock(message, totalBits, index);
      WriteDigest();
      finalized := true;
      result := digest[..];
    }

    /** Completes the last block with zeros and the length, and hashes it. */
    method FinishBlock(ghost m: seq<Byte>, totalBits: nat, index: nat)
      requires Shape() && totalBits == Wrapped(8 * |m|) && index <= 56 && |Padded(m)| >= 64
      requires HasHashed(Padded(m), |Padded(m)| - 64)
      requires buffer[..index] + Zeros(56 - index) + LengthBytes(8 * |m|) == Padded(m)[|Padded(m)| - 64..]
      modifies state, buffer
      ensures HashOf(state[..]) == BlockFold(INITIAL, Padded(m))
    {
      hide HashOf, BlockFold, Padded, Zeros, Wrapped;
      SameLength(8 * |m|);
      WrappedBound(8 * |m|);
      ClearBuffer(index, 56);
      hide LengthBytes;
      assert buffer[..56] == old(buffer[..index]) + Zeros(56 - index);
      WriteLength(totalBits);
      assert buffer[..] == Padded(m)[|Padded(m)| - 64..|Padded(m)| - 64 + 64];
      TransformNext(Padded(m), |Padded(m)| - 64, buffer[..]);
      assert Padded(m)[..|Padded(m)|] == Padded(m);
    }
  }

  lemma SameLength(bits: nat)
    ensures LengthBytes(Wrapped(bits)) == LengthBytes(bits)
  {
    hide LengthByte;
  }

  lemma PaddedStart(m: seq<Byte>)
    ensures |Padded(m)| >= |m| && Padded(m)[..|m|] == m
    ensures Padded(m)[..|m| - |m| % 64] == m[..|m| - |m| % 64]
  {
  }

  lemma AppendShort(m: seq<Byte>, data: seq<Byte>)
    requires |m| % 64 + |data| < 64
    ensures Whole(m + data) == Whole(m) && Rest(m + data) == Rest(m) + data
    ensures |m + data| % 64 == |m| % 64 + |data|
  {
    SumModulo(|m|, |data|);
  }

  lemma SumModulo(a: nat, b: nat)
    requires a % 64 + b < 64
    ensures (a + b) % 64 == a % 64 + b
  {
  }

  lemma FilledBlock(m: seq<Byte>, data: seq<Byte>)
    requires |m| % 64 + |data| >= 64 && |m| % 64 > 0
    ensures var p := |m| - |m| % 64;
            Rest(m) + data[..64 - |m| % 64] == (m + data)[p..p + 64]
  {
  }

  lemma AppendLong(m: seq<Byte>, data: seq<Byte>, i: nat)
    requires i <= |data| && |data| - i < 64 && (|m| + i) % 64 == 0
    ensures Whole(m + data) == (m + data)[..|m| + i] && Rest(m + data) == data[i..]
    ensures |m + data| % 64 == |data| - i
  {
    SumModulo(|m| + i, |data| - i);
  }

  // ----- One-shot wrappers -----

  function Flatten(chunks: seq<seq<Byte>>): seq<Byte> {
    if chunks == [] then [] else Flatten(chunks[..|chunks| - 1]) + chunks[|chunks| - 1]
  }

  function Value(x: Byte): (r: nat)
    ensures r < 256
  {
    x as nat
  }

  function HexDigit(n: nat): char
    requires n < 16
  {
    "0123456789abcdef"[n]
  }

  /** Two lower-case hexadecimal digits for each byte. */
  function Hex(bytes: seq<Byte>): (r: string)
    ensures |r| == 2 * |bytes|
  {
    if bytes == [] then ""
    else
      var x := Value(bytes[|bytes| - 1]);
      Hex(bytes[..|bytes| - 1]) + [HexDigit(x / 16), HexDigit(x % 16)]
  }

  lemma HexDigitInjective(x: nat, y: nat)
    requires x < 16 && y < 16 && HexDigit(x) == HexDigit(y)
    ensures x == y
  {
  }

  lemma QuotientAndRest(a: nat, b: nat)
    requires a / 16 == b / 16 && a % 16 == b % 16
    ensures a == b
  {
  }

  lemma HexByteInjective(x: Byte, y: Byte)
    requires HexDigit(Value(x) / 16) == HexDigit(Value(y) / 16)
    requires HexDigit(Value(x) % 16) == HexDigit(Value(y) % 16)
    ensures x == y
  {
    hide HexDigit;
    var a, b := Value(x), Value(y);
    HexDigitInjective(a / 16, b / 16);
    HexDigitInjective(a % 16, b % 16);
    QuotientAndRest(a, b);
  }

  lemma HexLast(x: seq<Byte>)
    requires x != []
    ensures var n := |x| - 1;
      && Hex(x)[..2 * n] == Hex(x[..n])
      && Hex(x)[2 * n] == HexDigit(Value(x[n]) / 16)
      && Hex(x)[2 * n + 1] == HexDigit(Value(x[n]) % 16)
  {
    hide HexDigit, Value;
  }

  /** Different digests have different texts. */
  lemma {:induction false} HexInjective(x: seq<Byte>, y: seq<Byte>)
    requires Hex(x) == Hex(y)
    ensures x == y
  {
    assert |x| == |y|;
    if x != [] {
      var n := |x| - 1;
      HexLast(x);
      HexLast(y);
      hide Hex, HexDigit, Value;
      HexInjective(x[..n], y[..n]);
      HexByteInjective(x[n], y[n]);
      assert x == x[..n] + [x[n]] && y == y[..n] + [y[n]];
    }
  }

  method Sha1DigestToHex(digest: seq<Byte>) returns (hex: string)
    ensures hex == Hex(digest)
  {
    hide HexDigit, Value;
    hex := "";
    for i := 0 to |digest|
      invariant hex == Hex(digest[..i])
    {
      assert digest[..i + 1][..i] == digest[..i];
      var x := Value(digest[i]);
      hex := hex + [HexDigit(x / 16), HexDigit(x % 16)];
    }
    assert digest[..|digest|] == digest;
  }

  /** The digest of a message read in portions, however it is split. */
  method ComputeStreamSha1(chunks: seq<seq<Byte>>) returns (hex: string)
    ensures hex == Hex(Sha1Of(Flatten(chunks)))
  {
    hide Sha1Of;
    var sha1 := new Sha1();
    for i := 0 to |chunks|
      invariant sha1.Valid() && fresh(sha1) && fresh(sha1.state) && fresh(sha1.buffer) && fresh(sha1.digest)
      invariant !sha1.finalized && sha1.message == Flatten(chunks[..i])
    {
      assert chunks[..i + 1][..i] == chunks[..i];
      sha1.Update(chunks[i]);
    }
    assert chunks[..|chunks|] == chunks;
    var digest := sha1.Finalize();
    hex := Sha1DigestToHex(digest);
  }

  method ComputeSha1Digest(data: seq<Byte>) returns (digest: seq<Byte>)
    ensures digest == Sha1Of(data)
  {
    var sha1 := new Sha1();
    assert [] + data == data;
    hide Sha1Of;
    sha1.Update(data);
    digest := sha1.Finalize();
  }
}
