/** Streaming SHA-1 against FIPS 180-4. */
module Sha1 {
  import opened Widths

  type Word = bv32
  type Octet = b: int | 0 <= b < 0x100

  // ---------- FIPS 180-4 ----------

  /** Rotation to the left, section 3.2. */
  function RotL(x: Word, n: nat): Word
    requires n < 32
  {
    (x << n) | (x >> (32 - n))
  }

  /** The functions f_t, section 4.1.1. */
  function Ch(x: Word, y: Word, z: Word): Word {
    (x & y) ^ (!x & z)
  }

  function Parity(x: Word, y: Word, z: Word): Word {
    x ^ y ^ z
  }

  function Maj(x: Word, y: Word, z: Word): Word {
    (x & y) ^ (x & z) ^ (y & z)
  }

  function F(t: nat, x: Word, y: Word, z: Word): Word {
    if t < 20 then Ch(x, y, z)
    else if t < 40 then Parity(x, y, z)
    else if t < 60 then Maj(x, y, z)
    else Parity(x, y, z)
  }

  /** The constants K_t, section 4.2.1. */
  function K(t: nat): Word {
    if t < 20 then 0x5A82_7999
    else if t < 40 then 0x6ED9_EBA1
    else if t < 60 then 0x8F1B_BCDC
    else 0xCA62_C1D6
  }

  function AsWord(b: Octet): Word {
    b as Word
  }

  function AsOctet(w: Word): Octet {
    (w & 0xFF) as int
  }

  function FourOctets(a: Octet, b: Octet, c: Octet, d: Octet): Word {
    (AsWord(a) << 24) | (AsWord(b) << 16) | (AsWord(c) << 8) | AsWord(d)
  }

  /** Word i of a block, most significant byte first, section 3.1. */
  function BlockWord(block: seq<Octet>, i: nat): Word
    requires |block| == 64 && i < 16
  {
    FourOctets(block[4 * i], block[4 * i + 1], block[4 * i + 2], block[4 * i + 3])
  }

  function Mix(a: Word, b: Word, c: Word, d: Word): Word {
    a ^ b ^ c ^ d
  }

  /** The message schedule, section 6.1.2 step 1. */
  function Schedule(block: seq<Octet>, t: nat): Word
    requires |block| == 64
  {
    if t < 16 then BlockWord(block, t)
    else
      RotL(Mix(Schedule(block, t - 3), Schedule(block, t - 8), Schedule(block, t - 14), Schedule(block, t - 16)), 1)
  }

  datatype Hash = Hash(a: Word, b: Word, c: Word, d: Word, e: Word)

  /** The initial hash value, section 5.3.1. */
  const INITIAL := Hash(0x6745_2301, 0xEFCD_AB89, 0x98BA_DCFE, 0x1032_5476, 0xC3D2_E1F0)

  /** Addition modulo 2^32. */
  function Plus(a: Word, b: Word): Word {
    a + b
  }

  function Sum(a: Word, b: Word, c: Word, d: Word, e: Word): Word {
    a + b + c + d + e
  }

  /** The working variables after t rounds, section 6.1.2 step 3. */
  function Rounds(block: seq<Octet>, h: Hash, t: nat): Hash
    requires |block| == 64
  {
    if t == 0 then h
    else
      var v := Rounds(block, h, t - 1);
      var temp := Sum(RotL(v.a, 5), F(t - 1, v.b, v.c, v.d), v.e, K(t - 1), Schedule(block, t - 1));
      Hash(temp, v.a, RotL(v.b, 30), v.c, v.d)
  }

  /** The intermediate hash value behind one more block, section 6.1.2 step 4. */
  function Compress(h: Hash, block: seq<Octet>): Hash
    requires |block| == 64
  {
    var v := Rounds(block, h, 80);
    Hash(Plus(h.a, v.a), Plus(h.b, v.b), Plus(h.c, v.c), Plus(h.d, v.d), Plus(h.e, v.e))
  }

  /** The hash value of a sequence of whole blocks. */
  function HashBlocks(m: seq<Octet>): Hash
    requires |m| % 64 == 0
  {
    if m == [] then INITIAL else Compress(HashBlocks(m[..|m| - 64]), m[|m| - 64..])
  }

  lemma HashBlocksAppend(m: seq<Octet>, block: seq<Octet>)
    requires |m| % 64 == 0 && |block| == 64
    ensures HashBlocks(m + block) == Compress(HashBlocks(m), block)
  {
    var all := m + block;
    assert all[..|all| - 64] == m && all[|all| - 64..] == block;
  }

  function Zeros(k: nat): (s: seq<Octet>)
    ensures |s| == k
  {
    seq(k, _ => 0)
  }

  lemma ZerosAppend(s: seq<Octet>, k: nat)
    ensures s + Zeros(0) == s
    ensures s + Zeros(k) + [0] == s + Zeros(k + 1)
  {}

  lemma ZerosJoin(s: seq<Octet>, j: nat, k: nat)
    ensures s + Zeros(j) + Zeros(k) == s + Zeros(j + k)
  {}

  /** The low 8 bits of n. */
  function LowByte(n: nat): Octet {
    n % 0x100
  }

  /** n as 64 bits, most significant byte first. */
  function BigEndian64(n: nat): (s: seq<Octet>)
    ensures |s| == 8
  {
    [LowByte(n / 0x100_0000_0000_0000), LowByte(n / 0x1_0000_0000_0000), LowByte(n / 0x100_0000_0000),
     LowByte(n / 0x1_0000_0000), LowByte(n / 0x100_0000), LowByte(n / 0x1_0000), LowByte(n / 0x100), LowByte(n)]
  }

  /** The smallest number of zero bytes that makes the padding end at a block boundary. */
  function ZeroCount(n: nat): (k: nat)
    ensures k < 64 && (n + 1 + k + 8) % 64 == 0
  {
    (119 - n % 64) % 64
  }

  lemma ZeroCountIs(n: nat, i: nat)
    requires n % 64 == i
    ensures ZeroCount(n) == if i < 56 then 55 - i else 119 - i
  {}

  /** The padded message, section 5.1.1. */
  function Padded(m: seq<Octet>): (p: seq<Octet>)
    ensures |p| % 64 == 0
  {
    m + [0x80] + Zeros(ZeroCount(|m|)) + BigEndian64(8 * |m|)
  }

  function Sha1(m: seq<Octet>): Hash {
    HashBlocks(Padded(m))
  }

  function WordBytes(w: Word): seq<Octet> {
    [AsOctet(w >> 24), AsOctet(w >> 16), AsOctet(w >> 8), AsOctet(w)]
  }

  function HashBytes(h: Hash): seq<Octet> {
    WordBytes(h.a) + WordBytes(h.b) + WordBytes(h.c) + WordBytes(h.d) + WordBytes(h.e)
  }

  // ---------- what the code pads with ----------


  /** The length field of the code: four zero bytes and the low 32 bits of the bit count. */
  function CodeLength(n: nat): (s: seq<Octet>)
    ensures |s| == 8
  {
    var bitCount := 8 * n % TWO_64;
    [0, 0, 0, 0, LowByte(bitCount / 0x100_0000), LowByte(bitCount / 0x1_0000), LowByte(bitCount / 0x100), LowByte(bitCount)]
  }

  /** A number as the 64-bit counter holds it. */
  function Count(n: nat): nat {
    n % TWO_64
  }

  lemma CountOne(n: nat)
    ensures Count(Count(n) + 1) == Count(n + 1)
  {}

  lemma BitCount(n: nat)
    ensures n % TWO_64 * 8 % TWO_64 == 8 * n % TWO_64
  {
    var q, r := n / TWO_64, n % TWO_64;
    assert 8 * n == 8 * r + 8 * q * TWO_64;
    ModPlus(8 * r, 8 * q);
  }

  lemma {:induction false} ModPlus(x: nat, k: nat)
    ensures (x + k * TWO_64) % TWO_64 == x % TWO_64
  {
    if 0 < k { ModPlus(x, k - 1); }
  }

  function CodePadded(m: seq<Octet>): (p: seq<Octet>)
    ensures |p| % 64 == 0
  {
    m + [0x80] + Zeros(ZeroCount(|m|)) + CodeLength(|m|)
  }

  /** For every message FIPS 180-4 admits (less than 2^64 bits), the code pads as the standard says
      exactly when the message is shorter than 2^29 bytes. */
  lemma PaddingIsStandard(m: seq<Octet>)
    requires 8 * |m| < TWO_64
    ensures CodePadded(m) == Padded(m) <==> |m| < 0x2000_0000
  {
    LengthIsStandard(|m|);
    hide CodeLength, BigEndian64, ZeroCount;
    var head := m + [0x80] + Zeros(ZeroCount(|m|));
    assert CodePadded(m)[|head|..] == CodeLength(|m|) && Padded(m)[|head|..] == BigEndian64(8 * |m|);
  }

  lemma LengthIsStandard(n: nat)
    requires 8 * n < TWO_64
    ensures CodeLength(n) == BigEndian64(8 * n) <==> n < 0x2000_0000
  {
    if n < 0x2000_0000 {
      ShortLength(n);
    } else {
      HighOctets(n);
      if BigEndian64(8 * n)[..4] == [0, 0, 0, 0] { HighZero(8 * n); }
      hide CodeLength, BigEndian64;
      assert CodeLength(n)[..4] != BigEndian64(8 * n)[..4];
    }
  }

  lemma ShortLength(n: nat)
    requires n < 0x2000_0000
    ensures CodeLength(n) == BigEndian64(8 * n)
  {
    SmallQuotients(8 * n);
    LowZero();
    hide LowByte;
  }

  lemma SmallQuotients(x: nat)
    requires x < 0x1_0000_0000
    ensures x % TWO_64 == x && x / 0x1_0000_0000 == 0 && x / 0x100_0000_0000 == 0
    ensures x / 0x1_0000_0000_0000 == 0 && x / 0x100_0000_0000_0000 == 0
  {}

  lemma LowZero()
    ensures LowByte(0) == 0
  {}

  /** The code never writes the high half of the length. */
  lemma HighOctets(n: nat)
    requires 8 * n < TWO_64
    ensures CodeLength(n)[..4] == [0, 0, 0, 0]
    ensures var y := BigEndian64(8 * n)[..4];
            && y[0] == 8 * n / 0x100_0000_0000_0000 % 0x100 && y[1] == 8 * n / 0x1_0000_0000_0000 % 0x100
            && y[2] == 8 * n / 0x100_0000_0000 % 0x100 && y[3] == 8 * n / 0x1_0000_0000 % 0x100
  {}

  lemma HighZero(n: nat)
    requires n < TWO_64
    requires n / 0x1_0000_0000 % 0x100 == 0 && n / 0x100_0000_0000 % 0x100 == 0
    requires n / 0x1_0000_0000_0000 % 0x100 == 0 && n / 0x100_0000_0000_0000 % 0x100 == 0
    ensures n < 0x1_0000_0000
  {
    var h := n / 0x1_0000_0000;
    assert n / 0x100_0000_0000 == h / 0x100;
    assert n / 0x1_0000_0000_0000 == h / 0x1_0000;
    assert n / 0x100_0000_0000_0000 == h / 0x100_0000;
  }

  // ---------- the code's forms of the round functions ----------

  function LeftRotate(value: Word, count: nat): Word
    requires count < 32
  {
    (value << count) ^ (value >> (32 - count))
  }

  lemma RotationsAgree(x: Word)
    ensures LeftRotate(x, 1) == RotL(x, 1) && LeftRotate(x, 5) == RotL(x, 5) && LeftRotate(x, 30) == RotL(x, 30)
  {}

  function Choose(b: Word, c: Word, d: Word): Word {
    (b & c) | (!b & d)
  }

  function Majority(b: Word, c: Word, d: Word): Word {
    (b & c) | (b & d) | (c & d)
  }

  lemma ChooseAgrees(b: Word, c: Word, d: Word)
    ensures Choose(b, c, d) == Ch(b, c, d)
  {
    assert (b & c) | (!b & d) == (b & c) ^ (!b & d);
  }

  lemma MajorityAgrees(b: Word, c: Word, d: Word)
    ensures Majority(b, c, d) == Maj(b, c, d)
  {
    assert (b & c) | (b & d) | (c & d) == (b & c) ^ (b & d) ^ (c & d);
  }

  // ---------- the hasher ----------

  class Hasher {
    const digest: array<Word>
    const block: array<Octet>
    var blockByteIndex: nat
    var byteCount: nat
    /** The whole blocks processed since the last reset. */
    ghost var done: seq<Octet>

    ghost predicate Valid()
      reads this, digest, block
    {
      && digest.Length == 5 && block.Length == 64
      && |done| % 64 == 0 && blockByteIndex < 64
      && byteCount == Count(|done| + blockByteIndex)
      && Digest() == HashBlocks(done)
    }

    /** Every byte processed since the last reset. */
    ghost function Stream(): seq<Octet>
      requires block.Length == 64 && blockByteIndex <= 64
      reads this, block
    {
      done + block[..blockByteIndex]
    }

    ghost function Digest(): Hash
      requires digest.Length == 5
      reads digest
    {
      Hash(digest[0], digest[1], digest[2], digest[3], digest[4])
    }

    constructor ()
      ensures Valid() && Stream() == [] && fresh(digest) && fresh(block)
    {
      digest := new Word[5];
      block := new Octet[64];
      blockByteIndex, byteCount := 0, 0;
      done := [];
      new;
      Reset();
    }

    method Reset()
      requires digest.Length == 5 && block.Length == 64
      modifies this, digest
      ensures Valid() && Stream() == []
    {
      digest[0], digest[1], digest[2] := 0x6745_2301, 0xEFCD_AB89, 0x98BA_DCFE;
      digest[3], digest[4] := 0x1032_5476, 0xC3D2_E1F0;
      blockByteIndex, byteCount := 0, 0;
      done := [];
    }

    /** The message schedule of the block. */
    method Expand() returns (w: array<Word>)
      requires block.Length == 64
      ensures fresh(w) && w.Length == 80
      ensures forall t | 0 <= t < 80 :: w[t] == Schedule(block[..], t)
    {
      hide FourOctets, Mix, LeftRotate, RotL;
      ghost var blk := block[..];
      w := new Word[80];
      for i := 0 to 16
        invariant forall t | 0 <= t < i :: w[t] == Schedule(blk, t)
      {
        w[i] := FourOctets(block[i * 4], block[i * 4 + 1], block[i * 4 + 2], block[i * 4 + 3]);
      }
      for i := 16 to 80
        invariant forall t | 0 <= t < i :: w[t] == Schedule(blk, t)
      {
        var x := Mix(w[i - 3], w[i - 8], w[i - 14], w[i - 16]);
        RotationsAgree(x);
        w[i] := LeftRotate(x, 1);
      }
    }

    static method RoundTerm(i: nat, b: Word, c: Word, d: Word) returns (f: Word, k: Word)
      requires i < 80
      ensures f == F(i, b, c, d) && k == K(i)
    {
      hide Ch, Maj, Choose, Majority, Parity;
      ChooseAgrees(b, c, d);
      MajorityAgrees(b, c, d);
      if i < 20 {
        f := Choose(b, c, d);
        k := 0x5A82_7999;
      } else if i < 40 {
        f := Parity(b, c, d);
        k := 0x6ED9_EBA1;
      } else if i < 60 {
        f := Majority(b, c, d);
        k := 0x8F1B_BCDC;
      } else {
        f := Parity(b, c, d);
        k := 0xCA62_C1D6;
      }
    }

    /** One block: 80 rounds over the message schedule. */
    method ProcessBlock()
      requires digest.Length == 5 && block.Length == 64
      modifies digest
      ensures Digest() == Compress(old(Digest()), block[..])
    {
      hide Schedule, F, K, RotL, LeftRotate, Sum, Plus;
      var w := Expand();
      ghost var h := Digest();
      var a, b, c, d, e := digest[0], digest[1], digest[2], digest[3], digest[4];
      ghost var blk := block[..];
      for i := 0 to 80
        invariant Hash(a, b, c, d, e) == Rounds(blk, h, i)
        invariant forall t | 0 <= t < 80 :: w[t] == Schedule(blk, t)
        invariant Digest() == h
      {
        var f, k := RoundTerm(i, b, c, d);
        RotationsAgree(a);
        RotationsAgree(b);
        var temp := Sum(LeftRotate(a, 5), f, e, k, w[i]);
        e := d;
        d := c;
        c := LeftRotate(b, 30);
        b := a;
        a := temp;
      }
      digest[0] := Plus(digest[0], a);
      digest[1] := Plus(digest[1], b);
      digest[2] := Plus(digest[2], c);
      digest[3] := Plus(digest[3], d);
      digest[4] := Plus(digest[4], e);
    }

    method ProcessByte(octet: Octet)
      requires Valid()
      modifies this, digest, block
      ensures Valid() && Stream() == old(Stream()) + [octet]
      ensures blockByteIndex == if old(blockByteIndex) == 63 then 0 else old(blockByteIndex) + 1
    {
      hide HashBlocks, Count;
      block[blockByteIndex] := octet;
      blockByteIndex := blockByteIndex + 1;
      CountOne(|old(Stream())|);
      byteCount := Count(byteCount + 1);
      assert block[..blockByteIndex] == old(block[..blockByteIndex]) + [octet];
      if blockByteIndex == 64 {
        blockByteIndex := 0;
        CloseBlock();
      }
    }

    /** A full block goes into the digest. */
    method CloseBlock()
      requires digest.Length == 5 && block.Length == 64 && |done| % 64 == 0 && Digest() == HashBlocks(done)
      modifies this`done, digest
      ensures done == old(done) + block[..] && |done| % 64 == 0 && Digest() == HashBlocks(done)
    {
      hide HashBlocks, Compress;
      ProcessBlock();
      HashBlocksAppend(done, block[..]);
      done := done + block[..];
    }

    method ProcessBytes(data: seq<Octet>)
      requires Valid()
      modifies this, digest, block
      ensures Valid() && Stream() == old(Stream()) + data
    {
      for begin := 0 to |data|
        invariant Valid() && Stream() == old(Stream()) + data[..begin]
      {
        ProcessByte(data[begin]);
        assert data[..begin + 1] == data[..begin] + [data[begin]];
      }
      assert data[..|data|] == data;
    }

    /** Zero bytes up to the place of the length field. */
    method PadTo56()
      requires Valid() && blockByteIndex <= 56
      modifies this, digest, block
      ensures Valid() && blockByteIndex == 56
      ensures Stream() == old(Stream()) + Zeros(56 - old(blockByteIndex))
    {
      hide HashBlocks, Zeros;
      ghost var i, k := blockByteIndex, 0;
      ZerosAppend(Stream(), 0);
      while blockByteIndex < 56
        invariant Valid() && blockByteIndex == i + k <= 56
        invariant Stream() == old(Stream()) + Zeros(k)
        decreases 56 - blockByteIndex
      {
        ProcessByte(0);
        ZerosAppend(old(Stream()), k);
        k := k + 1;
      }
    }

    /** Zero bytes up to the end of the block. */
    method PadBlock()
      requires Valid() && 0 < blockByteIndex
      modifies this, digest, block
      ensures Valid() && blockByteIndex == 0 && Stream() == old(Stream()) + Zeros(64 - old(blockByteIndex))
    {
      hide HashBlocks, Zeros;
      ghost var i, k := blockByteIndex, 0;
      ZerosAppend(Stream(), 0);
      while blockByteIndex != 0
        invariant Valid() && i + k <= 64 && blockByteIndex == if i + k == 64 then 0 else i + k
        invariant Stream() == old(Stream()) + Zeros(k)
        decreases 64 - i - k
      {
        ProcessByte(0);
        ZerosAppend(old(Stream()), k);
        k := k + 1;
      }
    }

    /** The big-endian length field. */
    method ProcessLength(bitCount: nat)
      requires Valid() && bitCount < TWO_64 && blockByteIndex == 56
      modifies this, digest, block
      ensures Valid() && blockByteIndex == 0
      ensures Stream() == old(Stream()) + [0, 0, 0, 0, LowByte(bitCount / 0x100_0000), LowByte(bitCount / 0x1_0000),
                                       LowByte(bitCount / 0x100), LowByte(bitCount)]
    {
      hide HashBlocks, LowByte;
      ProcessFour(0, 0, 0, 0);
      ProcessFour(LowByte(bitCount / 0x100_0000), LowByte(bitCount / 0x1_0000), LowByte(bitCount / 0x100), LowByte(bitCount));
    }

    method ProcessTwo(a: Octet, b: Octet)
      requires Valid() && blockByteIndex <= 62
      modifies this, digest, block
      ensures Valid() && Stream() == old(Stream()) + [a, b]
      ensures blockByteIndex == if old(blockByteIndex) == 62 then 0 else old(blockByteIndex) + 2
    {
      hide HashBlocks;
      ghost var s := Stream();
      ProcessByte(a);
      ProcessByte(b);
      assert s + [a] + [b] == s + [a, b];
    }

    method ProcessFour(a: Octet, b: Octet, c: Octet, d: Octet)
      requires Valid() && blockByteIndex <= 60
      modifies this, digest, block
      ensures Valid() && Stream() == old(Stream()) + [a, b, c, d]
      ensures blockByteIndex == if old(blockByteIndex) == 60 then 0 else old(blockByteIndex) + 4
    {
      hide HashBlocks;
      ghost var s := Stream();
      ProcessTwo(a, b);
      ProcessTwo(c, d);
      assert s + [a, b] + [c, d] == s + [a, b, c, d];
    }

    /** The bit one and the zeros: up to the length field of this block, or of the next one. */
    method Pad()
      requires Valid()
      modifies this, digest, block
      ensures Valid() && blockByteIndex == 56
      ensures Stream() == old(Stream()) + [0x80] + Zeros(ZeroCount(|old(Stream())|))
    {
      Position();
      ZeroCountIs(|Stream()|, blockByteIndex);
      hide HashBlocks, Zeros, ZeroCount, Count;
      ProcessByte(0x80);
      FillTo56();
    }

    lemma Position()
      requires Valid()
      ensures |Stream()| % 64 == blockByteIndex
    {}

    /** Zero bytes up to the length field of this block, or of the next one. */
    method FillTo56()
      requires Valid()
      modifies this, digest, block
      ensures Valid() && blockByteIndex == 56
      ensures Stream() == old(Stream()) + Zeros(if 56 < old(blockByteIndex) then 120 - old(blockByteIndex) else 56 - old(blockByteIndex))
    {
      hide HashBlocks, Zeros, Count;
      ghost var m, i := Stream(), blockByteIndex;
      if 56 < blockByteIndex {
        PadBlock();
        PadTo56();
        ZerosJoin(m, 64 - i, 56);
      } else {
        PadTo56();
      }
    }

    method GetDigest() returns (h: Hash)
      requires Valid()
      modifies this, digest, block
      ensures Valid() && h == HashBlocks(CodePadded(old(Stream())))
      ensures |old(Stream())| < 0x2000_0000 ==> h == Sha1(old(Stream()))
    {
      hide HashBlocks, Zeros, LowByte, Padded, ZeroCount;
      ghost var m := Stream();
      var bitCount := byteCount * 8 % TWO_64;
      BitCount(|m|);
      Pad();
      ProcessLength(bitCount);
      assert Stream() == CodePadded(m);
      assert Stream() == done;
      if |m| < 0x2000_0000 { PaddingIsStandard(m); }
      h := Hash(digest[0], digest[1], digest[2], digest[3], digest[4]);
    }

    method GetDigestBytes() returns (bytes: seq<Octet>)
      requires Valid()
      modifies this, digest, block
      ensures Valid() && bytes == HashBytes(HashBlocks(CodePadded(old(Stream()))))
      ensures |old(Stream())| < 0x2000_0000 ==> bytes == HashBytes(Sha1(old(Stream())))
    {
      var d32 := GetDigest();
      bytes := WordBytes(d32.a) + WordBytes(d32.b) + WordBytes(d32.c) + WordBytes(d32.d) + WordBytes(d32.e);
    }
  }

  /** However a message is cut into pieces, its digest is that of the whole message. */
  method HashPieces(pieces: seq<seq<Octet>>) returns (bytes: seq<Octet>)
    ensures bytes == HashBytes(HashBlocks(CodePadded(Joined(pieces))))
    ensures |Joined(pieces)| < 0x2000_0000 ==> bytes == HashBytes(Sha1(Joined(pieces)))
  {
    var hasher := new Hasher();
    for i := 0 to |pieces|
      invariant hasher.Valid() && hasher.Stream() == Joined(pieces[..i])
      invariant fresh(hasher) && fresh(hasher.digest) && fresh(hasher.block)
    {
      hasher.ProcessBytes(pieces[i]);
      assert pieces[..i + 1][..i] == pieces[..i];
    }
    assert pieces[..|pieces|] == pieces;
    bytes := hasher.GetDigestBytes();
  }

  function Joined(pieces: seq<seq<Octet>>): seq<Octet> {
    if pieces == [] then [] else Joined(pieces[..|pieces| - 1]) + pieces[|pieces| - 1]
  }
}
