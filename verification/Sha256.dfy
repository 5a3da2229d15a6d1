/** The incremental SHA-256 of src/xlib/xsha256.c against FIPS 180-4. */
module Sha256 {
  import opened Common

  const BLOCK: nat := 64

  // ---------------------------------------------------------------- FIPS 180-4, section 4.1.2 and 4.2.2

  function Rotr(x: bv32, n: nat): bv32 requires 0 < n < 32 { (x >> n) | (x << (32 - n)) }
  function Ch(x: bv32, y: bv32, z: bv32): bv32 { (x & y) ^ (!x & z) }
  function Maj(x: bv32, y: bv32, z: bv32): bv32 { (x & y) ^ (x & z) ^ (y & z) }
  function BigSigma0(x: bv32): bv32 { ((x >> 2) | (x << 30)) ^ ((x >> 13) | (x << 19)) ^ ((x >> 22) | (x << 10)) }
  function BigSigma1(x: bv32): bv32 { ((x >> 6) | (x << 26)) ^ ((x >> 11) | (x << 21)) ^ ((x >> 25) | (x << 7)) }
  function SmallSigma0(x: bv32): bv32 { ((x >> 7) | (x << 25)) ^ ((x >> 18) | (x << 14)) ^ (x >> 3) }
  function SmallSigma1(x: bv32): bv32 { ((x >> 17) | (x << 15)) ^ ((x >> 19) | (x << 13)) ^ (x >> 10) }

  /** The four functions of the standard, in terms of rotations. */
  lemma SigmasRotate(x: bv32)
    ensures BigSigma0(x) == x.RotateRight(2) ^ x.RotateRight(13) ^ x.RotateRight(22)
    ensures BigSigma1(x) == x.RotateRight(6) ^ x.RotateRight(11) ^ x.RotateRight(25)
    ensures SmallSigma0(x) == x.RotateRight(7) ^ x.RotateRight(18) ^ (x >> 3)
    ensures SmallSigma1(x) == x.RotateRight(17) ^ x.RotateRight(19) ^ (x >> 10)
  {
  }

  /** Ch chooses by its first argument between the other two, bit by bit; `b` is any set of bits. */
  lemma ChChooses(x: bv32, y: bv32, z: bv32, b: bv32)
    ensures x & b == b ==> Ch(x, y, z) & b == y & b
    ensures x & b == 0 ==> Ch(x, y, z) & b == z & b
  {
  }

  /** Maj is what two of its arguments agree on. */
  lemma MajAgrees(x: bv32, y: bv32, z: bv32, b: bv32)
    ensures x & b == y & b || x & b == z & b ==> Maj(x, y, z) & b == x & b
    ensures y & b == z & b ==> Maj(x, y, z) & b == y & b
  {
  }

  /** ROR32 of the source is written with ROL32. */
  lemma RotationsAgree(x: bv32, n: nat)
    requires 0 < n < 32
    ensures (x << (32 - n)) | ((x & 0xffff_ffff) >> (32 - (32 - n))) == Rotr(x, n)
  {
    assert x & 0xffff_ffff == x;
  }

  /** In rows of eight. */
  const K: seq<seq<bv32>> := [
    [0x428a2f98, 0x71374491, 0xb5c0fbcf, 0xe9b5dba5, 0x3956c25b, 0x59f111f1, 0x923f82a4, 0xab1c5ed5],
    [0xd807aa98, 0x12835b01, 0x243185be, 0x550c7dc3, 0x72be5d74, 0x80deb1fe, 0x9bdc06a7, 0xc19bf174],
    [0xe49b69c1, 0xefbe4786, 0x0fc19dc6, 0x240ca1cc, 0x2de92c6f, 0x4a7484aa, 0x5cb0a9dc, 0x76f988da],
    [0x983e5152, 0xa831c66d, 0xb00327c8, 0xbf597fc7, 0xc6e00bf3, 0xd5a79147, 0x06ca6351, 0x14292967],
    [0x27b70a85, 0x2e1b2138, 0x4d2c6dfc, 0x53380d13, 0x650a7354, 0x766a0abb, 0x81c2c92e, 0x92722c85],
    [0xa2bfe8a1, 0xa81a664b, 0xc24b8b70, 0xc76c51a3, 0xd192e819, 0xd6990624, 0xf40e3585, 0x106aa070],
    [0x19a4c116, 0x1e376c08, 0x2748774c, 0x34b0bcb5, 0x391c0cb3, 0x4ed8aa4a, 0x5b9cca4f, 0x682e6ff3],
    [0x748f82ee, 0x78a5636f, 0x84c87814, 0x8cc70208, 0x90befffa, 0xa4506ceb, 0xbef9a3f7, 0xc67178f2]]

  function RoundConstant(i: nat): bv32
    requires i < 64
  {
    K[i / 8][i % 8]
  }

  // ---------------------------------------------------------------- section 6.2.2

  datatype Regs = Regs(a: bv32, b: bv32, c: bv32, d: bv32, e: bv32, f: bv32, g: bv32, h: bv32)

  const INIT: Regs := Regs(0x6a09e667, 0xbb67ae85, 0x3c6ef372, 0xa54ff53a, 0x510e527f, 0x9b05688c, 0x1f83d9ab,
      0x5be0cd19)

  /** GETU32 of the word `i` of a block. */
  function Word(m: seq<Byte>, i: nat): bv32
    requires 4 * i + 4 <= |m|
  {
    ((m[4 * i] as bv32) << 24) | ((m[4 * i + 1] as bv32) << 16) | ((m[4 * i + 2] as bv32) << 8) | (m[4 * i + 3] as bv32)
  }

  /** The message schedule. */
  function Schedule(m: seq<Byte>, i: nat): bv32
    requires |m| == BLOCK
  {
    if i < 16 then Word(m, i)
    else Mix(Schedule(m, i - 2), Schedule(m, i - 7), Schedule(m, i - 15), Schedule(m, i - 16))
  }

  function Mix(w2: bv32, w7: bv32, w15: bv32, w16: bv32): bv32 {
    SmallSigma1(w2) + w7 + SmallSigma0(w15) + w16
  }

  function Round(r: Regs, k: bv32, w: bv32): Regs {
    var t1 := r.h + BigSigma1(r.e) + Ch(r.e, r.f, r.g) + k + w;
    var t2 := BigSigma0(r.a) + Maj(r.a, r.b, r.c);
    Regs(t1 + t2, r.a, r.b, r.c, r.d + t1, r.e, r.f, r.g)
  }

  function Rounds(m: seq<Byte>, r: Regs, n: nat): Regs
    requires |m| == BLOCK && n <= 64
  {
    if n == 0 then r else Round(Rounds(m, r, n - 1), RoundConstant(n - 1), Schedule(m, n - 1))
  }

  function Sum(r: Regs, s: Regs): Regs {
    Regs(r.a + s.a, r.b + s.b, r.c + s.c, r.d + s.d, r.e + s.e, r.f + s.f, r.g + s.g, r.h + s.h)
  }

  function Compress(r: Regs, m: seq<Byte>): Regs
    requires |m| == BLOCK
  {
    Sum(r, Rounds(m, r, 64))
  }

  /** The hash of a sequence of whole blocks, first block first. */
  function Absorb(r: Regs, data: seq<Byte>): Regs
    requires |data| % BLOCK == 0
    decreases |data|
  {
    if |data| == 0 then r else Absorb(Compress(r, data[..BLOCK]), data[BLOCK..])
  }

  lemma {:induction false} AbsorbTwice(r: Regs, x: seq<Byte>, y: seq<Byte>)
    requires |x| % BLOCK == 0 && |y| % BLOCK == 0
    ensures |x + y| % BLOCK == 0 && Absorb(r, x + y) == Absorb(Absorb(r, x), y)
    decreases |x|
  {
    hide Compress;
    if |x| == 0 {
      assert x + y == y;
    } else {
      assert (x + y)[..BLOCK] == x[..BLOCK] && (x + y)[BLOCK..] == x[BLOCK..] + y;
      AbsorbTwice(Compress(r, x[..BLOCK]), x[BLOCK..], y);
    }
  }

  // ---------------------------------------------------------------- section 5.1.1

  /** The lowest `k` bytes of a number, highest first. */
  function BigEndian(n: nat, k: nat): (s: seq<Byte>)
    ensures |s| == k
  {
    if k == 0 then [] else BigEndian(n / 256, k - 1) + [n % 256]
  }

  predicate AllZero(s: seq<Byte>) { forall i :: 0 <= i < |s| ==> s[i] == 0 }

  /** The fewest zeros that fill up the last block. */
  function ZeroCount(len: nat): (z: nat)
    ensures z < BLOCK && (len + 1 + z + 8) % BLOCK == 0
  {
    (119 - len % BLOCK) % BLOCK
  }

  function Zeros(k: nat): (s: seq<Byte>)
    ensures |s| == k && AllZero(s)
  {
    if k == 0 then [] else Zeros(k - 1) + [0]
  }

  function Padding(len: nat): (s: seq<Byte>)
    ensures (len + |s|) % BLOCK == 0
  {
    [0x80] + Zeros(ZeroCount(len)) + BigEndian(8 * len, 8)
  }

  /** Section 6.2: the digest of a message, in eight words. */
  function Digest(msg: seq<Byte>): Regs {
    Absorb(INIT, msg + Padding(|msg|))
  }

  // ---------------------------------------------------------------- the context

  /** PUTU32 of the high and of the low half of the length in bits. */
  function Length(blocks: nat, num: nat): (s: seq<Byte>)
    ensures |s| == 8
  {
    BigEndian(blocks / 0x80_0000, 4) + BigEndian(512 * blocks + 8 * num, 4)
  }

  lemma LengthBytes(blocks: nat, num: nat)
    requires num < BLOCK
    ensures Length(blocks, num) == BigEndian(8 * (BLOCK * blocks + num), 8)
  {
    var n := 512 * blocks + 8 * num;
    assert 8 * (BLOCK * blocks + num) == n;
    SplitBytes(n);
    HighHalf(blocks, num);
  }

  lemma HighHalf(blocks: nat, num: nat)
    requires num < BLOCK
    ensures (512 * blocks + 8 * num) / 256 / 256 / 256 / 256 == blocks / 0x80_0000
  {}

  lemma SplitBytes(n: nat)
    ensures BigEndian(n, 8) == BigEndian(n / 256 / 256 / 256 / 256, 4) + BigEndian(n, 4)
  {
    PeelByte(n, 8, 4);
    PeelByte(n / 256, 7, 3);
    PeelByte(n / 256 / 256, 6, 2);
    PeelByte(n / 256 / 256 / 256, 5, 1);
  }

  lemma PeelByte(n: nat, k: nat, j: nat)
    requires 0 < j < k
    ensures BigEndian(n, k) == BigEndian(n / 256, k - 1) + [n % 256]
        && BigEndian(n, j) == BigEndian(n / 256, j - 1) + [n % 256]
  {}

  /** SHA256_CTX. `fed` is everything given to it so far. */
  class Context {
    var state: Regs
    var nblocks: nat
    const block: array<Byte>
    var num: nat
    ghost var fed: seq<Byte>

    ghost predicate Valid()
      reads this, block
    {
      && block.Length == BLOCK && num < BLOCK && |fed| == BLOCK * nblocks + num
      && block[..num] == fed[BLOCK * nblocks..]
      && state == Absorb(INIT, fed[..BLOCK * nblocks])
    }

    /** sha256_init */
    constructor ()
      ensures Valid() && fed == [] && fresh(block)
    {
      state, nblocks, num, fed := INIT, 0, 0, [];
      block := new Byte[BLOCK];
    }

    /** One block of sha256_compress_blocks. */
    method CompressBlock(m: seq<Byte>)
      requires |m| == BLOCK
      modifies `state
      ensures state == Compress(old(state), m)
    {
      hide Round, Word, Mix, RoundConstant, Schedule, Rounds, Sum;
      var w := new bv32[64];
      var i := 0;
      while i < 16
        invariant 0 <= i <= 16 && state == old(state)
        invariant forall j :: 0 <= j < i ==> w[j] == Schedule(m, j)
      {
        ScheduleAt(m, i);
        w[i] := Word(m, i);
        i := i + 1;
      }
      while i < 64
        invariant 16 <= i <= 64 && state == old(state)
        invariant forall j :: 0 <= j < i ==> w[j] == Schedule(m, j)
      {
        ScheduleAt(m, i);
        w[i] := Mix(w[i - 2], w[i - 7], w[i - 15], w[i - 16]);
        i := i + 1;
      }
      var r := state;
      i := 0;
      RoundsAt(m, state, 0);
      while i < 64
        invariant 0 <= i <= 64 && state == old(state)
        invariant forall j :: 0 <= j < 64 ==> w[j] == Schedule(m, j)
        invariant r == Rounds(m, state, i)
      {
        RoundsAt(m, state, i);
        r := Round(r, RoundConstant(i), w[i]);
        i := i + 1;
      }
      state := Sum(state, r);
    }

    /** sha256_compress_blocks */
    method CompressBlocks(data: seq<Byte>, blocks: nat)
      requires BLOCK * blocks <= |data|
      modifies `state
      ensures state == Absorb(old(state), data[..BLOCK * blocks])
    {
      hide Compress, Absorb;
      var i := 0;
      AbsorbNone(state);
      assert data[..0] == [];
      while i < blocks
        invariant 0 <= i <= blocks
        invariant state == Absorb(old(state), data[..BLOCK * i])
      {
        var m := data[BLOCK * i..BLOCK * i + BLOCK];
        AbsorbOne(state, m);
        AbsorbTwice(old(state), data[..BLOCK * i], m);
        assert data[..BLOCK * i] + m == data[..BLOCK * (i + 1)];
        CompressBlock(m);
        i := i + 1;
      }
    }

    /** mcopy into the block buffer */
    method Copy(at: nat, data: seq<Byte>)
      requires at + |data| <= block.Length
      modifies block
      ensures block[..] == old(block[..at]) + data + old(block[at + |data|..])
    {
      forall i | 0 <= i < |data| { block[at + i] := data[i]; }
    }

    /** sha256_update once the block buffer is empty. */
    method UpdateAligned(data: seq<Byte>)
      requires block.Length == BLOCK && |fed| == BLOCK * nblocks && state == Absorb(INIT, fed)
      modifies this, block
      ensures Valid() && fed == old(fed) + data
    {
      hide Absorb;
      var blocks := |data| / BLOCK;
      var rest := data;
      ghost var f := fed;
      assert fed[..BLOCK * nblocks] == fed && data[..0] == [] && fed + [] == fed;
      if blocks != 0 {
        CompressBlocks(data, blocks);
        AbsorbTwice(INIT, f, data[..BLOCK * blocks]);
        nblocks := nblocks + blocks;
        rest := data[BLOCK * blocks..];
      }
      num := |rest|;
      if |rest| != 0 { Copy(0, rest); }
      fed := f + data;
      assert fed[..BLOCK * nblocks] == f + data[..BLOCK * blocks];
      assert fed[BLOCK * nblocks..] == rest;
    }

    /** sha256_update on a begun block that the new data fills. */
    method FillBlock(data: seq<Byte>)
      requires Valid() && num + |data| == BLOCK
      modifies this, block
      ensures |fed| == BLOCK * nblocks && state == Absorb(INIT, fed) && fed == old(fed) + data
    {
      hide Absorb;
      ghost var f, nb := fed, nblocks;
      Copy(num, data);
      assert block[..] == f[BLOCK * nb..] + data;
      AbsorbTwice(INIT, f[..BLOCK * nb], block[..]);
      assert block[..][..BLOCK * 1] == block[..];
      CompressBlocks(block[..], 1);
      nblocks := nblocks + 1;
      fed := f + data;
      assert fed == f[..BLOCK * nb] + block[..];
    }

    /** sha256_update on a begun block that stays open. */
    method ExtendBlock(data: seq<Byte>)
      requires Valid() && num + |data| < BLOCK
      modifies `num, `fed, block
      ensures Valid() && fed == old(fed) + data
    {
      hide Absorb;
      ghost var f, nb := fed, nblocks;
      Copy(num, data);
      num := num + |data|;
      fed := f + data;
      assert fed[..BLOCK * nb] == f[..BLOCK * nb];
      assert fed[BLOCK * nb..] == f[BLOCK * nb..] + data;
    }

    /** sha256_update */
    method Update(data: seq<Byte>)
      requires Valid()
      modifies this, block
      ensures Valid() && fed == old(fed) + data
    {
      hide Absorb;
      num := num % 64;
      ghost var f, nb := fed, nblocks;
      if num != 0 {
        var left := BLOCK - num;
        if |data| < left {
          ExtendBlock(data);
        } else {
          FillBlock(data[..left]);
          UpdateAligned(data[left..]);
          assert f + data == f + data[..left] + data[left..];
        }
      } else {
        assert f[..BLOCK * nb] == f;
        UpdateAligned(data);
      }
    }

    /** sha256_finish: the digest of everything that was fed, whatever the pieces were. */
    method Finish() returns (dgst: seq<Byte>)
      requires Valid()
      modifies this, block
      ensures dgst == DigestBytes(Digest(old(fed)))
    {
      hide Absorb, DigestBytes, BigEndian, Digest, Length;
      num := num % 64;
      if num <= BLOCK - 9 { PadShort(); } else { PadLong(); }
      PutLength();
      assert block[..][..BLOCK * 1] == block[..];
      CompressBlocks(block[..], 1);
      dgst := DigestBytes(state);
    }

    /** The padding up to the length, when the block has room for all of it. */
    method PadShort()
      requires Valid() && num <= BLOCK - 9
      modifies block
      ensures Absorb(state, block[..56] + Length(nblocks, num)) == Digest(fed)
    {
      hide Absorb, Zeros, AllZero, Digest, Length;
      ghost var tail := block[..num];
      block[num] := 0x80;
      Copy(num + 1, Zeros(BLOCK - num - 9));
      ShortPad(fed, nblocks, num);
      assert block[..56] == tail + [0x80] + Zeros(55 - num);
    }

    /** And when it has not: the block is closed and another one begun. */
    method PadLong()
      requires Valid() && num > BLOCK - 9
      modifies this`state, block
      ensures Absorb(state, block[..56] + Length(nblocks, num)) == Digest(fed)
    {
      hide Absorb, Zeros, AllZero, Digest, Length;
      ghost var tail := block[..num];
      block[num] := 0x80;
      Copy(num + 1, Zeros(BLOCK - num - 1));
      LongPad(fed, nblocks, num);
      assert block[..][..BLOCK * 1] == block[..] == tail + [0x80] + Zeros(63 - num);
      CompressBlocks(block[..], 1);
      Copy(0, Zeros(BLOCK - 8));
      assert block[..56] == Zeros(56);
    }

    method PutLength()
      requires block.Length == BLOCK
      modifies block
      ensures block[..] == old(block[..56]) + Length(nblocks, num)
    {
      hide BigEndian;
      Copy(56, BigEndian(nblocks / 0x80_0000, 4));
      Copy(60, BigEndian(512 * nblocks + 8 * num, 4));
    }
  }

  lemma {:induction false} ZerosJoin(a: nat, b: nat)
    ensures Zeros(a) + Zeros(b) == Zeros(a + b)
    decreases b
  {
    if b > 0 { ZerosJoin(a, b - 1); }
  }

  /** The last block of a message that ends early enough in it for the padding to fit. */
  function ShortBlock(tail: seq<Byte>, nb: nat): (s: seq<Byte>)
    requires |tail| <= 55
    ensures |s| == BLOCK
  {
    tail + [0x80] + Zeros(55 - |tail|) + Length(nb, |tail|)
  }

  lemma ShortPad(f: seq<Byte>, nb: nat, num: nat)
    requires |f| == BLOCK * nb + num && num <= 55
    ensures Absorb(Absorb(INIT, f[..BLOCK * nb]), ShortBlock(f[BLOCK * nb..], nb)) == Digest(f)
  {
    hide Absorb, BigEndian, Zeros, Length;
    LengthBytes(nb, num);
    assert ZeroCount(|f|) == 55 - num;
    var last := ShortBlock(f[BLOCK * nb..], nb);
    AbsorbTwice(INIT, f[..BLOCK * nb], last);
    assert f[..BLOCK * nb] + last == f + Padding(|f|);
  }

  /** The last two blocks when the padding takes a block of its own. */
  function FullBlock(tail: seq<Byte>): (s: seq<Byte>)
    requires |tail| < BLOCK
    ensures |s| == BLOCK
  {
    tail + [0x80] + Zeros(63 - |tail|)
  }

  function OwnBlock(nb: nat, num: nat): (s: seq<Byte>)
    ensures |s| == BLOCK
  {
    Zeros(56) + Length(nb, num)
  }

  lemma LongPad(f: seq<Byte>, nb: nat, num: nat)
    requires |f| == BLOCK * nb + num && 55 < num < BLOCK
    ensures Absorb(Absorb(Absorb(INIT, f[..BLOCK * nb]), FullBlock(f[BLOCK * nb..])), OwnBlock(nb, num)) == Digest(f)
  {
    hide Absorb, BigEndian, Zeros, Length;
    LengthBytes(nb, num);
    ZerosJoin(63 - num, 56);
    assert ZeroCount(|f|) == 119 - num;
    var full, last := FullBlock(f[BLOCK * nb..]), OwnBlock(nb, num);
    AbsorbTwice(INIT, f[..BLOCK * nb], full);
    AbsorbTwice(INIT, f[..BLOCK * nb] + full, last);
    assert f[..BLOCK * nb] + full + last == f + Padding(|f|);
  }

  /** All the pieces in a row. */
  function Concat(pieces: seq<seq<Byte>>): seq<Byte> {
    if pieces == [] then [] else Concat(pieces[..|pieces| - 1]) + pieces[|pieces| - 1]
  }

  /** Any number of updates with pieces of any size, then finish: the digest of the whole. */
  method HashPieces(pieces: seq<seq<Byte>>) returns (dgst: seq<Byte>)
    ensures dgst == DigestBytes(Digest(Concat(pieces)))
  {
    hide DigestBytes, Digest;
    var ctx := new Context();
    var i := 0;
    while i < |pieces|
      invariant 0 <= i <= |pieces| && ctx.Valid() && ctx.fed == Concat(pieces[..i]) && fresh(ctx) && fresh(ctx.block)
    {
      ctx.Update(pieces[i]);
      assert pieces[..i + 1][..i] == pieces[..i];
      i := i + 1;
    }
    assert pieces[..i] == pieces;
    dgst := ctx.Finish();
  }

  function DigestBytes(r: Regs): (s: seq<Byte>)
    ensures |s| == 32
  {
    WordBytes(r.a) + WordBytes(r.b) + WordBytes(r.c) + WordBytes(r.d)
    + WordBytes(r.e) + WordBytes(r.f) + WordBytes(r.g) + WordBytes(r.h)
  }

  /** PUTU32 */
  function WordBytes(x: bv32): (s: seq<Byte>)
    ensures |s| == 4
  {
    BigEndian(x as int, 4)
  }

  lemma ScheduleAt(m: seq<Byte>, i: nat)
    requires |m| == BLOCK
    ensures i < 16 ==> Schedule(m, i) == Word(m, i)
    ensures i >= 16 ==> Schedule(m, i) == Mix(Schedule(m, i - 2), Schedule(m, i - 7), Schedule(m, i - 15),
        Schedule(m, i - 16))
  {
    hide Mix, Word;
  }

  lemma RoundsAt(m: seq<Byte>, r: Regs, n: nat)
    requires |m| == BLOCK && n < 64
    ensures Rounds(m, r, 0) == r
    ensures Rounds(m, r, n + 1) == Round(Rounds(m, r, n), RoundConstant(n), Schedule(m, n))
  {
    hide Round, RoundConstant, Schedule;
  }

  lemma AbsorbNone(r: Regs)
    ensures Absorb(r, []) == r
  {}

  lemma AbsorbOne(r: Regs, m: seq<Byte>)
    requires |m| == BLOCK
    ensures Absorb(r, m) == Compress(r, m)
  {
    hide Compress;
    assert m[..BLOCK] == m && m[BLOCK..] == [];
    AbsorbNone(Compress(r, m));
  }
}
