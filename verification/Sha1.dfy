/** The streaming part of SHA-1 in src/sha1/sha1.c; the compression of one block is a parameter. */
module Sha1 {
  import opened Bytes
  import opened BlockHash

  /** A message of this many bytes has a length in bits that no longer fits in 64 bits. */
  const LIMIT: int := 0x2000_0000_0000_0000

  datatype Digest = Digest(a: u32, b: u32, c: u32, d: u32, e: u32)

  const INITIAL := Digest(0x67452301, 0xEFCDAB89, 0x98BADCFE, 0x10325476, 0xC3D2E1F0)

  /** The padding of section 4 of FIPS 180-1: a one bit, zeros, and the length in bits as 64 of them. */
  function Padded(m: bytes): (p: bytes)
    ensures Over(|p|) == 0
  {
    PadFills(|m|);
    m + [0x80] + Zeros(PadZeros(|m|)) + BigEndian(8 * |m|, 8)
  }

  /** What is hashed ends in the number of bits, the most significant of the eight bytes first. */
  lemma PaddedBytes(m: bytes) returns (length: bytes)
    requires |m| < 0x2000_0000_0000_0000
    ensures var p := Padded(m);
            && |p| % 64 == 0 && |m| + 9 <= |p| <= |m| + 72 && p[..|m|] == m && p[|m|] == 0x80
            && (forall i :: |m| < i < |p| - 8 ==> p[i] == 0) && p[|p| - 8..] == length
    ensures |length| == 8
    ensures length[0] as int * 0x100_0000_0000_0000 + length[1] as int * 0x1_0000_0000_0000
            + length[2] as int * 0x100_0000_0000 + length[3] as int * 0x1_0000_0000 + length[4] as int * 0x100_0000
            + length[5] as int * 0x1_0000 + length[6] as int * 0x100 + length[7] as int == 8 * |m|
  {
    hide BigEndian, PadZeros, Zeros, FromBigEndian, Power256;
    length := BigEndian(8 * |m|, 8);
    PaddingBytes(m, length);
    BigEndianValue(8 * |m|, 8);
    PowerEight();
    BigEight(length);
  }

  /** The initial words of section 7 of FIPS 180-1. */
  lemma Starts()
    ensures INITIAL.a == 0x67452301 && INITIAL.b == 0xEFCDAB89 && INITIAL.c == 0x98BADCFE && INITIAL.d == 0x10325476
    ensures INITIAL.e == 0xC3D2E1F0 && LIMIT == 0x1_0000_0000_0000_0000 / 8
  {
  }

  class Context {
    const process: (Digest, bytes) -> Digest
    var digest: Digest
    var lengthLow: u32
    var lengthHigh: u32
    const block: array<byte>
    var index: nat
    var computed: bool
    var corrupted: bool

    /** The message so far. */
    ghost var msg: bytes

    /** SHA1Reset. */
    constructor (process: (Digest, bytes) -> Digest)
      ensures Open() && fresh(block) && msg == [] && this.process == process
    {
      this.process := process;
      digest, lengthLow, lengthHigh, index, computed, corrupted, msg := INITIAL, 0, 0, 0, false, false, [];
      block := new byte[64];
    }

    /** Still taking input, all of it counted and compressed as far as it fills blocks. */
    ghost predicate Open()
      reads this, block
    {
      !computed && !corrupted && |msg| < LIMIT && lengthLow + M32 * lengthHigh == 8 * |msg| && Absorbed()
    }

    ghost predicate Absorbed()
      reads this, block
    {
      block.Length == 64 && index == Over(|msg|) && digest == Fold(process, INITIAL, msg) && block[..index] == Rest(msg)
    }

    /** One byte into the block, compressed when full. */
    method PutByte(b: byte)
      requires Absorbed()
      modifies `digest, `index, `msg, block
      ensures Absorbed() && msg == old(msg) + [b]
    {
      hide Fold, Over, Rest;
      block[index] := b;
      index := index + 1;
      assert block[..index] == Rest(msg) + [b];
      if index == 64 {
        Completes(process, INITIAL, msg, [b]);
        assert block[..] == block[..64];
        digest := process(digest, block[..]);
        index := 0;
      } else {
        StillPart(process, INITIAL, msg, [b]);
      }
      msg := msg + [b];
    }

    /** Eight more bits; the context is corrupted when 64 bits no longer hold their number. */
    method CountByte(ghost n: nat)
      requires n < LIMIT && lengthLow + M32 * lengthHigh == 8 * n && !corrupted
      modifies `lengthLow, `lengthHigh, `corrupted
      ensures corrupted <==> n + 1 == LIMIT
      ensures !corrupted ==> lengthLow + M32 * lengthHigh == 8 * (n + 1)
    {
      lengthLow := (lengthLow + 8) % M32;
      if lengthLow == 0 {
        lengthHigh := (lengthHigh + 1) % M32;
        if lengthHigh == 0 { corrupted := true; }
      }
    }

    /** SHA1Input. */
    method Input(data: bytes)
      requires corrupted || computed || Open()
      modifies this, block
      ensures data == [] ==>
                corrupted == old(corrupted) && computed == old(computed) && msg == old(msg) && (old(Open()) ==> Open())
      ensures data != [] && !old(Open()) ==> corrupted
      ensures computed == old(computed)
      ensures old(Open()) && |old(msg)| + |data| < LIMIT ==> Open() && msg == old(msg) + data
      ensures old(Open()) && |old(msg)| + |data| >= LIMIT ==> corrupted
    {
      hide Fold, Over, Rest;
      if data == [] {
        assert msg + data == msg;
        return;
      }
      if computed || corrupted {
        corrupted := true;
        return;
      }
      var i := 0;
      while i < |data| && !corrupted
        invariant 0 <= i <= |data| && msg == old(msg) + data[..i] && !computed
        invariant !corrupted ==> Open()
        invariant corrupted ==> |msg| >= LIMIT
      {
        PutByte(data[i]);
        assert data[..i + 1] == data[..i] + [data[i]];
        CountByte(|msg| - 1);
        i := i + 1;
      }
      if !corrupted { assert data[..i] == data; }
    }

    /** SHA1PadMessage: into this block, or into this one and another. */
    method PadMessage()
      requires Open()
      modifies `digest, `index, `msg, block
      ensures msg == Padded(old(msg)) && digest == Fold(process, INITIAL, msg)
    {
      hide Fold, Over, Rest, BigEndian;
      ghost var m := msg;
      var length := BigEndian(lengthHigh, 4) + BigEndian(lengthLow, 4);
      LengthBytes(lengthLow, lengthHigh);
      var two := index > 55;
      PutByte(0x80);
      ghost var z := 0;
      OverAdd(|m|, 1);
      if two {
        while index != 0
          invariant Absorbed() && msg == m + [0x80] + Zeros(z)
          invariant index == 0 ==> z == 63 - Over(|m|)
          invariant index != 0 ==> index == Over(|m|) + 1 + z
          decreases if index == 0 then 0 else 64 - index
        {
          OverAdd(|msg|, 1);
          PutByte(0);
          z := z + 1;
        }
      }
      while index < 56
        invariant Absorbed() && msg == m + [0x80] + Zeros(z)
        invariant index <= 56 && index == (if two then z - (63 - Over(|m|)) else Over(|m|) + 1 + z)
        decreases 56 - index
      {
        OverAdd(|msg|, 1);
        PutByte(0);
        z := z + 1;
      }
      assert z == PadZeros(|m|);
      PutLength(length);
    }

    /** The length fills the last block. */
    method PutLength(length: bytes)
      requires Absorbed() && index == 56 && |length| == 8
      modifies `digest, `index, `msg, block
      ensures msg == old(msg) + length && digest == Fold(process, INITIAL, msg)
    {
      hide Fold, Over, Rest;
      Copy(block, 56, length);
      Completes(process, INITIAL, msg, length);
      assert block[..] == block[..64];
      digest := process(digest, block[..]);
      index := 0;
      msg := msg + length;
    }

    /** SHA1Result; false if the context is corrupted. */
    method Result() returns (ok: bool)
      requires corrupted || computed || Open()
      modifies this, block
      ensures ok <==> !old(corrupted)
      ensures old(Open()) ==> computed && digest == Fold(process, INITIAL, Padded(old(msg)))
      ensures !old(Open()) ==> digest == old(digest)
    {
      if corrupted { return false; }
      if !computed {
        PadMessage();
        computed := true;
      }
      ok := true;
    }
  }

  lemma LengthBytes(low: u32, high: u32)
    ensures BigEndian(high, 4) + BigEndian(low, 4) == BigEndian(low + M32 * high, 8)
  {
    hide BigEndian;
    assert Power256(2) == 65536 && Power256(4) == 65536 * Power256(2) == M32;
    BigEndianJoin(high, low, 4, 4);
  }

  /** Any sequence of inputs of less than 2^61 bytes in all gives the digest of the concatenation. */
  method HashPieces(process: (Digest, bytes) -> Digest, pieces: seq<bytes>) returns (digest: Option<Digest>)
    ensures |Concat(pieces)| < LIMIT ==> digest == Some(Fold(process, INITIAL, Padded(Concat(pieces))))
    ensures |Concat(pieces)| >= LIMIT ==> digest == None
  {
    hide Fold, Padded;
    var ctx := new Context(process);
    hide ctx.Absorbed;
    for i := 0 to |pieces|
      invariant fresh(ctx) && fresh(ctx.block) && ctx.process == process && !ctx.computed
      invariant |Concat(pieces[..i])| < LIMIT ==> ctx.Open() && ctx.msg == Concat(pieces[..i])
      invariant |Concat(pieces[..i])| >= LIMIT ==> ctx.corrupted
    {
      ctx.Input(pieces[i]);
      assert pieces[..i + 1] == pieces[..i] + [pieces[i]];
      ConcatSnoc(pieces[..i], pieces[i]);
    }
    assert pieces[..|pieces|] == pieces;
    var ok := ctx.Result();
    digest := if ok then Some(ctx.digest) else None;
  }
}
