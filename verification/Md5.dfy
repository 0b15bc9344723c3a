/** The streaming part of MD5 in src/md5/md5.c; the compression of one block is a parameter. */
module Md5 {
  import opened Bytes
  import opened BlockHash

  const M64: int := 0x1_0000_0000_0000_0000

  datatype Digest = Digest(a: u32, b: u32, c: u32, d: u32)

  const INITIAL := Digest(0x67452301, 0xefcdab89, 0x98badcfe, 0x10325476)

  /** The message of sections 3.1 and 3.2 of RFC 1321: a one bit, zeros, and the length in bits, 64 of them. */
  function Padded(m: bytes): (p: bytes)
    ensures Over(|p|) == 0
  {
    PadFills(|m|);
    m + [0x80] + Zeros(PadZeros(|m|)) + LittleEndian(8 * |m| % M64, 8)
  }

  /** What is hashed ends in the number of bits, the least significant of the eight bytes first. */
  lemma PaddedBytes(m: bytes) returns (length: bytes)
    ensures var p := Padded(m);
            && |p| % 64 == 0 && |m| + 9 <= |p| <= |m| + 72 && p[..|m|] == m && p[|m|] == 0x80
            && (forall i :: |m| < i < |p| - 8 ==> p[i] == 0) && p[|p| - 8..] == length
    ensures |length| == 8
    ensures length[0] as int + length[1] as int * 0x100 + length[2] as int * 0x1_0000 + length[3] as int * 0x100_0000
            + length[4] as int * 0x1_0000_0000 + length[5] as int * 0x100_0000_0000
            + length[6] as int * 0x1_0000_0000_0000 + length[7] as int * 0x100_0000_0000_0000
            == 8 * |m| % 0x1_0000_0000_0000_0000
  {
    hide LittleEndian, PadZeros, Zeros, FromLittleEndian, Power256;
    length := LittleEndian(8 * |m| % M64, 8);
    PaddingBytes(m, length);
    LittleEndianValue(8 * |m| % M64, 8);
    PowerEight();
    LittleEight(length);
  }

  /** The initial words of section 3.3 of RFC 1321, low-order bytes first. */
  lemma Starts()
    ensures DigestBytes(INITIAL) == [0x01, 0x23, 0x45, 0x67, 0x89, 0xab, 0xcd, 0xef,
                                     0xfe, 0xdc, 0xba, 0x98, 0x76, 0x54, 0x32, 0x10]
  {
    hide LittleEndian;
    FourBytesOf(0x67452301);
    FourBytesOf(0xefcdab89);
    FourBytesOf(0x98badcfe);
    FourBytesOf(0x10325476);
  }

  lemma FourBytesOf(n: u32)
    ensures LittleEndian(n, 4) == [n % 256, n / 256 % 256, n / 65536 % 256, n / 16777216 % 256]
  {
    assert n / 256 / 256 == n / 65536 && n / 65536 / 256 == n / 16777216;
    assert LittleEndian(n / 16777216, 1) == [n / 16777216 % 256];
    assert LittleEndian(n / 65536, 2) == [n / 65536 % 256] + LittleEndian(n / 16777216, 1);
    assert LittleEndian(n / 256, 3) == [n / 256 % 256] + LittleEndian(n / 65536, 2);
  }

  class State {
    const process: (Digest, bytes) -> Digest
    var count0: u32
    var count1: u32
    var abcd: Digest
    const buf: array<byte>

    /** The message appended so far. */
    ghost var msg: bytes

    /** md5_init. */
    constructor (process: (Digest, bytes) -> Digest)
      ensures Valid() && fresh(buf) && msg == [] && this.process == process
    {
      this.process := process;
      count0, count1, abcd, msg := 0, 0, INITIAL, [];
      buf := new byte[64];
    }

    ghost predicate Valid()
      reads this, buf
    {
      && buf.Length == 64
      && count0 + M32 * count1 == 8 * |msg| % M64
      && abcd == Fold(process, INITIAL, msg)
      && buf[..Over(|msg|)] == Rest(msg)
    }

    /** md5_append. */
    method Append(data: bytes)
      requires Valid() && |data| < 0x8000_0000
      modifies this, buf
      ensures Valid() && msg == old(msg) + data
    {
      hide Fold, Over, Rest;
      if data == [] {
        assert msg + data == msg;
        return;
      }
      var offset := count0 / 8 % 64;
      Offset(count0, count1, |msg|);
      Count(|data|);
      ghost var m := msg;
      msg := msg + data;
      var p := 0;
      if offset > 0 {
        p := if offset + |data| > 64 then 64 - offset else |data|;
        Copy(buf, offset, data[..p]);
        if offset + p < 64 {
          assert data[..p] == data;
          StillPart(process, INITIAL, m, data);
          return;
        }
        assert buf[..] == buf[..64];
        Completes(process, INITIAL, m, data[..p]);
        abcd := process(abcd, buf[..]);
      } else {
        assert m + data[..0] == m;
      }
      AppendBlocks(m, data, p);
    }

    /** The full blocks of the data from p on, and what is left over. */
    method AppendBlocks(ghost m: bytes, data: bytes, start: nat)
      requires start <= |data| && Over(|m| + start) == 0 && buf.Length == 64
      requires msg == m + data && abcd == Fold(process, INITIAL, m + data[..start])
      modifies `abcd, buf
      ensures abcd == Fold(process, INITIAL, msg) && buf[..Over(|msg|)] == Rest(msg)
    {
      hide Fold, Over, Rest;
      var p, left := start, |data| - start;
      while left >= 64
        invariant 0 <= p && 0 <= left && p + left == |data| && Over(|m| + p) == 0
        invariant abcd == Fold(process, INITIAL, m + data[..p])
      {
        var block := data[p..p + 64];
        FoldBlock(process, INITIAL, m + data[..p], block);
        assert m + data[..p] + block == m + data[..p + 64];
        abcd := process(abcd, block);
        p, left := p + 64, left - 64;
      }
      if left > 0 { Copy(buf, 0, data[p..]); }
      ghost var head := m + data[..p];
      assert head + data[p..] == msg;
      NoRest(head);
      StillPart(process, INITIAL, head, data[p..]);
    }

    /** md5_finish: the digest of the padded message. */
    method Finish() returns (digest: bytes)
      requires Valid()
      modifies this, buf
      ensures digest == DigestBytes(Fold(process, INITIAL, Padded(old(msg))))
    {
      hide Fold, Over, Rest, Padded, DigestBytes, WordsBytes;
      ghost var m := msg;
      var data := WordBytes([count0, count1]);
      var pad := Padding();
      Append(pad);
      Append(data);
      CountBytes(old(count0), old(count1), 8 * |m| % M64);
      PaddedParts(m, pad, data);
      digest := WordBytes([abcd.a, abcd.b, abcd.c, abcd.d]);
      FourWords(abcd);
    }

    /** The padding: one to 64 bytes of the pad. */
    method Padding() returns (r: bytes)
      requires Valid()
      ensures r == [0x80] + Zeros(PadZeros(|msg|)) && |r| < 100
    {
      hide Fold, Over, Rest;
      var pad := [0x80] + Zeros(63);
      var n := (55 - count0 / 8) % 64 + 1;
      Offset(count0, count1, |msg|);
      PadLength(count0 / 8, |msg|);
      r := pad[..n];
    }

    /** The length in bits, with the carry between its two words. */
    method Count(nbytes: nat)
      requires count0 + M32 * count1 == 8 * |msg| % M64 && nbytes < 0x8000_0000
      modifies `count0, `count1
      ensures count0 + M32 * count1 == 8 * (|msg| + nbytes) % M64
    {
      CarryCount(count0, count1, 8 * |msg|, nbytes);
      var nbits := 8 * nbytes % M32;
      count1 := (count1 + nbytes / 0x2000_0000) % M32;
      count0 := (count0 + nbits) % M32;
      if count0 < nbits { count1 := (count1 + 1) % M32; }
      assert 8 * (|msg| + nbytes) == 8 * |msg| + 8 * nbytes;
    }
  }

  lemma PaddedParts(m: bytes, pad: bytes, data: bytes)
    requires pad == [0x80] + Zeros(PadZeros(|m|)) && data == LittleEndian(8 * |m| % M64, 8)
    ensures m + pad + data == Padded(m)
  {
    hide LittleEndian, PadZeros;
  }

  /** The bytes of 32-bit words, each least significant byte first. */
  function WordsBytes(ws: seq<u32>): (s: bytes)
    ensures |s| == 4 * |ws|
  {
    if ws == [] then [] else LittleEndian(ws[0], 4) + WordsBytes(ws[1..])
  }

  function DigestBytes(d: Digest): bytes {
    LittleEndian(d.a, 4) + LittleEndian(d.b, 4) + LittleEndian(d.c, 4) + LittleEndian(d.d, 4)
  }

  lemma FourWords(d: Digest)
    ensures WordsBytes([d.a, d.b, d.c, d.d]) == DigestBytes(d)
  {
    hide LittleEndian;
    var ws := [d.a, d.b, d.c, d.d];
    assert ws[1..] == [d.b, d.c, d.d] && [d.b, d.c, d.d][1..] == [d.c, d.d] && [d.c, d.d][1..] == [d.d]
      && [d.d][1..] == [];
    assert WordsBytes([d.d]) == LittleEndian(d.d, 4);
    assert WordsBytes([d.c, d.d]) == LittleEndian(d.c, 4) + LittleEndian(d.d, 4);
    assert WordsBytes([d.b, d.c, d.d]) == LittleEndian(d.b, 4) + LittleEndian(d.c, 4) + LittleEndian(d.d, 4);
  }

  /** w >> 8 * j. */
  function Shifted(w: nat, j: nat): int { w / Power256(j) }

  lemma {:induction false} LittleEndianAt(w: nat, k: nat, j: nat)
    requires j < k
    ensures LittleEndian(w, k)[j] == Shifted(w, j) % 256
  {
    hide Shifted;
    if j > 0 {
      LittleEndianAt(w / 256, k - 1, j - 1);
      ShiftedStep(w, j);
    } else {
      ShiftedNone(w);
    }
  }

  lemma ShiftedStep(w: nat, j: nat)
    requires j > 0
    ensures Shifted(w / 256, j - 1) == Shifted(w, j)
  {
    DivideTwice(w, Power256(j - 1));
  }

  lemma ShiftedNone(w: nat)
    ensures Shifted(w, 0) == w
  {
  }

  lemma DivideTwice(w: nat, p: nat)
    requires p >= 1
    ensures w / 256 / p == w / (256 * p)
  {
    var q, r := w / 256, w % 256;
    var q', r' := q / p, q % p;
    assert w == 256 * q + r && q == p * q' + r';
    Distribute(p, q', r');
    assert w == (256 * p) * q' + (256 * r' + r);
    UniqueQuotient(w, 256 * p, q', 256 * r' + r);
  }

  lemma UniqueQuotient(n: nat, d: nat, q: nat, r: nat)
    requires d >= 1 && n == d * q + r && r < d
    ensures n / d == q
  {
    UniqueRemainder(n, d, q, r);
    assert n == d * (n / d) + r;
    SameFactor(d, n / d, q);
  }

  lemma SameFactor(d: nat, x: int, y: int)
    requires d >= 1 && d * x == d * y
    ensures x == y
  {
  }

  lemma {:induction false} WordsBytesAt(ws: seq<u32>, i: nat)
    requires i < 4 * |ws|
    ensures WordsBytes(ws)[i] == Shifted(ws[i / 4], i % 4) % 256
  {
    if i < 4 {
      LittleEndianAt(ws[0], 4, i);
    } else {
      WordsBytesAt(ws[1..], i - 4);
    }
  }

  /** The loops that write words out byte by byte. */
  method WordBytes(ws: seq<u32>) returns (data: bytes)
    ensures data == WordsBytes(ws)
  {
    data := [];
    for i := 0 to 4 * |ws|
      invariant |data| == i && data == WordsBytes(ws)[..i]
    {
      WordsBytesAt(ws, i);
      data := data + [Shifted(ws[i / 4], i % 4) % 256];
    }
  }

  lemma CountBytes(c0: u32, c1: u32, n: nat)
    requires c0 + M32 * c1 == n
    ensures WordsBytes([c0, c1]) == LittleEndian(n, 8)
  {
    hide LittleEndian;
    assert Power256(2) == 65536 && Power256(4) == 65536 * Power256(2) == M32;
    LittleEndianJoin(c0, c1, 4, 4);
    var ws := [c0, c1];
    assert ws[1..] == [c1] && ws[1..][1..] == [];
  }

  /** The pad length formula. */
  lemma PadLength(x: nat, n: nat)
    requires x % 64 == Over(n)
    ensures (55 - x) % 64 == PadZeros(n)
  {
  }

  /** Adding to a 64-bit count kept in two words. */
  lemma CarryCount(c0: u32, c1: u32, total: nat, nbytes: nat)
    requires c0 + M32 * c1 == total % M64 && nbytes < 0x8000_0000
    ensures var nbits := 8 * nbytes % M32;
            var d0, d1 := (c0 + nbits) % M32, (c1 + nbytes / 0x2000_0000) % M32;
            (if d0 < nbits then d0 + M32 * ((d1 + 1) % M32) else d0 + M32 * d1) == (total + 8 * nbytes) % M64
  {
    var nbits, high := 8 * nbytes % M32, nbytes / 0x2000_0000;
    SplitBits(nbytes);
    var d0, d1 := (c0 + nbits) % M32, (c1 + high) % M32;
    LowWord(c0, nbits);
    var carry := if d0 < nbits then 1 else 0;
    HighWord(c1, high, carry);
    var e1, q := (c1 + high + carry) % M32, (c1 + high + carry) / M32;
    assert c0 + M32 * c1 + 8 * nbytes == d0 + M32 * (c1 + high + carry) == (d0 + M32 * e1) + M64 * q;
    UniqueRemainder(c0 + M32 * c1 + 8 * nbytes, M64, q, d0 + M32 * e1);
    SumRemainder(total, 8 * nbytes);
  }

  /** The low word of the count gives the place in the block. */
  lemma Offset(c0: u32, c1: u32, n: nat)
    requires c0 + M32 * c1 == 8 * n % M64
    ensures c0 / 8 % 64 == Over(n)
  {
    var q := 8 * n / M64;
    assert 8 * n == M64 * q + M32 * c1 + c0;
    var high := 0x2000_0000_0000_0000 * q + 0x2000_0000 * c1;
    assert c0 == 8 * (n - high);
    assert n == c0 / 8 + 64 * (0x80_0000_0000_0000 * q + 0x80_0000 * c1);
    DropMultiple(c0 / 8, 0x80_0000_0000_0000 * q + 0x80_0000 * c1);
  }

  lemma DropMultiple(x: nat, k: nat)
    ensures (x + 64 * k) % 64 == x % 64
  {
  }

  lemma SplitBits(nbytes: nat)
    requires nbytes < 0x8000_0000
    ensures 8 * nbytes == M32 * (nbytes / 0x2000_0000) + 8 * nbytes % M32
  {
  }

  lemma LowWord(c0: u32, nbits: u32)
    ensures var d0 := (c0 + nbits) % M32; c0 + nbits == d0 + (if d0 < nbits then M32 else 0)
  {
  }

  lemma HighWord(c1: u32, high: nat, carry: nat)
    requires carry <= 1
    ensures ((c1 + high) % M32 + carry) % M32 == (c1 + high + carry) % M32
  {
  }

  lemma SumRemainder(total: nat, n: nat)
    ensures (total % M64 + n) % M64 == (total + n) % M64
  {
  }

  /** Any sequence of appends gives the digest of the concatenation. */
  method HashPieces(process: (Digest, bytes) -> Digest, pieces: seq<bytes>) returns (digest: bytes)
    requires forall i :: 0 <= i < |pieces| ==> |pieces[i]| < 0x8000_0000
    ensures digest == DigestBytes(Fold(process, INITIAL, Padded(Concat(pieces))))
  {
    hide Fold, Padded, DigestBytes;
    var st := new State(process);
    hide st.Valid;
    for i := 0 to |pieces|
      invariant fresh(st) && fresh(st.buf) && st.Valid() && st.process == process && st.msg == Concat(pieces[..i])
    {
      st.Append(pieces[i]);
      assert pieces[..i + 1] == pieces[..i] + [pieces[i]];
      ConcatSnoc(pieces[..i], pieces[i]);
    }
    assert pieces[..|pieces|] == pieces;
    digest := st.Finish();
  }
}
