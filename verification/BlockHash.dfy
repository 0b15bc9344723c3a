/** Hashing by 64-byte blocks: a compression function folded over a padded message. */
module BlockHash {
  import opened Bytes

  /** The bytes of a message of length n after its last whole block. */
  function Over(n: nat): (r: nat)
    ensures r < 64 && r <= n
  {
    n % 64
  }

  lemma OverAdd(n: nat, k: nat)
    ensures Over(n) + k < 64 ==> Over(n + k) == Over(n) + k
    ensures Over(n) + k == 64 ==> Over(n + k) == 0
  {
  }

  lemma OverWhole(n: nat)
    ensures Over(n - Over(n)) == 0 && (n < 64 ==> Over(n) == n)
  {
  }

  /** The full blocks of a message, folded; what is left of it is not used. */
  function Fold<D>(f: (D, bytes) -> D, d: D, m: bytes): D
    decreases |m|
  {
    if |m| < 64 then d else Fold(f, f(d, m[..64]), m[64..])
  }

  lemma {:induction false} FoldAppend<D>(f: (D, bytes) -> D, d: D, a: bytes, b: bytes)
    requires Over(|a|) == 0
    ensures Fold(f, d, a + b) == Fold(f, Fold(f, d, a), b)
    decreases |a|
  {
    if a == [] {
      assert a + b == b;
    } else {
      assert |a| >= 64;
      assert (a + b)[..64] == a[..64] && (a + b)[64..] == a[64..] + b;
      FoldAppend(f, f(d, a[..64]), a[64..], b);
    }
  }

  lemma FoldShort<D>(f: (D, bytes) -> D, d: D, m: bytes)
    requires |m| < 64
    ensures Fold(f, d, m) == d
  {
  }

  /** One more block. */
  lemma FoldBlock<D>(f: (D, bytes) -> D, d: D, a: bytes, b: bytes)
    requires Over(|a|) == 0 && |b| == 64
    ensures Fold(f, d, a + b) == f(Fold(f, d, a), b) && Over(|a| + 64) == 0
  {
    OverAdd(|a|, 64);
    FoldAppend(f, d, a, b);
    assert b[..64] == b && b[64..] == [];
    FoldShort(f, f(Fold(f, d, a), b), []);
  }

  /** What a message leaves over after its whole blocks. */
  function Rest(m: bytes): bytes { m[|m| - Over(|m|)..] }

  /** The whole blocks of a message. */
  function WholePart(m: bytes): bytes { m[..|m| - Over(|m|)] }

  lemma FoldWhole<D>(f: (D, bytes) -> D, d: D, m: bytes)
    ensures Over(|WholePart(m)|) == 0
    ensures Fold(f, d, m) == Fold(f, d, WholePart(m))
  {
    hide Fold, Over;
    OverWhole(|m|);
    var w := |m| - Over(|m|);
    assert m == m[..w] + m[w..];
    FoldAppend(f, d, m[..w], m[w..]);
    FoldShort(f, Fold(f, d, m[..w]), m[w..]);
  }

  /** More data that does not complete the block in hand. */
  lemma StillPart<D>(f: (D, bytes) -> D, d: D, m: bytes, data: bytes)
    requires Over(|m|) + |data| < 64
    ensures Over(|m| + |data|) == Over(|m|) + |data|
    ensures Rest(m + data) == Rest(m) + data
    ensures Fold(f, d, m + data) == Fold(f, d, m)
  {
    hide Fold, Over, Rest, WholePart;
    OverAdd(|m|, |data|);
    RestGrows(m, data);
    FoldWhole(f, d, m);
    FoldWhole(f, d, m + data);
  }

  lemma RestGrows(m: bytes, data: bytes)
    requires Over(|m| + |data|) == Over(|m|) + |data|
    ensures Rest(m + data) == Rest(m) + data
    ensures WholePart(m + data) == WholePart(m)
  {
    hide Over;
    CutWithin(m, data, |m| - Over(|m|));
  }

  lemma CutWithin(m: bytes, data: bytes, w: nat)
    requires w <= |m|
    ensures (m + data)[w..] == m[w..] + data && (m + data)[..w] == m[..w]
  {
  }

  lemma NoRest(m: bytes)
    requires Over(|m|) == 0
    ensures Rest(m) == []
  {
  }

  lemma WholeAndRest(m: bytes) returns (whole: bytes)
    ensures m == whole + Rest(m) && Over(|whole|) == 0 && |Rest(m)| == Over(|m|) && whole == WholePart(m)
  {
    OverWhole(|m|);
    whole := m[..|m| - Over(|m|)];
  }

  /** Data that completes the block in hand. */
  lemma Completes<D>(f: (D, bytes) -> D, d: D, m: bytes, data: bytes)
    requires Over(|m|) + |data| == 64
    ensures Over(|m| + |data|) == 0 && Rest(m + data) == []
    ensures Fold(f, d, m + data) == f(Fold(f, d, m), Rest(m) + data)
  {
    hide Fold, Over, Rest;
    OverAdd(|m|, |data|);
    NoRest(m + data);
    var whole := WholeAndRest(m);
    var rest := Rest(m);
    FoldWhole(f, d, m);
    FoldBlock(f, d, whole, rest + data);
    Regroup(whole, rest, data);
  }

  lemma Regroup(a: bytes, b: bytes, c: bytes)
    ensures a + (b + c) == (a + b) + c
  {
  }

  function Zeros(n: nat): (s: bytes)
    ensures |s| == n && forall i :: 0 <= i < n ==> s[i] == 0
  {
    seq(n, _ => 0)
  }

  /** How many zero bytes bring a message with its 0x80 byte to 56 bytes modulo 64. */
  function PadZeros(n: nat): nat { if Over(n) <= 55 then 55 - Over(n) else 119 - Over(n) }

  lemma PadFills(n: nat)
    ensures Over(n + 1 + PadZeros(n)) == 56 && Over(n + 1 + PadZeros(n) + 8) == 0
  {
  }

  /**
   The padding, byte by byte: the message, 0x80, as few zeros as bring the rest to whole blocks, and
   eight bytes.
   */
  lemma PaddingBytes(m: bytes, length: bytes)
    requires |length| == 8
    ensures var p := m + [0x80] + Zeros(PadZeros(|m|)) + length;
            && |p| % 64 == 0 && |m| + 9 <= |p| <= |m| + 72 && p[..|m|] == m && p[|m|] == 0x80
            && (forall i :: |m| < i < |p| - 8 ==> p[i] == 0) && p[|p| - 8..] == length
  {
    PadFills(|m|);
    var p := m + [0x80] + Zeros(PadZeros(|m|)) + length;
    assert p[..|m|] == m && p[|p| - 8..] == length;
    forall i | |m| < i < |p| - 8 ensures p[i] == 0 { assert p[i] == Zeros(PadZeros(|m|))[i - |m| - 1]; }
  }

  /** memcpy into the block buffer. */
  method Copy(buf: array<byte>, at: nat, src: bytes)
    requires at + |src| <= buf.Length
    modifies buf
    ensures buf[..at + |src|] == old(buf[..at]) + src
  {
    forall i | 0 <= i < |src| { buf[at + i] := src[i]; }
  }
}
