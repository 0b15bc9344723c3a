/** UTF-8 as read and written by src/jansson/src/utf.c (sections 3 and 4 of RFC 3629). */
module Utf8 {
  import opened Bytes

  /** Unicode scalar values: code points other than surrogates. */
  predicate IsScalar(cp: int) { 0 <= cp <= 0x10FFFF && !(0xD800 <= cp <= 0xDFFF) }

  /** utf8_encode; None is its error return. */
  function Encode(cp: int): Option<bytes> {
    if cp < 0 then None
    else if cp < 0x80 then Some([cp])
    else if cp < 0x800 then Some([0xC0 + cp / 64, 0x80 + cp % 64])
    else if cp < 0x10000 then Some([0xE0 + cp / 4096, 0x80 + cp / 64 % 64, 0x80 + cp % 64])
    else if cp <= 0x10FFFF then
      Some([0xF0 + cp / 262144, 0x80 + cp / 4096 % 64, 0x80 + cp / 64 % 64, 0x80 + cp % 64])
    else None
  }

  function Encoded(cp: int): (s: bytes)
    requires IsScalar(cp)
    ensures 1 <= |s| <= 4
    ensures cp < 0x80 ==> s == [cp]
    ensures cp >= 0x80 ==> s[0] >= 0xC2
  {
    Encode(cp).value
  }

  /** The scalar values of Unicode: every code point but the surrogates. */
  lemma ScalarIs(cp: int)
    ensures IsScalar(cp) <==> 0 <= cp < 0xD800 || 0xE000 <= cp <= 0x10FFFF
  {
  }

  /** The table of section 3 of RFC 3629: what the bytes of an encoded character range over and add up to. */
  lemma EncodedBytes(cp: int)
    requires 0 <= cp <= 0x10FFFF && !(0xD800 <= cp <= 0xDFFF)
    ensures IsScalar(cp)
    ensures var s := Encoded(cp);
            && (cp <= 0x7F ==> s == [cp])
            && (0x80 <= cp <= 0x7FF ==>
                  && |s| == 2 && 0xC2 <= s[0] <= 0xDF && 0x80 <= s[1] <= 0xBF
                  && cp == (s[0] - 0xC0) as int * 0x40 + (s[1] - 0x80) as int)
            && (0x800 <= cp <= 0xFFFF ==>
                  && |s| == 3 && 0xE0 <= s[0] <= 0xEF && 0x80 <= s[1] <= 0xBF && 0x80 <= s[2] <= 0xBF
                  && cp == (s[0] - 0xE0) as int * 0x1000 + (s[1] - 0x80) as int * 0x40 + (s[2] - 0x80) as int)
            && (0x10000 <= cp ==>
                  && |s| == 4 && 0xF0 <= s[0] <= 0xF4 && 0x80 <= s[1] <= 0xBF && 0x80 <= s[2] <= 0xBF
                  && 0x80 <= s[3] <= 0xBF
                  && cp == (s[0] - 0xF0) as int * 0x40000 + (s[1] - 0x80) as int * 0x1000
                           + (s[2] - 0x80) as int * 0x40 + (s[3] - 0x80) as int)
  {
    Sixty(cp);
    Sixty(cp / 64);
    Sixty(cp / 4096);
  }

  lemma Sixty(n: nat)
    ensures n == n / 64 * 64 + n % 64 && n / 64 / 64 == n / 4096 && n / 4096 / 64 == n / 262144
  {
  }

  /** utf8_check_first: the length a first byte announces, 0 if it cannot be one. */
  function CheckFirst(u: byte): nat {
    if u < 0x80 then 1
    else if u <= 0xC1 then 0
    else if u <= 0xDF then 2
    else if u <= 0xEF then 3
    else if u <= 0xF4 then 4
    else 0
  }

  /** The low bits of a byte: u & (m - 1) for a power of two m. */
  function Bits(u: byte, m: int): int
    requires m > 0
  {
    u % m
  }

  predicate IsContinuation(u: byte) { 0x80 <= u <= 0xBF }

  /** The bits of a sequence, continuation bytes six at a time. */
  function RawValue(b: bytes, size: nat): int
    requires 2 <= size <= 4 && size <= |b|
  {
    if size == 2 then Bits(b[0], 32) * 64 + Bits(b[1], 64)
    else if size == 3 then (Bits(b[0], 16) * 64 + Bits(b[1], 64)) * 64 + Bits(b[2], 64)
    else ((Bits(b[0], 8) * 64 + Bits(b[1], 64)) * 64 + Bits(b[2], 64)) * 64 + Bits(b[3], 64)
  }

  predicate Overlong(size: nat, value: int) {
    (size == 2 && value < 0x80) || (size == 3 && value < 0x800) || (size == 4 && value < 0x10000)
  }

  /** utf8_check_full. */
  function CheckFull(b: bytes, size: nat): Option<int>
    requires size <= |b|
  {
    if !(2 <= size <= 4) then None
    else if exists i :: 1 <= i < size && !IsContinuation(b[i]) then None
    else
      var value := RawValue(b, size);
      if !IsScalar(value) || Overlong(size, value) then None else Some(value)
  }

  method CheckFullLoop(b: bytes, size: nat) returns (r: Option<int>)
    requires 1 <= |b| && size <= |b|
    ensures r == CheckFull(b, size)
  {
    var value := 0;
    if size == 2 {
      value := Bits(b[0], 32);
    } else if size == 3 {
      value := Bits(b[0], 16);
    } else if size == 4 {
      value := Bits(b[0], 8);
    } else {
      return None;
    }
    ghost var first := value;
    for i := 1 to size
      invariant forall j :: 1 <= j < i ==> IsContinuation(b[j])
      invariant value == if i == 1 then first
                         else if i == 2 then first * 64 + Bits(b[1], 64)
                         else if i == 3 then (first * 64 + Bits(b[1], 64)) * 64 + Bits(b[2], 64)
                         else ((first * 64 + Bits(b[1], 64)) * 64 + Bits(b[2], 64)) * 64 + Bits(b[3], 64)
    {
      if b[i] < 0x80 || b[i] > 0xBF { return None; }
      value := value * 64 + Bits(b[i], 64);
    }
    assert value == RawValue(b, size);
    if value > 0x10FFFF { return None; }
    if 0xD800 <= value <= 0xDFFF { return None; }
    if (size == 2 && value < 0x80) || (size == 3 && value < 0x800) || (size == 4 && value < 0x10000) { return None; }
    return Some(value);
  }

  /** utf8_iterate on a non-empty buffer: the code point and the length of its encoding. */
  function Iterate(b: bytes): (r: Option<(int, nat)>)
    requires b != []
    ensures r.Some? ==> 1 <= r.value.1 <= |b| && r.value.1 == CheckFirst(b[0])
  {
    var count := CheckFirst(b[0]);
    if count == 0 then None
    else if count == 1 then Some((b[0], 1))
    else if count > |b| then None
    else match CheckFull(b, count)
      case None => None
      case Some(v) => Some((v, count))
  }

  lemma EncodedFirst(cp: int)
    requires IsScalar(cp)
    ensures CheckFirst(Encoded(cp)[0]) == |Encoded(cp)|
    ensures forall i :: 1 <= i < |Encoded(cp)| ==> IsContinuation(Encoded(cp)[i])
  {
  }

  /** Decoding undoes encoding, for every scalar value. */
  lemma IterateEncoded(cp: int, x: bytes)
    requires IsScalar(cp)
    ensures Iterate(Encoded(cp) + x) == Some((cp, |Encoded(cp)|))
  {
    var s := Encoded(cp);
    var b := s + x;
    EncodedFirst(cp);
    assert forall i :: 0 <= i < |s| ==> b[i] == s[i];
    if |s| >= 2 {
      RawValueEncoded(cp, b);
    }
  }

  lemma RawValueEncoded(cp: int, b: bytes)
    requires IsScalar(cp) && |Encoded(cp)| >= 2 && |Encoded(cp)| <= |b|
    requires forall i :: 0 <= i < |Encoded(cp)| ==> b[i] == Encoded(cp)[i]
    ensures RawValue(b, |Encoded(cp)|) == cp && !Overlong(|Encoded(cp)|, cp)
  {
    hide Bits;
    var s := Encoded(cp);
    assert b[0] == s[0] && b[1] == s[1];
    if cp < 0x800 {
      Tail(cp, b[1]);
      Head(b[0], 0xC0, 32, cp / 64);
    } else if cp < 0x10000 {
      assert b[2] == s[2];
      Tail(cp, b[2]);
      Tail(cp / 64, b[1]);
      Head(b[0], 0xE0, 16, cp / 4096);
      assert cp / 64 / 64 == cp / 4096;
    } else {
      assert b[2] == s[2] && b[3] == s[3];
      Tail(cp, b[3]);
      Tail(cp / 64, b[2]);
      Tail(cp / 4096, b[1]);
      Head(b[0], 0xF0, 8, cp / 262144);
      assert cp / 64 / 64 == cp / 4096 && cp / 4096 / 64 == cp / 262144;
    }
  }

  lemma Head(u: byte, base: int, m: int, n: nat)
    requires (base == 0xC0 && m == 32) || (base == 0xE0 && m == 16) || (base == 0xF0 && m == 8)
    requires n < m && u == base + n
    ensures Bits(u, m) == n
  {
    if m == 32 {
      assert u % 32 == n;
    } else if m == 16 {
      assert u % 16 == n;
    } else {
      assert u % 8 == n;
    }
  }

  lemma Tail(n: nat, u: byte)
    requires u == 0x80 + n % 64
    ensures n / 64 * 64 + Bits(u, 64) == n
  {
  }

  /** What is accepted is the encoding of a scalar value. */
  lemma EncodedIterate(b: bytes)
    requires b != [] && Iterate(b).Some?
    ensures var (cp, n) := Iterate(b).value; IsScalar(cp) && b[..n] == Encoded(cp)
  {
    var (cp, n) := Iterate(b).value;
    if n == 1 {
    } else if n == 2 {
      TwoBytes(b[0], b[1]);
    } else if n == 3 {
      ThreeBytes(b[0], b[1], b[2]);
    } else {
      FourBytes(b[0], b[1], b[2], b[3]);
    }
  }

  lemma TwoBytes(p: byte, q: byte)
    requires 0xC2 <= p <= 0xDF && IsContinuation(q)
    ensures var cp := Bits(p, 32) * 64 + Bits(q, 64); 0x80 <= cp < 0x800 && p == 0xC0 + cp / 64 && q == 0x80 + cp % 64
  {
  }

  lemma ThreeBytes(p: byte, q: byte, r: byte)
    requires 0xE0 <= p <= 0xEF && IsContinuation(q) && IsContinuation(r)
    ensures var cp := (Bits(p, 16) * 64 + Bits(q, 64)) * 64 + Bits(r, 64);
            cp < 0x10000 && p == 0xE0 + cp / 4096 && q == 0x80 + cp / 64 % 64 && r == 0x80 + cp % 64
  {
    var hi := Bits(p, 16) * 64 + Bits(q, 64);
    assert (hi * 64 + Bits(r, 64)) / 64 == hi;
  }

  lemma FourBytes(p: byte, q: byte, r: byte, s: byte)
    requires 0xF0 <= p <= 0xF4 && IsContinuation(q) && IsContinuation(r) && IsContinuation(s)
    ensures var cp := ((Bits(p, 8) * 64 + Bits(q, 64)) * 64 + Bits(r, 64)) * 64 + Bits(s, 64);
            p == 0xF0 + cp / 262144 && q == 0x80 + cp / 4096 % 64 && r == 0x80 + cp / 64 % 64 && s == 0x80 + cp % 64
  {
    var a := Bits(p, 8) * 64 + Bits(q, 64);
    var b := a * 64 + Bits(r, 64);
    var cp := b * 64 + Bits(s, 64);
    assert cp / 64 == b && cp % 64 == Bits(s, 64);
    assert b / 64 == a && b % 64 == Bits(r, 64);
    assert a / 64 == Bits(p, 8) && a % 64 == Bits(q, 64);
    assert cp / 4096 == cp / 64 / 64 && cp / 262144 == cp / 64 / 64 / 64;
  }

  // ----- strings -----

  /** The code points of a byte string, if it is UTF-8. */
  function Decode(b: bytes): (r: Option<seq<int>>)
    ensures r.Some? ==> forall i :: 0 <= i < |r.value| ==> IsScalar(r.value[i])
    decreases |b|
  {
    if b == [] then Some([])
    else match Iterate(b)
      case None => None
      case Some((cp, n)) =>
        EncodedIterate(b);
        match Decode(b[n..])
        case None => None
        case Some(rest) => Some([cp] + rest)
  }

  predicate Valid(b: bytes) { Decode(b).Some? }

  function EncodeAll(cps: seq<int>): bytes
    requires forall i :: 0 <= i < |cps| ==> IsScalar(cps[i])
  {
    if cps == [] then [] else Encoded(cps[0]) + EncodeAll(cps[1..])
  }

  lemma {:induction false} DecodeEncodeAll(cps: seq<int>)
    requires forall i :: 0 <= i < |cps| ==> IsScalar(cps[i])
    ensures Decode(EncodeAll(cps)) == Some(cps)
  {
    if cps != [] {
      IterateEncoded(cps[0], EncodeAll(cps[1..]));
      DecodeEncodeAll(cps[1..]);
      assert [cps[0]] + cps[1..] == cps;
      assert (Encoded(cps[0]) + EncodeAll(cps[1..]))[|Encoded(cps[0])|..] == EncodeAll(cps[1..]);
    }
  }

  lemma {:induction false} EncodeAllDecode(b: bytes)
    requires Valid(b)
    ensures EncodeAll(Decode(b).value) == b
    decreases |b|
  {
    hide Iterate, Encoded;
    if b != [] {
      var (cp, n) := Iterate(b).value;
      EncodedIterate(b);
      EncodeAllDecode(b[n..]);
      assert Decode(b).value[1..] == Decode(b[n..]).value;
      assert b[..n] + b[n..] == b;
    }
  }

  /** utf8_check_string accepts exactly UTF-8. */
  method CheckString(s: bytes) returns (ok: bool)
    ensures ok == Valid(s)
  {
    var i := 0;
    while i < |s|
      invariant 0 <= i <= |s| && (Valid(s) <==> Valid(s[i..]))
    {
      assert s[i..] != [];
      var count := CheckFirst(s[i]);
      if count == 0 { return false; }
      if count > 1 {
        if count > |s| - i { return false; }
        var v := CheckFullLoop(s[i..], count);
        if v == None { return false; }
      }
      assert Iterate(s[i..]).Some? && s[i..][count..] == s[i + count..];
      i := i + count;
    }
    assert s[i..] == [];
    return true;
  }
}
