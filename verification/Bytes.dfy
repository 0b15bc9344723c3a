/** Bytes, byte strings and the canonical decimal notation shared by every component. */
module Bytes {

  type byte = b: int | 0 <= b < 256
  type bytes = seq<byte>

  datatype Option<+T> = None | Some(value: T)

  const NUL: byte := 0
  const LF: byte := 10
  const CR: byte := 13
  const MINUS: byte := 45
  const ZERO: byte := 48
  const NINE: byte := 57
  const CRLF: bytes := [13, 10]

  const INT_MAX: int := 0x7fff_ffff
  const LLONG_MAX: int := 0x7fff_ffff_ffff_ffff
  const LLONG_MIN: int := -0x8000_0000_0000_0000
  const ULLONG_MAX: int := 0xffff_ffff_ffff_ffff

  predicate IsDigit(b: byte) { ZERO <= b <= NINE }

  predicate AllDigits(s: bytes) { forall i :: 0 <= i < |s| ==> IsDigit(s[i]) }

  /** The decimal digits of `n`, most significant first, without leading zeros. */
  function Digits(n: nat): (s: bytes)
    ensures |s| >= 1 && AllDigits(s)
    ensures s[0] == ZERO <==> n == 0
  {
    if n < 10 then [ZERO + n] else Digits(n / 10) + [ZERO + n % 10]
  }

  /** The decimal notation of an integer. */
  function Decimal(n: int): (s: bytes)
    ensures |s| >= 1
  {
    if n < 0 then [MINUS] + Digits(-n) else Digits(n)
  }

  /** The value of a digit string, by Horner's rule. */
  function DigitsValue(s: bytes): nat
    requires AllDigits(s)
  {
    if s == [] then 0 else 10 * DigitsValue(s[..|s| - 1]) + (s[|s| - 1] - ZERO)
  }

  lemma {:induction false} DigitsValueOfDigits(n: nat)
    ensures DigitsValue(Digits(n)) == n
  {
    if n >= 10 {
      DigitsValueOfDigits(n / 10);
      assert Digits(n)[..|Digits(n)| - 1] == Digits(n / 10);
    } else {
      assert Digits(n)[..0] == [];
    }
  }

  function Power10(k: nat): nat { if k == 0 then 1 else 10 * Power10(k - 1) }

  /** Place values: the i-th digit from the left stands for itself times a power of ten. */
  function Places(s: bytes): int { if s == [] then 0 else (s[0] - '0' as int) * Power10(|s| - 1) + Places(s[1..]) }

  lemma {:induction false} PlacesSnoc(s: bytes, b: byte)
    ensures Places(s + [b]) == 10 * Places(s) + (b - '0' as int)
  {
    if s == [] {
      assert s + [b] == [b];
      assert [b][1..] == [];
    } else {
      assert (s + [b])[1..] == s[1..] + [b];
      PlacesSnoc(s[1..], b);
    }
  }

  /** The notation of a number: ASCII digits of its value, no zero in front, a minus sign if it is negative. */
  lemma {:induction false} DigitsPlaces(n: nat)
    ensures Places(Digits(n)) == n
    ensures forall i :: 0 <= i < |Digits(n)| ==> '0' as int <= Digits(n)[i] <= '9' as int
    ensures |Digits(n)| > 1 ==> Digits(n)[0] != '0' as int
    ensures n > 0 ==> Decimal(0 - n) == ['-' as int] + Digits(n)
    ensures Decimal(n) == Digits(n)
  {
    if n >= 10 {
      DigitsPlaces(n / 10);
      PlacesSnoc(Digits(n / 10), ZERO + n % 10);
    } else {
      PlacesSnoc([], ZERO + n);
      assert [] + [ZERO + n] == [ZERO + n];
    }
  }

  /** A digit string without a leading zero is the notation of its own value. */
  lemma {:induction false} DigitsOfDigitsValue(s: bytes)
    requires |s| >= 1 && AllDigits(s)
    requires s[0] == ZERO ==> |s| == 1
    ensures Digits(DigitsValue(s)) == s
    ensures s[0] != ZERO ==> DigitsValue(s) >= 1
  {
    var init := s[..|s| - 1];
    assert s == init + [s[|s| - 1]];
    if |s| == 1 {
      assert init == [];
    } else {
      DigitsOfDigitsValue(init);
    }
  }

  lemma {:induction false} DigitsValuePrefix(s: bytes, k: nat)
    requires AllDigits(s) && k <= |s|
    ensures DigitsValue(s[..k]) <= DigitsValue(s)
    decreases |s| - k
  {
    if k < |s| {
      DigitsValuePrefix(s, k + 1);
      assert s[..k + 1][..k] == s[..k];
    } else {
      assert s[..k] == s;
    }
  }

  /** Concatenation of a list of byte strings. */
  function Concat(parts: seq<bytes>): bytes {
    if parts == [] then [] else parts[0] + Concat(parts[1..])
  }

  lemma {:induction false} ConcatAppend(a: seq<bytes>, b: seq<bytes>)
    ensures Concat(a + b) == Concat(a) + Concat(b)
  {
    if a == [] {
      assert a + b == b;
    } else {
      assert (a + b)[1..] == a[1..] + b;
      ConcatAppend(a[1..], b);
    }
  }

  lemma ConcatSnoc(a: seq<bytes>, x: bytes)
    ensures Concat(a + [x]) == Concat(a) + x
  {
    ConcatAppend(a, [x]);
    assert [x][1..] == [];
    assert Concat([x]) == x;
  }

  function Spaces(n: nat): (s: bytes)
    ensures |s| == n && forall i :: 0 <= i < n ==> s[i] == 32
  {
    seq(n, _ => 32)
  }

  // ----- hexadecimal digits and text -----

  predicate IsHex(b: byte) { 48 <= b <= 57 || 65 <= b <= 70 || 97 <= b <= 102 }

  function HexValue(b: byte): (v: nat)
    requires IsHex(b)
    ensures v < 16
  {
    if b <= 57 then b - 48 else if b <= 70 then b - 55 else b - 87
  }

  /** The upper-case digit. */
  function HexDigit(v: nat): (b: byte)
    requires v < 16
    ensures IsHex(b) && HexValue(b) == v
  {
    if v < 10 then 48 + v else 55 + v
  }

  /** b is a hexadecimal digit for v, in either case. */
  predicate Hex(b: byte, v: nat) {
    (v < 10 && b == '0' as int + v) || (10 <= v < 16 && (b == 'A' as int + (v - 10) || b == 'a' as int + (v - 10)))
  }

  lemma HexLaw(b: byte, v: nat)
    ensures Hex(b, v) <==> IsHex(b) && HexValue(b) == v
    ensures IsHex(b) && HexValue(b) == v <==>
              || (v < 10 && b == '0' as int + v)
              || (10 <= v < 16 && (b == 'A' as int + (v - 10) || b == 'a' as int + (v - 10)))
  {
  }

  /** The digit for v in upper or lower case. */
  function HexIn(v: nat, lower: bool): (b: byte)
    requires v < 16
    ensures Hex(b, v)
  {
    if v < 10 then '0' as int + v else if lower then 'a' as int + (v - 10) else 'A' as int + (v - 10)
  }

  function Ascii(s: string): bytes { seq(|s|, i requires 0 <= i < |s| => if s[i] as int < 256 then s[i] as int else 0) }

  // ----- numbers as bytes -----

  const M32: int := 0x1_0000_0000

  type u32 = n: int | 0 <= n < 0x1_0000_0000

  function Power256(k: nat): (n: nat)
    ensures n >= 1
  {
    if k == 0 then 1 else 256 * Power256(k - 1)
  }

  /** n in k bytes, most significant first, as htons and htonll write it. */
  function BigEndian(n: nat, k: nat): (s: bytes)
    ensures |s| == k
  {
    if k == 0 then [] else BigEndian(n / 256, k - 1) + [n % 256]
  }

  function FromBigEndian(s: bytes): nat {
    if s == [] then 0 else 256 * FromBigEndian(s[..|s| - 1]) + s[|s| - 1]
  }

  lemma {:induction false} BigEndianValue(n: nat, k: nat)
    ensures FromBigEndian(BigEndian(n, k)) == n % Power256(k)
  {
    if k == 0 {
      assert n % 1 == 0;
    } else {
      var s := BigEndian(n, k);
      assert s[..k - 1] == BigEndian(n / 256, k - 1);
      BigEndianValue(n / 256, k - 1);
      ModuloDigits(n, Power256(k - 1));
    }
  }

  lemma ModuloDigits(n: nat, m: nat)
    requires m >= 1
    ensures n % (256 * m) == 256 * (n / 256 % m) + n % 256
  {
    var q, r := n / 256 / m, n / 256 % m;
    assert n / 256 == m * q + r;
    assert n == 256 * (m * q + r) + n % 256;
    assert 256 * (m * q + r) == (256 * m) * q + 256 * r by { Distribute(m, q, r); }
    UniqueRemainder(n, 256 * m, q, 256 * r + n % 256);
  }

  lemma Distribute(m: nat, q: nat, r: nat)
    ensures 256 * (m * q + r) == (256 * m) * q + 256 * r
  {
  }

  lemma UniqueRemainder(n: nat, d: nat, q: nat, r: nat)
    requires d >= 1 && n == d * q + r && r < d
    ensures n % d == r
  {
    var q', r' := n / d, n % d;
    assert n == d * q' + r';
    assert d * (q - q') == r' - r;
    if q - q' >= 1 {
      AtLeast(d, q - q');
      assert false;
    } else if q' - q >= 1 {
      AtLeast(d, q' - q);
      assert false;
    }
  }

  lemma AtLeast(d: nat, k: nat)
    requires k >= 1
    ensures d * k >= d
  {
  }

  /** n in k bytes, least significant first. */
  function LittleEndian(n: nat, k: nat): (s: bytes)
    ensures |s| == k
  {
    if k == 0 then [] else [n % 256] + LittleEndian(n / 256, k - 1)
  }

  /** The number whose bytes these are, the least significant first. */
  function FromLittleEndian(s: bytes): nat { if s == [] then 0 else s[0] + 256 * FromLittleEndian(s[1..]) }

  lemma {:induction false} LittleEndianValue(n: nat, k: nat)
    ensures FromLittleEndian(LittleEndian(n, k)) == n % Power256(k)
  {
    if k == 0 {
      assert n % 1 == 0;
    } else {
      LittleEndianValue(n / 256, k - 1);
      assert LittleEndian(n, k)[1..] == LittleEndian(n / 256, k - 1);
      ModuloDigits(n, Power256(k - 1));
    }
  }

  // ----- lengths in two and eight bytes -----

  lemma BigMore(a: bytes, b: byte)
    ensures FromBigEndian(a + [b]) == 256 * FromBigEndian(a) + b
  {
    assert (a + [b])[..|a|] == a;
  }

  lemma BigTwo(hi: byte, lo: byte)
    ensures FromBigEndian([hi, lo]) == hi * 256 + lo
  {
    BigMore([], hi);
    BigMore([hi], lo);
    assert [] + [hi] == [hi] && [hi] + [lo] == [hi, lo];
  }

  lemma BigFour(a: byte, b: byte, c: byte, d: byte)
    ensures FromBigEndian([a, b, c, d]) == a * 0x100_0000 + b * 0x1_0000 + c * 0x100 + d
  {
    hide FromBigEndian;
    BigTwo(a, b);
    BigMore([a, b], c);
    BigMore([a, b, c], d);
    assert [a, b] + [c] == [a, b, c] && [a, b, c] + [d] == [a, b, c, d];
  }

  lemma BigEight(s: bytes)
    requires |s| == 8
    ensures FromBigEndian(s) == s[0] as int * 0x100_0000_0000_0000 + s[1] as int * 0x1_0000_0000_0000
                                + s[2] as int * 0x100_0000_0000 + s[3] as int * 0x1_0000_0000
                                + s[4] as int * 0x100_0000 + s[5] as int * 0x1_0000 + s[6] as int * 0x100 + s[7]
  {
    hide FromBigEndian;
    BigFour(s[0], s[1], s[2], s[3]);
    BigMore(s[..4], s[4]);
    BigMore(s[..5], s[5]);
    BigMore(s[..6], s[6]);
    BigMore(s[..7], s[7]);
    assert s[..4] == [s[0], s[1], s[2], s[3]];
    assert s[..4] + [s[4]] == s[..5] && s[..5] + [s[5]] == s[..6] && s[..6] + [s[6]] == s[..7] && s[..7] + [s[7]] == s;
  }

  lemma LittleMore(a: byte, b: bytes)
    ensures FromLittleEndian([a] + b) == a + 256 * FromLittleEndian(b)
  {
    assert ([a] + b)[1..] == b;
  }

  lemma LittleFour(a: byte, b: byte, c: byte, d: byte, x: bytes)
    ensures FromLittleEndian([a, b, c, d] + x)
            == a + b * 0x100 + c * 0x1_0000 + d * 0x100_0000 + 0x1_0000_0000 * FromLittleEndian(x)
  {
    hide FromLittleEndian;
    LittleMore(d, x);
    LittleMore(c, [d] + x);
    LittleMore(b, [c] + ([d] + x));
    LittleMore(a, [b] + ([c] + ([d] + x)));
    assert [a] + ([b] + ([c] + ([d] + x))) == [a, b, c, d] + x;
  }

  lemma LittleEight(s: bytes)
    requires |s| == 8
    ensures FromLittleEndian(s) == s[0] as int + s[1] as int * 0x100 + s[2] as int * 0x1_0000 + s[3] as int * 0x100_0000
                                   + s[4] as int * 0x1_0000_0000 + s[5] as int * 0x100_0000_0000
                                   + s[6] as int * 0x1_0000_0000_0000 + s[7] as int * 0x100_0000_0000_0000
  {
    LittleFour(s[4], s[5], s[6], s[7], []);
    LittleFour(s[0], s[1], s[2], s[3], s[4..]);
    assert [s[4], s[5], s[6], s[7]] + [] == s[4..];
    assert [s[0], s[1], s[2], s[3]] + s[4..] == s;
  }

  lemma PowerEight()
    ensures Power256(8) == 0x1_0000_0000_0000_0000
  {
    assert Power256(4) == 256 * Power256(3) == 65536 * Power256(2);
    assert Power256(8) == 65536 * Power256(6) == 65536 * (65536 * Power256(4));
  }

  lemma CarryOut(lo: nat, m: nat, hi: nat)
    requires m >= 1
    ensures (lo + 256 * m * hi) % 256 == lo % 256 && (lo + 256 * m * hi) / 256 == lo / 256 + m * hi
  {
    var x := m * hi;
    assert 256 * m * hi == 256 * x;
  }

  lemma LittleEndianStep(n: nat, k: nat)
    ensures LittleEndian(n, k + 1) == [n % 256] + LittleEndian(n / 256, k)
  {
  }

  lemma LittleEndianCarry(lo: nat, hi: nat, p: nat, k: nat, m: nat)
    requires p >= 1 && k >= 1
    requires LittleEndian(lo / 256 + p * hi, k - 1 + m) == LittleEndian(lo / 256, k - 1) + LittleEndian(hi, m)
    ensures LittleEndian(lo + 256 * p * hi, k + m) == LittleEndian(lo, k) + LittleEndian(hi, m)
  {
    hide LittleEndian;
    CarryOut(lo, p, hi);
    LittleEndianStep(lo + 256 * p * hi, k - 1 + m);
    LittleEndianStep(lo, k - 1);
  }

  /** The bytes of a double word are those of its halves. */
  lemma {:induction false} LittleEndianJoin(lo: nat, hi: nat, k: nat, m: nat)
    requires lo < Power256(k)
    ensures LittleEndian(lo + Power256(k) * hi, k + m) == LittleEndian(lo, k) + LittleEndian(hi, m)
  {
    if k == 0 {
      assert [] + LittleEndian(hi, m) == LittleEndian(hi, m);
    } else {
      hide LittleEndian;
      LittleEndianJoin(lo / 256, hi, k - 1, m);
      LittleEndianCarry(lo, hi, Power256(k - 1), k, m);
    }
  }

  lemma {:induction false} BigEndianJoin(hi: nat, lo: nat, m: nat, k: nat)
    requires lo < Power256(k)
    ensures BigEndian(lo + Power256(k) * hi, m + k) == BigEndian(hi, m) + BigEndian(lo, k)
  {
    if k == 0 {
      assert BigEndian(hi, m) + [] == BigEndian(hi, m);
    } else {
      CarryOut(lo, Power256(k - 1), hi);
      BigEndianJoin(hi, lo / 256, m, k - 1);
      var n := lo + Power256(k) * hi;
      assert n % 256 == lo % 256 && n / 256 == lo / 256 + Power256(k - 1) * hi;
      assert BigEndian(n, m + k) == BigEndian(n / 256, m + (k - 1)) + [n % 256];
    }
  }
}
