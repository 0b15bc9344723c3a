/**
 Every JSON text of section 2 of RFC 8259, not only those the printer of src/jansson/src/dump.c writes:
 blanks anywhere between tokens, any spelling of a string.  The parser of src/jansson/src/load.c reads it
 as the value it stands for.
 */
module JsonText {
  import opened Bytes
  import opened Utf8
  import opened JsonString
  import opened JsonLex

  // ----- the spellings of a character -----

  /** Which of the four digits of an escape are in lower case. */
  datatype Cases = Cases(a: bool, b: bool, c: bool, d: bool)

  /** A character as it is, by a letter behind a backslash, by its number, or by two surrogates. */
  datatype Way = AsIs | ByLetter | ByNumber(n: Cases) | ByPair(hi: Cases, lo: Cases)

  function Four(v: nat, k: Cases): (s: bytes)
    requires v < 0x10000
    ensures |s| == 4
  {
    [HexIn(v / 4096, k.a), HexIn(v / 256 % 16, k.b), HexIn(v / 16 % 16, k.c), HexIn(v % 16, k.d)]
  }

  /** The characters that have an escape of one letter. */
  const LETTERS: map<int, char> :=
    map[34 := '"', 92 := '\\', 47 := '/', 8 := 'b', 12 := 'f', 10 := 'n', 13 := 'r', 9 := 't']

  /** A character can be written this way. */
  predicate Can(cp: int, w: Way) {
    && 0 <= cp <= 0x10FFFF && !(0xD800 <= cp <= 0xDFFF)
    && match w
       case AsIs => cp >= 32 && cp != '"' as int && cp != '\\' as int
       case ByLetter => cp in LETTERS
       case ByNumber(_) => cp < 0x10000
       case ByPair(_, _) => cp >= 0x10000
  }

  function Spelled(cp: int, w: Way): bytes
    requires Can(cp, w)
  {
    match w
    case AsIs => Encoded(cp)
    case ByLetter => ['\\' as int, LETTERS[cp] as int]
    case ByNumber(n) => ['\\' as int, 'u' as int] + Four(cp, n)
    case ByPair(hi, lo) =>
      var v := cp - 0x10000;
      (['\\' as int, 'u' as int] + Four(0xD800 + v / 1024, hi))
      + (['\\' as int, 'u' as int] + Four(0xDC00 + v % 1024, lo))
  }

  lemma FourValue(v: nat, k: Cases, pre: bytes, post: bytes)
    requires v < 0x10000
    ensures FourHex(pre + Four(v, k) + post, |pre|) && UnicodeEscape(pre + Four(v, k) + post, |pre|) == v
  {
    var s, h := pre + Four(v, k) + post, Four(v, k);
    HexLaw(h[0], v / 4096);
    HexLaw(h[1], v / 256 % 16);
    HexLaw(h[2], v / 16 % 16);
    HexLaw(h[3], v % 16);
    assert s[|pre|] == h[0] && s[|pre| + 1] == h[1] && s[|pre| + 2] == h[2] && s[|pre| + 3] == h[3];
    FourHexDigits(v);
  }

  // ----- the decoding pass -----

  lemma NumberYields(cp: int, k: Cases, p: bytes, t: bytes)
    requires Can(cp, ByNumber(k)) && Yields(p, t)
    ensures Yields(Spelled(cp, ByNumber(k)) + p, Encoded(cp) + t)
  {
    hide Four, Encoded, UnicodeEscape;
    var q := [BACKSLASH, LETTER_U] + Four(cp, k) + p;
    FourValue(cp, k, [BACKSLASH, LETTER_U], p);
    assert q[6..] == p && q[0] == BACKSLASH && q[1] == LETTER_U;
    assert UnicodeAt(q) == Some((cp, 6));
  }

  lemma PairSpelled(cp: int, hi: Cases, lo: Cases, p: bytes, t: bytes)
    requires Can(cp, ByPair(hi, lo)) && Yields(p, t)
    ensures Yields(Spelled(cp, ByPair(hi, lo)) + p, Encoded(cp) + t)
  {
    hide Unescape, Encoded, Four, UnicodeEscape, HexValue;
    var u := cp - 0x10000;
    var v, w := 0xD800 + u / 1024, 0xDC00 + u % 1024;
    var pre := [BACKSLASH, LETTER_U];
    var q := Spelled(cp, ByPair(hi, lo)) + p;
    assert q == pre + Four(v, hi) + (pre + Four(w, lo) + p);
    FourValue(v, hi, pre, pre + Four(w, lo) + p);
    assert q == (pre + Four(v, hi) + pre) + Four(w, lo) + p;
    FourValue(w, lo, pre + Four(v, hi) + pre, p);
    assert q[12..] == p && q[0] == BACKSLASH && q[1] == LETTER_U && q[6] == BACKSLASH && q[7] == LETTER_U;
    assert UnicodeAt(q) == Some((cp, 12));
    assert q[6..][6..] == p;
    assert q[6..] == pre + Four(w, lo) + p;
    FourValue(w, lo, pre, p);
    assert Scanned(q[6..]);
    assert Scanned(q);
    TurnAt(q);
  }

  lemma LetterYields(cp: int, p: bytes, t: bytes)
    requires Can(cp, ByLetter) && Yields(p, t)
    ensures Yields(Spelled(cp, ByLetter) + p, Encoded(cp) + t)
  {
    var q := Spelled(cp, ByLetter) + p;
    assert q[2..] == p && q[0] == BACKSLASH && q[1] == LETTERS[cp] as int;
    LetterStands(cp);
  }

  lemma LetterStands(cp: int)
    requires cp in LETTERS
    ensures Unshort(LETTERS[cp] as int) == Some(cp) && LETTERS[cp] as int != LETTER_U && 0 <= cp < 0x80
  {
  }

  lemma SpelledYields(cp: int, w: Way, p: bytes, t: bytes)
    requires Can(cp, w) && Yields(p, t)
    ensures Yields(Spelled(cp, w) + p, Encoded(cp) + t)
  {
    hide Yields, Spelled;
    match w
    case AsIs => PlainYields(cp, p, t);
    case ByLetter => LetterYields(cp, p, t);
    case ByNumber(k) => NumberYields(cp, k, p, t);
    case ByPair(hi, lo) => PairSpelled(cp, hi, lo, p, t);
  }

  lemma PlainYields(cp: int, p: bytes, t: bytes)
    requires Can(cp, AsIs) && Yields(p, t)
    ensures Yields(Spelled(cp, AsIs) + p, Encoded(cp) + t)
  {
    hide Yields;
    EncodedFirst(cp);
    CopiedText(Encoded(cp), p, t);
  }

  // ----- the scanning pass -----

  lemma FourDigits(v: nat, k: Cases, y: bytes)
    requires v < 0x10000
    ensures StringChars(Start([BACKSLASH, LETTER_U] + Four(v, k) + y)) ==
            Prepend([BACKSLASH, LETTER_U] + Four(v, k), StringChars(Start(y)))
  {
    hide Four, StringChars;
    var h := Four(v, k);
    FourIsHex(v, k);
    UnicodeStarts(h, y);
  }

  lemma FourIsHex(v: nat, k: Cases)
    requires v < 0x10000
    ensures forall i :: 0 <= i < 4 ==> IsHex(Four(v, k)[i])
  {
    var h := Four(v, k);
    HexLaw(h[0], v / 4096);
    HexLaw(h[1], v / 256 % 16);
    HexLaw(h[2], v / 16 % 16);
    HexLaw(h[3], v % 16);
  }

  lemma UnicodeStarts(h: bytes, y: bytes)
    requires |h| == 4 && forall i :: 0 <= i < 4 ==> IsHex(h[i])
    ensures StringChars(Start([BACKSLASH, LETTER_U] + h + y)) ==
            Prepend([BACKSLASH, LETTER_U] + h, StringChars(Start(y)))
  {
    assert [BACKSLASH, LETTER_U] + h + y == [BACKSLASH] + ([LETTER_U] + (h + y));
    GetAscii(BACKSLASH, [LETTER_U] + (h + y));
    GetAscii(LETTER_U, h + y);
    HexDigits(h, y, [BACKSLASH, LETTER_U]);
  }

  lemma SpelledChars(cp: int, w: Way, y: bytes)
    requires Can(cp, w)
    ensures StringChars(Start(Spelled(cp, w) + y)) == Prepend(Spelled(cp, w), StringChars(Start(y)))
  {
    hide Four, Encoded, StringChars;
    match w
    case AsIs => CharsPlain(cp, y);
    case ByLetter => LetterStands(cp); CharsShort(LETTERS[cp] as int, y);
    case ByNumber(k) => FourDigits(cp, k, y);
    case ByPair(hi, lo) =>
      var v := cp - 0x10000;
      var p := [BACKSLASH, LETTER_U] + Four(0xD800 + v / 1024, hi);
      var q := [BACKSLASH, LETTER_U] + Four(0xDC00 + v % 1024, lo);
      FourDigits(0xDC00 + v % 1024, lo, y);
      FourDigits(0xD800 + v / 1024, hi, q + y);
      Reassociate(p, q, y);
      PrependTwice(p, q, StringChars(Start(y)));
  }

  // ----- strings -----

  /** A string: its characters and the way each is written. */
  datatype Spelling = Spelling(cps: seq<int>, ways: seq<Way>)

  predicate Spells(s: Spelling) {
    |s.ways| == |s.cps| && forall i :: 0 <= i < |s.cps| ==> Can(s.cps[i], s.ways[i])
  }

  /** The text between the quotes. */
  function Inner(s: Spelling): bytes
    requires Spells(s)
    decreases |s.cps|
  {
    if s.cps == [] then [] else Spelled(s.cps[0], s.ways[0]) + Inner(Rest(s))
  }

  function Rest(s: Spelling): (r: Spelling)
    requires Spells(s) && s.cps != []
    ensures Spells(r) && |r.cps| == |s.cps| - 1
  {
    Spelling(s.cps[1..], s.ways[1..])
  }

  /** The string in UTF-8. */
  function Meant(s: Spelling): bytes
    requires Spells(s)
  {
    assert forall i :: 0 <= i < |s.cps| ==> Can(s.cps[i], s.ways[i]) ==> IsScalar(s.cps[i]);
    EncodeAll(s.cps)
  }

  lemma InnerFirst(s: Spelling)
    requires Spells(s) && s.cps != []
    ensures Inner(s) == Spelled(s.cps[0], s.ways[0]) + Inner(Rest(s))
    ensures Can(s.cps[0], s.ways[0]) && Meant(s) == Encoded(s.cps[0]) + Meant(Rest(s))
  {
    hide Spelled, Encoded;
  }

  lemma {:induction false} InnerYields(s: Spelling)
    requires Spells(s)
    ensures Yields(Inner(s) + [QUOTE], Meant(s))
    decreases |s.cps|
  {
    if s.cps == [] {
      assert Inner(s) + [QUOTE] == [QUOTE];
      NothingYields();
    } else {
      hide Spelled, Encoded, Yields, Inner, Meant, Can;
      InnerFirst(s);
      InnerYields(Rest(s));
      SpelledYields(s.cps[0], s.ways[0], Inner(Rest(s)) + [QUOTE], Meant(Rest(s)));
      Reassociate(Spelled(s.cps[0], s.ways[0]), Inner(Rest(s)), [QUOTE]);
    }
  }

  lemma {:induction false} InnerChars(s: Spelling, x: bytes)
    requires Spells(s)
    ensures StringChars(Start(Inner(s) + ([QUOTE] + x))) == Some((Inner(s) + [QUOTE], Start(x)))
    decreases |s.cps|
  {
    if s.cps == [] {
      GetAscii(QUOTE, x);
      assert Inner(s) + ([QUOTE] + x) == [QUOTE] + x;
      assert Inner(s) + [QUOTE] == [QUOTE];
    } else {
      hide Spelled, Inner, StringChars, Can;
      InnerFirst(s);
      InnerChars(Rest(s), x);
      var c, rest := Spelled(s.cps[0], s.ways[0]), Inner(Rest(s));
      SpelledChars(s.cps[0], s.ways[0], rest + ([QUOTE] + x));
      Reassociate(c, rest, [QUOTE] + x);
      Reassociate(c, rest, [QUOTE]);
    }
  }

  /** However a string is spelled, it scans as that string. */
  lemma ScanSpelled(s: Spelling, x: bytes)
    requires Spells(s)
    ensures Scan(Start(['"' as int] + Inner(s) + ['"' as int] + x)) == (StringToken(Meant(s)), Start(x))
  {
    hide StringChars, Unescape, While, Get, Scanned, Inner, Meant;
    InnerYields(s);
    InnerChars(s, x);
    assert [QUOTE] + Inner(s) + [QUOTE] + x == [QUOTE] + (Inner(s) + ([QUOTE] + x));
    FirstChar(QUOTE, Inner(s) + ([QUOTE] + x));
  }
}
