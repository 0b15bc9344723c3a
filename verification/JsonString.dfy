/**
 JSON string literals (section 7 of RFC 8259): the escaping printer dump_string of
 src/jansson/src/dump.c and the decoding pass of lex_scan_string of src/jansson/src/load.c.
 */
module JsonString {
  import opened Bytes
  import opened Utf8

  const QUOTE: byte := 34
  const SLASH: byte := 47
  const BACKSLASH: byte := 92
  const LETTER_U: byte := 117

  datatype Flags = Flags(ensureAscii: bool, escapeSlash: bool)

  // ----- printing -----

  /** The characters that are not copied as they are. */
  predicate Escaped(cp: int, f: Flags) {
    cp == BACKSLASH || cp == QUOTE || cp < 0x20 || (f.escapeSlash && cp == SLASH) || (f.ensureAscii && cp > 0x7F)
  }

  /** %04X */
  function Hex4(v: nat): (s: bytes)
    requires v < 0x10000
    ensures |s| == 4
  {
    [HexDigit(v / 4096), HexDigit(v / 256 % 16), HexDigit(v / 16 % 16), HexDigit(v % 16)]
  }

  /** The letter of a two-character escape. */
  function Short(cp: int): Option<byte> {
    if cp == BACKSLASH || cp == QUOTE || cp == SLASH then Some(cp)
    else if cp == 8 then Some(98)
    else if cp == 12 then Some(102)
    else if cp == 10 then Some(110)
    else if cp == 13 then Some(114)
    else if cp == 9 then Some(116)
    else None
  }

  function EscapeText(cp: int): bytes
    requires IsScalar(cp)
  {
    match Short(cp)
    case Some(c) => [BACKSLASH, c]
    case None =>
      if cp < 0x10000 then [BACKSLASH, LETTER_U] + Hex4(cp)
      else
        var v := cp - 0x10000;
        [BACKSLASH, LETTER_U] + Hex4(0xD800 + v / 1024) + [BACKSLASH, LETTER_U] + Hex4(0xDC00 + v % 1024)
  }

  function CharText(cp: int, f: Flags): bytes
    requires IsScalar(cp)
  {
    if Escaped(cp, f) then EscapeText(cp) else Encoded(cp)
  }

  predicate AllScalar(cps: seq<int>) { forall i :: 0 <= i < |cps| ==> IsScalar(cps[i]) }

  function BodyText(cps: seq<int>, f: Flags): bytes
    requires AllScalar(cps)
  {
    if cps == [] then [] else CharText(cps[0], f) + BodyText(cps[1..], f)
  }

  /** The literal of a string; None when it is not UTF-8. */
  function Literal(s: bytes, f: Flags): Option<bytes> {
    match Decode(s)
    case None => None
    case Some(cps) => Some([QUOTE] + BodyText(cps, f) + [QUOTE])
  }

  /**
   What dump_string writes of s, whose plain characters just before it, `held`, are not yet copied: they
   are with the next escape or at the end, and lost at a byte that is not UTF-8.
   */
  function Rest(s: bytes, f: Flags, held: bytes): bytes {
    if s == [] then held + [QUOTE]
    else match Iterate(s)
      case None => []
      case Some((cp, n)) =>
        if Escaped(cp, f) then held + EscapeText(cp) + Rest(s[n..], f, []) else Rest(s[n..], f, held + s[..n])
  }

  /** All that dump_string writes, also when it fails. */
  function Written(s: bytes, f: Flags): bytes { [QUOTE] + Rest(s, f, []) }

  lemma {:induction false} RestText(s: bytes, f: Flags, held: bytes)
    requires Decode(s).Some?
    ensures AllScalar(Decode(s).value) && Rest(s, f, held) == held + BodyText(Decode(s).value, f) + [QUOTE]
  {
    hide EscapeText, Encoded, Iterate, Escaped, CharText, BodyText, Rest;
    if s == [] {
      BodyNothing(f, held);
    } else {
      BodyNext(s, f);
      RestStep(s, f, 0, held);
      assert s[0..] == s;
      var (cp, n) := Iterate(s).value;
      var rest := BodyText(Decode(s[n..]).value, f);
      if Escaped(cp, f) {
        EscapedText(cp, f);
        RestText(s[n..], f, []);
        Regroup(held, EscapeText(cp), rest, [QUOTE]);
      } else {
        PlainText(cp, f);
        RestText(s[n..], f, held + s[..n]);
        Regroup(held, s[..n], rest, [QUOTE]);
      }
    }
  }

  lemma Regroup(a: bytes, b: bytes, c: bytes, d: bytes)
    ensures a + b + ([] + c + d) == a + (b + c) + d && a + b + c + d == a + (b + c) + d
  {
  }

  lemma BodyNothing(f: Flags, held: bytes)
    ensures Decode([]) == Some([]) && BodyText([], f) == [] && Rest([], f, held) == held + [QUOTE]
    ensures held + [] + [QUOTE] == held + [QUOTE]
  {
  }

  /** The text of a string begins with that of its first character. */
  lemma BodyNext(s: bytes, f: Flags)
    requires s != [] && Decode(s).Some?
    ensures Iterate(s).Some? && AllScalar(Decode(s).value)
    ensures var (cp, n) := Iterate(s).value;
            && IsScalar(cp) && s[..n] == Encoded(cp) && Decode(s[n..]).Some? && AllScalar(Decode(s[n..]).value)
            && BodyText(Decode(s).value, f) == CharText(cp, f) + BodyText(Decode(s[n..]).value, f)
  {
    hide CharText, Encoded;
    EncodedIterate(s);
    var (cp, n) := Iterate(s).value;
    var cps := Decode(s[n..]).value;
    assert ([cp] + cps)[1..] == cps;
  }

  /** A string that is UTF-8 is written as its literal. */
  lemma WrittenLiteral(s: bytes, f: Flags)
    requires Decode(s).Some?
    ensures Literal(s, f) == Some(Written(s, f))
  {
    RestText(s, f, []);
    var body := BodyText(Decode(s).value, f);
    assert [QUOTE] + ([] + body + [QUOTE]) == [QUOTE] + body + [QUOTE];
  }

  lemma RestStep(s: bytes, f: Flags, pos: nat, held: bytes)
    requires pos < |s|
    ensures Iterate(s[pos..]) == None ==> Rest(s[pos..], f, held) == [] && Decode(s[pos..]) == None
    ensures Iterate(s[pos..]).Some? ==>
              var (cp, n) := Iterate(s[pos..]).value;
              && pos + n <= |s| && IsScalar(cp) && (Decode(s[pos..]).Some? <==> Decode(s[pos + n..]).Some?)
              && Rest(s[pos..], f, held) == (if Escaped(cp, f) then held + EscapeText(cp) + Rest(s[pos + n..], f, [])
                                             else Rest(s[pos + n..], f, held + s[pos..pos + n]))
  {
    hide EscapeText, Encoded, Iterate, Escaped;
    var t := s[pos..];
    if Iterate(t).Some? {
      EncodedIterate(t);
      var (cp, n) := Iterate(t).value;
      assert t[n..] == s[pos + n..] && t[..n] == s[pos..pos + n];
    }
  }

  /** dump_string: runs of plain characters are copied whole, the others are escaped one by one. */
  method DumpString(s: bytes, f: Flags) returns (ok: bool, out: bytes)
    ensures ok <==> Decode(s).Some?
    ensures out == Written(s, f)
  {
    hide Rest, EscapeText, Iterate, Decode, Escaped;
    out := [QUOTE];
    var str, pos, end, lim := 0, 0, 0, |s|;
    var codepoint := 0;
    assert s[0..] == s;
    while true
      invariant 0 <= str == pos == end <= lim
      invariant out + Rest(s[pos..], f, []) == Written(s, f) && (Decode(s).Some? <==> Decode(s[pos..]).Some?)
      decreases lim - pos
    {
      assert s[str..pos] == [];
      while end < lim
        invariant str <= pos == end <= lim
        invariant out + Rest(s[pos..], f, s[str..pos]) == Written(s, f) && (Decode(s).Some? <==> Decode(s[pos..]).Some?)
        decreases lim - end
      {
        RestStep(s, f, pos, s[str..pos]);
        var it := Iterate(s[pos..]);
        if it == None {
          assert out + [] == out;
          return false, out;
        }
        codepoint, end := it.value.0, pos + it.value.1;
        if Escaped(codepoint, f) { break; }
        assert s[str..pos] + s[pos..end] == s[str..end];
        pos := end;
      }
      if end == pos { RestEnd(s, f, s[str..pos]); }
      ghost var before := out;
      if pos != str { out := out + s[str..pos]; } else { assert out + s[str..pos] == out; }
      if end == pos { break; }
      Outward(before, s[str..pos], EscapeText(codepoint), Rest(s[end..], f, []));
      out := out + EscapeText(codepoint);
      str, pos := end, end;
    }
    assert out + [QUOTE] == Written(s, f);
    return true, out + [QUOTE];
  }

  lemma Outward(a: bytes, b: bytes, c: bytes, d: bytes)
    ensures a + (b + c + d) == a + b + c + d
  {
  }

  lemma RestEnd(s: bytes, f: Flags, held: bytes)
    ensures s[|s|..] == [] && Rest([], f, held) == held + [QUOTE] && Decode([]).Some?
  {
  }

  lemma PlainText(cp: int, f: Flags)
    requires IsScalar(cp) && !Escaped(cp, f)
    ensures CharText(cp, f) == Encoded(cp)
  {
  }

  lemma EscapedText(cp: int, f: Flags)
    requires IsScalar(cp) && Escaped(cp, f)
    ensures CharText(cp, f) == EscapeText(cp)
  {
  }

  /** What is copied, and what is written behind a backslash. */
  lemma CharForms(cp: int, f: Flags)
    requires IsScalar(cp)
    ensures (cp >= 32 && cp != '"' as int && cp != '\\' as int && (cp == '/' as int ==> !f.escapeSlash)
             && (cp > 127 ==> !f.ensureAscii)) ==> CharText(cp, f) == Encoded(cp)
    ensures cp == '"' as int || cp == '\\' as int || (cp == '/' as int && f.escapeSlash) ==>
              CharText(cp, f) == ['\\' as int, cp]
    ensures cp in LETTER ==> CharText(cp, f) == ['\\' as int, LETTER[cp] as int]
    ensures 0 <= cp < 32 && cp !in LETTER ==> CharText(cp, f) == ['\\' as int, 'u' as int] + Hex4(cp)
    ensures 127 < cp < 0x10000 && f.ensureAscii ==> CharText(cp, f) == ['\\' as int, 'u' as int] + Hex4(cp)
  {
    hide Hex4, Encoded;
  }

  /** The control characters that have a letter. */
  const LETTER: map<int, char> := map[8 := 'b', 12 := 'f', 10 := 'n', 13 := 'r', 9 := 't']

  /** With JSON_ENSURE_ASCII nothing but printable ASCII is written. */
  lemma {:induction false} AsciiOnly(cps: seq<int>, f: Flags)
    requires AllScalar(cps) && f.ensureAscii
    ensures forall i :: 0 <= i < |BodyText(cps, f)| ==> 32 <= BodyText(cps, f)[i] <= 127
  {
    if cps != [] {
      hide CharText;
      AsciiOnly(cps[1..], f);
      AsciiChar(cps[0], f);
    }
  }

  lemma AsciiChar(cp: int, f: Flags)
    requires IsScalar(cp) && f.ensureAscii
    ensures forall i :: 0 <= i < |CharText(cp, f)| ==> 32 <= CharText(cp, f)[i] <= 127
  {
    if Escaped(cp, f) && Short(cp) == None {
      hide Hex4;
      if cp < 0x10000 {
        HexAscii(cp);
      } else {
        HexAscii(0xD800 + (cp - 0x10000) / 1024);
        HexAscii(0xDC00 + (cp - 0x10000) % 1024);
      }
    }
  }

  lemma HexAscii(v: nat)
    requires v < 0x10000
    ensures forall i :: 0 <= i < 4 ==> 48 <= Hex4(v)[i] <= 70
  {
  }

  // ----- decoding -----

  predicate FourHex(p: bytes, i: nat) {
    i + 4 <= |p| && IsHex(p[i]) && IsHex(p[i + 1]) && IsHex(p[i + 2]) && IsHex(p[i + 3])
  }

  /** decode_unicode_escape on four digits. */
  function UnicodeEscape(p: bytes, i: nat): (v: nat)
    requires FourHex(p, i)
    ensures v < 0x10000
  {
    ((HexValue(p[i]) * 16 + HexValue(p[i + 1])) * 16 + HexValue(p[i + 2])) * 16 + HexValue(p[i + 3])
  }

  /** The letters allowed after a backslash, and what they stand for. */
  function Unshort(c: byte): Option<byte> {
    if c == QUOTE || c == BACKSLASH || c == SLASH then Some(c)
    else if c == 98 then Some(8)
    else if c == 102 then Some(12)
    else if c == 110 then Some(10)
    else if c == 114 then Some(13)
    else if c == 116 then Some(9)
    else None
  }

  /** Text accepted by the scanning pass, from after the opening quote up to the closing one. */
  predicate Scanned(p: bytes) {
    if p == [] then false
    else if p[0] == QUOTE then |p| == 1
    else if p[0] == BACKSLASH then
      |p| >= 2 &&
      if p[1] == LETTER_U then FourHex(p, 2) && Scanned(p[6..]) else Unshort(p[1]).Some? && Scanned(p[2..])
    else p[0] >= 0x20 && Scanned(p[1..])
  }

  /** The code point of an escape \uXXXX at the start of p, and how long it is; None when surrogates do not pair. */
  function UnicodeAt(p: bytes): (r: Option<(int, nat)>)
    requires FourHex(p, 2)
    ensures r.Some? ==> IsScalar(r.value.0)
    ensures r.Some? ==>
              (r.value.1 == 6 || (r.value.1 == 12 && FourHex(p, 8) && p[6] == BACKSLASH && p[7] == LETTER_U))
  {
    var v := UnicodeEscape(p, 2);
    if 0xD800 <= v <= 0xDBFF then
      if |p| >= 12 && p[6] == BACKSLASH && p[7] == LETTER_U && FourHex(p, 8) then
        var w := UnicodeEscape(p, 8);
        if 0xDC00 <= w <= 0xDFFF then Some(((v - 0xD800) * 1024 + (w - 0xDC00) + 0x10000, 12)) else None
      else None
    else if 0xDC00 <= v <= 0xDFFF then None
    else Some((v, 6))
  }

  /** The second pass of lex_scan_string. */
  function Unescape(p: bytes): (r: Option<bytes>)
    requires Scanned(p)
    ensures r.Some? ==> |r.value| < |p|
    decreases |p|
  {
    if p[0] == QUOTE then Some([])
    else if p[0] == BACKSLASH && p[1] == LETTER_U then
      match UnicodeAt(p)
      case None => None
      case Some((cp, n)) =>
        ScannedSkip(p, n);
        match Unescape(p[n..])
        case None => None
        case Some(t) => Some(Encoded(cp) + t)
    else if p[0] == BACKSLASH then
      match Unescape(p[2..])
      case None => None
      case Some(t) => Some([Unshort(p[1]).value] + t)
    else
      match Unescape(p[1..])
      case None => None
      case Some(t) => Some([p[0]] + t)
  }

  lemma ScannedSkip(p: bytes, n: nat)
    requires Scanned(p) && p[0] == BACKSLASH && p[1] == LETTER_U
    requires n == 6 || (n == 12 && FourHex(p, 8) && p[6] == BACKSLASH && p[7] == LETTER_U)
    ensures n < |p| && Scanned(p[n..])
  {
    if n == 12 {
      assert p[6..][0] == BACKSLASH && p[6..][1] == LETTER_U;
      assert p[6..][6..] == p[12..];
    }
  }

  /** The loop of decode_unicode_escape. */
  method DecodeUnicodeEscape(p: bytes, i: nat) returns (value: nat)
    requires FourHex(p, i)
    ensures value == UnicodeEscape(p, i)
  {
    value := 0;
    for k := 0 to 4
      invariant value == if k == 0 then 0
                         else if k == 1 then HexValue(p[i])
                         else if k == 2 then HexValue(p[i]) * 16 + HexValue(p[i + 1])
                         else if k == 3 then (HexValue(p[i]) * 16 + HexValue(p[i + 1])) * 16 + HexValue(p[i + 2])
                         else UnicodeEscape(p, i)
    {
      var c := p[i + k];
      value := value * 16;
      if 48 <= c <= 57 {
        value := value + (c - 48);
      } else if 97 <= c <= 122 {
        value := value + (c - 97 + 10);
      } else {
        value := value + (c - 65 + 10);
      }
    }
  }

  /** The text still to be decoded agrees with the whole, given what has been written. */
  ghost predicate Decodes(body: bytes, i: nat, done: bytes) {
    && i <= |body| && Scanned(body) && Scanned(body[i..])
    && |done| <= i
    && (Unescape(body).Some? <==> Unescape(body[i..]).Some?)
    && (Unescape(body).Some? ==> Unescape(body).value == done + Unescape(body[i..]).value)
  }

  lemma DecodesStep(body: bytes, i: nat, done: bytes, piece: bytes, n: nat)
    requires Decodes(body, i, done) && 1 <= n && i + n <= |body| && |piece| <= n && Scanned(body[i + n..])
    requires Unescape(body[i..]).Some? <==> Unescape(body[i + n..]).Some?
    requires Unescape(body[i..]).Some? ==> Unescape(body[i..]).value == piece + Unescape(body[i + n..]).value
    ensures Decodes(body, i + n, done + piece)
  {
    if Unescape(body).Some? {
      assert done + (piece + Unescape(body[i + n..]).value) == done + piece + Unescape(body[i + n..]).value;
    }
  }

  /** One turn of the loop in terms of the text at position i. */
  lemma TurnAt(p: bytes)
    requires Scanned(p) && p[0] != QUOTE
    ensures p[0] != BACKSLASH ==>
              Scanned(p[1..]) && (Unescape(p).Some? <==> Unescape(p[1..]).Some?)
              && (Unescape(p).Some? ==> Unescape(p).value == [p[0]] + Unescape(p[1..]).value)
    ensures p[0] == BACKSLASH && p[1] != LETTER_U ==>
              Unshort(p[1]).Some? && Scanned(p[2..]) && (Unescape(p).Some? <==> Unescape(p[2..]).Some?)
              && (Unescape(p).Some? ==> Unescape(p).value == [Unshort(p[1]).value] + Unescape(p[2..]).value)
    ensures p[0] == BACKSLASH && p[1] == LETTER_U ==> FourHex(p, 2)
    ensures p[0] == BACKSLASH && p[1] == LETTER_U && UnicodeAt(p) == None ==> Unescape(p) == None
    ensures p[0] == BACKSLASH && p[1] == LETTER_U && UnicodeAt(p).Some? ==>
              var (cp, n) := UnicodeAt(p).value;
              n < |p| && Scanned(p[n..]) && (Unescape(p).Some? <==> Unescape(p[n..]).Some?)
              && (Unescape(p).Some? ==> Unescape(p).value == Encoded(cp) + Unescape(p[n..]).value)
  {
    if p[0] == BACKSLASH && p[1] == LETTER_U && UnicodeAt(p).Some? { ScannedSkip(p, UnicodeAt(p).value.1); }
  }

  /** Store bytes at position t; there is room for them and for the terminator. */
  method Emit(buf: array<byte>, t: nat, piece: bytes) returns (t': nat)
    requires t + |piece| < buf.Length
    modifies buf
    ensures t' == t + |piece| && buf[..t'] == old(buf[..t]) + piece
  {
    forall i | 0 <= i < |piece| { buf[t + i] := piece[i]; }
    t' := t + |piece|;
  }

  /** The code point of the escape at p[i..], advancing over a surrogate pair. */
  method ReadUnicode(body: bytes, i: nat) returns (r: Option<(int, nat)>)
    requires i <= |body| && FourHex(body[i..], 2)
    ensures r == UnicodeAt(body[i..])
  {
    var p := body[i..];
    var value := DecodeUnicodeEscape(p, 2);
    if 0xD800 <= value <= 0xDBFF {
      if |p| >= 12 && p[6] == BACKSLASH && p[7] == LETTER_U && FourHex(p, 8) {
        var value2 := DecodeUnicodeEscape(p, 8);
        if 0xDC00 <= value2 <= 0xDFFF {
          return Some(((value - 0xD800) * 1024 + (value2 - 0xDC00) + 0x10000, 12));
        }
      }
      return None;
    } else if 0xDC00 <= value <= 0xDFFF {
      return None;
    }
    return Some((value, 6));
  }

  /** One character or escape of the second pass. */
  method DecodeOne(body: bytes, i: nat, buf: array<byte>, t: nat) returns (ok: bool, i': nat, t': nat)
    requires i < |body| && body[i] != QUOTE && t <= i && buf.Length == |body| + 1 && Decodes(body, i, buf[..t])
    modifies buf
    ensures !ok ==> Unescape(body) == None
    ensures ok ==> i < i' <= |body| && t' <= i' && Decodes(body, i', buf[..t'])
  {
    hide Unescape, Scanned, UnicodeAt, Encoded, Unshort, FourHex, IsHex;
    var p := body[i..];
    ScannedLong(p);
    TurnAt(p);
    ghost var done := buf[..t];
    if body[i] == BACKSLASH && body[i + 1] == LETTER_U {
      assert p[1] == body[i + 1];
      var u := ReadUnicode(body, i);
      if u == None { return false, i, t; }
      EncodedShort(u.value.0, u.value.1);
      assert p[u.value.1..] == body[i + u.value.1..];
      t' := Emit(buf, t, Encoded(u.value.0));
      DecodesStep(body, i, done, Encoded(u.value.0), u.value.1);
      i' := i + u.value.1;
    } else if body[i] == BACKSLASH {
      assert p[1] == body[i + 1] && p[2..] == body[i + 2..];
      t' := Emit(buf, t, [Unshort(body[i + 1]).value]);
      DecodesStep(body, i, done, [Unshort(body[i + 1]).value], 2);
      i' := i + 2;
    } else {
      assert p[1..] == body[i + 1..];
      t' := Emit(buf, t, [body[i]]);
      DecodesStep(body, i, done, [body[i]], 1);
      i' := i + 1;
    }
    ok := true;
  }

  /** The second pass, into a buffer of the length of the source. */
  method DecodeText(body: bytes) returns (r: Option<bytes>)
    requires Scanned(body)
    ensures r == Unescape(body)
  {
    hide Unescape, Scanned, UnicodeAt, Encoded, Unshort, FourHex, IsHex;
    var buf := new byte[|body| + 1];
    var i, t: nat := 0, 0;
    DecodesStart(body);
    assert buf[..0] == [];
    while body[i] != QUOTE
      invariant i < |body| && t <= i && buf.Length == |body| + 1 && fresh(buf)
      invariant Decodes(body, i, buf[..t])
      decreases |body| - i
    {
      var ok, i', t' := DecodeOne(body, i, buf, t);
      if !ok { return None; }
      i, t := i', t';
      ScannedLong(body[i..]);
    }
    DecodesEnd(body, i, buf[..t]);
    buf[t] := NUL;
    r := Some(buf[..t]);
  }

  lemma DecodesStart(body: bytes)
    requires Scanned(body)
    ensures Decodes(body, 0, []) && |body| >= 1
  {
    assert body[0..] == body;
    if Unescape(body).Some? { assert [] + Unescape(body).value == Unescape(body).value; }
  }

  lemma DecodesEnd(body: bytes, i: nat, done: bytes)
    requires Decodes(body, i, done) && i < |body| && body[i] == QUOTE
    ensures Unescape(body) == Some(done)
  {
    assert body[i..][0] == QUOTE;
    assert Unescape(body[i..]) == Some([]) && done + [] == done;
  }

  lemma ScannedLong(p: bytes)
    requires Scanned(p)
    ensures |p| >= 1 && (p[0] != QUOTE ==> |p| >= 2)
  {
  }

  lemma EncodedShort(cp: int, n: nat)
    requires IsScalar(cp) && n >= 6
    ensures |Encoded(cp)| <= n
  {
  }

  // ----- decoding undoes printing -----

  /** p decodes to t. */
  ghost predicate Yields(p: bytes, t: bytes) { Scanned(p) && Unescape(p) == Some(t) }

  predicate Plain(b: byte) { b >= 0x20 && b != QUOTE && b != BACKSLASH }

  lemma {:induction false} CopiedText(bs: bytes, p: bytes, t: bytes)
    requires Yields(p, t) && forall i :: 0 <= i < |bs| ==> Plain(bs[i])
    ensures Yields(bs + p, bs + t)
  {
    if bs == [] {
      assert bs + p == p && bs + t == t;
    } else {
      CopiedText(bs[1..], p, t);
      var q := bs + p;
      assert q[1..] == bs[1..] + p && q[0] == bs[0];
      assert [bs[0]] + (bs[1..] + t) == bs + t;
    }
  }

  lemma ShortUnshort(cp: int)
    requires Short(cp).Some?
    ensures Unshort(Short(cp).value) == Some(cp) && Short(cp).value != LETTER_U && 0 <= cp < 0x80
  {
  }

  lemma Hex4Value(v: nat, pre: bytes, post: bytes)
    requires v < 0x10000
    ensures FourHex(pre + Hex4(v) + post, |pre|) && UnicodeEscape(pre + Hex4(v) + post, |pre|) == v
  {
    var s := pre + Hex4(v) + post;
    assert s[|pre|] == HexDigit(v / 4096) && s[|pre| + 1] == HexDigit(v / 256 % 16);
    assert s[|pre| + 2] == HexDigit(v / 16 % 16) && s[|pre| + 3] == HexDigit(v % 16);
    FourHexDigits(v);
  }

  lemma FourHexDigits(v: nat)
    ensures ((v / 4096 * 16 + v / 256 % 16) * 16 + v / 16 % 16) * 16 + v % 16 == v
  {
    assert v / 16 / 16 == v / 256 && v / 256 / 16 == v / 4096;
    assert v / 4096 * 16 + v / 256 % 16 == v / 256;
    assert v / 256 * 16 + v / 16 % 16 == v / 16;
  }

  /** Every escape decodes to its character. */
  lemma EscapeYields(cp: int, p: bytes, t: bytes)
    requires IsScalar(cp) && Yields(p, t)
    ensures Yields(EscapeText(cp) + p, Encoded(cp) + t)
  {
    if Short(cp).Some? {
      ShortUnshort(cp);
      var q := EscapeText(cp) + p;
      assert q[2..] == p && q[0] == BACKSLASH && q[1] == Short(cp).value;
    } else if cp < 0x10000 {
      UnicodeYields(cp, p, t);
    } else {
      PairYields(cp, p, t);
    }
  }

  lemma UnicodeYields(cp: int, p: bytes, t: bytes)
    requires IsScalar(cp) && cp < 0x10000 && Yields(p, t)
    ensures Yields([BACKSLASH, LETTER_U] + Hex4(cp) + p, Encoded(cp) + t)
  {
    var q := [BACKSLASH, LETTER_U] + Hex4(cp) + p;
    Hex4Value(cp, [BACKSLASH, LETTER_U], p);
    assert q[6..] == p && q[0] == BACKSLASH && q[1] == LETTER_U;
    assert UnicodeAt(q) == Some((cp, 6));
  }

  lemma PairYields(cp: int, p: bytes, t: bytes)
    requires IsScalar(cp) && cp >= 0x10000 && Short(cp) == None && Yields(p, t)
    ensures Yields(EscapeText(cp) + p, Encoded(cp) + t)
  {
    hide Unescape, Encoded, Hex4, UnicodeEscape, HexValue;
    var v := cp - 0x10000;
    var hi, lo := 0xD800 + v / 1024, 0xDC00 + v % 1024;
    var pre := [BACKSLASH, LETTER_U];
    var q := EscapeText(cp) + p;
    assert q == pre + Hex4(hi) + (pre + Hex4(lo) + p);
    Hex4Value(hi, pre, pre + Hex4(lo) + p);
    assert q == (pre + Hex4(hi) + pre) + Hex4(lo) + p;
    Hex4Value(lo, pre + Hex4(hi) + pre, p);
    assert q[12..] == p && q[0] == BACKSLASH && q[1] == LETTER_U && q[6] == BACKSLASH && q[7] == LETTER_U;
    assert UnicodeAt(q) == Some((cp, 12));
    assert q[6..][6..] == p;
    assert q[6..] == pre + Hex4(lo) + p;
    Hex4Value(lo, pre, p);
    assert Scanned(q[6..]);
    assert Scanned(q);
    TurnAt(q);
  }

  lemma CharYields(cp: int, f: Flags, p: bytes, t: bytes)
    requires IsScalar(cp) && Yields(p, t)
    ensures Yields(CharText(cp, f) + p, Encoded(cp) + t)
  {
    hide Yields, EscapeText;
    if Escaped(cp, f) {
      EscapeYields(cp, p, t);
    } else {
      EncodedFirst(cp);
      CopiedText(Encoded(cp), p, t);
    }
  }

  /** The body of a literal, whatever the flags, decodes to the string it was made from. */
  lemma {:induction false} BodyYields(cps: seq<int>, f: Flags)
    requires AllScalar(cps)
    ensures Yields(BodyText(cps, f) + [QUOTE], EncodeAll(cps))
  {
    hide CharText, Encoded, Yields;
    if cps == [] {
      assert BodyText(cps, f) + [QUOTE] == [QUOTE];
      NothingYields();
    } else {
      BodyYields(cps[1..], f);
      CharYields(cps[0], f, BodyText(cps[1..], f) + [QUOTE], EncodeAll(cps[1..]));
      assert BodyText(cps, f) + [QUOTE] == CharText(cps[0], f) + (BodyText(cps[1..], f) + [QUOTE]);
    }
  }

  lemma NothingYields()
    ensures Yields([QUOTE], [])
  {
  }

  /** lex_scan_string undoes dump_string on every UTF-8 string, for every combination of flags. */
  lemma UnescapeLiteral(s: bytes, f: Flags)
    requires Valid(s)
    ensures Literal(s, f).Some? && |Literal(s, f).value| >= 2
    ensures Yields(Literal(s, f).value[1..], s)
  {
    var cps := Decode(s).value;
    BodyYields(cps, f);
    EncodeAllDecode(s);
    var lit := Literal(s, f).value;
    assert lit[1..] == BodyText(cps, f) + [QUOTE];
  }
}
