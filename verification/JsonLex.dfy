/**
 The tokens of src/jansson/src/load.c: a byte stream that validates UTF-8 as it is read and
 takes back one character, and the scanner over it.
 */
module JsonLex {
  import opened Bytes
  import opened Utf8
  import opened JsonString

  // ----- the stream -----

  datatype Status = StreamOk | StreamEof | StreamError

  /** The unread bytes; the first `cached` of them belong to a sequence already validated. */
  datatype Stream = Stream(rest: bytes, cached: nat, status: Status)

  datatype Char = Ch(b: byte) | EndOfInput | BadInput

  predicate WellFormed(s: Stream) { s.cached <= |s.rest| && (s.status != StreamOk ==> s.rest == []) }

  /** stream_get. */
  function Get(s: Stream): (r: (Char, Stream))
    requires WellFormed(s)
    ensures WellFormed(r.1)
    ensures r.0.Ch? ==> r.1.status == StreamOk && |s.rest| > 0 && r.0.b == s.rest[0] && r.1.rest == s.rest[1..]
    ensures !r.0.Ch? ==> r.1.rest == []
  {
    if s.status == StreamEof then (EndOfInput, s)
    else if s.status == StreamError then (BadInput, s)
    else if s.cached > 0 then (Ch(s.rest[0]), Stream(s.rest[1..], s.cached - 1, StreamOk))
    else if s.rest == [] then (EndOfInput, s.(status := StreamEof))
    else if s.rest[0] < 0x80 then (Ch(s.rest[0]), Stream(s.rest[1..], 0, StreamOk))
    else match Iterate(s.rest)
      case None => (BadInput, Stream([], 0, StreamError))
      case Some((_, n)) => (Ch(s.rest[0]), Stream(s.rest[1..], n - 1, StreamOk))
  }

  /** stream_unget; a NUL put back into the cache reads as an empty cache and is lost. */
  function Unget(s: Stream, c: Char): (r: Stream)
    requires WellFormed(s) && (c.Ch? ==> s.status == StreamOk)
    ensures WellFormed(r) && |r.rest| <= |s.rest| + (if c.Ch? then 1 else 0)
  {
    if !c.Ch? || c.b == NUL then s
    else Stream([c.b] + s.rest, if c.b >= 0x80 then s.cached + 1 else 0, s.status)
  }

  // ----- tokens -----

  datatype Token =
    | Invalid | EndToken | Punct(c: byte) | StringToken(val: bytes) | IntegerToken(v: int) | RealToken(text: bytes)
    | TrueToken | FalseToken | NullToken

  predicate IsAlpha(b: byte) { 65 <= b <= 90 || 97 <= b <= 122 }

  predicate IsBlank(b: byte) { b == 32 || b == 9 || b == 10 || b == 13 }

  predicate IsPunct(b: byte) { b == 123 || b == 125 || b == 91 || b == 93 || b == 58 || b == 44 }

  /** Characters taken while a test holds, the first that fails it, and the stream after that one. */
  datatype Span = Span(text: bytes, next: Char, after: Stream)

  function While(test: byte -> bool, s: Stream): (r: Span)
    requires WellFormed(s)
    ensures WellFormed(r.after) && |r.text| + |r.after.rest| + (if r.next.Ch? then 1 else 0) <= |s.rest|
    ensures r.next.Ch? ==> r.after.status == StreamOk && !test(r.next.b)
    ensures forall i :: 0 <= i < |r.text| ==> test(r.text[i])
    decreases |s.rest|
  {
    var (c, s1) := Get(s);
    if c.Ch? && test(c.b) then
      var r := While(test, s1);
      Span([c.b] + r.text, r.next, r.after)
    else Span([], c, s1)
  }

  /** The scanning pass of lex_scan_string: the text up to and including the closing quote. */
  function StringChars(s: Stream): (r: Option<(bytes, Stream)>)
    requires WellFormed(s)
    ensures r.Some? ==> WellFormed(r.value.1) && |r.value.1.rest| < |s.rest| && Scanned(r.value.0)
    decreases |s.rest|, 0
  {
    var (c, s1) := Get(s);
    if !c.Ch? || c.b < 0x20 then None
    else if c.b == QUOTE then Some(([QUOTE], s1))
    else if c.b == BACKSLASH then
      var (d, s2) := Get(s1);
      if !d.Ch? then None
      else if d.b == LETTER_U then HexThen(s2, 4, [BACKSLASH, LETTER_U])
      else if Unshort(d.b) == None then None
      else match StringChars(s2)
        case None => None
        case Some((t, s3)) =>
          assert ([BACKSLASH, d.b] + t)[2..] == t;
          Some(([BACKSLASH, d.b] + t, s3))
    else match StringChars(s1)
      case None => None
      case Some((t, s2)) =>
        assert ([c.b] + t)[1..] == t;
        Some(([c.b] + t, s2))
  }

  /** n more hexadecimal digits after `pre`, and the rest of the string. */
  function HexThen(s: Stream, n: nat, pre: bytes): (r: Option<(bytes, Stream)>)
    requires WellFormed(s) && n <= 4 && |pre| == 6 - n && pre[0] == BACKSLASH && pre[1] == LETTER_U
    requires forall i :: 2 <= i < |pre| ==> IsHex(pre[i])
    ensures r.Some? ==> WellFormed(r.value.1) && |r.value.1.rest| < |s.rest| && Scanned(r.value.0)
    decreases |s.rest|, n + 1
  {
    if n == 0 then
      match StringChars(s)
      case None => None
      case Some((t, s')) =>
        assert (pre + t)[6..] == t && (pre + t)[0] == BACKSLASH && (pre + t)[1] == LETTER_U;
        assert FourHex(pre + t, 2);
        Some((pre + t, s'))
    else
      var (c, s1) := Get(s);
      if c.Ch? && IsHex(c.b) then HexThen(s1, n - 1, pre + [c.b]) else None
  }

  /** strtoll on the text of a number; None is ERANGE. */
  function NumberValue(text: bytes): Option<int> {
    if |text| >= 1 && text[0] == MINUS && AllDigits(text[1..]) then
      var v := 0 - DigitsValue(text[1..]);
      if v < LLONG_MIN then None else Some(v)
    else if AllDigits(text) then
      if DigitsValue(text) > LLONG_MAX then None else Some(DigitsValue(text))
    else None
  }

  predicate Is(c: Char, b: byte) { c == Ch(b) }

  predicate IsExponent(c: Char) { Is(c, 69) || Is(c, 101) }

  predicate DigitChar(c: Char) { c.Ch? && IsDigit(c.b) }

  /** The end of lex_scan_number, for text already taken and c the character after it. */
  function NumberEnd(text: bytes, c: Char, s: Stream): (r: (Token, Stream))
    requires WellFormed(s) && (c.Ch? ==> s.status == StreamOk)
    ensures WellFormed(r.1) && |r.1.rest| <= |s.rest| + (if c.Ch? then 1 else 0)
  {
    if Is(c, 46) then
      var (d, s1) := Get(s);
      if !DigitChar(d) then (Invalid, Unget(s1, d))
      else
        var r := While(IsDigit, s1);
        Exponent(text + [46, d.b] + r.text, r.next, r.after)
    else if IsExponent(c) then Exponent(text, c, s)
    else
      match NumberValue(text)
      case None => (Invalid, Unget(s, c))
      case Some(v) => (IntegerToken(v), Unget(s, c))
  }

  function Exponent(text: bytes, c: Char, s: Stream): (r: (Token, Stream))
    requires WellFormed(s) && (c.Ch? ==> s.status == StreamOk)
    ensures WellFormed(r.1) && |r.1.rest| <= |s.rest| + (if c.Ch? then 1 else 0)
  {
    if !IsExponent(c) then (RealToken(text), Unget(s, c))
    else
      var (d, s1) := Get(s);
      var (sign, e, s2) :=
        if Is(d, 43) || Is(d, MINUS) then var (e, s2) := Get(s1); ([d.b], e, s2) else ([], d, s1);
      if !DigitChar(e) then (Invalid, Unget(s2, e))
      else
        var r := While(IsDigit, s2);
        (RealToken(text + [c.b] + sign + [e.b] + r.text), Unget(r.after, r.next))
  }

  /** lex_scan_number, from its first character. */
  function ScanNumber(b: byte, s: Stream): (r: (Token, Stream))
    requires WellFormed(s)
    ensures WellFormed(r.1) && |r.1.rest| <= |s.rest|
  {
    var (sign, c, s1) := if b == MINUS then var (c, s1) := Get(s); ([MINUS], c, s1) else ([], Ch(b), s);
    if Is(c, ZERO) then
      var (d, s2) := Get(s1);
      if DigitChar(d) then (Invalid, Unget(s2, d)) else NumberEnd(sign + [ZERO], d, s2)
    else if DigitChar(c) then
      var r := While(IsDigit, s1);
      NumberEnd(sign + [c.b] + r.text, r.next, r.after)
    else (Invalid, if b == MINUS then Unget(s1, c) else s)
  }

  const TRUE_TEXT: bytes := [116, 114, 117, 101]
  const FALSE_TEXT: bytes := [102, 97, 108, 115, 101]
  const NULL_TEXT: bytes := [110, 117, 108, 108]

  function Word(text: bytes): Token {
    if text == TRUE_TEXT then TrueToken
    else if text == FALSE_TEXT then FalseToken
    else if text == NULL_TEXT then NullToken
    else Invalid
  }

  /** lex_scan. */
  function Scan(s: Stream): (r: (Token, Stream))
    requires WellFormed(s)
    ensures WellFormed(r.1) && |r.1.rest| <= |s.rest|
    ensures r.0 != Invalid && r.0 != EndToken ==> |r.1.rest| < |s.rest|
  {
    var blank := While(IsBlank, s);
    match blank.next
    case EndOfInput => (EndToken, blank.after)
    case BadInput => (Invalid, blank.after)
    case Ch(b) =>
      var s1 := blank.after;
      if IsPunct(b) then (Punct(b), s1)
      else if b == QUOTE then
        (match StringChars(s1)
         case None => (Invalid, s1)
         case Some((t, s2)) =>
           match Unescape(t)
           case None => (Invalid, s2)
           case Some(v) => (StringToken(v), s2))
      else if IsDigit(b) || b == MINUS then ScanNumber(b, s1)
      else if IsAlpha(b) then
        var r := While(IsAlpha, s1);
        (Word([b] + r.text), Unget(r.after, r.next))
      else (Invalid, s1)
  }

  // ----- reading back what the printer writes -----

  function Start(x: bytes): Stream { Stream(x, 0, StreamOk) }

  /** The stream stands before x; at the end of the input the end may have been seen already. */
  predicate At(s: Stream, x: bytes) { s == Start(x) || (x == [] && s == Stream([], 0, StreamEof)) }

  lemma GetAscii(b: byte, x: bytes)
    requires b < 0x80
    ensures Get(Start([b] + x)) == (Ch(b), Start(x))
  {
    assert ([b] + x)[1..] == x;
  }

  /** A character seen and put back leaves the stream where it was. */
  lemma UngetNext(x: bytes)
    requires x == [] || 0 < x[0] < 0x80
    ensures var (c, s) := Get(Start(x)); (c.Ch? <==> x != []) && (c.Ch? ==> c.b == x[0]) && At(Unget(s, c), x)
  {
    if x != [] {
      assert [x[0]] + x[1..] == x;
    }
  }

  /** A run of characters that satisfy a test is taken whole. */
  lemma {:induction false} WhileRun(test: byte -> bool, t: bytes, x: bytes)
    requires forall i :: 0 <= i < |t| ==> t[i] < 0x80 && test(t[i])
    ensures While(test, Start(t + x)) ==
              Span(t + While(test, Start(x)).text, While(test, Start(x)).next, While(test, Start(x)).after)
  {
    var r := While(test, Start(x));
    if t == [] {
      assert t + x == x && t + r.text == r.text;
    } else {
      assert t + x == [t[0]] + (t[1..] + x);
      GetAscii(t[0], t[1..] + x);
      WhileRun(test, t[1..], x);
      assert [t[0]] + (t[1..] + r.text) == t + r.text;
    }
  }

  lemma WhileStops(test: byte -> bool, t: bytes, x: bytes)
    requires forall i :: 0 <= i < |t| ==> t[i] < 0x80 && test(t[i])
    requires x == [] || (0 < x[0] < 0x80 && !test(x[0]))
    ensures While(test, Start(t + x)).text == t
    ensures (While(test, Start(t + x)).next, While(test, Start(t + x)).after) == Get(Start(x))
    ensures At(Unget(While(test, Start(t + x)).after, While(test, Start(t + x)).next), x)
  {
    WhileRun(test, t, x);
    UngetNext(x);
    assert t + [] == t;
  }

  predicate AllBlank(w: bytes) { forall i :: 0 <= i < |w| ==> IsBlank(w[i]) }

  lemma ScanBlank(w: bytes, x: bytes)
    requires AllBlank(w)
    ensures Scan(Start(w + x)) == Scan(Start(x))
  {
    WhileRun(IsBlank, w, x);
  }

  /** The first character that is not blank. */
  lemma FirstChar(b: byte, x: bytes)
    requires b < 0x80 && !IsBlank(b)
    ensures While(IsBlank, Start([b] + x)).next == Ch(b) && While(IsBlank, Start([b] + x)).after == Start(x)
  {
    GetAscii(b, x);
  }

  lemma ScanPunct(b: byte, x: bytes)
    requires IsPunct(b)
    ensures Scan(Start([b] + x)) == (Punct(b), Start(x))
  {
    FirstChar(b, x);
  }

  lemma ScanEnd(s: Stream)
    requires At(s, [])
    ensures Scan(s).0 == EndToken
  {
  }

  /** What may follow a number or a word. */
  predicate Delimited(x: bytes) { x == [] || IsPunct(x[0]) || IsBlank(x[0]) }

  lemma ScanWord(t: bytes, x: bytes)
    requires t == TRUE_TEXT || t == FALSE_TEXT || t == NULL_TEXT
    requires Delimited(x)
    ensures Scan(Start(t + x)).0 == Word(t) && At(Scan(Start(t + x)).1, x)
  {
    hide While, Get, Unget, Word, Scan;
    ScanIsWord(t[0], t[1..] + x);
    WhileStops(IsAlpha, t[1..], x);
    assert [t[0]] + (t[1..] + x) == t + x && [t[0]] + t[1..] == t;
  }

  lemma ScanIsWord(b: byte, y: bytes)
    requires IsAlpha(b)
    ensures Scan(Start([b] + y)) ==
            (Word([b] + While(IsAlpha, Start(y)).text),
             Unget(While(IsAlpha, Start(y)).after, While(IsAlpha, Start(y)).next))
  {
    hide Word, Get, Unget;
    FirstChar(b, y);
  }

  lemma ScanIsNumber(b: byte, y: bytes)
    requires IsDigit(b) || b == MINUS
    ensures Scan(Start([b] + y)) == ScanNumber(b, Start(y))
  {
    hide ScanNumber, Get;
    FirstChar(b, y);
  }

  lemma NumberValueDecimal(v: int)
    requires LLONG_MIN <= v <= LLONG_MAX
    ensures NumberValue(Decimal(v)) == Some(v)
  {
    hide Digits, DigitsValue;
    if v < 0 {
      DigitsValueOfDigits(-v);
      assert Decimal(v)[1..] == Digits(-v);
    } else {
      DigitsValueOfDigits(v);
      assert IsDigit(Decimal(v)[0]);
    }
  }

  /** What follows a number ends it. */
  lemma NumberEnds(v: int, x: bytes)
    requires LLONG_MIN <= v <= LLONG_MAX && Delimited(x)
    ensures var (c, s) := Get(Start(x));
            !DigitChar(c) && NumberEnd(Decimal(v), c, s).0 == IntegerToken(v) && At(NumberEnd(Decimal(v), c, s).1, x)
  {
    hide NumberValue, Decimal, Unget;
    NumberValueDecimal(v);
    UngetNext(x);
  }

  // ----- numbers -----

  /** The integer part of a number: no leading zeros. */
  predicate IsInt(i: bytes) {
    var ds := if |i| >= 1 && i[0] == MINUS then i[1..] else i;
    |ds| >= 1 && AllDigits(ds) && (ds[0] == ZERO ==> |ds| == 1)
  }

  datatype Exp = Exp(mark: byte, sign: bytes, digits: bytes)

  predicate IsExp(e: Exp) {
    && (e.mark == 69 || e.mark == 101) && (e.sign == [] || e.sign == [43] || e.sign == [MINUS])
    && |e.digits| >= 1 && AllDigits(e.digits)
  }

  function FracText(f: Option<bytes>): bytes { if f.Some? then [46] + f.value else [] }

  function ExpText(e: Option<Exp>): bytes { if e.Some? then [e.value.mark] + e.value.sign + e.value.digits else [] }

  /** An integer part with a fraction, an exponent, or both. */
  predicate RealForm(t: bytes, i: bytes, f: Option<bytes>, e: Option<Exp>) {
    && t == i + FracText(f) + ExpText(e) && IsInt(i) && (f.Some? || e.Some?)
    && (f.Some? ==> |f.value| >= 1 && AllDigits(f.value)) && (e.Some? ==> IsExp(e.value))
  }

  ghost predicate IsReal(t: bytes) { exists i, f, e :: RealForm(t, i, f, e) }

  /** A text that does not go on with a digit. */
  predicate NoDigit(x: bytes) { x == [] || (0 < x[0] < 0x80 && !IsDigit(x[0])) }

  lemma TakeDigits(ds: bytes, x: bytes)
    requires AllDigits(ds) && NoDigit(x)
    ensures While(IsDigit, Start(ds + x)).text == ds
    ensures (While(IsDigit, Start(ds + x)).next, While(IsDigit, Start(ds + x)).after) == Get(Start(x))
  {
    hide While, Get;
    WhileStops(IsDigit, ds, x);
  }

  /** The digits of a number without a sign. */
  lemma ScanDigits(d: byte, more: bytes, x: bytes)
    requires IsDigit(d) && AllDigits(more) && (d == ZERO ==> more == []) && NoDigit(x)
    ensures var (c, s) := Get(Start(x)); ScanNumber(d, Start(more + x)) == NumberEnd([d] + more, c, s)
  {
    hide NumberEnd, While, Get;
    TakeDigits(more, x);
    NotDigit(x);
    if d == ZERO {
      assert more + x == x && [] + [ZERO] == [d] + more;
    } else {
      assert [] + [d] + more == [d] + more;
    }
  }

  lemma NotDigit(x: bytes)
    requires NoDigit(x)
    ensures !DigitChar(Get(Start(x)).0)
  {
  }

  lemma ScanMinus(d: byte, more: bytes, x: bytes)
    requires IsDigit(d) && AllDigits(more) && (d == ZERO ==> more == []) && NoDigit(x)
    ensures var (c, s) := Get(Start(x));
            ScanNumber(MINUS, Start([d] + (more + x))) == NumberEnd([MINUS] + [d] + more, c, s)
  {
    hide NumberEnd, While, Get;
    GetAscii(d, more + x);
    TakeDigits(more, x);
    NotDigit(x);
    if d == ZERO { assert more + x == x && [MINUS] + [d] + more == [MINUS] + [ZERO]; }
  }

  /** The integer part is taken, and the number ended as what follows says. */
  lemma ScanInt(i: bytes, x: bytes)
    requires IsInt(i) && NoDigit(x)
    ensures var (c, s) := Get(Start(x)); Scan(Start(i + x)) == NumberEnd(i, c, s)
  {
    hide NumberEnd, Scan, ScanNumber, Get, NoDigit;
    if i[0] == MINUS {
      var d, more := i[1], i[2..];
      var ds := i[1..];
      assert forall k :: 0 <= k < |more| ==> more[k] == ds[k + 1];
      assert IsDigit(ds[0]) && AllDigits(more);
      assert i + x == [MINUS] + ([d] + (more + x)) && i == [MINUS] + [d] + more;
      ScanIsNumber(MINUS, [d] + (more + x));
      ScanMinus(d, more, x);
    } else {
      var d, more := i[0], i[1..];
      assert IsDigit(d);
      assert i + x == [d] + (more + x) && i == [d] + more;
      ScanIsNumber(d, more + x);
      ScanDigits(d, more, x);
    }
  }

  lemma ScanInteger(v: int, x: bytes)
    requires LLONG_MIN <= v <= LLONG_MAX && Delimited(x)
    ensures Scan(Start(Decimal(v) + x)).0 == IntegerToken(v) && At(Scan(Start(Decimal(v) + x)).1, x)
  {
    hide NumberEnd, Get, Scan, At, Decimal;
    NumberEnds(v, x);
    DecimalInt(v);
    ScanInt(Decimal(v), x);
  }

  lemma DecimalInt(v: int)
    ensures IsInt(Decimal(v))
  {
    var ds := Digits(if v < 0 then -v else v);
    assert ds[0] == ZERO ==> |ds| == 1;
    if v < 0 { assert Decimal(v)[1..] == ds; } else { assert IsDigit(ds[0]); }
  }

  /** The digits of an exponent, after its sign. */
  lemma ExponentDigits(ds: bytes, x: bytes)
    requires |ds| >= 1 && AllDigits(ds) && Delimited(x)
    ensures Get(Start(ds + x)) == (Ch(ds[0]), Start(ds[1..] + x)) && IsDigit(ds[0])
    ensures var r := While(IsDigit, Start(ds[1..] + x)); r.text == ds[1..] && At(Unget(r.after, r.next), x)
  {
    hide While, Get, Unget;
    WhileStops(IsDigit, ds[1..], x);
    GetAscii(ds[0], ds[1..] + x) by { assert IsDigit(ds[0]); }
    assert [ds[0]] + (ds[1..] + x) == ds + x;
  }

  lemma ExponentPlain(text: bytes, m: byte, ds: bytes, x: bytes)
    requires (m == 69 || m == 101) && |ds| >= 1 && AllDigits(ds) && Delimited(x)
    ensures var r := Exponent(text, Ch(m), Start(ds + x)); r.0 == RealToken(text + ([m] + [] + ds)) && At(r.1, x)
  {
    hide While, Get, Unget, Delimited;
    ExponentDigits(ds, x);
    assert text + [m] + [] + [ds[0]] + ds[1..] == text + ([m] + [] + ds);
  }

  lemma ExponentSigned(text: bytes, m: byte, sign: byte, ds: bytes, x: bytes)
    requires (m == 69 || m == 101) && (sign == 43 || sign == MINUS) && |ds| >= 1 && AllDigits(ds) && Delimited(x)
    ensures var r := Exponent(text, Ch(m), Start([sign] + (ds + x)));
            r.0 == RealToken(text + ([m] + [sign] + ds)) && At(r.1, x)
  {
    hide While, Get, Unget, Delimited;
    GetAscii(sign, ds + x);
    ExponentDigits(ds, x);
    assert text + [m] + [sign] + [ds[0]] + ds[1..] == text + ([m] + [sign] + ds);
  }

  lemma ExponentNone(text: bytes, x: bytes)
    requires Delimited(x)
    ensures var (c, s) := Get(Start(x));
            var r := Exponent(text, c, s);
            r.0 == RealToken(text) && At(r.1, x)
  {
    hide Unget;
    UngetNext(x);
  }

  lemma ExponentBack(text: bytes, e: Option<Exp>, x: bytes)
    requires (e.Some? ==> IsExp(e.value)) && Delimited(x)
    ensures var (c, s) := Get(Start(ExpText(e) + x));
            var r := Exponent(text, c, s);
            r.0 == RealToken(text + ExpText(e)) && At(r.1, x) && (e.Some? ==> IsExponent(c))
  {
    hide Get, Exponent, At, Delimited, AllDigits;
    if e == None {
      assert [] + x == x && text + [] == text;
      ExponentNone(text, x);
    } else {
      var Exp(m, sign, ds) := e.value;
      if sign == [] {
        assert ExpText(e) + x == [m] + (ds + x);
        GetAscii(m, ds + x);
        ExponentPlain(text, m, ds, x);
      } else {
        assert ExpText(e) + x == [m] + ([sign[0]] + (ds + x));
        GetAscii(m, [sign[0]] + (ds + x));
        ExponentSigned(text, m, sign[0], ds, x);
      }
    }
  }

  /** A fraction leads to the exponent or to the end. */
  lemma FractionBack(i: bytes, d: bytes, z: bytes)
    requires |d| >= 1 && AllDigits(d) && NoDigit(z)
    ensures var (c, s) := Get(Start([46] + (d + z)));
            var (c', s') := Get(Start(z));
            NumberEnd(i, c, s) == Exponent(i + ([46] + d), c', s')
  {
    hide Get, While, Exponent, NoDigit;
    assert IsDigit(d[0]);
    GetAscii(46, d + z);
    GetAscii(d[0], d[1..] + z);
    assert [d[0]] + (d[1..] + z) == d + z;
    TakeDigits(d[1..], z);
    assert i + [46, d[0]] + d[1..] == i + ([46] + d);
  }

  lemma ScanFraction(i: bytes, d: bytes, e: Option<Exp>, x: bytes)
    requires IsInt(i) && |d| >= 1 && AllDigits(d) && (e.Some? ==> IsExp(e.value)) && Delimited(x)
    ensures var r := Scan(Start(i + ([46] + (d + (ExpText(e) + x)))));
            r.0 == RealToken(i + ([46] + d) + ExpText(e)) && At(r.1, x)
  {
    hide Scan, Get, NumberEnd, Exponent, At, IsInt, IsExp, AllDigits, Delimited, NoDigit, ExpText;
    var z := ExpText(e) + x;
    AfterFraction(e, x);
    DotNext(d + z);
    ScanInt(i, [46] + (d + z));
    FractionBack(i, d, z);
    ExponentBack(i + ([46] + d), e, x);
  }

  lemma ScanExponent(i: bytes, e: Exp, x: bytes)
    requires IsInt(i) && IsExp(e) && Delimited(x)
    ensures var r := Scan(Start(i + (ExpText(Some(e)) + x))); r.0 == RealToken(i + ExpText(Some(e))) && At(r.1, x)
  {
    hide Scan, Get, Exponent, At, IsInt, IsExp, Delimited, NoDigit, ExpText, While, NumberValue;
    AfterFraction(Some(e), x);
    ScanInt(i, ExpText(Some(e)) + x);
    ExponentBack(i, Some(e), x);
  }

  /** The text of a real is scanned as that real. */
  lemma ScanReal(t: bytes, x: bytes)
    requires IsReal(t) && Delimited(x)
    ensures Scan(Start(t + x)).0 == RealToken(t) && At(Scan(Start(t + x)).1, x)
  {
    hide Scan, At, IsInt, IsExp, AllDigits, Delimited, ExpText;
    var i, f, e :| RealForm(t, i, f, e);
    if f.Some? {
      var d := f.value;
      RegroupReal(i, d, ExpText(e), x);
      ScanFraction(i, d, e, x);
    } else {
      assert i + [] == i;
      RegroupReal(i, [], ExpText(e), x);
      ScanExponent(i, e.value, x);
    }
  }

  lemma RegroupReal(i: bytes, d: bytes, e: bytes, x: bytes)
    ensures i + ([46] + d) + e + x == i + ([46] + (d + (e + x))) && i + e + x == i + (e + x)
  {
  }

  lemma DotNext(y: bytes)
    ensures NoDigit([46] + y)
  {
  }

  lemma AfterFraction(e: Option<Exp>, x: bytes)
    requires (e.Some? ==> IsExp(e.value)) && Delimited(x)
    ensures NoDigit(ExpText(e) + x)
  {
    if e == None { assert [] + x == x; }
  }

  /** The scanned text of a string whose text begins with t. */
  function Prepend(t: bytes, r: Option<(bytes, Stream)>): Option<(bytes, Stream)> {
    if r == None then None else Some((t + r.value.0, r.value.1))
  }

  lemma CharsStep(s: Stream, b: byte, s1: Stream)
    requires WellFormed(s) && WellFormed(s1) && Get(s) == (Ch(b), s1) && b >= 0x20 && b != QUOTE && b != BACKSLASH
    ensures StringChars(s) == Prepend([b], StringChars(s1))
  {
    hide Get;
  }

  lemma PrependTwice(t: bytes, u: bytes, r: Option<(bytes, Stream)>)
    ensures Prepend(t, Prepend(u, r)) == Prepend(t + u, r)
  {
    if r.Some? { assert t + (u + r.value.0) == t + u + r.value.0; }
  }

  /** Characters of a sequence already validated are passed over one by one. */
  lemma {:induction false} CharsCached(t: bytes, y: bytes)
    requires forall i :: 0 <= i < |t| ==> t[i] >= 0x80
    ensures StringChars(Stream(t + y, |t|, StreamOk)) == Prepend(t, StringChars(Start(y)))
  {
    hide Iterate, StringChars;
    var r := StringChars(Start(y));
    if t == [] {
      assert t + y == y;
      if r.Some? { assert [] + r.value.0 == r.value.0; }
    } else {
      assert (t + y)[1..] == t[1..] + y;
      CharsStep(Stream(t + y, |t|, StreamOk), t[0], Stream(t[1..] + y, |t| - 1, StreamOk));
      CharsCached(t[1..], y);
      PrependTwice([t[0]], t[1..], r);
      assert [t[0]] + t[1..] == t;
    }
  }

  /** The first byte of a multi-byte character; the others are then in the cache. */
  lemma GetEncoded(cp: int, y: bytes)
    requires IsScalar(cp) && cp >= 0x80
    ensures var e := Encoded(cp); Get(Start(e + y)) == (Ch(e[0]), Stream(e[1..] + y, |e| - 1, StreamOk))
  {
    hide Encoded, Iterate;
    IterateEncoded(cp, y);
    assert (Encoded(cp) + y)[1..] == Encoded(cp)[1..] + y;
  }

  lemma CharsPlain(cp: int, y: bytes)
    requires IsScalar(cp) && cp >= 0x20 && cp != QUOTE && cp != BACKSLASH
    ensures StringChars(Start(Encoded(cp) + y)) == Prepend(Encoded(cp), StringChars(Start(y)))
  {
    hide Encoded, Get, StringChars;
    var e := Encoded(cp);
    if cp < 0x80 {
      GetAscii(cp, y);
      CharsStep(Start(e + y), cp, Start(y));
    } else {
      GetEncoded(cp, y);
      EncodedFirst(cp);
      CharsStep(Start(e + y), e[0], Stream(e[1..] + y, |e| - 1, StreamOk));
      CharsCached(e[1..], y);
      PrependTwice([e[0]], e[1..], StringChars(Start(y)));
      assert [e[0]] + e[1..] == e;
    }
  }

  lemma CharsShort(c: byte, y: bytes)
    requires Unshort(c).Some? && c != LETTER_U
    ensures StringChars(Start([BACKSLASH, c] + y)) == Prepend([BACKSLASH, c], StringChars(Start(y)))
  {
    assert [BACKSLASH, c] + y == [BACKSLASH] + ([c] + y);
    GetAscii(BACKSLASH, [c] + y);
    GetAscii(c, y);
  }

  lemma HexApart(pre: bytes, hs: bytes, y: bytes)
    requires hs != []
    ensures hs + y == [hs[0]] + (hs[1..] + y) && pre + [hs[0]] + hs[1..] == pre + hs
  {
  }

  lemma {:induction false} HexDigits(hs: bytes, y: bytes, pre: bytes)
    requires |hs| <= 4 && |pre| == 6 - |hs| && pre[0] == BACKSLASH && pre[1] == LETTER_U
    requires (forall i :: 2 <= i < |pre| ==> IsHex(pre[i])) && forall i :: 0 <= i < |hs| ==> IsHex(hs[i])
    ensures HexThen(Start(hs + y), |hs|, pre) == Prepend(pre + hs, StringChars(Start(y)))
  {
    if hs == [] {
      assert hs + y == y && pre + hs == pre;
    } else {
      hide Get, StringChars;
      HexApart(pre, hs, y);
      GetAscii(hs[0], hs[1..] + y);
      HexDigits(hs[1..], y, pre + [hs[0]]);
    }
  }

  lemma CharsUnicode(v: nat, y: bytes)
    requires v < 0x10000
    ensures StringChars(Start([BACKSLASH, LETTER_U] + Hex4(v) + y)) ==
            Prepend([BACKSLASH, LETTER_U] + Hex4(v), StringChars(Start(y)))
  {
    hide Hex4;
    var h := Hex4(v);
    HexFour(v);
    assert [BACKSLASH, LETTER_U] + h + y == [BACKSLASH] + ([LETTER_U] + (h + y));
    GetAscii(BACKSLASH, [LETTER_U] + (h + y));
    GetAscii(LETTER_U, h + y);
    HexDigits(h, y, [BACKSLASH, LETTER_U]);
  }

  lemma HexFour(v: nat)
    requires v < 0x10000
    ensures forall i :: 0 <= i < 4 ==> IsHex(Hex4(v)[i])
  {
  }

  lemma CharsPair(v: nat, w: nat, y: bytes)
    requires v < 0x10000 && w < 0x10000
    ensures var t := [BACKSLASH, LETTER_U] + Hex4(v) + [BACKSLASH, LETTER_U] + Hex4(w);
            StringChars(Start(t + y)) == Prepend(t, StringChars(Start(y)))
  {
    hide Hex4, StringChars;
    var p, q := [BACKSLASH, LETTER_U] + Hex4(v), [BACKSLASH, LETTER_U] + Hex4(w);
    CharsUnicode(w, y);
    CharsUnicode(v, q + y);
    assert p + (q + y) == [BACKSLASH, LETTER_U] + Hex4(v) + [BACKSLASH, LETTER_U] + Hex4(w) + y;
    var r := StringChars(Start(y));
    if r.Some? {
      assert p + (q + r.value.0) == [BACKSLASH, LETTER_U] + Hex4(v) + [BACKSLASH, LETTER_U] + Hex4(w) + r.value.0;
    }
  }

  lemma CharsChar(cp: int, f: Flags, y: bytes)
    requires IsScalar(cp)
    ensures StringChars(Start(CharText(cp, f) + y)) == Prepend(CharText(cp, f), StringChars(Start(y)))
  {
    hide Hex4, Encoded, StringChars;
    if !Escaped(cp, f) {
      CharsPlain(cp, y);
    } else if Short(cp).Some? {
      ShortUnshort(cp);
      UnshortShort(cp);
      CharsShort(Short(cp).value, y);
    } else if cp < 0x10000 {
      CharsUnicode(cp, y);
    } else {
      var v := cp - 0x10000;
      CharsPair(0xD800 + v / 1024, 0xDC00 + v % 1024, y);
    }
  }

  lemma UnshortShort(cp: int)
    requires Short(cp).Some?
    ensures Unshort(Short(cp).value).Some?
  {
  }

  lemma BodyFirst(cps: seq<int>, f: Flags)
    requires AllScalar(cps) && cps != []
    ensures BodyText(cps, f) == CharText(cps[0], f) + BodyText(cps[1..], f)
  {
    hide CharText;
  }

  lemma Reassociate(a: bytes, b: bytes, c: bytes)
    ensures (a + b) + c == a + (b + c)
  {
  }

  lemma {:induction false} CharsBody(cps: seq<int>, f: Flags, x: bytes)
    requires AllScalar(cps)
    ensures StringChars(Start(BodyText(cps, f) + ([QUOTE] + x))) == Some((BodyText(cps, f) + [QUOTE], Start(x)))
  {
    if cps == [] {
      GetAscii(QUOTE, x);
      assert BodyText(cps, f) + ([QUOTE] + x) == [QUOTE] + x;
      assert BodyText(cps, f) + [QUOTE] == [QUOTE];
    } else {
      hide CharText, StringChars, BodyText;
      var c, rest := CharText(cps[0], f), BodyText(cps[1..], f);
      BodyFirst(cps, f);
      CharsBody(cps[1..], f, x);
      CharsChar(cps[0], f, rest + ([QUOTE] + x));
      Reassociate(c, rest, [QUOTE] + x);
      Reassociate(c, rest, [QUOTE]);
    }
  }

  /** The printed literal of a string scans back to the string. */
  lemma ScanLiteral(s: bytes, f: Flags, x: bytes)
    requires Valid(s)
    ensures Literal(s, f).Some? && Scan(Start(Literal(s, f).value + x)) == (StringToken(s), Start(x))
  {
    hide BodyText, StringChars, Unescape, While, Get, Decode, Scanned;
    var body := BodyText(Decode(s).value, f);
    UnescapeLiteral(s, f);
    assert Literal(s, f).value[1..] == body + [QUOTE];
    CharsBody(Decode(s).value, f, x);
    assert Literal(s, f).value + x == [QUOTE] + (body + ([QUOTE] + x));
    FirstChar(QUOTE, body + ([QUOTE] + x));
  }
}
