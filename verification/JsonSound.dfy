/**
 What a load can return: the texts of src/jansson/src/load.c come out as UTF-8, its integers in range,
 its objects with distinct keys, and nothing deeper than the limit.
 */
module JsonSound {
  import opened Bytes
  import opened Utf8
  import opened JsonString
  import opened JsonLex
  import opened JsonValue
  import HashTable

  // ----- UTF-8 character by character -----

  lemma ValidNext(b: bytes)
    requires b != [] && Iterate(b).Some?
    ensures Valid(b) <==> Valid(b[Iterate(b).value.1..])
  {
    hide Iterate, Encoded;
  }

  lemma ValidAscii(c: byte, x: bytes)
    requires c < 0x80
    ensures Valid([c] + x) <==> Valid(x)
  {
    assert ([c] + x)[1..] == x;
    assert Iterate([c] + x) == Some((c as int, 1));
    hide Iterate;
    ValidNext([c] + x);
  }

  lemma ValidChar(cp: int, x: bytes)
    requires IsScalar(cp)
    ensures Valid(Encoded(cp) + x) <==> Valid(x)
  {
    hide Iterate, Encoded;
    IterateEncoded(cp, x);
    EncodedSome(cp);
    assert (Encoded(cp) + x)[|Encoded(cp)|..] == x;
    ValidNext(Encoded(cp) + x);
  }

  lemma EncodedSome(cp: int)
    requires IsScalar(cp)
    ensures Encoded(cp) != []
  {
  }

  lemma {:induction false} AsciiPrefix(a: bytes, x: bytes)
    requires forall i :: 0 <= i < |a| ==> a[i] < 0x80
    ensures Valid(a + x) <==> Valid(x)
  {
    if a == [] {
      assert a + x == x;
    } else {
      AsciiPrefix(a[1..], x);
      ValidAscii(a[0], a[1..] + x);
      assert a + x == [a[0]] + (a[1..] + x);
    }
  }

  /** A character beyond ASCII is made of bytes beyond ASCII. */
  lemma HighBytes(b: bytes)
    requires b != [] && b[0] >= 0x80 && Iterate(b).Some?
    ensures forall i :: 0 <= i < Iterate(b).value.1 ==> b[i] >= 0x80
  {
    hide Iterate, Encoded;
    EncodedIterate(b);
    var (cp, n) := Iterate(b).value;
    EncodedFirst(cp);
    forall i | 0 <= i < n ensures b[i] >= 0x80 {
      if i > 0 { assert b[i] == b[..n][i] == Encoded(cp)[i]; }
    }
  }

  // ----- the stream -----

  /** The validated bytes in hand are the rest of a character beyond ASCII. */
  predicate Tails(s: Stream) { WellFormed(s) && forall i :: 0 <= i < s.cached ==> s.rest[i] >= 0x80 }

  lemma GetTails(s: Stream)
    requires Tails(s)
    ensures var (c, s1) := Get(s);
            && Tails(s1) && (c.Ch? && c.b < 0x80 ==> s.cached == 0 == s1.cached)
            && (c.Ch? && s.cached > 0 ==> s1.cached == s.cached - 1)
            && (c.Ch? && c.b >= 0x80 && s.cached == 0 ==>
                  Iterate(s.rest).Some? && s1.cached == Iterate(s.rest).value.1 - 1)
  {
    hide Iterate;
    if s.status == StreamOk && s.cached == 0 && s.rest != [] && s.rest[0] >= 0x80 && Iterate(s.rest).Some? {
      HighBytes(s.rest);
    }
  }

  lemma UngetTails(s: Stream, c: Char)
    requires Tails(s) && (c.Ch? ==> s.status == StreamOk)
    ensures Tails(Unget(s, c))
  {
  }

  lemma {:induction false} WhileTails(test: byte -> bool, s: Stream)
    requires Tails(s)
    ensures var r := While(test, s); Tails(r.after) && (r.next.Ch? && r.next.b < 0x80 ==> r.after.cached == 0)
    decreases |s.rest|
  {
    hide Get;
    GetTails(s);
    var (c, s1) := Get(s);
    if c.Ch? && test(c.b) { WhileTails(test, s1); }
  }

  // ----- strings -----

  /** The text scanned from s begins with what was in hand, and the rest of it is UTF-8. */
  ghost predicate Clean(s: Stream, t: bytes) {
    s.cached < |t| && s.cached <= |s.rest| && t[..s.cached] == s.rest[..s.cached] && Valid(t[s.cached..|t| - 1])
  }

  /** One more character in front. */
  lemma CleanNext(s: Stream, t: bytes)
    requires Tails(s) && Get(s).0.Ch? && Clean(Get(s).1, t)
    ensures Clean(s, [Get(s).0.b] + t)
  {
    hide Get, Iterate, Valid;
    GetTails(s);
    var (c, s1) := Get(s);
    var u, k, n := [c.b] + t, s.cached, |t| - 1;
    if k > 0 {
      assert s.rest[..k] == [c.b] + s1.rest[..k - 1];
      assert u[k..n + 1] == t[k - 1..n];
    } else if c.b < 0x80 {
      ValidAscii(c.b, t[..n]);
      assert u[0..n + 1] == [c.b] + t[0..n] && t[0..n] == t[..n];
    } else {
      CleanLead(s, t);
    }
  }

  lemma CleanLead(s: Stream, t: bytes)
    requires Tails(s) && s.cached == 0 && Get(s).0.Ch? && Get(s).0.b >= 0x80 && Clean(Get(s).1, t)
    ensures Clean(s, [Get(s).0.b] + t)
  {
    hide Get, Iterate, Encoded, Valid;
    GetTails(s);
    EncodedIterate(s.rest);
    var (cp, m) := Iterate(s.rest).value;
    var (c, s1) := Get(s);
    var u, n := [c.b] + t, |t| - 1;
    assert s.rest[..m] == [c.b] + s1.rest[..m - 1];
    ValidChar(cp, t[m - 1..n]);
    assert u[0..n + 1] == ([c.b] + t[..m - 1]) + t[m - 1..n];
  }

  lemma {:induction false} StringClean(s: Stream)
    requires Tails(s) && StringChars(s).Some?
    ensures Clean(s, StringChars(s).value.0) && Tails(StringChars(s).value.1)
    decreases |s.rest|, 0
  {
    hide Get, Clean, Scanned;
    GetTails(s);
    var (c, s1) := Get(s);
    if c.b == QUOTE {
      CleanQuote(s1);
      CleanNextQuote(s);
    } else if c.b == BACKSLASH {
      GetTails(s1);
      var (d, s2) := Get(s1);
      if d.b == LETTER_U {
        HexClean(s2, 4, [BACKSLASH, LETTER_U]);
        CleanStart(s, StringChars(s).value.0);
      } else {
        ShortAscii(d.b);
        StringClean(s2);
        CleanNext(s1, StringChars(s2).value.0);
        CleanNext(s, [d.b] + StringChars(s2).value.0);
        assert [BACKSLASH] + ([d.b] + StringChars(s2).value.0) == [BACKSLASH, d.b] + StringChars(s2).value.0;
      }
    } else {
      StringClean(s1);
      CleanNext(s, StringChars(s1).value.0);
    }
  }

  lemma ShortAscii(c: byte)
    requires Unshort(c).Some?
    ensures c < 0x80
  {
  }

  lemma CleanQuote(s: Stream)
    ensures Valid([])
  {
  }

  lemma CleanNextQuote(s: Stream)
    requires Tails(s) && s.cached == 0
    ensures Clean(s, [QUOTE])
  {
    assert [QUOTE][0..0] == [];
  }

  lemma CleanStart(s: Stream, t: bytes)
    requires WellFormed(s) && s.cached == 0 && t != [] && Valid(t[..|t| - 1])
    ensures Clean(s, t)
  {
    assert t[0..|t| - 1] == t[..|t| - 1];
  }

  lemma {:induction false} HexClean(s: Stream, n: nat, pre: bytes)
    requires Tails(s) && s.cached == 0 && n <= 4 && |pre| == 6 - n && pre[0] == BACKSLASH && pre[1] == LETTER_U
    requires forall i :: 2 <= i < |pre| ==> IsHex(pre[i])
    requires HexThen(s, n, pre).Some?
    ensures var t := HexThen(s, n, pre).value.0; t != [] && Valid(t[..|t| - 1])
    ensures Tails(HexThen(s, n, pre).value.1)
    decreases |s.rest|, n + 1
  {
    hide Get, Scanned, Valid;
    if n == 0 {
      StringClean(s);
      var t := StringChars(s).value.0;
      CleanEnd(s, t);
      AsciiPrefix(pre, t[..|t| - 1]);
      assert (pre + t)[..|pre + t| - 1] == pre + t[..|t| - 1];
    } else {
      GetTails(s);
      var (c, s1) := Get(s);
      HexClean(s1, n - 1, pre + [c.b]);
    }
  }

  lemma CleanEnd(s: Stream, t: bytes)
    requires s.cached == 0 && Clean(s, t)
    ensures t != [] && Valid(t[..|t| - 1])
  {
    assert t[0..|t| - 1] == t[..|t| - 1];
  }

  // ----- decoding -----

  /** A byte beyond ASCII is copied. */
  lemma CopyOne(p: bytes)
    requires Scanned(p) && p != [] && p[0] >= 0x80
    ensures Scanned(p[1..])
    ensures Unescape(p).Some? <==> Unescape(p[1..]).Some?
    ensures Unescape(p).Some? ==> Unescape(p).value == [p[0]] + Unescape(p[1..]).value
  {
  }

  lemma CopyJoin(p: bytes, n: nat, r: bytes)
    requires 0 < n <= |p|
    ensures p[1..][n - 1..] == p[n..]
    ensures [p[0]] + (p[1..][..n - 1] + r) == p[..n] + r
  {
  }

  lemma {:induction false} CopyHigh(p: bytes, n: nat)
    requires Scanned(p) && n <= |p| && forall i :: 0 <= i < n ==> p[i] >= 0x80
    ensures n < |p| && Scanned(p[n..])
    ensures Unescape(p).Some? <==> Unescape(p[n..]).Some?
    ensures Unescape(p).Some? ==> Unescape(p).value == p[..n] + Unescape(p[n..]).value
  {
    if n == 0 {
      assert p != [];
      assert p[0..] == p;
      if Unescape(p).Some? { assert [] + Unescape(p).value == Unescape(p).value; }
    } else {
      hide Scanned, Unescape;
      CopyOne(p);
      CopyHigh(p[1..], n - 1);
      CopyJoin(p, n, []);
      if Unescape(p).Some? { CopyJoin(p, n, Unescape(p[n..]).value); }
    }
  }

  /** The text without its closing quote. */
  function Inside(p: bytes): bytes
    requires p != []
  {
    p[..|p| - 1]
  }

  lemma {:induction false} UnescapeValid(p: bytes)
    requires Scanned(p) && Valid(Inside(p)) && Unescape(p).Some?
    ensures Valid(Unescape(p).value)
    decreases |p|
  {
    hide Valid, Encoded, Iterate;
    if p[0] == QUOTE {
      CleanQuote(Start([]));
    } else if p[0] == BACKSLASH && p[1] == LETTER_U {
      UnescapeUnicode(p);
      var (cp, n) := UnicodeAt(p).value;
      UnescapeValid(p[n..]);
      ValidChar(cp, Unescape(p[n..]).value);
    } else if p[0] == BACKSLASH {
      DropAscii(p, 2);
      UnescapeValid(p[2..]);
      UnshortAscii(p[1]);
      ValidAscii(Unshort(p[1]).value, Unescape(p[2..]).value);
    } else if p[0] < 0x80 {
      DropAscii(p, 1);
      UnescapeValid(p[1..]);
      ValidAscii(p[0], Unescape(p[1..]).value);
    } else {
      UnescapeHigh(p);
      var (cp, n) := Iterate(Inside(p)).value;
      UnescapeValid(p[n..]);
      ValidChar(cp, Unescape(p[n..]).value);
    }
  }

  lemma UnshortAscii(c: byte)
    requires Unshort(c).Some?
    ensures Unshort(c).value < 0x80 && c < 0x80
  {
  }

  /** Characters of ASCII in front do not matter. */
  lemma DropAscii(p: bytes, n: nat)
    requires n < |p| && (forall i :: 0 <= i < n ==> p[i] < 0x80) && Valid(Inside(p))
    ensures p[n..] != [] && Valid(Inside(p[n..]))
  {
    hide Valid;
    AsciiPrefix(p[..n], Inside(p[n..]));
    assert Inside(p) == p[..n] + Inside(p[n..]);
  }

  lemma UnescapeUnicode(p: bytes)
    requires Scanned(p) && p[0] == BACKSLASH && p[1] == LETTER_U && Valid(Inside(p)) && Unescape(p).Some?
    ensures UnicodeAt(p).Some?
    ensures var (cp, n) := UnicodeAt(p).value;
            && 1 <= n < |p| && Scanned(p[n..]) && Valid(Inside(p[n..])) && Unescape(p[n..]).Some?
            && Unescape(p).value == Encoded(cp) + Unescape(p[n..]).value
  {
    hide Valid, Encoded;
    var (cp, n) := UnicodeAt(p).value;
    ScannedSkip(p, n);
    EscapeAscii(p, n);
    DropAscii(p, n);
  }

  lemma EscapeAscii(p: bytes, n: nat)
    requires FourHex(p, 2) && p[0] == BACKSLASH && p[1] == LETTER_U
    requires n == 6 || (n == 12 && FourHex(p, 8) && p[6] == BACKSLASH && p[7] == LETTER_U)
    ensures forall i :: 0 <= i < n ==> p[i] < 0x80
  {
  }

  lemma UnescapeHigh(p: bytes)
    requires Scanned(p) && p[0] >= 0x80 && Valid(Inside(p)) && Unescape(p).Some?
    ensures Inside(p) != [] && Iterate(Inside(p)).Some?
    ensures var (cp, n) := Iterate(Inside(p)).value;
            && 1 <= n < |p| && Scanned(p[n..]) && IsScalar(cp) && Valid(Inside(p[n..])) && Unescape(p[n..]).Some?
            && Unescape(p).value == Encoded(cp) + Unescape(p[n..]).value
  {
    hide Encoded, Iterate, Unescape, Valid, Scanned;
    HighStart(p);
    var q := Inside(p);
    var (cp, n) := Iterate(q).value;
    EncodedIterate(q);
    HighBytes(q);
    assert forall i :: 0 <= i < n ==> p[i] == q[i];
    CopyHigh(p, n);
    ValidNext(q);
    assert q[n..] == Inside(p[n..]) && q[..n] == p[..n];
  }

  lemma HighStart(p: bytes)
    requires Scanned(p) && p[0] >= 0x80 && Valid(Inside(p))
    ensures Inside(p) != [] && Inside(p)[0] == p[0] && Iterate(Inside(p)).Some?
  {
    hide Iterate, Encoded;
    assert |p| >= 2;
  }

  // ----- tokens -----

  ghost predicate Fine(t: Token) {
    match t
    case StringToken(v) => Valid(v)
    case IntegerToken(v) => LLONG_MIN <= v <= LLONG_MAX
    case RealToken(t) => IsReal(t)
    case _ => true
  }

  /** An integer part, with or without a fraction. */
  predicate Mantissa(t: bytes, i: bytes, f: Option<bytes>) {
    t == i + FracText(f) && IsInt(i) && (f.Some? ==> |f.value| >= 1 && AllDigits(f.value))
  }

  lemma RealIs(t: bytes, i: bytes, f: Option<bytes>, e: Option<Exp>)
    requires Mantissa(t, i, f) && (f.Some? || e.Some?) && (e.Some? ==> IsExp(e.value))
    ensures IsReal(t + ExpText(e))
  {
    hide IsInt, IsExp;
    assert RealForm(t + ExpText(e), i, f, e);
  }

  lemma ExponentFine(text: bytes, i: bytes, f: Option<bytes>, c: Char, s: Stream)
    requires Tails(s) && (c.Ch? ==> s.status == StreamOk) && Mantissa(text, i, f) && (f.Some? || IsExponent(c))
    ensures var r := Exponent(text, c, s); Tails(r.1) && Fine(r.0)
  {
    hide Get, Unget, While, Valid, Mantissa, IsReal, IsInt;
    if !IsExponent(c) {
      UngetTails(s, c);
      RealIs(text, i, f, None);
      assert text + [] == text;
    } else {
      GetTails(s);
      var (d, s1) := Get(s);
      GetTails(s1);
      var signed := JsonLex.Is(d, 43) || JsonLex.Is(d, MINUS);
      var (e, s2) := if signed then Get(s1) else (d, s1);
      UngetTails(s2, e);
      if DigitChar(e) {
        WhileTails(IsDigit, s2);
        var r := While(IsDigit, s2);
        UngetTails(r.after, r.next);
        ExponentIs(text, i, f, c.b, if signed then [d.b] else [], e.b, r.text);
      }
    }
  }

  lemma ExponentIs(text: bytes, i: bytes, f: Option<bytes>, m: byte, sign: bytes, d: byte, more: bytes)
    requires Mantissa(text, i, f) && (m == 69 || m == 101) && (sign == [] || sign == [43] || sign == [MINUS])
    requires IsDigit(d) && AllDigits(more)
    ensures IsReal(text + [m] + sign + [d] + more)
  {
    hide Mantissa, IsReal;
    var e := Exp(m, sign, [d] + more);
    RealIs(text, i, f, Some(e));
    assert text + ([m] + sign + ([d] + more)) == text + [m] + sign + [d] + more;
  }

  lemma NumberFine(text: bytes, c: Char, s: Stream)
    requires Tails(s) && (c.Ch? ==> s.status == StreamOk) && IsInt(text)
    ensures var r := NumberEnd(text, c, s); Tails(r.1) && Fine(r.0)
  {
    hide Get, Unget, While, Valid, Exponent, DigitsValue, IsReal, IsInt;
    if JsonLex.Is(c, 46) {
      GetTails(s);
      var (d, s1) := Get(s);
      UngetTails(s1, d);
      if DigitChar(d) {
        WhileTails(IsDigit, s1);
        var r := While(IsDigit, s1);
        assert text + [46, d.b] + r.text == text + ([46] + ([d.b] + r.text));
        ExponentFine(text + [46, d.b] + r.text, text, Some([d.b] + r.text), r.next, r.after);
      }
    } else if IsExponent(c) {
      assert text + [] == text;
      ExponentFine(text, text, None, c, s);
    } else {
      UngetTails(s, c);
    }
  }

  lemma IntIs(sign: bytes, d: byte, more: bytes)
    requires (sign == [] || sign == [MINUS]) && IsDigit(d) && AllDigits(more) && (d == ZERO ==> more == [])
    ensures IsInt(sign + [d] + more)
  {
    var t := sign + [d] + more;
    if sign == [] { assert t == [d] + more && t[0] != MINUS; } else { assert t[1..] == [d] + more; }
  }

  lemma ScanNumberFine(b: byte, s: Stream)
    requires Tails(s)
    ensures var r := ScanNumber(b, s); Tails(r.1) && Fine(r.0)
  {
    hide Get, Unget, While, Valid, NumberEnd, IsReal, IsInt;
    GetTails(s);
    var (sign, c, s1) := if b == MINUS then ([MINUS], Get(s).0, Get(s).1) else ([], Ch(b), s);
    if JsonLex.Is(c, ZERO) {
      GetTails(s1);
      var (d, s2) := Get(s1);
      UngetTails(s2, d);
      IntIs(sign, ZERO, []);
      assert sign + [ZERO] + [] == sign + [ZERO];
      if !DigitChar(d) { NumberFine(sign + [ZERO], d, s2); }
    } else if DigitChar(c) {
      WhileTails(IsDigit, s1);
      var r := While(IsDigit, s1);
      IntIs(sign, c.b, r.text);
      NumberFine(sign + [c.b] + r.text, r.next, r.after);
    } else if b == MINUS {
      UngetTails(s1, c);
    }
  }

  /** Every string token is UTF-8, every integer token in range, and every real token the text of a real. */
  lemma ScanFine(s: Stream)
    requires Tails(s)
    ensures Tails(Scan(s).1) && Fine(Scan(s).0)
  {
    hide Unget, While, Valid, ScanNumber, StringChars, Unescape, Word, Scanned, IsReal;
    WhileTails(IsBlank, s);
    var blank := While(IsBlank, s);
    if blank.next.Ch? {
      var b, s1 := blank.next.b, blank.after;
      if !IsPunct(b) && b == QUOTE {
        StringFine(s1);
      } else if IsDigit(b) || b == MINUS {
        ScanNumberFine(b, s1);
      } else if IsAlpha(b) {
        WhileTails(IsAlpha, s1);
        UngetTails(While(IsAlpha, s1).after, While(IsAlpha, s1).next);
        WordFine([b] + While(IsAlpha, s1).text);
      }
    }
  }

  lemma WordFine(text: bytes)
    ensures Fine(Word(text))
  {
  }

  lemma StringFine(s: Stream)
    requires Tails(s) && s.cached == 0
    ensures StringChars(s).Some? ==>
              var (t, s1) := StringChars(s).value;
              Tails(s1) && (Unescape(t).Some? ==> Valid(Unescape(t).value))
  {
    hide StringChars, Unescape, Valid, Scanned;
    if StringChars(s).Some? {
      StringClean(s);
      var t := StringChars(s).value.0;
      CleanEnd(s, t);
      if Unescape(t).Some? { UnescapeValid(t); }
    }
  }

  // ----- values -----

  /** Fit to be inside a value nested `depth` deep. */
  ghost predicate Fits(v: Json, depth: nat, fl: LoadFlags) { Loadable(v, fl) && depth + Height(v) <= MAX_DEPTH }

  ghost predicate ItemsFit(vs: seq<Json>, depth: nat, fl: LoadFlags) {
    forall i :: 0 <= i < |vs| ==> Fits(vs[i], depth, fl)
  }

  ghost predicate MembersFit(ms: seq<Member>, depth: nat, fl: LoadFlags) {
    HashTable.DistinctKeys(ms) && forall i :: 0 <= i < |ms| ==> KeyFine(ms[i].key) && Fits(ms[i].value, depth, fl)
  }

  lemma {:induction false} ItemsHeight(v: Json, i: nat, m: nat)
    requires v.Array? && i <= |v.items| && forall k :: i <= k < |v.items| ==> Height(v.items[k]) <= m
    ensures HeightItems(v, i) <= m
    decreases |v.items| - i
  {
    hide Height;
    if i < |v.items| { ItemsHeight(v, i + 1, m); }
  }

  lemma {:induction false} MembersHeight(v: Json, i: nat, m: nat)
    requires v.Object? && i <= |v.members| && forall k :: i <= k < |v.members| ==> Height(v.members[k].value) <= m
    ensures HeightMembers(v, i) <= m
    decreases |v.members| - i
  {
    hide Height;
    if i < |v.members| { MembersHeight(v, i + 1, m); }
  }

  lemma ArrayFits(vs: seq<Json>, depth: nat, fl: LoadFlags)
    requires ItemsFit(vs, depth + 1, fl) && depth + 1 <= MAX_DEPTH
    ensures Fits(Array(vs), depth, fl)
  {
    ItemsHeight(Array(vs), 0, MAX_DEPTH - depth - 1);
  }

  lemma ObjectFits(ms: seq<Member>, depth: nat, fl: LoadFlags)
    requires MembersFit(ms, depth + 1, fl) && depth + 1 <= MAX_DEPTH
    ensures Fits(Object(ms), depth, fl)
  {
    MembersHeight(Object(ms), 0, MAX_DEPTH - depth - 1);
  }

  lemma {:induction false} PutFits(ms: seq<Member>, key: bytes, v: Json, depth: nat, fl: LoadFlags)
    requires MembersFit(ms, depth, fl) && KeyFine(key) && Fits(v, depth, fl)
    ensures MembersFit(HashTable.Put(ms, key, v), depth, fl)
  {
    hide Fits, KeyFine;
    if i :| 0 <= i < |ms| && ms[i].key == key {
      HashTable.PutAt(ms, i, v);
    } else {
      HashTable.PutNew(ms, key, v);
    }
  }

  /** Whatever is read is fit to stand where it stands. */
  lemma {:induction false} ValueFits(tok: Token, s: Stream, depth: nat, fl: LoadFlags)
    requires Tails(s) && Fine(tok) && ParseValue(tok, s, depth, fl).Some?
    ensures var (v, s1) := ParseValue(tok, s, depth, fl).value; Fits(v, depth, fl) && Tails(s1)
    decreases |s.rest|, 0
  {
    hide Scan, Valid, HashTable.Put, ParseItems, ParseMembers;
    if tok.Punct? {
      ScanFine(s);
      var (t, s1) := Scan(s);
      if tok.c == OPEN_BRACE {
        if t == Punct(CLOSE_BRACE) {
          ObjectFits([], depth, fl);
        } else {
          MembersAllFit(t, s1, depth + 1, fl, []);
          ObjectFits(ParseMembers(t, s1, depth + 1, fl, []).value.0, depth, fl);
        }
      } else {
        if t == Punct(CLOSE_BRACKET) {
          ArrayFits([], depth, fl);
        } else {
          ItemsAllFit(t, s1, depth + 1, fl, []);
          ArrayFits(ParseItems(t, s1, depth + 1, fl, []).value.0, depth, fl);
        }
      }
    }
  }

  lemma {:induction false} ItemsAllFit(tok: Token, s: Stream, depth: nat, fl: LoadFlags, acc: seq<Json>)
    requires Tails(s) && Fine(tok) && ItemsFit(acc, depth, fl) && ParseItems(tok, s, depth, fl, acc).Some?
    ensures var (vs, s1) := ParseItems(tok, s, depth, fl, acc).value; ItemsFit(vs, depth, fl) && Tails(s1)
    decreases |s.rest|, 1
  {
    hide Scan, Valid, ParseValue, Fits;
    ValueFits(tok, s, depth, fl);
    var (v, s1) := ParseValue(tok, s, depth, fl).value;
    ScanFine(s1);
    var (t, s2) := Scan(s1);
    if t == Punct(COMMA) {
      ScanFine(s2);
      ItemsAllFit(Scan(s2).0, Scan(s2).1, depth, fl, acc + [v]);
    }
  }

  lemma {:induction false} MembersAllFit(tok: Token, s: Stream, depth: nat, fl: LoadFlags, acc: seq<Member>)
    requires Tails(s) && Fine(tok) && MembersFit(acc, depth, fl) && ParseMembers(tok, s, depth, fl, acc).Some?
    ensures var (ms, s1) := ParseMembers(tok, s, depth, fl, acc).value; MembersFit(ms, depth, fl) && Tails(s1)
    decreases |s.rest|, 1
  {
    hide Scan, Valid, ParseValue, Fits, HashTable.Put, HashTable.Lookup, MembersFit;
    ScanFine(s);
    var s1 := Scan(s).1;
    ScanFine(s1);
    var (t, s2) := Scan(s1);
    ValueFits(t, s2, depth, fl);
    var (v, s3) := ParseValue(t, s2, depth, fl).value;
    PutFits(acc, tok.val, v, depth, fl);
    ScanFine(s3);
    var (t', s4) := Scan(s3);
    if t' == Punct(COMMA) {
      ScanFine(s4);
      MembersAllFit(Scan(s4).0, Scan(s4).1, depth, fl, HashTable.Put(acc, tok.val, v));
    }
  }

  /** Every value a load returns is one that can be loaded again, and within the depth limit. */
  lemma LoadLoadable(x: bytes, fl: LoadFlags)
    requires Load(x, fl).Some?
    ensures Loadable(Load(x, fl).value, fl) && Height(Load(x, fl).value) <= MAX_DEPTH
  {
    hide Scan, ParseValue, Loadable, Height;
    ScanFine(Start(x));
    ValueFits(Scan(Start(x)).0, Scan(Start(x)).1, 0, fl);
  }

  /**
   The round trip for every value that the printer takes: it comes back if and only if its strings may
   hold their NULs, its integers fit, its reals have the form of reals, its keys are distinct, UTF-8 and
   without NUL, and it is not nested too deep.
   */
  lemma LoadDumpExactly(v: Json, l: Layout, fl: LoadFlags)
    requires Dumpable(v) && (v.Array? || v.Object? || fl.decodeAny)
    ensures Load(Dump(v, l, 0), fl) == Some(v) <==> Loadable(v, fl) && Height(v) <= MAX_DEPTH
  {
    hide Load, Dump, Height, Loadable;
    if Loadable(v, fl) { LoadDump(v, l, fl); }
    if Load(Dump(v, l, 0), fl) == Some(v) { LoadLoadable(Dump(v, l, 0), fl); }
  }
}
