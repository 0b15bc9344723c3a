/**
 Header lines: the scanners of src/http-parser/http_parser.c recognise exactly the names and
 values they look for, without regard to case, and a line gives back its name and value.
 */
module HttpHeader {
  import opened Bytes
  import opened HttpMachine
  import opened HttpParser
  import opened HttpLine

  // ----- text without regard to case -----

  function Fold(b: byte): byte { if 65 <= b <= 90 then b + 32 else b }

  function Folded(s: bytes): (t: bytes)
    ensures |t| == |s|
  {
    seq(|s|, i requires 0 <= i < |s| => Fold(s[i]))
  }

  /** s is the beginning of the text. */
  predicate Begins(s: bytes, text: string) {
    |s| <= |text| && forall i :: 0 <= i < |s| ==> s[i] == text[i] as int
  }

  /** Equal but for case. */
  predicate Same(s: bytes, text: string) { |s| == |text| && Begins(Folded(s), text) }

  lemma BeginsMore(s: bytes, c: byte, text: string)
    ensures Begins(s + [c], text) <==> Begins(s, text) && CharAt(text, |s|, c)
  {
    var t := s + [c];
    if Begins(t, text) {
      assert t[|s|] == c;
      forall i | 0 <= i < |s| ensures s[i] == text[i] as int { assert t[i] == s[i]; }
    }
  }

  /** Without the spaces at the end. */
  function Strip(s: bytes): (t: bytes)
    ensures |t| <= |s| && t == s[..|t|]
    ensures |s| >= 1 && s[0] != 32 ==> |t| >= 1 && t[0] == s[0]
  {
    if |s| >= 1 && s[|s| - 1] == 32 then Strip(s[..|s| - 1]) else s
  }

  lemma StripMore(s: bytes, ch: byte)
    ensures Strip(s + [ch]) == if ch == 32 then Strip(s) else s + [ch]
  {
    assert (s + [ch])[..|s|] == s;
  }

  // ----- names -----

  /**
   The token characters of section 2.2 of RFC 2616, and four that are none there: the space, the double
   quote, the slash and the right brace.
   */
  predicate NameByte(b: byte) {
    || Alpha(b) || Digit(b) || b == '!' as int || b == '#' as int || b == '$' as int || b == '%' as int
    || b == '&' as int || b == '\'' as int || b == '*' as int || b == '+' as int || b == '-' as int || b == '.' as int
    || b == '^' as int || b == '_' as int || b == '`' as int || b == '|' as int || b == '~' as int
    || b == ' ' as int || b == '"' as int || b == '/' as int || b == '}' as int
  }

  lemma NameByteIs(b: byte)
    ensures NameByte(b) <==> Token(b) != 0
  {
  }

  /** A header name. */
  predicate IsName(s: bytes) { |s| >= 1 && forall i :: 0 <= i < |s| ==> NameByte(s[i]) }

  predicate Tokens(s: bytes) { |s| >= 1 && forall i :: 0 <= i < |s| ==> Token(s[i]) != 0 }

  lemma NameTokens(s: bytes)
    ensures IsName(s) <==> Tokens(s)
  {
    hide NameByte, Token;
    forall i | 0 <= i < |s| ensures NameByte(s[i]) <==> Token(s[i]) != 0 { NameByteIs(s[i]); }
  }

  /** The scanner after a name. */
  function NameScan(s: bytes): Scan
    requires |s| >= 1
  {
    var n := |s| - 1;
    if n == 0 then Scan(NameBegins(Token(s[0])), 0) else NameGoes(NameScan(s[..n]), s[n], Token(s[n]))
  }

  /** The names looked for. */
  function NameText(k: nat): (t: string)
    requires k < 5
    ensures 7 <= |t| && forall i :: 0 <= i < |t| ==> t[i] != ' '
  {
    if k == 0 then "connection"
    else if k == 1 then "proxy-connection"
    else if k == 2 then "content-length"
    else if k == 3 then "transfer-encoding"
    else "upgrade"
  }

  /** Which known name a text can still become, judged by the bytes that tell them apart. */
  function Guess(s: bytes): nat
    requires |s| >= 1
  {
    if Is(s[0], 'p') then 1
    else if Is(s[0], 't') then 3
    else if Is(s[0], 'u') then 4
    else if !Is(s[0], 'c') then 5
    else if |s| < 4 then 6
    else if Is(s[3], 'n') then 0
    else if Is(s[3], 't') then 2
    else 5
  }

  lemma Guessed(s: bytes, k: nat)
    requires |s| >= 1 && k < 5 && Begins(s, NameText(k))
    ensures if |s| < 4 && (k == 0 || k == 2) then Guess(s) == 6 else Guess(s) == k
  {
    assert s[0] == NameText(k)[0] as int;
    if |s| >= 4 { assert s[3] == NameText(k)[3] as int; }
  }

  lemma GuessStays(s: bytes, c: byte)
    requires |s| >= 1 && Guess(s) != 6
    ensures Guess(s + [c]) == Guess(s)
  {
  }

  predicate Whole(s: bytes, text: string) { |s| == |text| && Begins(s, text) }

  /** A text can be no more than one of the known names. */
  lemma OneName(s: bytes, j: nat, k: nat)
    requires |s| >= 4 && j < 5 && k < 5 && Begins(s, NameText(j)) && Begins(s, NameText(k))
    ensures j == k
  {
    hide Begins, NameText, Guess;
    Guessed(s, j);
    Guessed(s, k);
  }

  /** No known name begins with s, and s is none with spaces behind it. */
  predicate Lost(s: bytes) { forall k :: 0 <= k < 5 ==> !Begins(s, NameText(k)) && !Whole(Strip(s), NameText(k)) }

  /** s is the part of the text that has been matched, not yet all of it. */
  predicate Matching(s: bytes, x: Scan, text: string) { |s| == x.index + 1 && |s| < |text| && Begins(s, text) }

  /** s is a known name, perhaps with spaces behind it. */
  predicate Found(s: bytes, k: nat)
    requires k < 5
  {
    Whole(Strip(s), NameText(k))
  }

  /** What a scanner state says about the folded name s. */
  predicate Fits(s: bytes, x: Scan) {
    match x.hstate
    case HGeneral => Lost(s)
    case HC => |s| == 1 && x.index == 0 && Begins(s, "con")
    case HCO => |s| == 2 && x.index == 1 && Begins(s, "con")
    case HCON => |s| == 3 && x.index == 2 && Begins(s, "con")
    case HMatchConnection => |s| >= 4 && Matching(s, x, NameText(0))
    case HMatchProxyConnection => Matching(s, x, NameText(1))
    case HMatchContentLength => |s| >= 4 && Matching(s, x, NameText(2))
    case HMatchTransferEncoding => Matching(s, x, NameText(3))
    case HMatchUpgrade => Matching(s, x, NameText(4))
    case HConnection => Found(s, 0) || Found(s, 1)
    case HContentLength => Found(s, 2)
    case HTransferEncoding => Found(s, 3)
    case HUpgrade => Found(s, 4)
    case _ => false
  }

  lemma BeginsOne(c: byte, text: string)
    ensures Begins([c], text) <==> CharAt(text, 0, c)
  {
    if CharAt(text, 0, c) { assert [c][0] == c; }
    if Begins([c], text) { assert [c][0] == text[0] as int; }
  }

  lemma InText(text: string, i: nat, c: byte)
    requires CharAt(text, i, c)
    ensures i < |text|
  {
  }

  lemma FitsFirst(c: byte)
    ensures Fits([c], Scan(NameBegins(c), 0))
  {
    hide Begins, Strip;
    BeginsOne(c, "con");
    forall k | 0 <= k < 5
      ensures (Begins([c], NameText(k)) <==> CharAt(NameText(k), 0, c)) && !Whole(Strip([c]), NameText(k))
    {
      BeginsOne(c, NameText(k));
    }
  }

  /** One more byte after which no known name begins with the text. */
  lemma LostNow(s: bytes, c: byte)
    requires forall k :: 0 <= k < 5 ==> !Begins(s + [c], NameText(k))
    requires c == 32 ==> forall k :: 0 <= k < 5 ==> !Found(s, k)
    ensures Lost(s + [c])
  {
    hide Begins, NameText, Strip;
    StripMore(s, c);
    forall k | 0 <= k < 5 ensures !Begins(s + [c], NameText(k)) && !Whole(Strip(s + [c]), NameText(k)) {
      if c == 32 { assert !Found(s, k); }
    }
  }

  lemma LostStays(s: bytes, c: byte)
    requires Lost(s)
    ensures Lost(s + [c])
  {
    hide Begins, NameText, Strip;
    forall k | 0 <= k < 5 ensures !Begins(s + [c], NameText(k)) { BeginsMore(s, c, NameText(k)); }
    LostNow(s, c);
  }

  /** Before its end a known name is found neither with nor without spaces. */
  lemma NotFoundYet(s: bytes, k: nat, j: nat)
    requires |s| >= 1 && k < 5 && j < 5 && Begins(s, NameText(k)) && |s| < |NameText(k)|
    ensures !Found(s, j)
  {
    hide NameText;
    assert s[|s| - 1] == NameText(k)[|s| - 1] as int;
    assert Strip(s) == s;
    if Found(s, j) { OneName(s, j, k); }
  }

  /** A text that leaves the only name it could become is lost. */
  lemma LeavesAll(s: bytes, c: byte, k: nat)
    requires |s| >= 1 && k < 5 && Guess(s) == k && Begins(s, NameText(k)) && |s| < |NameText(k)|
    requires !Begins(s + [c], NameText(k))
    ensures Lost(s + [c])
  {
    hide Begins, NameText, Guess, Found;
    GuessStays(s, c);
    forall j | 0 <= j < 5 ensures !Begins(s + [c], NameText(j)) && !Found(s, j) {
      if Begins(s + [c], NameText(j)) { Guessed(s + [c], j); }
      NotFoundYet(s, k, j);
    }
    LostNow(s, c);
  }

  /** One more byte of a known name, or one that is not in it. */
  lemma FitsMatch(s: bytes, x: Scan, c: byte, k: nat, found: HState)
    requires |s| >= 1 && k < 5 && Matching(s, x, NameText(k)) && (k == 0 || k == 2 ==> |s| >= 4)
    ensures var y := Match(x, NameText(k), c, found);
            || (y == Scan(HGeneral, x.index + 1) && Lost(s + [c]))
            || (y == Scan(x.hstate, x.index + 1) && Matching(s + [c], y, NameText(k)))
            || (y == Scan(found, x.index + 1) && Found(s + [c], k))
  {
    hide Begins, Guess, CharAt, NameText, Lost, Strip;
    BeginsMore(s, c, NameText(k));
    Guessed(s, k);
    if !CharAt(NameText(k), |s|, c) {
      LeavesAll(s, c, k);
    } else {
      InNameText(k, |s|, c);
      StripMore(s, c);
    }
  }

  lemma InNameText(k: nat, i: nat, c: byte)
    requires k < 5 && CharAt(NameText(k), i, c)
    ensures i < |NameText(k)| && c != 32
  {
    hide NameText;
  }

  /** The three letters that two names share. */
  lemma SharedLetters(s: bytes, k: nat)
    requires 1 <= |s| <= 3 && Begins(s, "con") && k < 5
    ensures Begins(s, NameText(k)) <==> k == 0 || k == 2
  {
    assert s[0] == "con"[0] as int;
    if Begins(s, NameText(k)) { assert s[0] == NameText(k)[0] as int; }
  }

  lemma FitsShared(s: bytes, x: Scan, ch: byte, c: byte)
    requires Fits(s, x) && (x.hstate.HC? || x.hstate.HCO? || x.hstate.HCON?)
    ensures Fits(s + [c], NameGoes(x, ch, c))
  {
    hide Begins, Strip, Lost;
    BeginsMore(s, c, "con");
    BeginsMore(s, c, NameText(0));
    BeginsMore(s, c, NameText(2));
    SharedLetters(s, 0);
    SharedLetters(s, 2);
    if NameGoes(x, ch, c).hstate.HGeneral? {
      forall k | 0 <= k < 5 ensures !Begins(s + [c], NameText(k)) && !Found(s, k) {
        BeginsMore(s, c, NameText(k));
        SharedLetters(s, k);
      }
      LostNow(s, c);
    }
  }

  /** A name that goes on behind a known one is lost. */
  lemma FitsBeyond(s: bytes, c: byte, k: nat)
    requires k < 5 && Found(s, k) && c != 32
    ensures Lost(s + [c])
  {
    hide NameText;
    var t := Strip(s);
    forall j | 0 <= j < 5 ensures !Begins(s + [c], NameText(j)) {
      if Begins(s + [c], NameText(j)) {
        hide Begins;
        BeginsMore(s, c, NameText(j));
        BeginsFront(s, |t|, NameText(j));
        OneName(t, j, k);
      }
    }
    hide Strip;
    LostNow(s, c);
  }

  lemma BeginsFront(s: bytes, n: nat, text: string)
    requires n <= |s| && Begins(s, text)
    ensures Begins(s[..n], text)
  {
  }

  lemma FitsFound(s: bytes, x: Scan, ch: byte, c: byte)
    requires Fits(s, x) && (c == 32 <==> ch == 32)
    requires x.hstate.HConnection? || x.hstate.HContentLength? || x.hstate.HTransferEncoding? || x.hstate.HUpgrade?
    ensures Fits(s + [c], NameGoes(x, ch, c))
  {
    hide NameText, Lost, Strip, Begins;
    StripMore(s, c);
    if c != 32 {
      var k := if x.hstate.HConnection? then (if Found(s, 0) then 0 else 1)
               else if x.hstate.HContentLength? then 2 else if x.hstate.HTransferEncoding? then 3 else 4;
      FitsBeyond(s, c, k);
    }
  }

  lemma NameTexts()
    ensures NameText(0) == "connection" && NameText(1) == "proxy-connection" && NameText(2) == "content-length"
    ensures NameText(3) == "transfer-encoding" && NameText(4) == "upgrade"
  {
  }

  lemma FitsGoes(s: bytes, x: Scan, ch: byte, c: byte)
    requires |s| >= 1 && Fits(s, x) && (c == 32 <==> ch == 32)
    ensures Fits(s + [c], NameGoes(x, ch, c))
  {
    hide Begins, Match, Lost, NameText, Found, Strip;
    NameTexts();
    match x.hstate
    case HGeneral => LostStays(s, c);
    case HC => FitsShared(s, x, ch, c);
    case HCO => FitsShared(s, x, ch, c);
    case HCON => FitsShared(s, x, ch, c);
    case HMatchConnection => FitsMatch(s, x, c, 0, HConnection);
    case HMatchProxyConnection => FitsMatch(s, x, c, 1, HConnection);
    case HMatchContentLength => FitsMatch(s, x, c, 2, HContentLength);
    case HMatchTransferEncoding => FitsMatch(s, x, c, 3, HTransferEncoding);
    case HMatchUpgrade => FitsMatch(s, x, c, 4, HUpgrade);
    case _ => FitsFound(s, x, ch, c);
  }

  lemma TokenFolds(b: byte)
    requires Token(b) != 0
    ensures Token(b) == Fold(b) && (Fold(b) == 32 <==> b == 32)
  {
  }

  lemma FoldedMore(s: bytes)
    requires |s| >= 1
    ensures Folded(s) == Folded(s[..|s| - 1]) + [Fold(s[|s| - 1])]
  {
  }

  lemma {:induction false} FitsName(s: bytes)
    requires Tokens(s)
    ensures Fits(Folded(s), NameScan(s))
  {
    hide Fits, Token, Fold, NameGoes, NameBegins, Folded;
    var n := |s| - 1;
    TokenFolds(s[n]);
    FoldedMore(s);
    if n == 0 {
      assert s[..0] == [];
      assert Folded([]) == [];
      FitsFirst(Fold(s[0]));
      assert [] + [Fold(s[0])] == [Fold(s[0])];
    } else {
      FitsName(s[..n]);
      FitsGoes(Folded(s[..n]), NameScan(s[..n]), s[n], Fold(s[n]));
    }
  }

  lemma {:induction false} StripFolded(s: bytes)
    ensures Strip(Folded(s)) == Folded(Strip(s))
  {
    if |s| >= 1 && s[|s| - 1] == 32 {
      FoldedMore(s);
      StripFolded(s[..|s| - 1]);
      StripMore(Folded(s[..|s| - 1]), 32);
    } else if |s| >= 1 {
      FoldedMore(s);
    }
  }

  function FoundState(k: nat): HState {
    if k <= 1 then HConnection else if k == 2 then HContentLength else if k == 3 then HTransferEncoding else HUpgrade
  }

  /** Known names are found only as themselves. */
  lemma FoundOnly(s: bytes, x: Scan, k: nat)
    requires |s| >= 1 && Fits(s, x) && k < 5 && Found(s, k)
    ensures x.hstate == FoundState(k)
  {
    hide Begins, NameText;
    var t := Strip(s);
    forall j | 0 <= j < 5 && Found(s, j) ensures j == k { OneName(t, j, k); }
    if x.hstate.HMatchConnection? { NotFoundYet(s, 0, k); }
    else if x.hstate.HMatchProxyConnection? { NotFoundYet(s, 1, k); }
    else if x.hstate.HMatchContentLength? { NotFoundYet(s, 2, k); }
    else if x.hstate.HMatchTransferEncoding? { NotFoundYet(s, 3, k); }
    else if x.hstate.HMatchUpgrade? { NotFoundYet(s, 4, k); }
  }

  lemma SaysFound(s: bytes, k: nat)
    requires k < 5
    ensures Says(s, NameText(k)) <==> Found(Folded(s), k)
  {
    hide Strip, NameText;
    StripFolded(s);
  }

  /** The scanner recognises a name exactly if it is the known one but for case and spaces at the end. */
  lemma KnownName(s: bytes)
    requires IsName(s)
    ensures var h := NameScan(s).hstate;
            && (h.HConnection? <==> Says(s, "connection") || Says(s, "proxy-connection"))
            && (h.HContentLength? <==> Says(s, "content-length"))
            && (h.HTransferEncoding? <==> Says(s, "transfer-encoding"))
            && (h.HUpgrade? <==> Says(s, "upgrade"))
  {
    hide Begins, Folded, NameScan, NameText, Found, Says, Token, NameByte;
    NameTokens(s);
    var t, x := Folded(s), NameScan(s);
    FitsName(s);
    NameTexts();
    forall k | 0 <= k < 5 ensures Says(s, NameText(k)) <==> Found(t, k) { SaysFound(s, k); }
    if Found(t, 0) { FoundOnly(t, x, 0); }
    if Found(t, 1) { FoundOnly(t, x, 1); }
    if Found(t, 2) { FoundOnly(t, x, 2); }
    if Found(t, 3) { FoundOnly(t, x, 3); }
    if Found(t, 4) { FoundOnly(t, x, 4); }
  }

  // ----- values -----

  predicate IsValue(s: bytes) {
    && (|s| >= 1 ==> s[0] != 32)
    && forall i :: 0 <= i < |s| ==> s[i] != CR && s[i] != LF
  }

  /** A name or a value says the text: equal but for case and spaces at the end. */
  predicate Says(s: bytes, text: string) { Same(Strip(s), text) }

  /** The scanner after a value of a header of which the name scanner said h. */
  function ValueScan(h: HState, s: bytes): Scan
    requires |s| >= 1
  {
    var n := |s| - 1;
    if n == 0 then Scan(ValueBegins(h, Lower(s[0])), 0) else ValueGoes(ValueScan(h, s[..n]), s[n], Lower(s[n]))
  }

  /** The value neither says the text nor can come to say it. */
  predicate Off(s: bytes, text: string) { !Begins(Folded(s), text) && !Says(s, text) }

  predicate FitsValue(h: HState, s: bytes, x: Scan) {
    match x.hstate
    case HGeneral => (h.HTransferEncoding? ==> Off(s, "chunked"))
                     && (h.HConnection? ==> Off(s, "keep-alive") && Off(s, "close"))
                     && !h.HContentLength?
    case HContentLength => h.HContentLength?
    case HMatchChunked => h.HTransferEncoding? && Matching(Folded(s), x, "chunked")
    case HMatchKeepAlive => h.HConnection? && Matching(Folded(s), x, "keep-alive")
    case HMatchClose => h.HConnection? && Matching(Folded(s), x, "close")
    case HChunked => h.HTransferEncoding? && Says(s, "chunked")
    case HKeepAlive => h.HConnection? && Says(s, "keep-alive")
    case HClose => h.HConnection? && Says(s, "close")
    case _ => false
  }

  predicate LowerText(text: string) { forall i :: 0 <= i < |text| ==> text[i] == '-' || 'a' <= text[i] <= 'z' }

  /** Setting bit 5 finds a letter, or a hyphen, exactly in its two cases. */
  lemma LowerFolds(text: string, i: nat, ch: byte)
    requires LowerText(text) && ch != CR
    ensures CharAt(text, i, Lower(ch)) <==> CharAt(text, i, Fold(ch))
    ensures CharAt(text, i, Fold(ch)) ==> ch != 32
  {
  }

  lemma FoldedSnoc(s: bytes, ch: byte)
    ensures Folded(s + [ch]) == Folded(s) + [Fold(ch)]
  {
  }

  /** A text that the value has left stays left. */
  lemma OffStays(s: bytes, ch: byte, text: string)
    requires Off(s, text)
    ensures Off(s + [ch], text)
  {
    hide Begins, Folded, Fold;
    StripMore(s, ch);
    FoldedSnoc(s, ch);
    BeginsMore(Folded(s), Fold(ch), text);
  }

  /** A value that differs from the text so far and is shorter than it. */
  lemma OffNow(s: bytes, ch: byte, text: string)
    requires |s| < |text| && !CharAt(text, |s|, Fold(ch))
    ensures Off(s + [ch], text)
  {
    hide Begins, Folded, Fold;
    StripMore(s, ch);
    FoldedSnoc(s, ch);
    BeginsMore(Folded(s), Fold(ch), text);
  }

  /** A value that goes on behind the text. */
  lemma OffBeyond(s: bytes, ch: byte, text: string)
    requires Says(s, text) && ch != 32
    ensures Off(s + [ch], text)
  {
    hide Fold;
    StripMore(s, ch);
  }

  /** A value that begins unlike the text. */
  lemma OffFirst(s: bytes, text: string)
    requires |s| >= 1 && s[0] != 32 && |text| >= 1 && Fold(s[0]) != text[0] as int
    ensures Off(s, text)
  {
    assert Folded(s)[0] == Fold(s[0]);
    assert Folded(Strip(s))[0] == Fold(s[0]);
  }

  lemma SaysNow(s: bytes, ch: byte, text: string)
    requires LowerText(text) && Begins(Folded(s), text) && CharAt(text, |s|, Fold(ch)) && |text| == |s| + 1
    ensures Says(s + [ch], text)
  {
    hide Begins, Folded, Fold, LowerText, CharAt;
    assert ch != 32 by { assert CharAt(text, |s|, Fold(ch)); NotSpace(text, |s|, ch); }
    StripMore(s, ch);
    FoldedSnoc(s, ch);
    BeginsMore(Folded(s), Fold(ch), text);
  }

  lemma NotSpace(text: string, i: nat, ch: byte)
    requires LowerText(text) && CharAt(text, i, Fold(ch))
    ensures ch != 32
  {
  }

  /** One more byte of a value being matched. */
  lemma ValueMatch(s: bytes, x: Scan, ch: byte, text: string, found: HState)
    requires |text| >= 2 && LowerText(text) && ch != CR && Matching(Folded(s), x, text)
    ensures var y := Match(x, text, Lower(ch), found);
            || (y == Scan(HGeneral, x.index + 1) && Off(s + [ch], text))
            || (y == Scan(x.hstate, x.index + 1) && Matching(Folded(s + [ch]), y, text))
            || (y == Scan(found, x.index + 1) && Says(s + [ch], text))
  {
    hide Begins, Folded, Fold, Lower, CharAt, LowerText, Says, Off;
    LowerFolds(text, |s|, ch);
    if CharAt(text, |s|, Fold(ch)) {
      FoldedSnoc(s, ch);
      BeginsMore(Folded(s), Fold(ch), text);
      if |text| == |s| + 1 { SaysNow(s, ch, text); }
      else { InText(text, |s|, Fold(ch)); }
    } else {
      OffNow(s, ch, text);
    }
  }

  lemma MatchedFirst(s: bytes, x: Scan, text: string)
    requires |s| >= 1 && Matching(Folded(s), x, text)
    ensures Fold(s[0]) == text[0] as int
  {
    assert Folded(s)[0] == Fold(s[0]);
  }

  lemma SaidFirst(s: bytes, text: string)
    requires |s| >= 1 && s[0] != 32 && Says(s, text)
    ensures |text| >= 1 && Fold(s[0]) == text[0] as int
  {
    assert Folded(Strip(s))[0] == Fold(s[0]);
  }

  /** A value behind a text for the connection header is off the other one. */
  lemma OtherOff(s: bytes, ch: byte, text: string, other: string)
    requires |s| >= 1 && s[0] != 32 && |text| >= 1 && |other| >= 1 && text[0] != other[0]
    requires Fold(s[0]) == text[0] as int
    ensures Off(s + [ch], other)
  {
    hide Off, Fold;
    OffFirst(s + [ch], other);
  }

  lemma ValueFirst(h: HState, ch: byte)
    requires ch != CR && ch != 32
    ensures FitsValue(h, [ch], Scan(ValueBegins(h, Lower(ch)), 0))
  {
    hide Begins, Folded, Fold, Lower, Off, Says;
    assert [] + [ch] == [ch];
    EmptyBegins("chunked");
    EmptyBegins("keep-alive");
    EmptyBegins("close");
    FirstMatch(ch, "chunked");
    FirstMatch(ch, "keep-alive");
    FirstMatch(ch, "close");
  }

  lemma EmptyBegins(text: string)
    ensures Begins([], text) && Folded([]) == []
  {
  }

  lemma FirstMatch(ch: byte, text: string)
    requires |text| >= 2 && LowerText(text) && ch != CR && ch != 32
    ensures if Is(Lower(ch), text[0]) then Begins(Folded([ch]), text) else Off([ch], text)
  {
    hide Begins, Fold, Lower, LowerText;
    LowerFolds(text, 0, ch);
    if CharAt(text, 0, Fold(ch)) {
      assert Folded([ch]) == [Fold(ch)];
      BeginsOne(Fold(ch), text);
    } else {
      OffFirst([ch], text);
    }
  }

  lemma ConnectionMatch(h: HState, s: bytes, x: Scan, ch: byte)
    requires |s| >= 1 && s[0] != 32 && ch != CR && FitsValue(h, s, x)
    requires x.hstate.HMatchKeepAlive? || x.hstate.HMatchClose?
    ensures FitsValue(h, s + [ch], ValueGoes(x, ch, Lower(ch)))
  {
    hide Begins, Folded, Fold, Lower, Off, Says, Match, LowerText;
    KnownLower();
    if x.hstate.HMatchKeepAlive? {
      ValueMatch(s, x, ch, "keep-alive", HKeepAlive);
      MatchedFirst(s, x, "keep-alive");
      OtherOff(s, ch, "keep-alive", "close");
    } else {
      ValueMatch(s, x, ch, "close", HClose);
      MatchedFirst(s, x, "close");
      OtherOff(s, ch, "close", "keep-alive");
    }
  }

  lemma KnownLower()
    ensures LowerText("chunked") && LowerText("keep-alive") && LowerText("close")
  {
  }

  lemma SaysStays(s: bytes, text: string)
    requires Says(s, text)
    ensures Says(s + [32], text)
  {
    StripMore(s, 32);
  }

  lemma ConnectionBeyond(h: HState, s: bytes, x: Scan, ch: byte)
    requires |s| >= 1 && s[0] != 32 && FitsValue(h, s, x)
    requires x.hstate.HKeepAlive? || x.hstate.HClose?
    ensures FitsValue(h, s + [ch], ValueGoes(x, ch, Lower(ch)))
  {
    hide Begins, Folded, Fold, Lower, Off, Says, Match, LowerText;
    var text := if x.hstate.HKeepAlive? then "keep-alive" else "close";
    var other := if x.hstate.HKeepAlive? then "close" else "keep-alive";
    if ch == 32 {
      SaysStays(s, text);
    } else {
      SaidFirst(s, text);
      OffBeyond(s, ch, text);
      OtherOff(s, ch, text, other);
    }
  }

  lemma ValueFits(h: HState, s: bytes, x: Scan, ch: byte)
    requires |s| >= 1 && s[0] != 32 && ch != CR && FitsValue(h, s, x)
    ensures FitsValue(h, s + [ch], ValueGoes(x, ch, Lower(ch)))
  {
    hide Begins, Folded, Fold, Lower, Off, Says, Match, LowerText;
    match x.hstate
    case HGeneral =>
      if h.HTransferEncoding? { OffStays(s, ch, "chunked"); }
      if h.HConnection? { OffStays(s, ch, "keep-alive"); OffStays(s, ch, "close"); }
    case HMatchChunked => KnownLower(); ValueMatch(s, x, ch, "chunked", HChunked);
    case HMatchKeepAlive => ConnectionMatch(h, s, x, ch);
    case HMatchClose => ConnectionMatch(h, s, x, ch);
    case HChunked => if ch == 32 { SaysStays(s, "chunked"); } else { OffBeyond(s, ch, "chunked"); }
    case HKeepAlive => ConnectionBeyond(h, s, x, ch);
    case HClose => ConnectionBeyond(h, s, x, ch);
    case _ =>
  }

  lemma ValueScanMore(h: HState, s: bytes, i: nat)
    requires 1 <= i < |s|
    ensures ValueScan(h, s[..i + 1]) == ValueGoes(ValueScan(h, s[..i]), s[i], Lower(s[i]))
    ensures ValueScan(h, s[..i]).hstate.HContentLength? ==> ValueScan(h, s[..i + 1]) == ValueScan(h, s[..i])
  {
    hide Lower, Match;
    assert s[..i + 1][..i] == s[..i];
  }

  lemma {:induction false} FitsValues(h: HState, s: bytes, i: nat)
    requires 1 <= i <= |s| && IsValue(s)
    ensures FitsValue(h, s[..i], ValueScan(h, s[..i]))
  {
    hide FitsValue, Lower, ValueGoes, ValueBegins, ValueScan;
    var ch := s[i - 1];
    assert ch != CR;
    if i == 1 {
      assert s[..1] == [ch];
      ValueFirst(h, ch);
      ValueScanOne(h, ch);
    } else {
      FitsValues(h, s, i - 1);
      ValueScanMore(h, s, i - 1);
      ValueFits(h, s[..i - 1], ValueScan(h, s[..i - 1]), ch);
      assert s[..i] == s[..i - 1] + [ch];
    }
  }

  lemma ValueScanOne(h: HState, ch: byte)
    ensures ValueScan(h, [ch]) == Scan(ValueBegins(h, Lower(ch)), 0)
  {
  }

  /** The scanner recognises a value exactly if it says the text under the right header. */
  lemma KnownValue(h: HState, s: bytes)
    requires |s| >= 1 && IsValue(s)
    ensures var y := ValueScan(h, s).hstate;
            && (y.HChunked? <==> h.HTransferEncoding? && Says(s, "chunked"))
            && (y.HKeepAlive? <==> h.HConnection? && Says(s, "keep-alive"))
            && (y.HClose? <==> h.HConnection? && Says(s, "close"))
            && (y.HContentLength? <==> h.HContentLength?)
  {
    hide Begins, Folded, Fold, ValueScan;
    assert s[..|s|] == s;
    FitsValues(h, s, |s|);
    Exclusive(s, "keep-alive", "close");
    var x := ValueScan(h, s);
    if Says(s, "chunked") && Matching(Folded(s), x, "chunked") { NotYet(s, x, "chunked"); }
    if Says(s, "keep-alive") && x.hstate.HMatchKeepAlive? { NotYet(s, x, "keep-alive"); }
    if Says(s, "close") && x.hstate.HMatchClose? { NotYet(s, x, "close"); }
    if Says(s, "keep-alive") && x.hstate.HMatchClose? { SaidFirst(s, "keep-alive"); MatchedFirst(s, x, "close"); }
    if Says(s, "close") && x.hstate.HMatchKeepAlive? { SaidFirst(s, "close"); MatchedFirst(s, x, "keep-alive"); }
  }

  /** Both texts cannot be said. */
  lemma Exclusive(s: bytes, a: string, b: string)
    requires |s| >= 1 && s[0] != 32 && |a| >= 1 && |b| >= 1 && a[0] != b[0]
    ensures !(Says(s, a) && Says(s, b))
  {
    hide Says;
    if Says(s, a) && Says(s, b) {
      SaidFirst(s, a);
      SaidFirst(s, b);
    }
  }

  /** A text being matched has not been said. */
  lemma NotYet(s: bytes, x: Scan, text: string)
    requires Matching(Folded(s), x, text)
    ensures !Says(s, text)
  {
  }

  // ----- the line -----

  /** A header, the number of spaces before its value, and whether its line ends in a bare line feed. */
  datatype Header = Header(name: bytes, value: bytes, gap: nat, bare: bool)

  /** Digits and spaces, which do not count. */
  predicate Numeric(s: bytes) { forall i :: 0 <= i < |s| ==> IsDigit(s[i]) || s[i] == 32 }

  function NumberOf(s: bytes): nat
    requires Numeric(s)
  {
    var n := |s| - 1;
    if s == [] then 0
    else if s[n] == 32 then NumberOf(s[..n])
    else
      assert IsDigit(s[n]);
      10 * NumberOf(s[..n]) + (s[n] - ZERO)
  }

  predicate IsHeader(h: Header) {
    IsName(h.name) && IsValue(h.value) && (Says(h.name, "content-length") ==> Numeric(h.value))
  }

  const COLON: bytes := [58]

  function HeaderText(h: Header): bytes { h.name + COLON + Spaces(h.gap) + h.value + Eol(h.bare) }

  /** What a header says about the framing and the life of the connection. */
  function FlagsAfter(f: Flags, h: Header): Flags {
    if h.value == [] then f
    else if Says(h.name, "upgrade") then f.(upgrade := true)
    else if Says(h.name, "transfer-encoding") && Says(h.value, "chunked") then f.(chunked := true)
    else if (Says(h.name, "connection") || Says(h.name, "proxy-connection")) && Says(h.value, "keep-alive")
      then f.(keepAlive := true)
    else if (Says(h.name, "connection") || Says(h.name, "proxy-connection")) && Says(h.value, "close")
      then f.(close := true)
    else f
  }

  function LengthAfter(n: int, h: Header): int {
    if h.value != [] && Says(h.name, "content-length") && Numeric(h.value) then NumberOf(h.value) else n
  }

  predicate HeaderState(s: State) {
    s.HeaderFieldStart? || s.HeaderField? || s.HeaderValueStart? || s.HeaderValue? || s.HeaderAlmostDone?
  }

  /** Header bytes concern only the main list. */
  lemma HeaderSpans(o: Observed, s: State, ch: byte, s': State)
    requires HeaderState(s) && HeaderState(s')
    ensures Spans(o, s, ch, s') == o.(main := Span(Span(o.main, KField, s, ch, s'), KValue, s, ch, s'))
  {
    hide Push;
  }

  /** The observer o with the name and the value read so far. */
  function HeaderSeen(o: Observed, name: Option<bytes>, value: Option<bytes>): Observed {
    o.(main := Add(Add(o.main, KField, name), KValue, value))
  }

  lemma NameSpans(o: Observed, x: Option<bytes>, s: State, ch: byte)
    requires !Ends(o.main, KField) && ((s.HeaderFieldStart? && x == None) || (s.HeaderField? && x.Some?))
    ensures Spans(HeaderSeen(o, x, None), s, ch, HeaderField) == HeaderSeen(o, Grow(x, true, ch), None)
  {
    hide Push, Ends;
    HeaderSpans(HeaderSeen(o, x, None), s, ch, HeaderField);
    SpanAdd(o.main, KField, x, s, ch, HeaderField);
  }

  lemma ColonSpans(o: Observed, x: bytes, ch: byte)
    requires !Ends(o.main, KField)
    ensures Spans(HeaderSeen(o, Some(x), None), HeaderField, ch, HeaderValueStart) == HeaderSeen(o, Some(x), None)
  {
    hide Push, Ends;
    HeaderSpans(HeaderSeen(o, Some(x), None), HeaderField, ch, HeaderValueStart);
    SpanAdd(o.main, KField, Some(x), HeaderField, ch, HeaderValueStart);
  }

  lemma ValueSpans(o: Observed, x: bytes, y: Option<bytes>, s: State, ch: byte, s': State)
    requires (s.HeaderValueStart? && y == None) || (s.HeaderValue? && y.Some?)
    requires s'.HeaderValue? || ((s'.HeaderAlmostDone? || s'.HeaderFieldStart?) && s.HeaderValue?)
    requires s.HeaderValueStart? ==> ch != CR && ch != LF
    ensures Spans(HeaderSeen(o, Some(x), y), s, ch, s') == HeaderSeen(o, Some(x), Grow(y, s'.HeaderValue?, ch))
  {
    hide Push;
    HeaderSpans(HeaderSeen(o, Some(x), y), s, ch, s');
    SpanAdd(Add(o.main, KField, Some(x)), KValue, y, s, ch, s');
  }

  lemma EmptySpans(o: Observed, x: bytes, ch: byte, s': State)
    requires (ch == CR && s'.HeaderAlmostDone?) || (ch == LF && s'.HeaderFieldStart?)
    ensures Spans(HeaderSeen(o, Some(x), None), HeaderValueStart, ch, s') == HeaderSeen(o, Some(x), Some([]))
  {
    HeaderSpans(HeaderSeen(o, Some(x), None), HeaderValueStart, ch, s');
  }

  /** A byte of a name or a value. */
  lemma ReadsHeaderByte(p: Parser, o: Observed, ch: byte, q: Parser, o': Observed)
    requires Room(p, 1) && (p.state.HeaderField? || p.state.HeaderValueStart? || p.state.HeaderValue?)
    requires var r := Switch(p.(nread := p.nread + 1), ch); r.Go? && r.st == q
    requires Spans(o, p.state, ch, q.state) == o'
    ensures Reads(p, o, [ch], q, o')
  {
    hide Reads, Switch, Spans, Agrees, Controls;
    var p' := p.(nread := p.nread + 1);
    HeaderAgrees(p', ch);
    var acts := Switch(p', ch).acts;
    AgreesSpans(acts, p.state, ch, q.state);
    NoControls(o, acts);
    ReadsByte(p, o, ch, q, acts, o');
  }

  /** The parser i bytes into a name that began at p. */
  function InName(p: Parser, s: bytes, i: nat): Parser
    requires 1 <= i <= |s|
  {
    p.(state := HeaderField, scan := NameScan(s[..i]), nread := p.nread + i)
  }

  lemma SwitchFirst(p: Parser, ch: byte)
    requires p.state == HeaderFieldStart && Token(ch) != 0
    ensures Switch(p, ch) == Go(p.(state := HeaderField, scan := Scan(NameBegins(Token(ch)), 0)), [Mark(KField)])
  {
    hide NameBegins;
  }

  lemma MarkControls(o: Observed, k: Kind)
    ensures Controls(o, [Mark(k)]) == o
  {
    assert [Mark(k)][1..] == [];
  }

  lemma NameScanOne(s: bytes)
    requires |s| >= 1
    ensures NameScan(s[..1]) == Scan(NameBegins(Token(s[0])), 0)
  {
  }

  lemma ReadsNameFirst(p: Parser, o: Observed, s: bytes)
    requires p.state == HeaderFieldStart && Room(p, 1) && Tokens(s) && !Ends(o.main, KField)
    ensures Reads(p, o, s[..1], InName(p, s, 1), HeaderSeen(o, Some(s[..1]), None))
  {
    hide Reads, Spans, NameBegins, Ends, Switch, Token, NameScan, Controls;
    var ch := s[0];
    assert Token(ch) != 0;
    NameSpans(o, None, HeaderFieldStart, ch);
    assert [] + [ch] == [ch] && s[..1] == [ch];
    MarkControls(o, KField);
    NameScanOne(s);
    assert HeaderSeen(o, None, None) == o;
    SwitchFirst(p.(nread := p.nread + 1), ch);
    ReadsByte(p, o, ch, InName(p, s, 1), [Mark(KField)], HeaderSeen(o, Some(s[..1]), None));
  }

  lemma NameScanMore(s: bytes, i: nat)
    requires 1 <= i < |s|
    ensures NameScan(s[..i + 1]) == NameGoes(NameScan(s[..i]), s[i], Token(s[i]))
  {
    assert s[..i + 1][..i] == s[..i];
  }

  lemma ReadsNameByte(p: Parser, o: Observed, s: bytes, i: nat)
    requires !p.flags.trailing && p.nread + i + 1 <= 81920 && Tokens(s) && 1 <= i < |s|
    requires !Ends(o.main, KField)
    ensures Reads(InName(p, s, i), HeaderSeen(o, Some(s[..i]), None), [s[i]],
                  InName(p, s, i + 1), HeaderSeen(o, Some(s[..i + 1]), None))
  {
    hide Reads, Spans, NameGoes, NameScan, Ends, HeaderSeen;
    assert Token(s[i]) != 0;
    NameSpans(o, Some(s[..i]), HeaderField, s[i]);
    assert s[..i] + [s[i]] == s[..i + 1];
    NameScanMore(s, i);
    ReadsHeaderByte(InName(p, s, i), HeaderSeen(o, Some(s[..i]), None), s[i], InName(p, s, i + 1),
                    HeaderSeen(o, Some(s[..i + 1]), None));
  }

  lemma {:induction false} ReadsName(p: Parser, o: Observed, s: bytes, i: nat)
    requires p.state == HeaderFieldStart && Room(p, i) && Tokens(s) && 1 <= i <= |s| && !Ends(o.main, KField)
    ensures Reads(p, o, s[..i], InName(p, s, i), HeaderSeen(o, Some(s[..i]), None))
  {
    hide Reads, InName, HeaderSeen, Ends;
    if i == 1 {
      ReadsNameFirst(p, o, s);
    } else {
      ReadsName(p, o, s, i - 1);
      ReadsNameByte(p, o, s, i - 1);
      Then(p, o, s[..i - 1], InName(p, s, i - 1), HeaderSeen(o, Some(s[..i - 1]), None),
           [s[i - 1]], InName(p, s, i), HeaderSeen(o, Some(s[..i]), None));
      assert s[..i - 1] + [s[i - 1]] == s[..i];
    }
  }

  /** The parser behind the colon and k spaces. */
  function BeforeValue(p: Parser, s: bytes, k: nat): Parser
    requires |s| >= 1
  {
    p.(state := HeaderValueStart, scan := NameScan(s), nread := p.nread + |s| + 1 + k)
  }

  lemma SwitchColon(p: Parser)
    ensures p.state == HeaderField ==> Switch(p, 58) == Go(p.(state := HeaderValueStart), [Callback(KField)])
    ensures p.state == HeaderValueStart ==> Switch(p, 32) == Go(p, [])
  {
  }

  lemma ReadsColon(p: Parser, o: Observed, s: bytes)
    requires !p.flags.trailing && p.nread + |s| + 1 <= 81920 && |s| >= 1 && !Ends(o.main, KField)
    ensures Reads(InName(p, s, |s|), HeaderSeen(o, Some(s), None), COLON, BeforeValue(p, s, 0),
                  HeaderSeen(o, Some(s), None))
  {
    hide Reads, Spans, NameScan, Ends, HeaderSeen, Switch;
    var o' := HeaderSeen(o, Some(s), None);
    assert s[..|s|] == s;
    var p0, p1 := InName(p, s, |s|), BeforeValue(p, s, 0);
    ColonSpans(o, s, 58);
    SwitchColon(p0.(nread := p.nread + |s| + 1));
    ReadsHeaderByte(p0, o', 58, p1, o');
  }

  lemma {:induction false} ReadsGap(p: Parser, o: Observed, s: bytes, k: nat)
    requires !p.flags.trailing && p.nread + |s| + 1 + k <= 81920 && |s| >= 1
    ensures Reads(BeforeValue(p, s, 0), o, Spaces(k), BeforeValue(p, s, k), o)
  {
    hide Reads, NameScan, Switch;
    if k == 0 {
      ReadsNothing(BeforeValue(p, s, 0), o);
    } else {
      ReadsGap(p, o, s, k - 1);
      SwitchColon(BeforeValue(p, s, k));
      ReadsSilent(BeforeValue(p, s, k - 1), o, 32, BeforeValue(p, s, k));
      assert Spaces(k - 1) + SPACE == Spaces(k);
      Then(BeforeValue(p, s, 0), o, Spaces(k - 1), BeforeValue(p, s, k - 1), o, SPACE, BeforeValue(p, s, k), o);
    }
  }

  /** The parser i bytes into a value, given the parser q before it. */
  function InValue(q: Parser, s: bytes, i: nat): Parser
    requires 1 <= i <= |s|
  {
    q.(state := HeaderValue, scan := ValueScan(q.scan.hstate, s[..i]), nread := q.nread + i,
       flags := q.flags.(upgrade := q.flags.upgrade || q.scan.hstate.HUpgrade?),
       length := if q.scan.hstate.HContentLength? && Numeric(s) then NumberOf(s[..i]) else q.length)
  }

  /** A value fits what its header's name asks of it. */
  predicate Suits(q: Parser, s: bytes) { IsValue(s) && (q.scan.hstate.HContentLength? ==> Numeric(s)) }

  lemma SwitchValueFirst(q: Parser, ch: byte)
    requires q.state == HeaderValueStart && ch != 32 && ch != CR && ch != LF
    requires q.scan.hstate.HContentLength? ==> IsDigit(ch)
    ensures Switch(q, ch).Go?
    ensures Switch(q, ch).st ==
              q.(state := HeaderValue, scan := Scan(ValueBegins(q.scan.hstate, Lower(ch)), 0),
                 flags := q.flags.(upgrade := q.flags.upgrade || q.scan.hstate.HUpgrade?),
                 length := if q.scan.hstate.HContentLength? then ch - 48 else q.length)
  {
    hide ValueBegins, Lower, IsDigit;
  }

  lemma OneDigit(s: bytes)
    requires |s| >= 1 && Numeric(s) && s[0] != 32
    ensures IsDigit(s[0]) && NumberOf(s[..1]) == s[0] - 48
  {
    assert s[..1][..0] == [];
  }

  lemma MoreDigits(s: bytes, i: nat)
    requires i < |s| && Numeric(s)
    ensures IsDigit(s[i]) || s[i] == 32
    ensures NumberOf(s[..i + 1]) == if s[i] == 32 then NumberOf(s[..i]) else NumberOf(s[..i]) * 10 + (s[i] - 48)
  {
    assert s[..i + 1][..i] == s[..i];
  }

  lemma ReadsValueFirst(q: Parser, o: Observed, x: bytes, s: bytes)
    requires q.state == HeaderValueStart && Room(q, 1) && |s| >= 1 && Suits(q, s)
    ensures Reads(q, HeaderSeen(o, Some(x), None), s[..1], InValue(q, s, 1), HeaderSeen(o, Some(x), Some(s[..1])))
  {
    hide Reads, Spans, ValueBegins, Switch, HeaderSeen, Lower, Numeric, IsDigit, NumberOf;
    var ch := s[0];
    ValueSpans(o, x, None, HeaderValueStart, ch, HeaderValue);
    assert [] + [ch] == [ch] && s[..1] == [ch];
    if q.scan.hstate.HContentLength? { OneDigit(s); }
    SwitchValueFirst(q.(nread := q.nread + 1), ch);
    assert ValueScan(q.scan.hstate, s[..1]) == Scan(ValueBegins(q.scan.hstate, Lower(ch)), 0);
    ReadsHeaderByte(q, HeaderSeen(o, Some(x), None), ch, InValue(q, s, 1), HeaderSeen(o, Some(x), Some(s[..1])));
  }

  lemma SwitchValue(q: Parser, ch: byte)
    requires q.state == HeaderValue && ch != CR && ch != LF
    requires q.scan.hstate.HContentLength? ==> IsDigit(ch) || ch == 32
    ensures Switch(q, ch) == Go(if !q.scan.hstate.HContentLength? then q.(scan := ValueGoes(q.scan, ch, Lower(ch)))
                                else if ch == 32 then q else q.(length := q.length * 10 + (ch - 48)), [])
  {
    hide Lower, Match;
    if q.scan.hstate.HContentLength? { assert ValueGoes(q.scan, ch, Lower(ch)) == q.scan; }
  }

  lemma ReadsValueByte(q: Parser, o: Observed, x: bytes, s: bytes, i: nat)
    requires !q.flags.trailing && q.nread + i + 1 <= 81920 && 1 <= i < |s| && Suits(q, s)
    ensures Reads(InValue(q, s, i), HeaderSeen(o, Some(x), Some(s[..i])), [s[i]],
                  InValue(q, s, i + 1), HeaderSeen(o, Some(x), Some(s[..i + 1])))
  {
    hide Reads, Spans, ValueGoes, ValueScan, Switch, HeaderSeen, Lower, Numeric, IsDigit, NumberOf;
    var p, ch := InValue(q, s, i), s[i];
    KnownValue(q.scan.hstate, s[..i]);
    ValueScanMore(q.scan.hstate, s, i);
    if q.scan.hstate.HContentLength? { MoreDigits(s, i); }
    SwitchValue(p.(nread := p.nread + 1), ch);
    ValueSpans(o, x, Some(s[..i]), HeaderValue, ch, HeaderValue);
    assert s[..i] + [ch] == s[..i + 1];
    ReadsHeaderByte(p, HeaderSeen(o, Some(x), Some(s[..i])), ch, InValue(q, s, i + 1),
                    HeaderSeen(o, Some(x), Some(s[..i + 1])));
  }

  lemma {:induction false} ReadsValue(q: Parser, o: Observed, x: bytes, s: bytes, i: nat)
    requires q.state == HeaderValueStart && Room(q, i) && 1 <= i <= |s| && Suits(q, s)
    ensures Reads(q, HeaderSeen(o, Some(x), None), s[..i], InValue(q, s, i), HeaderSeen(o, Some(x), Some(s[..i])))
  {
    hide Reads, InValue, HeaderSeen, Suits;
    if i == 1 {
      ReadsValueFirst(q, o, x, s);
    } else {
      ReadsValue(q, o, x, s, i - 1);
      ReadsValueByte(q, o, x, s, i - 1);
      Then(q, HeaderSeen(o, Some(x), None), s[..i - 1], InValue(q, s, i - 1), HeaderSeen(o, Some(x), Some(s[..i - 1])),
           [s[i - 1]], InValue(q, s, i), HeaderSeen(o, Some(x), Some(s[..i])));
      assert s[..i - 1] + [s[i - 1]] == s[..i];
    }
  }

  lemma SameFlags(p: Parser, n: nat)
    ensures HeaderFlags(p.(nread := n)) == HeaderFlags(p)
    ensures HeaderFlags(p.(state := HeaderAlmostDone, nread := n)) == HeaderFlags(p)
  {
  }

  lemma SwitchLf(p: Parser)
    requires p.state == HeaderAlmostDone
    ensures Switch(p, LF) == Go(p.(state := HeaderFieldStart, flags := HeaderFlags(p)), [])
  {
    hide HeaderFlags;
  }

  /** The line end behind a value. */
  lemma ReadsHeaderLf(p: Parser, o: Observed)
    requires p.state == HeaderAlmostDone && Room(p, 1)
    ensures Reads(p, o, [LF], p.(state := HeaderFieldStart, flags := HeaderFlags(p), nread := p.nread + 1), o)
  {
    hide Reads, HeaderFlags, Switch;
    var p' := p.(nread := p.nread + 1);
    SameFlags(p, p.nread + 1);
    SwitchLf(p');
    ReadsSilent(p, o, LF, p'.(state := HeaderFieldStart, flags := HeaderFlags(p)));
  }

  lemma SwitchCr(p: Parser)
    requires p.state == HeaderValue
    ensures Switch(p, CR) == Go(p.(state := HeaderAlmostDone), [Callback(KValue)])
  {
  }

  lemma SwitchBare(p: Parser)
    requires p.state == HeaderValue
    ensures Switch(p, LF) == Go(p.(state := HeaderFieldStart, flags := HeaderFlags(p)), [Callback(KValue)])
  {
    hide HeaderFlags;
  }

  lemma ReadsValueEnd(p: Parser, o: Observed, x: bytes, s: bytes, bare: bool)
    requires p.state == HeaderValue && Room(p, |Eol(bare)|)
    ensures Reads(p, HeaderSeen(o, Some(x), Some(s)), Eol(bare),
                  p.(state := HeaderFieldStart, flags := HeaderFlags(p), nread := p.nread + |Eol(bare)|),
                  HeaderSeen(o, Some(x), Some(s)))
  {
    hide Reads, HeaderFlags, Spans, HeaderSeen, Switch;
    var o' := HeaderSeen(o, Some(x), Some(s));
    SameFlags(p, p.nread + 1);
    if bare {
      ValueSpans(o, x, Some(s), HeaderValue, LF, HeaderFieldStart);
      SwitchBare(p.(nread := p.nread + 1));
      ReadsHeaderByte(p, o', LF, p.(state := HeaderFieldStart, flags := HeaderFlags(p), nread := p.nread + 1), o');
    } else {
      var p1 := p.(state := HeaderAlmostDone, nread := p.nread + 1);
      ValueSpans(o, x, Some(s), HeaderValue, CR, HeaderAlmostDone);
      SwitchCr(p.(nread := p.nread + 1));
      ReadsHeaderByte(p, o', CR, p1, o');
      ReadsHeaderLf(p1, o');
      assert [CR] + [LF] == CRLF;
      Then(p, o', [CR], p1, o', [LF], p.(state := HeaderFieldStart, flags := HeaderFlags(p), nread := p.nread + 2), o');
    }
  }

  lemma SwitchEmpty(q: Parser)
    requires q.state == HeaderValueStart
    ensures Switch(q, CR).Go? && Switch(q, CR).st == q.(state := HeaderAlmostDone, scan := Scan(HGeneral, 0))
    ensures Switch(q, LF).Go? && Switch(q, LF).st == q.(state := HeaderFieldStart, scan := Scan(q.scan.hstate, 0))
  {
  }

  /** The scanner behind an empty value. */
  function EmptyScan(h: HState, bare: bool): Scan { Scan(if bare then h else HGeneral, 0) }

  lemma ReadsEmptyValue(q: Parser, o: Observed, x: bytes, bare: bool)
    requires q.state == HeaderValueStart && Room(q, |Eol(bare)|)
    ensures Reads(q, HeaderSeen(o, Some(x), None), Eol(bare),
                  q.(state := HeaderFieldStart, scan := EmptyScan(q.scan.hstate, bare), nread := q.nread + |Eol(bare)|),
                  HeaderSeen(o, Some(x), Some([])))
  {
    hide Reads, Spans, HeaderSeen, Switch;
    var o1, o2 := HeaderSeen(o, Some(x), None), HeaderSeen(o, Some(x), Some([]));
    SwitchEmpty(q.(nread := q.nread + 1));
    if bare {
      EmptySpans(o, x, LF, HeaderFieldStart);
      ReadsHeaderByte(q, o1, LF,
                      q.(state := HeaderFieldStart, scan := EmptyScan(q.scan.hstate, bare), nread := q.nread + 1), o2);
    } else {
      var p1 := q.(state := HeaderAlmostDone, scan := Scan(HGeneral, 0), nread := q.nread + 1);
      EmptySpans(o, x, CR, HeaderAlmostDone);
      ReadsHeaderByte(q, o1, CR, p1, o2);
      ReadsHeaderLf(p1, o2);
      assert [CR] + [LF] == CRLF;
      Then(q, o1, [CR], p1, o2, [LF], q.(state := HeaderFieldStart, scan := Scan(HGeneral, 0), nread := q.nread + 2),
           o2);
    }
  }

  /** The scanner behind a header line; it is set anew before it is read again. */
  function ScanAfter(h: Header): Scan
    requires IsHeader(h)
  {
    if h.value == [] then EmptyScan(NameScan(h.name).hstate, h.bare) else ValueScan(NameScan(h.name).hstate, h.value)
  }

  function AfterHeader(p: Parser, h: Header): Parser
    requires IsHeader(h)
  {
    p.(scan := ScanAfter(h), nread := p.nread + |HeaderText(h)|, flags := FlagsAfter(p.flags, h),
       length := LengthAfter(p.length, h))
  }

  /** What the scanners recognised is what the header says. */
  lemma HeaderMeans(p: Parser, h: Header)
    requires IsHeader(h) && h.value != []
    ensures var q := InValue(BeforeValue(p, h.name, h.gap), h.value, |h.value|);
            && Suits(BeforeValue(p, h.name, h.gap), h.value)
            && q.scan == ScanAfter(h) && HeaderFlags(q) == FlagsAfter(p.flags, h)
            && q.length == LengthAfter(p.length, h)
  {
    hide NameScan, ValueScan, Says, IsName, Numeric, NumberOf;
    assert h.value[..|h.value|] == h.value;
    assert |h.name| >= 1 by { NameLong(h.name); }
    hide Same;
    KnownName(h.name);
    KnownValue(NameScan(h.name).hstate, h.value);
    Exclusive(h.value, "keep-alive", "close");
    NamesApart(h.name);
  }

  lemma NameLong(s: bytes)
    requires IsName(s)
    ensures |s| >= 1
  {
  }

  /** The known names are different. */
  lemma NamesApart(s: bytes)
    ensures Says(s, "upgrade") ==> !Says(s, "transfer-encoding") && !Says(s, "content-length")
                                   && !Says(s, "connection") && !Says(s, "proxy-connection")
    ensures Says(s, "transfer-encoding") ==>
              !Says(s, "content-length") && !Says(s, "connection") && !Says(s, "proxy-connection")
    ensures Says(s, "content-length") ==> !Says(s, "connection") && !Says(s, "proxy-connection")
  {
    hide Strip;
  }

  /** Every header line is read back, and means what it says. */
  lemma ReadsHeader(p: Parser, o: Observed, h: Header)
    requires p.state == HeaderFieldStart && Room(p, |HeaderText(h)|) && IsHeader(h) && !Ends(o.main, KField)
    ensures Reads(p, o, HeaderText(h), AfterHeader(p, h), HeaderSeen(o, Some(h.name), Some(h.value)))
  {
    hide Reads, NameScan, ValueScan, HeaderSeen, Ends, HeaderFlags, FlagsAfter, LengthAfter, Suits, IsValue, ScanAfter;
    var s, v, g, e := h.name, h.value, Spaces(h.gap), Eol(h.bare);
    var o1, o2 := HeaderSeen(o, Some(s), None), HeaderSeen(o, Some(s), Some(v));
    var q := BeforeValue(p, s, h.gap);
    ReadsName(p, o, s, |s|);
    assert s[..|s|] == s && v[..|v|] == v;
    ReadsColon(p, o, s);
    Then(p, o, s, InName(p, s, |s|), o1, COLON, BeforeValue(p, s, 0), o1);
    ReadsGap(p, o1, s, h.gap);
    Then(p, o, s + COLON, BeforeValue(p, s, 0), o1, g, q, o1);
    if v == [] {
      ReadsEmptyValue(q, o, s, h.bare);
      EmptyMeans(p, h);
      assert s + COLON + g + e == HeaderText(h);
      Then(p, o, s + COLON + g, q, o1, e, AfterHeader(p, h), o2);
    } else {
      var q' := InValue(q, v, |v|);
      HeaderMeans(p, h);
      ReadsValue(q, o, s, v, |v|);
      Then(p, o, s + COLON + g, q, o1, v, q', o2);
      ReadsValueEnd(q', o, s, v, h.bare);
      Then(p, o, s + COLON + g + v, q', o2, e, AfterHeader(p, h), o2);
    }
  }

  lemma EmptyMeans(p: Parser, h: Header)
    requires IsHeader(h) && h.value == []
    ensures ScanAfter(h) == EmptyScan(NameScan(h.name).hstate, h.bare)
    ensures FlagsAfter(p.flags, h) == p.flags && LengthAfter(p.length, h) == p.length
  {
  }

  // ----- all the headers -----

  predicate AreHeaders(hs: seq<Header>) { forall i :: 0 <= i < |hs| ==> IsHeader(hs[i]) }

  function HeadersText(hs: seq<Header>): bytes {
    if hs == [] then [] else HeaderText(hs[0]) + HeadersText(hs[1..])
  }

  function AfterHeaders(p: Parser, hs: seq<Header>): Parser
    requires AreHeaders(hs)
    decreases |hs|
  {
    if hs == [] then p else AfterHeaders(AfterHeader(p, hs[0]), hs[1..])
  }

  function HeaderItems(hs: seq<Header>): seq<Item> {
    if hs == [] then [] else [Piece(KField, hs[0].name), Piece(KValue, hs[0].value)] + HeaderItems(hs[1..])
  }

  lemma HeaderSeenIs(o: Observed, h: Header)
    ensures HeaderSeen(o, Some(h.name), Some(h.value)) ==
              o.(main := o.main + [Piece(KField, h.name), Piece(KValue, h.value)])
    ensures !Ends(HeaderSeen(o, Some(h.name), Some(h.value)).main, KField)
  {
  }

  /** The observer after headers hs. */
  function HeadersSeen(o: Observed, hs: seq<Header>): Observed { o.(main := o.main + HeaderItems(hs)) }

  lemma HeadersNext(p: Parser, hs: seq<Header>)
    requires hs != [] && AreHeaders(hs)
    ensures HeadersText(hs) == HeaderText(hs[0]) + HeadersText(hs[1..])
    ensures AfterHeaders(p, hs) == AfterHeaders(AfterHeader(p, hs[0]), hs[1..])
  {
    hide HeaderText, AfterHeader, IsHeader;
  }

  lemma SeenNext(o: Observed, hs: seq<Header>)
    requires hs != []
    ensures HeadersSeen(o, hs) == HeadersSeen(HeaderSeen(o, Some(hs[0].name), Some(hs[0].value)), hs[1..])
    ensures !Ends(HeaderSeen(o, Some(hs[0].name), Some(hs[0].value)).main, KField)
  {
    hide HeaderSeen, Ends;
    HeaderSeenIs(o, hs[0]);
    var now := [Piece(KField, hs[0].name), Piece(KValue, hs[0].value)];
    assert o.main + now + HeaderItems(hs[1..]) == o.main + (now + HeaderItems(hs[1..]));
  }

  lemma HeadersNone(p: Parser, o: Observed)
    ensures HeadersText([]) == [] && AfterHeaders(p, []) == p && HeadersSeen(o, []) == o
  {
    assert o.main + [] == o.main;
  }

  /** Every list of header lines is read back in order. */
  lemma {:induction false} ReadsHeaders(p: Parser, o: Observed, hs: seq<Header>)
    requires p.state == HeaderFieldStart && Room(p, |HeadersText(hs)|) && AreHeaders(hs) && !Ends(o.main, KField)
    ensures Reads(p, o, HeadersText(hs), AfterHeaders(p, hs), HeadersSeen(o, hs))
    decreases |hs|
  {
    hide Reads, HeaderText, HeadersText, HeaderSeen, HeadersSeen, Ends, AfterHeader, AfterHeaders, IsHeader;
    if hs == [] {
      ReadsNothing(p, o);
      HeadersNone(p, o);
    } else {
      var h, p' := hs[0], AfterHeader(p, hs[0]);
      var o' := HeaderSeen(o, Some(h.name), Some(h.value));
      HeadersNext(p, hs);
      SeenNext(o, hs);
      ReadsHeader(p, o, h);
      HeaderRoom(p, h, |HeadersText(hs[1..])|);
      ReadsHeaders(p', o', hs[1..]);
      Then(p, o, HeaderText(h), p', o', HeadersText(hs[1..]), AfterHeaders(p, hs), HeadersSeen(o, hs));
    }
  }

  lemma HeaderRoom(p: Parser, h: Header, n: nat)
    requires p.state == HeaderFieldStart && IsHeader(h) && Room(p, |HeaderText(h)| + n)
    ensures AfterHeader(p, h).state == HeaderFieldStart && Room(AfterHeader(p, h), n)
  {
    hide Same, Says;
  }

  /** What all the headers say together. */
  function FlagsOf(f: Flags, hs: seq<Header>): Flags
    decreases |hs|
  {
    if hs == [] then f else FlagsOf(FlagsAfter(f, hs[0]), hs[1..])
  }

  function LengthOf(n: int, hs: seq<Header>): int
    decreases |hs|
  {
    if hs == [] then n else LengthOf(LengthAfter(n, hs[0]), hs[1..])
  }

  lemma {:induction false} HeadersMean(p: Parser, hs: seq<Header>)
    requires AreHeaders(hs)
    ensures var q := AfterHeaders(p, hs);
            q == p.(scan := q.scan, nread := p.nread + |HeadersText(hs)|,
                    flags := FlagsOf(p.flags, hs), length := LengthOf(p.length, hs))
            && q.flags.trailing == p.flags.trailing
    decreases |hs|
  {
    hide HeaderText, FlagsAfter, LengthAfter, IsHeader, ScanAfter;
    if hs != [] {
      HeadersMean(AfterHeader(p, hs[0]), hs[1..]);
      HeadersNext(p, hs);
      FlagsKeep(p.flags, hs[0]);
    }
  }

  lemma FlagsKeep(f: Flags, h: Header)
    ensures FlagsAfter(f, h).trailing == f.trailing
  {
  }
}
