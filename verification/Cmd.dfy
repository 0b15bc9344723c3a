/**
 A request path turned into a Redis command by cmd_run of src/cmd.c: the query cut off, the
 extension recognised, the segments counted and split, a database number detected, arguments decoded.
 */
module Cmd {
  import opened Bytes

  const SLASH: byte := 47
  const QUESTION: byte := 63
  const PERCENT: byte := 37
  const PLUS: byte := 43
  const DOT: byte := 46
  const SPACE: byte := 32

  lemma Marks()
    ensures SLASH == '/' as int && QUESTION == '?' as int && PERCENT == '%' as int && PLUS == '+' as int
    ensures DOT == '.' as int && SPACE == ' ' as int
  {
  }

  // ----- percent decoding -----

  /** An escape of section 2.1 of RFC 3986 at the start of s. */
  predicate Escape(s: bytes) { |s| >= 3 && s[0] == PERCENT && IsHex(s[1]) && IsHex(s[2]) }

  function EscapeValue(s: bytes): (b: byte)
    requires Escape(s)
  {
    HexValue(s[1]) * 16 + HexValue(s[2])
  }

  /** decode_uri, with plus signs decoded. */
  function Decode(s: bytes): (r: bytes)
    ensures |r| <= |s|
    decreases |s|
  {
    if s == [] then []
    else if Escape(s) then [EscapeValue(s)] + Decode(s[3..])
    else [if s[0] == PLUS then SPACE else s[0]] + Decode(s[1..])
  }

  /** A hexadecimal digit, in either case. */
  predicate HexByte(b: byte) {
    '0' as int <= b <= '9' as int || 'A' as int <= b <= 'F' as int || 'a' as int <= b <= 'f' as int
  }

  /**
   The text of an argument in a path: escapes in either case, plus signs for spaces, other bytes as they are.
   A percent sign that begins no escape stands for itself.
   */
  predicate Encodes(text: bytes, arg: bytes)
    decreases |text|
  {
    if text == [] then arg == []
    else
      arg != [] &&
      if text[0] == '%' as int && |text| >= 3 && HexByte(text[1]) && HexByte(text[2]) then
        Hex(text[1], arg[0] / 16) && Hex(text[2], arg[0] % 16) && Encodes(text[3..], arg[1..])
      else
        && text[0] != '/' as int && text[0] != '?' as int
        && arg[0] == (if text[0] == '+' as int then ' ' as int else text[0]) && Encodes(text[1..], arg[1..])
  }

  lemma EscapeIs(text: bytes)
    ensures Escape(text) <==> |text| >= 3 && text[0] == '%' as int && HexByte(text[1]) && HexByte(text[2])
  {
  }

  lemma EscapeHex(text: bytes, b: byte)
    requires |text| >= 3 && text[0] == '%' as int
    ensures Hex(text[1], b / 16) && Hex(text[2], b % 16) <==> Escape(text) && EscapeValue(text) == b
  {
    HexLaw(text[1], b / 16);
    HexLaw(text[2], b % 16);
    assert b == b / 16 * 16 + b % 16;
  }

  /** A text of an argument is one that is decoded to it and neither ends the segment nor the path. */
  lemma {:induction false} DecodeEncoded(text: bytes, arg: bytes)
    ensures Encodes(text, arg) <==> Decode(text) == arg && '/' as int !in text && '?' as int !in text
    decreases |text|
  {
    if text != [] {
      hide Hex, HexByte, Decode;
      EscapeIs(text);
      DecodeStep(text);
      if arg != [] {
        assert arg == [arg[0]] + arg[1..];
        if Escape(text) {
          EscapeHex(text, arg[0]);
          DecodeEncoded(text[3..], arg[1..]);
          assert text == [text[0], text[1], text[2]] + text[3..];
          EscapePlain(text);
        } else {
          DecodeEncoded(text[1..], arg[1..]);
          assert text == [text[0]] + text[1..];
        }
      }
    }
  }

  lemma EscapePlain(text: bytes)
    requires Escape(text)
    ensures SLASH !in [text[0], text[1], text[2]] && QUESTION !in [text[0], text[1], text[2]]
  {
  }

  /** Every byte escaped, each digit in the case asked for. */
  function EscapeAll(arg: bytes, lower: nat -> bool): bytes {
    if arg == [] then []
    else
      ['%' as int, HexIn(arg[0] / 16, lower(2 * |arg|)), HexIn(arg[0] % 16, lower(2 * |arg| + 1))]
      + EscapeAll(arg[1..], lower)
  }

  /** Every argument has a text, in lower, upper and mixed case. */
  lemma {:induction false} EscapeAllEncodes(arg: bytes, lower: nat -> bool)
    ensures Encodes(EscapeAll(arg, lower), arg) && '.' as int !in EscapeAll(arg, lower)
  {
    hide Hex;
    if arg != [] {
      EscapeAllEncodes(arg[1..], lower);
      var text := EscapeAll(arg, lower);
      assert text[3..] == EscapeAll(arg[1..], lower);
      EscapeHex(text, arg[0]);
      assert text == [text[0], text[1], text[2]] + text[3..];
      EscapeDotless(text);
    }
  }

  lemma EscapeDotless(text: bytes)
    requires Escape(text)
    ensures DOT !in [text[0], text[1], text[2]]
  {
  }

  lemma DecodeStep(s: bytes)
    requires s != []
    ensures Escape(s) ==> Decode(s) == [EscapeValue(s)] + Decode(s[3..])
    ensures !Escape(s) ==> Decode(s) == [if s[0] == PLUS then SPACE else s[0]] + Decode(s[1..])
  {
  }

  /** decode_uri: the text starts at `start`; the byte after it is no hexadecimal digit. */
  method DecodeUri(mem: bytes, start: nat, length: nat) returns (ret: bytes)
    requires start + length < |mem| && !IsHex(mem[start + length])
    ensures ret == Decode(mem[start..start + length])
  {
    hide Decode, IsHex, HexValue;
    var i := 0;
    ret := [];
    ghost var text := mem[start..start + length];
    assert text[0..] == text;
    while i < length
      invariant 0 <= i <= length
      invariant ret + Decode(text[i..]) == Decode(text)
    {
      var c := mem[start + i];
      ghost var rest := text[i..];
      DecodeStep(rest);
      if c == PLUS {
        c := SPACE;
      } else if c == PERCENT && IsHex(mem[start + i + 1]) && IsHex(mem[start + i + 2]) {
        assert rest[1] == mem[start + i + 1] && rest[2] == mem[start + i + 2];
        c := HexValue(mem[start + i + 1]) * 16 + HexValue(mem[start + i + 2]);
        i := i + 2;
      }
      assert text[i + 1..] == if Escape(rest) then rest[3..] else rest[1..];
      assert ret + ([c] + Decode(text[i + 1..])) == ret + [c] + Decode(text[i + 1..]);
      ret := ret + [c];
      i := i + 1;
    }
    assert text[i..] == [] && Decode([]) == [] && ret + [] == ret;
  }

  // ----- segments -----

  /** memchr from an index on; the length of s when there is none. */
  function IndexOf(s: bytes, c: byte, from: nat): (i: nat)
    requires from <= |s|
    ensures from <= i <= |s| && (i < |s| ==> s[i] == c)
    decreases |s| - from
  {
    if from == |s| || s[from] == c then from else IndexOf(s, c, from + 1)
  }

  predicate Free(s: bytes, c: byte, from: nat, to: nat)
    requires from <= to <= |s|
  {
    forall j :: from <= j < to ==> s[j] != c
  }

  /** It is the first one. */
  lemma {:induction false} NoneBefore(s: bytes, c: byte, from: nat)
    requires from <= |s|
    ensures Free(s, c, from, IndexOf(s, c, from))
    decreases |s| - from
  {
    if from < |s| && s[from] != c { NoneBefore(s, c, from + 1); }
  }

  lemma {:induction false} IndexOfIs(s: bytes, c: byte, from: nat, i: nat)
    requires from <= i <= |s| && Free(s, c, from, i) && (i < |s| ==> s[i] == c)
    ensures IndexOf(s, c, from) == i
    decreases i - from
  {
    if from < i { IndexOfIs(s, c, from + 1, i); }
  }

  /** Searching from an index on is searching what begins there. */
  lemma IndexShift(s: bytes, c: byte, from: nat)
    requires from <= |s|
    ensures IndexOf(s, c, from) == from + IndexOf(s[from..], c, 0)
  {
    hide IndexOf;
    var t := s[from..];
    var i := IndexOf(t, c, 0);
    NoneBefore(t, c, 0);
    assert forall j :: from <= j < from + i ==> s[j] == t[j - from];
    IndexOfIs(s, c, from, from + i);
  }

  /** The segments of a path. */
  function Split(s: bytes): (segs: seq<bytes>)
    ensures |segs| >= 1
    decreases |s|
  {
    var i := IndexOf(s, SLASH, 0);
    if i == |s| then [s] else [s[..i]] + Split(s[i + 1..])
  }

  lemma SplitAt(s: bytes, i: nat)
    requires i == IndexOf(s, SLASH, 0)
    ensures i == |s| ==> Split(s) == [s]
    ensures i < |s| ==> Split(s) == [s[..i]] + Split(s[i + 1..])
  {
  }

  /** Segments joined by slashes. */
  function Join(segs: seq<bytes>): bytes
    requires |segs| >= 1
  {
    if |segs| == 1 then segs[0] else segs[0] + [SLASH] + Join(segs[1..])
  }

  predicate Plain(segs: seq<bytes>) { forall i :: 0 <= i < |segs| ==> SLASH !in segs[i] }

  lemma {:induction false} SplitJoin(segs: seq<bytes>)
    requires |segs| >= 1 && Plain(segs)
    ensures Split(Join(segs)) == segs
  {
    hide IndexOf, Split;
    var s, n := Join(segs), |segs[0]|;
    assert forall j :: 0 <= j < n ==> s[j] == segs[0][j] && segs[0][j] in segs[0];
    IndexOfIs(s, SLASH, 0, n);
    SplitAt(s, n);
    if |segs| > 1 {
      assert s[..n] == segs[0] && s[n + 1..] == Join(segs[1..]);
      SplitJoin(segs[1..]);
    }
  }

  /** How many segments the counting loop finds from p on; it never looks at the byte p itself. */
  function CountFrom(s: bytes, p: nat): nat
    requires p <= |s|
    decreases |s| - p
  {
    if p == |s| then 0 else 1 + CountFrom(s, IndexOf(s, SLASH, p + 1))
  }

  method CountParams(s: bytes) returns (count: nat)
    ensures count == CountFrom(s, 0)
  {
    var p := 0;
    count := 0;
    while p < |s|
      invariant 0 <= p <= |s| && count + CountFrom(s, p) == CountFrom(s, 0)
    {
      p := IndexOf(s, SLASH, p + 1);
      count := count + 1;
    }
  }

  /** From a slash on, the loop finds one for it and one for every later slash. */
  lemma {:induction false} CountSlash(s: bytes, p: nat)
    requires p < |s|
    ensures CountFrom(s, p) == |Split(s[p + 1..])|
    decreases |s| - p
  {
    hide IndexOf, Split;
    var t := s[p + 1..];
    var i := IndexOf(t, SLASH, 0);
    IndexShift(s, SLASH, p + 1);
    SplitAt(t, i);
    if i < |t| {
      CountSlash(s, p + 1 + i);
      assert t[i + 1..] == s[p + 1 + i + 1..];
    }
  }

  /** The count is the number of segments, but a leading slash is not seen. */
  lemma CountSegments(s: bytes)
    ensures s == [] ==> CountFrom(s, 0) == 0
    ensures s != [] && s[0] != SLASH ==> CountFrom(s, 0) == |Split(s)|
    ensures s != [] && s[0] == SLASH ==> CountFrom(s, 0) == |Split(s)| - 1
  {
    hide Split;
    if s != [] {
      CountSlash(s, 0);
      SplitSkip(s);
    }
  }

  /** The first byte starts a new segment or belongs to the first one. */
  lemma SplitSkip(s: bytes)
    requires s != []
    ensures |Split(s)| == |Split(s[1..])| + (if s[0] == SLASH then 1 else 0)
  {
    hide Split;
    var t, i := s[1..], IndexOf(s, SLASH, 0);
    SplitAt(s, i);
    if s[0] == SLASH {
      assert i == 0;
    } else {
      IndexShift(s, SLASH, 1);
      assert i == IndexOf(s, SLASH, 1);
      SplitAt(t, i - 1);
      if i < |s| { assert t[i - 1 + 1..] == s[i + 1..]; }
    }
  }

  // ----- the extension -----

  /** The extensions with a reply format. */
  const EXTENSIONS: seq<bytes> :=
    [Ascii("json"), Ascii("raw"), Ascii("bin"), Ascii("txt"), Ascii("html"), Ascii("xhtml"), Ascii("xml"),
     Ascii("png"), Ascii("jpg"), Ascii("jpeg"), Ascii("js"), Ascii("css")]

  predicate Known(ext: bytes) { ext in EXTENSIONS }

  /** The last dot of the last segment, looking back from i; the first byte of the path is not looked at. */
  function DotFrom(s: bytes, i: nat): (d: Option<nat>)
    requires i < |s|
    ensures d.Some? ==> 1 <= d.value <= i && s[d.value] == DOT && Free(s, SLASH, d.value, i + 1)
  {
    if i == 0 || s[i] == SLASH then None
    else if s[i] == DOT then Some(i)
    else DotFrom(s, i - 1)
  }

  /** The path without a recognised extension. */
  function Strip(s: bytes): (r: bytes)
    ensures r == s || (1 <= |r| < |s| && r == s[..|r|] && s[|r|] == DOT && Free(s, SLASH, |r|, |s|))
  {
    if s == [] then s
    else match DotFrom(s, |s| - 1)
      case None => s
      case Some(d) => if Known(s[d + 1..]) then s[..d] else s
  }

  /** The search for an extension among the known ones. */
  method FindFormat(ext: bytes) returns (found: bool)
    ensures found <==> Known(ext)
  {
    found := In(ext, EXTENSIONS);
  }

  method In(x: bytes, list: seq<bytes>) returns (found: bool)
    ensures found <==> x in list
  {
    found := false;
    for i := 0 to |list|
      invariant found <==> x in list[..i]
    {
      assert list[..i + 1] == list[..i] + [list[i]];
      if x == list[i] { found := true; }
    }
    assert list[..|list|] == list;
  }

  /** cmd_select_format, as far as the path is concerned. */
  method SelectFormat(s: bytes) returns (length: nat)
    ensures length <= |s| && s[..length] == Strip(s)
  {
    hide DotFrom, Known;
    if s == [] { return 0; }
    var ext := |s| - 1;
    DotStep(s, ext);
    while ext != 0 && s[ext] != SLASH && s[ext] != DOT
      invariant 0 <= ext < |s| && DotFrom(s, ext) == DotFrom(s, |s| - 1)
    {
      DotStep(s, ext);
      ext := ext - 1;
    }
    DotStep(s, ext);
    if ext != 0 && s[ext] == DOT {
      var found := FindFormat(s[ext + 1..]);
      if found { return ext; }
    }
    assert s[..|s|] == s;
    return |s|;
  }

  lemma DotStep(s: bytes, i: nat)
    requires i < |s|
    ensures DotFrom(s, i) == if i == 0 || s[i] == SLASH then None else if s[i] == DOT then Some(i)
              else DotFrom(s, i - 1)
  {
  }

  /** An extension does not change the number of segments. */
  lemma StripSegments(s: bytes)
    ensures |Split(Strip(s))| == |Split(s)| && (Strip(s) == [] <==> s == []) && (s != [] ==> Strip(s)[0] == s[0])
  {
    hide Strip, Split;
    var r := Strip(s);
    if r != s { SplitPrefix(s, |r|); }
  }

  lemma {:induction false} SplitPrefix(s: bytes, n: nat)
    requires n <= |s| && Free(s, SLASH, n, |s|)
    ensures |Split(s[..n])| == |Split(s)|
    decreases |s|
  {
    hide IndexOf, Split;
    var t := s[..n];
    var i := IndexOf(t, SLASH, 0);
    NoneBefore(t, SLASH, 0);
    assert forall j :: 0 <= j < n ==> t[j] == s[j];
    SplitAt(t, i);
    if i < n {
      IndexOfIs(s, SLASH, 0, i);
      SplitAt(s, i);
      var u := s[i + 1..];
      assert u[..n - i - 1] == t[i + 1..];
      SplitPrefix(u, n - i - 1);
    } else {
      IndexOfIs(s, SLASH, 0, |s|);
      SplitAt(s, |s|);
    }
  }

  /** A path followed by a recognised extension. */
  lemma StripExtension(s: bytes, ext: bytes)
    requires s != [] && Known(ext)
    ensures Strip(s + [DOT] + ext) == s
  {
    hide Known, DotFrom;
    var t := s + [DOT] + ext;
    ExtensionPlain(ext);
    assert forall j :: |s| + 1 <= j < |t| ==> t[j] == ext[j - |s| - 1] && t[j] in ext;
    DotFound(t, |s|, |t| - 1);
    assert t[|s| + 1..] == ext && t[..|s|] == s;
  }

  /** The extensions, in ASCII: json raw bin txt html xhtml xml png jpg jpeg js css. */
  lemma KnownExactly(ext: bytes)
    ensures Known(ext) <==>
              || ext == [0x6A, 0x73, 0x6F, 0x6E] || ext == [0x72, 0x61, 0x77] || ext == [0x62, 0x69, 0x6E]
              || ext == [0x74, 0x78, 0x74] || ext == [0x68, 0x74, 0x6D, 0x6C] || ext == [0x78, 0x68, 0x74, 0x6D, 0x6C]
              || ext == [0x78, 0x6D, 0x6C] || ext == [0x70, 0x6E, 0x67] || ext == [0x6A, 0x70, 0x67]
              || ext == [0x6A, 0x70, 0x65, 0x67] || ext == [0x6A, 0x73] || ext == [0x63, 0x73, 0x73]
  {
    assert Ascii("json") == [0x6A, 0x73, 0x6F, 0x6E] && Ascii("raw") == [0x72, 0x61, 0x77];
    assert Ascii("bin") == [0x62, 0x69, 0x6E] && Ascii("txt") == [0x74, 0x78, 0x74];
    assert Ascii("html") == [0x68, 0x74, 0x6D, 0x6C] && Ascii("xhtml") == [0x78, 0x68, 0x74, 0x6D, 0x6C];
    assert Ascii("xml") == [0x78, 0x6D, 0x6C] && Ascii("png") == [0x70, 0x6E, 0x67];
    assert Ascii("jpg") == [0x6A, 0x70, 0x67] && Ascii("jpeg") == [0x6A, 0x70, 0x65, 0x67];
    assert Ascii("js") == [0x6A, 0x73] && Ascii("css") == [0x63, 0x73, 0x73];
    KnownAmong(ext);
  }

  lemma KnownAmong(ext: bytes)
    ensures Known(ext) <==> ext in {Ascii("json"), Ascii("raw"), Ascii("bin"), Ascii("txt"), Ascii("html"),
                                    Ascii("xhtml"), Ascii("xml"), Ascii("png"), Ascii("jpg"), Ascii("jpeg"),
                                    Ascii("js"), Ascii("css")}
  {
    hide Ascii;
  }

  /** `.json` behind any path is taken off. */
  lemma JsonTaken(path: bytes)
    requires path != []
    ensures Strip(path + ['.' as int, 'j' as int, 's' as int, 'o' as int, 'n' as int]) == path
  {
    hide Known, Strip;
    var ext := ['j' as int, 's' as int, 'o' as int, 'n' as int];
    KnownExactly(ext);
    StripExtension(path, ext);
    assert path + [DOT] + ext == path + ['.' as int, 'j' as int, 's' as int, 'o' as int, 'n' as int];
  }

  lemma ExtensionPlain(ext: bytes)
    requires Known(ext)
    ensures DOT !in ext && SLASH !in ext && QUESTION !in ext
  {
  }

  lemma {:induction false} DotFound(s: bytes, d: nat, i: nat)
    requires 1 <= d <= i < |s| && s[d] == DOT && Free(s, DOT, d + 1, i + 1) && Free(s, SLASH, d + 1, i + 1)
    ensures DotFrom(s, i) == Some(d)
  {
    if d < i { DotFound(s, d, i - 1); }
  }

  // ----- the command -----

  datatype Request = Request(database: int, argv: seq<bytes>)

  /** The path before its query. */
  function Cut(uri: bytes): bytes { uri[..IndexOf(uri, QUESTION, 0)] }

  function DecodeSegments(segs: seq<bytes>): (r: seq<bytes>)
    ensures |r| == |segs|
  {
    seq(|segs|, i requires 0 <= i < |segs| => Decode(segs[i]))
  }

  /** The arguments the splitting loop records: an empty one at the very end is not reached. */
  function Recorded(segs: seq<bytes>): seq<bytes> {
    if segs != [] && segs[|segs| - 1] == [] then DecodeSegments(segs[..|segs| - 1]) else DecodeSegments(segs)
  }

  /** `count` of the n argument slots; those never filled hold an empty argument. */
  function Slots(got: seq<bytes>, n: nat, count: nat): seq<bytes>
    requires |got| <= n && count <= n
  {
    (got + seq(n - |got|, _ => []))[..count]
  }

  /** cmd_run up to the sending of the command; None is CMD_PARAM_ERROR. */
  function Prepare(uri: bytes, body: bytes, database: int): Option<Request> {
    var cut := Cut(uri);
    var extra := if body == [] then [] else [body];
    var n := CountFrom(cut, 0) + |extra|;
    if n == 0 then None
    else
      var segs := Split(Strip(cut));
      if |segs| == 1 then Some(Request(database, segs))
      else
        var hasDb := AllDigits(segs[0]);
        var rest := if hasDb then segs[1..] else segs;
        var got := [rest[0]] + Recorded(rest[1..]) + extra;
        SlotsFit(cut, |extra|);
        Some(Request(if hasDb then DigitsValue(segs[0]) else database, Slots(got, n, if hasDb then n - 1 else n)))
  }

  lemma SlotsFit(cut: bytes, extra: nat)
    ensures |Split(Strip(cut))| >= 2 ==>
              CountFrom(cut, 0) >= 1 &&
              |Split(Strip(cut))| - (if AllDigits(Split(Strip(cut))[0]) then 1 else 0) <= CountFrom(cut, 0)
  {
    hide Strip, Split, CountFrom;
    StripSegments(cut);
    CountSegments(cut);
    if |Split(Strip(cut))| >= 2 {
      SplitFirst(Strip(cut));
    }
  }

  lemma SplitFirst(s: bytes)
    ensures |Split(s)| >= 2 ==> s != []
    ensures s != [] && s[0] == SLASH ==> Split(s)[0] == []
  {
    if s == [] { SplitAt(s, 0); }
  }

  // ----- paths made from a command -----

  /** The segments of a command: a database number if any, the name, and the texts of the arguments. */
  function Segments(db: Option<bytes>, name: bytes, texts: seq<bytes>): (segs: seq<bytes>)
    ensures |segs| >= 1
  {
    (if db.Some? then [db.value] else []) + [name] + texts
  }

  predicate GoodName(db: Option<bytes>, name: bytes, texts: seq<bytes>) {
    && name != [] && SLASH !in name && QUESTION !in name
    && (db.Some? ==> db.value != [] && AllDigits(db.value))
    && (db.Some? || texts == [] || !AllDigits(name))
  }

  predicate GoodTexts(texts: seq<bytes>, args: seq<bytes>) {
    |texts| == |args| && forall i :: 0 <= i < |texts| ==> Encodes(texts[i], args[i])
  }

  predicate Clear(segs: seq<bytes>) { Plain(segs) && forall i :: 0 <= i < |segs| ==> QUESTION !in segs[i] }

  lemma TextsClear(texts: seq<bytes>, args: seq<bytes>)
    requires GoodTexts(texts, args)
    ensures Clear(texts)
    ensures DecodeSegments(texts) == args && forall i :: 0 <= i < |texts| ==> texts[i] == [] ==> args[i] == []
  {
    hide Decode, Encodes;
    forall i | 0 <= i < |texts|
      ensures Decode(texts[i]) == args[i] && SLASH !in texts[i] && QUESTION !in texts[i]
      ensures texts[i] == [] ==> args[i] == []
    {
      DecodeEncoded(texts[i], args[i]);
      NothingDecodes();
    }
  }

  lemma ClearConcat(a: seq<bytes>, b: seq<bytes>)
    requires Clear(a) && Clear(b)
    ensures Clear(a + b)
  {
  }

  lemma GoodSegments(db: Option<bytes>, name: bytes, texts: seq<bytes>, args: seq<bytes>)
    requires GoodName(db, name, texts) && GoodTexts(texts, args)
    ensures Clear(Segments(db, name, texts)) && Segments(db, name, texts)[0] != []
  {
    hide Encodes;
    TextsClear(texts, args);
    var head := if db.Some? then [db.value] else [];
    if db.Some? { DigitsPlain(db.value); }
    ClearConcat(head, [name]);
    ClearConcat(head + [name], texts);
  }

  lemma NothingDecodes()
    ensures Decode([]) == []
  {
  }

  lemma DigitsPlain(ds: bytes)
    requires AllDigits(ds)
    ensures SLASH !in ds && QUESTION !in ds
  {
  }

  lemma {:induction false} JoinWithout(segs: seq<bytes>, c: byte)
    requires |segs| >= 1 && c != SLASH && forall i :: 0 <= i < |segs| ==> c !in segs[i]
    ensures c !in Join(segs)
  {
    if |segs| > 1 { JoinWithout(segs[1..], c); }
  }

  lemma JoinFirst(segs: seq<bytes>)
    requires |segs| >= 1 && Plain(segs) && segs[0] != []
    ensures Join(segs) != [] && Join(segs)[0] != SLASH
  {
    assert segs[0][0] in segs[0];
    assert Join(segs)[0] == segs[0][0];
  }

  function Ending(ext: Option<bytes>, query: Option<bytes>): bytes {
    (if ext.Some? then [DOT] + ext.value else []) + (if query.Some? then [QUESTION] + query.value else [])
  }

  /** The path is found again behind an extension and a query. */
  lemma CutEnding(path: bytes, ext: Option<bytes>, query: Option<bytes>)
    requires path != [] && QUESTION !in path
    requires if ext.Some? then Known(ext.value) else Strip(path) == path
    ensures Strip(Cut(path + Ending(ext, query))) == path
    ensures Cut(path + Ending(ext, query)) == path + Ending(ext, None)
  {
    hide Known, Strip;
    var uri, cut := path + Ending(ext, query), path + Ending(ext, None);
    if ext.Some? {
      ExtensionPlain(ext.value);
      assert cut == path + [DOT] + ext.value;
      StripExtension(path, ext.value);
    } else {
      assert cut == path;
    }
    assert uri == cut + (if query.Some? then [QUESTION] + query.value else []);
    assert QUESTION !in cut;
    assert forall j :: 0 <= j < |cut| ==> uri[j] == cut[j] && cut[j] in cut;
    IndexOfIs(uri, QUESTION, 0, |cut|);
  }

  /** The argument slots of a command whose last argument is, or is not, empty. */
  lemma SlotsOf(name: bytes, texts: seq<bytes>, args: seq<bytes>, extra: seq<bytes>, n: nat)
    requires |texts| == |args| && DecodeSegments(texts) == args && |extra| <= 1 && n >= 1 + |texts| + |extra|
    requires forall i :: 0 <= i < |texts| ==> texts[i] == [] ==> args[i] == []
    ensures var got := [name] + Recorded(texts) + extra;
            var count := 1 + |texts| + |extra|;
            |got| <= n
            && (Slots(got, n, count) == [name] + args + extra <==>
                extra == [] || extra == [[]] || texts == [] || texts[|texts| - 1] != [])
  {
    hide Decode;
    var got, k := [name] + Recorded(texts) + extra, |texts|;
    var count := 1 + k + |extra|;
    if texts != [] && texts[k - 1] == [] {
      assert DecodeSegments(texts[..k - 1]) == args[..k - 1];
      assert args == args[..k - 1] + [[]];
      SlotsShort(name, args[..k - 1], extra, n);
    } else {
      assert Slots(got, n, count) == got;
    }
  }

  /** One argument not recorded: its empty slot comes last, behind the body if there is one. */
  lemma SlotsShort(name: bytes, args: seq<bytes>, extra: seq<bytes>, n: nat)
    requires |extra| <= 1 && n >= 2 + |args| + |extra|
    ensures Slots([name] + args + extra, n, 2 + |args| + |extra|) == [name] + args + extra + [[]]
    ensures [name] + args + extra + [[]] == [name] + (args + [[]]) + extra <==> extra == [] || extra == [[]]
  {
    if extra != [] {
      assert ([name] + args + extra + [[]])[1 + |args|] == extra[0];
      assert ([name] + (args + [[]]) + extra)[1 + |args|] == [];
    }
  }

  /** The database and the arguments a command stands for. */
  function Meant(db: Option<bytes>, name: bytes, args: seq<bytes>, extra: seq<bytes>, database: int): Request
    requires db.Some? ==> AllDigits(db.value)
  {
    Request(if db.Some? then DigitsValue(db.value) else database, [name] + args + extra)
  }

  /**
   A command joined with slashes, with any extension and query behind it, is split back into exactly
   its database and arguments.  A request body is the last argument if and only if the path has more
   than a command name and does not end in an empty argument.
   */
  lemma PrepareJoin(db: Option<bytes>, name: bytes, texts: seq<bytes>, args: seq<bytes>, ext: Option<bytes>,
                    query: Option<bytes>, body: bytes, database: int)
    requires GoodName(db, name, texts) && GoodTexts(texts, args)
    requires if ext.Some? then Known(ext.value)
               else Strip(Join(Segments(db, name, texts))) == Join(Segments(db, name, texts))
    ensures var uri := Join(Segments(db, name, texts)) + Ending(ext, query);
            && Prepare(uri, [], database) == Some(Meant(db, name, args, [], database))
            && (body != [] ==>
                  (Prepare(uri, body, database) == Some(Meant(db, name, args, [body], database)) <==>
                   (db.Some? || texts != []) && (texts == [] || texts[|texts| - 1] != [])))
  {
    hide Prepare, Recorded, Slots, DecodeSegments, Strip, Join, AllDigits, Encodes, Known, Ending;
    var segs := Segments(db, name, texts);
    var uri := Join(segs) + Ending(ext, query);
    TextsClear(texts, args);
    GoodSegments(db, name, texts, args);
    PrepareSegments(segs, ext, query);
    assert |segs| > 1 ==> (AllDigits(segs[0]) <==> db.Some?);
    if db.Some? || texts != [] {
      PrepareIs(uri, [], database, db, name, texts);
      SlotsOf(name, texts, args, [], |segs|);
      if body != [] {
        PrepareIs(uri, body, database, db, name, texts);
        SlotsOf(name, texts, args, [body], |segs| + 1);
      }
    } else {
      PrepareAlone(uri, [], database, name);
      PrepareAlone(uri, body, database, name);
      assert [name] + args + [] == [name];
      assert |[name] + args + [body]| == 2;
    }
  }

  lemma JoinCons(segs: seq<bytes>)
    requires |segs| >= 2
    ensures Join(segs) == segs[0] + [SLASH] + Join(segs[1..])
  {
  }

  lemma JoinOne(segs: seq<bytes>)
    requires |segs| == 1
    ensures Join(segs) == segs[0]
  {
  }

  lemma JoinRegroup(a: bytes, b: bytes, c: bytes)
    ensures a + [SLASH] + (b + [SLASH] + c) == a + [SLASH] + b + [SLASH] + c
    ensures a + [SLASH] + ([] + c) == a + [SLASH] + c
  {
    assert [] + c == c;
  }

  lemma {:induction false} JoinLast(segs: seq<bytes>)
    requires |segs| >= 1
    ensures var n := |segs| - 1;
            Join(segs) == (if n == 0 then [] else Join(segs[..n]) + [SLASH]) + segs[n]
  {
    var n := |segs| - 1;
    if n == 0 {
      assert [] + segs[0] == segs[0];
    } else {
      hide Join;
      var rest := segs[1..];
      JoinCons(segs);
      JoinLast(rest);
      assert rest[..n - 1] == segs[..n][1..] && rest[n - 1] == segs[n];
      if n > 1 {
        JoinCons(segs[..n]);
        JoinRegroup(segs[0], Join(rest[..n - 1]), segs[n]);
      } else {
        JoinOne(segs[..n]);
        JoinRegroup(segs[0], [], segs[n]);
      }
    }
  }

  /** Segments with the last one cut off after k bytes. */
  function CutLast(segs: seq<bytes>, k: nat): seq<bytes>
    requires |segs| >= 1 && k <= |segs[|segs| - 1]|
  {
    segs[|segs| - 1 := segs[|segs| - 1][..k]]
  }

  /** A path that loses an extension loses it from its last segment. */
  lemma StripJoin(segs: seq<bytes>) returns (k: nat)
    requires |segs| >= 1 && Strip(Join(segs)) != Join(segs)
    ensures k < |segs[|segs| - 1]| && segs[|segs| - 1][k] == DOT && Strip(Join(segs)) == Join(CutLast(segs, k))
  {
    hide Strip, Join;
    var path, n := Join(segs), |segs| - 1;
    var r, last := Strip(path), segs[n];
    JoinLast(segs);
    var pre := if n == 0 then [] else Join(segs[..n]) + [SLASH];
    assert path == pre + last;
    assert |pre| > 0 ==> path[|pre| - 1] == SLASH;
    k := |r| - |pre|;
    assert path[|r|] == last[k];
    var cut := CutLast(segs, k);
    JoinLast(cut);
    assert cut[..n] == segs[..n];
    assert path[..|r|] == pre + last[..k];
  }

  /** The part of an argument's text before a dot is the text of a part of the argument. */
  lemma {:induction false} EncodesBefore(text: bytes, arg: bytes, k: nat) returns (j: nat)
    requires Encodes(text, arg) && k < |text| && text[k] == DOT
    ensures j < |arg| && Encodes(text[..k], arg[..j])
    decreases |text|
  {
    if k == 0 {
      j := 0;
    } else if text[0] == PERCENT && |text| >= 3 && HexByte(text[1]) && HexByte(text[2]) {
      assert k >= 3;
      var rest := EncodesBefore(text[3..], arg[1..], k - 3);
      j := rest + 1;
      assert text[..k][3..] == text[3..][..k - 3] && arg[..j][1..] == arg[1..][..rest];
    } else {
      var rest := EncodesBefore(text[1..], arg[1..], k - 1);
      j := rest + 1;
      assert text[..k][1..] == text[1..][..k - 1] && arg[..j][1..] == arg[1..][..rest];
    }
  }

  lemma CutQuery(path: bytes, query: Option<bytes>)
    requires QUESTION !in path
    ensures Cut(path + Ending(None, query)) == path
  {
    var uri := path + Ending(None, query);
    assert forall j :: 0 <= j < |path| ==> uri[j] == path[j] && path[j] in path;
    IndexOfIs(uri, QUESTION, 0, |path|);
  }

  /** A recognised ending of the last segment is taken for an extension. */
  lemma ExtensionTaken(db: Option<bytes>, name: bytes, texts: seq<bytes>, args: seq<bytes>, query: Option<bytes>,
                       database: int)
    requires GoodName(db, name, texts) && GoodTexts(texts, args)
    requires Strip(Join(Segments(db, name, texts))) != Join(Segments(db, name, texts))
    ensures Prepare(Join(Segments(db, name, texts)) + Ending(None, query), [], database) !=
              Some(Meant(db, name, args, [], database))
  {
    hide Prepare, Recorded, Slots, DecodeSegments, Strip, Join, AllDigits, Encodes, Ending, Cut, CountFrom, Split;
    var segs := Segments(db, name, texts);
    var path := Join(segs);
    GoodSegments(db, name, texts, args);
    var k := StripJoin(segs);
    var cut, uri := CutLast(segs, k), path + Ending(None, query);
    CutParts(segs, query, k);
    if |segs| == 1 {
      PrepareAlone(uri, [], database, cut[0]);
      assert segs == [name];
    } else {
      assert AllDigits(segs[0]) <==> db.Some?;
      if texts == [] {
        assert cut == Segments(db, name[..k], []);
        PrepareIs(uri, [], database, db, name[..k], []);
        NameOnly(name[..k], |segs|);
        assert [name] + args + [] == [name] && |name[..k]| < |name|;
      } else {
        ArgumentCut(name, texts, args, k, |segs|);
        var m := |texts| - 1;
        assert cut == Segments(db, name, texts[m := texts[m][..k]]);
        PrepareIs(uri, [], database, db, name, texts[m := texts[m][..k]]);
      }
    }
  }

  /** What cmd_run finds in a path that loses an extension. */
  lemma CutParts(segs: seq<bytes>, query: Option<bytes>, k: nat)
    requires |segs| >= 1 && Clear(segs) && segs[0] != [] && k < |segs[|segs| - 1]|
    requires Strip(Join(segs)) == Join(CutLast(segs, k))
    ensures var uri := Join(segs) + Ending(None, query);
            Split(Strip(Cut(uri))) == CutLast(segs, k) && CountFrom(Cut(uri), 0) == |segs|
  {
    hide Strip, Split, CountFrom, Cut, Join;
    JoinWithout(segs, QUESTION);
    JoinFirst(segs);
    CutQuery(Join(segs), query);
    SplitJoin(segs);
    CountSegments(Join(segs));
    SplitJoin(CutLast(segs, k)) by { CutPlain(segs, k); }
  }

  lemma CutPlain(segs: seq<bytes>, k: nat)
    requires |segs| >= 1 && Plain(segs) && k < |segs[|segs| - 1]|
    ensures Plain(CutLast(segs, k))
  {
    var last := segs[|segs| - 1];
    assert forall x :: x in last[..k] ==> x in last;
  }

  lemma NameOnly(name: bytes, n: nat)
    requires n >= 1
    ensures |[name] + Recorded([]) + []| <= n && Slots([name] + Recorded([]) + [], n, 1) == [name]
  {
  }

  /** The last argument is sent without the ending. */
  lemma ArgumentCut(name: bytes, texts: seq<bytes>, args: seq<bytes>, k: nat, n: nat)
    requires GoodTexts(texts, args) && texts != [] && k < |texts[|texts| - 1]| && texts[|texts| - 1][k] == DOT
    requires n >= 1 + |texts|
    ensures var m := |texts| - 1;
            var got := [name] + Recorded(texts[m := texts[m][..k]]) + [];
            |got| <= n && Slots(got, n, 1 + |texts|) != [name] + args + []
  {
    hide Recorded, Slots, Encodes, DecodeSegments;
    var m := |texts| - 1;
    var j := EncodesBefore(texts[m], args[m], k);
    var texts', args' := texts[m := texts[m][..k]], args[m := args[m][..j]];
    TextsClear(texts', args');
    SlotsOf(name, texts', args', [], n);
    assert ([name] + args' + [])[m + 1] == args'[m] && ([name] + args + [])[m + 1] == args[m];
  }

  /** Without an extension: the command is read back if and only if its path does not end like one. */
  lemma PlainPath(db: Option<bytes>, name: bytes, texts: seq<bytes>, args: seq<bytes>, query: Option<bytes>,
                  database: int)
    requires GoodName(db, name, texts) && GoodTexts(texts, args)
    ensures var path := Join(Segments(db, name, texts));
            Prepare(path + Ending(None, query), [], database) == Some(Meant(db, name, args, [], database))
            <==> Strip(path) == path
  {
    hide Prepare, Strip, Join, Encodes, Ending;
    var path := Join(Segments(db, name, texts));
    if Strip(path) == path {
      PrepareJoin(db, name, texts, args, None, query, [], database);
    } else {
      ExtensionTaken(db, name, texts, args, query, database);
    }
  }

  /** The body of a request for a lone command name is dropped. */
  lemma LoneName(name: bytes, ext: Option<bytes>, query: Option<bytes>, body: bytes, database: int)
    requires GoodName(None, name, [])
    requires if ext.Some? then Known(ext.value) else Strip(name) == name
    ensures Prepare(name + Ending(ext, query), body, database) == Some(Request(database, [name]))
  {
    hide Prepare, Strip, Known, Ending;
    assert Join([name]) == name;
    GoodSegments(None, name, [], []);
    PrepareSegments([name], ext, query) by { assert Segments(None, name, []) == [name]; }
    PrepareAlone(name + Ending(ext, query), body, database, name);
  }

  /** What cmd_run makes of the parts of a path. */
  lemma PrepareIs(uri: bytes, body: bytes, database: int, db: Option<bytes>, name: bytes, texts: seq<bytes>)
    requires var segs := Segments(db, name, texts);
             Split(Strip(Cut(uri))) == segs && CountFrom(Cut(uri), 0) == |segs| > 1
               && (AllDigits(segs[0]) <==> db.Some?)
    ensures var extra := if body == [] then [] else [body];
            var got, n := [name] + Recorded(texts) + extra, |Segments(db, name, texts)| + |extra|;
            |got| <= n
            && Prepare(uri, body, database) ==
               Some(Request(if db.Some? then DigitsValue(db.value) else database, Slots(got, n, 1 + |texts| + |extra|)))
  {
    hide Strip, Split, CountFrom, Cut, AllDigits, DecodeSegments;
    var segs := Segments(db, name, texts);
    var rest := if db.Some? then segs[1..] else segs;
    assert rest[0] == name && rest[1..] == texts;
  }

  lemma PrepareAlone(uri: bytes, body: bytes, database: int, name: bytes)
    requires Split(Strip(Cut(uri))) == [name] && CountFrom(Cut(uri), 0) == 1
    ensures Prepare(uri, body, database) == Some(Request(database, [name]))
  {
    hide Strip, Split, CountFrom, Cut;
  }

  /** The parts of cmd_run on segments joined by slashes. */
  lemma PrepareSegments(segs: seq<bytes>, ext: Option<bytes>, query: Option<bytes>)
    requires |segs| >= 1 && Clear(segs) && segs[0] != []
    requires if ext.Some? then Known(ext.value) else Strip(Join(segs)) == Join(segs)
    ensures var cut := Cut(Join(segs) + Ending(ext, query)); Split(Strip(cut)) == segs && CountFrom(cut, 0) == |segs|
  {
    hide Strip, Split, Known, CountFrom, Cut;
    var path := Join(segs);
    JoinWithout(segs, QUESTION);
    JoinFirst(segs);
    CutEnding(path, ext, query);
    SplitJoin(segs);
    var cut := Cut(path + Ending(ext, query));
    StripSegments(cut);
    CountSegments(cut);
  }

  /** A name of digits only, with arguments and no database, is taken for the database: one argument too few is sent. */
  lemma NumericName(name: bytes, texts: seq<bytes>, args: seq<bytes>, ext: Option<bytes>, query: Option<bytes>,
                    database: int)
    requires name != [] && AllDigits(name) && texts != [] && GoodTexts(texts, args)
    requires if ext.Some? then Known(ext.value)
               else Strip(Join(Segments(None, name, texts))) == Join(Segments(None, name, texts))
    ensures var r := Prepare(Join(Segments(None, name, texts)) + Ending(ext, query), [], database);
            r.Some? && r.value.database == DigitsValue(name) && |r.value.argv| == |args|
            && r != Some(Meant(None, name, args, [], database))
  {
    hide Prepare, Recorded, DecodeSegments, Strip, Join, AllDigits, Encodes, Known, Ending, Clear;
    var segs := Segments(None, name, texts);
    var uri := Join(segs) + Ending(ext, query);
    DigitsPlain(name);
    TextsClear(texts, args);
    ClearConcat([name], texts);
    assert segs == [name] + texts;
    PrepareSegments(segs, ext, query);
    assert segs == Segments(Some(name), texts[0], texts[1..]);
    PrepareIs(uri, [], database, Some(name), texts[0], texts[1..]);
  }

  /** Without a dot in its last segment a path has no extension. */
  lemma {:induction false} NoExtension(segs: seq<bytes>)
    requires |segs| >= 1 && Plain(segs) && DOT !in segs[|segs| - 1]
    ensures Strip(Join(segs)) == Join(segs)
  {
    var s := Join(segs);
    if s != [] {
      JoinLast(segs);
      var n := |segs| - 1;
      var pre := if n == 0 then [] else Join(segs[..n]) + [SLASH];
      NoDot(s, |pre|, |s| - 1);
    }
  }

  lemma {:induction false} NoDot(s: bytes, k: nat, i: nat)
    requires k <= |s| && i < |s| && i + 1 >= k && DOT !in s[k..] && (k > 0 ==> s[k - 1] == SLASH)
    ensures DotFrom(s, i) == None
  {
    if i > 0 && i >= k {
      assert s[i] == s[k..][i - k];
      NoDot(s, k, i - 1);
    }
  }

  // ----- cmd_run as it runs -----

  /** The segments from p on; none beyond the end. */
  function From(path: bytes, p: nat): seq<bytes> { if p <= |path| then Split(path[p..]) else [] }

  lemma RecordedNext(path: bytes, p: nat)
    requires p < |path|
    ensures var i := IndexOf(path, SLASH, p);
            Recorded(From(path, p)) == [Decode(path[p..i])] + (if i < |path| then Recorded(From(path, i + 1)) else [])
  {
    hide Decode, IndexOf, Split, DecodeSegments;
    var i := IndexOf(path, SLASH, p);
    FromHead(path, p);
    if i < |path| {
      RecordedCons(path[p..i], From(path, i + 1));
    } else {
      assert From(path, p) == [path[p..i]];
      RecordedOne(path[p..i]);
    }
  }

  lemma RecordedOne(a: bytes)
    requires a != []
    ensures Recorded([a]) == [Decode(a)]
  {
    hide Decode;
    assert DecodeSegments([a]) == [Decode(a)];
  }

  lemma RecordedCons(a: bytes, rest: seq<bytes>)
    requires rest != []
    ensures Recorded([a] + rest) == [Decode(a)] + Recorded(rest)
  {
    hide Decode, DecodeSegments;
    var all, n := [a] + rest, |rest|;
    if rest[n - 1] == [] {
      assert all[..n] == [a] + rest[..n - 1];
      DecodeCons(a, rest[..n - 1]);
    } else {
      DecodeCons(a, rest);
    }
  }

  lemma DecodeCons(a: bytes, rest: seq<bytes>)
    ensures DecodeSegments([a] + rest) == [Decode(a)] + DecodeSegments(rest)
  {
    hide Decode;
  }

  lemma RecordedEnd(path: bytes)
    ensures Recorded(From(path, |path|)) == [] && Recorded(From(path, |path| + 1)) == []
  {
    assert path[|path|..] == [];
    assert Split([]) == [[]];
  }

  /** Whether the path starts with digits only up to its first slash, and their value. */
  method DetectDb(mem: bytes, slash: nat) returns (hasDb: bool, db: nat)
    requires slash <= |mem|
    ensures hasDb <==> AllDigits(mem[..slash])
    ensures hasDb ==> db == DigitsValue(mem[..slash])
  {
    db := 0;
    var p := 0;
    while p < slash
      invariant 0 <= p <= slash && AllDigits(mem[..p]) && db == DigitsValue(mem[..p])
    {
      if mem[p] < ZERO || mem[p] > NINE {
        assert !IsDigit(mem[..slash][p]);
        return false, db;
      }
      assert mem[..p + 1] == mem[..p] + [mem[p]] && mem[..p + 1][..p] == mem[..p];
      db := db * 10 + (mem[p] - ZERO);
      p := p + 1;
    }
    hasDb := true;
  }

  /** The splitting loop: every argument from p on goes into the next slot. */
  method SplitArguments(mem: bytes, length: nat, start: nat, argv: array<bytes>, first: nat) returns (cur: nat)
    requires length < |mem| && !IsHex(mem[length]) && start <= length + 1
    requires first + |Recorded(From(mem[..length], start))| <= argv.Length
    modifies argv
    ensures cur <= argv.Length && argv[..cur] == old(argv[..first]) + Recorded(From(mem[..length], start))
    ensures forall k :: cur <= k < argv.Length ==> argv[k] == old(argv[k])
  {
    hide Decode, From, IsHex, Recorded;
    cur := first;
    var p := start;
    ghost var path := mem[..length];
    RecordedEnd(path);
    assert argv[..first] + Recorded(From(path, start)) == old(argv[..first]) + Recorded(From(path, start));
    while p < length
      invariant p <= length + 1 && first <= cur && cur + |Recorded(From(path, p))| <= argv.Length
      invariant argv[..cur] + Recorded(From(path, p)) == old(argv[..first]) + Recorded(From(path, start))
      invariant forall k :: cur <= k < argv.Length ==> argv[k] == old(argv[k])
      decreases length + 1 - p
    {
      RecordedNext(path, p);
      var arg, next := p, IndexOf(mem[..length], SLASH, p);
      SlashNotHex();
      var decoded := DecodeUri(mem, arg, next - arg);
      assert mem[arg..next] == path[arg..next];
      ghost var before := argv[..cur];
      p := if next == length then length else next + 1;
      argv[cur] := decoded;
      assert argv[..cur + 1] == before + [decoded];
      assert before + ([decoded] + Recorded(From(path, p))) == before + [decoded] + Recorded(From(path, p));
      cur := cur + 1;
    }
    assert argv[..cur] + [] == argv[..cur];
  }

  lemma SlashNotHex()
    ensures !IsHex(SLASH)
  {
  }

  /** The first segment from p on, and the others. */
  lemma FromHead(path: bytes, p: nat)
    requires p <= |path|
    ensures var i := IndexOf(path, SLASH, p); From(path, p) == [path[p..i]] + From(path, i + 1)
  {
    hide IndexOf, Split;
    var s, i := path[p..], IndexOf(path, SLASH, p);
    IndexShift(path, SLASH, p);
    SplitAt(s, i - p);
    assert s[..i - p] == path[p..i];
    if i < |path| {
      assert s[i - p + 1..] == path[i + 1..];
    } else {
      assert s == path[p..i];
    }
  }

  /** Searching one byte past the end finds nothing more there. */
  lemma SearchBeyond(mem: bytes, len: nat, from: nat)
    requires from <= len < |mem| && mem[len] != SLASH
    ensures var i, j := IndexOf(mem[..len], SLASH, from), IndexOf(mem[..len + 1], SLASH, from);
            j == if i < len then i else len + 1
  {
    hide IndexOf;
    var a, b := mem[..len], mem[..len + 1];
    var i := IndexOf(a, SLASH, from);
    NoneBefore(a, SLASH, from);
    assert forall j :: from <= j < len ==> a[j] == b[j];
    IndexOfIs(b, SLASH, from, if i < len then i else len + 1);
  }

  /** What ends the path ends its last argument too. */
  lemma EndByte(mem: bytes, length: nat, cutLen: nat, len: nat)
    requires length < |mem| && mem[length] == NUL && cutLen == IndexOf(mem[..length], QUESTION, 0)
    requires len <= cutLen && mem[..cutLen][..len] == Strip(mem[..cutLen])
    ensures mem[len] != SLASH && !IsHex(mem[len])
  {
    hide Strip;
    var cut := mem[..cutLen];
    assert Strip(cut) == cut || cut[|Strip(cut)|] == DOT;
  }

  lemma PrepareParts(uri: bytes, body: bytes, database: int)
    requires |Split(Strip(Cut(uri)))| > 1
    ensures var segs := Split(Strip(Cut(uri)));
            var extra := if body == [] then [] else [body];
            var n := CountFrom(Cut(uri), 0) + |extra|;
            var rest := if AllDigits(segs[0]) then segs[1..] else segs;
            var got := [rest[0]] + Recorded(rest[1..]) + extra;
            n >= 1 && |got| <= n
            && Prepare(uri, body, database) ==
               Some(Request(if AllDigits(segs[0]) then DigitsValue(segs[0]) else database,
                            Slots(got, n, if AllDigits(segs[0]) then n - 1 else n)))
  {
    hide Strip, Split, CountFrom, Cut, AllDigits, DecodeSegments;
    SlotsFit(Cut(uri), if body == [] then 0 else 1);
  }

  lemma PrepareOne(uri: bytes, body: bytes, database: int)
    requires |Split(Strip(Cut(uri)))| == 1
    ensures CountFrom(Cut(uri), 0) + (if body == [] then 0 else 1) > 0 ==>
              Prepare(uri, body, database) == Some(Request(database, Split(Strip(Cut(uri)))))
  {
    hide Strip, Split, CountFrom, Cut;
  }

  /** The slots as the array holds them: what was recorded, then nothing. */
  lemma SlotsAre(all: seq<bytes>, got: seq<bytes>, count: nat)
    requires |got| <= |all| && count <= |all| && all[..|got|] == got && forall k :: |got| <= k < |all| ==> all[k] == []
    ensures all[..count] == Slots(got, |all|, count)
  {
    assert all == got + seq(|all| - |got|, _ => []);
  }

  /** cmd_run up to the sending of the command, on a NUL-terminated path. */
  method Run(mem: bytes, length: nat, body: bytes, database: int) returns (r: Option<Request>)
    requires length < |mem| && mem[length] == NUL
    ensures r == Prepare(mem[..length], body, database)
  {
    hide Decode, From, Strip, Split, CountFrom, Recorded, AllDigits, Known, Prepare, Slots, IsHex;
    var cutLen := IndexOf(mem[..length], QUESTION, 0);
    ghost var uri := mem[..length];
    var cut := mem[..cutLen];
    assert cut == Cut(uri);
    var n := CountParams(cut);
    if body != [] { n := n + 1; }
    if n == 0 {
      PrepareNone(uri, body, database);
      return None;
    }
    var len := SelectFormat(cut);
    EndByte(mem, length, cutLen, len);
    ghost var path := mem[..len];
    assert cut[..len] == path;
    var slash := IndexOf(mem[..len], SLASH, 0);
    SplitHead(path);
    if slash == len {
      PrepareOne(uri, body, database);
      return Some(Request(database, [mem[..len]]));
    }
    PrepareParts(uri, body, database);
    assert path[..slash] == mem[..slash];
    r := Fill(mem, len, slash, n, body, database, Split(path));
  }

  /** The rest of cmd_run for a path with a slash. */
  method Fill(mem: bytes, len: nat, slash: nat, n: nat, body: bytes, database: int,
              ghost segs: seq<bytes>) returns (r: Option<Request>)
    requires slash < len < |mem| && mem[len] != SLASH && !IsHex(mem[len])
    requires segs == [mem[..slash]] + From(mem[..len], slash + 1) && segs[1..] != [] && n >= 1
    requires var extra := if body == [] then 0 else 1;
             |Recorded((if AllDigits(segs[0]) then segs[1..] else segs)[1..])| + 1 + extra <= n
    ensures var extra := if body == [] then [] else [body];
            var rest := if AllDigits(segs[0]) then segs[1..] else segs;
            var got := [rest[0]] + Recorded(rest[1..]) + extra;
            r == Some(Request(if AllDigits(segs[0]) then DigitsValue(segs[0]) else database,
                              Slots(got, n, if AllDigits(segs[0]) then n - 1 else n)))
  {
    hide Decode, From, Recorded, AllDigits, Slots, IsHex, DigitsValue;
    var argv := new bytes[n](_ => []);
    var hasDb, db := DetectDb(mem, slash);
    var count, name, cmdLen := n, 0, slash;
    var number := database;
    ghost var path := mem[..len];
    if hasDb {
      number := db;
      count := count - 1;
      name := slash + 1;
      SearchBeyond(mem, len, name);
      FromHead(path, name);
      var next := IndexOf(mem[..len + 1], SLASH, name);
      cmdLen := if next < len + 1 then next - name else len - name;
    }
    ghost var rest := if hasDb then segs[1..] else segs;
    var p := name + cmdLen + 1;
    assert segs[1..] == From(path, slash + 1);
    assert rest[1..] == From(path, p) && rest[0] == mem[name..name + cmdLen];
    argv[0] := mem[name..name + cmdLen];
    assert argv[..1] == [rest[0]];
    var cur := SplitArguments(mem, len, p, argv, 1);
    ghost var got := [rest[0]] + Recorded(rest[1..]);
    if body != [] {
      argv[cur] := body;
      got := got + [body];
      cur := cur + 1;
    }
    assert got == [rest[0]] + Recorded(rest[1..]) + (if body == [] then [] else [body]);
    assert argv[..][..cur] == got;
    SlotsAre(argv[..], got, count);
    r := Some(Request(number, argv[..count]));
  }

  lemma PrepareNone(uri: bytes, body: bytes, database: int)
    requires CountFrom(Cut(uri), 0) + (if body == [] then 0 else 1) == 0
    ensures Prepare(uri, body, database) == None
  {
    hide Strip, Split, CountFrom, Cut;
  }

  lemma SplitHead(path: bytes)
    ensures var i := IndexOf(path, SLASH, 0);
            if i == |path| then Split(path) == [path]
            else Split(path) == [path[..i]] + From(path, i + 1) && |Split(path)| >= 2
  {
  }
}
