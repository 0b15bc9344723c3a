/**
 The reader of src/jansson/src/load.c as it runs: a cached stream, a growing saved text, a current
 token and a recursive descent over them, proved to compute JsonLex.Scan and JsonValue.Load.
 */
module JsonReader {
  import opened Bytes
  import Utf8
  import opened JsonString
  import opened JsonLex
  import opened JsonValue
  import HashTable

  /** stream_t, over a buffer. */
  class Source {
    const data: bytes
    var pos: nat
    var buffer: bytes
    var bufferPos: nat
    var status: Status

    constructor (data: bytes)
      ensures Valid() && Abs() == Start(data) && this.data == data
    {
      this.data := data;
      pos, buffer, bufferPos, status := 0, [], 0, StreamOk;
    }

    /** One ASCII character, or the bytes of one longer character. */
    ghost predicate Valid()
      reads this
    {
      && pos <= |data| && bufferPos <= |buffer|
      && (status == StreamOk && |buffer| >= 2 ==> forall i :: 0 <= i < |buffer| ==> buffer[i] >= 0x80)
      && (status == StreamOk && |buffer| == 1 ==> buffer[0] < 0x80)
    }

    /** The cached bytes not read yet; a NUL ends the cache. */
    function Cached(): bytes
      requires bufferPos <= |buffer|
      reads this
    {
      if bufferPos < |buffer| && buffer[bufferPos] != NUL then buffer[bufferPos..] else []
    }

    ghost function Abs(): (s: Stream)
      requires Valid()
      reads this
      ensures WellFormed(s)
    {
      if status != StreamOk then Stream([], 0, status)
      else Stream(Cached() + data[pos..], if |buffer| >= 2 then |Cached()| else 0, StreamOk)
    }

    /** c is the character read last, still in the cache. */
    ghost predicate Last(c: Char)
      requires Valid()
      reads this
    {
      c.Ch? ==> status == StreamOk && bufferPos >= 1 && buffer[bufferPos - 1] == c.b
    }

    /** stream_get. */
    method Get() returns (c: Char)
      requires Valid()
      modifies `pos, `buffer, `bufferPos, `status
      ensures Valid() && (c, Abs()) == JsonLex.Get(old(Abs())) && Last(c)
    {
      hide JsonLex.Get;
      GetCases(Abs());
      if status == StreamEof { return EndOfInput; }
      if status == StreamError { return BadInput; }
      if Cached() == [] {
        c := GetFresh();
      } else {
        c := Take();
      }
    }

    /** With nothing cached, the next character is read from the buffer first. */
    method GetFresh() returns (c: Char)
      requires Valid() && status == StreamOk && Cached() == []
      modifies `pos, `buffer, `bufferPos, `status
      ensures Valid() && (c, Abs()) == JsonLex.Get(old(Abs())) && Last(c)
    {
      hide JsonLex.Get, Utf8.Iterate;
      assert Cached() + data[pos..] == data[pos..];
      GetCases(Abs());
      if pos == |data| {
        status := StreamEof;
        return EndOfInput;
      }
      var ok := Fill();
      if !ok {
        status := StreamError;
        return BadInput;
      }
      assert buffer[0..] == buffer;
      c := Take();
    }

    /** The next byte in the cache. */
    method Take() returns (c: Char)
      requires Valid() && status == StreamOk && bufferPos < |buffer|
      modifies `bufferPos
      ensures Valid() && c == Ch(buffer[old(bufferPos)]) && Last(c)
      ensures Abs() == Stream((old(buffer[bufferPos..]) + data[pos..])[1..], |buffer| - old(bufferPos) - 1, StreamOk)
    {
      ghost var before := buffer[bufferPos..] + data[pos..];
      c := Ch(buffer[bufferPos]);
      bufferPos := bufferPos + 1;
      assert Cached() == buffer[bufferPos..];
      assert before[1..] == Cached() + data[pos..];
    }

    /** Reads one whole character into the empty cache; false if it is not UTF-8. */
    method Fill() returns (ok: bool)
      requires Valid() && status == StreamOk && Cached() == [] && pos < |data|
      modifies `pos, `buffer, `bufferPos
      ensures pos <= |data| && bufferPos == 0 < |buffer|
      ensures ok ==> Valid() && buffer + data[pos..] == data[old(pos)..]
      ensures ok ==>
                JsonLex.Get(old(Abs())) == (Ch(buffer[0]), Stream(data[old(pos)..][1..], |buffer| - 1, StreamOk))
      ensures !ok ==> JsonLex.Get(old(Abs())) == (BadInput, Stream([], 0, StreamError))
    {
      hide Utf8.CheckFull, JsonLex.Get;
      ghost var rest := data[pos..];
      assert Cached() + rest == rest;
      assert Abs() == Start(rest);
      GetFirst(rest);
      var c := data[pos];
      pos := pos + 1;
      buffer, bufferPos := [c], 0;
      if c < 0x80 {
        SplitAt(data, old(pos), pos, buffer);
        return true;
      }
      ok := FillLong();
      if ok { SplitAt(data, old(pos), pos, buffer); }
    }

    /** The rest of a longer character, and whether it is one. */
    method FillLong() returns (ok: bool)
      requires 1 <= pos <= |data| && buffer == [data[pos - 1]] && bufferPos == 0 && data[pos - 1] >= 0x80
      modifies `pos, `buffer
      ensures old(pos) <= pos <= |data| && |buffer| > 0
      ensures var rest := data[old(pos) - 1..];
              var count := Utf8.CheckFirst(rest[0]);
              && (ok <==> count != 0 && count <= |rest| && Utf8.CheckFull(rest, count).Some?)
              && (ok ==> pos == old(pos) - 1 + count && |buffer| == count >= 2 && buffer == rest[..count]
                         && forall i :: 0 <= i < |buffer| ==> buffer[i] >= 0x80)
    {
      hide Utf8.CheckFull;
      ghost var rest := data[pos - 1..];
      var count := Utf8.CheckFirst(buffer[0]);
      if count == 0 { return false; }
      ReadRest(count);
      var full := Utf8.CheckFullLoop(buffer, count);
      if count > |rest| {
        BadEnd(buffer, count);
      } else {
        assert rest[..count] == buffer;
        SameCheck(rest, buffer, count);
      }
      ok := full.Some?;
    }

    /** The continuation bytes of a sequence of `count` bytes; past the end of the input each reads as 0xFF. */
    method ReadRest(count: nat)
      requires 1 <= pos <= |data| && buffer == [data[pos - 1]] && bufferPos == 0 && count >= 2
      modifies `pos, `buffer
      ensures |buffer| == count && old(pos) <= pos <= |data|
      ensures old(pos) - 1 + count <= |data| ==> pos == old(pos) - 1 + count && buffer == data[old(pos) - 1..pos]
      ensures old(pos) - 1 + count > |data| ==> pos == |data| && buffer[count - 1] == 0xFF
    {
      var i := 1;
      ghost var start := pos - 1;
      while i < count
        invariant 1 <= i <= count && |buffer| == i
        invariant start < pos <= |data|
        invariant pos <= start + i
        invariant pos == start + i ==> buffer == data[start..pos]
        invariant pos < start + i ==> pos == |data| && buffer[i - 1] == 0xFF && i >= 2
      {
        if pos == |data| {
          buffer := buffer + [0xFF];
        } else {
          buffer := buffer + [data[pos]];
          pos := pos + 1;
        }
        i := i + 1;
      }
    }

    /** stream_unget, of the character read last. */
    method Unget(c: Char)
      requires Valid() && Last(c)
      modifies `bufferPos
      ensures Valid() && Abs() == JsonLex.Unget(old(Abs()), c)
    {
      if !c.Ch? { return; }
      ghost var before := Cached();
      bufferPos := bufferPos - 1;
      if c.b != NUL {
        assert Cached() == [c.b] + before;
        assert [c.b] + before + data[pos..] == [c.b] + (before + data[pos..]);
      }
    }
  }

  /** lex_t. */
  class Lexer {
    const stream: Source
    var saved: bytes
    var token: Token
    var depth: nat

    constructor (data: bytes)
      ensures fresh(stream) && stream.Valid() && stream.data == data && stream.Abs() == Start(data)
    {
      stream := new Source(data);
      saved, token, depth := [], Invalid, 0;
    }

    /** lex_get_save. */
    method GetSave() returns (c: Char)
      requires stream.Valid()
      modifies stream, `saved
      ensures stream.Valid() && (c, stream.Abs()) == Get(old(stream.Abs())) && stream.Last(c)
      ensures saved == old(saved) + Taken(c)
    {
      hide Get, stream.Valid, stream.Abs, stream.Last;
      c := stream.Get();
      if c.Ch? { saved := saved + [c.b]; }
    }

    /** lex_unget_unsave. */
    method UngetUnsave(ghost text: bytes, c: Char)
      requires stream.Valid() && stream.Last(c) && saved == text + Taken(c)
      modifies stream, `saved
      ensures stream.Valid() && stream.Abs() == Unget(old(stream.Abs()), c) && saved == text
    {
      hide Unget, stream.Valid, stream.Abs, stream.Last;
      stream.Unget(c);
      if c.Ch? { saved := saved[..|saved| - 1]; }
    }

    /** The loops that read on while a test holds. */
    method GetWhile(test: byte -> bool) returns (c: Char)
      requires stream.Valid()
      modifies stream, `saved
      ensures stream.Valid() && stream.Last(c)
      ensures var r := While(test, old(stream.Abs()));
              c == r.next && stream.Abs() == r.after && saved == old(saved) + r.text + Taken(c)
    {
      hide Get, stream.Valid, stream.Abs, stream.Last, While;
      ghost var s0, done := stream.Abs(), [];
      ghost var s := s0;
      c := GetSave();
      WhileSelf(test, s0);
      while c.Ch? && test(c.b)
        invariant stream.Valid() && stream.Last(c) && WellFormed(s) && (c, stream.Abs()) == Get(s)
        invariant saved == old(saved) + done + Taken(c)
        invariant Follows(While(test, s0), done, While(test, s))
        decreases |s.rest|
      {
        WhileUnfold(test, s);
        FollowsOn(While(test, s0), done, While(test, s), [c.b], While(test, stream.Abs()));
        done := done + [c.b];
        s := stream.Abs();
        c := GetSave();
      }
      WhileUnfold(test, s);
      assert done + [] == done;
    }

    /** The four digits of a \\u escape, and the character after them. */
    method ScanHex() returns (ok: bool, c: Char, ghost s: Stream, ghost piece: bytes)
      requires stream.Valid()
      modifies stream, `saved
      ensures stream.Valid() && WellFormed(s) && |s.rest| <= |old(stream.Abs()).rest|
      ensures !ok ==> HexThen(old(stream.Abs()), 4, [BACKSLASH, LETTER_U]) == None
      ensures ok ==> HexThen(old(stream.Abs()), 4, [BACKSLASH, LETTER_U]) == Prepend(piece, StringChars(s))
      ensures ok ==> (c, stream.Abs()) == Get(s) && stream.Last(c)
      ensures ok ==> |piece| >= 2 && piece[..2] == [BACKSLASH, LETTER_U] && saved == old(saved) + piece[2..] + Taken(c)
    {
      hide Get, stream.Valid, stream.Abs, stream.Last, StringChars, HexThen;
      ghost var s0 := stream.Abs();
      s, piece := s0, [BACKSLASH, LETTER_U];
      c := GetSave();
      var i := 0;
      while i < 4
        invariant 0 <= i <= 4 && |piece| == 2 + i && HexSoFar(piece)
        invariant stream.Valid() && WellFormed(s) && (c, stream.Abs()) == Get(s) && stream.Last(c)
        invariant |s.rest| <= |s0.rest|
        invariant saved == old(saved) + piece[2..] + Taken(c)
        invariant HexThen(s0, 4, [BACKSLASH, LETTER_U]) == HexThen(s, 4 - i, piece)
      {
        HexUnfold(s, 4 - i, piece);
        if !c.Ch? || !IsHex(c.b) { return false, c, s, piece; }
        piece := piece + [c.b];
        s := stream.Abs();
        c := GetSave();
        i := i + 1;
      }
      HexUnfold(s, 0, piece);
      ok := true;
    }

    /** An escape, after its backslash, and the character after it. */
    method ScanEscape(ghost s0: Stream) returns (ok: bool, c: Char, ghost s: Stream, ghost piece: bytes)
      requires stream.Valid() && WellFormed(s0) && Get(s0) == (Ch(BACKSLASH), stream.Abs())
      modifies stream, `saved
      ensures stream.Valid() && WellFormed(s) && |s.rest| < |s0.rest|
      ensures !ok ==> StringChars(s0) == None
      ensures ok ==> StringChars(s0) == Prepend(piece, StringChars(s))
      ensures ok ==> (c, stream.Abs()) == Get(s) && stream.Last(c)
      ensures ok ==> |piece| >= 1 && piece[0] == BACKSLASH && saved == old(saved) + piece[1..] + Taken(c)
    {
      hide Get, stream.Valid, stream.Abs, stream.Last, StringChars, HexThen;
      CharsUnfold(s0);
      s, piece := stream.Abs(), [];
      c := GetSave();
      if c == Ch(LETTER_U) {
        ok, c, s, piece := ScanHex();
        if ok { assert [LETTER_U] + piece[2..] == piece[1..]; }
        return;
      }
      if !c.Ch? || Unshort(c.b) == None { return false, c, s, piece; }
      piece := [BACKSLASH, c.b];
      s := stream.Abs();
      c := GetSave();
      ok := true;
    }

    /** One character or escape, beginning with c, and the character after it. */
    method ScanOne(c: Char, ghost s0: Stream) returns (ok: bool, c': Char, ghost s: Stream, ghost piece: bytes)
      requires stream.Valid() && WellFormed(s0) && (c, stream.Abs()) == Get(s0) && c != Ch(QUOTE)
      modifies stream, `saved
      ensures stream.Valid() && WellFormed(s)
      ensures !ok ==> StringChars(s0) == None
      ensures ok ==> c.Ch? && |s.rest| < |s0.rest| && StringChars(s0) == Prepend(piece, StringChars(s))
      ensures ok ==> (c', stream.Abs()) == Get(s) && stream.Last(c')
      ensures ok ==> |piece| >= 1 && piece[0] == c.b && saved == old(saved) + piece[1..] + Taken(c')
    {
      hide Get, stream.Valid, stream.Abs, stream.Last, StringChars;
      CharsUnfold(s0);
      if !c.Ch? || c.b < 0x20 { return false, c, s0, []; }
      if c.b == BACKSLASH {
        ok, c', s, piece := ScanEscape(s0);
        return;
      }
      piece := [c.b];
      s := stream.Abs();
      c' := GetSave();
      ok := true;
    }

    /** The scanning pass of lex_scan_string, after the opening quote. */
    method ScanChars() returns (ok: bool)
      requires stream.Valid()
      modifies stream, `saved
      ensures stream.Valid()
      ensures ok <==> StringChars(old(stream.Abs())).Some?
      ensures ok ==>
                old(saved) <= saved && StringChars(old(stream.Abs())).value == (saved[|old(saved)|..], stream.Abs())
    {
      hide Get, stream.Valid, stream.Abs, stream.Last, StringChars;
      ghost var s0, done := stream.Abs(), [];
      ghost var s := s0;
      var c := GetSave();
      PrependNothing(StringChars(s0));
      while c != Ch(QUOTE)
        invariant stream.Valid() && WellFormed(s) && (c, stream.Abs()) == Get(s) && stream.Last(c)
        invariant saved == old(saved) + done + Taken(c)
        invariant StringChars(s0) == Prepend(done, StringChars(s))
        decreases |s.rest|
      {
        var more, c';
        ghost var s', piece;
        more, c', s', piece := ScanOne(c, s);
        if !more { return false; }
        PrependTwice(done, piece, StringChars(s'));
        assert [c.b] + piece[1..] == piece;
        done := done + piece;
        c, s := c', s';
      }
      CharsUnfold(s);
      ok := true;
      assert saved == old(saved) + (done + [QUOTE]);
    }

    /** The token is the one expected; after a valid token the stream is where it should be. */
    ghost predicate Reads(r: (Token, Stream))
      requires stream.Valid()
      reads this, stream
    {
      token == r.0 && (token != Invalid ==> stream.Abs() == r.1)
    }

    /** lex_scan_number. */
    method ScanNumber(b: byte)
      requires stream.Valid() && (IsDigit(b) || b == MINUS) && saved == [b]
      modifies stream, `saved, `token
      ensures stream.Valid() && Reads(JsonLex.ScanNumber(b, old(stream.Abs())))
    {
      hide Get, stream.Valid, stream.Abs, stream.Last, While, NumberEnd, Unget;
      token := Invalid;
      ghost var sign: bytes := [];
      var c := Ch(b);
      if b == MINUS {
        sign := [MINUS];
        c := GetSave();
      }
      ghost var text := sign + [ZERO];
      if c == Ch(ZERO) {
        c := GetSave();
        if DigitChar(c) {
          UngetUnsave(text, c);
          return;
        }
      } else if DigitChar(c) {
        ghost var s := stream.Abs();
        text := sign + [c.b] + While(IsDigit, s).text;
        c := GetWhile(IsDigit);
      } else {
        UngetUnsave(sign, c);
        return;
      }
      FinishNumber(text, c);
    }

    /** The end of a number, from the character after its integer part. */
    method FinishNumber(ghost text: bytes, c0: Char)
      requires stream.Valid() && stream.Last(c0) && saved == text + Taken(c0) && token == Invalid
      modifies stream, `saved, `token
      ensures stream.Valid() && Reads(NumberEnd(text, c0, old(stream.Abs())))
    {
      hide Get, stream.Valid, stream.Abs, While, Unget, Exponent;
      LastOk(c0);
      var c := c0;
      if !Is(c, 46) && !IsExponent(c) {
        UngetUnsave(text, c);
        var v := NumberValue(saved);
        if v.Some? { token := IntegerToken(v.value); }
        return;
      }
      ghost var text' := text;
      if Is(c, 46) {
        c := stream.Get();
        if !DigitChar(c) {
          stream.Unget(c);
          return;
        }
        saved := saved + [c.b];
        text' := text + [46, c.b] + While(IsDigit, stream.Abs()).text;
        c := GetWhile(IsDigit);
      }
      FinishReal(text', c);
    }

    /** The exponent of a real. */
    method FinishReal(ghost text: bytes, c0: Char)
      requires stream.Valid() && stream.Last(c0) && saved == text + Taken(c0) && token == Invalid
      modifies stream, `saved, `token
      ensures stream.Valid() && Reads(Exponent(text, c0, old(stream.Abs())))
    {
      hide Get, stream.Valid, stream.Abs, While, Unget;
      LastOk(c0);
      var c := c0;
      if IsExponent(c) {
        c := GetSave();
        ghost var text' := text + [c0.b];
        if Is(c, 43) || Is(c, MINUS) {
          text' := text' + [c.b];
          c := GetSave();
        }
        if !DigitChar(c) {
          UngetUnsave(text', c);
          return;
        }
        text' := text' + [c.b] + While(IsDigit, stream.Abs()).text;
        c := GetWhile(IsDigit);
        UngetUnsave(text', c);
      } else {
        UngetUnsave(text, c);
      }
      token := RealToken(saved);
    }

    lemma LastOk(c: Char)
      requires stream.Valid() && stream.Last(c)
      ensures c.Ch? ==> stream.Abs().status == StreamOk
    {
    }

    /** lex_scan_string. */
    method ScanString()
      requires stream.Valid() && saved == [QUOTE]
      modifies stream, `saved, `token
      ensures stream.Valid()
      ensures StringChars(old(stream.Abs())) == None ==> token == Invalid
      ensures var r := StringChars(old(stream.Abs()));
              r.Some? ==>
                token == (if Unescape(r.value.0) == None then Invalid else StringToken(Unescape(r.value.0).value))
                          && stream.Abs() == r.value.1
    {
      hide stream.Valid, stream.Abs, StringChars, Unescape, Scanned;
      token := Invalid;
      var ok := ScanChars();
      if ok {
        var t := DecodeText(saved[1..]);
        if t.Some? { token := StringToken(t.value); }
      }
    }

    /** lex_scan. */
    method Scan()
      requires stream.Valid()
      modifies stream, `saved, `token
      ensures stream.Valid() && Reads(JsonLex.Scan(old(stream.Abs())))
    {
      hide Get, stream.Valid, stream.Abs, stream.Last, While, JsonLex.ScanNumber, StringChars, Unescape, Unget, Word;
      saved := [];
      var c := SkipBlanks();
      if c == EndOfInput {
        token := EndToken;
        return;
      }
      if c == BadInput {
        token := Invalid;
        return;
      }
      saved := saved + [c.b];
      if IsPunct(c.b) {
        token := Punct(c.b);
      } else if c.b == QUOTE {
        ScanString();
      } else if IsDigit(c.b) || c.b == MINUS {
        ScanNumber(c.b);
      } else if IsAlpha(c.b) {
        ghost var text := [c.b] + While(IsAlpha, stream.Abs()).text;
        c := GetWhile(IsAlpha);
        UngetUnsave(text, c);
        token := Word(saved);
      } else {
        token := Invalid;
      }
    }

    method SkipBlanks() returns (c: Char)
      requires stream.Valid()
      modifies stream
      ensures stream.Valid() && stream.Last(c)
      ensures var r := While(IsBlank, old(stream.Abs())); c == r.next && stream.Abs() == r.after
    {
      hide Get, stream.Valid, stream.Abs, stream.Last, While;
      ghost var s := stream.Abs();
      c := stream.Get();
      while c.Ch? && IsBlank(c.b)
        invariant stream.Valid() && stream.Last(c) && WellFormed(s) && (c, stream.Abs()) == Get(s)
        invariant While(IsBlank, s).next == While(IsBlank, old(stream.Abs())).next
        invariant While(IsBlank, s).after == While(IsBlank, old(stream.Abs())).after
        decreases |s.rest|
      {
        WhileUnfold(IsBlank, s);
        s := stream.Abs();
        c := stream.Get();
      }
      WhileUnfold(IsBlank, s);
    }

    /** The stream stands at s, unless the token is invalid and nothing more will be read. */
    ghost predicate Standing(s: Stream)
      requires stream.Valid()
      reads this, stream
    {
      WellFormed(s) && (token != Invalid ==> stream.Abs() == s)
    }

    /** parse_value; s is where the current token ends. */
    method ParseValue(fl: LoadFlags, ghost s: Stream) returns (r: Option<Json>)
      requires stream.Valid() && Standing(s)
      modifies this, stream
      ensures stream.Valid() && Gives(JsonValue.ParseValue(old(token), s, old(depth), fl), r)
      ensures r.Some? ==>
                stream.Abs() == JsonValue.ParseValue(old(token), s, old(depth), fl).value.1 && depth == old(depth)
      decreases |s.rest|, if token == Invalid then 0 else 2
    {
      hide stream.Valid, stream.Abs, JsonLex.Scan, ParseItems, ParseMembers;
      depth := depth + 1;
      if depth > MAX_DEPTH { return None; }
      match token {
        case StringToken(val) =>
          if !fl.allowNul && !NulFree(val) { return None; }
          r := Some(Text(val));
        case IntegerToken(v) => r := Some(Integer(v));
        case RealToken(text) => r := Some(Real(text));
        case TrueToken => r := Some(Boolean(true));
        case FalseToken => r := Some(Boolean(false));
        case NullToken => r := Some(Null);
        case Punct(c) =>
          if c == OPEN_BRACE {
            r := ParseObject(fl, s);
          } else if c == OPEN_BRACKET {
            r := ParseArray(fl, s);
          } else {
            return None;
          }
        case Invalid => return None;
        case EndToken => return None;
      }
      if r == None { return; }
      depth := depth - 1;
    }

    /** parse_array. */
    method ParseArray(fl: LoadFlags, ghost s: Stream) returns (r: Option<Json>)
      requires stream.Valid() && WellFormed(s) && stream.Abs() == s && 1 <= depth <= MAX_DEPTH
      modifies this, stream
      ensures stream.Valid() && Gives(JsonValue.ParseValue(Punct(OPEN_BRACKET), s, old(depth) - 1, fl), r)
      ensures r.Some? ==>
                stream.Abs() == JsonValue.ParseValue(Punct(OPEN_BRACKET), s, old(depth) - 1, fl).value.1
                  && depth == old(depth)
      decreases |s.rest|, 1
    {
      hide stream.Valid, stream.Abs, JsonLex.Scan, JsonValue.ParseValue, ParseItems;
      ArrayUnfold(s, depth - 1, fl);
      Scan();
      if token == Punct(CLOSE_BRACKET) { return Some(Array([])); }
      ghost var (t0, s0) := JsonLex.Scan(s);
      ghost var s1 := s0;
      var items: seq<Json> := [];
      ItemsEnd(s0, depth, fl, items);
      while token != EndToken
        invariant stream.Valid() && Standing(s1) && |s1.rest| <= |s.rest| && depth == old(depth)
        invariant token != Invalid && token != EndToken ==> |s1.rest| < |s.rest|
        invariant ParseItems(t0, s0, depth, fl, []) == ParseItems(token, s1, depth, fl, items)
        decreases |s1.rest|
      {
        ItemsUnfold(token, s1, depth, fl, items);
        ghost var p := JsonValue.ParseValue(token, s1, depth, fl);
        var elem := ParseValue(fl, s1);
        if elem == None { return None; }
        items := items + [elem.value];
        Scan();
        ghost var (t2, s2) := JsonLex.Scan(p.value.1);
        if token != Punct(COMMA) {
          if token != Punct(CLOSE_BRACKET) { return None; }
          return Some(Array(items));
        }
        Scan();
        s1 := JsonLex.Scan(s2).1;
      }
      ItemsEnd(s1, depth, fl, items);
      return None;
    }

    /** parse_object. */
    method ParseObject(fl: LoadFlags, ghost s: Stream) returns (r: Option<Json>)
      requires stream.Valid() && WellFormed(s) && stream.Abs() == s && 1 <= depth <= MAX_DEPTH
      modifies this, stream
      ensures stream.Valid() && Gives(JsonValue.ParseValue(Punct(OPEN_BRACE), s, old(depth) - 1, fl), r)
      ensures r.Some? ==>
                stream.Abs() == JsonValue.ParseValue(Punct(OPEN_BRACE), s, old(depth) - 1, fl).value.1
                  && depth == old(depth)
      decreases |s.rest|, 1
    {
      hide stream.Valid, stream.Abs, JsonLex.Scan, JsonValue.ParseValue, ParseMembers, HashTable.Lookup, HashTable.Put;
      ObjectUnfold(s, depth - 1, fl);
      Scan();
      if token == Punct(CLOSE_BRACE) { return Some(Object([])); }
      ghost var (t0, s0) := JsonLex.Scan(s);
      ghost var s1 := s0;
      var members: seq<Member> := [];
      while true
        invariant stream.Valid() && Standing(s1) && |s1.rest| <= |s.rest| && depth == old(depth)
        invariant token.StringToken? ==> |s1.rest| < |s.rest|
        invariant ParseMembers(t0, s0, depth, fl, []) == ParseMembers(token, s1, depth, fl, members)
        decreases |s1.rest|
      {
        MembersUnfold(token, s1, depth, fl, members);
        if !token.StringToken? { return None; }
        var key := token.val;
        if !NulFree(key) { return None; }
        if fl.rejectDuplicates && HashTable.Lookup(members, key).Some? { return None; }
        Scan();
        if token != Punct(COLON) { return None; }
        ghost var s2 := stream.Abs();
        Scan();
        ghost var s3 := JsonLex.Scan(s2).1;
        ghost var p := JsonValue.ParseValue(token, s3, depth, fl);
        var value := ParseValue(fl, s3);
        if value == None { return None; }
        members := HashTable.Put(members, key, value.value);
        Scan();
        if token != Punct(COMMA) {
          if token != Punct(CLOSE_BRACE) { return None; }
          return Some(Object(members));
        }
        ghost var s4 := stream.Abs();
        Scan();
        s1 := JsonLex.Scan(s4).1;
      }
    }

    /** parse_json. */
    method ParseJson(fl: LoadFlags) returns (r: Option<Json>)
      requires stream.Valid() && stream.Abs() == Start(stream.data)
      modifies this, stream
      ensures stream.Valid() && r == Load(stream.data, fl)
    {
      hide stream.Valid, stream.Abs, JsonLex.Scan, JsonValue.ParseValue;
      depth := 0;
      Scan();
      if !fl.decodeAny && token != Punct(OPEN_BRACKET) && token != Punct(OPEN_BRACE) { return None; }
      r := ParseValue(fl, JsonLex.Scan(Start(stream.data)).1);
      if r == None { return; }
      if !fl.disableEofCheck {
        Scan();
        if token != EndToken { return None; }
      }
    }
  }

  /** json_loadb. */
  method LoadBuffer(data: bytes, fl: LoadFlags) returns (r: Option<Json>)
    ensures r == Load(data, fl)
  {
    var lex := new Lexer(data);
    r := lex.ParseJson(fl);
  }

  predicate Gives(p: Option<(Json, Stream)>, r: Option<Json>) {
    (p == None && r == None) || (p.Some? && r == Some(p.value.0))
  }

  lemma ArrayUnfold(s: Stream, depth: nat, fl: LoadFlags)
    requires WellFormed(s) && depth < MAX_DEPTH
    ensures var (t, s1) := Scan(s);
            var r := ParseValue(Punct(OPEN_BRACKET), s, depth, fl);
            if t == Punct(CLOSE_BRACKET) then r == Some((Array([]), s1))
            else
              var p := ParseItems(t, s1, depth + 1, fl, []);
              if p == None then r == None else r == Some((Array(p.value.0), p.value.1))
  {
    hide Scan;
  }

  lemma ObjectUnfold(s: Stream, depth: nat, fl: LoadFlags)
    requires WellFormed(s) && depth < MAX_DEPTH
    ensures var (t, s1) := Scan(s);
            var r := ParseValue(Punct(OPEN_BRACE), s, depth, fl);
            if t == Punct(CLOSE_BRACE) then r == Some((Object([]), s1))
            else
              var p := ParseMembers(t, s1, depth + 1, fl, []);
              if p == None then r == None else r == Some((Object(p.value.0), p.value.1))
  {
    hide Scan;
  }

  lemma ItemsEnd(s: Stream, depth: nat, fl: LoadFlags, acc: seq<Json>)
    requires WellFormed(s)
    ensures ParseItems(EndToken, s, depth, fl, acc) == None
  {
  }

  lemma ItemsUnfold(tok: Token, s: Stream, depth: nat, fl: LoadFlags, acc: seq<Json>)
    requires WellFormed(s)
    ensures var p := ParseValue(tok, s, depth, fl);
            var r := ParseItems(tok, s, depth, fl, acc);
            && (p == None ==> r == None)
            && (p.Some? ==>
                  var (t, s2) := Scan(p.value.1);
                  var (t', s3) := Scan(s2);
                  r == if t == Punct(COMMA) then ParseItems(t', s3, depth, fl, acc + [p.value.0])
                       else if t == Punct(CLOSE_BRACKET) then Some((acc + [p.value.0], s2))
                       else None)
  {
    hide Scan, ParseValue;
  }

  lemma MembersUnfold(tok: Token, s: Stream, depth: nat, fl: LoadFlags, acc: seq<Member>)
    requires WellFormed(s)
    ensures var r := ParseMembers(tok, s, depth, fl, acc);
            && (!tok.StringToken? || !NulFree(tok.val) ==> r == None)
            && (tok.StringToken? && fl.rejectDuplicates && HashTable.Lookup(acc, tok.val).Some? ==> r == None)
            && (Scan(s).0 != Punct(COLON) ==> r == None)
            && (tok.StringToken? && NulFree(tok.val) && Scan(s).0 == Punct(COLON)
                && !(fl.rejectDuplicates && HashTable.Lookup(acc, tok.val).Some?) ==>
                  var (t, s2) := Scan(Scan(s).1);
                  var p := ParseValue(t, s2, depth, fl);
                  && (p == None ==> r == None)
                  && (p.Some? ==>
                        var (t', s4) := Scan(p.value.1);
                        var (t'', s5) := Scan(s4);
                        var ms := HashTable.Put(acc, tok.val, p.value.0);
                        r == if t' == Punct(COMMA) then ParseMembers(t'', s5, depth, fl, ms)
                             else if t' == Punct(CLOSE_BRACE) then Some((ms, s4))
                             else None))
  {
    hide Scan, ParseValue, HashTable.Lookup, HashTable.Put;
  }

  ghost predicate HexSoFar(p: bytes) {
    |p| >= 2 && p[0] == BACKSLASH && p[1] == LETTER_U && forall i :: 2 <= i < |p| ==> IsHex(p[i])
  }

  lemma PrependNothing(r: Option<(bytes, Stream)>)
    ensures Prepend([], r) == r
  {
    if r.Some? { assert [] + r.value.0 == r.value.0; }
  }

  lemma HexUnfold(s: Stream, n: nat, p: bytes)
    requires WellFormed(s) && n <= 4 && |p| == 6 - n && HexSoFar(p)
    ensures n == 0 ==> HexThen(s, n, p) == Prepend(p, StringChars(s))
    ensures var (c, s1) := Get(s);
            n > 0 ==> HexThen(s, n, p) == if c.Ch? && IsHex(c.b) then HexThen(s1, n - 1, p + [c.b]) else None
  {
    hide Get, StringChars;
  }

  lemma CharsUnfold(s: Stream)
    requires WellFormed(s)
    ensures var (c, s1) := Get(s);
            && (!c.Ch? || c.b < 0x20 ==> StringChars(s) == None)
            && (c == Ch(QUOTE) ==> StringChars(s) == Some(([QUOTE], s1)))
            && (c.Ch? && c.b >= 0x20 && c.b != QUOTE && c.b != BACKSLASH ==>
                 StringChars(s) == Prepend([c.b], StringChars(s1)))
            && (c == Ch(BACKSLASH) ==>
                  var (d, s2) := Get(s1);
                  && (!d.Ch? ==> StringChars(s) == None)
                  && (d == Ch(LETTER_U) ==> StringChars(s) == HexThen(s2, 4, [BACKSLASH, LETTER_U]))
                  && (d.Ch? && d.b != LETTER_U && Unshort(d.b) == None ==> StringChars(s) == None)
                  && (d.Ch? && d.b != LETTER_U && Unshort(d.b).Some? ==>
                        StringChars(s) == Prepend([BACKSLASH, d.b], StringChars(s2))))
  {
    hide Get, HexThen, Unshort;
  }

  lemma GetCases(s: Stream)
    requires WellFormed(s)
    ensures s.status == StreamEof ==> Get(s) == (EndOfInput, s)
    ensures s.status == StreamError ==> Get(s) == (BadInput, s)
    ensures s == Stream([], 0, StreamOk) ==> Get(s) == (EndOfInput, Stream([], 0, StreamEof))
    ensures s.status == StreamOk && s.rest != [] && (s.cached > 0 || s.rest[0] < 0x80) ==>
              Get(s) == (Ch(s.rest[0]), Stream(s.rest[1..], if s.cached > 0 then s.cached - 1 else 0, StreamOk))
  {
  }

  lemma SplitAt(data: bytes, i: nat, j: nat, piece: bytes)
    requires i <= j <= |data| && piece == data[i..][..j - i]
    ensures piece + data[j..] == data[i..]
  {
  }

  /** The first byte of a character. */
  lemma GetFirst(rest: bytes)
    requires rest != []
    ensures var count := Utf8.CheckFirst(rest[0]);
            if rest[0] < 0x80 then Get(Start(rest)) == (Ch(rest[0]), Start(rest[1..]))
            else if count != 0 && count <= |rest| && Utf8.CheckFull(rest, count).Some?
            then Get(Start(rest)) == (Ch(rest[0]), Stream(rest[1..], count - 1, StreamOk))
            else Get(Start(rest)) == (BadInput, Stream([], 0, StreamError))
  {
    hide Utf8.CheckFull;
  }

  function Taken(c: Char): bytes { if c.Ch? then [c.b] else [] }

  /** r is the span `rest` with `done` taken before it. */
  predicate Follows(r: Span, done: bytes, rest: Span) { r == Span(done + rest.text, rest.next, rest.after) }

  lemma WhileSelf(test: byte -> bool, s: Stream)
    requires WellFormed(s)
    ensures Follows(While(test, s), [], While(test, s))
  {
    hide While;
    assert [] + While(test, s).text == While(test, s).text;
  }

  lemma WhileUnfold(test: byte -> bool, s: Stream)
    requires WellFormed(s)
    ensures var (c, s1) := Get(s);
            if c.Ch? && test(c.b) then Follows(While(test, s), [c.b], While(test, s1))
              else While(test, s) == Span([], c, s1)
  {
    hide Get;
  }

  lemma FollowsOn(r: Span, done: bytes, mid: Span, more: bytes, rest: Span)
    requires Follows(r, done, mid) && Follows(mid, more, rest)
    ensures Follows(r, done + more, rest)
  {
    assert done + (more + rest.text) == done + more + rest.text;
  }

  /** utf8_check_full looks at the first bytes only. */
  lemma SameCheck(b: bytes, c: bytes, size: nat)
    requires size == |c| <= |b| && b[..size] == c && size >= 2
    ensures Utf8.CheckFull(b, size) == Utf8.CheckFull(c, size)
    ensures Utf8.CheckFull(c, size).Some? ==> forall i :: 1 <= i < size ==> c[i] >= 0x80
  {
    assert forall i :: 0 <= i < size ==> b[i] == c[i];
  }

  lemma BadEnd(b: bytes, size: nat)
    requires 2 <= size == |b| && b[size - 1] == 0xFF
    ensures Utf8.CheckFull(b, size) == None
  {
    assert !Utf8.IsContinuation(b[size - 1]);
  }
}
