/**
 format_chunk of src/http.c, the printer whose reader is the chunk states of the parser, and the
 request stream as a whole.
 */
module HttpChunk {
  import opened Bytes
  import opened HttpMachine
  import opened HttpParser

  /** The lower-case digit. */
  function LowerHex(d: nat): (b: byte)
    requires d < 16
    ensures Unhex(b) == d && b != CR
  {
    if d < 10 then 48 + d else 87 + d
  }

  /** The text of %x. */
  function Hex(n: nat): (s: bytes)
    ensures |s| >= 1
  {
    if n < 16 then [LowerHex(n)] else Hex(n / 16) + [LowerHex(n % 16)]
  }

  /** Section 7.1 of RFC 9112: size in hexadecimal, line end, data, line end. */
  function Chunk(piece: bytes): bytes { Hex(|piece|) + CRLF + piece + CRLF }

  function Chunks(pieces: seq<bytes>): bytes {
    if pieces == [] then [] else Chunk(pieces[0]) + Chunks(pieces[1..])
  }

  /** format_chunk: three copies into an exactly sized buffer. */
  method FormatChunk(p: bytes) returns (out: array<byte>)
    requires |p| <= INT_MAX
    ensures fresh(out) && out[..] == Chunk(p)
  {
    var tmp := Hex(|p|) + CRLF;
    var size := |tmp| + |p| + 2;
    out := new byte[size];
    forall i | 0 <= i < |tmp| { out[i] := tmp[i]; }
    forall i | 0 <= i < |p| { out[|tmp| + i] := p[i]; }
    out[|tmp| + |p|] := CR;
    out[|tmp| + |p| + 1] := LF;
    assert out[..] == tmp + p + CRLF;
    assert tmp + p + CRLF == Chunk(p);
  }

  // ----- the reader -----

  /** A byte of a chunk header or trailer delivers nothing. */
  lemma ChunkByte(q: Parser, o: Observed, ch: byte)
    requires BodyState(q.state) && !BulkState(q.state) && ChunkStep(q, ch).Go?
    ensures ByteStep(q, o, ch) == Next(ChunkStep(q, ch).st, o)
  {
    hide Spans, ChunkLength, Unhex;
    var q' := ChunkStep(q, ch).st;
    assert ChunkStep(q, ch).acts == [];
    UnmarkedSpans(o, q.state, ch, q'.state);
    assert Controls(o, []) == o;
  }

  lemma RunByte(q: Parser, o: Observed, ch: byte)
    requires BodyState(q.state) && !BulkState(q.state) && ChunkStep(q, ch).Go?
    ensures Run(q, o, [ch]) == Ok(ChunkStep(q, ch).st, o)
  {
    hide Run, ChunkStep, ByteStep;
    ChunkByte(q, o, ch);
    RunNothing(q, o);
    assert [] + [ch] == [ch];
    RunSnoc(q, o, [], ch, q, o);
  }

  lemma RunTwo(q: Parser, o: Observed, a: byte, b: byte, q1: Parser, q2: Parser)
    requires BodyState(q.state) && !BulkState(q.state) && BodyState(q1.state) && !BulkState(q1.state)
    requires ChunkStep(q, a).Go? && ChunkStep(q, a).st == q1 && ChunkStep(q1, b).Go? && ChunkStep(q1, b).st == q2
    ensures Run(q, o, [a, b]) == Ok(q2, o)
  {
    hide Run, ChunkStep;
    RunByte(q, o, a);
    RunByte(q1, o, b);
    RunCut(q, o, [a], [b]);
    assert [a] + [b] == [a, b];
  }

  /** The digits of %x are read back as the number. */
  lemma {:induction false} RunHex(q: Parser, o: Observed, n: nat)
    requires q.state == ChunkSizeStart
    ensures Run(q, o, Hex(n)) == Ok(q.(state := ChunkSize, length := n), o)
  {
    hide Run;
    if n < 16 {
      RunByte(q, o, LowerHex(n));
    } else {
      RunHex(q, o, n / 16);
      var q' := q.(state := ChunkSize, length := n / 16);
      RunByte(q', o, LowerHex(n % 16));
      RunCut(q, o, Hex(n / 16), [LowerHex(n % 16)]);
      assert n / 16 * 16 + n % 16 == n;
    }
  }

  /** The parser q in chunk state s with n bytes to go. */
  function At(q: Parser, s: State, n: int): Parser { q.(state := s, length := n) }

  lemma RunSizeEnd(q: Parser, o: Observed, n: nat)
    requires n > 0
    ensures Run(At(q, ChunkSize, n), o, CRLF) == Ok(At(q, ChunkData, n), o)
  {
    hide Run;
    assert CRLF == [CR, LF];
    RunTwo(At(q, ChunkSize, n), o, CR, LF, At(q, ChunkSizeAlmostDone, n), At(q, ChunkData, n));
  }

  lemma RunDataEnd(q: Parser, o: Observed)
    ensures Run(At(q, ChunkDataAlmostDone, 0), o, CRLF) == Ok(At(q, ChunkSizeStart, 0), o)
  {
    hide Run;
    assert CRLF == [CR, LF];
    RunTwo(At(q, ChunkDataAlmostDone, 0), o, CR, LF, At(q, ChunkDataDone, 0), At(q, ChunkSizeStart, 0));
  }

  lemma RunData(q: Parser, o: Observed, piece: bytes)
    requires piece != []
    ensures Run(At(q, ChunkData, |piece|), o, piece) == Ok(At(q, ChunkDataAlmostDone, 0), OnData(o, KBody, piece))
  {
    hide Run, OnData;
    BulkRun(At(q, ChunkData, |piece|), o, piece);
  }

  /** One formatted chunk delivers its piece and leads back to the chunk-size state. */
  lemma RunChunk(q: Parser, o: Observed, piece: bytes)
    requires q.state == ChunkSizeStart && piece != []
    ensures Run(q, o, Chunk(piece)) == Ok(At(q, ChunkSizeStart, 0), OnData(o, KBody, piece))
  {
    var n := |piece|;
    var o' := OnData(o, KBody, piece);
    RunHex(q, o, n);
    assert q.(state := ChunkSize, length := n) == At(q, ChunkSize, n);
    hide *;
    RunSizeEnd(q, o, n);
    RunCut(q, o, Hex(n), CRLF);
    RunData(q, o, piece);
    RunCut(q, o, Hex(n) + CRLF, piece);
    RunDataEnd(q, o');
    RunCut(q, o, Hex(n) + CRLF + piece, CRLF);
    ChunkIs(piece);
  }

  lemma ChunkIs(piece: bytes)
    ensures Chunk(piece) == Hex(|piece|) + CRLF + piece + CRLF
  {
  }

  /** Any sequence of formatted pieces is delivered as their concatenation. */
  lemma {:induction false} RunChunks(q: Parser, o: Observed, pieces: seq<bytes>)
    requires q.state == ChunkSizeStart && pieces != [] && forall i :: 0 <= i < |pieces| ==> pieces[i] != []
    ensures Run(q, o, Chunks(pieces)) == Ok(At(q, ChunkSizeStart, 0), OnData(o, KBody, Concat(pieces)))
    decreases |pieces|
  {
    hide Run, Chunk;
    RunChunk(q, o, pieces[0]);
    if |pieces| == 1 {
      assert pieces[1..] == [];
      assert Chunk(pieces[0]) + [] == Chunk(pieces[0]) && pieces[0] + [] == pieces[0];
      assert Chunks(pieces) == Chunk(pieces[0]);
      assert Concat(pieces) == pieces[0];
    } else {
      var q', o' := At(q, ChunkSizeStart, 0), OnData(o, KBody, pieces[0]);
      RunChunks(q', o', pieces[1..]);
      RunCut(q, o, Chunk(pieces[0]), Chunks(pieces[1..]));
      PushTwice(o.main, KBody, pieces[0], Concat(pieces[1..]));
    }
  }

  /** The empty chunk ends the message. */
  lemma RunLastChunk(q: Parser, o: Observed)
    requires q.state == ChunkSizeStart
    ensures var q' := q.(length := 0, flags := q.flags.(trailing := true));
            Run(q, o, Chunk([])) == Ok(q'.(state := NewState(q')), OnControl(o, OnComplete))
  {
    hide Run, Hex;
    assert Chunk([]) == Hex(0) + CRLF + CRLF;
    var t := q.(length := 0, flags := q.flags.(trailing := true));
    RunHex(q, o, 0);
    RunTwoEnd(q.(state := ChunkSize, length := 0), o);
    RunCut(q, o, Hex(0), CRLF);
    RunTrailer(t.(state := HeaderFieldStart), o);
    RunCut(q, o, Hex(0) + CRLF, CRLF);
  }

  lemma RunTwoEnd(q: Parser, o: Observed)
    requires q.state == ChunkSize && q.length == 0
    ensures Run(q, o, CRLF) == Ok(q.(state := HeaderFieldStart, flags := q.flags.(trailing := true)), o)
  {
    hide Run;
    RunByte(q, o, CR);
    RunByte(q.(state := ChunkSizeAlmostDone), o, LF);
    RunCut(q, o, [CR], [LF]);
    assert [CR] + [LF] == CRLF;
  }

  lemma TrailerCr(q: Parser, o: Observed)
    requires q.state == HeaderFieldStart && q.flags.trailing
    ensures ByteStep(q, o, CR) == Next(q.(state := HeadersAlmostDone), o)
  {
    hide Spans;
    UnmarkedSpans(o, q.state, CR, HeadersAlmostDone);
    assert Controls(o, []) == o;
  }

  lemma TrailerLf(q: Parser, o: Observed)
    requires q.state == HeadersAlmostDone && q.flags.trailing
    ensures ByteStep(q, o, LF) == Next(q.(state := NewState(q)), OnControl(o, OnComplete))
  {
    hide Spans, OnControl, ShouldKeepAlive;
    var acts := [OnComplete];
    assert acts[1..] == [];
    assert Controls(o, acts) == OnControl(o, OnComplete);
    UnmarkedSpans(OnControl(o, OnComplete), q.state, LF, NewState(q));
  }

  lemma RunTrailer(q: Parser, o: Observed)
    requires q.state == HeaderFieldStart && q.flags.trailing
    ensures Run(q, o, CRLF) == Ok(q.(state := NewState(q)), OnControl(o, OnComplete))
  {
    hide Run, ByteStep, OnControl;
    var q1 := q.(state := HeadersAlmostDone);
    TrailerCr(q, o);
    TrailerLf(q1, o);
    RunNothing(q, o);
    RunSnoc(q, o, [], CR, q, o);
    assert [] + [CR] == [CR] && [CR] + [LF] == CRLF;
    RunSnoc(q, o, [CR], LF, q1, o);
  }

  // ----- whole streams -----

  const NOTHING: Observed := Observed([], [], [], [], [])

  /** A connection: pieces are parsed as they arrive, until one is refused. */
  method Receive(pieces: seq<bytes>) returns (ok: bool, st: Parser, seen: Observed)
    ensures ok == Run(INITIAL, NOTHING, Concat(pieces)).Ok?
    ensures ok ==> Run(INITIAL, NOTHING, Concat(pieces)) == Ok(st, seen)
  {
    hide Run, Good;
    var parser := new HttpParser();
    ok, st, seen := true, INITIAL, NOTHING;
    RunNothing(INITIAL, NOTHING);
    for i := 0 to |pieces|
      invariant fresh(parser) && parser.Valid()
      invariant Run(INITIAL, NOTHING, Concat(pieces[..i])) == Ok(parser.st, parser.seen)
    {
      assert pieces[..i + 1] == pieces[..i] + [pieces[i]];
      ConcatSnoc(pieces[..i], pieces[i]);
      RunCut(INITIAL, NOTHING, Concat(pieces[..i]), pieces[i]);
      var n := parser.Execute(pieces[i]);
      if n < |pieces[i]| {
        ConcatPrefix(pieces, i + 1);
        RunStops(INITIAL, NOTHING, Concat(pieces), |Concat(pieces[..i + 1])|);
        return false, parser.st, parser.seen;
      }
    }
    assert pieces[..|pieces|] == pieces;
    st, seen := parser.st, parser.seen;
  }

  lemma ConcatPrefix(pieces: seq<bytes>, i: nat)
    requires i <= |pieces|
    ensures |Concat(pieces[..i])| <= |Concat(pieces)|
    ensures Concat(pieces)[..|Concat(pieces[..i])|] == Concat(pieces[..i])
  {
    assert pieces == pieces[..i] + pieces[i..];
    ConcatAppend(pieces[..i], pieces[i..]);
  }
}
