/**
 Whole requests: the text of a request, read by the parser of src/http-parser/http_parser.c, gives
 back its method, target, headers and body, and pipelined requests come out one after another.
 */
module HttpRequest {
  import opened Bytes
  import opened HttpMachine
  import opened HttpParser
  import opened HttpChunk
  import opened HttpLine
  import opened HttpHeader

  datatype Body = Plain(data: bytes) | Pieces(pieces: seq<bytes>)

  /** A request; the style and the bare line feed behind the headers are how it is written. */
  datatype Request =
    Request(verb: Method, target: Target, version: Version, headers: seq<Header>, body: Body, style: Style, bare: bool)

  function Data(b: Body): bytes { match b case Plain(data) => data case Pieces(pieces) => Concat(pieces) }

  function BodyText(b: Body): bytes {
    match b
    case Plain(data) => data
    case Pieces(pieces) => Chunks(pieces) + Chunk([])
  }

  function FirstLine(r: Request): bytes { LineText(r.verb, r.target, r.version, r.style) }

  function Head(r: Request): bytes { FirstLine(r) + HeadersText(r.headers) + Eol(r.bare) }

  function Text(r: Request): bytes { Head(r) + BodyText(r.body) }

  /** The body is framed as the headers say. */
  predicate Framed(r: Request) {
    if FlagsOf(NO_FLAGS, r.headers).chunked then
      r.body.Pieces? && forall i :: 0 <= i < |r.body.pieces| ==> r.body.pieces[i] != []
    else r.body.Plain? && |r.body.data| == (if LengthOf(-1, r.headers) > 0 then LengthOf(-1, r.headers) else 0)
  }

  /** A request that is not handed over to another protocol, with headers of a size the parser takes. */
  predicate IsRequest(r: Request) {
    && IsLine(r.target, r.version) && AreHeaders(r.headers)
    && r.verb != CONNECT && !FlagsOf(NO_FLAGS, r.headers).upgrade
    && Framed(r)
    && |Head(r)| <= 81920
  }

  /** HTTP/1.1 keeps the connection unless told to close it, HTTP/1.0 and HTTP/0.9 only if told so. */
  predicate Keeps(r: Request) {
    var f := FlagsOf(NO_FLAGS, r.headers);
    if r.version.major > 0 && r.version.minor > 0 then !f.close else f.keepAlive
  }

  // ----- the end of the headers -----

  lemma ReadsHeadersCr(p: Parser, o: Observed)
    requires p.state == HeaderFieldStart && Room(p, 1)
    ensures Reads(p, o, [CR], p.(state := HeadersAlmostDone, nread := p.nread + 1), o)
  {
    hide Reads;
    ReadsSilent(p, o, CR, p.(state := HeadersAlmostDone, nread := p.nread + 1));
  }

  /** The parser behind the headers p has read. */
  function AfterHead(p: Parser): Parser {
    p.(nread := 0,
       state := if p.flags.chunked then ChunkSizeStart else if p.length > 0 then BodyIdentity else NewState(p))
  }

  function HeadSeen(p: Parser, o: Observed): Observed {
    var o' := OnControl(o, OnHeadersComplete);
    if !p.flags.chunked && p.length <= 0 then OnControl(o', OnComplete) else o'
  }

  lemma SwitchDone(p: Parser)
    requires (p.state == HeadersAlmostDone || p.state == HeaderFieldStart) && !p.flags.trailing && !p.flags.upgrade
    requires p.verb != CONNECT
    ensures Switch(p, LF) == Go(AfterHead(p), if !p.flags.chunked && p.length <= 0 then [OnHeadersComplete, OnComplete]
                                              else [OnHeadersComplete])
  {
    hide ShouldKeepAlive;
  }

  lemma DoneControls(o: Observed)
    ensures Controls(o, [OnHeadersComplete]) == OnControl(o, OnHeadersComplete)
    ensures Controls(o, [OnHeadersComplete, OnComplete]) == OnControl(OnControl(o, OnHeadersComplete), OnComplete)
  {
    hide OnControl;
    assert [OnHeadersComplete][1..] == [];
    assert [OnHeadersComplete, OnComplete][1..] == [OnComplete] && [OnComplete][1..] == [];
  }

  lemma HeadUnmarked(p: Parser)
    ensures Unmarked(AfterHead(p).state)
  {
  }

  lemma ReadsHeadersLf(p: Parser, o: Observed)
    requires (p.state == HeadersAlmostDone || p.state == HeaderFieldStart) && Room(p, 1) && !p.flags.upgrade
    requires p.verb != CONNECT
    ensures Reads(p, o, [LF], AfterHead(p), HeadSeen(p, o))
  {
    hide Reads, Spans, Controls, OnControl, ShouldKeepAlive, Switch, NewState;
    var p' := p.(nread := p.nread + 1);
    SwitchDone(p');
    DoneControls(o);
    SameHead(p);
    HeadUnmarked(p);
    UnmarkedSpans(HeadSeen(p, o), p.state, LF, AfterHead(p).state);
    var acts := if !p.flags.chunked && p.length <= 0 then [OnHeadersComplete, OnComplete] else [OnHeadersComplete];
    ReadsByte(p, o, LF, AfterHead(p), acts, HeadSeen(p, o));
  }

  lemma SameHead(p: Parser)
    ensures AfterHead(p.(nread := p.nread + 1)) == AfterHead(p)
    ensures AfterHead(p.(state := HeadersAlmostDone, nread := p.nread + 1)) == AfterHead(p)
  {
  }

  lemma ReadsHeadersEnd(p: Parser, o: Observed, bare: bool)
    requires p.state == HeaderFieldStart && Room(p, |Eol(bare)|) && !p.flags.upgrade && p.verb != CONNECT
    ensures Reads(p, o, Eol(bare), AfterHead(p), HeadSeen(p, o))
  {
    hide Reads, OnControl, ShouldKeepAlive;
    if bare {
      ReadsHeadersLf(p, o);
    } else {
      var p1 := p.(state := HeadersAlmostDone, nread := p.nread + 1);
      ReadsHeadersCr(p, o);
      ReadsHeadersLf(p1, o);
      SameHead(p);
      assert [CR] + [LF] == CRLF;
      Then(p, o, [CR], p1, o, [LF], AfterHead(p), HeadSeen(p, o));
    }
  }

  // ----- the body -----

  /** What is seen of a body and of the end of its message. */
  function BodySeen(o: Observed, data: bytes): Observed {
    o.(main := o.main + [HeadersItem] + (if data == [] then [] else [Piece(KBody, data)]) + [CompleteItem])
  }

  lemma SeenBody(o: Observed, data: bytes)
    requires data != []
    ensures OnControl(OnData(OnControl(o, OnHeadersComplete), KBody, data), OnComplete) == BodySeen(o, data)
  {
  }

  lemma SeenNoBody(o: Observed)
    ensures OnControl(OnControl(o, OnHeadersComplete), OnComplete) == BodySeen(o, [])
  {
    assert o.main + [HeadersItem] + [] == o.main + [HeadersItem];
  }

  /** The last parser of the message whose headers p has read. */
  function AfterBody(p: Parser): Parser {
    p.(nread := 0, state := NewState(p), length := if p.flags.chunked || p.length > 0 then 0 else p.length,
       flags := p.flags.(trailing := p.flags.trailing || p.flags.chunked))
  }

  lemma ReadsPlain(p: Parser, o: Observed, data: bytes)
    requires !p.flags.chunked && |data| == (if p.length > 0 then p.length else 0)
    ensures Reads(AfterHead(p), HeadSeen(p, o), data, AfterBody(p), BodySeen(o, data))
  {
    hide ShouldKeepAlive, Run, OnControl, OnData, BodySeen;
    if data == [] {
      SeenNoBody(o);
      RunNothing(AfterHead(p), HeadSeen(p, o));
    } else {
      SeenBody(o, data);
      BulkRun(AfterHead(p), HeadSeen(p, o), data);
      SameAlive(p, AfterHead(p));
    }
  }

  lemma SameAlive(p: Parser, q: Parser)
    requires p.version == q.version && p.flags.close == q.flags.close && p.flags.keepAlive == q.flags.keepAlive
    ensures NewState(p) == NewState(q)
  {
  }

  lemma ReadsPieces(p: Parser, o: Observed, pieces: seq<bytes>)
    requires p.flags.chunked && forall i :: 0 <= i < |pieces| ==> pieces[i] != []
    ensures Reads(AfterHead(p), HeadSeen(p, o), Chunks(pieces) + Chunk([]), AfterBody(p), BodySeen(o, Concat(pieces)))
  {
    hide ShouldKeepAlive, Run, OnControl, OnData, BodySeen, NewState, Chunk;
    var q, o' := AfterHead(p), HeadSeen(p, o);
    if pieces == [] {
      SeenNoBody(o);
      RunLastChunk(q, o');
      assert Chunks([]) + Chunk([]) == Chunk([]);
      SameAlive(p, q.(length := 0, flags := q.flags.(trailing := true)));
    } else {
      var q1, o1 := At(q, ChunkSizeStart, 0), OnData(o', KBody, Concat(pieces));
      RunChunks(q, o', pieces);
      RunLastChunk(q1, o1);
      SameAlive(p, q1.(length := 0, flags := q.flags.(trailing := true)));
      Then(q, o', Chunks(pieces), q1, o1, Chunk([]), AfterBody(p), OnControl(o1, OnComplete));
      SomeData(pieces);
      SeenBody(o, Concat(pieces));
    }
  }

  lemma SomeData(pieces: seq<bytes>)
    requires pieces != [] && pieces[0] != []
    ensures Concat(pieces) != []
  {
  }

  // ----- the request -----

  /** What a request delivers. */
  function Delivered(o: Observed, r: Request): Observed {
    BodySeen(HeadersSeen(LineSeen(o, r.target), r.headers), Data(r.body))
  }

  /** The parser behind the headers of r, without their end. */
  function AfterFields(p: Parser, r: Request): Parser
    requires AreHeaders(r.headers)
  {
    AfterHeaders(AfterLine(p, r.verb, r.target, r.version, r.style), r.headers)
  }

  lemma ReadsFields(p: Parser, o: Observed, r: Request)
    requires p.state == StartReq && IsRequest(r) && p.nread + |Head(r)| <= 81920
    ensures Reads(p, o, FirstLine(r) + HeadersText(r.headers),
                  AfterFields(p, r), HeadersSeen(LineSeen(o, r.target), r.headers))
  {
    hide Reads, LineText, HeadersText, AfterHeaders, HeadersSeen, Framed, IsLine, FlagsOf;
    var o1 := LineSeen(o, r.target);
    var p1 := AfterLine(p, r.verb, r.target, r.version, r.style);
    ReadsLine(p, o, r.verb, r.target, r.version, r.style);
    LineMain(o, r.target);
    LineLong(r);
    ReadsHeaders(p1, o1, r.headers);
    Then(p, o, FirstLine(r), p1, o1, HeadersText(r.headers), AfterFields(p, r), HeadersSeen(o1, r.headers));
  }

  lemma LineMain(o: Observed, t: Target)
    ensures LineSeen(o, t).main == o.main + [BeginItem] && !Ends(LineSeen(o, t).main, KField)
  {
  }

  lemma LineLong(r: Request)
    ensures |FirstLine(r)| >= 1
  {
  }

  lemma ReadsHead(p: Parser, o: Observed, r: Request)
    requires p.state == StartReq && IsRequest(r) && p.nread + |Head(r)| <= 81920
    ensures var q := AfterFields(p, r);
            && Reads(p, o, Head(r), AfterHead(q), HeadSeen(q, HeadersSeen(LineSeen(o, r.target), r.headers)))
            && q.flags == FlagsOf(NO_FLAGS, r.headers) && q.length == LengthOf(-1, r.headers)
            && q.version == r.version && q.verb == r.verb && !q.flags.trailing
  {
    hide Reads, LineText, HeadersText, AfterHeaders, HeadersSeen, Framed, IsLine, FlagsOf, LengthOf, HeadSeen,
         AfterHead, LineSeen;
    var p1, q := AfterLine(p, r.verb, r.target, r.version, r.style), AfterFields(p, r);
    var o1 := HeadersSeen(LineSeen(o, r.target), r.headers);
    ReadsFields(p, o, r);
    HeadersMean(p1, r.headers);
    LineLong(r);
    ReadsHeadersEnd(q, o1, r.bare);
    Then(p, o, FirstLine(r) + HeadersText(r.headers), q, o1, Eol(r.bare), AfterHead(q), HeadSeen(q, o1));
  }

  /** The parser behind a request. */
  function After(p: Parser, r: Request): Parser
    requires AreHeaders(r.headers)
  {
    AfterBody(AfterFields(p, r))
  }

  /** Every request is read back, whatever preceded it. */
  lemma ReadsRequest(p: Parser, o: Observed, r: Request)
    requires p.state == StartReq && IsRequest(r) && p.nread + |Head(r)| <= 81920
    ensures Reads(p, o, Text(r), After(p, r), Delivered(o, r))
    ensures After(p, r).state == (if Keeps(r) then StartReq else Dead) && After(p, r).nread == 0
    ensures After(p, r).verb == r.verb && After(p, r).version == r.version
  {
    hide Reads, Head, AfterFields, HeadersSeen, IsLine, FlagsOf, LengthOf, HeadSeen, AfterHead, LineSeen, BodySeen;
    var q, o1 := AfterFields(p, r), HeadersSeen(LineSeen(o, r.target), r.headers);
    ReadsHead(p, o, r);
    if q.flags.chunked { ReadsPieces(q, o1, r.body.pieces); } else { ReadsPlain(q, o1, r.body.data); }
    Then(p, o, Head(r), AfterHead(q), HeadSeen(q, o1), BodyText(r.body), AfterBody(q), Delivered(o, r));
  }

  // ----- a connection -----

  function Texts(rs: seq<Request>): bytes { if rs == [] then [] else Text(rs[0]) + Texts(rs[1..]) }

  function DeliveredAll(o: Observed, rs: seq<Request>): Observed
    decreases |rs|
  {
    if rs == [] then o else DeliveredAll(Delivered(o, rs[0]), rs[1..])
  }

  /** Requests on one connection: each but the last keeps it. */
  predicate Pipelined(rs: seq<Request>) {
    && (forall i :: 0 <= i < |rs| ==> IsRequest(rs[i]))
    && (forall i :: 0 <= i < |rs| - 1 ==> Keeps(rs[i]))
  }

  lemma PipelinedNext(rs: seq<Request>)
    requires Pipelined(rs) && rs != []
    ensures IsRequest(rs[0]) && AreHeaders(rs[0].headers) && |Head(rs[0])| <= 81920 && Pipelined(rs[1..])
    ensures |rs| > 1 ==> Keeps(rs[0]) && rs[1..][|rs| - 2] == rs[|rs| - 1]
  {
    hide Head, Keeps, Framed, FlagsOf, IsLine, AreHeaders;
    assert IsRequest(rs[0]);
  }

  lemma TextsNext(o: Observed, rs: seq<Request>)
    requires rs != []
    ensures Texts(rs) == Text(rs[0]) + Texts(rs[1..])
    ensures DeliveredAll(o, rs) == DeliveredAll(Delivered(o, rs[0]), rs[1..])
  {
    hide Text, Delivered;
  }

  lemma TextsNone(o: Observed)
    ensures Texts([]) == [] && DeliveredAll(o, []) == o
  {
  }

  /** Pipelined requests are delivered one after another. */
  lemma {:induction false} ReadsPipelined(p: Parser, o: Observed, rs: seq<Request>) returns (q: Parser)
    requires p.state == StartReq && p.nread == 0 && Pipelined(rs)
    ensures Reads(p, o, Texts(rs), q, DeliveredAll(o, rs))
    ensures q.state == (if rs != [] && !Keeps(rs[|rs| - 1]) then Dead else StartReq)
    decreases |rs|
  {
    hide Reads, Text, Texts, Head, After, Delivered, DeliveredAll, Keeps, Pipelined, IsRequest;
    TextsNone(o);
    if rs == [] {
      q := p;
      ReadsNothing(p, o);
    } else {
      PipelinedNext(rs);
      TextsNext(o, rs);
      var p', o' := After(p, rs[0]), Delivered(o, rs[0]);
      ReadsRequest(p, o, rs[0]);
      if |rs| == 1 {
        q := p';
        assert rs[1..] == [];
        TextsNone(o');
        assert Text(rs[0]) + [] == Text(rs[0]);
      } else {
        q := ReadsPipelined(p', o', rs[1..]);
        Then(p, o, Text(rs[0]), p', o', Texts(rs[1..]), q, DeliveredAll(o, rs));
      }
    }
  }

  /** However the stream of pipelined requests is cut, the callbacks are given each of them in turn. */
  method ReceivePipelined(pieces: seq<bytes>, ghost rs: seq<Request>) returns (ok: bool, st: Parser, seen: Observed)
    requires Pipelined(rs) && Concat(pieces) == Texts(rs)
    ensures ok && seen == DeliveredAll(NOTHING, rs)
    ensures st.state == (if rs != [] && !Keeps(rs[|rs| - 1]) then Dead else StartReq)
  {
    hide Run, Pipelined, Keeps;
    var _ := ReadsPipelined(INITIAL, NOTHING, rs);
    ok, st, seen := Receive(pieces);
  }

  // ----- one text, one request -----

  lemma FirstItem(a: seq<Header>, x: seq<Item>)
    ensures (HeaderItems(a) + [HeadersItem] + x)[0] == if a == [] then HeadersItem else Piece(KField, a[0].name)
  {
  }

  /** The same names and values. */
  predicate SameHeaders(a: seq<Header>, b: seq<Header>) {
    |a| == |b| && forall i :: 0 <= i < |a| ==> a[i].name == b[i].name && a[i].value == b[i].value
  }

  lemma {:induction false} HeadersApart(a: seq<Header>, b: seq<Header>, x: seq<Item>, y: seq<Item>)
    requires HeaderItems(a) + [HeadersItem] + x == HeaderItems(b) + [HeadersItem] + y
    ensures SameHeaders(a, b) && x == y
    decreases |a|
  {
    var s, t := HeaderItems(a) + [HeadersItem] + x, HeaderItems(b) + [HeadersItem] + y;
    FirstItem(a, x);
    FirstItem(b, y);
    if a == [] && b == [] {
      assert s[1..] == x && t[1..] == y;
    } else if a == [] || b == [] {
      assert false;
    } else {
      assert s[1] == Piece(KValue, a[0].value) && t[1] == Piece(KValue, b[0].value);
      assert s[2..] == HeaderItems(a[1..]) + [HeadersItem] + x;
      assert t[2..] == HeaderItems(b[1..]) + [HeadersItem] + y;
      HeadersApart(a[1..], b[1..], x, y);
      assert a == [a[0]] + a[1..] && b == [b[0]] + b[1..];
    }
  }

  function BodyItems(data: bytes): seq<Item> { (if data == [] then [] else [Piece(KBody, data)]) + [CompleteItem] }

  lemma DeliveredMain(r: Request)
    ensures Delivered(NOTHING, r).main ==
              [BeginItem] + (HeaderItems(r.headers) + [HeadersItem] + BodyItems(Data(r.body)))
  {
    hide HeaderItems, Data;
    LineMain(NOTHING, r.target);
    var a, d := HeaderItems(r.headers), Data(r.body);
    assert [] + [BeginItem] == [BeginItem];
    assert [BeginItem] + a + [HeadersItem] + (if d == [] then [] else [Piece(KBody, d)]) + [CompleteItem]
           == [BeginItem] + (a + [HeadersItem] + BodyItems(d));
  }

  lemma SameItems(r: Request, s: Request)
    requires Delivered(NOTHING, r).main == Delivered(NOTHING, s).main
    ensures SameHeaders(r.headers, s.headers) && Data(r.body) == Data(s.body)
  {
    hide Delivered, HeaderItems, Data, BodyItems;
    DeliveredMain(r);
    DeliveredMain(s);
    var a := HeaderItems(r.headers) + [HeadersItem] + BodyItems(Data(r.body));
    var b := HeaderItems(s.headers) + [HeadersItem] + BodyItems(Data(s.body));
    assert ([BeginItem] + a)[1..] == a && ([BeginItem] + b)[1..] == b;
    HeadersApart(r.headers, s.headers, BodyItems(Data(r.body)), BodyItems(Data(s.body)));
    SameBody(Data(r.body), Data(s.body));
  }

  lemma SameBody(a: bytes, b: bytes)
    requires BodyItems(a) == BodyItems(b)
    ensures a == b
  {
    assert a == [] <==> |BodyItems(a)| == 1;
    assert b == [] <==> |BodyItems(b)| == 1;
    if a != [] { assert BodyItems(a)[0] == Piece(KBody, a) && BodyItems(b)[0] == Piece(KBody, b); }
  }

  lemma AddInjective(items: seq<Item>, k: Kind, x: Option<bytes>, y: Option<bytes>)
    requires Add(items, k, x) == Add(items, k, y)
    ensures x == y
  {
    var n := |items|;
    assert x.Some? ==> Add(items, k, x)[n] == Piece(k, x.value);
    assert y.Some? ==> Add(items, k, y)[n] == Piece(k, y.value);
  }

  lemma DeliveredUrl(r: Request)
    ensures var d := Delivered(NOTHING, r);
            && d.url == Add([BeginItem], KUrl, Some(TargetText(r.target)))
            && d.path == Add([BeginItem], KPath, r.target.path)
            && d.query == Add([BeginItem], KQuery, ReportedPart(63, r.target.query))
            && d.fragment == Add([BeginItem], KFragment, ReportedPart(35, r.target.fragment))
  {
    hide Add, TargetText, HeaderItems, ReportedPart;
    assert [] + [BeginItem] == [BeginItem];
  }

  /** Two requests with one text are one request, up to how it is written and how its body is cut into chunks. */
  lemma Unambiguous(r: Request, s: Request)
    requires IsRequest(r) && IsRequest(s) && Text(r) == Text(s)
    ensures r.verb == s.verb && r.version == s.version
    ensures TargetText(r.target) == TargetText(s.target) && r.target.path == s.target.path
    ensures ReportedPart(63, r.target.query) == ReportedPart(63, s.target.query)
    ensures ReportedPart(35, r.target.fragment) == ReportedPart(35, s.target.fragment)
    ensures SameHeaders(r.headers, s.headers) && Data(r.body) == Data(s.body)
  {
    hide Run, Text, Delivered, IsLine, Framed, FlagsOf, After, Keeps, TargetText, ReportedPart, SameHeaders;
    ReadsRequest(INITIAL, NOTHING, r);
    ReadsRequest(INITIAL, NOTHING, s);
    assert Delivered(NOTHING, r) == Delivered(NOTHING, s);
    SameItems(r, s);
    DeliveredUrl(r);
    DeliveredUrl(s);
    AddInjective([BeginItem], KUrl, Some(TargetText(r.target)), Some(TargetText(s.target)));
    AddInjective([BeginItem], KPath, r.target.path, s.target.path);
    AddInjective([BeginItem], KQuery, ReportedPart(63, r.target.query), ReportedPart(63, s.target.query));
    AddInjective([BeginItem], KFragment, ReportedPart(35, r.target.fragment), ReportedPart(35, s.target.fragment));
  }
}
