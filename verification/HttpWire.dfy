/**
 Requests on their own bytes: the names of the methods, the characters that end a request with an
 error, the limit of the header, the spellings of a chunk size, and a plain GET.
 */
module HttpWire {
  import opened Bytes
  import opened HttpMachine
  import opened HttpParser
  import opened HttpChunk
  import opened HttpLine
  import opened HttpHeader
  import opened HttpRequest

  /** The names the methods are written by. */
  lemma Verbs(m: Method)
    ensures Word(m) == Ascii(
              match m
              case DELETE => "DELETE"
              case GET => "GET"
              case HEAD => "HEAD"
              case POST => "POST"
              case PUT => "PUT"
              case CONNECT => "CONNECT"
              case OPTIONS => "OPTIONS"
              case TRACE => "TRACE"
              case COPY => "COPY"
              case LOCK => "LOCK"
              case MKCOL => "MKCOL"
              case MOVE => "MOVE"
              case PROPFIND => "PROPFIND"
              case PROPPATCH => "PROPPATCH"
              case UNLOCK => "UNLOCK"
              case REPORT => "REPORT"
              case MKACTIVITY => "MKACTIVITY"
              case CHECKOUT => "CHECKOUT"
              case MERGE => "MERGE"
              case MSEARCH => "M-SEARCH"
              case NOTIFY => "NOTIFY"
              case SUBSCRIBE => "SUBSCRIBE"
              case UNSUBSCRIBE => "UNSUBSCRIBE")
  {
    hide Ascii;
  }

  lemma GetWord()
    ensures Word(GET) == ['G' as int, 'E' as int, 'T' as int]
  {
  }

  // ----- what is refused -----

  /** In a path, a query or a fragment: a byte is refused exactly if it neither belongs there nor ends the target. */
  lemma UrlRefuses(p: Parser, ch: byte)
    requires PathState(p.state)
    ensures Switch(p, ch) == Stop <==>
              !PathByte(ch) && ch != '?' as int && ch != '#' as int && ch != ' ' as int && ch != 13 && ch != 10
  {
    hide PathByte;
    PathByteIs(ch);
  }

  /** In a header name. */
  lemma NameRefuses(p: Parser, ch: byte)
    ensures p.state == HeaderFieldStart ==> (Switch(p, ch) == Stop <==> !NameByte(ch) && ch != 13 && ch != 10)
    ensures p.state == HeaderField ==>
              (Switch(p, ch) == Stop <==> !NameByte(ch) && ch != ':' as int && ch != 13 && ch != 10)
  {
    hide NameByte, NameBegins, NameGoes;
    NameByteIs(ch);
  }

  /** A target is refused at the first byte that is none of its own. */
  lemma TargetRefused(p: Parser, o: Observed, k: nat, t: Target, ch: byte)
    requires p.state == SpacesBeforeUrl && Fresh(o) && IsTarget(t) && t.path.Some? && Room(p, k + |TargetText(t)| + 1)
    requires !PathByte(ch) && ch != '?' as int && ch != '#' as int && ch != ' ' as int && ch != 13 && ch != 10
    ensures Run(p, o, Spaces(k) + TargetText(t) + [ch]) == Failed(k + |TargetText(t)|)
  {
    hide Run, TargetText, PathByte, Switch, IsTarget, Fresh, SeenParts, PartsOf, TargetEnd;
    EndStates(t);
    ReadsTarget(p, o, k, t);
    var q, r := In(p, TargetEnd(t), k + |TargetText(t)|), SeenParts(o, PartsOf(t));
    RunSnoc(p, o, Spaces(k) + TargetText(t), ch, q, r);
    UrlRefuses(q.(nread := q.nread + 1), ch);
  }

  // ----- the limit of the header -----

  /** Every byte of a header is counted until its end resets the count, and none is read beyond 81920. */
  lemma HeadCounts(p: Parser, o: Observed, ch: byte)
    requires ParsingHeader(p)
    ensures p.nread >= 81920 ==> ByteStep(p, o, ch) == Error
    ensures ByteStep(p, o, ch).Next? ==> ByteStep(p, o, ch).st.nread == p.nread + 1 || ByteStep(p, o, ch).st.nread == 0
    ensures ByteStep(p, o, ch).Next? && ByteStep(p, o, ch).st.nread == 0 ==>
              ch == 10 && (p.state == HeadersAlmostDone || p.state == HeaderFieldStart)
  {
    hide Spans, Controls, AuthorityMove, UrlMove, VersionMove, VersionRead, NameGoes, ValueGoes, Revise, MethodString;
  }

  lemma {:induction false} HeadBounded(o: Observed, t: bytes)
    requires Run(INITIAL, o, t).Ok?
    ensures Run(INITIAL, o, t).st.nread <= 81920
  {
    if t != [] {
      hide ByteStep, Run;
      var n := |t| - 1;
      RunShorter(o, t);
      HeadBounded(o, t[..n]);
      CountBounded(Run(INITIAL, o, t[..n]).st, Run(INITIAL, o, t[..n]).seen, t[n]);
    }
  }

  lemma RunShorter(o: Observed, t: bytes)
    requires t != [] && Run(INITIAL, o, t).Ok?
    ensures var n := |t| - 1;
            && Run(INITIAL, o, t[..n]).Ok?
            && var b := ByteStep(Run(INITIAL, o, t[..n]).st, Run(INITIAL, o, t[..n]).seen, t[n]);
               b.Next? && Run(INITIAL, o, t).st == b.st
  {
    hide ByteStep;
  }

  lemma CountBounded(p: Parser, o: Observed, ch: byte)
    requires p.nread <= 81920 && ByteStep(p, o, ch).Next?
    ensures ByteStep(p, o, ch).st.nread <= 81920
  {
    hide Spans, Controls, AuthorityMove, UrlMove, VersionMove, VersionRead, NameGoes, ValueGoes, Revise, MethodString;
  }

  // ----- chunk sizes -----

  lemma UnhexLaw(b: byte, v: nat)
    requires Bytes.Hex(b, v)
    ensures Unhex(b) == v && b != CR
  {
  }

  lemma SizeStep(q: Parser, b: byte, v: nat)
    requires (q.state == ChunkSizeStart || q.state == ChunkSize) && Bytes.Hex(b, v)
    ensures var length := if q.state == ChunkSizeStart then v else q.length * 16 + v;
            ChunkStep(q, b) == Go(q.(state := ChunkSize, length := length), [])
  {
    hide Unhex, Bytes.Hex;
    UnhexLaw(b, v);
  }

  function Base16(vs: seq<nat>): nat { if vs == [] then 0 else 16 * Base16(vs[..|vs| - 1]) + vs[|vs| - 1] }

  /** Digits in either case, with any zeros in front, are read as the number. */
  lemma {:induction false} RunSize(q: Parser, o: Observed, ds: bytes, vs: seq<nat>)
    requires q.state == ChunkSizeStart && |ds| == |vs| >= 1 && forall i :: 0 <= i < |ds| ==> Bytes.Hex(ds[i], vs[i])
    ensures Run(q, o, ds) == Ok(q.(state := ChunkSize, length := Base16(vs)), o)
  {
    hide Run, ChunkStep, Bytes.Hex;
    var n := |ds| - 1;
    if n == 0 {
      assert vs[..0] == [] && ds == [ds[0]];
      SizeStep(q, ds[0], vs[0]);
      RunByte(q, o, ds[0]);
    } else {
      RunSize(q, o, ds[..n], vs[..n]);
      var q' := q.(state := ChunkSize, length := Base16(vs[..n]));
      SizeStep(q', ds[n], vs[n]);
      RunByte(q', o, ds[n]);
      RunCut(q, o, ds[..n], [ds[n]]);
      assert ds == ds[..n] + [ds[n]];
    }
  }

  // ----- a plain request -----

  function PlainGet(path: bytes): Request {
    Request(GET, Target(None, Some(path), None, None), Version(1, 1), [], Plain([]), Style(0, 0, false), false)
  }

  function GetText(path: bytes): bytes {
    ['G' as int, 'E' as int, 'T' as int, ' ' as int] + path
    + [' ' as int, 'H' as int, 'T' as int, 'T' as int, 'P' as int, '/' as int, '1' as int, '.' as int, '1' as int]
    + [13, 10, 13, 10]
  }

  lemma PathAlone(path: bytes)
    ensures TargetText(PlainGet(path).target) == path
  {
    assert [] + path + [] + [] == path;
  }

  lemma VersionOne()
    ensures VersionText(Version(1, 1)) == ['H' as int, 'T' as int, 'T' as int, 'P' as int, '/' as int, '1' as int]
                                          + ['.' as int, '1' as int]
  {
    assert Digits(1) == ['1' as int];
  }

  lemma GetHead(path: bytes)
    ensures Head(PlainGet(path)) == GetText(path) && Text(PlainGet(path)) == GetText(path)
  {
    hide Word, VersionText, TargetText;
    GetWord();
    PathAlone(path);
    VersionOne();
    assert Spaces(0) == [] && [] + path == path;
    assert SPACE + [] == SPACE;
    GetJoin(path, VersionText(Version(1, 1)));
    assert Head(PlainGet(path)) + [] == Head(PlainGet(path));
  }

  lemma GetJoin(path: bytes, v: bytes)
    requires v == ['H' as int, 'T' as int, 'T' as int, 'P' as int, '/' as int, '1' as int] + ['.' as int, '1' as int]
    ensures (['G' as int, 'E' as int, 'T' as int] + SPACE) + path + (SPACE + v + CRLF) + [] + CRLF == GetText(path)
  {
    var a, b := ['G' as int, 'E' as int, 'T' as int] + SPACE, SPACE + v + CRLF + [] + CRLF;
    assert a == ['G' as int, 'E' as int, 'T' as int, ' ' as int];
    assert b == [32, 72, 84, 84, 80, 47, 49, 46, 49, 13, 10, 13, 10];
    assert a + path + (SPACE + v + CRLF) + [] + CRLF == a + path + b;
  }

  lemma PlainGetText(path: bytes)
    requires IsPath(path) && path[0] == '/' as int && |path| <= 81903
    ensures Text(PlainGet(path)) == GetText(path) && IsRequest(PlainGet(path)) && Keeps(PlainGet(path))
  {
    hide IsPath, Head, Text;
    GetHead(path);
    NoHeaders();
  }

  lemma NoHeaders()
    ensures FlagsOf(NO_FLAGS, []) == NO_FLAGS && LengthOf(-1, []) == -1
  {
  }

  /** A GET is read as such, with its path, and the connection is kept. */
  lemma ReadsGet(path: bytes) returns (q: Parser, seen: Observed)
    requires IsPath(path) && path[0] == '/' as int && |path| <= 81903
    ensures Run(INITIAL, NOTHING, GetText(path)) == Ok(q, seen)
    ensures q.state == StartReq && q.verb == GET && q.version == Version(1, 1)
    ensures seen.main == [BeginItem, HeadersItem, CompleteItem] && seen.path == [BeginItem, Piece(KPath, path)]
    ensures seen.url == [BeginItem, Piece(KUrl, path)] && seen.query == seen.fragment == [BeginItem]
  {
    hide Run, IsPath, IsRequest, Delivered, After, Text, GetText;
    var r := PlainGet(path);
    PlainGetText(path);
    RequestSmall(r);
    ReadsRequest(INITIAL, NOTHING, r);
    q, seen := After(INITIAL, r), Delivered(NOTHING, r);
    DeliveredMain(r);
    DeliveredUrl(r);
    SeenGet(path);
  }

  lemma RequestSmall(r: Request)
    requires IsRequest(r)
    ensures |Head(r)| <= 81920 && AreHeaders(r.headers)
  {
    hide Head;
  }

  lemma SeenGet(path: bytes)
    ensures var r := PlainGet(path);
            && [BeginItem] + (HeaderItems(r.headers) + [HeadersItem] + BodyItems(Data(r.body)))
               == [BeginItem, HeadersItem, CompleteItem]
            && TargetText(r.target) == path
            && Add([BeginItem], KUrl, Some(path)) == [BeginItem, Piece(KUrl, path)]
            && Add([BeginItem], KPath, Some(path)) == [BeginItem, Piece(KPath, path)]
            && ReportedPart(63, None) == ReportedPart(35, None) == None
  {
    assert [] + path + [] + [] == path;
    assert HeaderItems([]) == [];
  }

  /** However it arrives in pieces. */
  method ReceiveGet(pieces: seq<bytes>, ghost path: bytes) returns (ok: bool, st: Parser, seen: Observed)
    requires IsPath(path) && path[0] == '/' as int && |path| <= 81903 && Concat(pieces) == GetText(path)
    ensures ok && st.state == StartReq && st.verb == GET && seen.path == [BeginItem, Piece(KPath, path)]
    ensures seen.main == [BeginItem, HeadersItem, CompleteItem]
  {
    hide Run, IsPath, GetText;
    var _, _ := ReadsGet(path);
    ok, st, seen := Receive(pieces);
  }
}
