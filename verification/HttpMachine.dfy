/**
 The request side of src/http-parser/http_parser.c as a byte-at-a-time machine: the
 transition table with the mark and callback macros of each branch, and an observer that
 joins the fragments its callbacks are given.
 */
module HttpMachine {
  import opened Bytes

  datatype State =
    | Dead | StartReq | ReqMethod | SpacesBeforeUrl | Schema | SchemaSlash | SchemaSlashSlash | Host | Port
    | Path | QueryStart | Query | FragmentStart | Fragment
    | HttpStart | HttpH | HttpHT | HttpHTT | HttpHTTP | FirstMajor | Major | FirstMinor | Minor | ReqLineAlmostDone
    | HeaderFieldStart | HeaderField | HeaderValueStart | HeaderValue | HeaderAlmostDone | HeadersAlmostDone
    | ChunkSizeStart | ChunkSize | ChunkSizeAlmostDone | ChunkParameters
    | ChunkData | ChunkDataAlmostDone | ChunkDataDone | BodyIdentity

  datatype HState =
    | HGeneral | HC | HCO | HCON
    | HMatchConnection | HMatchProxyConnection | HMatchContentLength | HMatchTransferEncoding | HMatchUpgrade
    | HConnection | HContentLength | HTransferEncoding | HUpgrade
    | HMatchChunked | HMatchKeepAlive | HMatchClose
    | HChunked | HKeepAlive | HClose

  datatype Method =
    | DELETE | GET | HEAD | POST | PUT | CONNECT | OPTIONS | TRACE | COPY | LOCK | MKCOL | MOVE | PROPFIND | PROPPATCH
    | UNLOCK | REPORT | MKACTIVITY | CHECKOUT | MERGE | MSEARCH | NOTIFY | SUBSCRIBE | UNSUBSCRIBE

  /** Progress in recognising a header name or value. */
  datatype Scan = Scan(hstate: HState, index: nat)

  datatype Flags = Flags(chunked: bool, keepAlive: bool, close: bool, trailing: bool, upgrade: bool)

  const NO_FLAGS: Flags := Flags(false, false, false, false, false)

  datatype Version = Version(major: nat, minor: nat)

  datatype Parser = Parser(
    state: State, scan: Scan, nread: nat, flags: Flags, length: int, version: Version, verb: Method)

  datatype Kind = KField | KValue | KUrl | KPath | KQuery | KFragment | KBody

  /** What a branch of the switch does besides changing the parser. */
  datatype Action = Mark(kind: Kind) | Callback(kind: Kind) | OnBegin | OnHeadersComplete | OnComplete

  datatype Result = Go(st: Parser, acts: seq<Action>) | Stop | Exit

  const MAX_HEADER_SIZE: nat := 80 * 1024

  /** http_parser_init for requests; the remaining fields are set before they are read. */
  const INITIAL: Parser :=
    Parser(StartReq, Scan(HGeneral, 0), 0, NO_FLAGS, 0, Version(0, 0), DELETE)

  function MethodString(m: Method): string {
    match m
    case DELETE => "DELETE"
    case GET => "GET"
    case HEAD => "HEAD"
    case POST => "POST"
    case PUT => "PUT"
    case CONNECT => "CONNECT"
    case OPTIONS => "OPTIONS"
    case TRACE => "TRACE"
    case COPY => "COPY"
    case LOCK => "LOCK"
    case MKCOL => "MKCOL"
    case MOVE => "MOVE"
    case PROPFIND => "PROPFIND"
    case PROPPATCH => "PROPPATCH"
    case UNLOCK => "UNLOCK"
    case REPORT => "REPORT"
    case MKACTIVITY => "MKACTIVITY"
    case CHECKOUT => "CHECKOUT"
    case MERGE => "MERGE"
    case MSEARCH => "M-SEARCH"
    case NOTIFY => "NOTIFY"
    case SUBSCRIBE => "SUBSCRIBE"
    case UNSUBSCRIBE => "UNSUBSCRIBE"
  }

  predicate Is(b: byte, c: char) { b == c as int }

  predicate CharAt(s: string, i: nat, b: byte) { i < |s| && s[i] as int == b }

  /** LOWER: set bit 5. */
  function Lower(b: byte): byte { if (b / 32) % 2 == 1 then b else b + 32 }

  predicate Letter(b: byte) { 97 <= Lower(b) <= 122 }

  /** The tokens table: 0, or the lower-case form of a token character. */
  function Token(b: byte): byte {
    if 65 <= b <= 90 then b + 32
    else if 32 <= b <= 39 || b == 42 || b == 43 || 45 <= b <= 57 || 94 <= b <= 122 || 124 <= b <= 126 then b
    else 0
  }

  /** The unhex table; its unwritten upper half is zero. */
  function Unhex(b: byte): int {
    if 48 <= b <= 57 then b - 48
    else if 65 <= b <= 70 then b - 55
    else if 97 <= b <= 102 then b - 87
    else if b >= 128 then 0
    else -1
  }

  predicate NormalUrlChar(b: byte) { 33 <= b <= 126 && b != 35 && b != 63 }

  predicate ShouldKeepAlive(p: Parser) {
    if p.version.major > 0 && p.version.minor > 0 then !p.flags.close else p.flags.keepAlive
  }

  /** NEW_MESSAGE. */
  function NewState(p: Parser): State { if ShouldKeepAlive(p) then StartReq else Dead }

  predicate BodyState(s: State) {
    s.ChunkSizeStart? || s.ChunkSize? || s.ChunkSizeAlmostDone? || s.ChunkParameters? || s.ChunkData? ||
    s.ChunkDataAlmostDone? || s.ChunkDataDone? || s.BodyIdentity?
  }

  predicate ParsingHeader(p: Parser) { !BodyState(p.state) && !p.flags.trailing }

  // ----- the switch -----

  /** Where a character leads within the request line or a chunk. */
  datatype Move = Move(to: State, acts: seq<Action>) | Bad

  function MoveIf(ok: bool, s: State): Move { if ok then Move(s, []) else Bad }

  function InitialMethod(ch: byte): Option<Method> {
    if Is(ch, 'C') then Some(CONNECT)
    else if Is(ch, 'D') then Some(DELETE)
    else if Is(ch, 'G') then Some(GET)
    else if Is(ch, 'H') then Some(HEAD)
    else if Is(ch, 'L') then Some(LOCK)
    else if Is(ch, 'M') then Some(MKCOL)
    else if Is(ch, 'N') then Some(NOTIFY)
    else if Is(ch, 'O') then Some(OPTIONS)
    else if Is(ch, 'P') then Some(POST)
    else if Is(ch, 'R') then Some(REPORT)
    else if Is(ch, 'S') then Some(SUBSCRIBE)
    else if Is(ch, 'T') then Some(TRACE)
    else if Is(ch, 'U') then Some(UNLOCK)
    else None
  }

  function StartReqStep(p: Parser, ch: byte): Result {
    if ch == CR || ch == LF then Go(p, [])
    else match InitialMethod(ch)
      case None => Stop
      case Some(m) =>
        Go(p.(flags := NO_FLAGS, length := -1, verb := m, scan := p.scan.(index := 1), state := ReqMethod), [OnBegin])
  }

  /** The method after a character that differs from the current candidate; None is an error. */
  function Revise(m: Method, i: nat, ch: byte): Option<Method> {
    match m
    case CONNECT =>
      if i == 1 && Is(ch, 'H') then Some(CHECKOUT)
      else if i == 2 && Is(ch, 'P') then Some(COPY)
      else Some(m)
    case MKCOL =>
      if i == 1 && Is(ch, 'O') then Some(MOVE)
      else if i == 1 && Is(ch, 'E') then Some(MERGE)
      else if i == 1 && Is(ch, '-') then Some(MSEARCH)
      else if i == 2 && Is(ch, 'A') then Some(MKACTIVITY)
      else Some(m)
    case POST =>
      if i == 1 && Is(ch, 'R') then Some(PROPFIND)
      else if i == 1 && Is(ch, 'U') then Some(PUT)
      else None
    case UNLOCK => if i == 2 && Is(ch, 'S') then Some(UNSUBSCRIBE) else None
    case PROPFIND => if i == 4 && Is(ch, 'P') then Some(PROPPATCH) else None
    case _ => None
  }

  /** Reading beyond the terminator of a method name is undefined, and ends the run here. */
  function MethodStep(p: Parser, ch: byte): Result {
    var matcher, i := MethodString(p.verb), p.scan.index;
    if ch == NUL || i > |matcher| then Stop
    else if Is(ch, ' ') && i == |matcher| then Go(p.(scan := p.scan.(index := i + 1), state := SpacesBeforeUrl), [])
    else
      var m := if CharAt(matcher, i, ch) then Some(p.verb) else Revise(p.verb, i, ch);
      if m == None then Stop else Go(p.(scan := p.scan.(index := i + 1), verb := m.value), [])
  }

  /** The states before the path. */
  function AuthorityMove(s: State, ch: byte): Move {
    match s
    case SpacesBeforeUrl =>
      if Is(ch, ' ') then Move(s, [])
      else if Is(ch, '/') || Is(ch, '*') then Move(Path, [Mark(KUrl), Mark(KPath)])
      else if Letter(ch) then Move(Schema, [Mark(KUrl)])
      else Bad
    case Schema =>
      if Letter(ch) then Move(s, [])
      else if Is(ch, ':') then Move(SchemaSlash, [])
      else MoveIf(Is(ch, '.') || IsDigit(ch), Host)
    case SchemaSlash => MoveIf(Is(ch, '/'), SchemaSlashSlash)
    case SchemaSlashSlash => MoveIf(Is(ch, '/'), Host)
    case Host =>
      if Letter(ch) || IsDigit(ch) || Is(ch, '.') || Is(ch, '-') then Move(s, [])
      else if Is(ch, ':') then Move(Port, [])
      else if Is(ch, '/') then Move(Path, [Mark(KPath)])
      else if Is(ch, ' ') then Move(HttpStart, [Callback(KUrl)])
      else Bad
    case _ => // Port
      if IsDigit(ch) then Move(s, [])
      else if Is(ch, '/') then Move(Path, [Mark(KPath)])
      else if Is(ch, ' ') then Move(HttpStart, [Callback(KUrl)])
      else Bad
  }

  /** The ways a URL ends: by a space, or by a line end, which means HTTP/0.9. */
  function EndUrl(ch: byte, acts: seq<Action>): Move {
    if Is(ch, ' ') then Move(HttpStart, acts)
    else if ch == CR then Move(ReqLineAlmostDone, acts)
    else if ch == LF then Move(HeaderFieldStart, acts)
    else Bad
  }

  function UrlMove(s: State, ch: byte): Move {
    match s
    case Path =>
      if NormalUrlChar(ch) then Move(s, [])
      else if Is(ch, '?') then Move(QueryStart, [Callback(KPath)])
      else if Is(ch, '#') then Move(FragmentStart, [Callback(KPath)])
      else EndUrl(ch, [Callback(KUrl), Callback(KPath)])
    case QueryStart =>
      if NormalUrlChar(ch) then Move(Query, [Mark(KQuery)])
      else if Is(ch, '?') then Move(s, [])
      else if Is(ch, '#') then Move(FragmentStart, [])
      else EndUrl(ch, [Callback(KUrl)])
    case Query =>
      if NormalUrlChar(ch) || Is(ch, '?') then Move(s, [])
      else if Is(ch, '#') then Move(FragmentStart, [Callback(KQuery)])
      else EndUrl(ch, [Callback(KUrl), Callback(KQuery)])
    case FragmentStart =>
      if NormalUrlChar(ch) || Is(ch, '?') then Move(Fragment, [Mark(KFragment)])
      else if Is(ch, '#') then Move(s, [])
      else EndUrl(ch, [Callback(KUrl)])
    case _ => // Fragment
      if NormalUrlChar(ch) || Is(ch, '?') || Is(ch, '#') then Move(s, [])
      else EndUrl(ch, [Callback(KUrl), Callback(KFragment)])
  }

  function VersionMove(s: State, v: Version, ch: byte): Move {
    match s
    case HttpStart => if Is(ch, ' ') then Move(s, []) else MoveIf(Is(ch, 'H'), HttpH)
    case HttpH => MoveIf(Is(ch, 'T'), HttpHT)
    case HttpHT => MoveIf(Is(ch, 'T'), HttpHTT)
    case HttpHTT => MoveIf(Is(ch, 'P'), HttpHTTP)
    case HttpHTTP => MoveIf(Is(ch, '/'), FirstMajor)
    case FirstMajor => MoveIf(IsDigit(ch) && ch != 48, Major)
    case Major =>
      if Is(ch, '.') then Move(FirstMinor, []) else MoveIf(IsDigit(ch) && v.major * 10 + (ch - 48) <= 999, s)
    case FirstMinor => MoveIf(IsDigit(ch), Minor)
    case Minor =>
      if ch == CR then Move(ReqLineAlmostDone, [])
      else if ch == LF then Move(HeaderFieldStart, [])
      else MoveIf(IsDigit(ch) && v.minor * 10 + (ch - 48) <= 999, s)
    case _ => MoveIf(ch == LF, HeaderFieldStart) // ReqLineAlmostDone
  }

  /** The version digits. */
  function VersionRead(s: State, v: Version, ch: byte): Version {
    if !IsDigit(ch) then v
    else match s
      case FirstMajor => v.(major := ch - 48)
      case Major => v.(major := v.major * 10 + (ch - 48))
      case FirstMinor => v.(minor := ch - 48)
      case Minor => v.(minor := v.minor * 10 + (ch - 48))
      case _ => v
  }

  function LineStep(p: Parser, ch: byte): Result {
    var m := if AuthorityState(p.state) then AuthorityMove(p.state, ch)
             else if PathState(p.state) then UrlMove(p.state, ch)
             else VersionMove(p.state, p.version, ch);
    if m.Bad? then Stop
    else
      var v := if VersionState(p.state) then VersionRead(p.state, p.version, ch)
               else if m.to == ReqLineAlmostDone || m.to == HeaderFieldStart then Version(0, 9)
               else p.version;
      Go(p.(state := m.to, version := v), m.acts)
  }

  function NameBegins(c: byte): HState {
    if Is(c, 'c') then HC
    else if Is(c, 'p') then HMatchProxyConnection
    else if Is(c, 't') then HMatchTransferEncoding
    else if Is(c, 'u') then HMatchUpgrade
    else HGeneral
  }

  function FieldStartStep(p: Parser, ch: byte): Result {
    if ch == CR then Go(p.(state := HeadersAlmostDone), [])
    else if ch == LF then HeadersDoneStep(p, ch)
    else if Token(ch) == 0 then Stop
    else Go(p.(state := HeaderField, scan := Scan(NameBegins(Token(ch)), 0)), [Mark(KField)])
  }

  /** One more character of a header name or value being compared with a known text. */
  function Match(x: Scan, text: string, c: byte, found: HState): Scan
    requires |text| >= 2
  {
    var i := x.index + 1;
    Scan(if !CharAt(text, i, c) then HGeneral else if i == |text| - 1 then found else x.hstate, i)
  }

  function NameGoes(x: Scan, ch: byte, c: byte): Scan {
    match x.hstate
    case HGeneral => x
    case HC => Scan(if Is(c, 'o') then HCO else HGeneral, x.index + 1)
    case HCO => Scan(if Is(c, 'n') then HCON else HGeneral, x.index + 1)
    case HCON => Scan(if Is(c, 'n') then HMatchConnection else if Is(c, 't') then HMatchContentLength else HGeneral,
                      x.index + 1)
    case HMatchConnection => Match(x, "connection", c, HConnection)
    case HMatchProxyConnection => Match(x, "proxy-connection", c, HConnection)
    case HMatchContentLength => Match(x, "content-length", c, HContentLength)
    case HMatchTransferEncoding => Match(x, "transfer-encoding", c, HTransferEncoding)
    case HMatchUpgrade => Match(x, "upgrade", c, HUpgrade)
    case _ => if Is(ch, ' ') then x else x.(hstate := HGeneral)
  }

  function FieldStep(p: Parser, ch: byte): Result {
    if Token(ch) != 0 then Go(p.(scan := NameGoes(p.scan, ch, Token(ch))), [])
    else if Is(ch, ':') then Go(p.(state := HeaderValueStart), [Callback(KField)])
    else if ch == CR then Go(p.(state := HeaderAlmostDone), [Callback(KField)])
    else if ch == LF then Go(p.(state := HeaderFieldStart), [Callback(KField)])
    else Stop
  }

  /** What the first character of a value says about a header being looked for. */
  function ValueBegins(h: HState, c: byte): HState {
    match h
    case HTransferEncoding => if Is(c, 'c') then HMatchChunked else HGeneral
    case HContentLength => HContentLength
    case HConnection => if Is(c, 'k') then HMatchKeepAlive else if Is(c, 'c') then HMatchClose else HGeneral
    case _ => HGeneral
  }

  function ValueStartStep(p: Parser, ch: byte): Result {
    var h := p.scan.hstate;
    if Is(ch, ' ') then Go(p, [])
    else if ch == CR then Go(p.(state := HeaderAlmostDone, scan := Scan(HGeneral, 0)), [Mark(KValue), Callback(KValue)])
    else if ch == LF then Go(p.(state := HeaderFieldStart, scan := Scan(h, 0)), [Mark(KValue), Callback(KValue)])
    else if h.HContentLength? && !IsDigit(ch) then Stop
    else
      Go(p.(state := HeaderValue, scan := Scan(ValueBegins(h, Lower(ch)), 0),
            flags := p.flags.(upgrade := p.flags.upgrade || h.HUpgrade?),
            length := if h.HContentLength? then ch - 48 else p.length), [Mark(KValue)])
  }

  function ValueGoes(x: Scan, ch: byte, c: byte): Scan {
    match x.hstate
    case HGeneral => x
    case HContentLength => x
    case HMatchChunked => Match(x, "chunked", c, HChunked)
    case HMatchKeepAlive => Match(x, "keep-alive", c, HKeepAlive)
    case HMatchClose => Match(x, "close", c, HClose)
    case HChunked => if Is(ch, ' ') then x else x.(hstate := HGeneral)
    case HKeepAlive => if Is(ch, ' ') then x else x.(hstate := HGeneral)
    case HClose => if Is(ch, ' ') then x else x.(hstate := HGeneral)
    case _ => x.(hstate := HGeneral)
  }

  function ValueStep(p: Parser, ch: byte): Result {
    if ch == CR then Go(p.(state := HeaderAlmostDone), [Callback(KValue)])
    else if ch == LF then Go(p.(state := HeaderFieldStart, flags := HeaderFlags(p)), [Callback(KValue)])
    else if p.scan.hstate.HContentLength? && !Is(ch, ' ') then
      if IsDigit(ch) then Go(p.(length := p.length * 10 + (ch - 48)), []) else Stop
    else Go(p.(scan := ValueGoes(p.scan, ch, Lower(ch))), [])
  }

  /** What a finished header adds to the flags. */
  function HeaderFlags(p: Parser): Flags {
    match p.scan.hstate
    case HKeepAlive => p.flags.(keepAlive := true)
    case HClose => p.flags.(close := true)
    case HChunked => p.flags.(chunked := true)
    case _ => p.flags
  }

  /** The end of all headers, with callbacks returning 0. */
  function HeadersDoneStep(p: Parser, ch: byte): Result {
    if ch != LF then Stop
    else if p.flags.trailing then Go(p.(state := NewState(p)), [OnComplete])
    else if p.flags.upgrade || p.verb == CONNECT then Exit
    else if p.flags.chunked then Go(p.(nread := 0, state := ChunkSizeStart), [OnHeadersComplete])
    else if p.length > 0 then Go(p.(nread := 0, state := BodyIdentity), [OnHeadersComplete])
    else Go(p.(nread := 0, state := NewState(p)), [OnHeadersComplete, OnComplete])
  }

  function ChunkMove(s: State, length: int, ch: byte): Move {
    match s
    case ChunkSizeStart => MoveIf(Unhex(ch) != -1, ChunkSize)
    case ChunkSize =>
      if ch == CR then Move(ChunkSizeAlmostDone, [])
      else if Unhex(ch) != -1 then Move(s, [])
      else MoveIf(Is(ch, ';') || Is(ch, ' '), ChunkParameters)
    case ChunkParameters => Move(if ch == CR then ChunkSizeAlmostDone else s, [])
    case ChunkSizeAlmostDone => MoveIf(ch == LF, if length == 0 then HeaderFieldStart else ChunkData)
    case ChunkDataAlmostDone => MoveIf(ch == CR, ChunkDataDone)
    case _ => MoveIf(ch == LF, ChunkSizeStart) // ChunkDataDone
  }

  function ChunkLength(s: State, length: int, ch: byte): int {
    if s == ChunkSizeStart then Unhex(ch)
    else if s == ChunkSize && ch != CR && Unhex(ch) != -1 then length * 16 + Unhex(ch)
    else length
  }

  function ChunkStep(p: Parser, ch: byte): Result {
    match ChunkMove(p.state, p.length, ch)
    case Bad => Stop
    case Move(to, acts) =>
      Go(p.(state := to, length := ChunkLength(p.state, p.length, ch),
            flags := p.flags.(trailing := p.flags.trailing || to == HeaderFieldStart)), acts)
  }

  predicate BulkState(s: State) { s == BodyIdentity || s == ChunkData }

  predicate VersionState(s: State) {
    s.HttpStart? || s.HttpH? || s.HttpHT? || s.HttpHTT? || s.HttpHTTP? || s.FirstMajor? || s.Major? || s.FirstMinor? ||
    s.Minor? || s.ReqLineAlmostDone?
  }

  predicate AuthorityState(s: State) {
    s.SpacesBeforeUrl? || s.Schema? || s.SchemaSlash? || s.SchemaSlashSlash? || s.Host? || s.Port?
  }

  predicate PathState(s: State) { s.Path? || s.QueryStart? || s.Query? || s.FragmentStart? || s.Fragment? }

  /** One iteration of the loop outside the two bulk states. */
  function Switch(p: Parser, ch: byte): Result
    requires !BulkState(p.state)
  {
    if p.state == Dead then Stop
    else if p.state == StartReq then StartReqStep(p, ch)
    else if p.state == ReqMethod then MethodStep(p, ch)
    else if AuthorityState(p.state) || PathState(p.state) || VersionState(p.state) then LineStep(p, ch)
    else if p.state == HeaderFieldStart then FieldStartStep(p, ch)
    else if p.state == HeaderField then FieldStep(p, ch)
    else if p.state == HeaderValueStart then ValueStartStep(p, ch)
    else if p.state == HeaderValue then ValueStep(p, ch)
    else if p.state == HeaderAlmostDone then
      (if ch == LF then Go(p.(state := HeaderFieldStart, flags := HeaderFlags(p)), []) else Stop)
    else if p.state == HeadersAlmostDone then HeadersDoneStep(p, ch)
    else ChunkStep(p, ch)
  }

  /** The header-size count at the top of the loop. */
  function Count(p: Parser): Option<Parser> {
    if !ParsingHeader(p) then Some(p)
    else if p.nread + 1 > MAX_HEADER_SIZE then None
    else Some(p.(nread := p.nread + 1))
  }
}
