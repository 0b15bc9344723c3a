/**
 The request line: its text, read by the parser of src/http-parser/http_parser.c, gives back the
 method, the parts of the target and the version.
 */
module HttpLine {
  import opened Bytes
  import opened HttpMachine
  import opened HttpParser
  import opened HttpChunk

  // ----- composing runs -----

  /** Reading t takes the parser p to q and the observer o to r. */
  ghost predicate Reads(p: Parser, o: Observed, t: bytes, q: Parser, r: Observed) { Run(p, o, t) == Ok(q, r) }

  lemma Then(p: Parser, o: Observed, a: bytes, q: Parser, r: Observed, b: bytes, q': Parser, r': Observed)
    requires Reads(p, o, a, q, r) && Reads(q, r, b, q', r')
    ensures Reads(p, o, a + b, q', r')
  {
    hide Run;
    RunCut(p, o, a, b);
  }

  lemma ReadsNothing(p: Parser, o: Observed)
    ensures Reads(p, o, [], p, o)
  {
  }

  /** Room for n more header bytes. */
  predicate Room(p: Parser, n: nat) { p.nread + n <= 81920 && !p.flags.trailing && !BodyState(p.state) }

  /** One byte of the request line or the headers. */
  lemma ReadsByte(p: Parser, o: Observed, ch: byte, q: Parser, acts: seq<Action>, r: Observed)
    requires Room(p, 1) && Switch(p.(nread := p.nread + 1), ch) == Go(q, acts)
    requires r == Spans(Controls(o, acts), p.state, ch, q.state)
    ensures Reads(p, o, [ch], q, r)
  {
    hide Run, Switch, Spans, Controls;
    RunNothing(p, o);
    assert [] + [ch] == [ch];
    RunSnoc(p, o, [], ch, p, o);
  }

  /** One byte that delivers nothing. */
  lemma ReadsSilent(p: Parser, o: Observed, ch: byte, q: Parser)
    requires Room(p, 1) && Switch(p.(nread := p.nread + 1), ch) == Go(q, [])
    requires Unmarked(p.state) && Unmarked(q.state) && !EmptyValue(p.state, ch, KValue)
    ensures Reads(p, o, [ch], q, o)
  {
    hide Run, Switch, Spans;
    UnmarkedSpans(o, p.state, ch, q.state);
    assert Controls(o, []) == o;
    ReadsByte(p, o, ch, q, [], o);
  }

  // ----- the method -----

  function Word(m: Method): (s: bytes)
    ensures |s| == |MethodString(m)|
  {
    Ascii(MethodString(m))
  }

  /** The candidate after i characters of the name of m. */
  function Candidate(m: Method, i: nat): Method {
    match m
    case CHECKOUT => if i <= 1 then CONNECT else m
    case COPY => if i <= 2 then CONNECT else m
    case MOVE => if i <= 1 then MKCOL else m
    case MERGE => if i <= 1 then MKCOL else m
    case MSEARCH => if i <= 1 then MKCOL else m
    case MKACTIVITY => if i <= 2 then MKCOL else m
    case PUT => if i <= 1 then POST else m
    case PROPFIND => if i <= 1 then POST else m
    case PROPPATCH => if i <= 1 then POST else if i <= 4 then PROPFIND else m
    case UNSUBSCRIBE => if i <= 2 then UNLOCK else m
    case _ => m
  }

  lemma MethodBegins(m: Method)
    ensures InitialMethod(Word(m)[0]) == Some(Candidate(m, 1)) && |Word(m)| >= 3
  {
  }

  predicate Upper(s: string) { forall i :: 0 <= i < |s| ==> s[i] == '-' || 'A' <= s[i] <= 'Z' }

  lemma MethodUpper(m: Method)
    ensures Upper(MethodString(m))
  {
  }

  lemma WordChar(m: Method, i: nat)
    requires i < |Word(m)|
    ensures Word(m)[i] != NUL && !Is(Word(m)[i], ' ') && CharAt(MethodString(m), i, Word(m)[i])
  {
    hide MethodString;
    MethodUpper(m);
  }

  /** Once the candidate is the method itself it stays. */
  lemma CandidateStays(m: Method, i: nat)
    requires Candidate(m, i) == m
    ensures Candidate(m, i + 1) == m
  {
  }

  /** Until then the characters agree with a shorter-lived candidate, or move on from it. */
  lemma CandidateMoves(m: Method, i: nat)
    requires 1 <= i < |Word(m)| && Candidate(m, i) != m
    ensures var c, ch := Candidate(m, i), Word(m)[i];
            && i <= |MethodString(c)|
            && (if CharAt(MethodString(c), i, ch) then Some(c) else Revise(c, i, ch)) == Some(Candidate(m, i + 1))
  {
  }

  /** One more character keeps to the names that begin like m, and ends at m. */
  lemma MethodGoes(m: Method, i: nat)
    requires 1 <= i < |Word(m)|
    ensures var c, ch := Candidate(m, i), Word(m)[i];
            && ch != NUL && !Is(ch, ' ') && i <= |MethodString(c)|
            && (if CharAt(MethodString(c), i, ch) then Some(c) else Revise(c, i, ch)) == Some(Candidate(m, i + 1))
  {
    hide Candidate, Word, Revise, CharAt, MethodString, Is;
    WordChar(m, i);
    if Candidate(m, i) == m { CandidateStays(m, i); } else { CandidateMoves(m, i); }
  }

  lemma MethodEnds(m: Method)
    ensures Candidate(m, |Word(m)|) == m
  {
  }

  /** The header bytes counted by n bytes from the start of a request; the one after a trailer is not. */
  function Counted(p: Parser, n: nat): nat
    requires n >= 1
  {
    p.nread + n - (if p.flags.trailing then 1 else 0)
  }

  /** The parser that has read i characters of the method m since p. */
  function InMethod(p: Parser, m: Method, i: nat): Parser
    requires i >= 1
  {
    Parser(ReqMethod, p.scan.(index := i), Counted(p, i), NO_FLAGS, -1, p.version, Candidate(m, i))
  }

  lemma FirstLetter(ch: byte)
    ensures InitialMethod(ch).Some? ==> ch != CR && ch != LF
  {
  }

  /** The byte that starts a request, whether or not a trailer precedes it. */
  lemma ReadsStart(p: Parser, o: Observed, ch: byte, m: Method)
    requires p.state == StartReq && p.nread + 1 <= 81920 && InitialMethod(ch) == Some(m)
    ensures Reads(p, o, [ch], Parser(ReqMethod, p.scan.(index := 1), Counted(p, 1), NO_FLAGS, -1, p.version, m),
                  OnControl(o, OnBegin))
  {
    hide Run, InitialMethod, OnControl, Spans;
    FirstLetter(ch);
    var acts := [OnBegin];
    assert acts[1..] == [];
    assert Controls(o, acts) == OnControl(o, OnBegin);
    UnmarkedSpans(OnControl(o, OnBegin), StartReq, ch, ReqMethod);
    RunNothing(p, o);
    assert [] + [ch] == [ch];
    RunSnoc(p, o, [], ch, p, o);
  }

  lemma ReadsLetter(p: Parser, o: Observed, m: Method, i: nat)
    requires 1 <= i < |Word(m)| && Counted(p, i) + 1 <= 81920
    ensures Reads(InMethod(p, m, i), o, [Word(m)[i]], InMethod(p, m, i + 1), o)
  {
    hide Reads, Candidate, Word, Revise, CharAt, MethodString, Is;
    MethodGoes(m, i);
    ReadsSilent(InMethod(p, m, i), o, Word(m)[i], InMethod(p, m, i + 1));
  }

  lemma {:induction false} ReadsMethod(p: Parser, o: Observed, m: Method, i: nat)
    requires p.state == StartReq && 1 <= i <= |Word(m)| && p.nread + i <= 81920
    ensures Reads(p, o, Word(m)[..i], InMethod(p, m, i), OnControl(o, OnBegin))
  {
    hide Reads, Candidate, Word, OnControl;
    var o' := OnControl(o, OnBegin);
    if i == 1 {
      MethodBegins(m);
      ReadsStart(p, o, Word(m)[0], Candidate(m, 1));
      assert Word(m)[..1] == [Word(m)[0]];
    } else {
      ReadsMethod(p, o, m, i - 1);
      ReadsLetter(p, o', m, i - 1);
      Then(p, o, Word(m)[..i - 1], InMethod(p, m, i - 1), o', [Word(m)[i - 1]], InMethod(p, m, i), o');
      assert Word(m)[..i - 1] + [Word(m)[i - 1]] == Word(m)[..i];
    }
  }

  const SPACE: bytes := [32]

  /** After the method and its space. */
  function AfterMethod(p: Parser, m: Method): Parser {
    var n := |Word(m)| + 1;
    Parser(SpacesBeforeUrl, p.scan.(index := n), Counted(p, n), NO_FLAGS, -1, p.version, m)
  }

  lemma ReadsSpace(p: Parser, o: Observed, m: Method)
    requires p.nread + |Word(m)| + 1 <= 81920 && |Word(m)| >= 1
    ensures Reads(InMethod(p, m, |Word(m)|), o, SPACE, AfterMethod(p, m), o)
  {
    hide Reads, Candidate, Revise, CharAt, MethodString, Ascii;
    MethodEnds(m);
    ReadsSilent(InMethod(p, m, |Word(m)|), o, 32, AfterMethod(p, m));
  }

  lemma ReadsVerb(p: Parser, o: Observed, m: Method)
    requires p.state == StartReq && p.nread + |Word(m)| + 1 <= 81920
    ensures Reads(p, o, Word(m) + SPACE, AfterMethod(p, m), OnControl(o, OnBegin))
  {
    hide Reads, OnControl, Word, InMethod, InitialMethod, Candidate, AfterMethod;
    var n, o' := |Word(m)|, OnControl(o, OnBegin);
    MethodBegins(m);
    ReadsMethod(p, o, m, n);
    assert Word(m)[..n] == Word(m);
    ReadsSpace(p, o', m);
    Then(p, o, Word(m), InMethod(p, m, n), o', SPACE, AfterMethod(p, m), o');
  }

  // ----- the target -----

  /** The part of an absolute target before the path; a host can stand without a schema. */
  datatype Origin = Origin(schema: Option<bytes>, host: bytes, port: Option<bytes>)

  datatype Target = Target(origin: Option<Origin>, path: Option<bytes>, query: Option<bytes>, fragment: Option<bytes>)

  predicate Alpha(b: byte) { 'a' as int <= b <= 'z' as int || 'A' as int <= b <= 'Z' as int }

  predicate Digit(b: byte) { '0' as int <= b <= '9' as int }

  predicate HostChar(b: byte) { Alpha(b) || Digit(b) || b == '.' as int || b == '-' as int }

  lemma AlphaLetter(b: byte)
    ensures (Alpha(b) <==> Letter(b)) && (Digit(b) <==> IsDigit(b))
  {
  }

  predicate AllLetters(s: bytes) { forall i :: 0 <= i < |s| ==> Alpha(s[i]) }

  predicate AllNumerals(s: bytes) { forall i :: 0 <= i < |s| ==> Digit(s[i]) }

  /** How many letters a host begins with. */
  function Letters(s: bytes): (n: nat)
    ensures n <= |s| && AllLetters(s[..n]) && (n < |s| ==> !Alpha(s[n]))
  {
    if s == [] || !Alpha(s[0]) then 0
    else
      assert forall i :: 1 <= i < 1 + Letters(s[1..]) ==> s[i] == s[1..][i - 1];
      1 + Letters(s[1..])
  }

  /** A host without a schema begins with letters and goes on with a dot or a digit. */
  predicate BareHost(h: bytes) {
    var n := Letters(h);
    1 <= n < |h| && (h[n] == '.' as int || Digit(h[n]))
  }

  predicate IsOrigin(r: Origin) {
    && (if r.schema.Some? then |r.schema.value| >= 1 && AllLetters(r.schema.value) else BareHost(r.host))
    && (forall i :: 0 <= i < |r.host| ==> HostChar(r.host[i]))
    && (r.port.Some? ==> AllNumerals(r.port.value))
  }

  /** The unreserved characters of section 2.3 of RFC 3986. */
  predicate Unreserved(b: byte) {
    Alpha(b) || Digit(b) || b == '-' as int || b == '.' as int || b == '_' as int || b == '~' as int
  }

  /** The sub-delimiters of section 2.2 of RFC 3986. */
  predicate SubDelim(b: byte) {
    || b == '!' as int || b == '$' as int || b == '&' as int || b == '\'' as int || b == '(' as int || b == ')' as int
    || b == '*' as int || b == '+' as int || b == ',' as int || b == ';' as int || b == '=' as int
  }

  /**
   The characters of a path by section 3.3 of RFC 3986, with the slash between segments and the percent
   sign of escapes, and the other printable characters the source lets through.
   */
  predicate PathByte(b: byte) {
    || Unreserved(b) || SubDelim(b) || b == '%' as int || b == ':' as int || b == '@' as int || b == '/' as int
    || b == '"' as int || b == '<' as int || b == '>' as int || b == '[' as int || b == '\\' as int || b == ']' as int
    || b == '^' as int || b == '`' as int || b == '{' as int || b == '|' as int || b == '}' as int
  }

  lemma PathByteIs(b: byte)
    ensures PathByte(b) <==> NormalUrlChar(b)
  {
  }

  predicate IsPath(s: bytes) { |s| >= 1 && forall i :: 0 <= i < |s| ==> PathByte(s[i]) }

  predicate QueryChar(b: byte) { PathByte(b) || b == '?' as int }

  predicate FragmentChar(b: byte) { PathByte(b) || b == '?' as int || b == '#' as int }

  /** A path, alone or behind an origin, with an optional query and fragment; or an origin alone. */
  predicate IsTarget(t: Target) {
    && (t.origin.Some? ==> IsOrigin(t.origin.value))
    && (t.path.Some? ==>
         IsPath(t.path.value) && (Is(t.path.value[0], '/') || (t.origin == None && Is(t.path.value[0], '*'))))
    && (t.path == None ==> t.origin.Some? && t.query == None && t.fragment == None)
    && (t.query.Some? ==> forall i :: 0 <= i < |t.query.value| ==> QueryChar(t.query.value[i]))
    && (t.fragment.Some? ==> forall i :: 0 <= i < |t.fragment.value| ==> FragmentChar(t.fragment.value[i]))
  }

  /** An optional part behind its separator. */
  function Part(c: byte, x: Option<bytes>): bytes { if x.Some? then [c] + x.value else [] }

  function HostText(r: Origin): bytes {
    if r.schema.Some? then r.schema.value + [58] + [47] + ([47] + r.host) else r.host
  }

  function OriginText(r: Origin): bytes { HostText(r) + Part(58, r.port) }

  function TargetText(t: Target): bytes {
    (if t.origin.Some? then OriginText(t.origin.value) else []) + (if t.path.Some? then t.path.value else [])
    + Part(63, t.query) + Part(35, t.fragment)
  }

  /**
   What of a query or a fragment is reported: not the separators it begins with, and nothing if there
   is nothing else.
   */
  function Reported(c: byte, s: bytes): Option<bytes> {
    if s == [] then None else if s[0] == c then Reported(c, s[1..]) else Some(s)
  }

  /** A list with the piece read so far. */
  function Add(items: seq<Item>, k: Kind, x: Option<bytes>): seq<Item> {
    if x.Some? then items + [Piece(k, x.value)] else items
  }

  function Grow(x: Option<bytes>, on: bool, ch: byte): Option<bytes> {
    if on then Some((if x.Some? then x.value else []) + [ch]) else x
  }

  /** A byte extends the pieces whose spans are open after it. */
  lemma SpanAdd(items: seq<Item>, k: Kind, x: Option<bytes>, s: State, ch: byte, s': State)
    requires !Ends(items, k) && (Marked(s, k) ==> x.Some?) && !EmptyValue(s, ch, k)
    ensures Span(Add(items, k, x), k, s, ch, s') == Add(items, k, Grow(x, Marked(s', k), ch))
  {
    hide Marked, EmptyValue;
    if Marked(s', k) {
      PushAdd(items, k, x, ch);
    } else if Marked(s, k) {
      PushNothing(Add(items, k, x), k);
    }
  }

  lemma PushAdd(items: seq<Item>, k: Kind, x: Option<bytes>, ch: byte)
    requires !Ends(items, k)
    ensures Push(Add(items, k, x), k, [ch]) == Add(items, k, Grow(x, true, ch))
  {
    if x.Some? {
      assert Push(Add(items, k, x), k, [ch]) == items + [Piece(k, x.value + [ch])];
    } else {
      assert [] + [ch] == [ch];
    }
  }

  /** None of the lists ends in a piece that a new one would be joined to. */
  predicate Fresh(o: Observed) {
    !Ends(o.url, KUrl) && !Ends(o.path, KPath) && !Ends(o.query, KQuery) && !Ends(o.fragment, KFragment)
  }

  function Seen(o: Observed, url: Option<bytes>, path: Option<bytes>, query: Option<bytes>, fragment: Option<bytes>)
    : Observed
  {
    Observed(o.main, Add(o.url, KUrl, url), Add(o.path, KPath, path), Add(o.query, KQuery, query),
             Add(o.fragment, KFragment, fragment))
  }

  /** The states of the request line up to its end. */
  predicate LineState(s: State) {
    AuthorityState(s) || PathState(s) || s.HttpStart? || s.ReqLineAlmostDone? || s.HeaderFieldStart?
  }

  lemma SpansSeen(o: Observed, u: Option<bytes>, a: Option<bytes>, q: Option<bytes>, f: Option<bytes>,
                  s: State, ch: byte, s': State)
    requires Fresh(o) && LineState(s) && LineState(s')
    requires (Marked(s, KUrl) ==> u.Some?) && (s.Path? ==> a.Some?) && (s.Query? ==> q.Some?)
    requires s.Fragment? ==> f.Some?
    ensures Spans(Seen(o, u, a, q, f), s, ch, s')
            == Seen(o, Grow(u, Marked(s', KUrl), ch), Grow(a, s'.Path?, ch), Grow(q, s'.Query?, ch),
                    Grow(f, s'.Fragment?, ch))
  {
    hide Span, Add, Grow, Marked, LineState, Ends, EmptyValue;
    MarkedLine(s, ch);
    MarkedLine(s', ch);
    SpanAdd(o.url, KUrl, u, s, ch, s');
    SpanAdd(o.path, KPath, a, s, ch, s');
    SpanAdd(o.query, KQuery, q, s, ch, s');
    SpanAdd(o.fragment, KFragment, f, s, ch, s');
    NoHeaderSpan(o.main, s, ch, s');
  }

  lemma MarkedLine(s: State, ch: byte)
    ensures Marked(s, KPath) == s.Path? && Marked(s, KQuery) == s.Query? && Marked(s, KFragment) == s.Fragment?
    ensures !EmptyValue(s, ch, KUrl) && !EmptyValue(s, ch, KPath) && !EmptyValue(s, ch, KQuery)
    ensures !EmptyValue(s, ch, KFragment)
  {
  }

  lemma NoHeaderSpan(items: seq<Item>, s: State, ch: byte, s': State)
    requires LineState(s) && LineState(s')
    ensures Span(Span(items, KField, s, ch, s'), KValue, s, ch, s') == items
  {
  }

  /** A byte of the target, or the space or line end behind it. */
  lemma ReadsUrlByte(p: Parser, o: Observed, ch: byte, s': State, v: Version)
    requires Room(p, 1) && InUrl(p.state) && LineState(s') && UrlNext(p.state, ch).Move?
    requires UrlNext(p.state, ch).to == s'
    requires v == if s'.ReqLineAlmostDone? || s'.HeaderFieldStart? then Version(0, 9) else p.version
    ensures Reads(p, o, [ch], p.(state := s', nread := p.nread + 1, version := v), Spans(o, p.state, ch, s'))
  {
    hide Reads, AuthorityMove, UrlMove, VersionMove, VersionRead, Spans, Agrees, Controls;
    var m := UrlNext(p.state, ch);
    if AuthorityState(p.state) { AuthorityAgrees(p.state, ch); } else { UrlAgrees(p.state, ch); }
    AgreesSpans(m.acts, p.state, ch, s');
    NoControls(o, m.acts);
    ReadsByte(p, o, ch, p.(state := s', nread := p.nread + 1, version := v), m.acts, Spans(o, p.state, ch, s'));
  }

  // ----- reading a target -----

  datatype Parts = Parts(url: Option<bytes>, path: Option<bytes>, query: Option<bytes>, fragment: Option<bytes>)

  const NO_PARTS: Parts := Parts(None, None, None, None)

  predicate InUrl(s: State) { AuthorityState(s) || PathState(s) }

  function UrlNext(s: State, ch: byte): Move
    requires InUrl(s)
  {
    if AuthorityState(s) then AuthorityMove(s, ch) else UrlMove(s, ch)
  }

  function SeenParts(o: Observed, x: Parts): Observed { Seen(o, x.url, x.path, x.query, x.fragment) }

  /** The parts after a byte that leads to state s. */
  function GrowParts(x: Parts, s: State, ch: byte): Parts {
    Parts(Grow(x.url, Marked(s, KUrl), ch), Grow(x.path, s.Path?, ch), Grow(x.query, s.Query?, ch),
          Grow(x.fragment, s.Fragment?, ch))
  }

  predicate Opened(s: State, x: Parts) {
    (Marked(s, KUrl) ==> x.url.Some?) && (s.Path? ==> x.path.Some?) && (s.Query? ==> x.query.Some?)
      && (s.Fragment? ==> x.fragment.Some?)
  }

  /** The state and the parts after a text within the URL. */
  function UrlFold(s: State, x: Parts, t: bytes): Option<(State, Parts)>
    requires InUrl(s)
    ensures var r := UrlFold(s, x, t); r.Some? ==> InUrl(r.value.0)
  {
    var n := |t| - 1;
    if t == [] then Some((s, x))
    else match UrlFold(s, x, t[..n])
      case None => None
      case Some(r) =>
        var m := UrlNext(r.0, t[n]);
        if m.Move? && InUrl(m.to) then Some((m.to, GrowParts(r.1, m.to, t[n]))) else None
  }

  function In(p: Parser, s: State, n: nat): Parser { p.(state := s, nread := p.nread + n) }

  /** A byte of the target and what it adds to the parts. */
  lemma ReadsUrl(p: Parser, n: nat, o: Observed, x: Parts, s: State, ch: byte, s': State)
    requires Fresh(o) && Room(In(p, s, n), 1) && InUrl(s) && (InUrl(s') || s'.HttpStart?) && Opened(s, x)
    requires UrlNext(s, ch).Move? && UrlNext(s, ch).to == s'
    ensures Reads(In(p, s, n), SeenParts(o, x), [ch], In(p, s', n + 1), SeenParts(o, GrowParts(x, s', ch)))
    ensures Opened(s', GrowParts(x, s', ch))
  {
    hide Reads, AuthorityMove, UrlMove, Spans, Seen, Marked, Fresh;
    SpansSeen(o, x.url, x.path, x.query, x.fragment, s, ch, s');
    ReadsUrlByte(In(p, s, n), SeenParts(o, x), ch, s', p.version);
  }

  lemma {:induction false} ReadsUrlText(p: Parser, n: nat, o: Observed, x: Parts, s: State, t: bytes)
    requires Fresh(o) && !p.flags.trailing && p.nread + n + |t| <= 81920 && InUrl(s) && Opened(s, x)
    requires UrlFold(s, x, t).Some?
    ensures var (s', x') := UrlFold(s, x, t).value;
            Reads(In(p, s, n), SeenParts(o, x), t, In(p, s', n + |t|), SeenParts(o, x')) && Opened(s', x')
  {
    hide Reads, UrlNext, SeenParts, Fresh, Marked, GrowParts, Opened, AuthorityState, PathState;
    if t == [] {
      ReadsNothing(In(p, s, n), SeenParts(o, x));
    } else {
      var k := |t| - 1;
      ReadsUrlText(p, n, o, x, s, t[..k]);
      var (s1, x1) := UrlFold(s, x, t[..k]).value;
      var s' := UrlNext(s1, t[k]).to;
      UrlRoom(p, s1, n + k);
      ReadsUrl(p, n + k, o, x1, s1, t[k], s');
      Then(In(p, s, n), SeenParts(o, x), t[..k], In(p, s1, n + k), SeenParts(o, x1),
           [t[k]], In(p, s', n + |t|), SeenParts(o, GrowParts(x1, s', t[k])));
      assert t[..k] + [t[k]] == t;
    }
  }

  lemma UrlRoom(p: Parser, s: State, n: nat)
    requires InUrl(s) && !p.flags.trailing && p.nread + n + 1 <= 81920
    ensures Room(In(p, s, n), 1)
  {
  }

  lemma {:induction false} FoldThen(s: State, x: Parts, a: bytes, b: bytes)
    requires InUrl(s) && UrlFold(s, x, a).Some?
    ensures UrlFold(s, x, a + b) == UrlFold(UrlFold(s, x, a).value.0, UrlFold(s, x, a).value.1, b)
  {
    hide UrlNext, GrowParts, InUrl;
    if b == [] {
      assert a + b == a;
    } else {
      var n := |b| - 1;
      FoldThen(s, x, a, b[..n]);
      assert (a + b)[..|a| + n] == a + b[..n];
    }
  }

  function GrowAll(x: Option<bytes>, on: bool, t: bytes): Option<bytes> {
    if on && t != [] then Some((if x.Some? then x.value else []) + t) else x
  }

  /** The parts after a text that is read in state s. */
  function Grown(x: Parts, s: State, t: bytes): Parts {
    Parts(GrowAll(x.url, Marked(s, KUrl), t), GrowAll(x.path, s.Path?, t), GrowAll(x.query, s.Query?, t),
          GrowAll(x.fragment, s.Fragment?, t))
  }

  lemma GrownMore(x: Parts, s: State, t: bytes)
    requires t != []
    ensures GrowParts(Grown(x, s, t[..|t| - 1]), s, t[|t| - 1]) == Grown(x, s, t)
  {
    hide Marked;
    var n := |t| - 1;
    assert t == t[..n] + [t[n]];
    forall y: Option<bytes>, on: bool ensures Grow(GrowAll(y, on, t[..n]), on, t[n]) == GrowAll(y, on, t) {
      var z := if y.Some? then y.value else [];
      assert z + t[..n] + [t[n]] == z + t;
      if n == 0 { assert t[..0] == []; }
    }
  }

  predicate Goes(s: State, ch: byte, s': State)
    requires InUrl(s)
  {
    UrlNext(s, ch).Move? && UrlNext(s, ch).to == s'
  }

  /** A text whose first byte leads to s' and whose others stay there. */
  lemma {:induction false} FoldRun(s: State, x: Parts, s': State, t: bytes)
    requires InUrl(s) && InUrl(s') && t != [] && Goes(s, t[0], s') && forall i :: 1 <= i < |t| ==> Goes(s', t[i], s')
    ensures UrlFold(s, x, t) == Some((s', Grown(x, s', t)))
  {
    hide UrlNext, Grown, GrowParts, InUrl;
    var n := |t| - 1;
    GrownMore(x, s', t);
    if n == 0 {
      assert t[..0] == [];
      GrownNone(x, s');
    } else {
      FoldRun(s, x, s', t[..n]);
    }
  }

  lemma GrownNone(x: Parts, s: State)
    ensures Grown(x, s, []) == x
  {
  }

  /** Two texts read one after the other. */
  lemma FoldTwo(s: State, x: Parts, a: bytes, s1: State, x1: Parts, b: bytes, s2: State, x2: Parts)
    requires InUrl(s) && InUrl(s1) && UrlFold(s, x, a) == Some((s1, x1)) && UrlFold(s1, x1, b) == Some((s2, x2))
    ensures UrlFold(s, x, a + b) == Some((s2, x2))
  {
    hide UrlFold, InUrl;
    FoldThen(s, x, a, b);
  }

  function Got(x: Option<bytes>): bytes { if x.Some? then x.value else [] }

  lemma GrownIs(x: Parts, s: State, t: bytes)
    requires InUrl(s) && !s.SpacesBeforeUrl? && t != []
    ensures Grown(x, s, t) ==
              Parts(Some(Got(x.url) + t), if s.Path? then Some(Got(x.path) + t) else x.path,
                    if s.Query? then Some(Got(x.query) + t) else x.query,
                    if s.Fragment? then Some(Got(x.fragment) + t) else x.fragment)
  {
  }

  lemma AuthorityGoes(ch: byte)
    ensures Alpha(ch) ==> Goes(SpacesBeforeUrl, ch, Schema) && Goes(Schema, ch, Schema)
    ensures HostChar(ch) ==> Goes(Host, ch, Host)
    ensures Digit(ch) ==> Goes(Port, ch, Port)
    ensures ch == '.' as int || Digit(ch) ==> Goes(Schema, ch, Host)
    ensures ch == 58 ==> Goes(Schema, ch, SchemaSlash) && Goes(Host, ch, Port)
    ensures ch == 47 ==> Goes(SchemaSlash, ch, SchemaSlashSlash) && Goes(SchemaSlashSlash, ch, Host)
    ensures ch == 47 ==> Goes(SpacesBeforeUrl, ch, Path) && Goes(Host, ch, Path) && Goes(Port, ch, Path)
    ensures Is(ch, '*') ==> Goes(SpacesBeforeUrl, ch, Path)
  {
    AlphaLetter(ch);
  }

  lemma PathGoes(ch: byte)
    ensures PathByte(ch) ==> Goes(Path, ch, Path)
    ensures ch == 63 ==> Goes(Path, ch, QueryStart)
    ensures ch == 35 ==> Goes(Path, ch, FragmentStart)
  {
    hide PathByte;
    PathByteIs(ch);
  }

  lemma QueryGoes(ch: byte)
    ensures PathByte(ch) ==> Goes(QueryStart, ch, Query)
    ensures QueryChar(ch) ==> Goes(Query, ch, Query)
    ensures ch == 63 ==> Goes(QueryStart, ch, QueryStart)
    ensures ch == 35 ==> Goes(QueryStart, ch, FragmentStart) && Goes(Query, ch, FragmentStart)
  {
    hide PathByte;
    PathByteIs(ch);
  }

  lemma FragmentGoes(ch: byte)
    ensures FragmentChar(ch) ==> Goes(Fragment, ch, Fragment) && (ch != 35 ==> Goes(FragmentStart, ch, Fragment))
    ensures ch == 35 ==> Goes(FragmentStart, ch, FragmentStart)
  {
    hide PathByte;
    PathByteIs(ch);
  }

  /** One run of bytes in a state of the authority. */
  lemma FoldAuthority(s: State, u: Option<bytes>, s': State, t: bytes)
    requires InUrl(s) && AuthorityState(s') && !s'.SpacesBeforeUrl? && t != [] && Goes(s, t[0], s')
    requires forall i :: 1 <= i < |t| ==> Goes(s', t[i], s')
    ensures UrlFold(s, Parts(u, None, None, None), t) == Some((s', Parts(Some(Got(u) + t), None, None, None)))
  {
    hide UrlFold, Goes, Grown;
    FoldRun(s, Parts(u, None, None, None), s', t);
    GrownIs(Parts(u, None, None, None), s', t);
  }

  function UrlOnly(u: bytes): Parts { Parts(Some(u), None, None, None) }

  function OriginEnd(r: Origin): State { if r.port.Some? then Port else Host }

  lemma FoldSchema(a: bytes, host: bytes)
    requires |a| >= 1 && AllLetters(a) && forall i :: 0 <= i < |host| ==> HostChar(host[i])
    ensures UrlFold(SpacesBeforeUrl, NO_PARTS, a + [58] + [47] + ([47] + host))
            == Some((Host, UrlOnly(a + [58] + [47] + ([47] + host))))
  {
    hide UrlFold, Goes, Alpha, HostChar, Digit;
    var h := [47] + host;
    forall i | 0 <= i < |a| ensures Goes(SpacesBeforeUrl, a[i], Schema) && Goes(Schema, a[i], Schema) {
      AuthorityGoes(a[i]);
    }
    forall i | 1 <= i < |h| ensures Goes(Host, h[i], Host) {
      assert h[i] == host[i - 1];
      AuthorityGoes(h[i]);
    }
    AuthorityGoes(58);
    AuthorityGoes(47);
    FoldAuthority(SpacesBeforeUrl, None, Schema, a);
    assert [] + a == a;
    FoldAuthority(Schema, Some(a), SchemaSlash, [58]);
    FoldAuthority(SchemaSlash, Some(a + [58]), SchemaSlashSlash, [47]);
    FoldAuthority(SchemaSlashSlash, Some(a + [58] + [47]), Host, h);
    FoldTwo(SpacesBeforeUrl, NO_PARTS, a, Schema, UrlOnly(a), [58], SchemaSlash, UrlOnly(a + [58]));
    FoldTwo(SpacesBeforeUrl, NO_PARTS, a + [58], SchemaSlash, UrlOnly(a + [58]), [47], SchemaSlashSlash,
            UrlOnly(a + [58] + [47]));
    FoldTwo(SpacesBeforeUrl, NO_PARTS, a + [58] + [47], SchemaSlashSlash, UrlOnly(a + [58] + [47]), h, Host,
            UrlOnly(a + [58] + [47] + h));
  }

  /** A host without a schema: the letters are taken for one until the dot or the digit. */
  lemma FoldBareHost(h: bytes)
    requires BareHost(h) && forall i :: 0 <= i < |h| ==> HostChar(h[i])
    ensures UrlFold(SpacesBeforeUrl, NO_PARTS, h) == Some((Host, UrlOnly(h)))
  {
    hide UrlFold, Goes, Alpha, HostChar, Digit, Letters;
    var n := Letters(h);
    var a, b := h[..n], h[n..];
    forall i | 0 <= i < n ensures Goes(SpacesBeforeUrl, a[i], Schema) && Goes(Schema, a[i], Schema) {
      AuthorityGoes(a[i]);
    }
    AuthorityGoes(b[0]);
    forall i | 1 <= i < |b| ensures Goes(Host, b[i], Host) {
      assert b[i] == h[n + i];
      AuthorityGoes(b[i]);
    }
    FoldAuthority(SpacesBeforeUrl, None, Schema, a);
    assert [] + a == a && a + b == h;
    FoldAuthority(Schema, Some(a), Host, b);
    FoldTwo(SpacesBeforeUrl, NO_PARTS, a, Schema, UrlOnly(a), b, Host, UrlOnly(h));
  }

  lemma FoldOrigin(r: Origin)
    requires IsOrigin(r)
    ensures UrlFold(SpacesBeforeUrl, NO_PARTS, OriginText(r)) == Some((OriginEnd(r), UrlOnly(OriginText(r))))
  {
    hide UrlFold, Goes, Digit, BareHost;
    var front := HostText(r);
    if r.schema.Some? { FoldSchema(r.schema.value, r.host); } else { FoldBareHost(r.host); }
    if r.port.Some? {
      var t := [58] + r.port.value;
      AuthorityGoes(58);
      forall i | 1 <= i < |t| ensures Goes(Port, t[i], Port) {
        AuthorityGoes(t[i]);
        assert t[i] == r.port.value[i - 1];
      }
      FoldAuthority(Host, Some(front), Port, t);
      FoldTwo(SpacesBeforeUrl, NO_PARTS, front, Host, UrlOnly(front), t, Port, UrlOnly(front + t));
    } else {
      assert front + [] == front;
    }
  }

  lemma FoldPath(s: State, u: Option<bytes>, t: bytes)
    requires s.SpacesBeforeUrl? || s.Host? || s.Port?
    requires IsPath(t) && (Is(t[0], '/') || (s.SpacesBeforeUrl? && Is(t[0], '*')))
    ensures UrlFold(s, Parts(u, None, None, None), t) == Some((Path, Parts(Some(Got(u) + t), Some(t), None, None)))
  {
    hide UrlFold, Goes, PathByte;
    AuthorityGoes(t[0]);
    forall i | 1 <= i < |t| ensures Goes(Path, t[i], Path) { PathGoes(t[i]); }
    FoldRun(s, Parts(u, None, None, None), Path, t);
    GrownIs(Parts(u, None, None, None), Path, t);
    assert [] + t == t;
  }

  /** The separators a text begins with. */
  lemma {:induction false} Leading(c: byte, s: bytes) returns (k: nat)
    ensures k <= |s| && (forall i :: 0 <= i < k ==> s[i] == c)
    ensures Reported(c, s) == (if k == |s| then None else Some(s[k..])) && (k < |s| ==> s[k] != c)
  {
    if s == [] || s[0] != c {
      k := 0;
      assert s[0..] == s;
    } else {
      k := Leading(c, s[1..]);
      assert s[1..][k..] == s[k + 1..];
      assert forall i :: 1 <= i < |s| ==> s[i] == s[1..][i - 1];
      k := k + 1;
    }
  }

  function QueryEnd(q: Option<bytes>): State {
    if q == None then Path else if Reported(63, q.value) == None then QueryStart else Query
  }

  function FragmentEnd(q: Option<bytes>, f: Option<bytes>): State {
    if f == None then QueryEnd(q) else if Reported(35, f.value) == None then FragmentStart else Fragment
  }

  function ReportedPart(c: byte, x: Option<bytes>): Option<bytes> { if x == None then None else Reported(c, x.value) }

  /** A separator, more of them, and then the rest of the part. */
  lemma FoldPart(s: State, x: Parts, c: byte, t: bytes, s1: State, s2: State) returns (k: nat)
    requires InUrl(s) && x.url.Some? && (s1.QueryStart? || s1.FragmentStart?) && InUrl(s2) && !s2.SpacesBeforeUrl?
    requires Goes(s, c, s1) && Goes(s1, c, s1)
    requires forall i :: 0 <= i < |t| ==> (t[i] != c ==> Goes(s1, t[i], s2)) && Goes(s2, t[i], s2)
    ensures k <= |t| && Reported(c, t) == if k == |t| then None else Some(t[k..])
    ensures var y := x.(url := Some(x.url.value + [c] + t[..k]));
            UrlFold(s, x, [c] + t) == if k == |t| then Some((s1, y)) else Some((s2, Grown(y, s2, t[k..])))
  {
    hide UrlFold, Goes, Grown, Reported;
    k := Leading(c, t);
    var a := [c] + t[..k];
    FoldRun(s, x, s1, a);
    GrownIs(x, s1, a);
    assert x.url.value + a == x.url.value + [c] + t[..k];
    if k < |t| {
      var b, y := t[k..], x.(url := Some(x.url.value + [c] + t[..k]));
      forall i | 1 <= i < |b| ensures Goes(s2, b[i], s2) { assert b[i] == t[k + i]; }
      FoldRun(s1, y, s2, b);
      FoldTwo(s, x, a, s1, y, b, s2, Grown(y, s2, b));
      assert a + b == [c] + t;
    } else {
      assert t[..k] == t;
    }
  }

  lemma FoldQuery(u: bytes, a: Option<bytes>, q: Option<bytes>)
    requires q.Some? ==> forall i :: 0 <= i < |q.value| ==> QueryChar(q.value[i])
    ensures UrlFold(Path, Parts(Some(u), a, None, None), Part(63, q))
            == Some((QueryEnd(q), Parts(Some(u + Part(63, q)), a, ReportedPart(63, q), None)))
  {
    hide UrlFold, Goes, Grown, Reported, PathByte;
    var x := Parts(Some(u), a, None, None);
    if q.Some? {
      var t := q.value;
      PathGoes(63);
      QueryGoes(63);
      forall i | 0 <= i < |t| ensures (t[i] != 63 ==> Goes(QueryStart, t[i], Query)) && Goes(Query, t[i], Query) {
        QueryGoes(t[i]);
      }
      var k := FoldPart(Path, x, 63, t, QueryStart, Query);
      var v := u + [63] + t[..k];
      assert k < |t| ==> v + t[k..] == u + Part(63, q) && [] + t[k..] == t[k..];
      assert k == |t| ==> v == u + Part(63, q);
      if k < |t| { GrownIs(Parts(Some(v), a, None, None), Query, t[k..]); }
    } else {
      FoldNothing(Path, x);
      assert u + [] == u;
    }
  }

  lemma FoldFragment(u: bytes, a: Option<bytes>, q: Option<bytes>, f: Option<bytes>)
    requires f.Some? ==> forall i :: 0 <= i < |f.value| ==> FragmentChar(f.value[i])
    ensures UrlFold(QueryEnd(q), Parts(Some(u), a, ReportedPart(63, q), None), Part(35, f))
            == Some((FragmentEnd(q, f), Parts(Some(u + Part(35, f)), a, ReportedPart(63, q), ReportedPart(35, f))))
  {
    hide UrlFold, Goes, Grown, Reported, PathByte;
    var x := Parts(Some(u), a, ReportedPart(63, q), None);
    if f.Some? {
      var t := f.value;
      PathGoes(35);
      QueryGoes(35);
      FragmentGoes(35);
      forall i | 0 <= i < |t|
        ensures (t[i] != 35 ==> Goes(FragmentStart, t[i], Fragment)) && Goes(Fragment, t[i], Fragment)
      {
        FragmentGoes(t[i]);
      }
      var k := FoldPart(QueryEnd(q), x, 35, t, FragmentStart, Fragment);
      var v := u + [35] + t[..k];
      assert k < |t| ==> v + t[k..] == u + Part(35, f) && [] + t[k..] == t[k..];
      assert k == |t| ==> v == u + Part(35, f);
      if k < |t| { GrownIs(x.(url := Some(v)), Fragment, t[k..]); }
    } else {
      FoldNothing(QueryEnd(q), x);
      assert u + [] == u;
    }
  }

  function TargetEnd(t: Target): State {
    if t.path == None then (if t.origin.Some? then OriginEnd(t.origin.value) else SpacesBeforeUrl)
      else FragmentEnd(t.query, t.fragment)
  }

  function PartsOf(t: Target): Parts {
    Parts(Some(TargetText(t)), t.path, ReportedPart(63, t.query), ReportedPart(35, t.fragment))
  }

  /** The parts of a target are told apart. */
  lemma FoldTarget(t: Target)
    requires IsTarget(t)
    ensures UrlFold(SpacesBeforeUrl, NO_PARTS, TargetText(t)) == Some((TargetEnd(t), PartsOf(t)))
  {
    hide UrlFold, OriginText, IsOrigin, IsPath, Reported;
    var r := if t.origin.Some? then OriginText(t.origin.value) else [];
    var s := if t.origin.Some? then OriginEnd(t.origin.value) else SpacesBeforeUrl;
    var u := if t.origin.Some? then Some(r) else None;
    if t.origin.Some? { FoldOrigin(t.origin.value); } else { FoldNothing(SpacesBeforeUrl, NO_PARTS); }
    if t.path == None {
      assert r + [] + [] + [] == r;
    } else {
      var a := t.path.value;
      FoldPath(s, u, a);
      assert Got(u) + a == r + a;
      FoldTwo(SpacesBeforeUrl, NO_PARTS, r, s, Parts(u, None, None, None), a, Path,
              Parts(Some(r + a), Some(a), None, None));
      FoldQuery(r + a, Some(a), t.query);
      var b := r + a + Part(63, t.query);
      FoldTwo(SpacesBeforeUrl, NO_PARTS, r + a, Path, Parts(Some(r + a), Some(a), None, None),
              Part(63, t.query), QueryEnd(t.query), Parts(Some(b), Some(a), ReportedPart(63, t.query), None));
      FoldFragment(b, Some(a), t.query, t.fragment);
      FoldTwo(SpacesBeforeUrl, NO_PARTS, b, QueryEnd(t.query), Parts(Some(b), Some(a), ReportedPart(63, t.query), None),
              Part(35, t.fragment), FragmentEnd(t.query, t.fragment), PartsOf(t));
    }
  }

  lemma FoldNothing(s: State, x: Parts)
    requires InUrl(s)
    ensures UrlFold(s, x, []) == Some((s, x))
  {
  }

  lemma {:induction false} FoldSpaces(n: nat)
    ensures UrlFold(SpacesBeforeUrl, NO_PARTS, Spaces(n)) == Some((SpacesBeforeUrl, NO_PARTS))
  {
    if n > 0 {
      FoldSpaces(n - 1);
      assert Spaces(n)[..n - 1] == Spaces(n - 1);
      assert UrlNext(SpacesBeforeUrl, 32) == Move(SpacesBeforeUrl, []);
    }
  }

  /** A target behind any number of spaces: all of it is the URL, and its parts are told apart. */
  lemma ReadsTarget(p: Parser, o: Observed, k: nat, t: Target)
    requires p.state == SpacesBeforeUrl && Fresh(o) && IsTarget(t) && Room(p, k + |TargetText(t)|)
    ensures Reads(p, o, Spaces(k) + TargetText(t), In(p, TargetEnd(t), k + |TargetText(t)|), SeenParts(o, PartsOf(t)))
    ensures InUrl(TargetEnd(t)) && Opened(TargetEnd(t), PartsOf(t))
  {
    hide Reads, UrlFold, TargetText, IsTarget, Fresh, PartsOf, TargetEnd;
    FoldSpaces(k);
    FoldTarget(t);
    FoldInside(SpacesBeforeUrl, NO_PARTS, TargetText(t));
    FoldTwo(SpacesBeforeUrl, NO_PARTS, Spaces(k), SpacesBeforeUrl, NO_PARTS, TargetText(t), TargetEnd(t), PartsOf(t));
    assert In(p, SpacesBeforeUrl, 0) == p && SeenParts(o, NO_PARTS) == o;
    ReadsUrlText(p, 0, o, NO_PARTS, SpacesBeforeUrl, Spaces(k) + TargetText(t));
  }

  lemma FoldInside(s: State, x: Parts, t: bytes)
    requires InUrl(s) && UrlFold(s, x, t).Some?
    ensures InUrl(UrlFold(s, x, t).value.0)
  {
  }

  /** How a request line is written: spaces beyond the one needed, and a bare line feed at its end. */
  datatype Style = Style(before: nat, after: nat, bare: bool)

  function Eol(bare: bool): bytes { if bare then [LF] else CRLF }

  // ----- the version -----

  const OLD: Version := Version(0, 9)

  /** Version 0.9 is that of a line without a version. */
  predicate IsVersion(v: Version) { v == OLD || (1 <= v.major <= 999 && v.minor <= 999) }

  const HTTP: bytes := [72, 84, 84, 80, 47]

  const DOT: bytes := [46]

  function VersionText(v: Version): bytes { HTTP + Digits(v.major) + DOT + Digits(v.minor) }

  /** The parser p in state s, n bytes on, with version v. */
  function With(p: Parser, s: State, n: nat, v: Version): Parser { p.(state := s, nread := p.nread + n, version := v) }

  lemma ReadsVersionByte(p: Parser, o: Observed, s: State, n: nat, v: Version, ch: byte, s': State, v': Version)
    requires VersionState(s) && Room(With(p, s, n, v), 1)
    requires VersionMove(s, v, ch) == Move(s', []) && VersionRead(s, v, ch) == v'
    ensures Reads(With(p, s, n, v), o, [ch], With(p, s', n + 1, v'), o)
  {
    hide Reads, VersionMove, VersionRead;
    VersionAgrees(s, v, ch);
    ReadsSilent(With(p, s, n, v), o, ch, With(p, s', n + 1, v'));
  }

  lemma ReadsHttp(p: Parser, o: Observed)
    requires p.state == HttpStart && Room(p, 5)
    ensures Reads(p, o, HTTP, With(p, FirstMajor, 5, p.version), o)
  {
    hide Reads, With;
    var v := p.version;
    WithItself(p);
    HttpMoves(v);
    forall s: State, n: nat | VersionState(s) && n < 5 ensures Room(With(p, s, n, v), 1) { WithRoom(p, s, n, v); }
    ReadsVersionByte(p, o, HttpStart, 0, v, 72, HttpH, v);
    ReadsVersionByte(p, o, HttpH, 1, v, 84, HttpHT, v);
    ReadsVersionByte(p, o, HttpHT, 2, v, 84, HttpHTT, v);
    ReadsVersionByte(p, o, HttpHTT, 3, v, 80, HttpHTTP, v);
    ReadsVersionByte(p, o, HttpHTTP, 4, v, 47, FirstMajor, v);
    Then(p, o, [72], With(p, HttpH, 1, v), o, [84], With(p, HttpHT, 2, v), o);
    Then(p, o, [72] + [84], With(p, HttpHT, 2, v), o, [84], With(p, HttpHTT, 3, v), o);
    Then(p, o, [72] + [84] + [84], With(p, HttpHTT, 3, v), o, [80], With(p, HttpHTTP, 4, v), o);
    Then(p, o, [72] + [84] + [84] + [80], With(p, HttpHTTP, 4, v), o, [47], With(p, FirstMajor, 5, v), o);
    assert [72] + [84] + [84] + [80] + [47] == HTTP;
  }

  lemma WithItself(p: Parser)
    ensures With(p, p.state, 0, p.version) == p
  {
  }

  lemma WithRoom(p: Parser, s: State, n: nat, v: Version)
    requires !p.flags.trailing && p.nread + n + 1 <= 81920 && VersionState(s)
    ensures Room(With(p, s, n, v), 1)
  {
  }

  lemma HttpMoves(v: Version)
    ensures VersionMove(HttpStart, v, 72) == Move(HttpH, []) && VersionRead(HttpStart, v, 72) == v
    ensures VersionMove(HttpH, v, 84) == Move(HttpHT, []) && VersionRead(HttpH, v, 84) == v
    ensures VersionMove(HttpHT, v, 84) == Move(HttpHTT, []) && VersionRead(HttpHT, v, 84) == v
    ensures VersionMove(HttpHTT, v, 80) == Move(HttpHTTP, []) && VersionRead(HttpHTT, v, 80) == v
    ensures VersionMove(HttpHTTP, v, 47) == Move(FirstMajor, []) && VersionRead(HttpHTTP, v, 47) == v
  {
  }

  /** The decimal digits of the major version are read back as the number. */
  lemma {:induction false} ReadsMajor(p: Parser, n: nat, o: Observed, v: Version, k: nat)
    requires 1 <= k <= 999 && !p.flags.trailing && p.nread + n + |Digits(k)| <= 81920
    ensures Reads(With(p, FirstMajor, n, v), o, Digits(k), With(p, Major, n + |Digits(k)|, v.(major := k)), o)
  {
    hide Reads, With;
    var d := 48 + k % 10;
    if k < 10 {
      WithRoom(p, FirstMajor, n, v);
      ReadsVersionByte(p, o, FirstMajor, n, v, d, Major, v.(major := k));
    } else {
      var n' := |Digits(k / 10)|;
      ReadsMajor(p, n, o, v, k / 10);
      WithRoom(p, Major, n + n', v.(major := k / 10));
      ReadsVersionByte(p, o, Major, n + n', v.(major := k / 10), d, Major, v.(major := k));
      Then(With(p, FirstMajor, n, v), o, Digits(k / 10), With(p, Major, n + n', v.(major := k / 10)), o,
           [d], With(p, Major, n + n' + 1, v.(major := k)), o);
    }
  }

  lemma {:induction false} ReadsMinor(p: Parser, n: nat, o: Observed, v: Version, k: nat)
    requires k <= 999 && !p.flags.trailing && p.nread + n + |Digits(k)| <= 81920
    ensures Reads(With(p, FirstMinor, n, v), o, Digits(k), With(p, Minor, n + |Digits(k)|, v.(minor := k)), o)
  {
    hide Reads, With;
    var d := 48 + k % 10;
    if k < 10 {
      WithRoom(p, FirstMinor, n, v);
      ReadsVersionByte(p, o, FirstMinor, n, v, d, Minor, v.(minor := k));
    } else {
      var n' := |Digits(k / 10)|;
      ReadsMinor(p, n, o, v, k / 10);
      WithRoom(p, Minor, n + n', v.(minor := k / 10));
      ReadsVersionByte(p, o, Minor, n + n', v.(minor := k / 10), d, Minor, v.(minor := k));
      Then(With(p, FirstMinor, n, v), o, Digits(k / 10), With(p, Minor, n + n', v.(minor := k / 10)), o,
           [d], With(p, Minor, n + n' + 1, v.(minor := k)), o);
    }
  }

  lemma ReadsDot(p: Parser, n: nat, o: Observed, v: Version)
    requires !p.flags.trailing && p.nread + n + 1 <= 81920
    ensures Reads(With(p, Major, n, v), o, DOT, With(p, FirstMinor, n + 1, v), o)
  {
    hide Reads, With;
    WithRoom(p, Major, n, v);
    ReadsVersionByte(p, o, Major, n, v, 46, FirstMinor, v);
  }

  lemma ReadsLineEnd(p: Parser, n: nat, o: Observed, v: Version, bare: bool)
    requires !p.flags.trailing && p.nread + n + |Eol(bare)| <= 81920
    ensures Reads(With(p, Minor, n, v), o, Eol(bare), With(p, HeaderFieldStart, n + |Eol(bare)|, v), o)
  {
    hide Reads, With;
    WithRoom(p, Minor, n, v);
    if bare {
      ReadsVersionByte(p, o, Minor, n, v, LF, HeaderFieldStart, v);
    } else {
      WithRoom(p, ReqLineAlmostDone, n + 1, v);
      ReadsVersionByte(p, o, Minor, n, v, CR, ReqLineAlmostDone, v);
      ReadsVersionByte(p, o, ReqLineAlmostDone, n + 1, v, LF, HeaderFieldStart, v);
      assert [CR] + [LF] == CRLF;
      Then(With(p, Minor, n, v), o, [CR], With(p, ReqLineAlmostDone, n + 1, v), o, [LF],
           With(p, HeaderFieldStart, n + 2, v), o);
    }
  }

  lemma {:induction false} ReadsSpaces(p: Parser, o: Observed, k: nat)
    requires p.state == HttpStart && Room(p, k)
    ensures Reads(p, o, Spaces(k), With(p, HttpStart, k, p.version), o)
  {
    hide Reads, With, VersionRead;
    if k == 0 {
      WithItself(p);
      ReadsNothing(p, o);
    } else {
      ReadsSpaces(p, o, k - 1);
      WithRoom(p, HttpStart, k - 1, p.version);
      ReadsVersionByte(p, o, HttpStart, k - 1, p.version, 32, HttpStart, p.version) by { SpaceReads(p.version); }
      assert Spaces(k - 1) + SPACE == Spaces(k);
      Then(p, o, Spaces(k - 1), With(p, HttpStart, k - 1, p.version), o, SPACE, With(p, HttpStart, k, p.version), o);
    }
  }

  lemma SpaceReads(v: Version)
    ensures VersionRead(HttpStart, v, 32) == v
  {
  }

  /** The version, whatever version was read before it. */
  lemma ReadsVersion(p: Parser, o: Observed, v: Version)
    requires p.state == HttpStart && IsVersion(v) && v != OLD && Room(p, |VersionText(v)|)
    ensures Reads(p, o, VersionText(v), With(p, Minor, |VersionText(v)|, v), o)
  {
    hide Reads, With, Digits, VersionMove, VersionRead;
    var v0, a, b := p.version, Digits(v.major), Digits(v.minor);
    var v1 := v0.(major := v.major);
    ReadsHttp(p, o);
    ReadsMajor(p, 5, o, v0, v.major);
    Then(p, o, HTTP, With(p, FirstMajor, 5, v0), o, a, With(p, Major, 5 + |a|, v1), o);
    ReadsDot(p, 5 + |a|, o, v1);
    Then(p, o, HTTP + a, With(p, Major, 5 + |a|, v1), o, DOT, With(p, FirstMinor, 6 + |a|, v1), o);
    ReadsMinor(p, 6 + |a|, o, v1, v.minor);
    assert v1.(minor := v.minor) == v;
    Then(p, o, HTTP + a + DOT, With(p, FirstMinor, 6 + |a|, v1), o, b, With(p, Minor, 6 + |a| + |b|, v), o);
  }

  // ----- the end of the line -----

  /** What follows the target. */
  function EndText(v: Version, y: Style): bytes {
    if v == OLD then Eol(y.bare) else SPACE + Spaces(y.after) + VersionText(v) + Eol(y.bare)
  }

  lemma SpaceEnds(s: State)
    requires s.Host? || s.Port? || PathState(s)
    ensures Goes(s, 32, HttpStart)
  {
  }

  lemma LineEnds(s: State)
    requires PathState(s)
    ensures Goes(s, CR, ReqLineAlmostDone) && Goes(s, LF, HeaderFieldStart)
  {
  }

  lemma NothingGrows(x: Parts, s: State, ch: byte)
    requires s.HttpStart? || s.ReqLineAlmostDone? || s.HeaderFieldStart?
    ensures GrowParts(x, s, ch) == x
  {
  }

  /** The line end right behind the target. */
  lemma ReadsOldEnd(p: Parser, o: Observed, x: Parts, bare: bool)
    requires PathState(p.state) && Fresh(o) && Opened(p.state, x) && Room(p, |Eol(bare)|)
    ensures Reads(p, SeenParts(o, x), Eol(bare), With(p, HeaderFieldStart, |Eol(bare)|, OLD), SeenParts(o, x))
  {
    hide Reads, UrlNext, Spans, Seen, Marked, Fresh, VersionMove, VersionRead, GrowParts;
    var s', ch := if bare then HeaderFieldStart else ReqLineAlmostDone, if bare then LF else CR;
    LineEnds(p.state);
    NothingGrows(x, s', ch);
    SpansParts(o, x, p.state, ch, s');
    ReadsUrlByte(p, SeenParts(o, x), ch, s', OLD);
    if !bare {
      WithRoom(p, ReqLineAlmostDone, 1, OLD);
      ReadsVersionByte(p, SeenParts(o, x), ReqLineAlmostDone, 1, OLD, LF, HeaderFieldStart, OLD) by { LfReads(OLD); }
      assert [CR] + [LF] == CRLF;
      Then(p, SeenParts(o, x), [CR], With(p, ReqLineAlmostDone, 1, OLD), SeenParts(o, x), [LF],
           With(p, HeaderFieldStart, 2, OLD), SeenParts(o, x));
    }
  }

  lemma LfReads(v: Version)
    ensures VersionMove(ReqLineAlmostDone, v, LF) == Move(HeaderFieldStart, [])
    ensures VersionRead(ReqLineAlmostDone, v, LF) == v
  {
  }

  lemma SpansParts(o: Observed, x: Parts, s: State, ch: byte, s': State)
    requires Fresh(o) && InUrl(s) && LineState(s') && Opened(s, x)
    ensures Spans(SeenParts(o, x), s, ch, s') == SeenParts(o, GrowParts(x, s', ch))
  {
    hide Spans, Seen, Marked, Fresh;
    SpansSeen(o, x.url, x.path, x.query, x.fragment, s, ch, s');
  }

  lemma ReadsNewEnd(p: Parser, o: Observed, x: Parts, v: Version, y: Style)
    requires (PathState(p.state) || p.state.Host? || p.state.Port?) && Fresh(o) && Opened(p.state, x)
    requires IsVersion(v) && v != OLD && Room(p, |EndText(v, y)|)
    ensures Reads(p, SeenParts(o, x), EndText(v, y), With(p, HeaderFieldStart, |EndText(v, y)|, v), SeenParts(o, x))
  {
    hide Reads, UrlNext, SeenParts, Fresh, VersionText, GrowParts, Opened, Spaces, IsVersion;
    var o', k, w, e := SeenParts(o, x), y.after, VersionText(v), Eol(y.bare);
    SpaceEnds(p.state);
    NothingGrows(x, HttpStart, 32);
    assert In(p, p.state, 0) == p;
    ReadsUrl(p, 0, o, x, p.state, 32, HttpStart);
    var p1 := In(p, HttpStart, 1);
    ReadsSpaces(p1, o', k);
    var p2 := With(p1, HttpStart, k, p.version);
    Then(p, o', SPACE, p1, o', Spaces(k), p2, o');
    ReadsVersion(p2, o', v);
    var p3 := With(p2, Minor, |w|, v);
    Then(p, o', SPACE + Spaces(k), p2, o', w, p3, o');
    ReadsLineEnd(p2, |w|, o', v, y.bare);
    Then(p, o', SPACE + Spaces(k) + w, p3, o', e, With(p, HeaderFieldStart, |EndText(v, y)|, v), o');
  }

  // ----- the line -----

  predicate IsLine(t: Target, v: Version) { IsTarget(t) && IsVersion(v) && (v == OLD ==> t.path.Some?) }

  function LineText(m: Method, t: Target, v: Version, y: Style): bytes {
    (Word(m) + SPACE) + (Spaces(y.before) + TargetText(t)) + EndText(v, y)
  }

  /** After the request line of a request that began at p. */
  function AfterLine(p: Parser, m: Method, t: Target, v: Version, y: Style): Parser {
    Parser(HeaderFieldStart, p.scan.(index := |Word(m)| + 1), Counted(p, |LineText(m, t, v, y)|), NO_FLAGS, -1, v, m)
  }

  function LineSeen(o: Observed, t: Target): Observed { SeenParts(OnControl(o, OnBegin), PartsOf(t)) }

  lemma EndStates(t: Target)
    requires IsTarget(t)
    ensures t.path.Some? ==> PathState(TargetEnd(t))
    ensures PathState(TargetEnd(t)) || TargetEnd(t).Host? || TargetEnd(t).Port?
  {
    hide IsOrigin, IsPath, Reported;
  }

  lemma ReadsEnd(p: Parser, o: Observed, t: Target, v: Version, y: Style)
    requires p.state == TargetEnd(t) && Fresh(o) && IsLine(t, v) && Opened(p.state, PartsOf(t))
    requires Room(p, |EndText(v, y)|)
    ensures Reads(p, SeenParts(o, PartsOf(t)), EndText(v, y), With(p, HeaderFieldStart, |EndText(v, y)|, v),
                  SeenParts(o, PartsOf(t)))
  {
    hide Reads, Fresh, SeenParts, PartsOf, TargetEnd, IsTarget, Opened, VersionText;
    EndStates(t);
    if v == OLD { ReadsOldEnd(p, o, PartsOf(t), y.bare); } else { ReadsNewEnd(p, o, PartsOf(t), v, y); }
  }

  lemma BeginFresh(o: Observed)
    ensures Fresh(OnControl(o, OnBegin))
  {
  }

  /** Every request line is read back: a message begins, with this method, target and version. */
  lemma ReadsLine(p: Parser, o: Observed, m: Method, t: Target, v: Version, y: Style)
    requires p.state == StartReq && IsLine(t, v) && p.nread + |LineText(m, t, v, y)| <= 81920
    ensures Reads(p, o, LineText(m, t, v, y), AfterLine(p, m, t, v, y), LineSeen(o, t))
  {
    hide Reads, Word, TargetText, EndText, SeenParts, IsTarget, Fresh, PartsOf, TargetEnd, Opened, OnControl, Spaces,
         InUrl, IsVersion;
    var o1, o2 := OnControl(o, OnBegin), LineSeen(o, t);
    var p1 := AfterMethod(p, m);
    var u := Spaces(y.before) + TargetText(t);
    ReadsVerb(p, o, m);
    BeginFresh(o);
    ReadsTarget(p1, o1, y.before, t);
    var p2 := In(p1, TargetEnd(t), |u|);
    Then(p, o, Word(m) + SPACE, p1, o1, u, p2, o2);
    EndRoom(p2);
    ReadsEnd(p2, o1, t, v, y);
    Then(p, o, (Word(m) + SPACE) + u, p2, o2, EndText(v, y), AfterLine(p, m, t, v, y), o2);
  }

  lemma EndRoom(p: Parser)
    requires InUrl(p.state)
    ensures !BodyState(p.state)
  {
  }
}
