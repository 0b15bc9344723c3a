/**
 http_parser_execute: spans are remembered by marks and handed to callbacks late, bodies are
 skipped in bulk.  It is proved to deliver what the byte-at-a-time machine delivers, so that
 the result does not depend on how the request stream is cut.
 */
module HttpParser {
  import opened Bytes
  import opened HttpMachine

  // ----- the observer -----

  datatype Item = BeginItem | HeadersItem | CompleteItem | Piece(kind: Kind, data: bytes)

  /** Adjacent fragments of one kind are one fragment. */
  function Push(items: seq<Item>, k: Kind, d: bytes): seq<Item> {
    if Ends(items, k) then items[|items| - 1 := Piece(k, items[|items| - 1].data + d)]
    else items + [Piece(k, d)]
  }

  predicate Ends(items: seq<Item>, k: Kind) {
    |items| > 0 && items[|items| - 1].Piece? && items[|items| - 1].kind == k
  }

  lemma PushTwice(items: seq<Item>, k: Kind, a: bytes, b: bytes)
    ensures Push(Push(items, k, a), k, b) == Push(items, k, a + b)
  {
    if Ends(items, k) {
      var d := items[|items| - 1].data;
      assert d + a + b == d + (a + b);
    }
  }

  lemma PushNothing(items: seq<Item>, k: Kind)
    requires Ends(items, k)
    ensures Push(items, k, []) == items
  {
    var last := items[|items| - 1];
    assert last.data + [] == last.data;
  }

  /**
   What the callbacks have been given: headers, body and completions in order, and the URL and
   its parts each on their own, since their fragments interleave differently with different cuts.
   */
  datatype Observed = Observed(main: seq<Item>, url: seq<Item>, path: seq<Item>, query: seq<Item>, fragment: seq<Item>)

  function OnData(o: Observed, k: Kind, d: bytes): Observed {
    match k
    case KUrl => o.(url := Push(o.url, k, d))
    case KPath => o.(path := Push(o.path, k, d))
    case KQuery => o.(query := Push(o.query, k, d))
    case KFragment => o.(fragment := Push(o.fragment, k, d))
    case _ => o.(main := Push(o.main, k, d))
  }

  function OnControl(o: Observed, a: Action): Observed {
    match a
    case OnBegin => Observed(o.main + [BeginItem], o.url + [BeginItem], o.path + [BeginItem],
                             o.query + [BeginItem], o.fragment + [BeginItem])
    case OnHeadersComplete => o.(main := o.main + [HeadersItem])
    case OnComplete => o.(main := o.main + [CompleteItem])
    case _ => o
  }

  function Controls(o: Observed, acts: seq<Action>): Observed
    decreases |acts|
  {
    if acts == [] then o else Controls(OnControl(o, acts[0]), acts[1..])
  }

  // ----- the byte-at-a-time machine -----

  /** The states in which a span of kind k is open. */
  predicate Marked(s: State, k: Kind) {
    match k
    case KField => s == HeaderField
    case KValue => s == HeaderValue
    case KPath => s == Path
    case KQuery => s == Query
    case KFragment => s == Fragment
    case KUrl => (AuthorityState(s) && !s.SpacesBeforeUrl?) || PathState(s)
    case KBody => false
  }

  /** A header value that is empty is still reported. */
  predicate EmptyValue(s: State, ch: byte, k: Kind) {
    k == KValue && s == HeaderValueStart && (ch == CR || ch == LF)
  }

  /** A byte belongs to the spans that are open after it. */
  function Span(items: seq<Item>, k: Kind, s: State, ch: byte, s': State): seq<Item> {
    if Marked(s', k) then Push(items, k, [ch])
    else if Marked(s, k) || EmptyValue(s, ch, k) then Push(items, k, [])
    else items
  }

  function Spans(o: Observed, s: State, ch: byte, s': State): Observed {
    Observed(Span(Span(o.main, KField, s, ch, s'), KValue, s, ch, s'),
             Span(o.url, KUrl, s, ch, s'),
             Span(o.path, KPath, s, ch, s'),
             Span(o.query, KQuery, s, ch, s'),
             Span(o.fragment, KFragment, s, ch, s'))
  }

  datatype Outcome = Ok(st: Parser, seen: Observed) | Failed(at: nat) | Left(at: nat)

  /** The state after n body bytes. */
  function BulkNext(p: Parser, n: nat): State {
    if p.length != n then p.state
    else if p.state == BodyIdentity then NewState(p)
    else ChunkDataAlmostDone
  }

  /** What is seen of body bytes d: the data, and the end of a message of known length. */
  function BulkSeen(p: Parser, o: Observed, d: bytes): Observed {
    var o' := OnData(o, KBody, d);
    if p.state == BodyIdentity && p.length == |d| then OnControl(o', OnComplete) else o'
  }

  datatype ByteOutcome = Next(st: Parser, seen: Observed) | Error | Upgrade

  function ByteStep(p: Parser, o: Observed, ch: byte): ByteOutcome {
    match Count(p)
    case None => Error
    case Some(q) =>
      if BulkState(q.state) then
        Next(q.(length := q.length - 1, state := BulkNext(q, 1)), BulkSeen(q, o, [ch]))
      else match Switch(q, ch)
        case Stop => Error
        case Exit => Upgrade
        case Go(q', acts) => Next(q', Spans(Controls(o, acts), q.state, ch, q'.state))
  }

  /** The reference: one byte after the other. */
  function Run(p: Parser, o: Observed, data: bytes): Outcome {
    if data == [] then Ok(p, o)
    else
      var n := |data| - 1;
      match Run(p, o, data[..n])
      case Ok(p', o') =>
        (match ByteStep(p', o', data[n])
         case Next(p'', o'') => Ok(p'', o'')
         case Error => Failed(n)
         case Upgrade => Left(n))
      case Failed(k) => Failed(k)
      case Left(k) => Left(k)
  }

  /** Cutting the stream changes nothing. */
  lemma {:induction false} RunCut(p: Parser, o: Observed, a: bytes, b: bytes)
    requires Run(p, o, a).Ok?
    ensures match Run(Run(p, o, a).st, Run(p, o, a).seen, b)
            case Ok(p', o') => Run(p, o, a + b) == Ok(p', o')
            case Failed(n) => Run(p, o, a + b) == Failed(|a| + n)
            case Left(n) => Run(p, o, a + b) == Left(|a| + n)
  {
    hide ByteStep;
    if b == [] {
      assert a + b == a;
    } else {
      var n := |b| - 1;
      RunCut(p, o, a, b[..n]);
      assert (a + b)[..|a| + n] == a + b[..n];
    }
  }

  // ----- what the machine keeps -----

  predicate Open(p: Parser, o: Observed) {
    && (Marked(p.state, KField) ==> Ends(o.main, KField))
    && (Marked(p.state, KValue) ==> Ends(o.main, KValue))
    && (Marked(p.state, KUrl) ==> Ends(o.url, KUrl))
    && (Marked(p.state, KPath) ==> Ends(o.path, KPath))
    && (Marked(p.state, KQuery) ==> Ends(o.query, KQuery))
    && (Marked(p.state, KFragment) ==> Ends(o.fragment, KFragment))
  }

  /** How far the match index can have advanced in a header state. */
  function Cap(h: HState): nat {
    match h
    case HC => 0
    case HCO => 1
    case HCON => 2
    case HMatchConnection => 17
    case HMatchProxyConnection => 17
    case HMatchContentLength => 17
    case HMatchTransferEncoding => 17
    case HMatchUpgrade => 17
    case HMatchChunked => 17
    case HMatchKeepAlive => 17
    case HMatchClose => 17
    case _ => 18
  }

  predicate ScanSound(x: Scan) { x.index <= Cap(x.hstate) }

  /** The match index never outgrows the unsigned char it is saved in, and bodies have bytes left. */
  predicate Sound(p: Parser) {
    && p.scan.index <= 18
    && (p.state.HeaderField? || p.state.HeaderValue? ==> ScanSound(p.scan))
    && (p.state.BodyIdentity? || p.state.ChunkData? ==> p.length > 0)
    && (p.state.ChunkSize? || p.state.ChunkSizeAlmostDone? || p.state.ChunkParameters? ==> p.length >= 0)
  }

  lemma MethodShort(m: Method)
    ensures |MethodString(m)| <= 11
  {
  }

  lemma MethodSound(p: Parser, ch: byte)
    requires Sound(p) && p.state == ReqMethod && MethodStep(p, ch).Go?
    ensures Sound(MethodStep(p, ch).st)
  {
    hide MethodString, CharAt, Revise, Is, Cap;
    MethodShort(p.verb);
  }

  lemma MatchSound(x: Scan, text: string, c: byte, found: HState)
    requires ScanSound(x) && Cap(x.hstate) == 17 && 2 <= |text| <= 17 && Cap(found) == 18
    ensures ScanSound(Match(x, text, c, found))
  {
  }

  lemma NameSound(x: Scan, ch: byte, c: byte)
    requires ScanSound(x)
    ensures ScanSound(NameGoes(x, ch, c))
  {
    hide Match, Is;
    match x.hstate
    case HMatchConnection => MatchSound(x, "connection", c, HConnection);
    case HMatchProxyConnection => MatchSound(x, "proxy-connection", c, HConnection);
    case HMatchContentLength => MatchSound(x, "content-length", c, HContentLength);
    case HMatchTransferEncoding => MatchSound(x, "transfer-encoding", c, HTransferEncoding);
    case HMatchUpgrade => MatchSound(x, "upgrade", c, HUpgrade);
    case _ =>
  }

  lemma ValueSound(x: Scan, ch: byte, c: byte)
    requires ScanSound(x)
    ensures ScanSound(ValueGoes(x, ch, c))
  {
    hide Match, Is;
    match x.hstate
    case HMatchChunked => MatchSound(x, "chunked", c, HChunked);
    case HMatchKeepAlive => MatchSound(x, "keep-alive", c, HKeepAlive);
    case HMatchClose => MatchSound(x, "close", c, HClose);
    case _ =>
  }

  lemma HeaderSound(p: Parser, ch: byte)
    requires p.state.HeaderFieldStart? || p.state.HeaderField? || p.state.HeaderValueStart? || p.state.HeaderValue?
             || p.state.HeaderAlmostDone? || p.state.HeadersAlmostDone?
    requires Sound(p) && Switch(p, ch).Go?
    ensures Sound(Switch(p, ch).st)
  {
    hide NameGoes, ValueGoes, Token, Lower, Is, IsDigit, ShouldKeepAlive, HeaderFlags;
    if p.state.HeaderField? { NameSound(p.scan, ch, Token(ch)); }
    if p.state.HeaderValue? { ValueSound(p.scan, ch, Lower(ch)); }
  }

  /** The request line leads only to itself and to the headers. */
  lemma LineTargets(p: Parser, ch: byte)
    requires AuthorityState(p.state) || PathState(p.state) || VersionState(p.state)
    requires LineStep(p, ch).Go?
    ensures var s := LineStep(p, ch).st.state;
            AuthorityState(s) || PathState(s) || VersionState(s) || s.HeaderFieldStart?
  {
    hide Letter, IsDigit, NormalUrlChar, Is, VersionRead;
  }

  lemma LineSound(p: Parser, ch: byte)
    requires Sound(p) && (AuthorityState(p.state) || PathState(p.state) || VersionState(p.state))
    requires LineStep(p, ch).Go?
    ensures Sound(LineStep(p, ch).st)
  {
    hide AuthorityMove, UrlMove, VersionMove, VersionRead, ScanSound;
    LineTargets(p, ch);
  }

  lemma ChunkSound(p: Parser, ch: byte)
    requires Sound(p) && BodyState(p.state) && !BulkState(p.state) && ChunkStep(p, ch).Go?
    ensures Sound(ChunkStep(p, ch).st)
  {
    hide Is, ScanSound;
  }

  lemma SwitchSound(p: Parser, ch: byte)
    requires Sound(p) && !BulkState(p.state) && Switch(p, ch).Go?
    ensures Sound(Switch(p, ch).st)
  {
    hide MethodStep, LineStep, FieldStartStep, FieldStep, ValueStartStep, ValueStep, HeadersDoneStep, ChunkStep,
         InitialMethod;
    if p.state.StartReq? { }
    else if p.state.ReqMethod? { MethodSound(p, ch); }
    else if AuthorityState(p.state) || PathState(p.state) || VersionState(p.state) { LineSound(p, ch); }
    else if BodyState(p.state) { ChunkSound(p, ch); }
    else { HeaderSound(p, ch); }
  }

  // ----- marks and callbacks -----

  /** The mark of each open span: its start in the current buffer. */
  type Marks = map<Kind, nat>

  /** MARK, CALLBACK and CALLBACK2 at position p of the buffer. */
  function Act(o: Observed, marks: Marks, data: bytes, p: nat, a: Action): (Observed, Marks)
    requires p <= |data| && forall k :: k in marks ==> marks[k] <= p
  {
    match a
    case Mark(k) => (o, marks[k := p])
    case Callback(k) => if k in marks then (OnData(o, k, data[marks[k]..p]), marks - {k}) else (o, marks)
    case _ => (OnControl(o, a), marks)
  }

  function Acts(o: Observed, marks: Marks, data: bytes, p: nat, acts: seq<Action>): (r: (Observed, Marks))
    requires p <= |data| && forall k :: k in marks ==> marks[k] <= p
    ensures forall k :: k in r.1 ==> r.1[k] <= p
    decreases |acts|
  {
    if acts == [] then (o, marks)
    else
      var (o', marks') := Act(o, marks, data, p, acts[0]);
      Acts(o', marks', data, p, acts[1..])
  }

  predicate About(a: Action, k: Kind) { (a.Mark? || a.Callback?) && a.kind == k }

  predicate Control(a: Action) { a.OnBegin? || a.OnHeadersComplete? || a.OnComplete? }

  /** The actions on one kind of span. */
  function Only(acts: seq<Action>, k: Kind): seq<Action> {
    if acts == [] then [] else (if About(acts[0], k) then [acts[0]] else []) + Only(acts[1..], k)
  }

  function MarkOf(marks: Marks, k: Kind): Option<nat> { if k in marks then Some(marks[k]) else None }

  /** The same actions seen by the list of one kind alone. */
  function Track(items: seq<Item>, mark: Option<nat>, k: Kind, data: bytes, p: nat, acts: seq<Action>)
    : (seq<Item>, Option<nat>)
    requires p <= |data| && (mark.Some? ==> mark.value <= p)
    decreases |acts|
  {
    if acts == [] then (items, mark)
    else if acts[0].Mark? then Track(items, Some(p), k, data, p, acts[1..])
    else if mark.Some? then Track(Push(items, k, data[mark.value..p]), None, k, data, p, acts[1..])
    else Track(items, mark, k, data, p, acts[1..])
  }

  function ListOf(o: Observed, k: Kind): seq<Item> {
    match k
    case KUrl => o.url
    case KPath => o.path
    case KQuery => o.query
    case KFragment => o.fragment
    case _ => o.main
  }

  /** Kinds that share a list. */
  predicate Shares(k: Kind, j: Kind) { k != j && (k.KField? || k.KValue?) && (j.KField? || j.KValue?) }

  predicate Spanned(k: Kind) { !k.KBody? }

  lemma {:induction false} ActsTrack(o: Observed, marks: Marks, data: bytes, p: nat, acts: seq<Action>, k: Kind)
    requires p <= |data| && (forall j :: j in marks ==> marks[j] <= p) && Spanned(k)
    requires forall i :: 0 <= i < |acts| ==>
               (acts[i].Mark? || acts[i].Callback?) && Spanned(acts[i].kind) && !Shares(acts[i].kind, k)
    ensures var (o', marks') := Acts(o, marks, data, p, acts);
            Track(ListOf(o, k), MarkOf(marks, k), k, data, p, Only(acts, k)) == (ListOf(o', k), MarkOf(marks', k))
    decreases |acts|
  {
    if acts != [] {
      var (o1, marks1) := Act(o, marks, data, p, acts[0]);
      ActsTrack(o1, marks1, data, p, acts[1..], k);
      if About(acts[0], k) {
        assert Only(acts, k)[1..] == Only(acts[1..], k);
      } else {
        assert Only(acts, k) == Only(acts[1..], k);
      }
    }
  }

  /** The actions a step takes on kind k, judged by the states around it. */
  function Expected(k: Kind, s: State, ch: byte, s': State): seq<Action> {
    if Marked(s, k) && Marked(s', k) then []
    else if Marked(s, k) then [Callback(k)]
    else if Marked(s', k) then [Mark(k)]
    else if EmptyValue(s, ch, k) then [Mark(k), Callback(k)]
    else []
  }

  function Pend(items: seq<Item>, k: Kind, mark: Option<nat>, data: bytes, p: nat): seq<Item>
    requires p <= |data| && (mark.Some? ==> mark.value <= p)
  {
    if mark.Some? then Push(items, k, data[mark.value..p]) else items
  }

  lemma TrackOn(items: seq<Item>, mark: Option<nat>, k: Kind, data: bytes, p: nat, s: State, s': State)
    requires p < |data| && mark.Some? && mark.value <= p && Marked(s, k) && Marked(s', k)
    ensures var (items', mark') := Track(items, mark, k, data, p, Expected(k, s, data[p], s'));
            mark' == mark
            && Pend(items', k, mark, data, p + 1) == Span(Pend(items, k, mark, data, p), k, s, data[p], s')
  {
    hide Marked, EmptyValue, Push;
    assert data[mark.value..p + 1] == data[mark.value..p] + [data[p]];
    PushTwice(items, k, data[mark.value..p], [data[p]]);
  }

  lemma TrackOff(items: seq<Item>, mark: Option<nat>, k: Kind, data: bytes, p: nat, s: State, s': State)
    requires p < |data| && mark.Some? && mark.value <= p && Marked(s, k) && !Marked(s', k)
    ensures var (items', mark') := Track(items, mark, k, data, p, Expected(k, s, data[p], s'));
            mark' == None
            && Pend(items', k, None, data, p + 1) == Span(Pend(items, k, mark, data, p), k, s, data[p], s')
  {
    hide Marked, EmptyValue, Push;
    PushTwice(items, k, data[mark.value..p], []);
    assert data[mark.value..p] + [] == data[mark.value..p];
    assert [Callback(k)][1..] == [];
  }

  lemma TrackStart(items: seq<Item>, k: Kind, data: bytes, p: nat, s: State, s': State)
    requires p < |data| && !Marked(s, k) && Marked(s', k)
    ensures var (items', mark') := Track(items, None, k, data, p, Expected(k, s, data[p], s'));
            mark' == Some(p)
            && Pend(items', k, Some(p), data, p + 1) == Span(Pend(items, k, None, data, p), k, s, data[p], s')
  {
    hide Marked, EmptyValue, Push;
    assert [Mark(k)][1..] == [];
    assert data[p..p + 1] == [data[p]];
  }

  lemma TrackOutside(items: seq<Item>, k: Kind, data: bytes, p: nat, s: State, s': State)
    requires p < |data| && !Marked(s, k) && !Marked(s', k)
    ensures var (items', mark') := Track(items, None, k, data, p, Expected(k, s, data[p], s'));
            mark' == None && items' == Span(items, k, s, data[p], s')
  {
    hide Push, AuthorityState, PathState;
    var acts := Expected(k, s, data[p], s');
    if EmptyValue(s, data[p], k) {
      assert acts == [Mark(k), Callback(k)];
      TrackEmpty(items, k, data, p);
    } else {
      assert acts == [];
      TrackNothing(items, k, data, p);
    }
  }

  lemma PendNone(items: seq<Item>, k: Kind, data: bytes, p: nat)
    requires p <= |data|
    ensures Pend(items, k, None, data, p) == items
  {
  }

  lemma TrackNothing(items: seq<Item>, k: Kind, data: bytes, p: nat)
    requires p <= |data|
    ensures Track(items, None, k, data, p, []) == (items, None)
  {
  }

  lemma TrackEmpty(items: seq<Item>, k: Kind, data: bytes, p: nat)
    requires p <= |data|
    ensures Track(items, None, k, data, p, [Mark(k), Callback(k)]) == (Push(items, k, []), None)
  {
    hide Push;
    var acts, last := [Mark(k), Callback(k)], [Callback(k)];
    assert acts[1..] == last && last[1..] == [] && data[p..p] == [];
    assert Track(items, Some(p), k, data, p, last) == (Push(items, k, []), None);
  }

  /** One list through one byte: marking late and flushing delivers what naming each byte delivers. */
  lemma TrackStep(items: seq<Item>, mark: Option<nat>, k: Kind, data: bytes, p: nat, s: State, s': State)
    requires p < |data| && (mark.Some? ==> mark.value <= p) && mark.Some? == Marked(s, k)
    ensures var (items', mark') := Track(items, mark, k, data, p, Expected(k, s, data[p], s'));
            mark'.Some? == Marked(s', k) && (mark'.Some? ==> mark'.value <= p)
            && Pend(items', k, mark', data, p + 1) == Span(Pend(items, k, mark, data, p), k, s, data[p], s')
  {
    hide Marked, EmptyValue, Expected, Track, Pend, Span;
    if Marked(s, k) && Marked(s', k) {
      TrackOn(items, mark, k, data, p, s, s');
    } else if Marked(s, k) {
      TrackOff(items, mark, k, data, p, s, s');
    } else if Marked(s', k) {
      TrackStart(items, k, data, p, s, s');
    } else {
      TrackOutside(items, k, data, p, s, s');
      PendNone(items, k, data, p);
      PendNone(Track(items, None, k, data, p, Expected(k, s, data[p], s')).0, k, data, p + 1);
    }
  }

  predicate Unmarked(s: State) {
    !s.HeaderField? && !s.HeaderValue? && !Marked(s, KUrl)
  }

  predicate SpanActs(acts: seq<Action>) {
    forall i :: 0 <= i < |acts| ==> (acts[i].Mark? || acts[i].Callback?) && Spanned(acts[i].kind)
  }

  /** The actions of a step are those its two states call for. */
  predicate Agrees(acts: seq<Action>, s: State, ch: byte, s': State) {
    && SpanActs(acts)
    && (forall k: Kind :: Only(acts, k) == Expected(k, s, ch, s'))
    && (forall i, j :: 0 <= i < j < |acts| ==> !Shares(acts[i].kind, acts[j].kind))
  }

  /** Control callbacks come between spans. */
  predicate Controlled(acts: seq<Action>, s: State, ch: byte, s': State) {
    && (forall i :: 0 <= i < |acts| ==> Control(acts[i]))
    && Unmarked(s) && Unmarked(s') && !EmptyValue(s, ch, KValue)
  }

  lemma OnlyNone(k: Kind)
    ensures Only([], k) == []
  {
  }

  lemma OnlyOne(a: Action, k: Kind)
    ensures Only([a], k) == if About(a, k) then [a] else []
  {
    assert [a][1..] == [];
  }

  lemma OnlyTwo(a: Action, b: Action, k: Kind)
    ensures Only([a, b], k) == (if About(a, k) then [a] else []) + (if About(b, k) then [b] else [])
  {
    assert [a, b][1..] == [b];
    OnlyOne(b, k);
  }

  /** Kind k is open after a step exactly if it was open before. */
  predicate Kept(k: Kind, s: State, ch: byte, s': State) {
    Marked(s, k) == Marked(s', k) && !EmptyValue(s, ch, k)
  }

  /** Action a is the whole change to its kind. */
  predicate Changes(a: Action, s: State, ch: byte, s': State) {
    && (a.Mark? || a.Callback?)
    && Marked(s, a.kind) == a.Callback? && Marked(s', a.kind) == a.Mark?
  }

  lemma AgreesNone(s: State, ch: byte, s': State)
    requires forall k: Kind :: Kept(k, s, ch, s')
    ensures Agrees([], s, ch, s')
  {
    hide Marked, EmptyValue, Only;
    forall k: Kind ensures Only([], k) == Expected(k, s, ch, s') {
      OnlyNone(k);
      assert Kept(k, s, ch, s');
    }
  }

  lemma ExpectedOf(a: Action, s: State, ch: byte, s': State)
    requires Changes(a, s, ch, s')
    ensures Expected(a.kind, s, ch, s') == [a]
  {
    hide Marked;
  }

  lemma OneAt(a: Action, s: State, ch: byte, s': State, k: Kind)
    requires Changes(a, s, ch, s') && (k != a.kind ==> Kept(k, s, ch, s'))
    ensures Only([a], k) == Expected(k, s, ch, s')
  {
    hide Marked, EmptyValue, Only;
    OnlyOne(a, k);
    if k == a.kind { ExpectedOf(a, s, ch, s'); }
  }

  lemma AgreesOne(a: Action, s: State, ch: byte, s': State)
    requires Changes(a, s, ch, s') && Spanned(a.kind)
    requires forall k: Kind :: k != a.kind ==> Kept(k, s, ch, s')
    ensures Agrees([a], s, ch, s')
  {
    hide Expected, Only, Kept, Changes;
    ChangesSpan(a, s, ch, s');
    forall k: Kind ensures Only([a], k) == Expected(k, s, ch, s') { OneAt(a, s, ch, s', k); }
  }

  lemma ChangesSpan(a: Action, s: State, ch: byte, s': State)
    requires Changes(a, s, ch, s')
    ensures a.Mark? || a.Callback?
  {
  }

  lemma TwoAt(a: Action, b: Action, s: State, ch: byte, s': State, k: Kind)
    requires Changes(a, s, ch, s') && Changes(b, s, ch, s') && a.kind != b.kind
    requires k != a.kind && k != b.kind ==> Kept(k, s, ch, s')
    ensures Only([a, b], k) == Expected(k, s, ch, s')
  {
    hide Marked, EmptyValue, Only;
    OnlyTwo(a, b, k);
    if k == a.kind { ExpectedOf(a, s, ch, s'); }
    if k == b.kind { ExpectedOf(b, s, ch, s'); }
  }

  lemma AgreesTwo(a: Action, b: Action, s: State, ch: byte, s': State)
    requires Changes(a, s, ch, s') && Changes(b, s, ch, s') && a.kind != b.kind
    requires Spanned(a.kind) && Spanned(b.kind) && !Shares(a.kind, b.kind)
    requires forall k: Kind :: k != a.kind && k != b.kind ==> Kept(k, s, ch, s')
    ensures Agrees([a, b], s, ch, s')
  {
    hide Expected, Only, Kept, Changes;
    ChangesSpan(a, s, ch, s');
    ChangesSpan(b, s, ch, s');
    forall k: Kind ensures Only([a, b], k) == Expected(k, s, ch, s') { TwoAt(a, b, s, ch, s', k); }
  }

  lemma AgreesEmptyValue(s: State, ch: byte, s': State)
    requires s.HeaderValueStart? && (ch == CR || ch == LF) && Unmarked(s')
    ensures Agrees([Mark(KValue), Callback(KValue)], s, ch, s')
  {
    hide Only, Expected;
    forall k: Kind ensures Only([Mark(KValue), Callback(KValue)], k) == Expected(k, s, ch, s') {
      EmptyValueAt(s, ch, s', k);
    }
  }

  lemma EmptyValueAt(s: State, ch: byte, s': State, k: Kind)
    requires s.HeaderValueStart? && (ch == CR || ch == LF) && Unmarked(s')
    ensures Only([Mark(KValue), Callback(KValue)], k) == Expected(k, s, ch, s')
  {
    hide Only;
    OnlyTwo(Mark(KValue), Callback(KValue), k);
  }

  lemma AuthorityAgrees(s: State, ch: byte)
    requires AuthorityState(s) && AuthorityMove(s, ch).Move?
    ensures Agrees(AuthorityMove(s, ch).acts, s, ch, AuthorityMove(s, ch).to)
  {
    hide Agrees, Letter, IsDigit, Is;
    var Move(s', acts) := AuthorityMove(s, ch);
    if |acts| == 0 { AgreesNone(s, ch, s'); }
    else if |acts| == 1 { assert acts == [acts[0]]; AgreesOne(acts[0], s, ch, s'); }
    else { assert acts == [acts[0], acts[1]]; AgreesTwo(acts[0], acts[1], s, ch, s'); }
  }

  lemma UrlAgrees(s: State, ch: byte)
    requires PathState(s) && UrlMove(s, ch).Move?
    ensures Agrees(UrlMove(s, ch).acts, s, ch, UrlMove(s, ch).to)
  {
    hide Agrees, NormalUrlChar, Is;
    var Move(s', acts) := UrlMove(s, ch);
    if |acts| == 0 { AgreesNone(s, ch, s'); }
    else if |acts| == 1 { assert acts == [acts[0]]; AgreesOne(acts[0], s, ch, s'); }
    else { assert acts == [acts[0], acts[1]]; AgreesTwo(acts[0], acts[1], s, ch, s'); }
  }

  lemma VersionAgrees(s: State, v: Version, ch: byte)
    requires VersionState(s) && VersionMove(s, v, ch).Move?
    ensures Controlled(VersionMove(s, v, ch).acts, s, ch, VersionMove(s, v, ch).to)
  {
    hide IsDigit, Is;
  }

  lemma HeaderAgrees(p: Parser, ch: byte)
    requires p.state.HeaderField? || p.state.HeaderValueStart? || p.state.HeaderValue?
    requires Switch(p, ch).Go?
    ensures Agrees(Switch(p, ch).acts, p.state, ch, Switch(p, ch).st.state)
  {
    hide Agrees, NameGoes, ValueGoes, Token, Lower, IsDigit, HeaderFlags, ValueBegins;
    var s, acts, s' := p.state, Switch(p, ch).acts, Switch(p, ch).st.state;
    if |acts| == 0 { AgreesNone(s, ch, s'); }
    else if |acts| == 1 { assert acts == [acts[0]]; AgreesOne(acts[0], s, ch, s'); }
    else { assert acts == [Mark(KValue), Callback(KValue)]; AgreesEmptyValue(s, ch, s'); }
  }

  lemma FieldStartAgrees(p: Parser, ch: byte)
    requires p.state.HeaderFieldStart? && Switch(p, ch).Go?
    ensures Agrees(Switch(p, ch).acts, p.state, ch, Switch(p, ch).st.state)
         || Controlled(Switch(p, ch).acts, p.state, ch, Switch(p, ch).st.state)
  {
    hide Agrees, Token, ShouldKeepAlive, NameBegins;
    if Switch(p, ch).st.state.HeaderField? { AgreesOne(Mark(KField), p.state, ch, HeaderField); }
  }

  lemma RestControlled(p: Parser, ch: byte)
    requires p.state.StartReq? || p.state.ReqMethod? || p.state.HeaderAlmostDone? || p.state.HeadersAlmostDone?
             || (BodyState(p.state) && !BulkState(p.state))
    requires Switch(p, ch).Go?
    ensures Controlled(Switch(p, ch).acts, p.state, ch, Switch(p, ch).st.state)
  {
    hide Is, InitialMethod, Revise, MethodString, CharAt, ShouldKeepAlive, HeaderFlags, ChunkLength;
  }

  /** Every branch of the switch marks and calls back as its states call for. */
  lemma SwitchAgrees(p: Parser, ch: byte)
    requires !BulkState(p.state) && Switch(p, ch).Go?
    ensures var r := Switch(p, ch);
            Agrees(r.acts, p.state, ch, r.st.state) || Controlled(r.acts, p.state, ch, r.st.state)
  {
    hide MethodStep, FieldStartStep, FieldStep, ValueStartStep, ValueStep, HeadersDoneStep, ChunkStep, StartReqStep,
         AuthorityMove, UrlMove, VersionMove, VersionRead, Agrees, Controlled;
    if AuthorityState(p.state) { AuthorityAgrees(p.state, ch); }
    else if PathState(p.state) { UrlAgrees(p.state, ch); }
    else if VersionState(p.state) { VersionAgrees(p.state, p.version, ch); }
    else if p.state.HeaderFieldStart? { FieldStartAgrees(p, ch); }
    else if p.state.HeaderField? || p.state.HeaderValueStart? || p.state.HeaderValue? { HeaderAgrees(p, ch); }
    else { RestControlled(p, ch); }
  }

  // ----- the loop against the byte machine -----

  /** The marks set are those of the spans that are open. */
  predicate MarksFor(marks: Marks, s: State, p: nat) {
    forall k: Kind :: (k in marks <==> Marked(s, k)) && (k in marks ==> marks[k] <= p)
  }

  /** What the observer would hold if every open span were flushed now. */
  function Pending(o: Observed, marks: Marks, data: bytes, p: nat): Observed
    requires p <= |data| && forall k :: k in marks ==> marks[k] <= p
  {
    Observed(Pend(o.main, if KField in marks then KField else KValue,
                  if KField in marks then Some(marks[KField]) else MarkOf(marks, KValue), data, p),
             Pend(o.url, KUrl, MarkOf(marks, KUrl), data, p),
             Pend(o.path, KPath, MarkOf(marks, KPath), data, p),
             Pend(o.query, KQuery, MarkOf(marks, KQuery), data, p),
             Pend(o.fragment, KFragment, MarkOf(marks, KFragment), data, p))
  }

  lemma {:induction false} OnlyMembers(acts: seq<Action>, k: Kind, i: nat)
    requires SpanActs(acts) && i < |acts| && acts[i].kind == k
    ensures |Only(acts, k)| > 0
  {
    if i > 0 { OnlyMembers(acts[1..], k, i - 1); }
  }

  /** No action concerns the other kind on the list of k. */
  predicate Private(acts: seq<Action>, k: Kind) {
    forall i :: 0 <= i < |acts| && (acts[i].Mark? || acts[i].Callback?) ==> !Shares(acts[i].kind, k)
  }

  /** One list, one byte. */
  lemma ListStep(o: Observed, marks: Marks, data: bytes, p: nat, acts: seq<Action>, s: State, s': State, k: Kind)
    requires p < |data| && MarksFor(marks, s, p) && Agrees(acts, s, data[p], s') && Spanned(k)
    requires Private(acts, k)
    ensures var (o', marks') := Acts(o, marks, data, p, acts);
            && (k in marks' <==> Marked(s', k))
            && Pend(ListOf(o', k), k, MarkOf(marks', k), data, p + 1)
               == Span(Pend(ListOf(o, k), k, MarkOf(marks, k), data, p), k, s, data[p], s')
  {
    hide Acts, Track, Pend, Span, Only, Expected, Marked, ListOf;
    ActsTrack(o, marks, data, p, acts, k);
    assert Only(acts, k) == Expected(k, s, data[p], s');
    TrackStep(ListOf(o, k), MarkOf(marks, k), k, data, p, s, s');
  }

  lemma {:induction false} ActsFrame(o: Observed, marks: Marks, data: bytes, p: nat, acts: seq<Action>, k: Kind)
    requires p <= |data| && forall j :: j in marks ==> marks[j] <= p
    requires SpanActs(acts) && Untouched(acts, k)
    ensures MarkOf(Acts(o, marks, data, p, acts).1, k) == MarkOf(marks, k)
    decreases |acts|
  {
    if acts != [] {
      var (o', marks') := Act(o, marks, data, p, acts[0]);
      ActsFrame(o', marks', data, p, acts[1..], k);
    }
  }

  predicate Untouched(acts: seq<Action>, k: Kind) { forall i :: 0 <= i < |acts| ==> !About(acts[i], k) }

  /** At most one of the two kinds that share a list is concerned by a step. */
  lemma MainAlone(acts: seq<Action>, s: State, ch: byte, s': State)
    requires Agrees(acts, s, ch, s')
    ensures Marked(s, KField) || Marked(s', KField) ==>
              Untouched(acts, KValue) && !Marked(s, KValue) && !Marked(s', KValue) && !EmptyValue(s, ch, KValue)
    ensures !(Marked(s, KField) || Marked(s', KField)) ==> Untouched(acts, KField)
  {
    hide Only, Agrees, Marked, EmptyValue, Untouched;
    FieldValueApart(s, ch);
    FieldValueApart(s', ch);
    AgreesOnly(acts, s, ch, s', KField);
    AgreesOnly(acts, s, ch, s', KValue);
    if Only(acts, KField) != [] { NotBoth(acts, s, ch, s'); }
  }

  lemma FieldValueApart(s: State, ch: byte)
    ensures !(Marked(s, KField) && Marked(s, KValue)) && !EmptyValue(s, ch, KField)
    ensures EmptyValue(s, ch, KValue) ==> !Marked(s, KField) && !Marked(s, KValue)
  {
  }

  lemma AgreesOnly(acts: seq<Action>, s: State, ch: byte, s': State, k: Kind)
    requires Agrees(acts, s, ch, s')
    ensures Only(acts, k) == Expected(k, s, ch, s') && (Only(acts, k) == [] ==> Untouched(acts, k))
  {
    hide Expected, Only;
    if Only(acts, k) == [] {
      forall i | 0 <= i < |acts| ensures !About(acts[i], k) {
        if acts[i].kind == k { OnlyMembers(acts, k, i); }
      }
    }
  }

  lemma NotBoth(acts: seq<Action>, s: State, ch: byte, s': State)
    requires Agrees(acts, s, ch, s') && Only(acts, KField) != []
    ensures Only(acts, KValue) == []
  {
    hide Expected, Only;
    if Only(acts, KValue) != [] {
      var i := OnlyWitness(acts, KField);
      var j := OnlyWitness(acts, KValue);
      assert false;
    }
  }

  lemma {:induction false} OnlyWitness(acts: seq<Action>, k: Kind) returns (i: nat)
    requires Only(acts, k) != []
    ensures i < |acts| && About(acts[i], k)
  {
    if About(acts[0], k) {
      i := 0;
    } else {
      i := OnlyWitness(acts[1..], k);
      i := i + 1;
    }
  }

  lemma MainStep(o: Observed, marks: Marks, data: bytes, p: nat, acts: seq<Action>, s: State, s': State)
    requires p < |data| && MarksFor(marks, s, p) && Agrees(acts, s, data[p], s')
    ensures var (o', marks') := Acts(o, marks, data, p, acts);
            && (KField in marks' <==> Marked(s', KField))
            && (KValue in marks' <==> Marked(s', KValue))
            && Pending(o', marks', data, p + 1).main == Spans(Pending(o, marks, data, p), s, data[p], s').main
  {
    hide Acts, Agrees, Marked, EmptyValue, Pend, Span, Pending, Spans, SpanActs, Private;
    var (o', marks') := Acts(o, marks, data, p, acts);
    var k := if Marked(s, KField) || Marked(s', KField) then KField else KValue;
    var j := if k == KField then KValue else KField;
    MainAlone(acts, s, data[p], s');
    AgreesSpans(acts, s, data[p], s');
    SharesNot(acts, k, j);
    ListStep(o, marks, data, p, acts, s, s', k);
    ActsFrame(o, marks, data, p, acts, j);
    PendingMain(o, marks, data, p, k, j);
    PendingMain(o', marks', data, p + 1, k, j);
    SpansMain(Pending(o, marks, data, p), s, data[p], s', k, j);
  }

  lemma PendingMain(o: Observed, marks: Marks, data: bytes, p: nat, k: Kind, j: Kind)
    requires p <= |data| && forall i :: i in marks ==> marks[i] <= p
    requires ((k == KField && j == KValue) || (k == KValue && j == KField)) && j !in marks
    ensures Pending(o, marks, data, p).main == Pend(ListOf(o, k), k, MarkOf(marks, k), data, p)
  {
  }

  lemma SpansMain(o: Observed, s: State, ch: byte, s': State, k: Kind, j: Kind)
    requires (k == KField && j == KValue) || (k == KValue && j == KField)
    requires !Marked(s, j) && !Marked(s', j) && (j == KValue ==> !EmptyValue(s, ch, j))
    ensures Spans(o, s, ch, s').main == Span(o.main, k, s, ch, s')
  {
  }

  lemma AgreesSpans(acts: seq<Action>, s: State, ch: byte, s': State)
    requires Agrees(acts, s, ch, s')
    ensures SpanActs(acts)
  {
  }

  lemma SharesNot(acts: seq<Action>, k: Kind, j: Kind)
    requires SpanActs(acts) && Untouched(acts, j) && k != j && (k.KField? || k.KValue?) && (j.KField? || j.KValue?)
    ensures Private(acts, k)
  {
  }

  lemma SpanMarks(o: Observed, marks: Marks, data: bytes, p: nat, acts: seq<Action>, s: State, s': State)
    requires p < |data| && MarksFor(marks, s, p) && Agrees(acts, s, data[p], s')
    ensures MarksFor(Acts(o, marks, data, p, acts).1, s', p + 1)
  {
    hide Acts, Agrees, Pend, Span, SpanActs, Private, Spans, Pending, Marked, ListOf;
    var marks' := Acts(o, marks, data, p, acts).1;
    AgreesSpans(acts, s, data[p], s');
    UrlPrivate(acts);
    BodyUntouched(acts);
    forall k: Kind ensures (k in marks' <==> Marked(s', k)) && (k in marks' ==> marks'[k] <= p + 1) {
      if k.KField? || k.KValue? {
        MainStep(o, marks, data, p, acts, s, s');
      } else if k.KBody? {
        ActsFrame(o, marks, data, p, acts, KBody);
        NoBodyMark(s, s');
      } else {
        ListStep(o, marks, data, p, acts, s, s', k);
      }
    }
  }

  lemma NoBodyMark(s: State, s': State)
    ensures !Marked(s, KBody) && !Marked(s', KBody)
  {
  }

  /** A step outside the bulk states keeps marks and flushed view in step with the byte machine. */
  lemma SpanStep(o: Observed, marks: Marks, data: bytes, p: nat, acts: seq<Action>, s: State, s': State)
    requires p < |data| && MarksFor(marks, s, p) && Agrees(acts, s, data[p], s')
    ensures var (o', marks') := Acts(o, marks, data, p, acts);
            MarksFor(marks', s', p + 1)
            && Pending(o', marks', data, p + 1) == Spans(Pending(o, marks, data, p), s, data[p], s')
  {
    hide Acts, Agrees, Pend, Span, SpanActs, Private, Marked;
    AgreesSpans(acts, s, data[p], s');
    UrlPrivate(acts);
    SpanMarks(o, marks, data, p, acts, s, s');
    MainStep(o, marks, data, p, acts, s, s');
    ListStep(o, marks, data, p, acts, s, s', KUrl);
    ListStep(o, marks, data, p, acts, s, s', KPath);
    ListStep(o, marks, data, p, acts, s, s', KQuery);
    ListStep(o, marks, data, p, acts, s, s', KFragment);
  }

  lemma UrlPrivate(acts: seq<Action>)
    ensures Private(acts, KUrl) && Private(acts, KPath) && Private(acts, KQuery) && Private(acts, KFragment)
  {
  }

  lemma BodyUntouched(acts: seq<Action>)
    requires SpanActs(acts)
    ensures Untouched(acts, KBody)
  {
  }

  lemma {:induction false} NoControls(o: Observed, acts: seq<Action>)
    requires SpanActs(acts)
    ensures Controls(o, acts) == o
  {
    if acts != [] { NoControls(o, acts[1..]); }
  }

  lemma {:induction false} ControlActs(o: Observed, data: bytes, p: nat, acts: seq<Action>)
    requires p <= |data| && forall i :: 0 <= i < |acts| ==> Control(acts[i])
    ensures Acts(o, map[], data, p, acts) == (Controls(o, acts), map[])
    decreases |acts|
  {
    if acts != [] {
      assert Control(acts[0]);
      ControlActs(OnControl(o, acts[0]), data, p, acts[1..]);
    }
  }

  lemma UnmarkedAll(s: State, k: Kind)
    requires Unmarked(s)
    ensures !Marked(s, k)
  {
  }

  lemma UnmarkedSpans(o: Observed, s: State, ch: byte, s': State)
    requires Unmarked(s) && Unmarked(s') && !EmptyValue(s, ch, KValue)
    ensures Spans(o, s, ch, s') == o
  {
    hide Marked;
    forall k: Kind ensures !Marked(s, k) && !Marked(s', k) {
      UnmarkedAll(s, k);
      UnmarkedAll(s', k);
    }
  }

  lemma UnmarkedPending(o: Observed, marks: Marks, data: bytes, p: nat, s: State)
    requires p <= |data| && MarksFor(marks, s, p) && Unmarked(s)
    ensures marks == map[] && Pending(o, marks, data, p) == o
  {
    hide Marked;
    forall k: Kind ensures k !in marks { UnmarkedAll(s, k); }
  }

  lemma ControlStep(o: Observed, marks: Marks, data: bytes, p: nat, acts: seq<Action>, s: State, s': State)
    requires p < |data| && MarksFor(marks, s, p) && Controlled(acts, s, data[p], s')
    ensures var (o', marks') := Acts(o, marks, data, p, acts);
            MarksFor(marks', s', p + 1)
            && Pending(o', marks', data, p + 1) == Spans(Controls(Pending(o, marks, data, p), acts), s, data[p], s')
  {
    hide Marked, Acts, Pending, Spans, Controls;
    UnmarkedPending(o, marks, data, p, s);
    ControlActs(o, data, p, acts);
    forall k: Kind ensures !Marked(s', k) { UnmarkedAll(s', k); }
    UnmarkedPending(Controls(o, acts), map[], data, p + 1, s');
    UnmarkedSpans(Controls(o, acts), s, data[p], s');
  }

  /** One iteration outside the bulk states. */
  lemma SwitchStep(o: Observed, marks: Marks, data: bytes, p: nat, q: Parser)
    requires p < |data| && !BulkState(q.state) && MarksFor(marks, q.state, p) && Switch(q, data[p]).Go?
    ensures var Go(q', acts) := Switch(q, data[p]);
            var (o', marks') := Acts(o, marks, data, p, acts);
            MarksFor(marks', q'.state, p + 1)
            && Pending(o', marks', data, p + 1)
               == Spans(Controls(Pending(o, marks, data, p), acts), q.state, data[p], q'.state)
  {
    hide Marked, Acts, Pending, Spans, Controls, Switch, Agrees, Controlled, MarksFor;
    SwitchAgrees(q, data[p]);
    var Go(q', acts) := Switch(q, data[p]);
    if Agrees(acts, q.state, data[p], q'.state) {
      AgreesSpans(acts, q.state, data[p], q'.state);
      MarksBound(marks, q.state, p);
      NoControls(Pending(o, marks, data, p), acts);
      SpanStep(o, marks, data, p, acts, q.state, q'.state);
    } else {
      ControlStep(o, marks, data, p, acts, q.state, q'.state);
    }
  }

  lemma MarksBound(marks: Marks, s: State, p: nat)
    requires MarksFor(marks, s, p)
    ensures forall k :: k in marks ==> marks[k] <= p
  {
  }

  // ----- bodies in bulk -----

  function BulkAfter(q: Parser, n: nat): Parser { q.(length := q.length - n, state := BulkNext(q, n)) }

  lemma BulkStep(q: Parser, o: Observed, ch: byte)
    requires BulkState(q.state)
    ensures ByteStep(q, o, ch) == Next(BulkAfter(q, 1), BulkSeen(q, o, [ch]))
  {
    hide BulkSeen;
  }

  lemma BulkSeenMore(q: Parser, o: Observed, d: bytes, ch: byte)
    requires BulkState(q.state) && |d| < q.length
    ensures BulkSeen(BulkAfter(q, |d|), BulkSeen(q, o, d), [ch]) == BulkSeen(q, o, d + [ch])
    ensures BulkAfter(BulkAfter(q, |d|), 1) == BulkAfter(q, |d| + 1)
  {
    hide Push, ShouldKeepAlive;
    PushTwice(o.main, KBody, d, [ch]);
    SameKeepAlive(q, |d|);
  }

  lemma SameKeepAlive(q: Parser, n: nat)
    ensures ShouldKeepAlive(BulkAfter(q, n)) == ShouldKeepAlive(q)
  {
  }

  lemma RunSnoc(p: Parser, o: Observed, a: bytes, ch: byte, p': Parser, o': Observed)
    requires Run(p, o, a) == Ok(p', o')
    ensures Run(p, o, a + [ch]) == match ByteStep(p', o', ch) {
              case Next(p'', o'') => Ok(p'', o'') case Error => Failed(|a|) case Upgrade => Left(|a|) }
  {
    hide ByteStep;
    assert (a + [ch])[..|a|] == a;
  }

  /** Skipping n body bytes at once is n single steps. */
  lemma {:induction false} BulkRun(q: Parser, o: Observed, d: bytes)
    requires BulkState(q.state) && 1 <= |d| <= q.length
    ensures Run(q, o, d) == Ok(BulkAfter(q, |d|), BulkSeen(q, o, d))
  {
    hide ByteStep, BulkSeen, BulkAfter, Run;
    var n := |d| - 1;
    var init := d[..n];
    assert d == init + [d[n]];
    if n == 0 {
      RunNothing(q, o);
      assert init == [] && [] + [d[0]] == [d[0]];
      RunSnoc(q, o, [], d[0], q, o);
      BulkStep(q, o, d[0]);
    } else {
      BulkRun(q, o, init);
      RunSnoc(q, o, init, d[n], BulkAfter(q, n), BulkSeen(q, o, init));
      BulkStays(q, n);
      BulkStep(BulkAfter(q, n), BulkSeen(q, o, init), d[n]);
      BulkSeenMore(q, o, init, d[n]);
    }
  }

  lemma RunNothing(p: Parser, o: Observed)
    ensures Run(p, o, []) == Ok(p, o)
  {
  }

  lemma BulkStays(q: Parser, n: nat)
    requires BulkState(q.state) && n < q.length
    ensures BulkState(BulkAfter(q, n).state)
  {
  }

  // ----- invariants of whole runs -----

  predicate Good(p: Parser, o: Observed) { Sound(p) && Open(p, o) }

  lemma UnmarkedOpen(p: Parser, o: Observed)
    requires Unmarked(p.state)
    ensures Open(p, o)
  {
  }

  lemma SpansOpen(o: Observed, s: State, ch: byte, p': Parser)
    requires Marked(p'.state, KField) ==> !Marked(s, KValue) && !EmptyValue(s, ch, KValue)
    ensures Open(p', Spans(o, s, ch, p'.state))
  {
  }

  lemma SwitchOpen(p: Parser, o: Observed, ch: byte)
    requires !BulkState(p.state) && Switch(p, ch).Go?
    ensures var Go(p', acts) := Switch(p, ch); Open(p', Spans(Controls(o, acts), p.state, ch, p'.state))
  {
    hide Switch, Open, Agrees, Controls, Spans, Marked, EmptyValue, Unmarked;
    var Go(p', acts) := Switch(p, ch);
    SwitchAgrees(p, ch);
    if Agrees(acts, p.state, ch, p'.state) {
      MainAlone(acts, p.state, ch, p'.state);
      SpansOpen(Controls(o, acts), p.state, ch, p');
    } else {
      UnmarkedOpen(p', Spans(Controls(o, acts), p.state, ch, p'.state));
    }
  }

  lemma BulkGood(q: Parser, o: Observed, n: nat)
    requires Sound(q) && BulkState(q.state) && 1 <= n <= q.length
    ensures Good(BulkAfter(q, n), o)
  {
    hide ShouldKeepAlive, ScanSound;
  }

  lemma CountKeeps(p: Parser)
    requires Sound(p) && Count(p).Some?
    ensures Sound(Count(p).value) && Count(p).value.state == p.state
  {
    hide ScanSound;
  }

  lemma ByteGood(p: Parser, o: Observed, ch: byte)
    requires Sound(p) && ByteStep(p, o, ch).Next?
    ensures Good(ByteStep(p, o, ch).st, ByteStep(p, o, ch).seen)
  {
    hide Count, Switch, Sound, Open, Spans, Controls, BulkSeen, BulkNext;
    CountKeeps(p);
    var q := Count(p).value;
    if BulkState(q.state) {
      SoundBulk(q);
      BulkStep(q, o, ch);
      BulkGood(q, BulkSeen(q, o, [ch]), 1);
    } else {
      SwitchSound(q, ch);
      SwitchOpen(q, o, ch);
    }
  }

  lemma SoundBulk(q: Parser)
    requires Sound(q) && BulkState(q.state)
    ensures q.length > 0
  {
  }

  lemma {:induction false} RunGood(p: Parser, o: Observed, data: bytes)
    requires Good(p, o) && Run(p, o, data).Ok?
    ensures Good(Run(p, o, data).st, Run(p, o, data).seen)
  {
    hide ByteStep, Good;
    if data != [] {
      var n := |data| - 1;
      RunGood(p, o, data[..n]);
      var Ok(p', o') := Run(p, o, data[..n]);
      GoodSound(p', o');
      ByteGood(p', o', data[n]);
    }
  }

  lemma GoodSound(p: Parser, o: Observed)
    requires Good(p, o)
    ensures Sound(p) && Open(p, o) && p.scan.index < 256
  {
  }

  /** A failed prefix decides the whole. */
  lemma {:induction false} RunStops(p: Parser, o: Observed, data: bytes, n: nat)
    requires n <= |data| && !Run(p, o, data[..n]).Ok?
    ensures Run(p, o, data) == Run(p, o, data[..n])
    decreases |data| - n
  {
    hide ByteStep;
    if n == |data| {
      assert data[..n] == data;
    } else {
      assert data[..n + 1][..n] == data[..n];
      RunStops(p, o, data, n + 1);
    }
  }

  // ----- http_parser_execute -----

  /** The marks a call starts with: spans left open by the previous buffer begin at its start. */
  function InitialMarks(s: State): Marks {
    map k | k in {KField, KValue, KUrl, KPath, KQuery, KFragment} && Marked(s, k) :: 0
  }

  lemma InitialPending(p: Parser, o: Observed, data: bytes)
    requires Open(p, o)
    ensures MarksFor(InitialMarks(p.state), p.state, 0)
    ensures Pending(o, InitialMarks(p.state), data, 0) == o
  {
    assert data[0..0] == [];
    if Marked(p.state, KField) { PushNothing(o.main, KField); }
    if Marked(p.state, KValue) { PushNothing(o.main, KValue); }
    if Marked(p.state, KUrl) { PushNothing(o.url, KUrl); }
    if Marked(p.state, KPath) { PushNothing(o.path, KPath); }
    if Marked(p.state, KQuery) { PushNothing(o.query, KQuery); }
    if Marked(p.state, KFragment) { PushNothing(o.fragment, KFragment); }
  }

  // What one iteration means for the reference run.

  lemma CountVerdict(p: Parser, o: Observed, data: bytes, n: nat, q: Parser, r: Observed)
    requires n < |data| && Run(p, o, data[..n]) == Ok(q, r) && Count(q) == None
    ensures Run(p, o, data) == Failed(n)
  {
    hide Run, Count;
    assert data[..n + 1] == data[..n] + [data[n]];
    RunSnoc(p, o, data[..n], data[n], q, r);
    RunStops(p, o, data, n + 1);
  }

  lemma SwitchVerdict(p: Parser, o: Observed, data: bytes, n: nat, q: Parser, r: Observed)
    requires n < |data| && Run(p, o, data[..n]) == Ok(q, r) && Count(q).Some? && !BulkState(Count(q).value.state)
    ensures Switch(Count(q).value, data[n]).Stop? ==> Run(p, o, data) == Failed(n)
    ensures Switch(Count(q).value, data[n]).Exit? ==> Run(p, o, data) == Left(n)
    ensures Switch(Count(q).value, data[n]).Go? ==>
              var g := Switch(Count(q).value, data[n]);
              Run(p, o, data[..n + 1])
              == Ok(g.st, Spans(Controls(r, g.acts), Count(q).value.state, data[n], g.st.state))
  {
    hide Run, Count, Switch, Spans, Controls;
    assert data[..n + 1] == data[..n] + [data[n]];
    RunSnoc(p, o, data[..n], data[n], q, r);
    if !Run(p, o, data[..n + 1]).Ok? { RunStops(p, o, data, n + 1); }
  }

  lemma BulkVerdict(p: Parser, o: Observed, data: bytes, n: nat, q: Parser, r: Observed, k: nat)
    requires n + k <= |data| && Run(p, o, data[..n]) == Ok(q, r)
    requires BulkState(q.state) && 1 <= k <= q.length
    ensures Run(p, o, data[..n + k]) == Ok(BulkAfter(q, k), BulkSeen(q, r, data[n..n + k]))
  {
    hide Run, BulkAfter, BulkSeen;
    assert data[..n + k] == data[..n] + data[n..n + k];
    RunCut(p, o, data[..n], data[n..n + k]);
    BulkRun(q, r, data[n..n + k]);
  }

  lemma BulkUnmarked(q: Parser, n: nat)
    requires BulkState(q.state)
    ensures Unmarked(q.state) && Unmarked(BulkAfter(q, n).state)
    ensures Count(q) == Some(q)
  {
  }

  /** Flushing every open span at the end of a buffer. */
  lemma PendingFlush(o: Observed, marks: Marks, data: bytes, s: State)
    requires MarksFor(marks, s, |data|)
    ensures (forall k :: k in marks ==> marks[k] <= |data|)
    ensures var at := (o: Observed, k: Kind) => if k in marks && marks[k] <= |data| then OnData(o, k, data[marks[k]..])
              else o;
            at(at(at(at(at(at(o, KField), KValue), KFragment), KQuery), KPath), KUrl) == Pending(o, marks, data, |data|)
  {
    hide Push;
    assert forall i :: 0 <= i <= |data| ==> data[i..|data|] == data[i..];
    assert !(KField in marks && KValue in marks) by { assert !(Marked(s, KField) && Marked(s, KValue)); }
  }

  datatype Turned = GoesOn | Dies | Leaves

  /**
   After n bytes: the state, and what the callbacks made and the open spans amount to, are those of the
   byte machine.
   */
  ghost predicate Reached(p0: Parser, o0: Observed, data: bytes, n: nat, q: Parser, marks: Marks, seen: Observed) {
    && n <= |data| && MarksFor(marks, q.state, n)
    && (MarksBound(marks, q.state, n);
        Run(p0, o0, data[..n]) == Ok(q, Pending(seen, marks, data, n)) && Good(q, Pending(seen, marks, data, n)))
  }

  class HttpParser {
    var st: Parser
    /** What the user's callbacks have received. */
    var seen: Observed

    ghost predicate Valid()
      reads this
    {
      Good(st, seen)
    }

    constructor ()
      ensures Valid() && st == INITIAL && seen == Observed([], [], [], [], [])
    {
      st, seen := INITIAL, Observed([], [], [], [], []);
    }

    /** CALLBACK_NOCLEAR: report an open span up to the end of the buffer. */
    method Flush(k: Kind, marks: Marks, data: bytes)
      requires k in marks ==> marks[k] <= |data|
      modifies this`seen
      ensures seen == if k in marks then OnData(old(seen), k, data[marks[k]..]) else old(seen)
    {
      if k in marks {
        seen := OnData(seen, k, data[marks[k]..|data|]);
        assert data[marks[k]..|data|] == data[marks[k]..];
      }
    }

    /** Consumes a buffer; returns how many bytes were parsed. */
    method Execute(data: bytes) returns (n: nat)
      requires Valid()
      modifies this
      ensures match Run(old(st), old(seen), data)
              case Ok(p', o') => n == |data| && st == p' && seen == o' && Valid()
              case Failed(k) => n == k < |data| && st.state == Dead
              case Left(k) => n == k < |data|
    {
      hide Good, Run, ByteStep, Count, Switch, Pending, Acts, MarksFor, BulkSeen, BulkNext, Spans, Controls, Marked;
      ghost var p0, o0 := st, seen;
      if |data| == 0 {
        RunNothing(p0, o0);
        return 0;
      }
      var q := st;
      var marks := InitialMarks(q.state);
      GoodSound(p0, o0);
      InitialPending(p0, o0, data);
      RunNothing(p0, o0);
      assert data[..0] == [];
      n := 0;
      while n != |data|
        invariant n <= |data| && Reached(p0, o0, data, n, q, marks, seen)
        invariant st == p0
        decreases |data| - n
      {
        var turn, q', marks', n' := Turn(p0, o0, data, n, q, marks);
        if turn == Dies {
          st := q'.(state := Dead, scan := st.scan, nread := st.nread);
          return;
        }
        if turn == Leaves {
          st := q'.(state := st.state, scan := st.scan, nread := st.nread);
          return;
        }
        q, marks, n := q', marks', n';
      }
      assert data[..n] == data;
      MarksBound(marks, q.state, n);
      GoodSound(q, Pending(seen, marks, data, n));
      Finish(q, marks, data);
    }

    /** One turn of the loop: a byte through the switch, or a run of body bytes. */
    method Turn(ghost p0: Parser, ghost o0: Observed, data: bytes, n: nat, q: Parser, marks: Marks)
      returns (turn: Turned, q': Parser, marks': Marks, n': nat)
      requires n < |data| && Reached(p0, o0, data, n, q, marks, seen) && Good(p0, o0)
      modifies this`seen
      ensures turn == Dies ==> Run(p0, o0, data) == Failed(n)
      ensures turn == Leaves ==> Run(p0, o0, data) == Left(n)
      ensures turn == GoesOn ==> n < n' <= |data| && Reached(p0, o0, data, n', q', marks', seen)
    {
      hide Good, Run, ByteStep, Count, Switch, Pending, Acts, MarksFor, BulkSeen, BulkNext, Spans, Controls, Marked;
      MarksBound(marks, q.state, n);
      ghost var r := Pending(seen, marks, data, n);
      GoodSound(q, r);
      q', marks', n' := q, marks, n;
      var counted := Count(q);
      if counted == None {
        CountVerdict(p0, o0, data, n, q, r);
        return Dies, q', marks', n';
      }
      if BulkState(q.state) {
        SoundBulk(q);
        var toRead := if |data| - n < q.length then |data| - n else q.length;
        BulkVerdict(p0, o0, data, n, q, r, toRead);
        q', marks' := Skip(q, marks, data, n, toRead);
        n' := n + toRead;
      } else {
        CountKeeps(q);
        q' := counted.value;
        SwitchVerdict(p0, o0, data, n, q, r);
        match Switch(q', data[n]) {
          case Stop => return Dies, q', marks', n';
          case Exit => return Leaves, q', marks', n';
          case Go(q1, acts) =>
            SwitchStep(seen, marks, data, n, q');
            seen, marks' := Acts(seen, marks, data, n, acts).0, Acts(seen, marks, data, n, acts).1;
            q', n' := q1, n + 1;
        }
      }
      RunGood(p0, o0, data[..n']);
      turn := GoesOn;
    }

    /** The two bulk branches: hand over the rest of the buffer or of the body, whichever is shorter. */
    method Skip(q: Parser, marks: Marks, data: bytes, n: nat, toRead: nat) returns (q': Parser, marks': Marks)
      requires BulkState(q.state) && 1 <= toRead <= q.length && n + toRead <= |data| && MarksFor(marks, q.state, n)
      modifies this`seen
      ensures q' == BulkAfter(q, toRead) && MarksFor(marks', q'.state, n + toRead)
      ensures (forall k :: k in marks ==> marks[k] <= n) && (forall k :: k in marks' ==> marks'[k] <= n + toRead)
      ensures Pending(seen, marks', data, n + toRead)
           == BulkSeen(q, Pending(old(seen), marks, data, n), data[n..n + toRead])
    {
      hide Pending, MarksFor, Marked, Push, ShouldKeepAlive, Unmarked;
      BulkUnmarked(q, toRead);
      MarksBound(marks, q.state, n);
      UnmarkedPending(seen, marks, data, n, q.state);
      seen := OnData(seen, KBody, data[n..n + toRead]);
      if q.state == BodyIdentity && q.length == toRead { seen := OnControl(seen, OnComplete); }
      q' := q.(length := q.length - toRead, state := BulkNext(q, toRead));
      marks' := marks;
      NoMarks(q'.state, n + toRead);
      UnmarkedPending(seen, marks', data, n + toRead, q'.state);
    }

    /** The code after the loop: report open spans and save the parser. */
    method Finish(q: Parser, marks: Marks, data: bytes)
      requires MarksFor(marks, q.state, |data|) && q.scan.index < 256
      modifies this
      ensures st == q
      ensures (forall k :: k in marks ==> marks[k] <= |data|) && seen == Pending(old(seen), marks, data, |data|)
    {
      hide Pending, MarksFor, Marked, Push;
      PendingFlush(seen, marks, data, q.state);
      Flush(KField, marks, data);
      Flush(KValue, marks, data);
      Flush(KFragment, marks, data);
      Flush(KQuery, marks, data);
      Flush(KPath, marks, data);
      Flush(KUrl, marks, data);
      st := q.(scan := q.scan.(index := q.scan.index % 256));
    }
  }

  lemma NoMarks(s: State, p: nat)
    requires Unmarked(s)
    ensures MarksFor(map[], s, p)
  {
    hide Marked;
    forall k: Kind ensures !Marked(s, k) { UnmarkedAll(s, k); }
  }
}
