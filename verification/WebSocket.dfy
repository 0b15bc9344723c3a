/**
 A WebSocket client of src/websocket.c: its buffers, the handlers of its read and write events, and
 its orderly end.
 */
module WebSocket {
  import opened Bytes
  import opened WsFrame

  const TEXT: nat := 0
  const BINARY: Opcode := 1
  const CLOSE: Opcode := 8
  const PING: nat := 9
  const PONG: Opcode := 10

  /** What executing a message does: whether it succeeds, and the answer it writes at once, if any. */
  datatype Exec = Exec(ok: bool, answer: Option<bytes>)

  /** A frame put in the write buffer; `reply` tells the replies of Redis from what the client's own input calls for. */
  datatype Sent = Sent(kind: Opcode, payload: bytes, reply: bool)

  /** The state that processing input works on; `execs` foretells the executions, `done` records the messages. */
  datatype Conn = Conn(rbuf: bytes, out: seq<Sent>, closing: bool, execs: seq<Exec>, done: seq<Message>)

  function NextExec(execs: seq<Exec>): Exec { if execs == [] then Exec(true, None) else execs[0] }

  function RestExecs(execs: seq<Exec>): seq<Exec> { if execs == [] then [] else execs[1..] }

  const UNMASKED_REASON: bytes :=
    [3, 0xEA] + Ascii("Received a frame without a mask from the client (violates RFC6455, 5.1. Overview).")

  const REFUSAL: Sent := Sent(CLOSE, UNMASKED_REASON, false)

  predicate Runs(m: Message) { m.kind == TEXT || m.kind == BINARY }

  /** What is written in answer to a message. */
  function Answer(m: Message, e: Exec): seq<Sent> {
    if Runs(m) then (if e.answer == None then [] else [Sent(BINARY, e.answer.value, false)])
    else if m.kind == PING then [Sent(PONG, m.payload, false)]
    else if m.kind == CLOSE then [Sent(CLOSE, m.payload, false)]
    else []
  }

  /** What one message does, and whether it could be executed. */
  function Effect(c: Conn, m: Message): (Conn, bool) {
    var e := NextExec(c.execs);
    (Conn(c.rbuf, c.out + Answer(m, e), c.closing || m.kind == CLOSE,
          if Runs(m) then RestExecs(c.execs) else c.execs, c.done + [m]),
     !Runs(m) || e.ok)
  }

  /** ws_process_read_data: the state it leaves, and whether it ends in an error. */
  function Process(c: Conn): (Conn, bool)
    decreases |c.rbuf|
  {
    var p := PeekData(c.rbuf);
    if p.Unmasked? then (c.(out := c.out + [REFUSAL], closing := true), true)
    else if !p.Whole? || !p.fin then (c, false)
    else
      var (c1, ok) := Effect(c.(rbuf := c.rbuf[p.size..]), Message(p.kind, p.payload));
      if ok then Process(c1) else (c1, true)
  }

  // ----- what a list of messages calls for -----

  /** The messages handled, the answers, the executions left, whether one of them closes, and whether one failed. */
  datatype Handled = Handled(done: seq<Message>, out: seq<Sent>, execs: seq<Exec>, closed: bool, failed: bool)

  /** Messages are handled in order up to the first that cannot be executed. */
  function HandleAll(execs: seq<Exec>, msgs: seq<Message>): Handled
    decreases |msgs|
  {
    if msgs == [] then Handled([], [], execs, false, false)
    else
      var m, e := msgs[0], NextExec(execs);
      var execs' := if Runs(m) then RestExecs(execs) else execs;
      if Runs(m) && !e.ok then Handled([m], Answer(m, e), execs', false, true)
      else
        var h := HandleAll(execs', msgs[1..]);
        Handled([m] + h.done, Answer(m, e) + h.out, h.execs, m.kind == CLOSE || h.closed, h.failed)
  }

  function Joined(a: Handled, b: Handled): Handled {
    Handled(a.done + b.done, a.out + b.out, b.execs, a.closed || b.closed, b.failed)
  }

  lemma {:induction false} HandleJoin(execs: seq<Exec>, a: seq<Message>, b: seq<Message>)
    ensures var h := HandleAll(execs, a);
            HandleAll(execs, a + b) == if h.failed then h else Joined(h, HandleAll(h.execs, b))
    decreases |a|
  {
    hide Answer;
    if a == [] {
      assert a + b == b;
      var h := HandleAll(execs, b);
      assert [] + h.done == h.done && [] + h.out == h.out;
    } else {
      var m, e := a[0], NextExec(execs);
      assert (a + b)[0] == m && (a + b)[1..] == a[1..] + b;
      if !(Runs(m) && !e.ok) {
        var execs' := if Runs(m) then RestExecs(execs) else execs;
        HandleJoin(execs', a[1..], b);
        var g, h := HandleAll(execs', a[1..]), HandleAll(HandleAll(execs', a[1..]).execs, b);
        assert [m] + (g.done + h.done) == [m] + g.done + h.done;
        assert Answer(m, e) + (g.out + h.out) == Answer(m, e) + g.out + h.out;
      }
    }
  }

  predicate AllOk(execs: seq<Exec>) { forall i :: 0 <= i < |execs| ==> execs[i].ok }

  /** While execution succeeds every message is handled, and closing is a matter of close frames. */
  lemma {:induction false} HandleAllOk(execs: seq<Exec>, msgs: seq<Message>)
    requires AllOk(execs)
    ensures var h := HandleAll(execs, msgs);
            h.done == msgs && !h.failed && (h.closed <==> exists i :: 0 <= i < |msgs| && msgs[i].kind == CLOSE)
    decreases |msgs|
  {
    hide Answer;
    if msgs != [] {
      var rest := msgs[1..];
      HandleAllOk(if Runs(msgs[0]) then RestExecs(execs) else execs, rest);
      assert msgs == [msgs[0]] + rest;
      assert forall i :: 1 <= i < |msgs| ==> msgs[i] == rest[i - 1];
    }
  }

  /** The refusal of an unmasked frame comes after the messages before it. */
  function Refusal(x: Extracted, h: Handled): seq<Sent> { if x.bad && !h.failed then [REFUSAL] else [] }

  /** Handling one message and then the rest. */
  lemma HandleStep(c: Conn, m: Message, rest: seq<Message>)
    ensures var (c1, ok) := Effect(c, m);
            var h, g := HandleAll(c.execs, [m] + rest), HandleAll(c1.execs, rest);
            if ok then && h.done == [m] + g.done && c1.out + g.out == c.out + h.out
                       && h.execs == g.execs && h.failed == g.failed
                       && (c1.closing || g.closed) == (c.closing || h.closed)
            else h.failed && c1.out == c.out + h.out && c1.done == c.done + h.done && c1.execs == h.execs
                 && c1.closing == (c.closing || h.closed)
  {
    hide Answer;
    var (c1, ok) := Effect(c, m);
    var g, a := HandleAll(c1.execs, rest), Answer(m, NextExec(c.execs));
    assert ([m] + rest)[1..] == rest;
    assert c.out + a + g.out == c.out + (a + g.out);
  }

  /** Processing input is handling its messages. */
  lemma {:induction false} ProcessExtracts(c: Conn)
    ensures var (c1, err) := Process(c);
            var x := Extract(c.rbuf);
            var h := HandleAll(c.execs, x.msgs);
            && c1.done == c.done + h.done && c1.out == c.out + h.out + Refusal(x, h) && c1.execs == h.execs
            && c1.closing == (c.closing || h.closed || (x.bad && !h.failed))
            && err == (h.failed || x.bad) && (!h.failed ==> c1.rbuf == x.rest)
    decreases |c.rbuf|
  {
    hide PeekData, Extract, Effect, HandleAll;
    ExtractStep(c.rbuf);
    var p := PeekData(c.rbuf);
    if p.Whole? && p.fin {
      var m := Message(p.kind, p.payload);
      var c0 := c.(rbuf := c.rbuf[p.size..]);
      var (c1, ok) := Effect(c0, m);
      EffectKeeps(c0, m);
      var x := Extract(c1.rbuf);
      HandleStep(c0, m, x.msgs);
      if ok {
        ProcessExtracts(c1);
        var g := HandleAll(c1.execs, x.msgs);
        assert c.done + [m] + g.done == c.done + ([m] + g.done);
      } else {
        assert c1.out + [] == c1.out;
      }
    } else {
      HandleNone(c.execs);
      assert c.done + [] == c.done && c.out + [] == c.out;
    }
  }

  lemma EffectKeeps(c: Conn, m: Message)
    ensures Effect(c, m).0.rbuf == c.rbuf && Effect(c, m).0.done == c.done + [m]
  {
  }

  lemma HandleNone(execs: seq<Exec>)
    ensures HandleAll(execs, []) == Handled([], [], execs, false, false)
  {
  }

  lemma WaitingProcess(c: Conn)
    requires Waiting(c.rbuf)
    ensures Process(c) == (c, false)
  {
    ExtractStep(c.rbuf);
  }

  // ----- what a client listens to -----

  /** What handling the input so far comes to. */
  function Heard(plan: seq<Exec>, input: bytes): Handled { HandleAll(plan, Extract(input).msgs) }

  /** The client has stopped listening: it met a close frame, a message it could not execute, or an unmasked frame. */
  predicate Over(plan: seq<Exec>, input: bytes) {
    Heard(plan, input).closed || Heard(plan, input).failed || Extract(input).bad
  }

  /** The input that is looked at: pieces that arrive after it has stopped listening are dropped. */
  function Taken(plan: seq<Exec>, pieces: seq<bytes>): bytes {
    var n := |pieces| - 1;
    if pieces == [] then []
    else
      var input := Taken(plan, pieces[..n]);
      if Over(plan, input) then input else input + pieces[n]
  }

  lemma TakenSnoc(plan: seq<Exec>, pieces: seq<bytes>, d: bytes)
    ensures Taken(plan, pieces + [d]) ==
              var input := Taken(plan, pieces); if Over(plan, input) then input else input + d
  {
    hide Over;
    assert (pieces + [d])[..|pieces|] == pieces;
  }

  /** Processing what was left with more data comes to handling the whole input. */
  lemma ProcessMore(plan: seq<Exec>, c: Conn, input: bytes, data: bytes)
    requires !Over(plan, input)
    requires var h := Heard(plan, input);
             c.done == h.done && c.execs == h.execs && !c.closing && c.rbuf == Extract(input).rest + data
    ensures var (c1, err) := Process(c);
            var h, x := Heard(plan, input + data), Extract(input + data);
            var out := HandleAll(c.execs, Extract(c.rbuf).msgs).out;
            && c1.done == h.done && c1.execs == h.execs
            && h.out == Heard(plan, input).out + out && c1.out == c.out + out + Refusal(x, h)
            && c1.closing == (h.closed || (x.bad && !h.failed))
            && err == (h.failed || x.bad) && (!Over(plan, input + data) ==> c1.rbuf == x.rest)
  {
    hide Extract, Process, HandleAll;
    ExtractCut(input, data);
    HandleJoin(plan, Extract(input).msgs, Extract(c.rbuf).msgs);
    ProcessExtracts(c);
  }

  // ----- what a client writes -----

  /** The frames in the form in which they are sent. */
  function Wire(fs: seq<Sent>): bytes {
    var n := |fs| - 1;
    if fs == [] then [] else Wire(fs[..n]) + ServerFrame(fs[n].kind, fs[n].payload)
  }

  lemma WireSnoc(fs: seq<Sent>, f: Sent)
    ensures Wire(fs + [f]) == Wire(fs) + ServerFrame(f.kind, f.payload)
  {
    assert (fs + [f])[..|fs|] == fs;
  }

  lemma {:induction false} WireFront(f: Sent, fs: seq<Sent>)
    ensures Wire([f] + fs) == ServerFrame(f.kind, f.payload) + Wire(fs)
    decreases |fs|
  {
    hide ServerFrame;
    if fs == [] {
      assert [f] + fs == [] + [f];
      WireSnoc([], f);
    } else {
      var n := |fs| - 1;
      WireFront(f, fs[..n]);
      WireSnoc([f] + fs[..n], fs[n]);
      assert [f] + fs == [f] + fs[..n] + [fs[n]];
    }
  }

  /** A stream of frames as its receiver reads it, up to one that cannot be. */
  function DecodeAll(b: bytes): seq<(nat, bytes)> {
    match DecodeFrame(b)
    case None => []
    case Some(f) => [(f.0, f.1)] + DecodeAll(b[f.2..])
  }

  function Contents(fs: seq<Sent>): seq<(nat, bytes)> {
    seq(|fs|, i requires 0 <= i < |fs| => (fs[i].kind, fs[i].payload))
  }

  /** What is written is read back as the frames, in order, if and only if none has a payload of 65536 bytes. */
  lemma {:induction false} WireDecodes(fs: seq<Sent>)
    requires forall i :: 0 <= i < |fs| ==> |fs[i].payload| < 0x8000_0000_0000_0000
    ensures DecodeAll(Wire(fs)) == Contents(fs) <==> forall i :: 0 <= i < |fs| ==> |fs[i].payload| != 65536
  {
    hide ServerFrame, DecodeFrame, Wire;
    if fs == [] {
      WireNothing();
    } else {
      var f, rest := fs[0], fs[1..];
      var frame := ServerFrame(f.kind, f.payload);
      assert fs == [f] + rest;
      WireFront(f, rest);
      DecodeServerFrame(f.kind, f.payload, Wire(rest));
      WireDecodes(rest);
      if |f.payload| != 65536 {
        assert (frame + Wire(rest))[|frame|..] == Wire(rest);
        assert Contents(fs) == [(f.kind, f.payload)] + Contents(rest);
        assert DecodeAll(Wire(fs)) == [(f.kind, f.payload)] + DecodeAll(Wire(rest));
        assert DecodeAll(Wire(fs))[1..] == DecodeAll(Wire(rest)) && Contents(fs)[1..] == Contents(rest);
        assert forall i :: 1 <= i < |fs| ==> fs[i] == rest[i - 1];
      }
    }
  }

  lemma WireNothing()
    ensures Wire([]) == [] && DecodeFrame([]) == None
  {
  }

  /** The frames that are replies of Redis, or those that are not. */
  function Only(fs: seq<Sent>, reply: bool): seq<Sent> {
    var n := |fs| - 1;
    if fs == [] then [] else Only(fs[..n], reply) + (if fs[n].reply == reply then [fs[n]] else [])
  }

  lemma {:induction false} OnlyJoin(a: seq<Sent>, b: seq<Sent>, reply: bool)
    ensures Only(a + b, reply) == Only(a, reply) + Only(b, reply)
    decreases |b|
  {
    if b == [] {
      assert a + b == a;
    } else {
      var n := |b| - 1;
      assert (a + b)[..|a| + n] == a + b[..n];
      OnlyJoin(a, b[..n], reply);
    }
  }

  predicate Own(fs: seq<Sent>) { forall i :: 0 <= i < |fs| ==> !fs[i].reply }

  lemma {:induction false} OnlyOwn(fs: seq<Sent>)
    requires Own(fs)
    ensures Only(fs, false) == fs && Only(fs, true) == []
  {
    if fs != [] {
      var n := |fs| - 1;
      OnlyOwn(fs[..n]);
      assert fs == fs[..n] + [fs[n]];
    }
  }

  lemma {:induction false} AnswersOwn(execs: seq<Exec>, msgs: seq<Message>)
    ensures Own(HandleAll(execs, msgs).out)
    decreases |msgs|
  {
    if msgs != [] { AnswersOwn(if Runs(msgs[0]) then RestExecs(execs) else execs, msgs[1..]); }
  }

  // ----- what happens to a client -----

  /** One of its events fires, or Redis replies. */
  datatype Event = Readable(data: bytes) | Writable(sent: nat) | Replied(p: bytes)

  /** The end of the stream, or an error when reading or writing. */
  predicate Broken(es: seq<Event>) { exists i :: 0 <= i < |es| && (es[i] == Readable([]) || es[i] == Writable(0)) }

  /** The pieces read before the connection broke. */
  function Pieces(es: seq<Event>): seq<bytes> {
    var n := |es| - 1;
    if es == [] then []
    else Pieces(es[..n]) + (if es[n].Readable? && es[n].data != [] && !Broken(es[..n]) then [es[n].data] else [])
  }

  function Replies(es: seq<Event>): seq<Sent> {
    var n := |es| - 1;
    if es == [] then [] else Replies(es[..n]) + (if es[n].Replied? then [Sent(BINARY, es[n].p, true)] else [])
  }

  lemma EventsSnoc(es: seq<Event>, e: Event)
    ensures Broken(es + [e]) <==> Broken(es) || e == Readable([]) || e == Writable(0)
    ensures Pieces(es + [e]) == Pieces(es) + (if e.Readable? && e.data != [] && !Broken(es) then [e.data] else [])
    ensures Replies(es + [e]) == Replies(es) + (if e.Replied? then [Sent(BINARY, e.p, true)] else [])
  {
    var all := es + [e];
    assert all[..|es|] == es && all[|es|] == e;
    if Broken(es) {
      var i :| 0 <= i < |es| && (es[i] == Readable([]) || es[i] == Writable(0));
      assert all[i] == es[i];
    }
  }

  /** What a client has done, given the events so far: all of it follows from them and from the executions foretold. */
  ghost predicate Follows(plan: seq<Exec>, es: seq<Event>, c: Conn) {
    var input := Taken(plan, Pieces(es));
    var h, x := Heard(plan, input), Extract(input);
    && c.done == h.done && Only(c.out, false) == h.out + Refusal(x, h) && Only(c.out, true) == Replies(es)
    && (c.closing <==> Over(plan, input) || Broken(es))
    && (!c.closing ==> c.rbuf == x.rest && c.execs == h.execs)
  }

  lemma FollowsNothing(plan: seq<Exec>)
    ensures Follows(plan, [], Conn([], [], false, plan, []))
  {
    assert Extract([]) == Extracted([], [], false);
  }

  /** Data read before the client stops listening. */
  lemma FollowsRead(plan: seq<Exec>, es: seq<Event>, c: Conn, data: bytes)
    requires Follows(plan, es, c) && data != [] && !c.closing
    ensures var (c1, err) := Process(c.(rbuf := c.rbuf + data));
            Follows(plan, es + [Readable(data)], c1.(closing := c1.closing || err))
  {
    hide Extract, Process, HandleAll, Only, Taken, Pieces, Replies, Broken, Own;
    var input := Taken(plan, Pieces(es));
    var c0 := c.(rbuf := c.rbuf + data);
    EventsSnoc(es, Readable(data));
    TakenSnoc(plan, Pieces(es), data);
    ProcessMore(plan, c0, input, data);
    var out := HandleAll(c0.execs, Extract(c0.rbuf).msgs).out;
    var h, x := Heard(plan, input + data), Extract(input + data);
    OnlyMore(c.out, out, Refusal(x, h)) by { AnswersOwn(c0.execs, Extract(c0.rbuf).msgs); RefusalOwn(x, h); }
    assert Replies(es) + [] == Replies(es);
    assert Only(c.out, false) == Heard(plan, input).out + [] == Heard(plan, input).out;
  }

  lemma RefusalOwn(x: Extracted, h: Handled)
    ensures Own(Refusal(x, h))
  {
  }

  lemma OnlyMore(a: seq<Sent>, b: seq<Sent>, c: seq<Sent>)
    requires Own(b) && Own(c)
    ensures Only(a + b + c, false) == Only(a, false) + b + c && Only(a + b + c, true) == Only(a, true)
  {
    hide Only, Own;
    OnlyJoin(a + b, c, false);
    OnlyJoin(a, b, false);
    OnlyJoin(a + b, c, true);
    OnlyJoin(a, b, true);
    OnlyOwn(b);
    OnlyOwn(c);
  }

  /** Events that end the client's listening, and data that comes after it. */
  lemma FollowsClosing(plan: seq<Exec>, es: seq<Event>, c: Conn, e: Event, rbuf: bytes)
    requires Follows(plan, es, c) && !e.Replied? && (c.closing || e == Readable([]) || e == Writable(0))
    ensures Follows(plan, es + [e], c.(closing := true, rbuf := rbuf))
  {
    hide Extract, HandleAll, Only, Taken, Pieces, Replies, Broken;
    EventsSnoc(es, e);
    assert Replies(es) + [] == Replies(es) && Pieces(es) + [] == Pieces(es);
    if e.Readable? { TakenSnoc(plan, Pieces(es), e.data); }
  }

  lemma FollowsWrite(plan: seq<Exec>, es: seq<Event>, c: Conn, sent: nat)
    requires Follows(plan, es, c) && sent > 0
    ensures Follows(plan, es + [Writable(sent)], c) && (!c.closing ==> Process(c) == (c, false))
  {
    hide Extract, HandleAll, Only, Taken, Pieces, Replies, Broken, Process;
    EventsSnoc(es, Writable(sent));
    assert Replies(es) + [] == Replies(es) && Pieces(es) + [] == Pieces(es);
    if !c.closing {
      LeftOver(Taken(plan, Pieces(es)));
      WaitingProcess(c);
    }
  }

  lemma FollowsReply(plan: seq<Exec>, es: seq<Event>, c: Conn, p: bytes)
    requires Follows(plan, es, c)
    ensures Follows(plan, es + [Replied(p)], c.(out := c.out + [Sent(BINARY, p, true)]))
  {
    hide Extract, HandleAll, Taken, Pieces, Replies, Broken;
    EventsSnoc(es, Replied(p));
    var f := Sent(BINARY, p, true);
    assert (c.out + [f])[..|c.out|] == c.out;
    assert Pieces(es) + [] == Pieces(es) && Only(c.out, false) + [] == Only(c.out, false);
  }

  /** ws_msg_add: the data is copied after what is there, then unmasked in place. */
  method MsgAdd(payload: array<byte>, p: bytes, mask: bytes) returns (grown: array<byte>)
    requires |mask| == 4
    ensures fresh(grown) && grown[..] == payload[..] + Masked(p, mask)
  {
    var size := payload.Length;
    grown := new byte[size + |p|](
      i requires 0 <= i < size + |p| reads payload => if i < size then payload[i] else p[i - size]);
    var i := 0;
    while i < |p|
      invariant 0 <= i <= |p|
      invariant forall k :: 0 <= k < size ==> grown[k] == payload[k]
      invariant forall k :: 0 <= k < i ==> grown[size + k] == Masked(p, mask)[k]
    {
      grown[size + i] := Xor(p[i], mask[i % 4]);
      i := i + 1;
    }
    assert grown[..size] == payload[..];
    assert grown[size..] == Masked(p, mask);
    assert grown[..] == grown[..size] + grown[size..];
  }

  /** The frame that ws_frame_and_send_response builds. */
  method BuildFrame(kind: Opcode, p: bytes) returns (frame: bytes)
    ensures frame == ServerFrame(kind, p)
  {
    hide BigEndian;
    if |p| <= 125 {
      frame := [128 + kind, |p|] + p;
    } else if |p| <= 65536 {
      frame := [128 + kind, 126] + BigEndian(|p| % 65536, 2) + p;
    } else {
      frame := [128 + kind, 127] + BigEndian(|p|, 8) + p;
    }
  }

  class Client {
    var rbuf: bytes
    var wbuf: bytes
    var scheduledRead: bool
    var scheduledWrite: bool
    var closing: bool
    var execs: seq<Exec>
    var done: seq<Message>
    var freed: bool

    /** The one-shot events outstanding for this client. */
    ghost var readEvents: nat
    ghost var writeEvents: nat

    /** The bytes that have left for the client, and the frames put in the write buffer behind the handshake. */
    ghost var sentOut: bytes
    ghost var frames: seq<Sent>

    /** What has happened so far, and what was foretold of the executions. */
    ghost var fired: seq<Event>
    ghost const handshake: bytes
    ghost const plan: seq<Exec>

    /** A client whose handshake reply is waiting to be written. */
    constructor (handshake: bytes, execs: seq<Exec>)
      ensures Idle() && !freed && !scheduledRead && scheduledWrite && wbuf == handshake && sentOut == []
      ensures Abs() == Conn([], [], false, execs, []) && fired == [] && this.handshake == handshake && plan == execs
    {
      rbuf, wbuf, scheduledRead, scheduledWrite, closing := [], handshake, false, true, false;
      this.execs, done, freed := execs, [], false;
      readEvents, writeEvents, sentOut, frames := 0, 1, [], [];
      fired, this.handshake, plan := [], handshake, execs;
      new;
      FollowsNothing(execs);
    }

    ghost function Abs(): Conn
      reads this
    {
      Conn(rbuf, frames, closing, execs, done)
    }

    /** At most one event of each kind, and the flags tell which are outstanding. */
    ghost predicate Counted()
      reads this
    {
      !freed && readEvents == (if scheduledRead then 1 else 0) && writeEvents == (if scheduledWrite then 1 else 0)
    }

    /** What was sent and what waits to be are the handshake and then the frames, in order. */
    ghost predicate Buffered()
      reads this
    {
      sentOut + wbuf == handshake + Wire(frames)
    }

    /** Data waiting to be written has a write event, unless the client is closing. */
    ghost predicate Alive()
      reads this
    {
      Counted() && Buffered() && (wbuf != [] && !closing ==> scheduledWrite)
    }

    /** Between two events: some event is still to come, or the client is gone. */
    ghost predicate Idle()
      reads this
    {
      && Follows(plan, fired, Abs()) && Buffered()
      && if freed then closing && !scheduledRead && !scheduledWrite && readEvents == writeEvents == 0
         else Alive() && readEvents + writeEvents >= 1
    }

    /** ws_schedule_write. */
    method ScheduleWrite()
      modifies `scheduledWrite, `writeEvents
      ensures scheduledWrite && writeEvents == old(writeEvents) + (if old(scheduledWrite) then 0 else 1)
    {
      if !scheduledWrite {
        scheduledWrite := true;
        writeEvents := writeEvents + 1;
      }
    }

    /** ws_monitor_input. */
    method MonitorInput()
      modifies `scheduledRead, `readEvents
      ensures scheduledRead && readEvents == old(readEvents) + (if old(scheduledRead) then 0 else 1)
    {
      if !scheduledRead {
        scheduledRead := true;
        readEvents := readEvents + 1;
      }
    }

    /** ws_frame_and_send_response. */
    method FrameAndSend(kind: Opcode, p: bytes, ghost reply: bool)
      requires Buffered()
      modifies `wbuf, `scheduledWrite, `writeEvents, `frames
      ensures Buffered() && wbuf == old(wbuf) + ServerFrame(kind, p) && frames == old(frames) + [Sent(kind, p, reply)]
      ensures scheduledWrite && writeEvents == old(writeEvents) + (if old(scheduledWrite) then 0 else 1)
    {
      hide ServerFrame, Wire;
      var frame := BuildFrame(kind, p);
      WireSnoc(frames, Sent(kind, p, reply));
      assert sentOut + (wbuf + frame) == sentOut + wbuf + frame;
      assert handshake + Wire(frames) + frame == handshake + (Wire(frames) + frame);
      wbuf := wbuf + frame;
      frames := frames + [Sent(kind, p, reply)];
      ScheduleWrite();
    }

    /** Frames are only added, and nothing else is written. */
    twostate predicate Written()
      reads this
    {
      && |old(frames)| <= |frames|
      && (|frames| == |old(frames)| ==> wbuf == old(wbuf) && scheduledWrite == old(scheduledWrite))
      && (|frames| > |old(frames)| ==> scheduledWrite)
    }

    /** ws_close_if_able. */
    method CloseIfAble()
      requires Counted()
      modifies `closing, `freed
      ensures closing && (freed <==> !scheduledRead && !scheduledWrite)
    {
      closing := true;
      if scheduledRead || scheduledWrite { return; }
      freed := true;
    }

    /** ws_peek_data without extraction; an unmasked frame is answered with a close frame. */
    method PeekInput() returns (p: Peek)
      requires Alive()
      modifies `wbuf, `scheduledWrite, `writeEvents, `closing, `frames
      ensures Alive() && Written() && p == PeekData(rbuf)
      ensures p.Unmasked? ==> Abs() == old(Abs()).(out := old(frames) + [REFUSAL], closing := true)
      ensures !p.Unmasked? ==> Abs() == old(Abs()) && wbuf == old(wbuf) && scheduledWrite == old(scheduledWrite)
    {
      hide ServerFrame, Masked, Wire;
      var size := |rbuf|;
      if size < 2 { return Reading; }
      if rbuf[1] < 128 {
        closing := true;
        FrameAndSend(CLOSE, UNMASKED_REASON, false);
        return Unmasked;
      }
      var len := rbuf[1] - 128;
      var e := if len == 126 then 2 else if len == 127 then 8 else 0;
      if size < 6 + e { return Reading; }
      var length: nat := len;
      if e > 0 { length := FromBigEndian(rbuf[2..2 + e]); }
      if length > size - (6 + e) { return Reading; }
      var empty := new byte[0];
      var payload := MsgAdd(empty, rbuf[6 + e..6 + e + length], rbuf[2 + e..6 + e]);
      assert payload[..] == Masked(rbuf[6 + e..6 + e + length], rbuf[2 + e..6 + e]);
      p := Whole(rbuf[0] >= 128, rbuf[0] % 16, payload[..], 6 + e + length);
    }

    /** ws_execute, as foretold. */
    method Execute() returns (ok: bool)
      requires Alive()
      modifies `wbuf, `scheduledWrite, `writeEvents, `execs, `frames
      ensures Alive() && Written() && ok == NextExec(old(execs)).ok && execs == RestExecs(old(execs))
      ensures frames == old(frames) + (if NextExec(old(execs)).answer == None then []
                                       else [Sent(BINARY, NextExec(old(execs)).answer.value, false)])
    {
      hide ServerFrame, Wire;
      var e := NextExec(execs);
      execs := RestExecs(execs);
      if e.answer.Some? { FrameAndSend(BINARY, e.answer.value, false); }
      ok := e.ok;
    }

    /** What the loop of ws_process_read_data does with one message. */
    method HandleMessage(m: Message) returns (ok: bool)
      requires Alive()
      modifies `wbuf, `scheduledWrite, `writeEvents, `closing, `execs, `done, `frames
      ensures Alive() && Written() && (Abs(), ok) == Effect(old(Abs()), m)
    {
      hide ServerFrame, Wire;
      ok := true;
      done := done + [m];
      assert frames + [] == frames;
      if m.kind == TEXT || m.kind == BINARY {
        ok := Execute();
      } else if m.kind == PING {
        FrameAndSend(PONG, m.payload, false);
      } else if m.kind == CLOSE {
        closing := true;
        FrameAndSend(CLOSE, m.payload, false);
      }
    }

    /** ws_process_read_data; the result says whether it ends in an error. */
    method ProcessReadData() returns (err: bool)
      requires Alive()
      modifies `rbuf, `wbuf, `scheduledWrite, `writeEvents, `closing, `execs, `done, `frames
      ensures Alive() && Written() && (Abs(), err) == Process(old(Abs()))
    {
      hide ServerFrame, Effect, PeekData, Wire;
      var p := PeekInput();
      while p.Whole? && p.fin
        invariant Alive() && Written() && p == PeekData(rbuf)
        invariant p.Unmasked? ==> Process(old(Abs())) == (Abs(), true)
        invariant !p.Unmasked? ==> Process(Abs()) == Process(old(Abs()))
        decreases |rbuf|
      {
        ghost var before := Abs();
        rbuf := rbuf[p.size..];
        var ok := HandleMessage(Message(p.kind, p.payload));
        assert Process(before) == if ok then Process(Abs()) else (Abs(), true);
        if !ok { return true; }
        p := PeekInput();
      }
      err := p.Unmasked?;
    }

    /** ws_can_read: `data` is what the socket gives, nothing at its end or on an error. */
    method CanRead(data: bytes)
      requires Idle() && !freed && readEvents == 1
      modifies this
      ensures Idle() && fired == old(fired) + [Readable(data)] && sentOut == old(sentOut)
      ensures data == [] || old(closing) ==>
                Abs() == old(Abs()).(closing := true, rbuf := old(rbuf) + data) && !scheduledRead
                  && scheduledWrite == old(scheduledWrite)
      ensures data != [] && !old(closing) ==>
                var (p, err) := Process(old(Abs()).(rbuf := old(rbuf) + data));
                && Abs() == p.(closing := p.closing || err) && scheduledRead == !err
                && scheduledWrite == (old(scheduledWrite) || |frames| > |old(frames)|)
      ensures freed <==> closing && !scheduledRead && !scheduledWrite
    {
      hide Process, Follows, Wire;
      readEvents := readEvents - 1;
      scheduledRead := false;
      fired := fired + [Readable(data)];
      rbuf := rbuf + data;
      if data == [] || closing {
        FollowsClosing(plan, old(fired), old(Abs()), Readable(data), rbuf);
        CloseIfAble();
        return;
      }
      FollowsRead(plan, old(fired), old(Abs()), data);
      var err := ProcessReadData();
      if !err {
        MonitorInput();
      } else {
        CloseIfAble();
      }
    }

    /** evbuffer_write_atmost: `sent` bytes leave. */
    method Drain(sent: nat)
      requires Buffered() && sent <= |wbuf|
      modifies `wbuf, `sentOut
      ensures Buffered() && sentOut == old(sentOut) + old(wbuf)[..sent] && wbuf == old(wbuf)[sent..]
    {
      hide Wire;
      assert wbuf == wbuf[..sent] + wbuf[sent..];
      assert sentOut + (wbuf[..sent] + wbuf[sent..]) == sentOut + wbuf[..sent] + wbuf[sent..];
      sentOut := sentOut + wbuf[..sent];
      wbuf := wbuf[sent..];
    }

    /** What has been read already is looked at once more, which finds nothing new, and more input is waited for. */
    method Resume()
      requires Alive() && Process(Abs()) == (Abs(), false)
      modifies `rbuf, `wbuf, `scheduledRead, `readEvents, `scheduledWrite, `writeEvents
      modifies `closing, `execs, `done, `frames
      ensures Alive() && scheduledRead && Abs() == old(Abs()) && wbuf == old(wbuf)
      ensures scheduledWrite == old(scheduledWrite)
    {
      hide Process, Wire;
      var _ := ProcessReadData();
      MonitorInput();
    }

    /** ws_can_write: `sent` bytes leave the write buffer, none on an error. */
    method CanWrite(sent: nat)
      requires Idle() && !freed && writeEvents == 1 && sent <= |wbuf|
      modifies this
      ensures Idle() && fired == old(fired) + [Writable(sent)]
      ensures sentOut == old(sentOut) + old(wbuf)[..sent] && wbuf == old(wbuf)[sent..]
      ensures Abs() == old(Abs()).(closing := old(closing) || sent == 0)
      ensures scheduledWrite <==> 0 < sent < |old(wbuf)|
      ensures scheduledRead <==> old(scheduledRead) || (sent > 0 && sent == |old(wbuf)| && !old(closing))
      ensures freed <==> closing && !scheduledRead && !scheduledWrite
    {
      hide Process, Follows, Wire;
      writeEvents := writeEvents - 1;
      scheduledWrite := false;
      fired := fired + [Writable(sent)];
      Drain(sent);
      if sent == 0 {
        FollowsClosing(plan, old(fired), old(Abs()), Writable(0), rbuf);
        CloseIfAble();
        return;
      }
      FollowsWrite(plan, old(fired), old(Abs()), sent);
      if |wbuf| > 0 {
        ScheduleWrite();
      } else if closing {
        CloseIfAble();
      } else {
        Resume();
      }
    }

    /** A reply from Redis while the client is there. */
    method Reply(p: bytes)
      requires Idle() && !freed
      modifies `wbuf, `scheduledWrite, `writeEvents, `frames, `fired
      ensures Idle() && fired == old(fired) + [Replied(p)] && wbuf == old(wbuf) + ServerFrame(BINARY, p)
      ensures scheduledWrite && scheduledRead == old(scheduledRead) && !freed && sentOut == old(sentOut)
      ensures Abs() == old(Abs()).(out := old(frames) + [Sent(BINARY, p, true)])
    {
      hide ServerFrame, Follows, Wire;
      FollowsReply(plan, fired, Abs(), p);
      fired := fired + [Replied(p)];
      FrameAndSend(BINARY, p, true);
    }
  }

  // ----- which events fire -----

  /** A client between two events: how many bytes have left, and which of its events are outstanding. */
  datatype Moment = Moment(conn: Conn, left: nat, reading: bool, writing: bool, freed: bool)

  /** How many bytes wait to be written behind a handshake of hs bytes. */
  function Pending(hs: nat, m: Moment): int { hs + |Wire(m.conn.out)| - m.left }

  /** An event fires if it is outstanding; no more can be written than there is. */
  predicate Fires(hs: nat, m: Moment, e: Event) {
    && !m.freed
    && match e
       case Readable(_) => m.reading
       case Writable(sent) => m.writing && sent <= Pending(hs, m)
       case Replied(_) => true
  }

  /** A client that is closing and waits for nothing is gone. */
  function Settled(conn: Conn, left: nat, reading: bool, writing: bool): Moment {
    Moment(conn, left, reading, writing, conn.closing && !reading && !writing)
  }

  function AfterRead(m: Moment, data: bytes): Moment {
    var c := m.conn.(rbuf := m.conn.rbuf + data);
    if data == [] || c.closing then Settled(c.(closing := true), m.left, false, m.writing)
    else
      var (p, err) := Process(c);
      Settled(p.(closing := p.closing || err), m.left, !err, m.writing || |p.out| > |c.out|)
  }

  function AfterWrite(hs: nat, m: Moment, sent: nat): Moment {
    Settled(m.conn.(closing := m.conn.closing || sent == 0), m.left + sent,
            m.reading || (0 < sent == Pending(hs, m) && !m.conn.closing), 0 < sent < Pending(hs, m))
  }

  function AfterEvent(hs: nat, m: Moment, e: Event): Moment {
    if !Fires(hs, m, e) then m
    else match e
      case Readable(data) => AfterRead(m, data)
      case Writable(sent) => AfterWrite(hs, m, sent)
      case Replied(p) => m.(conn := m.conn.(out := m.conn.out + [Sent(BINARY, p, true)]), writing := true)
  }

  /** What the events come to, from a handshake waiting to be written. */
  function MomentOf(hs: nat, plan: seq<Exec>, es: seq<Event>): Moment {
    var n := |es| - 1;
    if es == [] then Moment(Conn([], [], false, plan, []), 0, false, true, false)
    else AfterEvent(hs, MomentOf(hs, plan, es[..n]), es[n])
  }

  /** Those of the events that fire. */
  function FiredOf(hs: nat, plan: seq<Exec>, es: seq<Event>): seq<Event> {
    var n := |es| - 1;
    if es == [] then []
    else FiredOf(hs, plan, es[..n]) + if Fires(hs, MomentOf(hs, plan, es[..n]), es[n]) then [es[n]] else []
  }

  lemma MomentSnoc(hs: nat, plan: seq<Exec>, es: seq<Event>, n: nat)
    requires n < |es|
    ensures MomentOf(hs, plan, es[..n + 1]) == AfterEvent(hs, MomentOf(hs, plan, es[..n]), es[n])
    ensures FiredOf(hs, plan, es[..n + 1]) ==
              FiredOf(hs, plan, es[..n]) + if Fires(hs, MomentOf(hs, plan, es[..n]), es[n]) then [es[n]] else []
  {
    hide AfterEvent, Fires;
    assert es[..n + 1][..n] == es[..n];
  }

  /** A client that listens keeps listening until it is closing, and then closing is for good. */
  lemma AfterListens(hs: nat, m: Moment, e: Event)
    requires m.reading || m.conn.closing
    ensures var m' := AfterEvent(hs, m, e); (m.conn.closing ==> m'.conn.closing) && (m'.reading || m'.conn.closing)
  {
    hide Wire, Process;
  }

  /**
   From the moment when nothing waits to be written, every piece that arrives is read, until the client
   is closing.
   */
  lemma {:induction false} Listens(hs: nat, plan: seq<Exec>, es: seq<Event>, j: nat, n: nat)
    requires j < n <= |es|
    requires var m := MomentOf(hs, plan, es[..j]);
             Fires(hs, m, es[j]) && es[j].Writable? && 0 < es[j].sent == Pending(hs, m)
    ensures var m := MomentOf(hs, plan, es[..n]);
            !m.conn.closing ==> m.reading && !m.freed && forall data :: Fires(hs, m, Readable(data))
    decreases n - j
  {
    hide MomentOf, FiredOf, Wire, Process;
    MomentSnoc(hs, plan, es, n - 1);
    if n == j + 1 {
    } else {
      Listens(hs, plan, es, j, n - 1);
      AfterListens(hs, MomentOf(hs, plan, es[..n - 1]), es[n - 1]);
    }
    FreedCloses(hs, plan, es[..n]);
  }

  lemma {:induction false} FreedCloses(hs: nat, plan: seq<Exec>, es: seq<Event>)
    ensures MomentOf(hs, plan, es).freed ==> MomentOf(hs, plan, es).conn.closing
  {
    hide Wire, Process;
    if es != [] { FreedCloses(hs, plan, es[..|es| - 1]); }
  }

  // ----- whole runs -----

  /** The client as a moment of its run. */
  ghost function Now(c: Client): Moment
    reads c
  {
    Moment(c.Abs(), |c.sentOut|, c.scheduledRead, c.scheduledWrite, c.freed)
  }

  /** One event, which does nothing if it is not outstanding. */
  method Handle(c: Client, e: Event)
    requires c.Idle()
    modifies c
    ensures c.Idle() && Now(c) == AfterEvent(|c.handshake|, old(Now(c)), e)
    ensures c.fired == old(c.fired) + if Fires(|c.handshake|, old(Now(c)), e) then [e] else []
  {
    hide Process, Follows, Wire, ServerFrame;
    assert |c.wbuf| == Pending(|c.handshake|, Now(c));
    if !c.freed {
      match e {
        case Readable(data) => if c.scheduledRead { c.CanRead(data); }
        case Writable(sent) => if c.scheduledWrite && sent <= |c.wbuf| { c.CanWrite(sent); }
        case Replied(p) => c.Reply(p);
      }
    }
  }

  /**
   Whatever happens, in whatever order: every event that is outstanding fires, the client has handled
   exactly the messages of the input that arrived while it listened, written the answers and the replies
   in order behind the handshake, and still waits for an event or is gone.
   */
  method Run(handshake: bytes, execs: seq<Exec>, events: seq<Event>) returns (c: Client)
    ensures c.Idle() && Now(c) == MomentOf(|handshake|, execs, events)
    ensures c.fired == FiredOf(|handshake|, execs, events)
    ensures var input := Taken(execs, Pieces(c.fired));
            var h, x := Heard(execs, input), Extract(input);
            && c.done == h.done && Only(c.frames, false) == h.out + Refusal(x, h)
            && Only(c.frames, true) == Replies(c.fired)
            && (c.closing <==> Over(execs, input) || Broken(c.fired)) && (c.freed ==> c.closing)
    ensures c.sentOut + c.wbuf == handshake + Wire(c.frames)
  {
    hide Heard, Taken, Over, Extract, Only, Replies, Pieces, Broken, Wire, AfterEvent, Fires, MomentOf, FiredOf;
    c := new Client(handshake, execs);
    MomentStarts(|handshake|, execs, events);
    for i := 0 to |events|
      invariant fresh(c) && c.Idle() && c.plan == execs && c.handshake == handshake
      invariant Now(c) == MomentOf(|handshake|, execs, events[..i])
      invariant c.fired == FiredOf(|handshake|, execs, events[..i])
    {
      MomentSnoc(|handshake|, execs, events, i);
      Handle(c, events[i]);
    }
    assert events[..|events|] == events;
  }

  lemma MomentStarts(hs: nat, plan: seq<Exec>, es: seq<Event>)
    ensures MomentOf(hs, plan, es[..0]) == Moment(Conn([], [], false, plan, []), 0, false, true, false)
    ensures FiredOf(hs, plan, es[..0]) == []
  {
  }

  /** The handshake is written, then the pieces arrive one after another. */
  method Feed(handshake: bytes, execs: seq<Exec>, pieces: seq<bytes>) returns (c: Client)
    requires handshake != [] && forall i :: 0 <= i < |pieces| ==> pieces[i] != []
    ensures c.Idle() && c.done == Heard(execs, Taken(execs, pieces)).done
    ensures c.closing <==> Over(execs, Taken(execs, pieces))
  {
    hide Heard, Taken, Over, Extract, Only, Replies, Pieces, Broken, Wire;
    c := new Client(handshake, execs);
    EventsSnoc(c.fired, Writable(|handshake|));
    c.CanWrite(|handshake|);
    NoEvents();
    assert pieces[..0] == [];
    for i := 0 to |pieces|
      invariant fresh(c) && c.Idle() && c.plan == execs && !Broken(c.fired)
      invariant Taken(execs, Pieces(c.fired)) == Taken(execs, pieces[..i])
      invariant !c.closing ==> c.scheduledRead
    {
      assert pieces[..i + 1] == pieces[..i] + [pieces[i]];
      TakenSnoc(execs, pieces[..i], pieces[i]);
      TakenSnoc(execs, Pieces(c.fired), pieces[i]);
      EventsSnoc(c.fired, Readable(pieces[i]));
      if c.scheduledRead { c.CanRead(pieces[i]); }
    }
    assert pieces[..|pieces|] == pieces;
  }

  lemma NoEvents()
    ensures Pieces([]) == [] && !Broken([])
  {
  }

  /** The input looked at is that of the pieces up to the first after which the client does not listen. */
  lemma {:induction false} TakenIs(plan: seq<Exec>, pieces: seq<bytes>) returns (n: nat)
    ensures n <= |pieces| && Taken(plan, pieces) == Concat(pieces[..n])
    ensures n < |pieces| ==> Over(plan, Concat(pieces[..n]))
    ensures forall m :: 0 <= m < n ==> !Over(plan, Concat(pieces[..m]))
  {
    hide Over;
    if pieces == [] {
      n := 0;
    } else {
      var k := |pieces| - 1;
      n := TakenIs(plan, pieces[..k]);
      assert forall m :: 0 <= m <= k ==> pieces[..k][..m] == pieces[..m];
      if !Over(plan, Concat(pieces[..n])) {
        ConcatSnoc(pieces[..k], pieces[k]);
        assert pieces == pieces[..k] + [pieces[k]] && pieces[..k + 1] == pieces;
        n := k + 1;
      }
    }
  }

  // ----- frames in pieces -----

  /** The first n bytes hold a whole close frame. */
  predicate HoldsClose(fs: seq<Frame>, n: nat)
    requires AreFrames(fs)
  {
    exists j :: 0 <= j < |fs| && fs[j].kind == CLOSE && |ClientFrames(fs[..j + 1])| <= n
  }

  /** Whenever the pieces read so far hold a close frame, they hold all the frames. */
  predicate Timely(fs: seq<Frame>, pieces: seq<bytes>)
    requires AreFrames(fs)
  {
    forall n :: 0 <= n <= |pieces| && HoldsClose(fs, |Concat(pieces[..n])|) ==>
      |ClientFrames(fs)| <= |Concat(pieces[..n])|
  }

  lemma ConcatPrefix(pieces: seq<bytes>, n: nat)
    requires n <= |pieces|
    ensures Concat(pieces[..n]) <= Concat(pieces)
  {
    assert pieces == pieces[..n] + pieces[n..];
    ConcatAppend(pieces[..n], pieces[n..]);
  }

  /** With frames that can be executed, a client stops listening exactly once it holds a close frame. */
  lemma HeardFrames(plan: seq<Exec>, fs: seq<Frame>, t: bytes, n: nat)
    requires AllOk(plan) && AreFrames(fs) && Incomplete(t) && n <= |ClientFrames(fs) + t|
    ensures var input := (ClientFrames(fs) + t)[..n];
            && Heard(plan, input).done == Messages(fs[..WholeFrames(fs, n)])
            && (Over(plan, input) <==> HoldsClose(fs, n))
  {
    hide ClientFrames, WholeFrames, HandleAll, Extract, AllOk, HoldsClose, Messages, Incomplete, AreFrames;
    var k := WholeFrames(fs, n);
    ExtractFrames(fs, t, n);
    HandleAllOk(plan, Messages(fs[..k]));
    ClosesAmong(fs, n);
  }

  /** A close frame is held exactly if one of the messages of the whole frames is a close message. */
  lemma ClosesAmong(fs: seq<Frame>, n: nat)
    requires AreFrames(fs)
    ensures var msgs := Messages(fs[..WholeFrames(fs, n)]);
            HoldsClose(fs, n) <==> exists i :: 0 <= i < |msgs| && msgs[i].kind == CLOSE
  {
    hide ClientFrames, WholeFrames, WellFormed;
    var msgs := Messages(fs[..WholeFrames(fs, n)]);
    if i :| 0 <= i < |msgs| && msgs[i].kind == CLOSE {
      WholeReaches(fs, n, i + 1);
      assert fs[i].kind == CLOSE;
    }
    if HoldsClose(fs, n) {
      var j :| 0 <= j < |fs| && fs[j].kind == CLOSE && |ClientFrames(fs[..j + 1])| <= n;
      WholeReaches(fs, n, j + 1);
      assert msgs[j].kind == CLOSE;
    }
  }

  /** Frames in pieces are all handled if and only if none comes in a piece after that of a close frame. */
  lemma FramesTaken(plan: seq<Exec>, fs: seq<Frame>, t: bytes, pieces: seq<bytes>)
    requires AllOk(plan) && AreFrames(fs) && Incomplete(t) && Concat(pieces) == ClientFrames(fs) + t
    ensures var done := Heard(plan, Taken(plan, pieces)).done;
            done <= Messages(fs) && (done == Messages(fs) <==> Timely(fs, pieces))
  {
    hide ClientFrames, WholeFrames, Heard, Over, Taken, HoldsClose, Concat, Incomplete, AllOk;
    var all := ClientFrames(fs) + t;
    var n := TakenIs(plan, pieces);
    forall m | 0 <= m <= |pieces|
      ensures |Concat(pieces[..m])| <= |all| && Concat(pieces[..m]) == all[..|Concat(pieces[..m])|]
      ensures Over(plan, Concat(pieces[..m])) <==> HoldsClose(fs, |Concat(pieces[..m])|)
    {
      ConcatPrefix(pieces, m);
      HeardFrames(plan, fs, t, |Concat(pieces[..m])|);
    }
    var size := |Concat(pieces[..n])|;
    assert n == |pieces| ==> pieces[..n] == pieces;
    HeardFrames(plan, fs, t, size);
    WholeReaches(fs, size, |fs|);
    assert fs[..|fs|] == fs;
    var k := WholeFrames(fs, size);
    assert Messages(fs[..k]) == Messages(fs)[..k];
    if |ClientFrames(fs)| <= size {
      forall m | 0 <= m <= |pieces| && HoldsClose(fs, |Concat(pieces[..m])|) ensures size <= |Concat(pieces[..m])| {
        assert m >= n;
        assert pieces[..m][..n] == pieces[..n];
        ConcatPrefix(pieces[..m], n);
      }
    }
  }

  /** A client given frames in pieces, all of which it can execute. */
  method FeedFrames(handshake: bytes, execs: seq<Exec>, fs: seq<Frame>, ghost t: bytes,
                    pieces: seq<bytes>) returns (c: Client)
    requires handshake != [] && (forall i :: 0 <= i < |pieces| ==> pieces[i] != []) && AllOk(execs)
    requires AreFrames(fs) && Incomplete(t) && Concat(pieces) == ClientFrames(fs) + t
    ensures c.Idle() && c.done <= Messages(fs) && (c.done == Messages(fs) <==> Timely(fs, pieces))
  {
    c := Feed(handshake, execs, pieces);
    FramesTaken(execs, fs, t, pieces);
  }

  const CLOSE_FRAME: Frame := Frame(0, 8, 0, [0, 0, 0, 0], [])
  const TEXT_FRAME: Frame := Frame(0, 0, 0, [0, 0, 0, 0], [])

  /** A frame behind a close frame is handled when both come in one piece, and dropped when it comes in its own. */
  lemma LateFrame()
    ensures var fs := [CLOSE_FRAME, TEXT_FRAME];
            && AreFrames(fs) && Timely(fs, [ClientFrames(fs)])
            && !Timely(fs, [ClientFrame(CLOSE_FRAME), ClientFrame(TEXT_FRAME)])
  {
    var fs := [CLOSE_FRAME, TEXT_FRAME];
    var a, b := ClientFrame(CLOSE_FRAME), ClientFrame(TEXT_FRAME);
    assert |a| == 6 && |b| == 6;
    assert fs[1..] == [TEXT_FRAME] && fs[1..][1..] == [];
    assert ClientFrames(fs[1..]) == b;
    assert ClientFrames(fs) == a + b;
    assert fs[..1] == [CLOSE_FRAME] && fs[..1][1..] == [];
    assert ClientFrames(fs[..1]) == a;
    var pieces := [a, b];
    ConcatSnoc([], a);
    assert pieces[..1] == [] + [a];
    assert Concat(pieces[..1]) == a;
    assert HoldsClose(fs, |a|) by { assert fs[0].kind == CLOSE && |ClientFrames(fs[..0 + 1])| <= |a|; }
  }
}
