/**
 The asynchronous context of src/hiredis/async.c in runs of ordinary commands: callbacks queued in
 issue order, replies matched to them, and the deferred disconnect and free.
 */
module Async {
  import opened Bytes
  import opened CallbackList

  datatype Kind = Plain | ErrorReply | Push

  datatype Reply = Reply(id: nat, kind: Kind)

  /** A callback; fn is false for a NULL function. */
  datatype Callback = Callback(id: nat, fn: bool)

  /** What a callback may do to its context while it runs. */
  datatype Action = Issue(cb: Callback) | Disconnect | Free

  /** A callback taken off the queue, with its reply, or None for the NULL reply of a teardown. */
  datatype Served = Served(cb: Callback, reply: Option<Reply>)

  // ----- the history of a run -----

  ghost function Callbacks(served: seq<Served>): (cs: seq<Callback>)
    ensures |cs| == |served|
  {
    seq(|served|, i requires 0 <= i < |served| => served[i].cb)
  }

  /**
   The callbacks served so far, then those still queued, are the accepted ones in issue order; the
   k-th reply went to the k-th of them, and the NULL replies came after all others.
   */
  ghost predicate InOrder(accepted: seq<Callback>, served: seq<Served>, queue: seq<Callback>, received: seq<Reply>) {
    && Callbacks(served) + queue == accepted
    && |received| <= |served|
    && (forall k :: 0 <= k < |received| ==> served[k].reply == Some(received[k]))
    && (forall k :: |received| <= k < |served| ==> served[k].reply == None)
  }

  /** The callbacks among those served that have a function to call. */
  ghost function Calls(served: seq<Served>): seq<Served> {
    if served == [] then []
    else Calls(served[..|served| - 1]) + (if served[|served| - 1].cb.fn then [served[|served| - 1]] else [])
  }

  lemma CallsSnoc(served: seq<Served>, v: Served)
    ensures Calls(served + [v]) == Calls(served) + (if v.cb.fn then [v] else [])
  {
    assert (served + [v])[..|served|] == served;
  }

  lemma InOrderCounts(accepted: seq<Callback>, served: seq<Served>, queue: seq<Callback>, received: seq<Reply>)
    requires InOrder(accepted, served, queue, received)
    ensures |received| <= |served| && |served| + |queue| == |accepted|
  {
  }

  /** The oldest callback queued is the first accepted that has not been served. */
  lemma NextInLine(accepted: seq<Callback>, served: seq<Served>, queue: seq<Callback>, received: seq<Reply>)
    requires InOrder(accepted, served, queue, received) && |served| == |received|
    ensures |received| <= |accepted| && (|received| < |accepted| <==> queue != [])
    ensures queue != [] ==> accepted[|received|] == queue[0]
  {
  }

  lemma AcceptInOrder(accepted: seq<Callback>, served: seq<Served>, queue: seq<Callback>, received: seq<Reply>,
                      cb: Callback)
    requires InOrder(accepted, served, queue, received)
    ensures InOrder(accepted + [cb], served, queue + [cb], received)
  {
    assert Callbacks(served) + (queue + [cb]) == accepted + [cb];
  }

  lemma ServeReply(accepted: seq<Callback>, served: seq<Served>, queue: seq<Callback>, received: seq<Reply>,
                   cb: Callback, rest: seq<Callback>, r: Reply)
    requires InOrder(accepted, served, queue, received) && |received| == |served| && queue == [cb] + rest
    ensures InOrder(accepted, served + [Served(cb, Some(r))], rest, received + [r])
  {
    assert Callbacks(served + [Served(cb, Some(r))]) == Callbacks(served) + [cb];
  }

  lemma ServeNull(accepted: seq<Callback>, served: seq<Served>, queue: seq<Callback>, received: seq<Reply>,
                  cb: Callback, rest: seq<Callback>)
    requires InOrder(accepted, served, queue, received) && queue == [cb] + rest
    ensures InOrder(accepted, served + [Served(cb, None)], rest, received)
  {
    assert Callbacks(served + [Served(cb, None)]) == Callbacks(served) + [cb];
  }

  /** The replies that answer commands. */
  function Answers(rs: seq<Reply>): seq<Reply> {
    if rs == [] then [] else (if rs[0].kind == Push then [] else [rs[0]]) + Answers(rs[1..])
  }

  lemma {:induction false} AnswersAppend(a: seq<Reply>, b: seq<Reply>)
    ensures Answers(a + b) == Answers(a) + Answers(b)
  {
    if a == [] {
      assert a + b == b;
    } else {
      assert (a + b)[1..] == a[1..] + b;
      AnswersAppend(a[1..], b);
    }
  }

  lemma AnswersStep(rs: seq<Reply>)
    ensures rs == [] ==> Answers(rs) == []
    ensures rs != [] && rs[0].kind == Push ==> Answers(rs) == Answers(rs[1..])
    ensures rs != [] && rs[0].kind != Push ==> Answers(rs) == [rs[0]] + Answers(rs[1..])
  {
    if rs != [] { assert [] + Answers(rs[1..]) == Answers(rs[1..]); }
  }

  /** How many commands the scripts issue. */
  function Issues(script: seq<Action>): nat {
    if script == [] then 0 else (if script[0].Issue? then 1 else 0) + Issues(script[1..])
  }

  /** The commands of a script that are accepted; none are once a disconnect or a free has been asked for. */
  function Accepts(script: seq<Action>, refusing: bool): seq<Callback> {
    if script == [] || refusing then []
    else if script[0].Issue? then [script[0].cb] + Accepts(script[1..], false)
    else []
  }

  lemma AcceptsOne(a: Action, refusing: bool)
    ensures Accepts([a], refusing) == if a.Issue? && !refusing then [a.cb] else []
  {
    assert [a][1..] == [];
  }

  lemma AcceptsStep(script: seq<Action>, refusing: bool)
    requires script != []
    ensures Accepts(script, refusing) ==
              Accepts([script[0]], refusing) + Accepts(script[1..], refusing || !script[0].Issue?)
  {
    if !refusing && script[0].Issue? { assert [script[0]][1..] == []; }
  }

  lemma IssuesStep(script: seq<Action>)
    requires script != []
    ensures Issues(script) == Issues([script[0]]) + Issues(script[1..])
  {
    assert [script[0]][1..] == [];
  }

  function AllIssues(scripts: seq<seq<Action>>): nat {
    if scripts == [] then 0 else Issues(scripts[0]) + AllIssues(scripts[1..])
  }

  /** Whether one of the scripts takes the action a. */
  predicate Asks(scripts: seq<seq<Action>>, a: Action) { exists i :: 0 <= i < |scripts| && a in scripts[i] }

  lemma AsksTail(scripts: seq<seq<Action>>, a: Action)
    requires scripts != []
    ensures Asks(scripts, a) <==> a in scripts[0] || Asks(scripts[1..], a)
  {
    if Asks(scripts[1..], a) {
      var i :| 0 <= i < |scripts[1..]| && a in scripts[1..][i];
      assert a in scripts[i + 1];
    }
    if Asks(scripts, a) && a !in scripts[0] {
      var i :| 0 <= i < |scripts| && a in scripts[i];
      assert scripts[1..][i - 1] == scripts[i];
    }
  }

  /**
   The commands accepted, the answers given out, the scripts left, whether commands are refused, and
   whether there has been an answer too many.
   */
  datatype Course = Course(accepted: seq<Callback>, given: nat, scripts: seq<seq<Action>>, refusing: bool, stuck: bool)

  /** What a callback does when it is called. */
  function ScriptOf(cb: Callback, scripts: seq<seq<Action>>): seq<Action> {
    if cb.fn && scripts != [] then scripts[0] else []
  }

  function ScriptsAfter(cb: Callback, scripts: seq<seq<Action>>): seq<seq<Action>> {
    if cb.fn && scripts != [] then scripts[1..] else scripts
  }

  /** One answer: the next command in line gets it, and its callback may issue others. */
  function Give(c: Course): Course
    requires c.given < |c.accepted|
  {
    var cb := c.accepted[c.given];
    var script := ScriptOf(cb, c.scripts);
    Course(c.accepted + Accepts(script, c.refusing), c.given + 1, ScriptsAfter(cb, c.scripts),
           c.refusing || Disconnect in script, c.stuck)
  }

  /** n answers, up to one too many. */
  function GiveAll(c: Course, n: nat): Course
    decreases n
  {
    if n == 0 then c
    else if c.given >= |c.accepted| then c.(stuck := true)
    else GiveAll(Give(c), n - 1)
  }

  class Context {
    const replies: Queue<Callback>
    var connected: bool
    var disconnecting: bool
    var freeing: bool
    var inCallback: bool
    var noAutoFree: bool
    var err: bool
    var obuf: nat

    /** Replies the reader has, and whether a protocol error follows them. */
    var inbox: seq<Reply>
    var malformed: bool

    /** What the callbacks to come will do, one script a call. */
    var scripts: seq<seq<Action>>

    var freed: bool
    /** An assertion of the source has failed and the process has stopped. */
    var aborted: bool
    /** The callback functions called, each with its reply. */
    var calls: seq<Served>
    /** The statuses given to the disconnect callback. */
    var notified: seq<bool>

    ghost var accepted: seq<Callback>
    ghost var served: seq<Served>
    ghost var received: seq<Reply>
    ghost var input: seq<Reply>

    constructor (noAutoFree: bool, scripts: seq<seq<Action>>)
      ensures Idle() && fresh(replies) && replies.nodes == [] && this.scripts == scripts
      ensures this.noAutoFree == noAutoFree
      ensures !connected && !disconnecting && !freeing && !err && accepted == [] && received == [] && input == []
    {
      replies := new Queue();
      connected, disconnecting, freeing, inCallback, err := false, false, false, false, false;
      this.noAutoFree, this.scripts, obuf, inbox, malformed := noAutoFree, scripts, 0, [], false;
      freed, aborted, calls, notified := false, false, [], [];
      accepted, served, received, input := [], [], [], [];
    }

    ghost function Pending(): seq<Callback>
      reads this, replies
    {
      replies.Contents()
    }

    ghost predicate Core()
      reads this, replies, replies.nodes
    {
      Waiting(served)
    }

    /** Core, with `due` for the callbacks served; the last of them may still have to be called. */
    ghost predicate Waiting(due: seq<Served>)
      reads this, replies, replies.nodes
    {
      && !freed && !aborted && replies.Valid() && notified == [] && calls == Calls(served)
      && (disconnecting && !err ==> !noAutoFree)
      && InOrder(accepted, due, Pending(), received) && received <= Answers(input)
    }

    /** The state between two events. */
    ghost predicate Idle()
      reads this, replies, replies.nodes
    {
      && Core() && !inCallback && (freeing ==> err)
      && (err ==> disconnecting) && (|served| > |received| ==> err)
      && (!err ==> inbox == [] && !malformed)
      && (received == Answers(input) || (err && Refused()))
    }

    ghost function Now(): Course
      reads this
    {
      Course(accepted, |received|, scripts, disconnecting, false)
    }

    /** The context has run the given course. */
    ghost predicate At(c: Course)
      reads this
    {
      && accepted == c.accepted && |received| == c.given && (c.stuck <==> aborted || err)
      && (!c.stuck && !freed ==> scripts == c.scripts && disconnecting == c.refusing)
    }

    /** There are more answers than commands to answer. */
    ghost predicate Surplus()
      reads this
    {
      |received| == |accepted| < |Answers(input)|
    }

    /** The first answer too many is an error, which the server sends before it closes the connection. */
    ghost predicate Refused()
      reads this
    {
      Surplus() && Answers(input)[|received|].kind == ErrorReply
    }

    /** Every answer read has been given out, up to a free or an answer too many. */
    ghost predicate Accounted()
      reads this
    {
      received == Answers(input) || freeing || (err && Refused())
    }

    /** The process has stopped at an answer too many. */
    ghost predicate Stuck()
      reads this, replies, replies.nodes
    {
      && aborted && !freed && !err && InOrder(accepted, served, [], received) && received <= Answers(input)
      && calls == Calls(served) && |served| == |received| && notified == []
      && Surplus() && Answers(input)[|received|].kind != ErrorReply
    }

    /** The context is gone: no callback is left over, and the disconnect callback has run at most once. */
    ghost predicate Gone()
      reads this, replies, replies.nodes
    {
      && freed && InOrder(accepted, served, [], received) && received <= Answers(input) && calls == Calls(served)
      && !aborted && (disconnecting || freeing) && Accounted()
      && notified == (if connected then [freeing || !err] else [])
    }

    /** __redisAsyncCommand for an ordinary command. */
    method Command(cb: Callback) returns (ok: bool)
      requires Core()
      modifies this`obuf, this`accepted, replies, replies.nodes
      ensures Core() && ok == !(disconnecting || freeing)
      ensures ok ==> accepted == old(accepted) + [cb] && Pending() == old(Pending()) + [cb]
      ensures !ok ==> accepted == old(accepted) && Pending() == old(Pending())
      ensures obuf == old(obuf) + (if ok then 1 else 0)
      ensures Grown()
    {
      hide InOrder, Answers, replies.Valid, replies.Contents, Calls, Played;
      if disconnecting || freeing { return false; }
      AcceptInOrder(accepted, served, Pending(), received, cb);
      accepted := accepted + [cb];
      obuf := obuf + 1;
      replies.Push(cb);
      ok := true;
    }

    /** Everything but the flags is as it was. */
    twostate predicate Kept()
      reads this, replies, replies.nodes
    {
      && accepted == old(accepted) && served == old(served) && received == old(received) && input == old(input)
      && calls == old(calls) && inbox == old(inbox) && malformed == old(malformed) && scripts == old(scripts)
      && obuf == old(obuf)
      && err == old(err) && connected == old(connected) && inCallback == old(inCallback)
      && replies.nodes == old(replies.nodes) && Pending() == old(Pending())
    }

    twostate predicate Grown()
      reads this, replies
    {
      forall i :: 0 <= i < |replies.nodes| ==> replies.nodes[i] in old(replies.nodes) || fresh(replies.nodes[i])
    }

    /** Scripts are only used up. */
    twostate predicate Fewer()
      reads this
    {
      && (Asks(scripts, Free) ==> old(Asks(scripts, Free)))
      && (Asks(scripts, Disconnect) ==> old(Asks(scripts, Disconnect)))
      && (old(scripts) == [] ==> scripts == [])
    }

    /** Frees and disconnects are asked for by the callbacks' scripts; without scripts nothing is accepted. */
    twostate predicate Asked(connects: bool)
      reads this
    {
      && Fewer() && (old(disconnecting) ==> disconnecting) && (old(freeing) ==> freeing)
      && (freeing ==> old(freeing || Asks(scripts, Free)))
      && (disconnecting && !err ==> old(disconnecting || Asks(scripts, Disconnect)))
      && old(accepted) <= accepted && (old(scripts) == [] ==> accepted == old(accepted))
      && connected == (old(connected) || connects)
    }

    /** redisAsyncFree. */
    method AsyncFree()
      requires Core()
      modifies this, replies, replies.nodes
      ensures Grown()
      ensures old(inCallback) ==>
                Core() && Kept() && freeing && disconnecting == old(disconnecting) && noAutoFree == old(noAutoFree)
      ensures !old(inCallback) ==>
                Gone() && accepted == old(accepted) && received == old(received) && input == old(input)
                  && err == old(err)
      ensures connected == old(connected) && Fewer() && freeing
      ensures old(disconnecting) ==> disconnecting
      ensures disconnecting && !err ==> old(disconnecting || Asks(scripts, Disconnect))
      decreases if inCallback then 0 else 3
    {
      hide InOrder, Answers, replies.Valid, Calls, Asks;
      freeing := true;
      if !inCallback { DoFree(); }
    }

    /** redisAsyncDisconnect. */
    method AsyncDisconnect()
      requires Core() && (inCallback || Accounted())
      modifies this, replies, replies.nodes
      ensures Grown()
      ensures old(inCallback) || old(Pending()) != [] ==>
                Core() && Kept() && disconnecting && !noAutoFree && freeing == old(freeing)
      ensures !old(inCallback) && old(Pending()) == [] ==>
                Gone() && accepted == old(accepted) && received == old(received) && input == old(input)
                  && err == old(err)
      ensures connected == old(connected) && disconnecting && Fewer() && (old(freeing) ==> freeing)
      ensures freeing ==> old(freeing || Asks(scripts, Free))
      decreases if inCallback then 0 else 4
    {
      hide InOrder, Answers, replies.Valid, Calls, Asks;
      disconnecting := true;
      noAutoFree := false;
      var empty := replies.IsEmpty();
      if !inCallback && empty { DoDisconnect(); }
    }

    /** What running a callback may change. */
    twostate predicate Ran()
      reads this, replies, replies.nodes
    {
      && received == old(received) && input == old(input)
      && inbox == old(inbox) && malformed == old(malformed) && err == old(err) && connected == old(connected)
      && (old(disconnecting) ==> disconnecting) && (old(freeing) ==> freeing) && (noAutoFree ==> old(noAutoFree))
      && (old(disconnecting) || old(freeing) ==> accepted == old(accepted) && Pending() == old(Pending()))
    }

    /** The commands accepted and the requests noted are those of the script. */
    twostate predicate Played(script: seq<Action>)
      reads this
    {
      && accepted == old(accepted) + Accepts(script, old(disconnecting || freeing))
      && disconnecting == (old(disconnecting) || Disconnect in script) && freeing == (old(freeing) || Free in script)
    }

    /** One action of a running callback. */
    method Act(a: Action)
      requires Core() && inCallback
      modifies this, replies, replies.nodes
      ensures Core() && inCallback && Grown() && Ran() && scripts == old(scripts) && served == old(served)
      ensures calls == old(calls)
      ensures |Pending()| <= old(|Pending()|) + Issues([a])
      ensures Played([a])
      decreases 1, 0
    {
      hide InOrder, Answers, replies.Valid, Calls;
      AcceptsOne(a, disconnecting || freeing);
      match a {
        case Issue(next) => var _ := Command(next);
        case Disconnect => AsyncDisconnect();
        case Free => AsyncFree();
      }
    }

    /** The actions of a running callback, one after another. */
    method Play(script: seq<Action>)
      requires Core() && inCallback
      modifies this, replies, replies.nodes
      ensures Core() && inCallback && Grown() && Ran() && scripts == old(scripts) && served == old(served)
      ensures calls == old(calls)
      ensures |Pending()| <= old(|Pending()|) + Issues(script)
      ensures Played(script)
      decreases 1, 1, |script|
    {
      hide InOrder, Answers, replies.Valid, Calls, Core, Accepts, Issues;
      PlayNothing();
      if script != [] {
        AcceptsStep(script, disconnecting || freeing);
        IssuesStep(script);
        assert script == [script[0]] + script[1..];
        Act(script[0]);
        Play(script[1..]);
        ghost var first := Accepts([script[0]], old(disconnecting || freeing));
        ghost var others := Accepts(script[1..], old(disconnecting || freeing) || !script[0].Issue?);
        assert old(accepted) + (first + others) == old(accepted) + first + others;
      }
    }

    lemma PlayNothing()
      ensures Accepts([], true) == [] && Accepts([], false) == [] && Issues([]) == 0
    {
    }

    /** __redisRunCallback; the callback acts on the context as its script says. */
    method RunCallback(cb: Callback, reply: Option<Reply>)
      requires Waiting(served + [Served(cb, reply)]) && !inCallback
      modifies this, replies, replies.nodes
      ensures Core() && !inCallback && Grown() && Ran() && served == old(served) + [Served(cb, reply)]
      ensures |Pending()| + AllIssues(scripts) <= old(|Pending()| + AllIssues(scripts))
      ensures Played(if cb.fn && old(scripts) != [] then old(scripts)[0] else [])
      ensures scripts == if cb.fn && old(scripts) != [] then old(scripts)[1..] else old(scripts)
      ensures Asked(false)
      decreases 1, 2
    {
      hide InOrder, Answers, replies.Valid, Calls, Accepts, Issues, Asks;
      PlayNothing();
      if scripts != [] {
        AsksTail(scripts, Free);
        AsksTail(scripts, Disconnect);
      }
      CallsSnoc(served, Served(cb, reply));
      served := served + [Served(cb, reply)];
      if !cb.fn { return; }
      calls := calls + [Served(cb, reply)];
      var script: seq<Action> := [];
      if scripts != [] {
        script := scripts[0];
        scripts := scripts[1..];
      }
      inCallback := true;
      Play(script);
      inCallback := false;
    }

    /** The oldest callback gets a NULL reply; false if there is none. */
    method ServeNext() returns (more: bool)
      requires Core() && !inCallback
      modifies this, replies, replies.nodes
      ensures Core() && !inCallback && Grown() && Asked(false) && (more <==> old(Pending()) != [])
      ensures received == old(received) && input == old(input) && inbox == old(inbox) && malformed == old(malformed)
      ensures err == old(err) && (noAutoFree ==> old(noAutoFree))
      ensures !more ==> accepted == old(accepted) && served == old(served) && Pending() == []
      ensures more ==> |Pending()| + AllIssues(scripts) < old(|Pending()| + AllIssues(scripts))
      ensures more && old(disconnecting || freeing) ==> accepted == old(accepted) && |Pending()| < old(|Pending()|)
      decreases 1, 3
    {
      hide InOrder, replies.Valid, replies.Contents, Answers, Calls, Played, Asks, Accepts, Issues, AllIssues;
      ghost var queue := Pending();
      var cb := replies.Shift();
      assert Grown();
      if cb == None { return false; }
      ServeNull(accepted, served, queue, received, cb.value, Pending());
      RunCallback(cb.value, None);
      more := true;
    }

    /** __redisAsyncFree: every pending callback gets a NULL reply, and may not add others. */
    method DoFree()
      requires Core() && !inCallback && (disconnecting || freeing) && Accounted()
      modifies this, replies, replies.nodes
      ensures Gone() && Grown() && accepted == old(accepted) && received == old(received) && Asked(false)
      ensures input == old(input) && err == old(err) && (old(disconnecting) ==> disconnecting)
      ensures old(freeing) ==> freeing
      decreases 2
    {
      hide InOrder, Answers, replies.Valid, replies.Contents, Calls, Played, Asks, Accepts, Issues, AllIssues;
      while true
        invariant Core() && !inCallback && (disconnecting || freeing) && Grown()
        invariant accepted == old(accepted) && received == old(received) && Asked(false)
        invariant input == old(input) && err == old(err) && (old(disconnecting) ==> disconnecting)
        invariant old(freeing) ==> freeing
        decreases |Pending()|
      {
        var more := ServeNext();
        if !more { break; }
      }
      if connected { notified := notified + [freeing || !err]; }
      freed := true;
    }

    /** __redisAsyncDisconnect. */
    method DoDisconnect()
      requires Core() && !inCallback && (err || (Pending() == [] && disconnecting)) && Accounted()
      modifies this, replies, replies.nodes
      ensures Grown() && !aborted && accepted == old(accepted) && received == old(received) && Asked(false)
      ensures input == old(input) && err == old(err) && (err ==> disconnecting)
      ensures !old(noAutoFree) ==> Gone()
      ensures old(noAutoFree) ==> Core() && Kept() && disconnecting
      decreases 3
    {
      hide InOrder, Answers, replies.Valid, Calls, Asks;
      if !err {
        var ret := replies.Shift();
        assert ret == None;
      } else {
        disconnecting := true;
      }
      if !noAutoFree { DoFree(); }
    }

    /** Where an event leaves the context: gone for good, stopped, or ready for the next one. */
    ghost predicate Settled()
      reads this, replies, replies.nodes
    {
      Stuck() || (freed && Gone()) || (!freed && !aborted && Idle())
    }

    /** Every answer read so far has been given to its callback. */
    ghost predicate Matched()
      reads this, replies, replies.nodes
    {
      && Core() && !inCallback && !err && !freeing && |served| == |received|
      && Answers(input) == received + Answers(inbox)
    }

    /** An error of the connection, and the disconnect it leads to. */
    method Fail()
      requires Core() && !inCallback && (received == Answers(input) || Refused())
      modifies this, replies, replies.nodes
      ensures Settled() && Grown() && !aborted && err && disconnecting && Asked(false)
      ensures (freed <==> !old(noAutoFree)) && (!freed ==> Pending() == old(Pending()))
      ensures input == old(input) && received == old(received) && accepted == old(accepted)
    {
      hide InOrder, replies.Valid, replies.Contents, Answers, Calls, Played, Asks;
      err := true;
      DoDisconnect();
    }

    /** The state after an answer that is not the last thing to happen, or after one that is. */
    twostate predicate Dispatched(more: bool)
      reads this, replies, replies.nodes
    {
      && input == old(input) && Asked(false)
      && (more ==> Matched() && inbox == old(inbox) && malformed == old(malformed))
      && (!more ==> Settled() && (err ==> Refused()) && (freed || aborted || err))
    }

    /** An answer for which there is no command. */
    method Unsolicited(reply: Reply)
      requires Core() && !inCallback && !err && !freeing && |served| == |received| && Pending() == []
      requires Answers(input) == received + ([reply] + Answers(inbox))
      modifies this, replies, replies.nodes
      ensures Grown() && Dispatched(false) && received == old(received) && accepted == old(accepted)
      ensures aborted <==> reply.kind != ErrorReply
    {
      hide InOrder, replies.Valid, replies.Contents, Answers, Calls, Played, Asks;
      InOrderCounts(accepted, served, Pending(), received);
      assert Answers(input)[|received|] == reply;
      if reply.kind == ErrorReply {
        Fail();
      } else {
        aborted := true;
      }
    }

    /** An answer and the callback it is for. */
    method Deliver(cb: Callback, reply: Reply) returns (more: bool)
      requires Waiting(served + [Served(cb, Some(reply))]) && !inCallback && !err && !freeing
      requires |served| + 1 == |received|
      requires Answers(input) == received + Answers(inbox)
      modifies this, replies, replies.nodes
      ensures Grown() && Dispatched(more) && received == old(received) && (more <==> !freeing)
      ensures more ==> accepted == old(accepted) + Accepts(ScriptOf(cb, old(scripts)), old(disconnecting))
      ensures more ==> scripts == ScriptsAfter(cb, old(scripts))
      ensures more ==> disconnecting == (old(disconnecting) || Disconnect in ScriptOf(cb, old(scripts)))
    {
      hide InOrder, replies.Valid, replies.Contents, Answers, Calls, Accepts, Asks;
      PlayNothing();
      if cb.fn {
        RunCallback(cb, Some(reply));
        if freeing {
          DoFree();
          return false;
        }
      } else {
        CallsSnoc(served, Served(cb, Some(reply)));
        served := served + [Served(cb, Some(reply))];
      }
      more := true;
    }

    /** One answer, taken from the reader: to the oldest callback, or to nobody. */
    method Dispatch(reply: Reply) returns (more: bool)
      requires Core() && !inCallback && !err && !freeing && |served| == |received| && reply.kind != Push
      requires Answers(input) == received + ([reply] + Answers(inbox))
      modifies this, replies, replies.nodes
      ensures Grown() && Dispatched(more)
      ensures old(Pending()) != [] ==> received == old(received) + [reply] && (more <==> !freeing)
      ensures old(Pending()) == [] ==> !more && received == old(received) && accepted == old(accepted)
      ensures old(|received| < |accepted|) <==> old(Pending()) != []
      ensures more ==> Now() == Give(old(Now()))
    {
      hide InOrder, replies.Valid, replies.Contents, Answers, Calls, Played, Asks, Accepts;
      ghost var queue := Pending();
      NextInLine(accepted, served, queue, received);
      var cb := replies.Shift();
      assert Grown();
      if cb == None {
        Unsolicited(reply);
        return false;
      }
      ServeReply(accepted, served, queue, received, cb.value, Pending(), reply);
      assert received + ([reply] + Answers(inbox)) == received + [reply] + Answers(inbox);
      received := received + [reply];
      more := Deliver(cb.value, reply);
    }

    /** redisProcessCallbacks. */
    method ProcessCallbacks()
      requires Matched()
      modifies this, replies, replies.nodes
      ensures Settled() && Grown() && input == old(input) && Asked(false)
      ensures !freed && !aborted && !err ==> !(disconnecting && obuf == 0 && Pending() == [])
      ensures old(malformed) && !aborted ==> freed || err
      ensures err ==> old(malformed) || Refused()
      ensures received == Answers(input) || Surplus() || old(Asks(scripts, Free))
      ensures !freeing && (err ==> !old(malformed)) ==> At(GiveAll(old(Now()), old(|Answers(inbox)|)))
    {
      hide InOrder, replies.Valid, replies.Contents, Answers, Calls, Played, Asks, Accepts, Give;
      while true
        invariant Matched() && Grown() && input == old(input) && malformed == old(malformed) && Asked(false)
        invariant GiveAll(Now(), |Answers(inbox)|) == GiveAll(old(Now()), old(|Answers(inbox)|))
        decreases |inbox|
      {
        AnswersStep(inbox);
        if inbox == [] {
          assert received + [] == received;
          if malformed { break; }
          var empty := replies.IsEmpty();
          if disconnecting && obuf == 0 && empty { DoDisconnect(); }
          return;
        }
        var reply := inbox[0];
        inbox := inbox[1..];
        if reply.kind == Push { continue; }
        var more := Dispatch(reply);
        if !more { return; }
      }
      Fail();
    }

    /** __redisAsyncHandleConnect; false when the context is gone or still not connected. */
    method HandleConnect(c: Connect) returns (go: bool)
      requires Idle()
      modifies this, replies, replies.nodes
      ensures Settled() && Grown() && !aborted && input == old(input) && Asked(c == Completed)
      ensures go <==> (old(connected) || c == Completed)
      ensures go ==> Idle() && connected && err == old(err) && Pending() == old(Pending()) && obuf == old(obuf)
      ensures received == old(received) && accepted == old(accepted)
      ensures !go && c == Failed ==> err
      ensures go || c == InProgress ==> Now() == old(Now()) && freeing == old(freeing)
      ensures !go && c == InProgress ==> Idle() && !connected && err == old(err)
    {
      hide InOrder, replies.Valid, replies.Contents, Answers, Calls, Played, Asks;
      if connected { return true; }
      match c {
        case Failed => Fail(); go := false;
        case InProgress => go := false;
        case Completed => connected := true; go := true;
      }
    }

    /** redisAsyncHandleRead: a batch of replies comes in, or the read fails. */
    method HandleRead(c: Connect, batch: seq<Reply>, bad: bool, fails: bool)
      requires Idle()
      modifies this, replies, replies.nodes
      ensures Settled() && Grown() && Asked(c == Completed)
      ensures input == old(input) + (if (old(connected) || c == Completed) && !old(err) && !fails then batch else [])
      ensures (old(connected) || c == Completed) && (old(err) || fails || bad) && !aborted ==> freed || err
      ensures !old(connected) && c == Failed ==> err
      ensures err ==> old(err) || c == Failed || bad || fails || Refused()
      ensures old(err) ==> err && received == old(received) && accepted == old(accepted)
      ensures received == Answers(input) || Surplus() || old(Asks(scripts, Free))
      ensures !freeing && !old(err) && (err ==> c != Failed && !bad && !fails) ==>
                At(GiveAll(old(Now()), if (old(connected) || c == Completed) && !fails then |Answers(batch)| else 0))
      ensures (old(connected) || c == Completed) && !freed && !aborted && !err ==>
                !(disconnecting && obuf == 0 && Pending() == [])
    {
      hide InOrder, replies.Valid, replies.Contents, Answers, Calls, Played, Asks;
      var go := HandleConnect(c);
      if !go { return; }
      if err || fails {
        Fail();
        return;
      }
      InOrderCounts(accepted, served, Pending(), received);
      AnswersAppend(input, batch);
      input := input + batch;
      inbox, malformed := batch, bad;
      ProcessCallbacks();
    }

    /** redisAsyncHandleWrite: `sent` commands leave the output buffer, or the write fails. */
    method HandleWrite(c: Connect, sent: nat, fails: bool)
      requires Idle()
      modifies this, replies, replies.nodes
      ensures Settled() && Grown() && !aborted && input == old(input) && Asked(c == Completed)
      ensures (old(connected) || c == Completed) && (old(err) || fails) ==> err
      ensures !old(connected) && c == Failed ==> err
      ensures (old(err) ==> err) && (err ==> old(err) || c == Failed || fails)
      ensures !err ==> Now() == old(Now())
      ensures received == old(received) && accepted == old(accepted)
      ensures (old(connected) || c == Completed) && !old(err) && !fails ==>
                Idle() && Pending() == old(Pending()) && obuf == if sent < old(obuf) then old(obuf) - sent else 0
    {
      hide InOrder, replies.Valid, replies.Contents, Answers, Calls, Played, Asks;
      var go := HandleConnect(c);
      if !go { return; }
      if err || fails {
        Fail();
        return;
      }
      obuf := if sent < obuf then obuf - sent else 0;
    }

    /** redisAsyncHandleTimeout. */
    method HandleTimeout()
      requires Idle()
      modifies this, replies, replies.nodes
      ensures Settled() && Grown() && !aborted && input == old(input) && received == old(received) && Asked(false)
      ensures old(connected) && old(Pending()) == [] ==> Idle() && err == old(err) && Now() == old(Now())
      ensures !(old(connected) && old(Pending()) == []) ==> err && (!freed ==> Pending() == [])
      ensures old(err) ==> accepted == old(accepted)
    {
      hide InOrder, replies.Valid, replies.Contents, Answers, Calls, Played, Asks, Accepts, Issues, AllIssues;
      var empty := replies.IsEmpty();
      if connected && empty { return; }
      err := true;
      while true
        invariant Core() && !inCallback && err && Grown() && input == old(input) && received == old(received)
        invariant Asked(false)
        invariant received == Answers(input) || (disconnecting && Refused())
        invariant old(err) ==> disconnecting && accepted == old(accepted)
        decreases |Pending()| + AllIssues(scripts)
      {
        var more := ServeNext();
        if !more { break; }
      }
      Fail();
    }

    /** What an event brings about has its cause in the event, in the scripts or in an answer too many. */
    twostate predicate Caused(e: Event)
      reads this
    {
      && Fewer() && (old(disconnecting) || e == Disconnected ==> disconnecting) && (old(freeing) ==> freeing)
      && (freeing ==> old(freeing || Asks(scripts, Free)) || e == Freed)
      && (disconnecting && !err ==> old(disconnecting || Asks(scripts, Disconnect)) || e == Disconnected)
      && (err ==> old(err) || Fault(e) || Refused())
      && (old(err) ==> err && received == old(received) && input == old(input) && accepted == old(accepted))
      && (received == Answers(input) || Surplus() || (freed && old(Asks(scripts, Free))))
    }

    /** What an event adds: replies, unless the context has failed before, and a command, unless it is refused. */
    twostate predicate Adds(e: Event)
      reads this
    {
      && input == old(input) + (if old(err) then [] else Incoming(e, old(connected)))
      && connected == (old(connected) || Connects(e))
      && old(accepted) <= accepted
      && (old(scripts) == [] || e.Commanded? ==>
            accepted == old(accepted) + (if e.Commanded? && !old(disconnecting || freeing) then [e.cb] else []))
    }

    /** A request to free, a fault and a timeout are acted upon, and so is a disconnect once nothing is pending. */
    twostate predicate Acted(e: Event)
      reads this, replies, replies.nodes
    {
      && (e == Freed || (e == Disconnected && old(Pending()) == []) ==> freed)
      && (Fatal(e, old(connected)) || (e == TimedOut && old(Pending()) != []) ==> err || freed || aborted)
      && (e.Commanded? ==> obuf == old(obuf) + |accepted| - |old(accepted)|)
      && (e.Writable? && (old(connected) || e.connect == Completed) && !old(err) && !e.fails ==>
            obuf == if e.sent < old(obuf) then old(obuf) - e.sent else 0)
      && (e.Readable? && (old(connected) || e.connect == Completed) && !freed && !aborted && !err ==>
            !(disconnecting && obuf == 0 && Pending() == []))
    }

    /** As long as the connection holds and nobody frees the context, an event takes it one step further. */
    twostate predicate Follows(e: Event)
      reads this
    {
      !freeing && !old(err) && (err ==> !Fault(e)) ==> At(StepCourse(old(Now()), e, old(connected)))
    }

    /** One event of a run. */
    method Handle(e: Event)
      requires Idle()
      modifies this, replies, replies.nodes
      ensures Settled() && Grown() && Caused(e) && Adds(e) && Follows(e) && Acted(e)
    {
      hide InOrder, replies.Valid, replies.Contents, Answers, Calls, Played, Asks, Give;
      AnswersStep([]);
      match e {
        case Commanded(cb) => var _ := Command(cb);
        case Disconnected => AsyncDisconnect();
        case Freed => AsyncFree();
        case Readable(c, batch, bad, fails) => HandleRead(c, batch, bad, fails);
        case Writable(c, sent, fails) => HandleWrite(c, sent, fails);
        case TimedOut => HandleTimeout();
      }
    }
  }

  /** What the connection attempt shows when the socket first becomes ready. */
  datatype Connect = Failed | InProgress | Completed

  datatype Event =
    | Commanded(cb: Callback)
    | Disconnected
    | Freed
    | Readable(connect: Connect, batch: seq<Reply>, bad: bool, fails: bool)
    | Writable(connect: Connect, sent: nat, fails: bool)
    | TimedOut

  /** The events that may fail the connection. */
  predicate Fault(e: Event) {
    match e
    case Readable(c, _, bad, fails) => c == Failed || bad || fails
    case Writable(c, _, fails) => c == Failed || fails
    case _ => e == TimedOut
  }

  /** The events that do fail it, depending on whether it has been made. */
  predicate Fatal(e: Event, connected: bool) {
    match e
    case Readable(c, _, bad, fails) => if connected || c == Completed then bad || fails else c == Failed
    case Writable(c, _, fails) => if connected || c == Completed then fails else c == Failed
    case TimedOut => !connected
    case _ => false
  }

  predicate Fails(events: seq<Event>) {
    exists i :: 0 <= i < |events| && Fatal(events[i], Connected(events[..i]))
  }

  lemma FailsSnoc(events: seq<Event>, i: nat)
    requires i < |events|
    ensures Fails(events[..i + 1]) <==> Fails(events[..i]) || Fatal(events[i], Connected(events[..i]))
  {
    hide Fatal, Connected;
    var now, upto := events[..i], events[..i + 1];
    assert forall j :: 0 <= j <= i ==> upto[j] == events[j] && upto[..j] == events[..j];
    assert forall j :: 0 <= j < i ==> now[j] == events[j] && now[..j] == events[..j];
    if j :| 0 <= j < |now| && Fatal(now[j], Connected(now[..j])) { assert Fatal(upto[j], Connected(upto[..j])); }
    if Fatal(events[i], Connected(events[..i])) { assert Fatal(upto[i], Connected(upto[..i])); }
    if j :| 0 <= j < |upto| && Fatal(upto[j], Connected(upto[..j])) {
      if j < i { assert Fatal(now[j], Connected(now[..j])); }
    }
  }

  predicate Connects(e: Event) { (e.Readable? || e.Writable?) && e.connect == Completed }

  /** The replies an event brings. */
  function Incoming(e: Event, connected: bool): seq<Reply> {
    if e.Readable? && (connected || e.connect == Completed) && !e.fails then e.batch else []
  }

  predicate Connected(events: seq<Event>) { exists i :: 0 <= i < |events| && Connects(events[i]) }

  /** All that the events bring. */
  function Inputs(events: seq<Event>): seq<Reply> {
    var n := |events| - 1;
    if events == [] then [] else Inputs(events[..n]) + Incoming(events[n], Connected(events[..n]))
  }

  /** One event, as long as the connection holds. */
  function StepCourse(c: Course, e: Event, connected: bool): Course {
    if c.stuck then c
    else match e
      case Commanded(cb) => if c.refusing then c else c.(accepted := c.accepted + [cb])
      case Disconnected => c.(refusing := true)
      case _ => GiveAll(c, |Answers(Incoming(e, connected))|)
  }

  /** The course of a run with these scripts and events, as long as the connection holds. */
  function CourseOf(scripts: seq<seq<Action>>, events: seq<Event>): Course {
    var n := |events| - 1;
    if events == [] then Course([], 0, scripts, false, false)
    else StepCourse(CourseOf(scripts, events[..n]), events[n], Connected(events[..n]))
  }

  /** The commands among the events, up to a request to disconnect. */
  function Commands(events: seq<Event>): seq<Callback> {
    var n := |events| - 1;
    if events == [] then []
    else Commands(events[..n]) + (if events[n].Commanded? && Disconnected !in events[..n] then [events[n].cb] else [])
  }

  predicate Faults(events: seq<Event>) { exists i :: 0 <= i < |events| && Fault(events[i]) }

  lemma EventsSnoc(events: seq<Event>, i: nat)
    requires i < |events|
    ensures var now, upto := events[..i], events[..i + 1];
            && (Faults(upto) <==> Faults(now) || Fault(events[i]))
            && (Connected(upto) <==> Connected(now) || Connects(events[i]))
            && Inputs(upto) == Inputs(now) + Incoming(events[i], Connected(now))
            && Commands(upto) ==
                 Commands(now) + (if events[i].Commanded? && Disconnected !in now then [events[i].cb] else [])
            && (Disconnected in upto <==> Disconnected in now || events[i] == Disconnected)
            && (Freed in upto <==> Freed in now || events[i] == Freed)
  {
    hide Fault, Connects, Incoming;
    var now, upto := events[..i], events[..i + 1];
    assert upto == now + [events[i]] && upto[..i] == now;
    if Faults(now) {
      var j :| 0 <= j < |now| && Fault(now[j]);
      assert Fault(upto[j]);
    }
    if Connected(now) {
      var j :| 0 <= j < |now| && Connects(now[j]);
      assert Connects(upto[j]);
    }
    if Fault(events[i]) { assert Fault(upto[i]); }
    if Connects(events[i]) { assert Connects(upto[i]); }
  }

  /** The k-th answer went to the k-th command; commands without one got none. */
  ghost predicate Paired(accepted: seq<Callback>, served: seq<Served>, received: seq<Reply>) {
    && |received| <= |served| <= |accepted|
    && forall k :: 0 <= k < |served| ==>
         served[k] == Served(accepted[k], if k < |received| then Some(received[k]) else None)
  }

  lemma PairedUp(accepted: seq<Callback>, served: seq<Served>, queue: seq<Callback>, received: seq<Reply>)
    requires InOrder(accepted, served, queue, received)
    ensures Paired(accepted, served, received) && (queue == [] ==> |served| == |accepted|)
  {
    forall k | 0 <= k < |served|
      ensures served[k] == Served(accepted[k], if k < |received| then Some(received[k]) else None)
    {
      assert accepted[k] == Callbacks(served)[k];
    }
  }

  /** The causes of what has happened to the context after the events handled so far. */
  ghost predicate Explained(ac: Context, scripts: seq<seq<Action>>, events: seq<Event>)
    reads ac
  {
    && (Asks(ac.scripts, Free) ==> Asks(scripts, Free)) && (Asks(ac.scripts, Disconnect) ==> Asks(scripts, Disconnect))
    && (ac.freeing ==> Freed in events || Asks(scripts, Free)) && (Freed in events ==> ac.freed)
    && (Fails(events) ==> ac.err || ac.freed || ac.aborted)
    && (Disconnected in events ==> ac.disconnecting)
    && (ac.disconnecting && !ac.err ==> Disconnected in events || Asks(scripts, Disconnect))
    && (ac.err ==> Faults(events) || ac.Refused())
    && (ac.received == Answers(ac.input) || ac.Surplus() || (ac.freed && Asks(scripts, Free)))
    && ac.input <= Inputs(events) && (!ac.err ==> ac.input == Inputs(events)) && ac.connected == Connected(events)
    && (scripts == [] ==> ac.scripts == [])
    && (scripts == [] && !ac.err ==> ac.accepted == Commands(events))
    && (!ac.freeing && (ac.err ==> !Faults(events)) ==> ac.At(CourseOf(scripts, events)))
  }

  lemma NoneAsked()
    ensures !Asks([], Free) && !Asks([], Disconnect)
  {
  }

  lemma CourseSnoc(scripts: seq<seq<Action>>, events: seq<Event>, i: nat)
    requires i < |events|
    ensures CourseOf(scripts, events[..i + 1]) ==
              StepCourse(CourseOf(scripts, events[..i]), events[i], Connected(events[..i]))
  {
    hide StepCourse, Connected;
    assert events[..i + 1][..i] == events[..i];
  }

  /** One event of the run, explained. */
  method Advance(ac: Context, ghost scripts: seq<seq<Action>>, events: seq<Event>, i: nat)
    requires i < |events| && ac.Idle() && !ac.freed && !ac.aborted && Explained(ac, scripts, events[..i])
    modifies ac, ac.replies, ac.replies.nodes
    ensures ac.Settled() && ac.Grown() && Explained(ac, scripts, events[..i + 1])
  {
    hide Answers, Asks, Faults, Fault, Connected, Connects, Inputs, Incoming, Commands, Calls, InOrder, ac.Settled,
         ac.Core, ac.Grown, CourseOf, GiveAll, Fails, Fatal;
    EventsSnoc(events, i);
    FailsSnoc(events, i);
    CourseSnoc(scripts, events, i);
    NoneAsked();
    ac.Handle(events[i]);
  }

  /** What settled and explained come to. */
  lemma Outcome(ac: Context, scripts: seq<seq<Action>>, events: seq<Event>)
    requires ac.Settled() && Explained(ac, scripts, events)
    ensures Paired(ac.accepted, ac.served, ac.received) && ac.received <= Answers(ac.input)
    ensures ac.calls == Calls(ac.served)
    ensures ac.freed || ac.aborted ==> |ac.served| == |ac.accepted| && |ac.notified| <= 1
    ensures !ac.freed && !ac.err ==> |ac.served| == |ac.received|
    ensures ac.aborted ==> ac.Surplus() && Answers(ac.input)[|ac.received|].kind != ErrorReply
    ensures ac.freed && !ac.err ==>
              Freed in events || Disconnected in events || Asks(scripts, Free) || Asks(scripts, Disconnect)
  {
    hide Answers, Asks, Faults, Connected, Inputs, Commands, Calls, InOrder, Paired, ac.replies.Valid;
    var queue := if ac.freed || ac.aborted then [] else ac.Pending();
    PairedUp(ac.accepted, ac.served, queue, ac.received);
    InOrderCounts(ac.accepted, ac.served, queue, ac.received);
  }

  lemma NothingExplained()
    ensures Inputs([]) == [] && Commands([]) == [] && !Connected([]) && Answers([]) == [] && !Fails([])
  {
  }

  method Start(noAutoFree: bool, scripts: seq<seq<Action>>) returns (ac: Context)
    ensures fresh(ac) && fresh(ac.replies) && fresh(ac.replies.nodes) && ac.Idle() && Explained(ac, scripts, [])
  {
    hide Answers, Asks, Faults, Connected, Inputs, Commands, Calls, InOrder;
    ac := new Context(noAutoFree, scripts);
    NothingExplained();
  }

  /**
   Any run, until the context is gone: the k-th answer goes to the k-th accepted command.  Every answer
   read is given out, unless a callback frees the context or there are more answers than commands.
   Only a fault of the connection or a refusal by the server sets the error, only an answer too many
   stops the process, and nothing frees the context unasked.  Once it is gone every accepted callback
   has been served exactly once.
   */
  method Run(noAutoFree: bool, scripts: seq<seq<Action>>, events: seq<Event>) returns (ac: Context, n: nat)
    ensures n <= |events| && (n == |events| || ac.freed || ac.aborted) && ac.Settled()
    ensures Paired(ac.accepted, ac.served, ac.received) && ac.received <= Answers(ac.input)
    ensures ac.calls == Calls(ac.served)
    ensures ac.freed || ac.aborted ==> |ac.served| == |ac.accepted| && |ac.notified| <= 1
    ensures !ac.freed && !ac.err ==> |ac.served| == |ac.received|
    ensures ac.received == Answers(ac.input) || ac.Surplus() || (ac.freed && Asks(scripts, Free))
    ensures ac.err ==> Faults(events[..n]) || ac.Refused()
    ensures ac.aborted ==> ac.Surplus() && Answers(ac.input)[|ac.received|].kind != ErrorReply
    ensures ac.freed && !ac.err ==>
              Freed in events[..n] || Disconnected in events[..n] || Asks(scripts, Free) || Asks(scripts, Disconnect)
    ensures ac.input <= Inputs(events[..n]) && (!ac.err ==> ac.input == Inputs(events[..n]))
    ensures !ac.err && scripts == [] ==> ac.accepted == Commands(events[..n])
    ensures !ac.freeing && (ac.err ==> !Faults(events[..n])) ==> ac.At(CourseOf(scripts, events[..n]))
    ensures ac.freeing ==> Freed in events[..n] || Asks(scripts, Free)
    ensures Freed in events[..n] ==> ac.freed
    ensures Fails(events[..n]) ==> ac.err || ac.freed || ac.aborted
  {
    hide Answers, Asks, Faults, Connected, Inputs, Commands, Calls, InOrder, Paired, CourseOf;
    ac := Start(noAutoFree, scripts);
    n := 0;
    assert events[..0] == [];
    while n < |events| && !ac.freed && !ac.aborted
      invariant n <= |events| && ac.Settled() && Explained(ac, scripts, events[..n])
      invariant fresh(ac) && fresh(ac.replies) && fresh(ac.replies.nodes)
    {
      hide Explained;
      Advance(ac, scripts, events, n);
      n := n + 1;
    }
    Outcome(ac, scripts, events[..n]);
  }

  /**
   A run without faults, in which nobody disconnects or frees: which commands are accepted and whether
   there is an answer too many can be read off the scripts and the events.
   */
  method CleanRun(noAutoFree: bool, scripts: seq<seq<Action>>, events: seq<Event>) returns (ac: Context)
    requires !Faults(events) && Freed !in events && Disconnected !in events
    requires !Asks(scripts, Free) && !Asks(scripts, Disconnect)
    ensures CourseOf(scripts, events).stuck <==> ac.err || ac.aborted
    ensures !CourseOf(scripts, events).stuck ==>
              && !ac.freed && ac.accepted == CourseOf(scripts, events).accepted
              && ac.received == Answers(Inputs(events)) && |ac.served| == |Answers(Inputs(events))| <= |ac.accepted|
              && forall k :: 0 <= k < |ac.served| ==>
                   ac.served[k] == Served(ac.accepted[k], Some(Answers(Inputs(events))[k]))
  {
    hide Answers, Asks, Connected, Inputs, Commands, Calls, InOrder, CourseOf;
    var n;
    ac, n := Run(noAutoFree, scripts, events);
    NoFaults(events, n);
    assert n == |events| ==> events[..n] == events;
    if CourseOf(scripts, events[..n]).stuck { StuckStays(scripts, events, n); }
  }

  lemma {:induction false} StuckStays(scripts: seq<seq<Action>>, events: seq<Event>, n: nat)
    requires n <= |events| && CourseOf(scripts, events[..n]).stuck
    ensures CourseOf(scripts, events).stuck
    decreases |events| - n
  {
    if n == |events| {
      assert events[..n] == events;
    } else {
      CourseSnoc(scripts, events, n);
      StuckStays(scripts, events, n + 1);
    }
  }

  // ----- the commands of a course -----

  /** The commands the scripts issue. */
  function Issued(script: seq<Action>): seq<Callback> {
    if script == [] then [] else (if script[0].Issue? then [script[0].cb] else []) + Issued(script[1..])
  }

  function IssuedBy(scripts: seq<seq<Action>>): seq<Callback> {
    if scripts == [] then [] else Issued(scripts[0]) + IssuedBy(scripts[1..])
  }

  /** A callback that neither disconnects nor frees has all its commands accepted. */
  lemma {:induction false} AcceptsAll(script: seq<Action>)
    requires Disconnect !in script && Free !in script
    ensures Accepts(script, false) == Issued(script)
  {
    if script != [] {
      assert script == [script[0]] + script[1..];
      AcceptsAll(script[1..]);
    }
  }

  lemma {:induction false} IssuedByJoin(a: seq<seq<Action>>, b: seq<seq<Action>>)
    ensures IssuedBy(a + b) == IssuedBy(a) + IssuedBy(b)
  {
    if a == [] {
      assert a + b == b;
    } else {
      assert (a + b)[1..] == a[1..] + b;
      IssuedByJoin(a[1..], b);
    }
  }

  /** From c to d the scripts `used` are called, and all they issue is accepted unless one disconnects. */
  ghost predicate Leads(c: Course, d: Course, used: seq<seq<Action>>) {
    && c.scripts == used + d.scripts && (c.stuck ==> d.stuck) && (c.refusing ==> d.refusing)
    && (!d.refusing ==> multiset(d.accepted) == multiset(c.accepted) + multiset(IssuedBy(used)))
  }

  lemma LeadsNowhere(c: Course, stuck: bool)
    requires c.stuck ==> stuck
    ensures Leads(c, c.(stuck := stuck), [])
  {
    assert [] + c.scripts == c.scripts;
  }

  lemma LeadsOn(c: Course, d: Course, e: Course, a: seq<seq<Action>>, b: seq<seq<Action>>)
    requires Leads(c, d, a) && Leads(d, e, b)
    ensures Leads(c, e, a + b)
  {
    hide IssuedBy;
    IssuedByJoin(a, b);
    assert a + (b + e.scripts) == a + b + e.scripts;
  }

  lemma GiveLeads(c: Course) returns (used: seq<seq<Action>>)
    requires c.given < |c.accepted| && !Asks(c.scripts, Free)
    ensures Leads(c, Give(c), used) && !Asks(Give(c).scripts, Free)
  {
    hide Asks, Accepts, Issued;
    var cb, d := c.accepted[c.given], Give(c);
    if cb.fn && c.scripts != [] {
      var script := c.scripts[0];
      AsksTail(c.scripts, Free);
      used := [script];
      assert c.scripts == used + d.scripts && used[1..] == [];
      assert IssuedBy(used) == Issued(script) + [] == Issued(script);
      if !d.refusing { AcceptsAll(script); }
    } else {
      used := [];
      PlayedNothing(c.refusing);
      assert c.accepted + [] == c.accepted && used + d.scripts == c.scripts;
    }
  }

  lemma PlayedNothing(refusing: bool)
    ensures Accepts([], refusing) == []
  {
  }

  lemma {:induction false} GiveAllLeads(c: Course, n: nat) returns (used: seq<seq<Action>>)
    requires !Asks(c.scripts, Free)
    ensures Leads(c, GiveAll(c, n), used) && !Asks(GiveAll(c, n).scripts, Free)
    ensures !GiveAll(c, n).stuck ==> GiveAll(c, n).given == c.given + n
    decreases n
  {
    hide Asks, Give, Leads;
    if n == 0 {
      LeadsNowhere(c, c.stuck);
      used := [];
    } else if c.given >= |c.accepted| {
      LeadsNowhere(c, true);
      used := [];
    } else {
      var a := GiveLeads(c);
      var b := GiveAllLeads(Give(c), n - 1);
      LeadsOn(c, Give(c), GiveAll(c, n), a, b);
      used := a + b;
      GivenOne(c);
    }
  }

  lemma GivenOne(c: Course)
    requires c.given < |c.accepted|
    ensures Give(c).given == c.given + 1
  {
  }

  function CommandOf(e: Event): seq<Callback> { if e.Commanded? then [e.cb] else [] }

  lemma StepLeads(c: Course, e: Event, connected: bool) returns (used: seq<seq<Action>>)
    requires !Asks(c.scripts, Free) && !c.stuck
    ensures var d := StepCourse(c, e, connected);
            && c.scripts == used + d.scripts && !Asks(d.scripts, Free) && (c.refusing || e.Disconnected? ==> d.refusing)
            && (!d.refusing ==>
                  multiset(d.accepted) == multiset(c.accepted) + multiset(CommandOf(e)) + multiset(IssuedBy(used)))
            && (!d.stuck ==> d.given == c.given + |Answers(Incoming(e, connected))|)
  {
    hide Asks, GiveAll, Answers;
    AnswersStep([]);
    if e.Commanded? || e.Disconnected? {
      used := [];
      assert used + c.scripts == c.scripts;
    } else {
      used := GiveAllLeads(c, |Answers(Incoming(e, connected))|);
    }
  }

  /**
   The commands accepted are those of the events and those issued by the scripts that were used, as
   long as nobody disconnects; and as many answers are given out as the events bring.
   */
  lemma {:induction false} CourseAccepts(scripts: seq<seq<Action>>, events: seq<Event>)
    returns (used: seq<seq<Action>>)
    requires !Asks(scripts, Free)
    ensures var c := CourseOf(scripts, events);
            && scripts == used + c.scripts && !Asks(c.scripts, Free)
            && (!c.stuck ==> c.given == |Answers(Inputs(events))| && (Disconnected in events ==> c.refusing))
            && (!c.stuck && !c.refusing ==>
                  multiset(c.accepted) == multiset(Commands(events)) + multiset(IssuedBy(used)))
  {
    hide Asks, Answers, Connected, StepCourse, Incoming, IssuedBy, CourseOf, Commands, Inputs;
    if events == [] {
      used := [];
      NothingIssued(scripts);
      assert used + scripts == scripts;
    } else {
      var n := |events| - 1;
      var b, e, on := CourseOf(scripts, events[..n]), events[n], Connected(events[..n]);
      used := CourseAccepts(scripts, events[..n]);
      LastEvent(scripts, events);
      if b.stuck {
        StuckStep(b, e, on);
      } else {
        AnswersAppend(Inputs(events[..n]), Incoming(e, on));
        var a := StepLeads(b, e, on);
        IssuedByJoin(used, a);
        assert used + (a + StepCourse(b, e, on).scripts) == used + a + StepCourse(b, e, on).scripts;
        used := used + a;
      }
    }
  }

  lemma LastEvent(scripts: seq<seq<Action>>, events: seq<Event>)
    requires events != []
    ensures var n := |events| - 1;
            var past, e, on := events[..n], events[n], Connected(events[..n]);
            && CourseOf(scripts, events) == StepCourse(CourseOf(scripts, past), e, on)
            && Inputs(events) == Inputs(past) + Incoming(e, on)
            && (Disconnected in events <==> Disconnected in past || e == Disconnected)
            && (Disconnected !in past ==> Commands(events) == Commands(past) + CommandOf(e))
  {
    hide StepCourse, Connected, Incoming;
    assert events == events[..|events| - 1] + [events[|events| - 1]];
  }

  lemma NothingIssued(scripts: seq<seq<Action>>)
    ensures IssuedBy([]) == [] && CourseOf(scripts, []) == Course([], 0, scripts, false, false)
    ensures Commands([]) == [] && Answers(Inputs([])) == []
  {
  }

  lemma StuckStep(c: Course, e: Event, connected: bool)
    requires c.stuck
    ensures StepCourse(c, e, connected) == c
  {
  }

  lemma {:induction false} GiveAllEnough(c: Course, n: nat)
    requires !c.stuck && c.given + n <= |c.accepted| && !c.refusing && !Asks(c.scripts, Disconnect)
    ensures !GiveAll(c, n).stuck && !GiveAll(c, n).refusing && !Asks(GiveAll(c, n).scripts, Disconnect)
    decreases n
  {
    hide Asks, Accepts;
    if n > 0 {
      if c.scripts != [] { AsksTail(c.scripts, Disconnect); }
      GiveAllEnough(Give(c), n - 1);
    }
  }

  /** If every answer comes after a command of its own among the events, there is never one too many. */
  lemma {:induction false} NeverStuck(scripts: seq<seq<Action>>, events: seq<Event>)
    requires !Asks(scripts, Free) && !Asks(scripts, Disconnect) && Disconnected !in events
    requires forall k :: 0 <= k <= |events| ==> |Answers(Inputs(events[..k]))| <= |Commands(events[..k])|
    ensures var c := CourseOf(scripts, events); !c.stuck && !c.refusing && !Asks(c.scripts, Disconnect)
  {
    hide Asks, Answers, Connected, GiveAll, Incoming, IssuedBy, CourseOf, Commands, Inputs;
    if events == [] {
      NothingIssued(scripts);
    } else {
      var n := |events| - 1;
      var past, e := events[..n], events[n];
      var b, on := CourseOf(scripts, past), Connected(past);
      LastEvent(scripts, events);
      assert forall k :: 0 <= k <= n ==> past[..k] == events[..k];
      NeverStuck(scripts, past);
      var used := CourseAccepts(scripts, past);
      assert |b.accepted| == |multiset(b.accepted)| >= |multiset(Commands(past))| == |Commands(past)|;
      AnswersAppend(Inputs(past), Incoming(e, on));
      assert events[..n + 1] == events;
      if !e.Commanded? && !e.Disconnected? { GiveAllEnough(b, |Answers(Incoming(e, on))|); }
    }
  }

  lemma NoFaults(events: seq<Event>, n: nat)
    requires n <= |events| && !Faults(events)
    ensures !Faults(events[..n])
  {
  }
}
