/**
 The pool of Redis connections of a worker (src/pool.c): slots filled and emptied by connection
 events, reconnection timers, and the rotating search for a usable connection.
 */
module Pool {
  import opened Bytes

  // ----- slots -----

  /** Each used slot holds a connection of its own, alive and connected. */
  ghost predicate Placed(s: seq<Option<nat>>, connected: set<nat>) {
    && (forall i :: 0 <= i < |s| && s[i].Some? ==> s[i].value in connected)
    && (forall i, j :: 0 <= i < j < |s| && s[i].Some? ==> s[i] != s[j])
  }

  ghost predicate AllPlaced(s: seq<Option<nat>>, connected: set<nat>) {
    forall c :: c in connected ==> Some(c) in s
  }

  /** Slots that are all used hold as many connections as there are slots. */
  lemma {:induction false} AllUsed(s: seq<Option<nat>>, connected: set<nat>)
    requires Placed(s, connected) && forall i :: 0 <= i < |s| ==> s[i].Some?
    ensures |connected| >= |s|
  {
    if s != [] {
      var last := s[|s| - 1].value;
      var rest := s[..|s| - 1];
      assert last in connected;
      assert Placed(rest, connected - {last});
      AllUsed(rest, connected - {last});
    }
  }

  lemma FillSlot(s: seq<Option<nat>>, connected: set<nat>, i: nat, id: nat)
    requires Placed(s, connected) && i < |s| && s[i] == None && id !in connected
    ensures Placed(s[i := Some(id)], connected + {id})
    ensures AllPlaced(s, connected) ==> AllPlaced(s[i := Some(id)], connected + {id})
  {
    var t := s[i := Some(id)];
    assert t[i] == Some(id);
    if AllPlaced(s, connected) {
      forall c | c in connected + {id} ensures Some(c) in t {
        if c != id {
          var k :| 0 <= k < |s| && s[k] == Some(c);
          assert t[k] == Some(c);
        }
      }
    }
  }

  /** A connection in the first free slot; nowhere if there is none. */
  function Fill(s: seq<Option<nat>>, id: nat): seq<Option<nat>> {
    if s == [] then []
    else if s[0] == None then [Some(id)] + s[1..]
    else [s[0]] + Fill(s[1..], id)
  }

  lemma {:induction false} FillFirst(s: seq<Option<nat>>, id: nat, i: nat)
    requires i <= |s| && (forall k :: 0 <= k < i ==> s[k] != None) && (i < |s| ==> s[i] == None)
    ensures Fill(s, id) == if i < |s| then s[i := Some(id)] else s
  {
    if s != [] && i > 0 {
      var rest := s[1..];
      FillFirst(rest, id, i - 1);
      if i < |s| { assert s[i := Some(id)] == [s[0]] + rest[i - 1 := Some(id)]; } else { assert s == [s[0]] + rest; }
    }
  }

  lemma ClearSlot(s: seq<Option<nat>>, connected: set<nat>, i: nat, id: nat)
    requires Placed(s, connected) && i < |s| && s[i] == Some(id)
    ensures Placed(s[i := None], connected - {id})
    ensures AllPlaced(s, connected) ==> AllPlaced(s[i := None], connected - {id})
    ensures forall k :: 0 <= k < |s| && k != i ==> s[k] != Some(id)
  {
    var t := s[i := None];
    if AllPlaced(s, connected) {
      forall c | c in connected - {id} ensures Some(c) in t {
        var k :| 0 <= k < |s| && s[k] == Some(c);
        assert t[k] == Some(c);
      }
    }
  }

  lemma MorePlaced(s: seq<Option<nat>>, connected: set<nat>, id: nat)
    requires Placed(s, connected)
    ensures Placed(s, connected + {id})
  {
  }

  lemma NoSlot(s: seq<Option<nat>>, connected: set<nat>, id: nat)
    requires Placed(s, connected) && Some(id) !in s
    ensures Placed(s, connected - {id})
    ensures AllPlaced(s, connected) ==> AllPlaced(s, connected - {id})
  {
  }

  /** With fewer connections than slots, one slot is free. */
  lemma RoomLeft(s: seq<Option<nat>>, connected: set<nat>)
    requires Placed(s, connected) && |connected| < |s|
    ensures None in s
  {
    if forall i :: 0 <= i < |s| ==> s[i].Some? { AllUsed(s, connected); }
  }

  // ----- the search of pool_get_context -----

  /** The j-th slot looked at by a search that begins with the cursor on `orig`: the first is two further on. */
  function Probe(orig: nat, j: nat, n: nat): (i: nat)
    requires orig < n && j < n
    ensures i < n
  {
    var x := orig + 2 + j;
    if x < n then x else if x < 2 * n then x - n else x - 2 * n
  }

  /** How many slots are looked at: all but the one right after the cursor, which a pool of one does not have. */
  function Probes(n: nat): nat { if n <= 1 then n else n - 1 }

  /** The slot right after the cursor is the only one never looked at. */
  lemma ProbeReaches(orig: nat, i: nat, n: nat)
    requires orig < n && i < n
    ensures (exists j :: 0 <= j < Probes(n) && Probe(orig, j, n) == i) <==>
              n == 1 || i != (if orig + 1 < n then orig + 1 else 0)
  {
    if n > 1 && i != (if orig + 1 < n then orig + 1 else 0) {
      var j := if i >= orig + 2 then i - orig - 2 else i + n - orig - 2;
      assert Probe(orig, j, n) == i;
    } else if n == 1 {
      assert Probe(orig, 0, n) == i;
    }
  }

  /** A connection that a client may be given: the first one met by the search. */
  ghost predicate Found(s: seq<Option<nat>>, orig: nat, r: Option<nat>, cur: nat)
    requires orig < |s|
  {
    && (r == None ==> cur == orig && forall j :: 0 <= j < Probes(|s|) ==> s[Probe(orig, j, |s|)] == None)
    && (r.Some? ==>
          exists j :: 0 <= j < Probes(|s|) && cur == Probe(orig, j, |s|) && s[cur] == r
                      && forall k :: 0 <= k < j ==> s[Probe(orig, k, |s|)] == None)
  }

  /** No connection is found exactly when every slot but the one right after the cursor is empty. */
  lemma FoundNone(s: seq<Option<nat>>, orig: nat, r: Option<nat>, cur: nat)
    requires orig < |s| && Found(s, orig, r, cur)
    ensures r == None <==>
            forall i :: 0 <= i < |s| && (|s| == 1 || i != (if orig + 1 < |s| then orig + 1 else 0)) ==> s[i] == None
  {
    if r == None {
      forall i | 0 <= i < |s| && (|s| == 1 || i != (if orig + 1 < |s| then orig + 1 else 0)) ensures s[i] == None {
        ProbeReaches(orig, i, |s|);
      }
    } else {
      ProbeReaches(orig, cur, |s|);
    }
  }

  // ----- the pool -----

  /** What happens to the connections of a worker, and the calls its clients make. */
  datatype Event =
    | Failed(id: nat)
    | Connected(id: nat)
    | Disconnected(id: nat)
    | TimerFired(err: bool)
    | Detached(err: bool)
    | Wanted

  class Pool {
    const ac: array<Option<nat>>
    var cur: nat

    /** Attached connections being made, attached connections made, and timers that will make one. */
    var connecting: set<nat>
    var connected: set<nat>
    var timers: nat

    /** The next connection, and how many unattached attempts have failed at once. */
    var next: nat
    ghost var surplus: nat

    /** pool_new. */
    constructor (count: nat)
      requires count > 0
      ensures Shaped() && fresh(ac) && ac.Length == count && connecting == connected == {} && timers == surplus == 0
      ensures (forall i :: 0 <= i < count ==> ac[i] == None) && cur == next == 0
    {
      ac := new Option<nat>[count](_ => None);
      cur, connecting, connected, timers, next, surplus := 0, {}, {}, 0, 0, 0;
    }

    /** Slots hold distinct live connections; what is lost is always being replaced. */
    ghost predicate Shaped()
      reads this, ac
    {
      && ac.Length > 0 && cur < ac.Length
      && Placed(ac[..], connected) && connecting !! connected
      && (forall c :: c in connecting ==> c < next) && (forall c :: c in connected ==> c < next)
    }

    ghost predicate Valid()
      reads this, ac
    {
      && Shaped()
      && |connecting| + |connected| + timers == ac.Length + surplus
      && (surplus == 0 ==> AllPlaced(ac[..], connected))
    }

    /** pool_schedule_reconnect. */
    method ScheduleReconnect()
      modifies `timers
      ensures timers == old(timers) + 1
    {
      timers := timers + 1;
    }

    /** pool_connect: err when the attempt fails at once. */
    method Connect(attach: bool, err: bool)
      requires Shaped()
      modifies `connecting, `timers, `next, `surplus
      ensures Shaped() && connected == old(connected)
      ensures err ==> connecting == old(connecting) && timers == old(timers) + 1
      ensures !err && attach ==>
                connecting == old(connecting) + {old(next)} && old(next) !in old(connecting) && timers == old(timers)
      ensures !err && !attach ==> connecting == old(connecting) && timers == old(timers)
      ensures next == old(next) + (if err then 0 else 1)
      ensures surplus == old(surplus) + (if err && !attach then 1 else 0)
    {
      if err {
        if !attach { surplus := surplus + 1; }
        ScheduleReconnect();
        return;
      }
      if attach { connecting := connecting + {next}; }
      next := next + 1;
    }

    /** worker_pool_connect. */
    method Startup(errs: seq<bool>)
      requires Shaped() && connecting == connected == {} && timers == surplus == 0 && |errs| == ac.Length
      requires next == 0 && forall i :: 0 <= i < ac.Length ==> ac[i] == None
      modifies `connecting, `timers, `next, `surplus
      ensures Valid() && surplus == 0 && Now(this) == StartOf(ac.Length, errs)
    {
      assert ac[..] == StartOf(ac.Length, errs[..0]).slots;
      var i := 0;
      while i < ac.Length
        invariant 0 <= i <= ac.Length && Shaped() && connected == {} && surplus == 0
        invariant |connecting| + timers == i && Now(this) == StartOf(ac.Length, errs[..i])
      {
        assert errs[..i + 1][..i] == errs[..i];
        Connect(true, errs[i]);
        i := i + 1;
      }
      assert errs[..i] == errs;
    }

    /** pool_can_connect, when a timer runs out. */
    method CanConnect(err: bool)
      requires Valid() && timers > 0
      modifies `connecting, `timers, `next, `surplus
      ensures Valid() && surplus == old(surplus)
      ensures Now(this) == Attempt(old(Now(this)).(timers := old(timers) - 1), err)
    {
      timers := timers - 1;
      Connect(true, err);
    }

    /** pool_connect for a connection of a client's own. */
    method Detach(err: bool)
      requires Valid()
      modifies `timers, `next, `surplus, `connecting
      ensures Valid() && connecting == old(connecting) && timers == old(timers) + (if err then 1 else 0)
      ensures next == old(next) + (if err then 0 else 1) && surplus == old(surplus) + (if err then 1 else 0)
    {
      hide Placed, AllPlaced;
      Connect(false, err);
    }

    static method Occupy(ac: array<Option<nat>>, i: nat, id: nat)
      requires i < ac.Length
      modifies ac
      ensures ac[..] == old(ac[..])[i := Some(id)] && Some(id) in ac[..]
    {
      ac[i] := Some(id);
      assert ac[..][i] == Some(id);
    }

    /** pool_on_connect, for a connection attached to the pool. */
    method OnConnect(id: nat, ok: bool)
      requires Valid() && id in connecting
      modifies `connecting, `connected, `timers, ac
      ensures Valid() && surplus == old(surplus) && connecting == old(connecting) - {id}
      ensures !ok ==> connected == old(connected) && ac[..] == old(ac[..]) && timers == old(timers) + 1
      ensures ok ==> connected == old(connected) + {id} && timers == old(timers) && ac[..] == Fill(old(ac[..]), id)
      ensures ok && surplus == 0 ==> Some(id) in ac[..]
    {
      hide Placed, AllPlaced, Fill;
      connecting := connecting - {id};
      if !ok {
        ScheduleReconnect();
        return;
      }
      if surplus == 0 { RoomLeft(ac[..], connected); }
      var i := 0;
      while i < ac.Length
        invariant 0 <= i <= ac.Length && ac[..] == old(ac[..])
        invariant None !in ac[..i]
      {
        if ac[i] == None {
          FillSlot(ac[..], connected, i, id);
          FillFirst(ac[..], id, i);
          connected := connected + {id};
          Occupy(ac, i, id);
          return;
        }
        i := i + 1;
      }
      assert ac[..i] == ac[..];
      FillFirst(ac[..], id, i);
      MorePlaced(ac[..], connected, id);
      connected := connected + {id};
    }

    /** pool_on_disconnect, for a connection attached to the pool. */
    method OnDisconnect(id: nat)
      requires Valid() && id in connected
      modifies `connected, `timers, ac
      ensures Valid() && surplus == old(surplus) && connecting == old(connecting)
      ensures connected == old(connected) - {id} && timers == old(timers) + 1
      ensures ac[..] == Cleared(old(ac[..]), id)
    {
      hide Placed, AllPlaced;
      ghost var before, was := ac[..], connected;
      connected := connected - {id};
      var i := 0;
      while i < ac.Length
        invariant 0 <= i <= ac.Length && ac[..] == before
        invariant Some(id) !in ac[..i]
      {
        if ac[i] == Some(id) { break; }
        i := i + 1;
      }
      if i < ac.Length {
        ClearSlot(before, was, i, id);
        ac[i] := None;
        assert ac[..] == before[i := None] == Cleared(before, id);
      } else {
        assert ac[..i] == ac[..];
        NoSlot(before, was, id);
        assert forall k :: 0 <= k < ac.Length ==> before[k] in before;
        assert before == Cleared(before, id);
      }
      ScheduleReconnect();
    }

    /** pool_get_context. */
    method GetContext() returns (r: Option<nat>)
      requires Valid()
      modifies `cur
      ensures Valid() && Found(ac[..], old(cur), r, cur)
      ensures r.Some? ==> r.value in connected && r in ac[..]
    {
      hide AllPlaced, Probe;
      ghost var slots := ac[..];
      var orig, n := cur, ac.Length;
      cur := cur + 1;
      cur := cur + 1;
      cur := cur % n;
      ghost var j := 0;
      FirstProbe(orig, n);
      while ac[cur] == None && cur != orig
        invariant 0 <= j < Probes(n) && cur == Probe(orig, j, n)
        invariant forall k :: 0 <= k < j ==> slots[Probe(orig, k, n)] == None
        decreases n - j
      {
        NextProbe(orig, j, n);
        j := j + 1;
        cur := cur + 1;
        cur := cur % n;
      }
      LastProbe(orig, j, n);
      r := ac[cur];
      assert slots[cur] == r;
    }
  }

  lemma FirstProbe(orig: nat, n: nat)
    requires orig < n
    ensures (orig + 2) % n == Probe(orig, 0, n)
  {
    if n == 1 {
      assert orig == 0;
    } else if orig + 2 >= n {
      assert (orig + 2) % n == orig + 2 - n;
    }
  }

  lemma NextProbe(orig: nat, j: nat, n: nat)
    requires orig < n && j < Probes(n) && Probe(orig, j, n) != orig
    ensures j + 1 < Probes(n) && (Probe(orig, j, n) + 1) % n == Probe(orig, j + 1, n)
  {
    Wrap(Probe(orig, j, n) + 1, n);
  }

  lemma Wrap(x: nat, n: nat)
    requires 0 < n && x <= n
    ensures x % n == if x == n then 0 else x
  {
    if x < n { assert x % n == x; }
  }

  lemma LastProbe(orig: nat, j: nat, n: nat)
    requires orig < n && j < Probes(n)
    ensures Probe(orig, j, n) == orig <==> j + 1 == Probes(n)
  {
  }

  // ----- the course of events -----

  /** The connections being made and made, the timers, the next connection and the slots. */
  datatype Course =
    Course(connecting: set<nat>, connected: set<nat>, timers: nat, next: nat, slots: seq<Option<nat>>)

  /** An attempt of the pool's own. */
  function Attempt(c: Course, err: bool): Course {
    if err then c.(timers := c.timers + 1) else c.(connecting := c.connecting + {c.next}, next := c.next + 1)
  }

  function StartOf(count: nat, errs: seq<bool>): Course {
    if errs == [] then Course({}, {}, 0, 0, seq(count, _ => None))
    else Attempt(StartOf(count, errs[..|errs| - 1]), errs[|errs| - 1])
  }

  function Cleared(s: seq<Option<nat>>, id: nat): (t: seq<Option<nat>>)
    ensures |t| == |s| && forall i :: 0 <= i < |s| ==> t[i] == if s[i] == Some(id) then None else s[i]
  {
    seq(|s|, i requires 0 <= i < |s| => if s[i] == Some(id) then None else s[i])
  }

  /** An event about a connection that is not there cannot happen and is skipped. */
  function StepOf(c: Course, e: Event): Course {
    match e
    case Failed(id) => if id in c.connecting then c.(connecting := c.connecting - {id}, timers := c.timers + 1) else c
    case Connected(id) =>
      if id in c.connecting then
        c.(connecting := c.connecting - {id}, connected := c.connected + {id}, slots := Fill(c.slots, id))
      else c
    case Disconnected(id) =>
      if id in c.connected then
        c.(connected := c.connected - {id}, timers := c.timers + 1, slots := Cleared(c.slots, id))
      else c
    case TimerFired(err) => if c.timers > 0 then Attempt(c.(timers := c.timers - 1), err) else c
    case Detached(err) => if err then c.(timers := c.timers + 1) else c.(next := c.next + 1)
    case Wanted => c
  }

  /** What a run comes to, from how the first attempts went and what happened since. */
  function CourseOf(count: nat, errs: seq<bool>, events: seq<Event>): Course {
    if events == [] then StartOf(count, errs)
    else StepOf(CourseOf(count, errs, events[..|events| - 1]), events[|events| - 1])
  }

  lemma CourseSnoc(count: nat, errs: seq<bool>, events: seq<Event>, n: nat)
    requires n < |events|
    ensures CourseOf(count, errs, events[..n + 1]) == StepOf(CourseOf(count, errs, events[..n]), events[n])
  {
    hide StepOf;
    assert events[..n + 1][..n] == events[..n];
  }

  /** The first attempts: those that did not fail are numbered from 0. */
  lemma {:induction false} Started(count: nat, errs: seq<bool>)
    ensures var c := StartOf(count, errs);
            && c.next == multiset(errs)[false] && c.timers == multiset(errs)[true] && c.connected == {}
            && (forall id: nat :: id in c.connecting <==> id < multiset(errs)[false])
            && |c.slots| == count && forall i :: 0 <= i < count ==> c.slots[i] == None
  {
    if errs != [] {
      var n := |errs| - 1;
      Started(count, errs[..n]);
      assert errs == errs[..n] + [errs[n]];
    }
  }

  /** Connections are numbered once: those that are neither being made nor made stay so. */
  ghost predicate Numbered(c: Course) {
    && (forall id :: id in c.connecting ==> id < c.next) && (forall id :: id in c.connected ==> id < c.next)
    && c.connecting !! c.connected
    && forall i :: 0 <= i < |c.slots| && c.slots[i].Some? ==> c.slots[i].value in c.connected
  }

  lemma {:induction false} FillHolds(s: seq<Option<nat>>, id: nat)
    ensures |Fill(s, id)| == |s|
    ensures forall i :: 0 <= i < |s| && Fill(s, id)[i].Some? ==> Fill(s, id)[i] == Some(id) || Fill(s, id)[i] in s
  {
    if s != [] && s[0] != None {
      FillHolds(s[1..], id);
      forall i | 0 <= i < |s| && Fill(s, id)[i].Some? ensures Fill(s, id)[i] == Some(id) || Fill(s, id)[i] in s {
        if i > 0 { assert Fill(s, id)[i] == Fill(s[1..], id)[i - 1]; }
      }
    }
  }

  lemma StepNumbered(c: Course, e: Event)
    requires Numbered(c)
    ensures Numbered(StepOf(c, e)) && c.next <= StepOf(c, e).next
  {
    if e.Connected? { FillHolds(c.slots, e.id); }
  }

  lemma {:induction false} CourseNumbered(count: nat, errs: seq<bool>, events: seq<Event>)
    ensures Numbered(CourseOf(count, errs, events))
  {
    hide Numbered, StepOf;
    if events == [] {
      Started(count, errs);
      StartNumbered(count, errs);
    } else {
      CourseNumbered(count, errs, events[..|events| - 1]);
      StepNumbered(CourseOf(count, errs, events[..|events| - 1]), events[|events| - 1]);
    }
  }

  lemma StartNumbered(count: nat, errs: seq<bool>)
    ensures Numbered(StartOf(count, errs))
  {
    Started(count, errs);
  }

  /** A connection is being made from its attempt on until the attempt fails or succeeds. */
  ghost predicate BeingMade(count: nat, errs: seq<bool>, events: seq<Event>, n: nat, id: nat)
    requires n <= |events|
  {
    id in CourseOf(count, errs, events[..n]).connecting
  }

  /** The connections of the pool are those whose attempt succeeded and that were not disconnected since. */
  lemma {:induction false} LiveExactly(count: nat, errs: seq<bool>, events: seq<Event>, n: nat, id: nat)
    requires n <= |events|
    ensures id in CourseOf(count, errs, events[..n]).connected <==>
              exists j :: 0 <= j < n && events[j] == Connected(id) && BeingMade(count, errs, events, j, id)
                          && forall k :: j < k < n ==> events[k] != Disconnected(id)
  {
    hide StepOf, CourseOf;
    if n == 0 {
      Started(count, errs);
      CourseStarts(count, errs, events);
    } else {
      LiveExactly(count, errs, events, n - 1, id);
      CourseSnoc(count, errs, events, n - 1);
      var c := CourseOf(count, errs, events[..n - 1]);
      LiveStep(c, events[n - 1], id);
      if id in c.connected && events[n - 1] != Disconnected(id) {
        var j :| 0 <= j < n - 1 && events[j] == Connected(id) && BeingMade(count, errs, events, j, id)
                 && forall k :: j < k < n - 1 ==> events[k] != Disconnected(id);
        assert forall k :: j < k < n ==> events[k] != Disconnected(id);
      }
      if events[n - 1] == Connected(id) && id in c.connecting {
        assert BeingMade(count, errs, events, n - 1, id);
      }
      forall j | 0 <= j < n && events[j] == Connected(id) && BeingMade(count, errs, events, j, id)
                 && forall k :: j < k < n ==> events[k] != Disconnected(id)
        ensures id in CourseOf(count, errs, events[..n]).connected
      {
        assert j < n - 1 ==> events[n - 1] != Disconnected(id);
        assert forall k :: j < k < n - 1 ==> events[k] != Disconnected(id);
      }
    }
  }

  /** The attempt numbered id is made with the j-th event, or at start-up if j is 0. */
  ghost predicate Begun(count: nat, errs: seq<bool>, events: seq<Event>, j: nat, id: nat)
    requires j <= |events|
  {
    if j == 0 then id < multiset(errs)[false]
    else
      var c := CourseOf(count, errs, events[..j - 1]);
      events[j - 1] == TimerFired(false) && c.timers > 0 && c.next == id
  }

  /** A connection is being made from its attempt on, until it fails or is made. */
  lemma {:induction false} MadeExactly(count: nat, errs: seq<bool>, events: seq<Event>, n: nat, id: nat)
    requires n <= |events|
    ensures BeingMade(count, errs, events, n, id) <==>
              exists j :: 0 <= j <= n && Begun(count, errs, events, j, id)
                          && forall k :: j <= k < n ==> events[k] != Failed(id) && events[k] != Connected(id)
  {
    hide StepOf, CourseOf;
    if n == 0 {
      Started(count, errs);
      CourseStarts(count, errs, events);
      assert Begun(count, errs, events, 0, id) <==> id < multiset(errs)[false];
    } else {
      MadeExactly(count, errs, events, n - 1, id);
      CourseSnoc(count, errs, events, n - 1);
      var c, e := CourseOf(count, errs, events[..n - 1]), events[n - 1];
      MadeStep(c, e, id);
      if BeingMade(count, errs, events, n - 1, id) && e != Failed(id) && e != Connected(id) {
        var j :| 0 <= j <= n - 1 && Begun(count, errs, events, j, id)
                 && forall k :: j <= k < n - 1 ==> events[k] != Failed(id) && events[k] != Connected(id);
        assert forall k :: j <= k < n ==> events[k] != Failed(id) && events[k] != Connected(id);
      }
      if e == TimerFired(false) && c.timers > 0 && c.next == id { assert Begun(count, errs, events, n, id); }
      forall j | 0 <= j <= n && Begun(count, errs, events, j, id)
                 && forall k :: j <= k < n ==> events[k] != Failed(id) && events[k] != Connected(id)
        ensures BeingMade(count, errs, events, n, id)
      {
        assert j < n ==> e != Failed(id) && e != Connected(id);
        assert forall k :: j <= k < n - 1 ==> events[k] != Failed(id) && events[k] != Connected(id);
      }
    }
  }

  lemma MadeStep(c: Course, e: Event, id: nat)
    ensures id in StepOf(c, e).connecting <==>
              (id in c.connecting && e != Failed(id) && e != Connected(id))
              || (e == TimerFired(false) && c.timers > 0 && c.next == id)
  {
  }

  lemma LiveStep(c: Course, e: Event, id: nat)
    ensures id in StepOf(c, e).connected <==>
              (id in c.connected && e != Disconnected(id)) || (e == Connected(id) && id in c.connecting)
  {
  }

  /** A connection that failed, or was made and then lost, is never in a slot or given to a client again. */
  lemma {:induction false} NeverAgain(count: nat, errs: seq<bool>, events: seq<Event>, j: nat, n: nat, id: nat)
    requires j < n <= |events| && (events[j] == Failed(id) || events[j] == Disconnected(id))
    requires id < CourseOf(count, errs, events[..j]).next
    requires events[j] == Failed(id) ==> BeingMade(count, errs, events, j, id)
    requires events[j] == Disconnected(id) ==> id in CourseOf(count, errs, events[..j]).connected
    ensures var c := CourseOf(count, errs, events[..n]);
            id < c.next && id !in c.connecting && id !in c.connected && Some(id) !in c.slots
    decreases n - j
  {
    hide StepOf, CourseOf, Numbered;
    var c, e := CourseOf(count, errs, events[..n - 1]), events[n - 1];
    CourseNumbered(count, errs, events[..n - 1]);
    CourseSnoc(count, errs, events, n - 1);
    if n > j + 1 { NeverAgain(count, errs, events, j, n - 1, id); }
    LiveStep(c, e, id);
    MadeStep(c, e, id);
    StepNumbered(c, e);
    OnlyLive(c, id);
    OnlyLive(StepOf(c, e), id);
  }

  lemma OnlyLive(c: Course, id: nat)
    requires Numbered(c)
    ensures id !in c.connecting || id !in c.connected
    ensures id in c.connecting || id in c.connected ==> id < c.next
    ensures id !in c.connected ==> Some(id) !in c.slots
  {
  }

  // ----- runs -----

  ghost function Now(p: Pool): Course
    reads p, p.ac
  {
    Course(p.connecting, p.connected, p.timers, p.next, p.ac[..])
  }

  /** One event. */
  method Handle(p: Pool, e: Event) returns (given: Option<nat>)
    requires p.Valid()
    modifies p, p.ac
    ensures p.Valid() && p.surplus == old(p.surplus) + (if e == Detached(true) then 1 else 0)
    ensures Now(p) == StepOf(old(Now(p)), e)
    ensures e == Wanted ==> Found(old(p.ac[..]), old(p.cur), given, p.cur)
    ensures e != Wanted ==> p.cur == old(p.cur) && given == None
    ensures given.Some? ==> given.value in p.connected && given in p.ac[..]
  {
    hide Found, Fill, Cleared, p.Valid;
    given := None;
    match e {
      case Failed(id) => if id in p.connecting { p.OnConnect(id, false); }
      case Connected(id) => if id in p.connecting { p.OnConnect(id, true); }
      case Disconnected(id) =>
        if id in p.connected { p.OnDisconnect(id); }
      case TimerFired(err) => if p.timers > 0 { p.CanConnect(err); }
      case Detached(err) => p.Detach(err);
      case Wanted => given := p.GetContext();
    }
  }

  /** What an event gives a client, and where it leaves the cursor. */
  ghost predicate Search(s: seq<Option<nat>>, e: Event, cur: nat, given: Option<nat>, cur': nat) {
    cur < |s| && if e == Wanted then Found(s, cur, given, cur') else given == None && cur' == cur
  }

  /** What the clients were given, and where the cursor stood: the searches of a run. */
  ghost predicate Searches(count: nat, errs: seq<bool>, events: seq<Event>, given: seq<Option<nat>>, curs: seq<nat>) {
    && |given| == |events| && |curs| == |events| + 1 && curs[0] == 0
    && forall i :: 0 <= i < |events| ==>
         Search(CourseOf(count, errs, events[..i]).slots, events[i], curs[i], given[i], curs[i + 1])
  }

  /** Every run from start-up on. */
  method Run(count: nat, errs: seq<bool>, events: seq<Event>)
    returns (p: Pool, given: seq<Option<nat>>, ghost curs: seq<nat>)
    requires count > 0 && |errs| == count
    ensures p.Valid() && p.ac.Length == count
    ensures Now(p) == CourseOf(count, errs, events)
    ensures Searches(count, errs, events, given, curs)
    ensures |p.connecting| + |p.connected| + p.timers == count + multiset(events)[Detached(true)]
    ensures Detached(true) !in events ==> AllPlaced(p.ac[..], p.connected)
  {
    hide Placed, AllPlaced, StepOf, Found, CourseOf, StartOf;
    p := new Pool(count);
    p.Startup(errs);
    given, curs := [], [p.cur];
    CourseStarts(count, errs, events);
    for i := 0 to |events|
      invariant fresh(p) && fresh(p.ac) && p.Valid() && p.ac.Length == count
      invariant p.surplus == multiset(events[..i])[Detached(true)]
      invariant Now(p) == CourseOf(count, errs, events[..i])
      invariant Searches(count, errs, events[..i], given, curs) && curs[i] == p.cur
    {
      assert events[..i + 1] == events[..i] + [events[i]];
      ghost var before := p.cur;
      var g := Handle(p, events[i]);
      CourseSnoc(count, errs, events, i);
      SearchesMore(count, errs, events, i, given, curs, g, p.cur);
      given, curs := given + [g], curs + [p.cur];
    }
    assert events[..|events|] == events;
  }

  lemma CourseStarts(count: nat, errs: seq<bool>, events: seq<Event>)
    ensures CourseOf(count, errs, events[..0]) == StartOf(count, errs)
    ensures Searches(count, errs, events[..0], [], [0])
  {
  }

  lemma SearchesMore(count: nat, errs: seq<bool>, events: seq<Event>, n: nat, given: seq<Option<nat>>, curs: seq<nat>,
                     g: Option<nat>, cur: nat)
    requires n < |events| && Searches(count, errs, events[..n], given, curs)
    requires Search(CourseOf(count, errs, events[..n]).slots, events[n], curs[n], g, cur)
    ensures Searches(count, errs, events[..n + 1], given + [g], curs + [cur])
  {
    hide Search, CourseOf;
    var es, gs, cs := events[..n + 1], given + [g], curs + [cur];
    forall i | 0 <= i < n + 1
      ensures Search(CourseOf(count, errs, es[..i]).slots, es[i], cs[i], gs[i], cs[i + 1])
    {
      assert es[..i] == events[..i];
      if i < n {
        var fs := events[..n];
        assert fs[..i] == events[..i];
        assert Search(CourseOf(count, errs, fs[..i]).slots, fs[i], curs[i], given[i], curs[i + 1]);
      }
    }
  }

  /** What a client is given is a connection that was made and not lost since. */
  lemma GivenLive(count: nat, errs: seq<bool>, events: seq<Event>, given: seq<Option<nat>>, curs: seq<nat>, i: nat)
    requires Searches(count, errs, events, given, curs) && i < |events| && given[i].Some?
    ensures events[i] == Wanted
    ensures exists j :: 0 <= j < i && events[j] == Connected(given[i].value)
                        && BeingMade(count, errs, events, j, given[i].value)
                        && forall k :: j < k < i ==> events[k] != Disconnected(given[i].value)
  {
    hide CourseOf;
    assert Search(CourseOf(count, errs, events[..i]).slots, events[i], curs[i], given[i], curs[i + 1]);
    CourseNumbered(count, errs, events[..i]);
    LiveExactly(count, errs, events, i, given[i].value);
  }
}
