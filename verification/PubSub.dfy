/**
 Subscription bookkeeping of src/hiredis/async.c: the tables of channel and pattern callbacks, the
 counter of confirmations still to come, and the subscribed flag, against a server that answers in order.
 */
module PubSub {
  import opened Bytes

  /** A table entry: the callback registered last, and pending_subs. */
  datatype Sub = Sub(fn: nat, pending: int)

  type Table = map<bytes, Sub>

  datatype Client = Client(channels: Table, patterns: Table, subscribed: bool)

  /** pattern is the variant starting with `p`. */
  datatype Command =
    | Subscribe(pattern: bool, names: seq<bytes>)
    | Unsubscribe(pattern: bool, names: seq<bytes>)

  datatype Message =
    | Confirmed(pattern: bool, name: bytes, count: nat)
    | Removed(pattern: bool, name: bytes, count: nat)
    | Published(pattern: bool, name: bytes)

  function Tab(c: Client, p: bool): Table { if p then c.patterns else c.channels }

  function WithTab(c: Client, p: bool, t: Table): Client { if p then c.(patterns := t) else c.(channels := t) }

  // ----- the client -----

  /** Registers every name of a subscribe command; `pending` is the counter left by the name before. */
  function Register(t: Table, names: seq<bytes>, fn: nat, pending: int): Table
    decreases |names|
  {
    if names == [] then t
    else
      var n := if names[0] in t then t[names[0]].pending + 1 else pending;
      Register(t[names[0] := Sub(fn, n)], names[1..], fn, n)
  }

  /**
   __redisAsyncCommand for the pub/sub commands; None is REDIS_ERR.  Without a name SUBSCRIBE is an
   ordinary command.
   */
  function Issue(c: Client, cmd: Command, fn: nat): Option<Client> {
    match cmd
    case Subscribe(p, names) =>
      if names == [] then Some(c) else Some(WithTab(c, p, Register(Tab(c, p), names, fn, 1)).(subscribed := true))
    case Unsubscribe(_, _) => if c.subscribed then Some(c) else None
  }

  /** __redisGetSubscribeCallback: the new state, and the callback found. */
  function Receive(c: Client, m: Message): (Client, Option<nat>) {
    var t := Tab(c, m.pattern);
    if m.name !in t then (c, None)
    else
      var e := t[m.name];
      match m
      case Confirmed(p, name, _) => (WithTab(c, p, t[name := Sub(e.fn, e.pending - 1)]), Some(e.fn))
      case Removed(p, name, count) =>
        var c1 := if e.pending == 0 then WithTab(c, p, t - {name}) else c;
        (if count == 0 && c1.channels == map[] && c1.patterns == map[] then c1.(subscribed := false) else c1,
         Some(e.fn))
      case Published(_, _) => (c, Some(e.fn))
  }

  /** The two tables and the flag as the context holds them. */
  class Subscriptions {
    var channels: Table
    var patterns: Table
    var subscribed: bool

    constructor ()
      ensures Abs() == Client(map[], map[], false)
    {
      channels, patterns, subscribed := map[], map[], false;
    }

    function Abs(): Client
      reads this
    {
      Client(channels, patterns, subscribed)
    }

    method Send(cmd: Command, fn: nat) returns (ok: bool)
      modifies this
      ensures ok <==> Issue(old(Abs()), cmd, fn).Some?
      ensures Abs() == if ok then Issue(old(Abs()), cmd, fn).value else old(Abs())
    {
      match cmd
      case Subscribe(p, names) =>
        if names == [] { return true; }
        subscribed := true;
        var pending := 1;
        var i := 0;
        while i < |names|
          invariant 0 <= i <= |names| && subscribed
          invariant Tab(Abs(), !p) == Tab(old(Abs()), !p)
          invariant Register(Tab(Abs(), p), names[i..], fn, pending) == Register(Tab(old(Abs()), p), names, fn, 1)
        {
          var t := if p then patterns else channels;
          if names[i] in t { pending := t[names[i]].pending + 1; }
          assert names[i..][1..] == names[i + 1..];
          if p {
            patterns := patterns[names[i] := Sub(fn, pending)];
          } else {
            channels := channels[names[i] := Sub(fn, pending)];
          }
          i := i + 1;
        }
        ok := true;
      case Unsubscribe(_, _) =>
        ok := subscribed;
    }

    method Find(m: Message) returns (fn: Option<nat>)
      modifies this
      ensures (Abs(), fn) == Receive(old(Abs()), m)
    {
      var t := if m.pattern then patterns else channels;
      if m.name !in t { return None; }
      var e := t[m.name];
      if m.Confirmed? {
        e := Sub(e.fn, e.pending - 1);
        t := t[m.name := e];
      }
      fn := Some(e.fn);
      if m.Removed? && e.pending == 0 { t := t - {m.name}; }
      if m.pattern { patterns := t; } else { channels := t; }
      if m.Removed? && m.count == 0 && channels == map[] && patterns == map[] { subscribed := false; }
    }
  }

  // ----- the server and the wires -----

  /** The names a server holds a client subscribed to. */
  datatype Names = Names(channels: set<bytes>, patterns: set<bytes>)

  function On(s: Names, p: bool): set<bytes> { if p then s.patterns else s.channels }

  function WithOn(s: Names, p: bool, x: set<bytes>): Names { if p then s.(patterns := x) else s.(channels := x) }

  function Count(s: Names): nat { |s.channels| + |s.patterns| }

  /** What one name of a command does at the server, and its reply. */
  function ServeName(s: Names, cmd: Command, name: bytes): (Names, Message) {
    match cmd
    case Subscribe(p, _) => var s1 := WithOn(s, p, On(s, p) + {name}); (s1, Confirmed(p, name, Count(s1)))
    case Unsubscribe(p, _) => var s1 := WithOn(s, p, On(s, p) - {name}); (s1, Removed(p, name, Count(s1)))
  }

  /**
   The client, the commands on their way to the server name by name, the server, and the replies on
   their way back; `seen` is what the replies delivered so far say the server holds.
   */
  datatype World = World(client: Client, up: seq<(Command, bytes)>, server: Names, down: seq<Message>, seen: Names)

  datatype Event = Issued(cmd: Command, fn: nat) | Served | Posted(pattern: bool, name: bytes) | Delivered

  const START := World(Client(map[], map[], false), [], Names({}, {}), [], Names({}, {}))

  function Spread(cmd: Command, names: seq<bytes>): seq<(Command, bytes)> {
    if names == [] then [] else [(cmd, names[0])] + Spread(cmd, names[1..])
  }

  /** The state a delivered message describes. */
  function Seen(s: Names, m: Message): Names {
    match m
    case Confirmed(p, name, _) => WithOn(s, p, On(s, p) + {name})
    case Removed(p, name, _) => WithOn(s, p, On(s, p) - {name})
    case Published(_, _) => s
  }

  function Step(w: World, e: Event): World {
    match e
    case Issued(cmd, fn) =>
      if cmd.names == [] then w
      else (match Issue(w.client, cmd, fn)
       case None => w
       case Some(c) => w.(client := c, up := w.up + Spread(cmd, cmd.names)))
    case Served =>
      if w.up == [] then w
      else
        var (s, m) := ServeName(w.server, w.up[0].0, w.up[0].1);
        w.(up := w.up[1..], server := s, down := w.down + [m])
    case Posted(p, name) =>
      if name in On(w.server, p) then w.(down := w.down + [Published(p, name)]) else w
    case Delivered =>
      if w.down == [] then w
      else w.(client := Receive(w.client, w.down[0]).0, down := w.down[1..], seen := Seen(w.seen, w.down[0]))
  }

  function Run(w: World, es: seq<Event>): World
    decreases |es|
  {
    if es == [] then w else Run(Step(w, es[0]), es[1..])
  }

  // ----- the invariant -----

  function UpCount(up: seq<(Command, bytes)>, p: bool, name: bytes): nat {
    if up == [] then 0
    else (if up[0].0.Subscribe? && up[0].0.pattern == p && up[0].1 == name then 1 else 0) + UpCount(up[1..], p, name)
  }

  function DownCount(down: seq<Message>, p: bool, name: bytes): nat {
    if down == [] then 0
    else
      (if down[0].Confirmed? && down[0].pattern == p && down[0].name == name then 1 else 0)
      + DownCount(down[1..], p, name)
  }

  /** The subscribe confirmations still to come for a name. */
  function Outstanding(w: World, p: bool, name: bytes): nat { UpCount(w.up, p, name) + DownCount(w.down, p, name) }

  /**
   The replies under way lead from what has been seen to what the server holds, only report live names
   and count them.
   */
  ghost predicate Leads(seen: Names, down: seq<Message>, server: Names)
    decreases |down|
  {
    if down == [] then seen == server
    else Tells(seen, down[0]) && Leads(Seen(seen, down[0]), down[1..], server)
  }

  ghost predicate Tells(s: Names, m: Message) {
    (m.Published? ==> m.name in On(s, m.pattern)) && (m.Removed? ==> m.count == Count(Seen(s, m)))
  }

  /**
   Every name awaited or seen has an entry, its counter covers what is awaited, and an entry not
   awaited has been seen.
   */
  ghost predicate CoveredAt(w: World, p: bool, name: bytes) {
    var t := Tab(w.client, p);
    && (name in On(w.seen, p) ==> name in t)
    && (Outstanding(w, p, name) > 0 ==> name in t)
    && (name in t ==> t[name].pending >= Outstanding(w, p, name) && (t[name].pending == 0 ==> name in On(w.seen, p)))
  }

  ghost predicate Covered(w: World, p: bool) { forall name :: CoveredAt(w, p, name) }

  ghost predicate Good(w: World) {
    && Covered(w, false) && Covered(w, true)
    && Leads(w.seen, w.down, w.server)
    && (w.client.subscribed <==> w.client.channels != map[] || w.client.patterns != map[])
  }

  lemma {:induction false} UpCountAppend(a: seq<(Command, bytes)>, b: seq<(Command, bytes)>, p: bool, name: bytes)
    ensures UpCount(a + b, p, name) == UpCount(a, p, name) + UpCount(b, p, name)
  {
    if a == [] {
      assert a + b == b;
    } else {
      assert (a + b)[1..] == a[1..] + b;
      UpCountAppend(a[1..], b, p, name);
    }
  }

  lemma {:induction false} DownCountSnoc(down: seq<Message>, m: Message, p: bool, name: bytes)
    ensures DownCount(down + [m], p, name) == DownCount(down, p, name) + DownCount([m], p, name)
  {
    if down == [] {
      assert down + [m] == [m];
    } else {
      assert (down + [m])[1..] == down[1..] + [m];
      DownCountSnoc(down[1..], m, p, name);
    }
  }

  lemma {:induction false} LeadsSnoc(seen: Names, down: seq<Message>, server: Names, m: Message)
    requires Leads(seen, down, server) && Tells(server, m)
    ensures Leads(seen, down + [m], Seen(server, m))
    decreases |down|
  {
    if down == [] {
      assert down + [m] == [m] && [m][1..] == [];
    } else {
      assert (down + [m])[1..] == down[1..] + [m];
      LeadsSnoc(Seen(seen, down[0]), down[1..], server, m);
    }
  }

  function NameCount(names: seq<bytes>, name: bytes): nat {
    if names == [] then 0 else (if names[0] == name then 1 else 0) + NameCount(names[1..], name)
  }

  lemma {:induction false} SpreadCount(cmd: Command, names: seq<bytes>, p: bool, name: bytes)
    ensures UpCount(Spread(cmd, names), p, name) == if cmd.Subscribe? && cmd.pattern == p then NameCount(names, name)
              else 0
  {
    if names != [] {
      assert Spread(cmd, names)[1..] == Spread(cmd, names[1..]);
      SpreadCount(cmd, names[1..], p, name);
    }
  }

  function PendingOf(t: Table, name: bytes): int { if name in t then t[name].pending else 0 }

  /** Registering adds at least one to the counter of a name for every time the command names it. */
  lemma {:induction false} RegisterCounts(t: Table, names: seq<bytes>, fn: nat, pending: int, name: bytes)
    requires pending >= 1 && forall n :: n in t ==> t[n].pending >= 0
    ensures var r := Register(t, names, fn, pending);
            && (name in r <==> name in t || name in names)
            && (name in r ==> r[name].pending >= PendingOf(t, name) + NameCount(names, name) && r[name].pending >= 0)
            && (name in names ==> r[name].fn == fn)
            && (name !in names && name in t ==> r[name] == t[name])
    decreases |names|
  {
    if names != [] {
      var n := if names[0] in t then t[names[0]].pending + 1 else pending;
      RegisterCounts(t[names[0] := Sub(fn, n)], names[1..], fn, n, name);
      assert names == [names[0]] + names[1..];
    }
  }

  lemma SubscribeCovered(w: World, cmd: Command, fn: nat, p: bool)
    requires Good(w) && cmd.Subscribe? && cmd.names != []
    ensures Covered(Step(w, Issued(cmd, fn)), p)
  {
    hide CoveredAt, Step;
    forall name ensures CoveredAt(Step(w, Issued(cmd, fn)), p, name) { SubscribeCoveredAt(w, cmd, fn, p, name); }
  }

  lemma SubscribeCoveredAt(w: World, cmd: Command, fn: nat, p: bool, name: bytes)
    requires Good(w) && cmd.Subscribe? && cmd.names != []
    ensures CoveredAt(Step(w, Issued(cmd, fn)), p, name)
  {
    hide Register, Leads;
    var w1 := Step(w, Issued(cmd, fn));
    UpCountAppend(w.up, Spread(cmd, cmd.names), p, name);
    SpreadCount(cmd, cmd.names, p, name);
    GoodAt(w, p, name);
    if cmd.pattern == p {
      GoodCounters(w, p);
      hide Good;
      RegisterCounts(Tab(w.client, p), cmd.names, fn, 1, name);
      NameCountIn(cmd.names, name);
    }
  }

  /** Only what is awaited, seen and registered matters. */
  lemma SameCovered(w: World, w1: World, p: bool)
    requires Good(w) && w1.client == w.client && w1.seen == w.seen
               && forall name :: Outstanding(w1, p, name) == Outstanding(w, p, name)
    ensures Covered(w1, p)
  {
    hide Outstanding, Good;
    forall name ensures CoveredAt(w1, p, name) { GoodAt(w, p, name); }
  }

  lemma GoodAt(w: World, p: bool, name: bytes)
    requires Good(w)
    ensures CoveredAt(w, p, name)
  {
    assert Covered(w, p);
  }

  lemma {:induction false} NameCountIn(names: seq<bytes>, name: bytes)
    ensures NameCount(names, name) > 0 <==> name in names
  {
    if names != [] {
      NameCountIn(names[1..], name);
      assert names == [names[0]] + names[1..];
    }
  }

  lemma IssuedGood(w: World, cmd: Command, fn: nat)
    requires Good(w)
    ensures Good(Step(w, Issued(cmd, fn)))
  {
    hide Register, Leads;
    if cmd.names == [] { return; }
    match cmd
    case Subscribe(p, names) =>
      SubscribeCovered(w, cmd, fn, false);
      SubscribeCovered(w, cmd, fn, true);
      GoodCounters(w, p);
      RegisterCounts(Tab(w.client, p), names, fn, 1, names[0]);
    case Unsubscribe(_, names) =>
      forall p, name ensures Outstanding(Step(w, Issued(cmd, fn)), p, name) == Outstanding(w, p, name) {
        UpCountAppend(w.up, Spread(cmd, names), p, name);
        SpreadCount(cmd, names, p, name);
      }
      if w.client.subscribed {
        SameCovered(w, Step(w, Issued(cmd, fn)), false);
        SameCovered(w, Step(w, Issued(cmd, fn)), true);
      }
  }

  lemma ServedGood(w: World)
    requires Good(w) && w.up != []
    ensures Good(Step(w, Served))
    ensures forall p, name :: Outstanding(Step(w, Served), p, name) == Outstanding(w, p, name)
  {
    hide Leads;
    var (cmd, n) := w.up[0];
    var (s, m) := ServeName(w.server, cmd, n);
    assert s == Seen(w.server, m);
    LeadsSnoc(w.seen, w.down, w.server, m);
    forall p, name ensures Outstanding(Step(w, Served), p, name) == Outstanding(w, p, name) {
      DownCountSnoc(w.down, m, p, name);
      assert [m][1..] == [];
      assert DownCount([m], p, name) == if m.Confirmed? && m.pattern == p && m.name == name then 1 else 0;
    }
    SameCovered(w, Step(w, Served), false);
    SameCovered(w, Step(w, Served), true);
  }

  lemma PostedGood(w: World, q: bool, n: bytes)
    requires Good(w)
    ensures Good(Step(w, Posted(q, n)))
    ensures forall p, name :: Outstanding(Step(w, Posted(q, n)), p, name) == Outstanding(w, p, name)
  {
    hide Leads;
    if n in On(w.server, q) {
      var m := Published(q, n);
      LeadsSnoc(w.seen, w.down, w.server, m);
      forall p, name ensures Outstanding(Step(w, Posted(q, n)), p, name) == Outstanding(w, p, name) {
        DownCountSnoc(w.down, m, p, name);
        assert [m][1..] == [];
      }
      SameCovered(w, Step(w, Posted(q, n)), false);
      SameCovered(w, Step(w, Posted(q, n)), true);
    }
  }

  /** What a message does to the table of one variant. */
  lemma ReceiveTab(c: Client, m: Message, p: bool)
    ensures var t, t1 := Tab(c, p), Tab(Receive(c, m).0, p);
            && (p != m.pattern || m.name !in t || m.Published? ==> t1 == t)
            && (p == m.pattern && m.name in t && m.Confirmed? ==>
                 t1 == t[m.name := Sub(t[m.name].fn, t[m.name].pending - 1)])
            && (p == m.pattern && m.name in t && m.Removed? ==>
                 t1 == if t[m.name].pending == 0 then t - {m.name} else t)
    ensures var c1 := Receive(c, m).0;
            var clears := m.Removed? && m.name in Tab(c, m.pattern) && m.count == 0 && c1.channels == map[]
              && c1.patterns == map[];
            c1.subscribed == if clears then false else c.subscribed
  {
  }

  lemma DeliveredCount(w: World, p: bool, name: bytes)
    requires w.down != []
    ensures var m := w.down[0];
            Outstanding(w, p, name) ==
            Outstanding(Step(w, Delivered), p, name)
              + (if m.Confirmed? && m.pattern == p && m.name == name then 1 else 0)
  {
    hide Receive;
  }

  lemma DeliveredCovered(w: World, p: bool)
    requires Good(w) && w.down != []
    ensures Covered(Step(w, Delivered), p)
  {
    hide CoveredAt, Step;
    forall name ensures CoveredAt(Step(w, Delivered), p, name) { DeliveredCoveredAt(w, p, name); }
  }

  lemma DeliveredCoveredAt(w: World, p: bool, name: bytes)
    requires Good(w) && w.down != []
    ensures CoveredAt(Step(w, Delivered), p, name)
  {
    hide Receive, Outstanding, Good;
    ReceiveTab(w.client, w.down[0], p);
    GoodAt(w, p, name);
    DeliveredCount(w, p, name);
  }

  /** A confirmation or a published message finds the entry of its name. */
  lemma DeliveredFinds(w: World)
    requires Good(w) && w.down != [] && !w.down[0].Removed?
    ensures Receive(w.client, w.down[0]).1.Some?
  {
    var m := w.down[0];
    GoodAt(w, m.pattern, m.name);
    assert m.Confirmed? ==> Outstanding(w, m.pattern, m.name) > 0;
  }

  lemma DeliveredGood(w: World)
    requires Good(w) && w.down != []
    ensures Good(Step(w, Delivered))
  {
    hide Receive, Covered;
    var m, w1 := w.down[0], Step(w, Delivered);
    DeliveredCovered(w, false);
    DeliveredCovered(w, true);
    ReceiveTab(w.client, m, false);
    ReceiveTab(w.client, m, true);
    if w1.client.channels == map[] && w1.client.patterns == map[] { NothingLeft(w1); }
  }

  /** With both tables empty nothing is seen to be subscribed. */
  lemma NothingLeft(w: World)
    requires Covered(w, false) && Covered(w, true) && w.client.channels == map[] && w.client.patterns == map[]
    ensures Count(w.seen) == 0
  {
    forall name ensures name !in w.seen.channels && name !in w.seen.patterns {
      assert CoveredAt(w, false, name) && CoveredAt(w, true, name);
    }
    assert w.seen.channels == {} && w.seen.patterns == {};
  }

  lemma StepGood(w: World, e: Event)
    requires Good(w)
    ensures Good(Step(w, e))
  {
    hide Good, Issue, Receive, ServeName;
    match e
    case Issued(cmd, fn) => IssuedGood(w, cmd, fn);
    case Served => if w.up != [] { ServedGood(w); }
    case Posted(p, name) => PostedGood(w, p, name);
    case Delivered => if w.down != [] { DeliveredGood(w); }
  }

  /** In every run, from the start. */
  lemma {:induction false} RunGood(w: World, es: seq<Event>)
    requires Good(w)
    ensures Good(Run(w, es))
    decreases |es|
  {
    if es != [] {
      StepGood(w, es[0]);
      RunGood(Step(w, es[0]), es[1..]);
    }
  }

  lemma StartGood()
    ensures Good(START)
  {
  }

  /** The callback of the last subscribe command that names the channel, or `before` if there is none. */
  function LastFn(es: seq<Event>, p: bool, name: bytes, before: Option<nat>): Option<nat>
    decreases |es|
  {
    if es == [] then before
    else
      var e := es[0];
      LastFn(es[1..], p, name,
             if e.Issued? && e.cmd.Subscribe? && e.cmd.pattern == p && name in e.cmd.names then Some(e.fn) else before)
  }

  /** The entry of a name, if there is one, holds that callback. */
  predicate HoldsFn(w: World, p: bool, name: bytes, fn: Option<nat>) {
    name in Tab(w.client, p) ==> Some(Tab(w.client, p)[name].fn) == fn
  }

  lemma StepFn(w: World, e: Event, p: bool, name: bytes, before: Option<nat>)
    requires Good(w) && HoldsFn(w, p, name, before)
    ensures HoldsFn(Step(w, e), p, name, LastFn([e], p, name, before))
  {
    hide Good, Receive, Register, ServeName;
    assert [e][1..] == [];
    match e
    case Issued(cmd, fn) =>
      if cmd.Subscribe? && cmd.pattern == p {
        GoodCounters(w, p);
        RegisterCounts(Tab(w.client, p), cmd.names, fn, 1, name);
      }
    case Served =>
    case Posted(_, _) =>
    case Delivered => if w.down != [] { ReceiveTab(w.client, w.down[0], p); }
  }

  lemma {:induction false} RunFn(w: World, es: seq<Event>, p: bool, name: bytes, before: Option<nat>)
    requires Good(w) && HoldsFn(w, p, name, before)
    ensures HoldsFn(Run(w, es), p, name, LastFn(es, p, name, before))
    decreases |es|
  {
    hide Good, HoldsFn, Step;
    if es != [] {
      StepGood(w, es[0]);
      StepFn(w, es[0], p, name, before);
      assert [es[0]][1..] == [];
      RunFn(Step(w, es[0]), es[1..], p, name, LastFn([es[0]], p, name, before));
    }
  }

  /**
   Whatever is issued, served, posted and delivered: the next confirmation or message finds its entry,
   and in it the callback of the last subscribe command that named the channel.
   */
  lemma EveryRun(es: seq<Event>)
    ensures var w := Run(START, es);
            Good(w) && (w.down != [] ==>
              var m := w.down[0];
              var found := Receive(w.client, m).1;
              && (!m.Removed? ==> found.Some?)
              && (found.Some? ==> found == LastFn(es, m.pattern, m.name, None)))
  {
    hide Good, Run;
    StartGood();
    RunGood(START, es);
    var w := Run(START, es);
    if w.down != [] {
      var m := w.down[0];
      RunFn(START, es, m.pattern, m.name, None);
      if !m.Removed? { DeliveredFinds(w); }
    }
  }

  // ----- when the counters are exact -----

  /** Every counter equals the confirmations still to come. */
  ghost predicate Exact(w: World, p: bool) {
    forall name :: name in Tab(w.client, p) ==> Tab(w.client, p)[name].pending == Outstanding(w, p, name)
  }

  /** No name new to the table follows, in the same command, one that left a counter above 1. */
  predicate Tidy(t: Table, names: seq<bytes>, pending: int)
    decreases |names|
  {
    if names == [] then true
    else
      var n := if names[0] in t then t[names[0]].pending + 1 else pending;
      (names[0] !in t ==> pending == 1) && Tidy(t[names[0] := Sub(0, n)], names[1..], n)
  }

  /** The table's counters after a command are exactly the old ones plus the command's own names. */
  ghost predicate Adds(t: Table, r: Table, names: seq<bytes>) {
    forall name :: name in r ==> r[name].pending == PendingOf(t, name) + NameCount(names, name)
  }

  /** Only the counters matter to Tidy. */
  lemma {:induction false} TidySame(t: Table, u: Table, names: seq<bytes>, pending: int)
    requires t.Keys == u.Keys && forall n :: n in t ==> t[n].pending == u[n].pending
    ensures Tidy(t, names, pending) == Tidy(u, names, pending)
    decreases |names|
  {
    if names != [] {
      assert names[0] in t <==> names[0] in u;
      var n := if names[0] in t then t[names[0]].pending + 1 else pending;
      TidySame(t[names[0] := Sub(0, n)], u[names[0] := Sub(0, n)], names[1..], n);
    }
  }

  lemma {:induction false} TidyAdds(t: Table, names: seq<bytes>, fn: nat, pending: int)
    requires pending >= 1 && forall n :: n in t ==> t[n].pending >= 0
    ensures Tidy(t, names, pending) <==> Adds(t, Register(t, names, fn, pending), names)
    decreases |names|
  {
    if names != [] {
      var head, rest := names[0], names[1..];
      var n := if head in t then t[head].pending + 1 else pending;
      var t1 := t[head := Sub(fn, n)];
      var r := Register(t1, rest, fn, n);
      TidyAdds(t1, rest, fn, n);
      TidySame(t1, t[head := Sub(0, n)], rest, n);
      RegisterCounts(t1, rest, fn, n, head);
      assert r == Register(t, names, fn, pending);
      if head in t || pending == 1 {
        assert forall name ::
            PendingOf(t, name) + NameCount(names, name) == PendingOf(t1, name) + NameCount(rest, name);
        assert Adds(t1, r, rest) <==> Adds(t, r, names);
      } else {
        assert r[head].pending >= n + NameCount(rest, head) > PendingOf(t, head) + NameCount(names, head);
      }
    }
  }

  lemma SingleTidy(t: Table, names: seq<bytes>)
    requires |names| <= 1
    ensures Tidy(t, names, 1)
  {
  }

  /** A subscribe command keeps the counters exact if and only if it is tidy. */
  lemma IssuedExact(w: World, cmd: Command, fn: nat)
    requires Good(w) && Exact(w, cmd.pattern) && cmd.Subscribe? && cmd.names != []
    ensures Exact(Step(w, Issued(cmd, fn)), cmd.pattern) <==> Tidy(Tab(w.client, cmd.pattern), cmd.names, 1)
  {
    hide Register, Tidy, Good;
    var p := cmd.pattern;
    var t, w1 := Tab(w.client, p), Step(w, Issued(cmd, fn));
    GoodCounters(w, p);
    TidyAdds(t, cmd.names, fn, 1);
    forall name ensures Outstanding(w1, p, name) == Outstanding(w, p, name) + NameCount(cmd.names, name) {
      UpCountAppend(w.up, Spread(cmd, cmd.names), p, name);
      SpreadCount(cmd, cmd.names, p, name);
    }
    forall name ensures PendingOf(t, name) == Outstanding(w, p, name) {
      if name !in t { GoodAwaited(w, p, name); }
    }
  }

  lemma GoodCounters(w: World, p: bool)
    requires Good(w)
    ensures forall n :: n in Tab(w.client, p) ==> Tab(w.client, p)[n].pending >= 0
  {
    forall n | n in Tab(w.client, p) ensures Tab(w.client, p)[n].pending >= 0 { GoodAt(w, p, n); }
  }

  lemma GoodAwaited(w: World, p: bool, name: bytes)
    requires Good(w) && name !in Tab(w.client, p)
    ensures Outstanding(w, p, name) == 0
  {
    GoodAt(w, p, name);
  }

  /** Once everything has arrived, exact counters mean that the table holds exactly what the server holds. */
  lemma Quiet(w: World, p: bool)
    requires Good(w) && Exact(w, p) && w.up == [] && w.down == []
    ensures Tab(w.client, p).Keys == On(w.server, p)
  {
    assert w.seen == w.server;
    forall name ensures name in Tab(w.client, p) <==> name in On(w.server, p) { GoodAt(w, p, name); }
  }

  // ----- commands take effect -----

  /** A command is refused exactly if it unsubscribes while nothing is subscribed. */
  lemma Refusals(w: World, cmd: Command, fn: nat)
    requires Good(w)
    ensures Issue(w.client, cmd, fn) == None <==>
              cmd.Unsubscribe? && w.client.channels == map[] && w.client.patterns == map[]
  {
    hide Register, Covered, Leads;
  }

  /** Every name of a command that is not refused is on its way to the server, behind those issued before. */
  lemma IssuedUp(w: World, cmd: Command, fn: nat)
    requires Good(w) && !(cmd.Unsubscribe? && w.client.channels == map[] && w.client.patterns == map[])
    ensures var up := Step(w, Issued(cmd, fn)).up;
            && |up| == |w.up| + |cmd.names| && up[..|w.up|] == w.up
            && forall i :: 0 <= i < |cmd.names| ==> up[|w.up| + i] == (cmd, cmd.names[i])
  {
    hide Good, Issue;
    Refusals(w, cmd, fn);
    SpreadAt(cmd, cmd.names);
  }

  lemma {:induction false} SpreadAt(cmd: Command, names: seq<bytes>)
    ensures |Spread(cmd, names)| == |names|
    ensures forall i :: 0 <= i < |names| ==> Spread(cmd, names)[i] == (cmd, names[i])
  {
    if names != [] {
      SpreadAt(cmd, names[1..]);
      forall i | 1 <= i < |names| ensures Spread(cmd, names)[i] == (cmd, names[i]) {
        assert Spread(cmd, names)[i] == Spread(cmd, names[1..])[i - 1];
      }
    }
  }

  function Repeat(e: Event, n: nat): seq<Event> { if n == 0 then [] else [e] + Repeat(e, n - 1) }

  /** Whether the last of the commands about a name subscribes to it; `before` if there is none. */
  function Wanted(up: seq<(Command, bytes)>, p: bool, name: bytes, before: bool): bool {
    if up == [] then before
    else
      Wanted(up[1..], p, name,
             if up[0].0.pattern == p && up[0].1 == name then up[0].0.Subscribe? else before)
  }

  /** The server works off all that is on its way, in order. */
  lemma {:induction false} ServeAll(w: World)
    ensures var w' := Run(w, Repeat(Served, |w.up|));
            && w'.up == [] && w'.client == w.client && w'.seen == w.seen && |w'.down| == |w.down| + |w.up|
            && forall p, name :: name in On(w'.server, p) <==> Wanted(w.up, p, name, name in On(w.server, p))
    decreases |w.up|
  {
    if w.up != [] {
      var w1 := Step(w, Served);
      assert Repeat(Served, |w.up|)[1..] == Repeat(Served, |w1.up|);
      ServeAll(w1);
      forall p, name
        ensures Wanted(w.up, p, name, name in On(w.server, p)) == Wanted(w1.up, p, name, name in On(w1.server, p))
      {
        ServedOn(w, p, name);
      }
    }
  }

  lemma ServedOn(w: World, p: bool, name: bytes)
    requires w.up != []
    ensures (name in On(Step(w, Served).server, p)) ==
              if w.up[0].0.pattern == p && w.up[0].1 == name then w.up[0].0.Subscribe? else name in On(w.server, p)
  {
  }

  lemma {:induction false} DeliverAll(w: World)
    ensures var w' := Run(w, Repeat(Delivered, |w.down|)); w'.down == [] && w'.up == w.up && w'.server == w.server
    decreases |w.down|
  {
    if w.down != [] {
      hide Receive, Seen;
      var w1 := Step(w, Delivered);
      assert Repeat(Delivered, |w.down|)[1..] == Repeat(Delivered, |w1.down|);
      DeliverAll(w1);
    }
  }

  /**
   From any state of a run, once the server has served what was issued and its replies are delivered: the
   server holds exactly what the commands issued last say, and so does the client if its counters are exact.
   */
  lemma Settles(w: World) returns (w': World)
    requires Good(w)
    ensures w' == Run(Run(w, Repeat(Served, |w.up|)), Repeat(Delivered, |w.down| + |w.up|))
    ensures Good(w') && w'.up == [] && w'.down == []
    ensures forall p, name :: name in On(w'.server, p) <==> Wanted(w.up, p, name, name in On(w.server, p))
    ensures forall p :: Exact(w, p) ==>
              Exact(w', p) && forall name :: name in Tab(w'.client, p) <==>
                                             Wanted(w.up, p, name, name in On(w.server, p))
  {
    hide Good, Run, Exact, Wanted;
    var w1 := Run(w, Repeat(Served, |w.up|));
    ServeAll(w);
    RunGood(w, Repeat(Served, |w.up|));
    w' := Run(w1, Repeat(Delivered, |w1.down|));
    DeliverAll(w1);
    RunGood(w1, Repeat(Delivered, |w1.down|));
    forall p | Exact(w, p)
      ensures Exact(w', p) && Tab(w'.client, p).Keys == On(w'.server, p)
    {
      RepeatSingle(Served, |w.up|);
      RepeatSingle(Delivered, |w1.down|);
      RunExact(w, Repeat(Served, |w.up|), p);
      RunExact(w1, Repeat(Delivered, |w1.down|), p);
      Quiet(w', p);
    }
  }

  lemma {:induction false} RepeatSingle(e: Event, n: nat)
    requires Single(e)
    ensures forall i :: 0 <= i < |Repeat(e, n)| ==> Single(Repeat(e, n)[i])
  {
    if n > 0 { RepeatSingle(e, n - 1); }
  }

  predicate Single(e: Event) { e.Issued? && e.cmd.Subscribe? ==> |e.cmd.names| <= 1 }

  lemma StepExact(w: World, e: Event, p: bool)
    requires Good(w) && Exact(w, p) && Single(e)
    ensures Exact(Step(w, e), p)
  {
    hide Good, Register;
    var w1 := Step(w, e);
    match e
    case Issued(cmd, fn) =>
      if cmd.names == [] {
      } else if cmd.Subscribe? && cmd.pattern == p {
        SingleTidy(Tab(w.client, p), cmd.names);
        IssuedExact(w, cmd, fn);
      } else {
        forall name ensures Outstanding(w1, p, name) == Outstanding(w, p, name) {
          UpCountAppend(w.up, Spread(cmd, cmd.names), p, name);
          SpreadCount(cmd, cmd.names, p, name);
        }
      }
    case Served => if w.up != [] { ServedGood(w); }
    case Posted(q, name) => PostedGood(w, q, name);
    case Delivered => if w.down != [] { DeliveredExact(w, p); }
  }

  lemma DeliveredExact(w: World, p: bool)
    requires Good(w) && Exact(w, p) && w.down != []
    ensures Exact(Step(w, Delivered), p)
  {
    hide Receive, Outstanding, Leads;
    ReceiveTab(w.client, w.down[0], p);
    forall name { DeliveredCount(w, p, name); }
    if !w.down[0].Removed? { DeliveredFinds(w); }
  }

  /** With one name a subscribe command, the counters are exact throughout every run. */
  lemma {:induction false} RunExact(w: World, es: seq<Event>, p: bool)
    requires Good(w) && Exact(w, p) && forall i :: 0 <= i < |es| ==> Single(es[i])
    ensures Exact(Run(w, es), p)
    decreases |es|
  {
    hide Good, Exact, Step;
    if es != [] {
      StepGood(w, es[0]);
      StepExact(w, es[0], p);
      RunExact(Step(w, es[0]), es[1..], p);
    }
  }

  lemma RegisterTwo(a: bytes, b: bytes)
    requires a != b
    ensures PendingOf(Register(Register(map[], [a], 0, 1), [a, b], 1, 1), b) == 2
  {
    var t0: Table := map[];
    var t1, t2 := t0[a := Sub(0, 1)], t0[a := Sub(0, 1)][a := Sub(1, 2)];
    assert [a][1..] == [] && [a, b][1..] == [b] && [b][1..] == [];
    assert Register(t0, [a], 0, 1) == Register(t1, [], 0, 1) == t1;
    assert Register(t1, [a, b], 1, 1) == Register(t2, [b], 1, 2);
    assert b !in t2;
    assert Register(t2, [b], 1, 2) == Register(t2[b := Sub(1, 2)], [], 1, 2) == t2[b := Sub(1, 2)];
  }

  /** Subscribing to a, then to a and b together, leaves the counter of b one too high. */
  lemma CounterTooHigh()
    ensures var a: bytes, b: bytes := [97], [98];
            var w := Run(START, [Issued(Subscribe(false, [a]), 0), Issued(Subscribe(false, [a, b]), 1)]);
            Good(w) && PendingOf(w.client.channels, b) == 2 && Outstanding(w, false, b) == 1
  {
    var a: bytes, b: bytes := [97], [98];
    assert a != b;
    var es := [Issued(Subscribe(false, [a]), 0), Issued(Subscribe(false, [a, b]), 1)];
    StartGood();
    RunGood(START, es);
    var w1 := Step(START, es[0]);
    var w2 := Step(w1, es[1]);
    assert es[1..] == [es[1]] && es[1..][1..] == [];
    assert Run(START, es) == Run(w1, es[1..]) == Run(w2, []) == w2;
    assert [a][1..] == [] && [a, b][1..] == [b] && [b][1..] == [];
    RegisterTwo(a, b);
    assert w2.client.channels == Register(Register(map[], [a], 0, 1), [a, b], 1, 1);
    var cmd := Subscribe(false, [a, b]);
    SpreadCount(Subscribe(false, [a]), [a], false, b);
    SpreadCount(cmd, [a, b], false, b);
    UpCountAppend(w1.up, Spread(cmd, [a, b]), false, b);
  }
}
