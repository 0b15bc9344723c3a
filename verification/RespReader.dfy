/**
 The resumable reader of src/hiredis/read.c: a byte buffer, an explicit task stack
 and a reply tree filled in place, proved to compute the grammar of RespGrammar
 however the input is cut.
 */
module RespReader {
  import opened Bytes
  import opened RespGrammar

  const STACK_SIZE: nat := 9
  const MAX_BUF: nat := 16 * 1024
  const SDS_MAX_PREALLOC: nat := 1024 * 1024

  // ----- partial reply trees -----

  /** An aggregate under construction: its finished children, the current one, and how many follow. */
  datatype Frame = Frame(kind: Type, done: seq<Reply>, remaining: nat)

  function Unsets(n: nat): (s: seq<Reply>)
    ensures |s| == n && forall i :: 0 <= i < n ==> s[i] == Unset
  {
    seq(n, _ => Unset)
  }

  /** The tree whose open aggregates are `frames`, outermost first, with v in the current place. */
  ghost function Plug(frames: seq<Frame>, v: Reply): Reply {
    if frames == [] then v
    else
      var f := frames[0];
      Aggregate(f.kind, f.done + [Plug(frames[1..], v)] + Unsets(f.remaining))
  }

  /** Assignment to `element[i_1]->element[i_2]...` along a path of indices. */
  function StoreAt(t: Reply, path: seq<int>, v: Reply): Reply
    decreases |path|
  {
    if path == [] then v
    else if t.Aggregate? && 0 <= path[0] < |t.elements| then
      t.(elements := t.elements[path[0] := StoreAt(t.elements[path[0]], path[1..], v)])
    else t
  }

  ghost predicate PathOf(frames: seq<Frame>, path: seq<int>) {
    |path| == |frames| && forall i :: 0 <= i < |frames| ==> path[i] == |frames[i].done|
  }

  lemma {:induction false} StorePlug(frames: seq<Frame>, path: seq<int>, u: Reply, v: Reply)
    requires PathOf(frames, path)
    ensures StoreAt(Plug(frames, u), path, v) == Plug(frames, v)
    decreases |frames|
  {
    if frames != [] {
      var f := frames[0];
      assert path[0] == |f.done|;
      StorePlug(frames[1..], path[1..], u, v);
      var before := f.done + [Plug(frames[1..], u)] + Unsets(f.remaining);
      assert before[|f.done| := Plug(frames[1..], v)] == f.done + [Plug(frames[1..], v)] + Unsets(f.remaining);
    }
  }

  lemma {:induction false} PlugSnoc(frames: seq<Frame>, f: Frame, v: Reply)
    ensures Plug(frames + [f], v) == Plug(frames, Aggregate(f.kind, f.done + [v] + Unsets(f.remaining)))
  {
    if frames == [] {
      assert (frames + [f])[1..] == [];
    } else {
      assert (frames + [f])[1..] == frames[1..] + [f];
      PlugSnoc(frames[1..], f, v);
    }
  }

  /** Advancing to the next sibling leaves the tree as it is. */
  lemma PlugAdvance(frames: seq<Frame>, f: Frame, v: Reply)
    requires f.remaining > 0
    ensures Plug(frames + [f], v) == Plug(frames + [Frame(f.kind, f.done + [v], f.remaining - 1)], Unset)
  {
    var g := Frame(f.kind, f.done + [v], f.remaining - 1);
    PlugSnoc(frames, f, v);
    PlugSnoc(frames, g, Unset);
    assert f.done + [v] + Unsets(f.remaining) == g.done + [Unset] + Unsets(g.remaining);
  }

  lemma PlugOpen(frames: seq<Frame>, kind: Type, count: nat)
    requires count > 0
    ensures Plug(frames, Aggregate(kind, Unsets(count))) == Plug(frames + [Frame(kind, [], count - 1)], Unset)
  {
    PlugSnoc(frames, Frame(kind, [], count - 1), Unset);
    assert Unsets(count) == [] + [Unset] + Unsets(count - 1);
  }

  // ----- what a suspended parse still has to do -----

  /** Having finished v inside `frames`, parse the remaining siblings level by level. */
  ghost function Close(dbl: Doubles, frames: seq<Frame>, v: Reply, x: bytes): Parsed<Reply>
    decreases |frames|, 0
  {
    if frames == [] then Done(v, x)
    else
      var init, f := frames[..|frames| - 1], frames[|frames| - 1];
      CloseAll(dbl, init, f.kind, f.done + [v], ParseMany(dbl, f.remaining, x))
  }

  ghost function CloseAll(dbl: Doubles, frames: seq<Frame>, kind: Type, before: seq<Reply>, after: Parsed<seq<Reply>>)
    : Parsed<Reply>
    decreases |frames|, 1
  {
    match after
    case Done(vs, rest) => Close(dbl, frames, Aggregate(kind, before + vs), rest)
    case More => More
    case Bad(e) => Bad(e)
  }

  /** The current item, whose type byte may already have been read. */
  ghost function ParseCurrent(dbl: Doubles, typ: Option<Type>, x: bytes): Parsed<Reply> {
    match typ
    case None => ParseReply(dbl, x)
    case Some(t) => ParseBody(dbl, t, x)
  }

  ghost function Resume(dbl: Doubles, frames: seq<Frame>, typ: Option<Type>, x: bytes): Parsed<Reply> {
    match ParseCurrent(dbl, typ, x)
    case Done(v, rest) => Close(dbl, frames, v, rest)
    case More => More
    case Bad(e) => Bad(e)
  }

  /** The suspended state stands for the grammar having been started on `held`. */
  ghost predicate Tracks(dbl: Doubles, frames: seq<Frame>, typ: Option<Type>, held: bytes) {
    forall x: bytes {:trigger Resume(dbl, frames, typ, x)} ::
      Resume(dbl, frames, typ, x) == ParseReply(dbl, held + x)
  }

  /** Reading `used` after `held` completes v as the current item of `frames`. */
  ghost predicate Consumed(dbl: Doubles, frames: seq<Frame>, held: bytes, used: bytes, v: Reply) {
    forall x: bytes {:trigger Close(dbl, frames, v, x)} ::
      ParseReply(dbl, held + used + x) == Close(dbl, frames, v, x)
  }

  /** Having completed v inside `frames`, the parse stands as in `frames'` with the next item unread. */
  ghost predicate Advanced(dbl: Doubles, frames: seq<Frame>, v: Reply, frames': seq<Frame>) {
    forall x: bytes {:trigger Close(dbl, frames, v, x)} {:trigger Resume(dbl, frames', None, x)} ::
      Close(dbl, frames, v, x) == Resume(dbl, frames', None, x)
  }

  /** Having completed v inside `frames`, the whole reply is w. */
  ghost predicate Closed(dbl: Doubles, frames: seq<Frame>, v: Reply, w: Reply) {
    forall x: bytes {:trigger Close(dbl, frames, v, x)} :: Close(dbl, frames, v, x) == Done(w, x)
  }

  /** Two suspended positions with the same future. */
  ghost predicate SameClose(dbl: Doubles, frames: seq<Frame>, v: Reply, frames': seq<Frame>, v': Reply) {
    forall x: bytes {:trigger Close(dbl, frames, v, x)} {:trigger Close(dbl, frames', v', x)} ::
      Close(dbl, frames, v, x) == Close(dbl, frames', v', x)
  }

  lemma SameCloseRefl(dbl: Doubles, frames: seq<Frame>, v: Reply)
    ensures SameClose(dbl, frames, v, frames, v)
  {
  }

  lemma SameClosePop(dbl: Doubles, frames: seq<Frame>, v: Reply, init: seq<Frame>, f: Frame, w: Reply)
    requires SameClose(dbl, frames, v, init + [f], w) && f.remaining == 0
    ensures SameClose(dbl, frames, v, init, Aggregate(f.kind, f.done + [w]))
  {
    forall x: bytes
      ensures Close(dbl, frames, v, x) == Close(dbl, init, Aggregate(f.kind, f.done + [w]), x)
    {
      assert Close(dbl, frames, v, x) == Close(dbl, init + [f], w, x);
      ClosePop(dbl, init, f, w, x);
    }
  }

  lemma SameCloseAdvance(dbl: Doubles, frames: seq<Frame>, v: Reply, init: seq<Frame>, f: Frame, w: Reply)
    requires SameClose(dbl, frames, v, init + [f], w) && f.remaining > 0
    ensures Advanced(dbl, frames, v, init + [Frame(f.kind, f.done + [w], f.remaining - 1)])
  {
    var g := Frame(f.kind, f.done + [w], f.remaining - 1);
    forall x: bytes ensures Close(dbl, frames, v, x) == Resume(dbl, init + [g], None, x) {
      assert Close(dbl, frames, v, x) == Close(dbl, init + [f], w, x);
      CloseAdvance(dbl, init, f, w, x);
    }
  }

  lemma SameCloseDone(dbl: Doubles, frames: seq<Frame>, v: Reply, w: Reply)
    requires SameClose(dbl, frames, v, [], w)
    ensures Closed(dbl, frames, v, w) && Plug([], w) == w
  {
  }

  lemma ConsumedAdvanced(dbl: Doubles, frames: seq<Frame>, held: bytes, used: bytes, v: Reply, frames': seq<Frame>)
    requires Consumed(dbl, frames, held, used, v) && Advanced(dbl, frames, v, frames')
    ensures Tracks(dbl, frames', None, held + used)
  {
    forall x: bytes ensures Resume(dbl, frames', None, x) == ParseReply(dbl, held + used + x) {
      assert Close(dbl, frames, v, x) == Resume(dbl, frames', None, x);
    }
  }

  lemma ConsumedClosed(dbl: Doubles, frames: seq<Frame>, held: bytes, used: bytes, v: Reply, w: Reply, x: bytes)
    requires Consumed(dbl, frames, held, used, v) && Closed(dbl, frames, v, w)
    ensures ParseReply(dbl, held + used + x) == Done(w, x)
  {
    assert Close(dbl, frames, v, x) == Done(w, x);
  }

  lemma ConsumedBy(dbl: Doubles, frames: seq<Frame>, held: bytes, t: Type, used: bytes, v: Reply)
    requires Tracks(dbl, frames, Some(t), held)
    requires forall x: bytes :: ParseBody(dbl, t, used + x) == Done(v, x)
    ensures Consumed(dbl, frames, held, used, v)
  {
    forall x: bytes
      ensures ParseReply(dbl, held + used + x) == Close(dbl, frames, v, x)
    {
      assert held + used + x == held + (used + x);
      TracksAt(dbl, frames, Some(t), held, used + x);
    }
  }

  lemma TracksType(dbl: Doubles, frames: seq<Frame>, held: bytes, b: byte)
    requires Tracks(dbl, frames, None, held) && TypeOf(b).Some?
    ensures Tracks(dbl, frames, TypeOf(b), held + [b])
  {
    forall x: bytes
      ensures Resume(dbl, frames, TypeOf(b), x) == ParseReply(dbl, held + [b] + x)
    {
      assert held + [b] + x == held + ([b] + x);
      assert ([b] + x)[1..] == x;
      TracksAt(dbl, frames, None, held, [b] + x);
    }
  }

  lemma TracksTypeVerdict(dbl: Doubles, frames: seq<Frame>, held: bytes, rest: bytes)
    requires Tracks(dbl, frames, None, held)
    ensures rest == [] ==> ParseReply(dbl, held + rest) == More
    ensures rest != [] && TypeOf(rest[0]) == None ==> ParseReply(dbl, held + rest) == Bad(BadTypeByte(rest[0]))
  {
    TracksAt(dbl, frames, None, held, rest);
  }

  /** What a line item does with the unread bytes. */
  lemma LineVerdict(dbl: Doubles, frames: seq<Frame>, held: bytes, t: Type, rest: bytes)
    requires Tracks(dbl, frames, Some(t), held) && IsLineType(t)
    ensures FindCrlf(rest) == None ==> ParseReply(dbl, held + rest) == More
    ensures FindCrlf(rest).Some? ==>
              var i := FindCrlf(rest).value;
              match LineValue(dbl, t, rest[..i])
              case Err(e) => ParseReply(dbl, held + rest) == Bad(e)
              case Ok(v) => Consumed(dbl, frames, held, rest[..i + 2], v)
  {
    TracksAt(dbl, frames, Some(t), held, rest);
    if FindCrlf(rest).Some? {
      var i := FindCrlf(rest).value;
      match LineValue(dbl, t, rest[..i])
      case Err(e) =>
      case Ok(v) =>
        forall x: bytes ensures ParseBody(dbl, t, rest[..i + 2] + x) == Done(v, x) {
          LinePrefix(rest, i, x);
        }
        ConsumedBy(dbl, frames, held, t, rest[..i + 2], v);
    }
  }

  /** What a bulk item does with the unread bytes. */
  lemma BulkVerdict(dbl: Doubles, frames: seq<Frame>, held: bytes, t: Type, rest: bytes)
    requires Tracks(dbl, frames, Some(t), held) && IsBulkType(t)
    ensures FindCrlf(rest) == None ==> ParseReply(dbl, held + rest) == More
    ensures FindCrlf(rest).Some? ==>
              BulkOutcome(dbl, frames, held, t, rest, FindCrlf(rest).value, ParseNumber(rest[..FindCrlf(rest).value]))
  {
    hide Tracks, Consumed;
    TracksBlocked(dbl, frames, t, held, rest);
    if FindCrlf(rest).Some? {
      var i := FindCrlf(rest).value;
      var n := ParseNumber(rest[..i]);
      var b := ParseBulk(t, n, rest[i + 2..]);
      assert ParseBody(dbl, t, rest) == b;
      if b.Done? { BulkConsumed(dbl, frames, held, t, rest, i, b.value, b.rest); }
      if n.Some? && 0 <= n.value && i + n.value + 4 <= |rest| {
        assert rest[i + 2..][..n.value] == rest[i + 2..i + 2 + n.value];
        assert rest[..|rest| - |rest[i + 2..][n.value + 2..]|] == rest[..i + n.value + 4];
      }
    }
  }

  /** The cases of a bulk item whose header line ends at i and announces n. */
  ghost predicate BulkOutcome(dbl: Doubles, frames: seq<Frame>, held: bytes, t: Type, rest: bytes, i: nat,
                              n: Option<int>)
    requires IsBulkType(t) && i + 2 <= |rest|
  {
    if n == None then ParseReply(dbl, held + rest) == Bad(BadBulkLength)
    else if n.value < -1 then ParseReply(dbl, held + rest) == Bad(BulkLengthOutOfRange)
    else if n.value == -1 then Consumed(dbl, frames, held, rest[..i + 2], Nil)
    else if |rest| < i + n.value + 4 then ParseReply(dbl, held + rest) == More
    else
      match BulkValue(t, rest[i + 2..i + 2 + n.value])
      case Err(e) => ParseReply(dbl, held + rest) == Bad(e)
      case Ok(v) => Consumed(dbl, frames, held, rest[..i + n.value + 4], v)
  }

  lemma BulkConsumed(dbl: Doubles, frames: seq<Frame>, held: bytes, t: Type, rest: bytes, i: nat, v: Reply,
                     after: bytes)
    requires Tracks(dbl, frames, Some(t), held) && IsBulkType(t)
    requires FindCrlf(rest) == Some(i) && ParseBulk(t, ParseNumber(rest[..i]), rest[i + 2..]) == Done(v, after)
    ensures |after| <= |rest| && Consumed(dbl, frames, held, rest[..|rest| - |after|], v)
  {
    hide Tracks, Consumed;
    var used := rest[..|rest| - |after|];
    assert ParseBody(dbl, t, rest) == Done(v, after);
    assert after == rest[|used|..];
    forall x: bytes ensures ParseBody(dbl, t, used + x) == Done(v, x) {
      BulkPrefix(dbl, t, rest, |used|, x);
    }
    ConsumedBy(dbl, frames, held, t, used, v);
  }

  /** What an aggregate header does with the unread bytes. */
  lemma AggregateVerdict(dbl: Doubles, frames: seq<Frame>, held: bytes, t: Type, rest: bytes)
    requires Tracks(dbl, frames, Some(t), held) && IsAggregateType(t)
    ensures FindCrlf(rest) == None ==> ParseReply(dbl, held + rest) == More
    ensures FindCrlf(rest).Some? ==>
              var i := FindCrlf(rest).value;
              var used := rest[..i + 2];
              match ParseNumber(rest[..i])
              case None => ParseReply(dbl, held + rest) == Bad(BadMultiBulkLength)
              case Some(n) =>
                if n < -1 || n > MAX_ELEMENTS then ParseReply(dbl, held + rest) == Bad(MultiBulkLengthOutOfRange)
                else if n == -1 then Consumed(dbl, frames, held, used, Nil)
                else if n == 0 then Consumed(dbl, frames, held, used, Aggregate(t, []))
                else Tracks(dbl, frames + [Frame(t, [], ChildCount(t, n) - 1)], None, held + used)
  {
    hide FindCrlf, ParseNumber, Tracks, Consumed;
    TracksAt(dbl, frames, Some(t), held, rest);
    if FindCrlf(rest).Some? && ParseNumber(rest[..FindCrlf(rest).value]).Some? {
      var i := FindCrlf(rest).value;
      var used, n := rest[..i + 2], ParseNumber(rest[..i]).value;
      if n == -1 || n == 0 {
        var v := if n == 0 then Aggregate(t, []) else Nil;
        forall x: bytes ensures ParseBody(dbl, t, used + x) == Done(v, x) {
          LinePrefix(rest, i, x);
        }
        ConsumedBy(dbl, frames, held, t, used, v);
      } else if 0 < n <= MAX_ELEMENTS {
        TracksOpen(dbl, frames, held, t, rest, i, ChildCount(t, n));
      }
    }
  }

  lemma TracksOpen(dbl: Doubles, frames: seq<Frame>, held: bytes, t: Type, rest: bytes, i: nat, count: nat)
    requires Tracks(dbl, frames, Some(t), held) && IsAggregateType(t)
    requires FindCrlf(rest) == Some(i) && i + 2 <= |rest| && ParseNumber(rest[..i]).Some?
    requires 0 < ParseNumber(rest[..i]).value <= MAX_ELEMENTS && count == ChildCount(t, ParseNumber(rest[..i]).value)
    ensures Tracks(dbl, frames + [Frame(t, [], count - 1)], None, held + rest[..i + 2])
  {
    var used := rest[..i + 2];
    forall x: bytes
      ensures Resume(dbl, frames + [Frame(t, [], count - 1)], None, x) == ParseReply(dbl, held + used + x)
    {
      LinePrefix(rest, i, x);
      assert held + used + x == held + (used + x);
      TracksAt(dbl, frames, Some(t), held, used + x);
      ResumeAggregate(dbl, frames, t, used + x);
      ResumeOpen(dbl, frames, t, count, x);
    }
  }

  lemma TracksAt(dbl: Doubles, frames: seq<Frame>, typ: Option<Type>, held: bytes, x: bytes)
    requires Tracks(dbl, frames, typ, held)
    ensures ParseReply(dbl, held + x) == Resume(dbl, frames, typ, x)
  {
  }

  lemma TracksBlocked(dbl: Doubles, frames: seq<Frame>, t: Type, held: bytes, rest: bytes)
    requires Tracks(dbl, frames, Some(t), held)
    ensures ParseBody(dbl, t, rest).More? ==> ParseReply(dbl, held + rest) == More
    ensures ParseBody(dbl, t, rest).Bad? ==> ParseReply(dbl, held + rest) == Bad(ParseBody(dbl, t, rest).error)
  {
    TracksAt(dbl, frames, Some(t), held, rest);
  }

  lemma TracksNothing(dbl: Doubles, frames: seq<Frame>, typ: Option<Type>, held: bytes)
    requires Tracks(dbl, frames, typ, held)
    ensures ParseReply(dbl, held) == More
  {
    assert held + [] == held;
    TracksAt(dbl, frames, typ, held, []);
  }

  lemma TracksStart(dbl: Doubles)
    ensures Tracks(dbl, [], None, []) && Plug([], Unset) == Unset && ParseReply(dbl, []) == More
  {
    forall x: bytes ensures Resume(dbl, [], None, x) == ParseReply(dbl, [] + x) { assert [] + x == x; }
  }

  lemma CloseAdvance(dbl: Doubles, frames: seq<Frame>, f: Frame, v: Reply, x: bytes)
    requires f.remaining > 0
    ensures Close(dbl, frames + [f], v, x)
         == Resume(dbl, frames + [Frame(f.kind, f.done + [v], f.remaining - 1)], None, x)
  {
    var g := Frame(f.kind, f.done + [v], f.remaining - 1);
    assert (frames + [f])[..|frames|] == frames;
    assert (frames + [g])[..|frames|] == frames;
    assert Close(dbl, frames + [f], v, x)
        == CloseAll(dbl, frames, f.kind, f.done + [v], ParseMany(dbl, f.remaining, x));
    match ParseReply(dbl, x)
    case Done(w, rest) =>
      var more := ParseMany(dbl, g.remaining, rest);
      assert Close(dbl, frames + [g], w, rest) == CloseAll(dbl, frames, g.kind, g.done + [w], more);
      if more.Done? {
        assert ParseMany(dbl, f.remaining, x) == Done([w] + more.value, more.rest);
        assert f.done + [v] + ([w] + more.value) == g.done + [w] + more.value;
      }
    case _ =>
  }

  lemma ClosePop(dbl: Doubles, frames: seq<Frame>, f: Frame, v: Reply, x: bytes)
    requires f.remaining == 0
    ensures Close(dbl, frames + [f], v, x) == Close(dbl, frames, Aggregate(f.kind, f.done + [v]), x)
  {
    assert (frames + [f])[..|frames|] == frames;
    assert f.done + [v] + [] == f.done + [v];
  }

  /** Descending into a non-empty aggregate of `count` children. */
  lemma ResumeOpen(dbl: Doubles, frames: seq<Frame>, t: Type, n: nat, x: bytes)
    requires IsAggregateType(t) && n > 0
    ensures CloseAll(dbl, frames, t, [], ParseMany(dbl, n, x))
         == Resume(dbl, frames + [Frame(t, [], n - 1)], None, x)
  {
    var g := Frame(t, [], n - 1);
    assert (frames + [g])[..|frames|] == frames;
    match ParseReply(dbl, x)
    case Done(w, rest) =>
      var more := ParseMany(dbl, n - 1, rest);
      assert Close(dbl, frames + [g], w, rest) == CloseAll(dbl, frames, t, [] + [w], more);
      if more.Done? {
        assert ParseMany(dbl, n, x) == Done([w] + more.value, more.rest);
        assert [] + ([w] + more.value) == [] + [w] + more.value;
      }
    case _ =>
  }

  // ----- the scanning loops -----

  /** seekNewline: the first CRLF of the given stretch of the buffer. */
  method SeekNewline(s: bytes) returns (r: Option<nat>)
    ensures r == FindCrlf(s)
  {
    var pos := 0;
    var last := |s| - 1;
    while pos < last
      invariant 0 <= pos && (pos <= last || last < 0)
      invariant forall j :: 0 <= j < pos ==> !CrlfAt(s, j)
    {
      while pos < last && s[pos] != CR
        invariant 0 <= pos <= last
        invariant forall j :: 0 <= j < pos ==> !CrlfAt(s, j)
      {
        pos := pos + 1;
      }
      if pos == last {
        return None;
      } else if s[pos + 1] == LF {
        FindCrlfIs(s, pos);
        return Some(pos);
      } else {
        pos := pos + 1;
      }
    }
    return None;
  }

  /** string2ll, with the overflow tests of the 64-bit accumulator. */
  method String2LL(s: bytes) returns (r: Option<int>)
    ensures r == ParseNumber(s)
  {
    if |s| == 0 { return None; }
    if |s| == 1 && s[0] == ZERO {
      assert s[..0] == [] && DigitsValue(s) == 0;
      return Some(0);
    }
    var p, negative := 0, false;
    if s[0] == MINUS {
      negative := true;
      p := 1;
      if p == |s| { return None; }
    }
    var v: int;
    ghost var start := p;
    if ZERO < s[p] <= NINE {
      v := s[p] - ZERO;
      p := p + 1;
    } else {
      return None;
    }
    ghost var t := s[start..];
    assert t[..1] == [t[0]] && t[..1][..0] == [];
    while p < |s| && ZERO <= s[p] <= NINE
      invariant start < p <= |s|
      invariant AllDigits(t[..p - start])
      invariant v == DigitsValue(t[..p - start])
      invariant v <= ULLONG_MAX
    {
      assert t[..p + 1 - start] == t[..p - start] + [s[p]];
      assert t[..p + 1 - start][..p - start] == t[..p - start];
      if v > ULLONG_MAX / 10 || v * 10 > ULLONG_MAX - (s[p] - ZERO) {
        assert DigitsValue(t[..p + 1 - start]) > ULLONG_MAX;
        if AllDigits(t) { DigitsValuePrefix(t, p + 1 - start); }
        assert negative ==> t == s[1..];
        assert !negative ==> t == s;
        return None;
      }
      v := v * 10 + (s[p] - ZERO);
      p := p + 1;
    }
    assert negative ==> t == s[1..];
    assert !negative ==> t == s;
    if p < |s| {
      assert t[p - start] == s[p];
      return None;
    }
    assert t[..p - start] == t;
    if negative {
      if v > LLONG_MAX + 1 { return None; }
      return Some(-v);
    } else {
      if v > LLONG_MAX { return None; }
      return Some(v);
    }
  }

  // ----- the reader object -----

  datatype Task = Task(typ: Option<Type>, elements: int, idx: int)

  /** A task that has opened f and whose successor on the stack is reading the current child. */
  ghost predicate TaskOf(f: Frame, t: Task, child: Task) {
    && IsAggregateType(f.kind)
    && t.typ == Some(f.kind)
    && t.elements == |f.done| + 1 + f.remaining
    && child.idx == |f.done|
  }

  ghost predicate StackOf(frames: seq<Frame>, task: seq<Task>) {
    |frames| < |task| && forall i :: 0 <= i < |frames| ==> TaskOf(frames[i], task[i], task[i + 1])
  }

  class Reader {
    const dbl: Doubles
    var err: Option<Error>
    var buf: bytes
    var pos: nat
    var len: nat
    var alloc: nat
    var task: seq<Task>
    var ridx: int
    var reply: Reply
    /** The open aggregates, outermost first; the stack and the partial tree are read off them. */
    ghost var frames: seq<Frame>
    /** Bytes consumed by the reply under construction. */
    ghost var held: bytes

    ghost predicate Shaped()
      reads this
    {
      pos <= len == |buf| <= alloc && STACK_SIZE <= |task| && -1 <= ridx < |task|
    }

    ghost predicate Stacked()
      reads this
    {
      |frames| == ridx && StackOf(frames, task)
    }

    /** In the middle of a reply. */
    ghost predicate Busy()
      reads this
    {
      && Shaped() && 0 <= ridx && err == None
      && Stacked()
      && reply == Plug(frames, Unset)
      && Tracks(dbl, frames, task[ridx].typ, held)
    }

    /** Between replies. */
    ghost predicate Idle()
      reads this
    {
      Shaped() && ridx == -1 && err == None && reply == Unset && frames == [] && held == []
    }

    ghost predicate Failed()
      reads this
    {
      Shaped() && ridx == -1 && err.Some? && reply == Unset && buf == []
    }

    ghost predicate Valid()
      reads this
    {
      Busy() || Idle() || Failed()
    }

    /** The bytes fed so far that belong to no emitted reply. */
    ghost function Pending(): bytes
      requires Shaped()
      reads this
    {
      held + buf[pos..]
    }

    /** What one processing step from pending bytes `was` with `left` unread bytes may lead to. */
    ghost predicate Stepped(ok: bool, was: bytes, left: int)
      reads this
    {
      match err
      case Some(e) => !ok && Failed() && ParseReply(dbl, was) == Bad(e)
      case None =>
        && Shaped()
        && Pending() == was
        && (if !ok then Busy() && ParseReply(dbl, was) == More
            else len - pos < left &&
                 (Busy() || (ridx == -1 && frames == [] && ParseReply(dbl, was) == Done(reply, buf[pos..]))))
    }

    constructor (dbl: Doubles)
      ensures Idle() && Pending() == [] && this.dbl == dbl
    {
      this.dbl := dbl;
      err, buf, pos, len, alloc, ridx, reply := None, [], 0, 0, 0, -1, Unset;
      task := seq(STACK_SIZE, _ => Task(None, 0, 0));
      frames, held := [], [];
    }

    method SetError(e: Error)
      requires Shaped()
      modifies this
      ensures Failed() && err == Some(e)
    {
      reply := Unset;
      buf, pos, len := [], 0, 0;
      alloc := 0;
      ridx := -1;
      err := Some(e);
    }

    method ReadLine() returns (line: Option<bytes>)
      requires Shaped()
      modifies this`pos
      ensures Shaped()
      ensures match FindCrlf(buf[old(pos)..])
              case None => line == None && pos == old(pos)
              case Some(i) => line == Some(buf[old(pos)..][..i]) && pos == old(pos) + i + 2
    {
      var s := SeekNewline(buf[pos..len]);
      assert buf[pos..len] == buf[pos..];
      match s
      case None => line := None;
      case Some(i) =>
        line := Some(buf[pos..pos + i]);
        assert buf[pos..pos + i] == buf[pos..][..i];
        pos := pos + i + 2;
    }

    /** The create* functions: store the object where the current task says. */
    method Store(obj: Reply)
      requires Shaped() && Stacked() && 0 <= ridx && reply == Plug(frames, Unset)
      modifies this`reply
      ensures reply == Plug(frames, obj)
    {
      if ridx == 0 {
        reply := obj;
      } else {
        var ts := task;
        var path := seq(ridx, i requires 0 <= i && i + 1 < |ts| => ts[i + 1].idx);
        forall i | 0 <= i < |frames| ensures path[i] == |frames[i].done| {
          assert TaskOf(frames[i], ts[i], ts[i + 1]);
        }
        StorePlug(frames, path, Unset, obj);
        reply := StoreAt(reply, path, obj);
      }
    }

    /** moveToNextTask, after v has been stored in the current place. */
    method MoveToNextTask(ghost v: Reply)
      requires Shaped() && Stacked() && 0 <= ridx && reply == Plug(frames, v)
      modifies this`ridx, this`task, this`frames
      ensures Shaped() && |task| == old(|task|)
      ensures ridx == -1 ==> frames == []
      ensures ridx == -1 ==> Closed(dbl, old(frames), v, reply)
      ensures ridx >= 0 ==> Stacked() && reply == Plug(frames, Unset) && task[ridx].typ == None
      ensures ridx >= 0 ==> Advanced(dbl, old(frames), v, frames)
    {
      hide SameClose, Closed, Advanced, Resume, Close, Plug;
      ghost var w := v;
      assert SameClose(dbl, frames, v, frames, w) by { SameCloseRefl(dbl, frames, v); }
      while ridx >= 0
        invariant Shaped() && Stacked() && 0 <= ridx && |task| == old(|task|)
        invariant reply == Plug(frames, w)
        invariant SameClose(dbl, old(frames), v, frames, w)
        decreases ridx
      {
        if ridx == 0 {
          SameCloseDone(dbl, old(frames), v, w);
          ridx := ridx - 1;
          return;
        }
        var cur, prv := task[ridx], task[ridx - 1];
        ghost var init, f := frames[..ridx - 1], frames[ridx - 1];
        assert frames == init + [f];
        assert TaskOf(f, prv, cur);
        if cur.idx == prv.elements - 1 {
          PlugSnoc(init, f, w);
          assert f.done + [w] + Unsets(0) == f.done + [w];
          SameClosePop(dbl, old(frames), v, init, f, w);
          w := Aggregate(f.kind, f.done + [w]);
          frames := init;
          ridx := ridx - 1;
        } else {
          PlugAdvance(init, f, w);
          SameCloseAdvance(dbl, old(frames), v, init, f, w);
          frames := init + [Frame(f.kind, f.done + [w], f.remaining - 1)];
          task := task[ridx := Task(None, -1, cur.idx + 1)];
          return;
        }
      }
    }

    /** Store a finished object and move on, having consumed `used`. */
    method Finish(obj: Reply, ghost was: bytes, ghost used: bytes, ghost left: int)
      requires Shaped() && 0 <= ridx && err == None && Stacked()
      requires reply == Plug(frames, Unset)
      requires was == held + used + buf[pos..]
      requires Consumed(dbl, frames, held, used, obj)
      requires len - pos < left
      modifies this
      ensures buf == old(buf) && Stepped(true, was, left)
    {
      hide Tracks, Consumed, Resume, Close, CloseAll, ParseCurrent, ParseReply, ParseBody, ParseBulk, Plug, BulkValue,
           ParseNumber;
      ghost var before := frames;
      Store(obj);
      MoveToNextTask(obj);
      if ridx >= 0 {
        ConsumedAdvanced(dbl, before, held, used, obj, frames);
      } else {
        ConsumedClosed(dbl, before, held, used, obj, reply, buf[pos..]);
      }
      held := held + used;
    }

    /** The object a line denotes, or the error to report. */
    method LineObject(t: Type, line: bytes) returns (r: Outcome<Reply>)
      requires IsLineType(t)
      ensures r == LineValue(dbl, t, line)
    {
      match t {
        case TInteger =>
          var v := String2LL(line);
          if v == None { return Err(BadInteger); }
          return Ok(Integer(v.value));
        case TDouble =>
          if |line| >= DOUBLE_BUFFER { return Err(DoubleTooLarge); }
          if !dbl(line) { return Err(BadDouble); }
          return Ok(Text(TDouble, line));
        case TNil =>
          return Ok(Nil);
        case TBool =>
          return Ok(Bool(|line| >= 1 && (line[0] == 116 || line[0] == 84)));
        case _ =>
          return Ok(Text(t, line));
      }
    }

    method ProcessLineItem() returns (ok: bool)
      requires Busy() && task[ridx].typ.Some? && IsLineType(task[ridx].typ.value)
      modifies this
      ensures Stepped(ok, old(Pending()), old(len - pos))
    {
      hide Tracks, Consumed, Resume, Close, CloseAll, ParseCurrent, ParseReply, ParseBody, ParseBulk, Plug, BulkValue,
           ParseNumber;
      ghost var was, rest := Pending(), buf[pos..];
      var t := task[ridx].typ.value;
      LineVerdict(dbl, frames, held, t, rest);
      var line := ReadLine();
      if line == None { return false; }
      var made := LineObject(t, line.value);
      if made.Err? { SetError(made.error); return false; }
      ghost var used := rest[..|line.value| + 2];
      assert rest == used + buf[pos..];
      assert was == held + used + buf[pos..];
      Finish(made.value, was, used, old(len - pos));
      ok := true;
    }

    /** The object a complete payload denotes; verbatim strings drop their 4-byte type header. */
    method BulkObject(t: Type, payload: bytes) returns (r: Outcome<Reply>)
      requires IsBulkType(t)
      ensures r == BulkValue(t, payload)
    {
      if t == TVerb && (|payload| < 4 || payload[3] != 58) { return Err(BadVerbatim); }
      if t == TVerb {
        return Ok(Verbatim(payload[..3], payload[4..]));
      } else {
        return Ok(Text(t, payload));
      }
    }

    method ProcessBulkItem() returns (ok: bool)
      requires Busy() && task[ridx].typ.Some? && IsBulkType(task[ridx].typ.value)
      modifies this
      ensures Stepped(ok, old(Pending()), old(len - pos))
    {
      hide Tracks, Consumed, Resume, Close, CloseAll, ParseCurrent, ParseReply, ParseBody, ParseBulk, Plug, BulkValue,
           ParseNumber;
      ghost var was := Pending();
      var t, rest := task[ridx].typ.value, buf[pos..];
      BulkVerdict(dbl, frames, held, t, rest);
      var s := SeekNewline(rest);
      if s == None { return false; }
      var i := s.value;
      var bytelen := i + 2;
      var n := String2LL(rest[..i]);
      if n == None { SetError(BadBulkLength); return false; }
      if n.value < -1 { SetError(BulkLengthOutOfRange); return false; }
      var obj := Nil;
      if n.value != -1 {
        bytelen := bytelen + n.value + 2;
        if pos + bytelen > len { return false; }
        var made := BulkObject(t, rest[i + 2..i + 2 + n.value]);
        if made.Err? { SetError(made.error); return false; }
        obj := made.value;
      }
      ok := true;
      TakeBulk(obj, bytelen, rest, was);
    }

    /** The bytes of a finished bulk item are consumed. */
    method TakeBulk(obj: Reply, bytelen: nat, ghost rest: bytes, ghost was: bytes)
      requires Busy() && 1 <= bytelen <= |rest| && rest == buf[pos..] && was == held + rest
      requires Consumed(dbl, frames, held, rest[..bytelen], obj)
      modifies this
      ensures Stepped(true, was, old(len - pos))
    {
      hide Tracks, Consumed, Resume, Close, CloseAll, ParseCurrent, ParseReply, ParseBody, ParseBulk, Plug, BulkValue,
           ParseNumber;
      ghost var used := rest[..bytelen];
      pos := pos + bytelen;
      assert rest == used + buf[pos..];
      assert was == held + used + buf[pos..];
      Finish(obj, was, used, old(len - pos));
    }

    /** redisReaderGrow: nine more empty tasks. */
    method Grow()
      requires Busy()
      modifies this`task
      ensures Busy() && |task| == old(|task|) + STACK_SIZE && task[..old(|task|)] == old(task)
    {
      task := task + seq(STACK_SIZE, _ => Task(None, 0, 0));
    }

    method ProcessAggregateItem() returns (ok: bool)
      requires Busy() && task[ridx].typ.Some? && IsAggregateType(task[ridx].typ.value)
      modifies this
      ensures Stepped(ok, old(Pending()), old(len - pos))
    {
      hide Tracks, Consumed, Resume, Close, CloseAll, ParseCurrent, ParseReply, ParseBody, ParseBulk, Plug, BulkValue,
           ParseNumber;
      if ridx == |task| - 1 { Grow(); }
      ghost var was, rest := Pending(), buf[pos..];
      var t := task[ridx].typ.value;
      AggregateVerdict(dbl, frames, held, t, rest);
      var line := ReadLine();
      if line == None { return false; }
      var n := String2LL(line.value);
      if n == None { SetError(BadMultiBulkLength); return false; }
      if n.value < -1 || n.value > MAX_ELEMENTS { SetError(MultiBulkLengthOutOfRange); return false; }
      ghost var used := rest[..|line.value| + 2];
      assert rest == used + buf[pos..];
      assert was == held + used + buf[pos..];
      EnterAggregate(t, n.value, used, was, old(len - pos));
      ok := true;
    }

    /** An aggregate whose header announces n elements: nil, empty, or to be descended into. */
    method EnterAggregate(t: Type, n: int, ghost used: bytes, ghost was: bytes, ghost left: int)
      requires Busy() && task[ridx].typ == Some(t) && IsAggregateType(t) && ridx + 1 < |task| && n >= -1
      requires was == held + used + buf[pos..] && len - pos < left
      requires n == -1 ==> Consumed(dbl, frames, held, used, Nil)
      requires n == 0 ==> Consumed(dbl, frames, held, used, Aggregate(t, []))
      requires n > 0 ==> Tracks(dbl, frames + [Frame(t, [], ChildCount(t, n) - 1)], None, held + used)
      modifies this
      ensures Stepped(true, was, left)
    {
      hide Tracks, Consumed, Resume, Close, CloseAll, ParseCurrent, ParseReply, ParseBody, ParseBulk, Plug, BulkValue,
           ParseNumber;
      if n == -1 {
        Finish(Nil, was, used, left);
      } else {
        var count := if t == TMap then n * 2 else n;
        if count > 0 {
          Open(t, count, used);
        } else {
          Finish(Aggregate(t, []), was, used, left);
        }
      }
    }

    /** Create an array of `count` NULL elements and descend into its first one. */
    method Open(t: Type, count: nat, ghost used: bytes)
      requires Busy() && task[ridx].typ == Some(t) && IsAggregateType(t) && ridx + 1 < |task| && count > 0
      requires Tracks(dbl, frames + [Frame(t, [], count - 1)], None, held + used)
      modifies this
      ensures Busy() && held == old(held) + used
      ensures buf == old(buf) && len == old(len) && pos == old(pos)
    {
      hide Tracks, Consumed, Resume, Close, CloseAll, ParseCurrent, ParseReply, ParseBody, ParseBulk, Plug, BulkValue,
           ParseNumber;
      Store(Aggregate(t, Unsets(count)));
      PlugOpen(frames, t, count);
      StackPush(frames, task, t, count);
      task := task[ridx := task[ridx].(elements := count)][ridx + 1 := Task(None, -1, 0)];
      ridx := ridx + 1;
      frames := frames + [Frame(t, [], count - 1)];
      held := held + used;
    }

    method ProcessItem() returns (ok: bool)
      requires Busy()
      modifies this
      ensures Stepped(ok, old(Pending()), old(len - pos))
    {
      hide Tracks, Consumed, Resume, Close, CloseAll, ParseCurrent, ParseReply, ParseBody, ParseBulk, Plug, BulkValue,
           ParseNumber;
      ghost var was, rest := Pending(), buf[pos..];
      if task[ridx].typ == None {
        TracksTypeVerdict(dbl, frames, held, rest);
        if len - pos < 1 { return false; }
        var b := buf[pos];
        pos := pos + 1;
        var t := TypeOf(b);
        if t == None { SetError(BadTypeByte(b)); return false; }
        TracksType(dbl, frames, held, b);
        task := task[ridx := task[ridx].(typ := t)];
        held := held + [b];
        assert rest == [b] + buf[pos..];
        assert Pending() == was;
      }
      var t := task[ridx].typ.value;
      if IsLineType(t) {
        ok := ProcessLineItem();
      } else if IsBulkType(t) {
        ok := ProcessBulkItem();
      } else {
        ok := ProcessAggregateItem();
      }
    }

    /** redisReaderFeed: append to the input, unless the reader has failed. */
    method Feed(data: bytes) returns (ok: bool)
      requires Valid()
      modifies this
      ensures Valid() && ok == old(err.None?) && err == old(err)
      ensures ok ==> Pending() == old(Pending()) + data
    {
      hide Tracks, Consumed, Resume, Close, CloseAll, ParseCurrent, ParseReply, ParseBody, ParseBulk, Plug, BulkValue,
           ParseNumber;
      if err.Some? { return false; }
      if |data| >= 1 {
        ghost var unread := buf[pos..];
        AppendData(data);
        assert held + (unread + data) == held + unread + data;
      }
      ok := true;
    }

    /** The buffer is given back if it is empty and large, and grown as sdsMakeRoomFor grows it. */
    method AppendData(data: bytes)
      requires pos <= len == |buf| <= alloc
      modifies `buf, `alloc, `pos, `len
      ensures pos <= len == |buf| <= alloc && buf[pos..] == old(buf[pos..]) + data
    {
      if len == 0 && alloc - len > MAX_BUF {
        buf, alloc := [], 0;
        pos := 0;
      }
      if alloc - |buf| < |data| {
        var newlen := |buf| + |data|;
        alloc := if newlen < SDS_MAX_PREALLOC then newlen * 2 else newlen + SDS_MAX_PREALLOC;
      }
      buf := buf + data;
      len := |buf|;
    }

    /** What has been read is dropped once it is long enough. */
    method Compact()
      requires pos <= len == |buf| <= alloc
      modifies `buf, `pos, `len
      ensures pos <= len == |buf| <= alloc && buf[pos..] == old(buf[pos..])
    {
      if pos >= 1024 {
        buf := buf[pos..];
        pos := 0;
        len := |buf|;
      }
    }

    /** redisReaderGetReply: one reply, or nothing yet, or the protocol error. */
    method GetReply() returns (ok: bool, r: Option<Reply>)
      requires Valid()
      modifies this
      ensures Valid()
      ensures old(err.Some?) ==> !ok && r == None && err == old(err)
      ensures old(err.None?) ==>
                match ParseReply(dbl, old(Pending()))
                case Done(v, rest) => ok && r == Some(v) && err == None && Pending() == rest
                case More => ok && r == None && err == None && Pending() == old(Pending())
                case Bad(e) => !ok && r == None && err == Some(e)
    {
      hide Tracks, Consumed, Resume, Close, CloseAll, ParseCurrent, ParseReply, ParseBody, ParseBulk, Plug, BulkValue,
           ParseNumber;
      if err.Some? { return false, None; }
      if len == 0 {
        TracksStart(dbl);
        if ridx >= 0 { TracksNothing(dbl, frames, task[ridx].typ, held); }
        assert Pending() == held;
        return true, None;
      }
      if ridx == -1 {
        task := task[0 := Task(None, -1, -1)];
        ridx := 0;
        TracksStart(dbl);
      }
      ghost var was := Pending();
      assert was == old(Pending());
      while ridx >= 0
        invariant Shaped() && err == None
        invariant Pending() == was
        invariant Busy() || (ridx == -1 && frames == [] && ParseReply(dbl, was) == Done(reply, buf[pos..]))
        decreases len - pos, ridx + 1
      {
        ok := ProcessItem();
        if !ok { break; }
      }
      if err.Some? { return false, None; }
      Compact();
      r := None;
      if ridx == -1 {
        r := Some(reply);
        reply := Unset;
        held := [];
      }
      ok := true;
    }

    /** The loop of redisProcessCallbacks around redisGetReply: take replies until there is none. */
    method Drain() returns (replies: seq<Reply>)
      requires Valid()
      modifies this
      ensures Valid()
      ensures old(err.Some?) ==> replies == [] && err == old(err)
      ensures old(err.None?) ==>
                var s := ParseStream(dbl, old(Pending()));
                replies == s.replies && err == s.error && (err.None? ==> Pending() == s.tail)
    {
      hide Tracks, Resume, ParseReply, Plug;
      replies := [];
      if err.Some? { return; }
      ghost var whole := ParseStream(dbl, Pending());
      while true
        invariant Valid() && err.None?
        invariant whole.replies == replies + ParseStream(dbl, Pending()).replies
        invariant whole.error == ParseStream(dbl, Pending()).error
        invariant whole.tail == ParseStream(dbl, Pending()).tail
        decreases |Pending()|
      {
        var ok, r := GetReply();
        if !ok || r == None { break; }
        replies := replies + [r.value];
      }
    }
  }

  /** A connection's whole life: each arriving chunk is fed and the available replies are taken. */
  method Session(dbl: Doubles, chunks: seq<bytes>) returns (replies: seq<Reply>, failure: Option<Error>)
    ensures replies == ParseStream(dbl, Concat(chunks)).replies
    ensures failure == ParseStream(dbl, Concat(chunks)).error
  {
    hide ParseStream, ParseReply;
    var r := new Reader(dbl);
    replies, failure := [], None;
    ghost var got: Stream := ParseStream(dbl, Concat(chunks[..0]));
    StreamOfNothing(dbl);
    for i := 0 to |chunks|
      invariant r.dbl == dbl && r.Valid() && fresh(r)
      invariant got == ParseStream(dbl, Concat(chunks[..i]))
      invariant replies == got.replies && r.err == got.error
      invariant got.error.None? ==> r.Pending() == got.tail
    {
      assert chunks[..i + 1] == chunks[..i] + [chunks[i]];
      ConcatSnoc(chunks[..i], chunks[i]);
      ParseStreamCut(dbl, Concat(chunks[..i]), chunks[i]);
      var _ := r.Feed(chunks[i]);
      var more := r.Drain();
      replies := replies + more;
      got := ParseStream(dbl, Concat(chunks[..i + 1]));
    }
    assert chunks[..|chunks|] == chunks;
    failure := r.err;
  }

  lemma StreamOfNothing(dbl: Doubles)
    ensures ParseStream(dbl, []) == Stream([], [], None)
  {
  }

  lemma StackPush(outer: seq<Frame>, task: seq<Task>, t: Type, count: nat)
    requires StackOf(outer, task) && |outer| + 1 < |task| && count > 0
    requires IsAggregateType(t) && task[|outer|].typ == Some(t)
    ensures StackOf(outer + [Frame(t, [], count - 1)],
                    task[|outer| := task[|outer|].(elements := count)][|outer| + 1 := Task(None, -1, 0)])
  {
    var frames := outer + [Frame(t, [], count - 1)];
    var task' := task[|outer| := task[|outer|].(elements := count)][|outer| + 1 := Task(None, -1, 0)];
    forall i | 0 <= i < |frames| ensures TaskOf(frames[i], task'[i], task'[i + 1]) {
      if i < |outer| { assert TaskOf(outer[i], task[i], task[i + 1]); }
    }
  }

  lemma ResumeAggregate(dbl: Doubles, frames: seq<Frame>, t: Type, y: bytes)
    requires IsAggregateType(t) && FindCrlf(y).Some?
    requires ParseNumber(y[..FindCrlf(y).value]).Some?
    requires 0 <= ParseNumber(y[..FindCrlf(y).value]).value <= MAX_ELEMENTS
    ensures Resume(dbl, frames, Some(t), y)
         == CloseAll(dbl, frames, t, [],
                     ParseMany(dbl, ChildCount(t, ParseNumber(y[..FindCrlf(y).value]).value),
                               y[FindCrlf(y).value + 2..]))
  {
    var i := FindCrlf(y).value;
    var kids := ParseMany(dbl, ChildCount(t, ParseNumber(y[..i]).value), y[i + 2..]);
    if kids.Done? { assert [] + kids.value == kids.value; }
  }

  /** A complete bulk item is read the same whatever follows it. */
  lemma BulkPrefix(dbl: Doubles, t: Type, rest: bytes, size: nat, x: bytes)
    requires IsBulkType(t) && size <= |rest|
    requires ParseBody(dbl, t, rest).Done? && ParseBody(dbl, t, rest).rest == rest[size..]
    ensures ParseBody(dbl, t, rest[..size] + x) == Done(ParseBody(dbl, t, rest).value, x)
  {
    hide ParseNumber, BulkValue, FindCrlf;
    var i := FindCrlf(rest).value;
    var whole := rest[..size] + x;
    LineConsumed(rest, i);
    LinePrefix(rest, i, whole[i + 2..]);
    assert whole == rest[..i + 2] + whole[i + 2..];
    var n := ParseNumber(rest[..i]);
    if n.value >= 0 {
      assert whole[i + 2..][..n.value] == rest[i + 2..][..n.value];
      assert whole[i + 2..][n.value + 2..] == x;
    }
  }

  lemma LineConsumed(rest: bytes, i: nat)
    requires FindCrlf(rest) == Some(i)
    ensures i + 2 <= |rest|
    ensures FindCrlf(rest[..i + 2]) == Some(i)
  {
    var line := rest[..i + 2];
    forall j | 0 <= j < i ensures !CrlfAt(line, j) { assert !CrlfAt(rest, j); }
    FindCrlfIs(line, i);
  }

  /** A complete line is read the same whatever follows it. */
  lemma LinePrefix(rest: bytes, i: nat, x: bytes)
    requires FindCrlf(rest) == Some(i)
    ensures i + 2 <= |rest|
    ensures FindCrlf(rest[..i + 2] + x) == Some(i)
    ensures (rest[..i + 2] + x)[..i] == rest[..i]
    ensures (rest[..i + 2] + x)[i + 2..] == x
  {
    LineConsumed(rest, i);
    FindCrlfExtend(rest[..i + 2], x);
  }
}
