/** The singly linked queue of reply callbacks of src/hiredis/async.c. */
module CallbackList {
  import opened Bytes

  class Node<T> {
    const value: T
    var next: Node?<T>

    constructor (value: T)
      ensures this.value == value && next == null
    {
      this.value := value;
      next := null;
    }
  }

  ghost predicate Chained<T>(nodes: seq<Node<T>>)
    reads nodes
  {
    forall i :: 0 <= i < |nodes| ==> nodes[i].next == At(nodes, i + 1)
  }

  function At<T>(nodes: seq<Node<T>>, i: nat): Node?<T> { if i < |nodes| then nodes[i] else null }

  ghost predicate Distinct<T>(nodes: seq<Node<T>>) {
    forall i, j :: 0 <= i < j < |nodes| ==> nodes[i] != nodes[j]
  }

  ghost function Values<T>(nodes: seq<Node<T>>): (vs: seq<T>)
    ensures |vs| == |nodes|
  {
    seq(|nodes|, i requires 0 <= i < |nodes| => nodes[i].value)
  }

  /** What is left of a chain without its first node. */
  lemma ShiftRest<T>(nodes: seq<Node<T>>)
    requires nodes != [] && Distinct(nodes) && Chained(nodes)
    ensures var rest := nodes[1..];
            && Distinct(rest) && Chained(rest) && nodes[0].next == At(rest, 0)
            && (nodes[0] == nodes[|nodes| - 1] <==> rest == [])
            && (rest != [] ==> rest[|rest| - 1] == nodes[|nodes| - 1])
            && [nodes[0].value] + Values(rest) == Values(nodes)
  {
    var rest := nodes[1..];
    assert nodes[0].next == At(nodes, 1);
    forall i | 0 <= i < |rest| ensures rest[i].next == At(rest, i + 1) {
      assert nodes[i + 1].next == At(nodes, i + 2);
    }
  }

  class Queue<T> {
    var head: Node?<T>
    var tail: Node?<T>
    ghost var nodes: seq<Node<T>>

    constructor ()
      ensures Valid() && nodes == []
    {
      head, tail, nodes := null, null, [];
    }

    ghost predicate Valid()
      reads this, nodes
    {
      && Distinct(nodes) && Chained(nodes)
      && head == (if nodes == [] then null else nodes[0])
      && tail == (if nodes == [] then null else nodes[|nodes| - 1])
    }

    ghost function Contents(): seq<T>
      reads this
    {
      Values(nodes)
    }

    method IsEmpty() returns (r: bool)
      requires Valid()
      ensures r <==> Contents() == []
    {
      r := head == null;
    }

    /** __redisPushCallback. */
    method Push(v: T)
      requires Valid()
      modifies this, nodes
      ensures Valid() && Contents() == old(Contents()) + [v]
      ensures |nodes| == |old(nodes)| + 1 && nodes[..|old(nodes)|] == old(nodes) && fresh(nodes[|old(nodes)|])
    {
      var cb := new Node(v);
      ghost var was := nodes;
      if head == null { head := cb; }
      if tail != null { tail.next := cb; }
      tail := cb;
      nodes := nodes + [cb];
      forall i | 0 <= i < |nodes| ensures nodes[i].next == At(nodes, i + 1) {
        if i < |was| - 1 { assert was[i] != was[|was| - 1]; }
      }
    }

    /** __redisShiftCallback. */
    method Shift() returns (r: Option<T>)
      requires Valid()
      modifies this
      ensures Valid() && (r == None <==> old(Contents()) == [])
      ensures r == None ==> Contents() == []
      ensures r.Some? ==> [r.value] + Contents() == old(Contents())
      ensures nodes == if old(nodes) == [] then [] else old(nodes)[1..]
    {
      var cb := head;
      if cb == null { return None; }
      ghost var rest := nodes[1..];
      ShiftRest(nodes);
      head := cb.next;
      if cb == tail { tail := null; }
      r := Some(cb.value);
      nodes := rest;
    }
  }
}
