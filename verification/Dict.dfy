/**
 The chained hash table of src/hiredis/dict.c, which holds the subscription callbacks of an
 asynchronous connection, proved to be a map for any hash function.
 */
module Dict {
  import opened Bytes

  const INITIAL_SIZE: nat := 4

  class Cell<V> {
    const key: bytes
    var val: V
    var next: Cell?<V>

    constructor (key: bytes, val: V, next: Cell?<V>)
      ensures this.key == key && this.val == val && this.next == next
    {
      this.key, this.val, this.next := key, val, next;
    }
  }

  /** c is the list that starts at head. */
  ghost predicate Chain<V>(c: seq<Cell<V>>, head: Cell?<V>)
    reads c
  {
    && head == (if c == [] then null else c[0])
    && forall i {:trigger c[i].next} :: 0 <= i < |c| ==> c[i].next == if i + 1 < |c| then c[i + 1] else null
  }

  ghost function Cells<V>(cs: seq<seq<Cell<V>>>): set<Cell<V>> {
    set h, e | 0 <= h < |cs| && e in cs[h] :: e
  }

  lemma CellsHas<V>(cs: seq<seq<Cell<V>>>, h: nat)
    requires h < |cs|
    ensures forall e :: e in cs[h] ==> e in Cells(cs)
  {
  }

  ghost predicate Chains<V>(cs: seq<seq<Cell<V>>>, table: seq<Cell?<V>>)
    reads Cells(cs)
  {
    |cs| == |table| && forall h :: 0 <= h < |cs| ==> (CellsHas(cs, h); Chain(cs[h], table[h]))
  }

  ghost function Elems<V>(c: seq<Cell<V>>): set<Cell<V>> { set e | e in c }

  ghost predicate Apart<V>(c: seq<Cell<V>>) {
    forall i, j :: 0 <= i < j < |c| ==> c[i].key != c[j].key
  }

  /** Each entry sits in the bucket of its hash, and no key occurs twice. */
  ghost predicate Placed<V>(hash: bytes -> nat, cs: seq<seq<Cell<V>>>) {
    && (forall h :: 0 <= h < |cs| ==> Apart(cs[h]))
    && (forall h, e :: 0 <= h < |cs| && e in cs[h] ==> hash(e.key) % |cs| == h)
  }

  /** Every key of the map has an entry. */
  ghost predicate Complete<V>(hash: bytes -> nat, cs: seq<seq<Cell<V>>>, keys: set<bytes>) {
    keys != {} ==> |cs| > 0 && forall k :: k in keys ==> exists e :: e in cs[hash(k) % |cs|] && e.key == k
  }

  /** Every entry is one of the map's. */
  ghost predicate Valued<V>(cs: seq<seq<Cell<V>>>, m: map<bytes, V>)
    reads Cells(cs)
  {
    forall e :: e in Cells(cs) ==> e.key in m && e.val == m[e.key]
  }

  function Total<T>(cs: seq<seq<T>>): nat {
    if cs == [] then 0 else |cs[0]| + Total(cs[1..])
  }

  lemma {:induction false} TotalUpdate<T>(cs: seq<seq<T>>, h: nat, c: seq<T>)
    requires h < |cs|
    ensures Total(cs[h := c]) == Total(cs) - |cs[h]| + |c|
  {
    if h == 0 {
      assert cs[h := c][1..] == cs[1..];
    } else {
      assert cs[h := c][1..] == cs[1..][h - 1 := c];
      TotalUpdate(cs[1..], h - 1, c);
    }
  }

  predicate IsPow2(n: nat) { n == 1 || (n > 1 && n % 2 == 0 && IsPow2(n / 2)) }

  /** _dictNextPower: the least power of two that is at least 4 and at least the size asked for. */
  method NextPower(size: nat) returns (i: nat)
    ensures size >= LLONG_MAX ==> i == LLONG_MAX
    ensures size < LLONG_MAX ==>
              && IsPow2(i) && size <= i && INITIAL_SIZE <= i
              && (i == INITIAL_SIZE || (INITIAL_SIZE < size && i < 2 * size))
  {
    if size >= LLONG_MAX { return LLONG_MAX; }
    i := INITIAL_SIZE;
    assert IsPow2(4) by { assert IsPow2(2) by { assert IsPow2(1); } }
    while true
      invariant IsPow2(i) && INITIAL_SIZE <= i && (i == INITIAL_SIZE || (INITIAL_SIZE < size && i < 2 * size))
      decreases size - i
    {
      if i >= size { return; }
      i := i * 2;
    }
  }

  /** One turn of the copying loop of dictExpand: relink `he` at the head of its new bucket. */
  method MoveCell<V>(hash: bytes -> nat, he: Cell<V>, table: seq<Cell?<V>>, ghost cs: seq<seq<Cell<V>>>)
    returns (table': seq<Cell?<V>>, ghost cs': seq<seq<Cell<V>>>)
    requires |table| > 0 && Chains(cs, table) && Placed(hash, cs)
    requires he !in Cells(cs) && forall e :: e in Cells(cs) ==> e.key != he.key
    modifies he`next
    ensures Chains(cs', table') && Placed(hash, cs') && |cs'| == |cs| && |table'| == |table|
    ensures Cells(cs') == Cells(cs) + {he}
  {
    var h := hash(he.key) % |table|;
    he.next := table[h];
    table' := table[h := he];
    cs' := cs[h := [he] + cs[h]];
    PushPlaced(hash, he, cs, h);
    forall k | 0 <= k < |cs'| ensures Chain(cs'[k], table'[k]) {
      assert old(Chain(cs[k], table[k]));
      CellsHas(cs, k);
      assert he !in cs[k];
    }
  }

  lemma PushPlaced<V>(hash: bytes -> nat, he: Cell<V>, cs: seq<seq<Cell<V>>>, h: nat)
    requires h < |cs| && h == hash(he.key) % |cs| && Placed(hash, cs)
    requires forall e :: e in Cells(cs) ==> e.key != he.key
    ensures Placed(hash, cs[h := [he] + cs[h]])
    ensures Cells(cs[h := [he] + cs[h]]) == Cells(cs) + {he}
  {
    var cs' := cs[h := [he] + cs[h]];
    CellsHas(cs, h);
    forall k | 0 <= k < |cs'| ensures Apart(cs'[k]) {
      assert Apart(cs[k]);
      if k == h {
        forall j | 0 <= j < |cs[h]| ensures cs[h][j].key != he.key { assert cs[h][j] in cs[h]; }
      }
    }
    forall e | e in Cells(cs) ensures e in Cells(cs') {
      var k :| 0 <= k < |cs| && e in cs[k];
      assert e in cs'[k];
    }
    assert he in cs'[h];
    forall e | e in Cells(cs') ensures e in Cells(cs) || e == he {
      var k :| 0 <= k < |cs'| && e in cs'[k];
    }
    forall k, e: Cell<V> | 0 <= k < |cs'| && e in cs'[k] ensures hash(e.key) % |cs'| == k {
      if k == h && e != he { assert e in cs[h]; } else if k != h { assert e in cs[k]; }
    }
  }

  /** From bucket i, position j on, the old table has not been touched. */
  ghost predicate Untouched<V>(cs: seq<seq<Cell<V>>>, table: seq<Cell?<V>>, i: nat, moved: set<Cell<V>>)
    reads Cells(cs)
  {
    && |cs| == |table|
    && (forall b :: i <= b < |cs| ==> (CellsHas(cs, b); Chain(cs[b], table[b])))
    && (forall b, e :: i <= b < |cs| && e in cs[b] ==> e !in moved)
  }

  class Dict<V> {
    const hash: bytes -> nat
    var table: seq<Cell?<V>>
    var size: nat
    var used: nat
    ghost var chains: seq<seq<Cell<V>>>
    /** The map this table stands for. */
    ghost var Contents: map<bytes, V>
    ghost var Repr: set<object>

    ghost predicate Owned()
      reads this
    {
      this in Repr && forall e :: e in Cells(chains) ==> e in Repr
    }

    ghost predicate Shaped()
      reads this
    {
      && |table| == |chains| == size
      && (size == 0 || (IsPow2(size) && size >= INITIAL_SIZE))
      && Placed(hash, chains) && Complete(hash, chains, Contents.Keys)
      && used == Total(chains) == |Contents|
    }

    ghost predicate Valid()
      reads this, Repr
    {
      Owned() && Shaped() && Chains(chains, table) && Valued(chains, Contents)
    }

    /** dictCreate. */
    constructor (hash: bytes -> nat)
      ensures Valid() && fresh(Repr) && Contents == map[] && this.hash == hash && size == 0
    {
      this.hash := hash;
      table, size, used := [], 0, 0;
      chains, Contents, Repr := [], map[], {this};
    }

    /** The copying loops of dictExpand. */
    method MoveAll(newSize: nat) returns (table': seq<Cell?<V>>, ghost cs': seq<seq<Cell<V>>>)
      requires newSize > 0
      requires |table| == |chains| == size && Chains(chains, table) && Placed(hash, chains) && used == Total(chains)
      requires Valued(chains, Contents)
      modifies this`used, Cells(chains)`next
      ensures Valued(cs', Contents)
      ensures Chains(cs', table') && Placed(hash, cs') && |cs'| == |table'| == newSize && Cells(cs') == Cells(chains)
      ensures used == 0
    {
      hide Placed, Chains, Total, Untouched;
      ghost var cs := chains;
      table' := seq(newSize, _ => null);
      cs' := seq(newSize, _ => []);
      EmptyChains(hash, cs', table', cs, table);
      var i := 0;
      while i < size && used > 0
        invariant 0 <= i <= size
        invariant |cs'| == |table'| == newSize && Chains(cs', table') && Placed(hash, cs')
        invariant Cells(cs') == Cells(cs[..i])
        invariant Untouched(cs, table, i, Cells(cs'))
        invariant used == Total(cs[i..])
      {
        table', cs' := MoveChain(i, table', cs');
        i := i + 1;
      }
      AllMoved(cs, i);
      assert forall e :: e in Cells(cs) ==> e.val == old(e.val);
    }

    /** The inner loop: one old bucket, entry by entry. */
    method MoveChain(i: nat, table0: seq<Cell?<V>>, ghost cs0: seq<seq<Cell<V>>>)
      returns (table': seq<Cell?<V>>, ghost cs': seq<seq<Cell<V>>>)
      requires |table| == |chains| == size && i < size && Placed(hash, chains)
      requires |table0| > 0 && Chains(cs0, table0) && Placed(hash, cs0)
      requires Cells(cs0) == Cells(chains[..i])
      requires Untouched(chains, table, i, Cells(cs0)) && used == Total(chains[i..])
      modifies this`used, Cells(chains)`next
      ensures Chains(cs', table') && Placed(hash, cs') && |cs'| == |cs0| && |table'| == |table0|
      ensures Cells(cs') == Cells(chains[..i + 1])
      ensures Untouched(chains, table, i + 1, Cells(cs')) && used == Total(chains[i + 1..])
    {
      hide Placed, Chains;
      ghost var c := chains[i];
      TotalAtLeast(chains, i);
      table', cs' := table0, cs0;
      var he := table[i];
      assert c[0..] == c && Chain(c, he);
      ghost var j := 0;
      while he != null
        invariant 0 <= j <= |c| && Chain(c[j..], he)
        invariant Chains(cs', table') && Placed(hash, cs') && |cs'| == |cs0| && |table'| == |table0|
        invariant Cells(cs') == Cells(cs0) + Elems(c[..j])
        invariant Untouched(chains, table, i + 1, Cells(cs'))
        invariant used == |c| - j + Total(chains[i + 1..])
        decreases |c| - j
      {
        var next := he.next;
        assert he == c[j..][0] && he in c;
        CellsHas(chains, i);
        used := used - 1;
        table', cs' := MoveNext(he, i, j, table', cs', cs0);
        he, j := next, j + 1;
      }
      assert c[..j] == c;
      assert chains[i..][1..] == chains[i + 1..];
      CellsSnoc(chains, i);
    }

    /** One turn of that loop, for the j-th entry of bucket i. */
    method MoveNext(he: Cell<V>, ghost i: nat, ghost j: nat, table0: seq<Cell?<V>>,
                    ghost cs0: seq<seq<Cell<V>>>, ghost start: seq<seq<Cell<V>>>)
      returns (table': seq<Cell?<V>>, ghost cs': seq<seq<Cell<V>>>)
      requires i < |chains| && Placed(hash, chains) && j < |chains[i]| && Chain(chains[i][j..], he)
      requires |table0| > 0 && Chains(cs0, table0) && Placed(hash, cs0)
      requires Cells(start) == Cells(chains[..i])
      requires Cells(cs0) == Cells(start) + Elems(chains[i][..j])
      requires Untouched(chains, table, i + 1, Cells(cs0))
      modifies he`next
      ensures he == chains[i][j] && Chain(chains[i][j + 1..], old(he.next))
      ensures Chains(cs', table') && Placed(hash, cs') && |cs'| == |cs0| && |table'| == |table0|
      ensures Cells(cs') == Cells(start) + Elems(chains[i][..j + 1])
      ensures Untouched(chains, table, i + 1, Cells(cs'))
    {
      hide Placed, Chains;
      ghost var c := chains[i];
      ChainTail(c, j, he);
      KeysDiffer(hash, chains, i, j);
      assert c[..j + 1] == c[..j] + [he];
      table', cs' := MoveCell(hash, he, table0, cs0);
    }

    /** *ht = n. */
    method Install(table': seq<Cell?<V>>, size': nat, used': nat,
                   ghost cs': seq<seq<Cell<V>>>, ghost m': map<bytes, V>, ghost repr': set<object>)
      requires this in repr' && (forall e :: e in Cells(cs') ==> e in repr')
      requires |table'| == |cs'| == size' && IsPow2(size') && size' >= INITIAL_SIZE
      requires Placed(hash, cs') && Complete(hash, cs', m'.Keys) && used' == Total(cs') == |m'|
      requires Chains(cs', table') && Valued(cs', m')
      modifies this
      ensures Valid() && size == size' && used == used' && chains == cs' && Contents == m' && Repr == repr'
    {
      hide Placed, Chains, Complete, Total, Valued, IsPow2, Cells;
      table, size, used, chains, Contents, Repr := table', size', used', cs', m', repr';
    }

    /** dictExpand: every entry is moved exactly once into a table of the next power of two. */
    method Expand(newSize: nat) returns (ok: bool)
      requires Valid() && newSize < LLONG_MAX
      modifies Repr
      ensures Valid() && Repr == old(Repr) && Contents == old(Contents) && used == old(used)
      ensures ok <==> used <= newSize
      ensures if ok then newSize <= size && INITIAL_SIZE <= size
                && (size == INITIAL_SIZE || (INITIAL_SIZE < newSize && size < 2 * newSize))
              else size == old(size)
    {
      hide Placed, Chains, Complete, Cells, Total, Valued, IsPow2;
      var realsize := NextPower(newSize);
      if used > newSize { return false; }
      var n := used;
      ghost var cs, m := chains, Contents;
      var table', cs' := MoveAll(realsize);
      CompleteMoved(hash, cs, cs', m.Keys);
      TotalSame(hash, cs, cs');
      Install(table', realsize, n, cs', m, Repr);
      ok := true;
    }

    /** _dictExpandIfNeeded. */
    method ExpandIfNeeded() returns (ok: bool)
      requires Valid() && size < LLONG_MAX / 2
      modifies Repr
      ensures Valid() && Repr == old(Repr) && Contents == old(Contents) && used == old(used)
      ensures ok && INITIAL_SIZE <= size && (size <= old(size) || size <= INITIAL_SIZE + 4 * used)
    {
      if size == 0 {
        EmptyTotal(chains);
        ok := Expand(INITIAL_SIZE);
      } else if used == size {
        ok := Expand(size * 2);
      } else {
        ok := true;
      }
    }

    /** The search loop shared by dictFind and _dictKeyIndex. */
    method Search(h: nat, key: bytes) returns (he: Cell?<V>, ghost i: nat)
      requires Valid() && size > 0 && h == hash(key) % size
      ensures he == null ==> key !in Contents
      ensures he != null ==> i < |chains[h]| && he == chains[h][i] && he.key == key && key in Contents
    {
      hide Placed;
      he := table[h];
      i := 0;
      ghost var c := chains[h];
      assert Chain(c, table[h]);
      while he != null
        invariant 0 <= i <= |c| && he == if i < |c| then c[i] else null
        invariant forall j :: 0 <= j < i ==> c[j].key != key
        decreases |c| - i
      {
        if he.key == key {
          assert he in chains[h];
          assert he in Cells(chains);
          return;
        }
        he, i := he.next, i + 1;
      }
      NotInChain(hash, chains, Contents.Keys, key);
    }

    /** dictFind. */
    method Find(key: bytes) returns (r: Option<V>)
      requires Valid()
      ensures r == if key in Contents then Some(Contents[key]) else None
    {
      if size == 0 {
        EmptyTotal(chains);
        return None;
      }
      var he, i := Search(hash(key) % size, key);
      if he == null {
        r := None;
      } else {
        assert he in Cells(chains);
        r := Some(he.val);
      }
    }

    /** _dictKeyIndex: room is made first; None when the key is there already. */
    method KeyIndex(key: bytes) returns (index: Option<nat>)
      requires Valid() && size < LLONG_MAX / 2
      modifies Repr
      ensures Valid() && Repr == old(Repr) && Contents == old(Contents) && used == old(used)
      ensures INITIAL_SIZE <= size && (size <= old(size) || size <= INITIAL_SIZE + 4 * used)
      ensures index == if key in Contents then None else Some(hash(key) % size)
    {
      hide Placed, Chains, Complete, Total, Valued, IsPow2;
      var _ := ExpandIfNeeded();
      var h := hash(key) % size;
      var he, _ := Search(h, key);
      index := if he == null then Some(h) else None;
    }

    /** dictAdd: refuse an existing key, otherwise push a new entry on its bucket. */
    method Add(key: bytes, val: V) returns (ok: bool)
      requires Valid() && size < LLONG_MAX / 2
      modifies Repr
      ensures Valid() && fresh(Repr - old(Repr))
      ensures ok <==> key !in old(Contents)
      ensures Contents == if ok then old(Contents)[key := val] else old(Contents)
      ensures size <= old(size) || size <= INITIAL_SIZE + 4 * old(used)
    {
      hide Placed, Chains, Complete, Total, Valued, IsPow2;
      var index := KeyIndex(key);
      if index == None { return false; }
      Push(index.value, key, val);
      ok := true;
    }

    method Push(h: nat, key: bytes, val: V)
      requires Valid() && size > 0 && h == hash(key) % size && key !in Contents
      modifies this
      ensures Valid() && fresh(Repr - old(Repr)) && Contents == old(Contents)[key := val] && size == old(size)
    {
      hide Placed, Chains, Complete, Total, IsPow2, Valued, Cells;
      ghost var cs, m := chains, Contents;
      ValuedKeys(cs, m);
      var entry := new Cell(key, val, table[h]);
      ghost var cs' := cs[h := [entry] + cs[h]];
      PushPlaced(hash, entry, cs, h);
      PushComplete(hash, cs, m.Keys, h, entry);
      TotalUpdate(cs, h, [entry] + cs[h]);
      PushChains(cs, table, h, entry);
      PushValued(cs, cs', m, entry);
      assert m[key := val].Keys == m.Keys + {key};
      Install(table[h := entry], size, used + 1, cs', m[key := val], Repr + {entry});
    }

    /** dictReplace: true when the key was new. */
    method Replace(key: bytes, val: V) returns (added: bool)
      requires Valid() && size < LLONG_MAX / 2
      modifies Repr
      ensures Valid() && fresh(Repr - old(Repr))
      ensures added <==> key !in old(Contents)
      ensures Contents == old(Contents)[key := val]
      ensures size <= old(size) || size <= INITIAL_SIZE + 4 * old(used)
    {
      hide Placed, Chains, Complete, Total, Valued, IsPow2;
      added := Add(key, val);
      if added { return; }
      assert size > 0 by { SizePositive(key); }
      var he, i := Search(hash(key) % size, key);
      assert he in Cells(chains) by { CellsHas(chains, hash(key) % size); }
      Assign(he, val);
    }

    lemma SizePositive(key: bytes)
      requires Valid() && key in Contents
      ensures size > 0
    {
    }

    method Assign(he: Cell<V>, val: V)
      requires Valid() && he in Cells(chains)
      modifies this`Contents, he`val
      ensures Valid() && Contents == old(Contents)[he.key := val]
    {
      hide Total, IsPow2, Placed, Complete, Chains, Valued, Cells;
      ghost var m := Contents;
      assert he.key in m by { ValuedKey(chains, m, he); }
      Contents := m[he.key := val];
      assert Contents.Keys == m.Keys;
      SetVal(hash, he, val, chains, table, m);
    }

    /** dictDelete. */
    method Delete(key: bytes) returns (ok: bool, ghost i: nat)
      requires Valid()
      modifies Repr
      ensures Valid() && Repr == old(Repr)
      ensures ok <==> key in old(Contents)
      ensures Contents == old(Contents) - {key} && size == old(size)
      ensures ok ==> size > 0 && Dropped(old(chains), chains, hash(key) % size, i, key)
    {
      hide Placed, Chains, Complete, Valued, IsPow2;
      if size == 0 {
        EmptyTotal(chains);
        return false, 0;
      }
      var h := hash(key) % size;
      var prevde, de, at := Locate(h, key);
      i := at;
      if de == null { return false, 0; }
      CellsHas(chains, h);
      Unlink(h, prevde, de, i);
      ok := true;
    }

    /** The loop of dictDelete, which remembers the predecessor. */
    method Locate(h: nat, key: bytes) returns (prevde: Cell?<V>, de: Cell?<V>, ghost i: nat)
      requires Valid() && size > 0 && h == hash(key) % size
      ensures de == null ==> key !in Contents
      ensures de != null ==> i < |chains[h]| && de == chains[h][i] && de.key == key && key in Contents
      ensures de != null ==> prevde == if i == 0 then null else chains[h][i - 1]
    {
      hide Placed;
      prevde, de, i := null, table[h], 0;
      ghost var c := chains[h];
      assert Chain(c, table[h]);
      while de != null
        invariant 0 <= i <= |c| && de == (if i < |c| then c[i] else null)
        invariant prevde == if i == 0 then null else c[i - 1]
        invariant forall j :: 0 <= j < i ==> c[j].key != key
        decreases |c| - i
      {
        if de.key == key {
          assert de in chains[h];
          assert de in Cells(chains);
          return;
        }
        prevde, de, i := de, de.next, i + 1;
      }
      NotInChain(hash, chains, Contents.Keys, key);
    }

    method Unlink(h: nat, prevde: Cell?<V>, de: Cell<V>, ghost i: nat)
      requires Valid() && h < size && i < |chains[h]| && de == chains[h][i]
      requires prevde == if i == 0 then null else chains[h][i - 1]
      modifies this`table, this`used, this`chains, this`Contents, prevde
      ensures Valid() && Repr == old(Repr) && Contents == old(Contents) - {de.key}
      ensures Dropped(old(chains), chains, h, i, de.key)
    {
      hide Placed, Complete, Total, IsPow2, Valued, Chains;
      ghost var cs, m, c, t := chains, Contents, chains[h], table;
      ghost var c' := DropCell(c, i);
      ghost var cs' := cs[h := c'];
      assert de.key in m by { CellsHas(cs, h); ValuedKey(cs, m, de); }
      UnlinkPlaced(hash, cs, h, i);
      UnlinkComplete(hash, cs, m.Keys, h, i);
      TotalUpdate(cs, h, c');
      var table' := if prevde == null then table[h := de.next] else table;
      table, used, chains, Contents := table', used - 1, cs', m - {de.key};
      assert Contents.Keys == m.Keys - {de.key};
      Bypass(hash, prevde, de, cs, t, h, i, m);
    }
  }

  /** A table of empty buckets, and the old one as it is before anything moves. */
  lemma EmptyChains<V>(hash: bytes -> nat, cs': seq<seq<Cell<V>>>, table': seq<Cell?<V>>,
                       cs: seq<seq<Cell<V>>>, table: seq<Cell?<V>>)
    requires |cs'| == |table'| && (forall h :: 0 <= h < |cs'| ==> cs'[h] == [] && table'[h] == null)
    requires Chains(cs, table)
    ensures Chains(cs', table') && Placed(hash, cs') && Cells(cs') == {} == Cells(cs[..0])
    ensures Untouched(cs, table, 0, Cells(cs')) && Total(cs[0..]) == Total(cs)
  {
    assert cs[0..] == cs;
  }

  /** When nothing is left to move, everything has been. */
  lemma AllMoved<V>(cs: seq<seq<Cell<V>>>, i: nat)
    requires i <= |cs| && (i == |cs| || Total(cs[i..]) == 0)
    ensures Total(cs[i..]) == 0 && Cells(cs[..i]) == Cells(cs)
  {
    if i == |cs| {
      assert cs[i..] == [] && cs[..i] == cs;
    } else {
      TotalZero(cs, i);
      CellsAll(cs, i);
    }
  }

  function DropCell<T>(c: seq<T>, i: nat): seq<T>
    requires i < |c|
  {
    c[..i] + c[i + 1..]
  }

  /** The chains without the entry of the key, which was the i-th of bucket h. */
  ghost predicate Dropped<V>(cs: seq<seq<Cell<V>>>, cs': seq<seq<Cell<V>>>, h: nat, i: nat, key: bytes) {
    h < |cs| && i < |cs[h]| && cs[h][i].key == key && cs' == cs[h := DropCell(cs[h], i)]
  }

  lemma ValuedKey<V>(cs: seq<seq<Cell<V>>>, m: map<bytes, V>, e: Cell<V>)
    requires Valued(cs, m) && e in Cells(cs)
    ensures e.key in m
  {
  }

  /** dictSetHashVal on an entry of the table. */
  method SetVal<V>(hash: bytes -> nat, he: Cell<V>, val: V, ghost cs: seq<seq<Cell<V>>>,
                   ghost table: seq<Cell?<V>>, ghost m: map<bytes, V>)
    requires Chains(cs, table) && Valued(cs, m) && Placed(hash, cs) && he in Cells(cs)
    modifies he`val
    ensures Chains(cs, table) && Valued(cs, m[he.key := val])
  {
    hide Placed;
    he.val := val;
    forall e | e in Cells(cs) ensures e.val == m[he.key := val][e.key] {
      if e != he { KeysUnique(hash, cs, e, he); }
    }
    forall h | 0 <= h < |cs| ensures Chain(cs[h], table[h]) { assert old(Chain(cs[h], table[h])); }
  }

  /** prevde->next = de->next, within its own bucket. */
  method BypassChain<V>(prevde: Cell?<V>, de: Cell<V>, ghost c: seq<Cell<V>>, ghost head: Cell?<V>, ghost i: nat)
    requires Chain(c, head) && Apart(c) && i < |c| && de == c[i] && prevde == if i == 0 then null else c[i - 1]
    modifies prevde
    ensures Chain(DropCell(c, i), if i == 0 then de.next else head)
    ensures prevde != null ==> prevde.val == old(prevde.val)
  {
    assert de.next == if i + 1 < |c| then c[i + 1] else null;
    ghost var c' := DropCell(c, i);
    assert forall q :: 0 <= q < |c'| ==> c'[q] == c[if q < i then q else q + 1];
    if prevde != null {
      prevde.next := de.next;
    }
    forall q | 0 <= q < |c'| ensures c'[q].next == if q + 1 < |c'| then c'[q + 1] else null {
      ghost var p := if q < i then q else q + 1;
      assert old(c[p].next) == if p + 1 < |c| then c[p + 1] else null;
      assert q != i - 1 ==> c[p] != prevde;
    }
  }

  /** The same seen from the whole table. */
  method Bypass<V>(hash: bytes -> nat, prevde: Cell?<V>, de: Cell<V>, ghost cs: seq<seq<Cell<V>>>,
                   ghost table: seq<Cell?<V>>, ghost h: nat, ghost i: nat, ghost m: map<bytes, V>)
    requires Chains(cs, table) && Valued(cs, m) && Placed(hash, cs)
    requires h < |cs| && i < |cs[h]| && de == cs[h][i] && prevde == if i == 0 then null else cs[h][i - 1]
    modifies prevde
    ensures Chains(cs[h := DropCell(cs[h], i)], if i == 0 then table[h := de.next] else table)
    ensures Valued(cs[h := DropCell(cs[h], i)], m - {de.key})
  {
    hide Chain, Apart;
    ghost var cs' := cs[h := DropCell(cs[h], i)];
    assert Chain(cs[h], table[h]) && Apart(cs[h]);
    UnlinkPlaced(hash, cs, h, i);
    if i > 0 {
      forall k | 0 <= k < |cs| && k != h ensures prevde !in cs[k] { OtherChain(hash, cs, h, i - 1, k); }
    }
    BypassChain(prevde, de, cs[h], table[h], i);
    ghost var table' := if i == 0 then table[h := de.next] else table;
    forall k | 0 <= k < |cs'| ensures Chain(cs'[k], table'[k]) {
      assert old(Chain(cs[k], table[k]));
    }
  }

  lemma OtherChain<V>(hash: bytes -> nat, cs: seq<seq<Cell<V>>>, h: nat, i: nat, k: nat)
    requires Placed(hash, cs) && h < |cs| && i < |cs[h]| && k < |cs| && k != h
    ensures cs[h][i] !in cs[k]
  {
    assert cs[h][i] in cs[h];
  }

  lemma UnlinkPlaced<V>(hash: bytes -> nat, cs: seq<seq<Cell<V>>>, h: nat, i: nat)
    requires Placed(hash, cs) && h < |cs| && i < |cs[h]|
    ensures Placed(hash, cs[h := DropCell(cs[h], i)])
    ensures forall e :: e in Cells(cs[h := DropCell(cs[h], i)]) ==> e in Cells(cs) && e.key != cs[h][i].key
  {
    var c, c' := cs[h], DropCell(cs[h], i);
    var cs' := cs[h := c'];
    assert Apart(c);
    assert forall q :: 0 <= q < |c'| ==> c'[q] == c[if q < i then q else q + 1];
    forall k | 0 <= k < |cs'| ensures Apart(cs'[k]) { assert Apart(cs[k]); }
    assert c[i] in c;
    forall e | e in Cells(cs') ensures e in Cells(cs) && e.key != c[i].key {
      var k :| 0 <= k < |cs'| && e in cs'[k];
      assert e in cs[k];
    }
  }

  lemma UnlinkComplete<V>(hash: bytes -> nat, cs: seq<seq<Cell<V>>>, keys: set<bytes>, h: nat, i: nat)
    requires Complete(hash, cs, keys) && h < |cs| && i < |cs[h]|
    ensures Complete(hash, cs[h := DropCell(cs[h], i)], keys - {cs[h][i].key})
  {
    var c, c' := cs[h], DropCell(cs[h], i);
    var cs' := cs[h := c'];
    forall k | k in keys - {c[i].key} ensures exists e: Cell<V> :: e in cs'[hash(k) % |cs'|] && e.key == k {
      var e :| e in cs[hash(k) % |cs|] && e.key == k;
      if hash(k) % |cs| == h {
        var q :| 0 <= q < |c| && c[q] == e;
        assert c'[if q < i then q else q - 1] == e;
      }
      assert e in cs'[hash(k) % |cs'|];
    }
  }

  lemma KeysUnique<V>(hash: bytes -> nat, cs: seq<seq<Cell<V>>>, a: Cell<V>, b: Cell<V>)
    requires Placed(hash, cs) && a in Cells(cs) && b in Cells(cs) && a != b
    ensures a.key != b.key
  {
    var h :| 0 <= h < |cs| && a in cs[h];
    var k :| 0 <= k < |cs| && b in cs[k];
    assert Apart(cs[h]);
  }

  lemma PushComplete<V>(hash: bytes -> nat, cs: seq<seq<Cell<V>>>, keys: set<bytes>, h: nat, entry: Cell<V>)
    requires Complete(hash, cs, keys) && h < |cs| && h == hash(entry.key) % |cs|
    ensures Complete(hash, cs[h := [entry] + cs[h]], keys + {entry.key})
  {
    var cs' := cs[h := [entry] + cs[h]];
    forall k | k in keys + {entry.key} ensures exists e: Cell<V> :: e in cs'[hash(k) % |cs'|] && e.key == k {
      if k == entry.key {
        assert entry in cs'[h];
      } else {
        var e :| e in cs[hash(k) % |cs|] && e.key == k;
        assert e in cs'[hash(k) % |cs'|];
      }
    }
  }

  lemma ValuedKeys<V>(cs: seq<seq<Cell<V>>>, m: map<bytes, V>)
    requires Valued(cs, m)
    ensures forall e :: e in Cells(cs) ==> e.key in m
  {
  }

  lemma PushValued<V>(cs: seq<seq<Cell<V>>>, cs': seq<seq<Cell<V>>>, m: map<bytes, V>, entry: Cell<V>)
    requires Valued(cs, m) && Cells(cs') == Cells(cs) + {entry} && entry.key !in m
    ensures Valued(cs', m[entry.key := entry.val])
  {
  }

  lemma PushChains<V>(cs: seq<seq<Cell<V>>>, table: seq<Cell?<V>>, h: nat, entry: Cell<V>)
    requires Chains(cs, table) && h < |cs| && entry.next == table[h]
    ensures Chains(cs[h := [entry] + cs[h]], table[h := entry])
  {
    var cs', table' := cs[h := [entry] + cs[h]], table[h := entry];
    forall k | 0 <= k < |cs'| ensures Chain(cs'[k], table'[k]) {
      assert Chain(cs[k], table[k]);
    }
  }

  lemma NotInChain<V>(hash: bytes -> nat, cs: seq<seq<Cell<V>>>, keys: set<bytes>, key: bytes)
    requires Complete(hash, cs, keys) && |cs| > 0
    requires forall e :: e in cs[hash(key) % |cs|] ==> e.key != key
    ensures key !in keys
  {
  }

  lemma EmptyTotal<T>(cs: seq<seq<T>>)
    requires cs == []
    ensures Total(cs) == 0
  {
  }

  /** Moving the entries loses none. */
  lemma CompleteMoved<V>(hash: bytes -> nat, cs: seq<seq<Cell<V>>>, cs': seq<seq<Cell<V>>>, keys: set<bytes>)
    requires Complete(hash, cs, keys) && Placed(hash, cs') && Cells(cs) == Cells(cs') && |cs'| > 0
    ensures Complete(hash, cs', keys)
  {
    forall k | k in keys ensures exists e :: e in cs'[hash(k) % |cs'|] && e.key == k {
      var e :| e in cs[hash(k) % |cs|] && e.key == k;
      assert e in Cells(cs');
      var h :| 0 <= h < |cs'| && e in cs'[h];
    }
  }

  lemma {:induction false} TotalCells<V>(hash: bytes -> nat, cs: seq<seq<Cell<V>>>, i: nat)
    requires Placed(hash, cs) && i <= |cs|
    ensures |Cells(cs[i..])| == Total(cs[i..])
    decreases |cs| - i
  {
    if i == |cs| {
      assert cs[i..] == [];
    } else {
      TotalCells(hash, cs, i + 1);
      TotalAtLeast(cs, i);
      var here := Elems(cs[i]);
      assert Apart(cs[i]);
      ApartCount(cs[i]);
      CellsCons(cs, i);
      forall e | e in Cells(cs[i + 1..]) ensures hash(e.key) % |cs| != i {
        var h :| 0 <= h < |cs[i + 1..]| && e in cs[i + 1..][h];
        assert e in cs[i + 1 + h];
      }
      forall e | e in here ensures hash(e.key) % |cs| == i { assert e in cs[i]; }
      assert here !! Cells(cs[i + 1..]);
    }
  }

  lemma CellsCons<V>(cs: seq<seq<Cell<V>>>, i: nat)
    requires i < |cs|
    ensures Cells(cs[i..]) == Elems(cs[i]) + Cells(cs[i + 1..])
  {
    forall e | e in Cells(cs[i + 1..]) ensures e in Cells(cs[i..]) {
      var h :| 0 <= h < |cs[i + 1..]| && e in cs[i + 1..][h];
      assert e in cs[i..][h + 1];
    }
    forall e | e in cs[i] ensures e in Cells(cs[i..]) { assert e in cs[i..][0]; }
    forall e | e in Cells(cs[i..]) ensures e in Cells(cs[i + 1..]) || e in cs[i] {
      var h :| 0 <= h < |cs[i..]| && e in cs[i..][h];
      if h > 0 { assert e in cs[i + 1..][h - 1]; }
    }
  }

  lemma {:induction false} ApartCount<V>(c: seq<Cell<V>>)
    requires Apart(c)
    ensures |set e | e in c| == |c|
  {
    if c == [] {
      assert (set e | e in c) == {};
    } else {
      ApartCount(c[1..]);
      assert (set e | e in c) == {c[0]} + (set e | e in c[1..]);
    }
  }

  lemma TotalSame<V>(hash: bytes -> nat, cs: seq<seq<Cell<V>>>, cs': seq<seq<Cell<V>>>)
    requires Placed(hash, cs) && Placed(hash, cs') && Cells(cs) == Cells(cs')
    ensures Total(cs) == Total(cs')
  {
    TotalCells(hash, cs, 0);
    TotalCells(hash, cs', 0);
    assert cs[0..] == cs && cs'[0..] == cs';
  }

  lemma ChainTail<V>(c: seq<Cell<V>>, j: nat, he: Cell?<V>)
    requires j < |c| && Chain(c[j..], he)
    ensures he == c[j] && Chain(c[j + 1..], c[j].next)
  {
    assert c[j..][0].next == if 1 < |c[j..]| then c[j..][1] else null;
    var t := c[j + 1..];
    forall i | 0 <= i < |t| ensures t[i].next == if i + 1 < |t| then t[i + 1] else null {
      assert c[j..][i + 1].next == if i + 2 < |c[j..]| then c[j..][i + 2] else null;
    }
  }

  /** An entry differs from those before it in its chain and from those of all other chains. */
  lemma KeysDiffer<V>(hash: bytes -> nat, cs: seq<seq<Cell<V>>>, i: nat, j: nat)
    requires Placed(hash, cs) && i < |cs| && j < |cs[i]|
    ensures forall e :: e in Cells(cs[..i]) ==> e.key != cs[i][j].key
    ensures forall e :: e in cs[i][..j] ==> e.key != cs[i][j].key
    ensures forall e :: e in cs[i][j + 1..] ==> e.key != cs[i][j].key
    ensures forall b, e :: i < b < |cs| && e in cs[b] ==> e.key != cs[i][j].key
  {
    assert cs[i][j] in cs[i];
    forall e | e in Cells(cs[..i]) ensures e.key != cs[i][j].key {
      var h :| 0 <= h < i && e in cs[..i][h];
      assert e in cs[h];
    }
    assert Apart(cs[i]);
  }

  lemma CellsSnoc<V>(cs: seq<seq<Cell<V>>>, i: nat)
    requires i < |cs|
    ensures Cells(cs[..i + 1]) == Cells(cs[..i]) + Elems(cs[i])
  {
    forall e | e in Cells(cs[..i]) ensures e in Cells(cs[..i + 1]) {
      var h :| 0 <= h < i && e in cs[..i][h];
      assert e in cs[..i + 1][h];
    }
    forall e | e in cs[i] ensures e in Cells(cs[..i + 1]) { assert e in cs[..i + 1][i]; }
    forall e | e in Cells(cs[..i + 1]) ensures e in Cells(cs[..i]) || e in cs[i] {
      var h :| 0 <= h < i + 1 && e in cs[..i + 1][h];
      if h < i { assert e in cs[..i][h]; }
    }
  }

  lemma CellsAll<V>(cs: seq<seq<Cell<V>>>, i: nat)
    requires i <= |cs| && forall h :: i <= h < |cs| ==> cs[h] == []
    ensures Cells(cs[..i]) == Cells(cs)
  {
    forall e | e in Cells(cs) ensures e in Cells(cs[..i]) {
      var h :| 0 <= h < |cs| && e in cs[h];
      assert e in cs[..i][h];
    }
    forall e | e in Cells(cs[..i]) ensures e in Cells(cs) {
      var h :| 0 <= h < i && e in cs[..i][h];
      assert e in cs[h];
    }
  }

  lemma TotalAtLeast<T>(cs: seq<seq<T>>, i: nat)
    requires i < |cs|
    ensures Total(cs[i..]) == |cs[i]| + Total(cs[i + 1..])
  {
    assert cs[i..][1..] == cs[i + 1..];
  }

  lemma {:induction false} TotalZero<T>(cs: seq<seq<T>>, i: nat)
    requires i <= |cs| && Total(cs[i..]) == 0
    ensures forall h :: i <= h < |cs| ==> cs[h] == []
    decreases |cs| - i
  {
    if i < |cs| {
      assert cs[i..][1..] == cs[i + 1..];
      TotalZero(cs, i + 1);
    }
  }

  // ----- iteration -----

  /** The entries from bucket b on, in visiting order. */
  ghost function Flat<V>(cs: seq<seq<Cell<V>>>, b: nat): seq<Cell<V>>
    requires b <= |cs|
    decreases |cs| - b
  {
    if b == |cs| then [] else cs[b] + Flat(cs, b + 1)
  }

  /**
   The fields of a dictIterator, and the place of the entry after the current one in its bucket; the
   current entry itself may have left the table.
   */
  ghost predicate Positioned<V>(ht: Dict<V>, index: int, entry: Cell?<V>, nextEntry: Cell?<V>, at: nat)
    reads ht
  {
    && |ht.chains| == |ht.table| == ht.size && -1 <= index <= ht.size
    && (entry != null ==>
          && 0 <= index < ht.size && at <= |ht.chains[index]|
          && nextEntry == if at < |ht.chains[index]| then ht.chains[index][at] else null)
  }

  /** What is still to be visited. */
  ghost function RemainingFrom<V>(ht: Dict<V>, index: int, entry: Cell?<V>, nextEntry: Cell?<V>, at: nat): seq<Cell<V>>
    requires Positioned(ht, index, entry, nextEntry, at)
    reads ht
  {
    if index == ht.size then []
    else if entry == null then Flat(ht.chains, index + 1)
    else ht.chains[index][at..] + Flat(ht.chains, index + 1)
  }

  /** The current entry is in the table, just before the next one. */
  ghost predicate Present<V>(ht: Dict<V>, index: int, entry: Cell?<V>, at: nat)
    reads ht
  {
    entry != null && 0 <= index < |ht.chains| && 1 <= at <= |ht.chains[index]| && ht.chains[index][at - 1] == entry
  }

  /** The loop of dictNext. */
  method Advance<V>(ht: Dict<V>, index0: int, entry0: Cell?<V>, next0: Cell?<V>, ghost at0: nat)
    returns (index: int, entry: Cell?<V>, nextEntry: Cell?<V>, ghost at: nat)
    requires ht.Valid() && Positioned(ht, index0, entry0, next0, at0)
    ensures Positioned(ht, index, entry, nextEntry, at) && (entry != null ==> Present(ht, index, entry, at))
    ensures var goal := RemainingFrom(ht, index0, entry0, next0, at0);
            var rest := RemainingFrom(ht, index, entry, nextEntry, at);
            if goal == [] then entry == null && rest == [] else entry == goal[0] && rest == goal[1..]
  {
    hide Dict.Valid, Flat;
    index, entry, nextEntry, at := index0, entry0, next0, at0;
    ghost var goal, cs := RemainingFrom(ht, index, entry, nextEntry, at), ht.chains;
    while true
      invariant Positioned(ht, index, entry, nextEntry, at)
      invariant RemainingFrom(ht, index, entry, nextEntry, at) == goal
      decreases ht.size - index, if entry == null then 0 else |cs[index]| - at + 1
    {
      if entry == null {
        if index < ht.size { index := index + 1; }
        if index >= ht.size {
          FlatEnd(cs);
          return;
        }
        BucketChain(ht, index, 0);
        FlatStep(cs, index);
        entry := ht.table[index];
        at := 0;
      } else {
        entry := nextEntry;
      }
      if entry != null {
        BucketChain(ht, index, at);
        nextEntry := entry.next;
        assert goal == cs[index][at..] + Flat(cs, index + 1);
        assert goal[1..] == cs[index][at + 1..] + Flat(cs, index + 1);
        at := at + 1;
        return;
      }
    }
  }

  class Iterator<V> {
    const ht: Dict<V>
    var index: int
    var entry: Cell?<V>
    var nextEntry: Cell?<V>
    ghost var at: nat

    ghost predicate Valid()
      reads this, ht
    {
      Positioned(ht, index, entry, nextEntry, at)
    }

    ghost function Remaining(): seq<Cell<V>>
      requires Valid()
      reads this, ht
    {
      RemainingFrom(ht, index, entry, nextEntry, at)
    }

    /** dictGetIterator. */
    constructor (ht: Dict<V>)
      requires ht.Valid()
      ensures Valid() && this.ht == ht && Remaining() == Flat(ht.chains, 0)
    {
      this.ht, index, entry, nextEntry, at := ht, -1, null, null, 0;
    }

    /** dictNext. */
    method Next() returns (r: Cell?<V>)
      requires Valid() && ht.Valid()
      modifies this
      ensures Valid() && entry == r && (r != null ==> Present(ht, index, entry, at))
      ensures if old(Remaining()) == [] then r == null && Remaining() == []
              else r == old(Remaining())[0] && Remaining() == old(Remaining())[1..]
    {
      hide Flat, Dict.Valid;
      index, entry, nextEntry, at := Advance(ht, index, entry, nextEntry, at);
      r := entry;
    }

    /** dictDelete of the entry just returned, in the middle of the iteration: what is still to come stays the same. */
    method DeleteCurrent()
      requires Valid() && ht.Valid() && this !in ht.Repr && Present(ht, index, entry, at)
      modifies this`at, ht.Repr
      ensures Valid() && ht.Valid() && ht.Repr == old(ht.Repr)
      ensures Remaining() == old(Remaining()) && ht.Contents == old(ht.Contents) - {entry.key}
    {
      hide Flat, Complete, Total, IsPow2, Chains, Valued;
      ghost var cs, c := ht.chains, ht.chains[index];
      assert entry in c && entry in Cells(cs);
      ValuedKey(cs, ht.Contents, entry);
      var ok, i := ht.Delete(entry.key);
      assert i == at - 1 by { assert Apart(c); }
      FlatBeyond(cs, ht.chains, index + 1);
      assert DropCell(c, at - 1)[at - 1..] == c[at..];
      at := at - 1;
    }
  }

  lemma {:induction false} FlatBeyond<V>(cs: seq<seq<Cell<V>>>, cs': seq<seq<Cell<V>>>, b: nat)
    requires b <= |cs| == |cs'| && forall h :: b <= h < |cs| ==> cs[h] == cs'[h]
    ensures Flat(cs, b) == Flat(cs', b)
    decreases |cs| - b
  {
    if b < |cs| { FlatBeyond(cs, cs', b + 1); }
  }

  lemma FlatEnd<V>(cs: seq<seq<Cell<V>>>)
    ensures Flat(cs, |cs|) == []
  {
  }

  lemma FlatStep<V>(cs: seq<seq<Cell<V>>>, b: nat)
    requires b < |cs|
    ensures Flat(cs, b) == cs[b] + Flat(cs, b + 1)
    ensures cs[b][0..] == cs[b]
  {
  }

  lemma BucketChain<V>(d: Dict<V>, b: nat, i: nat)
    requires d.Valid() && b < d.size
    ensures d.table[b] == if d.chains[b] == [] then null else d.chains[b][0]
    ensures i < |d.chains[b]| ==>
              d.chains[b][i].next == if i + 1 < |d.chains[b]| then d.chains[b][i + 1] else null
  {
    assert Chain(d.chains[b], d.table[b]);
  }

  lemma {:induction false} FlatTotal<V>(cs: seq<seq<Cell<V>>>, b: nat)
    requires b <= |cs|
    ensures |Flat(cs, b)| == Total(cs[b..])
    decreases |cs| - b
  {
    if b < |cs| {
      FlatTotal(cs, b + 1);
      TotalAtLeast(cs, b);
    } else {
      assert cs[b..] == [];
    }
  }

  lemma {:induction false} FlatMembers<V>(cs: seq<seq<Cell<V>>>, b: nat, e: Cell<V>)
    requires b <= |cs|
    ensures e in Flat(cs, b) <==> exists h :: b <= h < |cs| && e in cs[h]
    decreases |cs| - b
  {
    if b < |cs| {
      hide Flat;
      FlatStep(cs, b);
      FlatMembers(cs, b + 1, e);
    }
  }

  lemma {:induction false} FlatApart<V>(hash: bytes -> nat, cs: seq<seq<Cell<V>>>, b: nat)
    requires Placed(hash, cs) && b <= |cs|
    ensures Apart(Flat(cs, b))
    decreases |cs| - b
  {
    if b < |cs| {
      FlatApart(hash, cs, b + 1);
      var rest := Flat(cs, b + 1);
      assert Apart(cs[b]);
      forall i, j | 0 <= i < |cs[b]| && 0 <= j < |rest| ensures cs[b][i].key != rest[j].key {
        FlatMembers(cs, b + 1, rest[j]);
        assert rest[j] in rest && cs[b][i] in cs[b];
      }
    }
  }

  /** An iteration lists every key of the map exactly once, with its value. */
  method IterateAll<V>(d: Dict<V>) returns (es: seq<(bytes, V)>)
    requires d.Valid()
    ensures |es| == |d.Contents|
    ensures forall i :: 0 <= i < |es| ==> es[i].0 in d.Contents && es[i].1 == d.Contents[es[i].0]
    ensures forall i, j :: 0 <= i < j < |es| ==> es[i].0 != es[j].0
  {
    hide Placed, Complete, Total, IsPow2, Chains, Valued, Flat;
    es := [];
    var it := new Iterator(d);
    ghost var all := Flat(d.chains, 0);
    FlatTotal(d.chains, 0);
    FlatApart(d.hash, d.chains, 0);
    assert d.chains[0..] == d.chains;
    ghost var n := 0;
    while true
      invariant fresh(it) && it.Valid() && it.ht == d && d.Valid()
      invariant 0 <= n <= |all| && it.Remaining() == all[n..] && |es| == n
      invariant forall i :: 0 <= i < n ==> es[i].0 == all[i].key
      invariant forall i :: 0 <= i < n ==> es[i].0 in d.Contents && es[i].1 == d.Contents[es[i].0]
      decreases |all| - n
    {
      var e := it.Next();
      if e == null { break; }
      FlatValued(d.chains, d.Contents);
      assert all[n..][0] == all[n] && all[n..][1..] == all[n + 1..];
      es := es + [(e.key, e.val)];
      n := n + 1;
    }
  }

  lemma FlatValued<V>(cs: seq<seq<Cell<V>>>, m: map<bytes, V>)
    requires Valued(cs, m)
    ensures forall i :: 0 <= i < |Flat(cs, 0)| ==>
              Flat(cs, 0)[i].key in m && Flat(cs, 0)[i].val == m[Flat(cs, 0)[i].key]
  {
    var all := Flat(cs, 0);
    forall i | 0 <= i < |all| ensures all[i].key in m && all[i].val == m[all[i].key] {
      FlatMembers(cs, 0, all[i]);
      assert all[i] in Cells(cs);
    }
  }

  /** The map without the keys among the first n entries that are to be dropped. */
  ghost function Pruned<V>(m: map<bytes, V>, drop: bytes -> bool, all: seq<Cell<V>>, n: nat): map<bytes, V>
    requires n <= |all|
  {
    map k | k in m && !(drop(k) && exists i :: 0 <= i < n && all[i].key == k) :: m[k]
  }

  lemma PrunedStep<V>(m: map<bytes, V>, drop: bytes -> bool, all: seq<Cell<V>>, n: nat)
    requires n < |all| && Apart(all) && all[n].key in m
    ensures all[n].key in Pruned(m, drop, all, n)
    ensures Pruned(m, drop, all, n + 1) ==
              if drop(all[n].key) then Pruned(m, drop, all, n) - {all[n].key} else Pruned(m, drop, all, n)
  {
  }

  /** One turn of an iteration that deletes entries: the next one is looked at, and deleted if it is to be dropped. */
  method Visit<V>(it: Iterator<V>, drop: bytes -> bool, ghost m: map<bytes, V>, ghost all: seq<Cell<V>>, ghost n: nat)
    returns (r: Option<(bytes, V)>)
    requires it.Valid() && it.ht.Valid() && it !in it.ht.Repr && n <= |all| && it.Remaining() == all[n..]
    requires Apart(all) && (forall i :: 0 <= i < |all| ==> all[i].key in m) && it.ht.Contents == Pruned(m, drop, all, n)
    modifies it, it.ht.Repr
    ensures it.Valid() && it.ht.Valid() && it.ht.Repr == old(it.ht.Repr)
    ensures r == None ==> n == |all| && it.ht.Contents == Pruned(m, drop, all, n)
    ensures r.Some? ==> n < |all| && it.Remaining() == all[n + 1..] && it.ht.Contents == Pruned(m, drop, all, n + 1)
    ensures r.Some? ==> r.value.0 == all[n].key && r.value.1 == m[r.value.0]
  {
    hide Flat, Pruned, Dict.Valid, Iterator.Valid, Present, Apart;
    var e := it.Next();
    if e == null { return None; }
    assert all[n..][0] == all[n] && all[n..][1..] == all[n + 1..];
    PrunedStep(m, drop, all, n);
    CurrentValue(it.ht, it.index, e, it.at);
    PrunedValue(m, drop, all, n, e.key);
    r := Some((e.key, e.val));
    if drop(e.key) { it.DeleteCurrent(); }
  }

  /** An iteration that deletes entries as it meets them still visits every entry of the map exactly once. */
  method Prune<V>(d: Dict<V>, drop: bytes -> bool) returns (es: seq<(bytes, V)>)
    requires d.Valid()
    modifies d.Repr
    ensures d.Valid() && d.Repr == old(d.Repr)
    ensures |es| == |old(d.Contents)|
    ensures forall i :: 0 <= i < |es| ==> es[i].0 in old(d.Contents) && es[i].1 == old(d.Contents)[es[i].0]
    ensures forall i, j :: 0 <= i < j < |es| ==> es[i].0 != es[j].0
    ensures d.Contents == map k | k in old(d.Contents) && !drop(k) :: old(d.Contents)[k]
  {
    hide Flat, Pruned, Dict.Valid, Iterator.Valid, Apart;
    es := [];
    var it := new Iterator(d);
    ghost var all, m := Flat(d.chains, 0), d.Contents;
    FlatAll(d);
    PrunedNone(m, drop, all);
    while true
      invariant fresh(it) && it.Valid() && it.ht == d && d.Valid() && d.Repr == old(d.Repr)
      invariant |es| <= |all| && it.Remaining() == all[|es|..] && d.Contents == Pruned(m, drop, all, |es|)
      invariant forall i :: 0 <= i < |es| ==> es[i].0 == all[i].key && es[i].0 in m && es[i].1 == m[es[i].0]
      decreases |all| - |es|
    {
      var r := Visit(it, drop, m, all, |es|);
      if r == None { break; }
      es := es + [r.value];
    }
    PrunedAll(m, drop, all);
    ApartKeys(all, es);
  }

  lemma ApartKeys<V>(all: seq<Cell<V>>, es: seq<(bytes, V)>)
    requires Apart(all) && |es| == |all| && forall i :: 0 <= i < |es| ==> es[i].0 == all[i].key
    ensures forall i, j :: 0 <= i < j < |es| ==> es[i].0 != es[j].0
  {
  }

  lemma FlatAll<V>(d: Dict<V>)
    requires d.Valid()
    ensures var all := Flat(d.chains, 0);
            && |all| == |d.Contents| && Apart(all)
            && (forall i :: 0 <= i < |all| ==> all[i].key in d.Contents)
            && forall k :: k in d.Contents ==> exists i :: 0 <= i < |all| && all[i].key == k
  {
    hide Placed, Complete, Total, IsPow2, Chains, Valued, Flat;
    FlatTotal(d.chains, 0);
    FlatApart(d.hash, d.chains, 0);
    FlatKeys(d.hash, d.chains, d.Contents);
    assert d.chains[0..] == d.chains;
  }

  lemma CurrentValue<V>(d: Dict<V>, index: int, e: Cell<V>, at: nat)
    requires d.Valid() && Present(d, index, e, at)
    ensures e.key in d.Contents && e.val == d.Contents[e.key]
  {
    assert e in d.chains[index] && e in Cells(d.chains);
  }

  lemma PrunedNone<V>(m: map<bytes, V>, drop: bytes -> bool, all: seq<Cell<V>>)
    ensures Pruned(m, drop, all, 0) == m
  {
  }

  lemma PrunedValue<V>(m: map<bytes, V>, drop: bytes -> bool, all: seq<Cell<V>>, n: nat, k: bytes)
    requires n <= |all| && k in Pruned(m, drop, all, n)
    ensures k in m && Pruned(m, drop, all, n)[k] == m[k]
  {
  }

  lemma PrunedAll<V>(m: map<bytes, V>, drop: bytes -> bool, all: seq<Cell<V>>)
    requires forall k :: k in m ==> exists i :: 0 <= i < |all| && all[i].key == k
    ensures Pruned(m, drop, all, |all|) == map k | k in m && !drop(k) :: m[k]
  {
  }

  /** The entries in visiting order hold exactly the keys of the map. */
  lemma FlatKeys<V>(hash: bytes -> nat, cs: seq<seq<Cell<V>>>, m: map<bytes, V>)
    requires Complete(hash, cs, m.Keys) && Valued(cs, m)
    ensures forall i :: 0 <= i < |Flat(cs, 0)| ==> Flat(cs, 0)[i].key in m
    ensures forall k :: k in m ==> exists i :: 0 <= i < |Flat(cs, 0)| && Flat(cs, 0)[i].key == k
  {
    hide Flat;
    var all := Flat(cs, 0);
    FlatValued(cs, m);
    forall k | k in m ensures exists i :: 0 <= i < |all| && all[i].key == k {
      assert k in m.Keys;
      var e :| e in cs[hash(k) % |cs|] && e.key == k;
      FlatMembers(cs, 0, e);
      assert e in all;
      var i :| 0 <= i < |all| && all[i] == e;
    }
  }

  // ----- whole runs -----

  datatype Op<V> = DoAdd(key: bytes, val: V) | DoReplace(key: bytes, val: V) | DoDelete(key: bytes) | DoFind(key: bytes)

  datatype Answer<V> = Status(ok: bool) | Got(value: Option<V>)

  function StepMap<V>(m: map<bytes, V>, op: Op<V>): map<bytes, V> {
    match op
    case DoAdd(k, v) => if k in m then m else m[k := v]
    case DoReplace(k, v) => m[k := v]
    case DoDelete(k) => m - {k}
    case DoFind(_) => m
  }

  function StepAnswer<V>(m: map<bytes, V>, op: Op<V>): Answer<V> {
    match op
    case DoAdd(k, _) => Status(k !in m)
    case DoReplace(k, _) => Status(k !in m)
    case DoDelete(k) => Status(k in m)
    case DoFind(k) => Got(if k in m then Some(m[k]) else None)
  }

  function RunMap<V>(ops: seq<Op<V>>): map<bytes, V> {
    if ops == [] then map[] else StepMap(RunMap(ops[..|ops| - 1]), ops[|ops| - 1])
  }

  function RunAnswers<V>(ops: seq<Op<V>>): seq<Answer<V>> {
    if ops == [] then []
    else RunAnswers(ops[..|ops| - 1]) + [StepAnswer(RunMap(ops[..|ops| - 1]), ops[|ops| - 1])]
  }

  /** Any run of adds, replacements, deletions and lookups answers as the map does, for any hash function. */
  method Run<V>(hash: bytes -> nat, ops: seq<Op<V>>) returns (answers: seq<Answer<V>>)
    requires |ops| < LLONG_MAX / 16
    ensures answers == RunAnswers(ops)
  {
    hide Dict.Valid, StepMap, StepAnswer;
    var d := new Dict<V>(hash);
    answers := [];
    for n := 0 to |ops|
      invariant d.Valid() && fresh(d.Repr)
      invariant d.Contents == RunMap(ops[..n]) && answers == RunAnswers(ops[..n])
      invariant |d.Contents| <= n && d.size <= INITIAL_SIZE + 4 * n
    {
      assert ops[..n + 1][..n] == ops[..n];
      var a := Perform(d, ops[n]);
      StepMapSize(RunMap(ops[..n]), ops[n]);
      answers := answers + [a];
    }
    assert ops[..|ops|] == ops;
  }

  lemma StepMapSize<V>(m: map<bytes, V>, op: Op<V>)
    ensures |StepMap(m, op)| <= |m| + 1
  {
    match op
    case DoDelete(k) =>
      var m' := m - {k};
      assert m'.Keys == m.Keys - {k};
      assert |m'.Keys| <= |m.Keys|;
    case _ =>
  }

  lemma UsedIs<V>(d: Dict<V>)
    requires d.Valid()
    ensures d.used == |d.Contents|
  {
  }

  /** One operation on the table does what it does to the map. */
  method Perform<V>(d: Dict<V>, op: Op<V>) returns (a: Answer<V>)
    requires d.Valid() && d.size < LLONG_MAX / 2
    modifies d.Repr
    ensures d.Valid() && fresh(d.Repr - old(d.Repr))
    ensures d.Contents == StepMap(old(d.Contents), op) && a == StepAnswer(old(d.Contents), op)
    ensures d.size <= old(d.size) || d.size <= INITIAL_SIZE + 4 * old(|d.Contents|)
  {
    UsedIs(d);
    hide Dict.Valid;
    if op.DoAdd? || op.DoReplace? {
      a := Store(d, op);
    } else if op.DoDelete? {
      var ok, _ := d.Delete(op.key);
      a := Status(ok);
    } else {
      var r := d.Find(op.key);
      a := Got(r);
    }
  }

  method Store<V>(d: Dict<V>, op: Op<V>) returns (a: Answer<V>)
    requires d.Valid() && d.size < LLONG_MAX / 2 && (op.DoAdd? || op.DoReplace?)
    modifies d.Repr
    ensures d.Valid() && fresh(d.Repr - old(d.Repr))
    ensures d.Contents == StepMap(old(d.Contents), op) && a == StepAnswer(old(d.Contents), op)
    ensures d.size <= old(d.size) || d.size <= INITIAL_SIZE + 4 * old(d.used)
  {
    hide Dict.Valid;
    if op.DoAdd? {
      var ok := d.Add(op.key, op.val);
      a := Status(ok);
    } else {
      var ok := d.Replace(op.key, op.val);
      a := Status(ok);
    }
  }
}
