/**
 The JSON object table of src/jansson/src/hashtable.c: every pair hangs in two circular
 doubly linked lists at once, one made of contiguous bucket segments and one in insertion
 order, and growing the table relinks the first list in place.
 */
module HashTable {
  import opened Bytes

  // ----- insertion-ordered maps, the reference -----

  datatype Entry<V> = Entry(key: bytes, value: V)

  predicate DistinctKeys<V>(es: seq<Entry<V>>) {
    forall i, j :: 0 <= i < j < |es| ==> es[i].key != es[j].key
  }

  function Lookup<V>(es: seq<Entry<V>>, key: bytes): Option<V> {
    if es == [] then None
    else if es[0].key == key then Some(es[0].value)
    else Lookup(es[1..], key)
  }

  /** Overwrite in place, or append. */
  function Put<V>(es: seq<Entry<V>>, key: bytes, value: V): seq<Entry<V>> {
    if es == [] then [Entry(key, value)]
    else if es[0].key == key then [Entry(key, value)] + es[1..]
    else [es[0]] + Put(es[1..], key, value)
  }

  function Remove<V>(es: seq<Entry<V>>, key: bytes): seq<Entry<V>> {
    if es == [] then []
    else if es[0].key == key then es[1..]
    else [es[0]] + Remove(es[1..], key)
  }

  lemma {:induction false} LookupAt<V>(es: seq<Entry<V>>, i: nat)
    requires DistinctKeys(es) && i < |es|
    ensures Lookup(es, es[i].key) == Some(es[i].value)
  {
    if i > 0 { LookupAt(es[1..], i - 1); }
  }

  lemma {:induction false} LookupNone<V>(es: seq<Entry<V>>, key: bytes)
    requires forall i :: 0 <= i < |es| ==> es[i].key != key
    ensures Lookup(es, key) == None
  {
    if es != [] { LookupNone(es[1..], key); }
  }

  lemma {:induction false} PutAt<V>(es: seq<Entry<V>>, i: nat, value: V)
    requires DistinctKeys(es) && i < |es|
    ensures Put(es, es[i].key, value) == es[i := Entry(es[i].key, value)]
  {
    if i > 0 {
      PutAt(es[1..], i - 1, value);
      assert es == [es[0]] + es[1..];
    }
  }

  lemma {:induction false} PutNew<V>(es: seq<Entry<V>>, key: bytes, value: V)
    requires forall i :: 0 <= i < |es| ==> es[i].key != key
    ensures Lookup(es, key) == None && Put(es, key, value) == es + [Entry(key, value)]
  {
    if es != [] {
      PutNew(es[1..], key, value);
      assert es == [es[0]] + es[1..];
    }
  }

  lemma {:induction false} RemoveAt<V>(es: seq<Entry<V>>, i: nat)
    requires DistinctKeys(es) && i < |es|
    ensures Remove(es, es[i].key) == es[..i] + es[i + 1..]
  {
    if i > 0 {
      RemoveAt(es[1..], i - 1);
      assert es == [es[0]] + es[1..];
      assert es[1..][..i - 1] == es[1..i] && es[1..][i..] == es[i + 1..];
      assert es[..i] == [es[0]] + es[1..i];
    }
  }

  lemma {:induction false} RemoveNone<V>(es: seq<Entry<V>>, key: bytes)
    requires forall i :: 0 <= i < |es| ==> es[i].key != key
    ensures Remove(es, key) == es
  {
    if es != [] { RemoveNone(es[1..], key); }
  }

  /** The reference is a map: what was put last under a key is found, other keys are untouched. */
  lemma {:induction false} LookupPut<V>(es: seq<Entry<V>>, key: bytes, value: V, k: bytes)
    ensures Lookup(Put(es, key, value), k) == if k == key then Some(value) else Lookup(es, k)
  {
    if es != [] {
      var p := Put(es, key, value);
      if es[0].key == key {
        assert p[1..] == es[1..];
      } else {
        assert p[1..] == Put(es[1..], key, value);
        LookupPut(es[1..], key, value, k);
      }
    }
  }

  lemma {:induction false} LookupRemove<V>(es: seq<Entry<V>>, key: bytes, k: bytes)
    requires DistinctKeys(es)
    ensures Lookup(Remove(es, key), k) == if k == key then None else Lookup(es, k)
  {
    if es != [] {
      if es[0].key == key {
        LookupNone(es[1..], key);
      } else {
        assert Remove(es, key)[1..] == Remove(es[1..], key);
        LookupRemove(es[1..], key, k);
      }
    }
  }

  // ----- links -----

  /**
   A list_t.  A pair embeds two of them, so their relative addresses never change: `pair` is what
   container_of returns (null for the two list heads) and `twin` is the other embedded link of a
   pair, seen from its bucket link.
   */
  class Link<V> {
    var prev: Link?<V>
    var next: Link?<V>
    const pair: Pair?<V>
    const twin: Link?<V>

    /** list_init. */
    constructor (pair: Pair?<V>, twin: Link?<V>)
      ensures this.pair == pair && this.twin == twin && prev == this && next == this
    {
      this.pair, this.twin := pair, twin;
      new;
      prev, next := this, this;
    }
  }

  class Pair<V> {
    const key: bytes
    const hash: nat
    var value: V

    constructor (key: bytes, hash: nat, value: V)
      ensures this.key == key && this.hash == hash && this.value == value
    {
      this.key, this.hash, this.value := key, hash, value;
    }
  }

  ghost predicate Distinct<T>(s: seq<T>) {
    forall i, j :: 0 <= i < j < |s| ==> s[i] != s[j]
  }

  /** s is a circular doubly linked list starting from its head. */
  ghost predicate Ring<V>(s: seq<Link<V>>)
    reads s
  {
    && |s| >= 1
    && Distinct(s)
    && (forall i {:trigger s[i].next} :: 0 <= i < |s| - 1 ==> s[i].next == s[i + 1])
    && (forall i {:trigger s[i].prev} :: 0 < i < |s| ==> s[i].prev == s[i - 1])
    && s[|s| - 1].next == s[0]
    && s[0].prev == s[|s| - 1]
  }

  function InsertAt<T>(s: seq<T>, k: nat, x: T): seq<T>
    requires k <= |s|
  {
    s[..k] + [x] + s[k..]
  }

  function DropAt<T>(s: seq<T>, k: nat): seq<T>
    requires k < |s|
  {
    s[..k] + s[k + 1..]
  }

  lemma DropIndexes<T>(s: seq<T>, k: nat)
    requires k < |s|
    ensures |DropAt(s, k)| == |s| - 1
    ensures forall i :: 0 <= i < k ==> DropAt(s, k)[i] == s[i]
    ensures forall i :: k <= i < |s| - 1 ==> DropAt(s, k)[i] == s[i + 1]
  {
  }

  /** list_insert: in front of s[k], which for the head means at the end. */
  method ListInsert<V>(list: Link<V>, node: Link<V>, ghost s: seq<Link<V>>, ghost k: nat)
    requires Ring(s) && 1 <= k <= |s| && node !in s
    requires list == if k == |s| then s[0] else s[k]
    modifies node, list, list.prev
    ensures Ring(InsertAt(s, k, node))
  {
    assert list.prev == s[k - 1];
    node.next := list;
    node.prev := list.prev;
    list.prev.next := node;
    list.prev := node;
    ghost var t := InsertAt(s, k, node);
    assert forall i :: 0 <= i < k ==> t[i] == s[i];
    assert t[k] == node;
    assert forall i :: k < i < |t| ==> t[i] == s[i - 1];
    assert Distinct(t);
    forall i | 0 <= i < |t| - 1 ensures t[i].next == t[i + 1] {
      if i < k - 1 {
        assert s[i].next == s[i + 1];
      } else if i > k {
        assert s[i - 1].next == s[i];
      }
    }
    forall i | 0 < i < |t| ensures t[i].prev == t[i - 1] {
      if i < k {
        assert s[i].prev == s[i - 1];
      } else if i > k + 1 {
        assert s[i - 1].prev == s[i - 2];
      }
    }
  }

  /** list_remove. */
  method ListRemove<V>(node: Link<V>, ghost s: seq<Link<V>>, ghost k: nat)
    requires Ring(s) && 1 <= k < |s| && node == s[k]
    requires node.prev != null && node.next != null
    modifies node.prev, node.next
    ensures Ring(DropAt(s, k))
  {
    assert node.prev == s[k - 1];
    assert k + 1 < |s| ==> node.next == s[k + 1];
    node.prev.next := node.next;
    node.next.prev := node.prev;
    ghost var t := DropAt(s, k);
    assert forall i :: 0 <= i < k ==> t[i] == s[i];
    assert forall i :: k <= i < |t| ==> t[i] == s[i + 1];
    assert Distinct(t);
    forall i | 0 <= i < |t| - 1 ensures t[i].next == t[i + 1] {
      if i < k - 1 {
        assert s[i].next == s[i + 1];
      } else if i > k - 1 {
        assert s[i + 1].next == s[i + 2];
      }
    }
    forall i | 0 < i < |t| ensures t[i].prev == t[i - 1] {
      if i < k {
        assert s[i].prev == s[i - 1];
      } else if i > k {
        assert s[i + 1].prev == s[i];
      }
    }
  }

  // ----- bucket segments -----

  datatype Bucket<V> = Bucket(first: Link<V>, last: Link<V>)

  ghost predicate AllPaired<V>(s: seq<Link<V>>) {
    |s| >= 1 && forall i :: 1 <= i < |s| ==> s[i].pair != null
  }

  /** hash & (size - 1), the size being a power of two. */
  function SlotOf(hash: nat, size: nat): nat
    requires size > 0
  {
    hash % size
  }

  ghost function Slot<V>(l: Link<V>, size: nat): nat
    requires l.pair != null && size > 0
  {
    SlotOf(l.pair.hash, size)
  }

  /** Positions lo..hi of the list are exactly the members of bucket b. */
  ghost predicate SegmentIs<V>(s: seq<Link<V>>, size: nat, b: nat, lo: int, hi: int)
    requires AllPaired(s) && size > 0
  {
    1 <= lo <= hi < |s| && forall p :: 1 <= p < |s| ==> (Slot(s[p], size) == b <==> lo <= p <= hi)
  }

  ghost predicate Absent<V>(s: seq<Link<V>>, size: nat, b: nat)
    requires AllPaired(s) && size > 0
  {
    forall p :: 1 <= p < |s| ==> Slot(s[p], size) != b
  }

  ghost predicate BucketOk<V>(s: seq<Link<V>>, size: nat, b: nat, bk: Bucket<V>)
    requires AllPaired(s) && size > 0
  {
    || (bk == Bucket(s[0], s[0]) && Absent(s, size, b))
    || exists lo, hi :: SegmentIs(s, size, b, lo, hi) && bk == Bucket(s[lo], s[hi])
  }

  /** Every bucket is one contiguous segment of the list, named by its two ends. */
  ghost predicate Segmented<V>(s: seq<Link<V>>, buckets: seq<Bucket<V>>) {
    && AllPaired(s) && |buckets| > 0
    && forall b :: 0 <= b < |buckets| ==> BucketOk(s, |buckets|, b, buckets[b])
  }

  /** Where insert_to_bucket puts a new member, and the new ends of the bucket. */
  ghost predicate InsertionPoint<V>(s: seq<Link<V>>, size: nat, b: nat, k: nat)
    requires AllPaired(s) && size > 0
  {
    (k == |s| && Absent(s, size, b)) || exists hi :: SegmentIs(s, size, b, k, hi)
  }

  lemma OtherBucketInsert<V>(s: seq<Link<V>>, size: nat, b: nat, k: nat, node: Link<V>, c: nat, bk: Bucket<V>)
    requires AllPaired(s) && size > 0 && node.pair != null && Slot(node, size) == b && b != c
    requires 1 <= k <= |s| && InsertionPoint(s, size, b, k)
    requires BucketOk(s, size, c, bk)
    ensures AllPaired(InsertAt(s, k, node)) && BucketOk(InsertAt(s, k, node), size, c, bk)
  {
    if bk == Bucket(s[0], s[0]) && Absent(s, size, c) {
      AbsentInsert(s, size, k, node, c);
    } else {
      var lo, hi :| SegmentIs(s, size, c, lo, hi) && bk == Bucket(s[lo], s[hi]);
      if k < |s| { assert Slot(s[k], size) == b; }
      SegmentInsert(s, size, k, node, c, lo, hi);
    }
  }

  lemma AbsentInsert<V>(s: seq<Link<V>>, size: nat, k: nat, node: Link<V>, c: nat)
    requires AllPaired(s) && size > 0 && node.pair != null && Slot(node, size) != c && 1 <= k <= |s|
    requires Absent(s, size, c)
    ensures var t := InsertAt(s, k, node); AllPaired(t) && Absent(t, size, c) && t[0] == s[0]
  {
    var t := InsertAt(s, k, node);
    assert forall i :: 0 <= i < |t| ==> t[i] == if i < k then s[i] else if i == k then node else s[i - 1];
  }

  /** A member of another bucket, put anywhere but inside the segment of c. */
  lemma SegmentInsert<V>(s: seq<Link<V>>, size: nat, k: nat, node: Link<V>, c: nat, lo: nat, hi: nat)
    requires AllPaired(s) && size > 0 && node.pair != null && Slot(node, size) != c && 1 <= k <= |s|
    requires SegmentIs(s, size, c, lo, hi) && (k < |s| ==> Slot(s[k], size) != c || k == lo)
    ensures var t := InsertAt(s, k, node);
            var lo', hi' := if lo >= k then lo + 1 else lo, if hi >= k then hi + 1 else hi;
            AllPaired(t) && SegmentIs(t, size, c, lo', hi') && t[lo'] == s[lo] && t[hi'] == s[hi]
  {
    var t := InsertAt(s, k, node);
    assert forall i :: 0 <= i < |t| ==> t[i] == if i < k then s[i] else if i == k then node else s[i - 1];
    var lo', hi' := if lo >= k then lo + 1 else lo, if hi >= k then hi + 1 else hi;
    forall p | 1 <= p < |t| ensures Slot(t[p], size) == c <==> lo' <= p <= hi' {
      if p < k {
        assert Slot(s[p], size) == c <==> lo <= p <= hi;
      } else if p > k {
        assert Slot(s[p - 1], size) == c <==> lo <= p - 1 <= hi;
      }
    }
  }

  lemma OwnBucketInsert<V>(s: seq<Link<V>>, size: nat, b: nat, k: nat, node: Link<V>, bk: Bucket<V>)
    requires AllPaired(s) && size > 0 && node.pair != null && Slot(node, size) == b
    requires 1 <= k <= |s| && InsertionPoint(s, size, b, k) && BucketOk(s, size, b, bk)
    ensures AllPaired(InsertAt(s, k, node))
    ensures BucketOk(InsertAt(s, k, node), size, b, Bucket(node, if Absent(s, size, b) then node else bk.last))
  {
    var t := InsertAt(s, k, node);
    assert forall i :: 0 <= i < k ==> t[i] == s[i];
    assert t[k] == node;
    assert forall i :: k < i < |t| ==> t[i] == s[i - 1];
    if k == |s| {
      assert SegmentIs(t, size, b, k, k);
    } else {
      var top :| SegmentIs(s, size, b, k, top);
      assert Slot(s[k], size) == b;
      var lo, hi :| SegmentIs(s, size, b, lo, hi) && bk == Bucket(s[lo], s[hi]);
      assert Slot(s[lo], size) == b;
      assert k == lo;
      forall p | 1 <= p < |t| ensures Slot(t[p], size) == b <==> lo <= p <= hi + 1 {
        if p < k {
          assert Slot(s[p], size) == b <==> lo <= p <= hi;
        } else if p > k {
          assert Slot(s[p - 1], size) == b <==> lo <= p - 1 <= hi;
        }
      }
      assert SegmentIs(t, size, b, lo, hi + 1);
      assert t[hi + 1] == s[hi];
    }
  }

  /** Inserting at the head of a bucket keeps every bucket contiguous. */
  lemma SegmentedInsert<V>(s: seq<Link<V>>, buckets: seq<Bucket<V>>, b: nat, k: nat, node: Link<V>)
    requires Segmented(s, buckets) && b < |buckets|
    requires node.pair != null && Slot(node, |buckets|) == b
    requires 1 <= k <= |s| && InsertionPoint(s, |buckets|, b, k)
    ensures Segmented(InsertAt(s, k, node),
                      buckets[b := Bucket(node, if Absent(s, |buckets|, b) then node else buckets[b].last)])
  {
    hide BucketOk, Absent, InsertionPoint;
    OwnBucketInsert(s, |buckets|, b, k, node, buckets[b]);
    forall c | 0 <= c < |buckets| && c != b
      ensures BucketOk(InsertAt(s, k, node), |buckets|, c, buckets[c])
    {
      OtherBucketInsert(s, |buckets|, b, k, node, c, buckets[c]);
    }
  }

  /** The ends of a bucket after its member at position k has gone. */
  function Shrunk<V>(bk: Bucket<V>, s: seq<Link<V>>, k: nat): Bucket<V>
    requires 1 <= k < |s|
  {
    if s[k] == bk.first && s[k] == bk.last then Bucket(s[0], s[0])
    else if s[k] == bk.first then bk.(first := if k + 1 < |s| then s[k + 1] else s[0])
    else if s[k] == bk.last then bk.(last := s[k - 1])
    else bk
  }

  lemma AbsentDrop<V>(s: seq<Link<V>>, size: nat, k: nat, c: nat)
    requires AllPaired(s) && size > 0 && 1 <= k < |s| && Absent(s, size, c)
    ensures AllPaired(DropAt(s, k)) && Absent(DropAt(s, k), size, c)
  {
    hide Slot, DropAt;
    var t := DropAt(s, k);
    DropIndexes(s, k);
    forall p | 1 <= p < |t| ensures Slot(t[p], size) != c {
      if p < k { assert Slot(s[p], size) != c; } else { assert Slot(s[p + 1], size) != c; }
    }
  }

  /** Where a segment stands without the k-th member of the list. */
  lemma SegmentDrop<V>(s: seq<Link<V>>, size: nat, k: nat, c: nat, lo: nat, hi: nat)
    requires AllPaired(s) && size > 0 && 1 <= k < |s| && SegmentIs(s, size, c, lo, hi)
    ensures AllPaired(DropAt(s, k))
    ensures forall p :: 1 <= p < |s| - 1 ==>
              (DropIndexes(s, k); Slot(DropAt(s, k)[p], size) == c <==> lo <= (if p < k then p else p + 1) <= hi)
  {
    hide Slot, DropAt;
    var t := DropAt(s, k);
    DropIndexes(s, k);
    forall p | 1 <= p < |s| - 1
      ensures Slot(t[p], size) == c <==> lo <= (if p < k then p else p + 1) <= hi
    {
      var q := if p < k then p else p + 1;
      assert Slot(s[q], size) == c <==> lo <= q <= hi;
    }
  }

  lemma OtherBucketDrop<V>(s: seq<Link<V>>, size: nat, k: nat, c: nat, bk: Bucket<V>)
    requires AllPaired(s) && size > 0 && 1 <= k < |s| && Slot(s[k], size) != c
    requires BucketOk(s, size, c, bk)
    ensures AllPaired(DropAt(s, k)) && BucketOk(DropAt(s, k), size, c, bk)
  {
    hide Slot, DropAt, Absent;
    var t := DropAt(s, k);
    DropIndexes(s, k);
    if bk == Bucket(s[0], s[0]) && Absent(s, size, c) {
      AbsentDrop(s, size, k, c);
    } else {
      var lo, hi :| SegmentIs(s, size, c, lo, hi) && bk == Bucket(s[lo], s[hi]);
      assert !(lo <= k <= hi);
      SegmentDrop(s, size, k, c, lo, hi);
      var lo', hi' := if lo > k then lo - 1 else lo, if hi > k then hi - 1 else hi;
      assert t[lo'] == s[lo] && t[hi'] == s[hi];
      assert SegmentIs(t, size, c, lo', hi');
    }
  }

  lemma OwnBucketDrop<V>(s: seq<Link<V>>, size: nat, k: nat, b: nat, bk: Bucket<V>)
    requires AllPaired(s) && Distinct(s) && size > 0 && 1 <= k < |s| && Slot(s[k], size) == b
    requires BucketOk(s, size, b, bk)
    ensures AllPaired(DropAt(s, k)) && BucketOk(DropAt(s, k), size, b, Shrunk(bk, s, k))
  {
    hide Slot, DropAt;
    var t := DropAt(s, k);
    DropIndexes(s, k);
    assert !Absent(s, size, b);
    var lo, hi :| SegmentIs(s, size, b, lo, hi) && bk == Bucket(s[lo], s[hi]);
    assert lo <= k <= hi;
    SegmentDrop(s, size, k, b, lo, hi);
    if lo == hi {
      assert Absent(t, size, b);
    } else {
      assert SegmentIs(t, size, b, lo, hi - 1);
      assert t[lo] == Shrunk(bk, s, k).first && t[hi - 1] == Shrunk(bk, s, k).last;
    }
  }

  /** Deleting a member keeps every bucket contiguous. */
  lemma SegmentedDrop<V>(s: seq<Link<V>>, buckets: seq<Bucket<V>>, k: nat, b: nat)
    requires Segmented(s, buckets) && Distinct(s) && 1 <= k < |s|
    requires b == Slot(s[k], |buckets|)
    ensures Segmented(DropAt(s, k), buckets[b := Shrunk(buckets[b], s, k)])
  {
    hide BucketOk;
    OwnBucketDrop(s, |buckets|, k, b, buckets[b]);
    forall c | 0 <= c < |buckets| && c != b ensures BucketOk(DropAt(s, k), |buckets|, c, buckets[c]) {
      OtherBucketDrop(s, |buckets|, k, c, buckets[c]);
    }
  }

  // ----- the table -----

  const INITIAL_ORDER: nat := 3

  function Pow2(n: nat): nat { if n == 0 then 1 else 2 * Pow2(n - 1) }

  /** Every pair hangs in both lists: the bucket links and the insertion-order links are twins. */
  ghost predicate Threaded<V>(ring: seq<Link<V>>, oring: seq<Link<V>>) {
    && AllPaired(ring) && AllPaired(oring)
    && (forall l :: l in ring ==> l !in oring)
    && (forall l :: l in ring && l.pair != null ==> l.twin != null && l.twin in oring && l.twin.pair == l.pair)
    && (forall o :: o in oring && o.pair != null ==> exists l :: l in ring && l.twin == o && l.pair == o.pair)
    && (forall l, m :: l in ring && m in ring && l.pair != null && l.pair == m.pair ==> l == m)
  }

  ghost predicate Hashed<V>(hashOf: bytes -> nat, ring: seq<Link<V>>) {
    forall l :: l in ring && l.pair != null ==> l.pair.hash == hashOf(l.pair.key)
  }

  /** No two pairs share a key. */
  ghost predicate KeysApart<V>(oring: seq<Link<V>>)
    requires AllPaired(oring)
  {
    forall i, j :: 1 <= i < j < |oring| ==> oring[i].pair.key != oring[j].pair.key
  }

  /** The entries along an insertion-order list. */
  ghost function EntriesOf<V>(oring: seq<Link<V>>): (es: seq<Entry<V>>)
    requires AllPaired(oring)
    reads set l | l in oring && l.pair != null :: l.pair
    ensures |es| == |oring| - 1
    ensures forall i :: 0 <= i < |es| ==> es[i] == Entry(oring[i + 1].pair.key, oring[i + 1].pair.value)
  {
    seq(|oring| - 1, i requires 0 <= i < |oring| - 1 reads set l | l in oring && l.pair != null :: l.pair =>
      assert oring[i + 1] in oring; Entry(oring[i + 1].pair.key, oring[i + 1].pair.value))
  }

  ghost predicate Owns<V>(repr: set<object>, ring: seq<Link<V>>, oring: seq<Link<V>>) {
    && (forall l :: l in ring ==> l in repr)
    && (forall o :: o in oring ==> o in repr && (o.pair != null ==> o.pair in repr))
  }

  /** How pairs, keys, hashes and buckets are laid out over the two lists. */
  ghost predicate Laid<V>(hashOf: bytes -> nat, ring: seq<Link<V>>, oring: seq<Link<V>>, buckets: seq<Bucket<V>>)
    requires AllPaired(oring)
  {
    Segmented(ring, buckets) && Hashed(hashOf, ring) && Threaded(ring, oring) && KeysApart(oring)
  }

  class Table<V> {
    const hashOf: bytes -> nat
    var size: nat
    var order: nat
    var buckets: seq<Bucket<V>>
    const list: Link<V>
    const ordered: Link<V>
    /** The two circular lists, each from its head. */
    ghost var ring: seq<Link<V>>
    ghost var oring: seq<Link<V>>
    ghost var Repr: set<object>

    ghost predicate Owned()
      reads this
    {
      this in Repr && Owns(Repr, ring, oring)
    }

    /** Everything that does not depend on the links. */
    ghost predicate Shaped()
      reads this
    {
      && AllPaired(ring) && AllPaired(oring)
      && ring[0] == list && list.pair == null
      && oring[0] == ordered && ordered.pair == null
      && |buckets| == Pow2(order)
      && size == |ring| - 1 == |oring| - 1
      && Laid(hashOf, ring, oring, buckets)
    }

    ghost predicate Valid()
      reads this, Repr
    {
      Owned() && Shaped() && Ring(ring) && Ring(oring)
    }

    /** The table as an insertion-ordered map. */
    ghost function Entries(): seq<Entry<V>>
      requires Owned() && AllPaired(oring)
      reads this, Repr
    {
      EntriesOf(oring)
    }

    constructor (hashOf: bytes -> nat)
      ensures Valid() && fresh(Repr) && Entries() == [] && this.hashOf == hashOf
    {
      this.hashOf := hashOf;
      size, order := 0, INITIAL_ORDER;
      var l := new Link<V>(null, null);
      var o := new Link<V>(null, null);
      list, ordered := l, o;
      ring, oring := [l], [o];
      buckets := seq(8, _ => Bucket(l, l));
      Repr := {this, l, o};
      new;
      assert Pow2(3) == 8;
    }

    predicate BucketIsEmpty(b: nat)
      requires b < |buckets|
      reads this
    {
      buckets[b].first == list && buckets[b].first == buckets[b].last
    }

    /** insert_to_bucket. */
    method InsertToBucket(b: nat, node: Link<V>, ghost links: set<Link<V>>) returns (ghost k: nat)
      requires Ring(ring) && ring[0] == list && list.pair == null && Segmented(ring, buckets)
      requires b < |buckets| && node !in ring && node.pair != null && Slot(node, |buckets|) == b
      requires node in links && forall l :: l in ring ==> l in links
      modifies this`ring, this`buckets, links
      ensures 1 <= k <= |old(ring)| && ring == InsertAt(old(ring), k, node)
      ensures Ring(ring) && Segmented(ring, buckets) && |buckets| == old(|buckets|)
    {
      ghost var s := ring;
      assert BucketOk(ring, |buckets|, b, buckets[b]);
      if BucketIsEmpty(b) {
        k := |ring|;
        assert Absent(s, |buckets|, b);
        SegmentedInsert(s, buckets, b, k, node);
        ListInsert(list, node, s, k);
        buckets := buckets[b := Bucket(node, node)];
      } else {
        ghost var lo, hi :| SegmentIs(ring, |buckets|, b, lo, hi) && buckets[b] == Bucket(ring[lo], ring[hi]);
        k := lo;
        assert Slot(s[lo], |buckets|) == b;
        SegmentedInsert(s, buckets, b, k, node);
        ListInsert(buckets[b].first, node, s, k);
        buckets := buckets[b := buckets[b].(first := node)];
      }
      ring := InsertAt(s, k, node);
    }

    /** hashtable_find_pair: walk the segment of bucket b. */
    method FindPair(b: nat, key: bytes, hash: nat) returns (l: Link?<V>)
      requires Ring(ring) && ring[0] == list && list.pair == null && Segmented(ring, buckets)
      requires b == SlotOf(hash, |buckets|)
      ensures l != null ==> l in ring && l.pair != null && l.pair.hash == hash && l.pair.key == key
      ensures l == null ==> NoMatch(ring, key, hash)
    {
      hide SegmentIs, BucketOk, Slot, Absent, NoMatch;
      assert BucketOk(ring, |buckets|, b, buckets[b]);
      ghost var lo, hi := BucketCases(ring, |buckets|, b, buckets[b]);
      if BucketIsEmpty(b) {
        AbsentNoMatch(ring, |buckets|, b, key, hash);
        return null;
      }
      l := buckets[b].first;
      ghost var p := lo;
      while true
        invariant lo <= p <= hi && l == ring[p]
        invariant forall q :: lo <= q < p ==> ring[q].pair.hash != hash || ring[q].pair.key != key
        decreases hi - p
      {
        var pair := l.pair;
        if pair.hash == hash && pair.key == key { return; }
        if l == buckets[b].last { break; }
        assert ring[p].next == ring[p + 1];
        l, p := l.next, p + 1;
      }
      SegmentNoMatch(ring, |buckets|, b, lo, hi, key, hash);
      return null;
    }

    /** One turn of the rehash loop: move the i-th link of the old list s into its new bucket. */
    method Relink(l: Link<V>, ghost s: seq<Link<V>>, ghost i: nat)
      requires 1 <= i < |s| && l == s[i] && s[0] == list && l.pair != null && Distinct(s)
      requires Ring(ring) && ring[0] == list && list.pair == null && Segmented(ring, buckets)
      requires multiset(ring) == multiset(s[..i]) && |ring| == i && Chained(s, i)
      modifies this`ring, this`buckets, s
      ensures Ring(ring) && ring[0] == list && Segmented(ring, buckets) && |buckets| == old(|buckets|)
      ensures multiset(ring) == multiset(s[..i + 1]) && |ring| == i + 1 && Chained(s, i + 1)
    {
      hide Segmented, BucketOk;
      SegmentedPaired(ring, buckets);
      RestOutside(s, ring, i);
      ghost var before := ring;
      var index := l.pair.hash % |buckets|;
      ghost var links := (set x | x in ring) + {l};
      assert forall j :: i < j < |s| ==> s[j] !in links;
      var k := InsertToBucket(index, l, links);
      assert s[..i + 1] == s[..i] + [l];
      InsertMultiset(before, k, l);
    }

    /** hashtable_do_rehash: empty the list and put every pair back, one link at a time. */
    method Rehash()
      requires Ring(ring) && ring[0] == list && list.pair == null && Segmented(ring, buckets)
      requires |buckets| == Pow2(order)
      modifies this`order, this`buckets, this`ring, ring
      ensures Ring(ring) && ring[0] == list && Segmented(ring, buckets)
      ensures order == old(order) + 1 && |buckets| == Pow2(order)
      ensures multiset(ring) == multiset(old(ring)) && |ring| == |old(ring)|
    {
      hide BucketOk, Segmented;
      ghost var s := ring;
      SegmentedPaired(s, buckets);
      order := order + 1;
      var newSize := 2 * |buckets|;
      buckets := seq(newSize, _ => Bucket(list, list));
      var l := list.next;
      list.next := list;
      list.prev := list;
      ring := [list];
      SegmentedEmpty(list, buckets);
      assert s[..1] == [list];
      ghost var i := 1;
      while l != list
        invariant 1 <= i <= |s| && l == if i == |s| then list else s[i]
        invariant Ring(ring) && ring[0] == list
        invariant Segmented(ring, buckets) && |buckets| == newSize
        invariant multiset(ring) == multiset(s[..i]) && |ring| == i
        invariant Chained(s, i) && order == old(order) + 1
        decreases |s| - i
      {
        var next := l.next;
        Relink(l, s, i);
        l, i := next, i + 1;
      }
      assert s[..|s|] == s;
    }

    /** Grow the bucket array without touching the contents. */
    method Grow()
      requires Valid()
      modifies Repr
      ensures Valid() && Repr == old(Repr) && Entries() == old(Entries())
    {
      hide BucketOk, Segmented;
      ghost var s := ring;
      Rehash();
      SegmentedPaired(ring, buckets);
      ThreadedPermuted(s, ring, oring);
      HashedPermuted(hashOf, s, ring);
      Permuted(ring, s);
      assert AllPaired(ring);
    }

    /** The position among the entries of a pair found in the segment list. */
    ghost method IndexOf(l: Link<V>) returns (j: nat)
      requires Threaded(ring, oring) && oring[0].pair == null && l in ring && l.pair != null
      ensures 1 <= j < |oring| && oring[j] == l.twin && oring[j].pair == l.pair
    {
      assert l.twin in oring;
      j :| 0 <= j < |oring| && oring[j] == l.twin;
      assert j != 0;
    }

    lemma NotListed(key: bytes, hash: nat)
      requires Threaded(ring, oring) && Hashed(hashOf, ring) && hash == hashOf(key) && NoMatch(ring, key, hash)
      ensures forall i :: 1 <= i < |oring| ==> oring[i].pair.key != key
    {
      forall i | 1 <= i < |oring| ensures oring[i].pair.key != key {
        assert oring[i] in oring;
      }
    }

    /** hashtable_set: overwrite in place or append; returns the value released, if any. */
    method Set(key: bytes, value: V) returns (replaced: Option<V>)
      requires Valid()
      modifies Repr
      ensures Valid() && fresh(Repr - old(Repr))
      ensures Entries() == Put(old(Entries()), key, value)
      ensures replaced == Lookup(old(Entries()), key)
    {
      hide Segmented, Ring, Threaded, Hashed, NoMatch, KeysApart, Put, Lookup;
      if size >= |buckets| { Grow(); }
      var hash := hashOf(key);
      assert |buckets| > 0 by { SegmentedPaired(ring, buckets); }
      var b := SlotOf(hash, |buckets|);
      var l := FindPair(b, key, hash);
      if l != null {
        ghost var j := IndexOf(l);
        EntriesApart(oring);
        LookupAt(Entries(), j - 1);
        replaced := Some(l.pair.value);
        Overwrite(l, value);
      } else {
        NotListed(key, hash);
        LookupNone(Entries(), key);
        replaced := None;
        Append(key, hash, b, value);
      }
    }

    method Overwrite(l: Link<V>, value: V)
      requires Valid() && l in ring && l.pair != null
      modifies l.pair`value
      ensures Valid()
      ensures Entries() == Put(old(Entries()), l.pair.key, value)
    {
      hide Segmented, Threaded, Hashed;
      ghost var j := IndexOf(l);
      ghost var es := Entries();
      EntriesApart(oring);
      PutAt(es, j - 1, value);
      l.pair.value := value;
      assert Entries() == es[j - 1 := Entry(l.pair.key, value)] by {
        forall i | 1 <= i < |oring| && i != j ensures oring[i].pair != l.pair {
          if i < j { assert oring[i].pair.key != oring[j].pair.key; }
          else { assert oring[j].pair.key != oring[i].pair.key; }
        }
      }
    }

    /** Hang a new pair's links into both lists. */
    method InsertBoth(b: nat, first: Link<V>, second: Link<V>) returns (ghost k: nat)
      requires Ring(ring) && ring[0] == list && list.pair == null && Segmented(ring, buckets)
      requires Ring(oring) && oring[0] == ordered && (forall l :: l in ring ==> l !in oring)
      requires b < |buckets| && first.pair != null && Slot(first, |buckets|) == b
      requires first !in ring && first !in oring && second !in ring && second !in oring && first != second
      modifies this`ring, this`oring, this`buckets, ring, oring, first, second
      ensures 1 <= k <= |old(ring)| && ring == InsertAt(old(ring), k, first) && oring == old(oring) + [second]
      ensures Ring(ring) && Ring(oring) && Segmented(ring, buckets) && |buckets| == old(|buckets|)
    {
      hide Segmented, BucketOk;
      ghost var o, links := oring, (set l | l in ring) + {first};
      assert forall l :: l in o ==> l !in links;
      k := InsertToBucket(b, first, links);
      assert Ring(o);
      ghost var r := ring;
      assert forall l :: l in r ==> l == first || l in old(ring);
      assert ordered.prev == o[|o| - 1];
      assert o[0] in o && o[|o| - 1] in o;
      assert forall l :: l in r ==> l != second && l !in o;
      ListInsert(ordered, second, o, |o|);
      assert Ring(r);
      oring := InsertAt(o, |o|, second);
      assert oring == o + [second];
    }

    /** A pair and its two links. */
    static method NewPair(key: bytes, hash: nat, value: V) returns (pair: Pair<V>, first: Link<V>, second: Link<V>)
      ensures fresh(pair) && fresh(first) && fresh(second) && first != second
      ensures pair.key == key && pair.hash == hash && pair.value == value
      ensures first.pair == second.pair == pair && first.twin == second
    {
      pair := new Pair(key, hash, value);
      second := new Link(pair, null);
      first := new Link(pair, second);
    }

    method Append(key: bytes, hash: nat, b: nat, value: V)
      requires Valid() && hash == hashOf(key) && 0 < |buckets| && b == SlotOf(hash, |buckets|)
      requires forall i :: 1 <= i < |oring| ==> oring[i].pair.key != key
      modifies Repr
      ensures Valid() && fresh(Repr - old(Repr))
      ensures Entries() == Put(old(Entries()), key, value)
    {
      hide Segmented, Ring, EntriesOf, Owns, Laid;
      ghost var es, r, o, bs, repr := Entries(), ring, oring, buckets, Repr;
      PutNew(es, key, value);
      LaidApart(hashOf, r, o, bs);
      var pair, first, second := NewPair(key, hash, value);
      OwnsAll(repr, r, o);
      size := size + 1;
      Repr := Repr + {pair, first, second};
      var k := InsertBoth(b, first, second);
      LaidInsert(hashOf, r, o, bs, k, first, second, buckets);
      OwnsInsert(repr, r, o, k, first, second, Repr);
      EntriesSnoc(o, second);
      assert EntriesOf(o) == es;
    }

    /** hashtable_get. */
    method Get(key: bytes) returns (r: Option<V>)
      requires Valid()
      ensures r == Lookup(Entries(), key)
    {
      hide Segmented, Ring, Threaded, Hashed, NoMatch, KeysApart;
      assert |buckets| > 0 by { SegmentedPaired(ring, buckets); }
      var hash := hashOf(key);
      var l := FindPair(SlotOf(hash, |buckets|), key, hash);
      if l == null {
        NotListed(key, hash);
        LookupNone(Entries(), key);
        r := None;
      } else {
        ghost var j := IndexOf(l);
        EntriesApart(oring);
        LookupAt(Entries(), j - 1);
        r := Some(l.pair.value);
      }
    }

    /** hashtable_del; returns the value released, or None when the key was not there. */
    method Del(key: bytes) returns (removed: Option<V>)
      requires Valid()
      modifies Repr
      ensures Valid() && Repr == old(Repr)
      ensures Entries() == Remove(old(Entries()), key)
      ensures removed == Lookup(old(Entries()), key)
    {
      hide Segmented, Ring, Threaded, Hashed, NoMatch, KeysApart;
      assert |buckets| > 0 by { SegmentedPaired(ring, buckets); }
      var hash := hashOf(key);
      var index := SlotOf(hash, |buckets|);
      var l := FindPair(index, key, hash);
      if l == null {
        NotListed(key, hash);
        LookupNone(Entries(), key);
        RemoveNone(Entries(), key);
        removed := None;
      } else {
        ghost var j := IndexOf(l);
        EntriesApart(oring);
        LookupAt(Entries(), j - 1);
        RemoveAt(Entries(), j - 1);
        removed := Some(l.pair.value);
        Unlink(l, index, j);
      }
    }

    /** Fix the bucket ends and take the pair out of both lists. */
    method Unlink(l: Link<V>, index: nat, ghost j: nat)
      requires Valid() && l in ring && l.pair != null && 0 < |buckets| && index == SlotOf(l.pair.hash, |buckets|)
      requires 1 <= j < |oring| && oring[j] == l.twin && oring[j].pair == l.pair
      modifies Repr
      ensures Valid() && Repr == old(Repr)
      ensures Entries() == old(Entries())[..j - 1] + old(Entries())[j..]
    {
      hide Segmented, EntriesOf, Owns, Laid, Threaded, Ring, Shrunk;
      ghost var es, r, o, bs := Entries(), ring, oring, buckets;
      ghost var k :| 0 <= k < |r| && r[k] == l;
      assert k >= 1;
      RingDistinct(r);
      RingDistinct(o);
      LaidApart(hashOf, r, o, bs);
      OwnsAll(Repr, r, o);
      RingAround(r, k);
      RingAround(o, j);
      FixBucket(l, index, r, k);
      size := size - 1;
      ring, oring := DropAt(r, k), DropAt(o, j);
      UnlinkBoth(l, l.twin, r, k, o, j);
      LaidDrop(hashOf, r, o, bs, k, j, index);
      OwnsDrop(Repr, r, o, k, j);
      EntriesDrop(o, j);
      assert EntriesOf(o) == es;
    }

    /** The ends of a bucket that loses a pair. */
    method FixBucket(l: Link<V>, index: nat, ghost r: seq<Link<V>>, ghost k: nat)
      requires index < |buckets| && 1 <= k < |r| && r[k] == l && r[0] == list
      requires l.prev == r[k - 1] && l.next == if k + 1 < |r| then r[k + 1] else r[0]
      modifies `buckets
      ensures buckets == old(buckets)[index := Shrunk(old(buckets)[index], r, k)]
    {
      if l == buckets[index].first && l == buckets[index].last {
        buckets := buckets[index := Bucket(list, list)];
      } else if l == buckets[index].first {
        buckets := buckets[index := buckets[index].(first := l.next)];
      } else if l == buckets[index].last {
        buckets := buckets[index := buckets[index].(last := l.prev)];
      }
    }

    /** Two list_remove calls on disjoint lists. */
    method UnlinkBoth(l: Link<V>, t: Link<V>, ghost r: seq<Link<V>>, ghost k: nat, ghost o: seq<Link<V>>, ghost j: nat)
      requires Ring(r) && Ring(o) && (forall x :: x in r ==> x !in o)
      requires 1 <= k < |r| && r[k] == l && 1 <= j < |o| && o[j] == t
      modifies r, o
      ensures Ring(DropAt(r, k)) && Ring(DropAt(o, j))
    {
      hide Ring;
      RingAround(r, k);
      RingAround(o, j);
      assert l.prev in r && l.next in r && t.prev in o && t.next in o;
      ListRemove(l, r, k);
      assert Ring(o);
      ghost var r' := DropAt(r, k);
      assert forall x :: x in r' ==> x in r;
      ListRemove(t, o, j);
      assert Ring(r');
    }

    /** hashtable_clear: release every value in list order, then reset. */
    method Clear() returns (released: seq<V>)
      requires Valid()
      modifies Repr
      ensures Valid() && Repr == old(Repr) && Entries() == []
      ensures |released| == |old(Entries())|
      ensures multiset(released) == multiset(Values(old(Entries())))
    {
      hide Segmented, Threaded, Hashed, KeysApart, Owns;
      released := [];
      ghost var es := Entries();
      LaidApart(hashOf, ring, oring, buckets);
      assert list != ordered by { assert ring[0] in ring && oring[0] in oring; }
      var l := list.next;
      ghost var i := 1;
      while l != list
        invariant 1 <= i <= |ring| && l == if i == |ring| then list else ring[i]
        invariant released == ValuesOf(PairsOf(ring)[..i - 1])
        decreases |ring| - i
      {
        assert i + 1 < |ring| ==> ring[i].next == ring[i + 1];
        released := released + [l.pair.value];
        l, i := l.next, i + 1;
      }
      assert PairsOf(ring)[..|ring| - 1] == PairsOf(ring);
      SamePairs(ring, oring);
      SameValues(PairsOf(ring), released, PairsOf(oring), ValuesOf(PairsOf(oring)));
      assert ValuesOf(PairsOf(oring)) == Values(es);
      buckets := seq(|buckets|, _ => Bucket(list, list));
      SegmentedPaired(ring, old(buckets));
      SegmentedEmpty(list, buckets);
      OwnsAll(Repr, ring, oring);
      size := 0;
      ring, oring := [list], [ordered];
      list.next, list.prev := list, list;
      ordered.next, ordered.prev := ordered, ordered;
      LaidEmpty(hashOf, list, ordered, buckets);
      OwnsEmpty(Repr, list, ordered);
    }

    /** hashtable_iter_next; hashtable_iter starts from the list head. */
    method IterNext(iter: Link<V>, ghost i: nat) returns (next: Link?<V>)
      requires Valid() && i < |oring| && iter == oring[i]
      ensures next == if i + 1 < |oring| then oring[i + 1] else null
    {
      hide Segmented, Threaded, Hashed, KeysApart, Owns;
      assert i + 1 < |oring| ==> oring[i].next == oring[i + 1];
      if iter.next == ordered { next := null; } else { next := iter.next; }
    }

    /** hashtable_iter_at: the insertion-order position of a key. */
    method IterAt(key: bytes) returns (iter: Link?<V>)
      requires Valid()
      ensures iter != null ==> exists i :: 1 <= i < |oring| && iter == oring[i] && oring[i].pair.key == key
      ensures iter == null ==> forall i :: 1 <= i < |oring| ==> oring[i].pair.key != key
    {
      hide Segmented, Ring, Threaded, Hashed, NoMatch, KeysApart;
      assert |buckets| > 0 by { SegmentedPaired(ring, buckets); }
      var hash := hashOf(key);
      var l := FindPair(SlotOf(hash, |buckets|), key, hash);
      if l == null {
        NotListed(key, hash);
        iter := null;
      } else {
        ghost var j := IndexOf(l);
        iter := l.twin;
      }
    }

    /** hashtable_iter_set: overwrite through an iterator. */
    method IterSet(iter: Link<V>, value: V, ghost i: nat) returns (replaced: V)
      requires Valid() && 1 <= i < |oring| && iter == oring[i]
      modifies Repr
      ensures Valid() && Repr == old(Repr)
      ensures Entries() == old(Entries())[i - 1 := Entry(iter.pair.key, value)]
      ensures replaced == old(Entries())[i - 1].value
    {
      hide Segmented, Threaded, Hashed;
      assert iter in oring;
      replaced := iter.pair.value;
      forall j | 1 <= j < |oring| && j != i ensures oring[j].pair != iter.pair {
        if j < i { assert oring[j].pair.key != oring[i].pair.key; }
        else { assert oring[i].pair.key != oring[j].pair.key; }
      }
      iter.pair.value := value;
      assert Entries() == old(Entries())[i - 1 := Entry(iter.pair.key, value)];
    }

    /** A full iteration visits the entries once each, in insertion order. */
    method Iterate() returns (es: seq<Entry<V>>)
      requires Valid()
      ensures es == Entries()
    {
      hide Segmented, Ring, Threaded, Hashed, KeysApart, Owns;
      es := [];
      ghost var i := 0;
      var iter := IterNext(ordered, 0);
      while iter != null
        invariant 0 <= i < |oring| && es == Entries()[..i]
        invariant iter == if i + 1 < |oring| then oring[i + 1] else null
        decreases |oring| - i
      {
        es := es + [Entry(iter.pair.key, iter.pair.value)];
        i := i + 1;
        iter := IterNext(iter, i);
      }
    }
  }

  // ----- whole runs -----

  datatype Op<V> = DoSet(key: bytes, value: V) | DoGet(key: bytes) | DoDel(key: bytes) | DoClear | DoIterate

  datatype Answer<V> = Released(value: Option<V>) | Got(value: Option<V>) | Cleared | Listing(entries: seq<Entry<V>>)

  function StepEntries<V>(es: seq<Entry<V>>, op: Op<V>): seq<Entry<V>> {
    match op
    case DoSet(k, v) => Put(es, k, v)
    case DoGet(_) => es
    case DoDel(k) => Remove(es, k)
    case DoClear => []
    case DoIterate => es
  }

  function StepAnswer<V>(es: seq<Entry<V>>, op: Op<V>): Answer<V> {
    match op
    case DoSet(k, _) => Released(Lookup(es, k))
    case DoGet(k) => Got(Lookup(es, k))
    case DoDel(k) => Released(Lookup(es, k))
    case DoClear => Cleared
    case DoIterate => Listing(es)
  }

  function RunEntries<V>(ops: seq<Op<V>>): seq<Entry<V>> {
    if ops == [] then [] else StepEntries(RunEntries(ops[..|ops| - 1]), ops[|ops| - 1])
  }

  function RunAnswers<V>(ops: seq<Op<V>>): seq<Answer<V>> {
    if ops == [] then []
    else RunAnswers(ops[..|ops| - 1]) + [StepAnswer(RunEntries(ops[..|ops| - 1]), ops[|ops| - 1])]
  }

  /** Any run of the linked structure answers as the insertion-ordered map does, for any hash function. */
  method Run<V>(hashOf: bytes -> nat, ops: seq<Op<V>>) returns (answers: seq<Answer<V>>)
    ensures answers == RunAnswers(ops)
  {
    var t := new Table<V>(hashOf);
    answers := [];
    for n := 0 to |ops|
      invariant t.Valid() && fresh(t.Repr)
      invariant t.Entries() == RunEntries(ops[..n]) && answers == RunAnswers(ops[..n])
    {
      hide Table.Valid, Put, Remove, Lookup;
      assert ops[..n + 1][..n] == ops[..n];
      var a := Perform(t, ops[n]);
      answers := answers + [a];
    }
    assert ops[..|ops|] == ops;
  }

  method Perform<V>(t: Table<V>, op: Op<V>) returns (a: Answer<V>)
    requires t.Valid()
    modifies t.Repr
    ensures t.Valid() && fresh(t.Repr - old(t.Repr))
    ensures t.Entries() == StepEntries(old(t.Entries()), op)
    ensures a == StepAnswer(old(t.Entries()), op)
  {
    hide Table.Valid, Put, Remove, Lookup, EntriesOf;
    match op
    case DoSet(k, v) => var r := t.Set(k, v); a := Released(r);
    case DoGet(k) => var r := t.Get(k); a := Got(r);
    case DoDel(k) => var r := t.Del(k); a := Released(r);
    case DoClear => var _ := t.Clear(); a := Cleared;
    case DoIterate => var es := t.Iterate(); a := Listing(es);
  }

  function Values<V>(es: seq<Entry<V>>): (vs: seq<V>)
    ensures |vs| == |es| && forall i :: 0 <= i < |es| ==> vs[i] == es[i].value
  {
    seq(|es|, i requires 0 <= i < |es| => es[i].value)
  }

  lemma RingDistinct<V>(s: seq<Link<V>>)
    requires Ring(s)
    ensures Distinct(s)
  {
  }

  lemma RingAround<V>(s: seq<Link<V>>, k: nat)
    requires Ring(s) && 1 <= k < |s|
    ensures s[k].prev == s[k - 1] && s[k].next == if k + 1 < |s| then s[k + 1] else s[0]
  {
  }

  lemma DropMembers<T>(s: seq<T>, k: nat)
    requires k < |s| && Distinct(s)
    ensures forall x :: x in DropAt(s, k) <==> x in s && x != s[k]
  {
    var t := DropAt(s, k);
    forall x | x in s && x != s[k] ensures x in t {
      var i :| 0 <= i < |s| && s[i] == x;
      assert t[if i < k then i else i - 1] == x;
    }
    assert forall i :: 0 <= i < |t| ==> t[i] == s[if i < k then i else i + 1];
  }

  lemma LaidDrop<V>(hashOf: bytes -> nat, r: seq<Link<V>>, o: seq<Link<V>>, bs: seq<Bucket<V>>, k: nat, j: nat, b: nat)
    requires AllPaired(r) && AllPaired(o) && Laid(hashOf, r, o, bs) && Distinct(r) && Distinct(o)
    requires 1 <= k < |r| && 1 <= j < |o| && r[k].twin == o[j] && |bs| > 0 && b == Slot(r[k], |bs|)
    ensures AllPaired(DropAt(r, k)) && AllPaired(DropAt(o, j))
    ensures Laid(hashOf, DropAt(r, k), DropAt(o, j), bs[b := Shrunk(bs[b], r, k)])
  {
    hide Segmented;
    SegmentedDrop(r, bs, k, b);
    DropMembers(r, k);
    DropMembers(o, j);
    var r', o' := DropAt(r, k), DropAt(o, j);
    assert forall i :: 0 <= i < |o'| ==> o'[i] == o[if i < j then i else i + 1];
    assert forall i :: 0 <= i < |r'| ==> r'[i] == r[if i < k then i else i + 1];
    forall x | x in o' && x.pair != null ensures exists l :: l in r' && l.twin == x && l.pair == x.pair {
      var l :| l in r && l.twin == x && l.pair == x.pair;
      assert l in r';
    }
    forall l | l in r' && l.pair != null ensures l.twin in o' {
      assert l.twin != o[j];
    }
  }

  lemma OwnsDrop<V>(repr: set<object>, r: seq<Link<V>>, o: seq<Link<V>>, k: nat, j: nat)
    requires Owns(repr, r, o) && k < |r| && j < |o|
    ensures Owns(repr, DropAt(r, k), DropAt(o, j))
  {
  }

  lemma EntriesDrop<V>(o: seq<Link<V>>, j: nat)
    requires AllPaired(o) && 1 <= j < |o|
    ensures AllPaired(DropAt(o, j))
    ensures EntriesOf(DropAt(o, j)) == EntriesOf(o)[..j - 1] + EntriesOf(o)[j..]
  {
    var o' := DropAt(o, j);
    assert forall i :: 0 <= i < |o'| ==> o'[i] == o[if i < j then i else i + 1];
  }

  ghost function PairsOf<V>(s: seq<Link<V>>): (ps: seq<Pair<V>>)
    requires AllPaired(s)
    ensures |ps| == |s| - 1 && forall i :: 0 <= i < |ps| ==> ps[i] == s[i + 1].pair
  {
    seq(|s| - 1, i requires 0 <= i < |s| - 1 => s[i + 1].pair)
  }

  ghost function ValuesOf<V>(ps: seq<Pair<V>>): (vs: seq<V>)
    reads ps
    ensures |vs| == |ps| && forall i :: 0 <= i < |ps| ==> vs[i] == ps[i].value
  {
    seq(|ps|, i requires 0 <= i < |ps| reads ps => ps[i].value)
  }

  lemma {:induction false} DistinctCount<T>(s: seq<T>, x: T)
    requires Distinct(s)
    ensures multiset(s)[x] == if x in s then 1 else 0
  {
    if s != [] {
      var init := s[..|s| - 1];
      assert s == init + [s[|s| - 1]];
      DistinctCount(init, x);
    }
  }

  lemma DistinctSame<T>(s: seq<T>, t: seq<T>)
    requires Distinct(s) && Distinct(t) && forall x :: x in s <==> x in t
    ensures multiset(s) == multiset(t)
  {
    forall x ensures multiset(s)[x] == multiset(t)[x] {
      DistinctCount(s, x);
      DistinctCount(t, x);
    }
  }

  /** Both lists thread the same pairs. */
  lemma SamePairs<V>(r: seq<Link<V>>, o: seq<Link<V>>)
    requires Threaded(r, o) && KeysApart(o) && Distinct(r) && r[0].pair == null && o[0].pair == null
    ensures multiset(PairsOf(r)) == multiset(PairsOf(o))
  {
    var ps, qs := PairsOf(r), PairsOf(o);
    forall i, j | 0 <= i < j < |ps| ensures ps[i] != ps[j] {
      assert r[i + 1] in r && r[j + 1] in r && r[i + 1] != r[j + 1];
    }
    forall i, j | 0 <= i < j < |qs| ensures qs[i] != qs[j] {
      assert o[i + 1].pair.key != o[j + 1].pair.key;
    }
    forall p | p in ps ensures p in qs {
      var i :| 0 <= i < |ps| && ps[i] == p;
      assert r[i + 1] in r && r[i + 1].twin in o;
      var j :| 0 <= j < |o| && o[j] == r[i + 1].twin;
      assert qs[j - 1] == p;
    }
    forall q | q in qs ensures q in ps {
      var j :| 0 <= j < |qs| && qs[j] == q;
      assert o[j + 1] in o;
      var l :| l in r && l.twin == o[j + 1] && l.pair == o[j + 1].pair;
      var i :| 0 <= i < |r| && r[i] == l;
      assert ps[i - 1] == q;
    }
    DistinctSame(ps, qs);
  }

  /** Permuted keys carry permuted values. */
  lemma {:induction false} SameValues<P, V>(ps: seq<P>, vs: seq<V>, qs: seq<P>, ws: seq<V>)
    requires |ps| == |vs| && |qs| == |ws| && multiset(ps) == multiset(qs)
    requires forall i, j :: 0 <= i < |ps| && 0 <= j < |qs| && ps[i] == qs[j] ==> vs[i] == ws[j]
    ensures multiset(vs) == multiset(ws)
  {
    if ps == [] {
      assert |multiset(qs)| == 0;
    } else {
      assert ps[0] in multiset(qs);
      var j :| 0 <= j < |qs| && qs[j] == ps[0];
      DropMultiset(qs, j);
      DropMultiset(ws, j);
      DropMultiset(ps, 0);
      DropMultiset(vs, 0);
      assert multiset(DropAt(ps, 0)) == multiset(ps) - multiset{ps[0]};
      assert multiset(DropAt(qs, j)) == multiset(qs) - multiset{ps[0]};
      SameValues(DropAt(ps, 0), DropAt(vs, 0), DropAt(qs, j), DropAt(ws, j));
    }
  }

  lemma DropMultiset<T>(s: seq<T>, j: nat)
    requires j < |s|
    ensures multiset(s) == multiset(DropAt(s, j)) + multiset{s[j]}
    ensures forall i :: 0 <= i < |s| - 1 ==> DropAt(s, j)[i] == s[if i < j then i else i + 1]
  {
    assert s == s[..j] + [s[j]] + s[j + 1..];
  }

  lemma LaidEmpty<V>(hashOf: bytes -> nat, list: Link<V>, ordered: Link<V>, bs: seq<Bucket<V>>)
    requires list.pair == null && ordered.pair == null && list != ordered && Segmented([list], bs)
    ensures AllPaired([ordered]) && Laid(hashOf, [list], [ordered], bs)
  {
  }

  lemma OwnsEmpty<V>(repr: set<object>, list: Link<V>, ordered: Link<V>)
    requires list in repr && ordered in repr && ordered.pair == null
    ensures Owns(repr, [list], [ordered])
  {
  }

  lemma LaidApart<V>(hashOf: bytes -> nat, r: seq<Link<V>>, o: seq<Link<V>>, bs: seq<Bucket<V>>)
    requires AllPaired(o) && Laid(hashOf, r, o, bs)
    ensures Segmented(r, bs) && forall l :: l in r ==> l !in o
  {
  }

  lemma OwnsAll<V>(repr: set<object>, r: seq<Link<V>>, o: seq<Link<V>>)
    requires Owns(repr, r, o)
    ensures forall l :: l in r ==> l in repr
    ensures forall l :: l in o ==> l in repr && (l.pair != null ==> l.pair in repr)
  {
  }

  lemma OwnsInsert<V>(repr: set<object>, r: seq<Link<V>>, o: seq<Link<V>>, k: nat,
                      first: Link<V>, second: Link<V>, repr': set<object>)
    requires Owns(repr, r, o) && k <= |r| && second.pair != null
    requires repr' == repr + {second.pair, first, second}
    ensures Owns(repr', InsertAt(r, k, first), o + [second])
  {
  }

  lemma LaidInsert<V>(hashOf: bytes -> nat, r: seq<Link<V>>, o: seq<Link<V>>, bs: seq<Bucket<V>>, k: nat,
                      first: Link<V>, second: Link<V>, bs': seq<Bucket<V>>)
    requires AllPaired(o) && o[0].pair == null && Laid(hashOf, r, o, bs) && 1 <= k <= |r|
    requires first !in r && first !in o && second !in r && second !in o && first != second
    requires first.pair != null && second.pair == first.pair && first.twin == second
    requires first.pair.hash == hashOf(first.pair.key)
    requires forall i :: 1 <= i < |o| ==> o[i].pair.key != first.pair.key
    requires Segmented(InsertAt(r, k, first), bs')
    ensures AllPaired(InsertAt(r, k, first)) && AllPaired(o + [second])
    ensures Laid(hashOf, InsertAt(r, k, first), o + [second], bs')
  {
    hide Segmented, Threaded, Hashed;
    SegmentedPaired(InsertAt(r, k, first), bs');
    forall l | l in r ensures l.pair != first.pair { ThreadedKey(r, o, l, first.pair.key); }
    ThreadedInsert(r, k, o, first, second);
    HashedInsert(hashOf, r, k, first);
  }

  lemma ThreadedKey<V>(r: seq<Link<V>>, o: seq<Link<V>>, l: Link<V>, key: bytes)
    requires Threaded(r, o) && l in r && o[0].pair == null
    requires forall i :: 1 <= i < |o| ==> o[i].pair.key != key
    ensures l.pair != null ==> l.pair.key != key
  {
    if l.pair != null {
      assert l.twin in o;
      var i :| 0 <= i < |o| && o[i] == l.twin;
    }
  }

  lemma EntriesSnoc<V>(o: seq<Link<V>>, second: Link<V>)
    requires AllPaired(o) && second.pair != null
    ensures AllPaired(o + [second])
    ensures EntriesOf(o + [second]) == EntriesOf(o) + [Entry(second.pair.key, second.pair.value)]
  {
  }

  lemma EntriesApart<V>(oring: seq<Link<V>>)
    requires AllPaired(oring) && KeysApart(oring)
    ensures DistinctKeys(EntriesOf(oring))
  {
  }

  lemma Permuted<T>(s: seq<T>, t: seq<T>)
    requires multiset(s) == multiset(t)
    ensures forall x :: x in s <==> x in t
  {
    forall x ensures x in s <==> x in t {
      assert x in s <==> x in multiset(s);
      assert x in t <==> x in multiset(t);
    }
  }

  lemma ThreadedPermuted<V>(r: seq<Link<V>>, r': seq<Link<V>>, o: seq<Link<V>>)
    requires Threaded(r, o) && multiset(r) == multiset(r') && AllPaired(r')
    ensures Threaded(r', o)
  {
    Permuted(r, r');
  }

  lemma HashedPermuted<V>(hashOf: bytes -> nat, r: seq<Link<V>>, r': seq<Link<V>>)
    requires Hashed(hashOf, r) && multiset(r) == multiset(r')
    ensures Hashed(hashOf, r')
  {
    Permuted(r, r');
  }

  lemma ThreadedInsert<V>(r: seq<Link<V>>, k: nat, o: seq<Link<V>>, first: Link<V>, second: Link<V>)
    requires Threaded(r, o) && 1 <= k <= |r|
    requires first !in r && first !in o && second !in r && second !in o && first != second
    requires first.pair != null && second.pair == first.pair && first.twin == second
    requires forall l :: l in r ==> l.pair != first.pair
    ensures Threaded(InsertAt(r, k, first), o + [second])
  {
    var t := InsertAt(r, k, first);
    assert forall l :: l in t <==> l == first || l in r by {
      forall l | l in r ensures l in t {
        var i :| 0 <= i < |r| && r[i] == l;
        assert t[if i < k then i else i + 1] == l;
      }
      assert t[k] == first;
    }
    assert forall i :: 0 <= i < |t| ==> t[i] == if i < k then r[i] else if i == k then first else r[i - 1];
  }

  lemma HashedInsert<V>(hashOf: bytes -> nat, r: seq<Link<V>>, k: nat, first: Link<V>)
    requires Hashed(hashOf, r) && k <= |r| && first.pair != null && first.pair.hash == hashOf(first.pair.key)
    ensures Hashed(hashOf, InsertAt(r, k, first))
  {
  }

  /** From position i on, the links still lead to the end of the old list. */
  ghost predicate Chained<V>(s: seq<Link<V>>, i: nat)
    reads s
  {
    && (forall j {:trigger s[j].next} :: i <= j < |s| - 1 ==> s[j].next == s[j + 1])
    && (i < |s| ==> s[|s| - 1].next == s[0])
  }

  lemma SegmentedPaired<V>(s: seq<Link<V>>, buckets: seq<Bucket<V>>)
    requires Segmented(s, buckets)
    ensures AllPaired(s) && |buckets| > 0
  {
  }

  lemma SegmentedEmpty<V>(head: Link<V>, buckets: seq<Bucket<V>>)
    requires |buckets| > 0 && forall b :: 0 <= b < |buckets| ==> buckets[b] == Bucket(head, head)
    ensures Segmented([head], buckets)
  {
  }

  lemma RestOutside<T>(s: seq<T>, t: seq<T>, i: nat)
    requires i <= |s| && Distinct(s) && multiset(t) == multiset(s[..i])
    ensures forall j :: i <= j < |s| ==> s[j] !in t
    ensures forall x :: x in t ==> x in s
  {
    forall x | x in t ensures x in s {
      assert x in multiset(t);
      assert x in s[..i];
    }
    forall j | i <= j < |s| ensures s[j] !in t {
      assert s[j] !in s[..i];
      assert s[j] !in multiset(t);
    }
  }

  ghost predicate NoMatch<V>(s: seq<Link<V>>, key: bytes, hash: nat) {
    forall m :: m in s && m.pair != null ==> m.pair.hash != hash || m.pair.key != key
  }

  lemma BucketCases<V>(s: seq<Link<V>>, size: nat, b: nat, bk: Bucket<V>) returns (lo: int, hi: int)
    requires AllPaired(s) && Distinct(s) && size > 0 && BucketOk(s, size, b, bk)
    ensures bk.first == s[0] ==> bk == Bucket(s[0], s[0]) && Absent(s, size, b)
    ensures bk.first != s[0] ==> 1 <= lo <= hi < |s| && SegmentIs(s, size, b, lo, hi) && bk == Bucket(s[lo], s[hi])
  {
    if bk.first == s[0] {
      lo, hi := 0, 0;
    } else {
      lo, hi :| SegmentIs(s, size, b, lo, hi) && bk == Bucket(s[lo], s[hi]);
    }
  }

  lemma AbsentNoMatch<V>(s: seq<Link<V>>, size: nat, b: nat, key: bytes, hash: nat)
    requires AllPaired(s) && s[0].pair == null && size > 0 && b == SlotOf(hash, size) && Absent(s, size, b)
    ensures NoMatch(s, key, hash)
  {
    forall m | m in s && m.pair != null ensures m.pair.hash != hash || m.pair.key != key {
      var q :| 0 <= q < |s| && s[q] == m;
      assert Slot(s[q], size) != b;
    }
  }

  lemma SegmentNoMatch<V>(s: seq<Link<V>>, size: nat, b: nat, lo: int, hi: int, key: bytes, hash: nat)
    requires AllPaired(s) && s[0].pair == null && size > 0 && b == SlotOf(hash, size) && SegmentIs(s, size, b, lo, hi)
    requires forall q :: lo <= q <= hi ==> s[q].pair.hash != hash || s[q].pair.key != key
    ensures NoMatch(s, key, hash)
  {
    forall m | m in s && m.pair != null ensures m.pair.hash != hash || m.pair.key != key {
      var q :| 0 <= q < |s| && s[q] == m;
      assert Slot(s[q], size) == b <==> lo <= q <= hi;
    }
  }

  lemma InsertMultiset<T>(s: seq<T>, k: nat, x: T)
    requires k <= |s|
    ensures multiset(InsertAt(s, k, x)) == multiset(s) + multiset{x}
  {
    assert s == s[..k] + s[k..];
  }
}
