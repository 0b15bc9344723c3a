/**
 hashlittle of src/jansson/src/lookup3.h: the same hash computed by 32-bit, 16-bit or byte reads.
 The mixing rounds are parameters; the memory behind the key may hold anything.
 */
module Lookup3 {
  import opened Bytes

  datatype State = State(a: u32, b: u32, c: u32)

  /** Addition of 32-bit unsigned integers. */
  function Plus(x: u32, n: nat): u32 { (x + n) % M32 }

  lemma PlusPlus(x: u32, m: nat, n: nat)
    ensures Plus(Plus(x, m), n) == Plus(x, m + n)
  {
    var s := x + m;
    assert s == M32 * (s / M32) + s % M32;
    ShiftRemainder(s % M32 + n, s / M32);
  }

  lemma ShiftRemainder(y: nat, k: nat)
    ensures (y + M32 * k) % M32 == y % M32
  {
  }

  // ----- the hash, block by block -----

  function At(k: bytes, i: nat): byte { if i < |k| then k[i] else 0 }

  /** The little-endian word at i, missing bytes read as zero. */
  function Word(k: bytes, i: nat): nat {
    At(k, i) + At(k, i + 1) * 0x100 + At(k, i + 2) * 0x10000 + At(k, i + 3) * 0x1000000
  }

  /** Adds a block of at most 12 bytes. */
  function AddBlock(s: State, k: bytes): State {
    State(Plus(s.a, Word(k, 0)), Plus(s.b, Word(k, 4)), Plus(s.c, Word(k, 8)))
  }

  function Absorb(mix: State -> State, final: State -> u32, s: State, key: bytes): u32
    decreases |key|
  {
    if |key| > 12 then Absorb(mix, final, mix(AddBlock(s, key[..12])), key[12..])
    else if key == [] then s.c
    else final(AddBlock(s, key))
  }

  function Initial(length: nat, initval: u32): State {
    var x := (0xdeadbeef + length % M32 + initval) % M32;
    State(x, x, x)
  }

  function Hash(mix: State -> State, final: State -> u32, key: bytes, initval: u32): u32 {
    Absorb(mix, final, Initial(|key|, initval), key)
  }

  /** The hash of nothing. */
  lemma HashNothing(mix: State -> State, final: State -> u32, initval: u32)
    ensures Hash(mix, final, [], initval) == (0xdeadbeef + initval) % 0x1_0000_0000
  {
  }

  /** A key of twelve bytes is three numbers, the least significant byte first, added to the initial state. */
  lemma HashShort(mix: State -> State, final: State -> u32, key: bytes, initval: u32)
    requires |key| == 12
    ensures var x := (0xdeadbeef + 12 + initval) % 0x1_0000_0000;
            Hash(mix, final, key, initval) ==
              final(State((x + FromLittleEndian(key[..4])) % 0x1_0000_0000,
                          (x + FromLittleEndian(key[4..8])) % 0x1_0000_0000,
                          (x + FromLittleEndian(key[8..])) % 0x1_0000_0000))
  {
    FourAre(key, 0);
    FourAre(key, 4);
    FourAre(key, 8);
    assert key[8..12] == key[8..];
  }

  lemma FourAre(k: bytes, i: nat)
    requires i + 4 <= |k|
    ensures FromLittleEndian(k[i..i + 4]) == Word(k, i)
  {
    LittleFour(k[i], k[i + 1], k[i + 2], k[i + 3], []);
    assert [k[i], k[i + 1], k[i + 2], k[i + 3]] + [] == k[i..i + 4];
  }

  // ----- memory -----

  /** Four bytes as one number, the least significant first. */
  function Join(p: int, q: int, r: int, s: int): (w: int)
    ensures p >= 0 && q >= 0 && r >= 0 && s >= 0 ==> w >= 0
  {
    p + q * 0x100 + r * 0x10000 + s * 0x1000000
  }

  /** The bytes of a key somewhere in memory: those from pos on are `rest`; what lies after them is arbitrary. */
  predicate Stands(mem: bytes, pos: nat, rest: bytes) {
    pos + |rest| <= |mem| && forall i :: 0 <= i < |rest| ==> mem[pos + i] == rest[i]
  }

  function Word32(mem: bytes, i: nat): (w: nat)
    requires i + 4 <= |mem|
  {
    Join(mem[i], mem[i + 1], mem[i + 2], mem[i + 3])
  }

  function Word16(mem: bytes, i: nat): (w: nat)
    requires i + 2 <= |mem|
  {
    Join(mem[i], mem[i + 1], 0, 0)
  }

  /** Two 16-bit reads: k[0] + (k[1] << 16). */
  function Word16s(mem: bytes, i: nat): (w: nat)
    requires i + 4 <= |mem|
  {
    Word16(mem, i) + Word16(mem, i + 2) * 0x10000
  }

  lemma LowBits(low: nat, high: nat)
    ensures low < 0x100 ==> (low + high * 0x100) % 0x100 == low
    ensures low < 0x10000 ==> (low + high * 0x10000) % 0x10000 == low
    ensures low < 0x1000000 ==> (low + high * 0x1000000) % 0x1000000 == low
  {
  }

  lemma JoinLow(p: byte, q: byte, r: byte, s: byte)
    ensures var w := Join(p, q, r, s);
            w % 0x100 == p && w % 0x10000 == Join(p, q, 0, 0) && w % 0x1000000 == Join(p, q, r, 0)
  {
    LowBits(p, q + r * 0x100 + s * 0x10000);
    LowBits(Join(p, q, 0, 0), r + s * 0x100);
    LowBits(Join(p, q, r, 0), s);
  }

  /** What a word read at i is worth when only n bytes of the key are there. */
  lemma Partial(mem: bytes, pos: nat, rest: bytes, i: nat)
    requires Stands(mem, pos, rest)
    ensures |rest| >= i + 4 ==> Word(rest, i) == Word32(mem, pos + i) == Word16s(mem, pos + i)
    ensures |rest| == i + 3 && pos + i + 4 <= |mem| ==> Word(rest, i) == Word32(mem, pos + i) % 0x1000000
    ensures |rest| == i + 2 && pos + i + 4 <= |mem| ==> Word(rest, i) == Word32(mem, pos + i) % 0x10000
    ensures |rest| == i + 1 && pos + i + 4 <= |mem| ==> Word(rest, i) == Word32(mem, pos + i) % 0x100
    ensures |rest| <= i ==> Word(rest, i) == 0
    ensures |rest| == i + 2 ==> Word(rest, i) == Word16(mem, pos + i)
    ensures |rest| == i + 3 ==> Word(rest, i) == Word16(mem, pos + i) + Join(0, 0, mem[pos + i + 2], 0)
    ensures |rest| == i + 1 ==> Word(rest, i) == mem[pos + i]
  {
    if pos + i + 4 <= |mem| { JoinLow(mem[pos + i], mem[pos + i + 1], mem[pos + i + 2], mem[pos + i + 3]); }
  }

  lemma PlusNothing(x: u32)
    ensures Plus(x, 0) == x
  {
  }

  /** One full block. */
  lemma FullBlock(mem: bytes, pos: nat, rest: bytes, s: State)
    requires Stands(mem, pos, rest) && |rest| > 12
    ensures Stands(mem, pos + 12, rest[12..])
    ensures AddBlock(s, rest[..12]) ==
            State(Plus(s.a, Word32(mem, pos)), Plus(s.b, Word32(mem, pos + 4)), Plus(s.c, Word32(mem, pos + 8)))
    ensures Word32(mem, pos) == Word16s(mem, pos) && Word32(mem, pos + 4) == Word16s(mem, pos + 4)
            && Word32(mem, pos + 8) == Word16s(mem, pos + 8)
  {
    hide Plus, Word, Word32, Word16s;
    assert Stands(mem, pos, rest[..12]);
    Partial(mem, pos, rest[..12], 0);
    Partial(mem, pos, rest[..12], 4);
    Partial(mem, pos, rest[..12], 8);
  }

  // ----- the last block -----

  /** The last block by masked words; the memory reaches to the end of the last one. */
  method Tail32(s: State, mem: bytes, k: nat, ghost rest: bytes, length: nat) returns (t: State)
    requires Stands(mem, k, rest) && length == |rest| && 1 <= length <= 12
    requires k + (length + 3) / 4 * 4 <= |mem|
    ensures t == AddBlock(s, rest)
  {
    hide Plus, Word, Word32, Word16, Word16s;
    assert k + 4 <= |mem| && (length > 4 ==> k + 8 <= |mem|) && (length > 8 ==> k + 12 <= |mem|);
    Partial(mem, k, rest, 0);
    Partial(mem, k, rest, 4);
    Partial(mem, k, rest, 8);
    PlusNothing(s.b);
    PlusNothing(s.c);
    var a, b, c := s.a, s.b, s.c;
    if length == 12 {
      c := Plus(c, Word32(mem, k + 8));
      b := Plus(b, Word32(mem, k + 4));
      a := Plus(a, Word32(mem, k));
    } else if length == 11 {
      c := Plus(c, Word32(mem, k + 8) % 0x1000000);
      b := Plus(b, Word32(mem, k + 4));
      a := Plus(a, Word32(mem, k));
    } else if length == 10 {
      c := Plus(c, Word32(mem, k + 8) % 0x10000);
      b := Plus(b, Word32(mem, k + 4));
      a := Plus(a, Word32(mem, k));
    } else if length == 9 {
      c := Plus(c, Word32(mem, k + 8) % 0x100);
      b := Plus(b, Word32(mem, k + 4));
      a := Plus(a, Word32(mem, k));
    } else if length == 8 {
      b := Plus(b, Word32(mem, k + 4));
      a := Plus(a, Word32(mem, k));
    } else if length == 7 {
      b := Plus(b, Word32(mem, k + 4) % 0x1000000);
      a := Plus(a, Word32(mem, k));
    } else if length == 6 {
      b := Plus(b, Word32(mem, k + 4) % 0x10000);
      a := Plus(a, Word32(mem, k));
    } else if length == 5 {
      b := Plus(b, Word32(mem, k + 4) % 0x100);
      a := Plus(a, Word32(mem, k));
    } else if length == 4 {
      a := Plus(a, Word32(mem, k));
    } else if length == 3 {
      a := Plus(a, Word32(mem, k) % 0x1000000);
    } else if length == 2 {
      a := Plus(a, Word32(mem, k) % 0x10000);
    } else {
      a := Plus(a, Word32(mem, k) % 0x100);
    }
    t := State(a, b, c);
  }

  /** The last block by 16-bit reads and single bytes; the cases fall through. */
  method Tail16(s: State, mem: bytes, k: nat, ghost rest: bytes, length: nat) returns (t: State)
    requires Stands(mem, k, rest) && length == |rest| && 1 <= length <= 12
    ensures t == AddBlock(s, rest)
  {
    hide Plus, Word, Word32, Word16, Word16s, Join;
    Partial(mem, k, rest, 0);
    Partial(mem, k, rest, 4);
    Partial(mem, k, rest, 8);
    PlusNothing(s.b);
    PlusNothing(s.c);
    var a, b, c := s.a, s.b, s.c;
    if length == 12 {
      c := Plus(c, Word16s(mem, k + 8));
      b := Plus(b, Word16s(mem, k + 4));
      a := Plus(a, Word16s(mem, k));
    } else if length >= 10 {
      if length == 11 {
        c := Plus(c, High(mem, k + 10));
        PlusPlus(s.c, High(mem, k + 10), Word16(mem, k + 8));
      }
      c := Plus(c, Word16(mem, k + 8));
      b := Plus(b, Word16s(mem, k + 4));
      a := Plus(a, Word16s(mem, k));
    } else if length >= 8 {
      if length == 9 { c := Plus(c, mem[k + 8]); }
      b := Plus(b, Word16s(mem, k + 4));
      a := Plus(a, Word16s(mem, k));
    } else if length >= 6 {
      if length == 7 {
        b := Plus(b, High(mem, k + 6));
        PlusPlus(s.b, High(mem, k + 6), Word16(mem, k + 4));
      }
      b := Plus(b, Word16(mem, k + 4));
      a := Plus(a, Word16s(mem, k));
    } else if length >= 4 {
      if length == 5 { b := Plus(b, mem[k + 4]); }
      a := Plus(a, Word16s(mem, k));
    } else if length >= 2 {
      if length == 3 {
        a := Plus(a, High(mem, k + 2));
        PlusPlus(s.a, High(mem, k + 2), Word16(mem, k));
      }
      a := Plus(a, Word16(mem, k));
    } else {
      a := Plus(a, mem[k]);
    }
    t := State(a, b, c);
  }

  /** A byte shifted by 16. */
  function High(mem: bytes, i: nat): nat
    requires i < |mem|
  {
    Join(0, 0, mem[i], 0)
  }

  /** Bytes of one word added one at a time, those that are there, from the last to the first. */
  method AddBytes(x: u32, mem: bytes, k: nat, ghost rest: bytes, i: nat, length: nat) returns (y: u32)
    requires Stands(mem, k, rest) && length == |rest|
    ensures y == Plus(x, Word(rest, i))
  {
    hide Plus, Join;
    ghost var p, q, r, s := At(rest, i), At(rest, i + 1), At(rest, i + 2), At(rest, i + 3);
    FourSteps(x, p, q, r, s);
    WordJoin(rest, i);
    JoinNothing();
    y := x;
    if length >= i + 4 { y := Plus(y, Join(0, 0, 0, mem[k + i + 3])); } else { PlusNothing(y); }
    if length >= i + 3 { y := Plus(y, Join(0, 0, mem[k + i + 2], 0)); } else { PlusNothing(y); }
    if length >= i + 2 { y := Plus(y, Join(0, mem[k + i + 1], 0, 0)); } else { PlusNothing(y); }
    if length >= i + 1 { y := Plus(y, mem[k + i]); } else { PlusNothing(y); }
  }

  lemma FourSteps(x: u32, p: byte, q: byte, r: byte, s: byte)
    ensures Plus(Plus(Plus(Plus(x, Join(0, 0, 0, s)), Join(0, 0, r, 0)), Join(0, q, 0, 0)), p) ==
              Plus(x, Join(p, q, r, s))
  {
    hide Plus, Join;
    JoinSums(p, q, r, s);
    PlusPlus(x, Join(0, 0, 0, s), Join(0, 0, r, 0));
    PlusPlus(x, Join(0, 0, r, s), Join(0, q, 0, 0));
    PlusPlus(x, Join(0, q, r, s), p);
  }

  lemma WordJoin(k: bytes, i: nat)
    ensures Word(k, i) == Join(At(k, i), At(k, i + 1), At(k, i + 2), At(k, i + 3))
  {
  }

  lemma JoinNothing()
    ensures Join(0, 0, 0, 0) == 0
  {
  }

  lemma JoinSums(p: int, q: int, r: int, s: int)
    ensures Join(0, 0, 0, s) + Join(0, 0, r, 0) == Join(0, 0, r, s)
    ensures Join(0, 0, r, s) + Join(0, q, 0, 0) == Join(0, q, r, s)
    ensures Join(0, q, r, s) + p == Join(p, q, r, s)
  {
  }

  method Tail8(s: State, mem: bytes, k: nat, ghost rest: bytes, length: nat) returns (t: State)
    requires Stands(mem, k, rest) && length == |rest|
    ensures t == AddBlock(s, rest)
  {
    hide Plus, Word;
    var c := AddBytes(s.c, mem, k, rest, 8, length);
    var b := AddBytes(s.b, mem, k, rest, 4, length);
    var a := AddBytes(s.a, mem, k, rest, 0, length);
    t := State(a, b, c);
  }

  // ----- the three paths -----

  datatype Path = Words | HalfWords | SingleBytes

  /** The path taken: by the byte order of the machine and the alignment of the key. */
  function Choose(littleEndian: bool, address: nat): Path {
    if littleEndian && address % 4 == 0 then Words
    else if littleEndian && address % 2 == 0 then HalfWords
    else SingleBytes
  }

  /**
   hashlittle, for a key of `length` bytes at the start of mem. Whatever the alignment, the byte
   order of the machine and the bytes behind the key, the hash depends on the key alone.
   */
  method HashLittle(mix: State -> State, final: State -> u32, mem: bytes, length: nat, initval: u32, littleEndian: bool,
                    address: nat)
    returns (h: u32)
    requires length <= |mem| && (Choose(littleEndian, address) == Words ==> (length + 3) / 4 * 4 <= |mem|)
    ensures h == Hash(mix, final, mem[..length], initval)
  {
    hide Plus, Word, Word32, Word16s, AddBlock, Initial;
    var path := Choose(littleEndian, address);
    var s := Initial(length, initval);
    var k, left := 0, length;
    ghost var rest := mem[..length];
    while left > 12
      invariant Stands(mem, k, rest) && |rest| == left && k % 4 == 0 && k + left == length
      invariant Hash(mix, final, mem[..length], initval) == Absorb(mix, final, s, rest)
    {
      FullBlock(mem, k, rest, s);
      var t;
      if path == Words {
        t := State(Plus(s.a, Word32(mem, k)), Plus(s.b, Word32(mem, k + 4)), Plus(s.c, Word32(mem, k + 8)));
      } else if path == HalfWords {
        t := State(Plus(s.a, Word16s(mem, k)), Plus(s.b, Word16s(mem, k + 4)), Plus(s.c, Word16s(mem, k + 8)));
      } else {
        t := Tail8(s, mem, k, rest[..12], 12);
      }
      s := mix(t);
      rest := rest[12..];
      left, k := left - 12, k + 12;
    }
    if left == 0 { return s.c; }
    var t;
    match path {
      case Words => t := Tail32(s, mem, k, rest, left);
      case HalfWords => t := Tail16(s, mem, k, rest, left);
      case SingleBytes => t := Tail8(s, mem, k, rest, left);
    }
    h := final(t);
  }

  /** Two copies of a key, aligned differently and followed by different bytes, hash alike. */
  method SameHash(mix: State -> State, final: State -> u32, mem1: bytes, mem2: bytes, length: nat, initval: u32,
                  address1: nat, address2: nat)
    returns (h1: u32, h2: u32)
    requires length + 3 <= |mem1| && length + 3 <= |mem2| && mem1[..length] == mem2[..length]
    ensures h1 == h2
  {
    h1 := HashLittle(mix, final, mem1, length, initval, true, address1);
    h2 := HashLittle(mix, final, mem2, length, initval, true, address2);
  }
}
