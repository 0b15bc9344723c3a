/**
 WebSocket frames on their own bytes: the layout of section 5.2 of RFC 6455 as src/websocket.c reads
 and writes it, the masking bit by bit, and what comes back over the wire.
 */
module WsWire {
  import opened Bytes
  import opened WsFrame
  import opened WebSocket

  // ----- masking -----

  /** Bit k, counted from the lowest. */
  function Bit(x: nat, k: nat): nat { if k == 0 then x % 2 else Bit(x / 2, k - 1) }

  lemma Halves(x: nat)
    ensures x / 2 / 2 == x / 4 && x / 2 / 4 == x / 8 && x / 2 / 8 == x / 16 && x / 2 / 16 == x / 32
  {
  }

  lemma MoreHalves(x: nat)
    ensures x / 2 / 32 == x / 64 && x / 2 / 64 == x / 128
  {
  }

  lemma {:induction false} BitWeight(x: nat, k: nat)
    requires k < 8
    ensures Bit(x, k) == x / [1, 2, 4, 8, 16, 32, 64, 128][k] % 2
  {
    if k > 0 {
      BitWeight(x / 2, k - 1);
      Halves(x);
      MoreHalves(x);
    }
  }

  lemma XorStep(a: nat, b: nat, n: nat)
    requires n > 0
    ensures XorBits(a, b, n) / 2 == XorBits(a / 2, b / 2, n - 1)
    ensures XorBits(a, b, n) % 2 == 1 <==> a % 2 != b % 2
  {
  }

  lemma {:induction false} XorBitsBit(a: nat, b: nat, n: nat, k: nat)
    requires k < n
    ensures Bit(XorBits(a, b, n), k) == 1 <==> Bit(a, k) != Bit(b, k)
  {
    XorStep(a, b, n);
    if k > 0 {
      hide XorBits;
      XorBitsBit(a / 2, b / 2, n - 1, k - 1);
    }
  }

  /** A bit of the exclusive or is set exactly if the two bits differ. */
  lemma XorBit(a: byte, b: byte, k: nat)
    requires k < 8
    ensures var w := [1, 2, 4, 8, 16, 32, 64, 128][k]; Xor(a, b) / w % 2 == 1 <==> a / w % 2 != b / w % 2
  {
    BitWeight(a, k);
    BitWeight(b, k);
    BitWeight(Xor(a, b), k);
    XorBitsBit(a, b, 8, k);
  }

  lemma {:induction false} SameBits(a: nat, b: nat, n: nat)
    requires a < Power2(n) && b < Power2(n) && forall k :: 0 <= k < n ==> Bit(a, k) == Bit(b, k)
    ensures a == b
  {
    if n > 0 {
      assert Bit(a, 0) == Bit(b, 0);
      forall k | 0 <= k < n - 1 ensures Bit(a / 2, k) == Bit(b / 2, k) {
        assert Bit(a, k + 1) == Bit(b, k + 1);
      }
      SameBits(a / 2, b / 2, n - 1);
    }
  }

  /** c is the exclusive or of a and b, bit by bit. */
  predicate Unmasks(c: byte, a: byte, b: byte) {
    forall k :: 0 <= k < 8 ==>
      var w := [1, 2, 4, 8, 16, 32, 64, 128][k]; c / w % 2 == 1 <==> a / w % 2 != b / w % 2
  }

  lemma UnmasksXor(c: byte, a: byte, b: byte)
    ensures Unmasks(c, a, b) <==> c == Xor(a, b)
  {
    forall k | 0 <= k < 8
      ensures Bit(c, k) == c / [1, 2, 4, 8, 16, 32, 64, 128][k] % 2
      ensures Bit(Xor(a, b), k) == Xor(a, b) / [1, 2, 4, 8, 16, 32, 64, 128][k] % 2
    {
      BitWeight(c, k);
      BitWeight(Xor(a, b), k);
    }
    forall k | 0 <= k < 8
      ensures var w := [1, 2, 4, 8, 16, 32, 64, 128][k]; Xor(a, b) / w % 2 == 1 <==> a / w % 2 != b / w % 2
    {
      XorBit(a, b, k);
    }
    if Unmasks(c, a, b) {
      Power2Eight();
      forall k | 0 <= k < 8 ensures Bit(c, k) == Bit(Xor(a, b), k) {
        var w := [1, 2, 4, 8, 16, 32, 64, 128][k];
        assert c / w % 2 == 1 <==> Xor(a, b) / w % 2 == 1;
        assert 0 <= c / w % 2 <= 1 && 0 <= Xor(a, b) / w % 2 <= 1;
      }
      SameBits(c, Xor(a, b), 8);
    }
  }

  // ----- frames of a client -----

  /** p is the data without its mask, which is repeated every four bytes. */
  predicate Plain(p: bytes, data: bytes, mask: bytes)
    requires |mask| == 4
  {
    |p| == |data| && forall i :: 0 <= i < |data| ==> Unmasks(p[i], data[i], mask[i % 4])
  }

  lemma PlainMasked(p: bytes, data: bytes, mask: bytes)
    requires |mask| == 4
    ensures Plain(p, data, mask) <==> p == Masked(data, mask)
  {
    hide Xor, Unmasks;
    if |p| == |data| {
      forall i | 0 <= i < |data| ensures Unmasks(p[i], data[i], mask[i % 4]) <==> p[i] == Masked(data, mask)[i] {
        UnmasksXor(p[i], data[i], mask[i % 4]);
      }
      if Plain(p, data, mask) { assert p == Masked(data, mask); }
    }
  }

  /** A frame with any of the three length fields. */
  lemma PeekLaid(first: byte, len7: nat, field: bytes, mask: bytes, data: bytes, p: bytes, x: bytes)
    requires len7 < 128 && |mask| == 4 && Plain(p, data, mask) && |field| == Extended(len7)
    requires |data| == if field == [] then len7 else FromBigEndian(field)
    ensures PeekData([first, 128 + len7] + field + mask + data + x)
            == Whole(first >= 128, first % 16, p, 6 + |field| + |data|)
  {
    hide Masked, FromBigEndian, Plain;
    PlainMasked(p, data, mask);
    FieldsApart([first, 128 + len7], field, mask, data, x);
  }

  lemma FieldsApart(head: bytes, field: bytes, mask: bytes, data: bytes, x: bytes)
    requires |head| == 2 && |mask| == 4
    ensures var b, e := head + field + mask + data + x, |field|;
            && |b| >= 6 + e + |data| && b[0] == head[0] && b[1] == head[1]
            && b[2..2 + e] == field && b[2 + e..6 + e] == mask && b[6 + e..6 + e + |data|] == data
  {
    var b, e := head + field + mask + data + x, |field|;
    assert b[2..2 + e] == field;
    assert b[2 + e..6 + e] == mask;
    assert b[6 + e..6 + e + |data|] == data;
  }

  /** The length is in the second byte, or in two bytes behind 126, or in eight behind 127. */
  lemma PeekShort(first: byte, mask: bytes, data: bytes, p: bytes, x: bytes)
    requires |mask| == 4 && |data| <= 125 && Plain(p, data, mask)
    ensures PeekData([first, 128 + |data|] + mask + data + x) == Whole(first >= 128, first % 16, p, 6 + |data|)
  {
    hide PeekData, Plain;
    PeekLaid(first, |data|, [], mask, data, p, x);
    assert [first, 128 + |data|] + [] == [first, 128 + |data|];
  }

  lemma PeekMiddle(first: byte, hi: byte, lo: byte, mask: bytes, data: bytes, p: bytes, x: bytes)
    requires |mask| == 4 && |data| == hi * 256 + lo && Plain(p, data, mask)
    ensures PeekData([first, 254, hi, lo] + mask + data + x) == Whole(first >= 128, first % 16, p, 8 + |data|)
  {
    hide PeekData, Plain;
    BigTwo(hi, lo);
    PeekLaid(first, 126, [hi, lo], mask, data, p, x);
    assert [first, 128 + 126] + [hi, lo] == [first, 254, hi, lo];
  }

  lemma PeekLong(first: byte, field: bytes, mask: bytes, data: bytes, p: bytes, x: bytes)
    requires |mask| == 4 && |field| == 8 && Plain(p, data, mask)
    requires |data| == field[0] as int * 0x100_0000_0000_0000 + field[1] as int * 0x1_0000_0000_0000
                       + field[2] as int * 0x100_0000_0000 + field[3] as int * 0x1_0000_0000
                       + field[4] as int * 0x100_0000 + field[5] as int * 0x1_0000 + field[6] as int * 0x100 + field[7]
    ensures PeekData([first, 255] + field + mask + data + x) == Whole(first >= 128, first % 16, p, 14 + |data|)
  {
    hide PeekData, Plain;
    BigEight(field);
    PeekLaid(first, 127, field, mask, data, p, x);
  }

  /** A frame without a mask is refused, whatever is in it. */
  lemma PeekUnmasked(first: byte, second: byte, x: bytes)
    requires second < 128
    ensures PeekData([first, second] + x) == Unmasked
  {
  }

  /** The masked "Hello" of section 5.7 of RFC 6455. */
  lemma PeekHello(x: bytes)
    ensures PeekData([0x81, 0x85, 0x37, 0xfa, 0x21, 0x3d, 0x7f, 0x9f, 0x4d, 0x51, 0x58] + x)
            == Whole(true, 1, [0x48, 0x65, 0x6c, 0x6c, 0x6f], 11)
  {
    hide PeekData, Plain;
    var data: bytes, mask: bytes := [0x7f, 0x9f, 0x4d, 0x51, 0x58], [0x37, 0xfa, 0x21, 0x3d];
    HelloPlain();
    PeekShort(0x81, mask, data, [0x48, 0x65, 0x6c, 0x6c, 0x6f], x);
    assert [0x81, 128 + |data|] + mask + data
           == [0x81, 0x85, 0x37, 0xfa, 0x21, 0x3d, 0x7f, 0x9f, 0x4d, 0x51, 0x58];
  }

  lemma HelloPlain()
    ensures Plain([0x48, 0x65, 0x6c, 0x6c, 0x6f], [0x7f, 0x9f, 0x4d, 0x51, 0x58], [0x37, 0xfa, 0x21, 0x3d])
  {
    hide Xor, Unmasks;
    HelloBytes();
    UnmasksXor(0x48, 0x7f, 0x37);
    UnmasksXor(0x65, 0x9f, 0xfa);
    UnmasksXor(0x6c, 0x4d, 0x21);
    UnmasksXor(0x6c, 0x51, 0x3d);
    UnmasksXor(0x6f, 0x58, 0x37);
    assert 0 % 4 == 0 && 1 % 4 == 1 && 2 % 4 == 2 && 3 % 4 == 3 && 4 % 4 == 0;
  }

  /** The low four bits and the others. */
  lemma XorHalves(a: byte, b: byte)
    ensures Xor(a, b) == XorBits(a, b, 4) + 16 * XorBits(a / 16, b / 16, 4)
  {
    XorFour(a, b, 4);
  }

  lemma XorFour(a: nat, b: nat, n: nat)
    ensures XorBits(a, b, 4 + n) == XorBits(a, b, 4) + 16 * XorBits(a / 16, b / 16, n)
  {
    XorTwo(a, b, 2 + n);
    XorTwo(a / 4, b / 4, n);
    XorTwo(a, b, 2);
    XorTwo(a / 4, b / 4, 0);
    assert a / 4 / 4 == a / 16 && b / 4 / 4 == b / 16;
  }

  lemma XorTwo(a: nat, b: nat, n: nat)
    ensures XorBits(a, b, 2 + n) == XorBits(a, b, 2) + 4 * XorBits(a / 4, b / 4, n)
  {
    assert a / 2 / 2 == a / 4 && b / 2 / 2 == b / 4;
    assert XorBits(a / 2, b / 2, 1 + n) == XorBits(a / 2, b / 2, 1) + 2 * XorBits(a / 4, b / 4, n);
    assert XorBits(a, b, 1 + (1 + n)) == XorBits(a, b, 1) + 2 * XorBits(a / 2, b / 2, 1 + n);
  }

  lemma HelloBytes()
    ensures Xor(0x7f, 0x37) == 0x48 && Xor(0x9f, 0xfa) == 0x65 && Xor(0x4d, 0x21) == 0x6c
    ensures Xor(0x51, 0x3d) == 0x6c && Xor(0x58, 0x37) == 0x6f
  {
    hide Xor;
    Hello1();
    Hello2();
    Hello3();
    Hello4();
    Hello5();
  }

  lemma Hello1()
    ensures Xor(0x7f, 0x37) == 0x48
  {
    hide Xor;
    XorHalves(0x7f, 0x37);
  }

  lemma Hello2()
    ensures Xor(0x9f, 0xfa) == 0x65
  {
    hide Xor;
    XorHalves(0x9f, 0xfa);
  }

  lemma Hello3()
    ensures Xor(0x4d, 0x21) == 0x6c
  {
    hide Xor;
    XorHalves(0x4d, 0x21);
  }

  lemma Hello4()
    ensures Xor(0x51, 0x3d) == 0x6c
  {
    hide Xor;
    XorHalves(0x51, 0x3d);
  }

  lemma Hello5()
    ensures Xor(0x58, 0x37) == 0x6f
  {
    hide Xor;
    XorHalves(0x58, 0x37);
  }

  // ----- frames of the server -----

  /** The three forms; 65536 bytes are announced as none. */
  lemma ServerForms(kind: Opcode, p: bytes)
    ensures |p| <= 125 ==> ServerFrame(kind, p) == [128 + kind, |p|] + p
    ensures 126 <= |p| <= 65535 ==> ServerFrame(kind, p) == [128 + kind, 126, |p| / 256, |p| % 256] + p
    ensures |p| == 65536 ==> ServerFrame(kind, p) == [128 + kind, 126, 0, 0] + p
  {
    if 126 <= |p| <= 65535 { Halved(|p|); }
    if |p| == 65536 { Halved(0); }
  }

  lemma Halved(n: nat)
    requires n < 65536
    ensures n % 65536 == n && BigEndian(n, 2) == [n / 256, n % 256]
  {
    assert BigEndian(n / 256, 1) == BigEndian(n / 256 / 256, 0) + [n / 256 % 256];
  }

  lemma ServerLong(kind: Opcode, p: bytes) returns (field: bytes)
    requires 65536 < |p| < 0x8000_0000_0000_0000
    ensures |field| == 8 && ServerFrame(kind, p) == [128 + kind, 127] + field + p
    ensures |p| == field[0] as int * 0x100_0000_0000_0000 + field[1] as int * 0x1_0000_0000_0000
                   + field[2] as int * 0x100_0000_0000 + field[3] as int * 0x1_0000_0000
                   + field[4] as int * 0x100_0000 + field[5] as int * 0x1_0000 + field[6] as int * 0x100 + field[7]
  {
    hide BigEndian, FromBigEndian;
    field := BigEndian(|p|, 8);
    LengthForms(|p|);
    BigEight(field);
  }

  // ----- from a frame to what comes back -----

  /** What processing a lone frame does. */
  lemma ProcessLone(c: Conn, first: byte, mask: bytes, data: bytes, p: bytes)
    requires first >= 128 && |mask| == 4 && |data| <= 125 && Plain(p, data, mask)
    requires c.rbuf == [first, 128 + |data|] + mask + data
    ensures var (c1, ok) := Effect(c.(rbuf := []), Message(first % 16, p)); Process(c) == (c1, !ok)
  {
    hide Plain, Effect, PeekData;
    PeekShort(first, mask, data, p, []);
    assert c.rbuf + [] == c.rbuf;
    var (c1, ok) := Effect(c.(rbuf := []), Message(first % 16, p));
    EffectKeeps(c.(rbuf := []), Message(first % 16, p));
    assert c.rbuf[6 + |data|..] == [];
    assert PeekData([]) == Reading by { PeekNothing(); }
    assert Process(c1) == (c1, false);
  }

  lemma PeekNothing()
    ensures PeekData([]) == Reading
  {
  }

  /** A message by its number: 0 and 1 are executed, 8 closes, 9 asks for a 10 with the same payload. */
  lemma EffectKinds(c: Conn, m: Message)
    ensures var (c1, ok) := Effect(c, m);
            && (m.kind == 9 ==> c1 == c.(out := c.out + [Sent(10, m.payload, false)], done := c.done + [m]) && ok)
            && (m.kind == 8 ==>
                  c1 == c.(out := c.out + [Sent(8, m.payload, false)], closing := true, done := c.done + [m]) && ok)
            && (m.kind <= 1 ==>
                  && ok == (c.execs != [] ==> c.execs[0].ok) && c1.done == c.done + [m] && c1.closing == c.closing
                  && c1.execs == (if c.execs == [] then [] else c.execs[1..])
                  && c1.out == if c.execs == [] || c.execs[0].answer == None then c.out
                               else c.out + [Sent(1, c.execs[0].answer.value, false)])
            && (2 <= m.kind <= 7 || m.kind >= 10 ==> c1 == c.(done := c.done + [m]) && ok)
  {
    assert c.out + [] == c.out;
  }

  /** A client whose handshake has been written. */
  method Open(handshake: bytes, execs: seq<Exec>) returns (c: Client)
    requires handshake != []
    ensures fresh(c) && c.Idle() && !c.freed && c.scheduledRead && c.readEvents == 1 && c.wbuf == []
    ensures c.sentOut == handshake == c.handshake && c.Abs() == Conn([], [], false, execs, [])
  {
    hide Follows;
    c := new Client(handshake, execs);
    c.CanWrite(|handshake|);
    assert handshake[..|handshake|] == handshake && [] + handshake == handshake;
  }

  /** What is waiting is written. */
  method Flush(c: Client)
    requires c.Idle() && !c.freed && c.scheduledWrite && c.wbuf != []
    modifies c
    ensures c.Idle() && c.sentOut == old(c.sentOut + c.wbuf) && c.wbuf == [] && c.Abs() == old(c.Abs())
    ensures !c.closing ==> c.scheduledRead
  {
    hide Follows;
    var n := |c.wbuf|;
    assert c.wbuf[..n] == c.wbuf;
    c.CanWrite(n);
  }

  lemma WireOne(f: Sent)
    ensures Wire([f]) == ServerFrame(f.kind, f.payload)
  {
    hide ServerFrame;
    WireNothing();
    WireSnoc([], f);
    assert [] + [f] == [f];
    assert [] + ServerFrame(f.kind, f.payload) == ServerFrame(f.kind, f.payload);
  }

  lemma WaitingIs(a: bytes, b: bytes, c: bytes)
    requires a + b == a + c
    ensures b == c
  {
    assert (a + b)[|a|..] == b && (a + c)[|a|..] == c;
  }

  /** A ping or a close frame sent by a client whose handshake has been written, and what comes back. */
  method Exchange(handshake: bytes, execs: seq<Exec>, first: byte, mask: bytes, data: bytes, ghost p: bytes)
    returns (c: Client)
    requires handshake != [] && |mask| == 4 && |data| <= 125 && Plain(p, data, mask)
    requires first == 0x88 || first == 0x89
    ensures c.done == [Message(first - 128, p)] && c.wbuf == []
    ensures first == 0x89 ==> c.sentOut == handshake + ([0x8A, |p|] + p) && !c.closing && c.scheduledRead
    ensures first == 0x88 ==> c.sentOut == handshake + ([0x88, |p|] + p) && c.closing
  {
    hide Plain, Process, Effect, ServerFrame, Wire, Follows;
    PlainMasked(p, data, mask);
    c := Open(handshake, execs);
    var frame := [first, 128 + |data|] + mask + data;
    ghost var owed := Sent(if first == 0x89 then 10 else 8, p, false);
    assert c.rbuf + frame == frame;
    ProcessLone(c.Abs().(rbuf := frame), first, mask, data, p);
    EffectKinds(c.Abs().(rbuf := []), Message(first % 16, p));
    assert [] + [owed] == [owed] && [] + [Message(first % 16, p)] == [Message(first % 16, p)];
    c.CanRead(frame);
    WireOne(owed);
    ServerForms(owed.kind, p);
    WaitingIs(handshake, c.wbuf, Wire([owed]));
    Flush(c);
  }

  /** A frame without a mask gets a close frame with the code 1002 back. */
  method ExchangeUnmasked(handshake: bytes, execs: seq<Exec>, first: byte, second: byte, x: bytes)
    returns (c: Client, ghost reason: bytes)
    requires handshake != [] && second < 128
    ensures |reason| <= 125 && 2 <= |reason| && reason[0] as int * 256 + reason[1] as int == 1002
    ensures c.sentOut == handshake + ([0x88, |reason|] + reason) && c.closing && c.done == []
  {
    hide Process, ServerFrame, Wire, Follows;
    c := Open(handshake, execs);
    var frame := [first, second] + x;
    reason := UNMASKED_REASON;
    assert c.rbuf + frame == frame;
    ProcessUnmasked(c.Abs().(rbuf := frame), first, second, x);
    assert [] + [REFUSAL] == [REFUSAL];
    c.CanRead(frame);
    WireOne(REFUSAL);
    ServerForms(8, reason);
    WaitingIs(handshake, c.wbuf, Wire([REFUSAL]));
    Flush(c);
  }

  lemma ProcessUnmasked(c: Conn, first: byte, second: byte, x: bytes)
    requires second < 128 && c.rbuf == [first, second] + x
    ensures Process(c) == (c.(out := c.out + [REFUSAL], closing := true), true)
  {
    PeekUnmasked(first, second, x);
  }
}
