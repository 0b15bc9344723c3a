/**
 WebSocket frames (section 5.2 of RFC 6455): what the reader of src/websocket.c takes for a whole
 frame, the frames a client sends, and the frames the server writes.
 */
module WsFrame {
  import opened Bytes

  // ----- masks and lengths -----

  /** Exclusive or of the k low bits. */
  function XorBits(a: nat, b: nat, k: nat): (c: nat) {
    if k == 0 then 0 else (if a % 2 == b % 2 then 0 else 1) + 2 * XorBits(a / 2, b / 2, k - 1)
  }

  function Power2(k: nat): nat { if k == 0 then 1 else 2 * Power2(k - 1) }

  lemma {:induction false} XorBitsTwice(a: nat, b: nat, k: nat)
    requires a < Power2(k)
    ensures XorBits(a, b, k) < Power2(k) && XorBits(XorBits(a, b, k), b, k) == a
  {
    if k > 0 {
      XorBitsTwice(a / 2, b / 2, k - 1);
    }
  }

  lemma {:induction false} XorBitsBound(a: nat, b: nat, k: nat)
    ensures XorBits(a, b, k) < Power2(k)
  {
    if k > 0 { XorBitsBound(a / 2, b / 2, k - 1); }
  }

  lemma Power2Eight()
    ensures Power2(8) == 256
  {
    assert Power2(4) == 16;
  }

  function Xor(a: byte, b: byte): (c: byte) {
    XorBitsBound(a, b, 8);
    Power2Eight();
    XorBits(a, b, 8)
  }

  lemma XorTwice(a: byte, b: byte)
    ensures Xor(Xor(a, b), b) == a
  {
    Power2Eight();
    XorBitsTwice(a, b, 8);
  }

  /** The masking of section 5.3 of RFC 6455. */
  function Masked(p: bytes, mask: bytes): (q: bytes)
    requires |mask| == 4
    ensures |q| == |p|
  {
    seq(|p|, i requires 0 <= i < |p| => Xor(p[i], mask[i % 4]))
  }

  lemma MaskedTwice(p: bytes, mask: bytes)
    requires |mask| == 4
    ensures Masked(Masked(p, mask), mask) == p
  {
    forall i | 0 <= i < |p| ensures Masked(Masked(p, mask), mask)[i] == p[i] {
      XorTwice(p[i], mask[i % 4]);
    }
  }

  // ----- reading -----

  datatype Peek = Reading | Unmasked | Whole(fin: bool, kind: nat, payload: bytes, size: nat)

  /** How many bytes of extended length follow the second byte. */
  function Extended(len7: nat): nat { if len7 == 126 then 2 else if len7 == 127 then 8 else 0 }

  /** ws_peek_data on the bytes received so far. */
  function PeekData(b: bytes): (r: Peek)
    ensures r.Whole? ==> 6 <= r.size <= |b|
  {
    if |b| < 2 then Reading
    else if b[1] < 128 then Unmasked
    else
      var len7 := b[1] - 128;
      var e := Extended(len7);
      if |b| < 6 + e then Reading
      else
        var len := if e == 0 then len7 else FromBigEndian(b[2..2 + e]);
        if len > |b| - (6 + e) then Reading
        else Whole(b[0] >= 128, b[0] % 16, Masked(b[6 + e..6 + e + len], b[2 + e..6 + e]), 6 + e + len)
  }

  /** Once a frame is whole, or bad, more bytes change nothing. */
  lemma PeekExtend(a: bytes, x: bytes)
    requires !PeekData(a).Reading?
    ensures PeekData(a + x) == PeekData(a)
  {
    if a[1] >= 128 {
      var e := Extended(a[1] - 128);
      var size := PeekData(a).size;
      assert (a + x)[2..2 + e] == a[2..2 + e];
      assert (a + x)[2 + e..6 + e] == a[2 + e..6 + e];
      assert (a + x)[6 + e..size] == a[6 + e..size];
    }
  }

  // ----- what a client sends -----

  /** A final, masked frame; `extended` picks one of the three length forms. */
  datatype Frame = Frame(rsv: nat, kind: nat, extended: nat, mask: bytes, payload: bytes)

  predicate WellFormed(f: Frame) {
    && f.rsv < 8 && f.kind < 16 && |f.mask| == 4
    && (f.extended == 0 ==> |f.payload| <= 125)
    && (f.extended == 0 || f.extended == 2 || f.extended == 8)
    && (f.extended != 0 ==> |f.payload| < Power256(f.extended))
  }

  function Head(f: Frame): (h: bytes)
    requires WellFormed(f)
    ensures |h| == 6 + f.extended
  {
    [128 + f.rsv * 16 + f.kind, 128 + (if f.extended == 0 then |f.payload| else if f.extended == 2 then 126 else 127)]
    + BigEndian(|f.payload|, f.extended) + f.mask
  }

  function ClientFrame(f: Frame): bytes
    requires WellFormed(f)
  {
    Head(f) + Masked(f.payload, f.mask)
  }

  lemma HeadParts(f: Frame, y: bytes)
    requires WellFormed(f)
    ensures var b, e := Head(f) + y, f.extended;
            && b[0] == 128 + f.rsv * 16 + f.kind && b[0] % 16 == f.kind && b[1] >= 128 && Extended(b[1] - 128) == e
            && (e == 0 ==> b[1] - 128 == |f.payload|) && b[2..2 + e] == BigEndian(|f.payload|, e)
            && b[2 + e..6 + e] == f.mask
            && (e != 0 ==> FromBigEndian(b[2..2 + e]) == |f.payload|)
  {
    hide BigEndian, FromBigEndian;
    LengthField(|f.payload|, f.extended);
    Remainder(f.rsv, f.kind);
    var b, be := Head(f) + y, BigEndian(|f.payload|, f.extended);
    assert b[2..2 + f.extended] == be;
    assert b[2 + f.extended..6 + f.extended] == f.mask;
  }

  lemma LengthField(n: nat, k: nat)
    ensures n < Power256(k) ==> FromBigEndian(BigEndian(n, k)) == n
  {
    hide BigEndian, FromBigEndian;
    BigEndianValue(n, k);
    if n < Power256(k) { SmallRemainder(n, Power256(k)); }
  }

  lemma SmallRemainder(n: nat, m: nat)
    requires n < m
    ensures n % m == n
  {
  }

  lemma Remainder(rsv: nat, kind: nat)
    requires kind < 16
    ensures (128 + rsv * 16 + kind) % 16 == kind
  {
  }

  /** A client's frame is read back with its own payload. */
  lemma PeekClientFrame(f: Frame, x: bytes)
    requires WellFormed(f)
    ensures PeekData(ClientFrame(f) + x) == Whole(true, f.kind, f.payload, |ClientFrame(f)|)
  {
    hide Head, Masked, FromBigEndian;
    var m := Masked(f.payload, f.mask);
    assert ClientFrame(f) + x == Head(f) + (m + x);
    HeadParts(f, m + x);
    MaskedTwice(f.payload, f.mask);
    var b := Head(f) + (m + x);
    assert b[6 + f.extended..6 + f.extended + |m|] == m;
  }

  /** Any part of a frame that stops short of its end is waited on. */
  lemma PeekPartFrame(f: Frame, k: nat)
    requires WellFormed(f) && k < |ClientFrame(f)|
    ensures PeekData(ClientFrame(f)[..k]) == Reading
  {
    hide Head, Masked, FromBigEndian;
    var c := ClientFrame(f);
    HeadParts(f, Masked(f.payload, f.mask));
    if k >= 6 + f.extended { assert c[..k][2..2 + f.extended] == c[2..2 + f.extended]; }
  }

  // ----- extracting messages -----

  datatype Message = Message(kind: nat, payload: bytes)

  /** The messages at the front of the input, what is left, and whether what is left is refused. */
  datatype Extracted = Extracted(msgs: seq<Message>, rest: bytes, bad: bool)

  function Extract(b: bytes): (r: Extracted)
    ensures |r.rest| + 6 * |r.msgs| <= |b|
    decreases |b|
  {
    var p := PeekData(b);
    if p.Whole? && p.fin then
      var r := Extract(b[p.size..]);
      Extracted([Message(p.kind, p.payload)] + r.msgs, r.rest, r.bad)
    else Extracted([], b, p.Unmasked?)
  }

  lemma ExtractStep(b: bytes)
    ensures var p := PeekData(b);
            if p.Whole? && p.fin then Extract(b) == Before(Message(p.kind, p.payload), Extract(b[p.size..]))
            else Extract(b) == Extracted([], b, p.Unmasked?)
  {
    hide PeekData;
  }

  function Before(m: Message, r: Extracted): Extracted { Extracted([m] + r.msgs, r.rest, r.bad) }

  /** Bytes that arrive later go on from what was left; after a frame that is refused they change nothing. */
  lemma {:induction false} ExtractCut(a: bytes, b: bytes)
    ensures var x, r := Extract(a), Extract(Extract(a).rest + b);
            Extract(a + b) == if x.bad then Extracted(x.msgs, x.rest + b, true)
              else Extracted(x.msgs + r.msgs, r.rest, r.bad)
    decreases |a|
  {
    hide PeekData, Extract;
    var p := PeekData(a);
    var r := Extract(Extract(a).rest + b);
    ExtractStep(a);
    if !p.Reading? { PeekExtend(a, b); }
    if p.Whole? && p.fin {
      ExtractStep(a + b);
      assert (a + b)[p.size..] == a[p.size..] + b;
      ExtractCut(a[p.size..], b);
      var m := Message(p.kind, p.payload);
      assert [m] + (Extract(a[p.size..]).msgs + r.msgs) == [m] + Extract(a[p.size..]).msgs + r.msgs;
    } else if p.Unmasked? {
      ExtractStep(a + b);
    } else {
      assert [] + r.msgs == r.msgs;
    }
  }

  /** The bytes at hand give no message, and are not refused. */
  predicate Waiting(rest: bytes) { Extract(rest) == Extracted([], rest, false) }

  lemma {:induction false} LeftOver(a: bytes)
    requires !Extract(a).bad
    ensures Waiting(Extract(a).rest)
    decreases |a|
  {
    hide PeekData;
    var p := PeekData(a);
    if p.Whole? && p.fin { LeftOver(a[p.size..]); }
  }

  function ClientFrames(fs: seq<Frame>): bytes
    requires AreFrames(fs)
  {
    if fs == [] then [] else ClientFrame(fs[0]) + ClientFrames(fs[1..])
  }

  function Messages(fs: seq<Frame>): seq<Message> {
    seq(|fs|, i requires 0 <= i < |fs| => Message(fs[i].kind, fs[i].payload))
  }

  /** The start of one more frame, not whole yet. */
  ghost predicate Incomplete(t: bytes) {
    exists f: Frame, k: nat :: WellFormed(f) && k < |ClientFrame(f)| && t == ClientFrame(f)[..k]
  }

  predicate AreFrames(fs: seq<Frame>) { forall i :: 0 <= i < |fs| ==> WellFormed(fs[i]) }

  /** How many of the frames the first n bytes hold whole. */
  function WholeFrames(fs: seq<Frame>, n: nat): (k: nat)
    requires AreFrames(fs)
    ensures k <= |fs|
  {
    if fs == [] || n < |ClientFrame(fs[0])| then 0 else 1 + WholeFrames(fs[1..], n - |ClientFrame(fs[0])|)
  }

  /** A frame is among them exactly if the first n bytes reach its end. */
  lemma {:induction false} WholeReaches(fs: seq<Frame>, n: nat, j: nat)
    requires AreFrames(fs) && j <= |fs|
    ensures j <= WholeFrames(fs, n) <==> |ClientFrames(fs[..j])| <= n
  {
    hide ClientFrame, WellFormed;
    if j > 0 {
      var c := ClientFrame(fs[0]);
      assert fs[..j][1..] == fs[1..][..j - 1];
      assert ClientFrames(fs[..j]) == c + ClientFrames(fs[1..][..j - 1]);
      if |c| <= n { WholeReaches(fs[1..], n - |c|, j - 1); }
    }
  }

  /** The first n bytes of a stream of frames hold the messages of its whole frames, and are never refused. */
  lemma {:induction false} ExtractFrames(fs: seq<Frame>, t: bytes, n: nat)
    requires AreFrames(fs) && Incomplete(t) && n <= |ClientFrames(fs) + t|
    ensures var x := Extract((ClientFrames(fs) + t)[..n]);
            x.msgs == Messages(fs[..WholeFrames(fs, n)]) && !x.bad
  {
    hide PeekData, ClientFrame, WellFormed, Extract;
    var b := (ClientFrames(fs) + t)[..n];
    ExtractStep(b);
    if fs == [] {
      assert ClientFrames(fs) + t == t;
      var f: Frame, k: nat :| WellFormed(f) && k < |ClientFrame(f)| && t == ClientFrame(f)[..k];
      assert b == ClientFrame(f)[..n];
      PeekPartFrame(f, n);
    } else {
      var c, rest := ClientFrame(fs[0]), ClientFrames(fs[1..]) + t;
      assert ClientFrames(fs) + t == c + rest;
      if n < |c| {
        assert b == c[..n];
        PeekPartFrame(fs[0], n);
      } else {
        var k := WholeFrames(fs[1..], n - |c|);
        assert b == c + rest[..n - |c|];
        PeekClientFrame(fs[0], rest[..n - |c|]);
        assert b[|c|..] == rest[..n - |c|];
        ExtractFrames(fs[1..], t, n - |c|);
        assert Messages(fs[..k + 1]) == [Message(fs[0].kind, fs[0].payload)] + Messages(fs[1..][..k]);
      }
    }
  }

  // ----- what the server sends -----

  type Opcode = k: nat | k < 16

  /** ws_frame_and_send_response: the bytes put in the write buffer. */
  function ServerFrame(kind: Opcode, p: bytes): bytes {
    if |p| <= 125 then [128 + kind, |p|] + p
    else if |p| <= 65536 then [128 + kind, 126] + BigEndian(|p| % 65536, 2) + p
    else [128 + kind, 127] + BigEndian(|p|, 8) + p
  }

  /** An unmasked final frame read as section 5.2 of RFC 6455 lays it out, lengths in their shortest form. */
  function DecodeFrame(b: bytes): (r: Option<(nat, bytes, nat)>)
    ensures r.Some? ==> 2 <= r.value.2 <= |b|
  {
    if |b| < 2 || b[0] < 128 || b[1] >= 128 then None
    else
      var e := Extended(b[1]);
      if |b| < 2 + e then None
      else
        var len := if e == 0 then b[1] else FromBigEndian(b[2..2 + e]);
        if (e == 2 && len <= 125) || (e == 8 && (len <= 65535 || len >= 0x8000_0000_0000_0000)) then None
        else if |b| < 2 + e + len then None
        else Some((b[0] % 16, b[2 + e..2 + e + len], 2 + e + len))
  }

  /**
   A frame of the server is read back exactly, whatever follows it, if and only if its payload is not
   of 65536 bytes.
   */
  lemma DecodeServerFrame(kind: Opcode, p: bytes, x: bytes)
    requires |p| < 0x8000_0000_0000_0000
    ensures DecodeFrame(ServerFrame(kind, p) + x) == Some((kind, p, |ServerFrame(kind, p)|)) <==> |p| != 65536
    ensures |p| == 65536 ==> DecodeFrame(ServerFrame(kind, p) + x) == None
  {
    hide BigEndian, FromBigEndian;
    var b := ServerFrame(kind, p) + x;
    if |p| <= 125 {
      assert b[2..2 + |p|] == p;
    } else if |p| <= 65536 {
      var be := BigEndian(|p| % 65536, 2);
      LengthForms(|p| % 65536);
      assert b[2..4] == be;
      if |p| < 65536 { assert b[4..4 + |p|] == p; }
    } else {
      LengthForms(|p|);
      assert b[2..10] == BigEndian(|p|, 8);
      assert b[10..10 + |p|] == p;
    }
  }

  lemma LengthForms(n: nat)
    ensures n < 65536 ==> FromBigEndian(BigEndian(n, 2)) == n
    ensures n < 0x8000_0000_0000_0000 ==> FromBigEndian(BigEndian(n, 8)) == n
  {
    hide BigEndian, FromBigEndian;
    Powers();
    BigEndianValue(n, 2);
    BigEndianValue(n, 8);
  }

  lemma Powers()
    ensures Power256(2) == 65536 && Power256(8) == 65536 * 65536 * 65536 * 65536
  {
    assert Power256(4) == 65536 * Power256(2);
    assert Power256(6) == 65536 * Power256(4);
    assert Power256(8) == 65536 * Power256(6);
  }
}
