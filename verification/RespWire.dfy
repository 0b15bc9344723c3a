/**
 The Redis serialization protocol on its own bytes: which byte announces which reply, as the type
 switch of src/hiredis/read.c has it, and what the grammar makes of each line.
 */
module RespWire {
  import opened Bytes
  import opened RespGrammar
  import RespFormat
  import RespReader

  /** A line of any type. */
  lemma AnyLine(dbl: Doubles, b: byte, text: bytes, x: bytes)
    requires forall j :: 0 <= j < |text| - 1 ==> !(text[j] == 13 && text[j + 1] == 10)
    ensures FindCrlf(text + [13, 10] + x) == Some(|text|)
    ensures (text + [13, 10] + x)[..|text|] == text && (text + [13, 10] + x)[|text| + 2..] == x
    ensures TypeOf(b) == None ==> ParseReply(dbl, [b] + text + [13, 10] + x) == Bad(BadTypeByte(b))
    ensures TypeOf(b).Some? ==>
              ParseReply(dbl, [b] + text + [13, 10] + x) == ParseBody(dbl, TypeOf(b).value, text + [13, 10] + x)
  {
    hide ParseBody, TypeOf;
    RespFormat.FindLineEnd(text, x);
    var s := [b] + text + [13, 10] + x;
    assert s[0] == b && s[1..] == text + [13, 10] + x;
  }

  // ----- one-line replies -----

  lemma StatusLine(dbl: Doubles, text: bytes, x: bytes)
    requires forall j :: 0 <= j < |text| - 1 ==> !(text[j] == 13 && text[j + 1] == 10)
    ensures ParseReply(dbl, [43] + text + [13, 10] + x) == Done(Text(TStatus, text), x)
  {
    hide ParseReply, FindCrlf;
    AnyLine(dbl, 43, text, x);
  }

  lemma ErrorLine(dbl: Doubles, text: bytes, x: bytes)
    requires forall j :: 0 <= j < |text| - 1 ==> !(text[j] == 13 && text[j + 1] == 10)
    ensures ParseReply(dbl, [45] + text + [13, 10] + x) == Done(Text(TError, text), x)
  {
    hide ParseReply, FindCrlf;
    AnyLine(dbl, 45, text, x);
  }

  /** Every 64-bit number, in its decimal notation and in no other. */
  lemma IntegerLine(dbl: Doubles, text: bytes, x: bytes)
    requires forall j :: 0 <= j < |text| - 1 ==> !(text[j] == 13 && text[j + 1] == 10)
    ensures var r := ParseReply(dbl, [58] + text + [13, 10] + x);
            && (forall v :: r == Done(Integer(v), x) <==>
                 -0x8000_0000_0000_0000 <= v <= 0x7fff_ffff_ffff_ffff && text == Decimal(v))
            && (r == Bad(BadInteger) || exists v :: r == Done(Integer(v), x))
  {
    hide ParseReply, FindCrlf, ParseNumber;
    AnyLine(dbl, 58, text, x);
    var r := ParseReply(dbl, [58] + text + [13, 10] + x);
    forall v ensures r == Done(Integer(v), x) <==> LLONG_MIN <= v <= LLONG_MAX && text == Decimal(v) {
      ParseNumberExact(text, v);
    }
    if ParseNumber(text).Some? { assert r == Done(Integer(ParseNumber(text).value), x); }
  }

  lemma NilLine(dbl: Doubles, text: bytes, x: bytes)
    requires forall j :: 0 <= j < |text| - 1 ==> !(text[j] == 13 && text[j + 1] == 10)
    ensures ParseReply(dbl, [95] + text + [13, 10] + x) == Done(Nil, x)
  {
    hide ParseReply, FindCrlf;
    AnyLine(dbl, 95, text, x);
  }

  /** True if the line begins with a t in either case. */
  lemma BoolLine(dbl: Doubles, text: bytes, x: bytes)
    requires forall j :: 0 <= j < |text| - 1 ==> !(text[j] == 13 && text[j + 1] == 10)
    ensures ParseReply(dbl, [35] + text + [13, 10] + x)
            == Done(Bool(text != [] && (text[0] == 't' as int || text[0] == 'T' as int)), x)
  {
    hide ParseReply, FindCrlf;
    AnyLine(dbl, 35, text, x);
  }

  lemma DoubleLine(dbl: Doubles, text: bytes, x: bytes)
    requires forall j :: 0 <= j < |text| - 1 ==> !(text[j] == 13 && text[j + 1] == 10)
    ensures ParseReply(dbl, [44] + text + [13, 10] + x)
            == if |text| >= 326 then Bad(DoubleTooLarge)
               else if dbl(text) then Done(Text(TDouble, text), x) else Bad(BadDouble)
  {
    hide ParseReply, FindCrlf;
    AnyLine(dbl, 44, text, x);
  }

  // ----- payloads -----

  lemma LengthLine(n: int)
    requires LLONG_MIN <= n <= LLONG_MAX
    ensures var t := Decimal(n);
            && ParseNumber(t) == Some(n)
            && forall j :: 0 <= j < |t| - 1 ==> !(t[j] == 13 && t[j + 1] == 10)
  {
    hide Decimal, ParseNumber;
    ParseNumberExact(Decimal(n), n);
    RespFormat.DecimalNoCrlf(n);
    forall j | 0 <= j < |Decimal(n)| - 1 ensures !(Decimal(n)[j] == 13 && Decimal(n)[j + 1] == 10) {
      assert !CrlfAt(Decimal(n), j);
    }
  }

  lemma PayloadApart(payload: bytes, a: byte, b: byte, x: bytes)
    ensures var after := payload + [a, b] + x;
            |after| >= |payload| + 2 && after[..|payload|] == payload && after[|payload| + 2..] == x
  {
  }

  /** The two bytes behind a payload are skipped whatever they are. */
  lemma StringPayload(dbl: Doubles, payload: bytes, a: byte, b: byte, x: bytes)
    requires |payload| <= 0x7fff_ffff_ffff_ffff
    ensures ParseReply(dbl, [36] + Decimal(|payload|) + [13, 10] + (payload + [a, b] + x))
            == Done(Text(TString, payload), x)
  {
    hide ParseReply, FindCrlf, ParseNumber, Decimal;
    LengthLine(|payload|);
    AnyLine(dbl, 36, Decimal(|payload|), payload + [a, b] + x);
    PayloadApart(payload, a, b, x);
  }

  lemma VerbatimPayload(dbl: Doubles, payload: bytes, a: byte, b: byte, x: bytes)
    requires |payload| <= 0x7fff_ffff_ffff_ffff
    ensures ParseReply(dbl, [61] + Decimal(|payload|) + [13, 10] + (payload + [a, b] + x))
            == if |payload| >= 4 && payload[3] == ':' as int then Done(Verbatim(payload[..3], payload[4..]), x)
               else Bad(BadVerbatim)
  {
    hide ParseReply, FindCrlf, ParseNumber, Decimal;
    LengthLine(|payload|);
    AnyLine(dbl, 61, Decimal(|payload|), payload + [a, b] + x);
    PayloadApart(payload, a, b, x);
  }

  /** -1 announces no payload at all, and no other negative length is taken. */
  lemma NoPayload(dbl: Doubles, b: byte, n: int, x: bytes)
    requires b == 36 || b == 61
    requires -0x8000_0000_0000_0000 <= n < 0
    ensures ParseReply(dbl, [b] + Decimal(n) + [13, 10] + x)
            == if n == -1 then Done(Nil, x) else Bad(BulkLengthOutOfRange)
  {
    hide ParseReply, FindCrlf, ParseNumber, Decimal;
    LengthLine(n);
    AnyLine(dbl, b, Decimal(n), x);
  }

  // ----- aggregates -----

  /** The elements found, as a reply of their kind. */
  function Gathered(kind: Type, r: Parsed<seq<Reply>>): Parsed<Reply> {
    match r
    case Done(vs, rest) => Done(Aggregate(kind, vs), rest)
    case More => More
    case Bad(e) => Bad(e)
  }

  /** The header of an aggregate and its elements; a map announces pairs. */
  lemma AggregateHeader(dbl: Doubles, n: int, x: bytes)
    requires -1 <= n <= 0xffff_ffff
    ensures var header, none := Decimal(n) + [13, 10] + x, Done(Nil, x);
            && ParseReply(dbl, [42] + header) == (if n == -1 then none else Gathered(TArray, ParseMany(dbl, n, x)))
            && ParseReply(dbl, [126] + header) == (if n == -1 then none else Gathered(TSet, ParseMany(dbl, n, x)))
            && ParseReply(dbl, [62] + header) == (if n == -1 then none else Gathered(TPush, ParseMany(dbl, n, x)))
            && ParseReply(dbl, [37] + header) == if n == -1 then none else Gathered(TMap, ParseMany(dbl, 2 * n, x))
  {
    hide ParseReply, ParseMany, TypeOf, Decimal;
    AggregateBytes();
    AnyAggregate(dbl, 42, n, x);
    AnyAggregate(dbl, 126, n, x);
    AnyAggregate(dbl, 62, n, x);
    AnyAggregate(dbl, 37, n, x);
    HeaderFirst(42, Decimal(n), x);
    HeaderFirst(126, Decimal(n), x);
    HeaderFirst(62, Decimal(n), x);
    HeaderFirst(37, Decimal(n), x);
  }

  lemma HeaderFirst(b: byte, t: bytes, x: bytes)
    ensures [b] + (t + [13, 10] + x) == [b] + t + [13, 10] + x
  {
  }

  lemma AggregateBytes()
    ensures TypeOf(42) == Some(TArray) && TypeOf(126) == Some(TSet)
    ensures TypeOf(62) == Some(TPush) && TypeOf(37) == Some(TMap)
  {
  }

  lemma AnyAggregate(dbl: Doubles, b: byte, n: int, x: bytes)
    requires -1 <= n <= 0xffff_ffff && TypeOf(b).Some? && IsAggregateType(TypeOf(b).value)
    ensures ParseReply(dbl, [b] + Decimal(n) + [13, 10] + x)
            == if n == -1 then Done(Nil, x)
               else Gathered(TypeOf(b).value, ParseMany(dbl, ChildCount(TypeOf(b).value, n), x))
  {
    hide ParseReply, ParseMany, FindCrlf, ParseNumber, Decimal, TypeOf;
    LengthLine(n);
    AnyLine(dbl, b, Decimal(n), x);
  }

  /** Any other length is refused. */
  lemma AggregateRange(dbl: Doubles, b: byte, n: int, x: bytes)
    requires b == 42 || b == 126 || b == 62 || b == 37
    requires -0x8000_0000_0000_0000 <= n < -1 || 0xffff_ffff < n <= 0x7fff_ffff_ffff_ffff
    ensures ParseReply(dbl, [b] + Decimal(n) + [13, 10] + x) == Bad(MultiBulkLengthOutOfRange)
  {
    hide ParseReply, ParseMany, FindCrlf, ParseNumber, Decimal, TypeOf;
    AggregateBytes();
    LengthLine(n);
    AnyLine(dbl, b, Decimal(n), x);
  }

  /** A length that is no number is refused. */
  lemma BadLength(dbl: Doubles, text: bytes, x: bytes)
    requires forall j :: 0 <= j < |text| - 1 ==> !(text[j] == 13 && text[j + 1] == 10)
    requires forall v :: -0x8000_0000_0000_0000 <= v <= 0x7fff_ffff_ffff_ffff ==> text != Decimal(v)
    ensures forall b: byte :: b in {36, 61} ==> ParseReply(dbl, [b] + text + [13, 10] + x) == Bad(BadBulkLength)
    ensures forall b: byte :: b in {42, 126, 62, 37} ==>
              ParseReply(dbl, [b] + text + [13, 10] + x) == Bad(BadMultiBulkLength)
  {
    hide ParseReply, ParseMany, FindCrlf, ParseNumber, Decimal, TypeOf;
    if ParseNumber(text).Some? {
      ParseNumberExact(text, ParseNumber(text).value);
      assert false;
    }
    AggregateBytes();
    BulkBytes();
    forall b: byte | b in {36, 61, 42, 126, 62, 37} { AnyLine(dbl, b, text, x); }
  }

  lemma BulkBytes()
    ensures TypeOf(36) == Some(TString) && TypeOf(61) == Some(TVerb)
  {
  }

  /** No other byte announces a reply. */
  lemma OtherByte(dbl: Doubles, b: byte, x: bytes)
    requires b !in {43, 45, 58, 36, 42, 95, 35, 44, 37, 126, 61, 62}
    ensures ParseReply(dbl, [b] + x) == Bad(BadTypeByte(b))
  {
    assert ([b] + x)[0] == b;
  }

  // ----- from the bytes of a server to what the reader hands out -----

  /** However the answers of a server are cut, a status comes out as a status and an error as an error. */
  method ReadAnswer(dbl: Doubles, text: bytes, ok: bool, cuts: seq<bytes>)
    returns (replies: seq<Reply>, failure: Option<Error>)
    requires forall j :: 0 <= j < |text| - 1 ==> !(text[j] == 13 && text[j + 1] == 10)
    requires Concat(cuts) == [if ok then '+' as int else '-' as int] + text + [13, 10]
    ensures replies == [Text(if ok then TStatus else TError, text)] && failure == None
  {
    hide ParseReply;
    replies, failure := RespReader.Session(dbl, cuts);
    StatusLine(dbl, text, []);
    ErrorLine(dbl, text, []);
    assert Concat(cuts) + [] == Concat(cuts);
    RespReader.StreamOfNothing(dbl);
  }

  /** Numbers come out as those numbers, in order. */
  method ReadIntegers(dbl: Doubles, vs: seq<int>, ghost lines: seq<bytes>, cuts: seq<bytes>)
    returns (replies: seq<Reply>, failure: Option<Error>)
    requires |lines| == |vs| && Concat(cuts) == Concat(lines)
    requires forall i :: 0 <= i < |vs| ==> -0x8000_0000_0000_0000 <= vs[i] <= 0x7fff_ffff_ffff_ffff
    requires forall i :: 0 <= i < |vs| ==> lines[i] == [':' as int] + Decimal(vs[i]) + [13, 10]
    ensures failure == None && |replies| == |vs|
    ensures forall i :: 0 <= i < |vs| ==> replies[i] == Integer(vs[i])
  {
    hide ParseReply;
    replies, failure := RespReader.Session(dbl, cuts);
    IntegerStream(dbl, vs, lines);
  }

  lemma {:induction false} IntegerStream(dbl: Doubles, vs: seq<int>, lines: seq<bytes>)
    requires |lines| == |vs| && forall i :: 0 <= i < |vs| ==> LLONG_MIN <= vs[i] <= LLONG_MAX
    requires forall i :: 0 <= i < |vs| ==> lines[i] == [58] + Decimal(vs[i]) + [13, 10]
    ensures var s := ParseStream(dbl, Concat(lines));
            s.error == None && |s.replies| == |vs| && forall i :: 0 <= i < |vs| ==> s.replies[i] == Integer(vs[i])
  {
    hide ParseReply, Decimal;
    if vs == [] {
      RespReader.StreamOfNothing(dbl);
    } else {
      IntegerStream(dbl, vs[1..], lines[1..]);
      LengthLine(vs[0]);
      IntegerLine(dbl, Decimal(vs[0]), Concat(lines[1..]));
    }
  }
}
