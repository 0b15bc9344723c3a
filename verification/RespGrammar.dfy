/**
 The Redis serialization protocol as a recursive grammar on whole byte strings.
 It is the reference for the incremental reader of src/hiredis/read.c.
 */
module RespGrammar {
  import opened Bytes

  datatype Type =
    | TString | TArray | TInteger | TNil | TStatus | TError
    | TDouble | TBool | TMap | TSet | TPush | TVerb

  /** A reply tree.  `Unset` stands for a NULL element of a tree under construction. */
  datatype Reply =
    | Unset
    | Integer(value: int)
    | Nil
    | Bool(flag: bool)
    | Text(typ: Type, text: bytes)
    | Verbatim(vtype: bytes, text: bytes)
    | Aggregate(kind: Type, elements: seq<Reply>)

  datatype Error =
    | BadTypeByte(b: byte)
    | BadInteger
    | DoubleTooLarge
    | BadDouble
    | BadBulkLength
    | BulkLengthOutOfRange
    | BadVerbatim
    | BadMultiBulkLength
    | MultiBulkLengthOutOfRange

  datatype Parsed<+T> = Done(value: T, rest: bytes) | More | Bad(error: Error)

  datatype Outcome<+T> = Ok(value: T) | Err(error: Error)

  /** Decides which texts the C library accepts as a floating-point number. */
  type Doubles = bytes -> bool

  const MAX_ELEMENTS: int := 0xffff_ffff
  const DOUBLE_BUFFER: int := 326

  function TypeOf(b: byte): Option<Type> {
    if b == 45 then Some(TError)
    else if b == 43 then Some(TStatus)
    else if b == 58 then Some(TInteger)
    else if b == 44 then Some(TDouble)
    else if b == 95 then Some(TNil)
    else if b == 36 then Some(TString)
    else if b == 42 then Some(TArray)
    else if b == 37 then Some(TMap)
    else if b == 126 then Some(TSet)
    else if b == 35 then Some(TBool)
    else if b == 61 then Some(TVerb)
    else if b == 62 then Some(TPush)
    else None
  }

  predicate IsLineType(t: Type) {
    t in {TError, TStatus, TInteger, TDouble, TNil, TBool}
  }

  predicate IsBulkType(t: Type) { t == TString || t == TVerb }

  predicate IsAggregateType(t: Type) { t in {TArray, TMap, TSet, TPush} }

  /** Is the two-byte terminator at position i of s? */
  predicate CrlfAt(s: bytes, i: int) {
    0 <= i && i + 1 < |s| && s[i] == CR && s[i + 1] == LF
  }

  /** Position of the first CRLF. */
  function FindCrlf(s: bytes): (r: Option<nat>)
    ensures r.Some? ==> CrlfAt(s, r.value) && forall j :: 0 <= j < r.value ==> !CrlfAt(s, j)
    ensures r.None? ==> forall j :: !CrlfAt(s, j)
  {
    FindCrlfFrom(s, 0)
  }

  function FindCrlfFrom(s: bytes, k: nat): (r: Option<nat>)
    ensures r.Some? ==> k <= r.value && CrlfAt(s, r.value) && forall j :: k <= j < r.value ==> !CrlfAt(s, j)
    ensures r.None? ==> forall j :: k <= j ==> !CrlfAt(s, j)
    decreases |s| - k
  {
    if |s| < k + 2 then None
    else if CrlfAt(s, k) then Some(k)
    else FindCrlfFrom(s, k + 1)
  }

  lemma FindCrlfIs(s: bytes, i: nat)
    requires CrlfAt(s, i) && forall j :: 0 <= j < i ==> !CrlfAt(s, j)
    ensures FindCrlf(s) == Some(i)
  {
  }

  lemma FindCrlfExtend(s: bytes, e: bytes)
    requires FindCrlf(s).Some?
    ensures FindCrlf(s + e) == FindCrlf(s)
  {
    var i := FindCrlf(s).value;
    forall j | 0 <= j < i ensures !CrlfAt(s + e, j) {
      assert !CrlfAt(s, j);
    }
    FindCrlfIs(s + e, i);
  }

  predicate IsCanonicalDecimal(s: bytes) {
    if |s| >= 1 && s[0] == MINUS then
      |s| >= 2 && AllDigits(s[1..]) && s[1] != ZERO
    else
      |s| >= 1 && AllDigits(s) && (s[0] == ZERO ==> |s| == 1)
  }

  /** The number a text denotes: canonical decimal notation within 64-bit range, nothing else. */
  function ParseNumber(s: bytes): Option<int> {
    if !IsCanonicalDecimal(s) then None
    else if s[0] == MINUS then
      var v := 0 - DigitsValue(s[1..]);
      if v < LLONG_MIN then None else Some(v)
    else
      if DigitsValue(s) > LLONG_MAX then None else Some(DigitsValue(s))
  }

  /** string2ll and sdsll2str: a text is accepted with value v exactly when it is the notation of v. */
  lemma ParseNumberExact(s: bytes, v: int)
    ensures ParseNumber(s) == Some(v) <==> LLONG_MIN <= v <= LLONG_MAX && s == Decimal(v)
  {
    hide ParseNumber, Decimal;
    if LLONG_MIN <= v <= LLONG_MAX && s == Decimal(v) { ParseDecimal(v); }
    if ParseNumber(s) == Some(v) { DecimalParsed(s, v); }
  }

  lemma ParseDecimal(v: int)
    requires LLONG_MIN <= v <= LLONG_MAX
    ensures ParseNumber(Decimal(v)) == Some(v)
  {
    hide Digits, DigitsValue;
    var s := Decimal(v);
    if v < 0 {
      assert s[1..] == Digits(-v);
      DigitsValueOfDigits(-v);
    } else {
      ZeroAlone(v);
      assert IsDigit(s[0]);
      DigitsValueOfDigits(v);
    }
  }

  lemma ZeroAlone(v: nat)
    ensures Digits(v)[0] == ZERO ==> |Digits(v)| == 1
  {
  }

  lemma DecimalParsed(s: bytes, v: int)
    requires ParseNumber(s) == Some(v)
    ensures LLONG_MIN <= v <= LLONG_MAX && s == Decimal(v)
  {
    hide Digits, DigitsValue;
    if s[0] == MINUS {
      DigitsOfDigitsValue(s[1..]);
      assert s == [MINUS] + s[1..];
    } else {
      DigitsOfDigitsValue(s);
    }
  }

  /** The reply carried by a one-line item. */
  function LineValue(dbl: Doubles, t: Type, line: bytes): Outcome<Reply>
    requires IsLineType(t)
  {
    match t
    case TInteger =>
      (match ParseNumber(line)
       case None => Err(BadInteger)
       case Some(v) => Ok(Integer(v)))
    case TDouble =>
      if |line| >= DOUBLE_BUFFER then Err(DoubleTooLarge)
      else if dbl(line) then Ok(Text(TDouble, line))
      else Err(BadDouble)
    case TNil => Ok(Nil)
    case TBool => Ok(Bool(|line| >= 1 && (line[0] == 116 || line[0] == 84)))
    case _ => Ok(Text(t, line))
  }

  /** The reply carried by a complete bulk payload. */
  function BulkValue(t: Type, payload: bytes): Outcome<Reply>
    requires IsBulkType(t)
  {
    if t == TString then Ok(Text(TString, payload))
    else if |payload| < 4 || payload[3] != 58 then Err(BadVerbatim)
    else Ok(Verbatim(payload[..3], payload[4..]))
  }

  /** How many child replies an aggregate header announces. */
  function ChildCount(t: Type, n: nat): nat {
    if t == TMap then 2 * n else n
  }

  /** One reply at the start of b. */
  function ParseReply(dbl: Doubles, b: bytes): (r: Parsed<Reply>)
    ensures r.Done? ==> |r.rest| < |b|
    decreases |b|, 1
  {
    if b == [] then More
    else match TypeOf(b[0])
      case None => Bad(BadTypeByte(b[0]))
      case Some(t) => ParseBody(dbl, t, b[1..])
  }

  /** What follows the type byte. */
  function ParseBody(dbl: Doubles, t: Type, b: bytes): (r: Parsed<Reply>)
    ensures r.Done? ==> |r.rest| < |b|
    decreases |b|, 0
  {
    match FindCrlf(b)
    case None => More
    case Some(i) =>
      var line, after := b[..i], b[i + 2..];
      if IsLineType(t) then
        match LineValue(dbl, t, line)
        case Ok(v) => Done(v, after)
        case Err(e) => Bad(e)
      else if IsBulkType(t) then
        ParseBulk(t, ParseNumber(line), after)
      else
        match ParseNumber(line)
        case None => Bad(BadMultiBulkLength)
        case Some(n) =>
          if n < -1 || n > MAX_ELEMENTS then Bad(MultiBulkLengthOutOfRange)
          else if n == -1 then Done(Nil, after)
          else match ParseMany(dbl, ChildCount(t, n), after)
            case Done(vs, rest) => Done(Aggregate(t, vs), rest)
            case More => More
            case Bad(e) => Bad(e)
  }

  /** A bulk payload and the two bytes after it, which are skipped unread. */
  function ParseBulk(t: Type, length: Option<int>, after: bytes): (r: Parsed<Reply>)
    requires IsBulkType(t)
    ensures r.Done? ==> |r.rest| <= |after|
  {
    match length
    case None => Bad(BadBulkLength)
    case Some(n) =>
      if n < -1 then Bad(BulkLengthOutOfRange)
      else if n == -1 then Done(Nil, after)
      else if |after| < n + 2 then More
      else match BulkValue(t, after[..n])
        case Ok(v) => Done(v, after[n + 2..])
        case Err(e) => Bad(e)
  }

  /** n consecutive replies. */
  function ParseMany(dbl: Doubles, n: nat, b: bytes): (r: Parsed<seq<Reply>>)
    ensures r.Done? ==> |r.rest| <= |b| && |r.value| == n
    decreases |b|, 2, n
  {
    if n == 0 then Done([], b)
    else match ParseReply(dbl, b)
      case More => More
      case Bad(e) => Bad(e)
      case Done(v, rest) =>
        match ParseMany(dbl, n - 1, rest)
        case More => More
        case Bad(e) => Bad(e)
        case Done(vs, rest') => Done([v] + vs, rest')
  }

  // ----- a verdict is never revised by later input -----

  /** r' is what r must become once e is appended to its input. */
  predicate Extends<T(==)>(r: Parsed<T>, r': Parsed<T>, e: bytes) {
    match r
    case Done(v, rest) => r' == Done(v, rest + e)
    case Bad(err) => r' == Bad(err)
    case More => true
  }

  lemma {:induction false} ParseReplyExtend(dbl: Doubles, b: bytes, e: bytes)
    ensures Extends(ParseReply(dbl, b), ParseReply(dbl, b + e), e)
    decreases |b|, 1
  {
    if b != [] {
      assert (b + e)[1..] == b[1..] + e;
      match TypeOf(b[0])
      case None =>
      case Some(t) => ParseBodyExtend(dbl, t, b[1..], e);
    }
  }

  lemma {:induction false} ParseBodyExtend(dbl: Doubles, t: Type, b: bytes, e: bytes)
    ensures Extends(ParseBody(dbl, t, b), ParseBody(dbl, t, b + e), e)
    decreases |b|, 0
  {
    match FindCrlf(b)
    case None =>
    case Some(i) =>
      FindCrlfExtend(b, e);
      var after := b[i + 2..];
      assert (b + e)[..i] == b[..i];
      assert (b + e)[i + 2..] == after + e;
      if IsBulkType(t) {
        ParseBulkExtend(t, ParseNumber(b[..i]), after, e);
      } else if !IsLineType(t) {
        match ParseNumber(b[..i])
        case None =>
        case Some(n) =>
          if 0 <= n <= MAX_ELEMENTS { ParseManyExtend(dbl, ChildCount(t, n), after, e); }
      }
  }

  lemma ParseBulkExtend(t: Type, length: Option<int>, after: bytes, e: bytes)
    requires IsBulkType(t)
    ensures Extends(ParseBulk(t, length, after), ParseBulk(t, length, after + e), e)
  {
    if length.Some? && 0 <= length.value && length.value + 2 <= |after| {
      var n := length.value;
      assert (after + e)[..n] == after[..n];
      assert (after + e)[n + 2..] == after[n + 2..] + e;
    }
  }

  lemma {:induction false} ParseManyExtend(dbl: Doubles, n: nat, b: bytes, e: bytes)
    ensures Extends(ParseMany(dbl, n, b), ParseMany(dbl, n, b + e), e)
    decreases |b|, 2, n
  {
    if n > 0 {
      ParseReplyExtend(dbl, b, e);
      match ParseReply(dbl, b)
      case Done(v, rest) => ParseManyExtend(dbl, n - 1, rest, e);
      case _ =>
    }
  }

  // ----- a whole stream of replies -----

  /** The replies of a stream, the bytes of an incomplete last one, and the error that ended it, if any. */
  datatype Stream = Stream(replies: seq<Reply>, tail: bytes, error: Option<Error>)

  function ParseStream(dbl: Doubles, b: bytes): (s: Stream)
    ensures s.error.Some? ==> s.tail == []
    decreases |b|
  {
    match ParseReply(dbl, b)
    case More => Stream([], b, None)
    case Bad(e) => Stream([], [], Some(e))
    case Done(v, rest) =>
      var s := ParseStream(dbl, rest);
      s.(replies := [v] + s.replies)
  }

  /** What arrives later is parsed as if it followed the unfinished tail, and is ignored after an error. */
  function Continue(dbl: Doubles, s: Stream, e: bytes): Stream {
    if s.error.Some? then s
    else
      var s' := ParseStream(dbl, s.tail + e);
      s'.(replies := s.replies + s'.replies)
  }

  /** Parsing is independent of where the stream is cut. */
  lemma {:induction false} ParseStreamCut(dbl: Doubles, b: bytes, e: bytes)
    ensures ParseStream(dbl, b + e) == Continue(dbl, ParseStream(dbl, b), e)
    decreases |b|
  {
    ParseReplyExtend(dbl, b, e);
    match ParseReply(dbl, b)
    case More =>
    case Bad(_) =>
    case Done(v, rest) =>
      ParseStreamCut(dbl, rest, e);
      var s := ParseStream(dbl, rest);
      if s.error.None? {
        var s' := ParseStream(dbl, s.tail + e);
        assert [v] + (s.replies + s'.replies) == ([v] + s.replies) + s'.replies;
      }
  }
}
