/**
 Printing in the Redis protocol: the number printer of src/hiredis/sds.c, the two command
 formatters of src/hiredis/hiredis.c, the argument scanner of src/hiredis/async.c, and the
 proof that the reader undoes them.
 */
module RespFormat {
  import opened Bytes
  import opened RespGrammar
  import RespReader

  const DOLLAR: byte := 36
  const STAR: byte := 42

  // ----- a printer for every reply -----

  function TypeByte(t: Type): (b: byte)
    ensures TypeOf(b) == Some(t)
  {
    match t
    case TError => 45
    case TStatus => 43
    case TInteger => 58
    case TDouble => 44
    case TNil => 95
    case TString => 36
    case TArray => 42
    case TMap => 37
    case TSet => 126
    case TBool => 35
    case TVerb => 61
    case TPush => 62
  }

  /** One header line: type byte, text, terminator. */
  function Line(t: Type, text: bytes): bytes { [TypeByte(t)] + text + CRLF }

  function Bulk(payload: bytes): bytes { Decimal(|payload|) + CRLF + payload + CRLF }

  function Encode(v: Reply): bytes
    decreases v
  {
    match v
    case Unset => []
    case Integer(n) => Line(TInteger, Decimal(n))
    case Nil => Line(TNil, [])
    case Bool(b) => Line(TBool, [if b then 116 else 102])
    case Text(t, s) => if t == TString then [DOLLAR] + Bulk(s) else Line(t, s)
    case Verbatim(vt, s) => [TypeByte(TVerb)] + Bulk(vt + [58] + s)
    case Aggregate(k, es) => Line(k, Decimal(if k == TMap then |es| / 2 else |es|)) + EncodeAll(es)
  }

  function EncodeAll(es: seq<Reply>): bytes
    decreases es
  {
    if es == [] then [] else Encode(es[0]) + EncodeAll(es[1..])
  }

  predicate NoCrlf(s: bytes) { forall j | 0 <= j < |s| - 1 :: !CrlfAt(s, j) }

  /** The replies a server can send: numbers and lengths in range, one-line texts on one line. */
  predicate Printable(dbl: Doubles, v: Reply)
    decreases v
  {
    match v
    case Unset => false
    case Integer(n) => LLONG_MIN <= n <= LLONG_MAX
    case Nil => true
    case Bool(_) => true
    case Text(t, s) =>
      if t == TString then |s| <= LLONG_MAX
      else NoCrlf(s) && (t == TStatus || t == TError || (t == TDouble && |s| < DOUBLE_BUFFER && dbl(s)))
    case Verbatim(vt, s) => |vt| == 3 && 4 + |s| <= LLONG_MAX
    case Aggregate(k, es) =>
      && IsAggregateType(k)
      && (k == TMap ==> |es| % 2 == 0)
      && |es| <= MAX_ELEMENTS
      && forall i :: 0 <= i < |es| ==> Printable(dbl, es[i])
  }

  lemma DigitsNoCr(n: nat, j: nat)
    requires j < |Digits(n)|
    ensures Digits(n)[j] != CR
  {
    assert IsDigit(Digits(n)[j]);
  }

  lemma DecimalNoCrlf(n: int)
    ensures NoCrlf(Decimal(n))
  {
    var s := Decimal(n);
    forall j | 0 <= j < |s| - 1 ensures !CrlfAt(s, j) {
      if n >= 0 { DigitsNoCr(n, j); } else if j > 0 { DigitsNoCr(-n, j - 1); }
    }
  }

  lemma FindLineEnd(text: bytes, x: bytes)
    requires NoCrlf(text)
    ensures FindCrlf(text + CRLF + x) == Some(|text|)
    ensures (text + CRLF + x)[..|text|] == text && (text + CRLF + x)[|text| + 2..] == x
  {
    var s := text + CRLF + x;
    forall j | 0 <= j < |text| ensures !CrlfAt(s, j) {
      if j < |text| - 1 { assert !CrlfAt(text, j); }
    }
    FindCrlfIs(s, |text|);
  }

  lemma ParseLine(dbl: Doubles, t: Type, text: bytes, x: bytes)
    requires NoCrlf(text)
    ensures ParseReply(dbl, Line(t, text) + x) == ParseBody(dbl, t, text + CRLF + x)
    ensures FindCrlf(text + CRLF + x) == Some(|text|)
    ensures (text + CRLF + x)[..|text|] == text && (text + CRLF + x)[|text| + 2..] == x
  {
    FindLineEnd(text, x);
    assert (Line(t, text) + x)[1..] == text + CRLF + x;
  }

  lemma ParseBulkBack(dbl: Doubles, t: Type, payload: bytes, x: bytes)
    requires IsBulkType(t) && |payload| <= LLONG_MAX
    requires BulkValue(t, payload).Ok?
    ensures ParseReply(dbl, [TypeByte(t)] + Bulk(payload) + x) == Done(BulkValue(t, payload).value, x)
  {
    hide Decimal, BulkValue, ParseNumber, FindCrlf;
    var n := |payload|;
    DecimalNoCrlf(n);
    ParseNumberExact(Decimal(n), n);
    var after := payload + CRLF + x;
    assert [TypeByte(t)] + Bulk(payload) + x == Line(t, Decimal(n)) + after;
    ParseLine(dbl, t, Decimal(n), after);
    assert after[..n] == payload && after[n + 2..] == x;
  }

  /** Parsing undoes printing, whatever follows. */
  lemma {:induction false} ParseEncode(dbl: Doubles, v: Reply, x: bytes)
    requires Printable(dbl, v)
    ensures ParseReply(dbl, Encode(v) + x) == Done(v, x)
    decreases v
  {
    hide ParseReply, ParseMany;
    if v.Aggregate? {
      var k, es := v.kind, v.elements;
      var n := if k == TMap then |es| / 2 else |es|;
      ParseEncodeAll(dbl, es, x);
      assert Encode(v) + x == Line(k, Decimal(n)) + (EncodeAll(es) + x);
      ParseAggregateBack(dbl, k, n, es, EncodeAll(es) + x, x);
    } else {
      ParseLeafBack(dbl, v, x);
    }
  }

  lemma ParseLeafBack(dbl: Doubles, v: Reply, x: bytes)
    requires Printable(dbl, v) && !v.Aggregate?
    ensures ParseReply(dbl, Encode(v) + x) == Done(v, x)
  {
    hide ParseReply;
    match v
    case Integer(n) =>
      DecimalNoCrlf(n);
      ParseNumberExact(Decimal(n), n);
      ParseLine(dbl, TInteger, Decimal(n), x);
    case Nil => ParseLine(dbl, TNil, [], x);
    case Bool(b) => ParseLine(dbl, TBool, [if b then 116 else 102], x);
    case Text(t, s) =>
      if t == TString { ParseBulkBack(dbl, TString, s, x); } else { ParseLine(dbl, t, s, x); }
    case Verbatim(vt, s) =>
      var payload := vt + [58] + s;
      assert payload[..3] == vt && payload[4..] == s && payload[3] == 58;
      ParseBulkBack(dbl, TVerb, payload, x);
  }

  lemma ParseAggregateBack(dbl: Doubles, k: Type, n: nat, es: seq<Reply>, after: bytes, x: bytes)
    requires IsAggregateType(k) && n <= MAX_ELEMENTS && ChildCount(k, n) == |es|
    requires ParseMany(dbl, |es|, after) == Done(es, x)
    ensures ParseReply(dbl, Line(k, Decimal(n)) + after) == Done(Aggregate(k, es), x)
  {
    hide ParseMany;
    DecimalNoCrlf(n);
    ParseNumberExact(Decimal(n), n);
    ParseLine(dbl, k, Decimal(n), after);
  }

  lemma {:induction false} ParseEncodeAll(dbl: Doubles, es: seq<Reply>, x: bytes)
    requires forall i :: 0 <= i < |es| ==> Printable(dbl, es[i])
    ensures ParseMany(dbl, |es|, EncodeAll(es) + x) == Done(es, x)
    decreases es
  {
    if es == [] {
      assert EncodeAll(es) + x == x;
    } else {
      var rest := EncodeAll(es[1..]) + x;
      assert EncodeAll(es) + x == Encode(es[0]) + rest;
      ParseEncode(dbl, es[0], rest);
      ParseEncodeAll(dbl, es[1..], x);
      assert [es[0]] + es[1..] == es;
    }
  }

  /** A printed stream of replies comes back reply by reply. */
  lemma {:induction false} ParseStreamEncode(dbl: Doubles, vs: seq<Reply>)
    requires forall i :: 0 <= i < |vs| ==> Printable(dbl, vs[i])
    ensures ParseStream(dbl, EncodeAll(vs)) == Stream(vs, [], None)
  {
    if vs != [] {
      ParseEncode(dbl, vs[0], EncodeAll(vs[1..]));
      ParseStreamEncode(dbl, vs[1..]);
      assert [vs[0]] + vs[1..] == vs;
    }
  }

  // ----- numbers -----

  /** sdsll2str: digits are produced in reverse, the sign last, and the text is then reversed in place. */
  method LongToString(s: array<byte>, value: int) returns (l: nat)
    requires LLONG_MIN <= value <= LLONG_MAX && s.Length >= 21
    modifies s
    ensures l < s.Length && s[..l] == Decimal(value) && s[l] == NUL
  {
    var p := DigitsReversed(s, if value < 0 then -value else value);
    if value < 0 {
      ghost var before := s[..p];
      s[p] := MINUS;
      assert s[..p + 1] == before + [MINUS];
      ReversedSnoc(before, MINUS);
      p := p + 1;
    }
    l := p;
    ghost var text := s[..l];
    s[p] := NUL;
    assert s[..l] == text;
    ReverseInPlace(s, l);
  }

  /** The do-while loop shared by sdsll2str and sdsull2str. */
  method DigitsReversed(s: array<byte>, n: nat) returns (p: nat)
    requires n <= LLONG_MAX + 1 && s.Length >= 21
    modifies s
    ensures p <= 19 && Reversed(s[..p]) == Digits(n)
  {
    DigitsBound(n);
    var v := n;
    s[0], v, p := ZERO + v % 10, v / 10, 1;
    assert s[..1] == [ZERO + n % 10];
    assert Reversed(s[..1]) == s[..1];
    while v != 0
      invariant 1 <= p <= |Digits(n)| <= 19
      invariant Digits(n) == (if v == 0 then [] else Digits(v)) + Reversed(s[..p])
      decreases v
    {
      ghost var before := s[..p];
      s[p] := ZERO + v % 10;
      assert s[..p + 1] == before + [ZERO + v % 10];
      ReversedSnoc(before, ZERO + v % 10);
      assert Digits(n) == (if v / 10 == 0 then [] else Digits(v / 10)) + ([ZERO + v % 10] + Reversed(before));
      v, p := v / 10, p + 1;
    }
  }

  function Reversed(s: bytes): (r: bytes)
    ensures |r| == |s| && forall i :: 0 <= i < |s| ==> r[i] == s[|s| - 1 - i]
  {
    seq(|s|, i requires 0 <= i < |s| => s[|s| - 1 - i])
  }

  lemma ReversedSnoc(s: bytes, b: byte)
    ensures Reversed(s + [b]) == [b] + Reversed(s)
  {
  }

  method ReverseInPlace(s: array<byte>, l: nat)
    requires l < s.Length
    modifies s
    ensures s[..l] == Reversed(old(s[..l])) && s[l] == old(s[l])
  {
    var i, p := 0, l - 1;
    while i < p
      invariant 0 <= i <= p + 1 && i + p == l - 1
      invariant forall k :: 0 <= k < i ==> s[k] == old(s[l - 1 - k])
      invariant forall k :: p < k < l ==> s[k] == old(s[l - 1 - k])
      invariant forall k :: i <= k <= p ==> s[k] == old(s[k])
      invariant s[l] == old(s[l])
    {
      s[i], s[p] := s[p], s[i];
      i, p := i + 1, p - 1;
    }
  }

  function Pow10(k: nat): nat { if k == 0 then 1 else 10 * Pow10(k - 1) }

  /** A number below 10^k has at most k digits. */
  lemma {:induction false} DigitsLength(n: nat, k: nat)
    requires k >= 1 && n < Pow10(k)
    ensures |Digits(n)| <= k
    decreases k
  {
    if n >= 10 { DigitsLength(n / 10, k - 1); }
  }

  lemma DigitsBound(n: nat)
    requires n <= LLONG_MAX + 1
    ensures |Digits(n)| <= 19
  {
    assert Pow10(4) == 10000;
    Pow10Sum(4, 4);
    Pow10Sum(8, 8);
    Pow10Sum(16, 3);
    assert Pow10(3) == 1000;
    DigitsLength(n, 19);
  }

  lemma {:induction false} Pow10Sum(a: nat, b: nat)
    ensures Pow10(a + b) == Pow10(a) * Pow10(b)
    decreases a
  {
    if a > 0 {
      Pow10Sum(a - 1, b);
    }
  }

  /** countDigits, four digits at a time. */
  method CountDigits(n: nat) returns (result: nat)
    ensures result == |Digits(n)|
  {
    var v := n;
    result := 1;
    while true
      invariant |Digits(n)| == |Digits(v)| + result - 1
      decreases v
    {
      if v < 10 { return; }
      if v < 100 { return result + 1; }
      if v < 1000 {
        ThreeDigits(v);
        return result + 2;
      }
      FourDigits(v);
      if v < 10000 { return result + 3; }
      v, result := v / 10000, result + 4;
    }
  }

  lemma ThreeDigits(v: nat)
    requires 100 <= v < 1000
    ensures |Digits(v)| == 3
  {
    var a := v / 10;
    var b := a / 10;
    assert |Digits(v)| == |Digits(a)| + 1 && |Digits(a)| == |Digits(b)| + 1 && |Digits(b)| == 1;
  }

  lemma FourDigits(v: nat)
    requires v >= 1000
    ensures v < 10000 ==> |Digits(v)| == 4
    ensures v >= 10000 ==> |Digits(v)| == |Digits(v / 10000)| + 4
  {
    var a := v / 10;
    var b := a / 10;
    var c := b / 10;
    assert b == v / 100 && c == v / 1000;
    assert |Digits(v)| == |Digits(a)| + 1 && |Digits(a)| == |Digits(b)| + 1 && |Digits(b)| == |Digits(c)| + 1;
    if v >= 10000 {
      assert c / 10 == v / 10000;
      assert |Digits(c)| == |Digits(c / 10)| + 1;
    }
  }

  // ----- command formatting -----

  /** The protocol text of one argument. */
  function Argument(arg: bytes): bytes { [DOLLAR] + Decimal(|arg|) + CRLF + arg + CRLF }

  function Arguments(argv: seq<bytes>): bytes {
    if argv == [] then [] else Argument(argv[0]) + Arguments(argv[1..])
  }

  /** The protocol text of a command. */
  function Command(argv: seq<bytes>): bytes { [STAR] + Decimal(|argv|) + CRLF + Arguments(argv) }

  lemma {:induction false} ArgumentsAppend(a: seq<bytes>, b: seq<bytes>)
    ensures Arguments(a + b) == Arguments(a) + Arguments(b)
  {
    if a == [] {
      assert a + b == b;
    } else {
      assert (a + b)[1..] == a[1..] + b;
      ArgumentsAppend(a[1..], b);
    }
  }

  lemma ArgumentsSnoc(argv: seq<bytes>, j: nat)
    requires j < |argv|
    ensures Arguments(argv[..j + 1]) == Arguments(argv[..j]) + Argument(argv[j])
  {
    assert argv[..j + 1] == argv[..j] + [argv[j]];
    ArgumentsAppend(argv[..j], [argv[j]]);
    var last: seq<bytes> := [argv[j]];
    assert last[1..] == [];
    assert Arguments(last) == Argument(argv[j]) + [];
  }

  lemma ArgumentsSplit(argv: seq<bytes>, j: nat)
    requires j <= |argv|
    ensures Arguments(argv) == Arguments(argv[..j]) + Arguments(argv[j..])
  {
    hide Arguments;
    assert argv == argv[..j] + argv[j..];
    ArgumentsAppend(argv[..j], argv[j..]);
  }

  method BulkLen(len: nat) returns (r: nat)
    ensures forall arg: bytes :: |arg| == len ==> r == |Argument(arg)|
  {
    var d := CountDigits(len);
    r := 1 + d + 2 + len + 2;
  }

  /** The size both formatters compute before writing anything. */
  method TotalLength(argv: seq<bytes>) returns (totlen: nat)
    ensures totlen == |Command(argv)|
  {
    var d := CountDigits(|argv|);
    totlen := 1 + d + 2;
    for j := 0 to |argv|
      invariant totlen == 1 + d + 2 + |Arguments(argv[..j])|
    {
      var b := BulkLen(|argv[j]|);
      assert b == |Argument(argv[j])|;
      ArgumentsSnoc(argv, j);
      totlen := totlen + b;
    }
    assert argv[..|argv|] == argv;
  }

  /** memcpy(cmd + pos, data, |data|). */
  method Put(cmd: array<byte>, pos: nat, data: bytes) returns (next: nat)
    requires pos + |data| <= cmd.Length
    modifies cmd
    ensures next == pos + |data|
    ensures cmd[..next] == old(cmd[..pos]) + data
  {
    forall i | 0 <= i < |data| { cmd[pos + i] := data[i]; }
    next := pos + |data|;
  }

  /** The loop body of redisFormatCommandArgv. */
  method PutArgument(cmd: array<byte>, pos: nat, arg: bytes) returns (next: nat)
    requires pos + |Argument(arg)| <= cmd.Length
    modifies cmd
    ensures next == pos + |Argument(arg)|
    ensures cmd[..next] == old(cmd[..pos]) + Argument(arg)
  {
    ghost var start := [DOLLAR] + Decimal(|arg|) + CRLF;
    next := Put(cmd, pos, [DOLLAR] + Decimal(|arg|) + CRLF);
    next := Put(cmd, next, arg);
    cmd[next], next := CR, next + 1;
    cmd[next], next := LF, next + 1;
    assert cmd[..next] == old(cmd[..pos]) + start + arg + CRLF;
    assert old(cmd[..pos]) + start + arg + CRLF == old(cmd[..pos]) + Argument(arg);
  }

  /** redisFormatCommandArgv: an exactly sized buffer filled while advancing pos. */
  method FormatCommandArgv(argv: seq<bytes>) returns (cmd: array<byte>, totlen: nat)
    requires |Command(argv)| <= INT_MAX
    ensures fresh(cmd) && totlen == |Command(argv)| && cmd.Length == totlen + 1
    ensures cmd[..totlen] == Command(argv) && cmd[totlen] == NUL
  {
    hide Argument, Arguments;
    totlen := TotalLength(argv);
    cmd := new byte[totlen + 1];
    var header := [STAR] + Decimal(|argv|) + CRLF;
    var pos: nat := Put(cmd, 0, header);
    assert cmd[..0] == [];
    ArgumentsNone(argv[..0]);
    for j := 0 to |argv|
      invariant pos <= totlen && cmd[..pos] == header + Arguments(argv[..j])
    {
      ghost var was := cmd[..pos];
      ArgumentsSnoc(argv, j);
      ArgumentsSplit(argv, j + 1);
      assert was + Argument(argv[j]) == header + Arguments(argv[..j + 1]);
      pos := PutArgument(cmd, pos, argv[j]);
    }
    assert argv[..|argv|] == argv;
    cmd[pos] := NUL;
  }

  lemma ArgumentsNone(argv: seq<bytes>)
    requires argv == []
    ensures Arguments(argv) == []
  {
  }

  /** redisFormatSdsCommandArgv: the same text by appending to a dynamic string. */
  method FormatSdsCommandArgv(argv: seq<bytes>) returns (cmd: bytes, totlen: nat)
    requires |Command(argv)| <= INT_MAX
    ensures cmd == Command(argv) && totlen == |cmd|
  {
    hide Argument, Arguments, Decimal;
    totlen := TotalLength(argv);
    cmd := [STAR] + Decimal(|argv|) + CRLF;
    ArgumentsNone(argv[..0]);
    for j := 0 to |argv|
      invariant cmd == [STAR] + Decimal(|argv|) + CRLF + Arguments(argv[..j])
    {
      ArgumentsSnoc(argv, j);
      ArgumentPieces(cmd, argv[j]);
      cmd := cmd + ([DOLLAR] + Decimal(|argv[j]|) + CRLF);
      cmd := cmd + argv[j];
      cmd := cmd + CRLF;
    }
    assert argv[..|argv|] == argv;
  }

  lemma ArgumentPieces(was: bytes, arg: bytes)
    ensures was + ([DOLLAR] + Decimal(|arg|) + CRLF) + arg + CRLF == was + Argument(arg)
  {
    hide Decimal;
  }

  // ----- the reader undoes the formatters -----

  function Strings(argv: seq<bytes>): (s: seq<Reply>)
    ensures |s| == |argv| && forall i :: 0 <= i < |argv| ==> s[i] == Text(TString, argv[i])
  {
    seq(|argv|, i requires 0 <= i < |argv| => Text(TString, argv[i]))
  }

  lemma {:induction false} ArgumentsBounds(argv: seq<bytes>)
    ensures |argv| <= |Arguments(argv)|
    ensures forall i :: 0 <= i < |argv| ==> |argv[i]| <= |Arguments(argv)|
  {
    if argv != [] { ArgumentsBounds(argv[1..]); }
  }

  lemma {:induction false} EncodeStrings(argv: seq<bytes>)
    requires forall i :: 0 <= i < |argv| ==> |argv[i]| <= LLONG_MAX
    ensures EncodeAll(Strings(argv)) == Arguments(argv)
  {
    if argv != [] {
      EncodeStrings(argv[1..]);
      assert Strings(argv)[1..] == Strings(argv[1..]);
      assert [DOLLAR] + Bulk(argv[0]) == Argument(argv[0]);
    }
  }

  /** A formatted command is read back as the array of its arguments. */
  lemma ParseCommand(dbl: Doubles, argv: seq<bytes>, x: bytes)
    requires |Command(argv)| <= INT_MAX
    ensures ParseReply(dbl, Command(argv) + x) == Done(Aggregate(TArray, Strings(argv)), x)
  {
    ArgumentsBounds(argv);
    EncodeStrings(argv);
    var v := Aggregate(TArray, Strings(argv));
    assert Encode(v) == Command(argv);
    ParseEncode(dbl, v, x);
  }

  /** Format, transmit in any pieces, read: the same arguments arrive. */
  method Echo(dbl: Doubles, argv: seq<bytes>, cuts: seq<bytes>) returns (replies: seq<Reply>)
    requires |Command(argv)| <= INT_MAX && Concat(cuts) == Command(argv)
    ensures replies == [Aggregate(TArray, Strings(argv))]
  {
    var failure;
    replies, failure := RespReader.Session(dbl, cuts);
    ParseCommand(dbl, argv, []);
    assert Command(argv) + [] == Command(argv);
    RespReader.StreamOfNothing(dbl);
  }

  // ----- nextArgument of src/hiredis/async.c -----

  /** strchr on a NUL-terminated text, for a character other than NUL. */
  function Strchr(s: bytes, i: nat, c: byte): (r: Option<nat>)
    ensures r.Some? ==> i <= r.value < |s| && s[r.value] == c
    decreases |s| - i
  {
    if i >= |s| || s[i] == NUL then None
    else if s[i] == c then Some(i)
    else Strchr(s, i + 1, c)
  }

  lemma {:induction false} StrchrFinds(s: bytes, i: nat, c: byte, k: nat)
    requires i <= k < |s| && s[k] == c && c != NUL
    requires forall j :: i <= j < k ==> s[j] != c && s[j] != NUL
    ensures Strchr(s, i, c) == Some(k)
    decreases k - i
  {
    if i < k { StrchrFinds(s, i + 1, c, k); }
  }

  predicate IsSpace(b: byte) { b == 32 || 9 <= b <= 13 }

  /** strtol in base 10: blanks, an optional sign, digits; the rest is ignored and the value saturates. */
  function Strtol(s: bytes, i: nat): int
    decreases |s| - i
  {
    if i < |s| && IsSpace(s[i]) then Strtol(s, i + 1)
    else if i < |s| && s[i] == MINUS then Clamp(-(ScanDigits(s, i + 1, 0) as int))
    else if i < |s| && s[i] == 43 then Clamp(ScanDigits(s, i + 1, 0))
    else Clamp(ScanDigits(s, i, 0))
  }

  function Clamp(v: int): int {
    if v > LLONG_MAX then LLONG_MAX else if v < LLONG_MIN then LLONG_MIN else v
  }

  function ScanDigits(s: bytes, i: nat, acc: nat): nat
    decreases |s| - i
  {
    if i < |s| && IsDigit(s[i]) then ScanDigits(s, i + 1, 10 * acc + (s[i] - ZERO)) else acc
  }

  /** The conversions (int) and then size_t. */
  function ToSize(v: int): nat {
    var w := (v + 0x8000_0000) % 0x1_0000_0000 - 0x8000_0000;
    if w < 0 then w + 0x1_0000_0000_0000_0000 else w
  }

  datatype Argument' = End | Found(str: nat, len: nat, next: nat) | Aborted

  function NextArgument(s: bytes, start: nat): Argument' {
    match (if start < |s| && s[start] == DOLLAR then Some(start) else Strchr(s, start, DOLLAR))
    case None => End
    case Some(p) =>
      var len := ToSize(Strtol(s, p + 1));
      match Strchr(s, p, CR)
      case None => Aborted
      case Some(q) => Found(q + 2, len, q + 2 + len + 2)
  }

  lemma {:induction false} ScanDigitsValue(s: bytes, i: nat, d: bytes, k: nat)
    requires AllDigits(d) && k <= |d| && i + |d| < |s| && s[i..i + |d|] == d && !IsDigit(s[i + |d|])
    ensures ScanDigits(s, i + k, DigitsValue(d[..k])) == DigitsValue(d)
    decreases |d| - k
  {
    if k == |d| {
      assert d[..k] == d;
    } else {
      assert s[i + k] == s[i..i + |d|][k] == d[k];
      assert d[..k + 1][..k] == d[..k];
      ScanDigitsValue(s, i, d, k + 1);
    }
  }

  /** The text of a command with its terminating NUL, and where its j-th argument starts. */
  function CommandText(argv: seq<bytes>): bytes { Command(argv) + [NUL] }

  function ArgumentStart(argv: seq<bytes>, j: nat): nat
    requires j <= |argv|
  {
    3 + |Decimal(|argv|)| + |Arguments(argv[..j])|
  }

  lemma Middle(a: bytes, b: bytes, c: bytes)
    ensures (a + b + c)[|a|..|a| + |b|] == b
  {
  }

  /** One argument found in place. */
  lemma NextArgumentAt(before: bytes, arg: bytes, after: bytes)
    requires |arg| <= INT_MAX
    ensures var s, at := before + Argument(arg) + after, |before| + 3 + |Decimal(|arg|)|;
            NextArgument(s, |before|) == Found(at, |arg|, |before| + |Argument(arg)|)
            && s[at..at + |arg|] == arg
  {
    hide NextArgument, Digits;
    var s, d, start := before + Argument(arg) + after, Digits(|arg|), |before|;
    Layout(before, [DOLLAR], d, CRLF, arg, after);
    NextArgumentScan(s, start, d, |arg|);
  }

  /** Where the parts of an argument stand. */
  lemma Layout(before: bytes, sign: bytes, d: bytes, eol: bytes, arg: bytes, after: bytes)
    requires |sign| == 1 && |eol| == 2
    ensures var s, at := before + (sign + d + eol + arg + eol) + after, |before| + 1;
            && s[|before|] == sign[0] && s[at..at + |d|] == d && s[at + |d|] == eol[0]
            && s[at + |d| + 2..at + |d| + 2 + |arg|] == arg
  {
    var s := before + (sign + d + eol + arg + eol) + after;
    var head := before + sign;
    assert s == head + d + (eol + arg + eol + after);
    Middle(head, d, eol + arg + eol + after);
    assert s == (head + d + eol) + arg + (eol + after);
    Middle(head + d + eol, arg, eol + after);
  }

  lemma NextArgumentScan(s: bytes, start: nat, d: bytes, n: nat)
    requires n <= INT_MAX && d == Digits(n) && start + 1 + |d| < |s|
    requires s[start] == DOLLAR && s[start + 1..start + 1 + |d|] == d && s[start + 1 + |d|] == CR
    ensures NextArgument(s, start) == Found(start + 3 + |d|, n, start + 3 + |d| + n + 2)
  {
    hide Digits, Strtol, Strchr;
    ScanLength(s, start, d, n);
    forall j | start <= j < start + |d| + 1 ensures s[j] != CR && s[j] != NUL {
      if j > start { assert s[j] == s[start + 1..start + 1 + |d|][j - start - 1]; }
    }
    StrchrFinds(s, start, CR, start + |d| + 1);
  }

  /** The length in front of an argument. */
  lemma ScanLength(s: bytes, start: nat, d: bytes, n: nat)
    requires n <= INT_MAX && d == Digits(n) && start + 1 + |d| < |s|
    requires s[start + 1..start + 1 + |d|] == d && s[start + 1 + |d|] == CR
    ensures Strtol(s, start + 1) == n
  {
    assert d[..0] == [];
    ScanDigitsValue(s, start + 1, d, 0);
    DigitsValueOfDigits(n);
    assert s[start + 1] == s[start + 1..start + 1 + |d|][0];
  }

  lemma CommandSlice(argv: seq<bytes>, j: nat)
    requires j < |argv|
    ensures ArgumentStart(argv, j) + |Argument(argv[j])| == ArgumentStart(argv, j + 1)
    ensures ArgumentStart(argv, j) == |BeforeArgument(argv, j)|
    ensures CommandText(argv) == BeforeArgument(argv, j) + Argument(argv[j]) + AfterArgument(argv, j)
  {
    hide Argument;
    ArgumentsSnoc(argv, j);
    ArgumentsSplit(argv, j + 1);
  }

  function BeforeArgument(argv: seq<bytes>, j: nat): bytes
    requires j < |argv|
  {
    [STAR] + Decimal(|argv|) + CRLF + Arguments(argv[..j])
  }

  function AfterArgument(argv: seq<bytes>, j: nat): bytes
    requires j < |argv|
  {
    Arguments(argv[j + 1..]) + [NUL]
  }

  /** From the start of an argument, or from the head of the command for the first, the scanner yields it. */
  lemma NextArgumentOf(argv: seq<bytes>, j: nat, start: nat)
    requires |Command(argv)| <= INT_MAX && j < |argv|
    requires start == ArgumentStart(argv, j) || (j == 0 && start == 0)
    ensures var r := NextArgument(CommandText(argv), start);
            r.Found? && r.next == ArgumentStart(argv, j + 1)
            && r.str + r.len <= |CommandText(argv)| && CommandText(argv)[r.str..r.str + r.len] == argv[j]
  {
    hide Argument, Arguments, NextArgument;
    CommandSlice(argv, j);
    ArgumentsBounds(argv);
    NextArgumentAt(BeforeArgument(argv, j), argv[j], AfterArgument(argv, j));
    ArgumentSize(argv[j]);
    if start == 0 {
      HeaderSkipped(argv);
    }
  }

  lemma ArgumentSize(arg: bytes)
    ensures |Argument(arg)| == |Decimal(|arg|)| + |arg| + 5
  {
  }

  lemma HeaderSkipped(argv: seq<bytes>)
    requires |argv| > 0
    ensures NextArgument(CommandText(argv), 0) == NextArgument(CommandText(argv), ArgumentStart(argv, 0))
  {
    var s, d := CommandText(argv), Digits(|argv|);
    var at := ArgumentStart(argv, 0);
    assert at == 3 + |d|;
    assert s[at] == DOLLAR;
    forall k | 0 <= k < at ensures s[k] != DOLLAR && s[k] != NUL {
      if 1 <= k <= |d| { assert s[k] == d[k - 1] && IsDigit(d[k - 1]); }
    }
    StrchrFinds(s, 0, DOLLAR, at);
  }

  /** Repeated calls list the arguments of a formatted command, in order, and then stop. */
  method ListArguments(s: bytes, ghost argv: seq<bytes>) returns (args: seq<bytes>)
    requires |Command(argv)| <= INT_MAX && s == CommandText(argv)
    ensures args == argv
  {
    hide NextArgument, Command, Argument, Arguments;
    args := [];
    var p := 0;
    while true
      invariant |args| <= |argv| && args == argv[..|args|]
      invariant p == ArgumentStart(argv, |args|) || (args == [] && p == 0)
      decreases |argv| - |args|
    {
      if |args| < |argv| { NextArgumentOf(argv, |args|, p); } else { NoMoreArguments(argv, p); }
      var r := NextArgument(s, p);
      if !r.Found? { break; }
      args, p := args + [s[r.str..r.str + r.len]], r.next;
    }
  }

  lemma NoMoreArguments(argv: seq<bytes>, p: nat)
    requires p == ArgumentStart(argv, |argv|) || (argv == [] && p == 0)
    ensures NextArgument(CommandText(argv), p) == End
  {
    assert argv[..|argv|] == argv;
    var s := CommandText(argv);
    if argv == [] {
      assert Decimal(0) == [ZERO];
      assert s == [STAR, ZERO, CR, LF, NUL];
      assert Strchr(s, 4, DOLLAR) == None;
      assert Strchr(s, 3, DOLLAR) == None;
      assert Strchr(s, 2, DOLLAR) == None;
      assert Strchr(s, 1, DOLLAR) == None;
    }
  }
}
