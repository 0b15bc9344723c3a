/**
 JSON values: the recursive printer do_dump of src/jansson/src/dump.c, the recursive parser of
 src/jansson/src/load.c, and the round trip between them.
 */
module JsonValue {
  import opened Bytes
  import Utf8
  import opened JsonString
  import opened JsonLex
  import HashTable

  type Member = HashTable.Entry<Json>

  /** An object is its members in insertion order; a real stands for the text printed for it. */
  datatype Json =
    | Null
    | Boolean(b: bool)
    | Integer(v: int)
    | Real(text: bytes)
    | Text(s: bytes)
    | Array(items: seq<Json>)
    | Object(members: seq<HashTable.Entry<Json>>)

  const OPEN_BRACE: byte := 123
  const CLOSE_BRACE: byte := 125
  const OPEN_BRACKET: byte := 91
  const CLOSE_BRACKET: byte := 93
  const COLON: byte := 58
  const COMMA: byte := 44
  const SPACE: byte := 32

  const MAX_DEPTH: nat := 2048

  // ----- printing -----

  /** The formatting flags: the low bits give the indentation width, JSON_COMPACT drops the blanks. */
  datatype Layout = Layout(indent: nat, compact: bool, escapes: Flags)

  /** dump_indent. */
  function Pad(l: Layout, depth: nat, space: bool): (s: bytes)
    ensures AllBlank(s)
  {
    if l.indent > 0 then [LF] + Spaces(depth * l.indent)
    else if space && !l.compact then [SPACE]
    else []
  }

  function Separator(l: Layout): bytes { if l.compact then [COLON] else [COLON, SPACE] }

  /** Every string value is UTF-8; the failure of printing a key is ignored. */
  predicate Dumpable(v: Json) {
    match v
    case Text(s) => Utf8.Valid(s)
    case Array(items) => forall i :: 0 <= i < |items| ==> Dumpable(items[i])
    case Object(ms) => forall i :: 0 <= i < |ms| ==> Dumpable(ms[i].value)
    case _ => true
  }

  /** The text do_dump writes. */
  function Dump(v: Json, l: Layout, depth: nat): bytes
    requires Dumpable(v)
    decreases v
  {
    match v
    case Null => NULL_TEXT
    case Boolean(b) => if b then TRUE_TEXT else FALSE_TEXT
    case Integer(n) => Decimal(n)
    case Real(text) => text
    case Text(s) => Quoted(s, l)
    case Array(items) =>
      if items == [] then [OPEN_BRACKET, CLOSE_BRACKET]
      else [OPEN_BRACKET] + Pad(l, depth + 1, false) + DumpItems(v, 0, l, depth) + [CLOSE_BRACKET]
    case Object(ms) =>
      if ms == [] then [OPEN_BRACE, CLOSE_BRACE]
      else [OPEN_BRACE] + Pad(l, depth + 1, false) + DumpMembers(v, 0, l, depth) + [CLOSE_BRACE]
  }

  function Quoted(s: bytes, l: Layout): bytes { Written(s, l.escapes) }

  lemma QuotedLiteral(s: bytes, l: Layout)
    requires Utf8.Valid(s)
    ensures Literal(s, l.escapes) == Some(Quoted(s, l))
  {
    WrittenLiteral(s, l.escapes);
  }

  lemma TwoItems(a: Json, b: Json, l: Layout)
    requires Dumpable(a) && Dumpable(b)
    ensures var v := Array([a, b]);
            && Dumpable(v)
            && Dump(v, l, 0) == [OPEN_BRACKET] + Pad(l, 1, false) + (Dump(a, l, 1) + ([COMMA] + Pad(l, 1, true))
                                + (Dump(b, l, 1) + Pad(l, 0, false))) + [CLOSE_BRACKET]
  {
    hide Pad;
    var v := Array([a, b]);
    assert v.items[0] == a && v.items[1] == b;
    assert Dumpable(v);
    assert DumpItems(v, 2, l, 0) == [];
    assert DumpItems(v, 1, l, 0) == Dump(b, l, 1) + Pad(l, 0, false) + [];
    assert DumpItems(v, 0, l, 0) == Dump(a, l, 1) + ([COMMA] + Pad(l, 1, true)) + DumpItems(v, 1, l, 0);
  }

  /** The text of a list of two words or numbers: compact, with blanks, and indented by n. */
  lemma DumpPair(a: int, b: int, f: Flags, n: nat)
    requires n > 0
    ensures var v, x, y := Array([Integer(a), Integer(b)]), Decimal(a), Decimal(b);
            && Dumpable(v)
            && Dump(v, Layout(0, true, f), 0) == ['[' as int] + x + [',' as int] + y + [']' as int]
            && Dump(v, Layout(0, false, f), 0) == ['[' as int] + x + [',' as int, ' ' as int] + y + [']' as int]
            && Dump(v, Layout(n, true, f), 0) ==
                 ['[' as int, 10] + Spaces(n) + x + [',' as int, 10] + Spaces(n) + y + [10, ']' as int]
  {
    hide Decimal, Spaces;
    var x, y := Decimal(a), Decimal(b);
    TwoItems(Integer(a), Integer(b), Layout(0, true, f));
    TwoItems(Integer(a), Integer(b), Layout(0, false, f));
    TwoItems(Integer(a), Integer(b), Layout(n, true, f));
    assert Spaces(0 * n) == [] && Spaces(1 * n) == Spaces(n);
    PairJoin(x, y, []);
    PairJoin(x, y, [SPACE]);
    IndentJoin(x, y, Spaces(n));
  }

  lemma PairJoin(x: bytes, y: bytes, gap: bytes)
    ensures [OPEN_BRACKET] + [] + (x + ([COMMA] + gap) + (y + [])) + [CLOSE_BRACKET]
            == [OPEN_BRACKET] + x + ([COMMA] + gap) + y + [CLOSE_BRACKET]
    ensures [COMMA] + [] == [COMMA] && [COMMA] + [SPACE] == [COMMA, SPACE]
  {
  }

  lemma IndentJoin(x: bytes, y: bytes, w: bytes)
    ensures [OPEN_BRACKET] + ([LF] + w) + (x + ([COMMA] + ([LF] + w)) + (y + ([LF] + []))) + [CLOSE_BRACKET]
            == [OPEN_BRACKET, LF] + w + x + [COMMA, LF] + w + y + [LF, CLOSE_BRACKET]
  {
    var front, back := [OPEN_BRACKET, LF] + w + x, w + y + [LF, CLOSE_BRACKET];
    assert [OPEN_BRACKET] + ([LF] + w) + x == front;
    assert w + (y + ([LF] + [])) + [CLOSE_BRACKET] == back;
  }

  /** The blanks of a layout: a line feed and the indentation, or a space where asked for, or nothing. */
  lemma LayoutForms(l: Layout, d: nat)
    ensures l.indent > 0 ==> Pad(l, d, false) == Pad(l, d, true) == [10] + Spaces(d * l.indent)
    ensures l.indent == 0 ==> Pad(l, d, false) == [] && Pad(l, d, true) == if l.compact then [] else [' ' as int]
    ensures Separator(l) == if l.compact then [':' as int] else [':' as int, ' ' as int]
  {
  }

  /** A key that is not UTF-8 does not stop the printer: no closing quote is written. */
  lemma BadKey(l: Layout)
    requires l.compact && l.indent == 0
    ensures var v := Object([HashTable.Entry([0xFF], Null)]);
            Dumpable(v) && Dump(v, l, 0) == [OPEN_BRACE, QUOTE, COLON] + NULL_TEXT + [CLOSE_BRACE]
  {
    var v := Object([HashTable.Entry([0xFF], Null)]);
    assert Utf8.Iterate([0xFF]) == None;
    assert Quoted([0xFF], l) == [QUOTE];
    assert Dump(Null, l, 1) == NULL_TEXT;
    assert DumpMembers(v, 1, l, 0) == [];
    assert DumpMembers(v, 0, l, 0) == [QUOTE] + [COLON] + NULL_TEXT + [] + [];
  }

  /** What follows an element: the separator, or the padding before the closing bracket. */
  function Joint(last: bool, l: Layout, depth: nat): bytes {
    if last then Pad(l, depth, false) else [COMMA] + Pad(l, depth + 1, true)
  }

  /** The elements of an array from the i-th on. */
  function DumpItems(v: Json, i: nat, l: Layout, depth: nat): bytes
    requires Dumpable(v) && v.Array? && i <= |v.items|
    decreases v, |v.items| - i
  {
    if i == |v.items| then []
    else Dump(v.items[i], l, depth + 1) + Joint(i + 1 == |v.items|, l, depth) + DumpItems(v, i + 1, l, depth)
  }

  /** The members of an object from the i-th on. */
  function DumpMembers(v: Json, i: nat, l: Layout, depth: nat): bytes
    requires Dumpable(v) && v.Object? && i <= |v.members|
    decreases v, |v.members| - i
  {
    if i == |v.members| then []
    else
      Quoted(v.members[i].key, l) + Separator(l) + Dump(v.members[i].value, l, depth + 1)
      + Joint(i + 1 == |v.members|, l, depth) + DumpMembers(v, i + 1, l, depth)
  }

  // ----- parsing -----

  datatype LoadFlags = LoadFlags(decodeAny: bool, allowNul: bool, rejectDuplicates: bool, disableEofCheck: bool)

  predicate NulFree(s: bytes) { forall i :: 0 <= i < |s| ==> s[i] != NUL }

  /** parse_value, on the current token; `depth` is the number of enclosing values. */
  function ParseValue(tok: Token, s: Stream, depth: nat, fl: LoadFlags): (r: Option<(Json, Stream)>)
    requires WellFormed(s)
    ensures r.Some? ==> WellFormed(r.value.1) && |r.value.1.rest| <= |s.rest|
    decreases |s.rest|, 0
  {
    if depth + 1 > MAX_DEPTH then None
    else match tok
      case StringToken(val) => if !fl.allowNul && !NulFree(val) then None else Some((Text(val), s))
      case IntegerToken(v) => Some((Integer(v), s))
      case RealToken(text) => Some((Real(text), s))
      case TrueToken => Some((Boolean(true), s))
      case FalseToken => Some((Boolean(false), s))
      case NullToken => Some((Null, s))
      case Punct(c) =>
        if c == OPEN_BRACE then
          var (t, s1) := Scan(s);
          if t == Punct(CLOSE_BRACE) then Some((Object([]), s1))
          else if !t.StringToken? then None
          else match ParseMembers(t, s1, depth + 1, fl, [])
            case None => None
            case Some((ms, s2)) => Some((Object(ms), s2))
        else if c == OPEN_BRACKET then
          var (t, s1) := Scan(s);
          if t == Punct(CLOSE_BRACKET) then Some((Array([]), s1))
          else if t == Invalid || t == EndToken then None
          else match ParseItems(t, s1, depth + 1, fl, [])
            case None => None
            case Some((vs, s2)) => Some((Array(vs), s2))
        else None
      case Invalid => None
      case EndToken => None
  }

  /** The loop of parse_array. */
  function ParseItems(tok: Token, s: Stream, depth: nat, fl: LoadFlags, acc: seq<Json>)
    : (r: Option<(seq<Json>, Stream)>)
    requires WellFormed(s)
    ensures r.Some? ==> WellFormed(r.value.1) && |r.value.1.rest| <= |s.rest|
    decreases |s.rest|, 1
  {
    match ParseValue(tok, s, depth, fl)
    case None => None
    case Some((v, s1)) =>
      var (t, s2) := Scan(s1);
      if t == Punct(COMMA) then
        var (t', s3) := Scan(s2);
        ParseItems(t', s3, depth, fl, acc + [v])
      else if t == Punct(CLOSE_BRACKET) then Some((acc + [v], s2))
      else None
  }

  /** The loop of parse_object. */
  function ParseMembers(tok: Token, s: Stream, depth: nat, fl: LoadFlags, acc: seq<Member>)
    : (r: Option<(seq<Member>, Stream)>)
    requires WellFormed(s)
    ensures r.Some? ==> WellFormed(r.value.1) && |r.value.1.rest| <= |s.rest|
    decreases |s.rest|, 1
  {
    if !tok.StringToken? || !NulFree(tok.val) then None
    else if fl.rejectDuplicates && HashTable.Lookup(acc, tok.val).Some? then None
    else
      var (colon, s1) := Scan(s);
      if colon != Punct(COLON) then None
      else
        var (t, s2) := Scan(s1);
        match ParseValue(t, s2, depth, fl)
        case None => None
        case Some((v, s3)) =>
          var (t', s4) := Scan(s3);
          var ms := HashTable.Put(acc, tok.val, v);
          if t' == Punct(COMMA) then
            var (t'', s5) := Scan(s4);
            ParseMembers(t'', s5, depth, fl, ms)
          else if t' == Punct(CLOSE_BRACE) then Some((ms, s4))
          else None
  }

  /** parse_json over a buffer. */
  function Load(x: bytes, fl: LoadFlags): Option<Json> {
    var (t, s) := Scan(Start(x));
    if !fl.decodeAny && t != Punct(OPEN_BRACKET) && t != Punct(OPEN_BRACE) then None
    else match ParseValue(t, s, 0, fl)
      case None => None
      case Some((v, s1)) => if fl.disableEofCheck || Scan(s1).0 == EndToken then Some(v) else None
  }

  // ----- the round trip -----

  /** The values whose printed text has an exact reading. */
  ghost predicate Loadable(v: Json, fl: LoadFlags) {
    match v
    case Integer(n) => LLONG_MIN <= n <= LLONG_MAX
    case Real(text) => IsReal(text)
    case Text(s) => Utf8.Valid(s) && (fl.allowNul || NulFree(s))
    case Array(items) => forall i :: 0 <= i < |items| ==> Loadable(items[i], fl)
    case Object(ms) =>
      HashTable.DistinctKeys(ms) && forall i :: 0 <= i < |ms| ==> KeyFine(ms[i].key) && Loadable(ms[i].value, fl)
    case _ => true
  }

  predicate KeyFine(k: bytes) { Utf8.Valid(k) && NulFree(k) }

  lemma {:induction false} LoadableDumpable(v: Json, fl: LoadFlags)
    requires Loadable(v, fl)
    ensures Dumpable(v)
  {
    match v
    case Array(items) =>
      forall i | 0 <= i < |items| ensures Dumpable(items[i]) { LoadableDumpable(items[i], fl); }
    case Object(ms) =>
      forall i | 0 <= i < |ms| ensures Dumpable(ms[i].value) {
        LoadableDumpable(ms[i].value, fl);
      }
    case _ =>
  }

  function Max(a: nat, b: nat): nat { if a < b then b else a }

  /** The nesting depth of a value. */
  function Height(v: Json): (h: nat)
    ensures h >= 1
    decreases v
  {
    match v
    case Array(items) => 1 + HeightItems(v, 0)
    case Object(ms) => 1 + HeightMembers(v, 0)
    case _ => 1
  }

  function HeightItems(v: Json, i: nat): nat
    requires v.Array? && i <= |v.items|
    decreases v, |v.items| - i
  {
    if i == |v.items| then 0 else Max(Height(v.items[i]), HeightItems(v, i + 1))
  }

  function HeightMembers(v: Json, i: nat): nat
    requires v.Object? && i <= |v.members|
    decreases v, |v.members| - i
  {
    if i == |v.members| then 0 else Max(Height(v.members[i].value), HeightMembers(v, i + 1))
  }

  /** Reading the text of v before x, from a nesting of `depth`. */
  ghost predicate ReadsBack(v: Json, t: bytes, x: bytes, depth: nat, fl: LoadFlags) {
    var (tok, s) := Scan(Start(t + x));
    var r := ParseValue(tok, s, depth, fl);
    && !tok.Invalid? && !tok.EndToken? && tok != Punct(CLOSE_BRACKET)
    && (r.Some? <==> depth + Height(v) <= MAX_DEPTH)
    && (r.Some? ==> r.value.0 == v && At(r.value.1, x))
  }

  /** Reading the elements of v from the i-th on, after the first i have been read. */
  ghost predicate ItemsReadBack(v: Json, i: nat, t: bytes, x: bytes, depth: nat, fl: LoadFlags)
    requires v.Array? && i < |v.items|
  {
    var (tok, s) := Scan(Start(t + ([CLOSE_BRACKET] + x)));
    var r := ParseItems(tok, s, depth, fl, v.items[..i]);
    && !tok.Invalid? && !tok.EndToken? && tok != Punct(CLOSE_BRACKET)
    && (r.Some? <==> depth + HeightItems(v, i) <= MAX_DEPTH)
    && (r.Some? ==> r.value == (v.items, Start(x)))
  }

  ghost predicate MembersReadBack(v: Json, i: nat, t: bytes, x: bytes, depth: nat, fl: LoadFlags)
    requires v.Object? && i < |v.members|
  {
    var (tok, s) := Scan(Start(t + ([CLOSE_BRACE] + x)));
    var r := ParseMembers(tok, s, depth, fl, v.members[..i]);
    && tok.StringToken?
    && (r.Some? <==> depth + HeightMembers(v, i) <= MAX_DEPTH)
    && (r.Some? ==> r.value == (v.members, Start(x)))
  }

  lemma LeafBack(v: Json, l: Layout, d: nat, x: bytes, depth: nat, fl: LoadFlags)
    requires Loadable(v, fl) && !v.Array? && !v.Object? && Delimited(x)
    ensures Dumpable(v) && ReadsBack(v, Dump(v, l, d), x, depth, fl)
  {
    hide Scan, Utf8.Valid, Decimal, Literal, Quoted;
    match v
    case Null => ScanWord(NULL_TEXT, x);
    case Boolean(b) => ScanWord(if b then TRUE_TEXT else FALSE_TEXT, x);
    case Integer(n) => ScanInteger(n, x);
    case Real(text) => ScanReal(text, x);
    case Text(s) => QuotedLiteral(s, l); ScanLiteral(s, l.escapes, x);
  }

  /** After an element: the closing bracket, or a comma and the next element. */
  lemma AfterElement(last: bool, close: byte, l: Layout, d: nat, y: bytes)
    requires IsPunct(close)
    ensures last ==> Delimited(Joint(last, l, d) + ([close] + y))
    ensures last ==> Scan(Start(Joint(last, l, d) + ([close] + y))) == (Punct(close), Start(y))
    ensures !last ==>
              var r := Scan(Start(Joint(last, l, d) + y));
              Delimited(Joint(last, l, d) + y) && r.0 == Punct(COMMA) && Scan(r.1) == Scan(Start(y))
  {
    hide Scan, Pad;
    if last {
      var p := Pad(l, d, false);
      ScanBlank(p, [close] + y);
      ScanPunct(close, y);
      if p == [] { assert p + ([close] + y) == [close] + y; }
    } else {
      var p := Pad(l, d + 1, true);
      assert [COMMA] + p + y == [COMMA] + (p + y);
      ScanPunct(COMMA, p + y);
      ScanBlank(p, y);
    }
  }

  lemma {:induction false} ValueBack(v: Json, l: Layout, d: nat, x: bytes, depth: nat, fl: LoadFlags)
    requires Loadable(v, fl) && Delimited(x)
    ensures Dumpable(v) && ReadsBack(v, Dump(v, l, d), x, depth, fl)
    decreases v
  {
    hide Scan, Utf8.Valid, Pad;
    LoadableDumpable(v, fl);
    match v
    case Array(items) =>
      if items != [] {
        ItemsBack(v, 0, l, d, x, depth + 1, fl);
        ArrayBack(v, l, d, x, depth, fl);
      } else {
        assert [OPEN_BRACKET, CLOSE_BRACKET] + x == [OPEN_BRACKET] + ([CLOSE_BRACKET] + x);
        ScanPunct(OPEN_BRACKET, [CLOSE_BRACKET] + x);
        ScanPunct(CLOSE_BRACKET, x);
      }
    case Object(ms) =>
      if ms != [] {
        MembersBack(v, 0, l, d, x, depth + 1, fl);
        ObjectBack(v, l, d, x, depth, fl);
      } else {
        assert [OPEN_BRACE, CLOSE_BRACE] + x == [OPEN_BRACE] + ([CLOSE_BRACE] + x);
        ScanPunct(OPEN_BRACE, [CLOSE_BRACE] + x);
        ScanPunct(CLOSE_BRACE, x);
      }
    case _ => LeafBack(v, l, d, x, depth, fl);
  }

  /** An array is read back once its elements are. */
  lemma ArrayBack(v: Json, l: Layout, d: nat, x: bytes, depth: nat, fl: LoadFlags)
    requires Dumpable(v) && v.Array? && v.items != []
    requires ItemsReadBack(v, 0, DumpItems(v, 0, l, d), x, depth + 1, fl)
    ensures ReadsBack(v, Dump(v, l, d), x, depth, fl)
  {
    hide Scan, Pad, DumpItems, ParseItems, HeightItems, Utf8.Valid;
    var p, t := Pad(l, d + 1, false), DumpItems(v, 0, l, d);
    assert Dump(v, l, d) + x == [OPEN_BRACKET] + (p + (t + ([CLOSE_BRACKET] + x)));
    ScanPunct(OPEN_BRACKET, p + (t + ([CLOSE_BRACKET] + x)));
    ScanBlank(p, t + ([CLOSE_BRACKET] + x));
    assert v.items[..0] == [];
  }

  lemma ObjectBack(v: Json, l: Layout, d: nat, x: bytes, depth: nat, fl: LoadFlags)
    requires Dumpable(v) && v.Object? && v.members != []
    requires MembersReadBack(v, 0, DumpMembers(v, 0, l, d), x, depth + 1, fl)
    ensures ReadsBack(v, Dump(v, l, d), x, depth, fl)
  {
    hide Scan, Pad, DumpMembers, ParseMembers, HeightMembers, Utf8.Valid;
    var p, t := Pad(l, d + 1, false), DumpMembers(v, 0, l, d);
    assert Dump(v, l, d) + x == [OPEN_BRACE] + (p + (t + ([CLOSE_BRACE] + x)));
    ScanPunct(OPEN_BRACE, p + (t + ([CLOSE_BRACE] + x)));
    ScanBlank(p, t + ([CLOSE_BRACE] + x));
    assert v.members[..0] == [];
  }

  /** What comes after an element that is followed by z: the end of the list, or the element at y. */
  ghost predicate Continues(last: bool, close: byte, z: bytes, y: bytes) {
    var r := Scan(Start(z));
    && z != []
    && (last ==> r == (Punct(close), Start(y)))
    && (!last ==> r.0 == Punct(COMMA) && Scan(r.1) == Scan(Start(y)))
  }

  lemma ElementEnds(last: bool, close: byte, l: Layout, d: nat, y: bytes, z: bytes)
    requires IsPunct(close) && z == Joint(last, l, d) + if last then [close] + y else y
    ensures Delimited(z) && Continues(last, close, z, y)
  {
    hide Scan, Pad, Delimited;
    AfterElement(last, close, l, d, y);
  }

  lemma ItemsNext(v: Json, i: nat, l: Layout, depth: nat)
    requires v.Array? && Dumpable(v) && i < |v.items|
    ensures DumpItems(v, i, l, depth) ==
              Dump(v.items[i], l, depth + 1) + Joint(i + 1 == |v.items|, l, depth) + DumpItems(v, i + 1, l, depth)
  {
    hide Pad, Dump, Joint;
  }

  lemma NoItemsLeft(v: Json, l: Layout, depth: nat)
    requires v.Array? && Dumpable(v)
    ensures DumpItems(v, |v.items|, l, depth) == []
  {
  }

  /** The text of the elements from one on, and what follows the list, around that element. */
  lemma ItemsAround(t: bytes, e: bytes, j: bytes, rest: bytes, after: bytes)
    requires t == e + j + rest
    ensures t + after == e + (j + (rest + after))
    ensures rest == [] ==> t + after == e + (j + after)
  {
    if rest == [] { assert rest + after == after; }
  }

  lemma {:induction false} ItemsBack(v: Json, i: nat, l: Layout, d: nat, x: bytes, depth: nat, fl: LoadFlags)
    requires Loadable(v, fl) && Dumpable(v) && v.Array? && i < |v.items|
    ensures ItemsReadBack(v, i, DumpItems(v, i, l, d), x, depth, fl)
    decreases v, |v.items| - i
  {
    hide Scan, Utf8.Valid, Pad, Joint, Dump, Height, ParseItems, ParseValue, ItemsReadBack, ReadsBack, HeightItems,
         DumpItems, Continues, Delimited;
    var last := i + 1 == |v.items|;
    var e, j, rest := Dump(v.items[i], l, d + 1), Joint(last, l, d), DumpItems(v, i + 1, l, d);
    var y := if last then x else rest + ([CLOSE_BRACKET] + x);
    var z := if last then j + ([CLOSE_BRACKET] + x) else j + y;
    ElementEnds(last, CLOSE_BRACKET, l, d, y, z);
    ItemsNext(v, i, l, d);
    if last { NoItemsLeft(v, l, d); }
    ItemsAround(DumpItems(v, i, l, d), e, j, rest, [CLOSE_BRACKET] + x);
    ValueBack(v.items[i], l, d + 1, z, depth, fl);
    if !last { ItemsBack(v, i + 1, l, d, x, depth, fl); }
    ItemsStep(v, i, DumpItems(v, i, l, d), e, z, rest, y, x, depth, fl);
  }

  lemma ItemsStep(v: Json, i: nat, t: bytes, e: bytes, z: bytes, rest: bytes, y: bytes, x: bytes, depth: nat,
                  fl: LoadFlags)
    requires v.Array? && i < |v.items|
    requires ReadsBack(v.items[i], e, z, depth, fl) && t + ([CLOSE_BRACKET] + x) == e + z
    requires Continues(i + 1 == |v.items|, CLOSE_BRACKET, z, y)
    requires i + 1 == |v.items| ==> y == x
    requires i + 1 < |v.items| ==> y == rest + ([CLOSE_BRACKET] + x) && ItemsReadBack(v, i + 1, rest, x, depth, fl)
    ensures ItemsReadBack(v, i, t, x, depth, fl)
  {
    hide Scan, ParseValue, Height;
    assert v.items[..i] + [v.items[i]] == v.items[..i + 1];
    if i + 1 == |v.items| {
      assert v.items[..i + 1] == v.items;
      assert HeightItems(v, i + 1) == 0;
    }
  }

  lemma {:induction false} MembersBack(v: Json, i: nat, l: Layout, d: nat, x: bytes, depth: nat, fl: LoadFlags)
    requires Loadable(v, fl) && Dumpable(v) && v.Object? && i < |v.members|
    ensures MembersReadBack(v, i, DumpMembers(v, i, l, d), x, depth, fl)
    decreases v, |v.members| - i
  {
    hide Scan, Utf8.Valid, Pad, Joint, Dump, Height, ParseMembers, ParseValue, MembersReadBack, ReadsBack,
         HeightMembers, DumpMembers, Quoted, Separator;
    var last := i + 1 == |v.members|;
    var key, e := v.members[i].key, Dump(v.members[i].value, l, d + 1);
    var j, rest := Joint(last, l, d), DumpMembers(v, i + 1, l, d);
    var y := if last then x else rest + ([CLOSE_BRACE] + x);
    AfterElement(last, CLOSE_BRACE, l, d, y);
    var z := if last then j + ([CLOSE_BRACE] + x) else j + y;
    MembersText(v, i, l, d, x);
    KeyBack(key, l, e + z);
    ValueBack(v.members[i].value, l, d + 1, z, depth, fl);
    if !last { MembersBack(v, i + 1, l, d, x, depth, fl); }
    MembersStep(v, i, DumpMembers(v, i, l, d), e, z, rest, y, x, depth, fl);
  }

  lemma MembersText(v: Json, i: nat, l: Layout, d: nat, x: bytes)
    requires Dumpable(v) && v.Object? && i < |v.members|
    ensures var last := i + 1 == |v.members|;
            var j, rest := Joint(last, l, d), DumpMembers(v, i + 1, l, d);
            var z := if last then j + ([CLOSE_BRACE] + x) else j + (rest + ([CLOSE_BRACE] + x));
            DumpMembers(v, i, l, d) + ([CLOSE_BRACE] + x) ==
            Quoted(v.members[i].key, l) + (Separator(l) + (Dump(v.members[i].value, l, d + 1) + z))
  {
    hide Quoted, Separator, Joint, Dump, Utf8.Valid;
  }

  lemma MembersStep(v: Json, i: nat, t: bytes, e: bytes, z: bytes, rest: bytes, y: bytes, x: bytes, depth: nat,
                    fl: LoadFlags)
    requires v.Object? && i < |v.members| && HashTable.DistinctKeys(v.members) && NulFree(v.members[i].key)
    requires ReadsBack(v.members[i].value, e, z, depth, fl)
    requires KeyReadBack(v.members[i].key, t + ([CLOSE_BRACE] + x), e + z)
    requires Continues(i + 1 == |v.members|, CLOSE_BRACE, z, y)
    requires i + 1 == |v.members| ==> y == x
    requires i + 1 < |v.members| ==> y == rest + ([CLOSE_BRACE] + x) && MembersReadBack(v, i + 1, rest, x, depth, fl)
    ensures MembersReadBack(v, i, t, x, depth, fl)
  {
    hide Scan, ParseValue, Height, HashTable.Put, HashTable.Lookup;
    PutNext(v.members, i);
    if i + 1 == |v.members| {
      assert v.members[..i + 1] == v.members;
      assert HeightMembers(v, i + 1) == 0;
    }
  }

  /** Reading a key and its colon leads to the value at y. */
  ghost predicate KeyReadBack(key: bytes, text: bytes, y: bytes) {
    var (tok, s) := Scan(Start(text));
    tok == StringToken(key) && Scan(s).0 == Punct(COLON) && Scan(Scan(s).1) == Scan(Start(y))
  }

  lemma KeyBack(key: bytes, l: Layout, y: bytes)
    requires Utf8.Valid(key)
    ensures KeyReadBack(key, Quoted(key, l) + (Separator(l) + y), y)
  {
    hide Scan, Literal, Utf8.Valid, Quoted;
    QuotedLiteral(key, l);
    ScanLiteral(key, l.escapes, Separator(l) + y);
    if l.compact {
      ScanPunct(COLON, y);
    } else {
      assert [COLON, SPACE] + y == [COLON] + ([SPACE] + y);
      ScanPunct(COLON, [SPACE] + y);
      ScanBlank([SPACE], y);
    }
  }

  /** Distinct keys are appended one after another. */
  lemma PutNext(ms: seq<Member>, i: nat)
    requires HashTable.DistinctKeys(ms) && i < |ms|
    ensures HashTable.Lookup(ms[..i], ms[i].key) == None
    ensures HashTable.Put(ms[..i], ms[i].key, ms[i].value) == ms[..i + 1]
  {
    HashTable.PutNew(ms[..i], ms[i].key, ms[i].value);
    assert ms[..i] + [ms[i]] == ms[..i + 1];
  }

  /**
   Loading the dump of a value gives the value back, keys in the same order, whatever the layout;
   it fails exactly when the value is nested more than 2048 deep.
   */
  lemma LoadDump(v: Json, l: Layout, fl: LoadFlags)
    requires Loadable(v, fl) && (v.Array? || v.Object? || fl.decodeAny)
    ensures Dumpable(v) && Load(Dump(v, l, 0), fl) == if Height(v) <= MAX_DEPTH then Some(v) else None
  {
    hide Scan, Dump, Height, ParseValue;
    ValueBack(v, l, 0, [], 0, fl);
    assert Dump(v, l, 0) + [] == Dump(v, l, 0);
    FirstToken(v, l, fl);
    var (tok, s) := Scan(Start(Dump(v, l, 0)));
    if Height(v) <= MAX_DEPTH {
      ScanEnd(ParseValue(tok, s, 0, fl).value.1);
    }
  }

  lemma FirstToken(v: Json, l: Layout, fl: LoadFlags)
    requires Dumpable(v)
    ensures v.Array? ==> Scan(Start(Dump(v, l, 0))).0 == Punct(OPEN_BRACKET)
    ensures v.Object? ==> Scan(Start(Dump(v, l, 0))).0 == Punct(OPEN_BRACE)
  {
    hide Scan, Utf8.Valid, Quoted, Pad, DumpItems, DumpMembers;
    if v.Array? {
      assert Dump(v, l, 0) == [OPEN_BRACKET] + Dump(v, l, 0)[1..];
      ScanPunct(OPEN_BRACKET, Dump(v, l, 0)[1..]);
    } else if v.Object? {
      assert Dump(v, l, 0) == [OPEN_BRACE] + Dump(v, l, 0)[1..];
      ScanPunct(OPEN_BRACE, Dump(v, l, 0)[1..]);
    }
  }
}
