/**
 JSON documents as section 2 of RFC 8259 lets them be written, with blanks around every token and any
 spelling of the strings: json_loadb of src/jansson/src/load.c reads the value that was meant.
 */
module JsonDocument {
  import opened Bytes
  import opened JsonLex
  import opened JsonValue
  import opened JsonText
  import HashTable
  import JsonReader

  /** A value as it is written; the bytes around a value are blanks. */
  datatype Form =
    | Leaf(v: Json)
    | Quote(s: Spelling)
    | List(blank: bytes, items: seq<Element>)
    | Record(blank: bytes, members: seq<Pair>)

  datatype Element = Element(before: bytes, form: Form, after: bytes)

  datatype Pair = Pair(before: bytes, key: Spelling, gap: bytes, space: bytes, form: Form, after: bytes)

  predicate Blank(w: bytes) { forall i :: 0 <= i < |w| ==> w[i] == 32 || w[i] == 9 || w[i] == 10 || w[i] == 13 }

  lemma BlankIs(w: bytes)
    ensures Blank(w) <==> AllBlank(w)
  {
    if Blank(w) { assert forall i :: 0 <= i < |w| ==> IsBlank(w[i]); }
    if AllBlank(w) { assert forall i :: 0 <= i < |w| ==> IsBlank(w[i]); }
  }

  /** Words, numbers that fit in 64 bits, and texts of reals. */
  ghost predicate LeafFine(v: Json) {
    match v
    case Null => true
    case Boolean(_) => true
    case Integer(n) => -0x8000_0000_0000_0000 <= n <= 0x7fff_ffff_ffff_ffff
    case Real(t) => IsReal(t)
    case _ => false
  }

  function LeafText(v: Json): bytes {
    match v
    case Null => ['n' as int, 'u' as int, 'l' as int, 'l' as int]
    case Boolean(true) => ['t' as int, 'r' as int, 'u' as int, 'e' as int]
    case Boolean(false) => ['f' as int, 'a' as int, 'l' as int, 's' as int, 'e' as int]
    case Integer(n) => Decimal(n)
    case Real(t) => t
    case _ => []
  }

  function Quotation(s: Spelling): bytes
    requires Spells(s)
  {
    ['"' as int] + Inner(s) + ['"' as int]
  }

  /** NUL characters need a flag in a string, and cannot be in a key. */
  ghost predicate Fine(f: Form, fl: LoadFlags) {
    match f
    case Leaf(v) => LeafFine(v)
    case Quote(s) => Spells(s) && (fl.allowNul || NulFree(Meant(s)))
    case List(w, es) => Blank(w) && forall i :: 0 <= i < |es| ==> ElementFine(es[i], fl)
    case Record(w, ps) =>
      && Blank(w) && (forall i :: 0 <= i < |ps| ==> PairFine(ps[i], fl))
      && forall i, j :: 0 <= i < j < |ps| ==> Key(ps[i]) != Key(ps[j])
  }

  ghost predicate ElementFine(e: Element, fl: LoadFlags) { Blank(e.before) && Fine(e.form, fl) && Blank(e.after) }

  ghost predicate PairFine(p: Pair, fl: LoadFlags) {
    && Blank(p.before) && Spells(p.key) && NulFree(Meant(p.key)) && Blank(p.gap) && Blank(p.space)
    && Fine(p.form, fl) && Blank(p.after)
  }

  function Key(p: Pair): bytes { if Spells(p.key) then Meant(p.key) else [] }

  function Value(f: Form): Json {
    match f
    case Leaf(v) => v
    case Quote(s) => Text(if Spells(s) then Meant(s) else [])
    case List(_, es) => Array(seq(|es|, i requires 0 <= i < |es| => Value(es[i].form)))
    case Record(_, ps) =>
      Object(seq(|ps|, i requires 0 <= i < |ps| => HashTable.Entry(Key(ps[i]), Value(ps[i].form))))
  }

  ghost function TextOf(f: Form, fl: LoadFlags): bytes
    requires Fine(f, fl)
    decreases f
  {
    match f
    case Leaf(v) => LeafText(v)
    case Quote(s) => Quotation(s)
    case List(w, es) => ['[' as int] + (if es == [] then w else ItemsText(f, 0, fl)) + [']' as int]
    case Record(w, ps) => ['{' as int] + (if ps == [] then w else MembersOf(f, 0, fl)) + ['}' as int]
  }

  /** The elements from the i-th on. */
  ghost function ItemsText(f: Form, i: nat, fl: LoadFlags): bytes
    requires Fine(f, fl) && f.List? && i < |f.items|
    decreases f, |f.items| - i
  {
    var e := f.items[i];
    assert ElementFine(e, fl);
    e.before + TextOf(e.form, fl) + e.after + if i + 1 == |f.items| then [] else [',' as int] + ItemsText(f, i + 1, fl)
  }

  ghost function MembersOf(f: Form, i: nat, fl: LoadFlags): bytes
    requires Fine(f, fl) && f.Record? && i < |f.members|
    decreases f, |f.members| - i
  {
    var p := f.members[i];
    assert PairFine(p, fl);
    PairText(p, TextOf(p.form, fl))
    + if i + 1 == |f.members| then [] else [',' as int] + MembersOf(f, i + 1, fl)
  }

  /** A key and the text of its value. */
  function PairText(p: Pair, value: bytes): bytes
    requires Spells(p.key)
  {
    p.before + Quotation(p.key) + p.gap + [':' as int] + p.space + value + p.after
  }

  // ----- between tokens -----

  /** What comes after an element and its blanks. */
  lemma BlankEnds(last: bool, close: byte, w: bytes, y: bytes, z: bytes)
    requires IsPunct(close) && Blank(w) && z == w + ([if last then close else COMMA] + y)
    ensures Delimited(z) && Continues(last, close, z, y)
  {
    hide Scan;
    BlankIs(w);
    var c := if last then close else COMMA;
    ScanBlank(w, [c] + y);
    ScanPunct(c, y);
    if w == [] { assert z == [c] + y; } else { assert IsBlank(w[0]); }
  }

  /** Blanks before a value do not matter. */
  lemma BlankBefore(w: bytes, v: Json, t: bytes, x: bytes, depth: nat, fl: LoadFlags)
    requires Blank(w) && ReadsBack(v, t, x, depth, fl)
    ensures ReadsBack(v, w + t, x, depth, fl)
  {
    hide Scan, ParseValue, Height;
    BlankIs(w);
    ScanBlank(w, t + x);
    assert w + t + x == w + (t + x);
  }

  lemma LeafReads(v: Json, x: bytes, depth: nat, fl: LoadFlags)
    requires LeafFine(v) && Delimited(x)
    ensures ReadsBack(v, LeafText(v), x, depth, fl)
  {
    hide Scan, Decimal;
    match v
    case Null => ScanWord(NULL_TEXT, x);
    case Boolean(b) => ScanWord(if b then TRUE_TEXT else FALSE_TEXT, x);
    case Integer(n) => ScanInteger(n, x);
    case Real(text) => ScanReal(text, x);
  }

  lemma QuoteReads(s: Spelling, x: bytes, depth: nat, fl: LoadFlags)
    requires Spells(s) && (fl.allowNul || NulFree(Meant(s)))
    ensures ReadsBack(Text(Meant(s)), Quotation(s), x, depth, fl)
  {
    hide Scan, Meant, Inner;
    ScanSpelled(s, x);
  }

  // ----- values -----

  lemma {:induction false} FormReads(f: Form, x: bytes, depth: nat, fl: LoadFlags)
    requires Fine(f, fl) && Delimited(x)
    ensures ReadsBack(Value(f), TextOf(f, fl), x, depth, fl)
    decreases f
  {
    hide Scan, ReadsBack, ItemsReadBack, MembersReadBack, Spells, Meant, Inner, LeafFine, LeafText, Quotation, NulFree;
    match f
    case Leaf(v) => LeafReads(v, x, depth, fl);
    case Quote(s) => QuoteReads(s, x, depth, fl);
    case List(w, es) =>
      if es != [] {
        ItemsReads(f, 0, x, depth + 1, fl);
        ListReads(f, x, depth, fl);
      } else {
        EmptyReads(w, x, depth, fl);
        assert Value(f) == Array([]);
      }
    case Record(w, ps) =>
      if ps != [] {
        MembersReads(f, 0, x, depth + 1, fl);
        RecordReads(f, x, depth, fl);
      } else {
        EmptyReads(w, x, depth, fl);
        assert Value(f) == Object([]);
      }
  }

  lemma EmptyReads(w: bytes, x: bytes, depth: nat, fl: LoadFlags)
    requires Blank(w)
    ensures ReadsBack(Array([]), ['[' as int] + w + [']' as int], x, depth, fl)
    ensures ReadsBack(Object([]), ['{' as int] + w + ['}' as int], x, depth, fl)
  {
    hide Scan;
    BlankIs(w);
    ScanPunct(OPEN_BRACKET, w + ([CLOSE_BRACKET] + x));
    ScanBlank(w, [CLOSE_BRACKET] + x);
    ScanPunct(CLOSE_BRACKET, x);
    ScanPunct(OPEN_BRACE, w + ([CLOSE_BRACE] + x));
    ScanBlank(w, [CLOSE_BRACE] + x);
    ScanPunct(CLOSE_BRACE, x);
    assert [OPEN_BRACKET] + w + [CLOSE_BRACKET] + x == [OPEN_BRACKET] + (w + ([CLOSE_BRACKET] + x));
    assert [OPEN_BRACE] + w + [CLOSE_BRACE] + x == [OPEN_BRACE] + (w + ([CLOSE_BRACE] + x));
  }

  lemma ListReads(f: Form, x: bytes, depth: nat, fl: LoadFlags)
    requires Fine(f, fl) && f.List? && f.items != [] && Value(f).Array? && |Value(f).items| == |f.items|
    requires ItemsReadBack(Value(f), 0, ItemsText(f, 0, fl), x, depth + 1, fl)
    ensures ReadsBack(Value(f), TextOf(f, fl), x, depth, fl)
  {
    hide Scan, ItemsText, ParseItems, HeightItems, Value;
    var v, t := Value(f), ItemsText(f, 0, fl);
    assert TextOf(f, fl) + x == [OPEN_BRACKET] + (t + ([CLOSE_BRACKET] + x));
    ScanPunct(OPEN_BRACKET, t + ([CLOSE_BRACKET] + x));
    assert v.items[..0] == [];
  }

  lemma RecordReads(f: Form, x: bytes, depth: nat, fl: LoadFlags)
    requires Fine(f, fl) && f.Record? && f.members != [] && Value(f).Object? && |Value(f).members| == |f.members|
    requires MembersReadBack(Value(f), 0, MembersOf(f, 0, fl), x, depth + 1, fl)
    ensures ReadsBack(Value(f), TextOf(f, fl), x, depth, fl)
  {
    hide Scan, MembersOf, ParseMembers, HeightMembers, Value;
    var v, t := Value(f), MembersOf(f, 0, fl);
    assert TextOf(f, fl) + x == [OPEN_BRACE] + (t + ([CLOSE_BRACE] + x));
    ScanPunct(OPEN_BRACE, t + ([CLOSE_BRACE] + x));
    assert v.members[..0] == [];
  }

  lemma ItemsFirst(f: Form, i: nat, fl: LoadFlags)
    requires Fine(f, fl) && f.List? && i < |f.items|
    ensures ElementFine(f.items[i], fl) && Value(f).items[i] == Value(f.items[i].form)
    ensures var e := f.items[i];
            ItemsText(f, i, fl) == e.before + TextOf(e.form, fl) + e.after
                                   + if i + 1 == |f.items| then [] else [COMMA] + ItemsText(f, i + 1, fl)
  {
    hide TextOf;
  }

  /** What follows the i-th element. */
  lemma ItemsSplit(t: bytes, before: bytes, e: bytes, after: bytes, last: bool, rest: bytes, x: bytes)
    requires t == before + e + after + if last then [] else [COMMA] + rest
    ensures var y := if last then x else rest + ([CLOSE_BRACKET] + x);
            t + ([CLOSE_BRACKET] + x) == before + e + (after + ([if last then CLOSE_BRACKET else COMMA] + y))
  {
    if last { assert t == before + e + after; }
  }

  lemma {:induction false} ItemsReads(f: Form, i: nat, x: bytes, depth: nat, fl: LoadFlags)
    requires Fine(f, fl) && f.List? && i < |f.items|
    ensures Value(f).Array? && |Value(f).items| == |f.items|
    ensures ItemsReadBack(Value(f), i, ItemsText(f, i, fl), x, depth, fl)
    decreases f, |f.items| - i
  {
    hide Scan, ReadsBack, ItemsReadBack, ItemsText, TextOf, Continues, Delimited, Blank;
    ItemsFirst(f, i, fl);
    var e, last := f.items[i], i + 1 == |f.items|;
    var t := TextOf(e.form, fl);
    var rest := if last then [] else ItemsText(f, i + 1, fl);
    var y := if last then x else rest + ([CLOSE_BRACKET] + x);
    var z := e.after + ([if last then CLOSE_BRACKET else COMMA] + y);
    BlankEnds(last, CLOSE_BRACKET, e.after, y, z);
    FormReads(e.form, z, depth, fl);
    BlankBefore(e.before, Value(e.form), t, z, depth, fl);
    if !last { ItemsReads(f, i + 1, x, depth, fl); }
    ItemsSplit(ItemsText(f, i, fl), e.before, t, e.after, last, rest, x);
    ItemsStep(Value(f), i, ItemsText(f, i, fl), e.before + t, z, rest, y, x, depth, fl);
  }

  lemma MembersFirst(f: Form, i: nat, fl: LoadFlags)
    requires Fine(f, fl) && f.Record? && i < |f.members|
    ensures PairFine(f.members[i], fl)
    ensures Value(f).members[i] == HashTable.Entry(Key(f.members[i]), Value(f.members[i].form))
    ensures var p := f.members[i];
            MembersOf(f, i, fl) == PairText(p, TextOf(p.form, fl))
                                   + if i + 1 == |f.members| then [] else [COMMA] + MembersOf(f, i + 1, fl)
  {
    hide TextOf, PairText;
  }

  lemma KeysDiffer(f: Form, fl: LoadFlags)
    requires Fine(f, fl) && f.Record?
    ensures Value(f).Object? && |Value(f).members| == |f.members| && HashTable.DistinctKeys(Value(f).members)
  {
    hide Key, PairFine, Blank;
  }

  /** A key, its colon and the blanks around them. */
  lemma KeyReads(p: Pair, fl: LoadFlags, y: bytes)
    requires PairFine(p, fl)
    ensures KeyReadBack(Meant(p.key), p.before + (Quotation(p.key) + (p.gap + ([COLON] + (p.space + y)))), y)
  {
    hide Scan, Meant, Inner, Blank, Fine;
    BlankIs(p.before);
    BlankIs(p.gap);
    BlankIs(p.space);
    var after := p.gap + ([COLON] + (p.space + y));
    ScanBlank(p.before, Quotation(p.key) + after);
    ScanSpelled(p.key, after);
    ScanBlank(p.gap, [COLON] + (p.space + y));
    ScanPunct(COLON, p.space + y);
    ScanBlank(p.space, y);
  }

  lemma MembersSplit(t: bytes, b: bytes, q: bytes, g: bytes, s: bytes, e: bytes, after: bytes, last: bool, rest: bytes,
                     x: bytes)
    requires t == b + q + g + [COLON] + s + e + after + if last then [] else [COMMA] + rest
    ensures var y := if last then x else rest + ([CLOSE_BRACE] + x);
            var z := after + ([if last then CLOSE_BRACE else COMMA] + y);
            t + ([CLOSE_BRACE] + x) == b + (q + (g + ([COLON] + (s + (e + z)))))
  {
    var y := if last then x else rest + ([CLOSE_BRACE] + x);
    var z := after + ([if last then CLOSE_BRACE else COMMA] + y);
    var h := b + q + g + [COLON] + s + e;
    if last { assert t == h + after; }
    assert t + ([CLOSE_BRACE] + x) == h + z;
    assert h + z == b + (q + (g + ([COLON] + (s + (e + z)))));
  }

  lemma {:induction false} MembersReads(f: Form, i: nat, x: bytes, depth: nat, fl: LoadFlags)
    requires Fine(f, fl) && f.Record? && i < |f.members|
    ensures Value(f).Object? && |Value(f).members| == |f.members|
    ensures MembersReadBack(Value(f), i, MembersOf(f, i, fl), x, depth, fl)
    decreases f, |f.members| - i
  {
    hide Scan, ReadsBack, MembersReadBack, MembersOf, TextOf, Continues, Delimited, Blank, KeyReadBack, Quotation,
         Meant, Spells, NulFree;
    MembersFirst(f, i, fl);
    KeysDiffer(f, fl);
    var p, last := f.members[i], i + 1 == |f.members|;
    var t := TextOf(p.form, fl);
    var rest := if last then [] else MembersOf(f, i + 1, fl);
    var y := if last then x else rest + ([CLOSE_BRACE] + x);
    var z := p.after + ([if last then CLOSE_BRACE else COMMA] + y);
    BlankEnds(last, CLOSE_BRACE, p.after, y, z);
    FormReads(p.form, z, depth, fl);
    KeyReads(p, fl, t + z);
    if !last { MembersReads(f, i + 1, x, depth, fl); }
    MembersSplit(MembersOf(f, i, fl), p.before, Quotation(p.key), p.gap, p.space, t, p.after, last, rest, x);
    MembersStep(Value(f), i, MembersOf(f, i, fl), t, z, rest, y, x, depth, fl);
  }

  // ----- documents -----

  /** A document is read as the value meant, unless it is nested more than 2048 deep. */
  lemma LoadDocument(f: Form, before: bytes, after: bytes, fl: LoadFlags)
    requires Fine(f, fl) && Blank(before) && Blank(after) && (f.List? || f.Record? || fl.decodeAny)
    ensures Load(before + TextOf(f, fl) + after, fl) == if Height(Value(f)) <= 2048 then Some(Value(f)) else None
  {
    hide Scan, TextOf, Height, ParseValue, Blank;
    BlankIs(before);
    BlankIs(after);
    assert Delimited(after) by { if after != [] { assert IsBlank(after[0]); } }
    FormReads(f, after, 0, fl);
    BlankBefore(before, Value(f), TextOf(f, fl), after, 0, fl);
    OpensWith(f, before, after, fl);
    var (tok, s) := Scan(Start(before + TextOf(f, fl) + after));
    if Height(Value(f)) <= MAX_DEPTH {
      AtEnd(ParseValue(tok, s, 0, fl).value.1, after);
    }
  }

  lemma AtEnd(s: Stream, w: bytes)
    requires At(s, w) && AllBlank(w)
    ensures Scan(s).0 == EndToken
  {
    hide Scan;
    if w == [] {
      ScanEnd(s);
    } else {
      ScanBlank(w, []);
      assert w + [] == w;
      ScanEnd(Start([]));
    }
  }

  lemma OpensWith(f: Form, before: bytes, after: bytes, fl: LoadFlags)
    requires Fine(f, fl) && AllBlank(before)
    ensures f.List? ==> Scan(Start(before + TextOf(f, fl) + after)).0 == Punct(OPEN_BRACKET)
    ensures f.Record? ==> Scan(Start(before + TextOf(f, fl) + after)).0 == Punct(OPEN_BRACE)
  {
    hide Scan, ItemsText, MembersOf;
    var t := TextOf(f, fl);
    ScanBlank(before, t + after);
    assert before + t + after == before + (t + after);
    if f.List? || f.Record? {
      assert t + after == [t[0]] + (t[1..] + after);
      ScanPunct(t[0], t[1..] + after);
    }
  }

  /** The same of the buffer the reader is given. */
  method ReadDocument(text: bytes, ghost f: Form, ghost before: bytes, ghost after: bytes, fl: LoadFlags)
    returns (r: Option<Json>)
    requires Fine(f, fl) && Blank(before) && Blank(after) && (f.List? || f.Record? || fl.decodeAny)
    requires text == before + TextOf(f, fl) + after
    ensures r == if Height(Value(f)) <= 2048 then Some(Value(f)) else None
  {
    hide TextOf, Fine;
    r := JsonReader.LoadBuffer(text, fl);
    LoadDocument(f, before, after, fl);
  }
}
