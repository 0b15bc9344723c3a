/**
 The printer of src/jansson/src/dump.c as it runs: pieces of text appended to one output, proved
 to write JsonValue.Dump; with the reader it gives the round trip of whole runs.
 */
module JsonWriter {
  import opened Bytes
  import Utf8
  import opened JsonString
  import opened JsonLex
  import opened JsonValue
  import JsonReader
  import JsonSound

  lemma SpacesSplit(a: nat, b: nat)
    ensures Spaces(a) + Spaces(b) == Spaces(a + b)
  {
  }

  /** dump_indent: the blanks are written from a run of 32. */
  method DumpIndent(l: Layout, depth: nat, space: bool, out: bytes) returns (out': bytes)
    ensures out' == out + Pad(l, depth, space)
  {
    out' := out;
    if l.indent > 0 {
      var total := depth * l.indent;
      var left := total;
      out' := out' + [LF];
      while left > 0
        invariant 0 <= left <= total && out' == out + ([LF] + Spaces(total - left))
      {
        var n := if left < 32 then left else 32;
        SpacesSplit(total - left, n);
        out' := out' + Spaces(n);
        left := left - n;
      }
    } else if space && !l.compact {
      out' := out' + [SPACE];
    } else {
      assert out + [] == out;
    }
  }

  /** do_dump; false when some string value is not UTF-8. */
  method DoDump(v: Json, l: Layout, depth: nat, out: bytes) returns (ok: bool, out': bytes)
    ensures ok <==> Dumpable(v)
    ensures ok ==> out' == out + Dump(v, l, depth)
    decreases v
  {
    hide Decimal, Written;
    match v
    case Null => return true, out + NULL_TEXT;
    case Boolean(b) => return true, out + (if b then TRUE_TEXT else FALSE_TEXT);
    case Integer(n) => return true, out + Decimal(n);
    case Real(text) => return true, out + text;
    case Text(s) =>
      var text;
      ok, text := DumpString(s, l.escapes);
      return ok, out + text;
    case Array(_) => ok, out' := DumpArray(v, l, depth, out);
    case Object(_) => ok, out' := DumpObject(v, l, depth, out);
  }

  method DumpArray(v: Json, l: Layout, depth: nat, out: bytes) returns (ok: bool, out': bytes)
    requires v.Array?
    ensures ok <==> Dumpable(v)
    ensures ok ==> out' == out + Dump(v, l, depth)
    decreases v, 0
  {
    hide Pad, Joint, Utf8.Valid, DumpItems;
    var n := |v.items|;
    out' := out + [OPEN_BRACKET];
    if n == 0 {
      return true, out' + [CLOSE_BRACKET];
    }
    out' := DumpIndent(l, depth + 1, false, out');
    ghost var start := out';
    for i := 0 to n
      invariant forall k :: 0 <= k < i ==> Dumpable(v.items[k])
      invariant Dumpable(v) ==> start + DumpItems(v, 0, l, depth) == out' + DumpItems(v, i, l, depth)
    {
      ghost var before := out';
      ok, out' := DoDump(v.items[i], l, depth + 1, out');
      if !ok { return; }
      if i < n - 1 {
        out' := DumpIndent(l, depth + 1, true, out' + [COMMA]);
      } else {
        out' := DumpIndent(l, depth, false, out');
      }
      if Dumpable(v) { ItemsPiece(v, i, l, depth, before, out'); }
    }
    ItemsDone(v, l, depth);
    ArrayDone(v, l, depth, out, out');
    return true, out' + [CLOSE_BRACKET];
  }

  lemma ItemsDone(v: Json, l: Layout, depth: nat)
    requires v.Array? && Dumpable(v)
    ensures DumpItems(v, |v.items|, l, depth) == []
  {
  }

  lemma ItemsPiece(v: Json, i: nat, l: Layout, depth: nat, before: bytes, after: bytes)
    requires v.Array? && Dumpable(v) && i < |v.items|
    requires i + 1 < |v.items| ==> after == before + Dump(v.items[i], l, depth + 1) + [COMMA] + Pad(l, depth + 1, true)
    requires i + 1 == |v.items| ==> after == before + Dump(v.items[i], l, depth + 1) + Pad(l, depth, false)
    ensures before + DumpItems(v, i, l, depth) == after + DumpItems(v, i + 1, l, depth)
  {
    hide Pad, Dump, DumpItems, Joint;
    var e, j := Dump(v.items[i], l, depth + 1), Joint(i + 1 == |v.items|, l, depth);
    ItemsNext(v, i, l, depth);
    JointAfter(before + e, i + 1 == |v.items|, l, depth);
    RejoinItem(before, e, j, DumpItems(v, i + 1, l, depth));
  }

  lemma JointAfter(out: bytes, last: bool, l: Layout, depth: nat)
    ensures out + Joint(last, l, depth) ==
              if last then out + Pad(l, depth, false) else out + [COMMA] + Pad(l, depth + 1, true)
  {
    hide Pad;
    if !last {
      var pad := Pad(l, depth + 1, true);
      assert out + ([COMMA] + pad) == out + [COMMA] + pad;
    }
  }

  lemma RejoinItem(before: bytes, e: bytes, j: bytes, rest: bytes)
    ensures before + (e + j + rest) == before + e + j + rest
  {
  }

  lemma ArrayDone(v: Json, l: Layout, depth: nat, out: bytes, end: bytes)
    requires v.Array? && Dumpable(v) && v.items != []
    requires end + [] == out + [OPEN_BRACKET] + Pad(l, depth + 1, false) + DumpItems(v, 0, l, depth)
    ensures end + [CLOSE_BRACKET] == out + Dump(v, l, depth)
  {
    hide Pad, DumpItems;
    assert end + [] == end;
  }

  method DumpObject(v: Json, l: Layout, depth: nat, out: bytes) returns (ok: bool, out': bytes)
    requires v.Object?
    ensures ok <==> Dumpable(v)
    ensures ok ==> out' == out + Dump(v, l, depth)
    decreases v, 0
  {
    hide Pad, Joint, Utf8.Valid, DumpMembers, Separator;
    var n := |v.members|;
    out' := out + [OPEN_BRACE];
    if n == 0 {
      return true, out' + [CLOSE_BRACE];
    }
    out' := DumpIndent(l, depth + 1, false, out');
    ghost var start := out';
    var i := 0;
    while i < n
      invariant 0 <= i <= n
      invariant forall k :: 0 <= k < i ==> Dumpable(v.members[k].value)
      invariant Dumpable(v) ==> start + DumpMembers(v, 0, l, depth) == out' + DumpMembers(v, i, l, depth)
    {
      ghost var before := out';
      var _, key := DumpString(v.members[i].key, l.escapes);
      ok, out' := DoDump(v.members[i].value, l, depth + 1, out' + key + Separator(l));
      if !ok { return; }
      if i + 1 < n {
        out' := DumpIndent(l, depth + 1, true, out' + [COMMA]);
      } else {
        out' := DumpIndent(l, depth, false, out');
      }
      if Dumpable(v) { MembersPiece(v, i, l, depth, before, out'); }
      i := i + 1;
    }
    MembersDone(v, l, depth);
    ObjectDone(v, l, depth, out, out');
    return true, out' + [CLOSE_BRACE];
  }

  lemma MembersDone(v: Json, l: Layout, depth: nat)
    requires v.Object? && Dumpable(v)
    ensures DumpMembers(v, |v.members|, l, depth) == []
  {
  }

  lemma MembersPiece(v: Json, i: nat, l: Layout, depth: nat, before: bytes, after: bytes)
    requires v.Object? && Dumpable(v) && i < |v.members|
    requires var e := before + Quoted(v.members[i].key, l) + Separator(l) + Dump(v.members[i].value, l, depth + 1);
             && (i + 1 < |v.members| ==> after == e + [COMMA] + Pad(l, depth + 1, true))
             && (i + 1 == |v.members| ==> after == e + Pad(l, depth, false))
    ensures before + DumpMembers(v, i, l, depth) == after + DumpMembers(v, i + 1, l, depth)
  {
    hide Pad, Dump, Quoted, Separator, Utf8.Valid;
    var k, s, e := Quoted(v.members[i].key, l), Separator(l), Dump(v.members[i].value, l, depth + 1);
    var j, rest := Joint(i + 1 == |v.members|, l, depth), DumpMembers(v, i + 1, l, depth);
    Rejoin(before, k, s, e, j, rest);
    if i + 1 < |v.members| { assert before + k + s + e + j == after; }
  }

  lemma Rejoin(before: bytes, k: bytes, s: bytes, e: bytes, j: bytes, rest: bytes)
    ensures before + (k + s + e + j + rest) == before + k + s + e + j + rest
  {
  }

  lemma ObjectDone(v: Json, l: Layout, depth: nat, out: bytes, end: bytes)
    requires v.Object? && Dumpable(v) && v.members != []
    requires end + [] == out + [OPEN_BRACE] + Pad(l, depth + 1, false) + DumpMembers(v, 0, l, depth)
    ensures end + [CLOSE_BRACE] == out + Dump(v, l, depth)
  {
    hide Pad, DumpMembers;
    assert end + [] == end;
  }

  /** json_dumps followed by json_loadb. */
  method DumpAndLoad(v: Json, l: Layout, fl: LoadFlags) returns (r: Option<Json>)
    ensures v.Array? || v.Object? || fl.decodeAny ==>
              (r == Some(v) <==> Dumpable(v) && Loadable(v, fl) && Height(v) <= MAX_DEPTH)
    ensures Loadable(v, fl) && Height(v) > MAX_DEPTH && (v.Array? || v.Object? || fl.decodeAny) ==> r == None
  {
    hide Loadable, Dumpable, Height, Dump, Load;
    var ok, text := DoDump(v, l, 0, []);
    if !ok { return None; }
    assert text == Dump(v, l, 0);
    if v.Array? || v.Object? || fl.decodeAny {
      JsonSound.LoadDumpExactly(v, l, fl);
      if Loadable(v, fl) { LoadDump(v, l, fl); }
    }
    r := JsonReader.LoadBuffer(text, fl);
  }
}
