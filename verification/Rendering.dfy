/** The depth-limited mutual recursion that prints attribute trees (otlp_common.c). */
module Rendering {
  import opened Bytes
  import opened Wire
  import opened Reading
  import opened Builder
  import opened Attributes

  // ------------------------ What is written ------------------------

  function Left(depth: nat): nat {
    if depth > MAX_DEPTH then 0 else MAX_DEPTH + 1 - depth
  }

  /** The fields of an AnyValue that the printer recognises. */
  predicate IsValue(f: Field) {
    || IsBytes(f, 1)
    || IsVarintField(f, 2)
    || IsVarintField(f, 3)
    || IsFixed64(f, 4)
    || IsBytes(f, 5)
    || IsBytes(f, 6)
    || IsBytes(f, 7)
  }

  predicate HasValue(fs: seq<Field>) {
    fs != [] && (IsValue(fs[0]) || HasValue(fs[1..]))
  }

  function AnyText(g: DoubleFormat, s: bytes, depth: nat): string
    decreases Left(depth), 5
  {
    if depth > MAX_DEPTH || !HasValue(Parse(s).fields) then "null"
    else ValuesText(g, Parse(s).fields, depth)
  }

  /** Every recognised field is printed, one after the other. */
  function ValuesText(g: DoubleFormat, fs: seq<Field>, depth: nat): string
    requires depth <= MAX_DEPTH
    decreases Left(depth), 4, |fs|
  {
    if fs == [] then "" else ValueText(g, fs[0], depth) + ValuesText(g, fs[1..], depth)
  }

  function ValueText(g: DoubleFormat, f: Field, depth: nat): string
    requires depth <= MAX_DEPTH
    decreases Left(depth), 3
  {
    if IsBytes(f, 1) then Quoted(f.val.data)
    else if IsVarintField(f, 2) then (if f.val.word != 0 then "true" else "false")
    else if IsVarintField(f, 3) then Decimal(ToInt64(f.val.word))
    else if IsFixed64(f, 4) then g(f.val.word)
    else if IsBytes(f, 5) then "[" + ListText(g, Parse(f.val.data).fields, true, depth) + "]"
    else if IsBytes(f, 6) then "{" + KvListText(g, Parse(f.val.data).fields, 1, true, depth) + "}"
    else if IsBytes(f, 7) then Quoted(HexBytes(f.val.data))
    else ""
  }

  /** The hex digits of a byte value, themselves as bytes. */
  function HexBytes(b: bytes): bytes {
    AsBytes(HexCut(b, HEX_CAP))
  }

  function ListText(g: DoubleFormat, fs: seq<Field>, first: bool, depth: nat): string
    requires depth <= MAX_DEPTH
    decreases Left(depth), 2, |fs|
  {
    if fs == [] then ""
    else if IsBytes(fs[0], 1) then
      (if first then "" else ",") + AnyText(g, fs[0].val.data, depth + 1)
      + ListText(g, fs[1..], false, depth)
    else ListText(g, fs[1..], first, depth)
  }

  /** The entries found in the repeated KeyValue field `num`. */
  function KvListText(g: DoubleFormat, fs: seq<Field>, num: nat, first: bool, depth: nat): string
    requires depth <= MAX_DEPTH
    decreases Left(depth), 2, |fs|
  {
    if fs == [] then ""
    else if IsBytes(fs[0], num) then
      EntryText(g, fs[0].val.data, first, depth)
      + KvListText(g, fs[1..], num, first && !HasKey(fs[0].val.data), depth)
    else KvListText(g, fs[1..], num, first, depth)
  }

  predicate HasKey(s: bytes) {
    KvOf(s).key != []
  }

  /** One KeyValue with its separator; nothing at all when the key is empty. */
  function EntryText(g: DoubleFormat, s: bytes, first: bool, depth: nat): string
    requires depth <= MAX_DEPTH
    decreases Left(depth), 1
  {
    if !HasKey(s) then "" else (if first then "" else ",") + KvText(g, s, depth)
  }

  function KvText(g: DoubleFormat, s: bytes, depth: nat): string
    requires depth <= MAX_DEPTH
    decreases Left(depth), 0
  {
    Quoted(KvOf(s).key) + ":" +
    match KvOf(s).value
    case Some(v) => AnyText(g, v, depth + 1)
    case None => "null"
  }

  // ------------------------ The code ------------------------

  lemma ListStep(g: DoubleFormat, fs: seq<Field>, first: bool, depth: nat)
    requires depth <= MAX_DEPTH
    ensures fs == [] ==> ListText(g, fs, first, depth) == ""
    ensures fs != [] && !IsBytes(fs[0], 1) ==> ListText(g, fs, first, depth) == ListText(g, fs[1..], first, depth)
    ensures fs != [] && IsBytes(fs[0], 1) ==>
              ListText(g, fs, first, depth)
              == (if first then "" else ",") + AnyText(g, fs[0].val.data, depth + 1)
                  + ListText(g, fs[1..], false, depth)
  {
    hide AnyText;
  }

  method DecodeValueList(g: DoubleFormat, r: Reader, sb: StringBuilder, depth: nat)
    requires r.Valid() && sb.Valid() && sb.buf.Length > 0 && depth <= MAX_DEPTH
    modifies r, sb, sb.buf
    ensures sb.Valid()
    ensures sb.text == old(sb.text) + ("[" + ListText(g, Parse(old(r.Rest())).fields, true, depth) + "]")
    decreases Left(depth), 2
  {
    hide Parse, ReadTag, ReadPayload, AnyText, ListText, Take;
    ghost var start := sb.text;
    sb.Putc('[');
    var first := true;
    ghost var todo := Parse(r.Rest()).fields;
    ghost var goal := sb.text + ListText(g, todo, true, depth);
    while true
      invariant r.Valid() && sb.Valid()
      invariant todo == Parse(r.Rest()).fields
      invariant sb.text + ListText(g, todo, first, depth) == goal
      decreases r.end - r.pos
    {
      ParseStep(r.Rest());
      ListStep(g, todo, first, depth);
      var rc, num, wire := r.Next();
      if rc != 1 { break; }
      if num == 1 && wire == BYTES {
        var ok, sub := r.Submsg();
        if !ok { break; }
        ghost var before := sb.text;
        ghost var piece := (if first then "" else ",") + AnyText(g, sub.Rest(), depth + 1);
        AppendElement(g, sub, sb, first, depth);
        Associates(before, piece, ListText(g, todo[1..], false, depth));
        first := false;
      } else {
        PayloadKind(wire, r.Rest());
        var ok := r.Skip(wire);
        if !ok { break; }
      }
      todo := todo[1..];
    }
    assert sb.text == goal;
    sb.Putc(']');
    Enclosed(start, "[", ListText(g, Parse(old(r.Rest())).fields, true, depth), "]");
  }

  lemma Enclosed(start: string, open: string, body: string, close: string)
    ensures start + open + body + close == start + (open + body + close)
  {
  }

  /** One element with its separator. */
  method AppendElement(g: DoubleFormat, sub: Reader, sb: StringBuilder, first: bool, depth: nat)
    requires sub.Valid() && sb.Valid() && sb.buf.Length > 0 && depth <= MAX_DEPTH
    modifies sub, sb, sb.buf
    ensures sb.Valid()
    ensures sb.text == old(sb.text) + ((if first then "" else ",") + AnyText(g, old(sub.Rest()), depth + 1))
    decreases Left(depth), 1
  {
    hide AnyText, Parse;
    if !first { sb.Putc(','); }
    DecodeAnyValue(g, sub, sb, depth + 1);
  }

  method DecodeKvlist(g: DoubleFormat, r: Reader, sb: StringBuilder, depth: nat)
    requires r.Valid() && sb.Valid() && sb.buf.Length > 0 && depth <= MAX_DEPTH
    modifies r, sb, sb.buf
    ensures sb.Valid()
    ensures sb.text == old(sb.text) + ("{" + KvListText(g, Parse(old(r.Rest())).fields, 1, true, depth) + "}")
    decreases Left(depth), 2
  {
    hide Parse, ReadTag, ReadPayload, EntryText, HasKey, KvListText, Take;
    ghost var start := sb.text;
    sb.Putc('{');
    var first := true;
    ghost var todo := Parse(r.Rest()).fields;
    ghost var goal := sb.text + KvListText(g, todo, 1, true, depth);
    while true
      invariant r.Valid() && sb.Valid()
      invariant todo == Parse(r.Rest()).fields
      invariant sb.text + KvListText(g, todo, 1, first, depth) == goal
      decreases r.end - r.pos
    {
      ParseStep(r.Rest());
      KvListStep(g, todo, first, depth);
      var rc, num, wire := r.Next();
      if rc != 1 { break; }
      if num == 1 && wire == BYTES {
        var ok, kv := r.Submsg();
        if !ok { break; }
        ghost var before, entry := sb.text, kv.Rest();
        var wrote := AppendEntry(g, kv, sb, first, depth);
        ghost var rest := KvListText(g, todo[1..], 1, first && !wrote, depth);
        Associates(before, EntryText(g, entry, first, depth), rest);
        if wrote { first := false; }
      } else {
        PayloadKind(wire, r.Rest());
        var ok := r.Skip(wire);
        if !ok { break; }
      }
      todo := todo[1..];
    }
    assert sb.text == goal;
    sb.Putc('}');
    Enclosed(start, "{", KvListText(g, Parse(old(r.Rest())).fields, 1, true, depth), "}");
  }

  lemma KvListStep(g: DoubleFormat, fs: seq<Field>, first: bool, depth: nat)
    requires depth <= MAX_DEPTH
    ensures fs == [] ==> KvListText(g, fs, 1, first, depth) == ""
    ensures fs != [] && !IsBytes(fs[0], 1) ==>
              KvListText(g, fs, 1, first, depth) == KvListText(g, fs[1..], 1, first, depth)
    ensures fs != [] && IsBytes(fs[0], 1) ==>
              KvListText(g, fs, 1, first, depth)
              == EntryText(g, fs[0].val.data, first, depth)
                 + KvListText(g, fs[1..], 1, first && !HasKey(fs[0].val.data), depth)
  {
    hide EntryText, HasKey;
  }

  /** The separator is written optimistically and taken back when the entry turns out to have
      no key. The same steps appear in the attribute loops of spans and data points. */
  method AppendEntry(g: DoubleFormat, kv: Reader, sb: StringBuilder, first: bool, depth: nat) returns (wrote: bool)
    requires kv.Valid() && sb.Valid() && sb.buf.Length > 0 && depth <= MAX_DEPTH
    modifies kv, sb, sb.buf
    ensures sb.Valid() && wrote == HasKey(old(kv.Rest()))
    ensures sb.text == old(sb.text) + EntryText(g, old(kv.Rest()), first, depth)
    decreases Left(depth), 1
  {
    hide KvOf, KvText, HasKey;
    ghost var saved := sb.text;
    var mark := sb.len;
    if !first { sb.Putc(','); }
    wrote := AppendKvJson(g, kv, sb, depth);
    if !wrote { sb.Rollback(mark, saved); }
  }

  method AppendKvJson(g: DoubleFormat, kv: Reader, sb: StringBuilder, depth: nat) returns (wrote: bool)
    requires kv.Valid() && sb.Valid() && sb.buf.Length > 0 && depth <= MAX_DEPTH
    modifies kv, sb, sb.buf
    ensures sb.Valid() && wrote == HasKey(old(kv.Rest()))
    ensures wrote ==> sb.text == old(sb.text) + KvText(g, old(kv.Rest()), depth)
    ensures !wrote ==> sb.text == old(sb.text) && sb.overflow == old(sb.overflow) && sb.len == old(sb.len)
    decreases Left(depth), 0
  {
    hide KvOf, AnyText, Quoted, Take;
    var key, value := ParseKv(kv);
    if key == [] { return false; }
    JsonString(sb, key);
    sb.Putc(':');
    if value != null { DecodeAnyValue(g, value, sb, depth + 1); } else { sb.Puts("null"); }
    return true;
  }

  method DecodeAnyValue(g: DoubleFormat, r: Reader, sb: StringBuilder, depth: nat)
    requires r.Valid() && sb.Valid() && sb.buf.Length > 0
    modifies r, sb, sb.buf
    ensures sb.Valid()
    ensures sb.text == old(sb.text) + AnyText(g, old(r.Rest()), depth)
    decreases Left(depth), 5
  {
    hide Parse, ReadTag, ReadPayload, ValueText, IsValue;
    if depth > MAX_DEPTH {
      sb.Puts("null");
      return;
    }
    var wrote := false;
    ghost var all := Parse(r.Rest()).fields;
    ghost var goal := sb.text + ValuesText(g, all, depth);
    ghost var todo := all;
    while true
      invariant r.Valid() && sb.Valid()
      invariant todo == Parse(r.Rest()).fields
      invariant sb.text + ValuesText(g, todo, depth) == goal
      invariant wrote || HasValue(todo) <==> HasValue(all)
      invariant !wrote ==> sb.text == old(sb.text)
      decreases r.end - r.pos
    {
      ParseStep(r.Rest());
      var rc, num, wire := r.Next();
      if rc != 1 { break; }
      ghost var before := sb.text;
      var ok, wroteNow := DecodeOneValue(g, r, sb, num, wire, depth);
      if !ok { break; }
      ghost var rest := ValuesText(g, todo[1..], depth);
      assert before + (ValueText(g, todo[0], depth) + rest) == sb.text + rest;
      if wroteNow { wrote := true; }
      todo := todo[1..];
    }
    if !wrote { sb.Puts("null"); }
  }

  /** The body of the loop over an AnyValue: print the field if it is recognised, else skip it. */
  method DecodeOneValue(g: DoubleFormat, r: Reader, sb: StringBuilder, num: nat, wire: nat, depth: nat)
      returns (ok: bool, wrote: bool)
    requires r.Valid() && sb.Valid() && sb.buf.Length > 0 && depth <= MAX_DEPTH
    modifies r, sb, sb.buf
    ensures r.Valid() && sb.Valid() && r.pos >= old(r.pos)
    ensures ok <==> ReadPayload(wire, old(r.Rest())).Some?
    ensures !ok ==> !wrote
    ensures !wrote ==> sb.text == old(sb.text)
    ensures ok ==>
              var p := ReadPayload(wire, old(r.Rest())).value;
              && r.Rest() == old(r.Rest())[p.used..]
              && wrote == IsValue(Field(num, p.val))
              && sb.text == old(sb.text) + ValueText(g, Field(num, p.val), depth)
    decreases Left(depth), 3
  {
    hide ReadPayload, Parse, Quoted, Decimal, HexCut, ToInt64;
    PayloadKind(wire, r.Rest());
    wrote := false;
    if num == 1 && wire == BYTES {
      var s;
      ok, s := r.Bytes();
      if !ok { return; }
      JsonString(sb, s);
      wrote := true;
    } else if num == 2 && wire == VARINT {
      var v;
      ok, v := ReadWord(r);
      if !ok { return; }
      sb.Puts(if v != 0 then "true" else "false");
      wrote := true;
    } else if num == 3 && wire == VARINT {
      var v;
      ok, v := ReadWord(r);
      if !ok { return; }
      sb.Puts(Decimal(ToInt64(v)));
      wrote := true;
    } else if num == 4 && wire == FIXED64 {
      var bits;
      ok, bits := r.Fixed64();
      if !ok { return; }
      sb.Puts(g(bits));
      wrote := true;
    } else if num == 5 && wire == BYTES {
      var sub;
      ok, sub := r.Submsg();
      if !ok { return; }
      DecodeValueList(g, sub, sb, depth);
      wrote := true;
    } else if num == 6 && wire == BYTES {
      var sub;
      ok, sub := r.Submsg();
      if !ok { return; }
      DecodeKvlist(g, sub, sb, depth);
      wrote := true;
    } else if num == 7 && wire == BYTES {
      var s;
      ok, s := r.Bytes();
      if !ok { return; }
      var hex := ToHex(s, HEX_CAP);
      JsonString(sb, AsBytes(hex));
      wrote := true;
    } else {
      ok := r.Skip(wire);
      if !ok { return; }
      assert !IsValue(Field(num, ReadPayload(wire, old(r.Rest())).value.val));
    }
  }

  /** pb_varint as the reader of a varint field. */
  method ReadWord(r: Reader) returns (ok: bool, v: u64)
    requires r.Valid()
    modifies r
    ensures r.Valid() && r.pos >= old(r.pos)
    ensures ok <==> ReadPayload(VARINT, old(r.Rest())).Some?
    ensures ok ==> VarintP(v) == ReadPayload(VARINT, old(r.Rest())).value.val
    ensures ok ==> r.Rest() == old(r.Rest())[ReadPayload(VARINT, old(r.Rest())).value.used..]
  {
    ok, v := r.Varint();
  }
}
