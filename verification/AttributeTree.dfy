/** Attribute trees, the wire forms that spell them, and what is printed for them. */
module AttributeTree {
  import opened Bytes
  import opened Wire
  import opened Attributes
  import opened Rendering

  /** An AnyValue holding at most one value. */
  datatype Any =
    | Empty
    | Str(text: bytes)
    | Bool(b: bool)
    | Int(word: u64)
    | Double(bits: u64)
    | Array(elems: seq<Any>)
    | KvList(entries: seq<Attr>)
    | Blob(data: bytes)
  datatype Attr = Attr(key: bytes, val: Any)

  // ------------------------ Selecting fields ------------------------

  /** The payloads of a repeated length-delimited field, in wire order. */
  function Subs(fs: seq<Field>, num: nat): seq<bytes> {
    if fs == [] then []
    else if IsBytes(fs[0], num) then [fs[0].val.data] + Subs(fs[1..], num)
    else Subs(fs[1..], num)
  }

  /** A singular field: the last occurrence counts. */
  function LastBytes(fs: seq<Field>, num: nat, default: bytes): bytes {
    if fs == [] then default
    else LastBytes(fs[1..], num, if IsBytes(fs[0], num) then fs[0].val.data else default)
  }

  function LastVarint(fs: seq<Field>, num: nat, default: u64): u64 {
    if fs == [] then default
    else LastVarint(fs[1..], num, if IsVarintField(fs[0], num) then fs[0].val.word else default)
  }

  function LastFixed64(fs: seq<Field>, num: nat, default: u64): u64 {
    if fs == [] then default
    else LastFixed64(fs[1..], num, if IsFixed64(fs[0], num) then fs[0].val.word else default)
  }

  function Values(fs: seq<Field>): seq<Field> {
    if fs == [] then []
    else if IsValue(fs[0]) then [fs[0]] + Values(fs[1..])
    else Values(fs[1..])
  }

  // ------------------------ Wire forms ------------------------

  /** `s` spells the value `v`: among its readable fields exactly one is a value and it spells
      `v`, or none is and `v` is empty. Unknown fields may stand anywhere. */
  predicate AnyWire(s: bytes, v: Any)
    decreases v
  {
    var vs := Values(Parse(s).fields);
    if v.Empty? then vs == []
    else |vs| == 1 && ValueWire(vs[0], v)
  }

  predicate ValueWire(f: Field, v: Any)
    requires !v.Empty?
    decreases v, 0
  {
    match v
    case Str(text) => f == Field(1, BytesP(text))
    case Bool(b) => IsVarintField(f, 2) && b == (f.val.word != 0)
    case Int(word) => f == Field(3, VarintP(word))
    case Double(bits) => f == Field(4, Fixed64P(bits))
    case Array(elems) =>
      IsBytes(f, 5) &&
      var items := Subs(Parse(f.val.data).fields, 1);
      |items| == |elems| && forall i :: 0 <= i < |items| ==> AnyWire(items[i], elems[i])
    case KvList(entries) =>
      IsBytes(f, 6) &&
      var items := Subs(Parse(f.val.data).fields, 1);
      |items| == |entries| && forall i :: 0 <= i < |items| ==> AttrWire(items[i], entries[i])
    case Blob(data) => f == Field(7, BytesP(data))
  }

  /** A KeyValue: the last key and the last value count; a missing value is an empty one. */
  predicate AttrWire(s: bytes, a: Attr)
    decreases a
  {
    var fs := Parse(s).fields;
    && LastBytes(fs, 1, []) == a.key
    && if Subs(fs, 2) == [] then a.val.Empty? else AnyWire(LastBytes(fs, 2, []), a.val)
  }

  predicate AttrsWire(items: seq<bytes>, attrs: seq<Attr>) {
    |items| == |attrs| && forall i :: 0 <= i < |items| ==> AttrWire(items[i], attrs[i])
  }

  // ------------------------ Printing trees ------------------------

  function PrintAny(g: DoubleFormat, v: Any, depth: nat): string
    decreases v, 1
  {
    if depth > MAX_DEPTH then "null"
    else match v
      case Empty => "null"
      case Str(text) => Quoted(text)
      case Bool(b) => if b then "true" else "false"
      case Int(word) => Decimal(ToInt64(word))
      case Double(bits) => g(bits)
      case Array(elems) => "[" + PrintElems(g, elems, true, depth) + "]"
      case KvList(entries) => "{" + PrintEntries(g, entries, true, depth) + "}"
      case Blob(data) => Quoted(HexBytes(data))
  }

  function PrintElems(g: DoubleFormat, vs: seq<Any>, first: bool, depth: nat): string
    decreases vs, 0
  {
    if vs == [] then ""
    else (if first then "" else ",") + PrintAny(g, vs[0], depth + 1) + PrintElems(g, vs[1..], false, depth)
  }

  /** Entries whose stored key is empty are left out, separator and all. */
  function PrintEntries(g: DoubleFormat, es: seq<Attr>, first: bool, depth: nat): string
    decreases es, 0
  {
    if es == [] then ""
    else if KeyCut(es[0].key) == [] then PrintEntries(g, es[1..], first, depth)
    else (if first then "" else ",") + PrintEntry(g, es[0], depth) + PrintEntries(g, es[1..], false, depth)
  }

  function PrintEntry(g: DoubleFormat, e: Attr, depth: nat): string
    decreases e, 0
  {
    Quoted(KeyCut(e.key)) + ":" + PrintAny(g, e.val, depth + 1)
  }

  // ------------------------ The code prints the tree ------------------------

  lemma {:induction false} OnlyValuesPrint(g: DoubleFormat, fs: seq<Field>, depth: nat)
    requires depth <= MAX_DEPTH
    ensures HasValue(fs) <==> Values(fs) != []
    ensures ValuesText(g, fs, depth) == ValuesText(g, Values(fs), depth)
  {
    if fs != [] {
      OnlyValuesPrint(g, fs[1..], depth);
      if IsValue(fs[0]) {
        assert Values(fs)[1..] == Values(fs[1..]);
      } else {
        assert ValueText(g, fs[0], depth) == "";
      }
    }
  }

  lemma OneValuePrints(g: DoubleFormat, vs: seq<Field>, depth: nat)
    requires depth <= MAX_DEPTH && |vs| == 1
    ensures ValuesText(g, vs, depth) == ValueText(g, vs[0], depth)
  {
    assert ValuesText(g, vs[1..], depth) == "";
  }

  lemma {:induction false} KvFoldIsLast(fs: seq<Field>, key: bytes, value: Option<bytes>)
    ensures KvFold(fs, KeyValue(KeyCut(key), value)).key == KeyCut(LastBytes(fs, 1, key))
    ensures KvFold(fs, KeyValue(KeyCut(key), value)).value
            == if Subs(fs, 2) == [] then value else Some(LastBytes(fs, 2, []))
  {
    if fs != [] {
      if IsBytes(fs[0], 1) {
        KvFoldIsLast(fs[1..], fs[0].val.data, value);
      } else if IsBytes(fs[0], 2) {
        KvFoldIsLast(fs[1..], key, Some(fs[0].val.data));
        LastOfNone(fs[1..], 2, fs[0].val.data, []);
      } else {
        KvFoldIsLast(fs[1..], key, value);
      }
    }
  }

  lemma {:induction false} LastOfNone(fs: seq<Field>, num: nat, a: bytes, b: bytes)
    ensures Subs(fs, num) == [] ==> LastBytes(fs, num, a) == a
    ensures Subs(fs, num) != [] ==> LastBytes(fs, num, a) == LastBytes(fs, num, b)
  {
    if fs != [] && !IsBytes(fs[0], num) { LastOfNone(fs[1..], num, a, b); }
    if fs != [] && IsBytes(fs[0], num) {
      if Subs(fs[1..], num) == [] { LastOfNone(fs[1..], num, fs[0].val.data, b); }
    }
  }

  lemma KvOfAttr(s: bytes, a: Attr)
    requires AttrWire(s, a)
    ensures KvOf(s).key == KeyCut(a.key)
    ensures match KvOf(s).value case None => a.val.Empty? case Some(d) => AnyWire(d, a.val)
  {
    hide Parse, AnyWire;
    assert KeyCut([]) == [];
    KvFoldIsLast(Parse(s).fields, [], None);
  }

  /** Whatever wire form spells `v`, the printer writes the text of `v`. */
  lemma {:induction false} WireFormPrints(g: DoubleFormat, s: bytes, v: Any, depth: nat)
    requires AnyWire(s, v)
    ensures AnyText(g, s, depth) == PrintAny(g, v, depth)
    decreases v, 1
  {
    if depth <= MAX_DEPTH {
      var fs := Parse(s).fields;
      OnlyValuesPrint(g, fs, depth);
      if !v.Empty? {
        OneValuePrints(g, Values(fs), depth);
        ValuePrints(g, Values(fs)[0], v, depth);
      }
    }
  }

  lemma {:induction false} ValuePrints(g: DoubleFormat, f: Field, v: Any, depth: nat)
    requires !v.Empty? && ValueWire(f, v) && depth <= MAX_DEPTH
    ensures ValueText(g, f, depth) == PrintAny(g, v, depth)
    decreases v, 0
  {
    hide Parse, Quoted, Decimal, HexBytes, AnyWire, AttrWire, ListText, KvListText, PrintElems, PrintEntries, Subs;
    match v
    case Array(elems) => ListPrints(g, Parse(f.val.data).fields, elems, true, depth);
    case KvList(entries) => EntriesPrint(g, Parse(f.val.data).fields, 1, entries, true, depth);
    case _ =>
  }

  lemma {:induction false} ListPrints(g: DoubleFormat, fs: seq<Field>, vs: seq<Any>, first: bool, depth: nat)
    requires depth <= MAX_DEPTH && |Subs(fs, 1)| == |vs|
    requires forall i :: 0 <= i < |vs| ==> AnyWire(Subs(fs, 1)[i], vs[i])
    ensures ListText(g, fs, first, depth) == PrintElems(g, vs, first, depth)
    decreases vs, |fs|
  {
    hide AnyWire, AnyText, PrintAny;
    if fs != [] {
      var rest := Subs(fs[1..], 1);
      if IsBytes(fs[0], 1) {
        assert Subs(fs, 1)[0] == fs[0].val.data;
        WireFormPrints(g, fs[0].val.data, vs[0], depth + 1);
        assert forall i :: 0 <= i < |rest| ==> rest[i] == Subs(fs, 1)[i + 1] && vs[1..][i] == vs[i + 1];
        ListPrints(g, fs[1..], vs[1..], false, depth);
      } else {
        ListPrints(g, fs[1..], vs, first, depth);
      }
    }
  }

  lemma {:induction false} EntryPrints(g: DoubleFormat, s: bytes, a: Attr, depth: nat)
    requires AttrWire(s, a) && depth <= MAX_DEPTH
    ensures HasKey(s) <==> KeyCut(a.key) != []
    ensures KvText(g, s, depth) == PrintEntry(g, a, depth)
    decreases a, 0
  {
    hide KvOf, AttrWire, AnyWire, AnyText, Quoted;
    KvOfAttr(s, a);
    if KvOf(s).value.Some? { WireFormPrints(g, KvOf(s).value.value, a.val, depth + 1); }
  }

  lemma {:induction false} EntriesPrint(g: DoubleFormat, fs: seq<Field>, num: nat, es: seq<Attr>, first: bool,
                                        depth: nat)
    requires depth <= MAX_DEPTH && AttrsWire(Subs(fs, num), es)
    ensures KvListText(g, fs, num, first, depth) == PrintEntries(g, es, first, depth)
    decreases es, |fs|
  {
    hide AttrWire, KvText, PrintEntry, HasKey, KeyCut;
    if fs != [] {
      var rest := Subs(fs[1..], num);
      if IsBytes(fs[0], num) {
        var s := fs[0].val.data;
        assert Subs(fs, num)[0] == s;
        EntryPrints(g, s, es[0], depth);
        assert forall i :: 0 <= i < |rest| ==> rest[i] == Subs(fs, num)[i + 1] && es[1..][i] == es[i + 1];
        EntriesPrint(g, fs[1..], num, es[1..], first && !HasKey(s), depth);
      } else {
        EntriesPrint(g, fs[1..], num, es, first, depth);
      }
    }
  }
}
