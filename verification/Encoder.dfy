/** A reference encoder for export requests, to state the literal round trip. */
module Encoder {
  import opened Bytes
  import opened Wire
  import opened Attributes
  import opened Rendering
  import opened AttributeTree
  import opened Delivery
  import opened Trace
  import opened TraceTree

  // ------------------------ Fields ------------------------

  function FixedBytes(v: nat, n: nat): (b: bytes)
    ensures |b| == n
  {
    if n == 0 then [] else [v % 256] + FixedBytes(v / 256, n - 1)
  }

  lemma {:induction false} FixedBytesRead(v: nat, n: nat)
    requires v < Pow256(n)
    ensures LittleEndian(FixedBytes(v, n)) == v
  {
    if n > 0 {
      FixedBytesRead(v / 256, n - 1);
      assert FixedBytes(v, n)[1..] == FixedBytes(v / 256, n - 1);
    }
  }

  predicate Encodable(f: Field) {
    && 1 <= f.num < 0x2000_0000
    && match f.val
       case BytesP(data) => |data| < TWO64
       case Fixed32P(w) => w < TWO32
       case _ => true
  }

  function BodyOf(p: Payload): WireBody {
    match p
    case VarintP(w) => RawVarint(Canonical(w))
    case Fixed64P(w) => RawFixed64(FixedBytes(w, 8))
    case Fixed32P(w) => RawFixed32(FixedBytes(w, 4))
    case BytesP(data) => RawBytes(Canonical(|data|), data)
  }

  function ToWire(f: Field): WireField {
    WireField(Canonical(f.num * 8 + WireCode(BodyOf(f.val))), BodyOf(f.val))
  }

  lemma BodyIsLegal(f: Field)
    requires Encodable(f)
    ensures LegalBody(BodyOf(f.val)) && MeaningOfBody(BodyOf(f.val)) == f.val
  {
    hide IsVarint, VarintValue, Canonical, LittleEndian, FixedBytes;
    match f.val
    case VarintP(w) => CanonicalFits(w);
    case BytesP(data) => CanonicalFits(|data|);
    case Fixed64P(w) => FixedBytesRead(w, 8); Eight();
    case Fixed32P(w) => FixedBytesRead(w, 4); Eight();
  }

  lemma Eight()
    ensures Pow256(4) == TWO32 && Pow256(8) == TWO64
  {
    assert Pow256(8) == 256 * 256 * 256 * 256 * Pow256(4);
  }

  lemma TagIsLegal(f: Field)
    requires Encodable(f)
    ensures Legal(ToWire(f)) && FieldOf(ToWire(f)) == f
  {
    hide IsVarint, VarintValue, Canonical, LegalBody, MeaningOfBody, BodyOf;
    BodyIsLegal(f);
    CanonicalFits(f.num * 8 + WireCode(BodyOf(f.val)));
  }

  function ToWires(fs: seq<Field>): seq<WireField> {
    if fs == [] then [] else [ToWire(fs[0])] + ToWires(fs[1..])
  }

  function Encode(fs: seq<Field>): bytes {
    Emit(ToWires(fs))
  }

  predicate AllEncodable(fs: seq<Field>) {
    forall i :: 0 <= i < |fs| ==> Encodable(fs[i])
  }

  lemma {:induction false} WiresAreLegal(fs: seq<Field>)
    requires AllEncodable(fs)
    ensures AllLegal(ToWires(fs)) && Meaning(ToWires(fs)) == fs
  {
    hide Legal, Encodable, FieldOf, ToWire;
    if fs != [] {
      TagIsLegal(fs[0]);
      WiresAreLegal(fs[1..]);
      assert ToWires(fs)[1..] == ToWires(fs[1..]);
    }
  }

  lemma EncodedFieldsParse(fs: seq<Field>)
    requires AllEncodable(fs)
    ensures Parse(Encode(fs)) == Parsed(fs, Clean)
  {
    WiresAreLegal(fs);
    ParseInvertsEmit(ToWires(fs));
  }

  /** An embedded payload is no longer than the message around it. */
  lemma {:induction false} PayloadFits(fs: seq<Field>, i: nat)
    requires i < |fs| && fs[i].val.BytesP?
    ensures |fs[i].val.data| <= |Encode(fs)|
  {
    hide Canonical;
    assert ToWires(fs)[0] == ToWire(fs[0]) && ToWires(fs)[1..] == ToWires(fs[1..]);
    if i > 0 { PayloadFits(fs[1..], i - 1); }
  }

  // ------------------------ Sizes ------------------------

  function Weight(fs: seq<Field>): nat {
    if fs == [] then 0 else 20 + (if fs[0].val.BytesP? then |fs[0].val.data| else 0) + Weight(fs[1..])
  }

  lemma {:induction false} EncodeIsShort(fs: seq<Field>)
    requires AllEncodable(fs)
    ensures |Encode(fs)| <= Weight(fs)
  {
    hide Canonical, Encodable;
    if fs != [] {
      FieldIsShort(fs[0]);
      assert ToWires(fs)[0] == ToWire(fs[0]) && ToWires(fs)[1..] == ToWires(fs[1..]);
      EncodeIsShort(fs[1..]);
    }
  }

  lemma FieldIsShort(f: Field)
    requires Encodable(f)
    ensures var w := ToWire(f);
            |w.tag| + |EmitBody(w.body)| <= 20 + if f.val.BytesP? then |f.val.data| else 0
  {
    hide Canonical;
    CanonicalFits(f.num * 8 + WireCode(BodyOf(f.val)));
    if f.val.VarintP? { CanonicalFits(f.val.word); }
    if f.val.BytesP? { CanonicalFits(|f.val.data|); }
  }

  lemma {:induction false} WeightIsBounded(fs: seq<Field>, size: nat)
    requires forall i :: 0 <= i < |fs| && fs[i].val.BytesP? ==> |fs[i].val.data| <= size
    ensures Weight(fs) <= (20 + size) * |fs|
  {
    if fs != [] {
      WeightIsBounded(fs[1..], size);
      assert (20 + size) * |fs| == (20 + size) * (|fs| - 1) + (20 + size);
    }
  }

  lemma EncodeIsBounded(fs: seq<Field>, size: nat)
    requires AllEncodable(fs) && forall i :: 0 <= i < |fs| && fs[i].val.BytesP? ==> |fs[i].val.data| <= size
    ensures |Encode(fs)| <= (20 + size) * |fs|
  {
    hide Encode, Encodable;
    EncodeIsShort(fs);
    WeightIsBounded(fs, size);
  }

  // ------------------------ Lists of items ------------------------

  /** A list of length-delimited fields of one number. */
  function Items(num: nat, datas: seq<bytes>): (fs: seq<Field>)
    ensures |fs| == |datas| && forall i :: 0 <= i < |fs| ==> fs[i] == Field(num, BytesP(datas[i]))
  {
    seq(|datas|, i requires 0 <= i < |datas| => Field(num, BytesP(datas[i])))
  }

  lemma {:induction false} SubsOfItems(num: nat, datas: seq<bytes>)
    ensures Subs(Items(num, datas), num) == datas
  {
    if datas != [] {
      assert Items(num, datas)[1..] == Items(num, datas[1..]);
      SubsOfItems(num, datas[1..]);
    }
  }

  /** Encoded lists read back, and their items are small enough to be encoded. */
  lemma ItemsParse(num: nat, datas: seq<bytes>)
    requires 1 <= num < 0x2000_0000 && |Encode(Items(num, datas))| < TWO64
    ensures Parse(Encode(Items(num, datas))) == Parsed(Items(num, datas), Clean)
    ensures Subs(Items(num, datas), num) == datas
    ensures forall i :: 0 <= i < |datas| ==> |datas[i]| < TWO64
  {
    hide Encode, Parse;
    var fs := Items(num, datas);
    forall i | 0 <= i < |datas| ensures |datas[i]| < TWO64 { PayloadFits(fs, i); }
    EncodedFieldsParse(fs);
    SubsOfItems(num, datas);
  }

  // ------------------------ Finding fields ------------------------

  lemma {:induction false} LastBytesIn(fs: seq<Field>, i: nat, num: nat, x: bytes)
    requires i < |fs| && IsBytes(fs[i], num) && forall j :: i < j < |fs| ==> !IsBytes(fs[j], num)
    ensures LastBytes(fs, num, x) == fs[i].val.data
  {
    if i > 0 {
      LastBytesIn(fs[1..], i - 1, num, if IsBytes(fs[0], num) then fs[0].val.data else x);
    } else {
      NoMoreBytes(fs[1..], num, fs[0].val.data);
    }
  }

  lemma {:induction false} NoMoreBytes(fs: seq<Field>, num: nat, x: bytes)
    requires forall j :: 0 <= j < |fs| ==> !IsBytes(fs[j], num)
    ensures LastBytes(fs, num, x) == x && Subs(fs, num) == [] && Merged(fs, num) == []
  {
    if fs != [] { NoMoreBytes(fs[1..], num, x); }
  }

  lemma {:induction false} LastWordsIn(fs: seq<Field>, i: nat, num: nat, x: u64)
    requires i < |fs| && fs[i].num == num && forall j :: i < j < |fs| ==> fs[j].num != num
    ensures fs[i].val.VarintP? ==> LastVarint(fs, num, x) == fs[i].val.word
    ensures fs[i].val.Fixed64P? ==> LastFixed64(fs, num, x) == fs[i].val.word
  {
    if i > 0 {
      LastWordsIn(fs[1..], i - 1, num, if IsVarintField(fs[0], num) then fs[0].val.word else x);
      LastWordsIn(fs[1..], i - 1, num, if IsFixed64(fs[0], num) then fs[0].val.word else x);
    } else if !fs[0].val.BytesP? {
      NoMoreWords(fs[1..], num, fs[0].val.word);
    }
  }

  lemma {:induction false} NoMoreWords(fs: seq<Field>, num: nat, x: u64)
    requires forall j :: 0 <= j < |fs| ==> fs[j].num != num
    ensures LastVarint(fs, num, x) == x && LastFixed64(fs, num, x) == x
  {
    if fs != [] { NoMoreWords(fs[1..], num, x); }
  }

  lemma {:induction false} SomeSub(fs: seq<Field>, i: nat, num: nat)
    requires i < |fs| && IsBytes(fs[i], num)
    ensures Subs(fs, num) != []
  {
    if i > 0 { SomeSub(fs[1..], i - 1, num); }
  }

  lemma {:induction false} SubsAppend(a: seq<Field>, b: seq<Field>, num: nat)
    ensures Subs(a + b, num) == Subs(a, num) + Subs(b, num)
  {
    if a == [] { assert a + b == b; } else {
      assert (a + b)[1..] == a[1..] + b;
      SubsAppend(a[1..], b, num);
    }
  }

  lemma {:induction false} MergedIn(fs: seq<Field>, i: nat, num: nat)
    requires i < |fs| && IsBytes(fs[i], num) && forall j :: 0 <= j < |fs| && j != i ==> !IsBytes(fs[j], num)
    ensures Merged(fs, num) == Parse(fs[i].val.data).fields
  {
    hide Parse;
    if i > 0 { MergedIn(fs[1..], i - 1, num); } else { NoMoreBytes(fs[1..], num, []); }
  }

  // ------------------------ Attributes ------------------------

  function EncodeAny(v: Any): bytes
    decreases v, 1
  {
    match v
    case Empty => []
    case Str(text) => Encode([Field(1, BytesP(text))])
    case Bool(b) => Encode([Field(2, VarintP(if b then 1 else 0))])
    case Int(word) => Encode([Field(3, VarintP(word))])
    case Double(bits) => Encode([Field(4, Fixed64P(bits))])
    case Array(elems) => Encode([Field(5, BytesP(Encode(Items(1, EncodeAnys(elems)))))])
    case KvList(entries) => Encode([Field(6, BytesP(Encode(Items(1, EncodeAttrs(entries)))))])
    case Blob(data) => Encode([Field(7, BytesP(data))])
  }

  function EncodeAnys(vs: seq<Any>): (bs: seq<bytes>)
    ensures |bs| == |vs|
    decreases vs, 0
  {
    if vs == [] then [] else [EncodeAny(vs[0])] + EncodeAnys(vs[1..])
  }

  function EncodeAttr(a: Attr): bytes
    decreases a, 0
  {
    Encode([Field(1, BytesP(a.key)), Field(2, BytesP(EncodeAny(a.val)))])
  }

  function EncodeAttrs(es: seq<Attr>): (bs: seq<bytes>)
    ensures |bs| == |es|
    decreases es, 0
  {
    if es == [] then [] else [EncodeAttr(es[0])] + EncodeAttrs(es[1..])
  }

  lemma OneFieldParses(f: Field)
    requires 1 <= f.num <= 7 && (f.val.BytesP? ==> |Encode([f])| < TWO64) && !f.val.Fixed32P?
    ensures Parse(Encode([f])) == Parsed([f], Clean)
    ensures f.val.BytesP? ==> |f.val.data| < TWO64
  {
    hide Encode, Parse;
    if f.val.BytesP? { PayloadFits([f], 0); }
    EncodedFieldsParse([f]);
  }

  lemma OneValue(f: Field)
    requires IsValue(f)
    ensures Values([f]) == [f]
  {
    assert [f][1..] == [];
  }

  lemma {:induction false} AnyEncodes(v: Any)
    requires |EncodeAny(v)| < TWO64
    ensures AnyWire(EncodeAny(v), v)
    decreases v, 3
  {
    if v.Empty? {
      assert Parse([]).fields == [];
    } else {
      hide Encode, Parse, Values;
      var f := ValueField(v);
      OneFieldParses(f);
      OneValue(f);
      ValueEncodes(v);
    }
  }

  function ValueField(v: Any): (f: Field)
    requires !v.Empty?
    ensures IsValue(f) && !f.val.Fixed32P? && EncodeAny(v) == Encode([f])
  {
    match v
    case Str(text) => Field(1, BytesP(text))
    case Bool(b) => Field(2, VarintP(if b then 1 else 0))
    case Int(word) => Field(3, VarintP(word))
    case Double(bits) => Field(4, Fixed64P(bits))
    case Array(elems) => Field(5, BytesP(Encode(Items(1, EncodeAnys(elems)))))
    case KvList(entries) => Field(6, BytesP(Encode(Items(1, EncodeAttrs(entries)))))
    case Blob(data) => Field(7, BytesP(data))
  }

  lemma {:induction false} ValueEncodes(v: Any)
    requires !v.Empty? && (ValueField(v).val.BytesP? ==> |ValueField(v).val.data| < TWO64)
    ensures ValueWire(ValueField(v), v)
    decreases v, 2
  {
    hide Encode, Parse, AnyWire, AttrWire;
    match v
    case Array(elems) =>
      ItemsParse(1, EncodeAnys(elems));
      AnysEncode(elems);
    case KvList(entries) =>
      ItemsParse(1, EncodeAttrs(entries));
      AttrsEncode(entries);
    case _ =>
  }

  lemma {:induction false} AnysEncode(vs: seq<Any>)
    requires forall i :: 0 <= i < |vs| ==> |EncodeAnys(vs)[i]| < TWO64
    ensures forall i :: 0 <= i < |vs| ==> AnyWire(EncodeAnys(vs)[i], vs[i])
    decreases vs, 0
  {
    hide AnyWire, EncodeAny;
    if vs != [] {
      assert EncodeAnys(vs)[0] == EncodeAny(vs[0]) && EncodeAnys(vs)[1..] == EncodeAnys(vs[1..]);
      AnyEncodes(vs[0]);
      assert forall i :: 0 <= i < |vs| - 1 ==> EncodeAnys(vs[1..])[i] == EncodeAnys(vs)[i + 1];
      AnysEncode(vs[1..]);
      forall i | 0 <= i < |vs| ensures AnyWire(EncodeAnys(vs)[i], vs[i]) {
        if i > 0 { assert EncodeAnys(vs)[i] == EncodeAnys(vs[1..])[i - 1] && vs[i] == vs[1..][i - 1]; }
      }
    }
  }

  lemma {:induction false} AttrEncodes(a: Attr)
    requires |EncodeAttr(a)| < TWO64
    ensures AttrWire(EncodeAttr(a), a)
    decreases a, 0
  {
    hide Encode, Parse, AnyWire, EncodeAny;
    var k, v := Field(1, BytesP(a.key)), Field(2, BytesP(EncodeAny(a.val)));
    var fs := [k, v];
    PayloadFits(fs, 0);
    PayloadFits(fs, 1);
    EncodedFieldsParse(fs);
    LastBytesIn(fs, 0, 1, []);
    LastBytesIn(fs, 1, 2, []);
    SomeSub(fs, 1, 2);
    AnyEncodes(a.val);
  }

  lemma {:induction false} AttrsEncode(es: seq<Attr>)
    requires forall i :: 0 <= i < |es| ==> |EncodeAttrs(es)[i]| < TWO64
    ensures AttrsWire(EncodeAttrs(es), es)
    decreases es, 0
  {
    hide AttrWire, EncodeAttr;
    if es != [] {
      assert EncodeAttrs(es)[0] == EncodeAttr(es[0]) && EncodeAttrs(es)[1..] == EncodeAttrs(es[1..]);
      AttrEncodes(es[0]);
      assert forall i :: 0 <= i < |es| - 1 ==> EncodeAttrs(es[1..])[i] == EncodeAttrs(es)[i + 1];
      AttrsEncode(es[1..]);
      forall i | 0 <= i < |es| ensures AttrWire(EncodeAttrs(es)[i], es[i]) {
        if i > 0 { assert EncodeAttrs(es)[i] == EncodeAttrs(es[1..])[i - 1] && es[i] == es[1..][i - 1]; }
      }
    }
  }

  // ------------------------ Spans, scopes, resources ------------------------

  function EncodeStatus(t: SpanTree): bytes {
    Encode([Field(2, BytesP(t.statusMessage)), Field(3, VarintP(t.statusCode))])
  }

  function Scalars(t: SpanTree): seq<Field> {
    [Field(1, BytesP(t.traceId)), Field(2, BytesP(t.spanId)), Field(4, BytesP(t.parentId)), Field(5, BytesP(t.name)),
     Field(6, VarintP(t.kind)), Field(7, Fixed64P(t.startNs)), Field(8, Fixed64P(t.endNs)),
     Field(15, BytesP(EncodeStatus(t)))]
  }

  function SpanFields(t: SpanTree): seq<Field> {
    Scalars(t) + Items(9, EncodeAttrs(t.attrs))
  }

  function EncodeSpan(t: SpanTree): bytes {
    Encode(SpanFields(t))
  }

  /** A field list whose encoding fits reads back, and so does each payload in it. */
  lemma FieldsFit(fs: seq<Field>)
    requires |Encode(fs)| < TWO64
    requires forall i :: 0 <= i < |fs| ==> 1 <= fs[i].num < 0x2000_0000 && !fs[i].val.Fixed32P?
    ensures Parse(Encode(fs)) == Parsed(fs, Clean)
    ensures forall i :: 0 <= i < |fs| && fs[i].val.BytesP? ==> |fs[i].val.data| < TWO64
  {
    hide Encode, Parse;
    forall i | 0 <= i < |fs| && fs[i].val.BytesP? ensures |fs[i].val.data| < TWO64 { PayloadFits(fs, i); }
    EncodedFieldsParse(fs);
  }

  lemma StatusEncodes(t: SpanTree)
    requires |EncodeStatus(t)| < TWO64
    ensures LastBytes(Parse(EncodeStatus(t)).fields, 2, []) == t.statusMessage
    ensures LastVarint(Parse(EncodeStatus(t)).fields, 3, 0) == t.statusCode
  {
    hide Encode, Parse;
    var fs := [Field(2, BytesP(t.statusMessage)), Field(3, VarintP(t.statusCode))];
    FieldsFit(fs);
    LastBytesIn(fs, 0, 2, []);
    LastWordsIn(fs, 1, 3, 0);
  }

  lemma ScalarsSelect(t: SpanTree)
    ensures var fs := SpanFields(t);
            && LastBytes(fs, 1, []) == t.traceId
            && LastBytes(fs, 2, []) == t.spanId
            && LastBytes(fs, 4, []) == t.parentId
            && LastBytes(fs, 5, []) == t.name
            && LastVarint(fs, 6, 0) == t.kind
            && LastFixed64(fs, 7, 0) == t.startNs
            && LastFixed64(fs, 8, 0) == t.endNs
  {
    hide LastBytes, LastVarint, LastFixed64, EncodeStatus, EncodeAttrs;
    var fs := SpanFields(t);
    assert forall i :: 8 <= i < |fs| ==> fs[i].num == 9;
    LastBytesIn(fs, 0, 1, []);
    LastBytesIn(fs, 1, 2, []);
    LastBytesIn(fs, 2, 4, []);
    LastBytesIn(fs, 3, 5, []);
    LastWordsIn(fs, 4, 6, 0);
    LastWordsIn(fs, 5, 7, 0);
    LastWordsIn(fs, 6, 8, 0);
  }

  lemma SpanParts(t: SpanTree)
    ensures Merged(SpanFields(t), 15) == Parse(EncodeStatus(t)).fields
    ensures Subs(SpanFields(t), 9) == EncodeAttrs(t.attrs)
  {
    hide EncodeStatus, EncodeAttrs, Parse;
    var fs := SpanFields(t);
    assert forall i :: 8 <= i < |fs| ==> fs[i].num == 9;
    MergedIn(fs, 7, 15);
    NoMoreBytes(Scalars(t), 9, []);
    SubsAppend(Scalars(t), Items(9, EncodeAttrs(t.attrs)), 9);
    SubsOfItems(9, EncodeAttrs(t.attrs));
    assert [] + EncodeAttrs(t.attrs) == EncodeAttrs(t.attrs);
  }

  lemma SpanEncodes(t: SpanTree)
    requires |EncodeSpan(t)| < TWO64
    ensures SpanWire(EncodeSpan(t), t)
  {
    hide Encode, Parse, EncodeStatus, EncodeAttrs, AttrsWire, Merged, LastBytes, LastVarint, LastFixed64, Subs;
    var fs := SpanFields(t);
    FieldsFit(fs);
    ScalarsSelect(t);
    SpanParts(t);
    assert fs[7].val.data == EncodeStatus(t);
    StatusEncodes(t);
    forall i | 0 <= i < |t.attrs| ensures |EncodeAttrs(t.attrs)[i]| < TWO64 {
      assert fs[8 + i].val.data == EncodeAttrs(t.attrs)[i];
    }
    AttrsEncode(t.attrs);
  }

  function EncodeSpans(ts: seq<SpanTree>): (bs: seq<bytes>)
    ensures |bs| == |ts| && forall i :: 0 <= i < |ts| ==> bs[i] == EncodeSpan(ts[i])
  {
    seq(|ts|, i requires 0 <= i < |ts| => EncodeSpan(ts[i]))
  }

  function EncodeName(name: Option<bytes>): seq<Field> {
    match name
    case None => []
    case Some(b) => [Field(1, BytesP(Encode([Field(1, BytesP(b))])))]
  }

  function ScopeFieldsOf(t: ScopeTree): seq<Field> {
    EncodeName(t.name) + Items(2, EncodeSpans(t.spans))
  }

  function EncodeScope(t: ScopeTree): bytes {
    Encode(ScopeFieldsOf(t))
  }

  lemma {:induction false} ItemsScopeFirst(datas: seq<bytes>)
    ensures ScopeFirst(Items(2, datas))
  {
    if datas != [] {
      assert Items(2, datas)[1..] == Items(2, datas[1..]);
      NoMoreBytes(Items(2, datas[1..]), 1, []);
      ItemsScopeFirst(datas[1..]);
    }
  }

  lemma ScopeParts(t: ScopeTree)
    requires t.name.Some? ==> |ScopeFieldsOf(t)[0].val.data| < TWO64
    ensures ScopeFirst(ScopeFieldsOf(t))
    ensures OptionalName(Merged(ScopeFieldsOf(t), 1)) == t.name
    ensures Subs(ScopeFieldsOf(t), 2) == EncodeSpans(t.spans)
  {
    hide Encode, Parse, EncodeSpan;
    var spans := Items(2, EncodeSpans(t.spans));
    var fs := ScopeFieldsOf(t);
    ItemsScopeFirst(EncodeSpans(t.spans));
    SubsAppend(EncodeName(t.name), spans, 2);
    NoMoreBytes(EncodeName(t.name), 2, []);
    SubsOfItems(2, EncodeSpans(t.spans));
    NoMoreBytes(spans, 1, []);
    assert [] + EncodeSpans(t.spans) == EncodeSpans(t.spans);
    if t.name.None? {
      assert fs == spans;
    } else {
      var inner := [Field(1, BytesP(t.name.value))];
      assert fs[1..] == spans;
      MergedIn(fs, 0, 1);
      OneFieldParses(inner[0]);
      LastBytesIn(inner, 0, 1, []);
      SomeSub(inner, 0, 1);
    }
  }

  lemma ScopeEncodes(t: ScopeTree)
    requires |EncodeScope(t)| < TWO64
    ensures ScopeWire(EncodeScope(t), t) && ScopeFirst(Parse(EncodeScope(t)).fields)
  {
    hide Encode, Parse, EncodeSpan, SpanWire, ScopeFirst, Merged, Subs, OptionalName;
    var fs, k := ScopeFieldsOf(t), |EncodeName(t.name)|;
    FieldsFit(fs);
    ScopeParts(t);
    forall i | 0 <= i < |t.spans| ensures SpanWire(EncodeSpans(t.spans)[i], t.spans[i]) {
      assert fs[k + i].val.data == EncodeSpan(t.spans[i]);
      SpanEncodes(t.spans[i]);
    }
  }

  function EncodeScopes(ts: seq<ScopeTree>): (bs: seq<bytes>)
    ensures |bs| == |ts| && forall i :: 0 <= i < |ts| ==> bs[i] == EncodeScope(ts[i])
  {
    seq(|ts|, i requires 0 <= i < |ts| => EncodeScope(ts[i]))
  }

  function ResourceFieldsOf(t: ResourceTree): seq<Field> {
    [Field(1, BytesP(Encode(Items(1, EncodeAttrs(t.attrs)))))] + Items(2, EncodeScopes(t.scopes))
  }

  function EncodeResource(t: ResourceTree): bytes {
    Encode(ResourceFieldsOf(t))
  }

  lemma ResourceEncodes(t: ResourceTree)
    requires |EncodeResource(t)| < TWO64
    ensures ResourceWire(EncodeResource(t), t) && AllScopeFirst(Subs(Parse(EncodeResource(t)).fields, 2))
  {
    hide Encode, Parse, EncodeAttrs, EncodeScope, ScopeWire, AttrsWire, Merged, ScopeFirst;
    var fs, scopes := ResourceFieldsOf(t), Items(2, EncodeScopes(t.scopes));
    FieldsFit(fs);
    MergedIn(fs, 0, 1);
    ItemsParse(1, EncodeAttrs(t.attrs));
    AttrsEncode(t.attrs);
    assert fs[1..] == scopes;
    SubsOfItems(2, EncodeScopes(t.scopes));
    forall i | 0 <= i < |t.scopes|
      ensures ScopeWire(EncodeScopes(t.scopes)[i], t.scopes[i]) && ScopeFirst(Parse(EncodeScopes(t.scopes)[i]).fields)
    {
      assert fs[1 + i].val.data == EncodeScope(t.scopes[i]);
      ScopeEncodes(t.scopes[i]);
    }
  }

  function EncodeResources(req: RequestTree): (bs: seq<bytes>)
    ensures |bs| == |req| && forall i :: 0 <= i < |req| ==> bs[i] == EncodeResource(req[i])
  {
    seq(|req|, i requires 0 <= i < |req| => EncodeResource(req[i]))
  }

  function EncodeRequest(req: RequestTree): bytes {
    Encode(Items(1, EncodeResources(req)))
  }

  lemma RequestEncodes(req: RequestTree)
    requires |EncodeRequest(req)| < TWO64
    ensures RequestWire(EncodeRequest(req), req) && RequestInTime(Subs(Parse(EncodeRequest(req)).fields, 1), req)
  {
    hide Encode, Parse, EncodeResource, ResourceWire, AllScopeFirst, RequestInTime;
    var datas := EncodeResources(req);
    ItemsParse(1, datas);
    forall i | 0 <= i < |req| ensures ResourceWire(datas[i], req[i]) && AllScopeFirst(Subs(Parse(datas[i]).fields, 2)) {
      ResourceEncodes(req[i]);
    }
    ResourcesInTime(datas, req);
  }

  lemma {:induction false} ResourcesInTime(items: seq<bytes>, req: RequestTree)
    requires |items| == |req|
    requires forall i :: 0 <= i < |items| ==> AllScopeFirst(Subs(Parse(items[i]).fields, 2))
    ensures RequestInTime(items, req)
    decreases |req|
  {
    hide Parse, AllScopeFirst, ScopesInTime;
    if req != [] {
      AllScopeFirstIsInTime(Subs(Parse(items[0]).fields, 2), req[0].scopes, NEW_CONTEXT.scope);
      ResourcesInTime(items[1..], req[1..]);
    }
  }

  /** The literal round trip: encoding a request and decoding it gives its spans. */
  lemma RoundTrip(g: DoubleFormat, req: RequestTree)
    requires |EncodeRequest(req)| < TWO64 && FitsBuffers(req)
    ensures RequestWalk(g, EncodeRequest(req)) == Out(Flatten(g, req), true)
  {
    RequestEncodes(req);
    DecodingInvertsEncoding(g, EncodeRequest(req), req);
  }
}
