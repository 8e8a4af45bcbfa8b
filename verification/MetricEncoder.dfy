/** A canonical encoder for metrics: every well-kinded metric tree has a wire form. */
module MetricEncoder {
  import opened Bytes
  import opened Wire
  import opened Attributes
  import opened AttributeTree
  import opened Delivery
  import opened Rendering
  import opened Metrics
  import opened TraceTree
  import opened MetricTree
  import opened Encoder

  /** Histograms hold histogram points, gauges and sums hold numbers of 64 bits. */
  predicate WellKinded(c: ContainerTree) {
    && c.kind in {"gauge", "sum", "histogram"}
    && forall i :: 0 <= i < |c.points| ==> PointFits(c.kind, c.points[i])
  }

  predicate PointFits(kind: string, t: PointTree) {
    match t
    case NumberPoint(_, Bits(_), _) => kind != "histogram"
    case NumberPoint(_, FromInt(i), _) => kind != "histogram" && -TWO63 <= i < TWO63
    case HistogramPoint(_, _, _, _) => kind == "histogram"
  }

  predicate AllWellKinded(cs: seq<ContainerTree>) {
    forall i :: 0 <= i < |cs| ==> WellKinded(cs[i])
  }

  function FromInt64(i: int): u64
    requires -TWO63 <= i < TWO63
  {
    if i >= 0 then i else i + TWO64
  }

  function NumberField(x: Number): Field
    requires x.FromInt? ==> -TWO63 <= x.i < TWO63
  {
    match x
    case Bits(b) => Field(4, Fixed64P(b))
    case FromInt(i) => Field(6, Fixed64P(FromInt64(i)))
  }

  function PointScalars(kind: string, t: PointTree): seq<Field>
    requires PointFits(kind, t)
  {
    match t
    case NumberPoint(time, value, _) => [Field(3, Fixed64P(time)), NumberField(value)]
    case HistogramPoint(time, count, sum, _) =>
      [Field(3, Fixed64P(time)), Field(4, Fixed64P(count)), Field(5, Fixed64P(sum))]
  }

  function PointFields(kind: string, t: PointTree): seq<Field>
    requires PointFits(kind, t)
  {
    PointScalars(kind, t) + Items(if t.NumberPoint? then 7 else 9, EncodeAttrs(t.attrs))
  }

  function EncodePoint(kind: string, t: PointTree): bytes
    requires PointFits(kind, t)
  {
    Encode(PointFields(kind, t))
  }

  function EncodePoints(kind: string, ts: seq<PointTree>): (bs: seq<bytes>)
    requires forall i :: 0 <= i < |ts| ==> PointFits(kind, ts[i])
    ensures |bs| == |ts| && forall i :: 0 <= i < |ts| ==> bs[i] == EncodePoint(kind, ts[i])
  {
    seq(|ts|, i requires 0 <= i < |ts| => EncodePoint(kind, ts[i]))
  }

  function EncodeContainer(c: ContainerTree): bytes
    requires WellKinded(c)
  {
    Encode(Items(1, EncodePoints(c.kind, c.points)))
  }

  function ContainerField(c: ContainerTree): (f: Field)
    requires WellKinded(c)
    ensures IsContainer(f) && ContainerOf(f) == Container(c.kind, EncodeContainer(c))
  {
    Field(if c.kind == "gauge" then 5 else if c.kind == "sum" then 7 else 9, BytesP(EncodeContainer(c)))
  }

  function ContainerFields(cs: seq<ContainerTree>): (fs: seq<Field>)
    requires AllWellKinded(cs)
    ensures |fs| == |cs| && forall i :: 0 <= i < |cs| ==> fs[i] == ContainerField(cs[i])
  {
    seq(|cs|, i requires 0 <= i < |cs| => ContainerField(cs[i]))
  }

  function MetricFields(t: MetricTree): seq<Field>
    requires AllWellKinded(t.data)
  {
    [Field(1, BytesP(t.name)), Field(2, BytesP(t.description)), Field(3, BytesP(t.unit))] + ContainerFields(t.data)
  }

  function EncodeMetric(t: MetricTree): bytes
    requires AllWellKinded(t.data)
  {
    Encode(MetricFields(t))
  }

  // ------------------------ Points ------------------------

  lemma {:induction false} NoNumbers(fs: seq<Field>, x: Number)
    requires forall i :: 0 <= i < |fs| ==> fs[i].val.BytesP?
    ensures LastNumber(fs, x) == x
  {
    if fs != [] { NoNumbers(fs[1..], x); }
  }

  lemma NumberSelects(time: u64, value: Number, more: seq<Field>)
    requires value.FromInt? ==> -TWO63 <= value.i < TWO63
    requires forall i :: 0 <= i < |more| ==> more[i].val.BytesP?
    ensures LastNumber([Field(3, Fixed64P(time)), NumberField(value)] + more, Bits(0)) == value
  {
    var f := NumberField(value);
    var fs := [Field(3, Fixed64P(time)), f] + more;
    assert fs[1..] == [f] + more && ([f] + more)[1..] == more;
    NoNumbers(more, value);
    assert value.FromInt? ==> ToInt64(FromInt64(value.i)) == value.i;
  }

  lemma PointSelects(kind: string, t: PointTree)
    requires PointFits(kind, t)
    ensures var fs := PointFields(kind, t);
            && LastFixed64(fs, 3, 0) == t.timeNs
            && Subs(fs, if t.NumberPoint? then 7 else 9) == EncodeAttrs(t.attrs)
            && match t
               case NumberPoint(_, value, _) => LastNumber(fs, Bits(0)) == value
               case HistogramPoint(_, count, sum, _) => LastFixed64(fs, 4, 0) == count && LastFixed64(fs, 5, 0) == sum
  {
    hide EncodeAttrs, LastFixed64, LastNumber, Subs;
    var fs, n := PointFields(kind, t), |PointScalars(kind, t)|;
    var num := if t.NumberPoint? then 7 else 9;
    var attrs := Items(num, EncodeAttrs(t.attrs));
    LastWordsIn(fs, 0, 3, 0);
    NoMoreBytes(PointScalars(kind, t), num, []);
    SubsAppend(PointScalars(kind, t), attrs, num);
    SubsOfItems(num, EncodeAttrs(t.attrs));
    assert [] + EncodeAttrs(t.attrs) == EncodeAttrs(t.attrs);
    match t
    case NumberPoint(time, value, _) => NumberSelects(time, value, attrs);
    case HistogramPoint(_, _, _, _) => LastWordsIn(fs, 1, 4, 0); LastWordsIn(fs, 2, 5, 0);
  }

  lemma PointEncodes(kind: string, t: PointTree)
    requires PointFits(kind, t) && |EncodePoint(kind, t)| < TWO64
    ensures PointWire(EncodePoint(kind, t), kind, t)
  {
    hide Encode, Parse, EncodeAttrs, AttrsWire, LastFixed64, LastNumber, Subs;
    var fs, n := PointFields(kind, t), |PointScalars(kind, t)|;
    FieldsFit(fs);
    PointSelects(kind, t);
    forall i | 0 <= i < |t.attrs| ensures |EncodeAttrs(t.attrs)[i]| < TWO64 {
      assert fs[n + i].val.data == EncodeAttrs(t.attrs)[i];
    }
    AttrsEncode(t.attrs);
  }

  // ------------------------ Containers and metrics ------------------------

  lemma ContainerEncodes(c: ContainerTree)
    requires WellKinded(c) && |EncodeContainer(c)| < TWO64
    ensures ContainerWire(Container(c.kind, EncodeContainer(c)), c)
  {
    hide Encode, Parse, EncodePoint, PointWire, PointFits;
    var datas := EncodePoints(c.kind, c.points);
    ItemsParse(1, datas);
    forall i | 0 <= i < |datas| ensures PointWire(datas[i], c.kind, c.points[i]) {
      assert PointFits(c.kind, c.points[i]);
      PointEncodes(c.kind, c.points[i]);
    }
  }

  lemma {:induction false} ContainersOfFields(cs: seq<ContainerTree>)
    requires AllWellKinded(cs)
    ensures var found := Containers(ContainerFields(cs));
            |found| == |cs| && forall i :: 0 <= i < |cs| ==> found[i] == Container(cs[i].kind, EncodeContainer(cs[i]))
  {
    hide WellKinded, EncodeContainer;
    if cs != [] {
      assert ContainerFields(cs)[1..] == ContainerFields(cs[1..]);
      ContainersOfFields(cs[1..]);
    }
  }

  lemma {:induction false} ContainersSkip(a: seq<Field>, b: seq<Field>)
    requires forall i :: 0 <= i < |a| ==> !IsContainer(a[i])
    ensures Containers(a + b) == Containers(b)
  {
    if a == [] { assert a + b == b; } else {
      assert (a + b)[1..] == a[1..] + b;
      ContainersSkip(a[1..], b);
    }
  }

  lemma MetricSelects(t: MetricTree)
    requires AllWellKinded(t.data)
    ensures var fs := MetricFields(t);
            && LastBytes(fs, 1, []) == t.name && LastBytes(fs, 2, []) == t.description
            && LastBytes(fs, 3, []) == t.unit && Containers(fs) == Containers(ContainerFields(t.data))
  {
    hide LastBytes, EncodeContainer, WellKinded, Containers;
    var fs := MetricFields(t);
    LastBytesIn(fs, 0, 1, []);
    LastBytesIn(fs, 1, 2, []);
    LastBytesIn(fs, 2, 3, []);
    ContainersSkip([Field(1, BytesP(t.name)), Field(2, BytesP(t.description)), Field(3, BytesP(t.unit))],
                   ContainerFields(t.data));
  }

  /** Every well-kinded metric has a wire form, with any number of containers. */
  lemma MetricEncodes(t: MetricTree)
    requires AllWellKinded(t.data) && |EncodeMetric(t)| < TWO64
    ensures MetricWire(EncodeMetric(t), t)
  {
    hide Encode, Parse, EncodeContainer, ContainerWire, LastBytes, Containers, WellKinded;
    var fs := MetricFields(t);
    FieldsFit(fs);
    MetricSelects(t);
    ContainersOfFields(t.data);
    forall i | 0 <= i < |t.data|
      ensures ContainerWire(Container(t.data[i].kind, EncodeContainer(t.data[i])), t.data[i])
    {
      assert fs[3 + i].val.data == EncodeContainer(t.data[i]);
      ContainerEncodes(t.data[i]);
    }
  }

  /** Encoding a metric and decoding it gives the points of its first eight containers. */
  lemma MetricReturns(g: DoubleFormat, t: MetricTree, ctx: Context)
    requires AllWellKinded(t.data) && |EncodeMetric(t)| < TWO64 && CopyStr(t.name, NAME_CAP) != ""
    ensures MetricWalk(g, EncodeMetric(t), ctx)
            == Out(DataRows(g, ctx, StringsOf(t), Take(t.data, 8)), true)
  {
    hide MetricWire, EncodeMetric, WellKinded, MetricWalk, DataRows;
    MetricEncodes(t);
    MetricEmitsRows(g, EncodeMetric(t), t, ctx);
  }

  // ------------------------ Nine containers ------------------------

  const GAUGE := ContainerTree("gauge", [NumberPoint(0, Bits(0), [])])
  const NINE := MetricTree([0x6D], [], [], Repeat(GAUGE, 9))

  lemma NineFit()
    ensures AllWellKinded(NINE.data) && |EncodeMetric(NINE)| < TWO64
  {
    hide Encode;
    var point := PointFields("gauge", GAUGE.points[0]);
    assert EncodeAttrs([]) == [] && point == [Field(3, Fixed64P(0)), Field(4, Fixed64P(0))];
    assert point[1..] == [Field(4, Fixed64P(0))] && point[1..][1..] == [];
    EncodeIsShort(point);
    var data := EncodePoint("gauge", GAUGE.points[0]);
    assert |data| <= 40 && WellKinded(GAUGE);
    var items := Items(1, EncodePoints("gauge", GAUGE.points));
    assert items == [Field(1, BytesP(data))] && items[1..] == [];
    EncodeIsShort(items);
    assert |EncodeContainer(GAUGE)| <= 60;
    NineWeigh();
  }

  lemma NineWeigh()
    requires WellKinded(GAUGE) && |EncodeContainer(GAUGE)| <= 60
    ensures AllWellKinded(NINE.data) && |EncodeMetric(NINE)| < TWO64
  {
    hide Encode, EncodeContainer, WellKinded;
    var fs := MetricFields(NINE);
    assert |fs| == 12 && forall i :: 0 <= i < 12 ==> fs[i].val.BytesP? && |fs[i].val.data| <= 60;
    EncodeIsBounded(fs, 60);
  }

  /** Of nine gauges with one point each, eight are stored. */
  lemma NinthIsLost(g: DoubleFormat, ctx: Context)
    ensures MetricWire(EncodeMetric(NINE), NINE)
    ensures PointCount(NINE.data) == 9 && |MetricWalk(g, EncodeMetric(NINE), ctx).rows| == 8
  {
    hide EncodeMetric, MetricWire, MetricWalk;
    NineFit();
    MetricEncodes(NINE);
    assert CopyStr([0x6D], NAME_CAP) != "" by { assert CBytes([0x6D])[0] == 0x6D; }
    MetricReturns(g, NINE, ctx);
    OnePointEach(NINE.data);
    OnePointEach(NINE.data[..8]);
  }

  lemma {:induction false} OnePointEach(cs: seq<ContainerTree>)
    requires forall i :: 0 <= i < |cs| ==> |cs[i].points| == 1
    ensures PointCount(cs) == |cs|
  {
    if cs != [] { OnePointEach(cs[1..]); }
  }
}
