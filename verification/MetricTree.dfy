/** Metrics as trees: the rows of a metric do not depend on how its fields are ordered. */
module MetricTree {
  import opened Bytes
  import opened Wire
  import opened Attributes
  import opened Rendering
  import opened AttributeTree
  import opened Delivery
  import opened Metrics
  import opened TraceTree

  datatype PointTree =
    | NumberPoint(timeNs: u64, value: Number, attrs: seq<Attr>)
    | HistogramPoint(timeNs: u64, count: u64, sum: u64, attrs: seq<Attr>)
  datatype ContainerTree = ContainerTree(kind: string, points: seq<PointTree>)
  datatype MetricTree = MetricTree(name: bytes, description: bytes, unit: bytes, data: seq<ContainerTree>)

  // ------------------------ Wire forms ------------------------

  /** as_double and as_int share one slot; the last one counts. */
  function LastNumber(fs: seq<Field>, x: Number): Number {
    if fs == [] then x
    else LastNumber(fs[1..], if IsFixed64(fs[0], 4) then Bits(fs[0].val.word)
                             else if IsFixed64(fs[0], 6) then FromInt(ToInt64(fs[0].val.word)) else x)
  }

  predicate PointWire(s: bytes, kind: string, t: PointTree) {
    var fs := Parse(s).fields;
    && Whole(s)
    && LastFixed64(fs, 3, 0) == t.timeNs
    && match t
       case NumberPoint(_, value, attrs) =>
         && kind != "histogram"
         && LastNumber(fs, Bits(0)) == value
         && AttrsWire(Subs(fs, 7), attrs)
       case HistogramPoint(_, count, sum, attrs) =>
         && kind == "histogram"
         && LastFixed64(fs, 4, 0) == count && LastFixed64(fs, 5, 0) == sum
         && AttrsWire(Subs(fs, 9), attrs)
  }

  predicate ContainerWire(c: Container, t: ContainerTree) {
    var items := Subs(Parse(c.data).fields, 1);
    && Whole(c.data)
    && c.kind == t.kind
    && |items| == |t.points|
    && forall i :: 0 <= i < |items| ==> PointWire(items[i], t.kind, t.points[i])
  }

  /** The data containers of a Metric in wire order. */
  function Containers(fs: seq<Field>): seq<Container> {
    if fs == [] then []
    else (if IsContainer(fs[0]) then [ContainerOf(fs[0])] else []) + Containers(fs[1..])
  }

  predicate ContainersWire(cs: seq<Container>, ts: seq<ContainerTree>) {
    |cs| == |ts| && forall i :: 0 <= i < |cs| ==> ContainerWire(cs[i], ts[i])
  }

  /** Name, description, unit and data may come in any order, unknown fields anywhere. */
  predicate MetricWire(s: bytes, t: MetricTree) {
    var fs := Parse(s).fields;
    && Whole(s)
    && LastBytes(fs, 1, []) == t.name
    && LastBytes(fs, 2, []) == t.description
    && LastBytes(fs, 3, []) == t.unit
    && ContainersWire(Containers(fs), t.data)
  }

  // ------------------------ Rows ------------------------

  /** A number point counts as one observation; a histogram point has its own count and sum. */
  function BodyOf(t: PointTree): Body {
    match t
    case NumberPoint(time, value, _) => Body(value, 1, time)
    case HistogramPoint(time, count, sum, _) => Body(Bits(sum), ToInt64(count), time)
  }

  function RowOf(g: DoubleFormat, ctx: Context, strings: Strings, kind: string, t: PointTree): Point {
    PointRow(ctx, strings, kind, BodyOf(t), "{" + PrintEntries(g, t.attrs, true, 0) + "}")
  }

  function PointRows(g: DoubleFormat, ctx: Context, strings: Strings, kind: string,
                     ts: seq<PointTree>): (rows: seq<Point>)
    ensures |rows| == |ts|
  {
    if ts == [] then [] else [RowOf(g, ctx, strings, kind, ts[0])] + PointRows(g, ctx, strings, kind, ts[1..])
  }

  function DataRows(g: DoubleFormat, ctx: Context, strings: Strings, ts: seq<ContainerTree>): (rows: seq<Point>)
    ensures |rows| == PointCount(ts)
  {
    if ts == [] then []
    else PointRows(g, ctx, strings, ts[0].kind, ts[0].points) + DataRows(g, ctx, strings, ts[1..])
  }

  function PointCount(ts: seq<ContainerTree>): nat {
    if ts == [] then 0 else |ts[0].points| + PointCount(ts[1..])
  }

  function StringsOf(t: MetricTree): Strings {
    Strings(CopyStr(t.name, NAME_CAP), CopyStr(t.description, DESC_CAP), CopyStr(t.unit, UNIT_CAP))
  }

  // ------------------------ Points ------------------------

  lemma {:induction false} NumberIsLast(kind: string, fs: seq<Field>, b: Body)
    requires kind != "histogram"
    ensures BodyFold(kind, fs, b) == Body(LastNumber(fs, b.value), b.count, LastFixed64(fs, 3, b.timeNs))
  {
    if fs != [] { NumberIsLast(kind, fs[1..], BodyStep(kind, b, fs[0])); }
  }

  lemma {:induction false} HistogramIsLast(fs: seq<Field>, count: u64, sum: u64, time: u64)
    ensures BodyFold("histogram", fs, Body(Bits(sum), ToInt64(count), time))
            == Body(Bits(LastFixed64(fs, 5, sum)), ToInt64(LastFixed64(fs, 4, count)), LastFixed64(fs, 3, time))
  {
    hide ToInt64;
    if fs != [] {
      var f := fs[0];
      HistogramIsLast(fs[1..], if IsFixed64(f, 4) then f.val.word else count,
                      if IsFixed64(f, 5) then f.val.word else sum, if IsFixed64(f, 3) then f.val.word else time);
    }
  }

  lemma PointEmitsRow(g: DoubleFormat, s: bytes, ctx: Context, strings: Strings, kind: string, t: PointTree)
    requires PointWire(s, kind, t)
    ensures PointOut(g, s, ctx, strings, kind) == Out([RowOf(g, ctx, strings, kind, t)], true)
  {
    hide Parse, BodyFold, KvListText, PrintEntries, AttrsWire, LastFixed64, LastNumber, Take;
    var fs := Parse(s).fields;
    EntriesPrint(g, fs, AttrsField(kind), t.attrs, true, 0);
    if t.NumberPoint? {
      NumberIsLast(kind, fs, NewBody(kind));
    } else {
      HistogramIsLast(fs, 0, 0, 0);
    }
  }

  lemma {:induction false} ContainerFieldsEmit(g: DoubleFormat, fs: seq<Field>, ending: Ending, ctx: Context,
                                               strings: Strings, kind: string, ts: seq<PointTree>)
    requires !ending.AtBadPayload? && |Subs(fs, 1)| == |ts|
    requires forall i :: 0 <= i < |ts| ==> PointWire(Subs(fs, 1)[i], kind, ts[i])
    ensures ContainerFields(g, fs, ending, ctx, strings, kind) == Out(PointRows(g, ctx, strings, kind, ts), true)
    decreases |fs|
  {
    hide PointWire, PointOut, RowOf;
    if fs != [] {
      if IsBytes(fs[0], 1) {
        var more := Subs(fs[1..], 1);
        assert Subs(fs, 1)[0] == fs[0].val.data;
        PointEmitsRow(g, fs[0].val.data, ctx, strings, kind, ts[0]);
        assert forall i :: 0 <= i < |more| ==> more[i] == Subs(fs, 1)[i + 1] && ts[1..][i] == ts[i + 1];
        ContainerFieldsEmit(g, fs[1..], ending, ctx, strings, kind, ts[1..]);
      } else {
        ContainerFieldsEmit(g, fs[1..], ending, ctx, strings, kind, ts);
      }
    }
  }

  lemma {:induction false} ContainersEmit(g: DoubleFormat, cs: seq<Container>, ctx: Context, strings: Strings,
                                          ts: seq<ContainerTree>)
    requires ContainersWire(cs, ts)
    ensures ContainersWalk(g, cs, ctx, strings) == Out(DataRows(g, ctx, strings, ts), true)
    decreases |cs|
  {
    hide Parse, ContainerFields, PointWire, PointRows;
    if cs != [] {
      var c := cs[0];
      ContainerFieldsEmit(g, Parse(c.data).fields, Parse(c.data).ending, ctx, strings, c.kind, ts[0].points);
      ContainersEmit(g, cs[1..], ctx, strings, ts[1..]);
    }
  }

  // ------------------------ Metrics ------------------------

  lemma {:induction false} DraftIsLast(fs: seq<Field>, name: bytes, description: bytes, unit: bytes,
                                       pending: seq<Container>)
    requires |pending| <= 8
    ensures DraftFold(fs, Draft(Strings(CopyStr(name, NAME_CAP), CopyStr(description, DESC_CAP),
                                        CopyStr(unit, UNIT_CAP)), pending))
            == Draft(Strings(CopyStr(LastBytes(fs, 1, name), NAME_CAP),
                             CopyStr(LastBytes(fs, 2, description), DESC_CAP),
                             CopyStr(LastBytes(fs, 3, unit), UNIT_CAP)), Take(pending + Containers(fs), 8))
  {
    hide CopyStr;
    if fs == [] {
      assert pending + [] == pending;
    } else {
      var f := fs[0];
      var next := if IsContainer(f) && |pending| < 8 then pending + [ContainerOf(f)] else pending;
      DraftIsLast(fs[1..], if IsBytes(f, 1) then f.val.data else name,
                  if IsBytes(f, 2) then f.val.data else description,
                  if IsBytes(f, 3) then f.val.data else unit, next);
      TakeNext(pending, f, Containers(fs[1..]));
    }
  }

  lemma TakeNext(pending: seq<Container>, f: Field, more: seq<Container>)
    requires |pending| <= 8
    ensures var front := if IsContainer(f) then [ContainerOf(f)] else [];
            var next := if IsContainer(f) && |pending| < 8 then pending + [ContainerOf(f)] else pending;
            Take(pending + (front + more), 8) == Take(next + more, 8)
  {
    if IsContainer(f) && |pending| < 8 {
      assert pending + ([ContainerOf(f)] + more) == pending + [ContainerOf(f)] + more;
    } else if IsContainer(f) {
      assert Take(pending + ([ContainerOf(f)] + more), 8) == pending;
      assert Take(pending + more, 8) == pending;
    } else {
      assert [] + more == more;
    }
  }

  /** Whatever wire form spells a metric, its rows are those of its first eight containers, or
      none when it has no name. */
  lemma MetricEmitsRows(g: DoubleFormat, s: bytes, t: MetricTree, ctx: Context)
    requires MetricWire(s, t)
    ensures MetricWalk(g, s, ctx)
            == Out(if CopyStr(t.name, NAME_CAP) == "" then []
                   else DataRows(g, ctx, StringsOf(t), Take(t.data, 8)), true)
  {
    hide Parse, DraftFold, ContainersWalk, DataRows, ContainerWire, LastBytes, CopyStr;
    var fs := Parse(s).fields;
    EmptyCopies();
    DraftIsLast(fs, [], [], [], []);
    assert [] + Containers(fs) == Containers(fs);
    ContainersEmit(g, Take(Containers(fs), 8), ctx, StringsOf(t), Take(t.data, 8));
  }

  lemma EmptyCopies()
    ensures CopyStr([], NAME_CAP) == "" && CopyStr([], DESC_CAP) == "" && CopyStr([], UNIT_CAP) == ""
  {
  }

  /** Any two wire forms of one metric decode to the same rows. */
  lemma FieldOrderIsIrrelevant(g: DoubleFormat, a: bytes, b: bytes, t: MetricTree, ctx: Context)
    requires MetricWire(a, t) && MetricWire(b, t)
    ensures MetricWalk(g, a, ctx) == MetricWalk(g, b, ctx)
  {
    MetricEmitsRows(g, a, t, ctx);
    MetricEmitsRows(g, b, t, ctx);
  }

  lemma {:induction false} DataRowsConcat(g: DoubleFormat, ctx: Context, strings: Strings, a: seq<ContainerTree>,
                                          b: seq<ContainerTree>)
    ensures DataRows(g, ctx, strings, a + b) == DataRows(g, ctx, strings, a) + DataRows(g, ctx, strings, b)
  {
    hide PointRows;
    if a == [] { assert a + b == b; } else {
      assert (a + b)[1..] == a[1..] + b;
      DataRowsConcat(g, ctx, strings, a[1..], b);
    }
  }

  /** A named metric loses no data point if and only if the containers past the eighth are empty. */
  lemma AllPointsIff(g: DoubleFormat, s: bytes, t: MetricTree, ctx: Context)
    requires MetricWire(s, t) && CopyStr(t.name, NAME_CAP) != ""
    ensures MetricWalk(g, s, ctx).rows == DataRows(g, ctx, StringsOf(t), t.data)
            <==> |t.data| <= 8 || PointCount(t.data[8..]) == 0
  {
    hide MetricWire, MetricWalk, DataRows, PointCount, CopyStr;
    MetricEmitsRows(g, s, t, ctx);
    if |t.data| > 8 {
      var kept, lost := t.data[..8], t.data[8..];
      assert t.data == kept + lost;
      DataRowsConcat(g, ctx, StringsOf(t), kept, lost);
      assert |DataRows(g, ctx, StringsOf(t), lost)| == PointCount(lost);
    }
  }
}
