/** The metric decoder (otlp_metric.c): one row per data point. */
module Metrics {
  import opened Bytes
  import opened Wire
  import opened Reading
  import opened Builder
  import opened Attributes
  import opened Rendering
  import opened Delivery
  import Trace

  const NAME_CAP := 256
  const DESC_CAP := 256
  const UNIT_CAP := 64
  const ATTRS_CAP := 2048
  const PID_KEY_CAP := 64
  const PENDING_MAX := 64
  const CONTAINERS_MAX := 8

  /** A double is either transmitted as its bit pattern or converted from an integer. */
  datatype Number = Bits(bits: u64) | FromInt(i: int)

  datatype Body = Body(value: Number, count: int, timeNs: u64)
  datatype Strings = Strings(name: string, description: string, unit: string)
  datatype Context = Context(service: string, scope: string, labelName: string, pidKey: string)

  /** pw_metric_point_t. */
  datatype Point = Point(ctx: Context, strings: Strings, kind: string, body: Body, attributes: string)

  const HISTOGRAM := "histogram"

  // ------------------------ What is emitted ------------------------

  function AttrsField(kind: string): nat {
    if kind == HISTOGRAM then 9 else 7
  }

  function NewBody(kind: string): Body {
    Body(Bits(0), if kind == HISTOGRAM then 0 else 1, 0)
  }

  function BodyStep(kind: string, b: Body, f: Field): Body {
    if IsFixed64(f, 3) then b.(timeNs := f.val.word)
    else if kind == HISTOGRAM then
      if IsFixed64(f, 4) then b.(count := ToInt64(f.val.word))
      else if IsFixed64(f, 5) then b.(value := Bits(f.val.word))
      else b
    else
      if IsFixed64(f, 4) then b.(value := Bits(f.val.word))
      else if IsFixed64(f, 6) then b.(value := FromInt(ToInt64(f.val.word)))
      else b
  }

  function BodyFold(kind: string, fs: seq<Field>, b: Body): Body {
    if fs == [] then b else BodyFold(kind, fs[1..], BodyStep(kind, b, fs[0]))
  }

  function PointRow(ctx: Context, strings: Strings, kind: string, b: Body, attributes: string): Point {
    Point(ctx, strings, kind, b, Take(attributes, ATTRS_CAP - 1))
  }

  function PointOut(g: DoubleFormat, s: bytes, ctx: Context, strings: Strings, kind: string): (out: Out<Point>)
    ensures |out.rows| == if out.ok then 1 else 0
  {
    var p := Parse(s);
    if p.ending.AtBadPayload? then Out([], false)
    else Out([PointRow(ctx, strings, kind, BodyFold(kind, p.fields, NewBody(kind)),
                       "{" + KvListText(g, p.fields, AttrsField(kind), true, 0) + "}")], true)
  }

  /** A gauge, sum or histogram submessage that was set aside. */
  datatype Container = Container(kind: string, data: bytes)

  datatype Draft = Draft(strings: Strings, pending: seq<Container>)

  predicate IsContainer(f: Field) {
    IsBytes(f, 5) || IsBytes(f, 7) || IsBytes(f, 9)
  }

  function ContainerOf(f: Field): Container
    requires IsContainer(f)
  {
    Container(if f.num == 5 then "gauge" else if f.num == 7 then "sum" else HISTOGRAM, f.val.data)
  }

  function DraftStep(d: Draft, f: Field): Draft {
    if IsBytes(f, 1) then d.(strings := d.strings.(name := CopyStr(f.val.data, NAME_CAP)))
    else if IsBytes(f, 2) then d.(strings := d.strings.(description := CopyStr(f.val.data, DESC_CAP)))
    else if IsBytes(f, 3) then d.(strings := d.strings.(unit := CopyStr(f.val.data, UNIT_CAP)))
    else if IsContainer(f) && |d.pending| < CONTAINERS_MAX then d.(pending := d.pending + [ContainerOf(f)])
    else d
  }

  function DraftFold(fs: seq<Field>, d: Draft): Draft {
    if fs == [] then d else DraftFold(fs[1..], DraftStep(d, fs[0]))
  }

  const NEW_DRAFT := Draft(Strings("", "", ""), [])

  function ContainerFields(g: DoubleFormat, fs: seq<Field>, ending: Ending, ctx: Context, strings: Strings,
                           kind: string): Out<Point> {
    if fs == [] then Out([], !ending.AtBadPayload?)
    else if IsBytes(fs[0], 1) then
      Then(PointOut(g, fs[0].val.data, ctx, strings, kind), ContainerFields(g, fs[1..], ending, ctx, strings, kind))
    else ContainerFields(g, fs[1..], ending, ctx, strings, kind)
  }

  function ContainerWalk(g: DoubleFormat, c: Container, ctx: Context, strings: Strings): Out<Point> {
    ContainerFields(g, Parse(c.data).fields, Parse(c.data).ending, ctx, strings, c.kind)
  }

  function ContainersWalk(g: DoubleFormat, cs: seq<Container>, ctx: Context, strings: Strings): Out<Point> {
    if cs == [] then Out([], true)
    else Then(ContainerWalk(g, cs[0], ctx, strings), ContainersWalk(g, cs[1..], ctx, strings))
  }

  function MetricWalk(g: DoubleFormat, s: bytes, ctx: Context): Out<Point> {
    var p := Parse(s);
    var d := DraftFold(p.fields, NEW_DRAFT);
    if p.ending.AtBadPayload? then Out([], false)
    else if d.strings.name == "" then Out([], true)
    else ContainersWalk(g, d.pending, ctx, d.strings)
  }

  datatype ScopeOut = ScopeOut(out: Out<Point>, ctx: Context)

  function ScopeFields(g: DoubleFormat, fs: seq<Field>, ending: Ending, ctx: Context): ScopeOut {
    if fs == [] then ScopeOut(Out([], !ending.AtBadPayload?), ctx)
    else if IsBytes(fs[0], 1) then
      var name := Trace.ScopeNameFold(Parse(fs[0].val.data).fields, ctx.scope);
      ScopeFields(g, fs[1..], ending, ctx.(scope := name))
    else if IsBytes(fs[0], 2) then
      var rest := ScopeFields(g, fs[1..], ending, ctx);
      ScopeOut(Then(MetricWalk(g, fs[0].val.data, ctx), rest.out), rest.ctx)
    else ScopeFields(g, fs[1..], ending, ctx)
  }

  function ScopeWalk(g: DoubleFormat, s: bytes, ctx: Context): ScopeOut {
    ScopeFields(g, Parse(s).fields, Parse(s).ending, ctx)
  }

  function ResourceStep(ctx: Context, f: Field): Context {
    if !IsBytes(f, 1) then ctx
    else
      var kv := KvOf(f.val.data);
      if kv.value.None? then ctx
      else match FirstString(Parse(kv.value.value).fields)
        case None => ctx
        case Some(text) =>
          if Chars(kv.key) == "service.name" then ctx.(service := CopyStr(text, Trace.SERVICE_CAP))
          else if Chars(kv.key) == "procwatch.label" then ctx.(labelName := CopyStr(text, Trace.LABEL_CAP))
          else if Chars(kv.key) == "procwatch.pid_key" then ctx.(pidKey := CopyStr(text, PID_KEY_CAP))
          else ctx
  }

  function ResourceFold(fs: seq<Field>, ctx: Context): Context {
    if fs == [] then ctx else ResourceFold(fs[1..], ResourceStep(ctx, fs[0]))
  }

  function Drain(g: DoubleFormat, pending: seq<bytes>, ctx: Context): Out<Point> {
    if pending == [] then Out([], true)
    else
      var first := ScopeWalk(g, pending[0], ctx);
      Then(first.out, Drain(g, pending[1..], first.ctx))
  }

  function ResourceFields(g: DoubleFormat, fs: seq<Field>, ending: Ending, ctx: Context,
                          pending: seq<bytes>): Out<Point> {
    if fs == [] then
      if ending.AtBadPayload? then Out([], false) else Drain(g, pending, ctx)
    else if IsBytes(fs[0], 1) then
      ResourceFields(g, fs[1..], ending, ResourceFold(Parse(fs[0].val.data).fields, ctx), pending)
    else if IsBytes(fs[0], 2) then
      if |pending| < PENDING_MAX then
        ResourceFields(g, fs[1..], ending, ctx, pending + [fs[0].val.data])
      else
        var now := ScopeWalk(g, fs[0].val.data, ctx);
        Then(now.out, ResourceFields(g, fs[1..], ending, now.ctx, pending))
    else ResourceFields(g, fs[1..], ending, ctx, pending)
  }

  const NEW_CONTEXT := Context("unknown_service", "", "", "")

  function ResourceWalk(g: DoubleFormat, s: bytes): Out<Point> {
    ResourceFields(g, Parse(s).fields, Parse(s).ending, NEW_CONTEXT, [])
  }

  function RequestFields(g: DoubleFormat, fs: seq<Field>, ending: Ending): Out<Point> {
    if fs == [] then Out([], !ending.AtBadPayload?)
    else if IsBytes(fs[0], 1) then Then(ResourceWalk(g, fs[0].val.data), RequestFields(g, fs[1..], ending))
    else RequestFields(g, fs[1..], ending)
  }

  /** Every data point of the request, in the order a sink that never refuses receives them. */
  function RequestWalk(g: DoubleFormat, s: bytes): Out<Point> {
    RequestFields(g, Parse(s).fields, Parse(s).ending)
  }

  // ------------------------ Data points ------------------------

  /** One field of a data point other than an attribute. */
  method DecodePointField(r: Reader, kind: string, b0: Body, num: nat, wire: nat) returns (ok: bool, b: Body)
    requires r.Valid()
    modifies r
    ensures r.Valid() && r.pos >= old(r.pos)
    ensures ok <==> ReadPayload(wire, old(r.Rest())).Some?
    ensures ok ==>
              var p := ReadPayload(wire, old(r.Rest())).value;
              r.Rest() == old(r.Rest())[p.used..] && b == BodyStep(kind, b0, Field(num, p.val))
  {
    hide ReadPayload, ToInt64;
    PayloadKind(wire, r.Rest());
    b := b0;
    if wire == FIXED64 && (num == 3 || num == 4 || (kind == HISTOGRAM && num == 5) || (kind != HISTOGRAM && num == 6)) {
      var bits;
      ok, bits := r.Fixed64();
      if !ok { return; }
      if num == 3 {
        b := b.(timeNs := bits);
      } else if num == 4 && kind == HISTOGRAM {
        b := b.(count := ToInt64(bits));
      } else if num == 6 {
        b := b.(value := FromInt(ToInt64(bits)));
      } else {
        b := b.(value := Bits(bits));
      }
    } else {
      ok := r.Skip(wire);
    }
  }

  lemma PointFieldStep(g: DoubleFormat, kind: string, fs: seq<Field>, first: bool, b: Body)
    ensures fs == [] ==> KvListText(g, fs, AttrsField(kind), first, 0) == "" && BodyFold(kind, fs, b) == b
    ensures fs != [] && IsBytes(fs[0], AttrsField(kind)) ==>
              var s := fs[0].val.data;
              && BodyFold(kind, fs, b) == BodyFold(kind, fs[1..], b)
              && KvListText(g, fs, AttrsField(kind), first, 0)
                 == EntryText(g, s, first, 0) + KvListText(g, fs[1..], AttrsField(kind), first && !HasKey(s), 0)
              && (!HasKey(s) ==> EntryText(g, s, first, 0) == "")
    ensures fs != [] && !IsBytes(fs[0], AttrsField(kind)) ==>
              && BodyFold(kind, fs, b) == BodyFold(kind, fs[1..], BodyStep(kind, b, fs[0]))
              && KvListText(g, fs, AttrsField(kind), first, 0) == KvListText(g, fs[1..], AttrsField(kind), first, 0)
  {
  }

  /** The loop over the fields of a data point. */
  method WalkPoint(g: DoubleFormat, r: Reader, kind: string, attrs: StringBuilder)
      returns (ok: bool, b: Body, have: bool)
    requires r.Valid() && attrs.Valid() && attrs.buf.Length == ATTRS_CAP
    requires attrs.text == "{"
    modifies r, attrs, attrs.buf
    ensures attrs.Valid()
    ensures ok <==> !Parse(old(r.Rest())).ending.AtBadPayload?
    ensures ok ==>
              && b == BodyFold(kind, Parse(old(r.Rest())).fields, NewBody(kind))
              && attrs.text == "{" + KvListText(g, Parse(old(r.Rest())).fields, AttrsField(kind), true, 0)
              && (!have ==> attrs.text == "{")
  {
    hide Parse, ReadTag, ReadPayload, BodyStep, EntryText, HasKey, KvListText, BodyFold;
    ok, b, have := true, NewBody(kind), false;
    var first, attrsField := true, AttrsField(kind);
    ghost var all := Parse(r.Rest());
    ghost var text := "{" + KvListText(g, all.fields, attrsField, true, 0);
    ghost var todo := all.fields;
    while true
      invariant r.Valid() && attrs.Valid()
      invariant Parse(r.Rest()) == Parsed(todo, all.ending)
      invariant BodyFold(kind, todo, b) == BodyFold(kind, all.fields, NewBody(kind))
      invariant attrs.text + KvListText(g, todo, attrsField, first, 0) == text
      invariant have == !first && (first ==> attrs.text == "{")
      decreases r.end - r.pos
    {
      ParseStep(r.Rest());
      PointFieldStep(g, kind, todo, first, b);
      var next, num, wire := r.Next();
      if next != 1 { break; }
      if num == attrsField && wire == BYTES {
        var got, kv := r.Submsg();
        if !got { return false, b, have; }
        ghost var before, entry := attrs.text, kv.Rest();
        var wrote := AppendEntry(g, kv, attrs, first, 0);
        ghost var rest := KvListText(g, todo[1..], attrsField, first && !wrote, 0);
        assert before + (EntryText(g, entry, first, 0) + rest) == attrs.text + rest;
        if wrote { first, have := false, true; }
      } else {
        PayloadKind(wire, r.Rest());
        var got, next := DecodePointField(r, kind, b, num, wire);
        if !got { return false, b, have; }
        b := next;
      }
      todo := todo[1..];
    }
  }

  /** decode_number_point and decode_histogram_point, which differ in field numbers only. */
  method DecodePoint(g: DoubleFormat, r: Reader, ctx: Context, strings: Strings, kind: string, sink: Sink<Point>)
      returns (rc: int)
    requires r.Valid()
    modifies r, sink
    ensures var out := PointOut(g, old(r.Rest()), ctx, strings, kind);
            if out.ok then sink.calls == old(sink.calls) + out.rows && rc == sink.verdict(sink.calls)
            else sink.calls == old(sink.calls) && rc == -1
  {
    hide Parse, KvListText, BodyFold;
    var attrs := new StringBuilder(ATTRS_CAP);
    attrs.Putc('{');
    var ok, b, have := WalkPoint(g, r, kind, attrs);
    if !ok { return -1; }
    attrs.Putc('}');
    var attributes := attrs.buf[..attrs.len];
    if !have { attributes := "{}"; }
    assert attributes == Take(attrs.text, ATTRS_CAP - 1);
    assert Take(attributes, ATTRS_CAP - 1) == attributes;
    rc := sink.Call(PointRow(ctx, strings, kind, b, attributes));
  }

  // ------------------------ Metrics ------------------------

  /** One field of a Metric; containers past the eighth are dropped. */
  method DecodeMetricField(r: Reader, strings0: Strings, pending: array<Container>, held0: nat, num: nat, wire: nat)
      returns (ok: bool, strings: Strings, held: nat)
    requires r.Valid() && held0 <= CONTAINERS_MAX == pending.Length
    modifies r, pending
    ensures r.Valid() && r.pos >= old(r.pos) && held <= CONTAINERS_MAX
    ensures ok <==> ReadPayload(wire, old(r.Rest())).Some?
    ensures ok ==>
              var p := ReadPayload(wire, old(r.Rest())).value;
              && r.Rest() == old(r.Rest())[p.used..]
              && Draft(strings, pending[..held]) == DraftStep(Draft(strings0, old(pending[..held0])), Field(num, p.val))
  {
    hide ReadPayload, CopyStr;
    PayloadKind(wire, r.Rest());
    strings, held := strings0, held0;
    if (num == 1 || num == 2 || num == 3) && wire == BYTES {
      var s;
      ok, s := r.Bytes();
      if !ok { return; }
      if num == 1 {
        strings := strings.(name := CopyStr(s, NAME_CAP));
      } else if num == 2 {
        strings := strings.(description := CopyStr(s, DESC_CAP));
      } else {
        strings := strings.(unit := CopyStr(s, UNIT_CAP));
      }
    } else if (num == 5 || num == 7 || num == 9) && wire == BYTES {
      var s;
      ok, s := r.Bytes();
      if !ok { return; }
      if held < CONTAINERS_MAX {
        pending[held] := Container(if num == 5 then "gauge" else if num == 7 then "sum" else HISTOGRAM, s);
        held := held + 1;
        assert pending[..held] == old(pending[..held0]) + [pending[held0]];
      }
    } else {
      ok := r.Skip(wire);
    }
  }

  method DecodeMetric(g: DoubleFormat, r: Reader, ctx: Context, sink: Sink<Point>, count0: int)
      returns (rc: int, count: int)
    requires r.Valid()
    modifies r, sink
    ensures Delivered(sink.verdict, old(sink.calls), MetricWalk(g, old(r.Rest()), ctx), rc, sink.calls, count - count0)
  {
    hide Parse, ReadTag, ReadPayload, DraftStep, Delivered, ContainersWalk;
    var strings, held := Strings("", "", ""), 0;
    var pending := new Container[CONTAINERS_MAX](_ => Container("", []));
    count := count0;
    ghost var all := Parse(r.Rest());
    ghost var goal := DraftFold(all.fields, NEW_DRAFT);
    ghost var todo := all.fields;
    NothingDelivered(sink.verdict, sink.calls);
    assert pending[..0] == [];
    while true
      invariant r.Valid() && 0 <= held <= CONTAINERS_MAX && fresh(pending) && sink.calls == old(sink.calls)
      invariant Parse(r.Rest()) == Parsed(todo, all.ending)
      invariant DraftFold(todo, Draft(strings, pending[..held])) == goal
      decreases r.end - r.pos
    {
      ParseStep(r.Rest());
      var next, num, wire := r.Next();
      if next != 1 { break; }
      var ok;
      ok, strings, held := DecodeMetricField(r, strings, pending, held, num, wire);
      if !ok { return -1, count; }
      todo := todo[1..];
    }
    if strings.name == "" { return 0, count; }
    rc, count := DecodeContainers(g, pending, held, ctx, strings, sink, count);
  }

  /** The loop over the containers that were set aside. */
  method DecodeContainers(g: DoubleFormat, pending: array<Container>, held: nat, ctx: Context, strings: Strings,
                          sink: Sink<Point>, count0: int) returns (rc: int, count: int)
    requires held <= pending.Length
    modifies sink
    ensures Delivered(sink.verdict, old(sink.calls), ContainersWalk(g, pending[..held], ctx, strings), rc, sink.calls,
                      count - count0)
  {
    hide ContainerWalk, Delivered, Then;
    count := count0;
    ghost var goal := ContainersWalk(g, pending[..held], ctx, strings);
    ghost var done: Out<Point> := Out([], true);
    NothingDelivered(sink.verdict, sink.calls);
    ThenNothing(goal);
    assert pending[0..held] == pending[..held];
    for i := 0 to held
      invariant Delivered(sink.verdict, old(sink.calls), done, 0, sink.calls, count - count0)
      invariant Then(done, ContainersWalk(g, pending[i..held], ctx, strings)) == goal
    {
      assert pending[i..held][1..] == pending[i + 1..held];
      ghost var walk := ContainerWalk(g, pending[i], ctx, strings);
      ghost var mid, n := sink.calls, count - count0;
      ghost var before, rest := count, ContainersWalk(g, pending[i + 1..held], ctx, strings);
      rc, count := DecodeContainer(g, pending[i], ctx, strings, sink, count);
      Absorb(sink.verdict, old(sink.calls), done, mid, n, walk, rc, sink.calls, count - before, rest);
      if rc != 0 { return; }
      done := Then(done, walk);
    }
    Ends(sink.verdict, old(sink.calls), done, sink.calls, count - count0);
    rc := 0;
  }

  method DecodeContainer(g: DoubleFormat, c: Container, ctx: Context, strings: Strings, sink: Sink<Point>, count0: int)
      returns (rc: int, count: int)
    modifies sink
    ensures Delivered(sink.verdict, old(sink.calls), ContainerWalk(g, c, ctx, strings), rc, sink.calls, count - count0)
  {
    hide Parse, ReadTag, ReadPayload, PointOut, Delivered, Then;
    var r := new Reader(c.data, 0, |c.data|);
    assert r.Rest() == c.data;
    count := count0;
    ghost var all := Parse(r.Rest());
    ghost var goal := ContainerWalk(g, c, ctx, strings);
    ghost var done: Out<Point> := Out([], true);
    ghost var todo := all.fields;
    NothingDelivered(sink.verdict, sink.calls);
    ThenNothing(goal);
    while true
      invariant r.Valid() && fresh(r)
      invariant Parse(r.Rest()) == Parsed(todo, all.ending)
      invariant Delivered(sink.verdict, old(sink.calls), done, 0, sink.calls, count - count0)
      invariant Then(done, ContainerFields(g, todo, all.ending, ctx, strings, c.kind)) == goal
      decreases r.end - r.pos
    {
      ParseStep(r.Rest());
      Ends(sink.verdict, old(sink.calls), done, sink.calls, count - count0);
      var next, num, wire := r.Next();
      if next != 1 { break; }
      PayloadKind(wire, r.Rest());
      if num == 1 && wire == BYTES {
        var ok, point := r.Submsg();
        if !ok { return -1, count; }
        ghost var one := PointOut(g, point.Rest(), ctx, strings, c.kind);
        ghost var rest := ContainerFields(g, todo[1..], all.ending, ctx, strings, c.kind);
        ghost var mid, n := sink.calls, count - count0;
        var stop := DecodePoint(g, point, ctx, strings, c.kind, sink);
        OneWalked(sink.verdict, mid, one, stop, sink.calls);
        Absorb(sink.verdict, old(sink.calls), done, mid, n, one, Sign(stop), sink.calls,
               if stop == 0 then 1 else 0, rest);
        if stop < 0 { return -1, count; }
        if stop > 0 { return 1, count; }
        count := count + 1;
        done := Then(done, one);
      } else {
        var ok := r.Skip(wire);
        if !ok { return -1, count; }
      }
      todo := todo[1..];
    }
    rc := 0;
  }

  // ------------------------ Scopes, resources, requests ------------------------

  method DecodeScopeMetrics(g: DoubleFormat, r: Reader, ctx0: Context, sink: Sink<Point>, count0: int)
      returns (rc: int, ctx: Context, count: int)
    requires r.Valid()
    modifies r, sink
    ensures var walk := ScopeWalk(g, old(r.Rest()), ctx0);
            && Delivered(sink.verdict, old(sink.calls), walk.out, rc, sink.calls, count - count0)
            && (rc == 0 ==> ctx == walk.ctx)
  {
    hide Parse, ReadTag, ReadPayload, MetricWalk, Delivered, Then;
    ctx, count := ctx0, count0;
    ghost var all := Parse(r.Rest());
    ghost var goal := ScopeWalk(g, r.Rest(), ctx0);
    ghost var done: Out<Point> := Out([], true);
    ghost var todo := all.fields;
    NothingDelivered(sink.verdict, sink.calls);
    ThenNothing(goal.out);
    while true
      invariant r.Valid()
      invariant Parse(r.Rest()) == Parsed(todo, all.ending)
      invariant Delivered(sink.verdict, old(sink.calls), done, 0, sink.calls, count - count0)
      invariant Then(done, ScopeFields(g, todo, all.ending, ctx).out) == goal.out
      invariant ScopeFields(g, todo, all.ending, ctx).ctx == goal.ctx
      decreases r.end - r.pos
    {
      ParseStep(r.Rest());
      Ends(sink.verdict, old(sink.calls), done, sink.calls, count - count0);
      var next, num, wire := r.Next();
      if next != 1 { break; }
      PayloadKind(wire, r.Rest());
      if num == 1 && wire == BYTES {
        var ok, scope := r.Submsg();
        if !ok { return -1, ctx, count; }
        var name := Trace.DecodeScopeName(scope, ctx.scope);
        ctx := ctx.(scope := name);
      } else if num == 2 && wire == BYTES {
        var ok, metric := r.Submsg();
        if !ok { return -1, ctx, count; }
        ghost var one, rest := MetricWalk(g, metric.Rest(), ctx), ScopeFields(g, todo[1..], all.ending, ctx).out;
        ghost var mid, n, before := sink.calls, count - count0, count;
        var stop;
        stop, count := DecodeMetric(g, metric, ctx, sink, count);
        Absorb(sink.verdict, old(sink.calls), done, mid, n, one, stop, sink.calls, count - before, rest);
        SignOfDelivery(sink.verdict, mid, one, stop, sink.calls, count - before);
        if stop < 0 { return -1, ctx, count; }
        if stop > 0 { return 1, ctx, count; }
        done := Then(done, one);
      } else {
        var ok := r.Skip(wire);
        if !ok { return -1, ctx, count; }
      }
      todo := todo[1..];
    }
    rc := 0;
  }

  lemma SignOfDelivery(verdict: seq<Point> -> int, hist: seq<Point>, out: Out<Point>, rc: int, after: seq<Point>,
                       added: int)
    requires Delivered(verdict, hist, out, rc, after, added)
    ensures rc == Sign(rc)
  {
  }

  method DecodeResource(res: Reader, ctx0: Context) returns (ctx: Context)
    requires res.Valid()
    modifies res
    ensures ctx == ResourceFold(Parse(old(res.Rest())).fields, ctx0)
  {
    hide Parse, ReadTag, ReadPayload, ResourceStep;
    ctx := ctx0;
    ghost var goal := ResourceFold(Parse(res.Rest()).fields, ctx0);
    while true
      invariant res.Valid()
      invariant ResourceFold(Parse(res.Rest()).fields, ctx) == goal
      decreases res.end - res.pos
    {
      ParseStep(res.Rest());
      var rc, num, wire := res.Next();
      if rc != 1 { break; }
      PayloadKind(wire, res.Rest());
      if num == 1 && wire == BYTES {
        var ok, kv := res.Submsg();
        if !ok { break; }
        ctx := DecodeResourceAttribute(kv, ctx);
      } else {
        ghost var p := ReadPayload(wire, res.Rest());
        var ok := res.Skip(wire);
        if !ok { break; }
        OtherFieldKeepsContext(ctx, Field(num, p.value.val));
      }
    }
  }

  lemma OtherFieldKeepsContext(ctx: Context, f: Field)
    ensures !IsBytes(f, 1) ==> ResourceStep(ctx, f) == ctx
  {
  }

  method DecodeResourceAttribute(kv: Reader, ctx0: Context) returns (ctx: Context)
    requires kv.Valid()
    modifies kv
    ensures ctx == ResourceStep(ctx0, Field(1, BytesP(old(kv.Rest()))))
  {
    hide Parse, KvOf, FirstString, CopyStr;
    ctx := ctx0;
    var key, value := ParseKv(kv);
    if value != null && Chars(key) == "service.name" {
      var name := AnyValueAsString(value, Trace.SERVICE_CAP);
      if name.Some? { ctx := ctx.(service := name.value); }
    } else if value != null && Chars(key) == "procwatch.label" {
      var name := AnyValueAsString(value, Trace.LABEL_CAP);
      if name.Some? { ctx := ctx.(labelName := name.value); }
    } else if value != null && Chars(key) == "procwatch.pid_key" {
      var name := AnyValueAsString(value, PID_KEY_CAP);
      if name.Some? { ctx := ctx.(pidKey := name.value); }
    }
  }

  method DecodeResourceMetrics(g: DoubleFormat, r: Reader, sink: Sink<Point>, count0: int) returns (rc: int, count: int)
    requires r.Valid()
    modifies r, sink
    ensures Delivered(sink.verdict, old(sink.calls), ResourceWalk(g, old(r.Rest())), rc, sink.calls, count - count0)
  {
    hide Parse, ReadTag, ReadPayload, ScopeWalk, ResourceFold, Delivered, Then, Drain;
    var ctx := NEW_CONTEXT;
    var pending := new bytes[PENDING_MAX];
    var held := 0;
    count := count0;
    ghost var all := Parse(r.Rest());
    ghost var goal := ResourceWalk(g, r.Rest());
    ghost var done: Out<Point> := Out([], true);
    ghost var todo := all.fields;
    NothingDelivered(sink.verdict, sink.calls);
    ThenNothing(goal);
    while true
      invariant r.Valid() && 0 <= held <= PENDING_MAX
      invariant Parse(r.Rest()) == Parsed(todo, all.ending)
      invariant Delivered(sink.verdict, old(sink.calls), done, 0, sink.calls, count - count0)
      invariant Then(done, ResourceFields(g, todo, all.ending, ctx, pending[..held])) == goal
      decreases r.end - r.pos
    {
      ParseStep(r.Rest());
      Ends(sink.verdict, old(sink.calls), done, sink.calls, count - count0);
      var next, num, wire := r.Next();
      if next != 1 { break; }
      PayloadKind(wire, r.Rest());
      if num == 1 && wire == BYTES {
        var ok, res := r.Submsg();
        if !ok { return -1, count; }
        ctx := DecodeResource(res, ctx);
      } else if num == 2 && wire == BYTES {
        var ok, data := r.Bytes();
        if !ok { return -1, count; }
        if held < PENDING_MAX {
          assert pending[..held] + [data] == pending[..][held := data][..held + 1];
          pending[held] := data;
          held := held + 1;
        } else {
          ghost var walk := ScopeWalk(g, data, ctx);
          ghost var mid, n := sink.calls, count - count0;
          ghost var rest := ResourceFields(g, todo[1..], all.ending, walk.ctx, pending[..held]);
          ghost var before := count;
          rc, ctx, count := DecodeHeld(g, data, ctx, sink, count);
          Absorb(sink.verdict, old(sink.calls), done, mid, n, walk.out, rc, sink.calls, count - before, rest);
          if rc != 0 { return; }
          done := Then(done, walk.out);
        }
      } else {
        var ok := r.Skip(wire);
        if !ok { return -1, count; }
      }
      todo := todo[1..];
    }
    ghost var mid, n := sink.calls, count - count0;
    ghost var before := count;
    rc, count := DrainPending(g, pending, held, ctx, sink, count);
    Continues(sink.verdict, old(sink.calls), done, mid, n, Drain(g, pending[..held], ctx), rc, sink.calls,
              count - before);
  }

  method DecodeHeld(g: DoubleFormat, data: bytes, ctx0: Context, sink: Sink<Point>, count0: int)
      returns (rc: int, ctx: Context, count: int)
    modifies sink
    ensures var walk := ScopeWalk(g, data, ctx0);
            && Delivered(sink.verdict, old(sink.calls), walk.out, rc, sink.calls, count - count0)
            && (rc == 0 ==> ctx == walk.ctx)
  {
    var sm := new Reader(data, 0, |data|);
    assert sm.Rest() == data;
    rc, ctx, count := DecodeScopeMetrics(g, sm, ctx0, sink, count0);
  }

  method DrainPending(g: DoubleFormat, pending: array<bytes>, held: nat, ctx0: Context, sink: Sink<Point>, count0: int)
      returns (rc: int, count: int)
    requires held <= pending.Length
    modifies sink
    ensures Delivered(sink.verdict, old(sink.calls), Drain(g, pending[..held], ctx0), rc, sink.calls, count - count0)
  {
    hide ScopeWalk, Delivered, Then;
    var ctx := ctx0;
    count := count0;
    ghost var goal := Drain(g, pending[..held], ctx0);
    ghost var done: Out<Point> := Out([], true);
    NothingDelivered(sink.verdict, sink.calls);
    ThenNothing(goal);
    assert pending[0..held] == pending[..held];
    for i := 0 to held
      invariant Delivered(sink.verdict, old(sink.calls), done, 0, sink.calls, count - count0)
      invariant Then(done, Drain(g, pending[i..held], ctx)) == goal
    {
      assert pending[i..held][1..] == pending[i + 1..held];
      ghost var walk := ScopeWalk(g, pending[i], ctx);
      ghost var mid, n := sink.calls, count - count0;
      ghost var before, rest := count, Drain(g, pending[i + 1..held], walk.ctx);
      rc, ctx, count := DecodeHeld(g, pending[i], ctx, sink, count);
      Absorb(sink.verdict, old(sink.calls), done, mid, n, walk.out, rc, sink.calls, count - before, rest);
      if rc != 0 { return; }
      done := Then(done, walk.out);
    }
    Ends(sink.verdict, old(sink.calls), done, sink.calls, count - count0);
    rc := 0;
  }

  /** otlp_decode_metrics, with the same accounting as the trace decoder. */
  method DecodeMetrics(g: DoubleFormat, data: bytes, sink: Sink<Point>)
      returns (result: int, ghost rc: int, ghost count: int)
    modifies sink
    ensures Delivered(sink.verdict, old(sink.calls), RequestWalk(g, data), rc, sink.calls, count)
    ensures result == if rc < 0 && count == 0 then -1 else count
  {
    hide Parse, ReadTag, ReadPayload, ResourceWalk, Delivered, Then;
    var r := new Reader(data, 0, |data|);
    assert r.Rest() == data;
    var n := 0;
    ghost var all := Parse(data);
    ghost var goal := RequestWalk(g, data);
    ghost var done: Out<Point> := Out([], true);
    ghost var todo := all.fields;
    NothingDelivered(sink.verdict, sink.calls);
    ThenNothing(goal);
    while true
      invariant r.Valid() && fresh(r)
      invariant Parse(r.Rest()) == Parsed(todo, all.ending)
      invariant Delivered(sink.verdict, old(sink.calls), done, 0, sink.calls, n)
      invariant Then(done, RequestFields(g, todo, all.ending)) == goal
      decreases r.end - r.pos
    {
      ParseStep(r.Rest());
      Ends(sink.verdict, old(sink.calls), done, sink.calls, n);
      var next, num, wire := r.Next();
      if next != 1 { break; }
      PayloadKind(wire, r.Rest());
      if num == 1 && wire == BYTES {
        var ok, rm := r.Submsg();
        if !ok { return if n != 0 then n else -1, -1, n; }
        ghost var walk, rest := ResourceWalk(g, rm.Rest()), RequestFields(g, todo[1..], all.ending);
        ghost var mid, before := sink.calls, n;
        var stop;
        stop, n := DecodeResourceMetrics(g, rm, sink, n);
        Absorb(sink.verdict, old(sink.calls), done, mid, before, walk, stop, sink.calls, n - before, rest);
        if stop < 0 { return if n != 0 then n else -1, stop, n; }
        if stop > 0 { return n, stop, n; }
        done := Then(done, walk);
      } else {
        var ok := r.Skip(wire);
        if !ok { return if n != 0 then n else -1, -1, n; }
      }
      todo := todo[1..];
    }
    return n, 0, n;
  }
}
