/** Metric requests as trees: every wire form of a request makes the decoder emit its points. */
module MetricRequests {
  import opened Bytes
  import opened Wire
  import opened Attributes
  import opened Rendering
  import opened AttributeTree
  import opened Delivery
  import opened Metrics
  import opened TraceTree
  import opened MetricTree
  import Trace

  datatype MetricScope = MetricScope(name: Option<bytes>, metrics: seq<MetricTree>)
  datatype MetricResource = MetricResource(attrs: seq<Attr>, scopes: seq<MetricScope>)

  // ------------------------ Wire forms ------------------------

  predicate ScopeWire(s: bytes, t: MetricScope) {
    var fs := Parse(s).fields;
    && Whole(s)
    && t.name == OptionalName(Merged(fs, 1))
    && |Subs(fs, 2)| == |t.metrics|
    && forall i :: 0 <= i < |t.metrics| ==> MetricWire(Subs(fs, 2)[i], t.metrics[i])
  }

  predicate ScopesWire(items: seq<bytes>, ts: seq<MetricScope>) {
    |items| == |ts| && forall i :: 0 <= i < |items| ==> ScopeWire(items[i], ts[i])
  }

  predicate ResourceWire(s: bytes, t: MetricResource) {
    var fs := Parse(s).fields;
    && Whole(s)
    && AttrsWire(Subs(Merged(fs, 1), 1), t.attrs)
    && ScopesWire(Subs(fs, 2), t.scopes)
  }

  predicate ResourcesWire(items: seq<bytes>, req: seq<MetricResource>) {
    |items| == |req| && forall i :: 0 <= i < |items| ==> ResourceWire(items[i], req[i])
  }

  predicate RequestWire(s: bytes, req: seq<MetricResource>) {
    Whole(s) && ResourcesWire(Subs(Parse(s).fields, 1), req)
  }

  // ------------------------ Flattening ------------------------

  function RowsOf(g: DoubleFormat, t: MetricTree, ctx: Context): seq<Point> {
    if CopyStr(t.name, NAME_CAP) == "" then [] else DataRows(g, ctx, StringsOf(t), Take(t.data, 8))
  }

  predicate HasRows(t: MetricTree) {
    CopyStr(t.name, NAME_CAP) != "" && PointCount(Take(t.data, 8)) > 0
  }

  function MetricRows(g: DoubleFormat, ts: seq<MetricTree>, ctx: Context): seq<Point> {
    if ts == [] then [] else RowsOf(g, ts[0], ctx) + MetricRows(g, ts[1..], ctx)
  }

  function EnterName(name: string, t: MetricScope): string {
    match t.name
    case None => name
    case Some(b) => CopyStr(b, Trace.SCOPE_CAP)
  }

  function Enter(ctx: Context, t: MetricScope): Context {
    ctx.(scope := EnterName(ctx.scope, t))
  }

  function ScopeRows(g: DoubleFormat, ts: seq<MetricScope>, ctx: Context): seq<Point> {
    if ts == [] then []
    else MetricRows(g, ts[0].metrics, Enter(ctx, ts[0])) + ScopeRows(g, ts[1..], Enter(ctx, ts[0]))
  }

  /** The last string attribute of each of the three names counts. */
  function AttrStep(ctx: Context, a: Attr): Context {
    if !a.val.Str? then ctx
    else if Chars(KeyCut(a.key)) == "service.name" then ctx.(service := CopyStr(a.val.text, Trace.SERVICE_CAP))
    else if Chars(KeyCut(a.key)) == "procwatch.label" then ctx.(labelName := CopyStr(a.val.text, Trace.LABEL_CAP))
    else if Chars(KeyCut(a.key)) == "procwatch.pid_key" then ctx.(pidKey := CopyStr(a.val.text, PID_KEY_CAP))
    else ctx
  }

  function TreeContext(attrs: seq<Attr>, ctx: Context): Context {
    if attrs == [] then ctx else TreeContext(attrs[1..], AttrStep(ctx, attrs[0]))
  }

  function Flatten(g: DoubleFormat, req: seq<MetricResource>): seq<Point> {
    if req == [] then []
    else ScopeRows(g, req[0].scopes, TreeContext(req[0].attrs, NEW_CONTEXT)) + Flatten(g, req[1..])
  }

  // ------------------------ Flattening by position ------------------------

  function NamedRows(g: DoubleFormat, ts: seq<MetricTree>, names: seq<string>, ctx: Context): seq<Point> {
    if ts == [] || names == [] then []
    else RowsOf(g, ts[0], ctx.(scope := names[0])) + NamedRows(g, ts[1..], names[1..], ctx)
  }

  function ScopeNow(g: DoubleFormat, item: bytes, t: MetricScope, ctx: Context): seq<Point> {
    NamedRows(g, t.metrics, NamesInForce(Parse(item).fields, ctx.scope), ctx)
  }

  function WireRows(g: DoubleFormat, items: seq<bytes>, ts: seq<MetricScope>, ctx: Context): seq<Point> {
    if items == [] || ts == [] then []
    else ScopeNow(g, items[0], ts[0], ctx) + WireRows(g, items[1..], ts[1..], Enter(ctx, ts[0]))
  }

  function WireFlatten(g: DoubleFormat, items: seq<bytes>, req: seq<MetricResource>): seq<Point> {
    if items == [] || req == [] then []
    else WireRows(g, Subs(Parse(items[0]).fields, 2), req[0].scopes, TreeContext(req[0].attrs, NEW_CONTEXT))
         + WireFlatten(g, items[1..], req[1..])
  }

  /** Every metric with rows stands where the scope's final name is in force. */
  predicate Agree(ts: seq<MetricTree>, names: seq<string>, final: string) {
    forall k :: 0 <= k < |ts| && k < |names| && HasRows(ts[k]) ==> names[k] == final
  }

  predicate ScopesInTime(items: seq<bytes>, ts: seq<MetricScope>, name: string) {
    items == [] || ts == [] ||
    (&& Agree(ts[0].metrics, NamesInForce(Parse(items[0]).fields, name), EnterName(name, ts[0]))
     && ScopesInTime(items[1..], ts[1..], EnterName(name, ts[0])))
  }

  predicate RequestInTime(items: seq<bytes>, req: seq<MetricResource>) {
    items == [] || req == [] ||
    (&& ScopesInTime(Subs(Parse(items[0]).fields, 2), req[0].scopes, NEW_CONTEXT.scope)
     && RequestInTime(items[1..], req[1..]))
  }

  // ------------------------ Scopes ------------------------

  lemma RowsEmitted(g: DoubleFormat, s: bytes, t: MetricTree, ctx: Context)
    requires MetricWire(s, t)
    ensures MetricWalk(g, s, ctx) == Out(RowsOf(g, t, ctx), true)
  {
    hide MetricWire, MetricWalk, DataRows, CopyStr;
    MetricEmitsRows(g, s, t, ctx);
  }

  lemma {:induction false} NamedRowsIgnoreScope(g: DoubleFormat, ts: seq<MetricTree>, names: seq<string>, ctx: Context,
                                                scope: string)
    ensures NamedRows(g, ts, names, ctx.(scope := scope)) == NamedRows(g, ts, names, ctx)
  {
    hide RowsOf;
    if ts != [] && names != [] { NamedRowsIgnoreScope(g, ts[1..], names[1..], ctx, scope); }
  }

  lemma {:induction false} ScopeFieldsEmit(g: DoubleFormat, fs: seq<Field>, ending: Ending, ctx: Context,
                                           ts: seq<MetricTree>)
    requires !ending.AtBadPayload?
    requires |Subs(fs, 2)| == |ts| && forall i :: 0 <= i < |ts| ==> MetricWire(Subs(fs, 2)[i], ts[i])
    ensures ScopeFields(g, fs, ending, ctx)
            == ScopeOut(Out(NamedRows(g, ts, NamesInForce(fs, ctx.scope), ctx), true),
                        ctx.(scope := Trace.ScopeNameFold(Merged(fs, 1), ctx.scope)))
    decreases |fs|
  {
    hide Parse, MetricWire, MetricWalk, RowsOf;
    if fs != [] {
      var f, more := fs[0], Subs(fs[1..], 2);
      if IsBytes(f, 1) {
        var st := Parse(f.val.data).fields;
        var name := Trace.ScopeNameFold(st, ctx.scope);
        ScopeNameAppend(st, Merged(fs[1..], 1), ctx.scope);
        NamedRowsIgnoreScope(g, ts, NamesInForce(fs[1..], name), ctx, name);
        ScopeFieldsEmit(g, fs[1..], ending, ctx.(scope := name), ts);
      } else if IsBytes(f, 2) {
        assert Merged(fs, 1) == Merged(fs[1..], 1);
        assert Subs(fs, 2)[0] == f.val.data && ctx.(scope := ctx.scope) == ctx;
        RowsEmitted(g, f.val.data, ts[0], ctx);
        assert forall i :: 0 <= i < |more| ==> more[i] == Subs(fs, 2)[i + 1] && ts[1..][i] == ts[i + 1];
        ScopeFieldsEmit(g, fs[1..], ending, ctx, ts[1..]);
      } else {
        assert Merged(fs, 1) == Merged(fs[1..], 1);
        ScopeFieldsEmit(g, fs[1..], ending, ctx, ts);
      }
    }
  }

  lemma ScopeEmits(g: DoubleFormat, s: bytes, t: MetricScope, ctx: Context)
    requires ScopeWire(s, t)
    ensures ScopeWalk(g, s, ctx) == ScopeOut(Out(ScopeNow(g, s, t, ctx), true), Enter(ctx, t))
  {
    hide Parse, MetricWire, ScopeFields, Merged, CopyStr, NamedRows, NamesInForce;
    var fs := Parse(s).fields;
    ScopeFieldsEmit(g, fs, Parse(s).ending, ctx, t.metrics);
    ScopeNameIsLast(Merged(fs, 1), ctx.scope);
  }

  lemma {:induction false} DrainEmits(g: DoubleFormat, pending: seq<bytes>, ts: seq<MetricScope>, ctx: Context)
    requires ScopesWire(pending, ts)
    ensures Drain(g, pending, ctx) == Out(WireRows(g, pending, ts, ctx), true)
    decreases |ts|
  {
    hide ScopeWire, ScopeWalk, ScopeNow, Parse, EnterName;
    if pending != [] {
      ScopeEmits(g, pending[0], ts[0], ctx);
      DrainEmits(g, pending[1..], ts[1..], Enter(ctx, ts[0]));
    }
  }

  // ------------------------ Resources and requests ------------------------

  lemma AttributeStep(f: Field, a: Attr, ctx: Context)
    requires IsBytes(f, 1) && AttrWire(f.val.data, a)
    ensures ResourceStep(ctx, f) == AttrStep(ctx, a)
  {
    hide Parse, KvOf, AttrWire, AnyWire, CopyStr, KeyCut;
    KvOfAttr(f.val.data, a);
    var kv := KvOf(f.val.data);
    if kv.value.Some? { StringOfAny(kv.value.value, a.val); }
  }

  lemma {:induction false} ResourceIsTree(fs: seq<Field>, attrs: seq<Attr>, ctx: Context)
    requires AttrsWire(Subs(fs, 1), attrs)
    ensures ResourceFold(fs, ctx) == TreeContext(attrs, ctx)
    decreases |fs|
  {
    hide AttrWire, AttrStep, ResourceStep;
    if fs != [] {
      var more := Subs(fs[1..], 1);
      if IsBytes(fs[0], 1) {
        assert Subs(fs, 1)[0] == fs[0].val.data;
        AttributeStep(fs[0], attrs[0], ctx);
        assert forall i :: 0 <= i < |more| ==> more[i] == Subs(fs, 1)[i + 1] && attrs[1..][i] == attrs[i + 1];
        ResourceIsTree(fs[1..], attrs[1..], AttrStep(ctx, attrs[0]));
      } else {
        Metrics.OtherFieldKeepsContext(ctx, fs[0]);
        ResourceIsTree(fs[1..], attrs, ctx);
      }
    }
  }

  lemma {:induction false} ResourceFoldAppend(a: seq<Field>, b: seq<Field>, ctx: Context)
    ensures ResourceFold(a + b, ctx) == ResourceFold(b, ResourceFold(a, ctx))
  {
    hide ResourceStep;
    if a == [] { assert a + b == b; } else {
      assert (a + b)[1..] == a[1..] + b;
      ResourceFoldAppend(a[1..], b, ResourceStep(ctx, a[0]));
    }
  }

  lemma {:induction false} BufferedScopes(g: DoubleFormat, fs: seq<Field>, ending: Ending, ctx: Context,
                                          pending: seq<bytes>)
    requires !ending.AtBadPayload? && |pending| + |Subs(fs, 2)| <= 64
    ensures ResourceFields(g, fs, ending, ctx, pending)
            == Drain(g, pending + Subs(fs, 2), ResourceFold(Merged(fs, 1), ctx))
    decreases |fs|
  {
    hide Parse, Drain, ResourceStep;
    if fs == [] {
      assert pending + [] == pending;
    } else if IsBytes(fs[0], 1) {
      var res := Parse(fs[0].val.data).fields;
      ResourceFoldAppend(res, Merged(fs[1..], 1), ctx);
      BufferedScopes(g, fs[1..], ending, ResourceFold(res, ctx), pending);
    } else {
      assert Merged(fs, 1) == Merged(fs[1..], 1);
      if IsBytes(fs[0], 2) {
        assert pending + Subs(fs, 2) == pending + [fs[0].val.data] + Subs(fs[1..], 2);
        BufferedScopes(g, fs[1..], ending, ctx, pending + [fs[0].val.data]);
      } else {
        BufferedScopes(g, fs[1..], ending, ctx, pending);
      }
    }
  }

  lemma ResourceEmits(g: DoubleFormat, s: bytes, t: MetricResource)
    requires ResourceWire(s, t) && |t.scopes| <= 64
    ensures ResourceWalk(g, s)
            == Out(WireRows(g, Subs(Parse(s).fields, 2), t.scopes, TreeContext(t.attrs, NEW_CONTEXT)), true)
  {
    hide Parse, ResourceFields, Merged, ScopesWire, AttrsWire, Drain, WireRows;
    var fs := Parse(s).fields;
    assert |Subs(fs, 2)| <= 64 by { SameLength(Subs(fs, 2), t.scopes); }
    BufferedScopes(g, fs, Parse(s).ending, NEW_CONTEXT, []);
    assert [] + Subs(fs, 2) == Subs(fs, 2);
    ResourceIsTree(Merged(fs, 1), t.attrs, NEW_CONTEXT);
    DrainEmits(g, Subs(fs, 2), t.scopes, TreeContext(t.attrs, NEW_CONTEXT));
  }

  lemma SameLength(items: seq<bytes>, ts: seq<MetricScope>)
    requires ScopesWire(items, ts)
    ensures |items| == |ts|
  {
  }

  predicate FitsBuffers(req: seq<MetricResource>) {
    forall i :: 0 <= i < |req| ==> |req[i].scopes| <= 64
  }

  lemma {:induction false} RequestFieldsEmit(g: DoubleFormat, fs: seq<Field>, ending: Ending, req: seq<MetricResource>)
    requires !ending.AtBadPayload? && FitsBuffers(req) && ResourcesWire(Subs(fs, 1), req)
    ensures RequestFields(g, fs, ending) == Out(WireFlatten(g, Subs(fs, 1), req), true)
    decreases |fs|
  {
    hide ResourceWire, ResourceWalk, WireRows, TreeContext, Parse;
    if fs != [] {
      var all, more := Subs(fs, 1), Subs(fs[1..], 1);
      if IsBytes(fs[0], 1) {
        assert all[0] == fs[0].val.data && all[1..] == more;
        ResourceEmits(g, fs[0].val.data, req[0]);
        assert forall i :: 0 <= i < |more| ==> more[i] == all[i + 1] && req[1..][i] == req[i + 1];
        RequestFieldsEmit(g, fs[1..], ending, req[1..]);
      } else {
        RequestFieldsEmit(g, fs[1..], ending, req);
      }
    }
  }

  // ------------------------ Names in time ------------------------

  lemma {:induction false} PointsHaveContext(g: DoubleFormat, ctx: Context, strings: Strings, kind: string,
                                             ts: seq<PointTree>)
    ensures forall i :: 0 <= i < |ts| ==> PointRows(g, ctx, strings, kind, ts)[i].ctx == ctx
  {
    hide PrintEntries;
    if ts != [] { PointsHaveContext(g, ctx, strings, kind, ts[1..]); }
  }

  lemma {:induction false} RowsHaveContext(g: DoubleFormat, ctx: Context, strings: Strings, ts: seq<ContainerTree>)
    ensures forall i :: 0 <= i < PointCount(ts) ==> DataRows(g, ctx, strings, ts)[i].ctx == ctx
  {
    hide PointRows;
    if ts != [] {
      PointsHaveContext(g, ctx, strings, ts[0].kind, ts[0].points);
      RowsHaveContext(g, ctx, strings, ts[1..]);
    }
  }

  lemma SameRowsIff(g: DoubleFormat, t: MetricTree, a: Context, b: Context)
    ensures |RowsOf(g, t, a)| == |RowsOf(g, t, b)|
    ensures RowsOf(g, t, a) == RowsOf(g, t, b) <==> !HasRows(t) || a == b
  {
    hide DataRows, CopyStr, PointCount;
    RowsHaveContext(g, a, StringsOf(t), Take(t.data, 8));
    RowsHaveContext(g, b, StringsOf(t), Take(t.data, 8));
    if HasRows(t) { assert RowsOf(g, t, a)[0].ctx == a && RowsOf(g, t, b)[0].ctx == b; }
  }

  lemma AgreeStep(ts: seq<MetricTree>, names: seq<string>, final: string)
    requires |ts| == |names| && ts != []
    ensures Agree(ts, names, final) <==> (HasRows(ts[0]) ==> names[0] == final) && Agree(ts[1..], names[1..], final)
  {
    hide HasRows;
    if (HasRows(ts[0]) ==> names[0] == final) && Agree(ts[1..], names[1..], final) {
      forall k | 0 <= k < |ts| && HasRows(ts[k]) ensures names[k] == final {
        if k > 0 { assert ts[1..][k - 1] == ts[k]; }
      }
    }
    if Agree(ts, names, final) {
      forall k | 0 <= k < |ts[1..]| && HasRows(ts[1..][k]) ensures names[1..][k] == final {
        assert ts[k + 1] == ts[1..][k];
      }
    }
  }

  lemma {:induction false} NamedRowsIff(g: DoubleFormat, ts: seq<MetricTree>, names: seq<string>, ctx: Context)
    requires |ts| == |names|
    ensures |NamedRows(g, ts, names, ctx)| == |MetricRows(g, ts, ctx)|
    ensures NamedRows(g, ts, names, ctx) == MetricRows(g, ts, ctx) <==> Agree(ts, names, ctx.scope)
  {
    hide RowsOf, HasRows, Agree;
    if ts == [] {
      NothingDisagrees(names, ctx.scope);
    } else {
      var here := ctx.(scope := names[0]);
      assert here == ctx <==> names[0] == ctx.scope;
      SameRowsIff(g, ts[0], here, ctx);
      NamedRowsIff(g, ts[1..], names[1..], ctx);
      AgreeStep(ts, names, ctx.scope);
      SplitEqual(RowsOf(g, ts[0], here), NamedRows(g, ts[1..], names[1..], ctx),
                 RowsOf(g, ts[0], ctx), MetricRows(g, ts[1..], ctx));
    }
  }

  lemma NothingDisagrees(names: seq<string>, final: string)
    ensures Agree([], names, final)
  {
  }

  lemma ScopeNowIff(g: DoubleFormat, item: bytes, t: MetricScope, ctx: Context)
    requires ScopeWire(item, t)
    ensures var inner := Enter(ctx, t);
            && |ScopeNow(g, item, t, ctx)| == |MetricRows(g, t.metrics, inner)|
            && (ScopeNow(g, item, t, ctx) == MetricRows(g, t.metrics, inner)
                <==> Agree(t.metrics, NamesInForce(Parse(item).fields, ctx.scope), inner.scope))
  {
    hide Parse, MetricWire, Merged, NamedRows, MetricRows, NamesInForce, Agree, EnterName;
    var names, inner := NamesInForce(Parse(item).fields, ctx.scope), Enter(ctx, t);
    NamedRowsIgnoreScope(g, t.metrics, names, ctx, inner.scope);
    NamedRowsIff(g, t.metrics, names, inner);
  }

  lemma {:induction false} WireRowsIff(g: DoubleFormat, items: seq<bytes>, ts: seq<MetricScope>, ctx: Context)
    requires ScopesWire(items, ts)
    ensures |WireRows(g, items, ts, ctx)| == |ScopeRows(g, ts, ctx)|
    ensures WireRows(g, items, ts, ctx) == ScopeRows(g, ts, ctx) <==> ScopesInTime(items, ts, ctx.scope)
    decreases |ts|
  {
    hide Parse, MetricRows, ScopeNow, NamesInForce, Agree, ScopeWire, EnterName;
    if ts != [] {
      var inner := Enter(ctx, ts[0]);
      ScopeNowIff(g, items[0], ts[0], ctx);
      WireRowsIff(g, items[1..], ts[1..], inner);
      SplitEqual(ScopeNow(g, items[0], ts[0], ctx), WireRows(g, items[1..], ts[1..], inner),
                 MetricRows(g, ts[0].metrics, inner), ScopeRows(g, ts[1..], inner));
    }
  }

  lemma {:induction false} AttrsKeepScope(attrs: seq<Attr>, ctx: Context)
    ensures TreeContext(attrs, ctx).scope == ctx.scope
  {
    hide CopyStr, KeyCut;
    if attrs != [] { AttrsKeepScope(attrs[1..], AttrStep(ctx, attrs[0])); }
  }

  lemma ResourceRowsIff(g: DoubleFormat, item: bytes, t: MetricResource)
    requires ResourceWire(item, t)
    ensures var items, ctx := Subs(Parse(item).fields, 2), TreeContext(t.attrs, NEW_CONTEXT);
            && |WireRows(g, items, t.scopes, ctx)| == |ScopeRows(g, t.scopes, ctx)|
            && (WireRows(g, items, t.scopes, ctx) == ScopeRows(g, t.scopes, ctx)
                <==> ScopesInTime(items, t.scopes, NEW_CONTEXT.scope))
  {
    hide Parse, WireRows, ScopeRows, ScopesInTime, ScopesWire, AttrsWire, Merged;
    AttrsKeepScope(t.attrs, NEW_CONTEXT);
    WireRowsIff(g, Subs(Parse(item).fields, 2), t.scopes, TreeContext(t.attrs, NEW_CONTEXT));
  }

  lemma {:induction false} WireFlattenIff(g: DoubleFormat, items: seq<bytes>, req: seq<MetricResource>)
    requires ResourcesWire(items, req)
    ensures |WireFlatten(g, items, req)| == |Flatten(g, req)|
    ensures WireFlatten(g, items, req) == Flatten(g, req) <==> RequestInTime(items, req)
    decreases |req|
  {
    hide Parse, WireRows, ScopeRows, ScopesInTime, ResourceWire, TreeContext;
    if req != [] {
      ResourceRowsIff(g, items[0], req[0]);
      WireFlattenIff(g, items[1..], req[1..]);
      var ctx := TreeContext(req[0].attrs, NEW_CONTEXT);
      SplitEqual(WireRows(g, Subs(Parse(items[0]).fields, 2), req[0].scopes, ctx), WireFlatten(g, items[1..], req[1..]),
                 ScopeRows(g, req[0].scopes, ctx), Flatten(g, req[1..]));
    }
  }

  /** Every wire form decodes to the points in order, each under the scope name in force where its
      metric stands. That inverts the encoding if and only if no metric with points precedes a
      scope field that changes the name. */
  lemma DecodingInvertsEncoding(g: DoubleFormat, s: bytes, req: seq<MetricResource>)
    requires RequestWire(s, req) && FitsBuffers(req)
    ensures var items := Subs(Parse(s).fields, 1);
            && RequestWalk(g, s) == Out(WireFlatten(g, items, req), true)
            && (RequestWalk(g, s).rows == Flatten(g, req) <==> RequestInTime(items, req))
  {
    hide Parse, RequestFields, ResourcesWire, Flatten, WireFlatten, RequestInTime;
    RequestFieldsEmit(g, Parse(s).fields, Parse(s).ending, req);
    WireFlattenIff(g, Subs(Parse(s).fields, 1), req);
  }

  // ------------------------ Any number of scopes ------------------------

  const BARE := Context("", "", "", "")

  function Strip(p: Point): Point {
    p.(ctx := BARE)
  }

  function Strips(rows: seq<Point>): seq<Point> {
    seq(|rows|, i requires 0 <= i < |rows| => Strip(rows[i]))
  }

  lemma StripsConcat(a: seq<Point>, b: seq<Point>)
    ensures Strips(a + b) == Strips(a) + Strips(b)
  {
  }

  lemma StripsNothing()
    ensures Strips([]) == []
  {
  }

  function BareRows(g: DoubleFormat, ts: seq<MetricScope>): seq<Point> {
    if ts == [] then [] else MetricRows(g, ts[0].metrics, BARE) + BareRows(g, ts[1..])
  }

  lemma {:induction false} BareRowsConcat(g: DoubleFormat, a: seq<MetricScope>, b: seq<MetricScope>)
    ensures BareRows(g, a + b) == BareRows(g, a) + BareRows(g, b)
  {
    hide MetricRows;
    if a == [] { assert a + b == b; } else {
      assert (a + b)[1..] == a[1..] + b;
      BareRowsConcat(g, a[1..], b);
    }
  }

  lemma {:induction false} PointsStripped(g: DoubleFormat, ctx: Context, strings: Strings, kind: string,
                                          ts: seq<PointTree>)
    ensures Strips(PointRows(g, ctx, strings, kind, ts)) == PointRows(g, BARE, strings, kind, ts)
  {
    hide PrintEntries;
    if ts != [] {
      PointsStripped(g, ctx, strings, kind, ts[1..]);
      var row := RowOf(g, ctx, strings, kind, ts[0]);
      StripsConcat([row], PointRows(g, ctx, strings, kind, ts[1..]));
      assert Strips([row]) == [Strip(row)];
    } else {
      StripsNothing();
    }
  }

  lemma {:induction false} DataStripped(g: DoubleFormat, ctx: Context, strings: Strings, ts: seq<ContainerTree>)
    ensures Strips(DataRows(g, ctx, strings, ts)) == DataRows(g, BARE, strings, ts)
  {
    hide PointRows, Strips;
    if ts != [] {
      PointsStripped(g, ctx, strings, ts[0].kind, ts[0].points);
      DataStripped(g, ctx, strings, ts[1..]);
      StripsConcat(PointRows(g, ctx, strings, ts[0].kind, ts[0].points), DataRows(g, ctx, strings, ts[1..]));
    } else {
      StripsNothing();
    }
  }

  lemma {:induction false} NamedRowsStripped(g: DoubleFormat, ts: seq<MetricTree>, names: seq<string>, ctx: Context)
    requires |ts| == |names|
    ensures Strips(NamedRows(g, ts, names, ctx)) == MetricRows(g, ts, BARE)
  {
    hide DataRows, Strips, CopyStr;
    StripsNothing();
    if ts != [] {
      DataStripped(g, ctx.(scope := names[0]), StringsOf(ts[0]), Take(ts[0].data, 8));
      NamedRowsStripped(g, ts[1..], names[1..], ctx);
      StripsConcat(RowsOf(g, ts[0], ctx.(scope := names[0])), NamedRows(g, ts[1..], names[1..], ctx));
    }
  }

  lemma ScopeNowStripped(g: DoubleFormat, item: bytes, t: MetricScope, ctx: Context)
    requires ScopeWire(item, t)
    ensures Strips(ScopeNow(g, item, t, ctx)) == MetricRows(g, t.metrics, BARE)
  {
    hide Parse, NamedRows, NamesInForce, Strips, MetricWire, Merged;
    NamedRowsStripped(g, t.metrics, NamesInForce(Parse(item).fields, ctx.scope), ctx);
  }

  lemma {:induction false} WireRowsStripped(g: DoubleFormat, items: seq<bytes>, ts: seq<MetricScope>, ctx: Context)
    requires ScopesWire(items, ts)
    ensures Strips(WireRows(g, items, ts, ctx)) == BareRows(g, ts)
    decreases |ts|
  {
    hide MetricRows, Strips, Parse, ScopeNow, ScopeWire, EnterName;
    if ts == [] {
      StripsNothing();
    } else {
      ScopeNowStripped(g, items[0], ts[0], ctx);
      WireRowsStripped(g, items[1..], ts[1..], Enter(ctx, ts[0]));
      StripsConcat(ScopeNow(g, items[0], ts[0], ctx), WireRows(g, items[1..], ts[1..], Enter(ctx, ts[0])));
    }
  }

  lemma SubsTail(fs: seq<Field>, ts: seq<MetricScope>)
    requires fs != [] && IsBytes(fs[0], 2) && ScopesWire(Subs(fs, 2), ts)
    ensures ts != [] && ScopeWire(fs[0].val.data, ts[0]) && ScopesWire(Subs(fs[1..], 2), ts[1..])
    ensures Subs(fs, 2) == [fs[0].val.data] + Subs(fs[1..], 2)
  {
    hide ScopeWire;
    var x, all, more := fs[0].val.data, Subs(fs, 2), Subs(fs[1..], 2);
    assert all == [x] + more;
    hide Subs;
    Seam([x], more);
    assert all[0] == x;
    assert forall i :: 0 <= i < |more| ==> more[i] == all[i + 1] && ts[1..][i] == ts[i + 1];
  }

  /** Buffered scopes and those walked at once together deliver what a resource holds. */
  lemma {:induction false} FieldsDeliverAll(g: DoubleFormat, fs: seq<Field>, ending: Ending, ctx: Context,
                                            pending: seq<bytes>, kept: seq<MetricScope>, ts: seq<MetricScope>)
    requires !ending.AtBadPayload? && |pending| <= 64
    requires ScopesWire(pending, kept) && ScopesWire(Subs(fs, 2), ts)
    ensures var out := ResourceFields(g, fs, ending, ctx, pending);
            out.ok && multiset(Strips(out.rows)) == multiset(BareRows(g, kept)) + multiset(BareRows(g, ts))
    decreases |fs|
  {
    hide Parse, ScopeWire, ScopeWalk, ResourceFold, Drain, ScopeNow, Strips, MetricRows, EnterName;
    if fs == [] {
      DrainEmits(g, pending, kept, ctx);
      WireRowsStripped(g, pending, kept, ctx);
    } else if IsBytes(fs[0], 1) {
      FieldsDeliverAll(g, fs[1..], ending, ResourceFold(Parse(fs[0].val.data).fields, ctx), pending, kept, ts);
    } else if IsBytes(fs[0], 2) {
      SubsTail(fs, ts);
      if |pending| < 64 {
        FieldsDeliverAll(g, fs[1..], ending, ctx, pending + [fs[0].val.data], kept + [ts[0]], ts[1..]);
        BareRowsConcat(g, kept, [ts[0]]);
        BareRowsConcat(g, [ts[0]], ts[1..]);
        assert [ts[0]] + ts[1..] == ts;
      } else {
        var now := fs[0].val.data;
        ScopeEmits(g, now, ts[0], ctx);
        ScopeNowStripped(g, now, ts[0], ctx);
        FieldsDeliverAll(g, fs[1..], ending, Enter(ctx, ts[0]), pending, kept, ts[1..]);
        StripsConcat(ScopeNow(g, now, ts[0], ctx), ResourceFields(g, fs[1..], ending, Enter(ctx, ts[0]), pending).rows);
      }
    } else {
      FieldsDeliverAll(g, fs[1..], ending, ctx, pending, kept, ts);
    }
  }

  function AllPoints(g: DoubleFormat, req: seq<MetricResource>): seq<Point> {
    if req == [] then [] else BareRows(g, req[0].scopes) + AllPoints(g, req[1..])
  }

  lemma ResourceDeliversAll(g: DoubleFormat, s: bytes, t: MetricResource)
    requires ResourceWire(s, t)
    ensures ResourceWalk(g, s).ok && multiset(Strips(ResourceWalk(g, s).rows)) == multiset(BareRows(g, t.scopes))
  {
    hide Parse, ResourceFields, ScopeWire, Strips, Merged, AttrsWire;
    FieldsDeliverAll(g, Parse(s).fields, Parse(s).ending, NEW_CONTEXT, [], [], t.scopes);
    assert BareRows(g, []) == [];
  }

  /** The first resource and the others. */
  lemma FirstResource(fs: seq<Field>, req: seq<MetricResource>)
    requires fs != [] && ResourcesWire(Subs(fs, 1), req)
    ensures if IsBytes(fs[0], 1)
            then req != [] && ResourceWire(fs[0].val.data, req[0]) && ResourcesWire(Subs(fs[1..], 1), req[1..])
            else ResourcesWire(Subs(fs[1..], 1), req)
  {
    hide ResourceWire;
    if IsBytes(fs[0], 1) { Seam([fs[0].val.data], Subs(fs[1..], 1)); }
  }

  lemma {:induction false} EveryPointOfFields(g: DoubleFormat, fs: seq<Field>, ending: Ending, req: seq<MetricResource>)
    requires !ending.AtBadPayload? && ResourcesWire(Subs(fs, 1), req)
    ensures var out := RequestFields(g, fs, ending);
            out.ok && multiset(Strips(out.rows)) == multiset(AllPoints(g, req))
    decreases |fs|
  {
    hide ResourceWire, ResourcesWire, ResourceWalk, BareRows, Strips, Subs;
    if fs == [] {
      NoResources(req);
      StripsNothing();
    } else {
      FirstResource(fs, req);
      if IsBytes(fs[0], 1) {
        ResourceDeliversAll(g, fs[0].val.data, req[0]);
        EveryPointOfFields(g, fs[1..], ending, req[1..]);
        assert req == [req[0]] + req[1..];
        hide RequestFields, AllPoints;
        OneMoreResource(g, fs, ending, req[0], req[1..]);
      } else {
        EveryPointOfFields(g, fs[1..], ending, req);
      }
    }
  }

  lemma NoResources(req: seq<MetricResource>)
    requires ResourcesWire(Subs([], 1), req)
    ensures req == []
  {
  }

  lemma OneMoreResource(g: DoubleFormat, fs: seq<Field>, ending: Ending, t: MetricResource, more: seq<MetricResource>)
    requires fs != [] && IsBytes(fs[0], 1)
    requires ResourceWalk(g, fs[0].val.data).ok && RequestFields(g, fs[1..], ending).ok
    requires multiset(Strips(ResourceWalk(g, fs[0].val.data).rows)) == multiset(BareRows(g, t.scopes))
    requires multiset(Strips(RequestFields(g, fs[1..], ending).rows)) == multiset(AllPoints(g, more))
    ensures var out := RequestFields(g, fs, ending);
            out.ok && multiset(Strips(out.rows)) == multiset(AllPoints(g, [t] + more))
  {
    hide ResourceWalk, BareRows, Strips;
    var first, rest := ResourceWalk(g, fs[0].val.data).rows, RequestFields(g, fs[1..], ending).rows;
    StripsConcat(first, rest);
    SameElements(Strips(first), Strips(rest), BareRows(g, t.scopes), AllPoints(g, more));
    assert ([t] + more)[1..] == more;
  }

  /** A well-formed request delivers each point its metrics emit exactly once, however many scopes it
      has. */
  lemma EveryPointOfRequest(g: DoubleFormat, s: bytes, req: seq<MetricResource>)
    requires RequestWire(s, req)
    ensures var out := RequestWalk(g, s);
            out.ok && multiset(Strips(out.rows)) == multiset(AllPoints(g, req))
  {
    hide Parse, ResourcesWire, RequestFields, AllPoints;
    EveryPointOfFields(g, Parse(s).fields, Parse(s).ending, req);
  }
}
