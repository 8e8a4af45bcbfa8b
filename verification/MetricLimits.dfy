/** What metrics lose when a resource has more scopes than the decoder can buffer. */
module MetricLimits {
  import opened Bytes
  import opened Wire
  import opened Attributes
  import opened AttributeTree
  import opened Delivery
  import opened Metrics
  import TraceTree
  import opened MetricTree
  import opened MetricRequests

  // ------------------------ More than 64 scopes ------------------------

  function Buffered(n: nat, held: nat): nat {
    if held >= 64 then 0 else if n <= 64 - held then n else 64 - held
  }

  /** The rows of the scopes that find the buffer full, each walked with what is known of the
      resource by then, and the context they leave behind. */
  datatype Early = Early(rows: seq<Point>, ctx: Context)

  function PastBuffer(g: DoubleFormat, fs: seq<Field>, held: nat, ts: seq<MetricScope>, ctx: Context): Early
    decreases |fs|
  {
    if fs == [] then Early([], ctx)
    else if IsBytes(fs[0], 1) then PastBuffer(g, fs[1..], held, ts, ResourceFold(Parse(fs[0].val.data).fields, ctx))
    else if !IsBytes(fs[0], 2) || ts == [] then PastBuffer(g, fs[1..], held, ts, ctx)
    else if held < 64 then PastBuffer(g, fs[1..], held + 1, ts[1..], ctx)
    else
      var rest := PastBuffer(g, fs[1..], held + 1, ts[1..], Enter(ctx, ts[0]));
      Early(ScopeNow(g, fs[0].val.data, ts[0], ctx) + rest.rows, rest.ctx)
  }

  lemma {:induction false} FieldsEmitExactly(g: DoubleFormat, fs: seq<Field>, ending: Ending, ctx: Context, held: nat,
                                             pending: seq<bytes>, kept: seq<MetricScope>, ts: seq<MetricScope>)
    requires !ending.AtBadPayload? && |pending| == (if held < 64 then held else 64)
    requires ScopesWire(pending, kept) && ScopesWire(Subs(fs, 2), ts)
    ensures var early, m := PastBuffer(g, fs, held, ts, ctx), Buffered(|ts|, held);
            ResourceFields(g, fs, ending, ctx, pending)
            == Out(early.rows + WireRows(g, pending + Subs(fs, 2)[..m], kept + ts[..m], early.ctx), true)
    decreases |fs|
  {
    hide Parse, ScopeWire, ScopeWalk, ResourceFold, WireRows, Drain, ScopeNow;
    if fs == [] {
      DrainEmits(g, pending, kept, ctx);
      assert pending + [] == pending && kept + [] == kept;
      assert [] + WireRows(g, pending, kept, ctx) == WireRows(g, pending, kept, ctx);
    } else if IsBytes(fs[0], 1) {
      FieldsEmitExactly(g, fs[1..], ending, ResourceFold(Parse(fs[0].val.data).fields, ctx), held, pending, kept, ts);
    } else if IsBytes(fs[0], 2) {
      SubsTail(fs, ts);
      if held < 64 {
        var m := Buffered(|ts|, held);
        var data, more := fs[0].val.data, Subs(fs[1..], 2);
        FieldsEmitExactly(g, fs[1..], ending, ctx, held + 1, pending + [data], kept + [ts[0]], ts[1..]);
        assert pending + [data] + more[..m - 1] == pending + Subs(fs, 2)[..m];
        assert kept + [ts[0]] + ts[1..][..m - 1] == kept + ts[..m];
      } else {
        ScopeEmits(g, fs[0].val.data, ts[0], ctx);
        FieldsEmitExactly(g, fs[1..], ending, Enter(ctx, ts[0]), held + 1, pending, kept, ts[1..]);
        assert Subs(fs[1..], 2)[..0] == Subs(fs, 2)[..0] && ts[1..][..0] == ts[..0];
        var rest := PastBuffer(g, fs[1..], held + 1, ts[1..], Enter(ctx, ts[0]));
        Associates(ScopeNow(g, fs[0].val.data, ts[0], ctx), rest.rows, WireRows(g, pending + [], kept + [], rest.ctx));
      }
    } else {
      FieldsEmitExactly(g, fs[1..], ending, ctx, held, pending, kept, ts);
    }
  }

  /** The exact rows of a resource with any number of scopes: first those past the buffer, with
      the context known where they stand, then the buffered ones. */
  lemma ResourceEmitsExactly(g: DoubleFormat, s: bytes, t: MetricResource)
    requires ResourceWire(s, t)
    ensures var fs, m := Parse(s).fields, Buffered(|t.scopes|, 0);
            var early := PastBuffer(g, fs, 0, t.scopes, NEW_CONTEXT);
            && |Subs(fs, 2)| == |t.scopes|
            && ResourceWalk(g, s) == Out(early.rows + WireRows(g, Subs(fs, 2)[..m], t.scopes[..m], early.ctx), true)
  {
    hide Parse, ResourceFields, ScopeWire, PastBuffer, WireRows, TraceTree.Merged, AttrsWire;
    var fs, m := Parse(s).fields, Buffered(|t.scopes|, 0);
    FieldsEmitExactly(g, fs, Parse(s).ending, NEW_CONTEXT, 0, [], [], t.scopes);
    assert [] + Subs(fs, 2)[..m] == Subs(fs, 2)[..m] && [] + t.scopes[..m] == t.scopes[..m];
  }

  // ------------------------ Service and label ------------------------

  predicate SameOrigin(a: Context, b: Context) {
    a.service == b.service && a.labelName == b.labelName && a.pidKey == b.pidKey
  }

  predicate RowsFrom(rows: seq<Point>, ctx: Context) {
    forall i :: 0 <= i < |rows| ==> SameOrigin(rows[i].ctx, ctx)
  }

  predicate AnyRows(ts: seq<MetricTree>) {
    ts != [] && (HasRows(ts[0]) || AnyRows(ts[1..]))
  }

  predicate HasPoints(ts: seq<MetricScope>, k: nat) {
    k < |ts| && AnyRows(ts[k].metrics)
  }

  /** No scope with points that finds the buffer full stands before a resource field that changes
      service, label or pid key. */
  predicate OriginKnown(fs: seq<Field>, held: nat, ts: seq<MetricScope>, ctx: Context, final: Context) {
    forall i :: 0 <= i < |fs| && Overflows(fs, held, ts, i)
        ==> SameOrigin(ResourceFold(TraceTree.Merged(fs[..i], 1), ctx), final)
  }

  predicate Overflows(fs: seq<Field>, held: nat, ts: seq<MetricScope>, i: nat)
    requires i < |fs|
  {
    IsBytes(fs[i], 2) && held + |Subs(fs[..i], 2)| >= 64 && HasPoints(ts, |Subs(fs[..i], 2)|)
  }

  lemma RowsFromConcat(a: seq<Point>, b: seq<Point>, ctx: Context)
    ensures RowsFrom(a + b, ctx) <==> RowsFrom(a, ctx) && RowsFrom(b, ctx)
  {
    var all := a + b;
    assert forall i :: 0 <= i < |a| ==> all[i] == a[i];
    assert forall i :: 0 <= i < |b| ==> all[|a| + i] == b[i];
  }

  lemma MetricRowsFrom(g: DoubleFormat, t: MetricTree, ctx: Context, final: Context)
    ensures RowsFrom(RowsOf(g, t, ctx), final) <==> !HasRows(t) || SameOrigin(ctx, final)
  {
    hide DataRows, CopyStr, PointCount;
    RowsHaveContext(g, ctx, StringsOf(t), Take(t.data, 8));
    var rows := RowsOf(g, t, ctx);
    if HasRows(t) { assert rows[0].ctx == ctx; }
  }

  lemma {:induction false} NamedRowsFrom(g: DoubleFormat, ts: seq<MetricTree>, names: seq<string>, ctx: Context,
                                         final: Context)
    requires |ts| == |names|
    ensures RowsFrom(NamedRows(g, ts, names, ctx), final) <==> !AnyRows(ts) || SameOrigin(ctx, final)
  {
    hide RowsOf, HasRows, RowsFrom;
    if ts == [] {
      NoRows(final);
    } else {
      MetricRowsFrom(g, ts[0], ctx.(scope := names[0]), final);
      NamedRowsFrom(g, ts[1..], names[1..], ctx, final);
      RowsFromConcat(RowsOf(g, ts[0], ctx.(scope := names[0])), NamedRows(g, ts[1..], names[1..], ctx), final);
    }
  }

  lemma {:induction false} WireRowsFrom(g: DoubleFormat, items: seq<bytes>, ts: seq<MetricScope>, ctx: Context,
                                        final: Context)
    requires ScopesWire(items, ts) && SameOrigin(ctx, final)
    ensures RowsFrom(WireRows(g, items, ts, ctx), final)
    decreases |ts|
  {
    hide Parse, NamedRows, TraceTree.NamesInForce, ScopeWire, EnterName, RowsFrom;
    if ts == [] {
      NoRows(final);
    } else {
      ScopeNowFrom(g, items[0], ts[0], ctx, final);
      WireRowsFrom(g, items[1..], ts[1..], Enter(ctx, ts[0]), final);
      RowsFromConcat(ScopeNow(g, items[0], ts[0], ctx), WireRows(g, items[1..], ts[1..], Enter(ctx, ts[0])), final);
    }
  }

  lemma NoRows(final: Context)
    ensures RowsFrom([], final)
  {
  }

  lemma ScopeNowFrom(g: DoubleFormat, item: bytes, t: MetricScope, ctx: Context, final: Context)
    requires ScopeWire(item, t)
    ensures RowsFrom(ScopeNow(g, item, t, ctx), final) <==> !AnyRows(t.metrics) || SameOrigin(ctx, final)
  {
    hide Parse, NamedRows, TraceTree.NamesInForce, RowsFrom, MetricWire, TraceTree.Merged;
    NamedRowsFrom(g, t.metrics, TraceTree.NamesInForce(Parse(item).fields, ctx.scope), ctx, final);
  }

  lemma {:induction false} FoldIgnoresScope(fs: seq<Field>, ctx: Context, scope: string)
    ensures ResourceFold(fs, ctx.(scope := scope)) == ResourceFold(fs, ctx).(scope := scope)
  {
    hide Parse, KvOf, CopyStr;
    if fs != [] { FoldIgnoresScope(fs[1..], ResourceStep(ctx, fs[0]), scope); }
  }

  /** Behind one field: what is known of the resource, and how many scopes have been seen. */
  lemma OriginKnownStep(fs: seq<Field>, held: nat, ts: seq<MetricScope>, ctx: Context, final: Context)
    requires fs != [] && (IsBytes(fs[0], 2) ==> ts != [])
    ensures var next := if IsBytes(fs[0], 1) then ResourceFold(Parse(fs[0].val.data).fields, ctx) else ctx;
            var one := IsBytes(fs[0], 2);
            OriginKnown(fs, held, ts, ctx, final)
            <==> (one && held >= 64 && AnyRows(ts[0].metrics) ==> SameOrigin(ctx, final))
                 && OriginKnown(fs[1..], if one then held + 1 else held, if one then ts[1..] else ts, next, final)
  {
    hide Parse, SameOrigin, ResourceFold, OriginKnown, TraceTree.Merged;
    var next := if IsBytes(fs[0], 1) then ResourceFold(Parse(fs[0].val.data).fields, ctx) else ctx;
    var held1, ts1 := if IsBytes(fs[0], 2) then held + 1 else held, if IsBytes(fs[0], 2) then ts[1..] else ts;
    forall i | 0 < i < |fs|
      ensures Overflows(fs, held, ts, i) <==> Overflows(fs[1..], held1, ts1, i - 1)
      ensures ResourceFold(TraceTree.Merged(fs[..i], 1), ctx)
              == ResourceFold(TraceTree.Merged(fs[1..][..i - 1], 1), next)
    {
      OverflowsStep(fs, held, ts, i);
      FoldAtStep(fs, ctx, i);
    }
    assert fs[..0] == [];
    NothingFolds(ctx);
    OriginKnownSplit(fs, held, ts, held1, ts1, ctx, next, final);
  }

  lemma OriginKnownSplit(fs: seq<Field>, held: nat, ts: seq<MetricScope>, held1: nat, ts1: seq<MetricScope>,
                         ctx: Context, next: Context, final: Context)
    requires fs != []
    requires forall i :: 0 < i < |fs| ==>
               && (Overflows(fs, held, ts, i) <==> Overflows(fs[1..], held1, ts1, i - 1))
               && ResourceFold(TraceTree.Merged(fs[..i], 1), ctx)
                   == ResourceFold(TraceTree.Merged(fs[1..][..i - 1], 1), next)
    ensures OriginKnown(fs, held, ts, ctx, final)
            <==> (Overflows(fs, held, ts, 0) ==> SameOrigin(ResourceFold(TraceTree.Merged(fs[..0], 1), ctx), final))
                 && OriginKnown(fs[1..], held1, ts1, next, final)
  {
    hide Overflows, ResourceFold, TraceTree.Merged, SameOrigin;
    if OriginKnown(fs, held, ts, ctx, final) {
      forall i | 0 <= i < |fs[1..]| && Overflows(fs[1..], held1, ts1, i)
        ensures SameOrigin(ResourceFold(TraceTree.Merged(fs[1..][..i], 1), next), final)
      {
        assert Overflows(fs, held, ts, i + 1);
      }
    }
    if OriginKnown(fs[1..], held1, ts1, next, final) {
      forall i | 0 < i < |fs| && Overflows(fs, held, ts, i)
        ensures SameOrigin(ResourceFold(TraceTree.Merged(fs[..i], 1), ctx), final)
      {
        assert Overflows(fs[1..], held1, ts1, i - 1);
      }
    }
  }

  lemma NothingFolds(ctx: Context)
    ensures TraceTree.Merged([], 1) == [] && ResourceFold([], ctx) == ctx
  {
  }

  lemma OverflowsStep(fs: seq<Field>, held: nat, ts: seq<MetricScope>, i: nat)
    requires 0 < i < |fs| && (IsBytes(fs[0], 2) ==> ts != [])
    ensures var one := IsBytes(fs[0], 2);
            Overflows(fs, held, ts, i)
            <==> Overflows(fs[1..], if one then held + 1 else held, if one then ts[1..] else ts, i - 1)
  {
    assert fs[..i][1..] == fs[1..][..i - 1] && fs[..i][0] == fs[0] && fs[1..][i - 1] == fs[i];
  }

  lemma FoldAtStep(fs: seq<Field>, ctx: Context, i: nat)
    requires 0 < i <= |fs|
    ensures var next := if IsBytes(fs[0], 1) then ResourceFold(Parse(fs[0].val.data).fields, ctx) else ctx;
            ResourceFold(TraceTree.Merged(fs[..i], 1), ctx) == ResourceFold(TraceTree.Merged(fs[1..][..i - 1], 1), next)
  {
    hide Parse, TraceTree.Merged, ResourceFold;
    TraceTree.MergedStep(fs, 1, i);
    var rest := TraceTree.Merged(fs[1..][..i - 1], 1);
    if IsBytes(fs[0], 1) { ResourceFoldAppend(Parse(fs[0].val.data).fields, rest, ctx); }
    else { assert [] + rest == rest; }
  }

  lemma OriginKnownIgnoresScope(fs: seq<Field>, held: nat, ts: seq<MetricScope>, ctx: Context, scope: string,
                                final: Context)
    ensures OriginKnown(fs, held, ts, ctx.(scope := scope), final) <==> OriginKnown(fs, held, ts, ctx, final)
  {
    hide Overflows, ResourceFold, TraceTree.Merged;
    forall i | 0 <= i < |fs| ensures SameOrigin(ResourceFold(TraceTree.Merged(fs[..i], 1), ctx.(scope := scope)), final)
                                     <==> SameOrigin(ResourceFold(TraceTree.Merged(fs[..i], 1), ctx), final) {
      FoldIgnoresScope(TraceTree.Merged(fs[..i], 1), ctx, scope);
    }
  }

  lemma {:induction false} PastBufferFrom(g: DoubleFormat, fs: seq<Field>, held: nat, ts: seq<MetricScope>,
                                          ctx: Context,
                                          final: Context)
    requires ScopesWire(Subs(fs, 2), ts)
    ensures var early := PastBuffer(g, fs, held, ts, ctx);
            && (RowsFrom(early.rows, final) <==> OriginKnown(fs, held, ts, ctx, final))
            && SameOrigin(early.ctx, ResourceFold(TraceTree.Merged(fs, 1), ctx))
    decreases |fs|
  {
    hide Parse, ResourceFold, RowsFrom, OriginKnown, ScopeNow, EnterName, TraceTree.Merged, ScopeWire;
    if fs == [] {
      NoRows(final);
      NothingFolds(ctx);
      NothingOverflows(held, ts, ctx, final);
    } else {
      if IsBytes(fs[0], 2) { SubsTail(fs, ts); }
      OriginKnownStep(fs, held, ts, ctx, final);
      FoldAtStep(fs, ctx, |fs|);
      assert fs[..|fs|] == fs && fs[1..][..|fs| - 1] == fs[1..];
      if IsBytes(fs[0], 1) {
        PastBufferFrom(g, fs[1..], held, ts, ResourceFold(Parse(fs[0].val.data).fields, ctx), final);
      } else if !IsBytes(fs[0], 2) {
        PastBufferFrom(g, fs[1..], held, ts, ctx, final);
      } else if held < 64 {
        PastBufferFrom(g, fs[1..], held + 1, ts[1..], ctx, final);
      } else {
        var inner := Enter(ctx, ts[0]);
        PastBufferFrom(g, fs[1..], held + 1, ts[1..], inner, final);
        ScopeNowFrom(g, fs[0].val.data, ts[0], ctx, final);
        RowsFromConcat(ScopeNow(g, fs[0].val.data, ts[0], ctx),
                       PastBuffer(g, fs[1..], held + 1, ts[1..], inner).rows, final);
        OriginKnownIgnoresScope(fs[1..], held + 1, ts[1..], ctx, inner.scope, final);
        FoldIgnoresScope(TraceTree.Merged(fs[1..], 1), ctx, inner.scope);
      }
    }
  }

  lemma NothingOverflows(held: nat, ts: seq<MetricScope>, ctx: Context, final: Context)
    ensures OriginKnown([], held, ts, ctx, final)
  {
  }

  /** Every row of a resource carries its service, its label and its pid key if and only if no scope
      with points past the 64th stands before a resource field that changes one of them. */
  lemma OriginsAreKnownIff(g: DoubleFormat, s: bytes, t: MetricResource)
    requires ResourceWire(s, t)
    ensures var final := TreeContext(t.attrs, NEW_CONTEXT);
            RowsFrom(ResourceWalk(g, s).rows, final) <==> OriginKnown(Parse(s).fields, 0, t.scopes, NEW_CONTEXT, final)
  {
    hide Parse, PastBuffer, WireRows, RowsFrom, OriginKnown, ScopeWire, AttrsWire, TreeContext, ResourceWalk,
        TraceTree.Merged;
    var fs, m, final := Parse(s).fields, Buffered(|t.scopes|, 0), TreeContext(t.attrs, NEW_CONTEXT);
    ResourceEmitsExactly(g, s, t);
    ResourceIsTree(TraceTree.Merged(fs, 1), t.attrs, NEW_CONTEXT);
    PastBufferFrom(g, fs, 0, t.scopes, NEW_CONTEXT, final);
    var early := PastBuffer(g, fs, 0, t.scopes, NEW_CONTEXT);
    WireRowsFrom(g, Subs(fs, 2)[..m], t.scopes[..m], early.ctx, final);
    RowsFromConcat(early.rows, WireRows(g, Subs(fs, 2)[..m], t.scopes[..m], early.ctx), final);
  }
}
