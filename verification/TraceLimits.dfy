/** Where the trace decoder departs from the plain flattening: more scopes than it can buffer,
    and scope names that arrive late or outlive their scope. */
module TraceLimits {
  import opened Bytes
  import opened Wire
  import opened Attributes
  import opened AttributeTree
  import opened Delivery
  import opened Trace
  import opened TraceTree
  import opened Encoder

  // ------------------------ More than 64 scopes ------------------------

  function Buffered(n: nat, held: nat): nat {
    if held >= 64 then 0 else if n <= 64 - held then n else 64 - held
  }

  /** The rows of the scopes that find the buffer full, each walked with what is known of the
      resource by then, and the context they leave behind. */
  datatype Early = Early(rows: seq<Span>, ctx: Context)

  function PastBuffer(g: DoubleFormat, fs: seq<Field>, held: nat, ts: seq<ScopeTree>, ctx: Context): Early
    decreases |fs|
  {
    if fs == [] then Early([], ctx)
    else if IsBytes(fs[0], 1) then PastBuffer(g, fs[1..], held, ts, ResourceFold(Parse(fs[0].val.data).fields, ctx))
    else if !IsBytes(fs[0], 2) || ts == [] then PastBuffer(g, fs[1..], held, ts, ctx)
    else if held < 64 then PastBuffer(g, fs[1..], held + 1, ts[1..], ctx)
    else
      var rest := PastBuffer(g, fs[1..], held + 1, ts[1..], Enter(ctx, ts[0]));
      Early(ScopeNow(g, fs[0].val.data, ts[0], ctx) + rest.rows, rest.ctx)
  }

  function ScopeNow(g: DoubleFormat, item: bytes, t: ScopeTree, ctx: Context): seq<Span> {
    NamedRows(g, t.spans, NamesInForce(Parse(item).fields, ctx.scope), ctx)
  }

  lemma {:induction false} FieldsEmitExactly(g: DoubleFormat, fs: seq<Field>, ending: Ending, ctx: Context, held: nat,
                                             pending: seq<bytes>, kept: seq<ScopeTree>, ts: seq<ScopeTree>)
    requires !ending.AtBadPayload? && |pending| == (if held < 64 then held else 64)
    requires ScopesWire(pending, kept) && ScopesWire(Subs(fs, 2), ts)
    ensures var early, m := PastBuffer(g, fs, held, ts, ctx), Buffered(|ts|, held);
            ResourceFields(g, fs, ending, ctx, pending)
            == Out(early.rows + WireRows(g, pending + Subs(fs, 2)[..m], kept + ts[..m], early.ctx), true)
    decreases |fs|
  {
    hide Parse, ScopeWire, ScopeWalk, ResourceFold, WireRows, Drain, ScopeNow;
    if fs == [] {
      DrainEmits(g, pending, kept, ctx);
      assert pending + [] == pending && kept + [] == kept;
      assert [] + WireRows(g, pending, kept, ctx) == WireRows(g, pending, kept, ctx);
    } else if IsBytes(fs[0], 1) {
      FieldsEmitExactly(g, fs[1..], ending, ResourceFold(Parse(fs[0].val.data).fields, ctx), held, pending, kept, ts);
    } else if IsBytes(fs[0], 2) {
      SubsTail(fs, ts);
      if held < 64 {
        var m := Buffered(|ts|, held);
        var data, more := fs[0].val.data, Subs(fs[1..], 2);
        FieldsEmitExactly(g, fs[1..], ending, ctx, held + 1, pending + [data], kept + [ts[0]], ts[1..]);
        assert pending + [data] + more[..m - 1] == pending + Subs(fs, 2)[..m];
        assert kept + [ts[0]] + ts[1..][..m - 1] == kept + ts[..m];
      } else {
        ScopeNowEmits(g, fs[0].val.data, ts[0], ctx);
        FieldsEmitExactly(g, fs[1..], ending, Enter(ctx, ts[0]), held + 1, pending, kept, ts[1..]);
        assert Subs(fs[1..], 2)[..0] == Subs(fs, 2)[..0] && ts[1..][..0] == ts[..0];
        var rest := PastBuffer(g, fs[1..], held + 1, ts[1..], Enter(ctx, ts[0]));
        Associates(ScopeNow(g, fs[0].val.data, ts[0], ctx), rest.rows, WireRows(g, pending + [], kept + [], rest.ctx));
      }
    } else {
      FieldsEmitExactly(g, fs[1..], ending, ctx, held, pending, kept, ts);
    }
  }

  lemma ScopeNowEmits(g: DoubleFormat, item: bytes, t: ScopeTree, ctx: Context)
    requires ScopeWire(item, t)
    ensures ScopeWalk(g, item, ctx) == ScopeOut(Out(ScopeNow(g, item, t, ctx), true), Enter(ctx, t))
  {
    hide ScopeWalk, ScopeWire, Parse, NamedRows, NamesInForce;
    ScopeEmitsRows(g, item, t, ctx);
  }

  lemma SubsTail(fs: seq<Field>, ts: seq<ScopeTree>)
    requires fs != [] && IsBytes(fs[0], 2) && ScopesWire(Subs(fs, 2), ts)
    ensures ts != [] && ScopeWire(fs[0].val.data, ts[0]) && ScopesWire(Subs(fs[1..], 2), ts[1..])
    ensures Subs(fs, 2) == [fs[0].val.data] + Subs(fs[1..], 2)
  {
    hide ScopeWire;
    var x, all, more := fs[0].val.data, Subs(fs, 2), Subs(fs[1..], 2);
    assert all == [x] + more;
    hide Subs;
    Seam([x], more);
    assert all[0] == x;
    assert forall i :: 0 <= i < |more| ==> more[i] == all[i + 1] && ts[1..][i] == ts[i + 1];
  }

  /** The exact rows of a resource with any number of scopes: first those past the buffer, with
      the context known where they stand, then the buffered ones. */
  lemma ResourceEmitsExactly(g: DoubleFormat, s: bytes, t: ResourceTree)
    requires ResourceWire(s, t)
    ensures var fs, m := Parse(s).fields, Buffered(|t.scopes|, 0);
            var early := PastBuffer(g, fs, 0, t.scopes, NEW_CONTEXT);
            && |Subs(fs, 2)| == |t.scopes|
            && ResourceWalk(g, s) == Out(early.rows + WireRows(g, Subs(fs, 2)[..m], t.scopes[..m], early.ctx), true)
  {
    hide Parse, ResourceFields, ScopeWire, PastBuffer, WireRows, Merged, AttrsWire;
    var fs, m := Parse(s).fields, Buffered(|t.scopes|, 0);
    FieldsEmitExactly(g, fs, Parse(s).ending, NEW_CONTEXT, 0, [], [], t.scopes);
    assert [] + Subs(fs, 2)[..m] == Subs(fs, 2)[..m] && [] + t.scopes[..m] == t.scopes[..m];
  }

  // ------------------------ Service and label ------------------------

  predicate SameOrigin(a: Context, b: Context) {
    a.service == b.service && a.labelName == b.labelName
  }

  predicate RowsFrom(rows: seq<Span>, ctx: Context) {
    forall i :: 0 <= i < |rows| ==> rows[i].service == ctx.service && rows[i].labelName == ctx.labelName
  }

  predicate HasSpans(ts: seq<ScopeTree>, k: nat) {
    k < |ts| && ts[k].spans != []
  }

  /** No scope with spans that finds the buffer full stands before a resource field that changes
      service or label. */
  predicate OriginKnown(fs: seq<Field>, held: nat, ts: seq<ScopeTree>, ctx: Context, final: Context) {
    forall i :: 0 <= i < |fs| && Overflows(fs, held, ts, i) ==> SameOrigin(ResourceFold(Merged(fs[..i], 1), ctx), final)
  }

  predicate Overflows(fs: seq<Field>, held: nat, ts: seq<ScopeTree>, i: nat)
    requires i < |fs|
  {
    IsBytes(fs[i], 2) && held + |Subs(fs[..i], 2)| >= 64 && HasSpans(ts, |Subs(fs[..i], 2)|)
  }

  lemma RowsFromConcat(a: seq<Span>, b: seq<Span>, ctx: Context)
    ensures RowsFrom(a + b, ctx) <==> RowsFrom(a, ctx) && RowsFrom(b, ctx)
  {
    var all := a + b;
    assert forall i :: 0 <= i < |a| ==> all[i] == a[i];
    assert forall i :: 0 <= i < |b| ==> all[|a| + i] == b[i];
  }

  lemma {:induction false} NamedRowsFrom(g: DoubleFormat, ts: seq<SpanTree>, names: seq<string>, ctx: Context,
                                         final: Context)
    requires |ts| == |names|
    ensures RowsFrom(NamedRows(g, ts, names, ctx), final) <==> ts == [] || SameOrigin(ctx, final)
  {
    hide DraftOf, PrintEntries;
    if ts != [] {
      var row := SpanRow(g, ts[0], ctx.(scope := names[0]));
      NamedRowsFrom(g, ts[1..], names[1..], ctx, final);
      RowsFromConcat([row], NamedRows(g, ts[1..], names[1..], ctx), final);
      assert RowsFrom([row], final) <==> SameOrigin(ctx, final) by { assert [row][0] == row; }
    }
  }

  lemma {:induction false} WireRowsFrom(g: DoubleFormat, items: seq<bytes>, ts: seq<ScopeTree>, ctx: Context,
                                        final: Context)
    requires ScopesWire(items, ts) && SameOrigin(ctx, final)
    ensures RowsFrom(WireRows(g, items, ts, ctx), final)
    decreases |ts|
  {
    hide Parse, NamedRows, NamesInForce, ScopeWire, EnterName, RowsFrom;
    if ts == [] {
      NoRows(final);
    } else {
      ScopeNowFrom(g, items[0], ts[0], ctx, final);
      WireRowsFrom(g, items[1..], ts[1..], Enter(ctx, ts[0]), final);
      RowsFromConcat(ScopeNow(g, items[0], ts[0], ctx), WireRows(g, items[1..], ts[1..], Enter(ctx, ts[0])), final);
    }
  }

  lemma NoRows(final: Context)
    ensures RowsFrom([], final)
  {
  }

  lemma ScopeNowFrom(g: DoubleFormat, item: bytes, t: ScopeTree, ctx: Context, final: Context)
    requires ScopeWire(item, t)
    ensures RowsFrom(ScopeNow(g, item, t, ctx), final) <==> t.spans == [] || SameOrigin(ctx, final)
  {
    hide Parse, NamedRows, NamesInForce, RowsFrom, SpanWire, Merged;
    NamedRowsFrom(g, t.spans, NamesInForce(Parse(item).fields, ctx.scope), ctx, final);
  }

  lemma {:induction false} FoldIgnoresScope(fs: seq<Field>, ctx: Context, scope: string)
    ensures ResourceFold(fs, ctx.(scope := scope)) == ResourceFold(fs, ctx).(scope := scope)
  {
    hide Parse, KvOf, CopyStr;
    if fs != [] { FoldIgnoresScope(fs[1..], ResourceStep(ctx, fs[0]), scope); }
  }

  /** Behind one field: what is known of the resource, and how many scopes have been seen. */
  lemma OriginKnownStep(fs: seq<Field>, held: nat, ts: seq<ScopeTree>, ctx: Context, final: Context)
    requires fs != [] && (IsBytes(fs[0], 2) ==> ts != [])
    ensures var next := if IsBytes(fs[0], 1) then ResourceFold(Parse(fs[0].val.data).fields, ctx) else ctx;
            var one := IsBytes(fs[0], 2);
            OriginKnown(fs, held, ts, ctx, final)
            <==> (one && held >= 64 && ts[0].spans != [] ==> SameOrigin(ctx, final))
                 && OriginKnown(fs[1..], if one then held + 1 else held, if one then ts[1..] else ts, next, final)
  {
    hide Parse, SameOrigin, ResourceFold, OriginKnown, Merged;
    var next := if IsBytes(fs[0], 1) then ResourceFold(Parse(fs[0].val.data).fields, ctx) else ctx;
    var held1, ts1 := if IsBytes(fs[0], 2) then held + 1 else held, if IsBytes(fs[0], 2) then ts[1..] else ts;
    forall i | 0 < i < |fs|
      ensures Overflows(fs, held, ts, i) <==> Overflows(fs[1..], held1, ts1, i - 1)
      ensures ResourceFold(Merged(fs[..i], 1), ctx) == ResourceFold(Merged(fs[1..][..i - 1], 1), next)
    {
      OverflowsStep(fs, held, ts, i);
      FoldAtStep(fs, ctx, i);
    }
    assert fs[..0] == [];
    NothingFolds(ctx);
    OriginKnownSplit(fs, held, ts, held1, ts1, ctx, next, final);
  }

  lemma OriginKnownSplit(fs: seq<Field>, held: nat, ts: seq<ScopeTree>, held1: nat, ts1: seq<ScopeTree>,
                         ctx: Context, next: Context, final: Context)
    requires fs != []
    requires forall i :: 0 < i < |fs| ==>
               && (Overflows(fs, held, ts, i) <==> Overflows(fs[1..], held1, ts1, i - 1))
               && ResourceFold(Merged(fs[..i], 1), ctx) == ResourceFold(Merged(fs[1..][..i - 1], 1), next)
    ensures OriginKnown(fs, held, ts, ctx, final)
            <==> (Overflows(fs, held, ts, 0) ==> SameOrigin(ResourceFold(Merged(fs[..0], 1), ctx), final))
                 && OriginKnown(fs[1..], held1, ts1, next, final)
  {
    hide Overflows, ResourceFold, Merged, SameOrigin;
    if OriginKnown(fs, held, ts, ctx, final) {
      forall i | 0 <= i < |fs[1..]| && Overflows(fs[1..], held1, ts1, i)
        ensures SameOrigin(ResourceFold(Merged(fs[1..][..i], 1), next), final)
      {
        assert Overflows(fs, held, ts, i + 1);
      }
    }
    if OriginKnown(fs[1..], held1, ts1, next, final) {
      forall i | 0 < i < |fs| && Overflows(fs, held, ts, i)
        ensures SameOrigin(ResourceFold(Merged(fs[..i], 1), ctx), final)
      {
        assert Overflows(fs[1..], held1, ts1, i - 1);
      }
    }
  }

  lemma NothingFolds(ctx: Context)
    ensures Merged([], 1) == [] && ResourceFold([], ctx) == ctx
  {
  }

  lemma OverflowsStep(fs: seq<Field>, held: nat, ts: seq<ScopeTree>, i: nat)
    requires 0 < i < |fs| && (IsBytes(fs[0], 2) ==> ts != [])
    ensures var one := IsBytes(fs[0], 2);
            Overflows(fs, held, ts, i)
            <==> Overflows(fs[1..], if one then held + 1 else held, if one then ts[1..] else ts, i - 1)
  {
    assert fs[..i][1..] == fs[1..][..i - 1] && fs[..i][0] == fs[0] && fs[1..][i - 1] == fs[i];
  }

  lemma FoldAtStep(fs: seq<Field>, ctx: Context, i: nat)
    requires 0 < i <= |fs|
    ensures var next := if IsBytes(fs[0], 1) then ResourceFold(Parse(fs[0].val.data).fields, ctx) else ctx;
            ResourceFold(Merged(fs[..i], 1), ctx) == ResourceFold(Merged(fs[1..][..i - 1], 1), next)
  {
    hide Parse, Merged, ResourceFold;
    MergedStep(fs, 1, i);
    var rest := Merged(fs[1..][..i - 1], 1);
    if IsBytes(fs[0], 1) { ResourceFoldAppend(Parse(fs[0].val.data).fields, rest, ctx); }
    else { assert [] + rest == rest; }
  }

  lemma OriginKnownIgnoresScope(fs: seq<Field>, held: nat, ts: seq<ScopeTree>, ctx: Context, scope: string,
                                final: Context)
    ensures OriginKnown(fs, held, ts, ctx.(scope := scope), final) <==> OriginKnown(fs, held, ts, ctx, final)
  {
    hide Overflows, ResourceFold, Merged;
    forall i | 0 <= i < |fs| ensures SameOrigin(ResourceFold(Merged(fs[..i], 1), ctx.(scope := scope)), final)
                                     <==> SameOrigin(ResourceFold(Merged(fs[..i], 1), ctx), final) {
      FoldIgnoresScope(Merged(fs[..i], 1), ctx, scope);
    }
  }

  lemma {:induction false} PastBufferFrom(g: DoubleFormat, fs: seq<Field>, held: nat, ts: seq<ScopeTree>, ctx: Context,
                                          final: Context)
    requires ScopesWire(Subs(fs, 2), ts)
    ensures var early := PastBuffer(g, fs, held, ts, ctx);
            && (RowsFrom(early.rows, final) <==> OriginKnown(fs, held, ts, ctx, final))
            && SameOrigin(early.ctx, ResourceFold(Merged(fs, 1), ctx))
    decreases |fs|
  {
    hide Parse, ResourceFold, RowsFrom, OriginKnown, ScopeNow, EnterName, Merged, ScopeWire;
    if fs == [] {
      NoRows(final);
      NothingFolds(ctx);
      NothingOverflows(held, ts, ctx, final);
    } else {
      if IsBytes(fs[0], 2) { SubsTail(fs, ts); }
      OriginKnownStep(fs, held, ts, ctx, final);
      FoldAtStep(fs, ctx, |fs|);
      assert fs[..|fs|] == fs && fs[1..][..|fs| - 1] == fs[1..];
      if IsBytes(fs[0], 1) {
        PastBufferFrom(g, fs[1..], held, ts, ResourceFold(Parse(fs[0].val.data).fields, ctx), final);
      } else if !IsBytes(fs[0], 2) {
        PastBufferFrom(g, fs[1..], held, ts, ctx, final);
      } else if held < 64 {
        PastBufferFrom(g, fs[1..], held + 1, ts[1..], ctx, final);
      } else {
        var inner := Enter(ctx, ts[0]);
        PastBufferFrom(g, fs[1..], held + 1, ts[1..], inner, final);
        ScopeNowFrom(g, fs[0].val.data, ts[0], ctx, final);
        RowsFromConcat(ScopeNow(g, fs[0].val.data, ts[0], ctx),
                       PastBuffer(g, fs[1..], held + 1, ts[1..], inner).rows, final);
        OriginKnownIgnoresScope(fs[1..], held + 1, ts[1..], ctx, inner.scope, final);
        FoldIgnoresScope(Merged(fs[1..], 1), ctx, inner.scope);
      }
    }
  }

  lemma NothingOverflows(held: nat, ts: seq<ScopeTree>, ctx: Context, final: Context)
    ensures OriginKnown([], held, ts, ctx, final)
  {
  }

  /** Every row of a resource carries its service and its label if and only if no scope with spans
      past the 64th stands before a resource field that changes one of them. */
  lemma OriginsAreKnownIff(g: DoubleFormat, s: bytes, t: ResourceTree)
    requires ResourceWire(s, t)
    ensures var final := TreeContext(t.attrs, NEW_CONTEXT);
            RowsFrom(ResourceWalk(g, s).rows, final) <==> OriginKnown(Parse(s).fields, 0, t.scopes, NEW_CONTEXT, final)
  {
    hide Parse, PastBuffer, WireRows, RowsFrom, OriginKnown, ScopeWire, AttrsWire, TreeContext, ResourceWalk, Merged;
    var fs, m, final := Parse(s).fields, Buffered(|t.scopes|, 0), TreeContext(t.attrs, NEW_CONTEXT);
    ResourceEmitsExactly(g, s, t);
    ResourceIsTree(Merged(fs, 1), t.attrs, NEW_CONTEXT);
    PastBufferFrom(g, fs, 0, t.scopes, NEW_CONTEXT, final);
    var early := PastBuffer(g, fs, 0, t.scopes, NEW_CONTEXT);
    WireRowsFrom(g, Subs(fs, 2)[..m], t.scopes[..m], early.ctx, final);
    RowsFromConcat(early.rows, WireRows(g, Subs(fs, 2)[..m], t.scopes[..m], early.ctx), final);
  }

  lemma {:induction false} BufferFills(g: DoubleFormat, items: seq<bytes>, tail: seq<Field>, held: nat,
                                       ts: seq<ScopeTree>, ctx: Context, n: nat)
    requires n <= |items| == |ts| && held + n <= 64
    ensures PastBuffer(g, Items(2, items) + tail, held, ts, ctx)
            == PastBuffer(g, Items(2, items[n..]) + tail, held + n, ts[n..], ctx)
    decreases n
  {
    hide ScopeNow, ResourceFold, Parse;
    if n == 0 {
      assert items[0..] == items && ts[0..] == ts;
    } else {
      assert (Items(2, items) + tail)[1..] == Items(2, items[1..]) + tail;
      BufferFills(g, items[1..], tail, held + 1, ts[1..], ctx, n - 1);
      assert items[1..][n - 1..] == items[n..] && ts[1..][n - 1..] == ts[n..];
    }
  }

  lemma SubsBefore(items: seq<bytes>, resource: bytes)
    ensures Subs(Items(2, items) + [Field(1, BytesP(resource))], 2) == items
  {
    var tail := [Field(1, BytesP(resource))];
    SubsAppend(Items(2, items), tail, 2);
    SubsOfItems(2, items);
    assert tail[1..] == [] && Subs(tail, 2) == [] && items + [] == items;
  }

  /** Sixty-five scopes in front of their resource: the spans of the last one come first, and
      without the service and the label. */
  lemma LateResourceIsMissed(g: DoubleFormat, items: seq<bytes>, ts: seq<ScopeTree>, resource: bytes)
    requires |items| == 65 && ScopesWire(items, ts) && ts[64].spans != []
    ensures var fs := Items(2, items) + [Field(1, BytesP(resource))];
            var out := ResourceFields(g, fs, Clean, NEW_CONTEXT, []);
            && out.ok && out.rows != []
            && out.rows[0].service == "unknown_service" && out.rows[0].labelName == ""
            && out.rows[0].body == DraftOf(ts[64].spans[0])
  {
    hide ScopeWire, PastBuffer, WireRows, ResourceFields, Parse;
    var tail := [Field(1, BytesP(resource))];
    var fs := Items(2, items) + tail;
    SubsBefore(items, resource);
    hide Subs, Items, DraftOf;
    FieldsEmitExactly(g, fs, Clean, NEW_CONTEXT, 0, [], [], ts);
    LateRows(g, items, ts, tail);
  }

  lemma LateRows(g: DoubleFormat, items: seq<bytes>, ts: seq<ScopeTree>, tail: seq<Field>)
    requires |items| == |ts| == 65 && ScopeWire(items[64], ts[64]) && ts[64].spans != []
    ensures var rows := PastBuffer(g, Items(2, items) + tail, 0, ts, NEW_CONTEXT).rows;
            && rows != [] && rows[0].service == "unknown_service" && rows[0].labelName == ""
            && rows[0].body == DraftOf(ts[64].spans[0])
  {
    hide ScopeWire, PastBuffer, Items, DraftOf;
    BufferFills(g, items, tail, 0, ts, NEW_CONTEXT, 64);
    assert items[64..] == [items[64]] && ts[64..] == [ts[64]];
    LastScopeNow(g, items[64], ts[64], tail);
  }

  lemma LastScopeNow(g: DoubleFormat, item: bytes, t: ScopeTree, tail: seq<Field>)
    requires ScopeWire(item, t) && t.spans != []
    ensures var rows := PastBuffer(g, Items(2, [item]) + tail, 64, [t], NEW_CONTEXT).rows;
            && rows != [] && rows[0].service == "unknown_service" && rows[0].labelName == ""
            && rows[0].body == DraftOf(t.spans[0])
  {
    hide Parse, SpanWire, DraftOf, PrintEntries, Merged;
    var fs := Items(2, [item]) + tail;
    assert fs[0] == Field(2, BytesP(item));
    var names := NamesInForce(Parse(item).fields, "");
    assert |names| == |t.spans|;
    assert NamedRows(g, t.spans, names, NEW_CONTEXT)[0] == SpanRow(g, t.spans[0], NEW_CONTEXT.(scope := names[0]));
  }

  // ------------------------ Once each, and in which order ------------------------

  const BARE := Context("", "", "")

  /** A row without what it takes from its surroundings. */
  function Strip(sp: Span): Span {
    sp.(labelName := "", service := "", scope := "")
  }

  function Strips(rows: seq<Span>): seq<Span> {
    seq(|rows|, i requires 0 <= i < |rows| => Strip(rows[i]))
  }

  lemma StripsConcat(a: seq<Span>, b: seq<Span>)
    ensures Strips(a + b) == Strips(a) + Strips(b)
  {
  }

  lemma StripsNothing()
    ensures Strips([]) == []
  {
  }

  function SpanCount(ts: seq<ScopeTree>): nat {
    if ts == [] then 0 else |ts[0].spans| + SpanCount(ts[1..])
  }

  function BareRows(g: DoubleFormat, ts: seq<ScopeTree>): (rows: seq<Span>)
    ensures |rows| == SpanCount(ts)
  {
    if ts == [] then [] else SpanRows(g, ts[0].spans, BARE) + BareRows(g, ts[1..])
  }

  lemma {:induction false} BareRowsConcat(g: DoubleFormat, a: seq<ScopeTree>, b: seq<ScopeTree>)
    ensures BareRows(g, a + b) == BareRows(g, a) + BareRows(g, b)
  {
    hide SpanRows;
    if a == [] { assert a + b == b; } else {
      assert (a + b)[1..] == a[1..] + b;
      BareRowsConcat(g, a[1..], b);
    }
  }

  lemma {:induction false} NamedRowsStripped(g: DoubleFormat, ts: seq<SpanTree>, names: seq<string>, ctx: Context)
    requires |ts| == |names|
    ensures Strips(NamedRows(g, ts, names, ctx)) == SpanRows(g, ts, BARE)
  {
    if ts != [] {
      var row := SpanRow(g, ts[0], ctx.(scope := names[0]));
      SpanStripped(g, ts[0], ctx.(scope := names[0]));
      NamedRowsStripped(g, ts[1..], names[1..], ctx);
      hide SpanRow, Strip;
      StripsConcat([row], NamedRows(g, ts[1..], names[1..], ctx));
      assert Strips([row]) == [Strip(row)];
    }
  }

  lemma SpanStripped(g: DoubleFormat, t: SpanTree, ctx: Context)
    ensures Strip(SpanRow(g, t, ctx)) == SpanRow(g, t, BARE)
  {
    hide DraftOf, PrintEntries;
  }

  lemma ScopeNowStripped(g: DoubleFormat, item: bytes, t: ScopeTree, ctx: Context)
    requires ScopeWire(item, t)
    ensures Strips(ScopeNow(g, item, t, ctx)) == SpanRows(g, t.spans, BARE)
  {
    hide Parse, NamedRows, NamesInForce, Strips, SpanWire, Merged;
    NamedRowsStripped(g, t.spans, NamesInForce(Parse(item).fields, ctx.scope), ctx);
  }

  lemma {:induction false} WireRowsStripped(g: DoubleFormat, items: seq<bytes>, ts: seq<ScopeTree>, ctx: Context)
    requires ScopesWire(items, ts)
    ensures Strips(WireRows(g, items, ts, ctx)) == BareRows(g, ts)
    decreases |ts|
  {
    hide SpanRows, Strips, Parse, NamedRows, NamesInForce, ScopeWire, EnterName;
    if ts == [] {
      StripsNothing();
    } else {
      ScopeNowStripped(g, items[0], ts[0], ctx);
      WireRowsStripped(g, items[1..], ts[1..], Enter(ctx, ts[0]));
      StripsConcat(ScopeNow(g, items[0], ts[0], ctx), WireRows(g, items[1..], ts[1..], Enter(ctx, ts[0])));
    }
  }

  lemma {:induction false} PastBufferStripped(g: DoubleFormat, fs: seq<Field>, held: nat, ts: seq<ScopeTree>,
                                              ctx: Context)
    requires ScopesWire(Subs(fs, 2), ts)
    ensures Strips(PastBuffer(g, fs, held, ts, ctx).rows) == BareRows(g, ts[Buffered(|ts|, held)..])
    decreases |fs|
  {
    hide SpanRows, Strips, Parse, ScopeNow, ScopeWire, EnterName, ResourceFold;
    if fs == [] {
      StripsNothing();
    } else if IsBytes(fs[0], 1) {
      PastBufferStripped(g, fs[1..], held, ts, ResourceFold(Parse(fs[0].val.data).fields, ctx));
    } else if !IsBytes(fs[0], 2) {
      PastBufferStripped(g, fs[1..], held, ts, ctx);
    } else {
      SubsTail(fs, ts);
      if held < 64 {
        var m := Buffered(|ts|, held);
        PastBufferStripped(g, fs[1..], held + 1, ts[1..], ctx);
        assert ts[1..][m - 1..] == ts[m..];
      } else {
        var inner := Enter(ctx, ts[0]);
        PastBufferStripped(g, fs[1..], held + 1, ts[1..], inner);
        ScopeNowStripped(g, fs[0].val.data, ts[0], ctx);
        StripsConcat(ScopeNow(g, fs[0].val.data, ts[0], ctx), PastBuffer(g, fs[1..], held + 1, ts[1..], inner).rows);
        assert ts[1..][0..] == ts[1..] && ts[0..] == ts;
      }
    }
  }

  /** However many scopes a resource has, each of its spans is delivered exactly once: those of
      the scopes past the 64th first, then those of the first 64. */
  lemma EverySpanOnce(g: DoubleFormat, s: bytes, t: ResourceTree)
    requires ResourceWire(s, t)
    ensures var out, m := ResourceWalk(g, s), Buffered(|t.scopes|, 0);
            && out.ok
            && Strips(out.rows) == BareRows(g, t.scopes[m..]) + BareRows(g, t.scopes[..m])
            && BareRows(g, t.scopes) == BareRows(g, t.scopes[..m]) + BareRows(g, t.scopes[m..])
            && multiset(Strips(out.rows)) == multiset(BareRows(g, t.scopes))
  {
    hide Parse, ScopeWire, BareRows, Strips, PastBuffer, WireRows, ResourceWalk, Merged, AttrsWire;
    var fs, m := Parse(s).fields, Buffered(|t.scopes|, 0);
    ResourceEmitsExactly(g, s, t);
    var early := PastBuffer(g, fs, 0, t.scopes, NEW_CONTEXT);
    PastBufferStripped(g, fs, 0, t.scopes, NEW_CONTEXT);
    WireRowsStripped(g, Subs(fs, 2)[..m], t.scopes[..m], early.ctx);
    StripsConcat(early.rows, WireRows(g, Subs(fs, 2)[..m], t.scopes[..m], early.ctx));
    BareRowsConcat(g, t.scopes[..m], t.scopes[m..]);
    assert t.scopes[..m] + t.scopes[m..] == t.scopes;
  }

  /** The place on the wire of the i-th delivered span, when the first `kept` of `n` were held. */
  function Arrival(n: nat, kept: nat, i: nat): nat
    requires kept <= n && i < n
  {
    if i < n - kept then kept + i else i - (n - kept)
  }

  predicate InOrder(n: nat, kept: nat)
    requires kept <= n
  {
    forall i :: 0 <= i < n ==> Arrival(n, kept, i) == i
  }

  lemma Rotated<T>(a: seq<T>, b: seq<T>)
    ensures forall i :: 0 <= i < |a| + |b| ==> (b + a)[i] == (a + b)[Arrival(|a| + |b|, |a|, i)]
    ensures InOrder(|a| + |b|, |a|) <==> a == [] || b == []
    ensures InOrder(|a| + |b|, |a|) ==> b + a == a + b
  {
    if a != [] && b != [] { assert Arrival(|a| + |b|, |a|, 0) == |a|; }
    if InOrder(|a| + |b|, |a|) { assert a == [] || b == []; }
  }

  /** Each delivered row is the one at its arrival place, and the places are in wire order if and
      only if no scope past the 64th or none of the first 64 has spans. */
  lemma OrderIsKeptIff(g: DoubleFormat, s: bytes, t: ResourceTree)
    requires ResourceWire(s, t)
    ensures var m, n := Buffered(|t.scopes|, 0), SpanCount(t.scopes);
            var rows, wire, kept := Strips(ResourceWalk(g, s).rows), BareRows(g, t.scopes), SpanCount(t.scopes[..m]);
            && |rows| == n && kept <= n
            && (forall i :: 0 <= i < n ==> rows[i] == wire[Arrival(n, kept, i)])
            && (InOrder(n, kept) <==> SpanCount(t.scopes[..m]) == 0 || SpanCount(t.scopes[m..]) == 0)
            && (InOrder(n, kept) ==> rows == wire)
  {
    hide BareRows, Strips, ResourceWalk, ResourceWire, InOrder, Arrival;
    var m := Buffered(|t.scopes|, 0);
    EverySpanOnce(g, s, t);
    Rotated(BareRows(g, t.scopes[..m]), BareRows(g, t.scopes[m..]));
  }

  const NAMELESS := SpanTree([], [], [], [], 0, 0, 0, [], 0, [])
  /** Sixty-four scopes whose span is called "a", and one whose span is called "b". */
  const SIXTY_FIVE: seq<ScopeTree> :=
    Repeat(ScopeTree(None, [NAMELESS.(name := [0x61])]), 64) + [ScopeTree(None, [NAMELESS.(name := [0x62])])]

  /** The last span on the wire is delivered first. */
  lemma SixtyFifthComesFirst(g: DoubleFormat, s: bytes, attrs: seq<Attr>)
    requires ResourceWire(s, ResourceTree(attrs, SIXTY_FIVE))
    ensures var rows := ResourceWalk(g, s).rows;
            |rows| == 65 && rows[0].body.name == "b" && rows[1].body.name == "a"
  {
    hide ResourceWire, ResourceWalk, BareRows, DraftOf;
    var t := ResourceTree(attrs, SIXTY_FIVE);
    EverySpanOnce(g, s, t);
    var early, late := SIXTY_FIVE[..64], SIXTY_FIVE[64..];
    assert late == [ScopeTree(None, [NAMELESS.(name := [0x62])])] && late[1..] == [];
    OneBareRow(g, late[0], []);
    OneBareRow(g, early[0], early[1..]);
    assert early == [early[0]] + early[1..];
    OneEach(early);
    OneEach(late);
    var rows := ResourceWalk(g, s).rows;
    assert Strips(rows)[0] == Strip(rows[0]) && Strips(rows)[1] == Strip(rows[1]);
    var b, a := SpanRow(g, late[0].spans[0], BARE), SpanRow(g, early[0].spans[0], BARE);
    assert late == [late[0]] + [] && BareRows(g, late)[0] == b && BareRows(g, early)[0] == a;
    assert Strips(rows)[0] == b && Strips(rows)[1] == a;
    assert rows[0].body == b.body == DraftOf(late[0].spans[0]) && rows[1].body == a.body == DraftOf(early[0].spans[0]);
    assert late[0].spans[0] == NAMELESS.(name := [0x62]) && early[0].spans[0] == NAMELESS.(name := [0x61]);
    ShortNames();
  }

  lemma {:induction false} OneEach(ts: seq<ScopeTree>)
    requires forall i :: 0 <= i < |ts| ==> |ts[i].spans| == 1
    ensures SpanCount(ts) == |ts|
  {
    if ts != [] { OneEach(ts[1..]); }
  }

  lemma OneBareRow(g: DoubleFormat, t: ScopeTree, more: seq<ScopeTree>)
    requires |t.spans| == 1
    ensures BareRows(g, [t] + more) == [SpanRow(g, t.spans[0], BARE)] + BareRows(g, more)
  {
    hide SpanRow;
    assert ([t] + more)[1..] == more && t.spans[1..] == [];
    assert SpanRows(g, t.spans, BARE) == [SpanRow(g, t.spans[0], BARE)];
  }

  lemma ShortNames()
    ensures DraftOf(NAMELESS.(name := [0x61])).name == "a" && DraftOf(NAMELESS.(name := [0x62])).name == "b"
  {
    assert CBytes([0x61])[0] == 0x61 && CBytes([0x62])[0] == 0x62;
  }

  /** The spans of a request without what they inherit. */
  function AllSpans(g: DoubleFormat, req: RequestTree): seq<Span> {
    if req == [] then [] else BareRows(g, req[0].scopes) + AllSpans(g, req[1..])
  }

  /** The first resource and the others. */
  lemma FirstResource(fs: seq<Field>, req: RequestTree)
    requires fs != [] && ResourcesWire(Subs(fs, 1), req)
    ensures if IsBytes(fs[0], 1)
            then req != [] && ResourceWire(fs[0].val.data, req[0]) && ResourcesWire(Subs(fs[1..], 1), req[1..])
            else ResourcesWire(Subs(fs[1..], 1), req)
  {
    hide ResourceWire;
    if IsBytes(fs[0], 1) { Seam([fs[0].val.data], Subs(fs[1..], 1)); }
  }

  lemma {:induction false} EverySpanOfFields(g: DoubleFormat, fs: seq<Field>, ending: Ending, req: RequestTree)
    requires !ending.AtBadPayload? && ResourcesWire(Subs(fs, 1), req)
    ensures var out := RequestFields(g, fs, ending);
            out.ok && multiset(Strips(out.rows)) == multiset(AllSpans(g, req))
    decreases |fs|
  {
    hide ResourceWire, ResourcesWire, ResourceWalk, BareRows, Strips, Subs;
    if fs == [] {
      NoResources(req);
      StripsNothing();
    } else {
      FirstResource(fs, req);
      if IsBytes(fs[0], 1) {
        EverySpanOnce(g, fs[0].val.data, req[0]);
        EverySpanOfFields(g, fs[1..], ending, req[1..]);
        assert req == [req[0]] + req[1..];
        hide RequestFields, AllSpans;
        OneMoreResource(g, fs, ending, req[0], req[1..]);
      } else {
        EverySpanOfFields(g, fs[1..], ending, req);
      }
    }
  }

  lemma NoResources(req: RequestTree)
    requires ResourcesWire(Subs([], 1), req)
    ensures req == []
  {
  }

  lemma OneMoreResource(g: DoubleFormat, fs: seq<Field>, ending: Ending, t: ResourceTree, more: RequestTree)
    requires fs != [] && IsBytes(fs[0], 1)
    requires ResourceWalk(g, fs[0].val.data).ok && RequestFields(g, fs[1..], ending).ok
    requires multiset(Strips(ResourceWalk(g, fs[0].val.data).rows)) == multiset(BareRows(g, t.scopes))
    requires multiset(Strips(RequestFields(g, fs[1..], ending).rows)) == multiset(AllSpans(g, more))
    ensures var out := RequestFields(g, fs, ending);
            out.ok && multiset(Strips(out.rows)) == multiset(AllSpans(g, [t] + more))
  {
    hide ResourceWalk, BareRows, Strips;
    var first, rest := ResourceWalk(g, fs[0].val.data).rows, RequestFields(g, fs[1..], ending).rows;
    StripsConcat(first, rest);
    SameElements(Strips(first), Strips(rest), BareRows(g, t.scopes), AllSpans(g, more));
    assert ([t] + more)[1..] == more;
  }

  /** A well-formed request delivers every span exactly once, however many scopes it has. */
  lemma EverySpanOfRequest(g: DoubleFormat, s: bytes, req: RequestTree)
    requires RequestWire(s, req)
    ensures var out := RequestWalk(g, s);
            out.ok && multiset(Strips(out.rows)) == multiset(AllSpans(g, req))
  {
    hide Parse, ResourcesWire, RequestFields, AllSpans;
    EverySpanOfFields(g, Parse(s).fields, Parse(s).ending, req);
  }
}
