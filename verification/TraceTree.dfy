/** Export requests as trees: every wire form of a request makes the decoder emit its spans. */
module TraceTree {
  import opened Bytes
  import opened Wire
  import opened Attributes
  import opened Rendering
  import opened AttributeTree
  import opened Delivery
  import opened Trace

  datatype SpanTree = SpanTree(traceId: bytes, spanId: bytes, parentId: bytes, name: bytes, kind: u64,
                               startNs: u64, endNs: u64, statusMessage: bytes, statusCode: u64,
                               attrs: seq<Attr>)
  datatype ScopeTree = ScopeTree(name: Option<bytes>, spans: seq<SpanTree>)
  datatype ResourceTree = ResourceTree(attrs: seq<Attr>, scopes: seq<ScopeTree>)
  type RequestTree = seq<ResourceTree>

  // ------------------------ Wire forms ------------------------

  /** The fields of a singular embedded message: repeated occurrences merge. */
  function Merged(fs: seq<Field>, num: nat): seq<Field> {
    if fs == [] then []
    else (if IsBytes(fs[0], num) then Parse(fs[0].val.data).fields else []) + Merged(fs[1..], num)
  }

  /** No payload runs past the end of its message. */
  predicate Whole(s: bytes) {
    !Parse(s).ending.AtBadPayload?
  }

  predicate SpanWire(s: bytes, t: SpanTree) {
    var fs := Parse(s).fields;
    var st := Merged(fs, 15);
    && Whole(s)
    && LastBytes(fs, 1, []) == t.traceId
    && LastBytes(fs, 2, []) == t.spanId
    && LastBytes(fs, 4, []) == t.parentId
    && LastBytes(fs, 5, []) == t.name
    && LastVarint(fs, 6, 0) == t.kind
    && LastFixed64(fs, 7, 0) == t.startNs
    && LastFixed64(fs, 8, 0) == t.endNs
    && LastBytes(st, 2, []) == t.statusMessage
    && LastVarint(st, 3, 0) == t.statusCode
    && AttrsWire(Subs(fs, 9), t.attrs)
  }

  /** The scope description may stand before, between or after the spans. */
  predicate ScopeWire(s: bytes, t: ScopeTree) {
    var fs := Parse(s).fields;
    && Whole(s)
    && t.name == OptionalName(Merged(fs, 1))
    && |Subs(fs, 2)| == |t.spans|
    && forall i :: 0 <= i < |t.spans| ==> SpanWire(Subs(fs, 2)[i], t.spans[i])
  }

  function OptionalName(fs: seq<Field>): Option<bytes> {
    if Subs(fs, 1) == [] then None else Some(LastBytes(fs, 1, []))
  }

  /** The resource may stand before, between or after the scopes. */
  predicate ResourceWire(s: bytes, t: ResourceTree) {
    var fs := Parse(s).fields;
    && Whole(s)
    && AttrsWire(Subs(Merged(fs, 1), 1), t.attrs)
    && ScopesWire(Subs(fs, 2), t.scopes)
  }

  predicate ScopesWire(items: seq<bytes>, scopes: seq<ScopeTree>) {
    |items| == |scopes| && forall i :: 0 <= i < |items| ==> ScopeWire(items[i], scopes[i])
  }

  predicate RequestWire(s: bytes, req: RequestTree) {
    && Whole(s)
    && ResourcesWire(Subs(Parse(s).fields, 1), req)
  }

  predicate ResourcesWire(items: seq<bytes>, req: RequestTree) {
    |items| == |req| && forall i :: 0 <= i < |items| ==> ResourceWire(items[i], req[i])
  }

  // ------------------------ Flattening ------------------------

  function DraftOf(t: SpanTree): Draft {
    Draft(HexCut(t.traceId, TRACE_ID_CAP), HexCut(t.spanId, SPAN_ID_CAP), HexCut(t.parentId, SPAN_ID_CAP),
          CopyStr(t.name, NAME_CAP), KindName(t.kind), StatusName(t.statusCode),
          CopyStr(t.statusMessage, MESSAGE_CAP), t.startNs, t.endNs)
  }

  function SpanRow(g: DoubleFormat, t: SpanTree, ctx: Context): Span {
    Row(ctx, DraftOf(t), "{" + PrintEntries(g, t.attrs, true, 0) + "}")
  }

  function SpanRows(g: DoubleFormat, ts: seq<SpanTree>, ctx: Context): (rows: seq<Span>)
    ensures |rows| == |ts|
  {
    if ts == [] then [] else [SpanRow(g, ts[0], ctx)] + SpanRows(g, ts[1..], ctx)
  }

  /** An unnamed scope leaves the name of the previous one in force. */
  function EnterName(name: string, t: ScopeTree): string {
    match t.name
    case None => name
    case Some(b) => CopyStr(b, SCOPE_CAP)
  }

  function Enter(ctx: Context, t: ScopeTree): Context {
    ctx.(scope := EnterName(ctx.scope, t))
  }

  function ScopeRows(g: DoubleFormat, ts: seq<ScopeTree>, ctx: Context): seq<Span> {
    if ts == [] then []
    else SpanRows(g, ts[0].spans, Enter(ctx, ts[0])) + ScopeRows(g, ts[1..], Enter(ctx, ts[0]))
  }

  /** The last string attribute of each of the two names counts. */
  function AttrStep(ctx: Context, a: Attr): Context {
    if !a.val.Str? then ctx
    else if Chars(KeyCut(a.key)) == "service.name" then ctx.(service := CopyStr(a.val.text, SERVICE_CAP))
    else if Chars(KeyCut(a.key)) == "procwatch.label" then ctx.(labelName := CopyStr(a.val.text, LABEL_CAP))
    else ctx
  }

  function TreeContext(attrs: seq<Attr>, ctx: Context): Context {
    if attrs == [] then ctx else TreeContext(attrs[1..], AttrStep(ctx, attrs[0]))
  }

  function Flatten(g: DoubleFormat, req: RequestTree): seq<Span> {
    if req == [] then []
    else ScopeRows(g, req[0].scopes, TreeContext(req[0].attrs, NEW_CONTEXT)) + Flatten(g, req[1..])
  }

  // ------------------------ Flattening by position ------------------------

  /** The scope name in force at each span, in wire order. */
  function NamesInForce(fs: seq<Field>, name: string): (names: seq<string>)
    ensures |names| == |Subs(fs, 2)|
  {
    if fs == [] then []
    else if IsBytes(fs[0], 1) then NamesInForce(fs[1..], ScopeNameFold(Parse(fs[0].val.data).fields, name))
    else if IsBytes(fs[0], 2) then [name] + NamesInForce(fs[1..], name)
    else NamesInForce(fs[1..], name)
  }

  function NamedRows(g: DoubleFormat, ts: seq<SpanTree>, names: seq<string>, ctx: Context): (rows: seq<Span>)
    ensures |ts| == |names| ==> |rows| == |ts|
  {
    if ts == [] || names == [] then []
    else [SpanRow(g, ts[0], ctx.(scope := names[0]))] + NamedRows(g, ts[1..], names[1..], ctx)
  }

  /** The rows of encoded scopes, each span under the name in force where it stands. */
  function WireRows(g: DoubleFormat, items: seq<bytes>, ts: seq<ScopeTree>, ctx: Context): seq<Span> {
    if items == [] || ts == [] then []
    else NamedRows(g, ts[0].spans, NamesInForce(Parse(items[0]).fields, ctx.scope), ctx)
         + WireRows(g, items[1..], ts[1..], Enter(ctx, ts[0]))
  }

  /** The rows of encoded resources with at most 64 scopes each. */
  function WireFlatten(g: DoubleFormat, items: seq<bytes>, req: RequestTree): seq<Span> {
    if items == [] || req == [] then []
    else WireRows(g, Subs(Parse(items[0]).fields, 2), req[0].scopes, TreeContext(req[0].attrs, NEW_CONTEXT))
         + WireFlatten(g, items[1..], req[1..])
  }

  /** No span stands before a scope field that changes the name in force. */
  predicate NamedInTime(fs: seq<Field>, name: string) {
    forall i :: 0 <= i < |fs| && IsBytes(fs[i], 2) ==>
      ScopeNameFold(Merged(fs[..i], 1), name) == ScopeNameFold(Merged(fs, 1), name)
  }

  predicate ScopesInTime(items: seq<bytes>, ts: seq<ScopeTree>, name: string) {
    items == [] || ts == [] ||
    (NamedInTime(Parse(items[0]).fields, name) && ScopesInTime(items[1..], ts[1..], EnterName(name, ts[0])))
  }

  predicate RequestInTime(items: seq<bytes>, req: RequestTree) {
    items == [] || req == [] ||
    (&& ScopesInTime(Subs(Parse(items[0]).fields, 2), req[0].scopes, NEW_CONTEXT.scope)
     && RequestInTime(items[1..], req[1..]))
  }

  // ------------------------ Spans ------------------------

  lemma {:induction false} LastBytesAppend(a: seq<Field>, b: seq<Field>, num: nat, x: bytes)
    ensures LastBytes(a + b, num, x) == LastBytes(b, num, LastBytes(a, num, x))
  {
    if a == [] { assert a + b == b; } else {
      assert (a + b)[1..] == a[1..] + b;
      LastBytesAppend(a[1..], b, num, if IsBytes(a[0], num) then a[0].val.data else x);
    }
  }

  lemma {:induction false} LastVarintAppend(a: seq<Field>, b: seq<Field>, num: nat, x: u64)
    ensures LastVarint(a + b, num, x) == LastVarint(b, num, LastVarint(a, num, x))
  {
    if a == [] { assert a + b == b; } else {
      assert (a + b)[1..] == a[1..] + b;
      LastVarintAppend(a[1..], b, num, if IsVarintField(a[0], num) then a[0].val.word else x);
    }
  }

  lemma {:induction false} StatusIsLast(fs: seq<Field>, t: SpanTree)
    ensures StatusFold(fs, DraftOf(t))
            == DraftOf(t.(statusMessage := LastBytes(fs, 2, t.statusMessage),
                          statusCode := LastVarint(fs, 3, t.statusCode)))
  {
    hide CopyStr, HexCut, KindName, StatusName;
    if fs != [] {
      var f := fs[0];
      var next := if IsBytes(f, 2) then t.(statusMessage := f.val.data)
                  else if IsVarintField(f, 3) then t.(statusCode := f.val.word) else t;
      StatusIsLast(fs[1..], next);
    }
  }

  /** `t` with every scalar field overwritten by its last occurrence in `fs`. */
  function Overwritten(fs: seq<Field>, t: SpanTree): SpanTree {
    var st := Merged(fs, 15);
    t.(traceId := LastBytes(fs, 1, t.traceId), spanId := LastBytes(fs, 2, t.spanId),
       parentId := LastBytes(fs, 4, t.parentId), name := LastBytes(fs, 5, t.name),
       kind := LastVarint(fs, 6, t.kind), startNs := LastFixed64(fs, 7, t.startNs),
       endNs := LastFixed64(fs, 8, t.endNs), statusMessage := LastBytes(st, 2, t.statusMessage),
       statusCode := LastVarint(st, 3, t.statusCode))
  }

  function TreeStep(f: Field, t: SpanTree): SpanTree {
    if IsBytes(f, 1) then t.(traceId := f.val.data)
    else if IsBytes(f, 2) then t.(spanId := f.val.data)
    else if IsBytes(f, 4) then t.(parentId := f.val.data)
    else if IsBytes(f, 5) then t.(name := f.val.data)
    else if IsVarintField(f, 6) then t.(kind := f.val.word)
    else if IsFixed64(f, 7) then t.(startNs := f.val.word)
    else if IsFixed64(f, 8) then t.(endNs := f.val.word)
    else if IsBytes(f, 15) then
      var st := Parse(f.val.data).fields;
      t.(statusMessage := LastBytes(st, 2, t.statusMessage), statusCode := LastVarint(st, 3, t.statusCode))
    else t
  }

  lemma StepsAgree(f: Field, t: SpanTree)
    ensures SpanStep(DraftOf(t), f) == DraftOf(TreeStep(f, t))
  {
    hide CopyStr, HexCut, KindName, StatusName, Parse;
    if IsBytes(f, 15) { StatusIsLast(Parse(f.val.data).fields, t); }
  }

  lemma OverwrittenStep(fs: seq<Field>, t: SpanTree)
    requires fs != []
    ensures Overwritten(fs, t) == Overwritten(fs[1..], TreeStep(fs[0], t))
  {
    hide Parse;
    var f, rest := fs[0], Merged(fs[1..], 15);
    if IsBytes(f, 15) {
      var st := Parse(f.val.data).fields;
      LastBytesAppend(st, rest, 2, t.statusMessage);
      LastVarintAppend(st, rest, 3, t.statusCode);
    } else {
      assert Merged(fs, 15) == rest;
    }
  }

  lemma {:induction false} SpanIsLast(fs: seq<Field>, t: SpanTree)
    ensures SpanFold(fs, DraftOf(t)) == DraftOf(Overwritten(fs, t))
  {
    if fs == [] {
      assert Overwritten(fs, t) == t;
    } else {
      hide DraftOf, Overwritten, TreeStep, SpanStep;
      StepsAgree(fs[0], t);
      OverwrittenStep(fs, t);
      SpanIsLast(fs[1..], TreeStep(fs[0], t));
    }
  }

  lemma NewDraftIsEmpty(t: SpanTree)
    requires t == SpanTree([], [], [], [], 0, 0, 0, [], 0, t.attrs)
    ensures DraftOf(t) == NEW_DRAFT
  {
  }

  /** A span message is emitted as the row of its tree. */
  lemma SpanEmitsRow(g: DoubleFormat, s: bytes, t: SpanTree, ctx: Context)
    requires SpanWire(s, t)
    ensures SpanOut(g, s, ctx) == Out([SpanRow(g, t, ctx)], true)
  {
    hide Parse, DraftOf, Merged, LastBytes, LastVarint, LastFixed64, KvListText, PrintEntries, AttrsWire, SpanFold, Row;
    var fs := Parse(s).fields;
    var zero := SpanTree([], [], [], [], 0, 0, 0, [], 0, t.attrs);
    NewDraftIsEmpty(zero);
    SpanIsLast(fs, zero);
    assert Overwritten(fs, zero) == t;
    EntriesPrint(g, fs, 9, t.attrs, true, 0);
  }

  // ------------------------ Scopes ------------------------

  lemma {:induction false} ScopeNameIsLast(fs: seq<Field>, name: string)
    ensures ScopeNameFold(fs, name)
            == match OptionalName(fs) case None => name case Some(b) => CopyStr(b, SCOPE_CAP)
  {
    hide CopyStr;
    if fs != [] {
      if IsBytes(fs[0], 1) {
        ScopeNameIsLast(fs[1..], CopyStr(fs[0].val.data, SCOPE_CAP));
        LastOfNone(fs[1..], 1, fs[0].val.data, []);
      } else {
        ScopeNameIsLast(fs[1..], name);
      }
    }
  }

  lemma {:induction false} ScopeNameAppend(a: seq<Field>, b: seq<Field>, name: string)
    ensures ScopeNameFold(a + b, name) == ScopeNameFold(b, ScopeNameFold(a, name))
  {
    hide CopyStr;
    if a == [] { assert a + b == b; } else {
      assert (a + b)[1..] == a[1..] + b;
      ScopeNameAppend(a[1..], b, if IsBytes(a[0], 1) then CopyStr(a[0].val.data, SCOPE_CAP) else name);
    }
  }

  function Named(fs: seq<Field>, ctx: Context): Context {
    ctx.(scope := ScopeNameFold(Merged(fs, 1), ctx.scope))
  }

  lemma {:induction false} NamedRowsIgnoreScope(g: DoubleFormat, ts: seq<SpanTree>, names: seq<string>, ctx: Context,
                                                scope: string)
    ensures NamedRows(g, ts, names, ctx.(scope := scope)) == NamedRows(g, ts, names, ctx)
  {
    hide SpanRow;
    if ts != [] && names != [] { NamedRowsIgnoreScope(g, ts[1..], names[1..], ctx, scope); }
  }

  lemma {:induction false} ScopeFieldsEmit(g: DoubleFormat, fs: seq<Field>, ending: Ending, ctx: Context,
                                           ts: seq<SpanTree>)
    requires !ending.AtBadPayload?
    requires |Subs(fs, 2)| == |ts| && forall i :: 0 <= i < |ts| ==> SpanWire(Subs(fs, 2)[i], ts[i])
    ensures ScopeFields(g, fs, ending, ctx)
            == ScopeOut(Out(NamedRows(g, ts, NamesInForce(fs, ctx.scope), ctx), true), Named(fs, ctx))
    decreases |fs|
  {
    hide Parse, SpanWire, SpanOut, SpanRow;
    if fs != [] {
      var f, more := fs[0], Subs(fs[1..], 2);
      if IsBytes(f, 1) {
        var st := Parse(f.val.data).fields;
        var name := ScopeNameFold(st, ctx.scope);
        ScopeNameAppend(st, Merged(fs[1..], 1), ctx.scope);
        NamedRowsIgnoreScope(g, ts, NamesInForce(fs[1..], name), ctx, name);
        ScopeFieldsEmit(g, fs[1..], ending, ctx.(scope := name), ts);
      } else if IsBytes(f, 2) {
        assert Merged(fs, 1) == Merged(fs[1..], 1);
        assert Subs(fs, 2)[0] == f.val.data && ctx.(scope := ctx.scope) == ctx;
        SpanEmitsRow(g, f.val.data, ts[0], ctx);
        assert forall i :: 0 <= i < |more| ==> more[i] == Subs(fs, 2)[i + 1] && ts[1..][i] == ts[i + 1];
        ScopeFieldsEmit(g, fs[1..], ending, ctx, ts[1..]);
      } else {
        assert Merged(fs, 1) == Merged(fs[1..], 1);
        ScopeFieldsEmit(g, fs[1..], ending, ctx, ts);
      }
    }
  }

  /** A scope's spans are emitted in order, each under the name in force where it stands. */
  lemma ScopeEmitsRows(g: DoubleFormat, s: bytes, t: ScopeTree, ctx: Context)
    requires ScopeWire(s, t)
    ensures ScopeWalk(g, s, ctx)
            == ScopeOut(Out(NamedRows(g, t.spans, NamesInForce(Parse(s).fields, ctx.scope), ctx), true), Enter(ctx, t))
  {
    hide Parse, SpanWire, ScopeFields, Merged, CopyStr, NamedRows, NamesInForce;
    var fs := Parse(s).fields;
    ScopeFieldsEmit(g, fs, Parse(s).ending, ctx, t.spans);
    ScopeNameIsLast(Merged(fs, 1), ctx.scope);
  }

  lemma {:induction false} DrainEmits(g: DoubleFormat, pending: seq<bytes>, ts: seq<ScopeTree>, ctx: Context)
    requires ScopesWire(pending, ts)
    ensures Drain(g, pending, ctx) == Out(WireRows(g, pending, ts, ctx), true)
    decreases |ts|
  {
    hide ScopeWire, ScopeWalk, NamedRows, NamesInForce, Parse;
    if pending != [] {
      ScopeEmitsRows(g, pending[0], ts[0], ctx);
      DrainEmits(g, pending[1..], ts[1..], Enter(ctx, ts[0]));
    }
  }

  // ------------------------ Names in time ------------------------

  lemma MergedStep(fs: seq<Field>, num: nat, i: nat)
    requires 0 < i <= |fs|
    ensures Merged(fs[..i], num)
            == (if IsBytes(fs[0], num) then Parse(fs[0].val.data).fields else []) + Merged(fs[1..][..i - 1], num)
  {
    hide Parse;
    assert fs[..i][1..] == fs[1..][..i - 1];
  }

  /** The names in force are those that the scope fields in front of each span leave behind. */
  predicate LeftBehind(fs: seq<Field>, name: string, final: string) {
    forall i :: 0 <= i < |fs| && IsBytes(fs[i], 2) ==> ScopeNameFold(Merged(fs[..i], 1), name) == final
  }

  predicate AllAre(names: seq<string>, name: string) {
    forall k :: 0 <= k < |names| ==> names[k] == name
  }

  lemma {:induction false} NamesAreLeftBehind(fs: seq<Field>, name: string, final: string)
    ensures AllAre(NamesInForce(fs, name), final) <==> LeftBehind(fs, name, final)
  {
    hide Parse, ScopeNameFold;
    if fs != [] {
      var f := fs[0];
      var next := if IsBytes(f, 1) then ScopeNameFold(Parse(f.val.data).fields, name) else name;
      NamesAreLeftBehind(fs[1..], next, final);
      forall i | 0 < i < |fs|
        ensures ScopeNameFold(Merged(fs[..i], 1), name) == ScopeNameFold(Merged(fs[1..][..i - 1], 1), next)
      {
        NameAtStep(fs, name, i);
      }
      LeftBehindStep(fs, name, next, final);
      AllAreStep(fs, name, next, final);
    }
  }

  lemma NameAtStep(fs: seq<Field>, name: string, i: nat)
    requires 0 < i <= |fs|
    ensures var next := if IsBytes(fs[0], 1) then ScopeNameFold(Parse(fs[0].val.data).fields, name) else name;
            ScopeNameFold(Merged(fs[..i], 1), name) == ScopeNameFold(Merged(fs[1..][..i - 1], 1), next)
  {
    hide Parse, Merged, ScopeNameFold;
    MergedStep(fs, 1, i);
    var rest := Merged(fs[1..][..i - 1], 1);
    if IsBytes(fs[0], 1) { ScopeNameAppend(Parse(fs[0].val.data).fields, rest, name); }
    else { assert [] + rest == rest; }
  }

  lemma LeftBehindStep(fs: seq<Field>, name: string, next: string, final: string)
    requires fs != []
    requires forall i :: 0 < i < |fs| ==>
               ScopeNameFold(Merged(fs[..i], 1), name) == ScopeNameFold(Merged(fs[1..][..i - 1], 1), next)
    ensures LeftBehind(fs, name, final) <==> (IsBytes(fs[0], 2) ==> name == final) && LeftBehind(fs[1..], next, final)
  {
    assert fs[..0] == [] && ScopeNameFold(Merged([], 1), name) == name;
    hide ScopeNameFold, Merged;
    if LeftBehind(fs, name, final) {
      forall i | 0 <= i < |fs[1..]| && IsBytes(fs[1..][i], 2)
        ensures ScopeNameFold(Merged(fs[1..][..i], 1), next) == final
      {
        assert fs[i + 1] == fs[1..][i];
        assert ScopeNameFold(Merged(fs[..i + 1], 1), name) == final;
      }
    }
    if (IsBytes(fs[0], 2) ==> name == final) && LeftBehind(fs[1..], next, final) {
      forall i | 0 <= i < |fs| && IsBytes(fs[i], 2) ensures ScopeNameFold(Merged(fs[..i], 1), name) == final {
        if i > 0 { assert fs[1..][i - 1] == fs[i]; }
      }
    }
  }

  lemma AllAreStep(fs: seq<Field>, name: string, next: string, final: string)
    requires fs != []
    requires next == if IsBytes(fs[0], 1) then ScopeNameFold(Parse(fs[0].val.data).fields, name) else name
    ensures AllAre(NamesInForce(fs, name), final)
            <==> (IsBytes(fs[0], 2) ==> name == final) && AllAre(NamesInForce(fs[1..], next), final)
  {
    hide Parse, ScopeNameFold;
    AllAreCons(name, NamesInForce(fs[1..], next), final);
    hide AllAre;
  }

  lemma AllAreCons(name: string, more: seq<string>, final: string)
    ensures AllAre([name] + more, final) <==> name == final && AllAre(more, final)
  {
    var all := [name] + more;
    assert all[0] == name && forall k :: 0 <= k < |more| ==> more[k] == all[k + 1];
  }

  lemma {:induction false} SameNames(g: DoubleFormat, ts: seq<SpanTree>, names: seq<string>, ctx: Context)
    requires |ts| == |names|
    ensures NamedRows(g, ts, names, ctx) == SpanRows(g, ts, ctx) <==> AllAre(names, ctx.scope)
  {
    hide SpanRow, AllAre;
    if ts == [] {
      NoneAre(ctx.scope);
    } else {
      SameNames(g, ts[1..], names[1..], ctx);
      SameNamesStep(g, ts, names, ctx);
      hide NamedRows, SpanRows;
      AllAreCons(names[0], names[1..], ctx.scope);
      assert names == [names[0]] + names[1..];
    }
  }

  lemma NoneAre(name: string)
    ensures AllAre([], name)
  {
  }

  lemma SameNamesStep(g: DoubleFormat, ts: seq<SpanTree>, names: seq<string>, ctx: Context)
    requires |ts| == |names| && ts != []
    ensures NamedRows(g, ts, names, ctx) == SpanRows(g, ts, ctx)
            <==> names[0] == ctx.scope && NamedRows(g, ts[1..], names[1..], ctx) == SpanRows(g, ts[1..], ctx)
  {
    hide SpanRow;
    SameName(g, ts[0], names[0], ctx);
    SplitEqual([SpanRow(g, ts[0], ctx.(scope := names[0]))], NamedRows(g, ts[1..], names[1..], ctx),
               [SpanRow(g, ts[0], ctx)], SpanRows(g, ts[1..], ctx));
  }

  lemma SameName(g: DoubleFormat, t: SpanTree, name: string, ctx: Context)
    ensures SpanRow(g, t, ctx.(scope := name)) == SpanRow(g, t, ctx) <==> name == ctx.scope
  {
    hide DraftOf, PrintEntries;
    assert SpanRow(g, t, ctx.(scope := name)).scope == name && SpanRow(g, t, ctx).scope == ctx.scope;
    assert ctx.(scope := ctx.scope) == ctx;
  }

  /** All spans of a scope carry its own final name if and only if none of them stands before a
      scope field that changes the name. */
  lemma ScopeIsNamedIff(g: DoubleFormat, s: bytes, t: ScopeTree, ctx: Context)
    requires ScopeWire(s, t)
    ensures ScopeWalk(g, s, ctx).out.rows == SpanRows(g, t.spans, Enter(ctx, t))
            <==> NamedInTime(Parse(s).fields, ctx.scope)
  {
    hide Parse, ScopeWalk, SpanRows, NamedRows, NamesInForce, Merged, CopyStr;
    ScopeEmitsRows(g, s, t, ctx);
    ScopeRowsIff(g, s, t, ctx);
  }

  lemma ScopeRowsIff(g: DoubleFormat, s: bytes, t: ScopeTree, ctx: Context)
    requires ScopeWire(s, t)
    ensures |NamedRows(g, t.spans, NamesInForce(Parse(s).fields, ctx.scope), ctx)| == |SpanRows(g, t.spans, ctx)|
    ensures NamedRows(g, t.spans, NamesInForce(Parse(s).fields, ctx.scope), ctx) == SpanRows(g, t.spans, Enter(ctx, t))
            <==> NamedInTime(Parse(s).fields, ctx.scope)
  {
    hide Parse, SpanRows, NamedRows, NamesInForce, Merged, CopyStr, SpanWire, ScopeNameFold;
    var fs := Parse(s).fields;
    var names, inner := NamesInForce(fs, ctx.scope), Enter(ctx, t);
    ScopeNameIsLast(Merged(fs, 1), ctx.scope);
    NamesAreLeftBehind(fs, ctx.scope, inner.scope);
    NamedRowsIgnoreScope(g, t.spans, names, ctx, inner.scope);
    SameNames(g, t.spans, names, inner);
  }

  lemma {:induction false} WireRowsIff(g: DoubleFormat, items: seq<bytes>, ts: seq<ScopeTree>, ctx: Context)
    requires ScopesWire(items, ts)
    ensures |WireRows(g, items, ts, ctx)| == |ScopeRows(g, ts, ctx)|
    ensures WireRows(g, items, ts, ctx) == ScopeRows(g, ts, ctx) <==> ScopesInTime(items, ts, ctx.scope)
    decreases |ts|
  {
    hide Parse, SpanRows, NamedRows, NamesInForce, NamedInTime, ScopeWire, EnterName;
    if ts != [] {
      var inner := Enter(ctx, ts[0]);
      ScopeRowsIff(g, items[0], ts[0], ctx);
      WireRowsIff(g, items[1..], ts[1..], inner);
      SplitEqual(NamedRows(g, ts[0].spans, NamesInForce(Parse(items[0]).fields, ctx.scope), ctx),
                 WireRows(g, items[1..], ts[1..], inner),
                 SpanRows(g, ts[0].spans, inner), ScopeRows(g, ts[1..], inner));
    }
  }

  /** Scope descriptions in front of the spans are always in time. */
  predicate ScopeFirst(fs: seq<Field>) {
    fs == [] || ((IsBytes(fs[0], 2) ==> Subs(fs[1..], 1) == []) && ScopeFirst(fs[1..]))
  }

  lemma {:induction false} NothingMerged(fs: seq<Field>, num: nat)
    requires Subs(fs, num) == []
    ensures Merged(fs, num) == []
  {
    if fs != [] { NothingMerged(fs[1..], num); }
  }

  lemma {:induction false} ScopeFirstIsInTime(fs: seq<Field>, name: string)
    requires ScopeFirst(fs)
    ensures NamedInTime(fs, name)
  {
    ScopeFirstLeaves(fs, name);
    hide ScopeNameFold, Merged;
  }

  lemma {:induction false} ScopeFirstLeaves(fs: seq<Field>, name: string)
    requires ScopeFirst(fs)
    ensures LeftBehind(fs, name, ScopeNameFold(Merged(fs, 1), name))
  {
    hide Parse, ScopeNameFold;
    if fs != [] {
      var next := if IsBytes(fs[0], 1) then ScopeNameFold(Parse(fs[0].val.data).fields, name) else name;
      ScopeFirstLeaves(fs[1..], next);
      forall i | 0 < i <= |fs|
        ensures ScopeNameFold(Merged(fs[..i], 1), name) == ScopeNameFold(Merged(fs[1..][..i - 1], 1), next)
      {
        NameAtStep(fs, name, i);
      }
      assert fs[..|fs|] == fs && fs[1..][..|fs| - 1] == fs[1..];
      LeftBehindStep(fs, name, next, ScopeNameFold(Merged(fs, 1), name));
      if IsBytes(fs[0], 2) {
        NothingMerged(fs[1..], 1);
        NoFieldsKeepName(name);
      }
    }
  }

  predicate AllScopeFirst(items: seq<bytes>) {
    forall i :: 0 <= i < |items| ==> ScopeFirst(Parse(items[i]).fields)
  }

  lemma {:induction false} AllScopeFirstIsInTime(items: seq<bytes>, ts: seq<ScopeTree>, name: string)
    requires AllScopeFirst(items)
    ensures ScopesInTime(items, ts, name)
  {
    hide Parse, ScopeFirst, EnterName, NamedInTime;
    if items != [] && ts != [] {
      ScopeFirstIsInTime(Parse(items[0]).fields, name);
      AllScopeFirstIsInTime(items[1..], ts[1..], EnterName(name, ts[0]));
    }
  }

  lemma NoFieldsKeepName(name: string)
    ensures ScopeNameFold([], name) == name
  {
  }

  // ------------------------ Resources ------------------------

  lemma {:induction false} FirstStringIsValue(fs: seq<Field>)
    ensures FirstString(fs) == FirstString(Values(fs))
  {
    if fs != [] {
      FirstStringIsValue(fs[1..]);
      if IsValue(fs[0]) { assert Values(fs)[1..] == Values(fs[1..]); }
    }
  }

  lemma StringOfAny(s: bytes, v: Any)
    requires AnyWire(s, v)
    ensures FirstString(Parse(s).fields) == if v.Str? then Some(v.text) else None
  {
    hide Parse;
    var vs := Values(Parse(s).fields);
    FirstStringIsValue(Parse(s).fields);
    if !v.Empty? { assert FirstString(vs[1..]) == None; }
  }

  lemma AttributeStep(f: Field, a: Attr, ctx: Context)
    requires IsBytes(f, 1) && AttrWire(f.val.data, a)
    ensures ResourceStep(ctx, f) == AttrStep(ctx, a)
  {
    hide Parse, KvOf, AttrWire, AnyWire, CopyStr, KeyCut;
    KvOfAttr(f.val.data, a);
    var kv := KvOf(f.val.data);
    if kv.value.Some? { StringOfAny(kv.value.value, a.val); }
  }

  lemma {:induction false} ResourceIsTree(fs: seq<Field>, attrs: seq<Attr>, ctx: Context)
    requires AttrsWire(Subs(fs, 1), attrs)
    ensures ResourceFold(fs, ctx) == TreeContext(attrs, ctx)
    decreases |fs|
  {
    hide AttrWire, AttrStep, ResourceStep;
    if fs != [] {
      var more := Subs(fs[1..], 1);
      if IsBytes(fs[0], 1) {
        assert Subs(fs, 1)[0] == fs[0].val.data;
        AttributeStep(fs[0], attrs[0], ctx);
        assert forall i :: 0 <= i < |more| ==> more[i] == Subs(fs, 1)[i + 1] && attrs[1..][i] == attrs[i + 1];
        ResourceIsTree(fs[1..], attrs[1..], AttrStep(ctx, attrs[0]));
      } else {
        OtherFieldKeepsContext(ctx, fs[0]);
        ResourceIsTree(fs[1..], attrs, ctx);
      }
    }
  }

  lemma {:induction false} ResourceFoldAppend(a: seq<Field>, b: seq<Field>, ctx: Context)
    ensures ResourceFold(a + b, ctx) == ResourceFold(b, ResourceFold(a, ctx))
  {
    hide ResourceStep;
    if a == [] { assert a + b == b; } else {
      assert (a + b)[1..] == a[1..] + b;
      ResourceFoldAppend(a[1..], b, ResourceStep(ctx, a[0]));
    }
  }

  /** While the scopes fit the buffer, they are all walked with the complete resource context,
      wherever the resource stands. */
  lemma {:induction false} BufferedScopes(g: DoubleFormat, fs: seq<Field>, ending: Ending, ctx: Context,
                                          pending: seq<bytes>)
    requires !ending.AtBadPayload? && |pending| + |Subs(fs, 2)| <= 64
    ensures ResourceFields(g, fs, ending, ctx, pending)
            == Drain(g, pending + Subs(fs, 2), ResourceFold(Merged(fs, 1), ctx))
    decreases |fs|
  {
    hide Parse, Drain, ResourceStep;
    if fs == [] {
      assert pending + [] == pending;
    } else if IsBytes(fs[0], 1) {
      var res := Parse(fs[0].val.data).fields;
      ResourceFoldAppend(res, Merged(fs[1..], 1), ctx);
      BufferedScopes(g, fs[1..], ending, ResourceFold(res, ctx), pending);
    } else {
      assert Merged(fs, 1) == Merged(fs[1..], 1);
      if IsBytes(fs[0], 2) {
        assert pending + Subs(fs, 2) == pending + [fs[0].val.data] + Subs(fs[1..], 2);
        BufferedScopes(g, fs[1..], ending, ctx, pending + [fs[0].val.data]);
      } else {
        BufferedScopes(g, fs[1..], ending, ctx, pending);
      }
    }
  }

  lemma ResourceEmitsRows(g: DoubleFormat, s: bytes, t: ResourceTree)
    requires ResourceWire(s, t) && |t.scopes| <= 64
    ensures ResourceWalk(g, s)
            == Out(WireRows(g, Subs(Parse(s).fields, 2), t.scopes, TreeContext(t.attrs, NEW_CONTEXT)), true)
  {
    hide Parse, ResourceFields, Merged, ScopesWire, AttrsWire, Drain;
    var fs := Parse(s).fields;
    assert |Subs(fs, 2)| <= 64 by { SameLength(Subs(fs, 2), t.scopes); }
    BufferedScopes(g, fs, Parse(s).ending, NEW_CONTEXT, []);
    assert [] + Subs(fs, 2) == Subs(fs, 2);
    ResourceIsTree(Merged(fs, 1), t.attrs, NEW_CONTEXT);
    DrainEmits(g, Subs(fs, 2), t.scopes, TreeContext(t.attrs, NEW_CONTEXT));
  }

  lemma SameLength(items: seq<bytes>, ts: seq<ScopeTree>)
    requires ScopesWire(items, ts)
    ensures |items| == |ts|
  {
  }

  // ------------------------ Requests ------------------------

  predicate FitsBuffers(req: RequestTree) {
    forall i :: 0 <= i < |req| ==> |req[i].scopes| <= 64
  }

  lemma {:induction false} RequestFieldsEmit(g: DoubleFormat, fs: seq<Field>, ending: Ending, req: RequestTree)
    requires !ending.AtBadPayload? && FitsBuffers(req) && ResourcesWire(Subs(fs, 1), req)
    ensures RequestFields(g, fs, ending) == Out(WireFlatten(g, Subs(fs, 1), req), true)
    decreases |fs|
  {
    hide ResourceWire, ResourceWalk, WireRows, TreeContext, Parse;
    if fs != [] {
      var all, more := Subs(fs, 1), Subs(fs[1..], 1);
      if IsBytes(fs[0], 1) {
        assert all[0] == fs[0].val.data && all[1..] == more;
        ResourceEmitsRows(g, fs[0].val.data, req[0]);
        assert forall i :: 0 <= i < |more| ==> more[i] == all[i + 1] && req[1..][i] == req[i + 1];
        RequestFieldsEmit(g, fs[1..], ending, req[1..]);
      } else {
        RequestFieldsEmit(g, fs[1..], ending, req);
      }
    }
  }

  lemma {:induction false} AttrsKeepScope(attrs: seq<Attr>, ctx: Context)
    ensures TreeContext(attrs, ctx).scope == ctx.scope
  {
    hide CopyStr, KeyCut;
    if attrs != [] { AttrsKeepScope(attrs[1..], AttrStep(ctx, attrs[0])); }
  }

  lemma ResourceRowsIff(g: DoubleFormat, item: bytes, t: ResourceTree)
    requires ResourceWire(item, t)
    ensures var items, ctx := Subs(Parse(item).fields, 2), TreeContext(t.attrs, NEW_CONTEXT);
            && |WireRows(g, items, t.scopes, ctx)| == |ScopeRows(g, t.scopes, ctx)|
            && (WireRows(g, items, t.scopes, ctx) == ScopeRows(g, t.scopes, ctx)
                <==> ScopesInTime(items, t.scopes, NEW_CONTEXT.scope))
  {
    hide Parse, WireRows, ScopeRows, ScopesInTime, ScopesWire, AttrsWire, Merged;
    AttrsKeepScope(t.attrs, NEW_CONTEXT);
    WireRowsIff(g, Subs(Parse(item).fields, 2), t.scopes, TreeContext(t.attrs, NEW_CONTEXT));
  }

  lemma {:induction false} WireFlattenIff(g: DoubleFormat, items: seq<bytes>, req: RequestTree)
    requires ResourcesWire(items, req)
    ensures |WireFlatten(g, items, req)| == |Flatten(g, req)|
    ensures WireFlatten(g, items, req) == Flatten(g, req) <==> RequestInTime(items, req)
    decreases |req|
  {
    hide Parse, WireRows, ScopeRows, ScopesInTime, ResourceWire, TreeContext;
    if req != [] {
      ResourceRowsIff(g, items[0], req[0]);
      WireFlattenIff(g, items[1..], req[1..]);
      var ctx := TreeContext(req[0].attrs, NEW_CONTEXT);
      SplitEqual(WireRows(g, Subs(Parse(items[0]).fields, 2), req[0].scopes, ctx), WireFlatten(g, items[1..], req[1..]),
                 ScopeRows(g, req[0].scopes, ctx), Flatten(g, req[1..]));
    }
  }

  /** Every wire form decodes to the spans in order, each under the scope name in force where it
      stands. That inverts the encoding if and only if no span precedes a scope field that
      changes the name. */
  lemma DecodingInvertsEncoding(g: DoubleFormat, s: bytes, req: RequestTree)
    requires RequestWire(s, req) && FitsBuffers(req)
    ensures var items := Subs(Parse(s).fields, 1);
            && RequestWalk(g, s) == Out(WireFlatten(g, items, req), true)
            && (RequestWalk(g, s).rows == Flatten(g, req) <==> RequestInTime(items, req))
  {
    hide Parse, RequestFields, ResourcesWire, Flatten, WireFlatten, RequestInTime;
    RequestFieldsEmit(g, Parse(s).fields, Parse(s).ending, req);
    WireFlattenIff(g, Subs(Parse(s).fields, 1), req);
  }

  lemma RequestItems(s: bytes, req: RequestTree)
    requires RequestWire(s, req)
    ensures ResourcesWire(Subs(Parse(s).fields, 1), req)
  {
  }

  /** A sink that takes everything ends up with all spans, and all of them are counted. */
  lemma AcceptingSinkGetsEverySpan(g: DoubleFormat, s: bytes, req: RequestTree, verdict: seq<Span> -> int,
                                   hist: seq<Span>, rc: int, after: seq<Span>, count: int)
    requires RequestWire(s, req) && FitsBuffers(req) && forall calls :: verdict(calls) == 0
    requires Delivered(verdict, hist, RequestWalk(g, s), rc, after, count)
    ensures var items := Subs(Parse(s).fields, 1);
            && rc == 0 && after == hist + WireFlatten(g, items, req) && count == |Flatten(g, req)|
            && (after == hist + Flatten(g, req) <==> RequestInTime(items, req))
  {
    hide RequestWire, Flatten, RequestWalk, Accepted, WireFlatten, RequestInTime, Parse;
    WireFlattenIff(g, Subs(Parse(s).fields, 1), req) by { RequestItems(s, req); }
    SplitEqual(hist, WireFlatten(g, Subs(Parse(s).fields, 1), req), hist, Flatten(g, req));
    DecodingInvertsEncoding(g, s, req);
    var rows := RequestWalk(g, s).rows;
    if Accepted(verdict, hist, rows) < |rows| { RefusedAt(verdict, hist, rows); }
  }
}
