/** Which scope name each span is stored under, for every wire form and any number of scopes. */
module ScopeNames {
  import opened Bytes
  import opened Wire
  import opened Attributes
  import opened AttributeTree
  import opened Delivery
  import opened Trace
  import opened TraceTree
  import opened TraceLimits

  // ------------------------ The names of the rows ------------------------

  function Scopes(rows: seq<Span>): seq<string> {
    seq(|rows|, i requires 0 <= i < |rows| => rows[i].scope)
  }

  /** The names in force at the spans of the walked scopes; each scope starts with the name that
      the one walked before it leaves. */
  function WalkedNames(items: seq<bytes>, ts: seq<ScopeTree>, name: string): seq<string> {
    if items == [] || ts == [] then []
    else NamesInForce(Parse(items[0]).fields, name) + WalkedNames(items[1..], ts[1..], EnterName(name, ts[0]))
  }

  /** The name left behind by scopes walked one after the other. */
  function NameAfter(ts: seq<ScopeTree>, name: string): string {
    if ts == [] then name else NameAfter(ts[1..], EnterName(name, ts[0]))
  }

  /** The order in which scopes are walked: those past the buffer first. */
  function LateFirst<T>(xs: seq<T>): seq<T> {
    xs[Buffered(|xs|, 0)..] + xs[..Buffered(|xs|, 0)]
  }

  lemma ScopesConcat(a: seq<Span>, b: seq<Span>)
    ensures Scopes(a + b) == Scopes(a) + Scopes(b)
  {
  }

  lemma NoScopes()
    ensures Scopes([]) == []
  {
  }

  lemma {:induction false} NamedRowsScopes(g: DoubleFormat, ts: seq<SpanTree>, names: seq<string>, ctx: Context)
    requires |ts| == |names|
    ensures Scopes(NamedRows(g, ts, names, ctx)) == names
  {
    if ts != [] {
      var row := SpanRow(g, ts[0], ctx.(scope := names[0]));
      RowScope(g, ts[0], ctx.(scope := names[0]));
      hide SpanRow;
      NamedRowsScopes(g, ts[1..], names[1..], ctx);
      ScopesConcat([row], NamedRows(g, ts[1..], names[1..], ctx));
      assert Scopes([row]) == [names[0]];
    }
  }

  lemma RowScope(g: DoubleFormat, t: SpanTree, ctx: Context)
    ensures SpanRow(g, t, ctx).scope == ctx.scope
  {
    hide DraftOf, PrintEntries;
  }

  lemma ScopeNowScopes(g: DoubleFormat, item: bytes, t: ScopeTree, ctx: Context)
    requires ScopeWire(item, t)
    ensures Scopes(ScopeNow(g, item, t, ctx)) == NamesInForce(Parse(item).fields, ctx.scope)
  {
    hide Parse, NamedRows, NamesInForce, SpanWire, Merged, Scopes;
    NamedRowsScopes(g, t.spans, NamesInForce(Parse(item).fields, ctx.scope), ctx);
  }

  lemma {:induction false} WireRowsScopes(g: DoubleFormat, items: seq<bytes>, ts: seq<ScopeTree>, ctx: Context)
    requires ScopesWire(items, ts)
    ensures Scopes(WireRows(g, items, ts, ctx)) == WalkedNames(items, ts, ctx.scope)
    decreases |ts|
  {
    hide Parse, NamedRows, NamesInForce, ScopeWire, EnterName, Scopes;
    if ts == [] {
      NoScopes();
    } else {
      ScopeNowScopes(g, items[0], ts[0], ctx);
      WireRowsScopes(g, items[1..], ts[1..], Enter(ctx, ts[0]));
      ScopesConcat(ScopeNow(g, items[0], ts[0], ctx), WireRows(g, items[1..], ts[1..], Enter(ctx, ts[0])));
    }
  }

  lemma {:induction false} FoldKeepsScope(fs: seq<Field>, ctx: Context)
    ensures ResourceFold(fs, ctx).scope == ctx.scope
  {
    FoldIgnoresScope(fs, ctx, ctx.scope);
    assert ctx.(scope := ctx.scope) == ctx;
  }

  lemma {:induction false} PastBufferScopes(g: DoubleFormat, fs: seq<Field>, held: nat, ts: seq<ScopeTree>,
                                            ctx: Context)
    requires ScopesWire(Subs(fs, 2), ts)
    ensures var early, m := PastBuffer(g, fs, held, ts, ctx), Buffered(|ts|, held);
            && |Subs(fs, 2)| == |ts|
            && Scopes(early.rows) == WalkedNames(Subs(fs, 2)[m..], ts[m..], ctx.scope)
            && early.ctx.scope == NameAfter(ts[m..], ctx.scope)
    decreases |fs|
  {
    hide Parse, NamesInForce, ScopeNow, ScopeWire, EnterName, ResourceFold, Scopes;
    if fs == [] {
      NoScopes();
    } else if IsBytes(fs[0], 1) {
      FoldKeepsScope(Parse(fs[0].val.data).fields, ctx);
      PastBufferScopes(g, fs[1..], held, ts, ResourceFold(Parse(fs[0].val.data).fields, ctx));
    } else if !IsBytes(fs[0], 2) {
      PastBufferScopes(g, fs[1..], held, ts, ctx);
    } else {
      SubsTail(fs, ts);
      var data, more := fs[0].val.data, Subs(fs[1..], 2);
      if held < 64 {
        var m := Buffered(|ts|, held);
        PastBufferScopes(g, fs[1..], held + 1, ts[1..], ctx);
        assert more[m - 1..] == Subs(fs, 2)[m..] && ts[1..][m - 1..] == ts[m..];
      } else {
        var inner := Enter(ctx, ts[0]);
        PastBufferScopes(g, fs[1..], held + 1, ts[1..], inner);
        ScopeNowScopes(g, data, ts[0], ctx);
        ScopesConcat(ScopeNow(g, data, ts[0], ctx), PastBuffer(g, fs[1..], held + 1, ts[1..], inner).rows);
        assert more[0..] == more && ts[1..][0..] == ts[1..] && Subs(fs, 2)[0..] == Subs(fs, 2) && ts[0..] == ts;
      }
    }
  }

  lemma {:induction false} WalkedConcat(a: seq<bytes>, b: seq<bytes>, s: seq<ScopeTree>, t: seq<ScopeTree>,
                                        name: string)
    requires |a| == |s|
    ensures WalkedNames(a + b, s + t, name) == WalkedNames(a, s, name) + WalkedNames(b, t, NameAfter(s, name))
    decreases |a|
  {
    hide Parse, NamesInForce, EnterName;
    if a == [] {
      assert a + b == b && s + t == t;
    } else {
      assert (a + b)[1..] == a[1..] + b && (s + t)[1..] == s[1..] + t;
      var next := EnterName(name, s[0]);
      WalkedConcat(a[1..], b, s[1..], t, next);
      Associates(NamesInForce(Parse(a[0]).fields, name), WalkedNames(a[1..], s[1..], next),
                 WalkedNames(b, t, NameAfter(s, name)));
    }
  }

  /** The scope name of every row of a resource. */
  lemma ResourceNames(g: DoubleFormat, s: bytes, t: ResourceTree)
    requires ResourceWire(s, t)
    ensures var items := Subs(Parse(s).fields, 2);
            && |items| == |t.scopes|
            && Scopes(ResourceWalk(g, s).rows)
               == WalkedNames(LateFirst(items), LateFirst(t.scopes), NEW_CONTEXT.scope)
  {
    hide Parse, PastBuffer, WireRows, ScopeWire, AttrsWire, ResourceWalk, Merged, Scopes, WalkedNames, NameAfter;
    var fs, m := Parse(s).fields, Buffered(|t.scopes|, 0);
    var items := Subs(fs, 2);
    ResourceEmitsExactly(g, s, t);
    PastBufferScopes(g, fs, 0, t.scopes, NEW_CONTEXT);
    var early := PastBuffer(g, fs, 0, t.scopes, NEW_CONTEXT);
    WireRowsScopes(g, items[..m], t.scopes[..m], early.ctx);
    ScopesConcat(early.rows, WireRows(g, items[..m], t.scopes[..m], early.ctx));
    WalkedConcat(items[m..], items[..m], t.scopes[m..], t.scopes[..m], NEW_CONTEXT.scope);
  }

  // ------------------------ Own names ------------------------

  /** The name a scope gives itself, if any. */
  function OwnName(t: ScopeTree): string {
    EnterName("", t)
  }

  function Copies(name: string, n: nat): (names: seq<string>)
    ensures |names| == n && AllAre(names, name)
  {
    Repeat(name, n)
  }

  function OwnNames(ts: seq<ScopeTree>): seq<string> {
    if ts == [] then [] else Copies(OwnName(ts[0]), |ts[0].spans|) + OwnNames(ts[1..])
  }

  /** At every span of the walked scopes, what has been walked before it leaves its own scope's
      name in force. */
  predicate WalkedUnderOwn(items: seq<bytes>, ts: seq<ScopeTree>, name: string) {
    items == [] || ts == [] ||
    (&& LeftBehind(Parse(items[0]).fields, name, OwnName(ts[0]))
     && WalkedUnderOwn(items[1..], ts[1..], EnterName(name, ts[0])))
  }

  lemma CopiesIff(names: seq<string>, name: string)
    ensures names == Copies(name, |names|) <==> AllAre(names, name)
  {
  }

  lemma SpansAreNamed(item: bytes, t: ScopeTree, name: string)
    requires ScopeWire(item, t)
    ensures |NamesInForce(Parse(item).fields, name)| == |t.spans|
  {
    hide Parse, SpanWire, Merged;
  }

  lemma {:induction false} OwnNamesIff(items: seq<bytes>, ts: seq<ScopeTree>, name: string)
    requires ScopesWire(items, ts)
    ensures |WalkedNames(items, ts, name)| == |OwnNames(ts)|
    ensures WalkedNames(items, ts, name) == OwnNames(ts) <==> WalkedUnderOwn(items, ts, name)
    decreases |ts|
  {
    hide Parse, NamesInForce, EnterName, OwnName, LeftBehind, AllAre, ScopeWire;
    if ts != [] {
      var fs, next := Parse(items[0]).fields, EnterName(name, ts[0]);
      OwnNamesIff(items[1..], ts[1..], next);
      SpansAreNamed(items[0], ts[0], name);
      CopiesIff(NamesInForce(fs, name), OwnName(ts[0]));
      NamesAreLeftBehind(fs, name, OwnName(ts[0]));
      SplitEqual(NamesInForce(fs, name), WalkedNames(items[1..], ts[1..], next),
                 Copies(OwnName(ts[0]), |ts[0].spans|), OwnNames(ts[1..]));
    }
  }

  lemma {:induction false} LateFirstWires(items: seq<bytes>, ts: seq<ScopeTree>)
    requires ScopesWire(items, ts)
    ensures ScopesWire(LateFirst(items), LateFirst(ts))
  {
    hide ScopeWire;
  }

  /** Every row of a resource carries the name of its own scope if and only if, in the order in
      which its scopes are walked, that name is in force at each span. */
  lemma ScopeNamesAreOwnIff(g: DoubleFormat, s: bytes, t: ResourceTree)
    requires ResourceWire(s, t)
    ensures var items := Subs(Parse(s).fields, 2);
            Scopes(ResourceWalk(g, s).rows) == OwnNames(LateFirst(t.scopes))
            <==> WalkedUnderOwn(LateFirst(items), LateFirst(t.scopes), NEW_CONTEXT.scope)
  {
    hide Parse, ResourceWalk, Scopes, WalkedNames, OwnNames, WalkedUnderOwn, LateFirst, ScopesWire, AttrsWire, Merged;
    ResourceNames(g, s, t);
    LateFirstWires(Subs(Parse(s).fields, 2), t.scopes);
    OwnNamesIff(LateFirst(Subs(Parse(s).fields, 2)), LateFirst(t.scopes), NEW_CONTEXT.scope);
  }

  // ------------------------ Requests ------------------------

  function RequestNames(items: seq<bytes>, req: RequestTree): seq<string> {
    if items == [] || req == [] then []
    else WalkedNames(LateFirst(Subs(Parse(items[0]).fields, 2)), LateFirst(req[0].scopes), NEW_CONTEXT.scope)
         + RequestNames(items[1..], req[1..])
  }

  function RequestOwnNames(req: RequestTree): seq<string> {
    if req == [] then [] else OwnNames(LateFirst(req[0].scopes)) + RequestOwnNames(req[1..])
  }

  predicate RequestUnderOwn(items: seq<bytes>, req: RequestTree) {
    items == [] || req == [] ||
    (&& WalkedUnderOwn(LateFirst(Subs(Parse(items[0]).fields, 2)), LateFirst(req[0].scopes), NEW_CONTEXT.scope)
     && RequestUnderOwn(items[1..], req[1..]))
  }

  lemma {:induction false} RequestFieldsNames(g: DoubleFormat, fs: seq<Field>, ending: Ending, req: RequestTree)
    requires !ending.AtBadPayload? && ResourcesWire(Subs(fs, 1), req)
    ensures Scopes(RequestFields(g, fs, ending).rows) == RequestNames(Subs(fs, 1), req)
    decreases |fs|
  {
    hide ResourceWire, ResourceWalk, Scopes, Parse, WalkedNames, LateFirst;
    if fs == [] {
      NoScopes();
    } else if IsBytes(fs[0], 1) {
      var all, more := Subs(fs, 1), Subs(fs[1..], 1);
      assert all[0] == fs[0].val.data && all[1..] == more;
      assert forall i :: 0 <= i < |more| ==> more[i] == all[i + 1] && req[1..][i] == req[i + 1];
      ResourceIsWalked(g, all[0], req[0]);
      ResourceNames(g, all[0], req[0]);
      RequestFieldsNames(g, fs[1..], ending, req[1..]);
      ScopesConcat(ResourceWalk(g, all[0]).rows, RequestFields(g, fs[1..], ending).rows);
    } else {
      RequestFieldsNames(g, fs[1..], ending, req);
    }
  }

  lemma ResourceIsWalked(g: DoubleFormat, s: bytes, t: ResourceTree)
    requires ResourceWire(s, t)
    ensures ResourceWalk(g, s).ok
  {
    hide ResourceWire, ResourceWalk, BareRows, Strips;
    EverySpanOnce(g, s, t);
  }

  lemma ResourceOwnIff(item: bytes, t: ResourceTree)
    requires ResourceWire(item, t)
    ensures var items, ts := LateFirst(Subs(Parse(item).fields, 2)), LateFirst(t.scopes);
            && |WalkedNames(items, ts, NEW_CONTEXT.scope)| == |OwnNames(ts)|
            && (WalkedNames(items, ts, NEW_CONTEXT.scope) == OwnNames(ts)
                <==> WalkedUnderOwn(items, ts, NEW_CONTEXT.scope))
  {
    hide Parse, WalkedNames, OwnNames, WalkedUnderOwn, LateFirst, ScopesWire, AttrsWire, Merged;
    LateFirstWires(Subs(Parse(item).fields, 2), t.scopes);
    OwnNamesIff(LateFirst(Subs(Parse(item).fields, 2)), LateFirst(t.scopes), NEW_CONTEXT.scope);
  }

  lemma {:induction false} RequestOwnIff(items: seq<bytes>, req: RequestTree)
    requires ResourcesWire(items, req)
    ensures |RequestNames(items, req)| == |RequestOwnNames(req)|
    ensures RequestNames(items, req) == RequestOwnNames(req) <==> RequestUnderOwn(items, req)
    decreases |req|
  {
    hide ResourceWire, Parse, WalkedNames, OwnNames, WalkedUnderOwn, LateFirst;
    if req != [] {
      ResourceOwnIff(items[0], req[0]);
      RequestOwnIff(items[1..], req[1..]);
      SplitEqual(WalkedNames(LateFirst(Subs(Parse(items[0]).fields, 2)), LateFirst(req[0].scopes), NEW_CONTEXT.scope),
                 RequestNames(items[1..], req[1..]),
                 OwnNames(LateFirst(req[0].scopes)), RequestOwnNames(req[1..]));
    }
  }

  /** The same for whole requests. */
  lemma RequestNamesAreOwnIff(g: DoubleFormat, s: bytes, req: RequestTree)
    requires RequestWire(s, req)
    ensures Scopes(RequestWalk(g, s).rows) == RequestOwnNames(req) <==> RequestUnderOwn(Subs(Parse(s).fields, 1), req)
  {
    hide Parse, RequestFields, ResourcesWire, Scopes, RequestNames, RequestOwnNames, RequestUnderOwn;
    RequestFieldsNames(g, Parse(s).fields, Parse(s).ending, req);
    RequestOwnIff(Subs(Parse(s).fields, 1), req);
  }

  // ------------------------ Descriptions in front ------------------------

  /** No unnamed scope with spans follows a scope that left a name behind. */
  predicate CarriesNothing(ts: seq<ScopeTree>, name: string) {
    ts == [] ||
    (&& (ts[0].name.None? && ts[0].spans != [] ==> name == "")
     && CarriesNothing(ts[1..], EnterName(name, ts[0])))
  }

  lemma ScopeFirstNames(item: bytes, t: ScopeTree, name: string)
    requires ScopeWire(item, t) && ScopeFirst(Parse(item).fields)
    ensures LeftBehind(Parse(item).fields, name, OwnName(t))
            <==> (t.name.None? && t.spans != [] ==> name == "")
  {
    hide Parse, SpanWire, Merged, ScopeNameFold, CopyStr, LeftBehind, ScopeFirst;
    var fs := Parse(item).fields;
    ScopeFirstLeaves(fs, name);
    ScopeNameIsLast(Merged(fs, 1), name);
    NamesAreLeftBehind(fs, name, EnterName(name, t));
    NamesAreLeftBehind(fs, name, OwnName(t));
    var names := NamesInForce(fs, name);
    hide NamesInForce;
    if t.spans != [] { assert names[0] == EnterName(name, t); }
  }

  /** When every scope is described in front of its spans, only unnamed scopes can go wrong. */
  lemma {:induction false} InFrontIff(items: seq<bytes>, ts: seq<ScopeTree>, name: string)
    requires ScopesWire(items, ts) && AllScopeFirst(items)
    ensures WalkedUnderOwn(items, ts, name) <==> CarriesNothing(ts, name)
    decreases |ts|
  {
    hide Parse, LeftBehind, ScopeWire, ScopeFirst, EnterName, OwnName;
    if ts != [] {
      ScopeFirstNames(items[0], ts[0], name);
      InFrontIff(items[1..], ts[1..], EnterName(name, ts[0]));
    }
  }

  /** The names under which such spans are stored. */
  function EnteredNames(ts: seq<ScopeTree>, name: string): seq<string> {
    if ts == [] then []
    else Copies(EnterName(name, ts[0]), |ts[0].spans|) + EnteredNames(ts[1..], EnterName(name, ts[0]))
  }

  lemma {:induction false} InFrontNames(items: seq<bytes>, ts: seq<ScopeTree>, name: string)
    requires ScopesWire(items, ts) && AllScopeFirst(items)
    ensures WalkedNames(items, ts, name) == EnteredNames(ts, name)
    decreases |ts|
  {
    hide Parse, NamesInForce, ScopeWire, ScopeFirst, EnterName;
    if ts != [] {
      FinalNameOnly(items[0], ts[0], name);
      InFrontNames(items[1..], ts[1..], EnterName(name, ts[0]));
    }
  }

  lemma FinalNameOnly(item: bytes, t: ScopeTree, name: string)
    requires ScopeWire(item, t) && ScopeFirst(Parse(item).fields)
    ensures NamesInForce(Parse(item).fields, name) == Copies(EnterName(name, t), |t.spans|)
  {
    hide Parse, SpanWire, Merged, ScopeNameFold, CopyStr, LeftBehind, ScopeFirst, NamesInForce;
    var fs := Parse(item).fields;
    ScopeFirstLeaves(fs, name);
    ScopeNameIsLast(Merged(fs, 1), name);
    NamesAreLeftBehind(fs, name, EnterName(name, t));
    SpansAreNamed(item, t, name);
    CopiesIff(NamesInForce(fs, name), EnterName(name, t));
  }

  lemma {:induction false} NoSpansNoNames(ts: seq<ScopeTree>, name: string)
    requires forall i :: 0 <= i < |ts| ==> ts[i].spans == []
    ensures EnteredNames(ts, name) == []
    decreases |ts|
  {
    hide EnterName;
    if ts != [] { NoSpansNoNames(ts[1..], EnterName(name, ts[0])); }
  }
}
