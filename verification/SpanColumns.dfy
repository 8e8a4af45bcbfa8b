/** What stands in the columns of a span row, in the sizes of its buffers. */
module SpanColumns {
  import opened Bytes
  import opened Wire
  import opened Attributes
  import opened AttributeTree
  import opened Delivery
  import opened Trace
  import opened TraceTree

  // ------------------------ Resource attributes ------------------------

  /** A string attribute whose key is stored as `key`. */
  predicate HasName(a: Attr, key: string) {
    a.val.Str? && StoredAs(a.key, 255, key)
  }

  predicate LastNamed(attrs: seq<Attr>, key: string, i: nat) {
    i < |attrs| && HasName(attrs[i], key) && forall j :: i < j < |attrs| ==> !HasName(attrs[j], key)
  }

  /** A column of `n` characters filled from the last attribute of that name, `default` without one. */
  ghost predicate FilledFrom(attrs: seq<Attr>, key: string, n: nat, default: string, column: string) {
    if exists i: nat :: LastNamed(attrs, key, i)
    then exists i: nat :: LastNamed(attrs, key, i) && StoredAs(attrs[i].val.text, n, column)
    else column == default
  }

  lemma NameIsStored(a: Attr, key: string)
    requires a.val.Str?
    ensures HasName(a, key) <==> Chars(KeyCut(a.key)) == key
  {
    hide KeyCut;
    if HasName(a, key) { StoredOnce(a.key, 255, key, Chars(KeyCut(a.key))); }
  }

  /** One attribute in front of the others. */
  lemma FilledStep(attrs: seq<Attr>, key: string, n: nat, default: string, middle: string, column: string)
    requires attrs != [] && FilledFrom(attrs[1..], key, n, middle, column)
    requires if HasName(attrs[0], key) then StoredAs(attrs[0].val.text, n, middle) else middle == default
    ensures FilledFrom(attrs, key, n, default, column)
  {
    hide StoredAs;
    var rest := attrs[1..];
    if exists i: nat :: LastNamed(rest, key, i) {
      var i: nat :| LastNamed(rest, key, i) && StoredAs(rest[i].val.text, n, column);
      assert LastNamed(attrs, key, i + 1) && attrs[i + 1] == rest[i];
    } else {
      forall j | 0 <= j < |rest| ensures !HasName(rest[j], key) {
        if HasName(rest[j], key) { SomeNamed(rest, key, j); }
      }
      if HasName(attrs[0], key) {
        assert LastNamed(attrs, key, 0);
      } else {
        forall i: nat ensures !LastNamed(attrs, key, i) {
          if 0 < i < |attrs| { assert attrs[i] == rest[i - 1]; }
        }
      }
    }
  }

  lemma SomeNamed(attrs: seq<Attr>, key: string, i: nat)
    requires i < |attrs| && HasName(attrs[i], key)
    ensures exists k: nat :: LastNamed(attrs, key, k)
    decreases |attrs| - i
  {
    hide HasName;
    if j :| i < j < |attrs| && HasName(attrs[j], key) {
      SomeNamed(attrs, key, j);
    } else {
      assert LastNamed(attrs, key, i);
    }
  }

  /** Service and label of a resource: the last string attribute of each name, cut to its column. */
  lemma {:induction false} ContextColumns(attrs: seq<Attr>, ctx: Context)
    ensures var final := TreeContext(attrs, ctx);
            && FilledFrom(attrs, "service.name", 255, ctx.service, final.service)
            && FilledFrom(attrs, "procwatch.label", 99, ctx.labelName, final.labelName)
            && final.scope == ctx.scope
  {
    hide FilledFrom, KeyCut, HasName, CopyStr, StoredAs;
    if attrs == [] {
      NothingFilled(ctx);
    } else {
      var a := attrs[0];
      var next := AttrStep(ctx, a);
      ContextColumns(attrs[1..], next);
      AttributeFills(ctx, a);
      var final := TreeContext(attrs, ctx);
      FilledStep(attrs, "service.name", 255, ctx.service, next.service, final.service);
      FilledStep(attrs, "procwatch.label", 99, ctx.labelName, next.labelName, final.labelName);
    }
  }

  lemma NothingFilled(ctx: Context)
    ensures FilledFrom([], "service.name", 255, ctx.service, ctx.service)
    ensures FilledFrom([], "procwatch.label", 99, ctx.labelName, ctx.labelName)
  {
  }

  lemma AttributeFills(ctx: Context, a: Attr)
    ensures var next := AttrStep(ctx, a);
            && (if HasName(a, "service.name") then StoredAs(a.val.text, 255, next.service)
                else next.service == ctx.service)
            && (if HasName(a, "procwatch.label") then StoredAs(a.val.text, 99, next.labelName)
                else next.labelName == ctx.labelName)
            && next.scope == ctx.scope
  {
    hide KeyCut, CopyStr, StoredAs;
    if a.val.Str? {
      NameIsStored(a, "service.name");
      NameIsStored(a, "procwatch.label");
      hide HasName;
      assert "service.name" != "procwatch.label" by { assert "service.name"[0] != "procwatch.label"[0]; }
    }
  }

  /** A named scope stores its name in 255 characters. */
  lemma ScopeColumn(t: ScopeTree, name: string)
    ensures match t.name case None => EnterName(name, t) == name case Some(b) => StoredAs(b, 255, EnterName(name, t))
  {
    hide StoredAs;
  }

  // ------------------------ Span columns ------------------------

  const KINDS: seq<string> := ["UNSPECIFIED", "INTERNAL", "SERVER", "CLIENT", "PRODUCER", "CONSUMER"]
  const STATUSES: seq<string> := ["UNSET", "OK", "ERROR"]

  /** The row of a span, column by column. */
  lemma SpanColumnsAre(g: DoubleFormat, t: SpanTree, ctx: Context)
    ensures var row := SpanRow(g, t, ctx);
            && row.labelName == ctx.labelName && row.service == ctx.service && row.scope == ctx.scope
            && Hexed(t.traceId, 16, row.body.traceId)
            && Hexed(t.spanId, 8, row.body.spanId) && Hexed(t.parentId, 8, row.body.parentId)
            && StoredAs(t.name, 511, row.body.name) && StoredAs(t.statusMessage, 511, row.body.statusMessage)
            && row.body.kind == KINDS[if t.kind < 6 then t.kind else 0]
            && row.body.statusCode == STATUSES[if t.statusCode < 3 then t.statusCode else 0]
            && row.body.startNs == t.startNs && row.body.endNs == t.endNs
            && row.attributes == Take("{" + PrintEntries(g, t.attrs, true, 0) + "}", 8191)
  {
    hide HexCut, CopyStr, Hexed, StoredAs, PrintEntries;
    HexCutIsHexed(t.traceId, 33);
    HexCutIsHexed(t.spanId, 17);
    HexCutIsHexed(t.parentId, 17);
  }

  /** How long the span took, as a signed 64-bit number; 0 when it ends before it starts. */
  lemma SpanDuration(g: DoubleFormat, t: SpanTree, ctx: Context)
    ensures var d := SpanRow(g, t, ctx).durationNs;
            if t.endNs < t.startNs then d == 0
            else d == t.endNs - t.startNs - if t.endNs - t.startNs >= 0x8000_0000_0000_0000 then TWO64 else 0
  {
    hide HexCut, CopyStr, PrintEntries;
  }

  /** From the wire: a span is stored with its own name, whole if and only if it has no NUL and less
      than 512 bytes. */
  lemma SpanIsStored(g: DoubleFormat, s: bytes, t: SpanTree, ctx: Context)
    requires SpanWire(s, t)
    ensures var out := SpanOut(g, s, ctx);
            && out.ok && |out.rows| == 1
            && out.rows[0].service == ctx.service
            && (out.rows[0].body.name == Chars(t.name) <==> 0 !in t.name && |t.name| < 512)
            && (out.rows[0].body.statusMessage == Chars(t.statusMessage)
                <==> 0 !in t.statusMessage && |t.statusMessage| < 512)
  {
    hide SpanOut, SpanWire, SpanRow, Hexed, StoredAs;
    SpanEmitsRow(g, s, t, ctx);
    SpanColumnsAre(g, t, ctx);
    var row := SpanRow(g, t, ctx);
    StoredWholeIff(t.name, 511, row.body.name);
    StoredWholeIff(t.statusMessage, 511, row.body.statusMessage);
  }

  /** A service name is stored whole if and only if it has no NUL and less than 256 bytes. */
  lemma ServiceIsStored(attrs: seq<Attr>, i: nat)
    requires LastNamed(attrs, "service.name", i)
    ensures TreeContext(attrs, NEW_CONTEXT).service == Chars(attrs[i].val.text)
            <==> 0 !in attrs[i].val.text && |attrs[i].val.text| < 256
  {
    hide TreeContext, StoredAs;
    ContextColumns(attrs, NEW_CONTEXT);
    var column := TreeContext(attrs, NEW_CONTEXT).service;
    var j: nat :| LastNamed(attrs, "service.name", j) && StoredAs(attrs[j].val.text, 255, column);
    assert i == j;
    StoredWholeIff(attrs[i].val.text, 255, column);
  }

  /** Without such an attribute the service is unknown and there is no label. */
  lemma UnknownService(attrs: seq<Attr>)
    ensures (forall i :: 0 <= i < |attrs| ==> !HasName(attrs[i], "service.name")) ==>
              TreeContext(attrs, NEW_CONTEXT).service == "unknown_service"
    ensures (forall i :: 0 <= i < |attrs| ==> !HasName(attrs[i], "procwatch.label")) ==>
              TreeContext(attrs, NEW_CONTEXT).labelName == ""
  {
    hide TreeContext, HasName;
    ContextColumns(attrs, NEW_CONTEXT);
  }
}
