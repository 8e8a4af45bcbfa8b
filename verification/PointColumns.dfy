/** What stands in the columns of a metric point row, in the sizes of its buffers. */
module PointColumns {
  import opened Bytes
  import opened Wire
  import opened Attributes
  import opened AttributeTree
  import opened Delivery
  import opened Metrics
  import opened MetricTree
  import opened MetricRequests
  import opened SpanColumns

  /** Service, label and pid key of a resource: the last string attribute of each name, cut to its
      column. */
  lemma {:induction false} ContextColumns(attrs: seq<Attr>, ctx: Context)
    ensures var final := TreeContext(attrs, ctx);
            && FilledFrom(attrs, "service.name", 255, ctx.service, final.service)
            && FilledFrom(attrs, "procwatch.label", 99, ctx.labelName, final.labelName)
            && FilledFrom(attrs, "procwatch.pid_key", 63, ctx.pidKey, final.pidKey)
            && final.scope == ctx.scope
  {
    hide FilledFrom, KeyCut, HasName, CopyStr, StoredAs;
    if attrs == [] {
      NothingFilled(ctx);
    } else {
      var a := attrs[0];
      var next := AttrStep(ctx, a);
      ContextColumns(attrs[1..], next);
      AttributeFills(ctx, a);
      var final := TreeContext(attrs, ctx);
      FilledStep(attrs, "service.name", 255, ctx.service, next.service, final.service);
      FilledStep(attrs, "procwatch.label", 99, ctx.labelName, next.labelName, final.labelName);
      FilledStep(attrs, "procwatch.pid_key", 63, ctx.pidKey, next.pidKey, final.pidKey);
    }
  }

  lemma NothingFilled(ctx: Context)
    ensures FilledFrom([], "service.name", 255, ctx.service, ctx.service)
    ensures FilledFrom([], "procwatch.label", 99, ctx.labelName, ctx.labelName)
    ensures FilledFrom([], "procwatch.pid_key", 63, ctx.pidKey, ctx.pidKey)
  {
  }

  lemma AttributeFills(ctx: Context, a: Attr)
    ensures var next := AttrStep(ctx, a);
            && (if HasName(a, "service.name") then StoredAs(a.val.text, 255, next.service)
                else next.service == ctx.service)
            && (if HasName(a, "procwatch.label") then StoredAs(a.val.text, 99, next.labelName)
                else next.labelName == ctx.labelName)
            && (if HasName(a, "procwatch.pid_key") then StoredAs(a.val.text, 63, next.pidKey)
                else next.pidKey == ctx.pidKey)
            && next.scope == ctx.scope
  {
    hide KeyCut, CopyStr, StoredAs;
    if a.val.Str? {
      NameIsStored(a, "service.name");
      NameIsStored(a, "procwatch.label");
      NameIsStored(a, "procwatch.pid_key");
      hide HasName;
      assert |"service.name"| == 12 && |"procwatch.label"| == 15 && |"procwatch.pid_key"| == 17;
    }
  }

  lemma ScopeColumn(t: MetricScope, name: string)
    ensures match t.name case None => EnterName(name, t) == name case Some(b) => StoredAs(b, 255, EnterName(name, t))
  {
    hide StoredAs;
  }

  /** Without such attributes the service is unknown, and there are neither label nor pid key. */
  lemma UnknownOrigin(attrs: seq<Attr>)
    ensures var ctx := TreeContext(attrs, NEW_CONTEXT);
            && ctx.scope == ""
            && ((forall i :: 0 <= i < |attrs| ==> !HasName(attrs[i], "service.name")) ==>
                  ctx.service == "unknown_service")
            && ((forall i :: 0 <= i < |attrs| ==> !HasName(attrs[i], "procwatch.label")) ==> ctx.labelName == "")
            && ((forall i :: 0 <= i < |attrs| ==> !HasName(attrs[i], "procwatch.pid_key")) ==> ctx.pidKey == "")
  {
    hide TreeContext, HasName;
    ContextColumns(attrs, NEW_CONTEXT);
  }

  /** The strings of a metric, cut to their columns; without a name its points are not stored. */
  lemma StringColumns(t: MetricTree)
    ensures var strings := StringsOf(t);
            && StoredAs(t.name, 255, strings.name)
            && StoredAs(t.description, 255, strings.description)
            && StoredAs(t.unit, 63, strings.unit)
            && (strings.name == "" <==> t.name == [] || t.name[0] == 0)
  {
    hide CopyStr;
  }

  /** The row of a data point, column by column. */
  lemma PointColumnsAre(g: DoubleFormat, ctx: Context, strings: Strings, kind: string, t: PointTree)
    ensures var row := RowOf(g, ctx, strings, kind, t);
            && row.ctx == ctx && row.strings == strings && row.kind == kind
            && row.body.timeNs == t.timeNs
            && (t.NumberPoint? ==> row.body.value == t.value && row.body.count == 1)
            && (t.HistogramPoint? ==>
                  && row.body.value == Bits(t.sum)
                  && row.body.count == t.count - if t.count >= 0x8000_0000_0000_0000 then TWO64 else 0)
            && row.attributes == Take("{" + PrintEntries(g, t.attrs, true, 0) + "}", 2047)
  {
    hide PrintEntries;
  }

  /** From the wire: the rows of a metric carry its name, whole if and only if it has no NUL and less
      than 256 bytes. */
  lemma MetricNameIsStored(g: DoubleFormat, s: bytes, t: MetricTree, ctx: Context)
    requires MetricWire(s, t)
    ensures var rows := MetricWalk(g, s, ctx).rows;
            forall i :: 0 <= i < |rows| ==>
              (rows[i].strings.name == Chars(t.name) <==> 0 !in t.name && |t.name| < 256)
  {
    hide MetricWire, MetricWalk, DataRows, CopyStr, StringsOf, StoredAs;
    MetricEmitsRows(g, s, t, ctx);
    StringColumns(t);
    StoredWholeIff(t.name, 255, StringsOf(t).name);
    DataStrings(g, ctx, StringsOf(t), Take(t.data, 8));
  }

  lemma {:induction false} DataStrings(g: DoubleFormat, ctx: Context, strings: Strings, ts: seq<ContainerTree>)
    ensures forall i :: 0 <= i < |DataRows(g, ctx, strings, ts)| ==> DataRows(g, ctx, strings, ts)[i].strings == strings
  {
    hide PointRows;
    if ts != [] {
      PointStrings(g, ctx, strings, ts[0].kind, ts[0].points);
      DataStrings(g, ctx, strings, ts[1..]);
    }
  }

  lemma {:induction false} PointStrings(g: DoubleFormat, ctx: Context, strings: Strings, kind: string,
                                        ts: seq<PointTree>)
    ensures forall i :: 0 <= i < |PointRows(g, ctx, strings, kind, ts)| ==>
              PointRows(g, ctx, strings, kind, ts)[i].strings == strings
  {
    hide RowOf;
    if ts != [] {
      PointColumnsAre(g, ctx, strings, kind, ts[0]);
      PointStrings(g, ctx, strings, kind, ts[1..]);
    }
  }
}
