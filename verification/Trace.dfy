/** The trace decoder (otlp_trace.c): nested walks that flatten an export request into spans. */
module Trace {
  import opened Bytes
  import opened Wire
  import opened Reading
  import opened Builder
  import opened Attributes
  import opened Rendering
  import opened Delivery

  const NAME_CAP := 512
  const SERVICE_CAP := 256
  const SCOPE_CAP := 256
  const MESSAGE_CAP := 512
  const ATTRS_CAP := 8192
  const LABEL_CAP := 100
  const TRACE_ID_CAP := 33
  const SPAN_ID_CAP := 17
  const PENDING_MAX := 64

  /** pw_span_t: one flattened row. */
  datatype Span = Span(labelName: string, service: string, scope: string, body: Draft, durationNs: int,
                       attributes: string)

  /** The part of a row that comes from the scalar fields of its own message. */
  datatype Draft = Draft(traceId: string, spanId: string, parentId: string, name: string, kind: string,
                         statusCode: string, statusMessage: string, startNs: u64, endNs: u64)

  /** span_context_t. */
  datatype Context = Context(service: string, scope: string, labelName: string)

  function KindName(kind: u64): string {
    match kind
    case 1 => "INTERNAL"
    case 2 => "SERVER"
    case 3 => "CLIENT"
    case 4 => "PRODUCER"
    case 5 => "CONSUMER"
    case _ => "UNSPECIFIED"
  }

  function StatusName(code: u64): string {
    match code
    case 1 => "OK"
    case 2 => "ERROR"
    case _ => "UNSET"
  }

  // ------------------------ What is emitted ------------------------

  const NEW_DRAFT := Draft("", "", "", "", KindName(0), StatusName(0), "", 0, 0)

  function StatusStep(d: Draft, f: Field): Draft {
    if IsBytes(f, 2) then d.(statusMessage := CopyStr(f.val.data, MESSAGE_CAP))
    else if IsVarintField(f, 3) then d.(statusCode := StatusName(f.val.word))
    else d
  }

  function StatusFold(fs: seq<Field>, d: Draft): Draft {
    if fs == [] then d else StatusFold(fs[1..], StatusStep(d, fs[0]))
  }

  function SpanStep(d: Draft, f: Field): Draft {
    if IsBytes(f, 1) then d.(traceId := HexCut(f.val.data, TRACE_ID_CAP))
    else if IsBytes(f, 2) then d.(spanId := HexCut(f.val.data, SPAN_ID_CAP))
    else if IsBytes(f, 4) then d.(parentId := HexCut(f.val.data, SPAN_ID_CAP))
    else if IsBytes(f, 5) then d.(name := CopyStr(f.val.data, NAME_CAP))
    else if IsVarintField(f, 6) then d.(kind := KindName(f.val.word))
    else if IsFixed64(f, 7) then d.(startNs := f.val.word)
    else if IsFixed64(f, 8) then d.(endNs := f.val.word)
    else if IsBytes(f, 15) then StatusFold(Parse(f.val.data).fields, d)
    else d
  }

  function SpanFold(fs: seq<Field>, d: Draft): Draft {
    if fs == [] then d else SpanFold(fs[1..], SpanStep(d, fs[0]))
  }

  function Row(ctx: Context, d: Draft, attributes: string): Span {
    var duration := if d.endNs >= d.startNs then ToInt64(d.endNs - d.startNs) else 0;
    Span(ctx.labelName, ctx.service, ctx.scope, d, duration, Take(attributes, ATTRS_CAP - 1))
  }

  function SpanOut(g: DoubleFormat, s: bytes, ctx: Context): (out: Out<Span>)
    ensures |out.rows| == if out.ok then 1 else 0
  {
    var p := Parse(s);
    if p.ending.AtBadPayload? then Out([], false)
    else Out([Row(ctx, SpanFold(p.fields, NEW_DRAFT), "{" + KvListText(g, p.fields, 9, true, 0) + "}")], true)
  }

  /** The name field of an InstrumentationScope, if any, replaces the current scope name. */
  function ScopeNameFold(fs: seq<Field>, name: string): string {
    if fs == [] then name
    else ScopeNameFold(fs[1..], if IsBytes(fs[0], 1) then CopyStr(fs[0].val.data, SCOPE_CAP) else name)
  }

  /** A walk over ScopeSpans also leaves its context behind. */
  datatype ScopeOut = ScopeOut(out: Out<Span>, ctx: Context)

  function ScopeFields(g: DoubleFormat, fs: seq<Field>, ending: Ending, ctx: Context): ScopeOut {
    if fs == [] then ScopeOut(Out([], !ending.AtBadPayload?), ctx)
    else if IsBytes(fs[0], 1) then
      var name := ScopeNameFold(Parse(fs[0].val.data).fields, ctx.scope);
      ScopeFields(g, fs[1..], ending, ctx.(scope := name))
    else if IsBytes(fs[0], 2) then
      var one := SpanOut(g, fs[0].val.data, ctx);
      var rest := ScopeFields(g, fs[1..], ending, ctx);
      ScopeOut(Then(one, rest.out), rest.ctx)
    else ScopeFields(g, fs[1..], ending, ctx)
  }

  function ScopeWalk(g: DoubleFormat, s: bytes, ctx: Context): ScopeOut {
    ScopeFields(g, Parse(s).fields, Parse(s).ending, ctx)
  }

  function ResourceStep(ctx: Context, f: Field): Context {
    if !IsBytes(f, 1) then ctx
    else
      var kv := KvOf(f.val.data);
      if kv.value.None? then ctx
      else match FirstString(Parse(kv.value.value).fields)
        case None => ctx
        case Some(text) =>
          if Chars(kv.key) == "service.name" then ctx.(service := CopyStr(text, SERVICE_CAP))
          else if Chars(kv.key) == "procwatch.label" then ctx.(labelName := CopyStr(text, LABEL_CAP))
          else ctx
  }

  function ResourceFold(fs: seq<Field>, ctx: Context): Context {
    if fs == [] then ctx else ResourceFold(fs[1..], ResourceStep(ctx, fs[0]))
  }

  /** The buffered ScopeSpans, walked in order with the context carried along. */
  function Drain(g: DoubleFormat, pending: seq<bytes>, ctx: Context): Out<Span> {
    if pending == [] then Out([], true)
    else
      var first := ScopeWalk(g, pending[0], ctx);
      Then(first.out, Drain(g, pending[1..], first.ctx))
  }

  function ResourceFields(g: DoubleFormat, fs: seq<Field>, ending: Ending, ctx: Context,
                          pending: seq<bytes>): Out<Span> {
    if fs == [] then
      if ending.AtBadPayload? then Out([], false) else Drain(g, pending, ctx)
    else if IsBytes(fs[0], 1) then
      ResourceFields(g, fs[1..], ending, ResourceFold(Parse(fs[0].val.data).fields, ctx), pending)
    else if IsBytes(fs[0], 2) then
      if |pending| < PENDING_MAX then
        ResourceFields(g, fs[1..], ending, ctx, pending + [fs[0].val.data])
      else
        var now := ScopeWalk(g, fs[0].val.data, ctx);
        Then(now.out, ResourceFields(g, fs[1..], ending, now.ctx, pending))
    else ResourceFields(g, fs[1..], ending, ctx, pending)
  }

  const NEW_CONTEXT := Context("unknown_service", "", "")

  function ResourceWalk(g: DoubleFormat, s: bytes): Out<Span> {
    ResourceFields(g, Parse(s).fields, Parse(s).ending, NEW_CONTEXT, [])
  }

  function RequestFields(g: DoubleFormat, fs: seq<Field>, ending: Ending): Out<Span> {
    if fs == [] then Out([], !ending.AtBadPayload?)
    else if IsBytes(fs[0], 1) then Then(ResourceWalk(g, fs[0].val.data), RequestFields(g, fs[1..], ending))
    else RequestFields(g, fs[1..], ending)
  }

  /** Every span of the request, in the order a sink that never refuses receives them. */
  function RequestWalk(g: DoubleFormat, s: bytes): Out<Span> {
    RequestFields(g, Parse(s).fields, Parse(s).ending)
  }

  // ------------------------ The code ------------------------

  method DecodeStatus(st: Reader, d0: Draft) returns (d: Draft)
    requires st.Valid()
    modifies st
    ensures d == StatusFold(Parse(old(st.Rest())).fields, d0)
  {
    hide Parse, ReadTag, ReadPayload, CopyStr, StatusName;
    d := d0;
    ghost var goal := StatusFold(Parse(st.Rest()).fields, d0);
    while true
      invariant st.Valid()
      invariant StatusFold(Parse(st.Rest()).fields, d) == goal
      decreases st.end - st.pos
    {
      ParseStep(st.Rest());
      var rc, num, wire := st.Next();
      if rc != 1 { break; }
      PayloadKind(wire, st.Rest());
      if num == 2 && wire == BYTES {
        var ok, s := st.Bytes();
        if !ok { break; }
        d := d.(statusMessage := CopyStr(s, MESSAGE_CAP));
      } else if num == 3 && wire == VARINT {
        var ok, v := ReadWord(st);
        if !ok { break; }
        d := d.(statusCode := StatusName(v));
      } else {
        var ok := st.Skip(wire);
        if !ok { break; }
      }
    }
  }

  /** One field of a Span other than an attribute. */
  method DecodeSpanField(r: Reader, d0: Draft, num: nat, wire: nat) returns (ok: bool, d: Draft)
    requires r.Valid()
    modifies r
    ensures r.Valid() && r.pos >= old(r.pos)
    ensures ok <==> ReadPayload(wire, old(r.Rest())).Some?
    ensures ok ==>
              var p := ReadPayload(wire, old(r.Rest())).value;
              r.Rest() == old(r.Rest())[p.used..] && d == SpanStep(d0, Field(num, p.val))
  {
    hide ReadPayload, Parse, CopyStr, HexCut, KindName, StatusFold;
    PayloadKind(wire, r.Rest());
    d := d0;
    if (num == 1 || num == 2 || num == 4 || num == 5) && wire == BYTES {
      var s;
      ok, s := r.Bytes();
      if !ok { return; }
      if num == 1 {
        var hex := ToHex(s, TRACE_ID_CAP);
        d := d.(traceId := hex);
      } else if num == 2 {
        var hex := ToHex(s, SPAN_ID_CAP);
        d := d.(spanId := hex);
      } else if num == 4 {
        var hex := ToHex(s, SPAN_ID_CAP);
        d := d.(parentId := hex);
      } else {
        d := d.(name := CopyStr(s, NAME_CAP));
      }
    } else if num == 6 && wire == VARINT {
      var v;
      ok, v := ReadWord(r);
      if !ok { return; }
      d := d.(kind := KindName(v));
    } else if num == 7 && wire == FIXED64 {
      var v;
      ok, v := r.Fixed64();
      if !ok { return; }
      d := d.(startNs := v);
    } else if num == 8 && wire == FIXED64 {
      var v;
      ok, v := r.Fixed64();
      if !ok { return; }
      d := d.(endNs := v);
    } else if num == 15 && wire == BYTES {
      var st;
      ok, st := r.Submsg();
      if !ok { return; }
      d := DecodeStatus(st, d);
    } else {
      ok := r.Skip(wire);
    }
  }

  method DecodeSpan(g: DoubleFormat, r: Reader, ctx: Context, sink: Sink<Span>) returns (rc: int)
    requires r.Valid()
    modifies r, sink
    ensures var out := SpanOut(g, old(r.Rest()), ctx);
            if out.ok then sink.calls == old(sink.calls) + out.rows && rc == sink.verdict(sink.calls)
            else sink.calls == old(sink.calls) && rc == -1
  {
    hide Parse, KvListText, SpanFold, Row;
    var attrs := new StringBuilder(ATTRS_CAP);
    attrs.Putc('{');
    var ok, d, have := WalkSpan(g, r, attrs);
    if !ok { return -1; }
    rc := EmitSpan(attrs, have, ctx, d, sink);
  }

  /** The loop over the fields of a Span. */
  method WalkSpan(g: DoubleFormat, r: Reader, attrs: StringBuilder) returns (ok: bool, d: Draft, have: bool)
    requires r.Valid() && attrs.Valid() && attrs.buf.Length == ATTRS_CAP
    requires attrs.text == "{"
    modifies r, attrs, attrs.buf
    ensures attrs.Valid()
    ensures ok <==> !Parse(old(r.Rest())).ending.AtBadPayload?
    ensures ok ==>
              && d == SpanFold(Parse(old(r.Rest())).fields, NEW_DRAFT)
              && attrs.text == "{" + KvListText(g, Parse(old(r.Rest())).fields, 9, true, 0)
              && (!have ==> attrs.text == "{")
  {
    hide Parse, ReadTag, ReadPayload, SpanStep, EntryText, HasKey, KvListText, SpanFold;
    ok, d, have := true, NEW_DRAFT, false;
    var first := true;
    ghost var all := Parse(r.Rest());
    ghost var text := "{" + KvListText(g, all.fields, 9, true, 0);
    ghost var todo := all.fields;
    while true
      invariant r.Valid() && attrs.Valid()
      invariant Parse(r.Rest()) == Parsed(todo, all.ending)
      invariant SpanFold(todo, d) == SpanFold(all.fields, NEW_DRAFT)
      invariant attrs.text + KvListText(g, todo, 9, first, 0) == text
      invariant have == !first && (first ==> attrs.text == "{")
      decreases r.end - r.pos
    {
      ParseStep(r.Rest());
      SpanFieldStep(g, todo, first, d);
      var next, num, wire := r.Next();
      if next != 1 { break; }
      if num == 9 && wire == BYTES {
        var got, kv := r.Submsg();
        if !got { return false, d, have; }
        ghost var before, entry := attrs.text, kv.Rest();
        var wrote := AppendEntry(g, kv, attrs, first, 0);
        ghost var rest := KvListText(g, todo[1..], 9, first && !wrote, 0);
        assert before + (EntryText(g, entry, first, 0) + rest) == attrs.text + rest;
        if wrote { first, have := false, true; }
      } else {
        PayloadKind(wire, r.Rest());
        var got, next := DecodeSpanField(r, d, num, wire);
        if !got { return false, d, have; }
        d := next;
      }
      todo := todo[1..];
    }
  }

  /** Closes the attributes and hands the row over. */
  method EmitSpan(attrs: StringBuilder, have: bool, ctx: Context, d: Draft, sink: Sink<Span>) returns (rc: int)
    requires attrs.Valid() && attrs.buf.Length == ATTRS_CAP && (!have ==> attrs.text == "{")
    modifies attrs, attrs.buf, sink
    ensures sink.calls == old(sink.calls) + [Row(ctx, d, old(attrs.text) + "}")]
    ensures rc == sink.verdict(sink.calls)
    ensures attrs.overflow <==> |old(attrs.text) + "}"| >= ATTRS_CAP
  {
    attrs.Putc('}');
    var attributes := attrs.buf[..attrs.len];
    if !have { attributes := "{}"; }
    assert attributes == Take(attrs.text, ATTRS_CAP - 1);
    RowTakesOnce(ctx, d, attrs.text);
    rc := sink.Call(Row(ctx, d, attributes));
  }

  /** What one field of a Span contributes to the two folds. */
  lemma SpanFieldStep(g: DoubleFormat, fs: seq<Field>, first: bool, d: Draft)
    ensures fs == [] ==> KvListText(g, fs, 9, first, 0) == "" && SpanFold(fs, d) == d
    ensures fs != [] && IsBytes(fs[0], 9) ==>
              var s := fs[0].val.data;
              && SpanFold(fs, d) == SpanFold(fs[1..], d)
              && KvListText(g, fs, 9, first, 0)
                 == EntryText(g, s, first, 0) + KvListText(g, fs[1..], 9, first && !HasKey(s), 0)
              && (!HasKey(s) ==> EntryText(g, s, first, 0) == "")
    ensures fs != [] && !IsBytes(fs[0], 9) ==>
              && SpanFold(fs, d) == SpanFold(fs[1..], SpanStep(d, fs[0]))
              && KvListText(g, fs, 9, first, 0) == KvListText(g, fs[1..], 9, first, 0)
  {
  }

  lemma RowTakesOnce(ctx: Context, d: Draft, text: string)
    ensures Row(ctx, d, Take(text, ATTRS_CAP - 1)) == Row(ctx, d, text)
  {
  }

  method DecodeScopeName(scope: Reader, old0: string) returns (name: string)
    requires scope.Valid()
    modifies scope
    ensures name == ScopeNameFold(Parse(old(scope.Rest())).fields, old0)
  {
    hide Parse, ReadTag, ReadPayload, CopyStr;
    name := old0;
    ghost var goal := ScopeNameFold(Parse(scope.Rest()).fields, old0);
    while true
      invariant scope.Valid()
      invariant ScopeNameFold(Parse(scope.Rest()).fields, name) == goal
      decreases scope.end - scope.pos
    {
      ParseStep(scope.Rest());
      var rc, num, wire := scope.Next();
      if rc != 1 { break; }
      PayloadKind(wire, scope.Rest());
      if num == 1 && wire == BYTES {
        var ok, s := scope.Bytes();
        if !ok { break; }
        name := CopyStr(s, SCOPE_CAP);
      } else {
        var ok := scope.Skip(wire);
        if !ok { break; }
      }
    }
  }

  method DecodeScopeSpans(g: DoubleFormat, r: Reader, ctx0: Context, sink: Sink<Span>, count0: int)
      returns (rc: int, ctx: Context, count: int)
    requires r.Valid()
    modifies r, sink
    ensures var walk := ScopeWalk(g, old(r.Rest()), ctx0);
            && Delivered(sink.verdict, old(sink.calls), walk.out, rc, sink.calls, count - count0)
            && (rc == 0 ==> ctx == walk.ctx)
  {
    hide Parse, ReadTag, ReadPayload, SpanOut, Delivered, Then;
    ctx, count := ctx0, count0;
    ghost var all := Parse(r.Rest());
    ghost var goal := ScopeWalk(g, r.Rest(), ctx0);
    ghost var done: Out<Span> := Out([], true);
    ghost var todo := all.fields;
    NothingDelivered(sink.verdict, sink.calls);
    ThenNothing(goal.out);
    while true
      invariant r.Valid()
      invariant Parse(r.Rest()) == Parsed(todo, all.ending)
      invariant Delivered(sink.verdict, old(sink.calls), done, 0, sink.calls, count - count0)
      invariant Then(done, ScopeFields(g, todo, all.ending, ctx).out) == goal.out
      invariant ScopeFields(g, todo, all.ending, ctx).ctx == goal.ctx
      decreases r.end - r.pos
    {
      ParseStep(r.Rest());
      Ends(sink.verdict, old(sink.calls), done, sink.calls, count - count0);
      var next, num, wire := r.Next();
      if next != 1 { break; }
      PayloadKind(wire, r.Rest());
      if num == 1 && wire == BYTES {
        var ok, scope := r.Submsg();
        if !ok { return -1, ctx, count; }
        var name := DecodeScopeName(scope, ctx.scope);
        ctx := ctx.(scope := name);
      } else if num == 2 && wire == BYTES {
        var ok, span := r.Submsg();
        if !ok { return -1, ctx, count; }
        ghost var one, rest := SpanOut(g, span.Rest(), ctx), ScopeFields(g, todo[1..], all.ending, ctx).out;
        ghost var mid, n := sink.calls, count - count0;
        var stop := DecodeSpan(g, span, ctx, sink);
        OneWalked(sink.verdict, mid, one, stop, sink.calls);
        Absorb(sink.verdict, old(sink.calls), done, mid, n, one, Sign(stop), sink.calls,
               if stop == 0 then 1 else 0, rest);
        if stop < 0 { return -1, ctx, count; }
        if stop > 0 { return 1, ctx, count; }
        count := count + 1;
        done := Then(done, one);
      } else {
        var ok := r.Skip(wire);
        if !ok { return -1, ctx, count; }
      }
      todo := todo[1..];
    }
    rc := 0;
  }

  /** The loop over the attributes of a Resource. */
  method DecodeResource(res: Reader, ctx0: Context) returns (ctx: Context)
    requires res.Valid()
    modifies res
    ensures ctx == ResourceFold(Parse(old(res.Rest())).fields, ctx0)
  {
    hide Parse, ReadTag, ReadPayload, ResourceStep;
    ctx := ctx0;
    ghost var goal := ResourceFold(Parse(res.Rest()).fields, ctx0);
    while true
      invariant res.Valid()
      invariant ResourceFold(Parse(res.Rest()).fields, ctx) == goal
      decreases res.end - res.pos
    {
      ParseStep(res.Rest());
      var rc, num, wire := res.Next();
      if rc != 1 { break; }
      PayloadKind(wire, res.Rest());
      if num == 1 && wire == BYTES {
        var ok, kv := res.Submsg();
        if !ok { break; }
        ctx := DecodeResourceAttribute(kv, ctx);
      } else {
        ghost var p := ReadPayload(wire, res.Rest());
        var ok := res.Skip(wire);
        if !ok { break; }
        OtherFieldKeepsContext(ctx, Field(num, p.value.val));
      }
    }
  }

  lemma OtherFieldKeepsContext(ctx: Context, f: Field)
    ensures !IsBytes(f, 1) ==> ResourceStep(ctx, f) == ctx
  {
  }

  method DecodeResourceAttribute(kv: Reader, ctx0: Context) returns (ctx: Context)
    requires kv.Valid()
    modifies kv
    ensures ctx == ResourceStep(ctx0, Field(1, BytesP(old(kv.Rest()))))
  {
    hide Parse, KvOf, FirstString, CopyStr;
    ctx := ctx0;
    var key, value := ParseKv(kv);
    if value != null && Chars(key) == "service.name" {
      var name := AnyValueAsString(value, SERVICE_CAP);
      if name.Some? { ctx := ctx.(service := name.value); }
    } else if value != null && Chars(key) == "procwatch.label" {
      var name := AnyValueAsString(value, LABEL_CAP);
      if name.Some? { ctx := ctx.(labelName := name.value); }
    }
  }

  method DecodeResourceSpans(g: DoubleFormat, r: Reader, sink: Sink<Span>, count0: int) returns (rc: int, count: int)
    requires r.Valid()
    modifies r, sink
    ensures Delivered(sink.verdict, old(sink.calls), ResourceWalk(g, old(r.Rest())), rc, sink.calls, count - count0)
  {
    hide Parse, ReadTag, ReadPayload, ScopeWalk, ResourceFold, Delivered, Then, Drain;
    var ctx := NEW_CONTEXT;
    var pending := new bytes[PENDING_MAX];
    var held := 0;
    count := count0;
    ghost var all := Parse(r.Rest());
    ghost var goal := ResourceWalk(g, r.Rest());
    ghost var done: Out<Span> := Out([], true);
    ghost var todo := all.fields;
    NothingDelivered(sink.verdict, sink.calls);
    ThenNothing(goal);
    while true
      invariant r.Valid() && 0 <= held <= PENDING_MAX
      invariant Parse(r.Rest()) == Parsed(todo, all.ending)
      invariant Delivered(sink.verdict, old(sink.calls), done, 0, sink.calls, count - count0)
      invariant Then(done, ResourceFields(g, todo, all.ending, ctx, pending[..held])) == goal
      decreases r.end - r.pos
    {
      ParseStep(r.Rest());
      Ends(sink.verdict, old(sink.calls), done, sink.calls, count - count0);
      var next, num, wire := r.Next();
      if next != 1 { break; }
      PayloadKind(wire, r.Rest());
      if num == 1 && wire == BYTES {
        var ok, res := r.Submsg();
        if !ok { return -1, count; }
        ctx := DecodeResource(res, ctx);
      } else if num == 2 && wire == BYTES {
        var ok, data := r.Bytes();
        if !ok { return -1, count; }
        if held < PENDING_MAX {
          assert pending[..held] + [data] == pending[..][held := data][..held + 1];
          pending[held] := data;
          held := held + 1;
        } else {
          // The buffer is full.
          ghost var walk := ScopeWalk(g, data, ctx);
          ghost var mid, n := sink.calls, count - count0;
          ghost var rest := ResourceFields(g, todo[1..], all.ending, walk.ctx, pending[..held]);
          ghost var before := count;
          rc, ctx, count := DecodeHeld(g, data, ctx, sink, count);
          Absorb(sink.verdict, old(sink.calls), done, mid, n, walk.out, rc, sink.calls, count - before, rest);
          if rc != 0 { return; }
          done := Then(done, walk.out);
        }
      } else {
        var ok := r.Skip(wire);
        if !ok { return -1, count; }
      }
      todo := todo[1..];
    }
    ghost var mid, n := sink.calls, count - count0;
    ghost var before := count;
    rc, count := DrainPending(g, pending, held, ctx, sink, count);
    Continues(sink.verdict, old(sink.calls), done, mid, n, Drain(g, pending[..held], ctx), rc, sink.calls,
              count - before);
  }

  /** Starts a reader on a ScopeSpans payload that was set aside. */
  method DecodeHeld(g: DoubleFormat, data: bytes, ctx0: Context, sink: Sink<Span>, count0: int)
      returns (rc: int, ctx: Context, count: int)
    modifies sink
    ensures var walk := ScopeWalk(g, data, ctx0);
            && Delivered(sink.verdict, old(sink.calls), walk.out, rc, sink.calls, count - count0)
            && (rc == 0 ==> ctx == walk.ctx)
  {
    var ss := new Reader(data, 0, |data|);
    assert ss.Rest() == data;
    rc, ctx, count := DecodeScopeSpans(g, ss, ctx0, sink, count0);
  }

  /** The loop over the buffered ScopeSpans. */
  method DrainPending(g: DoubleFormat, pending: array<bytes>, held: nat, ctx0: Context, sink: Sink<Span>, count0: int)
      returns (rc: int, count: int)
    requires held <= pending.Length
    modifies sink
    ensures Delivered(sink.verdict, old(sink.calls), Drain(g, pending[..held], ctx0), rc, sink.calls, count - count0)
  {
    hide ScopeWalk, Delivered, Then;
    var ctx := ctx0;
    count := count0;
    ghost var goal := Drain(g, pending[..held], ctx0);
    ghost var done: Out<Span> := Out([], true);
    NothingDelivered(sink.verdict, sink.calls);
    ThenNothing(goal);
    assert pending[0..held] == pending[..held];
    for i := 0 to held
      invariant Delivered(sink.verdict, old(sink.calls), done, 0, sink.calls, count - count0)
      invariant Then(done, Drain(g, pending[i..held], ctx)) == goal
    {
      assert pending[i..held][1..] == pending[i + 1..held];
      ghost var walk := ScopeWalk(g, pending[i], ctx);
      ghost var mid, n := sink.calls, count - count0;
      ghost var before, rest := count, Drain(g, pending[i + 1..held], walk.ctx);
      rc, ctx, count := DecodeHeld(g, pending[i], ctx, sink, count);
      Absorb(sink.verdict, old(sink.calls), done, mid, n, walk.out, rc, sink.calls, count - before, rest);
      if rc != 0 { return; }
      done := Then(done, walk.out);
    }
    Ends(sink.verdict, old(sink.calls), done, sink.calls, count - count0);
    rc := 0;
  }

  /** otlp_decode_traces. The sink receives the spans of the request in order until it refuses
      one; the number of accepted spans is returned, or -1 when a walk failed, or a sink answered
      with a negative number, before any span was accepted. */
  method DecodeTraces(g: DoubleFormat, data: bytes, sink: Sink<Span>)
      returns (result: int, ghost rc: int, ghost count: int)
    modifies sink
    ensures Delivered(sink.verdict, old(sink.calls), RequestWalk(g, data), rc, sink.calls, count)
    ensures result == if rc < 0 && count == 0 then -1 else count
  {
    hide Parse, ReadTag, ReadPayload, ResourceWalk, Delivered, Then;
    var r := new Reader(data, 0, |data|);
    assert r.Rest() == data;
    var n := 0;
    ghost var all := Parse(data);
    ghost var goal := RequestWalk(g, data);
    ghost var done: Out<Span> := Out([], true);
    ghost var todo := all.fields;
    NothingDelivered(sink.verdict, sink.calls);
    ThenNothing(goal);
    while true
      invariant r.Valid() && fresh(r)
      invariant Parse(r.Rest()) == Parsed(todo, all.ending)
      invariant Delivered(sink.verdict, old(sink.calls), done, 0, sink.calls, n)
      invariant Then(done, RequestFields(g, todo, all.ending)) == goal
      decreases r.end - r.pos
    {
      ParseStep(r.Rest());
      Ends(sink.verdict, old(sink.calls), done, sink.calls, n);
      var next, num, wire := r.Next();
      if next != 1 { break; }
      PayloadKind(wire, r.Rest());
      if num == 1 && wire == BYTES {
        var ok, rs := r.Submsg();
        if !ok { return if n != 0 then n else -1, -1, n; }
        ghost var walk, rest := ResourceWalk(g, rs.Rest()), RequestFields(g, todo[1..], all.ending);
        ghost var mid, before := sink.calls, n;
        var stop;
        stop, n := DecodeResourceSpans(g, rs, sink, n);
        Absorb(sink.verdict, old(sink.calls), done, mid, before, walk, stop, sink.calls, n - before, rest);
        if stop < 0 { return if n != 0 then n else -1, stop, n; }
        if stop > 0 { return n, stop, n; }
        done := Then(done, walk);
      } else {
        var ok := r.Skip(wire);
        if !ok { return if n != 0 then n else -1, -1, n; }
      }
      todo := todo[1..];
    }
    return n, 0, n;
  }
}
