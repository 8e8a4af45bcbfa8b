/** A spilled line is a JSON object: an independent reader gives every field back, whatever its text. */
module SpillJson {
  import opened Bytes
  import opened Json
  import opened SpillLine
  import opened SpillRecord
  import opened AgentRecords
  import Attributes
  import AttributeMeaning

  /** Text in C characters. */
  predicate IsText(s: string) {
    forall i :: 0 <= i < |s| ==> s[i] as int < 256
  }

  lemma CharReads(c: char, tail: string)
    requires c as int < 256
    ensures ReadChars(EscapeChar(c) + tail) == Prefixed([c], ReadChars(tail))
  {
    if c as int < 0x80 {
      assert EscapeChar(c) == Attributes.EscapeAscii(c as int);
      hide EscapeChar;
      AttributeMeaning.AsciiReads(c as int, tail);
    } else {
      assert EscapeChar(c) == [c] && ([c] + tail)[1..] == tail;
    }
  }

  /** The reader gives escaped text back as it was, tabs, line breaks and control characters included. */
  lemma {:induction false} EscapeReads(s: string, rest: string)
    requires IsText(s)
    ensures ReadChars(Escape(s) + ("\"" + rest)) == Ok(s, rest)
  {
    var tail := "\"" + rest;
    if s == "" {
      assert Escape(s) + tail == tail && tail[1..] == rest;
    } else {
      hide EscapeChar, ReadChars;
      Associates(EscapeChar(s[0]), Escape(s[1..]), tail);
      CharReads(s[0], Escape(s[1..]) + tail);
      EscapeReads(s[1..], rest);
      AttributeMeaning.PrefixedOk([s[0]], s[1..], rest);
      assert [s[0]] + s[1..] == s;
    }
  }

  lemma {:induction false} KeyIsRaw(key: string)
    requires forall i :: 0 <= i < |key| ==> KeyChar(key[i])
    ensures Escape(key) == key && IsText(key)
  {
    if key != "" { KeyIsRaw(key[1..]); }
  }

  // ------------------------ Entries ------------------------

  /** What one entry says. */
  function MemberOf(e: Entry): Member {
    match e
    case Text(key, v) => Member(key, JString(v))
    case Num(key, t) => Member(key, Numeral(t))
  }

  function Members(es: seq<Entry>): (ms: seq<Member>)
    ensures |ms| == |es| && forall i :: 0 <= i < |es| ==> ms[i] == MemberOf(es[i])
  {
    seq(|es|, i requires 0 <= i < |es| => MemberOf(es[i]))
  }

  predicate Sayable(e: Entry) {
    && PlainKey(e.key)
    && match e
       case Text(_, v) => IsText(v)
       case Num(_, t) => IsNumber(t)
  }

  predicate AllSayable(es: seq<Entry>) {
    forall i :: 0 <= i < |es| ==> Sayable(es[i])
  }

  lemma ValueReads(e: Entry, rest: string)
    requires Sayable(e) && Closes(rest)
    ensures ReadValue(ValueText(e) + rest) == Ok(MemberOf(e).value, rest)
  {
    hide ReadChars, Escape, IsNumber;
    match e
    case Text(_, v) =>
      EscapeReads(v, rest);
      var t := ValueText(e) + rest;
      assert t[0] == '"' && t[1..] == Escape(v) + ("\"" + rest);
    case Num(_, t) => AttributeMeaning.NumberReads(t, rest);
  }

  lemma EntryReads(e: Entry, rest: string)
    requires Sayable(e) && Closes(rest)
    ensures ReadMember(PrintEntry(e) + rest) == Ok(MemberOf(e), rest)
  {
    hide ReadChars, ReadValue, Escape, ValueText;
    var after := ":" + (ValueText(e) + rest);
    var s := PrintEntry(e) + rest;
    KeyIsRaw(e.key);
    EscapeReads(e.key, after);
    assert s == "\"" + (e.key + ("\"" + after));
    assert s[0] == '"' && s[1..] == e.key + ("\"" + after) && SkipWs(s) == s;
    assert after[0] == ':' && SkipWs(after) == after && after[1..] == ValueText(e) + rest;
    ValueReads(e, rest);
  }

  lemma {:induction false} EntriesRead(es: seq<Entry>)
    requires es != [] && AllSayable(es)
    ensures ReadMembers(PrintEntry(es[0]) + PrintTail(es[1..])) == Ok(Members(es), "")
  {
    hide PrintEntry, ReadMember, MemberOf, Sayable;
    var e, tail := es[0], PrintTail(es[1..]);
    assert Closes(tail);
    EntryReads(e, tail);
    if |es| == 1 {
      assert tail == "}" + "" && Members(es) == [MemberOf(e)];
      AttributeMeaning.LastMember(PrintEntry(e) + tail, MemberOf(e), "");
    } else {
      var more := PrintEntry(es[1]) + PrintTail(es[2..]);
      assert es[1..][0] == es[1] && es[1..][1..] == es[2..];
      assert tail == "," + more;
      EntriesRead(es[1..]);
      assert Members(es) == [MemberOf(e)] + Members(es[1..]);
      AttributeMeaning.NextMember(PrintEntry(e) + tail, MemberOf(e), more, Members(es[1..]), "");
    }
  }

  /** A printed line is a JSON object whose members are the entries in order. */
  lemma LineIsJson(es: seq<Entry>)
    requires es != [] && AllSayable(es)
    ensures ReadText(PrintLine(es)) == Ok(JObject(Members(es)), "")
  {
    hide PrintEntry, ReadMembers, ReadElements, ReadChars, NumberLen, PrintTail, Members, Sayable;
    var body := PrintEntry(es[0]) + PrintTail(es[1..]);
    var s := PrintLine(es);
    assert s == "{" + body && s[0] == '{' && s[1..] == body;
    EntryStart(es[0]);
    assert body[0] == '"' && SkipWs(body) == body;
    EntriesRead(es);
  }

  lemma EntryStart(e: Entry)
    ensures PrintEntry(e) != "" && PrintEntry(e)[0] == '"'
  {
    hide ValueText;
  }

  // ------------------------ The agent's lines ------------------------

  /** Text whose escape fits its buffer, so that it is printed. */
  predicate Printed(v: string, cap: nat) {
    IsText(v) && |Escape(v)| < cap
  }

  lemma KindsAreText()
    ensures IsText("metric") && IsText("span") && IsText("otelmetric")
  {
  }

  lemma SchemaIsText(schema: string)
    requires ValidIdentifier(schema)
    ensures IsText(schema)
  {
    KeyIsRaw(schema);
  }

  lemma StampIsText(ts: string)
    requires Stamp(ts)
    ensures IsText(ts)
  {
  }

  lemma PrintedFits(v: string, cap: nat)
    requires Printed(v, cap)
    ensures Fit(v, cap) == v && IsText(v)
  {
  }

  function MetricMembers(schema: string, m: Metric, n: Gauges): seq<Member> {
    [Member("k", JString("metric")), Member("schema", JString(schema)), Member("label", JString(m.labelName)),
     Member("service", JString(m.service)), Member("container_id", JString(m.containerId)),
     Member("pod", JString(m.pod)), Member("pid", JString(m.pid)), Member("comm", JString(m.comm)),
     Member("runtime", JString(m.runtime)), Member("cpu", Numeral(n.cpu)), Member("rss", Numeral(n.rss)),
     Member("threads", Numeral(n.threads))]
  }

  lemma MetricMembersAre(schema: string, m: Metric, n: Gauges)
    requires Printed(m.labelName, 200) && Printed(m.service, 512) && Printed(m.containerId, 160) && Printed(m.pod, 512)
    requires Printed(m.pid, 160) && Printed(m.comm, 128) && Printed(m.runtime, 64)
    ensures Members(MetricEntries(schema, m, n)) == MetricMembers(schema, m, n)
  {
    hide Fit, Numeral, Printed;
    PrintedFits(m.labelName, 200); PrintedFits(m.service, 512); PrintedFits(m.containerId, 160);
    PrintedFits(m.pod, 512); PrintedFits(m.pid, 160); PrintedFits(m.comm, 128); PrintedFits(m.runtime, 64);
    var es, ms := MetricEntries(schema, m, n), MetricMembers(schema, m, n);
    assert |es| == |ms|;
    forall i | 0 <= i < |es| ensures MemberOf(es[i]) == ms[i] {
    }
    assert Members(es) == ms;
  }

  lemma MetricIsSayable(schema: string, m: Metric, n: Gauges)
    requires ValidIdentifier(schema) && IsNumber(n.cpu) && IsNumber(n.rss) && IsNumber(n.threads)
    requires Printed(m.labelName, 200) && Printed(m.service, 512) && Printed(m.containerId, 160) && Printed(m.pod, 512)
    requires Printed(m.pid, 160) && Printed(m.comm, 128) && Printed(m.runtime, 64)
    ensures MetricEntries(schema, m, n) != [] && AllSayable(MetricEntries(schema, m, n))
  {
    hide Fit, IsNumber, PlainKey, Printed, IsText, Stamp, ValidIdentifier;
    PlainKeys();
    SchemaIsText(schema);
    KindsAreText();
    PrintedFits(m.labelName, 200); PrintedFits(m.service, 512); PrintedFits(m.containerId, 160);
    PrintedFits(m.pod, 512); PrintedFits(m.pid, 160); PrintedFits(m.comm, 128); PrintedFits(m.runtime, 64);
  }

  /** The line of a process metric, as any JSON reader sees it. */
  lemma MetricLineSays(schema: string, m: Metric, n: Gauges)
    requires ValidIdentifier(schema) && IsNumber(n.cpu) && IsNumber(n.rss) && IsNumber(n.threads)
    requires Printed(m.labelName, 200) && Printed(m.service, 512) && Printed(m.containerId, 160) && Printed(m.pod, 512)
    requires Printed(m.pid, 160) && Printed(m.comm, 128) && Printed(m.runtime, 64)
    ensures ReadText(MetricLine(schema, m, n))
            == Ok(JObject(MetricMembers(schema, m, n)), "")
  {
    hide MetricEntries, MetricMembers, Members, AllSayable, PrintLine, IsNumber, Printed, ReadText, Stamp;
    MetricIsSayable(schema, m, n);
    MetricMembersAre(schema, m, n);
    LineIsJson(MetricEntries(schema, m, n));
  }

  function SpanMembers(schema: string, sp: Span, duration: string): seq<Member> {
    [Member("k", JString("span")), Member("schema", JString(schema)), Member("label", JString(sp.labelName)),
     Member("ts", JString(sp.ts)), Member("trace_id", JString(sp.traceId)), Member("span_id", JString(sp.spanId)),
     Member("parent_span_id", JString(sp.parentId)), Member("name", JString(sp.name)),
     Member("kind", JString(sp.kind)), Member("service_name", JString(sp.service)),
     Member("scope_name", JString(sp.scope)), Member("duration_ns", Numeral(duration)),
     Member("status_code", JString(sp.statusCode)),
     Member("status_message", JString(sp.statusMessage)),
     Member("attributes", JString(sp.attributes))]
  }

  lemma SpanMembersAre(schema: string, sp: Span, duration: string)
    requires Printed(sp.labelName, 200) && Printed(sp.traceId, 80) && Printed(sp.spanId, 40) && Printed(sp.parentId, 40)
    requires Printed(sp.name, 512) && Printed(sp.kind, 40) && Printed(sp.service, 512) && Printed(sp.scope, 512)
    requires Printed(sp.statusCode, 40) && Printed(sp.statusMessage, 512) && Printed(sp.attributes, 8192)
    ensures Members(SpanEntries(schema, sp, duration)) == SpanMembers(schema, sp, duration)
  {
    hide Fit, Numeral, Printed;
    PrintedFits(sp.labelName, 200); PrintedFits(sp.traceId, 80); PrintedFits(sp.spanId, 40);
    PrintedFits(sp.parentId, 40); PrintedFits(sp.name, 512); PrintedFits(sp.kind, 40); PrintedFits(sp.service, 512);
    PrintedFits(sp.scope, 512); PrintedFits(sp.statusCode, 40); PrintedFits(sp.statusMessage, 512);
    PrintedFits(sp.attributes, 8192);
    var es, ms := SpanEntries(schema, sp, duration), SpanMembers(schema, sp, duration);
    assert |es| == |ms|;
    forall i | 0 <= i < |es| ensures MemberOf(es[i]) == ms[i] {
    }
    assert Members(es) == ms;
  }

  lemma SpanIsSayable(schema: string, sp: Span, duration: string)
    requires ValidIdentifier(schema) && Stamp(sp.ts) && IsNumber(duration)
    requires Printed(sp.labelName, 200) && Printed(sp.traceId, 80) && Printed(sp.spanId, 40) && Printed(sp.parentId, 40)
    requires Printed(sp.name, 512) && Printed(sp.kind, 40) && Printed(sp.service, 512) && Printed(sp.scope, 512)
    requires Printed(sp.statusCode, 40) && Printed(sp.statusMessage, 512) && Printed(sp.attributes, 8192)
    ensures SpanEntries(schema, sp, duration) != [] && AllSayable(SpanEntries(schema, sp, duration))
  {
    hide Fit, IsNumber, PlainKey, Printed, IsText, Stamp, ValidIdentifier;
    PlainKeys();
    SpanKeys();
    SchemaIsText(schema);
    KindsAreText();
    StampIsText(sp.ts);
    PrintedFits(sp.labelName, 200); PrintedFits(sp.traceId, 80); PrintedFits(sp.spanId, 40);
    PrintedFits(sp.parentId, 40); PrintedFits(sp.name, 512); PrintedFits(sp.kind, 40); PrintedFits(sp.service, 512);
    PrintedFits(sp.scope, 512); PrintedFits(sp.statusCode, 40); PrintedFits(sp.statusMessage, 512);
    PrintedFits(sp.attributes, 8192);
  }

  /** The line of a span likewise. */
  lemma SpanLineSays(schema: string, sp: Span, duration: string)
    requires ValidIdentifier(schema) && Stamp(sp.ts) && IsNumber(duration)
    requires Printed(sp.labelName, 200) && Printed(sp.traceId, 80) && Printed(sp.spanId, 40) && Printed(sp.parentId, 40)
    requires Printed(sp.name, 512) && Printed(sp.kind, 40) && Printed(sp.service, 512) && Printed(sp.scope, 512)
    requires Printed(sp.statusCode, 40) && Printed(sp.statusMessage, 512) && Printed(sp.attributes, 8192)
    ensures ReadText(SpanLine(schema, sp, duration))
            == Ok(JObject(SpanMembers(schema, sp, duration)), "")
  {
    hide SpanEntries, SpanMembers, Members, AllSayable, PrintLine, IsNumber, Printed, ReadText, Stamp;
    SpanIsSayable(schema, sp, duration);
    SpanMembersAre(schema, sp, duration);
    LineIsJson(SpanEntries(schema, sp, duration));
  }

  function PointMembers(schema: string, p: Point, value: string, count: string): seq<Member> {
    [Member("k", JString("otelmetric")), Member("schema", JString(schema)), Member("label", JString(p.labelName)),
     Member("ts", JString(p.ts)), Member("service_name", JString(p.service)), Member("scope_name", JString(p.scope)),
     Member("pid", JString(p.pidKey)), Member("metric_name", JString(p.name)),
     Member("metric_type", JString(p.kind)), Member("description", JString(p.description)),
     Member("unit", JString(p.unit)), Member("value", Numeral(value)), Member("count", Numeral(count)),
     Member("attributes", JString(p.attributes))]
  }

  lemma PointMembersAre(schema: string, p: Point, value: string, count: string)
    requires Printed(p.labelName, 200) && Printed(p.service, 512) && Printed(p.scope, 512) && Printed(p.pidKey, 160)
    requires Printed(p.name, 512) && Printed(p.kind, 32) && Printed(p.description, 512) && Printed(p.unit, 128)
    requires Printed(p.attributes, 2200)
    ensures Members(PointEntries(schema, p, value, count)) == PointMembers(schema, p, value, count)
  {
    hide Fit, Numeral, Printed;
    PrintedFits(p.labelName, 200); PrintedFits(p.service, 512); PrintedFits(p.scope, 512); PrintedFits(p.pidKey, 160);
    PrintedFits(p.name, 512); PrintedFits(p.kind, 32); PrintedFits(p.description, 512); PrintedFits(p.unit, 128);
    PrintedFits(p.attributes, 2200);
    var es, ms := PointEntries(schema, p, value, count), PointMembers(schema, p, value, count);
    assert |es| == |ms|;
    forall i | 0 <= i < |es| ensures MemberOf(es[i]) == ms[i] {
    }
    assert Members(es) == ms;
  }

  lemma RawIsSayable(key: string, v: string)
    requires PlainKey(key) && IsText(v)
    ensures Sayable(Text(key, v))
  {
  }

  lemma TextIsSayable(key: string, v: string, cap: nat)
    requires PlainKey(key) && Printed(v, cap)
    ensures Sayable(Text(key, Fit(v, cap)))
  {
    PrintedFits(v, cap);
  }

  lemma NumberIsSayable(key: string, t: string)
    requires PlainKey(key) && IsNumber(t)
    ensures Sayable(Num(key, t))
  {
  }

  lemma PointFrontIsSayable(schema: string, p: Point, value: string, count: string)
    requires ValidIdentifier(schema) && Stamp(p.ts) && IsNumber(value) && IsNumber(count)
    requires Printed(p.labelName, 200) && Printed(p.service, 512) && Printed(p.scope, 512) && Printed(p.pidKey, 160)
    requires Printed(p.name, 512) && Printed(p.kind, 32) && Printed(p.description, 512) && Printed(p.unit, 128)
    requires Printed(p.attributes, 2200)
    ensures var es := PointEntries(schema, p, value, count); forall i :: 0 <= i < 7 ==> Sayable(es[i])
  {
    hide Fit, IsNumber, PlainKey, Printed, IsText, Stamp, ValidIdentifier, Sayable;
    PlainKeys();
    SpanKeys();
    SchemaIsText(schema);
    KindsAreText();
    StampIsText(p.ts);
    RawIsSayable("k", "otelmetric"); RawIsSayable("schema", schema); RawIsSayable("ts", p.ts);
    TextIsSayable("label", p.labelName, 200); TextIsSayable("service_name", p.service, 512);
    TextIsSayable("scope_name", p.scope, 512); TextIsSayable("pid", p.pidKey, 160);
  }

  lemma PointBackIsSayable(schema: string, p: Point, value: string, count: string)
    requires ValidIdentifier(schema) && Stamp(p.ts) && IsNumber(value) && IsNumber(count)
    requires Printed(p.labelName, 200) && Printed(p.service, 512) && Printed(p.scope, 512) && Printed(p.pidKey, 160)
    requires Printed(p.name, 512) && Printed(p.kind, 32) && Printed(p.description, 512) && Printed(p.unit, 128)
    requires Printed(p.attributes, 2200)
    ensures var es := PointEntries(schema, p, value, count); |es| == 14 && forall i :: 7 <= i < 14 ==> Sayable(es[i])
  {
    hide Fit, IsNumber, PlainKey, Printed, IsText, Sayable;
    SpanKeys();
    PointKeys();
    TextIsSayable("metric_name", p.name, 512); TextIsSayable("metric_type", p.kind, 32);
    TextIsSayable("description", p.description, 512); TextIsSayable("unit", p.unit, 128);
    TextIsSayable("attributes", p.attributes, 2200);
    NumberIsSayable("value", value); NumberIsSayable("count", count);
  }

  lemma PointIsSayable(schema: string, p: Point, value: string, count: string)
    requires ValidIdentifier(schema) && Stamp(p.ts) && IsNumber(value) && IsNumber(count)
    requires Printed(p.labelName, 200) && Printed(p.service, 512) && Printed(p.scope, 512) && Printed(p.pidKey, 160)
    requires Printed(p.name, 512) && Printed(p.kind, 32) && Printed(p.description, 512) && Printed(p.unit, 128)
    requires Printed(p.attributes, 2200)
    ensures PointEntries(schema, p, value, count) != [] && AllSayable(PointEntries(schema, p, value, count))
  {
    hide PointEntries, Sayable, Printed, IsNumber, Stamp, ValidIdentifier;
    PointFrontIsSayable(schema, p, value, count);
    PointBackIsSayable(schema, p, value, count);
  }

  /** The line of an OTLP metric likewise, although nothing ever reads it. */
  lemma PointLineSays(schema: string, p: Point, value: string, count: string)
    requires ValidIdentifier(schema) && Stamp(p.ts) && IsNumber(value) && IsNumber(count)
    requires Printed(p.labelName, 200) && Printed(p.service, 512) && Printed(p.scope, 512) && Printed(p.pidKey, 160)
    requires Printed(p.name, 512) && Printed(p.kind, 32) && Printed(p.description, 512) && Printed(p.unit, 128)
    requires Printed(p.attributes, 2200)
    ensures ReadText(PointLine(schema, p, value, count))
            == Ok(JObject(PointMembers(schema, p, value, count)), "")
  {
    hide PointEntries, PointMembers, Members, AllSayable, PrintLine, IsNumber, Printed, ReadText, Stamp;
    PointIsSayable(schema, p, value, count);
    PointMembersAre(schema, p, value, count);
    LineIsJson(PointEntries(schema, p, value, count));
  }

  lemma PointKeys()
    ensures PlainKey("metric_name") && PlainKey("metric_type") && PlainKey("description") && PlainKey("unit")
    ensures PlainKey("value") && PlainKey("count")
  {
  }
}
