/** The three kinds of lines the agent spills and replays (agentd.c). */
module AgentRecords {
  import opened Bytes
  import opened SpillLine
  import opened SpillRecord

  /** What an escape buffer of `cap` bytes ends up printing: all of the field or nothing. */
  function Fit(v: string, cap: nat): string {
    if |Escape(v)| < cap then v else ""
  }

  lemma FitIsShort(v: string, cap: nat)
    requires cap > 0
    ensures |Escape(Fit(v, cap))| < cap
  {
  }

  /** validate_identifier. */
  predicate ValidIdentifier(s: string) {
    0 < |s| < 100 && forall i :: 0 <= i < |s| ==> KeyChar(s[i])
  }

  const OTHERS := "0123456789_"

  lemma UpperLetters(c: char)
    ensures c in UPPER <==> 'A' <= c <= 'Z'
  {
    assert |UPPER| == 26 && |LOWER| == 26;
    hide UPPER, LOWER;
    if 'A' <= c <= 'Z' { Alphabets(c as int - 'A' as int); }
    forall k | 0 <= k < 26 ensures 'A' <= UPPER[k] <= 'Z' { Alphabets(k); }
  }

  lemma LowerLetters(c: char)
    ensures c in LOWER <==> 'a' <= c <= 'z'
  {
    assert |UPPER| == 26 && |LOWER| == 26;
    hide UPPER, LOWER;
    if 'a' <= c <= 'z' { Alphabets(c as int - 'a' as int); }
    forall k | 0 <= k < 26 ensures 'a' <= LOWER[k] <= 'z' { Alphabets(k); }
  }

  lemma OtherCharacters(c: char)
    ensures c in OTHERS <==> '0' <= c <= '9' || c == '_'
  {
    if '0' <= c <= '9' { assert OTHERS[c as int - '0' as int] == c; }
    assert OTHERS[10] == '_';
  }

  /** Labels and schemas are exactly the texts of 1 to 99 letters, digits and underscores. */
  lemma IdentifiersAre(s: string)
    ensures ValidIdentifier(s)
            <==> 1 <= |s| <= 99 && forall i :: 0 <= i < |s| ==> s[i] in UPPER || s[i] in LOWER || s[i] in OTHERS
  {
    hide UPPER, LOWER, OTHERS;
    forall i | 0 <= i < |s| ensures KeyChar(s[i]) <==> s[i] in UPPER || s[i] in LOWER || s[i] in OTHERS {
      UpperLetters(s[i]);
      LowerLetters(s[i]);
      OtherCharacters(s[i]);
    }
  }

  /** What "%.6f" and "%.9f" write for a time. */
  predicate Stamp(ts: string) {
    0 < |ts| < 64 && forall i :: 0 <= i < |ts| ==> '0' <= ts[i] <= '9' || ts[i] == '.'
  }

  /** The schema and the time stamp are printed as they are: escaping would not change them. */
  lemma {:induction false} StampIsRaw(ts: string)
    requires forall i :: 0 <= i < |ts| ==> '0' <= ts[i] <= '9' || ts[i] == '.'
    ensures Escape(ts) == ts && NoControls(ts)
  {
    if ts != "" { StampIsRaw(ts[1..]); }
  }

  // ------------------------ Process metrics ------------------------

  datatype Metric = Metric(labelName: string, service: string, containerId: string, pod: string, pid: string,
                           comm: string, runtime: string)
  /** The numeric columns as printf writes them. */
  datatype Gauges = Gauges(cpu: string, rss: string, threads: string)

  function MetricEntries(schema: string, m: Metric, n: Gauges): seq<Entry> {
    [Text("k", "metric"), Text("schema", schema), Text("label", Fit(m.labelName, 200)),
     Text("service", Fit(m.service, 512)),
     Text("container_id", Fit(m.containerId, 160)), Text("pod", Fit(m.pod, 512)), Text("pid", Fit(m.pid, 160)),
     Text("comm", Fit(m.comm, 128)), Text("runtime", Fit(m.runtime, 64)),
     Num("cpu", n.cpu), Num("rss", n.rss), Num("threads", n.threads)]
  }

  function MetricLine(schema: string, m: Metric, n: Gauges): string {
    PrintLine(MetricEntries(schema, m, n))
  }

  predicate GaugeTokens(n: Gauges) {
    Token(n.cpu) && Token(n.rss) && Token(n.threads)
  }

  lemma MetricEntriesGood(schema: string, m: Metric, n: Gauges)
    requires GaugeTokens(n)
    ensures AllGood(MetricEntries(schema, m, n))
  {
    hide Fit, Token;
    PlainKeys();
  }

  lemma PlainKeys()
    ensures PlainKey("k") && PlainKey("schema") && PlainKey("label") && PlainKey("service") && PlainKey("container_id")
    ensures PlainKey("pod") && PlainKey("pid") && PlainKey("comm") && PlainKey("runtime") && PlainKey("cpu")
    ensures PlainKey("rss") && PlainKey("threads")
  {
  }

  /** A double as its bit pattern. */
  type Double = u64

  /** What the C library makes of numbers: strtod, the cast to long, and an int printed as text. */
  datatype Libc = Libc(strtod: Probe<Double>, toLong: Double -> int, intText: Double -> string)

  /** A number of a line, 0 when there is none. */
  function NumberOf(line: string, key: string, c: Libc): Double {
    match Search(line, key, c.strtod)
    case None => 0
    case Some(d) => d
  }

  /** The pid column: text, or else a number printed as text, or else "unknown". */
  function PidOf(line: string, c: Libc): string {
    var pid := match Search(line, "pid", StringProbe(80))
               case Some(p) => p
               case None =>
                 match Search(line, "pid", c.strtod)
                 case None => ""
                 case Some(d) => c.intText(d);
    if pid == "" then "unknown" else pid
  }

  /** What replay_line puts into its metric buffers: text lookups into buffers of these sizes. */
  function ReadMetric(line: string, c: Libc): Option<Metric> {
    var labelName := Search(line, "label", StringProbe(100));
    if labelName.None? || !ValidIdentifier(labelName.value) then None
    else Some(Metric(labelName.value, Or(Search(line, "service", StringProbe(256)), ""),
                     Or(Search(line, "container_id", StringProbe(80)), ""),
                     Or(Search(line, "pod", StringProbe(256)), ""),
                     PidOf(line, c), Or(Search(line, "comm", StringProbe(64)), ""),
                     Or(Search(line, "runtime", StringProbe(32)), "other")))
  }

  function Or(o: Option<string>, default: string): string {
    match o
    case None => default
    case Some(v) => v
  }

  /** The sizes the agent's own buffers already enforce. */
  predicate MetricFits(m: Metric) {
    && ValidIdentifier(m.labelName)
    && Clean(m.service, 256) && Clean(m.containerId, 80) && Clean(m.pod, 256) && Clean(m.pid, 80)
    && Clean(m.comm, 64) && Clean(m.runtime, 32)
  }

  predicate Clean(v: string, cap: nat) {
    NoControls(v) && |v| < cap
  }

  lemma CleanLookup(es: seq<Entry>, i: nat, v: string, cap: nat, escapeCap: nat)
    requires i < |es| && AllGood(es) && es[i] == Text(es[i].key, Fit(v, escapeCap))
    requires forall j :: 0 <= j < i ==> es[j].key != es[i].key
    requires cap > 0 && Clean(v, cap) && |Escape(v)| < escapeCap
    ensures Search(PrintLine(es), es[i].key, StringProbe(cap)) == Some(v)
  {
    hide Search, PrintLine, Garble, Escape;
    TextLookup(es, i, cap);
    FieldSurvivesIff(v, cap);
  }

  /** A process metric of the agent's own sizes, without control characters, is replayed exactly,
      even when its fields hold quotes, backslashes or text that looks like other fields. */
  lemma MetricRoundTrip(schema: string, m: Metric, n: Gauges, c: Libc)
    requires ValidIdentifier(schema) && GaugeTokens(n) && MetricFits(m) && m.pid != ""
    ensures ReadMetric(MetricLine(schema, m, n), c) == Some(m)
  {
    hide Search, PrintLine, Escape, Fit, NoControls, Token, MetricEntries;
    MetricLookups(schema, m, n);
    OriginLookups(schema, m, n);
    MoreMetricLookups(schema, m, n);
  }

  lemma MetricLookups(schema: string, m: Metric, n: Gauges)
    requires GaugeTokens(n) && MetricFits(m)
    ensures var line := MetricLine(schema, m, n);
            && Search(line, "label", StringProbe(100)) == Some(m.labelName)
            && Search(line, "service", StringProbe(256)) == Some(m.service)
  {
    hide Search, PrintLine, AllGood, Escape, Fit, NoControls, Token;
    var es := MetricEntries(schema, m, n);
    MetricEntriesGood(schema, m, n);
    IdentifierIsClean(m.labelName);
    Doubles(m.labelName, 100); CleanLookup(es, 2, m.labelName, 100, 200);
    Doubles(m.service, 256); CleanLookup(es, 3, m.service, 256, 512);
  }

  lemma OriginLookups(schema: string, m: Metric, n: Gauges)
    requires GaugeTokens(n) && MetricFits(m)
    ensures var line := MetricLine(schema, m, n);
            && Search(line, "container_id", StringProbe(80)) == Some(m.containerId)
            && Search(line, "pod", StringProbe(256)) == Some(m.pod)
  {
    hide Search, PrintLine, AllGood, Escape, Fit, NoControls, Token;
    var es := MetricEntries(schema, m, n);
    MetricEntriesGood(schema, m, n);
    Doubles(m.containerId, 80); CleanLookup(es, 4, m.containerId, 80, 160);
    Doubles(m.pod, 256); CleanLookup(es, 5, m.pod, 256, 512);
  }

  lemma MoreMetricLookups(schema: string, m: Metric, n: Gauges)
    requires GaugeTokens(n) && MetricFits(m)
    ensures var line := MetricLine(schema, m, n);
            && Search(line, "pid", StringProbe(80)) == Some(m.pid)
            && Search(line, "comm", StringProbe(64)) == Some(m.comm)
            && Search(line, "runtime", StringProbe(32)) == Some(m.runtime)
  {
    hide Search, PrintLine, AllGood, Escape, Fit, NoControls, Token;
    var es := MetricEntries(schema, m, n);
    MetricEntriesGood(schema, m, n);
    Doubles(m.pid, 80); CleanLookup(es, 6, m.pid, 80, 160);
    Doubles(m.comm, 64); CleanLookup(es, 7, m.comm, 64, 128);
    Doubles(m.runtime, 32); CleanLookup(es, 8, m.runtime, 32, 64);
  }

  lemma IdentifierIsClean(s: string)
    requires ValidIdentifier(s)
    ensures NoControls(s)
  {
  }

  lemma Doubles(v: string, cap: nat)
    requires Clean(v, cap)
    ensures |Escape(v)| < 2 * cap
  {
    EscapeDoubles(v);
  }

  /** A number is read where it was printed, by whatever reads it from its text (strtod). */
  lemma MetricNumbers<T>(schema: string, m: Metric, n: Gauges, i: nat, probe: Probe<T>, x: T)
    requires GaugeTokens(n) && 9 <= i < 12
    requires forall rest :: Ends(rest) ==> probe([n.cpu, n.rss, n.threads][i - 9] + rest) == Some(x)
    ensures Search(MetricLine(schema, m, n), ["cpu", "rss", "threads"][i - 9], probe) == Some(x)
  {
    hide Search, PrintLine, AllGood, Fit, Token, PrintTail;
    var es := MetricEntries(schema, m, n);
    MetricEntriesGood(schema, m, n);
    LineLookup(es, i, probe);
  }

  /** strtod reads a printed number alike whatever ends it. */
  ghost predicate ReadsAlike(token: string, c: Libc) {
    forall rest :: Ends(rest) ==> c.strtod(token + rest) == Some(ReadBack(token, c))
  }

  function ReadBack(token: string, c: Libc): Double {
    match c.strtod(token + "}")
    case None => 0
    case Some(d) => d
  }

  /** The three numbers of a metric line come back as strtod reads them. */
  lemma GaugesReturn(schema: string, m: Metric, n: Gauges, c: Libc)
    requires GaugeTokens(n) && ReadsAlike(n.cpu, c) && ReadsAlike(n.rss, c) && ReadsAlike(n.threads, c)
    ensures var line := MetricLine(schema, m, n);
            && NumberOf(line, "cpu", c) == ReadBack(n.cpu, c)
            && NumberOf(line, "rss", c) == ReadBack(n.rss, c)
            && NumberOf(line, "threads", c) == ReadBack(n.threads, c)
  {
    hide Search, MetricLine, ReadBack, Token;
    MetricNumbers(schema, m, n, 9, c.strtod, ReadBack(n.cpu, c));
    MetricNumbers(schema, m, n, 10, c.strtod, ReadBack(n.rss, c));
    MetricNumbers(schema, m, n, 11, c.strtod, ReadBack(n.threads, c));
  }

  // ------------------------ Lengths ------------------------

  function Total(es: seq<Entry>): nat {
    if es == [] then 0 else |PrintEntry(es[0])| + Total(es[1..])
  }

  lemma {:induction false} TailLength(es: seq<Entry>)
    ensures |PrintTail(es)| == Total(es) + |es| + 1
  {
    hide PrintEntry;
    if es != [] { TailLength(es[1..]); }
  }

  function Sum(ns: seq<nat>): nat {
    if ns == [] then 0 else ns[0] + Sum(ns[1..])
  }

  lemma {:induction false} TotalBound(es: seq<Entry>, bounds: seq<nat>)
    requires |es| == |bounds| && forall i :: 0 <= i < |es| ==> |PrintEntry(es[i])| <= bounds[i]
    ensures Total(es) <= Sum(bounds)
  {
    hide PrintEntry;
    if es != [] { TotalBound(es[1..], bounds[1..]); }
  }

  lemma LineLength(es: seq<Entry>, bounds: seq<nat>)
    requires es != [] && |es| == |bounds| && forall i :: 0 <= i < |es| ==> |PrintEntry(es[i])| <= bounds[i]
    ensures |PrintLine(es)| <= Sum(bounds) + |es| + 1
  {
    hide PrintEntry;
    TailLength(es[1..]);
    TotalBound(es, bounds);
  }

  lemma TextLength(key: string, v: string, cap: nat)
    requires cap > 0
    ensures |PrintEntry(Text(key, Fit(v, cap)))| <= |key| + 4 + cap
  {
    hide Escape;
    FitIsShort(v, cap);
  }

  lemma RawLength(key: string, v: string)
    requires PlainKey(v)
    ensures |PrintEntry(Text(key, v))| == |key| + 5 + |v|
  {
    IdentifierEscapes(v);
  }

  lemma {:induction false} IdentifierEscapes(v: string)
    requires forall i :: 0 <= i < |v| ==> KeyChar(v[i])
    ensures Escape(v) == v
  {
    if v != "" { IdentifierEscapes(v[1..]); }
  }

  /** The longest possible metric line leaves 28 of the 2047 usable bytes free. */
  lemma MetricLineIsNeverCut(schema: string, m: Metric, n: Gauges)
    requires ValidIdentifier(schema) && |n.cpu| <= 17 && |n.rss| <= 20 && |n.threads| <= 20
    ensures |MetricLine(schema, m, n)| <= 2019
  {
    hide Fit, PrintEntry, PrintLine, Sum;
    var es := MetricEntries(schema, m, n);
    var bounds: seq<nat> := [12, 110, 209, 523, 176, 519, 167, 136, 75, 23, 26, 30];
    RawLength("k", "metric");
    RawLength("schema", schema);
    TextLength("label", m.labelName, 200);
    TextLength("service", m.service, 512);
    TextLength("container_id", m.containerId, 160);
    TextLength("pod", m.pod, 512);
    TextLength("pid", m.pid, 160);
    TextLength("comm", m.comm, 128);
    TextLength("runtime", m.runtime, 64);
    NumLength("cpu", n.cpu);
    NumLength("rss", n.rss);
    NumLength("threads", n.threads);
    LineLength(es, bounds);
    MetricSum();
  }

  lemma MetricSum()
    ensures Sum([12, 110, 209, 523, 176, 519, 167, 136, 75, 23, 26, 30]) == 2006
  {
  }

  lemma NumLength(key: string, t: string)
    ensures |PrintEntry(Num(key, t))| == |key| + 3 + |t|
  {
  }

  // ------------------------ Spans ------------------------

  datatype Span = Span(labelName: string, ts: string, traceId: string, spanId: string, parentId: string, name: string,
                       kind: string, service: string, scope: string, statusCode: string, statusMessage: string,
                       attributes: string)

  function SpanEntries(schema: string, sp: Span, duration: string): seq<Entry> {
    [Text("k", "span"), Text("schema", schema), Text("label", Fit(sp.labelName, 200)), Text("ts", sp.ts),
     Text("trace_id", Fit(sp.traceId, 80)), Text("span_id", Fit(sp.spanId, 40)),
     Text("parent_span_id", Fit(sp.parentId, 40)),
     Text("name", Fit(sp.name, 512)), Text("kind", Fit(sp.kind, 40)), Text("service_name", Fit(sp.service, 512)),
     Text("scope_name", Fit(sp.scope, 512)), Num("duration_ns", duration), Text("status_code", Fit(sp.statusCode, 40)),
     Text("status_message", Fit(sp.statusMessage, 512)), Text("attributes", Fit(sp.attributes, 8192))]
  }

  function SpanLine(schema: string, sp: Span, duration: string): string {
    PrintLine(SpanEntries(schema, sp, duration))
  }

  lemma SpanEntriesGood(schema: string, sp: Span, duration: string)
    requires Token(duration)
    ensures AllGood(SpanEntries(schema, sp, duration))
  {
    hide Fit, Token;
    PlainKeys();
    SpanKeys();
  }

  lemma SpanKeys()
    ensures PlainKey("ts") && PlainKey("trace_id") && PlainKey("span_id") && PlainKey("parent_span_id")
            && PlainKey("name")
    ensures PlainKey("kind") && PlainKey("service_name") && PlainKey("scope_name") && PlainKey("duration_ns")
    ensures PlainKey("status_code") && PlainKey("status_message") && PlainKey("attributes")
  {
  }

  function ReadSpan(line: string): Option<Span> {
    var labelName := Search(line, "label", StringProbe(100));
    if labelName.None? || !ValidIdentifier(labelName.value) then None
    else Some(Span(labelName.value, Or(Search(line, "ts", StringProbe(64)), ""),
                   Or(Search(line, "trace_id", StringProbe(33)), ""), Or(Search(line, "span_id", StringProbe(17)), ""),
                   Or(Search(line, "parent_span_id", StringProbe(17)), ""),
                   Or(Search(line, "name", StringProbe(512)), ""),
                   Or(Search(line, "kind", StringProbe(40)), "INTERNAL"),
                   Or(Search(line, "service_name", StringProbe(256)), ""),
                   Or(Search(line, "scope_name", StringProbe(256)), ""),
                   Or(Search(line, "status_code", StringProbe(40)), "UNSET"),
                   Or(Search(line, "status_message", StringProbe(512)), ""),
                   OrObject(Or(Search(line, "attributes", StringProbe(8192)), ""))))
  }

  function OrObject(text: string): string {
    if text == "" then "{}" else text
  }

  /** The agent's own sizes, and the escapes that may not fit their buffers. */
  predicate SpanFits(sp: Span) {
    && ValidIdentifier(sp.labelName)
    && Stamp(sp.ts) && Clean(sp.traceId, 33) && Clean(sp.spanId, 17) && Clean(sp.parentId, 17)
    && Clean(sp.name, 512) && Clean(sp.kind, 20) && Clean(sp.service, 256) && Clean(sp.scope, 256)
    && Clean(sp.statusCode, 20) && Clean(sp.statusMessage, 512) && Clean(sp.attributes, 8192) && sp.attributes != ""
    && |Escape(sp.name)| < 512 && |Escape(sp.statusMessage)| < 512 && |Escape(sp.attributes)| < 8192
  }

  /** A span whose text has no control characters and whose escapes fit is replayed exactly. */
  lemma SpanRoundTrip(schema: string, sp: Span, duration: string)
    requires ValidIdentifier(schema) && Token(duration) && SpanFits(sp)
    ensures ReadSpan(SpanLine(schema, sp, duration)) == Some(sp)
  {
    hide Search, PrintLine, Escape, Fit, NoControls, Token, SpanEntries;
    SpanLabel(schema, sp, duration);
    SpanTraceId(schema, sp, duration);
    SpanOwnId(schema, sp, duration);
    SpanParentId(schema, sp, duration);
    SpanName(schema, sp, duration);
    SpanKindName(schema, sp, duration);
    SpanService(schema, sp, duration);
    SpanScope(schema, sp, duration);
    SpanStatus(schema, sp, duration);
    SpanMessage(schema, sp, duration);
    SpanAttributes(schema, sp, duration);
  }

  lemma SpanLabel(schema: string, sp: Span, duration: string)
    requires Token(duration) && SpanFits(sp)
    ensures var line := SpanLine(schema, sp, duration);
            && Search(line, "label", StringProbe(100)) == Some(sp.labelName)
            && Search(line, "ts", StringProbe(64)) == Some(sp.ts)
  {
    hide Search, PrintLine, AllGood, Escape, Fit, NoControls, Token;
    var es := SpanEntries(schema, sp, duration);
    SpanEntriesGood(schema, sp, duration);
    IdentifierIsClean(sp.labelName);
    Doubles(sp.labelName, 100); CleanLookup(es, 2, sp.labelName, 100, 200);
    StampIsRaw(sp.ts);
    TextLookup(es, 3, 64); FieldSurvivesIff(sp.ts, 64);
  }

  lemma SpanTraceId(schema: string, sp: Span, duration: string)
    requires Token(duration) && SpanFits(sp)
    ensures Search(SpanLine(schema, sp, duration), "trace_id", StringProbe(33)) == Some(sp.traceId)
  {
    hide Search, PrintLine, AllGood, Escape, Fit, NoControls, Token;
    SpanEntriesGood(schema, sp, duration);
    Doubles(sp.traceId, 33);
    CleanLookup(SpanEntries(schema, sp, duration), 4, sp.traceId, 33, 80);
  }

  lemma SpanOwnId(schema: string, sp: Span, duration: string)
    requires Token(duration) && SpanFits(sp)
    ensures Search(SpanLine(schema, sp, duration), "span_id", StringProbe(17)) == Some(sp.spanId)
  {
    hide Search, PrintLine, AllGood, Escape, Fit, NoControls, Token;
    SpanEntriesGood(schema, sp, duration);
    Doubles(sp.spanId, 17);
    CleanLookup(SpanEntries(schema, sp, duration), 5, sp.spanId, 17, 40);
  }

  lemma SpanParentId(schema: string, sp: Span, duration: string)
    requires Token(duration) && SpanFits(sp)
    ensures Search(SpanLine(schema, sp, duration), "parent_span_id", StringProbe(17)) == Some(sp.parentId)
  {
    hide Search, PrintLine, AllGood, Escape, Fit, NoControls, Token;
    SpanEntriesGood(schema, sp, duration);
    Doubles(sp.parentId, 17);
    CleanLookup(SpanEntries(schema, sp, duration), 6, sp.parentId, 17, 40);
  }

  lemma SpanName(schema: string, sp: Span, duration: string)
    requires Token(duration) && SpanFits(sp)
    ensures Search(SpanLine(schema, sp, duration), "name", StringProbe(512)) == Some(sp.name)
  {
    hide Search, PrintLine, AllGood, Escape, Fit, NoControls, Token;
    SpanEntriesGood(schema, sp, duration);
    CleanLookup(SpanEntries(schema, sp, duration), 7, sp.name, 512, 512);
  }

  lemma SpanKindName(schema: string, sp: Span, duration: string)
    requires Token(duration) && SpanFits(sp)
    ensures Search(SpanLine(schema, sp, duration), "kind", StringProbe(40)) == Some(sp.kind)
  {
    hide Search, PrintLine, AllGood, Escape, Fit, NoControls, Token;
    SpanEntriesGood(schema, sp, duration);
    Doubles(sp.kind, 20);
    CleanLookup(SpanEntries(schema, sp, duration), 8, sp.kind, 40, 40);
  }

  lemma SpanService(schema: string, sp: Span, duration: string)
    requires Token(duration) && SpanFits(sp)
    ensures Search(SpanLine(schema, sp, duration), "service_name", StringProbe(256)) == Some(sp.service)
  {
    hide Search, PrintLine, AllGood, Escape, Fit, NoControls, Token;
    SpanEntriesGood(schema, sp, duration);
    Doubles(sp.service, 256);
    CleanLookup(SpanEntries(schema, sp, duration), 9, sp.service, 256, 512);
  }

  lemma SpanScope(schema: string, sp: Span, duration: string)
    requires Token(duration) && SpanFits(sp)
    ensures Search(SpanLine(schema, sp, duration), "scope_name", StringProbe(256)) == Some(sp.scope)
  {
    hide Search, PrintLine, AllGood, Escape, Fit, NoControls, Token;
    SpanEntriesGood(schema, sp, duration);
    Doubles(sp.scope, 256);
    CleanLookup(SpanEntries(schema, sp, duration), 10, sp.scope, 256, 512);
  }

  lemma SpanStatus(schema: string, sp: Span, duration: string)
    requires Token(duration) && SpanFits(sp)
    ensures Search(SpanLine(schema, sp, duration), "status_code", StringProbe(40)) == Some(sp.statusCode)
  {
    hide Search, PrintLine, AllGood, Escape, Fit, NoControls, Token;
    SpanEntriesGood(schema, sp, duration);
    Doubles(sp.statusCode, 20);
    CleanLookup(SpanEntries(schema, sp, duration), 12, sp.statusCode, 40, 40);
  }

  lemma SpanMessage(schema: string, sp: Span, duration: string)
    requires Token(duration) && SpanFits(sp)
    ensures Search(SpanLine(schema, sp, duration), "status_message", StringProbe(512)) == Some(sp.statusMessage)
  {
    hide Search, PrintLine, AllGood, Escape, Fit, NoControls, Token;
    SpanEntriesGood(schema, sp, duration);
    CleanLookup(SpanEntries(schema, sp, duration), 13, sp.statusMessage, 512, 512);
  }

  lemma SpanAttributes(schema: string, sp: Span, duration: string)
    requires Token(duration) && SpanFits(sp)
    ensures Search(SpanLine(schema, sp, duration), "attributes", StringProbe(8192)) == Some(sp.attributes)
  {
    hide Search, PrintLine, AllGood, Escape, Fit, NoControls, Token;
    SpanEntriesGood(schema, sp, duration);
    CleanLookup(SpanEntries(schema, sp, duration), 14, sp.attributes, 8192, 8192);
  }

  /** The duration comes back as strtod reads it. */
  lemma DurationReturns(schema: string, sp: Span, duration: string, c: Libc)
    requires Token(duration) && ReadsAlike(duration, c)
    ensures NumberOf(SpanLine(schema, sp, duration), "duration_ns", c) == ReadBack(duration, c)
  {
    hide Search, PrintLine, AllGood, Fit, Token, PrintTail, ReadBack;
    var es := SpanEntries(schema, sp, duration);
    SpanEntriesGood(schema, sp, duration);
    assert Ends(PrintTail(es[12..]));
    LineLookup(es, 11, c.strtod);
  }

  /** A line with nothing but its kind and a label is read with the defaults of the other columns. */
  lemma MissingFieldsDefault(kind: string, labelName: string, c: Libc)
    requires ValidIdentifier(labelName)
    ensures var line := PrintLine([Text("k", kind), Text("label", labelName)]);
            && ReadMetric(line, c) == Some(Metric(labelName, "", "", "", "unknown", "", "other"))
            && ReadSpan(line)
               == Some(Span(labelName, "", "", "", "", "", "INTERNAL", "", "", "UNSET", "", "{}"))
            && NumberOf(line, "cpu", c) == NumberOf(line, "duration_ns", c) == 0
  {
    hide Search, PrintLine, PlainKey, ValidIdentifier;
    PlainKeys();
    SpanKeys();
    var es := [Text("k", kind), Text("label", labelName)];
    LabelReturns(es, labelName);
    OnlyLabel(es, c);
    NoText(es, "service", 256); NoText(es, "container_id", 80); NoText(es, "pod", 256); NoText(es, "pid", 80);
    NoText(es, "comm", 64); NoText(es, "runtime", 32);
    NoText(es, "ts", 64); NoText(es, "trace_id", 33); NoText(es, "span_id", 17); NoText(es, "parent_span_id", 17);
    NoText(es, "name", 512); NoText(es, "kind", 40); NoText(es, "service_name", 256); NoText(es, "scope_name", 256);
    NoText(es, "status_code", 40); NoText(es, "status_message", 512); NoText(es, "attributes", 8192);
  }

  lemma LabelReturns(es: seq<Entry>, labelName: string)
    requires |es| == 2 && AllGood(es) && es[0].key == "k" && es[1] == Text("label", labelName)
    requires ValidIdentifier(labelName)
    ensures Search(PrintLine(es), "label", StringProbe(100)) == Some(labelName)
  {
    hide Search, PrintLine, AllGood, Garble;
    IdentifierIsClean(labelName);
    TextLookup(es, 1, 100);
    FieldSurvivesIff(labelName, 100);
  }

  lemma NoText(es: seq<Entry>, key: string, cap: nat)
    requires |es| == 2 && AllGood(es) && es[0].key == "k" && es[1].key == "label" && cap > 0
    requires PlainKey(key) && key != "k" && key != "label"
    ensures Search(PrintLine(es), key, StringProbe(cap)) == None
  {
    hide Search, PrintLine, AllGood;
    KeyIsAbsent(es, key, StringProbe(cap));
  }

  lemma OnlyLabel(es: seq<Entry>, c: Libc)
    requires |es| == 2 && AllGood(es) && es[0].key == "k" && es[1].key == "label"
    ensures var line := PrintLine(es);
            && Search(line, "pid", c.strtod) == None
            && NumberOf(line, "cpu", c) == NumberOf(line, "duration_ns", c) == 0
  {
    hide Search, PrintLine, AllGood, PlainKey;
    PlainKeys();
    SpanKeys();
    KeyIsAbsent(es, "pid", c.strtod);
    KeyIsAbsent(es, "cpu", c.strtod);
    KeyIsAbsent(es, "duration_ns", c.strtod);
  }

  /** Exactly when a printed text field comes back: it has no control characters, fits the buffer
      it is read into, and its escape fits the buffer it is printed from. */
  lemma PrintedFieldSurvivesIff(es: seq<Entry>, i: nat, v: string, cap: nat, escapeCap: nat)
    requires i < |es| && AllGood(es) && es[i] == Text(es[i].key, Fit(v, escapeCap))
    requires forall j :: 0 <= j < i ==> es[j].key != es[i].key
    requires cap > 0
    ensures Search(PrintLine(es), es[i].key, StringProbe(cap)) == Some(v)
            <==> v == "" || (Clean(v, cap) && |Escape(v)| < escapeCap)
  {
    hide Search, PrintLine, Garble, Escape, NoControls;
    TextLookup(es, i, cap);
    FieldSurvivesIff(Fit(v, escapeCap), cap);
    EmptyGarble();
  }

  lemma EmptyGarble()
    ensures Garble("") == "" && NoControls("")
  {
  }

  /** Spans lines fit their buffer with room to spare. */
  lemma SpanLineIsNeverCut(schema: string, sp: Span, duration: string)
    requires ValidIdentifier(schema) && |duration| <= 20 && Stamp(sp.ts)
    ensures |SpanLine(schema, sp, duration)| < 16384
  {
    hide Fit, PrintEntry, PrintLine, Sum;
    var es := SpanEntries(schema, sp, duration);
    var bounds: seq<nat> := [10, 110, 209, 70, 92, 51, 58, 520, 48, 528, 526, 34, 55, 530, 8206];
    RawLength("k", "span");
    RawLength("schema", schema);
    TextLength("label", sp.labelName, 200);
    TsLength(sp.ts);
    TextLength("trace_id", sp.traceId, 80);
    TextLength("span_id", sp.spanId, 40);
    TextLength("parent_span_id", sp.parentId, 40);
    TextLength("name", sp.name, 512);
    TextLength("kind", sp.kind, 40);
    TextLength("service_name", sp.service, 512);
    TextLength("scope_name", sp.scope, 512);
    NumLength("duration_ns", duration);
    TextLength("status_code", sp.statusCode, 40);
    TextLength("status_message", sp.statusMessage, 512);
    TextLength("attributes", sp.attributes, 8192);
    LineLength(es, bounds);
    SpanSum();
  }

  lemma TsLength(ts: string)
    requires Stamp(ts)
    ensures |PrintEntry(Text("ts", ts))| <= 70
  {
    hide Escape;
    StampIsRaw(ts);
  }

  lemma SpanSum()
    ensures Sum([10, 110, 209, 70, 92, 51, 58, 520, 48, 528, 526, 34, 55, 530, 8206]) == 11047
  {
    hide Sum;
    SpanHalfSums();
    var a: seq<nat>, b: seq<nat> := [10, 110, 209, 70, 92, 51, 58, 520], [48, 528, 526, 34, 55, 530, 8206];
    SumAppend(a, b);
    assert a + b == [10, 110, 209, 70, 92, 51, 58, 520, 48, 528, 526, 34, 55, 530, 8206];
  }

  lemma SpanHalfSums()
    ensures Sum([10, 110, 209, 70, 92, 51, 58, 520]) == 1120
    ensures Sum([48, 528, 526, 34, 55, 530, 8206]) == 9927
  {
  }

  lemma {:induction false} SumAppend(a: seq<nat>, b: seq<nat>)
    ensures Sum(a + b) == Sum(a) + Sum(b)
  {
    if a == [] { assert a + b == b; } else {
      assert (a + b)[1..] == a[1..] + b;
      SumAppend(a[1..], b);
    }
  }

  // ------------------------ OTLP metric points and dispatch ------------------------

  datatype Point = Point(labelName: string, ts: string, service: string, scope: string, pidKey: string, name: string,
                         kind: string, description: string, unit: string, attributes: string)

  function PointEntries(schema: string, p: Point, value: string, count: string): seq<Entry> {
    [Text("k", "otelmetric"), Text("schema", schema), Text("label", Fit(p.labelName, 200)), Text("ts", p.ts),
     Text("service_name", Fit(p.service, 512)), Text("scope_name", Fit(p.scope, 512)), Text("pid", Fit(p.pidKey, 160)),
     Text("metric_name", Fit(p.name, 512)), Text("metric_type", Fit(p.kind, 32)),
     Text("description", Fit(p.description, 512)),
     Text("unit", Fit(p.unit, 128)), Num("value", value), Num("count", count),
     Text("attributes", Fit(p.attributes, 2200))]
  }

  function PointLine(schema: string, p: Point, value: string, count: string): string {
    PrintLine(PointEntries(schema, p, value, count))
  }

  /** strncmp(a, b, n) == 0 on C strings. */
  predicate SamePrefix(a: string, b: string, n: nat) {
    Take(a, n) == Take(b, n)
  }

  datatype Kind = MetricKind | SpanKind | PointKind | UnknownKind

  /** How replay_line tells the kinds apart. `pointLen` is the length it compares for the third. */
  function KindOf(line: string, pointLen: nat): Kind {
    if SamePrefix(line, "{\"k\":\"metric\"", 13) then MetricKind
    else if SamePrefix(line, "{\"k\":\"span\"", 11) then SpanKind
    else if SamePrefix(line, "{\"k\":\"otelmetric\"", pointLen) then PointKind
    else UnknownKind
  }

  /** The code compares 18 characters, the literal has 17. */
  const CODED_LEN := 18
  const INTENDED_LEN := 17

  lemma LineStart(es: seq<Entry>, v: string)
    requires |es| > 1 && es[0] == Text("k", v) && PlainKey(v)
    ensures ("{\"k\":\"" + v + "\",") <= PrintLine(es)
  {
    hide PrintEntry, PrintTail;
    FirstEntry(v);
    var front, rest := "{\"k\":\"" + v + "\"", PrintTail(es[1..]);
    assert PrintLine(es) == front + rest;
    TailStart(es[1..]);
    assert rest == "," + rest[1..];
    Associates(front, ",", rest[1..]);
  }

  lemma FirstEntry(v: string)
    requires PlainKey(v)
    ensures "{" + PrintEntry(Text("k", v)) == "{\"k\":\"" + v + "\""
  {
    hide Escape;
    IdentifierEscapes(v);
  }

  lemma TailStart(es: seq<Entry>)
    requires es != []
    ensures PrintTail(es) != "" && PrintTail(es)[0] == ','
  {
    hide PrintEntry;
  }

  lemma MetricIsMetric(schema: string, m: Metric, n: Gauges)
    ensures KindOf(MetricLine(schema, m, n), CODED_LEN) == MetricKind
  {
    hide PrintLine, Fit;
    LineStart(MetricEntries(schema, m, n), "metric");
    var line := MetricLine(schema, m, n);
    assert "{\"k\":\"metric\"" == line[..13];
  }

  lemma SpanIsSpan(schema: string, sp: Span, duration: string)
    ensures KindOf(SpanLine(schema, sp, duration), CODED_LEN) == SpanKind
  {
    hide PrintLine, Fit;
    LineStart(SpanEntries(schema, sp, duration), "span");
    var line := SpanLine(schema, sp, duration);
    assert "{\"k\":\"span\"" == line[..11];
    assert line[6] == 's';
  }

  /** No spilled OTLP metric is ever replayed: its line is taken for an unknown one. Comparing one
      character less would have recognised every such line. */
  lemma PointsAreNeverReplayed(schema: string, p: Point, value: string, count: string)
    ensures KindOf(PointLine(schema, p, value, count), CODED_LEN) == UnknownKind
    ensures KindOf(PointLine(schema, p, value, count), INTENDED_LEN) == PointKind
  {
    hide PrintLine, Fit;
    LineStart(PointEntries(schema, p, value, count), "otelmetric");
    var line := PointLine(schema, p, value, count);
    assert line[..17] == "{\"k\":\"otelmetric\"";
    assert line[6] == 'o' && |Take(line, 18)| == 18;
    assert line[..13][6] == 'o' && line[..11][6] == 'o';
  }

  lemma PointLineIsNeverCut(schema: string, p: Point, value: string, count: string)
    requires ValidIdentifier(schema) && |value| <= 24 && |count| <= 20 && Stamp(p.ts)
    ensures |PointLine(schema, p, value, count)| < 8192
  {
    hide Fit, PrintEntry, PrintLine, Sum;
    var es := PointEntries(schema, p, value, count);
    var a: seq<nat>, b: seq<nat> := [16, 110, 209, 70, 528, 526, 167], [527, 47, 527, 136, 32, 28, 2214];
    RawLength("k", "otelmetric");
    RawLength("schema", schema);
    TextLength("label", p.labelName, 200);
    TsLength(p.ts);
    TextLength("service_name", p.service, 512);
    TextLength("scope_name", p.scope, 512);
    TextLength("pid", p.pidKey, 160);
    TextLength("metric_name", p.name, 512);
    TextLength("metric_type", p.kind, 32);
    TextLength("description", p.description, 512);
    TextLength("unit", p.unit, 128);
    NumLength("value", value);
    NumLength("count", count);
    TextLength("attributes", p.attributes, 2200);
    LineLength(es, a + b);
    SumAppend(a, b);
    PointHalfSums();
  }

  lemma PointHalfSums()
    ensures Sum([16, 110, 209, 70, 528, 526, 167]) == 1626
    ensures Sum([527, 47, 527, 136, 32, 28, 2214]) == 3511
  {
  }
}
