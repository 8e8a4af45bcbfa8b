/** The agent's offline path from end to end: what is spilled is what is inserted later. */
module AgentReplay {
  import opened Bytes
  import opened SpillLine
  import opened SpillRecord
  import opened AgentRecords
  import opened SpillQueue

  // ------------------------ Replaying one line ------------------------

  /** The columns of a row. */
  datatype Row =
    | MetricRow(m: Metric, cpu: Double, rss: int, threads: int)
    | SpanRow(sp: Span, durationNs: int)
    | PointRow

  /** The row replay_line tries to insert for a line, if any. */
  function RowOf(line: string, c: Libc): Option<Row> {
    match KindOf(line, CODED_LEN)
    case MetricKind => (match ReadMetric(line, c) case None => None case Some(m) => Some(MetricRowOf(line, m, c)))
    case SpanKind => (match ReadSpan(line) case None => None case Some(sp) => Some(SpanRowOf(line, sp, c)))
    case PointKind => if HasLabel(line) then Some(PointRow) else None
    case UnknownKind => None
  }

  function MetricRowOf(line: string, m: Metric, c: Libc): Row {
    MetricRow(m, NumberOf(line, "cpu", c), c.toLong(NumberOf(line, "rss", c)), c.toLong(NumberOf(line, "threads", c)))
  }

  function SpanRowOf(line: string, sp: Span, c: Libc): Row {
    SpanRow(sp, c.toLong(NumberOf(line, "duration_ns", c)))
  }

  predicate HasLabel(line: string) {
    var labelName := Search(line, "label", StringProbe(100));
    labelName.Some? && ValidIdentifier(labelName.value)
  }

  const POINT_PREFIX := "{\"k\":\"otelmetric\""

  lemma NoLabelInPrefix()
    ensures Search(POINT_PREFIX, "label", StringProbe(100)) == None
  {
    var s, pat := POINT_PREFIX, Pattern("label");
    assert |s| == 17 && pat[0] == '"' && pat[1] == 'l';
    forall i | 0 <= i < |s| ensures !(pat <= s[i..]) {
      if i + 1 < |s| {
        assert s[i] == s[i..][0] && s[i + 1] == s[i..][1];
        assert !(s[i] == '"' && s[i + 1] == 'l');
      }
    }
    NoPatternNoHit(s, "label", StringProbe(100), 0, 17);
    NothingInEmpty("label", StringProbe(100));
    assert s[0..] == s;
  }

  /** The only line that passes the comparison of 18 characters is the bare prefix, and it has no
      label: the branch for points never inserts anything. */
  lemma PointBranchIsIdle(line: string, c: Libc)
    requires KindOf(line, CODED_LEN) == PointKind
    ensures line == POINT_PREFIX && RowOf(line, c) == None
  {
    hide Search, ValidIdentifier, ReadMetric, ReadSpan;
    assert Take(POINT_PREFIX, 18) == POINT_PREFIX && |POINT_PREFIX| == 17;
    NoLabelInPrefix();
  }

  /** The database as an append log that may refuse a row. */
  class Database {
    const accepts: seq<Row> -> bool
    var rows: seq<Row>

    constructor (accepts: seq<Row> -> bool)
      ensures this.accepts == accepts && rows == []
    {
      this.accepts, rows := accepts, [];
    }

    method Insert(row: Row) returns (ok: bool)
      modifies this
      ensures ok <==> accepts(old(rows) + [row])
      ensures rows == if ok then old(rows) + [row] else old(rows)
    {
      ok := accepts(rows + [row]);
      if ok { rows := rows + [row]; }
    }
  }

  /** replay_line: 0 consumes the line, -1 keeps it. A line that yields no row is consumed. */
  method ReplayLine(db: Database, connected: bool, line: string, c: Libc) returns (rc: int)
    modifies db
    ensures !connected ==> rc == -1 && db.rows == old(db.rows)
    ensures connected ==>
              match RowOf(line, c)
              case None => rc == 0 && db.rows == old(db.rows)
              case Some(row) =>
                if db.accepts(old(db.rows) + [row]) then rc == 0 && db.rows == old(db.rows) + [row]
                else rc == -1 && db.rows == old(db.rows)
  {
    hide ReadMetric, ReadSpan, SamePrefix, Search, ValidIdentifier;
    if !connected { return -1; }
    var row: Option<Row> := None;
    var kind := KindOf(line, CODED_LEN);
    if kind == MetricKind {
      var m := ExtractMetric(line, c);
      var cpu := ExtractNumber(line, "cpu", c);
      var rss := ExtractNumber(line, "rss", c);
      var threads := ExtractNumber(line, "threads", c);
      if m.Some? { row := Some(MetricRow(m.value, cpu, c.toLong(rss), c.toLong(threads))); }
    } else if kind == SpanKind {
      var sp := ExtractSpan(line);
      var duration := ExtractNumber(line, "duration_ns", c);
      if sp.Some? { row := Some(SpanRow(sp.value, c.toLong(duration))); }
    } else if kind == PointKind {
      var labelName := JsonStr(line, "label", 100);
      if labelName.Some? && ValidIdentifier(labelName.value) { row := Some(PointRow); }
    }
    if row.None? { return 0; }
    var ok := db.Insert(row.value);
    rc := if ok then 0 else -1;
  }

  /** A double that stays 0 unless json_num finds a number. */
  method ExtractNumber(line: string, key: string, c: Libc) returns (d: Double)
    ensures d == NumberOf(line, key, c)
  {
    var found := JsonNum(line, key, c.strtod);
    d := match found case None => 0 case Some(x) => x;
  }

  method ExtractMetric(line: string, c: Libc) returns (m: Option<Metric>)
    ensures m == ReadMetric(line, c)
  {
    hide Search, ValidIdentifier;
    var labelName := JsonStr(line, "label", 100);
    if labelName.None? || !ValidIdentifier(labelName.value) { return None; }
    var service := JsonStr(line, "service", 256);
    var comm := JsonStr(line, "comm", 64);
    var runtime := JsonStr(line, "runtime", 32);
    var pod := JsonStr(line, "pod", 256);
    var containerId := JsonStr(line, "container_id", 80);
    var pid := JsonStr(line, "pid", 80);
    var pidKey := Or(pid, "");
    if pid.None? {
      var number := JsonNum(line, "pid", c.strtod);
      if number.Some? { pidKey := c.intText(number.value); }
    }
    if pidKey == "" { pidKey := "unknown"; }
    return Some(Metric(labelName.value, Or(service, ""), Or(containerId, ""), Or(pod, ""), pidKey, Or(comm, ""),
                       Or(runtime, "other")));
  }

  method ExtractSpan(line: string) returns (sp: Option<Span>)
    ensures sp == ReadSpan(line)
  {
    hide Search, ValidIdentifier;
    var labelName := JsonStr(line, "label", 100);
    if labelName.None? || !ValidIdentifier(labelName.value) { return None; }
    var traceId := JsonStr(line, "trace_id", 33);
    var spanId := JsonStr(line, "span_id", 17);
    var parentId := JsonStr(line, "parent_span_id", 17);
    var name := JsonStr(line, "name", 512);
    var kind := JsonStr(line, "kind", 40);
    var service := JsonStr(line, "service_name", 256);
    var scope := JsonStr(line, "scope_name", 256);
    var status := JsonStr(line, "status_code", 40);
    var message := JsonStr(line, "status_message", 512);
    var attributes := JsonStr(line, "attributes", 8192);
    var ts := JsonStr(line, "ts", 64);
    return Some(Span(labelName.value, Or(ts, ""), Or(traceId, ""), Or(spanId, ""), Or(parentId, ""), Or(name, ""),
                     Or(kind, "INTERNAL"), Or(service, ""), Or(scope, ""), Or(status, "UNSET"), Or(message, ""),
                     OrObject(Or(attributes, ""))));
  }

  // ------------------------ Printed records ------------------------

  /** What the agent hands to the spill queue while the database is away. */
  datatype Record =
    | MetricRecord(schema: string, m: Metric, n: Gauges)
    | SpanRecord(schema: string, sp: Span, duration: string)
    | PointRecord(schema: string, p: Point, value: string, count: string)

  function LineOf(r: Record): string {
    match r
    case MetricRecord(schema, m, n) => MetricLine(schema, m, n)
    case SpanRecord(schema, sp, duration) => SpanLine(schema, sp, duration)
    case PointRecord(schema, p, value, count) => PointLine(schema, p, value, count)
  }

  /** The sizes the agent's buffers enforce, and numbers that strtod reads back. */
  ghost predicate Sendable(r: Record, c: Libc) {
    Printable(r) &&
    match r
    case MetricRecord(_, m, n) =>
      MetricFits(m) && m.pid != "" && ReadsAlike(n.cpu, c) && ReadsAlike(n.rss, c) && ReadsAlike(n.threads, c)
    case SpanRecord(_, sp, duration) => SpanFits(sp) && ReadsAlike(duration, c)
    case PointRecord(_, _, _, _) => true
  }

  predicate Printable(r: Record) {
    match r
    case MetricRecord(schema, _, n) => ValidIdentifier(schema) && GaugeTokens(n)
    case SpanRecord(schema, sp, duration) => ValidIdentifier(schema) && Stamp(sp.ts) && Token(duration)
    case PointRecord(schema, p, value, count) => ValidIdentifier(schema) && Stamp(p.ts) && Token(value) && Token(count)
  }

  /** The row a record should end up as, given that points are never replayed. */
  function RowFor(r: Record, c: Libc): Option<Row> {
    match r
    case MetricRecord(_, m, n) =>
      Some(MetricRow(m, ReadBack(n.cpu, c), c.toLong(ReadBack(n.rss, c)), c.toLong(ReadBack(n.threads, c))))
    case SpanRecord(_, sp, duration) => Some(SpanRow(sp, c.toLong(ReadBack(duration, c))))
    case PointRecord(_, _, _, _) => None
  }

  lemma RecordReplays(r: Record, c: Libc)
    requires Sendable(r, c)
    ensures RowOf(LineOf(r), c) == RowFor(r, c)
  {
    hide ReadMetric, ReadSpan, MetricLine, SpanLine, PointLine, KindOf, MetricFits, SpanFits, Token, ReadBack, NumberOf,
         ReadsAlike, ValidIdentifier;
    match r
    case MetricRecord(schema, m, n) =>
      MetricIsMetric(schema, m, n);
      MetricRoundTrip(schema, m, n, c);
      GaugesReturn(schema, m, n, c);
    case SpanRecord(schema, sp, duration) =>
      SpanIsSpan(schema, sp, duration);
      SpanRoundTrip(schema, sp, duration);
      DurationReturns(schema, sp, duration, c);
    case PointRecord(schema, p, value, count) => PointsAreNeverReplayed(schema, p, value, count);
  }

  // ------------------------ A record is one line ------------------------

  predicate Visible(s: string) {
    forall i :: 0 <= i < |s| ==> s[i] >= ' '
  }

  lemma EntryIsVisible(e: Entry)
    requires Good(e)
    ensures Visible(PrintEntry(e))
  {
    hide Escape;
    if e.Text? { EscapedIsOneLine(e.value); }
  }

  lemma {:induction false} TailIsVisible(es: seq<Entry>)
    requires AllGood(es)
    ensures Visible(PrintTail(es)) && PrintTail(es)[|PrintTail(es)| - 1] == '}'
  {
    hide PrintEntry, Good;
    if es != [] {
      EntryIsVisible(es[0]);
      TailIsVisible(es[1..]);
    }
  }

  /** A printed line holds no line break and is not trimmed. */
  lemma LineIsRecord(es: seq<Entry>)
    requires es != [] && AllGood(es)
    ensures IsRecord(PrintLine(es))
  {
    hide PrintEntry, Good, PrintTail;
    EntryIsVisible(es[0]);
    TailIsVisible(es[1..]);
    var s := PrintLine(es);
    assert s[|s| - 1] == PrintTail(es[1..])[|PrintTail(es[1..])| - 1];
  }

  lemma SentLineIsRecord(r: Record)
    requires Printable(r)
    ensures IsRecord(LineOf(r))
  {
    hide PrintLine, IsRecord, Token, AllGood;
    match r
    case MetricRecord(schema, m, n) =>
      MetricEntriesGood(schema, m, n);
      LineIsRecord(MetricEntries(schema, m, n));
    case SpanRecord(schema, sp, duration) =>
      SpanEntriesGood(schema, sp, duration);
      LineIsRecord(SpanEntries(schema, sp, duration));
    case PointRecord(schema, p, value, count) =>
      PointEntriesGood(schema, p, value, count);
      LineIsRecord(PointEntries(schema, p, value, count));
  }

  lemma SendableIsRecord(r: Record, c: Libc)
    requires Sendable(r, c)
    ensures IsRecord(LineOf(r))
  {
    hide LineOf, IsRecord, Printable;
    SentLineIsRecord(r);
  }

  lemma PointEntriesGood(schema: string, p: Point, value: string, count: string)
    requires Token(value) && Token(count)
    ensures AllGood(PointEntries(schema, p, value, count))
  {
    hide Fit, Token;
    PlainKeys();
    SpanKeys();
    assert PlainKey("metric_name") && PlainKey("metric_type") && PlainKey("description") && PlainKey("unit");
    assert PlainKey("value") && PlainKey("count");
  }
}
