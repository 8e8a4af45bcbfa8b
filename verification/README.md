# Procwatch: models and proofs

Procwatch watches processes and receives OpenTelemetry exports. Its injector edits the environment of
launched programs, a wrapper samples the process tree, and an agent accepts OTLP over HTTP, flattens
it into rows and stores them in PostgreSQL, spilling rows to disk while the database is away. This
project models the parts of it that carry hard invariants and proves what they promise.

`dafny verify dfyconfig.toml` checks everything.

## How it is organised

- `Bytes`: bytes, 64-bit words, C strings.
- **Wire format.** `Wire` defines varints, tags, payloads and the field list of a message, and proves
  that it inverts every legal encoding. `Reader` (module `Reading`) is the cursor of `pb_decode.c`,
  proved against it.
- **Attributes.** `Builder` is the bounded text buffer with rollback, `Utf8` the character scan,
  `Attributes` and `Rendering` the code that prints a KeyValue list as JSON. `AttributeTree` relates
  wire forms to trees, `Json` is an independent reader written from RFC 8259, and `AttributeMeaning`
  and `JsonPrefix` prove that it reads the stored column back as the tree. `StoredColumn` says for all
  bytes when the column reads back, values with several fields and non-finite doubles included.
- **Decoders.** `Delivery` is the protocol between a walk and the caller's sink. `Trace` and `Metrics`
  are the two decoders, method by method. `TraceTree`, `Encoder`, `TraceLimits` and `ScopeNames` state
  what the first means on request trees, `MetricTree`, `MetricRequests`, `MetricLimits` and
  `MetricEncoder` the second, each including where the code departs from the plain flattening.
  `SpanColumns` and `PointColumns` say what stands in each column, in the sizes of its buffer;
  `TraceExamples` holds concrete encoded inputs.
- **Offline queue.** `SpillLine`, `SpillRecord` and `AgentRecords` are the line format and its
  extractor; `SpillJson` reads the lines with the independent JSON reader; `SpillQueue` the three-file protocol with its faults, `SpillRuns` its runs and
  `SpillBuffer` its code; `AgentReplay` replays one line and `AgentDelivery` joins everything: what
  was spilled reaches the database.
- **HTTP framing.** `HttpFraming`, `HttpConnection`, `HttpStream`, `HttpHeaders` and `HttpPost` for
  well-formed streams, `HttpLimits` for bare empty lines and other methods.
- **Process tree.** `ProcessTree` (breadth-first snapshot), `CpuDeltas` (baseline table).
- **Environment.** `ResourceAttributes`, `PidKeys`, `EnvMerge`.

Most operations come in three layers: a specification function close to the source's meaning, a
method with the source's loop proved equal to it, and lemmas about the function. Messages are walked by the
methods through a mutable cursor; the specification sees the same message as a list of fields.

## What the code does that its comments do not say

These are properties that turned out false of the code. Each has a lemma with a concrete input and
the exact condition under which the code behaves as intended.

- `utf8_seq_len` accepts surrogates (ED A0..BF) and F4 90..BF, although its comment excludes what lies
  past U+10FFFF (`Utf8.ForeignIsStored`, `Utf8.StoredTextIsUtf8Iff`).
- Spans are not always stored under their own scope's name: a scope description that stands behind a
  span is not applied to it (`TraceExamples.LateScopeIsMissed`), an unnamed scope inherits the name of
  the one walked before it (`TraceExamples.UnnamedScopeInherits`), and that can be a later one when
  there are more than 64 (`TraceExamples.LaterScopeIsBorrowed`). The exact condition, over every wire
  form and any number of scopes, is `ScopeNames.ScopeNamesAreOwnIff` for a resource and
  `ScopeNames.RequestNamesAreOwnIff` for a request.
- A scope past the 64th is walked with what is known of the resource by then. If the resource comes
  later, its spans are delivered as "unknown_service" without a label, which the agent then drops
  (`TraceExamples.ServiceIsMissed`, `TraceLimits.OriginsAreKnownIff`), and they come before the
  spans of the first 64 (`TraceExamples.LastSpanComesFirst`, `TraceLimits.OrderIsKeptIff`). The points
  of metrics lose service, label and pid key in the same way (`MetricLimits.OriginsAreKnownIff`).
- Past eight data containers the points of a metric are dropped (`MetricEncoder.NinthIsLost`,
  `MetricTree.AllPointsIff`).
- An AnyValue with several values prints them all: two booleans are no JSON text, the integers 1 and 2
  read back as 12 (`StoredColumn.TwoValuesMisread`). A double that is not finite prints as a word that
  is no JSON either (`StoredColumn.InfinityFails`). `StoredColumn.ColumnReadsIff` is the exact condition.
- A spilled OTLP metric is never replayed: `replay_line` compares 18 characters with a 17-character
  prefix (`AgentRecords.PointsAreNeverReplayed`); only the bare prefix passes, and nothing is inserted
  for it (`AgentReplay.PointBranchIsIdle`).
- The extractor reads `\n` back as `n`, so text with control characters changes
  (`SpillRecord.BreakReturnsAsLetter`, `SpillRecord.FieldSurvivesIff`,
  `AgentRecords.PrintedFieldSurvivesIff`).
- A flush can lose or tear what was spilled meanwhile (`SpillQueue.ArrivalIsLost`,
  `SpillQueue.ArrivalIsTorn`, `SpillQueue.FlushLosesNothingIff`), and a failed rename loses the queue at
  the next flush (`SpillQueue.QueueIsLost`, `SpillQueue.StrandedIsLost`). A read of the claim that fails
  is taken for its end, and what was not read is deleted (`SpillQueue.UnreadIsLost`). A spill that stops inside its
  line swallows the next one (`SpillQueue.TornExample`, `SpillQueue.SpillSurvivesIff`).
- A header block with a bare empty line is framed differently depending on how it arrives
  (`HttpLimits.BareLineExample`, `HttpLimits.BlankIsStableIff`, `HttpLimits.CutIsHarmlessIff`).
- A content-length line without a value takes the number at the start of the next line
  (`HttpHeaders.EmptyLengthLooksAhead`, `HttpHeaders.EmptyLengthIsZero`); one with a value behaves
  (`HttpHeaders.StepIs`).
- A request with another method than POST is dispatched with an empty body when its path is known,
  whatever length it announces; the comment speaks of a reply with status 405
  (`HttpLimits.GetIsDispatched`, `HttpLimits.BodyIsIgnoredIff`).
- Setting the same resource attribute twice changes the variable again when it ends in an empty
  segment (`ResourceAttributes.RepeatingIsHarmlessIff`, `ResourceAttributes.DanglingCommaExample`).

## Model

| member | source | states |
|---|---|---|
| Wire.EveryValueHasItsVarints | src/agent/pb_decode.c:12-27 | every 64-bit value is read back from its canonical varint and from every zero-padded form of at most ten bytes, using exactly those bytes |
| Wire.ReadVarintExact | src/agent/pb_decode.c:12-27 | any byte string shaped like a varint is read with its value mod 2^64 and its exact length, whatever follows |
| Wire.PaddedKeepsValue | src/agent/pb_decode.c:12-27 | padding lengthens a varint without changing its value |
| Wire.ParseStep | src/agent/pb_decode.c:29-100 | how the field list of a message splits at its first tag and payload, with the two ways it can end early |
| Wire.ParseInvertsEmit | src/agent/pb_decode.c:12-100 | for every list of legally spelled fields, parsing the emitted bytes gives the fields back and ends cleanly |
| Wire.CleanParseIsEmission | src/agent/pb_decode.c:12-100 | conversely, every message that parses to a clean end is the emission of some legally spelled fields with that meaning |
| Wire.WordOfEight | src/agent/pb_decode.c:65-72 | the eight bytes of a word, the least significant first |
| Reading.Reader.Varint | src/agent/pb_decode.c:12-27 | pb_varint returns the varint at the cursor and moves past exactly it, or fails when there is none in ten bytes |
| Reading.Reader.Next | src/agent/pb_decode.c:29-52 | pb_next gives end, bad tag or a tag exactly as the wire function reads it; a tag always moves the cursor forward |
| Reading.Reader.Fixed32 | src/agent/pb_decode.c:54-63 | four little-endian bytes, or a failure when fewer are left |
| Reading.Reader.Fixed64 | src/agent/pb_decode.c:65-72 | eight little-endian bytes through the accumulating loop |
| Reading.Reader.Bytes | src/agent/pb_decode.c:74-82 | a length-delimited payload, refused when it runs past the end |
| Reading.Reader.Submsg | src/agent/pb_decode.c:84-90 | the nested reader covers exactly the payload and stays inside its parent's window |
| Reading.Reader.Skip | src/agent/pb_decode.c:92-100 | skipping succeeds and advances exactly as the typed reader of that wire type would |
| Utf8.Utf8SeqLen | src/agent/otlp_common.c:30-48 | the scan with its masks returns the length of the sequence at the front, 0 for none |
| Utf8.AcceptedExactly | src/agent/otlp_common.c:30-48 | a sequence of n bytes is accepted if and only if it is an RFC 3629 character or one of two foreign families, and never an overlong form |
| Utf8.StoredTextIsUtf8Iff | src/agent/otlp_common.c:30-84 | what is stored is well-formed UTF-8 if and only if the input holds no foreign sequence |
| Utf8.ForeignIsStored | src/agent/otlp_common.c:42-46 | a surrogate and U+110000 pass through, against the comment |
| Utf8.WellFormedIsKept | src/agent/otlp_common.c:50-84 | well-formed input is stored unchanged |
| Utf8.UnitsCut | src/agent/otlp_common.c:50-84 | every input can be cut into accepted characters and single bytes at which none begins |
| Utf8.ReplacedUnitByUnit | src/agent/otlp_common.c:71-81 | whichever such cutting is taken, what is stored keeps the accepted characters and has one U+FFFD for each other byte |
| Builder.StringBuilder.constructor | src/agent/otlp_common.c:9-15 | a fresh builder holds no text |
| Builder.StringBuilder.Putc | src/agent/otlp_common.c:17-21 | the buffer stays the first cap-1 characters of the unbounded text, NUL-terminated; overflow is set when the text was cut |
| Builder.StringBuilder.Puts | src/agent/otlp_common.c:23-25 | the same for a string |
| Builder.StringBuilder.Rollback | src/agent/otlp_common.c:166-171 | taking back a separator restores the buffer of the shorter text |
| Attributes.ToHex | src/agent/otlp_common.c:92-101 | hex digits of the bytes that fit the destination, two per byte |
| Attributes.HexCutIsHexed | src/agent/otlp_common.c:92-101 | reading the digits back in pairs gives the bytes that fit, high nibble first, in lower case |
| Bytes.CopyStr | src/agent/otlp_common.c:86-90 | the stored text is the input in front of its first NUL, cut to the buffer |
| Bytes.CopiedWholeIff | src/agent/otlp_common.c:86-90 | it is the whole input if and only if that has no NUL and is shorter than the buffer |
| Attributes.JsonString | src/agent/otlp_common.c:50-84 | appends the quoted, escaped, sanitised string to the unbounded text |
| Attributes.ParseKv | src/agent/otlp_common.c:105-123 | last key and last value of a KeyValue; the key is cut and ends at a NUL |
| Attributes.AnyValueAsString | src/agent/otlp_common.c:125-137 | the first string value, copied into the buffer, or a failure |
| Rendering.DecodeValueList | src/agent/otlp_common.c:139-156 | appends the JSON array of the elements, for any bytes and any depth |
| Rendering.DecodeKvlist | src/agent/otlp_common.c:158-179 | appends the JSON object, with the separator of a keyless entry rolled back |
| Rendering.AppendEntry | src/agent/otlp_common.c:163-173 | one entry with its separator, or no trace of it when the key is empty |
| Rendering.AppendKvJson | src/agent/otlp_common.c:238-250 | key, colon and value, and whether anything was written |
| Rendering.DecodeAnyValue | src/agent/otlp_common.c:181-236 | every recognised value field in order, null past depth 4 or when there is none |
| Rendering.DecodeOneValue | src/agent/otlp_common.c:188-233 | one field of an AnyValue, by field number and wire type |
| AttributeTree.WireFormPrints | src/agent/otlp_common.c:139-236 | any wire form of an AnyValue tree, with unknown fields and any field order, prints the tree |
| AttributeTree.EntriesPrint | src/agent/otlp_common.c:158-179 | the same for the entries of a repeated KeyValue field |
| AttributeMeaning.StringReads | src/agent/otlp_common.c:50-84 | the JSON reader gives the sanitised input back from an escaped string |
| AttributeMeaning.DecimalDenotes | src/agent/otlp_common.c:198-206 | printed digits denote the number without superfluous zeros |
| AttributeMeaning.DecimalIsNumber | src/agent/otlp_common.c:198-206 | a printed integer is a JSON number that denotes that integer, its sign included |
| AttributeMeaning.WhatIsCut | src/agent/otlp_common.c:181-233 | exactly the empty values and those inside five containers read back as null; of a blob the first 64 bytes are kept |
| AttributeMeaning.KeysAreCut | src/agent/otlp_common.c:105-123 | a key is kept up to 255 bytes or its first NUL, and is empty if and only if it begins with one or has no byte |
| AttributeMeaning.PrintedValueReads | src/agent/otlp_common.c:181-236 | reading a printed value tree gives its meaning back, integers as the numbers they are, and stops exactly behind it |
| AttributeMeaning.StoredAttributesReadIff | src/agent/otlp_trace.c:148-193 | the stored column is a JSON text if and only if nothing was cut, and then reads back as the attribute tree: keyless entries dropped, keys cut at 255, bytes hex-cut, null past depth 4 |
| StoredColumn.ColumnReadsIff | src/agent/otlp_common.c:139-250 | for any bytes, what a buffer keeps of the attributes reads back as their last values, at every depth, if and only if nothing was cut, no printed AnyValue has several values and every printed double is a number |
| StoredColumn.MeaningOfTree | src/agent/otlp_common.c:181-236 | on every wire form of a value tree the last values are that tree |
| StoredColumn.SeveralAreMisread | src/agent/otlp_common.c:187-234 | whatever several values of one AnyValue are, their text is never read as the last of them |
| StoredColumn.InfinityFails | src/agent/otlp_common.c:208-218 | a double printed as inf is no JSON text |
| StoredColumn.TwoValuesMisread | src/agent/otlp_common.c:187-234 | two booleans print no JSON text, and the integers 1 and 2 print the number 12 |
| JsonPrefix.CutObjectFails | src/agent/otlp_common.c:17-25 | no proper prefix of a JSON object text is a JSON text, so a cut column is always detectable |
| Delivery.Accounting | src/agent/otlp_trace.c:202-231 | the count is the number of calls answered 0, every call but the last was answered 0, and the sink received a prefix of the rows |
| Delivery.Absorb | src/agent/otlp_trace.c:202-231 | one finished part of a walk is absorbed into what was already delivered, stopped or not |
| Delivery.Continues | src/agent/otlp_trace.c:285-288 | a walk that was not stopped is continued by the next one |
| Delivery.StoppedIsFinal | src/agent/otlp_trace.c:222-225 | what follows a refusal makes no difference |
| Trace.DecodeStatus | src/agent/otlp_trace.c:165-184 | message and code of a Status, last occurrence of each |
| Trace.DecodeSpanField | src/agent/otlp_trace.c:94-190 | one scalar field of a span into its slot; unknown ones are skipped |
| Trace.WalkSpan | src/agent/otlp_trace.c:87-190 | the loop over a span's fields yields the folded draft and the attribute text, or fails at a payload that runs out |
| Trace.EmitSpan | src/agent/otlp_trace.c:192-200 | closes the attributes, never below "{}", with overflow exactly when they were cut, fills the row and calls the sink once |
| Trace.DecodeSpan | src/agent/otlp_trace.c:77-200 | a span message becomes exactly one sink call with its row, or none and an error |
| Trace.DecodeScopeName | src/agent/otlp_trace.c:208-217 | the last name field of the scope, else the name in force |
| Trace.DecodeScopeSpans | src/agent/otlp_trace.c:202-231 | delivers the scope's spans, counts accepted ones, leaves its context behind |
| Trace.DecodeResource | src/agent/otlp_trace.c:247-268 | the last service.name and procwatch.label of the resource |
| Trace.DecodeResourceSpans | src/agent/otlp_trace.c:233-290 | buffers up to 64 scopes until the resource is known, walks the rest at once, then drains the buffer |
| Trace.DrainPending | src/agent/otlp_trace.c:285-289 | the buffered scopes in order with the context carried along |
| Trace.DecodeTraces | src/agent/otlp_trace.c:292-311 | delivers the request's spans for every sink and every byte string; -1 only for a failure with nothing counted |
| Delivery.ResultIsHonest | src/agent/otlp_trace.c:292-311 | the number either decoder returns is the number of calls answered 0, -1 only when that is zero, and nothing is called after a refusal |
| TraceTree.SpanEmitsRow | src/agent/otlp_trace.c:77-200 | any wire form of a span tree emits that span's row |
| TraceTree.ScopeEmitsRows | src/agent/otlp_trace.c:202-231 | any wire form of a scope emits its spans in order, each under the name in force where it stands |
| TraceTree.ScopeIsNamedIff | src/agent/otlp_trace.c:205-229 | all spans of a scope carry its final name if and only if none stands before a scope field that changes it |
| TraceTree.ResourceEmitsRows | src/agent/otlp_trace.c:233-290 | with at most 64 scopes, wherever resource and scope descriptions stand, every span gets the resource's last service and label |
| TraceTree.DecodingInvertsEncoding | src/agent/otlp_trace.c:77-311 | every wire form of a request tree, with unknown fields and free field order, decodes to its spans in order under the names in force; that is the plain flattening if and only if no span precedes a scope field that changes the name |
| TraceTree.AcceptingSinkGetsEverySpan | src/agent/otlp_trace.c:292-311 | a sink that always answers 0 ends with exactly these rows, all counted |
| SpanColumns.SpanColumnsAre | src/agent/otlp_trace.c:47-200 | the columns of a span row: identifiers of 16 and 8 bytes in hexadecimal, name and message up to 511 bytes, the six kinds and three statuses, attributes up to 8191 characters |
| SpanColumns.SpanDuration | src/agent/otlp_trace.c:192-200 | the duration is end minus start as a signed 64-bit number, 0 when the span ends before it starts |
| SpanColumns.SpanIsStored | src/agent/otlp_trace.c:77-200 | from any wire form, a span's name and message are stored whole if and only if they have no NUL and less than 512 bytes |
| SpanColumns.ContextColumns | src/agent/otlp_trace.c:247-268 | service and label come from the last string attribute of their name, up to 255 and 99 bytes |
| SpanColumns.ServiceIsStored | src/agent/otlp_trace.c:247-268 | a service name is stored whole if and only if it has no NUL and less than 256 bytes |
| SpanColumns.UnknownService | src/agent/otlp_trace.c:233-268 | without such attributes the service is unknown_service and there is no label |
| SpanColumns.ScopeColumn | src/agent/otlp_trace.c:208-217 | a scope's name is stored up to 255 bytes |
| Encoder.EncodedFieldsParse | src/agent/pb_decode.c:29-100 | a plain encoder's output parses to the encoded fields |
| Encoder.RequestEncodes | src/agent/otlp_trace.c:77-311 | every request tree has a wire form with its scope descriptions in time |
| Encoder.RoundTrip | src/agent/otlp_trace.c:77-311 | encoding a request tree and decoding it yields its spans |
| TraceLimits.ResourceEmitsExactly | src/agent/otlp_trace.c:233-290 | the exact rows for any number of scopes: those past the 64th first, with the context known where they stand, then the buffered ones |
| TraceLimits.OriginsAreKnownIff | src/agent/otlp_trace.c:247-279 | every row carries the resource's service and label if and only if no scope with spans past the 64th stands before a resource field that changes one of them |
| TraceLimits.LateResourceIsMissed | src/agent/otlp_trace.c:269-279 | sixty-five scopes in front of their resource: the spans of the last come first, without service and label |
| TraceLimits.OrderIsKeptIff | src/agent/otlp_trace.c:269-289 | where each delivered span stood on the wire; the order is kept if and only if no scope past the 64th or none of the first 64 has spans |
| TraceLimits.SixtyFifthComesFirst | src/agent/otlp_trace.c:269-289 | of sixty-five scopes with one span each, the last span is delivered first |
| TraceLimits.EverySpanOnce | src/agent/otlp_trace.c:269-289 | for any number of scopes each span is delivered exactly once |
| TraceLimits.EverySpanOfRequest | src/agent/otlp_trace.c:292-311 | the same for whole requests |
| ScopeNames.ResourceNames | src/agent/otlp_trace.c:202-289 | the scope name of every delivered row, for every wire form and any number of scopes: scopes past the 64th are walked first, and each starts with the name the one walked before it left |
| ScopeNames.ScopeNamesAreOwnIff | src/agent/otlp_trace.c:202-289 | every delivered row carries its own scope's name if and only if at each span, in walking order, the name in force is that name |
| ScopeNames.RequestNamesAreOwnIff | src/agent/otlp_trace.c:292-311 | the same for whole requests |
| ScopeNames.InFrontIff | src/agent/otlp_trace.c:208-217 | with every scope described in front of its spans, that holds if and only if no unnamed scope with spans is walked after one that left a name |
| TraceExamples.UnnamedScopeInherits | src/agent/otlp_trace.c:208-217 | an encoded request whose unnamed scope stands behind one called "a": its span is delivered under "a" |
| TraceExamples.LaterScopeIsBorrowed | src/agent/otlp_trace.c:269-289 | an unnamed scope and 64 called "z", encoded: its span is delivered under the name of the last |
| TraceExamples.LateScopeIsMissed | src/agent/otlp_trace.c:205-229 | a span in front of the field that names its scope "a" is delivered without a name |
| TraceExamples.LastSpanComesFirst | src/agent/otlp_trace.c:269-289 | of sixty-five encoded scopes with one span each, the last span is delivered first |
| TraceExamples.ServiceIsMissed | src/agent/otlp_trace.c:247-279 | sixty-five encoded scopes in front of the resource that names its service: the last one's span comes first, as unknown_service without label |
| Metrics.WalkPoint | src/agent/otlp_metric.c:87-216 | the loop over a point's fields yields value, count, time and attributes |
| Metrics.DecodePoint | src/agent/otlp_metric.c:87-216 | a data point becomes exactly one sink call with its row, or none and an error |
| Metrics.DecodeMetricField | src/agent/otlp_metric.c:232-278 | name, description and unit into their slots, data containers into the array of eight |
| Metrics.DecodeMetric | src/agent/otlp_metric.c:218-307 | delivers the points of the buffered containers once the strings are known; nothing for a nameless metric |
| Metrics.DecodeContainers | src/agent/otlp_metric.c:280-306 | the buffered containers one after the other |
| Metrics.DecodeContainer | src/agent/otlp_metric.c:283-304 | the points of one container in order, counting accepted ones |
| Metrics.DecodeScopeMetrics | src/agent/otlp_metric.c:309-337 | delivers a scope's metrics and leaves its name behind |
| Metrics.DecodeResourceMetrics | src/agent/otlp_metric.c:339-395 | resource first, buffered scopes after it, further ones at once |
| Metrics.DecodeMetrics | src/agent/otlp_metric.c:397-416 | delivers the request's points for every sink and every byte string; -1 only for a failure with nothing counted |
| MetricTree.MetricEmitsRows | src/agent/otlp_metric.c:218-307 | any wire form of a metric emits one row per point of its first eight containers with the metric's strings; count 1 for numbers, own count and sum for histograms |
| MetricTree.FieldOrderIsIrrelevant | src/agent/otlp_metric.c:218-307 | two wire forms of one metric, however ordered, decode alike |
| MetricTree.AllPointsIff | src/agent/otlp_metric.c:258-306 | no point of a named metric is lost if and only if the containers past the eighth hold none |
| PointColumns.PointColumnsAre | src/agent/otlp_metric.c:87-216 | the columns of a point row: its time, its value with count 1 or its sum with the signed count, attributes up to 2047 characters |
| PointColumns.StringColumns | src/agent/otlp_metric.c:218-257 | name and description up to 255 bytes, unit up to 63, and a metric is nameless if and only if its name has no byte in front of a NUL |
| PointColumns.MetricNameIsStored | src/agent/otlp_metric.c:218-307 | from any wire form, the rows carry the metric's name whole if and only if it has no NUL and less than 256 bytes |
| PointColumns.ContextColumns | src/agent/otlp_metric.c:339-380 | service, label and pid key come from the last string attribute of their name, up to 255, 99 and 63 bytes |
| PointColumns.UnknownOrigin | src/agent/otlp_metric.c:339-380 | without such attributes the service is unknown_service and the others are empty |
| MetricEncoder.MetricEncodes | src/agent/otlp_metric.c:218-307 | every well-kinded metric tree has a wire form, with any number of containers |
| MetricEncoder.MetricReturns | src/agent/otlp_metric.c:218-307 | encoding a metric and decoding it gives the points of its first eight containers |
| MetricEncoder.NinthIsLost | src/agent/otlp_metric.c:264-270 | of nine gauges with one point each, eight are stored |
| MetricRequests.DecodingInvertsEncoding | src/agent/otlp_metric.c:309-416 | every wire form of a metric request decodes to its points in order under the names in force; that is the plain flattening if and only if no metric with points precedes a scope field that changes the name |
| MetricRequests.EveryPointOfRequest | src/agent/otlp_metric.c:339-416 | with any number of scopes each point that the metrics emit is delivered exactly once |
| MetricLimits.ResourceEmitsExactly | src/agent/otlp_metric.c:339-395 | the exact rows for any number of scopes: those past the 64th first, with the context known where they stand, then the buffered ones |
| MetricLimits.OriginsAreKnownIff | src/agent/otlp_metric.c:339-395 | every row carries the resource's service, label and pid key if and only if no scope with points past the 64th stands before a resource field that changes one of them |
| SpillLine.JsonEscape | src/db_buffer.c:24-56 | the whole escaped text if it fits the buffer, else a failure and an empty string |
| SpillLine.EscapedIsOneLine | src/db_buffer.c:24-56 | escaped text has no character below 0x20 |
| SpillLine.QuotesAreEscaped | src/db_buffer.c:24-56 | every quotation mark in escaped text follows a backslash |
| SpillJson.EscapeReads | src/db_buffer.c:24-56 | a JSON reader gives any escaped text back, tabs, line breaks and other control characters included |
| SpillJson.LineIsJson | src/agent/agentd.c:141-236 | a printed line is a JSON object whose members are its fields in order |
| SpillJson.MetricLineSays | src/agent/agentd.c:141-156 | the members of a process metric's line |
| SpillJson.SpanLineSays | src/agent/agentd.c:206-236 | the members of a span's line |
| SpillJson.PointLineSays | src/agent/agentd.c:169-193 | the members of an OTLP metric's line |
| SpillLine.JsonStr | src/agent/agentd.c:74-99 | json_str returns the value at the first position where the quoted key is followed by a colon and a string |
| SpillLine.JsonNum | src/agent/agentd.c:101-120 | json_num returns the number at the first position where the quoted key is followed by a colon and a number, whatever strtod takes for one |
| SpillLine.ReadAfterKey | src/agent/agentd.c:83-96 | what one match of the key leads to |
| SpillRecord.LineLookup | src/agent/agentd.c:74-120 | on a printed line a search finds the entry with the key, whatever the other values contain |
| SpillRecord.KeyIsAbsent | src/agent/agentd.c:74-120 | on a printed line without the key nothing is found, whatever the values contain |
| SpillRecord.BlanksAreSkipped | src/agent/agentd.c:83-88 | white space around the colon makes no difference |
| SpillRecord.TextReturns | src/agent/agentd.c:90-95 | the copying loop inverts the escape up to the lost control characters and the buffer size |
| SpillRecord.BreakReturnsAsLetter | src/agent/agentd.c:90-95 | a line break comes back as the letter n |
| SpillRecord.ControlsComeBack | src/agent/agentd.c:90-95 | what each control character comes back as: n, r, t, or u and its four digits |
| SpillRecord.TextLookup | src/agent/agentd.c:74-99 | json_str on a printed line returns the text entry it was asked for |
| SpillRecord.FieldSurvivesIff | src/agent/agentd.c:90-95 | a value comes back unchanged if and only if it has no control character and fits |
| AgentRecords.MetricRoundTrip | src/agent/agentd.c:141-156 | a process metric of the agent's sizes is replayed exactly, quotes, backslashes and lookalike text included |
| AgentRecords.MetricNumbers | src/agent/agentd.c:344-346 | the numeric lookups reach the printed numbers |
| AgentRecords.GaugesReturn | src/agent/agentd.c:344-346 | processor share, memory and threads come back as strtod reads the printed numbers |
| AgentRecords.DurationReturns | src/agent/agentd.c:377 | the duration of a span likewise |
| AgentRecords.MetricLineIsNeverCut | src/agent/agentd.c:141-156 | a metric line has at most 2019 of the 2047 characters its buffer holds |
| AgentRecords.SpanRoundTrip | src/agent/agentd.c:206-236 | the text fields of a span of the agent's sizes are replayed exactly |
| AgentRecords.SpanLineIsNeverCut | src/agent/agentd.c:206-236 | a span line fits its buffer of 16384 |
| AgentRecords.PointLineIsNeverCut | src/agent/agentd.c:169-193 | an OTLP metric line fits its buffer of 8192 |
| AgentRecords.PrintedFieldSurvivesIff | src/agent/agentd.c:206-236 | a printed field comes back if and only if it is free of control characters, fits the buffer it is read into, and its escape fits the one it is printed from |
| AgentRecords.IdentifiersAre | src/util.c:21-30 | labels are exactly the texts of 1 to 99 letters, digits and underscores |
| AgentRecords.MissingFieldsDefault | src/agent/agentd.c:329-388 | a line with nothing but its kind and label is read with the defaults of all other columns |
| AgentRecords.MetricIsMetric | src/agent/agentd.c:328 | metric lines are recognised as such |
| AgentRecords.SpanIsSpan | src/agent/agentd.c:357 | span lines are recognised as such |
| AgentRecords.PointsAreNeverReplayed | src/agent/agentd.c:390-419 | OTLP metric lines are taken for unknown ones; with a comparison of 17 characters they would be recognised |
| SpillQueue.ReplaySplits | src/db_buffer.c:154-198 | a text's records are the consumed ones followed by the refused one and those not read yet |
| SpillQueue.FlushConsumesFront | src/db_buffer.c:127-231 | a flush hands the callback a prefix of the queue, in order |
| SpillQueue.FlushLeaves | src/db_buffer.c:127-231 | unless records are stranded, the spill file afterwards holds what is kept of the unconsumed records, then what survives of the arrivals |
| SpillQueue.FlushLosesNothingIff | src/db_buffer.c:127-231 | over all faults: nothing is lost or torn if and only if none strands records, none leaves a record of the claim unread, none cuts the remainder and none drops or cuts what arrived, unchecked reads and writes included |
| SpillQueue.CutTextLoses | src/db_buffer.c:180-211 | a remainder cut short is never made good by the lines that follow it |
| SpillQueue.UnreadIsLost | src/db_buffer.c:161-228 | when reading fails behind the first of two lines, the second is in no file afterwards and the flush returns 0 |
| SpillQueue.SurvivorsAreAllIff | src/db_buffer.c:168-211 | what arrived during a flush survives whole if and only if nothing arrived or no fault drops or cuts it |
| SpillQueue.ArrivalIsLost | src/db_buffer.c:202-212 | a line that arrived is gone when the new spill file cannot be reopened |
| SpillQueue.ArrivalIsTorn | src/db_buffer.c:204-211 | a line that arrived is cut when the disk is full, and the flush reports nothing |
| SpillQueue.QueueIsLost | src/db_buffer.c:213-216 | after a failed rename of the remainder the next flush leaves nothing |
| SpillQueue.StrandedLeaves | src/db_buffer.c:147-190 | stranding faults leave the whole batch in the claim, with unconsumed records, and at most the arrivals in the spill file |
| SpillQueue.StrandedIsLost | src/db_buffer.c:137-145 | whatever is spilled meanwhile, the next flush hands on none of the stranded records and leaves them in no file |
| SpillQueue.LeftoversAreForgotten | src/db_buffer.c:137-226 | a flush without faults ignores a claim and a remainder left behind |
| SpillQueue.SpillSurvivesIff | src/db_buffer.c:110-125 | a spilled line is a record of its own if and only if the file did not end inside a line |
| SpillQueue.TornExample | src/db_buffer.c:118-122 | "ab" cut after its first letter and "c" after it are one record |
| SpillQueue.TornSpill | src/db_buffer.c:118-122 | the exact damage of a short write: its piece counts as a record until the next line is glued to it |
| SpillRuns.StaleClaimWasConsumed | src/db_buffer.c:137-142 | where leftovers are covered, a stale claim without a spill file holds only consumed records |
| SpillRuns.StepIsSoundIff | src/db_buffer.c:110-231 | one spill or flush keeps the queue intact if and only if it tears no line, strands no record, leaves none unread, and cuts neither the remainder nor an arrival |
| SpillRuns.NothingIsLostIff | src/db_buffer.c:110-231 | at every point of a run the spill file is the unacknowledged suffix in order and the rest was accepted at least once, if and only if every step is sound |
| SpillRuns.LeftoversAreCovered | src/db_buffer.c:137-226 | in such runs a leftover claim holds only records that were consumed or are in the spill file |
| SpillRuns.ExactlyOnceInOrder | src/db_buffer.c:110-231 | over every run without file faults and with any callback answers: consumed records followed by the spill file equal all records ever spilled |
| SpillBuffer.Buffer.Spill | src/db_buffer.c:110-125 | appends one line or counts a drop, with open failures and short writes |
| SpillBuffer.Buffer.Flush | src/db_buffer.c:127-231 | the whole protocol equals the queue's step, with its return code and counters |
| SpillBuffer.Buffer.ReplayClaim | src/db_buffer.c:154-196 | the line loop feeds the callback in order and stops at the first refusal |
| SpillBuffer.Buffer.StopFlush | src/db_buffer.c:168-220 | writes the remainder, adds what arrived as far as it is written, renames it into place, fault by fault |
| AgentReplay.ReplayLine | src/agent/agentd.c:324-420 | one replayed line becomes at most one row; -1 when the database is away or refuses |
| AgentReplay.ExtractMetric | src/agent/agentd.c:329-347 | the metric fields, numbers included, by lookups with their buffers and defaults |
| AgentReplay.ExtractSpan | src/agent/agentd.c:358-377 | the span fields likewise, duration included |
| AgentReplay.PointBranchIsIdle | src/agent/agentd.c:390-418 | the only line that passes the comparison for points has no label, so nothing is inserted |
| AgentReplay.RecordReplays | src/agent/agentd.c:324-420 | the line printed for a record is replayed into that record's row, its numbers as strtod reads them, and into nothing for an OTLP metric |
| AgentReplay.SentLineIsRecord | src/agent/agentd.c:141-237 | every printed line is one record of the queue |
| AgentDelivery.DrainClaim | src/db_buffer.c:154-196 | the replay loop with replay_line as its callback goes as far as the queue says, and the database gains exactly the rows of the consumed lines |
| AgentDelivery.DrainDelivers | src/agent/agentd.c:324-420 | one flush into the database, with records arriving meanwhile, keeps rows, consumed lines and spill file in step with the records sent |
| AgentDelivery.DeliveredRows | src/agent/agentd.c:324-420 | in step, the table holds the rows of the oldest records sent, once each and in order, and the spill file the others |
| AgentDelivery.RunOffline | src/agent/agentd.c:127-420 | records written and drained in any order, with any connection and any database, end in such a state |
| HttpConnection.ScanHeaderLines | src/agent/http_server.c:182-205 | the loop over header lines: length, encoding and connection headers |
| HttpConnection.Connection.ParseHeaders | src/agent/http_server.c:128-210 | complete, more bytes needed, or malformed, with the parsed head and body offset |
| HttpConnection.Connection.Service | src/agent/http_server.c:300-388 | one recv advances the connection exactly as the framing function says, leftovers moved to the front |
| HttpHeaders.StartsWithIff | src/agent/http_server.c:102-110 | the comparison accepts exactly the spellings of a word in capital and small letters |
| HttpHeaders.StepIs | src/agent/http_server.c:190-200 | length, encoding and connection lines in any spelling, with any blanks, have their effect, and other lines none, whatever follows them |
| HttpHeaders.HeadersAre | src/agent/http_server.c:182-205 | every line of a block has its effect, in order |
| HttpHeaders.EffectsAre | src/agent/http_server.c:176-205 | the last length counts; one gzip or deflate encoding makes the body compressed, one close closes |
| HttpHeaders.StrtoullIs | src/agent/http_server.c:190-192 | a length saturates at the largest 64-bit number, and a minus sign wraps it around |
| HttpHeaders.EmptyLengthLooksAhead | src/agent/http_server.c:190-192 | a length line without a value takes the number at the start of the next line |
| HttpHeaders.EmptyLengthIsZero | src/agent/http_server.c:190-192 | it is 0 when the next line begins with anything but blanks, a sign or a digit |
| HttpStream.OneRecv | src/agent/http_server.c:300-388 | a recv acts on the request at the front exactly when it leaves it complete in the buffer, on that one only, and keeps every other byte |
| HttpStream.CuttingIsHarmless | src/agent/http_server.c:128-388 | for every stream of CRLF-framed requests and every way to cut it, what was acted upon is a prefix of what was sent, up to the first closing request, and the other bytes are in the buffer |
| HttpStream.CuttingsAgree | src/agent/http_server.c:300-388 | two cuttings of one stream can only differ in how far they got |
| HttpStream.PipelinedRequestWaits | src/agent/http_server.c:376-388 | a complete pipelined request stays buffered until the next recv |
| HttpLimits.BlankIsStableIff | src/agent/http_server.c:129-138 | the end of the header block is found at the same place however much has arrived if and only if the block holds no bare empty line |
| HttpLimits.CutIsHarmlessIff | src/agent/http_server.c:300-388 | a readable request reaches the handler as it was sent, wherever it is cut in two, if and only if its header block holds no bare empty line |
| HttpLimits.BareLineExample | src/agent/http_server.c:129-138 | a concrete POST that is misread when it is cut behind a bare empty line |
| HttpLimits.LineDecides | src/agent/http_server.c:146-205 | what a request line and its header lines are read as; a method other than POST silences the header lines |
| HttpLimits.LineIsReadIff | src/agent/http_server.c:146-157 | a request line is read if and only if it has less than 512 characters and a blank |
| HttpLimits.WaitsUpToLimit | src/agent/http_server.c:129-138 | without a blank line the connection waits for up to 16384 characters and then fails |
| HttpLimits.LongBlockIsRefused | src/agent/http_server.c:140-142 | a longer header block is refused |
| HttpLimits.LongPathIsCut | src/agent/http_server.c:176 | a longer path is stored in 127 characters |
| HttpLimits.RefusedIff | src/agent/http_server.c:310-325 | a complete header block only closes the connection if and only if it cannot be read or announces more than the largest body |
| HttpLimits.BodyIsIgnoredIff | src/agent/http_server.c:167-175 | whatever the header lines announce, the body is taken as empty and the connection is closed, if and only if the method is not POST |
| HttpLimits.OtherRequestIsEmpty | src/agent/http_server.c:167-175 | any other method on a plain path is acted upon with an empty body and closes the connection |
| HttpLimits.GetIsDispatched | src/agent/http_server.c:167-175 | GET /v1/traces with a content length of 5 is acted upon like an empty export |
| HttpPost.PostReads | src/agent/http_server.c:128-210 | path, length, compression and persistence come back from a POST with any header lines in any spelling and order; a query is dropped |
| HttpPost.PostIsLegal | src/agent/http_server.c:128-210 | every such request that announces its body, does not ask to close and keeps to the server's sizes meets the framing conditions of the stream theorems |
| HttpPost.PostsAreServed | src/agent/http_server.c:128-388 | exports posted over one connection are acted upon in order with their own path, compression and body, however cut |
| ProcessTree.PidListContains | src/proc_scan.c:237-242 | membership |
| ProcessTree.PidSeen | src/proc_scan.c:291-295 | whether a pid is queued or recorded |
| ProcessTree.ReadChildrenPids | src/proc_scan.c:244-289 | the positive entries of all readable child lists, first occurrences in order; fails when none is readable |
| ProcessTree.DedupedMeans | src/proc_scan.c:270-284 | that list has no duplicates and exactly the positive entries |
| ProcessTree.QueueKids | src/wrap/wrap.c:86-102 | queueing children keeps the search invariant |
| ProcessTree.SnapshotTree | src/wrap/wrap.c:47-110 | for every finite process graph: exactly the processes reachable through readable ones, once each, by nondecreasing distance |
| CpuDeltas.Sampler.Charge | src/wrap/wrap.c:127-151 | the increase since the last reading, 0 for a drop or a new process, and the table rebased |
| CpuDeltas.Sampler.ClearMarks | src/wrap/wrap.c:125 | the marks are cleared, the readings stay |
| CpuDeltas.Sampler.Round | src/main.c:288-308 | a round charges its processes in order against the running table |
| CpuDeltas.Sampler.Run | src/main.c:288-308 | over any number of rounds, what is charged to each process adds up to the upward movement of its counter |
| CpuDeltas.DeltasTelescope | src/wrap/wrap.c:125-151 | over any run the deltas of a process add up to the total upward movement of its counter |
| CpuDeltas.SteadyRise | src/wrap/wrap.c:125-151 | for a counter that never drops that is last minus first |
| CpuDeltas.SharesAreCharged | src/main.c:288-308 | over many rounds the deltas returned for a process are the charges of its own history |
| CpuDeltas.ShareIsCharged | src/main.c:288-308 | the deltas a round returns for a process are what it was charged |
| ResourceAttributes.CopySegments | src/inject/inject.c:105-127 | the copying loop writes the rewritten segments if they fit and reports a replacement |
| ResourceAttributes.PutSegment | src/inject/inject.c:117-123 | one segment with its separator, refused when the buffer is full |
| ResourceAttributes.SetResourceAttr | src/inject/inject.c:92-141 | the whole call, including the cases that leave the variable alone |
| ResourceAttributes.LatestValueEverywhere | src/inject/inject.c:92-141 | if the result fits, at least one segment has the key and every such segment carries the new value |
| ResourceAttributes.UnfitLeavesIt | src/inject/inject.c:92-141 | otherwise the variable is unchanged |
| ResourceAttributes.OthersAreKept | src/inject/inject.c:105-127 | the other segments keep order and content but for leading empty ones and one empty last one |
| ResourceAttributes.RepeatingIsHarmlessIff | src/inject/inject.c:92-141 | a second call changes nothing if and only if the key was absent, the result does not fit, or the value does not end in an empty segment |
| ResourceAttributes.DanglingCommaExample | src/inject/inject.c:105-127 | a value that shrinks with every call |
| PidKeys.BothCarry | src/inject/inject.c:149-156 | if both results fit, both keys carry the new value and no older one |
| PidKeys.Halfway | src/inject/inject.c:149-156 | if only the first fits, only the first key is updated |
| PidKeys.LastExecutionCounts | src/inject/inject.c:149-156 | after any chain of re-executions both keys carry the value of the last one alone |
| EnvMerge.EnvAppend | src/inject/envmod.c:17-35 | the guarded append, -1 exactly when the result would not fit |
| EnvMerge.EnvPrepend | src/inject/envmod.c:37-57 | the guarded prepend likewise |
| EnvMerge.AppendKeepsFront | src/inject/envmod.c:17-35 | an append keeps the old value in front and adds all or nothing, exactly when it is unmarked and fits |
| EnvMerge.PrependKeepsBack | src/inject/envmod.c:37-57 | a prepend keeps the old value behind the addition and the separator, likewise |
| EnvMerge.AppendOnce | src/inject/envmod.c:17-35 | an append whose addition carries the marker is made at most once |
| EnvMerge.PrependOnce | src/inject/envmod.c:37-57 | the same for a prepend |
| EnvMerge.AppendTwiceIff | src/inject/envmod.c:17-35 | when a second append leaves the first one's result alone |
| EnvMerge.AttachLabelToOtel | src/inject/inject.c:69-83 | the whole call, including the cases that leave the variable alone |
| EnvMerge.LabelIsAttached | src/inject/inject.c:69-83 | the label is put behind the other attributes exactly when none is there and it fits, whole up to 143 characters |
| EnvMerge.AttachLabelOnce | src/inject/inject.c:69-83 | attaching the label twice is attaching it once |
| EnvMerge.EnvHasKey | src/inject/exec_wrap.c:40-47 | whether some entry defines the key |
| EnvMerge.MergeEnv | src/inject/exec_wrap.c:52-88 | the caller's entries followed by the missing kept ones, the caller's own array when nothing is missing |
| EnvMerge.CountMissing | src/inject/exec_wrap.c:57-63 | the counting pass gives the number of entries the filling pass adds |
| EnvMerge.FillMerged | src/inject/exec_wrap.c:66-86 | the filling pass writes every slot of the allocated array and none beyond it |
| EnvMerge.MergedDefines | src/inject/exec_wrap.c:52-88 | exactly the keys defined before and the kept ones with a value are defined afterwards |
| EnvMerge.AddedOnce | src/inject/exec_wrap.c:66-86 | a missing kept key is added once |
| EnvMerge.KeptNamesArePlain | src/inject/exec_wrap.c:19-38 | the kept names are free of '=' |
| EnvMerge.KeptNamesAreDistinct | src/inject/exec_wrap.c:19-38 | the kept names are distinct |
| EnvMerge.KeptNamesMerge | src/inject/exec_wrap.c:19-88 | merging the kept names: each is defined if it was or has a value, a missing one gets one entry, the others keep theirs, a second merge adds nothing |
| EnvMerge.KeptNamesAreFound | src/inject/exec_wrap.c:40-88 | a lookup in the merged environment gives the caller's value if there is one, else the kept one |
| EnvMerge.MergeOnce | src/inject/exec_wrap.c:52-88 | a second merge adds nothing |

## Left out

- Crashes in the middle of a flush: the code has no recovery, so runs are crash-free.
- Reconnection timing (`pw_db_buf_ensure`, `pw_db_buf_maintain`): a clock comparison in front of the modelled flush.
- The standalone sampler's own spill lines (`spill_sample`, `replay_sample` in main.c): one text field, and an extractor that is a stricter form of the modelled one.
- `strtod`, the cast to long and printing an int are functions of unknown behaviour; printed numbers are taken to be read alike whatever ends them.
- Printing of doubles and timestamps: "%.17g" and "%.6f" are functions from bit patterns to text; a double is taken to print as a JSON number or as one of nan, -nan, inf and -inf.
- Metrics.DecodePoint: number and histogram points share one method with the kind as a parameter, where the source has two functions with the same loop.
- Memory exhaustion: failing `malloc` and `realloc`, and the growth of the connection buffer (`conn_ensure_cap`).
- Trace.DecodeResourceSpans: buffered scopes are kept as the bytes they delimit, not as reader structs.
- Reading.Reader.Varint: `|=` on disjoint bits is written as an addition.
- A null sink: the decoders are always given one.
- AgentDelivery.RunOffline: runs without file faults; the faults are the subject of SpillRuns.
- Sockets, responses, inflation of compressed bodies, routing of paths and the handler's answer in the HTTP server.
- HttpHeaders.StepIs: a length line holds plain decimal digits; what signs and a missing value lead to is stated apart, other text behind a length is not.
- HttpStream.CuttingIsHarmless: streams of header blocks without a bare empty line; for one with such a line HttpLimits proves that a cut can be found that misframes it, not what it is misframed as.
- Unsigned wrap-around of the sum of user and system time in the CPU counters.
- ProcessTree.SnapshotTree: the process graph is held fixed during the scan.
- SpillBuffer.Buffer.Flush: deleting `.rest` and the emptied spill file is taken to succeed, lines that others spill during a flush to be whole, and a read of the claim to fail between lines.
- EnvMerge.EnvAppend: `setenv` is taken to succeed, and the variable is passed and returned instead of looked up by name.
- PostgreSQL access, table creation, SQL text, housekeeping jobs, `/proc` text scanning, runtime detection, option parsing and logging.
