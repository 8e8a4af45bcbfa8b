/** Encoded messages at which the trace decoder departs from what was sent. */
module TraceExamples {
  import opened Bytes
  import opened Wire
  import opened Attributes
  import opened AttributeTree
  import opened Delivery
  import opened Trace
  import opened TraceTree
  import opened TraceLimits
  import opened Encoder
  import opened ScopeNames

  // ------------------------ Small messages ------------------------

  predicate SmallSpan(t: SpanTree) {
    && t.traceId == [] && t.spanId == [] && t.parentId == [] && |t.name| <= 1 && t.statusMessage == []
    && t.attrs == []
  }

  predicate SmallScope(t: ScopeTree) {
    && (t.name.Some? ==> |t.name.value| <= 1)
    && |t.spans| <= 1 && forall i :: 0 <= i < |t.spans| ==> SmallSpan(t.spans[i])
  }

  predicate AllSmall(ts: seq<ScopeTree>) {
    forall i :: 0 <= i < |ts| ==> SmallScope(ts[i])
  }

  lemma SpanIsSmall(t: SpanTree)
    requires SmallSpan(t)
    ensures |EncodeSpan(t)| <= 480
  {
    hide Encode;
    EncodeIsBounded([Field(2, BytesP(t.statusMessage)), Field(3, VarintP(t.statusCode))], 0);
    assert |EncodeStatus(t)| <= 40;
    hide EncodeStatus;
    assert EncodeAttrs(t.attrs) == [] && SpanFields(t) == Scalars(t);
    EncodeIsBounded(SpanFields(t), 40);
  }

  lemma ScopeIsSmall(t: ScopeTree)
    requires SmallScope(t)
    ensures |EncodeScope(t)| <= 1000
  {
    hide Encode, EncodeSpan, SmallSpan;
    if t.name.Some? { EncodeIsBounded([Field(1, BytesP(t.name.value))], 1); }
    forall i | 0 <= i < |t.spans| ensures |EncodeSpan(t.spans[i])| <= 480 { SpanIsSmall(t.spans[i]); }
    EncodeIsBounded(ScopeFieldsOf(t), 480);
  }

  lemma ScopesFit(ts: seq<ScopeTree>, resource: bytes)
    requires AllSmall(ts) && |ts| <= 65 && |resource| <= 1000
    ensures forall i :: 0 <= i < |ts| ==> |EncodeScopes(ts)[i]| <= 1000
    ensures |Encode([Field(1, BytesP(resource))] + Items(2, EncodeScopes(ts)))| < TWO64
    ensures |Encode(Items(2, EncodeScopes(ts)) + [Field(1, BytesP(resource))])| < TWO64
  {
    hide Encode, EncodeScope, SmallScope;
    forall i | 0 <= i < |ts| ensures |EncodeScope(ts[i])| <= 1000 { ScopeIsSmall(ts[i]); }
    EncodeIsBounded([Field(1, BytesP(resource))] + Items(2, EncodeScopes(ts)), 1000);
    EncodeIsBounded(Items(2, EncodeScopes(ts)) + [Field(1, BytesP(resource))], 1000);
  }

  lemma SmallResourceEncodes(ts: seq<ScopeTree>)
    requires AllSmall(ts) && |ts| <= 65
    ensures var t := ResourceTree([], ts);
            ResourceWire(EncodeResource(t), t) && AllScopeFirst(Subs(Parse(EncodeResource(t)).fields, 2))
  {
    hide Encode, EncodeScope, SmallScope, ResourceWire, AllScopeFirst, Parse;
    assert EncodeAttrs([]) == [] && Items(1, []) == [];
    EncodeIsBounded([], 0);
    ScopesFit(ts, Encode([]));
    ResourceEncodes(ResourceTree([], ts));
  }

  /** The names stored for a small resource, whose encoding describes every scope in front. */
  lemma SmallResourceNames(g: DoubleFormat, ts: seq<ScopeTree>)
    requires AllSmall(ts) && |ts| <= 65
    ensures Scopes(ResourceWalk(g, EncodeResource(ResourceTree([], ts))).rows) == EnteredNames(LateFirst(ts), "")
  {
    hide EncodeResource, Parse, ResourceWalk, Scopes, WalkedNames, EnteredNames, LateFirst, AttrsWire, Merged,
        ScopeWire,
         SmallScope, ScopeFirst;
    var t := ResourceTree([], ts);
    var items := Subs(Parse(EncodeResource(t)).fields, 2);
    SmallResourceEncodes(ts);
    ResourceNames(g, EncodeResource(t), t);
    LateFirstWires(items, ts);
    LateFirstKeeps(items);
    InFrontNames(LateFirst(items), LateFirst(ts), "");
  }

  lemma LateFirstKeeps(items: seq<bytes>)
    requires AllScopeFirst(items)
    ensures AllScopeFirst(LateFirst(items))
  {
    hide ScopeFirst, Parse;
  }

  // ------------------------ Scope names ------------------------

  const A: bytes := [0x61]
  const Z: bytes := [0x7A]

  lemma ShortCopies()
    ensures CopyStr(A, SCOPE_CAP) == "a" && CopyStr(Z, SCOPE_CAP) == "z"
  {
    assert CBytes(A)[0] == 0x61 && CBytes(Z)[0] == 0x7A;
  }

  const INHERITING: seq<ScopeTree> := [ScopeTree(Some(A), []), ScopeTree(None, [NAMELESS])]

  /** The span of an unnamed scope behind a scope called "a" is stored under "a". */
  lemma UnnamedScopeInherits(g: DoubleFormat)
    ensures Scopes(ResourceWalk(g, EncodeResource(ResourceTree([], INHERITING))).rows) == ["a"]
    ensures OwnNames(LateFirst(INHERITING)) == [""]
  {
    hide ResourceWalk, Scopes, EncodeResource, NAMELESS;
    assert SmallSpan(NAMELESS) by { NamelessIsSmall(); }
    SmallResourceNames(g, INHERITING);
    ShortCopies();
    assert LateFirst(INHERITING) == INHERITING;
    assert INHERITING[1..] == [ScopeTree(None, [NAMELESS])] && INHERITING[1..][1..] == [];
    assert Copies("a", 1) == ["a"] && Copies("", 1) == [""];
    var last := INHERITING[1..];
    assert EnteredNames(last, "a") == ["a"] + EnteredNames(last[1..], "a") == ["a"];
    assert OwnNames(last) == [""] + OwnNames(last[1..]) == [""];
    assert OwnNames(INHERITING) == Copies("a", 0) + OwnNames(last) && Copies("a", 0) == [];
  }

  lemma NamelessIsSmall()
    ensures SmallSpan(NAMELESS)
  {
  }

  const UNNAMED := ScopeTree(None, [NAMELESS])
  const BORROWING: seq<ScopeTree> := [UNNAMED] + Repeat(ScopeTree(Some(Z), []), 64)

  /** Of sixty-five scopes the first is unnamed and the others are called "z": its span is stored
      under the name of the last, which is walked before it. */
  lemma LaterScopeIsBorrowed(g: DoubleFormat)
    ensures Scopes(ResourceWalk(g, EncodeResource(ResourceTree([], BORROWING))).rows) == ["z"]
    ensures OwnNames(LateFirst(BORROWING)) == [""]
  {
    hide ResourceWalk, Scopes, EncodeResource, NAMELESS;
    NamelessIsSmall();
    SmallResourceNames(g, BORROWING);
    ShortCopies();
    var last := ScopeTree(Some(Z), []);
    var order, rest := LateFirst(BORROWING), BORROWING[1..64];
    assert order == [last] + ([UNNAMED] + rest);
    assert order[1..] == [UNNAMED] + rest && ([UNNAMED] + rest)[1..] == rest;
    NoSpansNoNames(rest, "z");
    NoSpansOwnNothing(rest);
    assert Copies("z", 1) == ["z"] && Copies("", 1) == [""];
    assert EnteredNames([UNNAMED] + rest, "z") == ["z"] && OwnNames([UNNAMED] + rest) == [""];
  }

  lemma {:induction false} NoSpansOwnNothing(ts: seq<ScopeTree>)
    requires forall i :: 0 <= i < |ts| ==> ts[i].spans == []
    ensures OwnNames(ts) == []
  {
    hide OwnName;
    if ts != [] { NoSpansOwnNothing(ts[1..]); }
  }

  /** A span in front of the description of its scope. */
  function LateFields(): seq<Field> {
    [Field(2, BytesP(EncodeSpan(NAMELESS))), Field(1, BytesP(Encode([Field(1, BytesP(A))])))]
  }

  function LateResource(): bytes {
    Encode([Field(2, BytesP(Encode(LateFields())))])
  }

  const LATE_TREE := ResourceTree([], [ScopeTree(Some(A), [NAMELESS])])

  lemma LateFieldsAreWire()
    ensures |Encode(LateFields())| <= 1000 && ScopeWire(Encode(LateFields()), LATE_TREE.scopes[0])
    ensures Parse(Encode(LateFields())) == Parsed(LateFields(), Clean)
  {
    hide Encode, Parse, EncodeSpan, SpanWire, NAMELESS;
    var fs, inner := LateFields(), [Field(1, BytesP(A))];
    NamelessIsSmall();
    SpanIsSmall(NAMELESS);
    SpanEncodes(NAMELESS);
    EncodeIsBounded(inner, 1);
    EncodeIsBounded(fs, 480);
    EncodedFieldsParse(inner);
    EncodedFieldsParse(fs);
    MergedIn(fs, 1, 1);
    LastBytesIn(inner, 0, 1, []);
    SomeSub(inner, 0, 1);
    assert Subs(fs, 2) == [EncodeSpan(NAMELESS)] by { assert fs[1..][1..] == [] && Subs(fs[1..], 2) == []; }
  }

  lemma LateResourceIsWire()
    ensures ResourceWire(LateResource(), LATE_TREE)
    ensures Subs(Parse(LateResource()).fields, 2) == [Encode(LateFields())]
  {
    hide Encode, Parse, LateFields, ScopeWire;
    LateFieldsAreWire();
    var fs := [Field(2, BytesP(Encode(LateFields())))];
    EncodedFieldsParse(fs);
    NoMoreBytes(fs, 1, []);
    assert fs[1..] == [] && Subs(fs, 2) == [Encode(LateFields())];
  }

  /** A span in front of the description of its scope, which is called "a", is stored unnamed. */
  lemma LateScopeIsMissed(g: DoubleFormat)
    ensures ResourceWire(LateResource(), LATE_TREE)
    ensures Scopes(ResourceWalk(g, LateResource()).rows) == [""] && OwnNames(LateFirst(LATE_TREE.scopes)) == ["a"]
  {
    hide ResourceWalk, Scopes, LateResource, Encode, Parse, NAMELESS, ResourceWire;
    LateResourceIsWire();
    LateFieldsAreWire();
    ShortCopies();
    ResourceNames(g, LateResource(), LATE_TREE);
    var items, ts := [Encode(LateFields())], LATE_TREE.scopes;
    assert LateFirst(items) == items && LateFirst(ts) == ts && items[1..] == [] && ts[1..] == [];
    var fs := LateFields();
    assert NamesInForce(fs[1..], "") == [] by { assert fs[1..][1..] == []; }
    assert NamesInForce(fs, "") == [""];
    assert WalkedNames(items, ts, "") == [""] + [];
    assert Copies("a", 1) == ["a"] && OwnNames(ts) == ["a"] + [];
  }

  // ------------------------ Sixty-five scopes ------------------------

  lemma SixtyFiveAreSmall()
    ensures AllSmall(SIXTY_FIVE) && |SIXTY_FIVE| == 65
  {
  }

  /** Of sixty-five encoded scopes with one span each, the last span is delivered first. */
  lemma LastSpanComesFirst(g: DoubleFormat)
    ensures var rows := ResourceWalk(g, EncodeResource(ResourceTree([], SIXTY_FIVE))).rows;
            |rows| == 65 && rows[0].body.name == "b" && rows[1].body.name == "a"
  {
    hide ResourceWalk, EncodeResource, SmallScope, ResourceWire, SIXTY_FIVE;
    SixtyFiveAreSmall();
    SmallResourceEncodes(SIXTY_FIVE);
    SixtyFifthComesFirst(g, EncodeResource(ResourceTree([], SIXTY_FIVE)), []);
  }

  const SERVICE: seq<Attr> := [Attr(AsBytes("service.name"), Str(A))]

  function ServiceResource(): bytes {
    Encode(Items(1, EncodeAttrs(SERVICE)))
  }

  function ScopesThenResource(ts: seq<ScopeTree>, resource: bytes): bytes {
    Encode(Items(2, EncodeScopes(ts)) + [Field(1, BytesP(resource))])
  }

  lemma ServiceIsSmall()
    ensures |ServiceResource()| <= 1000
  {
    hide Encode;
    var value := [Field(1, BytesP(A))];
    EncodeIsBounded(value, 1);
    assert EncodeAny(Str(A)) == Encode(value);
    var kv := [Field(1, BytesP(AsBytes("service.name"))), Field(2, BytesP(Encode(value)))];
    EncodeIsBounded(kv, 21);
    assert EncodeAttr(SERVICE[0]) == Encode(kv);
    assert SERVICE[1..] == [] && EncodeAttrs(SERVICE) == [Encode(kv)];
    EncodeIsBounded(Items(1, EncodeAttrs(SERVICE)), 82);
  }

  /** Sixty-five encoded scopes in front of the resource that names the service: the spans of the
      last one come first, as "unknown_service". */
  lemma ServiceIsMissed(g: DoubleFormat)
    ensures var rows := ResourceWalk(g, ScopesThenResource(SIXTY_FIVE, ServiceResource())).rows;
            rows != [] && rows[0].service == "unknown_service" && rows[0].labelName == ""
            && rows[0].body.name == "b"
    ensures TreeContext(SERVICE, NEW_CONTEXT).service == "a"
  {
    hide ResourceFields, Encode, Parse, EncodeScope, SmallScope, ScopeWire, ServiceResource, DraftOf;
    var resource, items := ServiceResource(), EncodeScopes(SIXTY_FIVE);
    var fs := Items(2, items) + [Field(1, BytesP(resource))];
    SixtyFiveAreSmall();
    ServiceIsSmall();
    ScopesFit(SIXTY_FIVE, resource);
    FieldsFit(fs);
    forall i | 0 <= i < 65 ensures ScopeWire(items[i], SIXTY_FIVE[i]) { ScopeEncodes(SIXTY_FIVE[i]); }
    LateResourceIsMissed(g, items, SIXTY_FIVE, resource);
    assert SIXTY_FIVE[64].spans[0] == NAMELESS.(name := [0x62]);
    ShortNames();
    ServiceIsNamed();
  }

  lemma {:induction false} PlainBytes(b: bytes)
    requires 0 !in b
    ensures CBytes(b) == b
  {
    if b != [] { PlainBytes(b[1..]); }
  }

  lemma ServiceIsNamed()
    ensures TreeContext(SERVICE, NEW_CONTEXT).service == "a"
  {
    var key := AsBytes("service.name");
    PlainBytes(key);
    ShortCopies();
    assert SERVICE[1..] == [] && Chars(KeyCut(key)) == "service.name";
    assert CopyStr(A, SERVICE_CAP) == "a" by { assert CBytes(A)[0] == 0x61; }
  }
}
