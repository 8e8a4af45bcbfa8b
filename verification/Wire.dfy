/** The Protocol Buffers wire format: what a byte string means, and how it is cut into fields. */
module Wire {
  import opened Bytes

  const VARINT := 0
  const FIXED64 := 1
  const BYTES := 2
  const FIXED32 := 5
  const VARINT_MAX_BYTES := 10

  // ------------------------ Varints ------------------------

  /** One to ten bytes, all but the last carrying the continuation bit. */
  predicate IsVarint(v: bytes) {
    && 1 <= |v| <= 10
    && v[|v| - 1] < 128
    && forall i :: 0 <= i < |v| - 1 ==> v[i] >= 128
  }

  /** Base-128 positional value, least significant group first. */
  function Groups(v: bytes): nat {
    if v == [] then 0 else v[0] % 128 + 128 * Groups(v[1..])
  }

  /** The 64-bit value: bits shifted past bit 63 are lost. */
  function VarintValue(v: bytes): u64 {
    Groups(v) % TWO64
  }

  function Pow128(n: nat): nat {
    if n == 0 then 1 else 128 * Pow128(n - 1)
  }

  lemma {:induction false} GroupsSnoc(v: bytes, b: byte)
    ensures Groups(v + [b]) == Groups(v) + (b % 128) * Pow128(|v|)
  {
    if v == [] {
      assert [b][1..] == [];
    } else {
      GroupsSnoc(v[1..], b);
      assert (v + [b])[1..] == v[1..] + [b];
      var q := (b % 128) * Pow128(|v| - 1);
      assert (b % 128) * Pow128(|v|) == 128 * q;
    }
  }

  /** How many bytes the varint at the front of `s` occupies; 0 when there is none. */
  function VarintLen(s: bytes, limit: nat): (n: nat)
    ensures n <= |s| && n <= limit
    ensures n > 0 ==> s[n - 1] < 128 && forall i :: 0 <= i < n - 1 ==> s[i] >= 128
  {
    if limit == 0 || s == [] then 0
    else if s[0] < 128 then 1
    else
      var n := VarintLen(s[1..], limit - 1);
      if n == 0 then 0 else n + 1
  }

  lemma {:induction false} VarintLenExact(v: bytes, rest: bytes, limit: nat)
    requires 1 <= |v| <= limit
    requires v[|v| - 1] < 128 && forall i :: 0 <= i < |v| - 1 ==> v[i] >= 128
    ensures VarintLen(v + rest, limit) == |v|
  {
    if |v| > 1 {
      VarintLenExact(v[1..], rest, limit - 1);
      assert (v + rest)[1..] == v[1..] + rest;
    }
  }

  function ReadVarint(s: bytes): (r: Option<(u64, nat)>)
    ensures r.Some? ==> 0 < r.value.1 <= |s|
  {
    var n := VarintLen(s, VARINT_MAX_BYTES);
    if n == 0 then None else Some((VarintValue(s[..n]), n))
  }

  /** Every varint, canonical or not, is read back with its value and exact length. */
  lemma ReadVarintExact(v: bytes, rest: bytes)
    requires IsVarint(v)
    ensures ReadVarint(v + rest) == Some((VarintValue(v), |v|))
  {
    VarintLenExact(v, rest, VARINT_MAX_BYTES);
    assert (v + rest)[..|v|] == v;
  }

  /** The shortest encoding. */
  function Canonical(v: nat): (c: bytes)
    ensures c != [] && c[|c| - 1] < 128
  {
    if v < 128 then [v] else [128 + v % 128] + Canonical(v / 128)
  }

  /** A longer encoding of the same number: `extra` redundant zero groups. */
  function Padded(v: bytes, extra: nat): bytes
    requires v != []
    requires v[|v| - 1] < 128
  {
    if extra == 0 then v
    else v[..|v| - 1] + [128 + v[|v| - 1]] + seq(extra - 1, _ => 128) + [0]
  }

  lemma {:induction false} CanonicalShape(v: nat, n: nat)
    requires v < Pow128(n + 1)
    ensures 1 <= |Canonical(v)| <= n + 1
    ensures Canonical(v)[|Canonical(v)| - 1] < 128
    ensures forall i :: 0 <= i < |Canonical(v)| - 1 ==> Canonical(v)[i] >= 128
    ensures Groups(Canonical(v)) == v
    decreases n
  {
    if v < 128 {
      assert Canonical(v)[1..] == [];
    } else if n == 0 {
      assert false;
    } else {
      assert Pow128(n + 1) == 128 * Pow128(n);
      CanonicalShape(v / 128, n - 1);
      assert Canonical(v)[1..] == Canonical(v / 128);
    }
  }

  lemma {:induction false} GroupsOfZeros(v: bytes)
    requires forall i :: 0 <= i < |v| ==> v[i] % 128 == 0
    ensures Groups(v) == 0
  {
    if v != [] { GroupsOfZeros(v[1..]); }
  }

  lemma {:induction false} GroupsAppend(a: bytes, b: bytes)
    ensures Groups(a + b) == Groups(a) + Pow128(|a|) * Groups(b)
  {
    if a == [] {
      assert a + b == b;
    } else {
      assert (a + b)[1..] == a[1..] + b;
      GroupsAppend(a[1..], b);
      assert Groups(a + b) == a[0] % 128 + 128 * Groups(a[1..] + b);
      var p, q := Pow128(|a| - 1), Groups(b);
      assert Pow128(|a|) == 128 * p;
      hide Groups, Pow128;
      assert 128 * p * q == 128 * (p * q);
    }
  }

  lemma PaddedShape(v: bytes, extra: nat)
    requires IsVarint(v) && 0 < extra && |v| + extra <= VARINT_MAX_BYTES
    ensures IsVarint(Padded(v, extra)) && |Padded(v, extra)| == |v| + extra
    ensures Padded(v, extra) == v[..|v| - 1] + ([128 + v[|v| - 1]] + (seq(extra - 1, _ => 128) + [0]))
  {
  }

  lemma PaddedKeepsValue(v: bytes, extra: nat)
    requires IsVarint(v) && |v| + extra <= VARINT_MAX_BYTES
    ensures IsVarint(Padded(v, extra)) && |Padded(v, extra)| == |v| + extra
    ensures VarintValue(Padded(v, extra)) == VarintValue(v)
  {
    if extra == 0 {
      assert Padded(v, extra) == v;
    } else {
      var front, last := v[..|v| - 1], v[|v| - 1];
      var zeros: bytes := seq(extra - 1, _ => 128) + [0];
      PaddedShape(v, extra);
      hide Padded, IsVarint, Pow128;
      assert v == front + [last];
      GroupsOfZeros(zeros);
      assert ([128 + last] + zeros)[1..] == zeros && [last][1..] == [];
      assert Groups([128 + last] + zeros) == Groups([last]) by { assert (128 + last) % 128 == last % 128; }
      hide Groups;
      GroupsAppend(front, [128 + last] + zeros);
      GroupsAppend(front, [last]);
    }
  }

  /** Every 64-bit value is read back from its canonical form and from every padded form of at
      most ten bytes, and exactly those bytes are consumed. */
  lemma EveryValueHasItsVarints(v: u64, extra: nat, rest: bytes)
    requires |Canonical(v)| + extra <= VARINT_MAX_BYTES
    ensures ReadVarint(Padded(Canonical(v), extra) + rest) == Some((v, |Canonical(v)| + extra))
  {
    hide ReadVarint, Padded, IsVarint;
    CanonicalFits(v);
    PaddedIsRead(Canonical(v), extra, rest);
  }

  lemma PaddedIsRead(c: bytes, extra: nat, rest: bytes)
    requires IsVarint(c) && |c| + extra <= VARINT_MAX_BYTES
    ensures ReadVarint(Padded(c, extra) + rest) == Some((VarintValue(c), |c| + extra))
  {
    PaddedKeepsValue(c, extra);
    ReadVarintExact(Padded(c, extra), rest);
  }

  lemma CanonicalFits(v: u64)
    ensures IsVarint(Canonical(v)) && VarintValue(Canonical(v)) == v
  {
    assert Pow128(10) == 0x40_0000_0000_0000_0000 by {
      assert Pow128(5) == 0x8_0000_0000;
      assert Pow128(8) == 128 * 128 * 128 * Pow128(5);
    }
    CanonicalShape(v, 9);
  }

  // ------------------------ Fixed-width words ------------------------

  function LittleEndian(s: bytes): nat {
    if s == [] then 0 else s[0] + 256 * LittleEndian(s[1..])
  }

  function Pow256(n: nat): nat {
    if n == 0 then 1 else 256 * Pow256(n - 1)
  }

  lemma {:induction false} LittleEndianBound(s: bytes)
    ensures LittleEndian(s) < Pow256(|s|)
  {
    if s != [] { LittleEndianBound(s[1..]); }
  }

  /** The word stored in four or eight bytes. */
  function Word(s: bytes): (w: u64)
    requires |s| <= 8
    ensures w == LittleEndian(s)
    ensures |s| == 4 ==> w < TWO32
  {
    LittleEndianBound(s);
    assert Pow256(4) == TWO32;
    assert Pow256(8) == 256 * 256 * 256 * 256 * Pow256(4);
    assert Pow256(6) == 256 * 256 * Pow256(4);
    assert Pow256(2) == 256 * 256;
    LittleEndian(s)
  }

  /** Eight bytes, the least significant first. */
  lemma WordOfEight(s: bytes)
    requires |s| == 8
    ensures Word(s) == s[0] as int + s[1] as int * 0x100 + s[2] as int * 0x1_0000 + s[3] as int * 0x100_0000
                       + 0x1_0000_0000 * (s[4] as int + s[5] as int * 0x100 + s[6] as int * 0x1_0000
                                          + s[7] as int * 0x100_0000)
  {
    FourBytes(s[4..]);
    assert s[1..][1..] == s[2..] && s[2..][1..] == s[3..] && s[3..][1..] == s[4..];
    assert LittleEndian(s[3..]) == s[3] as int + 256 * LittleEndian(s[4..]);
    assert LittleEndian(s[2..]) == s[2] as int + 256 * LittleEndian(s[3..]);
    assert LittleEndian(s[1..]) == s[1] as int + 256 * LittleEndian(s[2..]);
  }

  lemma FourBytes(s: bytes)
    requires |s| == 4
    ensures Word(s) == s[0] as int + s[1] as int * 0x100 + s[2] as int * 0x1_0000 + s[3] as int * 0x100_0000
  {
    assert s[1..][1..] == s[2..] && s[2..][1..] == s[3..] && s[3..][1..] == [];
    assert LittleEndian(s[3..]) == s[3] as int;
    assert LittleEndian(s[2..]) == s[2] as int + 256 * LittleEndian(s[3..]);
    assert LittleEndian(s[1..]) == s[1] as int + 256 * LittleEndian(s[2..]);
  }

  // ------------------------ Tags and payloads ------------------------

  datatype Payload = VarintP(word: u64) | Fixed64P(word: u64) | BytesP(data: bytes) | Fixed32P(word: u64)
  datatype Field = Field(num: nat, val: Payload)
  datatype Tag = EndOfMessage | BadTag | GoodTag(num: nat, wire: nat, used: nat)
  datatype Taken = Taken(val: Payload, used: nat)

  predicate KnownWire(wire: int) {
    wire == VARINT || wire == FIXED64 || wire == BYTES || wire == FIXED32
  }

  /** The field number of a key, truncated to uint32_t. */
  function KeyNum(key: u64): nat {
    key / 8 % TWO32
  }

  function ReadTag(s: bytes): (t: Tag)
    ensures t.EndOfMessage? <==> s == []
    ensures t.GoodTag? ==> t.num > 0 && KnownWire(t.wire) && 0 < t.used <= |s|
  {
    if s == [] then EndOfMessage
    else match ReadVarint(s)
      case None => BadTag
      case Some((key, n)) =>
        if KeyNum(key) == 0 || !KnownWire(key % 8) then BadTag
        else GoodTag(KeyNum(key), key % 8, n)
  }

  function ReadPayload(wire: nat, s: bytes): (r: Option<Taken>)
    ensures r.Some? ==> 0 < r.value.used <= |s|
    ensures r.Some? && r.value.val.BytesP? ==> |r.value.val.data| < r.value.used
  {
    if wire == VARINT then
      match ReadVarint(s)
      case None => None
      case Some((v, n)) => Some(Taken(VarintP(v), n))
    else if wire == FIXED64 then
      if |s| < 8 then None else Some(Taken(Fixed64P(Word(s[..8])), 8))
    else if wire == FIXED32 then
      if |s| < 4 then None else Some(Taken(Fixed32P(Word(s[..4])), 4))
    else if wire == BYTES then
      match ReadVarint(s)
      case None => None
      case Some((len, n)) =>
        if |s| - n < len then None else Some(Taken(BytesP(s[n..n + len]), n + len))
    else None
  }

  // ------------------------ Messages ------------------------

  /** How the walk over a message ends: all bytes used, at a tag that cannot be read, or at a
      field whose payload runs past the end. */
  datatype Ending = Clean | AtBadTag | AtBadPayload
  datatype Parsed = Parsed(fields: seq<Field>, ending: Ending)

  function Parse(s: bytes): Parsed
    decreases |s|
  {
    match ReadTag(s)
    case EndOfMessage => Parsed([], Clean)
    case BadTag => Parsed([], AtBadTag)
    case GoodTag(num, wire, used) =>
      match ReadPayload(wire, s[used..])
      case None => Parsed([], AtBadPayload)
      case Some(Taken(val, more)) =>
        var p := Parse(s[used + more..]);
        Parsed([Field(num, val)] + p.fields, p.ending)
  }

  /** One step of the walk over the fields of `s`, by how its tag and payload read. */
  lemma ParseStep(s: bytes)
    ensures ReadTag(s).EndOfMessage? ==> Parse(s) == Parsed([], Clean)
    ensures ReadTag(s).BadTag? ==> Parse(s) == Parsed([], AtBadTag)
    ensures ReadTag(s).GoodTag? ==>
              var t := ReadTag(s);
              var p := ReadPayload(t.wire, s[t.used..]);
              if p.None? then Parse(s) == Parsed([], AtBadPayload)
              else
                var next := Parse(s[t.used..][p.value.used..]);
                && Parse(s) == Parsed([Field(t.num, p.value.val)] + next.fields, next.ending)
                && Parse(s).fields[0] == Field(t.num, p.value.val)
                && Parse(s).fields[1..] == next.fields
  {
    hide ReadTag, ReadPayload;
    var t := ReadTag(s);
    if t.GoodTag? {
      var p := ReadPayload(t.wire, s[t.used..]);
      if p.Some? {
        assert s[t.used..][p.value.used..] == s[t.used + p.value.used..];
        var next := Parse(s[t.used + p.value.used..]);
        assert Parse(s) == Parsed([Field(t.num, p.value.val)] + next.fields, next.ending);
        hide Parse;
        Seam([Field(t.num, p.value.val)], next.fields);
      }
    }
  }

  predicate IsBytes(f: Field, num: nat) {
    f.num == num && f.val.BytesP?
  }

  predicate IsVarintField(f: Field, num: nat) {
    f.num == num && f.val.VarintP?
  }

  predicate IsFixed64(f: Field, num: nat) {
    f.num == num && f.val.Fixed64P?
  }

  // ------------------------ Encodings ------------------------

  /** One field as it may appear on the wire. The varints are kept as raw bytes so that every
      legal spelling of a tag, a length or a value is covered. */
  datatype WireField = WireField(tag: bytes, body: WireBody)
  datatype WireBody = RawVarint(raw: bytes) | RawFixed64(raw: bytes) | RawFixed32(raw: bytes)
                    | RawBytes(len: bytes, data: bytes)

  function WireCode(b: WireBody): nat {
    match b
    case RawVarint(_) => 0
    case RawFixed64(_) => 1
    case RawBytes(_, _) => 2
    case RawFixed32(_) => 5
  }

  predicate LegalBody(b: WireBody) {
    match b
    case RawVarint(raw) => IsVarint(raw)
    case RawFixed64(raw) => |raw| == 8
    case RawFixed32(raw) => |raw| == 4
    case RawBytes(len, data) => IsVarint(len) && VarintValue(len) == |data|
  }

  predicate Legal(w: WireField) {
    && IsVarint(w.tag)
    && VarintValue(w.tag) % 8 == WireCode(w.body)
    && VarintValue(w.tag) / 8 % 0x1_0000_0000 != 0
    && LegalBody(w.body)
  }

  predicate AllLegal(ws: seq<WireField>) {
    forall i :: 0 <= i < |ws| ==> Legal(ws[i])
  }

  function EmitBody(b: WireBody): bytes {
    match b
    case RawVarint(raw) => raw
    case RawFixed64(raw) => raw
    case RawFixed32(raw) => raw
    case RawBytes(len, data) => len + data
  }

  function Emit(ws: seq<WireField>): bytes {
    if ws == [] then [] else ws[0].tag + EmitBody(ws[0].body) + Emit(ws[1..])
  }

  function MeaningOfBody(b: WireBody): Payload
    requires LegalBody(b)
  {
    match b
    case RawVarint(raw) => VarintP(VarintValue(raw))
    case RawFixed64(raw) => Fixed64P(Word(raw))
    case RawFixed32(raw) => Fixed32P(Word(raw))
    case RawBytes(len, data) => BytesP(data)
  }

  function Meaning(ws: seq<WireField>): seq<Field>
    requires AllLegal(ws)
  {
    if ws == [] then []
    else [FieldOf(ws[0])] + Meaning(ws[1..])
  }

  lemma ReadBytesExact(len: bytes, data: bytes, rest: bytes)
    requires IsVarint(len) && VarintValue(len) == |data|
    ensures ReadPayload(BYTES, len + (data + rest)) == Some(Taken(BytesP(data), |len| + |data|))
  {
    ReadVarintExact(len, data + rest);
    assert (len + (data + rest))[|len|..|len| + |data|] == data;
  }

  lemma ReadFixed64Exact(raw: bytes, rest: bytes)
    requires |raw| == 8
    ensures ReadPayload(FIXED64, raw + rest) == Some(Taken(Fixed64P(Word(raw)), 8))
  {
    assert (raw + rest)[..8] == raw;
  }

  lemma ReadFixed32Exact(raw: bytes, rest: bytes)
    requires |raw| == 4
    ensures ReadPayload(FIXED32, raw + rest) == Some(Taken(Fixed32P(Word(raw)), 4))
  {
    assert (raw + rest)[..4] == raw;
  }

  lemma ReadPayloadExact(b: WireBody, rest: bytes)
    requires LegalBody(b)
    ensures ReadPayload(WireCode(b), EmitBody(b) + rest)
            == Some(Taken(MeaningOfBody(b), |EmitBody(b)|))
  {
    hide ReadVarint, IsVarint, VarintValue, Word;
    match b
    case RawVarint(raw) => ReadVarintExact(raw, rest);
    case RawFixed64(raw) => ReadFixed64Exact(raw, rest);
    case RawFixed32(raw) => ReadFixed32Exact(raw, rest);
    case RawBytes(len, data) =>
      ReadBytesExact(len, data, rest);
      assert EmitBody(b) + rest == len + (data + rest);
  }

  function FieldOf(w: WireField): Field
    requires Legal(w)
  {
    Field(VarintValue(w.tag) / 8 % 0x1_0000_0000, MeaningOfBody(w.body))
  }

  lemma ReadTagExact(w: WireField, rest: bytes)
    requires Legal(w)
    ensures ReadTag(w.tag + rest) == GoodTag(FieldOf(w).num, WireCode(w.body), |w.tag|)
  {
    ReadVarintExact(w.tag, rest);
  }

  lemma ParsePrepend(w: WireField, tail: bytes)
    requires Legal(w)
    ensures Parse(w.tag + (EmitBody(w.body) + tail))
            == Parsed([FieldOf(w)] + Parse(tail).fields, Parse(tail).ending)
  {
    var body := EmitBody(w.body) + tail;
    var s := w.tag + body;
    ReadTagExact(w, body);
    ReadPayloadExact(w.body, tail);
    assert s[|w.tag|..] == body;
    assert body[|EmitBody(w.body)|..] == tail;
    ParseStep(s);
  }

  /** Parsing inverts every legal spelling of every field list. */
  lemma {:induction false} ParseInvertsEmit(ws: seq<WireField>)
    requires AllLegal(ws)
    ensures Parse(Emit(ws)) == Parsed(Meaning(ws), Clean)
  {
    if ws != [] {
      var w, tail := ws[0], Emit(ws[1..]);
      assert Emit(ws) == w.tag + (EmitBody(w.body) + tail);
      ParsePrepend(w, tail);
      ParseInvertsEmit(ws[1..]);
    }
  }

  lemma BodyOfPayload(wire: nat, s: bytes) returns (b: WireBody)
    requires ReadPayload(wire, s).Some?
    ensures LegalBody(b) && WireCode(b) == wire
    ensures EmitBody(b) == s[..ReadPayload(wire, s).value.used]
    ensures MeaningOfBody(b) == ReadPayload(wire, s).value.val
  {
    var used := ReadPayload(wire, s).value.used;
    if wire == VARINT {
      b := RawVarint(s[..used]);
    } else if wire == FIXED64 {
      b := RawFixed64(s[..8]);
    } else if wire == FIXED32 {
      b := RawFixed32(s[..4]);
    } else {
      var n := ReadVarint(s).value.1;
      b := RawBytes(s[..n], s[n..used]);
      assert s[..n] + s[n..used] == s[..used];
    }
  }

  lemma TagIsVarint(s: bytes)
    requires ReadTag(s).GoodTag?
    ensures var t := ReadTag(s);
            && IsVarint(s[..t.used])
            && VarintValue(s[..t.used]) % 8 == t.wire
            && VarintValue(s[..t.used]) / 8 % 0x1_0000_0000 == t.num
  {
  }

  /** The first field of a message that can be read, as it was spelled. */
  lemma HeadField(s: bytes) returns (w: WireField, rest: bytes)
    requires ReadTag(s).GoodTag? && ReadPayload(ReadTag(s).wire, s[ReadTag(s).used..]).Some?
    ensures Legal(w) && s == w.tag + (EmitBody(w.body) + rest) && |rest| < |s|
  {
    hide ReadTag, ReadPayload, IsVarint, VarintValue, KeyNum, LegalBody, EmitBody, WireCode;
    var t := ReadTag(s);
    var body := s[t.used..];
    var p := ReadPayload(t.wire, body).value;
    TagIsVarint(s);
    var b := BodyOfPayload(t.wire, body);
    w, rest := WireField(s[..t.used], b), body[p.used..];
    assert body == EmitBody(b) + rest;
    assert s == w.tag + body;
  }

  /** Conversely, a byte string that parses to its end is the emission of some legal fields. */
  lemma {:induction false} CleanParseIsEmission(s: bytes) returns (ws: seq<WireField>)
    requires Parse(s).ending.Clean?
    ensures AllLegal(ws) && Emit(ws) == s && Meaning(ws) == Parse(s).fields
    decreases |s|
  {
    hide Parse, ReadTag, ReadPayload, Legal, EmitBody, FieldOf;
    ParseStep(s);
    if s == [] {
      ws := [];
    } else {
      var w, rest := HeadField(s);
      ParsePrepend(w, rest);
      var more := CleanParseIsEmission(rest);
      ws := [w] + more;
      assert ws[1..] == more;
    }
  }
}
