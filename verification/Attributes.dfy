/** KeyValue and AnyValue attributes rendered as JSON (otlp_common.c). The functions say what is
    written; the methods are the code's loops over a reader and a bounded builder. */
module Attributes {
  import opened Bytes
  import opened Wire
  import opened Reading
  import opened Utf8
  import opened Builder

  const MAX_DEPTH := 4
  const KEY_CAP := 256
  const HEX_CAP := 129

  /** How a double is printed ("%.17g"), left to the C library. */
  type DoubleFormat = u64 -> string

  // ------------------------ Scalars ------------------------

  function Hex(b: bytes): (s: string)
    ensures |s| == 2 * |b|
    ensures forall i :: 0 <= i < |s| ==> s[i] as int < 0x80
  {
    if b == [] then "" else [HEX_DIGITS[b[0] / 16], HEX_DIGITS[b[0] % 16]] + Hex(b[1..])
  }

  /** pw_to_hex: as many whole bytes as fit a buffer of `cap`. */
  function HexCut(b: bytes, cap: nat): (s: string)
    requires cap > 0
    ensures |s| < cap && forall i :: 0 <= i < |s| ==> s[i] as int < 0x80
  {
    Hex(Take(b, (cap - 1) / 2))
  }

  function Nibble(c: char): int {
    if '0' <= c <= '9' then c as int - '0' as int
    else if 'a' <= c <= 'f' then c as int - 'a' as int + 10
    else -1
  }

  /** `s` spells the first bytes of `b`, at most `n` of them, in lower-case hexadecimal. */
  predicate Hexed(b: bytes, n: nat, s: string) {
    var k := if |b| < n then |b| else n;
    && |s| == 2 * k
    && forall i :: 0 <= i < k ==> Nibble(s[2 * i]) == b[i] / 16 && Nibble(s[2 * i + 1]) == b[i] % 16
  }

  lemma DigitIsNibble(n: nat)
    requires n < 16
    ensures Nibble(HEX_DIGITS[n]) == n
  {
  }

  lemma {:induction false} HexIsHexed(b: bytes)
    ensures Hexed(b, |b|, Hex(b))
  {
    hide Nibble, HEX_DIGITS;
    if b != [] {
      HexIsHexed(b[1..]);
      DigitIsNibble(b[0] / 16);
      DigitIsNibble(b[0] % 16);
      var s, rest := Hex(b), Hex(b[1..]);
      forall i | 0 < i < |b| ensures Nibble(s[2 * i]) == b[i] / 16 && Nibble(s[2 * i + 1]) == b[i] % 16 {
        assert s[2 * i] == rest[2 * (i - 1)] && s[2 * i + 1] == rest[2 * (i - 1) + 1] && b[i] == b[1..][i - 1];
      }
    }
  }

  lemma HexCutIsHexed(b: bytes, cap: nat)
    requires cap > 0
    ensures Hexed(b, (cap - 1) / 2, HexCut(b, cap))
  {
    hide Hex, Nibble;
    HexIsHexed(Take(b, (cap - 1) / 2));
  }

  lemma {:induction false} HexSnoc(b: bytes, x: byte)
    ensures Hex(b + [x]) == Hex(b) + [HEX_DIGITS[x / 16], HEX_DIGITS[x % 16]]
  {
    if b == [] {
      assert [x][1..] == [];
    } else {
      assert (b + [x])[1..] == b[1..] + [x];
      HexSnoc(b[1..], x);
      var first, last := [HEX_DIGITS[b[0] / 16], HEX_DIGITS[b[0] % 16]], [HEX_DIGITS[x / 16], HEX_DIGITS[x % 16]];
      Associates(first, Hex(b[1..]), last);
    }
  }

  method ToHex(src: bytes, cap: nat) returns (dst: string)
    requires cap > 0
    ensures dst == HexCut(src, cap)
  {
    var max := (cap - 1) / 2;
    var n := |src|;
    if n > max { n := max; }
    dst := "";
    for i := 0 to n
      invariant dst == Hex(src[..i])
    {
      HexSnoc(src[..i], src[i]);
      assert src[..i + 1] == src[..i] + [src[i]];
      dst := dst + [HEX_DIGITS[src[i] / 16], HEX_DIGITS[src[i] % 16]];
    }
    assert src[..n] == Take(src, max);
  }

  /** "%lld". */
  function Decimal(i: int): string {
    if i < 0 then "-" + DecimalNat(-i) else DecimalNat(i)
  }

  // ------------------------ Strings ------------------------

  function EscapeAscii(c: byte): string
    requires c < 0x80
  {
    if c == 0x22 then "\\\""
    else if c == 0x5C then "\\\\"
    else if c == 10 then "\\n"
    else if c == 13 then "\\r"
    else if c == 9 then "\\t"
    else if c < 0x20 then "\\u00" + [HEX_DIGITS[c / 16], HEX_DIGITS[c % 16]]
    else [c as char]
  }

  /** One scanned character: how many bytes it takes and what is written for it. */
  function UnitLen(s: bytes): (n: nat)
    requires s != []
    ensures 0 < n <= |s|
  {
    if SeqLen(s) == 0 then 1 else SeqLen(s)
  }

  function UnitText(s: bytes): string
    requires s != []
  {
    if s[0] < 0x80 then EscapeAscii(s[0])
    else if SeqLen(s) == 0 then "\\ufffd"
    else Chars(s[..SeqLen(s)])
  }

  function Escaped(s: bytes): string {
    if s == [] then "" else UnitText(s) + Escaped(s[UnitLen(s)..])
  }

  function Quoted(s: bytes): string {
    "\"" + Escaped(s) + "\""
  }

  method JsonString(sb: StringBuilder, s: bytes)
    requires sb.Valid()
    modifies sb, sb.buf
    ensures sb.Valid() && sb.text == old(sb.text) + Quoted(s)
  {
    hide UnitText, UnitLen;
    sb.Putc('"');
    ghost var start := sb.text;
    var i := 0;
    while i < |s|
      invariant 0 <= i <= |s| && sb.Valid()
      invariant sb.text + Escaped(s[i..]) == start + Escaped(s)
    {
      ghost var before := sb.text;
      var n := PutUnit(sb, s, i);
      assert s[i..][n..] == s[i + n..];
      assert before + (UnitText(s[i..]) + Escaped(s[i + n..])) == sb.text + Escaped(s[i + n..]);
      i := i + n;
    }
    assert sb.text == start + Escaped(s);
    sb.Putc('"');
    assert sb.text == old(sb.text) + Quoted(s);
  }

  /** The body of the escaping loop. */
  method PutUnit(sb: StringBuilder, s: bytes, i: nat) returns (n: nat)
    requires sb.Valid() && i < |s|
    modifies sb, sb.buf
    ensures sb.Valid() && n == UnitLen(s[i..]) && sb.text == old(sb.text) + UnitText(s[i..])
  {
    if s[i] < 0x80 {
      PutAscii(sb, s[i]);
      return 1;
    }
    n := Utf8SeqLen(s[i..]);
    if n == 0 {
      sb.Puts("\\ufffd");
      return 1;
    }
    PutRaw(sb, s, i, n);
    assert s[i..][..n] == s[i..i + n];
  }

  method PutAscii(sb: StringBuilder, c: byte)
    requires sb.Valid() && c < 0x80
    modifies sb, sb.buf
    ensures sb.Valid() && sb.text == old(sb.text) + EscapeAscii(c)
  {
    if c == 0x22 || c == 0x5C {
      sb.Putc('\\');
      sb.Putc(c as char);
    } else if c == 10 {
      sb.Puts("\\n");
    } else if c == 13 {
      sb.Puts("\\r");
    } else if c == 9 {
      sb.Puts("\\t");
    } else if c < 0x20 {
      sb.Puts("\\u00" + [HEX_DIGITS[c / 16], HEX_DIGITS[c % 16]]);
    } else {
      sb.Putc(c as char);
    }
  }

  method PutRaw(sb: StringBuilder, s: bytes, i: nat, n: nat)
    requires sb.Valid() && i + n <= |s|
    modifies sb, sb.buf
    ensures sb.Valid() && sb.text == old(sb.text) + Chars(s[i..i + n])
  {
    for k := 0 to n
      invariant sb.Valid() && sb.text == old(sb.text) + Chars(s[i..i + k])
    {
      sb.Putc(s[i + k] as char);
      assert Chars(s[i..i + k + 1]) == Chars(s[i..i + k]) + [s[i + k] as char];
    }
  }

  // ------------------------ KeyValue ------------------------

  datatype KeyValue = KeyValue(key: bytes, value: Option<bytes>)

  /** The stored key: at most 255 bytes, ended by a NUL. */
  function KeyCut(b: bytes): (key: bytes)
    ensures StoredAs(b, 255, Chars(key))
  {
    CBytes(Take(b, KEY_CAP - 1))
  }

  /** Later fields overwrite earlier ones. */
  function KvFold(fs: seq<Field>, kv: KeyValue): KeyValue {
    if fs == [] then kv
    else if IsBytes(fs[0], 1) then KvFold(fs[1..], kv.(key := KeyCut(fs[0].val.data)))
    else if IsBytes(fs[0], 2) then KvFold(fs[1..], kv.(value := Some(fs[0].val.data)))
    else KvFold(fs[1..], kv)
  }

  function KvOf(s: bytes): KeyValue {
    KvFold(Parse(s).fields, KeyValue([], None))
  }

  method ParseKv(kv: Reader) returns (key: bytes, value: Reader?)
    requires kv.Valid()
    modifies kv
    ensures key == KvOf(old(kv.Rest())).key
    ensures value == null <==> KvOf(old(kv.Rest())).value.None?
    ensures value != null ==> fresh(value) && value.Valid() && KvOf(old(kv.Rest())).value == Some(value.Rest())
  {
    hide Parse, ReadTag, ReadPayload, KeyCut;
    key, value := [], null;
    ghost var acc := KeyValue([], None);
    ghost var goal := KvOf(kv.Rest());
    while true
      invariant kv.Valid()
      invariant value != null ==> fresh(value) && value.Valid()
      invariant acc == KeyValue(key, if value == null then None else Some(value.Rest()))
      invariant KvFold(Parse(kv.Rest()).fields, acc) == goal
      decreases kv.end - kv.pos
    {
      ParseStep(kv.Rest());
      var rc, num, wire := kv.Next();
      if rc != 1 { break; }
      if num == 1 && wire == BYTES {
        var ok, s := kv.Bytes();
        if !ok { return; }
        key := KeyCut(s);
        acc := acc.(key := key);
      } else if num == 2 && wire == BYTES {
        var ok, sub := kv.Submsg();
        if !ok { return; }
        value := sub;
        acc := acc.(value := Some(sub.Rest()));
      } else {
        PayloadKind(wire, kv.Rest());
        var ok := kv.Skip(wire);
        if !ok { return; }
      }
    }
  }

  /** The first string among the fields of an AnyValue. */
  function FirstString(fs: seq<Field>): Option<bytes> {
    if fs == [] then None
    else if IsBytes(fs[0], 1) then Some(fs[0].val.data)
    else FirstString(fs[1..])
  }

  method AnyValueAsString(value: Reader, cap: nat) returns (out: Option<string>)
    requires value.Valid() && cap > 0
    modifies value
    ensures out == match FirstString(Parse(old(value.Rest())).fields)
                   case None => None
                   case Some(b) => Some(CopyStr(b, cap))
  {
    hide Parse, ReadTag, ReadPayload, CopyStr;
    ghost var goal := FirstString(Parse(value.Rest()).fields);
    while true
      invariant value.Valid()
      invariant FirstString(Parse(value.Rest()).fields) == goal
      decreases value.end - value.pos
    {
      ParseStep(value.Rest());
      var rc, num, wire := value.Next();
      if rc != 1 { break; }
      if num == 1 && wire == BYTES {
        var ok, s := value.Bytes();
        if !ok { return None; }
        return Some(CopyStr(s, cap));
      }
      PayloadKind(wire, value.Rest());
      var ok := value.Skip(wire);
      if !ok { return None; }
    }
    return None;
  }

  /** A payload has the shape its wire type says. */
  lemma PayloadKind(wire: nat, s: bytes)
    ensures var p := ReadPayload(wire, s);
            p.Some? ==>
              && (p.value.val.VarintP? <==> wire == VARINT)
              && (p.value.val.Fixed64P? <==> wire == FIXED64)
              && (p.value.val.BytesP? <==> wire == BYTES)
              && (p.value.val.Fixed32P? <==> wire == FIXED32)
  {
  }
}
