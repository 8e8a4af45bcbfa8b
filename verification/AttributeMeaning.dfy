/** The printed attributes, read back by the reference reader, are the attribute tree. */
module AttributeMeaning {
  import opened Bytes
  import opened Wire
  import opened Utf8
  import opened Json
  import opened JsonPrefix
  import opened Attributes
  import opened Rendering
  import opened AttributeTree

  // ------------------------ Strings ------------------------

  lemma AsciiReads(c: byte, tail: string)
    requires c < 0x80
    ensures ReadChars(EscapeAscii(c) + tail) == Prefixed([c as char], ReadChars(tail))
  {
    var s := EscapeAscii(c) + tail;
    Seam(EscapeAscii(c), tail);
    if c == 0x22 || c == 0x5C || c == 10 || c == 13 || c == 9 {
      hide Utf8Of, HexValue, FourHex;
      assert |EscapeAscii(c)| == 2 && s[..2] == EscapeAscii(c);
    } else if c < 0x20 {
      ControlReads(c, tail);
    } else {
      assert EscapeAscii(c) == [c as char];
    }
  }

  lemma ControlReads(c: byte, tail: string)
    requires c < 0x20 && c != 10 && c != 13 && c != 9
    ensures ReadChars(EscapeAscii(c) + tail) == Prefixed([c as char], ReadChars(tail))
  {
    var e, digits := EscapeAscii(c), "00" + [HEX_DIGITS[c / 16], HEX_DIGITS[c % 16]];
    assert e == "\\u" + digits;
    HexDigits(c / 16);
    HexDigits(c % 16);
    assert FourHex(digits) && HexValue(digits) == c && Utf8Of(c) == [c as char];
    hide HexValue, Utf8Of, FourHex, EscapeAscii;
    var s := e + tail;
    Seam(e, tail);
    assert s[2..6] == digits && s[0] == '\\' && s[1] == 'u';
  }

  lemma HexDigits(n: nat)
    requires n < 16
    ensures HexDigit(HEX_DIGITS[n]) == n
  {
  }

  lemma ReplacementReads(tail: string)
    ensures ReadChars("\\ufffd" + tail) == Prefixed(Chars(REPLACEMENT), ReadChars(tail))
  {
    var s := "\\ufffd" + tail;
    assert s[2..6] == "fffd" && s[6..] == tail;
    assert HexValue("fffd") == 0xFFFD;
    assert Utf8Of(0xFFFD) == Chars(REPLACEMENT);
  }

  lemma {:induction false} RawReads(u: bytes, tail: string)
    requires forall i :: 0 <= i < |u| ==> u[i] >= 0x80
    ensures ReadChars(Chars(u) + tail) == Prefixed(Chars(u), ReadChars(tail))
  {
    if u == [] {
      assert Chars(u) + tail == tail;
      PrefixNothing(ReadChars(tail));
    } else {
      RawReads(u[1..], tail);
      assert Chars(u) + tail == [u[0] as char] + (Chars(u[1..]) + tail);
      assert Chars(u) == [u[0] as char] + Chars(u[1..]);
      PrefixTwice([u[0] as char], Chars(u[1..]), ReadChars(tail));
    }
  }

  lemma PrefixNothing(r: Reply<string>)
    ensures Prefixed("", r) == r
  {
    if r.Ok? { assert "" + r.value == r.value; }
  }

  lemma PrefixTwice(a: string, b: string, r: Reply<string>)
    ensures Prefixed(a, Prefixed(b, r)) == Prefixed(a + b, r)
  {
    if r.Ok? { assert a + (b + r.value) == a + b + r.value; }
  }

  /** What is stored for one scanned character. */
  function UnitMeaning(s: bytes): bytes
    requires s != []
  {
    if SeqLen(s) == 0 then REPLACEMENT else s[..SeqLen(s)]
  }

  lemma UnitReads(s: bytes, tail: string)
    requires s != []
    ensures ReadChars(UnitText(s) + tail) == Prefixed(Chars(UnitMeaning(s)), ReadChars(tail))
  {
    hide ReadChars;
    if s[0] < 0x80 {
      AsciiReads(s[0], tail);
      assert Chars(s[..1]) == [s[0] as char];
    } else if SeqLen(s) == 0 {
      ReplacementReads(tail);
    } else {
      LenImpliesAccepted(s);
      RawReads(s[..SeqLen(s)], tail);
    }
  }

  lemma PrefixedOk(front: string, v: string, rest: string)
    ensures Prefixed(front, Ok(v, rest)) == Ok(front + v, rest)
  {
  }

  /** An escaped string, read back, is the sanitised input. */
  lemma {:induction false} StringReads(s: bytes, rest: string)
    ensures ReadChars(Escaped(s) + ("\"" + rest)) == Ok(Chars(Sanitized(s)), rest)
    decreases |s|
  {
    var tail := "\"" + rest;
    if s == [] {
      assert Escaped(s) + tail == tail && tail[1..] == rest;
    } else {
      hide UnitText, UnitMeaning, UnitLen, ReadChars, Sanitized, Escaped;
      var n := UnitLen(s);
      FirstUnit(s);
      Associates(UnitText(s), Escaped(s[n..]), tail);
      UnitReads(s, Escaped(s[n..]) + tail);
      StringReads(s[n..], rest);
      PrefixedOk(Chars(UnitMeaning(s)), Chars(Sanitized(s[n..])), rest);
    }
  }

  lemma FirstUnit(s: bytes)
    requires s != []
    ensures Escaped(s) == UnitText(s) + Escaped(s[UnitLen(s)..])
    ensures Chars(Sanitized(s)) == Chars(UnitMeaning(s)) + Chars(Sanitized(s[UnitLen(s)..]))
  {
    FirstUnitMeaning(s);
    CharsJoin(UnitMeaning(s), Sanitized(s[UnitLen(s)..]));
    hide SeqLen, UnitText, Sanitized, UnitMeaning;
  }

  lemma FirstUnitMeaning(s: bytes)
    requires s != []
    ensures Sanitized(s) == UnitMeaning(s) + Sanitized(s[UnitLen(s)..])
  {
    hide SeqLen;
  }

  lemma CharsJoin(a: bytes, b: bytes)
    ensures Chars(a + b) == Chars(a) + Chars(b)
  {
  }

  // ------------------------ Numbers ------------------------

  /** The printed digits denote the number, with no superfluous zero. */
  lemma {:induction false} DecimalDenotes(n: nat)
    ensures var s := DecimalNat(n);
            && (forall i :: 0 <= i < |s| ==> IsDigit(s[i]))
            && NatOf(s) == n
            && (s[0] == '0' ==> s == "0")
  {
    DigitDenotes(n % 10);
    hide HEX_DIGITS;
    if n >= 10 {
      DecimalDenotes(n / 10);
      var s := DecimalNat(n);
      assert s[..|s| - 1] == DecimalNat(n / 10);
    } else {
      assert DecimalNat(n)[..0] == "";
    }
  }

  lemma DigitDenotes(d: nat)
    requires d < 10
    ensures IsDigit(HEX_DIGITS[d]) && HEX_DIGITS[d] as int == '0' as int + d
  {
  }

  lemma {:induction false} DigitsOfDigits(s: string)
    requires forall i :: 0 <= i < |s| ==> IsDigit(s[i])
    ensures Digits(s) == |s|
  {
    if s != "" { DigitsOfDigits(s[1..]); }
  }

  /** The printed integer is a JSON number and denotes the integer, its sign included. */
  lemma DecimalIsNumber(i: int)
    ensures IsNumber(Decimal(i)) && Numeral(Decimal(i)) == JInt(i)
  {
    var n := if i < 0 then -i else i;
    var s, d := Decimal(i), DecimalNat(n);
    DecimalDenotes(n);
    DigitsOfDigits(d);
    var m := if i < 0 then 1 else 0;
    assert s[m..] == d;
    assert MinusLen(s) == m;
    assert IntLen(d) == |d|;
    assert s[m + |d|..] == "";
  }

  // ------------------------ Values ------------------------

  /** The JSON value a tree stands for when printed at `depth`. */
  function Meaning(g: DoubleFormat, v: Any, depth: nat): Json
    decreases v, 1
  {
    if depth > MAX_DEPTH then JNull
    else match v
      case Empty => JNull
      case Str(text) => JString(Chars(Sanitized(text)))
      case Bool(b) => JBool(b)
      case Int(word) => JInt(ToInt64(word))
      case Double(bits) => Numeral(g(bits))
      case Array(elems) => JArray(ElemMeanings(g, elems, depth))
      case KvList(entries) => JObject(EntryMeanings(g, entries, depth))
      case Blob(data) => JString(HexCut(data, HEX_CAP))
  }

  function ElemMeanings(g: DoubleFormat, vs: seq<Any>, depth: nat): seq<Json>
    decreases vs, 0
  {
    if vs == [] then [] else [Meaning(g, vs[0], depth + 1)] + ElemMeanings(g, vs[1..], depth)
  }

  function EntryMeanings(g: DoubleFormat, es: seq<Attr>, depth: nat): seq<Member>
    decreases es, 0
  {
    if es == [] then []
    else if KeyCut(es[0].key) == [] then EntryMeanings(g, es[1..], depth)
    else [EntryMeaning(g, es[0], depth)] + EntryMeanings(g, es[1..], depth)
  }

  function EntryMeaning(g: DoubleFormat, e: Attr, depth: nat): Member
    decreases e, 0
  {
    Member(Chars(Sanitized(KeyCut(e.key))), Meaning(g, e.val, depth + 1))
  }

  /** What is not printed as it is: a value inside five containers, an empty one, the bytes of a blob
      past the 64th, an entry whose key is empty, and the part of a key behind 255 bytes or a NUL. */
  lemma WhatIsCut(g: DoubleFormat, v: Any, depth: nat)
    ensures Meaning(g, v, depth) == JNull <==> depth >= 5 || v.Empty?
    ensures v.Blob? && depth < 5 ==>
              Meaning(g, v, depth).JString? && Hexed(v.data, 64, Meaning(g, v, depth).text)
  {
    hide Hexed, HexCut;
    if v.Blob? { HexCutIsHexed(v.data, 129); }
  }

  lemma KeysAreCut(key: bytes)
    ensures StoredAs(key, 255, Chars(KeyCut(key)))
    ensures KeyCut(key) == [] <==> key == [] || key[0] == 0
  {
    hide KeyCut;
    assert |Chars(KeyCut(key))| == |KeyCut(key)|;
  }

  /** Every double in the tree prints as a JSON number; "%.17g" does so for finite values. */
  predicate Finite(g: DoubleFormat, v: Any)
    decreases v, 1
  {
    match v
    case Double(bits) => IsNumber(g(bits))
    case Array(elems) => forall i :: 0 <= i < |elems| ==> Finite(g, elems[i])
    case KvList(entries) => AllFinite(g, entries)
    case _ => true
  }

  predicate AllFinite(g: DoubleFormat, es: seq<Attr>)
    decreases es, 0
  {
    forall i :: 0 <= i < |es| ==> Finite(g, es[i].val)
  }

  lemma QuotedReads(s: bytes, rest: string)
    ensures ReadValue(Quoted(s) + rest) == Ok(JString(Chars(Sanitized(s))), rest)
  {
    hide ReadChars, Escaped, Sanitized;
    StringReads(s, rest);
    var t := Quoted(s) + rest;
    assert t[0] == '"' && t[1..] == Escaped(s) + ("\"" + rest);
  }

  lemma NumberReads(t: string, rest: string)
    requires IsNumber(t) && Closes(rest)
    ensures ReadValue(t + rest) == Ok(Numeral(t), rest)
  {
    hide NumberLen, ReadChars, ReadElements, ReadMembers;
    NumberStops(t, rest);
    NumberStart(t);
    var s := t + rest;
    assert s[0] == t[0];
    assert s[..|t|] == t && s[|t|..] == rest;
  }

  lemma WordReads(rest: string)
    ensures ReadValue("null" + rest) == Ok(JNull, rest)
    ensures ReadValue("true" + rest) == Ok(JBool(true), rest)
    ensures ReadValue("false" + rest) == Ok(JBool(false), rest)
  {
    hide ReadChars, NumberLen;
    var n, t, f := "null" + rest, "true" + rest, "false" + rest;
    assert n[0] == 'n' && "null" <= n && n[4..] == rest;
    assert t[0] == 't' && "true" <= t && t[4..] == rest;
    assert f[0] == 'f' && "false" <= f && f[5..] == rest;
  }

  /** Printing then reading gives the meaning of the tree back, whatever closes the value. */
  lemma {:induction false} PrintedValueReads(g: DoubleFormat, v: Any, depth: nat, rest: string)
    requires Finite(g, v) && Closes(rest)
    ensures ReadValue(PrintAny(g, v, depth) + rest) == Ok(Meaning(g, v, depth), rest)
    decreases v, 2
  {
    hide ReadValue, Quoted, Sanitized, Decimal, HexCut;
    WordReads(rest);
    if depth <= MAX_DEPTH {
      match v
      case Empty =>
      case Bool(b) =>
      case Str(text) => QuotedReads(text, rest);
      case Int(word) => DecimalIsNumber(ToInt64(word)); NumberReads(Decimal(ToInt64(word)), rest);
      case Double(bits) => NumberReads(g(bits), rest);
      case Blob(data) => BlobReads(data, rest);
      case Array(elems) => ArrayReads(g, elems, depth, rest);
      case KvList(entries) => ObjectReads(g, entries, depth, rest);
    }
  }

  lemma BlobReads(data: bytes, rest: string)
    ensures ReadValue(Quoted(HexBytes(data)) + rest) == Ok(JString(HexCut(data, HEX_CAP)), rest)
  {
    hide ReadValue, Quoted;
    QuotedReads(HexBytes(data), rest);
    AsciiIsKept(HexBytes(data));
  }

  lemma {:induction false} AsciiIsKept(s: bytes)
    requires forall i :: 0 <= i < |s| ==> s[i] < 0x80
    ensures Sanitized(s) == s
  {
    if s != [] { AsciiIsKept(s[1..]); }
  }

  lemma {:induction false} ArrayReads(g: DoubleFormat, vs: seq<Any>, depth: nat, rest: string)
    requires depth <= MAX_DEPTH && forall i :: 0 <= i < |vs| ==> Finite(g, vs[i])
    ensures ReadValue("[" + PrintElems(g, vs, true, depth) + "]" + rest)
            == Ok(JArray(ElemMeanings(g, vs, depth)), rest)
    decreases vs, 4
  {
    hide ReadElements, ReadMembers, ReadChars, NumberLen, PrintAny, Meaning, Finite;
    var body := PrintElems(g, vs, true, depth) + ("]" + rest);
    var s := "[" + PrintElems(g, vs, true, depth) + "]" + rest;
    assert s == "[" + body && s[1..] == body;
    if vs == [] {
      assert body[1..] == rest;
    } else {
      ElemsRead(g, vs, depth, rest);
      ValueStart(g, vs[0], depth + 1, PrintElems(g, vs[1..], false, depth) + ("]" + rest));
      assert body == PrintAny(g, vs[0], depth + 1) + (PrintElems(g, vs[1..], false, depth) + ("]" + rest));
    }
  }

  lemma {:induction false} ElemsRead(g: DoubleFormat, vs: seq<Any>, depth: nat, rest: string)
    requires vs != [] && forall i :: 0 <= i < |vs| ==> Finite(g, vs[i])
    ensures ReadElements(PrintElems(g, vs, true, depth) + ("]" + rest))
            == Ok(ElemMeanings(g, vs, depth), rest)
    decreases vs, 3
  {
    hide ReadValue, PrintAny, Meaning, Finite;
    var v, more := vs[0], vs[1..];
    var tail := PrintElems(g, more, false, depth) + ("]" + rest);
    assert PrintElems(g, vs, true, depth) + ("]" + rest) == PrintAny(g, v, depth + 1) + tail;
    if more == [] {
      assert tail == "]" + rest && tail[1..] == rest;
      assert ElemMeanings(g, vs, depth) == [Meaning(g, v, depth + 1)];
    } else {
      assert tail == "," + (PrintElems(g, more, true, depth) + ("]" + rest));
      assert tail[1..] == PrintElems(g, more, true, depth) + ("]" + rest);
      ElemsRead(g, more, depth, rest);
    }
    PrintedValueReads(g, v, depth + 1, tail);
  }

  /** A printed value starts neither with white space nor with a closing bracket. */
  lemma ValueStart(g: DoubleFormat, v: Any, depth: nat, tail: string)
    requires Finite(g, v)
    ensures var s := PrintAny(g, v, depth) + tail;
            s != "" && !IsWs(s[0]) && s[0] != ']' && s[0] != '}' && SkipWs(s) == s
  {
    TextStart(g, v, depth);
    hide PrintAny, Finite;
    assert (PrintAny(g, v, depth) + tail)[0] == PrintAny(g, v, depth)[0];
  }

  lemma TextStart(g: DoubleFormat, v: Any, depth: nat)
    requires Finite(g, v)
    ensures var s := PrintAny(g, v, depth); s != "" && !IsWs(s[0]) && s[0] != ']' && s[0] != '}'
  {
    hide Escaped, PrintElems, PrintEntries, HexBytes, Decimal, IsNumber;
    if depth <= MAX_DEPTH {
      match v
      case Int(word) => DecimalIsNumber(ToInt64(word)); NumberStart(Decimal(ToInt64(word)));
      case Double(bits) => NumberStart(g(bits));
      case _ =>
    }
  }

  lemma NumberStart(t: string)
    requires IsNumber(t)
    ensures t != "" && (t[0] == '-' || IsDigit(t[0]))
  {
    assert MinusLen(t) == 0 ==> t[0..] == t;
  }

  // ------------------------ Objects ------------------------

  lemma {:induction false} ObjectReads(g: DoubleFormat, es: seq<Attr>, depth: nat, rest: string)
    requires depth <= MAX_DEPTH && AllFinite(g, es)
    ensures ReadValue("{" + PrintEntries(g, es, true, depth) + "}" + rest)
            == Ok(JObject(EntryMeanings(g, es, depth)), rest)
    decreases es, 4
  {
    hide ReadElements, ReadMembers, ReadChars, NumberLen, PrintEntries, EntryMeanings, AllFinite;
    var body := PrintEntries(g, es, true, depth) + ("}" + rest);
    var s := "{" + PrintEntries(g, es, true, depth) + "}" + rest;
    assert s == "{" + body && s[1..] == body;
    KeptEntries(g, es, depth);
    if EntryMeanings(g, es, depth) == [] {
      assert body == "}" + rest && body[1..] == rest;
    } else {
      EntriesRead(g, es, depth, rest);
      assert body[0] == '"';
    }
  }

  lemma PrintEntriesStep(g: DoubleFormat, es: seq<Attr>, depth: nat)
    requires es != [] && KeyCut(es[0].key) != []
    ensures PrintEntries(g, es, false, depth) == "," + PrintEntry(g, es[0], depth)
            + PrintEntries(g, es[1..], false, depth)
    ensures PrintEntries(g, es, true, depth) == PrintEntry(g, es[0], depth) + PrintEntries(g, es[1..], false, depth)
  {
    hide PrintEntry, KeyCut;
    Associates("", PrintEntry(g, es[0], depth), PrintEntries(g, es[1..], false, depth));
  }

  lemma EntryStart(g: DoubleFormat, e: Attr, depth: nat)
    ensures PrintEntry(g, e, depth) != "" && PrintEntry(g, e, depth)[0] == '"'
  {
    hide PrintAny, Escaped, KeyCut;
  }

  /** Printing after a separator is printing first with the separator in front, unless every
      entry is left out. */
  lemma {:induction false} KeptEntries(g: DoubleFormat, es: seq<Attr>, depth: nat)
    ensures EntryMeanings(g, es, depth) == [] ==>
              PrintEntries(g, es, true, depth) == "" && PrintEntries(g, es, false, depth) == ""
    ensures EntryMeanings(g, es, depth) != [] ==>
              && PrintEntries(g, es, false, depth) == "," + PrintEntries(g, es, true, depth)
              && PrintEntries(g, es, true, depth) != ""
              && PrintEntries(g, es, true, depth)[0] == '"'
    decreases es
  {
    hide PrintEntry, EntryMeaning, KeyCut;
    if es != [] {
      var rest := PrintEntries(g, es[1..], false, depth);
      if KeyCut(es[0].key) == [] {
        KeptEntries(g, es[1..], depth);
      } else {
        EntryStart(g, es[0], depth);
        PrintEntriesStep(g, es, depth);
        hide PrintEntries;
        Associates(",", PrintEntry(g, es[0], depth), rest);
      }
    }
  }

  lemma LastMember(s: string, m: Member, rest: string)
    requires ReadMember(s) == Ok(m, "}" + rest)
    ensures ReadMembers(s) == Ok([m], rest)
  {
    hide ReadMember;
    Seam("}", rest);
  }

  lemma NextMember(s: string, m: Member, more: string, ms: seq<Member>, rest: string)
    requires ReadMember(s) == Ok(m, "," + more) && ReadMembers(more) == Ok(ms, rest)
    ensures ReadMembers(s) == Ok([m] + ms, rest)
  {
    hide ReadMember;
    Seam(",", more);
  }

  lemma {:induction false} EntriesRead(g: DoubleFormat, es: seq<Attr>, depth: nat, rest: string)
    requires AllFinite(g, es) && EntryMeanings(g, es, depth) != []
    ensures ReadMembers(PrintEntries(g, es, true, depth) + ("}" + rest))
            == Ok(EntryMeanings(g, es, depth), rest)
    decreases es, 3
  {
    hide ReadMember, ReadMembers, PrintEntry, EntryMeaning, KeyCut, Finite;
    var e, more := es[0], es[1..];
    if KeyCut(e.key) == [] {
      EntriesRead(g, more, depth, rest);
    } else {
      KeptEntries(g, more, depth);
      PrintEntriesStep(g, es, depth);
      hide PrintEntries;
      var m, close, later := EntryMeaning(g, e, depth), "}" + rest, PrintEntries(g, more, true, depth);
      var tail := PrintEntries(g, more, false, depth) + close;
      Associates(PrintEntry(g, e, depth), PrintEntries(g, more, false, depth), close);
      MemberReads(g, e, depth, tail);
      if EntryMeanings(g, more, depth) == [] {
        assert tail == close && [m] + [] == [m];
        LastMember(PrintEntry(g, e, depth) + tail, m, rest);
      } else {
        Associates(",", later, close);
        EntriesRead(g, more, depth, rest);
        NextMember(PrintEntry(g, e, depth) + tail, m, later + close, EntryMeanings(g, more, depth), rest);
      }
    }
  }

  lemma {:induction false} MemberReads(g: DoubleFormat, e: Attr, depth: nat, tail: string)
    requires Finite(g, e.val) && Closes(tail)
    ensures ReadMember(PrintEntry(g, e, depth) + tail) == Ok(EntryMeaning(g, e, depth), tail)
    decreases e, 0
  {
    hide ReadValue, ReadChars, PrintAny, Meaning, Finite, Escaped, Sanitized, KeyCut;
    var key := KeyCut(e.key);
    var after := ":" + (PrintAny(g, e.val, depth + 1) + tail);
    var s := PrintEntry(g, e, depth) + tail;
    assert s[0] == '"' && s[1..] == Escaped(key) + ("\"" + after);
    StringReads(key, after);
    assert after[1..] == PrintAny(g, e.val, depth + 1) + tail;
    PrintedValueReads(g, e.val, depth + 1, tail);
  }

  // ------------------------ The stored column ------------------------

  /** The whole attributes text of a span or data point. */
  function AttributesText(g: DoubleFormat, attrs: seq<Attr>): string {
    "{" + PrintEntries(g, attrs, true, 0) + "}"
  }

  /** What a buffer of `cap` bytes keeps of the attributes is a JSON text if and only if nothing
      was cut, and then it reads back as the attribute tree. */
  lemma StoredAttributesReadIff(g: DoubleFormat, attrs: seq<Attr>, cap: nat)
    requires AllFinite(g, attrs) && cap > 0
    ensures var text := AttributesText(g, attrs);
            && (ReadText(Take(text, cap - 1)).Ok? <==> |text| < cap)
            && (|text| < cap ==> ReadText(text) == Ok(JObject(EntryMeanings(g, attrs, 0)), ""))
  {
    hide ReadValue, PrintEntries, EntryMeanings, AllFinite;
    var text := AttributesText(g, attrs);
    ObjectReads(g, attrs, 0, "");
    assert text + "" == text;
    if |text| >= cap { CutObjectFails(text, cap - 1); }
  }
}
