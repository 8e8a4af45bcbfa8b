/** What the stored attributes say, for all bytes: an AnyValue is printed field by field, so one
    with several values is no longer what its last value says, and a double may print as no number. */
module StoredColumn {
  import opened Bytes
  import opened Wire
  import opened Utf8
  import opened Json
  import opened JsonPrefix
  import opened Attributes
  import opened Rendering
  import opened AttributeTree
  import opened AttributeMeaning

  /** printf("%.17g"): a number, unless the double is not finite. */
  ghost predicate Printf(g: DoubleFormat) {
    forall bits :: IsNumber(g(bits)) || NotFinite(g(bits))
  }

  predicate NotFinite(t: string) {
    t == "nan" || t == "-nan" || t == "inf" || t == "-inf"
  }

  // ------------------------ What should be read ------------------------

  /** The last value of an AnyValue: of the fields of one oneof the last counts. */
  function LastMeaning(g: DoubleFormat, s: bytes, depth: nat): Json
    decreases Left(depth), 5
  {
    var vs := Values(Parse(s).fields);
    if depth > MAX_DEPTH || vs == [] then JNull else FieldMeaning(g, vs[|vs| - 1], depth)
  }

  function FieldMeaning(g: DoubleFormat, f: Field, depth: nat): Json
    requires depth <= MAX_DEPTH
    decreases Left(depth), 3
  {
    if IsBytes(f, 1) then JString(Chars(Sanitized(f.val.data)))
    else if IsVarintField(f, 2) then JBool(f.val.word != 0)
    else if IsVarintField(f, 3) then JInt(ToInt64(f.val.word))
    else if IsFixed64(f, 4) then Numeral(g(f.val.word))
    else if IsBytes(f, 5) then JArray(ElemsMeaning(g, Subs(Parse(f.val.data).fields, 1), depth))
    else if IsBytes(f, 6) then JObject(MembersMeaning(g, Keyed(Subs(Parse(f.val.data).fields, 1)), depth))
    else if IsBytes(f, 7) then JString(HexCut(f.val.data, HEX_CAP))
    else JNull
  }

  function ElemsMeaning(g: DoubleFormat, items: seq<bytes>, depth: nat): seq<Json>
    requires depth <= MAX_DEPTH
    decreases Left(depth), 2, |items|
  {
    if items == [] then [] else [LastMeaning(g, items[0], depth + 1)] + ElemsMeaning(g, items[1..], depth)
  }

  /** The entries that are printed: those with a key. */
  function Keyed(items: seq<bytes>): (kept: seq<bytes>)
    ensures forall i :: 0 <= i < |kept| ==> HasKey(kept[i])
  {
    if items == [] then [] else (if HasKey(items[0]) then [items[0]] else []) + Keyed(items[1..])
  }

  function MembersMeaning(g: DoubleFormat, items: seq<bytes>, depth: nat): seq<Member>
    requires depth <= MAX_DEPTH
    decreases Left(depth), 2, |items|
  {
    if items == [] then [] else [MemberMeaning(g, items[0], depth)] + MembersMeaning(g, items[1..], depth)
  }

  function MemberMeaning(g: DoubleFormat, s: bytes, depth: nat): Member
    requires depth <= MAX_DEPTH
    decreases Left(depth), 1
  {
    Member(Chars(Sanitized(KvOf(s).key)),
           match KvOf(s).value case Some(v) => LastMeaning(g, v, depth + 1) case None => JNull)
  }

  /** Every printed AnyValue has at most one value, and every printed double is a number. */
  predicate Faithful(g: DoubleFormat, s: bytes, depth: nat)
    decreases Left(depth), 5
  {
    var vs := Values(Parse(s).fields);
    depth > MAX_DEPTH || vs == [] || (|vs| == 1 && FieldFaithful(g, vs[0], depth))
  }

  predicate FieldFaithful(g: DoubleFormat, f: Field, depth: nat)
    requires depth <= MAX_DEPTH
    decreases Left(depth), 3
  {
    if IsFixed64(f, 4) then IsNumber(g(f.val.word))
    else if IsBytes(f, 5) then ElemsFaithful(g, Subs(Parse(f.val.data).fields, 1), depth)
    else if IsBytes(f, 6) then MembersFaithful(g, Keyed(Subs(Parse(f.val.data).fields, 1)), depth)
    else true
  }

  predicate ElemsFaithful(g: DoubleFormat, items: seq<bytes>, depth: nat)
    requires depth <= MAX_DEPTH
    decreases Left(depth), 2, |items|
  {
    items == [] || (Faithful(g, items[0], depth + 1) && ElemsFaithful(g, items[1..], depth))
  }

  predicate MembersFaithful(g: DoubleFormat, items: seq<bytes>, depth: nat)
    requires depth <= MAX_DEPTH
    decreases Left(depth), 2, |items|
  {
    items == [] || (MemberFaithful(g, items[0], depth) && MembersFaithful(g, items[1..], depth))
  }

  predicate MemberFaithful(g: DoubleFormat, s: bytes, depth: nat)
    requires depth <= MAX_DEPTH
    decreases Left(depth), 1
  {
    match KvOf(s).value
    case Some(v) => Faithful(g, v, depth + 1)
    case None => true
  }

  // ------------------------ The printed texts by item ------------------------

  function ElemsText(g: DoubleFormat, items: seq<bytes>, first: bool, depth: nat): string
    requires depth <= MAX_DEPTH
  {
    if items == [] then ""
    else (if first then "" else ",") + AnyText(g, items[0], depth + 1) + ElemsText(g, items[1..], false, depth)
  }

  function MembersText(g: DoubleFormat, items: seq<bytes>, first: bool, depth: nat): string
    requires depth <= MAX_DEPTH
  {
    if items == [] then ""
    else (if first then "" else ",") + KvText(g, items[0], depth) + MembersText(g, items[1..], false, depth)
  }

  lemma {:induction false} ListIsElems(g: DoubleFormat, fs: seq<Field>, first: bool, depth: nat)
    requires depth <= MAX_DEPTH
    ensures ListText(g, fs, first, depth) == ElemsText(g, Subs(fs, 1), first, depth)
  {
    hide AnyText;
    if fs != [] {
      ListIsElems(g, fs[1..], if IsBytes(fs[0], 1) then false else first, depth);
      if IsBytes(fs[0], 1) { Seam([fs[0].val.data], Subs(fs[1..], 1)); }
    }
  }

  lemma {:induction false} KvListIsMembers(g: DoubleFormat, fs: seq<Field>, num: nat, first: bool, depth: nat)
    requires depth <= MAX_DEPTH
    ensures KvListText(g, fs, num, first, depth) == MembersText(g, Keyed(Subs(fs, num)), first, depth)
  {
    hide KvText, HasKey;
    if fs != [] {
      if IsBytes(fs[0], num) {
        var item, more := fs[0].val.data, Subs(fs[1..], num);
        KvListIsMembers(g, fs[1..], num, first && !HasKey(item), depth);
        Seam([item], more);
        assert Subs(fs, num) == [item] + more;
        if HasKey(item) { Seam([item], Keyed(more)); } else { assert [] + Keyed(more) == Keyed(more); }
      } else {
        KvListIsMembers(g, fs[1..], num, first, depth);
      }
    }
  }

  // ------------------------ Readings ------------------------

  /** No value can go on, and no list or object can be closed or continued here. */
  predicate Stuck(rest: string) {
    rest != "" && !IsWs(rest[0]) && rest[0] != ',' && rest[0] != ']' && rest[0] != '}'
  }

  /** The reading fails, gets stuck in the middle, or ends where it should with another value. */
  predicate Misread<T(==)>(reply: Reply<T>, v: T, rest: string) {
    reply.Ok? ==> Stuck(reply.rest) || (reply.rest == rest && reply.value != v)
  }

  /** The same without getting stuck. */
  predicate Missed<T(==)>(reply: Reply<T>, v: T, rest: string) {
    reply.Ok? ==> reply.rest == rest && reply.value != v
  }

  lemma StuckStays(rest: string)
    requires Stuck(rest)
    ensures SkipWs(rest) == rest
  {
  }

  predicate NumChar(c: char) {
    IsDigit(c) || c == '-' || c == '+' || c == '.' || c == 'e' || c == 'E'
  }

  lemma {:induction false} DigitsAreDigits(s: string)
    ensures forall i :: 0 <= i < Digits(s) ==> IsDigit(s[i])
  {
    if s != "" && IsDigit(s[0]) { DigitsAreDigits(s[1..]); }
  }

  lemma NumberHasNumChars(s: string)
    ensures forall i :: 0 <= i < NumberLen(s) ==> NumChar(s[i])
  {
    var m := MinusLen(s);
    var a := s[m..];
    var i := IntLen(a);
    if i > 0 {
      var b := s[m + i..];
      var f := FracLen(b);
      var c := s[m + i + f..];
      DigitsAreDigits(a);
      FracHasNumChars(b);
      ExpHasNumChars(c);
      hide IntLen, FracLen, ExpLen;
      forall k | 0 <= k < m + i + f + ExpLen(c) ensures NumChar(s[k]) {
        if m <= k < m + i { assert s[k] == a[k - m]; }
        if m + i <= k < m + i + f { assert s[k] == b[k - m - i]; }
        if m + i + f <= k { assert s[k] == c[k - m - i - f]; }
      }
    }
  }

  lemma FracHasNumChars(s: string)
    ensures forall i :: 0 <= i < FracLen(s) ==> NumChar(s[i])
  {
    if s != "" { DigitsAreDigits(s[1..]); }
  }

  lemma ExpHasNumChars(s: string)
    ensures forall i :: 0 <= i < ExpLen(s) ==> NumChar(s[i])
  {
    if |s| > 0 { DigitsAreDigits(s[1..]); }
    if |s| > 1 { DigitsAreDigits(s[2..]); }
  }

  /** What starts like a number is read as the longest number or not at all. */
  lemma NumberOrNothing(s: string)
    requires s != "" && (s[0] == '-' || IsDigit(s[0]))
    ensures ReadValue(s) == if NumberLen(s) == 0 then Fail else Ok(Numeral(s[..NumberLen(s)]), s[NumberLen(s)..])
  {
    hide NumberLen, ReadChars, ReadElements, ReadMembers;
    assert SkipWs(s) == s;
  }

  lemma NotFiniteFails(t: string, rest: string)
    requires NotFinite(t)
    ensures ReadValue(t + rest).Fail?
  {
    hide ReadChars, ReadElements, ReadMembers;
    var s := t + rest;
    assert s[0] == t[0] && SkipWs(s) == s && s[1] == t[1];
    if t == "nan" {
      assert !("null" <= s);
    } else {
      assert MinusLen(s) == 1 ==> s[1..][0] == s[1];
      assert MinusLen(s) == 0 ==> s[0..][0] == s[0];
      assert NumberLen(s) == 0;
    }
  }

  // ------------------------ One value ------------------------

  predicate IsNumeric(f: Field) {
    IsVarintField(f, 3) || IsFixed64(f, 4)
  }

  function NumberText(g: DoubleFormat, f: Field): string
    requires IsNumeric(f)
  {
    if IsVarintField(f, 3) then Decimal(ToInt64(f.val.word)) else g(f.val.word)
  }

  lemma NumericIs(g: DoubleFormat, f: Field, depth: nat)
    requires depth <= MAX_DEPTH && IsNumeric(f) && Printf(g)
    ensures ValueText(g, f, depth) == NumberText(g, f) && FieldMeaning(g, f, depth) == Numeral(NumberText(g, f))
    ensures FieldFaithful(g, f, depth) <==> IsNumber(NumberText(g, f))
    ensures IsNumber(NumberText(g, f)) || NotFinite(NumberText(g, f))
  {
    hide Decimal, IsNumber;
    if IsVarintField(f, 3) { DecimalIsNumber(ToInt64(f.val.word)); }
  }

  lemma NumericReads(g: DoubleFormat, f: Field, depth: nat, rest: string)
    requires depth <= MAX_DEPTH && IsNumeric(f) && Printf(g) && Closes(rest)
    ensures var reply := ReadValue(ValueText(g, f, depth) + rest);
            if FieldFaithful(g, f, depth) then reply == Ok(FieldMeaning(g, f, depth), rest) else reply.Fail?
  {
    hide ValueText, FieldMeaning, FieldFaithful, IsNumber, NotFinite, ReadValue, NumberText, IsNumeric;
    var t := NumberText(g, f);
    NumericIs(g, f, depth);
    if IsNumber(t) { NumberReads(t, rest); } else { NotFiniteFails(t, rest); }
  }

  /** A value that is no number ends where it ends, whatever follows. */
  lemma {:induction false} ClosedReads(g: DoubleFormat, f: Field, depth: nat, rest: string)
    requires depth <= MAX_DEPTH && IsValue(f) && !IsNumeric(f) && Printf(g)
    ensures var reply, v := ReadValue(ValueText(g, f, depth) + rest), FieldMeaning(g, f, depth);
            if FieldFaithful(g, f, depth) then reply == Ok(v, rest) else Missed(reply, v, rest)
    decreases Left(depth), 3
  {
    hide ReadValue, Quoted, Sanitized, HexCut, Parse, MembersText, MembersMeaning, ElemsText, ElemsMeaning, Printf,
         ElemsFaithful, MembersFaithful, ListText, KvListText;
    WordReads(rest);
    if IsBytes(f, 1) { QuotedReads(f.val.data, rest); }
    if IsBytes(f, 7) { BlobReads(f.val.data, rest); }
    if IsBytes(f, 5) {
      ListIsElems(g, Parse(f.val.data).fields, true, depth);
      ArrayIsRead(g, Subs(Parse(f.val.data).fields, 1), depth, rest);
    }
    if IsBytes(f, 6) {
      KvListIsMembers(g, Parse(f.val.data).fields, 1, true, depth);
      ObjectIsRead(g, Keyed(Subs(Parse(f.val.data).fields, 1)), depth, rest);
    }
  }

  /** The text of an AnyValue reads back as its last value if and only if it is faithful. */
  lemma {:induction false} AnyIsRead(g: DoubleFormat, s: bytes, depth: nat, rest: string)
    requires Printf(g) && Closes(rest)
    ensures var reply, v := ReadValue(AnyText(g, s, depth) + rest), LastMeaning(g, s, depth);
            if Faithful(g, s, depth) then reply == Ok(v, rest) else Misread(reply, v, rest)
    decreases Left(depth), 5
  {
    hide Parse, ReadValue, ValuesText, ValueText, FieldMeaning, FieldFaithful, Printf, Closes, Stuck, IsNumeric;
    WordReads(rest);
    if depth <= MAX_DEPTH {
      var vs := Values(Parse(s).fields);
      OnlyValuesPrint(g, Parse(s).fields, depth);
      ValuesAreValues(Parse(s).fields);
      if |vs| == 1 {
        OneValuePrints(g, vs, depth);
        if IsNumeric(vs[0]) { NumericReads(g, vs[0], depth, rest); } else { ClosedReads(g, vs[0], depth, rest); }
      } else if |vs| > 1 {
        SeveralAreMisread(g, vs, depth, rest);
      }
    }
  }

  lemma {:induction false} ValuesAreValues(fs: seq<Field>)
    ensures forall i :: 0 <= i < |Values(fs)| ==> IsValue(Values(fs)[i])
  {
    hide IsValue;
    if fs != [] { ValuesAreValues(fs[1..]); }
  }

  // ------------------------ Several values ------------------------

  /** A printed value starts neither with white space nor with what ends a value. */
  lemma ValueTextStart(g: DoubleFormat, f: Field, depth: nat)
    requires depth <= MAX_DEPTH && IsValue(f) && Printf(g)
    ensures Stuck(ValueText(g, f, depth))
    ensures !IsNumeric(f) ==> !NumChar(ValueText(g, f, depth)[0])
  {
    if IsNumeric(f) {
      NumericIs(g, f, depth);
      hide ValueText, IsNumber, NumberText, IsNumeric;
      if IsNumber(NumberText(g, f)) { NumberStart(NumberText(g, f)); }
    } else {
      ClosedStart(g, f, depth);
    }
  }

  lemma ClosedStart(g: DoubleFormat, f: Field, depth: nat)
    requires depth <= MAX_DEPTH && IsValue(f) && !IsNumeric(f)
    ensures Stuck(ValueText(g, f, depth)) && !NumChar(ValueText(g, f, depth)[0])
  {
    hide Quoted, ListText, KvListText, HexBytes;
    if IsBytes(f, 1) { QuotedStart(f.val.data); }
    if IsBytes(f, 7) { QuotedStart(HexBytes(f.val.data)); }
  }

  lemma QuotedStart(s: bytes)
    ensures Stuck(Quoted(s)) && Quoted(s)[0] == '"'
  {
    hide Escaped;
  }

  lemma AnyTextStart(g: DoubleFormat, s: bytes, depth: nat)
    requires Printf(g)
    ensures Stuck(AnyText(g, s, depth))
  {
    hide Parse, ValueText, ValuesText, Printf, Stuck, IsValue;
    assert Stuck("null") by { NullStart(); }
    if depth <= MAX_DEPTH {
      var vs := Values(Parse(s).fields);
      OnlyValuesPrint(g, Parse(s).fields, depth);
      ValuesAreValues(Parse(s).fields);
      if vs != [] {
        ValueTextStart(g, vs[0], depth);
        FirstOfValues(g, vs, depth);
        StuckPrefix(ValueText(g, vs[0], depth), ValuesText(g, vs[1..], depth));
      }
    }
  }

  lemma FirstOfValues(g: DoubleFormat, vs: seq<Field>, depth: nat)
    requires depth <= MAX_DEPTH && vs != []
    ensures ValuesText(g, vs, depth) == ValueText(g, vs[0], depth) + ValuesText(g, vs[1..], depth)
  {
    hide ValueText;
  }

  lemma NullStart()
    ensures Stuck("null")
  {
  }

  lemma StuckPrefix(a: string, b: string)
    requires Stuck(a)
    ensures Stuck(a + b) && (a + b)[0] == a[0]
  {
  }

  /** The first character of the printed values that belongs to no number, if there is one. */
  predicate InkAt(s: string, j: nat) {
    && j < |s| && !NumChar(s[j]) && Stuck(s[j..])
    && forall i :: 0 <= i < j ==> NumChar(s[i])
  }

  predicate AllNumChars(s: string) {
    forall i :: 0 <= i < |s| ==> NumChar(s[i])
  }

  lemma NumberIsNumChars(t: string)
    requires IsNumber(t)
    ensures AllNumChars(t)
  {
    hide NumberLen;
    NumberHasNumChars(t);
  }

  lemma ValueInk(g: DoubleFormat, f: Field, depth: nat)
    requires depth <= MAX_DEPTH && IsValue(f) && Printf(g)
    ensures var s := ValueText(g, f, depth);
            (exists j :: InkAt(s, j)) || (AllNumChars(s) && IsNumeric(f) && IsNumber(NumberText(g, f)))
  {
    var s := ValueText(g, f, depth);
    ValueTextStart(g, f, depth);
    if !IsNumeric(f) {
      hide ValueText, IsValue, IsNumeric;
      assert s[0..] == s && InkAt(s, 0);
    } else {
      NumericIs(g, f, depth);
      hide ValueText, IsValue, IsNumeric, NumberText;
      if IsNumber(s) {
        NumberIsNumChars(s);
      } else {
        NotFiniteInk(s);
      }
    }
  }

  lemma NotFiniteInk(t: string)
    requires NotFinite(t)
    ensures exists j :: InkAt(t, j)
  {
    var j := if t[0] == '-' then 1 else 0;
    assert t[j..][0] == t[j];
    assert InkAt(t, j);
  }

  lemma {:induction false} ValuesInk(g: DoubleFormat, vs: seq<Field>, depth: nat)
    requires depth <= MAX_DEPTH && Printf(g) && forall i :: 0 <= i < |vs| ==> IsValue(vs[i])
    ensures var s := ValuesText(g, vs, depth);
            (exists j :: InkAt(s, j))
            || (AllNumChars(s) && forall i :: 0 <= i < |vs| ==> IsNumeric(vs[i]))
    decreases |vs|
  {
    hide ValueText, IsValue, IsNumeric, Printf, IsNumber, NumberText, InkAt, AllNumChars, ValuesText;
    if vs == [] {
      NothingIsNumChars(g, depth);
    } else {
      var a, b := ValueText(g, vs[0], depth), ValuesText(g, vs[1..], depth);
      FirstOfValues(g, vs, depth);
      ValueInk(g, vs[0], depth);
      ValuesInk(g, vs[1..], depth);
      InkOfTwo(a, b);
    }
  }

  lemma NothingIsNumChars(g: DoubleFormat, depth: nat)
    requires depth <= MAX_DEPTH
    ensures AllNumChars(ValuesText(g, [], depth))
  {
  }

  lemma InkOfTwo(a: string, b: string)
    ensures (exists j :: InkAt(a, j)) ==> exists j :: InkAt(a + b, j)
    ensures AllNumChars(a) && (exists j :: InkAt(b, j)) ==> exists j :: InkAt(a + b, j)
    ensures AllNumChars(a) && AllNumChars(b) ==> AllNumChars(a + b)
  {
    var s := a + b;
    if exists j :: InkAt(a, j) {
      var j: nat :| InkAt(a, j);
      assert s[j..][0] == a[j..][0] && s[j] == a[j];
      assert InkAt(s, j);
    }
    if AllNumChars(a) && exists j :: InkAt(b, j) {
      var j: nat :| InkAt(b, j);
      assert s[|a| + j..] == b[j..] && s[|a| + j] == b[j];
      assert InkAt(s, |a| + j);
    }
  }

  /** The printed values end with the last one, and the first one stands wholly in front of it. */
  lemma {:induction false} LastIsBehind(g: DoubleFormat, vs: seq<Field>, depth: nat)
    requires depth <= MAX_DEPTH && |vs| > 1
    ensures var s, last := ValuesText(g, vs, depth), ValueText(g, vs[|vs| - 1], depth);
            && |last| <= |s| && s[|s| - |last|..] == last
            && ValueText(g, vs[0], depth) <= s[..|s| - |last|]
    decreases |vs|
  {
    hide ValueText;
    var last, more := ValueText(g, vs[|vs| - 1], depth), ValuesText(g, vs[1..], depth);
    FirstOfValues(g, vs, depth);
    if |vs| == 2 {
      FirstOfValues(g, vs[1..], depth);
      assert more == last + "" == last;
    } else {
      LastIsBehind(g, vs[1..], depth);
    }
  }

  lemma {:induction false} LeadingDigit(a: string)
    requires a != "" && a[0] != '0' && forall i :: 0 <= i < |a| ==> IsDigit(a[i])
    ensures NatOf(a) > 0
  {
    if |a| > 1 { LeadingDigit(a[..|a| - 1]); } else { assert a[..0] == ""; }
  }

  lemma {:induction false} MoreDigits(a: string, b: string)
    requires a != "" && a[0] != '0' && forall i :: 0 <= i < |a + b| ==> IsDigit((a + b)[i])
    requires forall i :: 0 <= i < |b| ==> IsDigit(b[i])
    ensures NatOf(a + b) > NatOf(b)
    decreases |b|
  {
    if b == "" {
      assert a + b == a;
      LeadingDigit(a);
    } else {
      var s, n := a + b, |b| - 1;
      assert s[..|s| - 1] == a + b[..n] && s[|s| - 1] == b[n];
      MoreDigits(a, b[..n]);
    }
  }

  /** Behind a leading zero no number goes on with a digit. */
  lemma ZeroStops(t: string)
    requires IsInteger(t) && |t| > MinusLen(t) + 1
    ensures t[MinusLen(t)] == '0' ==> NumberLen(t) == MinusLen(t) + 1
  {
    var m := MinusLen(t);
    var digits, next := t[m..], t[m + 1..];
    assert next[0] == digits[1] && IsDigit(digits[1]);
  }

  /** A number with something in front of it is another number. */
  lemma LongerIsOther(a: string, b: string)
    requires IsNumber(a + b) && a != "" && a != "-" && b != ""
    ensures Numeral(a + b) != Numeral(b)
  {
    hide NumberLen, NatOf;
    var t := a + b;
    if IsInteger(t) && IsInteger(b) {
      var m := MinusLen(t);
      if |t| > m + 1 { ZeroStops(t); }
      var front, digits := a[m..], t[m..];
      assert digits == front + b && front != "";
      assert b[0] == digits[|front|] && IsDigit(b[0]);
      assert b[MinusLen(b)..] == b;
      assert front[0] == digits[0];
      MoreDigits(front, b);
    }
  }

  /** Several values are never read as the last one. */
  lemma {:induction false} SeveralAreMisread(g: DoubleFormat, vs: seq<Field>, depth: nat, rest: string)
    requires depth <= MAX_DEPTH && |vs| > 1 && Printf(g) && Closes(rest)
    requires forall i :: 0 <= i < |vs| ==> IsValue(vs[i])
    ensures Misread(ReadValue(ValuesText(g, vs, depth) + rest), FieldMeaning(g, vs[|vs| - 1], depth), rest)
    decreases Left(depth), 4
  {
    hide ReadValue, ValueText, ValuesText, FieldMeaning, FieldFaithful, Printf, Closes, Stuck, IsNumeric, IsValue;
    var first, more := ValueText(g, vs[0], depth), ValuesText(g, vs[1..], depth);
    FirstOfValues(g, vs, depth);
    Associates(first, more, rest);
    if IsNumeric(vs[0]) {
      NumbersAreMisread(g, vs, depth, rest);
    } else {
      ClosedReads(g, vs[0], depth, more + rest);
      FirstOfValues(g, vs[1..], depth);
      ValueTextStart(g, vs[1], depth);
      assert vs[1..][0] == vs[1];
      StuckPrefix(ValueText(g, vs[1], depth), ValuesText(g, vs[1..][1..], depth));
      StuckPrefix(more, rest);
    }
  }

  lemma NumbersAreMisread(g: DoubleFormat, vs: seq<Field>, depth: nat, rest: string)
    requires depth <= MAX_DEPTH && |vs| > 1 && Printf(g) && Closes(rest)
    requires IsNumeric(vs[0]) && forall i :: 0 <= i < |vs| ==> IsValue(vs[i])
    ensures Misread(ReadValue(ValuesText(g, vs, depth) + rest), FieldMeaning(g, vs[|vs| - 1], depth), rest)
  {
    hide ReadValue, ValueText, ValuesText, FieldMeaning, Printf, Closes, Stuck, IsNumeric, IsValue, IsNumber,
        NumberText,
         NumberLen, InkAt, AllNumChars, NotFinite;
    var whole, first, more := ValuesText(g, vs, depth), NumberText(g, vs[0]), ValuesText(g, vs[1..], depth);
    var s := whole + rest;
    NumericIs(g, vs[0], depth);
    FirstOfValues(g, vs, depth);
    Associates(first, more, rest);
    if !IsNumber(first) {
      NotFiniteFails(first, more + rest);
    } else {
      NumberStart(first);
      assert s[0] == first[0];
      NumberOrNothing(s);
      ValuesInk(g, vs, depth);
      LastIsBehind(g, vs, depth);
      var last := vs[|vs| - 1];
      var text := ValueText(g, last, depth);
      ValueTextStart(g, last, depth);
      TextIsThere(text);
      NoBareSign(first);
      if IsNumeric(last) { NumericIs(g, last, depth); }
      NumberStopsInside(whole, rest, text);
    }
  }

  lemma NoBareSign(t: string)
    requires IsNumber(t)
    ensures t != "" && t != "-"
  {
  }

  lemma TextIsThere(t: string)
    requires Stuck(t)
    ensures t != ""
  {
  }

  /** The number at the front of printed values stops in front of a character that fits nowhere, or
      takes them all, and then it is not the last one. */
  lemma NumberStopsInside(whole: string, rest: string, last: string)
    requires Closes(rest) && last != "" && |last| <= |whole| && whole[|whole| - |last|..] == last
    requires whole[..|whole| - |last|] != "" && whole[..|whole| - |last|] != "-"
    requires (exists j :: InkAt(whole, j)) || AllNumChars(whole)
    ensures var k := NumberLen(whole + rest);
            || Stuck((whole + rest)[k..])
            || (k == |whole| && Numeral((whole + rest)[..k]) != Numeral(last) && (whole + rest)[k..] == rest
                && !exists j :: InkAt(whole, j))
  {
    hide NumberLen, Numeral;
    var s := whole + rest;
    var k := NumberLen(s);
    NumberHasNumChars(s);
    if exists j :: InkAt(whole, j) {
      var j: nat :| InkAt(whole, j);
      assert s[j] == whole[j] && whole[j..][0] == whole[j];
      assert k <= j && s[k] == whole[k];
    } else if k < |whole| {
      assert s[k] == whole[k] && NumChar(whole[k]);
    } else {
      Seam(whole, rest);
      NumberStops(whole, rest);
      var front := whole[..|whole| - |last|];
      assert whole == front + last && s[..k] == whole;
      LongerIsOther(front, last);
    }
    if k < |s| { assert s[k..][0] == s[k]; }
  }

  // ------------------------ Lists ------------------------

  lemma Separated(a: string, b: string, close: string)
    ensures "," + a + b + close == "," + (a + b + close)
    ensures Closes("," + a + b + close)
  {
    assert ("," + a + b + close)[0] == ',';
  }

  lemma ElemsTail(g: DoubleFormat, items: seq<bytes>, depth: nat, rest: string)
    requires depth <= MAX_DEPTH
    ensures var tail := ElemsText(g, items, false, depth) + ("]" + rest);
            && Closes(tail)
            && (items == [] ==> tail == "]" + rest)
            && (items != [] ==> tail == "," + (ElemsText(g, items, true, depth) + ("]" + rest)))
  {
    hide AnyText;
    if items != [] {
      var a, b := AnyText(g, items[0], depth + 1), ElemsText(g, items[1..], false, depth);
      assert ElemsText(g, items, true, depth) == a + b by { Seam("", a); }
      assert ElemsText(g, items, false, depth) == "," + a + b;
      hide ElemsText;
      Separated(a, b, "]" + rest);
    } else {
      assert "" + ("]" + rest) == "]" + rest;
    }
  }

  lemma ElemsFront(g: DoubleFormat, items: seq<bytes>, depth: nat, rest: string)
    requires depth <= MAX_DEPTH && items != []
    ensures ElemsText(g, items, true, depth) + ("]" + rest)
            == AnyText(g, items[0], depth + 1) + (ElemsText(g, items[1..], false, depth) + ("]" + rest))
  {
    hide AnyText;
    var a, b := AnyText(g, items[0], depth + 1), ElemsText(g, items[1..], false, depth);
    assert "" + a + b == a + b;
    Associates(a, b, "]" + rest);
  }

  /** How a list goes on behind its first value. */
  lemma ElementsStep(s: string, tail: string, rest: string, more: string, v: Json, vs: seq<Json>, first: bool,
                     later: bool)
    requires if first then ReadValue(s) == Ok(v, tail) else Misread(ReadValue(s), v, tail)
    requires || (tail == "]" + rest && vs == [] && later)
             || (tail == "," + more
                 && if later then ReadElements(more) == Ok(vs, rest) else Missed(ReadElements(more), vs, rest))
    ensures if first && later then ReadElements(s) == Ok([v] + vs, rest) else Missed(ReadElements(s), [v] + vs, rest)
  {
    hide ReadValue;
    var reply := ReadValue(s);
    if reply.Ok? {
      if Stuck(reply.rest) { StuckStays(reply.rest); }
      if reply.rest == tail {
        assert SkipWs(tail) == tail && tail[1..] == (if tail[0] == ']' then rest else more);
        assert [reply.value] + [] == [reply.value] && [v] + [] == [v];
        SameHead(reply.value, v, vs);
      }
    }
  }

  lemma SameHead<T>(a: T, b: T, bs: seq<T>)
    ensures forall xs: seq<T> :: [a] + xs == [b] + bs <==> a == b && xs == bs
  {
    forall xs: seq<T> ensures [a] + xs == [b] + bs <==> a == b && xs == bs {
      if [a] + xs == [b] + bs { assert ([a] + xs)[1..] == ([b] + bs)[1..] && ([a] + xs)[0] == ([b] + bs)[0]; }
    }
  }

  lemma {:induction false} ElementsAreRead(g: DoubleFormat, items: seq<bytes>, depth: nat, rest: string)
    requires depth <= MAX_DEPTH && Printf(g) && items != []
    ensures var reply := ReadElements(ElemsText(g, items, true, depth) + ("]" + rest));
            var vs := ElemsMeaning(g, items, depth);
            if ElemsFaithful(g, items, depth) then reply == Ok(vs, rest) else Missed(reply, vs, rest)
    decreases Left(depth), 1, |items|
  {
    hide ReadValue, ReadElements, AnyText, ElemsText, LastMeaning, Misread, Missed, Faithful, Printf, Stuck, Closes;
    var more := items[1..];
    var tail, after := ElemsText(g, more, false, depth) + ("]" + rest), ElemsText(g, more, true, depth) + ("]" + rest);
    var s := AnyText(g, items[0], depth + 1) + tail;
    ElemsFront(g, items, depth, rest);
    ElemsTail(g, more, depth, rest);
    AnyIsRead(g, items[0], depth + 1, tail);
    if more != [] { ElementsAreRead(g, more, depth, rest); }
    ElementsStep(s, tail, rest, after, LastMeaning(g, items[0], depth + 1), ElemsMeaning(g, more, depth),
                 Faithful(g, items[0], depth + 1), ElemsFaithful(g, more, depth));
  }

  lemma {:induction false} ArrayIsRead(g: DoubleFormat, items: seq<bytes>, depth: nat, rest: string)
    requires depth <= MAX_DEPTH && Printf(g)
    ensures var reply := ReadValue("[" + ElemsText(g, items, true, depth) + "]" + rest);
            var v := JArray(ElemsMeaning(g, items, depth));
            if ElemsFaithful(g, items, depth) then reply == Ok(v, rest) else Missed(reply, v, rest)
    decreases Left(depth), 2
  {
    hide ReadElements, ReadMembers, ReadChars, NumberLen, AnyText, LastMeaning, Faithful, Printf;
    var body := ElemsText(g, items, true, depth) + ("]" + rest);
    var s := "[" + ElemsText(g, items, true, depth) + "]" + rest;
    assert s == "[" + body && s[1..] == body && SkipWs(s) == s;
    if items == [] {
      assert body == "]" + rest && body[1..] == rest;
    } else {
      ElementsAreRead(g, items, depth, rest);
      AnyTextStart(g, items[0], depth + 1);
      ElemsFront(g, items, depth, rest);
      StuckPrefix(AnyText(g, items[0], depth + 1), ElemsText(g, items[1..], false, depth) + ("]" + rest));
      StuckStays(body);
    }
  }

  // ------------------------ Objects ------------------------

  lemma MembersTail(g: DoubleFormat, items: seq<bytes>, depth: nat, rest: string)
    requires depth <= MAX_DEPTH
    ensures var tail := MembersText(g, items, false, depth) + ("}" + rest);
            && Closes(tail)
            && (items == [] ==> tail == "}" + rest)
            && (items != [] ==> tail == "," + (MembersText(g, items, true, depth) + ("}" + rest)))
  {
    hide KvText;
    if items != [] {
      var a, b := KvText(g, items[0], depth), MembersText(g, items[1..], false, depth);
      assert MembersText(g, items, true, depth) == a + b by { Seam("", a); }
      assert MembersText(g, items, false, depth) == "," + a + b;
      hide MembersText;
      Separated(a, b, "}" + rest);
    } else {
      assert "" + ("}" + rest) == "}" + rest;
    }
  }

  lemma MembersFront(g: DoubleFormat, items: seq<bytes>, depth: nat, rest: string)
    requires depth <= MAX_DEPTH && items != []
    ensures MembersText(g, items, true, depth) + ("}" + rest)
            == KvText(g, items[0], depth) + (MembersText(g, items[1..], false, depth) + ("}" + rest))
  {
    hide KvText;
    var a, b := KvText(g, items[0], depth), MembersText(g, items[1..], false, depth);
    assert MembersText(g, items, true, depth) == a + b by { Seam("", a); }
    hide MembersText;
    Associates(a, b, "}" + rest);
  }

  lemma MembersStep(s: string, tail: string, rest: string, more: string, v: Member, vs: seq<Member>, first: bool,
                    later: bool)
    requires if first then ReadMember(s) == Ok(v, tail) else Misread(ReadMember(s), v, tail)
    requires || (tail == "}" + rest && vs == [] && later)
             || (tail == "," + more
                 && if later then ReadMembers(more) == Ok(vs, rest) else Missed(ReadMembers(more), vs, rest))
    ensures if first && later then ReadMembers(s) == Ok([v] + vs, rest) else Missed(ReadMembers(s), [v] + vs, rest)
  {
    hide ReadMember;
    var reply := ReadMember(s);
    if reply.Ok? {
      if Stuck(reply.rest) { StuckStays(reply.rest); }
      if reply.rest == tail {
        assert SkipWs(tail) == tail && tail[1..] == (if tail[0] == '}' then rest else more);
        assert [reply.value] + [] == [reply.value] && [v] + [] == [v];
        SameHead(reply.value, v, vs);
      }
    }
  }

  /** The value of an entry as it is printed. */
  function ValueOf(g: DoubleFormat, s: bytes, depth: nat): string
    requires depth <= MAX_DEPTH
  {
    match KvOf(s).value
    case Some(v) => AnyText(g, v, depth + 1)
    case None => "null"
  }

  lemma {:induction false} MemberIsRead(g: DoubleFormat, s: bytes, depth: nat, tail: string)
    requires depth <= MAX_DEPTH && Printf(g) && Closes(tail)
    ensures var reply, m := ReadMember(KvText(g, s, depth) + tail), MemberMeaning(g, s, depth);
            if MemberFaithful(g, s, depth) then reply == Ok(m, tail) else Misread(reply, m, tail)
    decreases Left(depth), 0
  {
    hide ReadValue, ReadChars, AnyText, LastMeaning, Faithful, Printf, Stuck, Closes, Escaped, Sanitized, KvOf;
    var key, value := KvOf(s).key, ValueOf(g, s, depth);
    var after := ":" + (value + tail);
    var text := KvText(g, s, depth) + tail;
    assert text == "\"" + (Escaped(key) + ("\"" + after));
    assert text[0] == '"' && text[1..] == Escaped(key) + ("\"" + after) && SkipWs(text) == text;
    StringReads(key, after);
    assert after[0] == ':' && SkipWs(after) == after && after[1..] == value + tail;
    match KvOf(s).value
    case Some(v) => AnyIsRead(g, v, depth + 1, tail);
    case None => WordReads(tail);
  }

  lemma {:induction false} MembersAreRead(g: DoubleFormat, items: seq<bytes>, depth: nat, rest: string)
    requires depth <= MAX_DEPTH && Printf(g) && items != []
    ensures var reply := ReadMembers(MembersText(g, items, true, depth) + ("}" + rest));
            var ms := MembersMeaning(g, items, depth);
            if MembersFaithful(g, items, depth) then reply == Ok(ms, rest) else Missed(reply, ms, rest)
    decreases Left(depth), 1, |items|
  {
    hide ReadMember, ReadMembers, KvText, MembersText, MemberMeaning, Misread, Missed, MemberFaithful, Printf, Stuck,
        Closes;
    var more := items[1..];
    var tail, after := MembersText(g, more, false, depth) + ("}" + rest),
        MembersText(g, more, true, depth) + ("}" + rest);
    var s := KvText(g, items[0], depth) + tail;
    MembersFront(g, items, depth, rest);
    MembersTail(g, more, depth, rest);
    MemberIsRead(g, items[0], depth, tail);
    if more != [] { MembersAreRead(g, more, depth, rest); }
    MembersStep(s, tail, rest, after, MemberMeaning(g, items[0], depth), MembersMeaning(g, more, depth),
                MemberFaithful(g, items[0], depth), MembersFaithful(g, more, depth));
  }

  lemma {:induction false} ObjectIsRead(g: DoubleFormat, items: seq<bytes>, depth: nat, rest: string)
    requires depth <= MAX_DEPTH && Printf(g)
    ensures var reply := ReadValue("{" + MembersText(g, items, true, depth) + "}" + rest);
            var v := JObject(MembersMeaning(g, items, depth));
            if MembersFaithful(g, items, depth) then reply == Ok(v, rest) else Missed(reply, v, rest)
    decreases Left(depth), 2
  {
    hide ReadElements, ReadMembers, ReadChars, NumberLen, KvText, MemberMeaning, MemberFaithful, Printf;
    var body := MembersText(g, items, true, depth) + ("}" + rest);
    var s := "{" + MembersText(g, items, true, depth) + "}" + rest;
    assert s == "{" + body && s[1..] == body && SkipWs(s) == s;
    if items == [] {
      assert body == "}" + rest && body[1..] == rest;
    } else {
      MembersAreRead(g, items, depth, rest);
      MembersFront(g, items, depth, rest);
      KvTextStart(g, items[0], depth);
      assert body[0] == '"' && SkipWs(body) == body;
    }
  }

  lemma KvTextStart(g: DoubleFormat, s: bytes, depth: nat)
    requires depth <= MAX_DEPTH
    ensures KvText(g, s, depth) != "" && KvText(g, s, depth)[0] == '"'
  {
    hide AnyText, Escaped, KvOf;
  }

  // ------------------------ The column ------------------------

  /** The attributes of a message as they are printed, and what they should say. */
  function ColumnText(g: DoubleFormat, fs: seq<Field>, num: nat): string {
    "{" + KvListText(g, fs, num, true, 0) + "}"
  }

  function ColumnMeaning(g: DoubleFormat, fs: seq<Field>, num: nat): Json {
    JObject(MembersMeaning(g, Keyed(Subs(fs, num)), 0))
  }

  predicate ColumnFaithful(g: DoubleFormat, fs: seq<Field>, num: nat) {
    MembersFaithful(g, Keyed(Subs(fs, num)), 0)
  }

  /** For every message: what a buffer of `cap` bytes keeps of its attributes reads back as their
      last values if and only if nothing was cut, no printed AnyValue has several values and every
      printed double is a number. */
  lemma ColumnReadsIff(g: DoubleFormat, fs: seq<Field>, num: nat, cap: nat)
    requires Printf(g) && cap > 0
    ensures ReadText(Take(ColumnText(g, fs, num), cap - 1)) == Ok(ColumnMeaning(g, fs, num), "")
            <==> |ColumnText(g, fs, num)| < cap && ColumnFaithful(g, fs, num)
  {
    hide ReadValue, KvListText, MembersMeaning, MembersFaithful, MembersText, Printf, Keyed;
    var text := ColumnText(g, fs, num);
    KvListIsMembers(g, fs, num, true, 0);
    ObjectIsRead(g, Keyed(Subs(fs, num)), 0, "");
    assert text + "" == text;
    if |text| >= cap { CutObjectFails(text, cap - 1); }
  }

  // ------------------------ Trees ------------------------

  /** On messages that spell a tree, the last values are the tree. */
  lemma {:induction false} MeaningOfTree(g: DoubleFormat, s: bytes, v: Any, depth: nat)
    requires AnyWire(s, v)
    ensures LastMeaning(g, s, depth) == AttributeMeaning.Meaning(g, v, depth)
    decreases v, 1
  {
    hide Parse, FieldMeaning, ValueWire, AttributeMeaning.Meaning;
    if depth > MAX_DEPTH || v.Empty? {
      NoMeaning(g, v, depth);
    } else {
      MeaningOfField(g, Values(Parse(s).fields)[0], v, depth);
    }
  }

  lemma NoMeaning(g: DoubleFormat, v: Any, depth: nat)
    requires depth > MAX_DEPTH || v.Empty?
    ensures AttributeMeaning.Meaning(g, v, depth) == JNull
  {
  }

  lemma {:induction false} MeaningOfField(g: DoubleFormat, f: Field, v: Any, depth: nat)
    requires depth <= MAX_DEPTH && !v.Empty? && ValueWire(f, v)
    ensures FieldMeaning(g, f, depth) == AttributeMeaning.Meaning(g, v, depth)
    decreases v, 0
  {
    hide Parse, Decimal, HexCut, Sanitized, Subs, AnyWire, AttrWire, ElemsMeaning, MembersMeaning, ElemMeanings,
         EntryMeanings, Keyed;
    match v
    case Array(elems) => MeaningOfElems(g, Subs(Parse(f.val.data).fields, 1), elems, depth);
    case KvList(entries) => MeaningOfEntries(g, Subs(Parse(f.val.data).fields, 1), entries, depth);
    case _ =>
  }

  lemma {:induction false} MeaningOfElems(g: DoubleFormat, items: seq<bytes>, vs: seq<Any>, depth: nat)
    requires depth <= MAX_DEPTH && |items| == |vs| && forall i :: 0 <= i < |items| ==> AnyWire(items[i], vs[i])
    ensures ElemsMeaning(g, items, depth) == ElemMeanings(g, vs, depth)
    decreases vs, 0
  {
    hide AnyWire, LastMeaning, AttributeMeaning.Meaning;
    if vs != [] {
      MeaningOfTree(g, items[0], vs[0], depth + 1);
      MeaningOfElems(g, items[1..], vs[1..], depth);
    }
  }

  lemma {:induction false} MeaningOfEntries(g: DoubleFormat, items: seq<bytes>, es: seq<Attr>, depth: nat)
    requires depth <= MAX_DEPTH && |items| == |es| && forall i :: 0 <= i < |items| ==> AttrWire(items[i], es[i])
    ensures MembersMeaning(g, Keyed(items), depth) == EntryMeanings(g, es, depth)
    decreases es, 0
  {
    hide AttrWire, LastMeaning, AttributeMeaning.Meaning, KvOf, KeyCut, Sanitized;
    if es != [] {
      MeaningOfEntry(g, items[0], es[0], depth);
      MeaningOfEntries(g, items[1..], es[1..], depth);
      if HasKey(items[0]) { Seam([items[0]], Keyed(items[1..])); }
          else { assert [] + Keyed(items[1..]) == Keyed(items[1..]); }
    }
  }

  lemma {:induction false} MeaningOfEntry(g: DoubleFormat, item: bytes, e: Attr, depth: nat)
    requires depth <= MAX_DEPTH && AttrWire(item, e)
    ensures HasKey(item) <==> KeyCut(e.key) != []
    ensures MemberMeaning(g, item, depth) == EntryMeaning(g, e, depth)
    decreases e, 0
  {
    hide AttrWire, AnyWire, LastMeaning, KvOf, KeyCut, Sanitized;
    KvOfAttr(item, e);
    match KvOf(item).value
    case Some(v) => MeaningOfTree(g, v, e.val, depth + 1);
    case None => NoMeaning(g, Empty, depth + 1);
  }

  // ------------------------ Examples ------------------------

  /** Two booleans print no JSON text, and two integers print the JSON text of a third. */
  lemma TwoValuesMisread(g: DoubleFormat)
    ensures ReadText(ValuesText(g, [Field(2, VarintP(1)), Field(2, VarintP(0))], 0)).Fail?
    ensures ReadText(ValuesText(g, [Field(3, VarintP(1)), Field(3, VarintP(2))], 0)) == Ok(JInt(12), "")
  {
    TwoTexts(g);
    WordReads("false");
    assert "true" + "false" == "truefalse";
    assert DecimalNat(12) == "12" by { assert DecimalNat(1) == "1"; }
    DecimalIsNumber(12);
    NumberReads("12", "");
    assert "12" + "" == "12";
  }

  lemma TwoTexts(g: DoubleFormat)
    ensures ValuesText(g, [Field(2, VarintP(1)), Field(2, VarintP(0))], 0) == "truefalse"
    ensures ValuesText(g, [Field(3, VarintP(1)), Field(3, VarintP(2))], 0) == "12"
  {
    TwoFields(g, Field(2, VarintP(1)), Field(2, VarintP(0)));
    TwoFields(g, Field(3, VarintP(1)), Field(3, VarintP(2)));
    assert ValueText(g, Field(3, VarintP(1)), 0) == "1" && ValueText(g, Field(3, VarintP(2)), 0) == "2";
  }

  lemma TwoFields(g: DoubleFormat, a: Field, b: Field)
    ensures ValuesText(g, [a, b], 0) == ValueText(g, a, 0) + ValueText(g, b, 0)
  {
    hide ValueText;
    assert [a, b][1..] == [b] && [b][1..] == [];
    assert ValuesText(g, [b], 0) == ValueText(g, b, 0) + "";
  }

  /** A double that is not finite makes the text unreadable. */
  lemma InfinityFails(g: DoubleFormat, bits: u64)
    requires g(bits) == "inf"
    ensures ReadText(ValuesText(g, [Field(4, Fixed64P(bits))], 0)).Fail?
  {
    var f := Field(4, Fixed64P(bits));
    assert [f][1..] == [];
    assert ValuesText(g, [f], 0) == "inf" + "";
    NotFiniteFails("inf", "");
  }
}
