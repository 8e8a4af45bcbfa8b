/** A reference reader for JSON texts, after RFC 8259. Text is a sequence of C characters, so a
    non-ASCII character is the sequence of its UTF-8 bytes. */
module Json {
  datatype Json =
    | JNull
    | JBool(b: bool)
    | JInt(i: int)
    | JReal(lexeme: string)
    | JString(text: string)
    | JArray(elems: seq<Json>)
    | JObject(members: seq<Member>)
  datatype Member = Member(name: string, value: Json)

  datatype Reply<+T> = Fail | Ok(value: T, rest: string)

  // ------------------------ Section 2: white space ------------------------

  predicate IsWs(c: char) {
    c == ' ' || c == '\t' || c == '\n' || c == '\r'
  }

  function SkipWs(s: string): (r: string)
    ensures |r| <= |s|
    ensures s != "" && !IsWs(s[0]) ==> r == s
  {
    if s != "" && IsWs(s[0]) then SkipWs(s[1..]) else s
  }

  // ------------------------ Section 6: numbers ------------------------

  predicate IsDigit(c: char) {
    '0' <= c <= '9'
  }

  function Digits(s: string): (n: nat)
    ensures n <= |s|
  {
    if s != "" && IsDigit(s[0]) then 1 + Digits(s[1..]) else 0
  }

  function IntLen(s: string): (n: nat)
    ensures n <= |s|
  {
    if s != "" && s[0] == '0' then 1 else Digits(s)
  }

  function FracLen(s: string): (n: nat)
    ensures n <= |s|
  {
    if s != "" && s[0] == '.' && Digits(s[1..]) > 0 then 1 + Digits(s[1..]) else 0
  }

  function ExpLen(s: string): (n: nat)
    ensures n <= |s|
  {
    if s == "" || (s[0] != 'e' && s[0] != 'E') then 0
    else
      var sign := if |s| > 1 && (s[1] == '+' || s[1] == '-') then 1 else 0;
      var d := Digits(s[1 + sign..]);
      if d == 0 then 0 else 1 + sign + d
  }

  function MinusLen(s: string): (n: nat)
    ensures n <= |s|
  {
    if s != "" && s[0] == '-' then 1 else 0
  }

  /** The length of the longest number at the front of `s`, 0 when there is none. */
  function NumberLen(s: string): (n: nat)
    ensures n <= |s|
  {
    var m := MinusLen(s);
    var i := IntLen(s[m..]);
    if i == 0 then 0
    else
      var f := FracLen(s[m + i..]);
      m + i + f + ExpLen(s[m + i + f..])
  }

  predicate IsNumber(t: string) {
    t != "" && NumberLen(t) == |t|
  }

  /** The number that decimal digits denote. */
  function NatOf(s: string): nat
    requires forall i :: 0 <= i < |s| ==> IsDigit(s[i])
  {
    if s == "" then 0
    else
      var last := s[|s| - 1];
      assert IsDigit(last);
      10 * NatOf(s[..|s| - 1]) + (last as int - '0' as int)
  }

  /** A number without fraction and exponent. */
  predicate IsInteger(t: string) {
    var digits := t[MinusLen(t)..];
    digits != "" && forall i :: 0 <= i < |digits| ==> IsDigit(digits[i])
  }

  function IntOf(t: string): int
    requires IsInteger(t)
  {
    if t[0] == '-' then 0 - NatOf(t[1..]) else NatOf(t)
  }

  /** The value of a number: the integer it denotes, or its text when it has a fraction or an exponent. */
  function Numeral(t: string): Json {
    if IsInteger(t) then JInt(IntOf(t)) else JReal(t)
  }

  /** What may follow a value inside a text without extending it. */
  predicate Closes(rest: string) {
    rest == "" || rest[0] == ',' || rest[0] == ']' || rest[0] == '}' || IsWs(rest[0])
  }

  lemma {:induction false} DigitsStop(t: string, rest: string)
    requires Closes(rest)
    ensures Digits(t + rest) == Digits(t)
  {
    if t != "" {
      assert (t + rest)[1..] == t[1..] + rest;
      if IsDigit(t[0]) { DigitsStop(t[1..], rest); }
    }
  }

  lemma FracStops(t: string, rest: string)
    requires Closes(rest)
    ensures FracLen(t + rest) == FracLen(t)
  {
    if t != "" {
      assert (t + rest)[1..] == t[1..] + rest;
      DigitsStop(t[1..], rest);
    }
  }

  lemma ExpStops(t: string, rest: string)
    requires Closes(rest)
    ensures ExpLen(t + rest) == ExpLen(t)
  {
    if t != "" && (t[0] == 'e' || t[0] == 'E') {
      var sign := if |t| > 1 && (t[1] == '+' || t[1] == '-') then 1 else 0;
      assert (t + rest)[1 + sign..] == t[1 + sign..] + rest;
      DigitsStop(t[1 + sign..], rest);
    }
  }

  lemma IntStops(t: string, rest: string)
    requires Closes(rest)
    ensures IntLen(t + rest) == IntLen(t)
  {
    DigitsStop(t, rest);
  }

  lemma NumberStops(t: string, rest: string)
    requires t != "" && Closes(rest)
    ensures NumberLen(t + rest) == NumberLen(t)
  {
    hide IntLen, FracLen, ExpLen, Digits;
    var m := MinusLen(t);
    assert (t + rest)[m..] == t[m..] + rest;
    IntStops(t[m..], rest);
    var i := IntLen(t[m..]);
    if i > 0 {
      assert (t + rest)[m + i..] == t[m + i..] + rest;
      FracStops(t[m + i..], rest);
      var f := FracLen(t[m + i..]);
      assert (t + rest)[m + i + f..] == t[m + i + f..] + rest;
      ExpStops(t[m + i + f..], rest);
    }
  }

  // ------------------------ Section 7: strings ------------------------

  function HexDigit(c: char): int {
    if '0' <= c <= '9' then c as int - '0' as int
    else if 'a' <= c <= 'f' then c as int - 'a' as int + 10
    else if 'A' <= c <= 'F' then c as int - 'A' as int + 10
    else -1
  }

  predicate FourHex(s: string) {
    |s| == 4 && forall i :: 0 <= i < 4 ==> HexDigit(s[i]) >= 0
  }

  function HexValue(s: string): (v: nat)
    requires FourHex(s)
    ensures v < 0x1_0000
  {
    HexDigit(s[0]) * 0x1000 + HexDigit(s[1]) * 0x100 + HexDigit(s[2]) * 0x10 + HexDigit(s[3])
  }

  /** The UTF-8 bytes of one escaped code unit. */
  function Utf8Of(v: nat): string
    requires v < 0x1_0000
  {
    if v < 0x80 then [v as char]
    else if v < 0x800 then [(0xC0 + v / 0x40) as char, (0x80 + v % 0x40) as char]
    else [(0xE0 + v / 0x1000) as char, (0x80 + v / 0x40 % 0x40) as char, (0x80 + v % 0x40) as char]
  }

  function ShortEscape(c: char): string {
    if c == '"' || c == '\\' || c == '/' then [c]
    else if c == 'b' then [8 as char]
    else if c == 'f' then [12 as char]
    else if c == 'n' then "\n"
    else if c == 'r' then "\r"
    else if c == 't' then "\t"
    else ""
  }

  function Prefixed(front: string, r: Reply<string>): Reply<string> {
    match r
    case Fail => Fail
    case Ok(v, rest) => Ok(front + v, rest)
  }

  /** The characters of a string after its opening quotation mark. */
  function ReadChars(s: string): (r: Reply<string>)
    ensures r.Ok? ==> |r.rest| < |s|
    decreases |s|
  {
    if s == "" then Fail
    else if s[0] == '"' then Ok("", s[1..])
    else if s[0] == '\\' then
      if |s| < 2 then Fail
      else if s[1] == 'u' then
        if |s| < 6 || !FourHex(s[2..6]) then Fail
        else Prefixed(Utf8Of(HexValue(s[2..6])), ReadChars(s[6..]))
      else if ShortEscape(s[1]) == "" then Fail
      else Prefixed(ShortEscape(s[1]), ReadChars(s[2..]))
    else if s[0] < ' ' then Fail
    else Prefixed([s[0]], ReadChars(s[1..]))
  }

  // ------------------------ Sections 3 to 5: values ------------------------

  function Literal(s: string, word: string, j: Json): Reply<Json> {
    if word <= s then Ok(j, s[|word|..]) else Fail
  }

  function ReadValue(s: string): (r: Reply<Json>)
    ensures r.Ok? ==> |r.rest| < |s|
    decreases |s|, 2
  {
    var t := SkipWs(s);
    if t == "" then Fail
    else if t[0] == '"' then
      match ReadChars(t[1..])
      case Fail => Fail
      case Ok(v, rest) => Ok(JString(v), rest)
    else if t[0] == '[' then
      var u := SkipWs(t[1..]);
      if u != "" && u[0] == ']' then Ok(JArray([]), u[1..])
      else match ReadElements(t[1..])
        case Fail => Fail
        case Ok(es, rest) => Ok(JArray(es), rest)
    else if t[0] == '{' then
      var u := SkipWs(t[1..]);
      if u != "" && u[0] == '}' then Ok(JObject([]), u[1..])
      else match ReadMembers(t[1..])
        case Fail => Fail
        case Ok(ms, rest) => Ok(JObject(ms), rest)
    else if t[0] == 'n' then Literal(t, "null", JNull)
    else if t[0] == 't' then Literal(t, "true", JBool(true))
    else if t[0] == 'f' then Literal(t, "false", JBool(false))
    else
      var n := NumberLen(t);
      if n == 0 then Fail else Ok(Numeral(t[..n]), t[n..])
  }

  /** One or more values separated by commas, up to and including the closing bracket. */
  function ReadElements(s: string): (r: Reply<seq<Json>>)
    ensures r.Ok? ==> |r.rest| < |s|
    decreases |s|, 3
  {
    match ReadValue(s)
    case Fail => Fail
    case Ok(v, rest) =>
      var t := SkipWs(rest);
      if t != "" && t[0] == ']' then Ok([v], t[1..])
      else if t != "" && t[0] == ',' then
        match ReadElements(t[1..])
        case Fail => Fail
        case Ok(vs, last) => Ok([v] + vs, last)
      else Fail
  }

  function ReadMember(s: string): (r: Reply<Member>)
    ensures r.Ok? ==> |r.rest| < |s|
    decreases |s|, 3
  {
    var t := SkipWs(s);
    if t == "" || t[0] != '"' then Fail
    else match ReadChars(t[1..])
      case Fail => Fail
      case Ok(name, rest) =>
        var u := SkipWs(rest);
        if u == "" || u[0] != ':' then Fail
        else match ReadValue(u[1..])
          case Fail => Fail
          case Ok(v, last) => Ok(Member(name, v), last)
  }

  /** One or more members separated by commas, up to and including the closing brace. */
  function ReadMembers(s: string): (r: Reply<seq<Member>>)
    ensures r.Ok? ==> |r.rest| < |s|
    decreases |s|, 4
  {
    match ReadMember(s)
    case Fail => Fail
    case Ok(m, rest) =>
      var t := SkipWs(rest);
      if t != "" && t[0] == '}' then Ok([m], t[1..])
      else if t != "" && t[0] == ',' then
        match ReadMembers(t[1..])
        case Fail => Fail
        case Ok(ms, last) => Ok([m] + ms, last)
      else Fail
  }

  /** A whole text: one value with nothing but white space after it. */
  function ReadText(s: string): Reply<Json> {
    match ReadValue(s)
    case Fail => Fail
    case Ok(v, rest) => if SkipWs(rest) == "" then Ok(v, "") else Fail
  }
}
