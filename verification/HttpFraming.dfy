/** HTTP connection framing (http_server.c): requests cut out of a byte stream that arrives in
    arbitrary pieces. */
module HttpFraming {
  import opened Bytes

  const HEADER_MAX := 16384
  const LINE_CAP := 512
  const PATH_CAP := 128

  // ------------------------ Searching ------------------------

  predicate StandsAt(s: string, pat: string, i: int) {
    0 <= i <= |s| && pat <= s[i..]
  }

  /** strstr, memmem and strchr: the first place where `pat` stands. */
  function IndexOf(s: string, pat: string): (r: Option<nat>)
    ensures r.Some? ==> StandsAt(s, pat, r.value) && forall j :: 0 <= j < r.value ==> !StandsAt(s, pat, j)
    ensures r.None? ==> forall j :: 0 <= j <= |s| ==> !StandsAt(s, pat, j)
  {
    if pat <= s then
      assert s[0..] == s;
      Some(0)
    else if s == "" then
      assert forall j :: 0 <= j <= |s| ==> s[j..] == s;
      None
    else
      var r := IndexOf(s[1..], pat);
      StandsInTail(s, pat);
      if r.None? then None else Some(r.value + 1)
  }

  lemma StandsInTail(s: string, pat: string)
    requires s != ""
    ensures StandsAt(s, pat, 0) <==> pat <= s
    ensures forall j :: 1 <= j <= |s| ==> (StandsAt(s, pat, j) <==> StandsAt(s[1..], pat, j - 1))
  {
    assert s[0..] == s;
    forall j | 1 <= j <= |s| ensures StandsAt(s, pat, j) <==> StandsAt(s[1..], pat, j - 1) {
      assert s[j..] == s[1..][j - 1..];
    }
  }

  lemma FirstIs(s: string, pat: string, i: nat)
    requires StandsAt(s, pat, i) && forall j :: 0 <= j < i ==> !StandsAt(s, pat, j)
    ensures IndexOf(s, pat) == Some(i)
  {
    assert 0 <= i <= |s|;
    hide StandsAt, IndexOf;
    var r := IndexOf(s, pat);
    assert r.Some?;
    assert r.value >= i;
  }

  lemma NoneIs(s: string, pat: string)
    requires forall j :: 0 <= j <= |s| ==> !StandsAt(s, pat, j)
    ensures IndexOf(s, pat) == None
  {
    hide StandsAt;
  }

  /** A C string ends at its first NUL. */
  function CutAt(s: string, pat: string): string {
    match IndexOf(s, pat)
    case None => s
    case Some(i) => s[..i]
  }

  // ------------------------ The header block ------------------------

  datatype Head = Head(path: string, contentLength: nat, gzip: bool, keepAlive: bool)

  function Lower(c: char): char {
    if 'A' <= c <= 'Z' then (c as int - 'A' as int + 'a' as int) as char else c
  }

  /** ci_starts_with, for prefixes in lower case. */
  predicate StartsWith(s: string, prefix: string) {
    prefix == "" || (s != "" && Lower(s[0]) == prefix[0] && StartsWith(s[1..], prefix[1..]))
  }

  function SkipWs(s: string): string {
    if s != "" && (s[0] == ' ' || s[0] == '\t') then SkipWs(s[1..]) else s
  }

  predicate IsSpace(c: char) {
    c == ' ' || '\t' <= c <= '\r'
  }

  function SkipSpaces(s: string): string {
    if s != "" && IsSpace(s[0]) then SkipSpaces(s[1..]) else s
  }

  function DigitsValue(s: string, acc: nat): nat {
    if s != "" && '0' <= s[0] <= '9' then DigitsValue(s[1..], acc * 10 + (s[0] as int - '0' as int)) else acc
  }

  /** strtoull(s, NULL, 10): saturating, and negation wraps. */
  function Strtoull(s: string): nat {
    var t := SkipSpaces(s);
    var negative := t != "" && t[0] == '-';
    var digits := if t != "" && (t[0] == '-' || t[0] == '+') then t[1..] else t;
    var v := DigitsValue(digits, 0);
    if v >= TWO64 then TWO64 - 1
    else if negative then (TWO64 - v) % TWO64
    else v
  }

  /** What one header line contributes. The comparison runs on the text from the line's start. */
  function HeaderStep(h: Head, at: string): Head {
    if StartsWith(at, "content-length:") then h.(contentLength := Strtoull(SkipWs(Drop(at, 15))))
    else if StartsWith(at, "content-encoding:") then
      var v := SkipWs(Drop(at, 17));
      if StartsWith(v, "gzip") || StartsWith(v, "deflate") then h.(gzip := true) else h
    else if StartsWith(at, "connection:") then
      if StartsWith(SkipWs(Drop(at, 11)), "close") then h.(keepAlive := false) else h
    else h
  }

  function Drop(s: string, n: nat): string {
    if n <= |s| then s[n..] else ""
  }

  function SkipBreaks(s: string): (r: string)
    ensures |r| <= |s|
  {
    if s != "" && (s[0] == '\r' || s[0] == '\n') then SkipBreaks(s[1..]) else s
  }

  /** Where the line at the front ends: before the next CRLF, or else before the next LF. */
  function LineBreak(s: string): Option<nat> {
    match IndexOf(s, "\r\n")
    case Some(i) => Some(i)
    case None => IndexOf(s, "\n")
  }

  function ScanHeaders(s: string, h: Head): Head
    decreases |s|
  {
    var at := SkipBreaks(s);
    if at == "" then h
    else match LineBreak(at)
      case None => HeaderStep(h, at)
      case Some(n) => if n == 0 then h else ScanHeaders(at[n..], HeaderStep(h, at))
  }

  lemma BreakIsAhead(s: string)
    ensures var at := SkipBreaks(s); at != "" && LineBreak(at).Some? ==> LineBreak(at).value > 0
  {
    var at := SkipBreaks(s);
    NoBreakInFront(s);
    if at != "" { assert at[0..] == at; }
  }

  lemma NoBreakInFront(s: string)
    ensures SkipBreaks(s) != "" ==> SkipBreaks(s)[0] != '\r' && SkipBreaks(s)[0] != '\n'
  {
  }

  /** The request line and the headers; None for a malformed request. A method other than POST
      keeps its path, announces no body and closes the connection. */
  function ReadHead(header: string): Option<Head> {
    var text := CutAt(header, "\0");
    var end := LineBreak(text);
    var lineLen := match end case None => |header| case Some(i) => i;
    if lineLen >= LINE_CAP || lineLen > |header| then None
    else
      var line := CutAt(header[..lineLen], "\0");
      match IndexOf(line, " ")
      case None => None
      case Some(sp) =>
        var path := Take(CutAt(CutAt(line[sp + 1..], " "), "?"), PATH_CAP - 1);
        if line[..sp] != "POST" then Some(Head(path, 0, false, false))
        else
          var h := Head(path, 0, false, true);
          match end
          case None => Some(h)
          case Some(i) => Some(ScanHeaders(text[i..], h))
  }

  // ------------------------ One connection ------------------------

  datatype Parse = Bad | More | Found(head: Head, bodyOffset: nat)

  /** The blank line that ends the header block: CRLF CRLF anywhere wins over LF LF. */
  function FindBlank(buf: string): Option<(nat, nat)> {
    match IndexOf(buf, "\r\n\r\n")
    case Some(i) => Some((i, 4))
    case None =>
      match IndexOf(buf, "\n\n")
      case Some(i) => Some((i, 2))
      case None => None
  }

  function ParseHeaders(buf: string): (p: Parse)
    ensures p.Found? ==> p.bodyOffset <= |buf|
  {
    match FindBlank(buf)
    case None => if |buf| > HEADER_MAX then Bad else More
    case Some((i, sep)) =>
      if i > HEADER_MAX then Bad
      else match ReadHead(buf[..i])
        case None => Bad
        case Some(h) => Found(h, i + sep)
  }

  /** pw_conn_t. A parsed header block is kept until its body is complete. */
  datatype Conn = Closed | Open(buf: string, parsed: Option<(Head, nat)>)

  /** A complete request as it is acted upon. */
  datatype Request = Request(head: Head, body: string)

  datatype Served = Served(conn: Conn, request: Option<Request>)

  predicate ValidConn(c: Conn) {
    c.Open? && c.parsed.Some? ==> c.parsed.value.1 <= |c.buf|
  }

  /** What is left of a connection once `total` bytes of its buffer have been used. */
  function Finish(buf: string, head: Head, offset: nat): Served
    requires offset <= |buf|
  {
    if |buf| - offset < head.contentLength then Served(Open(buf, Some((head, offset))), None)
    else
      var total := offset + head.contentLength;
      Served(if head.keepAlive then Open(buf[total..], None) else Closed, Some(Request(head, buf[offset..total])))
  }

  /** conn_service after a recv that returned `chunk`. */
  function Service(c: Conn, chunk: string, maxBody: nat): Served
    requires c.Open? && ValidConn(c)
  {
    var buf := c.buf + chunk;
    if c.parsed.Some? then Finish(buf, c.parsed.value.0, c.parsed.value.1)
    else match ParseHeaders(buf)
      case Bad => Served(Closed, None)
      case More => Served(Open(buf, None), None)
      case Found(head, offset) =>
        if head.contentLength > maxBody then Served(Closed, None) else Finish(buf, head, offset)
  }

  lemma ServiceKeepsValid(c: Conn, chunk: string, maxBody: nat)
    requires c.Open? && ValidConn(c)
    ensures ValidConn(Service(c, chunk, maxBody).conn)
  {
    hide ParseHeaders;
  }
}
