/** What the framing does outside the well-formed streams: a bare empty line inside a header
    block, and methods other than POST. */
module HttpLimits {
  import opened Bytes
  import opened HttpFraming
  import opened HttpStream
  import opened HttpHeaders
  import opened HttpPost

  // ------------------------ Bare empty lines ------------------------

  /** The block ends at its first CRLF CRLF, and no piece of it counts as oversized. */
  predicate EndsAtBlank(header: string) {
    && (forall i :: 0 <= i < |header| ==> !StandsAt(header + BLANK, BLANK, i))
    && |header| + 3 <= 16384
  }

  predicate NoBareEmptyLine(header: string) {
    forall i :: 0 <= i <= |header| + 4 ==> !StandsAt(header + BLANK, "\n\n", i)
  }

  lemma FramedIff(header: string)
    requires EndsAtBlank(header)
    ensures CrlfFramed(header) <==> NoBareEmptyLine(header)
  {
    hide StandsAt;
  }

  lemma BlankInPrefix(header: string, n: nat)
    requires n < |header| + 4 && forall i :: 0 <= i < |header| ==> !StandsAt(header + BLANK, BLANK, i)
    ensures IndexOf((header + BLANK)[..n], BLANK) == None
  {
    var s := header + BLANK;
    forall j | 0 <= j <= n ensures !StandsAt(s[..n], BLANK, j) { StandsInLonger(s[..n], s, BLANK, j); }
    NoneIs(s[..n], BLANK);
  }

  /** What is found in a piece that lacks the blank line: the first bare empty line, if any. */
  lemma FoundInPrefix(header: string, n: nat)
    requires EndsAtBlank(header) && n < |header| + 4
    ensures FindBlank((header + BLANK)[..n])
            == match IndexOf((header + BLANK)[..n], "\n\n") case None => None case Some(i) => Some((i, 2))
  {
    hide IndexOf;
    BlankInPrefix(header, n);
  }

  lemma BareInside(header: string, k: nat)
    requires StandsAt(header + BLANK, "\n\n", k)
    ensures k < |header|
  {
    var s := header + BLANK;
    assert s[k..][0] == s[k] && s[k..][1] == s[k + 1];
    assert s[|header|] == '\r' && s[|header| + 2] == '\r';
  }

  /** The place of the first bare empty line, which lies well before the end of the block. */
  lemma BareLineAt(header: string) returns (i: nat)
    requires EndsAtBlank(header) && !NoBareEmptyLine(header)
    ensures i < |header| && FindBlank((header + BLANK)[..i + 2]) == Some((i, 2))
  {
    var s := header + BLANK;
    var k :| 0 <= k <= |header| + 4 && StandsAt(s, "\n\n", k);
    BareInside(header, k);
    FirstBare(s, k);
    i := IndexOf(s, "\n\n").value;
    hide StandsAt, FindBlank, EndsAtBlank, NoBareEmptyLine, IndexOf;
    FirstInPrefix(s, i);
    FoundInPrefix(header, i + 2);
  }

  lemma FirstInPrefix(s: string, i: nat)
    requires i + 2 <= |s| && IndexOf(s, "\n\n") == Some(i)
    ensures IndexOf(s[..i + 2], "\n\n") == Some(i)
  {
    var p := s[..i + 2];
    assert StandsAt(p, "\n\n", i) by { StandsInLonger(p, s, "\n\n", i); }
    forall j | 0 <= j < i ensures !StandsAt(p, "\n\n", j) { StandsInLonger(p, s, "\n\n", j); }
    hide StandsAt;
    FirstIs(p, "\n\n", i);
  }

  lemma FirstBare(s: string, k: nat)
    requires StandsAt(s, "\n\n", k)
    ensures IndexOf(s, "\n\n").Some? && IndexOf(s, "\n\n").value <= k
  {
    var r := IndexOf(s, "\n\n");
    assert k <= |s|;
    hide StandsAt;
    assert r.Some?;
    assert r.value <= k;
  }

  /** The search for the end of the header block does not depend on how much has arrived if and
      only if the block holds no bare empty line. */
  lemma BlankIsStableIff(header: string)
    requires EndsAtBlank(header)
    ensures (forall n :: 0 <= n <= |header| + 4 ==>
               FindBlank((header + BLANK)[..n]) == if n < |header| + 4 then None else Some((|header|, 4)))
            <==> NoBareEmptyLine(header)
  {
    var s := header + BLANK;
    FramedIff(header);
    if NoBareEmptyLine(header) {
      hide FindBlank, CrlfFramed, EndsAtBlank, NoBareEmptyLine;
      forall n | 0 <= n <= |header| + 4
        ensures FindBlank(s[..n]) == if n < |header| + 4 then None else Some((|header|, 4))
      {
        if n < |header| + 4 {
          BlankMissing(header, s[..n]);
        } else {
          assert s[..n] == s;
          BlankFound(header, s);
        }
      }
    } else {
      var i := BareLineAt(header);
    }
  }

  // ------------------------ Two pieces ------------------------

  /** An ordinary request, whose header block may hold bare empty lines. */
  predicate Readable(f: Frame, maxBody: nat) {
    && EndsAtBlank(f.header)
    && ReadHead(f.header).Some?
    && KeepsOpen(f)
    && ReadHead(f.header).value.contentLength == |f.body| <= maxBody
  }

  const START := History(Open("", None), [])

  function Twice(f: Frame, n: nat, maxBody: nat): History
    requires n <= |FrameText(f)|
  {
    Serve(START, [FrameText(f)[..n], FrameText(f)[n..]], maxBody)
  }

  function One(h: History, chunk: string, maxBody: nat): History
    requires ValidConn(h.conn) && h.conn.Open?
  {
    var served := Service(h.conn, chunk, maxBody);
    History(served.conn, h.requests + match served.request case None => [] case Some(r) => [r])
  }

  lemma ServeTwo(a: string, b: string, maxBody: nat)
    ensures var mid := One(START, a, maxBody);
            && ValidConn(mid.conn)
            && Serve(START, [a, b], maxBody) == if mid.conn.Closed? then mid else One(mid, b, maxBody)
  {
    hide Service;
    ServiceKeepsValid(Open("", None), a, maxBody);
    var mid := One(START, a, maxBody);
    assert [a, b][1..] == [b] && [b][1..] == [];
    assert Serve(START, [a, b], maxBody) == Serve(mid, [b], maxBody);
    if mid.conn.Open? {
      ServiceKeepsValid(mid.conn, b, maxBody);
      var last := One(mid, b, maxBody);
      assert Serve(mid, [b], maxBody) == Serve(last, [], maxBody) == last;
    }
  }

  lemma FramedInTwo(f: Frame, n: nat, maxBody: nat)
    requires Legal(f, maxBody) && KeepsOpen(f) && 0 < n < |FrameText(f)|
    ensures Twice(f, n, maxBody) == History(Open("", None), [RequestOf(f)])
  {
    hide Legal, FrameText, Service;
    var text := FrameText(f);
    var a, b := text[..n], text[n..];
    assert text + "" == text && "" + a == a && a + b == text;
    OneRecv(Open("", None), f, "", a, maxBody);
    var mid := Service(Open("", None), a, maxBody);
    OneRecv(mid.conn, f, "", b, maxBody);
    ServeTwo(a, b, maxBody);
    assert text[|text|..] == "";
  }

  /** After the piece that ends with a bare empty line, nothing leads back to the request. */
  lemma BareLineMisleads(f: Frame, i: nat, maxBody: nat)
    requires EndsAtBlank(f.header) && i < |f.header| && FindBlank((f.header + BLANK)[..i + 2]) == Some((i, 2))
    requires ReadHead(f.header).Some? && ReadHead(f.header).value.contentLength == |f.body|
    ensures Twice(f, i + 2, maxBody) != History(Open("", None), [RequestOf(f)])
  {
    hide FindBlank, ReadHead, EndsAtBlank, Serve;
    var text := FrameText(f);
    var a, b := text[..i + 2], text[i + 2..];
    assert text == f.header + BLANK + f.body && a == (f.header + BLANK)[..i + 2] && "" + a == a && a + b == text;
    ServeTwo(a, b, maxBody);
    var mid := One(START, a, maxBody);
    match ParseHeaders(a)
    case Bad =>
    case Found(head, offset) =>
      assert offset == i + 2 == |a|;
      if head.contentLength <= maxBody {
        if head.contentLength > 0 {
          assert mid == History(Open(a, Some((head, i + 2))), []);
          WrongOffset(f, head, i + 2, maxBody, a, b);
        } else if head.keepAlive {
          assert a[i + 2..] == "" && |mid.requests| == 1 && mid.conn == Open("", None);
          LeftoverStays(mid, b, f, maxBody);
        }
      }
  }

  lemma WrongOffset(f: Frame, head: Head, offset: nat, maxBody: nat, a: string, b: string)
    requires a + b == FrameText(f) && offset == |a| < |f.header| + 4
    requires ReadHead(f.header).Some? && ReadHead(f.header).value.contentLength == |f.body|
    ensures One(History(Open(a, Some((head, offset))), []), b, maxBody) != History(Open("", None), [RequestOf(f)])
  {
    hide ReadHead, FrameText, ParseHeaders;
    var text := FrameText(f);
    assert |text| == |f.header| + 4 + |f.body| by { FrameLength(f); }
    var served := Finish(text, head, offset);
    if served.request.Some? {
      assert [] + [served.request.value] == [served.request.value];
    }
  }

  lemma FrameLength(f: Frame)
    ensures |FrameText(f)| == |f.header| + 4 + |f.body|
  {
  }

  lemma LeftoverStays(mid: History, b: string, f: Frame, maxBody: nat)
    requires mid.conn == Open("", None) && |mid.requests| == 1 && b != "" && ReadHead(f.header).Some?
    ensures One(mid, b, maxBody) != History(Open("", None), [RequestOf(f)])
  {
    hide ReadHead, ParseHeaders;
    assert "" + b == b;
    var served := Service(mid.conn, b, maxBody);
    if served.request.Some? { assert |mid.requests + [served.request.value]| == 2; }
  }

  /** A request reaches the handler as it was sent, wherever its bytes are cut in two, if and only
      if its header block holds no bare empty line. */
  lemma CutIsHarmlessIff(f: Frame, maxBody: nat)
    requires Readable(f, maxBody)
    ensures (forall n :: 0 < n < |FrameText(f)| ==> Twice(f, n, maxBody) == History(Open("", None), [RequestOf(f)]))
            <==> NoBareEmptyLine(f.header)
  {
    hide ReadHead, Twice, EndsAtBlank, NoBareEmptyLine, CrlfFramed;
    FramedIff(f.header);
    FrameLength(f);
    if NoBareEmptyLine(f.header) {
      forall n | 0 < n < |FrameText(f)| ensures Twice(f, n, maxBody) == History(Open("", None), [RequestOf(f)]) {
        FramedInTwo(f, n, maxBody);
      }
    } else {
      var i := BareLineAt(f.header);
      BareLineMisleads(f, i, maxBody);
    }
  }

  // ------------------------ Sizes ------------------------

  /** A request line is refused if and only if it has 512 characters or more, or no blank. */
  lemma LineIsReadIff(line: string, lines: string)
    requires '\n' !in line && '\0' !in line && '\0' !in lines
    ensures ReadHead(line + ("\r\n" + lines)).Some? <==> |line| < 512 && ' ' in line
  {
    hide ScanHeaders, IndexOf;
    var text := "\r\n" + lines;
    LineEndsAtBreak(line, lines);
    NotFound(line + text, "\0", '\0');
    NotFound(line, "\0", '\0');
    Seam(line, text);
    if ' ' in line {
      var i :| 0 <= i < |line| && line[i] == ' ';
      BlankIsFound(line, i);
    } else {
      NotFound(line, " ", ' ');
    }
  }

  lemma BlankIsFound(line: string, i: nat)
    requires i < |line| && line[i] == ' '
    ensures IndexOf(line, " ").Some?
  {
    var r := IndexOf(line, " ");
    assert StandsAt(line, " ", i) by { assert line[i..][0] == ' '; }
  }

  /** While no blank line has arrived, the connection waits for at most 16384 characters. */
  lemma WaitsUpToLimit(buf: string)
    requires IndexOf(buf, "\r\n\r\n").None? && IndexOf(buf, "\n\n").None?
    ensures ParseHeaders(buf) == if |buf| <= 16384 then More else Bad
  {
    hide IndexOf;
  }

  /** A header block that is longer is refused even when its end has arrived. */
  lemma LongBlockIsRefused(buf: string, i: nat)
    requires IndexOf(buf, "\r\n\r\n") == Some(i) && i > 16384
    ensures ParseHeaders(buf) == Bad
  {
    hide IndexOf, ReadHead;
  }

  /** A complete header block leads to nothing but a closed connection if and only if it cannot be read
      or announces more than the largest body. */
  lemma RefusedIff(header: string, more: string, maxBody: nat)
    requires CrlfFramed(header)
    ensures Service(Open("", None), header + BLANK + more, maxBody) == Served(Closed, None)
            <==> ReadHead(header).None? || ReadHead(header).value.contentLength > maxBody
  {
    hide ReadHead, FindBlank, CrlfFramed;
    var buf := header + BLANK + more;
    assert "" + buf == buf && header + BLANK <= buf && buf[..|header|] == header;
    BlankFound(header, buf);
    HeaderFits(header);
  }

  /** A longer path is stored without what does not fit. */
  lemma LongPathIsCut(path: string)
    requires |path| >= 128 && forall i :: 0 <= i < |path| ==> path[i] > ' ' && path[i] != '?'
    ensures ReadableLine("POST " + path) && PathOf("POST " + path) == path[..127] <==> |path| < 507
  {
    hide IndexOf;
    var line := "POST " + path;
    assert line == "POST" + (" " + path);
    FoundAtSeam("POST", " " + path, " ");
    assert line[5..] == path;
    NotFound(path, " ", ' ');
    NotFound(path, "?", '?');
  }

  // ------------------------ Other methods ------------------------

  /** A request line that parse_headers can read. */
  predicate ReadableLine(line: string) {
    '\n' !in line && '\0' !in line && |line| < 512 && IndexOf(line, " ").Some?
  }

  function Method(line: string): string
    requires ReadableLine(line)
  {
    line[..IndexOf(line, " ").value]
  }

  function PathOf(line: string): string
    requires ReadableLine(line)
  {
    Take(CutAt(CutAt(line[IndexOf(line, " ").value + 1..], " "), "?"), 127)
  }

  lemma LineEndsAtBreak(line: string, lines: string)
    requires '\n' !in line
    ensures IndexOf(line + ("\r\n" + lines), "\r\n") == Some(|line|)
  {
    var s := line + ("\r\n" + lines);
    assert s[|line|..] == "\r\n" + lines;
    forall j | 0 <= j < |line| ensures !StandsAt(s, "\r\n", j) {
      assert s[j..][1] == s[j + 1] && (j + 1 < |line| ==> s[j + 1] == line[j + 1]);
    }
    FirstIs(s, "\r\n", |line|);
  }

  /** The head of a request whose method is not POST says nothing of its headers. */
  lemma LineDecides(line: string, lines: string)
    requires ReadableLine(line) && '\0' !in lines
    ensures var text := "\r\n" + lines;
            ReadHead(line + text)
            == Some(if Method(line) != "POST" then Head(PathOf(line), 0, false, false)
                    else ScanHeaders(text, Head(PathOf(line), 0, false, true)))
  {
    hide ScanHeaders, IndexOf;
    var text := "\r\n" + lines;
    var header := line + text;
    LineEndsAtBreak(line, lines);
    NotFound(header, "\0", '\0');
    NotFound(line, "\0", '\0');
    Seam(line, text);
  }

  /** The announced length counts for nothing if and only if the method is not POST: whatever the
      header lines say, an empty body is acted upon and the connection is closed. */
  lemma BodyIsIgnoredIff(line: string)
    requires ReadableLine(line)
    ensures (forall lines | '\0' !in lines :: Ignored(line, lines)) <==> Method(line) != "POST"
  {
    hide ReadHead, ReadableLine, Method, PathOf;
    forall lines | '\0' !in lines ensures Method(line) != "POST" ==> Ignored(line, lines) { LineDecides(line, lines); }
    if Method(line) == "POST" {
      var lines := LengthLine(1);
      LengthHasNoBreak(1);
      LineDecides(line, lines);
      HeadersRead(Head(PathOf(line), 0, false, true), 1);
      assert !Ignored(line, lines);
    }
  }

  predicate Ignored(line: string, lines: string)
    requires ReadableLine(line)
  {
    ReadHead(line + ("\r\n" + lines)) == Some(Head(PathOf(line), 0, false, false))
  }

  /** On the connection: the body of such a request is not read, and neither is anything after it. */
  lemma OtherMethodIsClosed(line: string, lines: string, more: string, maxBody: nat)
    requires ReadableLine(line) && Method(line) != "POST" && '\0' !in lines && CrlfFramed(line + ("\r\n" + lines))
    ensures Service(Open("", None), line + ("\r\n" + lines) + BLANK + more, maxBody)
            == Served(Closed, Some(Request(Head(PathOf(line), 0, false, false), "")))
  {
    hide ReadHead, FindBlank, CrlfFramed, ReadableLine, Method, PathOf;
    var header := line + ("\r\n" + lines);
    var buf := header + BLANK + more;
    LineDecides(line, lines);
    HeaderFits(header);
    assert header + BLANK <= buf;
    BlankFound(header, buf);
    assert buf[..|header|] == header && "" + buf == buf;
    assert buf[|header| + 4..|header| + 4] == "";
  }

  function LineOf(verb: string, path: string): string {
    verb + (" " + (path + VERSION))
  }

  /** A method name without blanks. */
  predicate PlainVerb(verb: string) {
    |verb| < 32 && forall i :: 0 <= i < |verb| ==> verb[i] > ' '
  }

  lemma LineOfReads(verb: string, path: string)
    requires PlainVerb(verb) && PlainPath(path)
    ensures var line := LineOf(verb, path); ReadableLine(line) && Method(line) == verb && PathOf(line) == path
    ensures '\r' !in LineOf(verb, path)
  {
    hide IndexOf;
    var line, rest := LineOf(verb, path), path + VERSION;
    FoundAtSeam(verb, " " + rest, " ");
    Seam(verb, " " + rest);
    assert line[|verb| + 1..] == rest;
    PathReads(path);
    hide CutAt, Take, PlainPath, PlainVerb;
    assert '\n' !in line && '\0' !in line && '\r' !in line by { LineHasNoControl(verb, path); }
    assert |line| < 512 by { LineOfIsShort(verb, path); }
  }

  lemma LineOfIsShort(verb: string, path: string)
    requires PlainVerb(verb) && PlainPath(path)
    ensures |LineOf(verb, path)| < 512
  {
  }

  lemma LineHasNoControl(verb: string, path: string)
    requires PlainVerb(verb) && PlainPath(path)
    ensures '\n' !in LineOf(verb, path) && '\0' !in LineOf(verb, path) && '\r' !in LineOf(verb, path)
  {
  }

  lemma PathReads(path: string)
    requires PlainPath(path)
    ensures Take(CutAt(CutAt(path + VERSION, " "), "?"), 127) == path
  {
    hide IndexOf;
    FoundAtSeam(path, VERSION, " ");
    Seam(path, VERSION);
    NotFound(path, "?", '?');
  }

  /** Any other request for a plain path is acted upon like an empty one. */
  lemma OtherRequestIsEmpty(verb: string, path: string, n: nat, more: string, maxBody: nat)
    requires PlainVerb(verb) && verb != "POST" && PlainPath(path) && n < TWO64
    ensures Service(Open("", None), LineOf(verb, path) + ("\r\n" + LengthLine(n)) + BLANK + more, maxBody)
            == Served(Closed, Some(Request(Head(path, 0, false, false), "")))
  {
    hide ReadableLine, Method, PathOf, LineOf, PlainPath, Service, DecimalNat;
    var line, lines := LineOf(verb, path), LengthLine(n);
    LineOfReads(verb, path);
    LengthHasNoBreak(n);
    DecimalIsShort(n);
    assert |line| < 512 && '\n' !in line by { LineIsShort(line); }
    PlainBlock(line, lines);
    OtherMethodIsClosed(line, lines, more, maxBody);
  }

  lemma LineIsShort(line: string)
    requires ReadableLine(line)
    ensures |line| < 512 && '\n' !in line
  {
  }

  /** GET /v1/traces is acted upon like an empty export. */
  lemma GetIsDispatched(more: string, maxBody: nat)
    ensures Service(Open("", None), LineOf("GET", "/v1/traces") + ("\r\n" + LengthLine(5)) + BLANK + more, maxBody)
            == Served(Closed, Some(Request(Head("/v1/traces", 0, false, false), "")))
  {
    hide LineOf, LengthLine, Service;
    OtherRequestIsEmpty("GET", "/v1/traces", 5, more, maxBody);
  }

  lemma NoBlankInside(line: string, last: string, i: nat)
    requires '\r' !in line && '\r' !in last && '\n' !in last && last != "" && i < |line| + 2 + |last|
    ensures !StandsAt(line + "\r\n" + last + BLANK, BLANK, i)
  {
    var s, n := line + "\r\n" + last + BLANK, |line|;
    assert i < n ==> s[i] == line[i];
    assert s[n + 1] == '\n' && s[n + 2] == last[0];
    assert i >= n + 2 ==> s[i] == last[i - n - 2];
    assert s[i..][0] == s[i] && s[i..][2] == s[i + 2];
  }

  lemma NoDoubleBreak(line: string, last: string, i: nat)
    requires '\n' !in line && '\n' !in last && last != "" && i <= |line| + 2 + |last| + 4
    ensures !StandsAt(line + "\r\n" + last + BLANK, "\n\n", i)
  {
    var s, n, m := line + "\r\n" + last + BLANK, |line|, |line| + 2 + |last|;
    assert i < n ==> s[i] == line[i];
    assert s[n] == '\r' && s[n + 2] == last[0];
    assert n + 2 <= i < m ==> s[i] == last[i - n - 2];
    assert s[m] == '\r' && s[m + 2] == '\r';
    assert i + 1 < |s| ==> s[i..][0] == s[i] && s[i..][1] == s[i + 1];
  }

  lemma PlainBlock(line: string, lines: string)
    requires '\r' !in line && '\n' !in line && '\r' !in lines && '\n' !in lines && lines != ""
    requires |line| + |lines| < 8192
    ensures CrlfFramed(line + ("\r\n" + lines))
  {
    hide StandsAt;
    var header := line + ("\r\n" + lines);
    var s := header + BLANK;
    assert s == line + "\r\n" + lines + BLANK;
    forall i | 0 <= i < |header| ensures !StandsAt(s, BLANK, i) { NoBlankInside(line, lines, i); }
    forall i | 0 <= i <= |header| + 4 ensures !StandsAt(s, "\n\n", i) { NoDoubleBreak(line, lines, i); }
  }

  const BARE_LINE := Frame("POST /" + "\n\nx", "")

  lemma BareLineReads()
    ensures ReadHead(BARE_LINE.header) == Some(Head("/", 0, false, true))
  {
    hide IndexOf, ScanHeaders;
    var line, rest := "POST /", "\n\nx";
    var header := line + rest;
    NotFound(header, "\0", '\0');
    NotFound(line, "\0", '\0');
    NotFound(header, "\r\n", '\r');
    FoundAtSeam(line, rest, "\n");
    Seam(line, rest);
    assert line == "POST" + " /";
    FoundAtSeam("POST", " /", " ");
    assert line[5..] == "/" && line[..4] == "POST";
    NotFound("/", " ", ' ');
    NotFound("/", "?", '?');
    LoneLineScans();
  }

  lemma LoneLineScans()
    ensures ScanHeaders("\n\nx", Head("/", 0, false, true)) == Head("/", 0, false, true)
  {
    var h := Head("/", 0, false, true);
    assert "\n\nx"[1..] == "\nx" && "\nx"[1..] == "x";
    assert SkipBreaks("\n\nx") == SkipBreaks("\nx") == SkipBreaks("x") == "x";
    NotFound("x", "\r\n", '\n');
    NotFound("x", "\n", '\n');
    assert HeaderStep(h, "x") == h;
  }

  lemma BareLineEnds()
    ensures EndsAtBlank(BARE_LINE.header) && !NoBareEmptyLine(BARE_LINE.header)
  {
    var header := BARE_LINE.header;
    var s := header + BLANK;
    assert |header| == 9 && s[6] == '\n' && s[7] == '\n' && s[8] == 'x';
    forall i | 0 <= i < |header| ensures !StandsAt(s, BLANK, i) {
      assert s[i..][0] == s[i] && s[i] == header[i] && header[i] != '\r';
    }
    assert StandsAt(s, "\n\n", 6) by { assert s[6..][..2] == "\n\n"; }
  }

  /** A POST with a bare empty line in its header block: cut behind it, it is misread. */
  lemma BareLineExample()
    ensures 8 <= |FrameText(BARE_LINE)|
    ensures Twice(BARE_LINE, 8, 0) != History(Open("", None), [Request(Head("/", 0, false, true), "")])
  {
    hide ReadHead, Twice, EndsAtBlank, NoBareEmptyLine;
    FrameLength(BARE_LINE);
    BareLineReads();
    BareLineEnds();
    FoundInPrefix(BARE_LINE.header, 8);
    var p := (BARE_LINE.header + BLANK)[..8];
    assert p == "POST /" + "\n\n";
    FoundAtSeam("POST /", "\n\n", "\n\n");
    BareLineMisleads(BARE_LINE, 6, 0);
  }
}
