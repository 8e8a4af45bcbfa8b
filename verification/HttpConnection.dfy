/** parse_headers and conn_service (http_server.c), proved against the framing functions. */
module HttpConnection {
  import opened Bytes
  import opened HttpFraming

  /** The loop over the header lines. */
  method ScanHeaderLines(text: string, from: nat, h0: Head) returns (h: Head)
    requires from <= |text|
    ensures h == ScanHeaders(text[from..], h0)
  {
    hide HeaderStep, LineBreak;
    h := h0;
    var cursor := from;
    cursor := SkipLineBreaks(text, cursor);
    ScanSkips(text[from..], h);
    while cursor < |text|
      invariant from <= cursor <= |text|
      invariant SkipBreaks(text[cursor..]) == text[cursor..]
      invariant ScanHeaders(text[cursor..], h) == ScanHeaders(text[from..], h0)
      decreases |text| - cursor
    {
      var at := text[cursor..];
      BreakIsAhead(at);
      var eol := LineBreak(at);
      h := HeaderStep(h, at);
      if eol.None? { return; }
      EolInside(at);
      assert at[eol.value..] == text[cursor + eol.value..];
      var next := SkipLineBreaks(text, cursor + eol.value);
      ScanSkips(text[cursor + eol.value..], h);
      cursor := next;
    }
  }

  lemma EolInside(at: string)
    ensures LineBreak(at).Some? ==> LineBreak(at).value <= |at|
  {
  }

  lemma ScanSkips(s: string, h: Head)
    ensures ScanHeaders(SkipBreaks(s), h) == ScanHeaders(s, h)
    ensures SkipBreaks(SkipBreaks(s)) == SkipBreaks(s)
  {
    SkipBreaksTwice(s);
  }

  lemma {:induction false} SkipBreaksTwice(s: string)
    ensures SkipBreaks(SkipBreaks(s)) == SkipBreaks(s)
  {
    if s != "" && (s[0] == '\r' || s[0] == '\n') { SkipBreaksTwice(s[1..]); }
  }

  method SkipLineBreaks(text: string, from: nat) returns (c: nat)
    requires from <= |text|
    ensures from <= c <= |text| && text[c..] == SkipBreaks(text[from..])
  {
    c := from;
    while c < |text| && (text[c] == '\r' || text[c] == '\n')
      invariant from <= c <= |text| && SkipBreaks(text[c..]) == SkipBreaks(text[from..])
    {
      assert text[c..][1..] == text[c + 1..];
      c := c + 1;
    }
  }

  /** The part of parse_headers that reads a complete header block. */
  method ReadHeaderBlock(header: string) returns (head: Option<Head>)
    ensures head == ReadHead(header)
  {
    hide ScanHeaders, LineBreak, IndexOf, CutAt, Take;
    var text := CutAt(header, "\0");
    var end := LineBreak(text);
    EolInside(text);
    var lineLen := match end case None => |header| case Some(i) => i;
    if lineLen >= LINE_CAP || lineLen > |header| { return None; }
    var line := CutAt(header[..lineLen], "\0");
    var sp := IndexOf(line, " ");
    if sp.None? { return None; }
    var path := Take(CutAt(CutAt(line[sp.value + 1..], " "), "?"), PATH_CAP - 1);
    if line[..sp.value] != "POST" { return Some(Head(path, 0, false, false)); }
    var h := Head(path, 0, false, true);
    if end.Some? { h := ScanHeaderLines(text, end.value, h); }
    return Some(h);
  }

  /** pw_conn_t with its buffer and the state of the request in progress. */
  class Connection {
    var open: bool
    var buf: string
    var headersDone: bool
    var head: Head
    var bodyOffset: nat

    /** The connection as the framing functions see it. */
    ghost function State(): (c: Conn)
      reads this
    {
      if !open then Closed else Open(buf, if headersDone then Some((head, bodyOffset)) else None)
    }

    ghost predicate Valid()
      reads this
    {
      ValidConn(State())
    }

    constructor ()
      ensures Valid() && State() == Open("", None)
    {
      open, buf, headersDone, head, bodyOffset := true, "", false, Head("", 0, false, true), 0;
    }

    /** parse_headers: 1 when the block is complete, 0 when bytes are missing, -1 when malformed. */
    method ParseHeaders() returns (rc: int)
      requires Valid() && open && !headersDone
      modifies this
      ensures open && buf == old(buf)
      ensures rc == match HttpFraming.ParseHeaders(buf) case Bad => -1 case More => 0 case Found(_, _) => 1
      ensures rc == 1 ==> headersDone && HttpFraming.ParseHeaders(buf) == Found(head, bodyOffset)
      ensures rc != 1 ==> !headersDone
    {
      hide ReadHead;
      var blank := FindBlank(buf);
      if blank.None? { return if |buf| > HEADER_MAX then -1 else 0; }
      var (i, sep) := blank.value;
      if i > HEADER_MAX { return -1; }
      var h := ReadHeaderBlock(buf[..i]);
      if h.None? { return -1; }
      head, bodyOffset, headersDone := h.value, i + sep, true;
      return 1;
    }

    /** conn_service after a recv of `chunk`. */
    method Service(chunk: string, maxBody: nat) returns (request: Option<Request>)
      requires Valid() && open
      modifies this
      ensures Valid()
      ensures Served(State(), request) == HttpFraming.Service(old(State()), chunk, maxBody)
    {
      hide HttpFraming.ParseHeaders;
      buf := buf + chunk;
      if !headersDone {
        var rc := ParseHeaders();
        if rc < 0 {
          open := false;
          return None;
        }
        if rc == 0 { return None; }
        if head.contentLength > maxBody {
          open := false;
          return None;
        }
      }
      if |buf| - bodyOffset < head.contentLength { return None; }
      var consumed := bodyOffset + head.contentLength;
      request := Some(Request(head, buf[bodyOffset..consumed]));
      if !head.keepAlive {
        open := false;
        return;
      }
      buf, headersDone, bodyOffset := buf[consumed..], false, 0;
    }
  }
}
