/** Framing does not depend on how the stream is cut: whatever the pieces, the requests acted upon
    are a prefix of those that were sent. */
module HttpStream {
  import opened Bytes
  import opened HttpFraming

  const BLANK := "\r\n\r\n"

  /** A request as a client sends it: header block, blank line, body. */
  datatype Frame = Frame(header: string, body: string)

  function FrameText(f: Frame): string {
    f.header + BLANK + f.body
  }

  function Stream(fs: seq<Frame>): string {
    if fs == [] then "" else FrameText(fs[0]) + Stream(fs[1..])
  }

  /** The blank line is the first one, there is no bare empty line before it, and no piece that
      lacks it is taken for an oversized header. */
  predicate CrlfFramed(header: string) {
    && (forall i :: 0 <= i < |header| ==> !StandsAt(header + BLANK, BLANK, i))
    && (forall i :: 0 <= i <= |header| + 4 ==> !StandsAt(header + BLANK, "\n\n", i))
    && |header| + 3 <= 16384
  }

  predicate Legal(f: Frame, maxBody: nat) {
    && CrlfFramed(f.header)
    && ReadHead(f.header).Some?
    && ReadHead(f.header).value.contentLength == |f.body| <= maxBody
  }

  predicate AllLegal(fs: seq<Frame>, maxBody: nat) {
    forall i :: 0 <= i < |fs| ==> Legal(fs[i], maxBody)
  }

  /** Whether the connection outlives the request. */
  predicate KeepsOpen(f: Frame)
    requires ReadHead(f.header).Some?
  {
    ReadHead(f.header).value.keepAlive
  }

  function RequestOf(f: Frame): Request
    requires ReadHead(f.header).Some?
  {
    Request(ReadHead(f.header).value, f.body)
  }

  function RequestsOf(fs: seq<Frame>): seq<Request>
    requires forall i :: 0 <= i < |fs| ==> ReadHead(fs[i].header).Some?
  {
    if fs == [] then [] else [RequestOf(fs[0])] + RequestsOf(fs[1..])
  }

  // ------------------------ Finding the blank line ------------------------

  lemma StandsInLonger(a: string, b: string, pat: string, i: nat)
    requires a <= b
    ensures StandsAt(a, pat, i) ==> StandsAt(b, pat, i)
    ensures StandsAt(b, pat, i) && i + |pat| <= |a| ==> StandsAt(a, pat, i)
  {
    if StandsAt(a, pat, i) {
      assert b[i..][..|pat|] == a[i..][..|pat|];
    }
    if StandsAt(b, pat, i) && i + |pat| <= |a| {
      assert b[i..][..|pat|] == a[i..][..|pat|];
    }
  }

  lemma BlankFound(header: string, buf: string)
    requires CrlfFramed(header) && header + BLANK <= buf
    ensures FindBlank(buf) == Some((|header|, 4))
  {
    var hb := header + BLANK;
    assert StandsAt(hb, BLANK, |header|) by { assert hb[|header|..] == BLANK; }
    StandsInLonger(hb, buf, BLANK, |header|);
    forall j | 0 <= j < |header| ensures !StandsAt(buf, BLANK, j) {
      StandsInLonger(hb, buf, BLANK, j);
    }
    FirstIs(buf, BLANK, |header|);
  }

  lemma BlankMissing(header: string, buf: string)
    requires CrlfFramed(header) && buf <= header + BLANK && |buf| < |header| + 4
    ensures FindBlank(buf) == None
  {
    var hb := header + BLANK;
    forall j | 0 <= j <= |buf| ensures !StandsAt(buf, BLANK, j) && !StandsAt(buf, "\n\n", j) {
      StandsInLonger(buf, hb, BLANK, j);
      StandsInLonger(buf, hb, "\n\n", j);
    }
    NoneIs(buf, BLANK);
    NoneIs(buf, "\n\n");
  }

  // ------------------------ One recv ------------------------

  /** The buffer holds the part of frame `f` and its successors that has arrived so far. */
  predicate Tracks(c: Conn, f: Frame, rest: string) {
    && c.Open?
    && c.buf <= FrameText(f) + rest
    && match c.parsed
       case None => true
       case Some((h, offset)) =>
         ReadHead(f.header) == Some(h) && offset == |f.header| + 4 && offset <= |c.buf|
  }

  lemma ParsesTo(f: Frame, rest: string, buf: string, maxBody: nat)
    requires Legal(f, maxBody) && buf <= FrameText(f) + rest
    ensures if |buf| < |f.header| + 4 then ParseHeaders(buf) == More
            else ParseHeaders(buf) == Found(ReadHead(f.header).value, |f.header| + 4)
  {
    hide ReadHead, FindBlank, CrlfFramed;
    var s, hb := FrameText(f) + rest, f.header + BLANK;
    assert s == hb + (f.body + rest);
    if |buf| < |hb| {
      assert buf == hb[..|buf|];
      BlankMissing(f.header, buf);
      assert |f.header| + 3 <= 16384 by { HeaderFits(f.header); }
    } else {
      assert hb == buf[..|hb|];
      BlankFound(f.header, buf);
      assert buf[..|f.header|] == f.header;
      HeaderFits(f.header);
    }
  }

  lemma HeaderFits(header: string)
    requires CrlfFramed(header)
    ensures |header| + 3 <= 16384
  {
  }

  /** What is left once the request at the front has been used. */
  function Consumed(f: Frame, buf: string): Served
    requires ReadHead(f.header).Some? && |FrameText(f)| <= |buf|
  {
    Served(if KeepsOpen(f) then Open(buf[|FrameText(f)|..], None) else Closed, Some(RequestOf(f)))
  }

  /** A recv consumes the request at the front exactly when it leaves it complete in the buffer,
      never more than that one, and keeps every other byte. */
  lemma OneRecv(c: Conn, f: Frame, rest: string, chunk: string, maxBody: nat)
    requires Legal(f, maxBody) && Tracks(c, f, rest) && c.buf + chunk <= FrameText(f) + rest
    ensures var served, buf := Service(c, chunk, maxBody), c.buf + chunk;
            if |buf| < |FrameText(f)| then
              served.request == None && Tracks(served.conn, f, rest) && served.conn.buf == buf
            else
              && FrameText(f) <= buf
              && served == Consumed(f, buf)
  {
    hide ReadHead, ParseHeaders, CrlfFramed;
    var buf, n := c.buf + chunk, |f.header| + 4;
    ParsesTo(f, rest, buf, maxBody);
    if |buf| >= n {
      FinishesTo(f, rest, buf, maxBody);
    }
  }

  lemma FinishesTo(f: Frame, rest: string, buf: string, maxBody: nat)
    requires Legal(f, maxBody) && buf <= FrameText(f) + rest && |f.header| + 4 <= |buf|
    ensures var h, n := ReadHead(f.header).value, |f.header| + 4;
            if |buf| < |FrameText(f)| then Finish(buf, h, n) == Served(Open(buf, Some((h, n))), None)
            else
              && FrameText(f) <= buf
              && Finish(buf, h, n) == Consumed(f, buf)
  {
    hide ReadHead, CrlfFramed;
    var n, text := |f.header| + 4, FrameText(f);
    if |buf| >= |text| {
      assert text == (text + rest)[..|text|] == buf[..|text|];
      assert buf[n..|text|] == text[n..] == f.body;
    }
  }

  // ------------------------ Whole connections ------------------------

  datatype History = History(conn: Conn, requests: seq<Request>)

  function Serve(h: History, chunks: seq<string>, maxBody: nat): History
    requires ValidConn(h.conn)
    decreases |chunks|
  {
    if chunks == [] || h.conn.Closed? then h
    else
      ServiceKeepsValid(h.conn, chunks[0], maxBody);
      var served := Service(h.conn, chunks[0], maxBody);
      Serve(History(served.conn, h.requests + match served.request case None => [] case Some(r) => [r]), chunks[1..],
            maxBody)
  }

  function Concat(chunks: seq<string>): string {
    if chunks == [] then "" else chunks[0] + Concat(chunks[1..])
  }

  /** After receiving `got`: the first frames have been acted upon, once each and in order. Either
      the last of them asked for the connection to be closed, or the bytes that belong to no
      finished frame are in the buffer. */
  ghost predicate InStep(fs: seq<Frame>, h: History, got: string)
    requires forall i :: 0 <= i < |fs| ==> ReadHead(fs[i].header).Some?
  {
    var k := |h.requests|;
    && k <= |fs|
    && h.requests == RequestsOf(fs[..k])
    && if h.conn.Closed? then
         k > 0 && !KeepsOpen(fs[k - 1]) && AllKeepOpen(fs[..k - 1]) && Stream(fs[..k]) <= got
       else
         && AllKeepOpen(fs[..k])
         && got == Stream(fs[..k]) + h.conn.buf
         && if k == |fs| then h.conn == Open("", None) else Tracks(h.conn, fs[k], Stream(fs[k + 1..]))
  }

  predicate AllKeepOpen(fs: seq<Frame>)
    requires forall i :: 0 <= i < |fs| ==> ReadHead(fs[i].header).Some?
  {
    forall i :: 0 <= i < |fs| ==> KeepsOpen(fs[i])
  }

  lemma AllKeepOpenSnoc(fs: seq<Frame>, k: nat)
    requires k < |fs| && forall i :: 0 <= i < |fs| ==> ReadHead(fs[i].header).Some?
    ensures AllKeepOpen(fs[..k]) && KeepsOpen(fs[k]) ==> AllKeepOpen(fs[..k + 1])
  {
    hide ReadHead;
  }

  lemma {:induction false} StreamSplit(fs: seq<Frame>, k: nat)
    requires k <= |fs|
    ensures Stream(fs) == Stream(fs[..k]) + Stream(fs[k..])
  {
    hide FrameText;
    if k == 0 {
      assert fs[..0] == [] && fs[0..] == fs;
    } else {
      StreamSplit(fs[1..], k - 1);
      assert fs[..k][1..] == fs[1..][..k - 1] && fs[1..][k - 1..] == fs[k..];
    }
  }

  lemma {:induction false} RequestsSnoc(fs: seq<Frame>, k: nat)
    requires k < |fs| && forall i :: 0 <= i < |fs| ==> ReadHead(fs[i].header).Some?
    ensures RequestsOf(fs[..k + 1]) == RequestsOf(fs[..k]) + [RequestOf(fs[k])]
    ensures Stream(fs[..k + 1]) == Stream(fs[..k]) + FrameText(fs[k])
  {
    hide FrameText, ReadHead, RequestOf;
    if k == 0 {
      assert fs[..1] == [fs[0]] && fs[..1][1..] == [] && fs[..0] == [];
    } else {
      RequestsSnoc(fs[1..], k - 1);
      assert fs[..k + 1][1..] == fs[1..][..k] && fs[..k][1..] == fs[1..][..k - 1];
    }
  }

  lemma AppendPrefix(a: string, b: string, c: string)
    ensures a + b <= a + c <==> b <= c
  {
    if a + b <= a + c {
      assert b == (a + c)[..|a + b|][|a|..];
      assert c[..|b|] == (a + c)[|a|..][..|b|];
    }
  }

  lemma StaysInStep(fs: seq<Frame>, h: History, got: string, chunk: string, maxBody: nat)
    requires AllLegal(fs, maxBody) && InStep(fs, h, got) && ValidConn(h.conn) && h.conn.Open?
             && got + chunk <= Stream(fs)
    ensures var served := Service(h.conn, chunk, maxBody);
            InStep(fs, History(served.conn, h.requests + match served.request case None => [] case Some(r) => [r]),
                   got + chunk)
  {
    hide ReadHead, CrlfFramed, ParseHeaders, FrameText, Stream, RequestsOf;
    var k, buf := |h.requests|, h.conn.buf + chunk;
    StreamSplit(fs, k);
    AppendPrefix(Stream(fs[..k]), buf, Stream(fs[k..]));
    assert got + chunk == Stream(fs[..k]) + buf;
    if k == |fs| {
      NoMoreFrames(fs[k..]);
      assert buf == "" && chunk == "";
      IdleRecv(maxBody);
      assert h.requests + [] == h.requests;
    } else {
      var f, rest := fs[k], Stream(fs[k + 1..]);
      FirstFrame(fs, k);
      OneRecv(h.conn, f, rest, chunk, maxBody);
      if |buf| < |FrameText(f)| {
        assert h.requests + [] == h.requests;
      } else {
        RequestsSnoc(fs, k);
        NextFrame(fs, k, buf);
        AllKeepOpenSnoc(fs, k);
        assert Stream(fs[..k]) + buf == Stream(fs[..k]) + FrameText(f) + buf[|FrameText(f)|..];
      }
    }
  }

  lemma NoMoreFrames(fs: seq<Frame>)
    requires fs == []
    ensures Stream(fs) == ""
  {
  }

  lemma IdleRecv(maxBody: nat)
    ensures Service(Open("", None), "", maxBody) == Served(Open("", None), None)
  {
    hide ReadHead;
    NoneIs("", "\r\n\r\n");
    NoneIs("", "\n\n");
    assert "" + "" == "";
  }

  lemma FirstFrame(fs: seq<Frame>, k: nat)
    requires k < |fs|
    ensures Stream(fs[k..]) == FrameText(fs[k]) + Stream(fs[k + 1..])
  {
    assert fs[k..][1..] == fs[k + 1..];
  }

  /** What follows a finished frame is the beginning of the next one. */
  lemma NextFrame(fs: seq<Frame>, k: nat, buf: string)
    requires k < |fs| && FrameText(fs[k]) <= buf <= FrameText(fs[k]) + Stream(fs[k + 1..])
    ensures var left := buf[|FrameText(fs[k])|..];
            if k + 1 == |fs| then left == "" else Tracks(Open(left, None), fs[k + 1], Stream(fs[k + 2..]))
  {
    hide FrameText;
    var text := FrameText(fs[k]);
    var left := buf[|text|..];
    assert buf == text + left;
    AppendPrefix(text, left, Stream(fs[k + 1..]));
    if k + 1 < |fs| { FirstFrame(fs, k + 1); } else { assert fs[k + 1..] == []; }
  }

  lemma {:induction false} ServeInStep(fs: seq<Frame>, h: History, got: string, chunks: seq<string>, maxBody: nat)
    requires AllLegal(fs, maxBody) && ValidConn(h.conn) && InStep(fs, h, got) && got + Concat(chunks) <= Stream(fs)
    ensures InStep(fs, Serve(h, chunks, maxBody), got + Concat(chunks))
    decreases |chunks|
  {
    hide CrlfFramed, ReadHead, Stream, Service, InStep;
    if chunks == [] {
      assert got + Concat(chunks) == got;
    } else if h.conn.Closed? {
      StaysClosed(fs, h, got, Concat(chunks));
    } else {
      var chunk, rest := chunks[0], Concat(chunks[1..]);
      assert got + Concat(chunks) == got + chunk + rest;
      assert got + chunk <= Stream(fs) by { assert got + chunk == (got + chunk + rest)[..|got + chunk|]; }
      StaysInStep(fs, h, got, chunk, maxBody);
      ServiceKeepsValid(h.conn, chunk, maxBody);
      var served := Service(h.conn, chunk, maxBody);
      var next := History(served.conn, h.requests + match served.request case None => [] case Some(r) => [r]);
      ServeInStep(fs, next, got + chunk, chunks[1..], maxBody);
    }
  }

  lemma StaysClosed(fs: seq<Frame>, h: History, got: string, more: string)
    requires forall i :: 0 <= i < |fs| ==> ReadHead(fs[i].header).Some?
    requires InStep(fs, h, got) && h.conn.Closed?
    ensures InStep(fs, h, got + more)
  {
    hide ReadHead, Stream;
  }

  /** For every stream of legal requests and every way to cut what has arrived of it into pieces,
      the requests acted upon are the first ones sent, and no byte is lost, repeated or moved. */
  lemma CuttingIsHarmless(fs: seq<Frame>, chunks: seq<string>, maxBody: nat)
    requires AllLegal(fs, maxBody) && Concat(chunks) <= Stream(fs)
    ensures InStep(fs, Serve(History(Open("", None), []), chunks, maxBody), Concat(chunks))
  {
    hide Legal, Serve, Concat;
    var h := History(Open("", None), []);
    assert fs[..0] == [];
    assert "" + "" == "" && "" + Concat(chunks) == Concat(chunks);
    ServeInStep(fs, h, "", chunks, maxBody);
  }

  /** Two cuttings of the same bytes can only differ in how far they have got. */
  lemma CuttingsAgree(fs: seq<Frame>, a: seq<string>, b: seq<string>, maxBody: nat)
    requires AllLegal(fs, maxBody) && Concat(a) <= Stream(fs) && Concat(b) <= Stream(fs)
    ensures var x := Serve(History(Open("", None), []), a, maxBody).requests;
            var y := Serve(History(Open("", None), []), b, maxBody).requests;
            x <= y || y <= x
  {
    hide CrlfFramed, ReadHead, Serve, Concat, Tracks, Stream;
    CuttingIsHarmless(fs, a, maxBody);
    CuttingIsHarmless(fs, b, maxBody);
    var x := Serve(History(Open("", None), []), a, maxBody).requests;
    var y := Serve(History(Open("", None), []), b, maxBody).requests;
    if |x| <= |y| { RequestsPrefix(fs, |x|, |y|); } else { RequestsPrefix(fs, |y|, |x|); }
  }

  lemma {:induction false} RequestsPrefix(fs: seq<Frame>, i: nat, j: nat)
    requires i <= j <= |fs| && forall n :: 0 <= n < |fs| ==> ReadHead(fs[n].header).Some?
    ensures RequestsOf(fs[..i]) <= RequestsOf(fs[..j])
    decreases j - i
  {
    hide ReadHead;
    if i < j {
      RequestsPrefix(fs, i, j - 1);
      RequestsSnoc(fs, j - 1);
    }
  }

  // ------------------------ What is not promised ------------------------

  /** A request that arrives together with its predecessor stays in the buffer until the next
      recv, although it is complete. */
  lemma PipelinedRequestWaits(a: Frame, b: Frame, maxBody: nat)
    requires Legal(a, maxBody) && Legal(b, maxBody) && KeepsOpen(a)
    ensures Service(Open("", None), FrameText(a) + FrameText(b), maxBody)
            == Served(Open(FrameText(b), None), Some(RequestOf(a)))
  {
    hide Legal, FrameText;
    var text, rest := FrameText(a), FrameText(b);
    assert "" + (text + rest) == text + rest;
    OneRecv(Open("", None), a, rest, text + rest, maxBody);
    assert (text + rest)[|text|..] == rest;
  }
}
