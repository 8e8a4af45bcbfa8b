/** An ordinary OTLP export request, with whatever headers a client or a proxy adds, is framed as what
    it was. */
module HttpPost {
  import opened Bytes
  import opened HttpFraming
  import opened HttpStream
  import opened HttpHeaders

  const METHOD := "POST "
  const VERSION := " HTTP/1.1"

  /** What a client sends; `query` is what proxies add to the path. */
  datatype Export = Export(path: string, query: string, lines: seq<HeaderLine>, body: string)

  function RequestLine(path: string, query: string): string {
    METHOD + (path + (query + VERSION))
  }

  function Post(e: Export): Frame {
    Frame(RequestLine(e.path, e.query) + HeaderText(e.lines), e.body)
  }

  /** A path that survives the request line: no blank, no query, short enough to be stored. */
  predicate PlainPath(path: string) {
    |path| < 128 && forall i :: 0 <= i < |path| ==> path[i] > ' ' && path[i] != '?'
  }

  predicate PlainQuery(query: string) {
    && (query != "" ==> query[0] == '?')
    && forall i :: 0 <= i < |query| ==> query[i] > ' '
  }

  /** Announces its own body, does not ask to close, and keeps to the sizes of the server. */
  predicate Ordinary(e: Export, maxBody: nat) {
    && PlainPath(e.path) && PlainQuery(e.query) && |RequestLine(e.path, e.query)| < 512
    && AllLines(e.lines) && Announced(e.lines) == |e.body| <= maxBody && !AsksToClose(e.lines)
    && |Post(e).header| + 3 <= 16384
  }

  /** What is acted upon. */
  function Meant(e: Export): Request {
    Request(Head(e.path, |e.body|, Compressed(e.lines), true), e.body)
  }

  // ------------------------ Reading the header ------------------------

  lemma LineHasNoBreak(path: string, query: string)
    requires PlainPath(path) && PlainQuery(query)
    ensures OnOneLine(RequestLine(path, query))
  {
  }

  lemma {:induction false} TextHasNoNul(ls: seq<HeaderLine>)
    requires AllLines(ls)
    ensures '\0' !in HeaderText(ls)
  {
    hide LineText, LegalLine, OnOneLine;
    if ls != [] {
      LineIsOne(ls[0]);
      NoNul(LineText(ls[0]));
      TextHasNoNul(ls[1..]);
    }
  }

  lemma NoNul(s: string)
    requires OnOneLine(s)
    ensures '\0' !in s && '\r' !in s && '\n' !in s
  {
  }

  lemma LineReads(path: string, query: string)
    requires PlainPath(path) && PlainQuery(query)
    ensures var line := RequestLine(path, query);
            && IndexOf(line, " ") == Some(4)
            && line[..4] == "POST"
            && Take(CutAt(CutAt(line[5..], " "), "?"), 127) == path
  {
    hide IndexOf, Take;
    var line, target := RequestLine(path, query), path + query;
    assert line == "POST" + (" " + (target + VERSION));
    FoundAtSeam("POST", " " + (target + VERSION), " ");
    assert line[5..] == target + VERSION;
    FoundAtSeam(target, VERSION, " ");
    Seam(target, VERSION);
    QueryIsCut(path, query);
  }

  lemma QueryIsCut(path: string, query: string)
    requires PlainPath(path) && PlainQuery(query)
    ensures Take(CutAt(path + query, "?"), 127) == path
  {
    hide IndexOf;
    if query == "" {
      assert path + query == path;
      NotFound(path, "?", '?');
    } else {
      FoundAtSeam(path, query, "?");
      Seam(path, query);
    }
  }

  /** Where the request line ends. */
  lemma LineEnds(line: string, ls: seq<HeaderLine>)
    requires OnOneLine(line)
    ensures LineBreak(line + HeaderText(ls)) == if ls == [] then None else Some(|line|)
  {
    hide IndexOf;
    NoNul(line);
    TextBegins(ls);
    if ls == [] {
      assert line + HeaderText(ls) == line;
      NotFound(line, "\r\n", '\n');
      NotFound(line, "\n", '\n');
    } else {
      FoundAtSeam(line, HeaderText(ls), "\r\n");
    }
  }

  /** Path, length, compression and persistence are read as the header lines say, in whatever letter
      case, order and company they come; a query is dropped. */
  lemma PostReads(path: string, query: string, ls: seq<HeaderLine>)
    requires PlainPath(path) && PlainQuery(query) && |RequestLine(path, query)| < 512 && AllLines(ls)
    ensures ReadHead(RequestLine(path, query) + HeaderText(ls))
            == Some(Head(path, Announced(ls), Compressed(ls), !AsksToClose(ls)))
  {
    hide ScanHeaders, HeaderText, RequestLine, PlainPath, PlainQuery, IndexOf, LineBreak, AllLines, OnOneLine,
        Announced,
         Compressed, AsksToClose;
    var line, more := RequestLine(path, query), HeaderText(ls);
    var header := line + more;
    LineHasNoBreak(path, query);
    NoNul(line);
    TextHasNoNul(ls);
    NotFound(header, "\0", '\0');
    NotFound(line, "\0", '\0');
    LineEnds(line, ls);
    LineReads(path, query);
    Seam(line, more);
    HeadersAre(Head(path, 0, false, true), ls);
    EffectsAre(path, ls);
    if ls == [] { NoLines(path); }
    TextBegins(ls);
  }

  lemma NoLines(path: string)
    ensures Effects(Head(path, 0, false, true), []) == Head(path, 0, false, true)
  {
  }

  // ------------------------ Framing ------------------------

  /** Every line break is followed by a line. */
  predicate Tidy(s: string) {
    && (forall i :: 0 <= i < |s| && s[i] == '\n' ==> i + 1 < |s| && s[i + 1] != '\n' && s[i + 1] != '\r')
    && (s != "" ==> s[|s| - 1] != '\r')
  }

  lemma {:induction false} TextIsTidy(ls: seq<HeaderLine>)
    requires AllLines(ls)
    ensures Tidy(HeaderText(ls))
  {
    hide LineText, LegalLine;
    if ls != [] {
      var text, rest := LineText(ls[0]), HeaderText(ls[1..]);
      LineIsOne(ls[0]);
      TextIsTidy(ls[1..]);
      TidyBehind("\r\n" + text, rest);
      assert "\r\n" + (text + rest) == "\r\n" + text + rest;
    }
  }

  lemma TidyBehind(front: string, rest: string)
    requires Tidy(front) && Tidy(rest)
    ensures Tidy(front + rest)
  {
    var s := front + rest;
    forall i | 0 <= i < |s| && s[i] == '\n' ensures i + 1 < |s| && s[i + 1] != '\n' && s[i + 1] != '\r' {
      if i >= |front| { assert rest[i - |front|] == '\n'; }
    }
  }

  lemma TidyIsFramed(header: string)
    requires Tidy(header) && |header| + 3 <= 16384
    ensures CrlfFramed(header)
  {
    var s, n := header + BLANK, |header|;
    forall i | 0 <= i < n ensures !StandsAt(s, BLANK, i) {
      assert s[i..][0] == s[i] && s[i..][1] == s[i + 1] && s[i..][2] == s[i + 2];
      assert i + 1 < n ==> s[i + 1] == header[i + 1] && (i + 2 < n ==> s[i + 2] == header[i + 2]);
    }
    forall i | 0 <= i <= n + 4 ensures !StandsAt(s, "\n\n", i) {
      if i + 1 < |s| {
        assert s[i..][0] == s[i] && s[i..][1] == s[i + 1];
        assert i + 1 < n ==> s[i + 1] == header[i + 1];
      }
    }
  }

  lemma PostIsFramed(e: Export, maxBody: nat)
    requires Ordinary(e, maxBody)
    ensures CrlfFramed(Post(e).header)
  {
    hide RequestLine, HeaderText, CrlfFramed, AllLines, PlainPath, PlainQuery;
    var line := RequestLine(e.path, e.query);
    LineHasNoBreak(e.path, e.query);
    TextIsTidy(e.lines);
    TidyBehind(line, HeaderText(e.lines));
    TidyIsFramed(Post(e).header);
  }

  // ------------------------ Serving them ------------------------

  function Posts(es: seq<Export>): (fs: seq<Frame>)
    ensures |fs| == |es| && forall i :: 0 <= i < |fs| ==> fs[i] == Post(es[i])
  {
    seq(|es|, i requires 0 <= i < |es| => Post(es[i]))
  }

  /** Exports posted over one connection are acted upon in order, each with its own path, compression
      and body, however the bytes arrive, and the connection stays open. */
  lemma PostsAreServed(es: seq<Export>, chunks: seq<string>, maxBody: nat)
    requires maxBody < TWO64 && Concat(chunks) <= Stream(Posts(es))
    requires forall i :: 0 <= i < |es| ==> Ordinary(es[i], maxBody)
    ensures var h := Serve(History(Open("", None), []), chunks, maxBody);
            && h.conn.Open?
            && |h.requests| <= |es|
            && forall i :: 0 <= i < |h.requests| ==> h.requests[i] == Meant(es[i])
  {
    hide Serve, Concat, Post, Stream, Ordinary, CrlfFramed, ReadHead, Tracks, Meant;
    var fs := Posts(es);
    forall i | 0 <= i < |fs|
      ensures Legal(fs[i], maxBody) && KeepsOpen(fs[i])
      ensures RequestOf(fs[i]) == Meant(es[i])
    {
      PostIsLegal(es[i], maxBody);
    }
    CuttingIsHarmless(fs, chunks, maxBody);
    var h := Serve(History(Open("", None), []), chunks, maxBody);
    RequestsAre(fs[..|h.requests|]);
  }

  lemma PostIsLegal(e: Export, maxBody: nat)
    requires Ordinary(e, maxBody)
    ensures Legal(Post(e), maxBody) && KeepsOpen(Post(e)) && RequestOf(Post(e)) == Meant(e)
  {
    hide CrlfFramed, ReadHead, RequestLine, HeaderText, PlainPath, PlainQuery, AllLines, AsksToClose, Compressed,
        Announced;
    PostReads(e.path, e.query, e.lines);
    PostIsFramed(e, maxBody);
  }

  lemma {:induction false} RequestsAre(fs: seq<Frame>)
    requires forall i :: 0 <= i < |fs| ==> ReadHead(fs[i].header).Some?
    ensures |RequestsOf(fs)| == |fs| && forall i :: 0 <= i < |fs| ==> RequestsOf(fs)[i] == RequestOf(fs[i])
  {
    hide ReadHead, RequestOf;
    if fs != [] { RequestsAre(fs[1..]); }
  }

  // ------------------------ One length line ------------------------

  const LENGTH_KEY := "content-length:"

  function LengthLine(n: nat): string {
    LENGTH_KEY + (" " + DecimalNat(n))
  }

  lemma HeadersRead(h: Head, n: nat)
    requires n < TWO64
    ensures ScanHeaders("\r\n" + LengthLine(n), h) == h.(contentLength := n)
  {
    hide ScanHeaders, DecimalNat, Spells;
    var l := Length(LENGTH_KEY, " ", n);
    assert Spells(LENGTH_KEY, LENGTH_KEY) by { SpellsItself(LENGTH_KEY); }
    assert [l][1..] == [];
    assert LengthLine(n) + HeaderText([]) == LengthLine(n);
    assert HeaderText([l]) == "\r\n" + LengthLine(n);
    HeadersAre(h, [l]);
    NoEffects(Effect(h, l));
    assert Effects(h, [l]) == Effects(Effect(h, l), []) == h.(contentLength := n);
  }

  lemma SpellsItself(word: string)
    ensures Spells(word, word)
  {
  }

  lemma LengthHasNoBreak(n: nat)
    ensures '\n' !in LengthLine(n) && '\r' !in LengthLine(n) && '\0' !in LengthLine(n)
  {
    DecimalReads(n);
    assert forall c :: c in LengthLine(n) ==> c in LENGTH_KEY || c == ' ' || c in DecimalNat(n);
  }
}
