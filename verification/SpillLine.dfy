/** One spilled record is one line of JSON: the escaping printer (db_buffer.c) and the extractor
    that finds a key by searching for its quoted name (agentd.c). */
module SpillLine {
  import opened Bytes

  // ------------------------ Escaping ------------------------

  function EscapeChar(c: char): (r: string)
    ensures |r| >= 1
  {
    if c == '\\' then "\\\\"
    else if c == '"' then "\\\""
    else if c == '\n' then "\\n"
    else if c == '\r' then "\\r"
    else if c == '\t' then "\\t"
    else if c < ' ' then "\\u00" + [HEX_DIGITS[c as int / 16], HEX_DIGITS[c as int % 16]]
    else [c]
  }

  function Escape(s: string): string {
    if s == "" then "" else EscapeChar(s[0]) + Escape(s[1..])
  }

  lemma {:induction false} EscapeSnoc(s: string, c: char)
    ensures Escape(s + [c]) == Escape(s) + EscapeChar(c)
  {
    if s == "" {
      assert [c][1..] == "" && s + [c] == [c];
      assert EscapeChar(c) + "" == EscapeChar(c) && "" + EscapeChar(c) == EscapeChar(c);
    } else {
      assert (s + [c])[1..] == s[1..] + [c];
      EscapeSnoc(s[1..], c);
      assert EscapeChar(s[0]) + (Escape(s[1..]) + EscapeChar(c)) == EscapeChar(s[0]) + Escape(s[1..]) + EscapeChar(c);
    }
  }

  lemma {:induction false} EscapeGrows(a: string, b: string)
    ensures |Escape(a)| <= |Escape(a + b)|
  {
    if a != "" {
      assert (a + b)[1..] == a[1..] + b;
      EscapeGrows(a[1..], b);
    }
  }

  /** pw_json_escape: the whole escaped text, or a failure that leaves an empty string. */
  method JsonEscape(s: string, cap: nat) returns (out: string, ok: bool)
    requires cap > 0
    ensures ok <==> |Escape(s)| < cap
    ensures out == if ok then Escape(s) else ""
  {
    hide EscapeChar;
    out := "";
    for i := 0 to |s|
      invariant out == Escape(s[..i]) && |out| < cap
    {
      var rep := EscapeChar(s[i]);
      assert s[..i + 1] == s[..i] + [s[i]];
      EscapeSnoc(s[..i], s[i]);
      if |out| + |rep| + 1 > cap {
        EscapeGrows(s[..i + 1], s[i + 1..]);
        assert s[..i + 1] + s[i + 1..] == s;
        return "", false;
      }
      out := out + rep;
    }
    assert s[..|s|] == s;
    ok := true;
  }

  /** Escaped text has no control characters, so a record never spans lines. */
  lemma {:induction false} EscapedIsOneLine(s: string)
    ensures forall i :: 0 <= i < |Escape(s)| ==> Escape(s)[i] >= ' '
  {
    if s != "" { EscapedIsOneLine(s[1..]); }
  }

  /** A quotation mark in escaped text is always escaped. */
  lemma {:induction false} QuotesAreEscaped(s: string)
    ensures forall i :: 0 <= i < |Escape(s)| && Escape(s)[i] == '"' ==> i > 0 && Escape(s)[i - 1] == '\\'
  {
    if s != "" {
      QuotesAreEscaped(s[1..]);
      var n, e := |EscapeChar(s[0])|, Escape(s);
      forall i | 0 <= i < |e| && e[i] == '"' ensures i > 0 && e[i - 1] == '\\' {
        if i >= n { assert e[i] == Escape(s[1..])[i - n] && i > n && e[i - 1] == Escape(s[1..])[i - n - 1]; }
      }
    }
  }

  /** Text without control characters at most doubles. */
  lemma {:induction false} EscapeDoubles(s: string)
    requires NoControls(s)
    ensures |Escape(s)| <= 2 * |s|
  {
    if s != "" { EscapeDoubles(s[1..]); }
  }

  predicate NoControls(s: string) {
    forall i :: 0 <= i < |s| ==> s[i] >= ' '
  }

  // ------------------------ Extraction ------------------------

  /** The extractor drops every backslash and keeps what follows, so `\n` reads back as `n`. */
  function Unescape(t: string, room: nat): string {
    if t == "" || t[0] == '"' || room == 0 then ""
    else if t[0] == '\\' && |t| > 1 then [t[1]] + Unescape(t[2..], room - 1)
    else [t[0]] + Unescape(t[1..], room - 1)
  }

  function SkipSpace(t: string): (r: string)
    ensures |r| <= |t|
  {
    if t != "" && (t[0] == ' ' || t[0] == '\t' || t[0] == '\n' || t[0] == '\r') then SkipSpace(t[1..]) else t
  }

  function SkipBlank(t: string): (r: string)
    ensures |r| <= |t|
  {
    if t != "" && (t[0] == ' ' || t[0] == '\t') then SkipBlank(t[1..]) else t
  }

  function Pattern(key: string): (p: string)
    ensures |p| == |key| + 2
  {
    "\"" + key + "\""
  }

  /** Reads the value that follows a colon, or declines. */
  type Probe<!T> = string -> Option<T>

  /** What the extractor finds when the quoted key stands at the front of `t`. */
  function At<T>(t: string, key: string, probe: Probe<T>): Option<T> {
    if !(Pattern(key) <= t) then None
    else
      var u := SkipSpace(t[|Pattern(key)|..]);
      if u == "" || u[0] != ':' then None else probe(SkipBlank(u[1..]))
  }

  /** The first position where the key is followed by a colon and a readable value. */
  function Search<T>(t: string, key: string, probe: Probe<T>): Option<T> {
    if t == "" then None
    else if At(t, key, probe).Some? then At(t, key, probe)
    else Search(t[1..], key, probe)
  }

  function StringProbe(cap: nat): Probe<string>
    requires cap > 0
  {
    (w: string) => if w != "" && w[0] == '"' then Some(Unescape(w[1..], cap - 1)) else None
  }

  lemma {:induction false} SearchSkips<T>(s: string, key: string, probe: Probe<T>, p: nat, q: nat)
    requires p <= q <= |s|
    requires forall i :: p <= i < q ==> At(s[i..], key, probe).None?
    ensures Search(s[p..], key, probe) == Search(s[q..], key, probe)
    decreases q - p
  {
    hide At;
    if p < q {
      assert s[p..][1..] == s[p + 1..];
      SearchSkips(s, key, probe, p + 1, q);
    }
  }

  /** json_str. */
  method JsonStr(s: string, key: string, cap: nat) returns (out: Option<string>)
    requires cap > 0
    ensures out == Search(s, key, StringProbe(cap))
  {
    hide At, Search, Unescape, SkipSpace, SkipBlank, Pattern, StringProbe;
    var p := 0;
    assert s[0..] == s;
    while p < |s|
      invariant 0 <= p <= |s|
      invariant Search(s[p..], key, StringProbe(cap)) == Search(s, key, StringProbe(cap))
    {
      var hit := StrStr(s, Pattern(key), p);
      NoPatternNoHit(s, key, StringProbe(cap), p, if hit < 0 then |s| else hit);
      if hit < 0 {
        NothingInEmpty(key, StringProbe(cap));
        return None;
      }
      out := ReadAfterKey(s, key, cap, hit);
      HitOrNext(s[hit..], key, StringProbe(cap));
      if out.Some? { return; }
      assert s[hit..][1..] == s[hit + 1..];
      p := hit + 1;
    }
    assert s[p..] == "";
    NothingInEmpty(key, StringProbe(cap));
    return None;
  }

  /** json_num, for whatever reads a number from the front of a text (strtod). */
  method JsonNum<T>(s: string, key: string, probe: Probe<T>) returns (out: Option<T>)
    ensures out == Search(s, key, probe)
  {
    hide At, Search, SkipSpace, SkipBlank, Pattern;
    var p := 0;
    assert s[0..] == s;
    while p < |s|
      invariant 0 <= p <= |s|
      invariant Search(s[p..], key, probe) == Search(s, key, probe)
    {
      var hit := StrStr(s, Pattern(key), p);
      NoPatternNoHit(s, key, probe, p, if hit < 0 then |s| else hit);
      if hit < 0 {
        NothingInEmpty(key, probe);
        return None;
      }
      out := NumberAfterKey(s, key, probe, hit);
      HitOrNext(s[hit..], key, probe);
      if out.Some? { return; }
      assert s[hit..][1..] == s[hit + 1..];
      p := hit + 1;
    }
    assert s[p..] == "";
    NothingInEmpty(key, probe);
    return None;
  }

  /** The colon and the number after a match. */
  method NumberAfterKey<T>(s: string, key: string, probe: Probe<T>, hit: nat) returns (out: Option<T>)
    requires hit < |s| && Pattern(key) <= s[hit..]
    ensures out == At(s[hit..], key, probe)
  {
    hide SkipSpace, SkipBlank, Pattern;
    var c := hit + |Pattern(key)|;
    assert s[hit..][|Pattern(key)|..] == s[c..];
    c := SkipIn(s, c, true);
    if c >= |s| || s[c] != ':' { return None; }
    assert s[c..][1..] == s[c + 1..];
    c := SkipIn(s, c + 1, false);
    return probe(s[c..]);
  }

  /** The rest of the loop body: the colon, the quotation mark and the value after a match. */
  method ReadAfterKey(s: string, key: string, cap: nat, hit: nat) returns (out: Option<string>)
    requires cap > 0 && hit < |s| && Pattern(key) <= s[hit..]
    ensures out == At(s[hit..], key, StringProbe(cap))
  {
    hide Unescape, SkipSpace, SkipBlank, Pattern;
    var c := hit + |Pattern(key)|;
    assert s[hit..][|Pattern(key)|..] == s[c..];
    c := SkipIn(s, c, true);
    if c >= |s| || s[c] != ':' { return None; }
    assert s[c..][1..] == s[c + 1..];
    c := SkipIn(s, c + 1, false);
    if c >= |s| || s[c] != '"' { return None; }
    assert s[c..][1..] == s[c + 1..];
    var text := CopyUnescaped(s, c + 1, cap);
    return Some(text);
  }

  /** The two white-space loops. */
  method SkipIn(s: string, from: nat, lines: bool) returns (c: nat)
    requires from <= |s|
    ensures from <= c <= |s|
    ensures s[c..] == if lines then SkipSpace(s[from..]) else SkipBlank(s[from..])
  {
    c := from;
    while c < |s| && (s[c] == ' ' || s[c] == '\t' || (lines && (s[c] == '\n' || s[c] == '\r')))
      invariant from <= c <= |s|
      invariant lines ==> SkipSpace(s[c..]) == SkipSpace(s[from..])
      invariant !lines ==> SkipBlank(s[c..]) == SkipBlank(s[from..])
    {
      assert s[c..][1..] == s[c + 1..];
      c := c + 1;
    }
  }

  lemma UnescapeStep(s: string, c: nat, room: nat)
    requires c < |s| && s[c] != '"' && room > 0
    ensures var n := if s[c] == '\\' && c + 1 < |s| then c + 1 else c;
            Unescape(s[c..], room) == [s[n]] + Unescape(s[n + 1..], room - 1)
  {
    assert c + 1 < |s| ==> s[c..][2..] == s[c + 2..];
    assert s[c..][1..] == s[c + 1..];
  }

  lemma UnescapeEnds(t: string, room: nat)
    requires t == "" || t[0] == '"' || room == 0
    ensures Unescape(t, room) == ""
  {
  }

  /** The copying loop. */
  method CopyUnescaped(s: string, from: nat, cap: nat) returns (out: string)
    requires from <= |s| && cap > 0
    ensures out == Unescape(s[from..], cap - 1)
  {
    hide Unescape;
    out := "";
    var c := from;
    while c < |s| && s[c] != '"' && |out| + 1 < cap
      invariant from <= c <= |s| && |out| < cap
      invariant out + Unescape(s[c..], cap - 1 - |out|) == Unescape(s[from..], cap - 1)
    {
      UnescapeStep(s, c, cap - 1 - |out|);
      ghost var before := out;
      if s[c] == '\\' && c + 1 < |s| { c := c + 1; }
      out := out + [s[c]];
      c := c + 1;
      Associates(before, [s[c - 1]], Unescape(s[c..], cap - 1 - |out|));
    }
    UnescapeEnds(s[c..], cap - 1 - |out|);
  }

  lemma NothingInEmpty<T>(key: string, probe: Probe<T>)
    ensures Search("", key, probe) == None
  {
  }

  lemma NoPatternNoHit<T>(s: string, key: string, probe: Probe<T>, p: nat, q: nat)
    requires p <= q <= |s| && forall i :: p <= i < q ==> !(Pattern(key) <= s[i..])
    ensures Search(s[p..], key, probe) == Search(s[q..], key, probe)
    ensures q == |s| ==> s[q..] == ""
  {
    forall i | p <= i < q ensures At(s[i..], key, probe).None? {
      assert !(Pattern(key) <= s[i..]);
    }
    SearchSkips(s, key, probe, p, q);
  }

  lemma HitOrNext<T>(t: string, key: string, probe: Probe<T>)
    requires t != ""
    ensures Search(t, key, probe) == if At(t, key, probe).Some? then At(t, key, probe) else Search(t[1..], key, probe)
  {
  }
}
