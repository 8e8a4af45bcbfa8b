/** Spilled lines as lists of entries: every lookup finds the field that was printed, whatever
    the other fields contain. */
module SpillRecord {
  import opened Bytes
  import opened SpillLine

  datatype Entry = Text(key: string, value: string) | Num(key: string, token: string)

  predicate KeyChar(c: char) {
    '0' <= c <= '9' || 'a' <= c <= 'z' || 'A' <= c <= 'Z' || c == '_'
  }

  predicate PlainKey(k: string) {
    k != "" && forall i :: 0 <= i < |k| ==> KeyChar(k[i])
  }

  /** What printf writes for a number. */
  predicate Token(t: string) {
    t != "" && forall i :: 0 <= i < |t| ==> t[i] != '"' && t[i] > ' '
  }

  predicate Good(e: Entry) {
    PlainKey(e.key) && (e.Num? ==> Token(e.token))
  }

  function ValueText(e: Entry): string {
    match e
    case Text(_, v) => "\"" + Escape(v) + "\""
    case Num(_, t) => t
  }

  function PrintEntry(e: Entry): string {
    Pattern(e.key) + ":" + ValueText(e)
  }

  function PrintTail(es: seq<Entry>): (s: string)
    ensures Ends(s)
  {
    if es == [] then "}" else "," + PrintEntry(es[0]) + PrintTail(es[1..])
  }

  function PrintLine(es: seq<Entry>): string
    requires es != []
  {
    "{" + PrintEntry(es[0]) + PrintTail(es[1..])
  }

  /** What follows an entry in a line. */
  predicate Ends(rest: string) {
    rest != "" && (rest[0] == ',' || rest[0] == '}')
  }

  // ------------------------ Where a key can be found ------------------------

  lemma NoHitOutside<T>(s: string, i: nat, key: string, probe: Probe<T>)
    requires i < |s| && PlainKey(key)
    requires s[i] != '"' || (i + 1 < |s| && !KeyChar(s[i + 1]))
    ensures At(s[i..], key, probe).None?
  {
    var pat := Pattern(key);
    assert pat[0] == '"' && pat[1] == key[0] && s[i..][0] == s[i];
    if s[i] == '"' { assert s[i..][1] == s[i + 1]; }
  }

  /** Inside a quoted value every quotation mark is escaped, so a match could only run into the
      closing one, and no colon follows that. */
  lemma NoHitInValue<T>(s: string, i: nat, key: string, probe: Probe<T>, open: nat, close: nat)
    requires PlainKey(key) && open <= i < close && close + 1 < |s|
    requires s[close] == '"' && (s[close + 1] == ',' || s[close + 1] == '}')
    requires forall j :: open < j < close && s[j] == '"' ==> s[j - 1] == '\\'
    ensures At(s[i..], key, probe).None?
  {
    var pat, t, n := Pattern(key), s[i..], |key|;
    var q := i + 1 + n;
    assert pat[n] == key[n - 1] && pat[n + 1] == '"';
    if q > close {
      assert t[close - i] == '"' && pat[close - i] == key[close - i - 1];
    } else if q < close {
      assert t[n + 1] == s[q] && t[n] == s[q - 1];
    } else if pat <= t {
      assert t[|pat|..] == s[close + 1..];
    }
  }

  lemma OtherKeyMisses<T>(k: string, rest: string, key: string, probe: Probe<T>)
    requires PlainKey(k) && PlainKey(key) && k != key
    ensures At(Pattern(k) + rest, key, probe).None?
  {
    var s, pat, n := Pattern(k) + rest, Pattern(key), |key|;
    if n < |k| {
      assert pat[n + 1] == '"' && s[n + 1] == k[n];
    } else if n > |k| {
      assert s[|k| + 1] == '"' && pat[|k| + 1] == key[|k|];
    } else {
      var j :| 0 <= j < n && k[j] != key[j];
      assert s[j + 1] == k[j] && pat[j + 1] == key[j];
    }
  }

  /** No position inside an entry, other than its own key, can be taken for the key. */
  lemma OnlyAtItsKey<T>(e: Entry, rest: string, key: string, probe: Probe<T>, i: nat)
    requires Good(e) && PlainKey(key) && Ends(rest)
    requires 0 < i < |PrintEntry(e)|
    ensures At((PrintEntry(e) + rest)[i..], key, probe).None?
  {
    hide At, Escape, Ends;
    var s, k := PrintEntry(e) + rest, |e.key|;
    if i <= k + 2 {
      KeyHasNoHit(e, rest, i);
      hide Pattern, ValueText, PrintEntry;
      NoHitOutside(s, i, key, probe);
    } else if e.Num? {
      assert s[i] == e.token[i - k - 3];
      hide Pattern, ValueText, PrintEntry;
      NoHitOutside(s, i, key, probe);
    } else {
      TextHasNoHit(e, rest, key, probe, i);
    }
  }

  lemma KeyHasNoHit(e: Entry, rest: string, i: nat)
    requires Good(e) && 0 < i <= |e.key| + 2
    ensures var s := PrintEntry(e) + rest; i < |s| && (s[i] != '"' || (i + 1 < |s| && !KeyChar(s[i + 1])))
  {
    hide Escape, Token;
    var s, k := PrintEntry(e) + rest, |e.key|;
    assert forall j :: 1 <= j <= k ==> s[j] == e.key[j - 1];
    assert s[k + 1] == '"' && s[k + 2] == ':';
  }

  lemma TextHasNoHit<T>(e: Entry, rest: string, key: string, probe: Probe<T>, i: nat)
    requires e.Text? && PlainKey(key) && Ends(rest) && |e.key| + 3 <= i < |PrintEntry(e)|
    ensures At((PrintEntry(e) + rest)[i..], key, probe).None?
  {
    hide At, Escape;
    var s, open, esc := PrintEntry(e) + rest, |e.key| + 3, Escape(e.value);
    var close := open + 1 + |esc|;
    assert s[open] == '"' && s[close] == '"' && s[close + 1] == rest[0];
    assert forall j :: open < j < close ==> s[j] == esc[j - open - 1];
    QuotesAreEscaped(e.value);
    forall j | open < j < close && s[j] == '"' ensures s[j - 1] == '\\' {
      assert esc[j - open - 1] == '"' && s[j - 1] == esc[j - open - 2];
    }
    if i == close { NoHitOutside(s, i, key, probe); } else { NoHitInValue(s, i, key, probe, open, close); }
  }

  lemma EntryMisses<T>(e: Entry, rest: string, key: string, probe: Probe<T>)
    requires Good(e) && PlainKey(key) && Ends(rest) && e.key != key
    ensures Search(PrintEntry(e) + rest, key, probe) == Search(rest, key, probe)
  {
    hide At, Token, Search, ValueText;
    var s, n := PrintEntry(e) + rest, |PrintEntry(e)|;
    assert s == Pattern(e.key) + (":" + ValueText(e) + rest);
    OtherKeyMisses(e.key, ":" + ValueText(e) + rest, key, probe);
    assert s[0..] == s && s[n..] == rest;
    forall i | 0 <= i < n ensures At(s[i..], key, probe).None? {
      if i > 0 { OnlyAtItsKey(e, rest, key, probe, i); }
    }
    SearchSkips(s, key, probe, 0, n);
  }

  lemma EntryHits<T>(e: Entry, rest: string, probe: Probe<T>)
    requires Good(e) && probe(ValueText(e) + rest).Some?
    ensures Search(PrintEntry(e) + rest, e.key, probe) == probe(ValueText(e) + rest)
  {
    hide Search, At, Pattern, Escape, ValueText;
    var w := ValueText(e) + rest;
    assert PrintEntry(e) + rest == Pattern(e.key) + (":" + w);
    ValueStarts(e, rest);
    KeyFound(e.key, w, probe);
    HitOrNext(PrintEntry(e) + rest, e.key, probe);
  }

  lemma ValueStarts(e: Entry, rest: string)
    requires Good(e)
    ensures var w := ValueText(e) + rest; w != "" && w[0] != ' ' && w[0] != '\t'
  {
    hide Escape;
    assert (ValueText(e) + rest)[0] == ValueText(e)[0];
  }

  lemma KeyFound<T>(key: string, w: string, probe: Probe<T>)
    requires w != "" && w[0] != ' ' && w[0] != '\t'
    ensures At(Pattern(key) + (":" + w), key, probe) == probe(w)
  {
    hide Pattern;
    var pat := Pattern(key);
    Seam(pat, ":" + w);
    Seam(":", w);
    assert (":" + w)[0] == ':' && SkipSpace(":" + w) == ":" + w && SkipBlank(w) == w;
    assert pat <= pat + (":" + w);
  }

  /** White space around the colon makes no difference, line breaks in front of it included. */
  lemma {:induction false} BlanksAreSkipped<T>(key: string, before: string, after: string, w: string, probe: Probe<T>)
    requires forall i :: 0 <= i < |before| ==> before[i] in " \t\n\r"
    requires forall i :: 0 <= i < |after| ==> after[i] in " \t"
    requires w != "" && w[0] != ' ' && w[0] != '\t'
    ensures At(Pattern(key) + (before + (":" + (after + w))), key, probe) == probe(w)
  {
    hide Pattern;
    var pat, tail := Pattern(key), before + (":" + (after + w));
    Seam(pat, tail);
    assert pat <= pat + tail;
    SpacesGo(before, ":" + (after + w));
    assert (":" + (after + w))[1..] == after + w;
    BlanksGo(after, w);
  }

  lemma {:induction false} SpacesGo(before: string, rest: string)
    requires forall i :: 0 <= i < |before| ==> before[i] in " \t\n\r"
    requires rest != "" && rest[0] == ':'
    ensures SkipSpace(before + rest) == rest
  {
    if before == "" { assert before + rest == rest; } else {
      assert (before + rest)[1..] == before[1..] + rest;
      SpacesGo(before[1..], rest);
    }
  }

  lemma {:induction false} BlanksGo(after: string, w: string)
    requires forall i :: 0 <= i < |after| ==> after[i] in " \t"
    requires w != "" && w[0] != ' ' && w[0] != '\t'
    ensures SkipBlank(after + w) == w
  {
    if after == "" { assert after + w == w; } else {
      assert (after + w)[1..] == after[1..] + w;
      BlanksGo(after[1..], w);
    }
  }

  lemma SeparatorMisses<T>(c: char, rest: string, key: string, probe: Probe<T>)
    requires c != '"' && PlainKey(key)
    ensures Search([c] + rest, key, probe) == Search(rest, key, probe)
  {
    hide At;
    var s := [c] + rest;
    NoHitOutside(s, 0, key, probe);
    assert s[0..] == s && s[1..] == rest;
  }

  predicate AllGood(es: seq<Entry>) {
    forall i :: 0 <= i < |es| ==> Good(es[i])
  }

  /** The first entry with the key is the one that is found, wherever it stands. */
  lemma {:induction false} TailLookup<T>(es: seq<Entry>, i: nat, probe: Probe<T>)
    requires i < |es| && AllGood(es) && forall j :: 0 <= j < i ==> es[j].key != es[i].key
    requires probe(ValueText(es[i]) + PrintTail(es[i + 1..])).Some?
    ensures Search(PrintTail(es), es[i].key, probe) == probe(ValueText(es[i]) + PrintTail(es[i + 1..]))
  {
    hide Search, PrintEntry, ValueText;
    var key, body, rest := es[i].key, PrintEntry(es[0]), PrintTail(es[1..]);
    assert Good(es[i]) && Good(es[0]);
    assert PrintTail(es) == "," + (body + rest);
    SeparatorMisses(',', body + rest, key, probe);
    if i == 0 {
      EntryHits(es[0], rest, probe);
    } else {
      EntryMisses(es[0], rest, key, probe);
      assert es[1..][i - 1] == es[i] && es[1..][i..] == es[i + 1..];
      TailLookup(es[1..], i - 1, probe);
    }
  }

  lemma LineLookup<T>(es: seq<Entry>, i: nat, probe: Probe<T>)
    requires i < |es| && AllGood(es) && forall j :: 0 <= j < i ==> es[j].key != es[i].key
    requires probe(ValueText(es[i]) + PrintTail(es[i + 1..])).Some?
    ensures Search(PrintLine(es), es[i].key, probe) == probe(ValueText(es[i]) + PrintTail(es[i + 1..]))
  {
    hide Search, PrintEntry, ValueText;
    var key, body, rest := es[i].key, PrintEntry(es[0]), PrintTail(es[1..]);
    assert Good(es[i]) && Good(es[0]);
    assert PrintLine(es) == "{" + (body + rest);
    SeparatorMisses('{', body + rest, key, probe);
    TailLookup(es, i, probe);
    assert PrintTail(es) == "," + (body + rest);
    SeparatorMisses(',', body + rest, key, probe);
  }

  lemma {:induction false} TailWithout<T>(es: seq<Entry>, key: string, probe: Probe<T>)
    requires AllGood(es) && PlainKey(key) && forall j :: 0 <= j < |es| ==> es[j].key != key
    ensures Search(PrintTail(es), key, probe).None?
  {
    hide Search, PrintEntry;
    if es == [] {
      assert PrintTail(es) == ['}'] + "";
      SeparatorMisses('}', "", key, probe);
      NothingInEmpty(key, probe);
    } else {
      var body, rest := PrintEntry(es[0]), PrintTail(es[1..]);
      assert Good(es[0]) && PrintTail(es) == "," + (body + rest);
      SeparatorMisses(',', body + rest, key, probe);
      EntryMisses(es[0], rest, key, probe);
      TailWithout(es[1..], key, probe);
    }
  }

  /** On a printed line without the key nothing is found, whatever the values contain. */
  lemma KeyIsAbsent<T>(es: seq<Entry>, key: string, probe: Probe<T>)
    requires es != [] && AllGood(es) && PlainKey(key) && forall j :: 0 <= j < |es| ==> es[j].key != key
    ensures Search(PrintLine(es), key, probe).None?
  {
    hide Search, PrintEntry;
    var body, rest := PrintEntry(es[0]), PrintTail(es[1..]);
    assert Good(es[0]) && PrintLine(es) == "{" + (body + rest);
    SeparatorMisses('{', body + rest, key, probe);
    EntryMisses(es[0], rest, key, probe);
    TailWithout(es[1..], key, probe);
  }

  // ------------------------ What a text lookup returns ------------------------

  /** What the extractor makes of an escaped character: the escape without its backslash. */
  function GarbleChar(c: char): string {
    if EscapeChar(c)[0] == '\\' then EscapeChar(c)[1..] else [c]
  }

  function Garble(s: string): string {
    if s == "" then "" else GarbleChar(s[0]) + Garble(s[1..])
  }

  lemma {:induction false} PlainRun(a: string, t: string, n: nat)
    requires forall i :: 0 <= i < |a| ==> a[i] != '"' && a[i] != '\\'
    ensures Unescape(a + t, n) == if n <= |a| then a[..n] else a + Unescape(t, n - |a|)
  {
    if a == "" {
      assert a + t == t;
    } else if n > 0 {
      assert (a + t)[1..] == a[1..] + t;
      PlainRun(a[1..], t, n - 1);
    }
  }

  lemma EscapeShape(c: char)
    ensures var e, g := EscapeChar(c), GarbleChar(c);
            if e[0] == '\\' then |e| >= 2 && g == e[1..] && forall i :: 1 <= i < |g| ==> g[i] != '"' && g[i] != '\\'
            else e == [c] && g == [c] && c != '"'
  {
  }

  lemma EscapedReturns(e: string, g: string, t: string, n: nat)
    requires n > 0 && |e| >= 2 && e[0] == '\\' && g == e[1..]
    requires forall i :: 1 <= i < |g| ==> g[i] != '"' && g[i] != '\\'
    ensures Unescape(e + t, n) == if n <= |g| then g[..n] else g + Unescape(t, n - |g|)
  {
    assert (e + t)[2..] == g[1..] + t && (e + t)[1] == g[0] && (e + t)[0] == '\\';
    PlainRun(g[1..], t, n - 1);
    assert Unescape(e + t, n) == [g[0]] + Unescape(g[1..] + t, n - 1);
    assert [g[0]] + g[1..] == g;
    if n <= |g| {
      assert [g[0]] + g[1..][..n - 1] == g[..n];
    } else {
      Associates([g[0]], g[1..], Unescape(t, n - |g|));
    }
  }

  lemma CharReturns(c: char, t: string, n: nat)
    ensures var g := GarbleChar(c);
            Unescape(EscapeChar(c) + t, n) == if n <= |g| then g[..n] else g + Unescape(t, n - |g|)
  {
    var e, g := EscapeChar(c), GarbleChar(c);
    EscapeShape(c);
    hide EscapeChar, GarbleChar;
    if n > 0 {
      if e[0] == '\\' {
        EscapedReturns(e, g, t, n);
      } else {
        PlainRun([c], t, n);
      }
    }
  }

  /** The extractor returns the garbled text, cut to the buffer. */
  lemma {:induction false} TextReturns(v: string, rest: string, n: nat)
    ensures Unescape(Escape(v) + ("\"" + rest), n) == Take(Garble(v), n)
  {
    var t := "\"" + rest;
    if v == "" {
      assert Escape(v) + t == t;
    } else {
      hide EscapeChar, Unescape, GarbleChar;
      var g, more := GarbleChar(v[0]), Escape(v[1..]) + t;
      assert Escape(v) + t == EscapeChar(v[0]) + more;
      CharReturns(v[0], more, n);
      if n > |g| { TextReturns(v[1..], rest, n - |g|); }
    }
  }

  /** What the control characters come back as; everything else comes back as it is. */
  lemma ControlsComeBack(c: char)
    ensures c == '\n' ==> GarbleChar(c) == "n"
    ensures c == '\r' ==> GarbleChar(c) == "r"
    ensures c == '\t' ==> GarbleChar(c) == "t"
    ensures c < ' ' && c != '\n' && c != '\r' && c != '\t' ==>
              GarbleChar(c) == "u00" + [if c as int < 16 then '0' else '1', "0123456789abcdef"[c as int % 16]]
    ensures c >= ' ' ==> GarbleChar(c) == [c]
  {
    if c < ' ' && c != '\n' && c != '\r' && c != '\t' {
      var digits := [HEX_DIGITS[c as int / 16], HEX_DIGITS[c as int % 16]];
      assert EscapeChar(c) == "\\" + ("u00" + digits);
    }
  }

  lemma {:induction false} CleanIsKept(v: string)
    requires NoControls(v)
    ensures Garble(v) == v
  {
    if v != "" { CleanIsKept(v[1..]); }
  }

  lemma {:induction false} ControlsAreLost(v: string)
    requires v <= Garble(v)
    ensures NoControls(v)
  {
    if v != "" {
      var g := Garble(v);
      assert g[0] == v[0];
      assert GarbleChar(v[0]) == [v[0]] by {
        assert g[0] == GarbleChar(v[0])[0];
      }
      assert g[1..] == Garble(v[1..]);
      ControlsAreLost(v[1..]);
    }
  }

  /** A field survives the round trip if and only if it has no control characters and fits. */
  lemma FieldSurvivesIff(v: string, cap: nat)
    requires cap > 0
    ensures Take(Garble(v), cap - 1) == v <==> NoControls(v) && |v| < cap
  {
    hide Garble, NoControls;
    if NoControls(v) { CleanIsKept(v); }
    if Take(Garble(v), cap - 1) == v { ControlsAreLost(v); }
  }

  lemma TextProbes(v: string, rest: string, cap: nat)
    requires cap > 0
    ensures StringProbe(cap)("\"" + Escape(v) + "\"" + rest) == Some(Take(Garble(v), cap - 1))
  {
    hide Escape, Unescape, Garble;
    var w := "\"" + Escape(v) + "\"" + rest;
    assert w[0] == '"' && w[1..] == Escape(v) + ("\"" + rest);
    TextReturns(v, rest, cap - 1);
  }

  /** json_str on a printed line returns the field it was asked for. */
  lemma TextLookup(es: seq<Entry>, i: nat, cap: nat)
    requires cap > 0 && i < |es| && AllGood(es) && es[i].Text? && forall j :: 0 <= j < i ==> es[j].key != es[i].key
    ensures Search(PrintLine(es), es[i].key, StringProbe(cap)) == Some(Take(Garble(es[i].value), cap - 1))
  {
    hide Search, PrintLine, AllGood, Unescape, PrintTail;
    var rest, v := PrintTail(es[i + 1..]), es[i].value;
    TextProbes(v, rest, cap);
    LineLookup(es, i, StringProbe(cap));
  }

  /** A line break comes back as the letter n. */
  lemma BreakReturnsAsLetter(rest: string)
    ensures Unescape(Escape("a\nb") + ("\"" + rest), 100) == "anb"
  {
    TextReturns("a\nb", rest, 100);
    assert "a\nb"[1..] == "\nb" && "\nb"[1..] == "b" && "b"[1..] == "";
    assert Garble("b") == "b" + Garble("") && Garble("\nb") == "n" + Garble("b");
  }
}
