/** Header lines: in whatever letter case their names are written, each has its own effect and the
    others have none. */
module HttpHeaders {
  import opened Bytes
  import opened HttpFraming

  // ------------------------ Reading the number ------------------------

  lemma {:induction false} DigitsSplit(a: string, b: string, acc: nat)
    requires AllDigits(a)
    ensures DigitsValue(a + b, acc) == DigitsValue(b, DigitsValue(a, acc))
  {
    if a == "" { assert a + b == b; } else {
      assert (a + b)[1..] == a[1..] + b;
      DigitsSplit(a[1..], b, acc * 10 + (a[0] as int - '0' as int));
    }
  }

  predicate AllDigits(s: string) {
    forall i :: 0 <= i < |s| ==> '0' <= s[i] <= '9'
  }

  lemma {:induction false} DecimalReads(n: nat)
    ensures AllDigits(DecimalNat(n)) && DigitsValue(DecimalNat(n), 0) == n
  {
    OneDigit(n % 10, n / 10);
    if n >= 10 {
      DecimalReads(n / 10);
      DigitsSplit(DecimalNat(n / 10), [HEX_DIGITS[n % 10]], 0);
    }
  }

  lemma OneDigit(d: nat, acc: nat)
    requires d < 10
    ensures '0' <= HEX_DIGITS[d] <= '9' && DigitsValue([HEX_DIGITS[d]], acc) == 10 * acc + d
  {
    assert [HEX_DIGITS[d]][1..] == "";
    assert HEX_DIGITS[d] as int == '0' as int + d;
  }

  function Pow10(k: nat): nat {
    if k == 0 then 1 else 10 * Pow10(k - 1)
  }

  lemma {:induction false} DecimalFits(n: nat, k: nat)
    requires k > 0 && n < Pow10(k)
    ensures |DecimalNat(n)| <= k
  {
    if n >= 10 { DecimalFits(n / 10, k - 1); }
  }

  lemma DecimalIsShort(n: nat)
    requires n < TWO64
    ensures |DecimalNat(n)| <= 20
  {
    assert Pow10(10) == 10000000000;
    assert Pow10(20) == Pow10(10) * 10000000000;
    DecimalFits(n, 20);
  }

  lemma NotFound(s: string, pat: string, c: char)
    requires c in pat && c !in s
    ensures IndexOf(s, pat) == None
  {
    var i :| 0 <= i < |pat| && pat[i] == c;
    forall j | 0 <= j <= |s| ensures !StandsAt(s, pat, j) {
      assert j + i < |s| ==> s[j..][i] == s[j + i];
    }
    NoneIs(s, pat);
  }

  /** Nothing before `b` contains the first character of the pattern that `b` starts with. */
  lemma FoundAtSeam(a: string, b: string, pat: string)
    requires pat != "" && pat <= b && pat[0] !in a
    ensures IndexOf(a + b, pat) == Some(|a|)
  {
    var s := a + b;
    assert s[|a|..] == b;
    forall j | 0 <= j < |a| ensures !StandsAt(s, pat, j) {
      assert s[j..][0] == s[j] == a[j];
    }
    FirstIs(s, pat, |a|);
  }

  // ------------------------ Letter case ------------------------

  /** The same character, or the capital of the lower-case letter `l`. */
  predicate SameLetter(c: char, l: char) {
    c == l || exists k :: 0 <= k < 26 && UPPER[k] == c && LOWER[k] == l
  }

  predicate Spells(s: string, word: string) {
    |s| == |word| && forall i :: 0 <= i < |s| ==> SameLetter(s[i], word[i])
  }

  /** `s` begins with `word`, in some spelling. */
  predicate Begins(s: string, word: string) {
    |word| <= |s| && Spells(s[..|word|], word)
  }

  predicate NoCapitals(word: string) {
    forall i :: 0 <= i < |word| ==> !('A' <= word[i] <= 'Z')
  }

  lemma LowerIs(c: char, l: char)
    requires !('A' <= l <= 'Z')
    ensures Lower(c) == l <==> SameLetter(c, l)
  {
    assert |UPPER| == 26 && |LOWER| == 26;
    hide UPPER, LOWER;
    if 'A' <= c <= 'Z' { Alphabets(c as int - 'A' as int); }
    forall k | 0 <= k < 26 ensures UPPER[k] as int == 'A' as int + k && LOWER[k] as int == 'a' as int + k {
      Alphabets(k);
    }
  }

  /** The comparison of the code accepts exactly the spellings of the word. */
  lemma {:induction false} StartsWithIff(s: string, word: string)
    requires NoCapitals(word)
    ensures StartsWith(s, word) <==> Begins(s, word)
  {
    hide Lower, SameLetter;
    if word != "" && s != "" {
      LowerIs(s[0], word[0]);
      StartsWithIff(s[1..], word[1..]);
      if |word| <= |s| {
        assert s[..|word|] == [s[0]] + s[1..][..|word| - 1];
        assert word == [word[0]] + word[1..];
      }
    }
  }

  // ------------------------ Header lines ------------------------

  datatype HeaderLine =
    | Length(key: string, pad: string, n: nat)
    | Encoding(key: string, pad: string, value: string)
    | Connection(key: string, pad: string, value: string)
    | Other(text: string)

  function LineText(l: HeaderLine): string {
    match l
    case Length(key, pad, n) => key + (pad + DecimalNat(n))
    case Encoding(key, pad, value) => key + (pad + value)
    case Connection(key, pad, value) => key + (pad + value)
    case Other(text) => text
  }

  predicate Blanks(pad: string) {
    forall i :: 0 <= i < |pad| ==> pad[i] == ' ' || pad[i] == '\t'
  }

  /** Text on one line, not led by a blank. */
  predicate PlainValue(value: string) {
    && (forall i :: 0 <= i < |value| ==> value[i] !in "\r\n\0")
    && (value != "" ==> value[0] != ' ' && value[0] != '\t')
  }

  /** Header names in any letter case; another line begins with none of them. */
  predicate LegalLine(l: HeaderLine) {
    match l
    case Length(key, pad, n) => Spells(key, "content-length:") && Blanks(pad) && n < TWO64
    case Encoding(key, pad, value) => Spells(key, "content-encoding:") && Blanks(pad) && PlainValue(value)
    case Connection(key, pad, value) => Spells(key, "connection:") && Blanks(pad) && PlainValue(value)
    case Other(text) =>
      && text != "" && (forall i :: 0 <= i < |text| ==> text[i] !in "\r\n\0")
      && !Begins(text, "content-length:") && !Begins(text, "content-encoding:") && !Begins(text, "connection:")
  }

  predicate AllLines(ls: seq<HeaderLine>) {
    forall i :: 0 <= i < |ls| ==> LegalLine(ls[i])
  }

  /** What a line says. */
  function Effect(h: Head, l: HeaderLine): Head {
    match l
    case Length(_, _, n) => h.(contentLength := n)
    case Encoding(_, _, value) =>
      if Begins(value, "gzip") || Begins(value, "deflate") then h.(gzip := true) else h
    case Connection(_, _, value) => if Begins(value, "close") then h.(keepAlive := false) else h
    case Other(_) => h
  }

  function Effects(h: Head, ls: seq<HeaderLine>): Head
    decreases |ls|
  {
    if ls == [] then h else Effects(Effect(h, ls[0]), ls[1..])
  }

  function HeaderText(ls: seq<HeaderLine>): string {
    if ls == [] then "" else "\r\n" + (LineText(ls[0]) + HeaderText(ls[1..]))
  }

  /** Where a line ends. */
  predicate AtEnd(rest: string) {
    rest == "" || rest[0] == '\r'
  }

  lemma {:induction false} SkipsBlanks(pad: string, rest: string)
    requires Blanks(pad) && (rest != "" ==> rest[0] != ' ' && rest[0] != '\t')
    ensures SkipWs(pad + rest) == rest
  {
    if pad == "" {
      assert pad + rest == rest;
    } else {
      assert (pad + rest)[1..] == pad[1..] + rest;
      SkipsBlanks(pad[1..], rest);
    }
  }

  lemma LengthReads(pad: string, n: nat, rest: string)
    requires Blanks(pad) && n < TWO64 && AtEnd(rest)
    ensures Strtoull(SkipWs(pad + (DecimalNat(n) + rest))) == n
  {
    hide DecimalNat, SkipWs, DigitsValue, SkipSpaces;
    var t := DecimalNat(n) + rest;
    DigitsRead(n, rest);
    SkipsBlanks(pad, t);
    StrtoullIs(n, rest);
  }

  /** The C library's reading of a length: it saturates, and a minus sign wraps around. */
  lemma StrtoullIs(n: nat, rest: string)
    requires rest == "" || !('0' <= rest[0] <= '9')
    ensures var v := if n >= 0x1_0000_0000_0000_0000 then 0xFFFF_FFFF_FFFF_FFFF else n;
            Strtoull(DecimalNat(n) + rest) == Strtoull("+" + (DecimalNat(n) + rest)) == v
    ensures Strtoull("-" + (DecimalNat(n) + rest))
            == if n >= 0x1_0000_0000_0000_0000 then 0xFFFF_FFFF_FFFF_FFFF
               else if n == 0 then 0 else 0x1_0000_0000_0000_0000 - n
  {
    hide DecimalNat, DigitsValue, SkipSpaces;
    var t := DecimalNat(n) + rest;
    DigitsRead(n, rest);
    SignedText(t);
    assert ("+" + t)[1..] == t && ("-" + t)[1..] == t;
  }

  lemma DigitsRead(n: nat, rest: string)
    requires rest == "" || !('0' <= rest[0] <= '9')
    ensures var t := DecimalNat(n) + rest; t != "" && '0' <= t[0] <= '9' && DigitsValue(t, 0) == n
  {
    var d := DecimalNat(n);
    DecimalReads(n);
    DigitsSplit(d, rest, 0);
    hide DecimalNat;
    assert (d + rest)[0] == d[0];
  }

  lemma SignedText(t: string)
    requires t != "" && '0' <= t[0] <= '9'
    ensures SkipSpaces(t) == t && SkipSpaces("+" + t) == "+" + t && SkipSpaces("-" + t) == "-" + t
  {
  }

  /** A word that cannot run over the end of the line is read from the line alone. */
  lemma WordOnLine(value: string, rest: string, word: string)
    requires AtEnd(rest) && NoCapitals(word) && forall i :: 0 <= i < |word| ==> word[i] != '\r'
    ensures StartsWith(value + rest, word) <==> Begins(value, word)
  {
    StartsWithIff(value + rest, word);
    var s := value + rest;
    if |word| <= |value| {
      assert s[..|word|] == value[..|word|];
    } else if Begins(s, word) {
      assert s[|value|] == rest[0] && SameLetter('\r', word[|value|]);
      NoLetter(word[|value|]);
    }
  }

  lemma NoLetter(l: char)
    ensures SameLetter('\r', l) ==> l == '\r'
  {
    forall k | 0 <= k < 26 ensures UPPER[k] != '\r' { Alphabets(k); }
  }

  lemma BeginsAt(s: string, word: string, i: nat)
    requires i < |word| && i < |s|
    ensures Begins(s, word) ==> SameLetter(s[i], word[i])
  {
    hide SameLetter;
    if |word| <= |s| { assert s[..|word|][i] == s[i]; }
  }

  /** A name in any spelling, followed by what its line says. */
  lemma NameMatches(key: string, word: string, more: string, other: string)
    requires Spells(key, word) && NoCapitals(word) && NoCapitals(other)
    requires exists i :: 0 <= i < |word| && i < |other| && word[i] != other[i]
    ensures StartsWith(key + more, word) && Drop(key + more, |word|) == more
    ensures !StartsWith(key + more, other)
  {
    var s := key + more;
    StartsWithIff(s, word);
    StartsWithIff(s, other);
    assert s[..|word|] == key;
    var i :| 0 <= i < |word| && i < |other| && word[i] != other[i];
    LowerIs(s[i], word[i]);
    LowerIs(s[i], other[i]);
    BeginsAt(s, other, i);
    assert SameLetter(key[i], word[i]);
  }

  lemma WordsArePlain()
    ensures NoCapitals("content-length:") && NoCapitals("content-encoding:") && NoCapitals("connection:")
    ensures NoCapitals("gzip") && NoCapitals("deflate") && NoCapitals("close")
    ensures '\r' !in "content-length:" && '\r' !in "content-encoding:" && '\r' !in "connection:"
    ensures '\r' !in "gzip" && '\r' !in "deflate" && '\r' !in "close"
  {
  }

  lemma LengthStep(h: Head, key: string, pad: string, n: nat, rest: string)
    requires Spells(key, "content-length:") && Blanks(pad) && n < TWO64 && AtEnd(rest)
    ensures HeaderStep(h, key + (pad + (DecimalNat(n) + rest))) == h.(contentLength := n)
  {
    hide Strtoull, SkipWs, DecimalNat, StartsWith, Spells, NoCapitals, Drop;
    WordsArePlain();
    var word, other := "content-length:", "connection:";
    assert word[3] != other[3] && |word| == 15;
    NameMatches(key, word, pad + (DecimalNat(n) + rest), other);
    LengthReads(pad, n, rest);
  }

  lemma EncodingStep(h: Head, key: string, pad: string, value: string, rest: string)
    requires Spells(key, "content-encoding:") && Blanks(pad) && PlainValue(value) && AtEnd(rest)
    ensures HeaderStep(h, key + (pad + (value + rest)))
            == if Begins(value, "gzip") || Begins(value, "deflate") then h.(gzip := true) else h
  {
    hide Strtoull, SkipWs, StartsWith, Spells, NoCapitals, Drop, Begins;
    WordsArePlain();
    var word, other := "content-encoding:", "content-length:";
    assert word[8] != other[8] && |word| == 17;
    NameMatches(key, word, pad + (value + rest), other);
    SkipsBlanks(pad, value + rest);
    WordOnLine(value, rest, "gzip");
    WordOnLine(value, rest, "deflate");
  }

  lemma ConnectionStep(h: Head, key: string, pad: string, value: string, rest: string)
    requires Spells(key, "connection:") && Blanks(pad) && PlainValue(value) && AtEnd(rest)
    ensures HeaderStep(h, key + (pad + (value + rest))) == if Begins(value, "close") then h.(keepAlive := false) else h
  {
    hide Strtoull, SkipWs, StartsWith, Spells, NoCapitals, Drop, Begins;
    WordsArePlain();
    var word, length, encoding := "connection:", "content-length:", "content-encoding:";
    assert word[3] != length[3] && word[3] != encoding[3] && |word| == 11;
    NameMatches(key, word, pad + (value + rest), length);
    NameMatches(key, word, pad + (value + rest), encoding);
    SkipsBlanks(pad, value + rest);
    WordOnLine(value, rest, "close");
  }

  /** One line has its effect, whatever follows it. */
  lemma StepIs(h: Head, l: HeaderLine, rest: string)
    requires LegalLine(l) && AtEnd(rest)
    ensures HeaderStep(h, LineText(l) + rest) == Effect(h, l)
  {
    hide HeaderStep, StartsWith, Spells, NoCapitals, Begins, DecimalNat, AtEnd, PlainValue;
    match l
    case Length(key, pad, n) =>
      Associates(key, pad + DecimalNat(n), rest);
      Associates(pad, DecimalNat(n), rest);
      LengthStep(h, key, pad, n, rest);
    case Encoding(key, pad, value) =>
      Associates(key, pad + value, rest);
      Associates(pad, value, rest);
      EncodingStep(h, key, pad, value, rest);
    case Connection(key, pad, value) =>
      Associates(key, pad + value, rest);
      Associates(pad, value, rest);
      ConnectionStep(h, key, pad, value, rest);
    case Other(text) => OtherStep(h, text, rest);
  }

  lemma OtherStep(h: Head, text: string, rest: string)
    requires !Begins(text, "content-length:") && !Begins(text, "content-encoding:") && !Begins(text, "connection:")
    requires AtEnd(rest)
    ensures HeaderStep(h, text + rest) == h
  {
    hide StartsWith, Begins, NoCapitals, Drop, SkipWs, Strtoull;
    WordsArePlain();
    WordOnLine(text, rest, "content-length:");
    WordOnLine(text, rest, "content-encoding:");
    WordOnLine(text, rest, "connection:");
  }

  /** What strtoull skips before a number. */
  lemma SpacesAre(c: char)
    ensures IsSpace(c) <==> c as int in {9, 10, 11, 12, 13, 32}
  {
  }

  /** A length line without a value is not read as 0: line breaks are skipped like blanks, and the
      number at the start of the next line is taken. */
  lemma EmptyLengthLooksAhead(h: Head, key: string, pad: string, n: nat, rest: string)
    requires Spells(key, "content-length:") && Blanks(pad) && n < TWO64 && AtEnd(rest)
    ensures HeaderStep(h, key + (pad + ("\r\n" + (DecimalNat(n) + rest)))) == h.(contentLength := n)
  {
    hide SkipWs, DecimalNat, StartsWith, Spells, NoCapitals, Drop, DigitsValue;
    WordsArePlain();
    var word, other, next := "content-length:", "connection:", DecimalNat(n) + rest;
    assert word[3] != other[3] && |word| == 15;
    NameMatches(key, word, pad + ("\r\n" + next), other);
    SkipsBlanks(pad, "\r\n" + next);
    DigitsRead(n, rest);
    StrtoullIs(n, rest);
    BreakIsSpace(next);
  }

  /** It is 0 when the next line begins with anything but a number. */
  lemma EmptyLengthIsZero(h: Head, key: string, pad: string, next: string)
    requires Spells(key, "content-length:") && Blanks(pad)
    requires next != "" && !IsSpace(next[0]) && next[0] !in "+-" && !('0' <= next[0] <= '9')
    ensures HeaderStep(h, key + (pad + ("\r\n" + next))) == h.(contentLength := 0)
  {
    hide SkipWs, StartsWith, Spells, NoCapitals, Drop;
    WordsArePlain();
    var word, other := "content-length:", "connection:";
    assert word[3] != other[3] && |word| == 15;
    NameMatches(key, word, pad + ("\r\n" + next), other);
    SkipsBlanks(pad, "\r\n" + next);
    BreakIsSpace(next);
  }

  lemma BreakIsSpace(next: string)
    ensures SkipSpaces("\r\n" + next) == SkipSpaces(next)
  {
    assert ("\r\n" + next)[1..] == "\n" + next && ("\n" + next)[1..] == next;
  }

  // ------------------------ Header blocks ------------------------

  predicate OnOneLine(s: string) {
    s != "" && forall i :: 0 <= i < |s| ==> s[i] !in "\r\n\0"
  }

  lemma SpellsNoBreak(key: string, word: string)
    requires Spells(key, word) && forall i :: 0 <= i < |word| ==> word[i] !in "\r\n\0"
    ensures forall i :: 0 <= i < |key| ==> key[i] !in "\r\n\0"
  {
    forall i | 0 <= i < |key| ensures key[i] !in "\r\n\0" {
      assert SameLetter(key[i], word[i]);
      forall k | 0 <= k < 26 ensures UPPER[k] !in "\r\n\0" { Alphabets(k); }
    }
  }

  lemma LineIsOne(l: HeaderLine)
    requires LegalLine(l)
    ensures OnOneLine(LineText(l))
  {
    hide SameLetter, DecimalNat;
    match l
    case Length(key, pad, n) =>
      DecimalReads(n);
      SpellsNoBreak(key, "content-length:");
    case Encoding(key, pad, value) => SpellsNoBreak(key, "content-encoding:");
    case Connection(key, pad, value) => SpellsNoBreak(key, "connection:");
    case Other(text) =>
  }

  lemma BreakBehind(text: string, rest: string)
    requires OnOneLine(text) && (rest == "" || "\r\n" <= rest)
    ensures SkipBreaks("\r\n" + (text + rest)) == text + rest
    ensures LineBreak(text + rest) == if rest == "" then None else Some(|text|)
  {
    var at := text + rest;
    assert at[0] == text[0];
    SkipsBreak(at);
    if rest == "" {
      assert at == text;
      NotFound(at, "\r\n", '\n');
      NotFound(at, "\n", '\n');
    } else {
      FoundAtSeam(text, rest, "\r\n");
    }
  }

  lemma SkipsBreak(at: string)
    requires at != "" && at[0] != '\r' && at[0] != '\n'
    ensures SkipBreaks("\r\n" + at) == at
  {
    assert ("\r\n" + at)[1..] == "\n" + at && ("\n" + at)[1..] == at;
    assert SkipBreaks("\n" + at) == SkipBreaks(at) == at;
  }

  lemma TextBegins(ls: seq<HeaderLine>)
    ensures HeaderText(ls) == "" || "\r\n" <= HeaderText(ls)
    ensures HeaderText(ls) == "" <==> ls == []
    ensures AtEnd(HeaderText(ls))
  {
    hide LineText;
  }

  /** Every line of a block has its effect, in order. */
  lemma {:induction false} HeadersAre(h: Head, ls: seq<HeaderLine>)
    requires AllLines(ls)
    ensures ScanHeaders(HeaderText(ls), h) == Effects(h, ls)
    decreases |ls|
  {
    hide HeaderStep, LineText, LegalLine, LineBreak, OnOneLine, Effect, AtEnd;
    if ls != [] {
      var l, rest := ls[0], HeaderText(ls[1..]);
      var at := LineText(l) + rest;
      LineIsOne(l);
      assert LineText(l) != "" by { NotEmpty(LineText(l)); }
      TextBegins(ls[1..]);
      BreakBehind(LineText(l), rest);
      StepIs(h, l, rest);
      HeadersAre(Effect(h, l), ls[1..]);
      Seam(LineText(l), rest);
    }
  }

  lemma NotEmpty(s: string)
    requires OnOneLine(s)
    ensures s != ""
  {
  }

  /** The length announced last, 0 without one. */
  function Announced(ls: seq<HeaderLine>): nat {
    if ls == [] then 0
    else if ls[|ls| - 1].Length? then ls[|ls| - 1].n
    else Announced(ls[..|ls| - 1])
  }

  predicate SaysCompressed(l: HeaderLine) {
    l.Encoding? && (Begins(l.value, "gzip") || Begins(l.value, "deflate"))
  }

  predicate SaysClose(l: HeaderLine) {
    l.Connection? && Begins(l.value, "close")
  }

  predicate Compressed(ls: seq<HeaderLine>) {
    exists i :: 0 <= i < |ls| && SaysCompressed(ls[i])
  }

  predicate AsksToClose(ls: seq<HeaderLine>) {
    exists i :: 0 <= i < |ls| && SaysClose(ls[i])
  }

  lemma {:induction false} EffectsSnoc(h: Head, ls: seq<HeaderLine>, l: HeaderLine)
    ensures Effects(h, ls + [l]) == Effect(Effects(h, ls), l)
    decreases |ls|
  {
    hide Effect;
    if ls == [] {
      assert ls + [l] == [l] && [l][1..] == [];
    } else {
      assert (ls + [l])[1..] == ls[1..] + [l];
      EffectsSnoc(Effect(h, ls[0]), ls[1..], l);
    }
  }

  /** The last length counts, one compressed encoding suffices, and so does one request to close. */
  lemma {:induction false} EffectsAre(path: string, ls: seq<HeaderLine>)
    ensures Effects(Head(path, 0, false, true), ls) == Head(path, Announced(ls), Compressed(ls), !AsksToClose(ls))
    decreases |ls|
  {
    hide Effects, SaysCompressed, SaysClose;
    if ls == [] {
      NoEffects(Head(path, 0, false, true));
    } else {
      var n := |ls| - 1;
      var front, last := ls[..n], ls[n];
      assert ls == front + [last];
      EffectsAre(path, front);
      EffectsSnoc(Head(path, 0, false, true), front, last);
      LastLine(Head(path, Announced(front), Compressed(front), !AsksToClose(front)), last);
      if i :| 0 <= i < |front| && SaysCompressed(front[i]) { assert SaysCompressed(ls[i]); }
      if i :| 0 <= i < |front| && SaysClose(front[i]) { assert SaysClose(ls[i]); }
      if i :| 0 <= i < |ls| && SaysCompressed(ls[i]) { assert i == n || SaysCompressed(front[i]); }
      if i :| 0 <= i < |ls| && SaysClose(ls[i]) { assert i == n || SaysClose(front[i]); }
    }
  }

  lemma NoEffects(h: Head)
    ensures Effects(h, []) == h
  {
  }

  lemma LastLine(h: Head, l: HeaderLine)
    ensures Effect(h, l) == Head(h.path, if l.Length? then l.n else h.contentLength, h.gzip || SaysCompressed(l),
                                 h.keepAlive && !SaysClose(l))
  {
  }
}
