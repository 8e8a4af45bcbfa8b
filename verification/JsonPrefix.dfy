/** Reading is stable under extension, so no JSON object text is a proper prefix of another. */
module JsonPrefix {
  import opened Json

  lemma {:induction false} SkipWsExtends(p: string, x: string)
    requires SkipWs(p) != ""
    ensures SkipWs(p + x) == SkipWs(p) + x
  {
    if IsWs(p[0]) {
      SkipWsExtends(p[1..], x);
      assert (p + x)[1..] == p[1..] + x;
    }
  }

  lemma {:induction false} CharsExtend(p: string, x: string)
    requires ReadChars(p).Ok?
    ensures ReadChars(p + x) == Ok(ReadChars(p).value, ReadChars(p).rest + x)
    decreases |p|
  {
    hide ShortEscape, FourHex, HexValue, Utf8Of;
    if p[0] == '"' {
      assert (p + x)[1..] == p[1..] + x;
    } else {
      var n := if p[0] != '\\' then 1 else if p[1] != 'u' then 2 else 6;
      assert (p + x)[n..] == p[n..] + x;
      if n == 6 { assert (p + x)[2..6] == p[2..6]; }
      CharsExtend(p[n..], x);
    }
  }

  lemma NumberExtends(t: string, x: string)
    requires var n := NumberLen(t); 0 < n < |t| && Closes(t[n..])
    ensures NumberLen(t + x) == NumberLen(t)
  {
    hide NumberLen;
    var n := NumberLen(t);
    assert t == t[..n] + t[n..];
    assert t + x == t[..n] + (t[n..] + x);
    NumberStops(t[..n], t[n..]);
    NumberStops(t[..n], t[n..] + x);
  }

  /** A value is read the same whatever is appended, provided a number is already delimited. */
  lemma {:induction false} ValueExtends(p: string, x: string)
    requires ReadValue(p).Ok?
    requires SkipWs(p)[0] == '{' || (ReadValue(p).rest != "" && Closes(ReadValue(p).rest))
    ensures ReadValue(p + x) == Ok(ReadValue(p).value, ReadValue(p).rest + x)
    decreases |p|, 2
  {
    hide ReadChars, ReadElements, ReadMembers, NumberLen, Closes;
    var t := SkipWs(p);
    SkipWsExtends(p, x);
    assert (t + x)[0] == t[0] && (t + x)[1..] == t[1..] + x;
    if t[0] == '"' {
      CharsExtend(t[1..], x);
    } else if t[0] == '[' {
      ArrayExtends(t, x);
    } else if t[0] == '{' {
      ObjectExtends(t, x);
    } else if t[0] == 'n' {
      LiteralExtends(t, x, "null", JNull);
    } else if t[0] == 't' {
      LiteralExtends(t, x, "true", JBool(true));
    } else if t[0] == 'f' {
      LiteralExtends(t, x, "false", JBool(false));
    } else {
      NumberExtends(t, x);
      var n := NumberLen(t);
      assert (t + x)[..n] == t[..n] && (t + x)[n..] == t[n..] + x;
    }
  }

  lemma BlankFails(s: string)
    requires SkipWs(s) == ""
    ensures ReadValue(s).Fail? && ReadElements(s).Fail? && ReadMembers(s).Fail?
  {
  }

  lemma LiteralExtends(t: string, x: string, word: string, j: Json)
    requires Literal(t, word, j).Ok?
    ensures Literal(t + x, word, j) == Ok(j, Literal(t, word, j).rest + x)
  {
    assert (t + x)[|word|..] == t[|word|..] + x;
  }

  lemma {:induction false} ArrayExtends(t: string, x: string)
    requires t != "" && t[0] == '[' && SkipWs(t) == t && ReadValue(t).Ok?
    ensures ReadValue(t + x) == Ok(ReadValue(t).value, ReadValue(t).rest + x)
    decreases |t|, 1
  {
    hide ReadElements, ReadMembers, ReadChars, NumberLen;
    var u := SkipWs(t[1..]);
    if u == "" { BlankFails(t[1..]); }
    SkipWsExtends(t[1..], x);
    assert (t + x)[1..] == t[1..] + x;
    if u[0] == ']' {
      assert (u + x)[1..] == u[1..] + x;
    } else {
      ElementsExtend(t[1..], x);
    }
  }

  lemma {:induction false} ObjectExtends(t: string, x: string)
    requires t != "" && t[0] == '{' && SkipWs(t) == t && ReadValue(t).Ok?
    ensures ReadValue(t + x) == Ok(ReadValue(t).value, ReadValue(t).rest + x)
    decreases |t|, 1
  {
    hide ReadElements, ReadMembers, ReadChars, NumberLen;
    var u := SkipWs(t[1..]);
    if u == "" { BlankFails(t[1..]); }
    SkipWsExtends(t[1..], x);
    assert (t + x)[1..] == t[1..] + x;
    if u[0] == '}' {
      assert (u + x)[1..] == u[1..] + x;
    } else {
      MembersExtend(t[1..], x);
    }
  }

  lemma Delimited(rest: string)
    requires SkipWs(rest) != "" && (SkipWs(rest)[0] == ',' || SkipWs(rest)[0] == ']' || SkipWs(rest)[0] == '}')
    ensures rest != "" && Closes(rest)
  {
  }

  lemma {:induction false} ElementsExtend(p: string, x: string)
    requires ReadElements(p).Ok?
    ensures ReadElements(p + x) == Ok(ReadElements(p).value, ReadElements(p).rest + x)
    decreases |p|, 3
  {
    hide ReadValue, Closes;
    var rest := ReadValue(p).rest;
    var t := SkipWs(rest);
    Delimited(rest);
    ValueExtends(p, x);
    SkipWsExtends(rest, x);
    assert (t + x)[0] == t[0] && (t + x)[1..] == t[1..] + x;
    if t[0] == ',' { ElementsExtend(t[1..], x); }
  }

  lemma {:induction false} MemberExtends(p: string, x: string)
    requires ReadMember(p).Ok? && ReadMember(p).rest != "" && Closes(ReadMember(p).rest)
    ensures ReadMember(p + x) == Ok(ReadMember(p).value, ReadMember(p).rest + x)
    decreases |p|, 3
  {
    hide ReadValue, ReadChars, Closes;
    var t := SkipWs(p);
    SkipWsExtends(p, x);
    assert (t + x)[0] == t[0] && (t + x)[1..] == t[1..] + x;
    CharsExtend(t[1..], x);
    var rest := ReadChars(t[1..]).rest;
    var u := SkipWs(rest);
    SkipWsExtends(rest, x);
    assert (u + x)[0] == u[0] && (u + x)[1..] == u[1..] + x;
    ValueExtends(u[1..], x);
  }

  lemma {:induction false} MembersExtend(p: string, x: string)
    requires ReadMembers(p).Ok?
    ensures ReadMembers(p + x) == Ok(ReadMembers(p).value, ReadMembers(p).rest + x)
    decreases |p|, 4
  {
    hide ReadMember, Closes;
    var rest := ReadMember(p).rest;
    var t := SkipWs(rest);
    Delimited(rest);
    MemberExtends(p, x);
    SkipWsExtends(rest, x);
    assert (t + x)[0] == t[0] && (t + x)[1..] == t[1..] + x;
    if t[0] == ',' { MembersExtend(t[1..], x); }
  }

  /** No proper prefix of a text that is an object to its last character, or no JSON at all but begins
      like one, is itself a JSON text. */
  lemma CutObjectFails(text: string, n: nat)
    requires text != "" && text[0] == '{' && n < |text|
    requires ReadValue(text).Ok? ==> ReadValue(text).rest == ""
    ensures ReadText(text[..n]).Fail?
  {
    hide ReadValue;
    var p, x := text[..n], text[n..];
    assert text == p + x;
    if ReadText(p).Ok? {
      if p == "" { BlankFails(p); }
      ValueExtends(p, x);
    }
  }
}
