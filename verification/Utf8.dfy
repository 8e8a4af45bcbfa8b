/** The agent's UTF-8 scan, against the grammar of RFC 3629 section 4. */
module Utf8 {
  import opened Bytes

  predicate Tail(b: byte) {
    0x80 <= b <= 0xBF
  }

  /** One UTF-8 character, by the byte table of RFC 3629 section 4. */
  predicate Rfc3629(u: bytes) {
    || (|u| == 1 && u[0] <= 0x7F)
    || (|u| == 2 && 0xC2 <= u[0] <= 0xDF && Tail(u[1]))
    || (|u| == 3 && Tail(u[2]) &&
        (|| (u[0] == 0xE0 && 0xA0 <= u[1] <= 0xBF)
         || (0xE1 <= u[0] <= 0xEC && Tail(u[1]))
         || (u[0] == 0xED && 0x80 <= u[1] <= 0x9F)
         || (0xEE <= u[0] <= 0xEF && Tail(u[1]))))
    || (|u| == 4 && Tail(u[2]) && Tail(u[3]) &&
        (|| (u[0] == 0xF0 && 0x90 <= u[1] <= 0xBF)
         || (0xF1 <= u[0] <= 0xF3 && Tail(u[1]))
         || (u[0] == 0xF4 && 0x80 <= u[1] <= 0x8F)))
  }

  /** The two families outside the RFC that the scan lets through: surrogates and the code
      points above U+10FFFF that still fit lead byte F4. */
  predicate Foreign(u: bytes) {
    || (|u| == 3 && u[0] == 0xED && 0xA0 <= u[1] <= 0xBF && Tail(u[2]))
    || (|u| == 4 && u[0] == 0xF4 && 0x90 <= u[1] <= 0xBF && Tail(u[2]) && Tail(u[3]))
  }

  /** Sequences that spell a code point in more bytes than needed. */
  predicate Overlong(u: bytes) {
    || (|u| == 2 && 0xC0 <= u[0] <= 0xC1)
    || (|u| == 3 && u[0] == 0xE0 && u[1] < 0xA0)
    || (|u| == 4 && u[0] == 0xF0 && u[1] < 0x90)
  }

  /** How many bytes the lead byte announces; 0 for a byte that cannot lead. */
  function Announced(c: byte): nat {
    if c < 0x80 then 1
    else if 0xC0 <= c < 0xE0 then 2
    else if 0xE0 <= c < 0xF0 then 3
    else if 0xF0 <= c < 0xF8 then 4
    else 0
  }

  /** The length utf8_seq_len reports for the front of `s`, 0 for a rejection. */
  function SeqLen(s: bytes): (n: nat)
    requires s != []
    ensures n <= |s| && n <= 4
  {
    var c, need := s[0], Announced(s[0]);
    if need == 1 then 1
    else if need == 0 || |s| < need then 0
    else if !(forall i :: 1 <= i < need ==> Tail(s[i])) then 0
    else if need == 2 && c < 0xC2 then 0
    else if need == 3 && c == 0xE0 && s[1] < 0xA0 then 0
    else if need == 4 && (c > 0xF4 || (c == 0xF0 && s[1] < 0x90)) then 0
    else need
  }

  method Utf8SeqLen(s: bytes) returns (n: nat)
    requires s != []
    ensures n == SeqLen(s)
  {
    var c := s[0];
    var need;
    if c < 0x80 { return 1; }
    else if c / 0x20 * 0x20 == 0xC0 { need := 2; }  // c & 0xe0
    else if c / 0x10 * 0x10 == 0xE0 { need := 3; }  // c & 0xf0
    else if c / 0x08 * 0x08 == 0xF0 { need := 4; }  // c & 0xf8
    else { return 0; }
    if |s| < need { return 0; }
    for i := 1 to need
      invariant forall k :: 1 <= k < i ==> Tail(s[k])
    {
      if s[i] / 0x40 * 0x40 != 0x80 { return 0; }
    }
    if need == 2 && c < 0xC2 { return 0; }
    if need == 3 && c == 0xE0 && s[1] < 0xA0 { return 0; }
    if need == 4 && (c > 0xF4 || (c == 0xF0 && s[1] < 0x90)) { return 0; }
    return need;
  }

  /** Exactly the RFC's characters and the two foreign families are accepted, never an overlong
      form, and an accepted character has only one length. */
  lemma AcceptedExactly(s: bytes, n: nat)
    requires s != [] && 0 < n <= |s|
    ensures SeqLen(s) == n <==> Rfc3629(s[..n]) || Foreign(s[..n])
    ensures SeqLen(s) == n ==> !Overlong(s[..n])
  {
    var u := s[..n];
    assert forall i :: 0 <= i < n ==> u[i] == s[i];
    if Rfc3629(u) || Foreign(u) {
      AcceptedImpliesLen(s, n);
    }
    if SeqLen(s) == n { LenImpliesAccepted(s); }
  }

  lemma AcceptedImpliesLen(s: bytes, n: nat)
    requires 0 < n <= |s| && (Rfc3629(s[..n]) || Foreign(s[..n]))
    ensures SeqLen(s) == n
  {
    var u := s[..n];
    assert Announced(s[0]) == n;
    assert forall i :: 1 <= i < n ==> u[i] == s[i] && Tail(s[i]);
    assert n >= 2 ==> u[1] == s[1];
  }

  lemma LenImpliesAccepted(s: bytes)
    requires s != [] && SeqLen(s) > 0
    ensures var u := s[..SeqLen(s)]; (Rfc3629(u) || Foreign(u)) && !Overlong(u)
  {
    var n := SeqLen(s);
    assert n == Announced(s[0]);
    if n > 1 {
      assert forall i :: 1 <= i < n ==> Tail(s[i]);
      assert Tail(s[1]);
      if n > 2 { assert Tail(s[2]); }
      if n > 3 { assert Tail(s[3]); }
    }
  }

  // ------------------------ Whole strings ------------------------

  /** The RFC character at the front of `s`, 0 when there is none. */
  function RfcLen(s: bytes): (n: nat)
    ensures n <= |s|
  {
    if |s| >= 1 && Rfc3629(s[..1]) then 1
    else if |s| >= 2 && Rfc3629(s[..2]) then 2
    else if |s| >= 3 && Rfc3629(s[..3]) then 3
    else if |s| >= 4 && Rfc3629(s[..4]) then 4
    else 0
  }

  predicate WellFormed(s: bytes) {
    s == [] || (RfcLen(s) > 0 && WellFormed(s[RfcLen(s)..]))
  }

  const REPLACEMENT: bytes := [0xEF, 0xBF, 0xBD]

  /** The text the agent means to store: the input with each rejected byte made U+FFFD. */
  function Sanitized(s: bytes): bytes {
    if s == [] then []
    else
      var n := SeqLen(s);
      if n == 0 then REPLACEMENT + Sanitized(s[1..]) else s[..n] + Sanitized(s[n..])
  }

  predicate ForeignAt(s: bytes, i: nat) {
    || (i + 3 <= |s| && Foreign(s[i..i + 3]))
    || (i + 4 <= |s| && Foreign(s[i..i + 4]))
  }

  predicate NoForeign(s: bytes) {
    forall i :: 0 <= i < |s| ==> !ForeignAt(s, i)
  }

  lemma RfcLenIs(u: bytes, rest: bytes)
    requires Rfc3629(u)
    ensures RfcLen(u + rest) == |u|
  {
    var s := u + rest;
    assert s[..|u|] == u;
    assert s[..1][0] == u[0];
    if |u| > 2 { assert s[..2][0] == u[0]; }
    if |u| > 3 { assert s[..3][0] == u[0]; }
  }

  lemma ForeignIsNotRfc(u: bytes, rest: bytes)
    requires Foreign(u)
    ensures RfcLen(u + rest) == 0
  {
    var s := u + rest;
    assert s[0] == u[0] && s[1] == u[1];
    assert s[..1][0] == u[0];
    assert s[..2][0] == u[0];
    assert |s| >= 3 && s[..3][0] == u[0] && s[..3][1] == u[1];
    if |s| >= 4 { assert s[..4][0] == u[0] && s[..4][1] == u[1]; }
  }

  lemma ForeignShifts(s: bytes, n: nat, i: nat)
    requires n <= i < |s|
    ensures ForeignAt(s, i) <==> ForeignAt(s[n..], i - n)
  {
    hide Foreign;
    if i + 3 <= |s| { assert s[i..i + 3] == s[n..][i - n..i - n + 3]; }
    if i + 4 <= |s| { assert s[i..i + 4] == s[n..][i - n..i - n + 4]; }
  }

  lemma NoForeignInside(s: bytes, i: nat)
    requires s != [] && 0 < i < SeqLen(s)
    ensures !ForeignAt(s, i)
  {
    assert SeqLen(s) == Announced(s[0]);
    assert Tail(s[i]);
    TailStartsNothing(s, i);
  }

  lemma TailStartsNothing(s: bytes, i: nat)
    requires i < |s| && Tail(s[i])
    ensures !ForeignAt(s, i)
  {
    if i + 3 <= |s| { assert s[i..i + 3][0] == s[i]; }
    if i + 4 <= |s| { assert s[i..i + 4][0] == s[i]; }
  }

  /** A lead byte is never a tail byte, so a foreign sequence can only start where a scanned
      character starts. */
  lemma ForeignSkips(s: bytes, n: nat)
    requires s != [] && (n == SeqLen(s) > 0 || (SeqLen(s) == 0 && n == 1))
    ensures NoForeign(s) <==> !ForeignAt(s, 0) && NoForeign(s[n..])
  {
    hide ForeignAt, SeqLen;
    forall i | 0 < i < n ensures !ForeignAt(s, i) { NoForeignInside(s, i); }
    forall i | n <= i < |s| ensures ForeignAt(s, i) <==> ForeignAt(s[n..], i - n) { ForeignShifts(s, n, i); }
    if NoForeign(s[n..]) && !ForeignAt(s, 0) {
      forall i | 0 <= i < |s| ensures !ForeignAt(s, i) {
        if i >= n { assert !ForeignAt(s[n..], i - n); }
      }
    }
    if NoForeign(s) {
      forall i | 0 <= i < |s[n..]| ensures !ForeignAt(s[n..], i) {
        assert !ForeignAt(s, i + n);
      }
    }
  }

  lemma ForeignAtFront(s: bytes)
    requires s != []
    ensures ForeignAt(s, 0) <==> SeqLen(s) > 0 && Foreign(s[..SeqLen(s)])
  {
    if |s| >= 3 { assert s[0..3] == s[..3]; }
    if |s| >= 4 { assert s[0..4] == s[..4]; }
    if |s| >= 3 && Foreign(s[..3]) { AcceptedExactly(s, 3); }
    if |s| >= 4 && Foreign(s[..4]) { AcceptedExactly(s, 4); }
    if SeqLen(s) > 0 && Foreign(s[..SeqLen(s)]) {
      assert SeqLen(s) == 3 || SeqLen(s) == 4;
    }
  }

  /** What the agent stores is well-formed UTF-8 if and only if the input nowhere holds one of
      the two foreign families. */
  lemma {:induction false} StoredTextIsUtf8Iff(s: bytes)
    ensures WellFormed(Sanitized(s)) <==> NoForeign(s)
    decreases |s|
  {
    if s != [] {
      var n := SeqLen(s);
      ForeignAtFront(s);
      if n == 0 {
        ForeignSkips(s, 1);
        StoredTextIsUtf8Iff(s[1..]);
        RfcLenIs(REPLACEMENT, Sanitized(s[1..]));
        assert Sanitized(s)[3..] == Sanitized(s[1..]);
      } else {
        ForeignSkips(s, n);
        StoredTextIsUtf8Iff(s[n..]);
        LenImpliesAccepted(s);
        if Foreign(s[..n]) {
          ForeignIsNotRfc(s[..n], Sanitized(s[n..]));
        } else {
          RfcLenIs(s[..n], Sanitized(s[n..]));
          assert Sanitized(s)[n..] == Sanitized(s[n..]);
        }
      }
    }
  }

  /** The comment that everything past U+10FFFF is rejected does not hold of the code: a
      surrogate and U+110000 are both stored as they came. */
  lemma ForeignIsStored()
    ensures Sanitized([0xED, 0xA0, 0x80]) == [0xED, 0xA0, 0x80]
    ensures !WellFormed([0xED, 0xA0, 0x80])
    ensures Sanitized([0xF4, 0x90, 0x80, 0x80]) == [0xF4, 0x90, 0x80, 0x80]
    ensures !WellFormed([0xF4, 0x90, 0x80, 0x80])
  {
    var a: bytes := [0xED, 0xA0, 0x80];
    var b: bytes := [0xF4, 0x90, 0x80, 0x80];
    AcceptedExactly(a, 3);
    AcceptedExactly(b, 4);
    assert a[..3] == a && a[3..] == [] && b[..4] == b && b[4..] == [];
    ForeignIsNotRfc(a, []);
    ForeignIsNotRfc(b, []);
    assert a + [] == a && b + [] == b;
  }

  /** Well-formed input is stored unchanged. */
  lemma {:induction false} WellFormedIsKept(s: bytes)
    requires WellFormed(s)
    ensures Sanitized(s) == s
    decreases |s|
  {
    if s != [] {
      var n := RfcLen(s);
      AcceptedExactly(s, n);
      WellFormedIsKept(s[n..]);
    }
  }

  // ------------------------ Character by character ------------------------

  predicate Accepted(u: bytes) {
    Rfc3629(u) || Foreign(u)
  }

  /** `us` cuts `s` into accepted characters and single bytes at which none begins. */
  predicate Cuts(s: bytes, us: seq<bytes>)
    decreases |us|
  {
    if us == [] then s == []
    else
      && us[0] != [] && us[0] <= s
      && (Accepted(us[0]) || (|us[0]| == 1 && forall n :: 0 < n <= |s| ==> !Accepted(s[..n])))
      && Cuts(s[|us[0]|..], us[1..])
  }

  /** Accepted characters as they are, each other byte as one U+FFFD. */
  function Replaced(us: seq<bytes>): bytes {
    if us == [] then [] else (if Accepted(us[0]) then us[0] else REPLACEMENT) + Replaced(us[1..])
  }

  function Units(s: bytes): seq<bytes> {
    if s == [] then []
    else
      var n := if SeqLen(s) == 0 then 1 else SeqLen(s);
      [s[..n]] + Units(s[n..])
  }

  lemma NoneAccepted(s: bytes)
    requires s != []
    ensures SeqLen(s) == 0 <==> forall n :: 0 < n <= |s| ==> !Accepted(s[..n])
  {
    hide Rfc3629, Foreign, SeqLen;
    forall n | 0 < n <= |s| ensures SeqLen(s) == n <==> Accepted(s[..n]) { AcceptedExactly(s, n); }
    if SeqLen(s) > 0 { assert Accepted(s[..SeqLen(s)]); }
  }

  /** There is such a cutting, and whichever is taken, what is stored is its replacement. */
  lemma {:induction false} UnitsCut(s: bytes)
    ensures Cuts(s, Units(s))
    decreases |s|
  {
    hide Accepted, SeqLen;
    if s != [] {
      var n := if SeqLen(s) == 0 then 1 else SeqLen(s);
      NoneAccepted(s);
      if SeqLen(s) > 0 { AcceptedExactly(s, n); assert Accepted(s[..n]) by { AcceptedMeans(s[..n]); } }
      UnitsCut(s[n..]);
    }
  }

  lemma AcceptedMeans(u: bytes)
    ensures Accepted(u) <==> Rfc3629(u) || Foreign(u)
  {
  }

  lemma {:induction false} ReplacedUnitByUnit(s: bytes, us: seq<bytes>)
    requires Cuts(s, us)
    ensures Sanitized(s) == Replaced(us)
    decreases |us|
  {
    hide Accepted, SeqLen;
    if us != [] {
      var u := us[0];
      assert s[..|u|] == u;
      if Accepted(u) {
        AcceptedMeans(u);
        AcceptedExactly(s, |u|);
      } else {
        NoneAccepted(s);
      }
      ReplacedUnitByUnit(s[|u|..], us[1..]);
    }
  }
}
