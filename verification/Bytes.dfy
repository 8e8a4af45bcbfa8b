/** Machine values shared by every component: bytes, 64-bit words and C strings. */
module Bytes {
  type byte = x: int | 0 <= x < 256
  type bytes = seq<byte>

  const TWO32: int := 0x1_0000_0000
  const TWO63: int := 0x8000_0000_0000_0000
  const TWO64: int := 0x1_0000_0000_0000_0000

  type u64 = x: int | 0 <= x < TWO64

  datatype Option<+T> = None | Some(value: T)

  function Repeat<T>(x: T, n: nat): (s: seq<T>)
    ensures |s| == n && forall i :: 0 <= i < n ==> s[i] == x
  {
    seq(n, _ => x)
  }

  /** The at most `n` leading elements of `s`: what survives a bounded copy. */
  function Take<T>(s: seq<T>, n: nat): (front: seq<T>)
    ensures front <= s && |front| == if |s| <= n then |s| else n
  {
    if |s| <= n then s else s[..n]
  }

  lemma Associates<T>(a: seq<T>, b: seq<T>, c: seq<T>)
    ensures a + b + c == a + (b + c)
  {
  }

  /** What is left of a joined sequence on both sides of the seam. */
  lemma Seam<T>(a: seq<T>, b: seq<T>)
    ensures (a + b)[..|a|] == a && (a + b)[|a|..] == b
  {
  }

  lemma SplitEqual<T>(a: seq<T>, b: seq<T>, c: seq<T>, d: seq<T>)
    requires |a| == |c|
    ensures a + b == c + d <==> a == c && b == d
  {
    if a + b == c + d {
      Seam(a, b);
      Seam(c, d);
    }
  }

  lemma SameElements<T>(a: seq<T>, b: seq<T>, c: seq<T>, d: seq<T>)
    requires multiset(a) == multiset(c) && multiset(b) == multiset(d)
    ensures multiset(a + b) == multiset(c + d)
  {
  }

  lemma SliceOfSlice<T>(s: seq<T>, from: nat, to: nat, i: nat, j: nat)
    requires from <= to <= |s| && i <= j <= to - from
    ensures s[from..to][i..j] == s[from + i..from + j]
    ensures s[from..to][j..] == s[from + j..to]
  {
    var t := s[from..to];
    assert |t[i..j]| == |s[from + i..from + j]|;
    assert forall k :: 0 <= k < j - i ==> t[i..j][k] == s[from + i..from + j][k];
  }

  const HEX_DIGITS := "0123456789abcdef"

  const UPPER := "ABCDEFGHIJKLMNOPQRSTUVWXYZ"
  const LOWER := "abcdefghijklmnopqrstuvwxyz"

  lemma Alphabets(k: nat)
    requires k < 26
    ensures UPPER[k] as int == 'A' as int + k && LOWER[k] as int == 'a' as int + k
  {
  }

  function DecimalNat(n: nat): (s: string)
    ensures s != ""
  {
    if n < 10 then [HEX_DIGITS[n]] else DecimalNat(n / 10) + [HEX_DIGITS[n % 10]]
  }

  /** strstr: the first place at or after `from` where `pat` stands. */
  method StrStr(s: string, pat: string, from: nat) returns (hit: int)
    requires from <= |s|
    ensures hit < 0 ==> forall i :: from <= i <= |s| ==> !(pat <= s[i..])
    ensures hit >= 0 ==> from <= hit <= |s| && pat <= s[hit..] && forall i :: from <= i < hit ==> !(pat <= s[i..])
  {
    hit := from;
    while hit <= |s|
      invariant from <= hit <= |s| + 1
      invariant forall i :: from <= i < hit ==> !(pat <= s[i..])
    {
      if pat <= s[hit..] { return; }
      hit := hit + 1;
    }
    hit := -1;
  }

  /** Reinterprets an unsigned word as int64_t. */
  function ToInt64(v: u64): (i: int)
    ensures -TWO63 <= i < TWO63
    ensures i >= 0 <==> v < TWO63
    ensures i == v || i == v - TWO64
  {
    if v < TWO63 then v else v - TWO64
  }

  /** Bytes viewed as C characters. */
  function Chars(b: bytes): (s: string)
    ensures |s| == |b|
    ensures forall i :: 0 <= i < |b| ==> s[i] == b[i] as char
  {
    seq(|b|, i requires 0 <= i < |b| => b[i] as char)
  }

  /** C characters viewed as bytes. */
  function AsBytes(s: string): (b: bytes)
    requires forall i :: 0 <= i < |s| ==> s[i] as int < 256
    ensures Chars(b) == s
  {
    seq(|s|, i requires 0 <= i < |s| => s[i] as int)
  }

  /** What a NUL-terminated copy of `b` holds when read as a C string: it ends before the first NUL. */
  function CBytes(b: bytes): (c: bytes)
    ensures c <= b && 0 !in c
    ensures c == b || b[|c|] == 0
  {
    if b == [] || b[0] == 0 then [] else [b[0]] + CBytes(b[1..])
  }

  /** pw_copy_str into a buffer of `cap` bytes, read back as a C string. */
  function CopyStr(b: bytes, cap: nat): (s: string)
    requires cap > 0
    ensures StoredAs(b, cap - 1, s)
  {
    Chars(CBytes(Take(b, cap - 1)))
  }

  /** `s` holds the bytes of `b` in front of its first NUL, but at most `n` of them. */
  predicate StoredAs(b: bytes, n: nat, s: string) {
    && |s| <= n && |s| <= |b|
    && (forall i :: 0 <= i < |s| ==> b[i] != 0 && s[i] as int == b[i])
    && (|s| == n || |s| == |b| || b[|s|] == 0)
  }

  /** Text is stored whole if and only if it holds no NUL and fits. */
  lemma StoredWholeIff(b: bytes, n: nat, s: string)
    requires StoredAs(b, n, s)
    ensures s == Chars(b) <==> 0 !in b && |b| <= n
  {
  }

  lemma StoredOnce(b: bytes, n: nat, s: string, t: string)
    requires StoredAs(b, n, s) && StoredAs(b, n, t)
    ensures s == t
  {
  }

  lemma CopiedWholeIff(b: bytes, cap: nat)
    requires cap > 0
    ensures CopyStr(b, cap) == Chars(b) <==> 0 !in b && |b| < cap
  {
    hide CopyStr;
    StoredWholeIff(b, cap - 1, CopyStr(b, cap));
  }
}
