/** Rewriting one key inside OTEL_RESOURCE_ATTRIBUTES (inject.c). */
module ResourceAttributes {
  import opened Bytes

  const BUF_CAP := 8192
  const KV_CAP := 192
  const KEYEQ_CAP := 160

  // ------------------------ Segments ------------------------

  predicate CommaFree(s: string) {
    forall i :: 0 <= i < |s| ==> s[i] != ','
  }

  /** strchr(p, ','), or the end of the string. */
  function SegmentLen(s: string): (n: nat)
    ensures n <= |s| && CommaFree(s[..n])
    ensures n < |s| ==> s[n] == ','
  {
    if s == "" || s[0] == ',' then 0
    else
      assert s[..1 + SegmentLen(s[1..])] == [s[0]] + s[1..][..SegmentLen(s[1..])];
      1 + SegmentLen(s[1..])
  }

  /** The segments the loop visits: nothing is visited after a comma at the very end. */
  function Segments(s: string): seq<string> {
    if s == "" then []
    else
      var n := SegmentLen(s);
      if n == |s| then [s] else [s[..n]] + Segments(s[n + 1..])
  }

  function Join(segs: seq<string>): string {
    if segs == [] then ""
    else if |segs| == 1 then segs[0]
    else segs[0] + "," + Join(segs[1..])
  }

  /** A separator is only written once the buffer is not empty, so leading empty segments go. */
  function SkipEmpty(segs: seq<string>): seq<string> {
    if segs != [] && segs[0] == "" then SkipEmpty(segs[1..]) else segs
  }

  predicate IsTarget(keyeq: string, seg: string) {
    keyeq <= seg
  }

  function Rewrite(segs: seq<string>, keyeq: string, kv: string): (out: seq<string>)
    ensures |out| == |segs|
    ensures forall i :: 0 <= i < |segs| ==> out[i] == if IsTarget(keyeq, segs[i]) then kv else segs[i]
  {
    seq(|segs|, i requires 0 <= i < |segs| => if IsTarget(keyeq, segs[i]) then kv else segs[i])
  }

  predicate HasTarget(segs: seq<string>, keyeq: string) {
    exists i :: 0 <= i < |segs| && IsTarget(keyeq, segs[i])
  }

  /** The segments of the new value. */
  function Result(cur: string, keyeq: string, kv: string): seq<string> {
    var segs := Segments(cur);
    SkipEmpty(Rewrite(segs, keyeq, kv)) + if HasTarget(segs, keyeq) then [] else [kv]
  }

  /** The variable after setting `key` to `value`. */
  function SetAttr(cur: Option<string>, key: string, value: string): Option<string> {
    var kv, keyeq := key + "=" + value, key + "=";
    if |kv| >= KV_CAP || |keyeq| >= KEYEQ_CAP then cur
    else if cur == None || cur == Some("") then Some(kv)
    else
      var text := Join(Result(cur.value, keyeq, kv));
      if |text| < BUF_CAP then Some(text) else cur
  }

  // ------------------------ The code ------------------------

  /** What the buffer holds after writing `segs` to it: see the separator rule above. */
  function Written(buf: string, segs: seq<string>): string
    decreases |segs|
  {
    if segs == [] then buf else Written(if buf == "" then segs[0] else buf + "," + segs[0], segs[1..])
  }

  lemma {:induction false} WrittenAfter(buf: string, segs: seq<string>)
    requires buf != ""
    ensures Written(buf, segs) == if segs == [] then buf else buf + "," + Join(segs)
    decreases |segs|
  {
    if segs != [] {
      WrittenAfter(buf + "," + segs[0], segs[1..]);
      if |segs| > 1 {
        assert buf + "," + segs[0] + "," + Join(segs[1..]) == buf + "," + (segs[0] + "," + Join(segs[1..]));
      }
    }
  }

  lemma {:induction false} WrittenFirst(segs: seq<string>)
    ensures Written("", segs) == Join(SkipEmpty(segs))
    decreases |segs|
  {
    if segs != [] {
      if segs[0] == "" {
        WrittenFirst(segs[1..]);
      } else {
        WrittenAfter(segs[0], segs[1..]);
      }
    }
  }

  lemma {:induction false} WrittenGrows(buf: string, segs: seq<string>)
    ensures |buf| <= |Written(buf, segs)|
    decreases |segs|
  {
    if segs != [] { WrittenGrows(if buf == "" then segs[0] else buf + "," + segs[0], segs[1..]); }
  }

  /** The bounded copy of one segment into the buffer. */
  method PutSegment(buf0: string, seg: string) returns (ok: bool, buf: string)
    requires |buf0| < BUF_CAP
    ensures ok <==> |Written(buf0, [seg])| < BUF_CAP
    ensures ok ==> buf == Written(buf0, [seg])
  {
    buf := buf0;
    assert [seg][1..] == [];
    if |buf| > 0 {
      if |buf| + 1 >= BUF_CAP { return false, buf; }
      buf := buf + ",";
    }
    if |buf| + |seg| >= BUF_CAP { return false, buf; }
    return true, buf + seg;
  }

  lemma {:induction false} WrittenStep(buf: string, seg: string, rest: seq<string>)
    ensures Written(buf, [seg] + rest) == Written(Written(buf, [seg]), rest)
  {
    assert ([seg] + rest)[1..] == rest && [seg][1..] == [];
  }

  lemma {:induction false} WrittenConcat(buf: string, a: seq<string>, b: seq<string>)
    ensures Written(buf, a + b) == Written(Written(buf, a), b)
    decreases |a|
  {
    if a == [] { assert a + b == b; } else {
      assert (a + b)[1..] == a[1..] + b;
      WrittenConcat(if buf == "" then a[0] else buf + "," + a[0], a[1..], b);
    }
  }

  /** All segments of the new value as the buffer sees them. */
  function ToWrite(cur: string, keyeq: string, kv: string): seq<string> {
    var segs := Segments(cur);
    Rewrite(segs, keyeq, kv) + if HasTarget(segs, keyeq) then [] else [kv]
  }

  lemma WritesResult(cur: string, keyeq: string, kv: string)
    requires kv != ""
    ensures Written("", ToWrite(cur, keyeq, kv)) == Join(Result(cur, keyeq, kv))
  {
    var segs := Segments(cur);
    var rw, tail := Rewrite(segs, keyeq, kv), if HasTarget(segs, keyeq) then [] else [kv];
    WrittenFirst(rw + tail);
    if tail == [] { assert rw + tail == rw && SkipEmpty(rw) + tail == SkipEmpty(rw); } else { SkipEmptyBefore(rw, kv); }
  }

  lemma {:induction false} SkipEmptyBefore(segs: seq<string>, kv: string)
    requires kv != ""
    ensures SkipEmpty(segs + [kv]) == SkipEmpty(segs) + [kv]
  {
    if segs != [] && segs[0] == "" {
      assert (segs + [kv])[1..] == segs[1..] + [kv];
      SkipEmptyBefore(segs[1..], kv);
    } else if segs == [] {
      assert segs + [kv] == [kv];
    }
  }

  method SetResourceAttr(cur: Option<string>, key: string, value: string) returns (next: Option<string>)
    ensures next == SetAttr(cur, key, value)
  {
    hide Segments, Written, Join, Result;
    var kv, keyeq := key + "=" + value, key + "=";
    if |kv| >= KV_CAP || |keyeq| >= KEYEQ_CAP { return cur; }
    if cur == None || cur == Some("") { return Some(kv); }
    var s := cur.value;
    WritesResult(s, keyeq, kv);
    var fits, buf, replaced := CopySegments(s, keyeq, kv);
    ghost var segs := Segments(s);
    ghost var rw := Rewrite(segs, keyeq, kv);
    WrittenConcat("", rw, if HasTarget(segs, keyeq) then [] else [kv]);
    WrittenGrows(Written("", rw), if HasTarget(segs, keyeq) then [] else [kv]);
    if !fits { return cur; }
    if !replaced {
      var ok;
      ok, buf := PutSegment(buf, kv);
      if !ok { return cur; }
    } else {
      WrittenNothing(buf);
    }
    return Some(buf);
  }

  lemma WrittenNothing(buf: string)
    ensures Written(buf, []) == buf
  {
  }

  /** The loop over the segments of the current value. */
  method CopySegments(s: string, keyeq: string, kv: string) returns (fits: bool, buf: string, replaced: bool)
    ensures var segs := Segments(s);
            && (fits <==> |Written("", Rewrite(segs, keyeq, kv))| < BUF_CAP)
            && (fits ==> buf == Written("", Rewrite(segs, keyeq, kv)) && (replaced <==> HasTarget(segs, keyeq)))
  {
    hide Written, HasTarget, SegmentLen, IsTarget;
    buf, replaced := "", false;
    var p := 0;
    ghost var goal := Written("", Rewrite(Segments(s), keyeq, kv));
    assert s[0..] == s;
    while p < |s|
      invariant 0 <= p <= |s| && |buf| < BUF_CAP
      invariant Written(buf, Rewrite(Segments(s[p..]), keyeq, kv)) == goal
      invariant replaced || HasTarget(Segments(s[p..]), keyeq) <==> HasTarget(Segments(s), keyeq)
    {
      var n := SegmentLen(s[p..]);
      var seg := s[p..p + n];
      ghost var rest := Segments(s[if p + n < |s| then p + n + 1 else |s|..]);
      SegmentsStep(s, p, n);
      RewriteStep(seg, rest, keyeq, kv);
      var isTarget := IsTarget(keyeq, seg);
      var out := if isTarget then kv else seg;
      if isTarget { replaced := true; }
      WrittenStep(buf, out, Rewrite(rest, keyeq, kv));
      WrittenGrows(Written(buf, [out]), Rewrite(rest, keyeq, kv));
      fits, buf := PutSegment(buf, out);
      if !fits { return; }
      p := if p + n < |s| then p + n + 1 else |s|;
    }
    assert s[p..] == "";
    NothingToWrite(buf, keyeq, kv);
    fits := true;
  }

  lemma NothingToWrite(buf: string, keyeq: string, kv: string)
    ensures Written(buf, Rewrite(Segments(""), keyeq, kv)) == buf && !HasTarget(Segments(""), keyeq)
  {
  }

  lemma SegmentsStep(s: string, p: nat, n: nat)
    requires p < |s| && n == SegmentLen(s[p..])
    ensures p + n <= |s|
    ensures Segments(s[p..]) == [s[p..p + n]] + Segments(s[if p + n < |s| then p + n + 1 else |s|..])
  {
    var t := s[p..];
    assert t[..n] == s[p..p + n];
    if n < |t| {
      assert t[n + 1..] == s[p + n + 1..];
    } else {
      assert s[|s|..] == "" && t == s[p..p + n];
    }
  }

  lemma RewriteStep(seg: string, rest: seq<string>, keyeq: string, kv: string)
    ensures Rewrite([seg] + rest, keyeq, kv) == [if IsTarget(keyeq, seg) then kv else seg] + Rewrite(rest, keyeq, kv)
    ensures HasTarget([seg] + rest, keyeq) <==> IsTarget(keyeq, seg) || HasTarget(rest, keyeq)
  {
    hide IsTarget;
    var all := [seg] + rest;
    if IsTarget(keyeq, seg) { assert IsTarget(keyeq, all[0]); }
    if HasTarget(rest, keyeq) {
      var i :| 0 <= i < |rest| && IsTarget(keyeq, rest[i]);
      assert IsTarget(keyeq, all[i + 1]);
    }
    if HasTarget(all, keyeq) {
      var i :| 0 <= i < |all| && IsTarget(keyeq, all[i]);
      if i > 0 { assert IsTarget(keyeq, rest[i - 1]); }
    }
  }

  // ------------------------ What the new value holds ------------------------

  predicate AllCommaFree(segs: seq<string>) {
    forall i :: 0 <= i < |segs| ==> CommaFree(segs[i])
  }

  function DropLastEmpty(segs: seq<string>): seq<string> {
    if segs != [] && segs[|segs| - 1] == "" then segs[..|segs| - 1] else segs
  }

  lemma {:induction false} SegmentsAreCommaFree(s: string)
    ensures AllCommaFree(Segments(s))
    decreases |s|
  {
    if s != "" {
      var n := SegmentLen(s);
      assert s[..|s|] == s;
      if n < |s| { SegmentsAreCommaFree(s[n + 1..]); }
    }
  }

  lemma {:induction false} SegmentLenIs(seg: string, rest: string)
    requires CommaFree(seg)
    ensures SegmentLen(seg + "," + rest) == |seg| && SegmentLen(seg) == |seg|
  {
    if seg != "" {
      assert (seg + "," + rest)[1..] == seg[1..] + "," + rest;
      SegmentLenIs(seg[1..], rest);
    }
  }

  /** Splitting undoes joining, up to one empty segment at the end. */
  lemma FirstSegment(seg: string, rest: string)
    requires CommaFree(seg)
    ensures Segments(seg + "," + rest) == [seg] + Segments(rest)
  {
    var s := seg + "," + rest;
    SegmentLenIs(seg, rest);
    hide SegmentLen;
    assert s[..|seg|] == seg && s[|seg| + 1..] == rest;
  }

  lemma LastSegment(seg: string)
    requires CommaFree(seg)
    ensures Segments(seg) == if seg == "" then [] else [seg]
  {
    SegmentLenIs(seg, "");
  }

  lemma {:induction false} SegmentsOfJoin(segs: seq<string>)
    requires AllCommaFree(segs)
    ensures Segments(Join(segs)) == DropLastEmpty(segs)
    decreases |segs|
  {
    hide SegmentLen, CommaFree;
    if |segs| == 1 {
      LastSegment(segs[0]);
      assert segs[..0] == [];
    } else if |segs| > 1 {
      var rest := Join(segs[1..]);
      var s := segs[0] + "," + rest;
      SegmentsOfJoin(segs[1..]);
      FirstSegment(segs[0], rest);
      assert Join(segs) == s;
      hide AllCommaFree, Join, Segments, SegmentLen;
      assert DropLastEmpty(segs) == [segs[0]] + DropLastEmpty(segs[1..]);
    }
  }

  lemma SkipsOneMore(segs: seq<string>, n: nat)
    requires segs != [] && segs[0] == "" && n < |segs| && forall i :: 0 <= i < n ==> segs[1..][i] == ""
    ensures segs[1..][n..] == segs[n + 1..] && forall i :: 0 <= i < n + 1 ==> segs[i] == ""
  {
    forall i | 0 <= i < n + 1 ensures segs[i] == "" {
      if i > 0 { assert segs[1..][i - 1] == segs[i]; }
    }
  }

  lemma {:induction false} SkipEmptyIs(segs: seq<string>)
    ensures exists n :: 0 <= n <= |segs| && SkipEmpty(segs) == segs[n..] && forall i :: 0 <= i < n ==> segs[i] == ""
    ensures SkipEmpty(segs) != [] ==> SkipEmpty(segs)[0] != ""
    ensures forall x :: x in SkipEmpty(segs) ==> x in segs
    ensures forall x :: x in segs && x != "" ==> x in SkipEmpty(segs)
  {
    if segs != [] && segs[0] == "" {
      var rest := segs[1..];
      SkipEmptyIs(rest);
      var n :| 0 <= n <= |rest| && SkipEmpty(rest) == rest[n..] && forall i :: 0 <= i < n ==> rest[i] == "";
      assert SkipEmpty(segs) == SkipEmpty(rest);
      hide SkipEmpty;
      SkipsOneMore(segs, n);
      forall x | x in segs && x != "" ensures x in rest { assert x != segs[0]; }
    } else {
      assert segs[0..] == segs;
    }
  }

  lemma ResultSegments(cur: string, keyeq: string, kv: string)
    requires CommaFree(kv) && keyeq <= kv && kv != ""
    ensures AllCommaFree(Result(cur, keyeq, kv)) && kv in Result(cur, keyeq, kv)
    ensures forall x :: x in Result(cur, keyeq, kv) && IsTarget(keyeq, x) ==> x == kv
    ensures Result(cur, keyeq, kv)[0] != ""
  {
    var segs := Segments(cur);
    var rw := Rewrite(segs, keyeq, kv);
    SegmentsAreCommaFree(cur);
    SkipEmptyIs(rw);
    var out := Result(cur, keyeq, kv);
    forall i | 0 <= i < |out| ensures CommaFree(out[i]) && (IsTarget(keyeq, out[i]) ==> out[i] == kv) {
      assert out[i] in rw || out[i] == kv;
    }
    if HasTarget(segs, keyeq) {
      var i :| 0 <= i < |segs| && IsTarget(keyeq, segs[i]);
      assert rw[i] == kv;
    } else {
      assert out[|out| - 1] == kv;
    }
  }

  lemma DropLastKeeps(segs: seq<string>)
    ensures forall x :: x in DropLastEmpty(segs) ==> x in segs
    ensures forall x :: x in segs && x != "" ==> x in DropLastEmpty(segs)
  {
    if segs != [] { assert segs == segs[..|segs| - 1] + [segs[|segs| - 1]]; }
  }

  predicate Fits(cur: Option<string>, key: string, value: string) {
    var kv, keyeq := key + "=" + value, key + "=";
    && |kv| < 192 && |keyeq| < 160
    && (cur == None || cur == Some("") || |Join(Result(cur.value, keyeq, kv))| < 8192)
  }

  /** The segments of the new value, whatever the old one was. */
  lemma NewSegments(cur: Option<string>, key: string, value: string)
    requires Fits(cur, key, value) && CommaFree(key + "=" + value)
    ensures SetAttr(cur, key, value).Some?
    ensures var kv, keyeq := key + "=" + value, key + "=";
            Segments(SetAttr(cur, key, value).value)
                == DropLastEmpty(Result(if cur == None then "" else cur.value, keyeq, kv))
  {
    hide Join, Segments;
    var kv, keyeq := key + "=" + value, key + "=";
    var old0 := if cur == None then "" else cur.value;
    ResultSegments(old0, keyeq, kv);
    SegmentsOfJoin(Result(old0, keyeq, kv));
    if old0 == "" { EmptyResult(keyeq, kv); }
  }

  lemma EmptyResult(keyeq: string, kv: string)
    ensures Result("", keyeq, kv) == [kv] && Join([kv]) == kv
  {
    assert Rewrite([], keyeq, kv) == [] && !HasTarget([], keyeq);
    assert [] + [kv] == [kv];
  }

  /** If the result fits, at least one segment carries the key, and all that do carry the new
      value, however many re-executions have edited the variable before. */
  lemma LatestValueEverywhere(cur: Option<string>, key: string, value: string)
    requires Fits(cur, key, value) && CommaFree(key + "=" + value)
    ensures SetAttr(cur, key, value).Some?
    ensures var segs := Segments(SetAttr(cur, key, value).value);
            && key + "=" + value in segs
            && forall x :: x in segs && key + "=" <= x ==> x == key + "=" + value
  {
    hide SetAttr, Result, Segments;
    var kv, keyeq := key + "=" + value, key + "=";
    var old0 := if cur == None then "" else cur.value;
    NewSegments(cur, key, value);
    ResultSegments(old0, keyeq, kv);
    DropLastKeeps(Result(old0, keyeq, kv));
  }

  /** Otherwise the variable stays as it is. */
  lemma UnfitLeavesIt(cur: Option<string>, key: string, value: string)
    requires !Fits(cur, key, value)
    ensures SetAttr(cur, key, value) == cur
  {
    hide Join, Result;
  }

  // ------------------------ The other segments ------------------------

  function Others(segs: seq<string>, keyeq: string): seq<string> {
    if segs == [] then []
    else (if keyeq <= segs[0] then [] else [segs[0]]) + Others(segs[1..], keyeq)
  }

  lemma {:induction false} OthersAppend(a: seq<string>, b: seq<string>, keyeq: string)
    ensures Others(a + b, keyeq) == Others(a, keyeq) + Others(b, keyeq)
  {
    hide IsTarget;
    if a == [] { assert a + b == b; } else {
      assert (a + b)[1..] == a[1..] + b;
      OthersAppend(a[1..], b, keyeq);
    }
  }

  lemma {:induction false} OthersSurviveRewrite(segs: seq<string>, keyeq: string, kv: string)
    requires keyeq <= kv && kv != "" && keyeq != ""
    ensures Others(SkipEmpty(Rewrite(segs, keyeq, kv)), keyeq) == Others(SkipEmpty(segs), keyeq)
    ensures Others(Rewrite(segs, keyeq, kv), keyeq) == Others(segs, keyeq)
  {
    if segs != [] {
      var rw := Rewrite(segs, keyeq, kv);
      assert rw[1..] == Rewrite(segs[1..], keyeq, kv);
      OthersSurviveRewrite(segs[1..], keyeq, kv);
    }
  }

  /** Segments of other keys keep their content and order, except leading empty ones and, when the
      key was present, one trailing empty one. */
  lemma OthersAreKept(cur: Option<string>, key: string, value: string)
    requires Fits(cur, key, value) && CommaFree(key + "=" + value)
    ensures SetAttr(cur, key, value).Some?
    ensures var keyeq := key + "=";
            var before := SkipEmpty(Segments(if cur == None then "" else cur.value));
            var after := Others(Segments(SetAttr(cur, key, value).value), keyeq);
            || after == Others(before, keyeq)
            || (HasTarget(before, keyeq) && before[|before| - 1] == "" && after + [""] == Others(before, keyeq))
  {
    hide SetAttr, Segments, Join, Fits, CommaFree, Others, Rewrite, SkipEmpty, HasTarget;
    var kv, keyeq := key + "=" + value, key + "=";
    var segs := Segments(if cur == None then "" else cur.value);
    var out := Result(if cur == None then "" else cur.value, keyeq, kv);
    var rw := SkipEmpty(Rewrite(segs, keyeq, kv));
    NewSegments(cur, key, value);
    OthersSurviveRewrite(segs, keyeq, kv);
    if HasTarget(segs, keyeq) {
      assert out == rw;
      if out != [] && out[|out| - 1] == "" {
        var front := out[..|out| - 1];
        assert out == front + [""];
        OthersAppend(front, [""], keyeq);
        OthersOfEmpty(keyeq);
        LastEmptyAgrees(segs, keyeq, kv);
      }
    } else {
      OthersAppend(rw, [kv], keyeq);
      OthersOfTarget(keyeq, kv);
      assert Others(rw, keyeq) + [] == Others(rw, keyeq);
    }
  }

  lemma OthersOfTarget(keyeq: string, kv: string)
    requires keyeq <= kv
    ensures Others([kv], keyeq) == []
  {
  }

  lemma OthersOfEmpty(keyeq: string)
    requires keyeq != ""
    ensures Others([""], keyeq) == [""]
  {
    assert [""][1..] == [];
  }

  lemma LastEmptyAgrees(segs: seq<string>, keyeq: string, kv: string)
    requires kv != "" && keyeq != "" && HasTarget(segs, keyeq)
    ensures HasTarget(SkipEmpty(segs), keyeq)
    ensures var a, b := SkipEmpty(Rewrite(segs, keyeq, kv)), SkipEmpty(segs);
            a != [] && b != [] && (a[|a| - 1] == "" <==> b[|b| - 1] == "")
    ensures SkipEmpty(segs)[|SkipEmpty(segs)| - 1] == segs[|segs| - 1]
  {
    hide SkipEmpty;
    var rw := Rewrite(segs, keyeq, kv);
    var i :| 0 <= i < |segs| && IsTarget(keyeq, segs[i]);
    assert segs[i] != "" && rw[i] == kv;
    assert rw[|rw| - 1] == "" <==> segs[|segs| - 1] == "";
    SkipEmptyLast(segs, i);
    SkipEmptyLast(rw, i);
    SkipEmptyIs(segs);
    assert segs[i] in SkipEmpty(segs);
    var j :| 0 <= j < |SkipEmpty(segs)| && SkipEmpty(segs)[j] == segs[i];
  }

  lemma {:induction false} SkipEmptyLast(segs: seq<string>, i: nat)
    requires i < |segs| && segs[i] != ""
    ensures SkipEmpty(segs) != [] && SkipEmpty(segs)[|SkipEmpty(segs)| - 1] == segs[|segs| - 1]
  {
    if segs[0] == "" { SkipEmptyLast(segs[1..], i - 1); }
  }

  // ------------------------ Repeating the call ------------------------

  lemma RewriteIsStable(segs: seq<string>, keyeq: string, kv: string)
    requires forall x :: x in segs && IsTarget(keyeq, x) ==> x == kv
    ensures Rewrite(segs, keyeq, kv) == segs
  {
    hide IsTarget;
    forall i | 0 <= i < |segs| ensures Rewrite(segs, keyeq, kv)[i] == segs[i] { assert segs[i] in segs; }
  }

  /** A second identical call on the value `Join(out)` yields its visited segments again. */
  lemma SecondCall(out: seq<string>, keyeq: string, kv: string)
    requires AllCommaFree(out) && kv in out && out[0] != "" && keyeq <= kv && kv != ""
    requires forall x :: x in out && IsTarget(keyeq, x) ==> x == kv
    ensures Result(Join(out), keyeq, kv) == DropLastEmpty(out)
  {
    hide Join, Segments;
    var segs := DropLastEmpty(out);
    SegmentsOfJoin(out);
    DropLastKeeps(out);
    RewriteIsStable(segs, keyeq, kv);
    var i :| 0 <= i < |segs| && segs[i] == kv;
    assert HasTarget(segs, keyeq);
    assert segs[0] == out[0];
    assert SkipEmpty(segs) == segs && segs + [] == segs;
  }

  lemma {:induction false} JoinOfDropped(out: seq<string>)
    requires |out| > 1 && out[|out| - 1] == ""
    ensures |Join(out[..|out| - 1])| + 1 == |Join(out)|
  {
    var front := out[..|out| - 1];
    if |out| == 2 {
      assert front == [out[0]] && out[1..] == [""];
    } else {
      assert front[1..] == out[1..][..|out| - 2];
      JoinOfDropped(out[1..]);
    }
  }

  /** Whether the current value has the key and ends in two commas, or is one comma after it. */
  predicate DanglingComma(cur: Option<string>, keyeq: string) {
    && cur.Some? && cur.value != ""
    && HasTarget(Segments(cur.value), keyeq)
    && Segments(cur.value)[|Segments(cur.value)| - 1] == ""
  }

  /** Setting the same value again changes nothing, with one exception: when the key was present
      and the value ended in an empty segment, each call takes one more comma off the end. */
  lemma RepeatingIsHarmlessIff(cur: Option<string>, key: string, value: string)
    requires CommaFree(key + "=" + value)
    ensures SetAttr(SetAttr(cur, key, value), key, value) == SetAttr(cur, key, value)
            <==> !(Fits(cur, key, value) && DanglingComma(cur, key + "="))
  {
    hide Join, Segments, Result, HasTarget;
    var kv, keyeq := key + "=" + value, key + "=";
    if Fits(cur, key, value) {
      if cur == None || cur == Some("") {
        SecondCallOnKv(keyeq, kv);
      } else {
        RepeatOnValue(cur.value, key, value);
      }
    } else {
      UnfitLeavesIt(cur, key, value);
    }
  }

  lemma SecondCallOnKv(keyeq: string, kv: string)
    requires CommaFree(kv) && keyeq <= kv && kv != ""
    ensures Join(Result(kv, keyeq, kv)) == kv
  {
    hide Result;
    assert Join([kv]) == kv;
    SecondCall([kv], keyeq, kv);
    assert DropLastEmpty([kv]) == [kv];
  }

  lemma RepeatOnValue(cur: string, key: string, value: string)
    requires cur != "" && Fits(Some(cur), key, value) && CommaFree(key + "=" + value)
    ensures SetAttr(SetAttr(Some(cur), key, value), key, value) == SetAttr(Some(cur), key, value)
            <==> !DanglingComma(Some(cur), key + "=")
  {
    hide Join, Segments, Result, DanglingComma, AllCommaFree, CommaFree, IsTarget;
    var kv, keyeq := key + "=" + value, key + "=";
    var out := Result(cur, keyeq, kv);
    ResultSegments(cur, keyeq, kv);
    SecondCall(out, keyeq, kv);
    EndsEmptyIff(cur, keyeq, kv);
    NonEmptyJoin(out);
    if out[|out| - 1] == "" {
      assert |out| > 1;
      JoinOfDropped(out);
    }
  }

  lemma NonEmptyJoin(out: seq<string>)
    requires out != [] && out[0] != ""
    ensures Join(out) != ""
  {
  }

  lemma EndsEmptyIff(cur: string, keyeq: string, kv: string)
    requires cur != "" && kv != "" && keyeq != "" && keyeq <= kv
    ensures var out := Result(cur, keyeq, kv);
            out != [] && (out[|out| - 1] == "" <==> DanglingComma(Some(cur), keyeq))
  {
    hide Segments;
    var segs := Segments(cur);
    if HasTarget(segs, keyeq) { LastEmptyAgrees(segs, keyeq, kv); }
  }

  /** Such a value exists: the property is false without its condition. */
  lemma DanglingCommaExample()
    ensures SetAttr(Some("k=1,,"), "k", "1") == Some("k=1,")
    ensures SetAttr(Some("k=1,"), "k", "1") == Some("k=1")
  {
    hide Segments, Join;
    var kv := "k=1";
    assert "k" + "=" + "1" == kv && "k" + "=" == "k=";
    var two, one := [kv, "", ""], [kv, ""];
    Spell();
    SegmentsOfJoin(two);
    SegmentsOfJoin(one);
    assert two[..2] == one && one[..1] == [kv];
    assert IsTarget("k=", one[0]) && IsTarget("k=", [kv][0]);
    assert Rewrite(one, "k=", kv) == one && Rewrite([kv], "k=", kv) == [kv];
    assert one + [] == one && [kv] + [] == [kv];
  }

  lemma Spell()
    ensures Join(["k=1", "", ""]) == "k=1,," && Join(["k=1", ""]) == "k=1," && Join(["k=1"]) == "k=1"
  {
    var three, two := ["k=1", "", ""], ["k=1", ""];
    assert three[1..] == ["", ""] && two[1..] == [""] && ["", ""][1..] == [""];
    assert Join([""]) == "" && Join(["", ""]) == ",";
  }
}
