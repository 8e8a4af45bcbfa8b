/** Rows handed one by one to a caller's sink, which may stop the walk: what is delivered, what
    is counted and what is returned. Shared by the trace and the metric decoder. */
module Delivery {

  /** The caller's callback. Its answer to a call may depend on everything it was given. */
  class Sink<!R> {
    const verdict: seq<R> -> int
    var calls: seq<R>

    constructor (verdict: seq<R> -> int)
      ensures this.verdict == verdict && calls == []
    {
      this.verdict, calls := verdict, [];
    }

    method Call(row: R) returns (rc: int)
      modifies this
      ensures calls == old(calls) + [row] && rc == verdict(calls)
    {
      calls := calls + [row];
      rc := verdict(calls);
    }
  }

  /** What a walk would hand to a sink that never stops it, and whether it ran to its end. */
  datatype Out<R> = Out(rows: seq<R>, ok: bool)

  function Then<R>(a: Out<R>, b: Out<R>): Out<R> {
    if a.ok then Out(a.rows + b.rows, b.ok) else a
  }

  /** How many rows are accepted before the first refusal. */
  function Accepted<R>(verdict: seq<R> -> int, hist: seq<R>, rows: seq<R>): (n: nat)
    ensures n <= |rows|
    decreases |rows|
  {
    if rows == [] || verdict(hist + [rows[0]]) != 0 then 0
    else 1 + Accepted(verdict, hist + [rows[0]], rows[1..])
  }

  function Sign(rc: int): int {
    if rc < 0 then -1 else if rc > 0 then 1 else 0
  }

  /** A walk with outcome `out`, started after the calls `hist`, left the sink at `after`,
      accepted `added` rows and returned `rc`. */
  predicate Delivered<R(==)>(verdict: seq<R> -> int, hist: seq<R>, out: Out<R>, rc: int, after: seq<R>, added: int) {
    && added == Accepted(verdict, hist, out.rows)
    && if added == |out.rows| then after == hist + out.rows && rc == (if out.ok then 0 else -1)
       else after == hist + out.rows[..added + 1] && rc == Sign(verdict(after))
  }

  lemma {:induction false} AcceptedConcat<R>(verdict: seq<R> -> int, hist: seq<R>, a: seq<R>, b: seq<R>)
    ensures Accepted(verdict, hist, a) < |a| ==> Accepted(verdict, hist, a + b) == Accepted(verdict, hist, a)
    ensures Accepted(verdict, hist, a) == |a| ==>
              Accepted(verdict, hist, a + b) == |a| + Accepted(verdict, hist + a, b)
    decreases |a|
  {
    if a == [] {
      assert a + b == b && hist + a == hist;
    } else {
      assert (a + b)[1..] == a[1..] + b;
      assert hist + [a[0]] + a[1..] == hist + a;
      AcceptedConcat(verdict, hist + [a[0]], a[1..], b);
    }
  }

  /** At the first refusal the sink answered with something other than 0. */
  lemma {:induction false} RefusedAt<R>(verdict: seq<R> -> int, hist: seq<R>, rows: seq<R>)
    requires Accepted(verdict, hist, rows) < |rows|
    ensures verdict(hist + rows[..Accepted(verdict, hist, rows) + 1]) != 0
    decreases |rows|
  {
    if verdict(hist + [rows[0]]) != 0 {
      assert rows[..1] == [rows[0]];
    } else {
      RefusedAt(verdict, hist + [rows[0]], rows[1..]);
      var k := Accepted(verdict, hist + [rows[0]], rows[1..]);
      assert hist + [rows[0]] + rows[1..][..k + 1] == hist + rows[..k + 2];
    }
  }

  /** Once a walk has been stopped, what would have followed makes no difference. */
  lemma StoppedIsFinal<R>(verdict: seq<R> -> int, hist: seq<R>, a: Out<R>, b: Out<R>, rc: int, after: seq<R>,
                          added: int)
    requires Delivered(verdict, hist, a, rc, after, added) && rc != 0
    ensures Delivered(verdict, hist, Then(a, b), rc, after, added)
  {
    if a.ok {
      AcceptedConcat(verdict, hist, a.rows, b.rows);
      assert (a.rows + b.rows)[..added + 1] == a.rows[..added + 1];
    }
  }

  /** A walk that was not stopped is continued by the next one. */
  lemma Continues<R>(verdict: seq<R> -> int, hist: seq<R>, a: Out<R>, mid: seq<R>, n: int,
                     b: Out<R>, rc: int, after: seq<R>, added: int)
    requires Delivered(verdict, hist, a, 0, mid, n)
    requires Delivered(verdict, mid, b, rc, after, added)
    ensures Delivered(verdict, hist, Then(a, b), rc, after, n + added)
  {
    if n < |a.rows| { RefusedAt(verdict, hist, a.rows); }
    AcceptedConcat(verdict, hist, a.rows, b.rows);
    assert hist + a.rows + b.rows == hist + (a.rows + b.rows);
    if added < |b.rows| {
      assert (a.rows + b.rows)[..n + added + 1] == a.rows + b.rows[..added + 1];
      assert hist + a.rows + b.rows[..added + 1] == hist + (a.rows + b.rows[..added + 1]);
    }
  }

  lemma NothingDelivered<R>(verdict: seq<R> -> int, hist: seq<R>)
    ensures Delivered(verdict, hist, Out([], true), 0, hist, 0)
    ensures Delivered(verdict, hist, Out([], false), -1, hist, 0)
  {
    assert hist + [] == hist;
  }

  lemma OneDelivered<R>(verdict: seq<R> -> int, hist: seq<R>, row: R)
    ensures var v := verdict(hist + [row]);
            Delivered(verdict, hist, Out([row], true), Sign(v), hist + [row], if v == 0 then 1 else 0)
  {
    assert [row][..1] == [row] && [row][1..] == [];
  }

  /** A walk that emits one row or fails before it, seen as a delivery. */
  lemma OneWalked<R>(verdict: seq<R> -> int, hist: seq<R>, one: Out<R>, rc: int, after: seq<R>)
    requires |one.rows| == if one.ok then 1 else 0
    requires if one.ok then after == hist + one.rows && rc == verdict(after) else after == hist && rc == -1
    ensures Delivered(verdict, hist, one, Sign(rc), after, if rc == 0 then 1 else 0)
  {
    if one.ok {
      assert one == Out([one.rows[0]], true);
      OneDelivered(verdict, hist, one.rows[0]);
    } else {
      assert one == Out([], false);
      NothingDelivered(verdict, hist);
    }
  }

  lemma ThenAssociates<R>(a: Out<R>, b: Out<R>, c: Out<R>)
    ensures Then(Then(a, b), c) == Then(a, Then(b, c))
  {
    if a.ok && b.ok { assert a.rows + b.rows + c.rows == a.rows + (b.rows + c.rows); }
  }

  lemma ThenNothing<R>(a: Out<R>)
    ensures Then(Out([], true), a) == a
    ensures a.ok ==> Then(a, Out([], true)) == a
  {
    assert [] + a.rows == a.rows && a.rows + [] == a.rows;
  }

  /** One step of a walk: `done` is behind, `one` was just walked, `rest` is still ahead. */
  lemma Absorb<R>(verdict: seq<R> -> int, hist: seq<R>, done: Out<R>, mid: seq<R>, n: int,
                  one: Out<R>, rc: int, after: seq<R>, added: int, rest: Out<R>)
    requires Delivered(verdict, hist, done, 0, mid, n)
    requires Delivered(verdict, mid, one, rc, after, added)
    ensures Delivered(verdict, hist, Then(done, one), rc, after, n + added)
    ensures Then(Then(done, one), rest) == Then(done, Then(one, rest))
    ensures rc != 0 ==> Delivered(verdict, hist, Then(done, Then(one, rest)), rc, after, n + added)
  {
    hide Delivered, Then;
    Continues(verdict, hist, done, mid, n, one, rc, after, added);
    ThenAssociates(done, one, rest);
    if rc != 0 { StoppedIsFinal(verdict, hist, Then(done, one), rest, rc, after, n + added); }
  }

  /** The end of a walk over a message whose last payload was, or was not, readable. */
  lemma Ends<R>(verdict: seq<R> -> int, hist: seq<R>, done: Out<R>, after: seq<R>, n: int)
    requires Delivered(verdict, hist, done, 0, after, n)
    ensures Delivered(verdict, hist, Then(done, Out([], true)), 0, after, n)
    ensures Delivered(verdict, hist, Then(done, Out([], false)), -1, after, n)
  {
    hide Delivered, Then;
    NothingDelivered(verdict, after);
    Continues(verdict, hist, done, after, n, Out([], true), 0, after, 0);
    Continues(verdict, hist, done, after, n, Out([], false), -1, after, 0);
  }

  // ------------------------ Accounting ------------------------

  function ZeroAnswers<R>(verdict: seq<R> -> int, calls: seq<R>, from: nat): nat
    requires from <= |calls|
    decreases |calls|
  {
    if |calls| == from then 0
    else ZeroAnswers(verdict, calls[..|calls| - 1], from) + if verdict(calls) == 0 then 1 else 0
  }

  lemma {:induction false} AcceptedAreZeros<R>(verdict: seq<R> -> int, hist: seq<R>, rows: seq<R>, k: nat)
    requires k < Accepted(verdict, hist, rows)
    ensures verdict(hist + rows[..k + 1]) == 0
    decreases k
  {
    if k == 0 {
      assert rows[..1] == [rows[0]];
    } else {
      AcceptedAreZeros(verdict, hist + [rows[0]], rows[1..], k - 1);
      assert hist + [rows[0]] + rows[1..][..k] == hist + rows[..k + 1];
    }
  }

  lemma {:induction false} ZeroRun<R>(verdict: seq<R> -> int, hist: seq<R>, rows: seq<R>, k: nat)
    requires k <= Accepted(verdict, hist, rows)
    ensures ZeroAnswers(verdict, hist + rows[..k], |hist|) == k
    decreases k
  {
    if k > 0 {
      ZeroRun(verdict, hist, rows, k - 1);
      AcceptedAreZeros(verdict, hist, rows, k - 1);
      assert (hist + rows[..k])[..|hist| + k - 1] == hist + rows[..k - 1];
    }
  }

  lemma PartIsPrefix<R>(hist: seq<R>, rows: seq<R>, n: nat)
    requires n <= |rows|
    ensures hist <= hist + rows[..n] <= hist + rows
  {
  }

  lemma CountIsZeros<R>(verdict: seq<R> -> int, hist: seq<R>, rows: seq<R>)
    ensures var n := Accepted(verdict, hist, rows);
            && (n == |rows| ==> ZeroAnswers(verdict, hist + rows, |hist|) == n)
            && (n < |rows| ==> ZeroAnswers(verdict, hist + rows[..n + 1], |hist|) == n)
            && (n < |rows| ==> verdict(hist + rows[..n + 1]) != 0)
  {
    hide Accepted;
    var n := Accepted(verdict, hist, rows);
    ZeroRun(verdict, hist, rows, n);
    if n < |rows| {
      RefusedAt(verdict, hist, rows);
      assert (hist + rows[..n + 1])[..|hist| + n] == hist + rows[..n];
    } else {
      assert rows[..n] == rows;
    }
  }

  /** The books balance: the count is the number of calls answered 0, every call but the last
      was answered 0, and the sink got a prefix of the rows. */
  lemma Accounting<R>(verdict: seq<R> -> int, hist: seq<R>, out: Out<R>, rc: int, after: seq<R>, added: int)
    requires Delivered(verdict, hist, out, rc, after, added)
    ensures hist <= after <= hist + out.rows
    ensures added == ZeroAnswers(verdict, after, |hist|)
    ensures forall k :: |hist| < k < |after| ==> verdict(after[..k]) == 0
    ensures |after| - |hist| <= added + 1
    ensures rc == 0 ==> after == hist + out.rows && added == |out.rows|
  {
    hide Accepted, ZeroAnswers;
    var rows := out.rows;
    var seen := if added == |rows| then |rows| else added + 1;
    assert rows[..|rows|] == rows;
    assert after == hist + rows[..seen];
    PartIsPrefix(hist, rows, seen);
    CountIsZeros(verdict, hist, rows);
    forall k | |hist| < k < |after| ensures verdict(after[..k]) == 0 {
      AcceptedAreZeros(verdict, hist, rows, k - |hist| - 1);
      assert after[..k] == hist + rows[..k - |hist|];
    }
  }

  /** What the decoders return: the number of calls answered 0, or -1 for a failure before any. */
  lemma ResultIsHonest<R>(verdict: seq<R> -> int, hist: seq<R>, out: Out<R>, rc: int, after: seq<R>, count: int,
                          result: int)
    requires Delivered(verdict, hist, out, rc, after, count)
    requires result == if rc < 0 && count == 0 then -1 else count
    ensures result == -1 ==> ZeroAnswers(verdict, after, |hist|) == 0
    ensures result >= 0 ==> result == ZeroAnswers(verdict, after, |hist|)
    ensures forall k :: |hist| < k < |after| ==> verdict(after[..k]) == 0
    ensures hist <= after <= hist + out.rows
  {
    hide Delivered, ZeroAnswers;
    Accounting(verdict, hist, out, rc, after, count);
  }
}
