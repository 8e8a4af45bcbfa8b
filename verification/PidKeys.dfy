/** pw_attach_pid_key_to_otel: two resource attributes with one value, set at every re-execution. */
module PidKeys {
  import opened Bytes
  import opened ResourceAttributes

  const PID_KEY := "procwatch.pid_key"
  const INSTANCE := "service.instance.id"

  function AttachPidKey(cur: Option<string>, value: string): Option<string> {
    SetAttr(SetAttr(cur, PID_KEY, value), INSTANCE, value)
  }

  /** The variable after a chain of re-executions, each with its own value. */
  function Chain(cur: Option<string>, values: seq<string>): Option<string>
    decreases |values|
  {
    if values == [] then cur else Chain(AttachPidKey(cur, values[0]), values[1..])
  }

  /** At least one segment has the key, and all that do carry the value. */
  predicate Carries(cur: Option<string>, key: string, value: string) {
    && cur.Some?
    && key + "=" + value in Segments(cur.value)
    && forall x :: x in Segments(cur.value) && key + "=" <= x ==> x == key + "=" + value
  }

  lemma {:induction false} OthersAre(segs: seq<string>, keyeq: string, x: string)
    ensures x in Others(segs, keyeq) <==> x in segs && !(keyeq <= x)
  {
    if segs != [] {
      OthersAre(segs[1..], keyeq, x);
      assert segs == [segs[0]] + segs[1..];
    }
  }

  /** Setting one key leaves the segments of the others as they are. */
  lemma OtherKeyStays(cur: Option<string>, key: string, value: string, x: string)
    requires cur.Some? && Fits(cur, key, value) && CommaFree(key + "=" + value) && x != "" && !(key + "=" <= x)
    ensures SetAttr(cur, key, value).Some?
    ensures x in Segments(SetAttr(cur, key, value).value) <==> x in Segments(cur.value)
  {
    hide SetAttr, Segments, Fits, CommaFree, Others, SkipEmpty;
    var keyeq := key + "=";
    OthersAreKept(cur, key, value);
    var before, after := SkipEmpty(Segments(cur.value)), Others(Segments(SetAttr(cur, key, value).value), keyeq);
    OthersAre(before, keyeq, x);
    OthersAre(Segments(SetAttr(cur, key, value).value), keyeq, x);
    SkipEmptyIs(Segments(cur.value));
    assert x in after + [""] <==> x in after;
  }

  lemma KeysDiffer(x: string)
    ensures !(PID_KEY + "=" <= x && INSTANCE + "=" <= x)
  {
    assert (PID_KEY + "=")[0] == 'p' && (INSTANCE + "=")[0] == 's';
  }

  /** After a call whose results fit, both keys carry the new value and no older one. */
  lemma BothCarry(cur: Option<string>, value: string)
    requires CommaFree(PID_KEY + "=" + value) && CommaFree(INSTANCE + "=" + value)
    requires Fits(cur, PID_KEY, value) && Fits(SetAttr(cur, PID_KEY, value), INSTANCE, value)
    ensures Carries(AttachPidKey(cur, value), PID_KEY, value) && Carries(AttachPidKey(cur, value), INSTANCE, value)
  {
    hide SetAttr, Segments, Fits, CommaFree, PID_KEY, INSTANCE;
    var mid, kv := SetAttr(cur, PID_KEY, value), PID_KEY + "=" + value;
    LatestValueEverywhere(cur, PID_KEY, value);
    LatestValueEverywhere(mid, INSTANCE, value);
    forall x | x != "" && PID_KEY + "=" <= x
      ensures x in Segments(SetAttr(mid, INSTANCE, value).value) <==> x in Segments(mid.value)
    {
      KeysDiffer(x);
      OtherKeyStays(mid, INSTANCE, value, x);
    }
    TargetOfItself(PID_KEY + "=", value);
    EmptyIsNoTarget(PID_KEY);
  }

  lemma TargetOfItself(keyeq: string, value: string)
    ensures keyeq <= keyeq + value
  {
  }

  lemma EmptyIsNoTarget(key: string)
    ensures !(key + "=" <= "") && key + "=" != ""
  {
  }

  /** If only the first result fits, the two keys no longer agree: the call stops halfway. */
  lemma Halfway(cur: Option<string>, value: string)
    requires CommaFree(PID_KEY + "=" + value)
    requires Fits(cur, PID_KEY, value) && !Fits(SetAttr(cur, PID_KEY, value), INSTANCE, value)
    ensures AttachPidKey(cur, value) == SetAttr(cur, PID_KEY, value)
            && Carries(AttachPidKey(cur, value), PID_KEY, value)
    ensures forall x | x != "" && INSTANCE + "=" <= x ::
              x in Segments(AttachPidKey(cur, value).value)
              <==> x in Segments(if cur == None then "" else cur.value)
  {
    hide SetAttr, Segments, Fits, CommaFree, PID_KEY, INSTANCE;
    LatestValueEverywhere(cur, PID_KEY, value);
    UnfitLeavesIt(SetAttr(cur, PID_KEY, value), INSTANCE, value);
    forall x | x != "" && INSTANCE + "=" <= x
      ensures x in Segments(SetAttr(cur, PID_KEY, value).value)
              <==> x in Segments(if cur == None then "" else cur.value)
    {
      KeysDiffer(x);
      if cur.Some? { OtherKeyStays(cur, PID_KEY, value, x); } else { FirstSet(PID_KEY, value, x); }
    }
  }

  lemma FirstSet(key: string, value: string, x: string)
    requires Fits(None, key, value) && CommaFree(key + "=" + value) && x != "" && !(key + "=" <= x)
    ensures x !in Segments(SetAttr(None, key, value).value) && x !in Segments("")
  {
    hide Segments, SkipEmpty, Others;
    OthersAreKept(None, key, value);
    var after := Segments(SetAttr(None, key, value).value);
    OthersAre(after, key + "=", x);
    OthersAre(SkipEmpty(Segments("")), key + "=", x);
    SkipEmptyIs(Segments(""));
    NoSegments();
    assert x in Others(after, key + "=") + [""] <==> x in Others(after, key + "=");
  }

  lemma NoSegments()
    ensures Segments("") == []
  {
  }

  lemma {:induction false} ChainSnoc(cur: Option<string>, values: seq<string>, value: string)
    ensures Chain(cur, values + [value]) == AttachPidKey(Chain(cur, values), value)
    decreases |values|
  {
    hide AttachPidKey;
    if values == [] {
      assert [] + [value] == [value] && [value][1..] == [];
    } else {
      assert (values + [value])[1..] == values[1..] + [value];
      ChainSnoc(AttachPidKey(cur, values[0]), values[1..], value);
    }
  }

  /** However many re-executions came before, after the last one both keys carry its value alone. */
  lemma LastExecutionCounts(cur: Option<string>, values: seq<string>, value: string)
    requires CommaFree(PID_KEY + "=" + value) && CommaFree(INSTANCE + "=" + value)
    requires Fits(Chain(cur, values), PID_KEY, value)
    requires Fits(SetAttr(Chain(cur, values), PID_KEY, value), INSTANCE, value)
    ensures var now := Chain(cur, values + [value]);
            Carries(now, "procwatch.pid_key", value) && Carries(now, "service.instance.id", value)
  {
    hide SetAttr, Fits, CommaFree, Chain, Carries;
    ChainSnoc(cur, values, value);
    BothCarry(Chain(cur, values), value);
  }
}
