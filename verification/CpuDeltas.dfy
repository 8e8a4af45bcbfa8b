/** Per-process counter deltas against a growing baseline table (wrap.c push_tree, main.c). */
module CpuDeltas {
  import opened Bytes

  type pid = int

  /** prev_sample_t. */
  datatype Baseline = Baseline(pid: pid, time: nat, seen: bool)

  /** One process in a snapshot with its accumulated CPU time. */
  datatype Sample = Sample(pid: pid, time: nat)

  predicate DistinctPids(table: seq<Baseline>) {
    forall i, j :: 0 <= i < j < |table| ==> table[i].pid != table[j].pid
  }

  /** The table as a map from pid to its last reading. */
  function Readings(table: seq<Baseline>): map<pid, nat> {
    if table == [] then map[] else Readings(table[..|table| - 1])[table[|table| - 1].pid := table[|table| - 1].time]
  }

  /** What the interval is charged: nothing for a new process or a counter that went down. */
  function Delta(known: map<pid, nat>, s: Sample): nat {
    if s.pid in known && s.time >= known[s.pid] then s.time - known[s.pid] else 0
  }

  /** The deltas of a round, each against the readings before it, and the readings after it. */
  function Deltas(known: map<pid, nat>, round: seq<Sample>): (ds: seq<nat>)
    ensures |ds| == |round|
    decreases |round|
  {
    if round == [] then [] else [Delta(known, round[0])] + Deltas(known[round[0].pid := round[0].time], round[1..])
  }

  function Updated(known: map<pid, nat>, round: seq<Sample>): map<pid, nat>
    decreases |round|
  {
    if round == [] then known else Updated(known[round[0].pid := round[0].time], round[1..])
  }

  // ------------------------ The code ------------------------

  lemma {:induction false} ReadingsAt(table: seq<Baseline>, p: pid)
    requires DistinctPids(table)
    ensures p in Readings(table) <==> exists i :: 0 <= i < |table| && table[i].pid == p
    ensures forall i :: 0 <= i < |table| && table[i].pid == p ==> Readings(table)[p] == table[i].time
  {
    if table != [] {
      var front, last := table[..|table| - 1], table[|table| - 1];
      ReadingsAt(front, p);
      if last.pid == p {
        assert table[|table| - 1].pid == p;
      } else if exists i :: 0 <= i < |front| && front[i].pid == p {
        var i :| 0 <= i < |front| && front[i].pid == p;
        assert table[i].pid == p;
      }
    }
  }

  lemma {:induction false} ReadingsSet(table: seq<Baseline>, i: nat, time: nat)
    requires i < |table| && DistinctPids(table)
    ensures var t := table[i := Baseline(table[i].pid, time, true)];
            DistinctPids(t) && Readings(t) == Readings(table)[table[i].pid := time]
  {
    var n := |table| - 1;
    var t := table[i := Baseline(table[i].pid, time, true)];
    if i == n {
      assert t[..n] == table[..n];
    } else {
      ReadingsSet(table[..n], i, time);
      assert t[..n] == table[..n][i := Baseline(table[i].pid, time, true)];
    }
  }

  lemma {:induction false} ReadingsIgnoreSeen(table: seq<Baseline>, other: seq<Baseline>)
    requires |table| == |other|
    requires forall i :: 0 <= i < |table| ==> table[i].pid == other[i].pid && table[i].time == other[i].time
    ensures Readings(table) == Readings(other)
  {
    if table != [] { ReadingsIgnoreSeen(table[..|table| - 1], other[..|other| - 1]); }
  }

  class Sampler {
    var prev: seq<Baseline>

    /** Each process ever seen stands in the table once. */
    ghost predicate Valid()
      reads this
    {
      DistinctPids(prev)
    }

    constructor ()
      ensures Valid() && prev == []
    {
      prev := [];
    }

    /** The lookup loop and the update of one process. */
    method Charge(s: Sample) returns (delta: nat)
      requires Valid()
      modifies this
      ensures Valid() && delta == Delta(old(Readings(prev)), s)
      ensures Readings(prev) == old(Readings(prev))[s.pid := s.time]
    {
      hide Readings;
      ReadingsAt(prev, s.pid);
      delta := 0;
      for p := 0 to |prev|
        invariant prev == old(prev) && delta == 0
        invariant forall i :: 0 <= i < p ==> prev[i].pid != s.pid
      {
        if prev[p].pid == s.pid {
          if s.time >= prev[p].time { delta := s.time - prev[p].time; }
          ReadingsSet(prev, p, s.time);
          prev := prev[p := Baseline(prev[p].pid, s.time, true)];
          return;
        }
      }
      ReadingsSnoc(prev, Baseline(s.pid, s.time, true));
      prev := prev + [Baseline(s.pid, s.time, true)];
    }

    /** One round of push_tree: clear the marks, then charge every process of the snapshot. */
    method Round(round: seq<Sample>) returns (deltas: seq<nat>)
      requires Valid()
      modifies this
      ensures Valid()
      ensures deltas == Deltas(old(Readings(prev)), round)
      ensures Readings(prev) == Updated(old(Readings(prev)), round)
    {
      hide Readings, Delta;
      ClearMarks();
      deltas := [];
      ghost var known := Readings(prev);
      assert round[0..] == round;
      for i := 0 to |round|
        invariant Valid()
        invariant deltas + Deltas(Readings(prev), round[i..]) == Deltas(known, round)
        invariant Updated(Readings(prev), round[i..]) == Updated(known, round)
      {
        assert round[i..][1..] == round[i + 1..];
        var d := Charge(round[i]);
        deltas := deltas + [d];
      }
    }

    /** The rounds of a whole run: what each process is charged over all of them is the total upward
        movement of its counter, starting from the reading in force. */
    method Run(rounds: seq<seq<Sample>>) returns (deltas: seq<seq<nat>>)
      requires Valid()
      modifies this
      ensures Valid()
      ensures deltas == RunDeltas(old(Readings(prev)), rounds)
      ensures forall p :: Shares(deltas, rounds, p) == Rise(Known(old(Readings(prev)), p) + History(rounds, p))
      ensures old(prev) == [] ==> forall p :: Shares(deltas, rounds, p) == Rise(History(rounds, p))
    {
      hide Readings, Deltas, Updated, Shares, Rise, Known, History, RunDeltas;
      deltas := [];
      ghost var known := Readings(prev);
      assert rounds[0..] == rounds;
      for i := 0 to |rounds|
        invariant Valid()
        invariant deltas + RunDeltas(Readings(prev), rounds[i..]) == RunDeltas(known, rounds)
      {
        RunStep(Readings(prev), rounds, i);
        ghost var next := Updated(Readings(prev), rounds[i]);
        var ds := Round(rounds[i]);
        Associates(deltas, [ds], RunDeltas(next, rounds[i + 1..]));
        deltas := deltas + [ds];
      }
      assert rounds[|rounds|..] == [] && deltas + [] == deltas;
      NoRounds(Readings(prev));
      RunTelescopes(known, rounds);
      NothingKnown();
    }

    method ClearMarks()
      requires Valid()
      modifies this
      ensures Valid() && Readings(prev) == old(Readings(prev))
      ensures forall i :: 0 <= i < |prev| ==> !prev[i].seen
    {
      hide Readings;
      for i := 0 to |prev|
        invariant |prev| == |old(prev)|
        invariant forall k :: 0 <= k < |prev| ==> prev[k].pid == old(prev)[k].pid && prev[k].time == old(prev)[k].time
        invariant forall k :: 0 <= k < i ==> !prev[k].seen
      {
        prev := prev[i := prev[i].(seen := false)];
      }
      ReadingsIgnoreSeen(prev, old(prev));
    }
  }

  lemma ReadingsSnoc(table: seq<Baseline>, b: Baseline)
    ensures Readings(table + [b]) == Readings(table)[b.pid := b.time]
  {
    assert (table + [b])[..|table|] == table;
  }

  // ------------------------ Whole runs ------------------------

  /** What one process is charged in a round. */
  function ChargedIn(known: map<pid, nat>, round: seq<Sample>, p: pid): nat
    decreases |round|
  {
    if round == [] then 0
    else (if round[0].pid == p then Delta(known, round[0]) else 0)
         + ChargedIn(known[round[0].pid := round[0].time], round[1..], p)
  }

  function Charged(known: map<pid, nat>, rounds: seq<seq<Sample>>, p: pid): nat
    decreases |rounds|
  {
    if rounds == [] then 0 else ChargedIn(known, rounds[0], p) + Charged(Updated(known, rounds[0]), rounds[1..], p)
  }

  /** The readings of one process over a run, in order. */
  function Times(round: seq<Sample>, p: pid): seq<nat> {
    if round == [] then [] else (if round[0].pid == p then [round[0].time] else []) + Times(round[1..], p)
  }

  function History(rounds: seq<seq<Sample>>, p: pid): seq<nat> {
    if rounds == [] then [] else Times(rounds[0], p) + History(rounds[1..], p)
  }

  /** Total upward movement of a counter: the sum of its rises, its falls being worth nothing. */
  function Rise(ts: seq<nat>): nat {
    if |ts| <= 1 then 0 else (if ts[1] >= ts[0] then ts[1] - ts[0] else 0) + Rise(ts[1..])
  }

  /** The reading in force for a process, as the start of its history. */
  function Known(known: map<pid, nat>, p: pid): seq<nat> {
    if p in known then [known[p]] else []
  }

  lemma {:induction false} RiseAppend(a: seq<nat>, b: seq<nat>)
    ensures Rise(a + b) == Rise(a) + Rise(if a == [] then b else [a[|a| - 1]] + b)
  {
    if |a| == 0 {
      assert a + b == b;
    } else if |a| == 1 {
      assert a == [a[0]];
    } else {
      assert (a + b)[1..] == a[1..] + b && a[1..] != [];
      assert a[1..][|a| - 2] == a[|a| - 1];
      RiseAppend(a[1..], b);
    }
  }

  lemma FirstCharge(known: map<pid, nat>, s: Sample, ts: seq<nat>)
    ensures Delta(known, s) + Rise([s.time] + ts) == Rise(Known(known, s.pid) + ([s.time] + ts))
  {
    var tail := [s.time] + ts;
    if s.pid in known {
      assert (Known(known, s.pid) + tail)[1..] == tail;
    } else {
      assert [] + tail == tail;
    }
  }

  /** The reading in force after a round is the last one of the history so far. */
  function Latest(ts: seq<nat>): seq<nat> {
    if ts == [] then [] else [ts[|ts| - 1]]
  }

  lemma {:induction false} RoundTelescopes(known: map<pid, nat>, round: seq<Sample>, p: pid)
    ensures ChargedIn(known, round, p) == Rise(Known(known, p) + Times(round, p))
    decreases |round|
  {
    hide Rise, Delta;
    if round == [] {
      assert Known(known, p) + [] == Known(known, p);
      RiseOfOne(Known(known, p));
    } else {
      var s, ts := round[0], Times(round[1..], p);
      var next := known[s.pid := s.time];
      RoundTelescopes(next, round[1..], p);
      if s.pid == p {
        FirstCharge(known, s, ts);
      } else {
        assert Times(round, p) == ts;
      }
    }
  }

  lemma {:induction false} RoundLeaves(known: map<pid, nat>, round: seq<Sample>, p: pid)
    ensures Known(Updated(known, round), p) == Latest(Known(known, p) + Times(round, p))
    decreases |round|
  {
    if round == [] {
      assert Known(known, p) + [] == Known(known, p);
    } else {
      var s, ts := round[0], Times(round[1..], p);
      RoundLeaves(known[s.pid := s.time], round[1..], p);
      if s.pid != p { assert Times(round, p) == ts; }
    }
  }

  /** Over any run, what a process was charged is the total upward movement of its counter: a
      reading that drops contributes nothing and becomes the new base. */
  lemma {:induction false} DeltasTelescope(known: map<pid, nat>, rounds: seq<seq<Sample>>, p: pid)
    ensures Charged(known, rounds, p) == Rise(Known(known, p) + History(rounds, p))
    decreases |rounds|
  {
    hide Rise, Known, Times, ChargedIn, Updated;
    if rounds == [] {
      KnownIsShort(known, p);
      RiseOfOne(Known(known, p));
      assert Known(known, p) + [] == Known(known, p);
    } else {
      var a, b := Known(known, p) + Times(rounds[0], p), History(rounds[1..], p);
      RoundTelescopes(known, rounds[0], p);
      RoundLeaves(known, rounds[0], p);
      DeltasTelescope(Updated(known, rounds[0]), rounds[1..], p);
      RiseAppend(a, b);
      assert [] + b == b;
      Associates(Known(known, p), Times(rounds[0], p), b);
    }
  }

  lemma KnownIsShort(known: map<pid, nat>, p: pid)
    ensures |Known(known, p)| <= 1
  {
  }

  lemma RiseOfOne(ts: seq<nat>)
    requires |ts| <= 1
    ensures Rise(ts) == 0
  {
  }

  /** When the counter never drops, the deltas add up to last minus first. */
  lemma {:induction false} SteadyRise(ts: seq<nat>)
    requires ts != [] && forall i, j :: 0 <= i < j < |ts| ==> ts[i] <= ts[j]
    ensures ts[0] <= ts[|ts| - 1] && Rise(ts) == ts[|ts| - 1] - ts[0]
  {
    if |ts| > 1 { SteadyRise(ts[1..]); }
  }

  /** The part of a round's deltas that belongs to one process. */
  function Share(deltas: seq<nat>, round: seq<Sample>, p: pid): nat
    requires |deltas| == |round|
  {
    if round == [] then 0 else (if round[0].pid == p then deltas[0] else 0) + Share(deltas[1..], round[1..], p)
  }

  lemma {:induction false} ShareIsCharged(known: map<pid, nat>, round: seq<Sample>, p: pid)
    ensures Share(Deltas(known, round), round, p) == ChargedIn(known, round, p)
    decreases |round|
  {
    hide Delta;
    if round != [] {
      var next := known[round[0].pid := round[0].time];
      ShareIsCharged(next, round[1..], p);
      assert Deltas(known, round)[1..] == Deltas(next, round[1..]);
    }
  }

  /** The deltas of several rounds, each against the readings left by the one before. */
  function RunDeltas(known: map<pid, nat>, rounds: seq<seq<Sample>>): (ds: seq<seq<nat>>)
    ensures |ds| == |rounds| && forall i :: 0 <= i < |ds| ==> |ds[i]| == |rounds[i]|
    decreases |rounds|
  {
    if rounds == [] then []
    else [Deltas(known, rounds[0])] + RunDeltas(Updated(known, rounds[0]), rounds[1..])
  }

  /** What the deltas of a run add up to for one process. */
  function Shares(deltas: seq<seq<nat>>, rounds: seq<seq<Sample>>, p: pid): nat
    requires |deltas| == |rounds| && forall i :: 0 <= i < |deltas| ==> |deltas[i]| == |rounds[i]|
  {
    if rounds == [] then 0 else Share(deltas[0], rounds[0], p) + Shares(deltas[1..], rounds[1..], p)
  }

  lemma {:induction false} SharesAreCharged(known: map<pid, nat>, rounds: seq<seq<Sample>>, p: pid)
    ensures Shares(RunDeltas(known, rounds), rounds, p) == Charged(known, rounds, p)
    decreases |rounds|
  {
    hide Deltas, Updated, Share, ChargedIn;
    if rounds != [] {
      var next := Updated(known, rounds[0]);
      ShareIsCharged(known, rounds[0], p);
      SharesAreCharged(next, rounds[1..], p);
      assert RunDeltas(known, rounds)[1..] == RunDeltas(next, rounds[1..]);
    }
  }

  lemma RunStep(known: map<pid, nat>, rounds: seq<seq<Sample>>, i: nat)
    requires i < |rounds|
    ensures RunDeltas(known, rounds[i..])
            == [Deltas(known, rounds[i])] + RunDeltas(Updated(known, rounds[i]), rounds[i + 1..])
  {
    assert rounds[i..][1..] == rounds[i + 1..];
  }

  lemma NoRounds(known: map<pid, nat>)
    ensures RunDeltas(known, []) == []
  {
  }

  lemma RunTelescopes(known: map<pid, nat>, rounds: seq<seq<Sample>>)
    ensures forall p :: Shares(RunDeltas(known, rounds), rounds, p) == Rise(Known(known, p) + History(rounds, p))
    ensures known == map[] ==> forall p :: Shares(RunDeltas(known, rounds), rounds, p) == Rise(History(rounds, p))
  {
    hide RunDeltas, Shares, Rise, History;
    forall p
      ensures Shares(RunDeltas(known, rounds), rounds, p) == Rise(Known(known, p) + History(rounds, p))
      ensures known == map[] ==> Shares(RunDeltas(known, rounds), rounds, p) == Rise(History(rounds, p))
    {
      SharesAreCharged(known, rounds, p);
      DeltasTelescope(known, rounds, p);
      assert [] + History(rounds, p) == History(rounds, p);
    }
  }

  lemma NothingKnown()
    ensures Readings([]) == map[]
  {
  }
}
