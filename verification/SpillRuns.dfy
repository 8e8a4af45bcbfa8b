/** The spill queue over whole runs: spills and flushes in any order, any answers, any faults. */
module SpillRuns {
  import opened Bytes
  import opened SpillQueue

  /** A spill may fail to open its file, or write only the first `written` characters of its line. */
  datatype Op = SpillOp(line: string, opens: bool, written: nat) | FlushOp(cb: Callback, faults: Faults)

  function Spilled(line: string): Op {
    SpillOp(line, true, |line| + 1)
  }

  /** The queue with its history: every record reported as spilled, every record handed to the
      callback and accepted, and those of the latter that left the queue by it. */
  datatype Queue = Queue(files: Files, ever: seq<string>, done: seq<string>, acked: seq<string>)

  const EMPTY := Queue(Files(None, None, None), [], [], [])

  function Step(q: Queue, op: Op): Queue {
    match op
    case SpillOp(line, opens, written) =>
      if !opens then q
      else q.(files := q.files.(spill := Some(Content(q.files.spill) + Take(line + "\n", written))),
              ever := if written > |line| then q.ever + [line] else q.ever)
    case FlushOp(cb, faults) =>
      var o := Flush(q.files, cb, faults);
      Queue(o.files, q.ever + o.arrived, q.done + o.consumed, q.acked + Take(o.consumed, o.advanced))
  }

  function Run(q: Queue, ops: seq<Op>): Queue
    decreases |ops|
  {
    if ops == [] then q else Run(Step(q, ops[0]), ops[1..])
  }

  /** What is spilled are records: lines without breaks. */
  predicate WellFormed(q: Queue, op: Op) {
    match op
    case SpillOp(line, _, _) => IsRecord(line)
    case FlushOp(cb, faults) => ArrivesWell(q.files, cb, faults)
  }

  /** No line is torn, and no records are stranded, left unread or cut. */
  predicate Sound(q: Queue, op: Op) {
    match op
    case SpillOp(line, opens, written) => opens ==> written == 0 || written > |line|
    case FlushOp(cb, faults) =>
      && !Stranded(q.files, cb, faults)
      && LeavesNoneUnread(q.files, cb, faults)
      && KeepsRemainder(q.files, cb, faults)
      && (KeepsArrivals(q.files, cb, faults) || Flush(q.files, cb, faults).arrived == [])
  }

  /** What left the queue and what the spill file holds are all records ever spilled, in order, and
      what left it was accepted by the callback. */
  predicate Intact(q: Queue) {
    && Terminated(Content(q.files.spill))
    && q.ever == q.acked + Records(Content(q.files.spill))
    && multiset(q.acked) <= multiset(q.done)
  }

  // ------------------------ One step ------------------------

  lemma SpillKeeps(q: Queue, line: string)
    requires Intact(q) && IsRecord(line)
    ensures Intact(Step(q, Spilled(line)))
  {
    hide Records;
    assert Take(line + "\n", |line| + 1) == line + "\n";
    OneRecord(line);
    RecordsAppend(Content(q.files.spill), line + "\n");
    Associates(q.acked, Records(Content(q.files.spill)), [line]);
  }

  lemma FailedSpill(q: Queue, line: string, opens: bool, written: nat)
    requires Intact(q) && IsRecord(line) && written <= |line|
    ensures Intact(Step(q, SpillOp(line, opens, written))) <==> !opens || written == 0
    ensures opens && written == 0
            ==> Content(Step(q, SpillOp(line, opens, written)).files.spill) == Content(q.files.spill)
  {
    hide Records;
    if opens {
      var piece := Take(line + "\n", written);
      assert piece == line[..written];
      if written == 0 {
        assert Content(q.files.spill) + piece == Content(q.files.spill);
      } else {
        TornSpill(Content(q.files.spill), line, written, line);
      }
    }
  }

  lemma SpillIsSoundIff(q: Queue, line: string, opens: bool, written: nat)
    requires Intact(q) && IsRecord(line)
    ensures Intact(Step(q, SpillOp(line, opens, written))) <==> Sound(q, SpillOp(line, opens, written))
  {
    hide Intact, IsRecord;
    if opens && written > |line| {
      SpillKeeps(q, line);
      assert Take(line + "\n", written) == line + "\n" == Take(line + "\n", |line| + 1);
    } else if written <= |line| {
      FailedSpill(q, line, opens, written);
    }
  }

  lemma FlushIsSoundIff(q: Queue, cb: Callback, faults: Faults)
    requires Intact(q) && ArrivesWell(q.files, cb, faults)
    ensures Intact(Step(q, FlushOp(cb, faults))) <==> Sound(q, FlushOp(cb, faults))
  {
    hide Records, Flush, KeepsArrivals, KeepsRemainder, LeavesNoneUnread, Stranded, ArrivesWell, Terminated, Complete;
    var o := Flush(q.files, cb, faults);
    FlushLosesNothingIff(q.files, cb, faults);
    FlushConsumesFront(q.files, cb, faults);
    IntactAfter(q, o);
    hide Intact;
  }

  lemma IntactAfter(q: Queue, o: Outcome)
    requires Intact(q) && (o.advanced == 0 || o.advanced == |o.consumed|)
    ensures Intact(Queue(o.files, q.ever + o.arrived, q.done + o.consumed, q.acked + Take(o.consumed, o.advanced)))
            <==> Complete(o, Records(Content(q.files.spill)))
  {
    hide Records, Terminated;
    var before, now := Records(Content(q.files.spill)), Records(Content(o.files.spill));
    var taken := Take(o.consumed, o.advanced);
    assert taken == o.consumed[..o.advanced];
    Associates(q.acked, before, o.arrived);
    Associates(q.acked, taken, now);
    SplitEqual(q.acked, before + o.arrived, q.acked, taken + now);
    assert multiset(q.acked + taken) <= multiset(q.done + o.consumed) by {
      assert taken == [] || taken == o.consumed;
    }
  }

  /** One step keeps the queue intact if and only if it is sound. */
  lemma StepIsSoundIff(q: Queue, op: Op)
    requires Intact(q) && WellFormed(q, op)
    ensures Intact(Step(q, op)) <==> Sound(q, op)
  {
    hide Intact, Step, Sound, IsRecord, ArrivesWell;
    match op
    case SpillOp(line, opens, written) => SpillIsSoundIff(q, line, opens, written);
    case FlushOp(cb, faults) => FlushIsSoundIff(q, cb, faults);
  }

  // ------------------------ Leftovers ------------------------

  /** A claim left behind holds only records that were consumed or are still in the spill file,
      and no remainder is ever left behind. */
  predicate Covered(q: Queue) {
    && (forall r :: r in Records(Content(q.files.claim)) ==> r in q.done || r in Records(Content(q.files.spill)))
    && q.files.rest.None?
  }

  lemma SpillCovers(q: Queue, line: string, opens: bool, written: nat)
    requires Intact(q) && Covered(q) && IsRecord(line) && Sound(q, SpillOp(line, opens, written))
    ensures Covered(Step(q, SpillOp(line, opens, written)))
  {
    hide Records;
    if opens && written > |line| {
      assert Take(line + "\n", written) == line + "\n";
      RecordsAppend(Content(q.files.spill), line + "\n");
    } else if opens {
      FailedSpill(q, line, opens, written);
    }
  }

  lemma FlushCovers(q: Queue, cb: Callback, faults: Faults)
    requires Intact(q) && Covered(q) && Sound(q, FlushOp(cb, faults)) && ArrivesWell(q.files, cb, faults)
    ensures Covered(Step(q, FlushOp(cb, faults)))
  {
    hide Records, KeepsArrivals, KeepsRemainder, LeavesNoneUnread, Stranded, Terminated, Flush;
    var o, before := Flush(q.files, cb, faults), Records(Content(q.files.spill));
    EmptyRecords();
    FlushLosesNothingIff(q.files, cb, faults);
    ClaimIsBatch(q.files, cb, faults);
    assert q.files.rest.None? ==> o.files.rest.None?;
    forall r | r in before ensures r in o.consumed || r in Records(Content(o.files.spill)) {
      assert r in before + o.arrived;
    }
  }

  /** What a flush leaves as a claim is what it claimed, or what was left there before. */
  lemma ClaimIsBatch(files: Files, cb: Callback, faults: Faults)
    requires !Stranded(files, cb, faults)
    ensures var o := Flush(files, cb, faults);
            && (o.files.claim.None? || o.files.claim == files.spill || o.files == files)
            && (files.rest.None? ==> o.files.rest.None?)
  {
    hide Replay, Joined, Records, Remainder, Readable;
  }

  /** So deleting a stale claim when there is no spill file loses nothing. */
  lemma StaleClaimWasConsumed(q: Queue)
    requires Covered(q) && q.files.spill.None?
    ensures forall r :: r in Records(Content(q.files.claim)) ==> r in q.done
  {
    EmptyRecords();
  }

  // ------------------------ Whole runs ------------------------

  predicate WellFormedRun(q: Queue, ops: seq<Op>)
    decreases |ops|
  {
    ops == [] || (WellFormed(q, ops[0]) && WellFormedRun(Step(q, ops[0]), ops[1..]))
  }

  predicate SoundRun(q: Queue, ops: seq<Op>)
    decreases |ops|
  {
    ops == [] || (Sound(q, ops[0]) && SoundRun(Step(q, ops[0]), ops[1..]))
  }

  predicate AlwaysIntact(q: Queue, ops: seq<Op>)
    decreases |ops|
  {
    Intact(q) && (ops == [] || AlwaysIntact(Step(q, ops[0]), ops[1..]))
  }

  /** At least once, over whole runs: whatever the callback answers, no record is lost, torn or
      moved at any point of a run if and only if each of its steps is sound. */
  lemma {:induction false} NothingIsLostIff(q: Queue, ops: seq<Op>)
    requires Intact(q) && WellFormedRun(q, ops)
    ensures AlwaysIntact(q, ops) <==> SoundRun(q, ops)
    decreases |ops|
  {
    hide Intact, Step, Sound, WellFormed;
    if ops != [] {
      StepIsSoundIff(q, ops[0]);
      if Intact(Step(q, ops[0])) { NothingIsLostIff(Step(q, ops[0]), ops[1..]); }
    }
  }

  /** In such a run leftovers never hold the only copy of a record. */
  lemma {:induction false} LeftoversAreCovered(q: Queue, ops: seq<Op>)
    requires Intact(q) && Covered(q) && WellFormedRun(q, ops) && SoundRun(q, ops)
    ensures Intact(Run(q, ops)) && Covered(Run(q, ops))
    decreases |ops|
  {
    hide Intact, Covered, Step, Sound, IsRecord, ArrivesWell;
    if ops != [] {
      StepIsSoundIff(q, ops[0]);
      match ops[0] {
        case SpillOp(line, opens, written) => SpillCovers(q, line, opens, written);
        case FlushOp(cb, faults) => FlushCovers(q, cb, faults);
      }
      LeftoversAreCovered(Step(q, ops[0]), ops[1..]);
    }
  }

  // ------------------------ Runs without file faults ------------------------

  predicate Clean(op: Op) {
    match op
    case SpillOp(line, opens, written) => opens && written > |line|
    case FlushOp(_, faults) => faults == NO_FAULTS
  }

  predicate CleanRun(q: Queue, ops: seq<Op>)
    decreases |ops|
  {
    ops == [] || (WellFormed(q, ops[0]) && Clean(ops[0]) && CleanRun(Step(q, ops[0]), ops[1..]))
  }

  /** Consumed records followed by the spill file's records are all records ever spilled, and no
      claim or remainder is left behind. */
  predicate Conserved(q: Queue) {
    && Terminated(Content(q.files.spill))
    && q.ever == q.done + Records(Content(q.files.spill))
    && q.files.claim.None? && q.files.rest.None?
  }

  lemma FlushConserves(q: Queue, cb: Callback)
    requires Conserved(q) && ArrivesWell(q.files, cb, NO_FAULTS)
    ensures Conserved(Step(q, FlushOp(cb, NO_FAULTS)))
  {
    hide Records, ArrivesWell, Terminated, Flush, IsRecord;
    var o, before := Flush(q.files, cb, NO_FAULTS), Records(Content(q.files.spill));
    ArrivedWell(q.files, cb, NO_FAULTS);
    CleanFlush(q.files, cb);
    var now := Records(Content(o.files.spill));
    Associates(q.done, before, o.arrived);
    Associates(q.done, o.consumed, now);
  }

  lemma SpillConserves(q: Queue, line: string, written: nat)
    requires Conserved(q) && IsRecord(line) && written > |line|
    ensures Conserved(Step(q, SpillOp(line, true, written)))
  {
    hide Records;
    assert Take(line + "\n", written) == line + "\n";
    OneRecord(line);
    RecordsAppend(Content(q.files.spill), line + "\n");
    assert q.done + Records(Content(q.files.spill)) + [line] == q.done + (Records(Content(q.files.spill)) + [line]);
  }

  lemma CleanStepConserves(q: Queue, op: Op)
    requires Conserved(q) && WellFormed(q, op) && Clean(op)
    ensures Conserved(Step(q, op))
  {
    hide Conserved, Step, IsRecord, ArrivesWell;
    match op
    case SpillOp(line, opens, written) => SpillConserves(q, line, written);
    case FlushOp(cb, faults) => FlushConserves(q, cb);
  }

  /** Exactly once and in order, over every run without file faults. */
  lemma {:induction false} ExactlyOnceInOrder(q: Queue, ops: seq<Op>)
    requires Conserved(q) && CleanRun(q, ops)
    ensures Conserved(Run(q, ops))
    decreases |ops|
  {
    hide Conserved, Step, WellFormed, Clean;
    if ops != [] {
      CleanStepConserves(q, ops[0]);
      ExactlyOnceInOrder(Step(q, ops[0]), ops[1..]);
    }
  }
}
