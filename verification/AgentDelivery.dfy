/** From spill to database: replay_line as the callback of the queue. */
module AgentDelivery {
  import opened Bytes
  import opened SpillLine
  import opened SpillQueue
  import opened AgentRecords
  import opened SpillRuns
  import opened SpillBuffer
  import opened AgentReplay

  // ------------------------ The callback ------------------------

  /** The rows that a sequence of consumed lines inserts. */
  function Inserted(lines: seq<string>, c: Libc): seq<Row> {
    if lines == [] then [] else Inserted(lines[..|lines| - 1], c) + RowList(RowOf(lines[|lines| - 1], c))
  }

  function RowList(row: Option<Row>): seq<Row> {
    match row
    case None => []
    case Some(r) => [r]
  }

  /** What replay_line answers for a line when the database holds `rows`. */
  function Answer(accepts: seq<Row> -> bool, connected: bool, rows: seq<Row>, line: string, c: Libc): int {
    if !connected then -1
    else match RowOf(line, c)
      case None => 0
      case Some(row) => if accepts(rows + [row]) then 0 else -1
  }

  /** replay_line on a database that holds `rows` when the records of a file are replayed.
      `online` says at which calls the connection is there. */
  function DbCallback(accepts: seq<Row> -> bool, online: nat -> bool, rows: seq<Row>, records: seq<string>,
                      arrivals: nat -> seq<string>, c: Libc): Callback
  {
    Callback((n: nat) => if n >= |records| then 0
                         else Answer(accepts, online(n), rows + Inserted(records[..n], c), records[n], c), arrivals)
  }

  lemma InsertedSnoc(lines: seq<string>, line: string, c: Libc)
    ensures Inserted(lines + [line], c) == Inserted(lines, c) + RowList(RowOf(line, c))
  {
    hide RowOf;
    assert (lines + [line])[..|lines|] == lines;
  }

  lemma NextRecord(content: string, pos: nat, records: seq<string>, call: nat)
    requires pos < |content| && call <= |records| && records[call..] == Records(content[pos..])
    ensures var n := LineEnd(content[pos..]);
            var line := Trim(content[pos..][..n]);
            if line == "" then records[call..] == Records(content[pos + n..])
            else call < |records| && records[call] == line && records[call + 1..] == Records(content[pos + n..])
  {
    hide Records, Trim, LineEnd;
    RecordsStep(content[pos..]);
    var n := LineEnd(content[pos..]);
    var line := Trim(content[pos..][..n]);
    assert content[pos..][n..] == content[pos + n..];
    if line != "" {
      Seam([line], Records(content[pos + n..]));
      assert records[call..][0] == line && records[call..][1..] == records[call + 1..];
    }
  }

  /** The replay loop with replay_line itself as the callback: it goes as far as the queue says, and
      the database gains exactly the rows of the consumed lines. */
  method DrainClaim(db: Database, content: string, online: nat -> bool, arrivals: nat -> seq<string>, c: Libc)
      returns (refused: Option<string>, pos: nat)
    modifies db
    ensures var cb := DbCallback(db.accepts, online, old(db.rows), Records(content), arrivals, c);
            var r := Replay(content, cb, 0);
            && refused == r.refused && pos <= |content| && (refused.Some? ==> content[pos..] == r.left)
            && db.rows == old(db.rows) + Inserted(r.consumed, c)
  {
    hide Trim, LineEnd, Replay, After, Records, Inserted, RowOf;
    ghost var records := Records(content);
    ghost var cb := DbCallback(db.accepts, online, db.rows, records, arrivals, c);
    ghost var goal := Replay(content, cb, 0);
    ghost var taken: seq<string>, arrived: seq<string> := [], [];
    pos := 0;
    var call := 0;
    assert content[0..] == content && records[0..] == records;
    WithNothing(goal);
    NothingInserted(db.rows, c);
    while pos < |content|
      invariant 0 <= pos <= |content| && call <= |records|
      invariant taken == records[..call] && records[call..] == Records(content[pos..])
      invariant db.rows == old(db.rows) + Inserted(taken, c)
      invariant goal == After(taken, arrived, Replay(content[pos..], cb, call))
      decreases |content| - pos
    {
      ReplayOne(content, pos, taken, arrived, cb, call);
      NextRecord(content, pos, records, call);
      var n := LineEnd(content[pos..]);
      var line := Trim(content[pos..][..n]);
      pos := pos + n;
      if line == "" { continue; }
      var rc := ReplayLine(db, online(call), line, c);
      CallbackAnswers(db.accepts, online, old(db.rows), records, arrivals, c, call);
      if rc != 0 { return Some(line), pos; }
      InsertedSnoc(taken, line, c);
      Associates(old(db.rows), Inserted(taken, c), RowList(RowOf(line, c)));
      taken, arrived := taken + [line], arrived + cb.arrivals(call);
      call := call + 1;
    }
    assert content[pos..] == "";
    ReplayNone(taken, arrived, cb, call);
    refused := None;
  }

  lemma NothingInserted(rows: seq<Row>, c: Libc)
    ensures rows == rows + Inserted([], c)
  {
  }

  lemma CallbackAnswers(accepts: seq<Row> -> bool, online: nat -> bool, rows: seq<Row>, records: seq<string>,
                        arrivals: nat -> seq<string>, c: Libc, n: nat)
    requires n < |records|
    ensures DbCallback(accepts, online, rows, records, arrivals, c).answer(n)
            == Answer(accepts, online(n), rows + Inserted(records[..n], c), records[n], c)
  {
  }

  // ------------------------ Records in, rows out ------------------------

  function Lines(rs: seq<Record>): (lines: seq<string>)
    ensures |lines| == |rs| && forall i :: 0 <= i < |rs| ==> lines[i] == LineOf(rs[i])
  {
    seq(|rs|, i requires 0 <= i < |rs| => LineOf(rs[i]))
  }

  function Expected(rs: seq<Record>, c: Libc): seq<Row> {
    if rs == [] then [] else Expected(rs[..|rs| - 1], c) + RowList(RowFor(rs[|rs| - 1], c))
  }

  ghost predicate AllSendable(rs: seq<Record>, c: Libc) {
    forall i :: 0 <= i < |rs| ==> Sendable(rs[i], c)
  }

  lemma {:induction false} LinesReplay(rs: seq<Record>, c: Libc)
    requires AllSendable(rs, c)
    ensures Inserted(Lines(rs), c) == Expected(rs, c)
  {
    hide Sendable, LineOf, RowOf, RowFor;
    if rs != [] {
      var front, last := rs[..|rs| - 1], rs[|rs| - 1];
      RecordReplays(last, c);
      LinesReplay(front, c);
      assert Lines(rs) == Lines(front) + [LineOf(last)];
      InsertedSnoc(Lines(front), LineOf(last), c);
    }
  }

  lemma LinesAreRecords(rs: seq<Record>, c: Libc)
    requires AllSendable(rs, c)
    ensures AllRecords(Lines(rs))
  {
    hide Sendable, LineOf, IsRecord;
    forall i | 0 <= i < |rs| ensures IsRecord(LineOf(rs[i])) { SendableIsRecord(rs[i], c); }
  }

  lemma LinesConcat(a: seq<Record>, b: seq<Record>)
    ensures Lines(a + b) == Lines(a) + Lines(b)
  {
    hide LineOf;
  }

  // ------------------------ Records that arrive during a flush ------------------------

  function Gathered(during: nat -> seq<Record>, from: nat, calls: nat): seq<Record>
    decreases calls
  {
    if calls == 0 then [] else during(from) + Gathered(during, from + 1, calls - 1)
  }

  function LinesOf(during: nat -> seq<Record>): nat -> seq<string> {
    (n: nat) => Lines(during(n))
  }

  function Calls(r: Replayed): nat {
    |r.consumed| + if r.refused.Some? then 1 else 0
  }

  /** What one line adds to a replay. */
  lemma ReplayStep(content: string, cb: Callback, call: nat)
    ensures var r := Replay(content, cb, call);
            if content == "" then r.arrived == [] && Calls(r) == 0
            else
              var line, tail := Trim(content[..LineEnd(content)]), content[LineEnd(content)..];
              if line == "" then r == Replay(tail, cb, call)
              else if cb.answer(call) != 0 then r.arrived == cb.arrivals(call) && Calls(r) == 1
              else
                var later := Replay(tail, cb, call + 1);
                r.arrived == cb.arrivals(call) + later.arrived && Calls(r) == 1 + Calls(later)
  {
    hide Trim, LineEnd;
  }

  lemma {:induction false} ArrivedAreGathered(content: string, cb: Callback, during: nat -> seq<Record>, call: nat)
    requires forall n :: cb.arrivals(n) == Lines(during(n))
    ensures var r := Replay(content, cb, call);
            r.arrived == Lines(Gathered(during, call, Calls(r)))
    decreases |content|
  {
    hide Trim, LineEnd, Lines, Gathered, Replay;
    ReplayStep(content, cb, call);
    NothingGathered(during, call);
    if content != "" {
      var n := LineEnd(content);
      var line, tail := Trim(content[..n]), content[n..];
      if line == "" {
        ArrivedAreGathered(tail, cb, during, call);
      } else if cb.answer(call) != 0 {
        NothingGathered(during, call + 1);
        GatheredStep(during, call, 0);
      } else {
        ArrivedAreGathered(tail, cb, during, call + 1);
        var r := Replay(tail, cb, call + 1);
        GatheredStep(during, call, Calls(r));
      }
    }
  }

  lemma NoLines()
    ensures Lines([]) == []
  {
  }

  lemma NothingGathered(during: nat -> seq<Record>, call: nat)
    ensures Lines(Gathered(during, call, 0)) == []
  {
  }

  lemma GatheredStep(during: nat -> seq<Record>, call: nat, calls: nat)
    ensures Lines(Gathered(during, call, calls + 1))
            == Lines(during(call)) + Lines(Gathered(during, call + 1, calls))
  {
    hide Lines;
    LinesConcat(during(call), Gathered(during, call + 1, calls));
  }

  lemma {:induction false} GatheredAreSendable(during: nat -> seq<Record>, from: nat, calls: nat, c: Libc)
    requires forall n :: AllSendable(during(n), c)
    ensures AllSendable(Gathered(during, from, calls), c)
    decreases calls
  {
    hide Sendable;
    if calls > 0 {
      GatheredAreSendable(during, from + 1, calls - 1, c);
      assert AllSendable(during(from), c);
    }
  }

  // ------------------------ The agent while the database comes and goes ------------------------

  datatype AgentOp = Write(record: Record) | Drain(online: nat -> bool, during: nat -> seq<Record>)

  ghost predicate SendableOp(op: AgentOp, c: Libc) {
    match op
    case Write(r) => Sendable(r, c)
    case Drain(_, during) => forall n :: AllSendable(during(n), c)
  }

  /** The database holds the rows of the consumed lines, and consumed and spilled lines together
      are those of the records sent. */
  ghost predicate Delivers(q: Queue, sent: seq<Record>, rows: seq<Row>, c: Libc) {
    && Conserved(q)
    && AllSendable(sent, c) && q.ever == Lines(sent)
    && rows == Inserted(q.done, c)
  }

  lemma WriteDelivers(q: Queue, sent: seq<Record>, rows: seq<Row>, c: Libc, r: Record)
    requires Delivers(q, sent, rows, c) && Sendable(r, c)
    ensures Delivers(Step(q, Spilled(LineOf(r))), sent + [r], rows, c)
  {
    hide Conserved, Sendable, LineOf, IsRecord, Inserted;
    SendableIsRecord(r, c);
    SpillConserves(q, LineOf(r), |LineOf(r)| + 1);
    LinesConcat(sent, [r]);
    assert Lines([r]) == [LineOf(r)];
  }

  lemma DrainDelivers(q: Queue, sent: seq<Record>, rows: seq<Row>, c: Libc, accepts: seq<Row> -> bool,
                      online: nat -> bool, during: nat -> seq<Record>)
    requires Delivers(q, sent, rows, c) && forall n :: AllSendable(during(n), c)
    ensures var content := Content(q.files.spill);
            var cb := DbCallback(accepts, online, rows, Records(content), LinesOf(during), c);
            var r := Replay(content, cb, 0);
            Delivers(Step(q, FlushOp(cb, NO_FAULTS)), sent + Gathered(during, 0, Calls(r)),
                     rows + Inserted(r.consumed, c), c)
  {
    hide Conserved, Sendable, Lines, Records, Inserted, Answer, IsRecord, Joined, Flush, Replay, Gathered, Seen, Calls,
         DbCallback, LinesOf;
    var content := Content(q.files.spill);
    var cb := DbCallback(accepts, online, rows, Records(content), LinesOf(during), c);
    var r := Replay(content, cb, 0);
    var more := Gathered(during, 0, Calls(r));
    CallbackArrivals(accepts, online, rows, Records(content), during, c);
    ArrivedAreGathered(content, cb, during, 0);
    GatheredAreSendable(during, 0, Calls(r), c);
    LinesAreRecords(more, c);
    FlushReports(q.files, cb);
    assert ArrivesWell(q.files, cb, NO_FAULTS);
    FlushConserves(q, cb);
    LinesConcat(sent, more);
    InsertedConcat(q.done, r.consumed, c);
  }

  lemma CallbackArrivals(accepts: seq<Row> -> bool, online: nat -> bool, rows: seq<Row>, records: seq<string>,
                         during: nat -> seq<Record>, c: Libc)
    ensures forall n :: DbCallback(accepts, online, rows, records, LinesOf(during), c).arrivals(n) == Lines(during(n))
  {
  }

  /** Without faults a flush consumes and gathers what its replay does. */
  lemma FlushReports(files: Files, cb: Callback)
    ensures var o, r := Flush(files, cb, NO_FAULTS), Replay(Content(files.spill), cb, 0);
            o.consumed == r.consumed && o.arrived == r.arrived && Seen(files, cb, NO_FAULTS) == r
  {
    hide Joined;
    var content := Content(files.spill);
    assert content[..|content|] == content;
    if files.spill.None? { assert Replay("", cb, 0) == Replayed([], [], None, ""); }
  }

  lemma {:induction false} InsertedConcat(a: seq<string>, b: seq<string>, c: Libc)
    ensures Inserted(a + b, c) == Inserted(a, c) + Inserted(b, c)
  {
    hide RowOf;
    if b == [] {
      assert a + b == a;
    } else {
      var front := b[..|b| - 1];
      assert a + b == (a + front) + [b[|b| - 1]];
      InsertedSnoc(a + front, b[|b| - 1], c);
      InsertedConcat(a, front, c);
    }
  }

  /** In such a state the rows are those of the oldest records sent, each once and in order, the
      rest are still in the spill file, and the OTLP points among the consumed records are gone. */
  lemma DeliveredRows(q: Queue, sent: seq<Record>, rows: seq<Row>, c: Libc)
    requires Delivers(q, sent, rows, c)
    ensures |q.done| <= |sent| && rows == Expected(sent[..|q.done|], c)
    ensures Records(Content(q.files.spill)) == Lines(sent[|q.done|..])
  {
    hide Sendable, LineOf, Inserted, Expected, Records;
    var k := |q.done|;
    assert q.ever == q.done + Records(Content(q.files.spill));
    Seam(q.done, Records(Content(q.files.spill)));
    assert Lines(sent)[..k] == Lines(sent[..k]) && Lines(sent)[k..] == Lines(sent[k..]);
    LinesReplay(sent[..k], c);
  }

  /** Records written and drained in any order, with any connection and any database: at the end
      the table holds the rows of the oldest records sent, and the spill file the others. */
  method RunOffline(db: Database, ops: seq<AgentOp>, c: Libc) returns (q: Queue, ghost sent: seq<Record>)
    requires db.rows == [] && forall i :: 0 <= i < |ops| ==> SendableOp(ops[i], c)
    modifies db
    ensures |q.done| <= |sent| && db.rows == Expected(sent[..|q.done|], c)
    ensures Records(Content(q.files.spill)) == Lines(sent[|q.done|..])
  {
    hide Sendable, LineOf, Records, Inserted, Expected, Conserved, Lines, Replay, Flush;
    q, sent := EMPTY, [];
    NothingSent(c);
    for i := 0 to |ops|
      invariant Delivers(q, sent, db.rows, c)
    {
      assert SendableOp(ops[i], c);
      match ops[i] {
        case Write(r) =>
          WriteDelivers(q, sent, db.rows, c, r);
          q := Step(q, Spilled(LineOf(r)));
          sent := sent + [r];
        case Drain(online, during) =>
          var content := Content(q.files.spill);
          var cb := DbCallback(db.accepts, online, db.rows, Records(content), LinesOf(during), c);
          DrainDelivers(q, sent, db.rows, c, db.accepts, online, during);
          var refused, pos := DrainClaim(db, content, online, LinesOf(during), c);
          q := Step(q, FlushOp(cb, NO_FAULTS));
          sent := sent + Gathered(during, 0, Calls(Replay(content, cb, 0)));
      }
    }
    DeliveredRows(q, sent, db.rows, c);
  }

  lemma NothingSent(c: Libc)
    ensures Delivers(EMPTY, [], [], c)
  {
    EmptyRecords();
    NoLines();
  }
}
