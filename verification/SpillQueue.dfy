/** The offline spill queue (db_buffer.c): a file protocol over the spill file, the `.flushing`
    claim and the `.rest` remainder, with a replay callback that may refuse a record. */
module SpillQueue {
  import opened Bytes

  // ------------------------ Lines ------------------------

  /** getline: the length of the first line, its newline included. */
  function LineEnd(s: string): (n: nat)
    requires s != ""
    ensures 0 < n <= |s|
    ensures n < |s| ==> s[n - 1] == '\n'
    ensures forall i :: 0 <= i < n - 1 ==> s[i] != '\n'
  {
    if s[0] == '\n' || |s| == 1 then 1 else 1 + LineEnd(s[1..])
  }

  function Trim(s: string): (t: string)
    ensures t <= s
    ensures t != "" ==> t[|t| - 1] != '\n' && t[|t| - 1] != '\r'
    ensures forall i :: |t| <= i < |s| ==> s[i] == '\n' || s[i] == '\r'
  {
    if s != "" && (s[|s| - 1] == '\n' || s[|s| - 1] == '\r') then Trim(s[..|s| - 1]) else s
  }

  /** The records held by a file: its lines, trimmed, without the empty ones. */
  function Records(s: string): seq<string> {
    if s == "" then []
    else
      var n := LineEnd(s);
      (if Trim(s[..n]) == "" then [] else [Trim(s[..n])]) + Records(s[n..])
  }

  predicate Terminated(s: string) {
    s == "" || s[|s| - 1] == '\n'
  }

  /** A line that getline and the trimming give back unchanged. */
  predicate IsRecord(line: string) {
    line != "" && line[|line| - 1] != '\r' && forall i :: 0 <= i < |line| ==> line[i] != '\n'
  }

  predicate AllRecords(lines: seq<string>) {
    forall i :: 0 <= i < |lines| ==> IsRecord(lines[i])
  }

  function Joined(lines: seq<string>): string {
    if lines == [] then "" else lines[0] + "\n" + Joined(lines[1..])
  }

  lemma {:induction false} LineEndAppend(a: string, b: string)
    requires a != "" && Terminated(a)
    ensures LineEnd(a + b) == LineEnd(a)
  {
    if a[0] != '\n' && |a| > 1 {
      assert (a + b)[1..] == a[1..] + b;
      LineEndAppend(a[1..], b);
    }
  }

  lemma TailTerminated(a: string, n: nat)
    requires Terminated(a) && n <= |a|
    ensures Terminated(a[n..])
  {
  }

  lemma {:induction false} RecordsAppend(a: string, b: string)
    requires Terminated(a)
    ensures Records(a + b) == Records(a) + Records(b)
    decreases |a|
  {
    hide Trim, LineEnd, Terminated;
    if a == "" {
      assert a + b == b && Records(a) == [] && [] + Records(b) == Records(b);
    } else {
      var n := LineEnd(a);
      LineEndAppend(a, b);
      assert (a + b)[..n] == a[..n] && (a + b)[n..] == a[n..] + b;
      assert Terminated(a[n..]) by { TailTerminated(a, n); }
      RecordsAppend(a[n..], b);
      Associates(if Trim(a[..n]) == "" then [] else [Trim(a[..n])], Records(a[n..]), Records(b));
    }
  }

  lemma {:induction false} LineEndOf(line: string)
    requires forall i :: 0 <= i < |line| ==> line[i] != '\n'
    ensures LineEnd(line + "\n") == |line| + 1
  {
    if line != "" {
      assert (line + "\n")[1..] == line[1..] + "\n";
      LineEndOf(line[1..]);
    }
  }

  lemma OneRecord(line: string)
    requires IsRecord(line)
    ensures Records(line + "\n") == [line]
  {
    var s := line + "\n";
    LineEndOf(line);
    assert s[..|s|] == s && s[|s|..] == "" && s[..|s| - 1] == line;
    assert Trim(s) == Trim(line) == line;
  }

  lemma {:induction false} RecordsJoined(lines: seq<string>)
    requires AllRecords(lines)
    ensures Records(Joined(lines)) == lines && Terminated(Joined(lines))
  {
    if lines != [] {
      hide Records;
      RecordsJoined(lines[1..]);
      OneRecord(lines[0]);
      RecordsAppend(lines[0] + "\n", Joined(lines[1..]));
    }
  }

  // ------------------------ Replaying a claimed file ------------------------

  /** How one replay ends: what was consumed, what was spilled by others meanwhile, the record
      that was refused, if any, and the text not read yet. */
  datatype Replayed = Replayed(consumed: seq<string>, arrived: seq<string>, refused: Option<string>, left: string)

  /** The callback's answer to its n-th call, and the lines spilled while it runs. */
  datatype Callback = Callback(answer: nat -> int, arrivals: nat -> seq<string>)

  function Replay(content: string, cb: Callback, call: nat): Replayed
    decreases |content|
  {
    if content == "" then Replayed([], [], None, "")
    else
      var n := LineEnd(content);
      var line, tail := Trim(content[..n]), content[n..];
      if line == "" then Replay(tail, cb, call)
      else if cb.answer(call) != 0 then Replayed([], cb.arrivals(call), Some(line), tail)
      else
        var r := Replay(tail, cb, call + 1);
        Replayed([line] + r.consumed, cb.arrivals(call) + r.arrived, r.refused, r.left)
  }

  /** The records of a replayed file that are still to be kept. */
  function Remaining(r: Replayed): seq<string> {
    match r.refused
    case None => []
    case Some(x) => [x] + Records(r.left)
  }

  lemma TrimmedLineIsRecord(content: string)
    requires content != "" && Trim(content[..LineEnd(content)]) != ""
    ensures IsRecord(Trim(content[..LineEnd(content)]))
  {
    var n := LineEnd(content);
    var t := Trim(content[..n]);
    assert forall i :: 0 <= i < |t| ==> t[i] == content[i];
  }

  /** Nothing is lost between the lines: the file's records are the consumed ones followed by
      the ones still to be kept. */
  predicate Accounts(content: string, r: Replayed) {
    && Terminated(r.left)
    && Records(content) == r.consumed + Remaining(r)
    && (r.refused.Some? ==> IsRecord(r.refused.value))
  }

  lemma {:induction false} ReplaySplits(content: string, cb: Callback, call: nat)
    requires Terminated(content)
    ensures Accounts(content, Replay(content, cb, call))
    decreases |content|
  {
    if content != "" {
      var n := LineEnd(content);
      var line, tail := Trim(content[..n]), content[n..];
      assert Terminated(tail);
      hide Trim, LineEnd, Accounts;
      if line == "" {
        ReplaySplits(tail, cb, call);
        BlankLine(content, Replay(tail, cb, call));
      } else if cb.answer(call) != 0 {
        RefusedLine(content, cb.arrivals(call));
      } else {
        ReplaySplits(tail, cb, call + 1);
        TakenLine(content, Replay(tail, cb, call + 1), cb.arrivals(call));
      }
    }
  }

  lemma BlankLine(content: string, r: Replayed)
    requires content != "" && Trim(content[..LineEnd(content)]) == "" && Accounts(content[LineEnd(content)..], r)
    ensures Accounts(content, r)
  {
    RecordsStep(content);
  }

  lemma RefusedLine(content: string, arrived: seq<string>)
    requires content != "" && Trim(content[..LineEnd(content)]) != "" && Terminated(content[LineEnd(content)..])
    ensures Accounts(content,
                     Replayed([], arrived, Some(Trim(content[..LineEnd(content)])), content[LineEnd(content)..]))
  {
    hide Trim, LineEnd, IsRecord, Records, Terminated;
    RecordsStep(content);
    TrimmedLineIsRecord(content);
  }

  lemma TakenLine(content: string, r: Replayed, arrived: seq<string>)
    requires content != "" && Trim(content[..LineEnd(content)]) != "" && Accounts(content[LineEnd(content)..], r)
    ensures Accounts(content,
                     Replayed([Trim(content[..LineEnd(content)])] + r.consumed, arrived + r.arrived, r.refused, r.left))
  {
    hide Trim, LineEnd, IsRecord;
    RecordsStep(content);
    var line := Trim(content[..LineEnd(content)]);
    assert [line] + (r.consumed + Remaining(r)) == [line] + r.consumed + Remaining(r);
  }

  lemma RecordsStep(s: string)
    requires s != ""
    ensures var n := LineEnd(s);
            Records(s) == if Trim(s[..n]) == "" then Records(s[n..]) else [Trim(s[..n])] + Records(s[n..])
  {
    hide Trim, LineEnd;
    assert [] + Records(s[LineEnd(s)..]) == Records(s[LineEnd(s)..]);
  }

  // ------------------------ Flushing ------------------------

  datatype Files = Files(spill: Option<string>, claim: Option<string>, rest: Option<string>)

  /** Which file operations of one flush fail. */
  datatype Faults = Faults(
    claim: bool,       // renaming the spill file to the claim
    openClaim: bool,   // opening the claim
    read: Option<nat>, // after how many lines reading the claim fails
    openRest: bool,    // creating the remainder
    written: Option<nat>, // how much of it is written, if not all and nobody notices
    closeRest: bool,   // closing it
    openSpill: bool,   // reopening the spill file to append what arrived meanwhile
    openOut: bool,     // reopening the remainder for that
    copied: Option<nat>, // how much of what arrived is written, if not all
    putBack: bool,     // renaming the claim back to the spill file
    putRest: bool,     // renaming the remainder to the spill file
    dropClaim: bool)   // deleting the claim

  const NO_FAULTS := Faults(false, false, None, false, None, false, false, false, None, false, false, false)

  function Content(f: Option<string>): string {
    match f
    case None => ""
    case Some(s) => s
  }

  /** The result of one flush; `advanced` is how many of the consumed records left the queue. */
  datatype Outcome = Outcome(files: Files, rc: int, consumed: seq<string>, arrived: seq<string>, advanced: nat)

  /** Renaming the claim back replaces whatever the spill file holds by then. */
  function PutBack(f: Files, faults: Faults): Files {
    if faults.putBack then f else Files(f.claim, None, f.rest)
  }

  function Arrivals(lines: seq<string>): Option<string> {
    if lines == [] then None else Some(Joined(lines))
  }

  /** Writing stops after `n` characters, if at all. */
  function Copied(s: string, n: Option<nat>): string {
    match n
    case None => s
    case Some(k) => Take(s, k)
  }

  /** The length of the first `n` lines. */
  function LinesLen(s: string, n: nat): (k: nat)
    ensures k <= |s|
    decreases n
  {
    if n == 0 || s == "" then 0 else LineEnd(s) + LinesLen(s[LineEnd(s)..], n - 1)
  }

  /** How much of a file is read: a getline that fails is taken for the end of the file. */
  function ReadLen(s: string, n: Option<nat>): (k: nat)
    ensures k <= |s|
  {
    match n
    case None => |s|
    case Some(lines) => LinesLen(s, lines)
  }

  function Readable(s: string, n: Option<nat>): string {
    s[..ReadLen(s, n)]
  }

  /** The end of a flush whose callback refused a record. */
  function Stop(content: string, spill: Option<string>, rest: Option<string>, r: Replayed, faults: Faults): Outcome
    requires r.refused.Some?
  {
    var claimed := Files(spill, Some(content), rest);
    var text := Copied(Remainder(r), faults.written);
    if faults.openRest then Outcome(PutBack(claimed, faults), -1, r.consumed, r.arrived, 0)
    else if faults.closeRest then Outcome(PutBack(claimed, faults).(rest := None), -1, r.consumed, r.arrived, 0)
    else
      var full := if faults.openSpill || faults.openOut then text else text + Copied(Content(spill), faults.copied);
      if faults.putRest then Outcome(Files(None, Some(content), Some(full)), -1, r.consumed, r.arrived, 0)
      else Outcome(Files(Some(full), if faults.dropClaim then Some(content) else None, None), 1, r.consumed, r.arrived,
                   |r.consumed|)
  }

  /** What the remainder should hold: the refused record and every line not read yet. */
  function Remainder(r: Replayed): string
    requires r.refused.Some?
  {
    r.refused.value + "\n" + r.left
  }

  function Flush(files: Files, cb: Callback, faults: Faults): Outcome {
    if files.spill.None? then Outcome(Files(None, None, None), 0, [], [], 0)
    else if faults.claim then Outcome(files, -1, [], [], 0)
    else
      var content := files.spill.value;
      if faults.openClaim then Outcome(PutBack(Files(None, Some(content), files.rest), faults), -1, [], [], 0)
      else
        var r := Replay(Readable(content, faults.read), cb, 0);
        var spill := Arrivals(r.arrived);
        if r.refused.Some? then Stop(content, spill, files.rest, r, faults)
        else Outcome(Files(spill, if faults.dropClaim then Some(content) else None, None), 0, r.consumed, r.arrived,
                     |r.consumed|)
  }

  // ------------------------ What is read ------------------------

  lemma {:induction false} LinesAreTerminated(s: string, n: nat)
    requires Terminated(s)
    ensures Terminated(s[..LinesLen(s, n)])
    decreases n
  {
    if n > 0 && s != "" {
      var e := LineEnd(s);
      var rest := s[e..];
      LinesAreTerminated(rest, n - 1);
      var m := LinesLen(rest, n - 1);
      assert s[..e + m] == s[..e] + rest[..m];
    }
  }

  /** The records of a file are those that are read, followed by those that are not. */
  lemma ReadSplits(s: string, n: Option<nat>)
    requires Terminated(s)
    ensures Terminated(Readable(s, n))
    ensures Records(s) == Records(Readable(s, n)) + Records(s[ReadLen(s, n)..])
  {
    hide Records;
    assert s[..|s|] == s;
    if n.Some? { LinesAreTerminated(s, n.value); }
    RecordsAppend(Readable(s, n), s[ReadLen(s, n)..]);
    assert s == Readable(s, n) + s[ReadLen(s, n)..];
  }

  // ------------------------ What one flush does to the queue ------------------------

  /** The replay of one flush. */
  function Seen(files: Files, cb: Callback, faults: Faults): Replayed {
    Replay(Readable(Content(files.spill), faults.read), cb, 0)
  }

  predicate ArrivesWell(files: Files, cb: Callback, faults: Faults) {
    AllRecords(Seen(files, cb, faults).arrived)
  }

  /** The claim is opened and replayed. */
  predicate Replays(files: Files, faults: Faults) {
    files.spill.Some? && !faults.claim && !faults.openClaim
  }

  predicate HasRefusal(files: Files, cb: Callback, faults: Faults) {
    Replays(files, faults) && Seen(files, cb, faults).refused.Some?
  }

  /** A refusal whose remainder cannot be kept, so that the claim is put back. */
  predicate GivesUp(files: Files, cb: Callback, faults: Faults) {
    HasRefusal(files, cb, faults) && (faults.openRest || faults.closeRest)
  }

  /** The faults that leave unconsumed records outside the spill file: the claim cannot be put
      back, or the remainder cannot be put in its place. */
  predicate Stranded(files: Files, cb: Callback, faults: Faults) {
    && files.spill.Some? && !faults.claim
    && if faults.openClaim then faults.putBack && Records(files.spill.value) != []
       else
         && HasRefusal(files, cb, faults)
         && if GivesUp(files, cb, faults) then faults.putBack else faults.putRest
  }

  /** No record is left unread in a claim that is then deleted. */
  predicate LeavesNoneUnread(files: Files, cb: Callback, faults: Faults) {
    Replays(files, faults) && !GivesUp(files, cb, faults) ==>
      Records(files.spill.value[ReadLen(files.spill.value, faults.read)..]) == []
  }

  /** The remainder is written up to a line break behind its last record. */
  predicate KeepsRemainder(files: Files, cb: Callback, faults: Faults) {
    HasRefusal(files, cb, faults) && !GivesUp(files, cb, faults) && faults.written.Some? ==>
      var text := Remainder(Seen(files, cb, faults));
      faults.written.value < |text| ==>
        Terminated(text[..faults.written.value]) && Records(text[faults.written.value..]) == []
  }

  /** The faults under which a flush keeps the lines that others spilled while it ran. */
  predicate KeepsArrivals(files: Files, cb: Callback, faults: Faults) {
    HasRefusal(files, cb, faults) ==>
      && !GivesUp(files, cb, faults) && !faults.openSpill && !faults.openOut
      && (faults.copied.Some? ==>
            faults.copied.value >= |Content(Arrivals(Seen(files, cb, faults).arrived))|)
  }

  /** What stays of the claimed records, and what of those that arrived, in the spill file. */
  function Kept(files: Files, cb: Callback, faults: Faults): string {
    if !Replays(files, faults) || GivesUp(files, cb, faults) then Content(files.spill)
    else if HasRefusal(files, cb, faults) then Copied(Remainder(Seen(files, cb, faults)), faults.written)
    else ""
  }

  function Survivors(files: Files, cb: Callback, faults: Faults): string {
    if !Replays(files, faults) then ""
    else
      var arrived := Content(Arrivals(Seen(files, cb, faults).arrived));
      if !HasRefusal(files, cb, faults) then arrived
      else if GivesUp(files, cb, faults) || faults.openSpill || faults.openOut then ""
      else Copied(arrived, faults.copied)
  }

  /** Unless records are stranded, the spill file holds what is kept and then what survives, and
      records are taken off the front exactly when the claim is not put back. */
  lemma FlushLeaves(files: Files, cb: Callback, faults: Faults)
    requires !Stranded(files, cb, faults)
    ensures var o, r := Flush(files, cb, faults), Seen(files, cb, faults);
            && (Content(o.files.spill) == Kept(files, cb, faults) + Survivors(files, cb, faults)
                || (faults.openClaim && Records(Content(files.spill)) == [] && o.files.spill.None?))
            && (!Replays(files, faults) ==> o.consumed == [] && o.arrived == [] && o.advanced == 0)
            && (Replays(files, faults) ==> o.consumed == r.consumed && o.arrived == r.arrived)
            && o.advanced == if Replays(files, faults) && !GivesUp(files, cb, faults) then |o.consumed| else 0
  {
    hide Replay, Joined, Records, Remainder, Readable;
    assert Content(files.spill) + "" == Content(files.spill);
    if HasRefusal(files, cb, faults) {
      var text := Copied(Remainder(Seen(files, cb, faults)), faults.written);
      assert text + "" == text;
    } else if Replays(files, faults) {
      var arrived := Content(Arrivals(Seen(files, cb, faults).arrived));
      assert "" + arrived == arrived;
    }
  }

  lemma RemainderRecords(r: Replayed)
    requires r.refused.Some? && IsRecord(r.refused.value) && Terminated(r.left)
    ensures Records(Remainder(r)) == Remaining(r) && Terminated(Remainder(r))
  {
    hide Records;
    OneRecord(r.refused.value);
    RecordsAppend(r.refused.value + "\n", r.left);
  }

  lemma ArrivalRecords(lines: seq<string>)
    requires AllRecords(lines)
    ensures Records(Content(Arrivals(lines))) == lines && Terminated(Content(Arrivals(lines)))
    ensures Content(Arrivals(lines)) == Joined(lines)
  {
    hide Joined;
    RecordsJoined(lines);
    EmptyRecords();
    NothingJoined(lines);
  }

  lemma EmptyRecords()
    ensures Records("") == []
  {
  }

  lemma TerminatedAppend(a: string, b: string)
    requires Terminated(a)
    ensures Terminated(a + b) <==> Terminated(b)
  {
  }

  lemma TerminatedNothing()
    ensures Terminated("")
  {
  }

  /** A flush gives the callback the records at the front of the queue, in order; unless the claim
      was put back, those are the ones that leave it. */
  lemma FlushConsumesFront(files: Files, cb: Callback, faults: Faults)
    requires Terminated(Content(files.spill))
    ensures var o := Flush(files, cb, faults);
            && o.consumed <= Records(Content(files.spill))
            && (o.advanced == 0 || o.advanced == |o.consumed|)
            && (faults == NO_FAULTS ==> o.advanced == |o.consumed|)
  {
    hide Records, Joined, Accounts, Readable;
    if Replays(files, faults) {
      ReadSplits(files.spill.value, faults.read);
      ReplaySplits(Readable(files.spill.value, faults.read), cb, 0);
      ConsumedIsFront(Readable(files.spill.value, faults.read), Seen(files, cb, faults));
    }
  }

  lemma ConsumedIsFront(content: string, r: Replayed)
    requires Accounts(content, r)
    ensures r.consumed <= Records(content)
  {
  }

  // ------------------------ Cut arrivals ------------------------

  /** Text with a character that is no line break holds a record. */
  lemma {:induction false} InkIsRecord(s: string, i: nat)
    requires i < |s| && s[i] != '\n' && s[i] != '\r'
    ensures Records(s) != []
    decreases |s|
  {
    var n := LineEnd(s);
    if i < n {
      assert s[..n][i] == s[i];
      assert Trim(s[..n]) != "";
    } else {
      InkIsRecord(s[n..], i - n);
    }
  }

  lemma {:induction false} JoinedEnds(lines: seq<string>)
    requires AllRecords(lines) && lines != []
    ensures var s := Joined(lines); |s| >= 2 && s[|s| - 1] == '\n' && s[|s| - 2] != '\n' && s[|s| - 2] != '\r'
    decreases |lines|
  {
    if |lines| > 1 { JoinedEnds(lines[1..]); } else { assert Joined(lines[1..]) == ""; }
  }

  /** Part of the lines is never as good as all of them. */
  lemma CutLoses(lines: seq<string>, n: nat)
    requires AllRecords(lines) && n < |Joined(lines)|
    ensures !(Terminated(Take(Joined(lines), n)) && Records(Take(Joined(lines), n)) == lines)
  {
    hide Records, Joined;
    var s := Joined(lines);
    assert lines != [] by { NothingJoined(lines); }
    JoinedEnds(lines);
    RecordsJoined(lines);
    var front, back := s[..n], s[n..];
    assert s == front + back;
    if Terminated(front) && Records(front) == lines {
      RecordsAppend(front, back);
      assert Records(back) == [];
      if n < |s| - 1 {
        assert back[|s| - 2 - n] == s[|s| - 2];
        InkIsRecord(back, |s| - 2 - n);
      }
      assert false;
    }
  }

  lemma NothingJoined(lines: seq<string>)
    ensures lines == [] ==> Joined(lines) == ""
  {
  }

  lemma SurvivorsAreAllIff(files: Files, cb: Callback, faults: Faults)
    requires ArrivesWell(files, cb, faults)
    ensures var arrived := if Replays(files, faults) then Seen(files, cb, faults).arrived else [];
            var tail := Survivors(files, cb, faults);
            && tail <= Joined(arrived)
            && (Terminated(tail) && Records(tail) == arrived <==> KeepsArrivals(files, cb, faults) || arrived == [])
  {
    hide Records, Joined, Replay, Terminated, IsRecord, Readable;
    EmptyRecords();
    TerminatedNothing();
    if Replays(files, faults) {
      var r := Seen(files, cb, faults);
      ArrivalRecords(r.arrived);
      NothingJoined(r.arrived);
      if r.refused.Some? && faults.copied.Some? && faults.copied.value < |Content(Arrivals(r.arrived))| {
        CutLoses(r.arrived, faults.copied.value);
      }
    }
  }

  // ------------------------ Exactly when nothing is lost ------------------------

  /** What was taken off the front and what the spill file holds now are what it held before and
      what arrived. */
  predicate Complete(o: Outcome, before: seq<string>) {
    var now := Content(o.files.spill);
    && o.advanced <= |o.consumed|
    && Terminated(now) && before + o.arrived == o.consumed[..o.advanced] + Records(now)
  }

  /** A text cut short, followed by some of the lines that arrived, is never as good as the text,
      what was left unread and all lines, unless nothing is missing. */
  lemma CutTextLoses(text: string, front: string, lines: seq<string>, tail: string, unread: seq<string>)
    requires Terminated(text) && front <= text && AllRecords(lines) && tail <= Joined(lines)
    ensures Terminated(front + tail) && Records(front + tail) == Records(text) + unread + lines
            <==> unread == [] && Terminated(front) && Records(front) == Records(text)
                 && Terminated(tail) && Records(tail) == lines
  {
    hide Records, Terminated, Joined, IsRecord, LastBreak;
    if Terminated(front) {
      WholeLinesCount(text, front, lines, tail, unread);
    } else {
      BehindLastBreak(front);
      if tail == "" {
        assert front + tail == front;
      } else if Terminated(front + tail) {
        GluedCount(text, front, lines, tail, unread);
      }
    }
  }

  lemma WholeLinesCount(text: string, front: string, lines: seq<string>, tail: string, unread: seq<string>)
    requires Terminated(text) && front <= text && AllRecords(lines) && tail <= Joined(lines) && Terminated(front)
    ensures Terminated(front + tail) && Records(front + tail) == Records(text) + unread + lines
            <==> unread == [] && Records(front) == Records(text) && Terminated(tail) && Records(tail) == lines
  {
    hide Records, Terminated, Joined, IsRecord;
    TerminatedAppend(front, tail);
    RecordsAppend(front, tail);
    RecordsAppend(front, text[|front|..]);
    assert front + text[|front|..] == text;
    if Terminated(tail) {
      RecordsJoined(lines);
      RecordsAppend(tail, Joined(lines)[|tail|..]);
      assert tail + Joined(lines)[|tail|..] == Joined(lines);
      var a, b := Records(front), Records(tail);
      assert |a| <= |Records(text)| && |b| <= |lines|;
      if a + b == Records(text) + unread + lines {
        assert |unread| == 0 && unread == [] && Records(text) + unread == Records(text);
        SplitEqual(a, b, Records(text), lines);
      }
      if unread == [] { assert Records(text) + unread + lines == Records(text) + lines; }
    }
  }

  lemma GluedCount(text: string, front: string, lines: seq<string>, tail: string, unread: seq<string>)
    requires Terminated(text) && front <= text && AllRecords(lines) && tail <= Joined(lines) && tail != ""
    requires !Terminated(front) && Terminated(front + tail)
    ensures Records(front + tail) != Records(text) + unread + lines
  {
    hide Records, Joined, LastBreak, Terminated, IsRecord;
    BehindLastBreak(front);
    var n := LastBreak(front);
    NothingJoined(lines);
    var a, p, first := front[..n], front[n..], lines[0];
    JoinedStep(lines);
    LastIsBreak(front, tail);
    assert IsRecord(first);
    FirstLineIsWhole(first, Joined(lines[1..]), tail);
    var more := tail[|first| + 1..];
    MoreLines(lines[1..], tail, more);
    GluedRecords(front, n, first, tail);
    RecordsAppend(a, text[n..]);
    assert text[..n] == a && a + text[n..] == text;
    assert p != "" by { assert front[..|front|] == front; }
    GluedDiffer(Records(a), p, first, Records(more), Records(text), unread, lines);
  }

  lemma GluedRecords(front: string, n: nat, first: string, tail: string)
    requires n <= |front| && Terminated(front[..n]) && IsRecord(first)
    requires forall i :: n <= i < |front| ==> front[i] != '\n'
    requires |tail| > |first| && tail[..|first| + 1] == first + "\n"
    ensures Records(front + tail)
            == Records(front[..n]) + ([front[n..] + first] + Records(tail[|first| + 1..]))
  {
    hide Records;
    var a, p, more := front[..n], front[n..], tail[|first| + 1..];
    assert front + tail == a + (p + first + "\n" + more);
    OneRecord(p + first);
    hide IsRecord;
    RecordsAppend(p + first + "\n", more);
    RecordsAppend(a, p + first + "\n" + more);
  }

  lemma GluedDiffer(a: seq<string>, p: string, first: string, more: seq<string>, text: seq<string>,
                    unread: seq<string>, lines: seq<string>)
    requires |a| <= |text| && p != "" && lines != [] && lines[0] == first && |more| < |lines|
    ensures a + ([p + first] + more) != text + unread + lines
  {
    var glued, all := a + ([p + first] + more), text + unread + lines;
    if |a| == |text| && unread == [] {
      assert glued[|a|] == p + first && all[|a|] == first;
      assert |p + first| > |first|;
    } else {
      assert |glued| < |all|;
    }
  }

  lemma JoinedStep(lines: seq<string>)
    requires lines != []
    ensures Joined(lines) == lines[0] + "\n" + Joined(lines[1..])
  {
  }

  lemma LastIsBreak(a: string, b: string)
    requires b != "" && Terminated(a + b)
    ensures b[|b| - 1] == '\n'
  {
    assert (a + b)[|a + b| - 1] == b[|b| - 1];
  }

  lemma FirstLineIsWhole(first: string, rest: string, tail: string)
    requires IsRecord(first) && tail <= first + "\n" + rest && tail != "" && tail[|tail| - 1] == '\n'
    ensures |tail| > |first| && tail[..|first| + 1] == first + "\n" && tail[|first| + 1..] <= rest
  {
    var all := first + "\n" + rest;
    assert forall i :: 0 <= i < |tail| ==> tail[i] == all[i];
    assert forall i :: 0 <= i < |first| ==> all[i] == first[i];
    assert all[|first| + 1..] == rest;
  }

  lemma MoreLines(lines: seq<string>, tail: string, more: string)
    requires AllRecords(lines) && more <= Joined(lines) && |more| < |tail| && more == tail[|tail| - |more|..]
    requires tail[|tail| - 1] == '\n'
    ensures |Records(more)| <= |lines|
  {
    hide Records, Joined;
    RecordsJoined(lines);
    assert Terminated(more);
    RecordsAppend(more, Joined(lines)[|more|..]);
    assert more + Joined(lines)[|more|..] == Joined(lines);
  }

  /** When records are stranded they are all in the claim, and the spill file holds at most what
      arrived meanwhile. */
  lemma StrandedLeaves(files: Files, cb: Callback, faults: Faults)
    requires Terminated(Content(files.spill)) && Stranded(files, cb, faults)
    ensures var o := Flush(files, cb, faults);
            && o.files.claim == files.spill && o.advanced == 0 && |o.consumed| < |Records(files.spill.value)|
            && o.files.spill == if GivesUp(files, cb, faults) then Arrivals(o.arrived) else None
  {
    hide Records, Joined, Accounts, Readable;
    var content := files.spill.value;
    if !faults.openClaim {
      ReadSplits(content, faults.read);
      ReplaySplits(Readable(content, faults.read), cb, 0);
      RefusalRemains(Readable(content, faults.read), Seen(files, cb, faults));
    }
  }

  lemma RefusalRemains(content: string, r: Replayed)
    requires Accounts(content, r) && r.refused.Some?
    ensures |r.consumed| < |Records(content)|
  {
  }

  lemma StrandedIsIncomplete(files: Files, cb: Callback, faults: Faults)
    requires Terminated(Content(files.spill)) && ArrivesWell(files, cb, faults) && Stranded(files, cb, faults)
    ensures !Complete(Flush(files, cb, faults), Records(Content(files.spill)))
  {
    hide Records, Joined, Flush, Stranded, Terminated, IsRecord, Readable;
    var o, before := Flush(files, cb, faults), Records(Content(files.spill));
    StrandedHasFile(files, cb, faults);
    StrandedLeaves(files, cb, faults);
    EmptyRecords();
    if GivesUp(files, cb, faults) { ArrivedWell(files, cb, faults); ArrivalRecords(o.arrived); }
    assert |before + o.arrived| > |o.arrived| && o.consumed[..0] == [];
    assert [] + Records(Content(o.files.spill)) == Records(Content(o.files.spill));
  }

  lemma StrandedHasFile(files: Files, cb: Callback, faults: Faults)
    requires Stranded(files, cb, faults)
    ensures files.spill.Some?
  {
  }

  lemma ArrivedWell(files: Files, cb: Callback, faults: Faults)
    requires ArrivesWell(files, cb, faults)
    ensures AllRecords(Flush(files, cb, faults).arrived)
  {
    hide Replay, IsRecord, Readable;
  }

  /** Without a refusal nothing is lost unless a record is left unread. */
  lemma ReadThrough(files: Files, cb: Callback, faults: Faults)
    requires Terminated(Content(files.spill)) && ArrivesWell(files, cb, faults)
    requires Replays(files, faults) && !HasRefusal(files, cb, faults)
    ensures Complete(Flush(files, cb, faults), Records(Content(files.spill))) <==> LeavesNoneUnread(files, cb, faults)
  {
    hide Records, Joined, Accounts, Readable, Flush, IsRecord;
    var content, o, r := files.spill.value, Flush(files, cb, faults), Seen(files, cb, faults);
    var seen, unread := Records(Readable(content, faults.read)), Records(content[ReadLen(content, faults.read)..]);
    FlushLeaves(files, cb, faults) by { assert !Stranded(files, cb, faults); }
    ReadSplits(content, faults.read);
    ReplaySplits(Readable(content, faults.read), cb, 0);
    AllConsumed(Readable(content, faults.read), r);
    ArrivalRecords(r.arrived);
    assert "" + Content(Arrivals(r.arrived)) == Content(Arrivals(r.arrived));
    assert o.consumed[..o.advanced] == seen;
    assert seen + unread + o.arrived == seen + (unread + o.arrived);
    SplitEqual(seen, unread + o.arrived, seen, o.arrived);
    assert unread + o.arrived == o.arrived <==> unread == [] by {
      if unread != [] { assert |unread + o.arrived| > |o.arrived|; }
    }
  }

  lemma AllConsumed(content: string, r: Replayed)
    requires Accounts(content, r) && r.refused.None?
    ensures Records(content) == r.consumed
  {
  }

  /** With a refusal nothing is lost unless the remainder or what arrived is cut. */
  lemma RefusedThrough(files: Files, cb: Callback, faults: Faults)
    requires Terminated(Content(files.spill)) && ArrivesWell(files, cb, faults)
    requires HasRefusal(files, cb, faults) && !GivesUp(files, cb, faults) && !Stranded(files, cb, faults)
    ensures Complete(Flush(files, cb, faults), Records(Content(files.spill)))
            <==> LeavesNoneUnread(files, cb, faults) && KeepsRemainder(files, cb, faults)
                 && (KeepsArrivals(files, cb, faults) || Seen(files, cb, faults).arrived == [])
  {
    hide Records, Joined, Accounts, Readable, Flush, Survivors, KeepsArrivals, Stranded, KeepsRemainder, Terminated,
         IsRecord, Remaining;
    var content, o, r := files.spill.value, Flush(files, cb, faults), Seen(files, cb, faults);
    var unread := Records(content[ReadLen(content, faults.read)..]);
    var text, front, tail := Remainder(r), Kept(files, cb, faults), Survivors(files, cb, faults);
    FlushLeaves(files, cb, faults);
    ReadSplits(content, faults.read);
    ReplaySplits(Readable(content, faults.read), cb, 0);
    RefusedAccounts(Readable(content, faults.read), r);
    RemainderRecords(r);
    SurvivorsAreAllIff(files, cb, faults);
    CutTextLoses(text, front, r.arrived, tail, unread);
    RemainderIsKeptIff(files, cb, faults);
    assert o.consumed[..o.advanced] == r.consumed;
    assert r.consumed + Records(text) + unread + r.arrived == r.consumed + (Records(text) + unread + r.arrived);
    SplitEqual(r.consumed, Records(text) + unread + r.arrived, r.consumed, Records(front + tail));
  }

  lemma RefusedAccounts(content: string, r: Replayed)
    requires Accounts(content, r) && r.refused.Some?
    ensures Terminated(r.left) && IsRecord(r.refused.value) && Records(content) == r.consumed + Remaining(r)
  {
  }

  lemma RemainderIsKeptIff(files: Files, cb: Callback, faults: Faults)
    requires HasRefusal(files, cb, faults) && !GivesUp(files, cb, faults)
    requires Terminated(Remainder(Seen(files, cb, faults)))
    ensures var text, front := Remainder(Seen(files, cb, faults)), Kept(files, cb, faults);
            && front <= text
            && (Terminated(front) && Records(front) == Records(text) <==> KeepsRemainder(files, cb, faults))
  {
    hide Records, Remainder, Replay, Readable, Terminated;
    var text, front := Remainder(Seen(files, cb, faults)), Kept(files, cb, faults);
    if faults.written.Some? && faults.written.value < |text| {
      var k := faults.written.value;
      assert front == text[..k] && front + text[k..] == text;
      if Terminated(front) {
        RecordsAppend(front, text[k..]);
        if Records(text[k..]) == [] { assert Records(front) + [] == Records(front); }
      }
    }
  }

  /** Without a replay, or when it is given up, only what arrived can be lost. */
  lemma PutBackThrough(files: Files, cb: Callback, faults: Faults)
    requires Terminated(Content(files.spill)) && ArrivesWell(files, cb, faults)
    requires (!Replays(files, faults) || GivesUp(files, cb, faults)) && !Stranded(files, cb, faults)
    ensures Complete(Flush(files, cb, faults), Records(Content(files.spill)))
            <==> KeepsArrivals(files, cb, faults) || Flush(files, cb, faults).arrived == []
  {
    hide Records, Joined, Readable, Flush, Replay, Stranded, IsRecord;
    var o, before := Flush(files, cb, faults), Records(Content(files.spill));
    FlushLeaves(files, cb, faults);
    EmptyRecords();
    assert Content(files.spill) + "" == Content(files.spill) && o.consumed[..0] == [] && [] + before == before;
    assert before + o.arrived == before <==> o.arrived == [] by {
      if o.arrived != [] { assert |before + o.arrived| > |before|; }
    }
  }

  /** Nothing is lost or torn by a flush if and only if its faults strand no records, leave none
      unread, cut none of the remainder and none of those that arrived. */
  lemma FlushLosesNothingIff(files: Files, cb: Callback, faults: Faults)
    requires Terminated(Content(files.spill)) && ArrivesWell(files, cb, faults)
    ensures var o := Flush(files, cb, faults);
            Complete(o, Records(Content(files.spill)))
            <==> && !Stranded(files, cb, faults)
                 && LeavesNoneUnread(files, cb, faults)
                 && KeepsRemainder(files, cb, faults)
                 && (KeepsArrivals(files, cb, faults) || o.arrived == [])
  {
    hide Records, Flush, Stranded, ArrivesWell, Terminated, Complete, Seen, Content;
    if Stranded(files, cb, faults) {
      StrandedIsIncomplete(files, cb, faults);
    } else if !Replays(files, faults) || GivesUp(files, cb, faults) {
      PutBackThrough(files, cb, faults);
    } else {
      FlushLeaves(files, cb, faults);
      if HasRefusal(files, cb, faults) { RefusedThrough(files, cb, faults); } else { ReadThrough(files, cb, faults); }
    }
  }

  /** A flush without faults of its own sees neither a claim nor a remainder left behind. */
  lemma LeftoversAreForgotten(files: Files, cb: Callback)
    ensures Flush(files, cb, NO_FAULTS) == Flush(Files(files.spill, None, None), cb, NO_FAULTS)
  {
    hide Replay, Joined;
  }

  /** Stranded records are lost: whatever is spilled meanwhile, the next flush hands on none of
      them, and then they are in no file any more. */
  lemma StrandedIsLost(files: Files, cb: Callback, faults: Faults, lines: seq<string>, next: Callback)
    requires Terminated(Content(files.spill)) && ArrivesWell(files, cb, faults) && Stranded(files, cb, faults)
    requires AllRecords(lines)
    ensures var o := Flush(files, cb, faults);
            var known := (if GivesUp(files, cb, faults) then o.arrived else []) + lines;
            var later := if known == [] then o.files
                         else o.files.(spill := Some(Content(o.files.spill) + Joined(lines)));
            var e := Flush(later, next, NO_FAULTS);
            && e.consumed <= known && e.advanced == |e.consumed|
            && e.files.claim.None? && e.files.rest.None?
            && (AllRecords(e.arrived) ==> known + e.arrived == e.consumed + Records(Content(e.files.spill)))
  {
    hide Records, Joined, Flush, Stranded, ArrivesWell, IsRecord;
    var o := Flush(files, cb, faults);
    StrandedHasFile(files, cb, faults);
    StrandedLeaves(files, cb, faults);
    var before := if GivesUp(files, cb, faults) then o.arrived else [];
    var known := before + lines;
    var later := if known == [] then o.files else o.files.(spill := Some(Content(o.files.spill) + Joined(lines)));
    ArrivedWell(files, cb, faults);
    ArrivalRecords(before);
    RecordsJoined(lines);
    EmptyRecords();
    RecordsAppend(Content(o.files.spill), Joined(lines));
    TerminatedAppend(Content(o.files.spill), Joined(lines));
    assert Records(Content(later.spill)) == known;
    CleanFlush(later, next);
  }

  /** What a flush without faults does, whatever was left behind. */
  lemma CleanFlush(files: Files, cb: Callback)
    requires Terminated(Content(files.spill))
    ensures var e, known := Flush(files, cb, NO_FAULTS), Records(Content(files.spill));
            && e.consumed <= known && e.advanced == |e.consumed|
            && e.files.claim.None? && e.files.rest.None?
            && (AllRecords(e.arrived) ==> Complete(e, known))
            && e.consumed[..e.advanced] == e.consumed
  {
    hide Records, Joined, Stranded, KeepsArrivals, LeavesNoneUnread, KeepsRemainder;
    FlushConsumesFront(files, cb, NO_FAULTS);
    if AllRecords(Flush(files, cb, NO_FAULTS).arrived) {
      CleanArrivals(files, cb);
      FlushLosesNothingIff(files, cb, NO_FAULTS);
    }
  }

  lemma CleanArrivals(files: Files, cb: Callback)
    ensures AllRecords(Flush(files, cb, NO_FAULTS).arrived) ==> ArrivesWell(files, cb, NO_FAULTS)
    ensures !Stranded(files, cb, NO_FAULTS) && KeepsArrivals(files, cb, NO_FAULTS)
    ensures LeavesNoneUnread(files, cb, NO_FAULTS) && KeepsRemainder(files, cb, NO_FAULTS)
  {
    hide IsRecord, Records;
    var content := Content(files.spill);
    assert content[|content|..] == "" && content[..|content|] == content;
    EmptyRecords();
  }

  // ------------------------ Torn lines ------------------------

  /** Where the last, unfinished line of a file begins. */
  function LastBreak(s: string): (n: nat)
    ensures n <= |s|
  {
    if s == "" then 0 else if s[|s| - 1] == '\n' then |s| else LastBreak(s[..|s| - 1])
  }

  lemma {:induction false} BehindLastBreak(s: string)
    ensures Terminated(s[..LastBreak(s)]) && forall i :: LastBreak(s) <= i < |s| ==> s[i] != '\n'
  {
    if s != "" {
      if s[|s| - 1] == '\n' {
        assert s[..|s|] == s;
      } else {
        var front := s[..|s| - 1];
        BehindLastBreak(front);
        assert front[..LastBreak(front)] == s[..LastBreak(front)];
      }
    }
  }

  lemma {:induction false} PieceRecords(t: string)
    requires forall i :: 0 <= i < |t| ==> t[i] != '\n'
    ensures Records(t) == if Trim(t) == "" then [] else [Trim(t)]
  {
    hide Trim;
    if t != "" {
      PieceEnd(t);
      assert t[..|t|] == t && t[|t|..] == "";
    } else {
      TrimNothing();
    }
  }

  lemma TrimNothing()
    ensures Trim("") == ""
  {
  }

  lemma {:induction false} PieceEnd(t: string)
    requires t != "" && forall i :: 0 <= i < |t| ==> t[i] != '\n'
    ensures LineEnd(t) == |t|
  {
    if |t| > 1 { PieceEnd(t[1..]); }
  }

  /** A line appended behind an unfinished one becomes part of it. */
  lemma GluedRecord(content: string, line: string)
    requires IsRecord(line)
    ensures var n := LastBreak(content);
            && Records(content) == Records(content[..n]) + Records(content[n..])
            && Records(content + (line + "\n")) == Records(content[..n]) + [content[n..] + line]
  {
    hide Records, Terminated, LastBreak;
    BehindLastBreak(content);
    var n := LastBreak(content);
    var a, t := content[..n], content[n..];
    assert a + t == content;
    assert content + (line + "\n") == a + (t + line + "\n");
    RecordsAppend(a, t);
    RecordsAppend(a, t + line + "\n");
    OneRecord(t + line);
  }

  /** A spilled line is a record of its own if and only if the file did not end in the middle of
      a line. */
  lemma SpillSurvivesIff(content: string, line: string)
    requires IsRecord(line)
    ensures Records(content + (line + "\n")) == Records(content) + [line] <==> Terminated(content)
  {
    hide Records, LastBreak;
    BehindLastBreak(content);
    var n := LastBreak(content);
    var a, t := content[..n], content[n..];
    GluedRecord(content, line);
    if Terminated(content) {
      OneRecord(line);
      RecordsAppend(content, line + "\n");
    } else {
      assert content[..|content|] == content;
      assert t != "";
      PieceRecords(t);
      assert t[|t| - 1] == content[|content| - 1];
      SplitEqual(Records(a), [t + line], Records(a), Records(t) + [line]);
      assert Records(a) + Records(t) + [line] == Records(a) + (Records(t) + [line]);
      assert [t + line][0] != line by { assert |t + line| > |line|; }
      if Records(t) == [] { assert Records(t) + [line] == [line]; }
      assert Records(content) == Records(a) + Records(t);
      assert [t + line] != Records(t) + [line];
    }
  }

  /** The exact damage of a write that stops inside a line: the piece counts as a record until the
      next line is glued to it. */
  lemma TornSpill(content: string, line: string, written: nat, next: string)
    requires Terminated(content) && IsRecord(line) && IsRecord(next) && 0 < written <= |line|
    ensures var piece := line[..written];
            && !Terminated(content + piece)
            && Records(content + piece) == Records(content) + (if Trim(piece) == "" then [] else [Trim(piece)])
            && Records(content + piece + (next + "\n")) == Records(content) + [piece + next]
  {
    hide Records, Trim;
    var piece := line[..written];
    PieceRecords(piece);
    RecordsAppend(content, piece);
    OneRecord(piece + next);
    RecordsAppend(content, piece + next + "\n");
    assert content + piece + (next + "\n") == content + (piece + next + "\n");
  }

  // ------------------------ Examples ------------------------

  /** A callback that refuses everything, while one line arrives. */
  const REFUSING := Callback(Always(1), Always(["c"]))
  /** A callback that takes everything, while nothing arrives. */
  const TAKING := Callback(Always(0), Always([]))

  function Always<T>(x: T): nat -> T {
    (n: nat) => x
  }

  const ONE := Files(Some("a\n"), None, None)

  lemma RefusedAtOnce()
    ensures Replay("a\n", REFUSING, 0) == Replayed([], ["c"], Some("a"), "")
  {
    var s := "a\n";
    LineEndOf("a");
    assert "a" + "\n" == s && s[..2] == s && s[2..] == "" && s[..1] == "a";
    assert Trim(s) == Trim("a") == "a";
  }

  lemma RefusedSeen(faults: Faults)
    requires faults.read.None?
    ensures Seen(ONE, REFUSING, faults) == Replayed([], ["c"], Some("a"), "")
    ensures Replay(Readable("a\n", None), REFUSING, 0) == Replayed([], ["c"], Some("a"), "")
  {
    assert "a\n"[..2] == "a\n";
    RefusedAtOnce();
  }

  lemma OneLine()
    ensures Joined(["c"]) == "c\n" && Arrivals(["c"]) == Some("c\n")
  {
    assert ["c"][1..] == [] && "c" + "\n" + "" == "c\n";
  }

  /** When the new spill file cannot be reopened, the line that arrived is gone. */
  lemma ArrivalIsLost()
    ensures Flush(ONE, REFUSING, NO_FAULTS.(openSpill := true)).files == ONE
  {
    hide Replay, Joined, Readable;
    RefusedSeen(NO_FAULTS);
    OneLine();
    assert "a" + "\n" + "" == "a\n";
  }

  /** When the disk is full while it is copied, so is part of it, and no fault is reported. */
  lemma ArrivalIsTorn()
    ensures var o := Flush(ONE, REFUSING, NO_FAULTS.(copied := Some(1)));
            o.rc == 1 && o.files == Files(Some("a\nc"), None, None)
  {
    hide Replay, Joined, Readable;
    RefusedSeen(NO_FAULTS);
    OneLine();
    assert "c\n"[..1] == "c" && "a" + "\n" + "" + "c" == "a\nc";
  }

  /** When the remainder cannot be renamed, the next flush leaves nothing. */
  lemma QueueIsLost(next: Callback)
    ensures var o := Flush(ONE, REFUSING, NO_FAULTS.(putRest := true));
            && o.files.spill.None? && o.files.claim == Some("a\n")
            && Flush(o.files, next, NO_FAULTS).files == Files(None, None, None)
  {
    hide Replay, Joined, Readable;
    RefusedSeen(NO_FAULTS);
  }

  /** When reading fails behind the first of two lines, the second is deleted unread, and the flush
      reports success. */
  lemma UnreadIsLost()
    ensures var o := Flush(Files(Some("a\nb\n"), None, None), TAKING, NO_FAULTS.(read := Some(1)));
            o.rc == 0 && o.consumed == ["a"] && o.files == Files(None, None, None)
  {
    var s := "a\nb\n";
    LineEndOf("a");
    assert s[0] == 'a' && s[1] == '\n' && s[1..][0] == '\n' && LineEnd(s) == 2;
    assert LinesLen(s, 1) == 2 + LinesLen(s[2..], 0) == 2;
    assert Readable(s, Some(1)) == s[..2] == "a\n";
    TakenAtOnce();
  }

  lemma TakenAtOnce()
    ensures Replay("a\n", TAKING, 0) == Replayed(["a"], [], None, "")
  {
    var s := "a\n";
    LineEndOf("a");
    assert "a" + "\n" == s && s[..2] == s && s[2..] == "" && s[..1] == "a";
    assert Trim(s) == Trim("a") == "a";
    assert Replay("", TAKING, 1) == Replayed([], [], None, "");
    assert ["a"] + [] == ["a"];
  }

  /** "ab" written up to its first character, and "c" after it, are one record. */
  lemma TornExample()
    ensures Records("" + "a" + ("c" + "\n")) == ["ac"]
  {
    hide Records;
    EmptyRecords();
    TornSpill("", "ab", 1, "c");
    assert "ab"[..1] == "a" && "a" + "c" == "ac" && [] + ["ac"] == ["ac"];
  }
}
