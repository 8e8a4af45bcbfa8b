/** pw_db_buf_t: the code of the spill queue, proved against the file protocol of `SpillQueue`. */
module SpillBuffer {
  import opened Bytes
  import opened SpillQueue
  import opened SpillRuns

  class Buffer {
    var files: Files
    var online: bool
    var spilled: nat
    var flushed: nat
    var dropped: nat

    constructor ()
      ensures files == EMPTY.files && !online && spilled == flushed == dropped == 0
    {
      files, online, spilled, flushed, dropped := EMPTY.files, false, 0, 0, 0;
    }

    /** Appends one line. When the write fails, an unknown part of it may be in the file. */
    method Spill(line: string, opens: bool, written: nat) returns (rc: int)
      modifies this
      ensures online == old(online) && flushed == old(flushed)
      ensures rc == 0 <==> opens && written > |line|
      ensures rc == 0 ==> files == old(files.(spill := Some(Content(files.spill) + (line + "\n"))))
      ensures rc == 0 ==> spilled == old(spilled) + 1
      ensures rc != 0 ==> rc == -1 && spilled == old(spilled) && dropped == old(dropped) + 1
      ensures rc != 0 ==>
                files == if opens then old(files.(spill := Some(Content(files.spill) + Take(line + "\n", written))))
                         else old(files)
    {
      if !opens {
        dropped := dropped + 1;
        return -1;
      }
      files := files.(spill := Some(Content(files.spill) + Take(line + "\n", written)));
      if written <= |line| {
        dropped := dropped + 1;
        return -1;
      }
      spilled := spilled + 1;
      return 0;
    }

    /** pw_db_buf_flush, given whether the connection is there and healthy. */
    method Flush(connected: bool, healthy: bool, cb: Callback, faults: Faults) returns (rc: int)
      modifies this
      ensures spilled == old(spilled) && dropped == old(dropped)
      ensures online == (old(online) && (connected ==> healthy))
      ensures old(online) && connected && healthy ==>
                var o := SpillQueue.Flush(old(files), cb, faults);
                files == o.files && rc == o.rc && flushed == old(flushed) + |o.consumed|
      ensures !(old(online) && connected && healthy) ==> rc == -1 && files == old(files) && flushed == old(flushed)
    {
      hide Replay, Joined;
      if !online || !connected { return -1; }
      if !healthy {
        online := false;
        return -1;
      }
      if files.spill.None? {
        files := Files(None, None, None); // stale claim and remainder
        return 0;
      }
      if faults.claim { return -1; }
      var content := files.spill.value;
      files := Files(None, Some(content), files.rest);
      if faults.openClaim {
        PutBack(faults);
        return -1;
      }
      var refused, pos, left := ReplayClaim(content, cb, faults.read);
      if refused.Some? {
        rc := StopFlush(content, pos, left, refused.value, faults);
        return;
      }
      files := Files(files.spill, if faults.dropClaim then files.claim else None, None);
      return 0;
    }

    /** Renames the claim over the spill file. */
    method PutBack(faults: Faults)
      modifies `files
      ensures files == SpillQueue.PutBack(old(files), faults)
    {
      if !faults.putBack { files := Files(files.claim, None, files.rest); }
    }

    /** The loop over the lines of the claim, up to the first refusal. `read` says after how many
        lines getline fails; `left` is what remains of that number. */
    method ReplayClaim(content: string, cb: Callback, read: Option<nat>)
        returns (refused: Option<string>, pos: nat, left: Option<nat>)
      requires files.spill.None?
      modifies `files, `flushed
      ensures pos <= |content|
      ensures var r := Replay(Readable(content, read), cb, 0);
              && refused == r.refused && (refused.Some? ==> Readable(content[pos..], left) == r.left)
              && flushed == old(flushed) + |r.consumed|
              && files == old(files).(spill := Arrivals(r.arrived))
    {
      hide Trim, LineEnd, Arrivals, Replay, After, Readable;
      pos, left := 0, read;
      var call := 0;
      ghost var taken: seq<string>, arrived: seq<string> := [], [];
      ghost var goal := Replay(Readable(content, read), cb, 0);
      assert content[0..] == content;
      WithNothing(goal);
      assert Arrivals([]) == None by { NoArrivals(); }
      while pos < |content| && left != Some(0)
        invariant 0 <= pos <= |content|
        invariant files == old(files).(spill := Arrivals(arrived)) && flushed == old(flushed) + |taken|
        invariant goal == After(taken, arrived, Replay(Readable(content[pos..], left), cb, call))
        decreases |content| - pos
      {
        ReadableStep(content, pos, left);
        ReplayOne(Readable(content[pos..], left), 0, taken, arrived, cb, call);
        var n := LineEnd(content[pos..]);
        var line := Trim(content[pos..][..n]);
        pos := pos + n;
        left := OneLess(left);
        if line == "" { continue; }
        Arrive(cb.arrivals(call), arrived);
        arrived := arrived + cb.arrivals(call);
        if cb.answer(call) != 0 { return Some(line), pos, left; }
        flushed := flushed + 1;
        taken := taken + [line];
        call := call + 1;
      }
      NothingReadable(content, pos, left);
      ReplayNone(taken, arrived, cb, call);
      refused := None;
    }

    /** Others append to the spill path while the callback runs. */
    method Arrive(lines: seq<string>, ghost before: seq<string>)
      requires files.spill == Arrivals(before)
      modifies `files
      ensures files == old(files).(spill := Arrivals(before + lines))
    {
      JoinedAppend(before, lines);
      if lines != [] {
        files := files.(spill := Some(Content(files.spill) + Joined(lines)));
      }
    }

    /** Keeps the refused record and everything after it, ahead of what arrived meanwhile. */
    method StopFlush(content: string, pos: nat, left: Option<nat>, refused: string, faults: Faults) returns (rc: int)
      requires pos <= |content| && files.claim == Some(content)
      modifies `files
      ensures forall r: Replayed :: r.refused == Some(refused) && r.left == Readable(content[pos..], left) ==>
                var o := Stop(content, old(files.spill), old(files.rest), r, faults); files == o.files && rc == o.rc
    {
      if faults.openRest {
        PutBack(faults);
        return -1;
      }
      var text := CopyRest(content, pos, left, refused + "\n");
      text := Copied(text, faults.written);
      if faults.closeRest {
        PutBack(faults);
        files := files.(rest := None);
        return -1;
      }
      if !faults.openSpill && !faults.openOut { text := text + Copied(Content(files.spill), faults.copied); }
      if faults.putRest {
        files := Files(None, files.claim, Some(text));
        return -1;
      }
      files := Files(Some(text), if faults.dropClaim then files.claim else None, None);
      return 1;
    }
  }

  /** Copies the unread lines to the remainder, as far as they can be read. */
  method CopyRest(content: string, from: nat, read: Option<nat>, start: string) returns (text: string)
    requires from <= |content|
    ensures text == start + Readable(content[from..], read)
  {
    hide Readable, LineEnd;
    text := start;
    var pos, left := from, read;
    while pos < |content| && left != Some(0)
      invariant from <= pos <= |content|
      invariant text + Readable(content[pos..], left) == start + Readable(content[from..], read)
      decreases |content| - pos
    {
      ReadableStep(content, pos, left);
      var n := LineEnd(content[pos..]);
      Associates(text, content[pos..][..n], Readable(content[pos + n..], OneLess(left)));
      text := text + content[pos..][..n];
      pos, left := pos + n, OneLess(left);
    }
    NothingReadable(content, pos, left);
  }

  function OneLess(left: Option<nat>): Option<nat> {
    match left
    case Some(n) => if n == 0 then left else Some(n - 1)
    case None => None
  }

  /** One getline: what can be read is its line and what can be read after it. */
  lemma ReadableStep(content: string, pos: nat, left: Option<nat>)
    requires pos < |content| && left != Some(0)
    ensures var s, n := Readable(content[pos..], left), LineEnd(content[pos..]);
            && s == content[pos..][..n] + Readable(content[pos + n..], OneLess(left))
            && s != "" && LineEnd(s) == n && n <= |content| - pos && s[..n] == content[pos..][..n]
            && s[n..] == Readable(content[pos + n..], OneLess(left))
  {
    hide Readable, LineEnd;
    var t := content[pos..];
    var n := LineEnd(t);
    ReadableFront(t, left);
    assert t[n..] == content[pos + n..];
    Seam(t[..n], Readable(t[n..], OneLess(left)));
    LineEndOfPrefix(t, Readable(t, left));
  }

  lemma ReadableFront(t: string, left: Option<nat>)
    requires t != "" && left != Some(0)
    ensures Readable(t, left) == t[..LineEnd(t)] + Readable(t[LineEnd(t)..], OneLess(left))
    ensures Readable(t, left) <= t
  {
    hide LineEnd, LinesLen, ReadLen;
    var n := LineEnd(t);
    ReadLenStep(t, left);
    JoinedPrefix(t, n, ReadLen(t[n..], OneLess(left)));
  }

  lemma ReadLenStep(t: string, left: Option<nat>)
    requires t != "" && left != Some(0)
    ensures ReadLen(t, left) == LineEnd(t) + ReadLen(t[LineEnd(t)..], OneLess(left))
  {
    hide LineEnd, LinesLen;
    if left.Some? { LinesLenStep(t, left.value); }
  }

  lemma LinesLenStep(t: string, n: nat)
    requires t != "" && n > 0
    ensures LinesLen(t, n) == LineEnd(t) + LinesLen(t[LineEnd(t)..], n - 1)
  {
    hide LineEnd;
  }

  lemma JoinedPrefix(t: string, n: nat, m: nat)
    requires n <= |t| && m <= |t| - n
    ensures t[..n + m] == t[..n] + t[n..][..m]
  {
  }

  lemma {:induction false} LineEndOfPrefix(t: string, s: string)
    requires t != "" && s <= t && LineEnd(t) <= |s|
    ensures LineEnd(s) == LineEnd(t)
  {
    if t[0] != '\n' && |t| > 1 { LineEndOfPrefix(t[1..], s[1..]); }
  }

  lemma NothingReadable(content: string, pos: nat, left: Option<nat>)
    requires pos <= |content| && (pos == |content| || left == Some(0))
    ensures Readable(content[pos..], left) == ""
  {
  }

  /** A replay with records already consumed and lines already arrived in front of it. */
  function After(taken: seq<string>, arrived: seq<string>, r: Replayed): Replayed {
    Replayed(taken + r.consumed, arrived + r.arrived, r.refused, r.left)
  }

  lemma WithNothing(r: Replayed)
    ensures After([], [], r) == r
  {
    assert [] + r.consumed == r.consumed && [] + r.arrived == r.arrived;
  }

  lemma AfterOne(taken: seq<string>, arrived: seq<string>, line: string, more: seq<string>, r: Replayed)
    ensures After(taken, arrived, Replayed([line] + r.consumed, more + r.arrived, r.refused, r.left))
            == After(taken + [line], arrived + more, r)
  {
    assert taken + ([line] + r.consumed) == taken + [line] + r.consumed;
    assert arrived + (more + r.arrived) == arrived + more + r.arrived;
  }

  lemma NoArrivals()
    ensures Arrivals([]) == None
  {
  }

  /** One iteration of the replay loop. */
  lemma ReplayOne(content: string, pos: nat, taken: seq<string>, arrived: seq<string>, cb: Callback, call: nat)
    requires pos < |content|
    ensures var n := LineEnd(content[pos..]);
            var line, tail, all := Trim(content[pos..][..n]), content[pos + n..],
                After(taken, arrived, Replay(content[pos..], cb, call));
            if line == "" then all == After(taken, arrived, Replay(tail, cb, call))
            else if cb.answer(call) != 0 then all == Replayed(taken, arrived + cb.arrivals(call), Some(line), tail)
            else all == After(taken + [line], arrived + cb.arrivals(call), Replay(tail, cb, call + 1))
  {
    hide Trim, LineEnd;
    var n := LineEnd(content[pos..]);
    var line, tail := Trim(content[pos..][..n]), content[pos + n..];
    assert content[pos..][n..] == tail;
    assert taken + [] == taken;
    AfterOne(taken, arrived, line, cb.arrivals(call), Replay(tail, cb, call + 1));
  }

  lemma ReplayNone(taken: seq<string>, arrived: seq<string>, cb: Callback, call: nat)
    ensures After(taken, arrived, Replay("", cb, call)) == Replayed(taken, arrived, None, "")
  {
    assert taken + [] == taken && arrived + [] == arrived;
  }

  lemma {:induction false} JoinedAppend(a: seq<string>, b: seq<string>)
    ensures Joined(a + b) == Joined(a) + Joined(b)
    ensures b == [] ==> a + b == a
  {
    if a == [] {
      assert a + b == b;
    } else {
      assert (a + b)[1..] == a[1..] + b;
      JoinedAppend(a[1..], b);
      assert a[0] + "\n" + (Joined(a[1..]) + Joined(b)) == a[0] + "\n" + Joined(a[1..]) + Joined(b);
    }
  }
}
