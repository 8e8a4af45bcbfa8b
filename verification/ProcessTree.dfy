/** The process-tree snapshot (wrap.c, proc_scan.c, main.c): a worklist walk over the processes
    below a root, and what it finds. */
module ProcessTree {
  import opened Bytes

  type pid = int

  /** The process table, held fixed during one scan: whose stat file can be read, and which
      children the kernel lists. */
  datatype Graph = Graph(readable: pid -> bool, kids: pid -> seq<pid>)

  // ------------------------ What should be found ------------------------

  /** `x` can be reached in `n` steps from the root through readable processes, itself included. */
  ghost predicate Reaches(g: Graph, root: pid, x: pid, n: nat)
    decreases n
  {
    g.readable(x) &&
    if n == 0 then x == root else exists y :: Reaches(g, root, y, n - 1) && x in g.kids(y)
  }

  ghost predicate Reachable(g: Graph, root: pid, x: pid) {
    exists n :: Reaches(g, root, x, n)
  }

  ghost predicate IsDistance(g: Graph, root: pid, x: pid, d: nat) {
    Reaches(g, root, x, d) && forall m :: 0 <= m < d ==> !Reaches(g, root, x, m)
  }

  predicate Distinct(s: seq<pid>) {
    forall i, j :: 0 <= i < j < |s| ==> s[i] != s[j]
  }

  predicate Ascending(s: seq<nat>) {
    forall i, j :: 0 <= i < j < |s| ==> s[i] <= s[j]
  }

  ghost predicate ClosedUnder(g: Graph, all: set<pid>) {
    forall p, k :: p in all && k in g.kids(p) ==> k in all
  }

  // ------------------------ The worklist ------------------------

  /** Every queued process but the root was listed by an earlier readable one, one level up. */
  ghost predicate Grounded(g: Graph, queue: seq<pid>, level: seq<nat>, parent: seq<nat>) {
    && |queue| == |level| == |parent|
    && forall i :: 0 < i < |queue| ==>
         && parent[i] < i
         && g.readable(queue[parent[i]])
         && queue[i] in g.kids(queue[parent[i]])
         && level[i] == level[parent[i]] + 1
  }

  ghost predicate Queued(queue: seq<pid>, level: seq<nat>, k: pid, most: nat)
    requires |queue| == |level|
  {
    exists i :: 0 <= i < |queue| && queue[i] == k && level[i] <= most
  }

  /** The children of the processed prefix are queued, at most one level down. */
  ghost predicate Expanded(g: Graph, queue: seq<pid>, level: seq<nat>, head: nat)
    requires |queue| == |level| && head <= |queue|
  {
    forall j, k :: 0 <= j < head && g.readable(queue[j]) && k in g.kids(queue[j])
        ==> Queued(queue, level, k, level[j] + 1)
  }

  /** The levels ascend and span at most two values from `head` on. */
  ghost predicate Leveled(queue: seq<pid>, level: seq<nat>, head: nat)
    requires |queue| == |level| && head <= |queue|
  {
    && Ascending(level)
    && (head < |queue| ==> level[|queue| - 1] <= level[head] + 1)
  }

  lemma {:induction false} GroundedReaches(g: Graph, queue: seq<pid>, level: seq<nat>, parent: seq<nat>, i: nat)
    requires Grounded(g, queue, level, parent) && i < |queue| && level[0] == 0 && g.readable(queue[i])
    ensures Reaches(g, queue[0], queue[i], level[i])
    decreases i
  {
    if i > 0 {
      GroundedReaches(g, queue, level, parent, parent[i]);
      assert Reaches(g, queue[0], queue[parent[i]], level[i] - 1);
    }
  }

  lemma {:induction false} ReachesIsQueued(g: Graph, queue: seq<pid>, level: seq<nat>, x: pid, n: nat)
    requires |queue| == |level| > 0 && level[0] == 0 && Expanded(g, queue, level, |queue|)
    requires Reaches(g, queue[0], x, n)
    ensures Queued(queue, level, x, n)
    decreases n
  {
    if n > 0 {
      var y :| Reaches(g, queue[0], y, n - 1) && x in g.kids(y);
      ReachesIsQueued(g, queue, level, y, n - 1);
      var j :| 0 <= j < |queue| && queue[j] == y && level[j] <= n - 1;
      assert g.readable(queue[j]);
      assert Queued(queue, level, x, level[j] + 1);
    }
  }

  lemma {:induction false} DistinctFits(s: seq<pid>, all: set<pid>)
    requires Distinct(s) && forall x :: x in s ==> x in all
    ensures |s| <= |all|
    decreases |s|
  {
    if s != [] {
      var last := s[|s| - 1];
      DistinctFits(s[..|s| - 1], all - {last});
    }
  }

  /** Queuing one more child of `queue[head]` keeps everything. */
  lemma Enqueue(g: Graph, queue: seq<pid>, level: seq<nat>, parent: seq<nat>, head: nat, k: pid)
    requires Grounded(g, queue, level, parent) && head < |queue| && Leveled(queue, level, head) && Distinct(queue)
    requires g.readable(queue[head]) && k in g.kids(queue[head]) && k !in queue
    ensures var q, l, p := queue + [k], level + [level[head] + 1], parent + [head];
            && Grounded(g, q, l, p)
            && Leveled(q, l, head)
            && Distinct(q)
            && Queued(q, l, k, l[head] + 1)
            && (forall x, most: nat :: Queued(queue, level, x, most) ==> Queued(q, l, x, most))
  {
    var q, l := queue + [k], level + [level[head] + 1];
    assert q[|queue|] == k && l[|queue|] <= l[head] + 1;
    forall x, most: nat | Queued(queue, level, x, most) ensures Queued(q, l, x, most) {
      var i :| 0 <= i < |queue| && queue[i] == x && level[i] <= most;
      assert q[i] == x && l[i] <= most;
    }
  }

  // ------------------------ The code ------------------------

  /** pid_list_contains. */
  method PidListContains(p: pid, list: seq<pid>) returns (found: bool)
    ensures found <==> p in list
  {
    for i := 0 to |list|
      invariant p !in list[..i]
    {
      if list[i] == p { return true; }
    }
    return false;
  }

  /** pid_seen: queued, or already in the snapshot. */
  method PidSeen(p: pid, queue: seq<pid>, snaps: seq<pid>) returns (seen: bool)
    ensures seen <==> p in queue || p in snaps
  {
    seen := PidListContains(p, queue);
    if !seen { seen := PidListContains(p, snaps); }
  }

  /** The entries that read_children_pids should return for the child lists of a process's
      threads: positive pids, each at its first occurrence. */
  function Deduped(tokens: seq<int>, out: seq<pid>): seq<pid> {
    if tokens == [] then out
    else Deduped(tokens[1..], if tokens[0] > 0 && tokens[0] !in out then out + [tokens[0]] else out)
  }

  lemma {:induction false} DedupedMeans(tokens: seq<int>, out: seq<pid>)
    requires Distinct(out)
    ensures Distinct(Deduped(tokens, out))
    ensures forall x :: x in Deduped(tokens, out) <==> x in out || (x > 0 && x in tokens)
  {
    if tokens != [] {
      var next := if tokens[0] > 0 && tokens[0] !in out then out + [tokens[0]] else out;
      DedupedMeans(tokens[1..], next);
      forall x ensures x in tokens <==> x == tokens[0] || x in tokens[1..] {
        assert tokens == [tokens[0]] + tokens[1..];
      }
    }
  }

  /** read_children_pids on the readable child lists: it fails when there is none. */
  method ReadChildrenPids(lists: seq<seq<int>>) returns (kids: Option<seq<pid>>)
    ensures kids == if lists == [] then None else Some(Deduped(Flat(lists), []))
  {
    var out: seq<pid> := [];
    assert lists[0..] == lists;
    for i := 0 to |lists|
      invariant Deduped(Flat(lists[i..]), out) == Deduped(Flat(lists), [])
    {
      assert lists[i..][1..] == lists[i + 1..];
      ghost var rest := Flat(lists[i + 1..]);
      assert lists[i][0..] == lists[i];
      for j := 0 to |lists[i]|
        invariant Deduped(lists[i][j..] + rest, out) == Deduped(Flat(lists), [])
      {
        assert (lists[i][j..] + rest)[1..] == lists[i][j + 1..] + rest;
        var cpid := lists[i][j];
        if cpid > 0 {
          var known := PidListContains(cpid, out);
          if !known { out := out + [cpid]; }
        }
      }
      assert lists[i][|lists[i]|..] + rest == rest;
    }
    if lists == [] { return None; }
    return Some(out);
  }

  function Flat(lists: seq<seq<int>>): seq<int> {
    if lists == [] then [] else lists[0] + Flat(lists[1..])
  }

  /** The snapshot holds, for each entry, where it was queued. */
  ghost predicate Snapshot(g: Graph, queue: seq<pid>, level: seq<nat>, head: nat, nodes: seq<pid>, dist: seq<nat>,
                           at: seq<nat>)
    requires |queue| == |level| && head <= |queue|
  {
    && |nodes| == |dist| == |at|
    && (forall i :: 0 <= i < |at| ==>
          at[i] < head && nodes[i] == queue[at[i]] && dist[i] == level[at[i]] && g.readable(nodes[i]))
    && (forall i, j :: 0 <= i < j < |at| ==> at[i] < at[j])
    && (forall j :: 0 <= j < head && g.readable(queue[j]) ==> j in at)
  }

  lemma SnapshotGrows(g: Graph, queue: seq<pid>, level: seq<nat>, more: seq<pid>, deeper: seq<nat>, head: nat,
                      nodes: seq<pid>, dist: seq<nat>, at: seq<nat>)
    requires |queue| == |level| && head <= |queue| && |more| == |deeper|
    requires Snapshot(g, queue, level, head, nodes, dist, at)
    ensures Snapshot(g, queue + more, level + deeper, head, nodes, dist, at)
  {
  }

  /** The loop over the children of the process at `head`. */
  method QueueKids(g: Graph, kids: seq<pid>, queue0: seq<pid>, nodes: seq<pid>, ghost level0: seq<nat>,
                   ghost parent0: seq<nat>,
                   head: nat, ghost all: set<pid>)
      returns (queue: seq<pid>, ghost level: seq<nat>, ghost parent: seq<nat>)
    requires Grounded(g, queue0, level0, parent0) && head < |queue0| && Leveled(queue0, level0, head)
             && Distinct(queue0)
    requires g.readable(queue0[head]) && g.kids(queue0[head]) == kids && Expanded(g, queue0, level0, head)
    requires forall x :: x in nodes ==> x in queue0
    requires ClosedUnder(g, all) && forall x :: x in queue0 ==> x in all
    ensures queue0 <= queue && |level| == |queue| && level0 <= level
    ensures Grounded(g, queue, level, parent) && Leveled(queue, level, head) && Distinct(queue)
    ensures Expanded(g, queue, level, head + 1)
    ensures forall x :: x in queue ==> x in all
  {
    hide Grounded, Leveled, Distinct, Queued;
    LengthsAgree(g, queue0, level0, parent0);
    queue, level, parent := queue0, level0, parent0;
    for k := 0 to |kids|
      invariant queue0 <= queue && |level| == |queue| && level0 <= level
      invariant Grounded(g, queue, level, parent) && Leveled(queue, level, head) && Distinct(queue)
      invariant forall x, most: nat :: Queued(queue0, level0, x, most) ==> Queued(queue, level, x, most)
      invariant forall x :: x in kids[..k] ==> Queued(queue, level, x, level[head] + 1)
      invariant forall x :: x in queue ==> x in all
    {
      assert kids[..k + 1] == kids[..k] + [kids[k]];
      var seen := PidSeen(kids[k], queue, nodes);
      if !seen {
        Enqueue(g, queue, level, parent, head, kids[k]);
        LengthsAgree(g, queue, level, parent);
        queue, level, parent := queue + [kids[k]], level + [level[head] + 1], parent + [head];
      } else {
        SeenIsQueued(queue, level, head, kids[k]);
      }
    }
    assert kids[..|kids|] == kids;
    ExpandedStep(g, queue0, level0, queue, level, head);
  }

  lemma LengthsAgree(g: Graph, queue: seq<pid>, level: seq<nat>, parent: seq<nat>)
    requires Grounded(g, queue, level, parent)
    ensures |queue| == |level| == |parent|
  {
  }

  lemma SeenIsQueued(queue: seq<pid>, level: seq<nat>, head: nat, k: pid)
    requires |queue| == |level| && head < |queue| && Leveled(queue, level, head) && k in queue
    ensures Queued(queue, level, k, level[head] + 1)
  {
    var i :| 0 <= i < |queue| && queue[i] == k;
    assert level[i] <= level[|queue| - 1];
  }

  lemma ExpandedStep(g: Graph, queue0: seq<pid>, level0: seq<nat>, queue: seq<pid>, level: seq<nat>, head: nat)
    requires |queue0| == |level0| && |queue| == |level| && queue0 <= queue && level0 <= level && head < |queue0|
    requires Expanded(g, queue0, level0, head)
    requires forall x, most: nat :: Queued(queue0, level0, x, most) ==> Queued(queue, level, x, most)
    requires forall x :: x in g.kids(queue0[head]) ==> Queued(queue, level, x, level[head] + 1)
    ensures Expanded(g, queue, level, head + 1)
  {
    hide Queued;
    forall j, k | 0 <= j < head + 1 && g.readable(queue[j]) && k in g.kids(queue[j])
      ensures Queued(queue, level, k, level[j] + 1)
    {
      assert queue[j] == queue0[j] && level[j] == level0[j];
      if j < head { assert Queued(queue0, level0, k, level0[j] + 1); }
    }
  }

  /** snapshot_tree: exactly the readable processes reachable from the root through readable ones,
      each once, in order of their distance from the root. */
  method SnapshotTree(g: Graph, root: pid, ghost all: set<pid>) returns (nodes: seq<pid>, ghost dist: seq<nat>)
    requires root in all && ClosedUnder(g, all)
    ensures Distinct(nodes) && |dist| == |nodes| && Ascending(dist)
    ensures forall x :: x in nodes <==> Reachable(g, root, x)
    ensures forall i :: 0 <= i < |nodes| ==> IsDistance(g, root, nodes[i], dist[i])
  {
    hide Grounded, Leveled, Distinct, Expanded, Snapshot, Reachable, IsDistance, ClosedUnder;
    var queue, head := [root], 0;
    ghost var level: seq<nat>, parent: seq<nat>, at: seq<nat> := [0], [0], [];
    nodes, dist := [], [];
    Start(g, root);
    while head < |queue|
      invariant 0 <= head <= |queue| == |level| && 0 < |queue| && queue[0] == root && level[0] == 0
      invariant Grounded(g, queue, level, parent) && Leveled(queue, level, head) && Distinct(queue)
      invariant Expanded(g, queue, level, head)
      invariant Snapshot(g, queue, level, head, nodes, dist, at)
      invariant forall x :: x in queue ==> x in all
      invariant forall x :: x in nodes ==> x in queue
      decreases |all| - head
    {
      DistinctFits(queue, all);
      var cur := queue[head];
      if !g.readable(cur) {
        Skip(g, queue, level, head, nodes, dist, at);
        head := head + 1;
        continue;
      }
      Record(g, queue, level, head, nodes, dist, at);
      nodes, dist, at := nodes + [cur], dist + [level[head]], at + [head];
      ghost var queue0, level0 := queue, level;
      queue, level, parent := QueueKids(g, g.kids(cur), queue, nodes, level, parent, head, all);
      Grown(g, queue0, level0, queue, level, head + 1, nodes, dist, at);
      NextHead(queue, level, head);
      head := head + 1;
    }
    Found(g, root, queue, level, parent, nodes, dist, at);
  }

  lemma Start(g: Graph, root: pid)
    ensures Grounded(g, [root], [0], [0]) && Leveled([root], [0], 0) && Distinct([root])
    ensures Expanded(g, [root], [0], 0) && Snapshot(g, [root], [0], 0, [], [], [])
  {
  }

  lemma NextHead(queue: seq<pid>, level: seq<nat>, head: nat)
    requires |queue| == |level| && head < |queue| && Leveled(queue, level, head)
    ensures Leveled(queue, level, head + 1)
  {
  }

  lemma Skip(g: Graph, queue: seq<pid>, level: seq<nat>, head: nat, nodes: seq<pid>, dist: seq<nat>, at: seq<nat>)
    requires |queue| == |level| && head < |queue| && Leveled(queue, level, head) && !g.readable(queue[head])
    requires Expanded(g, queue, level, head) && Snapshot(g, queue, level, head, nodes, dist, at)
    ensures Leveled(queue, level, head + 1) && Expanded(g, queue, level, head + 1)
    ensures Snapshot(g, queue, level, head + 1, nodes, dist, at)
  {
  }

  lemma Record(g: Graph, queue: seq<pid>, level: seq<nat>, head: nat, nodes: seq<pid>, dist: seq<nat>, at: seq<nat>)
    requires |queue| == |level| && head < |queue| && g.readable(queue[head])
    requires Snapshot(g, queue, level, head, nodes, dist, at)
    ensures Snapshot(g, queue, level, head + 1, nodes + [queue[head]], dist + [level[head]], at + [head])
  {
  }

  lemma Grown(g: Graph, queue0: seq<pid>, level0: seq<nat>, queue: seq<pid>, level: seq<nat>, head: nat,
              nodes: seq<pid>, dist: seq<nat>, at: seq<nat>)
    requires |queue0| == |level0| && |queue| == |level| && queue0 <= queue && level0 <= level && head <= |queue0|
    requires Snapshot(g, queue0, level0, head, nodes, dist, at)
    ensures Snapshot(g, queue, level, head, nodes, dist, at)
  {
    SnapshotGrows(g, queue0, level0, queue[|queue0|..], level[|level0|..], head, nodes, dist, at);
    assert queue == queue0 + queue[|queue0|..] && level == level0 + level[|level0|..];
  }

  /** Once the queue is used up the snapshot is complete. */
  lemma Found(g: Graph, root: pid, queue: seq<pid>, level: seq<nat>, parent: seq<nat>, nodes: seq<pid>, dist: seq<nat>,
              at: seq<nat>)
    requires |queue| == |level| > 0 && queue[0] == root && level[0] == 0
    requires Grounded(g, queue, level, parent) && Leveled(queue, level, |queue|) && Distinct(queue)
    requires Expanded(g, queue, level, |queue|) && Snapshot(g, queue, level, |queue|, nodes, dist, at)
    ensures Distinct(nodes) && |dist| == |nodes| && Ascending(dist)
    ensures forall x :: x in nodes <==> Reachable(g, root, x)
    ensures forall i :: 0 <= i < |nodes| ==> IsDistance(g, root, nodes[i], dist[i])
  {
    hide Expanded, Grounded, Reaches;
    forall i | 0 <= i < |nodes| ensures IsDistance(g, root, nodes[i], dist[i]) {
      EntryIsDistance(g, root, queue, level, parent, at[i]);
    }
    forall x ensures x in nodes <==> Reachable(g, root, x) {
      if Reachable(g, root, x) {
        var n :| Reaches(g, root, x, n);
        ReachesIsQueued(g, queue, level, x, n);
        var j :| 0 <= j < |queue| && queue[j] == x && level[j] <= n;
        assert g.readable(x) by { ReachedIsReadable(g, root, x, n); }
        assert j in at;
        var i :| 0 <= i < |at| && at[i] == j;
        assert nodes[i] == x;
      }
    }
  }

  lemma ReachedIsReadable(g: Graph, root: pid, x: pid, n: nat)
    requires Reaches(g, root, x, n)
    ensures g.readable(x)
  {
  }

  lemma EntryIsDistance(g: Graph, root: pid, queue: seq<pid>, level: seq<nat>, parent: seq<nat>, j: nat)
    requires |queue| == |level| > 0 && queue[0] == root && level[0] == 0 && j < |queue| && g.readable(queue[j])
    requires Grounded(g, queue, level, parent) && Distinct(queue) && Expanded(g, queue, level, |queue|)
    ensures IsDistance(g, root, queue[j], level[j])
  {
    hide Expanded, Grounded, Reaches;
    GroundedReaches(g, queue, level, parent, j);
    forall m | 0 <= m < level[j] ensures !Reaches(g, root, queue[j], m) {
      if Reaches(g, root, queue[j], m) {
        ReachesIsQueued(g, queue, level, queue[j], m);
      }
    }
  }
}
