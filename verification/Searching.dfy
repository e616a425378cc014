/** The initial search as pointer code: a thread's scan builds a private list, which is combined into the frame. */
module Searching {
  import opened Memory
  import opened FrameSpec
  import opened InitialScan
  import opened Frames
  import Scan

  /** Links `v` in front of a list. */
  lemma ConsLinked(v: FoundVariable, found: FoundVariable?, nodes: seq<FoundVariable>)
    requires Linked(found, nodes) && v.next == found && v !in nodes
    ensures Linked(v, [v] + nodes)
  {
  }

  /** The list a scan builds after the hits `done`: a node per hit, newest first. */
  ghost predicate Lists(nodes: seq<FoundVariable>, done: seq<nat>, value: seq<Byte>) {
    Values(nodes) == HitVars(Reverse(done), value)
  }

  lemma NothingListed(value: seq<Byte>)
    ensures Linked(null, []) && Lists([], [], value)
  {
  }

  lemma ListsMeans(nodes: seq<FoundVariable>, done: seq<nat>, value: seq<Byte>)
    requires Lists(nodes, done, value)
    ensures Values(nodes) == HitVars(Reverse(done), value)
  {
  }

  lemma OneHit(p: nat, value: seq<Byte>)
    ensures HitVars([p], value) == [HitVar(p, value)]
  {
  }

  lemma ValuesCons(v: FoundVariable, nodes: seq<FoundVariable>)
    ensures Values([v] + nodes) == [Value(v)] + Values(nodes)
  {
  }

  lemma ListsNext(v: FoundVariable, nodes: seq<FoundVariable>, done: seq<nat>, p: nat, value: seq<Byte>)
    requires Lists(nodes, done, value) && Value(v) == HitVar(p, value)
    ensures Lists([v] + nodes, done + [p], value)
  {
    hide Reverse, HitVars, Values;
    ReverseAppend(done, p);
    HitVarsConcat([p], Reverse(done), value);
    OneHit(p, value);
    ValuesCons(v, nodes);
  }

  /** Still to come after the hits `done`: a greedy scan from the next first-byte match, if there is one. */
  ghost predicate Pending(mem: Snapshot, start: nat, end: nat, value: seq<Byte>, done: seq<nat>, next: Option<nat>)
    requires |value| >= 1
  {
    Scan.Greedy(mem, start, end, value) == done + if next.Some? then Scan.Greedy(mem, next.value, end, value) else []
  }

  /** One round of the loop: stop, take a hit, or move on. */
  lemma PendingNext(mem: Snapshot, start: nat, end: nat, value: seq<Byte>, done: seq<nat>, p: nat)
    requires |value| >= 1 && end <= |mem| && Pending(mem, start, end, value, done, Some(p)) && p <= end
    ensures p + |value| > end ==> Pending(mem, start, end, value, done, None)
    ensures p + |value| <= end && OccursAt(mem, p, value) ==>
              Pending(mem, start, end, value, done + [p], Scan.FirstByte(mem, p + |value|, end, value[0]))
    ensures p + |value| <= end && !OccursAt(mem, p, value) ==>
              Pending(mem, start, end, value, done, Scan.FirstByte(mem, p + 1, end, value[0]))
  {
    hide Scan.FirstByte, OccursAt;
    if p + |value| <= end {
      var i := if OccursAt(mem, p, value) then p + |value| else p + 1;
      var next := Scan.FirstByte(mem, i, end, value[0]);
      Scan.SkipToFirstByte(mem, i, if next.Some? then next.value else end, end, value);
    }
  }

  lemma PendingStart(mem: Snapshot, start: nat, end: nat, value: seq<Byte>)
    requires |value| >= 1
    ensures Pending(mem, start, end, value, [], Some(start))
  {
  }

  lemma PendingEnd(mem: Snapshot, start: nat, end: nat, value: seq<Byte>, done: seq<nat>)
    requires |value| >= 1 && Pending(mem, start, end, value, done, None)
    ensures Scan.Greedy(mem, start, end, value) == done
  {
  }

  /** The scanning loop of `narrow_mem_map_frame_opt_subroutine`: jump between first-byte matches, build a list. */
  method ScanRegion(mem: Snapshot, start: nat, end: nat, value: seq<Byte>)
    returns (found: FoundVariable?, last: FoundVariable?, nMatches: nat, ghost nodes: seq<FoundVariable>)
    requires |value| >= 1 && start <= end <= |mem|
    ensures Linked(found, nodes) && nMatches == |nodes| && forall n | n in nodes :: fresh(n)
    ensures Values(nodes) == HitVars(TaskHits(mem, Task(start, end), value), value)
    ensures last == if nodes == [] then null else nodes[|nodes| - 1]
    ensures forall k | 0 <= k < |nodes| ::
              && nodes[k].len == |value| % 256 && start <= nodes[k].address && nodes[k].address + |value| <= end
              && forall i | 0 <= i < |value| :: mem[nodes[k].address + i] == value[i]
  {
    hide Linked, Lists, Pending, Scan.FirstByte, Reverse, OccursAt, HitVars, Distinct, Values;
    NothingListed(value);
    PendingStart(mem, start, end, value);
    found, last, nMatches, nodes := null, null, 0, [];
    var firstByteMatch, i := Some(start), start;
    ghost var done: seq<nat> := [];
    while firstByteMatch.Some?
      invariant start <= i <= end
      invariant firstByteMatch.Some? ==> i <= firstByteMatch.value <= end
      invariant Pending(mem, start, end, value, done, firstByteMatch)
      invariant Linked(found, nodes) && nMatches == |nodes| && forall n | n in nodes :: fresh(n)
      invariant Lists(nodes, done, value)
      invariant found == null <==> nodes == []
      invariant last == if nodes == [] then null else nodes[|nodes| - 1]
      decreases end - i
    {
      var p := firstByteMatch.value;
      PendingNext(mem, start, end, value, done, p);
      if p + |value| > end {
        break;
      }
      if OccursAt(mem, p, value) {
        nMatches := nMatches + 1;
        var tmp := new FoundVariable(p, |value| % 256);
        if found == null {
          last := tmp;
        }
        tmp.next := found;
        ConsLinked(tmp, found, nodes);
        ListsNext(tmp, nodes, done, p, value);
        found := tmp;
        nodes, done := [tmp] + nodes, done + [p];
        i := p + |value|;
      } else {
        i := p + 1;
      }
      firstByteMatch := Scan.FirstByte(mem, i, end, value[0]);
    }
    PendingEnd(mem, start, end, value, done);
    ListsMeans(nodes, done, value);
    ScannedBytes(mem, Task(start, end), value, nodes);
  }

  /** The nodes of a thread's hits have the value's size, and all of its bytes are there. */
  lemma ScannedBytes(mem: Snapshot, t: Task, value: seq<Byte>, nodes: seq<FoundVariable>)
    requires |value| >= 1 && t.hi <= |mem| && Values(nodes) == HitVars(TaskHits(mem, t, value), value)
    ensures forall k | 0 <= k < |nodes| ::
              && nodes[k].len == |value| % 256 && t.lo <= nodes[k].address && nodes[k].address + |value| <= t.hi
              && forall i | 0 <= i < |value| :: mem[nodes[k].address + i] == value[i]
  {
    hide TaskHits, HitVars;
    TaskHitsBytes(mem, t, value);
    forall k | 0 <= k < |nodes|
      ensures nodes[k].len == |value| % 256 && nodes[k].address in TaskHits(mem, t, value)
    {
      assert Values(nodes)[k] == Var(nodes[k].address, nodes[k].len);
      HitVarIn(TaskHits(mem, t, value), value, Values(nodes)[k]);
    }
  }

  lemma EmptyList(found: FoundVariable?, nodes: seq<FoundVariable>)
    requires Linked(found, nodes)
    ensures found == null <==> nodes == []
    ensures nodes == [] ==> Values(nodes) == []
  {
  }

  /** `narrow_mem_map_frame_opt_subroutine`, undisturbed by other threads. */
  method NarrowSubroutine(frame: NarrowFrame, mem: Snapshot, start: nat, end: nat, value: seq<Byte>)
    returns (nMatches: nat)
    requires frame.Valid() && |value| >= 1 && start <= end <= |mem|
    modifies frame.repr
    ensures frame.Valid() && fresh(frame.repr - old(frame.repr))
    ensures frame.State() == old(frame.State()).(
              tracked := HitVars(TaskHits(mem, Task(start, end), value), value) + old(frame.State()).tracked)
    ensures nMatches == |TaskHits(mem, Task(start, end), value)|
  {
    hide Linked, TaskHits, HitVars, Values, NarrowFrame.TrackedOk, NarrowFrame.RecordOk, NarrowFrame.EndsOk, Chained;
    var found, last;
    ghost var nodes;
    found, last, nMatches, nodes := ScanRegion(mem, start, end, value);
    EmptyList(found, nodes);
    if found != null {
      assert last in nodes;
      frame.CombineFrameVar(found, last, nMatches, nodes);
    }
  }

  ghost predicate Within(regions: seq<Task>, mem: Snapshot) {
    forall i | 0 <= i < |regions| :: regions[i].lo <= regions[i].hi <= |mem|
  }

  lemma NextTasks(mem: Snapshot, tasks: seq<Task>, k: nat, value: seq<Byte>)
    requires |value| >= 1 && k < |tasks|
    ensures TasksVars(mem, tasks[..k + 1], value)
            == HitVars(TaskHits(mem, tasks[k], value), value) + TasksVars(mem, tasks[..k], value)
  {
    assert tasks[..k + 1][..k] == tasks[..k];
  }

  lemma NextRegion(mem: Snapshot, regions: seq<Task>, r: nat, nThreads: nat)
    requires Within(regions, mem) && r < |regions|
    ensures AllTasks(regions[..r + 1], nThreads) == AllTasks(regions[..r], nThreads) + Chunked(regions[r], nThreads)
    ensures Within(Chunked(regions[r], nThreads), mem)
  {
    assert regions[..r + 1][..r] == regions[..r];
    ChunksApart(regions[r], nThreads);
  }

  /** Runs the tasks in order, on top of those already run (`queued`). */
  method RunTasks(frame: NarrowFrame, mem: Snapshot, tasks: seq<Task>, value: seq<Byte>, ghost queued: seq<Task>)
    requires frame.Valid() && |value| >= 1 && Within(tasks, mem)
    requires frame.State().tracked == TasksVars(mem, queued, value)
    modifies frame.repr
    ensures frame.Valid() && fresh(frame.repr - old(frame.repr))
    ensures frame.State() == old(frame.State()).(tracked := TasksVars(mem, queued + tasks, value))
  {
    hide TaskHits, HitVars, TasksVars, NarrowFrame.Valid, NarrowFrame.State;
    ghost var all := queued + tasks;
    assert all[..|queued|] == queued && all[..|all|] == all;
    for k := 0 to |tasks|
      invariant frame.Valid() && fresh(frame.repr - old(frame.repr))
      invariant frame.State() == old(frame.State()).(tracked := TasksVars(mem, all[..|queued| + k], value))
    {
      var n := NarrowSubroutine(frame, mem, tasks[k].lo, tasks[k].hi, value);
      NextTasks(mem, all, |queued| + k, value);
    }
  }

  /**
   `narrow_mem_map_frame_opt`: narrow a frame that tracks something, else scan every region. The threads run one after
   the other here, each to completion; `InitialScan.ThreadedSearch` covers the other interleavings.
   */
  method NarrowMemMap(frame: NarrowFrame, mem: Snapshot, regions: seq<Task>, nThreads: nat, value: seq<Byte>)
    requires frame.Valid() && |value| >= 1 && nThreads < 256 && Within(regions, mem)
    modifies frame.repr
    ensures frame.Valid() && fresh(frame.repr - old(frame.repr))
    ensures frame.State() == Step(old(frame.State()), frame.undoDepthLimit,
                                  Search(mem, value, TasksVars(mem, AllTasks(regions, nThreads), value)))
  {
    hide TasksVars, AllTasks, Chunked, NarrowFrame.Valid, NarrowFrame.State, Renarrow;
    CountIsLength(frame);
    if frame.nTracked != 0 {
      frame.RenarrowFrame(mem, value);
      return;
    }
    NoTasks(mem, regions, nThreads, value);
    for r := 0 to |regions|
      invariant frame.Valid() && fresh(frame.repr - old(frame.repr))
      invariant frame.State() == old(frame.State()).(
                  tracked := TasksVars(mem, AllTasks(regions[..r], nThreads), value))
    {
      NextRegion(mem, regions, r, nThreads);
      var tasks := Spawn(regions[r].lo, regions[r].hi, nThreads);
      RunTasks(frame, mem, tasks, value, AllTasks(regions[..r], nThreads));
    }
    assert regions[..|regions|] == regions;
  }

  /** After a search, scan or narrowing, all bytes of the value are at every tracked variable. */
  lemma SearchBytes(st: FrameState, limit: int, mem: Snapshot, tasks: seq<Task>, value: seq<Byte>)
    requires |value| >= 1
    ensures var t := Step(st, limit, Search(mem, value, TasksVars(mem, tasks, value)));
            forall v | v in t.tracked ::
              && (st.tracked == [] ==> v.len == |value| % 256)
              && v.address + |value| <= |mem| && forall i | 0 <= i < |value| :: mem[v.address + i] == value[i]
  {
    hide TasksVars, Renarrow;
    TasksVarsBytes(mem, tasks, value);
    RenarrowBytes(st, limit, mem, value);
  }

  lemma CountIsLength(frame: NarrowFrame)
    requires frame.Valid()
    ensures frame.nTracked == |frame.State().tracked|
  {
  }

  lemma NoTasks(mem: Snapshot, regions: seq<Task>, nThreads: nat, value: seq<Byte>)
    requires |value| >= 1
    ensures TasksVars(mem, AllTasks(regions[..0], nThreads), value) == []
  {
  }
}
