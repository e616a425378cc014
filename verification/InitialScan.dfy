/** The first search of a frame: regions cut into tasks, one thread each, whose private lists are spliced together. */
module InitialScan {
  import opened Memory
  import opened FrameSpec
  import Scan
  import Splice

  /** One thread's share: the half-open byte range [lo, hi). */
  datatype Task = Task(lo: nat, hi: nat)

  /** `len` is stored in eight bits. */
  function HitVar(p: nat, value: seq<Byte>): Var {
    Var(p, |value| % 256)
  }

  function HitVars(hits: seq<nat>, value: seq<Byte>): (vars: seq<Var>)
    ensures |vars| == |hits|
  {
    seq(|hits|, i requires 0 <= i < |hits| => HitVar(hits[i], value))
  }

  /** A thread's private list: its hits, last one first. */
  function TaskHits(mem: Snapshot, t: Task, value: seq<Byte>): seq<nat>
    requires |value| >= 1
  {
    Reverse(Scan.Greedy(mem, t.lo, t.hi, value))
  }

  /** The tracked list when the tasks run one after the other: each puts its list on top. */
  function TasksVars(mem: Snapshot, tasks: seq<Task>, value: seq<Byte>): seq<Var>
    requires |value| >= 1
  {
    if tasks == [] then [] else
      var n := |tasks| - 1;
      HitVars(TaskHits(mem, tasks[n], value), value) + TasksVars(mem, tasks[..n], value)
  }

  /** The tasks of one region: itself for 0 threads, else one per thread. */
  function Chunked(region: Task, nThreads: nat): seq<Task>
    requires region.lo <= region.hi
  {
    if nThreads == 0 then [region] else
      var bs := Scan.Cuts(region.lo, region.hi, nThreads);
      seq(nThreads, i requires 0 <= i < nThreads => Task(bs[i], bs[i + 1]))
  }

  function AllTasks(regions: seq<Task>, nThreads: nat): seq<Task>
    requires forall i | 0 <= i < |regions| :: regions[i].lo <= regions[i].hi
  {
    if regions == [] then [] else
      var n := |regions| - 1;
      AllTasks(regions[..n], nThreads) + Chunked(regions[n], nThreads)
  }

  /** `narrow_mmo_sub_spawner`: the ranges handed to the threads, in creation order. */
  method Spawn(start: nat, end: nat, nThreads: nat) returns (tasks: seq<Task>)
    requires start <= end && nThreads < 256
    ensures tasks == Chunked(Task(start, end), nThreads)
    ensures nThreads == 0 ==> tasks == [Task(start, end)]
    ensures nThreads > 0 ==>
              && |tasks| == nThreads && tasks[0].lo == start && tasks[nThreads - 1].hi == end
              && (forall i | 0 <= i < nThreads - 1 :: tasks[i].hi - tasks[i].lo == (end - start) / nThreads)
              && forall i | 0 <= i < nThreads - 1 :: tasks[i].hi == tasks[i + 1].lo
  {
    hide Scan.CutAt;
    if nThreads == 0 {
      return [Task(start, end)];
    }
    var addrPerTh := (end - start) / nThreads;
    var runningStart := start;
    tasks := [];
    Scan.NextCut(start, end, nThreads, 0);
    for i := 0 to nThreads
      invariant |tasks| == i && runningStart == Scan.CutAt(start, end, nThreads, i)
      invariant forall k | 0 <= k < i :: tasks[k] == Chunked(Task(start, end), nThreads)[k]
      invariant i == 0 ==> runningStart == start
      invariant i > 0 ==> tasks[0].lo == start && tasks[i - 1].hi == runningStart
      invariant forall k | 0 <= k < i && k < nThreads - 1 :: tasks[k].hi - tasks[k].lo == (end - start) / nThreads
      invariant forall k | 0 <= k < i - 1 :: tasks[k].hi == tasks[k + 1].lo
      invariant i == nThreads ==> runningStart == end
    {
      var endRgn := runningStart + addrPerTh;
      if i == nThreads - 1 {
        endRgn := end;
      }
      Scan.NextCut(start, end, nThreads, i);
      tasks := tasks + [Task(runningStart, endRgn)];
      runningStart := endRgn;
    }
  }

  // ---------------------------------------------------------------- tasks do not overlap

  ghost predicate Apart(s: Task, t: Task) {
    s.hi <= t.lo || t.hi <= s.lo
  }

  ghost predicate PairwiseApart(tasks: seq<Task>) {
    && (forall i | 0 <= i < |tasks| :: tasks[i].lo <= tasks[i].hi)
    && forall i, j | 0 <= i < j < |tasks| :: Apart(tasks[i], tasks[j])
  }

  lemma ChunksApart(region: Task, nThreads: nat)
    requires region.lo <= region.hi
    ensures PairwiseApart(Chunked(region, nThreads))
    ensures forall t | t in Chunked(region, nThreads) :: region.lo <= t.lo <= t.hi <= region.hi
  {
    if nThreads > 0 {
      Scan.CutsTile(region.lo, region.hi, nThreads);
      var bs, chunks := Scan.Cuts(region.lo, region.hi, nThreads), Chunked(region, nThreads);
      forall i, j | 0 <= i < j < |chunks| ensures Apart(chunks[i], chunks[j]) {
        assert chunks[i].hi == bs[i + 1] && chunks[j].lo == bs[j];
      }
    }
  }

  lemma {:induction false} TasksApart(regions: seq<Task>, nThreads: nat)
    requires PairwiseApart(regions)
    ensures PairwiseApart(AllTasks(regions, nThreads))
    ensures forall t | t in AllTasks(regions, nThreads) ::
              exists r :: r in regions && r.lo <= t.lo <= t.hi <= r.hi
  {
    if regions != [] {
      var n := |regions| - 1;
      TasksApart(regions[..n], nThreads);
      ChunksApart(regions[n], nThreads);
      var before, chunks := AllTasks(regions[..n], nThreads), Chunked(regions[n], nThreads);
      forall s, t | s in before && t in chunks ensures Apart(s, t) {
        var r :| r in regions[..n] && r.lo <= s.lo <= s.hi <= r.hi;
        var k :| 0 <= k < n && regions[k] == r;
        assert Apart(regions[k], regions[n]);
      }
      forall i, j | 0 <= i < j < |before + chunks| ensures Apart((before + chunks)[i], (before + chunks)[j]) {
        if i < |before| <= j {
          assert before[i] in before && chunks[j - |before|] in chunks;
        }
      }
      forall t | t in before + chunks ensures exists r :: r in regions && r.lo <= t.lo <= t.hi <= r.hi {
        if t in before {
          var r :| r in regions[..n] && r.lo <= t.lo <= t.hi <= r.hi;
          assert r in regions;
        } else {
          assert regions[n] in regions;
        }
      }
    }
  }

  // ---------------------------------------------------------------- threads in any interleaving

  /** Workers for the tasks over an empty frame. A node is named by the address it records. */
  function Workers(mem: Snapshot, tasks: seq<Task>, value: seq<Byte>): Splice.Config
    requires |value| >= 1
  {
    Splice.Config([], seq(|tasks|, w requires 0 <= w < |tasks| => TaskHits(mem, tasks[w], value)))
  }

  lemma TaskHitIn(mem: Snapshot, t: Task, value: seq<Byte>, p: nat)
    requires |value| >= 1
    ensures p in TaskHits(mem, t, value) <==> p in Scan.Greedy(mem, t.lo, t.hi, value)
    ensures p in TaskHits(mem, t, value) ==> t.lo <= p < t.hi
  {
    var hits := Scan.Greedy(mem, t.lo, t.hi, value);
    assert p in hits <==> p in multiset(hits);
    assert p in TaskHits(mem, t, value) <==> p in multiset(TaskHits(mem, t, value));
    Scan.GreedyIsPacking(mem, t.lo, t.hi, value);
  }

  // ---------------------------------------------------------------- what a scan tracks, byte by byte

  /** A thread's hits run downwards, a value's size apart; all bytes of the value are there. */
  lemma TaskHitsBytes(mem: Snapshot, t: Task, value: seq<Byte>)
    requires |value| >= 1
    ensures forall p | p in TaskHits(mem, t, value) ::
              && t.lo <= p && p + |value| <= t.hi && p + |value| <= |mem|
              && forall i | 0 <= i < |value| :: mem[p + i] == value[i]
    ensures forall j, k | 0 <= j < k < |TaskHits(mem, t, value)| ::
              TaskHits(mem, t, value)[k] + |value| <= TaskHits(mem, t, value)[j]
  {
    hide Scan.Greedy, OccursAt;
    var hits := Scan.Greedy(mem, t.lo, t.hi, value);
    Scan.GreedyIsPacking(mem, t.lo, t.hi, value);
    forall p | p in TaskHits(mem, t, value)
      ensures t.lo <= p && p + |value| <= t.hi && p + |value| <= |mem|
      ensures forall i | 0 <= i < |value| :: mem[p + i] == value[i]
    {
      TaskHitIn(mem, t, value, p);
      OccursAtBytes(mem, p, value);
    }
    forall j, k | 0 <= j < k < |hits|
      ensures TaskHits(mem, t, value)[k] + |value| <= TaskHits(mem, t, value)[j]
    {
      ReverseAt(hits, j);
      ReverseAt(hits, k);
    }
  }

  /** Wherever in a task all bytes of the value are, a hit of its thread starts there or overlaps from the left. */
  lemma TaskHitsCover(mem: Snapshot, t: Task, value: seq<Byte>, p: nat)
    requires |value| >= 1 && t.lo <= p && p + |value| <= t.hi <= |mem|
    requires forall i | 0 <= i < |value| :: mem[p + i] == value[i]
    ensures exists q :: q in TaskHits(mem, t, value) && q <= p < q + |value|
  {
    hide Scan.Greedy, OccursAt, TaskHits;
    OccursAtBytes(mem, p, value);
    Scan.EveryOccurrenceCovered(mem, t.lo, t.hi, value, p);
    var q :| q in Scan.Greedy(mem, t.lo, t.hi, value) && q <= p < q + |value|;
    TaskHitIn(mem, t, value, q);
  }

  lemma {:induction false} TasksVarsMembers(mem: Snapshot, tasks: seq<Task>, value: seq<Byte>)
    requires |value| >= 1
    ensures forall v :: v in TasksVars(mem, tasks, value) <==>
              v.len == |value| % 256 && exists k :: 0 <= k < |tasks| && v.address in TaskHits(mem, tasks[k], value)
  {
    hide TaskHits, HitVars;
    if tasks != [] {
      var n := |tasks| - 1;
      TasksVarsMembers(mem, tasks[..n], value);
      forall v ensures v in HitVars(TaskHits(mem, tasks[n], value), value) <==>
                         v.len == |value| % 256 && v.address in TaskHits(mem, tasks[n], value)
      {
        HitVarIn(TaskHits(mem, tasks[n], value), value, v);
      }
    }
  }

  /**
   What the tasks track: variables of the size searched for (stored in eight bits), each where all bytes of the value
   are, inside one task.
   */
  lemma TasksVarsBytes(mem: Snapshot, tasks: seq<Task>, value: seq<Byte>)
    requires |value| >= 1
    ensures forall v | v in TasksVars(mem, tasks, value) ::
              && v.len == |value| % 256 && (|value| < 256 ==> v.len == |value|)
              && v.address + |value| <= |mem| && forall i | 0 <= i < |value| :: mem[v.address + i] == value[i]
    ensures forall v | v in TasksVars(mem, tasks, value) ::
              exists k :: 0 <= k < |tasks| && tasks[k].lo <= v.address && v.address + |value| <= tasks[k].hi
  {
    hide TaskHits, TasksVars;
    TasksVarsMembers(mem, tasks, value);
    forall v | v in TasksVars(mem, tasks, value)
      ensures v.address + |value| <= |mem| && forall i | 0 <= i < |value| :: mem[v.address + i] == value[i]
      ensures exists k :: 0 <= k < |tasks| && tasks[k].lo <= v.address && v.address + |value| <= tasks[k].hi
    {
      var k :| 0 <= k < |tasks| && v.address in TaskHits(mem, tasks[k], value);
      TaskHitsBytes(mem, tasks[k], value);
    }
  }

  /** Where a task holds all bytes of the value, a tracked variable starts or overlaps from the left. */
  lemma TasksVarsCover(mem: Snapshot, tasks: seq<Task>, value: seq<Byte>, k: nat, p: nat)
    requires |value| >= 1 && k < |tasks| && tasks[k].lo <= p && p + |value| <= tasks[k].hi <= |mem|
    requires forall i | 0 <= i < |value| :: mem[p + i] == value[i]
    ensures exists v :: v in TasksVars(mem, tasks, value) && v.address <= p < v.address + |value|
  {
    hide TaskHits, TasksVars;
    TasksVarsMembers(mem, tasks, value);
    TaskHitsCover(mem, tasks[k], value, p);
    var q :| q in TaskHits(mem, tasks[k], value) && q <= p < q + |value|;
    assert Var(q, |value| % 256) in TasksVars(mem, tasks, value);
  }

  /** Because the tasks do not overlap, no address is delivered twice. */
  lemma WorkersValid(mem: Snapshot, tasks: seq<Task>, value: seq<Byte>)
    requires |value| >= 1 && PairwiseApart(tasks)
    ensures Splice.ValidConfig(Workers(mem, tasks, value))
  {
    var c := Workers(mem, tasks, value);
    forall w | 0 <= w < |tasks| ensures Distinct(c.segs[w]) {
      var hits := Scan.Greedy(mem, tasks[w].lo, tasks[w].hi, value);
      Scan.GreedyIsPacking(mem, tasks[w].lo, tasks[w].hi, value);
      ReverseDistinct(hits);
    }
    forall v, w | 0 <= v < |tasks| && 0 <= w < |tasks| && v != w ensures Splice.Disjoint(c.segs[v], c.segs[w]) {
      forall p | p in c.segs[v] ensures p !in c.segs[w] {
        TaskHitIn(mem, tasks[v], value, p);
        TaskHitIn(mem, tasks[w], value, p);
        assert Apart(tasks[if v < w then v else w], tasks[if v < w then w else v]);
      }
    }
  }

  /** The hits of all tasks together; over whole regions, what single-thread scans find. */
  function Total(mem: Snapshot, tasks: seq<Task>, value: seq<Byte>): nat
    requires |value| >= 1
  {
    if tasks == [] then 0 else
      var n := |tasks| - 1;
      Total(mem, tasks[..n], value) + |Scan.Greedy(mem, tasks[n].lo, tasks[n].hi, value)|
  }

  lemma {:induction false} TotalAppend(mem: Snapshot, a: seq<Task>, b: seq<Task>, value: seq<Byte>)
    requires |value| >= 1
    ensures Total(mem, a + b, value) == Total(mem, a, value) + Total(mem, b, value)
  {
    if b == [] {
      assert a + b == a;
    } else {
      var n := |b| - 1;
      TotalAppend(mem, a, b[..n], value);
      assert (a + b)[..|a| + n] == a + b[..n];
    }
  }

  lemma {:induction false} TotalIsChunkHits(mem: Snapshot, tasks: seq<Task>, bs: seq<nat>, value: seq<Byte>)
    requires |value| >= 1 && |bs| == |tasks| + 1
    requires forall i | 0 <= i < |tasks| :: tasks[i] == Task(bs[i], bs[i + 1])
    ensures Total(mem, tasks, value) == |Scan.ChunkHits(mem, bs, value)|
  {
    if tasks != [] {
      var n := |tasks| - 1;
      TotalIsChunkHits(mem, tasks[..n], bs[..n + 1], value);
      assert tasks[n] == Task(bs[n], bs[n + 1]);
    }
  }

  lemma RegionCost(mem: Snapshot, r: Task, n: nat, value: seq<Byte>)
    requires |value| >= 1 && n >= 1 && r.lo <= r.hi
    ensures var whole := |Scan.Greedy(mem, r.lo, r.hi, value)|;
            var parts := Total(mem, Chunked(r, n), value);
            parts <= whole <= parts + (n - 1)
  {
    TotalIsChunkHits(mem, Chunked(r, n), Scan.Cuts(r.lo, r.hi, n), value);
    Scan.ThreadsCost(mem, r.lo, r.hi, n, value);
  }

  /** What the first regions cost and what one more costs. */
  lemma CostsAdd(whole: int, parts: int, whole1: int, parts1: int, k: int, m: int)
    requires parts <= whole <= parts + k * m && parts1 <= whole1 <= parts1 + m
    ensures parts + parts1 <= whole + whole1 <= parts + parts1 + (k + 1) * m
  {
    assert (k + 1) * m == k * m + m;
  }

  lemma {:induction false} CostsBy(mem: Snapshot, regions: seq<Task>, n: nat, value: seq<Byte>, cost: int)
    requires |value| >= 1 && n >= 1 && cost == |regions| * (n - 1)
    requires forall i | 0 <= i < |regions| :: regions[i].lo <= regions[i].hi
    ensures var whole := Total(mem, regions, value);
            var parts := Total(mem, AllTasks(regions, n), value);
            parts <= whole <= parts + cost
  {
    hide Chunked, Scan.Greedy;
    if regions != [] {
      var k, m := |regions| - 1, n - 1;
      var before, chunks := AllTasks(regions[..k], n), Chunked(regions[k], n);
      CostsBy(mem, regions[..k], n, value, k * m);
      TotalAppend(mem, before, chunks, value);
      RegionCost(mem, regions[k], n, value);
      CostsAdd(Total(mem, regions[..k], value), Total(mem, before, value),
               |Scan.Greedy(mem, regions[k].lo, regions[k].hi, value)|, Total(mem, chunks, value), k, m);
    }
  }

  /** Over any regions, n threads per region miss at most n - 1 single-thread hits of each, and invent none. */
  lemma ThreadsCostAll(mem: Snapshot, regions: seq<Task>, n: nat, value: seq<Byte>)
    requires |value| >= 1 && n >= 1
    requires forall i | 0 <= i < |regions| :: regions[i].lo <= regions[i].hi
    ensures var whole := Total(mem, regions, value);
            var parts := Total(mem, AllTasks(regions, n), value);
            parts <= whole <= parts + |regions| * (n - 1)
  {
    hide Total, AllTasks;
    CostsBy(mem, regions, n, value, |regions| * (n - 1));
  }

  lemma {:induction false} TotalIsLengths(mem: Snapshot, tasks: seq<Task>, value: seq<Byte>)
    requires |value| >= 1
    ensures Total(mem, tasks, value) == Splice.Sum(Splice.Lengths(Workers(mem, tasks, value)))
  {
    if tasks != [] {
      var n := |tasks| - 1;
      TotalIsLengths(mem, tasks[..n], value);
      assert Splice.Lengths(Workers(mem, tasks, value))[..n] == Splice.Lengths(Workers(mem, tasks[..n], value));
    }
  }

  /**
   The initial search with n >= 1 threads per region, in any interleaving that runs to completion: the frame tracks
   every hit of every chunk once, nothing else, and at most n - 1 fewer per region than single-thread scans find.
   */
  lemma ThreadedSearch(mem: Snapshot, regions: seq<Task>, n: nat, value: seq<Byte>,
                       init: Splice.State, run: seq<Splice.Action>)
    requires |value| >= 1 && n >= 1 && PairwiseApart(regions)
    requires Splice.RunsToEnd(Workers(mem, AllTasks(regions, n), value), init, run)
    ensures var tasks := AllTasks(regions, n);
            var c := Workers(mem, tasks, value);
            var s := Splice.Exec(c, init, run);
            && Splice.Known(c, s.order)
            && var list := Splice.Contents(c, s.order);
               && s.head == Splice.First(list) && Splice.Path(s.next, list, Splice.Null) && Distinct(list)
               && (forall p :: p in list
                               <==> exists i :: 0 <= i < |tasks| && p in TaskHits(mem, tasks[i], value))
               && s.nTracked == |list| <= Total(mem, regions, value) <= |list| + |regions| * (n - 1)
    ensures var c := Workers(mem, AllTasks(regions, n), value);
            forall v | v in HitVars(Splice.Contents(c, Splice.Exec(c, init, run).order), value) ::
              && v.len == |value| % 256 && (|value| < 256 ==> v.len == |value|)
              && v.address + |value| <= |mem| && forall i | 0 <= i < |value| :: mem[v.address + i] == value[i]
  {
    hide Splice.Path, Splice.Contents, Splice.Initial, Splice.ValidConfig, Distinct, TaskHits, HitVars;
    var tasks := AllTasks(regions, n);
    var c := Workers(mem, tasks, value);
    TasksApart(regions, n);
    WorkersValid(mem, tasks, value);
    Splice.SharedListSafe(c, init, run);
    Splice.JoinedListComplete(c, init, run);
    TotalIsLengths(mem, tasks, value);
    ThreadsCostAll(mem, regions, n, value);
    ThreadedBytes(mem, regions, n, value, init, run);
    var list := Splice.Contents(c, Splice.Exec(c, init, run).order);
    forall p ensures p in list <==> exists i :: 0 <= i < |tasks| && p in TaskHits(mem, tasks[i], value) {
      if i :| 0 <= i < |tasks| && p in TaskHits(mem, tasks[i], value) {
        assert p in c.segs[i];
      }
    }
  }

  // ---------------------------------------------------------------- threads against one after the other

  /** 0, 1, ..., n - 1. */
  function UpTo(n: nat): (order: seq<nat>)
    ensures |order| == n && forall i | 0 <= i < n :: order[i] == i
  {
    seq(n, i => i)
  }

  /** Tasks run one after the other splice in the order of their creation. */
  lemma {:induction false} SequentialContents(mem: Snapshot, tasks: seq<Task>, n: nat, value: seq<Byte>)
    requires |value| >= 1 && n <= |tasks|
    ensures var c := Workers(mem, tasks, value);
            && Splice.Known(c, UpTo(n))
            && TasksVars(mem, tasks[..n], value) == HitVars(Splice.Contents(c, UpTo(n)), value)
  {
    hide TaskHits;
    if n > 0 {
      SequentialContents(mem, tasks, n - 1, value);
      assert UpTo(n)[..n - 1] == UpTo(n - 1);
      assert tasks[..n][..n - 1] == tasks[..n - 1];
      var before := Splice.Contents(Workers(mem, tasks, value), UpTo(n - 1));
      HitVarsConcat(TaskHits(mem, tasks[n - 1], value), before, value);
    }
  }

  lemma HitVarsConcat(a: seq<nat>, b: seq<nat>, value: seq<Byte>)
    ensures HitVars(a + b, value) == HitVars(a, value) + HitVars(b, value)
  {
  }

  /** The joined list and the sequential one hold the same addresses, each once. */
  lemma SameAddresses(c: Splice.Config, list: seq<nat>, all: seq<nat>)
    requires Splice.HoldsAllHits(c, list) && c.initial == []
    requires Splice.Known(c, all) && forall w | 0 <= w < |c.segs| :: w in all
    ensures forall p :: p in list <==> p in Splice.Contents(c, all)
  {
    forall p ensures p in list <==> p in Splice.Contents(c, all) {
      Splice.ContentsMember(c, all, p);
    }
  }

  lemma SequentialComplete(mem: Snapshot, tasks: seq<Task>, value: seq<Byte>)
    requires |value| >= 1 && Splice.ValidConfig(Workers(mem, tasks, value))
    ensures var c := Workers(mem, tasks, value);
            var all := UpTo(|tasks|);
            && Splice.Known(c, all) && (forall w | 0 <= w < |c.segs| :: w in all)
            && Distinct(Splice.Contents(c, all))
            && TasksVars(mem, tasks, value) == HitVars(Splice.Contents(c, all), value)
  {
    hide TaskHits, Splice.Contents, TasksVars, HitVars, Splice.ValidConfig;
    var c, all := Workers(mem, tasks, value), UpTo(|tasks|);
    assert |c.segs| == |tasks|;
    forall w | 0 <= w < |c.segs| ensures w in all {
      assert all[w] == w;
    }
    SequentialContents(mem, tasks, |tasks|, value);
    assert tasks[..|tasks|] == tasks;
    Splice.ContentsDistinct(c, all);
  }

  lemma HitVarsPermuted(a: seq<nat>, b: seq<nat>, value: seq<Byte>)
    requires Distinct(a) && Distinct(b) && forall p :: p in a <==> p in b
    ensures multiset(HitVars(a, value)) == multiset(HitVars(b, value))
  {
    forall v ensures v in HitVars(a, value) <==> v in HitVars(b, value) {
      HitVarIn(a, value, v);
      HitVarIn(b, value, v);
    }
    SameMembers(HitVars(a, value), HitVars(b, value));
  }

  lemma HitVarIn(a: seq<nat>, value: seq<Byte>, v: Var)
    ensures v in HitVars(a, value) <==> v.address in a && v == HitVar(v.address, value)
  {
    if v.address in a && v == HitVar(v.address, value) {
      var i :| 0 <= i < |a| && a[i] == v.address;
      assert HitVars(a, value)[i] == v;
    }
  }

  /** Whatever the interleaving, the frame ends up tracking what the threads one after the other would have. */
  lemma ThreadedIsSequential(mem: Snapshot, regions: seq<Task>, n: nat, value: seq<Byte>,
                             init: Splice.State, run: seq<Splice.Action>)
    requires |value| >= 1 && PairwiseApart(regions)
    requires Splice.RunsToEnd(Workers(mem, AllTasks(regions, n), value), init, run)
    ensures var tasks := AllTasks(regions, n);
            var c := Workers(mem, tasks, value);
            var s := Splice.Exec(c, init, run);
            && Splice.Known(c, s.order)
            && multiset(HitVars(Splice.Contents(c, s.order), value)) == multiset(TasksVars(mem, tasks, value))
  {
    hide Splice.Path, Splice.Contents, Splice.Initial, Splice.ValidConfig, Splice.HoldsAllHits, TaskHits, HitVars,
         Distinct, Splice.Exec, Splice.Feasible, TasksVars;
    var tasks := AllTasks(regions, n);
    var c := Workers(mem, tasks, value);
    var s := Splice.Exec(c, init, run);
    TasksApart(regions, n);
    WorkersValid(mem, tasks, value);
    Splice.JoinedListComplete(c, init, run);
    SequentialComplete(mem, tasks, value);
    SameAddresses(c, Splice.Contents(c, s.order), UpTo(|tasks|));
    HitVarsPermuted(Splice.Contents(c, s.order), Splice.Contents(c, UpTo(|tasks|)), value);
  }

  /** Every variable such a search leaves in the frame has the value's size and all of its bytes. */
  lemma ThreadedBytes(mem: Snapshot, regions: seq<Task>, n: nat, value: seq<Byte>,
                      init: Splice.State, run: seq<Splice.Action>)
    requires |value| >= 1 && PairwiseApart(regions)
    requires Splice.RunsToEnd(Workers(mem, AllTasks(regions, n), value), init, run)
    ensures var c := Workers(mem, AllTasks(regions, n), value);
            var order := Splice.Exec(c, init, run).order;
            && Splice.Known(c, order)
            && forall v | v in HitVars(Splice.Contents(c, order), value) ::
                 && v.len == |value| % 256 && (|value| < 256 ==> v.len == |value|)
                 && v.address + |value| <= |mem| && forall i | 0 <= i < |value| :: mem[v.address + i] == value[i]
  {
    hide Splice.Exec, Splice.Contents, Splice.Initial, Splice.Feasible, Workers, HitVars, TasksVars, AllTasks;
    ThreadedIsSequential(mem, regions, n, value, init, run);
    TasksVarsBytes(mem, AllTasks(regions, n), value);
    var c := Workers(mem, AllTasks(regions, n), value);
    var vars := HitVars(Splice.Contents(c, Splice.Exec(c, init, run).order), value);
    forall v | v in vars ensures v in TasksVars(mem, AllTasks(regions, n), value) {
      assert v in multiset(vars);
    }
  }
}
