/** When a scan of all buffers tracks the same variable of the target process twice. */
module RemoteHits {
  import opened Memory
  import opened FrameSpec
  import opened VmemParser
  import opened AddressMap
  import opened InitialScan
  import Scan
  import Splice

  // ---------------------------------------------------------------- what a scan of the buffers tracks

  function BufferOf(m: MemMap, k: nat): Task
    requires Shaped(m) && k < |Bases(m)|
  {
    Task(Bases(m)[k], Bases(m)[k] + Len(Regions(m.rgn)[k]))
  }

  /** The buffers a scan goes through, in order: those of the first n regions that have one. */
  function Buffers(m: MemMap, n: nat): seq<Task>
    requires Shaped(m) && n <= |Bases(m)|
  {
    if n == 0 then [] else Buffers(m, n - 1) + if Bases(m)[n - 1] > 0 then [BufferOf(m, n - 1)] else []
  }

  lemma {:induction false} BuffersAre(m: MemMap, n: nat)
    requires Shaped(m) && n <= |Bases(m)|
    ensures forall b :: b in Buffers(m, n) <==> exists k :: 0 <= k < n && Bases(m)[k] > 0 && b == BufferOf(m, k)
    ensures forall i | 0 <= i < |Buffers(m, n)| :: Buffers(m, n)[i].lo <= Buffers(m, n)[i].hi
  {
    if n > 0 {
      BuffersAre(m, n - 1);
    }
  }

  /** The ranges scanned, spelled out: every region with a buffer, from its base over the region's length. */
  lemma BuffersSpelled(m: MemMap)
    requires Shaped(m)
    ensures forall b :: b in Buffers(m, |Bases(m)|) <==> exists k ::
              && 0 <= k < |Bases(m)| && b.lo == Bases(m)[k] > 0
              && b.hi - b.lo == Regions(m.rgn)[k].end - Regions(m.rgn)[k].start
    ensures |Bases(m)| == 2 + |m.other| && Bases(m)[0] == m.stack && Bases(m)[1] == m.heap
    ensures forall k | 0 <= k < |m.other| :: Bases(m)[2 + k] == m.other[k]
    ensures Regions(m.rgn)[0] == m.rgn.stack && Regions(m.rgn)[1] == m.rgn.heap
    ensures forall k | 0 <= k < |m.other| :: Regions(m.rgn)[2 + k] == m.rgn.remaining[k]
  {
    BuffersAre(m, |Bases(m)|);
  }

  lemma TwoBuffersApart(m: MemMap, k: nat, j: nat)
    requires WellPlaced(m) && k < |Bases(m)| && j < |Bases(m)| && k != j && Bases(m)[k] > 0
    ensures Apart(BufferOf(m, k), BufferOf(m, j))
  {
  }

  lemma {:induction false} BuffersDisjoint(m: MemMap, n: nat)
    requires WellPlaced(m) && n <= |Bases(m)|
    ensures PairwiseApart(Buffers(m, n))
  {
    hide WellPlaced, BufferOf;
    PlacedShaped(m);
    if n > 0 {
      BuffersDisjoint(m, n - 1);
      BuffersAre(m, n - 1);
      BuffersAre(m, n);
      var before := Buffers(m, n - 1);
      if Bases(m)[n - 1] > 0 {
        forall i | 0 <= i < |before| ensures Apart(before[i], BufferOf(m, n - 1)) {
          assert before[i] in before;
          var k :| 0 <= k < n - 1 && Bases(m)[k] > 0 && before[i] == BufferOf(m, k);
          TwoBuffersApart(m, k, n - 1);
        }
      }
    }
  }

  /** Some thread of the scan of buffer k has a hit at offset o. */
  ghost predicate HitAt(mem: Snapshot, m: MemMap, nThreads: nat, value: seq<Byte>, k: nat, o: nat)
    requires Shaped(m) && |value| >= 1
  {
    && k < |Bases(m)| && Bases(m)[k] > 0
    && exists t :: t in Chunked(BufferOf(m, k), nThreads) && Bases(m)[k] + o in TaskHits(mem, t, value)
  }

  lemma HitInside(mem: Snapshot, m: MemMap, nThreads: nat, value: seq<Byte>, k: nat, o: nat)
    requires Shaped(m) && |value| >= 1 && HitAt(mem, m, nThreads, value, k, o)
    ensures o < Len(Regions(m.rgn)[k])
  {
    hide TaskHits, Chunked;
    var t :| t in Chunked(BufferOf(m, k), nThreads) && Bases(m)[k] + o in TaskHits(mem, t, value);
    ChunksApart(BufferOf(m, k), nThreads);
    TaskHitIn(mem, t, value, Bases(m)[k] + o);
  }

  lemma {:induction false} AllTasksAre(regions: seq<Task>, nThreads: nat)
    requires forall i | 0 <= i < |regions| :: regions[i].lo <= regions[i].hi
    ensures forall t :: t in AllTasks(regions, nThreads)
                        <==> exists i :: 0 <= i < |regions| && t in Chunked(regions[i], nThreads)
  {
    hide Chunked;
    if regions != [] {
      var n := |regions| - 1;
      AllTasksAre(regions[..n], nThreads);
      assert forall i | 0 <= i < n :: regions[..n][i] == regions[i];
    }
  }

  /** The variables a scan with the threads one after the other tracks; any interleaving gives the same up to order. */
  function Tracked(mem: Snapshot, m: MemMap, nThreads: nat, value: seq<Byte>): seq<Var>
    requires Shaped(m) && |value| >= 1
  {
    BuffersAre(m, |Bases(m)|);
    TasksVars(mem, AllTasks(Buffers(m, |Bases(m)|), nThreads), value)
  }

  ghost predicate HitOf(mem: Snapshot, m: MemMap, nThreads: nat, value: seq<Byte>, p: nat, k: nat)
    requires Shaped(m) && |value| >= 1
  {
    k < |Bases(m)| && p >= Bases(m)[k] && HitAt(mem, m, nThreads, value, k, p - Bases(m)[k])
  }

  lemma HitOfTask(mem: Snapshot, m: MemMap, nThreads: nat, value: seq<Byte>, p: nat)
    requires Shaped(m) && |value| >= 1
    requires forall i | 0 <= i < |Buffers(m, |Bases(m)|)| ::
               Buffers(m, |Bases(m)|)[i].lo <= Buffers(m, |Bases(m)|)[i].hi
    ensures (exists t :: t in AllTasks(Buffers(m, |Bases(m)|), nThreads) && p in TaskHits(mem, t, value))
            <==> exists k: nat :: HitOf(mem, m, nThreads, value, p, k)
  {
    hide TaskHits, Chunked, AllTasks, Buffers;
    var bs := Buffers(m, |Bases(m)|);
    BuffersAre(m, |Bases(m)|);
    AllTasksAre(bs, nThreads);
    if t :| t in AllTasks(bs, nThreads) && p in TaskHits(mem, t, value) {
      var i :| 0 <= i < |bs| && t in Chunked(bs[i], nThreads);
      assert bs[i] in bs;
      var k: nat :| k < |Bases(m)| && Bases(m)[k] > 0 && bs[i] == BufferOf(m, k);
      ChunksApart(bs[i], nThreads);
      TaskHitIn(mem, t, value, p);
      assert HitAt(mem, m, nThreads, value, k, p - Bases(m)[k]);
      assert HitOf(mem, m, nThreads, value, p, k);
    }
    if k: nat :| HitOf(mem, m, nThreads, value, p, k) {
      var t :| t in Chunked(BufferOf(m, k), nThreads) && p in TaskHits(mem, t, value);
      assert BufferOf(m, k) in bs;
      var i :| 0 <= i < |bs| && bs[i] == BufferOf(m, k);
      assert t in AllTasks(bs, nThreads);
    }
  }

  /** The scan tracks exactly the hits in the buffers, each once. */
  lemma TrackedAre(mem: Snapshot, m: MemMap, nThreads: nat, value: seq<Byte>)
    returns (addresses: seq<nat>)
    requires WellPlaced(m) && |value| >= 1
    ensures Tracked(mem, m, nThreads, value) == HitVars(addresses, value) && Distinct(addresses)
    ensures forall p :: p in addresses <==> exists k: nat :: HitOf(mem, m, nThreads, value, p, k)
  {
    hide TaskHits, Chunked, AllTasks, Buffers, HitVars, TasksVars, Distinct, HitOf, WellPlaced, Splice.Contents;
    PlacedShaped(m);
    BuffersAre(m, |Bases(m)|);
    BuffersDisjoint(m, |Bases(m)|);
    var tasks := AllTasks(Buffers(m, |Bases(m)|), nThreads);
    TasksApart(Buffers(m, |Bases(m)|), nThreads);
    WorkersValid(mem, tasks, value);
    SequentialComplete(mem, tasks, value);
    var c := Workers(mem, tasks, value);
    addresses := Splice.Contents(c, UpTo(|tasks|));
    forall p ensures p in addresses <==> exists k: nat :: HitOf(mem, m, nThreads, value, p, k) {
      Splice.ContentsMember(c, UpTo(|tasks|), p);
      InSomeTask(mem, tasks, value, p);
      HitOfTask(mem, m, nThreads, value, p);
    }
  }

  lemma PlacedShaped(m: MemMap)
    requires WellPlaced(m)
    ensures Shaped(m)
  {
  }

  lemma InSomeTask(mem: Snapshot, tasks: seq<Task>, value: seq<Byte>, p: nat)
    requires |value| >= 1
    ensures var c := Workers(mem, tasks, value);
            (exists w :: w in UpTo(|tasks|) && p in c.segs[w])
            <==> exists t :: t in tasks && p in TaskHits(mem, t, value)
  {
    hide TaskHits;
    var c := Workers(mem, tasks, value);
    if t :| t in tasks && p in TaskHits(mem, t, value) {
      var w :| 0 <= w < |tasks| && tasks[w] == t;
      assert UpTo(|tasks|)[w] in UpTo(|tasks|) && p in c.segs[w];
    }
    if w :| w in UpTo(|tasks|) && p in c.segs[w] {
      assert tasks[w] in tasks;
    }
  }

  // ---------------------------------------------------------------- the same remote variable twice

  /** No remote address is tracked twice; first bytes of buffers, which have none, aside. */
  ghost predicate RemotesDistinct(m: MemMap, vars: seq<Var>)
    requires Shaped(m)
  {
    forall a, b | 0 <= a < b < |vars| && Remote(m, vars[a].address) != 0 ::
      Remote(m, vars[a].address) != Remote(m, vars[b].address)
  }

  /** Two buffers of equal regions have hits at the same offset o, behind their first byte. */
  ghost predicate Twins(mem: Snapshot, m: MemMap, nThreads: nat, value: seq<Byte>, k: nat, j: nat, o: nat)
    requires Shaped(m) && |value| >= 1
  {
    && k < |Bases(m)| && j < |Bases(m)| && k != j && o > 0 && Regions(m.rgn)[k] == Regions(m.rgn)[j]
    && HitAt(mem, m, nThreads, value, k, o) && HitAt(mem, m, nThreads, value, j, o)
  }

  /** Two addresses in buffers with one remote address have the same offset in the buffers of equal regions. */
  lemma SameRemoteOffset(m: MemMap, p: nat, k: nat, q: nat, j: nat)
    requires WellPlaced(m) && p != q && k < |Bases(m)| && j < |Bases(m)|
    requires 0 < Bases(m)[k] <= p < Bases(m)[k] + Len(Regions(m.rgn)[k])
    requires 0 < Bases(m)[j] <= q < Bases(m)[j] + Len(Regions(m.rgn)[j])
    requires Remote(m, p) != 0 && Remote(m, p) == Remote(m, q)
    ensures k != j && p > Bases(m)[k] && Regions(m.rgn)[k] == Regions(m.rgn)[j]
    ensures p - Bases(m)[k] == q - Bases(m)[j]
  {
    hide Remote, BuffersApart, Separated;
    TranslatedIff(m, k, p);
    TranslatedIff(m, j, q);
    SameRemoteIff(m, k, p, j, q);
  }

  lemma HitBuffered(mem: Snapshot, m: MemMap, nThreads: nat, value: seq<Byte>, k: nat, o: nat)
    requires Shaped(m) && |value| >= 1 && HitAt(mem, m, nThreads, value, k, o)
    ensures k < |Bases(m)| && Bases(m)[k] > 0
  {
  }

  /** Twins are different addresses with one remote address. */
  lemma TwinsSameRemote(mem: Snapshot, m: MemMap, nThreads: nat, value: seq<Byte>, k: nat, j: nat, o: nat)
    requires WellPlaced(m) && |value| >= 1
    ensures Twins(mem, m, nThreads, value, k, j, o) ==>
              && k < |Bases(m)| && j < |Bases(m)|
              && var p, q := Bases(m)[k] + o, Bases(m)[j] + o;
                 && p != q && Remote(m, p) == Remote(m, q) != 0
                 && HitOf(mem, m, nThreads, value, p, k) && HitOf(mem, m, nThreads, value, q, j)
  {
    hide HitAt, Remote, Separated;
    if Twins(mem, m, nThreads, value, k, j, o) {
      HitInside(mem, m, nThreads, value, k, o);
      HitInside(mem, m, nThreads, value, j, o);
      HitBuffered(mem, m, nThreads, value, k, o);
      HitBuffered(mem, m, nThreads, value, j, o);
      RemoteIs(m, k, Bases(m)[k] + o);
      RemoteIs(m, j, Bases(m)[j] + o);
    }
  }

  /**
   A scan of all buffers, with any number of threads, tracks no remote variable twice exactly when no two buffers of
   equal regions have hits at the same offset.
   */
  lemma RemotesDistinctIff(mem: Snapshot, m: MemMap, nThreads: nat, value: seq<Byte>)
    requires WellPlaced(m) && |value| >= 1
    ensures RemotesDistinct(m, Tracked(mem, m, nThreads, value))
            <==> !exists k: nat, j: nat, o: nat :: Twins(mem, m, nThreads, value, k, j, o)
  {
    hide Twins, HitOf, Remote, Tracked, WellPlaced, Distinct;
    PlacedShaped(m);
    var addresses := TrackedAre(mem, m, nThreads, value);
    var vars := Tracked(mem, m, nThreads, value);
    if k: nat, j: nat, o: nat :| Twins(mem, m, nThreads, value, k, j, o) {
      TwinsSameRemote(mem, m, nThreads, value, k, j, o);
      var p, q := Bases(m)[k] + o, Bases(m)[j] + o;
      assert p in addresses && q in addresses;
      var a :| 0 <= a < |addresses| && addresses[a] == p;
      var b :| 0 <= b < |addresses| && addresses[b] == q;
      assert vars[a].address == p && vars[b].address == q;
      assert !RemotesDistinct(m, vars);
    } else {
      forall a, b | 0 <= a < b < |vars| && Remote(m, vars[a].address) != 0
        ensures Remote(m, vars[a].address) != Remote(m, vars[b].address)
      {
        var p, q := addresses[a], addresses[b];
        assert p in addresses && q in addresses;
        DistinctAt(addresses, a, b);
        var k: nat :| HitOf(mem, m, nThreads, value, p, k);
        var j: nat :| HitOf(mem, m, nThreads, value, q, j);
        SameRemoteTwins(mem, m, nThreads, value, p, k, q, j);
      }
    }
  }

  /** Two tracked addresses with one remote address are twins. */
  lemma SameRemoteTwins(mem: Snapshot, m: MemMap, nThreads: nat, value: seq<Byte>, p: nat, k: nat, q: nat, j: nat)
    requires WellPlaced(m) && |value| >= 1
    ensures HitOf(mem, m, nThreads, value, p, k) && HitOf(mem, m, nThreads, value, q, j)
            && p != q && Remote(m, p) != 0 && Remote(m, p) == Remote(m, q)
            ==> k < |Bases(m)| && p >= Bases(m)[k] && Twins(mem, m, nThreads, value, k, j, p - Bases(m)[k])
  {
    hide Remote, WellPlaced, HitAt;
    PlacedShaped(m);
    if HitOf(mem, m, nThreads, value, p, k) && HitOf(mem, m, nThreads, value, q, j) {
      HitBuffered(mem, m, nThreads, value, k, p - Bases(m)[k]);
      HitBuffered(mem, m, nThreads, value, j, q - Bases(m)[j]);
      HitInside(mem, m, nThreads, value, k, p - Bases(m)[k]);
      HitInside(mem, m, nThreads, value, j, q - Bases(m)[j]);
      if p != q && Remote(m, p) != 0 && Remote(m, p) == Remote(m, q) {
        SameRemoteOffset(m, p, k, q, j);
      }
    }
  }

  lemma DistinctAt(s: seq<nat>, a: nat, b: nat)
    requires Distinct(s) && a < b < |s|
    ensures s[a] != s[b]
  {
  }

  // ---------------------------------------------------------------- copies hold the same bytes

  /** The buffers of equal regions were filled from the same remote bytes. */
  ghost predicate Mirrored(mem: Snapshot, m: MemMap)
    requires Shaped(m)
  {
    && (forall k | 0 <= k < |Bases(m)| && Bases(m)[k] > 0 :: BufferOf(m, k).hi <= |mem|)
    && forall k, j | 0 <= k < |Bases(m)| && 0 <= j < |Bases(m)| && Bases(m)[k] > 0 && Bases(m)[j] > 0 ::
         Regions(m.rgn)[k] == Regions(m.rgn)[j] ==>
           mem[BufferOf(m, k).lo..BufferOf(m, k).hi] == mem[BufferOf(m, j).lo..BufferOf(m, j).hi]
  }

  /** mem holds the same bytes in [lo, hi) and d bytes on (back, for a negative d). */
  ghost predicate SameBytes(mem: Snapshot, lo: nat, hi: nat, d: int) {
    && lo <= hi <= |mem| && 0 <= lo + d && hi + d <= |mem|
    && forall i | lo <= i < hi :: mem[i] == mem[i + d]
  }

  lemma SameBytesTail(mem: Snapshot, lo: nat, hi: nat, d: int, next: nat)
    requires SameBytes(mem, lo, hi, d) && lo <= next <= hi
    ensures SameBytes(mem, next, hi, d)
  {
  }

  lemma SameBytesRange(mem: Snapshot, lo: nat, hi: nat, d: int)
    requires SameBytes(mem, lo, hi, d)
    ensures lo <= hi && 0 <= lo + d && 0 <= hi + d
  {
  }

  lemma {:induction false} GreedyShifted(mem: Snapshot, lo: nat, hi: nat, d: int, value: seq<Byte>, p: nat)
    requires |value| >= 1 && lo <= hi && 0 <= lo + d && SameBytes(mem, lo, hi, d) && p + d >= 0
    ensures p in Scan.Greedy(mem, lo, hi, value) ==> p + d in Scan.Greedy(mem, lo + d, hi + d, value)
    decreases hi - lo
  {
    hide OccursAt, SameBytes;
    SameBytesRange(mem, lo, hi, d);
    if lo + |value| <= hi {
      OccursShifted(mem, lo, hi, d, value);
      var next := if OccursAt(mem, lo, value) then lo + |value| else lo + 1;
      SameBytesTail(mem, lo, hi, d, next);
      GreedyShifted(mem, next, hi, d, value, p);
    }
  }

  lemma OccursShifted(mem: Snapshot, lo: nat, hi: nat, d: int, value: seq<Byte>)
    requires SameBytes(mem, lo, hi, d) && lo + |value| <= hi
    ensures OccursAt(mem, lo, value) <==> OccursAt(mem, lo + d, value)
  {
    assert mem[lo..lo + |value|] == mem[lo + d..lo + d + |value|];
  }

  lemma CutShifted(lo: nat, hi: nat, n: nat, i: nat, d: int)
    requires lo <= hi && n >= 1 && 0 <= lo + d
    ensures Scan.CutAt(lo + d, hi + d, n, i) == Scan.CutAt(lo, hi, n, i) + d
  {
  }

  lemma ChunkShifted(r: Task, d: int, nThreads: nat, t: Task)
    requires r.lo <= r.hi && 0 <= r.lo + d && t in Chunked(r, nThreads)
    ensures r.lo <= t.lo <= t.hi <= r.hi
    ensures Task(t.lo + d, t.hi + d) in Chunked(Task(r.lo + d, r.hi + d), nThreads)
  {
    hide Scan.CutAt, Chunked;
    ChunksApart(r, nThreads);
    var shifted := Task(r.lo + d, r.hi + d);
    var i := ChunkIndex(r, nThreads, t);
    ChunkAt(r, nThreads, i);
    ChunkAt(shifted, nThreads, i);
    if nThreads > 0 {
      CutShifted(r.lo, r.hi, nThreads, i, d);
      CutShifted(r.lo, r.hi, nThreads, i + 1, d);
    }
    assert Chunked(shifted, nThreads)[i] == Task(t.lo + d, t.hi + d);
  }

  lemma ChunkIndex(r: Task, nThreads: nat, t: Task) returns (i: nat)
    requires r.lo <= r.hi && t in Chunked(r, nThreads)
    ensures i < |Chunked(r, nThreads)| && Chunked(r, nThreads)[i] == t
  {
    i :| i < |Chunked(r, nThreads)| && Chunked(r, nThreads)[i] == t;
  }

  lemma ChunkAt(r: Task, nThreads: nat, i: nat)
    requires r.lo <= r.hi
    ensures |Chunked(r, nThreads)| == if nThreads == 0 then 1 else nThreads
    ensures i < |Chunked(r, nThreads)| ==>
              Chunked(r, nThreads)[i]
              == if nThreads == 0 then r
                 else Task(Scan.CutAt(r.lo, r.hi, nThreads, i), Scan.CutAt(r.lo, r.hi, nThreads, i + 1))
  {
    hide Scan.CutAt;
  }

  /** A hit in one chunk of a range is a hit in the same chunk of the shifted range. */
  lemma HitShifted(mem: Snapshot, r: Task, d: int, nThreads: nat, t: Task, value: seq<Byte>, p: nat)
    requires |value| >= 1 && r.lo <= r.hi
    ensures SameBytes(mem, r.lo, r.hi, d) && t in Chunked(r, nThreads) && p in TaskHits(mem, t, value) ==>
              && r.lo <= p && 0 <= p + d && 0 <= r.lo + d && 0 <= t.lo + d && 0 <= t.hi + d
              && Task(t.lo + d, t.hi + d) in Chunked(Task(r.lo + d, r.hi + d), nThreads)
              && p + d in TaskHits(mem, Task(t.lo + d, t.hi + d), value)
  {
    hide Chunked, TaskHits, Scan.Greedy;
    if SameBytes(mem, r.lo, r.hi, d) && t in Chunked(r, nThreads) && p in TaskHits(mem, t, value) {
      ChunkShifted(r, d, nThreads, t);
      TaskHitIn(mem, t, value, p);
      GreedyShifted(mem, t.lo, t.hi, d, value, p);
      TaskHitIn(mem, Task(t.lo + d, t.hi + d), value, p + d);
    }
  }

  lemma MirroredBytes(mem: Snapshot, m: MemMap, k: nat, j: nat)
    requires Shaped(m) && Mirrored(mem, m) && k < |Bases(m)| && j < |Bases(m)|
    requires Bases(m)[k] > 0 && Bases(m)[j] > 0 && Regions(m.rgn)[k] == Regions(m.rgn)[j]
    ensures SameBytes(mem, BufferOf(m, k).lo, BufferOf(m, k).hi, (Bases(m)[j] as int) - Bases(m)[k])
  {
    var r, d := BufferOf(m, k), (Bases(m)[j] as int) - Bases(m)[k];
    var x, y := mem[r.lo..r.hi], mem[r.lo + d..r.hi + d];
    assert x == y;
    forall i | r.lo <= i < r.hi ensures mem[i] == mem[i + d] {
      assert x[i - r.lo] == y[i - r.lo];
    }
  }

  /** Buffers of equal regions then have the same hits. */
  lemma MirroredHits(mem: Snapshot, m: MemMap, nThreads: nat, value: seq<Byte>, k: nat, j: nat, o: nat)
    requires Shaped(m) && |value| >= 1 && k < |Bases(m)| && j < |Bases(m)|
    requires Bases(m)[j] > 0 && Regions(m.rgn)[k] == Regions(m.rgn)[j]
    ensures Mirrored(mem, m) && HitAt(mem, m, nThreads, value, k, o) ==> HitAt(mem, m, nThreads, value, j, o)
  {
    hide Chunked, TaskHits, SameBytes, Mirrored;
    if Mirrored(mem, m) && HitAt(mem, m, nThreads, value, k, o) {
      var d, r := (Bases(m)[j] as int) - Bases(m)[k], BufferOf(m, k);
      var t :| t in Chunked(r, nThreads) && Bases(m)[k] + o in TaskHits(mem, t, value);
      MirroredBytes(mem, m, k, j);
      HitShifted(mem, r, d, nThreads, t, value, Bases(m)[k] + o);
      assert BufferOf(m, j) == Task(r.lo + d, r.hi + d);
    }
  }

  /** A region with two buffers has a hit behind its first byte. */
  ghost predicate DoubledHit(mem: Snapshot, m: MemMap, nThreads: nat, value: seq<Byte>, k: nat, j: nat, o: nat)
    requires Shaped(m) && |value| >= 1
  {
    && k < |Bases(m)| && j < |Bases(m)| && k != j && o > 0 && Regions(m.rgn)[k] == Regions(m.rgn)[j]
    && Bases(m)[j] > 0 && HitAt(mem, m, nThreads, value, k, o)
  }

  /** With buffers filled alike a remote variable is tracked twice exactly if a region with two buffers has a hit. */
  lemma MirroredRemotesDistinctIff(mem: Snapshot, m: MemMap, nThreads: nat, value: seq<Byte>)
    requires WellPlaced(m) && |value| >= 1 && Mirrored(mem, m)
    ensures RemotesDistinct(m, Tracked(mem, m, nThreads, value))
            <==> !exists k: nat, j: nat, o: nat :: DoubledHit(mem, m, nThreads, value, k, j, o)
  {
    hide RemotesDistinct, Tracked, HitAt, WellPlaced, Mirrored;
    PlacedShaped(m);
    RemotesDistinctIff(mem, m, nThreads, value);
    if k: nat, j: nat, o: nat :| DoubledHit(mem, m, nThreads, value, k, j, o) {
      MirroredHits(mem, m, nThreads, value, k, j, o);
      assert Twins(mem, m, nThreads, value, k, j, o);
    }
    if k: nat, j: nat, o: nat :| Twins(mem, m, nThreads, value, k, j, o) {
      HitBuffered(mem, m, nThreads, value, j, o);
      assert DoubledHit(mem, m, nThreads, value, k, j, o);
    }
  }
}
