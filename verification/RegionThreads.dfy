/** The table of thread handles of an initial scan: one slot per region, its threads, and joining them. */
module RegionThreads {
  import opened Memory

  datatype Region = Stack | Heap | Other(i: nat) | Disk(i: nat)

  /** Which buffers exist, how many regions the map records and `n_disk` counts, and the mapped disk files. */
  datatype Regions = Regions(stack: bool, heap: bool, other: bool, nRemaining: nat, nDisk: nat, nMapped: nat)

  predicate Present(g: Regions, r: Region) {
    match r
    case Stack => g.stack
    case Heap => g.heap
    case Other(i) => g.other && i < g.nRemaining
    case Disk(i) => i < g.nMapped
  }

  function SlotOf(g: Regions, r: Region): nat {
    match r
    case Stack => 0
    case Heap => 1
    case Other(i) => 2 + i
    case Disk(i) => 3 + g.nRemaining + i
  }

  /** `n_rgns`: how many slots are allocated. */
  function Capacity(g: Regions): nat {
    (if g.stack then 1 else 0) + (if g.heap then 1 else 0) + g.nRemaining + g.nDisk
  }

  /** Every region's slot exists. */
  ghost predicate AllFit(g: Regions) {
    forall r | Present(g, r) :: SlotOf(g, r) < Capacity(g)
  }

  /** Checkable before a scan: heap without stack, other regions without both, or disk files need spare slots. */
  predicate Roomy(g: Regions) {
    var buffers := (if g.stack then 1 else 0) + (if g.heap then 1 else 0) + g.nDisk;
    && (g.heap && !g.stack ==> g.nRemaining + g.nDisk > 0)
    && (g.other && g.nRemaining > 0 ==> buffers >= 2)
    && (g.nMapped > 0 ==> buffers > g.nMapped + 2)
  }

  /** The table is large enough exactly under that condition. */
  lemma AllFitIff(g: Regions)
    ensures AllFit(g) <==> Roomy(g)
  {
    if AllFit(g) {
      assert Present(g, Heap) ==> SlotOf(g, Heap) < Capacity(g);
      if g.other && g.nRemaining > 0 {
        assert Present(g, Other(g.nRemaining - 1)) && SlotOf(g, Other(g.nRemaining - 1)) < Capacity(g);
      }
      if g.nMapped > 0 {
        assert Present(g, Disk(g.nMapped - 1)) && SlotOf(g, Disk(g.nMapped - 1)) < Capacity(g);
      }
    }
  }

  /** `n_disk` stays 0, so with stack, heap and no disk files the table fits, and with a disk file it never does. */
  lemma DiskNeverFits(g: Regions)
    requires g.nDisk == 0
    ensures g.nMapped > 0 ==> !AllFit(g)
    ensures g.stack && g.heap && g.nMapped == 0 ==> AllFit(g)
    ensures g.other && g.nRemaining > 0 ==> (AllFit(g) <==> g.stack && g.heap && g.nMapped == 0)
  {
    AllFitIff(g);
  }

  /** The handles of a region's threads, or NULL when it is scanned without threads. */
  function Handles(r: Region, nThreads: nat): Option<Region> {
    if nThreads == 0 then None else Some(r)
  }

  /** Thread j of a region. */
  datatype Thread = Thread(of: Region, j: nat)

  /** The table after all present regions with a slot below n have stored their threads. */
  ghost predicate Filled(g: Regions, slots: seq<Option<Region>>, n: nat, nThreads: nat) {
    && (forall r | Present(g, r) && SlotOf(g, r) < n ::
          SlotOf(g, r) < |slots| && slots[SlotOf(g, r)] == Handles(r, nThreads))
    && (forall k | 0 <= k < |slots| && slots[k].Some? ::
          Present(g, slots[k].value) && SlotOf(g, slots[k].value) == k < n)
  }

  lemma NothingFilled(g: Regions, slots: seq<Option<Region>>, nThreads: nat)
    requires forall k | 0 <= k < |slots| :: slots[k] == None
    ensures Filled(g, slots, 0, nThreads)
  {
  }

  /** Absent regions leave their slots empty. */
  lemma Skip(g: Regions, slots: seq<Option<Region>>, n: nat, m: nat, nThreads: nat)
    requires Filled(g, slots, n, nThreads) && n <= m && forall r | Present(g, r) && SlotOf(g, r) < m :: SlotOf(g, r) < n
    ensures Filled(g, slots, m, nThreads)
  {
  }

  /** Stores a region's threads; false for a store past the end of the table. */
  method Put(g: Regions, slots: array<Option<Region>>, r: Region, nThreads: nat) returns (ok: bool)
    requires Present(g, r) && Filled(g, slots[..], SlotOf(g, r), nThreads)
    modifies slots
    ensures ok <==> SlotOf(g, r) < slots.Length
    ensures ok ==> Filled(g, slots[..], SlotOf(g, r) + 1, nThreads)
  {
    var k := SlotOf(g, r);
    ok := k < slots.Length;
    if ok {
      slots[k] := Handles(r, nThreads);
    }
  }

  /** The loop over the remaining regions. */
  method PutOthers(g: Regions, slots: array<Option<Region>>, nThreads: nat) returns (ok: bool)
    requires g.other && Filled(g, slots[..], 2, nThreads)
    modifies slots
    ensures ok ==> Filled(g, slots[..], 2 + g.nRemaining, nThreads)
    ensures !ok ==> exists r :: Present(g, r) && SlotOf(g, r) >= slots.Length
  {
    hide Filled;
    for i := 0 to g.nRemaining
      invariant Filled(g, slots[..], 2 + i, nThreads)
    {
      ok := Put(g, slots, Other(i), nThreads);
      if !ok { return; }
    }
    ok := true;
  }

  /** The loop over the mapped disk files. */
  method PutDisks(g: Regions, slots: array<Option<Region>>, nThreads: nat) returns (ok: bool)
    requires Filled(g, slots[..], 3 + g.nRemaining, nThreads)
    modifies slots
    ensures ok ==> Filled(g, slots[..], 3 + g.nRemaining + g.nMapped, nThreads)
    ensures !ok ==> exists r :: Present(g, r) && SlotOf(g, r) >= slots.Length
  {
    hide Filled;
    for i := 0 to g.nMapped
      invariant Filled(g, slots[..], 3 + g.nRemaining + i, nThreads)
    {
      ok := Put(g, slots, Disk(i), nThreads);
      if !ok { return; }
    }
    ok := true;
  }

  /**
   The region loop of `narrow_mem_map_frame_opt` and its joins, in order, or None when a handle is stored outside the
   table. No handle is overwritten, so otherwise every thread of every region is joined once.
   */
  method SpawnAndJoin(g: Regions, nThreads: nat) returns (joined: Option<seq<Thread>>)
    ensures joined.Some? <==> Roomy(g)
    ensures joined.Some? ==> Distinct(joined.value)
    ensures joined.Some? ==> forall t :: t in joined.value <==> Present(g, t.of) && t.j < nThreads
  {
    hide Filled, Roomy;
    AllFitIff(g);
    var slots := new Option<Region>[Capacity(g)](_ => None);
    NothingFilled(g, slots[..], nThreads);
    if g.stack {
      var ok := Put(g, slots, Stack, nThreads);
      if !ok { return None; }
    }
    Skip(g, slots[..], if g.stack then 1 else 0, 1, nThreads);
    if g.heap {
      var ok := Put(g, slots, Heap, nThreads);
      if !ok { return None; }
    }
    Skip(g, slots[..], if g.heap then 2 else 1, 2, nThreads);
    if g.other {
      var ok := PutOthers(g, slots, nThreads);
      if !ok { return None; }
    }
    Skip(g, slots[..], if g.other then 2 + g.nRemaining else 2, 3 + g.nRemaining, nThreads);
    var ok := PutDisks(g, slots, nThreads);
    if !ok { return None; }
    var all := JoinAll(g, slots, nThreads);
    return Some(all);
  }

  /** Joins slot by slot, thread by thread, skipping the empty slots. */
  method JoinAll(g: Regions, slots: array<Option<Region>>, nThreads: nat) returns (joined: seq<Thread>)
    requires Filled(g, slots[..], 3 + g.nRemaining + g.nMapped, nThreads)
    ensures Distinct(joined) && forall t :: t in joined <==> Present(g, t.of) && t.j < nThreads
    ensures slots.Length == Capacity(g) ==> AllFit(g)
  {
    joined := [];
    for i := 0 to slots.Length
      invariant Distinct(joined)
      invariant forall t :: t in joined <==> Present(g, t.of) && SlotOf(g, t.of) < i && t.j < nThreads
    {
      assert slots[..][i] == slots[i];
      ghost var before := joined;
      for j := 0 to nThreads
        invariant Distinct(joined)
        invariant forall t :: t in joined <==> t in before || (slots[i] == Some(t.of) && t.j < j)
      {
        if slots[i].None? {
          continue;
        }
        DistinctAppend(joined, Thread(slots[i].value, j));
        joined := joined + [Thread(slots[i].value, j)];
      }
    }
    assert forall r | Present(g, r) :: SlotOf(g, r) < |slots[..]|;
  }
}
