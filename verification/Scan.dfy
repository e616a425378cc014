/** The initial scan of a byte range: greedy leftmost matching, and what cutting the range into chunks costs. */
module Scan {
  import opened Memory

  /** Naive byte-by-byte reference: take a match, jump over it; otherwise advance one byte. */
  function Greedy(mem: Snapshot, lo: nat, hi: nat, value: seq<Byte>): (hits: seq<nat>)
    requires |value| >= 1
    decreases hi - lo
  {
    if lo + |value| > hi then []
    else if OccursAt(mem, lo, value) then [lo] + Greedy(mem, lo + |value|, hi, value)
    else Greedy(mem, lo + 1, hi, value)
  }

  /** memchr over [from, end). */
  function FirstByte(mem: Snapshot, from: nat, end: nat, b: Byte): (r: Option<nat>)
    requires from <= end <= |mem|
    ensures r.Some? ==> from <= r.value < end && mem[r.value] == b
    ensures forall q | from <= q < end && (r.Some? ==> q < r.value) :: mem[q] != b
    decreases end - from
  {
    if from == end then None else if mem[from] == b then Some(from) else FirstByte(mem, from + 1, end, b)
  }

  lemma NeedsFirstByte(mem: Snapshot, p: nat, value: seq<Byte>)
    requires |value| >= 1 && p < |mem|
    ensures OccursAt(mem, p, value) ==> mem[p] == value[0]
  {
    assert OccursAt(mem, p, value) ==> mem[p] == mem[p..p + |value|][0];
  }

  /** Skipping bytes that cannot start a match changes nothing. */
  lemma {:induction false} SkipToFirstByte(mem: Snapshot, from: nat, end: nat, hi: nat, value: seq<Byte>)
    requires |value| >= 1 && from <= end <= hi <= |mem|
    requires forall q | from <= q < end :: mem[q] != value[0]
    ensures Greedy(mem, from, hi, value) == Greedy(mem, end, hi, value)
    decreases end - from
  {
    if from < end {
      SkipToFirstByte(mem, from + 1, end, hi, value);
      NeedsFirstByte(mem, from, value);
    }
  }

  /** An increasing choice of occurrences inside [lo, hi), no two overlapping. */
  ghost predicate Packing(mem: Snapshot, lo: nat, hi: nat, value: seq<Byte>, ps: seq<nat>) {
    && (forall i | 0 <= i < |ps| :: lo <= ps[i] && ps[i] + |value| <= hi && OccursAt(mem, ps[i], value))
    && (forall i, j | 0 <= i < j < |ps| :: ps[i] + |value| <= ps[j])
  }

  lemma PackingCons(mem: Snapshot, lo: nat, hi: nat, value: seq<Byte>, rest: seq<nat>)
    requires Packing(mem, lo + |value|, hi, value, rest) && lo + |value| <= hi && OccursAt(mem, lo, value)
    ensures Packing(mem, lo, hi, value, [lo] + rest)
  {
    var ps := [lo] + rest;
    assert forall i | 0 < i < |ps| :: ps[i] == rest[i - 1];
  }

  lemma {:induction false} GreedyIsPacking(mem: Snapshot, lo: nat, hi: nat, value: seq<Byte>)
    requires |value| >= 1
    ensures Packing(mem, lo, hi, value, Greedy(mem, lo, hi, value))
    decreases hi - lo
  {
    if lo + |value| > hi {
    } else if OccursAt(mem, lo, value) {
      GreedyIsPacking(mem, lo + |value|, hi, value);
      PackingCons(mem, lo, hi, value, Greedy(mem, lo + |value|, hi, value));
    } else {
      GreedyIsPacking(mem, lo + 1, hi, value);
    }
  }

  /** Greedy matching is optimal: no packing has more occurrences. */
  lemma {:induction false} GreedyIsMaximum(mem: Snapshot, lo: nat, hi: nat, value: seq<Byte>, ps: seq<nat>)
    requires |value| >= 1
    requires Packing(mem, lo, hi, value, ps)
    ensures |ps| <= |Greedy(mem, lo, hi, value)|
    decreases hi - lo
  {
    if ps == [] {
      return;
    }
    assert lo <= ps[0] && ps[0] + |value| <= hi;
    if OccursAt(mem, lo, value) {
      assert forall i | 0 < i < |ps| :: ps[0] + |value| <= ps[i];
      GreedyIsMaximum(mem, lo + |value|, hi, value, ps[1..]);
    } else {
      GreedyIsMaximum(mem, lo + 1, hi, value, ps);
    }
  }

  /** Greedy misses nothing: an occurrence is a hit or overlaps a hit that starts before it. */
  lemma {:induction false} EveryOccurrenceCovered(mem: Snapshot, lo: nat, hi: nat, value: seq<Byte>, p: nat)
    requires |value| >= 1
    requires lo <= p && p + |value| <= hi && OccursAt(mem, p, value)
    ensures p in Greedy(mem, lo, hi, value)
            || exists q :: q in Greedy(mem, lo, hi, value) && q < p < q + |value|
    decreases hi - lo
  {
    var hits := Greedy(mem, lo, hi, value);
    if OccursAt(mem, lo, value) {
      if lo + |value| <= p {
        EveryOccurrenceCovered(mem, lo + |value|, hi, value, p);
        var rest := Greedy(mem, lo + |value|, hi, value);
        assert forall q :: q in rest ==> q in hits;
      } else {
        assert hits[0] == lo && lo in hits;
      }
    } else {
      EveryOccurrenceCovered(mem, lo + 1, hi, value, p);
    }
  }

  // ---------------------------------------------------------------- one cut

  ghost predicate Straddles(p: nat, cut: nat, value: seq<Byte>) {
    p < cut < p + |value|
  }

  /** Index of the first element of an increasing sequence that does not fit below `cut`. */
  lemma SplitIndex(mem: Snapshot, lo: nat, hi: nat, value: seq<Byte>, ps: seq<nat>, cut: nat) returns (k: nat)
    requires Packing(mem, lo, hi, value, ps)
    ensures k <= |ps|
    ensures forall i | 0 <= i < k :: ps[i] + |value| <= cut
    ensures k < |ps| ==> ps[k] + |value| > cut
  {
    k := 0;
    while k < |ps| && ps[k] + |value| <= cut
      invariant k <= |ps|
      invariant forall i | 0 <= i < k :: ps[i] + |value| <= cut
    {
      k := k + 1;
    }
  }

  lemma CutGainsNothing(mem: Snapshot, lo: nat, cut: nat, hi: nat, value: seq<Byte>)
    requires |value| >= 1 && lo <= cut <= hi
    ensures |Greedy(mem, lo, cut, value)| + |Greedy(mem, cut, hi, value)| <= |Greedy(mem, lo, hi, value)|
  {
    hide OccursAt, Greedy;
    var left, right := Greedy(mem, lo, cut, value), Greedy(mem, cut, hi, value);
    GreedyIsPacking(mem, lo, cut, value);
    GreedyIsPacking(mem, cut, hi, value);
    GreedyIsMaximum(mem, lo, hi, value, left + right);
  }

  lemma CutLosesOne(mem: Snapshot, lo: nat, cut: nat, hi: nat, value: seq<Byte>)
    requires |value| >= 1 && lo <= cut <= hi
    ensures |Greedy(mem, lo, hi, value)| <= |Greedy(mem, lo, cut, value)| + |Greedy(mem, cut, hi, value)| + 1
  {
    hide OccursAt, Greedy;
    var whole := Greedy(mem, lo, hi, value);
    GreedyIsPacking(mem, lo, hi, value);
    var k := SplitIndex(mem, lo, hi, value, whole, cut);
    GreedyIsMaximum(mem, lo, cut, value, whole[..k]);
    if k < |whole| {
      GreedyIsMaximum(mem, cut, hi, value, whole[k + 1..]);
    }
  }

  /** Cutting a range in two never gains a hit and loses at most one. */
  lemma CutCosts(mem: Snapshot, lo: nat, cut: nat, hi: nat, value: seq<Byte>)
    requires |value| >= 1 && lo <= cut <= hi
    ensures var parts := |Greedy(mem, lo, cut, value)| + |Greedy(mem, cut, hi, value)|;
            parts <= |Greedy(mem, lo, hi, value)| <= parts + 1
  {
    CutGainsNothing(mem, lo, cut, hi, value);
    CutLosesOne(mem, lo, cut, hi, value);
  }

  /** A cut that no hit straddles leaves the scan unchanged. */
  lemma {:induction false} CleanCut(mem: Snapshot, lo: nat, cut: nat, hi: nat, value: seq<Byte>)
    requires |value| >= 1 && lo <= cut <= hi
    requires forall p | p in Greedy(mem, lo, hi, value) :: !Straddles(p, cut, value)
    ensures Greedy(mem, lo, hi, value) == Greedy(mem, lo, cut, value) + Greedy(mem, cut, hi, value)
    decreases hi - lo
  {
    var whole := Greedy(mem, lo, hi, value);
    if lo == cut || lo + |value| > hi {
      assert Greedy(mem, lo, cut, value) == [];
      if lo + |value| > hi {
        assert Greedy(mem, cut, hi, value) == [];
      }
    } else if OccursAt(mem, lo, value) {
      assert whole[0] == lo && lo in whole && !Straddles(lo, cut, value);
      var rest := Greedy(mem, lo + |value|, hi, value);
      assert forall p :: p in rest ==> p in whole;
      CleanCut(mem, lo + |value|, cut, hi, value);
    } else {
      CleanCut(mem, lo + 1, cut, hi, value);
    }
  }

  // ---------------------------------------------------------------- many cuts

  /** Chunk boundaries: bs[i], bs[i+1] delimit chunk i. */
  ghost predicate Boundaries(bs: seq<nat>) {
    |bs| >= 1 && forall i, j | 0 <= i < j < |bs| :: bs[i] <= bs[j]
  }

  /** The hits of all chunks, left to right. */
  function ChunkHits(mem: Snapshot, bs: seq<nat>, value: seq<Byte>): seq<nat>
    requires |value| >= 1
  {
    if |bs| < 2 then [] else ChunkHits(mem, bs[..|bs| - 1], value) + Greedy(mem, bs[|bs| - 2], bs[|bs| - 1], value)
  }

  lemma {:induction false} ChunksCost(mem: Snapshot, bs: seq<nat>, value: seq<Byte>)
    requires |value| >= 1 && Boundaries(bs) && |bs| >= 2
    ensures var whole := |Greedy(mem, bs[0], bs[|bs| - 1], value)|;
            var chunks := |ChunkHits(mem, bs, value)|;
            chunks <= whole <= chunks + (|bs| - 2)
  {
    var init := bs[..|bs| - 1];
    if |bs| == 2 {
      assert ChunkHits(mem, init, value) == [];
    } else {
      ChunksCost(mem, init, value);
      CutCosts(mem, bs[0], bs[|bs| - 2], bs[|bs| - 1], value);
    }
  }

  /** A position is a chunk hit exactly when it is a greedy hit of one chunk. */
  lemma {:induction false} InChunkHits(mem: Snapshot, bs: seq<nat>, value: seq<Byte>, p: nat)
    requires |value| >= 1
    ensures p in ChunkHits(mem, bs, value)
            <==> exists i :: 0 <= i < |bs| - 1 && p in Greedy(mem, bs[i], bs[i + 1], value)
  {
    if |bs| >= 2 {
      var init := bs[..|bs| - 1];
      InChunkHits(mem, init, value, p);
      if p in ChunkHits(mem, init, value) {
        var i :| 0 <= i < |init| - 1 && p in Greedy(mem, init[i], init[i + 1], value);
        assert p in Greedy(mem, bs[i], bs[i + 1], value);
      }
      if i :| 0 <= i < |bs| - 1 && p in Greedy(mem, bs[i], bs[i + 1], value) {
        if i < |bs| - 2 {
          assert p in Greedy(mem, init[i], init[i + 1], value);
        }
      }
    }
  }

  lemma GreedyHitInside(mem: Snapshot, lo: nat, hi: nat, value: seq<Byte>, p: nat)
    requires |value| >= 1 && p in Greedy(mem, lo, hi, value)
    ensures lo <= p && p + |value| <= hi && OccursAt(mem, p, value)
  {
    GreedyIsPacking(mem, lo, hi, value);
  }

  lemma NoBoundaryInsideChunk(bs: seq<nat>, i: nat, cut: nat)
    requires Boundaries(bs) && i < |bs| - 1 && cut in bs
    ensures bs[0] <= bs[i] && bs[i + 1] <= bs[|bs| - 1]
    ensures cut <= bs[i] || bs[i + 1] <= cut
  {
    var c :| 0 <= c < |bs| && bs[c] == cut;
  }

  lemma ChunkHitsInside(mem: Snapshot, bs: seq<nat>, value: seq<Byte>, p: nat, cut: nat)
    requires |value| >= 1 && Boundaries(bs)
    requires p in ChunkHits(mem, bs, value) && cut in bs
    ensures bs[0] <= p && p + |value| <= bs[|bs| - 1] && OccursAt(mem, p, value) && !Straddles(p, cut, value)
  {
    InChunkHits(mem, bs, value, p);
    var i :| 0 <= i < |bs| - 1 && p in Greedy(mem, bs[i], bs[i + 1], value);
    hide Greedy, ChunkHits, Boundaries;
    GreedyHitInside(mem, bs[i], bs[i + 1], value, p);
    NoBoundaryInsideChunk(bs, i, cut);
  }

  /** The chunked scan equals the single scan exactly when no hit of the single scan straddles a boundary. */
  lemma {:induction false} ChunkedEqualsWholeIff(mem: Snapshot, bs: seq<nat>, value: seq<Byte>)
    requires |value| >= 1 && Boundaries(bs) && |bs| >= 2
    ensures var whole := Greedy(mem, bs[0], bs[|bs| - 1], value);
            ChunkHits(mem, bs, value) == whole
            <==> forall p, cut | p in whole && cut in bs :: !Straddles(p, cut, value)
  {
    var whole := Greedy(mem, bs[0], bs[|bs| - 1], value);
    if ChunkHits(mem, bs, value) == whole {
      forall p, cut | p in whole && cut in bs ensures !Straddles(p, cut, value) {
        ChunkHitsInside(mem, bs, value, p, cut);
      }
    }
    if forall p, cut | p in whole && cut in bs :: !Straddles(p, cut, value) {
      var init, cut := bs[..|bs| - 1], bs[|bs| - 2];
      if |bs| == 2 {
        assert ChunkHits(mem, init, value) == [];
      } else {
        CleanCut(mem, bs[0], cut, bs[|bs| - 1], value);
        var left := Greedy(mem, bs[0], cut, value);
        assert forall p :: p in left ==> p in whole;
        ChunkedEqualsWholeIff(mem, init, value);
      }
    }
  }

  /** One-byte values: threads never change the result. */
  lemma OneByteChunksExact(mem: Snapshot, bs: seq<nat>, value: seq<Byte>)
    requires |value| == 1 && Boundaries(bs) && |bs| >= 2
    ensures ChunkHits(mem, bs, value) == Greedy(mem, bs[0], bs[|bs| - 1], value)
  {
    ChunkedEqualsWholeIff(mem, bs, value);
  }

  // ---------------------------------------------------------------- values that cannot overlap themselves

  ghost predicate NoSelfOverlap(value: seq<Byte>) {
    forall d | 0 < d < |value| :: value[d..] != value[..|value| - d]
  }

  lemma OverlapShiftsValue(mem: Snapshot, q: nat, p: nat, value: seq<Byte>)
    requires OccursAt(mem, q, value) && OccursAt(mem, p, value) && q < p < q + |value|
    ensures !NoSelfOverlap(value)
  {
    var d := p - q;
    assert value[d..] == value[..|value| - d] by {
      assert value[d..] == mem[q..q + |value|][d..] == mem[p..q + |value|];
      assert value[..|value| - d] == mem[p..p + |value|][..|value| - d] == mem[p..q + |value|];
    }
  }

  lemma GreedyIsAllOccurrences(mem: Snapshot, lo: nat, hi: nat, value: seq<Byte>, p: nat)
    requires |value| >= 1 && NoSelfOverlap(value)
    ensures p in Greedy(mem, lo, hi, value) <==> lo <= p && p + |value| <= hi && OccursAt(mem, p, value)
  {
    GreedyIsPacking(mem, lo, hi, value);
    if lo <= p && p + |value| <= hi && OccursAt(mem, p, value) && p !in Greedy(mem, lo, hi, value) {
      EveryOccurrenceCovered(mem, lo, hi, value, p);
      var q :| q in Greedy(mem, lo, hi, value) && q < p < q + |value|;
      OverlapShiftsValue(mem, q, p, value);
    }
  }

  /** Without self-overlap the chunks find every occurrence in the region but the straddling ones. */
  lemma ChunksFindAllButStraddling(mem: Snapshot, bs: seq<nat>, value: seq<Byte>, p: nat)
    requires |value| >= 1 && NoSelfOverlap(value) && Boundaries(bs) && |bs| >= 2
    ensures p in ChunkHits(mem, bs, value)
            <==> && bs[0] <= p && p + |value| <= bs[|bs| - 1] && OccursAt(mem, p, value)
                 && forall cut | cut in bs :: !Straddles(p, cut, value)
  {
    if p in ChunkHits(mem, bs, value) {
      forall cut | cut in bs ensures !Straddles(p, cut, value) {
        ChunkHitsInside(mem, bs, value, p, cut);
      }
      ChunkHitsInside(mem, bs, value, p, bs[0]);
    } else if bs[0] <= p && p + |value| <= bs[|bs| - 1] && OccursAt(mem, p, value) {
      var i := ContainingChunk(bs, p);
      InChunkHits(mem, bs, value, p);
      GreedyIsAllOccurrences(mem, bs[i], bs[i + 1], value, p);
      assert bs[i + 1] in bs;
    }
  }

  lemma ContainingChunk(bs: seq<nat>, p: nat) returns (i: nat)
    requires Boundaries(bs) && |bs| >= 2 && bs[0] <= p < bs[|bs| - 1]
    ensures i < |bs| - 1 && bs[i] <= p < bs[i + 1]
  {
    i := 0;
    while bs[i + 1] <= p
      invariant i < |bs| - 1 && bs[i] <= p
      decreases |bs| - i
    {
      i := i + 1;
    }
  }

  // ---------------------------------------------------------------- how the spawner cuts

  function CutAt(start: nat, end: nat, n: nat, i: nat): nat
    requires start <= end && n >= 1
  {
    if i == n then end else start + i * ((end - start) / n)
  }

  /** Boundaries for `n` threads over [start, end): equal truncated shares, the last chunk runs to the end. */
  function Cuts(start: nat, end: nat, n: nat): (bs: seq<nat>)
    requires start <= end && n >= 1
  {
    seq(n + 1, i requires 0 <= i => CutAt(start, end, n, i))
  }

  lemma NextCut(start: nat, end: nat, n: nat, i: nat)
    requires start <= end && n >= 1 && i < n
    ensures CutAt(start, end, n, 0) == start
    ensures CutAt(start, end, n, i + 1) == if i + 1 == n then end else CutAt(start, end, n, i) + (end - start) / n
  {
    var q := (end - start) / n;
    assert (i + 1) * q == i * q + q;
  }

  lemma ShareFits(len: nat, n: nat, i: nat)
    requires n >= 1 && i <= n
    ensures 0 <= i * (len / n) <= len
  {
    var q := len / n;
    assert q * n <= len;
    assert i * q <= n * q by { MulMono(i, n, q); }
  }

  lemma MulMono(i: nat, j: nat, q: nat)
    requires i <= j
    ensures i * q <= j * q
  {
    assert j * q == i * q + (j - i) * q;
  }

  /** The chunks tile the region for every length and thread count, a length below the thread count included. */
  lemma CutsTile(start: nat, end: nat, n: nat)
    requires start <= end && n >= 1
    ensures var bs := Cuts(start, end, n);
            |bs| == n + 1 && bs[0] == start && bs[n] == end && Boundaries(bs)
  {
    var bs, q := Cuts(start, end, n), (end - start) / n;
    forall i, j | 0 <= i < j < |bs| ensures bs[i] <= bs[j] {
      if j == n {
        ShareFits(end - start, n, i);
      } else {
        MulMono(i, j, q);
      }
    }
  }

  /** n threads find at most the single-thread hits, and miss at most n - 1 of them. */
  lemma ThreadsCost(mem: Snapshot, start: nat, end: nat, n: nat, value: seq<Byte>)
    requires |value| >= 1 && start <= end && n >= 1
    ensures var whole := |Greedy(mem, start, end, value)|;
            var chunks := |ChunkHits(mem, Cuts(start, end, n), value)|;
            chunks <= whole <= chunks + (n - 1)
  {
    CutsTile(start, end, n);
    ChunksCost(mem, Cuts(start, end, n), value);
  }

  /** A boundary-straddling match really is dropped: two threads over "ab" find nothing, one thread finds it. */
  lemma StraddlingMatchIsDropped()
    ensures var mem: Snapshot := [97, 98];
            var value: seq<Byte> := [97, 98];
            && Greedy(mem, 0, 2, value) == [0]
            && ChunkHits(mem, Cuts(0, 2, 2), value) == []
  {
    var mem: Snapshot, value: seq<Byte> := [97, 98], [97, 98];
    assert mem[0..2] == value;
    var bs := Cuts(0, 2, 2);
    assert bs == [0, 1, 2];
    assert bs[..2] == [0, 1];
    assert bs[..2][..1] == [0];
    assert ChunkHits(mem, [0], value) == [];
    assert ChunkHits(mem, [0, 1], value) == [];
  }
}
