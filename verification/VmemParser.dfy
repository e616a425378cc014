/** Selecting memory regions from parsed map lines, and classifying a remote address by region. */
module VmemParser {

  datatype Desc = HeapDesc | StackDesc | OtherDesc

  /** One line of a process map: its range, whether its path names the process, its bracketed description. */
  datatype MapLine = MapLine(start: nat, end: nat, named: bool, desc: Desc)

  datatype AddrPair = AddrPair(start: nat, end: nat)

  const NOWHERE := AddrPair(0, 0)

  datatype MemRgn = MemRgn(heap: AddrPair, stack: AddrPair, remaining: seq<AddrPair>)

  // ---------------------------------------------------------------- selection

  function Range(l: MapLine): AddrPair {
    AddrPair(l.start, l.end)
  }

  /** `p_end` after these lines; NULL at first. */
  function PreviousEnd(lines: seq<MapLine>): nat {
    if lines == [] then 0 else lines[|lines| - 1].end
  }

  function Remaining(lines: seq<MapLine>, unmarked: bool): seq<AddrPair> {
    if lines == [] then [] else
      var n := |lines| - 1;
      Remaining(lines[..n], unmarked)
      + if PreviousEnd(lines[..n]) != lines[n].start && (unmarked || lines[n].named) then [Range(lines[n])] else []
  }

  /** The last line described as `d`, or nowhere. */
  function Described(lines: seq<MapLine>, d: Desc): AddrPair {
    if lines == [] then NOWHERE else
      var n := |lines| - 1;
      if lines[n].desc == d then Range(lines[n]) else Described(lines[..n], d)
  }

  /** Told without recursion: the last line described as d, whatever the others are; NULL bounds without one. */
  lemma {:induction false} DescribedIs(lines: seq<MapLine>, d: Desc)
    ensures if forall k | 0 <= k < |lines| :: lines[k].desc != d then Described(lines, d) == AddrPair(0, 0)
            else exists k ::
              && 0 <= k < |lines| && lines[k].desc == d
              && Described(lines, d) == AddrPair(lines[k].start, lines[k].end)
              && forall j | k < j < |lines| :: lines[j].desc != d
  {
    if lines != [] {
      var n := |lines| - 1;
      DescribedIs(lines[..n], d);
      if lines[n].desc == d {
        assert Described(lines, d) == AddrPair(lines[n].start, lines[n].end);
      } else if !(forall k | 0 <= k < |lines| :: lines[k].desc != d) {
        var k :| 0 <= k < n && lines[..n][k].desc == d
                 && Described(lines[..n], d) == AddrPair(lines[..n][k].start, lines[..n][k].end)
                 && forall j | k < j < n :: lines[..n][j].desc != d;
        assert lines[k].desc == d && forall j | k < j < |lines| :: lines[j].desc != d;
      }
    }
  }

  /** Line k, with range p, is wanted and does not start where the line before ends, or at NULL for the first. */
  ghost predicate RecordedAt(lines: seq<MapLine>, unmarked: bool, p: AddrPair, k: int) {
    && 0 <= k < |lines| && p == AddrPair(lines[k].start, lines[k].end) && (unmarked || lines[k].named)
    && lines[k].start != if k == 0 then 0 else lines[k - 1].end
  }

  lemma {:induction false} RemainingIs(lines: seq<MapLine>, unmarked: bool)
    ensures forall p :: p in Remaining(lines, unmarked) <==> exists k :: RecordedAt(lines, unmarked, p, k)
  {
    if lines != [] {
      var n := |lines| - 1;
      RemainingIs(lines[..n], unmarked);
      forall p, k | k != n ensures RecordedAt(lines, unmarked, p, k) <==> RecordedAt(lines[..n], unmarked, p, k) {
      }
      forall p ensures p in Remaining(lines, unmarked) <==> exists k :: RecordedAt(lines, unmarked, p, k) {
        assert RecordedAt(lines, unmarked, p, n)
               <==> p == Range(lines[n]) && PreviousEnd(lines[..n]) != lines[n].start && (unmarked || lines[n].named);
      }
    }
  }

  /** One more line. */
  lemma SelectNext(lines: seq<MapLine>, unmarked: bool, i: nat)
    requires i < |lines|
    ensures Remaining(lines[..i + 1], unmarked)
            == Remaining(lines[..i], unmarked)
               + if PreviousEnd(lines[..i]) != lines[i].start && (unmarked || lines[i].named)
                 then [Range(lines[i])] else []
    ensures Described(lines[..i + 1], HeapDesc)
            == if lines[i].desc == HeapDesc then Range(lines[i]) else Described(lines[..i], HeapDesc)
    ensures Described(lines[..i + 1], StackDesc)
            == if lines[i].desc == StackDesc then Range(lines[i]) else Described(lines[..i], StackDesc)
    ensures PreviousEnd(lines[..i + 1]) == lines[i].end
  {
    assert lines[..i + 1][..i] == lines[..i];
  }

  lemma SelectNothing(lines: seq<MapLine>, unmarked: bool)
    requires lines == []
    ensures Remaining(lines, unmarked) == [] && PreviousEnd(lines) == 0
    ensures forall d :: Described(lines, d) == NOWHERE
  {
  }

  /** The line loop of `get_vmem_locations`, over an array regrown by one entry at a time. */
  method GetVmemLocations(lines: seq<MapLine>, unmarked: bool) returns (vmem: MemRgn)
    ensures vmem == MemRgn(Described(lines, HeapDesc), Described(lines, StackDesc), Remaining(lines, unmarked))
    ensures if forall k | 0 <= k < |lines| :: lines[k].desc != HeapDesc then vmem.heap == AddrPair(0, 0)
            else exists k ::
              && 0 <= k < |lines| && lines[k].desc == HeapDesc
              && vmem.heap == AddrPair(lines[k].start, lines[k].end)
              && forall j | k < j < |lines| :: lines[j].desc != HeapDesc
    ensures if forall k | 0 <= k < |lines| :: lines[k].desc != StackDesc then vmem.stack == AddrPair(0, 0)
            else exists k ::
              && 0 <= k < |lines| && lines[k].desc == StackDesc
              && vmem.stack == AddrPair(lines[k].start, lines[k].end)
              && forall j | k < j < |lines| :: lines[j].desc != StackDesc
    ensures forall p :: p in vmem.remaining <==> exists k :: RecordedAt(lines, unmarked, p, k)
  {
    hide Described, Remaining, PreviousEnd;
    SelectNothing(lines[..0], unmarked);
    var heap, stack := NOWHERE, NOWHERE;
    var nRemaining, remAllocSz, pEnd := 0, 0, 0;
    var remainingAddr := new AddrPair[0];
    for i := 0 to |lines|
      invariant fresh(remainingAddr) && nRemaining == remAllocSz == remainingAddr.Length
      invariant remainingAddr[..] == Remaining(lines[..i], unmarked)
      invariant pEnd == PreviousEnd(lines[..i])
      invariant heap == Described(lines[..i], HeapDesc) && stack == Described(lines[..i], StackDesc)
    {
      SelectNext(lines, unmarked, i);
      var l := lines[i];
      if pEnd != l.start && (unmarked || l.named) {
        if nRemaining == remAllocSz {
          remAllocSz := remAllocSz + 1;
          var tmp := new AddrPair[remAllocSz](_ => NOWHERE);
          forall k | 0 <= k < nRemaining {
            tmp[k] := remainingAddr[k];
          }
          assert tmp[..nRemaining] == remainingAddr[..];
          remainingAddr := tmp;
        }
        remainingAddr[nRemaining] := Range(l);
        nRemaining := nRemaining + 1;
      }
      if l.desc == HeapDesc {
        heap := Range(l);
      }
      if l.desc == StackDesc {
        stack := Range(l);
      }
      pEnd := l.end;
    }
    assert lines[..|lines|] == lines;
    DescribedIs(lines, HeapDesc);
    DescribedIs(lines, StackDesc);
    RemainingIs(lines, unmarked);
    vmem := MemRgn(heap, stack, remainingAddr[..]);
  }

  /** The usual order of a map: a heap line, then a stack line; both are selected. */
  lemma HeapAndStackSelected()
    ensures var lines := [MapLine(4096, 8192, true, HeapDesc), MapLine(20480, 24576, true, StackDesc)];
            && Described(lines, HeapDesc) == AddrPair(4096, 8192)
            && Described(lines, StackDesc) == AddrPair(20480, 24576)
            && Remaining(lines, false) == [AddrPair(4096, 8192), AddrPair(20480, 24576)]
  {
    var lines := [MapLine(4096, 8192, true, HeapDesc), MapLine(20480, 24576, true, StackDesc)];
    assert lines[..1][..0] == [];
    assert lines[..1] == [MapLine(4096, 8192, true, HeapDesc)];
  }

  // ---------------------------------------------------------------- what selection guarantees

  /** Map lines are non-empty, sorted and do not overlap; they may touch. */
  ghost predicate Sorted(lines: seq<MapLine>) {
    && (forall i | 0 <= i < |lines| :: lines[i].start < lines[i].end)
    && forall i, j | 0 <= i < j < |lines| :: lines[i].end <= lines[j].start
  }

  /** Non-empty ranges up to `bound`, increasing, a real gap between any two. */
  ghost predicate Gapped(r: seq<AddrPair>, bound: nat) {
    && (forall i | 0 <= i < |r| :: r[i].start < r[i].end <= bound)
    && forall i, j | 0 <= i < j < |r| :: r[i].end < r[j].start
  }

  lemma GappedNext(r: seq<AddrPair>, bound: nat, p: AddrPair)
    requires Gapped(r, bound) && bound < p.start < p.end
    ensures Gapped(r + [p], p.end)
  {
  }

  /** Recorded regions never touch, so an inclusive end is unambiguous among them. */
  lemma {:induction false} RemainingSeparated(lines: seq<MapLine>, unmarked: bool)
    requires Sorted(lines)
    ensures Gapped(Remaining(lines, unmarked), PreviousEnd(lines))
  {
    if lines != [] {
      var n := |lines| - 1;
      RemainingSeparated(lines[..n], unmarked);
      assert PreviousEnd(lines[..n]) <= lines[n].start < lines[n].end by {
        if n > 0 {
          assert lines[..n][n - 1] == lines[n - 1];
        }
      }
      if PreviousEnd(lines[..n]) != lines[n].start {
        GappedNext(Remaining(lines[..n], unmarked), PreviousEnd(lines[..n]), Range(lines[n]));
      }
    }
  }

  /** Whether line k opens a run: nothing ends where it starts, and it does not start at NULL. */
  ghost predicate OpensRun(lines: seq<MapLine>, k: nat)
    requires k < |lines|
  {
    lines[k].start != 0 && forall j | 0 <= j < |lines| :: lines[j].end != lines[k].start
  }

  lemma OpensRunLast(lines: seq<MapLine>)
    requires Sorted(lines) && lines != []
    ensures OpensRun(lines, |lines| - 1) <==> PreviousEnd(lines[..|lines| - 1]) != lines[|lines| - 1].start
  {
    var n := |lines| - 1;
    if n > 0 {
      assert lines[n - 1].end <= lines[n].start;
      if PreviousEnd(lines[..n]) != lines[n].start {
        forall j | 0 <= j < |lines| ensures lines[j].end != lines[n].start {
          if j < n - 1 {
            assert lines[j].end <= lines[n - 1].start;
          }
        }
      }
    }
  }

  lemma OpensRunInit(lines: seq<MapLine>, k: nat)
    requires Sorted(lines) && k < |lines| - 1
    ensures OpensRun(lines, k) <==> OpensRun(lines[..|lines| - 1], k)
  {
    var n := |lines| - 1;
    assert lines[k].start < lines[k].end <= lines[n].start < lines[n].end;
  }

  ghost predicate RecordsLine(lines: seq<MapLine>, unmarked: bool, p: AddrPair, k: nat) {
    k < |lines| && Range(lines[k]) == p && OpensRun(lines, k) && (unmarked || lines[k].named)
  }

  lemma RecordsLineInit(lines: seq<MapLine>, unmarked: bool, p: AddrPair, k: nat)
    requires Sorted(lines) && k < |lines| - 1
    ensures RecordsLine(lines, unmarked, p, k) <==> RecordsLine(lines[..|lines| - 1], unmarked, p, k)
  {
    OpensRunInit(lines, k);
  }

  /** Recorded are exactly the lines that open a run of touching lines and are marked, or all such with `unmarked`. */
  lemma {:induction false} RemainingIsRunOpeners(lines: seq<MapLine>, unmarked: bool, p: AddrPair)
    requires Sorted(lines)
    ensures p in Remaining(lines, unmarked) <==> exists k: nat :: RecordsLine(lines, unmarked, p, k)
  {
    if lines != [] {
      var n := |lines| - 1;
      RemainingIsRunOpeners(lines[..n], unmarked, p);
      OpensRunLast(lines);
      if p in Remaining(lines[..n], unmarked) {
        var k: nat :| RecordsLine(lines[..n], unmarked, p, k);
        RecordsLineInit(lines, unmarked, p, k);
      }
      if k: nat :| RecordsLine(lines, unmarked, p, k) {
        if k < n {
          RecordsLineInit(lines, unmarked, p, k);
        }
      }
      if p in Remaining(lines, unmarked) && p !in Remaining(lines[..n], unmarked) {
        assert RecordsLine(lines, unmarked, p, n);
      }
    }
  }

  /** Equal, or without a common interior point. */
  predicate EqualOrApart(a: AddrPair, b: AddrPair) {
    a == b || a.end <= b.start || b.end <= a.start
  }

  predicate IsLine(lines: seq<MapLine>, a: AddrPair) {
    a == NOWHERE || exists k :: 0 <= k < |lines| && Range(lines[k]) == a
  }

  lemma LinesEqualOrApart(lines: seq<MapLine>, a: AddrPair, b: AddrPair)
    requires Sorted(lines) && IsLine(lines, a) && IsLine(lines, b)
    ensures EqualOrApart(a, b)
  {
    if a != NOWHERE && b != NOWHERE {
      var i :| 0 <= i < |lines| && Range(lines[i]) == a;
      var j :| 0 <= j < |lines| && Range(lines[j]) == b;
      assert i < j ==> lines[i].end <= lines[j].start;
      assert j < i ==> lines[j].end <= lines[i].start;
    }
  }

  lemma {:induction false} DescribedIsLine(lines: seq<MapLine>, d: Desc)
    ensures IsLine(lines, Described(lines, d))
  {
    if lines != [] {
      var n := |lines| - 1;
      DescribedIsLine(lines[..n], d);
      if lines[n].desc == d {
        assert Range(lines[n]) == Described(lines, d);
      } else if Described(lines, d) != NOWHERE {
        var k :| 0 <= k < n && Range(lines[..n][k]) == Described(lines, d);
        assert Range(lines[k]) == Described(lines, d);
      }
    }
  }

  /** All recorded regions, in the order classification tries them. */
  function Regions(rgn: MemRgn): seq<AddrPair> {
    [rgn.stack, rgn.heap] + rgn.remaining
  }

  ghost predicate Separated(rgn: MemRgn) {
    forall i, j | 0 <= i < |Regions(rgn)| && 0 <= j < |Regions(rgn)| :: EqualOrApart(Regions(rgn)[i], Regions(rgn)[j])
  }

  /** Whatever was selected, two regions are the same range or share no interior point. */
  lemma SelectionSeparated(lines: seq<MapLine>, unmarked: bool)
    requires Sorted(lines)
    ensures Separated(MemRgn(Described(lines, HeapDesc), Described(lines, StackDesc), Remaining(lines, unmarked)))
  {
    var rgn := MemRgn(Described(lines, HeapDesc), Described(lines, StackDesc), Remaining(lines, unmarked));
    var rs := Regions(rgn);
    forall i | 0 <= i < |rs| ensures IsLine(lines, rs[i]) {
      if i == 0 {
        DescribedIsLine(lines, StackDesc);
      } else if i == 1 {
        DescribedIsLine(lines, HeapDesc);
      } else {
        RemainingIsRunOpeners(lines, unmarked, rs[i]);
        assert rs[i] == rgn.remaining[i - 2];
        var k: nat :| RecordsLine(lines, unmarked, rs[i], k);
      }
    }
    forall i, j | 0 <= i < |rs| && 0 <= j < |rs| ensures EqualOrApart(rs[i], rs[j]) {
      LinesEqualOrApart(lines, rs[i], rs[j]);
    }
  }

  // ---------------------------------------------------------------- classification

  const NONE := 0
  const STACK := 1
  const HEAP := 2
  const OTHER := 4

  /** Region code of the i-th entry of `Regions`. */
  function Code(i: nat): nat {
    if i == 0 then STACK else if i == 1 then HEAP else OTHER + (i - 2)
  }

  /** Conversion to a 32-bit signed int. */
  function ToInt32(x: int): (r: int)
    ensures -0x8000_0000 <= r < 0x8000_0000 && (r - x) % 0x1_0000_0000 == 0
    ensures -0x8000_0000 <= x < 0x8000_0000 ==> r == x
  {
    var low := x % 0x1_0000_0000;
    if low < 0x8000_0000 then low else low - 0x1_0000_0000
  }

  /** Both ends count as inside. */
  predicate Covers(a: AddrPair, addr: nat) {
    a.start <= addr <= a.end
  }

  /** Index of the first region covering the address, or the number of regions. */
  function FirstCovering(rs: seq<AddrPair>, addr: nat): (i: nat)
    ensures i <= |rs| && (i < |rs| ==> Covers(rs[i], addr))
    ensures forall k | 0 <= k < i :: !Covers(rs[k], addr)
  {
    if rs == [] then 0
    else if Covers(rs[0], addr) then 0
    else
      var i := FirstCovering(rs[1..], addr);
      assert forall k | 1 <= k < i + 1 :: rs[k] == rs[1..][k - 1];
      i + 1
  }

  /** Which region comes first, spelled out. */
  lemma CoveredFirst(rgn: MemRgn, addr: nat)
    ensures var i := FirstCovering(Regions(rgn), addr);
            if rgn.stack.start <= addr <= rgn.stack.end then i == 0
            else if rgn.heap.start <= addr <= rgn.heap.end then i == 1
            else if forall k | 0 <= k < |rgn.remaining| ::
                      addr < rgn.remaining[k].start || addr > rgn.remaining[k].end then i == |Regions(rgn)|
            else
              && 2 <= i < |Regions(rgn)|
              && rgn.remaining[i - 2].start <= addr <= rgn.remaining[i - 2].end
              && forall k | 0 <= k < i - 2 :: addr < rgn.remaining[k].start || addr > rgn.remaining[k].end
  {
    var rs := Regions(rgn);
    var i := FirstCovering(rs, addr);
    assert rs[0] == rgn.stack && rs[1] == rgn.heap;
    forall k | 0 <= k < |rgn.remaining| ensures rs[k + 2] == rgn.remaining[k] {
    }
    assert i > 0 ==> !Covers(rs[0], addr);
    assert i > 1 ==> !Covers(rs[1], addr);
    forall k | 0 <= k < i - 2 ensures addr < rgn.remaining[k].start || addr > rgn.remaining[k].end {
      assert !Covers(rs[k + 2], addr);
    }
  }

  /** `which_rgn`: offset (an int) and region code. */
  method WhichRgn(rgn: MemRgn, addr: nat) returns (offset: int, res: nat)
    ensures var i := FirstCovering(Regions(rgn), addr);
            if i < |Regions(rgn)| then res == Code(i) && offset == ToInt32(addr - Regions(rgn)[i].start)
            else res == NONE && offset == -1
    ensures -0x8000_0000 <= offset < 0x8000_0000
    ensures if rgn.stack.start <= addr <= rgn.stack.end then
              res == 1 && (offset - (addr - rgn.stack.start)) % 0x1_0000_0000 == 0
            else if rgn.heap.start <= addr <= rgn.heap.end then
              res == 2 && (offset - (addr - rgn.heap.start)) % 0x1_0000_0000 == 0
            else if forall k | 0 <= k < |rgn.remaining| ::
                      addr < rgn.remaining[k].start || addr > rgn.remaining[k].end then
              res == 0 && offset == -1
            else
              && res >= 4 && res - 4 < |rgn.remaining|
              && rgn.remaining[res - 4].start <= addr <= rgn.remaining[res - 4].end
              && (forall k | 0 <= k < res - 4 :: addr < rgn.remaining[k].start || addr > rgn.remaining[k].end)
              && (offset - (addr - rgn.remaining[res - 4].start)) % 0x1_0000_0000 == 0
  {
    hide FirstCovering, ToInt32;
    CoveredFirst(rgn, addr);
    ghost var rs := Regions(rgn);
    ghost var first := FirstCovering(rs, addr);
    assert rs[0] == rgn.stack && rs[1] == rgn.heap;
    if addr >= rgn.stack.start && addr <= rgn.stack.end {
      assert Covers(rs[0], addr);
      return ToInt32(addr - rgn.stack.start), STACK;
    }
    if addr >= rgn.heap.start && addr <= rgn.heap.end {
      assert Covers(rs[1], addr) && !Covers(rs[0], addr);
      return ToInt32(addr - rgn.heap.start), HEAP;
    }
    for i := 0 to |rgn.remaining|
      invariant forall k | 0 <= k < i + 2 :: !Covers(rs[k], addr)
    {
      assert rs[i + 2] == rgn.remaining[i];
      if addr >= rgn.remaining[i].start && addr <= rgn.remaining[i].end {
        assert Covers(rs[i + 2], addr);
        return ToInt32(addr - rgn.remaining[i].start), OTHER + i;
      }
    }
    return -1, NONE;
  }

  /** Separated regions: the region an interior address is classified into is the one it lies in, or its equal. */
  lemma InteriorClassified(rgn: MemRgn, k: nat, addr: nat)
    requires Separated(rgn) && k < |Regions(rgn)| && Regions(rgn)[k].start < addr < Regions(rgn)[k].end
    ensures var i := FirstCovering(Regions(rgn), addr);
            i <= k && Regions(rgn)[i] == Regions(rgn)[k]
  {
    var i := FirstCovering(Regions(rgn), addr);
    assert Covers(Regions(rgn)[k], addr);
    assert EqualOrApart(Regions(rgn)[i], Regions(rgn)[k]);
  }
}
