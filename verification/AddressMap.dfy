/** Addresses of the local copies, of the target process, and as (region, offset) records. */
module AddressMap {
  import opened VmemParser
  import opened FrameSpec

  /** Local buffers, 0 (NULL) for a region that is not selected. */
  datatype MemMap = MemMap(stack: nat, heap: nat, other: seq<nat>, rgn: MemRgn)

  const WORD := 0x1_0000_0000_0000_0000
  const LIMIT := 0x8000_0000_0000_0000

  /** `rgn_len`. */
  function Len(a: AddrPair): nat
    requires a.start <= a.end
  {
    a.end - a.start
  }

  /** Local buffers in the order of `Regions`. */
  function Bases(m: MemMap): seq<nat> {
    [m.stack, m.heap] + m.other
  }

  /** Every region has a buffer entry and does not end before it starts. */
  ghost predicate Shaped(m: MemMap) {
    && |m.other| == |m.rgn.remaining|
    && forall i | 0 <= i < |Regions(m.rgn)| :: Regions(m.rgn)[i].start <= Regions(m.rgn)[i].end
  }

  /** Strictly behind the first byte of the buffer and before its end. */
  predicate Interior(base: nat, a: AddrPair, addr: nat)
    requires a.start <= a.end
  {
    base < addr < base + Len(a)
  }

  /** Strictly inside the k-th buffer. */
  ghost predicate InteriorOf(m: MemMap, k: nat, addr: nat)
    requires Shaped(m)
  {
    k < |Bases(m)| && Bases(m)[k] > 0 && Interior(Bases(m)[k], Regions(m.rgn)[k], addr)
  }

  /** The remote address `get_remote_addr` computes from a region and its buffer. */
  function Shifted(base: nat, a: AddrPair, addr: nat): nat
    requires a.start <= a.end && Interior(base, a, addr)
  {
    a.end - (base + Len(a) - addr)
  }

  /** Among the first n other regions, the last one with the address in its buffer. */
  function OtherRemote(m: MemMap, addr: nat, n: nat): nat
    requires Shaped(m) && n <= |m.other|
  {
    if n == 0 then 0
    else
      assert Regions(m.rgn)[n + 1] == m.rgn.remaining[n - 1];
      if Interior(m.other[n - 1], m.rgn.remaining[n - 1], addr)
      then Shifted(m.other[n - 1], m.rgn.remaining[n - 1], addr)
      else OtherRemote(m, addr, n - 1)
  }

  /** The remote address of a local one, 0 when no buffer has it inside. */
  function Remote(m: MemMap, addr: nat): nat
    requires Shaped(m)
  {
    assert Regions(m.rgn)[0] == m.rgn.stack && Regions(m.rgn)[1] == m.rgn.heap;
    if Interior(m.stack, m.rgn.stack, addr) then Shifted(m.stack, m.rgn.stack, addr)
    else if Interior(m.heap, m.rgn.heap, addr) then Shifted(m.heap, m.rgn.heap, addr)
    else OtherRemote(m, addr, |m.other|)
  }

  /** The last of the first n other buffers that has the address strictly inside, or -1. */
  lemma {:induction false} OtherRemoteSpelled(m: MemMap, addr: nat, n: nat) returns (k: int)
    requires Shaped(m) && n <= |m.other|
    ensures -1 <= k < n
    ensures k == -1 ==> OtherRemote(m, addr, n) == 0
    ensures k >= 0 ==>
              && m.other[k] < addr < m.other[k] + (m.rgn.remaining[k].end - m.rgn.remaining[k].start)
              && OtherRemote(m, addr, n) == m.rgn.remaining[k].start + (addr - m.other[k])
    ensures forall j | k < j < n ::
              addr <= m.other[j] || addr >= m.other[j] + (m.rgn.remaining[j].end - m.rgn.remaining[j].start)
  {
    k := -1;
    if n > 0 {
      k := n - 1;
      OtherRemoteNext(m, addr, n);
      if addr <= m.other[k] || addr >= m.other[k] + (m.rgn.remaining[k].end - m.rgn.remaining[k].start) {
        k := OtherRemoteSpelled(m, addr, n - 1);
      }
    }
  }

  lemma OtherRemoteNext(m: MemMap, addr: nat, n: nat)
    requires Shaped(m) && 0 < n <= |m.other|
    ensures var base, a := m.other[n - 1], m.rgn.remaining[n - 1];
            OtherRemote(m, addr, n) == if base < addr < base + (a.end - a.start) then a.start + (addr - base)
                                       else OtherRemote(m, addr, n - 1)
  {
    assert Regions(m.rgn)[n + 1] == m.rgn.remaining[n - 1];
  }

  /** `get_remote_addr`: stack, then heap, then every other region, the last match winning. */
  method GetRemoteAddr(m: MemMap, addr: nat) returns (remote: nat)
    requires Shaped(m)
    ensures remote == Remote(m, addr)
    ensures if m.stack < addr < m.stack + (m.rgn.stack.end - m.rgn.stack.start) then
              remote == m.rgn.stack.start + (addr - m.stack)
            else if m.heap < addr < m.heap + (m.rgn.heap.end - m.rgn.heap.start) then
              remote == m.rgn.heap.start + (addr - m.heap)
            else if forall k | 0 <= k < |m.other| ::
                      addr <= m.other[k] || addr >= m.other[k] + (m.rgn.remaining[k].end - m.rgn.remaining[k].start)
            then remote == 0
            else exists k ::
              && 0 <= k < |m.other| && remote == m.rgn.remaining[k].start + (addr - m.other[k])
              && m.other[k] < addr < m.other[k] + (m.rgn.remaining[k].end - m.rgn.remaining[k].start)
              && forall j | k < j < |m.other| ::
                   addr <= m.other[j] || addr >= m.other[j] + (m.rgn.remaining[j].end - m.rgn.remaining[j].start)
  {
    ghost var k := OtherRemoteSpelled(m, addr, |m.other|);
    assert Regions(m.rgn)[0] == m.rgn.stack && Regions(m.rgn)[1] == m.rgn.heap;
    var localRgnEnd, remoteRgn := 0, NOWHERE;
    if addr > m.stack && addr < m.stack + Len(m.rgn.stack) {
      remoteRgn := m.rgn.stack;
      localRgnEnd := m.stack + Len(m.rgn.stack);
    } else if addr > m.heap && addr < m.heap + Len(m.rgn.heap) {
      remoteRgn := m.rgn.heap;
      localRgnEnd := m.heap + Len(m.rgn.heap);
    } else {
      for i := 0 to |m.other|
        invariant localRgnEnd == 0 ==> OtherRemote(m, addr, i) == 0
        invariant localRgnEnd != 0 ==> addr < localRgnEnd && localRgnEnd - addr <= remoteRgn.end
        invariant localRgnEnd != 0 ==> OtherRemote(m, addr, i) == remoteRgn.end - (localRgnEnd - addr)
      {
        assert Regions(m.rgn)[i + 2] == m.rgn.remaining[i];
        if addr > m.other[i] && addr < m.other[i] + Len(m.rgn.remaining[i]) {
          remoteRgn := m.rgn.remaining[i];
          localRgnEnd := m.other[i] + Len(m.rgn.remaining[i]);
        }
      }
    }
    if localRgnEnd == 0 {
      return 0;
    }
    return remoteRgn.end - (localRgnEnd - addr);
  }

  /** The first byte of a buffer has no remote address, though a scan can report it. */
  lemma FirstByteUntranslated()
    ensures var m := MemMap(100, 0, [], MemRgn(NOWHERE, AddrPair(5000, 5016), []));
            Shaped(m) && Remote(m, 100) == 0 && Remote(m, 101) == 5001
  {
  }

  // ---------------------------------------------------------------- records

  /** A variable as dumped: region code, offset as an unsigned 64-bit word, size. */
  datatype VarDump = VarDump(region: nat, addressOffset: nat, valsz: nat)

  /** `get_local_address`; 0 without a buffer. */
  function LocalAddress(m: MemMap, region: nat, offset: nat): nat
    requires region >= OTHER ==> region - OTHER < |m.other|
  {
    var base := if region == STACK then m.stack
                else if region == HEAP then m.heap
                else if region >= OTHER then m.other[region - OTHER] else 0;
    if base == 0 then 0 else (base + offset) % WORD
  }

  /** The int offset stored into an unsigned 64-bit field. */
  function ToWord(offset: int): nat {
    offset % WORD
  }

  /** What dumping records of a variable. */
  function DumpVar(m: MemMap, v: Var): VarDump
    requires Shaped(m)
  {
    var remote := Remote(m, v.address);
    var rs := Regions(m.rgn);
    var i := FirstCovering(rs, remote);
    if i < |rs| then VarDump(Code(i), ToWord(ToInt32(remote - rs[i].start)), v.len)
    else VarDump(NONE, ToWord(-1), v.len)
  }

  /** Region codes a map can resolve. */
  predicate Resolvable(m: MemMap, d: VarDump) {
    d.region >= OTHER ==> d.region - OTHER < |m.other|
  }

  function RestoreVar(m: MemMap, d: VarDump): Var
    requires Resolvable(m, d)
  {
    Var(LocalAddress(m, d.region, d.addressOffset), d.valsz)
  }

  lemma DumpResolvable(m: MemMap, v: Var)
    requires Shaped(m)
    ensures Resolvable(m, DumpVar(m, v))
  {
  }

  // ---------------------------------------------------------------- translation there and back

  /** No buffer overlaps another one, or the bytes from NULL on that an unselected region would take. */
  ghost predicate BuffersApart(m: MemMap)
    requires Shaped(m)
  {
    forall i, j | 0 <= i < |Bases(m)| && 0 <= j < |Bases(m)| && i != j && Bases(m)[i] > 0 ::
      Bases(m)[i] + Len(Regions(m.rgn)[i]) <= Bases(m)[j] || Bases(m)[j] + Len(Regions(m.rgn)[j]) <= Bases(m)[i]
  }

  /** Disjoint local buffers below the address limit; remote regions equal or without common interior. */
  ghost predicate WellPlaced(m: MemMap) {
    && Shaped(m)
    && BuffersApart(m)
    && (forall i | 0 <= i < |Bases(m)| :: Bases(m)[i] + Len(Regions(m.rgn)[i]) <= LIMIT)
    && Separated(m.rgn)
  }

  lemma RegionAt(m: MemMap, k: nat)
    requires |m.other| == |m.rgn.remaining| && k < |Bases(m)|
    ensures k == 0 ==> Bases(m)[k] == m.stack && Regions(m.rgn)[k] == m.rgn.stack
    ensures k == 1 ==> Bases(m)[k] == m.heap && Regions(m.rgn)[k] == m.rgn.heap
    ensures k >= 2 ==> Bases(m)[k] == m.other[k - 2] && Regions(m.rgn)[k] == m.rgn.remaining[k - 2]
  {
  }

  lemma InsideOnlyOne(m: MemMap, k: nat, j: nat, addr: nat)
    requires WellPlaced(m) && InteriorOf(m, k, addr) && j < |Bases(m)| && j != k
    ensures !Interior(Bases(m)[j], Regions(m.rgn)[j], addr)
  {
  }

  lemma {:induction false} OtherRemoteIs(m: MemMap, k: nat, addr: nat, n: nat)
    requires WellPlaced(m) && InteriorOf(m, k, addr) && k >= 2 && k - 2 < n <= |m.other|
    ensures OtherRemote(m, addr, n) == Regions(m.rgn)[k].start + (addr - Bases(m)[k])
    decreases n
  {
    RegionAt(m, k);
    RegionAt(m, n + 1);
    if k != n + 1 {
      InsideOnlyOne(m, k, n + 1, addr);
      OtherRemoteIs(m, k, addr, n - 1);
    }
  }

  /** A strictly interior local address keeps its offset. */
  lemma RemoteIs(m: MemMap, k: nat, addr: nat)
    requires WellPlaced(m) && InteriorOf(m, k, addr)
    ensures Remote(m, addr) == Regions(m.rgn)[k].start + (addr - Bases(m)[k])
  {
    RegionAt(m, k);
    RegionAt(m, 0);
    RegionAt(m, 1);
    if k != 0 {
      InsideOnlyOne(m, k, 0, addr);
    }
    if k != 1 {
      InsideOnlyOne(m, k, 1, addr);
    }
    if k >= 2 {
      OtherRemoteIs(m, k, addr, |m.other|);
    }
  }

  lemma CodeResolves(m: MemMap, i: nat, offset: nat)
    requires WellPlaced(m) && i < |Bases(m)|
    ensures Code(i) >= OTHER ==> Code(i) - OTHER < |m.other|
    ensures LocalAddress(m, Code(i), offset) == if Bases(m)[i] == 0 then 0 else (Bases(m)[i] + offset) % WORD
  {
    RegionAt(m, i);
  }

  /** The offset survives the int exactly when it is below 2^31. */
  lemma OffsetSurvivesIff(base: nat, o: nat)
    requires base + o < LIMIT
    ensures (base + ToWord(ToInt32(o))) % WORD == base + o <==> o < 0x8000_0000
  {
    var t := ToInt32(o);
    if t >= 0 {
      assert ToWord(t) == t;
    } else {
      assert ToWord(t) == t + WORD;
      if base + t >= 0 {
        assert (base + t + WORD) % WORD == base + t;
      }
    }
  }

  /** A strictly interior variable is recorded with the first region equal to its own, and its own offset. */
  lemma RecordedAs(m: MemMap, k: nat, v: Var) returns (i: nat)
    requires WellPlaced(m) && InteriorOf(m, k, v.address)
    ensures i <= k && Regions(m.rgn)[i] == Regions(m.rgn)[k]
    ensures forall j | 0 <= j < i :: Regions(m.rgn)[j] != Regions(m.rgn)[k]
    ensures DumpVar(m, v) == VarDump(Code(i), ToWord(ToInt32(v.address - Bases(m)[k])), v.len)
  {
    RemoteIs(m, k, v.address);
    var remote := Remote(m, v.address);
    i := FirstCovering(Regions(m.rgn), remote);
    InteriorClassified(m.rgn, k, remote);
    assert forall j | 0 <= j < i :: !Covers(Regions(m.rgn)[j], remote);
  }

  /** The fields of a record: code 1 for the stack, 2 for the heap, 4 + n for other region n; then offset and size. */
  lemma RecordSpelled(m: MemMap, k: nat, v: Var) returns (i: nat)
    requires WellPlaced(m) && InteriorOf(m, k, v.address)
    ensures i <= k && Regions(m.rgn)[i] == Regions(m.rgn)[k]
    ensures forall j | 0 <= j < i :: Regions(m.rgn)[j] != Regions(m.rgn)[k]
    ensures DumpVar(m, v).region == (if i == 0 then 1 else if i == 1 then 2 else 4 + (i - 2))
    ensures v.address - Bases(m)[k] < 0x8000_0000 ==> DumpVar(m, v).addressOffset == v.address - Bases(m)[k]
    ensures DumpVar(m, v).valsz == v.len
  {
    i := RecordedAs(m, k, v);
  }

  /** A record of offset o is restored to that offset of its region's buffer iff there is one and o is below 2^31. */
  lemma RestoredIff(m: MemMap, i: nat, o: nat, len: nat)
    requires WellPlaced(m) && i < |Bases(m)| && 0 < o < Len(Regions(m.rgn)[i])
    ensures Resolvable(m, VarDump(Code(i), ToWord(ToInt32(o)), len))
    ensures RestoreVar(m, VarDump(Code(i), ToWord(ToInt32(o)), len)) == Var(Bases(m)[i] + o, len)
            <==> Bases(m)[i] > 0 && o < 0x8000_0000
  {
    CodeResolves(m, i, ToWord(ToInt32(o)));
    OffsetSurvivesIff(Bases(m)[i], o);
  }

  /**
   Dump and restore under one map: the same offset, in the first region equal to the variable's, iff that region has a
   buffer and the offset is below 2^31.
   */
  lemma RecordedAndRestored(m: MemMap, k: nat, v: Var) returns (i: nat)
    requires WellPlaced(m) && InteriorOf(m, k, v.address)
    ensures i <= k && Regions(m.rgn)[i] == Regions(m.rgn)[k]
    ensures forall j | 0 <= j < i :: Regions(m.rgn)[j] != Regions(m.rgn)[k]
    ensures Resolvable(m, DumpVar(m, v))
    ensures RestoreVar(m, DumpVar(m, v)) == Var(Bases(m)[i] + (v.address - Bases(m)[k]), v.len)
            <==> Bases(m)[i] > 0 && v.address - Bases(m)[k] < 0x8000_0000
  {
    i := RecordedAs(m, k, v);
    RestoredIff(m, i, v.address - Bases(m)[k], v.len);
  }

  /**
   The first byte of a buffer, which a scan can report, has no remote address, and is restored to NULL unless an absent
   region, recorded as starting at NULL, has a buffer.
   */
  lemma FirstByteLost(m: MemMap, k: nat, v: Var)
    requires WellPlaced(m) && k < |Bases(m)| && v.address == Bases(m)[k] > 0 && Len(Regions(m.rgn)[k]) > 0
    ensures Remote(m, v.address) == 0
    ensures Resolvable(m, DumpVar(m, v))
    ensures (forall i | 0 <= i < |Bases(m)| :: Regions(m.rgn)[i].start > 0 || Bases(m)[i] == 0) ==>
              RestoreVar(m, DumpVar(m, v)) == Var(0, v.len)
  {
    forall j | 0 <= j < |Bases(m)| ensures !Interior(Bases(m)[j], Regions(m.rgn)[j], v.address) {
    }
    RegionAt(m, 0);
    RegionAt(m, 1);
    OutsideOthers(m, v.address, |m.other|);
    DumpResolvable(m, v);
    var i := FirstCovering(Regions(m.rgn), 0);
    if i < |Bases(m)| {
      CodeResolves(m, i, ToWord(ToInt32(0 - Regions(m.rgn)[i].start)));
    }
  }

  /** An address in a buffer is translated exactly when it is not the buffer's first. */
  lemma TranslatedIff(m: MemMap, k: nat, addr: nat)
    requires WellPlaced(m) && k < |Bases(m)| && 0 < Bases(m)[k] <= addr < Bases(m)[k] + Len(Regions(m.rgn)[k])
    ensures Remote(m, addr) != 0 <==> addr > Bases(m)[k]
    ensures addr > Bases(m)[k] ==> Remote(m, addr) == Regions(m.rgn)[k].start + (addr - Bases(m)[k])
  {
    if addr == Bases(m)[k] {
      FirstByteLost(m, k, Var(addr, 1));
    } else {
      RemoteIs(m, k, addr);
    }
  }

  lemma {:induction false} OutsideOthers(m: MemMap, addr: nat, n: nat)
    requires Shaped(m) && n <= |m.other|
    requires forall j | 0 <= j < |Bases(m)| :: !Interior(Bases(m)[j], Regions(m.rgn)[j], addr)
    ensures OtherRemote(m, addr, n) == 0
  {
    if n > 0 {
      RegionAt(m, n + 1);
      OutsideOthers(m, addr, n - 1);
    }
  }

  /** Two translated addresses have the same remote address iff they have the same offset in equal regions. */
  lemma SameRemoteIff(m: MemMap, k: nat, a: nat, j: nat, b: nat)
    requires WellPlaced(m) && InteriorOf(m, k, a) && InteriorOf(m, j, b)
    ensures Remote(m, a) == Remote(m, b)
            <==> Regions(m.rgn)[k] == Regions(m.rgn)[j] && a - Bases(m)[k] == b - Bases(m)[j]
  {
    hide Remote, BuffersApart;
    RemoteIs(m, k, a);
    RemoteIs(m, j, b);
    assert EqualOrApart(Regions(m.rgn)[k], Regions(m.rgn)[j]);
  }

  /** Among the first n other regions, the index in `Regions` of the last one with the address in its buffer. */
  function OtherHolder(m: MemMap, addr: nat, n: nat): nat
    requires Shaped(m) && n <= |m.other|
  {
    if n == 0 then |Bases(m)|
    else
      assert Regions(m.rgn)[n + 1] == m.rgn.remaining[n - 1];
      if Interior(m.other[n - 1], m.rgn.remaining[n - 1], addr) then n + 1 else OtherHolder(m, addr, n - 1)
  }

  /** The region by which an address is translated, or the number of regions. */
  function Holder(m: MemMap, addr: nat): nat
    requires Shaped(m)
  {
    assert Regions(m.rgn)[0] == m.rgn.stack && Regions(m.rgn)[1] == m.rgn.heap;
    if Interior(m.stack, m.rgn.stack, addr) then 0
    else if Interior(m.heap, m.rgn.heap, addr) then 1
    else OtherHolder(m, addr, |m.other|)
  }

  lemma {:induction false} OtherByHolder(m: MemMap, addr: nat, n: nat)
    requires Shaped(m) && n <= |m.other|
    ensures var h := OtherHolder(m, addr, n);
            if h < |Bases(m)| then
              && Interior(Bases(m)[h], Regions(m.rgn)[h], addr)
              && OtherRemote(m, addr, n) == Regions(m.rgn)[h].start + (addr - Bases(m)[h])
            else OtherRemote(m, addr, n) == 0
  {
    if n > 0 {
      RegionAt(m, n + 1);
      OtherByHolder(m, addr, n - 1);
    }
  }

  /** Every address, in a buffer or not, is translated by its offset in the region that holds it. */
  lemma RemoteByHolder(m: MemMap, addr: nat)
    requires Shaped(m)
    ensures var h := Holder(m, addr);
            if h < |Bases(m)| then
              && Interior(Bases(m)[h], Regions(m.rgn)[h], addr)
              && Remote(m, addr) == Regions(m.rgn)[h].start + (addr - Bases(m)[h])
            else Remote(m, addr) == 0
  {
    RegionAt(m, 0);
    RegionAt(m, 1);
    OtherByHolder(m, addr, |m.other|);
  }

  /** An address is translated like `addr` exactly when a copy of its region holds it, at the same offset. */
  lemma TranslatedAlikeIff(m: MemMap, k: nat, addr: nat, back: nat)
    requires WellPlaced(m) && InteriorOf(m, k, addr)
    ensures var h := Holder(m, back);
            Remote(m, back) == Remote(m, addr)
            <==> h < |Bases(m)| && Regions(m.rgn)[h] == Regions(m.rgn)[k] && back - Bases(m)[h] == addr - Bases(m)[k]
  {
    hide Remote, Holder, BuffersApart;
    RemoteIs(m, k, addr);
    RemoteByHolder(m, back);
    var h := Holder(m, back);
    if h < |Bases(m)| {
      assert EqualOrApart(Regions(m.rgn)[h], Regions(m.rgn)[k]);
    }
  }

  /** Address `a`, possibly below NULL, lies in a copy of region k, by which it is translated, at offset o. */
  predicate HeldAlike(m: MemMap, k: nat, a: int, o: int)
    requires Shaped(m) && k < |Bases(m)|
  {
    a >= 0
    && var h := Holder(m, a);
       h < |Bases(m)| && Regions(m.rgn)[h] == Regions(m.rgn)[k] && a - Bases(m)[h] == o
  }

  /**
   Translating out and back gives the same remote address, even when the variable's region is recorded twice, exactly
   when the copy found first has a buffer and the offset, as an int, leads from there to that offset of some copy.
   Below 2^31 it leads to that copy itself.
   */
  lemma RoundTripKeepsRemoteIff(m: MemMap, k: nat, v: Var) returns (i: nat)
    requires WellPlaced(m) && InteriorOf(m, k, v.address)
    ensures i <= k && Regions(m.rgn)[i] == Regions(m.rgn)[k]
    ensures forall j | 0 <= j < i :: Regions(m.rgn)[j] != Regions(m.rgn)[k]
    ensures Resolvable(m, DumpVar(m, v))
    ensures var o := v.address - Bases(m)[k];
            var same := Remote(m, RestoreVar(m, DumpVar(m, v)).address) == Remote(m, v.address);
            && (same <==> Bases(m)[i] > 0 && HeldAlike(m, k, Bases(m)[i] + ToInt32(o), o))
            && (o < 0x8000_0000 ==> (same <==> Bases(m)[i] > 0))
  {
    hide Remote, DumpVar, Holder, BuffersApart, Separated, ToInt32;
    i := RecordedAs(m, k, v);
    var o := v.address - Bases(m)[k];
    var t := ToInt32(o);
    CodeResolves(m, i, ToWord(t));
    RemoteIs(m, k, v.address);
    if Bases(m)[i] == 0 {
      OutsideAll(m);
    } else {
      var back := (Bases(m)[i] + ToWord(t)) % WORD;
      WordBack(Bases(m)[i], o);
      TranslatedAlikeIff(m, k, v.address, back);
      if Bases(m)[i] + t < 0 {
        OutsideFar(m, back);
      } else if o < 0x8000_0000 {
        assert InteriorOf(m, i, back);
        RemoteIs(m, i, back);
      }
    }
  }

  /** The restored address, as a 64-bit word: wrapped around when the sign takes it below NULL. */
  lemma WordBack(base: nat, o: nat)
    requires 0 < base && base + o < LIMIT
    ensures var back, t := (base + ToWord(ToInt32(o))) % WORD, ToInt32(o);
            && back == (if base + t >= 0 then base + t else base + t + WORD)
            && (base + t < 0 ==> back >= LIMIT)
  {
    var t := ToInt32(o);
    if t >= 0 {
      assert ToWord(t) == t;
    } else {
      assert ToWord(t) == t + WORD;
    }
  }

  lemma OutsideFar(m: MemMap, addr: nat)
    requires WellPlaced(m) && addr >= LIMIT
    ensures Remote(m, addr) == 0
  {
    RegionAt(m, 0);
    RegionAt(m, 1);
    OutsideOthers(m, addr, |m.other|);
  }

  lemma OutsideAll(m: MemMap)
    requires Shaped(m)
    ensures Remote(m, 0) == 0
  {
    OutsideOthers(m, 0, |m.other|);
  }

  const ONE_HEAP_LINE := [MapLine(4096, 8192, false, HeapDesc)]
  const HEAP_RANGE := AddrPair(4096, 8192)

  /** The regions `get_vmem_locations` selects from the lines. */
  ghost predicate SelectedFrom(lines: seq<MapLine>, unmarked: bool, rgn: MemRgn) {
    rgn == MemRgn(Described(lines, HeapDesc), Described(lines, StackDesc), Remaining(lines, unmarked))
  }

  /** With unmarked lines wanted the heap line is selected as the heap and as a remaining region. */
  lemma HeapSelectedTwice()
    ensures Sorted(ONE_HEAP_LINE)
    ensures SelectedFrom(ONE_HEAP_LINE, true, COPIED.rgn)
  {
    assert ONE_HEAP_LINE[..0] == [];
  }

  /** Of the two copies only the remaining region has a buffer. */
  const COPIED := MemMap(0, 0, [100000], MemRgn(HEAP_RANGE, NOWHERE, [HEAP_RANGE]))

  lemma CopiedParts()
    ensures Regions(COPIED.rgn) == [NOWHERE, HEAP_RANGE, HEAP_RANGE] && Bases(COPIED) == [0, 0, 100000]
    ensures |COPIED.other| == |COPIED.rgn.remaining|
  {
  }

  lemma CopiedPlaced()
    ensures Regions(COPIED.rgn)[1] == Regions(COPIED.rgn)[2] == HEAP_RANGE
    ensures WellPlaced(COPIED) && InteriorOf(COPIED, 2, 100016)
  {
    hide Regions, Bases;
    CopiedParts();
    ghost var rs := Regions(COPIED.rgn);
    assert rs[0] == NOWHERE && rs[1] == HEAP_RANGE && rs[2] == HEAP_RANGE;
    assert Shaped(COPIED);
    assert Separated(COPIED.rgn);
    assert BuffersApart(COPIED);
  }

  /** A variable in that buffer is dumped as a heap variable and restored to NULL. */
  lemma UnselectedCopyLosesVariable()
    ensures Sorted(ONE_HEAP_LINE) && SelectedFrom(ONE_HEAP_LINE, true, COPIED.rgn)
    ensures WellPlaced(COPIED) && InteriorOf(COPIED, 2, 100016)
    ensures Remote(COPIED, 100016) == 4112
    ensures DumpVar(COPIED, Var(100016, 4)) == VarDump(HEAP, 16, 4)
    ensures RestoreVar(COPIED, VarDump(HEAP, 16, 4)) == Var(0, 4)
  {
    hide WellPlaced, Remote, DumpVar, InteriorOf, SelectedFrom, Sorted;
    HeapSelectedTwice();
    CopiedPlaced();
    RemoteIs(COPIED, 2, 100016);
    var i := RecordedAs(COPIED, 2, Var(100016, 4));
    assert i == 1;
  }

  const LARGE := MemMap(0, 0x100_0000_0000, [], MemRgn(AddrPair(0x1000, 0x1_0000_1000), NOWHERE, []))

  lemma LargeParts()
    ensures Regions(LARGE.rgn) == [NOWHERE, LARGE.rgn.heap] && Bases(LARGE) == [0, 0x100_0000_0000]
    ensures |LARGE.other| == |LARGE.rgn.remaining|
  {
  }

  lemma LargePlaced()
    ensures Regions(LARGE.rgn)[0] == NOWHERE && Regions(LARGE.rgn)[1] == LARGE.rgn.heap
    ensures WellPlaced(LARGE) && InteriorOf(LARGE, 1, 0x100_8000_0000)
  {
    hide Regions, Bases;
    LargeParts();
    ghost var rs := Regions(LARGE.rgn);
    assert rs[0] == NOWHERE && rs[1] == LARGE.rgn.heap;
    assert Shaped(LARGE);
    assert Separated(LARGE.rgn);
    assert BuffersApart(LARGE);
  }

  /** In a region of 4 GiB an offset of 2^31 is restored 2^31 bytes before the buffer. */
  lemma FarOffsetRestoredBefore()
    ensures WellPlaced(LARGE) && InteriorOf(LARGE, 1, 0x100_8000_0000)
    ensures Resolvable(LARGE, DumpVar(LARGE, Var(0x100_8000_0000, 4)))
    ensures RestoreVar(LARGE, DumpVar(LARGE, Var(0x100_8000_0000, 4))) == Var(0xff_8000_0000, 4)
  {
    hide WellPlaced, DumpVar, InteriorOf;
    LargePlaced();
    var i := RecordedAs(LARGE, 1, Var(0x100_8000_0000, 4));
    assert i == 1 && ToInt32(0x8000_0000) == -0x8000_0000;
    CodeResolves(LARGE, 1, ToWord(-0x8000_0000));
  }

  // ---------------------------------------------------------------- another run of the target process

  /** Two maps with the same regions up to placement. */
  ghost predicate SameShape(m: MemMap, m': MemMap) {
    && Shaped(m) && Shaped(m')
    && |Bases(m)| == |Bases(m')|
    && (forall i | 0 <= i < |Bases(m)| :: Len(Regions(m.rgn)[i]) == Len(Regions(m'.rgn)[i]))
    && forall i, j | 0 <= i < |Bases(m)| && 0 <= j < |Bases(m)| ::
         Regions(m.rgn)[i] == Regions(m.rgn)[j] <==> Regions(m'.rgn)[i] == Regions(m'.rgn)[j]
  }

  /**
   A variable dumped under one map and restored under another of the same shape lies at its offset in the region it was
   recorded with exactly when that region has a buffer there and the offset is below 2^31. It then translates to that
   offset of the other process's region, and is recorded the same when dumped again.
   */
  lemma DumpRestoreElsewhere(m: MemMap, m': MemMap, k: nat, v: Var) returns (i: nat)
    requires WellPlaced(m) && WellPlaced(m') && SameShape(m, m') && InteriorOf(m, k, v.address)
    ensures i <= k && Regions(m.rgn)[i] == Regions(m.rgn)[k]
    ensures forall j | 0 <= j < i :: Regions(m.rgn)[j] != Regions(m.rgn)[k]
    ensures Resolvable(m', DumpVar(m, v))
    ensures var o, v' := v.address - Bases(m)[k], RestoreVar(m', DumpVar(m, v));
            && (v' == Var(Bases(m')[i] + o, v.len) <==> Bases(m')[i] > 0 && o < 0x8000_0000)
            && (v' == Var(Bases(m')[i] + o, v.len) ==>
                  Remote(m', v'.address) == Regions(m'.rgn)[i].start + o && DumpVar(m', v') == DumpVar(m, v))
  {
    hide Remote, DumpVar, RestoreVar, Resolvable, Code, ToWord, ToInt32, Separated, BuffersApart;
    i := RecordedAs(m, k, v);
    var o := v.address - Bases(m)[k];
    RestoredIff(m', i, o, v.len);
    if Bases(m')[i] > 0 && o < 0x8000_0000 {
      var v' := RestoreVar(m', DumpVar(m, v));
      assert InteriorOf(m', i, v'.address);
      RemoteIs(m', i, v'.address);
      var i' := RecordedAs(m', i, v');
      SameFirst(m, m', i, i');
    }
  }

  lemma SameFirst(m: MemMap, m': MemMap, i: nat, i': nat)
    requires SameShape(m, m') && i < |Bases(m)| && i' <= i
    requires forall j | 0 <= j < i :: Regions(m.rgn)[j] != Regions(m.rgn)[i]
    requires Regions(m'.rgn)[i'] == Regions(m'.rgn)[i]
    ensures i' == i
  {
    assert Regions(m.rgn)[i'] == Regions(m.rgn)[i];
  }
}
