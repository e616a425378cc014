/** Dumping a frame's variables as (region, offset) records, and building a frame from such records. */
module FrameDump {
  import opened Memory
  import opened FrameSpec
  import opened Frames
  import opened AddressMap
  import opened VmemParser

  function DumpVars(m: MemMap, vars: seq<Var>): (ds: seq<VarDump>)
    requires Shaped(m)
    ensures |ds| == |vars|
  {
    seq(|vars|, i requires 0 <= i < |vars| => DumpVar(m, vars[i]))
  }

  predicate AllResolvable(m: MemMap, ds: seq<VarDump>) {
    forall i | 0 <= i < |ds| :: Resolvable(m, ds[i])
  }

  function RestoreVars(m: MemMap, ds: seq<VarDump>): (vars: seq<Var>)
    requires forall i | 0 <= i < |ds| :: Resolvable(m, ds[i])
    ensures |vars| == |ds|
  {
    seq(|ds|, i requires 0 <= i < |ds| => RestoreVar(m, ds[i]))
  }

  /** `fill_framedump`: one record per tracked variable, in list order. */
  method FillFramedump(m: MemMap, f: NarrowFrame) returns (vars: array<VarDump>)
    requires f.Valid() && Shaped(m)
    ensures fresh(vars) && vars[..] == DumpVars(m, f.State().tracked)
  {
    hide Linked, NarrowHistory.Holds, Distinct, Chained, NarrowFrame.RecordOk, NarrowFrame.EndsOk, NarrowFrame.Owns;
    hide DumpVar, Shaped;
    ListEnds(f, 0);
    vars := new VarDump[f.nTracked];
    var idx := 0;
    var v := f.trackedVars;
    while v != null
      invariant f.Valid() && fresh(vars) && vars.Length == |f.tracked|
      invariant 0 <= idx <= |f.tracked| && v == if idx < |f.tracked| then f.tracked[idx] else null
      invariant forall i | 0 <= i < idx :: vars[i] == DumpVar(m, Value(f.tracked[i]))
      decreases |f.tracked| - idx
    {
      ListEnds(f, idx);
      vars[idx] := RecordOf(m, Value(v));
      v := v.next;
      idx := idx + 1;
    }
  }

  lemma ListEnds(f: NarrowFrame, i: nat)
    requires f.Valid()
    ensures f.nTracked == |f.tracked|
    ensures f.trackedVars == if f.tracked == [] then null else f.tracked[0]
    ensures i < |f.tracked| ==> f.tracked[i].next == if i + 1 < |f.tracked| then f.tracked[i + 1] else null
  {
    assert Linked(f.trackedVars, f.tracked);
  }

  /** The loop body of `fill_framedump`. */
  method RecordOf(m: MemMap, v: Var) returns (d: VarDump)
    requires Shaped(m)
    ensures d == DumpVar(m, v)
  {
    var remote := GetRemoteAddr(m, v.address);
    var offset, region := WhichRgn(m.rgn, remote);
    d := VarDump(region, ToWord(offset), v.len);
  }

  /** `get_local_address`; None when it reads outside the table of other buffers. */
  method GetLocalAddress(d: VarDump, m: MemMap) returns (address: Option<nat>)
    ensures address == if Resolvable(m, d) then Some(LocalAddress(m, d.region, d.addressOffset)) else None
    ensures if d.region == 1 then
              address == Some(if m.stack == 0 then 0 else (m.stack + d.addressOffset) % 0x1_0000_0000_0000_0000)
            else if d.region == 2 then
              address == Some(if m.heap == 0 then 0 else (m.heap + d.addressOffset) % 0x1_0000_0000_0000_0000)
            else if d.region < 4 then address == Some(0)
            else if d.region - 4 < |m.other| then
              var base := m.other[d.region - 4];
              address == Some(if base == 0 then 0 else (base + d.addressOffset) % 0x1_0000_0000_0000_0000)
            else address == None
  {
    var baseAddr := 0;
    if d.region == STACK {
      baseAddr := m.stack;
    } else if d.region == HEAP {
      baseAddr := m.heap;
    } else if d.region >= OTHER {
      if d.region - OTHER >= |m.other| {
        return None;
      }
      baseAddr := m.other[d.region - OTHER];
    }
    if baseAddr == 0 {
      return Some(0);
    }
    return Some((baseAddr + d.addressOffset) % WORD);
  }

  /** The list `fd_to_f` builds; false when an address cannot be read or the node to end the list was never made. */
  method BuildList(vars: array<VarDump>, m: MemMap)
    returns (ok: bool, first: FoundVariable?, ghost nodes: seq<FoundVariable>)
    ensures ok <==> vars.Length >= 1 && AllResolvable(m, vars[..])
    ensures ok ==> Linked(first, nodes) && |nodes| == vars.Length && first != null && forall n | n in nodes :: fresh(n)
    ensures ok ==> Values(nodes) == RestoreVars(m, vars[..])
  {
    hide Linked, Distinct, LocalAddress, Resolvable;
    var prev: FoundVariable?, fv: FoundVariable? := null, null;
    first, nodes := null, [];
    Empty();
    for i := 0 to vars.Length
      invariant |nodes| == i && Linked(first, nodes) && forall n | n in nodes :: fresh(n)
      invariant prev == fv == if i == 0 then null else nodes[i - 1]
      invariant first == null <==> i == 0
      invariant forall k | 0 <= k < i :: Resolvable(m, vars[k]) && Value(nodes[k]) == RestoreVar(m, vars[k])
    {
      var address := GetLocalAddress(vars[i], m);
      if address == None {
        assert !Resolvable(m, vars[..][i]);
        return false, null, [];
      }
      fv := new FoundVariable(address.value, vars[i].valsz);
      Singleton(fv);
      if prev != null {
        assert prev in nodes;
        Join(first, prev, fv, nodes, [fv]);
      } else {
        first := fv;
        assert nodes + [fv] == [fv];
      }
      nodes := nodes + [fv];
      prev := fv;
    }
    if fv == null {
      return false, null, [];
    }
    assert fv in nodes;
    EndList(first, fv, nodes);
    RestoredValues(m, vars[..], nodes);
    ok := true;
  }

  /** Ends a list behind its last node. */
  method EndList(first: FoundVariable?, last: FoundVariable, ghost nodes: seq<FoundVariable>)
    requires Linked(first, nodes) && nodes != [] && last == nodes[|nodes| - 1]
    modifies last`next
    ensures Linked(first, nodes)
  {
    assert Is(last.next, nodes, |nodes|);
    last.next := null;
  }

  lemma Empty()
    ensures Linked(null, [])
  {
  }

  /**
   `fd_to_f`: the restored variables in record order, in an empty frame; false when it writes through a node that was
   never made or reads an address outside the map.
   */
  method FdToF(vars: array<VarDump>, m: MemMap, f: NarrowFrame) returns (ok: bool)
    requires f.Valid() && f.State() == EMPTY
    modifies f
    ensures ok <==> vars.Length >= 1 && AllResolvable(m, vars[..])
    ensures ok ==> f.Valid() && fresh(f.repr - old(f.repr))
    ensures ok ==> f.State() == EMPTY.(tracked := RestoreVars(m, vars[..]))
  {
    hide NarrowFrame.Valid, Linked, RestoreVars, Resolvable;
    var first;
    ghost var nodes;
    ok, first, nodes := BuildList(vars, m);
    if ok {
      f.Adopt(first, vars.Length, nodes);
    }
  }

  lemma RestoredValues(m: MemMap, ds: seq<VarDump>, nodes: seq<FoundVariable>)
    requires |nodes| == |ds| && forall i | 0 <= i < |ds| :: Resolvable(m, ds[i])
    requires forall k | 0 <= k < |ds| :: Value(nodes[k]) == RestoreVar(m, ds[k])
    ensures Values(nodes) == RestoreVars(m, ds)
  {
  }

  lemma Singleton(v: FoundVariable)
    requires v.next == null
    ensures Linked(v, [v])
  {
  }

  // ---------------------------------------------------------------- a whole frame, elsewhere

  /**
   v, strictly inside buffer k of m, became v' under m': at its offset in region i, the first equal to k's, exactly when
   that region has a buffer and the offset is below 2^31; and then v' is recorded as v was.
   */
  ghost predicate SentTo(m: MemMap, v: Var, k: nat, m': MemMap, v': Var, i: nat)
    requires Shaped(m) && Shaped(m') && |Bases(m)| == |Bases(m')|
  {
    && InteriorOf(m, k, v.address) && i <= k && Regions(m.rgn)[i] == Regions(m.rgn)[k]
    && (forall j | 0 <= j < i :: Regions(m.rgn)[j] != Regions(m.rgn)[k])
    && var o := v.address - Bases(m)[k];
       && (v' == Var(Bases(m')[i] + o, v.len) <==> Bases(m')[i] > 0 && o < 0x8000_0000)
       && (v' == Var(Bases(m')[i] + o, v.len) ==> DumpVar(m', v') == DumpVar(m, v))
  }

  ghost predicate InSomeBuffer(m: MemMap, v: Var)
    requires Shaped(m)
  {
    exists k: nat :: InteriorOf(m, k, v.address)
  }

  /** What carrying v over promises: its size always, and its place if it was strictly inside a buffer. */
  ghost predicate Sent(m: MemMap, v: Var, m': MemMap, v': Var)
    requires Shaped(m) && Shaped(m') && |Bases(m)| == |Bases(m')|
  {
    && v'.len == v.len
    && (InSomeBuffer(m, v) ==> exists k: nat, i: nat :: SentTo(m, v, k, m', v', i))
  }

  lemma VariableRestoredElsewhere(m: MemMap, m': MemMap, v: Var)
    requires WellPlaced(m) && WellPlaced(m') && SameShape(m, m')
    ensures Resolvable(m', DumpVar(m, v)) && Sent(m, v, m', RestoreVar(m', DumpVar(m, v)))
  {
    hide Remote, Separated, BuffersApart, FirstCovering;
    DumpResolvable(m, v);
    if k: nat :| InteriorOf(m, k, v.address) {
      var i := DumpRestoreElsewhere(m, m', k, v);
      assert SentTo(m, v, k, m', RestoreVar(m', DumpVar(m, v)), i);
    }
  }

  ghost predicate AllSent(m: MemMap, vars: seq<Var>, m': MemMap, restored: seq<Var>)
    requires Shaped(m) && Shaped(m') && |Bases(m)| == |Bases(m')|
  {
    |restored| == |vars| && forall n | 0 <= n < |vars| :: Sent(m, vars[n], m', restored[n])
  }

  /**
   Dumping any frame and loading it into a map of the same shape keeps order, count and sizes, and sends every strictly
   interior variable to its offset in the region it was recorded with, exactly if that region has a buffer and the
   offset is below 2^31, whatever happens to the other variables.
   */
  lemma FrameRestoredElsewhere(m: MemMap, m': MemMap, vars: seq<Var>)
    requires WellPlaced(m) && WellPlaced(m') && SameShape(m, m')
    ensures AllResolvable(m', DumpVars(m, vars))
    ensures AllSent(m, vars, m', RestoreVars(m', DumpVars(m, vars)))
  {
    hide DumpVar, RestoreVar, Resolvable, WellPlaced, Sent;
    forall n | 0 <= n < |vars|
      ensures Resolvable(m', DumpVars(m, vars)[n])
      ensures Sent(m, vars[n], m', RestoreVar(m', DumpVars(m, vars)[n]))
    {
      VariableRestoredElsewhere(m, m', vars[n]);
    }
  }
}
