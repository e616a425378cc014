/** Dumping a frame to a file and adding a frame from one: filling, writing, loading and rebuilding in a row. */
module DumpCommands {
  import opened Memory
  import opened FrameSpec
  import opened Frames
  import opened AddressMap
  import opened VmemParser
  import opened FrameDump
  import opened FrameFile

  const INT_MAX := 0x7fff_ffff
  const AT_SIGN: Byte := 64

  /** Whether the file can be opened for writing, and how many bytes then fit. */
  datatype Disk = Disk(opens: bool, room: nat)

  /** `Undefined`: a write through a node that was never made, or a region code outside the map. */
  datatype Added = NotLoaded | Undefined | Loaded(frame: NarrowFrame, name: seq<Byte>, typ: nat)

  /** What the fields of the dump structures can hold. */
  ghost predicate Dumpable(m: MemMap, name: seq<Byte>, typ: nat, vars: seq<Var>, pads: seq<seq<Byte>>) {
    && Shaped(m) && |m.other| < 0x8000_0000
    && |name| == 16 && typ < 0x1_0000_0000 && |vars| < 0x8000_0000
    && (forall i | 0 <= i < |vars| :: vars[i].len < 256)
    && Pads(pads, |vars|)
  }

  lemma DumpableStorable(m: MemMap, name: seq<Byte>, typ: nat, vars: seq<Var>, pads: seq<seq<Byte>>)
    requires Dumpable(m, name, typ, vars, pads)
    ensures Shaped(m) && Storable(Filled(m, name, typ, vars)) && Pads(pads, |vars|)
  {
    FilledStorable(m, name, typ, vars);
  }

  /** `write_frame_to_fdump`: the frame's records on disk, or what fitted; no file is made when opening fails. */
  method WriteFrameToFdump(f: NarrowFrame, m: MemMap, name: seq<Byte>, typ: nat, pads: seq<seq<Byte>>, disk: Disk)
    returns (ok: bool, file: Option<seq<Byte>>)
    requires f.Valid() && Dumpable(m, name, typ, f.State().tracked, pads)
    ensures Storable(Filled(m, name, typ, f.State().tracked))
    ensures ok <==> disk.opens && 24 + 24 * |f.State().tracked| <= disk.room
    ensures file == if disk.opens
                    then Some(Truncated(Encode(Filled(m, name, typ, f.State().tracked), pads), disk.room))
                    else None
  {
    hide NarrowFrame.Valid, Dumpable, Storable, Encode, Pads, DumpVars;
    DumpableStorable(m, name, typ, f.State().tracked, pads);
    var vars := FillFramedump(m, f);
    if !disk.opens {
      return false, None;
    }
    var written;
    ok, written := Write(Dump(name, typ, vars.Length, vars[..]), pads, disk.room);
    file := Some(written);
  }

  /** `add_fdump_to_m`: a new frame with the restored variables and the label marked, or nothing. */
  method AddFdumpToM(file: Option<seq<Byte>>, m: MemMap) returns (r: Added)
    ensures match if file.Some? then Decode(file.value) else None
            case None => r == NotLoaded
            case Some(d) =>
              if d.nVars >= 1 && AllResolvable(m, d.vars) then
                && r.Loaded? && r.frame.Valid() && fresh(r.frame) && fresh(r.frame.repr)
                && r.frame.undoDepthLimit == 0x7fff_ffff
                && r.frame.State() == EMPTY.(tracked := RestoreVars(m, d.vars))
                && |r.name| == 16 && r.name[0] == '@' as int && r.name[1..] == d.name[1..] && r.typ == d.typ
              else r == Undefined
  {
    hide NarrowFrame.Valid, NarrowFrame.State, RestoreVars, Resolvable, ReadRecords, CountIn;
    if file.None? {
      return NotLoaded;
    }
    var loaded := Load(file.value);
    if loaded.None? {
      return NotLoaded;
    }
    var d := loaded.value;
    CountedRecords(file.value);
    var f := new NarrowFrame(INT_MAX);
    var vars := new VarDump[|d.vars|](i requires 0 <= i < |d.vars| => d.vars[i]);
    assert vars[..] == d.vars;
    var ok := FdToF(vars, m, f);
    if !ok {
      return Undefined;
    }
    r := Loaded(f, [AT_SIGN] + d.name[1..], d.typ);
  }

  lemma CountedRecords(file: seq<Byte>)
    requires Decode(file).Some?
    ensures var d := Decode(file).value; |d.vars| == Records(d.nVars) && |d.name| == 16
  {
  }

  /**
   The two commands in a row, in two runs of the target process whose maps have the same shape: the second run gets
   every variable, in order and with its size, when the first reported success, the strictly interior ones at their
   offset exactly if their region has a buffer and the offset is below 2^31. The dump of a frame that tracks nothing is
   written, but adding it writes through a node that was never made.
   */
  method CarryOver(f: NarrowFrame, m: MemMap, name: seq<Byte>, typ: nat, pads: seq<seq<Byte>>, disk: Disk, m': MemMap)
    returns (ok: bool, r: Added)
    requires f.Valid() && Dumpable(m, name, typ, f.State().tracked, pads)
    requires WellPlaced(m) && WellPlaced(m') && SameShape(m, m')
    ensures ok <==> disk.opens && 24 + 24 * |f.State().tracked| <= disk.room
    ensures !ok ==> r == NotLoaded
    ensures ok && f.State().tracked == [] ==> r == Undefined
    ensures ok && f.State().tracked != [] ==>
              && r.Loaded? && r.frame.Valid() && fresh(r.frame.repr)
              && |r.name| == 16 && r.name[0] == '@' as int && r.name[1..] == name[1..] && r.typ == typ
              && AllSent(m, f.State().tracked, m', r.frame.State().tracked)
              && r.frame.State() == EMPTY.(tracked := r.frame.State().tracked)
  {
    hide NarrowFrame.Valid, NarrowFrame.State, Dumpable, Storable, Encode, Decode, Truncated, Pads, DumpVars, Sent;
    hide WellPlaced, SameShape, RestoreVars, AllResolvable, AllSent;
    ghost var vars := f.State().tracked;
    DumpableStorable(m, name, typ, vars, pads);
    var file;
    ok, file := WriteFrameToFdump(f, m, name, typ, pads, disk);
    WrittenLoadsIff(Filled(m, name, typ, vars), pads, disk.room);
    if ok {
      SentAcross(m, m', vars);
    }
    r := AddFdumpToM(file, m');
  }

  /** A complete dump always loads, with the one record that adding it needs iff the frame tracked something. */
  lemma DumpHasRecordIff(m: MemMap, name: seq<Byte>, typ: nat, vars: seq<Var>, pads: seq<seq<Byte>>)
    requires Dumpable(m, name, typ, vars, pads)
    ensures Storable(Filled(m, name, typ, vars))
    ensures var file := Encode(Filled(m, name, typ, vars), pads);
            Decode(file).Some? && (Decode(file).value.nVars >= 1 <==> vars != [])
  {
    hide Encode, Decode;
    DumpableStorable(m, name, typ, vars, pads);
    EncodeDecode(Filled(m, name, typ, vars), pads, []);
    assert Encode(Filled(m, name, typ, vars), pads) + [] == Encode(Filled(m, name, typ, vars), pads);
  }

  lemma SentAcross(m: MemMap, m': MemMap, vars: seq<Var>)
    requires WellPlaced(m) && WellPlaced(m') && SameShape(m, m')
    ensures |DumpVars(m, vars)| == |vars| && AllResolvable(m', DumpVars(m, vars))
    ensures AllSent(m, vars, m', RestoreVars(m', DumpVars(m, vars)))
  {
    FrameRestoredElsewhere(m, m', vars);
  }
}
