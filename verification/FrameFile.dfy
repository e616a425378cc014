/** Frame dumps on disk: a 24-byte header and a 24-byte record per variable, little-endian, padding included. */
module FrameFile {
  import opened Memory
  import opened FrameSpec
  import opened AddressMap
  import opened VmemParser
  import FrameDump

  /** `struct framedump`: label, type of the latest search, the count as stored, the records. */
  datatype Dump = Dump(name: seq<Byte>, typ: nat, nVars: int, vars: seq<VarDump>)

  const HEADER := 24
  const RECORD := 24
  const PADDING := 11

  // ---------------------------------------------------------------- little-endian words

  function Pow256(k: nat): (p: nat)
    ensures p >= 1
  {
    if k == 0 then 1 else 256 * Pow256(k - 1)
  }

  function LE(n: nat, k: nat): (bs: seq<Byte>)
    ensures |bs| == k
  {
    if k == 0 then [] else [n % 256] + LE(n / 256, k - 1)
  }

  function FromLE(bs: seq<Byte>): nat {
    if bs == [] then 0 else bs[0] + 256 * FromLE(bs[1..])
  }

  lemma {:induction false} WordRoundTrip(n: nat, k: nat)
    requires n < Pow256(k)
    ensures FromLE(LE(n, k)) == n
  {
    if k > 0 {
      WordRoundTrip(n / 256, k - 1);
    }
  }

  lemma {:induction false} BytesRoundTrip(bs: seq<Byte>)
    ensures FromLE(bs) < Pow256(|bs|) && LE(FromLE(bs), |bs|) == bs
  {
    if bs != [] {
      BytesRoundTrip(bs[1..]);
      Digits(bs[0], FromLE(bs[1..]), Pow256(|bs| - 1));
      assert bs == [bs[0]] + bs[1..];
    }
  }

  lemma Digits(low: Byte, high: nat, bound: nat)
    requires high < bound
    ensures (low + 256 * high) % 256 == low && (low + 256 * high) / 256 == high && low + 256 * high < 256 * bound
  {
  }

  lemma WordSizes()
    ensures Pow256(4) == 0x1_0000_0000 && Pow256(8) == WORD
  {
    assert Pow256(0) == 1 && Pow256(1) == 256 && Pow256(2) == 0x1_0000;
    assert Pow256(3) == 0x100_0000 && Pow256(5) == 0x100_0000_0000 && Pow256(6) == 0x1_0000_0000_0000;
  }

  /** Four bytes, least significant first. */
  function Word32(b0: int, b1: int, b2: int, b3: int): int {
    b0 + 0x100 * b1 + 0x1_0000 * b2 + 0x100_0000 * b3
  }

  lemma FourBytes(bs: seq<Byte>)
    requires |bs| == 4
    ensures FromLE(bs) == Word32(bs[0], bs[1], bs[2], bs[3])
  {
    var b1, b2, b3 := bs[1..], bs[2..], bs[3..];
    assert b1[1..] == b2 && b2[1..] == b3 && b3[1..] == [];
    assert FromLE(b3) == bs[3] && FromLE(b2) == bs[2] + 0x100 * FromLE(b3);
    assert FromLE(b1) == bs[1] + 0x100 * FromLE(b2);
  }

  /** 258 as it is stored. */
  lemma StoredLowByteFirst()
    ensures LE(258, 4) == [2, 1, 0, 0] && FromLE([2, 1, 0, 0]) == 258
  {
    assert LE(0, 1) == [0] && LE(0, 2) == [0, 0] && LE(1, 3) == [1, 0, 0];
    FourBytes([2, 1, 0, 0]);
  }

  lemma {:induction false} FromLESplit(low: seq<Byte>, high: seq<Byte>)
    ensures FromLE(low + high) == FromLE(low) + Pow256(|low|) * FromLE(high)
  {
    if low == [] {
      assert low + high == high;
    } else {
      FromLESplit(low[1..], high);
      assert (low + high)[1..] == low[1..] + high;
      Shift(FromLE(low[1..]), Pow256(|low| - 1), FromLE(high));
    }
  }

  lemma Shift(low: nat, p: nat, high: nat)
    ensures 256 * (low + p * high) == 256 * low + (256 * p) * high
  {
  }

  lemma EightBytes(bs: seq<Byte>)
    requires |bs| == 8
    ensures FromLE(bs) == Word32(bs[0], bs[1], bs[2], bs[3])
                          + 0x1_0000_0000 * Word32(bs[4], bs[5], bs[6], bs[7])
  {
    hide FromLE, Pow256;
    WordSizes();
    assert bs == bs[..4] + bs[4..];
    FromLESplit(bs[..4], bs[4..]);
    FourBytes(bs[..4]);
    FourBytes(bs[4..]);
  }

  // ---------------------------------------------------------------- records

  predicate StorableRecord(d: VarDump) {
    d.region < 0x1_0000_0000 && d.addressOffset < WORD && d.valsz < 256
  }

  /** The bytes of one record; `pad` is whatever the padding of the struct happens to hold. */
  function RecordBytes(d: VarDump, pad: seq<Byte>): (bs: seq<Byte>)
    requires StorableRecord(d) && |pad| == PADDING
    ensures |bs| == RECORD
  {
    LE(d.region, 4) + pad[..4] + LE(d.addressOffset, 8) + [d.valsz] + pad[4..]
  }

  function ReadRecord(bs: seq<Byte>): (d: VarDump)
    requires |bs| == RECORD
  {
    VarDump(FromLE(bs[..4]), FromLE(bs[8..16]), bs[16])
  }

  function PadOf(bs: seq<Byte>): (pad: seq<Byte>)
    requires |bs| == RECORD
    ensures |pad| == PADDING
  {
    bs[4..8] + bs[17..]
  }

  /** Padding does not matter, and reading inverts writing. */
  lemma RecordRoundTrip(d: VarDump, pad: seq<Byte>)
    requires StorableRecord(d) && |pad| == PADDING
    ensures ReadRecord(RecordBytes(d, pad)) == d
  {
    hide LE, FromLE, Pow256;
    WordSizes();
    WordRoundTrip(d.region, 4);
    WordRoundTrip(d.addressOffset, 8);
    var bs := RecordBytes(d, pad);
    assert bs[..4] == LE(d.region, 4) && bs[8..16] == LE(d.addressOffset, 8);
  }

  /** Writing inverts reading, given the padding that was read over. */
  lemma RecordRewritten(bs: seq<Byte>)
    requires |bs| == RECORD
    ensures StorableRecord(ReadRecord(bs)) && RecordBytes(ReadRecord(bs), PadOf(bs)) == bs
  {
    hide LE, FromLE, Pow256;
    WordSizes();
    BytesRoundTrip(bs[..4]);
    BytesRoundTrip(bs[8..16]);
  }

  predicate AllStorable(vars: seq<VarDump>) {
    forall i | 0 <= i < |vars| :: StorableRecord(vars[i])
  }

  predicate Pads(pads: seq<seq<Byte>>, n: nat) {
    |pads| == n && forall i | 0 <= i < n :: |pads[i]| == PADDING
  }

  function RecordsBytes(vars: seq<VarDump>, pads: seq<seq<Byte>>): (bs: seq<Byte>)
    requires AllStorable(vars) && Pads(pads, |vars|)
    ensures |bs| == RECORD * |vars|
  {
    if vars == [] then [] else
      var n := |vars| - 1;
      RecordsBytes(vars[..n], pads[..n]) + RecordBytes(vars[n], pads[n])
  }

  function ReadRecords(bs: seq<Byte>, n: nat): (vars: seq<VarDump>)
    requires RECORD * n <= |bs|
    ensures |vars| == n
  {
    seq(n, i requires 0 <= i < n => ReadRecord(bs[RECORD * i..RECORD * i + RECORD]))
  }

  function PadsOf(bs: seq<Byte>, n: nat): (pads: seq<seq<Byte>>)
    requires RECORD * n <= |bs|
    ensures Pads(pads, n)
  {
    seq(n, i requires 0 <= i < n => PadOf(bs[RECORD * i..RECORD * i + RECORD]))
  }

  lemma {:induction false} RecordsRoundTrip(vars: seq<VarDump>, pads: seq<seq<Byte>>, extra: seq<Byte>)
    requires AllStorable(vars) && Pads(pads, |vars|)
    ensures ReadRecords(RecordsBytes(vars, pads) + extra, |vars|) == vars
  {
    hide RecordBytes, ReadRecord;
    if vars != [] {
      var n := |vars| - 1;
      var last := RecordBytes(vars[n], pads[n]);
      var before := RecordsBytes(vars[..n], pads[..n]);
      var bs := RecordsBytes(vars, pads) + extra;
      RecordsRoundTrip(vars[..n], pads[..n], last + extra);
      LastRecord(before, last, extra, n);
      RecordRoundTrip(vars[n], pads[n]);
      ReadRecordsSplit(bs, n);
    }
  }

  lemma LastRecord(before: seq<Byte>, last: seq<Byte>, extra: seq<Byte>, n: nat)
    requires |before| == RECORD * n && |last| == RECORD
    ensures before + last + extra == before + (last + extra)
    ensures (before + last + extra)[RECORD * n..RECORD * n + RECORD] == last
  {
  }

  lemma ReadRecordsSplit(bs: seq<Byte>, n: nat)
    requires RECORD * n + RECORD <= |bs|
    ensures ReadRecords(bs, n + 1) == ReadRecords(bs, n) + [ReadRecord(bs[RECORD * n..RECORD * n + RECORD])]
    ensures PadsOf(bs, n + 1) == PadsOf(bs, n) + [PadOf(bs[RECORD * n..RECORD * n + RECORD])]
  {
  }

  lemma {:induction false} RecordsRewritten(bs: seq<Byte>, n: nat)
    requires RECORD * n <= |bs|
    ensures AllStorable(ReadRecords(bs, n))
    ensures RecordsBytes(ReadRecords(bs, n), PadsOf(bs, n)) == bs[..RECORD * n]
  {
    hide RecordBytes, ReadRecord, PadOf, StorableRecord;
    if n > 0 {
      var last := bs[RECORD * (n - 1)..RECORD * (n - 1) + RECORD];
      RecordsRewritten(bs, n - 1);
      RecordRewritten(last);
      ReadRecordsSplit(bs, n - 1);
      assert ReadRecords(bs, n)[..n - 1] == ReadRecords(bs, n - 1) && PadsOf(bs, n)[..n - 1] == PadsOf(bs, n - 1);
      assert bs[..RECORD * (n - 1)] + last == bs[..RECORD * n];
    }
  }

  // ---------------------------------------------------------------- whole files

  predicate Storable(d: Dump) {
    && |d.name| == 16 && d.typ < 0x1_0000_0000
    && d.nVars == |d.vars| < 0x8000_0000
    && AllStorable(d.vars)
  }

  function HeaderBytes(d: Dump): (bs: seq<Byte>)
    requires Storable(d)
    ensures |bs| == HEADER
  {
    d.name + LE(d.typ, 4) + LE(d.nVars, 4)
  }

  function Encode(d: Dump, pads: seq<seq<Byte>>): (bs: seq<Byte>)
    requires Storable(d) && Pads(pads, |d.vars|)
    ensures |bs| == HEADER + RECORD * |d.vars|
  {
    HeaderBytes(d) + RecordsBytes(d.vars, pads)
  }

  /** The count in a header, as the int it is read into, and how many records a loop up to it reads. */
  function CountIn(bs: seq<Byte>): (n: int)
    requires |bs| >= HEADER
  {
    ToInt32(FromLE(bs[20..24]))
  }

  function Records(n: int): nat {
    if n < 0 then 0 else n
  }

  /** What a file holds, or None if it is too short for what its header announces. */
  function Decode(file: seq<Byte>): Option<Dump> {
    if |file| < HEADER then None
    else if |file| < HEADER + RECORD * Records(CountIn(file)) then None
    else Some(Dump(file[..16], FromLE(file[16..20]), CountIn(file),
                   ReadRecords(file[HEADER..], Records(CountIn(file)))))
  }

  /** fwrite onto a disk with `room` bytes: as many as fit. */
  method Fwrite(file: seq<Byte>, bytes: seq<Byte>, room: nat) returns (after: seq<Byte>, written: nat)
    requires |file| <= room
    ensures written <= |bytes| && after == file + bytes[..written]
    ensures written == |bytes| || |after| == room
    ensures |after| <= room
  {
    written := if |file| + |bytes| <= room then |bytes| else room - |file|;
    after := file + bytes[..written];
  }

  function Truncated(bs: seq<Byte>, room: nat): seq<Byte> {
    if |bs| <= room then bs else bs[..room]
  }

  /** A short write of the next piece leaves the file a truncation of the whole. */
  lemma WriteFalters(done: seq<Byte>, piece: seq<Byte>, whole: seq<Byte>, written: nat, room: nat)
    requires written < |piece| && |done| + written == room && done + piece <= whole
    ensures Truncated(whole, room) == done + piece[..written]
  {
    assert whole[..room] == (done + piece)[..room];
  }

  lemma EncodePrefix(d: Dump, pads: seq<seq<Byte>>, i: nat)
    requires Storable(d) && Pads(pads, |d.vars|) && i <= |d.vars|
    ensures HeaderBytes(d) + RecordsBytes(d.vars[..i], pads[..i]) <= Encode(d, pads)
    decreases |d.vars| - i
  {
    hide HeaderBytes, RecordBytes, RecordsBytes;
    if i == |d.vars| {
      assert d.vars[..i] == d.vars && pads[..i] == pads;
    } else {
      EncodePrefix(d, pads, i + 1);
      RecordsNext(d.vars, pads, i);
    }
  }

  lemma RecordsNext(vars: seq<VarDump>, pads: seq<seq<Byte>>, i: nat)
    requires AllStorable(vars) && Pads(pads, |vars|) && i < |vars|
    ensures RecordsBytes(vars[..i + 1], pads[..i + 1])
            == RecordsBytes(vars[..i], pads[..i]) + RecordBytes(vars[i], pads[i])
  {
    assert vars[..i + 1][..i] == vars[..i] && pads[..i + 1][..i] == pads[..i];
  }

  /** `write_framedump_to_disk`: succeeds exactly when everything fits; else the file holds what did. */
  method Write(d: Dump, pads: seq<seq<Byte>>, room: nat) returns (ok: bool, file: seq<Byte>)
    requires Storable(d) && Pads(pads, |d.vars|)
    ensures ok <==> 24 + 24 * |d.vars| <= room
    ensures file == Truncated(Encode(d, pads), room)
  {
    hide HeaderBytes, RecordBytes, RecordsBytes, Encode, StorableRecord;
    var nb;
    file, nb := Fwrite([], HeaderBytes(d), room);
    EncodeStart(d, pads);
    if nb != HEADER {
      WriteFalters([], HeaderBytes(d), Encode(d, pads), nb, room);
      return false, file;
    }
    for i := 0 to d.nVars
      invariant file == HeaderBytes(d) + RecordsBytes(d.vars[..i], pads[..i]) && |file| <= room
    {
      var piece := RecordBytes(d.vars[i], pads[i]);
      ghost var done := file;
      file, nb := Fwrite(file, piece, room);
      RecordsNext(d.vars, pads, i);
      if nb != RECORD {
        EncodePrefix(d, pads, i + 1);
        WriteFalters(done, piece, Encode(d, pads), nb, room);
        return false, file;
      }
    }
    assert d.vars[..d.nVars] == d.vars && pads[..d.nVars] == pads;
    return true, file;
  }

  lemma EncodeStart(d: Dump, pads: seq<seq<Byte>>)
    requires Storable(d) && Pads(pads, |d.vars|)
    ensures Encode(d, pads) == HeaderBytes(d) + RecordsBytes(d.vars, pads)
    ensures [] + HeaderBytes(d) <= Encode(d, pads)
    ensures RecordsBytes(d.vars[..0], pads[..0]) == []
  {
  }

  /** `load_framedump`: reads the header, then as many records as it announces. */
  method Load(file: seq<Byte>) returns (loaded: Option<Dump>)
    ensures loaded == Decode(file)
  {
    hide ReadRecord, FromLE, ToInt32;
    if |file| < HEADER {
      return None;
    }
    var name, typ, nVars := file[..16], FromLE(file[16..20]), CountIn(file);
    var vars: seq<VarDump> := [];
    var pos, i := HEADER, 0;
    while i < nVars
      invariant 0 <= i <= Records(nVars) && pos == HEADER + RECORD * i <= |file|
      invariant vars == ReadRecords(file[HEADER..], i)
    {
      if |file| - pos < RECORD {
        return None;
      }
      assert file[HEADER..][RECORD * i..RECORD * i + RECORD] == file[pos..pos + RECORD];
      ReadRecordsSplit(file[HEADER..], i);
      vars := vars + [ReadRecord(file[pos..pos + RECORD])];
      pos := pos + RECORD;
      i := i + 1;
    }
    return Some(Dump(name, typ, nVars, vars));
  }

  // ---------------------------------------------------------------- round trips

  lemma HeaderRoundTrip(d: Dump, bs: seq<Byte>)
    requires Storable(d) && |bs| >= HEADER && bs[..HEADER] == HeaderBytes(d)
    ensures bs[..16] == d.name && FromLE(bs[16..20]) == d.typ && CountIn(bs) == d.nVars
  {
    hide LE, FromLE, Pow256;
    WordSizes();
    WordRoundTrip(d.typ, 4);
    WordRoundTrip(d.nVars, 4);
    var h := bs[..HEADER];
    assert bs[..16] == h[..16] && bs[16..20] == h[16..20] && bs[20..24] == h[20..24];
    assert h[..16] == d.name && h[16..20] == LE(d.typ, 4) && h[20..24] == LE(d.nVars, 4);
  }

  /** A written dump loads back as it was, whatever its padding held and whatever follows it. */
  lemma EncodeDecode(d: Dump, pads: seq<seq<Byte>>, extra: seq<Byte>)
    requires Storable(d) && Pads(pads, |d.vars|)
    ensures Decode(Encode(d, pads) + extra) == Some(d)
  {
    hide HeaderBytes, RecordsBytes, CountIn, ReadRecords, AllStorable;
    var file := Encode(d, pads) + extra;
    assert file[..HEADER] == HeaderBytes(d);
    HeaderRoundTrip(d, file);
    assert file[HEADER..] == RecordsBytes(d.vars, pads) + extra;
    RecordsRoundTrip(d.vars, pads, extra);
  }

  /** A dump cut short anywhere does not load. */
  lemma CutShort(d: Dump, pads: seq<seq<Byte>>, k: nat)
    requires Storable(d) && Pads(pads, |d.vars|) && k < |Encode(d, pads)|
    ensures Decode(Encode(d, pads)[..k]) == None
  {
    hide HeaderBytes, RecordsBytes, CountIn, ReadRecords, AllStorable;
    if k >= HEADER {
      var file := Encode(d, pads)[..k];
      assert file[..HEADER] == HeaderBytes(d);
      HeaderRoundTrip(d, file);
    }
  }

  /** Loading what `Write` left gives the dump exactly when the write reported success, else nothing. */
  lemma WrittenLoadsIff(d: Dump, pads: seq<seq<Byte>>, room: nat)
    requires Storable(d) && Pads(pads, |d.vars|)
    ensures Decode(Truncated(Encode(d, pads), room)) == if 24 + 24 * |d.vars| <= room then Some(d) else None
  {
    hide Encode, Decode;
    if |Encode(d, pads)| <= room {
      EncodeDecode(d, pads, []);
      assert Encode(d, pads) + [] == Encode(d, pads);
    } else {
      CutShort(d, pads, room);
    }
  }

  /** Where everything is in a written dump, byte by byte: label, type, count, and the three fields of record i. */
  lemma FileLayout(d: Dump, pads: seq<seq<Byte>>)
    requires Storable(d) && Pads(pads, |d.vars|)
    ensures var bs := Encode(d, pads);
            && |bs| == 24 + 24 * |d.vars|
            && bs[..16] == d.name
            && d.typ == Word32(bs[16], bs[17], bs[18], bs[19])
            && d.nVars == Word32(bs[20], bs[21], bs[22], bs[23])
  {
    hide LE, FromLE, Pow256, RecordsBytes, RecordBytes;
    WordSizes();
    WordRoundTrip(d.typ, 4);
    WordRoundTrip(d.nVars, 4);
    FourBytes(LE(d.typ, 4));
    FourBytes(LE(d.nVars, 4));
    var bs, h := Encode(d, pads), HeaderBytes(d);
    assert h[16..20] == LE(d.typ, 4) && h[20..24] == LE(d.nVars, 4);
    assert bs[..16] == h[..16] == d.name && bs[16..20] == h[16..20] && bs[20..24] == h[20..24];
  }

  lemma RecordLayout(d: Dump, pads: seq<seq<Byte>>, i: nat)
    requires Storable(d) && Pads(pads, |d.vars|) && i < |d.vars|
    ensures var bs, at := Encode(d, pads), 24 + 24 * i;
            && d.vars[i].region == Word32(bs[at], bs[at + 1], bs[at + 2], bs[at + 3])
            && d.vars[i].addressOffset
               == Word32(bs[at + 8], bs[at + 9], bs[at + 10], bs[at + 11])
                  + 0x1_0000_0000 * Word32(bs[at + 12], bs[at + 13], bs[at + 14], bs[at + 15])
            && d.vars[i].valsz == bs[at + 16]
  {
    hide FromLE, RecordBytes, RecordsBytes, HeaderBytes;
    var body := RecordsBytes(d.vars, pads);
    RecordsRoundTrip(d.vars, pads, []);
    assert body + [] == body;
    var rec := body[24 * i..24 * i + 24];
    assert ReadRecords(body, |d.vars|)[i] == ReadRecord(rec);
    FourBytes(rec[..4]);
    EightBytes(rec[8..16]);
    assert forall k | 0 <= k < 24 :: rec[k] == Encode(d, pads)[24 + 24 * i + k];
  }

  /** Conversely a file that loads is, up to trailing bytes, the dump it loads as; a negative count loads no records. */
  lemma DecodeEncode(file: seq<Byte>)
    requires Decode(file).Some?
    ensures var d := Decode(file).value;
            if d.nVars < 0 then d.vars == []
            else Storable(d) && Encode(d, PadsOf(file[HEADER..], |d.vars|)) == file[..HEADER + RECORD * |d.vars|]
  {
    hide LE, FromLE, Pow256, ReadRecords, RecordsBytes, PadsOf, AllStorable;
    var d, body := Decode(file).value, file[HEADER..];
    if d.nVars >= 0 {
      WordSizes();
      BytesRoundTrip(file[16..20]);
      BytesRoundTrip(file[20..24]);
      RecordsRewritten(body, |d.vars|);
      assert HeaderBytes(d) == file[..16] + file[16..20] + file[20..24];
      assert file[..HEADER] + body[..RECORD * |d.vars|] == file[..HEADER + RECORD * |d.vars|];
    }
  }

  // ---------------------------------------------------------------- through the file into another map

  /** What `fill_framedump` makes of a frame's variables. */
  function Filled(m: MemMap, name: seq<Byte>, typ: nat, vars: seq<Var>): Dump
    requires Shaped(m)
  {
    Dump(name, typ, |vars|, FrameDump.DumpVars(m, vars))
  }

  lemma FilledStorable(m: MemMap, name: seq<Byte>, typ: nat, vars: seq<Var>)
    requires Shaped(m) && |name| == 16 && typ < 0x1_0000_0000 && |vars| < 0x8000_0000
    requires |m.other| < 0x8000_0000 && forall i | 0 <= i < |vars| :: vars[i].len < 256
    ensures Storable(Filled(m, name, typ, vars))
  {
    hide Remote, ToInt32;
    forall i | 0 <= i < |vars| ensures StorableRecord(DumpVar(m, vars[i])) {
    }
  }

  /**
   A frame dumped to disk and loaded into another map of the same shape: the file loads, and every variable comes back
   in order and with its size, the strictly interior ones where `FrameDump.Sent` says.
   */
  lemma FrameThroughFile(m: MemMap, m': MemMap, name: seq<Byte>, typ: nat, vars: seq<Var>, pads: seq<seq<Byte>>)
    requires WellPlaced(m) && WellPlaced(m') && SameShape(m, m')
    requires |name| == 16 && typ < 0x1_0000_0000 && |vars| < 0x8000_0000 && |m.other| < 0x8000_0000
    requires (forall i | 0 <= i < |vars| :: vars[i].len < 256) && Pads(pads, |vars|)
    ensures var d := Filled(m, name, typ, vars);
            && Storable(d)
            && Decode(Encode(d, pads)) == Some(d)
            && FrameDump.AllResolvable(m', d.vars)
            && FrameDump.AllSent(m, vars, m', FrameDump.RestoreVars(m', d.vars))
  {
    hide SameShape, FrameDump.AllSent, Encode, Decode, Storable;
    FilledStorable(m, name, typ, vars);
    EncodeDecode(Filled(m, name, typ, vars), pads, []);
    assert Encode(Filled(m, name, typ, vars), pads) + [] == Encode(Filled(m, name, typ, vars), pads);
    FrameDump.FrameRestoredElsewhere(m, m', vars);
  }
}
