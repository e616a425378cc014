/** The completion dictionary: a growable array of entries, and searching it. */
module TabComs {
  import opened Matching

  /** The caller's memory: the string that starts at an address, and the pointer stored at one. */
  datatype CMemory = CMemory(strings: map<int, string>, pointers: map<int, int>)

  /** sizeof(char*). */
  const CHAR_PTR_BYTES := 8

  /** One registered array: `optlen` blocks from `data` on, each with its string `offset` bytes in. */
  datatype TabComEntry = TabComEntry(data: int, blkSz: int, offset: int, optlen: nat)

  function Inter(e: TabComEntry, j: nat): int {
    e.data + j * e.blkSz + e.offset
  }

  /** Block j holds a pointer to a string if blocks are as large as a pointer, else the string itself. */
  predicate ReadableAt(mem: CMemory, e: TabComEntry, j: nat) {
    if e.blkSz == CHAR_PTR_BYTES
    then Inter(e, j) in mem.pointers && mem.pointers[Inter(e, j)] in mem.strings
    else Inter(e, j) in mem.strings
  }

  function StringAt(mem: CMemory, e: TabComEntry, j: nat): string
    requires ReadableAt(mem, e, j)
  {
    mem.strings[if e.blkSz == CHAR_PTR_BYTES then mem.pointers[Inter(e, j)] else Inter(e, j)]
  }

  predicate Readable(mem: CMemory, e: TabComEntry) {
    forall j | 0 <= j < e.optlen :: ReadableAt(mem, e, j)
  }

  function Strings(mem: CMemory, e: TabComEntry): (strs: seq<string>)
    requires Readable(mem, e)
    ensures |strs| == e.optlen
  {
    seq(e.optlen, j requires 0 <= j < e.optlen => StringAt(mem, e, j))
  }

  /** Block j starts j block sizes behind the data; blocks of eight bytes hold a pointer to the string. */
  lemma StringsAre(mem: CMemory, e: TabComEntry, j: nat)
    requires Readable(mem, e) && j < e.optlen
    ensures e.blkSz == 8 ==>
              var at := e.data + j * 8 + e.offset;
              && at in mem.pointers && mem.pointers[at] in mem.strings
              && Strings(mem, e)[j] == mem.strings[mem.pointers[at]]
    ensures e.blkSz != 8 ==>
              var at := e.data + j * e.blkSz + e.offset;
              at in mem.strings && Strings(mem, e)[j] == mem.strings[at]
  {
    assert ReadableAt(mem, e, j);
  }

  predicate AllReadable(mem: CMemory, entries: seq<TabComEntry>) {
    forall i | 0 <= i < |entries| :: Readable(mem, entries[i])
  }

  /** All strings registered, in order. */
  function Dictionary(mem: CMemory, entries: seq<TabComEntry>): (dict: seq<string>)
    requires AllReadable(mem, entries)
    ensures |dict| == Flattened(entries)
  {
    if entries == [] then [] else
      var n := |entries| - 1;
      Dictionary(mem, entries[..n]) + Strings(mem, entries[n])
  }

  function Flattened(entries: seq<TabComEntry>): nat {
    if entries == [] then 0 else
      var n := |entries| - 1;
      Flattened(entries[..n]) + entries[n].optlen
  }

  class TabCom {
    const mem: CMemory
    var tbce: array<TabComEntry>
    var n: nat
    var cap: nat
    var nFlattened: int

    ghost predicate Valid()
      reads this, tbce
    {
      && n <= cap == tbce.Length && cap > 0
      && AllReadable(mem, Entries())
      && nFlattened == Flattened(Entries())
    }

    ghost function Entries(): seq<TabComEntry>
      requires n <= tbce.Length
      reads this, tbce
    {
      tbce[..n]
    }

    /** The dictionary the entries make up. */
    ghost function Dict(): seq<string>
      requires Valid()
      reads this, tbce
    {
      Dictionary(mem, Entries())
    }

    /** `init_tabcom`. */
    constructor (mem: CMemory)
      ensures Valid() && fresh(tbce) && this.mem == mem && Entries() == []
    {
      this.mem := mem;
      nFlattened, n := 0, 0;
      cap := 5;
      tbce := new TabComEntry[5](_ => TabComEntry(0, 0, 0, 0));
    }

    /** `insert_tabcom`: returns 2 when the array had to be doubled, else 1. */
    method Insert(data: int, blkSz: int, offset: int, optlen: nat) returns (ret: int)
      requires Valid() && Readable(mem, TabComEntry(data, blkSz, offset, optlen))
      modifies this, tbce
      ensures Valid() && (tbce == old(tbce) || fresh(tbce))
      ensures Entries() == old(Entries()) + [TabComEntry(data, blkSz, offset, optlen)]
      ensures Dict() == old(Dict()) + Strings(mem, TabComEntry(data, blkSz, offset, optlen))
      ensures ret == if old(n) == old(cap) then 2 else 1
    {
      nFlattened := nFlattened + optlen;
      ret := 1;
      if n == cap {
        ret := ret + 1;
        cap := cap * 2;
        tbce := Enlarged(tbce, cap);
      }
      tbce[n] := TabComEntry(data, blkSz, offset, optlen);
      n := n + 1;
      assert Entries()[..n - 1] == old(Entries());
    }

    /** `pop_tabcom`. */
    method Pop() returns (e: TabComEntry)
      requires Valid() && n > 0
      modifies `n, `nFlattened
      ensures Valid()
      ensures e == old(Entries())[old(n) - 1] && Entries() == old(Entries())[..old(n) - 1]
      ensures old(Dict()) == Dict() + Strings(mem, e)
    {
      nFlattened := nFlattened - tbce[n - 1].optlen;
      e := tbce[n - 1];
      n := n - 1;
      assert old(Entries())[..n] == Entries();
    }

    /**
     `find_matches`: the matches, the needle and the terminating NULL always fit the n_flattened + 2 words allocated.
     */
    method FindMatches(needle: string) returns (ret: array<Slot>, nMatches: nat)
      requires Valid()
      ensures fresh(ret) && ret.Length == nFlattened + 2
      ensures nMatches < ret.Length && ret[nMatches] == Null
      ensures ret[..nMatches] == Slots(Find(Dict(), needle))
      ensures forall s :: Str(s) in ret[..nMatches]
                          <==> s == needle || (s in Dict() && exists a: string, c: string :: s == a + needle + c)
    {
      hide Contains, Matches, Slots, Dictionary, Readable;
      ret := new Slot[nFlattened + 2](_ => Null);
      NoEntries(mem, needle);
      nMatches := 0;
      assert tbce[..0] == [];
      for i := 0 to n
        invariant fresh(ret) && ret.Length == nFlattened + 2
        invariant nMatches <= Flattened(tbce[..i]) <= nFlattened
        invariant ret[..nMatches] == Slots(Matches(Dictionary(mem, tbce[..i]), needle))
      {
        NextEntry(mem, Entries(), i);
        assert Entries()[..i] == tbce[..i] && Entries()[..i + 1] == tbce[..i + 1];
        nMatches := FindInEntry(mem, tbce[i], needle, ret, nMatches, Dictionary(mem, tbce[..i]));
      }
      assert tbce[..n] == Entries();
      SlotsEnd(Matches(Dict(), needle), needle);
      ret[nMatches] := Str(needle);
      nMatches := nMatches + 1;
      ret[nMatches] := Null;
      FindIs(Dict(), needle);
      SlotsMembers(Find(Dict(), needle));
    }
  }

  /** Growing the array keeps the entries. */
  method Enlarged(a: array<TabComEntry>, cap: nat) returns (tmp: array<TabComEntry>)
    requires a.Length <= cap
    ensures fresh(tmp) && tmp.Length == cap && tmp[..a.Length] == a[..]
  {
    tmp := new TabComEntry[cap](_ => TabComEntry(0, 0, 0, 0));
    forall k | 0 <= k < a.Length {
      tmp[k] := a[k];
    }
  }

  lemma NoEntries(mem: CMemory, needle: string)
    ensures Slots(Matches(Dictionary(mem, []), needle)) == [] && Flattened([]) == 0
  {
  }

  lemma NextEntry(mem: CMemory, entries: seq<TabComEntry>, i: nat)
    requires AllReadable(mem, entries) && i < |entries|
    ensures Dictionary(mem, entries[..i + 1]) == Dictionary(mem, entries[..i]) + Strings(mem, entries[i])
    ensures Flattened(entries[..i + 1]) == Flattened(entries[..i]) + entries[i].optlen <= Flattened(entries)
  {
    assert entries[..i + 1][..i] == entries[..i];
    FlattenedPrefix(entries, i + 1);
  }

  lemma {:induction false} FlattenedPrefix(entries: seq<TabComEntry>, i: nat)
    requires i <= |entries|
    ensures Flattened(entries[..i]) <= Flattened(entries)
  {
    if i == |entries| {
      assert entries[..i] == entries;
    } else {
      FlattenedPrefix(entries[..|entries| - 1], i);
      assert entries[..|entries| - 1][..i] == entries[..i];
    }
  }

  /** The inner loop of `find_matches`: the matches of one entry go behind those already found. */
  method FindInEntry(mem: CMemory, e: TabComEntry, needle: string, ret: array<Slot>, start: nat,
                     ghost before: seq<string>)
    returns (sz: nat)
    requires Readable(mem, e) && start + e.optlen <= ret.Length
    requires ret[..start] == Slots(Matches(before, needle))
    modifies ret
    ensures start <= sz <= start + e.optlen
    ensures ret[..sz] == Slots(Matches(before + Strings(mem, e), needle))
  {
    hide Contains;
    ghost var strs := Strings(mem, e);
    sz := start;
    assert before + strs[..0] == before;
    for j := 0 to e.optlen
      invariant start <= sz <= start + j
      invariant ret[..sz] == Slots(Matches(before + strs[..j], needle))
    {
      assert (before + strs[..j + 1])[..|before| + j] == before + strs[..j];
      var tmpCh := StringAt(mem, e, j);
      if Contains(tmpCh, needle) {
        ret[sz] := Str(tmpCh);
        sz := sz + 1;
      }
    }
    assert strs[..e.optlen] == strs;
  }
}
