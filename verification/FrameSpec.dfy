/**
 The narrow frame as a value: tracked variables, bounded undo history, and the commands of a session.
 `Frames` proves the pointer code equal to these functions; `UndoStack` proves what they mean over whole runs.
 */
module FrameSpec {
  import opened Memory

  datatype Var = Var(address: nat, len: nat)

  predicate Hit(v: Var, mem: Snapshot, value: seq<Byte>) {
    OccursAt(mem, v.address, value)
  }

  function Kept(s: seq<Var>, mem: Snapshot, value: seq<Byte>): seq<Var> {
    if s == [] then [] else
      var n := |s| - 1;
      Kept(s[..n], mem, value) + if Hit(s[n], mem, value) then [s[n]] else []
  }

  function Missed(s: seq<Var>, mem: Snapshot, value: seq<Byte>): seq<Var> {
    if s == [] then [] else
      var n := |s| - 1;
      Missed(s[..n], mem, value) + if Hit(s[n], mem, value) then [] else [s[n]]
  }

  /** The order in which renarrowing unlinks: the misses behind the head first, the head last. */
  function Unlinked(s: seq<Var>, mem: Snapshot, value: seq<Byte>): seq<Var> {
    if s == [] then [] else Missed(s[1..], mem, value) + Missed(s[..1], mem, value)
  }

  /**
   `records` are the removed lists of the live history records, oldest first; `attached` says that
   `earliest_hist` reaches them (it loses the only record when the depth limit is one).
   */
  datatype FrameState = FrameState(
    tracked: seq<Var>,
    records: seq<seq<Var>>,
    attached: bool,
    depth: int
  )

  const EMPTY := FrameState([], [], false, 0)

  /** Number of records a walk from `earliest_hist` meets. */
  function ChainLength(st: FrameState): nat {
    if st.attached then |st.records| else 0
  }

  /** `add_history_search`: a new empty record becomes the latest; at the limit the oldest one is recycled. */
  function AddRecord(st: FrameState, limit: int): FrameState {
    if !st.attached then st.(records := [[]], attached := true, depth := st.depth + 1)
    else if st.depth == limit then
      st.(records := (if st.records == [] then [] else st.records[1..]) + [[]], attached := |st.records| > 1)
    else st.(records := st.records + [[]], depth := st.depth + 1)
  }

  /** `pop_latest_hist`: the state without its latest record, and that record. */
  function PopRecord(st: FrameState): (FrameState, Option<seq<Var>>) {
    if st.records == [] then (st, None)
    else
      var n := |st.records| - 1;
      (st.(records := st.records[..n], attached := st.attached && n > 0, depth := st.depth - 1), Some(st.records[n]))
  }

  function SetLatest(st: FrameState, removed: seq<Var>): FrameState {
    if st.records == [] then st else st.(records := st.records[..|st.records| - 1] + [removed])
  }

  /** `renarrow_frame`; without history (limit 0) the misses are freed. */
  function Renarrow(st: FrameState, limit: int, mem: Snapshot, value: seq<Byte>): FrameState {
    var base := if limit == 0 then st else AddRecord(st, limit);
    var narrowed := base.(tracked := Kept(st.tracked, mem, value));
    if limit == 0 then narrowed else SetLatest(narrowed, Unlinked(st.tracked, mem, value))
  }

  /** `undo_renarrow`. */
  function Undo(st: FrameState, limit: int): FrameState {
    if limit == 0 || st.depth == 0 then st
    else match PopRecord(st)
      case (popped, None) => st
      case (popped, Some(removed)) => popped.(tracked := removed + st.tracked)
  }

  // ---------------------------------------------------------------- renarrowing, byte by byte

  lemma HitBytes(v: Var, mem: Snapshot, value: seq<Byte>)
    ensures Hit(v, mem, value)
            <==> v.address + |value| <= |mem| && forall i | 0 <= i < |value| :: mem[v.address + i] == value[i]
  {
    OccursAtBytes(mem, v.address, value);
  }

  lemma {:induction false} KeptMembers(s: seq<Var>, mem: Snapshot, value: seq<Byte>)
    ensures forall x :: x in Kept(s, mem, value) <==> x in s && Hit(x, mem, value)
    ensures forall x :: x in Missed(s, mem, value) <==> x in s && !Hit(x, mem, value)
  {
    hide Hit;
    if s != [] {
      KeptMembers(s[..|s| - 1], mem, value);
      assert s == s[..|s| - 1] + [s[|s| - 1]];
    }
  }

  lemma UnlinkedMembers(s: seq<Var>, mem: Snapshot, value: seq<Byte>)
    ensures forall x :: x in Unlinked(s, mem, value) <==> x in s && !Hit(x, mem, value)
  {
    hide Hit, Missed;
    if s != [] {
      KeptMembers(s[1..], mem, value);
      KeptMembers(s[..1], mem, value);
      assert s == s[..1] + s[1..];
    }
  }

  /**
   Renarrowing in any state: tracked stay exactly the variables where the snapshot holds every byte of the value, and
   with a history the latest record holds exactly the others.
   */
  lemma RenarrowBytes(st: FrameState, limit: int, mem: Snapshot, value: seq<Byte>)
    ensures var t := Renarrow(st, limit, mem, value);
            && (forall x :: x in t.tracked <==>
                  x in st.tracked && x.address + |value| <= |mem|
                  && forall i | 0 <= i < |value| :: mem[x.address + i] == value[i])
            && (limit != 0 ==>
                  && t.records != []
                  && forall x :: x in t.records[|t.records| - 1] <==>
                       x in st.tracked && !(x.address + |value| <= |mem|
                                            && forall i | 0 <= i < |value| :: mem[x.address + i] == value[i]))
  {
    hide Hit, Kept, Unlinked;
    KeptMembers(st.tracked, mem, value);
    UnlinkedMembers(st.tracked, mem, value);
    forall x: Var
      ensures Hit(x, mem, value)
              <==> x.address + |value| <= |mem| && forall i | 0 <= i < |value| :: mem[x.address + i] == value[i]
    {
      HitBytes(x, mem, value);
    }
  }

  /** Order: a list is filtered piece by piece. */
  lemma {:induction false} KeptInOrder(a: seq<Var>, b: seq<Var>, mem: Snapshot, value: seq<Byte>)
    ensures Kept(a + b, mem, value) == Kept(a, mem, value) + Kept(b, mem, value)
  {
    hide Hit;
    if b == [] {
      assert a + b == a;
    } else {
      var n := |b| - 1;
      KeptInOrder(a, b[..n], mem, value);
      assert (a + b)[..|a| + n] == a + b[..n];
    }
  }

  /** Misses keep their order. */
  lemma {:induction false} MissedInOrder(s: seq<Var>, mem: Snapshot, value: seq<Byte>)
    requires forall v | v in s :: !Hit(v, mem, value)
    ensures Missed(s, mem, value) == s && Kept(s, mem, value) == []
  {
    hide Hit;
    if s != [] {
      MissedInOrder(s[..|s| - 1], mem, value);
    }
  }

  /** The record's order when all variables fail: those behind the head as they came, then the head. */
  lemma RecordOrder(head: Var, rest: seq<Var>, limit: int, mem: Snapshot, value: seq<Byte>)
    requires limit != 0
    requires forall v | v in [head] + rest ::
               !(v.address + |value| <= |mem| && forall i | 0 <= i < |value| :: mem[v.address + i] == value[i])
    ensures Renarrow(EMPTY.(tracked := [head] + rest), limit, mem, value)
            == FrameState([], [rest + [head]], true, 1)
  {
    hide Hit, Kept, Missed;
    var s := [head] + rest;
    forall v | v in s ensures !Hit(v, mem, value) {
      HitBytes(v, mem, value);
    }
    assert s[1..] == rest && s[..1] == [head];
    MissedInOrder(s, mem, value);
    MissedInOrder(rest, mem, value);
    MissedInOrder([head], mem, value);
  }

  /** Every byte of a four-byte value counts: one that differs behind the first removes the variable. */
  lemma LaterByteDiffers(limit: int)
    ensures Renarrow(EMPTY.(tracked := [Var(0, 4)]), limit, [5, 1, 0, 0], [5, 0, 0, 0]).tracked == []
    ensures Renarrow(EMPTY.(tracked := [Var(0, 4)]), limit, [5, 0, 0, 0], [5, 0, 0, 0]).tracked == [Var(0, 4)]
  {
    var v, value: seq<Byte> := Var(0, 4), [5, 0, 0, 0];
    HitBytes(v, [5, 1, 0, 0], value);
    HitBytes(v, value, value);
    assert [5, 1, 0, 0][v.address + 1] != value[1];
    assert [v][..0] == [];
    hide Hit;
  }

  /**
   One command of an interactive session. `Search` carries the refreshed snapshot, the value, and the
   variables an initial scan of it would track (in whatever order the threads delivered them).
   */
  datatype Command =
    | Search(mem: Snapshot, value: seq<Byte>, scanned: seq<Var>)
    | UndoLast
    | Reset

  function Step(st: FrameState, limit: int, cmd: Command): FrameState {
    match cmd
    case Search(mem, value, scanned) =>
      if |st.tracked| != 0 then Renarrow(st, limit, mem, value) else st.(tracked := scanned + st.tracked)
    case UndoLast => Undo(st, limit)
    case Reset => st.(tracked := [])
  }

  function Run(limit: int, cmds: seq<Command>): FrameState {
    if cmds == [] then EMPTY else Step(Run(limit, cmds[..|cmds| - 1]), limit, cmds[|cmds| - 1])
  }
}
