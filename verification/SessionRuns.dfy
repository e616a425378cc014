/** Whole sessions: searches in force, when a variable is tracked twice, and why the order of a scan is irrelevant. */
module SessionRuns {
  import opened Memory
  import opened FrameSpec
  import opened UndoStack

  // ---------------------------------------------------------------- searches and undos without a reset

  lemma {:induction false} UndoKeepsScan(es: seq<Event>)
    requires ScanAndSearches(es)
    ensures ScanAndSearches(WithoutLastSearch(es)) && WithoutLastSearch(es)[0] == es[0]
  {
    if |es| == 1 {
      assert WithoutLastSearch(es[..0]) == [];
    }
  }

  /** A session that scans, never resets, and never searches an empty frame again. */
  ghost predicate ScansOnce(limit: int, cmds: seq<Command>) {
    && cmds != [] && cmds[0].Search?
    && forall i {:trigger cmds[i]} | 0 < i < |cmds| ::
         !cmds[i].Reset? && (cmds[i].Search? ==> Run(limit, cmds[..i]).tracked != [])
  }

  lemma ScansOnceBefore(limit: int, cmds: seq<Command>)
    requires ScansOnce(limit, cmds) && |cmds| > 1
    ensures ScansOnce(limit, cmds[..|cmds| - 1]) && cmds[..|cmds| - 1][0] == cmds[0]
  {
    hide Run;
    var before := cmds[..|cmds| - 1];
    forall i {:trigger before[i]} | 0 < i < |before|
      ensures !before[i].Reset? && (before[i].Search? ==> Run(limit, before[..i]).tracked != [])
    {
      assert before[i] == cmds[i] && before[..i] == cmds[..i];
    }
  }

  /** One more command of such a session. */
  lemma ScansOnceStep(j: Journal, st: FrameState, limit: int, cmd: Command)
    requires ScanAndSearches(j.events) && !cmd.Reset? && (cmd.Search? ==> st.tracked != [])
    ensures var k := JournalStep(j, st, limit, cmd);
            ScanAndSearches(k.events) && k.events[0] == j.events[0]
  {
    UndoKeepsScan(j.events);
  }

  lemma ScansOnceFirst(limit: int, cmds: seq<Command>)
    requires |cmds| == 1 && cmds[0].Search?
    ensures Keep(limit, cmds).events == [Scanned(cmds[0].scanned)] && ScanAndSearches(Keep(limit, cmds).events)
  {
    assert cmds[..0] == [];
  }

  lemma {:induction false} ScansOnceJournal(limit: int, cmds: seq<Command>)
    requires GoodLimit(limit) && ScansOnce(limit, cmds)
    ensures ScanAndSearches(Keep(limit, cmds).events)
    ensures Keep(limit, cmds).events[0] == Scanned(cmds[0].scanned)
  {
    hide ScanAndSearches, JournalStep, Run;
    var n := |cmds| - 1;
    if n == 0 {
      ScansOnceFirst(limit, cmds);
    } else {
      ScansOnceBefore(limit, cmds);
      ScansOnceJournal(limit, cmds[..n]);
      ScansOnceStep(Keep(limit, cmds[..n]), Run(limit, cmds[..n]), limit, cmds[n]);
    }
  }

  /** Whatever the mix of searches and undos, tracked is the starting scan filtered by the searches in force. */
  lemma SearchesInForceFilter(limit: int, cmds: seq<Command>)
    requires GoodLimit(limit) && ScansOnce(limit, cmds)
    ensures var es := Keep(limit, cmds).events;
            && ScanAndSearches(es)
            && forall x: Var :: multiset(Run(limit, cmds).tracked)[x]
                                == if PassesAll(es, x) then multiset(cmds[0].scanned)[x] else 0
    ensures var es := Keep(limit, cmds).events;
            forall x: Var :: x in Run(limit, cmds).tracked <==>
              && x in cmds[0].scanned
              && forall n | 0 <= n < |es| && es[n].Narrowed? ::
                   && x.address + |es[n].value| <= |es[n].mem|
                   && forall i | 0 <= i < |es[n].value| :: es[n].mem[x.address + i] == es[n].value[i]
  {
    hide Run, Keep, Count, PassesAll, ScansOnce, RecordsMatch, Sound;
    var es := Keep(limit, cmds).events;
    ScansOnceJournal(limit, cmds);
    SessionRefinesUndoStack(limit, cmds);
    forall x: Var
      ensures multiset(Run(limit, cmds).tracked)[x] == if PassesAll(es, x) then multiset(es[0].vars)[x] else 0
    {
      ScanThenSearches(es, x);
    }
    forall x: Var
      ensures x in Run(limit, cmds).tracked <==>
                && x in es[0].vars
                && forall n | 0 <= n < |es| && es[n].Narrowed? ::
                     && x.address + |es[n].value| <= |es[n].mem|
                     && forall i | 0 <= i < |es[n].value| :: es[n].mem[x.address + i] == es[n].value[i]
    {
      PassesAllBytes(es, x);
      assert x in multiset(Run(limit, cmds).tracked) <==> x in Run(limit, cmds).tracked;
      assert x in multiset(es[0].vars) <==> x in es[0].vars;
    }
  }

  /** Passing every search means holding every byte of every value searched for. */
  lemma PassesAllBytes(es: seq<Event>, x: Var)
    ensures PassesAll(es, x)
            <==> forall n | 0 <= n < |es| && es[n].Narrowed? ::
                   && x.address + |es[n].value| <= |es[n].mem|
                   && forall i | 0 <= i < |es[n].value| :: es[n].mem[x.address + i] == es[n].value[i]
  {
    hide Hit;
    forall n | 0 <= n < |es| && es[n].Narrowed?
      ensures Hit(x, es[n].mem, es[n].value)
              <==> && x.address + |es[n].value| <= |es[n].mem|
                   && forall i | 0 <= i < |es[n].value| :: es[n].mem[x.address + i] == es[n].value[i]
    {
      HitBytes(x, es[n].mem, es[n].value);
    }
  }

  // ---------------------------------------------------------------- where variables come from

  lemma StepKeepsScanned(st: FrameState, limit: int, cmd: Command, x: Var)
    requires x in Step(st, limit, cmd).tracked || exists r :: r in Step(st, limit, cmd).records && x in r
    ensures x in st.tracked || (exists r :: r in st.records && x in r) || (cmd.Search? && x in cmd.scanned)
  {
    if cmd.Search? && st.tracked != [] {
      RenarrowMoves(st, limit, cmd.mem, cmd.value, x);
    }
  }

  lemma RenarrowMoves(st: FrameState, limit: int, mem: Snapshot, value: seq<Byte>, x: Var)
    requires var t := Renarrow(st, limit, mem, value); x in t.tracked || exists r :: r in t.records && x in r
    ensures x in st.tracked || exists r :: r in st.records && x in r
  {
    hide Hit, Kept, Unlinked;
    KeptMembers(st.tracked, mem, value);
    UnlinkedMembers(st.tracked, mem, value);
  }

  /** In every session, whatever the limit, all variables tracked or recorded were delivered by one of its scans. */
  lemma {:induction false} AllScanned(limit: int, cmds: seq<Command>, x: Var)
    requires x in Run(limit, cmds).tracked || exists r :: r in Run(limit, cmds).records && x in r
    ensures exists n :: 0 <= n < |cmds| && cmds[n].Search? && x in cmds[n].scanned
  {
    hide Step;
    if cmds != [] {
      var n := |cmds| - 1;
      StepKeepsScanned(Run(limit, cmds[..n]), limit, cmds[n], x);
      if cmds[n].Search? && x in cmds[n].scanned {
      } else {
        AllScanned(limit, cmds[..n], x);
        var k :| 0 <= k < n && cmds[..n][k].Search? && x in cmds[..n][k].scanned;
        assert cmds[k].Search?;
      }
    }
  }

  // ---------------------------------------------------------------- variables tracked or recorded once

  function InAll(st: FrameState, x: Var): nat {
    multiset(st.tracked)[x] + Held(st.records, x)
  }

  ghost predicate Single(st: FrameState) {
    forall x: Var :: InAll(st, x) <= 1
  }

  /** A scan (a search of an empty frame) finds no variable that a live record holds. */
  ghost predicate CleanScan(st: FrameState, cmd: Command) {
    cmd.Search? && st.tracked == [] ==> forall x: Var :: x in cmd.scanned ==> Held(st.records, x) == 0
  }

  ghost predicate DistinctScan(cmd: Command) {
    cmd.Search? ==> Distinct(cmd.scanned)
  }

  ghost predicate CleanScans(limit: int, cmds: seq<Command>) {
    forall i {:trigger cmds[i]} | 0 <= i < |cmds| :: CleanScan(Run(limit, cmds[..i]), cmds[i])
  }

  lemma {:induction false} HeldPush(recs: seq<seq<Var>>, r: seq<Var>, x: Var)
    ensures Held(recs + [r], x) == Held(recs, x) + multiset(r)[x]
  {
    if recs == [] {
      assert ([] + [r])[1..] == [];
    } else {
      HeldPush(recs[1..], r, x);
      assert (recs + [r])[1..] == recs[1..] + [r];
    }
  }

  lemma SearchSingle(st: FrameState, limit: int, mem: Snapshot, value: seq<Byte>)
    requires GoodLimit(limit) && Sound(st, limit) && Single(st)
    ensures Single(Renarrow(st, limit, mem, value))
  {
    hide Renarrow, Held, Unlinked, Kept, Sound;
    var t, removed := Renarrow(st, limit, mem, value), Unlinked(st.tracked, mem, value);
    RenarrowIs(st, limit, mem, value);
    forall x: Var ensures InAll(t, x) <= 1 {
      KeptCount(st.tracked, mem, value, x);
      UnlinkedCount(st.tracked, mem, value, x);
      assert InAll(st, x) <= 1;
      if limit == 0 {
        HeldNothing(x);
      } else {
        HeldPush(Survivors(st.records, limit), removed, x);
        HeldTail(st.records, |st.records| - |Survivors(st.records, limit)|, x);
      }
    }
  }

  lemma HeldNothing(x: Var)
    ensures Held([], x) == 0
  {
  }

  lemma UndoSingle(st: FrameState, limit: int)
    requires GoodLimit(limit) && Sound(st, limit) && Single(st)
    ensures Sound(Undo(st, limit), limit) && Single(Undo(st, limit))
  {
    hide Held;
    var n := |st.records| - 1;
    StepSound(st, limit, UndoLast);
    if n >= 0 {
      forall x: Var ensures InAll(Undo(st, limit), x) <= 1 {
        assert InAll(st, x) <= 1;
        assert st.records == st.records[..n] + [st.records[n]];
        HeldPush(st.records[..n], st.records[n], x);
      }
    }
  }

  lemma StepSingle(st: FrameState, limit: int, cmd: Command)
    requires GoodLimit(limit) && Sound(st, limit) && Single(st) && DistinctScan(cmd) && CleanScan(st, cmd)
    ensures Single(Step(st, limit, cmd))
  {
    hide Held, Renarrow, Undo, Sound;
    match cmd
    case Search(mem, value, scanned) =>
      if st.tracked != [] {
        SearchSingle(st, limit, mem, value);
      } else {
        forall x: Var ensures InAll(Step(st, limit, cmd), x) <= 1 {
          assert InAll(st, x) <= 1;
          DistinctCount(scanned, x);
        }
      }
    case UndoLast => UndoSingle(st, limit);
    case Reset =>
      forall x: Var ensures InAll(Step(st, limit, cmd), x) <= 1 {
        assert InAll(st, x) <= 1;
      }
  }

  lemma {:induction false} RunSingle(limit: int, cmds: seq<Command>, n: nat)
    requires GoodLimit(limit) && n <= |cmds| && forall i | 0 <= i < n :: DistinctScan(cmds[i])
    requires forall i {:trigger cmds[i]} | 0 <= i < n :: CleanScan(Run(limit, cmds[..i]), cmds[i])
    ensures Sound(Run(limit, cmds[..n]), limit) && Single(Run(limit, cmds[..n]))
  {
    hide Step, CleanScan, DistinctScan, Sound;
    RunSound(limit, cmds[..n]);
    if n == 0 {
      assert cmds[..0] == [];
      NothingSingle();
    } else {
      RunSingle(limit, cmds, n - 1);
      RunNext(limit, cmds, n - 1);
      StepSingle(Run(limit, cmds[..n - 1]), limit, cmds[n - 1]);
    }
  }

  lemma NothingSingle()
    ensures Single(EMPTY)
  {
  }

  lemma {:induction false} UndosSingle(st: FrameState, limit: int, j: nat)
    requires GoodLimit(limit) && Sound(st, limit) && Single(st)
    ensures Sound(UndoMany(st, limit, j), limit) && Single(UndoMany(st, limit, j))
    ensures Distinct(UndoMany(st, limit, j).tracked)
  {
    hide Undo, Sound;
    if j > 0 {
      UndosSingle(st, limit, j - 1);
      UndoSingle(UndoMany(st, limit, j - 1), limit);
    }
    var t := UndoMany(st, limit, j);
    assert forall x: Var :: multiset(t.tracked)[x] <= InAll(t, x);
    DistinctIff(t.tracked);
  }

  /** The first scan that finds a recorded variable, if there is one. */
  lemma {:induction false} FirstUnclean(limit: int, cmds: seq<Command>, n: nat) returns (i: nat)
    requires n <= |cmds|
    ensures i <= n
    ensures forall k {:trigger cmds[k]} | 0 <= k < i :: CleanScan(Run(limit, cmds[..k]), cmds[k])
    ensures i < n ==> !CleanScan(Run(limit, cmds[..i]), cmds[i])
  {
    hide CleanScan, Run;
    i := 0;
    while i < n && CleanScan(Run(limit, cmds[..i]), cmds[i])
      invariant i <= n
      invariant forall k {:trigger cmds[k]} | 0 <= k < i :: CleanScan(Run(limit, cmds[..k]), cmds[k])
    {
      i := i + 1;
    }
  }

  /** At an unclean scan some number of undos tracks a variable twice. */
  lemma UncleanScanRepeats(limit: int, st: FrameState, cmd: Command) returns (j: nat)
    requires GoodLimit(limit) && Sound(st, limit) && Single(st) && DistinctScan(cmd) && !CleanScan(st, cmd)
    ensures !Distinct(UndoMany(Step(st, limit, cmd), limit, j).tracked)
  {
    hide Held, UndoMany;
    HeldAtMost(st);
    if limit == 0 {
      HeldNever();
      assert false;
    }
    RescanStaysDistinctIff(st, limit, cmd.scanned);
    assert cmd.scanned + [] == cmd.scanned;
    assert Step(st, limit, cmd) == st.(tracked := cmd.scanned);
    var k: nat, x: Var :| multiset(UndoMany(st.(tracked := cmd.scanned), limit, k).tracked)[x] > 1;
    j := k;
    DistinctIff(UndoMany(st.(tracked := cmd.scanned), limit, j).tracked);
  }

  lemma HeldNever()
    ensures forall x: Var :: Held([], x) == 0
  {
  }

  lemma HeldAtMost(st: FrameState)
    requires Single(st)
    ensures forall x: Var :: Held(st.records, x) <= 1
  {
    forall x: Var ensures Held(st.records, x) <= 1 {
      assert InAll(st, x) <= 1;
    }
  }

  /** Undoing from every point of the session, however often, tracks no variable twice. */
  ghost predicate UndosDistinct(limit: int, cmds: seq<Command>) {
    forall n: nat, j: nat | n <= |cmds| :: Distinct(UndoMany(Run(limit, cmds[..n]), limit, j).tracked)
  }

  /**
   Over all sessions: no variable is ever tracked twice, also after any number of undos, exactly when no scan of the
   session finds a variable that a live record still holds.
   */
  lemma SessionDistinctIff(limit: int, cmds: seq<Command>)
    requires GoodLimit(limit) && forall i | 0 <= i < |cmds| :: DistinctScan(cmds[i])
    ensures UndosDistinct(limit, cmds) <==> CleanScans(limit, cmds)
  {
    hide Run, Step, UndoMany, CleanScan, DistinctScan, Single, Distinct, Sound;
    var i := FirstUnclean(limit, cmds, |cmds|);
    if i == |cmds| {
      forall n: nat, j: nat | n <= |cmds| ensures Distinct(UndoMany(Run(limit, cmds[..n]), limit, j).tracked) {
        RunSingle(limit, cmds, n);
        UndosSingle(Run(limit, cmds[..n]), limit, j);
      }
    } else {
      RunSingle(limit, cmds, i);
      var j := UncleanScanRepeats(limit, Run(limit, cmds[..i]), cmds[i]);
      RunNext(limit, cmds, i);
      assert i + 1 <= |cmds| && !Distinct(UndoMany(Run(limit, cmds[..i + 1]), limit, j).tracked);
    }
  }

  /** A session that gets there: scan, lose the variable, scan it again, undo. */
  lemma RescanTracksTwice(limit: int)
    requires limit != 0 && GoodLimit(limit)
    ensures var v := Var(0, 1);
            Run(limit, [Search([0], [0], [v]), Search([1], [0], []), Search([0], [0], [v]), UndoLast]).tracked == [v, v]
  {
    hide Renarrow;
    var v := Var(0, 1);
    var cmds := [Search([0], [0], [v]), Search([1], [0], []), Search([0], [0], [v]), UndoLast];
    assert cmds[..0] == [];
    RunNext(limit, cmds, 0);
    RunNext(limit, cmds, 1);
    RunNext(limit, cmds, 2);
    RunNext(limit, cmds, 3);
    assert cmds[..4] == cmds;
    assert Run(limit, cmds[..1]) == EMPTY.(tracked := [v]);
    LosesOnly(limit, v);
  }

  /** A frame with one variable, which the search misses. */
  lemma LosesOnly(limit: int, v: Var)
    requires limit != 0 && GoodLimit(limit) && v == Var(0, 1)
    ensures Renarrow(EMPTY.(tracked := [v]), limit, [1], [0]) == FrameState([], [[v]], true, 1)
  {
    hide Kept, Unlinked;
    FilterOne(v, [1], [0]);
    var mem: Snapshot := [1];
    assert mem[0..1][0] == 1;
  }

  // ---------------------------------------------------------------- resets

  /** Index of the latest search in force. */
  function LatestSearch(es: seq<Event>): nat {
    if es == [] then 0
    else if es[|es| - 1].Narrowed? then |es| - 1
    else LatestSearch(es[..|es| - 1])
  }

  /** How often x was tracked and rejected when search i of the journal was made. */
  function RejectedBy(es: seq<Event>, i: nat, x: Var): int {
    if i < |es| && es[i].Narrowed? && !Hit(x, es[i].mem, es[i].value) then Count(es[..i], x) else 0
  }

  lemma {:induction false} LatestRecordIs(recs: seq<seq<Var>>, es: seq<Event>)
    requires RecordsMatch(recs, es) && recs != []
    ensures var i := LatestSearch(es);
            && i < |es| && es[i].Narrowed?
            && forall x: Var :: multiset(recs[|recs| - 1])[x] == RejectedBy(es, i, x)
  {
    var n := |es| - 1;
    if !es[n].Narrowed? {
      LatestRecordIs(recs, es[..n]);
      var i := LatestSearch(es);
      assert i == LatestSearch(es[..n]) && es[..n][..i] == es[..i] && es[..n][i] == es[i];
      forall x: Var ensures multiset(recs[|recs| - 1])[x] == RejectedBy(es, i, x) {
        assert multiset(recs[|recs| - 1])[x] == RejectedBy(es[..n], i, x);
      }
    } else {
      forall x: Var ensures multiset(recs[|recs| - 1])[x] == RejectedBy(es, n, x) {
      }
    }
  }

  /**
   Over all sessions: a reset and an undo leave the frame tracking exactly what the latest search in force rejected,
   or nothing if no search can be undone.
   */
  lemma ResetUndoRefills(limit: int, cmds: seq<Command>)
    requires GoodLimit(limit)
    ensures var j := Keep(limit, cmds);
            forall x: Var :: multiset(Run(limit, cmds + [Reset, UndoLast]).tracked)[x]
                             == if j.undoable == 0 then 0 else RejectedBy(j.events, LatestSearch(j.events), x)
  {
    hide Keep, Count, RejectedBy, LatestSearch, RecordsMatch, Renarrow;
    var st, all := Run(limit, cmds), cmds + [Reset, UndoLast];
    var n := |cmds|;
    SessionRefinesUndoStack(limit, cmds);
    RunNext(limit, all, n);
    RunNext(limit, all, n + 1);
    assert all[..n] == cmds && all[..n + 2] == all;
    if st.records != [] {
      LatestRecordIs(st.records, Keep(limit, cmds).events);
    }
  }

  /** A session that gets there: of two variables a search rejects one, and reset and undo track it again. */
  lemma ResetUndoTracksRejected(limit: int)
    requires limit != 0 && GoodLimit(limit)
    ensures var v, w := Var(0, 1), Var(1, 1);
            Run(limit, [Search([0, 0], [0], [v, w]), Search([0, 1], [0], []), Reset, UndoLast]).tracked == [w]
  {
    hide Renarrow;
    var v, w := Var(0, 1), Var(1, 1);
    var cmds := [Search([0, 0], [0], [v, w]), Search([0, 1], [0], []), Reset, UndoLast];
    assert cmds[..0] == [];
    RunNext(limit, cmds, 0);
    RunNext(limit, cmds, 1);
    RunNext(limit, cmds, 2);
    RunNext(limit, cmds, 3);
    assert cmds[..4] == cmds;
    assert Run(limit, cmds[..1]) == EMPTY.(tracked := [v, w]);
    LosesOther(limit, v, w);
  }

  lemma LosesOther(limit: int, v: Var, w: Var)
    requires limit != 0 && GoodLimit(limit) && v == Var(0, 1) && w == Var(1, 1)
    ensures Renarrow(EMPTY.(tracked := [v, w]), limit, [0, 1], [0]) == FrameState([v], [[w]], true, 1)
  {
    hide Kept, Unlinked;
    FilterTwo(v, w, [0, 1], [0]);
    var mem: Snapshot := [0, 1];
    assert mem[0..1] == [0] && mem[1..2][0] == 1;
    assert Kept([v, w], mem, [0]) == [v] && Unlinked([v, w], mem, [0]) == [w];
  }

  // ---------------------------------------------------------------- the order of a scan is irrelevant

  /** The same command, up to the order in which a scan delivers its variables. */
  ghost predicate SameCommand(a: Command, b: Command) {
    if a.Search? && b.Search? then a.mem == b.mem && a.value == b.value && multiset(a.scanned) == multiset(b.scanned)
    else a == b
  }

  /** The same lists, up to order. */
  ghost predicate SameLists(s: FrameState, t: FrameState) {
    && multiset(s.tracked) == multiset(t.tracked)
    && s.attached == t.attached && s.depth == t.depth && |s.records| == |t.records|
    && forall i | 0 <= i < |s.records| :: multiset(s.records[i]) == multiset(t.records[i])
  }

  lemma FiltersSame(a: seq<Var>, b: seq<Var>, mem: Snapshot, value: seq<Byte>)
    requires multiset(a) == multiset(b)
    ensures multiset(Kept(a, mem, value)) == multiset(Kept(b, mem, value))
    ensures multiset(Unlinked(a, mem, value)) == multiset(Unlinked(b, mem, value))
  {
    forall x: Var
      ensures multiset(Kept(a, mem, value))[x] == multiset(Kept(b, mem, value))[x]
      ensures multiset(Unlinked(a, mem, value))[x] == multiset(Unlinked(b, mem, value))[x]
    {
      KeptCount(a, mem, value, x);
      KeptCount(b, mem, value, x);
      UnlinkedCount(a, mem, value, x);
      UnlinkedCount(b, mem, value, x);
    }
  }

  lemma RenarrowSame(s: FrameState, t: FrameState, limit: int, mem: Snapshot, value: seq<Byte>)
    requires SameLists(s, t)
    ensures SameLists(Renarrow(s, limit, mem, value), Renarrow(t, limit, mem, value))
  {
    hide Kept, Unlinked;
    FiltersSame(s.tracked, t.tracked, mem, value);
  }

  lemma StepSame(s: FrameState, t: FrameState, limit: int, a: Command, b: Command)
    requires SameLists(s, t) && SameCommand(a, b)
    ensures SameLists(Step(s, limit, a), Step(t, limit, b))
  {
    hide Renarrow;
    assert |multiset(s.tracked)| == |s.tracked| && |multiset(t.tracked)| == |t.tracked|;
    if a.Search? {
      RenarrowSame(s, t, limit, a.mem, a.value);
    }
  }

  /** Sessions that differ in the order of their scans track the same variables at every point, with any limit. */
  lemma {:induction false} ScanOrderIrrelevant(limit: int, ones: seq<Command>, others: seq<Command>)
    requires |ones| == |others| && forall i | 0 <= i < |ones| :: SameCommand(ones[i], others[i])
    ensures SameLists(Run(limit, ones), Run(limit, others))
  {
    hide Step, SameCommand;
    if ones == [] {
    } else {
      var n := |ones| - 1;
      ScanOrderIrrelevant(limit, ones[..n], others[..n]);
      StepSame(Run(limit, ones[..n]), Run(limit, others[..n]), limit, ones[n], others[n]);
    }
  }
}
