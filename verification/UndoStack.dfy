/** What searching, undoing and resetting mean over whole sessions. */
module UndoStack {
  import opened Memory
  import opened FrameSpec

  // ---------------------------------------------------------------- when the history is a bounded deque

  /** The undo depth counts the records `earliest_hist` reaches, and `latest_hist` ends that chain. */
  predicate Intact(st: FrameState) {
    st.depth == ChainLength(st) && (st.attached <==> st.records != [])
  }

  /** The limit bounds the depth; below zero it is never reached, so there is no bound. */
  predicate Sound(st: FrameState, limit: int) {
    Intact(st) && (limit >= 0 ==> st.depth <= limit)
  }

  /** Every limit but one keeps the history in order. */
  predicate GoodLimit(limit: int) {
    limit != 1
  }

  function Latest<T>(s: seq<T>, n: nat): seq<T> {
    if |s| > n then s[|s| - n..] else s
  }

  /** The records that stay when a new one is added. */
  function Survivors<T>(recs: seq<T>, limit: int): seq<T>
    requires limit != 0
  {
    if limit < 0 then recs else Latest(recs, limit - 1)
  }

  /** A new record drops exactly what no longer fits, from the oldest end. */
  lemma AddKeepsLatest(st: FrameState, limit: int)
    requires limit != 0 && GoodLimit(limit) && Sound(st, limit)
    ensures Sound(AddRecord(st, limit), limit)
    ensures AddRecord(st, limit).records
            == if limit < 0 then st.records + [[]] else Latest(st.records + [[]], limit)
    ensures |st.records| == limit ==> AddRecord(st, limit).records == st.records[1..] + [[]]
    ensures |st.records| != limit ==> AddRecord(st, limit).records == st.records + [[]]
  {
  }

  lemma StepSound(st: FrameState, limit: int, cmd: Command)
    requires GoodLimit(limit) && Sound(st, limit)
    ensures Sound(Step(st, limit, cmd), limit)
  {
  }

  lemma {:induction false} RunSound(limit: int, cmds: seq<Command>)
    requires GoodLimit(limit)
    ensures Sound(Run(limit, cmds), limit)
  {
    if cmds != [] {
      var n := |cmds| - 1;
      RunSound(limit, cmds[..n]);
      StepSound(Run(limit, cmds[..n]), limit, cmds[n]);
    }
  }

  /** A scan that finds one variable and two searches that keep it: enough to recycle the only record at limit one. */
  const BREAKING: seq<Command> :=
    [Search([0], [0], [Var(0, 1)]), Search([0], [0], []), Search([0], [0], [])]

  /** One search later there is a second record, and the depth is above the limit. */
  const BREAKING_FURTHER: seq<Command> := BREAKING + [Search([0], [0], [])]

  lemma BreakingRun()
    ensures Run(1, BREAKING) == FrameState([Var(0, 1)], [[]], false, 1)
    ensures Run(1, BREAKING_FURTHER) == FrameState([Var(0, 1)], [[]], true, 2)
  {
    var b, v := BREAKING_FURTHER, Var(0, 1);
    assert b[..3] == BREAKING && b[..3][..2] == b[..2] && b[..2][..1] == b[..1] && b[..1][..0] == [];
    assert Run(1, b[..0]) == EMPTY;
    assert Run(1, b[..1]) == EMPTY.(tracked := [v]);
    KeepsOnly(v);
    assert Run(1, b[..2]) == FrameState([v], [[]], true, 1);
  }

  lemma KeepsOnly(v: Var)
    requires v == Var(0, 1)
    ensures Kept([v], [0], [0]) == [v] && Unlinked([v], [0], [0]) == []
  {
    var s := [v];
    assert s[..0] == [] && s[1..] == [] && s[..1] == s;
    assert Hit(v, [0], [0]) && Missed(s, [0], [0]) == [];
  }

  /** Over all sessions the chain of records is intact exactly when the limit is not one. */
  lemma ChainIntactIff(limit: int)
    ensures (forall cmds: seq<Command> :: Intact(Run(limit, cmds))) <==> GoodLimit(limit)
  {
    if GoodLimit(limit) {
      forall cmds: seq<Command> ensures Intact(Run(limit, cmds)) {
        RunSound(limit, cmds);
      }
    } else {
      BreakingRun();
    }
  }

  /** Over all sessions a limit that is not negative bounds the depth exactly when it is not one. */
  lemma DepthBoundedIff(limit: int)
    requires limit >= 0
    ensures (forall cmds: seq<Command> :: Run(limit, cmds).depth <= limit) <==> GoodLimit(limit)
  {
    if GoodLimit(limit) {
      forall cmds: seq<Command> ensures Run(limit, cmds).depth <= limit {
        RunSound(limit, cmds);
      }
    } else {
      BreakingRun();
    }
  }

  // ---------------------------------------------------------------- kept and missed, counted

  lemma SplitLast(s: seq<Var>, x: Var)
    requires s != []
    ensures multiset(s)[x] == multiset(s[..|s| - 1])[x] + if s[|s| - 1] == x then 1 else 0
  {
    assert s == s[..|s| - 1] + [s[|s| - 1]];
  }

  lemma {:induction false} KeptCount(s: seq<Var>, mem: Snapshot, value: seq<Byte>, x: Var)
    ensures multiset(Kept(s, mem, value))[x] == if Hit(x, mem, value) then multiset(s)[x] else 0
  {
    if s != [] {
      KeptCount(s[..|s| - 1], mem, value, x);
      SplitLast(s, x);
    }
  }

  lemma {:induction false} MissedCount(s: seq<Var>, mem: Snapshot, value: seq<Byte>, x: Var)
    ensures multiset(Missed(s, mem, value))[x] == if Hit(x, mem, value) then 0 else multiset(s)[x]
  {
    if s != [] {
      MissedCount(s[..|s| - 1], mem, value, x);
      SplitLast(s, x);
    }
  }

  lemma UnlinkedCount(s: seq<Var>, mem: Snapshot, value: seq<Byte>, x: Var)
    ensures multiset(Unlinked(s, mem, value))[x] == if Hit(x, mem, value) then 0 else multiset(s)[x]
  {
    if s != [] {
      MissedCount(s[1..], mem, value, x);
      MissedCount(s[..1], mem, value, x);
      assert s == s[..1] + s[1..];
    }
  }

  /** Renarrowing moves variables between lists: none is lost, duplicated or invented. */
  lemma RenarrowConserves(s: seq<Var>, mem: Snapshot, value: seq<Byte>)
    ensures multiset(Unlinked(s, mem, value)) + multiset(Kept(s, mem, value)) == multiset(s)
  {
    forall x
      ensures multiset(Unlinked(s, mem, value))[x] + multiset(Kept(s, mem, value))[x] == multiset(s)[x]
    {
      KeptCount(s, mem, value, x);
      UnlinkedCount(s, mem, value, x);
    }
  }

  // ---------------------------------------------------------------- lists of one and two variables

  function Pick(v: Var, b: bool): seq<Var> {
    if b then [v] else []
  }

  lemma FilterOne(v: Var, mem: Snapshot, value: seq<Byte>)
    ensures Kept([v], mem, value) == Pick(v, Hit(v, mem, value))
    ensures Missed([v], mem, value) == Pick(v, !Hit(v, mem, value))
    ensures Unlinked([v], mem, value) == Pick(v, !Hit(v, mem, value))
  {
    hide OccursAt;
    var s := [v];
    assert s[..0] == [] && s[..1] == s && s[1..] == [];
  }

  lemma FilterTwo(v: Var, w: Var, mem: Snapshot, value: seq<Byte>)
    ensures Kept([v, w], mem, value) == Pick(v, Hit(v, mem, value)) + Pick(w, Hit(w, mem, value))
    ensures Unlinked([v, w], mem, value) == Pick(w, !Hit(w, mem, value)) + Pick(v, !Hit(v, mem, value))
  {
    hide OccursAt, Hit;
    FilterOne(v, mem, value);
    FilterOne(w, mem, value);
    var s := [v, w];
    assert s[..1] == [v] && s[1..] == [w];
  }

  // ---------------------------------------------------------------- the journal: an unbounded account of a session

  /** What a session did that is still in force; undoing deletes the latest search from the journal. */
  datatype Event =
    | Scanned(vars: seq<Var>)
    | Narrowed(mem: Snapshot, value: seq<Byte>)
    | Dropped(vars: seq<Var>)

  /** How often x is tracked: scanned in, surviving every later search in force, less what resets dropped. */
  function Count(es: seq<Event>, x: Var): int {
    if es == [] then 0
    else
      var before := Count(es[..|es| - 1], x);
      match es[|es| - 1]
      case Scanned(vars) => before + multiset(vars)[x]
      case Narrowed(mem, value) => if Hit(x, mem, value) then before else 0
      case Dropped(vars) => before - multiset(vars)[x]
  }

  function WithoutLastSearch(es: seq<Event>): seq<Event> {
    if es == [] then [] else
      var n := |es| - 1;
      if es[n].Narrowed? then es[..n] else WithoutLastSearch(es[..n]) + [es[n]]
  }

  datatype Journal = Journal(events: seq<Event>, undoable: nat)

  /** Whether a search adds an undoable one or takes the place of the oldest. */
  predicate Grows(j: Journal, limit: int) {
    limit < 0 || j.undoable < limit
  }

  function JournalStep(j: Journal, st: FrameState, limit: int, cmd: Command): Journal {
    match cmd
    case Search(mem, value, scanned) =>
      if |st.tracked| == 0 then j.(events := j.events + [Scanned(scanned)])
      else Journal(j.events + [Narrowed(mem, value)], if Grows(j, limit) then j.undoable + 1 else j.undoable)
    case UndoLast =>
      if j.undoable == 0 then j else Journal(WithoutLastSearch(j.events), j.undoable - 1)
    case Reset => j.(events := j.events + [Dropped(st.tracked)])
  }

  function Keep(limit: int, cmds: seq<Command>): Journal {
    if cmds == [] then Journal([], 0) else
      var n := |cmds| - 1;
      JournalStep(Keep(limit, cmds[..n]), Run(limit, cmds[..n]), limit, cmds[n])
  }

  /** The i-th latest record holds what the i-th latest search in force rejected. */
  ghost predicate RecordsMatch(recs: seq<seq<Var>>, es: seq<Event>)
    decreases |es|
  {
    recs == [] ||
    (es != [] &&
     var n := |es| - 1;
     match es[n]
     case Narrowed(mem, value) =>
       && (forall x: Var :: multiset(recs[|recs| - 1])[x] == if Hit(x, mem, value) then 0 else Count(es[..n], x))
       && RecordsMatch(recs[..|recs| - 1], es[..n])
     case _ => RecordsMatch(recs, es[..n]))
  }

  lemma {:induction false} RecycleMatches(recs: seq<seq<Var>>, es: seq<Event>)
    requires RecordsMatch(recs, es) && recs != []
    ensures RecordsMatch(recs[1..], es)
    decreases |es|
  {
    var n := |es| - 1;
    if es[n].Narrowed? {
      if |recs| > 1 {
        RecycleMatches(recs[..|recs| - 1], es[..n]);
        assert recs[1..][..|recs| - 2] == recs[..|recs| - 1][1..];
      }
    } else {
      RecycleMatches(recs, es[..n]);
    }
  }

  /** Deleting the latest search from the journal brings back exactly what its record holds. */
  lemma {:induction false} UndoMatches(recs: seq<seq<Var>>, es: seq<Event>)
    requires RecordsMatch(recs, es) && recs != []
    ensures RecordsMatch(recs[..|recs| - 1], WithoutLastSearch(es))
    ensures forall x: Var :: Count(WithoutLastSearch(es), x) == Count(es, x) + multiset(recs[|recs| - 1])[x]
    decreases |es|
  {
    var n := |es| - 1;
    if !es[n].Narrowed? {
      UndoMatches(recs, es[..n]);
      var rest := WithoutLastSearch(es[..n]);
      assert WithoutLastSearch(es)[..|rest|] == rest;
      forall x: Var
        ensures Count(WithoutLastSearch(es), x) == Count(es, x) + multiset(recs[|recs| - 1])[x]
      {
        assert Count(rest, x) == Count(es[..n], x) + multiset(recs[|recs| - 1])[x];
      }
    }
  }

  ghost predicate Agrees(st: FrameState, j: Journal, limit: int) {
    && Sound(st, limit)
    && |st.records| == j.undoable
    && (forall x: Var :: multiset(st.tracked)[x] == Count(j.events, x))
    && RecordsMatch(st.records, j.events)
  }

  lemma RenarrowIs(st: FrameState, limit: int, mem: Snapshot, value: seq<Byte>)
    requires GoodLimit(limit) && Sound(st, limit)
    ensures var t := Renarrow(st, limit, mem, value);
            && Sound(t, limit)
            && t.tracked == Kept(st.tracked, mem, value)
            && (limit == 0 ==> t.records == [])
            && (limit != 0 ==> t.records == Survivors(st.records, limit) + [Unlinked(st.tracked, mem, value)])
  {
  }

  lemma PushMatches(kept: seq<seq<Var>>, es: seq<Event>, removed: seq<Var>, mem: Snapshot, value: seq<Byte>)
    requires RecordsMatch(kept, es)
    requires forall x: Var :: multiset(removed)[x] == if Hit(x, mem, value) then 0 else Count(es, x)
    ensures RecordsMatch(kept + [removed], es + [Narrowed(mem, value)])
  {
    assert (es + [Narrowed(mem, value)])[..|es|] == es;
    assert (kept + [removed])[..|kept|] == kept;
  }

  lemma NarrowedCounts(s: seq<Var>, es: seq<Event>, mem: Snapshot, value: seq<Byte>)
    requires forall x: Var :: multiset(s)[x] == Count(es, x)
    ensures forall x: Var :: multiset(Kept(s, mem, value))[x] == Count(es + [Narrowed(mem, value)], x)
    ensures forall x: Var ::
              multiset(Unlinked(s, mem, value))[x] == if Hit(x, mem, value) then 0 else Count(es, x)
  {
    assert (es + [Narrowed(mem, value)])[..|es|] == es;
    forall x: Var
      ensures multiset(Kept(s, mem, value))[x] == Count(es + [Narrowed(mem, value)], x)
      ensures multiset(Unlinked(s, mem, value))[x] == if Hit(x, mem, value) then 0 else Count(es, x)
    {
      KeptCount(s, mem, value, x);
      UnlinkedCount(s, mem, value, x);
      assert multiset(s)[x] == Count(es, x);
    }
  }

  lemma RenarrowAgrees(st: FrameState, j: Journal, limit: int, mem: Snapshot, value: seq<Byte>)
    requires GoodLimit(limit) && Agrees(st, j, limit)
    ensures var undoable := if Grows(j, limit) then j.undoable + 1 else j.undoable;
            Agrees(Renarrow(st, limit, mem, value), Journal(j.events + [Narrowed(mem, value)], undoable), limit)
  {
    RenarrowIs(st, limit, mem, value);
    NarrowedCounts(st.tracked, j.events, mem, value);
    if limit != 0 {
      if |st.records| == limit {
        RecycleMatches(st.records, j.events);
      }
      hide Renarrow, Unlinked, Kept, Count, RecordsMatch;
      PushMatches(Survivors(st.records, limit), j.events, Unlinked(st.tracked, mem, value), mem, value);
    }
  }

  lemma ScanAgrees(st: FrameState, j: Journal, limit: int, scanned: seq<Var>)
    requires Agrees(st, j, limit)
    ensures Agrees(st.(tracked := scanned + st.tracked), j.(events := j.events + [Scanned(scanned)]), limit)
  {
    var es := j.events + [Scanned(scanned)];
    assert es[..|j.events|] == j.events;
    forall x: Var ensures multiset(scanned + st.tracked)[x] == Count(es, x) {
      assert multiset(st.tracked)[x] == Count(j.events, x);
    }
  }

  lemma UndoAgrees(st: FrameState, j: Journal, limit: int)
    requires GoodLimit(limit) && Agrees(st, j, limit)
    ensures Agrees(Step(st, limit, UndoLast), JournalStep(j, st, limit, UndoLast), limit)
  {
    StepSound(st, limit, UndoLast);
    if st.records != [] {
      UndoMatches(st.records, j.events);
      var t, k := Step(st, limit, UndoLast), JournalStep(j, st, limit, UndoLast);
      forall x: Var ensures multiset(t.tracked)[x] == Count(k.events, x) {
        assert multiset(st.tracked)[x] == Count(j.events, x);
      }
    }
  }

  lemma ResetAgrees(st: FrameState, j: Journal, limit: int)
    requires GoodLimit(limit) && Agrees(st, j, limit)
    ensures Agrees(Step(st, limit, Reset), JournalStep(j, st, limit, Reset), limit)
  {
    var k := JournalStep(j, st, limit, Reset);
    assert k.events[..|j.events|] == j.events;
    forall x: Var ensures Count(k.events, x) == 0 {
      assert multiset(st.tracked)[x] == Count(j.events, x);
    }
  }

  /**
   Every session with a limit other than 1 refines a bounded undo stack: after any commands, over changing snapshots,
   each variable is tracked as often as it was scanned in, survived all later searches not yet undone (searches
   evicted from the history included) and was not dropped by a reset.
   */
  lemma {:induction false} SessionRefinesUndoStack(limit: int, cmds: seq<Command>)
    requires GoodLimit(limit)
    ensures Agrees(Run(limit, cmds), Keep(limit, cmds), limit)
  {
    if cmds != [] {
      var n := |cmds| - 1;
      SessionRefinesUndoStack(limit, cmds[..n]);
      var st, j := Run(limit, cmds[..n]), Keep(limit, cmds[..n]);
      match cmds[n]
      case Search(mem, value, scanned) =>
        if |st.tracked| == 0 {
          ScanAgrees(st, j, limit, scanned);
        } else {
          RenarrowAgrees(st, j, limit, mem, value);
        }
      case UndoLast => UndoAgrees(st, j, limit);
      case Reset => ResetAgrees(st, j, limit);
    }
  }

  lemma RunNext(limit: int, cmds: seq<Command>, n: nat)
    requires n < |cmds|
    ensures Run(limit, cmds[..n + 1]) == Step(Run(limit, cmds[..n]), limit, cmds[n])
  {
    assert cmds[..n + 1][..n] == cmds[..n];
  }

  /** Which searches are in force. */
  predicate PassesAll(es: seq<Event>, x: Var) {
    forall i | 0 <= i < |es| && es[i].Narrowed? :: Hit(x, es[i].mem, es[i].value)
  }

  /** A scan, and then narrowings. */
  predicate ScanAndSearches(es: seq<Event>) {
    es != [] && es[0].Scanned? && forall i | 0 < i < |es| :: es[i].Narrowed?
  }

  /** After one scan and then only searches, exactly the scanned variables matching every search in force remain. */
  lemma {:induction false} ScanThenSearches(es: seq<Event>, x: Var)
    requires ScanAndSearches(es)
    ensures Count(es, x) == if PassesAll(es, x) then multiset(es[0].vars)[x] else 0
  {
    var n := |es| - 1;
    if n == 0 {
      assert Count(es[..0], x) == 0;
    } else {
      ScanThenSearches(es[..n], x);
      assert PassesAll(es, x) <==> PassesAll(es[..n], x) && Hit(x, es[n].mem, es[n].value);
    }
  }

  // ---------------------------------------------------------------- k searches, then j undos

  datatype Query = Query(mem: Snapshot, value: seq<Byte>)

  function RenarrowAll(st: FrameState, limit: int, qs: seq<Query>): FrameState {
    if qs == [] then st else
      var n := |qs| - 1;
      Renarrow(RenarrowAll(st, limit, qs[..n]), limit, qs[n].mem, qs[n].value)
  }

  function UndoMany(st: FrameState, limit: int, j: nat): FrameState {
    if j == 0 then st else Undo(UndoMany(st, limit, j - 1), limit)
  }

  function Min(a: int, b: int): int {
    if a < b then a else b
  }

  /** The variables of the `count` latest records, latest last. */
  function LatestVars(recs: seq<seq<Var>>, count: nat): seq<Var>
    requires count <= |recs|
  {
    if count == 0 then [] else recs[|recs| - count] + LatestVars(recs, count - 1)
  }

  /** Undoing puts the latest record back, if there is one. */
  lemma UndoIs(st: FrameState, limit: int)
    requires GoodLimit(limit) && Sound(st, limit)
    ensures var t, n := Undo(st, limit), |st.records| - 1;
            && Sound(t, limit)
            && (n < 0 ==> t == st)
            && (n >= 0 ==> t.records == st.records[..n] && t.tracked == st.records[n] + st.tracked)
  {
    StepSound(st, limit, UndoLast);
  }

  /** Undoing puts records back one by one, until the history is empty. */
  lemma {:induction false} UndoManyIs(st: FrameState, limit: int, j: nat)
    requires GoodLimit(limit) && Sound(st, limit)
    ensures var back := Min(j, |st.records|);
            var t := UndoMany(st, limit, j);
            && Sound(t, limit)
            && t.records == st.records[..|st.records| - back]
            && t.tracked == LatestVars(st.records, back) + st.tracked
  {
    hide Undo, Sound;
    if j > 0 {
      UndoManyIs(st, limit, j - 1);
      UndoIs(UndoMany(st, limit, j - 1), limit);
    }
  }

  /** The i latest records hold what the last i searches removed. */
  ghost predicate Bridges(st: FrameState, limit: int, qs: seq<Query>, t: FrameState, i: nat)
    requires i <= |t.records| && i <= |qs|
  {
    multiset(LatestVars(t.records, i)) + multiset(t.tracked)
    == multiset(RenarrowAll(st, limit, qs[..|qs| - i]).tracked)
  }

  lemma BridgeStep(st: FrameState, limit: int, qs: seq<Query>, s: FrameState, t: FrameState, i: nat)
    requires qs != [] && GoodLimit(limit) && Sound(s, limit)
    requires t == Renarrow(s, limit, qs[|qs| - 1].mem, qs[|qs| - 1].value)
    requires i < |qs| && i <= |s.records| && i + 1 <= |t.records|
    requires Bridges(st, limit, qs[..|qs| - 1], s, i)
    ensures Bridges(st, limit, qs, t, i + 1)
  {
    hide Renarrow, RenarrowAll, LatestVars, Survivors, Kept, Unlinked, Sound;
    var q := qs[|qs| - 1];
    var removed := Unlinked(s.tracked, q.mem, q.value);
    RenarrowIs(s, limit, q.mem, q.value);
    RenarrowConserves(s.tracked, q.mem, q.value);
    RecordsBounded(s, limit);
    RecordsBounded(t, limit);
    LatestVarsPush(s.records, limit, removed, i);
    assert qs[..|qs| - 1][..|qs| - 1 - i] == qs[..|qs| - (i + 1)];
    Rebracket(LatestVars(s.records, i), removed, t.tracked, s.tracked);
  }

  lemma RecordsBounded(st: FrameState, limit: int)
    requires Sound(st, limit)
    ensures limit >= 0 ==> |st.records| <= limit
  {
  }

  lemma Rebracket(a: seq<Var>, b: seq<Var>, c: seq<Var>, bc: seq<Var>)
    requires multiset(b) + multiset(c) == multiset(bc)
    ensures multiset(a + b) + multiset(c) == multiset(a) + multiset(bc)
  {
  }

  lemma LatestVarsPush(recs: seq<seq<Var>>, limit: int, removed: seq<Var>, i: nat)
    requires i <= |recs| && (limit < 0 || (2 <= limit && |recs| <= limit && i < limit))
    ensures LatestVars(Survivors(recs, limit) + [removed], i + 1) == LatestVars(recs, i) + removed
  {
    var after := Survivors(recs, limit) + [removed];
    var a, b := after[|after| - 1 - i..|after| - 1], recs[|recs| - i..];
    assert a == b;
    LatestVarsShift(recs, after, removed, i);
  }

  /** How many of k searches can be undone. */
  function Undoable(limit: int, k: nat): int {
    if limit < 0 then k else Min(k, limit)
  }

  /** Searching k times leaves min(k, limit) records, or k without a bound. */
  lemma {:induction false} RenarrowAllSound(st: FrameState, limit: int, qs: seq<Query>)
    requires GoodLimit(limit) && Sound(st, limit) && st.records == []
    ensures Sound(RenarrowAll(st, limit, qs), limit)
    ensures |RenarrowAll(st, limit, qs).records| == Undoable(limit, |qs|)
  {
    if qs != [] {
      var n := |qs| - 1;
      RenarrowAllSound(st, limit, qs[..n]);
      RenarrowIs(RenarrowAll(st, limit, qs[..n]), limit, qs[n].mem, qs[n].value);
      hide Renarrow;
    }
  }

  lemma RenarrowAllUnfold(st: FrameState, limit: int, qs: seq<Query>)
    ensures qs != [] ==>
              var n := |qs| - 1;
              RenarrowAll(st, limit, qs) == Renarrow(RenarrowAll(st, limit, qs[..n]), limit, qs[n].mem, qs[n].value)
  {
  }

  lemma BridgeZero(st: FrameState, limit: int, qs: seq<Query>)
    ensures Bridges(st, limit, qs, RenarrowAll(st, limit, qs), 0)
  {
    assert qs[..|qs|] == qs;
  }

  lemma {:induction false} RenarrowAllBridges(st: FrameState, limit: int, qs: seq<Query>, i: nat)
    requires GoodLimit(limit) && Sound(st, limit) && st.records == []
    requires i <= |RenarrowAll(st, limit, qs).records| && i <= |qs|
    ensures Bridges(st, limit, qs, RenarrowAll(st, limit, qs), i)
  {
    RenarrowAllUnfold(st, limit, qs);
    BridgeZero(st, limit, qs);
    hide RenarrowAll, Renarrow, Bridges, Sound;
    if i > 0 {
      var init := qs[..|qs| - 1];
      RenarrowAllSound(st, limit, init);
      RenarrowAllSound(st, limit, qs);
      RenarrowAllBridges(st, limit, init, i - 1);
      BridgeStep(st, limit, qs, RenarrowAll(st, limit, init), RenarrowAll(st, limit, qs), i - 1);
    }
  }

  /** The i + 1 latest records are the i latest before, and the newest. */
  lemma {:induction false} LatestVarsShift(before: seq<seq<Var>>, after: seq<seq<Var>>, newest: seq<Var>, i: nat)
    requires i <= |before| && i + 1 <= |after|
    requires after[|after| - 1] == newest && after[|after| - 1 - i..|after| - 1] == before[|before| - i..]
    ensures LatestVars(after, i + 1) == LatestVars(before, i) + newest
  {
    if i > 0 {
      var a, b := after[|after| - 1 - i..|after| - 1], before[|before| - i..];
      assert a[0] == b[0] && a[1..] == b[1..];
      LatestVarsShift(before, after, newest, i - 1);
    }
  }

  /**
   k searches and then j undos give the variables held after k - min(j, k, limit) searches (a negative limit does not
   count), searches that removed
   nothing or everything included.
   */
  lemma SearchesThenUndos(st: FrameState, limit: int, qs: seq<Query>, j: nat)
    requires GoodLimit(limit) && Sound(st, limit) && st.records == []
    ensures var back := Min(j, Undoable(limit, |qs|));
            multiset(UndoMany(RenarrowAll(st, limit, qs), limit, j).tracked)
            == multiset(RenarrowAll(st, limit, qs[..|qs| - back]).tracked)
  {
    hide UndoMany, RenarrowAll, LatestVars, Sound;
    var t := RenarrowAll(st, limit, qs);
    RenarrowAllSound(st, limit, qs);
    RenarrowAllBridges(st, limit, qs, Min(j, |t.records|));
    UndoManyIs(t, limit, j);
  }

  // ---------------------------------------------------------------- scanning again with a history

  /** How often the records hold x. */
  function Held(recs: seq<seq<Var>>, x: Var): nat {
    if recs == [] then 0 else multiset(recs[0])[x] + Held(recs[1..], x)
  }

  lemma {:induction false} HeldAll(recs: seq<seq<Var>>, count: nat, x: Var)
    requires count <= |recs|
    ensures multiset(LatestVars(recs, count))[x] == Held(recs[|recs| - count..], x)
  {
    if count > 0 {
      HeldAll(recs, count - 1, x);
      assert recs[|recs| - count..][1..] == recs[|recs| - (count - 1)..];
    }
  }

  lemma {:induction false} HeldTail(recs: seq<seq<Var>>, k: nat, x: Var)
    requires k <= |recs|
    ensures Held(recs[k..], x) <= Held(recs, x)
  {
    if k > 0 {
      HeldTail(recs[1..], k - 1, x);
      assert recs[1..][k - 1..] == recs[k..];
    }
  }

  /**
   A search that empties the frame makes the next one scan afresh while the history keeps the old variables. Undoing
   then tracks some variable twice, unless the records hold none of those the new scan found.
   */
  lemma RescanStaysDistinctIff(st: FrameState, limit: int, scanned: seq<Var>)
    requires limit != 0 && GoodLimit(limit) && Sound(st, limit) && st.tracked == []
    requires Distinct(scanned) && forall x: Var :: Held(st.records, x) <= 1
    ensures (forall j: nat, x: Var ::
               multiset(UndoMany(st.(tracked := scanned), limit, j).tracked)[x] <= 1)
            <==> forall x: Var :: x in scanned ==> Held(st.records, x) == 0
  {
    var t, n := st.(tracked := scanned), |st.records|;
    if forall x: Var :: x in scanned ==> Held(st.records, x) == 0 {
      forall j: nat, x: Var ensures multiset(UndoMany(t, limit, j).tracked)[x] <= 1 {
        RescanCount(st, limit, scanned, j, x);
        HeldTail(st.records, n - Min(j, n), x);
      }
    } else {
      var x: Var :| x in scanned && Held(st.records, x) != 0;
      RescanCount(st, limit, scanned, n, x);
      assert st.records[0..] == st.records;
    }
  }

  lemma SoundWhateverTracked(st: FrameState, limit: int, tracked: seq<Var>)
    requires Sound(st, limit)
    ensures Sound(st.(tracked := tracked), limit)
  {
  }

  lemma RescanCount(st: FrameState, limit: int, scanned: seq<Var>, j: nat, x: Var)
    requires limit != 0 && GoodLimit(limit) && Sound(st, limit) && Distinct(scanned)
    ensures multiset(UndoMany(st.(tracked := scanned), limit, j).tracked)[x]
            == Held(st.records[|st.records| - Min(j, |st.records|)..], x) + if x in scanned then 1 else 0
  {
    hide UndoMany, LatestVars, Held, Sound;
    SoundWhateverTracked(st, limit, scanned);
    UndoManyIs(st.(tracked := scanned), limit, j);
    HeldAll(st.records, Min(j, |st.records|), x);
    DistinctCount(scanned, x);
  }
}
