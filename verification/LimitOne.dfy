/** A depth limit of one: the recycled record loses the chain, and undoing then brings back too much. */
module LimitOne {
  import opened Memory
  import opened FrameSpec
  import opened UndoStack

  // ---------------------------------------------------------------- steps at limit one

  /** A search, from each history a limit of one leads to. */
  lemma SearchSteps(s: seq<Var>, mem: Snapshot, value: seq<Byte>, x: seq<Var>)
    requires s != []
    ensures var kept, removed, search := Kept(s, mem, value), Unlinked(s, mem, value), Search(mem, value, []);
            && Step(FrameState(s, [], false, 0), 1, search) == FrameState(kept, [removed], true, 1)
            && Step(FrameState(s, [x], true, 1), 1, search) == FrameState(kept, [removed], false, 1)
            && Step(FrameState(s, [x], false, 1), 1, search) == FrameState(kept, [removed], true, 2)
            && Step(FrameState(s, [x], true, 2), 1, search) == FrameState(kept, [x, removed], true, 3)
  {
    hide Kept, Unlinked;
  }

  lemma UndoSteps(s: seq<Var>, x: seq<Var>)
    ensures Step(FrameState(s, [x, []], true, 3), 1, UndoLast) == FrameState(s, [x], true, 2)
    ensures Step(FrameState(s, [x], true, 2), 1, UndoLast) == FrameState(x + s, [], false, 1)
  {
    assert [] + s == s;
  }

  // ---------------------------------------------------------------- a session

  /** A scan of v and w, two searches that keep both, two that keep only v, two undos. */
  function Session(v: Var, w: Var, both: Snapshot, one: Snapshot, value: seq<Byte>): seq<Command> {
    [Search(both, value, [v, w]), Search(both, value, []), Search(both, value, []), Search(one, value, []),
     Search(one, value, []), UndoLast, UndoLast]
  }

  /** The frame after n commands. */
  function After(v: Var, w: Var, n: nat): FrameState {
    if n == 0 then EMPTY
    else if n == 1 then FrameState([v, w], [], false, 0)
    else if n == 2 then FrameState([v, w], [[]], true, 1)
    else if n == 3 then FrameState([v, w], [[]], false, 1)
    else if n == 4 then FrameState([v], [[w]], true, 2)
    else if n == 5 then FrameState([v], [[w], []], true, 3)
    else if n == 6 then FrameState([v], [[w]], true, 2)
    else FrameState([w, v], [], false, 1)
  }

  /** What the journal accounts for after n commands. */
  function Accounted(v: Var, w: Var, both: Snapshot, one: Snapshot, value: seq<Byte>, n: nat): Journal {
    var a, b := Narrowed(both, value), Narrowed(one, value);
    if n == 0 then Journal([], 0)
    else if n == 1 then Journal([Scanned([v, w])], 0)
    else if n == 2 then Journal([Scanned([v, w]), a], 1)
    else if n == 3 then Journal([Scanned([v, w]), a, a], 1)
    else if n == 5 then Journal([Scanned([v, w]), a, a, b, b], 1)
    else Journal([Scanned([v, w]), a, a, b], if n == 4 then 1 else 0)
  }

  /** Both are found in one snapshot, only v in the other. */
  predicate Setting(v: Var, w: Var, both: Snapshot, one: Snapshot, value: seq<Byte>) {
    Hit(v, both, value) && Hit(w, both, value) && Hit(v, one, value) && !Hit(w, one, value)
  }

  lemma StepAfter(v: Var, w: Var, both: Snapshot, one: Snapshot, value: seq<Byte>, n: nat)
    requires Setting(v, w, both, one, value) && n < 7
    ensures Step(After(v, w, n), 1, Session(v, w, both, one, value)[n]) == After(v, w, n + 1)
  {
    hide Kept, Unlinked, OccursAt, Hit, Renarrow, Undo;
    FilterTwo(v, w, both, value);
    FilterTwo(v, w, one, value);
    FilterOne(v, one, value);
    assert Kept([v, w], both, value) == [v, w] && Unlinked([v, w], both, value) == [];
    assert Kept([v, w], one, value) == [v] && Unlinked([v, w], one, value) == [w];
    assert Session(v, w, both, one, value)[n] == if n == 0 then Search(both, value, [v, w])
                                                 else if n < 3 then Search(both, value, [])
                                                 else if n < 5 then Search(one, value, []) else UndoLast;
    if n == 0 {
    } else if n < 4 {
      SearchSteps([v, w], if n < 3 then both else one, value, []);
    } else if n == 4 {
      SearchSteps([v], one, value, [w]);
    } else {
      UndoSteps([v], [w]);
    }
  }

  lemma StepAccounted(v: Var, w: Var, both: Snapshot, one: Snapshot, value: seq<Byte>, n: nat)
    requires n < 7
    ensures JournalStep(Accounted(v, w, both, one, value, n), After(v, w, n), 1, Session(v, w, both, one, value)[n])
            == Accounted(v, w, both, one, value, n + 1)
  {
  }

  lemma {:induction false} RunIs(v: Var, w: Var, both: Snapshot, one: Snapshot, value: seq<Byte>, n: nat)
    requires Setting(v, w, both, one, value) && n <= 7
    ensures Run(1, Session(v, w, both, one, value)[..n]) == After(v, w, n)
    ensures Keep(1, Session(v, w, both, one, value)[..n]) == Accounted(v, w, both, one, value, n)
  {
    hide Step, JournalStep, After, Accounted, Setting;
    var cmds := Session(v, w, both, one, value);
    if n == 0 {
      Starts(v, w, both, one, value);
    } else {
      RunIs(v, w, both, one, value, n - 1);
      StepAfter(v, w, both, one, value, n - 1);
      StepAccounted(v, w, both, one, value, n - 1);
      assert cmds[..n][..n - 1] == cmds[..n - 1];
    }
  }

  lemma Starts(v: Var, w: Var, both: Snapshot, one: Snapshot, value: seq<Byte>)
    ensures After(v, w, 0) == EMPTY && Accounted(v, w, both, one, value, 0) == Journal([], 0)
  {
  }

  /** Only one search could be undone, but the second undo brings w back. */
  lemma UndoneTooFar(v: Var, w: Var, both: Snapshot, one: Snapshot, value: seq<Byte>)
    requires Setting(v, w, both, one, value)
    ensures var cmds := Session(v, w, both, one, value);
            && Run(1, cmds).tracked == [w, v]
            && Count(Keep(1, cmds).events, w) == 0
  {
    hide Run, Keep;
    var cmds := Session(v, w, both, one, value);
    RunIs(v, w, both, one, value, 7);
    assert cmds[..7] == cmds;
  }

  lemma SomeSetting()
    ensures Setting(Var(0, 1), Var(1, 1), [0, 0], [0, 1], [0])
  {
    var both: Snapshot, one: Snapshot := [0, 0], [0, 1];
    assert both[0..1] == [0] && both[1..2] == [0] && one[0..1] == [0] && one[1..2][0] == 1;
  }

  /** Every variable is tracked as often as the journal accounts for. */
  ghost predicate CountsAgree(limit: int, cmds: seq<Command>) {
    forall x: Var :: multiset(Run(limit, cmds).tracked)[x] == Count(Keep(limit, cmds).events, x)
  }

  /** Over all sessions what is tracked is what the journal accounts for, exactly when the limit is not one. */
  lemma CountsAgreeIff(limit: int)
    ensures (forall cmds: seq<Command> :: CountsAgree(limit, cmds)) <==> GoodLimit(limit)
  {
    hide Run, Keep, Count, RecordsMatch, Sound, Setting, Session;
    if GoodLimit(limit) {
      forall cmds: seq<Command> ensures CountsAgree(limit, cmds) {
        SessionRefinesUndoStack(limit, cmds);
      }
    } else {
      SomeSetting();
      var v, w := Var(0, 1), Var(1, 1);
      var cmds := Session(v, w, [0, 0], [0, 1], [0]);
      UndoneTooFar(v, w, [0, 0], [0, 1], [0]);
      assert multiset(Run(1, cmds).tracked)[w] == 1;
      assert !CountsAgree(limit, cmds);
    }
  }
}
