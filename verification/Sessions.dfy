/** Whole sessions on a frame: any sequence of searches, undos and resets, over changing snapshots. */
module Sessions {
  import opened Memory
  import opened FrameSpec
  import opened InitialScan
  import opened Frames
  import opened Searching
  import UndoStack
  import SessionRuns
  import Splice

  /** A search carries the refreshed snapshot, the buffers of the selected regions and the threads per region. */
  datatype Request =
    | Narrow(mem: Snapshot, value: seq<Byte>, regions: seq<Task>, nThreads: nat)
    | UndoNarrow
    | ResetFrame

  ghost predicate Possible(r: Request) {
    r.Narrow? ==> |r.value| >= 1 && r.nThreads < 256 && Within(r.regions, r.mem)
  }

  ghost function Meaning(r: Request): Command
    requires Possible(r)
  {
    match r
    case Narrow(mem, value, regions, nThreads) =>
      Search(mem, value, TasksVars(mem, AllTasks(regions, nThreads), value))
    case UndoNarrow => UndoLast
    case ResetFrame => Command.Reset
  }

  ghost function Meanings(rs: seq<Request>): (cmds: seq<Command>)
    requires forall i | 0 <= i < |rs| :: Possible(rs[i])
    ensures |cmds| == |rs|
  {
    seq(|rs|, i requires 0 <= i < |rs| => Meaning(rs[i]))
  }

  method Obey(frame: NarrowFrame, r: Request)
    requires frame.Valid() && Possible(r)
    modifies frame.repr
    ensures frame.Valid() && fresh(frame.repr - old(frame.repr))
    ensures frame.State() == Step(old(frame.State()), frame.undoDepthLimit, Meaning(r))
    ensures r.Narrow? ==> forall v | v in frame.State().tracked ::
              && (old(frame.State()).tracked == [] ==> v.len == |r.value| % 256)
              && v.address + |r.value| <= |r.mem|
              && forall i | 0 <= i < |r.value| :: r.mem[v.address + i] == r.value[i]
    ensures r.UndoNarrow? ==>
              var st, n := old(frame.State()), |old(frame.State()).records| - 1;
              if frame.undoDepthLimit == 0 || st.depth == 0 || n < 0 then frame.State() == st
              else frame.State().tracked == st.records[n] + st.tracked && frame.State().records == st.records[..n]
    ensures r.ResetFrame? ==>
              frame.State().tracked == [] && frame.State().records == old(frame.State()).records
  {
    hide NarrowFrame.State, TasksVars, AllTasks, Renarrow, Undo, Linked, Chained;
    hide NarrowFrame.RecordOk, NarrowFrame.EndsOk;
    ghost var st := frame.State();
    match r
    case Narrow(mem, value, regions, nThreads) =>
      NarrowMemMap(frame, mem, regions, nThreads, value);
      SearchBytes(st, frame.undoDepthLimit, mem, AllTasks(regions, nThreads), value);
    case UndoNarrow =>
      frame.UndoRenarrow();
      UndoMeans(st, frame.undoDepthLimit);
    case ResetFrame => frame.Reset();
  }

  lemma UndoMeans(st: FrameState, limit: int)
    ensures var t, n := Undo(st, limit), |st.records| - 1;
            if limit == 0 || st.depth == 0 || n < 0 then t == st
            else t.tracked == st.records[n] + st.tracked && t.records == st.records[..n]
  {
  }

  /**
   In every reachable state the pointers are in order (`Valid`: all lists acyclic, of their counted lengths, and
   pairwise without a common variable), and the frame is the one the commands describe; with a limit other
   than 1 it agrees with the journal of the session.
   */
  method Session(limit: int, requests: seq<Request>) returns (frame: NarrowFrame)
    requires forall i | 0 <= i < |requests| :: Possible(requests[i])
    ensures frame.Valid() && frame.undoDepthLimit == limit
    ensures frame.State() == Run(limit, Meanings(requests))
    ensures UndoStack.GoodLimit(limit) ==>
              UndoStack.Agrees(frame.State(), UndoStack.Keep(limit, Meanings(requests)), limit)
    ensures requests != [] && requests[|requests| - 1].Narrow? ==>
              var q := requests[|requests| - 1];
              forall v | v in frame.State().tracked ::
                && v.address + |q.value| <= |q.mem|
                && forall i | 0 <= i < |q.value| :: q.mem[v.address + i] == q.value[i]
    ensures forall v | v in frame.State().tracked :: exists n ::
              && 0 <= n < |requests| && requests[n].Narrow? && v.len == |requests[n].value| % 256
              && v.address + |requests[n].value| <= |requests[n].mem|
              && forall i | 0 <= i < |requests[n].value| :: requests[n].mem[v.address + i] == requests[n].value[i]
  {
    hide NarrowFrame.State, NarrowFrame.Valid, Meaning, Possible, Step, UndoStack.Agrees;
    frame := new NarrowFrame(limit);
    ghost var cmds := Meanings(requests);
    for i := 0 to |requests|
      invariant frame.Valid() && fresh(frame.repr) && frame.undoDepthLimit == limit
      invariant frame.State() == Run(limit, cmds[..i])
    {
      Obey(frame, requests[i]);
      assert cmds[..i + 1][..i] == cmds[..i];
    }
    assert cmds[..|requests|] == cmds;
    if UndoStack.GoodLimit(limit) {
      UndoStack.SessionRefinesUndoStack(limit, cmds);
    }
    LatestSearchBytes(limit, requests);
    TrackedFromScan(limit, requests);
  }

  /** Right after a search all bytes of the value are at every tracked variable. */
  lemma LatestSearchBytes(limit: int, requests: seq<Request>)
    requires forall i | 0 <= i < |requests| :: Possible(requests[i])
    ensures requests != [] && requests[|requests| - 1].Narrow? ==>
              var q := requests[|requests| - 1];
              forall v | v in Run(limit, Meanings(requests)).tracked ::
                && v.address + |q.value| <= |q.mem|
                && forall i | 0 <= i < |q.value| :: q.mem[v.address + i] == q.value[i]
  {
    hide TasksVars, AllTasks, Step;
    if requests != [] && requests[|requests| - 1].Narrow? {
      var q := requests[|requests| - 1];
      var before := Run(limit, Meanings(requests)[..|requests| - 1]);
      SearchBytes(before, limit, q.mem, AllTasks(q.regions, q.nThreads), q.value);
    }
  }

  /** Every tracked variable has the size of a value the session searched for, and once held its bytes. */
  lemma TrackedFromScan(limit: int, requests: seq<Request>)
    requires forall i | 0 <= i < |requests| :: Possible(requests[i])
    ensures forall v | v in Run(limit, Meanings(requests)).tracked :: exists n ::
              && 0 <= n < |requests| && requests[n].Narrow? && v.len == |requests[n].value| % 256
              && v.address + |requests[n].value| <= |requests[n].mem|
              && forall i | 0 <= i < |requests[n].value| :: requests[n].mem[v.address + i] == requests[n].value[i]
  {
    hide TasksVars, AllTasks, Run;
    var cmds := Meanings(requests);
    forall v | v in Run(limit, cmds).tracked
      ensures exists n ::
                && 0 <= n < |requests| && requests[n].Narrow? && v.len == |requests[n].value| % 256
                && v.address + |requests[n].value| <= |requests[n].mem|
                && forall i | 0 <= i < |requests[n].value| :: requests[n].mem[v.address + i] == requests[n].value[i]
    {
      SessionRuns.AllScanned(limit, cmds, v);
      var n :| 0 <= n < |cmds| && cmds[n].Search? && v in cmds[n].scanned;
      var q := requests[n];
      assert cmds[n] == Meaning(q) && q.Narrow?;
      TasksVarsBytes(q.mem, AllTasks(q.regions, q.nThreads), q.value);
    }
  }

  // ---------------------------------------------------------------- threads in any interleaving

  /** `scanned` is what the interleaving `run` of the scan's threads leaves in the frame. */
  ghost predicate DeliveredBy(mem: Snapshot, tasks: seq<Task>, value: seq<Byte>, scanned: seq<Var>,
                              init: Splice.State, run: seq<Splice.Action>)
    requires |value| >= 1
  {
    var c := Workers(mem, tasks, value);
    && Splice.RunsToEnd(c, init, run)
    && Splice.Known(c, Splice.Exec(c, init, run).order)
    && scanned == HitVars(Splice.Contents(c, Splice.Exec(c, init, run).order), value)
  }

  /** A command that carries out the request under some interleaving of its threads. */
  ghost predicate Carries(r: Request, cmd: Command)
    requires Possible(r)
  {
    match r
    case Narrow(mem, value, regions, nThreads) =>
      && PairwiseApart(regions)
      && cmd.Search? && cmd.mem == mem && cmd.value == value
      && exists init: Splice.State, run: seq<Splice.Action> ::
           DeliveredBy(mem, AllTasks(regions, nThreads), value, cmd.scanned, init, run)
    case _ => cmd == Meaning(r)
  }

  lemma CarriesSame(r: Request, cmd: Command)
    requires Possible(r) && Carries(r, cmd)
    ensures SessionRuns.SameCommand(Meaning(r), cmd)
  {
    hide TasksVars, HitVars, Workers, AllTasks, PairwiseApart, Splice.RunsToEnd, Splice.Exec, Splice.Contents;
    if r.Narrow? {
      var init: Splice.State, run: seq<Splice.Action> :|
        DeliveredBy(r.mem, AllTasks(r.regions, r.nThreads), r.value, cmd.scanned, init, run);
      ThreadedIsSequential(r.mem, r.regions, r.nThreads, r.value, init, run);
    }
  }

  /**
   Whatever the interleaving of every scan of a session, the lists of the frame are those `Session` computes with
   its threads one after the other, up to order.
   */
  lemma SessionAnyInterleaving(limit: int, requests: seq<Request>, cmds: seq<Command>)
    requires forall i | 0 <= i < |requests| :: Possible(requests[i])
    requires |cmds| == |requests| && forall i | 0 <= i < |requests| :: Carries(requests[i], cmds[i])
    ensures SessionRuns.SameLists(Run(limit, Meanings(requests)), Run(limit, cmds))
  {
    hide Possible, Carries, Meaning, SessionRuns.SameCommand;
    forall i | 0 <= i < |requests| ensures SessionRuns.SameCommand(Meanings(requests)[i], cmds[i]) {
      CarriesSame(requests[i], cmds[i]);
    }
    SessionRuns.ScanOrderIrrelevant(limit, Meanings(requests), cmds);
  }
}
