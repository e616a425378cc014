/** A schedule in which the splicing workers fail as often as they possibly can. */
module Contention {
  import opened Memory
  import opened Splice

  /** Worker w has read a head into its last->next: the current one or an older one. */
  ghost predicate Holding(c: Config, s: State, w: nat, current: bool)
    requires w < |c.segs|
  {
    && c.segs[w] != [] && w < |s.phase| && s.phase[w] == Trying
    && Last(c, w) in s.next && (s.next[Last(c, w)] == s.head <==> current)
  }

  ghost predicate Sized(c: Config, s: State) {
    |s.phase| == |s.seen| == |s.failures| == |c.segs|
  }

  /** The first j workers have read the head, the others have not started. */
  ghost predicate Loaded(c: Config, s: State, j: nat) {
    && Sized(c, s) && s.failed == 0
    && (forall w | 0 <= w < |c.segs| && w < j :: Holding(c, s, w, true))
    && (forall w | j <= w < |c.segs| :: s.phase[w] == Ready)
  }

  /** k workers have spliced in turn; of the rest those below j have since failed once more. */
  ghost predicate Round(c: Config, s: State, k: nat, j: nat) {
    && Sized(c, s) && k <= j
    && (forall w | k <= w < |c.segs| && w < j :: Holding(c, s, w, true))
    && (forall w | j <= w < |c.segs| :: Holding(c, s, w, false))
  }

  lemma Extend(c: Config, init: State, run: seq<Action>, a: Action)
    requires Feasible(c, init, run) && Enabled(c, Exec(c, init, run), a)
    ensures Feasible(c, init, run + [a])
    ensures Exec(c, init, run + [a]) == Apply(c, Exec(c, init, run), a)
  {
    assert (run + [a])[..|run|] == run;
  }

  lemma LoadNext(c: Config, s: State, j: nat)
    requires ValidConfig(c) && j < |c.segs| && c.segs[j] != [] && Loaded(c, s, j)
    ensures Enabled(c, s, Load(j)) && Loaded(c, Apply(c, s, Load(j)), j + 1)
  {
    hide ValidConfig, Distinct, Path;
    LastsDiffer(c);
    forall w | 0 <= w < |c.segs| && w < j + 1 ensures Holding(c, Apply(c, s, Load(j)), w, true) {
      assert w < j ==> Holding(c, s, w, true);
    }
  }

  /** The spliced list starts with a node no worker has seen at the head before, so every other worker is outdated. */
  lemma SpliceNext(c: Config, s: State, k: nat)
    requires ValidConfig(c) && OrderOk(c, s) && s.head == First(Contents(c, s.order))
    requires k < |c.segs| && Round(c, s, k, |c.segs|)
    ensures Enabled(c, s, Cas(k))
    ensures var t := Apply(c, s, Cas(k)); Round(c, t, k + 1, k + 1) && t.failed == s.failed
  {
    hide ValidConfig, Distinct, Path, Contents;
    assert Holding(c, s, k, true);
    NewHead(c, s, k);
    var t := Apply(c, s, Cas(k));
    forall w | k < w < |c.segs| ensures Holding(c, t, w, false) {
      assert Holding(c, s, w, true);
    }
  }

  lemma NewHead(c: Config, s: State, k: nat)
    requires ValidConfig(c) && OrderOk(c, s) && k < |c.segs| && Private(c, s, k)
    ensures First(c.segs[k]) != First(Contents(c, s.order))
  {
    var x := c.segs[k][0];
    ContentsMember(c, s.order, x);
    assert Disjoint(c.segs[k], c.initial);
    assert forall w | 0 <= w < |c.segs| && w != k :: Disjoint(c.segs[k], c.segs[w]);
  }

  lemma FailNext(c: Config, s: State, k: nat, j: nat)
    requires ValidConfig(c) && k <= j < |c.segs| && Round(c, s, k, j)
    ensures Enabled(c, s, Cas(j))
    ensures var t := Apply(c, s, Cas(j)); Round(c, t, k, j + 1) && t.failed == s.failed + 1
  {
    hide ValidConfig, Distinct, Path;
    LastsDiffer(c);
    assert Holding(c, s, j, false);
    var t := Apply(c, s, Cas(j));
    forall w | k <= w < |c.segs| && w < j + 1 ensures Holding(c, t, w, true) {
      assert w < j ==> Holding(c, s, w, true);
    }
    forall w | j + 1 <= w < |c.segs| ensures Holding(c, t, w, false) {
      assert Holding(c, s, w, false);
    }
  }

  ghost predicate AllBusy(c: Config) {
    forall w | 0 <= w < |c.segs| :: c.segs[w] != []
  }

  lemma {:induction false} LoadRun(c: Config, init: State, j: nat) returns (run: seq<Action>)
    requires ValidConfig(c) && Initial(c, init) && AllBusy(c) && j <= |c.segs|
    ensures Feasible(c, init, run) && Loaded(c, Exec(c, init, run), j)
  {
    hide ValidConfig, Path, Loaded;
    if j == 0 {
      run := [];
      StartsLoaded(c, init);
    } else {
      run := LoadRun(c, init, j - 1);
      LoadNext(c, Exec(c, init, run), j - 1);
      Extend(c, init, run, Load(j - 1));
      run := run + [Load(j - 1)];
    }
  }

  lemma StartsLoaded(c: Config, init: State)
    requires Initial(c, init) && AllBusy(c)
    ensures Loaded(c, init, 0)
  {
  }

  lemma LoadedIsRound(c: Config, s: State)
    requires Loaded(c, s, |c.segs|)
    ensures Round(c, s, 0, |c.segs|) && s.failed == 0
  {
  }

  /** `run` leads to round k, where the workers below j have failed again, with every possible failure so far. */
  ghost predicate Reaches(c: Config, init: State, run: seq<Action>, k: nat, j: nat) {
    && Feasible(c, init, run) && Round(c, Exec(c, init, run), k, j)
    && Exec(c, init, run).failed == if k == 0 then 0 else Quota(|c.segs|, k - 1) + j - k
  }

  lemma FirstRound(c: Config, init: State, run: seq<Action>)
    requires Feasible(c, init, run) && Loaded(c, Exec(c, init, run), |c.segs|)
    ensures Reaches(c, init, run, 0, |c.segs|)
  {
    LoadedIsRound(c, Exec(c, init, run));
  }

  lemma NextRound(c: Config, init: State, run: seq<Action>, k: nat)
    requires ValidConfig(c) && Initial(c, init) && k < |c.segs| && Reaches(c, init, run, k, |c.segs|)
    ensures Reaches(c, init, run + [Cas(k)], k + 1, k + 1)
  {
    hide ValidConfig, Path, Round, Initial, Contents, Distinct, Sum;
    SharedListSafe(c, init, run);
    SpliceNext(c, Exec(c, init, run), k);
    Extend(c, init, run, Cas(k));
  }

  lemma SameRound(c: Config, init: State, run: seq<Action>, k: nat, j: nat)
    requires ValidConfig(c) && 1 <= k <= j < |c.segs| && Reaches(c, init, run, k, j)
    ensures Reaches(c, init, run + [Cas(j)], k, j + 1)
  {
    hide ValidConfig, Path, Round, Quota;
    FailNext(c, Exec(c, init, run), k, j);
    Extend(c, init, run, Cas(j));
  }

  lemma {:induction false} RoundRun(c: Config, init: State, k: nat, j: nat) returns (run: seq<Action>)
    requires ValidConfig(c) && Initial(c, init) && AllBusy(c) && k <= j <= |c.segs| && (k == 0 ==> j == |c.segs|)
    ensures Reaches(c, init, run, k, j)
    decreases k, j
  {
    hide ValidConfig, Initial, AllBusy, Loaded, Feasible, Exec, Reaches;
    if k == 0 {
      run := LoadRun(c, init, j);
      FirstRound(c, init, run);
    } else if j == k {
      var before := RoundRun(c, init, k - 1, |c.segs|);
      NextRound(c, init, before, k - 1);
      run := before + [Cas(k - 1)];
    } else {
      var before := RoundRun(c, init, k, j - 1);
      SameRound(c, init, before, k, j - 1);
      run := before + [Cas(j - 1)];
    }
  }

  /** The bound on failed exchanges is attained by every set of workers that all found something. */
  lemma FailureBoundTight(c: Config, init: State)
    requires ValidConfig(c) && Initial(c, init) && AllBusy(c)
    ensures exists run: seq<Action> :: Feasible(c, init, run)
              && 2 * Exec(c, init, run).failed == |c.segs| * (|c.segs| - 1)
  {
    hide ValidConfig, Round, Initial, Exec, Feasible;
    var n := |c.segs|;
    var run := RoundRun(c, init, n, n);
    QuotaTotal(n);
    assert Feasible(c, init, run) && 2 * Exec(c, init, run).failed == n * (n - 1);
  }
}
