/**
 Worker threads splicing their private lists onto the shared head with a compare-and-swap retry loop, and adding to
 the shared counter in a separate atomic step. Every interleaving of any number of workers is a sequence of actions.
 */
module Splice {
  import opened Memory

  type NodeId = nat

  datatype Ptr = Null | To(node: NodeId)

  // Ready: list built, shared head not read. Trying: head read into last->next. Spliced: list published, count owed.
  datatype Phase = Ready | Trying | Spliced | Done

  /** The list before the workers start, and each worker's private list (empty: it found nothing). */
  datatype Config = Config(initial: seq<NodeId>, segs: seq<seq<NodeId>>)

  /**
   Shared head, every node's next pointer, the counter, and where each worker is. `order`, `seen` and the two
   failure counters only record the run: who spliced when, and how many splices a worker had seen at its last read.
   */
  datatype State = State(
    head: Ptr,
    next: map<NodeId, Ptr>,
    nTracked: int,
    phase: seq<Phase>,
    order: seq<nat>,
    seen: seq<nat>,
    failures: seq<nat>,
    failed: nat
  )

  datatype Action = Load(w: nat) | Cas(w: nat) | Add(w: nat)

  // ---------------------------------------------------------------- configurations

  function First(nodes: seq<NodeId>): Ptr {
    if nodes == [] then Null else To(nodes[0])
  }

  /** `next` spells out `nodes` behind `head`, ending in `tail`. */
  ghost predicate Path(next: map<NodeId, Ptr>, nodes: seq<NodeId>, tail: Ptr) {
    forall i {:trigger nodes[i]} | 0 <= i < |nodes| ::
      nodes[i] in next && next[nodes[i]] == if i < |nodes| - 1 then To(nodes[i + 1]) else tail
  }

  ghost predicate Disjoint(a: seq<NodeId>, b: seq<NodeId>) {
    forall x | x in a :: x !in b
  }

  ghost predicate ValidConfig(c: Config) {
    && Distinct(c.initial)
    && (forall w | 0 <= w < |c.segs| :: Distinct(c.segs[w]) && Disjoint(c.segs[w], c.initial))
    && (forall v, w | 0 <= v < |c.segs| && 0 <= w < |c.segs| && v != w :: Disjoint(c.segs[v], c.segs[w]))
  }

  predicate Known(c: Config, order: seq<nat>) {
    forall i | 0 <= i < |order| :: order[i] < |c.segs|
  }

  /** The shared list once the workers in `order` have spliced: their lists, latest first, above the initial one. */
  function Contents(c: Config, order: seq<nat>): seq<NodeId>
    requires Known(c, order)
  {
    if order == [] then c.initial else c.segs[order[|order| - 1]] + Contents(c, order[..|order| - 1])
  }

  ghost predicate Initial(c: Config, s: State) {
    var n := |c.segs|;
    && s.head == First(c.initial)
    && Path(s.next, c.initial, Null)
    && (forall w {:trigger c.segs[w]} | 0 <= w < n :: Path(s.next, c.segs[w], Null))
    && s.nTracked == |c.initial|
    && |s.phase| == |s.seen| == |s.failures| == n
    && (forall w | 0 <= w < n :: s.phase[w] == if c.segs[w] == [] then Done else Ready)
    && (forall w | 0 <= w < n :: s.seen[w] == 0 && s.failures[w] == 0)
    && s.order == [] && s.failed == 0
  }

  // ---------------------------------------------------------------- steps

  predicate Enabled(c: Config, s: State, a: Action) {
    && a.w < |s.phase| && a.w < |c.segs| && c.segs[a.w] != [] && |s.seen| == |s.failures| == |s.phase|
    && match a
       case Load(w) => s.phase[w] == Ready
       case Cas(w) => s.phase[w] == Trying && Last(c, w) in s.next
       case Add(w) => s.phase[w] == Spliced
  }

  function Last(c: Config, w: nat): NodeId
    requires w < |c.segs| && c.segs[w] != []
  {
    c.segs[w][|c.segs[w]| - 1]
  }

  function Apply(c: Config, s: State, a: Action): State
    requires Enabled(c, s, a)
  {
    match a
    case Load(w) =>
      s.(next := s.next[Last(c, w) := s.head], phase := s.phase[w := Trying], seen := s.seen[w := |s.order|])
    case Cas(w) =>
      if s.head == s.next[Last(c, w)] then
        s.(head := First(c.segs[w]), phase := s.phase[w := Spliced], order := s.order + [w])
      else
        // A failed exchange stores the current head into last->next.
        s.(next := s.next[Last(c, w) := s.head], seen := s.seen[w := |s.order|],
           failures := s.failures[w := s.failures[w] + 1], failed := s.failed + 1)
    case Add(w) =>
      s.(nTracked := s.nTracked + |c.segs[w]|, phase := s.phase[w := Done])
  }

  /** The interleaving `run` can happen. */
  predicate Feasible(c: Config, init: State, run: seq<Action>)
    decreases |run|, 0
  {
    run == [] || (var n := |run| - 1;
                  Feasible(c, init, run[..n]) && Enabled(c, Exec(c, init, run[..n]), run[n]))
  }

  function Exec(c: Config, init: State, run: seq<Action>): State
    requires Feasible(c, init, run)
    decreases |run|, 1
  {
    if run == [] then init else
      var n := |run| - 1;
      Apply(c, Exec(c, init, run[..n]), run[n])
  }

  // ---------------------------------------------------------------- invariant: who has spliced

  predicate Private(c: Config, s: State, w: nat)
    requires w < |c.segs| && w < |s.phase|
  {
    c.segs[w] != [] && s.phase[w] in {Ready, Trying}
  }

  ghost predicate OrderOk(c: Config, s: State) {
    && |s.phase| == |s.seen| == |s.failures| == |c.segs|
    && Distinct(s.order)
    && Known(c, s.order)
    && (forall w {:trigger s.phase[w]} {:trigger c.segs[w]} | 0 <= w < |c.segs| ::
          w in s.order <==> c.segs[w] != [] && s.phase[w] in {Spliced, Done})
    && (forall w | 0 <= w < |c.segs| && c.segs[w] == [] :: s.phase[w] == Done)
  }

  lemma OrderStep(c: Config, s: State, a: Action)
    requires OrderOk(c, s) && Enabled(c, s, a)
    ensures OrderOk(c, Apply(c, s, a))
  {
  }

  // ---------------------------------------------------------------- invariant: the shared list

  lemma {:induction false} ContentsMember(c: Config, order: seq<nat>, x: NodeId)
    requires Known(c, order)
    ensures x in Contents(c, order) <==> x in c.initial || exists w :: w in order && x in c.segs[w]
  {
    if order != [] {
      var n := |order| - 1;
      ContentsMember(c, order[..n], x);
      assert forall w :: w in order <==> w in order[..n] || w == order[n];
    }
  }

  lemma {:induction false} ContentsDistinct(c: Config, order: seq<nat>)
    requires ValidConfig(c) && Distinct(order)
    requires Known(c, order)
    ensures Distinct(Contents(c, order))
  {
    if order != [] {
      var n := |order| - 1;
      ContentsDistinct(c, order[..n]);
      var seg := c.segs[order[n]];
      forall x | x in seg ensures x !in Contents(c, order[..n]) {
        ContentsMember(c, order[..n], x);
        assert Disjoint(seg, c.initial);
        assert forall w | w in order[..n] :: Disjoint(seg, c.segs[w]);
      }
      DistinctConcat(seg, Contents(c, order[..n]));
    }
  }

  lemma PathJoin(next: map<NodeId, Ptr>, a: seq<NodeId>, b: seq<NodeId>)
    requires Path(next, a, First(b)) && Path(next, b, Null)
    ensures Path(next, a + b, Null)
  {
  }

  lemma PathKept(next: map<NodeId, Ptr>, nodes: seq<NodeId>, tail: Ptr, x: NodeId, p: Ptr)
    requires Path(next, nodes, tail) && x !in nodes
    ensures Path(next[x := p], nodes, tail)
  {
  }

  ghost predicate SharedOk(c: Config, s: State)
    requires Known(c, s.order)
  {
    s.head == First(Contents(c, s.order)) && Path(s.next, Contents(c, s.order), Null)
  }

  ghost predicate PrivateOk(c: Config, s: State)
    requires |s.phase| == |c.segs|
  {
    forall w {:trigger c.segs[w]} | 0 <= w < |c.segs| && Private(c, s, w) ::
         Last(c, w) in s.next && Path(s.next, c.segs[w], s.next[Last(c, w)])
  }

  ghost predicate ListOk(c: Config, s: State)
    requires OrderOk(c, s)
  {
    SharedOk(c, s) && PrivateOk(c, s)
  }

  lemma PrivateApart(c: Config, s: State, w: nat)
    requires ValidConfig(c) && OrderOk(c, s) && w < |c.segs| && Private(c, s, w)
    ensures Last(c, w) !in Contents(c, s.order)
    ensures forall v | 0 <= v < |c.segs| && v != w :: Last(c, w) !in c.segs[v]
  {
    ContentsMember(c, s.order, Last(c, w));
    assert Last(c, w) in c.segs[w];
    assert Disjoint(c.segs[w], c.initial);
    forall v | 0 <= v < |c.segs| && v != w ensures Last(c, w) !in c.segs[v] {
      assert Disjoint(c.segs[w], c.segs[v]);
    }
  }

  /** Storing `p` into the private last->next keeps every other list. */
  lemma StoreLast(c: Config, s: State, w: nat, p: Ptr, t: State)
    requires ValidConfig(c) && OrderOk(c, s) && ListOk(c, s) && OrderOk(c, t)
    requires w < |c.segs| && Private(c, s, w)
    requires t.next == s.next[Last(c, w) := p] && t.head == s.head && t.order == s.order
    requires forall v | 0 <= v < |c.segs| :: Private(c, t, v) ==> Private(c, s, v)
    ensures ListOk(c, t)
  {
    PrivateApart(c, s, w);
    PathKept(s.next, Contents(c, s.order), Null, Last(c, w), p);
    forall v {:trigger c.segs[v]} | 0 <= v < |c.segs| && Private(c, t, v)
      ensures Last(c, v) in t.next && Path(t.next, c.segs[v], t.next[Last(c, v)])
    {
      if v != w {
        PathKept(s.next, c.segs[v], s.next[Last(c, v)], Last(c, w), p);
        assert Last(c, v) in c.segs[v];
        assert Disjoint(c.segs[v], c.segs[w]);
      } else {
        LastOnce(c, w);
      }
    }
  }

  lemma LastOnce(c: Config, w: nat)
    requires ValidConfig(c) && w < |c.segs| && c.segs[w] != []
    ensures forall i | 0 <= i < |c.segs[w]| - 1 :: c.segs[w][i] != Last(c, w)
  {
    assert Distinct(c.segs[w]);
  }

  lemma ContentsPush(c: Config, order: seq<nat>, w: nat)
    requires Known(c, order) && w < |c.segs|
    ensures Known(c, order + [w])
    ensures Contents(c, order + [w]) == c.segs[w] + Contents(c, order)
  {
    assert (order + [w])[..|order|] == order;
  }

  /** A successful exchange publishes the worker's list above the shared one. */
  lemma PublishShared(c: Config, s: State, w: nat)
    requires Known(c, s.order) && |s.phase| == |c.segs| && SharedOk(c, s) && PrivateOk(c, s)
    requires Enabled(c, s, Cas(w)) && s.head == s.next[Last(c, w)]
    ensures Known(c, Apply(c, s, Cas(w)).order) && SharedOk(c, Apply(c, s, Cas(w)))
  {
    assert Private(c, s, w) && Path(s.next, c.segs[w], s.head);
    ContentsPush(c, s.order, w);
    PathJoin(s.next, c.segs[w], Contents(c, s.order));
  }

  lemma PublishPrivate(c: Config, s: State, w: nat)
    requires |s.phase| == |c.segs| && PrivateOk(c, s)
    requires Enabled(c, s, Cas(w)) && s.head == s.next[Last(c, w)]
    ensures PrivateOk(c, Apply(c, s, Cas(w)))
  {
    hide Path;
    assert forall v | 0 <= v < |c.segs| :: Private(c, Apply(c, s, Cas(w)), v) ==> Private(c, s, v);
  }

  lemma ListStep(c: Config, s: State, a: Action)
    requires ValidConfig(c) && OrderOk(c, s) && ListOk(c, s) && Enabled(c, s, a)
    ensures OrderOk(c, Apply(c, s, a)) && ListOk(c, Apply(c, s, a))
  {
    hide Distinct, ValidConfig, Path;
    OrderStep(c, s, a);
    var t, w := Apply(c, s, a), a.w;
    if a.Add? {
      assert forall v | 0 <= v < |c.segs| :: Private(c, t, v) ==> Private(c, s, v);
    } else if a.Cas? && s.head == s.next[Last(c, w)] {
      PublishShared(c, s, w);
      PublishPrivate(c, s, w);
    } else {
      assert forall v | 0 <= v < |c.segs| :: Private(c, t, v) ==> Private(c, s, v);
      StoreLast(c, s, w, s.head, t);
    }
  }

  // ---------------------------------------------------------------- invariant: what a trying worker has seen

  ghost predicate SeenCounts(c: Config, s: State)
    requires OrderOk(c, s)
  {
    forall w {:trigger s.seen[w]} {:trigger s.failures[w]} | 0 <= w < |c.segs| ::
      && s.failures[w] <= s.seen[w] <= |s.order|
      && (s.phase[w] == Ready || c.segs[w] == [] ==> s.failures[w] == 0)
      && (w in s.order ==> s.seen[w] < |s.order|)
  }

  /** Worker w's last->next is the head as of its last read. */
  ghost predicate SawHead(c: Config, s: State, w: nat)
    requires OrderOk(c, s) && w < |c.segs| && s.seen[w] <= |s.order|
  {
    && c.segs[w] != [] && Last(c, w) in s.next
    && s.next[Last(c, w)] == First(Contents(c, s.order[..s.seen[w]]))
  }

  /** A trying worker's last->next is the head as of its last read; it failed at most once per splice seen. */
  ghost predicate SeenOk(c: Config, s: State)
    requires OrderOk(c, s)
  {
    SeenCounts(c, s) && forall w | 0 <= w < |c.segs| && s.phase[w] == Trying :: SawHead(c, s, w)
  }

  /** An exchange fails only if another worker has spliced since the last read. */
  lemma FailureSeesMore(c: Config, s: State, w: nat)
    requires OrderOk(c, s) && ListOk(c, s) && SeenOk(c, s) && Enabled(c, s, Cas(w))
    requires s.head != s.next[Last(c, w)]
    ensures s.seen[w] < |s.order|
  {
    hide Path, Distinct;
    assert SawHead(c, s, w);
    assert s.order[..|s.order|] == s.order;
  }

  lemma SeenCountsStep(c: Config, s: State, a: Action)
    requires OrderOk(c, s) && SeenCounts(c, s) && Enabled(c, s, a) && OrderOk(c, Apply(c, s, a))
    requires a.Cas? && s.head != s.next[Last(c, a.w)] ==> s.seen[a.w] < |s.order|
    ensures SeenCounts(c, Apply(c, s, a))
  {
    hide Distinct, Known;
  }

  lemma SawHeadKept(c: Config, s: State, a: Action, v: nat)
    requires ValidConfig(c) && OrderOk(c, s) && Enabled(c, s, a) && OrderOk(c, Apply(c, s, a))
    requires SeenCounts(c, s) && v < |c.segs| && v != a.w && SawHead(c, s, v)
    ensures SawHead(c, Apply(c, s, a), v)
  {
    hide Distinct, Known, Contents, ValidConfig;
    LastsDiffer(c);
    assert Apply(c, s, a).order[..s.seen[v]] == s.order[..s.seen[v]];
  }

  lemma SawHeadNow(c: Config, s: State, a: Action)
    requires OrderOk(c, s) && ListOk(c, s) && Enabled(c, s, a) && OrderOk(c, Apply(c, s, a))
    requires Apply(c, s, a).phase[a.w] == Trying
    ensures SawHead(c, Apply(c, s, a), a.w)
  {
    hide Distinct, Known, Path;
    assert s.order[..|s.order|] == s.order;
  }

  lemma SeenStep(c: Config, s: State, a: Action)
    requires ValidConfig(c) && OrderOk(c, s) && ListOk(c, s) && SeenOk(c, s) && Enabled(c, s, a)
    ensures OrderOk(c, Apply(c, s, a)) && SeenOk(c, Apply(c, s, a))
    ensures a.Cas? && Apply(c, s, a).failed > s.failed ==> s.failures[a.w] < |s.order|
  {
    hide Distinct, ValidConfig, Path, ListOk, Contents, SawHead, Known;
    OrderStep(c, s, a);
    var t := Apply(c, s, a);
    if a.Cas? && s.head != s.next[Last(c, a.w)] {
      FailureSeesMore(c, s, a.w);
    }
    SeenCountsStep(c, s, a);
    forall v | 0 <= v < |c.segs| && t.phase[v] == Trying ensures SawHead(c, t, v) {
      if v == a.w {
        SawHeadNow(c, s, a);
      } else {
        SawHeadKept(c, s, a, v);
      }
    }
  }

  lemma LastsDiffer(c: Config)
    requires ValidConfig(c)
    ensures forall v, w | 0 <= v < |c.segs| && 0 <= w < |c.segs| && v != w && c.segs[v] != [] && c.segs[w] != [] ::
              Last(c, v) != Last(c, w)
  {
    forall v, w | 0 <= v < |c.segs| && 0 <= w < |c.segs| && v != w && c.segs[v] != [] && c.segs[w] != []
      ensures Last(c, v) != Last(c, w)
    {
      assert Last(c, v) in c.segs[v] && Last(c, w) in c.segs[w];
      assert Disjoint(c.segs[v], c.segs[w]);
    }
  }

  // ---------------------------------------------------------------- sums over the workers

  function Sum(terms: seq<int>): int {
    if terms == [] then 0 else Sum(terms[..|terms| - 1]) + terms[|terms| - 1]
  }

  lemma {:induction false} SumUpdate(terms: seq<int>, w: nat, v: int)
    requires w < |terms|
    ensures Sum(terms[w := v]) == Sum(terms) - terms[w] + v
  {
    var n := |terms| - 1;
    if w == n {
      assert terms[w := v][..n] == terms[..n];
    } else {
      SumUpdate(terms[..n], w, v);
      assert terms[w := v][..n] == terms[..n][w := v];
    }
  }

  lemma {:induction false} SumAtMost(b: seq<int>, a: seq<int>, d: seq<int>)
    requires |b| == |a| == |d| && forall i | 0 <= i < |b| :: b[i] <= a[i] + d[i]
    ensures Sum(b) <= Sum(a) + Sum(d)
  {
    if b != [] {
      SumAtMost(b[..|b| - 1], a[..|b| - 1], d[..|b| - 1]);
    }
  }

  lemma {:induction false} SumBounds(terms: seq<int>, lo: int, hi: int)
    requires forall i | 0 <= i < |terms| :: lo <= terms[i] <= hi
    ensures |terms| * lo <= Sum(terms) <= |terms| * hi
  {
    if terms != [] {
      SumBounds(terms[..|terms| - 1], lo, hi);
    }
  }

  // ---------------------------------------------------------------- invariant: the counter

  /** What worker w still owes the counter. */
  function Owed(c: Config, phase: seq<Phase>): seq<int>
    requires |phase| == |c.segs|
  {
    seq(|phase|, w requires 0 <= w < |phase| => if phase[w] == Spliced then |c.segs[w]| else 0)
  }

  ghost predicate CounterOk(c: Config, s: State)
    requires OrderOk(c, s)
  {
    s.nTracked + Sum(Owed(c, s.phase)) == |Contents(c, s.order)|
  }

  lemma CounterStep(c: Config, s: State, a: Action)
    requires OrderOk(c, s) && CounterOk(c, s) && Enabled(c, s, a)
    ensures OrderOk(c, Apply(c, s, a)) && CounterOk(c, Apply(c, s, a))
  {
    hide OrderOk;
    OrderStep(c, s, a);
    var t, w := Apply(c, s, a), a.w;
    var owed, after := Owed(c, s.phase), Owed(c, t.phase);
    SumUpdate(owed, w, after[w]);
    assert after == owed[w := after[w]];
    if t.order != s.order {
      assert t.order[..|s.order|] == s.order;
    }
  }

  // ---------------------------------------------------------------- invariant: failed exchanges

  /** 1 for each worker that has yet to splice. */
  function Waiting(c: Config, s: State): seq<int>
    requires |s.phase| == |c.segs|
  {
    seq(|s.phase|, w requires 0 <= w < |s.phase| => if Private(c, s, w) then 1 else 0)
  }

  /** Splices a waiting worker could still be charged a failure for. */
  function Credit(c: Config, s: State): seq<int>
    requires |s.phase| == |s.failures| == |c.segs|
  {
    seq(|s.phase|, w requires 0 <= w < |s.phase| => if Private(c, s, w) then |s.order| - s.failures[w] else 0)
  }

  /** (n - 1) + (n - 2) + ...: each splice can fail every worker still waiting once. */
  function Quota(n: int, k: nat): int {
    if k == 0 then 0 else Quota(n, k - 1) + n - k
  }

  lemma {:induction false} QuotaShift(n: int, k: nat)
    ensures Quota(n + 1, k) == Quota(n, k) + k
  {
    if k > 0 {
      QuotaShift(n, k - 1);
    }
  }

  lemma {:induction false} QuotaMonotone(n: nat, k: nat)
    requires k <= n
    ensures Quota(n, k) <= Quota(n, n)
    decreases n - k
  {
    if k < n {
      QuotaMonotone(n, k + 1);
    }
  }

  lemma {:induction false} QuotaTotal(n: nat)
    ensures 2 * Quota(n, n) == n * (n - 1)
  {
    if n > 0 {
      QuotaTotal(n - 1);
      QuotaShift(n - 1, n - 1);
      assert (n - 1) * (n - 2) + 2 * (n - 1) == n * (n - 1);
    }
  }

  ghost predicate FailuresOk(c: Config, s: State)
    requires OrderOk(c, s)
  {
    && Sum(Waiting(c, s)) + |s.order| <= |c.segs|
    && s.failed + Sum(Credit(c, s)) <= Quota(|c.segs|, |s.order|)
  }

  lemma WaitingStep(c: Config, s: State, a: Action)
    requires |s.phase| == |c.segs| && Enabled(c, s, a)
    ensures Sum(Waiting(c, Apply(c, s, a))) + |Apply(c, s, a).order| == Sum(Waiting(c, s)) + |s.order|
  {
    var t, w := Apply(c, s, a), a.w;
    SumUpdate(Waiting(c, s), w, Waiting(c, t)[w]);
    assert Waiting(c, t) == Waiting(c, s)[w := Waiting(c, t)[w]];
  }

  /** A failed exchange is paid from the worker's credit; a splice credits every worker still waiting once. */
  lemma CreditStep(c: Config, s: State, a: Action)
    requires |s.phase| == |s.failures| == |c.segs| && Enabled(c, s, a)
    requires s.failures[a.w] <= |s.order|
    ensures var t := Apply(c, s, a);
            if t.order == s.order then t.failed + Sum(Credit(c, t)) == s.failed + Sum(Credit(c, s))
            else t.failed == s.failed && Sum(Credit(c, t)) <= Sum(Credit(c, s)) + Sum(Waiting(c, t))
  {
    var t, w := Apply(c, s, a), a.w;
    if t.order == s.order {
      SumUpdate(Credit(c, s), w, Credit(c, t)[w]);
      assert Credit(c, t) == Credit(c, s)[w := Credit(c, t)[w]];
    } else {
      SumAtMost(Credit(c, t), Credit(c, s), Waiting(c, t));
    }
  }

  lemma FailuresSeen(c: Config, s: State, w: nat)
    requires OrderOk(c, s) && SeenOk(c, s) && w < |c.segs|
    ensures |s.phase| == |s.failures| == |c.segs| && s.failures[w] <= |s.order|
  {
    assert s.failures[w] <= s.seen[w];
  }

  lemma FailuresStep(c: Config, s: State, a: Action)
    requires OrderOk(c, s) && SeenOk(c, s) && FailuresOk(c, s) && Enabled(c, s, a)
    ensures OrderOk(c, Apply(c, s, a)) && FailuresOk(c, Apply(c, s, a))
  {
    hide OrderOk, SeenOk, Sum, Credit, Waiting;
    OrderStep(c, s, a);
    FailuresSeen(c, s, a.w);
    WaitingStep(c, s, a);
    CreditStep(c, s, a);
  }

  // ---------------------------------------------------------------- how long a run can be

  function Ranks(phase: seq<Phase>): seq<int> {
    seq(|phase|, w requires 0 <= w < |phase| =>
      match phase[w] case Ready => 3 case Trying => 2 case Spliced => 1 case Done => 0)
  }

  lemma RankStep(c: Config, s: State, a: Action)
    requires Enabled(c, s, a)
    ensures Sum(Ranks(Apply(c, s, a).phase)) == Sum(Ranks(s.phase)) - 1 + (Apply(c, s, a).failed - s.failed)
  {
    var t, w := Apply(c, s, a), a.w;
    SumUpdate(Ranks(s.phase), w, Ranks(t.phase)[w]);
    assert Ranks(t.phase) == Ranks(s.phase)[w := Ranks(t.phase)[w]];
  }

  // ---------------------------------------------------------------- every run

  ghost predicate Invariant(c: Config, s: State) {
    OrderOk(c, s) && ListOk(c, s) && SeenOk(c, s) && CounterOk(c, s) && FailuresOk(c, s)
  }

  lemma InitialInvariant(c: Config, s: State)
    requires ValidConfig(c) && Initial(c, s)
    ensures Invariant(c, s)
    ensures Sum(Ranks(s.phase)) <= 3 * |c.segs|
  {
    SumBounds(Owed(c, s.phase), 0, 0);
    SumBounds(Waiting(c, s), 0, 1);
    SumBounds(Credit(c, s), 0, 0);
    SumBounds(Ranks(s.phase), 0, 3);
    forall w {:trigger c.segs[w]} | 0 <= w < |c.segs| && Private(c, s, w)
      ensures Last(c, w) in s.next && Path(s.next, c.segs[w], s.next[Last(c, w)])
    {
      assert Path(s.next, c.segs[w], Null);
      assert c.segs[w][|c.segs[w]| - 1] == Last(c, w);
    }
  }

  lemma {:induction false} RunInvariant(c: Config, init: State, run: seq<Action>)
    requires ValidConfig(c) && Initial(c, init) && Feasible(c, init, run)
    ensures Invariant(c, Exec(c, init, run))
    ensures |run| + Sum(Ranks(Exec(c, init, run).phase)) == Sum(Ranks(init.phase)) + Exec(c, init, run).failed
  {
    if run == [] {
      InitialInvariant(c, init);
    } else {
      var n := |run| - 1;
      RunInvariant(c, init, run[..n]);
      var s := Exec(c, init, run[..n]);
      ListStep(c, s, run[n]);
      SeenStep(c, s, run[n]);
      CounterStep(c, s, run[n]);
      FailuresStep(c, s, run[n]);
      RankStep(c, s, run[n]);
    }
  }

  /**
   At every point of every interleaving the shared list is acyclic and null-terminated, and is the lists of the
   workers that have spliced, latest first, above the initial list; the counter plus the additions still owed is its
   length.
   */
  lemma SharedListSafe(c: Config, init: State, run: seq<Action>)
    requires ValidConfig(c) && Initial(c, init) && Feasible(c, init, run)
    ensures var s := Exec(c, init, run);
            && OrderOk(c, s)
            && s.head == First(Contents(c, s.order))
            && Path(s.next, Contents(c, s.order), Null)
            && Distinct(Contents(c, s.order))
            && s.nTracked + Sum(Owed(c, s.phase)) == |Contents(c, s.order)|
  {
    RunInvariant(c, init, run);
    ContentsDistinct(c, Exec(c, init, run).order);
  }

  /** How many nodes each worker has contributed. */
  function Contributed(c: Config, order: seq<nat>): seq<int> {
    seq(|c.segs|, w requires 0 <= w < |c.segs| => if w in order then |c.segs[w]| else 0)
  }

  lemma {:induction false} ContentsLength(c: Config, order: seq<nat>)
    requires Known(c, order) && Distinct(order)
    ensures |Contents(c, order)| == |c.initial| + Sum(Contributed(c, order))
  {
    if order == [] {
      SumBounds(Contributed(c, order), 0, 0);
    } else {
      var n, w := |order| - 1, order[|order| - 1];
      ContentsLength(c, order[..n]);
      SumUpdate(Contributed(c, order[..n]), w, |c.segs[w]|);
      assert order == order[..n] + [w] && w !in order[..n];
      assert Contributed(c, order) == Contributed(c, order[..n])[w := |c.segs[w]|];
    }
  }

  ghost predicate AllDone(s: State) {
    forall w | 0 <= w < |s.phase| :: s.phase[w] == Done
  }

  /** A run that takes every worker from the start to its end. */
  ghost predicate RunsToEnd(c: Config, init: State, run: seq<Action>) {
    Initial(c, init) && Feasible(c, init, run) && AllDone(Exec(c, init, run))
  }

  function Lengths(c: Config): seq<int> {
    seq(|c.segs|, w requires 0 <= w < |c.segs| => |c.segs[w]|)
  }

  /** The joined list holds x exactly when the initial list or some worker's list does. */
  ghost predicate HoldsAllHits(c: Config, nodes: seq<NodeId>) {
    forall x :: x in nodes <==> x in c.initial || exists w :: 0 <= w < |c.segs| && x in c.segs[w]
  }

  lemma AllSpliced(c: Config, s: State)
    requires OrderOk(c, s) && AllDone(s)
    ensures Contributed(c, s.order) == Lengths(c)
    ensures HoldsAllHits(c, Contents(c, s.order))
  {
    hide Distinct, Contents;
    forall x
      ensures x in Contents(c, s.order) <==> x in c.initial || exists w :: 0 <= w < |c.segs| && x in c.segs[w]
    {
      ContentsMember(c, s.order, x);
      assert forall w | 0 <= w < |c.segs| && x in c.segs[w] :: w in s.order;
    }
  }

  /** Once all workers are joined the counter is the list's length and no hit is lost, duplicated or invented. */
  lemma JoinedListComplete(c: Config, init: State, run: seq<Action>)
    requires ValidConfig(c) && RunsToEnd(c, init, run)
    ensures var s := Exec(c, init, run);
            && OrderOk(c, s)
            && s.nTracked == |Contents(c, s.order)| == |c.initial| + Sum(Lengths(c))
            && Distinct(Contents(c, s.order)) && HoldsAllHits(c, Contents(c, s.order))
  {
    hide Initial, Contents, Path, Distinct, HoldsAllHits, ValidConfig;
    var s := Exec(c, init, run);
    SharedListSafe(c, init, run);
    SumBounds(Owed(c, s.phase), 0, 0);
    ContentsLength(c, s.order);
    AllSpliced(c, s);
  }

  /** With W workers at most W(W-1)/2 exchanges fail, at most W-1 of any one worker. */
  lemma FailedExchangesBounded(c: Config, init: State, run: seq<Action>)
    requires ValidConfig(c) && Initial(c, init) && Feasible(c, init, run)
    ensures 2 * Exec(c, init, run).failed <= |c.segs| * (|c.segs| - 1)
    ensures forall w | 0 <= w < |Exec(c, init, run).failures| :: Exec(c, init, run).failures[w] < |c.segs|
  {
    var s := Exec(c, init, run);
    RunInvariant(c, init, run);
    SplicesBounded(c, s);
    QuotaMonotone(|c.segs|, |s.order|);
    QuotaTotal(|c.segs|);
    forall w | 0 <= w < |s.failures| ensures s.failures[w] < |c.segs| {
      WorkerFailuresBounded(c, s, w);
    }
    CreditNonNegative(c, s);
  }

  lemma SplicesBounded(c: Config, s: State)
    requires OrderOk(c, s) && FailuresOk(c, s)
    ensures |s.order| <= |c.segs|
  {
    SumAtLeast(Waiting(c, s));
  }

  lemma CreditNonNegative(c: Config, s: State)
    requires OrderOk(c, s) && SeenOk(c, s)
    ensures Sum(Credit(c, s)) >= 0
  {
    assert forall w | 0 <= w < |c.segs| :: s.failures[w] <= s.seen[w];
    SumAtLeast(Credit(c, s));
  }

  lemma WorkerFailuresBounded(c: Config, s: State, w: nat)
    requires OrderOk(c, s) && SeenOk(c, s) && FailuresOk(c, s) && w < |c.segs|
    ensures s.failures[w] < |c.segs|
  {
    SplicesBounded(c, s);
    assert s.failures[w] <= s.seen[w];
    if Private(c, s, w) {
      SumUpdate(Waiting(c, s), w, 0);
      SumAtLeast(Waiting(c, s)[w := 0]);
    }
  }

  lemma {:induction false} SumAtLeast(terms: seq<int>)
    requires forall i | 0 <= i < |terms| :: terms[i] >= 0
    ensures Sum(terms) >= 0
  {
    if terms != [] {
      SumAtLeast(terms[..|terms| - 1]);
    }
  }

  /** The retry loops terminate: no interleaving is longer than 3W + W(W-1)/2 steps. */
  lemma RunsAreBounded(c: Config, init: State, run: seq<Action>)
    requires ValidConfig(c) && Initial(c, init) && Feasible(c, init, run)
    ensures 2 * |run| <= 6 * |c.segs| + |c.segs| * (|c.segs| - 1)
  {
    RunInvariant(c, init, run);
    InitialInvariant(c, init);
    FailedExchangesBounded(c, init, run);
    SumAtLeast(Ranks(Exec(c, init, run).phase));
  }

  lemma SomeoneUnfinished(c: Config, init: State, run: seq<Action>) returns (w: nat)
    requires ValidConfig(c) && Initial(c, init) && Feasible(c, init, run) && !AllDone(Exec(c, init, run))
    ensures w < |c.segs| == |Exec(c, init, run).phase| && Exec(c, init, run).phase[w] != Done
  {
    hide Initial, Feasible, Exec;
    RunInvariant(c, init, run);
    w :| w < |Exec(c, init, run).phase| && Exec(c, init, run).phase[w] != Done;
  }

  /** No worker is ever stuck: until it is done, its own next action is enabled. */
  lemma WorkersNeverBlock(c: Config, init: State, run: seq<Action>, w: nat)
    requires ValidConfig(c) && Initial(c, init) && Feasible(c, init, run) && w < |c.segs|
    ensures |Exec(c, init, run).phase| == |c.segs|
    ensures Exec(c, init, run).phase[w] != Done ==> exists a: Action :: a.w == w && Feasible(c, init, run + [a])
  {
    RunInvariant(c, init, run);
    var s := Exec(c, init, run);
    if s.phase[w] != Done {
      var a := match s.phase[w] case Ready => Load(w) case Trying => Cas(w) case _ => Add(w);
      assert Enabled(c, s, a);
      assert (run + [a])[..|run|] == run;
      assert a.w == w && Feasible(c, init, run + [a]);
    }
  }

  /** Every interleaving, however far it has come, can be continued until all workers are done. */
  lemma {:induction false} RunCanEnd(c: Config, init: State, run: seq<Action>)
    requires ValidConfig(c) && Initial(c, init) && Feasible(c, init, run)
    ensures exists whole: seq<Action> :: run <= whole && RunsToEnd(c, init, whole)
    decreases 6 * |c.segs| + |c.segs| * (|c.segs| - 1) - 2 * |run|
  {
    hide ValidConfig, Initial, Feasible, Exec;
    if AllDone(Exec(c, init, run)) {
      assert run <= run && RunsToEnd(c, init, run);
    } else {
      var w := SomeoneUnfinished(c, init, run);
      WorkersNeverBlock(c, init, run, w);
      var a: Action :| a.w == w && Feasible(c, init, run + [a]);
      RunsAreBounded(c, init, run + [a]);
      RunCanEnd(c, init, run + [a]);
      var whole: seq<Action> :| run + [a] <= whole && RunsToEnd(c, init, whole);
      assert run <= whole;
    }
  }

  // ---------------------------------------------------------------- every configuration has a start

  ghost predicate Holds(c: Config, x: NodeId) {
    x in c.initial || exists w :: 0 <= w < |c.segs| && x in c.segs[w]
  }

  function IndexOf(nodes: seq<NodeId>, x: NodeId): (i: nat)
    requires x in nodes
    ensures i < |nodes| && nodes[i] == x
  {
    if nodes[0] == x then 0 else 1 + IndexOf(nodes[1..], x)
  }

  /** What x points to while all lists are private. */
  ghost function Successor(c: Config, x: NodeId): Ptr
    requires Holds(c, x)
  {
    var nodes := if x in c.initial then c.initial else
                   var w :| 0 <= w < |c.segs| && x in c.segs[w]; c.segs[w];
    var i := IndexOf(nodes, x);
    if i + 1 < |nodes| then To(nodes[i + 1]) else Null
  }

  ghost function Start(c: Config): State {
    var n := |c.segs|;
    var held := (set x | x in c.initial) + (set w, x | 0 <= w < n && x in c.segs[w] :: x);
    State(First(c.initial), map x | x in held && Holds(c, x) :: Successor(c, x), |c.initial|,
          seq(n, w requires 0 <= w < n => if c.segs[w] == [] then Done else Ready),
          [], seq(n, _ => 0), seq(n, _ => 0), 0)
  }

  lemma SuccessorIs(c: Config, nodes: seq<NodeId>, i: nat)
    requires ValidConfig(c) && i < |nodes|
    requires nodes == c.initial || exists w :: 0 <= w < |c.segs| && nodes == c.segs[w]
    ensures Holds(c, nodes[i])
    ensures Successor(c, nodes[i]) == if i < |nodes| - 1 then To(nodes[i + 1]) else Null
  {
    var x := nodes[i];
    if nodes == c.initial {
      assert Distinct(nodes);
    } else {
      var w :| 0 <= w < |c.segs| && nodes == c.segs[w];
      assert Distinct(c.segs[w]) && Disjoint(c.segs[w], c.initial);
      assert forall v | 0 <= v < |c.segs| && x in c.segs[v] :: v == w by {
        assert forall v | 0 <= v < |c.segs| && v != w :: Disjoint(c.segs[w], c.segs[v]);
      }
    }
  }

  lemma StartPath(c: Config, nodes: seq<NodeId>)
    requires ValidConfig(c)
    requires nodes == c.initial || exists w :: 0 <= w < |c.segs| && nodes == c.segs[w]
    ensures Path(Start(c).next, nodes, Null)
  {
    hide ValidConfig, Successor;
    forall i {:trigger nodes[i]} | 0 <= i < |nodes|
      ensures nodes[i] in Start(c).next
      ensures Start(c).next[nodes[i]] == if i < |nodes| - 1 then To(nodes[i + 1]) else Null
    {
      SuccessorIs(c, nodes, i);
    }
  }

  lemma StartIsInitial(c: Config)
    requires ValidConfig(c)
    ensures Initial(c, Start(c))
  {
    hide ValidConfig, Path, Successor;
    StartPath(c, c.initial);
    forall w {:trigger c.segs[w]} | 0 <= w < |c.segs| ensures Path(Start(c).next, c.segs[w], Null) {
      StartPath(c, c.segs[w]);
    }
  }

  /** Every configuration has a complete run. */
  lemma SomeRunEnds(c: Config)
    requires ValidConfig(c)
    ensures exists init: State, run: seq<Action> :: RunsToEnd(c, init, run)
  {
    hide ValidConfig, Initial, RunsToEnd;
    StartIsInitial(c);
    RunCanEnd(c, Start(c), []);
  }
}
