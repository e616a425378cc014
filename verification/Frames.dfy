/** The pointer code: found-variable lists, the history deque, renarrowing, undo and the list-building scan. */
module Frames {
  import opened Memory
  import opened FrameSpec

  class FoundVariable {
    const address: nat
    const len: nat
    var next: FoundVariable?

    constructor (address: nat, len: nat)
      ensures this.address == address && this.len == len && next == null
    {
      this.address, this.len, next := address, len, null;
    }
  }

  function Value(v: FoundVariable): Var {
    Var(v.address, v.len)
  }

  function Values(nodes: seq<FoundVariable>): (vars: seq<Var>)
    ensures |vars| == |nodes|
  {
    seq(|nodes|, i requires 0 <= i < |nodes| => Value(nodes[i]))
  }

  // The nodes a renarrowing keeps and unlinks.

  ghost function KeptNodes(s: seq<FoundVariable>, mem: Snapshot, value: seq<Byte>): seq<FoundVariable> {
    if s == [] then [] else
      var n := |s| - 1;
      KeptNodes(s[..n], mem, value) + if Hit(Value(s[n]), mem, value) then [s[n]] else []
  }

  ghost function MissedNodes(s: seq<FoundVariable>, mem: Snapshot, value: seq<Byte>): seq<FoundVariable> {
    if s == [] then [] else
      var n := |s| - 1;
      MissedNodes(s[..n], mem, value) + if Hit(Value(s[n]), mem, value) then [] else [s[n]]
  }

  lemma {:induction false} NodesToValues(s: seq<FoundVariable>, mem: Snapshot, value: seq<Byte>)
    ensures Values(KeptNodes(s, mem, value)) == Kept(Values(s), mem, value)
    ensures Values(MissedNodes(s, mem, value)) == Missed(Values(s), mem, value)
  {
    if s != [] {
      var n := |s| - 1;
      NodesToValues(s[..n], mem, value);
      assert Values(s)[..n] == Values(s[..n]);
    }
  }

  /** The tracked list while the renarrowing loop has yet to visit s[j..]. */
  ghost function HalfFiltered(s: seq<FoundVariable>, j: nat, mem: Snapshot, value: seq<Byte>): seq<FoundVariable>
    requires 1 <= j <= |s|
  {
    [s[0]] + KeptNodes(s[1..j], mem, value) + s[j..]
  }

  lemma FilterNext(s: seq<FoundVariable>, j: nat, mem: Snapshot, value: seq<Byte>)
    requires 1 <= j < |s|
    ensures var cur, next := HalfFiltered(s, j, mem, value), HalfFiltered(s, j + 1, mem, value);
            var k := |KeptNodes(s[1..j], mem, value)|;
            && k + 1 < |cur| && cur[k + 1] == s[j]
            && (if Hit(Value(s[j]), mem, value) then next == cur else next == cur[..k + 1] + cur[k + 2..])
    ensures |KeptNodes(s[1..j + 1], mem, value)|
            == |KeptNodes(s[1..j], mem, value)| + if Hit(Value(s[j]), mem, value) then 1 else 0
    ensures MissedNodes(s[1..j + 1], mem, value)
            == MissedNodes(s[1..j], mem, value) + if Hit(Value(s[j]), mem, value) then [] else [s[j]]
  {
    var t := s[1..j + 1];
    assert t[..j - 1] == s[1..j] && t[j - 1] == s[j];
    assert s[j..] == [s[j]] + s[j + 1..];
  }

  lemma KeptFromBack(s: seq<FoundVariable>, mem: Snapshot, value: seq<Byte>)
    requires s != []
    ensures var n := |s| - 1;
            KeptNodes(s, mem, value)
            == KeptNodes(s[..n], mem, value) + if Hit(Value(s[n]), mem, value) then [s[n]] else []
  {
  }

  lemma {:induction false} KeptFromHead(s: seq<FoundVariable>, mem: Snapshot, value: seq<Byte>)
    ensures KeptNodes(s, mem, value)
            == if s == [] then [] else
                 (if Hit(Value(s[0]), mem, value) then [s[0]] else []) + KeptNodes(s[1..], mem, value)
  {
    var n := |s| - 1;
    if n < 0 {
    } else if n > 0 {
      KeptFromHead(s[..n], mem, value);
      hide KeptNodes;
      var init, tail := s[..n], s[1..];
      assert tail[..n - 1] == init[1..] && tail[n - 1] == s[n] && init[0] == s[0];
      KeptFromBack(s, mem, value);
      KeptFromBack(tail, mem, value);
    } else {
      assert s[..0] == [] && s[1..] == [];
    }
  }

  lemma FilterEnds(s: seq<FoundVariable>, j: nat, mem: Snapshot, value: seq<Byte>)
    requires 1 <= j <= |s|
    ensures |HalfFiltered(s, j, mem, value)| == 1 + |KeptNodes(s[1..j], mem, value)| + |s| - j
    ensures j == 1 ==> HalfFiltered(s, j, mem, value) == s
    ensures j == 1 ==> KeptNodes(s[1..j], mem, value) == [] && MissedNodes(s[1..j], mem, value) == []
    ensures j == |s| ==> HalfFiltered(s, j, mem, value) == [s[0]] + KeptNodes(s[1..], mem, value)
    ensures j == |s| ==> s[1..j] == s[1..]
  {
    if j == |s| {
      assert s[1..j] == s[1..] && s[j..] == [];
    }
  }

  /** The nodes in unlinking order: the misses behind the head, then a missed head. */
  ghost function UnlinkedNodes(s: seq<FoundVariable>, mem: Snapshot, value: seq<Byte>): seq<FoundVariable> {
    if s == [] then [] else
      MissedNodes(s[1..], mem, value) + if Hit(Value(s[0]), mem, value) then [] else [s[0]]
  }

  lemma UnlinkedToValues(s: seq<FoundVariable>, mem: Snapshot, value: seq<Byte>)
    ensures Values(UnlinkedNodes(s, mem, value)) == Unlinked(Values(s), mem, value)
  {
    if s != [] {
      NodesToValues(s[1..], mem, value);
      assert Values(s[1..]) == Values(s)[1..];
      var head := Values(s)[..1];
      assert head == [Value(s[0])] && head[..0] == [];
      assert Missed(head, mem, value) == if Hit(head[0], mem, value) then [] else [head[0]];
    }
  }

  ghost predicate Is(p: FoundVariable?, nodes: seq<FoundVariable>, i: nat) {
    if i < |nodes| then p == nodes[i] else p == null
  }

  /** `head` starts a null-terminated list that visits exactly `nodes`, each once. */
  ghost predicate Linked(head: FoundVariable?, nodes: seq<FoundVariable>)
    reads nodes`next
  {
    && Distinct(nodes)
    && Is(head, nodes, 0)
    && forall i {:trigger nodes[i]} | 0 <= i < |nodes| :: Is(nodes[i].next, nodes, i + 1)
  }

  lemma NothingLinked()
    ensures Linked(null, [])
  {
  }

  ghost predicate Follows(nodes: seq<FoundVariable>, i: nat)
    requires i < |nodes|
    reads nodes`next
  {
    Is(nodes[i].next, nodes, i + 1)
  }

  /** Links the null-terminated list `b` behind the last node of `a`. */
  method Join(first: FoundVariable?, last: FoundVariable, second: FoundVariable?,
              ghost a: seq<FoundVariable>, ghost b: seq<FoundVariable>)
    requires Linked(first, a) && a != [] && last == a[|a| - 1]
    requires Linked(second, b) && forall n | n in a :: n !in b
    modifies last`next
    ensures Linked(first, a + b)
  {
    assert forall i | 0 <= i < |a| :: a[i] in a;
    assert forall i | 0 <= i < |b| :: b[i] in b;
    last.next := second;
  }

  lemma TailLinked(head: FoundVariable?, nodes: seq<FoundVariable>)
    requires Linked(head, nodes) && nodes != []
    ensures head == nodes[0] && Linked(nodes[0].next, nodes[1..])
    ensures nodes[0] !in nodes[1..]
  {
  }

  /** Unlinks the node behind `v` from its list. */
  method UnlinkNext(v: FoundVariable, ghost head: FoundVariable?, ghost nodes: seq<FoundVariable>, ghost at: nat)
    returns (removed: FoundVariable)
    requires Linked(head, nodes) && 0 < at < |nodes| && v == nodes[at - 1]
    modifies v`next
    ensures removed == nodes[at] && removed !in nodes[..at] + nodes[at + 1..]
    ensures Linked(head, nodes[..at] + nodes[at + 1..])
  {
    hide Distinct;
    DistinctRemove(nodes, at);
    DistinctRemove(nodes, at - 1);
    ghost var rest := nodes[..at - 1] + nodes[at..];
    assert forall i | 0 <= i < |rest| :: rest[i] in rest;
    removed := v.next;
    v.next := v.next.next;
    ghost var ns := nodes[..at] + nodes[at + 1..];
    forall i {:trigger ns[i]} | 0 <= i < |ns| ensures Follows(ns, i) {
      assert i < at - 1 ==> ns[i] == rest[i];
      assert i >= at ==> ns[i] == rest[i];
    }
  }

  class NarrowHistory {
    var nRemoved: int
    var removed: FoundVariable?
    var last: FoundVariable?
    var next: NarrowHistory?
    ghost var nodes: seq<FoundVariable>  // the variables on the removed list

    constructor ()
      ensures Holds() && nodes == [] && next == null
    {
      nRemoved, removed, last, next, nodes := 0, null, null, null, [];
    }

    /** `init_narrow_history`. */
    method Init()
      modifies `next, `nRemoved, `removed, `last, `nodes
      ensures Holds() && nodes == [] && next == null
    {
      next := null;
      removed := null;
      nRemoved := 0;
      nodes := [];
    }

    ghost predicate Holds()
      reads this`nRemoved, this`removed, this`last, this`nodes, nodes`next
    {
      && Linked(removed, nodes)
      && nRemoved == |nodes|
      && (nodes != [] ==> last == nodes[|nodes| - 1])
    }

    lemma EmptyIffNull()
      requires Holds()
      ensures removed == null <==> nodes == []
    {
    }

    /** `insert_history`: append one unlinked variable. */
    method Insert(v: FoundVariable)
      requires Holds() && v !in nodes
      modifies this`nRemoved, this`removed, this`last, this`nodes, v`next, nodes`next
      ensures Holds() && nodes == old(nodes) + [v]
    {
      hide Distinct;
      DistinctAppend(nodes, v);
      EmptyIffNull();
      nRemoved := nRemoved + 1;
      v.next := null;
      nodes := nodes + [v];
      if removed == null {
        last := v;
        removed := v;
        return;
      }
      last.next := v;
      last := v;
    }
  }

  /** Removed lists as values. */
  ghost function RecordValues(live: seq<NarrowHistory>): (vals: seq<seq<Var>>)
    reads live
    ensures |vals| == |live|
  {
    seq(|live|, i requires 0 <= i < |live| reads live => Values(live[i].nodes))
  }

  /** Records linked oldest to latest and null-terminated. */
  ghost predicate Chained(live: seq<NarrowHistory>)
    reads live`next
  {
    && Distinct(live)
    && forall i {:trigger live[i]} | 0 <= i < |live| :: live[i].next == if i < |live| - 1 then live[i + 1] else null
  }

  class NarrowFrame {
    const undoDepthLimit: int
    var undoDepth: int
    var earliest: NarrowHistory?
    var latest: NarrowHistory?
    var trackedVars: FoundVariable?
    var nTracked: int

    // What the pointers spell out: the tracked variables, and the live records oldest first.
    ghost var tracked: seq<FoundVariable>
    ghost var live: seq<NarrowHistory>
    // The list a variable is on: null for the tracked list, else the record. No variable is on two lists.
    ghost var owner: map<FoundVariable, NarrowHistory?>
    ghost var repr: set<object>

    ghost predicate Owns(r: NarrowHistory?, nodes: seq<FoundVariable>)
      reads this`owner, this`repr
    {
      forall n | n in nodes :: n in repr && n in owner && owner[n] == r
    }

    ghost predicate TrackedOk()
      reads this`trackedVars, this`tracked, this`nTracked, this`owner, this`repr, tracked`next
    {
      Linked(trackedVars, tracked) && nTracked == |tracked| && Owns(null, tracked)
    }

    ghost predicate RecordOk(r: NarrowHistory)
      reads this, repr
    {
      r in repr && Owns(r, r.nodes) && r.Holds()
    }

    ghost predicate EndsOk()
      reads this
    {
      && (earliest == null || (live != [] && earliest == live[0]))
      && (earliest == null ==> |live| <= 1)
      && latest == (if live == [] then null else live[|live| - 1])
    }

    /**
     Every list is acyclic, ends in null and has the length its counter says; every non-empty record's `last`
     is its final node; no variable is on two lists.
     */
    ghost predicate Valid()
      reads this, repr
    {
      && this in repr
      && (forall n | n in tracked :: n in repr)
      && (forall r | r in live :: r in repr)
      && (forall r | r in live :: RecordOk(r))
      && TrackedOk()
      && EndsOk()
      && Chained(live)
    }

    ghost function State(): FrameState
      reads this, live
    {
      FrameState(Values(tracked), RecordValues(live), earliest != null, undoDepth)
    }

    constructor (limit: int)
      ensures Valid() && fresh(repr) && undoDepthLimit == limit
      ensures State() == EMPTY
    {
      undoDepthLimit := limit;
      undoDepth, nTracked := 0, 0;
      earliest, latest, trackedVars := null, null, null;
      tracked, live, owner := [], [], map[];
      repr := {this};
    }

    /** The tracked list is in order when nothing about it changed. */
    twostate lemma TrackedStays()
      requires old(TrackedOk()) && old(repr) <= repr && owner == old(owner)
      requires unchanged(`trackedVars) && unchanged(`nTracked) && unchanged(`tracked)
      requires forall n | n in old(owner) :: n.next == old(n.next)
      ensures TrackedOk()
    {
      assert forall i | 0 <= i < |tracked| :: tracked[i] in tracked;
    }

    /** Popping links touches no record's list. */
    twostate lemma PopStays()
      requires old(Valid()) && repr == old(repr) && owner == old(owner)
      requires forall r | r in old(live) ::
                 && r.nRemoved == old(r.nRemoved) && r.removed == old(r.removed)
                 && r.last == old(r.last) && r.nodes == old(r.nodes)
      requires forall n | n in old(owner) :: n.next == old(n.next)
      ensures forall r | r in old(live) :: RecordOk(r)
    {
      hide Distinct, Chained;
      forall r | r in old(live) ensures RecordOk(r) {
        assert old(RecordOk(r));
        assert r.Holds() by {
          assert forall j | 0 <= j < |r.nodes| :: r.nodes[j] in r.nodes;
        }
      }
    }

    twostate lemma PopValues()
      requires forall r | r in old(live) :: r.nodes == old(r.nodes)
      requires |live| <= |old(live)| && live == old(live)[..|live|]
      ensures RecordValues(live) == old(RecordValues(live))[..|live|]
      ensures old(live) != [] ==>
                old(RecordValues(live))[|old(live)| - 1] == Values(old(live)[|old(live)| - 1].nodes)
    {
      assert forall i | 0 <= i < |old(live)| :: old(live)[i] in old(live);
    }

    /** Records that stay live are untouched when `ret` becomes the latest. */
    twostate lemma RecordsShift(k: nat, new ret: NarrowHistory)
      requires old(Valid()) && old(repr) <= repr && owner == old(owner)
      requires k <= |old(live)| && live == old(live)[k..] + [ret] && ret !in old(live)[k..]
      requires ret in repr && ret.Holds() && ret.nodes == []
      requires forall r | r in old(live) && r != ret ::
                 && r.nRemoved == old(r.nRemoved) && r.removed == old(r.removed)
                 && r.last == old(r.last) && r.nodes == old(r.nodes)
      requires forall n | n in old(owner) :: n.next == old(n.next)
      ensures forall r | r in live :: RecordOk(r)
      ensures RecordValues(live) == old(RecordValues(live))[k..] + [[]]
    {
      forall i | 0 <= i < |live| - 1 ensures live[i].nodes == old(live[i + k].nodes) && RecordOk(live[i]) {
        var r := live[i];
        assert r == old(live)[k..][i] && r in old(live);
        assert old(RecordOk(r));
        assert r.Holds() by {
          assert forall j | 0 <= j < |r.nodes| :: r.nodes[j] in r.nodes;
        }
      }
    }

    /** At the depth limit the oldest record is taken from the front and becomes the latest. */
    method RecycleOldest() returns (ret: NarrowHistory)
      requires EndsOk() && Chained(live) && earliest != null
      modifies `earliest, `latest, `live, live`next
      ensures EndsOk() && Chained(live)
      ensures ret == old(live)[0] && live == old(live)[1..] + [ret] && ret !in old(live)[1..]
      ensures earliest == null <==> |live| == 1
    {
      DistinctRotate(live);
      ret := earliest;
      earliest := earliest.next;
      latest.next := ret;
      latest := ret;
      ret.next := null;
      live := live[1..] + [ret];
    }

    /** Below the limit a new record is allocated; without an earliest record it starts the chain. */
    method AllocateRecord() returns (ret: NarrowHistory)
      requires EndsOk() && Chained(live)
      modifies `earliest, `latest, `live, live`next
      ensures EndsOk() && Chained(live)
      ensures fresh(ret) && ret.Holds() && ret.nodes == []
      ensures live == (if old(earliest) == null then [] else old(live)) + [ret]
      ensures earliest != null && ret !in old(live)
    {
      ret := new NarrowHistory();
      if earliest == null {
        earliest := ret;
        live := [ret];
      } else {
        latest.next := ret;
        DistinctAppend(live, ret);
        live := live + [ret];
      }
      latest := ret;
    }

    /** The pointer half of `add_history_search`; `k` records leave the front of `live`. */
    method LinkRecord() returns (ret: NarrowHistory, ghost k: nat)
      requires EndsOk() && Chained(live)
      modifies `undoDepth, `earliest, `latest, `live, live`next, live`nRemoved, live`removed, live`last, live`nodes
      ensures EndsOk() && Chained(live) && ret.Holds() && ret.nodes == []
      ensures ret in old(live) || fresh(ret)
      ensures k <= |old(live)| && live == old(live)[k..] + [ret] && ret !in old(live)[k..]
      ensures k == if old(earliest) == null then |old(live)| else if old(undoDepth) == undoDepthLimit then 1 else 0
      ensures earliest == null <==> old(earliest != null && undoDepth == undoDepthLimit) && |old(live)| == 1
      ensures undoDepth ==
              old(undoDepth) + if old(earliest != null && undoDepth == undoDepthLimit) then 0 else 1
      ensures forall r | r in old(live) && r != ret ::
                && r.nRemoved == old(r.nRemoved) && r.removed == old(r.removed)
                && r.last == old(r.last) && r.nodes == old(r.nodes)
    {
      hide Linked, NarrowHistory.Holds, Distinct, Chained;
      k := if earliest == null then |live| else if undoDepth == undoDepthLimit then 1 else 0;
      if earliest == null || undoDepth != undoDepthLimit {
        undoDepth := undoDepth + 1;
        ret := AllocateRecord();
      } else {
        ret := RecycleOldest();
      }
      ret.Init();
    }

    /** `add_history_search`. */
    method AddHistorySearch() returns (ret: NarrowHistory)
      requires Valid()
      modifies this, live`next, live`nRemoved, live`removed, live`last, live`nodes
      ensures Valid() && fresh(repr - old(repr))
      ensures State() == AddRecord(old(State()), undoDepthLimit)
      ensures live != [] && ret == live[|live| - 1] && ret.nodes == []
      ensures tracked == old(tracked)
    {
      hide Linked, NarrowHistory.Holds, Distinct, Chained, RecordValues, RecordOk, TrackedOk, Owns;
      ghost var k;
      ret, k := LinkRecord();
      repr := repr + {ret};
      TrackedStays();
      RecordsShift(k, ret);
    }

    /** The oldest record is the latest only if it is the only one; the latest is chained last. */
    lemma LastApart()
      requires Chained(live) && live != []
      ensures live[|live| - 1] !in live[..|live| - 1]
      ensures live[0] == live[|live| - 1] ==> |live| == 1
      ensures Chained([])
    {
    }

    lemma NextRecord(k: nat)
      requires Chained(live) && k < |live| - 1
      ensures live[k].next == live[k + 1]
      ensures k < |live| - 2 ==> live[k + 1] != live[|live| - 1]
    {
    }

    /** Drops the last link of the chain. */
    method Unchain(prev: NarrowHistory, ret: NarrowHistory)
      requires Chained(live) && |live| >= 2 && prev == live[|live| - 2] && ret == live[|live| - 1]
      modifies prev`next
      ensures Chained(live[..|live| - 1])
    {
      prev.next := ret.next;
    }

    /** `pop_latest_hist`. */
    method PopLatestHist() returns (ret: NarrowHistory?)
      requires EndsOk() && Chained(live)
      modifies `undoDepth, `earliest, `latest, `live, live`next
      ensures EndsOk() && Chained(live)
      ensures old(live) == [] ==> ret == null && unchanged(this)
      ensures old(live) != [] ==>
                && ret == old(live)[|old(live)| - 1] && live == old(live)[..|old(live)| - 1]
                && ret in old(live) && ret !in live
                && undoDepth == old(undoDepth) - 1
                && (earliest == null <==> old(earliest) == null || live == [])
    {
      hide Chained;
      ret := latest;
      if ret == null {
        return;
      }
      undoDepth := undoDepth - 1;
      ghost var n := |live| - 1;
      LastApart();
      if earliest == latest {
        ret := earliest;
        earliest, latest := null, null;
        live := [];
        return;
      }
      var prev := earliest;
      ghost var k := 0;
      while prev != null
        invariant unchanged(`live) && unchanged(`earliest) && undoDepth == old(undoDepth) - 1
        invariant prev == if earliest == null then null else if k <= n then live[k] else null
        invariant earliest != null ==> k < n
        invariant Chained(live)
        decreases n - k
      {
        NextRecord(k);
        if prev.next == ret {
          Unchain(prev, ret);
          break;
        }
        prev := prev.next;
        k := k + 1;
      }
      latest := prev;
      live := live[..n];
    }

    /** Records other than `hist` whose variables kept their owner and links are still in order. */
    twostate lemma RecordsStay(new hist: NarrowHistory?)
      requires old(Valid()) && old(repr) <= repr && live == old(live)
      requires forall r | r in live && r != hist ::
                 && r.nRemoved == old(r.nRemoved) && r.removed == old(r.removed)
                 && r.last == old(r.last) && r.nodes == old(r.nodes)
      requires forall n | n in old(owner) && old(owner)[n] != null && old(owner)[n] != hist ::
                 n in owner && owner[n] == old(owner)[n] && n.next == old(n.next)
      ensures forall r | r in live && r != hist :: RecordOk(r)
    {
      forall r | r in live && r != hist ensures RecordOk(r) {
        assert old(RecordOk(r));
        assert r.Holds() by {
          assert forall j | 0 <= j < |r.nodes| :: r.nodes[j] in r.nodes;
        }
      }
    }

    /** Puts a popped record's variables back in front of the tracked list. */
    method SpliceBack(hist: NarrowHistory)
      requires TrackedOk() && hist.Holds() && hist.nodes != [] && Owns(hist, hist.nodes)
      modifies `trackedVars, `nTracked, `tracked, `owner, hist.nodes`next
      ensures TrackedOk() && tracked == hist.nodes + old(tracked)
      ensures owner == map n | n in old(owner) :: if old(owner)[n] == hist then null else old(owner)[n]
      ensures forall n | n in old(owner) && old(owner)[n] != hist :: n.next == old(n.next)
    {
      hide Linked;
      assert forall n | n in hist.nodes :: n in owner && owner[n] == hist;
      Join(hist.removed, hist.last, trackedVars, hist.nodes, tracked);
      trackedVars := hist.removed;
      nTracked := nTracked + hist.nRemoved;
      tracked := hist.nodes + tracked;
      owner := map n | n in owner :: if owner[n] == hist then null else owner[n];
    }

    /** `pop_latest_hist`, seen from the frame. */
    method TakeLatest() returns (hist: NarrowHistory?)
      requires Valid()
      modifies `undoDepth, `earliest, `latest, `live, live`next
      ensures Valid()
      ensures old(live) == [] ==> hist == null && State() == old(State())
      ensures old(live) != [] ==>
                && hist == old(live)[|old(live)| - 1] && live == old(live)[..|old(live)| - 1]
                && RecordOk(hist) && hist !in live
      ensures forall r | r in old(live) :: r.nodes == old(r.nodes)
      ensures hist != null ==> old(State()).records != []
                               && (State(), Some(Values(hist.nodes))) == PopRecord(old(State()))
    {
      hide Linked, NarrowHistory.Holds, Distinct, Chained, RecordValues, RecordOk, TrackedOk, Owns;
      hist := PopLatestHist();
      PopStays();
      PopValues();
      TrackedStays();
      assert forall r | r in live :: r in old(live);
    }

    /** `SpliceBack`, seen from the frame. */
    method Restore(hist: NarrowHistory)
      requires Valid() && RecordOk(hist) && hist !in live && hist.nodes != []
      modifies `trackedVars, `nTracked, `tracked, `owner, hist.nodes`next
      ensures Valid() && tracked == hist.nodes + old(tracked)
      ensures State() == old(State()).(tracked := Values(hist.nodes) + old(State()).tracked)
    {
      hide Linked, NarrowHistory.Holds, Distinct, Chained;
      SpliceBack(hist);
      RecordsStay(hist);
      assert RecordValues(live) == old(RecordValues(live));
      assert Values(tracked) == Values(hist.nodes) + old(Values(tracked));
    }

    /** `undo_renarrow`. */
    method UndoRenarrow()
      requires Valid()
      modifies repr
      ensures Valid() && repr == old(repr)
      ensures State() == Undo(old(State()), undoDepthLimit)
    {
      hide Linked, NarrowHistory.Holds, Distinct, Chained, EndsOk, TrackedOk;
      if undoDepthLimit == 0 || undoDepth == 0 {
        return;
      }
      var hist := TakeLatest();
      if hist != null {
        hist.EmptyIffNull();
      }
      if hist == null || hist.removed == null {
        return;
      }
      Restore(hist);
    }

    /** The unlinking half of `rm_next_frame_var_unsafe`: the variable after `v`, or the head. */
    method Unlink(v: FoundVariable?, rmFirst: bool, ghost at: nat) returns (toFree: FoundVariable)
      requires TrackedOk() && at < |tracked| && (v != null || rmFirst)
      requires if v == null then at == 0 else at > 0 && v == tracked[at - 1]
      modifies `trackedVars, `nTracked, `tracked, tracked`next
      ensures TrackedOk() && toFree == old(tracked)[at] && toFree !in tracked
      ensures tracked == old(tracked)[..at] + old(tracked)[at + 1..]
      ensures forall n | n in owner && owner[n] != null :: n.next == old(n.next)
    {
      hide Linked, Distinct;
      assert forall n | n in tracked :: n in owner && owner[n] == null;
      TailLinked(trackedVars, tracked);
      nTracked := nTracked - 1;
      if v == null && rmFirst {
        toFree := trackedVars;
        trackedVars := trackedVars.next;
        assert tracked[..at] + tracked[at + 1..] == tracked[1..];
      } else {
        toFree := UnlinkNext(v, trackedVars, tracked, at);
      }
      tracked := tracked[..at] + tracked[at + 1..];
    }

    /** Appends an unlinked variable to the record that now owns it. */
    method MoveToRecord(hist: NarrowHistory, v: FoundVariable)
      requires TrackedOk() && v !in tracked && v in repr && v in owner && owner[v] == null
      requires RecordOk(hist)
      modifies `owner, hist`nRemoved, hist`removed, hist`last, hist`nodes, v`next, hist.nodes`next
      ensures TrackedOk() && RecordOk(hist)
      ensures hist.nodes == old(hist.nodes) + [v] && owner == old(owner)[v := hist]
      ensures forall n | n in old(owner) && n != v && old(owner)[n] != hist :: n.next == old(n.next)
    {
      hide Distinct, NarrowHistory.Holds;
      assert v !in hist.nodes && forall n | n in hist.nodes :: n in owner && owner[n] == hist;
      assert forall n | n in tracked :: n !in hist.nodes && n != v;
      hist.Insert(v);
      assert tracked == old(tracked);
      assert forall n | n in tracked :: n.next == old(n.next);
      assert forall i | 0 <= i < |tracked| :: tracked[i] in tracked;
      owner := owner[v := hist];
    }

    lemma RecordInRepr(r: NarrowHistory)
      requires RecordOk(r)
      ensures r in repr && forall n | n in r.nodes :: n in repr
    {
    }

    /** `Unlink`, seen from the frame: the variable is then on no list. */
    method Detach(v: FoundVariable?, rmFirst: bool, ghost at: nat) returns (toFree: FoundVariable)
      requires Valid() && at < |tracked| && (v != null || rmFirst)
      requires if v == null then at == 0 else at > 0 && v == tracked[at - 1]
      modifies `trackedVars, `nTracked, `tracked, tracked`next
      ensures Valid() && toFree == old(tracked)[at] && toFree !in tracked
      ensures toFree in repr && toFree in owner && owner[toFree] == null
      ensures tracked == old(tracked)[..at] + old(tracked)[at + 1..]
    {
      hide Linked, NarrowHistory.Holds, Distinct, Chained, RecordOk;
      assert tracked[at] in repr && tracked[at] in owner && owner[tracked[at]] == null;
      toFree := Unlink(v, rmFirst, at);
      RecordsStay(null);
    }

    /** `insert_history`, seen from the frame. */
    method Record(hist: NarrowHistory, v: FoundVariable)
      requires Valid() && live != [] && hist == live[|live| - 1]
      requires v !in tracked && v in repr && v in owner && owner[v] == null
      modifies `owner, hist`nRemoved, hist`removed, hist`last, hist`nodes, v`next, hist.nodes`next
      ensures Valid() && hist.nodes == old(hist.nodes) + [v]
    {
      hide Linked, NarrowHistory.Holds, Distinct, Chained, RecordOk, Owns;
      MoveToRecord(hist, v);
      RecordsStay(hist);
    }

    /** `rm_next_frame_var_unsafe`: unlink, then record in the history, or free without one. */
    method RmNextFrameVar(v: FoundVariable?, rmFirst: bool, hist: NarrowHistory?, ghost at: nat)
      requires Valid() && at < |tracked| && (v != null || rmFirst)
      requires if v == null then at == 0 else at > 0 && v == tracked[at - 1]
      requires hist != null ==> live != [] && hist == live[|live| - 1]
      modifies repr
      ensures Valid() && repr == old(repr) && live == old(live)
      ensures tracked == old(tracked)[..at] + old(tracked)[at + 1..]
      ensures hist != null ==> hist.nodes == old(hist.nodes) + [old(tracked)[at]]
      ensures unchanged(`earliest) && unchanged(`undoDepth)
      ensures forall r | r in live && r != hist :: r.nodes == old(r.nodes)
    {
      hide Linked, NarrowHistory.Holds, Distinct, Chained, RecordOk, TrackedOk, EndsOk;
      if hist != null {
        RecordInRepr(hist);
      }
      var toFree := Detach(v, rmFirst, at);
      if hist != null {
        Record(hist, toFree);
      }
    }

    /** The renarrowing loop: unlinks every miss behind the head, revisiting the same node after a removal. */
    method RenarrowTail(mem: Snapshot, value: seq<Byte>, hist: NarrowHistory?)
      requires Valid()
      requires hist != null ==> live != [] && hist == live[|live| - 1]
      modifies repr
      ensures Valid() && repr == old(repr) && live == old(live)
      ensures unchanged(`earliest) && unchanged(`undoDepth)
      ensures old(tracked) == [] ==> tracked == []
      ensures old(tracked) != [] ==> tracked == [old(tracked)[0]] + KeptNodes(old(tracked)[1..], mem, value)
      ensures hist != null && old(tracked) != [] ==>
                hist.nodes == old(hist.nodes) + MissedNodes(old(tracked)[1..], mem, value)
      ensures hist != null && old(tracked) == [] ==> hist.nodes == old(hist.nodes)
      ensures forall r | r in live && r != hist :: r.nodes == old(r.nodes)
    {
      hide Linked, NarrowHistory.Holds, Distinct, Chained, EndsOk, RecordOk, TrackedOk, Owns, OccursAt;
      hide KeptNodes, MissedNodes, HalfFiltered;
      ghost var t0, k, j := tracked, 0, 1;
      var v := trackedVars;
      TrackedEnds(v, k);
      if t0 != [] {
        FilterEnds(t0, 1, mem, value);
      }
      while v != null && v.next != null
        invariant Valid() && repr == old(repr) && live == old(live)
        invariant unchanged(`earliest) && unchanged(`undoDepth)
        invariant v == null <==> t0 == []
        invariant v == null ==> tracked == [] && (hist != null ==> hist.nodes == old(hist.nodes))
        invariant v != null ==> k < |tracked| && v == tracked[k]
        invariant v != null ==> 1 <= j <= |t0| && k == |KeptNodes(t0[1..j], mem, value)|
        invariant v != null ==> tracked == HalfFiltered(t0, j, mem, value)
        invariant v != null && hist != null ==> hist.nodes == old(hist.nodes) + MissedNodes(t0[1..j], mem, value)
        invariant forall r | r in live && r != hist :: r.nodes == old(r.nodes)
        invariant v != null ==> (v.next == null <==> k + 1 == |tracked|)
        invariant v != null && v.next != null ==> v.next == tracked[k + 1]
        decreases |tracked| - k
      {
        FilterEnds(t0, j, mem, value);
        FilterNext(t0, j, mem, value);
        if !OccursAt(mem, v.next.address, value) {
          RmNextFrameVar(v, false, hist, k + 1);
        } else {
          v := v.next;
          k := k + 1;
        }
        j := j + 1;
        TrackedEnds(v, k);
      }
      if t0 != [] {
        FilterEnds(t0, j, mem, value);
      }
    }

    lemma TrackedEnds(v: FoundVariable?, k: nat)
      requires TrackedOk()
      ensures trackedVars == if tracked == [] then null else tracked[0]
      ensures v != null && k < |tracked| && v == tracked[k] ==>
                v.next == if k + 1 < |tracked| then tracked[k + 1] else null
    {
    }

    /** The loop and the head check of `renarrow_frame`. */
    method RenarrowNodes(mem: Snapshot, value: seq<Byte>, hist: NarrowHistory?)
      requires Valid()
      requires hist != null ==> live != [] && hist == live[|live| - 1] && hist.nodes == []
      modifies repr
      ensures Valid() && repr == old(repr) && live == old(live)
      ensures unchanged(`earliest) && unchanged(`undoDepth)
      ensures tracked == KeptNodes(old(tracked), mem, value)
      ensures hist != null ==> hist.nodes == UnlinkedNodes(old(tracked), mem, value)
      ensures forall r | r in live && r != hist :: r.nodes == old(r.nodes)
    {
      hide Linked, NarrowHistory.Holds, Distinct, Chained, EndsOk, TrackedOk, RecordOk, KeptNodes, MissedNodes;
      ghost var t0 := tracked;
      RenarrowTail(mem, value, hist);
      TrackedEnds(trackedVars, 0);
      ghost var t1 := tracked;
      if trackedVars != null && !OccursAt(mem, trackedVars.address, value) {
        RmNextFrameVar(null, true, hist, 0);
        assert tracked == t1[1..];
      }
      KeptFromHead(t0, mem, value);
    }

    /** The new record, the loop and the head check. */
    method RenarrowRecording(mem: Snapshot, value: seq<Byte>)
      requires Valid()
      modifies repr
      ensures Valid() && fresh(repr - old(repr))
      ensures State() == Renarrow(old(State()), undoDepthLimit, mem, value)
      ensures tracked == KeptNodes(old(tracked), mem, value)
    {
      hide Linked, NarrowHistory.Holds, Distinct, Chained, EndsOk, TrackedOk, RecordOk, KeptNodes, UnlinkedNodes;
      var hist: NarrowHistory? := null;
      NodesToValues(tracked, mem, value);
      UnlinkedToValues(tracked, mem, value);
      if undoDepthLimit != 0 {
        hist := AddHistorySearch();
      }
      ghost var records := RecordValues(live);
      RenarrowNodes(mem, value, hist);
      LatestValues(hist, records);
    }

    /**
     `renarrow_frame`: tracked stay exactly the variables where memory holds every byte of the value; with a history
     the latest record holds exactly the others.
     */
    method RenarrowFrame(mem: Snapshot, value: seq<Byte>)
      requires Valid()
      modifies repr
      ensures Valid() && fresh(repr - old(repr))
      ensures State() == Renarrow(old(State()), undoDepthLimit, mem, value)
      ensures tracked == KeptNodes(old(tracked), mem, value)
      ensures forall x :: x in State().tracked <==>
                x in old(State()).tracked && x.address + |value| <= |mem|
                && forall i | 0 <= i < |value| :: mem[x.address + i] == value[i]
      ensures undoDepthLimit != 0 ==>
                && State().records != []
                && forall x :: x in State().records[|State().records| - 1] <==>
                     x in old(State()).tracked && !(x.address + |value| <= |mem|
                                                    && forall i | 0 <= i < |value| :: mem[x.address + i] == value[i])
    {
      hide Valid, State, KeptNodes, Renarrow;
      RenarrowBytes(State(), undoDepthLimit, mem, value);
      RenarrowRecording(mem, value);
    }

    /** Only the latest record's list may differ from `before`. */
    lemma LatestValues(hist: NarrowHistory?, before: seq<seq<Var>>)
      requires Valid() && |before| == |live|
      requires hist != null ==> live != [] && hist == live[|live| - 1]
      requires forall i | 0 <= i < |live| && live[i] != hist :: before[i] == Values(live[i].nodes)
      ensures hist == null ==> RecordValues(live) == before
      ensures hist != null ==> RecordValues(live) == before[..|live| - 1] + [Values(hist.nodes)]
    {
    }

    /** Puts an unowned private list in front of the tracked list. */
    method Attach(vars: FoundVariable, varsLast: FoundVariable, nVars: nat, ghost nodes: seq<FoundVariable>)
      requires TrackedOk()
      requires Linked(vars, nodes) && nodes != [] && varsLast == nodes[|nodes| - 1] && nVars == |nodes|
      requires forall n | n in nodes :: n !in owner
      modifies `trackedVars, `nTracked, `tracked, `owner, `repr, varsLast`next
      ensures TrackedOk() && tracked == nodes + old(tracked)
      ensures repr == old(repr) + set n | n in nodes
      ensures forall n | n in old(owner) :: n in owner && owner[n] == old(owner)[n] && n.next == old(n.next)
    {
      hide Linked;
      assert forall n | n in tracked :: n in owner;
      assert varsLast in nodes;
      Join(vars, varsLast, trackedVars, nodes, tracked);
      trackedVars := vars;
      nTracked := nTracked + nVars;
      tracked := nodes + tracked;
      owner := map n | n in owner.Keys + (set m | m in nodes) :: if n in nodes then null else owner[n];
      repr := repr + set n | n in nodes;
    }

    /**
     `combine_frame_var` when no other thread interferes: the exchange succeeds at once. `Splice` covers the retry loop
     under contention.
     */
    method CombineFrameVar(vars: FoundVariable, varsLast: FoundVariable, nVars: nat, ghost nodes: seq<FoundVariable>)
      requires Valid()
      requires Linked(vars, nodes) && nodes != [] && varsLast == nodes[|nodes| - 1] && nVars == |nodes|
      requires forall n | n in nodes :: n !in owner
      modifies `trackedVars, `nTracked, `tracked, `owner, `repr, varsLast`next
      ensures Valid() && repr == old(repr) + set n | n in nodes
      ensures State() == old(State()).(tracked := Values(nodes) + old(State()).tracked)
    {
      hide Linked, NarrowHistory.Holds, Distinct, Chained, RecordOk, Owns;
      Attach(vars, varsLast, nVars, nodes);
      RecordsStay(null);
      assert RecordValues(live) == old(RecordValues(live));
      assert Values(tracked) == Values(nodes) + old(Values(tracked));
    }

    /** `/r`: the tracked variables are freed, the history stays. */
    method Reset()
      requires Valid()
      modifies `trackedVars, `nTracked, `tracked
      ensures Valid() && State() == Step(old(State()), undoDepthLimit, Command.Reset)
    {
      hide NarrowHistory.Holds, Chained, RecordOk, Linked, Distinct;
      NothingLinked();
      trackedVars, nTracked := null, 0;
      tracked := [];
      RecordsStay(null);
      assert RecordValues(live) == old(RecordValues(live));
    }

    /** Gives an empty frame the list loaded from a dump. */
    method Adopt(head: FoundVariable, count: nat, ghost nodes: seq<FoundVariable>)
      requires Valid() && State() == EMPTY
      requires Linked(head, nodes) && count == |nodes|
      modifies `trackedVars, `nTracked, `tracked, `owner, `repr
      ensures Valid() && repr == old(repr) + set n | n in nodes
      ensures State() == EMPTY.(tracked := Values(nodes))
    {
      hide Linked, Distinct, NarrowHistory.Holds;
      assert |RecordValues(live)| == 0;
      trackedVars, nTracked := head, count;
      tracked := nodes;
      owner := map n | n in nodes :: null;
      repr := repr + set n | n in nodes;
    }
  }
}
