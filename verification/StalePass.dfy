/** What one narrowing can and cannot do to the slots of its list, over everything unwritten memory may hold. */
module StalePass {
  import opened Matching

  // ---------------------------------------------------------------- behind the last recorded index

  /** Entry p of the rest copied from index i on is the entry s places behind the right one. */
  ghost predicate ComesFrom(strs: seq<string>, i: nat, copied: seq<string>, p: nat, s: nat) {
    p < |copied| && i + |copied| + s <= |strs| && i + p + s < |strs| && copied[p] == strs[i + p + s]
  }

  /** The pass can only drop entries: each one copied comes from its own place or one behind it. */
  lemma {:induction false} TailDrops(strs: seq<string>, words: seq<int>, i: nat, j: nat, p: nat) returns (s: nat)
    requires i <= |strs| && j <= i && |words| > |strs| && p < |CopyPass(strs, words, i, j)|
    ensures ComesFrom(strs, i, CopyPass(strs, words, i, j), p, s)
    decreases |strs| - i
  {
    var copied := CopyPass(strs, words, i, j);
    if words[j] != -1 && i == words[j] {
      s := TailDrops(strs, words, i + 1, j + 1, p);
      s := s + 1;
    } else if p == 0 {
      s := 0;
      CopyShorter(strs, words, i + 1, j);
    } else {
      s := TailDrops(strs, words, i + 1, j, p - 1);
    }
  }

  /** It drops no more than there are words before the sentinel. */
  lemma {:induction false} TailCapped(strs: seq<string>, words: seq<int>, i: nat, j: nat, cap: nat)
    requires i <= |strs| && j <= i && |words| > |strs| && j <= cap < |words| && words[cap] == -1
    ensures |CopyPass(strs, words, i, j)| >= |strs| - i - (cap - j)
    decreases |strs| - i
  {
    if i < |strs| {
      if words[j] != -1 && i == words[j] {
        TailCapped(strs, words, i + 1, j + 1, cap);
      } else {
        TailCapped(strs, words, i + 1, j, cap);
      }
    }
  }

  /** Consecutive indices from `from` on drop that many entries, and only those. */
  lemma {:induction false} TailRun(strs: seq<string>, words: seq<int>, i: nat, j: nat, from: nat, count: nat)
    requires i <= from && from + count <= |strs| && j <= i && |words| > |strs| && j + count < |words|
    requires count > 0 && forall m | j <= m < j + count :: words[m] == from + (m - j)
    requires words[j + count] == -1
    ensures CopyPass(strs, words, i, j) == strs[i..from] + strs[from + count..]
    decreases |strs| - i
  {
    hide CopyPass;
    assert words[j] == from;
    CopyPassNext(strs, words, i, j);
    if i < from {
      TailRun(strs, words, i + 1, j, from, count);
      assert strs[i..from] == [strs[i]] + strs[i + 1..from];
    } else {
      assert strs[i..from] == [];
      if count == 1 {
        CopyTail(strs, words, i + 1, j + 1);
      } else {
        TailRun(strs, words, i + 1, j + 1, from + 1, count - 1);
        assert strs[i + 1..from + 1] == [];
      }
    }
  }

  // ---------------------------------------------------------------- the slots of a narrowed list

  /** How many entries stay in front of the last removed one: their slots are always right. */
  function Front(removed: seq<nat>): int {
    LastRemoved(removed) + 1 - |removed|
  }

  /** Front entries, then the entries behind the last removed one. */
  lemma Shape(strs: seq<string>, needle: string, stale: nat -> int) returns (front: seq<string>, start: nat)
    ensures start == LastRemoved(Removed(strs, needle)) + 1 <= |strs|
    ensures |Removed(strs, needle)| <= start
    ensures |front| == Front(Removed(strs, needle)) == start - |Removed(strs, needle)|
    ensures Matches(strs, needle) == front + strs[start..]
    ensures CopyPass(strs, Words(strs, needle, stale), 0, 0)
            == front + CopyPass(strs, Words(strs, needle, stale), start, |Removed(strs, needle)|)
  {
    hide Contains, Matches, Removed, CopyPass, Words;
    var removed := Removed(strs, needle);
    WordsConsistent(strs, needle, stale);
    RemovedIs(strs, needle);
    start := LastRemoved(removed) + 1;
    CopyRecorded(strs, needle, Words(strs, needle, stale), start);
    RemovedPrefix(strs, needle, start);
    RemovedIs(strs[..start], needle);
    KeptTail(strs, needle, start);
    front := Matches(strs[..start], needle);
  }

  lemma NarrowedSlot(strs: seq<string>, needle: string, stale: nat -> int, p: nat)
    requires p < |Matches(strs, needle)|
    ensures var copied := CopyPass(strs, Words(strs, needle, stale), 0, 0);
            |copied| <= |Matches(strs, needle)|
            && Narrowed(strs, needle, stale)[p] == if p < |copied| then Str(copied[p]) else Unwritten
  {
    hide Matches, CopyPass, Words;
    CopyPassAtMost(strs, needle, stale);
  }

  /** A front slot is right. */
  lemma FrontSlot(strs: seq<string>, needle: string, stale: nat -> int, p: nat)
    requires p < Front(Removed(strs, needle))
    ensures p < |Matches(strs, needle)| && Narrowed(strs, needle, stale)[p] == Str(Matches(strs, needle)[p])
  {
    hide Matches, CopyPass, Words, Removed, Narrowed;
    var front, start := Shape(strs, needle, stale);
    NarrowedSlot(strs, needle, stale, p);
  }

  /** With at most 200 removed, a slot holds one of as many entries from the right one on as words are left. */
  lemma SpareSlot(strs: seq<string>, needle: string, stale: nat -> int, p: nat) returns (s: nat)
    requires Front(Removed(strs, needle)) <= p && |Removed(strs, needle)| <= FIRST_CAPACITY
    requires p + (FIRST_CAPACITY - |Removed(strs, needle)|) < |Matches(strs, needle)|
    ensures s <= FIRST_CAPACITY - |Removed(strs, needle)|
    ensures Narrowed(strs, needle, stale)[p] == Str(Matches(strs, needle)[p + s])
  {
    hide Matches, CopyPass, Words, Removed, Narrowed;
    var words, r := Words(strs, needle, stale), |Removed(strs, needle)|;
    var front, start := Shape(strs, needle, stale);
    NarrowedSlot(strs, needle, stale, p);
    SentinelWord(strs, needle, stale);
    TailCapped(strs, words, start, r, FIRST_CAPACITY);
    s := TailDrops(strs, words, start, r, p - |front|);
  }

  lemma SentinelWord(strs: seq<string>, needle: string, stale: nat -> int)
    requires |Removed(strs, needle)| <= FIRST_CAPACITY
    ensures Words(strs, needle, stale)[FIRST_CAPACITY] == -1
  {
  }

  // ---------------------------------------------------------------- memory that drops a run of entries

  /** Behind r recorded indices, `count` consecutive indices from `from` on; no index anywhere else. */
  function RunOf(r: nat, from: nat, count: nat): nat -> int {
    (i: nat) => if r <= i < r + count then from + (i - r) else -1
  }

  lemma RunWords(strs: seq<string>, needle: string, from: nat, count: nat)
    requires |Removed(strs, needle)| <= FIRST_CAPACITY ==> |Removed(strs, needle)| + count <= FIRST_CAPACITY
    requires |Removed(strs, needle)| <= from && from + count <= |strs|
    ensures var r := |Removed(strs, needle)|;
            var words := Words(strs, needle, RunOf(r, from, count));
            && r <= |strs| && r + count < |words|
            && (forall m | r <= m < r + count :: words[m] == from + (m - r)) && words[r + count] == -1
  {
    hide Removed;
    RemovedIs(strs, needle);
  }

  /** The slots of a list that has lost `count` entries from p on. */
  ghost predicate RunLost(kept: seq<string>, slots: seq<Slot>, p: nat, count: nat) {
    && |slots| == |kept|
    && forall q {:trigger slots[q]} | 0 <= q < |kept| ::
         slots[q] == if q < p then Str(kept[q]) else if q + count < |kept| then Str(kept[q + count]) else Unwritten
  }

  /** Some memory drops any run of entries behind the front, if there are words for it before the sentinel. */
  lemma LoseRun(strs: seq<string>, needle: string, p: nat, count: nat) returns (stale: nat -> int)
    requires Front(Removed(strs, needle)) <= p && count > 0 && p + count <= |Matches(strs, needle)|
    requires |Removed(strs, needle)| <= FIRST_CAPACITY ==> |Removed(strs, needle)| + count <= FIRST_CAPACITY
    ensures RunLost(Matches(strs, needle), Narrowed(strs, needle, stale), p, count)
  {
    hide Matches, CopyPass, Words, Removed, Narrowed;
    var r, kept := |Removed(strs, needle)|, Matches(strs, needle);
    var front, start := Shape(strs, needle, RunOf(r, p + r, count));
    stale := RunOf(r, p + r, count);
    RunWords(strs, needle, p + r, count);
    TailRun(strs, Words(strs, needle, stale), start, r, p + r, count);
    var copied := CopyPass(strs, Words(strs, needle, stale), 0, 0);
    CutRun(front, strs, start, p + r, count);
    var slots := Narrowed(strs, needle, stale);
    forall q {:trigger slots[q]} | 0 <= q < |kept|
      ensures slots[q] == if q < p then Str(kept[q]) else if q + count < |kept| then Str(kept[q + count]) else Unwritten
    {
      NarrowedSlot(strs, needle, stale, q);
    }
  }

  /** Dropping a run of a list's rest drops it from the list. */
  lemma CutRun(front: seq<string>, strs: seq<string>, start: nat, from: nat, count: nat)
    requires start <= from && from + count <= |strs|
    ensures var kept, copied := front + strs[start..], front + (strs[start..from] + strs[from + count..]);
            var p := |front| + (from - start);
            && |copied| == |kept| - count
            && forall q | 0 <= q < |copied| :: copied[q] == if q < p then kept[q] else kept[q + count]
  {
  }

  // ---------------------------------------------------------------- steady slots

  /**
   Slot p of a list that should hold `shown` is right whatever memory holds: it lies in front of the last removed entry,
   or there are too few words before the sentinel for another entry than an equal one to get there.
   */
  predicate Steady(shown: seq<string>, removed: seq<nat>, p: nat) {
    && p < |shown|
    && (p < Front(removed)
        || (&& |removed| <= FIRST_CAPACITY && p + (FIRST_CAPACITY - |removed|) < |shown|
            && forall q | p <= q <= p + (FIRST_CAPACITY - |removed|) :: shown[q] == shown[p]))
  }

  lemma SteadySlot(strs: seq<string>, needle: string, shown: seq<string>, p: nat, stale: nat -> int)
    requires shown <= Matches(strs, needle) && Steady(shown, Removed(strs, needle), p)
    ensures Narrowed(strs, needle, stale)[p] == Str(shown[p])
  {
    hide Matches, Removed, Narrowed;
    if p < Front(Removed(strs, needle)) {
      FrontSlot(strs, needle, stale, p);
    } else {
      var s := SpareSlot(strs, needle, stale, p);
      assert shown[p + s] == shown[p];
    }
  }

  /** Some memory puts a wrong entry, or none, into a slot that is not steady. */
  lemma UnsteadySlot(strs: seq<string>, needle: string, p: nat) returns (stale: nat -> int)
    requires p < |Matches(strs, needle)| && !Steady(Matches(strs, needle), Removed(strs, needle), p)
    ensures Narrowed(strs, needle, stale)[p] != Str(Matches(strs, needle)[p])
  {
    hide Matches, Removed, Narrowed;
    var shown, r := Matches(strs, needle), |Removed(strs, needle)|;
    if r > FIRST_CAPACITY || p + (FIRST_CAPACITY - r) >= |shown| {
      stale := LoseRun(strs, needle, p, |shown| - p);
    } else {
      var q :| p <= q <= p + (FIRST_CAPACITY - r) && shown[q] != shown[p];
      stale := LoseRun(strs, needle, p, q - p);
    }
  }

  /** An entry at the end that contains the needle is kept. */
  lemma EndKept(kept: seq<string>, last: string, needle: string)
    requires Contains(last, needle)
    ensures Removed(kept + [last], needle) == Removed(kept, needle)
    ensures Matches(kept + [last], needle) == Matches(kept, needle) + [last]
  {
    hide Contains;
    assert (kept + [last])[..|kept|] == kept;
  }

  /** The same in front of an entry that runs on into memory, which may then show up in the slot. */
  lemma UnsteadyOpen(kept: seq<string>, needle: string, p: nat) returns (stale: nat -> int, behind: string)
    requires p < |Matches(kept, needle)| && !Steady(Matches(kept, needle), Removed(kept, needle), p)
    ensures Contains(needle + behind, needle)
    ensures |Narrowed(kept + [needle + behind], needle, stale)| == |Matches(kept, needle)| + 1
    ensures Narrowed(kept + [needle + behind], needle, stale)[p] != Str(Matches(kept, needle)[p])
  {
    hide Matches, Removed, Narrowed, Contains;
    var shown, r := Matches(kept, needle), |Removed(kept, needle)|;
    behind := if needle == shown[p] then "x" else "";
    var last := needle + behind;
    assert last != shown[p];
    ContainsPrefix(last, |needle|);
    assert last[..|needle|] == needle;
    EndKept(kept, last, needle);
    var strs := kept + [last];
    if r <= FIRST_CAPACITY && p + (FIRST_CAPACITY - r) == |shown| {
      stale := LoseRun(strs, needle, p, |shown| - p);
    } else if r > FIRST_CAPACITY || p + (FIRST_CAPACITY - r) > |shown| {
      stale := LoseRun(strs, needle, p, |shown| + 1 - p);
    } else {
      var q :| p <= q <= p + (FIRST_CAPACITY - r) && shown[q] != shown[p];
      stale := LoseRun(strs, needle, p, q - p);
    }
  }

  /** With one word left the entry in front of the last can be lost, so that the last takes its place. */
  lemma LoseLastButOne(kept: seq<string>, last: string, needle: string) returns (stale: nat -> int)
    requires Contains(last, needle) && Matches(kept, needle) != []
    requires Front(Removed(kept, needle)) < |Matches(kept, needle)|
    requires |Removed(kept, needle)| < FIRST_CAPACITY
    ensures var m := |Matches(kept, needle)|;
            var slots := Narrowed(kept + [last], needle, stale);
            |slots| == m + 1 && slots[..m] == Slots(Matches(kept, needle)[..m - 1] + [last])
  {
    hide Matches, Removed, Narrowed, Contains;
    EndKept(kept, last, needle);
    stale := LoseRun(kept + [last], needle, |Matches(kept, needle)| - 1, 1);
  }

  /** Unless one word or none is left before the sentinel, the last two entries behind the front can both be lost. */
  lemma LoseLastTwo(strs: seq<string>, needle: string) returns (stale: nat -> int)
    requires var m := |Matches(strs, needle)|; m >= 2 && Front(Removed(strs, needle)) <= m - 2
    requires |Removed(strs, needle)| != FIRST_CAPACITY && |Removed(strs, needle)| != FIRST_CAPACITY - 1
    ensures Narrowed(strs, needle, stale)[|Matches(strs, needle)| - 2] == Unwritten
  {
    hide Matches, Removed, Narrowed;
    stale := LoseRun(strs, needle, |Matches(strs, needle)| - 2, 2);
  }
}
