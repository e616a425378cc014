/** Match lists: substring search, the fresh search of a dictionary, and narrowing a cached list in two passes. */
module Matching {

  predicate OccursAt(hay: string, needle: string, i: nat) {
    i + |needle| <= |hay| && hay[i..i + |needle|] == needle
  }

  /** strstr(hay, needle) != NULL. */
  predicate Contains(hay: string, needle: string) {
    exists i | 0 <= i <= |hay| :: OccursAt(hay, needle, i)
  }

  /** Told without indices: the needle with anything in front of it and anything behind it. */
  lemma ContainsIff(hay: string, needle: string)
    ensures Contains(hay, needle) <==> exists a: string, c: string :: hay == a + needle + c
  {
    if Contains(hay, needle) {
      var i :| 0 <= i <= |hay| && OccursAt(hay, needle, i);
      assert hay == hay[..i] + needle + hay[i + |needle|..];
    }
    if a: string, c: string :| hay == a + needle + c {
      assert hay[|a|..|a| + |needle|] == needle;
      assert OccursAt(hay, needle, |a|);
    }
  }

  lemma ContainsItself(s: string)
    ensures Contains(s, s)
  {
    assert OccursAt(s, s, 0);
  }

  lemma ContainsPrefix(s: string, n: nat)
    requires n <= |s|
    ensures Contains(s, s[..n])
  {
    assert OccursAt(s, s[..n], 0);
  }

  lemma ContainsTransitive(a: string, b: string, c: string)
    requires Contains(a, b) && Contains(b, c)
    ensures Contains(a, c)
  {
    var i :| 0 <= i <= |a| && OccursAt(a, b, i);
    var j :| 0 <= j <= |b| && OccursAt(b, c, j);
    forall k | 0 <= k < |c| ensures a[i + j..i + j + |c|][k] == c[k] {
      assert a[i..i + |b|][j + k] == b[j + k] && b[j..j + |c|][k] == c[k];
    }
    assert OccursAt(a, c, i + j);
  }

  /** The strings containing the needle, in order. */
  function Matches(strs: seq<string>, needle: string): seq<string> {
    if strs == [] then [] else
      var n := |strs| - 1;
      Matches(strs[..n], needle) + if Contains(strs[n], needle) then [strs[n]] else []
  }

  /** What a search returns: the dictionary entries containing the needle, then the needle itself. */
  function Find(dict: seq<string>, needle: string): (found: seq<string>)
    ensures found != [] && found[|found| - 1] == needle
  {
    Matches(dict, needle) + [needle]
  }

  lemma {:induction false} MatchesContain(strs: seq<string>, needle: string)
    ensures forall s | s in Matches(strs, needle) :: s in strs && Contains(s, needle)
  {
    if strs != [] {
      MatchesContain(strs[..|strs| - 1], needle);
    }
  }

  /** The matches of two lists in a row, and of one string: the order of the strings is kept. */
  lemma {:induction false} MatchesInOrder(a: seq<string>, b: seq<string>, needle: string)
    ensures Matches(a + b, needle) == Matches(a, needle) + Matches(b, needle)
  {
    hide Contains;
    if b == [] {
      assert a + b == a;
    } else {
      var n := |b| - 1;
      MatchesInOrder(a, b[..n], needle);
      assert (a + b)[..|a| + n] == a + b[..n];
    }
  }

  lemma {:induction false} MatchesMembers(strs: seq<string>, needle: string)
    ensures forall s :: s in Matches(strs, needle) <==> s in strs && Contains(s, needle)
  {
    hide Contains;
    if strs != [] {
      MatchesMembers(strs[..|strs| - 1], needle);
      assert strs == strs[..|strs| - 1] + [strs[|strs| - 1]];
    }
  }

  /** A search finds the strings of the dictionary with the needle anywhere in them, and the needle. */
  lemma FindIs(dict: seq<string>, needle: string)
    ensures forall s :: s in Find(dict, needle)
                        <==> s == needle || (s in dict && exists a: string, c: string :: s == a + needle + c)
  {
    hide Contains, Matches;
    MatchesMembers(dict, needle);
    forall s ensures s in Find(dict, needle)
                     <==> s == needle || (s in dict && exists a: string, c: string :: s == a + needle + c)
    {
      ContainsIff(s, needle);
    }
  }

  /** Narrowing removes exactly the entries that have the needle nowhere in them. */
  lemma RemovedIff(strs: seq<string>, needle: string, i: nat)
    requires i < |strs|
    ensures i in Removed(strs, needle) <==> !exists a: string, c: string :: strs[i] == a + needle + c
  {
    hide Contains, Removed;
    RemovedMembers(strs, needle, i);
    ContainsIff(strs[i], needle);
  }

  /** The needle at the end of an entry. */
  lemma FindsAtTheEnd()
    ensures Find(["abc"], "bc") == ["abc", "bc"] && Removed(["abc"], "bc") == []
  {
    assert "abc" == "a" + "bc" + "";
    ContainsIff("abc", "bc");
    hide Contains;
    assert ["abc"][..0] == [];
  }

  /** Filtering by the longer needle absorbs filtering by the shorter one. */
  lemma {:induction false} MatchesAbsorb(strs: seq<string>, a: string, b: string)
    requires Contains(b, a)
    ensures Matches(Matches(strs, a), b) == Matches(strs, b)
  {
    hide Contains;
    if strs != [] {
      var n := |strs| - 1;
      MatchesAbsorb(strs[..n], a, b);
      var kept := Matches(strs[..n], a);
      if Contains(strs[n], a) {
        assert (kept + [strs[n]])[..|kept|] == kept;
      } else {
        assert kept + [] == kept;
        if Contains(strs[n], b) {
          ContainsTransitive(strs[n], b, a);
        }
      }
    }
  }

  /** Narrowing a result, its last entry replaced by a longer input, gives the fresh search for that input. */
  lemma NarrowingIsFinding(dict: seq<string>, a: string, b: string)
    requires Contains(b, a)
    ensures var cached := Find(dict, a);
            Matches(cached[..|cached| - 1] + [b], b) == Find(dict, b)
  {
    var cached := Find(dict, a);
    assert cached[..|cached| - 1] == Matches(dict, a);
    assert (Matches(dict, a) + [b])[..|Matches(dict, a)|] == Matches(dict, a);
    MatchesAbsorb(dict, a, b);
    ContainsItself(b);
  }

  // ---------------------------------------------------------------- narrow_matches

  /** One word of a NULL-terminated array of strings; in a new array some may never have been written. */
  datatype Slot = Null | Unwritten | Str(s: string)

  predicate Written(slots: seq<Slot>) {
    forall i | 0 <= i < |slots| :: slots[i].Str?
  }

  function Texts(slots: seq<Slot>): (strs: seq<string>)
    requires Written(slots)
    ensures |strs| == |slots|
  {
    seq(|slots|, i requires 0 <= i < |slots| => slots[i].s)
  }

  lemma TextsOfSlots(strs: seq<string>)
    ensures Written(Slots(strs)) && Texts(Slots(strs)) == strs
  {
  }

  lemma TextsNext(slots: seq<Slot>, s: string)
    requires Written(slots)
    ensures Written(slots + [Str(s)]) && Texts(slots + [Str(s)]) == Texts(slots) + [s]
  {
  }

  function Slots(strs: seq<string>): (slots: seq<Slot>)
    ensures |slots| == |strs|
  {
    seq(|strs|, i requires 0 <= i < |strs| => Str(strs[i]))
  }

  lemma SlotsMembers(strs: seq<string>)
    ensures forall s :: Str(s) in Slots(strs) <==> s in strs
  {
    forall s | s in strs ensures Str(s) in Slots(strs) {
      var i :| 0 <= i < |strs| && strs[i] == s;
      assert Slots(strs)[i] == Str(s);
    }
  }

  /** Indices of the strings a narrowing removes. */
  function Removed(strs: seq<string>, needle: string): seq<nat> {
    if strs == [] then [] else
      var n := |strs| - 1;
      Removed(strs[..n], needle) + if Contains(strs[n], needle) then [] else [n]
  }

  lemma {:induction false} RemovedCount(strs: seq<string>, needle: string)
    ensures |Removed(strs, needle)| + |Matches(strs, needle)| == |strs|
  {
    hide Contains;
    if strs != [] {
      RemovedCount(strs[..|strs| - 1], needle);
    }
  }

  lemma {:induction false} RemovedIncreases(strs: seq<string>, needle: string)
    ensures forall j | 0 <= j < |Removed(strs, needle)| :: Removed(strs, needle)[j] < |strs|
    ensures forall j, k | 0 <= j < k < |Removed(strs, needle)| :: Removed(strs, needle)[j] < Removed(strs, needle)[k]
  {
    if strs != [] {
      RemovedIncreases(strs[..|strs| - 1], needle);
    }
  }

  lemma {:induction false} RemovedMembers(strs: seq<string>, needle: string, i: nat)
    requires i < |strs|
    ensures i in Removed(strs, needle) <==> !Contains(strs[i], needle)
  {
    var n := |strs| - 1;
    if i < n {
      RemovedMembers(strs[..n], needle, i);
    } else {
      RemovedIncreases(strs[..n], needle);
    }
  }

  lemma RemovedIs(strs: seq<string>, needle: string)
    ensures var removed := Removed(strs, needle);
            && |removed| + |Matches(strs, needle)| == |strs|
            && (forall j | 0 <= j < |removed| :: removed[j] < |strs|)
            && (forall j, k | 0 <= j < k < |removed| :: removed[j] < removed[k])
            && forall i | 0 <= i < |strs| :: i in removed <==> !Contains(strs[i], needle)
  {
    hide Contains, Removed, Matches;
    RemovedCount(strs, needle);
    RemovedIncreases(strs, needle);
    forall i | 0 <= i < |strs| ensures i in Removed(strs, needle) <==> !Contains(strs[i], needle) {
      RemovedMembers(strs, needle, i);
    }
  }

  /** The removed indices below i are the first |Removed(strs[..i])| ones. */
  lemma {:induction false} RemovedPrefix(strs: seq<string>, needle: string, i: nat)
    requires i <= |strs|
    ensures var before, all := Removed(strs[..i], needle), Removed(strs, needle);
            && |before| <= |all| && all[..|before|] == before
            && (forall k | |before| <= k < |all| :: all[k] >= i)
  {
    if i == |strs| {
      assert strs[..i] == strs;
    } else {
      var n := |strs| - 1;
      RemovedPrefix(strs[..n], needle, i);
      assert strs[..n][..i] == strs[..i];
    }
  }

  /** Where the sentinel is written, the initial capacity of the index array. */
  const FIRST_CAPACITY := 200

  /**
   The i-th word behind the start of the index array after the first pass: a recorded index, the sentinel while the
   array has not grown, or else whatever memory holds, in the array or behind it.
   */
  function WordAt(removed: seq<nat>, stale: nat -> int, i: nat): int {
    if i < |removed| then removed[i]
    else if i == FIRST_CAPACITY && |removed| <= FIRST_CAPACITY then -1
    else stale(i)
  }

  /** The index array with these indices recorded. */
  ghost predicate Records(remInd: array<int>, remCap: nat, removed: seq<nat>, stale: nat -> int)
    reads remInd
  {
    && |removed| <= remCap <= remInd.Length && FIRST_CAPACITY < remInd.Length
    && (if |removed| <= FIRST_CAPACITY then remCap == FIRST_CAPACITY else remCap > FIRST_CAPACITY)
    && forall k | 0 <= k < remInd.Length :: remInd[k] == WordAt(removed, stale, k)
  }

  /** Records one more index, in a larger array if this one is full. */
  method AddIndex(remInd: array<int>, remCap: nat, nRemoved: nat, i: nat, stale: nat -> int, ghost removed: seq<nat>)
    returns (arr: array<int>, cap: nat)
    requires Records(remInd, remCap, removed, stale) && nRemoved == |removed|
    modifies remInd
    ensures Records(arr, cap, removed + [i], stale) && (arr == remInd || fresh(arr))
  {
    arr, cap := remInd, remCap;
    if cap == nRemoved {
      cap := cap * 2;
      arr := Grow(remInd, nRemoved, cap, stale);
    }
    arr[nRemoved] := i;
  }

  /**
   The first pass of `narrow_matches`: the indices to drop, in an array that doubles when full. False when it reads an
   entry that was never written.
   */
  method RecordRemoved(cpp: array<Slot>, needle: string, cpplen: nat, stale: nat -> int)
    returns (ok: bool, remInd: array<int>, nRemoved: nat)
    requires cpplen <= cpp.Length && forall i | 0 <= i < cpplen :: cpp[i] != Null
    ensures ok <==> Written(cpp[..cpplen])
    ensures ok ==>
              var removed := Removed(Texts(cpp[..cpplen]), needle);
              && fresh(remInd) && nRemoved == |removed| <= remInd.Length && FIRST_CAPACITY < remInd.Length
              && forall k | 0 <= k < remInd.Length :: remInd[k] == WordAt(removed, stale, k)
    ensures ok ==>
              forall i | 0 <= i < cpplen ::
                i in Removed(Texts(cpp[..cpplen]), needle)
                <==> !exists a: string, c: string :: Texts(cpp[..cpplen])[i] == a + needle + c
  {
    hide Contains, Texts, Removed;
    var remCap: nat := FIRST_CAPACITY;
    remInd := new int[remCap + 1]((k: nat) => stale(k));
    remInd[remCap] := -1;
    NoTexts(cpp[..0], needle);
    nRemoved := 0;
    for i := 0 to cpplen
      invariant fresh(remInd) && Written(cpp[..i]) && nRemoved == |Removed(Texts(cpp[..i]), needle)|
      invariant Records(remInd, remCap, Removed(Texts(cpp[..i]), needle), stale)
    {
      if cpp[i] == Unwritten {
        assert cpp[..cpplen][i] == Unwritten;
        return false, remInd, nRemoved;
      }
      TextsNext(cpp[..i], cpp[i].s);
      assert cpp[..i + 1] == cpp[..i] + [Str(cpp[i].s)];
      RemovedNext(Texts(cpp[..i]), cpp[i].s, needle);
      if !Contains(cpp[i].s, needle) {
        remInd, remCap := AddIndex(remInd, remCap, nRemoved, i, stale, Removed(Texts(cpp[..i]), needle));
        nRemoved := nRemoved + 1;
      }
    }
    ok := true;
    forall i | 0 <= i < cpplen
      ensures i in Removed(Texts(cpp[..cpplen]), needle)
              <==> !exists a: string, c: string :: Texts(cpp[..cpplen])[i] == a + needle + c
    {
      RemovedIff(Texts(cpp[..cpplen]), needle, i);
    }
  }

  lemma NoTexts(slots: seq<Slot>, needle: string)
    requires slots == []
    ensures Written(slots) && Removed(Texts(slots), needle) == []
  {
  }

  lemma RemovedNext(strs: seq<string>, s: string, needle: string)
    ensures Removed(strs + [s], needle) == Removed(strs, needle) + if Contains(s, needle) then [] else [|strs|]
  {
    assert (strs + [s])[..|strs|] == strs;
  }

  /** malloc a larger array and memcpy the first n entries; the others are what memory holds. */
  method Grow(a: array<int>, n: nat, cap: nat, stale: nat -> int) returns (larger: array<int>)
    requires n <= a.Length && n <= cap
    ensures fresh(larger) && larger.Length == cap
    ensures forall k | 0 <= k < cap :: larger[k] == if k < n then a[k] else stale(k)
  {
    larger := new int[cap]((k: nat) => stale(k));
    forall k | 0 <= k < n {
      larger[k] := a[k];
    }
  }

  /** One step of the copying pass: the next recorded index is i exactly when strs[i] is to be dropped. */
  lemma CopyStep(strs: seq<string>, needle: string, i: nat)
    requires i < |strs|
    ensures var j, removed := |Removed(strs[..i], needle)|, Removed(strs, needle);
            && (Contains(strs[i], needle) <==> !(j < |removed| && i == removed[j]))
            && Matches(strs[..i + 1], needle)
               == Matches(strs[..i], needle) + (if Contains(strs[i], needle) then [strs[i]] else [])
            && |Removed(strs[..i + 1], needle)| == j + (if Contains(strs[i], needle) then 0 else 1)
            && |Removed(strs[..i + 1], needle)| <= |removed|
            && |Matches(strs[..i + 1], needle)| <= |strs| - |removed|
  {
    hide Contains, Slots;
    var j, removed := |Removed(strs[..i], needle)|, Removed(strs, needle);
    assert strs[..i + 1][..i] == strs[..i];
    RemovedPrefix(strs, needle, i);
    RemovedPrefix(strs, needle, i + 1);
    RemovedIs(strs, needle);
    MatchesPrefix(strs, needle, i + 1);
  }

  lemma {:induction false} MatchesPrefix(strs: seq<string>, needle: string, i: nat)
    requires i <= |strs|
    ensures |Matches(strs[..i], needle)| <= |Matches(strs, needle)|
  {
    if i == |strs| {
      assert strs[..i] == strs;
    } else {
      assert strs[..|strs| - 1][..i] == strs[..i];
      MatchesPrefix(strs[..|strs| - 1], needle, i);
    }
  }

  lemma NothingYet(needle: string)
    ensures Removed([], needle) == [] && Matches([], needle) == []
  {
  }

  // ---------------------------------------------------------------- the copying pass without its sentinel

  /**
   The copying pass reading raw words of the index array: the recorded indices, then whatever memory holds. The
   sentinel is written once, at the initial capacity, so only exactly 200 removals are sure to meet it.
   */
  function CopyPass(strs: seq<string>, words: seq<int>, i: nat, j: nat): seq<string>
    requires i <= |strs| && j <= i && |words| > |strs|
    decreases |strs| - i
  {
    if i == |strs| then []
    else if words[j] != -1 && i == words[j] then CopyPass(strs, words, i + 1, j + 1)
    else [strs[i]] + CopyPass(strs, words, i + 1, j)
  }

  function LastRemoved(removed: seq<nat>): int {
    if removed == [] then -1 else removed[|removed| - 1]
  }

  lemma {:induction false} CopyShorter(strs: seq<string>, words: seq<int>, i: nat, j: nat)
    requires i <= |strs| && j <= i && |words| > |strs|
    ensures |CopyPass(strs, words, i, j)| <= |strs| - i
    decreases |strs| - i
  {
    if i < |strs| {
      CopyShorter(strs, words, i + 1, if words[j] != -1 && i == words[j] then j + 1 else j);
    }
  }

  /** Past the last recorded index the pass copies everything unless the next word happens to be an index ahead. */
  lemma {:induction false} CopyTail(strs: seq<string>, words: seq<int>, i: nat, j: nat)
    requires i <= |strs| && j <= i && |words| > |strs|
    ensures !(i <= words[j] < |strs|) ==> CopyPass(strs, words, i, j) == strs[i..]
    ensures i <= words[j] < |strs| ==> |CopyPass(strs, words, i, j)| < |strs| - i
    decreases |strs| - i
  {
    if i < |strs| {
      if i == words[j] {
        CopyShorter(strs, words, i + 1, j + 1);
      } else {
        CopyTail(strs, words, i + 1, j);
        assert strs[i..] == [strs[i]] + strs[i + 1..];
      }
    }
  }

  /** Up to the last recorded index the pass drops exactly the recorded ones. */
  lemma {:induction false} CopyRecorded(strs: seq<string>, needle: string, words: seq<int>, i: nat)
    requires |words| > |strs| && i <= |strs|
    requires var removed := Removed(strs, needle);
             |removed| <= |words| && words[..|removed|] == removed
    requires i <= LastRemoved(Removed(strs, needle)) + 1
    ensures |Removed(strs[..i], needle)| <= i
    ensures CopyPass(strs, words, 0, 0)
            == Matches(strs[..i], needle) + CopyPass(strs, words, i, |Removed(strs[..i], needle)|)
  {
    hide Contains, Matches, Removed;
    RemovedIs(strs[..i], needle);
    if i == 0 {
      assert strs[..0] == [];
      NothingYet(needle);
    } else {
      var k := i - 1;
      CopyRecorded(strs, needle, words, k);
      CopyStep(strs, needle, k);
      RemovedPrefix(strs, needle, k);
      RecordedAhead(strs, needle, k);
      var j := |Removed(strs[..k], needle)|;
      assert words[j] == words[..|Removed(strs, needle)|][j];
    }
  }

  /** Below the last recorded index there is a recorded index still to come. */
  lemma RecordedAhead(strs: seq<string>, needle: string, k: nat)
    requires k <= |strs| && k <= LastRemoved(Removed(strs, needle))
    ensures |Removed(strs[..k], needle)| < |Removed(strs, needle)|
  {
    RemovedPrefix(strs, needle, k);
    RemovedIs(strs[..k], needle);
  }

  /**
   The pass as written returns the right list exactly when the word behind the recorded indices is not the index of a
   later entry.
   */
  lemma CopyPassCorrectIff(strs: seq<string>, needle: string, words: seq<int>)
    requires |words| > |strs|
    requires var removed := Removed(strs, needle);
             |removed| <= |strs| && words[..|removed|] == removed
    ensures var removed := Removed(strs, needle);
            CopyPass(strs, words, 0, 0) == Matches(strs, needle)
            <==> !(LastRemoved(removed) < words[|removed|] < |strs|)
  {
    var removed := Removed(strs, needle);
    RemovedIs(strs, needle);
    var i := LastRemoved(removed) + 1;
    CopyRecorded(strs, needle, words, i);
    RemovedPrefix(strs, needle, i);
    assert |Removed(strs[..i], needle)| == |removed|;
    CopyTail(strs, words, i, |removed|);
    KeptTail(strs, needle, i);
  }

  lemma LastKept(strs: seq<string>, needle: string)
    requires strs != [] && LastRemoved(Removed(strs, needle)) < |strs| - 1
    ensures Contains(strs[|strs| - 1], needle)
  {
  }

  /** Nothing is removed from index i on. */
  lemma {:induction false} KeptTail(strs: seq<string>, needle: string, i: nat)
    requires i <= |strs| && LastRemoved(Removed(strs, needle)) < i
    ensures Matches(strs, needle) == Matches(strs[..i], needle) + strs[i..]
  {
    if i == |strs| {
      assert strs[..i] == strs;
    } else {
      var n := |strs| - 1;
      LastKept(strs, needle);
      hide Contains;
      KeptTail(strs[..n], needle, i);
      assert strs[..n][..i] == strs[..i];
      assert strs[i..] == strs[..n][i..] + [strs[n]];
    }
  }

  /**
   Index words the first pass may leave: the recorded indices, the sentinel while the array has not grown, and
   whatever memory holds anywhere else.
   */
  ghost predicate Consistent(strs: seq<string>, needle: string, words: seq<int>) {
    var removed := Removed(strs, needle);
    && |words| > |strs| && |words| > |removed| && |words| > FIRST_CAPACITY
    && words[..|removed|] == removed
    && (|removed| <= FIRST_CAPACITY ==> words[FIRST_CAPACITY] == -1)
  }

  /** Index words that hide entry `next` behind the recorded indices. */
  lemma BadWords(strs: seq<string>, needle: string, next: nat) returns (words: seq<int>)
    requires |Removed(strs, needle)| != FIRST_CAPACITY
    ensures Consistent(strs, needle, words) && words[|Removed(strs, needle)|] == next
  {
    var removed: seq<int> := Removed(strs, needle);
    RemovedIs(strs, needle);
    words := removed + [next] + seq(|strs| + FIRST_CAPACITY + 1, _ => -1);
  }

  /**
   The copying pass as written is right whatever the unwritten words hold exactly when 200 entries are removed, so
   that the sentinel stops it, or when nothing follows the last removed entry.
   */
  lemma CopyPassReliableIff(strs: seq<string>, needle: string)
    ensures (forall words: seq<int> | Consistent(strs, needle, words) ::
               CopyPass(strs, words, 0, 0) == Matches(strs, needle))
            <==> |Removed(strs, needle)| == 200 || LastRemoved(Removed(strs, needle)) == |strs| - 1
  {
    hide Removed, Matches, Contains;
    var removed := Removed(strs, needle);
    RemovedIs(strs, needle);
    forall words: seq<int> | Consistent(strs, needle, words)
      ensures CopyPass(strs, words, 0, 0) == Matches(strs, needle)
              <==> !(LastRemoved(removed) < words[|removed|] < |strs|)
    {
      CopyPassCorrectIff(strs, needle, words);
    }
    if |removed| != FIRST_CAPACITY && LastRemoved(removed) != |strs| - 1 {
      var words := BadWords(strs, needle, |strs| - 1);
      assert Consistent(strs, needle, words);
    }
  }

  /** In a completion list, whose last entry is the input itself, only the removal of 200 entries is safe. */
  lemma CompletionReliableIff(shown: seq<string>, needle: string)
    ensures (forall words: seq<int> | Consistent(shown + [needle], needle, words) ::
               CopyPass(shown + [needle], words, 0, 0) == Matches(shown + [needle], needle))
            <==> |Removed(shown + [needle], needle)| == 200
  {
    hide Matches, Contains;
    var strs := shown + [needle];
    CopyPassReliableIff(strs, needle);
    RemovedIs(strs, needle);
    ContainsItself(needle);
    assert strs[|shown|] == needle;
    assert LastRemoved(Removed(strs, needle)) != |shown| by {
      assert |shown| !in Removed(strs, needle);
    }
  }

  /** A stale word drops an entry to be kept: of "a" and "b", narrowed by "b", nothing remains. */
  lemma StaleWordDropsMatch()
    ensures var strs, words := ["a", "b"], [0, 1] + seq(FIRST_CAPACITY, _ => -1);
            && Consistent(strs, "b", words)
            && Matches(strs, "b") == ["b"]
            && CopyPass(strs, words, 0, 0) == []
  {
    var strs, words := ["a", "b"], [0, 1] + seq(FIRST_CAPACITY, _ => -1);
    assert strs[..1] == ["a"] && strs[..1][..0] == [];
    ContainsItself("b");
    assert !Contains("a", "b") by {
      assert "a"[0..1][0] != "b"[0];
    }
    assert Removed(strs[..1], "b") == [0] && Removed(strs, "b") == [0];
    assert Matches(strs[..1], "b") == [];
    assert CopyPass(strs, words, 2, 2) == [] && CopyPass(strs, words, 1, 1) == [];
  }

  // ---------------------------------------------------------------- both passes

  /** The index words the copying pass may read. */
  function Words(strs: seq<string>, needle: string, stale: nat -> int): (words: seq<int>)
    ensures |words| == |strs| + FIRST_CAPACITY + 1
  {
    seq(|strs| + FIRST_CAPACITY + 1, i requires 0 <= i => WordAt(Removed(strs, needle), stale, i))
  }

  /** The word behind the recorded indices happens to be the index of a later entry. */
  predicate Loses(strs: seq<string>, needle: string, stale: nat -> int) {
    var removed := Removed(strs, needle);
    LastRemoved(removed) < WordAt(removed, stale, |removed|) < |strs|
  }

  lemma WordsConsistent(strs: seq<string>, needle: string, stale: nat -> int)
    ensures Consistent(strs, needle, Words(strs, needle, stale))
    ensures |Removed(strs, needle)| <= |strs|
    ensures Words(strs, needle, stale)[|Removed(strs, needle)|]
            == WordAt(Removed(strs, needle), stale, |Removed(strs, needle)|)
  {
    RemovedIs(strs, needle);
  }

  /** The pass never copies more entries than the filter keeps, and as many only if it is the filter. */
  lemma CopyPassAtMost(strs: seq<string>, needle: string, stale: nat -> int)
    ensures var copied := CopyPass(strs, Words(strs, needle, stale), 0, 0);
            && |copied| <= |Matches(strs, needle)|
            && (|copied| == |Matches(strs, needle)| <==> !Loses(strs, needle, stale))
            && (copied == Matches(strs, needle) <==> !Loses(strs, needle, stale))
  {
    hide Contains, Matches, Removed, CopyPass, Words;
    WordsConsistent(strs, needle, stale);
    var words, removed := Words(strs, needle, stale), Removed(strs, needle);
    CopyPassCorrectIff(strs, needle, words);
    var i := LastRemoved(removed) + 1;
    RemovedIs(strs, needle);
    CopyRecorded(strs, needle, words, i);
    RemovedPrefix(strs, needle, i);
    CopyTail(strs, words, i, |removed|);
    KeptTail(strs, needle, i);
  }

  /**
   The list `narrow_matches` leaves, over memory that holds `stale` where nothing was written: what the copying pass
   copies, and behind it the slots it was meant to fill.
   */
  function Narrowed(strs: seq<string>, needle: string, stale: nat -> int): (slots: seq<Slot>)
    ensures |slots| == |Matches(strs, needle)|
    ensures forall i | 0 <= i < |slots| :: slots[i] != Null
  {
    CopyPassAtMost(strs, needle, stale);
    var copied := CopyPass(strs, Words(strs, needle, stale), 0, 0);
    Slots(copied) + seq(|Matches(strs, needle)| - |copied|, _ => Unwritten)
  }

  /** Both passes of `narrow_matches` as written; false when they read an entry that was never written. */
  method NarrowMatches(cpp: array<Slot>, needle: string, cpplen: nat, stale: nat -> int)
    returns (ok: bool, tmp: array<Slot>, nRemoved: nat)
    requires cpplen <= cpp.Length && forall i | 0 <= i < cpplen :: cpp[i] != Null
    ensures ok <==> Written(cpp[..cpplen])
    ensures ok ==>
              var strs := Texts(cpp[..cpplen]);
              && fresh(tmp) && nRemoved == cpplen - |Matches(strs, needle)|
              && tmp[..] == Narrowed(strs, needle, stale) + [Null]
  {
    hide Contains, Matches, Removed, Narrowed, WordAt;
    var remInd;
    ok, remInd, nRemoved := RecordRemoved(cpp, needle, cpplen, stale);
    if !ok {
      return ok, new Slot[0], 0;
    }
    ghost var strs := Texts(cpp[..cpplen]);
    assert forall i | 0 <= i < cpplen :: cpp[i] == cpp[..cpplen][i] == Str(strs[i]);
    RemovedCount(strs, needle);
    tmp := CopyEntries(cpp, cpplen, remInd, nRemoved, stale, strs, needle);
  }

  /** The copying pass: recorded indices are skipped, and whatever else the next index word names. */
  method CopyEntries(cpp: array<Slot>, cpplen: nat, remInd: array<int>, nRemoved: nat, stale: nat -> int,
                     ghost strs: seq<string>, ghost needle: string)
    returns (tmp: array<Slot>)
    requires cpplen == |strs| <= cpp.Length && forall i | 0 <= i < cpplen :: cpp[i] == Str(strs[i])
    requires nRemoved == |Removed(strs, needle)| <= remInd.Length && FIRST_CAPACITY < remInd.Length
    requires nRemoved + |Matches(strs, needle)| == cpplen
    requires forall k | 0 <= k < remInd.Length :: remInd[k] == WordAt(Removed(strs, needle), stale, k)
    ensures fresh(tmp) && tmp[..] == Narrowed(strs, needle, stale) + [Null]
  {
    hide Contains, Matches, Removed, CopyPass, Loses, Words, WordAt, Slots, Narrowed;
    ghost var words := Words(strs, needle, stale);
    CopyPassAtMost(strs, needle, stale);
    tmp := new Slot[cpplen - nRemoved + 1](_ => Unwritten);
    tmp[cpplen - nRemoved] := Null;
    var ignore, ti := 0, 0;
    ghost var done: seq<string> := [];
    for i := 0 to cpplen
      invariant ignore <= i && CopyPass(strs, words, 0, 0) == done + CopyPass(strs, words, i, ignore)
      invariant ti == |done| <= cpplen - nRemoved && forall k | 0 <= k < ti :: tmp[k] == Str(done[k])
      invariant forall k | ti <= k < cpplen - nRemoved :: tmp[k] == Unwritten
      invariant tmp[cpplen - nRemoved] == Null
    {
      CopyPassNext(strs, words, i, ignore);
      WordRead(strs, needle, stale, ignore, remInd.Length);
      var word := if ignore < remInd.Length then remInd[ignore] else stale(ignore);
      if word != -1 && i == word {
        ignore := ignore + 1;
      } else {
        tmp[ti] := cpp[i];
        ti := ti + 1;
        done := done + [strs[i]];
      }
    }
    CopyPassEnd(strs, words, ignore);
    assert done + [] == done;
    NarrowedIs(strs, needle, stale, tmp[..]);
  }

  lemma NarrowedIs(strs: seq<string>, needle: string, stale: nat -> int, tmp: seq<Slot>)
    requires var copied, m := CopyPass(strs, Words(strs, needle, stale), 0, 0), |Matches(strs, needle)|;
             && |copied| <= m && |tmp| == m + 1 && tmp[m] == Null
             && (forall k | 0 <= k < |copied| :: tmp[k] == Str(copied[k]))
             && forall k | |copied| <= k < m :: tmp[k] == Unwritten
    ensures tmp == Narrowed(strs, needle, stale) + [Null]
  {
    hide Contains, Matches, CopyPass, Words;
  }

  /** Unless it loses an entry the list is the filter. */
  lemma NarrowedIsFilter(strs: seq<string>, needle: string, stale: nat -> int)
    ensures Narrowed(strs, needle, stale) == Slots(Matches(strs, needle)) <==> !Loses(strs, needle, stale)
  {
    hide Matches, Removed, CopyPass, Loses, Words;
    CopyPassAtMost(strs, needle, stale);
    var copied, kept := CopyPass(strs, Words(strs, needle, stale), 0, 0), Matches(strs, needle);
    if |copied| < |kept| {
      assert Narrowed(strs, needle, stale)[|copied|] == Unwritten;
      assert Slots(kept)[|copied|].Str?;
    }
  }

  lemma WordRead(strs: seq<string>, needle: string, stale: nat -> int, k: nat, len: nat)
    requires k < |strs| && |Removed(strs, needle)| <= len && FIRST_CAPACITY < len
    ensures Words(strs, needle, stale)[k] == WordAt(Removed(strs, needle), stale, k)
    ensures k >= len ==> WordAt(Removed(strs, needle), stale, k) == stale(k)
  {
  }

  lemma CopyPassNext(strs: seq<string>, words: seq<int>, i: nat, j: nat)
    requires i < |strs| && j <= i && |words| > |strs|
    ensures CopyPass(strs, words, i, j)
            == if words[j] != -1 && i == words[j] then CopyPass(strs, words, i + 1, j + 1)
               else [strs[i]] + CopyPass(strs, words, i + 1, j)
  {
  }

  lemma CopyPassEnd(strs: seq<string>, words: seq<int>, j: nat)
    requires j <= |strs| && |words| > |strs|
    ensures CopyPass(strs, words, |strs|, j) == []
  {
  }

  lemma SlotsEnd(strs: seq<string>, last: string)
    ensures Slots(strs + [last]) == Slots(strs) + [Str(last)]
  {
  }
}
