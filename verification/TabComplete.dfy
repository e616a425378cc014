/** Tab completion that narrows a cached match list per keystroke, against a reference that always searches afresh. */
module TabComplete {
  import opened Matching
  import opened TabComs
  import opened LineEditor

  /**
   `Undefined`: a write lands before its buffer; `Screens` says exactly when. `Damaged`: an entry of the match list is
   read that was never written; `RawNarrowing` says exactly when. The reference is never damaged.
   */
  datatype Outcome = Chosen(text: string, rest: string) | Cancelled(rest: string) | Waiting | Undefined | Damaged

  // ---------------------------------------------------------------- the reference

  /** Read a line; on tab, cycle through a fresh search for it. */
  function Complete(dict: seq<string>, next: char, prev: char, base: string, keys: string): Outcome
    decreases |keys|, 1
  {
    match EditLine(base, keys)
    case LineEntered(text, rest) => Chosen(text, rest)
    case LineCancelled(rest) => Cancelled(rest)
    case LineWaiting(_) => Waiting
    case LineTabbed(text, rest) => Cycle(dict, next, prev, Find(dict, text), 0, rest)
  }

  /** One key while entry `idx` of the match list is shown; any other key starts over from the changed entry. */
  function Cycle(dict: seq<string>, next: char, prev: char, found: seq<string>, idx: nat, keys: string): Outcome
    requires idx < |found|
    decreases |keys|, 0
  {
    if keys == "" then Waiting
    else
      var c, rest, n := keys[0], keys[1..], |found|;
      if c == ENTER then Chosen(found[idx], rest)
      else if c == next then Cycle(dict, next, prev, found, (idx + 1) % n, rest)
      else if c == prev then Cycle(dict, next, prev, found, (idx + n - 1) % n, rest)
      else if c == CTRL_C then Cancelled(rest)
      else if Deletes(c) && found[idx] == "" then Undefined
      else Complete(dict, next, prev, Press(found[idx], c), rest)
  }

  lemma WrapAround(idx: nat, n: nat)
    requires idx < n
    ensures (idx + 1) % n == if idx + 1 == n then 0 else idx + 1
    ensures (idx + n - 1) % n == if idx == 0 then n - 1 else idx - 1
  {
  }

  /** One key of the reference, with the wrap-around spelled out. */
  lemma CycleKey(dict: seq<string>, next: char, prev: char, found: seq<string>, idx: nat, keys: string)
    requires idx < |found|
    ensures var here := Cycle(dict, next, prev, found, idx, keys);
            if keys == "" then here == Waiting
            else
              var c, rest := keys[0], keys[1..];
              if c == ENTER then here == Chosen(found[idx], rest)
              else if c == next then
                here == Cycle(dict, next, prev, found, if idx + 1 == |found| then 0 else idx + 1, rest)
              else if c == prev then
                here == Cycle(dict, next, prev, found, if idx == 0 then |found| - 1 else idx - 1, rest)
              else if c == CTRL_C then here == Cancelled(rest)
              else if Deletes(c) && found[idx] == "" then here == Undefined
              else here == Complete(dict, next, prev, Press(found[idx], c), rest)
  {
    WrapAround(idx, |found|);
  }

  /** Next and previous undo each other, whatever is shown. */
  lemma NextPreviousInverse(dict: seq<string>, next: char, prev: char, found: seq<string>, idx: nat, rest: string)
    requires idx < |found| && next != prev && next != ENTER && prev != ENTER
    ensures Cycle(dict, next, prev, found, idx, [next] + ([prev] + rest)) == Cycle(dict, next, prev, found, idx, rest)
    ensures Cycle(dict, next, prev, found, idx, [prev] + ([next] + rest)) == Cycle(dict, next, prev, found, idx, rest)
  {
    hide Cycle;
    var n := |found|;
    var up, down := if idx + 1 == n then 0 else idx + 1, if idx == 0 then n - 1 else idx - 1;
    var a, b := [prev] + rest, [next] + rest;
    assert ([next] + a)[1..] == a && a[1..] == rest && ([prev] + b)[1..] == b && b[1..] == rest;
    CycleKey(dict, next, prev, found, idx, [next] + a);
    CycleKey(dict, next, prev, found, up, a);
    CycleKey(dict, next, prev, found, idx, [prev] + b);
    CycleKey(dict, next, prev, found, down, b);
  }

  /**
   Keys by their codes while an entry is shown: 13 chooses it, 3 cancels, 8 and 127 start over from it without its last
   character (undefined when it has none), and any other but the movement keys starts over with the key appended.
   */
  lemma CycleKeys(dict: seq<string>, next: char, prev: char, found: seq<string>, idx: nat, k: char, rest: string)
    requires idx < |found| && k != next && k != prev
    ensures var here := Cycle(dict, next, prev, found, idx, [k] + rest);
            && (k as int == 13 ==> here == Chosen(found[idx], rest))
            && (k as int == 3 ==> here == Cancelled(rest))
            && (k as int in {8, 127} && found[idx] == "" ==> here == Undefined)
            && (k as int in {8, 127} ==>
                  forall text: string, c: char | found[idx] == text + [c] ::
                    here == Complete(dict, next, prev, text, rest))
            && (k as int !in {3, 8, 13, 127} ==> here == Complete(dict, next, prev, found[idx] + [k], rest))
  {
    var keys := [k] + rest;
    assert keys[0] == k && keys[1..] == rest;
    hide Complete;
    forall text: string, c: char | found[idx] == text + [c] ensures found[idx][..|found[idx]| - 1] == text {
    }
  }

  function Times(k: char, n: nat): (keys: string)
    ensures |keys| == n && forall i | 0 <= i < n :: keys[i] == k
  {
    seq(n, _ => k)
  }

  /** Moving on j times and Enter chooses the j-th entry from here. */
  lemma {:induction false} NextChooses(dict: seq<string>, next: char, prev: char, found: seq<string>, idx: nat, j: nat,
                                       rest: string)
    requires idx + j < |found| && next as int != 13
    ensures Cycle(dict, next, prev, found, idx, Times(next, j) + [13 as char] + rest) == Chosen(found[idx + j], rest)
    decreases j
  {
    var keys := Times(next, j) + [13 as char] + rest;
    hide Cycle;
    CycleKey(dict, next, prev, found, idx, keys);
    if j > 0 {
      NextChooses(dict, next, prev, found, idx + 1, j - 1, rest);
      assert keys[1..] == Times(next, j - 1) + [13 as char] + rest;
    } else {
      assert keys[1..] == rest;
    }
  }

  /** Back from the first entry is the last one, the line itself. */
  lemma PreviousChoosesLast(dict: seq<string>, next: char, prev: char, found: seq<string>, rest: string)
    requires found != [] && next != prev && prev as int != 13
    ensures Cycle(dict, next, prev, found, 0, [prev] + ([13 as char] + rest)) == Chosen(found[|found| - 1], rest)
  {
    var keys, later := [prev] + ([13 as char] + rest), [13 as char] + rest;
    assert keys[0] == prev && keys[1..] == later && later[0] == 13 as char && later[1..] == rest;
    hide Cycle;
    CycleKey(dict, next, prev, found, 0, keys);
    CycleKey(dict, next, prev, found, |found| - 1, later);
  }

  /** Tab behind a line, j times next, Enter: the j-th string found for that line is chosen. */
  lemma TabNextEnter(dict: seq<string>, next: char, prev: char, line: string, j: nat, rest: string)
    requires j < |Find(dict, line)| && next as int != 13
    ensures Complete(dict, next, prev, line, [9 as char] + (Times(next, j) + [13 as char] + rest))
            == Chosen(Find(dict, line)[j], rest)
  {
    var later := Times(next, j) + [13 as char] + rest;
    EditLineKeys(line, 9 as char, later);
    NextChooses(dict, next, prev, Find(dict, line), 0, j, rest);
  }

  // ---------------------------------------------------------------- completion as written, over stale memory

  /**
   What unwritten memory holds: the index words that narrowing number a is given, and what follows the copy without a
   terminating zero that it puts into the list.
   */
  datatype Stale = Stale(words: nat -> nat -> int, behind: nat -> string)

  /** The entries of the match list a session reads, to show or to narrow them, and how it ends. */
  datatype Transcript = Transcript(seen: seq<string>, end: Outcome)

  function Ends(end: Outcome): Transcript {
    Transcript([], end)
  }

  function Reading(seen: seq<string>, t: Transcript): Transcript {
    Transcript(seen + t.seen, t.end)
  }

  /** A cached list for `base` can be narrowed to one for `text`. */
  predicate Extends(base: string, text: string) {
    base != "" && base <= text
  }

  /** Narrowing by a needle that the last entry contains leaves at least that entry's slot. */
  lemma NarrowedHasSlot(strs: seq<string>, last: string, needle: string, stale: nat -> int)
    requires Contains(last, needle)
    ensures |Narrowed(strs + [last], needle, stale)| > 0
  {
    hide Contains;
    assert (strs + [last])[..|strs|] == strs;
  }

  lemma CopyContains(input: string, behind: string)
    ensures Contains(input + behind, input)
  {
    ContainsPrefix(input + behind, |input|);
    assert (input + behind)[..|input|] == input;
  }

  /** `cache` is the match list at hand, empty if there is none; `at` narrowings came before. */
  function CompleteRaw(dict: seq<string>, next: char, prev: char, base: string, cache: seq<Slot>, keys: string,
                       mem: Stale, at: nat): Transcript
    decreases |keys|, 2
  {
    match EditLine(base, keys)
    case LineEntered(text, rest) => Ends(Chosen(text, rest))
    case LineCancelled(rest) => Ends(Cancelled(rest))
    case LineWaiting(_) => Ends(Waiting)
    case LineTabbed(text, rest) => TabbedRaw(dict, next, prev, base, text, cache, rest, mem, at)
  }

  /** A tab behind `text`: the match list at hand is narrowed, or a fresh search made, and shown. */
  function TabbedRaw(dict: seq<string>, next: char, prev: char, base: string, text: string, cache: seq<Slot>,
                     keys: string, mem: Stale, at: nat): Transcript
    decreases |keys|, 2
  {
    if cache != [] && Extends(base, text) then
      // The input overwrites the last entry, then all entries are read.
      var others := cache[..|cache| - 1];
      if !Written(others) then Ends(Damaged)
      else
        ContainsItself(text);
        NarrowedHasSlot(Texts(others), text, text, mem.words(at));
        var found := Narrowed(Texts(others) + [text], text, mem.words(at));
        Reading(Texts(others), CycleRaw(dict, next, prev, found, 0, keys, mem, at + 1))
    else CycleRaw(dict, next, prev, Slots(Find(dict, text)), 0, keys, mem, at)
  }

  /** Entry `idx` is read and shown. */
  function CycleRaw(dict: seq<string>, next: char, prev: char, found: seq<Slot>, idx: nat, keys: string,
                    mem: Stale, at: nat): Transcript
    requires idx < |found|
    decreases |keys|, 1
  {
    if !found[idx].Str? then Ends(Damaged)
    else Reading([found[idx].s], AfterShown(dict, next, prev, found, idx, keys, mem, at))
  }

  function AfterShown(dict: seq<string>, next: char, prev: char, found: seq<Slot>, idx: nat, keys: string,
                      mem: Stale, at: nat): Transcript
    requires idx < |found| && found[idx].Str?
    decreases |keys|, 0
  {
    if keys == "" then Ends(Waiting)
    else
      var c, rest := keys[0], keys[1..];
      if c == ENTER then Ends(Chosen(found[idx].s, rest))
      else if c == next then
        CycleRaw(dict, next, prev, found, if idx + 1 == |found| then 0 else idx + 1, rest, mem, at)
      else if c == prev then
        CycleRaw(dict, next, prev, found, if idx == 0 then |found| - 1 else idx - 1, rest, mem, at)
      else if c == CTRL_C then Ends(Cancelled(rest))
      else RestartRaw(dict, next, prev, found, found[idx].s, c, rest, mem, at)
  }

  /** Over from the changed entry: a deletion searches afresh, any other key narrows the list at hand. */
  function RestartRaw(dict: seq<string>, next: char, prev: char, found: seq<Slot>, shown: string, c: char,
                      keys: string, mem: Stale, at: nat): Transcript
    requires found != []
    decreases |keys|, 3
  {
    var input := Press(shown, c);
    if Deletes(c) then
      if shown == "" then Ends(Undefined)
      else CompleteRaw(dict, next, prev, input, Slots(Find(dict, input)), keys, mem, at)
    else
      var others := found[..|found| - 1];
      if !Written(others) then Ends(Damaged)
      else
        var list := Narrowed(Texts(others) + [input + mem.behind(at)], input, mem.words(at));
        Reading(Texts(others), CompleteRaw(dict, next, prev, input, list, keys, mem, at + 1))
  }

  /** The same keys on the list as written: a deletion makes a fresh search, any other key narrows. */
  lemma AfterShownKeys(dict: seq<string>, next: char, prev: char, found: seq<Slot>, idx: nat, k: char, rest: string,
                       mem: Stale, at: nat)
    requires idx < |found| && found[idx].Str? && k != next && k != prev
    ensures var here := AfterShown(dict, next, prev, found, idx, [k] + rest, mem, at);
            && (k as int == 13 ==> here == Transcript([], Chosen(found[idx].s, rest)))
            && (k as int == 3 ==> here == Transcript([], Cancelled(rest)))
            && (k as int in {8, 127} && found[idx].s == "" ==> here == Transcript([], Undefined))
            && (k as int in {8, 127} ==>
                  forall text: string, c: char | found[idx].s == text + [c] ::
                    here == CompleteRaw(dict, next, prev, text, Slots(Find(dict, text)), rest, mem, at))
            && (k as int !in {3, 8, 13, 127} && !Written(found[..|found| - 1]) ==> here == Transcript([], Damaged))
            && (k as int !in {3, 8, 13, 127} && Written(found[..|found| - 1]) ==>
                  var others, input := Texts(found[..|found| - 1]), found[idx].s + [k];
                  var list := Narrowed(others + [input + mem.behind(at)], input, mem.words(at));
                  var later := CompleteRaw(dict, next, prev, input, list, rest, mem, at + 1);
                  here == Transcript(others + later.seen, later.end))
  {
    var keys := [k] + rest;
    assert keys[0] == k && keys[1..] == rest;
    hide CompleteRaw, Narrowed, Texts, Find;
    forall text: string, c: char | found[idx].s == text + [c] ensures found[idx].s[..|found[idx].s| - 1] == text {
    }
  }

  /** A list at hand is narrowed by a tab exactly if it was made for a line that is not empty and starts this one. */
  lemma ExtendsIff(base: string, text: string)
    ensures Extends(base, text) <==> |base| > 0 && exists more: string :: text == base + more
  {
    if Extends(base, text) {
      assert text == base + text[|base|..];
    }
  }

  // ---------------------------------------------------------------- the cached form

  /** `n_char_equiv` on strings: both have n characters and agree on them. */
  predicate NCharEquiv(x: string, y: string, n: nat) {
    forall i | 0 <= i < n :: i < |x| && i < |y| && x[i] == y[i]
  }

  lemma EquivIsPrefix(base: string, text: string)
    ensures |base| > 0 && NCharEquiv(base, text, |base|) <==> Extends(base, text)
    ensures Extends(base, text) ==> Contains(text, base)
  {
    if |base| > 0 && NCharEquiv(base, text, |base|) {
      var i := |base| - 1;
      assert base[i] in base;
      assert i < |text|;
      assert text[..|base|] == base;
    }
    if Extends(base, text) {
      ContainsPrefix(text, |base|);
      assert text[..|base|] == base;
    }
  }

  /** `arr` is a NULL-terminated array of n slots, which hold `slots`. */
  ghost predicate Lists(arr: array<Slot>, n: nat, slots: seq<Slot>)
    reads arr
  {
    && n == |slots| < arr.Length && arr[..n] == slots && arr[n] == Null
    && forall i | 0 <= i < n :: slots[i] != Null
  }

  /** Overwrite the last entry and narrow the list by a needle which that entry contains; false as for narrowing. */
  method NarrowList(list: array<Slot>, n: nat, last: string, needle: string, stale: nat -> int, ghost slots: seq<Slot>)
    returns (ok: bool, found: array<Slot>, nMatches: nat)
    requires Lists(list, n, slots) && n >= 1
    modifies list
    ensures ok <==> Written(slots[..n - 1])
    ensures ok ==> fresh(found) && Lists(found, nMatches, Narrowed(Texts(slots[..n - 1]) + [last], needle, stale))
  {
    hide Narrowed, Texts;
    list[n - 1] := Str(last);
    LastOverwritten(slots, last);
    assert list[..n] == slots[..n - 1] + [Str(last)];
    var nRemoved;
    ok, found, nRemoved := NarrowMatches(list, needle, n, stale);
    nMatches := 0;
    if ok {
      nMatches := n - nRemoved;
      assert found[..nMatches] == found[..][..nMatches];
      assert found[nMatches] == found[..][nMatches];
    }
  }

  lemma LastOverwritten(slots: seq<Slot>, last: string)
    requires slots != []
    ensures var others := slots[..|slots| - 1];
            && (Written(others + [Str(last)]) <==> Written(others))
            && (Written(others) ==> Texts(others + [Str(last)]) == Texts(others) + [last])
  {
    var others := slots[..|slots| - 1];
    if Written(others + [Str(last)]) {
      forall i | 0 <= i < |others| ensures others[i].Str? {
        assert (others + [Str(last)])[i] == others[i];
      }
    }
  }

  lemma FoundLists(arr: array<Slot>, n: nat, dict: seq<string>, needle: string)
    requires n < arr.Length && arr[n] == Null && arr[..n] == Slots(Find(dict, needle))
    ensures Lists(arr, n, Slots(Find(dict, needle))) && n >= 1
  {
  }

  /** No list; one narrowed in place; or one that a thread is searching for, to be joined when it is needed. */
  datatype Cache = Absent | Ready(arr: array<Slot>, n: nat) | Searching(needle: string)

  ghost predicate CacheOk(cache: Cache)
    reads if cache.Ready? then {cache.arr} else {}
  {
    cache.Ready? ==> 1 <= cache.n < cache.arr.Length && Lists(cache.arr, cache.n, cache.arr[..cache.n])
  }

  /** The list, once a search for it is joined. */
  ghost function Cached(cache: Cache, dict: seq<string>): (slots: seq<Slot>)
    requires CacheOk(cache)
    reads if cache.Ready? then {cache.arr} else {}
    ensures slots == [] <==> cache.Absent?
  {
    match cache
    case Absent => []
    case Ready(arr, n) => arr[..n]
    case Searching(needle) => Slots(Find(dict, needle))
  }

  /** The list at hand: a finished one, or what the thread finds; nothing it reads changes meanwhile. */
  method JoinSearch(tbc: TabCom, cache: Cache) returns (arr: array<Slot>, n: nat)
    requires tbc.Valid() && cache != Absent && CacheOk(cache)
    ensures n >= 1 && Lists(arr, n, Cached(cache, tbc.Dict()))
    ensures if cache.Ready? then arr == cache.arr else fresh(arr)
  {
    match cache
    case Ready(a, k) => arr, n := a, k;
    case Searching(needle) =>
      arr, n := tbc.FindMatches(needle);
      FoundLists(arr, n, tbc.Dict(), needle);
  }

  /**
   `tab_complete_internal_low_comp`, with the match list at hand. Whatever the keys, and whatever memory holds where
   nothing was written and behind an unterminated entry, it reads and ends as `CompleteRaw`.
   */
  method LowComp(tbc: TabCom, base: string, cache: Cache, next: char, prev: char, keys: string, mem: Stale, at: nat)
    returns (end: Outcome, ghost seen: seq<string>)
    requires tbc.Valid() && CacheOk(cache)
    modifies if cache.Ready? then {cache.arr} else {}
    ensures Transcript(seen, end)
            == CompleteRaw(tbc.Dict(), next, prev, base, old(Cached(cache, tbc.Dict())), keys, mem, at)
    decreases |keys|, 0
  {
    hide Contains, Find, EditLine, TabbedRaw, Narrowed, Texts;
    seen := [];
    var ret, bytesRead, tab, waiting, rest := GetlineRaw(base, keys);
    if waiting {
      return Waiting, [];
    }
    if ret == null {
      return Cancelled(rest), [];
    }
    var text := ret[..bytesRead];
    if !tab {
      return Chosen(text, rest), [];
    }

    end, seen := AtTab(tbc, base, text, cache, next, prev, rest, mem, at);
  }

  /** A tab behind `text`. */
  method AtTab(tbc: TabCom, base: string, text: string, cache: Cache, next: char, prev: char, keys: string,
               mem: Stale, at: nat)
    returns (end: Outcome, ghost seen: seq<string>)
    requires tbc.Valid() && CacheOk(cache)
    modifies if cache.Ready? then {cache.arr} else {}
    ensures Transcript(seen, end)
            == TabbedRaw(tbc.Dict(), next, prev, base, text, old(Cached(cache, tbc.Dict())), keys, mem, at)
    decreases |keys|, 3
  {
    hide Contains, Find, CycleRaw, Narrowed, Texts, Lists, Written;
    EquivIsPrefix(base, text);
    if cache != Absent {
      ghost var slots := Cached(cache, tbc.Dict());
      var baseMatch, nBase := JoinSearch(tbc, cache);
      ListsSize(baseMatch, nBase, slots);
      if |base| > 0 && NCharEquiv(base, text, |base|) {
        var ok, list, m := NarrowList(baseMatch, nBase, text, text, mem.words(at), slots);
        if !ok {
          return Damaged, [];
        }
        ghost var others := Texts(slots[..nBase - 1]);
        ContainsItself(text);
        NarrowedHasSlot(others, text, text, mem.words(at));
        ghost var shown := Narrowed(others + [text], text, mem.words(at));
        ListsSize(list, m, shown);
        ghost var later;
        end, later := CycleMatches(tbc, list, m, next, prev, keys, mem, at + 1, shown);
        seen := others + later;
        return;
      }
    }
    var found, n := tbc.FindMatches(text);
    FoundLists(found, n, tbc.Dict(), text);
    end, seen := CycleMatches(tbc, found, n, next, prev, keys, mem, at, Slots(Find(tbc.Dict(), text)));
  }

  lemma ListsSize(arr: array<Slot>, n: nat, slots: seq<Slot>)
    requires Lists(arr, n, slots)
    ensures n == |slots|
  {
  }

  /** A buffer of the given size that starts with the string. */
  method CopyOf(s: string, size: nat) returns (buf: array<char>)
    requires |s| <= size
    ensures fresh(buf) && buf.Length == size && buf[..|s|] == s
  {
    buf := new char[size](_ => NUL);
    forall i | 0 <= i < |s| {
      buf[i] := s[i];
    }
  }

  /** A key that is neither selection nor movement: complete anew from the changed entry, with a list made for it. */
  method Restart(tbc: TabCom, found: array<Slot>, n: nat, shown: string, c: char,
                 next: char, prev: char, keys: string, mem: Stale, at: nat, ghost slots: seq<Slot>)
    returns (end: Outcome, ghost seen: seq<string>)
    requires tbc.Valid() && Lists(found, n, slots) && n >= 1
    modifies found
    ensures Transcript(seen, end) == RestartRaw(tbc.Dict(), next, prev, slots, shown, c, keys, mem, at)
    decreases |keys|, 2
  {
    hide Contains, Find, CompleteRaw, Narrowed, Texts, Lists;
    ghost var dict := tbc.Dict();
    var tmplen := |shown|;
    if Deletes(c) {
      var recurseStr := CopyOf(shown, tmplen + 1);
      tmplen := tmplen - 1;
      if !(0 <= tmplen < recurseStr.Length) {
        return Undefined, [];
      }
      recurseStr[tmplen] := NUL;
      var input := recurseStr[..tmplen];
      assert input == Press(shown, c);
      end, seen := LowComp(tbc, input, Searching(input), next, prev, keys, mem, at);
    } else {
      var recurseStr := CopyOf(shown, tmplen + 2);
      recurseStr[tmplen] := c;
      tmplen := tmplen + 1;
      recurseStr[tmplen] := NUL;
      var input := recurseStr[..tmplen];
      assert input == Press(shown, c);
      end, seen := RestartLonger(tbc, found, n, shown, c, input, next, prev, keys, mem, at, slots);
    }
  }

  /**
   Restarting with a longer input: the list narrowed in place. The copy put into it lacks its zero, so the string there
   runs on into whatever memory follows.
   */
  method RestartLonger(tbc: TabCom, found: array<Slot>, n: nat, ghost shown: string, ghost c: char, input: string,
                       next: char, prev: char, keys: string, mem: Stale, at: nat, ghost slots: seq<Slot>)
    returns (end: Outcome, ghost seen: seq<string>)
    requires tbc.Valid() && Lists(found, n, slots) && n >= 1 && !Deletes(c) && input == Press(shown, c)
    modifies found
    ensures Transcript(seen, end) == RestartRaw(tbc.Dict(), next, prev, slots, shown, c, keys, mem, at)
    decreases |keys|, 1
  {
    hide Contains, Find, CompleteRaw, Narrowed, Texts;
    var ok, list, m := NarrowList(found, n, input + mem.behind(at), input, mem.words(at), slots);
    if !ok {
      return Damaged, [];
    }
    CopyContains(input, mem.behind(at));
    NarrowedHasSlot(Texts(slots[..n - 1]), input + mem.behind(at), input, mem.words(at));
    ghost var later;
    end, later := LowComp(tbc, input, Ready(list, m), next, prev, keys, mem, at + 1);
    seen := Texts(slots[..n - 1]) + later;
  }

  lemma ReadingTwice(a: seq<string>, b: seq<string>, t: Transcript)
    ensures Reading(a, Reading(b, t)) == Reading(a + b, t)
    ensures Reading([], t) == t
  {
  }

  /** The selection loop; `found` is consumed when a key restarts completion. */
  method CycleMatches(tbc: TabCom, found: array<Slot>, n: nat, next: char, prev: char, keys: string,
                      mem: Stale, at: nat, ghost slots: seq<Slot>)
    returns (end: Outcome, ghost seen: seq<string>)
    requires tbc.Valid() && Lists(found, n, slots) && n >= 1
    modifies found
    ensures Transcript(seen, end) == CycleRaw(tbc.Dict(), next, prev, slots, 0, keys, mem, at)
    decreases |keys|, 0
  {
    hide Contains, Find, RestartRaw, Texts, Narrowed;
    ghost var dict := tbc.Dict();
    assert forall i | 0 <= i < n :: found[i] == found[..n][i] == slots[i];
    var p: nat, ks := 0, keys;
    seen := [];
    while true
      invariant p <= n && |ks| <= |keys|
      invariant Lists(found, n, slots) && forall i | 0 <= i < n :: found[i] == slots[i]
      invariant CycleRaw(dict, next, prev, slots, 0, keys, mem, at)
                == Reading(seen, CycleRaw(dict, next, prev, slots, if p == n then 0 else p, ks, mem, at))
      decreases |ks|
    {
      if found[p] == Null {
        if p != 0 {
          p := 0;
        }
      }
      if found[p] == Unwritten {
        end := Damaged;
        return;
      }
      var shown := found[p].s;
      ReadingTwice(seen, [shown], AfterShown(dict, next, prev, slots, p, ks, mem, at));
      seen := seen + [shown];
      if ks == "" {
        end := Waiting;
        return;
      }
      var c := ks[0];
      ks := ks[1..];
      if c == ENTER {
        end := Chosen(shown, ks);
        return;
      }
      if c == next {
        p := p + 1;
        continue;
      }
      if c == prev {
        if p != 0 {
          p := p - 1;
          continue;
        }
        p := n - 1;
        continue;
      }
      if c == CTRL_C {
        end := Cancelled(ks);
        return;
      }
      ghost var later;
      end, later := Restart(tbc, found, n, shown, c, next, prev, ks, mem, at, slots);
      seen := seen + later;
      return;
    }
  }

  /** `tab_complete`: completion from an empty line and no match list. */
  method Run(tbc: TabCom, next: char, prev: char, keys: string, mem: Stale)
    returns (end: Outcome, ghost seen: seq<string>)
    requires tbc.Valid()
    ensures Transcript(seen, end) == CompleteRaw(tbc.Dict(), next, prev, "", [], keys, mem, 0)
  {
    end, seen := LowComp(tbc, "", Absent, next, prev, keys, mem, 0);
  }
}
