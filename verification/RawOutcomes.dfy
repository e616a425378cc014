/** How completion as written ends: for which sessions unwritten memory can change the outcome. */
module RawOutcomes {
  import opened Matching
  import opened StalePass
  import opened LineEditor
  import opened TabComplete
  import opened RawNarrowing

  /** Looking at an entry or two of the list and taking what is shown. */
  predicate Looks(prev: char, w: string) {
    w == [ENTER] || w == [prev, ENTER] || w == [prev, prev, ENTER]
  }

  /** The same session, or one that looks at the list at some point and ends there. */
  ghost predicate CutOf(prev: char, cut: string, keys: string) {
    cut == keys || exists n: nat, w: string :: CutAt(prev, cut, keys, n, w)
  }

  ghost predicate CutAt(prev: char, cut: string, keys: string, n: nat, w: string) {
    n <= |keys| && Looks(prev, w) && cut == keys[..n] + w
  }

  lemma CutLater(prev: char, pre: string, cut: string, keys: string)
    requires CutOf(prev, cut, keys)
    ensures CutOf(prev, pre + cut, pre + keys)
  {
    if n: nat, w: string :| CutAt(prev, cut, keys, n, w) {
      assert pre + cut == (pre + keys)[..|pre| + n] + w;
      assert CutAt(prev, pre + cut, pre + keys, |pre| + n, w);
    }
  }

  lemma CutHere(prev: char, w: string, keys: string)
    requires Looks(prev, w)
    ensures CutOf(prev, w, keys)
  {
    assert keys[..0] + w == w;
    assert CutAt(prev, w, keys, 0, w);
  }

  /** A line that ends in a tab ends there whatever follows. */
  lemma {:induction false} TabWhatever(base: string, keys: string) returns (pre: string)
    requires EditLine(base, keys).LineTabbed?
    ensures keys == pre + EditLine(base, keys).rest
    ensures forall after: string :: EditLine(base, pre + after) == LineTabbed(EditLine(base, keys).text, after)
    decreases |keys|
  {
    hide EditLine;
    KeyOfLine(base, keys);
    var line, later := EditLine(base, keys), "";
    if keys[0] != TAB {
      later := TabWhatever(Press(base, keys[0]), keys[1..]);
    }
    pre := [keys[0]] + later;
    forall after: string
      ensures EditLine(base, pre + after) == LineTabbed(line.text, after)
    {
      assert (pre + after)[0] == keys[0] && (pre + after)[1..] == later + after;
      KeyOfLine(base, pre + after);
    }
  }

  /** The next key of a line. */
  lemma KeyOfLine(base: string, keys: string)
    ensures EditLine(base, keys).LineTabbed? ==> keys != ""
    ensures keys != "" && keys[0] == TAB ==> EditLine(base, keys) == LineTabbed(base, keys[1..])
    ensures keys != "" && keys[0] != TAB && EditLine(base, keys).LineTabbed? ==>
              EditLine(base, keys) == EditLine(Press(base, keys[0]), keys[1..]) && !EndsLine(keys[0])
    ensures keys != "" && !EndsLine(keys[0]) ==>
              EditLine(base, keys) == EditLine(Press(base, keys[0]), keys[1..])
  {
  }

  lemma RawAtTab(dict: seq<string>, next: char, prev: char, base: string, cache: seq<Slot>, keys: string, mem: Stale,
                 at: nat)
    requires EditLine(base, keys).LineTabbed?
    ensures var text, rest := EditLine(base, keys).text, EditLine(base, keys).rest;
            && 0 < |Find(dict, text)|
            && CompleteRaw(dict, next, prev, base, cache, keys, mem, at)
               == TabbedRaw(dict, next, prev, base, text, cache, rest, mem, at)
            && Complete(dict, next, prev, base, keys) == Cycle(dict, next, prev, Find(dict, text), 0, rest)
  {
    hide TabbedRaw, Cycle, EditLine;
  }

  /** The end of what is read later is the end. */
  lemma EndOfReading(x: seq<string>, t: Transcript)
    ensures Reading(x, t).end == t.end
  {
  }

  /** The entry two steps back from the first. */
  function TwoBack(n: nat): nat
    requires n > 0
  {
    if n == 1 then 0 else n - 2
  }

  /** Looking two entries back in a list without gaps. */
  lemma LookTwoBack(dict: seq<string>, next: char, prev: char, strs: seq<string>, mem: Stale, at: nat)
    requires strs != [] && next != prev && prev != ENTER
    ensures var chosen := Chosen(strs[TwoBack(|strs|)], "");
            && Cycle(dict, next, prev, strs, 0, [prev, prev, ENTER]) == chosen
            && CycleRaw(dict, next, prev, Slots(strs), 0, [prev, prev, ENTER], mem, at).end == chosen
  {
    hide Cycle, CycleRaw, AfterShown;
    var slots, n, w := Slots(strs), |strs|, [prev, prev, ENTER];
    assert w[1..] == [prev, ENTER] && w[1..][1..] == [ENTER] && w[1..][1..][1..] == "";
    var one, two := n - 1, if n == 1 then 0 else n - 2;
    CycleKey(dict, next, prev, strs, 0, w);
    CycleKey(dict, next, prev, strs, one, w[1..]);
    CycleKey(dict, next, prev, strs, two, w[1..][1..]);
    CycleRawShown(dict, next, prev, slots, 0, w, mem, at);
    AfterRawKey(dict, next, prev, slots, 0, w, mem, at);
    CycleRawShown(dict, next, prev, slots, one, w[1..], mem, at);
    AfterRawKey(dict, next, prev, slots, one, w[1..], mem, at);
    CycleRawShown(dict, next, prev, slots, two, w[1..][1..], mem, at);
    AfterRawKey(dict, next, prev, slots, two, w[1..][1..], mem, at);
  }

  /** A wrong or unwritten last slot shows when one looks back from the first. */
  lemma LookLast(dict: seq<string>, next: char, prev: char, found: seq<string>, slots: seq<Slot>, mem: Stale, at: nat)
    requires found != [] && |slots| == |found| && next != prev && prev != ENTER
    requires slots[|found| - 1] != Str(found[|found| - 1])
    ensures CycleRaw(dict, next, prev, slots, 0, [prev, ENTER], mem, at).end
            != Cycle(dict, next, prev, found, 0, [prev, ENTER])
  {
    hide Cycle, CycleRaw, AfterShown;
    var n, w := |found|, [prev, ENTER];
    assert w[1..] == [ENTER] && w[1..][1..] == "";
    CycleKey(dict, next, prev, found, 0, w);
    CycleKey(dict, next, prev, found, n - 1, w[1..]);
    CycleRawShown(dict, next, prev, slots, 0, w, mem, at);
    if slots[0].Str? {
      AfterRawKey(dict, next, prev, slots, 0, w, mem, at);
      CycleRawShown(dict, next, prev, slots, n - 1, w[1..], mem, at);
      if slots[n - 1].Str? {
        AfterRawKey(dict, next, prev, slots, n - 1, w[1..], mem, at);
      }
    }
  }

  /** The last slot of a list narrowed at a tab is steady only if no word is left before the sentinel. */
  lemma LastUnsteady(kept: seq<string>, needle: string)
    requires OneSpare(ByTab(kept, needle))
    ensures !SteadyAt(ByTab(kept, needle), |Matches(kept, needle)|)
  {
    hide Matches, Contains;
    RemovedIs(kept, needle);
  }

  /** Memory that loses one entry of the list narrowed at a key, and makes the open copy run on as `behind`. */
  function OneLost(run: nat -> int, behind: string, at: nat): Stale {
    Stale((a: nat) => if a + 1 == at then run else (i: nat) => -1, (a: nat) => behind)
  }

  /**
   One word is left: the entry in front of the open copy is lost, and the copy, run on, stands in its place. After the
   tab that follows it is still there, two steps back from the first entry.
   */
  lemma OpenCopyShows(dict: seq<string>, next: char, prev: char, base: string, text: string, src: Source, at: nat)
    returns (mem: Stale)
    requires src.ByKey? && SourceOf(dict, base, src) && at > 0 && OneSpare(src) && Extends(base, text)
    requires !AllSteady(Others(dict, base, src)) && next != prev && prev != ENTER
    ensures 0 < |Find(dict, text)|
    ensures TabbedRaw(dict, next, prev, base, text, Made(dict, base, src, mem, at), [prev, prev, ENTER], mem, at).end
            != Cycle(dict, next, prev, Find(dict, text), 0, [prev, prev, ENTER])
  {
    hide Matches, Removed, Narrowed, Contains, Find, Steady, CycleRaw, Cycle;
    FindNonEmpty(dict, text);
    FindNonEmpty(dict, base);
    var kept, found := Matches(dict, base), Find(dict, text);
    var shown := found[TwoBack(|found|)];
    var behind := text[|base|..] + if shown == text then "x" else "";
    var copy := base + behind;
    assert copy == text + (if shown == text then "x" else "") && copy != shown;
    CopyContains(base, behind);
    CopyContains(text, if shown == text then "x" else "");
    UnsteadyBehindFront(dict, base, src);
    var run := LoseLastButOne(src.kept, copy, base);
    mem := OneLost(run, behind, at);
    var list := Made(dict, base, src, mem, at);
    var left := kept[..|kept| - 1] + [copy];
    assert list == Narrowed(src.kept + [copy], base, run);
    assert list[..|list| - 1] == Slots(left);
    TextsOfSlots(left);
    NoIndexLosesNothing(left + [text], text, mem.words(at));
    ContainsItself(text);
    EndKept(left, text, text);
    EndKept(kept[..|kept| - 1], copy, text);
    var strs := Matches(kept[..|kept| - 1], text) + [copy] + [text];
    assert Matches(left + [text], text) == strs;
    LookTwoBack(dict, next, prev, strs, mem, at + 1);
    LookTwoBack(dict, next, prev, found, mem, at + 1);
    NarrowedHasSlot(left, text, text, mem.words(at));
    EndOfReading(left, CycleRaw(dict, next, prev, Slots(strs), 0, [prev, prev, ENTER], mem, at + 1));
  }

  lemma UnsteadyBehindFront(dict: seq<string>, base: string, src: Source)
    requires src.ByKey? && SourceOf(dict, base, src) && !AllSteady(Others(dict, base, src))
    ensures Matches(dict, base) != [] && Front(Removed(src.kept, base)) < |Matches(src.kept, base)|
  {
    hide Matches, Removed;
    var p :| 0 <= p < |Others(dict, base, src)|
             && !SteadyAt(Others(dict, base, src)[p].src, Others(dict, base, src)[p].p);
  }

  lemma {:induction false} UnsteadyEnds(dict: seq<string>, next: char, prev: char, base: string, cached: bool,
                                        src: Source, keys: string, at: nat) returns (mem: Stale, cut: string)
    requires cached ==> SourceOf(dict, base, src) && (src.Fresh? || at > 0) && !src.ByTab?
    requires !AllSteady(ReadsComplete(dict, next, prev, base, cached, src, keys)) && next != prev && prev != ENTER
    ensures CutOf(prev, cut, keys)
    ensures CompleteRaw(dict, next, prev, base, AtHand(dict, base, cached, src, mem, at), cut, mem, at).end
            != Complete(dict, next, prev, base, cut)
    decreases |keys|, 1
  {
    hide Matches, Find, Made, SteadyAt, SourceOf, CycleRaw, Cycle, ReadsCycle, TabbedRaw, Value, Written, Texts;
    hide Extends, Others, CompleteRaw, Complete, Removed;
    ReadsAtTab(dict, next, prev, base, cached, src, keys);
    var line := EditLine(base, keys);
    var text, rest := line.text, line.rest;
    var pre := TabWhatever(base, keys);
    FindNonEmpty(dict, text);
    if cached && Extends(base, text) {
      var n, others := ByTab(Matches(dict, base), text), Others(dict, base, src);
      var later := ReadsCycle(dict, next, prev, text, n, 0, rest);
      TabSource(dict, base, text);
      AllSteadyConcat(others, later);
      if AllSteady(others) {
        var tail;
        mem, tail := UnsteadyTabEnds(dict, next, prev, text, n, rest, at + 1);
        cut := pre + tail;
        CutLater(prev, pre, tail, rest);
        RawAtTab(dict, next, prev, base, AtHand(dict, base, cached, src, mem, at), cut, mem, at);
        OthersRight(dict, base, src, mem, at);
        TabbedRight(dict, next, prev, base, text, src, tail, mem, at);
      } else if OneSpare(src) {
        var w := [prev, prev, ENTER];
        mem := OpenCopyShows(dict, next, prev, base, text, src, at);
        cut := pre + w;
        CutHere(prev, w, rest);
        CutLater(prev, pre, w, rest);
        RawAtTab(dict, next, prev, base, AtHand(dict, base, cached, src, mem, at), cut, mem, at);
      } else {
        mem := OthersUnwritten(dict, base, src, at);
        cut := keys;
        NeverDamaged(dict, next, prev, base, keys);
        RawAtTab(dict, next, prev, base, AtHand(dict, base, cached, src, mem, at), keys, mem, at);
        FindNonEmpty(dict, base);
        TabbedReads(dict, next, prev, base, text, Made(dict, base, src, mem, at), rest, mem, at);
      }
    } else {
      var tail;
      FreshSource(dict, text);
      mem, tail := UnsteadyCycleEnds(dict, next, prev, text, Fresh, 0, rest, at);
      cut := pre + tail;
      CutLater(prev, pre, tail, rest);
      RawAtTab(dict, next, prev, base, AtHand(dict, base, cached, src, mem, at), cut, mem, at);
      TabbedFresh(dict, next, prev, base, text, AtHand(dict, base, cached, src, mem, at), tail, mem, at);
    }
  }

  lemma ReadsAtTab(dict: seq<string>, next: char, prev: char, base: string, cached: bool, src: Source, keys: string)
    requires !AllSteady(ReadsComplete(dict, next, prev, base, cached, src, keys))
    ensures EditLine(base, keys).LineTabbed?
    ensures var text, rest := EditLine(base, keys).text, EditLine(base, keys).rest;
            && 0 < |Find(dict, text)|
            && ReadsComplete(dict, next, prev, base, cached, src, keys)
               == if cached && Extends(base, text) then
                    Others(dict, base, src)
                    + ReadsCycle(dict, next, prev, text, ByTab(Matches(dict, base), text), 0, rest)
                  else ReadsCycle(dict, next, prev, text, Fresh, 0, rest)
  {
    hide ReadsCycle, EditLine, Others, SteadyAt;
    NoneSteady();
  }

  /** A list narrowed at a tab, shown from its first entry. */
  lemma {:induction false} UnsteadyTabEnds(dict: seq<string>, next: char, prev: char, text: string, src: Source,
                                           keys: string, at: nat) returns (mem: Stale, cut: string)
    requires SourceOf(dict, text, src) && src.ByTab? && at > 0 && 0 < |Find(dict, text)|
    requires !AllSteady(ReadsCycle(dict, next, prev, text, src, 0, keys)) && next != prev && prev != ENTER
    ensures CutOf(prev, cut, keys)
    ensures CycleRaw(dict, next, prev, Made(dict, text, src, mem, at), 0, cut, mem, at).end
            != Cycle(dict, next, prev, Find(dict, text), 0, cut)
    decreases |keys|, 1
  {
    hide Matches, Find, Made, SteadyAt, SourceOf, CycleRaw, Cycle, ReadsCycle, CutOf;
    if OneSpare(src) {
      FindNonEmpty(dict, text);
      SourceSize(dict, text, src);
      LastUnsteady(src.kept, src.needle);
      mem := MadeUnsteady(dict, text, src, at, |Matches(dict, text)|);
      cut := [prev, ENTER];
      CutHere(prev, cut, keys);
      LookLast(dict, next, prev, Find(dict, text), Made(dict, text, src, mem, at), mem, at);
    } else {
      mem, cut := UnsteadyCycleEnds(dict, next, prev, text, src, 0, keys, at);
    }
  }

  lemma SourceSize(dict: seq<string>, text: string, src: Source)
    requires SourceOf(dict, text, src) && !src.Fresh?
    ensures |Matches(src.kept, src.needle)| == |Matches(dict, text)|
  {
  }

  lemma {:induction false} UnsteadyCycleEnds(dict: seq<string>, next: char, prev: char, text: string, src: Source,
                                             idx: nat, keys: string, at: nat) returns (mem: Stale, cut: string)
    requires SourceOf(dict, text, src) && (src.Fresh? || at > 0) && !src.ByKey? && idx < |Find(dict, text)|
    requires !AllSteady(ReadsCycle(dict, next, prev, text, src, idx, keys))
    requires !OneSpare(src) && next != prev && prev != ENTER
    ensures CutOf(prev, cut, keys)
    ensures CycleRaw(dict, next, prev, Made(dict, text, src, mem, at), idx, cut, mem, at).end
            != Cycle(dict, next, prev, Find(dict, text), idx, cut)
    decreases |keys|, 0
  {
    hide Matches, Find, Made, SteadyAt, SourceOf, CycleRaw, AfterShown, RestartRaw, Cycle, ReadsCycle, ReadsAfter;
    hide ReadsRestart, CompleteRaw, Complete, Written, Texts, Others, Values, AllSteady, CutOf;
    var found := Find(dict, text);
    var first, later := [Read(src, text, idx)], ReadsAfter(dict, next, prev, text, src, idx, keys);
    FindNonEmpty(dict, text);
    ReadsCycleFirst(dict, next, prev, text, src, idx, keys);
    AllSteadyConcat(first, later);
    FirstSteady(src, text, idx);
    if SteadyAt(src, idx) {
      mem, cut := UnsteadyAfterEnds(dict, next, prev, text, src, idx, keys, at);
      CycleRawShown(dict, next, prev, Made(dict, text, src, mem, at), idx, cut, mem, at);
    } else {
      mem := MadeUnsteady(dict, text, src, at, idx);
      cut := [ENTER];
      CutHere(prev, cut, keys);
      CycleNeverDamaged(dict, next, prev, found, idx, cut);
      var slots := Made(dict, text, src, mem, at);
      CycleRawShown(dict, next, prev, slots, idx, cut, mem, at);
      CycleKey(dict, next, prev, found, idx, cut);
      if slots[idx].Str? {
        AfterRawKey(dict, next, prev, slots, idx, cut, mem, at);
      }
    }
  }

  lemma {:induction false} UnsteadyAfterEnds(dict: seq<string>, next: char, prev: char, text: string, src: Source,
                                             idx: nat, keys: string, at: nat) returns (mem: Stale, cut: string)
    requires SourceOf(dict, text, src) && (src.Fresh? || at > 0) && !src.ByKey? && idx < |Find(dict, text)|
    requires SteadyAt(src, idx) && !AllSteady(ReadsAfter(dict, next, prev, text, src, idx, keys))
    requires !OneSpare(src) && next != prev && prev != ENTER
    ensures CutOf(prev, cut, keys)
    ensures var slots := Made(dict, text, src, mem, at);
            && slots[idx] == Str(Find(dict, text)[idx])
            && AfterShown(dict, next, prev, slots, idx, cut, mem, at).end
               != Cycle(dict, next, prev, Find(dict, text), idx, cut)
    decreases |keys|, 0, 0
  {
    hide Matches, Find, Made, SteadyAt, SourceOf, CycleRaw, AfterShown, RestartRaw, Cycle, ReadsCycle, ReadsAfter;
    hide ReadsRestart, CompleteRaw, Complete, Written, Texts, Others, Values, AllSteady, CutOf;
    var found := Find(dict, text);
    FindNonEmpty(dict, text);
    NoneSteady();
    ReadsAfterKey(dict, next, prev, text, src, idx, keys);
    var c, rest, tail := keys[0], keys[1..], "";
    if c == next {
      mem, tail := UnsteadyCycleEnds(dict, next, prev, text, src, if idx + 1 == |found| then 0 else idx + 1, rest, at);
    } else if c == prev {
      mem, tail := UnsteadyCycleEnds(dict, next, prev, text, src, if idx == 0 then |found| - 1 else idx - 1, rest, at);
    } else {
      mem, tail := UnsteadyRestartEnds(dict, next, prev, text, src, idx, c, rest, at);
    }
    cut := [c] + tail;
    assert [c] + rest == keys && cut[0] == c && cut[1..] == tail;
    CutLater(prev, [c], tail, rest);
    MadeSteady(dict, text, src, mem, at, idx);
    CycleKey(dict, next, prev, found, idx, cut);
    AfterRawKey(dict, next, prev, Made(dict, text, src, mem, at), idx, cut, mem, at);
  }

  lemma {:induction false} UnsteadyRestartEnds(dict: seq<string>, next: char, prev: char, text: string, src: Source,
                                               idx: nat, c: char, keys: string, at: nat)
    returns (mem: Stale, cut: string)
    requires SourceOf(dict, text, src) && (src.Fresh? || at > 0) && !src.ByKey? && idx < |Find(dict, text)|
    requires !(Deletes(c) && Find(dict, text)[idx] == "")
    requires !AllSteady(ReadsRestart(dict, next, prev, text, src, Press(Find(dict, text)[idx], c), c, keys))
    requires !OneSpare(src) && next != prev && prev != ENTER
    ensures CutOf(prev, cut, keys)
    ensures RestartRaw(dict, next, prev, Made(dict, text, src, mem, at), Find(dict, text)[idx], c, cut, mem, at).end
            != Complete(dict, next, prev, Press(Find(dict, text)[idx], c), cut)
    decreases |keys|, 2
  {
    hide Matches, Find, Made, SteadyAt, SourceOf, RestartRaw, ReadsComplete, CompleteRaw, Complete, Written, Texts;
    hide Others, Values, AllSteady, Press, CutOf, OneSpare;
    var shown := Find(dict, text)[idx];
    var input := Press(shown, c);
    FindNonEmpty(dict, text);
    if Deletes(c) {
      FreshSource(dict, input);
      mem, cut := UnsteadyEnds(dict, next, prev, input, true, Fresh, keys, at);
      RestartFresh(dict, next, prev, Made(dict, text, src, mem, at), shown, c, cut, mem, at);
    } else {
      var n, others := ByKey(Matches(dict, text), input), Others(dict, text, src);
      var later := ReadsComplete(dict, next, prev, input, true, n, keys);
      KeySource(dict, text, idx, c);
      AllSteadyConcat(others, later);
      if AllSteady(others) {
        mem, cut := UnsteadyEnds(dict, next, prev, input, true, n, keys, at + 1);
        OthersRight(dict, text, src, mem, at);
        RestartNarrowed(dict, next, prev, text, src, shown, c, cut, mem, at);
      } else {
        mem := OthersUnwritten(dict, text, src, at);
        cut := keys;
        CutWhole(prev, keys);
        NeverDamaged(dict, next, prev, input, keys);
        RestartReads(dict, next, prev, Made(dict, text, src, mem, at), shown, c, keys, mem, at);
      }
    }
  }

  lemma CutWhole(prev: char, keys: string)
    ensures CutOf(prev, keys, keys)
  {
  }

  /** Over this memory the session ends as the reference does. */
  ghost predicate EndsAsMeant(dict: seq<string>, next: char, prev: char, keys: string, mem: Stale) {
    CompleteRaw(dict, next, prev, "", [], keys, mem, 0).end == Complete(dict, next, prev, "", keys)
  }

  /** The user may at any time look at an entry or two and take what is shown, or the line. */
  ghost predicate LookClosed(prev: char, sessions: iset<string>) {
    forall keys: string, cut: string | keys in sessions && CutOf(prev, cut, keys) :: cut in sessions
  }

  /**
   For any set of sessions in which the user may look at the list and choose: all of them end as the reference over any
   memory exactly if all slots they read are steady.
   */
  lemma OutcomesReliableIff(dict: seq<string>, next: char, prev: char, sessions: iset<string>)
    requires LookClosed(prev, sessions) && next != prev && prev != ENTER
    ensures (forall keys: string, mem: Stale | keys in sessions :: EndsAsMeant(dict, next, prev, keys, mem))
            <==> forall keys | keys in sessions :: AllSteady(Reads(dict, next, prev, keys))
  {
    hide CompleteRaw, Complete, ReadsComplete, SteadyAt, AllSteady, CutOf;
    forall keys: string, mem: Stale | keys in sessions && AllSteady(Reads(dict, next, prev, keys))
      ensures EndsAsMeant(dict, next, prev, keys, mem)
    {
      SteadyReads(dict, next, prev, "", false, Fresh, keys, mem, 0);
    }
    if keys :| keys in sessions && !AllSteady(Reads(dict, next, prev, keys)) {
      var mem, cut := UnsteadyEnds(dict, next, prev, "", false, Fresh, keys, 0);
      assert cut in sessions;
      assert !EndsAsMeant(dict, next, prev, cut, mem);
    }
  }
}
