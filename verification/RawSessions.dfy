/** Completion as written: sessions in which unwritten memory cannot matter, and two in which it does. */
module RawSessions {
  import opened Matching
  import opened StalePass
  import opened LineEditor
  import opened TabComplete
  import opened RawNarrowing

  // ---------------------------------------------------------------- sessions that never narrow at a tab

  /** The session narrows the list at hand at a tab: what that leaves is shown. */
  predicate NarrowsAtTab(rds: seq<Read>) {
    exists i | 0 <= i < |rds| :: rds[i].src.ByTab?
  }

  lemma NarrowsConcat(a: seq<Read>, b: seq<Read>)
    ensures NarrowsAtTab(a + b) <==> NarrowsAtTab(a) || NarrowsAtTab(b)
  {
    if i :| 0 <= i < |a| && a[i].src.ByTab? {
      assert (a + b)[i].src.ByTab?;
    }
    if i :| 0 <= i < |b| && b[i].src.ByTab? {
      assert (a + b)[|a| + i].src.ByTab?;
    }
  }

  lemma OthersFresh(dict: seq<string>, text: string)
    ensures AllSteady(Others(dict, text, Fresh))
  {
    hide Matches;
  }

  lemma {:induction false} NoTabSteady(dict: seq<string>, next: char, prev: char, base: string, cached: bool,
                                       src: Source, keys: string)
    requires !NarrowsAtTab(ReadsComplete(dict, next, prev, base, cached, src, keys))
    ensures AllSteady(ReadsComplete(dict, next, prev, base, cached, src, keys))
    decreases |keys|, 1
  {
    hide Matches, Find, SteadyAt, ReadsCycle, Others, Extends, NarrowsAtTab, AllSteady;
    NoneSteady();
    match EditLine(base, keys)
    case LineTabbed(text, rest) =>
      FindNonEmpty(dict, text);
      if cached && Extends(base, text) {
        var n := ByTab(Matches(dict, base), text);
        ReadsCycleFirst(dict, next, prev, text, n, 0, rest);
        TabNarrows(n, text);
        NarrowsConcat([Read(n, text, 0)], ReadsAfter(dict, next, prev, text, n, 0, rest));
        NarrowsConcat(Others(dict, base, src), ReadsCycle(dict, next, prev, text, n, 0, rest));
      } else {
        NoTabSteadyCycle(dict, next, prev, text, 0, rest);
      }
    case _ =>
  }

  lemma TabNarrows(src: Source, text: string)
    ensures src.ByTab? ==> NarrowsAtTab([Read(src, text, 0)])
  {
    assert [Read(src, text, 0)][0].src == src;
  }

  lemma {:induction false} NoTabSteadyCycle(dict: seq<string>, next: char, prev: char, text: string, idx: nat,
                                            keys: string)
    requires idx < |Find(dict, text)| && !NarrowsAtTab(ReadsCycle(dict, next, prev, text, Fresh, idx, keys))
    ensures AllSteady(ReadsCycle(dict, next, prev, text, Fresh, idx, keys))
    decreases |keys|, 0
  {
    hide Matches, Find, ReadsCycle, ReadsAfter, ReadsComplete, Others, Extends, NarrowsAtTab, AllSteady;
    var found, first := Find(dict, text), [Read(Fresh, text, idx)];
    var later := ReadsAfter(dict, next, prev, text, Fresh, idx, keys);
    NoneSteady();
    ReadsCycleFirst(dict, next, prev, text, Fresh, idx, keys);
    ReadsAfterKey(dict, next, prev, text, Fresh, idx, keys);
    NarrowsConcat(first, later);
    AllSteadyConcat(first, later);
    FirstSteady(Fresh, text, idx);
    if keys != "" {
      var c, rest := keys[0], keys[1..];
      if c == ENTER {
      } else if c == next {
        NoTabSteadyCycle(dict, next, prev, text, if idx + 1 == |found| then 0 else idx + 1, rest);
      } else if c == prev {
        NoTabSteadyCycle(dict, next, prev, text, if idx == 0 then |found| - 1 else idx - 1, rest);
      } else if c != CTRL_C && !(Deletes(c) && found[idx] == "") {
        var input := Press(found[idx], c);
        if Deletes(c) {
          NoTabSteady(dict, next, prev, input, true, Fresh, rest);
        } else {
          var n := ByKey(Matches(dict, text), input);
          NarrowsConcat(Others(dict, text, Fresh), ReadsComplete(dict, next, prev, input, true, n, rest));
          AllSteadyConcat(Others(dict, text, Fresh), ReadsComplete(dict, next, prev, input, true, n, rest));
          OthersFresh(dict, text);
          NoTabSteady(dict, next, prev, input, true, n, rest);
        }
      }
    }
  }

  /** A session that never narrows at a tab ends as meant over any memory. */
  lemma NoTabNarrowingIsReliable(dict: seq<string>, next: char, prev: char, keys: string, mem: Stale)
    requires !NarrowsAtTab(Reads(dict, next, prev, keys))
    ensures RunsAsMeant(dict, next, prev, keys, mem)
  {
    hide CompleteRaw, Complete, ReadsComplete, AllSteady, NarrowsAtTab;
    NoTabSteady(dict, next, prev, "", false, Fresh, keys);
    SteadyReads(dict, next, prev, "", false, Fresh, keys, mem, 0);
  }

  // ---------------------------------------------------------------- sessions in which memory matters

  /** Unwritten words are zero, and nothing follows an open copy. */
  const ZEROS := Stale((a: nat) => (i: nat) => 0, (a: nat) => "")

  lemma FindIs(dict: seq<string>, needle: string)
    ensures Find(dict, needle) == Matches(dict, needle) + [needle]
  {
  }

  lemma MatchesOne(s: string, needle: string)
    ensures Matches([s], needle) == if Contains(s, needle) then [s] else []
    ensures Removed([s], needle) == if Contains(s, needle) then [] else [0]
  {
    hide Contains;
    assert [s][..0] == [];
  }

  lemma MatchesTwo(s: string, t: string, needle: string)
    ensures Matches([s, t], needle) == Matches([s], needle) + Matches([t], needle)
    ensures Contains(s, needle) && Contains(t, needle) ==> Removed([s, t], needle) == []
    ensures !Contains(s, needle) && Contains(t, needle) ==> Removed([s, t], needle) == [0]
  {
    hide Contains;
    MatchesOne(s, needle);
    MatchesOne(t, needle);
    assert [s, t][..1] == [s];
  }

  /** With nothing to remove, a zero drops the first entry. */
  lemma ZeroDropsFirst(strs: seq<string>, needle: string)
    requires strs != [] && Removed(strs, needle) == []
    ensures Matches(strs, needle) == strs
    ensures Narrowed(strs, needle, ZEROS.words(0)) == Slots(strs[1..]) + [Unwritten]
    ensures Narrowed(strs, needle, ZEROS.words(1)) == Slots(strs[1..]) + [Unwritten]
  {
    hide Contains, Matches, Removed, CopyPass, Slots;
    AllKept(strs, needle);
    var words := Words(strs, needle, ZEROS.words(0));
    assert words == Words(strs, needle, ZEROS.words(1));
    assert words[0] == 0 && words[1] == 0;
    CopyPassNext(strs, words, 0, 0);
    CopyTail(strs, words, 1, 1);
    CopyPassAtMost(strs, needle, ZEROS.words(0));
  }

  lemma AllKept(strs: seq<string>, needle: string)
    requires Removed(strs, needle) == []
    ensures Matches(strs, needle) == strs
  {
    hide Contains, Matches, Removed;
    RemovedIs(strs, needle);
    KeptTail(strs, needle, 0);
    assert strs[..0] == [];
    RemovedIs(strs[..0], needle);
    NothingYet(needle);
    assert strs[0..] == strs;
  }

  /** A tab at once, with no list at hand or a fresh one. */
  lemma TabFirst(dict: seq<string>, next: char, prev: char, base: string, cache: seq<Slot>, rest: string, mem: Stale,
                 at: nat)
    ensures CompleteRaw(dict, next, prev, base, cache, [TAB] + rest, mem, at)
            == TabbedRaw(dict, next, prev, base, base, cache, rest, mem, at)
    ensures 0 < |Find(dict, base)|
    ensures Complete(dict, next, prev, base, [TAB] + rest) == Cycle(dict, next, prev, Find(dict, base), 0, rest)
  {
    hide TabbedRaw, Cycle;
    assert ([TAB] + rest)[1..] == rest;
  }

  /** The tab branch with a written list at hand for the same text. */
  lemma TabSame(dict: seq<string>, next: char, prev: char, base: string, strs: seq<string>, last: Slot, keys: string,
                mem: Stale, at: nat)
    requires base != ""
    ensures 0 < |Narrowed(strs + [base], base, mem.words(at))|
    ensures TabbedRaw(dict, next, prev, base, base, Slots(strs) + [last], keys, mem, at)
            == Reading(strs, CycleRaw(dict, next, prev, Narrowed(strs + [base], base, mem.words(at)), 0, keys, mem,
                                      at + 1))
  {
    hide CycleRaw, Narrowed, Contains, Slots, Texts;
    var cache := Slots(strs) + [last];
    assert cache[..|cache| - 1] == Slots(strs);
    TextsOfSlots(strs);
    ContainsItself(base);
    NarrowedHasSlot(strs, base, base, mem.words(at));
  }

  /** Restarting by a letter from a written list. */
  lemma LetterFirst(dict: seq<string>, next: char, prev: char, strs: seq<string>, shown: string, c: char,
                    keys: string, mem: Stale, at: nat)
    requires strs != [] && !Deletes(c)
    ensures var input := shown + [c];
            var others := strs[..|strs| - 1];
            RestartRaw(dict, next, prev, Slots(strs), shown, c, keys, mem, at)
            == Reading(others, CompleteRaw(dict, next, prev, input,
                                           Narrowed(others + [input + mem.behind(at)], input, mem.words(at)), keys, mem,
                                           at + 1))
  {
    hide CompleteRaw, Narrowed, Texts;
    assert Slots(strs)[..|strs| - 1] == Slots(strs[..|strs| - 1]);
    TextsOfSlots(strs[..|strs| - 1]);
  }

  /** One tab, a letter and a tab: the input is lost, and its slot is read. */
  lemma TabLetterTabDamaged()
    ensures CompleteRaw(["a"], 'n', 'p', "", [], [TAB, 'b', TAB], ZEROS, 0).end == Damaged
    ensures Complete(["a"], 'n', 'p', "", [TAB, 'b', TAB]) == Waiting
  {
    hide Matches, Contains, Find, Narrowed, CycleRaw, AfterShown, Cycle, TabbedRaw, RestartRaw, Slots;
    hide CompleteRaw, Complete;
    var dict, w := ["a"], ['b', TAB];
    assert [TAB] + w == [TAB, 'b', TAB] && w[1..] == [TAB] == [TAB] + "" && "a" + ['b'] == "ab" && "ab" + "" == "ab";
    LetterLists();
    var list := Slots(["a", ""]);
    TabFirst(dict, 'n', 'p', "", [], w, ZEROS, 0);
    TabbedFreshIs(dict, 'n', 'p', "", [], w, ZEROS, 0);
    SlotsAre(["a", ""]);
    CycleRawShown(dict, 'n', 'p', list, 0, w, ZEROS, 0);
    AfterRawKey(dict, 'n', 'p', list, 0, w, ZEROS, 0);
    CycleKey(dict, 'n', 'p', ["a", ""], 0, w);
    LetterFirst(dict, 'n', 'p', ["a", ""], "a", 'b', [TAB], ZEROS, 0);
    assert ["a", ""][..1] == ["a"] && ["a"] + ["ab"] == ["a", "ab"];
    var cache := Slots(["ab"]);
    SlotsAre(["ab"]);
    assert cache == Slots([]) + [Str("ab")];
    TabFirst(dict, 'n', 'p', "ab", cache, "", ZEROS, 1);
    TabSame(dict, 'n', 'p', "ab", [], Str("ab"), "", ZEROS, 1);
    assert [] + ["ab"] == ["ab"];
    CycleRawShown(dict, 'n', 'p', [Unwritten], 0, "", ZEROS, 2);
    CycleKey(dict, 'n', 'p', Find(dict, "ab"), 0, "");
  }

  lemma TabbedFreshIs(dict: seq<string>, next: char, prev: char, text: string, cache: seq<Slot>, keys: string,
                      mem: Stale, at: nat)
    requires cache == []
    ensures 0 < |Slots(Find(dict, text))|
    ensures TabbedRaw(dict, next, prev, text, text, cache, keys, mem, at)
            == CycleRaw(dict, next, prev, Slots(Find(dict, text)), 0, keys, mem, at)
  {
    hide CycleRaw;
  }

  lemma SlotsAre(strs: seq<string>)
    ensures |Slots(strs)| == |strs| && forall i | 0 <= i < |strs| :: Slots(strs)[i] == Str(strs[i])
    ensures Slots([]) == []
  {
  }

  lemma LetterLists()
    ensures Find(["a"], "") == ["a", ""]
    ensures Narrowed(["a", "ab"], "ab", ZEROS.words(0)) == Slots(["ab"])
    ensures Narrowed(["ab"], "ab", ZEROS.words(1)) == [Unwritten]
  {
    hide Matches, Removed, CopyPass, Contains, Find, Narrowed;
    ContainsPrefix("a", 0);
    assert "a"[..0] == "";
    MatchesOne("a", "");
    FindIs(["a"], "");
    ContainsItself("ab");
    NotInShorter("a", "ab");
    MatchesOne("a", "ab");
    MatchesOne("ab", "ab");
    MatchesTwo("a", "ab", "ab");
    NarrowedIsFilter(["a", "ab"], "ab", ZEROS.words(0));
    ZeroDropsFirst(["ab"], "ab");
    assert Slots(["ab"][1..]) == [];
  }

  lemma NotInShorter(s: string, needle: string)
    requires |s| < |needle|
    ensures !Contains(s, needle)
  {
  }

  /** A tab, a deletion, a tab and Enter: another entry is shown and chosen than was meant, and nothing seems wrong. */
  lemma WrongEntryChosen()
    ensures var keys := [TAB, BACKSPACE, TAB, ENTER];
            && CompleteRaw(["ax", "ay"], 'n', 'p', "", [], keys, ZEROS, 0).end == Chosen("ay", "")
            && Complete(["ax", "ay"], 'n', 'p', "", keys) == Chosen("ax", "")
  {
    hide Matches, Contains, Find, Narrowed, CycleRaw, AfterShown, Cycle, TabbedRaw, RestartRaw, Slots;
    hide CompleteRaw, Complete;
    var dict, w := ["ax", "ay"], [BACKSPACE, TAB, ENTER];
    assert [TAB] + w == [TAB, BACKSPACE, TAB, ENTER] && w[1..] == [TAB] + [ENTER] && [ENTER][1..] == "";
    assert Press("ax", BACKSPACE) == "a";
    PairLists();
    var list := Slots(["ax", "ay", ""]);
    TabFirst(dict, 'n', 'p', "", [], w, ZEROS, 0);
    TabbedFreshIs(dict, 'n', 'p', "", [], w, ZEROS, 0);
    SlotsAre(["ax", "ay", ""]);
    CycleRawShown(dict, 'n', 'p', list, 0, w, ZEROS, 0);
    AfterRawKey(dict, 'n', 'p', list, 0, w, ZEROS, 0);
    CycleKey(dict, 'n', 'p', ["ax", "ay", ""], 0, w);
    RestartFresh(dict, 'n', 'p', list, "ax", BACKSPACE, [TAB] + [ENTER], ZEROS, 0);
    var cache := Slots(["ax", "ay", "a"]);
    SlotsAre(["ax", "ay", "a"]);
    SlotsAre(["ax", "ay"]);
    assert cache == Slots(["ax", "ay"]) + [Str("a")] && ["ax", "ay"] + ["a"] == ["ax", "ay", "a"];
    TabFirst(dict, 'n', 'p', "a", cache, [ENTER], ZEROS, 0);
    TabSame(dict, 'n', 'p', "a", ["ax", "ay"], Str("a"), [ENTER], ZEROS, 0);
    var wrong := Slots(["ay", "a"]) + [Unwritten];
    SlotsAre(["ay", "a"]);
    CycleRawShown(dict, 'n', 'p', wrong, 0, [ENTER], ZEROS, 1);
    AfterRawKey(dict, 'n', 'p', wrong, 0, [ENTER], ZEROS, 1);
    CycleKey(dict, 'n', 'p', ["ax", "ay", "a"], 0, [ENTER]);
  }

  lemma PairLists()
    ensures Find(["ax", "ay"], "") == ["ax", "ay", ""] && Find(["ax", "ay"], "a") == ["ax", "ay", "a"]
    ensures Narrowed(["ax", "ay", "a"], "a", ZEROS.words(0)) == Slots(["ay", "a"]) + [Unwritten]
  {
    hide Matches, Removed, CopyPass, Contains, Find, Narrowed;
    var dict := ["ax", "ay"];
    ContainsPrefix("ax", 0);
    ContainsPrefix("ay", 0);
    ContainsPrefix("ax", 1);
    ContainsPrefix("ay", 1);
    assert "ax"[..0] == "" && "ay"[..0] == "" && "ax"[..1] == "a" && "ay"[..1] == "a";
    MatchesTwo("ax", "ay", "");
    MatchesTwo("ax", "ay", "a");
    MatchesOne("ax", "");
    MatchesOne("ay", "");
    MatchesOne("ax", "a");
    MatchesOne("ay", "a");
    FindIs(dict, "");
    FindIs(dict, "a");
    ContainsItself("a");
    EndKept(dict, "a", "a");
    assert dict + ["a"] == ["ax", "ay", "a"];
    ZeroDropsFirst(["ax", "ay", "a"], "a");
    assert ["ax", "ay", "a"][1..] == ["ay", "a"];
  }
}
