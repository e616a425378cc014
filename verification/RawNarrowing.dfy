/** Completion with its narrowing as written, against the reference: for which sessions unwritten memory can matter. */
module RawNarrowing {
  import opened Matching
  import opened StalePass
  import opened LineEditor
  import opened TabComplete

  // ---------------------------------------------------------------- what a session reads

  /** How a match list came about: searched, narrowed at a tab (ending in the input), or at a key (in an open copy). */
  datatype Source = Fresh | ByTab(kept: seq<string>, needle: string) | ByKey(kept: seq<string>, needle: string)

  /** A slot that is read: number p of the list for `text`. */
  datatype Read = Read(src: Source, text: string, p: nat)

  /** What the reference finds there. */
  function Value(dict: seq<string>, rd: Read): string {
    if rd.p < |Find(dict, rd.text)| then Find(dict, rd.text)[rd.p] else ""
  }

  function Values(dict: seq<string>, rds: seq<Read>): (strs: seq<string>)
    ensures |strs| == |rds|
  {
    seq(|rds|, i requires 0 <= i < |rds| => Value(dict, rds[i]))
  }

  lemma ValuesConcat(dict: seq<string>, a: seq<Read>, b: seq<Read>)
    ensures Values(dict, a + b) == Values(dict, a) + Values(dict, b)
  {
    hide Value;
  }

  /** Narrowing reads all slots but the last, which was just written. */
  function Others(dict: seq<string>, text: string, src: Source): (rds: seq<Read>)
    ensures |rds| == |Matches(dict, text)|
  {
    seq(|Matches(dict, text)|, p requires 0 <= p => Read(src, text, p))
  }

  lemma OthersValues(dict: seq<string>, text: string, src: Source)
    ensures Values(dict, Others(dict, text, src)) == Matches(dict, text)
  {
    hide Matches;
  }

  /** The slots the reference session reads, in order. */
  function ReadsComplete(dict: seq<string>, next: char, prev: char, base: string, cached: bool, src: Source,
                         keys: string): seq<Read>
    decreases |keys|, 2
  {
    match EditLine(base, keys)
    case LineTabbed(text, rest) =>
      if cached && Extends(base, text) then
        Others(dict, base, src) + ReadsCycle(dict, next, prev, text, ByTab(Matches(dict, base), text), 0, rest)
      else ReadsCycle(dict, next, prev, text, Fresh, 0, rest)
    case _ => []
  }

  function ReadsCycle(dict: seq<string>, next: char, prev: char, text: string, src: Source, idx: nat, keys: string)
    : seq<Read>
    requires idx < |Find(dict, text)|
    decreases |keys|, 1
  {
    [Read(src, text, idx)] + ReadsAfter(dict, next, prev, text, src, idx, keys)
  }

  function ReadsAfter(dict: seq<string>, next: char, prev: char, text: string, src: Source, idx: nat, keys: string)
    : seq<Read>
    requires idx < |Find(dict, text)|
    decreases |keys|, 0
  {
    if keys == "" then []
    else
      var c, rest, found := keys[0], keys[1..], Find(dict, text);
      if c == ENTER then []
      else if c == next then
        ReadsCycle(dict, next, prev, text, src, if idx + 1 == |found| then 0 else idx + 1, rest)
      else if c == prev then
        ReadsCycle(dict, next, prev, text, src, if idx == 0 then |found| - 1 else idx - 1, rest)
      else if c == CTRL_C || (Deletes(c) && found[idx] == "") then []
      else ReadsRestart(dict, next, prev, text, src, Press(found[idx], c), c, rest)
  }

  function ReadsRestart(dict: seq<string>, next: char, prev: char, text: string, src: Source, input: string, c: char,
                        keys: string): seq<Read>
    decreases |keys|, 3
  {
    if Deletes(c) then ReadsComplete(dict, next, prev, input, true, Fresh, keys)
    else
      Others(dict, text, src) + ReadsComplete(dict, next, prev, input, true, ByKey(Matches(dict, text), input), keys)
  }

  /** The reference transcript: what it finds at these slots, and how it ends. */
  function Meant(dict: seq<string>, rds: seq<Read>, end: Outcome): Transcript {
    Transcript(Values(dict, rds), end)
  }

  // ---------------------------------------------------------------- lists and their slots

  predicate SteadyAt(src: Source, p: nat) {
    match src
    case Fresh => true
    case ByTab(kept, needle) => Steady(Matches(kept, needle) + [needle], Removed(kept, needle), p)
    case ByKey(kept, needle) => Steady(Matches(kept, needle), Removed(kept, needle), p)
  }

  ghost predicate AllSteady(rds: seq<Read>) {
    forall i | 0 <= i < |rds| :: SteadyAt(rds[i].src, rds[i].p)
  }

  lemma AllSteadyConcat(a: seq<Read>, b: seq<Read>)
    ensures AllSteady(a + b) <==> AllSteady(a) && AllSteady(b)
  {
    hide SteadyAt;
    if AllSteady(a + b) {
      assert forall i | 0 <= i < |a| :: (a + b)[i] == a[i];
      assert forall i | 0 <= i < |b| :: (a + b)[|a| + i] == b[i];
    }
  }

  /** The source belongs to the list for `text`. */
  predicate SourceOf(dict: seq<string>, text: string, src: Source) {
    src.Fresh? || (src.needle == text && Matches(src.kept, text) == Matches(dict, text))
  }

  /** The list a source leaves over the given memory; the latest narrowing was number at - 1. */
  function Made(dict: seq<string>, text: string, src: Source, mem: Stale, at: nat): (slots: seq<Slot>)
    requires SourceOf(dict, text, src) && (src.Fresh? || at > 0)
    ensures |slots| == |Find(dict, text)|
  {
    match src
    case Fresh => Slots(Find(dict, text))
    case ByTab(kept, needle) =>
      ContainsItself(needle);
      EndKept(kept, needle, needle);
      Narrowed(kept + [needle], needle, mem.words(at - 1))
    case ByKey(kept, needle) =>
      CopyContains(needle, mem.behind(at - 1));
      EndKept(kept, needle + mem.behind(at - 1), needle);
      Narrowed(kept + [needle + mem.behind(at - 1)], needle, mem.words(at - 1))
  }

  /** A slot that is read: any of a list on display, all but the last when narrowing. */
  predicate Readable(dict: seq<string>, text: string, src: Source, p: nat) {
    p < |Matches(dict, text)| || (!src.ByKey? && p == |Matches(dict, text)|)
  }

  /** Narrowing over memory without an index in it is the filter. */
  lemma NoIndexLosesNothing(strs: seq<string>, needle: string, stale: nat -> int)
    requires forall i: nat :: stale(i) < 0
    ensures Narrowed(strs, needle, stale) == Slots(Matches(strs, needle))
  {
    hide Matches, Contains;
    var removed := Removed(strs, needle);
    assert stale(|removed|) < 0;
    RemovedIs(strs, needle);
    NarrowedIsFilter(strs, needle, stale);
  }

  /** No word where nothing was written is an index: the sentinel might as well be where it was meant to be. */
  ghost predicate Harmless(mem: Stale) {
    forall a: nat, i: nat :: mem.words(a)(i) < 0
  }

  /** Slots that are right over this memory. */
  ghost predicate Fine(rds: seq<Read>, mem: Stale) {
    AllSteady(rds) || Harmless(mem)
  }

  lemma FineConcat(a: seq<Read>, b: seq<Read>, mem: Stale)
    ensures Fine(a + b, mem) <==> Fine(a, mem) && Fine(b, mem)
  {
    hide AllSteady, Harmless;
    AllSteadyConcat(a, b);
  }

  /** A steady slot is right over any memory, and any slot over harmless memory. */
  lemma MadeSteady(dict: seq<string>, text: string, src: Source, mem: Stale, at: nat, p: nat)
    requires SourceOf(dict, text, src) && (src.Fresh? || at > 0) && Readable(dict, text, src, p)
    requires SteadyAt(src, p) || Harmless(mem)
    ensures Made(dict, text, src, mem, at)[p] == Str(Find(dict, text)[p])
  {
    hide Matches, Removed, Narrowed, Steady, Contains;
    if !src.Fresh? {
      var stale, needle := mem.words(at - 1), src.needle;
      var last := if src.ByTab? then needle else needle + mem.behind(at - 1);
      var strs := src.kept + [last];
      ContainsItself(needle);
      CopyContains(needle, mem.behind(at - 1));
      EndKept(src.kept, last, needle);
      if Harmless(mem) {
        NoIndexLosesNothing(strs, needle, stale);
      } else if src.ByTab? {
        SteadySlot(strs, needle, Matches(src.kept, needle) + [needle], p, stale);
      } else {
        SteadySlot(strs, needle, Matches(src.kept, needle), p, stale);
      }
    }
  }

  /** A slot that is not steady is wrong over some memory. */
  lemma MadeUnsteady(dict: seq<string>, text: string, src: Source, at: nat, p: nat) returns (mem: Stale)
    requires SourceOf(dict, text, src) && (src.Fresh? || at > 0) && Readable(dict, text, src, p) && !SteadyAt(src, p)
    ensures Made(dict, text, src, mem, at)[p] != Str(Find(dict, text)[p])
  {
    hide Matches, Removed, Narrowed, Steady, Contains;
    if src.ByTab? {
      ContainsItself(src.needle);
      EndKept(src.kept, src.needle, src.needle);
      var stale := UnsteadySlot(src.kept + [src.needle], src.needle, p);
      mem := Stale((a: nat) => stale, (a: nat) => "");
    } else {
      var stale, behind := UnsteadyOpen(src.kept, src.needle, p);
      mem := Stale((a: nat) => stale, (a: nat) => behind);
    }
  }

  /** If all slots but the last are steady, narrowing the list reads what it should. */
  lemma OthersRight(dict: seq<string>, text: string, src: Source, mem: Stale, at: nat)
    requires SourceOf(dict, text, src) && (src.Fresh? || at > 0) && Fine(Others(dict, text, src), mem)
    ensures var others := Made(dict, text, src, mem, at)[..|Matches(dict, text)|];
            Written(others) && Texts(others) == Matches(dict, text)
  {
    hide Matches, Removed, SteadyAt, Harmless;
    var others := Made(dict, text, src, mem, at)[..|Matches(dict, text)|];
    forall p | 0 <= p < |Matches(dict, text)| ensures others[p] == Str(Matches(dict, text)[p]) {
      assert Others(dict, text, src)[p] == Read(src, text, p);
      MadeSteady(dict, text, src, mem, at, p);
    }
  }

  /** If one is not, some memory makes narrowing read something else, or what was never written. */
  lemma OthersWrong(dict: seq<string>, text: string, src: Source, at: nat) returns (mem: Stale)
    requires SourceOf(dict, text, src) && (src.Fresh? || at > 0) && !AllSteady(Others(dict, text, src))
    ensures var others := Made(dict, text, src, mem, at)[..|Matches(dict, text)|];
            Written(others) ==> Texts(others) != Matches(dict, text)
  {
    hide Matches, Removed, SteadyAt, Made;
    var p :| 0 <= p < |Matches(dict, text)|
             && !SteadyAt(Others(dict, text, src)[p].src, Others(dict, text, src)[p].p);
    mem := MadeUnsteady(dict, text, src, at, p);
    var others := Made(dict, text, src, mem, at)[..|Matches(dict, text)|];
    if Written(others) {
      assert others[p] == Str(Texts(others)[p]);
      assert Find(dict, text)[p] == Matches(dict, text)[p];
    }
  }

  /** One word before the sentinel is unwritten, so that one entry can be lost but not two. */
  predicate OneSpare(src: Source) {
    !src.Fresh? && |Removed(src.kept, src.needle)| == FIRST_CAPACITY - 1
  }

  /** Otherwise some memory makes narrowing read what was never written. */
  lemma OthersUnwritten(dict: seq<string>, text: string, src: Source, at: nat) returns (mem: Stale)
    requires SourceOf(dict, text, src) && (src.Fresh? || at > 0) && !AllSteady(Others(dict, text, src))
    requires !OneSpare(src)
    ensures !Written(Made(dict, text, src, mem, at)[..|Matches(dict, text)|])
  {
    hide Matches, Removed, Narrowed, Contains;
    var m := |Matches(dict, text)|;
    var p :| 0 <= p < m && !SteadyAt(Others(dict, text, src)[p].src, Others(dict, text, src)[p].p);
    ContainsItself(src.needle);
    EndKept(src.kept, src.needle, src.needle);
    var stale := LoseLastTwo(src.kept + [src.needle], src.needle);
    mem := Stale((a: nat) => stale, (a: nat) => "");
    assert src.needle + "" == src.needle;
    assert Made(dict, text, src, mem, at)[..m][m - 1] == Unwritten;
  }

  // ---------------------------------------------------------------- sessions that read steady slots only

  /** The list at hand for `base`, or none. */
  function AtHand(dict: seq<string>, base: string, cached: bool, src: Source, mem: Stale, at: nat): (slots: seq<Slot>)
    requires cached ==> SourceOf(dict, base, src) && (src.Fresh? || at > 0)
    ensures slots != [] <==> cached
    ensures cached ==> |slots| == |Matches(dict, base)| + 1
  {
    if cached then Made(dict, base, src, mem, at) else []
  }

  /** A list narrowed at a tab, and one narrowed at a key, belong to the text they were narrowed by. */
  lemma TabSource(dict: seq<string>, base: string, text: string)
    requires Extends(base, text)
    ensures SourceOf(dict, text, ByTab(Matches(dict, base), text))
  {
    hide Contains, Matches;
    EquivIsPrefix(base, text);
    MatchesAbsorb(dict, base, text);
  }

  /** Every entry shown for a text contains it, so does the entry with a character appended. */
  lemma ShownContains(dict: seq<string>, text: string, idx: nat, c: char)
    requires idx < |Find(dict, text)|
    ensures Contains(Find(dict, text)[idx] + [c], text)
  {
    hide Contains;
    var s := Find(dict, text)[idx];
    MatchesContain(dict, text);
    ContainsItself(text);
    assert Contains(s, text) by {
      if idx < |Matches(dict, text)| {
        assert s in Matches(dict, text);
      }
    }
    CopyContains(s, [c]);
    ContainsTransitive(s + [c], s, text);
  }

  lemma KeySource(dict: seq<string>, text: string, idx: nat, c: char)
    requires idx < |Find(dict, text)| && !Deletes(c)
    ensures SourceOf(dict, Press(Find(dict, text)[idx], c), ByKey(Matches(dict, text), Press(Find(dict, text)[idx], c)))
  {
    hide Contains, Matches, Find;
    ShownContains(dict, text, idx, c);
    MatchesAbsorb(dict, text, Find(dict, text)[idx] + [c]);
  }

  lemma FindNonEmpty(dict: seq<string>, text: string)
    ensures |Find(dict, text)| == |Matches(dict, text)| + 1
  {
  }

  lemma MeantReading(dict: seq<string>, a: seq<Read>, b: seq<Read>, end: Outcome)
    ensures Meant(dict, a + b, end) == Reading(Values(dict, a), Meant(dict, b, end))
  {
    hide Values;
    ValuesConcat(dict, a, b);
  }

  /** The tab branch, with the list it narrows right. */
  lemma TabbedRight(dict: seq<string>, next: char, prev: char, base: string, text: string, src: Source, keys: string,
                    mem: Stale, at: nat)
    requires SourceOf(dict, base, src) && (src.Fresh? || at > 0) && Extends(base, text)
    requires SourceOf(dict, text, ByTab(Matches(dict, base), text))
    requires var others := Made(dict, base, src, mem, at)[..|Matches(dict, base)|];
             Written(others) && Texts(others) == Matches(dict, base)
    ensures 0 < |Find(dict, text)|
    ensures TabbedRaw(dict, next, prev, base, text, Made(dict, base, src, mem, at), keys, mem, at)
            == Reading(Matches(dict, base),
                       CycleRaw(dict, next, prev, Made(dict, text, ByTab(Matches(dict, base), text), mem, at + 1), 0,
                                keys, mem, at + 1))
  {
    hide Contains, Matches, Find, Narrowed, Texts, Written, CycleRaw;
    FindNonEmpty(dict, base);
    FindNonEmpty(dict, text);
    ContainsItself(text);
    NarrowedHasSlot(Matches(dict, base), text, text, mem.words(at));
  }

  lemma {:induction false} SteadyReads(dict: seq<string>, next: char, prev: char, base: string, cached: bool,
                                       src: Source, keys: string, mem: Stale, at: nat)
    requires cached ==> SourceOf(dict, base, src) && (src.Fresh? || at > 0)
    requires Fine(ReadsComplete(dict, next, prev, base, cached, src, keys), mem)
    ensures CompleteRaw(dict, next, prev, base, AtHand(dict, base, cached, src, mem, at), keys, mem, at)
            == Meant(dict, ReadsComplete(dict, next, prev, base, cached, src, keys),
                     Complete(dict, next, prev, base, keys))
    decreases |keys|, 1
  {
    hide Matches, Find, Made, SteadyAt, SourceOf, CycleRaw, Cycle, ReadsCycle, TabbedRaw, Value, Written, Texts;
    hide Extends, Others, Harmless, AllSteady;
    match EditLine(base, keys)
    case LineTabbed(text, rest) =>
      FindNonEmpty(dict, text);
      if cached && Extends(base, text) {
        var n := ByTab(Matches(dict, base), text);
        var later := ReadsCycle(dict, next, prev, text, n, 0, rest);
        TabSource(dict, base, text);
        FineConcat(Others(dict, base, src), later, mem);
        OthersRight(dict, base, src, mem, at);
        TabbedRight(dict, next, prev, base, text, src, rest, mem, at);
        SteadyCycles(dict, next, prev, text, n, 0, rest, mem, at + 1);
        OthersValues(dict, base, src);
        MeantReading(dict, Others(dict, base, src), later, Cycle(dict, next, prev, Find(dict, text), 0, rest));
      } else {
        TabbedFresh(dict, next, prev, base, text, AtHand(dict, base, cached, src, mem, at), rest, mem, at);
        SteadyCycles(dict, next, prev, text, Fresh, 0, rest, mem, at);
      }
    case _ =>
  }

  lemma TabbedFresh(dict: seq<string>, next: char, prev: char, base: string, text: string, cache: seq<Slot>,
                    keys: string, mem: Stale, at: nat)
    requires cache == [] || !Extends(base, text)
    ensures SourceOf(dict, text, Fresh)
    ensures TabbedRaw(dict, next, prev, base, text, cache, keys, mem, at)
            == CycleRaw(dict, next, prev, Made(dict, text, Fresh, mem, at), 0, keys, mem, at)
  {
    hide CycleRaw;
  }

  /** What is read after one more key of the reference on display. */
  lemma ReadsAfterKey(dict: seq<string>, next: char, prev: char, text: string, src: Source, idx: nat, keys: string)
    requires idx < |Find(dict, text)|
    ensures var found, here := Find(dict, text), ReadsAfter(dict, next, prev, text, src, idx, keys);
            if keys == "" then here == []
            else
              var c, rest := keys[0], keys[1..];
              if c == ENTER then here == []
              else if c == next then
                here == ReadsCycle(dict, next, prev, text, src, if idx + 1 == |found| then 0 else idx + 1, rest)
              else if c == prev then
                here == ReadsCycle(dict, next, prev, text, src, if idx == 0 then |found| - 1 else idx - 1, rest)
              else if c == CTRL_C || (Deletes(c) && found[idx] == "") then here == []
              else here == ReadsRestart(dict, next, prev, text, src, Press(found[idx], c), c, rest)
  {
    hide Find, ReadsCycle, ReadsRestart;
  }

  lemma ReadsCycleFirst(dict: seq<string>, next: char, prev: char, text: string, src: Source, idx: nat, keys: string)
    requires idx < |Find(dict, text)|
    ensures ReadsCycle(dict, next, prev, text, src, idx, keys)
            == [Read(src, text, idx)] + ReadsAfter(dict, next, prev, text, src, idx, keys)
  {
    hide Find, ReadsAfter;
  }

  lemma {:induction false} SteadyCycles(dict: seq<string>, next: char, prev: char, text: string, src: Source, idx: nat,
                                        keys: string, mem: Stale, at: nat)
    requires SourceOf(dict, text, src) && (src.Fresh? || at > 0) && !src.ByKey? && idx < |Find(dict, text)|
    requires Fine(ReadsCycle(dict, next, prev, text, src, idx, keys), mem)
    ensures CycleRaw(dict, next, prev, Made(dict, text, src, mem, at), idx, keys, mem, at)
            == Meant(dict, ReadsCycle(dict, next, prev, text, src, idx, keys),
                     Cycle(dict, next, prev, Find(dict, text), idx, keys))
    decreases |keys|, 0
  {
    hide Matches, Find, Made, SteadyAt, SourceOf, CycleRaw, AfterShown, RestartRaw, Cycle, ReadsCycle, ReadsAfter;
    hide ReadsRestart, CompleteRaw, Complete, Written, Texts, Others, Values, AllSteady, Harmless;
    var found, slots := Find(dict, text), Made(dict, text, src, mem, at);
    var first := [Read(src, text, idx)];
    FindNonEmpty(dict, text);
    ReadsCycleFirst(dict, next, prev, text, src, idx, keys);
    ReadsAfterKey(dict, next, prev, text, src, idx, keys);
    CycleKey(dict, next, prev, found, idx, keys);
    var later := ReadsAfter(dict, next, prev, text, src, idx, keys);
    FineConcat(first, later, mem);
    FirstSteady(src, text, idx);
    MadeSteady(dict, text, src, mem, at, idx);
    CycleRawShown(dict, next, prev, slots, idx, keys, mem, at);
    MeantReading(dict, first, later, Cycle(dict, next, prev, found, idx, keys));
    FirstValue(dict, text, src, idx);
    AfterRawKey(dict, next, prev, slots, idx, keys, mem, at);
    NothingMeant(dict, Cycle(dict, next, prev, found, idx, keys));
    if keys != "" {
      var c, rest := keys[0], keys[1..];
      if c == ENTER {
      } else if c == next {
        SteadyCycles(dict, next, prev, text, src, if idx + 1 == |found| then 0 else idx + 1, rest, mem, at);
      } else if c == prev {
        SteadyCycles(dict, next, prev, text, src, if idx == 0 then |found| - 1 else idx - 1, rest, mem, at);
      } else if c != CTRL_C && !(Deletes(c) && found[idx] == "") {
        SteadyRestart(dict, next, prev, text, src, idx, c, rest, mem, at);
      } else if c != CTRL_C {
        RestartUndefined(dict, next, prev, slots, c, rest, mem, at);
      }
    }
  }

  lemma NothingMeant(dict: seq<string>, end: Outcome)
    ensures Meant(dict, [], end) == Ends(end)
  {
  }

  lemma FirstSteady(src: Source, text: string, idx: nat)
    ensures AllSteady([Read(src, text, idx)]) <==> SteadyAt(src, idx)
  {
    hide SteadyAt;
    assert [Read(src, text, idx)][0] == Read(src, text, idx);
  }

  lemma FirstValue(dict: seq<string>, text: string, src: Source, idx: nat)
    requires idx < |Find(dict, text)|
    ensures Values(dict, [Read(src, text, idx)]) == [Find(dict, text)[idx]]
  {
  }

  lemma CycleRawShown(dict: seq<string>, next: char, prev: char, found: seq<Slot>, idx: nat, keys: string,
                      mem: Stale, at: nat)
    requires idx < |found|
    ensures found[idx].Str? ==>
              CycleRaw(dict, next, prev, found, idx, keys, mem, at)
              == Reading([found[idx].s], AfterShown(dict, next, prev, found, idx, keys, mem, at))
    ensures !found[idx].Str? ==> CycleRaw(dict, next, prev, found, idx, keys, mem, at) == Ends(Damaged)
  {
    hide AfterShown;
  }

  lemma AfterRawKey(dict: seq<string>, next: char, prev: char, found: seq<Slot>, idx: nat, keys: string,
                    mem: Stale, at: nat)
    requires idx < |found| && found[idx].Str?
    ensures var here := AfterShown(dict, next, prev, found, idx, keys, mem, at);
            if keys == "" then here == Ends(Waiting)
            else
              var c, rest := keys[0], keys[1..];
              if c == ENTER then here == Ends(Chosen(found[idx].s, rest))
              else if c == next then
                here == CycleRaw(dict, next, prev, found, if idx + 1 == |found| then 0 else idx + 1, rest, mem, at)
              else if c == prev then
                here == CycleRaw(dict, next, prev, found, if idx == 0 then |found| - 1 else idx - 1, rest, mem, at)
              else if c == CTRL_C then here == Ends(Cancelled(rest))
              else here == RestartRaw(dict, next, prev, found, found[idx].s, c, rest, mem, at)
  {
    hide CycleRaw, RestartRaw;
  }

  lemma RestartUndefined(dict: seq<string>, next: char, prev: char, found: seq<Slot>, c: char, keys: string,
                         mem: Stale, at: nat)
    requires found != [] && Deletes(c)
    ensures RestartRaw(dict, next, prev, found, "", c, keys, mem, at) == Ends(Undefined)
  {
  }

  /** A restart by deletion has a fresh list at hand. */
  lemma RestartFresh(dict: seq<string>, next: char, prev: char, found: seq<Slot>, shown: string, c: char, keys: string,
                     mem: Stale, at: nat)
    requires found != [] && Deletes(c) && shown != ""
    ensures SourceOf(dict, Press(shown, c), Fresh)
    ensures RestartRaw(dict, next, prev, found, shown, c, keys, mem, at)
            == CompleteRaw(dict, next, prev, Press(shown, c), AtHand(dict, Press(shown, c), true, Fresh, mem, at), keys,
                           mem, at)
  {
    hide CompleteRaw;
  }

  /** A restart by another key narrows the list at hand, here with all but its last slot right. */
  lemma RestartNarrowed(dict: seq<string>, next: char, prev: char, text: string, src: Source, shown: string, c: char,
                        keys: string, mem: Stale, at: nat)
    requires SourceOf(dict, text, src) && (src.Fresh? || at > 0) && !Deletes(c)
    requires SourceOf(dict, Press(shown, c), ByKey(Matches(dict, text), Press(shown, c)))
    requires var others := Made(dict, text, src, mem, at)[..|Matches(dict, text)|];
             Written(others) && Texts(others) == Matches(dict, text)
    ensures var input := Press(shown, c);
            RestartRaw(dict, next, prev, Made(dict, text, src, mem, at), shown, c, keys, mem, at)
            == Reading(Matches(dict, text),
                       CompleteRaw(dict, next, prev, input,
                                   AtHand(dict, input, true, ByKey(Matches(dict, text), input), mem, at + 1), keys, mem,
                                   at + 1))
  {
    hide CompleteRaw, Narrowed, Texts, Written, Find, Matches;
    FindNonEmpty(dict, text);
  }

  lemma {:induction false} SteadyRestart(dict: seq<string>, next: char, prev: char, text: string, src: Source, idx: nat,
                                         c: char, keys: string, mem: Stale, at: nat)
    requires SourceOf(dict, text, src) && (src.Fresh? || at > 0) && !src.ByKey? && idx < |Find(dict, text)|
    requires !(Deletes(c) && Find(dict, text)[idx] == "")
    requires Fine(ReadsRestart(dict, next, prev, text, src, Press(Find(dict, text)[idx], c), c, keys), mem)
    ensures var input := Press(Find(dict, text)[idx], c);
            var rds := ReadsRestart(dict, next, prev, text, src, input, c, keys);
            RestartRaw(dict, next, prev, Made(dict, text, src, mem, at), Find(dict, text)[idx], c, keys, mem, at)
            == Meant(dict, rds, Complete(dict, next, prev, input, keys))
    decreases |keys|, 2
  {
    hide Matches, Find, Made, SteadyAt, SourceOf, RestartRaw, ReadsComplete, CompleteRaw, Complete, Written, Texts;
    hide Others, Values, AllSteady, Press, Harmless;
    var shown := Find(dict, text)[idx];
    var input, slots := Press(shown, c), Made(dict, text, src, mem, at);
    FindNonEmpty(dict, text);
    if Deletes(c) {
      RestartFresh(dict, next, prev, slots, shown, c, keys, mem, at);
      SteadyReads(dict, next, prev, input, true, Fresh, keys, mem, at);
    } else {
      var n := ByKey(Matches(dict, text), input);
      var later := ReadsComplete(dict, next, prev, input, true, n, keys);
      KeySource(dict, text, idx, c);
      FineConcat(Others(dict, text, src), later, mem);
      OthersRight(dict, text, src, mem, at);
      RestartNarrowed(dict, next, prev, text, src, shown, c, keys, mem, at);
      SteadyReads(dict, next, prev, input, true, n, keys, mem, at + 1);
      OthersValues(dict, text, src);
      MeantReading(dict, Others(dict, text, src), later, Complete(dict, next, prev, input, keys));
    }
  }

  // ---------------------------------------------------------------- sessions that read a slot that is not steady

  /** The reference reads no slot that was never written. */
  lemma {:induction false} NeverDamaged(dict: seq<string>, next: char, prev: char, base: string, keys: string)
    ensures Complete(dict, next, prev, base, keys) != Damaged
    decreases |keys|, 1
  {
    hide Cycle, Find;
    match EditLine(base, keys)
    case LineTabbed(text, rest) =>
      FindNonEmpty(dict, text);
      CycleNeverDamaged(dict, next, prev, Find(dict, text), 0, rest);
    case _ =>
  }

  lemma {:induction false} CycleNeverDamaged(dict: seq<string>, next: char, prev: char, found: seq<string>, idx: nat,
                                             keys: string)
    requires idx < |found|
    ensures Cycle(dict, next, prev, found, idx, keys) != Damaged
    decreases |keys|, 0
  {
    hide Cycle, Complete;
    CycleKey(dict, next, prev, found, idx, keys);
    if keys != "" {
      var c, rest := keys[0], keys[1..];
      CycleNeverDamaged(dict, next, prev, found, if idx + 1 == |found| then 0 else idx + 1, rest);
      CycleNeverDamaged(dict, next, prev, found, if idx == 0 then |found| - 1 else idx - 1, rest);
      NeverDamaged(dict, next, prev, Press(found[idx], c), rest);
    }
  }

  /** Transcripts that read different things first, or of which only one is damaged, differ. */
  lemma WrongStart(x: seq<string>, t: Transcript, y: seq<string>, u: Transcript)
    requires |x| == |y| && x != y
    ensures Reading(x, t) != Reading(y, u)
  {
    assert (x + t.seen)[..|x|] == x && (y + u.seen)[..|y|] == y;
  }

  lemma SameStart(x: seq<string>, t: Transcript, u: Transcript)
    requires t != u
    ensures Reading(x, t) != Reading(x, u)
  {
    assert (x + t.seen)[|x|..] == t.seen && (x + u.seen)[|x|..] == u.seen;
  }

  /** The tab branch reads what the list holds, if it can. */
  lemma TabbedReads(dict: seq<string>, next: char, prev: char, base: string, text: string, cache: seq<Slot>,
                    keys: string, mem: Stale, at: nat)
    requires cache != [] && Extends(base, text)
    ensures var others, here := cache[..|cache| - 1], TabbedRaw(dict, next, prev, base, text, cache, keys, mem, at);
            if Written(others) then exists t :: here == Reading(Texts(others), t) else here == TabComplete.Ends(Damaged)
  {
    hide CycleRaw, Narrowed, Texts, Written, Contains;
    var others := cache[..|cache| - 1];
    if Written(others) {
      ContainsItself(text);
      NarrowedHasSlot(Texts(others), text, text, mem.words(at));
      var t := CycleRaw(dict, next, prev, Narrowed(Texts(others) + [text], text, mem.words(at)), 0, keys, mem, at + 1);
      assert TabbedRaw(dict, next, prev, base, text, cache, keys, mem, at) == Reading(Texts(others), t);
    }
  }

  lemma RestartReads(dict: seq<string>, next: char, prev: char, found: seq<Slot>, shown: string, c: char, keys: string,
                     mem: Stale, at: nat)
    requires found != [] && !Deletes(c)
    ensures var others, here := found[..|found| - 1], RestartRaw(dict, next, prev, found, shown, c, keys, mem, at);
            if Written(others) then exists t :: here == Reading(Texts(others), t) else here == TabComplete.Ends(Damaged)
  {
    hide CompleteRaw, Narrowed, Texts, Written;
    var others := found[..|found| - 1];
    if Written(others) {
      var input := Press(shown, c);
      var t := CompleteRaw(dict, next, prev, input,
                           Narrowed(Texts(others) + [input + mem.behind(at)], input, mem.words(at)), keys, mem, at + 1);
      assert RestartRaw(dict, next, prev, found, shown, c, keys, mem, at) == Reading(Texts(others), t);
    }
  }

  lemma {:induction false} UnsteadyReads(dict: seq<string>, next: char, prev: char, base: string, cached: bool,
                                         src: Source, keys: string, at: nat) returns (mem: Stale)
    requires cached ==> SourceOf(dict, base, src) && (src.Fresh? || at > 0)
    requires !AllSteady(ReadsComplete(dict, next, prev, base, cached, src, keys))
    ensures CompleteRaw(dict, next, prev, base, AtHand(dict, base, cached, src, mem, at), keys, mem, at)
            != Meant(dict, ReadsComplete(dict, next, prev, base, cached, src, keys),
                     Complete(dict, next, prev, base, keys))
    decreases |keys|, 1
  {
    hide Matches, Find, Made, SteadyAt, SourceOf, CycleRaw, Cycle, ReadsCycle, TabbedRaw, Value, Written, Texts;
    hide Extends, Others;
    NeverDamaged(dict, next, prev, base, keys);
    match EditLine(base, keys)
    case LineTabbed(text, rest) =>
      FindNonEmpty(dict, text);
      if cached && Extends(base, text) {
        var n, others := ByTab(Matches(dict, base), text), Others(dict, base, src);
        var later := ReadsCycle(dict, next, prev, text, n, 0, rest);
        var end := Cycle(dict, next, prev, Find(dict, text), 0, rest);
        TabSource(dict, base, text);
        AllSteadyConcat(others, later);
        OthersValues(dict, base, src);
        MeantReading(dict, others, later, end);
        if AllSteady(others) {
          mem := UnsteadyCycles(dict, next, prev, text, n, 0, rest, at + 1);
          OthersRight(dict, base, src, mem, at);
          TabbedRight(dict, next, prev, base, text, src, rest, mem, at);
          var list := Made(dict, text, n, mem, at + 1);
          var raw := CycleRaw(dict, next, prev, list, 0, rest, mem, at + 1);
          SameStart(Matches(dict, base), raw, Meant(dict, later, end));
        } else {
          mem := OthersWrong(dict, base, src, at);
          var list := Made(dict, base, src, mem, at);
          FindNonEmpty(dict, base);
          TabbedReads(dict, next, prev, base, text, list, rest, mem, at);
          if Written(list[..|list| - 1]) {
            var t :| TabbedRaw(dict, next, prev, base, text, list, rest, mem, at)
                     == Reading(Texts(list[..|list| - 1]), t);
            WrongStart(Texts(list[..|list| - 1]), t, Matches(dict, base), Meant(dict, later, end));
          }
        }
      } else {
        FreshSource(dict, text);
        mem := UnsteadyCycles(dict, next, prev, text, Fresh, 0, rest, at);
        TabbedFresh(dict, next, prev, base, text, AtHand(dict, base, cached, src, mem, at), rest, mem, at);
      }
    case _ =>
      assert false;
  }

  lemma {:induction false} UnsteadyCycles(dict: seq<string>, next: char, prev: char, text: string, src: Source,
                                          idx: nat, keys: string, at: nat) returns (mem: Stale)
    requires SourceOf(dict, text, src) && (src.Fresh? || at > 0) && !src.ByKey? && idx < |Find(dict, text)|
    requires !AllSteady(ReadsCycle(dict, next, prev, text, src, idx, keys))
    ensures CycleRaw(dict, next, prev, Made(dict, text, src, mem, at), idx, keys, mem, at)
            != Meant(dict, ReadsCycle(dict, next, prev, text, src, idx, keys),
                     Cycle(dict, next, prev, Find(dict, text), idx, keys))
    decreases |keys|, 0
  {
    hide Matches, Find, Made, SteadyAt, SourceOf, CycleRaw, AfterShown, RestartRaw, Cycle, ReadsCycle, ReadsAfter;
    hide ReadsRestart, CompleteRaw, Complete, Written, Texts, Others, Values, AllSteady;
    var found := Find(dict, text);
    var first, later := [Read(src, text, idx)], ReadsAfter(dict, next, prev, text, src, idx, keys);
    var end := Cycle(dict, next, prev, found, idx, keys);
    FindNonEmpty(dict, text);
    CycleNeverDamaged(dict, next, prev, found, idx, keys);
    ReadsCycleFirst(dict, next, prev, text, src, idx, keys);
    AllSteadyConcat(first, later);
    FirstSteady(src, text, idx);
    FirstValue(dict, text, src, idx);
    MeantReading(dict, first, later, end);
    if SteadyAt(src, idx) {
      mem := UnsteadyAfter(dict, next, prev, text, src, idx, keys, at);
      var slots := Made(dict, text, src, mem, at);
      MadeSteady(dict, text, src, mem, at, idx);
      CycleRawShown(dict, next, prev, slots, idx, keys, mem, at);
      SameStart([found[idx]], AfterShown(dict, next, prev, slots, idx, keys, mem, at), Meant(dict, later, end));
    } else {
      mem := MadeUnsteady(dict, text, src, at, idx);
      var slots := Made(dict, text, src, mem, at);
      CycleRawShown(dict, next, prev, slots, idx, keys, mem, at);
      if slots[idx].Str? {
        WrongStart([slots[idx].s], AfterShown(dict, next, prev, slots, idx, keys, mem, at), [found[idx]],
                   Meant(dict, later, end));
      }
    }
  }

  lemma {:induction false} UnsteadyAfter(dict: seq<string>, next: char, prev: char, text: string, src: Source, idx: nat,
                                         keys: string, at: nat) returns (mem: Stale)
    requires SourceOf(dict, text, src) && (src.Fresh? || at > 0) && !src.ByKey? && idx < |Find(dict, text)|
    requires SteadyAt(src, idx) && !AllSteady(ReadsAfter(dict, next, prev, text, src, idx, keys))
    ensures var slots := Made(dict, text, src, mem, at);
            && slots[idx] == Str(Find(dict, text)[idx])
            && AfterShown(dict, next, prev, slots, idx, keys, mem, at)
               != Meant(dict, ReadsAfter(dict, next, prev, text, src, idx, keys),
                        Cycle(dict, next, prev, Find(dict, text), idx, keys))
    decreases |keys|, 0, 0
  {
    hide Matches, Find, Made, SteadyAt, SourceOf, CycleRaw, AfterShown, RestartRaw, Cycle, ReadsCycle, ReadsAfter;
    hide ReadsRestart, CompleteRaw, Complete, Written, Texts, Others, Values, AllSteady;
    var found := Find(dict, text);
    FindNonEmpty(dict, text);
    NoneSteady();
    ReadsAfterKey(dict, next, prev, text, src, idx, keys);
    CycleKey(dict, next, prev, found, idx, keys);
    var c, rest := keys[0], keys[1..];
    if c == next {
      mem := UnsteadyCycles(dict, next, prev, text, src, if idx + 1 == |found| then 0 else idx + 1, rest, at);
    } else if c == prev {
      mem := UnsteadyCycles(dict, next, prev, text, src, if idx == 0 then |found| - 1 else idx - 1, rest, at);
    } else {
      mem := UnsteadyRestart(dict, next, prev, text, src, idx, c, rest, at);
    }
    MadeSteady(dict, text, src, mem, at, idx);
    AfterRawKey(dict, next, prev, Made(dict, text, src, mem, at), idx, keys, mem, at);
  }

  lemma NoneSteady()
    ensures AllSteady([])
  {
  }

  lemma {:induction false} UnsteadyRestart(dict: seq<string>, next: char, prev: char, text: string, src: Source,
                                           idx: nat, c: char, keys: string, at: nat) returns (mem: Stale)
    requires SourceOf(dict, text, src) && (src.Fresh? || at > 0) && !src.ByKey? && idx < |Find(dict, text)|
    requires !(Deletes(c) && Find(dict, text)[idx] == "")
    requires !AllSteady(ReadsRestart(dict, next, prev, text, src, Press(Find(dict, text)[idx], c), c, keys))
    ensures var input := Press(Find(dict, text)[idx], c);
            var rds := ReadsRestart(dict, next, prev, text, src, input, c, keys);
            RestartRaw(dict, next, prev, Made(dict, text, src, mem, at), Find(dict, text)[idx], c, keys, mem, at)
            != Meant(dict, rds, Complete(dict, next, prev, input, keys))
    decreases |keys|, 2
  {
    hide Matches, Find, Made, SteadyAt, SourceOf, RestartRaw, ReadsComplete, CompleteRaw, Complete, Written, Texts;
    hide Others, Values, AllSteady, Press;
    var shown := Find(dict, text)[idx];
    var input := Press(shown, c);
    FindNonEmpty(dict, text);
    NeverDamaged(dict, next, prev, input, keys);
    if Deletes(c) {
      FreshSource(dict, input);
      mem := UnsteadyReads(dict, next, prev, input, true, Fresh, keys, at);
      RestartFresh(dict, next, prev, Made(dict, text, src, mem, at), shown, c, keys, mem, at);
    } else {
      var n, others := ByKey(Matches(dict, text), input), Others(dict, text, src);
      var later, end := ReadsComplete(dict, next, prev, input, true, n, keys), Complete(dict, next, prev, input, keys);
      KeySource(dict, text, idx, c);
      AllSteadyConcat(others, later);
      OthersValues(dict, text, src);
      MeantReading(dict, others, later, end);
      if AllSteady(others) {
        mem := UnsteadyReads(dict, next, prev, input, true, n, keys, at + 1);
        OthersRight(dict, text, src, mem, at);
        RestartNarrowed(dict, next, prev, text, src, shown, c, keys, mem, at);
        SameStart(Matches(dict, text),
                  CompleteRaw(dict, next, prev, input, AtHand(dict, input, true, n, mem, at + 1), keys, mem, at + 1),
                  Meant(dict, later, end));
      } else {
        mem := OthersWrong(dict, text, src, at);
        var list := Made(dict, text, src, mem, at);
        RestartReads(dict, next, prev, list, shown, c, keys, mem, at);
        if Written(list[..|list| - 1]) {
          var t :| RestartRaw(dict, next, prev, list, shown, c, keys, mem, at) == Reading(Texts(list[..|list| - 1]), t);
          WrongStart(Texts(list[..|list| - 1]), t, Matches(dict, text), Meant(dict, later, end));
        }
      }
    }
  }

  lemma FreshSource(dict: seq<string>, text: string)
    ensures SourceOf(dict, text, Fresh)
  {
  }

  // ---------------------------------------------------------------- over all sessions

  /** The slots a session from an empty line reads. */
  function Reads(dict: seq<string>, next: char, prev: char, keys: string): seq<Read> {
    ReadsComplete(dict, next, prev, "", false, Fresh, keys)
  }

  /** Over this memory the session reads and ends as the reference does. */
  ghost predicate RunsAsMeant(dict: seq<string>, next: char, prev: char, keys: string, mem: Stale) {
    CompleteRaw(dict, next, prev, "", [], keys, mem, 0)
    == Meant(dict, Reads(dict, next, prev, keys), Complete(dict, next, prev, "", keys))
  }

  /**
   Over all sessions: whatever unwritten memory holds, completion as written reads the right entries and ends as the
   reference, exactly if all slots it reads are steady.
   */
  lemma ReliableIff(dict: seq<string>, next: char, prev: char, keys: string)
    ensures (forall mem: Stale :: RunsAsMeant(dict, next, prev, keys, mem))
            <==> AllSteady(Reads(dict, next, prev, keys))
  {
    hide CompleteRaw, Complete, ReadsComplete, SteadyAt, AllSteady, Meant;
    if AllSteady(Reads(dict, next, prev, keys)) {
      forall mem: Stale ensures RunsAsMeant(dict, next, prev, keys, mem) {
        SteadyReads(dict, next, prev, "", false, Fresh, keys, mem, 0);
      }
    } else {
      var mem := UnsteadyReads(dict, next, prev, "", false, Fresh, keys, 0);
      assert !RunsAsMeant(dict, next, prev, keys, mem);
    }
  }

  /** With the sentinel where it was meant to be completion is the reference, whatever follows the open copies. */
  lemma HarmlessIsReference(dict: seq<string>, next: char, prev: char, keys: string, mem: Stale)
    requires Harmless(mem)
    ensures RunsAsMeant(dict, next, prev, keys, mem)
  {
    hide CompleteRaw, Complete, ReadsComplete, Harmless, AllSteady;
    SteadyReads(dict, next, prev, "", false, Fresh, keys, mem, 0);
  }
}
