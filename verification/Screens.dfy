/** What completion shows after each key, and exactly when a deletion makes it write before its buffer. */
module Screens {
  import Memory
  import opened Matching
  import opened LineEditor
  import opened TabComplete

  /** A line being typed, an entry of a match list on display, or the end of the session. */
  datatype Screen = Typing(line: string) | Showing(found: seq<string>, idx: nat) | Over

  predicate Proper(s: Screen) {
    s.Showing? ==> s.idx < |s.found|
  }

  /** The screen one key later. */
  function After(dict: seq<string>, next: char, prev: char, s: Screen, c: char): (t: Screen)
    requires Proper(s)
    ensures Proper(t)
  {
    match s
    case Over => Over
    case Typing(line) =>
      if c == ENTER || c == CTRL_C then Over
      else if c == TAB then Showing(Find(dict, line), 0)
      else Typing(Press(line, c))
    case Showing(found, idx) =>
      if c == ENTER then Over
      else if c == next then Showing(found, if idx + 1 == |found| then 0 else idx + 1)
      else if c == prev then Showing(found, if idx == 0 then |found| - 1 else idx - 1)
      else if c == CTRL_C || (Deletes(c) && found[idx] == "") then Over
      else Typing(Press(found[idx], c))
  }

  /** The screen after all keys. */
  function Replay(dict: seq<string>, next: char, prev: char, s: Screen, keys: string): (t: Screen)
    requires Proper(s)
    ensures Proper(t)
  {
    if keys == "" then s
    else After(dict, next, prev, Replay(dict, next, prev, s, keys[..|keys| - 1]), keys[|keys| - 1])
  }

  /** The entry on display after the keys, if one is. */
  function Shown(dict: seq<string>, next: char, prev: char, base: string, keys: string): Memory.Option<string> {
    match Replay(dict, next, prev, Typing(base), keys)
    case Showing(found, idx) => Memory.Some(found[idx])
    case _ => Memory.None
  }

  lemma {:induction false} ReplayFromFront(dict: seq<string>, next: char, prev: char, s: Screen, keys: string)
    requires Proper(s) && keys != ""
    ensures Replay(dict, next, prev, s, keys)
            == Replay(dict, next, prev, After(dict, next, prev, s, keys[0]), keys[1..])
  {
    hide After;
    var n := |keys| - 1;
    if n == 0 {
      assert keys[..0] == "" && keys[1..] == "";
    } else {
      ReplayFromFront(dict, next, prev, s, keys[..n]);
      assert keys[..n][1..] == keys[1..][..n - 1];
    }
  }

  // ---------------------------------------------------------------- when a session becomes undefined

  /** Key c deletes from an empty entry on display. */
  predicate Slips(next: char, prev: char, s: Screen, c: char)
    requires Proper(s)
  {
    s.Showing? && Deletes(c) && c !in {next, prev} && s.found[s.idx] == ""
  }

  /** How completion goes on from a screen that is not over. */
  function From(dict: seq<string>, next: char, prev: char, s: Screen, keys: string): Outcome
    requires Proper(s) && s != Over
  {
    match s
    case Typing(line) => Complete(dict, next, prev, line, keys)
    case Showing(found, idx) => Cycle(dict, next, prev, found, idx, keys)
  }

  /** One key: the session slips, ends with a defined outcome, or goes on from the next screen. */
  lemma FromNext(dict: seq<string>, next: char, prev: char, s: Screen, keys: string)
    requires Proper(s) && s != Over
    ensures keys == "" ==> From(dict, next, prev, s, keys) == Waiting
    ensures keys != "" ==>
              var t := After(dict, next, prev, s, keys[0]);
              if Slips(next, prev, s, keys[0]) then t == Over && From(dict, next, prev, s, keys) == Undefined
              else if t == Over then From(dict, next, prev, s, keys) != Undefined
              else From(dict, next, prev, s, keys) == From(dict, next, prev, t, keys[1..])
  {
    if s.Showing? {
      CycleKey(dict, next, prev, s.found, s.idx, keys);
    }
  }

  ghost predicate SlipsAt(dict: seq<string>, next: char, prev: char, s: Screen, keys: string, n: nat)
    requires Proper(s)
  {
    n < |keys| && Slips(next, prev, Replay(dict, next, prev, s, keys[..n]), keys[n])
  }

  lemma {:induction false} OverStays(dict: seq<string>, next: char, prev: char, keys: string)
    ensures Replay(dict, next, prev, Over, keys) == Over
  {
    if keys != "" {
      OverStays(dict, next, prev, keys[..|keys| - 1]);
    }
  }

  lemma SlipsAtFirst(dict: seq<string>, next: char, prev: char, s: Screen, keys: string)
    requires Proper(s)
    ensures SlipsAt(dict, next, prev, s, keys, 0) <==> keys != "" && Slips(next, prev, s, keys[0])
  {
    if keys != "" {
      assert keys[..0] == "";
    }
  }

  lemma SlipsAtLater(dict: seq<string>, next: char, prev: char, s: Screen, keys: string, n: nat)
    requires Proper(s) && keys != ""
    ensures SlipsAt(dict, next, prev, s, keys, n + 1)
            <==> SlipsAt(dict, next, prev, After(dict, next, prev, s, keys[0]), keys[1..], n)
  {
    hide After;
    if n + 1 < |keys| {
      ReplayFromFront(dict, next, prev, s, keys[..n + 1]);
      assert keys[..n + 1][1..] == keys[1..][..n];
    }
  }

  lemma {:induction false} UndefinedFrom(dict: seq<string>, next: char, prev: char, s: Screen, keys: string)
    requires Proper(s) && s != Over
    ensures From(dict, next, prev, s, keys) == Undefined <==> exists n: nat :: SlipsAt(dict, next, prev, s, keys, n)
    decreases |keys|
  {
    hide After, From, SlipsAt;
    FromNext(dict, next, prev, s, keys);
    SlipsAtFirst(dict, next, prev, s, keys);
    if keys == "" {
      NoKeyNoSlip(dict, next, prev, s);
    } else if !Slips(next, prev, s, keys[0]) {
      var t := After(dict, next, prev, s, keys[0]);
      if t == Over {
        OverNeverSlips(dict, next, prev, keys[1..]);
      } else {
        UndefinedFrom(dict, next, prev, t, keys[1..]);
      }
      if n: nat :| SlipsAt(dict, next, prev, s, keys, n) {
        SlipsAtLater(dict, next, prev, s, keys, n - 1);
      }
      if n: nat :| SlipsAt(dict, next, prev, t, keys[1..], n) {
        SlipsAtLater(dict, next, prev, s, keys, n);
      }
    }
  }

  lemma NoKeyNoSlip(dict: seq<string>, next: char, prev: char, s: Screen)
    requires Proper(s)
    ensures forall n: nat :: !SlipsAt(dict, next, prev, s, "", n)
  {
  }

  lemma OverNeverSlips(dict: seq<string>, next: char, prev: char, keys: string)
    ensures forall n: nat :: !SlipsAt(dict, next, prev, Over, keys, n)
  {
    forall n: nat ensures !SlipsAt(dict, next, prev, Over, keys, n) {
      if n < |keys| {
        OverStays(dict, next, prev, keys[..n]);
      }
    }
  }

  ghost predicate DeletesEmpty(dict: seq<string>, next: char, prev: char, base: string, keys: string, n: nat) {
    && n < |keys| && Deletes(keys[n]) && keys[n] !in {next, prev}
    && Shown(dict, next, prev, base, keys[..n]) == Memory.Some("")
  }

  /** Completion writes before its buffer exactly when some key deletes while an empty entry is on display. */
  lemma UndefinedIff(dict: seq<string>, next: char, prev: char, base: string, keys: string)
    ensures Complete(dict, next, prev, base, keys) == Undefined
            <==> exists n: nat :: DeletesEmpty(dict, next, prev, base, keys, n)
  {
    UndefinedFrom(dict, next, prev, Typing(base), keys);
    forall n: nat
      ensures DeletesEmpty(dict, next, prev, base, keys, n) <==> SlipsAt(dict, next, prev, Typing(base), keys, n)
    {
    }
  }

  // ---------------------------------------------------------------- a guard, and the inputs that need it

  /** A match list has an empty entry exactly when it was searched for an empty line: the line itself. */
  lemma EmptyEntryIff(dict: seq<string>, line: string)
    ensures "" in Find(dict, line) <==> line == ""
  {
    MatchesContain(dict, line);
    assert "" in Find(dict, line) ==> line == "" || "" in Matches(dict, line);
    assert Contains("", line) ==> line == "";
    assert Find(dict, line)[|Find(dict, line)| - 1] == line;
  }

  /** Tab is never pressed on an empty line. */
  ghost predicate NoEmptySearch(dict: seq<string>, next: char, prev: char, base: string, keys: string) {
    forall n {:trigger keys[n]} | 0 <= n < |keys| :: !(keys[n] == TAB && EmptyLine(dict, next, prev, base, keys[..n]))
  }

  /** The line being typed is empty: at the start without a base text, or after deleting all of it. */
  predicate EmptyLine(dict: seq<string>, next: char, prev: char, base: string, keys: string) {
    Replay(dict, next, prev, Typing(base), keys) == Typing("")
  }

  lemma {:induction false} NoEmptyEntryShown(dict: seq<string>, next: char, prev: char, base: string, keys: string)
    requires NoEmptySearch(dict, next, prev, base, keys)
    ensures var s := Replay(dict, next, prev, Typing(base), keys);
            s.Showing? ==> "" !in s.found
  {
    if keys != "" {
      var n := |keys| - 1;
      var before := keys[..n];
      forall k | 0 <= k < n
        ensures !(before[k] == TAB && EmptyLine(dict, next, prev, base, before[..k]))
      {
        assert before[k] == keys[k] && before[..k] == keys[..k];
      }
      NoEmptyEntryShown(dict, next, prev, base, before);
      var s := Replay(dict, next, prev, Typing(base), before);
      if s.Typing? && keys[n] == TAB {
        EmptyEntryIff(dict, s.line);
      }
    }
  }

  /** Without a tab on an empty line completion is always defined. */
  lemma DefinedWithoutEmptySearch(dict: seq<string>, next: char, prev: char, base: string, keys: string)
    requires NoEmptySearch(dict, next, prev, base, keys)
    ensures Complete(dict, next, prev, base, keys) != Undefined
  {
    UndefinedIff(dict, next, prev, base, keys);
    if n: nat :| DeletesEmpty(dict, next, prev, base, keys, n) {
      var before := keys[..n];
      forall k | 0 <= k < n
        ensures !(before[k] == TAB && EmptyLine(dict, next, prev, base, before[..k]))
      {
        assert before[k] == keys[k] && before[..k] == keys[..k];
      }
      NoEmptyEntryShown(dict, next, prev, base, before);
    }
  }

  /** Whatever led to an empty line, a tab, one step back and a deletion are undefined from there. */
  lemma EmptySearchSlips(dict: seq<string>, next: char, prev: char, base: string, keys: string)
    requires EmptyLine(dict, next, prev, base, keys)
    requires next != prev && prev != ENTER && BACKSPACE !in {next, prev}
    ensures Complete(dict, next, prev, base, keys + [TAB, prev, BACKSPACE]) == Undefined
  {
    var all := keys + [TAB, prev, BACKSPACE];
    var n := |keys|;
    assert all[..n] == keys && all[..n + 1][..n] == keys && all[..n + 2][..n + 1] == all[..n + 1];
    var found := Find(dict, "");
    assert Replay(dict, next, prev, Typing(base), all[..n + 1]) == Showing(found, 0);
    assert Replay(dict, next, prev, Typing(base), all[..n + 2]) == Showing(found, |found| - 1);
    assert DeletesEmpty(dict, next, prev, base, all, n + 2);
    UndefinedIff(dict, next, prev, base, all);
  }

  /**
   For any set of sessions that lets a user who has just searched step back and delete: none of them is undefined
   exactly when none of them searches an empty line.
   */
  lemma AlwaysDefinedIff(dict: seq<string>, next: char, prev: char, base: string, sessions: iset<string>)
    requires next != prev && prev != ENTER && BACKSPACE !in {next, prev}
    requires Closed(sessions, prev)
    ensures (forall keys | keys in sessions :: Complete(dict, next, prev, base, keys) != Undefined)
            <==> forall keys | keys in sessions :: NoEmptySearch(dict, next, prev, base, keys)
  {
    hide Complete, EmptyLine;
    if keys :| keys in sessions && !NoEmptySearch(dict, next, prev, base, keys) {
      var n :| 0 <= n < |keys| && keys[n] == TAB && EmptyLine(dict, next, prev, base, keys[..n]);
      assert keys[..n] + [TAB] == keys[..n + 1] <= keys;
      EmptySearchSlips(dict, next, prev, base, keys[..n]);
      assert keys[..n] + [TAB, prev, BACKSPACE] == keys[..n + 1] + [prev, BACKSPACE];
    }
    forall keys | keys in sessions && NoEmptySearch(dict, next, prev, base, keys)
      ensures Complete(dict, next, prev, base, keys) != Undefined
    {
      DefinedWithoutEmptySearch(dict, next, prev, base, keys);
    }
  }

  /** After any tab the user may step back and delete. */
  ghost predicate Closed(sessions: iset<string>, prev: char) {
    forall keys: string, n: nat | keys in sessions && n < |keys| && keys[n] == TAB ::
      keys[..n + 1] + [prev, BACKSPACE] in sessions
  }

  /** One ordinary session on any dictionary: tab, previous, backspace. */
  lemma TabPreviousDelete(dict: seq<string>)
    ensures Complete(dict, 'n', 'p', "", [TAB, 'p', BACKSPACE]) == Undefined
  {
    EmptySearchSlips(dict, 'n', 'p', "", "");
    assert "" + [TAB, 'p', BACKSPACE] == [TAB, 'p', BACKSPACE];
  }

  /** On an empty dictionary tab and backspace are enough. */
  lemma TabDelete(next: char, prev: char)
    requires BACKSPACE !in {next, prev}
    ensures Complete([], next, prev, "", [TAB, BACKSPACE]) == Undefined
  {
    var keys := [TAB, BACKSPACE];
    assert keys[..1][..0] == "" && keys[..1][0] == TAB;
    assert Find([], "") == [""];
    assert Replay([], next, prev, Typing(""), keys[..1]) == Showing([""], 0);
    assert DeletesEmpty([], next, prev, "", keys, 1);
    UndefinedIff([], next, prev, "", keys);
  }
}
