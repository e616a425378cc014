/** The raw-mode line editor: a growable, zero-terminated buffer that keys append to and delete from. */
module LineEditor {

  const ENTER: char := '\r'
  const TAB: char := '\t'
  const CTRL_C: char := '\U{0003}'
  const BACKSPACE: char := '\U{0008}'
  const DELETE: char := '\U{007F}'
  const NUL: char := '\0'

  predicate Deletes(c: char) {
    c == BACKSPACE || c == DELETE
  }

  /** Keys that end the line. */
  predicate EndsLine(c: char) {
    c == ENTER || c == CTRL_C || c == TAB
  }

  /** How reading a line ends; `LineWaiting` when the keys ran out first. */
  datatype LineResult =
    | LineEntered(text: string, rest: string)
    | LineTabbed(text: string, rest: string)
    | LineCancelled(rest: string)
    | LineWaiting(text: string)

  function Press(text: string, c: char): string {
    if !Deletes(c) then text + [c] else if text == "" then "" else text[..|text| - 1]
  }

  /** Reading a line over a base text, key by key. */
  function EditLine(text: string, keys: string): (r: LineResult)
    ensures !r.LineWaiting? ==> |r.rest| < |keys|
    decreases |keys|
  {
    if keys == "" then LineWaiting(text)
    else if keys[0] == ENTER then LineEntered(text, keys[1..])
    else if keys[0] == CTRL_C then LineCancelled(keys[1..])
    else if keys[0] == TAB then LineTabbed(text, keys[1..])
    else EditLine(Press(text, keys[0]), keys[1..])
  }

  /**
   Every key by its code: 13 enters the line, 9 is a tab, 3 cancels, 8 and 127 take a character back if there is one,
   and any other is appended.
   */
  lemma EditLineKeys(text: string, k: char, rest: string)
    ensures k as int == 13 ==> EditLine(text, [k] + rest) == LineEntered(text, rest)
    ensures k as int == 9 ==> EditLine(text, [k] + rest) == LineTabbed(text, rest)
    ensures k as int == 3 ==> EditLine(text, [k] + rest) == LineCancelled(rest)
    ensures k as int == 8 || k as int == 127 ==>
              && EditLine("", [k] + rest) == EditLine("", rest)
              && forall c :: EditLine(text + [c], [k] + rest) == EditLine(text, rest)
    ensures k as int !in {3, 8, 9, 13, 127} ==> EditLine(text, [k] + rest) == EditLine(text + [k], rest)
  {
    var keys := [k] + rest;
    assert keys[0] == k && keys[1..] == rest;
    forall c ensures (text + [c])[..|text|] == text {
    }
  }

  /** 'a', 'b', the key most terminals send for backspace, Enter. */
  lemma DeleteKeyDeletes()
    ensures EditLine("", ['a', 'b', 127 as char, 13 as char]) == LineEntered("a", "")
  {
    var d, e := 127 as char, 13 as char;
    assert ['a', 'b', d, e] == ['a'] + (['b'] + ([d] + ([e] + ""))) && "" + ['a'] == "a";
    EditLineKeys("", 'a', ['b'] + ([d] + ([e] + "")));
    EditLineKeys("a", 'b', [d] + ([e] + ""));
    EditLineKeys("a", d, [e] + "");
    EditLineKeys("a", e, "");
  }

  /** The fold of appends and deletions over the base text. */
  function Typed(base: string, keys: string): string {
    if keys == "" then base else Press(Typed(base, keys[..|keys| - 1]), keys[|keys| - 1])
  }

  /** The line at its end is the fold of all keys before the ending one. */
  lemma {:induction false} EditLineIsFold(base: string, keys: string, end: char, rest: string)
    requires EndsLine(end) && forall i | 0 <= i < |keys| :: !EndsLine(keys[i])
    ensures EditLine(base, keys + [end] + rest)
            == if end == ENTER then LineEntered(Typed(base, keys), rest)
               else if end == TAB then LineTabbed(Typed(base, keys), rest)
               else LineCancelled(rest)
    decreases |keys|
  {
    var all := keys + [end] + rest;
    if keys == "" {
      assert all[0] == end && all[1..] == rest;
    } else {
      assert all[0] == keys[0] && all[1..] == keys[1..] + [end] + rest;
      EditLineIsFold(Press(base, keys[0]), keys[1..], end, rest);
      TypedFromFront(base, keys);
    }
  }

  lemma {:induction false} TypedFromFront(base: string, keys: string)
    requires keys != ""
    ensures Typed(base, keys) == Typed(Press(base, keys[0]), keys[1..])
  {
    var n := |keys| - 1;
    if n == 0 {
      assert keys[..0] == "" && keys[1..] == "";
    } else {
      TypedFromFront(base, keys[..n]);
      assert keys[..n][1..] == keys[1..][..n - 1];
    }
  }

  /** Deleting as often as was typed restores the base text. */
  lemma {:induction false} DeletingUndoesTyping(base: string, keys: string, deletions: string)
    requires |deletions| == |keys|
    requires forall i | 0 <= i < |keys| :: !Deletes(keys[i]) && Deletes(deletions[i])
    ensures Typed(Typed(base, keys), deletions) == base
    decreases |keys|
  {
    if keys != "" {
      var n := |keys| - 1;
      TypedFromFront(Typed(base, keys), deletions);
      assert Press(Typed(base, keys), deletions[0]) == Typed(base, keys[..n]);
      DeletingUndoesTyping(base, keys[..n], deletions[1..]);
    }
  }

  /** `ret` holds the text, then a zero, within its capacity. */
  ghost predicate Holds(ret: array<char>, bytesRead: nat, text: string)
    reads ret
  {
    bytesRead < ret.Length && ret[..bytesRead] == text && ret[bytesRead] == NUL
  }

  method Larger(ret: array<char>, bytesRead: nat, bufSz: nat) returns (tmp: array<char>)
    requires bytesRead <= ret.Length && bytesRead <= bufSz
    ensures fresh(tmp) && tmp.Length == bufSz && tmp[..bytesRead] == ret[..bytesRead]
  {
    tmp := new char[bufSz](_ => NUL);
    forall k | 0 <= k < bytesRead {
      tmp[k] := ret[k];
    }
  }

  /**
   `getline_raw_internal` on the keys still to come: the buffer starts with room for the base text, one more
   character and the zero, and doubles when only the zero's place is left. Cancelling returns no buffer.
   */
  method GetlineRaw(base: string, keys: string)
    returns (ret: array?<char>, bytesRead: nat, tab: bool, waiting: bool, rest: string)
    ensures ret != null ==> fresh(ret)
    ensures waiting == EditLine(base, keys).LineWaiting?
    ensures match EditLine(base, keys)
            case LineEntered(text, after) => ret != null && Holds(ret, bytesRead, text) && !tab && rest == after
            case LineTabbed(text, after) => ret != null && Holds(ret, bytesRead, text) && tab && rest == after
            case LineCancelled(after) => ret == null && rest == after
            case LineWaiting(text) => ret != null && Holds(ret, bytesRead, text)
  {
    var bufSz := 2 + |base|;
    var buf := new char[bufSz](_ => NUL);
    tab, waiting, rest, bytesRead := false, false, keys, |base|;
    forall i | 0 <= i < |base| {
      buf[i] := base[i];
    }
    ghost var text := base;
    assert buf[..bytesRead] == text;
    while rest != "" && rest[0] != ENTER
      invariant fresh(buf) && buf.Length == bufSz && Holds(buf, bytesRead, text)
      invariant EditLine(base, keys) == EditLine(text, rest)
      decreases |rest|
    {
      var c := rest[0];
      rest := rest[1..];
      if c == CTRL_C {
        ret := null;
        return;
      }
      if c == TAB {
        tab := true;
        ret := buf;
        return;
      }
      if Deletes(c) {
        if bytesRead == 0 {
          continue;
        }
        bytesRead := bytesRead - 1;
        buf[bytesRead] := NUL;
        text := text[..|text| - 1];
        assert buf[..bytesRead] == text;
      } else {
        if bytesRead == bufSz - 1 {
          bufSz := bufSz * 2;
          buf := Larger(buf, bytesRead, bufSz);
        }
        buf[bytesRead] := c;
        bytesRead := bytesRead + 1;
        buf[bytesRead] := NUL;
        text := text + [c];
        assert buf[..bytesRead] == text;
      }
    }
    ret := buf;
    if rest == "" {
      waiting := true;
    } else {
      rest := rest[1..];
    }
  }
}
