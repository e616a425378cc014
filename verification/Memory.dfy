/** Byte snapshots of memory, as the search and renarrow code reads them. */
module Memory {
  type Byte = x: int | 0 <= x < 256

  /** The local address space, indexed by address; refreshed from the target process between searches. */
  type Snapshot = seq<Byte>

  datatype Option<+T> = None | Some(value: T)

  /** memcmp(mem + p, value, |value|) == 0. A read past the end of the space counts as a mismatch. */
  predicate OccursAt(mem: Snapshot, p: nat, value: seq<Byte>) {
    p + |value| <= |mem| && mem[p..p + |value|] == value
  }

  /** The same byte by byte. */
  lemma OccursAtBytes(mem: Snapshot, p: nat, value: seq<Byte>)
    ensures OccursAt(mem, p, value)
            <==> p + |value| <= |mem| && forall i | 0 <= i < |value| :: mem[p + i] == value[i]
  {
    if p + |value| <= |mem| {
      assert forall i {:trigger value[i]} | 0 <= i < |value| :: mem[p..p + |value|][i] == mem[p + i];
    }
  }

  ghost predicate Distinct<T>(s: seq<T>) {
    forall i, j | 0 <= i < j < |s| :: s[i] != s[j]
  }

  lemma DistinctAppend<T>(s: seq<T>, x: T)
    requires Distinct(s) && x !in s
    ensures Distinct(s + [x])
  {
  }

  lemma DistinctRotate<T>(s: seq<T>)
    requires Distinct(s) && s != []
    ensures Distinct(s[1..] + [s[0]])
    ensures s[0] !in s[1..]
  {
  }

  lemma DistinctConcat<T>(a: seq<T>, b: seq<T>)
    requires Distinct(a) && Distinct(b)
    requires forall i | 0 <= i < |a| :: a[i] !in b
    ensures Distinct(a + b)
  {
  }

  lemma DistinctRemove<T>(s: seq<T>, k: nat)
    requires Distinct(s) && k < |s|
    ensures Distinct(s[..k] + s[k + 1..])
    ensures s[k] !in s[..k] + s[k + 1..]
  {
  }

  lemma {:induction false} DistinctCount<T>(s: seq<T>, x: T)
    requires Distinct(s)
    ensures multiset(s)[x] == if x in s then 1 else 0
  {
    if s != [] {
      DistinctCount(s[1..], x);
      assert s == [s[0]] + s[1..];
    }
  }

  /** No repetition means that nothing counts more than once. */
  lemma DistinctIff<T>(s: seq<T>)
    ensures Distinct(s) <==> forall x: T :: multiset(s)[x] <= 1
  {
    if Distinct(s) {
      forall x: T ensures multiset(s)[x] <= 1 {
        DistinctCount(s, x);
      }
    } else {
      var i, j :| 0 <= i < j < |s| && s[i] == s[j];
      assert s == s[..j] + s[j..];
      assert s[..j][i] == s[i] && s[j..][0] == s[i];
      assert s[i] in multiset(s[..j]) && s[i] in multiset(s[j..]);
      assert multiset(s)[s[i]] == multiset(s[..j] + s[j..])[s[i]] >= 2;
    }
  }

  /** Sequences without repetition and with the same members are permutations of each other. */
  lemma SameMembers<T>(a: seq<T>, b: seq<T>)
    requires Distinct(a) && Distinct(b)
    requires forall x :: x in a <==> x in b
    ensures multiset(a) == multiset(b)
  {
    forall x: T ensures multiset(a)[x] == multiset(b)[x] {
      DistinctCount(a, x);
      DistinctCount(b, x);
    }
  }

  function Reverse<T>(s: seq<T>): (r: seq<T>)
    ensures |r| == |s|
    ensures multiset(r) == multiset(s)
  {
    if s == [] then [] else
      assert s == [s[0]] + s[1..];
      Reverse(s[1..]) + [s[0]]
  }

  lemma {:induction false} ReverseAt<T>(s: seq<T>, k: nat)
    requires k < |s|
    ensures Reverse(s)[k] == s[|s| - 1 - k]
  {
    if k < |s| - 1 {
      ReverseAt(s[1..], k);
    }
  }

  lemma ReverseDistinct<T>(s: seq<T>)
    requires Distinct(s)
    ensures Distinct(Reverse(s))
  {
    forall i, j | 0 <= i < j < |s| ensures Reverse(s)[i] != Reverse(s)[j] {
      ReverseAt(s, i);
      ReverseAt(s, j);
    }
  }

  lemma ReverseStep<T>(s: seq<T>)
    requires s != []
    ensures Reverse(s) == Reverse(s[1..]) + [s[0]]
  {
  }

  lemma {:induction false} ReverseAppend<T>(s: seq<T>, x: T)
    ensures Reverse(s + [x]) == [x] + Reverse(s)
  {
    hide Reverse;
    var t := s + [x];
    ReverseStep(t);
    if s == [] {
      assert t[1..] == [];
    } else {
      ReverseStep(s);
      ReverseAppend(s[1..], x);
      assert t[1..] == s[1..] + [x];
    }
  }
}
