/** Value-level specifications of the operations of a doubly linked list:
    counting, first occurrence, removal of one or of all occurrences, and
    reversal, each with the lemmas that the list operations rely on. */
module Seqs {

  /** Number of occurrences of `v` in `s`. */
  function Count<T(==)>(s: seq<T>, v: T): nat
  {
    if s == [] then 0 else Count(s[..|s| - 1], v) + (if s[|s| - 1] == v then 1 else 0)
  }

  /** `s` with every occurrence of `v` taken out, order kept. */
  function Without<T(==)>(s: seq<T>, v: T): seq<T>
  {
    if s == [] then [] else Without(s[..|s| - 1], v) + (if s[|s| - 1] == v then [] else [s[|s| - 1]])
  }

  /** Position of the first occurrence of `v` in `s`. */
  function FirstIndex<T(==)>(s: seq<T>, v: T): (k: nat)
    requires v in s
    ensures k < |s| && s[k] == v
    ensures v !in s[..k]
  {
    if s[0] == v then 0 else 1 + FirstIndex(s[1..], v)
  }

  /** A position holding `v` with no `v` before it is the first index. */
  lemma FirstIndexUnique<T>(s: seq<T>, v: T, k: nat)
    requires k < |s| && s[k] == v && v !in s[..k]
    ensures FirstIndex(s, v) == k
  {
  }

  /** A prefix grows by the next element. */
  lemma TakeOneMore<T>(s: seq<T>, k: nat)
    requires k < |s|
    ensures s[..k + 1] == s[..k] + [s[k]]
  {
  }

  /** `s` without its element at position `k`. */
  function RemoveAt<T>(s: seq<T>, k: nat): seq<T>
    requires k < |s|
  {
    s[..k] + s[k + 1..]
  }

  /** Removing a position keeps only elements that were there. */
  lemma RemoveAtMembers<T>(s: seq<T>, k: nat)
    requires k < |s|
    ensures forall x :: x in RemoveAt(s, k) ==> x in s
  {
  }

  /** `s` without the first occurrence of `v`; `s` itself when `v` does not occur. */
  function RemoveFirst<T(==)>(s: seq<T>, v: T): seq<T>
  {
    if v in s then RemoveAt(s, FirstIndex(s, v)) else s
  }

  /** `s` in the opposite order. */
  function Reverse<T>(s: seq<T>): seq<T>
  {
    if s == [] then [] else Reverse(s[1..]) + [s[0]]
  }

  lemma {:induction false} CountAppend<T>(a: seq<T>, b: seq<T>, v: T)
    ensures Count(a + b, v) == Count(a, v) + Count(b, v)
  {
    if b != [] {
      assert (a + b)[..|a + b| - 1] == a + b[..|b| - 1];
      CountAppend(a, b[..|b| - 1], v);
    } else {
      assert a + b == a;
    }
  }

  lemma {:induction false} WithoutAppend<T>(a: seq<T>, b: seq<T>, v: T)
    ensures Without(a + b, v) == Without(a, v) + Without(b, v)
  {
    if b != [] {
      assert (a + b)[..|a + b| - 1] == a + b[..|b| - 1];
      WithoutAppend(a, b[..|b| - 1], v);
    } else {
      assert a + b == a;
    }
  }

  /** `v` occurs in `s` exactly when it is counted. */
  lemma {:induction false} CountPositive<T>(s: seq<T>, v: T)
    ensures Count(s, v) > 0 <==> v in s
  {
    if s != [] {
      CountPositive(s[..|s| - 1], v);
      assert s == s[..|s| - 1] + [s[|s| - 1]];
    }
  }

  /** Taking out a value that does not occur changes nothing. */
  lemma {:induction false} WithoutAbsent<T>(s: seq<T>, v: T)
    requires v !in s
    ensures Without(s, v) == s
  {
    if s != [] {
      assert s[..|s| - 1] + [s[|s| - 1]] == s;
      WithoutAbsent(s[..|s| - 1], v);
    }
  }

  /** After `Without`, the value no longer occurs, and everything else is kept. */
  lemma {:induction false} WithoutMembers<T>(s: seq<T>, v: T)
    ensures forall x :: x in Without(s, v) <==> x in s && x != v
  {
    if s != [] {
      WithoutMembers(s[..|s| - 1], v);
      assert s == s[..|s| - 1] + [s[|s| - 1]];
    }
  }

  /** Taking one `v` out from between `a` and `b` lowers its count by one
      and leaves the other values as they were. */
  lemma Splice<T>(a: seq<T>, b: seq<T>, v: T)
    ensures Count(a + [v] + b, v) == Count(a + b, v) + 1
    ensures Without(a + [v] + b, v) == Without(a + b, v)
  {
    CountAppend(a + [v], b, v);
    CountAppend(a, [v], v);
    CountAppend(a, b, v);
    assert Count([v], v) == 1 by { assert [v][..0] == []; }
    WithoutAppend(a + [v], b, v);
    WithoutAppend(a, [v], v);
    WithoutAppend(a, b, v);
    assert Without([v], v) == [] by { assert [v][..0] == []; }
  }

  /** Removing the first occurrence of a present value lowers its count by one
      and leaves the other values, in order, untouched. */
  lemma RemoveFirstOccurrence<T>(s: seq<T>, v: T)
    requires v in s
    ensures Count(RemoveFirst(s, v), v) == Count(s, v) - 1
    ensures Without(RemoveFirst(s, v), v) == Without(s, v)
    ensures |RemoveFirst(s, v)| == |s| - 1
  {
    var k := FirstIndex(s, v);
    var a, b := s[..k], s[k + 1..];
    assert s == a + [v] + b;
    assert RemoveFirst(s, v) == a + b;
    Splice(a, b, v);
  }

  lemma {:induction false} ReverseAt<T>(s: seq<T>, i: nat)
    requires i < |s|
    ensures |Reverse(s)| == |s| && Reverse(s)[i] == s[|s| - 1 - i]
  {
    ReverseLength(s);
    if i < |s| - 1 {
      ReverseAt(s[1..], i);
    }
  }

  lemma {:induction false} ReverseLength<T>(s: seq<T>)
    ensures |Reverse(s)| == |s|
  {
    if s != [] {
      ReverseLength(s[1..]);
    }
  }

  /** Reversal is an involution. */
  lemma ReverseReverse<T>(s: seq<T>)
    ensures Reverse(Reverse(s)) == s
  {
    ReverseLength(s);
    ReverseLength(Reverse(s));
    forall i | 0 <= i < |s|
      ensures Reverse(Reverse(s))[i] == s[i]
    {
      ReverseAt(Reverse(s), i);
      ReverseAt(s, |s| - 1 - i);
    }
  }
}
