/** A doubly linked list without sentinel nodes, the branch built on it, and
    the commit-navigation engine that walks a tree of such branches. */
module Timeline {
  import opened Seqs

  /** A cell of a doubly linked list. `childrenBranch` is only used by the
      Git timeline: the branch forked from this commit, if any. */
  class Node<T> {
    const value: T
    var next: Node?<T>
    var prev: Node?<T>
    var childrenBranch: GitBranch?

    constructor (value: T, next: Node?<T>, prev: Node?<T>)
      ensures this.value == value && this.next == next && this.prev == prev
      ensures childrenBranch == null
    {
      this.value := value;
      this.next := next;
      this.prev := prev;
      childrenBranch := null;
    }
  }

  /** The values held by a sequence of nodes. */
  function Values<T>(ns: seq<Node<T>>): (vs: seq<T>)
    ensures |vs| == |ns| && forall i :: 0 <= i < |ns| ==> vs[i] == ns[i].value
  {
    seq(|ns|, i requires 0 <= i < |ns| => ns[i].value)
  }

  /** The nodes of `ns` holding `v`, in the order of `ns`. */
  function MatchingNodes<T(==)>(ns: seq<Node<T>>, v: T): seq<Node<T>>
  {
    if ns == [] then []
    else MatchingNodes(ns[..|ns| - 1], v) + (if ns[|ns| - 1].value == v then [ns[|ns| - 1]] else [])
  }

  /** The nodes of `ns` not holding `v`, in the order of `ns`. */
  function OtherNodes<T(==)>(ns: seq<Node<T>>, v: T): seq<Node<T>>
  {
    if ns == [] then []
    else OtherNodes(ns[..|ns| - 1], v) + (if ns[|ns| - 1].value == v then [] else [ns[|ns| - 1]])
  }

  /** No node occurs twice. */
  ghost predicate Distinct<X>(s: seq<X>)
  {
    forall i, j :: 0 <= i < j < |s| ==> s[i] != s[j]
  }

  lemma {:induction false} MatchingNodesAppend<T>(a: seq<Node<T>>, b: seq<Node<T>>, v: T)
    ensures MatchingNodes(a + b, v) == MatchingNodes(a, v) + MatchingNodes(b, v)
  {
    if b != [] {
      assert (a + b)[..|a + b| - 1] == a + b[..|b| - 1];
      MatchingNodesAppend(a, b[..|b| - 1], v);
    } else {
      assert a + b == a;
    }
  }

  lemma {:induction false} OtherNodesAppend<T>(a: seq<Node<T>>, b: seq<Node<T>>, v: T)
    ensures OtherNodes(a + b, v) == OtherNodes(a, v) + OtherNodes(b, v)
  {
    if b != [] {
      assert (a + b)[..|a + b| - 1] == a + b[..|b| - 1];
      OtherNodesAppend(a, b[..|b| - 1], v);
    } else {
      assert a + b == a;
    }
  }

  /** `MatchingNodes` keeps exactly the nodes holding `v`. */
  lemma {:induction false} MatchingNodesMembers<T>(ns: seq<Node<T>>, v: T)
    ensures forall n :: n in MatchingNodes(ns, v) ==> n in ns && n.value == v
    ensures forall n :: n in ns && n.value == v ==> n in MatchingNodes(ns, v)
  {
    if ns != [] {
      MatchingNodesMembers(ns[..|ns| - 1], v);
      assert ns == ns[..|ns| - 1] + [ns[|ns| - 1]];
    }
  }

  /** There are as many matching nodes as occurrences of the value. */
  lemma {:induction false} MatchingNodesCount<T>(ns: seq<Node<T>>, v: T)
    ensures |MatchingNodes(ns, v)| == Count(Values(ns), v)
  {
    if ns != [] {
      MatchingNodesCount(ns[..|ns| - 1], v);
      assert Values(ns)[..|ns| - 1] == Values(ns[..|ns| - 1]);
    }
  }

  lemma FirstIndexAppend<X>(a: seq<X>, b: seq<X>, x: X)
    requires x in a
    ensures FirstIndex(a + b, x) == FirstIndex(a, x)
  {
    var k := FirstIndex(a, x);
    assert (a + b)[..k] == a[..k];
    FirstIndexUnique(a + b, x, k);
  }

  /** The nodes `ms` all occur in `ns`, in the order of `ns`. */
  ghost predicate InOrder<T>(ms: seq<Node<T>>, ns: seq<Node<T>>)
  {
    forall i, j :: 0 <= i < j < |ms| ==> ms[i] in ns && ms[j] in ns && FirstIndex(ns, ms[i]) < FirstIndex(ns, ms[j])
  }

  /** In a list without repeated nodes, the matching nodes keep list order. */
  lemma {:induction false} MatchingNodesOrdered<T>(ns: seq<Node<T>>, v: T)
    requires Distinct(ns)
    ensures InOrder(MatchingNodes(ns, v), ns)
  {
    if ns != [] {
      var init, x := ns[..|ns| - 1], ns[|ns| - 1];
      assert ns == init + [x];
      MatchingNodesOrdered(init, v);
      MatchingNodesOrderedStep(init, x, v);
    } else {
      assert MatchingNodes(ns, v) == [];
    }
  }

  /** The step of `MatchingNodesOrdered`: appending a node not yet in the
      list keeps the matching nodes in order. */
  lemma MatchingNodesOrderedStep<T>(init: seq<Node<T>>, x: Node<T>, v: T)
    requires x !in init && InOrder(MatchingNodes(init, v), init)
    ensures InOrder(MatchingNodes(init + [x], v), init + [x])
  {
    var ns := init + [x];
    assert ns[..|ns| - 1] == init;
    var m := MatchingNodes(init, v);
    MatchingNodesMembers(init, v);
    forall y | y in init
      ensures FirstIndex(ns, y) == FirstIndex(init, y) < |init|
    {
      FirstIndexAppend(init, [x], y);
    }
    var all := MatchingNodes(ns, v);
    assert all == m + (if x.value == v then [x] else []);
    if x.value == v {
      FirstIndexUnique(ns, x, |init|);
    }
    forall i, j | 0 <= i < j < |all|
      ensures all[i] in ns && all[j] in ns && FirstIndex(ns, all[i]) < FirstIndex(ns, all[j])
    {
      assert all[i] == m[i] && m[i] in m;
      if j < |m| {
        assert all[j] == m[j] && m[j] in m;
      } else {
        assert all[j] == x;
      }
    }
  }

  /** Without a node holding `v` there is nothing to filter out. */
  lemma {:induction false} OtherNodesAbsent<T>(ns: seq<Node<T>>, v: T)
    requires v !in Values(ns)
    ensures OtherNodes(ns, v) == ns
  {
    if ns != [] {
      assert Values(ns[..|ns| - 1]) == Values(ns)[..|ns| - 1];
      OtherNodesAbsent(ns[..|ns| - 1], v);
      assert ns[|ns| - 1].value == Values(ns)[|ns| - 1];
    }
  }

  lemma ValuesRemoveAt<T>(ns: seq<Node<T>>, k: nat)
    requires k < |ns|
    ensures Values(RemoveAt(ns, k)) == RemoveAt(Values(ns), k)
  {
  }

  lemma ValuesReverse<T>(ns: seq<Node<T>>)
    ensures Values(Seqs.Reverse(ns)) == Seqs.Reverse(Values(ns))
  {
    ReverseLength(ns);
    ReverseLength(Values(ns));
    forall i | 0 <= i < |ns|
      ensures Values(Seqs.Reverse(ns))[i] == Seqs.Reverse(Values(ns))[i]
    {
      ReverseAt(ns, i);
      ReverseAt(Values(ns), i);
    }
  }

  /** Values of the nodes kept by `OtherNodes` are the values kept by `Without`. */
  lemma {:induction false} OtherNodesValues<T>(ns: seq<Node<T>>, v: T)
    ensures Values(OtherNodes(ns, v)) == Without(Values(ns), v)
  {
    if ns != [] {
      var init := ns[..|ns| - 1];
      OtherNodesValues(init, v);
      assert Values(ns)[..|ns| - 1] == Values(init);
      assert Values(OtherNodes(ns, v)) == Values(OtherNodes(init, v)) + Values(if ns[|ns| - 1].value == v then [] else [ns[|ns| - 1]]);
    }
  }

  /** Unlinking the first node holding `v` keeps every node not holding `v`. */
  lemma OtherNodesRemoveFirst<T>(ns: seq<Node<T>>, v: T)
    requires v in Values(ns)
    ensures OtherNodes(RemoveAt(ns, FirstIndex(Values(ns), v)), v) == OtherNodes(ns, v)
  {
    var k := FirstIndex(Values(ns), v);
    var a, b := ns[..k], ns[k + 1..];
    assert ns == a + [ns[k]] + b;
    OtherNodesAppend(a + [ns[k]], b, v);
    OtherNodesAppend(a, [ns[k]], v);
    OtherNodesAppend(a, b, v);
    assert [ns[k]][..0] == [];
  }

  /** One round of `RemoveAll`: unlinking the first node holding `v` lowers
      its count by one and keeps the other nodes and values. */
  lemma RemovedOnce<T>(before: seq<Node<T>>, after: seq<Node<T>>, v: T)
    requires v in Values(before) && after == RemoveAt(before, FirstIndex(Values(before), v))
    requires Values(after) == RemoveFirst(Values(before), v)
    ensures Count(Values(after), v) == Count(Values(before), v) - 1
    ensures OtherNodes(after, v) == OtherNodes(before, v)
    ensures Without(Values(after), v) == Without(Values(before), v)
  {
    RemoveFirstOccurrence(Values(before), v);
    OtherNodesRemoveFirst(before, v);
  }

  /** The last round of `RemoveAll`: no node holds `v` any more. */
  lemma NoneLeft<T>(ns: seq<Node<T>>, v: T)
    requires v !in Values(ns)
    ensures Count(Values(ns), v) == 0
    ensures OtherNodes(ns, v) == ns
    ensures Without(Values(ns), v) == Values(ns)
  {
    OtherNodesAbsent(ns, v);
    WithoutAbsent(Values(ns), v);
    CountPositive(Values(ns), v);
  }

  datatype Option<T> = None | Some(value: T)

  /** A node holding `v` with no node before it holding `v` is at the
      first position of `v` among the values. */
  lemma FirstHolding<T>(ns: seq<Node<T>>, k: nat, v: T)
    requires k < |ns| && ns[k].value == v
    requires forall i :: 0 <= i < k ==> ns[i].value != v
    ensures v in Values(ns) && FirstIndex(Values(ns), v) == k
  {
    var vs := Values(ns);
    assert vs[k] == v;
    assert v !in vs[..k] by {
      forall i | 0 <= i < k
        ensures vs[..k][i] != v
      {
      }
    }
    FirstIndexUnique(vs, v, k);
  }

  /** What the node search answers: nothing, the first match, or all matches. */
  datatype NodeMatch<T> = NoMatch | First(node: Node<T>) | All(nodes: seq<Node<T>>)

  /** A doubly linked list tracking head, tail and size. */
  class DLL<T(==)> {
    var head: Node?<T>
    var tail: Node?<T>
    var size: int
    /** The linked nodes, from head to tail. */
    ghost var nodes: seq<Node<T>>

    /** The objects the list is made of, besides itself. */
    ghost function Repr(): set<Node<T>>
      reads this`nodes
    {
      set n | n in nodes
    }

    /** The links agree with `nodes`: `head`, `tail`, the `next` links, the
        `prev` links but the head's, and no node twice. */
    ghost predicate Chain()
      reads this`head, this`tail, this`nodes, Repr()`next, Repr()`prev
    {
      && (nodes == [] ==> head == null && tail == null)
      && (nodes != [] ==> head == nodes[0] && tail == nodes[|nodes| - 1] && tail.next == null)
      && (forall i, j :: 0 <= i && j == i + 1 && j < |nodes| ==> nodes[i].next == nodes[j])
      && (forall i, j :: 0 <= i && j == i + 1 && j < |nodes| ==> nodes[j].prev == nodes[i])
      && (forall i, j :: 0 <= i < j < |nodes| ==> nodes[i] != nodes[j])
    }

    /** The chain invariant, and `size` counts the linked nodes. */
    ghost predicate Linked()
      reads this`head, this`tail, this`size, this`nodes, Repr()`next, Repr()`prev
    {
      size == |nodes| && Chain()
    }

    /** The list invariant: links agree with `nodes`, `head.prev` and
        `tail.next` are null and `size` counts the linked nodes. */
    ghost predicate Valid()
      reads this`head, this`tail, this`size, this`nodes, Repr()`next, Repr()`prev
    {
      Linked() && (head != null ==> head.prev == null)
    }

    /** The values from head to tail. */
    ghost function Contents(): seq<T>
      reads this`nodes
    {
      Values(nodes)
    }

    constructor ()
      ensures Valid() && nodes == []
    {
      head, tail, size := null, null, 0;
      nodes := [];
    }

    lemma NextInList(n: Node<T>)
      requires Linked() && n in nodes
      ensures n.next == null <==> n == tail
      ensures n.next != null ==> n.next in nodes
    {
      var k :| 0 <= k < |nodes| && nodes[k] == n;
      if k < |nodes| - 1 {
        assert nodes[k].next == nodes[k + 1];
      }
    }

    /** The node at position `k` occurs nowhere before it, and its `next` is
        the node after it, or nothing at the tail. */
    lemma At(k: nat)
      requires Chain() && k < |nodes|
      ensures nodes[k] !in nodes[..k]
      ensures nodes[k].next == if k + 1 < |nodes| then nodes[k + 1] else null
    {
      if k + 1 < |nodes| {
        assert nodes[k].next == nodes[k + 1];
      }
    }

    /** Following `prev` moves one position towards the head. */
    lemma PrevPosition(n: Node<T>)
      requires Valid() && n in nodes && n.prev != null
      ensures n.prev in nodes && FirstIndex(nodes, n.prev) + 1 == FirstIndex(nodes, n)
    {
      var k := FirstIndex(nodes, n);
      assert k > 0 && nodes[k].prev == nodes[k - 1];
      FirstIndexUnique(nodes, n.prev, k - 1);
    }

    /** The head case of `RemoveNode`. */
    method UnlinkHead()
      requires Valid() && nodes != []
      modifies this, Repr()`next, Repr()`prev
      ensures Valid() && nodes == RemoveAt(old(nodes), 0)
    {
      if size > 1 {
        assert nodes[0].next == nodes[1];
      }
      head := head.next;
      if head != null {
        head.prev := null;
      } else {
        tail := null;
      }
      nodes := RemoveAt(nodes, 0);
      size := size - 1;
    }

    /** The tail case of `RemoveNode`, on a list of at least two nodes. */
    method UnlinkTail()
      requires Valid() && |nodes| > 1
      modifies this, Repr()`next, Repr()`prev
      ensures Valid() && nodes == RemoveAt(old(nodes), |old(nodes)| - 1)
    {
      assert nodes[|nodes| - 1].prev == nodes[|nodes| - 2];
      tail := tail.prev;
      tail.next := null;
      nodes := RemoveAt(nodes, |nodes| - 1);
      size := size - 1;
    }

    /** The inner case of `RemoveNode`: the node at `k` has neighbours on both sides. */
    method UnlinkInner(toRemove: Node<T>, ghost k: nat)
      requires Valid() && 0 < k < |nodes| - 1 && nodes[k] == toRemove
      modifies this, Repr()`next, Repr()`prev
      ensures Valid() && nodes == RemoveAt(old(nodes), k)
    {
      assert nodes[k].prev == nodes[k - 1] && nodes[k].next == nodes[k + 1];
      if toRemove.prev != null {
        toRemove.prev.next := toRemove.next;
      }
      if toRemove.next != null {
        toRemove.next.prev := toRemove.prev;
      }
      ghost var r := RemoveAt(nodes, k);
      forall i, j | 0 <= i && j == i + 1 && j < |r|
        ensures r[i].next == r[j] && r[j].prev == r[i]
      {
        if j < k {
          assert r[i] == nodes[i] && r[j] == nodes[j];
        } else if j == k {
          assert r[i] == nodes[k - 1] && r[j] == nodes[k + 1];
        } else {
          assert r[i] == nodes[i + 1] && r[j] == nodes[j + 1];
        }
      }
      nodes := r;
      size := size - 1;
    }

    /** Following `next` moves one position towards the tail. */
    lemma NextPosition(n: Node<T>)
      requires Linked() && n in nodes && n.next != null
      ensures n.next in nodes && FirstIndex(nodes, n.next) == FirstIndex(nodes, n) + 1
    {
      var k := FirstIndex(nodes, n);
      assert k < |nodes| - 1 && nodes[k].next == nodes[k + 1];
      FirstIndexUnique(nodes, n.next, k + 1);
    }

    function Empty(): (r: bool)
      requires Linked()
      reads this, Repr()
      ensures r <==> Contents() == []
    {
      head == null
    }

    method Push(val: T, back: bool)
      requires Valid()
      modifies this, Repr()
      ensures Valid()
      ensures |nodes| == |old(nodes)| + 1 && size == old(size) + 1
      ensures back ==> nodes == old(nodes) + [tail] && fresh(tail) && tail.value == val
      ensures back && old(tail) != null ==> old(tail).next == tail && head == old(head)
      ensures !back ==> nodes == [head] + old(nodes) && fresh(head) && head.value == val
      ensures Contents() == if back then old(Contents()) + [val] else [val] + old(Contents())
      ensures forall n :: n in nodes ==> n.childrenBranch == null || n in old(nodes)
      ensures forall n :: n in old(nodes) ==> n.childrenBranch == old(n.childrenBranch)
    {
      var newNode := new Node(val, null, null);
      if size == 0 {
        LinkOnly(newNode);
      } else if back {
        LinkBack(newNode);
      } else {
        LinkFront(newNode);
      }
    }

    /** The empty-list case of `Push`: `n` becomes the only node. */
    method LinkOnly(n: Node<T>)
      requires Valid() && nodes == [] && n.next == null && n.prev == null
      modifies this`head, this`tail, this`nodes, this`size
      ensures Valid() && nodes == [n]
    {
      head := n;
      tail := n;
      nodes := [n];
      size := size + 1;
    }

    /** The back case of `Push` on a non-empty list. */
    method LinkBack(n: Node<T>)
      requires Valid() && nodes != [] && n !in Repr() && n.next == null
      modifies this`tail, this`nodes, this`size, tail`next, n`prev
      ensures Valid() && nodes == old(nodes) + [n] && head == old(head) && old(tail).next == n
    {
      n.prev := tail;
      tail.next := n;
      tail := n;
      nodes := nodes + [n];
      size := size + 1;
    }

    /** The front case of `Push` on a non-empty list. */
    method LinkFront(n: Node<T>)
      requires Valid() && nodes != [] && n !in Repr() && n.prev == null
      modifies this`head, this`nodes, this`size, head`prev, n`next
      ensures Valid() && nodes == [n] + old(nodes)
    {
      n.next := head;
      head.prev := n;
      head := n;
      nodes := [n] + nodes;
      size := size + 1;
    }

    method Pop(back: bool)
      requires Valid()
      modifies this, Repr()`next, Repr()`prev
      ensures Valid()
      ensures old(nodes) == [] ==> nodes == [] && size == 0
      ensures old(nodes) != [] && back ==> nodes == old(nodes)[..|old(nodes)| - 1]
      ensures old(nodes) != [] && !back ==> nodes == old(nodes)[1..]
      ensures old(nodes) != [] ==> size == old(size) - 1
      ensures Contents() == if old(nodes) == [] then [] else if back then old(Contents())[..|old(nodes)| - 1] else old(Contents())[1..]
      ensures forall n :: n in old(nodes) ==> n.childrenBranch == old(n.childrenBranch)
    {
      if size == 0 {
        return;
      } else if size == 1 {
        head := null;
        tail := null;
        nodes := [];
      } else if back {
        assert nodes[|nodes| - 1].prev == nodes[|nodes| - 2];
        tail := tail.prev;
        tail.next := null;
        nodes := nodes[..|nodes| - 1];
      } else {
        assert nodes[0].next == nodes[1];
        head := head.next;
        head.prev := null;
        nodes := nodes[1..];
      }
      size := size - 1;
    }

    method ListToDll(source: seq<T>)
      requires Valid()
      modifies this, Repr()`next, Repr()`prev
      ensures Valid()
      ensures Contents() == source && size == |source|
      ensures forall n :: n in nodes ==> fresh(n)
      ensures forall n :: n in old(nodes) ==> n.childrenBranch == old(n.childrenBranch)
    {
      while !Empty()
        invariant Valid()
        invariant forall n :: n in nodes ==> n in old(nodes)
        decreases |nodes|
      {
        Pop(true);
      }
      for i := 0 to |source|
        invariant Valid()
        invariant Contents() == source[..i]
        invariant forall n :: n in nodes ==> fresh(n)
      {
        Push(source[i], true);
        assert source[..i + 1] == source[..i] + [source[i]];
      }
    }

    method FindNodes(val: T, findFirst: bool) returns (r: NodeMatch<T>)
      requires Valid()
      ensures val !in Contents() ==> r == NoMatch
      ensures val in Contents() && findFirst ==> r == First(nodes[FirstIndex(Contents(), val)])
      ensures val in Contents() && !findFirst ==> r == All(MatchingNodes(nodes, val))
    {
      var lisFiltered: seq<Node<T>> := [];
      var item := head;
      ghost var k := 0;
      ghost var vs := Contents();
      while item != null
        invariant 0 <= k <= |nodes|
        invariant item == if k < |nodes| then nodes[k] else null
        invariant lisFiltered == MatchingNodes(nodes[..k], val)
        invariant findFirst ==> val !in vs[..k] && lisFiltered == []
        decreases |nodes| - k
      {
        assert nodes[..k + 1] == nodes[..k] + [nodes[k]];
        assert vs[..k + 1] == vs[..k] + [item.value];
        if item.value == val {
          lisFiltered := lisFiltered + [item];
          if findFirst {
            FirstIndexUnique(vs, val, k);
            return First(lisFiltered[0]);
          }
        }
        item := item.next;
        k := k + 1;
      }
      assert nodes[..k] == nodes;
      MatchingNodesMembers(nodes, val);
      if lisFiltered != [] {
        assert lisFiltered[0] in lisFiltered;
      }
      if lisFiltered != [] {
        r := All(lisFiltered);
      } else {
        r := NoMatch;
      }
    }

    method Find(val: T) returns (r: Node?<T>)
      requires Valid()
      ensures r == null <==> val !in Contents()
      ensures r != null ==> r == nodes[FirstIndex(Contents(), val)] && r.value == val
    {
      var m := FindNodes(val, true);
      r := if m.First? then m.node else null;
    }

    method FindAll(val: T) returns (r: seq<Node<T>>)
      requires Valid()
      ensures |r| == Count(Contents(), val)
      ensures forall n :: n in r <==> n in nodes && n.value == val
      ensures InOrder(r, nodes)
    {
      var probe := FindNodes(val, false);
      if probe != NoMatch {
        var again := FindNodes(val, false);
        r := if again.All? then again.nodes else [];
      } else {
        r := [];
      }
      MatchingNodesMembers(nodes, val);
      MatchingNodesCount(nodes, val);
      MatchingNodesOrdered(nodes, val);
      CountPositive(Contents(), val);
    }

    method RemoveNode(toRemove: Node<T>)
      requires Valid()
      requires nodes == [] || toRemove in nodes
      modifies this, Repr()`next, Repr()`prev
      ensures Valid()
      ensures old(nodes) == [] ==> nodes == []
      ensures old(nodes) != [] ==> nodes == RemoveAt(old(nodes), FirstIndex(old(nodes), toRemove))
      ensures old(nodes) != [] ==> Contents() == RemoveAt(old(Contents()), FirstIndex(old(nodes), toRemove))
      ensures forall n :: n in old(nodes) ==> n.childrenBranch == old(n.childrenBranch)
    {
      if size == 0 {
        return;
      }
      ghost var k := FirstIndex(nodes, toRemove);
      if toRemove == head {
        assert k == 0 by { FirstIndexUnique(nodes, toRemove, 0); }
        UnlinkHead();
      } else if toRemove == tail {
        UnlinkTail();
      } else {
        UnlinkInner(toRemove, k);
      }
      ValuesRemoveAt(old(nodes), k);
    }

    /** Unlinks the first node holding `val`. The answer is `None` on an
        empty list, otherwise whether a node was unlinked. */
    method Remove(val: T) returns (r: Option<bool>)
      requires Valid()
      modifies this, Repr()`next, Repr()`prev
      ensures Valid()
      ensures old(nodes) == [] ==> r == None
      ensures old(nodes) != [] ==> r == Some(val in old(Contents()))
      ensures Contents() == RemoveFirst(old(Contents()), val)
      ensures val in old(Contents()) ==> nodes == RemoveAt(old(nodes), FirstIndex(old(Contents()), val))
      ensures val !in old(Contents()) ==> nodes == old(nodes)
      ensures Repr() <= old(Repr())
      ensures forall n :: n in old(nodes) ==> n.childrenBranch == old(n.childrenBranch)
    {
      if size == 0 {
        return None;
      }
      var item := head;
      ghost var k := 0;
      ghost var vs := Contents();
      while item != null && item.value != val
        invariant 0 <= k <= |nodes|
        invariant item == if k < |nodes| then nodes[k] else null
        invariant val !in vs[..k]
        decreases |nodes| - k
      {
        assert vs[..k + 1] == vs[..k] + [item.value];
        item := item.next;
        k := k + 1;
      }
      if item == null {
        assert vs[..k] == vs;
        return Some(false);
      }
      FirstIndexUnique(vs, val, k);
      FirstIndexUnique(nodes, item, k);
      RemoveAtMembers(nodes, k);
      RemoveNode(item);
      return Some(true);
    }

    /** Unlinks every node holding `val` and answers how many there were. */
    method RemoveAll(val: T) returns (count: int)
      requires Valid()
      modifies this, Repr()`next, Repr()`prev
      ensures Valid()
      ensures count == Count(old(Contents()), val)
      ensures nodes == OtherNodes(old(nodes), val)
      ensures Contents() == Without(old(Contents()), val)
    {
      count := 0;
      while true
        invariant Valid() && Repr() <= old(Repr())
        invariant count + Count(Contents(), val) == Count(old(Contents()), val)
        invariant OtherNodes(nodes, val) == OtherNodes(old(nodes), val)
        invariant Without(Contents(), val) == Without(old(Contents()), val)
        decreases |nodes|
      {
        ghost var before := nodes;
        var removed := Remove(val);
        if removed != Some(true) {
          NoneLeft(nodes, val);
          return;
        }
        RemovedOnce(before, nodes, val);
        count := count + 1;
      }
    }

    /** Reverses the list in place by swapping every node's links. */
    method Reverse()
      requires Valid()
      modifies this, Repr()
      ensures Valid()
      ensures nodes == Seqs.Reverse(old(nodes)) && size == old(size)
      ensures Contents() == Seqs.Reverse(old(Contents()))
      ensures head == old(tail) && tail == old(head)
      ensures forall n :: n in old(nodes) ==> n.childrenBranch == old(n.childrenBranch)
    {
      ghost var ns := nodes;
      ghost var n := |ns|;
      var current := head;
      var prev: Node?<T> := null;
      tail := current;
      ghost var k := 0;
      while current != null
        invariant nodes == ns && size == n && Distinct(ns)
        invariant 0 <= k <= n
        invariant current == if k < n then ns[k] else null
        invariant prev == if k > 0 then ns[k - 1] else null
        invariant tail == if n > 0 then ns[0] else null
        invariant k > 0 ==> ns[0].next == null
        invariant forall i, j :: 0 <= i && j == i + 1 && j < k ==> ns[j].next == ns[i]
        invariant forall i, j :: 0 <= i && j == i + 1 && j < n && i < k ==> ns[i].prev == ns[j]
        invariant k == n && n > 0 ==> ns[n - 1].prev == null
        invariant forall i, j :: k <= i && j == i + 1 && j < n ==> ns[i].next == ns[j]
        invariant k < n ==> ns[n - 1].next == null
        invariant forall m :: m in ns ==> m.childrenBranch == old(m.childrenBranch)
        decreases n - k
      {
        var nextNode := current.next;
        current.next := prev;
        current.prev := nextNode;
        prev := current;
        current := nextNode;
        k := k + 1;
      }
      head := prev;
      nodes := Seqs.Reverse(ns);
      ReverseLength(ns);
      forall i | 0 <= i < n
        ensures nodes[i] == ns[n - 1 - i]
      {
        ReverseAt(ns, i);
      }
      ReversedChain(ns);
      ValuesReverse(ns);
    }

    /** The links `Reverse` leaves behind form the reversed chain. */
    lemma ReversedChain(ns: seq<Node<T>>)
      requires size == |ns| == |nodes| && Distinct(ns)
      requires forall i :: 0 <= i < |ns| ==> nodes[i] == ns[|ns| - 1 - i]
      requires head == (if |ns| > 0 then ns[|ns| - 1] else null)
      requires tail == (if |ns| > 0 then ns[0] else null)
      requires |ns| > 0 ==> ns[0].next == null && ns[|ns| - 1].prev == null
      requires forall i, j :: 0 <= i && j == i + 1 && j < |ns| ==> ns[j].next == ns[i] && ns[i].prev == ns[j]
      ensures Valid()
    {
      var n := |ns|;
      forall i, j | 0 <= i && j == i + 1 && j < n
        ensures nodes[i].next == nodes[j] && nodes[j].prev == nodes[i]
      {
        assert nodes[i] == ns[n - 1 - i] && nodes[j] == ns[n - 1 - j];
      }
      forall i, j | 0 <= i < j < n
        ensures nodes[i] != nodes[j]
      {
        assert nodes[i] == ns[n - 1 - i] && nodes[j] == ns[n - 1 - j];
      }
    }

    method DllToList() returns (lis: seq<T>)
      requires Valid()
      ensures lis == Contents()
    {
      lis := [];
      var item := head;
      ghost var k := 0;
      while item != null
        invariant 0 <= k <= |nodes|
        invariant item == if k < |nodes| then nodes[k] else null
        invariant lis == Contents()[..k]
        decreases |nodes| - k
      {
        lis := lis + [item.value];
        item := item.next;
        k := k + 1;
      }
    }
  }

  /** A branch of the commit timeline: a list of commit messages with a name
      and, for every branch but the first, the commit it was forked from. */
  class GitBranch {
    const name: string
    const parentNode: Node?<string>
    const commits: DLL<string>

    constructor (name: string, parentNode: Node?<string>)
      ensures this.name == name && this.parentNode == parentNode
      ensures fresh(commits) && commits.Valid() && commits.nodes == []
    {
      this.name := name;
      this.parentNode := parentNode;
      commits := new DLL();
    }

    /** Appends a commit. The first commit of a branch is linked backwards to
        the fork point, and the fork point forwards to it. */
    method PushCommit(value: string) returns (r: Node<string>)
      requires commits.Linked()
      modifies commits, commits.Repr(), if parentNode != null then {parentNode} else {}
      ensures commits.Linked()
      ensures commits.nodes == old(commits.nodes) + [r] && fresh(r) && r.value == value
      ensures r == commits.tail && r.childrenBranch == null
      ensures commits.Contents() == old(commits.Contents()) + [value]
      ensures old(commits.nodes) == [] ==> r.prev == parentNode && (parentNode != null ==> parentNode.next == r)
      ensures old(commits.nodes) != [] ==> r.prev == old(commits.tail) && commits.head == old(commits.head) && commits.head.prev == old(commits.head.prev)
      ensures parentNode != null ==> parentNode.prev == old(parentNode.prev) && parentNode.childrenBranch == old(parentNode.childrenBranch)
      ensures old(commits.nodes) != [] && parentNode != null && parentNode !in old(commits.Repr()) ==> parentNode.next == old(parentNode.next)
      ensures forall n :: n in old(commits.nodes) ==> n.childrenBranch == old(n.childrenBranch) && n.prev == old(n.prev)
      ensures forall n :: n in old(commits.nodes) && n != old(commits.tail) ==> n.next == old(n.next)
    {
      var newNode: Node<string>;
      if commits.Empty() {
        newNode := new Node(value, null, parentNode);
        commits.head := newNode;
        commits.tail := newNode;
        if parentNode != null {
          parentNode.next := newNode;
        }
        commits.nodes := [newNode];
      } else {
        newNode := new Node(value, null, commits.tail);
        commits.tail.next := newNode;
        commits.tail := newNode;
        commits.nodes := commits.nodes + [newNode];
      }
      commits.size := commits.size + 1;
      r := commits.tail;
    }

    /** The first commit of the branch, if any. */
    function GetFirstCommit(): (r: Node?<string>)
      requires commits.Linked()
      reads commits, commits.Repr()
      ensures r == null <==> commits.nodes == []
      ensures r != null ==> r == commits.nodes[0]
    {
      commits.head
    }

    /** The last commit of the branch, if any. */
    function GetLastCommit(): (r: Node?<string>)
      requires commits.Linked()
      reads commits, commits.Repr()
      ensures r == null <==> commits.nodes == []
      ensures r != null ==> r == commits.nodes[|commits.nodes| - 1] && r.next == null
    {
      commits.tail
    }
  }
}
