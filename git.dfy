/** The commit-navigation engine: a tree of branches, a current branch, a
    selected commit (the cursor) and the branches left behind by backward
    moves across a fork. */
module GitEngine {
  import opened Seqs
  import opened Timeline

  /** Why an operation was refused. */
  datatype GitError = MiddleOfTimeline | NoSuchCommit | EmptyCommit | BranchExists

  /** The result of an operation that the engine may refuse; a refused
      operation changes nothing. */
  datatype Outcome = Done | Failed(error: GitError)

  class Git {
    const start: GitBranch
    var currentBranch: GitBranch
    var selectedCommit: Node?<string>
    var visitedBranches: set<GitBranch>

    /** The branches of the tree. */
    ghost var branches: set<GitBranch>
    /** The branch each commit node belongs to. */
    ghost var owner: map<Node<string>, GitBranch>
    /** The branch each commit list belongs to. */
    ghost var lists: map<DLL<string>, GitBranch>
    /** Distance of each branch from `start`; a fork point belongs to a
        branch of smaller depth. */
    ghost var depth: map<GitBranch, nat>
    /** The branches, their lists and their nodes. */
    ghost var Repr: set<object>

    /** The shape of the tree, in terms of the ghost maps alone: every
        branch but `start` forks off a commit of a shallower branch. */
    ghost predicate Hierarchy()
      reads this`branches, this`owner, this`depth
    {
      && start in branches && start.parentNode == null
      && (forall b {:trigger b in branches} :: b in branches ==> b in depth)
      && (forall b {:trigger b.parentNode} :: b in branches && b != start ==>
            b.parentNode != null && b.parentNode in owner && owner[b.parentNode] in branches &&
            depth[owner[b.parentNode]] < depth[b])
    }

    /** Membership written as a predicate of its own so that it serves as
        the trigger of the list clause of `Framed`: that clause is used only
        where `ListOf` asks for it, which keeps proofs about the tree cheap. */
    ghost predicate Listed(b: GitBranch)
      reads this`branches
    {
      b in branches
    }

    /** The objects of the tree are known and every list is well formed. */
    ghost predicate Framed()
      reads this`branches, this`owner, this`Repr, Repr
    {
      && this !in Repr
      && (forall b {:trigger b.commits} :: b in branches ==> b in Repr && b.commits in Repr && b.commits.Repr() <= Repr)
      && (forall b {:trigger Listed(b)} :: b in branches && Listed(b) ==> b.commits.Valid())
      && (forall n {:trigger n in owner} :: n in owner ==> n in Repr && owner[n] in branches)
    }

    /** Every node belongs to exactly one branch and every list to one branch. */
    ghost predicate Owned()
      reads this`branches, this`owner, this`lists, this`Repr, Repr
      requires Framed()
    {
      && (forall b, n {:trigger n in b.commits.nodes} :: b in branches && n in b.commits.nodes ==> n in owner && owner[n] == b)
      && (forall n {:trigger n in owner} :: n in owner ==> n in owner[n].commits.nodes)
      && (forall b {:trigger b.commits} :: b in branches ==> b.commits in lists && lists[b.commits] == b)
    }

    /** Forks are linked both ways: a fork point's `childrenBranch` is the
        branch forked off it. */
    ghost predicate Forked()
      reads this`branches, this`owner, this`lists, this`depth, this`Repr, Repr
      requires Hierarchy() && Framed()
    {
      && (forall b {:trigger b.parentNode} :: b in branches && b != start ==> b.parentNode.childrenBranch == b)
      && (forall n {:trigger n.childrenBranch} :: n in owner && n.childrenBranch != null ==>
            n.childrenBranch in branches && n.childrenBranch.parentNode == n)
    }

    /** The tree of branches, with names that tell branches apart. */
    ghost predicate Tree()
      reads this`branches, this`owner, this`lists, this`depth, this`Repr, Repr
    {
      && Hierarchy() && Framed() && Owned() && Forked()
      && (forall b1, b2 {:trigger b1.name, b2.name} :: b1 in branches && b2 in branches && b1.name == b2.name ==> b1 == b2)
    }

    /** The engine invariant: the tree, and a cursor, a current branch and
        visited branches taken from it. */
    ghost predicate Valid()
      reads this, Repr
    {
      && Tree()
      && currentBranch in branches && visitedBranches <= branches
      && (selectedCommit != null ==> selectedCommit in owner)
    }

    /** Position of a node in its branch. */
    ghost function Position(n: Node<string>): nat
      requires Tree() && n in owner
      reads this`branches, this`owner, this`lists, this`depth, this`Repr, Repr
    {
      FirstIndex(owner[n].commits.nodes, n)
    }

    /** Moving the cursor or changing the visited set leaves the tree alone. */
    twostate lemma TreeKept()
      requires old(Tree()) && unchanged(this`branches, this`owner, this`lists, this`depth, this`Repr)
      requires unchanged(old(Repr))
      ensures Tree()
    {
    }

    /** The state change of appending a fresh commit `n` to branch `b` and
        recording it: no other branch, list or node is touched. */
    twostate predicate Appended(b: GitBranch, new n: Node<string>)
      reads this, Repr, b.commits, b.commits.Repr()
    {
      && old(Tree()) && b in old(branches)
      && branches == old(branches) && depth == old(depth) && lists == old(lists)
      && owner == old(owner)[n := b] && Repr == old(Repr) + {n}
      && fresh(n) && n.childrenBranch == null
      && b.commits.Valid() && b.commits.nodes == old(b.commits.nodes) + [n]
      && (forall m :: m in old(b.commits.nodes) ==> m.childrenBranch == old(m.childrenBranch))
      && (forall o :: o in old(Repr) && o != b.commits && o !in old(b.commits.Repr()) ==> unchanged(o))
    }

    /** After an append, the lists of the other branches are untouched. */
    twostate lemma OthersAfterAppend(b: GitBranch, new n: Node<string>)
      requires Appended(b, n)
      ensures forall c :: c in branches && c != b ==>
        old(Listed(c)) && unchanged(c.commits) && forall m :: m in c.commits.nodes ==> unchanged(m)
    {
      forall c | c in branches && c != b
        ensures old(Listed(c)) && unchanged(c.commits) && forall m :: m in c.commits.nodes ==> unchanged(m)
      {
        assert old(Listed(c));
        assert old(lists[c.commits]) == c && old(lists[b.commits]) == b;
        forall m | m in c.commits.nodes
          ensures unchanged(m)
        {
          assert old(m in owner && owner[m] == c);
          assert m !in old(b.commits.Repr());
        }
      }
    }

    twostate lemma FramedAfterAppend(b: GitBranch, new n: Node<string>)
      requires Appended(b, n)
      ensures Hierarchy() && Framed()
    {
      OthersAfterAppend(b, n);
    }

    twostate lemma OwnedAfterAppend(b: GitBranch, new n: Node<string>)
      requires Appended(b, n) && Framed()
      ensures Owned()
    {
    }

    twostate lemma ForkedAfterAppend(b: GitBranch, new n: Node<string>)
      requires Appended(b, n) && Hierarchy() && Framed()
      ensures Forked()
    {
    }

    /** Appending a commit keeps the tree. */
    twostate lemma AppendKeepsTree(b: GitBranch, new n: Node<string>)
      requires Appended(b, n)
      ensures Tree()
    {
      FramedAfterAppend(b, n);
      OwnedAfterAppend(b, n);
      ForkedAfterAppend(b, n);
    }

    /** The state change of forking a fresh, empty branch `b` off the commit
        `p`, which had no branch forked off it: only that
        commit's `childrenBranch` changes. */
    twostate predicate Grafted(p: Node<string>, new b: GitBranch)
      reads this, Repr, p, b.commits, b.commits.Repr()
    {
      && old(Tree()) && fresh(b) && fresh(b.commits) && b.commits.Valid() && b.commits.nodes == []
      && b.parentNode == p && p in old(owner) && old(p.childrenBranch) == null
      && p.childrenBranch == b && p.next == old(p.next) && p.prev == old(p.prev)
      && (forall c :: c in old(branches) ==> c.name != b.name)
      && branches == old(branches) + {b} && owner == old(owner) && lists == old(lists)[b.commits := b]
      && depth == old(depth)[b := old(depth[owner[p]]) + 1]
      && Repr == old(Repr) + {b, b.commits}
      && (forall o :: o in old(Repr) && o != p ==> unchanged(o))
    }

    /** After a fork, the lists of the old branches are untouched. */
    twostate lemma OthersAfterGraft(p: Node<string>, new b: GitBranch)
      requires Grafted(p, b)
      ensures forall c :: c in old(branches) ==>
        old(Listed(c)) && unchanged(c.commits) && c.commits != b.commits && c != b
    {
    }

    twostate lemma FramedAfterGraft(p: Node<string>, new b: GitBranch)
      requires Grafted(p, b)
      ensures Hierarchy() && Framed()
    {
      OthersAfterGraft(p, b);
    }

    twostate lemma OwnedAfterGraft(p: Node<string>, new b: GitBranch)
      requires Grafted(p, b) && Framed()
      ensures Owned()
    {
      OthersAfterGraft(p, b);
    }

    twostate lemma ForkedAfterGraft(p: Node<string>, new b: GitBranch)
      requires Grafted(p, b) && Hierarchy() && Framed()
      ensures Forked()
    {
    }

    /** Forking a branch keeps the tree. */
    twostate lemma GraftKeepsTree(p: Node<string>, new b: GitBranch)
      requires Grafted(p, b)
      ensures Tree()
    {
      FramedAfterGraft(p, b);
      OwnedAfterGraft(p, b);
      ForkedAfterGraft(p, b);
    }

    /** The list of a branch of the tree is well formed. */
    lemma ListOf(b: GitBranch)
      requires Tree() && b in branches
      ensures b.commits.Valid()
    {
      assert Listed(b);
    }

    /** The `prev` of a commit is the commit just before it in the same branch. */
    lemma PrevPosition(n: Node<string>)
      requires Tree() && n in owner && n.prev != null
      ensures n.prev in owner && owner[n.prev] == owner[n] && Position(n.prev) + 1 == Position(n)
    {
      ListOf(owner[n]);
      owner[n].commits.PrevPosition(n);
    }

    /** The `next` of a commit is the commit just after it in the same branch. */
    lemma NextPosition(n: Node<string>)
      requires Tree() && n in owner && n.next != null
      ensures n.next in owner && owner[n.next] == owner[n] && Position(n.next) == Position(n) + 1
    {
      ListOf(owner[n]);
      owner[n].commits.NextPosition(n);
    }

    /** The head and the tail of a non-empty branch are its first and last
        commits. */
    lemma EndsInBranch(b: GitBranch)
      requires Tree() && b in branches
      ensures b.commits.head == null <==> b.commits.nodes == []
      ensures b.commits.head != null ==> b.commits.head in owner && owner[b.commits.head] == b && Position(b.commits.head) == 0
      ensures b.commits.tail != null ==>
        b.commits.tail in owner && owner[b.commits.tail] == b && Position(b.commits.tail) == |b.commits.nodes| - 1
    {
      ListOf(b);
      if b.commits.head != null {
        assert b.commits.head in b.commits.nodes;
      }
      if b.commits.tail != null {
        assert b.commits.tail in b.commits.nodes;
        FirstIndexUnique(b.commits.nodes, b.commits.tail, |b.commits.nodes| - 1);
      }
    }

    /** A fork point is a commit of a shallower branch, whose child is the
        forked branch. */
    lemma ForkPoint(b: GitBranch)
      requires Tree() && b in branches && b.parentNode != null
      ensures b.parentNode in owner && depth[owner[b.parentNode]] < depth[b]
      ensures b.parentNode.childrenBranch == b
    {
    }

    constructor ()
      ensures Valid() && fresh(Repr)
      ensures branches == {start} && start.name == "main" && start.commits.nodes == []
      ensures currentBranch == start && selectedCommit == null && visitedBranches == {}
    {
      var main := new GitBranch("main", null);
      start := main;
      currentBranch := main;
      selectedCommit := null;
      visitedBranches := {};
      branches := {main};
      owner := map[];
      lists := map[main.commits := main];
      Repr := {main, main.commits};
      depth := map[main := 0];
    }

    /** The message of the selected commit, if there is one. */
    function GetCurrentCommit(): (r: Option<string>)
      requires Valid()
      reads this, Repr
      ensures r.Some? <==> selectedCommit != null
      ensures r.Some? ==> r.value in owner[selectedCommit].commits.Contents()
      ensures r.Some? ==> r.value == owner[selectedCommit].commits.Contents()[Position(selectedCommit)]
    {
      if selectedCommit != null then Some(selectedCommit.value) else None
    }

    /** The name of the current branch, which no other branch carries. */
    function GetCurrentBranchName(): (r: string)
      requires Valid()
      reads this, Repr
      ensures forall b :: b in branches ==> (b.name == r <==> b == currentBranch)
    {
      currentBranch.name
    }

    /** Moves the cursor one commit back: along `prev`, or from the empty
        cursor or the head of the current branch to that branch's fork point. */
    method Backwards()
      requires Valid()
      modifies this`selectedCommit, this`visitedBranches
      ensures Valid()
      ensures currentBranch == old(currentBranch)
      ensures branches == old(branches) && owner == old(owner) && depth == old(depth) && Repr == old(Repr)
      ensures old(selectedCommit) == null && currentBranch.parentNode == null ==>
        selectedCommit == null && visitedBranches == old(visitedBranches)
      ensures old(selectedCommit) == null && currentBranch.parentNode != null ==>
        selectedCommit == currentBranch.parentNode && visitedBranches == old(visitedBranches) + {currentBranch}
      ensures old(selectedCommit) != null && old(selectedCommit).prev != null ==>
        selectedCommit == old(selectedCommit).prev && visitedBranches == old(visitedBranches) &&
        owner[selectedCommit] == owner[old(selectedCommit)] && Position(selectedCommit) + 1 == Position(old(selectedCommit))
      ensures old(selectedCommit) != null && old(selectedCommit).prev == null ==>
        if old(selectedCommit) == currentBranch.commits.head && currentBranch.parentNode != null
        then selectedCommit == currentBranch.parentNode && visitedBranches == old(visitedBranches) + {currentBranch}
        else selectedCommit == old(selectedCommit) && visitedBranches == old(visitedBranches)
      ensures selectedCommit != old(selectedCommit) && selectedCommit == currentBranch.parentNode ==>
        depth[owner[selectedCommit]] < depth[currentBranch]
    {
      if currentBranch.parentNode != null {
        ForkPoint(currentBranch);
      }
      if selectedCommit != null && selectedCommit.prev != null {
        PrevPosition(selectedCommit);
      }
      if selectedCommit == null && currentBranch.parentNode == null {
        TreeKept();
        return;
      } else if selectedCommit == null && currentBranch.parentNode != null {
        visitedBranches := visitedBranches + {currentBranch};
        selectedCommit := currentBranch.parentNode;
      } else if selectedCommit != null {
        if selectedCommit.prev != null {
          selectedCommit := selectedCommit.prev;
        } else if selectedCommit == currentBranch.commits.head && currentBranch.parentNode != null {
          visitedBranches := visitedBranches + {currentBranch};
          selectedCommit := currentBranch.parentNode;
        }
      }
      TreeKept();
    }

    /** Moves the cursor one commit forward along `next`, or, when the cursor
        is a fork point whose branch was left by a backward move, back to the
        head of the current branch. The cursor never moves past the tail of
        the current branch. */
    method Forward()
      requires Valid()
      modifies this`selectedCommit, this`visitedBranches
      ensures Valid()
      ensures currentBranch == old(currentBranch)
      ensures branches == old(branches) && owner == old(owner) && depth == old(depth) && Repr == old(Repr)
      ensures old(selectedCommit) == null || old(selectedCommit) == currentBranch.commits.tail ==>
        selectedCommit == old(selectedCommit) && visitedBranches == old(visitedBranches)
      ensures old(selectedCommit) != null && old(selectedCommit) != currentBranch.commits.tail ==>
        var child := old(selectedCommit).childrenBranch;
        if child != null && child in old(visitedBranches) then
          selectedCommit == currentBranch.commits.head && visitedBranches == (old(visitedBranches) + {currentBranch}) - {child}
        else if old(selectedCommit).next != null then
          selectedCommit == old(selectedCommit).next && visitedBranches == old(visitedBranches) &&
          owner[selectedCommit] == owner[old(selectedCommit)] && Position(selectedCommit) == Position(old(selectedCommit)) + 1
        else
          selectedCommit == old(selectedCommit) && visitedBranches == old(visitedBranches)
    {
      if selectedCommit != null && selectedCommit.next != null {
        NextPosition(selectedCommit);
      }
      EndsInBranch(currentBranch);
      if selectedCommit != null {
        if selectedCommit == currentBranch.commits.tail {
          TreeKept();
          return;
        }
        if selectedCommit.childrenBranch != null && selectedCommit.childrenBranch in visitedBranches {
          visitedBranches := (visitedBranches + {currentBranch}) - {selectedCommit.childrenBranch};
          selectedCommit := currentBranch.commits.head;
        } else if selectedCommit.next != null {
          selectedCommit := selectedCommit.next;
        } else if selectedCommit.next == null && selectedCommit == currentBranch.commits.tail {
          // The first test of this method has already returned on this case.
          assert false;
        }
      }
      TreeKept();
    }

    /** Appends a commit to the current branch with the plain list push and
        records the new node as a commit of that branch. */
    method AppendToCurrent(message: string)
      requires Valid()
      modifies this`owner, this`Repr, currentBranch.commits, currentBranch.commits.Repr()
      ensures Valid()
      ensures branches == old(branches) && depth == old(depth) && selectedCommit == old(selectedCommit)
      ensures currentBranch == old(currentBranch) && visitedBranches == old(visitedBranches)
      ensures var n := currentBranch.commits.tail;
        n != null && fresh(n) && n.value == message && n.next == null &&
        currentBranch.commits.nodes == old(currentBranch.commits.nodes) + [n] &&
        owner == old(owner)[n := currentBranch]
      ensures currentBranch.commits.Contents() == old(currentBranch.commits.Contents()) + [message]
      ensures old(currentBranch.commits.tail) != null ==>
        old(currentBranch.commits.tail).next == currentBranch.commits.tail &&
        currentBranch.commits.head == old(currentBranch.commits.head)
      ensures old(currentBranch.commits.nodes) == [] ==> currentBranch.commits.head == currentBranch.commits.tail
    {
      ListOf(currentBranch);
      var commits := currentBranch.commits;
      commits.Push(message, true);
      owner := owner[commits.tail := currentBranch];
      Repr := Repr + {commits.tail};
      AppendKeepsTree(currentBranch, commits.tail);
    }

    /** A commit from the empty cursor: append, then select the head of the
        current branch. */
    method AppendFromEmptyCursor(message: string)
      requires Valid() && selectedCommit == null
      modifies this`selectedCommit, this`owner, this`Repr, currentBranch.commits, currentBranch.commits.Repr()
      ensures Valid()
      ensures currentBranch == old(currentBranch) && visitedBranches == old(visitedBranches)
      ensures branches == old(branches) && depth == old(depth)
      ensures currentBranch.commits.Contents() == old(currentBranch.commits.Contents()) + [message]
      ensures var n := currentBranch.commits.tail;
        n != null && fresh(n) && n.value == message && currentBranch.commits.nodes == old(currentBranch.commits.nodes) + [n] &&
        owner == old(owner)[n := currentBranch]
      ensures selectedCommit == currentBranch.commits.head
      ensures old(currentBranch.commits.nodes) == [] ==> selectedCommit == currentBranch.commits.tail
    {
      AppendToCurrent(message);
      label appended:
      EndsInBranch(currentBranch);
      selectedCommit := currentBranch.commits.head;
      TreeKept@appended();
    }

    /** A cursor with no successor that is not the current branch's tail
        lies on another branch. */
    lemma OffCurrentList()
      requires Valid() && selectedCommit != null && selectedCommit.next == null
      requires selectedCommit != currentBranch.commits.tail
      ensures selectedCommit !in currentBranch.commits.Repr()
    {
      if owner[selectedCommit] == currentBranch {
        ListOf(currentBranch);
        currentBranch.commits.NextInList(selectedCommit);
      }
    }

    /** A commit from a cursor without a successor: append, then move the
        cursor to its successor, which is the new commit when the cursor was
        the tail of the current branch and nothing otherwise. */
    method AppendAfterCursor(message: string)
      requires Valid() && selectedCommit != null && selectedCommit.next == null
      modifies this`selectedCommit, this`owner, this`Repr, currentBranch.commits, currentBranch.commits.Repr()
      ensures Valid()
      ensures currentBranch == old(currentBranch) && visitedBranches == old(visitedBranches)
      ensures branches == old(branches) && depth == old(depth)
      ensures currentBranch.commits.Contents() == old(currentBranch.commits.Contents()) + [message]
      ensures var n := currentBranch.commits.tail;
        n != null && fresh(n) && n.value == message && currentBranch.commits.nodes == old(currentBranch.commits.nodes) + [n] &&
        owner == old(owner)[n := currentBranch]
      ensures selectedCommit == if old(selectedCommit) == old(currentBranch.commits.tail) then currentBranch.commits.tail else null
    {
      ghost var atTail := selectedCommit == currentBranch.commits.tail;
      if !atTail {
        OffCurrentList();
      }
      AppendToCurrent(message);
      label appended:
      assert selectedCommit.next == if atTail then currentBranch.commits.tail else null;
      selectedCommit := selectedCommit.next;
      TreeKept@appended();
    }

    /** Appends a commit to the current branch when the cursor is empty or
        has no successor; refuses in the middle of a timeline. */
    method Commit(message: string) returns (r: Outcome)
      requires Valid()
      modifies this`selectedCommit, this`owner, this`Repr, currentBranch.commits, currentBranch.commits.Repr()
      ensures Valid()
      ensures currentBranch == old(currentBranch) && visitedBranches == old(visitedBranches)
      ensures branches == old(branches) && depth == old(depth)
      ensures r.Failed? <==> old(selectedCommit) != null && old(selectedCommit.next) != null
      ensures r.Failed? ==>
        r.error == MiddleOfTimeline && selectedCommit == old(selectedCommit) &&
        owner == old(owner) && currentBranch.commits.nodes == old(currentBranch.commits.nodes)
      ensures r.Done? ==> currentBranch.commits.Contents() == old(currentBranch.commits.Contents()) + [message]
      ensures r.Done? ==>
        var n := currentBranch.commits.tail;
        n != null && fresh(n) && currentBranch.commits.nodes == old(currentBranch.commits.nodes) + [n] &&
        owner == old(owner)[n := currentBranch]
      ensures r.Done? && old(selectedCommit) == null ==> selectedCommit == currentBranch.commits.head
      ensures r.Done? && old(selectedCommit) != null ==>
        selectedCommit == if old(selectedCommit) == old(currentBranch.commits.tail) then currentBranch.commits.tail else null
      ensures r.Done? && ((old(selectedCommit) == null && old(currentBranch.commits.nodes) == []) ||
                          (old(selectedCommit) != null && old(selectedCommit) == old(currentBranch.commits.tail))) ==>
        GetCurrentCommit() == Some(message)
    {
      if selectedCommit == null {
        AppendFromEmptyCursor(message);
        r := Done;
      } else if selectedCommit.next == null {
        AppendAfterCursor(message);
        r := Done;
      } else {
        r := Failed(MiddleOfTimeline);
      }
    }

    /** `b` is `a` or a branch forked, directly or through other forks, off `a`. */
    ghost predicate Descends(b: GitBranch, a: GitBranch)
      requires Hierarchy() && b in branches
      reads this`branches, this`owner, this`depth
      decreases depth[b]
    {
      b == a || (b != start && Descends(owner[b.parentNode], a))
    }

    /** Descent goes from shallower to deeper branches. */
    lemma {:induction false} DescendsDepth(b: GitBranch, a: GitBranch)
      requires Hierarchy() && b in branches && Descends(b, a)
      ensures a in branches && depth[a] <= depth[b]
      decreases depth[b]
    {
      if b != a {
        DescendsDepth(owner[b.parentNode], a);
      }
    }

    /** Every branch of the tree descends from `start`. */
    lemma {:induction false} FromStart(b: GitBranch)
      requires Hierarchy() && b in branches
      ensures Descends(b, start)
      decreases depth[b]
    {
      if b != start {
        FromStart(owner[b.parentNode]);
      }
    }

    /** Every branch of the tree, and so every commit, lies below `start`. */
    lemma AllFromStart()
      requires Tree()
      ensures forall b :: b in branches ==> Descends(b, start)
      ensures forall n :: n in owner ==> owner[n] in branches && Descends(owner[n], start)
    {
      forall b | b in branches
        ensures Descends(b, start)
      {
        FromStart(b);
      }
    }

    /** What a search loop needs to know of the commit at position `k` of
        branch `b`: it belongs to `b`, occurs once, is followed by the next
        position, and the branch forked off it, if any, forks off it. */
    lemma CommitAt(b: GitBranch, k: nat)
      requires Tree() && b in branches && k < |b.commits.nodes|
      ensures var n := b.commits.nodes[k];
        n in owner && owner[n] == b && n !in b.commits.nodes[..k] &&
        n.next == (if k + 1 < |b.commits.nodes| then b.commits.nodes[k + 1] else null) &&
        (n.childrenBranch != null ==> n.childrenBranch in branches && n.childrenBranch.parentNode == n)
    {
      ListOf(b);
      assert b.commits.nodes[k] in b.commits.nodes;
      b.commits.At(k);
    }

    /** The commits recorded for `b` are the nodes of its list. */
    lemma CommitsOf(b: GitBranch)
      requires Tree() && b in branches
      ensures forall m :: m in owner && owner[m] == b ==> m in b.commits.nodes
    {
    }

    /** The state of a search from `root`: `done` holds the branches taken off
        the stack, `scanned` the commits walked so far. Every branch met
        descends from `root`, is met once, is `root` or forks off a walked
        commit, and every fork off a walked commit has been met. */
    ghost predicate Frontier(root: GitBranch, stack: seq<GitBranch>, done: set<GitBranch>, scanned: set<Node<string>>)
      requires Hierarchy() && root in branches
      reads this`branches, this`owner, this`depth, scanned
    {
      && (forall x :: x in stack ==> x in branches && Descends(x, root) && x !in done)
      && (forall x :: x in done ==> x in branches && Descends(x, root))
      && (forall i, j :: 0 <= i < j < |stack| ==> stack[i] != stack[j])
      && (root in done || root in stack)
      && (forall n :: n in scanned ==> n in owner && owner[n] in done)
      && (forall x :: x in stack && x != root ==> x.parentNode in scanned)
      && (forall x :: x in done && x != root ==> x.parentNode in scanned)
      && (forall n :: n in scanned && n.childrenBranch != null ==> n.childrenBranch in done || n.childrenBranch in stack)
    }

    /** Every commit of a branch in `done` has been walked. */
    ghost predicate Swept(done: set<GitBranch>, scanned: set<Node<string>>)
      reads this`owner
    {
      forall m :: m in owner && owner[m] in done ==> m in scanned
    }

    /** A finished search has met every branch that descends from `root`. */
    lemma {:induction false} Covered(root: GitBranch, done: set<GitBranch>, scanned: set<Node<string>>, b: GitBranch)
      requires Tree() && root in branches && Frontier(root, [], done, scanned) && Swept(done, scanned)
      requires b in branches && Descends(b, root)
      ensures b in done
      decreases depth[b]
    {
      if b != root {
        Covered(root, done, scanned, owner[b.parentNode]);
      }
    }

    /** A search whose stack is empty has met every branch that descends
        from `root` and walked every commit of those branches. */
    lemma Exhausted(root: GitBranch, done: set<GitBranch>, scanned: set<Node<string>>)
      requires Tree() && root in branches && Frontier(root, [], done, scanned) && Swept(done, scanned)
      ensures forall b :: b in branches && Descends(b, root) ==> b in done
      ensures forall n :: n in owner && Descends(owner[n], root) ==> n in scanned
    {
      forall b | b in branches && Descends(b, root)
        ensures b in done
      {
        Covered(root, done, scanned, b);
      }
    }

    /** The search is walking the commits `ns` of `b`, which it has taken off
        the stack; the first `j` of them are walked. */
    ghost predicate Walking(root: GitBranch, stack: seq<GitBranch>, done: set<GitBranch>, scanned: set<Node<string>>,
                            b: GitBranch, ns: seq<Node<string>>, j: nat)
      requires Hierarchy() && root in branches
      reads this`branches, this`owner, this`depth, scanned
    {
      && Frontier(root, stack, done, scanned)
      && b in done && j <= |ns|
      && (forall m :: m in owner && owner[m] in done && owner[m] != b ==> m in scanned)
      && (forall i :: 0 <= i < j ==> ns[i] in scanned)
      && (forall m :: m in scanned && m in owner && owner[m] == b ==> m in ns[..j])
    }

    /** Taking the last branch `b` off the stack starts a walk of its commits `ns`. */
    lemma StartWalk(root: GitBranch, stack: seq<GitBranch>, rest: seq<GitBranch>, done: set<GitBranch>,
                    scanned: set<Node<string>>, b: GitBranch, ns: seq<Node<string>>)
      requires Hierarchy() && root in branches && stack != []
      requires b == stack[|stack| - 1] && rest == stack[..|stack| - 1]
      requires Frontier(root, stack, done, scanned) && Swept(done, scanned)
      ensures b in branches && b !in done && Walking(root, rest, done + {b}, scanned, b, ns, 0)
    {
      assert forall x :: x in stack <==> x in rest || x == b;
      assert b !in rest;
    }

    /** Walking one more commit, and stacking the branch forked off it if
        any, keeps the search state. */
    lemma WalkStep(root: GitBranch, stack: seq<GitBranch>, done: set<GitBranch>, scanned: set<Node<string>>,
                   b: GitBranch, ns: seq<Node<string>>, j: nat)
      requires Hierarchy() && root in branches && Walking(root, stack, done, scanned, b, ns, j) && j < |ns|
      requires ns[j] in owner && owner[ns[j]] == b && ns[j] !in ns[..j]
      requires ns[j].childrenBranch != null ==> ns[j].childrenBranch in branches && ns[j].childrenBranch.parentNode == ns[j]
      ensures var n := ns[j];
        Walking(root, if n.childrenBranch != null then stack + [n.childrenBranch] else stack, done, scanned + {n}, b, ns, j + 1)
    {
      var n := ns[j];
      TakeOneMore(ns, j);
      var scanned' := scanned + {n};
      var c := n.childrenBranch;
      if c != null {
        assert Descends(c, root);
        DescendsDepth(b, root);
        assert c != root;
        assert c !in done && c !in stack;
        var stack' := stack + [c];
        assert forall x :: x in stack' <==> x in stack || x == c;
        assert forall i, k :: 0 <= i < k < |stack'| ==> stack'[i] != stack'[k] by {
          forall i, k | 0 <= i < k < |stack'|
            ensures stack'[i] != stack'[k]
          {
            if k == |stack| {
              assert stack'[i] == stack[i];
            } else {
              assert stack'[i] == stack[i] && stack'[k] == stack[k];
            }
          }
        }
        assert Frontier(root, stack', done, scanned');
      } else {
        assert Frontier(root, stack, done, scanned');
      }
    }

    /** One step of the walk of branch `b`: the commit at position `j` is
        followed by the next position, and walking it, after stacking the
        branch forked off it if any, keeps the search state. */
    lemma Advance(root: GitBranch, stack: seq<GitBranch>, stack': seq<GitBranch>, done: set<GitBranch>,
                  scanned: set<Node<string>>, scanned': set<Node<string>>, b: GitBranch, ns: seq<Node<string>>, j: nat)
      requires Tree() && root in branches && b in branches && ns == b.commits.nodes && j < |ns|
      requires Walking(root, stack, done, scanned, b, ns, j)
      requires stack' == if ns[j].childrenBranch != null then stack + [ns[j].childrenBranch] else stack
      requires scanned' == scanned + {ns[j]}
      ensures ns[j].next == if j + 1 < |ns| then ns[j + 1] else null
      ensures Walking(root, stack', done, scanned', b, ns, j + 1)
    {
      CommitAt(b, j);
      WalkStep(root, stack, done, scanned, b, ns, j);
    }

    /** A finished walk of the commits of `b` leaves a search state in which
        every commit of a done branch is walked. */
    lemma FinishWalk(root: GitBranch, stack: seq<GitBranch>, done: set<GitBranch>, scanned: set<Node<string>>,
                     b: GitBranch, ns: seq<Node<string>>)
      requires Tree() && root in branches && b in branches && ns == b.commits.nodes
      requires Walking(root, stack, done, scanned, b, ns, |ns|)
      ensures Frontier(root, stack, done, scanned) && Swept(done, scanned)
    {
      CommitsOf(b);
      EndWalk(root, stack, done, scanned, b, ns);
    }

    /** A finished walk of all the commits of `b` leaves a search state in
        which every commit of a done branch is walked. */
    lemma EndWalk(root: GitBranch, stack: seq<GitBranch>, done: set<GitBranch>, scanned: set<Node<string>>,
                  b: GitBranch, ns: seq<Node<string>>)
      requires Hierarchy() && root in branches && Walking(root, stack, done, scanned, b, ns, |ns|)
      requires forall m :: m in owner && owner[m] == b ==> m in ns
      ensures Frontier(root, stack, done, scanned) && Swept(done, scanned)
    {
    }

    /** The inner loop of both searches: walks the commits of `b` from head to
        tail and pushes every child branch met on the way onto `stack`. */
    method PushChildren(root: GitBranch, b: GitBranch, stack: seq<GitBranch>, ghost done: set<GitBranch>,
                        ghost scanned: set<Node<string>>)
      returns (stack': seq<GitBranch>, ghost scanned': set<Node<string>>)
      requires Tree() && root in branches && b in branches
      requires Walking(root, stack, done, scanned, b, b.commits.nodes, 0)
      ensures Frontier(root, stack', done, scanned') && Swept(done, scanned')
    {
      ghost var ns := b.commits.nodes;
      ListOf(b);
      var node := b.GetFirstCommit();
      stack', scanned' := stack, scanned;
      ghost var j: nat := 0;
      while node != null
        invariant Walking(root, stack', done, scanned', b, ns, j)
        invariant node == if j < |ns| then ns[j] else null
        decreases |ns| - j
      {
        ghost var stack0, scanned0 := stack', scanned';
        if node.childrenBranch != null {
          stack' := stack' + [node.childrenBranch];
        }
        scanned' := scanned' + {node};
        Advance(root, stack0, stack', done, scanned0, scanned', b, ns, j);
        node := node.next;
        j := j + 1;
      }
      FinishWalk(root, stack', done, scanned', b, ns);
    }

    /** Looks for a branch called `name` among `root` and the branches forked
        off it, by a depth-first walk with an explicit stack. */
    method FindBranch(root: GitBranch, name: string) returns (r: GitBranch?)
      requires Tree() && root in branches
      ensures r != null ==> r in branches && r.name == name && Descends(r, root)
      ensures r == null ==> forall b :: b in branches && Descends(b, root) ==> b.name != name
    {
      var nextTrees: seq<GitBranch> := [root];
      ghost var done: set<GitBranch> := {};
      ghost var scanned: set<Node<string>> := {};
      while nextTrees != []
        invariant Frontier(root, nextTrees, done, scanned) && Swept(done, scanned)
        invariant forall x :: x in done ==> x.name != name
        decreases branches - done
      {
        var b := nextTrees[|nextTrees| - 1];
        ghost var ns := b.commits.nodes;
        ghost var stack := nextTrees;
        nextTrees := nextTrees[..|nextTrees| - 1];
        StartWalk(root, stack, nextTrees, done, scanned, b, ns);
        if b.name == name {
          return b;
        }
        done := done + {b};
        nextTrees, scanned := PushChildren(root, b, nextTrees, done, scanned);
      }
      Exhausted(root, done, scanned);
      return null;
    }

    /** `n` is the first commit of `b` holding `message`. */
    ghost predicate FirstCommit(b: GitBranch, n: Node<string>, message: string)
      reads this`owner, b.commits`nodes
    {
      n in owner && owner[n] == b && message in b.commits.Contents() &&
      n == b.commits.nodes[FirstIndex(b.commits.Contents(), message)]
    }

    /** The inner loop of the commit search: walks the commits of `b` from
        head to tail, stops at the first one holding `message`, at position
        `k`, and pushes every child branch met before it onto `stack`. */
    method ScanCommits(root: GitBranch, b: GitBranch, stack: seq<GitBranch>, ghost done: set<GitBranch>,
                       ghost scanned: set<Node<string>>, message: string)
      returns (stack': seq<GitBranch>, ghost scanned': set<Node<string>>, hit: Node?<string>, ghost k: nat)
      requires Tree() && root in branches && b in branches
      requires Walking(root, stack, done, scanned, b, b.commits.nodes, 0)
      requires forall m :: m in scanned ==> m.value != message
      ensures forall m :: m in scanned' ==> m.value != message
      ensures hit == null ==> Frontier(root, stack', done, scanned') && Swept(done, scanned')
      ensures hit != null ==>
        k < |b.commits.nodes| && hit == b.commits.nodes[k] && hit.value == message && hit in owner && owner[hit] == b &&
        forall i :: 0 <= i < k ==> b.commits.nodes[i].value != message
    {
      ghost var ns := b.commits.nodes;
      ListOf(b);
      var node := b.GetFirstCommit();
      stack', scanned', k := stack, scanned, 0;
      while node != null
        invariant Walking(root, stack', done, scanned', b, ns, k)
        invariant node == if k < |ns| then ns[k] else null
        invariant forall m :: m in scanned' ==> m.value != message
        decreases |ns| - k
      {
        if node.value == message {
          CommitAt(b, k);
          return stack', scanned', node, k;
        }
        ghost var stack0, scanned0 := stack', scanned';
        if node.childrenBranch != null {
          stack' := stack' + [node.childrenBranch];
        }
        scanned' := scanned' + {node};
        Advance(root, stack0, stack', done, scanned0, scanned', b, ns, k);
        node := node.next;
        k := k + 1;
      }
      FinishWalk(root, stack', done, scanned', b, ns);
      hit := null;
    }

    /** Looks for a commit holding `message` in `root` and the branches
        forked off it, by a depth-first walk with an explicit stack; answers
        the first such commit of the branch it is found in, with that branch. */
    method FindCommit(root: GitBranch, message: string) returns (r: Option<(GitBranch, Node<string>)>)
      requires Tree() && root in branches
      ensures r.Some? ==> r.value.0 in branches && Descends(r.value.0, root) && FirstCommit(r.value.0, r.value.1, message)
      ensures r.None? ==> forall n :: n in owner && Descends(owner[n], root) ==> n.value != message
    {
      var nextTrees: seq<GitBranch> := [root];
      ghost var done: set<GitBranch> := {};
      ghost var scanned: set<Node<string>> := {};
      while nextTrees != []
        invariant Frontier(root, nextTrees, done, scanned) && Swept(done, scanned)
        invariant forall m :: m in scanned ==> m.value != message
        decreases branches - done
      {
        var b := nextTrees[|nextTrees| - 1];
        ghost var stack := nextTrees;
        nextTrees := nextTrees[..|nextTrees| - 1];
        StartWalk(root, stack, nextTrees, done, scanned, b, b.commits.nodes);
        done := done + {b};
        var hit;
        ghost var k;
        nextTrees, scanned, hit, k := ScanCommits(root, b, nextTrees, done, scanned, message);
        if hit != null {
          FirstHolding(b.commits.nodes, k, message);
          return Some((b, hit));
        }
      }
      Exhausted(root, done, scanned);
      return None;
    }

    /** Moves to the first commit holding `message` that the search from
        `start` meets, and to its branch; refused when no commit holds it.
        The visited branches are kept. */
    method CheckoutCommit(message: string) returns (r: Outcome)
      requires Valid()
      modifies this`currentBranch, this`selectedCommit
      ensures Valid()
      ensures r.Failed? <==> forall n :: n in owner ==> n.value != message
      ensures r.Failed? ==>
        r.error == NoSuchCommit && currentBranch == old(currentBranch) && selectedCommit == old(selectedCommit)
      ensures r == Done ==> selectedCommit != null && FirstCommit(currentBranch, selectedCommit, message)
    {
      var existing := FindCommit(start, message);
      if existing.Some? {
        currentBranch := existing.value.0;
        selectedCommit := existing.value.1;
        TreeKept();
        return Done;
      }
      AllFromStart();
      return Failed(NoSuchCommit);
    }

    /** Moves to branch `b`, at its last commit, and forgets the visited
        branches. */
    method MoveToBranch(b: GitBranch)
      requires Valid() && b in branches
      modifies this`currentBranch, this`selectedCommit, this`visitedBranches
      ensures Valid()
      ensures currentBranch == b && selectedCommit == b.commits.tail && visitedBranches == {}
    {
      EndsInBranch(b);
      ListOf(b);
      currentBranch := b;
      selectedCommit := b.GetLastCommit();
      visitedBranches := {};
      TreeKept();
    }

    /** Forks a new, empty branch called `name` off the commit `p`, which
        has no branch forked off it yet, and records it in the tree. */
    method Graft(p: Node<string>, name: string)
      requires Tree() && p in owner && p.childrenBranch == null
      requires forall b :: b in branches ==> b.name != name
      modifies this`branches, this`lists, this`depth, this`Repr, p`childrenBranch
      ensures Tree()
      ensures var b := p.childrenBranch;
        b != null && fresh(b) && b.name == name && b.parentNode == p && b.commits.nodes == [] &&
        b.commits.head == null && branches == old(branches) + {b}
    {
      p.childrenBranch := new GitBranch(name, p);
      ghost var b := p.childrenBranch;
      branches := branches + {b};
      lists := lists[b.commits := b];
      depth := depth[b := depth[owner[p]] + 1];
      Repr := Repr + {b, b.commits};
      GraftKeepsTree(p, b);
    }

    /** Forks a new, empty branch called `name` off the cursor, which has no
        branch forked off it yet, and moves to it with an empty cursor and no
        visited branches. */
    method Fork(name: string)
      requires Valid() && selectedCommit != null && selectedCommit.childrenBranch == null
      requires forall b :: b in branches ==> b.name != name
      modifies this`currentBranch, this`selectedCommit, this`visitedBranches, this`branches, this`lists,
        this`depth, this`Repr, selectedCommit`childrenBranch
      ensures Valid()
      ensures fresh(currentBranch) && currentBranch.name == name && currentBranch.commits.nodes == []
      ensures currentBranch.parentNode == old(selectedCommit) && old(selectedCommit).childrenBranch == currentBranch
      ensures selectedCommit == null && visitedBranches == {}
      ensures branches == old(branches) + {currentBranch}
    {
      Graft(selectedCommit, name);
      label grafted:
      currentBranch := selectedCommit.childrenBranch;
      selectedCommit := selectedCommit.childrenBranch.commits.head;
      visitedBranches := {};
      TreeKept@grafted();
    }

    /** Moves to the branch called `name`, at its last commit, when there is
        one; otherwise forks a new, empty branch called `name` off the
        cursor and moves to it, with an empty cursor. A fork is refused when
        the cursor is empty or already has a branch forked off it. Every
        successful checkout forgets the visited branches. */
    method CheckoutBranch(name: string) returns (r: Outcome)
      requires Valid()
      modifies this`currentBranch, this`selectedCommit, this`visitedBranches, this`branches, this`lists,
        this`depth, this`Repr, if selectedCommit != null then {selectedCommit} else {}
      ensures Valid()
      ensures (exists b :: b in old(branches) && b.name == name) ==>
        r == Done && currentBranch in old(branches) && currentBranch.name == name &&
        selectedCommit == currentBranch.commits.tail && visitedBranches == {} && branches == old(branches)
      ensures (forall b :: b in old(branches) ==> b.name != name) && old(selectedCommit) == null ==>
        r == Failed(EmptyCommit) && unchanged(this)
      ensures ((forall b :: b in old(branches) ==> b.name != name) && old(selectedCommit) != null &&
               old(selectedCommit.childrenBranch) != null) ==>
        r == Failed(BranchExists) && unchanged(this) && unchanged(old(selectedCommit))
      ensures ((forall b :: b in old(branches) ==> b.name != name) && old(selectedCommit) != null &&
               old(selectedCommit.childrenBranch) == null) ==>
        r == Done && fresh(currentBranch) && currentBranch.name == name &&
        currentBranch.parentNode == old(selectedCommit) && old(selectedCommit).childrenBranch == currentBranch &&
        currentBranch.commits.nodes == [] && selectedCommit == null && visitedBranches == {} &&
        branches == old(branches) + {currentBranch}
    {
      var existing := FindBranch(start, name);
      if existing != null {
        MoveToBranch(existing);
        return Done;
      }
      AllFromStart();
      if selectedCommit == null {
        return Failed(EmptyCommit);
      }
      if selectedCommit.childrenBranch == null {
        Fork(name);
        return Done;
      } else {
        return Failed(BranchExists);
      }
    }
  }
}
