# A verified model of a doubly linked list and a Git-like commit timeline

The modelled program (`main.py`) has two layers, which the model keeps:

- **A doubly linked list without sentinel nodes** (`DLL`). It tracks `head`, `tail` and `size` and supports:
  - push and pop at either end;
  - conversion from and to a plain list;
  - search for the first or all nodes holding a value;
  - removal of one node, of the first occurrence of a value, and of all occurrences;
  - in-place reversal.
- **A small version-control engine** (`Git`) built on that list:
  - a *branch* (`GitBranch`) is a list of commit messages with a name and, for every branch but `main`, the commit it was forked from;
  - every commit node can carry one branch forked off it (`childrenBranch`);
  - the engine keeps the `start` branch, the current branch, a cursor (the selected commit) and the set of branches left behind by backward moves;
  - it commits, moves the cursor backwards and forwards, checks out a commit by message or a branch by name, and forks new branches;
  - its searches walk the tree of branches depth-first with an explicit stack.

The Dafny project has three modules:

- **`Seqs`** (`seqs.dfy`): value-level specifications, with their lemmas:
  - counting;
  - first occurrence;
  - removal of the first occurrence;
  - removal of every occurrence;
  - reversal.
- **`Timeline`** (`timeline.dfy`): `Node`, `DLL` and `GitBranch` as classes over the heap.
  - Each list carries a ghost sequence `nodes` of its cells from head to tail.
  - The invariant `Valid()` ties `head`, `tail`, `size` and every `next`/`prev` link to that sequence.
  - Every list method is proved against `Contents()` (the values of `nodes`) and against `nodes` itself.
- **`GitEngine`** (`git.dfy`): the `Git` class. It carries ghost state for the tree:
  - the set of branches;
  - the branch that owns each commit node;
  - the branch of each list;
  - the depth of each branch below `start`.

  Its invariant `Valid()` states the following:
  - every branch but `start` forks off a commit of a shallower branch;
  - fork points and child branches point at each other;
  - every node belongs to exactly one branch;
  - every branch's list is well formed;
  - names identify branches;
  - the current branch, the cursor and the visited branches are taken from the tree.

Modelling decisions:

- **Branches.** In the source, `GitBranch` inherits from `DLL`. The model gives it a `const commits: DLL<string>` instead. Its name, fork point and node values are `const`, because the source never reassigns them.
- **Exceptions.** The source raises an exception for a refused operation. Those operations return an `Outcome` here: `Done` or `Failed(error)`. Every `Failed` outcome is proved to leave the state as it was.
- **Node searches.** `_find_nodes` returns three different kinds of value. The model returns them as the datatype `NodeMatch`:
  - `NoMatch` for Python `None`;
  - `First(node)` for the single node;
  - `All(nodes)` for the list.
- **Return values.** Where `find` returns `None` and `remove` returns a bare `return`, the model returns `null` and `None`.
- **Source over docstrings.** Two docstrings disagree with the code, and the model follows the code in both cases:
  - the docstring of `find` promises an empty list when nothing is found, but the code returns `None` from `_find_nodes`;
  - the docstring of `find_all` promises `None`, but the code returns `[]`.

Behaviours modelled as written:

- **`commit` uses the plain list push.** It calls `DLL.push`, not `GitBranch.push_commit`, so a new branch's first commit is not linked to its fork point.
- **`commit` can leave the cursor empty.** After a cursor moves back onto a fork point that is its own branch's tail, `selected_commit.next` is `None`. `commit` then appends to the current branch and sets the cursor to that fork point's `next`, which is `None` (`AppendAfterCursor`).
- **`forward` re-enters through the head.** When the cursor is a fork point whose branch was left by a backward move, `forward` selects the head of the *current* branch, as the code reads (`Forward`).
- **Part of `forward` is unreachable.** The last branch of `forward` (source lines 428-433) cannot be reached, because the first test in the method already returns at the tail. The model keeps that branch as a dead `assert false`.
- **`remove` on an empty list.** It returns nothing; the model returns `None`, distinct from `Some(false)`.
- **Visited branches.** `checkout_commit` keeps the visited branches; `checkout_branch` clears them.
- **`backwards` and `forward` stay on the current branch.** Neither changes `current_branch`.

## Model

| member | source | states |
|---|---|---|
| Timeline.Node.constructor | main.py:14-28 | the new node holds the given value and links and has no branch forked off it |
| Timeline.DLL.constructor | main.py:48-55 | a new list is well formed and empty |
| Timeline.DLL.Empty | main.py:81-87 | the answer is true exactly when the list holds no values |
| Timeline.DLL.Push | main.py:89-114 | the list stays well formed and grows by one fresh node holding `val`, at the tail when `back` and at the head otherwise; the values become `old + [val]` or `[val] + old`; no other node's forked branch changes |
| Timeline.DLL.LinkOnly | main.py:100-102 | on an empty list the new node becomes the only node |
| Timeline.DLL.LinkBack | main.py:104-107 | the new node is linked after the old tail; the head is kept |
| Timeline.DLL.LinkFront | main.py:109-112 | the new node is linked before the old head |
| Timeline.DLL.Pop | main.py:116-139 | an empty list is left alone; otherwise the last (or first) node is unlinked, `size` drops by one and the values lose their last (or first) element; only `next`/`prev` links are written and no node's forked branch changes |
| Timeline.DLL.ListToDll | main.py:141-153 | after emptying the list and pushing every element, the values are exactly `source` and `size == \|source\|`, all in fresh nodes; the old nodes keep their forked branches |
| Timeline.DLL.DllToList | main.py:155-168 | the returned list is the values from head to tail |
| Timeline.DLL.FindNodes | main.py:170-190 | no node holds `val` gives `NoMatch`; with `findFirst`, `First` of the node at the first position of `val`; otherwise `All` of exactly the nodes holding `val`, in list order |
| Timeline.DLL.Find | main.py:192-200 | `null` exactly when `val` is absent; otherwise the first node holding `val` |
| Timeline.DLL.FindAll | main.py:202-210 | as many nodes as occurrences of `val`; a node is returned exactly when it is in the list and holds `val`; returned nodes keep list order |
| Timeline.MatchingNodesMembers | main.py:179-188 | the collected nodes are exactly the list's nodes holding the value |
| Timeline.MatchingNodesCount | main.py:179-188 | there are as many collected nodes as occurrences of the value |
| Timeline.MatchingNodesOrdered | main.py:179-188 | in a list without repeated nodes the collected nodes appear in list order |
| Timeline.DLL.RemoveNode | main.py:212-242 | an empty list is left alone; otherwise exactly the given node is unlinked, the list stays well formed and the values lose the element at that node's position; no node's forked branch changes |
| Timeline.DLL.UnlinkHead | main.py:223-228 | unlinking the head keeps the list well formed and drops its first node |
| Timeline.DLL.UnlinkTail | main.py:230-235 | unlinking the tail of a list of two or more drops its last node |
| Timeline.DLL.UnlinkInner | main.py:236-240 | bridging an inner node's neighbours drops exactly that node |
| Timeline.DLL.Remove | main.py:244-263 | `None` on an empty list, otherwise `Some(val in old values)`; the values become those with the first `val` removed and the nodes lose exactly the first node holding `val`; no node's forked branch changes |
| Seqs.RemoveFirstOccurrence | main.py:244-263 | removing the first occurrence of a present value lowers its count by one, shortens the sequence by one and keeps the other values in order |
| Timeline.DLL.RemoveAll | main.py:266-277 | the answer is the number of occurrences of `val`; the remaining nodes are exactly the old ones not holding `val`, in order, and the values are the old values without `val`; only `next`/`prev` links of the list's nodes are written |
| Timeline.RemovedOnce | main.py:275-276 | one successful round removes one occurrence and keeps every other node and value |
| Timeline.NoneLeft | main.py:275 | when the value is absent no node is left to remove and its count is zero |
| Timeline.OtherNodesValues | main.py:266-277 | the values of the nodes not holding `v` are the values without `v` |
| Seqs.CountPositive | main.py:266-277 | a value is counted exactly when it occurs, so the loop stops with none left |
| Seqs.WithoutMembers | main.py:266-277 | after removing all occurrences the value no longer occurs and every other value is kept |
| Timeline.DLL.Reverse | main.py:279-297 | the nodes are in reverse order, the values are reversed, head and tail are swapped and the list stays well formed; no node's forked branch changes |
| Timeline.DLL.ReversedChain | main.py:290-297 | the swapped links form the reversed chain |
| Seqs.ReverseReverse | main.py:279-297 | reversing twice restores the sequence, so a second reversal undoes the first |
| Timeline.GitBranch.constructor | main.py:302-305 | a new branch has the given name and fork point and an empty, well-formed list |
| Timeline.GitBranch.PushCommit | main.py:307-325 | the branch gains one fresh tail node holding `value`; the first commit's `prev` is the fork point and the fork point's `next` becomes that commit; later commits follow the old tail; the fork point keeps its `prev` and forked branch, and its `next` unless it is the first commit's; the old commits keep their `prev`, their forked branches and, all but the old tail, their `next` |
| Timeline.GitBranch.GetFirstCommit | main.py:327-332 | `null` exactly on an empty branch, otherwise its first node |
| Timeline.GitBranch.GetLastCommit | main.py:334-339 | `null` exactly on an empty branch, otherwise its last node, which has no `next` |
| GitEngine.Git.constructor | main.py:345-354 | the engine starts with one empty branch `main`, which is current, an empty cursor and no visited branches, and its invariant holds |
| GitEngine.Git.GetCurrentCommit | main.py:356-363 | a value exactly when a commit is selected, and that value is the message at the selected commit's own position in its branch |
| GitEngine.Git.GetCurrentBranchName | main.py:365-370 | the name returned belongs to the current branch and to no other branch |
| GitEngine.Git.Commit | main.py:372-386 | refused with `MiddleOfTimeline`, changing nothing, exactly when the cursor has a successor; otherwise one fresh commit holding `message` is appended to the current branch; the cursor becomes the branch head from an empty cursor, otherwise the cursor's new `next` (the new commit at the tail, `null` elsewhere); the invariant is kept |
| GitEngine.Git.AppendToCurrent | main.py:379-384 | the plain push appends a fresh node to the current branch and records it as that branch's commit, keeping the tree invariant |
| GitEngine.Git.AppendFromEmptyCursor | main.py:379-381 | from an empty cursor the cursor becomes the current branch's head |
| GitEngine.Git.AppendAfterCursor | main.py:382-384 | from a cursor without successor the cursor becomes the new commit when it was the tail, and `null` otherwise |
| GitEngine.Git.OffCurrentList | main.py:382-384 | a cursor without successor that is not the current branch's tail is not in the current branch |
| GitEngine.Git.Backwards | main.py:388-407 | every branch of the source: no move from the empty cursor on `main`; from the empty cursor or the head of a forked branch the cursor moves to the fork point and the branch is recorded as visited; otherwise it moves along `prev` to the commit one position earlier in its branch; the current branch and the tree are unchanged; a move to the fork point goes to a shallower branch |
| GitEngine.Git.Forward | main.py:412-433 | no move from the empty cursor or the current tail; from a fork point whose branch is visited, the cursor goes to the current branch's head and the visited set swaps that branch for the current one; otherwise it moves along `next` to the commit one position later in its branch; the tree is unchanged |
| GitEngine.Git.FindBranch | main.py:485-503 | a found branch has that name and lies below `root`; `null` only when no branch below `root` has that name |
| GitEngine.Git.PushChildren | main.py:498-502 | walking a branch's commits pushes every branch forked off them, so every commit of a finished branch has been walked |
| GitEngine.Git.Exhausted | main.py:494-503 | when the stack is empty every branch below `root` and every commit of those branches has been visited |
| GitEngine.Git.Covered | main.py:494-503 | a finished search has met each branch below `root`, by induction on depth |
| GitEngine.Git.FindCommit | main.py:505-523 | a found pair is a branch below `root` and the first commit of that branch holding `message`; `None` only when no commit below `root` holds it |
| GitEngine.Git.ScanCommits | main.py:516-522 | the walk stops at the first commit of the branch holding `message`, and none before it holds it; without a hit every commit was walked and every forked branch stacked |
| Timeline.FirstHolding | main.py:517-519 | a node that holds the message, with no earlier node holding it, is at the first position of the message among the values |
| GitEngine.Git.AllFromStart | main.py:445-463 | every branch, and so every commit, lies below `start`, so searches from `start` cover the whole tree |
| GitEngine.Git.FromStart | main.py:345-354 | each branch descends from `start`, by induction on depth |
| GitEngine.Git.DescendsDepth | main.py:485-523 | a branch below `a` is at least as deep as `a` |
| GitEngine.Git.CheckoutCommit | main.py:437-451 | refused with `NoSuchCommit`, changing nothing, exactly when no commit of the tree holds `message`; otherwise the current branch and cursor become a branch and its first commit holding `message`; visited branches are kept |
| GitEngine.Git.CheckoutBranch | main.py:453-483 | an existing name moves to that branch at its last commit and clears the visited branches; with no such branch it is refused with `EmptyCommit` on an empty cursor, or with `BranchExists` when a branch is already forked off the cursor, changing nothing; otherwise a fresh empty branch of that name is forked off the cursor and becomes current, with an empty cursor and no visited branches |
| GitEngine.Git.MoveToBranch | main.py:466-470 | the branch becomes current with the cursor at its last commit and no visited branches |
| GitEngine.Git.Fork | main.py:476-480 | a fresh empty branch forked off the cursor becomes current, the cursor is emptied and the visited set cleared, the invariant is kept |
| GitEngine.Git.Graft | main.py:477 | the new branch is linked to its fork point both ways and added to the tree, and the tree invariant is kept |
| GitEngine.Git.GraftKeepsTree | main.py:477 | forking a fresh empty branch off a commit with no child keeps the tree invariant |
| GitEngine.Git.AppendKeepsTree | main.py:379-384 | appending a fresh commit to one branch keeps the tree invariant |

## Left out

- String forms of nodes and lists (`__repr__`, `__str__`): presentation only.
- The text of the exceptions: a refused operation is reported by an error value (`GitError`), not by its message.
- Python's hashing of branches in `visited_branches`: modelled as a mathematical set of objects, compared by identity as Python's default `__hash__` and `__eq__` do.
- The module's type variables and the test file: not part of the behaviour.
- DLL operations on values of any type use Dafny's equality on `T`. Python's `==` on user-defined values is not modelled.
- Timeline.DLL.RemoveNode: requires that the given node is in the list (or the list is empty). The source documents this precondition but does not check it. With a foreign node, the source would corrupt `size`.
- The scanning loop of `remove` is written with `item.value != val` in its guard instead of a return from inside the body. Both forms stop at the same node, so nothing is lost.
- Timeline.GitBranch.PushCommit: requires only the chain invariant without `head.prev == null`. When the branch has a fork point, the first commit's `prev` points at that fork point and not at `null`. No other operation of the engine calls it, since `commit` uses the plain push.
- GitEngine.Git.FindCommit: states that the answer is the first commit holding the message within the branch where it is found. It does not state which branch wins when several branches hold the message. That depends on the LIFO stack order, which is left unspecified.
- GitEngine.Git.CheckoutCommit: inherits the same gap from the search it calls. When several branches hold `message`, it does not state which of them becomes current. It states that the new current branch lies in the tree and that the cursor is that branch's first commit holding `message`.
- GitEngine.Git.FindBranch: likewise does not state the order in which branches are visited. Names are unique in the tree, so the answer does not depend on it.
- The inner loops of `find_branch`, `find_commit`, and the branches of `push` and `_remove_node`, are separate methods: `PushChildren`, `ScanCommits`, `LinkOnly`/`LinkBack`/`LinkFront` and `UnlinkHead`/`UnlinkTail`/`UnlinkInner`. Each takes the same steps as the inlined source.
