# Checkpoint tree, modelled in Dafny

This project models the `CheckpointTree` of `tree.py` and proves properties of
the model. The tree records one scalar result per training epoch. After each
insert it decides whether to continue the current lineage, branch from an
earlier epoch, or stop.

- **Nodes are addressed by paths.** A node's identity is a string over
  {'0','1'} that starts with "1". A "1" child continues the lineage and a "0"
  child is a branch.
- **The dictionary is keyed by `int(ID, 2)`.** A node's epoch is the length of
  its identity.
- **An insertion cursor moves down the "1" spine.** It is the pair `pos` and
  `old_key`.
- **A lineage ends at `tree_height`.** The run then completes, or it resumes
  from a branch point. To find the branch point, a pre-order walk picks a node
  and the run resumes from that node's parent, on the parent's "0" side.

## Files

- `addressing.dfy` (module `Addressing`) covers identities and keys:
  - `Key` is `int(s, 2)`;
  - `Parent` is `s[:-1]`;
  - the key bounds and key injectivity;
  - `Canonical`, the path that `find` follows.
- `nodes.dfy` (module `Nodes`) covers the nodes and the dictionary:
  - the `Node` record;
  - `WellFormed`, the dictionary invariant;
  - `Attach`, the dictionary after one insert;
  - lemmas that each insert preserves the invariant and is append-only.
- `traversal.dfy` (module `Traversal`) covers the walks:
  - `Preorder`, the pre-order list of a subtree, which is `preorder_traversal`;
  - `Scan`, the running choice of `traverse` folded over that list;
  - the lemmas about which node the walk selects.
- `checkpoint_tree.dfy` (module `Checkpointing`) holds the class
  `CheckpointTree`.
  - Its fields are those of the Python object.
  - Its operations are the constructor, `Find` (a loop), the recursive method
    `Traverse`, `FindBranchPoint`, `Insert` and `PreorderTraversal`.
  - `PlaceNode`, `EndLineage` and `OpenBranch` split `insert` into its
    consecutive parts.
  - The module also holds the lemmas for the state invariants and the status
    protocol.

## Modelling choices

- **The dictionary.** `tree` is a `map<int, Node>`. A child link is the
  `Option<int>` key of the child, not an object reference. `self.root` is the
  entry under key 1.
- **Values.** Values and diffs are `real`. The tree only subtracts and
  compares them.
- **Lookups.** `find` returns a `Lookup`: `Found(node)`, `NoneReturned` (the
  last link is missing) or `AttributeError`.
  - `AttributeError` means there is no root yet, or an earlier link is missing,
    so the code reads `None.left`.
  - Any symbol other than '1' is followed to the right, as the code does.
- **Insert outcomes.** `insert` returns an `Outcome`: `Returned(signal, key)`
  or `ValueError`.
  - The statuses 0, 1 and -1 are the constructors `Continue`, `NewBranch`
    and `Complete` of `Signal`.
  - `ValueError` is the exception that `int("", 2)` raises when the walk
    chooses no node.
  - The state after the error is the state the code leaves: `pos` is "0",
    `old_key` is unchanged, and the counter has already been incremented.
- **The running maximum stores the signed diff.** This follows `tree.py:96`.
  `Traversal.SignedStoredValue` exhibits a well-formed tree on which the
  walk chooses a node whose absolute diff is not the largest.
  `Traversal.FirstLargestWhenNonNegative` shows that without negative diffs
  the choice is the first node with the largest diff, and that nothing is
  chosen exactly when every eligible diff is 0.
- **The status history.** A ghost field `signals` records the statuses
  returned so far. It carries the run-level facts:
  - one status per node;
  - one `NewBranch` per recorded branch point;
  - at completion, exactly `tree_branches - 1` `NewBranch` statuses and at
    most `tree_height * tree_branches` inserts.

Places where the code behaves in a way one might not expect; the model
follows the code in each:

- **When the run completes.** The counter starts at 1 and is incremented
  when a lineage ends, so the run completes after `tree_branches` lineages
  in total, not after `tree_branches` lineages beyond the first
  (`tree.py:26`, `tree.py:70-72`).
  - So with `tree_height = 4` and `tree_branches = 1`, the fourth insert
    returns -1 (`Complete`). `Insert`'s contract states this case.
  - `tree_branches = 0` is excluded by the constructor's precondition.
- **When no node qualifies.** Nothing falls back to the root. The branch
  point becomes `"1"[:-1]`, the empty string, and `int("", 2)` raises
  (`tree.py:86-88`). The model returns `ValueError`.
- **The stored value.** The comparison uses the absolute diff, but the value
  stored for later comparisons is the signed diff (`tree.py:95-96`), as
  described above.
- **The constructor.** `__init__` checks neither size (`tree.py:20-29`). The
  model's constructor requires `tree_height >= 1` and `tree_branches >= 1`.

## Model

| member | source | states |
|---|---|---|
| `Addressing.Parent` | tree.py:86 | `s[:-1]` is the identity without its last symbol, and the parent of a non-root identity is an identity |
| `Addressing.KeyOfChild` | tree.py:45 | the key of a child is twice the parent's key plus the appended digit |
| `Addressing.KeyLength` | tree.py:45-46 | a key is at least 1, and its bit length is the epoch `len(ID)` |
| `Addressing.KeyBounds` | tree.py:45-46 | a node at epoch d has a key in [2^(d-1), 2^d) |
| `Addressing.KeyInjective` | tree.py:45 | distinct identities have distinct keys, so the dictionary never confuses two nodes |
| `Addressing.Canonical` | tree.py:33-37 | the path `find` follows: the leading symbol stands for the root, a later '1' goes left, anything else goes right; it is the identity itself for every identity |
| `Nodes.KeyedId` | tree.py:45-46 | the node stored under `int(s, 2)` has identity s and epoch `len(s)` |
| `Nodes.AncestorPresent` | tree.py:55-68 | every non-empty prefix of a stored identity is stored (the tree is closed under parents) |
| `Nodes.RootPresent` | tree.py:62-64 | a non-empty tree holds the root under key 1, with identity "1" and diff 0 |
| `Nodes.ChildLinks` | tree.py:57-60 | a left link leads to identity + "1" and a right link to identity + "0", one epoch deeper; only nodes above `tree_height` have children |
| `Nodes.AttachNewNodeOk` | tree.py:45-51 | the node an insert creates carries the value, identity `pos`, epoch `len(pos)` no deeper than `tree_height`, the lineage counter and no children; the root's diff is 0 and any other node's diff is its value minus its parent's value |
| `Nodes.Attach` | tree.py:55-64 | append-only insert: exactly one new key; no other node changes its data; only the previous node changes, gaining the link on the new node's side |
| `Nodes.AttachWellFormed` | tree.py:44-64 | an insert at a fresh cursor under its parent keeps the dictionary well formed (identities, keys, epochs, diffs, links) and adds exactly one entry |
| `Nodes.AttachChildKey` | tree.py:55-60 | after an insert, a link towards an identity is present exactly when it was before or the identity is the new one |
| `Nodes.ParentLinks` | tree.py:57-60 | the previous node gets `left` when `pos` ends in "1" and `right` otherwise, and keeps the other link |
| `Nodes.OtherLinks` | tree.py:55-64 | every other node keeps its links |
| `Nodes.KeyChildrenAbsent` | tree.py:45-55 | a fresh identity has no stored children |
| `Traversal.PreorderSound` | tree.py:103-110 | the pre-order list of a subtree starts with its root and lists only stored nodes of that subtree |
| `Traversal.PreorderComplete` | tree.py:103-110 | the pre-order list of a subtree reaches every stored node under it |
| `Traversal.PreorderDistinct` | tree.py:103-110 | the pre-order list has no repeated identity |
| `Traversal.DescendantSide` | tree.py:107-108 | a proper descendant lies under the child on its side, and that child link is present |
| `Traversal.ScanAppend` | tree.py:99-101 | walking the left part, then the right part, is walking their concatenation |
| `Traversal.ScanUnchanged` | tree.py:95 | when no eligible node's absolute diff exceeds the stored value, the choice is unchanged |
| `Traversal.ScanLast` | tree.py:95-97 | the walk's result is the initial choice, with no eligible node beating it, or the choice of the last node that replaced it |
| `Traversal.ScanBoundsNonNegative` | tree.py:95-97 | with non-negative diffs the stored value never decreases and ends at least every eligible diff |
| `Traversal.FirstLargestWhenNonNegative` | tree.py:93-97 | with non-negative diffs nothing is chosen exactly when every eligible diff is 0; otherwise the chosen node has the largest eligible diff, and every earlier eligible node has a strictly smaller one (earlier nodes win ties) |
| `Traversal.NothingChosenWhenNonNegative` | tree.py:93-97 | with non-negative diffs the walk keeps its initial choice iff every eligible diff is 0 |
| `Traversal.SignedStoredValue` | tree.py:95-96 | on a well-formed three-node tree (root, "11" with diff -0.5, "10" with diff 0.3), the pre-order walk chooses "10" although "11" has the larger absolute diff, because the stored value is the signed diff |
| `Traversal.ScanFromRoot` | tree.py:83-97 | starting from (0.0, "1") over a walk that begins at the root, the choice stays initial iff no eligible node has a non-zero diff, and otherwise ends on an eligible node other than the root |
| `Traversal.NoneBeatsTree` | tree.py:93-97 | over the whole tree, no eligible node beats 0.0 exactly when every eligible node has diff 0 |
| `Traversal.BranchPointChoice` | tree.py:83-97 | the walk keeps "1" iff every eligible node has diff 0; otherwise it chooses a stored, eligible, non-root node whose signed diff is the stored value |
| `Checkpointing.ContinueInsertable` | tree.py:67-68 | after an insert above `tree_height`, the cursor `pos + "1"` is fresh and hangs under the node just inserted |
| `Checkpointing.ZeroChildUsed` | tree.py:74-75 | a node exists on the "0" side of s only once s is a recorded branch point |
| `Checkpointing.AttachBranchPointsOk` | tree.py:55-64 | an insert keeps every "0"-side node under a recorded branch point |
| `Checkpointing.BranchInsertable` | tree.py:73-75 | the chosen branch point is new, and resuming at `bp + "0"` is a fresh cursor under `bp`, shallower than `tree_height`; the record stays consistent once it is appended |
| `Checkpointing.ChosenParent` | tree.py:86 | the parent of the chosen node is a stored identity, shallower than `tree_height - 1`, and not yet a branch point |
| `Checkpointing.ZeroSideInsertable` | tree.py:87-88 | the "0" side of a node that was never a branch point is a fresh cursor under it |
| `Checkpointing.AddBranchPoint` | tree.py:75 | appending a new interior node to `branch_pos` keeps the branch-point record consistent |
| `Checkpointing.ChoiceHasParent` | tree.py:86-88 | the branch point is non-empty (so `int` succeeds) exactly when the walk chose a node |
| `Checkpointing.InsertAttaches` | tree.py:44-64 | from a valid state, an insert keeps the tree well formed and its branch-point record consistent, adds one node, and stores every node with a lineage number between 1 and the counter |
| `Checkpointing.InsertContinues` | tree.py:67-77 | an insert above `tree_height` moves the cursor to `pos + "1"` with status 0 and leaves a valid state |
| `Checkpointing.InsertEndsLineage` | tree.py:70-71 | an insert at `tree_height` ends the lineage, counted by the incremented counter |
| `Checkpointing.InsertCompletes` | tree.py:71-72 | at completion, exactly `tree_branches - 1` branches were opened and at most `tree_height * tree_branches` epochs were inserted |
| `Checkpointing.InsertBranches` | tree.py:73-76 | a chosen branch point becomes a new entry of `branch_pos`, the cursor moves to `bp + "0"`, and the state is valid for the next lineage |
| `Checkpointing.CheckpointTree.constructor` | tree.py:20-29 | an empty tree, cursor "1", no previous key, counter 1, no branch points, and a valid state |
| `Checkpointing.CheckpointTree.PreorderTraversal` | tree.py:103-110 | the root first, then every stored node exactly once |
| `Checkpointing.CheckpointTree.Find` | tree.py:31-39 | returns the node of the followed path when it is stored, None when only the last link is missing, and raises when the root or an earlier link is missing; `find(n.ID)` returns n for every stored node |
| `Checkpointing.CheckpointTree.FollowLink` | tree.py:34-37 | one step of `find` moves from the node of a prefix to the node of the next longer prefix, if any |
| `Checkpointing.CheckpointTree.Traverse` | tree.py:90-101 | the running choice after `traverse(node)` is the fold of the update rule over the subtree's pre-order list |
| `Checkpointing.CheckpointTree.FindBranchPoint` | tree.py:80-88 | the choice fields hold the walk's result, the branch point is its parent, and `pos` is the branch point plus "0"; `old_key` is the branch point's key, or an empty branch point raises |
| `Checkpointing.CheckpointTree.PlaceNode` | tree.py:44-68 | the dictionary becomes `Attach` of the old one, and the cursor moves to `pos + "1"` under the new key |
| `Checkpointing.CheckpointTree.Insert` | tree.py:41-77 | status 0 below `tree_height` with the cursor on the "1" child and a valid state; with status 0 or -1, `max_absolute_delta`, `max_absolute_delta_pos` and `branch_point` are untouched; at `tree_height` the counter moves on, then -1 when it reaches `tree_branches + 1` (consistent state, exactly `tree_branches - 1` branches, at most `tree_height * tree_branches` inserts), else 1 with a new branch point and a valid state, or `ValueError` when the walk chose nothing |
| `Checkpointing.CheckpointTree.EndLineage` | tree.py:70-77 | counts the lineage, then reports completion with a consistent state and the choice fields untouched, or opens a branch |
| `Checkpointing.CheckpointTree.OpenBranch` | tree.py:73-76 | runs the branch-point walk; a chosen node's parent is appended to `branch_pos` and status 1 is returned, otherwise `ValueError` |

## Left out

- Plotting (`print_tree` and `print_3d_tree`, `tree.py:112-204`), the console
  `print` in `insert` and the `__main__` demo are presentational only.
- `checkpointer.py`, `main.py` and `training.py` are not part of this model.
  They are torch I/O, data loading and the training loop.
- The fields `complete` and `branch_nodes` are left out. `branch_nodes`
  records `find(branch_point)` for plotting only.
- Floating-point rounding in `value - parent.val` is not modelled. Values are
  reals.
- Behaviour after an insert returns `Complete` or raises `ValueError` is not
  modelled. `Insert` requires the valid state that neither outcome
  re-establishes.
- Object identity and aliasing of `Node` objects are replaced by keys into
  the dictionary.
- `Checkpointing.CheckpointTree.constructor`: requires
  `tree_height >= 1 and tree_branches >= 1`, because the code validates
  neither size and other values make the status protocol meaningless.
- `Checkpointing.CheckpointTree.PreorderTraversal`: requires a root. On an
  empty tree the code raises `AttributeError` (`self.root` is unset), which is
  not modelled.
- `Checkpointing.CheckpointTree.Find` takes `pos` as a string. Non-string
  arguments are not modelled.
