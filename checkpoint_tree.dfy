/** The checkpoint tree: one node per training epoch, and after each insert
    the decision to continue the lineage, branch, or stop.

    The insertion cursor pos runs down the "1" spine from the root. When a
    lineage reaches tree_height the tree either completes (after
    tree_branches lineages in total) or resumes from the parent of the node
    chosen by the branch-point walk, on that parent's "0" side.
 */
module Checkpointing {
  import opened Addressing
  import opened Nodes
  import opened Traversal

  /** The status insert returns: 0 keep training, 1 new branch, -1 complete. */
  datatype Signal = Continue | NewBranch | Complete

  /** What a call of insert does: return (status, key), or raise ValueError
      from int("", 2) when the walk finds no branch point. */
  datatype Outcome = Returned(signal: Signal, key: int) | ValueError

  /** What a call of find does: return a node, return None (the last link is
      missing), or raise AttributeError (None.left, or no root yet). */
  datatype Lookup = Found(node: Node) | NoneReturned | AttributeError

  ghost function CountOf(s: seq<Signal>, x: Signal): nat {
    if s == [] then 0 else CountOf(s[..|s| - 1], x) + (if s[|s| - 1] == x then 1 else 0)
  }

  /** The recorded branch points are distinct interior nodes of the tree, and
      every node on a "0" side hangs under a recorded branch point. */
  ghost predicate BranchPointsOk(t: map<int, Node>, h: int, used: seq<string>) {
    && (forall i :: 0 <= i < |used| ==> IsNodeId(used[i]) && Key(used[i]) in t && |used[i]| + 1 < h)
    && (forall i, j :: 0 <= i < j < |used| ==> used[i] != used[j])
    && (forall k {:trigger UnderBranchPoint(t, used, k)} :: k in t ==> UnderBranchPoint(t, used, k))
  }

  /** A node on a "0" side hangs under a recorded branch point. */
  ghost predicate UnderBranchPoint(t: map<int, Node>, used: seq<string>, k: int)
    requires k in t
  {
    !EndsWithOne(t[k].id) ==> Parent(t[k].id) in used
  }

  /** The cursor after a continued lineage: the "1" child of the node just
      inserted, which is fresh. */
  lemma ContinueInsertable(t: map<int, Node>, h: int, pos: string, oldKey: Option<int>, value: real, branch: int)
    requires Insertable(t, h, pos, oldKey) && |pos| < h && Key(pos + "1") !in t
    ensures Insertable(Attach(t, pos, oldKey, value, branch), h, pos + "1", Some(Key(pos)))
  {
    var t' := Attach(t, pos, oldKey, value, branch);
    assert Key(pos) in t';
    NonEmpty(t', Key(pos));
    LeftChildId(pos);
  }

  /** The "1" child of an identity is an identity one deeper, with its own
      key, whose parent is the identity. */
  lemma LeftChildId(pos: string)
    requires IsNodeId(pos)
    ensures IsNodeId(pos + "1") && |pos + "1"| == |pos| + 1
    ensures Key(pos + "1") != Key(pos) && Parent(pos + "1") == pos
  {
    KeyLength(pos);
    KeyOfChild(pos, '1');
  }

  /** A map with an entry is not empty. */
  lemma NonEmpty(m: map<int, Node>, k: int)
    requires k in m
    ensures |m| != 0
  {
    assert k in m.Keys;
  }

  /** A node on the "0" side of s exists only once s is a recorded branch
      point. */
  lemma ZeroChildUsed(t: map<int, Node>, h: int, used: seq<string>, s: string)
    requires WellFormed(t, h) && BranchPointsOk(t, h, used) && IsNodeId(s)
    ensures Key(s + "0") in t ==> s in used
  {
    if Key(s + "0") in t {
      KeyedId(t, h, s + "0");
      assert UnderBranchPoint(t, used, Key(s + "0"));
    }
  }

  /** Attaching a node keeps the branch-point record consistent when a node
      on a "0" side is only attached under a recorded branch point. */
  lemma AttachBranchPointsOk(t: map<int, Node>, h: int, used: seq<string>, pos: string, oldKey: Option<int>, value: real, branch: int)
    requires WellFormed(t, h) && Insertable(t, h, pos, oldKey) && BranchPointsOk(t, h, used)
    requires !EndsWithOne(pos) ==> Parent(pos) in used
    ensures BranchPointsOk(Attach(t, pos, oldKey, value, branch), h, used)
  {
    var t' := Attach(t, pos, oldKey, value, branch);
    forall k | k in t'
      ensures UnderBranchPoint(t', used, k)
    {
      if k != Key(pos) {
        assert SameData(t'[k], t[k]);
        assert UnderBranchPoint(t, used, k);
      }
    }
  }

  /** Branch-point selection: when the walk finds a node, its parent bp was
      never a branch point, and resuming at bp + "0" is a fresh cursor no
      deeper than tree_height - 1 whose parent is bp. */
  lemma BranchInsertable(t: map<int, Node>, h: int, used: seq<string>)
    requires WellFormed(t, h) && 1 in t && BranchPointsOk(t, h, used)
    requires Scan(Preorder(t, h, 1), Start, h, used) != Start
    ensures var bp := Parent(Scan(Preorder(t, h, 1), Start, h, used).id);
      && bp != [] && bp !in used
      && Insertable(t, h, bp + "0", Some(Key(bp))) && |bp + "0"| < h
      && BranchPointsOk(t, h, used + [bp])
  {
    var bp := ChosenParent(t, h, used);
    ZeroSideInsertable(t, h, used, bp);
    AddBranchPoint(t, h, used, bp);
  }

  /** The parent of the chosen node is an interior node of the tree that was
      never a branch point. */
  lemma ChosenParent(t: map<int, Node>, h: int, used: seq<string>) returns (bp: string)
    requires WellFormed(t, h) && 1 in t
    requires Scan(Preorder(t, h, 1), Start, h, used) != Start
    ensures bp == Parent(Scan(Preorder(t, h, 1), Start, h, used).id)
    ensures IsNodeId(bp) && Key(bp) in t && |bp| + 1 < h && bp !in used
  {
    var w := Scan(Preorder(t, h, 1), Start, h, used);
    BranchPointChoice(t, h, used);
    assert NodeOk(t, h, Key(w.id));
    bp := Parent(w.id);
  }

  /** The "0" side of a node that was never a branch point is free. */
  lemma ZeroSideInsertable(t: map<int, Node>, h: int, used: seq<string>, bp: string)
    requires WellFormed(t, h) && BranchPointsOk(t, h, used)
    requires IsNodeId(bp) && Key(bp) in t && |bp| + 1 < h && bp !in used
    ensures Insertable(t, h, bp + "0", Some(Key(bp))) && |bp + "0"| < h
  {
    ZeroChildUsed(t, h, used, bp);
    assert Parent(bp + "0") == bp;
    assert |t| != 0 by {
      assert Key(bp) in t.Keys;
    }
  }

  /** Recording a new interior node as a branch point keeps the record
      consistent. */
  lemma AddBranchPoint(t: map<int, Node>, h: int, used: seq<string>, bp: string)
    requires BranchPointsOk(t, h, used)
    requires IsNodeId(bp) && Key(bp) in t && |bp| + 1 < h && bp !in used
    ensures BranchPointsOk(t, h, used + [bp])
  {
    forall k | k in t
      ensures UnderBranchPoint(t, used + [bp], k)
    {
      assert UnderBranchPoint(t, used, k);
    }
  }

  /** The walk chose a node exactly when the chosen identity has a parent. */
  lemma ChoiceHasParent(t: map<int, Node>, h: int, used: seq<string>)
    requires WellFormed(t, h) && 1 in t
    ensures var w := Scan(Preorder(t, h, 1), Start, h, used);
      Parent(w.id) != [] <==> w != Start
  {
    BranchPointChoice(t, h, used);
  }

  /** Every node's lineage number is between 1 and the counter. */
  ghost predicate BranchesUpTo(t: map<int, Node>, n: int) {
    forall k :: k in t ==> 1 <= t[k].branch <= n
  }

  /** The state every insert leaves behind, completion included: a well-formed
      tree, consistent branch points, one status per node, and one NewBranch
      status per branch point. */
  ghost predicate ConsistentState(t: map<int, Node>, h: int, b: int, n: int, used: seq<string>, sig: seq<Signal>) {
    && 1 <= h && 1 <= b
    && WellFormed(t, h)
    && BranchPointsOk(t, h, used)
    && 1 <= n
    && BranchesUpTo(t, n)
    && |sig| == |t.Keys|
    && CountOf(sig, NewBranch) == |used|
  }

  /** The state in which a further insert is allowed: before completion, with
      a fresh cursor, one branch point per finished lineage, and at most
      h inserts per lineage. */
  ghost predicate ValidState(t: map<int, Node>, h: int, b: int, pos: string, oldKey: Option<int>, n: int, used: seq<string>, sig: seq<Signal>) {
    && ConsistentState(t, h, b, n, used, sig)
    && Insertable(t, h, pos, oldKey)
    && (!EndsWithOne(pos) ==> Parent(pos) in used)
    && n <= b
    && |used| == n - 1
    && Complete !in sig
    && |sig| + h + 1 - |pos| <= h * n
  }

  /** Attaching at the cursor keeps the tree and its branch points
      consistent, adds one node, and leaves the root in place. */
  lemma InsertAttaches(t: map<int, Node>, h: int, b: int, pos: string, oldKey: Option<int>, n: int, used: seq<string>, sig: seq<Signal>, value: real)
    requires ValidState(t, h, b, pos, oldKey, n, used, sig)
    ensures var t' := Attach(t, pos, oldKey, value, n);
      && WellFormed(t', h) && |t'.Keys| == |t.Keys| + 1 && 1 in t'
      && BranchPointsOk(t', h, used) && BranchesUpTo(t', n)
  {
    var t' := Attach(t, pos, oldKey, value, n);
    AttachWellFormed(t, h, pos, oldKey, value, n);
    AttachBranchPointsOk(t, h, used, pos, oldKey, value, n);
    RootPresent(t', h, Key(pos));
    forall k | k in t'
      ensures 1 <= t'[k].branch <= n
    {
      if k != Key(pos) {
        assert SameData(t'[k], t[k]);
      }
    }
  }

  /** An insert above tree_height continues the lineage: the cursor moves to
      the "1" child of the new node and the state stays valid. */
  lemma InsertContinues(t: map<int, Node>, h: int, b: int, pos: string, oldKey: Option<int>, n: int, used: seq<string>, sig: seq<Signal>, value: real)
    requires ValidState(t, h, b, pos, oldKey, n, used, sig) && |pos| < h
    ensures ValidState(Attach(t, pos, oldKey, value, n), h, b, pos + "1", Some(Key(pos)), n, used, sig + [Continue])
  {
    InsertAttaches(t, h, b, pos, oldKey, n, used, sig, value);
    KeyChildrenAbsent(t, h, pos);
    ContinueInsertable(t, h, pos, oldKey, value, n);
    CountAppend(sig, Continue, NewBranch);
    CountAppend(sig, Continue, Complete);
    assert EndsWithOne(pos + "1");
  }

  /** The state right after the insert that ends a lineage and the count of
      lineages n that includes it: the tree is consistent with one more node
      than statuses, and the finished lineages used at most tree_height
      inserts each. */
  ghost predicate LineageEnded(t: map<int, Node>, h: int, b: int, n: int, used: seq<string>, sig: seq<Signal>) {
    && 1 <= h && 1 <= b
    && WellFormed(t, h) && 1 in t
    && BranchPointsOk(t, h, used)
    && 2 <= n <= b + 1
    && BranchesUpTo(t, n)
    && |sig| + 1 == |t.Keys|
    && CountOf(sig, NewBranch) == |used| && |used| == n - 2
    && Complete !in sig
    && |sig| + 1 <= h * (n - 1)
  }

  /** An insert at tree_height ends the lineage. */
  lemma InsertEndsLineage(t: map<int, Node>, h: int, b: int, pos: string, oldKey: Option<int>, n: int, used: seq<string>, sig: seq<Signal>, value: real)
    requires ValidState(t, h, b, pos, oldKey, n, used, sig) && |pos| == h
    ensures LineageEnded(Attach(t, pos, oldKey, value, n), h, b, n + 1, used, sig)
  {
    InsertAttaches(t, h, b, pos, oldKey, n, used, sig, value);
    var t' := Attach(t, pos, oldKey, value, n);
    assert BranchesUpTo(t', n + 1);
    assert h * ((n + 1) - 1) == h * n;
  }

  /** The last lineage ends the run: the state stays consistent, exactly
      tree_branches - 1 branches were opened, and at most
      tree_height * tree_branches epochs were inserted. */
  lemma InsertCompletes(t: map<int, Node>, h: int, b: int, n: int, used: seq<string>, sig: seq<Signal>)
    requires LineageEnded(t, h, b, n, used, sig) && n == b + 1
    ensures var sig' := sig + [Complete];
      && ConsistentState(t, h, b, n, used, sig')
      && CountOf(sig', NewBranch) == b - 1
      && |sig'| <= h * b
  {
    CountAppend(sig, Complete, NewBranch);
  }

  /** Opening a lineage: when the walk chooses a node, its parent bp becomes
      a new branch point, the cursor moves to bp + "0", and the state is
      valid for the next insert. */
  lemma InsertBranches(t: map<int, Node>, h: int, b: int, n: int, used: seq<string>, sig: seq<Signal>)
    requires LineageEnded(t, h, b, n, used, sig) && n <= b
    requires Scan(Preorder(t, h, 1), Start, h, used) != Start
    ensures var bp := Parent(Scan(Preorder(t, h, 1), Start, h, used).id);
      && bp != [] && bp !in used && |bp + "0"| < h
      && ValidState(t, h, b, bp + "0", Some(Key(bp)), n, used + [bp], sig + [NewBranch])
  {
    BranchInsertable(t, h, used);
    var bp := Parent(Scan(Preorder(t, h, 1), Start, h, used).id);
    CountAppend(sig, NewBranch, NewBranch);
    CountAppend(sig, NewBranch, Complete);
    assert Parent(bp + "0") == bp;
    assert h * n == h * (n - 1) + h;
  }

  class CheckpointTree {
    /** The dictionary from int(ID, 2) to node; the root is the entry under 1. */
    var tree: map<int, Node>
    const treeHeight: int
    const treeBranches: int
    /** The identity the next insert takes. */
    var pos: string
    /** The key of the node the next insert hangs under. */
    var oldKey: Option<int>
    /** The lineage counter. */
    var nBranches: int
    /** The branch points chosen so far, in order. */
    var branchPos: seq<string>
    var maxAbsoluteDelta: real
    var maxAbsoluteDeltaPos: string
    var branchPoint: string
    /** The statuses returned so far. */
    ghost var signals: seq<Signal>

    /** The state every call leaves behind, completion included. */
    ghost predicate Consistent()
      reads this
    {
      ConsistentState(tree, treeHeight, treeBranches, nBranches, branchPos, signals)
    }

    /** The state in which a further insert is allowed. */
    ghost predicate Valid()
      reads this
    {
      ValidState(tree, treeHeight, treeBranches, pos, oldKey, nBranches, branchPos, signals)
    }

    /** __init__: an empty tree, cursor "1", no previous key, counter 1. */
    constructor (treeHeight: int, treeBranches: int)
      requires treeHeight >= 1 && treeBranches >= 1
      ensures Valid()
      ensures this.treeHeight == treeHeight && this.treeBranches == treeBranches
      ensures tree == map[] && pos == "1" && oldKey == None && nBranches == 1 && branchPos == []
    {
      this.treeHeight := treeHeight;
      this.treeBranches := treeBranches;
      tree := map[];
      pos := "1";
      oldKey := None;
      nBranches := 1;
      branchPos := [];
      signals := [];
    }

    /** preorder_traversal(): every node of the tree exactly once, root first. */
    function PreorderTraversal(): (p: seq<Node>)
      reads this
      requires WellFormed(tree, treeHeight) && 1 in tree
      ensures |p| >= 1 && p[0] == tree[1]
      ensures forall k :: k in tree ==> tree[k] in p
      ensures forall i :: 0 <= i < |p| ==> Key(p[i].id) in tree && tree[Key(p[i].id)] == p[i]
      ensures forall i, j :: 0 <= i < j < |p| ==> p[i].id != p[j].id
    {
      PreorderSound(tree, treeHeight, 1);
      PreorderComplete(tree, treeHeight, 1);
      PreorderDistinct(tree, treeHeight, 1);
      RootPresent(tree, treeHeight, 1);
      assert forall k :: k in tree ==> tree[1].id <= tree[k].id by {
        forall k | k in tree
          ensures tree[1].id <= tree[k].id
        {
          assert NodeOk(tree, treeHeight, k);
          assert tree[k].id[..1] == "1";
        }
      }
      Preorder(tree, treeHeight, 1)
    }

    /** find(pos): descend from the root, "1" to the left and anything else
        to the right. The node of every inserted identity is found; a
        missing last link returns None; a missing earlier link, or an empty
        tree, raises. */
    method Find(id: string) returns (r: Lookup)
      requires WellFormed(tree, treeHeight)
      ensures var c := Canonical(id);
        && (Key(c) in tree ==> r == Found(tree[Key(c)]))
        && (Key(c) !in tree && |c| >= 2 && Key(Parent(c)) in tree ==> r == NoneReturned)
        && (Key(c) !in tree && (|c| == 1 || Key(Parent(c)) !in tree) ==> r == AttributeError)
      ensures IsNodeId(id) && Key(id) in tree ==> r == Found(tree[Key(id)]) && r.node.id == id
    {
      ghost var c := Canonical(id);
      if 1 !in tree {
        RootlessEmpty(c);
        return AttributeError;
      }
      RootLink(c);
      var node: Option<int> := Some(1);
      var i := 1;
      while i < |id|
        invariant 1 <= i <= |c|
        invariant node == ChildKey(tree, c[..i])
        invariant i >= 2 ==> Key(c[..i - 1]) in tree
      {
        if node.None? {
          PrefixMissing(c, i);
          return AttributeError;
        }
        FollowLink(c, i);
        if id[i] == '1' {
          node := tree[node.value].left;
        } else {
          node := tree[node.value].right;
        }
        i := i + 1;
      }
      LookupEnd(id, c, i);
      if node.Some? {
        r := Found(tree[node.value]);
      } else {
        r := NoneReturned;
      }
      if IsNodeId(id) && Key(id) in tree {
        KeyedId(tree, treeHeight, id);
      }
    }

    /** The walk starts at the root, the node of c's first symbol. */
    lemma RootLink(c: string)
      requires IsNodeId(c) && 1 in tree
      ensures ChildKey(tree, c[..1]) == Some(1)
    {
      assert c[..1] == "1";
      assert Key("1") == 1;
    }

    /** One step of the walk: the link taken from the node of c[..i] leads
        to the node of c[..i + 1], if any. */
    lemma FollowLink(c: string, i: int)
      requires WellFormed(tree, treeHeight) && IsNodeId(c) && 1 <= i < |c|
      requires Key(c[..i]) in tree
      ensures c[i] == '1' ==> tree[Key(c[..i])].left == ChildKey(tree, c[..i + 1])
      ensures c[i] != '1' ==> tree[Key(c[..i])].right == ChildKey(tree, c[..i + 1])
    {
      KeyedId(tree, treeHeight, c[..i]);
      assert NodeOk(tree, treeHeight, Key(c[..i]));
      assert c[..i + 1] == c[..i] + [c[i]];
      if c[i] == '1' {
        assert c[..i] + [c[i]] == c[..i] + "1";
      } else {
        assert c[i] == '0';
        assert c[..i] + [c[i]] == c[..i] + "0";
      }
    }

    /** When the walk has read every symbol it stands at c, whose parent it
        passed through. */
    lemma LookupEnd(id: string, c: string, i: int)
      requires c == Canonical(id) && 1 <= i <= |c| && i >= |id|
      requires i >= 2 ==> Key(c[..i - 1]) in tree
      ensures c[..i] == c
      ensures Key(c) !in tree && |c| >= 2 ==> Key(Parent(c)) in tree
    {
      if |c| >= 2 {
        assert c[..i - 1] == Parent(c);
      }
    }

    /** Without the root, nothing and no parent is in the tree. */
    lemma RootlessEmpty(c: string)
      requires WellFormed(tree, treeHeight) && IsNodeId(c) && 1 !in tree
      ensures Key(c) !in tree && (|c| >= 2 ==> Key(Parent(c)) !in tree)
    {
      assert c[..1] == "1" && Key("1") == 1;
      if |c| >= 2 {
        PrefixMissing(c, 1);
      } else if Key(c) in tree {
        RootPresent(tree, treeHeight, Key(c));
      }
    }

    /** When a link on the way to c is missing, neither c nor its parent is
        in the tree. */
    lemma PrefixMissing(c: string, i: int)
      requires WellFormed(tree, treeHeight) && IsNodeId(c) && 1 <= i < |c|
      requires Key(c[..i]) !in tree
      ensures Key(c) !in tree && Key(Parent(c)) !in tree
    {
      if Key(c) in tree {
        KeyedId(tree, treeHeight, c);
        AncestorPresent(tree, treeHeight, Key(c), c[..i]);
      }
      if Key(Parent(c)) in tree {
        KeyedId(tree, treeHeight, Parent(c));
        AncestorPresent(tree, treeHeight, Key(Parent(c)), c[..i]);
      }
    }

    /** traverse(node): the pre-order walk of the node's subtree, updating the
        running choice. */
    method Traverse(k: int)
      requires WellFormed(tree, treeHeight) && k in tree
      modifies this`maxAbsoluteDelta, this`maxAbsoluteDeltaPos
      ensures Choice(maxAbsoluteDelta, maxAbsoluteDeltaPos)
        == Scan(Preorder(tree, treeHeight, k), old(Choice(maxAbsoluteDelta, maxAbsoluteDeltaPos)), treeHeight, branchPos)
      decreases treeHeight - tree[k].epoch
    {
      ghost var c0 := Choice(maxAbsoluteDelta, maxAbsoluteDeltaPos);
      var node := tree[k];
      ChildLinks(tree, treeHeight, k);
      ghost var l, r := LeftPart(tree, treeHeight, k), RightPart(tree, treeHeight, k);
      assert Preorder(tree, treeHeight, k) == [node] + l + r;
      ScanAppend([node] + l, r, c0, treeHeight, branchPos);
      ScanAppend([node], l, c0, treeHeight, branchPos);
      assert Scan([node], c0, treeHeight, branchPos) == Step(c0, node, treeHeight, branchPos) by {
        assert [node][1..] == [];
      }
      if node.epoch == treeHeight {
        assert l == [] && r == [];
        return;
      }
      if Abs(node.diff) > maxAbsoluteDelta && Parent(node.id) !in branchPos {
        maxAbsoluteDelta := node.diff;
        maxAbsoluteDeltaPos := node.id;
      }
      if node.left.Some? {
        Traverse(node.left.value);
      }
      if node.right.Some? {
        Traverse(node.right.value);
      }
    }

    /** find_branch_point(): walk the whole tree from the root and resume from
        the parent of the chosen node, on its "0" side. The cursor is reset
        before int(branch_point, 2) is evaluated, so when no node is chosen
        the cursor is "0" and ok is false (the ValueError). */
    method FindBranchPoint() returns (ok: bool)
      requires WellFormed(tree, treeHeight) && 1 in tree
      modifies this`maxAbsoluteDelta, this`maxAbsoluteDeltaPos, this`branchPoint, this`pos, this`oldKey
      ensures var w := Scan(Preorder(tree, treeHeight, 1), Start, treeHeight, branchPos);
        && maxAbsoluteDelta == w.best && maxAbsoluteDeltaPos == w.id
        && branchPoint == Parent(w.id) && pos == branchPoint + "0"
        && (ok <==> w != Start)
        && (ok ==> oldKey == Some(Key(branchPoint)))
        && (!ok ==> oldKey == old(oldKey))
    {
      maxAbsoluteDelta := 0.0;
      maxAbsoluteDeltaPos := "1";
      Traverse(1);
      ChoiceHasParent(tree, treeHeight, branchPos);
      branchPoint := Parent(maxAbsoluteDeltaPos);
      pos := branchPoint + "0";
      if branchPoint == [] {
        ok := false;
      } else {
        oldKey := Some(Key(branchPoint));
        ok := true;
      }
    }

    /** The first half of insert(value): the node for the cursor goes into
        the dictionary and is linked from its parent, and the cursor moves to
        its "1" child. */
    method PlaceNode(value: real) returns (key: int)
      requires oldKey.Some? ==> oldKey.value in tree
      requires |tree| != 0 ==> oldKey.Some? && oldKey.value != Key(pos)
      modifies this`tree, this`oldKey, this`pos
      ensures key == Key(old(pos))
      ensures tree == Attach(old(tree), old(pos), old(oldKey), value, nBranches)
      ensures oldKey == Some(key) && pos == old(pos) + "1"
    {
      key := Key(pos);
      var epoch := |pos|;
      var diff := if oldKey.None? then 0.0 else value - tree[oldKey.value].val;
      var node := Node(value, epoch, diff, pos, nBranches, None, None);
      ghost var t0 := tree;
      assert node == NewNode(t0, pos, oldKey, value, nBranches);
      if |tree| != 0 {
        tree := tree[key := node];
        var parent := tree[oldKey.value];
        if EndsWithOne(pos) {
          tree := tree[oldKey.value := parent.(left := Some(key))];
        } else {
          tree := tree[oldKey.value := parent.(right := Some(key))];
        }
      } else {
        tree := tree[key := node];
      }
      assert tree == Attach(t0, pos, oldKey, value, nBranches);
      oldKey := Some(key);
      pos := pos + "1";
    }

    /** insert(value): record the epoch's value at the cursor, then continue,
        complete, or branch. */
    method Insert(value: real) returns (r: Outcome)
      requires Valid()
      modifies this
      ensures tree == Attach(old(tree), old(pos), old(oldKey), value, old(nBranches))
      ensures WellFormed(tree, treeHeight) && |tree.Keys| == |old(tree).Keys| + 1 && 1 in tree
      ensures r.Returned? ==> r.key == Key(old(pos))
      ensures |old(pos)| < treeHeight ==>
        && r == Returned(Continue, Key(old(pos)))
        && pos == old(pos) + "1" && oldKey == Some(Key(old(pos)))
        && nBranches == old(nBranches) && branchPos == old(branchPos)
        && signals == old(signals) + [Continue]
        && Valid()
      ensures |old(pos)| == treeHeight ==> nBranches == old(nBranches) + 1
      ensures |old(pos)| < treeHeight || nBranches == treeBranches + 1 ==>
        unchanged(this`maxAbsoluteDelta, this`maxAbsoluteDeltaPos, this`branchPoint)
      ensures |old(pos)| == treeHeight && nBranches == treeBranches + 1 ==>
        && r == Returned(Complete, Key(old(pos)))
        && pos == old(pos) + "1" && oldKey == Some(Key(old(pos))) && branchPos == old(branchPos)
        && signals == old(signals) + [Complete]
        && Consistent()
        && CountOf(signals, NewBranch) == treeBranches - 1
        && |signals| <= treeHeight * treeBranches
      ensures |old(pos)| == treeHeight && nBranches <= treeBranches ==>
        var w := Scan(Preorder(tree, treeHeight, 1), Start, treeHeight, old(branchPos));
        && maxAbsoluteDelta == w.best && maxAbsoluteDeltaPos == w.id
        && branchPoint == Parent(w.id) && pos == branchPoint + "0"
        && (r == ValueError <==> w == Start)
        && (r == ValueError ==>
              && oldKey == Some(Key(old(pos))) && branchPos == old(branchPos)
              && BranchPointsOk(tree, treeHeight, branchPos))
        && (r != ValueError ==>
              && r == Returned(NewBranch, Key(old(pos)))
              && branchPoint !in old(branchPos) && branchPos == old(branchPos) + [branchPoint]
              && oldKey == Some(Key(branchPoint)) && |pos| < treeHeight
              && signals == old(signals) + [NewBranch]
              && Valid())
    {
      ghost var t0, pos0, oldKey0, n0, used0, sig0 := tree, pos, oldKey, nBranches, branchPos, signals;
      var epoch := |pos|;
      var key := PlaceNode(value);
      InsertAttaches(t0, treeHeight, treeBranches, pos0, oldKey0, n0, used0, sig0, value);
      if epoch == treeHeight {
        r := EndLineage(key, t0, pos0, oldKey0, value);
        return;
      }
      InsertContinues(t0, treeHeight, treeBranches, pos0, oldKey0, n0, used0, sig0, value);
      signals := signals + [Continue];
      r := Returned(Continue, key);
    }

    /** The second half of insert(value) once the new node is at
        tree_height: count the lineage, then either report completion or
        open a new branch. */
    method EndLineage(key: int, ghost t0: map<int, Node>, ghost pos0: string, ghost oldKey0: Option<int>, ghost value: real)
        returns (r: Outcome)
      requires ValidState(t0, treeHeight, treeBranches, pos0, oldKey0, nBranches, branchPos, signals)
      requires |pos0| == treeHeight && key == Key(pos0)
      requires tree == Attach(t0, pos0, oldKey0, value, nBranches)
      requires oldKey == Some(key) && pos == pos0 + "1"
      modifies this
      ensures tree == old(tree) && WellFormed(tree, treeHeight) && 1 in tree
      ensures nBranches == old(nBranches) + 1
      ensures nBranches == treeBranches + 1 ==>
        unchanged(this`maxAbsoluteDelta, this`maxAbsoluteDeltaPos, this`branchPoint)
      ensures nBranches == treeBranches + 1 ==>
        && r == Returned(Complete, key)
        && pos == old(pos) && oldKey == old(oldKey) && branchPos == old(branchPos)
        && signals == old(signals) + [Complete]
        && Consistent()
        && CountOf(signals, NewBranch) == treeBranches - 1
        && |signals| <= treeHeight * treeBranches
      ensures nBranches <= treeBranches ==>
        var w := Scan(Preorder(tree, treeHeight, 1), Start, treeHeight, old(branchPos));
        && maxAbsoluteDelta == w.best && maxAbsoluteDeltaPos == w.id
        && branchPoint == Parent(w.id) && pos == branchPoint + "0"
        && (r == ValueError <==> w == Start)
        && (r == ValueError ==>
              && oldKey == old(oldKey) && branchPos == old(branchPos)
              && BranchPointsOk(tree, treeHeight, branchPos))
        && (r != ValueError ==>
              && r == Returned(NewBranch, key)
              && branchPoint !in old(branchPos) && branchPos == old(branchPos) + [branchPoint]
              && oldKey == Some(Key(branchPoint)) && |pos| < treeHeight
              && signals == old(signals) + [NewBranch]
              && Valid())
    {
      InsertEndsLineage(t0, treeHeight, treeBranches, pos0, oldKey0, nBranches, branchPos, signals, value);
      nBranches := nBranches + 1;
      if nBranches == 1 + treeBranches {
        InsertCompletes(tree, treeHeight, treeBranches, nBranches, branchPos, signals);
        signals := signals + [Complete];
        return Returned(Complete, key);
      }
      r := OpenBranch(key);
    }

    /** A new lineage: walk the tree for the branch point, record it, and
        report a new branch; no eligible node raises ValueError. */
    method OpenBranch(key: int) returns (r: Outcome)
      requires LineageEnded(tree, treeHeight, treeBranches, nBranches, branchPos, signals)
      requires nBranches <= treeBranches && oldKey == Some(key)
      modifies this
      ensures tree == old(tree) && nBranches == old(nBranches)
      ensures
        var w := Scan(Preorder(tree, treeHeight, 1), Start, treeHeight, old(branchPos));
        && maxAbsoluteDelta == w.best && maxAbsoluteDeltaPos == w.id
        && branchPoint == Parent(w.id) && pos == branchPoint + "0"
        && (r == ValueError <==> w == Start)
        && (r == ValueError ==>
              && oldKey == old(oldKey) && branchPos == old(branchPos)
              && BranchPointsOk(tree, treeHeight, branchPos))
        && (r != ValueError ==>
              && r == Returned(NewBranch, key)
              && branchPoint !in old(branchPos) && branchPos == old(branchPos) + [branchPoint]
              && oldKey == Some(Key(branchPoint)) && |pos| < treeHeight
              && signals == old(signals) + [NewBranch]
              && Valid())
    {
      ghost var used0, sig0 := branchPos, signals;
      var ok := FindBranchPoint();
      if !ok {
        return ValueError;
      }
      InsertBranches(tree, treeHeight, treeBranches, nBranches, used0, sig0);
      branchPos := branchPos + [branchPoint];
      signals := signals + [NewBranch];
      r := Returned(NewBranch, key);
    }
  }

  lemma CountAppend(s: seq<Signal>, y: Signal, x: Signal)
    ensures CountOf(s + [y], x) == CountOf(s, x) + (if y == x then 1 else 0)
    ensures y != x ==> (x in s + [y] <==> x in s)
  {
    assert (s + [y])[..|s|] == s;
  }
}
