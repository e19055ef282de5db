/** Pre-order traversal of the checkpoint tree and the branch-point rule.

    preorder_traversal lists a node, then its left ("1") subtree, then its
    right ("0") subtree. find_branch_point walks the same order (traverse)
    and keeps a running choice: a node replaces the choice when it is not at
    the maximum depth, its parent has not been a branch point yet, and the
    absolute value of its diff strictly exceeds the stored value. The stored
    value is the node's signed diff.
 */
module Traversal {
  import opened Addressing
  import opened Nodes

  /** preorder_traversal(node): the node, then its left subtree, then its right subtree. */
  function Preorder(t: map<int, Node>, h: int, k: int): seq<Node>
    requires WellFormed(t, h) && k in t
    decreases h - t[k].epoch
  {
    ChildLinks(t, h, k);
    var n := t[k];
    [n]
    + (if n.left.Some? then Preorder(t, h, n.left.value) else [])
    + (if n.right.Some? then Preorder(t, h, n.right.value) else [])
  }

  /** The left and right parts of a traversal, empty when the link is absent. */
  function LeftPart(t: map<int, Node>, h: int, k: int): seq<Node>
    requires WellFormed(t, h) && k in t
  {
    ChildLinks(t, h, k);
    if t[k].left.Some? then Preorder(t, h, t[k].left.value) else []
  }

  function RightPart(t: map<int, Node>, h: int, k: int): seq<Node>
    requires WellFormed(t, h) && k in t
  {
    ChildLinks(t, h, k);
    if t[k].right.Some? then Preorder(t, h, t[k].right.value) else []
  }

  /** Pre-order traversal lists only nodes of the subtree, its root first. */
  lemma {:induction false} PreorderSound(t: map<int, Node>, h: int, k: int)
    requires WellFormed(t, h) && k in t
    ensures var p := Preorder(t, h, k);
      && |p| >= 1 && p[0] == t[k]
      && (forall i :: 0 <= i < |p| ==> Key(p[i].id) in t && t[Key(p[i].id)] == p[i] && t[k].id <= p[i].id)
    decreases h - t[k].epoch
  {
    ChildLinks(t, h, k);
    assert NodeOk(t, h, k);
    var n := t[k];
    var s := n.id;
    var p := Preorder(t, h, k);
    var l, r := LeftPart(t, h, k), RightPart(t, h, k);
    assert p == [n] + l + r;
    if n.left.Some? { PreorderSound(t, h, n.left.value); }
    if n.right.Some? { PreorderSound(t, h, n.right.value); }
    forall i | 0 <= i < |p|
      ensures Key(p[i].id) in t && t[Key(p[i].id)] == p[i] && s <= p[i].id
    {
      if i == 0 {
      } else if i < 1 + |l| {
        assert p[i] == l[i - 1];
        ChildPrefix(s, '1', p[i].id);
      } else {
        assert p[i] == r[i - 1 - |l|];
        ChildPrefix(s, '0', p[i].id);
      }
    }
  }

  /** A proper descendant of a node lies under the child on its side. */
  lemma DescendantSide(t: map<int, Node>, h: int, k: int, j: int)
    requires WellFormed(t, h) && k in t && j in t && t[k].id < t[j].id
    ensures var c := t[j].id[|t[k].id|];
      && (c == '1' ==> t[k].left.Some? && t[k].left.value in t && t[t[k].left.value].id <= t[j].id)
      && (c != '1' ==> t[k].right.Some? && t[k].right.value in t && t[t[k].right.value].id <= t[j].id)
  {
    var s := t[k].id;
    var q := NextOnPath(t, h, j, s);
    assert NodeOk(t, h, k);
    if q[|s|] == '1' {
      assert q == s + "1";
    } else {
      assert q == s + "0";
    }
  }

  /** The identity one step below s on the way to node j addresses a node. */
  lemma NextOnPath(t: map<int, Node>, h: int, j: int, s: string) returns (q: string)
    requires WellFormed(t, h) && j in t && s < t[j].id
    ensures |q| == |s| + 1 && q == s + [t[j].id[|s|]] && q <= t[j].id
    ensures IsNodeId(q) && Key(q) in t && t[Key(q)].id == q
  {
    assert NodeOk(t, h, j);
    q := s + [t[j].id[|s|]];
    assert q == t[j].id[..|s| + 1];
    AncestorPresent(t, h, j, q);
    KeyedId(t, h, q);
  }

  /** Pre-order traversal reaches every node of the subtree. */
  lemma {:induction false} PreorderComplete(t: map<int, Node>, h: int, k: int)
    requires WellFormed(t, h) && k in t
    ensures forall j :: j in t && t[k].id <= t[j].id ==> t[j] in Preorder(t, h, k)
    decreases h - t[k].epoch
  {
    ChildLinks(t, h, k);
    var n := t[k];
    var p := Preorder(t, h, k);
    var l, r := LeftPart(t, h, k), RightPart(t, h, k);
    assert p == [n] + l + r;
    if n.left.Some? { PreorderComplete(t, h, n.left.value); }
    if n.right.Some? { PreorderComplete(t, h, n.right.value); }
    forall j | j in t && n.id <= t[j].id
      ensures t[j] in p
    {
      if t[j].id == n.id {
        assert NodeOk(t, h, j) && NodeOk(t, h, k);
      } else {
        DescendantSide(t, h, k, j);
        if t[j].id[|n.id|] == '1' {
          assert t[j] in l;
        } else {
          assert t[j] in r;
        }
      }
    }
  }

  /** No two entries of a node sequence share an identity. */
  ghost predicate DistinctIds(p: seq<Node>) {
    forall i, j :: 0 <= i < j < |p| ==> p[i].id != p[j].id
  }

  /** Every entry lies under q. */
  ghost predicate Under(p: seq<Node>, q: string) {
    forall i :: 0 <= i < |p| ==> q <= p[i].id
  }

  /** No entry lies under q. */
  ghost predicate OffSide(p: seq<Node>, q: string) {
    forall i :: 0 <= i < |p| ==> !(q <= p[i].id)
  }

  /** A node followed by its left subtree: distinct, and none under s + "0". */
  lemma NodeThenLeft(n: Node, l: seq<Node>)
    requires DistinctIds(l) && Under(l, n.id + "1")
    ensures DistinctIds([n] + l) && OffSide([n] + l, n.id + "0")
  {
    var s := n.id;
    var a := [n] + l;
    forall i | 0 <= i < |a|
      ensures !(s + "0" <= a[i].id) && (i > 0 ==> a[i].id != s)
    {
      if i > 0 {
        assert a[i] == l[i - 1];
        ChildPrefix(s, '1', a[i].id);
      }
    }
  }

  /** Sequences on different sides of q join without a repeated identity. */
  lemma JoinApart(a: seq<Node>, b: seq<Node>, q: string)
    requires DistinctIds(a) && DistinctIds(b) && OffSide(a, q) && Under(b, q)
    ensures DistinctIds(a + b)
  {
    var ab := a + b;
    forall i, j | 0 <= i < j < |ab|
      ensures ab[i].id != ab[j].id
    {
      if j < |a| {
        assert ab[i] == a[i] && ab[j] == a[j];
      } else if i >= |a| {
        assert ab[i] == b[i - |a|] && ab[j] == b[j - |a|];
      } else {
        assert ab[i] == a[i] && ab[j] == b[j - |a|];
      }
    }
  }

  /** Pre-order traversal lists each node once. */
  lemma {:induction false} PreorderDistinct(t: map<int, Node>, h: int, k: int)
    requires WellFormed(t, h) && k in t
    ensures DistinctIds(Preorder(t, h, k))
    decreases h - t[k].epoch
  {
    ChildLinks(t, h, k);
    var n := t[k];
    var s := n.id;
    var l, r := LeftPart(t, h, k), RightPart(t, h, k);
    assert Preorder(t, h, k) == ([n] + l) + r;
    if n.left.Some? {
      PreorderDistinct(t, h, n.left.value);
      PreorderSound(t, h, n.left.value);
    }
    if n.right.Some? {
      PreorderDistinct(t, h, n.right.value);
      PreorderSound(t, h, n.right.value);
    }
    assert Under(l, s + "1");
    assert Under(r, s + "0");
    NodeThenLeft(n, l);
    JoinApart([n] + l, r, s + "0");
  }

  /** The running choice of find_branch_point: max_absolute_delta and
      max_absolute_delta_pos. */
  datatype Choice = Choice(best: real, id: string)

  /** The choice before the walk: 0.0 and the root's identity. */
  const Start := Choice(0.0, "1")

  function Abs(x: real): (r: real)
    ensures r >= 0.0 && (r == x || r == -x)
  {
    if x < 0.0 then -x else x
  }

  /** A node may be chosen when it is not at the maximum depth and its parent
      has not been a branch point yet. */
  predicate Eligible(n: Node, h: int, used: seq<string>) {
    n.epoch != h && Parent(n.id) !in used
  }

  /** One visit of traverse: the node replaces the choice when it is eligible
      and its absolute diff strictly exceeds the stored value; the stored value
      becomes its signed diff. */
  function Step(c: Choice, n: Node, h: int, used: seq<string>): Choice {
    if Eligible(n, h, used) && Abs(n.diff) > c.best then Choice(n.diff, n.id) else c
  }

  /** The choice after visiting ns in order. */
  function Scan(ns: seq<Node>, c: Choice, h: int, used: seq<string>): Choice
    decreases |ns|
  {
    if ns == [] then c else Scan(ns[1..], Step(c, ns[0], h, used), h, used)
  }

  /** Scanning two parts in turn is scanning their concatenation. */
  lemma {:induction false} ScanAppend(a: seq<Node>, b: seq<Node>, c: Choice, h: int, used: seq<string>)
    ensures Scan(a + b, c, h, used) == Scan(b, Scan(a, c, h, used), h, used)
    decreases |a|
  {
    if a != [] {
      assert (a + b)[1..] == a[1..] + b;
      ScanAppend(a[1..], b, Step(c, a[0], h, used), h, used);
    } else {
      assert a + b == b;
    }
  }

  /** When no eligible node beats the stored value, the choice is unchanged. */
  lemma {:induction false} ScanUnchanged(ns: seq<Node>, c: Choice, h: int, used: seq<string>)
    requires forall i :: 0 <= i < |ns| && Eligible(ns[i], h, used) ==> Abs(ns[i].diff) <= c.best
    ensures Scan(ns, c, h, used) == c
    decreases |ns|
  {
    if ns != [] {
      ScanUnchanged(ns[1..], c, h, used);
    }
  }

  /** No eligible node of ns has an absolute diff above the stored value of c. */
  ghost predicate NoneBeats(ns: seq<Node>, c: Choice, h: int, used: seq<string>) {
    forall j :: 0 <= j < |ns| && Eligible(ns[j], h, used) ==> Abs(ns[j].diff) <= c.best
  }

  /** ns[i] is the last node that replaced the choice during the walk: it is
      eligible, beat the value stored when it was visited, the walk ends with
      it, and no eligible node after it has an absolute diff above its signed
      diff. */
  ghost predicate LastReplacement(ns: seq<Node>, c: Choice, h: int, used: seq<string>, i: int) {
    && 0 <= i < |ns| && Eligible(ns[i], h, used)
    && Abs(ns[i].diff) > Scan(ns[..i], c, h, used).best
    && Scan(ns, c, h, used) == Choice(ns[i].diff, ns[i].id)
    && NoneBeats(ns[i + 1..], Choice(ns[i].diff, ns[i].id), h, used)
  }

  /** The result of a walk is either the initial choice, when no eligible node
      beats it, or the choice made by the last node that replaced it. */
  lemma {:induction false} ScanLast(ns: seq<Node>, c: Choice, h: int, used: seq<string>)
    ensures || (Scan(ns, c, h, used) == c && NoneBeats(ns, c, h, used))
            || exists i :: LastReplacement(ns, c, h, used, i)
    decreases |ns|
  {
    if ns != [] {
      var c1 := Step(c, ns[0], h, used);
      ScanLast(ns[1..], c1, h, used);
      if i :| LastReplacement(ns[1..], c1, h, used, i) {
        LastReplacementShift(ns, c, h, used, i);
      } else if !(Eligible(ns[0], h, used) && Abs(ns[0].diff) > c.best) {
        assert NoneBeats(ns, c, h, used) by {
          forall j | 0 < j < |ns| && Eligible(ns[j], h, used)
            ensures Abs(ns[j].diff) <= c.best
          {
            assert ns[j] == ns[1..][j - 1];
          }
        }
      } else {
        assert ns[..0] == [];
        assert ns[1..] == ns[0 + 1..];
        assert LastReplacement(ns, c, h, used, 0);
      }
    }
  }

  lemma LastReplacementShift(ns: seq<Node>, c: Choice, h: int, used: seq<string>, i: int)
    requires ns != [] && LastReplacement(ns[1..], Step(c, ns[0], h, used), h, used, i)
    ensures LastReplacement(ns, c, h, used, i + 1)
  {
    assert ns[..i + 1][1..] == ns[1..][..i];
    assert ns[..i + 1] != [];
    assert ns[1..][i] == ns[i + 1];
    assert ns[1..][i + 1..] == ns[i + 2..];
  }

  /** With non-negative diffs the signed and absolute values agree: the walk
      ends with a stored value at least every eligible diff. */
  lemma {:induction false} ScanBoundsNonNegative(ns: seq<Node>, c: Choice, h: int, used: seq<string>)
    requires forall i :: 0 <= i < |ns| ==> ns[i].diff >= 0.0
    ensures var r := Scan(ns, c, h, used);
      r.best >= c.best && forall i :: 0 <= i < |ns| && Eligible(ns[i], h, used) ==> ns[i].diff <= r.best
    decreases |ns|
  {
    if ns != [] {
      ScanBoundsNonNegative(ns[1..], Step(c, ns[0], h, used), h, used);
      forall i | 0 < i < |ns| && Eligible(ns[i], h, used)
        ensures ns[i].diff <= Scan(ns, c, h, used).best
      {
        assert ns[i] == ns[1..][i - 1];
      }
    }
  }

  /** When no diff is negative, the walk keeps its initial choice exactly
      when every eligible diff is 0. */
  lemma NothingChosenWhenNonNegative(ns: seq<Node>, h: int, used: seq<string>)
    requires forall i :: 0 <= i < |ns| ==> ns[i].diff >= 0.0
    ensures Scan(ns, Start, h, used) == Start
            <==> forall i :: 0 <= i < |ns| && Eligible(ns[i], h, used) ==> ns[i].diff == 0.0
  {
    ScanLast(ns, Start, h, used);
    if forall i :: 0 <= i < |ns| && Eligible(ns[i], h, used) ==> ns[i].diff == 0.0 {
      ScanUnchanged(ns, Start, h, used);
    }
    if i :| LastReplacement(ns, Start, h, used, i) {
      ScanBoundsNonNegative(ns[..i], Start, h, used);
    }
  }

  /** When no diff is negative, the chosen node is the first eligible node of
      largest diff: later equal diffs do not replace it. Nothing is chosen
      exactly when every eligible diff is 0. */
  lemma FirstLargestWhenNonNegative(ns: seq<Node>, h: int, used: seq<string>)
    requires forall i :: 0 <= i < |ns| ==> ns[i].diff >= 0.0
    ensures var r := Scan(ns, Start, h, used);
      && (r == Start <==> forall i :: 0 <= i < |ns| && Eligible(ns[i], h, used) ==> ns[i].diff == 0.0)
      && (r != Start ==>
           (exists i :: 0 <= i < |ns| && Eligible(ns[i], h, used) && r == Choice(ns[i].diff, ns[i].id)
              && (forall j :: 0 <= j < |ns| && Eligible(ns[j], h, used) ==> ns[j].diff <= ns[i].diff)
              && (forall j :: 0 <= j < i && Eligible(ns[j], h, used) ==> ns[j].diff < ns[i].diff)))
  {
    NothingChosenWhenNonNegative(ns, h, used);
    var r := Scan(ns, Start, h, used);
    ScanLast(ns, Start, h, used);
    ScanBoundsNonNegative(ns, Start, h, used);
    if r != Start {
      var i :| LastReplacement(ns, Start, h, used, i);
      ScanBoundsNonNegative(ns[..i], Start, h, used);
      forall j | 0 <= j < i && Eligible(ns[j], h, used)
        ensures ns[j].diff < ns[i].diff
      {
        assert ns[..i][j] == ns[j];
      }
    }
  }

  /** A root with two children: "11" one lower than the root (diff -0.5) and
      "10" slightly higher (diff 0.3). */
  function SignedExample(): map<int, Node> {
    map[1 := Node(1.0, 1, 0.0, "1", 1, Some(3), Some(2)),
        3 := Node(0.5, 2, -0.5, "11", 1, None, None),
        2 := Node(1.3, 2, 0.3, "10", 2, None, None)]
  }

  /** The example tree is well formed for tree_height 4. */
  lemma SignedExampleWellFormed()
    ensures WellFormed(SignedExample(), 4)
  {
    var t := SignedExample();
    ExampleKeys();
    assert Parent("11") == "1" && Parent("10") == "1";
    assert NodeOk(t, 4, 1);
    assert NodeOk(t, 4, 3);
    assert NodeOk(t, 4, 2);
  }

  /** int(s, 2) for the identities the example touches. */
  lemma ExampleKeys()
    ensures Key("1") == 1 && Key("11") == 3 && Key("10") == 2
    ensures Key("111") == 7 && Key("110") == 6 && Key("101") == 5 && Key("100") == 4
  {
    KeyOfChild([], '1');
    assert [] + ['1'] == "1";
    KeyOfChild("1", '1');
    KeyOfChild("1", '0');
    assert "1" + ['1'] == "11" && "1" + ['0'] == "10";
    KeyOfChild("11", '1');
    KeyOfChild("11", '0');
    KeyOfChild("10", '1');
    KeyOfChild("10", '0');
    assert "11" + ['1'] == "111" && "11" + ['0'] == "110";
    assert "10" + ['1'] == "101" && "10" + ['0'] == "100";
  }

  /** preorder_traversal on the example: the root, then "11", then "10". */
  lemma SignedExamplePreorder()
    ensures WellFormed(SignedExample(), 4)
    ensures var t := SignedExample(); Preorder(t, 4, 1) == [t[1], t[3], t[2]]
  {
    SignedExampleWellFormed();
    var t := SignedExample();
    assert Preorder(t, 4, 3) == [t[3]];
    assert Preorder(t, 4, 2) == [t[2]];
  }

  /** The stored value is the signed diff, so a node whose absolute diff is
      smaller than that of an earlier negative-diff node still replaces it:
      on the well-formed tree above, the walk of find_branch_point visits
      "11" and then "10", and chooses "10" although "11" has the larger
      absolute diff. */
  lemma SignedStoredValue()
    ensures WellFormed(SignedExample(), 4)
    ensures var t := SignedExample();
      && Abs(t[3].diff) > Abs(t[2].diff)
      && Scan(Preorder(t, 4, 1), Start, 4, []).id == "10"
  {
    SignedExamplePreorder();
    var t := SignedExample();
    var p := Preorder(t, 4, 1);
    assert Parent("11") == "1" && Parent("10") == "1";
    var c1 := Step(Start, t[1], 4, []);
    assert c1 == Start;
    var c2 := Step(c1, t[3], 4, []);
    assert c2 == Choice(-0.5, "11");
    var c3 := Step(c2, t[2], 4, []);
    assert c3 == Choice(0.3, "10");
    assert p[1..] == [t[3], t[2]] && [t[3], t[2]][1..] == [t[2]] && [t[2]][1..] == [];
    calc {
      Scan(p, Start, 4, []);
      Scan([t[3], t[2]], c1, 4, []);
      Scan([t[2]], c2, 4, []);
      Scan([], c3, 4, []);
    }
  }

  /** The walk over a sequence that starts with the root (identity "1",
      diff 0) and never revisits it: it keeps its initial choice exactly
      when no eligible node has a non-zero diff, and otherwise ends on an
      eligible node after the first. */
  lemma ScanFromRoot(p: seq<Node>, h: int, used: seq<string>)
    requires |p| >= 1 && p[0].id == "1" && p[0].diff == 0.0
    requires forall i :: 0 < i < |p| ==> p[i].id != "1"
    ensures var r := Scan(p, Start, h, used);
      && (r == Start <==> NoneBeats(p, Start, h, used))
      && (r.id == "1" <==> r == Start)
      && (r != Start ==> exists i :: 0 < i < |p| && Eligible(p[i], h, used) && r == Choice(p[i].diff, p[i].id))
  {
    ScanLast(p, Start, h, used);
    if i :| LastReplacement(p, Start, h, used, i) {
      assert p[..0] == [];
      assert i != 0;
    } else {
      ScanUnchanged(p, Start, h, used);
    }
    if NoneBeats(p, Start, h, used) {
      ScanUnchanged(p, Start, h, used);
    }
  }

  /** Over the traversal from the root, no eligible node beats the initial
      choice exactly when every eligible node of the tree has diff 0. */
  lemma NoneBeatsTree(t: map<int, Node>, h: int, used: seq<string>)
    requires WellFormed(t, h) && 1 in t
    ensures NoneBeats(Preorder(t, h, 1), Start, h, used)
      <==> forall j :: j in t && Eligible(t[j], h, used) ==> t[j].diff == 0.0
  {
    var p := Preorder(t, h, 1);
    PreorderSound(t, h, 1);
    PreorderComplete(t, h, 1);
    RootPresent(t, h, 1);
    if NoneBeats(p, Start, h, used) {
      forall j | j in t && Eligible(t[j], h, used)
        ensures t[j].diff == 0.0
      {
        assert NodeOk(t, h, j);
        assert t[j].id[..1] == "1";
        assert t[j] in p;
        var i :| 0 <= i < |p| && p[i] == t[j];
      }
    }
    if forall j :: j in t && Eligible(t[j], h, used) ==> t[j].diff == 0.0 {
      forall i | 0 <= i < |p| && Eligible(p[i], h, used)
        ensures Abs(p[i].diff) <= Start.best
      {
        assert p[i] == t[Key(p[i].id)];
      }
    }
  }

  /** Branch-point selection over the whole tree. The walk from the root keeps
      its initial choice exactly when every eligible node has diff 0;
      otherwise it ends on an eligible node of the tree other than the root,
      whose signed diff is the stored value. */
  lemma BranchPointChoice(t: map<int, Node>, h: int, used: seq<string>)
    requires WellFormed(t, h) && 1 in t
    ensures var r := Scan(Preorder(t, h, 1), Start, h, used);
      && (r == Start <==> forall j :: j in t && Eligible(t[j], h, used) ==> t[j].diff == 0.0)
      && (r.id == "1" <==> r == Start)
      && (r != Start ==>
            && Key(r.id) in t && t[Key(r.id)].id == r.id && |r.id| >= 2
            && Eligible(t[Key(r.id)], h, used) && r.best == t[Key(r.id)].diff)
  {
    var p := Preorder(t, h, 1);
    var r := Scan(p, Start, h, used);
    RootPresent(t, h, 1);
    PreorderSound(t, h, 1);
    PreorderDistinct(t, h, 1);
    assert NodeOk(t, h, 1);
    forall i | 0 < i < |p|
      ensures p[i].id != "1"
    {
      assert p[0].id != p[i].id;
    }
    ScanFromRoot(p, h, used);
    NoneBeatsTree(t, h, used);
    if r != Start {
      var i :| 0 < i < |p| && Eligible(p[i], h, used) && r == Choice(p[i].diff, p[i].id);
      assert NodeOk(t, h, Key(p[i].id));
    }
  }
}
