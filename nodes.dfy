/** The nodes of the checkpoint tree and the dictionary that owns them.

    tree.py keeps a dict from int(ID, 2) to Node objects whose left/right
    fields point at children. Here the dict is a map from key to Node value
    and each child link holds the child's key.
 */
module Nodes {
  import opened Addressing

  datatype Option<T> = None | Some(value: T)

  /** One epoch's record: value, depth, difference to the parent, identity,
      lineage counter at insertion, and the two child links. */
  datatype Node = Node(val: real, epoch: int, diff: real, id: string, branch: int,
                       left: Option<int>, right: Option<int>)

  /** The link a node holds towards the child with identity s. */
  function ChildKey(t: map<int, Node>, s: string): (r: Option<int>)
    ensures r.Some? <==> Key(s) in t
    ensures r.Some? ==> r.value == Key(s)
  {
    if Key(s) in t then Some(Key(s)) else None
  }

  /** The invariant of one entry of the dictionary. */
  ghost predicate NodeOk(t: map<int, Node>, h: int, k: int)
    requires k in t
  {
    var n := t[k];
    && IsNodeId(n.id) && Key(n.id) == k
    && n.epoch == |n.id| && n.epoch <= h
    && (|n.id| == 1 ==> n.diff == 0.0)
    && (|n.id| > 1 ==> Key(Parent(n.id)) in t && n.diff == n.val - t[Key(Parent(n.id))].val)
    && n.left == ChildKey(t, n.id + "1")
    && n.right == ChildKey(t, n.id + "0")
  }

  /** Every entry is addressed by its identity, lies no deeper than h, has its
      parent present, records the difference to its parent, and links exactly
      the children present ("1" to the left, "0" to the right). */
  ghost predicate WellFormed(t: map<int, Node>, h: int) {
    forall k {:trigger NodeOk(t, h, k)} :: k in t ==> NodeOk(t, h, k)
  }

  /** The node addressed by an identity carries that identity. */
  lemma KeyedId(t: map<int, Node>, h: int, s: string)
    requires WellFormed(t, h) && IsNodeId(s) && Key(s) in t
    ensures t[Key(s)].id == s && t[Key(s)].epoch == |s|
  {
    assert NodeOk(t, h, Key(s));
    KeyInjective(t[Key(s)].id, s);
  }

  /** Every non-empty prefix of a node's identity addresses a node. */
  lemma {:induction false} AncestorPresent(t: map<int, Node>, h: int, k: int, p: string)
    requires WellFormed(t, h) && k in t && 1 <= |p| && p <= t[k].id
    ensures Key(p) in t && t[Key(p)].id == p
    decreases |t[k].id| - |p|
  {
    assert NodeOk(t, h, k);
    var s := t[k].id;
    if |p| == |s| {
      assert p == s;
    } else {
      var q := Key(Parent(s));
      KeyedId(t, h, Parent(s));
      assert p <= Parent(s);
      AncestorPresent(t, h, q, p);
    }
  }

  /** A non-empty well-formed tree holds the root "1" under key 1. */
  lemma RootPresent(t: map<int, Node>, h: int, k: int)
    requires WellFormed(t, h) && k in t
    ensures 1 in t && t[1].id == "1" && t[1].diff == 0.0
  {
    assert NodeOk(t, h, k);
    AncestorPresent(t, h, k, "1");
    assert Key("1") == 1;
    assert NodeOk(t, h, 1);
  }

  /** A child link leads to the node one level down along that symbol. */
  lemma ChildLinks(t: map<int, Node>, h: int, k: int)
    requires WellFormed(t, h) && k in t
    ensures t[k].left.Some? ==> t[k].left.value in t && t[t[k].left.value].id == t[k].id + "1"
    ensures t[k].right.Some? ==> t[k].right.value in t && t[t[k].right.value].id == t[k].id + "0"
    ensures t[k].left.Some? ==> t[t[k].left.value].epoch == t[k].epoch + 1
    ensures t[k].right.Some? ==> t[t[k].right.value].epoch == t[k].epoch + 1
    ensures t[k].left.Some? || t[k].right.Some? ==> t[k].epoch < h
  {
    assert NodeOk(t, h, k);
    var s := t[k].id;
    if t[k].left.Some? {
      KeyedId(t, h, s + "1");
      assert NodeOk(t, h, Key(s + "1"));
    }
    if t[k].right.Some? {
      KeyedId(t, h, s + "0");
      assert NodeOk(t, h, Key(s + "0"));
    }
  }

  /** Python's pos.endswith("1"). */
  predicate EndsWithOne(s: string) {
    |s| > 0 && s[|s| - 1] == '1'
  }

  /** The record the insert at cursor pos creates. */
  function NewNode(t: map<int, Node>, pos: string, oldKey: Option<int>, value: real, branch: int): (n: Node)
    requires oldKey.Some? ==> oldKey.value in t
    ensures n.id == pos && n.epoch == |pos| && n.val == value && n.branch == branch
    ensures n.left == None && n.right == None
    ensures n.diff == if oldKey.None? then 0.0 else value - t[oldKey.value].val
  {
    var diff := if oldKey.None? then 0.0 else value - t[oldKey.value].val;
    Node(value, |pos|, diff, pos, branch, None, None)
  }

  /** Two records agree on everything but their child links. */
  predicate SameData(a: Node, b: Node) {
    a.val == b.val && a.epoch == b.epoch && a.diff == b.diff && a.id == b.id && a.branch == b.branch
  }

  /** The dictionary after one insert: the new node under int(pos, 2) and, when
      the tree was not empty, one link on the node under oldKey. */
  function Attach(t: map<int, Node>, pos: string, oldKey: Option<int>, value: real, branch: int): (t': map<int, Node>)
    requires oldKey.Some? ==> oldKey.value in t
    requires |t| != 0 ==> oldKey.Some? && oldKey.value != Key(pos)
    ensures t'.Keys == t.Keys + {Key(pos)}
    ensures t'[Key(pos)] == NewNode(t, pos, oldKey, value, branch)
    ensures forall k :: k in t && k != Key(pos) ==> SameData(t'[k], t[k])
    ensures forall k :: k in t && k != Key(pos) && oldKey != Some(k) ==> t'[k] == t[k]
    ensures |t| != 0 ==>
      var p := oldKey.value;
      if EndsWithOne(pos) then t'[p].left == Some(Key(pos)) && t'[p].right == t[p].right
      else t'[p].right == Some(Key(pos)) && t'[p].left == t[p].left
  {
    var key := Key(pos);
    var t1 := t[key := NewNode(t, pos, oldKey, value, branch)];
    if |t| == 0 then t1
    else
      var parent := t1[oldKey.value];
      t1[oldKey.value := if EndsWithOne(pos) then parent.(left := Some(key)) else parent.(right := Some(key))]
  }

  /** Where an insert may go: a fresh identity no deeper than h whose parent is
      the node under oldKey, or the root of an empty tree. */
  ghost predicate Insertable(t: map<int, Node>, h: int, pos: string, oldKey: Option<int>) {
    && IsNodeId(pos) && |pos| <= h && Key(pos) !in t
    && (|t| == 0 ==> pos == "1" && oldKey.None?)
    && (|t| != 0 ==> |pos| >= 2 && oldKey == Some(Key(Parent(pos))) && Key(Parent(pos)) in t)
  }

  /** Append-only insert: attaching a node at an insertable cursor keeps the
      dictionary well formed and adds exactly one entry. */
  lemma AttachWellFormed(t: map<int, Node>, h: int, pos: string, oldKey: Option<int>, value: real, branch: int)
    requires WellFormed(t, h) && Insertable(t, h, pos, oldKey)
    ensures WellFormed(Attach(t, pos, oldKey, value, branch), h)
    ensures |Attach(t, pos, oldKey, value, branch).Keys| == |t.Keys| + 1
  {
    var t' := Attach(t, pos, oldKey, value, branch);
    forall k | k in t'
      ensures NodeOk(t', h, k)
    {
      if k == Key(pos) {
        AttachNewNodeOk(t, h, pos, oldKey, value, branch);
      } else {
        AttachOldNodeOk(t, h, pos, oldKey, value, branch, k);
      }
    }
  }

  /** The node an insert creates: it carries the value, the cursor as its
      identity, epoch len(pos) no deeper than h, the lineage counter and no
      children; the root's diff is 0 and any other node's diff is its value
      minus its parent's value. */
  lemma AttachNewNodeOk(t: map<int, Node>, h: int, pos: string, oldKey: Option<int>, value: real, branch: int)
    requires WellFormed(t, h) && Insertable(t, h, pos, oldKey)
    ensures var n := Attach(t, pos, oldKey, value, branch)[Key(pos)];
      && n.id == pos && n.val == value && n.epoch == |pos| <= h && n.branch == branch
      && n.left == None && n.right == None
      && (|pos| == 1 ==> n.diff == 0.0)
      && (|pos| > 1 ==> n.diff == value - t[Key(Parent(pos))].val)
    ensures NodeOk(Attach(t, pos, oldKey, value, branch), h, Key(pos))
  {
    KeyChildrenAbsent(t, h, pos);
    KeyLength(pos);
    KeyOfChild(pos, '1');
    KeyOfChild(pos, '0');
    NewNodeOk(t, h, pos, oldKey, value, branch);
  }

  lemma NewNodeOk(t: map<int, Node>, h: int, pos: string, oldKey: Option<int>, value: real, branch: int)
    requires Insertable(t, h, pos, oldKey)
    requires Key(pos + "1") !in t && Key(pos + "0") !in t
    requires Key(pos + "1") != Key(pos) && Key(pos + "0") != Key(pos)
    ensures NodeOk(Attach(t, pos, oldKey, value, branch), h, Key(pos))
  {
    var t' := Attach(t, pos, oldKey, value, branch);
    assert t'.Keys == t.Keys + {Key(pos)};
    assert Key(pos + "1") !in t' && Key(pos + "0") !in t';
    var n := t'[Key(pos)];
    assert n.left == ChildKey(t', n.id + "1");
    assert n.right == ChildKey(t', n.id + "0");
    if |pos| > 1 {
      assert SameData(t'[Key(Parent(pos))], t[Key(Parent(pos))]);
    }
  }

  lemma AttachOldNodeOk(t: map<int, Node>, h: int, pos: string, oldKey: Option<int>, value: real, branch: int, k: int)
    requires WellFormed(t, h) && Insertable(t, h, pos, oldKey)
    requires k in t
    ensures NodeOk(Attach(t, pos, oldKey, value, branch), h, k)
  {
    assert NodeOk(t, h, k);
    var s := t[k].id;
    if |t| != 0 && k == oldKey.value {
      KeyedId(t, h, Parent(pos));
    }
    OldNodeOk(t, h, pos, oldKey, value, branch, k);
  }

  lemma OldNodeOk(t: map<int, Node>, h: int, pos: string, oldKey: Option<int>, value: real, branch: int, k: int)
    requires Insertable(t, h, pos, oldKey)
    requires k in t && NodeOk(t, h, k)
    requires |t| != 0 && k == oldKey.value ==> t[k].id == Parent(pos)
    ensures NodeOk(Attach(t, pos, oldKey, value, branch), h, k)
  {
    var t' := Attach(t, pos, oldKey, value, branch);
    var s := t[k].id;
    OldNodeLinks(t, h, pos, oldKey, value, branch, k);
    assert SameData(t'[k], t[k]);
    if |s| > 1 {
      assert SameData(t'[Key(Parent(s))], t[Key(Parent(s))]);
    }
  }

  lemma OldNodeLinks(t: map<int, Node>, h: int, pos: string, oldKey: Option<int>, value: real, branch: int, k: int)
    requires Insertable(t, h, pos, oldKey)
    requires k in t && NodeOk(t, h, k)
    requires |t| != 0 && k == oldKey.value ==> t[k].id == Parent(pos)
    ensures var t' := Attach(t, pos, oldKey, value, branch);
      t'[k].left == ChildKey(t', t[k].id + "1") && t'[k].right == ChildKey(t', t[k].id + "0")
  {
    if k == oldKey.value {
      ParentLinks(t, h, pos, oldKey, value, branch);
    } else {
      OtherLinks(t, h, pos, oldKey, value, branch, k);
    }
  }

  /** The parent of the new node gains exactly the link on the new node's side. */
  lemma ParentLinks(t: map<int, Node>, h: int, pos: string, oldKey: Option<int>, value: real, branch: int)
    requires Insertable(t, h, pos, oldKey) && |t| != 0
    requires NodeOk(t, h, oldKey.value) && t[oldKey.value].id == Parent(pos)
    ensures var t' := Attach(t, pos, oldKey, value, branch);
      var s := t[oldKey.value].id;
      t'[oldKey.value].left == ChildKey(t', s + "1") && t'[oldKey.value].right == ChildKey(t', s + "0")
  {
    var s := t[oldKey.value].id;
    AttachChildKey(t, pos, oldKey, value, branch, s + "1");
    AttachChildKey(t, pos, oldKey, value, branch, s + "0");
    assert pos == s + [pos[|pos| - 1]];
    if EndsWithOne(pos) {
      assert pos == s + "1" && pos != s + "0";
    } else {
      assert pos == s + "0" && pos != s + "1";
    }
  }

  /** Every other old node keeps its links, and the new identity is not a
      child of it. */
  lemma OtherLinks(t: map<int, Node>, h: int, pos: string, oldKey: Option<int>, value: real, branch: int, k: int)
    requires Insertable(t, h, pos, oldKey)
    requires k in t && NodeOk(t, h, k) && oldKey != Some(k)
    ensures var t' := Attach(t, pos, oldKey, value, branch);
      t'[k].left == ChildKey(t', t[k].id + "1") && t'[k].right == ChildKey(t', t[k].id + "0")
  {
    var s := t[k].id;
    AttachChildKey(t, pos, oldKey, value, branch, s + "1");
    AttachChildKey(t, pos, oldKey, value, branch, s + "0");
    assert Attach(t, pos, oldKey, value, branch)[k] == t[k];
  }

  /** After an insert, a link towards s is present exactly when it was before
      or s is the inserted identity. */
  lemma AttachChildKey(t: map<int, Node>, pos: string, oldKey: Option<int>, value: real, branch: int, s: string)
    requires oldKey.Some? ==> oldKey.value in t
    requires |t| != 0 ==> oldKey.Some? && oldKey.value != Key(pos)
    requires IsNodeId(pos) && IsNodeId(s)
    ensures ChildKey(Attach(t, pos, oldKey, value, branch), s) == if s == pos then Some(Key(pos)) else ChildKey(t, s)
  {
    var t' := Attach(t, pos, oldKey, value, branch);
    assert t'.Keys == t.Keys + {Key(pos)};
    if Key(s) == Key(pos) {
      KeyInjective(s, pos);
    }
  }

  /** A fresh identity has no children in a well-formed tree. */
  lemma KeyChildrenAbsent(t: map<int, Node>, h: int, pos: string)
    requires WellFormed(t, h) && IsNodeId(pos) && Key(pos) !in t
    ensures Key(pos + "1") !in t && Key(pos + "0") !in t
  {
    if Key(pos + "1") in t {
      KeyedId(t, h, pos + "1");
      AncestorPresent(t, h, Key(pos + "1"), pos);
    }
    if Key(pos + "0") in t {
      KeyedId(t, h, pos + "0");
      AncestorPresent(t, h, Key(pos + "0"), pos);
    }
  }
}
