/** Node identities of the checkpoint tree.

    A node is addressed by the path from the root: the root is "1", and a
    child appends "1" (the lineage continues) or "0" (a branch). The tree's
    dictionary is keyed by the identity read as a binary number, int(ID, 2).
 */
module Addressing {

  /** A well-formed identity: non-empty, over {'0','1'}, starting with '1'. */
  predicate IsNodeId(s: string) {
    |s| >= 1 && s[0] == '1' && forall i :: 0 <= i < |s| ==> s[i] == '0' || s[i] == '1'
  }

  function Pow2(n: nat): nat {
    if n == 0 then 1 else 2 * Pow2(n - 1)
  }

  function Digit(c: char): nat {
    if c == '1' then 1 else 0
  }

  /** int(s, 2) on a string of binary digits (most significant digit first). */
  function Key(s: string): nat
    decreases |s|
  {
    if s == [] then 0 else 2 * Key(s[..|s| - 1]) + Digit(s[|s| - 1])
  }

  /** s[:-1]: the identity of the parent (the empty string for "1"). */
  function Parent(s: string): (p: string)
    ensures |s| >= 1 ==> |p| == |s| - 1 && p + [s[|s| - 1]] == s
    ensures |s| >= 2 && IsNodeId(s) ==> IsNodeId(p)
  {
    if s == [] then [] else s[..|s| - 1]
  }

  /** Number of binary digits of n (0 has none). */
  function BitLength(n: nat): nat {
    if n == 0 then 0 else 1 + BitLength(n / 2)
  }

  /** Appending a digit doubles the key and adds the digit. */
  lemma KeyOfChild(s: string, c: char)
    ensures Key(s + [c]) == 2 * Key(s) + Digit(c)
  {
    assert (s + [c])[..|s|] == s;
  }

  /** The length of an identity is recoverable from its key. */
  lemma {:induction false} KeyLength(s: string)
    requires IsNodeId(s)
    ensures Key(s) >= 1 && BitLength(Key(s)) == |s|
    decreases |s|
  {
    var p := Parent(s);
    if |s| == 1 {
      assert p == [];
    } else {
      KeyLength(p);
      assert Key(s) / 2 == Key(p);
    }
  }

  /** Addressing: the key of an identity of depth d lies in [2^(d-1), 2^d). */
  lemma {:induction false} KeyBounds(s: string)
    requires IsNodeId(s)
    ensures Pow2(|s| - 1) <= Key(s) < Pow2(|s|)
    decreases |s|
  {
    var p := Parent(s);
    if |s| == 1 {
      assert p == [];
    } else {
      KeyBounds(p);
    }
  }

  /** Addressing: distinct identities have distinct keys, so the dictionary
      never confuses two nodes. */
  lemma {:induction false} KeyInjective(s: string, t: string)
    requires IsNodeId(s) && IsNodeId(t) && Key(s) == Key(t)
    ensures s == t
    decreases |s|
  {
    KeyLength(s);
    KeyLength(t);
    assert |s| == |t|;
    if |s| == 1 {
      assert s == [s[0]] == [t[0]] == t;
    } else {
      var ps, pt := Parent(s), Parent(t);
      assert Key(s) % 2 == Digit(s[|s| - 1]) && Key(s) / 2 == Key(ps);
      assert Key(t) % 2 == Digit(t[|t| - 1]) && Key(t) / 2 == Key(pt);
      KeyInjective(ps, pt);
      assert s[|s| - 1] == t[|t| - 1];
    }
  }

  /** An identity is a prefix of the identities of its descendants. */
  lemma ChildPrefix(s: string, c: char, x: string)
    requires s + [c] <= x
    ensures s <= x && |x| > |s| && x[|s|] == c
  {
    assert x[..|s|] == (s + [c])[..|s|];
  }

  /** The identity a lookup follows: the leading symbol stands for the root,
      and every later symbol other than '1' is followed as '0'. */
  function Canonical(id: string): (c: string)
    ensures IsNodeId(c)
    ensures |c| == if |id| == 0 then 1 else |id|
    ensures forall i :: 1 <= i < |id| ==> (c[i] == '1' <==> id[i] == '1')
    ensures IsNodeId(id) ==> c == id
  {
    var rest := if |id| == 0 then [] else id[1..];
    "1" + seq(|rest|, i requires 0 <= i < |rest| => if rest[i] == '1' then '1' else '0')
  }
}
