/**
 * Index arithmetic of a complete binary tree stored in heap order: the root is
 * node 0 and the children of node i are nodes 2i+1 and 2i+2.
 */
module TreeShape {

  function Pow2(k: nat): (p: nat)
    ensures p >= 1
  {
    if k == 0 then 1 else 2 * Pow2(k - 1)
  }

  lemma {:induction false} Pow2Monotonic(j: nat, k: nat)
    requires j <= k
    ensures Pow2(j) <= Pow2(k)
    decreases k - j
  {
    if j < k {
      Pow2Monotonic(j + 1, k);
    }
  }

  /** `ans` is the least power of two that is at least x. */
  ghost predicate IsRoundup(x: int, ans: nat) {
    && (exists k: nat :: ans == Pow2(k))
    && x <= ans
    && (forall j: nat :: x <= Pow2(j) ==> ans <= Pow2(j))
  }

  method RoundupPow2(x: int) returns (ans: nat)
    ensures IsRoundup(x, ans)
  {
    ans := 1;
    ghost var k: nat := 0;
    while ans < x
      invariant ans == Pow2(k)
      invariant forall j: nat :: x <= Pow2(j) ==> ans <= Pow2(j)
      decreases x - ans
    {
      forall j: nat | x <= Pow2(j)
        ensures 2 * ans <= Pow2(j)
      {
        if j <= k {
          Pow2Monotonic(j, k);
          assert false;
        }
        Pow2Monotonic(k + 1, j);
      }
      k := k + 1;
      ans := ans * 2;
    }
  }

  /**
   * Leaf 0 of a tree over n leaves is node `firstLeafNum`; it is node n - 1, as
   * the documentation has it, exactly for the powers of two.
   */
  lemma FirstLeafIsDocumented(n: nat, firstLeafNum: nat)
    requires n > 0 && IsRoundup(n, firstLeafNum + 1)
    ensures firstLeafNum == n - 1 <==> exists k: nat :: n == Pow2(k)
  {
    if k: nat :| n == Pow2(k) {
      assert n <= Pow2(k);
    }
  }

  function Parent(i: nat): (p: nat)
    requires i > 0
    ensures p < i
  {
    (i - 1) / 2
  }

  function LChild(i: nat): nat {
    2 * i + 1
  }

  function RChild(i: nat): nat {
    2 * i + 2
  }

  function Sibling(i: nat): nat
    requires i > 0
  {
    var parent := Parent(i);
    if LChild(parent) == i then RChild(parent) else LChild(parent)
  }

  /**
   * The sibling is a different node with the same parent, the relation is
   * symmetric, and it is a neighbour (so a tree of odd size never lacks it).
   */
  lemma SiblingFacts(i: nat)
    requires i > 0
    ensures Sibling(i) != i && Sibling(i) > 0
    ensures Parent(Sibling(i)) == Parent(i)
    ensures Sibling(Sibling(i)) == i
    ensures {i, Sibling(i)} == {LChild(Parent(i)), RChild(Parent(i))}
    ensures Sibling(i) == if i % 2 == 1 then i + 1 else i - 1
  {
    var p := Parent(i);
    assert i == 2 * p + 1 || i == 2 * p + 2;
    assert Parent(2 * p + 1) == p && Parent(2 * p + 2) == p;
    assert {2 * p + 1, 2 * p + 2} == {2 * p + 2, 2 * p + 1};
  }

  /** The largest k with 2^k <= n. */
  function LogFloor2(n: nat): nat
    requires n >= 1
  {
    if n == 1 then 0 else 1 + LogFloor2(n / 2)
  }

  function DepthOf(i: nat): nat {
    LogFloor2(i + 1)
  }

  /** Level d holds exactly the nodes 2^d - 1 up to 2^(d+1) - 2. */
  lemma {:induction false} DepthOfLevel(i: nat, d: nat)
    ensures DepthOf(i) == d <==> Pow2(d) - 1 <= i < Pow2(d + 1) - 1
  {
    if i > 0 && d > 0 {
      DepthOfLevel(Parent(i), d - 1);
      assert (i + 1) / 2 == Parent(i) + 1;
    } else if d > 0 {
      Pow2Monotonic(1, d);
      assert Pow2(1) == 2;
    } else {
      assert Pow2(0) == 1 && Pow2(1) == 2;
    }
  }

  lemma DepthOfParent(i: nat)
    requires i > 0
    ensures DepthOf(i) == DepthOf(Parent(i)) + 1
  {
    assert (i + 1) / 2 == Parent(i) + 1;
  }

  /** A parent is exactly one level up and siblings share a level. */
  lemma DepthOfFamily(i: nat)
    requires i > 0
    ensures DepthOf(i) == DepthOf(Parent(i)) + 1
    ensures DepthOf(Sibling(i)) == DepthOf(i)
  {
    SiblingFacts(i);
    DepthOfParent(i);
    DepthOfParent(Sibling(i));
  }

  /** `a` lies on the chain from `i` up to the root, both ends included. */
  ghost predicate IsAncestor(a: nat, i: nat) {
    a == i || (i > 0 && IsAncestor(a, Parent(i)))
  }

  /** The siblings along the chain from `i` up to the root, deepest first. */
  function SiblingChain(i: nat): seq<nat> {
    if i == 0 then [] else [Sibling(i)] + SiblingChain(Parent(i))
  }

  method NeededFor(i: nat) returns (needed: seq<nat>)
    ensures needed == SiblingChain(i)
  {
    needed := [];
    var here := i;
    while here != 0
      invariant needed + SiblingChain(here) == SiblingChain(i)
    {
      needed := needed + [Sibling(here)];
      here := Parent(here);
    }
  }

  /** The chain holds exactly the siblings of the non-root ancestors of `i`. */
  lemma {:induction false} SiblingChainMembers(i: nat, s: nat)
    ensures s in SiblingChain(i) <==> s > 0 && IsAncestor(Sibling(s), i)
  {
    if s > 0 {
      SiblingFacts(s);
    }
    if i > 0 {
      SiblingFacts(i);
      SiblingChainMembers(Parent(i), s);
    }
  }
}
