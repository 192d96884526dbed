/**
 * What merging new hashes into a partial tree means, with no algorithm in
 * sight: the tree grows upwards from the new hashes until nothing follows.
 */
module TreeClosure {
  import opened Basics
  import opened TreeShape

  /** A partial tree in heap order; a hole is None. */
  type Tree = seq<Option<Hash>>

  /** The tree after the new hashes are written into its holes. */
  function Base(t: Tree, add: map<nat, Hash>, i: nat): Option<Hash>
    requires i < |t|
  {
    if t[i].Some? then t[i] else if i in add then Some(add[i]) else None
  }

  ghost predicate NoClash(t: Tree, add: map<nat, Hash>) {
    forall i :: i in add && i < |t| && t[i].Some? ==> t[i].value == add[i]
  }

  /** i was a hole in `t` and is filled in `u`: the "red dots" of the algorithm. */
  predicate Fresh(t: Tree, u: Tree, i: nat) {
    i < |t| && i < |u| && t[i].None? && u[i].Some?
  }

  /** Both children of p are filled and p holds their pair hash. */
  predicate HoldsPairHash(h: PairHash, u: Tree, p: nat) {
    && RChild(p) < |u|
    && u[LChild(p)].Some? && u[RChild(p)].Some?
    && u[p] == Some(h(u[LChild(p)].value, u[RChild(p)].value))
  }

  /**
   * `u` is the upward closure of `t` plus `add`: it extends both, every fresh
   * non-root node is validated against its parent, and nothing is filled that
   * is not given or forced by a fresh child.
   */
  ghost predicate IsUpwardClosure(h: PairHash, t: Tree, add: map<nat, Hash>, u: Tree) {
    && |u| == |t|
    && (forall i: nat :: i < |t| && t[i].Some? ==> u[i] == t[i])
    && (forall i: nat :: i in add && i < |t| ==> u[i] == Some(add[i]))
    && (forall i: nat :: i > 0 && Fresh(t, u, i) ==> HoldsPairHash(h, u, Parent(i)))
    && (forall i: nat :: i < |t| ==> Grounded(t, add, u, i))
  }

  /** A fresh node is given, or has a fresh child. */
  predicate Grounded(t: Tree, add: map<nat, Hash>, u: Tree, i: nat) {
    Fresh(t, u, i) ==> i in add || Fresh(t, u, LChild(i)) || Fresh(t, u, RChild(i))
  }

  /** Every populated non-root node is validated: sibling present, parent equal to the pair hash. */
  ghost predicate Validated(h: PairHash, t: Tree) {
    forall i: nat {:trigger Parent(i)} :: 0 < i < |t| && t[i].Some? ==> HoldsPairHash(h, t, Parent(i))
  }

  lemma {:induction false} UpwardClosureUnique(h: PairHash, t: Tree, add: map<nat, Hash>, u1: Tree, u2: Tree)
    requires IsUpwardClosure(h, t, add, u1) && IsUpwardClosure(h, t, add, u2)
    ensures u1 == u2
  {
    forall i: nat | i < |t|
      ensures u1[i] == u2[i]
    {
      ClosureNodeUnique(h, t, add, u1, u2, i);
    }
  }

  lemma {:induction false} ClosureNodeUnique(h: PairHash, t: Tree, add: map<nat, Hash>, u1: Tree, u2: Tree, i: nat)
    requires IsUpwardClosure(h, t, add, u1) && IsUpwardClosure(h, t, add, u2)
    requires i < |t|
    ensures u1[i] == u2[i]
    decreases |t| - i
  {
    assert Grounded(t, add, u1, i) && Grounded(t, add, u2, i);
    if t[i].None? && i !in add && RChild(i) < |t| {
      ClosureNodeUnique(h, t, add, u1, u2, LChild(i));
      ClosureNodeUnique(h, t, add, u1, u2, RChild(i));
      assert Parent(LChild(i)) == i && Parent(RChild(i)) == i;
      if Fresh(t, u1, LChild(i)) {
        assert Fresh(t, u2, LChild(i));
      } else if Fresh(t, u1, RChild(i)) {
        assert Fresh(t, u2, RChild(i));
      }
    } else if t[i].None? && i !in add && LChild(i) < |t| {
      // a last left child without a sibling forces nothing
      assert Parent(LChild(i)) == i;
      assert !Fresh(t, u1, LChild(i)) && !Fresh(t, u2, LChild(i));
    }
  }

  // ---- The same tree, computed from the leaves up -------------------------

  /** Node i of a tree whose children nodes are already final. */
  function NodeStep(h: PairHash, t: Tree, add: map<nat, Hash>, u: Tree, i: nat): Option<Hash>
    requires i < |t| == |u|
  {
    var l, r := LChild(i), RChild(i);
    if Base(t, add, i).Some? then Base(t, add, i)
    else if r < |u| && u[l].Some? && u[r].Some? && (Fresh(t, u, l) || Fresh(t, u, r)) then
      Some(h(u[l].value, u[r].value))
    else None
  }

  ghost predicate ClosesUp(h: PairHash, t: Tree, add: map<nat, Hash>, u: Tree) {
    && |u| == |t|
    && forall i: nat {:trigger NodeStep(h, t, add, u, i)} :: i < |t| ==> u[i] == NodeStep(h, t, add, u, i)
  }

  /** A node's value depends only on nodes behind it in heap order. */
  lemma NodeStepFrame(h: PairHash, t: Tree, add: map<nat, Hash>, u: Tree, k: nat, v: Option<Hash>)
    requires k < |t| == |u|
    ensures forall i: nat :: k <= i < |t| ==> NodeStep(h, t, add, u[k := v], i) == NodeStep(h, t, add, u, i)
  {
  }

  /** Nodes `from` onwards are final; the ones before are still holes. */
  function CloseFrom(h: PairHash, t: Tree, add: map<nat, Hash>, from: nat): (u: Tree)
    requires from <= |t|
    ensures |u| == |t|
    ensures forall i: nat {:trigger NodeStep(h, t, add, u, i)} :: from <= i < |t| ==> u[i] == NodeStep(h, t, add, u, i)
    decreases |t| - from
  {
    if from == |t| then seq(|t|, i => None)
    else
      var u := CloseFrom(h, t, add, from + 1);
      var v := NodeStep(h, t, add, u, from);
      NodeStepFrame(h, t, add, u, from, v);
      assert forall i: nat {:trigger NodeStep(h, t, add, u[from := v], i)} :: from <= i < |t| ==>
        u[from := v][i] == NodeStep(h, t, add, u, i);
      u[from := v]
  }

  function Closure(h: PairHash, t: Tree, add: map<nat, Hash>): (u: Tree)
    ensures ClosesUp(h, t, add, u)
  {
    CloseFrom(h, t, add, 0)
  }

  lemma ClosesUpUnique(h: PairHash, t: Tree, add: map<nat, Hash>, u1: Tree, u2: Tree)
    requires ClosesUp(h, t, add, u1) && ClosesUp(h, t, add, u2)
    ensures u1 == u2
  {
    var k := |t|;
    while k > 0
      invariant 0 <= k <= |t|
      invariant forall i: nat :: k <= i < |t| ==> u1[i] == u2[i]
    {
      k := k - 1;
      assert u1[k] == NodeStep(h, t, add, u1, k);
      assert u2[k] == NodeStep(h, t, add, u2, k);
    }
  }

  /** Every fresh non-root node of the closure at `level` or deeper is validated. */
  ghost predicate ValidatedFrom(h: PairHash, t: Tree, u: Tree, level: int) {
    forall i: nat :: i > 0 && Fresh(t, u, i) && DepthOf(i) >= level ==> HoldsPairHash(h, u, Parent(i))
  }

  /** The inputs can be merged: no clash, and every fresh node of the closure is validated. */
  ghost predicate Accepts(h: PairHash, t: Tree, add: map<nat, Hash>) {
    && NoClash(t, add)
    && ValidatedFrom(h, t, Closure(h, t, add), 0)
  }

  /** Acceptance means exactly that an upward closure exists, and then it is `Closure`. */
  lemma AcceptsIffClosureExists(h: PairHash, t: Tree, add: map<nat, Hash>)
    ensures Accepts(h, t, add) <==> exists u :: IsUpwardClosure(h, t, add, u)
    ensures Accepts(h, t, add) ==> IsUpwardClosure(h, t, add, Closure(h, t, add))
    ensures forall u :: IsUpwardClosure(h, t, add, u) ==> u == Closure(h, t, add)
  {
    var c := Closure(h, t, add);
    if Accepts(h, t, add) {
      ClosureIsUpward(h, t, add, c);
    }
    forall u | IsUpwardClosure(h, t, add, u)
      ensures u == c && Accepts(h, t, add)
    {
      UpwardClosesUp(h, t, add, u);
      ClosesUpUnique(h, t, add, u, c);
    }
  }

  lemma ClosureIsUpward(h: PairHash, t: Tree, add: map<nat, Hash>, c: Tree)
    requires ClosesUp(h, t, add, c) && NoClash(t, add) && ValidatedFrom(h, t, c, 0)
    ensures IsUpwardClosure(h, t, add, c)
  {
    forall i: nat | i < |t|
      ensures t[i].Some? ==> c[i] == t[i]
      ensures i in add ==> c[i] == Some(add[i])
      ensures Grounded(t, add, c, i)
    {
      assert c[i] == NodeStep(h, t, add, c, i);
    }
  }

  lemma UpwardClosesUp(h: PairHash, t: Tree, add: map<nat, Hash>, u: Tree)
    requires IsUpwardClosure(h, t, add, u)
    ensures ClosesUp(h, t, add, u)
  {
    forall i: nat | i < |t|
      ensures u[i] == NodeStep(h, t, add, u, i)
    {
      assert Grounded(t, add, u, i);
      assert Parent(LChild(i)) == i && Parent(RChild(i)) == i;
    }
  }

  // ---- Closures of validated trees ----------------------------------------

  /** Merging keeps every populated node, and keeps a validated tree validated. */
  lemma ClosureValidated(h: PairHash, t: Tree, add: map<nat, Hash>)
    requires Validated(h, t) && Accepts(h, t, add)
    ensures Validated(h, Closure(h, t, add))
    ensures forall i: nat :: i < |t| && t[i].Some? ==> Closure(h, t, add)[i] == t[i]
  {
    var c := Closure(h, t, add);
    ClosureIsUpward(h, t, add, c);
    forall i: nat | 0 < i < |c| && c[i].Some?
      ensures HoldsPairHash(h, c, Parent(i))
    {
      if !Fresh(t, c, i) {
        assert HoldsPairHash(h, t, Parent(i));
      }
    }
  }
}
