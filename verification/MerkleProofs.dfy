/**
 * What the partial tree promises its callers over whole runs: it never holds a
 * hash that differs from the genuine tree unless a collision can be computed,
 * and the hashes it asks for are exactly enough.
 */
module MerkleProofs {
  import opened Basics
  import opened TreeShape
  import opened TreeClosure
  import opened HashTree
  import opened IncompleteHashTree

  // ---- Soundness over runs ------------------------------------------------

  datatype Collision = Collision(a: Hash, b: Hash, c: Hash, d: Hash)

  predicate IsCollision(h: PairHash, x: Collision) {
    (x.a, x.b) != (x.c, x.d) && h(x.a, x.b) == h(x.c, x.d)
  }

  /** Above a wrong node of a validated tree: a wrong parent, or a right parent with a wrong child. */
  lemma WrongNode(h: PairHash, t: Tree, genuine: seq<Hash>, i: nat)
    requires |t| == |genuine| && Validated(h, t) && InnerNodesHash(h, genuine)
    requires 0 < i < |t| && t[i].Some? && t[i].value != genuine[i]
    ensures HoldsPairHash(h, t, Parent(i))
    ensures genuine[Parent(i)] == h(genuine[LChild(Parent(i))], genuine[RChild(Parent(i))])
    ensures (t[LChild(Parent(i))].value, t[RChild(Parent(i))].value)
         != (genuine[LChild(Parent(i))], genuine[RChild(Parent(i))])
  {
    assert HoldsPairHash(h, t, Parent(i));
    assert i == LChild(Parent(i)) || i == RChild(Parent(i));
  }

  /** From a wrong node below a right root to two different pairs with one hash. */
  function FindCollision(h: PairHash, t: Tree, genuine: seq<Hash>, i: nat): (x: Collision)
    requires |t| == |genuine| > 0 && Validated(h, t) && InnerNodesHash(h, genuine)
    requires t[0] == Some(genuine[0])
    requires i < |t| && t[i].Some? && t[i].value != genuine[i]
    ensures IsCollision(h, x)
  {
    var p := Parent(i);
    WrongNode(h, t, genuine, i);
    if t[p].value != genuine[p] then FindCollision(h, t, genuine, p)
    else
      Collision(t[LChild(p)].value, t[RChild(p)].value, genuine[LChild(p)], genuine[RChild(p)])
  }

  /** The arguments of a call and the order in which its dictionaries and sets give up their elements. */
  datatype Call = Call(hashes: map<nat, Hash>, leaves: map<nat, Hash>, order: seq<nat>)

  ghost predicate IsCall(firstLeafNum: nat, size: nat, call: Call) {
    IsPopOrder(call.order, size, Supplied(firstLeafNum, call.hashes, call.leaves))
  }

  ghost predicate AreCalls(firstLeafNum: nat, size: nat, calls: seq<Call>) {
    forall k :: 0 <= k < |calls| ==> IsCall(firstLeafNum, size, calls[k])
  }

  /** The tree after a sequence of calls, some succeeding and some failing. */
  ghost function Run(h: PairHash, firstLeafNum: nat, t: Tree, calls: seq<Call>): Tree
    requires |t| > 0 && AreCalls(firstLeafNum, |t|, calls)
    decreases |calls|
  {
    if calls == [] then t
    else
      assert IsCall(firstLeafNum, |t|, calls[0]);
      Run(h, firstLeafNum, After(h, firstLeafNum, t, calls[0].hashes, calls[0].leaves, calls[0].order), calls[1..])
  }

  /** Every node that the calls name is in the tree. */
  ghost predicate AllInRange(firstLeafNum: nat, t: Tree, calls: seq<Call>) {
    forall k :: 0 <= k < |calls| ==> InRange(t, Supplied(firstLeafNum, calls[k].hashes, calls[k].leaves))
  }

  /** A failing call with everything in range leaves the tree as it was. */
  lemma InRangeIsUndone(h: PairHash, firstLeafNum: nat, t: Tree, call: Call)
    requires |t| > 0 && IsCall(firstLeafNum, |t|, call) && InRange(t, Supplied(firstLeafNum, call.hashes, call.leaves))
    ensures After(h, firstLeafNum, t, call.hashes, call.leaves, call.order) ==
      if Succeeds(h, firstLeafNum, t, call.hashes, call.leaves) then Closure(h, t, Supplied(firstLeafNum, call.hashes, call.leaves)) else t
  {
    hide Closure, Supplied, Accepts, ArgumentsConflict;
  }

  /** Every run within range keeps the tree validated and keeps every node it has once accepted. */
  lemma {:induction false} RunKeeps(h: PairHash, firstLeafNum: nat, t: Tree, calls: seq<Call>)
    requires Validated(h, t) && |t| > 0 && AreCalls(firstLeafNum, |t|, calls) && AllInRange(firstLeafNum, t, calls)
    ensures Validated(h, Run(h, firstLeafNum, t, calls))
    ensures |Run(h, firstLeafNum, t, calls)| == |t|
    ensures forall i: nat :: i < |t| && t[i].Some? ==> Run(h, firstLeafNum, t, calls)[i] == t[i]
    decreases |calls|
  {
    if calls != [] {
      hide Closure, Supplied, Accepts, ArgumentsConflict, Validated, PartlyWritten;
      var hashes, leaves := calls[0].hashes, calls[0].leaves;
      assert IsCall(firstLeafNum, |t|, calls[0]);
      var next := After(h, firstLeafNum, t, hashes, leaves, calls[0].order);
      InRangeIsUndone(h, firstLeafNum, t, calls[0]);
      if Succeeds(h, firstLeafNum, t, hashes, leaves) {
        ClosureValidated(h, t, Supplied(firstLeafNum, hashes, leaves));
      }
      RunKeeps(h, firstLeafNum, next, calls[1..]);
    }
  }

  function Holes(n: nat): Tree {
    seq(n, i => None)
  }

  /** Handing the root to an empty tree stores it and nothing else. */
  lemma RootFirst(h: PairHash, firstLeafNum: nat, root: Hash, order: seq<nat>)
    requires IsCall(firstLeafNum, 2 * firstLeafNum + 1, Call(map[0 := root], map[], order))
    ensures After(h, firstLeafNum, Holes(2 * firstLeafNum + 1), map[0 := root], map[], order)
         == Holes(2 * firstLeafNum + 1)[0 := Some(root)]
  {
    hide Accepts, Closure, IsUpwardClosure, Supplied;
    var t := Holes(2 * firstLeafNum + 1);
    var u := t[0 := Some(root)];
    SuppliedRoot(firstLeafNum, root);
    RootClosure(h, t, u, root);
    AcceptsIffClosureExists(h, t, map[0 := root]);
  }

  lemma SuppliedRoot(firstLeafNum: nat, root: Hash)
    ensures Supplied(firstLeafNum, map[0 := root], map[]) == map[0 := root]
    ensures !ArgumentsConflict(firstLeafNum, map[0 := root], map[])
  {
  }

  lemma RootClosure(h: PairHash, t: Tree, u: Tree, root: Hash)
    requires t == Holes(|t|) && |t| > 0 && u == t[0 := Some(root)]
    ensures IsUpwardClosure(h, t, map[0 := root], u)
  {
    assert forall i: nat :: Fresh(t, u, i) ==> i == 0;
  }

  /** Every run that starts by handing over the root keeps that root, above a validated tree. */
  lemma RootedRun(h: PairHash, firstLeafNum: nat, root: Hash, order: seq<nat>, calls: seq<Call>)
    requires AreCalls(firstLeafNum, 2 * firstLeafNum + 1, [Call(map[0 := root], map[], order)] + calls)
    requires AllInRange(firstLeafNum, Holes(2 * firstLeafNum + 1), calls)
    ensures
      var t := Run(h, firstLeafNum, Holes(2 * firstLeafNum + 1), [Call(map[0 := root], map[], order)] + calls);
      |t| == 2 * firstLeafNum + 1 && Validated(h, t) && t[0] == Some(root)
  {
    hide After, Supplied, Validated;
    var first := Call(map[0 := root], map[], order);
    assert ([first] + calls)[0] == first && ([first] + calls)[1..] == calls;
    RootFirst(h, firstLeafNum, root, order);
    RootValidated(h, 2 * firstLeafNum + 1, root);
    RunKeeps(h, firstLeafNum, Holes(2 * firstLeafNum + 1)[0 := Some(root)], calls);
  }

  lemma RootValidated(h: PairHash, size: nat, root: Hash)
    requires size > 0
    ensures Validated(h, Holes(size)[0 := Some(root)])
  {
  }

  /**
   * Soundness: start from an empty tree, first hand it the root of the genuine
   * tree, then make any calls at all that name only nodes of the tree, with any
   * hashes and in any order. Whatever node the tree then holds is genuine, or a
   * collision of the pair hash can be computed from the two trees.
   */
  lemma Soundness(h: PairHash, emptyLeaf: nat -> Hash, leaves: seq<Hash>, firstLeafNum: nat, genuine: seq<Hash>,
                  order: seq<nat>, calls: seq<Call>, i: nat)
    requires IsMerkleTree(h, emptyLeaf, leaves, firstLeafNum, genuine)
    requires AreCalls(firstLeafNum, |genuine|, [Call(map[0 := genuine[0]], map[], order)] + calls)
    requires AllInRange(firstLeafNum, Holes(|genuine|), calls)
    requires i < |genuine|
    ensures
      var t := Run(h, firstLeafNum, Holes(|genuine|), [Call(map[0 := genuine[0]], map[], order)] + calls);
      && |t| == |genuine| && Validated(h, t) && t[0] == Some(genuine[0])
      && (t[i].Some? && t[i].value != genuine[i] ==> IsCollision(h, FindCollision(h, t, genuine, i)))
  {
    hide Run, Holes, FindCollision, AreCalls, AllInRange;
    RootedRun(h, firstLeafNum, genuine[0], order, calls);
  }

  // ---- Calls that name a node beyond the tree -----------------------------

  /** No supplied node inside the tree is a hole. */
  ghost predicate NothingToFill(t: Tree, add: map<nat, Hash>) {
    forall i :: i in add && i < |t| ==> t[i].Some?
  }

  /** In every order the call leaves the tree as it was. */
  ghost predicate UndoneInEveryOrder(h: PairHash, firstLeafNum: nat, t: Tree, hashes: map<nat, Hash>, leaves: map<nat, Hash>)
    requires |t| > 0
  {
    forall order :: IsPopOrder(order, |t|, Supplied(firstLeafNum, hashes, leaves)) ==> After(h, firstLeafNum, t, hashes, leaves, order) == t
  }

  /** With nothing to fill, stopping half-way changes nothing. */
  lemma NothingWritten(t: Tree, add: map<nat, Hash>, order: seq<nat>)
    requires IsPopOrder(order, |t|, add) && Stops(t, add) != {} && NothingToFill(t, add)
    ensures PartlyWritten(t, add, order) == t
  {
    hide FirstIn;
  }

  lemma FirstThenStop(order: seq<nat>, s: set<nat>, i: nat, j: nat)
    requires |order| >= 2 && order[0] == i && order[1] == j && i != j && i !in s && j in s && forall k :: k in s ==> k in order
    ensures FirstIn(order, s) == j && Precedes(order, i, j)
  {
    assert order[1..][0] == j;
    FirstIsHead(order[1..], s);
    FirstIsHead(order, {j, i});
  }

  /** An order in which a hole is filled and then a node out of range comes. */
  lemma SpoilingOrder(t: Tree, add: map<nat, Hash>) returns (order: seq<nat>)
    requires !InRange(t, add) && !NothingToFill(t, add)
    ensures IsPopOrder(order, |t|, add) && AddOutcome(t, add, order).OutOfRange? && PartlyWritten(t, add, order) != t
  {
    hide FirstIn, Precedes;
    var i :| i in add && i < |t| && t[i].None?;
    var j :| j in add && j >= |t|;
    var others := SomeOrder(j, |t|, add.Keys);
    order := [i] + others;
    FirstThenStop(order, Stops(t, add), i, j);
    assert PartlyWritten(t, add, order)[i] == Some(add[i]);
  }

  /**
   * Exactly when a failing call is sure to leave the tree as it was: if its
   * arguments contradict each other, or all nodes are in range, or there is no
   * hole to fill. Otherwise there is an order in which an IndexError keeps hashes.
   */
  lemma FailureIsUndone(h: PairHash, firstLeafNum: nat, t: Tree, hashes: map<nat, Hash>, leaves: map<nat, Hash>)
    requires |t| > 0 && !Succeeds(h, firstLeafNum, t, hashes, leaves)
    ensures
      var add := Supplied(firstLeafNum, hashes, leaves);
      UndoneInEveryOrder(h, firstLeafNum, t, hashes, leaves) <==>
        ArgumentsConflict(firstLeafNum, hashes, leaves) || InRange(t, add) || NothingToFill(t, add)
  {
    hide Closure, Supplied, Accepts, ArgumentsConflict, FirstIn, PartlyWritten, InRange, NothingToFill, IsPopOrder;
    var add := Supplied(firstLeafNum, hashes, leaves);
    if ArgumentsConflict(firstLeafNum, hashes, leaves) || InRange(t, add) || NothingToFill(t, add) {
      forall order | IsPopOrder(order, |t|, add)
        ensures After(h, firstLeafNum, t, hashes, leaves, order) == t
      {
        if InRange(t, add) {
          InRangeIsUndone(h, firstLeafNum, t, Call(hashes, leaves, order));
        } else if NothingToFill(t, add) && AddOutcome(t, add, order).OutOfRange? {
          NothingWritten(t, add, order);
        }
      }
    } else {
      var order := SpoilingOrder(t, add);
      assert After(h, firstLeafNum, t, hashes, leaves, order) == PartlyWritten(t, add, order);
    }
  }

  const BEYOND: map<nat, Hash> := map[1 := "bad", 3 := "y"]
  const BEYOND_ORDER: seq<nat> := [1, 3, 0, 2]

  lemma BeyondArguments(t: Tree)
    requires |t| == 3 && t[1].None?
    ensures Supplied(1, BEYOND, map[]) == BEYOND && !ArgumentsConflict(1, BEYOND, map[])
    ensures IsPopOrder(BEYOND_ORDER, 3, BEYOND) && Stops(t, BEYOND) == {3}
  {
    assert BEYOND_ORDER[0] == 1 && BEYOND_ORDER[1] == 3 && BEYOND_ORDER[2] == 0 && BEYOND_ORDER[3] == 2;
  }

  lemma BeyondOrder()
    ensures 1 in BEYOND_ORDER && 3 in BEYOND_ORDER && FirstIn(BEYOND_ORDER, {3}) == 3 && Precedes(BEYOND_ORDER, 1, 3)
  {
    assert BEYOND_ORDER[0] == 1 && BEYOND_ORDER[1] == 3 && BEYOND_ORDER[2] == 0 && BEYOND_ORDER[3] == 2;
  }

  /**
   * Why soundness is about calls within range: this one raises an IndexError and
   * leaves, beside the root of any genuine tree of two leaves, a hash that is not
   * validated and differs from the genuine one.
   */
  lemma OutOfRangeSpoils(h: PairHash, genuine: seq<Hash>)
    requires |genuine| == 3 && InnerNodesHash(h, genuine) && genuine[1] != "bad"
    ensures
      var t: Tree := [Some(genuine[0]), None, None];
      && Validated(h, t) && Genuine(genuine, t) && IsCall(1, 3, Call(BEYOND, map[], BEYOND_ORDER))
      && OutcomeOf(h, 1, t, BEYOND, map[], BEYOND_ORDER) == OutOfRange
      && var after := After(h, 1, t, BEYOND, map[], BEYOND_ORDER);
      && |after| == 3 && !Validated(h, after) && !Genuine(genuine, after)
  {
    hide Supplied, ArgumentsConflict, Stops, FirstIn, Precedes, IsPopOrder, LevelsOutcome, Closure, Accepts;
    var t: Tree := [Some(genuine[0]), None, None];
    BeyondArguments(t);
    BeyondOrder();
    var after := After(h, 1, t, BEYOND, map[], BEYOND_ORDER);
    assert 3 in BEYOND && !InRange(t, BEYOND);
    assert after == PartlyWritten(t, BEYOND, BEYOND_ORDER);
    assert after[1] == Some("bad");
    assert 2 !in BEYOND && after[2] == t[2];
    assert !HoldsPairHash(h, after, Parent(1));
  }

  // ---- Trees and inputs taken from the genuine tree -----------------------

  ghost predicate Genuine(genuine: seq<Hash>, t: Tree) {
    |t| == |genuine| && forall i: nat :: i < |t| && t[i].Some? ==> t[i].value == genuine[i]
  }

  /** The genuine values of the nodes in `which`. */
  function Excerpt(genuine: seq<Hash>, which: set<nat>): map<nat, Hash>
    requires forall i :: i in which ==> i < |genuine|
  {
    map i | i in which :: genuine[i]
  }

  lemma {:induction false} ClosureGenuine(h: PairHash, genuine: seq<Hash>, t: Tree, which: set<nat>, c: Tree, i: nat)
    requires Genuine(genuine, t) && InnerNodesHash(h, genuine)
    requires forall i :: i in which ==> i < |genuine|
    requires ClosesUp(h, t, Excerpt(genuine, which), c)
    requires i < |c|
    ensures c[i].Some? ==> c[i].value == genuine[i]
    decreases |c| - i
  {
    assert c[i] == NodeStep(h, t, Excerpt(genuine, which), c, i);
    if RChild(i) < |c| {
      ClosureGenuine(h, genuine, t, which, c, LChild(i));
      ClosureGenuine(h, genuine, t, which, c, RChild(i));
    }
  }

  /** With genuine inputs no parent can mismatch, so only a missing sibling stops a call. */
  lemma GenuineNeverMismatches(h: PairHash, genuine: seq<Hash>, t: Tree, which: set<nat>, c: Tree, i: nat)
    requires Genuine(genuine, t) && InnerNodesHash(h, genuine)
    requires forall i :: i in which ==> i < |genuine|
    requires ClosesUp(h, t, Excerpt(genuine, which), c)
    requires i > 0 && Fresh(t, c, i) && Sibling(i) < |c| && c[Sibling(i)].Some?
    ensures HoldsPairHash(h, c, Parent(i))
  {
    var p := Parent(i);
    SiblingFacts(i);
    assert i == LChild(p) || i == RChild(p);
    assert c[p] == NodeStep(h, t, Excerpt(genuine, which), c, p);
    ClosureGenuine(h, genuine, t, which, c, p);
    ClosureGenuine(h, genuine, t, which, c, LChild(p));
    ClosureGenuine(h, genuine, t, which, c, RChild(p));
  }

  // ---- Which nodes a call about one leaf can touch ------------------------

  lemma {:induction false} AncestorDepth(a: nat, i: nat)
    requires IsAncestor(a, i)
    ensures DepthOf(a) <= DepthOf(i) && (DepthOf(a) == DepthOf(i) ==> a == i)
  {
    if a != i {
      AncestorDepth(a, Parent(i));
      DepthOfFamily(i);
    }
  }

  lemma {:induction false} NotBothSiblings(a: nat, i: nat)
    requires a > 0 && IsAncestor(a, i)
    ensures !IsAncestor(Sibling(a), i)
  {
    SiblingFacts(a);
    DepthOfFamily(a);
    if a == i {
      if IsAncestor(Sibling(a), i) {
        AncestorDepth(Sibling(a), i);
      }
    } else {
      if Sibling(a) == i {
        AncestorDepth(a, i);
      } else {
        NotBothSiblings(a, Parent(i));
      }
    }
  }

  lemma {:induction false} ParentOfAncestor(a: nat, i: nat)
    requires a > 0 && IsAncestor(a, i)
    ensures IsAncestor(Parent(a), i)
  {
    if a != i {
      ParentOfAncestor(a, Parent(i));
    }
  }

  /** Supplying only `leaf` and siblings along its chain fills only that chain and those siblings. */
  lemma {:induction false} FreshNearChain(h: PairHash, t: Tree, add: map<nat, Hash>, c: Tree, leaf: nat, i: nat)
    requires ClosesUp(h, t, add, c)
    requires forall j :: j in add ==> j == leaf || j in SiblingChain(leaf)
    requires Fresh(t, c, i)
    ensures IsAncestor(i, leaf) || i in SiblingChain(leaf)
    ensures i !in add ==> IsAncestor(i, leaf)
    decreases |c| - i
  {
    if i !in add {
      assert c[i] == NodeStep(h, t, add, c, i);
      var j := if Fresh(t, c, LChild(i)) then LChild(i) else RChild(i);
      assert Parent(j) == i;
      FreshNearChain(h, t, add, c, leaf, j);
      SiblingChainMembers(leaf, j);
      SiblingFacts(j);
      ParentOfAncestor(if IsAncestor(j, leaf) then j else Sibling(j), leaf);
    }
  }

  /** In a validated tree everything above a populated node, and beside it, is populated. */
  lemma {:induction false} PopulatedChain(h: PairHash, t: Tree, i: nat)
    requires Validated(h, t) && i < |t| && t[i].Some?
    ensures forall s :: s in SiblingChain(i) ==> s < |t| && t[s].Some?
  {
    if i > 0 {
      SiblingFacts(i);
      assert HoldsPairHash(h, t, Parent(i));
      PopulatedChain(h, t, Parent(i));
    }
  }

  // ---- Completeness -------------------------------------------------------

  lemma ChainTail(i: nat)
    requires i > 0
    ensures forall s :: s in SiblingChain(i) <==> s == Sibling(i) || s in SiblingChain(Parent(i))
  {
    assert SiblingChain(i) == [Sibling(i)] + SiblingChain(Parent(i));
  }

  /** One step up the chain: a filled node with a filled sibling has a filled parent, fresh if both are fresh. */
  lemma ParentFills(h: PairHash, t: Tree, add: map<nat, Hash>, c: Tree, i: nat)
    requires Validated(h, t) && ClosesUp(h, t, add, c)
    requires 0 < i < |c| && c[i].Some? && Sibling(i) < |c| && c[Sibling(i)].Some?
    ensures c[Parent(i)].Some?
  {
    var p := Parent(i);
    SiblingFacts(i);
    assert c[i] == NodeStep(h, t, add, c, i);
    assert i == LChild(p) || i == RChild(p);
    assert c[p] == NodeStep(h, t, add, c, p);
    if t[i].Some? {
      assert HoldsPairHash(h, t, p);
    }
  }

  /** If the chain of `here` has all its siblings, every ancestor gets filled. */
  lemma {:induction false} ChainFills(h: PairHash, t: Tree, add: map<nat, Hash>, c: Tree, here: nat, a: nat)
    requires Validated(h, t) && ClosesUp(h, t, add, c)
    requires here < |c| && c[here].Some? && IsAncestor(a, here)
    requires forall s :: s in SiblingChain(here) ==> s < |c| && c[s].Some?
    ensures a < |c| && c[a].Some?
  {
    if a != here {
      ChainTail(here);
      assert Sibling(here) in SiblingChain(here);
      ParentFills(h, t, add, c, here);
      ChainFills(h, t, add, c, Parent(here), a);
    }
  }

  /** A call that hands over leaf `leafnum` in `leaves` and the nodes in `given` in `hashes`, all genuine. */
  lemma LeafCall(genuine: seq<Hash>, firstLeafNum: nat, leafnum: nat, given: set<nat>)
    requires firstLeafNum + leafnum < |genuine| && forall i :: i in given ==> i < |genuine|
    ensures
      var hashes, leaves := Excerpt(genuine, given), map[leafnum := genuine[firstLeafNum + leafnum]];
      && !ArgumentsConflict(firstLeafNum, hashes, leaves)
      && Supplied(firstLeafNum, hashes, leaves) == Excerpt(genuine, given + {firstLeafNum + leafnum})
  {
    var hashes, leaves := Excerpt(genuine, given), map[leafnum := genuine[firstLeafNum + leafnum]];
    forall k: nat
      ensures !ConflictAt(firstLeafNum, hashes, leaves, k)
    {
    }
    assert leaves.Keys == {leafnum} && leafnum in leaves.Keys;
    assert NodeNumbers(firstLeafNum, leaves.Keys) == {firstLeafNum + leafnum};
  }

  lemma ChainAccepted(h: PairHash, genuine: seq<Hash>, t: Tree, leaf: nat)
    requires Validated(h, t) && Genuine(genuine, t) && InnerNodesHash(h, genuine)
    requires leaf < |t| && |t| % 2 == 1
    ensures var add := Excerpt(genuine, Needed(t, leaf) + {leaf});
      Accepts(h, t, add) && Closure(h, t, add)[leaf] == Some(genuine[leaf])
  {
    var which := Needed(t, leaf) + {leaf};
    var add := Excerpt(genuine, which);
    var c := Closure(h, t, add);
    SiblingChainInRange(leaf, |t|);
    forall s | s in SiblingChain(leaf) + [leaf]
      ensures s < |c| && c[s].Some?
    {
      assert c[s] == NodeStep(h, t, add, c, s);
    }
    forall i: nat | i > 0 && Fresh(t, c, i)
      ensures HoldsPairHash(h, c, Parent(i))
    {
      FreshNearChain(h, t, add, c, leaf, i);
      SiblingFacts(i);
      SiblingChainMembers(leaf, i);
      SiblingChainMembers(leaf, Sibling(i));
      if i in SiblingChain(leaf) {
        ChainFills(h, t, add, c, leaf, Sibling(i));
      }
      GenuineNeverMismatches(h, genuine, t, which, c, i);
    }
    ClosureGenuine(h, genuine, t, which, c, leaf);
  }

  /**
   * Completeness: on a validated tree of genuine hashes, handing over leaf
   * `leafnum` with the genuine values at exactly the nodes that
   * `NeededHashes(leafnum)` names always succeeds, stores the leaf, and leaves
   * nothing more to be asked for about it.
   */
  lemma NeededSuffices(h: PairHash, genuine: seq<Hash>, firstLeafNum: nat, t: Tree, leafnum: nat, call: Call)
    requires Validated(h, t) && Genuine(genuine, t) && InnerNodesHash(h, genuine)
    requires |t| == 2 * firstLeafNum + 1 && leafnum <= firstLeafNum && IsCall(firstLeafNum, |t|, call)
    requires call.hashes == Excerpt(genuine, Needed(t, firstLeafNum + leafnum))
    requires call.leaves == map[leafnum := genuine[firstLeafNum + leafnum]]
    ensures Succeeds(h, firstLeafNum, t, call.hashes, call.leaves)
    ensures
      var leaf, after := firstLeafNum + leafnum, After(h, firstLeafNum, t, call.hashes, call.leaves, call.order);
      |after| == |t| && after[leaf] == Some(genuine[leaf]) && Needed(after, leaf) == {}
  {
    hide Closure, Accepts, Supplied;
    var leaf := firstLeafNum + leafnum;
    var add := Excerpt(genuine, Needed(t, leaf) + {leaf});
    LeafCall(genuine, firstLeafNum, leafnum, Needed(t, leaf));
    ChainAccepted(h, genuine, t, leaf);
    ClosureValidated(h, t, add);
    PopulatedChain(h, Closure(h, t, add), leaf);
  }

  // ---- Minimality ---------------------------------------------------------

  /** A needed sibling that is not supplied stays a hole. */
  lemma OmittedStaysHole(h: PairHash, t: Tree, add: map<nat, Hash>, c: Tree, leaf: nat, s: nat)
    requires ClosesUp(h, t, add, c)
    requires forall j :: j in add ==> j == leaf || j in SiblingChain(leaf)
    requires s in SiblingChain(leaf) && s < |t| && t[s].None? && s !in add
    ensures c[s].None?
  {
    if Fresh(t, c, s) {
      FreshNearChain(h, t, add, c, leaf, s);
      SiblingChainMembers(leaf, s);
      NotBothSiblings(s, leaf);
    }
  }

  /** Climbing from a fresh node of the chain, the first omitted sibling stops the call. */
  lemma {:induction false} OmissionBlocks(h: PairHash, t: Tree, add: map<nat, Hash>, c: Tree, leaf: nat, here: nat, omitted: nat)
    requires Validated(h, t) && ClosesUp(h, t, add, c)
    requires forall j :: j in add ==> j == leaf || j in SiblingChain(leaf)
    requires forall s :: s in SiblingChain(here) ==> s in SiblingChain(leaf) && s < |t|
    requires Fresh(t, c, here)
    requires omitted in SiblingChain(here) && t[omitted].None? && omitted !in add
    ensures exists i: nat :: LacksSibling(t, c, i)
  {
    ChainTail(here);
    assert Sibling(here) in SiblingChain(here);
    if c[Sibling(here)].None? {
      assert LacksSibling(t, c, here);
    } else {
      if omitted == Sibling(here) {
        OmittedStaysHole(h, t, add, c, leaf, omitted);
        assert false;
      }
      ParentFills(h, t, add, c, here);
      if t[Parent(here)].Some? {
        PopulatedChain(h, t, Parent(here));
        assert false;
      }
      OmissionBlocks(h, t, add, c, leaf, Parent(here), omitted);
    }
  }

  lemma OmissionLacksSibling(h: PairHash, genuine: seq<Hash>, t: Tree, leaf: nat, given: set<nat>)
    requires Validated(h, t) && |t| == |genuine|
    requires leaf < |t| && |t| % 2 == 1
    requires given < Needed(t, leaf)
    ensures exists i: nat :: LacksSibling(t, Closure(h, t, Excerpt(genuine, given + {leaf})), i)
  {
    var add := Excerpt(genuine, given + {leaf});
    var c := Closure(h, t, add);
    var omitted := InDifference(given, Needed(t, leaf));
    NotInOwnChain(leaf);
    SiblingChainInRange(leaf, |t|);
    if t[leaf].Some? {
      PopulatedChain(h, t, leaf);
      assert false;
    }
    assert c[leaf] == NodeStep(h, t, add, c, leaf);
    OmissionBlocks(h, t, add, c, leaf, leaf, omitted);
  }

  lemma InDifference(a: set<nat>, b: set<nat>) returns (x: nat)
    requires a < b
    ensures x in b && x !in a
  {
    assert forall x :: x in b ==> x in b - a || x in a;
    x :| x in b - a;
  }

  /**
   * Minimality: with any of the needed hashes left out, the only way the call
   * can end is NotEnoughHashesError, whatever order nodes are popped in.
   */
  lemma OmissionNeverSuffices(h: PairHash, genuine: seq<Hash>, firstLeafNum: nat, t: Tree, leafnum: nat,
                              given: set<nat>, r: Outcome)
    requires Validated(h, t) && Genuine(genuine, t) && InnerNodesHash(h, genuine)
    requires |t| == 2 * firstLeafNum + 1 && leafnum <= firstLeafNum
    requires given < Needed(t, firstLeafNum + leafnum)
    requires MayReturn(h, firstLeafNum, t, Excerpt(genuine, given), map[leafnum := genuine[firstLeafNum + leafnum]], r)
    ensures r == NotEnoughHashes
  {
    var leaf := firstLeafNum + leafnum;
    var which := given + {leaf};
    var c := Closure(h, t, Excerpt(genuine, which));
    LeafCall(genuine, firstLeafNum, leafnum, given);
    OmissionLacksSibling(h, genuine, t, leaf, given);
    var i: nat :| LacksSibling(t, c, i);
    if r.Accepted? {
      SiblingFacts(i);
      assert false;
    } else if r.BadHash? {
      var j: nat :| Mismatches(h, t, c, j) && ValidatedFrom(h, t, c, DepthOf(j) + 1);
      GenuineNeverMismatches(h, genuine, t, which, c, j);
      assert false;
    }
  }

  lemma NotInOwnChain(i: nat)
    ensures i !in SiblingChain(i)
  {
    SiblingChainMembers(i, i);
    if i > 0 && IsAncestor(Sibling(i), i) {
      assert IsAncestor(i, i);
      NotBothSiblings(i, i);
    }
  }

  // ---- Which exception is raised ------------------------------------------

  lemma FirstIsHead(order: seq<nat>, s: set<nat>)
    requires order != [] && order[0] in s && forall i :: i in s ==> i in order
    ensures FirstIn(order, s) == order[0]
  {
  }

  /** Levels that are validated do not matter. */
  lemma {:induction false} SkipLevels(h: PairHash, t: Tree, c: Tree, order: seq<nat>, level: nat, from: nat)
    requires |c| == |t| && from <= level && (forall i: nat :: i < |c| ==> i in order)
    requires ValidatedFrom(h, t, c, from)
    ensures LevelsOutcome(h, t, c, order, level) == LevelsOutcome(h, t, c, order, from)
    decreases level
  {
    hide HoldsPairHash, DepthOf;
    if from < level {
      NoFaults(h, t, c, level - 1);
      SkipLevels(h, t, c, order, level - 1, from);
    }
  }

  /** If the deepest level with faults gives up i first, i decides. */
  lemma DeepestFaultDecides(h: PairHash, t: Tree, c: Tree, order: seq<nat>, i: nat)
    requires |c| == |t| && (forall i: nat :: i < |c| ==> i in order) && order != [] && order[0] == i
    requires IsFault(h, t, c, i) && ValidatedFrom(h, t, c, DepthOf(i) + 1)
    ensures LevelsOutcome(h, t, c, order, DepthOf(|t| - 1) + 1) == FaultKind(c, i)
  {
    hide HoldsPairHash, DepthOf, ValidatedFrom, FirstIn;
    DeepestIsChildless(i, |t|);
    SkipLevels(h, t, c, order, DepthOf(|t| - 1) + 1, DepthOf(i) + 1);
    assert i in Faults(h, t, c, DepthOf(i));
    FirstIsHead(order, Faults(h, t, c, DepthOf(i)));
  }

  /** Some order in which everything comes out, `first` before all else. */
  lemma {:induction false} SomeOrder(first: nat, size: nat, named: set<nat>) returns (order: seq<nat>)
    ensures order != [] && order[0] == first
    ensures (forall i: nat :: i < size ==> i in order) && (forall i :: i in named ==> i in order)
    decreases size, named
  {
    if size > 0 {
      order := SomeOrder(first, size - 1, named);
      order := order + [size - 1];
    } else if named != {} {
      var x :| x in named;
      order := SomeOrder(first, 0, named - {x});
      order := order + [x];
    } else {
      order := [first];
    }
  }

  /** The node that must come out first for a call to end with `r`. */
  lemma DecidingNode(h: PairHash, t: Tree, add: map<nat, Hash>, r: Outcome) returns (i: nat)
    requires |t| % 2 == 1 && Explains(h, t, add, r) && !r.Accepted?
    ensures
      if NoClash(t, add) && InRange(t, add) then
        var c := Closure(h, t, add);
        IsFault(h, t, c, i) && FaultKind(c, i) == r && ValidatedFrom(h, t, c, DepthOf(i) + 1)
      else i in Stops(t, add) && r == if i >= |t| then OutOfRange else BadHash
  {
    hide HoldsPairHash, DepthOf, ValidatedFrom;
    var c := Closure(h, t, add);
    if r.OutOfRange? {
      i :| i in add && i >= |t|;
    } else if !NoClash(t, add) {
      i :| i in add && i < |t| && t[i].Some? && t[i].value != add[i];
    } else if r.BadHash? {
      i :| Mismatches(h, t, c, i) && ValidatedFrom(h, t, c, DepthOf(i) + 1);
      FaultIs(h, t, c, i);
    } else {
      i :| LacksSibling(t, c, i) && ValidatedFrom(h, t, c, DepthOf(i) + 1);
      FaultIs(h, t, c, i);
    }
  }

  /** The explanation is tight: each way in which a call may end is the way it does end in some order. */
  lemma EveryOutcomeHappens(h: PairHash, firstLeafNum: nat, t: Tree, hashes: map<nat, Hash>, leaves: map<nat, Hash>, r: Outcome)
      returns (order: seq<nat>)
    requires |t| % 2 == 1 && MayReturn(h, firstLeafNum, t, hashes, leaves, r)
    ensures IsPopOrder(order, |t|, Supplied(firstLeafNum, hashes, leaves))
    ensures OutcomeOf(h, firstLeafNum, t, hashes, leaves, order) == r
  {
    hide Closure, Supplied, Explains, FirstIn, ValidatedFrom, DepthOf, ArgumentsConflict, IsFault, FaultKind, LevelsOutcome;
    var add := Supplied(firstLeafNum, hashes, leaves);
    if ArgumentsConflict(firstLeafNum, hashes, leaves) {
      order := SomeOrder(0, |t|, add.Keys);
    } else if r.Accepted? {
      order := SomeOrder(0, |t|, add.Keys);
      ExplainsFailure(h, t, add, r);
      OutcomeExplained(h, firstLeafNum, t, hashes, leaves, order);
    } else {
      var i := DecidingNode(h, t, add, r);
      order := SomeOrder(i, |t|, add.Keys);
      NoStops(t, add);
      if Stops(t, add) == {} {
        DeepestFaultDecides(h, t, Closure(h, t, add), order, i);
      } else {
        FirstIsHead(order, Stops(t, add));
      }
    }
  }

  /** Two reasons for different exceptions, neither of which comes before the other. */
  ghost predicate Ambiguous(h: PairHash, t: Tree, add: map<nat, Hash>) {
    var c := Closure(h, t, add);
    if NoClash(t, add) && InRange(t, add) then
      exists i: nat, j: nat ::
        Mismatches(h, t, c, i) && LacksSibling(t, c, j) && DepthOf(i) == DepthOf(j) && ValidatedFrom(h, t, c, DepthOf(i) + 1)
    else !NoClash(t, add) && !InRange(t, add)
  }

  lemma SameLevel(h: PairHash, t: Tree, c: Tree, i: nat, j: nat)
    requires |c| == |t| && |c| % 2 == 1 && Mismatches(h, t, c, i) && LacksSibling(t, c, j)
    requires ValidatedFrom(h, t, c, DepthOf(i) + 1) && ValidatedFrom(h, t, c, DepthOf(j) + 1)
    ensures DepthOf(i) == DepthOf(j)
  {
    hide HoldsPairHash, DepthOf;
    FaultIs(h, t, c, i);
    FaultIs(h, t, c, j);
  }

  lemma TwoExplanations(h: PairHash, t: Tree, add: map<nat, Hash>, r1: Outcome, r2: Outcome)
    requires |t| % 2 == 1 && Explains(h, t, add, r1) && Explains(h, t, add, r2) && r1 != r2
    ensures Ambiguous(h, t, add)
  {
    hide Closure, HoldsPairHash, DepthOf, ValidatedFrom, Accepts;
    ExplainsFailure(h, t, add, r1);
    ExplainsFailure(h, t, add, r2);
    if NoClash(t, add) && InRange(t, add) {
      var c := Closure(h, t, add);
      var i: nat :| Mismatches(h, t, c, i) && ValidatedFrom(h, t, c, DepthOf(i) + 1);
      var j: nat :| LacksSibling(t, c, j) && ValidatedFrom(h, t, c, DepthOf(j) + 1);
      SameLevel(h, t, c, i, j);
    }
  }

  lemma AmbiguousExplains(h: PairHash, t: Tree, add: map<nat, Hash>)
    requires Ambiguous(h, t, add)
    ensures Explains(h, t, add, BadHash) && Explains(h, t, add, if InRange(t, add) then NotEnoughHashes else OutOfRange)
  {
    hide Closure, HoldsPairHash, DepthOf, ValidatedFrom;
    var c := Closure(h, t, add);
    if NoClash(t, add) && InRange(t, add) {
      var i: nat, j: nat :|
        Mismatches(h, t, c, i) && LacksSibling(t, c, j) && DepthOf(i) == DepthOf(j) && ValidatedFrom(h, t, c, DepthOf(i) + 1);
      assert ValidatedFrom(h, t, c, DepthOf(j) + 1);
    }
  }

  /** The call ends in the same way whatever comes out first. */
  ghost predicate Determined(h: PairHash, firstLeafNum: nat, t: Tree, hashes: map<nat, Hash>, leaves: map<nat, Hash>)
    requires |t| > 0
  {
    var add := Supplied(firstLeafNum, hashes, leaves);
    forall o1, o2 :: IsPopOrder(o1, |t|, add) && IsPopOrder(o2, |t|, add) ==>
      OutcomeOf(h, firstLeafNum, t, hashes, leaves, o1) == OutcomeOf(h, firstLeafNum, t, hashes, leaves, o2)
  }

  /**
   * Exactly when the order of popping has no influence on how a call ends: unless
   * the deepest level with unvalidated nodes has faults of both kinds, or a clash
   * with the tree comes together with a node out of range.
   */
  lemma OrderMatters(h: PairHash, firstLeafNum: nat, t: Tree, hashes: map<nat, Hash>, leaves: map<nat, Hash>)
    requires |t| % 2 == 1
    ensures Determined(h, firstLeafNum, t, hashes, leaves) <==>
      ArgumentsConflict(firstLeafNum, hashes, leaves) || !Ambiguous(h, t, Supplied(firstLeafNum, hashes, leaves))
  {
    hide Supplied, Explains, Ambiguous, IsPopOrder, OutcomeOf, InRange, ArgumentsConflict;
    var add := Supplied(firstLeafNum, hashes, leaves);
    if !ArgumentsConflict(firstLeafNum, hashes, leaves) && Ambiguous(h, t, add) {
      AmbiguousExplains(h, t, add);
      var o1 := EveryOutcomeHappens(h, firstLeafNum, t, hashes, leaves, BadHash);
      var o2 := EveryOutcomeHappens(h, firstLeafNum, t, hashes, leaves, if InRange(t, add) then NotEnoughHashes else OutOfRange);
      assert !Determined(h, firstLeafNum, t, hashes, leaves);
    } else {
      forall o1, o2 | IsPopOrder(o1, |t|, add) && IsPopOrder(o2, |t|, add)
        ensures OutcomeOf(h, firstLeafNum, t, hashes, leaves, o1) == OutcomeOf(h, firstLeafNum, t, hashes, leaves, o2)
      {
        var r1, r2 := OutcomeOf(h, firstLeafNum, t, hashes, leaves, o1), OutcomeOf(h, firstLeafNum, t, hashes, leaves, o2);
        OutcomeExplained(h, firstLeafNum, t, hashes, leaves, o1);
        OutcomeExplained(h, firstLeafNum, t, hashes, leaves, o2);
        if !ArgumentsConflict(firstLeafNum, hashes, leaves) && r1 != r2 {
          TwoExplanations(h, t, add, r1, r2);
        }
      }
    }
  }

  /** Nodes 3 and 4 will contradict node 1, node 5 has no sibling, and all three are on one level. */
  const TWO_FAULTS: map<nat, Hash> := map[1 := "x", 3 := "a", 4 := "b", 5 := "c"]

  function TwoFaultsTree(): Tree {
    [None, Some("x"), None, Some("a"), Some("b"), Some("c"), None]
  }

  lemma TwoFaultsClosure(h: PairHash)
    ensures Closure(h, Holes(7), TWO_FAULTS) == TwoFaultsTree()
  {
    var t, c := Holes(7), TwoFaultsTree();
    forall i: nat | i < 7
      ensures c[i] == NodeStep(h, t, TWO_FAULTS, c, i)
    {
    }
    ClosesUpUnique(h, t, TWO_FAULTS, c, Closure(h, t, TWO_FAULTS));
  }

  lemma ShallowNodes(i: nat)
    requires i < 7
    ensures DepthOf(i) < 3 && (3 <= i ==> DepthOf(i) == 2)
  {
    DepthOfLevel(i, 2);
    DepthOfLevel(i, 1);
    DepthOfLevel(i, 0);
    assert Pow2(1) == 2 && Pow2(2) == 4 && Pow2(3) == 8;
  }

  lemma TwoFaultsValidated(h: PairHash)
    ensures ValidatedFrom(h, Holes(7), TwoFaultsTree(), 3)
    ensures DepthOf(3) == 2 && DepthOf(5) == 2
  {
    hide DepthOf;
    forall i: nat | i < 7
      ensures DepthOf(i) < 3 && (3 <= i ==> DepthOf(i) == 2)
    {
      ShallowNodes(i);
    }
  }

  lemma TwoFaultsArguments()
    ensures Supplied(3, TWO_FAULTS, map[]) == TWO_FAULTS && !ArgumentsConflict(3, TWO_FAULTS, map[])
    ensures Stops(Holes(7), TWO_FAULTS) == {}
  {
    NoStops(Holes(7), TWO_FAULTS);
  }

  lemma SevenNodes(a: nat, b: nat, order: seq<nat>)
    requires order == [a, b, 0, 1, 2, 3, 4, 5, 6]
    ensures IsPopOrder(order, 7, TWO_FAULTS)
  {
    forall i: nat | i < 7
      ensures i in order
    {
      assert order[i + 2] == i;
    }
  }

  /** The order decides between the two exceptions: popping 3 first raises the one, popping 5 first the other. */
  lemma ExceptionDependsOnOrder(h: PairHash)
    requires h("a", "b") != "x"
    ensures
      var o1, o2 := [3, 5, 0, 1, 2, 3, 4, 5, 6], [5, 3, 0, 1, 2, 3, 4, 5, 6];
      && IsPopOrder(o1, 7, Supplied(3, TWO_FAULTS, map[])) && OutcomeOf(h, 3, Holes(7), TWO_FAULTS, map[], o1) == BadHash
      && IsPopOrder(o2, 7, Supplied(3, TWO_FAULTS, map[])) && OutcomeOf(h, 3, Holes(7), TWO_FAULTS, map[], o2) == NotEnoughHashes
  {
    hide DepthOf, Closure, Supplied, LevelsOutcome, IsPopOrder, ValidatedFrom, Stops, ArgumentsConflict, FirstIn;
    var t, c := Holes(7), TwoFaultsTree();
    var o1, o2 := [3, 5, 0, 1, 2, 3, 4, 5, 6], [5, 3, 0, 1, 2, 3, 4, 5, 6];
    TwoFaultsArguments();
    TwoFaultsClosure(h);
    TwoFaultsValidated(h);
    SevenNodes(3, 5, o1);
    SevenNodes(5, 3, o2);
    InSeven(o1);
    InSeven(o2);
    assert IsFault(h, t, c, 3) && FaultKind(c, 3) == BadHash;
    assert IsFault(h, t, c, 5) && FaultKind(c, 5) == NotEnoughHashes;
    DeepestFaultDecides(h, t, c, o1, 3);
    DeepestFaultDecides(h, t, c, o2, 5);
  }

  lemma InSeven(order: seq<nat>)
    requires IsPopOrder(order, 7, TWO_FAULTS)
    ensures forall i: nat :: i < 7 ==> i in order
  {
  }
}
