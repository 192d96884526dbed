/**
 * The partial Merkle tree that validates untrusted hashes level by level and
 * rolls back whatever it wrote when it cannot. Dictionaries and sets give up
 * their elements in an order that is a parameter of every call.
 */
module IncompleteHashTree {
  import opened Basics
  import opened TreeShape
  import opened TreeClosure

  /** How a call ends; `OutOfRange` is the IndexError for a node number beyond the tree. */
  datatype Outcome = Accepted | BadHash | NotEnoughHashes | OutOfRange

  // ---- Orders -------------------------------------------------------------

  /** The element of `s` that comes out first. */
  function FirstIn(order: seq<nat>, s: set<nat>): (i: nat)
    requires s != {} && forall i :: i in s ==> i in order
    ensures i in s
  {
    assert order != [] by { var x :| x in s; }
    if order[0] in s then order[0] else FirstIn(order[1..], s)
  }

  lemma {:induction false} FirstOfFewer(order: seq<nat>, s: set<nat>, fewer: set<nat>)
    requires fewer != {} && fewer <= s && forall i :: i in s ==> i in order
    requires FirstIn(order, s) in fewer
    ensures FirstIn(order, fewer) == FirstIn(order, s)
  {
    assert order != [] by { var x :| x in s; }
    if order[0] !in s {
      FirstOfFewer(order[1..], s, fewer);
    }
  }

  /** j comes out before i. */
  predicate Precedes(order: seq<nat>, j: nat, i: nat)
    requires i in order && j in order
  {
    j != i && FirstIn(order, {i, j}) == j
  }

  /** `order` has a place for every node of the tree and every node number supplied. */
  ghost predicate IsPopOrder(order: seq<nat>, size: nat, add: map<nat, Hash>) {
    && (forall i: nat :: i < size ==> i in order)
    && (forall i :: i in add ==> i in order)
  }

  // ---- Arguments of set_hashes --------------------------------------------

  /** A leaf number of `leaves` and a hash number of `hashes` name one node with two values. */
  ghost predicate ArgumentsConflict(firstLeafNum: nat, hashes: map<nat, Hash>, leaves: map<nat, Hash>) {
    exists k: nat :: ConflictAt(firstLeafNum, hashes, leaves, k)
  }

  ghost predicate ConflictAt(firstLeafNum: nat, hashes: map<nat, Hash>, leaves: map<nat, Hash>, k: nat) {
    k in leaves && firstLeafNum + k in hashes && hashes[firstLeafNum + k] != leaves[k]
  }

  /** The node numbers of some leaf numbers. */
  function NodeNumbers(firstLeafNum: nat, leafNums: set<nat>): set<nat> {
    set k | k in leafNums :: firstLeafNum + k
  }

  /** `hashes` with the leaves in `done` written over it, by node number. */
  function WithLeaves(firstLeafNum: nat, hashes: map<nat, Hash>, leaves: map<nat, Hash>, done: set<nat>): map<nat, Hash>
    requires done <= leaves.Keys
  {
    map i | i in hashes.Keys + NodeNumbers(firstLeafNum, done) ::
      if i >= firstLeafNum && i - firstLeafNum in done then leaves[i - firstLeafNum] else hashes[i]
  }

  lemma WithOneMoreLeaf(firstLeafNum: nat, hashes: map<nat, Hash>, leaves: map<nat, Hash>, done: set<nat>, k: nat)
    requires done <= leaves.Keys && k in leaves
    ensures WithLeaves(firstLeafNum, hashes, leaves, done)[firstLeafNum + k := leaves[k]]
         == WithLeaves(firstLeafNum, hashes, leaves, done + {k})
  {
    assert NodeNumbers(firstLeafNum, done + {k}) == NodeNumbers(firstLeafNum, done) + {firstLeafNum + k};
  }

  lemma NextLeaf(firstLeafNum: nat, hashes: map<nat, Hash>, leaves: map<nat, Hash>, done: set<nat>, k: nat, m: map<nat, Hash>)
    requires done <= leaves.Keys && k in leaves && k !in done
    requires m == WithLeaves(firstLeafNum, hashes, leaves, done)
    ensures (firstLeafNum + k in m && m[firstLeafNum + k] != leaves[k]) <==> ConflictAt(firstLeafNum, hashes, leaves, k)
  {
  }

  /** All the hashes supplied by one call, by node number. */
  function Supplied(firstLeafNum: nat, hashes: map<nat, Hash>, leaves: map<nat, Hash>): map<nat, Hash> {
    WithLeaves(firstLeafNum, hashes, leaves, leaves.Keys)
  }

  /** All the nodes named are in the tree. */
  ghost predicate InRange(t: Tree, add: map<nat, Hash>) {
    forall i :: i in add ==> i < |t|
  }

  /** The siblings along the chain from node `leaf` to the root that the tree lacks. */
  function Needed(t: Tree, leaf: nat): set<nat> {
    set i | i in SiblingChain(leaf) && i < |t| && t[i].None?
  }

  // ---- Specification of one call ------------------------------------------

  /** The supplied hashes that end the provisional adding: beyond the tree, or different from what is there. */
  function Stops(t: Tree, add: map<nat, Hash>): set<nat> {
    set i | i in add && (i >= |t| || (t[i].Some? && t[i].value != add[i]))
  }

  lemma NoStops(t: Tree, add: map<nat, Hash>)
    ensures Stops(t, add) == {} <==> NoClash(t, add) && InRange(t, add)
  {
    forall i | i in add
      ensures i in Stops(t, add) <==> i >= |t| || (t[i].Some? && t[i].value != add[i])
    {
    }
  }

  /** How the provisional adding ends. */
  ghost function AddOutcome(t: Tree, add: map<nat, Hash>, order: seq<nat>): Outcome
    requires IsPopOrder(order, |t|, add)
  {
    if Stops(t, add) == {} then Accepted
    else if FirstIn(order, Stops(t, add)) >= |t| then OutOfRange
    else BadHash
  }

  /** A fresh node of the closure that cannot be validated. */
  predicate IsFault(h: PairHash, t: Tree, c: Tree, i: nat) {
    i > 0 && Fresh(t, c, i) && !HoldsPairHash(h, c, Parent(i))
  }

  function Faults(h: PairHash, t: Tree, c: Tree, level: nat): set<nat> {
    set i: nat | i < |c| && IsFault(h, t, c, i) && DepthOf(i) == level
  }

  function FaultKind(c: Tree, i: nat): (r: Outcome)
    requires i > 0
    ensures r.BadHash? || r.NotEnoughHashes?
  {
    if Sibling(i) < |c| && c[Sibling(i)].Some? then BadHash else NotEnoughHashes
  }

  /** How the levels below `level` in number, deepest first, come out. */
  function LevelsOutcome(h: PairHash, t: Tree, c: Tree, order: seq<nat>, level: nat): Outcome
    requires forall i: nat :: i < |c| ==> i in order
  {
    if level == 0 then Accepted
    else if Faults(h, t, c, level - 1) == {} then LevelsOutcome(h, t, c, order, level - 1)
    else FaultKind(c, FirstIn(order, Faults(h, t, c, level - 1)))
  }

  /** How one call ends when elements come out in `order`. */
  ghost function OutcomeOf(h: PairHash, firstLeafNum: nat, t: Tree, hashes: map<nat, Hash>, leaves: map<nat, Hash>, order: seq<nat>): Outcome
    requires |t| > 0 && IsPopOrder(order, |t|, Supplied(firstLeafNum, hashes, leaves))
  {
    var add := Supplied(firstLeafNum, hashes, leaves);
    if ArgumentsConflict(firstLeafNum, hashes, leaves) then BadHash
    else if !AddOutcome(t, add, order).Accepted? then AddOutcome(t, add, order)
    else LevelsOutcome(h, t, Closure(h, t, add), order, DepthOf(|t| - 1) + 1)
  }

  ghost predicate Succeeds(h: PairHash, firstLeafNum: nat, t: Tree, hashes: map<nat, Hash>, leaves: map<nat, Hash>) {
    var add := Supplied(firstLeafNum, hashes, leaves);
    !ArgumentsConflict(firstLeafNum, hashes, leaves) && InRange(t, add) && Accepts(h, t, add)
  }

  /** What an IndexError leaves behind: the hashes that came before the one out of range stay, unvalidated. */
  ghost function PartlyWritten(t: Tree, add: map<nat, Hash>, order: seq<nat>): Tree
    requires IsPopOrder(order, |t|, add) && Stops(t, add) != {}
  {
    seq(|t|, i requires 0 <= i < |t| =>
      if i in add && Precedes(order, i, FirstIn(order, Stops(t, add))) then Base(t, add, i) else t[i])
  }

  /** The tree after one call, whichever way it ends. */
  ghost function After(h: PairHash, firstLeafNum: nat, t: Tree, hashes: map<nat, Hash>, leaves: map<nat, Hash>, order: seq<nat>): Tree
    requires |t| > 0 && IsPopOrder(order, |t|, Supplied(firstLeafNum, hashes, leaves))
  {
    var add := Supplied(firstLeafNum, hashes, leaves);
    if Succeeds(h, firstLeafNum, t, hashes, leaves) then Closure(h, t, add)
    else if !ArgumentsConflict(firstLeafNum, hashes, leaves) && AddOutcome(t, add, order).OutOfRange? then PartlyWritten(t, add, order)
    else t
  }

  /** A fresh node of the closure whose sibling is a hole. */
  ghost predicate LacksSibling(t: Tree, c: Tree, i: nat) {
    i > 0 && Fresh(t, c, i) && Sibling(i) < |c| && c[Sibling(i)].None?
  }

  /** A fresh node of the closure with a sibling, whose parent differs from the pair hash. */
  ghost predicate Mismatches(h: PairHash, t: Tree, c: Tree, i: nat) {
    i > 0 && Fresh(t, c, i) && Sibling(i) < |c| && c[Sibling(i)].Some? && !HoldsPairHash(h, c, Parent(i))
  }

  /**
   * What each way of ending means. Without a clash and with everything in range
   * an exception is for a node of the deepest level that has any unvalidated
   * node at all.
   */
  ghost predicate Explains(h: PairHash, t: Tree, add: map<nat, Hash>, r: Outcome) {
    var c := Closure(h, t, add);
    match r
    case Accepted => Accepts(h, t, add) && InRange(t, add)
    case OutOfRange => !InRange(t, add)
    case BadHash =>
      || !NoClash(t, add)
      || (InRange(t, add) && exists i: nat :: Mismatches(h, t, c, i) && ValidatedFrom(h, t, c, DepthOf(i) + 1))
    case NotEnoughHashes =>
      NoClash(t, add) && InRange(t, add) && exists i: nat :: LacksSibling(t, c, i) && ValidatedFrom(h, t, c, DepthOf(i) + 1)
  }

  /** The ways one call may end. */
  ghost predicate MayReturn(h: PairHash, firstLeafNum: nat, t: Tree, hashes: map<nat, Hash>, leaves: map<nat, Hash>, r: Outcome) {
    if ArgumentsConflict(firstLeafNum, hashes, leaves) then r.BadHash?
    else Explains(h, t, Supplied(firstLeafNum, hashes, leaves), r)
  }

  lemma ExplainsFailure(h: PairHash, t: Tree, add: map<nat, Hash>, r: Outcome)
    requires Explains(h, t, add, r)
    ensures r.Accepted? <==> Accepts(h, t, add) && InRange(t, add)
  {
    var c := Closure(h, t, add);
    if r.BadHash? && NoClash(t, add) {
      var i: nat :| Mismatches(h, t, c, i) && ValidatedFrom(h, t, c, DepthOf(i) + 1);
      assert Fresh(t, c, i);
    } else if r.NotEnoughHashes? {
      var i: nat :| LacksSibling(t, c, i) && ValidatedFrom(h, t, c, DepthOf(i) + 1);
      SiblingFacts(i);
      assert Fresh(t, c, i);
    }
  }

  /** The two kinds of fault. */
  lemma FaultIs(h: PairHash, t: Tree, c: Tree, i: nat)
    requires |c| == |t| && |c| % 2 == 1
    ensures IsFault(h, t, c, i) <==> Mismatches(h, t, c, i) || LacksSibling(t, c, i)
    ensures Mismatches(h, t, c, i) ==> FaultKind(c, i) == BadHash
    ensures LacksSibling(t, c, i) ==> FaultKind(c, i) == NotEnoughHashes
  {
    if i > 0 {
      SiblingFacts(i);
    }
  }

  lemma FaultOfLevel(h: PairHash, t: Tree, c: Tree, level: nat, i: nat)
    requires |c| == |t| && |c| % 2 == 1 && Fresh(t, c, i) && DepthOf(i) == level
    ensures i in Faults(h, t, c, level) <==> Mismatches(h, t, c, i) || LacksSibling(t, c, i)
    ensures i > 0 && Mismatches(h, t, c, i) ==> FaultKind(c, i) == BadHash
    ensures i > 0 && LacksSibling(t, c, i) ==> FaultKind(c, i) == NotEnoughHashes
  {
    FaultIs(h, t, c, i);
  }

  /** A level without faults is validated. */
  lemma NoFaults(h: PairHash, t: Tree, c: Tree, level: nat)
    requires |c| == |t| && ValidatedFrom(h, t, c, level + 1)
    ensures Faults(h, t, c, level) == {} <==> ValidatedFrom(h, t, c, level)
  {
    hide HoldsPairHash, DepthOf;
    if Faults(h, t, c, level) == {} {
      forall i: nat | i > 0 && Fresh(t, c, i) && DepthOf(i) >= level
        ensures HoldsPairHash(h, c, Parent(i))
      {
        if DepthOf(i) == level {
          assert i !in Faults(h, t, c, level);
        }
      }
    }
    if ValidatedFrom(h, t, c, level) {
      forall i: nat
        ensures i !in Faults(h, t, c, level)
      {
      }
    }
  }

  /** What the levels come out as, without the order. */
  lemma {:induction false} LevelsExplained(h: PairHash, t: Tree, c: Tree, order: seq<nat>, level: nat)
    requires |c| == |t| && |c| % 2 == 1 && forall i: nat :: i < |c| ==> i in order
    requires ValidatedFrom(h, t, c, level)
    ensures match LevelsOutcome(h, t, c, order, level)
      case Accepted => ValidatedFrom(h, t, c, 0)
      case BadHash => exists i: nat :: Mismatches(h, t, c, i) && ValidatedFrom(h, t, c, DepthOf(i) + 1)
      case NotEnoughHashes => exists i: nat :: LacksSibling(t, c, i) && ValidatedFrom(h, t, c, DepthOf(i) + 1)
      case OutOfRange => false
  {
    hide ValidatedFrom, HoldsPairHash, DepthOf;
    if level > 0 {
      NoFaults(h, t, c, level - 1);
      if Faults(h, t, c, level - 1) == {} {
        LevelsExplained(h, t, c, order, level - 1);
      } else {
        var i := FirstIn(order, Faults(h, t, c, level - 1));
        FaultIs(h, t, c, i);
      }
    }
  }

  lemma DeepestValidated(h: PairHash, t: Tree, c: Tree)
    requires |c| == |t| > 0
    ensures ValidatedFrom(h, t, c, DepthOf(|t| - 1) + 1)
  {
    forall i: nat | i < |t|
      ensures DepthOf(i) <= DepthOf(|t| - 1)
    {
      LogFloor2Monotonic(i + 1, |t|);
    }
  }

  /** Every order of popping ends a call in one of the ways it may end, and success does not depend on the order. */
  lemma OutcomeExplained(h: PairHash, firstLeafNum: nat, t: Tree, hashes: map<nat, Hash>, leaves: map<nat, Hash>, order: seq<nat>)
    requires |t| % 2 == 1 && IsPopOrder(order, |t|, Supplied(firstLeafNum, hashes, leaves))
    ensures MayReturn(h, firstLeafNum, t, hashes, leaves, OutcomeOf(h, firstLeafNum, t, hashes, leaves, order))
    ensures OutcomeOf(h, firstLeafNum, t, hashes, leaves, order).Accepted? <==> Succeeds(h, firstLeafNum, t, hashes, leaves)
  {
    hide ValidatedFrom, Closure, Supplied, LevelsOutcome, DepthOf, ArgumentsConflict;
    var add := Supplied(firstLeafNum, hashes, leaves);
    NoStops(t, add);
    DeepestValidated(h, t, Closure(h, t, add));
    LevelsExplained(h, t, Closure(h, t, add), order, DepthOf(|t| - 1) + 1);
    if !ArgumentsConflict(firstLeafNum, hashes, leaves) {
      ExplainsFailure(h, t, add, OutcomeOf(h, firstLeafNum, t, hashes, leaves, order));
    }
  }

  // ---- State of the algorithm ---------------------------------------------

  /** Every change made to `t` so far filled a hole and is recorded in `added`. */
  ghost predicate Tracked(t: Tree, cur: Tree, added: set<nat>) {
    && |cur| == |t|
    && (forall i: nat :: i < |t| && cur[i] != t[i] ==> i in added)
    && (forall i :: i in added ==> i < |t| && t[i].None?)
  }

  /** Nodes at `level` and below it are final, nodes above it are only provisionally filled. */
  ghost predicate LevelReady(t: Tree, add: map<nat, Hash>, c: Tree, cur: Tree, level: int) {
    && |cur| == |t| == |c|
    && forall i: nat :: i < |t| ==> cur[i] == if DepthOf(i) >= level then c[i] else Base(t, add, i)
  }

  /** `dots` are exactly the fresh nodes of one level. */
  ghost predicate DotsAt(t: Tree, cur: Tree, dots: set<nat>, level: int) {
    forall i: nat :: i in dots <==> Fresh(t, cur, i) && DepthOf(i) == level
  }

  lemma {:induction false} LogFloor2Monotonic(m: nat, n: nat)
    requires 1 <= m <= n
    ensures LogFloor2(m) <= LogFloor2(n)
  {
    if m > 1 {
      LogFloor2Monotonic(m / 2, n / 2);
    }
  }

  lemma DeepestIsChildless(i: nat, n: nat)
    requires i < n
    ensures DepthOf(i) <= DepthOf(n - 1)
    ensures DepthOf(i) == DepthOf(n - 1) ==> RChild(i) >= n
  {
    LogFloor2Monotonic(i + 1, n);
    if RChild(i) < n {
      LogFloor2Monotonic(RChild(i) + 1, n);
      assert Parent(RChild(i)) == i;
      DepthOfFamily(RChild(i));
    }
  }

  /** On the deepest level there is nothing to derive. */
  lemma DeepestLevelReady(h: PairHash, t: Tree, add: map<nat, Hash>, c: Tree, cur: Tree)
    requires |t| > 0 && |cur| == |t| && ClosesUp(h, t, add, c)
    requires forall i: nat :: i < |t| ==> cur[i] == Base(t, add, i)
    ensures LevelReady(t, add, c, cur, DepthOf(|t| - 1))
    ensures ValidatedFrom(h, t, c, DepthOf(|t| - 1) + 1)
  {
    forall i: nat | i < |t|
      ensures DepthOf(i) <= DepthOf(|t| - 1)
      ensures DepthOf(i) == DepthOf(|t| - 1) ==> c[i] == Base(t, add, i)
    {
      DeepestIsChildless(i, |t|);
      assert c[i] == NodeStep(h, t, add, c, i);
    }
  }

  /** All new hashes but those in `todo` have been written or compared, and the written ones carry dots. */
  ghost predicate AddedSoFar(t: Tree, add: map<nat, Hash>, todo: set<nat>, cur: Tree, dots: seq<set<nat>>) {
    && |cur| == |t|
    && (forall i: nat :: i < |t| ==> cur[i] == if i in todo then t[i] else Base(t, add, i))
    && (forall i :: i in add && i !in todo ==> i < |t| && (t[i].Some? ==> t[i].value == add[i]))
    && (forall level: nat :: level < |dots| ==> DotsAt(t, cur, dots[level], level))
  }

  /** What has been added came out before what has not. */
  ghost predicate ComeLater(order: seq<nat>, add: map<nat, Hash>, todo: set<nat>)
    requires forall i :: i in add ==> i in order
  {
    todo <= add.Keys && forall j, k :: j in add.Keys - todo && k in todo ==> Precedes(order, j, k)
  }

  lemma PopNext(order: seq<nat>, add: map<nat, Hash>, todo: set<nat>)
    requires (forall i :: i in add ==> i in order) && ComeLater(order, add, todo) && todo != {}
    ensures ComeLater(order, add, todo - {FirstIn(order, todo)})
    ensures forall k :: k in todo && k != FirstIn(order, todo) ==> Precedes(order, FirstIn(order, todo), k)
  {
    var i := FirstIn(order, todo);
    forall k | k in todo && k != i
      ensures Precedes(order, i, k)
    {
      FirstOfFewer(order, todo, {k, i});
    }
  }

  /** The first supplied hash out of range stops the adding right here. */
  lemma StoppedHere(t: Tree, add: map<nat, Hash>, order: seq<nat>, todo: set<nat>, cur: Tree, dots: seq<set<nat>>)
    requires IsPopOrder(order, |t|, add) && AddedSoFar(t, add, todo, cur, dots)
    requires ComeLater(order, add, todo) && todo != {} && Stops(t, add) != {}
    requires FirstIn(order, Stops(t, add)) == FirstIn(order, todo)
    ensures cur == PartlyWritten(t, add, order)
  {
    var stop := FirstIn(order, todo);
    PopNext(order, add, todo);
    forall i: nat | i < |t|
      ensures cur[i] == PartlyWritten(t, add, order)[i]
    {
      if i in todo && i != stop {
        assert Precedes(order, stop, i);
        assert {stop, i} == {i, stop};
      }
    }
  }

  lemma KeepOne(t: Tree, add: map<nat, Hash>, todo: set<nat>, cur: Tree, dots: seq<set<nat>>, i: nat)
    requires AddedSoFar(t, add, todo, cur, dots)
    requires i in todo && i in add && i < |t| && cur[i] == Some(add[i])
    ensures AddedSoFar(t, add, todo - {i}, cur, dots)
  {
    hide DotsAt;
  }

  lemma AddOne(t: Tree, add: map<nat, Hash>, todo: set<nat>, cur: Tree, dots: seq<set<nat>>, i: nat)
    requires AddedSoFar(t, add, todo, cur, dots)
    requires i in todo && i in add && i < |t| && cur[i].None? && DepthOf(i) < |dots|
    ensures AddedSoFar(t, add, todo - {i}, cur[i := Some(add[i])], dots[DepthOf(i) := dots[DepthOf(i)] + {i}])
  {
    hide DepthOf;
    var cur', dots' := cur[i := Some(add[i])], dots[DepthOf(i) := dots[DepthOf(i)] + {i}];
    forall level: nat | level < |dots|
      ensures DotsAt(t, cur', dots'[level], level)
    {
      assert DotsAt(t, cur, dots[level], level);
    }
  }

  class IncompleteHashTree {
    const pairHash: PairHash
    const firstLeafNum: nat
    var nodes: Tree

    ghost predicate Valid()
      reads this
    {
      |nodes| == 2 * firstLeafNum + 1
    }

    constructor (pairHash: PairHash, numLeaves: nat)
      ensures Valid() && this.pairHash == pairHash
      ensures IsRoundup(numLeaves, firstLeafNum + 1)
      ensures forall i: nat :: i < |nodes| ==> nodes[i].None?
    {
      this.pairHash := pairHash;
      var end := RoundupPow2(numLeaves);
      firstLeafNum := end - 1;
      var bottom: Tree := seq(end, i => None);
      ghost var level: nat :| end == Pow2(level);
      var rowLength := end;
      var all := bottom;
      while rowLength != 1
        invariant rowLength == Pow2(level)
        invariant |all| == 2 * end - rowLength
        invariant forall i: nat :: i < |all| ==> all[i].None?
        decreases level
      {
        rowLength := rowLength / 2;
        var row: Tree := seq(rowLength, i => None);
        all := row + all;
        level := level - 1;
      }
      nodes := all;
    }

    /** The hashes still missing to validate leaf `leafnum`. */
    method NeededHashes(leafnum: nat, includeLeaf: bool) returns (needed: set<nat>)
      requires Valid() && leafnum <= firstLeafNum
      ensures needed == Needed(nodes, firstLeafNum + leafnum) +
        if includeLeaf && nodes[firstLeafNum + leafnum].None? then {firstLeafNum + leafnum} else {}
    {
      var chain := NeededFor(firstLeafNum + leafnum);
      var maybeNeeded := set i | i in chain;
      if includeLeaf {
        maybeNeeded := maybeNeeded + {firstLeafNum + leafnum};
      }
      SiblingChainInRange(firstLeafNum + leafnum, |nodes|);
      needed := set i | i in maybeNeeded && nodes[i].None?;
    }

    method MergeArguments(hashes: map<nat, Hash>, leaves: map<nat, Hash>)
        returns (ok: bool, newHashes: map<nat, Hash>)
      ensures ok <==> !ArgumentsConflict(firstLeafNum, hashes, leaves)
      ensures ok ==> newHashes == Supplied(firstLeafNum, hashes, leaves)
    {
      newHashes := hashes;
      assert newHashes == WithLeaves(firstLeafNum, hashes, leaves, {});
      var todo := leaves.Keys;
      ghost var done: set<nat> := {};
      while todo != {}
        invariant done + todo == leaves.Keys && done !! todo
        invariant newHashes == WithLeaves(firstLeafNum, hashes, leaves, done)
        invariant forall k :: k in done ==> !ConflictAt(firstLeafNum, hashes, leaves, k)
        decreases todo
      {
        var leafnum :| leafnum in todo;
        todo := todo - {leafnum};
        var hashnum := firstLeafNum + leafnum;
        NextLeaf(firstLeafNum, hashes, leaves, done, leafnum, newHashes);
        if hashnum in newHashes {
          if newHashes[hashnum] != leaves[leafnum] {
            return false, newHashes;
          }
        }
        WithOneMoreLeaf(firstLeafNum, hashes, leaves, done, leafnum);
        newHashes := newHashes[hashnum := leaves[leafnum]];
        done := done + {leafnum};
      }
      return true, newHashes;
    }

    /** Writes the new hashes into the holes, with a red dot each, comparing duplicates. */
    method AddProvisionally(newHashes: map<nat, Hash>, numLevels: nat, order: seq<nat>)
        returns (r: Outcome, dots: seq<set<nat>>, added: set<nat>)
      requires Valid() && numLevels == DepthOf(|nodes| - 1) && IsPopOrder(order, |nodes|, newHashes)
      modifies this`nodes
      ensures |dots| == numLevels + 1
      ensures Tracked(old(nodes), nodes, added)
      ensures r == AddOutcome(old(nodes), newHashes, order)
      ensures r.OutOfRange? ==> nodes == PartlyWritten(old(nodes), newHashes, order)
      ensures r.Accepted? ==> forall i: nat :: i < |nodes| ==> nodes[i] == Base(old(nodes), newHashes, i)
      ensures r.Accepted? ==> forall level: nat :: level <= numLevels ==> DotsAt(old(nodes), nodes, dots[level], level)
    {
      hide FirstIn, DepthOf, Precedes;
      dots := seq(numLevels + 1, i => {});
      added := {};
      var todo := newHashes.Keys;
      while todo != {}
        invariant todo <= newHashes.Keys && |dots| == numLevels + 1
        invariant Tracked(old(nodes), nodes, added)
        invariant AddedSoFar(old(nodes), newHashes, todo, nodes, dots)
        invariant Stops(old(nodes), newHashes) <= todo
        invariant ComeLater(order, newHashes, todo)
        decreases todo
      {
        var i := FirstIn(order, todo);
        if i in Stops(old(nodes), newHashes) {
          FirstOfFewer(order, todo, Stops(old(nodes), newHashes));
        }
        if i >= |nodes| {
          StoppedHere(old(nodes), newHashes, order, todo, nodes, dots);
          return OutOfRange, dots, added;
        }
        PopNext(order, newHashes, todo);
        if nodes[i].Some? {
          if nodes[i].value != newHashes[i] {
            return BadHash, dots, added;
          }
          KeepOne(old(nodes), newHashes, todo, nodes, dots, i);
        } else {
          var level := DepthOf(i);
          DeepestIsChildless(i, |nodes|);
          AddOne(old(nodes), newHashes, todo, nodes, dots, i);
          dots := dots[level := dots[level] + {i}];
          nodes := nodes[i := Some(newHashes[i])];
          added := added + {i};
        }
        todo := todo - {i};
      }
      return Accepted, dots, added;
    }

    /** Validates one red dot against its sibling and its parent, deriving the parent if it is a hole. */
    method CheckDot(i: nat, level: nat, above0: set<nat>, added0: set<nat>,
                    ghost t: Tree, ghost add: map<nat, Hash>, ghost c: Tree, ghost settled: set<nat>)
        returns (r: Outcome, above: set<nat>, added: set<nat>)
      requires Valid() && ClosesUp(pairHash, t, add, c)
      requires AllSettled(pairHash, c, nodes, settled)
      requires PartWay(t, add, c, nodes, level) && Tracked(t, nodes, added0)
      requires i > 0 && Fresh(t, c, i) && DepthOf(i) == level
      requires level > 0 ==> DotsAt(t, nodes, above0, level - 1)
      modifies this`nodes
      ensures Valid() && PartWay(t, add, c, nodes, level) && Tracked(t, nodes, added)
      ensures level > 0 ==> DotsAt(t, nodes, above, level - 1)
      ensures r.Accepted? ==> AllSettled(pairHash, c, nodes, settled + {i, Sibling(i)})
      ensures r.BadHash? ==> Mismatches(pairHash, t, c, i)
      ensures r.NotEnoughHashes? ==> LacksSibling(t, c, i)
      ensures !r.OutOfRange?
    {
      above, added := above0, added0;
      SiblingPlace(i, firstLeafNum);
      var siblingnum := Sibling(i);
      if nodes[siblingnum].None? {
        return NotEnoughHashes, above, added;
      }
      var parentnum := Parent(i);
      var leftnum, rightnum := if i < siblingnum then i else siblingnum, if i < siblingnum then siblingnum else i;
      var newParentHash := pairHash(nodes[leftnum].value, nodes[rightnum].value);
      ParentOfDot(pairHash, t, add, c, nodes, level, i);
      if nodes[parentnum].Some? {
        if nodes[parentnum].value != newParentHash {
          return BadHash, above, added;
        }
      } else {
        DeriveParent(pairHash, t, add, c, nodes, above, added, level, settled, parentnum);
        nodes := nodes[parentnum := Some(newParentHash)];
        added := added + {parentnum};
        var parentLevel := DepthOf(parentnum);
        assert parentLevel == level - 1;
        above := above + {parentnum};
      }
      SettlePair(pairHash, c, nodes, settled, i);
      return Accepted, above, added;
    }

    /**
     * Validates the red dots of one level, in whatever order they are popped.
     * `c` is the closure the call is heading for.
     */
    method CheckLevel(level: nat, dots: set<nat>, above0: set<nat>, added0: set<nat>, order: seq<nat>,
                      ghost t: Tree, ghost add: map<nat, Hash>, ghost c: Tree)
        returns (r: Outcome, above: set<nat>, added: set<nat>)
      requires Valid() && ClosesUp(pairHash, t, add, c)
      requires LevelReady(t, add, c, nodes, level) && Tracked(t, nodes, added0)
      requires DotsAt(t, nodes, dots, level) && (level > 0 ==> DotsAt(t, nodes, above0, level - 1))
      requires forall i: nat :: i < |nodes| ==> i in order
      modifies this`nodes
      ensures Tracked(t, nodes, added)
      ensures r.Accepted? ==> LevelReady(t, add, c, nodes, level - 1)
      ensures r.Accepted? && level > 0 ==> DotsAt(t, nodes, above, level - 1)
      ensures r == if Faults(pairHash, t, c, level) == {} then Accepted else FaultKind(c, FirstIn(order, Faults(pairHash, t, c, level)))
    {
      above, added := above0, added0;
      var thisLevel := dots;
      ghost var settled: set<nat> := {};
      ghost var faults := Faults(pairHash, t, c, level);
      hide Faults, FirstIn, HoldsPairHash, DepthOf, FaultKind, Mismatches, LacksSibling, IsFault, Sibling,
        PartWay, LevelReady, DotsAt, Tracked, ClosesUp, AllSettled;
      StartLevel(pairHash, t, add, c, nodes, dots, level);
      while thisLevel != {}
        invariant Valid() && thisLevel <= dots
        invariant Tracked(t, nodes, added)
        invariant PartWay(t, add, c, nodes, level)
        invariant forall i :: i in dots ==> Fresh(t, c, i) && DepthOf(i) == level
        invariant dots <= {0} + settled + thisLevel
        invariant faults <= thisLevel
        invariant AllSettled(pairHash, c, nodes, settled)
        invariant level > 0 ==> DotsAt(t, nodes, above, level - 1)
        decreases thisLevel
      {
        var i := FirstIn(order, thisLevel);
        if i in faults {
          FirstOfFewer(order, thisLevel, faults);
        }
        thisLevel := thisLevel - {i};
        if i != 0 {
          r, above, added := CheckDot(i, level, above, added, t, add, c, settled);
          FaultOfLevel(pairHash, t, c, level, i);
          if !r.Accepted? {
            return;
          }
          SettledIsNoFault(pairHash, t, c, nodes, settled + {i, Sibling(i)}, i, level);
          // the pair was checked as one, so the other dot goes too
          thisLevel := thisLevel - {Sibling(i)};
          settled := settled + {i, Sibling(i)};
        }
      }
      AllSettledPart(pairHash, c, nodes, settled, dots - {0});
      LevelDone(pairHash, t, add, c, nodes, dots - {0}, level);
      return Accepted, above, added;
    }

    /** Validates every red dot, level by level from the deepest up, finishing each level before the next. */
    method CheckAllLevels(dots0: seq<set<nat>>, added0: set<nat>, order: seq<nat>, ghost t: Tree, ghost add: map<nat, Hash>, ghost c: Tree)
        returns (r: Outcome, added: set<nat>)
      requires Valid() && ClosesUp(pairHash, t, add, c) && NoClash(t, add)
      requires Tracked(t, nodes, added0)
      requires |dots0| > 0 && LevelReady(t, add, c, nodes, |dots0| - 1) && ValidatedFrom(pairHash, t, c, |dots0|)
      requires forall l: nat :: l < |dots0| ==> DotsAt(t, nodes, dots0[l], l)
      requires forall i: nat :: i < |nodes| ==> i in order
      modifies this`nodes
      ensures Tracked(t, nodes, added)
      ensures r == LevelsOutcome(pairHash, t, c, order, |dots0|)
      ensures r.Accepted? ==> nodes == c && ValidatedFrom(pairHash, t, c, 0)
    {
      hide DotsAt, Tracked, ClosesUp, Faults, HoldsPairHash, DepthOf, FaultKind, FirstIn;
      var dots := dots0;
      added := added0;
      var level := |dots|;
      while level > 0
        invariant 0 <= level <= |dots|
        invariant Tracked(t, nodes, added)
        invariant LevelReady(t, add, c, nodes, level - 1)
        invariant ValidatedFrom(pairHash, t, c, level)
        invariant forall l: nat :: l < level ==> DotsAt(t, nodes, dots[l], l)
        invariant LevelsOutcome(pairHash, t, c, order, level) == LevelsOutcome(pairHash, t, c, order, |dots0|)
      {
        level := level - 1;
        NoFaults(pairHash, t, c, level);
        var above;
        ghost var before := nodes;
        r, above, added := CheckLevel(level, dots[level], if level > 0 then dots[level - 1] else {}, added, order, t, add, c);
        if !r.Accepted? {
          return;
        }
        NextLevelDots(t, add, c, before, nodes, dots, level);
        if level > 0 {
          dots := dots[level - 1 := above];
        }
      }
      assert nodes == c;
      return Accepted, added;
    }

    method RollBack(added: set<nat>, ghost t: Tree)
      requires Valid() && Tracked(t, nodes, added)
      modifies this`nodes
      ensures nodes == t
    {
      var todo := added;
      while todo != {}
        invariant todo <= added
        invariant Tracked(t, nodes, todo)
        decreases todo
      {
        var i :| i in todo;
        nodes := nodes[i := None];
        todo := todo - {i};
      }
    }

    /**
     * Merges untrusted hashes into the tree. The call succeeds exactly when the
     * upward closure of the tree and the inputs exists; the tree then is that
     * closure, and otherwise it is what it was before the call, unless a node
     * number beyond the tree raised an IndexError, after which nothing is undone.
     */
    method SetHashes(hashes: map<nat, Hash>, leaves: map<nat, Hash>, order: seq<nat>) returns (r: Outcome)
      requires Valid() && IsPopOrder(order, |nodes|, Supplied(firstLeafNum, hashes, leaves))
      modifies this`nodes
      ensures Valid()
      ensures r.Accepted? <==> Succeeds(pairHash, firstLeafNum, old(nodes), hashes, leaves)
      ensures nodes == After(pairHash, firstLeafNum, old(nodes), hashes, leaves, order)
      ensures r == OutcomeOf(pairHash, firstLeafNum, old(nodes), hashes, leaves, order)
      ensures MayReturn(pairHash, firstLeafNum, old(nodes), hashes, leaves, r)
    {
      OutcomeExplained(pairHash, firstLeafNum, nodes, hashes, leaves, order);
      var merged, newHashes := MergeArguments(hashes, leaves);
      if !merged {
        return BadHash;
      }
      ghost var t := nodes;
      ghost var c := Closure(pairHash, t, newHashes);
      var numLevels := DepthOf(|nodes| - 1);
      NoStops(t, newHashes);
      var added, dots;
      r, dots, added := AddProvisionally(newHashes, numLevels, order);
      if r.OutOfRange? {
        return;
      }
      if r.BadHash? {
        RollBack(added, t);
        return;
      }
      DeepestLevelReady(pairHash, t, newHashes, c, nodes);
      r, added := CheckAllLevels(dots, added, order, t, newHashes, c);
      if !r.Accepted? {
        RollBack(added, t);
      }
    }
  }

  /** What checking a level starts from: its dots are the fresh nodes there, the faults among them. */
  lemma StartLevel(h: PairHash, t: Tree, add: map<nat, Hash>, c: Tree, cur: Tree, dots: set<nat>, level: nat)
    requires LevelReady(t, add, c, cur, level) && DotsAt(t, cur, dots, level)
    ensures PartWay(t, add, c, cur, level) && |c| == |t| == |cur|
    ensures forall i :: i in dots ==> Fresh(t, c, i) && DepthOf(i) == level && i < |t|
    ensures forall i: nat :: Fresh(t, c, i) && DepthOf(i) == level ==> i in dots
    ensures Faults(h, t, c, level) <= dots && 0 !in Faults(h, t, c, level)
    ensures AllSettled(h, c, cur, {})
  {
    hide HoldsPairHash;
  }

  lemma AllSettledPart(h: PairHash, c: Tree, cur: Tree, settled: set<nat>, part: set<nat>)
    requires AllSettled(h, c, cur, settled) && part <= settled
    ensures AllSettled(h, c, cur, part)
  {
  }

  /** Once i and its sibling are settled, neither is a fault. */
  lemma SettledIsNoFault(h: PairHash, t: Tree, c: Tree, cur: Tree, settled: set<nat>, i: nat, level: nat)
    requires i > 0 && AllSettled(h, c, cur, settled) && {i, Sibling(i)} <= settled
    ensures i !in Faults(h, t, c, level) && Sibling(i) !in Faults(h, t, c, level)
  {
    SiblingFacts(i);
    assert Settled(h, c, cur, i) && Settled(h, c, cur, Sibling(i));
  }

  /** Checking one level leaves the dots of all levels but the next one as they were. */
  lemma NextLevelDots(t: Tree, add: map<nat, Hash>, c: Tree, before: Tree, after: Tree, dots: seq<set<nat>>, level: nat)
    requires LevelReady(t, add, c, before, level) && LevelReady(t, add, c, after, level - 1)
    requires level < |dots|
    requires forall l: nat :: l <= level ==> DotsAt(t, before, dots[l], l)
    ensures forall l: nat :: l < level - 1 ==> DotsAt(t, after, dots[l], l)
    ensures forall i: nat :: Fresh(t, c, i) && DepthOf(i) == level ==> i in dots[level]
  {
    forall l: nat | l < level - 1
      ensures DotsAt(t, after, dots[l], l)
    {
      assert DotsAt(t, before, dots[l], l);
    }
    assert DotsAt(t, before, dots[level], level);
  }

  /** In the middle of a level: parents are provisional or final, the rest is as LevelReady says. */
  ghost predicate PartWay(t: Tree, add: map<nat, Hash>, c: Tree, cur: Tree, level: int) {
    && |cur| == |t| == |c|
    && (forall i: nat :: i < |t| && DepthOf(i) >= level ==> cur[i] == c[i])
    && (forall i: nat :: i < |t| && DepthOf(i) < level - 1 ==> cur[i] == Base(t, add, i))
    && (forall i: nat :: i < |t| && DepthOf(i) == level - 1 ==> cur[i] == Base(t, add, i) || cur[i] == c[i])
  }

  /** i has been checked: its parent is the pair hash and already in the tree. */
  ghost predicate Settled(h: PairHash, c: Tree, cur: Tree, i: nat) {
    && i > 0
    && HoldsPairHash(h, c, Parent(i))
    && Parent(i) < |cur| && cur[Parent(i)] == c[Parent(i)]
  }

  ghost predicate AllSettled(h: PairHash, c: Tree, cur: Tree, settled: set<nat>) {
    forall i :: i in settled ==> Settled(h, c, cur, i)
  }

  lemma SettlePair(h: PairHash, c: Tree, cur: Tree, settled: set<nat>, i: nat)
    requires AllSettled(h, c, cur, settled) && Settled(h, c, cur, i)
    ensures AllSettled(h, c, cur, settled + {i, Sibling(i)})
  {
    SiblingFacts(i);
  }

  /** The sibling is in the tree, on the same level, and the smaller index of the two is the left child. */
  lemma SiblingPlace(i: nat, firstLeafNum: nat)
    requires 0 < i < 2 * firstLeafNum + 1
    ensures Sibling(i) < 2 * firstLeafNum + 1 && DepthOf(Sibling(i)) == DepthOf(i)
    ensures LChild(Parent(i)) == if i < Sibling(i) then i else Sibling(i)
    ensures RChild(Parent(i)) == if i < Sibling(i) then Sibling(i) else i
  {
    SiblingFacts(i);
    DepthOfFamily(i);
  }

  /** What validating one red dot finds at its parent. */
  lemma ParentOfDot(h: PairHash, t: Tree, add: map<nat, Hash>, c: Tree, cur: Tree, level: nat, i: nat)
    requires ClosesUp(h, t, add, c) && PartWay(t, add, c, cur, level)
    requires i > 0 && Fresh(t, c, i) && DepthOf(i) == level
    requires Sibling(i) < |t| && cur[Sibling(i)].Some?
    ensures Parent(i) < |t| && DepthOf(Parent(i)) == level - 1
    ensures RChild(Parent(i)) < |t|
    ensures cur[LChild(Parent(i))] == c[LChild(Parent(i))] && cur[RChild(Parent(i))] == c[RChild(Parent(i))]
    ensures c[LChild(Parent(i))].Some? && c[RChild(Parent(i))].Some?
    ensures cur[Parent(i)].Some? ==> cur[Parent(i)] == c[Parent(i)]
    ensures cur[Parent(i)].None? ==> HoldsPairHash(h, c, Parent(i)) && t[Parent(i)].None?
  {
    SiblingFacts(i);
    DepthOfFamily(i);
    var p := Parent(i);
    assert i == LChild(p) || i == RChild(p);
    assert c[p] == NodeStep(h, t, add, c, p);
  }

  /** Filling a hole on the level above with its final value keeps everything in step. */
  lemma DeriveParent(h: PairHash, t: Tree, add: map<nat, Hash>, c: Tree, cur: Tree, above: set<nat>, added: set<nat>, level: nat,
                     settled: set<nat>, p: nat)
    requires AllSettled(h, c, cur, settled)
    requires PartWay(t, add, c, cur, level) && Tracked(t, cur, added) && DotsAt(t, cur, above, level - 1)
    requires p < |t| && DepthOf(p) == level - 1 && t[p].None? && c[p].Some?
    ensures PartWay(t, add, c, cur[p := c[p]], level)
    ensures Tracked(t, cur[p := c[p]], added + {p})
    ensures DotsAt(t, cur[p := c[p]], above + {p}, level - 1)
    ensures AllSettled(h, c, cur[p := c[p]], settled)
  {
  }

  /** When no red dot is left on a level, its parents are final. */
  lemma LevelDone(h: PairHash, t: Tree, add: map<nat, Hash>, c: Tree, cur: Tree, dots: set<nat>, level: nat)
    requires ClosesUp(h, t, add, c) && PartWay(t, add, c, cur, level)
    requires forall i: nat :: i > 0 && Fresh(t, c, i) && DepthOf(i) == level ==> i in dots
    requires AllSettled(h, c, cur, dots)
    ensures LevelReady(t, add, c, cur, level - 1)
  {
    forall p: nat | p < |t| && DepthOf(p) == level - 1
      ensures cur[p] == c[p]
    {
      assert c[p] == NodeStep(h, t, add, c, p);
      assert LChild(p) in dots ==> Settled(h, c, cur, LChild(p));
      assert RChild(p) in dots ==> Settled(h, c, cur, RChild(p));
      assert Parent(LChild(p)) == p && Parent(RChild(p)) == p;
      DepthOfFamily(LChild(p));
      DepthOfFamily(RChild(p));
    }
  }

  lemma {:induction false} SiblingChainInRange(i: nat, n: nat)
    requires i < n && n % 2 == 1
    ensures forall s :: s in SiblingChain(i) ==> s < n
  {
    if i > 0 {
      SiblingFacts(i);
      SiblingChainInRange(Parent(i), n);
    }
  }
}
