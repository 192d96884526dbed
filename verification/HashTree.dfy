/**
 * The complete Merkle tree: leaves padded to a power of two, and every inner
 * node the pair hash of its two children.
 */
module HashTree {
  import opened Basics
  import opened TreeShape

  /** What being the Merkle tree of `leaves` means, node by node. */
  ghost predicate IsMerkleTree(h: PairHash, emptyLeaf: nat -> Hash, leaves: seq<Hash>,
                               firstLeafNum: nat, nodes: seq<Hash>)
  {
    && IsRoundup(|leaves|, firstLeafNum + 1)
    && |nodes| == 2 * firstLeafNum + 1
    && (forall i: nat :: firstLeafNum <= i < |nodes| ==>
          nodes[i] == var k := i - firstLeafNum; if k < |leaves| then leaves[k] else emptyLeaf(k))
    && InnerNodesHash(h, nodes)
  }

  /** Leaf k of the padded bottom row. */
  function PaddedLeaf(emptyLeaf: nat -> Hash, leaves: seq<Hash>, k: nat): Hash {
    if k < |leaves| then leaves[k] else emptyLeaf(k)
  }

  /** Every node that has children is the pair hash of those children. */
  ghost predicate InnerNodesHash(h: PairHash, nodes: seq<Hash>) {
    forall i: nat {:trigger LChild(i)} {:trigger RChild(i)} ::
      RChild(i) < |nodes| ==> nodes[i] == h(nodes[LChild(i)], nodes[RChild(i)])
  }

  /** The rows from the last one (the top) down to the first one (the leaves), end to end. */
  function Stacked(rows: seq<seq<Hash>>): seq<Hash> {
    if rows == [] then [] else rows[|rows| - 1] + Stacked(rows[..|rows| - 1])
  }

  /**
   * The upper part of a tree cut off above the row of `width` nodes that
   * `flat` starts with: node x of `flat` is node x + width - 1 of the tree, so
   * its children sit at 2x + width and 2x + width + 1 of `flat`.
   */
  ghost predicate HashesBelow(h: PairHash, width: nat, flat: seq<Hash>) {
    forall x: nat :: HashesAt(h, width, flat, x)
  }

  ghost predicate HashesAt(h: PairHash, width: nat, flat: seq<Hash>, x: nat) {
    2 * x + width + 1 < |flat| ==> flat[x] == h(flat[2 * x + width], flat[2 * x + width + 1])
  }

  /**
   * `flat` is the part of the tree over `bottom` from the row `top` down: it
   * starts with `top`, ends with `bottom` and is hashed together in between.
   */
  ghost predicate IsCutTree(h: PairHash, bottom: seq<Hash>, top: seq<Hash>, flat: seq<Hash>) {
    && |top| <= |bottom|
    && |flat| == 2 * |bottom| - |top|
    && top <= flat
    && flat[|bottom| - |top|..] == bottom
    && HashesBelow(h, |top|, flat)
  }

  function PairUp(h: PairHash, last: seq<Hash>): seq<Hash> {
    seq(|last| / 2, i requires 0 <= i < |last| / 2 => h(last[2 * i], last[2 * i + 1]))
  }

  lemma PutRowOnTop(h: PairHash, bottom: seq<Hash>, last: seq<Hash>, flat: seq<Hash>)
    requires IsCutTree(h, bottom, last, flat)
    requires |last| % 2 == 0
    ensures IsCutTree(h, bottom, PairUp(h, last), PairUp(h, last) + flat)
  {
    var row := PairUp(h, last);
    var w := |row|;
    var all := row + flat;
    forall x: nat | 2 * x + w + 1 < |all|
      ensures HashesAt(h, w, all, x)
    {
      assert all[2 * x + w] == flat[2 * x] && all[2 * x + w + 1] == flat[2 * x + 1];
      if x < w {
        assert last[2 * x] == flat[2 * x] && last[2 * x + 1] == flat[2 * x + 1];
      } else {
        var y := x - w;
        assert all[x] == flat[y];
        assert HashesAt(h, |last|, flat, y);
      }
    }
    assert all[|bottom| - w..] == flat[|bottom| - |last|..];
  }

  /** Forms each row of the tree from the one below it, up to the row of one node. */
  method BuildRows(h: PairHash, bottom: seq<Hash>, ghost depth: nat) returns (rows: seq<seq<Hash>>)
    requires |bottom| == Pow2(depth)
    ensures |rows| > 0 && |rows[|rows| - 1]| == 1
    ensures IsCutTree(h, bottom, rows[|rows| - 1], Stacked(rows))
  {
    rows := [bottom];
    ghost var level: nat := depth;
    ghost var flat := bottom;
    assert rows[..0] == [];
    while |rows[|rows| - 1]| != 1
      invariant |rows| > 0
      invariant |rows[|rows| - 1]| == Pow2(level)
      invariant flat == Stacked(rows)
      invariant IsCutTree(h, bottom, rows[|rows| - 1], flat)
      decreases level
    {
      var last := rows[|rows| - 1];
      var row := PairUp(h, last);
      assert |last| == 2 * Pow2(level - 1);
      PutRowOnTop(h, bottom, last, flat);
      flat := row + flat;
      assert (rows + [row])[..|rows|] == rows;
      rows := rows + [row];
      level := level - 1;
    }
  }

  /** The rows put end to end, top row first. */
  method Flatten(rows: seq<seq<Hash>>) returns (nodes: seq<Hash>)
    ensures nodes == Stacked(rows)
  {
    nodes := [];
    assert rows[..|rows|] == rows;
    for r := |rows| downto 0
      invariant nodes + Stacked(rows[..r]) == Stacked(rows)
    {
      assert rows[..r + 1][..r] == rows[..r];
      nodes := nodes + rows[r];
    }
  }

  method BuildHashTree(h: PairHash, emptyLeaf: nat -> Hash, leaves: seq<Hash>)
      returns (firstLeafNum: nat, nodes: seq<Hash>)
    ensures IsMerkleTree(h, emptyLeaf, leaves, firstLeafNum, nodes)
  {
    var end := RoundupPow2(|leaves|);
    ghost var depth: nat :| end == Pow2(depth);
    firstLeafNum := end - 1;
    var padded := leaves;
    for i := |leaves| to end
      invariant |padded| == i
      invariant forall k: nat :: k < i ==> padded[k] == PaddedLeaf(emptyLeaf, leaves, k)
    {
      padded := padded + [emptyLeaf(i)];
    }
    var rows := BuildRows(h, padded, depth);
    nodes := Flatten(rows);
    forall i: nat | firstLeafNum <= i < |nodes|
      ensures nodes[i] == PaddedLeaf(emptyLeaf, leaves, i - firstLeafNum)
    {
      assert nodes[i] == nodes[firstLeafNum..][i - firstLeafNum];
    }
    forall i: nat | RChild(i) < |nodes|
      ensures nodes[i] == h(nodes[LChild(i)], nodes[RChild(i)])
    {
      assert HashesAt(h, 1, nodes, i);
    }
  }

  /** The Merkle tree of a list of leaves is unique. */
  lemma MerkleTreeUnique(h: PairHash, emptyLeaf: nat -> Hash, leaves: seq<Hash>,
                         f1: nat, nodes1: seq<Hash>, f2: nat, nodes2: seq<Hash>)
    requires IsMerkleTree(h, emptyLeaf, leaves, f1, nodes1)
    requires IsMerkleTree(h, emptyLeaf, leaves, f2, nodes2)
    ensures f1 == f2 && nodes1 == nodes2
  {
    forall i: nat | i < |nodes1|
      ensures nodes1[i] == nodes2[i]
    {
      MerkleNodeUnique(h, emptyLeaf, leaves, f1, nodes1, nodes2, i);
    }
  }

  lemma {:induction false} MerkleNodeUnique(h: PairHash, emptyLeaf: nat -> Hash, leaves: seq<Hash>,
                                            f: nat, nodes1: seq<Hash>, nodes2: seq<Hash>, i: nat)
    requires IsMerkleTree(h, emptyLeaf, leaves, f, nodes1)
    requires IsMerkleTree(h, emptyLeaf, leaves, f, nodes2)
    requires i < |nodes1|
    ensures nodes1[i] == nodes2[i]
    decreases |nodes1| - i
  {
    if i < f {
      MerkleNodeUnique(h, emptyLeaf, leaves, f, nodes1, nodes2, LChild(i));
      MerkleNodeUnique(h, emptyLeaf, leaves, f, nodes1, nodes2, RChild(i));
    }
  }
}
