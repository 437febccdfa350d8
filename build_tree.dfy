/** The imperative tree builder and path extractor of tree/build-tree.js.

    The tree is an array of levels, each level an array of field elements, written
    in place level by level; the methods are proved against the functions of TreeSpec. */
module TreeBuilder {
  import opened TreeSpec

  /** buildTree: one fresh array per level, level 0 filled with the commitments and then
      ZeroValue, each higher level filled with the pairwise hashes of the level below. */
  method BuildTree(commitments: seq<int>, height: nat, poseidon: Hasher) returns (tree: array<array<int>>)
    requires |commitments| <= Pow2(height)
    ensures fresh(tree) && tree.Length == height + 1
    ensures forall y :: 0 <= y <= height ==> fresh(tree[y]) && tree[y].Length == Pow2(height - y)
    ensures forall y, z :: 0 <= y < z <= height ==> tree[y] != tree[z]
    ensures forall i :: 0 <= i < |commitments| ==> tree[0][i] == commitments[i]
    ensures forall i :: |commitments| <= i < Pow2(height) ==> tree[0][i] == ZeroValue
    ensures forall y :: 1 <= y <= height ==>
              forall x :: 0 <= x < tree[y].Length ==>
                2 * x + 1 < tree[y - 1].Length && tree[y][x] == poseidon(tree[y - 1][2 * x], tree[y - 1][2 * x + 1])
    ensures forall y :: 0 <= y <= height ==> tree[y][..] == Level(Padded(commitments, height), poseidon, height, y)
  {
    ghost var leaves := Padded(commitments, height);
    tree := NewLevels(height);
    var levels := tree[..];
    assert forall y, z :: 0 <= y < z <= height ==> levels[y] != levels[z];
    FillLeaves(levels[0], commitments);
    assert levels[0][..] == leaves;

    HashLevels(levels, leaves, poseidon, height);
    BuiltNodes(tree, leaves, poseidon, height);
  }

  /** The outer hashing loop of buildTree: for y = 1 .. height, fill level y from level y - 1,
      so that every level is the one TreeSpec specifies. */
  method HashLevels(levels: seq<array<int>>, ghost leaves: seq<int>, poseidon: Hasher, height: nat)
    requires |leaves| == Pow2(height) && |levels| == height + 1
    requires forall y :: 0 <= y <= height ==> levels[y].Length == Pow2(height - y)
    requires forall y, z :: 0 <= y < z <= height ==> levels[y] != levels[z]
    requires levels[0][..] == leaves
    modifies set z | 1 <= z <= height :: levels[z]
    ensures forall y :: 0 <= y <= height ==> levels[y][..] == Level(leaves, poseidon, height, y)
  {
    var y := 1;
    while y <= height
      invariant 1 <= y <= height + 1
      invariant forall z :: 0 <= z < y ==> levels[z][..] == Level(leaves, poseidon, height, z)
    {
      HashLevel(levels, y, leaves, poseidon, height);
      y := y + 1;
    }
  }

  /** The inner hashing loop of buildTree: node x of level y becomes the hash of nodes 2x (left)
      and 2x + 1 (right) of level y - 1; only level y changes. */
  method HashLevel(levels: seq<array<int>>, y: nat, ghost leaves: seq<int>, poseidon: Hasher, height: nat)
    requires |leaves| == Pow2(height) && |levels| == height + 1 && 1 <= y <= height
    requires forall z :: 0 <= z <= height ==> levels[z].Length == Pow2(height - z)
    requires forall z :: 0 <= z < y ==> levels[z] != levels[y]
    requires forall z :: 0 <= z < y ==> levels[z][..] == Level(leaves, poseidon, height, z)
    modifies levels[y]
    ensures forall z :: 0 <= z <= y ==> levels[z][..] == Level(leaves, poseidon, height, z)
  {
    var child, parent := levels[y - 1], levels[y];
    assert child.Length == 2 * parent.Length by {
      assert Pow2(height - (y - 1)) == 2 * Pow2(height - y);
    }
    var x := 0;
    while x < parent.Length
      invariant 0 <= x <= parent.Length
      invariant forall k :: 0 <= k < x ==> parent[k] == poseidon(child[2 * k], child[2 * k + 1])
    {
      parent[x] := poseidon(child[2 * x], child[2 * x + 1]);
      x := x + 1;
    }
    forall k | 0 <= k < parent.Length
      ensures parent[k] == ParentLevel(child[..], poseidon)[k]
    {
      ParentLevelAt(child[..], poseidon, k);
    }
    assert parent[..] == ParentLevel(child[..], poseidon);
  }

  /** The node equation read off the arrays: in a tree whose levels are those of TreeSpec,
      node x of level y is the hash of nodes 2x (left) and 2x + 1 (right) of level y - 1. */
  lemma BuiltNodes(tree: array<array<int>>, leaves: seq<int>, poseidon: Hasher, height: nat)
    requires |leaves| == Pow2(height) && tree.Length == height + 1
    requires forall y :: 0 <= y <= height ==> tree[y][..] == Level(leaves, poseidon, height, y)
    ensures forall y :: 1 <= y <= height ==>
              forall x :: 0 <= x < tree[y].Length ==>
                2 * x + 1 < tree[y - 1].Length && tree[y][x] == poseidon(tree[y - 1][2 * x], tree[y - 1][2 * x + 1])
  {
    forall y | 1 <= y <= height
      ensures forall x :: 0 <= x < tree[y].Length ==>
                2 * x + 1 < tree[y - 1].Length && tree[y][x] == poseidon(tree[y - 1][2 * x], tree[y - 1][2 * x + 1])
    {
      forall x | 0 <= x < tree[y].Length
        ensures 2 * x + 1 < tree[y - 1].Length && tree[y][x] == poseidon(tree[y - 1][2 * x], tree[y - 1][2 * x + 1])
      {
        assert tree[y][x] == tree[y][..][x];
        NodeEquation(leaves, poseidon, height, y, x);
      }
    }
  }

  /** The empty tree of the given height: levels 0 .. height, level y a fresh array of
      2^(height - y) slots, no two levels sharing an array. */
  method NewLevels(height: nat) returns (tree: array<array<int>>)
    ensures fresh(tree) && tree.Length == height + 1
    ensures forall y :: 0 <= y <= height ==> fresh(tree[y]) && tree[y].Length == Pow2(height - y)
    ensures forall y, z :: 0 <= y < z <= height ==> tree[y] != tree[z]
  {
    var levels: seq<array<int>> := [];
    while |levels| <= height
      invariant |levels| <= height + 1
      invariant forall y :: 0 <= y < |levels| ==> fresh(levels[y]) && levels[y].Length == Pow2(height - y)
      invariant forall y, z :: 0 <= y < z < |levels| ==> levels[y] != levels[z]
    {
      var level := new int[Pow2(height - |levels|)];
      levels := levels + [level];
    }
    tree := new array<int>[height + 1](y requires 0 <= y <= height => levels[y]);
  }

  /** Level 0: the commitments at positions 0 .. |commitments| - 1, ZeroValue in every other slot. */
  method FillLeaves(leafLevel: array<int>, commitments: seq<int>)
    requires |commitments| <= leafLevel.Length
    modifies leafLevel
    ensures forall i :: 0 <= i < |commitments| ==> leafLevel[i] == commitments[i]
    ensures forall i :: |commitments| <= i < leafLevel.Length ==> leafLevel[i] == ZeroValue
  {
    var i := 0;
    while i < |commitments|
      invariant 0 <= i <= |commitments|
      invariant forall k :: 0 <= k < i ==> leafLevel[k] == commitments[k]
    {
      leafLevel[i] := commitments[i];
      i := i + 1;
    }
    while i < leafLevel.Length
      invariant |commitments| <= i <= leafLevel.Length
      invariant forall k :: 0 <= k < |commitments| ==> leafLevel[k] == commitments[k]
      invariant forall k :: |commitments| <= k < i ==> leafLevel[k] == ZeroValue
    {
      leafLevel[i] := ZeroValue;
      i := i + 1;
    }
  }

  /** getPathElements: walk from the leaf to the root with a running index x, collecting at
      each level the other node of x's pair and then halving x. Reads the tree, changes nothing. */
  method GetPathElements(tree: array<array<int>>, leafIndex: nat, height: nat) returns (pathElements: seq<int>)
    requires tree.Length >= height
    requires forall y :: 0 <= y < height ==> tree[y].Length >= Pow2(height - y)
    requires leafIndex < Pow2(height)
    ensures |pathElements| == height
    ensures forall y :: 0 <= y < height ==>
              0 <= Sibling(leafIndex / Pow2(y)) < tree[y].Length
              && pathElements[y] == tree[y][Sibling(leafIndex / Pow2(y))]
  {
    pathElements := [];
    var x := leafIndex;
    var y := 0;
    while y < height
      invariant 0 <= y <= height
      invariant x == Ancestor(leafIndex, y) && x < Pow2(height - y)
      invariant |pathElements| == y
      invariant forall k :: 0 <= k < y ==>
                  Sibling(Ancestor(leafIndex, k)) < tree[k].Length
                  && pathElements[k] == tree[k][Sibling(Ancestor(leafIndex, k))]
    {
      SiblingInRange(x, Pow2(height - y - 1));
      var siblingX := if x % 2 == 0 then x + 1 else x - 1;
      pathElements := pathElements + [tree[y][siblingX]];
      AncestorStep(leafIndex, y);
      x := x / 2;
      y := y + 1;
    }
    forall k | 0 <= k < height
      ensures 0 <= Sibling(leafIndex / Pow2(k)) < tree[k].Length
              && pathElements[k] == tree[k][Sibling(leafIndex / Pow2(k))]
    {
      AncestorIsDiv(leafIndex, k);
      var s := Sibling(Ancestor(leafIndex, k));
      assert s < tree[k].Length && pathElements[k] == tree[k][s];
    }
  }

  /** Builds the tree, extracts the path of one leaf and reads off the root: the path is the
      specified one, and hashing the leaf up through it by the bits of its index gives the root. */
  method ProveInclusion(commitments: seq<int>, height: nat, leafIndex: nat, poseidon: Hasher)
    returns (root: int, pathElements: seq<int>)
    requires |commitments| <= Pow2(height) && leafIndex < Pow2(height)
    ensures pathElements == PathElements(Padded(commitments, height), poseidon, leafIndex, height)
    ensures root == Level(Padded(commitments, height), poseidon, height, height)[0]
    ensures RootFromPath(Padded(commitments, height)[leafIndex], pathElements, leafIndex, poseidon) == root
  {
    ghost var leaves := Padded(commitments, height);
    var tree := BuildTree(commitments, height, poseidon);
    pathElements := GetPathElements(tree, leafIndex, height);
    root := tree[height][0];
    ExtractedPath(tree, leaves, poseidon, height, leafIndex, pathElements);
    RecomputationLaw(leaves, poseidon, height, leafIndex);
  }

  /** The path read off arrays holding the specified levels is the specified path. */
  lemma ExtractedPath(tree: array<array<int>>, leaves: seq<int>, poseidon: Hasher, height: nat, leafIndex: nat,
                      pathElements: seq<int>)
    requires |leaves| == Pow2(height) && leafIndex < Pow2(height) && tree.Length == height + 1
    requires forall y :: 0 <= y <= height ==> tree[y][..] == Level(leaves, poseidon, height, y)
    requires |pathElements| == height
    requires forall y :: 0 <= y < height ==>
               0 <= Sibling(leafIndex / Pow2(y)) < tree[y].Length
               && pathElements[y] == tree[y][Sibling(leafIndex / Pow2(y))]
    ensures pathElements == PathElements(leaves, poseidon, leafIndex, height)
  {
    forall y | 0 <= y < height
      ensures pathElements[y] == PathElements(leaves, poseidon, leafIndex, height)[y]
    {
      AncestorIsDiv(leafIndex, y);
      PathAt(leaves, poseidon, height, leafIndex, y);
      var s := Sibling(Ancestor(leafIndex, y));
      assert pathElements[y] == tree[y][s];
      assert tree[y][s] == tree[y][..][s];
    }
  }
}
