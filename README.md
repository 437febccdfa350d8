# Fixed-height Merkle tree builder, in Dafny

This project models `tree/build-tree.js`. That file builds a binary Merkle tree of fixed height over a list of
commitments and extracts the inclusion path (the sibling path) of one leaf.

- `buildTree(commitments, height)` writes the commitments into level 0. It pads level 0 up to `2^height` leaves
  with the sentinel `ZERO_VALUE`. It then fills each level `y = 1 .. height` with the pairwise hashes of level
  `y - 1`. The even-indexed child is always the left input. The root is `tree[height][0]`.
- `getPathElements(tree, leafIndex, height)` walks from the leaf to the root with a running index `x`. At each level
  it collects the other node of `x`'s pair, then halves `x`.

The project has two modules.

- `TreeSpec` (`tree_spec.dfy`) is the pure specification:
  - the padded leaf level `Padded`;
  - level `y` of the tree, `Level`, as a recursive function of the leaves;
  - the sibling path `PathElements`;
  - the root a verifier recomputes from a leaf and its path, `RootFromPath`;
  - the lemmas relating these functions.
- `TreeBuilder` (`build_tree.dfy`) is the imperative code. The tree is an `array<array<int>>`, one preallocated array
  per level, filled in place by the loops of the source. Each method is proved against the functions of `TreeSpec`.

The Poseidon hash is a parameter `poseidon: Hasher`, a function `(int, int) -> int` with the left input first.
Every property below therefore holds for any two-input hash function.

## Model

| member | source | states |
|---|---|---|
| TreeSpec.Padded | tree/build-tree.js:12-20 | Level 0 has exactly 2^height slots. Slot i holds commitments[i] for i below the number of commitments and ZERO_VALUE everywhere else. With 2^height commitments, level 0 is exactly the commitments and no ZERO_VALUE is written. |
| TreeSpec.ParentLevel | tree/build-tree.js:25-27 | The level above a level of n nodes has n/2 nodes. |
| TreeSpec.ParentLevelAt | tree/build-tree.js:27-30 | Node x of the level above is the hash of child 2x as left input and child 2x+1 as right input. |
| TreeSpec.Level | tree/build-tree.js:23-27 | Level y of a tree of height h has 2^(h-y) nodes. |
| TreeSpec.LevelShift | tree/build-tree.js:23-31 | Hashing the leaves once and then building a tree of height k gives the same levels, one step down, as building the tree of height k+1. |
| TreeSpec.NodeEquation | tree/build-tree.js:27-30 | For 1 <= y <= height and x < 2^(height-y), both children 2x and 2x+1 exist in level y-1, and node (x, y) is their hash with the even child on the left. |
| TreeSpec.RootLevel | tree/build-tree.js:23-25 | Level `height` holds exactly one node, the root. |
| TreeSpec.Sibling | tree/build-tree.js:44 | The sibling of x is the other member of x's pair: it differs from x and has the same half, so it is x XOR 1. The sibling of a non-negative index is non-negative. |
| TreeSpec.AncestorIsDiv | tree/build-tree.js:46 | After y halvings with rounding down, the running index is leafIndex / 2^y. |
| TreeSpec.AncestorStep | tree/build-tree.js:46 | One more halving of the running index gives the ancestor one level up. |
| TreeSpec.AncestorInRange | tree/build-tree.js:43-46 | For a leaf index below 2^k, its ancestor at level y lies within level y, which has 2^(k-y) nodes. |
| TreeSpec.SiblingInRange | tree/build-tree.js:44-45 | An index inside a level of even length has its sibling inside that level too. |
| TreeSpec.PathElements | tree/build-tree.js:38-50 | The sibling path of a leaf in a tree of height k has exactly k elements. |
| TreeSpec.PathTail | tree/build-tree.js:43-46 | Path element y of a leaf is path element y-1 of its parent in the tree one level shorter. |
| TreeSpec.PathAt | tree/build-tree.js:43-46 | Path element y is the node of level y at position Sibling(Ancestor(leafIndex, y)), the sibling of the leaf index halved y times, and that position lies inside level y. |
| TreeSpec.HashWithSibling | tree/build-tree.js:28-30 | Hashing a node with its sibling, the current node on the left when its index is even, gives the parent node at index/2. |
| TreeSpec.RecomputationLaw | tree/build-tree.js:28-30 | Start from leaf `leafIndex` and fold the path upward, putting the running value on the left when bit y of the index is 0 and on the right when it is 1. The result is the root. |
| TreeSpec.PaddingSubtree | tree/build-tree.js:17-20 | A node of level y whose leaves all lie past the last commitment is the root of an all-ZERO_VALUE subtree of height y. With no commitments, every node of a level has this same value. |
| TreeSpec.EmptyTreePath | tree/build-tree.js:57-58 | In the tree over no commitments, path element y of every leaf is the all-ZERO_VALUE subtree root of height y. |
| TreeSpec.EmptyTreePathIndependent | tree/build-tree.js:57-58 | In the tree over no commitments, any two leaves have the same path. |
| TreeSpec.HeightFourTable | tree/build-tree.js:117-135 | At height 4 the paths of leaves 0, 6 and 13 read the node locations the table gives: (1,0),(1,1),(1,2),(1,3); (7,0),(2,1),(0,2),(1,3); and (12,0),(7,1),(2,2),(0,3). |
| TreeSpec.ThreeCommitmentsPath | tree/build-tree.js:54-70 | For the three commitments c0, c1, c2 at height 4, the path of leaf 0 is [c1, H(c2, ZERO_VALUE), Z2, Z3], where Zy is the all-ZERO_VALUE subtree root of height y. |
| TreeBuilder.BuildTree | tree/build-tree.js:5-35 | Returns fresh, pairwise distinct level arrays 0 .. height, where level y has 2^(height-y) slots. Level 0 holds the commitments and then ZERO_VALUE. Every node (x, y) with y >= 1 is the hash of nodes 2x (left) and 2x+1 (right) of level y-1. Every level equals the specified Level. |
| TreeBuilder.NewLevels | tree/build-tree.js:10 | Allocates fresh, pairwise distinct arrays for levels 0 .. height, where level y has 2^(height-y) slots. |
| TreeBuilder.FillLeaves | tree/build-tree.js:12-20 | After the two leaf loops, slot i holds commitments[i] below the number of commitments and ZERO_VALUE from there to the end of level 0. |
| TreeBuilder.HashLevels | tree/build-tree.js:22-32 | After the outer loop, every level array holds exactly the specified Level of the padded leaves. |
| TreeBuilder.HashLevel | tree/build-tree.js:25-31 | One pass of the inner loop makes level y the pairwise hash of level y-1, so levels 0 .. y are the specified ones. Only level y is written. |
| TreeBuilder.BuiltNodes | tree/build-tree.js:27-30 | In arrays whose levels are the specified ones, the node equation holds array by array, with both children in bounds. |
| TreeBuilder.GetPathElements | tree/build-tree.js:38-50 | Returns exactly `height` elements. Element y is tree[y][Sibling(leafIndex / 2^y)], and that index is within level y. The method has no modifies clause, so it leaves the tree unchanged. |
| TreeBuilder.ExtractedPath | tree/build-tree.js:43-46 | A path whose element y is tree[y][Sibling(leafIndex / 2^y)], read from arrays holding the specified levels, is exactly the specified path of the leaf. |
| TreeBuilder.ProveInclusion | tree/build-tree.js:33-50 | Building the tree and extracting the path of a leaf gives the specified path and the root tree[height][0]. Folding the leaf up through that path by the bits of the index gives that root. |

## Left out

- Poseidon (`buildPoseidon`, `poseidon(...)`, `poseidon.F`) is a foreign cryptographic library. It is the parameter `poseidon: Hasher`, and no property of it is assumed.
- The `async`/`await` wrapper and the `console.log` of the root are I/O. For height 1 or more they have no effect on the tree; for height 0 see the height-0 line below.
- The self-running demo and its decimal formatting of path elements are presentation only. Its outcome is stated by `TreeSpec.ThreeCommitmentsPath`, over symbolic commitments and hash.
- The field range of the values is not modelled: values are unbounded integers, and the hash stands for the reduction into the field.
- TreeBuilder.BuildTree: requires at most 2^height commitments. The source does not check this. With more commitments it writes extra entries into level 0 that no hash reads, and the model does not reproduce them.
- TreeBuilder.GetPathElements: requires at least `height` levels, each of its built size, and leafIndex < 2^height. The source checks none of these. With a leaf index of 2^height or more, or a level array that is too short, JavaScript pushes `undefined` into the path. With fewer than `height` levels, `tree[y]` is `undefined` and reading `tree[y][siblingX]` throws a TypeError. The model reproduces neither behaviour.
- The ragged JavaScript arrays that grow on write are modelled as preallocated arrays of the final sizes.
- Height 0, a tree that is a single leaf: the model allows it and returns the one-leaf tree with an empty path. The source's leaf loops and `getPathElements` handle it too. But tree/build-tree.js:33 then formats the root `tree[0][0]`, which is a plain BigInt leaf and not a hash output, with `poseidon.F.toString`. The hash library is not part of this model, so it is open whether the source rejects there before returning the tree; the model does not reproduce such a rejection. Negative heights cannot occur, because height is a natural number.
- TreeSpec.HeightFourTable: covers three rows of the sixteen in the table. Every row is an instance of `TreeSpec.PathAt`.

For leaf 0 over the three commitments of the demo, path element 1 is H(c2, ZERO_VALUE), because leaf 2 holds a
commitment; only elements 2 and 3 are roots of all-ZERO_VALUE subtrees, as `TreeSpec.ThreeCommitmentsPath` states.
