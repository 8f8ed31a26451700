# Append-only Merkle tree

This project models `MerkleTree<T>` of `merkle-tree.h` in Dafny. The tree is an append-only binary Merkle tree and is always kept complete:

- every leaf sits at depth `layers - 1`;
- every internal node has two children and carries `sha256(left.hash + right.hash)`;
- each child's `prev` points back to its parent;
- the `_end` cursor marks the next leaf to fill, left to right.

`insert` does four things in order:

1. It doubles the capacity when the tree is empty or full (`growLayer`, `createEmptyTree`).
2. It writes the element and its hash into the cursor leaf.
3. It rehashes the path to the root (`updateHashesUpward`).
4. It moves the cursor on (`findNextNode`, `findLeftMostInRightSubtree`).

## How the model is built

**Nodes as an arena.** The node graph is an arena inside the class `MerkleTrees.MerkleTree`:

- Node `n` is an index into the parallel sequence fields `left`, `right`, `prev`, `hash` and `data`.
- `-1` stands for `nullptr`.
- The fields `root`, `size`, `layers` and `end` are `_root`, `_size`, `_layers` and `_end`.
- The source only ever allocates nodes, so the arena only grows.

**Node ids follow allocation order.** `createEmptyTree` builds the left subtree, then the right subtree, then their parent. `growLayer` adds the new root last. As a result the arena is the post-order layout of a complete tree. Module `MerkleShape` (file `shape.dfy`) describes that layout by position: `NodeAt(b, k, d, i)` is the node at depth `d` and index `i`. It then proves what the source's link-following loops reach in that layout.

**The tree invariant.** `MerkleTree.Valid` is the invariant that holds between two inserts. It says:

- the links form a complete tree of `layers` layers;
- every node is consistent;
- leaf `j` holds the `j`-th inserted element (ghost field `elems`), and later leaves hold placeholders;
- `2^(layers-1) < 2 * size`, which holds for every tree built by inserts;
- the cursor is on leaf `size`, or on the root once the tree is full.

**Outside collaborators.** `sha256`, `toString` and `rand()` are outside the model. The constructor receives them as the function values `H`, `ToString` and `Noise`. The placeholder leaf with id `n` gets hash `H(Noise(n))`. The scenario module `Scenario` fixes `ToString` to decimal formatting of `int`, which is what `std::ostringstream` produces. It then replays `test-harness.cpp`.

**Where the code departs from its comment.** At `merkle-tree.h:82` the code disagrees with the comment at `merkle-tree.h:79-80`. The tree uses the behaviour the comment describes; see "## Findings". The code as written is modelled too, as `FindNextNodeAsWritten`.

**How `insert` is split.** `insert` is modelled by two methods:

- `Insert` grows the tree when needed.
- `Put` does the rest of the source's body.

Each of the two states its own contract.

## Model

| member | source | states |
|---|---|---|
| MerkleShape.Pow2Log | merkle-tree.h:68 | 2^a <= 2^b < 2^(a+1) holds only when a == b; the layer count can be read off a power-of-two size |
| MerkleShape.NodeAt | merkle-tree.h:121-131 | the node at depth d, index i of a complete tree laid out in allocation order from id b lies within that tree's Size(k) ids |
| MerkleShape.NodeAtOnto | merkle-tree.h:121-131 | every id of such a tree is the id of some position (d, i): the layout has no stray nodes |
| MerkleShape.NodeAtMono | merkle-tree.h:121-131 | along one depth, positions further right have larger ids: the left subtree is allocated first |
| MerkleShape.ShapedLeaf | merkle-tree.h:122-123 | in a complete tree every node at the bottom depth k-1 has neither a left nor a right child |
| MerkleShape.ShapedInner | merkle-tree.h:125-127 | node (d, i) above the bottom has left child (d+1, 2i) and right child (d+1, 2i+1) |
| MerkleShape.ShapedParent | merkle-tree.h:128-129 | with back links in place, the parent of node (d, i) below the root is node (d-1, i/2) |
| MerkleShape.DepthAt | merkle-tree.h:121-131 | following prev links from node (d, i) reaches the parentless root in exactly d steps, so every leaf sits at depth layers-1 |
| MerkleShape.LeftmostIndex | merkle-tree.h:112-119 | the leftmost leaf below node (d, i) of a k-layer tree is leaf i * 2^(k-1-d) |
| MerkleShape.LeftmostUnique | merkle-tree.h:112-119 | a node has exactly one leftmost leaf |
| MerkleShape.LeftmostBound | merkle-tree.h:112-119 | the leftmost leaf below a node is one of the tree's 2^(k-1) leaves |
| MerkleShape.NextAfterRightmost | merkle-tree.h:79-80 | the leaf after the rightmost leaf below node (d, i) is the leftmost leaf below node (d, i+1) |
| MerkleShape.RightmostOfAll | merkle-tree.h:86-87 | the rightmost leaf below the rightmost node of a depth is the last leaf |
| MerkleShape.LeftSpineLeaf | merkle-tree.h:115-118 | following left links from node (d, i) until a node without a left child ends at the leftmost leaf below (d, i) |
| MerkleShape.AscentStart | merkle-tree.h:78-81 | the next-leaf search starts with last at leaf j and curr at its parent, or at null when leaf j is the root |
| MerkleShape.AscendStep | merkle-tree.h:82-85 | while last is curr's right child, moving up keeps j the rightmost leaf below last and curr last's parent |
| MerkleShape.AscentTop | merkle-tree.h:86-87 | when the ascent passes the root, j was the last leaf (j + 1 == capacity) |
| MerkleShape.AscentTurn | merkle-tree.h:89-90 | when the ascent stops below the root, curr is an internal node, as findLeftMostInRightSubtree requires |
| MerkleShape.NextLeafBelow | merkle-tree.h:89-92 | the leftmost leaf below the right child of the node where the ascent stopped is leaf j + 1 |
| MerkleShape.ParentOfLeaf | merkle-tree.h:81-82 | leaf j has no parent iff the tree has one layer; otherwise its parent is the internal node (k-2, j/2), which is not its own right child, so the guard at line 82 is false |
| MerkleShape.SiblingLeaf | merkle-tree.h:90 | the leftmost leaf below the right child of leaf j's parent is leaf j itself when j is odd, and leaf j + 1 when j is even |
| MerkleShape.ShapedFrame | merkle-tree.h:103-107 | a complete tree stays complete when the child links of its nodes are kept, whatever is appended or relinked by prev |
| MerkleShape.GrowLeaves | merkle-tree.h:103-105 | after growth the old tree's leaf j is leaf j of the taller tree, and leaf j of the fresh right half is leaf 2^(k-1) + j |
| MerkleShape.AboveStep | merkle-tree.h:143-148 | the nodes visited by the upward walk from a node are closed under one more prev step |
| MerkleShape.LeftSpineStep | merkle-tree.h:115-117 | the nodes visited by the left walk are closed under one more left step |
| MerkleShape.AdoptLinked | merkle-tree.h:105-107 | linking two parentless nodes under a newly appended parent keeps every child-parent back link consistent, in either order of the two prev assignments (growLayer and createEmptyTree use opposite orders) |
| MerkleShape.AppendLeafLinked | merkle-tree.h:21-24 | appending a childless, parentless node keeps the back links consistent |
| MerkleShape.JoinShaped | merkle-tree.h:125-127 | two complete trees of height k-1 laid out one after the other, under a node right after them that has them as children, form a complete tree of height k |
| MerkleShape.ShapedGrown | merkle-tree.h:121-131 | a complete region stays complete in every arena that extends it |
| MerkleShape.GrownLeaf | merkle-tree.h:123 | a freshly appended leaf is a one-layer complete tree in every extension of the arena |
| MerkleShape.GrownJoin | merkle-tree.h:125-127 | two complete halves joined by the node right after them make a complete tree in every extension |
| MerkleTrees.LeafHashesSplit | merkle-tree.h:125-127 | the leaf hashes of a tree of height k are those of its left half followed by those of its right half |
| MerkleTrees.SubtreeHash | merkle-tree.h:146 | if every internal node of a complete region hashes its children's concatenated hashes, the region root's hash equals MerkleRootOf of its leaf hashes, computed bottom-up from scratch |
| MerkleTrees.GrowStored | merkle-tree.h:103-105 | growth keeps each inserted element at its leaf index; every leaf past the old capacity is a placeholder |
| MerkleTrees.StoredAppend | merkle-tree.h:69-70 | storing x in leaf size makes the leaves hold the old elements followed by x |
| MerkleTrees.MerkleTree.LeafHashesStored | merkle-tree.h:69 | in a valid tree leaf j carries H(ToString(element j)) for j < size, and the placeholder hash H(Noise(id)) after that |
| MerkleTrees.MerkleTree.RootDigest | merkle-tree.h:67-74 | reconstruction equivalence: the root hash of a valid tree is MerkleRootOf of the element hashes in insertion order, padded with the placeholder hashes |
| MerkleTrees.MerkleTree.DoublingLaw | merkle-tree.h:68 | a valid tree holding 2^j elements has j+1 layers, is full and has its cursor on the root, so the next insert grows it |
| MerkleTrees.MerkleTree.AppendOK | merkle-tree.h:21-27 | appending a placeholder leaf with its noise hash, or an internal node with the hash of its children, keeps every node consistent |
| MerkleTrees.MerkleTree.RehashStep | merkle-tree.h:144-148 | one iteration of the upward walk: after rehashing curr only curr's parent is pending, and only internal nodes on the path from the start changed |
| MerkleTrees.MerkleTree.constructor | merkle-tree.h:53-54 | an empty tree (no root, size 0, no layers, no cursor) satisfies the invariant |
| MerkleTrees.MerkleTree.NewLeaf | merkle-tree.h:21-24 | appends a node with no children, no parent, no data and hash H(Noise(id)) |
| MerkleTrees.MerkleTree.NewInternal | merkle-tree.h:26-27 | appends a node with the given hash and children, no parent and no data |
| MerkleTrees.MerkleTree.AppendedLeaf | merkle-tree.h:123 | one placeholder leaf is a fresh complete tree of one layer that keeps the arena's links and hashes consistent |
| MerkleTrees.MerkleTree.AppendedJoin | merkle-tree.h:125-130 | two fresh trees of height k-1 joined under a parent with the hash of their roots, and linked back to it, are a fresh complete tree of height k |
| MerkleTrees.MerkleTree.AppendedLinked | merkle-tree.h:128-129 | the join keeps the back links consistent |
| MerkleTrees.MerkleTree.AppendedOK | merkle-tree.h:127 | the join keeps every node consistent |
| MerkleTrees.MerkleTree.CreateEmptyTree | merkle-tree.h:121-131 | appends a complete tree of height k of placeholder leaves without data, whose internal nodes hash their children and are the parents of their children; earlier nodes are unchanged; returns its root, which has no parent |
| MerkleTrees.MerkleTree.GrowArena | merkle-tree.h:103-107 | the new root over the old root and a fresh tree of the old height forms a consistent complete tree one layer taller; only the old root's prev changes among the old nodes |
| MerkleTrees.MerkleTree.GrowCursor | merkle-tree.h:108 | after growth the elements stay at their leaf indices, and the leftmost leaf below the new root's right child is leaf old-capacity |
| MerkleTrees.MerkleTree.GrowEmpty | merkle-tree.h:97-101 | growing an empty tree gives a one-layer tree whose single placeholder leaf is the root and the cursor |
| MerkleTrees.MerkleTree.GrowLayer | merkle-tree.h:95-109 | empty tree: a single placeholder root, one layer, cursor on it. Otherwise: the old root becomes the left child of a new root hashing both children; the right child is a fresh tree of the old height; layers grows by one; no old node's links, hash or data change except the old root's prev; elements keep their leaf indices; the cursor is on leaf old-capacity |
| MerkleTrees.MerkleTree.FindLeftMostInRightSubtree | merkle-tree.h:112-119 | for an internal node, returns a node without a left child, reached by one right step and then only left steps |
| MerkleTrees.MerkleTree.UpdateHashesUpward | merkle-tree.h:142-150 | when every node except the start's parent (and the start, if internal) is consistent, every node is consistent afterwards; only internal nodes on the path from the start to the root change; the loop terminates |
| MerkleTrees.MerkleTree.FindNextNode | merkle-tree.h:76-93 | with the ascent condition corrected to last == curr->right: from leaf j, returns leaf j + 1, or the root as a sentinel when j is the last leaf |
| MerkleTrees.MerkleTree.FindNextNodeAsWritten | merkle-tree.h:76-93 | as written: one layer gives the root; otherwise an even leaf j gives leaf j + 1 and an odd leaf j gives leaf j itself |
| MerkleTrees.MerkleTree.WriteLeaf | merkle-tree.h:69-70 | writing x and H(ToString(x)) into the cursor leaf of a tree with room stores the elements followed by x, and leaves only the leaf's parent pending for the upward walk |
| MerkleTrees.MerkleTree.WritePending | merkle-tree.h:69-70 | giving a leaf of a consistent arena a new payload and its hash leaves only that leaf's parent inconsistent |
| MerkleTrees.MerkleTree.PutDone | merkle-tree.h:71-73 | after the write, the rehash and the cursor step the invariant holds again with one more element, and the cursor is on the next leaf or on the root once the tree is full |
| MerkleTrees.MerkleTree.Put | merkle-tree.h:69-73 | from a tree with room: stores x at leaf size, sets its hash to H(ToString(x)), size grows by exactly one, and the invariant holds again |
| MerkleTrees.MerkleTree.Insert | merkle-tree.h:67-74 | grows exactly when size == 0 or size == 2^(layers-1); appends x to the elements; size grows by exactly one; the invariant holds again (all hashes consistent, elements left to right, size <= capacity, cursor on the next free leaf) |
| Scenario.DigitChar | merkle-tree.h:59-64 | the character of decimal digit d is a digit character worth d |
| Scenario.Digits | merkle-tree.h:59-64 | the decimal digits of n are non-empty, all digits, with no leading zero |
| Scenario.IntToString | merkle-tree.h:59-64 | toString on int is non-empty and starts with '-' exactly when the number is negative |
| Scenario.DigitsRoundTrip | merkle-tree.h:59-64 | reading back the digits of n gives n |
| Scenario.IntToStringRoundTrip | merkle-tree.h:59-64 | parsing toString(i) gives back i, so distinct ints give distinct strings and distinct leaf hashes |
| Scenario.TwoInserts | test-harness.cpp:8-10 | after inserting 5 and then 7 into an empty tree, the root hash is H(H("5") + H("7")) |
| Scenario.HarnessRun | test-harness.cpp:8-13 | after inserting 5, 7, 3, 0 and -1 into an empty tree it is valid, with 4 layers, size 5 and those elements in order |
| Scenario.LastThree | test-harness.cpp:11-13 | from the tree holding 5 and 7, inserting 3, 0 and -1 gives 4 layers and size 5 |
| Scenario.LastTwo | test-harness.cpp:12-13 | from the tree holding 5, 7 and 3, inserting 0 does not grow it, and inserting -1 grows it to 4 layers |
| Scenario.HarnessLeaves | test-harness.cpp:8-13 | the eight leaves of that tree carry H("5"), H("7"), H("3"), H("0"), H("-1"), then placeholder hashes of nodes 8, 10 and 11, and those three leaves hold no element |
| Scenario.HarnessPadded | test-harness.cpp:9-13 | the element hashes of the run, padded with placeholder hashes, written out |
| Scenario.HarnessFormatted | test-harness.cpp:9-13 | 5, 7, 3, 0 and -1 format as "5", "7", "3", "0" and "-1" |
| Scenario.HarnessPlaceholders | merkle-tree.h:121-131 | a four-layer tree has capacity 8, and its leaves 5, 6 and 7 are nodes 8, 10 and 11 |
| Scenario.SixthInsertCursor | merkle-tree.h:82 | after a sixth insert, the as-written cursor step returns node 8, which already holds the sixth element; the corrected step returns node 10, which is free |

## Left out

- Digest, formatting and randomness are parameters, not code:
  - `sha256` (`sha256.h`) is not part of this model; it is the function value `H`.
  - `toString` is the function value `ToString`; `Scenario.IntToString` models it for `int` only.
  - `rand()` is the function value `Noise`, indexed by the new node's id. The process-wide random sequence is not modelled.
- `traverseTree` (`merkle-tree.h:133-140`) is left out: it only prints raw node addresses and hashes.
- Memory management is left out:
  - the empty destructor;
  - the never-freed nodes;
  - the heap copy `new T(element)`, modelled as the element value itself;
  - allocation failure.
- The stray `template <typename T>` at `merkle-tree.h:152` and the commented-out include guard are not code and are not modelled.
- MerkleTrees.MerkleTree.Insert does not model overflow:
  - the source computes `1 << (_layers-1)` in `int`, which overflows for 32 or more layers;
  - `_size` and `_layers` are `size_t`;
  - the model uses unbounded integers, so it describes trees below 2^31 leaves.
- MerkleTrees.MerkleTree.Insert is the grow step of `insert`; the remaining statements are in MerkleTrees.MerkleTree.Put. Together they are the whole of `insert`.
- MerkleTrees.MerkleTree.Insert uses the corrected FindNextNode. Inserting with the as-written cursor step is shown only by Scenario.SixthInsertCursor, not modelled as a whole insert sequence.
- Node identity and aliasing: nodes are arena indices, so the model has no two references to one node except through the explicit `prev` links.

## Findings

| source | as written | input that shows it | evidently intended | confidence | as-written member | corrected member |
|---|---|---|---|---|---|---|
| merkle-tree.h:82 | the ascent loop tests `curr == curr->right`; no node is its own right child, so the loop never runs. After a leaf that is a right child is filled, the cursor stays on that same leaf | insert six elements into an empty tree (for instance 5, 7, 3, 0, -1, then any x): the sixth fills leaf 5 (node 8) and the cursor stays there, so a seventh insert overwrites it instead of filling leaf 6 (node 10) | `last == curr->right`, as the comment at lines 79-80 says: climb while the subtree just left was a right child, so the cursor moves to the next leaf to the right, or to the root when the tree is full | not executed | MerkleTrees.MerkleTree.FindNextNodeAsWritten | MerkleTrees.MerkleTree.FindNextNode |
