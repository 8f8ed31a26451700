// Shape of the node arena of merkle-tree.h.
//
// The tree only ever allocates nodes in one order: createEmptyTree builds the
// left subtree, then the right subtree, then their parent, and growLayer
// builds a fresh right subtree and then the new root. Numbering nodes by
// allocation therefore lays a complete tree of height k out in post-order:
// the left subtree occupies ids [b, b + Size(k-1)), the right subtree the next
// Size(k-1) ids, and the root is the last id. Child links are arena ids, and
// -1 stands for nullptr.
module MerkleShape {

  /** 2^n. */
  function Pow2(n: nat): (r: nat)
    ensures r >= 1
  {
    if n == 0 then 1 else 2 * Pow2(n - 1)
  }

  /** Powers of two are one apart at most once: 2^a <= 2^b < 2^(a+1) only when b == a. */
  lemma {:induction false} Pow2Log(a: nat, b: nat)
    requires Pow2(a) <= Pow2(b) < 2 * Pow2(a)
    ensures a == b
    decreases a
  {
    if a > 0 && b > 0 {
      Pow2Log(a - 1, b - 1);
    }
  }

  /** Number of nodes in a complete binary tree with k layers. */
  function Size(k: nat): nat
  {
    Pow2(k) - 1
  }

  /** Number of leaves (capacity) of a tree with k layers; an empty tree has none. */
  function Cap(k: nat): nat
  {
    if k == 0 then 0 else Pow2(k - 1)
  }

  /**
   * Id of the node at depth d (0 = root) and left-to-right index i among the
   * nodes of that depth, in the complete tree of height k whose post-order
   * layout starts at id b.
   */
  function NodeAt(b: nat, k: nat, d: nat, i: nat): (n: nat)
    requires d < k && i < Pow2(d)
    ensures b <= n < b + Size(k)
    decreases k
  {
    if d == 0 then b + Size(k) - 1
    else if i < Pow2(d - 1) then NodeAt(b, k - 1, d - 1, i)
    else NodeAt(b + Size(k - 1), k - 1, d - 1, i - Pow2(d - 1))
  }

  /**
   * The nodes [b, b + Size(k)) of the arena with child links (l, r) =
   * (left, right) form a complete tree of height k in post-order: every leaf
   * is at depth k-1 and every internal node has as children the roots of the
   * two halves before it. Parent links are not part of the shape; Linked
   * makes them point back.
   */
  ghost predicate Shaped(l: seq<int>, r: seq<int>, b: nat, k: nat)
    decreases k
  {
    k >= 1 && b + Size(k) <= |l| && b + Size(k) <= |r| &&
    var root := b + Size(k) - 1;
    if k == 1 then l[root] == -1 && r[root] == -1
    else
      l[root] == b + Size(k - 1) - 1 && r[root] == b + 2 * Size(k - 1) - 1 &&
      Shaped(l, r, b, k - 1) && Shaped(l, r, b + Size(k - 1), k - 1)
  }

  /**
   * The region [b, b + Size(k)) is shaped in every arena that extends
   * (l, r): nodes are only ever appended, so a region once built keeps its
   * shape.
   */
  ghost predicate Grown(l: seq<int>, r: seq<int>, b: nat, k: nat)
  {
    forall l', r' :: l <= l' && r <= r' ==> Shaped(l', r', b, k)
  }

  /**
   * Local link discipline of the arena, true of every node between two
   * source statements that link nodes: a node has either no child or two,
   * children are allocated before their parent and point back to it, and a
   * parent link is null or points to a later node that has this one as a
   * child.
   */
  ghost predicate Linked(l: seq<int>, r: seq<int>, p: seq<int>)
  {
    |l| == |r| == |p| &&
    forall n :: 0 <= n < |l| ==> LinkedAt(l, r, p, n)
  }

  /** The link discipline at node n (see Linked). */
  ghost predicate LinkedAt(l: seq<int>, r: seq<int>, p: seq<int>, n: int)
    requires |l| == |r| == |p| && 0 <= n < |l|
  {
    (l[n] == -1 <==> r[n] == -1) &&
    (l[n] != -1 ==> 0 <= l[n] < n && 0 <= r[n] < n && p[l[n]] == n && p[r[n]] == n) &&
    (p[n] == -1 || (n < p[n] < |p| && (l[p[n]] == n || r[p[n]] == n)))
  }

  /** y is reached from x by following left links only (zero or more steps). */
  ghost predicate LeftSpine(l: seq<int>, x: int, y: int)
    decreases if x < 0 then 0 else x
  {
    0 <= x < |l| && (x == y || (0 <= l[x] < x && LeftSpine(l, l[x], y)))
  }

  /** a is x itself or one of its ancestors along the parent links p. */
  ghost predicate Above(p: seq<int>, x: int, a: int)
    decreases |p| - x
  {
    0 <= x < |p| && (x == a || (x < p[x] < |p| && Above(p, p[x], a)))
  }

  /** Number of parent links from n up to a node without a parent. */
  ghost function Depth(p: seq<int>, n: int): nat
    requires 0 <= n < |p|
    decreases |p| - n
  {
    if n < p[n] < |p| then 1 + Depth(p, p[n]) else 0
  }

  // ---------------------------------------------------------------------
  // Lemmas about the layout

  /** Nodes of one depth are numbered left to right: a later index is a later id. */
  lemma {:induction false} NodeAtMono(b: nat, k: nat, d: nat, i: nat, j: nat)
    requires d < k && i < j < Pow2(d)
    ensures NodeAt(b, k, d, i) < NodeAt(b, k, d, j)
    decreases k
  {
    var half := Pow2(d - 1);
    if j < half {
      NodeAtMono(b, k - 1, d - 1, i, j);
    } else if half <= i {
      NodeAtMono(b + Size(k - 1), k - 1, d - 1, i - half, j - half);
    }
  }

  /** In a shaped region every node at the bottom depth k-1 is a leaf. */
  lemma {:induction false} ShapedLeaf(l: seq<int>, r: seq<int>, b: nat, k: nat, i: nat)
    requires Shaped(l, r, b, k)
    requires i < Pow2(k - 1)
    ensures l[NodeAt(b, k, k - 1, i)] == -1 && r[NodeAt(b, k, k - 1, i)] == -1
    decreases k
  {
    if k > 1 {
      var half := Pow2(k - 2);
      if i < half {
        ShapedLeaf(l, r, b, k - 1, i);
      } else {
        ShapedLeaf(l, r, b + Size(k - 1), k - 1, i - half);
      }
    }
  }

  /**
   * The links of a shaped region, stated by position: the node (d, i) above
   * the bottom has children (d+1, 2i) and (d+1, 2i+1).
   */
  lemma {:induction false} ShapedInner(l: seq<int>, r: seq<int>, b: nat, k: nat, d: nat, i: nat)
    requires Shaped(l, r, b, k)
    requires d + 1 < k && i < Pow2(d)
    ensures 2 * i + 1 < Pow2(d + 1)
    ensures l[NodeAt(b, k, d, i)] == NodeAt(b, k, d + 1, 2 * i)
    ensures r[NodeAt(b, k, d, i)] == NodeAt(b, k, d + 1, 2 * i + 1)
    decreases k
  {
    if d == 0 {
      assert NodeAt(b, k, 1, 0) == NodeAt(b, k - 1, 0, 0);
      assert NodeAt(b, k, 1, 1) == NodeAt(b + Size(k - 1), k - 1, 0, 0);
    } else {
      var half := Pow2(d - 1);
      if i < half {
        ShapedInner(l, r, b, k - 1, d - 1, i);
      } else {
        ShapedInner(l, r, b + Size(k - 1), k - 1, d - 1, i - half);
        assert 2 * (i - half) == 2 * i - Pow2(d);
      }
    }
  }

  /** The parent of node (d, i) below the root is node (d-1, i/2). */
  lemma ShapedParent(l: seq<int>, r: seq<int>, p: seq<int>, b: nat, k: nat, d: nat, i: nat)
    requires Shaped(l, r, b, k) && Linked(l, r, p)
    requires 0 < d < k && i < Pow2(d)
    ensures i / 2 < Pow2(d - 1)
    ensures p[NodeAt(b, k, d, i)] == NodeAt(b, k, d - 1, i / 2)
  {
    var c := NodeAt(b, k, d - 1, i / 2);
    ShapedInner(l, r, b, k, d - 1, i / 2);
    assert LinkedAt(l, r, p, c);
    if i % 2 == 0 {
      assert i == 2 * (i / 2);
    } else {
      assert i == 2 * (i / 2) + 1;
    }
  }

  /** Bottom index m is the leftmost leaf below node (d, i) of a k-layer tree. */
  ghost predicate LeftmostBelow(k: nat, d: nat, i: nat, m: nat)
    decreases k - d
  {
    d < k && if d == k - 1 then m == i else LeftmostBelow(k, d + 1, 2 * i, m)
  }

  /** Bottom index m is the rightmost leaf below node (d, i) of a k-layer tree. */
  ghost predicate RightmostBelow(k: nat, d: nat, i: nat, m: nat)
    decreases k - d
  {
    d < k && if d == k - 1 then m == i else RightmostBelow(k, d + 1, 2 * i + 1, m)
  }

  /** The leftmost leaf below node (d, i) is leaf i * 2^(k-1-d). */
  lemma {:induction false} LeftmostIndex(k: nat, d: nat, i: nat, m: nat)
    requires LeftmostBelow(k, d, i, m)
    ensures m == i * Pow2(k - 1 - d)
    decreases k - d
  {
    if d < k - 1 {
      LeftmostIndex(k, d + 1, 2 * i, m);
      assert Pow2(k - 1 - d) == 2 * Pow2(k - 1 - (d + 1));
      MulTwice(i, Pow2(k - 1 - (d + 1)));
    }
  }

  /** A node has one leftmost leaf. */
  lemma {:induction false} LeftmostUnique(k: nat, d: nat, i: nat, m: nat, m': nat)
    requires LeftmostBelow(k, d, i, m) && LeftmostBelow(k, d, i, m')
    ensures m == m'
    decreases k - d
  {
    if d < k - 1 {
      LeftmostUnique(k, d + 1, 2 * i, m, m');
    }
  }

  /** The leaf right after the rightmost leaf below (d, i) is the leftmost below (d, i + 1). */
  lemma {:induction false} NextAfterRightmost(k: nat, d: nat, i: nat, m: nat)
    requires RightmostBelow(k, d, i, m)
    ensures LeftmostBelow(k, d, i + 1, m + 1)
    decreases k - d
  {
    if d < k - 1 {
      NextAfterRightmost(k, d + 1, 2 * i + 1, m);
    }
  }

  /** The rightmost leaf below the rightmost node of depth d is the last leaf. */
  lemma {:induction false} RightmostOfAll(k: nat, d: nat, m: nat)
    requires RightmostBelow(k, d, Pow2(d) - 1, m)
    ensures m + 1 == Pow2(k - 1)
    decreases k - d
  {
    if d < k - 1 {
      assert 2 * (Pow2(d) - 1) + 1 == Pow2(d + 1) - 1;
      RightmostOfAll(k, d + 1, m);
    }
  }

  /** The leftmost leaf below a node lies within the tree. */
  lemma {:induction false} LeftmostBound(k: nat, d: nat, i: nat, m: nat)
    requires i < Pow2(d) && LeftmostBelow(k, d, i, m)
    ensures m < Pow2(k - 1)
    decreases k - d
  {
    if d < k - 1 {
      LeftmostBound(k, d + 1, 2 * i, m);
    }
  }

  /**
   * Following left links from node (d, i) until a leaf ends at the leftmost
   * leaf below it.
   */
  lemma {:induction false} LeftSpineLeaf(l: seq<int>, r: seq<int>, b: nat, k: nat, d: nat, i: nat, y: int)
    returns (m: nat)
    requires Shaped(l, r, b, k)
    requires d < k && i < Pow2(d)
    requires 0 <= y < |l| && LeftSpine(l, NodeAt(b, k, d, i), y) && l[y] == -1
    ensures m < Pow2(k - 1) && LeftmostBelow(k, d, i, m) && y == NodeAt(b, k, k - 1, m)
    decreases k - d
  {
    if d == k - 1 {
      ShapedLeaf(l, r, b, k, i);
      m := i;
    } else {
      ShapedInner(l, r, b, k, d, i);
      m := LeftSpineLeaf(l, r, b, k, d + 1, 2 * i, y);
    }
  }

  /**
   * State of the next-leaf search from bottom leaf j of a shaped k-layer
   * tree whose root has no parent: last is node (d, q), whose rightmost leaf
   * is j, and curr is its parent, or -1 when last is the root.
   */
  ghost predicate Ascent(l: seq<int>, r: seq<int>, p: seq<int>, k: nat, j: nat,
                         d: nat, q: nat, last: int, curr: int)
  {
    Shaped(l, r, 0, k) && Linked(l, r, p) && |l| == Size(k) && 0 < |p| && p[|p| - 1] == -1 &&
    d < k && q < Pow2(d) && RightmostBelow(k, d, q, j) && last == NodeAt(0, k, d, q) &&
    curr == (if d == 0 then -1 else NodeAt(0, k, d - 1, q / 2))
  }

  /** The search starts at leaf j and its parent. */
  lemma AscentStart(l: seq<int>, r: seq<int>, p: seq<int>, k: nat, j: nat)
    requires Shaped(l, r, 0, k) && Linked(l, r, p) && |l| == Size(k) && p[Size(k) - 1] == -1
    requires j < Pow2(k - 1)
    ensures Ascent(l, r, p, k, j, k - 1, j, NodeAt(0, k, k - 1, j), p[NodeAt(0, k, k - 1, j)])
  {
    if k > 1 {
      ShapedParent(l, r, p, 0, k, k - 1, j);
    }
  }

  /**
   * One ascent step. When last, node (d, q), is the right child of curr, the
   * rightmost leaf below it is also the rightmost below curr, and the search
   * moves up to curr and its parent.
   */
  lemma AscendStep(l: seq<int>, r: seq<int>, p: seq<int>, k: nat, j: nat,
                   d: nat, q: nat, last: int, curr: int)
    requires Ascent(l, r, p, k, j, d, q, last, curr) && curr != -1 && last == r[curr]
    ensures d > 0 && 0 <= curr < |p| && Ascent(l, r, p, k, j, d - 1, q / 2, curr, p[curr])
  {
    ShapedInner(l, r, 0, k, d - 1, q / 2);
    if q != 2 * (q / 2) + 1 {
      NodeAtMono(0, k, d, q, 2 * (q / 2) + 1);
    }
    if d - 1 > 0 {
      ShapedParent(l, r, p, 0, k, d - 1, q / 2);
    }
  }

  /** Past the root, j was the last leaf. */
  lemma AscentTop(l: seq<int>, r: seq<int>, p: seq<int>, k: nat, j: nat,
                  d: nat, q: nat, last: int)
    requires Ascent(l, r, p, k, j, d, q, last, -1)
    ensures j + 1 == Cap(k)
  {
    RightmostOfAll(k, 0, j);
  }

  /** When the search stops below the root, curr is an internal node. */
  lemma AscentTurn(l: seq<int>, r: seq<int>, p: seq<int>, k: nat, j: nat,
                   d: nat, q: nat, last: int, curr: int)
    requires Ascent(l, r, p, k, j, d, q, last, curr) && curr != -1
    ensures 0 <= curr < |l| && l[curr] != -1
  {
    ShapedInner(l, r, 0, k, d - 1, q / 2);
  }

  /**
   * The end of the search: when last, node (d, q), is the left child of
   * curr, the leftmost leaf below curr's right child is the leaf after j.
   */
  lemma NextLeafBelow(l: seq<int>, r: seq<int>, p: seq<int>, k: nat, j: nat,
                      d: nat, q: nat, last: int, curr: int, y: int)
    requires Ascent(l, r, p, k, j, d, q, last, curr) && curr != -1 && last != r[curr]
    requires 0 <= y < |l| && LeftSpine(l, r[curr], y) && l[y] == -1
    ensures j + 1 < Cap(k) && y == NodeAt(0, k, k - 1, j + 1)
  {
    ShapedInner(l, r, 0, k, d - 1, q / 2);
    var m := LeftSpineLeaf(l, r, 0, k, d, q + 1, y);
    NextAfterRightmost(k, d, q, j);
    LeftmostUnique(k, d, q + 1, m, j + 1);
  }

  /**
   * The parent of bottom node j: none in a one-layer tree, otherwise the
   * internal node (k-2, j/2), which is not its own right child.
   */
  lemma ParentOfLeaf(l: seq<int>, r: seq<int>, p: seq<int>, k: nat, j: nat)
    requires Shaped(l, r, 0, k) && Linked(l, r, p) && |l| == Size(k) && p[Size(k) - 1] == -1
    requires j < Pow2(k - 1)
    ensures k == 1 <==> p[NodeAt(0, k, k - 1, j)] == -1
    ensures k >= 2 ==> j / 2 < Pow2(k - 2) && p[NodeAt(0, k, k - 1, j)] == NodeAt(0, k, k - 2, j / 2)
    ensures k >= 2 ==> l[NodeAt(0, k, k - 2, j / 2)] != -1
    ensures k >= 2 ==> NodeAt(0, k, k - 2, j / 2) != r[NodeAt(0, k, k - 2, j / 2)]
  {
    if k >= 2 {
      var c := NodeAt(0, k, k - 2, j / 2);
      ShapedParent(l, r, p, 0, k, k - 1, j);
      ShapedInner(l, r, 0, k, k - 2, j / 2);
      assert LinkedAt(l, r, p, c);
    }
  }

  /**
   * The leftmost leaf below the right child of node (k-2, j/2), the parent
   * of bottom node j, is j itself when j is a right child, and j + 1 when j
   * is a left child.
   */
  lemma SiblingLeaf(l: seq<int>, r: seq<int>, k: nat, j: nat, y: int)
    requires Shaped(l, r, 0, k) && k >= 2 && j / 2 < Pow2(k - 2)
    requires 0 <= y < |l| && LeftSpine(l, r[NodeAt(0, k, k - 2, j / 2)], y)
    ensures j % 2 == 1 ==> y == NodeAt(0, k, k - 1, j)
    ensures j % 2 == 0 ==> j + 1 < Cap(k) && y == NodeAt(0, k, k - 1, j + 1)
  {
    var s := 2 * (j / 2) + 1;
    ShapedInner(l, r, 0, k, k - 2, j / 2);
    ShapedLeaf(l, r, 0, k, s);
    assert y == NodeAt(0, k, k - 1, s);
  }

  lemma MulTwice(i: int, m: int)
    ensures (2 * i) * m == i * (2 * m)
  {
  }

  /** A shaped region stays shaped when its child links are kept. */
  lemma {:induction false} ShapedFrame(l: seq<int>, r: seq<int>, l': seq<int>, r': seq<int>, b: nat, k: nat)
    requires Shaped(l, r, b, k)
    requires b + Size(k) <= |l'| && b + Size(k) <= |r'|
    requires forall n :: b <= n < b + Size(k) ==> l'[n] == l[n] && r'[n] == r[n]
    ensures Shaped(l', r', b, k)
    decreases k
  {
    if k > 1 {
      ShapedFrame(l, r, l', r', b, k - 1);
      ShapedFrame(l, r, l', r', b + Size(k - 1), k - 1);
    }
  }

  /**
   * Leaf positions are stable under growth: when a tree of height k becomes
   * the left half of a tree of height k+1, its leaf j is leaf j of the new
   * tree, and leaf j of the fresh right half is leaf 2^(k-1) + j.
   */
  lemma GrowLeaves(k: nat, j: nat)
    requires k >= 1 && j < Pow2(k - 1)
    ensures Pow2(k) == 2 * Pow2(k - 1)
    ensures NodeAt(0, k + 1, k, j) == NodeAt(0, k, k - 1, j)
    ensures NodeAt(0, k + 1, k, Pow2(k - 1) + j) == NodeAt(Size(k), k, k - 1, j)
  {
  }

  /** Every id of a shaped region is the id of some position in it. */
  lemma {:induction false} NodeAtOnto(b: nat, k: nat, n: nat) returns (d: nat, i: nat)
    requires k >= 1 && b <= n < b + Size(k)
    ensures d < k && i < Pow2(d) && n == NodeAt(b, k, d, i)
    decreases k
  {
    if n == b + Size(k) - 1 {
      d, i := 0, 0;
    } else if n < b + Size(k - 1) {
      var d', i' := NodeAtOnto(b, k - 1, n);
      d, i := d' + 1, i';
    } else {
      var d', i' := NodeAtOnto(b + Size(k - 1), k - 1, n);
      d, i := d' + 1, Pow2(d') + i';
    }
  }

  /** Above is closed under one more parent step from any node it reaches. */
  lemma {:induction false} AboveStep(p: seq<int>, x: int, c: int)
    requires 0 <= c < |p| && Above(p, x, c) && c < p[c] < |p|
    ensures Above(p, x, p[c])
    decreases |p| - x
  {
    if x != c {
      AboveStep(p, p[x], c);
    }
  }

  /** LeftSpine is extended by one more left step from any node it reaches. */
  lemma {:induction false} LeftSpineStep(l: seq<int>, x: int, c: int)
    requires LeftSpine(l, x, c) && 0 <= c < |l| && 0 <= l[c] < c
    ensures LeftSpine(l, x, l[c])
    decreases if x < 0 then 0 else x
  {
    if x != c {
      LeftSpineStep(l, l[x], c);
    }
  }

  /** The depth of node (d, i), counted by parent links, is d. */
  lemma {:induction false} DepthAt(l: seq<int>, r: seq<int>, p: seq<int>, k: nat, d: nat, i: nat)
    requires Shaped(l, r, 0, k) && Linked(l, r, p) && |p| == Size(k) && p[Size(k) - 1] == -1
    requires d < k && i < Pow2(d)
    ensures Depth(p, NodeAt(0, k, d, i)) == d
    decreases d
  {
    if d > 0 {
      ShapedParent(l, r, p, 0, k, d, i);
      assert LinkedAt(l, r, p, NodeAt(0, k, d, i));
      DepthAt(l, r, p, k, d - 1, i / 2);
    }
  }

  /**
   * Linking two parentless nodes a (left) and c (right) under a newly
   * appended parent keeps the link discipline, in either order of the two
   * parent-link assignments.
   */
  lemma AdoptLinked(l: seq<int>, r: seq<int>, p: seq<int>, a: int, c: int, t: int)
    requires Linked(l, r, p) && t == |l|
    requires 0 <= a < |l| && 0 <= c < |l| && a != c && p[a] == -1 && p[c] == -1
    ensures Linked(l + [a], r + [c], (p + [-1])[a := t][c := t])
    ensures Linked(l + [a], r + [c], (p + [-1])[c := t][a := t])
  {
    var l', r' := l + [a], r + [c];
    var p1 := (p + [-1])[a := t][c := t];
    assert p1 == (p + [-1])[c := t][a := t];
    forall n | 0 <= n < |l'|
      ensures LinkedAt(l', r', p1, n)
    {
      if n < |l| && l[n] != -1 {
        assert LinkedAt(l, r, p, n);
        assert LinkedAt(l, r, p, l[n]) && LinkedAt(l, r, p, r[n]);
      }
      if n < |l| {
        assert LinkedAt(l, r, p, n);
        if p[n] != -1 {
          assert LinkedAt(l, r, p, p[n]);
        }
      }
    }
  }

  /** Appending a childless, parentless node keeps the link discipline. */
  lemma AppendLeafLinked(l: seq<int>, r: seq<int>, p: seq<int>)
    requires Linked(l, r, p)
    ensures Linked(l + [-1], r + [-1], p + [-1])
  {
    var l', r', p' := l + [-1], r + [-1], p + [-1];
    forall n | 0 <= n < |l'|
      ensures LinkedAt(l', r', p', n)
    {
      if n < |l| {
        assert LinkedAt(l, r, p, n);
      }
    }
  }

  /**
   * Two complete trees of height k-1 laid out one after the other from b,
   * under a node right after them whose children they are, form the
   * complete tree of height k from b.
   */
  lemma JoinShaped(l: seq<int>, r: seq<int>, b: nat, k: nat)
    requires k >= 2 && Shaped(l, r, b, k - 1) && Shaped(l, r, b + Size(k - 1), k - 1)
    requires JoinedAt(l, r, b, Size(k - 1))
    ensures Shaped(l, r, b, k)
  {
    assert Size(k) == 2 * Size(k - 1) + 1;
  }

  /** Node b + 2h has as children the nodes b + h - 1 and b + 2h - 1. */
  ghost predicate JoinedAt(l: seq<int>, r: seq<int>, b: nat, h: nat)
  {
    var t := b + 2 * h;
    h >= 1 && t < |l| && t < |r| && l[t] == b + h - 1 && r[t] == t - 1
  }

  /** A shaped region is shaped in every extension of its arena. */
  lemma ShapedGrown(l: seq<int>, r: seq<int>, b: nat, k: nat)
    requires Shaped(l, r, b, k)
    ensures Grown(l, r, b, k)
  {
    forall l', r' | l <= l' && r <= r'
      ensures Shaped(l', r', b, k)
    {
      ShapedFrame(l, r, l', r', b, k);
    }
  }

  /** A fresh leaf appended at b is a grown one-layer region. */
  lemma GrownLeaf(l0: seq<int>, r0: seq<int>, l: seq<int>, r: seq<int>)
    requires |l0| == |r0| && l == l0 + [-1] && r == r0 + [-1]
    ensures Grown(l, r, |l0|, 1)
  {
    forall l', r' | l <= l' && r <= r'
      ensures Shaped(l', r', |l0|, 1)
    {
      assert l'[|l0|] == l[|l0|] && r'[|l0|] == r[|l0|];
    }
  }

  /**
   * Joining two grown halves under the node right after them gives a grown
   * region, in every arena that extends both halves' arenas.
   */
  lemma GrownJoin(l1: seq<int>, r1: seq<int>, l2: seq<int>, r2: seq<int>, l: seq<int>, r: seq<int>,
                  b: nat, k: nat)
    requires k >= 2 && Grown(l1, r1, b, k - 1) && Grown(l2, r2, b + Size(k - 1), k - 1)
    requires l1 <= l && r1 <= r && l2 <= l && r2 <= r && JoinedAt(l, r, b, Size(k - 1))
    ensures Grown(l, r, b, k)
  {
    forall l', r' | l <= l' && r <= r'
      ensures Shaped(l', r', b, k)
    {
      assert Shaped(l', r', b, k - 1);
      assert Shaped(l', r', b + Size(k - 1), k - 1);
      JoinShaped(l', r', b, k);
    }
  }

  /** Extending a prefix chain by one more element keeps both prefixes. */
  lemma PrefixAppend<X>(s0: seq<X>, s1: seq<X>, s2: seq<X>, x: X)
    requires s0 <= s1 && s1 <= s2
    ensures s0 <= s2 + [x] && s1 <= s2 + [x]
  {
    assert s2 <= s2 + [x];
  }

  /** Appending a node and pointing two later nodes at it keeps the prefix before them. */
  lemma PrefixAdopt(p0: seq<int>, p1: seq<int>, p2: seq<int>, a: int, c: int, t: int)
    requires p0 <= p1 && p1 <= p2 && |p0| <= a < |p2| && |p0| <= c < |p2|
    ensures p0 <= (p2 + [-1])[a := t][c := t]
  {
    var p := (p2 + [-1])[a := t][c := t];
    assert forall n :: 0 <= n < |p0| ==> p[n] == p2[n];
  }
}
