// The append-only binary Merkle tree of merkle-tree.h, as a class over a node
// arena. A node of the source (MerkleNode: left, right, prev, hash, data) is
// an index into the parallel sequences left, right, prev, hash and data; -1
// plays nullptr. The arena only grows, as the source never frees a
// node.
module MerkleTrees {
  import opened MerkleShape

  datatype Option<T> = None | Some(value: T)

  /** Id of leaf j (left to right) of the tree with k layers. */
  function Leaf(k: nat, j: nat): nat
    requires k >= 1 && j < Pow2(k - 1)
  {
    NodeAt(0, k, k - 1, j)
  }

  /**
   * Root hash of a complete tree whose leaf hashes, left to right, are s,
   * computed bottom-up from scratch: each internal node hashes the
   * concatenation of its children's hashes.
   */
  function MerkleRootOf(H: string -> string, s: seq<string>, k: nat): string
    requires k >= 1 && |s| == Pow2(k - 1)
    decreases k
  {
    if k == 1 then s[0]
    else H(MerkleRootOf(H, s[..Pow2(k - 2)], k - 1) + MerkleRootOf(H, s[Pow2(k - 2)..], k - 1))
  }

  /** The hashes of the leaves of the shaped region at b of height k, left to right. */
  ghost function LeafHashes(hs: seq<string>, b: nat, k: nat): (s: seq<string>)
    requires k >= 1 && b + Size(k) <= |hs|
    ensures |s| == Pow2(k - 1)
  {
    seq(Pow2(k - 1), (j: int) requires 0 <= j < Pow2(k - 1) => hs[NodeAt(b, k, k - 1, j)])
  }

  /** Node n, if internal, hashes the concatenation of its children's hashes. */
  ghost predicate HashedAt(H: string -> string, l: seq<int>, r: seq<int>, hs: seq<string>, n: int)
    requires 0 <= n < |l| && n < |r| && n < |hs|
  {
    l[n] != -1 ==> 0 <= l[n] < |hs| && 0 <= r[n] < |hs| && hs[n] == H(hs[l[n]] + hs[r[n]])
  }

  /** The leaf hashes of a region split into those of its two halves. */
  lemma LeafHashesSplit(hs: seq<string>, b: nat, k: nat)
    requires k >= 2 && b + Size(k) <= |hs|
    ensures Size(k) == 2 * Size(k - 1) + 1
    ensures LeafHashes(hs, b, k)[..Pow2(k - 2)] == LeafHashes(hs, b, k - 1)
    ensures LeafHashes(hs, b, k)[Pow2(k - 2)..] == LeafHashes(hs, b + Size(k - 1), k - 1)
  {
    var s, half := LeafHashes(hs, b, k), Pow2(k - 2);
    assert Size(k) == 2 * Size(k - 1) + 1;
    forall j | 0 <= j < half
      ensures s[j] == LeafHashes(hs, b, k - 1)[j]
    {
      assert NodeAt(b, k, k - 1, j) == NodeAt(b, k - 1, k - 2, j);
    }
    forall j | half <= j < 2 * half
      ensures s[j] == LeafHashes(hs, b + Size(k - 1), k - 1)[j - half]
    {
      assert NodeAt(b, k, k - 1, j) == NodeAt(b + Size(k - 1), k - 1, k - 2, j - half);
    }
  }

  /**
   * Reconstruction equivalence for one region: if every internal node of a
   * shaped region hashes its children, the root's hash is the Merkle root of
   * the region's leaf hashes.
   */
  lemma {:induction false} SubtreeHash(H: string -> string, l: seq<int>, r: seq<int>,
                                       hs: seq<string>, b: nat, k: nat)
    requires Shaped(l, r, b, k) && b + Size(k) <= |hs|
    requires forall n :: b <= n < b + Size(k) ==> HashedAt(H, l, r, hs, n)
    ensures hs[b + Size(k) - 1] == MerkleRootOf(H, LeafHashes(hs, b, k), k)
    decreases k
  {
    if k == 1 {
      assert LeafHashes(hs, b, k)[0] == hs[NodeAt(b, 1, 0, 0)];
    } else {
      LeafHashesSplit(hs, b, k);
      var h := Size(k - 1);
      assert HashedAt(H, l, r, hs, b + 2 * h);
      assert Shaped(l, r, b, k - 1) && Shaped(l, r, b + h, k - 1);
      SubtreeHash(H, l, r, hs, b, k - 1);
      SubtreeHash(H, l, r, hs, b + h, k - 1);
    }
  }

  /**
   * Arena links (l, r, p) hold a complete tree of k layers laid out from id 0,
   * its root the last id and without parent; no layers means no nodes.
   */
  ghost predicate Tree(l: seq<int>, r: seq<int>, p: seq<int>, k: nat)
  {
    |r| == |l| && |p| == |l| && Linked(l, r, p) &&
    (k == 0 ==> |l| == 0) &&
    (k >= 1 ==> |l| == Size(k) && p[|l| - 1] == -1 && Shaped(l, r, 0, k))
  }

  /**
   * The leaves of the tree of k layers with payloads ds hold the elements es
   * left to right, and placeholders after them.
   */
  ghost predicate StoredIn<X>(es: seq<X>, k: nat, ds: seq<Option<X>>)
  {
    |es| <= Cap(k) && |ds| == Size(k) &&
    forall j :: 0 <= j < Cap(k) ==> ds[Leaf(k, j)] == if j < |es| then Some(es[j]) else None
  }

  /**
   * Growth keeps the elements in place: leaf j of the taller tree (height k)
   * is old leaf j below the old capacity, and a fresh placeholder beyond it.
   */
  lemma GrowStored<X>(es: seq<X>, ds0: seq<Option<X>>, ds: seq<Option<X>>, L: nat, k: nat)
    requires L >= 1 && k == L + 1 && StoredIn(es, L, ds0)
    requires |ds| == Size(k) && ds0 <= ds
    requires forall n :: Size(L) <= n < |ds| ==> ds[n] == None
    ensures StoredIn(es, k, ds)
  {
    forall j | 0 <= j < Cap(k)
      ensures ds[Leaf(k, j)] == if j < |es| then Some(es[j]) else None
    {
      if j < Cap(L) {
        GrowLeaves(L, j);
        assert Leaf(k, j) == Leaf(L, j) < |ds0|;
        assert ds[Leaf(k, j)] == ds0[Leaf(L, j)];
      } else {
        GrowLeaves(L, j - Cap(L));
        assert Leaf(k, j) == NodeAt(Size(L), L, L - 1, j - Cap(L)) >= Size(L);
      }
    }
  }

  /** Filling the first free leaf with x stores es + [x]. */
  lemma StoredAppend<X>(es: seq<X>, k: nat, ds: seq<Option<X>>, x: X)
    requires k >= 1 && StoredIn(es, k, ds) && |es| < Cap(k)
    ensures StoredIn(es + [x], k, ds[Leaf(k, |es|) := Some(x)])
  {
    var n, ds' := |es|, ds[Leaf(k, |es|) := Some(x)];
    forall j | 0 <= j < Cap(k)
      ensures ds'[Leaf(k, j)] == if j < |es + [x]| then Some((es + [x])[j]) else None
    {
      if j < n {
        NodeAtMono(0, k, k - 1, j, n);
      } else if j > n {
        NodeAtMono(0, k, k - 1, n, j);
      }
    }
  }

  /**
   * MerkleTree<T> of merkle-tree.h. The digest function sha256 (sha256.h),
   * the formatter toString and the random source rand() are outside the
   * model: they are the function values H, ToString and Noise, fixed when the
   * tree is constructed. A placeholder leaf with id n has hash H(Noise(n)),
   * standing for sha256(toString(rand())) at the moment that leaf was made.
   */
  class MerkleTree<T> {
    const H: string -> string
    const ToString: T -> string
    const Noise: int -> string

    // the node arena: field f of node n is f[n]
    var left: seq<int>
    var right: seq<int>
    var prev: seq<int>
    var hash: seq<string>
    var data: seq<Option<T>>

    var root: int     // _root
    var size: nat     // _size
    var layers: nat   // _layers
    var end: int      // _end, the insertion cursor

    /** The inserted elements, in insertion order. */
    ghost var elems: seq<T>

    /** Hash a leaf must carry: of its element, or of its placeholder noise. */
    ghost function LeafHash(d: Option<T>, n: int): string
    {
      match d
      case None => H(Noise(n))
      case Some(x) => H(ToString(x))
    }

    /**
     * Node n is consistent: a leaf's hash is that of its element (or its
     * placeholder), an internal node holds no element and hashes the
     * concatenation of its children's hashes.
     */
    ghost predicate NodeOKIn(l: seq<int>, r: seq<int>, hs: seq<string>, ds: seq<Option<T>>, n: int)
    {
      0 <= n < |l| && n < |r| && n < |hs| && n < |ds| &&
      if l[n] == -1 then hs[n] == LeafHash(ds[n], n)
      else
        0 <= l[n] < |hs| && 0 <= r[n] < |hs| && ds[n] == None &&
        hs[n] == H(hs[l[n]] + hs[r[n]])
    }

    /**
     * Appending a consistent node to an arena of consistent nodes: a
     * placeholder leaf with its noise hash, or an internal node over two
     * existing nodes with the hash of their concatenated hashes.
     */
    lemma AppendOK(l: seq<int>, r: seq<int>, hs: seq<string>, ds: seq<Option<T>>, x: int, y: int, h: string)
      requires |r| == |l| && |hs| == |l| && |ds| == |l|
      requires forall n :: 0 <= n < |l| ==> NodeOKIn(l, r, hs, ds, n)
      requires x == -1 ==> h == H(Noise(|l|))
      requires x != -1 ==> 0 <= x < |l| && 0 <= y < |l| && h == H(hs[x] + hs[y])
      ensures forall n :: 0 <= n < |l| + 1 ==> NodeOKIn(l + [x], r + [y], hs + [h], ds + [None], n)
    {
      var l', r', hs', ds' := l + [x], r + [y], hs + [h], ds + [None];
      forall n | 0 <= n < |l'|
        ensures NodeOKIn(l', r', hs', ds', n)
      {
        if n < |l| {
          assert NodeOKIn(l, r, hs, ds, n);
        }
      }
    }

    /**
     * The state of updateHashesUpward before it visits curr (-1 once past
     * the root): every node is consistent except curr and its parent; curr,
     * if a leaf, is consistent too, and neither of the two holds an element
     * unless it is a leaf.
     */
    ghost predicate Pending(l: seq<int>, r: seq<int>, p: seq<int>, hs: seq<string>, ds: seq<Option<T>>,
                            curr: int)
    {
      |r| == |l| && |p| == |l| && |hs| == |l| && |ds| == |l| && -1 <= curr < |l| &&
      (curr != -1 ==>
        (l[curr] == -1 ==> NodeOKIn(l, r, hs, ds, curr)) &&
        (l[curr] != -1 ==> ds[curr] == None) &&
        (0 <= p[curr] < |l| ==> ds[p[curr]] == None)) &&
      forall n :: 0 <= n < |l| && n != curr && (curr == -1 || n != p[curr]) ==> NodeOKIn(l, r, hs, ds, n)
    }

    /** hs differs from h0 only at internal nodes on the path up from start. */
    ghost predicate OnPath(l: seq<int>, p: seq<int>, h0: seq<string>, hs: seq<string>, start: int)
    {
      |h0| == |hs| == |l| &&
      forall n :: 0 <= n < |hs| && hs[n] != h0[n] ==> l[n] != -1 && Above(p, start, n)
    }

    /**
     * One step of updateHashesUpward on arena values: recomputing the hash of
     * curr (when internal), whose children are consistent, leaves only curr's
     * parent and grandparent pending, and changes only a node on the path.
     */
    lemma RehashStep(l: seq<int>, r: seq<int>, p: seq<int>, h0: seq<string>, hs: seq<string>,
                     ds: seq<Option<T>>, start: int, curr: int, hs': seq<string>)
      requires Linked(l, r, p) && Pending(l, r, p, hs, ds, curr) && curr != -1
      requires Above(p, start, curr) && OnPath(l, p, h0, hs, start) && LinkedAt(l, r, p, curr)
      requires hs' == if l[curr] == -1 then hs else hs[curr := H(hs[l[curr]] + hs[r[curr]])]
      ensures p[curr] == -1 || curr < p[curr] < |l|
      ensures p[curr] != -1 ==> Above(p, start, p[curr])
      ensures Pending(l, r, p, hs', ds, p[curr]) && OnPath(l, p, h0, hs', start)
    {
      var parent := p[curr];
      if parent != -1 {
        assert LinkedAt(l, r, p, parent);
        AboveStep(p, start, curr);
        if p[parent] != -1 {
          assert LinkedAt(l, r, p, p[parent]);
          assert NodeOKIn(l, r, hs, ds, p[parent]);
        }
      }
      forall n | 0 <= n < |l| && n != parent
        ensures NodeOKIn(l, r, hs', ds, n)
      {
        if n != curr {
          assert LinkedAt(l, r, p, n);
          assert NodeOKIn(l, r, hs, ds, n);
        }
      }
    }

    /**
     * The tree invariant between two inserts, on values: the arena holds a
     * complete tree of k layers with consistent hashes whose root rt is the
     * last node, its leaves hold the n elements es left to right, the tree is
     * no taller than its contents need, and the cursor e is on the next leaf
     * to fill, or on the root once every leaf is full.
     */
    ghost predicate ValidIn(l: seq<int>, r: seq<int>, p: seq<int>, hs: seq<string>, ds: seq<Option<T>>,
                            es: seq<T>, k: nat, n: nat, rt: int, e: int)
    {
      Tree(l, r, p, k) && rt == |l| - 1 && AllOK(l, r, hs, ds) &&
      |es| == n && StoredIn(es, k, ds) &&
      (k == 0 ==> e == -1) &&
      (k >= 1 ==>
        Cap(k) < 2 * n &&
        (n < Cap(k) ==> e == Leaf(k, n)) &&
        (n == Cap(k) ==> e == rt))
    }

    /** The tree invariant, on the fields. */
    ghost predicate Valid()
      reads this
    {
      ValidIn(left, right, prev, hash, data, elems, layers, size, root, end)
    }

    /**
     * The leaf hashes a tree of k layers holding es must show, left to right:
     * that of each element, then the noise hash of each placeholder leaf.
     */
    ghost function PaddedHashes(es: seq<T>, k: nat): (s: seq<string>)
      requires k >= 1 && |es| <= Cap(k)
      ensures |s| == Cap(k)
    {
      seq(Cap(k), (j: int) requires 0 <= j < Cap(k) =>
        if j < |es| then H(ToString(es[j])) else H(Noise(Leaf(k, j))))
    }

    /** In a valid tree leaf j carries the hash of the j-th element, or its placeholder hash. */
    lemma LeafHashesStored(l: seq<int>, r: seq<int>, p: seq<int>, hs: seq<string>, ds: seq<Option<T>>,
                           es: seq<T>, k: nat, n: nat, rt: int, e: int)
      requires ValidIn(l, r, p, hs, ds, es, k, n, rt, e) && k >= 1
      ensures LeafHashes(hs, 0, k) == PaddedHashes(es, k)
    {
      forall j | 0 <= j < Cap(k)
        ensures LeafHashes(hs, 0, k)[j] == PaddedHashes(es, k)[j]
      {
        ShapedLeaf(l, r, 0, k, j);
        assert NodeOKIn(l, r, hs, ds, Leaf(k, j));
      }
    }

    /**
     * The root hash of a valid tree is the Merkle root, computed from
     * scratch, of the element hashes padded with the placeholder hashes.
     */
    lemma RootDigest(l: seq<int>, r: seq<int>, p: seq<int>, hs: seq<string>, ds: seq<Option<T>>,
                     es: seq<T>, k: nat, n: nat, rt: int, e: int)
      requires ValidIn(l, r, p, hs, ds, es, k, n, rt, e) && k >= 1
      ensures 0 <= rt < |hs| && hs[rt] == MerkleRootOf(H, PaddedHashes(es, k), k)
    {
      forall m | 0 <= m < Size(k)
        ensures HashedAt(H, l, r, hs, m)
      {
        assert NodeOKIn(l, r, hs, ds, m);
      }
      SubtreeHash(H, l, r, hs, 0, k);
      LeafHashesStored(l, r, p, hs, ds, es, k, n, rt, e);
    }

    /**
     * Doubling law: a valid tree holding 2^j elements has j + 1 layers and
     * is full, so the next insert grows it.
     */
    lemma DoublingLaw(l: seq<int>, r: seq<int>, p: seq<int>, hs: seq<string>, ds: seq<Option<T>>,
                      es: seq<T>, k: nat, n: nat, rt: int, e: int, j: nat)
      requires ValidIn(l, r, p, hs, ds, es, k, n, rt, e) && n == Pow2(j)
      ensures k == j + 1 && n == Cap(k) && e == rt
    {
      Pow2Log(j, k - 1);
    }

    /** MerkleTree(): an empty tree with no root, no layers and no cursor. */
    constructor (H: string -> string, ToString: T -> string, Noise: int -> string)
      ensures Valid()
      ensures this.H == H && this.ToString == ToString && this.Noise == Noise
      ensures root == -1 && size == 0 && layers == 0 && end == -1 && elems == []
    {
      this.H, this.ToString, this.Noise := H, ToString, Noise;
      left, right, prev, hash, data := [], [], [], [], [];
      root, size, layers, end := -1, 0, 0, -1;
      elems := [];
    }

    /** MerkleNode(): a childless, parentless placeholder leaf with a noise hash. */
    method NewLeaf() returns (n: int)
      requires |left| == |right| == |prev| == |hash| == |data|
      modifies this`left, this`right, this`prev, this`hash, this`data
      ensures n == old(|left|)
      ensures left == old(left) + [-1] && right == old(right) + [-1] && prev == old(prev) + [-1]
      ensures hash == old(hash) + [H(Noise(n))] && data == old(data) + [None]
    {
      n := |left|;
      left, right, prev := left + [-1], right + [-1], prev + [-1];
      hash, data := hash + [H(Noise(n))], data + [None];
    }

    /** MerkleNode(hash, left, right): an internal node; its parent link starts null. */
    method NewInternal(h: string, l: int, r: int) returns (n: int)
      requires |left| == |right| == |prev| == |hash| == |data|
      modifies this`left, this`right, this`prev, this`hash, this`data
      ensures n == old(|left|)
      ensures left == old(left) + [l] && right == old(right) + [r] && prev == old(prev) + [-1]
      ensures hash == old(hash) + [h] && data == old(data) + [None]
    {
      n := |left|;
      left, right, prev := left + [l], right + [r], prev + [-1];
      hash, data := hash + [h], data + [None];
    }

    /**
     * (l, r, p, hs, ds) is the arena (l0, r0, p0, hs0, ds0) with a complete
     * placeholder tree of height k appended: nothing before b = |l0| changes,
     * the new region is a grown complete tree whose last node, its root, has
     * no parent, no new node holds an element, and the link discipline and
     * the consistency of every node carry over from the old arena.
     */
    ghost predicate Appended(l0: seq<int>, r0: seq<int>, p0: seq<int>, hs0: seq<string>, ds0: seq<Option<T>>,
                             l: seq<int>, r: seq<int>, p: seq<int>, hs: seq<string>, ds: seq<Option<T>>, k: nat)
    {
      k >= 1 && |r0| == |l0| && |p0| == |l0| && |hs0| == |l0| && |ds0| == |l0| &&
      |l| == |l0| + Size(k) && |r| == |l| && |p| == |l| && |hs| == |l| && |ds| == |l| &&
      l0 <= l && r0 <= r && p0 <= p && hs0 <= hs && ds0 <= ds &&
      Grown(l, r, |l0|, k) && p[|l| - 1] == -1 &&
      (forall n :: |l0| <= n < |l| ==> ds[n] == None) &&
      (Linked(l0, r0, p0) ==> Linked(l, r, p)) &&
      (AllOK(l0, r0, hs0, ds0) ==> AllOK(l, r, hs, ds))
    }

    /** Every node of the arena is consistent. */
    ghost predicate AllOK(l: seq<int>, r: seq<int>, hs: seq<string>, ds: seq<Option<T>>)
    {
      |r| == |l| && |hs| == |l| && |ds| == |l| &&
      forall n :: 0 <= n < |l| ==> NodeOKIn(l, r, hs, ds, n)
    }

    /** A placeholder leaf appended to an arena is a one-layer fresh tree. */
    lemma AppendedLeaf(l0: seq<int>, r0: seq<int>, p0: seq<int>, hs0: seq<string>, ds0: seq<Option<T>>,
                       l: seq<int>, r: seq<int>, p: seq<int>, hs: seq<string>, ds: seq<Option<T>>)
      requires |r0| == |l0| && |p0| == |l0| && |hs0| == |l0| && |ds0| == |l0|
      requires l == l0 + [-1] && r == r0 + [-1] && p == p0 + [-1]
      requires hs == hs0 + [H(Noise(|l0|))] && ds == ds0 + [None]
      ensures Appended(l0, r0, p0, hs0, ds0, l, r, p, hs, ds, 1)
    {
      GrownLeaf(l0, r0, l, r);
      if Linked(l0, r0, p0) {
        AppendLeafLinked(l0, r0, p0);
      }
      if AllOK(l0, r0, hs0, ds0) {
        AppendOK(l0, r0, hs0, ds0, -1, -1, H(Noise(|l0|)));
      }
    }

    /**
     * Two fresh trees of height k-1 appended one after the other, joined
     * under a new parent node whose children point back to it, are a fresh
     * tree of height k.
     */
    lemma AppendedJoin(l0: seq<int>, r0: seq<int>, p0: seq<int>, hs0: seq<string>, ds0: seq<Option<T>>,
                       l1: seq<int>, r1: seq<int>, p1: seq<int>, hs1: seq<string>, ds1: seq<Option<T>>,
                       l2: seq<int>, r2: seq<int>, p2: seq<int>, hs2: seq<string>, ds2: seq<Option<T>>,
                       l: seq<int>, r: seq<int>, p: seq<int>, hs: seq<string>, ds: seq<Option<T>>,
                       k: nat, a: int, c: int, t: int)
      requires k >= 2
      requires Appended(l0, r0, p0, hs0, ds0, l1, r1, p1, hs1, ds1, k - 1)
      requires Appended(l1, r1, p1, hs1, ds1, l2, r2, p2, hs2, ds2, k - 1)
      requires a == |l1| - 1 && c == |l2| - 1 && t == |l2|
      requires l == l2 + [a] && r == r2 + [c] && p == (p2 + [-1])[a := t][c := t]
      requires hs == hs2 + [H(hs2[a] + hs2[c])] && ds == ds2 + [None]
      ensures Appended(l0, r0, p0, hs0, ds0, l, r, p, hs, ds, k)
    {
      var b, h := |l0|, Size(k - 1);
      assert |l1| == b + h && Size(k) == 2 * h + 1 && h >= 1;
      PrefixAppend(l0, l1, l2, a);
      PrefixAppend(r0, r1, r2, c);
      PrefixAppend(hs0, hs1, hs2, H(hs2[a] + hs2[c]));
      PrefixAppend(ds0, ds1, ds2, None);
      PrefixAdopt(p0, p1, p2, a, c, t);
      assert p2[a] == p1[a];
      assert JoinedAt(l, r, b, h);
      GrownJoin(l1, r1, l2, r2, l, r, b, k);
      AppendedLinked(l0, r0, p0, l1, r1, p1, l2, r2, p2, l, r, p, a, c, t);
      AppendedOK(l0, r0, hs0, ds0, l1, r1, hs1, ds1, l2, r2, hs2, ds2, a, c);
      forall n | b <= n < |l|
        ensures ds[n] == None
      {
        if n < |l1| {
          assert ds[n] == ds1[n];
        }
      }
    }

    /** The link discipline carries over the join (see AppendedJoin). */
    lemma AppendedLinked(l0: seq<int>, r0: seq<int>, p0: seq<int>, l1: seq<int>, r1: seq<int>, p1: seq<int>,
                         l2: seq<int>, r2: seq<int>, p2: seq<int>, l: seq<int>, r: seq<int>, p: seq<int>,
                         a: int, c: int, t: int)
      requires Linked(l0, r0, p0) ==> Linked(l1, r1, p1)
      requires Linked(l1, r1, p1) ==> Linked(l2, r2, p2)
      requires |l0| <= a < |l1| <= c < |l2| == t == |p2| && p2[a] == -1 && p2[c] == -1
      requires l == l2 + [a] && r == r2 + [c] && p == (p2 + [-1])[a := t][c := t]
      ensures Linked(l0, r0, p0) ==> Linked(l, r, p)
    {
      if Linked(l0, r0, p0) {
        AdoptLinked(l2, r2, p2, a, c, t);
      }
    }

    /** Node consistency carries over the join (see AppendedJoin). */
    lemma AppendedOK(l0: seq<int>, r0: seq<int>, hs0: seq<string>, ds0: seq<Option<T>>,
                     l1: seq<int>, r1: seq<int>, hs1: seq<string>, ds1: seq<Option<T>>,
                     l2: seq<int>, r2: seq<int>, hs2: seq<string>, ds2: seq<Option<T>>, a: int, c: int)
      requires AllOK(l0, r0, hs0, ds0) ==> AllOK(l1, r1, hs1, ds1)
      requires AllOK(l1, r1, hs1, ds1) ==> AllOK(l2, r2, hs2, ds2)
      requires 0 <= a < |l2| && 0 <= c < |l2|
      ensures AllOK(l0, r0, hs0, ds0) ==> AllOK(l2 + [a], r2 + [c], hs2 + [H(hs2[a] + hs2[c])], ds2 + [None])
    {
      if AllOK(l0, r0, hs0, ds0) {
        AppendOK(l2, r2, hs2, ds2, a, c, H(hs2[a] + hs2[c]));
      }
    }

    /**
     * createEmptyTree(k): appends a complete placeholder tree of height k in
     * post-order (the left subtree, the right subtree, then their parent,
     * whose children are linked back to it) and returns its root.
     */
    method CreateEmptyTree(k: nat) returns (t: int)
      requires k >= 1
      requires |left| == |right| == |prev| == |hash| == |data|
      modifies this`left, this`right, this`prev, this`hash, this`data
      ensures Appended(old(left), old(right), old(prev), old(hash), old(data), left, right, prev, hash, data, k)
      ensures t == |left| - 1
      decreases k
    {
      if k == 1 {
        AppendedLeaf(left, right, prev, hash, data,
                     left + [-1], right + [-1], prev + [-1], hash + [H(Noise(|left|))], data + [None]);
        t := NewLeaf();
        return;
      }
      ghost var l0, r0, p0, hs0, ds0 := left, right, prev, hash, data;
      var leftTree := CreateEmptyTree(k - 1);
      ghost var l1, r1, p1, hs1, ds1 := left, right, prev, hash, data;
      var rightTree := CreateEmptyTree(k - 1);
      ghost var l2, r2, p2, hs2, ds2 := left, right, prev, hash, data;
      t := NewInternal(H(hash[leftTree] + hash[rightTree]), leftTree, rightTree);
      prev := prev[leftTree := t];
      prev := prev[rightTree := t];
      AppendedJoin(l0, r0, p0, hs0, ds0, l1, r1, p1, hs1, ds1, l2, r2, p2, hs2, ds2,
                   left, right, prev, hash, data, k, leftTree, rightTree, t);
    }

    /**
     * (l, r, p, hs, ds) is what growLayer makes of the arena of the tree
     * (l0, r0, p0, hs0, ds0) of L layers: a consistent tree of L + 1 layers
     * in which no existing node's links, hash or payload change and every
     * new node is a placeholder. On a non-empty tree the new root t is the
     * last node, its left child the old root, whose parent link alone
     * changes, and its right child the root of a fresh region of L layers
     * after the old nodes.
     */
    ghost predicate Extended(l0: seq<int>, r0: seq<int>, p0: seq<int>, hs0: seq<string>, ds0: seq<Option<T>>,
                             L: nat, l: seq<int>, r: seq<int>, p: seq<int>, hs: seq<string>, ds: seq<Option<T>>)
    {
      Tree(l, r, p, L + 1) && AllOK(l, r, hs, ds) && |p0| == |l0| &&
      l0 <= l && r0 <= r && hs0 <= hs && ds0 <= ds &&
      (forall n :: |l0| <= n < |ds| ==> ds[n] == None) &&
      (L >= 1 ==>
        var t := |l| - 1;
        l[t] == |l0| - 1 && r[t] == t - 1 && p[|l0| - 1] == t &&
        hs[t] == H(hs[|l0| - 1] + hs[t - 1]) && Shaped(l, r, |l0|, L) &&
        forall n :: 0 <= n < |l0| - 1 ==> p[n] == p0[n])
    }

    /**
     * Extended, and the grown tree still holds the elements es of the old
     * one, with the cursor e on leaf Cap(L), the first leaf past the old
     * capacity.
     */
    ghost predicate Grew(l0: seq<int>, r0: seq<int>, p0: seq<int>, hs0: seq<string>, ds0: seq<Option<T>>,
                         es: seq<T>, L: nat,
                         l: seq<int>, r: seq<int>, p: seq<int>, hs: seq<string>, ds: seq<Option<T>>, e: int)
    {
      Extended(l0, r0, p0, hs0, ds0, L, l, r, p, hs, ds) &&
      StoredIn(es, L + 1, ds) && e == Leaf(L + 1, Cap(L))
    }

    /**
     * The arena step of growLayer on a non-empty tree of L layers, on values:
     * (l0, ..., ds0) is the old tree, (l1, ..., ds1) the same with a fresh
     * tree appended, and (l, ..., ds) has in addition the new root t over
     * the old root a and the fresh root c, both pointing back to it.
     */
    lemma GrowArena(l0: seq<int>, r0: seq<int>, p0: seq<int>, hs0: seq<string>, ds0: seq<Option<T>>,
                    l1: seq<int>, r1: seq<int>, p1: seq<int>, hs1: seq<string>, ds1: seq<Option<T>>,
                    l: seq<int>, r: seq<int>, p: seq<int>, hs: seq<string>, ds: seq<Option<T>>,
                    L: nat, a: int, c: int, t: int)
      requires L >= 1 && Tree(l0, r0, p0, L) && AllOK(l0, r0, hs0, ds0)
      requires Appended(l0, r0, p0, hs0, ds0, l1, r1, p1, hs1, ds1, L)
      requires a == |l0| - 1 && c == |l1| - 1 && t == |l1|
      requires l == l1 + [a] && r == r1 + [c] && p == (p1 + [-1])[c := t][a := t]
      requires hs == hs1 + [H(hs1[a] + hs1[c])] && ds == ds1 + [None]
      ensures Extended(l0, r0, p0, hs0, ds0, L, l, r, p, hs, ds)
    {
      var b := Size(L);
      assert Size(L + 1) == 2 * b + 1 && b >= 1;
      ShapedGrown(l0, r0, 0, L);
      assert l0 <= l0;
      PrefixAppend(l0, l0, l1, a);
      PrefixAppend(r0, r0, r1, c);
      PrefixAppend(hs0, hs1, hs1, H(hs1[a] + hs1[c]));
      PrefixAppend(ds0, ds1, ds1, None);
      assert JoinedAt(l, r, 0, b);
      GrownJoin(l0, r0, l1, r1, l, r, 0, L + 1);
      assert Shaped(l, r, 0, L + 1);
      assert p1[a] == p0[a] && p1[c] == -1;
      AdoptLinked(l1, r1, p1, a, c, t);
      AppendOK(l1, r1, hs1, ds1, a, c, H(hs1[a] + hs1[c]));
      assert forall n :: 0 <= n < |l0| ==> p1[n] == p0[n];
      assert Shaped(l, r, |l0|, L);
    }

    /**
     * After growth the elements stay where they were, and the leftmost leaf
     * e below the right child c of the new root is leaf Cap(L).
     */
    lemma GrowCursor(l0: seq<int>, r0: seq<int>, p0: seq<int>, hs0: seq<string>, ds0: seq<Option<T>>,
                     es: seq<T>, L: nat,
                     l: seq<int>, r: seq<int>, p: seq<int>, hs: seq<string>, ds: seq<Option<T>>, c: int, e: int)
      requires L >= 1 && |l0| == Size(L) && StoredIn(es, L, ds0)
      requires Extended(l0, r0, p0, hs0, ds0, L, l, r, p, hs, ds)
      requires c == r[|l| - 1] && 0 <= e < |l| && l[e] == -1 && LeftSpine(l, c, e)
      ensures Grew(l0, r0, p0, hs0, ds0, es, L, l, r, p, hs, ds, e)
    {
      GrowStored(es, ds0, ds, L, L + 1);
      assert c == NodeAt(0, L + 1, 1, 1);
      var m := LeftSpineLeaf(l, r, 0, L + 1, 1, 1, e);
      LeftmostIndex(L + 1, 1, 1, m);
    }

    /** growLayer on an empty arena: one placeholder leaf is a grown tree of one layer. */
    lemma GrowEmpty(l0: seq<int>, r0: seq<int>, p0: seq<int>, hs0: seq<string>, ds0: seq<Option<T>>,
                    es: seq<T>, l: seq<int>, r: seq<int>, p: seq<int>, hs: seq<string>, ds: seq<Option<T>>)
      requires Tree(l0, r0, p0, 0) && AllOK(l0, r0, hs0, ds0) && StoredIn(es, 0, ds0)
      requires l == l0 + [-1] && r == r0 + [-1] && p == p0 + [-1]
      requires hs == hs0 + [H(Noise(|l0|))] && ds == ds0 + [None]
      ensures Grew(l0, r0, p0, hs0, ds0, es, 0, l, r, p, hs, ds, 0)
    {
      assert l0 == [] && es == [];
      assert Shaped(l, r, 0, 1);
      assert LinkedAt(l, r, p, 0);
      assert NodeOKIn(l, r, hs, ds, 0);
      assert Leaf(1, 0) == 0;
    }

    /**
     * growLayer(): on an empty tree, makes the root a single placeholder leaf
     * of a one-layer tree and puts the cursor on it. Otherwise the old root
     * becomes the left child of a new root whose right child is a fresh
     * placeholder tree of the old height; the height grows by one, doubling
     * the capacity, and the cursor moves to the leftmost leaf of the new right
     * half, leaf number old-capacity (Grew).
     */
    method GrowLayer()
      requires Tree(left, right, prev, layers) && root == |left| - 1
      requires AllOK(left, right, hash, data) && StoredIn(elems, layers, data)
      modifies this`left, this`right, this`prev, this`hash, this`data, this`root, this`layers, this`end
      ensures Grew(old(left), old(right), old(prev), old(hash), old(data), old(elems), old(layers),
                   left, right, prev, hash, data, end)
      ensures layers == old(layers) + 1 && root == |left| - 1
    {
      if root == -1 {
        ghost var l0, r0, p0, hs0, ds0, es := left, right, prev, hash, data, elems;
        root := NewLeaf();
        layers := 1;
        end := root;
        GrowEmpty(l0, r0, p0, hs0, ds0, es, left, right, prev, hash, data);
        return;
      }
      ghost var L := layers;
      ghost var l0, r0, p0, hs0, ds0, es := left, right, prev, hash, data, elems;
      var leftTree := root;
      var rightTree := CreateEmptyTree(layers);
      layers := layers + 1;
      ghost var l1, r1, p1, hs1, ds1 := left, right, prev, hash, data;
      root := NewInternal(H(hash[leftTree] + hash[rightTree]), leftTree, rightTree);
      prev := prev[rightTree := root][leftTree := root];
      ghost var l, r, p, hs, ds := left, right, prev, hash, data;
      assert root == |l| - 1 && rightTree == r[root];
      GrowArena(l0, r0, p0, hs0, ds0, l1, r1, p1, hs1, ds1, l, r, p, hs, ds, L, leftTree, rightTree, root);
      end := FindLeftMostInRightSubtree(root);
      GrowCursor(l0, r0, p0, hs0, ds0, es, L, l, r, p, hs, ds, rightTree, end);
    }

    /**
     * findLeftMostInRightSubtree(n), for an internal node n: one step right,
     * then left steps until a leaf, which is returned.
     */
    method FindLeftMostInRightSubtree(n: int) returns (c: int)
      requires Linked(left, right, prev)
      requires 0 <= n < |left| && left[n] != -1
      ensures 0 <= c < |left| && left[c] == -1 && LeftSpine(left, right[n], c)
    {
      assert LinkedAt(left, right, prev, n);
      c := right[n];
      while left[c] != -1
        invariant 0 <= c < |left| && LeftSpine(left, right[n], c)
        decreases c
      {
        assert LinkedAt(left, right, prev, c);
        LeftSpineStep(left, right[n], c);
        c := left[c];
      }
    }

    /**
     * updateHashesUpward(start): walks the parent links from start to the
     * root, recomputing the hash of every internal node on the way. Given a
     * tree whose nodes are consistent except possibly start's parent (and
     * start itself when internal), every node is consistent afterwards; only
     * internal nodes on the path from start to the root change.
     */
    method UpdateHashesUpward(start: int)
      requires Linked(left, right, prev) && 0 <= start < |left| && Pending(left, right, prev, hash, data, start)
      modifies this`hash
      ensures AllOK(left, right, hash, data)
      ensures forall n :: 0 <= n < |hash| && hash[n] != old(hash[n]) ==>
        left[n] != -1 && Above(prev, start, n)
    {
      var hs := hash;
      var curr := start;
      while curr != -1
        invariant hash == old(hash)
        invariant Pending(left, right, prev, hs, data, curr) && OnPath(left, prev, hash, hs, start)
        invariant curr != -1 ==> Above(prev, start, curr)
        decreases if curr == -1 then 0 else |left| - curr
      {
        assert LinkedAt(left, right, prev, curr);
        var hs' := if left[curr] == -1 then hs else hs[curr := H(hs[left[curr]] + hs[right[curr]])];
        RehashStep(left, right, prev, hash, hs, data, start, curr, hs');
        hs, curr := hs', prev[curr];
      }
      hash := hs;
    }

    /**
     * findNextNode(leaf), with the ascent condition of merkle-tree.h:82
     * corrected to `last == curr->right` as its comment describes: from leaf
     * j, the next leaf to the right, or the root as a sentinel when j is the
     * last leaf.
     */
    method FindNextNode(leaf: int, ghost j: nat) returns (next: int)
      requires Tree(left, right, prev, layers) && root == |left| - 1
      requires layers >= 1 && j < Cap(layers) && leaf == Leaf(layers, j)
      ensures next == if j + 1 < Cap(layers) then Leaf(layers, j + 1) else root
    {
      ghost var l, r, p, k := left, right, prev, layers;
      AscentStart(l, r, p, k, j);
      var last := leaf;
      var curr := prev[last];
      ghost var d: nat, q: nat := k - 1, j;
      while curr != -1 && last == right[curr]
        invariant Ascent(l, r, p, k, j, d, q, last, curr)
        decreases d
      {
        AscendStep(l, r, p, k, j, d, q, last, curr);
        last := curr;
        curr := prev[curr];
        d, q := d - 1, q / 2;
      }
      if curr == -1 {
        AscentTop(l, r, p, k, j, d, q, last);
        next := root;
        return;
      }
      AscentTurn(l, r, p, k, j, d, q, last, curr);
      next := FindLeftMostInRightSubtree(curr);
      NextLeafBelow(l, r, p, k, j, d, q, last, curr, next);
    }

    /**
     * findNextNode(leaf) as merkle-tree.h:76-93 writes it. The loop at line 82
     * compares curr with its own right child, which no node is, so it never
     * runs: the result is the leftmost leaf of the right subtree of the leaf's
     * parent. For a leaf that is a right child that is the leaf itself.
     */
    method FindNextNodeAsWritten(leaf: int, ghost j: nat) returns (next: int)
      requires Tree(left, right, prev, layers) && root == |left| - 1
      requires layers >= 1 && j < Cap(layers) && leaf == Leaf(layers, j)
      ensures layers == 1 ==> next == root
      ensures layers >= 2 && j % 2 == 1 ==> next == leaf
      ensures layers >= 2 && j % 2 == 0 ==> next == Leaf(layers, j + 1)
    {
      ghost var l, r, p, k := left, right, prev, layers;
      ParentOfLeaf(l, r, p, k, j);
      var curr := prev[leaf];
      // the guard of the loop at line 82 fails at once
      assert !(curr != -1 && curr == right[curr]);
      if curr == -1 {
        next := root;
        return;
      }
      next := FindLeftMostInRightSubtree(curr);
      SiblingLeaf(l, r, k, j, next);
    }

    /**
     * The state insert reaches once the tree has room: the invariant holds
     * except that the tree may be just grown, and the cursor e is on leaf n,
     * the first free one.
     */
    ghost predicate Ready(l: seq<int>, r: seq<int>, p: seq<int>, hs: seq<string>, ds: seq<Option<T>>,
                          es: seq<T>, k: nat, n: nat, rt: int, e: int)
    {
      Tree(l, r, p, k) && rt == |l| - 1 && AllOK(l, r, hs, ds) &&
      |es| == n && StoredIn(es, k, ds) &&
      k >= 1 && n < Cap(k) && e == Leaf(k, n) && Cap(k) <= 2 * n + 1
    }

    /**
     * Writing element x into the cursor leaf e of a ready tree, on values:
     * the leaves then hold es + [x], and only e's parent is inconsistent,
     * which is what updateHashesUpward(e) expects.
     */
    lemma WriteLeaf(l: seq<int>, r: seq<int>, p: seq<int>, hs: seq<string>, ds: seq<Option<T>>,
                    es: seq<T>, k: nat, n: nat, rt: int, e: int, x: T)
      requires Ready(l, r, p, hs, ds, es, k, n, rt, e)
      ensures 0 <= e < |l| && l[e] == -1 && StoredIn(es + [x], k, ds[e := Some(x)])
      ensures Pending(l, r, p, hs[e := H(ToString(x))], ds[e := Some(x)], e)
    {
      ShapedLeaf(l, r, 0, k, n);
      StoredAppend(es, k, ds, x);
      WritePending(l, r, p, hs, ds, e, Some(x));
    }

    /**
     * Giving leaf e of a consistent arena the payload v and its hash leaves
     * only e's parent inconsistent.
     */
    lemma WritePending(l: seq<int>, r: seq<int>, p: seq<int>, hs: seq<string>, ds: seq<Option<T>>,
                       e: int, v: Option<T>)
      requires |r| == |l| && |p| == |l| && Linked(l, r, p) && AllOK(l, r, hs, ds)
      requires 0 <= e < |l| && l[e] == -1
      ensures Pending(l, r, p, hs[e := LeafHash(v, e)], ds[e := v], e)
    {
      var hs', ds' := hs[e := LeafHash(v, e)], ds[e := v];
      assert LinkedAt(l, r, p, e);
      if p[e] != -1 {
        assert LinkedAt(l, r, p, p[e]);
        assert NodeOKIn(l, r, hs, ds, p[e]);
      }
      forall m | 0 <= m < |l| && m != e && m != p[e]
        ensures NodeOKIn(l, r, hs', ds', m)
      {
        assert NodeOKIn(l, r, hs, ds, m);
        assert LinkedAt(l, r, p, m);
      }
    }

    /**
     * After the write, the rehash and the cursor step, the invariant holds
     * again with one more element: the cursor is on leaf n + 1, or on the
     * root once the tree is full.
     */
    lemma PutDone(l: seq<int>, r: seq<int>, p: seq<int>, hs: seq<string>, ds: seq<Option<T>>,
                  es: seq<T>, k: nat, n: nat, rt: int, e: int, x: T, hs2: seq<string>, e2: int)
      requires Ready(l, r, p, hs, ds, es, k, n, rt, e)
      requires StoredIn(es + [x], k, ds[e := Some(x)]) && AllOK(l, r, hs2, ds[e := Some(x)])
      requires e2 == if n + 1 < Cap(k) then Leaf(k, n + 1) else rt
      ensures ValidIn(l, r, p, hs2, ds[e := Some(x)], es + [x], k, n + 1, rt, e2)
    {
    }

    /**
     * The second half of insert(element), once the tree has room: writes the
     * element and its hash H(ToString(element)) into the cursor leaf, counts
     * it, rehashes the path to the root and advances the cursor to the next
     * free leaf, or to the root once the tree is full.
     */
    method Put(x: T)
      requires Ready(left, right, prev, hash, data, elems, layers, size, root, end)
      modifies this`hash, this`data, this`size, this`elems, this`end
      ensures Valid()
      ensures elems == old(elems) + [x] && size == old(size) + 1
    {
      WriteLeaf(left, right, prev, hash, data, elems, layers, size, root, end, x);
      hash, data := hash[end := H(ToString(x))], data[end := Some(x)];
      size, elems := size + 1, elems + [x];
      UpdateHashesUpward(end);
      end := FindNextNode(end, old(size));
      PutDone(left, right, prev, old(hash), old(data), old(elems), layers, old(size), root, old(end), x, hash, end);
    }

    /**
     * insert(element): grows the tree exactly when it is empty or full, then
     * puts the element into the cursor leaf (Put).
     */
    method Insert(x: T)
      requires Valid()
      modifies this
      ensures Valid()
      ensures elems == old(elems) + [x] && size == old(size) + 1
      ensures layers == if old(size) == 0 || old(size) == Cap(old(layers)) then old(layers) + 1 else old(layers)
    {
      if size == 0 || size == Pow2(layers - 1) {
        GrowLayer();
      }
      assert Ready(left, right, prev, hash, data, elems, layers, size, root, end);
      Put(x);
    }
  }
}
