/**
 * The append-only Merkle log of core/chron_node.go: an incremental binary
 * tree whose shape is the one of section 2.1 of RFC 6962 (split at the
 * largest power of two below the number of leaves), consistency proofs as
 * in section 2.1.2 of RFC 6962, and their check as in section 2.1.4.2 of
 * RFC 9162, all without the 0x00/0x01 domain-separation bytes.
 */
module ChronTrees {
  import opened Wrappers
  import opened Bits
  import opened Crypto

  // ---------------------------------------------------------------------
  // Powers of two.

  /** The exponent of the largest power of two strictly below n. */
  function SplitLog(n: nat): (s: nat)
    requires n >= 2
    ensures Pow2(s) < n <= 2 * Pow2(s)
  {
    if n <= 2 then 0 else 1 + SplitLog((n + 1) / 2)
  }

  /**
   * The largest power of two strictly below n: the k of section 2.1 of
   * RFC 6962, computed in generateConsistencyProof through floating point
   * as 2^floor(log2 n), halved when that is n itself.
   */
  function Split(n: nat): (k: nat)
    requires n >= 2
    ensures 1 <= k < n <= 2 * k
  {
    Pow2(SplitLog(n))
  }

  /** The least d with n <= 2^d: the depth of a tree with n leaves. */
  function CeilLog2(n: nat): (d: nat)
    requires n >= 1
    ensures n <= Pow2(d) && (d > 0 ==> Pow2(d - 1) < n)
  {
    if n == 1 then 0 else SplitLog(n) + 1
  }

  predicate IsPow2(n: nat)
  {
    n >= 1 && Pow2(CeilLog2(n)) == n
  }

  lemma {:induction false} Pow2Mono(a: nat, b: nat)
    requires a < b
    ensures 2 * Pow2(a) <= Pow2(b)
    decreases b
  {
    if a + 1 < b {
      Pow2Mono(a, b - 1);
    }
  }

  /** SplitLog is the only s with 2^s < n <= 2^(s+1). */
  lemma SplitLogUnique(n: nat, s: nat)
    requires n >= 2 && Pow2(s) < n <= 2 * Pow2(s)
    ensures SplitLog(n) == s
  {
    var t := SplitLog(n);
    if t < s {
      Pow2Mono(t, s);
    } else if s < t {
      Pow2Mono(s, t);
    }
  }

  lemma CeilLog2Pow2(j: nat)
    ensures CeilLog2(Pow2(j)) == j && IsPow2(Pow2(j))
  {
    if j > 0 {
      CeilLog2Succ(j - 1);
    }
  }

  lemma CeilLog2Succ(i: nat)
    ensures CeilLog2(Pow2(i + 1)) == i + 1
  {
    var n := Pow2(i + 1);
    assert n == 2 * Pow2(i);
    SplitLogUnique(n, i);
  }

  // ---------------------------------------------------------------------
  // Trees and their reference shape.

  /**
   * A node of the log: a leaf with its hash and its 1-based id, or an
   * internal node with both children, its depth and its stored hash.
   */
  datatype CNode =
    | CLeaf(hash: Bytes, id: nat)
    | CInner(left: CNode, right: CNode, depth: nat, hash: Bytes)

  /** getDepth: 0 for a leaf. */
  function Depth(t: CNode): nat
  {
    if t.CLeaf? then 0 else t.depth
  }

  /** A new internal node over l and r after updateHash: Hash(left hash, right hash). */
  function Join(c: Primitives, l: CNode, r: CNode, d: nat): (t: CNode)
    ensures t.CInner? && t.left == l && t.right == r && Depth(t) == d
    ensures t.hash == c.hash([l.hash, r.hash])
  {
    CInner(l, r, d, c.hash([l.hash, r.hash]))
  }

  /** The Merkle Tree Hash of section 2.1 of RFC 6962 over already hashed leaves. */
  function MTH(c: Primitives, hs: seq<Bytes>): Bytes
    requires |hs| >= 1
  {
    if |hs| == 1 then hs[0]
    else c.hash([MTH(c, hs[..Split(|hs|)]), MTH(c, hs[Split(|hs|)..])])
  }

  /** The leaf hashes of t, left to right. */
  function Leaves(t: CNode): (hs: seq<Bytes>)
    ensures |hs| >= 1
  {
    if t.CLeaf? then [t.hash] else Leaves(t.left) + Leaves(t.right)
  }

  /** The leaf ids of t, left to right. */
  function Ids(t: CNode): (ids: seq<nat>)
    ensures |ids| == |Leaves(t)|
  {
    if t.CLeaf? then [t.id] else Ids(t.left) + Ids(t.right)
  }

  /** The ids 1, 2, ..., n. */
  function OneTo(n: nat): (ids: seq<nat>)
    ensures |ids| == n
  {
    if n == 0 then [] else OneTo(n - 1) + [n]
  }

  /** Ids 1, 2, ..., n: the order in which Append numbers the leaves. */
  predicate Numbered(ids: seq<nat>)
  {
    ids == OneTo(|ids|)
  }

  /** Every internal node's hash is updateHash of its children: Hash(left, right). */
  predicate HashOk(c: Primitives, t: CNode)
  {
    t.CInner? ==> t.hash == c.hash([t.left.hash, t.right.hash]) && HashOk(c, t.left) && HashOk(c, t.right)
  }

  /** A perfect tree: every leaf at the same distance below the root. */
  predicate Perfect(t: CNode)
  {
    t.CLeaf? ||
    (Perfect(t.left) && Perfect(t.right) && Depth(t.left) + 1 == t.depth && Depth(t.right) + 1 == t.depth)
  }

  /**
   * The shape of section 2.1 of RFC 6962, on the nodes alone: below an
   * internal node, a perfect left subtree one level down and a shaped
   * right subtree that is not deeper.
   */
  predicate Shape(t: CNode)
  {
    t.CLeaf? ||
    (Perfect(t.left) && Shape(t.right) && Depth(t.left) + 1 == t.depth && Depth(t.right) < t.depth)
  }

  lemma {:induction false} PerfectShape(t: CNode)
    requires Perfect(t)
    ensures Shape(t)
  {
    if t.CInner? {
      PerfectShape(t.right);
    }
  }

  lemma {:induction false} PerfectSize(t: CNode)
    requires Perfect(t)
    ensures |Leaves(t)| == Pow2(Depth(t))
  {
    if t.CInner? {
      PerfectSize(t.left);
      PerfectSize(t.right);
    }
  }

  /**
   * A shaped tree of depth d holds more than 2^(d - 1) and at most 2^d
   * leaves, and exactly 2^d when it is perfect.
   */
  lemma {:induction false} ShapeSize(t: CNode)
    requires Shape(t)
    ensures |Leaves(t)| <= Pow2(Depth(t))
    ensures t.CInner? ==> Pow2(Depth(t) - 1) < |Leaves(t)|
    ensures Perfect(t) <==> |Leaves(t)| == Pow2(Depth(t))
  {
    if t.CInner? {
      var d, dr := t.depth, Depth(t.right);
      PerfectSize(t.left);
      ShapeSize(t.right);
      if dr + 1 < d {
        Pow2Mono(dr, d - 1);
      }
      assert Pow2(d) == 2 * Pow2(d - 1);
    }
  }

  /**
   * So the depth of a shaped tree of n leaves is the least d with
   * n <= 2^d, and its left subtree holds the largest power of two below n:
   * the split of section 2.1 of RFC 6962.
   */
  lemma ShapeSplit(t: CNode)
    requires Shape(t)
    ensures CeilLog2(|Leaves(t)|) == Depth(t)
    ensures t.CInner? ==> |Leaves(t)| >= 2 && Split(|Leaves(t)|) == |Leaves(t.left)|
  {
    if t.CInner? {
      ShapeSplitInner(t, |Leaves(t)|, Depth(t), Depth(t.left));
    }
  }

  lemma ShapeSplitInner(t: CNode, n: nat, d: nat, dl: nat)
    requires Shape(t) && t.CInner? && n == |Leaves(t)| && d == Depth(t) && dl == Depth(t.left)
    ensures n >= 2 && CeilLog2(n) == d && Split(n) == |Leaves(t.left)|
  {
    ShapeSize(t);
    PerfectSize(t.left);
    SizeLog(n, d, dl);
  }

  /** For 2^(d - 1) < n <= 2^d: d is the least exponent that holds n, and the split is 2^(d - 1). */
  lemma SizeLog(n: nat, d: nat, dl: nat)
    requires d >= 1 && dl == d - 1 && Pow2(d - 1) < n <= Pow2(d)
    ensures n >= 2 && CeilLog2(n) == d && Split(n) == Pow2(dl)
  {
    assert Pow2(d) == 2 * Pow2(d - 1);
    SplitLogUnique(n, d - 1);
  }

  /** A shaped tree holds a power of two of leaves exactly when it is perfect. */
  lemma ShapePow2(t: CNode)
    requires Shape(t)
    ensures IsPow2(|Leaves(t)|) <==> Perfect(t)
  {
    ShapeSize(t);
    ShapeSplit(t);
  }

  /**
   * The condition of Append's climb from the last leaf, down the right
   * spine: every node is one level below its parent.
   */
  predicate NoGap(t: CNode)
  {
    match t
    case CLeaf(_, _) => true
    case CInner(_, r, d, _) => Depth(r) + 1 == d && NoGap(r)
  }

  /** On a shaped tree the climb runs up to the root exactly when the tree is perfect (full). */
  lemma {:induction false} ShapeNoGap(t: CNode)
    requires Shape(t)
    ensures NoGap(t) <==> Perfect(t)
  {
    if t.CInner? {
      ShapeNoGap(t.right);
    }
  }

  /**
   * Append below a tree that is not full: the lowest node of the right
   * spine whose parent is more than one level up gets a new parent, with
   * the new leaf as right child; the hashes above it are recomputed.
   */
  function Push(c: Primitives, t: CNode, leaf: CNode): (r: CNode)
    requires t.CInner? && !NoGap(t)
    decreases t
  {
    var right :=
      if NoGap(t.right) then Join(c, t.right, leaf, Depth(t.right) + 1)
      else Push(c, t.right, leaf);
    Join(c, t.left, right, t.depth)
  }

  /** Push adds the leaf after the others and keeps every node's hash its children's. */
  lemma {:induction false} PushLeaves(c: Primitives, t: CNode, leaf: CNode)
    requires t.CInner? && !NoGap(t) && leaf.CLeaf?
    ensures Leaves(Push(c, t, leaf)) == Leaves(t) + [leaf.hash]
    ensures Ids(Push(c, t, leaf)) == Ids(t) + [leaf.id]
    ensures HashOk(c, t) ==> HashOk(c, Push(c, t, leaf))
    decreases t
  {
    if !NoGap(t.right) {
      PushLeaves(c, t.right, leaf);
      assert Leaves(t.left) + (Leaves(t.right) + [leaf.hash]) == Leaves(t) + [leaf.hash];
      assert Ids(t.left) + (Ids(t.right) + [leaf.id]) == Ids(t) + [leaf.id];
    } else {
      assert Leaves(leaf) == [leaf.hash] && Ids(leaf) == [leaf.id];
      assert Leaves(t.left) + (Leaves(t.right) + [leaf.hash]) == Leaves(t) + [leaf.hash];
      assert Ids(t.left) + (Ids(t.right) + [leaf.id]) == Ids(t) + [leaf.id];
    }
  }

  /** A new root over a full tree and a leaf is shaped, one level up. */
  lemma GrowShape(c: Primitives, t: CNode, leaf: CNode)
    requires Shape(t) && NoGap(t) && leaf.CLeaf?
    ensures Shape(Join(c, t, leaf, Depth(t) + 1))
  {
    ShapeNoGap(t);
  }

  /** Push on a shaped tree that is not full keeps the shape and the depth. */
  lemma {:induction false} PushShape(c: Primitives, t: CNode, leaf: CNode)
    requires Shape(t) && !NoGap(t) && leaf.CLeaf?
    ensures Shape(Push(c, t, leaf)) && Depth(Push(c, t, leaf)) == Depth(t)
  {
    if NoGap(t.right) {
      GrowShape(c, t.right, leaf);
    } else {
      PushShape(c, t.right, leaf);
    }
  }

  /** The tree of a log over the leaf hashes hs, as Append keeps it. */
  predicate LogTree(c: Primitives, t: CNode, hs: seq<Bytes>)
  {
    Shape(t) && HashOk(c, t) && Leaves(t) == hs && Numbered(Ids(t))
  }

  /** One Append on the tree t: a new root over a full tree, Push otherwise. */
  function Grow(c: Primitives, t: CNode, leaf: CNode): CNode
  {
    if NoGap(t) then Join(c, t, leaf, Depth(t) + 1) else Push(c, t, leaf)
  }

  /**
   * Grow keeps the log's tree: shaped, hashed, numbered, with the new leaf
   * last. The tree is full exactly when the least power of two holding
   * its leaves is their number, and the next such power doubles exactly then.
   */
  lemma GrowLogTree(c: Primitives, t: CNode, hs: seq<Bytes>, x: Bytes, leaf: CNode)
    requires LogTree(c, t, hs) && leaf == CLeaf(x, |hs| + 1)
    ensures NoGap(t) <==> Pow2(CeilLog2(|hs|)) == |hs|
    ensures LogTree(c, Grow(c, t, leaf), hs + [x])
    ensures Pow2(CeilLog2(|hs| + 1)) == if NoGap(t) then 2 * Pow2(CeilLog2(|hs|)) else Pow2(CeilLog2(|hs|))
  {
    LogTreeFull(c, t, hs);
    GrowKeeps(c, t, hs, x, leaf);
    LogTreeDepth(c, Grow(c, t, leaf), hs + [x], |hs| + 1);
    NextRoom(|hs|, |hs| + 1, Depth(t), Depth(Grow(c, t, leaf)), NoGap(t));
  }

  /** The log's tree is full exactly when its leaves fill a power of two. */
  lemma LogTreeFull(c: Primitives, t: CNode, hs: seq<Bytes>)
    requires LogTree(c, t, hs)
    ensures CeilLog2(|hs|) == Depth(t)
    ensures NoGap(t) <==> Pow2(CeilLog2(|hs|)) == |hs|
  {
    LogTreeDepth(c, t, hs, |hs|);
    ShapeSize(t);
    ShapeNoGap(t);
  }

  /** Grow keeps the log's tree and deepens it by one exactly when t is full. */
  lemma GrowKeeps(c: Primitives, t: CNode, hs: seq<Bytes>, x: Bytes, leaf: CNode)
    requires LogTree(c, t, hs) && leaf == CLeaf(x, |hs| + 1)
    ensures LogTree(c, Grow(c, t, leaf), hs + [x])
    ensures Depth(Grow(c, t, leaf)) == if NoGap(t) then Depth(t) + 1 else Depth(t)
  {
    if NoGap(t) {
      GrowFull(c, t, hs, x, leaf);
    } else {
      GrowPartial(c, t, hs, x, leaf);
    }
  }

  /** The log's tree over n leaves is as deep as the least power of two that holds them. */
  lemma LogTreeDepth(c: Primitives, t: CNode, hs: seq<Bytes>, n: nat)
    requires LogTree(c, t, hs) && n == |hs|
    ensures n >= 1 && CeilLog2(n) == Depth(t)
  {
    ShapeSplit(t);
  }

  /** One more leaf needs a power of two twice as large exactly when the depth grows. */
  lemma NextRoom(n: nat, n1: nat, d: nat, d1: nat, full: bool)
    requires n >= 1 && n1 >= 1 && CeilLog2(n) == d && CeilLog2(n1) == d1 && d1 == (if full then d + 1 else d)
    ensures Pow2(CeilLog2(n1)) == if full then 2 * Pow2(CeilLog2(n)) else Pow2(CeilLog2(n))
  {
    if full {
      assert Pow2(d + 1) == 2 * Pow2(d);
    }
  }


  lemma GrowFull(c: Primitives, t: CNode, hs: seq<Bytes>, x: Bytes, leaf: CNode)
    requires LogTree(c, t, hs) && leaf == CLeaf(x, |hs| + 1) && NoGap(t)
    ensures LogTree(c, Join(c, t, leaf, Depth(t) + 1), hs + [x])
  {
    var t', k := Join(c, t, leaf, Depth(t) + 1), |hs| + 1;
    GrowShape(c, t, leaf);
    assert Leaves(leaf) == [x] && Ids(leaf) == [k];
    assert Leaves(t') == Leaves(t) + [x] && Ids(t') == Ids(t) + [k] && HashOk(c, t');
    LogTreeSnoc(c, t, t', hs, x, k);
  }

  lemma GrowPartial(c: Primitives, t: CNode, hs: seq<Bytes>, x: Bytes, leaf: CNode)
    requires LogTree(c, t, hs) && leaf == CLeaf(x, |hs| + 1) && !NoGap(t)
    ensures t.CInner? && LogTree(c, Push(c, t, leaf), hs + [x]) && Depth(Push(c, t, leaf)) == Depth(t)
  {
    PushShape(c, t, leaf);
    PushLeaves(c, t, leaf);
    LogTreeSnoc(c, t, Push(c, t, leaf), hs, x, |hs| + 1);
  }

  /** A tree with one more leaf, x, numbered next, is the log's tree over hs + [x]. */
  lemma LogTreeSnoc(c: Primitives, t: CNode, t': CNode, hs: seq<Bytes>, x: Bytes, k: nat)
    requires LogTree(c, t, hs) && k == |hs| + 1
    requires Shape(t') && HashOk(c, t') && Leaves(t') == Leaves(t) + [x] && Ids(t') == Ids(t) + [k]
    ensures LogTree(c, t', hs + [x])
  {
    NumberedSnoc(Ids(t), k);
  }

  lemma NumberedSnoc(ids: seq<nat>, k: nat)
    requires Numbered(ids) && k == |ids| + 1
    ensures Numbered(ids + [k])
  {
    assert OneTo(k) == OneTo(k - 1) + [k];
  }

  /**
   * The fields of a log over the leaf hashes hs: its tree, last its last
   * leaf, and maxN the least power of two that holds n leaves (1 for the
   * empty log).
   */
  predicate LogState(c: Primitives, root: Option<CNode>, last: Option<CNode>, n: nat, maxN: nat, hs: seq<Bytes>)
  {
    |hs| == n &&
    (n == 0 ==> root.None? && last.None? && maxN == 1) &&
    (n > 0 ==>
      root.Some? && LogTree(c, root.value, hs) &&
      last == Some(CLeaf(hs[n - 1], n)) &&
      maxN == Pow2(CeilLog2(n)))
  }

  /** The first Append: the leaf alone is the tree, and one leaf needs room for one. */
  lemma FirstLogState(c: Primitives, x: Bytes, leaf: CNode)
    requires leaf == CLeaf(x, 1)
    ensures LogState(c, Some(leaf), Some(leaf), 1, 1, [x])
  {
    assert Leaves(leaf) == [x] && Ids(leaf) == [1];
  }

  /**
   * Appending to a non-empty log keeps its state: over a full tree
   * (maxN == n) a new root one level up and twice the room, Push and the
   * same room otherwise.
   */
  lemma GrowLogState(c: Primitives, t: CNode, last: Option<CNode>, n: nat, maxN: nat, hs: seq<Bytes>, x: Bytes, leaf: CNode,
                     root': Option<CNode>, last': Option<CNode>, n': nat, maxN': nat, hs': seq<Bytes>)
    requires n > 0 && LogState(c, Some(t), last, n, maxN, hs) && leaf == CLeaf(x, n + 1)
    requires maxN == n ==> root' == Some(Join(c, t, leaf, Depth(t) + 1)) && maxN' == maxN * 2
    requires maxN != n ==> t.CInner? && !NoGap(t) && root' == Some(Push(c, t, leaf)) && maxN' == maxN
    requires last' == Some(leaf) && n' == n + 1 && hs' == hs + [x]
    ensures LogState(c, root', last', n', maxN', hs')
  {
    GrowLogTree(c, t, hs, x, leaf);
    assert (hs + [x])[n] == x;
  }

  /** A log that is not empty and not full has a gap on the right spine, so Append pushes. */
  lemma LogStateGap(c: Primitives, t: CNode, last: Option<CNode>, n: nat, maxN: nat, hs: seq<Bytes>)
    requires n > 0 && LogState(c, Some(t), last, n, maxN, hs)
    ensures NoGap(t) <==> maxN == n
    ensures maxN != n ==> t.CInner?
  {
    ShapeSize(t);
    ShapeNoGap(t);
    ShapePow2(t);
  }

  // ---------------------------------------------------------------------
  // Consistency proofs.

  /** SUBPROOF of section 2.1.2 of RFC 6962, over the leaves hs. */
  function SubProof(c: Primitives, m: nat, hs: seq<Bytes>, b: bool): seq<Bytes>
    requires 1 <= m <= |hs|
    decreases |hs|
  {
    if m == |hs| then (if b then [] else [MTH(c, hs)])
    else
      var k := Split(|hs|);
      if m <= k then SubProof(c, m, hs[..k], b) + [MTH(c, hs[k..])]
      else SubProof(c, m - k, hs[k..], false) + [MTH(c, hs[..k])]
  }

  /** The node t holds n leaves split as section 2.1 of RFC 6962 splits them. */
  predicate Fits(t: CNode, n: nat)
    decreases n
  {
    n >= 2 ==> t.CInner? && Fits(t.left, Split(n)) && Fits(t.right, n - Split(n))
  }

  /**
   * generateConsistencyProof(m, n, node, isComplete): what it appends to
   * the shared proof, in order (each recursive call's hashes come before
   * the sibling hash its caller appends).
   */
  function GenProof(m: nat, n: nat, t: CNode, isComplete: bool): seq<Bytes>
    requires m <= n && Fits(t, n)
    decreases n
  {
    if m == 0 then []
    else if m == n then (if !isComplete then [t.hash] else [])
    else
      var k := Split(n);
      if m <= k then GenProof(m, k, t.left, isComplete) + [t.right.hash]
      else GenProof(m - k, n - k, t.right, false) + [t.left.hash]
  }

  /**
   * The node t stands for the leaves hs: its hash is their Merkle Tree
   * Hash, and its children stand for the two halves of section 2.1 of
   * RFC 6962.
   */
  predicate Models(c: Primitives, t: CNode, hs: seq<Bytes>)
    decreases |hs|
  {
    |hs| >= 1 && t.hash == MTH(c, hs) &&
    (|hs| >= 2 ==> t.CInner? && Models(c, t.left, hs[..Split(|hs|)]) && Models(c, t.right, hs[Split(|hs|)..]))
  }

  /** A shaped tree whose hashes are its children's stands for its own leaves. */
  lemma {:induction false} ShapeModels(c: Primitives, t: CNode)
    requires Shape(t) && HashOk(c, t)
    ensures Models(c, t, Leaves(t))
  {
    ShapeSplit(t);
    if t.CInner? {
      var hs, k := Leaves(t), |Leaves(t.left)|;
      PerfectShape(t.left);
      ShapeModels(c, t.left);
      ShapeModels(c, t.right);
      assert hs[..k] == Leaves(t.left);
      assert hs[k..] == Leaves(t.right);
    }
  }

  lemma {:induction false} ModelsFits(c: Primitives, t: CNode, hs: seq<Bytes>)
    requires Models(c, t, hs)
    ensures Fits(t, |hs|)
    decreases |hs|
  {
    var n := |hs|;
    if n >= 2 {
      var k := Split(n);
      ModelsFits(c, t.left, hs[..k]);
      ModelsFits(c, t.right, hs[k..]);
    }
  }

  /** On a node that stands for the n leaves hs, generateConsistencyProof is SUBPROOF. */
  lemma {:induction false} GenProofModels(c: Primitives, m: nat, n: nat, t: CNode, hs: seq<Bytes>, b: bool)
    requires 1 <= m <= n && n == |hs| && Models(c, t, hs)
    ensures Fits(t, n)
    ensures GenProof(m, n, t, b) == SubProof(c, m, hs, b)
    decreases n, 1
  {
    ModelsFits(c, t, hs);
    if m < n {
      if m <= Split(n) {
        GenProofModelsLeft(c, m, n, t, hs, b);
      } else {
        GenProofModelsRight(c, m, n, t, hs, b);
      }
    }
  }

  lemma {:induction false} GenProofModelsLeft(c: Primitives, m: nat, n: nat, t: CNode, hs: seq<Bytes>, b: bool)
    requires 1 <= m < n && n == |hs| && m <= Split(n) && Models(c, t, hs) && Fits(t, n)
    ensures GenProof(m, n, t, b) == SubProof(c, m, hs, b)
    decreases n, 0
  {
    var k := Split(n);
    GenProofModels(c, m, k, t.left, hs[..k], b);
  }

  lemma {:induction false} GenProofModelsRight(c: Primitives, m: nat, n: nat, t: CNode, hs: seq<Bytes>, b: bool)
    requires 1 <= m < n && n == |hs| && m > Split(n) && Models(c, t, hs) && Fits(t, n)
    ensures GenProof(m, n, t, b) == SubProof(c, m, hs, b)
    decreases n, 0
  {
    var k := Split(n);
    var m', n', r := m - k, n - k, hs[k..];
    SubProofRight(c, m, hs, b, k, m', r);
    GenProofRight(m, n, t, b, k, m', n');
    ModelsRight(c, t, hs, k, r);
    GenProofModels(c, m', n', t.right, r, false);
  }

  lemma SubProofRight(c: Primitives, m: nat, hs: seq<Bytes>, b: bool, k: nat, m': nat, r: seq<Bytes>)
    requires |hs| >= 2 && k == Split(|hs|) && k < m < |hs| && m' == m - k && r == hs[k..]
    ensures 1 <= m' <= |r| && SubProof(c, m, hs, b) == SubProof(c, m', r, false) + [MTH(c, hs[..k])]
  {
    assert !(m <= k) && m != |hs|;
  }

  lemma GenProofRight(m: nat, n: nat, t: CNode, b: bool, k: nat, m': nat, n': nat)
    requires n >= 2 && k == Split(n) && k < m < n && m' == m - k && n' == n - k && Fits(t, n)
    ensures t.CInner? && m' <= n' && Fits(t.right, n')
    ensures GenProof(m, n, t, b) == GenProof(m', n', t.right, false) + [t.left.hash]
  {
  }

  lemma ModelsRight(c: Primitives, t: CNode, hs: seq<Bytes>, k: nat, r: seq<Bytes>)
    requires |hs| >= 2 && k == Split(|hs|) && r == hs[k..] && Models(c, t, hs)
    ensures t.CInner? && Models(c, t.right, r) && t.left.hash == MTH(c, hs[..k])
  {
    assert Models(c, t.left, hs[..k]);
  }

  /** On a shaped tree whose hashes are its children's, generateConsistencyProof is SUBPROOF. */
  lemma GenProofIsSubProof(c: Primitives, t: CNode, m: nat, b: bool)
    requires Shape(t) && HashOk(c, t) && 1 <= m <= |Leaves(t)|
    ensures Fits(t, |Leaves(t)|)
    ensures GenProof(m, |Leaves(t)|, t, b) == SubProof(c, m, Leaves(t), b)
  {
    ShapeModels(c, t);
    GenProofModels(c, m, |Leaves(t)|, t, Leaves(t), b);
  }

  // ---------------------------------------------------------------------
  // Checking a consistency proof.

  /** A digest: the root hashes and the size they commit to. */
  datatype Digest = Digest(roots: seq<Bytes>, size: nat)

  /** The state of VerifyConsistencyProof's loops: fn, sn, fr and sr. */
  datatype Fold = Fold(fn: nat, sn: nat, fr: Bytes, sr: Bytes)

  /** The first loop: drop the low one bits of fn, and as many bits of sn. */
  function StripOnes(fn: nat, sn: nat): (r: (nat, nat))
    ensures r.0 % 2 == 0
  {
    if fn % 2 == 1 then StripOnes(fn / 2, sn / 2) else (fn, sn)
  }

  /** The inner loop: drop the low zero bits of a non-zero fn, and as many bits of sn. */
  function StripZeros(fn: nat, sn: nat): (r: (nat, nat))
    ensures r.0 == 0 || r.0 % 2 == 1
  {
    if fn % 2 == 0 && fn != 0 then StripZeros(fn / 2, sn / 2) else (fn, sn)
  }

  /** One round of the loop over the proof hashes after the first; None is the early false. */
  function Step(c: Primitives, s: Fold, h: Bytes): Option<Fold>
  {
    if s.sn == 0 then None
    else if s.fn % 2 == 1 || s.fn == s.sn then
      var z := StripZeros(s.fn, s.sn);
      Some(Fold(z.0 / 2, z.1 / 2, c.hash([h, s.fr]), c.hash([h, s.sr])))
    else
      Some(Fold(s.fn / 2, s.sn / 2, s.fr, c.hash([s.sr, h])))
  }

  /** The loop over the proof hashes hs, from the state s. */
  function FoldAll(c: Primitives, s: Fold, hs: seq<Bytes>): Option<Fold>
    decreases |hs|
  {
    if hs == [] then Some(s)
    else
      match Step(c, s, hs[0])
      case None => None
      case Some(s') => FoldAll(c, s', hs[1..])
  }

  /** The proof hashes after the in-place prepend of the old root when the old size is a power of two. */
  function Prepended(oldDigest: Digest, proof: seq<Bytes>): seq<Bytes>
    requires |oldDigest.roots| >= 1
  {
    if IsPow2(oldDigest.size) then [oldDigest.roots[0]] + proof else proof
  }

  /**
   * VerifyConsistencyProof's verdict: the checks of section 2.1.4.2 of
   * RFC 9162, after the early answers for an empty old tree, equal sizes
   * and an empty proof. A new size of 0 reads sn as 2^32 - 1, as the
   * unsigned subtraction does.
   */
  function VerifySpec(c: Primitives, oldDigest: Digest, newDigest: Digest, proof: seq<Bytes>): bool
    requires RootsRead(oldDigest, newDigest, proof)
  {
    if oldDigest.size == 0 then true
    else if oldDigest.size == newDigest.size then oldDigest.roots[0] == newDigest.roots[0]
    else if proof == [] then false
    else
      var p := Prepended(oldDigest, proof);
      var z := StripOnes(oldDigest.size - 1, if newDigest.size == 0 then 0xFFFF_FFFF else newDigest.size - 1);
      Accepts(FoldAll(c, Fold(z.0, z.1, p[0], p[0]), p[1..]), oldDigest.roots[0], newDigest.roots[0])
  }

  /**
   * VerifyConsistencyProof reads the first root of both digests unless the
   * old size is 0, or the sizes differ and the proof is empty.
   */
  predicate RootsRead(oldDigest: Digest, newDigest: Digest, proof: seq<Bytes>)
  {
    oldDigest.size != 0 && (oldDigest.size == newDigest.size || proof != []) ==>
      |oldDigest.roots| >= 1 && |newDigest.roots| >= 1
  }

  /** The final comparison: both roots recomputed and sn used up. */
  predicate Accepts(f: Option<Fold>, oldRoot: Bytes, newRoot: Bytes)
  {
    f.Some? && f.value.fr == oldRoot && f.value.sr == newRoot && f.value.sn == 0
  }

  /** VerifySpec once the early answers are passed: the fold from the state after the first loop. */
  lemma VerifyLate(c: Primitives, oldDigest: Digest, newDigest: Digest, proof: seq<Bytes>, p: seq<Bytes>, fn: nat, sn: nat, start: Fold)
    requires |oldDigest.roots| >= 1 && |newDigest.roots| >= 1
    requires oldDigest.size != 0 && oldDigest.size != newDigest.size && proof != []
    requires p == Prepended(oldDigest, proof)
    requires fn == oldDigest.size - 1 && sn == (if newDigest.size == 0 then 0xFFFF_FFFF else newDigest.size - 1)
    requires start == Fold(StripOnes(fn, sn).0, StripOnes(fn, sn).1, p[0], p[0])
    ensures VerifySpec(c, oldDigest, newDigest, proof) == Accepts(FoldAll(c, start, p[1..]), oldDigest.roots[0], newDigest.roots[0])
  {
  }

  /** VerifyConsistencyProof's first loop: shift fn and sn right while fn is odd. */
  method DropOnes(fn: nat, sn: nat) returns (fn': nat, sn': nat)
    ensures (fn', sn') == StripOnes(fn, sn)
  {
    fn', sn' := fn, sn;
    while fn' % 2 == 1
      invariant StripOnes(fn', sn') == StripOnes(fn, sn)
      decreases fn'
    {
      fn', sn' := fn' / 2, sn' / 2;
    }
  }

  /** The body of VerifyConsistencyProof's loop over the proof hashes, once sn is known not to be 0. */
  method FoldRound(c: Primitives, h: Bytes, fn: nat, sn: nat, fr: Bytes, sr: Bytes)
    returns (fn': nat, sn': nat, fr': Bytes, sr': Bytes)
    requires sn != 0
    ensures Step(c, Fold(fn, sn, fr, sr), h) == Some(Fold(fn', sn', fr', sr'))
  {
    fn', sn', fr', sr' := fn, sn, fr, sr;
    if fn' % 2 == 1 || fn' == sn' {
      fr' := c.hash([h, fr']);
      sr' := c.hash([h, sr']);
      while fn' % 2 == 0 && fn' != 0
        invariant StripZeros(fn', sn') == StripZeros(fn, sn)
        decreases fn'
      {
        fn', sn' := fn' / 2, sn' / 2;
      }
    } else {
      sr' := c.hash([sr', h]);
    }
    fn', sn' := fn' / 2, sn' / 2;
  }

  /** FoldAll takes one Step at a time. */
  lemma FoldCons(c: Primitives, s: Fold, hs: seq<Bytes>, i: nat)
    requires i < |hs|
    ensures FoldAll(c, s, hs[i..]) == if Step(c, s, hs[i]).None? then None else FoldAll(c, Step(c, s, hs[i]).value, hs[i + 1..])
  {
    assert hs[i..][0] == hs[i] && hs[i..][1..] == hs[i + 1..];
  }

  lemma VerifyEarly(c: Primitives, oldDigest: Digest, newDigest: Digest, proof: seq<Bytes>)
    requires RootsRead(oldDigest, newDigest, proof)
    ensures oldDigest.size == 0 ==> VerifySpec(c, oldDigest, newDigest, proof)
    ensures oldDigest.size != 0 && oldDigest.size == newDigest.size ==> (VerifySpec(c, oldDigest, newDigest, proof) <==> oldDigest.roots[0] == newDigest.roots[0])
    ensures oldDigest.size != 0 && oldDigest.size != newDigest.size && proof == [] ==> !VerifySpec(c, oldDigest, newDigest, proof)
  {
  }

  /**
   * VerifyConsistencyProof: the verdict, and the proof hashes as the call
   * leaves them (with the old root prepended when the loop is reached and
   * the old size is a power of two).
   */
  method VerifyConsistencyProof(c: Primitives, oldDigest: Digest, newDigest: Digest, proof: seq<Bytes>)
    returns (ok: bool, prefixHashes: seq<Bytes>)
    requires RootsRead(oldDigest, newDigest, proof)
    ensures ok == VerifySpec(c, oldDigest, newDigest, proof)
    ensures prefixHashes == (if oldDigest.size == 0 || oldDigest.size == newDigest.size || proof == [] then proof else Prepended(oldDigest, proof))
  {
    prefixHashes := proof;
    VerifyEarly(c, oldDigest, newDigest, proof);
    if oldDigest.size == 0 {
      return true, prefixHashes;
    }
    if oldDigest.size == newDigest.size {
      return oldDigest.roots[0] == newDigest.roots[0], prefixHashes;
    }
    if |prefixHashes| == 0 {
      return false, prefixHashes;
    }
    var oldHash, newHash := oldDigest.roots[0], newDigest.roots[0];
    if IsPow2(oldDigest.size) {
      prefixHashes := [oldHash] + prefixHashes;
    }
    var fn0: nat, sn0: nat := oldDigest.size - 1, if newDigest.size == 0 then 0xFFFF_FFFF else newDigest.size - 1;
    var fn, sn := DropOnes(fn0, sn0);
    var start := Fold(fn, sn, prefixHashes[0], prefixHashes[0]);
    VerifyLate(c, oldDigest, newDigest, proof, prefixHashes, fn0, sn0, start);
    var last := FoldLoop(c, start, prefixHashes);
    ok := last.Some? && last.value.fr == oldHash && last.value.sr == newHash && last.value.sn == 0;
  }

  /**
   * VerifyConsistencyProof's loop over the proof hashes after the first,
   * from the state start: the state it ends in, or None where it returns
   * false because sn ran out.
   */
  method FoldLoop(c: Primitives, start: Fold, hs: seq<Bytes>) returns (r: Option<Fold>)
    requires |hs| >= 1
    ensures r == FoldAll(c, start, hs[1..])
  {
    var fn, sn, fr, sr := start.fn, start.sn, start.fr, start.sr;
    var i := 1;
    while i < |hs|
      invariant 1 <= i <= |hs|
      invariant FoldAll(c, Fold(fn, sn, fr, sr), hs[i..]) == FoldAll(c, start, hs[1..])
    {
      FoldCons(c, Fold(fn, sn, fr, sr), hs, i);
      if sn == 0 {
        return None;
      }
      fn, sn, fr, sr := FoldRound(c, hs[i], fn, sn, fr, sr);
      i := i + 1;
    }
    assert hs[i..] == [];
    return Some(Fold(fn, sn, fr, sr));
  }

  // ---------------------------------------------------------------------
  // The log.

  /** The leaf hash Append computes: Hash(makePrefixFromKey(key), ComputeContentHash(key, value, signature, pos)). */
  function LeafHash(c: Primitives, key: Bytes, value: Bytes, signature: Bytes, pos: nat): Bytes
  {
    c.hash([KeyPrefix(c, key), c.contentHash(key, value, signature, pos)])
  }

  class ChronTree {
    const crypto: Primitives
    var root: Option<CNode>
    var last: Option<CNode>
    var numNodes: nat
    var maxNodes: nat
    /** The leaf hashes appended so far, in order. */
    ghost var leaves: seq<Bytes>

    /**
     * The tree is the one of section 2.1 of RFC 6962 over the leaves, last
     * is its last leaf, and maxNodes is the least power of two that holds
     * numNodes leaves (1 for the empty log).
     */
    ghost predicate Valid()
      reads this
    {
      LogState(crypto, root, last, numNodes, maxNodes, leaves)
    }

    /** NewChronTree: no nodes, room for one. */
    constructor (c: Primitives)
      ensures Valid() && crypto == c && leaves == [] && numNodes == 0 && maxNodes == 1
    {
      crypto := c;
      root, last := None, None;
      numNodes, maxNodes := 0, 1;
      leaves := [];
    }

    /** GetRootHash: Hash() of nothing for the empty log, the Merkle Tree Hash otherwise. */
    method GetRootHash() returns (h: Bytes)
      requires Valid()
      ensures h == (if numNodes == 0 then crypto.hash([]) else MTH(crypto, leaves))
    {
      if root.None? {
        return crypto.hash([]);
      }
      ShapeModels(crypto, root.value);
      return root.value.hash;
    }

    /**
     * Append: a leaf with the next id; over a full tree a new root one
     * level up, otherwise Push. The climb that reaches the root without
     * finding a gap is not reachable: it only happens on a full tree.
     */
    method Append(key: Bytes, value: Bytes, signature: Bytes)
      requires Valid()
      modifies this
      ensures Valid()
      ensures leaves == old(leaves) + [LeafHash(crypto, key, value, signature, old(numNodes))]
      ensures numNodes == old(numNodes) + 1
      ensures last == Some(CLeaf(LeafHash(crypto, key, value, signature, old(numNodes)), old(numNodes) + 1))
      ensures maxNodes == if old(numNodes) > 0 && old(numNodes) == old(maxNodes) then 2 * old(maxNodes) else old(maxNodes)
    {
      var hashVal := LeafHash(crypto, key, value, signature, numNodes);
      var leaf := CLeaf(hashVal, numNodes + 1);
      if numNodes == 0 {
        FirstLogState(crypto, hashVal, leaf);
        root, last := Some(leaf), Some(leaf);
        numNodes := 1;
        leaves := [hashVal];
        return;
      }
      AppendLeaf(hashVal, leaf);
    }

    /**
     * The rest of Append on a log that is not empty: the climb from the
     * last leaf for a gap, a new root over a full tree (and twice the
     * room), Push otherwise.
     */
    method AppendLeaf(hashVal: Bytes, leaf: CNode)
      requires Valid() && numNodes > 0 && leaf == CLeaf(hashVal, numNodes + 1)
      modifies this
      ensures Valid()
      ensures leaves == old(leaves) + [hashVal] && numNodes == old(numNodes) + 1 && last == Some(leaf)
      ensures maxNodes == if old(numNodes) == old(maxNodes) then 2 * old(maxNodes) else old(maxNodes)
    {
      var t := root.value;
      ghost var n, maxN, hs := numNodes, maxNodes, leaves;
      LogStateGap(crypto, t, last, n, maxN, hs);
      if maxNodes == numNodes {
        root := Some(Join(crypto, t, leaf, Depth(t) + 1));
        maxNodes := maxNodes * 2;
      } else {
        root := Some(Push(crypto, t, leaf));
      }
      last := Some(leaf);
      numNodes := numNodes + 1;
      leaves := leaves + [hashVal];
      GrowLogState(crypto, t, old(last), n, maxN, hs, hashVal, leaf, root, last, numNodes, maxNodes, leaves);
    }

    /**
     * GenerateConsistencyProof(oldSize, requestedSize): generateConsistencyProof
     * from the root; it walks the current tree, so the requested size is
     * the current one.
     */
    method GenerateConsistencyProof(oldSize: nat, requestedSize: nat) returns (proof: seq<Bytes>)
      requires Valid() && requestedSize == numNodes && oldSize <= requestedSize
      ensures oldSize == 0 ==> proof == []
      ensures oldSize > 0 ==> proof == SubProof(crypto, oldSize, leaves, true)
    {
      if oldSize == 0 {
        return [];
      }
      GenProofIsSubProof(crypto, root.value, oldSize, true);
      proof := GenProof(oldSize, requestedSize, root.value, true);
    }
  }

}
