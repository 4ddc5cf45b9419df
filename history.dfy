/**
 * The history forest (core/history_node.go, core/history_forest.go): an
 * append-only Merkle forest over the prefix-tree root hashes of past
 * verification periods. Its nodes live in a map keyed by their index
 * (depth, shift); a node's parent and children are the indices one level up
 * and down. The ghost sequence `leaves` records what was appended, and
 * Valid() pins every node, root and pointer of the forest to it.
 */
module HistoryForests {
  import opened Wrappers
  import opened Bits
  import opened Crypto
  import opened ForestBits

  /** One appended leaf: the prefix tree's root hash and its verification period. */
  datatype Entry = Entry(hash: NBytes, period: nat)

  /** A history node; its index is the key it is stored under. */
  datatype HNode = HNode(
    hash: NBytes,
    newestLeafHash: NBytes,
    verificationPeriod: nat,
    parent: Option<Index>,
    isRight: bool,
    completed: bool,
    left: Option<Index>,
    right: Option<Index>)

  datatype Digest = Digest(roots: seq<NBytes>, size: nat)

  datatype Sibling = Sibling(hash: NBytes)

  datatype ExtensionProof = ExtensionProof(siblings: seq<Sibling>, prefixHashes: seq<NBytes>)

  /** The capacity 1 << depth of a forest, as a uint32: zero once depth reaches 32. */
  function Cap(depth: nat): nat
  {
    if depth < 32 then Pow2(depth) else 0
  }

  function LeftOf(i: Index): Index
    requires i.depth >= 1
  {
    Index(i.depth - 1, 2 * i.shift)
  }

  function RightOf(i: Index): Index
    requires i.depth >= 1
  {
    Index(i.depth - 1, 2 * i.shift + 1)
  }

  function ParentOf(i: Index): Index
  {
    Index(i.depth + 1, i.shift / 2)
  }

  /** The ancestor j levels above i. */
  function Ancestor(i: Index, j: nat): Index
  {
    Index(i.depth + j, Shr(i.shift, j))
  }

  /** The position of the newest leaf under node i. */
  function LastLeaf(i: Index): nat
    decreases i.depth
  {
    if i.depth == 0 then i.shift else LastLeaf(RightOf(i))
  }

  /** The leaf at position p; past the end it reads as an empty leaf. */
  function LeafAt(leaves: seq<Entry>, p: nat): Entry
  {
    if p < |leaves| then leaves[p] else Entry(None, 0)
  }

  /**
   * The hash of the perfect tree at index i over the leaves: a leaf's hash
   * is the appended prefix-tree hash, an internal node's is crypto.Hash of
   * its children's hashes.
   */
  function NodeHash(c: Primitives, leaves: seq<Entry>, i: Index): NBytes
    decreases i.depth
  {
    if i.depth == 0 then LeafAt(leaves, i.shift).hash
    else Some(c.hash([Flat(NodeHash(c, leaves, LeftOf(i))), Flat(NodeHash(c, leaves, RightOf(i)))]))
  }

  lemma {:induction false} LastLeafBound(i: Index, n: nat)
    requires i.shift < Shr(n, i.depth)
    ensures LastLeaf(i) < n
    decreases i.depth
  {
    if i.depth > 0 {
      ShrSucc(n, i.depth - 1);
      LastLeafBound(RightOf(i), n);
    }
  }

  /** A complete node's hash depends only on the leaves below it. */
  lemma {:induction false} NodeHashPrefix(c: Primitives, leaves: seq<Entry>, m: nat, i: Index)
    requires m <= |leaves| && i.shift < Shr(m, i.depth)
    ensures NodeHash(c, leaves[..m], i) == NodeHash(c, leaves, i)
    decreases i.depth
  {
    if i.depth > 0 {
      ShrSucc(m, i.depth - 1);
      NodeHashPrefix(c, leaves, m, LeftOf(i));
      NodeHashPrefix(c, leaves, m, RightOf(i));
    }
  }

  lemma NodeHashAppend(c: Primitives, leaves: seq<Entry>, e: Entry, i: Index)
    requires i.shift < Shr(|leaves|, i.depth)
    ensures NodeHash(c, leaves + [e], i) == NodeHash(c, leaves, i)
    ensures LeafAt(leaves + [e], LastLeaf(i)) == LeafAt(leaves, LastLeaf(i))
  {
    NodeHashPrefix(c, leaves + [e], |leaves|, i);
    ShrMono(|leaves|, |leaves| + 1, i.depth);
    assert (leaves + [e])[..|leaves|] == leaves;
    LastLeafBound(i, |leaves|);
  }

  // ---------------------------------------------------------------------
  // The shape of a forest of s leaves.

  /** Node i exists in a forest of depth D holding n leaves: it is in the tree and starts at or before leaf n. */
  predicate InTree(i: Index, D: nat, n: nat)
  {
    i.depth <= D && i.shift < Pow2(D - i.depth) && i.shift <= Shr(n, i.depth)
  }

  /**
   * Node i exists while leaf s is being appended: the nodes of the forest
   * of s leaves, and the new nodes starting at leaf s + 1 created so far,
   * from depth TrailingOnes(s) down to depth j.
   */
  predicate ExAt(i: Index, D: nat, s: nat, j: nat)
  {
    InTree(i, D, s) || (j <= i.depth <= TrailingOnes(s) && i.depth < D && i.shift == Shr(s, i.depth) + 1)
  }

  /**
   * Node i is complete while leaf s is being appended: its leaves are all
   * before s, or it is on the path above leaf s and completed up to depth k.
   */
  predicate DoneAt(i: Index, s: nat, k: int)
  {
    i.shift < Shr(s, i.depth) || (i.shift == Shr(s, i.depth) && i.depth <= k)
  }

  predicate HasLeft(i: Index, D: nat, s: nat, j: nat)
  {
    i.depth >= 1 && ExAt(LeftOf(i), D, s, j)
  }

  predicate HasRight(i: Index, D: nat, s: nat, j: nat)
  {
    i.depth >= 1 && ExAt(RightOf(i), D, s, j)
  }

  /**
   * What node i holds: a complete node carries the hash of its leaves and
   * its newest leaf's hash and period; an incomplete one is still as
   * created. The parent and the side are fixed by the index.
   */
  function Expect(c: Primitives, D: nat, leaves: seq<Entry>, i: Index, done: bool, hasLeft: bool, hasRight: bool): HNode
  {
    HNode(
      hash := if done then NodeHash(c, leaves, i) else None,
      newestLeafHash := if done then LeafAt(leaves, LastLeaf(i)).hash else None,
      verificationPeriod := if done then LeafAt(leaves, LastLeaf(i)).period else 0,
      parent := if i.depth < D then Some(ParentOf(i)) else None,
      isRight := i.depth < D && i.shift % 2 == 1,
      completed := done,
      left := if hasLeft && i.depth >= 1 then Some(LeftOf(i)) else None,
      right := if hasRight && i.depth >= 1 then Some(RightOf(i)) else None)
  }

  ghost predicate NodeAt(nodes: map<Index, HNode>, c: Primitives, D: nat, leaves: seq<Entry>, s: nat, k: int, j: nat, i: Index)
    requires i in nodes
  {
    nodes[i] == Expect(c, D, leaves, i, DoneAt(i, s, k), HasLeft(i, D, s, j), HasRight(i, D, s, j))
  }

  /** The node map while leaf s is appended, completed up to depth k and created down to depth j. */
  ghost predicate Layout(nodes: map<Index, HNode>, c: Primitives, D: nat, leaves: seq<Entry>, s: nat, k: int, j: nat)
  {
    (forall i {:trigger ExAt(i, D, s, j)} :: i in nodes <==> ExAt(i, D, s, j)) &&
    (forall i {:trigger NodeAt(nodes, c, D, leaves, s, k, j, i)} | i in nodes :: NodeAt(nodes, c, D, leaves, s, k, j, i))
  }

  /** A forest of depth D and n leaves is laid out: every node is as its index and the leaves say. */
  ghost predicate Settled(nodes: map<Index, HNode>, c: Primitives, D: nat, leaves: seq<Entry>)
  {
    Layout(nodes, c, D, leaves, |leaves|, -1, D + 1)
  }

  /** The digest of a forest over these leaves: one perfect-tree hash per root. */
  function DigestOf(c: Primitives, leaves: seq<Entry>): (d: Digest)
    ensures d.size == |leaves| && |d.roots| == |Roots(|leaves|)|
  {
    var R := Roots(|leaves|);
    Digest(seq(|R|, r requires 0 <= r < |R| => NodeHash(c, leaves, R[r])), |leaves|)
  }

  /**
   * The newest leaf under every root of a forest over these leaves, in
   * root order: the hash and period a complete root carries as its newest
   * leaf hash and verification period.
   */
  function NewestOf(leaves: seq<Entry>): (r: seq<Entry>)
    ensures |r| == |Roots(|leaves|)|
  {
    var R := Roots(|leaves|);
    seq(|R|, k requires 0 <= k < |R| => LeafAt(leaves, LastLeaf(R[k])))
  }

  /** Each root's newest leaf is an appended one: the last leaf under it comes before the end. */
  lemma NewestAppended(leaves: seq<Entry>)
    ensures forall k :: 0 <= k < |NewestOf(leaves)| ==>
      LastLeaf(Roots(|leaves|)[k]) < |leaves| && NewestOf(leaves)[k] == leaves[LastLeaf(Roots(|leaves|)[k])]
  {
    var R := Roots(|leaves|);
    RootsDone(|leaves|);
    forall k | 0 <= k < |R|
      ensures LastLeaf(R[k]) < |leaves|
    {
      assert R[k] in R;
      LastLeafBound(R[k], |leaves|);
    }
  }

  /** The hashes of the given nodes, in order. */
  function HashesOf(nodes: map<Index, HNode>, ids: seq<Index>): (h: seq<NBytes>)
    requires forall x <- ids :: x in nodes
    ensures |h| == |ids| && forall r :: 0 <= r < |ids| ==> h[r] == nodes[ids[r]].hash
  {
    seq(|ids|, r requires 0 <= r < |ids| => nodes[ids[r]].hash)
  }

  // ---------------------------------------------------------------------
  // Facts about the shape.

  /** Every root of a forest of s leaves is a complete node. */
  lemma {:induction false} RootsDone(s: nat)
    ensures forall b <- Roots(s) :: b.shift < Shr(s, b.depth)
    decreases s
  {
    if s > 0 {
      RootsDone(s / 2);
    }
  }

  /** In a forest of depth D and at most 2^D leaves, the roots are nodes of the tree. */
  lemma RootsInTree(s: nat, D: nat)
    requires s <= Pow2(D)
    ensures forall b <- Roots(s) :: InTree(b, D, s) && b.shift < Shr(s, b.depth)
  {
    RootsDone(s);
    forall b <- Roots(s)
      ensures InTree(b, D, s)
    {
      DoneInTree(b, D, s);
    }
  }

  /** A complete node of a forest of at most 2^D leaves is in the tree. */
  lemma DoneInTree(b: Index, D: nat, s: nat)
    requires s <= Pow2(D) && b.shift < Shr(s, b.depth)
    ensures InTree(b, D, s)
  {
    ShrMono(s, Pow2(D), b.depth);
    if b.depth > D {
      Pow2Below(D, b.depth);
      ShrSmall(Pow2(D), b.depth);
    } else {
      ShrPow2(D, b.depth);
    }
  }

  lemma {:induction false} Pow2Below(a: nat, b: nat)
    requires a < b
    ensures Pow2(a) < Pow2(b)
    decreases b
  {
    if a + 1 < b {
      Pow2Below(a, b - 1);
    }
  }

  /** Ancestors of a node in the tree are in the tree. */
  lemma AncestorInTree(i: Index, D: nat, n: nat, j: nat)
    requires InTree(i, D, n) && i.depth + j <= D
    ensures InTree(Ancestor(i, j), D, n)
  {
    ShrMono(i.shift, Shr(n, i.depth), j);
    ShrShr(n, i.depth, j);
    ShrLt(i.shift, D - i.depth, j);
  }

  /** The loop of Append stops exactly at the carries of s. */
  lemma {:induction false} TrailingOnesBelow(s: nat, D: nat)
    requires s < Pow2(D)
    ensures TrailingOnes(s) <= D
    ensures TrailingOnes(s) == D ==> s + 1 == Pow2(D)
  {
    if D > 0 && s % 2 == 1 {
      TrailingOnesBelow(s / 2, D - 1);
    }
  }

  /** The node on the path above leaf s at depth d exists while s is appended. */
  lemma PathInTree(s: nat, D: nat, d: nat)
    requires s < Pow2(D) && d <= D
    ensures InTree(Index(d, Shr(s, d)), D, s)
  {
    ShrLt(s, D, d);
  }

  // ---------------------------------------------------------------------
  // The steps of Append, each on the node map.

  /** completeLeaf on leaf s turns the settled forest of s leaves into the first carry state. */
  lemma CompleteLeafStep(nodes: map<Index, HNode>, c: Primitives, D: nat, leaves: seq<Entry>, e: Entry,
                         nodes': map<Index, HNode>)
    requires Settled(nodes, c, D, leaves) && |leaves| < Pow2(D)
    requires Index(0, |leaves|) in nodes
    requires nodes' == nodes[Index(0, |leaves|) := nodes[Index(0, |leaves|)].(hash := e.hash,
      verificationPeriod := e.period, newestLeafHash := e.hash, completed := true)]
    ensures Layout(nodes', c, D, leaves + [e], |leaves|, 0, D + 1)
  {
    var s, x := |leaves|, Index(0, |leaves|);
    forall i | i in nodes'
      ensures NodeAt(nodes', c, D, leaves + [e], s, 0, D + 1, i)
    {
      assert NodeAt(nodes, c, D, leaves, s, -1, D + 1, i);
      if i != x {
        var done := DoneAt(i, s, 0);
        assert done == DoneAt(i, s, -1);
        if done {
          NodeHashAppend(c, leaves, e, i);
        }
      }
    }
  }

  /** Node n completed over children l and r: the hash of theirs, and r's newest leaf. */
  function Completed(c: Primitives, n: HNode, l: HNode, r: HNode): HNode
  {
    n.(hash := Some(c.hash([Flat(l.hash), Flat(r.hash)])), verificationPeriod := r.verificationPeriod,
      newestLeafHash := r.newestLeafHash, completed := true)
  }

  /** complete() on an internal node whose children are complete gives the complete record. */
  lemma CompletedRecord(c: Primitives, D: nat, leaves: seq<Entry>, x: Index, n: HNode, l: HNode, r: HNode)
    requires x.depth >= 1
    requires n == Expect(c, D, leaves, x, false, true, true)
    requires l.hash == NodeHash(c, leaves, LeftOf(x))
    requires r == Expect(c, D, leaves, RightOf(x), true, r.left.Some?, r.right.Some?)
    ensures Completed(c, n, l, r) == Expect(c, D, leaves, x, true, true, true)
  {
  }

  /** complete() on the parent of the path node at depth d. */
  lemma CompleteStep(nodes: map<Index, HNode>, c: Primitives, D: nat, leaves: seq<Entry>, s: nat, d: nat,
                     x: Index, nodes': map<Index, HNode>)
    requires Layout(nodes, c, D, leaves, s, d, D + 1) && |leaves| == s + 1 && s < Pow2(D)
    requires d < TrailingOnes(s) && x == Index(d + 1, Shr(s, d + 1)) && x in nodes
    requires RightOf(x) in nodes && LeftOf(x) in nodes
    requires nodes' == nodes[x := Completed(c, nodes[x], nodes[LeftOf(x)], nodes[RightOf(x)])]
    ensures Layout(nodes', c, D, leaves, s, d + 1, D + 1)
  {
    PathChild(s, d);
    assert RightOf(x) == Index(d, Shr(s, d));
    assert NodeAt(nodes, c, D, leaves, s, d, D + 1, x);
    assert NodeAt(nodes, c, D, leaves, s, d, D + 1, LeftOf(x));
    assert NodeAt(nodes, c, D, leaves, s, d, D + 1, RightOf(x));
    CompletedRecord(c, D, leaves, x, nodes[x], nodes[LeftOf(x)], nodes[RightOf(x)]);
    forall i | i in nodes'
      ensures NodeAt(nodes', c, D, leaves, s, d + 1, D + 1, i)
    {
      if i != x {
        assert NodeAt(nodes, c, D, leaves, s, d, D + 1, i);
        assert DoneAt(i, s, d + 1) == DoneAt(i, s, d);
      }
    }
  }

  /** After the carries, a full forest is settled. */
  lemma FinishFull(nodes: map<Index, HNode>, c: Primitives, D: nat, leaves: seq<Entry>, s: nat)
    requires Layout(nodes, c, D, leaves, s, TrailingOnes(s), D + 1) && |leaves| == s + 1
    requires s + 1 == Pow2(D)
    ensures Settled(nodes, c, D, leaves)
  {
    TrailingOnesBit(s);
    forall i
      ensures i in nodes <==> ExAt(i, D, s + 1, D + 1)
    {
      FullSame(i, D, s);
    }
    forall i | i in nodes
      ensures NodeAt(nodes, c, D, leaves, s + 1, -1, D + 1, i)
    {
      assert NodeAt(nodes, c, D, leaves, s, TrailingOnes(s), D + 1, i);
      DoneCarry(i, s);
      if i.depth >= 1 {
        FullSame(LeftOf(i), D, s);
        FullSame(RightOf(i), D, s);
      }
    }
  }

  /** With the carries done, a node is complete exactly when it is complete in the forest of s + 1 leaves. */
  lemma DoneCarry(i: Index, s: nat)
    ensures DoneAt(i, s, TrailingOnes(s)) <==> DoneAt(i, s + 1, -1)
  {
    ShrCarry(s, i.depth);
  }

  lemma FullSame(i: Index, D: nat, s: nat)
    requires s + 1 == Pow2(D)
    ensures ExAt(i, D, s, D + 1) <==> ExAt(i, D, s + 1, D + 1)
  {
    ShrCarry(s, i.depth);
    TrailingOnesFull(D);
    if i.depth <= D {
      ShrPow2(D, i.depth);
    }
  }

  lemma {:induction false} TrailingOnesFull(D: nat)
    ensures TrailingOnes(Pow2(D) - 1) == D
  {
    if D > 0 {
      TrailingOnesFull(D - 1);
      assert (Pow2(D) - 1) / 2 == Pow2(D - 1) - 1;
    }
  }

  /** Creating the new node y at depth j adds exactly y to the nodes that exist. */
  lemma ExAtStep(z: Index, D: nat, s: nat, j: nat, y: Index)
    requires j <= TrailingOnes(s) && j < D && y == Index(j, Shr(s, j) + 1)
    ensures ExAt(z, D, s, j) <==> ExAt(z, D, s, j + 1) || z == y
  {
  }

  /** Before any new node is created, the nodes are those of the forest of s leaves. */
  lemma ExAtNone(z: Index, D: nat, s: nat, j: nat, j': nat)
    requires j > TrailingOnes(s) && j' > TrailingOnes(s)
    ensures ExAt(z, D, s, j) <==> ExAt(z, D, s, j')
  {
  }

  /** A node none of whose children is created keeps its record. */
  lemma KeepRecord(n: HNode, c: Primitives, D: nat, leaves: seq<Entry>, s: nat, k: int, j: nat, j': nat, i: Index)
    requires n == Expect(c, D, leaves, i, DoneAt(i, s, k), HasLeft(i, D, s, j), HasRight(i, D, s, j))
    requires HasLeft(i, D, s, j) == HasLeft(i, D, s, j') && HasRight(i, D, s, j) == HasRight(i, D, s, j')
    ensures n == Expect(c, D, leaves, i, DoneAt(i, s, k), HasLeft(i, D, s, j'), HasRight(i, D, s, j'))
  {
  }

  /** A freshly created node y on the path to leaf s + 1 is incomplete and childless. */
  lemma FreshRecord(c: Primitives, D: nat, leaves: seq<Entry>, s: nat, k: int, y: Index, isRight: bool)
    requires y.depth < TrailingOnes(s) + 1 && y.depth < D && y.shift == Shr(s, y.depth) + 1
    requires isRight == (y.shift % 2 == 1)
    ensures HNode(None, None, 0, Some(ParentOf(y)), isRight, false, None, None) ==
      Expect(c, D, leaves, y, DoneAt(y, s, k), HasLeft(y, D, s, y.depth), HasRight(y, D, s, y.depth))
  {
    if y.depth >= 1 {
      PathChild(s, y.depth - 1);
    }
  }

  /** The right child of the carried root's parent is the first node of the path to leaf s + 1. */
  lemma RightPath(s: nat, x: Index)
    requires x == Index(TrailingOnes(s) + 1, Shr(s, TrailingOnes(s) + 1))
    ensures RightOf(x) == Index(TrailingOnes(s), Shr(s, TrailingOnes(s)) + 1)
    ensures ParentOf(RightOf(x)) == x && RightOf(x).shift % 2 == 1
  {
    TrailingOnesBit(s);
    ShrSucc(s, TrailingOnes(s));
  }

  /** createRightChild on the parent of the carried root starts the path to leaf s + 1. */
  lemma CreateRightStep(nodes: map<Index, HNode>, c: Primitives, D: nat, leaves: seq<Entry>, s: nat,
                        x: Index, nodes': map<Index, HNode>)
    requires Layout(nodes, c, D, leaves, s, TrailingOnes(s), D + 1) && |leaves| == s + 1
    requires TrailingOnes(s) < D && s < Pow2(D)
    requires x == Index(TrailingOnes(s) + 1, Shr(s, TrailingOnes(s) + 1)) && x in nodes
    requires nodes' == nodes[x := nodes[x].(right := Some(RightOf(x)))][RightOf(x) :=
      HNode(None, None, 0, Some(x), true, false, None, None)]
    ensures RightOf(x) == Index(TrailingOnes(s), Shr(s, TrailingOnes(s)) + 1)
    ensures Layout(nodes', c, D, leaves, s, TrailingOnes(s), TrailingOnes(s))
  {
    var t := TrailingOnes(s);
    var y := RightOf(x);
    RightPath(s, x);
    forall z
      ensures z in nodes' <==> ExAt(z, D, s, t)
    {
      ExAtStep(z, D, s, t, y);
      ExAtNone(z, D, s, t + 1, D + 1);
    }
    FreshRecord(c, D, leaves, s, t, y, true);
    forall i | i in nodes'
      ensures NodeAt(nodes', c, D, leaves, s, t, t, i)
    {
      if i != y {
        assert NodeAt(nodes, c, D, leaves, s, t, D + 1, i);
        if i.depth >= 1 {
          ExAtStep(LeftOf(i), D, s, t, y);
          ExAtNone(LeftOf(i), D, s, t + 1, D + 1);
          ExAtStep(RightOf(i), D, s, t, y);
          ExAtNone(RightOf(i), D, s, t + 1, D + 1);
        }
        if i != x {
          KeepRecord(nodes[i], c, D, leaves, s, t, D + 1, t, i);
        }
      }
    }
  }

  /** The left child of a path node at depth d >= 1 is the path node at depth d - 1. */
  lemma LeftPath(s: nat, x: Index)
    requires 1 <= x.depth <= TrailingOnes(s) && x == Index(x.depth, Shr(s, x.depth) + 1)
    ensures LeftOf(x) == Index(x.depth - 1, Shr(s, x.depth - 1) + 1)
    ensures ParentOf(LeftOf(x)) == x && LeftOf(x).shift % 2 == 0
  {
    PathChild(s, x.depth - 1);
  }

  /** createLeftChild on the new path node x at depth d. */
  lemma CreateLeftStep(nodes: map<Index, HNode>, c: Primitives, D: nat, leaves: seq<Entry>, s: nat,
                       x: Index, nodes': map<Index, HNode>)
    requires Layout(nodes, c, D, leaves, s, TrailingOnes(s), x.depth) && |leaves| == s + 1
    requires 1 <= x.depth <= TrailingOnes(s) < D && x == Index(x.depth, Shr(s, x.depth) + 1) && x in nodes
    requires nodes' == nodes[x := nodes[x].(left := Some(LeftOf(x)))][LeftOf(x) :=
      HNode(None, None, 0, Some(x), false, false, None, None)]
    ensures LeftOf(x) == Index(x.depth - 1, Shr(s, x.depth - 1) + 1)
    ensures Layout(nodes', c, D, leaves, s, TrailingOnes(s), x.depth - 1)
  {
    var t, d := TrailingOnes(s), x.depth;
    var y := LeftOf(x);
    LeftPath(s, x);
    forall z
      ensures z in nodes' <==> ExAt(z, D, s, d - 1)
    {
      ExAtStep(z, D, s, d - 1, y);
    }
    FreshRecord(c, D, leaves, s, t, y, false);
    forall i | i in nodes'
      ensures NodeAt(nodes', c, D, leaves, s, t, d - 1, i)
    {
      if i != y {
        assert NodeAt(nodes, c, D, leaves, s, t, d, i);
        if i.depth >= 1 {
          ExAtStep(LeftOf(i), D, s, d - 1, y);
          ExAtStep(RightOf(i), D, s, d - 1, y);
        }
        if i != x {
          KeepRecord(nodes[i], c, D, leaves, s, t, d, d - 1, i);
        }
      }
    }
  }

  /** With the path to leaf s + 1 created, the forest of s + 1 leaves is settled. */
  lemma FinishPartial(nodes: map<Index, HNode>, c: Primitives, D: nat, leaves: seq<Entry>, s: nat)
    requires Layout(nodes, c, D, leaves, s, TrailingOnes(s), 0) && |leaves| == s + 1
    requires s + 1 < Pow2(D)
    ensures Settled(nodes, c, D, leaves)
  {
    forall i
      ensures i in nodes <==> ExAt(i, D, s + 1, D + 1)
    {
      PartialSame(i, D, s);
    }
    forall i | i in nodes
      ensures NodeAt(nodes, c, D, leaves, s + 1, -1, D + 1, i)
    {
      assert NodeAt(nodes, c, D, leaves, s, TrailingOnes(s), 0, i);
      DoneCarry(i, s);
      if i.depth >= 1 {
        PartialSame(LeftOf(i), D, s);
        PartialSame(RightOf(i), D, s);
      }
    }
  }

  lemma PartialSame(i: Index, D: nat, s: nat)
    requires s + 1 < Pow2(D)
    ensures ExAt(i, D, s, 0) <==> ExAt(i, D, s + 1, D + 1)
  {
    ShrCarry(s, i.depth);
    TrailingOnesBelow(s, D);
    if i.depth <= TrailingOnes(s) {
      ShrLt(s + 1, D, i.depth);
    }
  }

  /** Below depth TrailingOnes(s), the path above leaf s runs through right children. */
  lemma PathChild(s: nat, d: nat)
    requires d < TrailingOnes(s)
    ensures Shr(s, d) == 2 * Shr(s, d + 1) + 1
  {
    TrailingOnesBit(s);
    assert Bit(s, d);
    ShrSucc(s, d);
  }

  /** The carry loop of Append moves up from depth d exactly while d < TrailingOnes(s). */
  lemma CarryExit(s: nat, D: nat, d: nat)
    requires s < Pow2(D) && d <= TrailingOnes(s)
    ensures (d < D && Shr(s, d) % 2 == 1) <==> d < TrailingOnes(s)
  {
    TrailingOnesBit(s);
    TrailingOnesBelow(s, D);
  }

  /** The node on the path above leaf s at depth d: it exists, its side and its parent. */
  lemma PathNode(nodes: map<Index, HNode>, c: Primitives, D: nat, leaves: seq<Entry>, s: nat, k: int, j: nat, d: nat)
    requires Layout(nodes, c, D, leaves, s, k, j) && s < Pow2(D) && d <= D
    ensures Index(d, Shr(s, d)) in nodes
    ensures nodes[Index(d, Shr(s, d))].isRight == (d < D && Shr(s, d) % 2 == 1)
    ensures d < D ==> nodes[Index(d, Shr(s, d))].parent == Some(Index(d + 1, Shr(s, d + 1)))
  {
    var x := Index(d, Shr(s, d));
    PathInTree(s, D, d);
    assert ExAt(x, D, s, j);
    assert NodeAt(nodes, c, D, leaves, s, k, j, x);
    ShrSucc(s, d);
  }

  /** During the carries, the parent of the completed path node has both children. */
  lemma CarryNode(nodes: map<Index, HNode>, c: Primitives, D: nat, leaves: seq<Entry>, s: nat, d: nat)
    requires Layout(nodes, c, D, leaves, s, d, D + 1) && s < Pow2(D) && d < TrailingOnes(s)
    ensures var x := Index(d + 1, Shr(s, d + 1));
      x in nodes && LeftOf(x) in nodes && RightOf(x) in nodes &&
      nodes[x].left == Some(LeftOf(x)) && nodes[x].right == Some(RightOf(x))
  {
    var x := Index(d + 1, Shr(s, d + 1));
    CarryChildren(s, D, d);
    assert NodeAt(nodes, c, D, leaves, s, d, D + 1, x);
  }

  /** The node above the path node at depth d < TrailingOnes(s) and both its children exist. */
  lemma CarryChildren(s: nat, D: nat, d: nat)
    requires s < Pow2(D) && d < TrailingOnes(s)
    ensures var x := Index(d + 1, Shr(s, d + 1));
      ExAt(x, D, s, D + 1) && ExAt(LeftOf(x), D, s, D + 1) && ExAt(RightOf(x), D, s, D + 1)
  {
    var x := Index(d + 1, Shr(s, d + 1));
    PathChild(s, d);
    TrailingOnesBelow(s, D);
    PathInTree(s, D, d);
    PathInTree(s, D, d + 1);
    assert RightOf(x) == Index(d, Shr(s, d));
  }

  /** One round of the merge loop of Append: complete() on x, the parent of the path node at depth d. */
  lemma MergeStep(nodes: map<Index, HNode>, c: Primitives, D: nat, leaves: seq<Entry>, s: nat, d: nat,
                  x: Index, nodes': map<Index, HNode>)
    requires Layout(nodes, c, D, leaves, s, d, D + 1) && |leaves| == s + 1 && s < Pow2(D)
    requires d < TrailingOnes(s) && x == Index(d + 1, Shr(s, d + 1))
    requires x in nodes && RightOf(x) in nodes && LeftOf(x) in nodes
    requires nodes' == nodes[x := Completed(c, nodes[x], nodes[LeftOf(x)], nodes[RightOf(x)])]
    ensures Layout(nodes', c, D, leaves, s, x.depth, D + 1)
    ensures x in nodes' && nodes'[x].isRight == (x.depth < TrailingOnes(s))
    ensures x.depth < D ==> nodes'[x].parent == Some(Index(x.depth + 1, Shr(s, x.depth + 1)))
  {
    CompleteStep(nodes, c, D, leaves, s, d, x, nodes');
    TrailingOnesBelow(s, D);
    PathNode(nodes', c, D, leaves, s, d + 1, D + 1, d + 1);
    CarryExit(s, D, d + 1);
  }

  /** A forest of s leaves has at least as many roots as s has trailing one bits. */
  lemma RootsEnough(s: nat)
    ensures |Roots(s)| >= TrailingOnes(s)
  {
    Carry(s);
  }

  /** Dropping the last of the first |R| - d roots leaves the first |R| - (d + 1). */
  lemma PopRoots(R: seq<Index>, d: nat, t: nat)
    requires d < t <= |R|
    ensures |R[..|R| - d]| > 0 && R[..|R| - d][..|R[..|R| - d]| - 1] == R[..|R| - (d + 1)]
  {
  }

  /** The node map of a new forest of depth D whose left spine is built down to depth j. */
  ghost predicate Spine(nodes: map<Index, HNode>, c: Primitives, D: nat, j: nat)
  {
    (forall i {:trigger i in nodes} :: i in nodes <==> j <= i.depth <= D && i.shift == 0) &&
    (forall i {:trigger SpineAt(nodes, c, D, j, i)} | i in nodes :: SpineAt(nodes, c, D, j, i))
  }

  /** Spine node i: incomplete, with a left child when it is above depth j. */
  ghost predicate SpineAt(nodes: map<Index, HNode>, c: Primitives, D: nat, j: nat, i: Index)
    requires i in nodes
  {
    nodes[i] == Expect(c, D, [], i, false, i.depth > j, false)
  }

  /** createLeftChild at the bottom of the spine extends it by one node. */
  lemma SpineStep(nodes: map<Index, HNode>, c: Primitives, D: nat, x: Index, nodes': map<Index, HNode>)
    requires Spine(nodes, c, D, x.depth) && 1 <= x.depth <= D && x.shift == 0
    requires nodes' == nodes[x := nodes[x].(left := Some(LeftOf(x)))][LeftOf(x) :=
      HNode(None, None, 0, Some(x), false, false, None, None)]
    ensures Spine(nodes', c, D, x.depth - 1)
  {
    var y := LeftOf(x);
    forall i
      ensures i in nodes' <==> x.depth - 1 <= i.depth <= D && i.shift == 0
    {
      assert i in nodes' <==> i == y || i in nodes;
    }
    forall i | i in nodes'
      ensures SpineAt(nodes', c, D, x.depth - 1, i)
    {
      if i == x {
        assert x in nodes && SpineAt(nodes, c, D, x.depth, x);
        SpineGrow(nodes[x], c, D, x);
      } else if i != y {
        assert i in nodes && i.depth > x.depth && SpineAt(nodes, c, D, x.depth, i);
      } else {
        SpineFresh(c, D, x);
      }
    }
  }

  lemma SpineGrow(n: HNode, c: Primitives, D: nat, x: Index)
    requires 1 <= x.depth && n == Expect(c, D, [], x, false, false, false)
    ensures n.(left := Some(LeftOf(x))) == Expect(c, D, [], x, false, true, false)
  {
  }

  lemma SpineFresh(c: Primitives, D: nat, x: Index)
    requires 1 <= x.depth <= D && x.shift == 0
    ensures HNode(None, None, 0, Some(x), false, false, None, None) == Expect(c, D, [], LeftOf(x), false, false, false)
  {
  }

  /** A spine node of a new forest has the record of the settled forest of no leaves. */
  lemma SpineRecord(c: Primitives, D: nat, i: Index)
    requires i.depth <= D && i.shift == 0
    ensures Expect(c, D, [], i, false, i.depth > 0, false) ==
      Expect(c, D, [], i, DoneAt(i, 0, -1), HasLeft(i, D, 0, D + 1), HasRight(i, D, 0, D + 1))
  {
    ShrSmall(0, i.depth);
    if i.depth >= 1 {
      ShrSmall(0, i.depth - 1);
    }
  }

  /** The full spine of a new forest is the settled forest of no leaves. */
  lemma SpineSettled(nodes: map<Index, HNode>, c: Primitives, D: nat)
    requires Spine(nodes, c, D, 0)
    ensures Settled(nodes, c, D, [])
  {
    forall i
      ensures i in nodes <==> ExAt(i, D, 0, D + 1)
    {
      ShrSmall(0, i.depth);
    }
    forall i | i in nodes
      ensures NodeAt(nodes, c, D, [], 0, -1, D + 1, i)
    {
      assert SpineAt(nodes, c, D, 0, i);
      SpineRecord(c, D, i);
    }
  }

  // ---------------------------------------------------------------------
  // Reading a settled forest.

  /**
   * isRightOf(a, b) for a node a above b: the child of a on the way down
   * to b is the right one, read off b's shift at a's child level.
   */
  function IsRightOf(a: Index, b: Index): bool
    requires a.depth > b.depth
  {
    Bit(b.shift, a.depth - 1 - b.depth)
  }

  /** The other child of i's parent. */
  function SiblingOf(i: Index): Index
  {
    if i.shift % 2 == 1 then Index(i.depth, i.shift - 1) else Index(i.depth, i.shift + 1)
  }

  /** What a node of the forest of s leaves holds as its hash: its perfect-tree hash once complete, nil before. */
  function HashIn(c: Primitives, leaves: seq<Entry>, s: nat, i: Index): NBytes
  {
    if DoneAt(i, s, -1) then NodeHash(c, leaves, i) else None
  }

  /** What a node of the forest of s leaves holds as its newest leaf hash. */
  function NewestIn(leaves: seq<Entry>, s: nat, i: Index): NBytes
  {
    if DoneAt(i, s, -1) then LeafAt(leaves, LastLeaf(i)).hash else None
  }

  /**
   * The siblings an extension proof collects in its first n steps up from
   * node i: the hash of the right sibling of every left child on the way.
   */
  function RightSiblings(c: Primitives, leaves: seq<Entry>, s: nat, i: Index, n: nat): seq<Sibling>
  {
    if n == 0 then [] else
      var last := if Bit(i.shift, n - 1) then [] else [Sibling(HashIn(c, leaves, s, RightOf(Ancestor(i, n))))];
      RightSiblings(c, leaves, s, i, n - 1) + last
  }

  /** A node of a settled forest is present and holds its record. */
  lemma SettledNode(nodes: map<Index, HNode>, c: Primitives, D: nat, leaves: seq<Entry>, i: Index)
    requires Settled(nodes, c, D, leaves) && InTree(i, D, |leaves|)
    ensures i in nodes && NodeAt(nodes, c, D, leaves, |leaves|, -1, D + 1, i)
    ensures nodes[i].hash == HashIn(c, leaves, |leaves|, i)
    ensures nodes[i].newestLeafHash == NewestIn(leaves, |leaves|, i)
  {
    assert ExAt(i, D, |leaves|, D + 1);
  }

  /** One step up from the ancestor k levels above i. */
  lemma AncestorStep(i: Index, k: nat)
    ensures ParentOf(Ancestor(i, k)) == Ancestor(i, k + 1)
    ensures (Ancestor(i, k).shift % 2 == 1) == Bit(i.shift, k)
    ensures Bit(i.shift, k) ==> Ancestor(i, k) == RightOf(Ancestor(i, k + 1))
    ensures !Bit(i.shift, k) ==> Ancestor(i, k) == LeftOf(Ancestor(i, k + 1))
    ensures SiblingOf(Ancestor(i, k)) ==
      (if Bit(i.shift, k) then LeftOf(Ancestor(i, k + 1)) else RightOf(Ancestor(i, k + 1)))
  {
    ShrSucc(i.shift, k);
  }

  /**
   * Going down from the ancestor j levels above a node i of a settled
   * forest, the child toward i is linked on the side IsRightOf says.
   */
  lemma ChildToward(nodes: map<Index, HNode>, c: Primitives, D: nat, leaves: seq<Entry>, i: Index, j: nat)
    requires Settled(nodes, c, D, leaves) && InTree(i, D, |leaves|) && 1 <= j && i.depth + j <= D
    ensures Ancestor(i, j) in nodes && Ancestor(i, j - 1) in nodes
    ensures IsRightOf(Ancestor(i, j), i) ==> nodes[Ancestor(i, j)].right == Some(Ancestor(i, j - 1))
    ensures !IsRightOf(Ancestor(i, j), i) ==> nodes[Ancestor(i, j)].left == Some(Ancestor(i, j - 1))
  {
    AncestorInTree(i, D, |leaves|, j);
    AncestorInTree(i, D, |leaves|, j - 1);
    AncestorStep(i, j - 1);
    SettledNode(nodes, c, D, leaves, Ancestor(i, j));
    SettledNode(nodes, c, D, leaves, Ancestor(i, j - 1));
  }

  /**
   * A node of a settled forest below the top whose sibling exists: its
   * parent link, its side, the parent's link to the sibling and the
   * sibling's hash.
   */
  lemma SiblingLink(nodes: map<Index, HNode>, c: Primitives, D: nat, leaves: seq<Entry>, i: Index)
    requires Settled(nodes, c, D, leaves) && InTree(i, D, |leaves|) && i.depth < D
    requires InTree(SiblingOf(i), D, |leaves|)
    ensures i in nodes && nodes[i].parent == Some(ParentOf(i)) && ParentOf(i) in nodes
    ensures nodes[i].isRight == (i.shift % 2 == 1)
    ensures (if nodes[i].isRight then nodes[ParentOf(i)].left else nodes[ParentOf(i)].right) == Some(SiblingOf(i))
    ensures SiblingOf(i) in nodes && nodes[SiblingOf(i)].hash == HashIn(c, leaves, |leaves|, SiblingOf(i))
  {
    var P := ParentOf(i);
    AncestorInTree(i, D, |leaves|, 1);
    ShrSucc(i.shift, 0);
    SiblingIndex(i);
    SettledNode(nodes, c, D, leaves, i);
    SettledNode(nodes, c, D, leaves, P);
    SettledNode(nodes, c, D, leaves, SiblingOf(i));
    assert HasLeft(P, D, |leaves|, D + 1) && HasRight(P, D, |leaves|, D + 1) by {
      assert ExAt(i, D, |leaves|, D + 1) && ExAt(SiblingOf(i), D, |leaves|, D + 1);
    }
  }

  /** A node and its sibling are the two children of its parent. */
  lemma SiblingIndex(i: Index)
    ensures ParentOf(i).depth >= 1
    ensures i.shift % 2 == 1 ==> i == RightOf(ParentOf(i)) && SiblingOf(i) == LeftOf(ParentOf(i))
    ensures i.shift % 2 == 0 ==> i == LeftOf(ParentOf(i)) && SiblingOf(i) == RightOf(ParentOf(i))
  {
  }

  /** A root of the forest of m <= |leaves| leaves is present, and its hash covers the first m leaves. */
  lemma RootHash(nodes: map<Index, HNode>, c: Primitives, D: nat, leaves: seq<Entry>, m: nat, x: Index)
    requires Settled(nodes, c, D, leaves) && |leaves| <= Pow2(D) && m <= |leaves| && x in Roots(m)
    ensures x in nodes && nodes[x].hash == NodeHash(c, leaves[..m], x)
  {
    RootsDone(m);
    ShrMono(m, |leaves|, x.depth);
    DoneInTree(x, D, |leaves|);
    SettledNode(nodes, c, D, leaves, x);
    NodeHashPrefix(c, leaves, m, x);
  }

  /** For oldSize at most the n leaves of a forest of depth D, the roots getOldRoots reads are those of oldSize, and they exist. */
  lemma OldRootsExist(D: nat, n: nat, oldSize: nat)
    requires oldSize <= n <= Pow2(D)
    ensures Low(oldSize, D + 1) == oldSize
    ensures forall x <- Roots(oldSize) :: InTree(x, D, n)
  {
    Pow2Below(D, D + 1);
    LowOfSmall(oldSize, D + 1);
    RootsDone(oldSize);
    forall x <- Roots(oldSize)
      ensures InTree(x, D, n)
    {
      ShrMono(oldSize, n, x.depth);
      DoneInTree(x, D, n);
    }
  }

  /** Every node of a settled forest is in the tree. */
  lemma PresentInTree(nodes: map<Index, HNode>, c: Primitives, D: nat, leaves: seq<Entry>, i: Index)
    requires Settled(nodes, c, D, leaves) && i in nodes
    ensures InTree(i, D, |leaves|)
  {
    assert ExAt(i, D, |leaves|, D + 1);
  }

  /** getSibling does not fail: node i has a parent, and the parent has the child on the other side. */
  predicate SiblingReady(nodes: map<Index, HNode>, i: Index)
  {
    i in nodes && nodes[i].parent.Some? && nodes[i].parent.value in nodes &&
    var p := nodes[nodes[i].parent.value];
    var other := if nodes[i].isRight then p.left else p.right;
    other.Some? && other.value in nodes
  }

  /** getSibling: the hash of the other child of node i's parent. */
  function GetSibling(nodes: map<Index, HNode>, i: Index): Sibling
    requires SiblingReady(nodes, i)
  {
    var p := nodes[nodes[i].parent.value];
    var other := if nodes[i].isRight then p.left else p.right;
    Sibling(nodes[other.value].hash)
  }

  /** In a settled forest, getSibling returns what the sibling index holds. */
  lemma SiblingOfSettled(nodes: map<Index, HNode>, c: Primitives, D: nat, leaves: seq<Entry>, i: Index)
    requires Settled(nodes, c, D, leaves) && InTree(i, D, |leaves|) && i.depth < D
    requires InTree(SiblingOf(i), D, |leaves|)
    ensures SiblingReady(nodes, i)
    ensures GetSibling(nodes, i) == Sibling(HashIn(c, leaves, |leaves|, SiblingOf(i)))
  {
    SiblingLink(nodes, c, D, leaves, i);
  }

  /**
   * Step k of the climb from node i of a settled forest: the k-th
   * ancestor's side and parent, the parent's newest leaf hash, and for a
   * left child whose right sibling exists, that sibling's hash.
   */
  lemma ClimbStep(nodes: map<Index, HNode>, c: Primitives, D: nat, leaves: seq<Entry>, i: Index, k: nat)
    requires Settled(nodes, c, D, leaves) && InTree(i, D, |leaves|) && i.depth + k < D
    requires !Bit(i.shift, k) ==> InTree(RightOf(Ancestor(i, k + 1)), D, |leaves|)
    ensures Ancestor(i, k) in nodes && nodes[Ancestor(i, k)].parent == Some(Ancestor(i, k + 1))
    ensures nodes[Ancestor(i, k)].isRight == Bit(i.shift, k)
    ensures Ancestor(i, k + 1) in nodes
    ensures nodes[Ancestor(i, k + 1)].newestLeafHash == NewestIn(leaves, |leaves|, Ancestor(i, k + 1))
    ensures !Bit(i.shift, k) ==> SiblingReady(nodes, Ancestor(i, k))
    ensures !Bit(i.shift, k) ==>
      GetSibling(nodes, Ancestor(i, k)) == Sibling(HashIn(c, leaves, |leaves|, RightOf(Ancestor(i, k + 1))))
  {
    AncestorInTree(i, D, |leaves|, k);
    AncestorInTree(i, D, |leaves|, k + 1);
    AncestorStep(i, k);
    SettledNode(nodes, c, D, leaves, Ancestor(i, k));
    SettledNode(nodes, c, D, leaves, Ancestor(i, k + 1));
    if !Bit(i.shift, k) {
      SiblingOfSettled(nodes, c, D, leaves, Ancestor(i, k));
    }
  }

  /**
   * The position, from k on, of the first old root whose hash differs from
   * the requested forest's root at the same position, or |a| when none
   * does; a position past the end of b counts as a difference.
   */
  function MismatchFrom(a: seq<NBytes>, b: seq<NBytes>, k: nat): (i: nat)
    requires k <= |a|
    ensures k <= i <= |a|
    ensures i == k || i <= |b|
    ensures forall j :: k <= j < i ==> BytesEqual(a[j], b[j])
    ensures i < |a| ==> i >= |b| || !BytesEqual(a[i], b[i])
    decreases |a| - k
  {
    if k == |a| then k
    else if k < |b| && BytesEqual(a[k], b[k]) then MismatchFrom(a, b, k + 1)
    else k
  }

  /** The loop of GenerateExtensionProof: compare the old roots' hashes with the requested ones, in order, up to the first difference. */
  method FindMismatch(nodes: map<Index, HNode>, oldRoots: seq<Index>, roots: seq<Index>) returns (i: nat)
    requires forall x <- oldRoots :: x in nodes
    requires forall x <- roots :: x in nodes
    ensures i == MismatchFrom(HashesOf(nodes, oldRoots), HashesOf(nodes, roots), 0)
  {
    ghost var a, b := HashesOf(nodes, oldRoots), HashesOf(nodes, roots);
    i := 0;
    while i < |oldRoots|
      invariant i <= |oldRoots| && MismatchFrom(a, b, i) == MismatchFrom(a, b, 0)
    {
      if i >= |roots| || !BytesEqual(nodes[oldRoots[i]].hash, nodes[roots[i]].hash) {
        return;
      }
      i := i + 1;
    }
  }

  // ---------------------------------------------------------------------
  // The forest.

  class HistoryForest {
    var nodes: map<Index, HNode>
    var roots: seq<Index>
    var next: Index
    var size: nat
    const depth: nat
    const crypto: Primitives
    /** The leaves appended so far. */
    ghost var leaves: seq<Entry>

    /** The root node's index: the tree is complete at depth `depth`. */
    function Root(): Index
      reads this
    {
      Index(depth, 0)
    }

    /** isFull */
    predicate Full()
      reads this
    {
      size == Cap(depth)
    }

    ghost predicate Valid()
      reads this
    {
      size == |leaves| && size <= Cap(depth) &&
      Settled(nodes, crypto, depth, leaves) &&
      roots == Roots(size) &&
      next == Index(0, if size < Cap(depth) || size == 0 then size else size - 1)
    }

    /** NewHistoryForest: the root and the path of left children down to the first leaf. */
    constructor (d: nat, c: Primitives)
      ensures Valid() && depth == d && crypto == c && leaves == []
      ensures Root() in nodes && next in nodes
    {
      depth, crypto := d, c;
      size, roots, leaves := 0, [], [];
      nodes := map[Index(d, 0) := HNode(None, None, 0, None, false, false, None, None)];
      next := Index(d, 0);
      new;
      var n := next;
      while n.depth > 0
        invariant n == Index(n.depth, 0) && n.depth <= depth && size == 0 && leaves == [] && roots == []
        invariant Spine(nodes, crypto, depth, n.depth)
      {
        ghost var before := nodes;
        var child := CreateLeftChild(n);
        SpineStep(before, crypto, depth, n, nodes);
        n := child;
      }
      assert Index(depth, 0) in nodes && n in nodes;
      next := n;
      SpineSettled(nodes, crypto, depth);
    }

    /** completeLeaf: a leaf takes the appended hash and period. */
    method CompleteLeaf(i: Index, verificationPeriod: nat, baseTreeHash: NBytes)
      requires i in nodes
      modifies this
      ensures nodes == old(nodes)[i := old(nodes)[i].(hash := baseTreeHash,
        verificationPeriod := verificationPeriod, newestLeafHash := baseTreeHash, completed := true)]
      ensures roots == old(roots) && next == old(next) && size == old(size) && leaves == old(leaves)
    {
      var node := nodes[i];
      nodes := nodes[i := node.(hash := baseTreeHash, verificationPeriod := verificationPeriod,
        newestLeafHash := baseTreeHash, completed := true)];
    }

    /** complete() on an internal node: its hash is crypto.Hash of its children's, its newest leaf its right child's. */
    method Complete(i: Index)
      requires i in nodes && nodes[i].left.Some? && nodes[i].right.Some?
      requires nodes[i].left.value in nodes && nodes[i].right.value in nodes
      modifies this
      ensures nodes == old(nodes)[i := Completed(crypto, old(nodes)[i], old(nodes)[old(nodes)[i].left.value],
        old(nodes)[old(nodes)[i].right.value])]
      ensures roots == old(roots) && next == old(next) && size == old(size) && leaves == old(leaves)
    {
      var node := nodes[i];
      var l, r := nodes[node.left.value], nodes[node.right.value];
      nodes := nodes[i := node.(hash := Some(crypto.hash([Flat(l.hash), Flat(r.hash)])),
        verificationPeriod := r.verificationPeriod, newestLeafHash := r.newestLeafHash, completed := true)];
    }

    /** createRightChild: a fresh incomplete child at shift 2 * shift + 1, stored on the parent. */
    method CreateRightChild(i: Index) returns (child: Index)
      requires i in nodes && i.depth >= 1
      modifies this
      ensures child == RightOf(i)
      ensures nodes == old(nodes)[i := old(nodes)[i].(right := Some(child))][child :=
        HNode(None, None, 0, Some(i), true, false, None, None)]
      ensures roots == old(roots) && next == old(next) && size == old(size) && leaves == old(leaves)
    {
      child := Index(i.depth - 1, 2 * i.shift + 1);
      nodes := nodes[i := nodes[i].(right := Some(child))];
      nodes := nodes[child := HNode(None, None, 0, Some(i), true, false, None, None)];
    }

    /** createLeftChild: a fresh incomplete child at shift 2 * shift, stored on the parent. */
    method CreateLeftChild(i: Index) returns (child: Index)
      requires i in nodes && i.depth >= 1
      modifies this
      ensures child == LeftOf(i)
      ensures nodes == old(nodes)[i := old(nodes)[i].(left := Some(child))][child :=
        HNode(None, None, 0, Some(i), false, false, None, None)]
      ensures roots == old(roots) && next == old(next) && size == old(size) && leaves == old(leaves)
    {
      child := Index(i.depth - 1, 2 * i.shift);
      nodes := nodes[i := nodes[i].(left := Some(child))];
      nodes := nodes[child := HNode(None, None, 0, Some(i), false, false, None, None)];
    }

    /** pop: drop the last root. */
    method Pop() returns (node: Index)
      requires |roots| > 0
      modifies this
      ensures node == old(roots)[|old(roots)| - 1] && roots == old(roots)[..|old(roots)| - 1]
      ensures nodes == old(nodes) && next == old(next) && size == old(size) && leaves == old(leaves)
    {
      node := roots[|roots| - 1];
      roots := roots[..|roots| - 1];
    }

    /** addRoot */
    method AddRoot(node: Index)
      modifies this
      ensures roots == old(roots) + [node]
      ensures nodes == old(nodes) && next == old(next) && size == old(size) && leaves == old(leaves)
    {
      roots := roots + [node];
    }

    /**
     * Append: complete the next leaf, merge the trees it completes into one
     * root, and create the path to the following leaf. A full forest is left
     * as it is. The next leaf must be a leaf node, which it is unless the
     * forest has depth 0.
     */
    method Append(prefixTreeHash: NBytes, verificationPeriod: nat)
      requires Valid()
      requires depth >= 1 || Full()
      modifies this
      ensures Valid()
      ensures old(Full()) ==> leaves == old(leaves) && size == old(size)
      ensures !old(Full()) ==> leaves == old(leaves) + [Entry(prefixTreeHash, verificationPeriod)]
      ensures !old(Full()) ==> size == old(size) + 1
    {
      if Full() {
        return;
      }
      var s := size;
      ghost var e := Entry(prefixTreeHash, verificationPeriod);
      assert depth < 32 && s < Pow2(depth);
      PathInTree(s, depth, 0);
      assert ExAt(next, depth, s, depth + 1);
      CompleteLeaf(next, verificationPeriod, prefixTreeHash);
      CompleteLeafStep(old(nodes), crypto, depth, leaves, e, nodes);
      leaves := leaves + [e];
      size := size + 1;
      var p := MergeCompleted(s);
      Carry(s);
      AddRoot(p);
      if Full() {
        FinishFull(nodes, crypto, depth, leaves, s);
        return;
      }
      TrailingOnesBelow(s, depth);
      p := CreatePath(p, s);
      next := p;
      FinishPartial(nodes, crypto, depth, leaves, s);
    }

    /**
     * The first loop of Append: while the node just completed is a right
     * child, complete its parent and drop the root it replaces.
     */
    method MergeCompleted(ghost s: nat) returns (p: Index)
      requires |leaves| == s + 1 && s < Pow2(depth) && roots == Roots(s)
      requires next == Index(0, s) && Layout(nodes, crypto, depth, leaves, s, 0, depth + 1)
      modifies this
      ensures p == Index(TrailingOnes(s), Shr(s, TrailingOnes(s))) && p in nodes
      ensures Layout(nodes, crypto, depth, leaves, s, TrailingOnes(s), depth + 1)
      ensures |Roots(s)| >= TrailingOnes(s) && roots == Roots(s)[..|Roots(s)| - TrailingOnes(s)]
      ensures TrailingOnes(s) < depth ==> nodes[p].parent == Some(Index(TrailingOnes(s) + 1, Shr(s, TrailingOnes(s) + 1)))
      ensures next == old(next) && size == old(size) && leaves == old(leaves)
    {
      ghost var R, t := Roots(s), TrailingOnes(s);
      RootsEnough(s);
      TrailingOnesBelow(s, depth);
      p := next;
      PathNode(nodes, crypto, depth, leaves, s, 0, depth + 1, 0);
      CarryExit(s, depth, 0);
      while nodes[p].isRight
        invariant next == old(next) && size == old(size) && leaves == old(leaves)
        invariant p.depth <= t && p == Index(p.depth, Shr(s, p.depth))
        invariant Layout(nodes, crypto, depth, leaves, s, p.depth, depth + 1)
        invariant p in nodes && nodes[p].isRight == (p.depth < t)
        invariant p.depth < depth ==> nodes[p].parent == Some(Index(p.depth + 1, Shr(s, p.depth + 1)))
        invariant roots == R[..|R| - p.depth]
        decreases depth - p.depth
      {
        ghost var d := p.depth;
        p := nodes[p].parent.value;
        assert p == Index(d + 1, Shr(s, d + 1));
        CarryNode(nodes, crypto, depth, leaves, s, d);
        ghost var before := nodes;
        Complete(p);
        MergeStep(before, crypto, depth, leaves, s, d, p, nodes);
        PopRoots(R, d, t);
        var _ := Pop();
      }
    }

    /**
     * The end of Append when the forest is not full: a right child under the
     * parent of the new root, then left children down to the next leaf.
     */
    method CreatePath(p: Index, ghost s: nat) returns (leaf: Index)
      requires |leaves| == s + 1 && s + 1 < Pow2(depth) && TrailingOnes(s) < depth
      requires p == Index(TrailingOnes(s), Shr(s, TrailingOnes(s))) && p in nodes
      requires nodes[p].parent == Some(Index(TrailingOnes(s) + 1, Shr(s, TrailingOnes(s) + 1)))
      requires Layout(nodes, crypto, depth, leaves, s, TrailingOnes(s), depth + 1)
      modifies this
      ensures leaf == Index(0, s + 1)
      ensures Layout(nodes, crypto, depth, leaves, s, TrailingOnes(s), 0)
      ensures roots == old(roots) && next == old(next) && size == old(size) && leaves == old(leaves)
    {
      var t := p.depth;
      PathNode(nodes, crypto, depth, leaves, s, t, depth + 1, t + 1);
      var par := nodes[p].parent.value;
      ghost var before := nodes;
      var _ := CreateRightChild(par);
      CreateRightStep(before, crypto, depth, leaves, s, par, nodes);
      leaf := nodes[par].right.value;
      while leaf.depth > 0
        invariant roots == old(roots) && next == old(next) && size == old(size) && leaves == old(leaves)
        invariant leaf.depth <= t && leaf == Index(leaf.depth, Shr(s, leaf.depth) + 1) && leaf in nodes
        invariant Layout(nodes, crypto, depth, leaves, s, t, leaf.depth)
      {
        before := nodes;
        var child := CreateLeftChild(leaf);
        CreateLeftStep(before, crypto, depth, leaves, s, leaf, nodes);
        leaf := child;
      }
    }

    /** Every root holds the perfect-tree hash of its leaves; there is one root per set bit of the size. */
    lemma RootsPopcount()
      requires Valid()
      ensures |roots| == Popcount(size)
      ensures forall x <- roots :: x in nodes && nodes[x].hash == NodeHash(crypto, leaves, x)
    {
      RootsCount(size);
      assert leaves[..size] == leaves;
      forall x <- roots
        ensures x in nodes && nodes[x].hash == NodeHash(crypto, leaves, x)
      {
        RootHash(nodes, crypto, depth, leaves, size, x);
      }
    }

    /** Every root is complete: its newest leaf hash and verification period are those of the newest leaf under it. */
    lemma RootsNewest()
      requires Valid()
      ensures |roots| == |NewestOf(leaves)|
      ensures forall k :: 0 <= k < |roots| ==>
        (roots[k] in nodes && nodes[roots[k]].newestLeafHash == NewestOf(leaves)[k].hash &&
         nodes[roots[k]].verificationPeriod == NewestOf(leaves)[k].period)
    {
      if depth < 32 {
        RootsInTree(size, depth);
      }
      forall k | 0 <= k < |roots|
        ensures roots[k] in nodes && nodes[roots[k]].newestLeafHash == NewestOf(leaves)[k].hash &&
          nodes[roots[k]].verificationPeriod == NewestOf(leaves)[k].period
      {
        assert roots[k] in roots;
        SettledNode(nodes, crypto, depth, leaves, roots[k]);
      }
    }

    /** The roots getOldRoots reads for oldSize: the set bits of oldSize up to bit depth, none once 1 << depth is zero. */
    function OldRootIds(oldSize: nat): seq<Index>
      reads this
    {
      if depth < 32 then Roots(Low(oldSize, depth + 1)) else []
    }

    /** For a size the forest has passed, the old roots are those of that size, and they exist. */
    lemma OldRootsPresent(oldSize: nat)
      requires Valid() && oldSize <= size
      ensures OldRootIds(oldSize) == Roots(oldSize)
      ensures forall x <- OldRootIds(oldSize) :: x in nodes
    {
      if depth < 32 {
        OldRootsExist(depth, size, oldSize);
        forall x <- Roots(oldSize)
          ensures x in nodes
        {
          SettledNode(nodes, crypto, depth, leaves, x);
        }
      }
    }

    /** getNodeFromIndex: walk down from the root, turning toward the index at every level. */
    method GetNodeFromIndex(index: Index) returns (node: Index)
      requires Valid() && index in nodes
      ensures node == index
    {
      PresentInTree(nodes, crypto, depth, leaves, index);
      ShrSmall(index.shift, depth - index.depth);
      SettledNode(nodes, crypto, depth, leaves, Root());
      node := Root();
      assert node == Ancestor(index, depth - index.depth);
      while node.depth != index.depth
        invariant index.depth <= node.depth <= depth
        invariant node == Ancestor(index, node.depth - index.depth)
        decreases node.depth
      {
        ghost var j := node.depth - index.depth;
        ChildToward(nodes, crypto, depth, leaves, index, j);
        if IsRightOf(node, index) {
          node := nodes[node].right.value;
        } else {
          node := nodes[node].left.value;
        }
        assert node == Ancestor(index, j - 1);
      }
      assert Shr(index.shift, 0) == index.shift;
    }

    /** getNode */
    method GetNode(d: nat, shift: nat) returns (node: Index)
      requires Valid() && Index(d, shift) in nodes
      ensures node == Index(d, shift)
    {
      node := GetNodeFromIndex(Index(d, shift));
    }

    /**
     * getLeafNode: walk down from the root by the bits of pos, high to low.
     * Only the low `depth` bits of pos steer, so the walk ends at leaf
     * Low(pos, depth); that leaf holds the appended hash once pos is below
     * the size.
     */
    method GetLeafNode(pos: nat) returns (leaf: Index)
      requires Valid() && Index(0, Low(pos, depth)) in nodes
      ensures leaf == Index(0, Low(pos, depth))
      ensures Low(pos, depth) < size ==> nodes[leaf].completed && nodes[leaf].hash == leaves[Low(pos, depth)].hash
    {
      ghost var target := Index(0, Low(pos, depth));
      LowBound(pos, depth);
      ShrSmall(target.shift, depth);
      PresentInTree(nodes, crypto, depth, leaves, target);
      SettledNode(nodes, crypto, depth, leaves, Root());
      leaf := Root();
      while leaf.depth > 0
        invariant leaf.depth <= depth && leaf == Ancestor(target, leaf.depth) && leaf in nodes
      {
        var shift := leaf.depth - 1;
        ChildToward(nodes, crypto, depth, leaves, target, leaf.depth);
        LowBit(pos, depth, shift);
        if Bit(pos, shift) {
          leaf := nodes[leaf].right.value;
        } else {
          leaf := nodes[leaf].left.value;
        }
      }
      SettledNode(nodes, crypto, depth, leaves, target);
    }

    /**
     * getOldRoots: scan the bits of oldSize from bit depth down; each set
     * bit k names the root at depth k that starts after the larger roots
     * already taken.
     */
    method GetOldRoots(oldSize: nat) returns (r: seq<Index>)
      requires Valid() && forall x <- OldRootIds(oldSize) :: x in nodes
      ensures r == OldRootIds(oldSize)
    {
      r := [];
      var total: nat := 0;
      var k: nat := if depth < 32 then depth + 1 else 0;
      ghost var K := k;
      OldRootsAreRoots(oldSize, K, 0);
      ShlZero(K);
      assert OldRoots(oldSize, K, 0) == OldRootIds(oldSize);
      while k > 0
        invariant k <= K && r + OldRoots(oldSize, k, total) == OldRoots(oldSize, K, 0)
      {
        if Bit(oldSize, k - 1) {
          assert OldRoots(oldSize, K, 0)[|r|] == Index(k - 1, Shr(total, k - 1));
          var x := GetNode(k - 1, Shr(total, k - 1));
          r := r + [x];
          total := total + Pow2(k - 1);
        }
        k := k - 1;
      }
    }

    /** GetDigest: the hashes of the current roots and the size. */
    method GetDigest() returns (d: Digest)
      requires Valid()
      ensures d == DigestOf(crypto, leaves)
    {
      RootsPopcount();
      ghost var want := DigestOf(crypto, leaves);
      assert |want.roots| == |roots|;
      var hashes: seq<NBytes> := [];
      for i := 0 to |roots|
        invariant hashes == want.roots[..i]
      {
        assert roots[i] in roots;
        hashes := hashes + [nodes[roots[i]].hash];
      }
      assert hashes == want.roots;
      d := Digest(hashes, size);
    }

    /**
     * GetOldDigest: the hashes of the old roots and oldSize. For a size the
     * forest has passed it is the digest the forest had at that size; at the
     * current size it is GetDigest's.
     */
    method GetOldDigest(oldSize: nat) returns (d: Digest)
      requires Valid() && forall x <- OldRootIds(oldSize) :: x in nodes
      ensures d == Digest(HashesOf(nodes, OldRootIds(oldSize)), oldSize)
      ensures oldSize <= size ==> d == DigestOf(crypto, leaves[..oldSize])
      ensures oldSize == size ==> d == DigestOf(crypto, leaves)
    {
      var oldRoots := GetOldRoots(oldSize);
      var hashes: seq<NBytes> := [];
      for i := 0 to |oldRoots|
        invariant |hashes| == i && forall r :: 0 <= r < i ==> hashes[r] == nodes[oldRoots[r]].hash
      {
        hashes := hashes + [nodes[oldRoots[i]].hash];
      }
      d := Digest(hashes, oldSize);
      if oldSize <= size {
        OldRootsPresent(oldSize);
        forall x <- oldRoots
          ensures nodes[x].hash == NodeHash(crypto, leaves[..oldSize], x)
        {
          RootHash(nodes, crypto, depth, leaves, oldSize, x);
        }
        assert leaves[..size] == leaves;
      }
    }

    /** Climbing from node to depth target does not fail: every left child on the way has a right sibling. */
    ghost predicate PathDefined(node: Index, target: nat)
      reads this
    {
      InTree(node, depth, size) && node.depth <= target <= depth &&
      forall k :: 0 <= k < target - node.depth && !Bit(node.shift, k) ==>
        InTree(RightOf(Ancestor(node, k + 1)), depth, size)
    }

    /**
     * The proof of the climb from node to depth target: the newest leaf
     * hash of every ancestor on the way, and the hash of the right sibling
     * of every left child on the way.
     */
    ghost predicate PathProof(proof: ExtensionProof, node: Index, target: nat)
      reads this
      requires node.depth <= target
    {
      |proof.prefixHashes| == target - node.depth &&
      (forall k :: 0 <= k < target - node.depth ==>
        proof.prefixHashes[k] == NewestIn(leaves, size, Ancestor(node, k + 1))) &&
      proof.siblings == RightSiblings(crypto, leaves, size, node, target - node.depth)
    }

    /** generateHistoryForestExtensionProof */
    method ExtensionPath(node: Index, target: nat) returns (proof: ExtensionProof)
      requires Valid() && PathDefined(node, target)
      ensures PathProof(proof, node, target)
    {
      var siblings: seq<Sibling> := [];
      var prefixHashes: seq<NBytes> := [];
      var p := node;
      while p.depth != target
        invariant node.depth <= p.depth <= target && p == Ancestor(node, p.depth - node.depth)
        invariant |prefixHashes| == p.depth - node.depth
        invariant forall k :: 0 <= k < |prefixHashes| ==> prefixHashes[k] == NewestIn(leaves, size, Ancestor(node, k + 1))
        invariant siblings == RightSiblings(crypto, leaves, size, node, p.depth - node.depth)
        decreases target - p.depth
      {
        ClimbStep(nodes, crypto, depth, leaves, node, p.depth - node.depth);
        if !nodes[p].isRight {
          siblings := siblings + [GetSibling(nodes, p)];
        }
        var parent := nodes[p].parent.value;
        prefixHashes := prefixHashes + [nodes[parent].newestLeafHash];
        p := parent;
      }
      proof := ExtensionProof(siblings, prefixHashes);
    }

    /**
     * GenerateExtensionProof does not fail for old roots a and requested
     * roots b: where a first differs from b, b has a root, and the climb from
     * the last old root to that root's depth is defined.
     */
    ghost predicate ExtensionDefined(a: seq<Index>, b: seq<Index>)
      reads this
      requires forall x <- a :: x in nodes
      requires forall x <- b :: x in nodes
    {
      var i := MismatchFrom(HashesOf(nodes, a), HashesOf(nodes, b), 0);
      i < |a| ==> i < |b| && PathDefined(a[|a| - 1], b[i].depth)
    }

    /**
     * The extension proof from old roots a to requested roots b: empty while
     * a matches b; otherwise the climb from the last old root to the depth
     * of the first root of b that differs.
     */
    ghost predicate ExtensionOf(proof: ExtensionProof, a: seq<Index>, b: seq<Index>)
      reads this
      requires forall x <- a :: x in nodes
      requires forall x <- b :: x in nodes
    {
      var i := MismatchFrom(HashesOf(nodes, a), HashesOf(nodes, b), 0);
      (i == |a| ==> proof == ExtensionProof([], [])) &&
      (i < |a| ==> i < |b| && a[|a| - 1].depth <= b[i].depth && PathProof(proof, a[|a| - 1], b[i].depth))
    }

    /** GenerateExtensionProof; between equal sizes the proof is empty. */
    method GenerateExtensionProof(oldSize: nat, requestedSize: nat) returns (proof: ExtensionProof)
      requires Valid()
      requires forall x <- OldRootIds(oldSize) :: x in nodes
      requires forall x <- OldRootIds(requestedSize) :: x in nodes
      requires ExtensionDefined(OldRootIds(oldSize), OldRootIds(requestedSize))
      ensures ExtensionOf(proof, OldRootIds(oldSize), OldRootIds(requestedSize))
      ensures oldSize == requestedSize ==> proof == ExtensionProof([], [])
    {
      var roots := GetOldRoots(requestedSize);
      var oldRoots := GetOldRoots(oldSize);
      proof := ExtendFrom(oldRoots, roots);
    }

    /** The body of GenerateExtensionProof once both root lists are read. */
    method ExtendFrom(oldRoots: seq<Index>, roots: seq<Index>) returns (proof: ExtensionProof)
      requires Valid()
      requires forall x <- oldRoots :: x in nodes
      requires forall x <- roots :: x in nodes
      requires ExtensionDefined(oldRoots, roots)
      ensures ExtensionOf(proof, oldRoots, roots)
    {
      proof := ExtensionProof([], []);
      var i := FindMismatch(nodes, oldRoots, roots);
      if i < |oldRoots| {
        proof := ExtensionPath(oldRoots[|oldRoots| - 1], roots[i].depth);
      }
    }
  }
}
