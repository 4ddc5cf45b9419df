/**
 * The deep copies of core/prefix_tree_copy_utils.go. A copy allocates new
 * node records in a destination arena, numbered upwards from a counter,
 * so no record is shared with the source arena. Both the recursive copy
 * and the iterative one that copyFast uses are proved to leave in the
 * destination a node-for-node copy of the source subtree (Copied), whose
 * records are all new, with distinct identities.
 */
module PrefixCopy {
  import opened Wrappers
  import opened Bits
  import opened Crypto
  import opened TrieSpec
  import opened TrieArena

  /**
   * b copies a node for node: the same label, the same stored hash, the
   * same kind, the same values in the same order, and each present child
   * copied in the same slot.
   */
  ghost predicate Copied(a: Node, ha: Hashes, b: Node, hb: Hashes)
    decreases a
  {
    a.id in ha && b.id in hb && hb[b.id] == ha[a.id] && b.prefix == a.prefix &&
    match a
    case Leaf(_, _, vals) => b.Leaf? && b.values == vals
    case Inner(_, _, l, r) =>
      b.Inner? && (l.Some? <==> b.left.Some?) && (r.Some? <==> b.right.Some?) &&
      (l.Some? ==> Copied(l.value, ha, b.left.value, hb)) &&
      (r.Some? ==> Copied(r.value, ha, b.right.value, hb))
  }

  /** Copied reads only the copy's hashes of its own nodes. */
  lemma {:induction false} CopiedFrame(a: Node, ha: Hashes, b: Node, hb: Hashes, hb': Hashes)
    requires Copied(a, ha, b, hb)
    requires forall id | id in Ids(b) && id in hb :: id in hb' && hb'[id] == hb[id]
    ensures Copied(a, ha, b, hb')
    decreases a
  {
    if a.Inner? {
      if a.left.Some? { CopiedFrame(a.left.value, ha, b.left.value, hb, hb'); }
      if a.right.Some? { CopiedFrame(a.right.value, ha, b.right.value, hb, hb'); }
    }
  }

  /**
   * A copy is indistinguishable from its source: it is well formed exactly
   * when the source is, it answers every lookup the same way, and it has
   * the same Merkle hash.
   */
  lemma {:induction false} CopiedSame(c: Primitives, a: Node, ha: Hashes, b: Node, hb: Hashes)
    requires Copied(a, ha, b, hb)
    ensures forall isRoot :: WF(b, isRoot) <==> WF(a, isRoot)
    ensures forall key :: Lookup(b, key) == Lookup(a, key)
    ensures HashOf(c, b) == HashOf(c, a)
    decreases a
  {
    if a.Inner? {
      if a.left.Some? { CopiedSame(c, a.left.value, ha, b.left.value, hb); }
      if a.right.Some? { CopiedSame(c, a.right.value, ha, b.right.value, hb); }
      forall key
        ensures Lookup(b, key) == Lookup(a, key)
      {
        if HasPrefix(key, a.prefix) && key[|a.prefix|..] != [] {
          var rest := key[|a.prefix|..];
          assert Child(b, Slot(rest[0])).Some? <==> Child(a, Slot(rest[0])).Some?;
        }
      }
    }
  }

  /** A copy of a tree whose stored hashes below the root are up to date stores up-to-date hashes below its root too. */
  lemma {:induction false} CopiedChildrenHashed(c: Primitives, a: Node, ha: Hashes, b: Node, hb: Hashes)
    requires Copied(a, ha, b, hb) && ChildrenHashed(c, ha, a)
    ensures ChildrenHashed(c, hb, b)
  {
    if a.Inner? {
      if a.left.Some? { CopiedHashed(c, a.left.value, ha, b.left.value, hb); }
      if a.right.Some? { CopiedHashed(c, a.right.value, ha, b.right.value, hb); }
    }
  }

  /** A copy of a tree whose stored hashes are up to date stores up-to-date hashes too. */
  lemma {:induction false} CopiedHashed(c: Primitives, a: Node, ha: Hashes, b: Node, hb: Hashes)
    requires Copied(a, ha, b, hb) && AllHashed(c, ha, a)
    ensures AllHashed(c, hb, b)
    decreases a
  {
    CopiedSame(c, a, ha, b, hb);
    if a.Inner? {
      if a.left.Some? { CopiedHashed(c, a.left.value, ha, b.left.value, hb); }
      if a.right.Some? { CopiedHashed(c, a.right.value, ha, b.right.value, hb); }
    }
  }

  /** Every identity of t lies in [lo, hi). */
  ghost predicate IdsIn(t: Node, lo: Id, hi: Id)
  {
    forall id | id in Ids(t) :: lo <= id < hi
  }

  /** dst' keeps every record of dst and adds records only under identities in [lo, hi). */
  ghost predicate GrowsBy<V>(dst: map<Id, V>, dst': map<Id, V>, lo: Id, hi: Id)
  {
    lo <= hi && (forall id | id in dst :: id in dst' && dst'[id] == dst[id]) &&
    (forall id | id in dst' :: id in dst || lo <= id < hi)
  }

  /**
   * deepCopyInternalNode: nil for a nil node; otherwise new records for the
   * node and everything below it, numbered from next, the top one with
   * parent link `parent`, each child copied with the new node as its parent.
   * The result is a copy of the source subtree (Copied) made of new,
   * distinct identities, and no record of dst changes.
   */
  method DeepCopyInternalNode(src: Arena, srcH: Hashes, ghost s: Node, ghost sp: Option<Id>,
                              parent: Option<Id>, node: Option<Id>,
                              dst: Arena, dstH: Hashes, next: Id)
    returns (r: Option<Id>, dst': Arena, dstH': Hashes, next': Id, ghost s': Node)
    requires node.Some? ==> node == Some(s.id) && Shape(src, s, sp) && Ids(s) <= srcH.Keys
    requires forall id | id in dst :: id < next
    requires forall id | id in dstH :: id < next
    ensures GrowsBy(dst, dst', next, next') && GrowsBy(dstH, dstH', next, next')
    ensures node.None? ==> r.None? && next' == next
    ensures node.Some? ==> r == Some(s'.id) && Shape(dst', s', parent) && Copied(s, srcH, s', dstH')
    ensures node.Some? ==> Distinct(s') && IdsIn(s', next, next')
    decreases s, if node.Some? then 2 else 0
  {
    if node.None? {
      return None, dst, dstH, next, s;
    }
    var a := src[node.value];
    if a.ALeaf? {
      dst' := dst[next := ALeaf(parent, a.prefix, a.values)];
      dstH' := dstH[next := srcH[node.value]];
      return Some(next), dst', dstH', next + 1, Leaf(next, a.prefix, a.values);
    }
    r, dst', dstH', next', s' := DeepCopyInner(src, srcH, s, sp, parent, node.value, dst, dstH, next);
  }

  /**
   * deepCopyInternalNode on an internal node: the new record at next with
   * no children, then the left child copied below it and linked, then the
   * right child copied and linked.
   */
  method DeepCopyInner(src: Arena, srcH: Hashes, ghost s: Node, ghost sp: Option<Id>,
                       parent: Option<Id>, node: Id, dst: Arena, dstH: Hashes, next: Id)
    returns (r: Option<Id>, dst': Arena, dstH': Hashes, next': Id, ghost s': Node)
    requires node == s.id && Shape(src, s, sp) && Ids(s) <= srcH.Keys && src[node].AInner?
    requires forall id | id in dst :: id < next
    requires forall id | id in dstH :: id < next
    ensures GrowsBy(dst, dst', next, next') && GrowsBy(dstH, dstH', next, next')
    ensures r == Some(s'.id) && Shape(dst', s', parent) && Copied(s, srcH, s', dstH')
    ensures Distinct(s') && IdsIn(s', next, next')
    decreases s, 1
  {
    var a := src[node];
    var id := next;
    var d1 := dst[id := AInner(parent, a.prefix, None, None)];
    var h1 := dstH[id := srcH[node]];
    ghost var sl := if s.left.Some? then s.left.value else s;
    ghost var sr := if s.right.Some? then s.right.value else s;
    ShapeChild(src, s, sp, false);
    ShapeChild(src, s, sp, true);
    var left, d2a, h2, n2, lt := DeepCopyInternalNode(src, srcH, sl, Some(s.id), Some(id), a.left, d1, h1, next + 1);
    var d2 := if left.Some? then d2a[id := SetArenaChild(d2a[id], false, left.value)] else d2a;
    var right, d3a, h3, n3, rt := DeepCopyInternalNode(src, srcH, sr, Some(s.id), Some(id), a.right, d2, h2, n2);
    var d3 := if right.Some? then d3a[id := SetArenaChild(d3a[id], true, right.value)] else d3a;
    s' := Inner(id, a.prefix, if left.Some? then Some(lt) else None, if right.Some? then Some(rt) else None);
    AssembleCopy(src, srcH, s, sp, a, sl, sr, parent, dst, dstH, next, d1, h1, left, d2a, h2, n2, lt, d2,
                 right, d3a, h3, n3, rt, d3, s');
    return Some(id), d3, h3, n3, s';
  }

  /**
   * The step that closes DeepCopyInternalNode on an internal node: the
   * record at next and the two child copies, made one after the other
   * above it, form a copy of the whole subtree, and dst only grew.
   */
  lemma {:induction false} AssembleCopy(src: Arena, srcH: Hashes, s: Node, sp: Option<Id>, a: ANode, sl: Node, sr: Node, parent: Option<Id>,
                     dst: Arena, dstH: Hashes, next: Id, d1: Arena, h1: Hashes,
                     left: Option<Id>, d2a: Arena, h2: Hashes, n2: Id, lt: Node, d2: Arena,
                     right: Option<Id>, d3a: Arena, h3: Hashes, n3: Id, rt: Node, d3: Arena, s': Node)
    requires s.Inner? && Shape(src, s, sp) && s.id in srcH && a == src[s.id]
    requires sl == (if s.left.Some? then s.left.value else s) && sr == (if s.right.Some? then s.right.value else s)
    requires forall id | id in dst :: id < next
    requires forall id | id in dstH :: id < next
    requires d1 == dst[next := AInner(parent, a.prefix, None, None)] && h1 == dstH[next := srcH[s.id]]
    requires GrowsBy(d1, d2a, next + 1, n2) && GrowsBy(h1, h2, next + 1, n2)
    requires a.left.None? ==> left.None?
    requires a.left.Some? ==> left == Some(lt.id) && Shape(d2a, lt, Some(next)) && Copied(sl, srcH, lt, h2) &&
                              Distinct(lt) && IdsIn(lt, next + 1, n2)
    requires d2 == if left.Some? then d2a[next := SetArenaChild(d2a[next], false, left.value)] else d2a
    requires GrowsBy(d2, d3a, n2, n3) && GrowsBy(h2, h3, n2, n3)
    requires a.right.None? ==> right.None?
    requires a.right.Some? ==> right == Some(rt.id) && Shape(d3a, rt, Some(next)) && Copied(sr, srcH, rt, h3) &&
                               Distinct(rt) && IdsIn(rt, n2, n3)
    requires d3 == if right.Some? then d3a[next := SetArenaChild(d3a[next], true, right.value)] else d3a
    requires s' == Inner(next, a.prefix, if left.Some? then Some(lt) else None, if right.Some? then Some(rt) else None)
    ensures GrowsBy(dst, d3, next, n3) && GrowsBy(dstH, h3, next, n3)
    ensures Shape(d3, s', parent) && Copied(s, srcH, s', h3) && Distinct(s') && IdsIn(s', next, n3)
  {
    ShapeChild(src, s, sp, false);
    ShapeChild(src, s, sp, true);
    AssembleGrowth(dst, dstH, next, d1, h1, left, d2a, h2, n2, d2, right, d3a, h3, n3, d3);
    var lo := if left.Some? then Some(lt) else None;
    var ro := if right.Some? then Some(rt) else None;
    if left.Some? {
      ShapeFrame(d2a, d3, lt, Some(next));
      CopiedFrame(s.left.value, srcH, lt, h2, h3);
    }
    if right.Some? {
      ShapeFrame(d3a, d3, rt, Some(next));
    }
    JoinCopy(srcH, s, parent, next, n2, n3, d3, h3, lo, ro, s');
  }

  /**
   * DeepCopyInternalNode's records: the new record at next, the left
   * copy's records in [next + 1, n2), the link to it, the right copy's
   * records in [n2, n3) and the link to it. Only records above next
   * change, and the children's records stay as their copies left them.
   */
  lemma {:induction false} AssembleGrowth(dst: Arena, dstH: Hashes, next: Id, d1: Arena, h1: Hashes,
                       left: Option<Id>, d2a: Arena, h2: Hashes, n2: Id, d2: Arena,
                       right: Option<Id>, d3a: Arena, h3: Hashes, n3: Id, d3: Arena)
    requires forall id | id in dst :: id < next
    requires forall id | id in dstH :: id < next
    requires next in d1 && d1[next].AInner? && d1[next].left.None? && d1[next].right.None? && d1 == dst[next := d1[next]] && next in h1 && h1 == dstH[next := h1[next]]
    requires GrowsBy(d1, d2a, next + 1, n2) && GrowsBy(h1, h2, next + 1, n2)
    requires d2 == if left.Some? then d2a[next := SetArenaChild(d2a[next], false, left.value)] else d2a
    requires GrowsBy(d2, d3a, n2, n3) && GrowsBy(h2, h3, n2, n3)
    requires d3 == if right.Some? then d3a[next := SetArenaChild(d3a[next], true, right.value)] else d3a
    ensures GrowsBy(dst, d3, next, n3) && GrowsBy(dstH, h3, next, n3)
    ensures next in h3 && h3[next] == h1[next]
    ensures next in d3 && d3[next] == AInner(d1[next].parent, d1[next].prefix, left, right)
    ensures forall id | next < id < n2 && id in d2a :: id in d3 && d3[id] == d2a[id]
    ensures forall id | n2 <= id < n3 && id in d3a :: id in d3 && d3[id] == d3a[id]
    ensures forall id | next < id < n2 && id in h2 :: id in h3 && h3[id] == h2[id]
  {
    GrowsFresh(dst, next, d1[next]);
    GrowsFresh(dstH, next, h1[next]);
    GrowsTrans(dst, d1, d2a, next, next + 1, n2);
    GrowsTrans(dstH, h1, h2, next, next + 1, n2);
    if left.Some? { GrowsUpdate(dst, d2a, next, n2, next, SetArenaChild(d2a[next], false, left.value)); }
    GrowsTrans(dst, d2, d3a, next, n2, n3);
    GrowsTrans(dstH, h2, h3, next, n2, n3);
    if right.Some? { GrowsUpdate(dst, d3a, next, n3, next, SetArenaChild(d3a[next], true, right.value)); }
  }

  /**
   * A new internal record over two copied children, in disjoint identity
   * ranges, is a copy of the parent. The arena, hash and identity facts
   * are joined separately.
   */
  lemma {:induction false} JoinCopy(srcH: Hashes, s: Node, parent: Option<Id>, next: Id, n2: Id, n3: Id, d3: Arena, h3: Hashes,
                 lo: Option<Node>, ro: Option<Node>, s': Node)
    requires s.Inner? && s.id in srcH && next + 1 <= n2 <= n3
    requires s' == Inner(next, s.prefix, lo, ro)
    requires next in d3 && d3[next] == AInner(parent, s.prefix, IdOf(lo), IdOf(ro))
    requires next in h3 && h3[next] == srcH[s.id]
    requires lo.Some? <==> s.left.Some?
    requires ro.Some? <==> s.right.Some?
    requires lo.Some? ==> Shape(d3, lo.value, Some(next)) && Copied(s.left.value, srcH, lo.value, h3) &&
                          Distinct(lo.value) && IdsIn(lo.value, next + 1, n2)
    requires ro.Some? ==> Shape(d3, ro.value, Some(next)) && Copied(s.right.value, srcH, ro.value, h3) &&
                          Distinct(ro.value) && IdsIn(ro.value, n2, n3)
    ensures Shape(d3, s', parent) && Copied(s, srcH, s', h3) && Distinct(s') && IdsIn(s', next, n3)
  {
    JoinIds(next, n2, n3, lo, ro, s');
  }

  /** Children numbered in [next + 1, n2) and [n2, n3) under a parent numbered next have distinct identities. */
  lemma {:induction false} JoinIds(next: Id, n2: Id, n3: Id, lo: Option<Node>, ro: Option<Node>, s': Node)
    requires s'.Inner? && s'.id == next && s'.left == lo && s'.right == ro && next + 1 <= n2 <= n3
    requires lo.Some? ==> Distinct(lo.value) && IdsIn(lo.value, next + 1, n2)
    requires ro.Some? ==> Distinct(ro.value) && IdsIn(ro.value, n2, n3)
    ensures Distinct(s') && IdsIn(s', next, n3)
  {
    if lo.Some? && ro.Some? {
      assert Ids(lo.value) !! Ids(ro.value) by {
        forall id | id in Ids(lo.value) ensures id !in Ids(ro.value) { }
      }
    }
  }

  lemma {:induction false} GrowsFresh<V>(m: map<Id, V>, k: Id, v: V)
    requires forall id | id in m :: id < k
    ensures GrowsBy(m, m[k := v], k, k + 1)
  {
  }

  lemma {:induction false} GrowsTrans<V>(a: map<Id, V>, b: map<Id, V>, c: map<Id, V>, lo: Id, mid: Id, hi: Id)
    requires GrowsBy(a, b, lo, mid) && GrowsBy(b, c, mid, hi)
    ensures GrowsBy(a, c, lo, hi)
  {
  }

  /** Rewriting a record the growth added keeps it a growth. */
  lemma {:induction false} GrowsUpdate<V>(a: map<Id, V>, b: map<Id, V>, lo: Id, hi: Id, k: Id, v: V)
    requires GrowsBy(a, b, lo, hi) && lo <= k < hi && k !in a
    ensures GrowsBy(a, b[k := v], lo, hi)
  {
  }

  // ---------------------------------------------------------------------
  // The iterative copy.

  /**
   * cloneLeafNode: a new leaf record at next under parent, with the leaf's
   * label, hash and values; nothing else in dst changes.
   */
  method CloneLeafNode(src: Arena, srcH: Hashes, leaf: Id, parent: Option<Id>, dst: Arena, dstH: Hashes, next: Id)
    returns (r: Id, dst': Arena, dstH': Hashes, next': Id)
    requires leaf in src && src[leaf].ALeaf? && leaf in srcH
    requires forall id | id in dst :: id < next
    requires forall id | id in dstH :: id < next
    ensures r == next && next' == next + 1
    ensures GrowsBy(dst, dst', next, next') && GrowsBy(dstH, dstH', next, next')
    ensures Shape(dst', Leaf(r, src[leaf].prefix, src[leaf].values), parent)
    ensures r in dstH' && dstH'[r] == srcH[leaf]
    ensures dst' == dst[r := ALeaf(parent, src[leaf].prefix, src[leaf].values)] && dstH' == dstH[r := srcH[leaf]]
  {
    var a := src[leaf];
    r := next;
    dst' := dst[r := ALeaf(parent, a.prefix, a.values)];
    dstH' := dstH[r := srcH[leaf]];
    next' := next + 1;
  }

  /**
   * The ghost state of the iterative copy's loop: the source nodes on the
   * path from the root down to node (path, with the slots taken, q), the
   * clone records beside them (cs, whose first entry is the parent the copy
   * hangs under), and at each level the copies of the children already
   * finished (dl, dr).
   */
  datatype Walker = Walker(path: seq<Node>, q: seq<bool>, cs: seq<Id>, dl: seq<Option<Node>>, dr: seq<Option<Node>>)

  /** Whether the loop is inside the child at one level, and which. */
  datatype Progress = Idle | Below(right: bool, child: Node, clone: Id)

  ghost predicate Sized(w: Walker)
  {
    |w.path| >= 1 && |w.q| == |w.path| - 1 && |w.cs| == |w.path| && |w.dl| == |w.path| && |w.dr| == |w.path|
  }

  /** The level the loop is at. */
  ghost function Top(w: Walker): nat
    requires Sized(w)
  {
    |w.q|
  }

  /** Below level k the loop is inside the child q[k], whose clone is cs[k + 1]. */
  ghost function Prog(w: Walker, k: nat): Progress
    requires Sized(w) && k < |w.path|
  {
    if k < |w.q| then Below(w.q[k], w.path[k + 1], w.cs[k + 1]) else Idle
  }

  /** The identities finished below level k lie under this bound. */
  ghost function Hi(w: Walker, next: Id, k: nat): Id
    requires Sized(w) && k < |w.path|
  {
    if k < |w.q| then w.cs[k + 1] else next
  }

  /**
   * One child slot of a clone: empty, in progress (linked to the clone one
   * level down, or for a leaf already finished), or finished: linked to a
   * copy of the source child that the arena holds, with distinct identities
   * numbered above the clone and below hi.
   */
  ghost predicate SlotOk(srcH: Hashes, dst: Arena, dstH: Hashes, c: Option<Node>, link: Option<Id>, owner: Id,
                         done: Option<Node>, hi: Id, pr: Progress)
  {
    (pr.Below? ==> c == Some(pr.child) &&
                   (pr.child.Inner? ==> done.None? && link == Some(pr.clone)) &&
                   (pr.child.Leaf? ==> done.Some?)) &&
    (link.None? ==> done.None?) &&
    (link.Some? && pr.Idle? ==> done.Some?) &&
    (done.Some? ==> c.Some? && link == Some(done.value.id) && Shape(dst, done.value, Some(owner)) &&
                    Copied(c.value, srcH, done.value, dstH) && Distinct(done.value) && IdsIn(done.value, owner + 1, hi))
  }

  /**
   * The clone at one level below the parent: an internal record linked up
   * to the clone above; for a source leaf a childless placeholder, for an
   * internal source node a record with its label and hash whose two slots
   * are SlotOk, the finished copies disjoint.
   */
  ghost predicate LevelOk(srcH: Hashes, dst: Arena, dstH: Hashes, n: Node, id: Id, parent: Id,
                          dl: Option<Node>, dr: Option<Node>, hi: Id, pr: Progress)
  {
    id in dst && id in dstH && dst[id].AInner? && dst[id].parent == Some(parent) &&
    (n.Leaf? ==> dst[id].left.None? && dst[id].right.None? && dl.None? && dr.None? && pr.Idle?) &&
    (n.Inner? ==>
       n.id in srcH && dst[id].prefix == n.prefix && dstH[id] == srcH[n.id] &&
       SlotOk(srcH, dst, dstH, n.left, dst[id].left, id, dl, hi, if pr.Below? && !pr.right then pr else Idle) &&
       SlotOk(srcH, dst, dstH, n.right, dst[id].right, id, dr, hi, if pr.Below? && pr.right then pr else Idle) &&
       (dl.Some? && dr.Some? ==> Ids(dl.value) !! Ids(dr.value)))
  }

  /** The parent link of the source node at level k: none for the root. */
  ghost function Above(w: Walker, k: nat): Option<Id>
    requires k < |w.path|
  {
    if k == 0 then None else Some(w.path[k - 1].id)
  }

  /** The path is a path down t, which src holds as a root, its hashes stored. */
  ghost predicate PathOk(src: Arena, srcH: Hashes, t: Node, w: Walker)
  {
    Sized(w) && w.path[0] == t && Shape(src, t, None) && Ids(t) <= srcH.Keys &&
    (forall k {:trigger w.q[k]} | 0 <= k < |w.q| :: Child(w.path[k], w.q[k]) == Some(w.path[k + 1]))
  }

  /** Every node on the path is held by src with its parent link, its hashes stored. */
  lemma {:induction false} PathShape(src: Arena, srcH: Hashes, t: Node, w: Walker, k: nat)
    requires PathOk(src, srcH, t, w) && k < |w.path|
    ensures Shape(src, w.path[k], Above(w, k)) && Ids(w.path[k]) <= srcH.Keys
    decreases k
  {
    if k > 0 {
      PathShape(src, srcH, t, w, k - 1);
      ShapeChild(src, w.path[k - 1], Above(w, k - 1), w.q[k - 1]);
    }
  }

  /** The clone chain starts at the parent p, a root record, and climbs in identity, every clone new since lo. */
  ghost predicate ChainOk(dst: Arena, p: Id, lo: Id, next: Id, w: Walker)
  {
    Sized(w) && w.cs[0] == p && p in dst && dst[p].AInner? && dst[p].parent.None? && p < lo && lo <= next &&
    (forall k | 0 <= k < |w.cs| :: w.cs[k] in dst) &&
    (forall i, j | 0 <= i < j < |w.cs| :: w.cs[i] < w.cs[j]) &&
    (forall k | 1 <= k < |w.cs| :: lo <= w.cs[k]) && w.cs[|w.cs| - 1] < next
  }

  /** The clone at level k, which hangs under the clone at level k - 1. */
  ghost predicate AtLevel(srcH: Hashes, dst: Arena, dstH: Hashes, next: Id, w: Walker, k: nat)
    requires Sized(w) && 1 <= k < |w.path|
  {
    LevelOk(srcH, dst, dstH, w.path[k], w.cs[k], w.cs[k - 1], w.dl[k], w.dr[k], Hi(w, next, k), Prog(w, k))
  }

  ghost predicate LevelsOk(srcH: Hashes, dst: Arena, dstH: Hashes, next: Id, w: Walker)
    requires Sized(w)
  {
    forall k | 1 <= k < |w.path| :: AtLevel(srcH, dst, dstH, next, w, k)
  }

  /** The loop invariant of the iterative copy, apart from the copy it returns. */
  ghost predicate WalkOk(src: Arena, srcH: Hashes, t: Node, p: Id, lo: Id, dst: Arena, dstH: Hashes, next: Id, w: Walker)
  {
    PathOk(src, srcH, t, w) && ChainOk(dst, p, lo, next, w) && LevelsOk(srcH, dst, dstH, next, w)
  }

  // Termination.

  /** Loop iterations spent on a subtree once the loop has entered it: a climb, and a descent into each child and its own steps. */
  ghost function Steps(n: Node): nat
    decreases n
  {
    1 + (if Child(n, false).Some? then 1 + Steps(Child(n, false).value) else 0)
      + (if Child(n, true).Some? then 1 + Steps(Child(n, true).value) else 0)
  }

  /** The work a slot still owes: the whole child, while the source has it and the clone's slot is empty. */
  ghost function Owed(n: Node, a: ANode, right: bool): nat
  {
    if Child(n, right).Some? && ArenaChild(a, right).None? then 1 + Steps(Child(n, right).value) else 0
  }

  /** The iterations the loop has left: at every level of the path, a climb and the slots still owed. */
  ghost function Pending(path: seq<Node>, cs: seq<Id>, dst: Arena): nat
    requires |path| == |cs| && forall k | 0 <= k < |cs| :: cs[k] in dst
    decreases |path|
  {
    if path == [] then 0
    else
      var k := |path| - 1;
      Pending(path[..k], cs[..k], dst) + 1 + Owed(path[k], dst[cs[k]], false) + Owed(path[k], dst[cs[k]], true)
  }

  /** Pending reads only the records of the clone chain. */
  lemma {:induction false} PendingFrame(path: seq<Node>, cs: seq<Id>, dst: Arena, dst': Arena)
    requires |path| == |cs| && forall k | 0 <= k < |cs| :: cs[k] in dst && cs[k] in dst' && dst'[cs[k]] == dst[cs[k]]
    ensures Pending(path, cs, dst') == Pending(path, cs, dst)
    decreases |path|
  {
    if path != [] {
      var k := |path| - 1;
      PendingFrame(path[..k], cs[..k], dst, dst');
    }
  }

  /** A descent leaves one more level with no climb and no slot owed beyond the child's own steps. */
  lemma {:induction false} DescendPending(path: seq<Node>, cs: seq<Id>, dst: Arena, dst': Arena, right: bool, c: Node, cl: Id)
    requires |path| == |cs| > 0 && forall k | 0 <= k < |cs| :: cs[k] in dst
    requires forall k | 0 <= k < |cs| - 1 :: cs[k] in dst' && dst'[cs[k]] == dst[cs[k]]
    requires Child(path[|path| - 1], right) == Some(c) && ArenaChild(dst[cs[|cs| - 1]], right).None?
    requires cs[|cs| - 1] in dst' && ArenaChild(dst'[cs[|cs| - 1]], right).Some?
    requires ArenaChild(dst'[cs[|cs| - 1]], !right) == ArenaChild(dst[cs[|cs| - 1]], !right)
    requires cl in dst' && ArenaChild(dst'[cl], false).None? && ArenaChild(dst'[cl], true).None?
    ensures forall k | 0 <= k < |cs + [cl]| :: (cs + [cl])[k] in dst'
    ensures Pending(path + [c], cs + [cl], dst') < Pending(path, cs, dst)
  {
    var k := |path| - 1;
    PendingFrame(path[..k], cs[..k], dst, dst');
    assert (path + [c])[..k + 1] == path && (cs + [cl])[..k + 1] == cs;
  }

  /** LevelOk reads the clone's own record and the records and hashes of the copies finished below it. */
  lemma {:induction false} LevelFrame(srcH: Hashes, dst: Arena, dstH: Hashes, dst': Arena, dstH': Hashes, n: Node, id: Id, parent: Id,
                   dl: Option<Node>, dr: Option<Node>, hi: Id, pr: Progress)
    requires LevelOk(srcH, dst, dstH, n, id, parent, dl, dr, hi, pr)
    requires id in dst' && dst'[id] == dst[id]
    requires forall x | id < x < hi && x in dst :: x in dst' && dst'[x] == dst[x]
    requires forall x | x in dstH :: x in dstH' && dstH'[x] == dstH[x]
    ensures LevelOk(srcH, dst', dstH', n, id, parent, dl, dr, hi, pr)
  {
    if n.Inner? {
      if dl.Some? {
        ShapeFrame(dst, dst', dl.value, Some(id));
        CopiedFrame(n.left.value, srcH, dl.value, dstH, dstH');
      }
      if dr.Some? {
        ShapeFrame(dst, dst', dr.value, Some(id));
        CopiedFrame(n.right.value, srcH, dr.value, dstH, dstH');
      }
    }
  }

  /**
   * The level a descent starts from: its empty slot now leads to the new
   * clone, or for a leaf child holds the finished leaf copy.
   */
  lemma {:induction false} DescendLevel(srcH: Hashes, dst: Arena, dstH: Hashes, dst': Arena, dstH': Hashes, n: Node, id: Id, parent: Id,
                     dl: Option<Node>, dr: Option<Node>, next: Id, right: bool, c: Node, x: Id, cl: Id,
                     done: Option<Node>, hi: Id)
    requires LevelOk(srcH, dst, dstH, n, id, parent, dl, dr, next, Idle)
    requires n.Inner? && Child(n, right) == Some(c) && c.id in srcH && ArenaChild(dst[id], right).None?
    requires id in dst' && dst'[id].AInner? && dst'[id].parent == dst[id].parent && dst'[id].prefix == dst[id].prefix
    requires ArenaChild(dst'[id], right) == Some(x) && ArenaChild(dst'[id], !right) == ArenaChild(dst[id], !right)
    requires forall z | id < z < next && z in dst :: z in dst' && dst'[z] == dst[z]
    requires forall z | z in dstH :: z in dstH' && dstH'[z] == dstH[z]
    requires id < next <= hi
    requires c.Inner? ==> x == cl && done.None?
    requires c.Leaf? ==> done == Some(Leaf(x, c.prefix, c.values)) && x == next && hi == next + 1 &&
                         Shape(dst', done.value, Some(id)) && Copied(c, srcH, done.value, dstH')
    ensures LevelOk(srcH, dst', dstH', n, id, parent, if right then dl else done, if right then done else dr, hi,
                    Below(right, c, cl))
  {
    if right && dl.Some? {
      ShapeFrame(dst, dst', dl.value, Some(id));
      CopiedFrame(n.left.value, srcH, dl.value, dstH, dstH');
    }
    if !right && dr.Some? {
      ShapeFrame(dst, dst', dr.value, Some(id));
      CopiedFrame(n.right.value, srcH, dr.value, dstH, dstH');
    }
  }

  /** A descent extends the path by a child of its last node. */
  lemma {:induction false} DescendPath(src: Arena, srcH: Hashes, t: Node, w: Walker, right: bool, c: Node, w': Walker)
    requires PathOk(src, srcH, t, w) && Child(w.path[Top(w)], right) == Some(c)
    requires Sized(w') && w'.path == w.path + [c] && w'.q == w.q + [right]
    ensures PathOk(src, srcH, t, w')
  {
    var K := Top(w);
    forall k | 0 <= k < |w'.q|
      ensures Child(w'.path[k], w'.q[k]) == Some(w'.path[k + 1])
    {
      if k < K {
        assert w'.path[k] == w.path[k] && w'.path[k + 1] == w.path[k + 1];
      }
    }
  }

  /**
   * The levels after a descent from the clone own, whose slot `right` now
   * holds x: the levels above are untouched, own's level records the
   * descent, and the new clone cl starts with both slots empty.
   */
  lemma {:induction false} DescendLevels(srcH: Hashes, dst: Arena, dstH: Hashes, next: Id, w: Walker, right: bool, c: Node, x: Id,
                      done: Option<Node>, dst': Arena, dstH': Hashes, next': Id, w': Walker)
    requires Sized(w) && LevelsOk(srcH, dst, dstH, next, w)
    requires (forall i, j | 0 <= i < j < |w.cs| :: w.cs[i] < w.cs[j]) && w.cs[Top(w)] < next
    requires Child(w.path[Top(w)], right) == Some(c) && c.id in srcH
    requires Sized(w') && w'.path == w.path + [c] && w'.q == w.q + [right] && |w'.cs| == |w.cs| + 1
    requires w'.cs[..|w.cs|] == w.cs
    requires w'.dl == (if right then w.dl else w.dl[Top(w) := done]) + [None]
    requires w'.dr == (if right then w.dr[Top(w) := done] else w.dr) + [None]
    requires w.cs[Top(w)] in dst && ArenaChild(dst[w.cs[Top(w)]], right).None?
    requires c.Inner? ==> x == w'.cs[|w.cs|] == next && done.None? && next' == next + 1
    requires c.Leaf? ==> done == Some(Leaf(x, c.prefix, c.values)) && x == next && w'.cs[|w.cs|] == next + 1 &&
                         next' == next + 2 && Shape(dst', done.value, Some(w.cs[Top(w)])) &&
                         Copied(c, srcH, done.value, dstH')
    requires forall z | z in dst && z != w.cs[Top(w)] :: z in dst' && dst'[z] == dst[z]
    requires w.cs[Top(w)] in dst' && dst'[w.cs[Top(w)]].AInner?
    requires dst'[w.cs[Top(w)]].parent == dst[w.cs[Top(w)]].parent && dst'[w.cs[Top(w)]].prefix == dst[w.cs[Top(w)]].prefix
    requires ArenaChild(dst'[w.cs[Top(w)]], right) == Some(x)
    requires ArenaChild(dst'[w.cs[Top(w)]], !right) == ArenaChild(dst[w.cs[Top(w)]], !right)
    requires w'.cs[|w.cs|] in dst' && w'.cs[|w.cs|] in dstH' && dst'[w'.cs[|w.cs|]].AInner?
    requires dst'[w'.cs[|w.cs|]].parent == Some(w.cs[Top(w)])
    requires dst'[w'.cs[|w.cs|]].left.None? && dst'[w'.cs[|w.cs|]].right.None?
    requires c.Inner? ==> dst'[w'.cs[|w.cs|]].prefix == c.prefix && dstH'[w'.cs[|w.cs|]] == srcH[c.id]
    requires forall z | z in dstH :: z in dstH' && dstH'[z] == dstH[z]
    ensures LevelsOk(srcH, dst', dstH', next', w')
  {
    var K := Top(w);
    var own := w.cs[K];
    var cl := w'.cs[K + 1];
    forall k | 1 <= k < |w'.path|
      ensures AtLevel(srcH, dst', dstH', next', w', k)
    {
      if k < K {
        assert AtLevel(srcH, dst, dstH, next, w, k);
        assert w'.path[k] == w.path[k] && w'.cs[k] == w.cs[k] && w'.cs[k - 1] == w.cs[k - 1];
        assert w'.cs[k + 1] == w.cs[k + 1] && w'.path[k + 1] == w.path[k + 1] && w'.q[k] == w.q[k];
        assert w'.dl[k] == w.dl[k] && w'.dr[k] == w.dr[k];
        assert w.cs[k] < w.cs[k + 1] <= own;
        LevelFrame(srcH, dst, dstH, dst', dstH', w.path[k], w.cs[k], w.cs[k - 1], w.dl[k], w.dr[k], Hi(w, next, k), Prog(w, k));
      } else if k == K {
        assert AtLevel(srcH, dst, dstH, next, w, k);
        assert w'.path[k] == w.path[k] && w'.cs[k] == own && w'.cs[k - 1] == w.cs[k - 1];
        assert w.cs[k - 1] < own;
        DescendLevel(srcH, dst, dstH, dst', dstH', w.path[K], own, w.cs[K - 1], w.dl[K], w.dr[K], next, right, c, x, cl,
                     done, Hi(w', next', k));
      } else {
        assert w'.path[k] == c && w'.cs[k] == cl && w'.cs[k - 1] == own && w'.dl[k].None? && w'.dr[k].None?;
      }
    }
  }

  /** The clone chain after a descent: one more clone, numbered above all the others. */
  lemma {:induction false} DescendChain(dst: Arena, dst': Arena, p: Id, lo: Id, next: Id, next': Id, w: Walker, w': Walker)
    requires ChainOk(dst, p, lo, next, w)
    requires Sized(w') && |w'.cs| == |w.cs| + 1 && w'.cs[..|w.cs|] == w.cs && next <= w'.cs[|w.cs|] < next'
    requires forall z | z in dst && z != w.cs[|w.cs| - 1] :: z in dst'
    requires w.cs[|w.cs| - 1] in dst' && w'.cs[|w.cs|] in dst'
    requires p in dst' && dst'[p].AInner? && dst'[p].parent.None?
    ensures ChainOk(dst', p, lo, next', w')
  {
    forall k | 0 <= k < |w'.cs|
      ensures w'.cs[k] in dst'
    {
      if k < |w.cs| {
        assert w'.cs[k] == w.cs[k];
      }
    }
    forall i, j | 0 <= i < j < |w'.cs|
      ensures w'.cs[i] < w'.cs[j]
    {
      assert w'.cs[i] == w.cs[i];
      if j < |w.cs| {
        assert w'.cs[j] == w.cs[j];
      } else {
        assert w.cs[i] <= w.cs[|w.cs| - 1];
      }
    }
    forall k | 1 <= k < |w'.cs|
      ensures lo <= w'.cs[k]
    {
      if k < |w.cs| {
        assert w'.cs[k] == w.cs[k];
      }
    }
  }

  /** WalkOk after a descent, and the loop's measure drops. */
  lemma {:induction false} DescendWalk(src: Arena, srcH: Hashes, t: Node, p: Id, lo: Id, dst: Arena, dstH: Hashes, next: Id, w: Walker,
                    right: bool, c: Node, x: Id, done: Option<Node>, dst': Arena, dstH': Hashes, next': Id, w': Walker)
    requires WalkOk(src, srcH, t, p, lo, dst, dstH, next, w)
    requires Child(w.path[Top(w)], right) == Some(c) && ArenaChild(dst[w.cs[Top(w)]], right).None?
    requires Sized(w') && w'.path == w.path + [c] && w'.q == w.q + [right] && |w'.cs| == |w.cs| + 1
    requires w'.cs[..|w.cs|] == w.cs && next < w'.cs[|w.cs|] + 1 == next'
    requires w'.dl == (if right then w.dl else w.dl[Top(w) := done]) + [None]
    requires w'.dr == (if right then w.dr[Top(w) := done] else w.dr) + [None]
    requires c.Inner? ==> x == w'.cs[|w.cs|] == next && done.None?
    requires c.Leaf? ==> done == Some(Leaf(x, c.prefix, c.values)) && x == next && w'.cs[|w.cs|] == next + 1 &&
                         Shape(dst', done.value, Some(w.cs[Top(w)])) && Copied(c, srcH, done.value, dstH')
    requires forall z | z in dst && z != w.cs[Top(w)] :: z in dst' && dst'[z] == dst[z]
    requires w.cs[Top(w)] in dst' && dst'[w.cs[Top(w)]].AInner?
    requires dst'[w.cs[Top(w)]].parent == dst[w.cs[Top(w)]].parent && dst'[w.cs[Top(w)]].prefix == dst[w.cs[Top(w)]].prefix
    requires ArenaChild(dst'[w.cs[Top(w)]], right) == Some(x)
    requires ArenaChild(dst'[w.cs[Top(w)]], !right) == ArenaChild(dst[w.cs[Top(w)]], !right)
    requires w'.cs[|w.cs|] in dst' && w'.cs[|w.cs|] in dstH' && dst'[w'.cs[|w.cs|]].AInner?
    requires dst'[w'.cs[|w.cs|]].parent == Some(w.cs[Top(w)])
    requires dst'[w'.cs[|w.cs|]].left.None? && dst'[w'.cs[|w.cs|]].right.None?
    requires c.Inner? ==> dst'[w'.cs[|w.cs|]].prefix == c.prefix && c.id in srcH && dstH'[w'.cs[|w.cs|]] == srcH[c.id]
    requires forall z | z in dstH :: z in dstH' && dstH'[z] == dstH[z]
    ensures WalkOk(src, srcH, t, p, lo, dst', dstH', next', w')
    ensures Pending(w'.path, w'.cs, dst') < Pending(w.path, w.cs, dst)
  {
    var K := Top(w);
    PathShape(src, srcH, t, w, K);
    DescendPath(src, srcH, t, w, right, c, w');
    assert w.cs[K] < next;
    DescendLevels(srcH, dst, dstH, next, w, right, c, x, done, dst', dstH', next', w');
    DescendChain(dst, dst', p, lo, next, next', w, w');
    assert w'.path == w.path + [c] && w'.cs == w.cs + [w'.cs[|w.cs|]];
    DescendPending(w.path, w.cs, dst, dst', right, c, w'.cs[|w.cs|]);
  }

  // Climbing.

  /** The copy finished at an internal level: the clone record with the two finished child copies. */
  ghost function Finished(n: Node, id: Id, dl: Option<Node>, dr: Option<Node>): Node
  {
    Inner(id, n.prefix, dl, dr)
  }

  /**
   * A level with nothing left to copy (every child of the source node has
   * a linked clone) holds a finished copy of its source node, hanging under
   * the clone above, its identities numbered from the clone upwards.
   */
  lemma {:induction false} FinishLevel(srcH: Hashes, dst: Arena, dstH: Hashes, n: Node, id: Id, parent: Id,
                                       dl: Option<Node>, dr: Option<Node>, hi: Id)
    requires LevelOk(srcH, dst, dstH, n, id, parent, dl, dr, hi, Idle) && n.Inner? && id < hi
    requires n.left.None? || dst[id].left.Some?
    requires n.right.None? || dst[id].right.Some?
    ensures Shape(dst, Finished(n, id, dl, dr), Some(parent)) && Copied(n, srcH, Finished(n, id, dl, dr), dstH)
    ensures Distinct(Finished(n, id, dl, dr)) && IdsIn(Finished(n, id, dl, dr), id, hi)
  {
    var f := Finished(n, id, dl, dr);
    assert Child(f, false) == dl && Child(f, true) == dr;
    forall right | Child(f, right).Some?
      ensures id !in Ids(Child(f, right).value)
    {
      assert IdsIn(Child(f, right).value, id + 1, hi);
    }
  }

  /**
   * The level a climb returns to: the slot it had descended into now holds
   * the finished copy (for a leaf child it already did), and the level is
   * idle again with the bound raised to next.
   */
  lemma {:induction false} ClimbLevel(srcH: Hashes, dst: Arena, dstH: Hashes, n: Node, id: Id, parent: Id,
                                      dl: Option<Node>, dr: Option<Node>, right: bool, c: Node, cl: Id,
                                      done: Option<Node>, next: Id)
    requires LevelOk(srcH, dst, dstH, n, id, parent, dl, dr, cl, Below(right, c, cl))
    requires id < cl < next
    requires c.Inner? ==> done.Some? && done.value.id == cl && Shape(dst, done.value, Some(id)) &&
                          Copied(c, srcH, done.value, dstH) && Distinct(done.value) && IdsIn(done.value, cl, next)
    requires c.Leaf? ==> done == (if right then dr else dl)
    ensures LevelOk(srcH, dst, dstH, n, id, parent, if right then dl else done, if right then done else dr, next, Idle)
  {
    var other := if right then dl else dr;
    if other.Some? && done.Some? {
      forall x | x in Ids(other.value)
        ensures x !in Ids(done.value)
      {
        assert x < cl;
      }
    }
  }

  /** What the slot a climb returns to holds: the finished copy of an internal node, or the leaf copy already there. */
  ghost function ClimbDone(w: Walker): Option<Node>
    requires Sized(w) && Top(w) >= 1
  {
    var K := Top(w);
    if w.path[K].Inner? then Some(Finished(w.path[K], w.cs[K], w.dl[K], w.dr[K]))
    else if w.q[K - 1] then w.dr[K - 1] else w.dl[K - 1]
  }

  /** The walker after a climb: the top level dropped, the slot below it recorded as finished. */
  ghost function Climbed(w: Walker): (w': Walker)
    requires Sized(w) && Top(w) >= 1
    ensures Sized(w')
  {
    var K := Top(w);
    var d := ClimbDone(w);
    Walker(w.path[..K], w.q[..K - 1], w.cs[..K],
           if w.q[K - 1] then w.dl[..K] else w.dl[..K][K - 1 := d],
           if w.q[K - 1] then w.dr[..K][K - 1 := d] else w.dr[..K])
  }

  /**
   * The levels after a climb from a level with nothing left to copy: the
   * level climbed to records the finished copy; an internal source node is
   * then fully copied.
   */
  lemma {:induction false} ClimbLevels(src: Arena, srcH: Hashes, t: Node, dst: Arena, dstH: Hashes, next: Id, w: Walker)
    requires PathOk(src, srcH, t, w) && Top(w) >= 1 && LevelsOk(srcH, dst, dstH, next, w)
    requires (forall i, j | 0 <= i < j < |w.cs| :: w.cs[i] < w.cs[j]) && w.cs[Top(w)] < next && w.cs[Top(w)] in dst
    requires forall right :: Child(w.path[Top(w)], right).None? || ArenaChild(dst[w.cs[Top(w)]], right).Some?
    ensures LevelsOk(srcH, dst, dstH, next, Climbed(w))
    ensures w.path[Top(w)].Inner? ==>
              var f := Finished(w.path[Top(w)], w.cs[Top(w)], w.dl[Top(w)], w.dr[Top(w)]);
              Shape(dst, f, Some(w.cs[Top(w) - 1])) && Copied(w.path[Top(w)], srcH, f, dstH) &&
              Distinct(f) && IdsIn(f, w.cs[Top(w)], next)
  {
    var K := Top(w);
    var w' := Climbed(w);
    var d := ClimbDone(w);
    assert AtLevel(srcH, dst, dstH, next, w, K);
    assert w.cs[K - 1] < w.cs[K];
    if w.path[K].Inner? {
      assert Child(w.path[K], false) == w.path[K].left && Child(w.path[K], true) == w.path[K].right;
      FinishLevel(srcH, dst, dstH, w.path[K], w.cs[K], w.cs[K - 1], w.dl[K], w.dr[K], next);
    }
    forall k | 1 <= k < |w'.path|
      ensures AtLevel(srcH, dst, dstH, next, w', k)
    {
      assert AtLevel(srcH, dst, dstH, next, w, k);
      if k < K - 1 {
        KeptLevel(srcH, dst, dstH, next, w, k);
      } else {
        assert Child(w.path[k], w.q[k]) == Some(w.path[K]);
        ReturnLevel(srcH, dst, dstH, next, w);
      }
    }
  }

  /** A climb leaves the levels below the one it returns to as they were. */
  lemma {:induction false} KeptLevel(srcH: Hashes, dst: Arena, dstH: Hashes, next: Id, w: Walker, k: nat)
    requires Sized(w) && 1 <= k && k + 1 < Top(w) && AtLevel(srcH, dst, dstH, next, w, k)
    ensures AtLevel(srcH, dst, dstH, next, Climbed(w), k)
  {
    var w' := Climbed(w);
    assert w'.path[k] == w.path[k] && w'.cs[k] == w.cs[k] && w'.cs[k - 1] == w.cs[k - 1];
    assert w'.dl[k] == w.dl[k] && w'.dr[k] == w.dr[k];
    assert w'.q[k] == w.q[k] && w'.path[k + 1] == w.path[k + 1] && w'.cs[k + 1] == w.cs[k + 1];
  }

  /** The level a climb returns to records what the climb finished. */
  lemma {:induction false} ReturnLevel(srcH: Hashes, dst: Arena, dstH: Hashes, next: Id, w: Walker)
    requires Sized(w) && Top(w) >= 2 && AtLevel(srcH, dst, dstH, next, w, Top(w) - 1)
    requires w.cs[Top(w) - 1] < w.cs[Top(w)] < next && Child(w.path[Top(w) - 1], w.q[Top(w) - 1]) == Some(w.path[Top(w)])
    requires w.path[Top(w)].Inner? ==>
               var f := Finished(w.path[Top(w)], w.cs[Top(w)], w.dl[Top(w)], w.dr[Top(w)]);
               Shape(dst, f, Some(w.cs[Top(w) - 1])) && Copied(w.path[Top(w)], srcH, f, dstH) &&
               Distinct(f) && IdsIn(f, w.cs[Top(w)], next)
    ensures AtLevel(srcH, dst, dstH, next, Climbed(w), Top(w) - 1)
  {
    var K := Top(w);
    var k := K - 1;
    var w' := Climbed(w);
    assert w'.path[k] == w.path[k] && w'.cs[k] == w.cs[k] && w'.cs[k - 1] == w.cs[k - 1];
    ClimbLevel(srcH, dst, dstH, w.path[k], w.cs[k], w.cs[k - 1], w.dl[k], w.dr[k], w.q[k], w.path[K], w.cs[K], ClimbDone(w), next);
  }

  /**
   * WalkOk after a climb from a level with nothing left to copy, and the
   * loop's measure drops; an internal source node is then fully copied.
   */
  lemma {:induction false} ClimbWalk(src: Arena, srcH: Hashes, t: Node, p: Id, lo: Id, dst: Arena, dstH: Hashes,
                                     next: Id, w: Walker)
    requires WalkOk(src, srcH, t, p, lo, dst, dstH, next, w) && Top(w) >= 1
    requires forall right :: Child(w.path[Top(w)], right).None? || ArenaChild(dst[w.cs[Top(w)]], right).Some?
    ensures WalkOk(src, srcH, t, p, lo, dst, dstH, next, Climbed(w))
    ensures Pending(Climbed(w).path, Climbed(w).cs, dst) < Pending(w.path, w.cs, dst)
    ensures w.path[Top(w)].Inner? ==>
              var f := Finished(w.path[Top(w)], w.cs[Top(w)], w.dl[Top(w)], w.dr[Top(w)]);
              Shape(dst, f, Some(w.cs[Top(w) - 1])) && Copied(w.path[Top(w)], srcH, f, dstH) &&
              Distinct(f) && IdsIn(f, w.cs[Top(w)], next)
  {
    var K := Top(w);
    var w' := Climbed(w);
    ClimbLevels(src, srcH, t, dst, dstH, next, w);
    forall k | 0 <= k < |w'.q|
      ensures Child(w'.path[k], w'.q[k]) == Some(w'.path[k + 1])
    {
      assert w'.path[k] == w.path[k] && w'.path[k + 1] == w.path[k + 1] && w'.q[k] == w.q[k];
    }
    forall k | 0 <= k < |w'.cs|
      ensures w'.cs[k] == w.cs[k]
    {
    }
    assert w.path[..K] == w'.path && w.cs[..K] == w'.cs;
  }

  // The loop's two steps.

  /** b is a as far as everything but the child links goes. */
  ghost predicate SameButLinks(a: ANode, b: ANode)
  {
    b.parent == a.parent && b.prefix == a.prefix && (b.ALeaf? <==> a.ALeaf?) && (a.ALeaf? ==> b.values == a.values)
  }

  /**
   * What one descent guarantees: the loop invariant again, the measure
   * down, the path and the clone chain one level longer with a new clone
   * numbered from next, and of the old records only the clone's, in the
   * slot it descended through, which was empty and is now linked.
   */
  ghost predicate Descended(src: Arena, srcH: Hashes, t: Node, p: Id, lo: Id, dst: Arena, dstH: Hashes, next: Id,
                            w: Walker, clone: Id, right: bool, dst': Arena, dstH': Hashes, next': Id, w': Walker)
  {
    WalkOk(src, srcH, t, p, lo, dst, dstH, next, w) && WalkOk(src, srcH, t, p, lo, dst', dstH', next', w') &&
    Pending(w'.path, w'.cs, dst') < Pending(w.path, w.cs, dst) &&
    |w'.cs| == |w.cs| + 1 && w'.cs[..|w.cs|] == w.cs && next <= w'.cs[|w.cs|] &&
    w'.path[..|w.path|] == w.path && w'.q[..|w.q|] == w.q && next < next' &&
    (forall z | z in dst && z != clone :: z in dst' && dst'[z] == dst[z]) &&
    clone in dst && clone in dst' && SameButLinks(dst[clone], dst'[clone]) && dst'[clone].AInner? &&
    ArenaChild(dst[clone], right).None? && ArenaChild(dst'[clone], right).Some? &&
    ArenaChild(dst'[clone], !right) == ArenaChild(dst[clone], !right) &&
    (forall z | z in dst' :: z in dst || next <= z < next') &&
    GrowsBy(dstH, dstH', next, next')
  }

  /** The descent into a leaf child, on the records it writes. */
  lemma {:induction false} DescendLeafStep(src: Arena, srcH: Hashes, t: Node, p: Id, lo: Id, dst: Arena, dstH: Hashes,
                                           next: Id, w: Walker, clone: Id, right: bool,
                                           dst': Arena, dstH': Hashes, next': Id, w': Walker)
    requires WalkOk(src, srcH, t, p, lo, dst, dstH, next, w) && clone == w.cs[Top(w)]
    requires Child(w.path[Top(w)], right).Some? && Child(w.path[Top(w)], right).value.Leaf?
    requires clone in dst && ArenaChild(dst[clone], right).None? && dst[clone].AInner?
    requires forall z | z in dst :: z < next
    requires forall z | z in dstH :: z < next
    requires var c := Child(w.path[Top(w)], right).value;
             c.id in srcH &&
             dst' == dst[next := ALeaf(Some(clone), c.prefix, c.values)]
                        [clone := SetArenaChild(dst[clone], right, next)]
                        [next + 1 := AInner(Some(clone), [], None, None)] &&
             dstH' == dstH[next := srcH[c.id]][next + 1 := None] && next' == next + 2 &&
             w' == Walker(w.path + [c], w.q + [right], w.cs + [next + 1],
                          (if right then w.dl else w.dl[Top(w) := Some(Leaf(next, c.prefix, c.values))]) + [None],
                          (if right then w.dr[Top(w) := Some(Leaf(next, c.prefix, c.values))] else w.dr) + [None])
    ensures Descended(src, srcH, t, p, lo, dst, dstH, next, w, clone, right, dst', dstH', next', w')
  {
    var c := Child(w.path[Top(w)], right).value;
    var done := Some(Leaf(next, c.prefix, c.values));
    assert Shape(dst', done.value, Some(clone));
    DescendWalk(src, srcH, t, p, lo, dst, dstH, next, w, right, c, next, done, dst', dstH', next', w');
    assert w'.cs[..|w.cs|] == w.cs && w'.path[..|w.path|] == w.path && w'.q[..|w.q|] == w.q;
  }

  /** The descent into an internal child, on the records it writes. */
  lemma {:induction false} DescendInnerStep(src: Arena, srcH: Hashes, t: Node, p: Id, lo: Id, dst: Arena, dstH: Hashes,
                                            next: Id, w: Walker, clone: Id, right: bool,
                                            dst': Arena, dstH': Hashes, next': Id, w': Walker)
    requires WalkOk(src, srcH, t, p, lo, dst, dstH, next, w) && clone == w.cs[Top(w)]
    requires Child(w.path[Top(w)], right).Some? && Child(w.path[Top(w)], right).value.Inner?
    requires clone in dst && ArenaChild(dst[clone], right).None? && dst[clone].AInner?
    requires forall z | z in dst :: z < next
    requires forall z | z in dstH :: z < next
    requires var c := Child(w.path[Top(w)], right).value;
             c.id in srcH &&
             dst' == dst[next := AInner(Some(clone), c.prefix, None, None)][clone := SetArenaChild(dst[clone], right, next)] &&
             dstH' == dstH[next := srcH[c.id]] && next' == next + 1 &&
             w' == Walker(w.path + [c], w.q + [right], w.cs + [next],
                          (if right then w.dl else w.dl[Top(w) := None]) + [None],
                          (if right then w.dr[Top(w) := None] else w.dr) + [None])
    ensures Descended(src, srcH, t, p, lo, dst, dstH, next, w, clone, right, dst', dstH', next', w')
  {
    var c := Child(w.path[Top(w)], right).value;
    DescendWalk(src, srcH, t, p, lo, dst, dstH, next, w, right, c, next, None, dst', dstH', next', w');
    assert w'.cs[..|w.cs|] == w.cs && w'.path[..|w.path|] == w.path && w'.q[..|w.q|] == w.q;
  }

  // The whole loop.

  /**
   * What the iterative copy does outside the records it creates (numbered
   * in [lo, hi), above every record of dst): every other record is kept,
   * every hash kept, and the
   * parent's record keeps its label and parent link and every link it
   * had; a link it gains is in a slot where the source root t has a child.
   */
  ghost predicate ParentKept(t: Node, parent: Id, lo: Id, dst: Arena, dstH: Hashes, dst': Arena, dstH': Hashes, hi: Id)
  {
    (forall id | id in dst :: id < lo) && GrowsBy(dstH, dstH', lo, hi) &&
    (forall id | id in dst && id != parent :: id in dst' && dst'[id] == dst[id]) &&
    (forall id | id in dst' :: id in dst || lo <= id < hi) &&
    parent in dst && parent in dst' && SameButLinks(dst[parent], dst'[parent]) && dst'[parent].AInner? &&
    (forall right | ArenaChild(dst[parent], right).Some? || Child(t, right).None? ::
       ArenaChild(dst'[parent], right) == ArenaChild(dst[parent], right))
  }

  /**
   * The copy the iterative copy returns: while the loop is still inside
   * it, its clone ret is on the chain just under the parent; once finished,
   * a copy of t's child b hanging under the parent, numbered in [lo, hi),
   * below every clone the loop has made since.
   */
  ghost predicate ResOk(srcH: Hashes, t: Node, b: bool, parent: Id, ret: Id, lo: Id, dst: Arena, dstH: Hashes, next: Id,
                        w: Walker, inside: bool, res: Option<Node>, hi: Id)
  {
    (res.None? ==> Child(t, b).Some? && Child(t, b).value.Inner? && inside && Sized(w) && |w.cs| >= 2 && w.cs[1] == ret && w.q[0] == b) &&
    (res.Some? ==> Child(t, b).Some? && res.value.id == ret && Shape(dst, res.value, Some(parent)) &&
                   Copied(Child(t, b).value, srcH, res.value, dstH) && Distinct(res.value) &&
                   IdsIn(res.value, lo, hi) && hi <= next && (inside && Sized(w) && |w.cs| >= 2 ==> hi <= w.cs[1]))
  }

  /** The loop's start: the clone ret of t's internal child b hangs under the parent, both slots empty. */
  lemma {:induction false} StartWalk(src: Arena, srcH: Hashes, t: Node, b: bool, parent: Id, dst: Arena, dstH: Hashes,
                                     next: Id, dst': Arena, dstH': Hashes, w: Walker)
    requires Shape(src, t, None) && Ids(t) <= srcH.Keys && Child(t, b).Some? && Child(t, b).value.Inner?
    requires parent in dst && dst[parent].AInner? && dst[parent].parent.None?
    requires forall id | id in dst :: id < next
    requires var c := Child(t, b).value;
             dst' == dst[next := AInner(Some(parent), c.prefix, None, None)] && dstH' == dstH[next := srcH[c.id]] &&
             w == Walker([t, c], [b], [parent, next], [None, None], [None, None])
    ensures WalkOk(src, srcH, t, parent, next, dst', dstH', next + 1, w)
    ensures ResOk(srcH, t, b, parent, next, next, dst', dstH', next + 1, w, true, None, next)
  {
    var c := Child(t, b).value;
    assert Ids(c) <= Ids(t);
    assert AtLevel(srcH, dst', dstH', next + 1, w, 1);
  }

  /**
   * The invariant of the iterative copy's loop, at source node cur and
   * clone record clone (both nil once the loop has climbed past the root):
   * the walk invariant, the records outside the copy kept since (dst0,
   * dstH0), and the returned copy.
   */
  ghost predicate CopyLoop(src: Arena, srcH: Hashes, t: Node, b: bool, parent: Id, ret: Id, lo: Id,
                           dst0: Arena, dstH0: Hashes, cur: Option<Id>, clone: Option<Id>,
                           dst: Arena, dstH: Hashes, next: Id, w: Walker, res: Option<Node>, hi: Id)
  {
    (cur.Some? <==> clone.Some?) &&
    (cur.Some? ==> WalkOk(src, srcH, t, parent, lo, dst, dstH, next, w) &&
                   cur.value == w.path[Top(w)].id && clone.value == w.cs[Top(w)]) &&
    lo < next && ParentKept(t, parent, lo, dst0, dstH0, dst, dstH, next) &&
    (forall id | id in dst :: id < next) && (forall id | id in dstH :: id < next) &&
    ResOk(srcH, t, b, parent, ret, lo, dst, dstH, next, w, cur.Some?, res, hi)
  }

  /** The iterations the loop has left; none once it has climbed past the root. */
  ghost function Left(cur: Option<Id>, w: Walker, dst: Arena): nat
  {
    if cur.Some? && Sized(w) && forall k | 0 <= k < |w.cs| :: w.cs[k] in dst then Pending(w.path, w.cs, dst) else 0
  }

  /** A descent keeps the loop invariant and spends an iteration. */
  lemma {:induction false} DescentLoop(src: Arena, srcH: Hashes, t: Node, b: bool, parent: Id, ret: Id, lo: Id,
                                       dst0: Arena, dstH0: Hashes, cur: Option<Id>, clone: Option<Id>,
                                       dst: Arena, dstH: Hashes, next: Id, w: Walker, res: Option<Node>, hi: Id,
                                       right: bool, cur': Id, clone': Id, dst': Arena, dstH': Hashes, next': Id, w': Walker)
    requires CopyLoop(src, srcH, t, b, parent, ret, lo, dst0, dstH0, cur, clone, dst, dstH, next, w, res, hi) && cur.Some?
    requires Descended(src, srcH, t, parent, lo, dst, dstH, next, w, clone.value, right, dst', dstH', next', w')
    requires Child(w.path[Top(w)], right).Some?
    requires cur' == w'.path[Top(w')].id && clone' == w'.cs[Top(w')]
    requires forall id | id in dst' :: id < next'
    requires forall id | id in dstH' :: id < next'
    ensures CopyLoop(src, srcH, t, b, parent, ret, lo, dst0, dstH0, Some(cur'), Some(clone'), dst', dstH', next', w', res, hi)
    ensures Left(Some(cur'), w', dst') < Left(cur, w, dst)
  {
    var K := Top(w);
    var cl := clone.value;
    if K > 0 {
      assert lo <= w.cs[K];
    }
    if cl == parent {
      assert K == 0;
      forall right' | ArenaChild(dst0[parent], right').Some? || Child(t, right').None?
        ensures ArenaChild(dst'[parent], right') == ArenaChild(dst0[parent], right')
      {
        assert right' != right;
      }
    }
    assert w'.cs[..|w.cs|] == w.cs && w'.q[..|w.q|] == w.q;
    if res.None? {
      assert w'.cs[1] == w.cs[1] && w'.q[0] == w.q[0];
    } else {
      var f := res.value;
      if K > 0 {
        assert w.cs[1] <= w.cs[K];
      }
      forall id | id in Ids(f) && id in dst
        ensures id in dst' && dst'[id] == dst[id]
      {
        assert lo <= id < hi;
      }
      ShapeFrame(dst, dst', f, Some(parent));
      CopiedFrame(Child(t, b).value, srcH, f, dstH, dstH');
      if |w.cs| >= 2 {
        assert w'.cs[1] == w.cs[1];
      }
    }
  }

  /**
   * WalkOk after a climb from a level below the parent with nothing left
   * to copy, the measure down, and the returned copy kept, or finished
   * when the climb leaves ret's level.
   */
  lemma {:induction false} ClimbRes(src: Arena, srcH: Hashes, t: Node, b: bool, parent: Id, ret: Id, lo: Id,
                                    dst: Arena, dstH: Hashes, next: Id, w: Walker, res: Option<Node>, hi: Id)
    returns (res': Option<Node>, hi': Id)
    requires WalkOk(src, srcH, t, parent, lo, dst, dstH, next, w) && Top(w) >= 1
    requires forall right :: Child(w.path[Top(w)], right).None? || ArenaChild(dst[w.cs[Top(w)]], right).Some?
    requires ResOk(srcH, t, b, parent, ret, lo, dst, dstH, next, w, true, res, hi)
    ensures WalkOk(src, srcH, t, parent, lo, dst, dstH, next, Climbed(w))
    ensures Pending(Climbed(w).path, Climbed(w).cs, dst) < Pending(w.path, w.cs, dst)
    ensures ResOk(srcH, t, b, parent, ret, lo, dst, dstH, next, Climbed(w), true, res', hi')
  {
    var K := Top(w);
    var w' := Climbed(w);
    ClimbWalk(src, srcH, t, parent, lo, dst, dstH, next, w);
    res' := if res.None? && K == 1 then Some(Finished(w.path[1], w.cs[1], w.dl[1], w.dr[1])) else res;
    hi' := if res.None? && K == 1 then next else hi;
    if res.None? {
      assert Child(w.path[0], w.q[0]) == Some(w.path[1]);
      if K == 1 {
        var f := res'.value;
        assert IdsIn(f, w.cs[1], next);
        assert lo <= w.cs[1];
      } else {
        assert w'.cs[1] == w.cs[1] && w'.q[0] == w.q[0];
      }
    } else if K >= 2 {
      assert w'.cs[1] == w.cs[1];
    }
  }

  /** A climb from the source root ends the loop, with the returned copy finished. */
  lemma {:induction false} ClimbOut(src: Arena, srcH: Hashes, t: Node, b: bool, parent: Id, ret: Id, lo: Id,
                                    dst0: Arena, dstH0: Hashes, cur: Option<Id>, clone: Option<Id>,
                                    dst: Arena, dstH: Hashes, next: Id, w: Walker, res: Option<Node>, hi: Id)
    requires CopyLoop(src, srcH, t, b, parent, ret, lo, dst0, dstH0, cur, clone, dst, dstH, next, w, res, hi) && cur.Some?
    requires Top(w) == 0
    ensures cur.value in src && clone.value in dst && src[cur.value].parent.None? && dst[clone.value].parent.None?
    ensures CopyLoop(src, srcH, t, b, parent, ret, lo, dst0, dstH0, None, None, dst, dstH, next, w, res, hi)
    ensures Left(None, w, dst) < Left(cur, w, dst)
  {
    assert w.path[..0] == [] && w.cs[..0] == [];
    assert Pending(w.path, w.cs, dst) >= 1;
  }

  /**
   * A climb from a level below the parent, where every child of the source
   * node has a linked clone, moves to the level above and keeps the loop
   * invariant; the returned copy is finished when the climb leaves ret.
   */
  lemma {:induction false} ClimbUp(src: Arena, srcH: Hashes, t: Node, b: bool, parent: Id, ret: Id, lo: Id,
                                   dst0: Arena, dstH0: Hashes, cur: Option<Id>, clone: Option<Id>,
                                   dst: Arena, dstH: Hashes, next: Id, w: Walker, res: Option<Node>, hi: Id)
    returns (res': Option<Node>, hi': Id)
    requires CopyLoop(src, srcH, t, b, parent, ret, lo, dst0, dstH0, cur, clone, dst, dstH, next, w, res, hi) && cur.Some?
    requires Top(w) >= 1 && cur.value in src && clone.value in dst
    requires forall right :: ArenaChild(src[cur.value], right).None? || ArenaChild(dst[clone.value], right).Some?
    ensures CopyLoop(src, srcH, t, b, parent, ret, lo, dst0, dstH0, src[cur.value].parent, dst[clone.value].parent,
                     dst, dstH, next, Climbed(w), res', hi')
    ensures Left(src[cur.value].parent, Climbed(w), dst) < Left(cur, w, dst)
  {
    ClimbLinks(src, srcH, t, parent, lo, dst, dstH, next, w);
    res', hi' := ClimbRes(src, srcH, t, b, parent, ret, lo, dst, dstH, next, w, res, hi);
  }

  /** The parent links a climb from a level below the parent follows, and the source node's children. */
  lemma {:induction false} ClimbLinks(src: Arena, srcH: Hashes, t: Node, p: Id, lo: Id, dst: Arena, dstH: Hashes, next: Id, w: Walker)
    requires WalkOk(src, srcH, t, p, lo, dst, dstH, next, w) && Top(w) >= 1
    ensures w.path[Top(w)].id in src && src[w.path[Top(w)].id].parent == Some(w.path[Top(w) - 1].id)
    ensures w.cs[Top(w)] in dst && dst[w.cs[Top(w)]].parent == Some(w.cs[Top(w) - 1])
    ensures forall right :: ArenaChild(src[w.path[Top(w)].id], right) == IdOf(Child(w.path[Top(w)], right))
  {
    var K := Top(w);
    PathShape(src, srcH, t, w, K);
    assert AtLevel(srcH, dst, dstH, next, w, K);
    ShapeChild(src, w.path[K], Above(w, K), false);
    ShapeChild(src, w.path[K], Above(w, K), true);
  }

  /**
   * One climb of the iterative copy, from a level where every child of
   * the source node has a linked clone: to the source node's parent and
   * the clone's parent, both nil at the source root, which ends the loop.
   */
  method Climb(src: Arena, srcH: Hashes, ghost t: Node, ghost b: bool, parent: Id, ghost ret: Id, ghost lo: Id,
               ghost dst0: Arena, ghost dstH0: Hashes, cur: Option<Id>, clone: Option<Id>,
               dst: Arena, dstH: Hashes, next: Id, ghost w: Walker, ghost res: Option<Node>, ghost hi: Id)
    returns (cur': Option<Id>, clone': Option<Id>, ghost w': Walker, ghost res': Option<Node>, ghost hi': Id)
    requires CopyLoop(src, srcH, t, b, parent, ret, lo, dst0, dstH0, cur, clone, dst, dstH, next, w, res, hi) && cur.Some?
    requires cur.value in src && clone.value in dst
    requires forall right :: ArenaChild(src[cur.value], right).None? || ArenaChild(dst[clone.value], right).Some?
    ensures CopyLoop(src, srcH, t, b, parent, ret, lo, dst0, dstH0, cur', clone', dst, dstH, next, w', res', hi')
    ensures Left(cur', w', dst) < Left(cur, w, dst)
  {
    var n, cl := cur.value, clone.value;
    cur', clone' := src[n].parent, dst[cl].parent;
    if Top(w) == 0 {
      ClimbOut(src, srcH, t, b, parent, ret, lo, dst0, dstH0, cur, clone, dst, dstH, next, w, res, hi);
      w', res', hi' := w, res, hi;
    } else {
      res', hi' := ClimbUp(src, srcH, t, b, parent, ret, lo, dst0, dstH0, cur, clone, dst, dstH, next, w, res, hi);
      w' := Climbed(w);
    }
  }

  /** The source node and the clone at the top of the walk, and the children of the source node. */
  lemma {:induction false} LoopChild(src: Arena, srcH: Hashes, t: Node, p: Id, lo: Id, dst: Arena, dstH: Hashes, next: Id,
                                     w: Walker, right: bool)
    requires WalkOk(src, srcH, t, p, lo, dst, dstH, next, w)
    ensures w.path[Top(w)].id in src && w.cs[Top(w)] in dst && dst[w.cs[Top(w)]].AInner?
    ensures ArenaChild(src[w.path[Top(w)].id], right) == IdOf(Child(w.path[Top(w)], right))
    ensures Child(w.path[Top(w)], right).Some? ==>
              var c := Child(w.path[Top(w)], right).value;
              c.id in src && c.id in srcH && (src[c.id].ALeaf? <==> c.Leaf?) && src[c.id].prefix == c.prefix &&
              (c.Leaf? ==> src[c.id].values == c.values)
  {
    var K := Top(w);
    PathShape(src, srcH, t, w, K);
    ShapeChild(src, w.path[K], Above(w, K), right);
    if Child(w.path[K], right).Some? {
      assert Child(w.path[K], right).value.id in Ids(w.path[K]);
    }
    if K > 0 {
      assert AtLevel(srcH, dst, dstH, next, w, K);
    }
  }

  /**
   * One descent of the iterative copy into a leaf child, from the clone
   * whose slot `right` is empty while the source node has the leaf there:
   * the leaf is cloned (cloneLeafNode) and linked, and the loop moves into
   * a childless placeholder record under the clone, with no label and a
   * nil hash.
   */
  method DescendLeaf(src: Arena, srcH: Hashes, ghost t: Node, ghost b: bool, parent: Id, ghost ret: Id, ghost lo: Id,
                     ghost dst0: Arena, ghost dstH0: Hashes, cur: Option<Id>, clone: Option<Id>,
                     dst: Arena, dstH: Hashes, next: Id, ghost w: Walker, ghost res: Option<Node>, ghost hi: Id, right: bool)
    returns (cur': Option<Id>, clone': Option<Id>, dst': Arena, dstH': Hashes, next': Id, ghost w': Walker)
    requires CopyLoop(src, srcH, t, b, parent, ret, lo, dst0, dstH0, cur, clone, dst, dstH, next, w, res, hi) && cur.Some?
    requires cur.value in src && clone.value in dst
    requires ArenaChild(src[cur.value], right).Some? && ArenaChild(dst[clone.value], right).None?
    requires ArenaChild(src[cur.value], right).value in src && src[ArenaChild(src[cur.value], right).value].ALeaf?
    ensures CopyLoop(src, srcH, t, b, parent, ret, lo, dst0, dstH0, cur', clone', dst', dstH', next', w', res, hi)
    ensures Left(cur', w', dst') < Left(cur, w, dst)
  {
    var n, cl := cur.value, clone.value;
    LoopChild(src, srcH, t, parent, lo, dst, dstH, next, w, right);
    ghost var c := Child(w.path[Top(w)], right).value;
    var child := ArenaChild(src[n], right).value;
    var x, d1, h1, n1 := CloneLeafNode(src, srcH, child, Some(cl), dst, dstH, next);
    dst' := d1[cl := SetArenaChild(dst[cl], right, x)][n1 := AInner(Some(cl), [], None, None)];
    dstH' := h1[n1 := None];
    cur', clone', next' := Some(child), Some(n1), n1 + 1;
    w' := Walker(w.path + [c], w.q + [right], w.cs + [n1],
                 (if right then w.dl else w.dl[Top(w) := Some(Leaf(x, c.prefix, c.values))]) + [None],
                 (if right then w.dr[Top(w) := Some(Leaf(x, c.prefix, c.values))] else w.dr) + [None]);
    DescendLeafStep(src, srcH, t, parent, lo, dst, dstH, next, w, cl, right, dst', dstH', next', w');
    DescentLoop(src, srcH, t, b, parent, ret, lo, dst0, dstH0, cur, clone, dst, dstH, next, w, res, hi,
                right, child, n1, dst', dstH', next', w');
  }

  /**
   * One descent of the iterative copy into an internal child, from the
   * clone whose slot `right` is empty while the source node has the child
   * there: a new record with the child's label and hash and no children is
   * linked, and the loop moves into it.
   */
  method DescendInner(src: Arena, srcH: Hashes, ghost t: Node, ghost b: bool, parent: Id, ghost ret: Id, ghost lo: Id,
                      ghost dst0: Arena, ghost dstH0: Hashes, cur: Option<Id>, clone: Option<Id>,
                      dst: Arena, dstH: Hashes, next: Id, ghost w: Walker, ghost res: Option<Node>, ghost hi: Id, right: bool)
    returns (cur': Option<Id>, clone': Option<Id>, dst': Arena, dstH': Hashes, next': Id, ghost w': Walker)
    requires CopyLoop(src, srcH, t, b, parent, ret, lo, dst0, dstH0, cur, clone, dst, dstH, next, w, res, hi) && cur.Some?
    requires cur.value in src && clone.value in dst
    requires ArenaChild(src[cur.value], right).Some? && ArenaChild(dst[clone.value], right).None?
    requires ArenaChild(src[cur.value], right).value in src && src[ArenaChild(src[cur.value], right).value].AInner?
    ensures CopyLoop(src, srcH, t, b, parent, ret, lo, dst0, dstH0, cur', clone', dst', dstH', next', w', res, hi)
    ensures Left(cur', w', dst') < Left(cur, w, dst)
  {
    var n, cl := cur.value, clone.value;
    LoopChild(src, srcH, t, parent, lo, dst, dstH, next, w, right);
    ghost var c := Child(w.path[Top(w)], right).value;
    var child := ArenaChild(src[n], right).value;
    var nc := next;
    dst' := dst[nc := AInner(Some(cl), src[child].prefix, None, None)][cl := SetArenaChild(dst[cl], right, nc)];
    dstH' := dstH[nc := srcH[child]];
    cur', clone', next' := Some(child), Some(nc), next + 1;
    w' := Walker(w.path + [c], w.q + [right], w.cs + [nc],
                 (if right then w.dl else w.dl[Top(w) := None]) + [None],
                 (if right then w.dr[Top(w) := None] else w.dr) + [None]);
    DescendInnerStep(src, srcH, t, parent, lo, dst, dstH, next, w, cl, right, dst', dstH', next', w');
    DescentLoop(src, srcH, t, b, parent, ret, lo, dst0, dstH0, cur, clone, dst, dstH, next, w, res, hi,
                right, child, nc, dst', dstH', next', w');
  }

  /**
   * One iteration of the loop of deepCopyInternalNodeIterative: descend
   * into the left child if the source node has one and the clone's left
   * slot is empty, else the same on the right, else climb to the parents.
   */
  method CopyStep(src: Arena, srcH: Hashes, ghost t: Node, ghost b: bool, parent: Id, ghost ret: Id, ghost lo: Id,
                  ghost dst0: Arena, ghost dstH0: Hashes, cur: Option<Id>, clone: Option<Id>,
                  dst: Arena, dstH: Hashes, next: Id, ghost w: Walker, ghost res: Option<Node>, ghost hi: Id)
    returns (cur': Option<Id>, clone': Option<Id>, dst': Arena, dstH': Hashes, next': Id,
             ghost w': Walker, ghost res': Option<Node>, ghost hi': Id)
    requires CopyLoop(src, srcH, t, b, parent, ret, lo, dst0, dstH0, cur, clone, dst, dstH, next, w, res, hi) && cur.Some?
    ensures CopyLoop(src, srcH, t, b, parent, ret, lo, dst0, dstH0, cur', clone', dst', dstH', next', w', res', hi')
    ensures Left(cur', w', dst') < Left(cur, w, dst)
  {
    var n, cl := cur.value, clone.value;
    LoopChild(src, srcH, t, parent, lo, dst, dstH, next, w, false);
    LoopChild(src, srcH, t, parent, lo, dst, dstH, next, w, true);
    var sl, sr := ArenaChild(src[n], false), ArenaChild(src[n], true);
    if (sl.Some? && ArenaChild(dst[cl], false).None?) || (sr.Some? && ArenaChild(dst[cl], true).None?) {
      var right := !(sl.Some? && ArenaChild(dst[cl], false).None?);
      var child := if right then sr.value else sl.value;
      if src[child].ALeaf? {
        cur', clone', dst', dstH', next', w' :=
          DescendLeaf(src, srcH, t, b, parent, ret, lo, dst0, dstH0, cur, clone, dst, dstH, next, w, res, hi, right);
      } else {
        cur', clone', dst', dstH', next', w' :=
          DescendInner(src, srcH, t, b, parent, ret, lo, dst0, dstH0, cur, clone, dst, dstH, next, w, res, hi, right);
      }
      res', hi' := res, hi;
    } else {
      dst', dstH', next' := dst, dstH, next;
      cur', clone', w', res', hi' := Climb(src, srcH, t, b, parent, ret, lo, dst0, dstH0, cur, clone, dst, dstH, next, w, res, hi);
    }
  }

  /**
   * deepCopyInternalNodeIterative as copyFast calls it, with the new root
   * as parent and a child b of the source root t as node: nil for a nil
   * child; a leaf clone for a leaf; otherwise a new record ret under the
   * parent (not linked into it), after which the loop walks the source
   * subtree depth first, at each node cloning the first child whose slot
   * in the clone is still empty and descending into it, and climbing to
   * the parents when none is left. The walk does not stop at ret: it
   * climbs on to the source root and the parent, copies the root's
   * children whose slots in the parent are still empty into those slots,
   * and ends when it climbs past the root.
   * The result is a copy of the child (Copied) made of new, distinct
   * identities; no other record changes, except that the parent may gain
   * links in slots where the source root has a child.
   */
  method DeepCopyInternalNodeIterative(src: Arena, srcH: Hashes, ghost t: Node, ghost b: bool, parent: Id, node: Option<Id>,
                                       dst: Arena, dstH: Hashes, next: Id)
    returns (r: Option<Id>, dst': Arena, dstH': Hashes, next': Id, ghost s': Node)
    requires Shape(src, t, None) && Ids(t) <= srcH.Keys && node == IdOf(Child(t, b))
    requires parent in dst && dst[parent].AInner? && dst[parent].parent.None?
    requires forall id | id in dst :: id < next
    requires forall id | id in dstH :: id < next
    ensures next <= next' && ParentKept(t, parent, next, dst, dstH, dst', dstH', next')
    ensures forall id | id in dst' :: id < next'
    ensures forall id | id in dstH' :: id < next'
    ensures node.None? ==> r.None?
    ensures node.Some? ==> r == Some(s'.id) && Shape(dst', s', Some(parent)) && Copied(Child(t, b).value, srcH, s', dstH')
    ensures node.Some? ==> Distinct(s') && IdsIn(s', next, next')
  {
    if node.None? {
      return None, dst, dstH, next, t;
    }
    ShapeChild(src, t, None, b);
    ghost var c0 := Child(t, b).value;
    assert Ids(c0) <= Ids(t);
    var n0 := node.value;
    if src[n0].ALeaf? {
      var x;
      x, dst', dstH', next' := CloneLeafNode(src, srcH, n0, Some(parent), dst, dstH, next);
      s' := Leaf(x, c0.prefix, c0.values);
      r := Some(x);
      return;
    }
    var ret := next;
    dst' := dst[ret := AInner(Some(parent), src[n0].prefix, None, None)];
    dstH' := dstH[ret := srcH[n0]];
    next' := next + 1;
    ghost var w := Walker([t, c0], [b], [parent, ret], [None, None], [None, None]);
    StartWalk(src, srcH, t, b, parent, dst, dstH, next, dst', dstH', w);
    dst', dstH', next', s' := CopyAll(src, srcH, t, b, parent, ret, next, dst, dstH, node, Some(ret), dst', dstH', next', w);
    r := Some(ret);
  }

  /** The loop of the iterative copy, run from the first child's clone to the source root. */
  method CopyAll(src: Arena, srcH: Hashes, ghost t: Node, ghost b: bool, parent: Id, ghost ret: Id, ghost lo: Id,
                 ghost dst0: Arena, ghost dstH0: Hashes, node: Option<Id>, first: Option<Id>,
                 dst: Arena, dstH: Hashes, next: Id, ghost w: Walker)
    returns (dst': Arena, dstH': Hashes, next': Id, ghost s': Node)
    requires CopyLoop(src, srcH, t, b, parent, ret, lo, dst0, dstH0, node, first, dst, dstH, next, w, None, lo)
    ensures lo <= next' && ParentKept(t, parent, lo, dst0, dstH0, dst', dstH', next')
    ensures forall id | id in dst' :: id < next'
    ensures forall id | id in dstH' :: id < next'
    ensures Child(t, b).Some? && s'.id == ret && Shape(dst', s', Some(parent)) && Copied(Child(t, b).value, srcH, s', dstH')
    ensures Distinct(s') && IdsIn(s', lo, next')
  {
    ghost var res: Option<Node> := None;
    ghost var hi: Id := lo;
    ghost var w' := w;
    var cur, clone := node, first;
    dst', dstH', next' := dst, dstH, next;
    while cur.Some?
      invariant CopyLoop(src, srcH, t, b, parent, ret, lo, dst0, dstH0, cur, clone, dst', dstH', next', w', res, hi)
      decreases Left(cur, w', dst')
    {
      cur, clone, dst', dstH', next', w', res, hi :=
        CopyStep(src, srcH, t, b, parent, ret, lo, dst0, dstH0, cur, clone, dst', dstH', next', w', res, hi);
    }
    s' := res.value;
  }

  // copyFast.

  /**
   * copyFast on the arenas: a new root record 0 with the source root's
   * label and hash and no parent, then each child copied under it by the
   * iterative copy and linked into its slot when present. The result is a
   * copy of the whole source tree (Copied) with distinct identities, all
   * below next, its root at 0.
   */
  method CopyTree(src: Arena, srcH: Hashes, ghost t: Node, root: Id)
    returns (dst: Arena, dstH: Hashes, next: Id, ghost t': Node)
    requires Shape(src, t, None) && Ids(t) <= srcH.Keys && t.Inner? && root == t.id
    ensures Shape(dst, t', None) && t'.id == 0 && Copied(t, srcH, t', dstH) && Distinct(t')
    ensures forall id | id in dst :: id < next
    ensures forall id | id in dstH :: id < next
  {
    ShapeChild(src, t, None, false);
    ShapeChild(src, t, None, true);
    var d0 := map[0 := AInner(None, src[root].prefix, None, None)];
    var h0 := map[0 := srcH[root]];
    var l, d1, h1, n1, sl := DeepCopyInternalNodeIterative(src, srcH, t, false, 0, src[root].left, d0, h0, 1);
    var e1 := d1;
    if l.Some? {
      e1 := d1[0 := SetArenaChild(d1[0], false, l.value)];
    }
    var r, d2, h2, n2, sr := DeepCopyInternalNodeIterative(src, srcH, t, true, 0, src[root].right, e1, h1, n1);
    dst, dstH, next := d2, h2, n2;
    if r.Some? {
      dst := d2[0 := SetArenaChild(d2[0], true, r.value)];
    }
    t' := Inner(0, t.prefix, if l.Some? then Some(sl) else None, if r.Some? then Some(sr) else None);
    RootCopied(srcH, t, d1, h1, n1, sl, l.Some?, d2, h2, sr, r.Some?, dst, t');
  }

  /** The two children copied under root 0 make, with it, a copy of the source tree. */
  lemma {:induction false} RootCopied(srcH: Hashes, t: Node, d1: Arena, h1: Hashes, n1: Id, sl: Node, hasL: bool,
                                      d2: Arena, h2: Hashes, sr: Node, hasR: bool, dst: Arena, t': Node)
    requires t.Inner? && t.id in srcH && 0 in h1 && h1[0] == srcH[t.id] && 1 <= n1
    requires hasL <==> t.left.Some?
    requires hasR <==> t.right.Some?
    requires hasL ==> Shape(d1, sl, Some(0)) && Copied(t.left.value, srcH, sl, h1) && Distinct(sl) && IdsIn(sl, 1, n1)
    requires hasR ==> Shape(d2, sr, Some(0)) && Copied(t.right.value, srcH, sr, h2) && Distinct(sr) &&
                      (forall id | id in Ids(sr) :: n1 <= id)
    requires forall id | id in d1 && id != 0 :: id in d2 && d2[id] == d1[id]
    requires forall id | id in h1 :: id in h2 && h2[id] == h1[id]
    requires forall id | id in d2 && id != 0 :: id in dst && dst[id] == d2[id]
    requires 0 in dst && dst[0].AInner? && dst[0].parent.None? && dst[0].prefix == t.prefix
    requires dst[0].left == (if hasL then Some(sl.id) else None) && dst[0].right == (if hasR then Some(sr.id) else None)
    requires t' == Inner(0, t.prefix, if hasL then Some(sl) else None, if hasR then Some(sr) else None)
    ensures Shape(dst, t', None) && Copied(t, srcH, t', h2) && Distinct(t')
  {
    if hasL {
      ShapeIds(d1, sl, Some(0));
      ShapeFrame(d1, dst, sl, Some(0));
      CopiedFrame(t.left.value, srcH, sl, h1, h2);
    }
    if hasR {
      ShapeIds(d2, sr, Some(0));
      ShapeFrame(d2, dst, sr, Some(0));
    }
    if hasL && hasR {
      assert Ids(sl) !! Ids(sr) by {
        forall id | id in Ids(sl) ensures id !in Ids(sr) { }
      }
    }
  }
}
