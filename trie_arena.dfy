/**
 * The pointer structure of core/prefix_tree.go as an arena: node records
 * keyed by identity, with parent and child links as identities, and the
 * node hashes in a second map keyed the same way. Shape says that an arena
 * holds exactly the nodes of a TrieSpec tree; AllHashed and HashedExcept
 * say which stored hashes are up to date.
 */
module TrieArena {
  import opened Wrappers
  import opened Bits
  import opened Crypto
  import opened TrieSpec

  /** A node record: the parent link, the partial prefix and the leaf values or child links. */
  datatype ANode =
    | ALeaf(parent: Option<Id>, prefix: Bytes, values: seq<KeyHash>)
    | AInner(parent: Option<Id>, prefix: Bytes, left: Option<Id>, right: Option<Id>)

  type Arena = map<Id, ANode>

  /** The hash field of every node; nil until updateHash has run. */
  type Hashes = map<Id, NBytes>

  function IdOf(o: Option<Node>): Option<Id>
  {
    if o.Some? then Some(o.value.id) else None
  }

  function ArenaChild(a: ANode, right: bool): Option<Id>
  {
    if a.ALeaf? then None else if right then a.right else a.left
  }

  function SetArenaChild(a: ANode, right: bool, id: Id): (r: ANode)
    requires a.AInner?
    ensures r.AInner? && r.parent == a.parent && r.prefix == a.prefix
    ensures ArenaChild(r, right) == Some(id) && ArenaChild(r, !right) == ArenaChild(a, !right)
  {
    if right then a.(right := Some(id)) else a.(left := Some(id))
  }

  /** getPartialPrefix: nil for the root, whose label is empty. */
  function PartialPrefix(a: ANode): NBytes
  {
    if a.prefix == [] then None else Some(a.prefix)
  }

  /** The arena holds the nodes of t under their identities, with t's parent link. */
  predicate Shape(m: Arena, t: Node, parent: Option<Id>)
    decreases t
  {
    t.id in m && m[t.id].parent == parent && m[t.id].prefix == t.prefix &&
    match t
    case Leaf(id, _, vals) => m[id].ALeaf? && m[id].values == vals
    case Inner(id, _, l, r) =>
      m[id].AInner? && m[id].left == IdOf(l) && m[id].right == IdOf(r) &&
      (l.Some? ==> Shape(m, l.value, Some(id))) &&
      (r.Some? ==> Shape(m, r.value, Some(id)))
  }

  /** The parent link of the node at q, when t's own parent link is parent. */
  function ParentAt(t: Node, q: seq<bool>, parent: Option<Id>): Option<Id>
    requires Sub(t, q).Some?
    decreases |q|
  {
    if q == [] then parent else ParentAt(Child(t, q[0]).value, q[1..], Some(t.id))
  }

  lemma ShapeChild(m: Arena, t: Node, parent: Option<Id>, right: bool)
    requires Shape(m, t, parent)
    ensures ArenaChild(m[t.id], right) == IdOf(Child(t, right))
    ensures Child(t, right).Some? ==> Shape(m, Child(t, right).value, Some(t.id))
  {
  }

  lemma {:induction false} ShapeSub(m: Arena, t: Node, q: seq<bool>, parent: Option<Id>)
    requires Shape(m, t, parent) && Sub(t, q).Some?
    ensures Shape(m, Sub(t, q).value, ParentAt(t, q, parent))
    decreases |q|
  {
    if q != [] {
      ShapeSub(m, Child(t, q[0]).value, q[1..], Some(t.id));
    }
  }

  /** Below the top, the parent link names the node one step up the path. */
  lemma {:induction false} ParentAtLast(t: Node, q: seq<bool>, parent: Option<Id>)
    requires Sub(t, q).Some? && q != []
    ensures Sub(t, q[..|q| - 1]).Some?
    ensures ParentAt(t, q, parent) == Some(Sub(t, q[..|q| - 1]).value.id)
    decreases |q|
  {
    SubLast(t, q);
    if |q| > 1 {
      ParentAtLast(Child(t, q[0]).value, q[1..], Some(t.id));
      assert q[1..][..|q| - 2] == q[..|q| - 1][1..];
    }
  }

  lemma {:induction false} ShapeIds(m: Arena, t: Node, parent: Option<Id>)
    requires Shape(m, t, parent)
    ensures Ids(t) <= m.Keys
    decreases t
  {
    if Child(t, false).Some? { ShapeIds(m, Child(t, false).value, Some(t.id)); }
    if Child(t, true).Some? { ShapeIds(m, Child(t, true).value, Some(t.id)); }
  }

  /** Shape reads only the records of t's nodes. */
  lemma {:induction false} ShapeFrame(m: Arena, m': Arena, t: Node, parent: Option<Id>)
    requires Shape(m, t, parent)
    requires forall id | id in Ids(t) && id in m :: id in m' && m'[id] == m[id]
    ensures Shape(m', t, parent)
    decreases t
  {
    if Child(t, false).Some? { ShapeFrame(m, m', Child(t, false).value, Some(t.id)); }
    if Child(t, true).Some? { ShapeFrame(m, m', Child(t, true).value, Some(t.id)); }
  }

  /**
   * Replacing the subtree at q by x in the arena: if the arena now holds x
   * with the old parent link and keeps every other record of t, it holds
   * the tree with x plugged in.
   */
  lemma {:induction false} PlugShape(m: Arena, m': Arena, t: Node, q: seq<bool>, x: Node, parent: Option<Id>)
    requires Shape(m, t, parent) && Distinct(t) && Sub(t, q).Some?
    requires x.id == Sub(t, q).value.id
    requires Shape(m', x, ParentAt(t, q, parent))
    requires forall id | id in Ids(t) - Ids(Sub(t, q).value) && id in m :: id in m' && m'[id] == m[id]
    ensures Shape(m', Plug(t, q, x), parent)
    decreases |q|
  {
    if q != [] {
      var b := q[0];
      var ch := Child(t, b).value;
      IdsSub(ch, q[1..]);
      IdsSub(t, q);
      assert Ids(ch) <= Ids(t);
      PlugShape(m, m', ch, q[1..], x, Some(t.id));
      if Child(t, !b).Some? {
        var o := Child(t, !b).value;
        assert Ids(o) !! Ids(ch);
        assert Ids(o) <= Ids(t);
        ShapeFrame(m, m', o, Some(t.id));
      }
      assert t.id !in Ids(ch);
      assert m'[t.id] == m[t.id];
    }
  }

  // ---------------------------------------------------------------------
  // Stored hashes.

  /** Every node of t stores its hash. */
  predicate AllHashed(c: Primitives, h: Hashes, t: Node)
    decreases t
  {
    t.id in h && h[t.id] == Some(HashOf(c, t)) &&
    (Child(t, false).Some? ==> AllHashed(c, h, Child(t, false).value)) &&
    (Child(t, true).Some? ==> AllHashed(c, h, Child(t, true).value))
  }

  /** Every node below t stores its hash; t itself may not. */
  predicate ChildrenHashed(c: Primitives, h: Hashes, t: Node)
  {
    (Child(t, false).Some? ==> AllHashed(c, h, Child(t, false).value)) &&
    (Child(t, true).Some? ==> AllHashed(c, h, Child(t, true).value))
  }

  /** Every node of t stores its hash, except those on the path to the node at q (both ends included). */
  predicate HashedExcept(c: Primitives, h: Hashes, t: Node, q: seq<bool>)
    decreases |q|
  {
    if q == [] then ChildrenHashed(c, h, t)
    else
      Child(t, q[0]).Some? && HashedExcept(c, h, Child(t, q[0]).value, q[1..]) &&
      (Child(t, !q[0]).Some? ==> AllHashed(c, h, Child(t, !q[0]).value))
  }

  /** AllHashed reads only the hashes of t's nodes. */
  lemma {:induction false} AllHashedFrame(c: Primitives, h: Hashes, h': Hashes, t: Node)
    requires AllHashed(c, h, t)
    requires forall id | id in Ids(t) && id in h :: id in h' && h'[id] == h[id]
    ensures AllHashed(c, h', t)
    decreases t
  {
    if Child(t, false).Some? { AllHashedFrame(c, h, h', Child(t, false).value); }
    if Child(t, true).Some? { AllHashedFrame(c, h, h', Child(t, true).value); }
  }

  lemma {:induction false} AllHashedExcept(c: Primitives, h: Hashes, t: Node, q: seq<bool>)
    requires AllHashed(c, h, t) && Sub(t, q).Some?
    ensures HashedExcept(c, h, t, q)
    decreases |q|
  {
    if q != [] {
      AllHashedExcept(c, h, Child(t, q[0]).value, q[1..]);
    }
  }

  /** With every node below the root hashed, any path may be taken as the stale one. */
  lemma ExceptExtend(c: Primitives, h: Hashes, t: Node, q: seq<bool>)
    requires ChildrenHashed(c, h, t) && Sub(t, q).Some?
    ensures HashedExcept(c, h, t, q)
  {
    if q != [] {
      AllHashedExcept(c, h, Child(t, q[0]).value, q[1..]);
    }
  }

  /** Below a well-hashed node, every node stores its hash. */
  lemma {:induction false} HashedSub(c: Primitives, h: Hashes, t: Node, p: seq<bool>)
    requires ChildrenHashed(c, h, t) && Sub(t, p).Some? && p != []
    ensures AllHashed(c, h, Sub(t, p).value)
    decreases |p|
  {
    if |p| > 1 {
      HashedSub(c, h, Child(t, p[0]).value, p[1..]);
    }
  }

  /** The children of the node at the end of the stale path store their hashes. */
  lemma {:induction false} ExceptChildren(c: Primitives, h: Hashes, t: Node, q: seq<bool>)
    requires HashedExcept(c, h, t, q)
    ensures Sub(t, q).Some?
    ensures ChildrenHashed(c, h, Sub(t, q).value)
    decreases |q|
  {
    if q != [] {
      ExceptChildren(c, h, Child(t, q[0]).value, q[1..]);
    }
  }

  /**
   * updateHash at the bottom of the stale path: once the node at q stores
   * its hash, only the path above it is stale.
   */
  lemma {:induction false} ClimbStep(c: Primitives, h: Hashes, t: Node, q: seq<bool>)
    requires HashedExcept(c, h, t, q) && q != [] && Distinct(t)
    ensures Sub(t, q).Some?
    ensures HashedExcept(c, h[Sub(t, q).value.id := Some(HashOf(c, Sub(t, q).value))], t, q[..|q| - 1])
    decreases |q|
  {
    ExceptChildren(c, h, t, q);
    var s := Sub(t, q).value;
    var h' := h[s.id := Some(HashOf(c, s))];
    var b := q[0];
    var ch := Child(t, b).value;
    IdsSub(ch, q[1..]);
    if Child(t, !b).Some? {
      var o := Child(t, !b).value;
      assert s.id in Ids(ch);
      assert Ids(o) !! Ids(ch);
      AllHashedFrame(c, h, h', o);
    }
    if |q| == 1 {
      assert q[1..] == [] && q[..0] == [];
      assert s == ch;
      assert Distinct(ch);
      if Child(ch, false).Some? { AllHashedFrame(c, h, h', Child(ch, false).value); }
      if Child(ch, true).Some? { AllHashedFrame(c, h, h', Child(ch, true).value); }
    } else {
      ClimbStep(c, h, ch, q[1..]);
      assert q[1..][..|q| - 2] == q[..|q| - 1][1..];
    }
  }

  /**
   * Plugging x in at q: if the old tree was stale at most along q, x is
   * stale at most along r, and the other hashes of t are kept, the new tree
   * is stale at most along q + r.
   */
  lemma {:induction false} PlugHashed(c: Primitives, h: Hashes, h': Hashes, t: Node, q: seq<bool>,
                                       x: Node, r: seq<bool>)
    requires Distinct(t) && Sub(t, q).Some? && HashedExcept(c, h, t, q) && HashedExcept(c, h', x, r)
    requires forall id | id in Ids(t) - Ids(Sub(t, q).value) && id in h :: id in h' && h'[id] == h[id]
    ensures HashedExcept(c, h', Plug(t, q, x), q + r)
    decreases |q|
  {
    ExceptChildren(c, h, t, q);
    if q == [] {
      assert q + r == r;
    } else {
      var b := q[0];
      var ch := Child(t, b).value;
      IdsSub(ch, q[1..]);
      IdsSub(t, q);
      PlugHashed(c, h, h', ch, q[1..], x, r);
      if Child(t, !b).Some? {
        var o := Child(t, !b).value;
        assert Ids(o) !! Ids(ch);
        AllHashedFrame(c, h, h', o);
      }
      assert (q + r)[0] == b && (q + r)[1..] == q[1..] + r;
    }
  }

  // ---------------------------------------------------------------------
  // updateHash.

  /** The hash a child link contributes: nil for a missing child or an unset hash. */
  function LinkHash(h: Hashes, o: Option<Id>): Bytes
  {
    if o.Some? && o.value in h then Flat(h[o.value]) else []
  }

  /** updateHash: a leaf hashes its label and values, an internal node its label and its children's hashes. */
  function ComputedHash(c: Primitives, m: Arena, h: Hashes, id: Id): NBytes
    requires id in m
  {
    match m[id]
    case ALeaf(_, prefix, vals) => Some(c.leafHash(prefix, vals))
    case AInner(_, prefix, l, r) => Some(c.hash([prefix, LinkHash(h, l), LinkHash(h, r)]))
  }

  /** With its children's hashes stored, updateHash computes the node's hash. */
  lemma ComputedHashOK(c: Primitives, m: Arena, h: Hashes, t: Node, parent: Option<Id>)
    requires Shape(m, t, parent) && ChildrenHashed(c, h, t)
    ensures ComputedHash(c, m, h, t.id) == Some(HashOf(c, t))
  {
  }
}
