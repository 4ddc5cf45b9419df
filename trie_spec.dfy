/**
 * The compressed binary prefix trie of core/prefix_tree.go as a value.
 * The arena-based tree (module PrefixTree) is proved to hold exactly this
 * value; the lemmas here state what insertion, lookup and the copath
 * proofs mean.
 *
 * A node's prefix is its partial prefix. The root is the only node with an
 * empty prefix (Go keeps it nil) and the only internal node that may lack a
 * child. A child sits in the right slot exactly when its prefix starts
 * with a non-zero byte, the choice getChild makes on the key.
 */
module TrieSpec {
  import opened Wrappers
  import opened Bits
  import opened Crypto
  import opened Copath

  /** The identity of a node (a pointer in the source). */
  type Id = nat

  datatype Node =
    | Leaf(id: Id, prefix: Bytes, values: seq<KeyHash>)
    | Inner(id: Id, prefix: Bytes, left: Option<Node>, right: Option<Node>)

  /** The slot a key byte selects: true for the right child. */
  function Slot(b: byte): bool
  {
    b != 0
  }

  function Child(n: Node, right: bool): (r: Option<Node>)
    ensures r.Some? ==> r.value < n
  {
    if n.Leaf? then None else if right then n.right else n.left
  }

  function SetChild(n: Node, right: bool, c: Node): (r: Node)
    requires n.Inner?
    ensures r.Inner? && r.id == n.id && r.prefix == n.prefix
    ensures Child(r, right) == Some(c) && Child(r, !right) == Child(n, !right)
  {
    if right then n.(right := Some(c)) else n.(left := Some(c))
  }

  /** addChild: a child goes to the slot the first byte of its prefix selects. */
  function AddChild(n: Node, c: Node): (r: Node)
    requires n.Inner? && |c.prefix| > 0
    ensures r.Inner? && r.id == n.id && r.prefix == n.prefix
    ensures Child(r, Slot(c.prefix[0])) == Some(c)
    ensures Child(r, !Slot(c.prefix[0])) == Child(n, !Slot(c.prefix[0]))
  {
    SetChild(n, Slot(c.prefix[0]), c)
  }

  /**
   * Structural invariant: prefixes are bit strings, only the root has an empty
   * prefix, internal nodes below the root have two children, and each child
   * sits in the slot of its prefix's first bit.
   */
  predicate WF(n: Node, isRoot: bool)
    decreases n
  {
    IsBits(n.prefix) && (isRoot <==> n.prefix == []) &&
    match n
    case Leaf(_, _, _) => !isRoot
    case Inner(_, _, l, r) =>
      (!isRoot ==> l.Some? && r.Some?) &&
      (l.Some? ==> WF(l.value, false) && l.value.prefix[0] == 0) &&
      (r.Some? ==> WF(r.value, false) && r.value.prefix[0] == 1)
  }

  /** Every key below n, counted from the start of n's prefix, has length len. */
  predicate UniformKeys(n: Node, len: nat)
    decreases n
  {
    match n
    case Leaf(_, prefix, _) => |prefix| == len
    case Inner(_, prefix, l, r) =>
      |prefix| <= len &&
      (l.Some? ==> UniformKeys(l.value, len - |prefix|)) &&
      (r.Some? ==> UniformKeys(r.value, len - |prefix|))
  }

  /** The values stored under the full key, if the key is present below n. */
  function Lookup(n: Node, key: Bytes): Option<seq<KeyHash>>
    decreases n
  {
    if !HasPrefix(key, n.prefix) then None
    else
      var rest := key[|n.prefix|..];
      match n
      case Leaf(_, _, vals) => if rest == [] then Some(vals) else None
      case Inner(_, _, _, _) =>
        if rest == [] then None
        else
          match Child(n, Slot(rest[0]))
          case None => None
          case Some(c) => Lookup(c, rest)
  }

  /** The values under key, or none: what the leaf holds before a new value is added. */
  function ValuesAt(n: Node, key: Bytes): seq<KeyHash>
  {
    match Lookup(n, key)
    case None => []
    case Some(v) => v
  }

  /**
   * The inputs on which PrefixAppend does not panic, from an internal node n
   * whose own prefix is already consumed: the walk must not run off the key
   * inside a prefix, must not split at index 0, and must end on a leaf whose
   * prefix ends with the key.
   */
  predicate CanInsert(n: Node, k: Bytes)
    decreases n
  {
    n.Inner? && |k| > 0 &&
    match Child(n, Slot(k[0]))
    case None => true
    case Some(c) =>
      var j := CommonPrefixLen(c.prefix, k);
      if j < |c.prefix| then 0 < j < |k|
      else if c.Leaf? then |k| == |c.prefix|
      else |k| > |c.prefix| && CanInsert(c, k[|c.prefix|..])
  }

  /**
   * splitCompressedNode: an intermediate node labelled prefix[..j] takes the
   * place of c, and c keeps prefix[j..] below it.
   */
  function Split(c: Node, j: nat, midId: Id): (mid: Node)
    requires 0 < j < |c.prefix|
    ensures mid.Inner? && mid.id == midId && mid.prefix == c.prefix[..j]
    ensures Child(mid, Slot(c.prefix[j])) == Some(c.(prefix := c.prefix[j..]))
    ensures mid.prefix + Child(mid, Slot(c.prefix[j])).value.prefix == c.prefix
  {
    var lower := c.(prefix := c.prefix[j..]);
    assert c.prefix[..j] + c.prefix[j..] == c.prefix;
    AddChild(Inner(midId, c.prefix[..j], None, None), lower)
  }

  /**
   * PrefixAppend below the internal node n (prefix consumed) for the rest k
   * of the key: the child in the key's slot is replaced by NewChild.
   */
  function InsertBelow(n: Node, k: Bytes, kh: KeyHash, newId: Id): (r: Node)
    requires CanInsert(n, k)
    ensures r.Inner? && r.id == n.id && r.prefix == n.prefix
    ensures Child(r, !Slot(k[0])) == Child(n, !Slot(k[0]))
    decreases n, 1
  {
    SetChild(n, Slot(k[0]), NewChild(n, k, kh, newId))
  }

  /**
   * The child that takes the key's slot: a new leaf under a missing child, a
   * split of the child whose prefix diverges from the key, the leaf whose
   * prefix ends the key with the value appended, or the insertion one level
   * down. The new leaf gets id newId, a new intermediate node newId + 1.
   */
  function NewChild(n: Node, k: Bytes, kh: KeyHash, newId: Id): (r: Node)
    requires CanInsert(n, k)
    decreases n, 0
  {
    match Child(n, Slot(k[0]))
    case None => Leaf(newId, k, [kh])
    case Some(c) =>
      var j := CommonPrefixLen(c.prefix, k);
      if j < |c.prefix| then AddChild(Split(c, j, newId + 1), Leaf(newId, k[j..], [kh]))
      else if c.Leaf? then c.(values := c.values + [kh])
      else InsertBelow(c, k[j..], kh, newId)
  }

  /** The hash a node holds once its hash is up to date (updateHash). */
  function HashOf(c: Primitives, n: Node): Bytes
    decreases n
  {
    match n
    case Leaf(_, prefix, vals) => c.leafHash(prefix, vals)
    case Inner(_, prefix, l, r) =>
      c.hash([prefix,
              if l.Some? then HashOf(c, l.value) else [],
              if r.Some? then HashOf(c, r.value) else []])
  }

  /** The node reached from n along a path of slots. */
  function Sub(n: Node, p: seq<bool>): Option<Node>
    decreases |p|
  {
    if p == [] then Some(n)
    else
      match Child(n, p[0])
      case None => None
      case Some(c) => Sub(c, p[1..])
  }

  /** The prefixes of n and of every node along p, concatenated. */
  function PathLabel(n: Node, p: seq<bool>): Bytes
    requires Sub(n, p).Some?
    decreases |p|
  {
    if p == [] then n.prefix else n.prefix + PathLabel(Child(n, p[0]).value, p[1..])
  }

  /** The copath entry an ancestor a contributes for its child in slot right. */
  function EntryOf(c: Primitives, a: Node, right: bool): CopathEntry
  {
    CopathEntry(
      if a.prefix == [] then None else Some(a.prefix),
      match Child(a, !right)
      case None => None
      case Some(s) => Some(HashOf(c, s)))
  }

  /** buildCopathFromNode for the node at the end of p: the ancestors from the lowest up to n. */
  function CopathOf(c: Primitives, n: Node, p: seq<bool>): seq<CopathEntry>
    requires Sub(n, p).Some?
    decreases |p|
  {
    if p == [] then [] else CopathOf(c, Child(n, p[0]).value, p[1..]) + [EntryOf(c, n, p[0])]
  }

  // ---------------------------------------------------------------------
  // Insertion keeps the structural invariant.

  lemma IsBitsSuffix(s: Bytes, j: nat)
    requires IsBits(s) && j <= |s|
    ensures IsBits(s[j..]) && IsBits(s[..j])
  {
  }

  /** Giving a node a non-empty suffix of its label keeps it well formed. */
  lemma WFLowered(c: Node, j: nat)
    requires WF(c, false) && j < |c.prefix|
    ensures WF(c.(prefix := c.prefix[j..]), false)
  {
    IsBitsSuffix(c.prefix, j);
  }

  /** The split node is a well-formed inner node with both halves below it. */
  lemma {:induction false} SplitWF(c: Node, j: nat, midId: Id, leaf: Node)
    requires WF(c, false) && 0 < j < |c.prefix|
    requires WF(leaf, false) && leaf.prefix[0] != c.prefix[j]
    ensures WF(AddChild(Split(c, j, midId), leaf), false)
    ensures AddChild(Split(c, j, midId), leaf).prefix == c.prefix[..j]
  {
    var lower := c.(prefix := c.prefix[j..]);
    WFLowered(c, j);
    IsBitsSuffix(c.prefix, j);
    assert lower.prefix[0] == c.prefix[j];
    assert c.prefix[j] == 0 || c.prefix[j] == 1;
    var mid := AddChild(Split(c, j, midId), leaf);
    assert Child(mid, Slot(leaf.prefix[0])) == Some(leaf);
    assert Child(mid, Slot(lower.prefix[0])) == Some(lower);
  }

  /** PrefixAppend keeps labels bit strings, children in their slots and inner nodes binary. */
  lemma {:induction false} InsertWF(n: Node, k: Bytes, kh: KeyHash, newId: Id, isRoot: bool)
    requires WF(n, isRoot) && CanInsert(n, k) && IsBits(k)
    ensures WF(InsertBelow(n, k, kh, newId), isRoot)
    decreases n, 1
  {
    NewChildWF(n, k, kh, newId, isRoot);
    assert k[0] == 0 || k[0] == 1;
  }

  /** The new child is well formed and its prefix starts with the key's first bit. */
  lemma {:induction false} NewChildWF(n: Node, k: Bytes, kh: KeyHash, newId: Id, isRoot: bool)
    requires WF(n, isRoot) && CanInsert(n, k) && IsBits(k)
    ensures WF(NewChild(n, k, kh, newId), false)
    ensures |NewChild(n, k, kh, newId).prefix| > 0 && NewChild(n, k, kh, newId).prefix[0] == k[0]
    decreases n, 0
  {
    assert k[0] == 0 || k[0] == 1;
    match Child(n, Slot(k[0]))
    case None =>
      assert WF(Leaf(newId, k, [kh]), false);
    case Some(c) =>
      var j := CommonPrefixLen(c.prefix, k);
      assert k[0] == c.prefix[0];
      if j < |c.prefix| {
        var leaf := Leaf(newId, k[j..], [kh]);
        IsBitsSuffix(k, j);
        assert WF(leaf, false);
        SplitWF(c, j, newId + 1, leaf);
      } else if c.Leaf? {
        assert WF(c.(values := c.values + [kh]), false);
      } else {
        IsBitsSuffix(k, j);
        InsertWF(c, k[j..], kh, newId, false);
      }
  }

  // ---------------------------------------------------------------------
  // Lookup after insertion.

  /** One step of Lookup through an inner node whose label matches. */
  lemma LookupStep(n: Node, k: Bytes)
    requires n.Inner?
    ensures Lookup(n, n.prefix + k) ==
      if k == [] then None
      else match Child(n, Slot(k[0])) case None => None case Some(c) => Lookup(c, k)
  {
    assert (n.prefix + k)[..|n.prefix|] == n.prefix;
    assert (n.prefix + k)[|n.prefix|..] == k;
  }

  lemma LookupLeaf(n: Node, x: Bytes)
    requires n.Leaf?
    ensures Lookup(n, x) == if x == n.prefix then Some(n.values) else None
  {
    if HasPrefix(x, n.prefix) && x[|n.prefix|..] == [] {
      assert x == x[..|n.prefix|] + x[|n.prefix|..];
    }
  }

  /** Shortening a node's label to label[j..] is the same as reading past label[..j]. */
  lemma LookupLowered(c: Node, j: nat, x: Bytes)
    requires j <= |c.prefix|
    ensures Lookup(c.(prefix := c.prefix[j..]), x) == Lookup(c, c.prefix[..j] + x)
  {
    var lower := c.(prefix := c.prefix[j..]);
    var y := c.prefix[..j] + x;
    assert c.prefix == c.prefix[..j] + c.prefix[j..];
    if HasPrefix(x, lower.prefix) {
      assert y[..|c.prefix|] == c.prefix[..j] + x[..|lower.prefix|];
      assert y[|c.prefix|..] == x[|lower.prefix|..];
    }
  }

  /** After PrefixAppend(k, kh) the key's leaf holds its old values followed by kh. */
  lemma {:induction false} InsertLookupSame(n: Node, k: Bytes, kh: KeyHash, newId: Id, isRoot: bool)
    requires WF(n, isRoot) && CanInsert(n, k) && IsBits(k)
    ensures Lookup(InsertBelow(n, k, kh, newId), n.prefix + k) == Some(ValuesAt(n, n.prefix + k) + [kh])
    decreases n, 2
  {
    LookupStep(n, k);
    LookupStep(InsertBelow(n, k, kh, newId), k);
    NewChildLookupSame(n, k, kh, newId, isRoot);
  }

  lemma {:induction false} NewChildLookupSame(n: Node, k: Bytes, kh: KeyHash, newId: Id, isRoot: bool)
    requires WF(n, isRoot) && CanInsert(n, k) && IsBits(k)
    ensures Lookup(NewChild(n, k, kh, newId), k) == Some(ValuesAt(n, n.prefix + k) + [kh])
    decreases n, 1
  {
    match Child(n, Slot(k[0]))
    case None =>
      NewLeafLookup(n, k, kh, newId);
    case Some(c) =>
      var j := CommonPrefixLen(c.prefix, k);
      if j < |c.prefix| {
        SplitLookupSame(n, c, j, k, kh, newId);
      } else if c.Leaf? {
        AddValueLookup(n, c, k, kh);
      } else {
        DescendLookupSame(n, c, k, kh, newId);
      }
  }

  /** The key's values one level down, where the child's whole label matches. */
  lemma {:induction false} DescendLookupSame(n: Node, c: Node, k: Bytes, kh: KeyHash, newId: Id)
    requires n.Inner? && |k| > 0 && Child(n, Slot(k[0])) == Some(c) && WF(c, false) && IsBits(k)
    requires CommonPrefixLen(c.prefix, k) == |c.prefix| && CanInsert(c, k[|c.prefix|..])
    ensures Lookup(InsertBelow(c, k[|c.prefix|..], kh, newId), k) == Some(ValuesAt(n, n.prefix + k) + [kh])
    decreases n, 0
  {
    var j := |c.prefix|;
    assert ValuesAt(n, n.prefix + k) == ValuesAt(c, k) by {
      LookupStep(n, k);
    }
    assert c.prefix + k[j..] == k by {
      assert k[..j] == c.prefix;
    }
    IsBitsSuffix(k, j);
    InsertLookupSame(c, k[j..], kh, newId, false);
  }

  /** A new leaf under a missing child holds just the new value, and the key was absent. */
  lemma NewLeafLookup(n: Node, k: Bytes, kh: KeyHash, newId: Id)
    requires n.Inner? && |k| > 0 && Child(n, Slot(k[0])).None?
    ensures Lookup(Leaf(newId, k, [kh]), k) == Some(ValuesAt(n, n.prefix + k) + [kh])
  {
    assert ValuesAt(n, n.prefix + k) == [] by {
      LookupStep(n, k);
    }
    assert ValuesAt(n, n.prefix + k) + [kh] == [kh];
    LookupLeaf(Leaf(newId, k, [kh]), k);
  }

  /** The split child with the new leaf holds just the new value under the key, which was absent. */
  lemma SplitLookupSame(n: Node, c: Node, j: nat, k: Bytes, kh: KeyHash, newId: Id)
    requires n.Inner? && |k| > 0 && Child(n, Slot(k[0])) == Some(c)
    requires j == CommonPrefixLen(c.prefix, k) && 0 < j < |c.prefix| && j < |k|
    ensures Lookup(AddChild(Split(c, j, newId + 1), Leaf(newId, k[j..], [kh])), k) == Some(ValuesAt(n, n.prefix + k) + [kh])
  {
    assert ValuesAt(n, n.prefix + k) == [] by {
      LookupStep(n, k);
      SplitLookupNew(c, j, k, kh, newId);
    }
    assert ValuesAt(n, n.prefix + k) + [kh] == [kh];
    SplitLookupNew(c, j, k, kh, newId);
  }

  /** The leaf the key ends at, with the value appended, holds its old values and then the new one. */
  lemma AddValueLookup(n: Node, c: Node, k: Bytes, kh: KeyHash)
    requires n.Inner? && |k| > 0 && Child(n, Slot(k[0])) == Some(c) && c.Leaf?
    requires CommonPrefixLen(c.prefix, k) == |c.prefix| == |k|
    ensures Lookup(c.(values := c.values + [kh]), k) == Some(ValuesAt(n, n.prefix + k) + [kh])
  {
    assert k == c.prefix;
    LookupStep(n, k);
    LookupLeaf(c, k);
    LookupLeaf(c.(values := c.values + [kh]), k);
  }

  /** PrefixAppend(k, kh) leaves every other key's values unchanged. */
  lemma {:induction false} InsertLookupOther(n: Node, k: Bytes, kh: KeyHash, newId: Id, isRoot: bool, x: Bytes)
    requires WF(n, isRoot) && CanInsert(n, k) && IsBits(k)
    requires x != n.prefix + k
    ensures Lookup(InsertBelow(n, k, kh, newId), x) == Lookup(n, x)
    decreases n, 2
  {
    if HasPrefix(x, n.prefix) {
      var y := x[|n.prefix|..];
      assert x == n.prefix + y;
      var r := InsertBelow(n, k, kh, newId);
      LookupStep(n, y);
      LookupStep(r, y);
      if y == [] {
      } else if Slot(y[0]) == Slot(k[0]) {
        NewChildLookupOther(n, k, kh, newId, isRoot, y);
      } else {
        assert Child(r, Slot(y[0])) == Child(n, Slot(y[0]));
      }
    }
  }

  lemma {:induction false} NewChildLookupOther(n: Node, k: Bytes, kh: KeyHash, newId: Id, isRoot: bool, y: Bytes)
    requires WF(n, isRoot) && CanInsert(n, k) && IsBits(k)
    requires y != k && y != [] && Slot(y[0]) == Slot(k[0])
    ensures Lookup(NewChild(n, k, kh, newId), y) ==
      match Child(n, Slot(k[0])) case None => None case Some(c) => Lookup(c, y)
    decreases n, 1
  {
    match Child(n, Slot(k[0]))
    case None =>
      LookupLeaf(Leaf(newId, k, [kh]), y);
    case Some(c) =>
      var j := CommonPrefixLen(c.prefix, k);
      if j < |c.prefix| {
        SplitLookupOther(c, j, k, kh, newId, y);
      } else if c.Leaf? {
        AddValueLookupOther(c, k, kh, y);
      } else {
        DescendLookupOther(c, k, kh, newId, y);
      }
  }

  /** Appending a value to the leaf the key ends at changes no other key's lookup. */
  lemma AddValueLookupOther(c: Node, k: Bytes, kh: KeyHash, y: Bytes)
    requires c.Leaf? && CommonPrefixLen(c.prefix, k) == |c.prefix| == |k| && y != k
    ensures Lookup(c.(values := c.values + [kh]), y) == Lookup(c, y)
  {
    assert k == c.prefix;
    LookupLeaf(c, y);
    LookupLeaf(c.(values := c.values + [kh]), y);
  }

  /** Other keys' values one level down, where the child's whole label matches. */
  lemma {:induction false} DescendLookupOther(c: Node, k: Bytes, kh: KeyHash, newId: Id, y: Bytes)
    requires WF(c, false) && IsBits(k) && y != k
    requires CommonPrefixLen(c.prefix, k) == |c.prefix| < |k| && CanInsert(c, k[|c.prefix|..])
    ensures Lookup(InsertBelow(c, k[|c.prefix|..], kh, newId), y) == Lookup(c, y)
    decreases c, 3
  {
    var j := |c.prefix|;
    assert c.prefix + k[j..] == k by {
      assert k[..j] == c.prefix;
    }
    IsBitsSuffix(k, j);
    InsertLookupOther(c, k[j..], kh, newId, false, y);
  }

  /** Splitting c for the key k changes no lookup other than k's. */
  lemma SplitLookupOther(c: Node, j: nat, k: Bytes, kh: KeyHash, newId: Id, y: Bytes)
    requires WF(c, false) && IsBits(k) && y != k
    requires j == CommonPrefixLen(c.prefix, k) && 0 < j < |c.prefix| && j < |k|
    ensures Lookup(AddChild(Split(c, j, newId + 1), Leaf(newId, k[j..], [kh])), y) == Lookup(c, y)
  {
    var leaf := Leaf(newId, k[j..], [kh]);
    var lower := c.(prefix := c.prefix[j..]);
    var mid := AddChild(Split(c, j, newId + 1), leaf);
    assert c.prefix[j] == 0 || c.prefix[j] == 1;
    assert k[j] == 0 || k[j] == 1;
    if HasPrefix(y, c.prefix[..j]) {
      var z := y[j..];
      assert y == c.prefix[..j] + z;
      LookupStep(mid, z);
      if z == [] {
        assert !HasPrefix(y, c.prefix);
      } else if Slot(z[0]) == Slot(k[j]) {
        LookupLeaf(leaf, z);
        assert z != k[j..] by {
          assert k == c.prefix[..j] + k[j..];
        }
        assert z[0] != c.prefix[j];
        assert !HasPrefix(y, c.prefix);
      } else {
        assert Child(mid, Slot(z[0])) == Some(lower);
        LookupLowered(c, j, z);
      }
    } else {
      assert !HasPrefix(y, c.prefix);
    }
  }

  /** Splitting c for the key k leaves k with exactly the new value; c alone did not hold k. */
  lemma SplitLookupNew(c: Node, j: nat, k: Bytes, kh: KeyHash, newId: Id)
    requires j == CommonPrefixLen(c.prefix, k) && 0 < j < |c.prefix| && j < |k|
    ensures Lookup(AddChild(Split(c, j, newId + 1), Leaf(newId, k[j..], [kh])), k) == Some([kh])
    ensures Lookup(c, k) == None
  {
    var leaf := Leaf(newId, k[j..], [kh]);
    var mid := AddChild(Split(c, j, newId + 1), leaf);
    assert k == mid.prefix + k[j..];
    LookupStep(mid, k[j..]);
    assert Child(mid, Slot(k[j])) == Some(leaf);
    LookupLeaf(leaf, k[j..]);
    assert k[j] != c.prefix[j];
  }

  // ---------------------------------------------------------------------
  // Paths, replacement along a path, and the node identities.

  /** The tree t with the subtree at path p replaced by x. */
  function Plug(t: Node, p: seq<bool>, x: Node): (r: Node)
    requires Sub(t, p).Some?
    ensures p != [] ==> r.Inner? && r.id == t.id && r.prefix == t.prefix
    decreases |p|
  {
    if p == [] then x else SetChild(t, p[0], Plug(Child(t, p[0]).value, p[1..], x))
  }

  lemma {:induction false} SubAppend(t: Node, p: seq<bool>, r: seq<bool>)
    requires Sub(t, p).Some?
    ensures Sub(t, p + r) == Sub(Sub(t, p).value, r)
    decreases |p|
  {
    if p != [] {
      assert (p + r)[0] == p[0] && (p + r)[1..] == p[1..] + r;
      SubAppend(Child(t, p[0]).value, p[1..], r);
    } else {
      assert p + r == r;
    }
  }

  /** Replacing inside a replaced subtree is one replacement along the joined path. */
  lemma {:induction false} PlugPlug(t: Node, p: seq<bool>, r: seq<bool>, x: Node)
    requires Sub(t, p).Some? && Sub(Sub(t, p).value, r).Some?
    ensures Sub(t, p + r).Some?
    ensures Plug(t, p, Plug(Sub(t, p).value, r, x)) == Plug(t, p + r, x)
    decreases |p|
  {
    SubAppend(t, p, r);
    if p != [] {
      assert (p + r)[0] == p[0] && (p + r)[1..] == p[1..] + r;
      PlugPlug(Child(t, p[0]).value, p[1..], r, x);
    } else {
      assert p + r == r;
    }
  }

  /** The node at the end of the path is the one that was plugged in. */
  lemma {:induction false} SubPlug(t: Node, p: seq<bool>, x: Node)
    requires Sub(t, p).Some?
    ensures Sub(Plug(t, p, x), p) == Some(x)
    decreases |p|
  {
    if p != [] {
      SubPlug(Child(t, p[0]).value, p[1..], x);
    }
  }

  /** The node at path q sits below the node at q without its last step. */
  lemma {:induction false} SubLast(t: Node, q: seq<bool>)
    requires Sub(t, q).Some? && q != []
    ensures Sub(t, q[..|q| - 1]).Some?
    ensures Sub(t, q) == Child(Sub(t, q[..|q| - 1]).value, q[|q| - 1])
  {
    assert q == q[..|q| - 1] + [q[|q| - 1]];
    var p := q[..|q| - 1];
    SubPrefixSome(t, p, [q[|q| - 1]]);
    SubAppend(t, p, [q[|q| - 1]]);
  }

  lemma {:induction false} SubPrefixSome(t: Node, p: seq<bool>, r: seq<bool>)
    requires Sub(t, p + r).Some?
    ensures Sub(t, p).Some?
    decreases |p|
  {
    if p != [] {
      assert (p + r)[0] == p[0] && (p + r)[1..] == p[1..] + r;
      SubPrefixSome(Child(t, p[0]).value, p[1..], r);
    }
  }

  /** The identities of the nodes of t. */
  function Ids(t: Node): (r: set<Id>)
    ensures t.id in r
    decreases t
  {
    {t.id} +
    (if Child(t, false).Some? then Ids(Child(t, false).value) else {}) +
    (if Child(t, true).Some? then Ids(Child(t, true).value) else {})
  }

  /** No two nodes of t share an identity. */
  predicate Distinct(t: Node)
    decreases t
  {
    forall right :: Child(t, right).Some? ==>
      t.id !in Ids(Child(t, right).value) && Distinct(Child(t, right).value) &&
      (Child(t, !right).Some? ==> Ids(Child(t, right).value) !! Ids(Child(t, !right).value))
  }

  lemma {:induction false} IdsSub(t: Node, q: seq<bool>)
    requires Sub(t, q).Some?
    ensures Ids(Sub(t, q).value) <= Ids(t)
    ensures Distinct(t) ==> Distinct(Sub(t, q).value)
    ensures Distinct(t) && q != [] ==> Sub(t, q).value.id != t.id
    decreases |q|
  {
    if q != [] {
      IdsSub(Child(t, q[0]).value, q[1..]);
    }
  }

  /** Below a distinct tree, the nodes off path q are not inside the node at q's end. */
  lemma {:induction false} IdsOffPath(t: Node, q: seq<bool>, right: bool)
    requires Distinct(t) && q != [] && Sub(t, q).Some? && Child(t, !q[0]).Some?
    ensures Ids(Sub(t, q).value) !! Ids(Child(t, !q[0]).value)
    ensures t.id !in Ids(Sub(t, q).value)
  {
    IdsSub(Child(t, q[0]).value, q[1..]);
  }

  /** PrefixAppend's nodes: the new tree keeps every id and may add newId and newId + 1. */
  lemma {:induction false} InsertIds(n: Node, k: Bytes, kh: KeyHash, newId: Id)
    requires CanInsert(n, k)
    ensures Ids(InsertBelow(n, k, kh, newId)) <= Ids(n) + {newId, newId + 1}
    ensures Ids(NewChild(n, k, kh, newId)) <= Ids(n) + {newId, newId + 1}
    decreases n
  {
    var right := Slot(k[0]);
    IdsSetChild(n, right, NewChild(n, k, kh, newId));
    match Child(n, right)
    case None =>
    case Some(c) =>
      var j := CommonPrefixLen(c.prefix, k);
      if j < |c.prefix| {
        SplitIds(c, j, k, kh, newId);
      } else if c.Leaf? {
      } else {
        InsertIds(c, k[j..], kh, newId);
      }
  }

  /** The split node with the new leaf holds the child's identities and the two new ones. */
  lemma SplitIds(c: Node, j: nat, k: Bytes, kh: KeyHash, newId: Id)
    requires 0 < j < |c.prefix| && j < |k|
    ensures Ids(AddChild(Split(c, j, newId + 1), Leaf(newId, k[j..], [kh]))) <= Ids(c) + {newId, newId + 1}
  {
    var mid := Split(c, j, newId + 1);
    IdsSetChild(mid, Slot(k[j]), Leaf(newId, k[j..], [kh]));
    IdsSetChild(Inner(newId + 1, c.prefix[..j], None, None), Slot(c.prefix[j]), c.(prefix := c.prefix[j..]));
    IdsRelabel(c, c.prefix[j..]);
  }

  lemma IdsSetChild(n: Node, right: bool, x: Node)
    requires n.Inner?
    ensures Ids(SetChild(n, right, x)) ==
      {n.id} + Ids(x) + (if Child(n, !right).Some? then Ids(Child(n, !right).value) else {})
  {
  }

  lemma IdsRelabel(n: Node, prefix: Bytes)
    ensures Ids(n.(prefix := prefix)) == Ids(n)
  {
  }

  /** Distinctness of an inner node from that of its children. */
  lemma DistinctSetChild(n: Node, right: bool, x: Node)
    requires n.Inner? && Distinct(x) && n.id !in Ids(x)
    requires Child(n, !right).Some? ==>
      Distinct(Child(n, !right).value) && n.id !in Ids(Child(n, !right).value) &&
      Ids(x) !! Ids(Child(n, !right).value)
    ensures Distinct(SetChild(n, right, x))
  {
    var r := SetChild(n, right, x);
    assert Child(r, right) == Some(x);
    assert Child(r, !right) == Child(n, !right);
  }

  /** What Distinct says about one child. */
  lemma DistinctChild(n: Node, right: bool)
    requires Distinct(n) && Child(n, right).Some?
    ensures Distinct(Child(n, right).value) && n.id !in Ids(Child(n, right).value)
    ensures Child(n, !right).Some? ==> Ids(Child(n, right).value) !! Ids(Child(n, !right).value)
  {
  }

  /** Fresh identities keep the nodes of the new tree distinct. */
  lemma {:induction false} InsertDistinct(n: Node, k: Bytes, kh: KeyHash, newId: Id)
    requires CanInsert(n, k) && Distinct(n) && forall i :: i in Ids(n) ==> i < newId
    ensures Distinct(InsertBelow(n, k, kh, newId))
    decreases n, 1
  {
    var right := Slot(k[0]);
    NewChildDistinct(n, k, kh, newId);
    InsertIds(n, k, kh, newId);
    if Child(n, !right).Some? {
      DistinctChild(n, !right);
      IdsSub(n, [!right]);
    }
    if Child(n, right).Some? {
      DistinctChild(n, right);
    }
    DistinctSetChild(n, right, NewChild(n, k, kh, newId));
  }

  lemma {:induction false} NewChildDistinct(n: Node, k: Bytes, kh: KeyHash, newId: Id)
    requires CanInsert(n, k) && Distinct(n) && forall i :: i in Ids(n) ==> i < newId
    ensures Distinct(NewChild(n, k, kh, newId))
    ensures Ids(NewChild(n, k, kh, newId)) <=
      (if Child(n, Slot(k[0])).Some? then Ids(Child(n, Slot(k[0])).value) else {}) + {newId, newId + 1}
    decreases n, 0
  {
    match Child(n, Slot(k[0]))
    case None =>
    case Some(c) =>
      DistinctChild(n, Slot(k[0]));
      var j := CommonPrefixLen(c.prefix, k);
      if j < |c.prefix| {
        IdsSub(n, [Slot(k[0])]);
        SplitDistinct(c, j, k, kh, newId);
      } else if c.Leaf? {
      } else {
        IdsSub(n, [Slot(k[0])]);
        InsertIds(c, k[j..], kh, newId);
        InsertDistinct(c, k[j..], kh, newId);
      }
  }

  lemma SplitDistinct(c: Node, j: nat, k: Bytes, kh: KeyHash, newId: Id)
    requires 0 < j < |c.prefix| && j < |k| && Distinct(c) && forall i :: i in Ids(c) ==> i < newId
    ensures Distinct(AddChild(Split(c, j, newId + 1), Leaf(newId, k[j..], [kh])))
    ensures Ids(AddChild(Split(c, j, newId + 1), Leaf(newId, k[j..], [kh]))) <= Ids(c) + {newId, newId + 1}
  {
    var leaf := Leaf(newId, k[j..], [kh]);
    var mid := Split(c, j, newId + 1);
    SplitMidDistinct(c, j, newId + 1);
    if Slot(k[j]) != Slot(c.prefix[j]) {
      assert Child(mid, !Slot(k[j])) == Some(c.(prefix := c.prefix[j..]));
      IdsRelabel(c, c.prefix[j..]);
    }
    IdsSetChild(mid, Slot(k[j]), leaf);
    DistinctSetChild(mid, Slot(k[j]), leaf);
  }

  /** The intermediate node of a split, with only the lowered child below it, has distinct identities. */
  lemma SplitMidDistinct(c: Node, j: nat, midId: Id)
    requires 0 < j < |c.prefix| && Distinct(c) && midId !in Ids(c)
    ensures Distinct(Split(c, j, midId)) && Ids(Split(c, j, midId)) == {midId} + Ids(c)
    ensures Child(Split(c, j, midId), !Slot(c.prefix[j])).None?
  {
    var lower := c.(prefix := c.prefix[j..]);
    var mid0 := Inner(midId, c.prefix[..j], None, None);
    IdsRelabel(c, c.prefix[j..]);
    assert Distinct(lower) by {
      if Child(c, false).Some? { DistinctChild(c, false); }
      if Child(c, true).Some? { DistinctChild(c, true); }
    }
    IdsSetChild(mid0, Slot(c.prefix[j]), lower);
    DistinctSetChild(mid0, Slot(c.prefix[j]), lower);
  }

  // ---------------------------------------------------------------------
  // PrefixAppend seen from the node whose label its walk has just consumed.

  /** The no-panic condition there: a leaf must end the key, an inner node must admit the rest. */
  predicate CanInsertAt(s: Node, k: Bytes)
  {
    if s.Leaf? then k == [] else CanInsert(s, k)
  }

  /** The subtree after PrefixAppend: a leaf takes the value, an inner node inserts below. */
  function InsertAt(s: Node, k: Bytes, kh: KeyHash, newId: Id): (r: Node)
    requires CanInsertAt(s, k)
    ensures r.id == s.id && r.prefix == s.prefix
  {
    if s.Leaf? then s.(values := s.values + [kh]) else InsertBelow(s, k, kh, newId)
  }

  /** One step of the walk: matching a child's whole label moves the insertion one level down. */
  lemma DescendInsert(s: Node, k: Bytes, kh: KeyHash, newId: Id)
    requires s.Inner? && CanInsert(s, k)
    requires Child(s, Slot(k[0])).Some? && HasPrefix(k, Child(s, Slot(k[0])).value.prefix)
    ensures CanInsertAt(Child(s, Slot(k[0])).value, k[|Child(s, Slot(k[0])).value.prefix|..])
    ensures InsertAt(s, k, kh, newId) ==
      Plug(s, [Slot(k[0])], InsertAt(Child(s, Slot(k[0])).value,
                                     k[|Child(s, Slot(k[0])).value.prefix|..], kh, newId))
  {
    var c := Child(s, Slot(k[0])).value;
    CommonPrefixLenOfPrefix(c.prefix, k);
    assert [Slot(k[0])][1..] == [];
    assert NewChild(s, k, kh, newId) == InsertAt(c, k[|c.prefix|..], kh, newId);
  }

  // ---------------------------------------------------------------------
  // Keys of one length: the condition under which no walk panics.

  /** Below a well-formed node, uniform keys are at least as long as the node's label. */
  lemma {:induction false} UniformLabel(n: Node, len: nat)
    requires WF(n, false) && UniformKeys(n, len)
    ensures 0 < |n.prefix| <= len
    ensures n.Inner? ==> |n.prefix| < len
  {
    if n.Inner? {
      UniformLabel(n.left.value, len - |n.prefix|);
    }
  }

  /** With keys of one length, PrefixAppend of a key of that length cannot panic. */
  lemma {:induction false} UniformCanInsert(n: Node, k: Bytes, isRoot: bool)
    requires WF(n, isRoot) && n.Inner? && UniformKeys(n, |n.prefix| + |k|) && IsBits(k) && |k| > 0
    ensures CanInsert(n, k)
    decreases n
  {
    match Child(n, Slot(k[0]))
    case None =>
    case Some(c) =>
      assert k[0] == 0 || k[0] == 1;
      assert UniformKeys(c, |k|);
      UniformLabel(c, |k|);
      var j := CommonPrefixLen(c.prefix, k);
      assert c.prefix[0] == k[0];
      if j == |c.prefix| && c.Inner? {
        IsBitsSuffix(k, j);
        assert |c.prefix| + |k[j..]| == |k|;
        UniformCanInsert(c, k[j..], false);
      }
  }

  /** PrefixAppend of a key of the common length keeps keys of one length. */
  lemma {:induction false} InsertUniform(n: Node, k: Bytes, kh: KeyHash, newId: Id)
    requires CanInsert(n, k) && UniformKeys(n, |n.prefix| + |k|)
    ensures UniformKeys(InsertBelow(n, k, kh, newId), |n.prefix| + |k|)
    decreases n, 1
  {
    NewChildUniform(n, k, kh, newId);
  }

  lemma {:induction false} NewChildUniform(n: Node, k: Bytes, kh: KeyHash, newId: Id)
    requires CanInsert(n, k) && UniformKeys(n, |n.prefix| + |k|)
    ensures UniformKeys(NewChild(n, k, kh, newId), |k|)
    decreases n, 0
  {
    match Child(n, Slot(k[0]))
    case None =>
    case Some(c) =>
      assert UniformKeys(c, |k|);
      var j := CommonPrefixLen(c.prefix, k);
      if j < |c.prefix| {
        SplitUniform(c, j, k, kh, newId);
      } else if c.Inner? {
        assert |c.prefix| + |k[j..]| == |k|;
        InsertUniform(c, k[j..], kh, newId);
      }
  }

  /** The split node with the new leaf keeps keys of the child's length. */
  lemma SplitUniform(c: Node, j: nat, k: Bytes, kh: KeyHash, newId: Id)
    requires 0 < j < |c.prefix| && j < |k| && UniformKeys(c, |k|)
    ensures UniformKeys(AddChild(Split(c, j, newId + 1), Leaf(newId, k[j..], [kh])), |k|)
  {
    var lower := c.(prefix := c.prefix[j..]);
    var leaf := Leaf(newId, k[j..], [kh]);
    var m0 := Split(c, j, newId + 1);
    var mid := AddChild(m0, leaf);
    UniformLowered(c, j, |k|);
    assert UniformKeys(leaf, |k| - j);
    assert Child(m0, !Slot(c.prefix[j])).None?;
    UniformInner(mid, |k|);
  }

  lemma UniformLowered(c: Node, j: nat, len: nat)
    requires j <= |c.prefix| && UniformKeys(c, len)
    ensures UniformKeys(c.(prefix := c.prefix[j..]), len - j)
  {
  }

  lemma UniformInner(n: Node, len: nat)
    requires n.Inner? && |n.prefix| <= len
    requires Child(n, false).Some? ==> UniformKeys(Child(n, false).value, len - |n.prefix|)
    requires Child(n, true).Some? ==> UniformKeys(Child(n, true).value, len - |n.prefix|)
    ensures UniformKeys(n, len)
  {
  }
}
