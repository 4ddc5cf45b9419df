/**
 * The key walk shared by getLeaf and generateNonMembershipProof in
 * core/prefix_tree.go, the proofs the trie hands out, and the round trips:
 * a proof generated from a tree recomputes that tree's root hash.
 */
module TrieWalk {
  import opened Wrappers
  import opened Bits
  import opened Crypto
  import opened Copath
  import opened TrieSpec

  /** Where the walk along a key stops, as a path of slots from the start node. */
  datatype WalkEnd =
    | Reached(path: seq<bool>)              // the key is used up at the node at path
    | NoChild(path: seq<bool>, slot: bool)  // the node at path has no child in the key's slot
    | Diverges(path: seq<bool>)             // the label of the node at path disagrees with the key

  /** The same end, seen from q steps higher up. */
  function Extend(q: seq<bool>, e: WalkEnd): (r: WalkEnd)
    ensures r.path == q + e.path
  {
    match e
    case Reached(p) => Reached(q + p)
    case NoChild(p, s) => NoChild(q + p, s)
    case Diverges(p) => Diverges(q + p)
  }

  /** The walk does not slice past the end of the key (prefix[i:i+len(label)]). */
  predicate WalkSafe(n: Node, k: Bytes)
    decreases n
  {
    k == [] ||
    match Child(n, Slot(k[0]))
    case None => true
    case Some(c) => |c.prefix| <= |k| && (k[..|c.prefix|] == c.prefix ==> WalkSafe(c, k[|c.prefix|..]))
  }

  /**
   * The walk from n, whose own label is consumed, along the rest k of the
   * key: step to the child the next key byte selects and consume its label.
   */
  function Walk(n: Node, k: Bytes): (r: WalkEnd)
    requires WalkSafe(n, k)
    ensures Sub(n, r.path).Some?
    ensures r.Diverges? ==> r.path != []
    decreases n
  {
    if k == [] then Reached([])
    else
      match Child(n, Slot(k[0]))
      case None => NoChild([], Slot(k[0]))
      case Some(c) =>
        if k[..|c.prefix|] == c.prefix then
          var r := Walk(c, k[|c.prefix|..]);
          PathCons(n, Slot(k[0]), r.path);
          Extend([Slot(k[0])], r)
        else
          PathCons(n, Slot(k[0]), []);
          Diverges([Slot(k[0])])
  }

  // ---------------------------------------------------------------------
  // Paths and labels.

  lemma PathCons(n: Node, b: bool, p: seq<bool>)
    requires Child(n, b).Some?
    ensures ([b] + p)[0] == b && ([b] + p)[1..] == p
    ensures Sub(n, [b] + p) == Sub(Child(n, b).value, p)
    ensures Sub(n, [b] + p).Some? ==>
      PathLabel(n, [b] + p) == n.prefix + PathLabel(Child(n, b).value, p)
  {
    assert ([b] + p)[1..] == p;
  }

  /** The label of a path is the label of its parent path followed by the last node's label. */
  lemma {:induction false} PathLabelLast(n: Node, p: seq<bool>)
    requires Sub(n, p).Some? && p != []
    ensures Sub(n, p[..|p| - 1]).Some?
    ensures PathLabel(n, p) == PathLabel(n, p[..|p| - 1]) + Sub(n, p).value.prefix
    decreases |p|
  {
    SubLast(n, p);
    var c := Child(n, p[0]).value;
    if |p| == 1 {
      assert p[..0] == [];
      assert p[1..] == [];
    } else {
      PathLabelLast(c, p[1..]);
      assert p[1..][..|p| - 2] == p[..|p| - 1][1..];
      PathCons(n, p[0], p[1..]);
      assert [p[0]] + p[1..] == p;
      PathCons(n, p[0], p[..|p| - 1][1..]);
      assert [p[0]] + p[..|p| - 1][1..] == p[..|p| - 1];
    }
  }

  /** Every node below a well-formed node is well formed, and only the start can be the root. */
  lemma {:induction false} WFSub(t: Node, q: seq<bool>, isRoot: bool)
    requires WF(t, isRoot) && Sub(t, q).Some?
    ensures WF(Sub(t, q).value, isRoot && q == [])
    decreases |q|
  {
    if q != [] {
      WFSub(Child(t, q[0]).value, q[1..], false);
    }
  }

  // ---------------------------------------------------------------------
  // What the walk finds.

  /** A reached path spells the key. */
  lemma {:induction false} WalkReached(n: Node, k: Bytes)
    requires WalkSafe(n, k) && Walk(n, k).Reached?
    ensures Sub(n, Walk(n, k).path).Some?
    ensures PathLabel(n, Walk(n, k).path) == n.prefix + k
    decreases n
  {
    if k != [] {
      var c := Child(n, Slot(k[0])).value;
      var k' := k[|c.prefix|..];
      WalkReached(c, k');
      PathCons(n, Slot(k[0]), Walk(c, k').path);
      assert k == c.prefix + k';
    }
  }

  /** A missing child: the path spells a proper prefix of the key, the next byte's slot is empty. */
  lemma {:induction false} WalkNoChild(n: Node, k: Bytes)
    requires WalkSafe(n, k) && Walk(n, k).NoChild?
    ensures Sub(n, Walk(n, k).path).Some?
    ensures |PathLabel(n, Walk(n, k).path)| < |n.prefix + k|
    ensures HasPrefix(n.prefix + k, PathLabel(n, Walk(n, k).path))
    ensures Walk(n, k).slot == Slot((n.prefix + k)[|PathLabel(n, Walk(n, k).path)|])
    ensures Child(Sub(n, Walk(n, k).path).value, Walk(n, k).slot).None?
    decreases n
  {
    var c := Child(n, Slot(k[0]));
    if c.Some? {
      var k' := k[|c.value.prefix|..];
      WalkNoChild(c.value, k');
      PathCons(n, Slot(k[0]), Walk(c.value, k').path);
      assert k == c.value.prefix + k';
      assert n.prefix + k == n.prefix + (c.value.prefix + k');
    }
  }

  /**
   * A diverging label: the path without its last step spells a proper prefix
   * of the key, the last step is the next byte's slot, and the last node's
   * label fits in the rest of the key but is not a prefix of it.
   */
  lemma {:induction false} WalkDiverges(n: Node, k: Bytes)
    requires WalkSafe(n, k) && Walk(n, k).Diverges?
    ensures var p := Walk(n, k).path;
      var q := p[..|p| - 1];
      Sub(n, q).Some? && DivergesAt(n.prefix + k, PathLabel(n, q), p[|p| - 1], Sub(n, p).value)
    decreases n
  {
    var c := Child(n, Slot(k[0])).value;
    var p := Walk(n, k).path;
    if k[..|c.prefix|] == c.prefix {
      var k' := k[|c.prefix|..];
      WalkDiverges(c, k');
      DivergesStep(n, k, c, k', Walk(c, k').path);
    } else {
      assert p == [Slot(k[0])] && p[..0] == [];
      PathCons(n, Slot(k[0]), []);
      assert (n.prefix + k)[|n.prefix|..] == k;
    }
  }

  /**
   * The label l spells a proper prefix of key, the step b is the slot of the
   * next byte, and the label of d fits in the rest of the key but is not a
   * prefix of it.
   */
  predicate DivergesAt(key: Bytes, l: Bytes, b: bool, d: Node)
  {
    |l| < |key| && HasPrefix(key, l) && b == Slot(key[|l|]) &&
    |d.prefix| <= |key| - |l| && !HasPrefix(key[|l|..], d.prefix)
  }

  lemma DivergesStep(n: Node, k: Bytes, c: Node, k': Bytes, p': seq<bool>)
    requires k != [] && Child(n, Slot(k[0])) == Some(c) && k == c.prefix + k'
    requires Sub(c, p').Some? && p' != []
    requires Sub(c, p'[..|p'| - 1]).Some?
    requires DivergesAt(c.prefix + k', PathLabel(c, p'[..|p'| - 1]), p'[|p'| - 1], Sub(c, p').value)
    ensures var p := [Slot(k[0])] + p';
      Sub(n, p[..|p| - 1]).Some? &&
      DivergesAt(n.prefix + k, PathLabel(n, p[..|p| - 1]), p[|p| - 1], Sub(n, p).value)
  {
    var p := [Slot(k[0])] + p';
    var q' := p'[..|p'| - 1];
    assert p[..|p| - 1] == [Slot(k[0])] + q';
    assert p[|p| - 1] == p'[|p'| - 1];
    PathCons(n, Slot(k[0]), p');
    PathCons(n, Slot(k[0]), q');
    DivergesAtCons(n.prefix, k, PathLabel(c, q'), p'[|p'| - 1], Sub(c, p').value);
  }

  /** A label that leaves the key still leaves it once both are preceded by the same bytes. */
  lemma DivergesAtCons(pre: Bytes, key: Bytes, l: Bytes, b: bool, d: Node)
    requires DivergesAt(key, l, b, d)
    ensures DivergesAt(pre + key, pre + l, b, d)
  {
    assert (pre + key)[|pre + l|..] == key[|l|..];
    assert (pre + key)[..|pre + l|] == pre + key[..|l|];
  }

  /** getLeaf finds the key's values exactly when the walk is used up on a leaf. */
  lemma {:induction false} WalkLookup(n: Node, k: Bytes)
    requires WalkSafe(n, k) && n.Inner?
    ensures Lookup(n, n.prefix + k) ==
      match Walk(n, k)
      case Reached(p) => if Sub(n, p).value.Leaf? then Some(Sub(n, p).value.values) else None
      case _ => None
    decreases n
  {
    LookupStep(n, k);
    if k != [] && Child(n, Slot(k[0])).Some? {
      var c := Child(n, Slot(k[0])).value;
      if k[..|c.prefix|] == c.prefix {
        var k' := k[|c.prefix|..];
        assert k == c.prefix + k';
        PathCons(n, Slot(k[0]), Walk(c, k').path);
        if c.Inner? {
          WalkLookup(c, k');
        } else {
          LookupLeaf(c, k);
          if k' != [] {
            assert Walk(c, k') == NoChild([], Slot(k'[0]));
          }
        }
      } else {
        assert !HasPrefix(k, c.prefix);
      }
    }
  }

  /**
   * With keys of one length and a key of that length, no walk step panics,
   * a missing child is only ever one of the root's, and a used-up key ends
   * on a leaf.
   */
  lemma {:induction false} UniformWalk(n: Node, k: Bytes, isRoot: bool)
    requires WF(n, isRoot) && UniformKeys(n, |n.prefix| + |k|) && IsBits(k)
    requires isRoot ==> |k| > 0
    ensures WalkSafe(n, k)
    ensures Walk(n, k).Reached? ==> Sub(n, Walk(n, k).path).value.Leaf?
    ensures Walk(n, k).NoChild? ==> isRoot && Walk(n, k).path == []
    decreases n
  {
    if k == [] {
      if n.Inner? { UniformLabel(n, |n.prefix|); }
    } else if Child(n, Slot(k[0])).Some? {
      var c := Child(n, Slot(k[0])).value;
      assert k[0] == 0 || k[0] == 1;
      UniformLabel(c, |k|);
      if k[..|c.prefix|] == c.prefix {
        var k' := k[|c.prefix|..];
        IsBitsSuffix(k, |c.prefix|);
        UniformWalk(c, k', false);
        PathCons(n, Slot(k[0]), Walk(c, k').path);
      }
    }
  }

  // ---------------------------------------------------------------------
  // The copath folds back to the root hash.

  /** An entry below the root: a sibling hash and a non-empty label. */
  predicate FullEntry(e: CopathEntry)
  {
    e.otherChildHash.Some? && e.partialPrefix.Some? && |e.partialPrefix.value| > 0
  }

  /**
   * The copath of the node d at p: getRootHash on d's hash and label and
   * this copath does not panic and returns the hash of the tree, and
   * getPrefix on it followed by d's label spells the path.
   */
  lemma {:induction false} CopathFold(c: Primitives, t: Node, p: seq<bool>, isRoot: bool)
    requires WF(t, isRoot) && Sub(t, p).Some? && p != []
    ensures FoldDefined(c, t, p, isRoot) && FoldPrefix(c, t, p) && FoldHash(c, t, p)
    decreases |p|
  {
    if |p| == 1 {
      FoldOne(c, t, p, isRoot);
    } else {
      CopathFold(c, Child(t, p[0]).value, p[1..], false);
      FoldStep(c, t, p, isRoot);
    }
  }

  /** The copath of a child of t: one entry. */
  lemma FoldOne(c: Primitives, t: Node, p: seq<bool>, isRoot: bool)
    requires WF(t, isRoot) && Sub(t, p).Some? && |p| == 1
    ensures FoldDefined(c, t, p, isRoot) && FoldPrefix(c, t, p) && FoldHash(c, t, p)
  {
    var ch := Child(t, p[0]).value;
    var e := EntryOf(c, t, p[0]);
    assert p[1..] == [];
    assert Sub(t, p) == Some(ch);
    assert CopathOf(c, t, p) == [e];
    assert PathLabel(t, p) == t.prefix + ch.prefix;
    assert Flat(e.partialPrefix) == t.prefix;
    assert GetPrefix([e]) == Flat(e.partialPrefix) + GetPrefix([]);
    assert WF(ch, false);
    assert RootHashDefined(ch.prefix, [e]);
    assert ComingFromLeft(ch.prefix, [e], 0) == !p[0];
  }

  /** The fold one level up: the ancestor's entry goes last. */
  lemma FoldStep(c: Primitives, t: Node, p: seq<bool>, isRoot: bool)
    requires WF(t, isRoot) && Sub(t, p).Some? && |p| > 1
    requires FoldDefined(c, Child(t, p[0]).value, p[1..], false)
    requires FoldPrefix(c, Child(t, p[0]).value, p[1..]) && FoldHash(c, Child(t, p[0]).value, p[1..])
    ensures FoldDefined(c, t, p, isRoot) && FoldPrefix(c, t, p) && FoldHash(c, t, p)
  {
    assert CopathOf(c, t, p) == CopathOf(c, Child(t, p[0]).value, p[1..]) + [EntryOf(c, t, p[0])];
    FoldDefinedStep(c, t, p, isRoot);
    FoldPrefixStep(c, t, p);
    FoldHashStep(c, t, p, isRoot);
  }

  /** getRootHash does not panic on the copath of the node d at p, whose length is that of p. */
  predicate FoldDefined(c: Primitives, t: Node, p: seq<bool>, isRoot: bool)
    requires Sub(t, p).Some?
  {
    var cp := CopathOf(c, t, p);
    |cp| == |p| && RootHashDefined(Sub(t, p).value.prefix, cp) &&
    (!isRoot && p != [] ==> FullEntry(cp[|p| - 1]))
  }

  /** getPrefix on the copath of the node d at p, followed by d's label, spells the path. */
  predicate FoldPrefix(c: Primitives, t: Node, p: seq<bool>)
    requires Sub(t, p).Some?
  {
    GetPrefix(CopathOf(c, t, p)) + Sub(t, p).value.prefix == PathLabel(t, p)
  }

  /** getRootHash on d's hash, d's label and d's copath returns the hash of the tree. */
  predicate FoldHash(c: Primitives, t: Node, p: seq<bool>)
    requires Sub(t, p).Some?
  {
    var d := Sub(t, p).value;
    var cp := CopathOf(c, t, p);
    RootHashDefined(d.prefix, cp) && |cp| == |p| &&
    FoldedHash(c, Some(HashOf(c, d)), d.prefix, cp, |p|) == Some(HashOf(c, t))
  }

  lemma FoldDefinedStep(c: Primitives, t: Node, p: seq<bool>, isRoot: bool)
    requires WF(t, isRoot) && Sub(t, p).Some? && |p| > 1
    requires FoldDefined(c, Child(t, p[0]).value, p[1..], false)
    requires CopathOf(c, t, p) == CopathOf(c, Child(t, p[0]).value, p[1..]) + [EntryOf(c, t, p[0])]
    ensures FoldDefined(c, t, p, isRoot)
  {
    var a := CopathOf(c, Child(t, p[0]).value, p[1..]);
    assert forall i :: 0 <= i < |a| ==> (a + [EntryOf(c, t, p[0])])[i] == a[i];
  }

  lemma FoldPrefixStep(c: Primitives, t: Node, p: seq<bool>)
    requires Sub(t, p).Some? && |p| > 1
    requires FoldPrefix(c, Child(t, p[0]).value, p[1..])
    requires CopathOf(c, t, p) == CopathOf(c, Child(t, p[0]).value, p[1..]) + [EntryOf(c, t, p[0])]
    ensures FoldPrefix(c, t, p)
  {
    var ch := Child(t, p[0]).value;
    var a := CopathOf(c, ch, p[1..]);
    var e := EntryOf(c, t, p[0]);
    var d := Sub(t, p).value;
    assert Sub(t, p) == Sub(ch, p[1..]);
    assert PathLabel(t, p) == t.prefix + PathLabel(ch, p[1..]);
    assert GetPrefix(a) + d.prefix == PathLabel(ch, p[1..]);
    GetPrefixSnoc(a, e);
    assert Flat(e.partialPrefix) == t.prefix;
    calc {
      GetPrefix(CopathOf(c, t, p)) + d.prefix;
      (t.prefix + GetPrefix(a)) + d.prefix;
      t.prefix + (GetPrefix(a) + d.prefix);
    }
  }

  lemma FoldHashStep(c: Primitives, t: Node, p: seq<bool>, isRoot: bool)
    requires WF(t, isRoot) && Sub(t, p).Some? && |p| > 1
    requires FoldHash(c, Child(t, p[0]).value, p[1..])
    requires FoldDefined(c, t, p, isRoot)
    requires CopathOf(c, t, p) == CopathOf(c, Child(t, p[0]).value, p[1..]) + [EntryOf(c, t, p[0])]
    ensures FoldHash(c, t, p)
  {
    var ch := Child(t, p[0]).value;
    var d := Sub(t, p).value;
    var e := EntryOf(c, t, p[0]);
    var a := CopathOf(c, ch, p[1..]);
    FoldedHashPrefix(c, Some(HashOf(c, d)), d.prefix, a, [e], |a|);
    assert (a + [e])[|a| - 1] == a[|a| - 1];
    assert a[|a| - 1] == EntryOf(c, ch, p[1..][0]);
    assert ComingFromLeft(d.prefix, a + [e], |a|) == !p[0];
  }

  // ---------------------------------------------------------------------
  // The proofs the trie hands out, and their round trips.

  /** generateMembershipProof does not panic: a used-up key ends on a leaf. */
  predicate MembershipSafe(t: Node, key: Bytes)
  {
    WalkSafe(t, key) && (Walk(t, key).Reached? ==> Sub(t, Walk(t, key).path).value.Leaf?)
  }

  /** generateNonMembershipProof does not panic: a missing child is one of the root's. */
  predicate NonMembershipSafe(t: Node, key: Bytes)
  {
    WalkSafe(t, key) && (Walk(t, key).NoChild? ==> Walk(t, key).path == [])
  }

  /** generateMembershipProof: the leaf's label and copath and its values, if the key is present. */
  function MembershipProofOf(c: Primitives, t: Node, key: Bytes): (r: Option<(MembershipProof, seq<KeyHash>)>)
    requires WF(t, true) && MembershipSafe(t, key)
    ensures r.Some? <==> Lookup(t, key).Some?
    ensures r.Some? ==> r.value.1 == Lookup(t, key).value
  {
    WalkLookup(t, key);
    match Walk(t, key)
    case Reached(p) =>
      var d := Sub(t, p).value;
      Some((MembershipProof(d.prefix, CopathOf(c, t, p)), d.values))
    case _ => None
  }

  /**
   * generateNonMembershipProof: none when the key is used up on a node;
   * for an empty slot of the root a nil end hash under the key's first
   * byte; otherwise the diverging node's hash, label and copath.
   */
  function NonMembershipProofOf(c: Primitives, t: Node, key: Bytes): (r: Option<NonMembershipProof>)
    requires WF(t, true) && NonMembershipSafe(t, key)
    ensures r.None? <==> Walk(t, key).Reached?
    ensures Lookup(t, key).Some? ==> r.None?
  {
    WalkLookup(t, key);
    match Walk(t, key)
    case Reached(_) => None
    case NoChild(_, s) => Some(NonMembershipProof(None, [key[0]], [EntryOf(c, t, s)]))
    case Diverges(p) =>
      var d := Sub(t, p).value;
      Some(NonMembershipProof(Some(HashOf(c, d)), d.prefix, CopathOf(c, t, p)))
  }

  /** A membership proof from the tree recomputes the tree's hash from the key and the values. */
  lemma MembershipRoundTrip(c: Primitives, t: Node, key: Bytes)
    requires WF(t, true) && MembershipSafe(t, key) && MembershipProofOf(c, t, key).Some?
    ensures MembershipCheckable(key, MembershipProofOf(c, t, key).value.0)
    ensures ComputeRootHashMembership(c, key, MembershipProofOf(c, t, key).value.0,
                                      MembershipProofOf(c, t, key).value.1) == Some(HashOf(c, t))
  {
    var p := Walk(t, key).path;
    WalkReached(t, key);
    CopathFold(c, t, p, true);
  }

  /**
   * A non-membership proof from the tree recomputes the tree's hash from the
   * key. (For a tree without children this is the hash of an empty root,
   * which the tree itself does not report.)
   */
  lemma NonMembershipRoundTrip(c: Primitives, t: Node, key: Bytes)
    requires WF(t, true) && IsBits(key) && NonMembershipSafe(t, key)
    requires NonMembershipProofOf(c, t, key).Some?
    ensures NonMembershipCheckable(key, NonMembershipProofOf(c, t, key).value)
    ensures ComputeRootHashNonMembership(c, key, NonMembershipProofOf(c, t, key).value) == Some(HashOf(c, t))
  {
    match Walk(t, key)
    case NoChild(_, s) =>
      WalkNoChild(t, key);
      NoChildRoundTrip(c, t, key, s);
    case Diverges(p) =>
      DivergesWalkRoundTrip(c, t, key, p);
  }

  /** The proof for the node at the end of a diverging walk. */
  lemma DivergesWalkRoundTrip(c: Primitives, t: Node, key: Bytes, p: seq<bool>)
    requires WF(t, true) && IsBits(key) && WalkSafe(t, key) && Walk(t, key) == Diverges(p)
    ensures Sub(t, p).Some?
    ensures var d := Sub(t, p).value;
      var proof := NonMembershipProof(Some(HashOf(c, d)), d.prefix, CopathOf(c, t, p));
      NonMembershipCheckable(key, proof) &&
      ComputeRootHashNonMembership(c, key, proof) == Some(HashOf(c, t))
  {
    var q := p[..|p| - 1];
    assert Sub(t, p).Some? && p != [] && Sub(t, q).Some? && DivergesAt(key, PathLabel(t, q), p[|p| - 1], Sub(t, p).value) by {
      WalkDiverges(t, key);
      assert t.prefix + key == key;
    }
    CopathFold(c, t, p, true);
    PathLabelLast(t, p);
    DivergesRoundTrip(c, t, key, p);
  }

  /** The proof for an empty slot of the root. */
  lemma NoChildRoundTrip(c: Primitives, t: Node, key: Bytes, s: bool)
    requires WF(t, true) && IsBits(key) && |key| > 0 && s == Slot(key[0]) && Child(t, s).None?
    ensures NonMembershipCheckable(key, NonMembershipProof(None, [key[0]], [EntryOf(c, t, s)]))
    ensures ComputeRootHashNonMembership(c, key, NonMembershipProof(None, [key[0]], [EntryOf(c, t, s)]))
      == Some(HashOf(c, t))
  {
    var e := EntryOf(c, t, s);
    assert GetPrefix([e]) == Flat(e.partialPrefix) + GetPrefix([]);
    assert key[0] == 0 || key[0] == 1;
    assert key[..0] == [] && key[0..] == key;
  }

  /** The proof for the node d at p whose label leaves the key. */
  lemma DivergesRoundTrip(c: Primitives, t: Node, key: Bytes, p: seq<bool>)
    requires WF(t, true) && IsBits(key) && Sub(t, p).Some? && p != []
    requires Sub(t, p[..|p| - 1]).Some?
    requires DivergesAt(key, PathLabel(t, p[..|p| - 1]), p[|p| - 1], Sub(t, p).value)
    requires PathLabel(t, p) == PathLabel(t, p[..|p| - 1]) + Sub(t, p).value.prefix
    requires FoldDefined(c, t, p, true) && FoldPrefix(c, t, p) && FoldHash(c, t, p)
    ensures var d := Sub(t, p).value;
      var proof := NonMembershipProof(Some(HashOf(c, d)), d.prefix, CopathOf(c, t, p));
      NonMembershipCheckable(key, proof) &&
      ComputeRootHashNonMembership(c, key, proof) == Some(HashOf(c, t))
  {
    var q := p[..|p| - 1];
    var l := PathLabel(t, q);
    var d := Sub(t, p).value;
    var cp := CopathOf(c, t, p);
    SubLast(t, p);
    WFSub(t, p, true);
    assert p != [];
    assert |GetPrefix(cp)| == |l|;
    assert GetPrefix(cp) == (GetPrefix(cp) + d.prefix)[..|l|] == (l + d.prefix)[..|l|] == l;
    WFSub(t, q, true);
    var a := Sub(t, q).value;
    assert Child(a, p[|p| - 1]) == Some(d);
    assert key[|l|] == 0 || key[|l|] == 1;
    if key[|l|] == 0 {
      assert a.left == Some(d);
    } else {
      assert a.right == Some(d);
    }
    NonMembershipCompute(c, key, NonMembershipProof(Some(HashOf(c, d)), d.prefix, cp));
  }

  /** The checks of computeRootHashNonMembership that a proof for a diverging node passes. */
  lemma NonMembershipCompute(c: Primitives, key: Bytes, proof: NonMembershipProof)
    requires proof.endNodeHash.Some? && |proof.endNodePartialPrefix| > 0
    requires HasPrefix(key, GetPrefix(proof.copathNodes)) && |key| > |GetPrefix(proof.copathNodes)|
    requires key[|GetPrefix(proof.copathNodes)|] == proof.endNodePartialPrefix[0]
    requires !HasPrefix(key[|GetPrefix(proof.copathNodes)|..], proof.endNodePartialPrefix)
    requires RootHashDefined(proof.endNodePartialPrefix, proof.copathNodes)
    ensures NonMembershipCheckable(key, proof)
    ensures ComputeRootHashNonMembership(c, key, proof) ==
      GetRootHash(c, proof.endNodeHash, proof.endNodePartialPrefix, proof.copathNodes)
  {
  }

  // ---------------------------------------------------------------------
  // The copath read entry by entry, as buildCopathFromNode climbs.

  /** Entry i of the copath of q is contributed by the ancestor i + 1 steps above the end of q. */
  lemma {:induction false} CopathIndex(c: Primitives, t: Node, q: seq<bool>, i: nat)
    requires Sub(t, q).Some? && i < |q|
    ensures |CopathOf(c, t, q)| == |q|
    ensures Sub(t, q[..|q| - i - 1]).Some?
    ensures CopathOf(c, t, q)[i] == EntryOf(c, Sub(t, q[..|q| - i - 1]).value, q[|q| - i - 1])
    decreases |q|
  {
    var ch := Child(t, q[0]).value;
    if i == |q| - 1 {
      assert q[..0] == [];
      CopathLength(c, ch, q[1..]);
    } else {
      CopathIndex(c, ch, q[1..], i);
      var n := |q| - i - 1;
      assert q[..n][0] == q[0] && q[..n][1..] == q[1..][..n - 1];
    }
  }

  lemma {:induction false} CopathLength(c: Primitives, t: Node, q: seq<bool>)
    requires Sub(t, q).Some?
    ensures |CopathOf(c, t, q)| == |q|
    decreases |q|
  {
    if q != [] { CopathLength(c, Child(t, q[0]).value, q[1..]); }
  }

  /** One step further down the path puts the new parent's entry in front. */
  lemma {:induction false} CopathSnoc(c: Primitives, t: Node, q: seq<bool>, b: bool)
    requires Sub(t, q + [b]).Some?
    ensures Sub(t, q).Some?
    ensures CopathOf(c, t, q + [b]) == [EntryOf(c, Sub(t, q).value, b)] + CopathOf(c, t, q)
    decreases |q|
  {
    SubPrefixSome(t, q, [b]);
    if q == [] {
      assert [b][1..] == [];
    } else {
      assert (q + [b])[0] == q[0] && (q + [b])[1..] == q[1..] + [b];
      CopathSnoc(c, Child(t, q[0]).value, q[1..], b);
    }
  }

  /** A node below a well-formed node sits in the slot its label's first byte selects. */
  lemma SlotOfSub(t: Node, p: seq<bool>, isRoot: bool)
    requires WF(t, isRoot) && Sub(t, p).Some? && p != []
    ensures |Sub(t, p).value.prefix| > 0 && Slot(Sub(t, p).value.prefix[0]) == p[|p| - 1]
  {
    SubLast(t, p);
    WFSub(t, p[..|p| - 1], isRoot);
  }

  /** The label of a path starts with the label of the node the path starts at. */
  lemma PathLabelHead(n: Node, p: seq<bool>)
    requires Sub(n, p).Some?
    ensures HasPrefix(PathLabel(n, p), n.prefix)
  {
    if p != [] {
      var r := PathLabel(Child(n, p[0]).value, p[1..]);
      assert (n.prefix + r)[..|n.prefix|] == n.prefix;
    }
  }

  /** The first step of a path whose labels spell a prefix of the key follows the key's first byte. */
  lemma AlongFirst(n: Node, k: Bytes, q: seq<bool>, i: nat, isRoot: bool)
    requires WF(n, isRoot) && Sub(n, q).Some? && q != [] && i <= |k|
    requires PathLabel(n, q) == n.prefix + k[..i]
    ensures n.Inner? && Child(n, q[0]).Some? && WF(Child(n, q[0]).value, false)
    ensures 0 < |Child(n, q[0]).value.prefix| <= i && q[0] == Slot(k[0])
    ensures HasPrefix(k, Child(n, q[0]).value.prefix)
    ensures var lc := |Child(n, q[0]).value.prefix|;
      Child(n, q[0]).value.prefix + k[lc..][..i - lc] == PathLabel(Child(n, q[0]).value, q[1..])
  {
    var c := Child(n, q[0]).value;
    var lc := |c.prefix|;
    var rest := PathLabel(c, q[1..]);
    assert k[..i] == rest by {
      assert [q[0]] + q[1..] == q;
      PathCons(n, q[0], q[1..]);
      assert (n.prefix + k[..i])[|n.prefix|..] == k[..i];
      assert (n.prefix + rest)[|n.prefix|..] == rest;
    }
    assert WF(c, false) && lc > 0 && Slot(c.prefix[0]) == q[0] by {
      WFSub(n, [q[0]], isRoot);
      assert [q[0]][1..] == [];
    }
    assert lc <= i && k[..lc] == c.prefix by {
      PathLabelHead(c, q[1..]);
      assert k[..i][..lc] == k[..lc];
    }
    assert k[..i] == k[..lc] + k[lc..][..i - lc];
  }

  /**
   * PrefixAppend's walk: once the labels along q spell the first i bytes of
   * the key, appending below n is appending below the node at q.
   */
  lemma {:induction false} InsertAlong(n: Node, k: Bytes, q: seq<bool>, i: nat, kh: KeyHash, newId: Id, isRoot: bool)
    requires WF(n, isRoot) && CanInsertAt(n, k) && Sub(n, q).Some? && i <= |k|
    requires PathLabel(n, q) == n.prefix + k[..i]
    ensures CanInsertAt(Sub(n, q).value, k[i..])
    ensures InsertAt(n, k, kh, newId) == Plug(n, q, InsertAt(Sub(n, q).value, k[i..], kh, newId))
    decreases |q|
  {
    if q == [] {
      assert k[..i] == [];
      assert k[i..] == k;
    } else {
      AlongFirst(n, k, q, i, isRoot);
      var c := Child(n, q[0]).value;
      var lc := |c.prefix|;
      DescendInsert(n, k, kh, newId);
      var k' := k[lc..];
      InsertAlong(c, k', q[1..], i - lc, kh, newId, false);
      assert k'[i - lc..] == k[i..];
      assert Sub(c, q[1..]) == Sub(n, q) by {
        assert [q[0]] + q[1..] == q;
        PathCons(n, q[0], q[1..]);
      }
      PlugPlug(n, [q[0]], q[1..], InsertAt(Sub(n, q).value, k[i..], kh, newId));
      assert [q[0]] + q[1..] == q;
    }
  }
}
