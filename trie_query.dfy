/**
 * The arena side of the queries of core/prefix_tree.go: the key walk of
 * getLeaf and generateNonMembershipProof one node at a time, and the climb
 * of buildCopathFromNode one ancestor at a time.
 */
module TrieQuery {
  import opened Wrappers
  import opened Bits
  import opened Crypto
  import opened Copath
  import opened TrieSpec
  import opened TrieWalk
  import opened TrieArena

  // ---------------------------------------------------------------------
  // The key walk.

  /**
   * The walk along key from n has gone down q to the node s, consuming the
   * key bytes before i: every step took the child the next key byte selects
   * and its label was the next part of the key.
   */
  ghost predicate Follows(n: Node, key: Bytes, q: seq<bool>, s: Node, i: nat)
    decreases |q|
  {
    if q == [] then s == n && i == 0
    else
      |key| > 0 && Slot(key[0]) == q[0] && Child(n, q[0]).Some? &&
      var c := Child(n, q[0]).value;
      |c.prefix| <= i && |c.prefix| <= |key| && key[..|c.prefix|] == c.prefix &&
      Follows(c, key[|c.prefix|..], q[1..], s, i - |c.prefix|)
  }

  /** The walk from the root is at the node s at q, with the key bytes before i consumed. */
  ghost predicate WalkAt(t: Node, key: Bytes, q: seq<bool>, s: Node, i: nat)
  {
    WalkSafe(t, key) && Follows(t, key, q, s, i)
  }

  /** Extend composes along a path split after its first slot. */
  lemma ExtendCons(q: seq<bool>, e: WalkEnd)
    requires q != []
    ensures Extend([q[0]], Extend(q[1..], e)) == Extend(q, e)
  {
    assert [q[0]] + (q[1..] + e.path) == q + e.path;
  }

  /** One step of the walk: into the child the first key byte selects, whose label matches. */
  lemma WalkCons(n: Node, key: Bytes, c: Node)
    requires WalkSafe(n, key) && |key| > 0 && Child(n, Slot(key[0])) == Some(c)
    requires |c.prefix| <= |key| && key[..|c.prefix|] == c.prefix
    ensures WalkSafe(c, key[|c.prefix|..]) && Walk(n, key) == Extend([Slot(key[0])], Walk(c, key[|c.prefix|..]))
  {
  }

  /** One step of a path: into the child its first slot names. */
  lemma SubCons(n: Node, q: seq<bool>, c: Node)
    requires q != [] && Child(n, q[0]) == Some(c)
    ensures Sub(n, q) == Sub(c, q[1..])
  {
  }

  /** What a followed path says about the walk: the rest of it is the walk from s. */
  lemma {:induction false} FollowsWalk(n: Node, key: Bytes, q: seq<bool>, s: Node, i: nat)
    requires WalkSafe(n, key) && Follows(n, key, q, s, i)
    ensures i <= |key| && Sub(n, q) == Some(s) && (q == [] ==> i == 0)
    ensures WalkSafe(s, key[i..]) && Walk(n, key) == Extend(q, Walk(s, key[i..]))
    decreases |q|
  {
    if q == [] {
      assert key[0..] == key;
      assert [] + Walk(n, key).path == Walk(n, key).path;
    } else {
      var c := Child(n, q[0]).value;
      var k' := key[|c.prefix|..];
      var j := i - |c.prefix|;
      FollowsWalk(c, k', q[1..], s, j);
      assert k'[j..] == key[i..];
      WalkCons(n, key, c);
      ExtendCons(q, Walk(s, k'[j..]));
      SubCons(n, q, c);
    }
  }

  /** Following one more matching child. */
  lemma {:induction false} FollowsSnoc(n: Node, key: Bytes, q: seq<bool>, s: Node, i: nat, c: Node)
    requires Follows(n, key, q, s, i) && i < |key| && Child(s, Slot(key[i])) == Some(c)
    requires i + |c.prefix| <= |key| && MatchesAt(key, i, c.prefix)
    ensures Follows(n, key, q + [Slot(key[i])], c, i + |c.prefix|)
    decreases |q|
  {
    var b := Slot(key[i]);
    if q == [] {
      assert key[..|c.prefix|] == key[i..i + |c.prefix|];
      assert [b][1..] == [];
    } else {
      var d := Child(n, q[0]).value;
      var k' := key[|d.prefix|..];
      var j := i - |d.prefix|;
      assert k'[j] == key[i];
      assert k'[j..j + |c.prefix|] == key[i..i + |c.prefix|];
      FollowsSnoc(d, k', q[1..], s, j, c);
      assert (q + [b])[1..] == q[1..] + [b];
      assert (q + [b])[0] == q[0];
    }
  }

  lemma WalkAtRoot(t: Node, key: Bytes)
    requires WalkSafe(t, key)
    ensures WalkAt(t, key, [], t, 0)
  {
  }

  /** A key used up at the node s: the walk reaches s. */
  lemma WalkAtEnd(t: Node, key: Bytes, q: seq<bool>, s: Node, i: nat)
    requires WalkAt(t, key, q, s, i) && i == |key|
    ensures Sub(t, q) == Some(s) && Walk(t, key) == Reached(q)
  {
    FollowsWalk(t, key, q, s, i);
    assert key[i..] == [];
    assert q + [] == q;
  }

  /** No child in the slot of the next key byte: the walk stops at s. */
  lemma WalkAtNoChild(t: Node, key: Bytes, q: seq<bool>, s: Node, i: nat)
    requires WalkAt(t, key, q, s, i) && i < |key| && Child(s, Slot(key[i])).None?
    ensures Sub(t, q) == Some(s) && (q == [] ==> i == 0)
    ensures Walk(t, key) == NoChild(q, Slot(key[i]))
  {
    FollowsWalk(t, key, q, s, i);
    assert key[i..][0] == key[i];
    assert q + [] == q;
  }

  /** The child c in the slot of the next key byte has a label that fits in the rest of the key. */
  lemma WalkAtFits(t: Node, key: Bytes, q: seq<bool>, s: Node, i: nat, c: Node)
    requires WF(t, true) && WalkAt(t, key, q, s, i) && i < |key| && Child(s, Slot(key[i])) == Some(c)
    ensures Sub(t, q) == Some(s)
    ensures 0 < |c.prefix| && i + |c.prefix| <= |key| && Sub(t, q + [Slot(key[i])]) == Some(c)
  {
    FollowsWalk(t, key, q, s, i);
    assert key[i..][0] == key[i];
    SubAppend(t, q, [Slot(key[i])]);
    assert [Slot(key[i])][1..] == [];
    WFSub(t, q + [Slot(key[i])], true);
  }

  /** ... and when that label is the next part of the key, the walk goes on from c. */
  lemma WalkAtDescend(t: Node, key: Bytes, q: seq<bool>, s: Node, i: nat, c: Node, q': seq<bool>, i': nat)
    requires WalkAt(t, key, q, s, i) && i < |key| && Child(s, Slot(key[i])) == Some(c)
    requires q' == q + [Slot(key[i])] && i' == i + |c.prefix| <= |key| && MatchesAt(key, i, c.prefix)
    ensures WalkAt(t, key, q', c, i')
  {
    FollowsSnoc(t, key, q, s, i, c);
  }

  /** ... and when it is not, the walk stops at c. */
  lemma WalkAtDiverges(t: Node, key: Bytes, q: seq<bool>, s: Node, i: nat, c: Node)
    requires WalkAt(t, key, q, s, i) && i < |key| && Child(s, Slot(key[i])) == Some(c)
    requires i + |c.prefix| <= |key| && !MatchesAt(key, i, c.prefix)
    ensures Walk(t, key) == Diverges(q + [Slot(key[i])])
  {
    FollowsWalk(t, key, q, s, i);
    var k := key[i..];
    assert k[0] == key[i];
    assert k[..|c.prefix|] == key[i..i + |c.prefix|];
  }

  /** A walk that ends at qe and has not used up the key: the next key byte's child is there and its label is the next part of the key. */
  lemma WalkAtGoesOn(t: Node, key: Bytes, q: seq<bool>, s: Node, i: nat, qe: seq<bool>)
    requires WalkAt(t, key, q, s, i) && i < |key| && Walk(t, key) == Reached(qe)
    ensures Child(s, Slot(key[i])).Some?
    ensures var c := Child(s, Slot(key[i])).value; i + |c.prefix| <= |key| && MatchesAt(key, i, c.prefix)
  {
    FollowsWalk(t, key, q, s, i);
    var k := key[i..];
    assert k[0] == key[i];
    assert Walk(s, k).Reached?;
    var c := Child(s, Slot(k[0])).value;
    assert k[..|c.prefix|] == key[i..i + |c.prefix|];
  }

  /** One step of a walk that ends at qe: down to the child c of the next key byte, at the end when the key is used up. */
  lemma WalkAtStep(t: Node, key: Bytes, q: seq<bool>, s: Node, i: nat, qe: seq<bool>)
    requires WF(t, true) && WalkAt(t, key, q, s, i) && i < |key| && Walk(t, key) == Reached(qe)
    ensures Child(s, Slot(key[i])).Some?
    ensures var c := Child(s, Slot(key[i])).value; var q' := q + [Slot(key[i])];
      0 < |c.prefix| && i + |c.prefix| <= |key| && MatchesAt(key, i, c.prefix) &&
      Sub(t, q') == Some(c) && WalkAt(t, key, q', c, i + |c.prefix|) &&
      (i + |c.prefix| == |key| ==> q' == qe)
  {
    WalkAtGoesOn(t, key, q, s, i, qe);
    var c := Child(s, Slot(key[i])).value;
    var q' := q + [Slot(key[i])];
    WalkAtFits(t, key, q, s, i, c);
    WalkAtDescend(t, key, q, s, i, c, q', i + |c.prefix|);
    if i + |c.prefix| == |key| {
      WalkAtEnd(t, key, q', c, i + |c.prefix|);
    }
  }

  /** A followed path depends only on the key bytes it consumed. */
  lemma {:induction false} FollowsTrunc(n: Node, key: Bytes, key': Bytes, q: seq<bool>, s: Node, i: nat, isRoot: bool)
    requires WF(n, isRoot) && Follows(n, key, q, s, i) && i < |key'| && i <= |key| && key'[..i] == key[..i]
    ensures Follows(n, key', q, s, i)
    decreases |q|
  {
    if q != [] {
      var c := Child(n, q[0]).value;
      var p := |c.prefix|;
      assert key'[0] == key'[..i][0] == key[..i][0] == key[0];
      assert key'[..p] == key'[..i][..p] == key[..i][..p] == key[..p];
      assert key'[p..][..i - p] == key'[..i][p..] == key[..i][p..] == key[p..][..i - p];
      FollowsTrunc(c, key[p..], key'[p..], q[1..], s, i - p, false);
    }
  }

  /** A walk that is safe from where a followed path ends is safe from its start. */
  lemma {:induction false} FollowsSafe(n: Node, key: Bytes, q: seq<bool>, s: Node, i: nat)
    requires Follows(n, key, q, s, i) && i <= |key| && WalkSafe(s, key[i..])
    ensures WalkSafe(n, key)
    decreases |q|
  {
    if q == [] {
      assert key[0..] == key;
    } else {
      var c := Child(n, q[0]).value;
      var p := |c.prefix|;
      var k' := key[p..];
      assert k'[i - p..] == key[i..];
      FollowsSafe(c, k', q[1..], s, i - p);
      assert Child(n, Slot(key[0])) == Some(c) && key[..p] == c.prefix;
    }
  }

  /**
   * The key bytes a walk consumed followed by the whole label of the next
   * child c (generateNonMembershipProof's conflictingPrefix): the walk
   * along them is used up at c.
   */
  lemma ConflictWalk(t: Node, key: Bytes, q: seq<bool>, s: Node, i: nat, c: Node)
    requires WF(t, true) && WalkAt(t, key, q, s, i) && i < |key| && Child(s, Slot(key[i])) == Some(c)
    ensures WalkSafe(t, key[..i] + c.prefix) && Walk(t, key[..i] + c.prefix) == Reached(q + [Slot(key[i])])
  {
    var k := key[..i] + c.prefix;
    var b := Slot(key[i]);
    FollowsWalk(t, key, q, s, i);
    WFSub(t, q, true);
    assert k[..i] == key[..i];
    FollowsTrunc(t, key, k, q, s, i, true);
    assert k[i] == c.prefix[0] && Slot(k[i]) == b;
    assert k[i..i + |c.prefix|] == c.prefix;
    FollowsSnoc(t, k, q, s, i, c);
    assert k[|k|..] == [];
    FollowsSafe(t, k, q + [b], c, |k|);
    WalkAtEnd(t, k, q + [b], c, |k|);
  }

  // ---------------------------------------------------------------------
  // The copath climb.

  /**
   * The copath of a node in slot r[|r| - 1] below the node at r[..|r| - 1],
   * whether or not that slot is taken (the empty child of the root that
   * generateNonMembershipProof stands in for is not).
   */
  ghost function CopathAbove(c: Primitives, t: Node, r: seq<bool>): seq<CopathEntry>
    requires r == [] || Sub(t, r[..|r| - 1]).Some?
  {
    if r == [] then []
    else [EntryOf(c, Sub(t, r[..|r| - 1]).value, r[|r| - 1])] + CopathOf(c, t, r[..|r| - 1])
  }

  /** For a node of the tree, that is its copath. */
  lemma CopathAboveOf(c: Primitives, t: Node, r: seq<bool>)
    requires Sub(t, r).Some?
    ensures r == [] || Sub(t, r[..|r| - 1]).Some?
    ensures CopathAbove(c, t, r) == CopathOf(c, t, r)
  {
    if r != [] {
      assert r == r[..|r| - 1] + [r[|r| - 1]];
      CopathSnoc(c, t, r[..|r| - 1], r[|r| - 1]);
    }
  }

  /**
   * buildCopathFromNode is at the node at r (or at the stand-in for the
   * empty slot r[|r| - 1]): its parent link and label are par and lbl, and r
   * leads towards the starting node at q.
   */
  ghost predicate ClimbAt(t: Node, q: seq<bool>, r: seq<bool>, par: Option<Id>, lbl: Bytes)
  {
    |r| <= |q| && r == q[..|r|] &&
    (r == [] ==> par == None) &&
    (r != [] ==>
      Sub(t, r[..|r| - 1]).Some? && par == Some(Sub(t, r[..|r| - 1]).value.id) &&
      lbl != [] && Slot(lbl[0]) == r[|r| - 1])
  }

  /** getSibling().getHash(): nil without a sibling. */
  function SiblingHash(h: Hashes, sib: Option<Id>): NBytes
  {
    if sib.Some? && sib.value in h then h[sib.value] else None
  }

  /** The parent of the node at r is the node at r[..|r| - 1], and the climb goes on from there. */
  lemma ClimbParent(m: Arena, t: Node, q: seq<bool>, r: seq<bool>, par: Option<Id>, lbl: Bytes)
    requires Shape(m, t, None) && WF(t, true) && ClimbAt(t, q, r, par, lbl) && r != []
    ensures Sub(t, r[..|r| - 1]).Some?
    ensures var s := Sub(t, r[..|r| - 1]).value;
      par == Some(s.id) && s.id in m && Shape(m, s, m[s.id].parent) &&
      ClimbAt(t, q, r[..|r| - 1], m[s.id].parent, m[s.id].prefix)
  {
    var r' := r[..|r| - 1];
    ShapeSub(m, t, r', None);
    if r' != [] {
      ParentAtLast(t, r', None);
      SlotOfSub(t, r', true);
    }
    assert r' == q[..|r'|];
  }

  /** The copath entry of the node at p in slot b, read off the arena record and the stored hashes. */
  lemma SiblingEntry(c: Primitives, m: Arena, h: Hashes, t: Node, p: seq<bool>, parent: Option<Id>, b: bool)
    requires ChildrenHashed(c, h, t) && Sub(t, p).Some? && Sub(t, p).value.id in m
    requires Shape(m, Sub(t, p).value, parent)
    ensures var s := Sub(t, p).value;
      var sib := ArenaChild(m[s.id], !b);
      (sib.Some? ==> sib.value in h) &&
      EntryOf(c, s, b) == CopathEntry(PartialPrefix(m[s.id]), SiblingHash(h, sib))
  {
    var s := Sub(t, p).value;
    ShapeChild(m, s, parent, !b);
    if Child(s, !b).Some? {
      SubAppend(t, p, [!b]);
      assert [!b][1..] == [];
      HashedSub(c, h, t, p + [!b]);
    }
  }

  /** CopathAbove peels off its lowest entry. */
  lemma CopathAboveCons(c: Primitives, t: Node, r: seq<bool>)
    requires r != [] && Sub(t, r[..|r| - 1]).Some?
    ensures var r' := r[..|r| - 1]; r' == [] || Sub(t, r'[..|r'| - 1]).Some?
    ensures CopathAbove(c, t, r) ==
      [EntryOf(c, Sub(t, r[..|r| - 1]).value, r[|r| - 1])] + CopathAbove(c, t, r[..|r| - 1])
  {
    var r' := r[..|r| - 1];
    CopathAboveOf(c, t, r');
  }

  /**
   * One round of buildCopathFromNode: the parent's record gives the next
   * copath entry (its label and the stored hash of the other child) and the
   * parent link and label to climb to.
   */
  lemma ClimbEntry(c: Primitives, m: Arena, h: Hashes, t: Node, q: seq<bool>, r: seq<bool>,
                   par: Option<Id>, lbl: Bytes)
    requires Shape(m, t, None) && WF(t, true) && ChildrenHashed(c, h, t)
    requires ClimbAt(t, q, r, par, lbl) && r != []
    ensures par.Some? && par.value in m
    ensures var a := m[par.value];
      var sib := ArenaChild(a, !Slot(lbl[0]));
      (sib.Some? ==> sib.value in h) &&
      ClimbAt(t, q, r[..|r| - 1], a.parent, a.prefix) &&
      CopathAbove(c, t, r) == [CopathEntry(PartialPrefix(a), SiblingHash(h, sib))] + CopathAbove(c, t, r[..|r| - 1])
  {
    var r' := r[..|r| - 1];
    ClimbParent(m, t, q, r, par, lbl);
    var s := Sub(t, r').value;
    SiblingEntry(c, m, h, t, r', m[s.id].parent, r[|r| - 1]);
    CopathAboveCons(c, t, r);
  }
}
