/**
 * What the read-only operations of core/persistent_prefix_tree.go read off
 * the store: the records along a key's path (LookupPath, getPath) and the
 * copath entries of buildCopathFromNodeFromRoot, each stated against the
 * snapshot of an epoch (PersistentStore.ViewOf).
 */
module PersistentQuery {
  import opened Wrappers
  import opened Bits
  import opened Crypto
  import opened Copath
  import opened TrieSpec
  import opened TrieWalk
  import opened TrieArena
  import opened TrieQuery
  import opened PersistentStore

  /** The nodes below n along q, from n's child in slot q[0] down to the node at q. */
  function Spine(n: Node, q: seq<bool>): (r: seq<Id>)
    requires Sub(n, q).Some?
    ensures |r| == |q|
    decreases |q|
  {
    if q == [] then [] else [Child(n, q[0]).value.id] + Spine(Child(n, q[0]).value, q[1..])
  }

  /** Element j of the spine is the node j + 1 steps down the path. */
  lemma {:induction false} SpineAt(n: Node, q: seq<bool>, j: nat)
    requires Sub(n, q).Some? && j < |q|
    ensures Sub(n, q[..j + 1]).Some? && Spine(n, q)[j] == Sub(n, q[..j + 1]).value.id
    decreases |q|
  {
    var c := Child(n, q[0]).value;
    assert q[..j + 1][0] == q[0];
    if j > 0 {
      SpineAt(c, q[1..], j - 1);
      assert q[..j + 1][1..] == q[1..][..j];
    } else {
      assert q[..1][1..] == [];
    }
  }

  /** The spine of a longer path is the spine of its start and the node at its end. */
  lemma {:induction false} SpineSnoc(n: Node, q: seq<bool>, b: bool)
    requires Sub(n, q + [b]).Some?
    ensures Sub(n, q).Some? && Spine(n, q + [b]) == Spine(n, q) + [Sub(n, q + [b]).value.id]
    decreases |q|
  {
    SubPrefixSome(n, q, [b]);
    if q == [] {
      assert q + [b] == [b] && [b][1..] == [];
    } else {
      assert (q + [b])[0] == q[0] && (q + [b])[1..] == q[1..] + [b];
      SpineSnoc(Child(n, q[0]).value, q[1..], b);
    }
  }

  /**
   * For a key of the tree's key length, the walks from a root record never
   * panic: a missing child is one of the root's, a used-up key ends on a
   * leaf, and the walk reaches a record exactly when the key is present.
   */
  lemma FullKeyWalk(m: Store, st: Offsets, K: nat, root: Id, key: Bytes)
    requires Linked(m, st, K) && Balanced(m, st, K) && root in m && m[root].prefix == []
    requires |key| == K && K > 0 && IsBits(key)
    ensures MembershipSafe(ViewOf(m, st, K, root), key) && NonMembershipSafe(ViewOf(m, st, K, root), key)
    ensures Lookup(ViewOf(m, st, K, root), key).Some? <==> Walk(ViewOf(m, st, K, root), key).Reached?
  {
    var t := ViewOf(m, st, K, root);
    LinkedAtOf(m, st, K, root);
    ViewWF(m, st, K, root);
    ViewUniform(m, st, K, root);
    UniformWalk(t, key, true);
    WalkLookup(t, key);
    assert t.prefix + key == key;
  }

  /** The copath label of a record: nil for the root's empty label. */
  function LabelEntry(prefix: Bytes): (r: NBytes)
    ensures r.None? <==> prefix == []
  {
    if prefix == [] then None else Some(prefix)
  }

  /**
   * The node at q of the snapshot of root, read off the store: its record's
   * copath entry for slot b is its label and the stored hash of its other
   * child, and the node one step further in slot b is the record in that
   * slot, which is not the record in the other slot.
   */
  lemma StoredEntry(c: Primitives, m: Store, st: Offsets, K: nat, root: Id, q: seq<bool>, b: bool)
    requires Linked(m, st, K) && root in m && ChildrenHashed(c, HashesOf(m), ViewOf(m, st, K, root))
    requires Sub(ViewOf(m, st, K, root), q).Some?
    ensures var a := Sub(ViewOf(m, st, K, root), q).value.id;
      a in m && (Slotted(m[a], !b).Some? ==> Slotted(m[a], !b).value in m) &&
      EntryOf(c, Sub(ViewOf(m, st, K, root), q).value, b) ==
        CopathEntry(LabelEntry(m[a].prefix), if Slotted(m[a], !b).Some? then m[Slotted(m[a], !b).value].hash else None)
    ensures var a := Sub(ViewOf(m, st, K, root), q).value.id;
      Sub(ViewOf(m, st, K, root), q + [b]).Some? ==>
        Slotted(m[a], b).Some? && Slotted(m[a], b).value in m &&
        Sub(ViewOf(m, st, K, root), q + [b]).value == ViewOf(m, st, K, Slotted(m[a], b).value) &&
        Slotted(m[a], !b) != Slotted(m[a], b)
  {
    var t := ViewOf(m, st, K, root);
    ViewEpochs(m, st, K, root, q);
    var a := Sub(t, q).value.id;
    LinkedAtOf(m, st, K, a);
    ViewChild(m, st, K, a, !b);
    ViewChild(m, st, K, a, b);
    if Slotted(m[a], !b).Some? {
      SubAppend(t, q, [!b]);
      assert [!b][1..] == [];
      HashedSub(c, HashesOf(m), t, q + [!b]);
    }
    SubAppend(t, q, [b]);
    assert [b][1..] == [];
  }

  /**
   * A step of getLeaf and of the proof walks at the record curr, key byte i:
   * the record in the slot of the next key byte, if any, is no newer than
   * curr, its label fits in the rest of the key, and when the label is the
   * next part of the key the walk goes on from it.
   */
  lemma ProbeStep(m: Store, st: Offsets, K: nat, t: Node, key: Bytes, q: seq<bool>, curr: Id, i: nat)
    requires Linked(m, st, K) && curr in m && WF(t, true) && i < |key|
    requires WalkAt(t, key, q, ViewOf(m, st, K, curr), i)
    ensures var b := Slot(key[i]); var o := Slotted(m[curr], b);
      o.Some? ==>
        o.value in m && m[o.value].epoch <= m[curr].epoch &&
        0 < |m[o.value].prefix| && i + |m[o.value].prefix| <= |key| &&
        (MatchesAt(key, i, m[o.value].prefix) ==> WalkAt(t, key, q + [b], ViewOf(m, st, K, o.value), i + |m[o.value].prefix|))
  {
    var s := ViewOf(m, st, K, curr);
    var b := Slot(key[i]);
    LinkedAtOf(m, st, K, curr);
    ViewChild(m, st, K, curr, b);
    if Slotted(m[curr], b).Some? {
      var c := Child(s, b).value;
      WalkAtFits(t, key, q, s, i, c);
      if MatchesAt(key, i, c.prefix) {
        WalkAtDescend(t, key, q, s, i, c, q + [b], i + |c.prefix|);
      }
    }
  }

  /** ... the record in that slot is the node one slot further down the view, and the spine grows by it ... */
  lemma ProbeSpine(m: Store, st: Offsets, K: nat, t: Node, key: Bytes, q: seq<bool>, curr: Id, i: nat)
    requires Linked(m, st, K) && curr in m && WF(t, true) && i < |key| && Slotted(m[curr], Slot(key[i])).Some?
    requires WalkAt(t, key, q, ViewOf(m, st, K, curr), i)
    ensures var b := Slot(key[i]); var o := Slotted(m[curr], b).value;
      o in m && Sub(t, q).Some? && Sub(t, q + [b]) == Some(ViewOf(m, st, K, o)) && Spine(t, q + [b]) == Spine(t, q) + [o]
  {
    var b := Slot(key[i]);
    ViewChild(m, st, K, curr, b);
    WalkAtFits(t, key, q, ViewOf(m, st, K, curr), i, Child(ViewOf(m, st, K, curr), b).value);
    SpineSnoc(t, q, b);
  }

  /**
   * A step of Insert's walk at the record curr, whose label ends at key
   * bit i: an empty slot is one of the root's and ends the walk; the
   * record in the slot starts at bit i with that bit, its label fits in the
   * key, and the walk goes on from it when its label is the next part of
   * the key and does not reach a record otherwise.
   */
  lemma InsertProbe(m: Store, st: Offsets, K: nat, t: Node, key: Bytes, q: seq<bool>, curr: Id, i: nat)
    requires Linked(m, st, K) && curr in m && curr in st && End(m, st, curr) == i && WF(t, true)
    requires i < |key| && IsBits(key) && NonMembershipSafe(t, key)
    requires WalkAt(t, key, q, ViewOf(m, st, K, curr), i)
    ensures var b := Slot(key[i]); var o := Slotted(m[curr], b);
      (o.None? ==> !Walk(t, key).Reached? && q == [] && i == 0) &&
      (o.Some? ==>
        o.value in m && o.value in st && st[o.value] == i && IsBits(m[o.value].prefix) &&
        0 < |m[o.value].prefix| && i + |m[o.value].prefix| <= |key| && key[i] == m[o.value].prefix[0] &&
        (MatchesAt(key, i, m[o.value].prefix) ==> WalkAt(t, key, q + [b], ViewOf(m, st, K, o.value), i + |m[o.value].prefix|)) &&
        (!MatchesAt(key, i, m[o.value].prefix) ==> !Walk(t, key).Reached?))
  {
    var b := Slot(key[i]);
    var o := Slotted(m[curr], b);
    ProbeStep(m, st, K, t, key, q, curr, i);
    LinkedAtOf(m, st, K, curr);
    if o.None? {
      ProbeMissing(m, st, K, t, key, q, curr, i);
    } else {
      LinkedAtOf(m, st, K, o.value);
      if !MatchesAt(key, i, m[o.value].prefix) {
        ProbeDiverges(m, st, K, t, key, q, curr, i);
      }
    }
  }

  /** The length of the longest run on which `part` agrees with `key` from position `i`. */
  method CommonRun(key: Bytes, i: nat, part: Bytes) returns (j: nat)
    requires i + |part| <= |key|
    ensures j <= |part| && key[i..i + j] == part[..j]
    ensures j < |part| ==> key[i + j] != part[j]
    ensures j == |part| <==> MatchesAt(key, i, part)
  {
    j := 0;
    while j < |part| && key[i + j] == part[j]
      invariant j <= |part| && key[i..i + j] == part[..j]
    {
      assert key[i..i + j + 1] == key[i..i + j] + [key[i + j]];
      assert part[..j + 1] == part[..j] + [part[j]];
      j := j + 1;
    }
    if j < |part| {
      assert key[i..i + |part|][j] == key[i + j];
    } else {
      assert part[..j] == part;
    }
  }

  /**
   * Where Insert's walk stops: on the record at with the key used up
   * exactly when the key is in the tree; at an empty slot of the root (next
   * is none); or inside the label of next at its bit j, where the key's
   * bit i differs.
   */
  ghost predicate WalkStop(m: Store, st: Offsets, t: Node, root: Id, prefix: Bytes,
                           at: Id, next: Option<Id>, i: nat, j: nat)
    requires IsBits(prefix) && NonMembershipSafe(t, prefix)
  {
    at in m && i <= |prefix| &&
    (i == |prefix| <==> Walk(t, prefix).Reached?) &&
    (i == |prefix| ==> m[at].prefix != []) &&
    (i < |prefix| && next.None? ==> at == root && i == 0 && Slotted(m[at], Slot(prefix[0])).None?) &&
    (i < |prefix| && next.Some? ==>
      next.value in m && next.value in st && 0 < j < |m[next.value].prefix| &&
      st[next.value] + j == i && prefix[i] != m[next.value].prefix[j])
  }

  /** Insert's walk is at the record curr, at path q, with the key bits before i consumed. */
  ghost predicate WalkInv(m: Store, st: Offsets, K: nat, t: Node, root: Id, prefix: Bytes,
                          q: seq<bool>, curr: Id, i: nat)
  {
    Linked(m, st, K) && curr in m && curr in st && End(m, st, curr) == i <= |prefix| &&
    WalkAt(t, prefix, q, ViewOf(m, st, K, curr), i) &&
    (q == [] ==> curr == root) && (q != [] ==> m[curr].prefix != [])
  }

  /** The walk starts at the root with nothing consumed. */
  lemma WalkStart(m: Store, st: Offsets, K: nat, root: Id, prefix: Bytes, t: Node)
    requires Linked(m, st, K) && root in m && m[root].prefix == [] && t == ViewOf(m, st, K, root) && WF(t, true)
    requires IsBits(prefix) && NonMembershipSafe(t, prefix)
    ensures WalkInv(m, st, K, t, root, prefix, [], root, 0)
  {
    LinkedAtOf(m, st, K, root);
    WalkAtRoot(t, prefix);
  }

  /** An empty slot at curr stops the walk there. */
  lemma StopEmpty(m: Store, st: Offsets, K: nat, root: Id, prefix: Bytes, t: Node, q: seq<bool>, curr: Id, i: nat, j: nat)
    requires Linked(m, st, K) && WF(t, true) && IsBits(prefix) && NonMembershipSafe(t, prefix)
    requires WalkInv(m, st, K, t, root, prefix, q, curr, i) && i < |prefix|
    requires Slotted(m[curr], Slot(prefix[i])).None?
    ensures WalkStop(m, st, t, root, prefix, curr, None, i, j)
  {
    InsertProbe(m, st, K, t, prefix, q, curr, i);
  }

  /** The record in the slot the next key bit selects has a label that fits in the key. */
  lemma SlotFits(m: Store, st: Offsets, K: nat, root: Id, prefix: Bytes, t: Node, q: seq<bool>, curr: Id, i: nat)
    requires WF(t, true) && IsBits(prefix) && NonMembershipSafe(t, prefix)
    requires WalkInv(m, st, K, t, root, prefix, q, curr, i) && i < |prefix|
    requires Slotted(m[curr], Slot(prefix[i])).Some?
    ensures var o := Slotted(m[curr], Slot(prefix[i])).value; o in m && i + |m[o].prefix| <= |prefix|
  {
    InsertProbe(m, st, K, t, prefix, q, curr, i);
  }

  /** A label that leaves the key at its bit j stops the walk inside it. */
  lemma StopInside(m: Store, st: Offsets, K: nat, root: Id, prefix: Bytes, t: Node, q: seq<bool>, curr: Id, i: nat,
                   o: Id, j: nat)
    requires Linked(m, st, K) && WF(t, true) && IsBits(prefix) && NonMembershipSafe(t, prefix)
    requires WalkInv(m, st, K, t, root, prefix, q, curr, i) && i < |prefix|
    requires Slotted(m[curr], Slot(prefix[i])) == Some(o) && o in m
    requires i + |m[o].prefix| <= |prefix| && j < |m[o].prefix|
    requires prefix[i..i + j] == m[o].prefix[..j] && prefix[i + j] != m[o].prefix[j]
    ensures WalkStop(m, st, t, root, prefix, curr, Some(o), i + j, j)
  {
    InsertProbe(m, st, K, t, prefix, q, curr, i);
    assert prefix[i..i + |m[o].prefix|][j] == prefix[i + j];
    assert !MatchesAt(prefix, i, m[o].prefix);
  }

  /** A label that is the next part of the key moves the walk into its record. */
  lemma StepOn(m: Store, st: Offsets, K: nat, root: Id, prefix: Bytes, t: Node, q: seq<bool>, curr: Id, i: nat, o: Id)
    requires Linked(m, st, K) && WF(t, true) && IsBits(prefix) && NonMembershipSafe(t, prefix)
    requires WalkInv(m, st, K, t, root, prefix, q, curr, i) && i < |prefix|
    requires Slotted(m[curr], Slot(prefix[i])) == Some(o) && o in m
    requires i + |m[o].prefix| <= |prefix| && MatchesAt(prefix, i, m[o].prefix)
    ensures WalkInv(m, st, K, t, root, prefix, q + [Slot(prefix[i])], o, i + |m[o].prefix|)
  {
    InsertProbe(m, st, K, t, prefix, q, curr, i);
  }

  /** The key used up on curr stops the walk there. */
  lemma StopReached(m: Store, st: Offsets, K: nat, root: Id, prefix: Bytes, t: Node, q: seq<bool>, curr: Id,
                    next: Option<Id>, i: nat, j: nat)
    requires IsBits(prefix) && NonMembershipSafe(t, prefix)
    requires WalkInv(m, st, K, t, root, prefix, q, curr, i) && 0 < |prefix| && !(i < |prefix|)
    ensures WalkStop(m, st, t, root, prefix, curr, next, i, j)
  {
    WalkAtEnd(t, prefix, q, ViewOf(m, st, K, curr), i);
  }

  /**
   * The walk of persistentPrefixTree.Insert from a root: step to the
   * child the next key bit selects and compare its label with the key bit
   * by bit. It stops at an empty slot of the record at (next is none),
   * inside the label of next at its bit j, where the key's bit i differs,
   * or with the key used up on the record at.
   */
  method InsertWalk(m: Store, ghost st: Offsets, ghost K: nat, root: Id, prefix: Bytes, ghost t: Node)
    returns (at: Id, next: Option<Id>, i: nat, j: nat)
    requires Linked(m, st, K) && root in m && m[root].prefix == [] && t == ViewOf(m, st, K, root) && WF(t, true)
    requires 0 < K && |prefix| == K && IsBits(prefix) && NonMembershipSafe(t, prefix)
    ensures WalkStop(m, st, t, root, prefix, at, next, i, j)
    ensures m[root].left.None? && m[root].right.None? ==> at == root && next.None? && i == 0
  {
    var curr := root;
    at, next, i, j := curr, None, 0, 0;
    ghost var q := [];
    WalkStart(m, st, K, root, prefix, t);
    while i < |prefix|
      invariant WalkInv(m, st, K, t, root, prefix, q, curr, i)
      invariant m[root].left.None? && m[root].right.None? ==> q == [] && i == 0
      decreases |prefix| - i
    {
      at := curr;
      var stop, ni;
      next, j, ni, stop := WalkStep(m, st, K, root, prefix, t, q, curr, i);
      if stop {
        i := ni;
        return;
      }
      q, curr, i := q + [Slot(prefix[i])], next.value, ni;
    }
    at := curr;
    StopReached(m, st, K, root, prefix, t, q, curr, next, i, j);
  }

  /**
   * One step of Insert's walk from the record curr: an empty slot or a
   * label that leaves the key stops it (stop), a label that is the next
   * part of the key moves it into the record next, ending at key bit ni.
   */
  method WalkStep(m: Store, ghost st: Offsets, ghost K: nat, root: Id, prefix: Bytes, ghost t: Node,
                  ghost q: seq<bool>, curr: Id, i: nat)
    returns (next: Option<Id>, j: nat, ni: nat, stop: bool)
    requires WF(t, true) && IsBits(prefix) && NonMembershipSafe(t, prefix)
    requires WalkInv(m, st, K, t, root, prefix, q, curr, i) && i < |prefix|
    ensures stop ==> WalkStop(m, st, t, root, prefix, curr, next, ni, j)
    ensures !stop ==> next.Some? && i < ni && WalkInv(m, st, K, t, root, prefix, q + [Slot(prefix[i])], next.value, ni)
    ensures next == Slotted(m[curr], Slot(prefix[i]))
  {
    var b := Slot(prefix[i]);
    next := Slotted(m[curr], b);
    if next.None? {
      j, ni, stop := 0, i, true;
      StopEmpty(m, st, K, root, prefix, t, q, curr, i, j);
      return;
    }
    SlotFits(m, st, K, root, prefix, t, q, curr, i);
    var part := m[next.value].prefix;
    j := CommonRun(prefix, i, part);
    if j < |part| {
      StopInside(m, st, K, root, prefix, t, q, curr, i, next.value, j);
      ni, stop := i + j, true;
      return;
    }
    StepOn(m, st, K, root, prefix, t, q, curr, i, next.value);
    ni, stop := i + j, false;
  }

  /** ... an empty slot ends the walk at curr ... */
  lemma ProbeMissing(m: Store, st: Offsets, K: nat, t: Node, key: Bytes, q: seq<bool>, curr: Id, i: nat)
    requires Linked(m, st, K) && curr in m && i < |key| && Slotted(m[curr], Slot(key[i])).None?
    requires WalkAt(t, key, q, ViewOf(m, st, K, curr), i)
    ensures Walk(t, key) == NoChild(q, Slot(key[i])) && (q == [] ==> i == 0)
  {
    ViewChild(m, st, K, curr, Slot(key[i]));
    WalkAtNoChild(t, key, q, ViewOf(m, st, K, curr), i);
  }

  /** ... and a label that leaves the key ends it inside that label, where the key cut at the label's end leads to the record. */
  lemma ProbeDiverges(m: Store, st: Offsets, K: nat, t: Node, key: Bytes, q: seq<bool>, curr: Id, i: nat)
    requires Linked(m, st, K) && curr in m && WF(t, true) && i < |key|
    requires WalkAt(t, key, q, ViewOf(m, st, K, curr), i)
    requires var o := Slotted(m[curr], Slot(key[i]));
      o.Some? && o.value in m && i + |m[o.value].prefix| <= |key| && !MatchesAt(key, i, m[o.value].prefix)
    ensures var b := Slot(key[i]); var o := Slotted(m[curr], b).value; var pp := m[o].prefix;
      Walk(t, key) == Diverges(q + [b]) && WalkSafe(t, key[..i] + pp) && Walk(t, key[..i] + pp) == Reached(q + [b]) &&
      Sub(t, q + [b]) == Some(ViewOf(m, st, K, o))
  {
    var s := ViewOf(m, st, K, curr);
    var b := Slot(key[i]);
    ViewChild(m, st, K, curr, b);
    var c := Child(s, b).value;
    WalkAtFits(t, key, q, s, i, c);
    WalkAtDiverges(t, key, q, s, i, c);
    ConflictWalk(t, key, q, s, i, c);
  }

  /** The non-membership proof for a key that finds an empty child slot of the root. */
  lemma NoChildProof(c: Primitives, t: Node, key: Bytes, b: bool)
    requires WF(t, true) && NonMembershipSafe(t, key) && Walk(t, key) == NoChild([], b)
    ensures key != [] && NonMembershipProofOf(c, t, key) == Some(NonMembershipProof(None, [key[0]], [EntryOf(c, t, b)]))
  {
  }

  /** The non-membership proof for a key that leaves the label of the node x at q: x's stored hash, label and copath. */
  lemma DivergesProof(c: Primitives, h: Hashes, t: Node, key: Bytes, q: seq<bool>, x: Node)
    requires WF(t, true) && NonMembershipSafe(t, key) && ChildrenHashed(c, h, t)
    requires Walk(t, key) == Diverges(q) && Sub(t, q) == Some(x)
    ensures x.id in h && NonMembershipProofOf(c, t, key) == Some(NonMembershipProof(h[x.id], x.prefix, CopathOf(c, t, q)))
  {
    HashedSub(c, h, t, q);
  }

  /**
   * A step of getPath along a walk from root that reaches qe, at the record
   * curr ending at key byte i: the record in the slot of the next key byte
   * carries the next part of the key and is the next node of the walk; the
   * record in the other slot starts with the other bit.
   */
  lemma PathStep(m: Store, st: Offsets, K: nat, t: Node, key: Bytes, q: seq<bool>, curr: Id, i: nat, qe: seq<bool>)
    requires Linked(m, st, K) && curr in m && curr in st && End(m, st, curr) == i
    requires WF(t, true) && WalkAt(t, key, q, ViewOf(m, st, K, curr), i) && Sub(t, q) == Some(ViewOf(m, st, K, curr))
    requires i < |key| && Walk(t, key) == Reached(qe)
    ensures var b := Slot(key[i]); var o := Slotted(m[curr], b);
      o.Some? && o.value in m && o.value in st && m[o.value].prefix != [] && End(m, st, o.value) == i + |m[o.value].prefix| &&
      |m[o.value].prefix| <= |key| - i && key[i..i + |m[o.value].prefix|] == m[o.value].prefix &&
      WalkAt(t, key, q + [b], ViewOf(m, st, K, o.value), End(m, st, o.value)) &&
      Sub(t, q + [b]) == Some(ViewOf(m, st, K, o.value)) &&
      Spine(t, q + [b]) == Spine(t, q) + [o.value] &&
      (End(m, st, o.value) == |key| ==> q + [b] == qe)
    ensures var o := Slotted(m[curr], !Slot(key[i]));
      o.Some? ==> o.value in m && m[o.value].prefix != [] && Slot(m[o.value].prefix[0]) != Slot(key[i])
  {
    var b := Slot(key[i]);
    var s := ViewOf(m, st, K, curr);
    WalkAtStep(t, key, q, s, i, qe);
    LinkedAtOf(m, st, K, curr);
    ViewChild(m, st, K, curr, b);
    SpineSnoc(t, q, b);
  }

  /** getPath stops at the record the walk reaches, which it meets only at the end of the key. */
  lemma PathEnd(m: Store, st: Offsets, K: nat, root: Id, key: Bytes, q: seq<bool>, curr: Id, i: nat, qe: seq<bool>)
    requires Linked(m, st, K) && root in m && m[root].prefix == [] && curr in m && curr in st && End(m, st, curr) == i
    requires WalkAt(ViewOf(m, st, K, root), key, q, ViewOf(m, st, K, curr), i)
    requires Walk(ViewOf(m, st, K, root), key) == Reached(qe) && Sub(ViewOf(m, st, K, root), qe).value.id == curr
    ensures q == qe
  {
    var t := ViewOf(m, st, K, root);
    WalkReached(t, key);
    ViewPathEnd(m, st, K, root, qe);
    LinkedAtOf(m, st, K, root);
    WalkAtEnd(t, key, q, ViewOf(m, st, K, curr), i);
  }

  /** The last node of the path from the root is the node at its end. */
  lemma SpineEnd(n: Node, q: seq<bool>)
    requires Sub(n, q).Some?
    ensures ([n.id] + Spine(n, q))[|q|] == Sub(n, q).value.id
  {
    if q != [] {
      SpineAt(n, q, |q| - 1);
      assert q[..|q|] == q;
    }
  }

  /**
   * A step of buildCopathFromNodeFromRoot along the records path from the
   * root to the node at qe: the record at position k sits in the slot qe[k - 1]
   * of the one before it, the other slot holds another record, and the
   * copath one step further down gains, in front, the entry made of that
   * record's label and the stored hash of the other slot's record.
   */
  lemma CopathStep(c: Primitives, m: Store, st: Offsets, K: nat, root: Id, qe: seq<bool>, path: seq<Id>, k: nat)
    requires Linked(m, st, K) && root in m && ChildrenHashed(c, HashesOf(m), ViewOf(m, st, K, root))
    requires Sub(ViewOf(m, st, K, root), qe).Some? && path == [root] + Spine(ViewOf(m, st, K, root), qe)
    requires 1 <= k < |path|
    ensures Sub(ViewOf(m, st, K, root), qe[..k]).Some? && Sub(ViewOf(m, st, K, root), qe[..k - 1]).Some?
    ensures path[k - 1] in m && Slotted(m[path[k - 1]], qe[k - 1]) == Some(path[k])
    ensures var n := m[path[k - 1]]; var o := Slotted(n, !qe[k - 1]);
      o != Some(path[k]) && (o.Some? ==> o.value in m) &&
      CopathOf(c, ViewOf(m, st, K, root), qe[..k]) ==
        [CopathEntry(LabelEntry(n.prefix), if o.Some? then m[o.value].hash else None)] + CopathOf(c, ViewOf(m, st, K, root), qe[..k - 1])
  {
    var t := ViewOf(m, st, K, root);
    var b := qe[k - 1];
    var p := qe[..k - 1];
    assert p + [b] == qe[..k];
    SpineAt(t, qe, k - 1);
    if k > 1 {
      SpineAt(t, qe, k - 2);
      assert qe[..k - 2 + 1] == p;
    }
    assert path[k - 1] == Sub(t, p).value.id;
    StoredEntry(c, m, st, K, root, p, b);
    CopathSnoc(c, t, p, b);
  }
}
