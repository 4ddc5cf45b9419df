/**
 * The prefix tree of core/prefix_tree.go: a compressed binary trie over the
 * bit strings of hashed keys whose leaves hold value hashes, with a Merkle
 * hash in every node. Nodes live in an arena (module TrieArena) and the
 * class keeps a ghost TrieSpec tree that the arena is proved to hold.
 */
module PrefixTrees {
  import opened Wrappers
  import opened Bits
  import opened Crypto
  import opened Copath
  import opened TrieSpec
  import opened TrieWalk
  import opened TrieArena
  import opened TrieQuery
  import PrefixCopy

  /** One recorded PrefixAppend call (prefixAppend). */
  datatype PrefixAppendRec = PrefixAppendRec(prefix: Bytes, value: Bytes, pos: nat)

  /** The identity of the root record. */
  const RootId: Id := 0

  /** NewPrefixTree's root: no label and no children. */
  function EmptyTree(): Node
  {
    Inner(RootId, [], None, None)
  }

  /** The identity the leaf of append number i gets; a node created by a split takes the next one. */
  function LeafIdOf(i: nat): Id
  {
    1 + 2 * i
  }

  /** Every recorded append could be replayed in order without a panic. */
  predicate ReplayOK(appends: seq<PrefixAppendRec>)
    decreases |appends|, 0
  {
    appends == [] ||
    (ReplayOK(appends[..|appends| - 1]) &&
     IsBits(appends[|appends| - 1].prefix) &&
     CanInsert(Replay(appends[..|appends| - 1]), appends[|appends| - 1].prefix))
  }

  /** The tree the recorded appends build from an empty tree (what copy relies on). */
  function Replay(appends: seq<PrefixAppendRec>): (t: Node)
    requires ReplayOK(appends)
    ensures t.Inner? && t.id == RootId && t.prefix == []
    decreases |appends|, 1
  {
    if appends == [] then EmptyTree()
    else
      var a := appends[|appends| - 1];
      InsertBelow(Replay(appends[..|appends| - 1]), a.prefix, KeyHash(a.value, a.pos), LeafIdOf(|appends| - 1))
  }

  /** Replaying succeeds on every prefix of a replayable history. */
  lemma {:induction false} ReplayPrefix(appends: seq<PrefixAppendRec>, k: nat)
    requires ReplayOK(appends) && k <= |appends|
    ensures ReplayOK(appends[..k])
    decreases |appends|
  {
    if k < |appends| {
      assert appends[..k] == appends[..|appends| - 1][..k];
      ReplayPrefix(appends[..|appends| - 1], k);
    } else {
      assert appends[..k] == appends;
    }
  }

  /** The append after the first k can be replayed on their replay. */
  lemma {:induction false} ReplayNext(appends: seq<PrefixAppendRec>, k: nat)
    requires ReplayOK(appends) && k < |appends|
    ensures appends[..k + 1] == appends[..k] + [appends[k]]
    ensures ReplayOK(appends[..k]) && IsBits(appends[k].prefix) && CanInsert(Replay(appends[..k]), appends[k].prefix)
    decreases |appends|
  {
    assert appends[..k + 1] == appends[..k] + [appends[k]];
    var init := appends[..|appends| - 1];
    if k + 1 < |appends| {
      assert init[..k] == appends[..k] && init[k] == appends[k];
      ReplayNext(init, k);
    } else {
      assert init == appends[..k];
    }
  }

  /** One more append extends the replay by one insertion. */
  lemma ReplayAppend(appends: seq<PrefixAppendRec>, a: PrefixAppendRec)
    requires ReplayOK(appends) && IsBits(a.prefix) && CanInsert(Replay(appends), a.prefix)
    ensures ReplayOK(appends + [a])
    ensures Replay(appends + [a]) == InsertBelow(Replay(appends), a.prefix, KeyHash(a.value, a.pos), LeafIdOf(|appends|))
  {
    var b := appends + [a];
    assert b[..|b| - 1] == appends && b[|b| - 1] == a && |b| - 1 == |appends|;
    assert b != [];
    assert ReplayOK(b);
    assert Replay(b) == InsertBelow(Replay(b[..|b| - 1]), a.prefix, KeyHash(a.value, a.pos), LeafIdOf(|b| - 1));
  }

  /**
   * The arena holds the well-formed tree with distinct identities, all
   * below nextId; every stored hash below the root is up to date, and the
   * root's hash is up to date once hashed (nil before the first append).
   */
  ghost predicate Stored(c: Primitives, m: Arena, h: Hashes, nextId: Id, t: Node, hashed: bool)
  {
    Shape(m, t, None) && t.id == RootId && WF(t, true) && Distinct(t) &&
    h.Keys == m.Keys && (forall id | id in m :: id < nextId) &&
    ChildrenHashed(c, h, t) && RootId in h && h[RootId] == (if hashed then Some(HashOf(c, t)) else None)
  }

  /** The tree is the one the recorded appends build, and nextId follows the last of them. */
  ghost predicate Replayed(appends: seq<PrefixAppendRec>, nextId: Id, t: Node)
  {
    ReplayOK(appends) && t == Replay(appends) && nextId == LeafIdOf(|appends|)
  }

  /** PrefixAppend keeps the arena storing the tree. */
  lemma AppendStored(c: Primitives, m: Arena, h: Hashes, nextId: Id, t: Node, hashed: bool,
                     m': Arena, h': Hashes, t': Node, prefix: Bytes, kh: KeyHash)
    requires Stored(c, m, h, nextId, t, hashed) && IsBits(prefix) && CanInsert(t, prefix)
    requires t' == InsertBelow(t, prefix, kh, nextId) && Shape(m', t', None)
    requires h'.Keys == m'.Keys && m'.Keys <= m.Keys + {nextId, nextId + 1}
    requires ChildrenHashed(c, h', t') && h'[RootId] == Some(HashOf(c, t'))
    ensures Stored(c, m', h', nextId + 2, t', true)
  {
    ShapeIds(m, t, None);
    AppendToTree(t, prefix, kh, nextId);
  }

  /** PrefixAppend extends the record of appends by the insertion it made. */
  lemma AppendReplayed(appends: seq<PrefixAppendRec>, nextId: Id, t: Node, a: PrefixAppendRec)
    requires Replayed(appends, nextId, t) && IsBits(a.prefix) && CanInsert(t, a.prefix)
    ensures Replayed(appends + [a], nextId + 2, InsertBelow(t, a.prefix, KeyHash(a.value, a.pos), nextId))
  {
    ReplayAppend(appends, a);
  }

  /**
   * What PrefixAppend does to the tree: it stays well formed with distinct
   * identities, the key gains the value at the end of its list, and every
   * other key looks up as before.
   */
  lemma AppendToTree(t: Node, prefix: Bytes, kh: KeyHash, newId: Id)
    requires WF(t, true) && Distinct(t) && IsBits(prefix) && CanInsert(t, prefix)
    requires forall id :: id in Ids(t) ==> id < newId
    ensures WF(InsertBelow(t, prefix, kh, newId), true) && Distinct(InsertBelow(t, prefix, kh, newId))
  {
    InsertWF(t, prefix, kh, newId, true);
    InsertDistinct(t, prefix, kh, newId);
  }

  /** After PrefixAppend the key holds its old values and then the new one; no other key changes. */
  lemma AppendLookups(t: Node, prefix: Bytes, kh: KeyHash, newId: Id)
    requires WF(t, true) && IsBits(prefix) && CanInsert(t, prefix)
    ensures Lookup(InsertBelow(t, prefix, kh, newId), prefix) == Some(ValuesAt(t, prefix) + [kh])
    ensures forall x :: x != prefix ==> Lookup(InsertBelow(t, prefix, kh, newId), x) == Lookup(t, x)
  {
    InsertLookupSame(t, prefix, kh, newId, true);
    forall x | x != prefix
      ensures Lookup(InsertBelow(t, prefix, kh, newId), x) == Lookup(t, x)
    {
      InsertLookupOther(t, prefix, kh, newId, true, x);
    }
  }


  /** Where the walk of PrefixAppend stops. */
  datatype Stop =
    | MissingChild           // the node has no child in the key's slot
    | Mismatch(child: Id, j: nat)  // the child's label leaves the key after j bytes
    | AtLeaf                 // the key is used up, at a leaf

  /** newLeafNode: a leaf record under parent, linked into the parent's slot for its first byte. */
  function WithLeaf(m: Arena, parent: Id, id: Id, prefix: Bytes, kh: KeyHash): Arena
    requires parent in m && m[parent].AInner? && |prefix| > 0
  {
    m[id := ALeaf(Some(parent), prefix, [kh])][parent := SetArenaChild(m[parent], Slot(prefix[0]), id)]
  }

  /**
   * splitCompressedNode: a new internal record labelled label[..index] takes
   * x's slot under parent, and x keeps label[index..] as the new record's child.
   */
  function WithSplit(m: Arena, x: Id, parent: Id, index: nat, midId: Id): Arena
    requires x in m && parent in m && m[parent].AInner? && 0 < index < (|m[x].prefix|)
  {
    var lbl := m[x].prefix;
    var mid := SetArenaChild(AInner(Some(parent), lbl[..index], None, None), Slot(lbl[index]), x);
    m[midId := mid][parent := SetArenaChild(m[parent], Slot(lbl[0]), midId)]
     [x := m[x].(prefix := lbl[index..], parent := Some(midId))]
  }

  class PrefixTree {
    /** The node records, keyed by identity; the root is RootId. */
    var nodes: Arena
    /** The hash field of every node record. */
    var hashes: Hashes
    var isComplete: bool
    var appends: seq<PrefixAppendRec>
    /** The identity the next new leaf gets (allocation). */
    var nextId: Id
    /** The trie the arena holds. */
    ghost var tree: Node
    /** The hash functions the tree uses. */
    const crypto: Primitives

    /** The arena holds the well-formed tree, with distinct identities. */
    ghost predicate Linked()
      reads this
    {
      Shape(nodes, tree, None) && tree.id == RootId && WF(tree, true) && Distinct(tree)
    }

    /** Linked, and every stored hash below the root is up to date (what the proof builders read). */
    ghost predicate Hashed()
      reads this
    {
      Linked() && ChildrenHashed(crypto, hashes, tree)
    }

    /**
     * Linked, every stored hash below the root is up to date, the root's hash
     * is nil before the first append and up to date after it, and the tree is
     * the one the recorded appends build.
     */
    ghost predicate Valid()
      reads this
    {
      Stored(crypto, nodes, hashes, nextId, tree, appends != []) && Replayed(appends, nextId, tree)
    }

    /** NewPrefixTree: an empty root, not complete, no appends. */
    constructor (c: Primitives)
      ensures Valid() && fresh(this)
      ensures crypto == c && tree == EmptyTree() && appends == [] && !isComplete
      ensures hashes[RootId] == None
    {
      nodes := map[RootId := AInner(None, [], None, None)];
      hashes := map[RootId := None];
      isComplete := false;
      appends := [];
      nextId := LeafIdOf(0);
      tree := EmptyTree();
      crypto := c;
    }

    /** getHash: the root's hash, nil until the first append. */
    function GetHash(): (r: NBytes)
      reads this
      requires Valid()
      ensures r.None? <==> appends == []
      ensures r.Some? ==> r.value == HashOf(crypto, tree) && |r.value| == DigestLen
    {
      hashes[RootId]
    }

    /** complete: later appends fail. */
    method Complete()
      requires Valid()
      modifies this`isComplete
      ensures Valid() && isComplete
    {
      isComplete := true;
    }

    // -------------------------------------------------------------------
    // Node-level operations.

    /** newLeafNode: a new leaf under parent holding one value; its hash is nil. */
    method NewLeafNode(parent: Id, id: Id, prefix: Bytes, kh: KeyHash)
      requires parent in nodes && nodes[parent].AInner? && |prefix| > 0 && id !in nodes
      modifies this`nodes, this`hashes
      ensures nodes == WithLeaf(old(nodes), parent, id, prefix, kh)
      ensures hashes == old(hashes)[id := None]
      ensures ArenaChild(nodes[parent], Slot(prefix[0])) == Some(id)
    {
      nodes := nodes[id := ALeaf(Some(parent), prefix, [kh])];
      hashes := hashes[id := None];
      nodes := nodes[parent := SetArenaChild(nodes[parent], Slot(prefix[0]), id)];
    }

    /**
     * splitCompressedNode: nodeToSplit's label is cut at index; the new
     * record takes the first part and nodeToSplit the rest, below it.
     */
    method SplitCompressedNode(nodeToSplit: Id, parent: Id, index: nat, midId: Id) returns (mid: Id)
      requires nodeToSplit in nodes && parent in nodes && nodes[parent].AInner?
      requires nodeToSplit != parent && midId != nodeToSplit && midId != parent
      requires 0 < index < |nodes[nodeToSplit].prefix|
      modifies this`nodes, this`hashes
      ensures mid == midId
      ensures nodes == WithSplit(old(nodes), nodeToSplit, parent, index, midId)
      ensures hashes == old(hashes)[midId := None]
      ensures mid in nodes && nodes[mid].AInner? && nodes.Keys == old(nodes).Keys + {mid}
      ensures nodes[mid].prefix + nodes[nodeToSplit].prefix == old(nodes)[nodeToSplit].prefix
      ensures ArenaChild(nodes[mid], Slot(nodes[nodeToSplit].prefix[0])) == Some(nodeToSplit)
    {
      var lbl := nodes[nodeToSplit].prefix;
      var m := nodes;
      mid := midId;
      // newInteriorNode
      m := m[mid := AInner(Some(parent), lbl[..index], None, None)];
      hashes := hashes[mid := None];
      m := m[parent := SetArenaChild(m[parent], Slot(lbl[0]), mid)];
      // setPartialPrefix, then addChild
      m := m[nodeToSplit := m[nodeToSplit].(prefix := lbl[index..])];
      m := m[mid := SetArenaChild(m[mid], Slot(lbl[index]), nodeToSplit)];
      m := m[nodeToSplit := m[nodeToSplit].(parent := Some(mid))];
      assert lbl[..index] + lbl[index..] == lbl;
      ghost var w := WithSplit(nodes, nodeToSplit, parent, index, midId);
      assert m.Keys == w.Keys;
      assert m[midId] == w[midId] && m[parent] == w[parent] && m[nodeToSplit] == w[nodeToSplit];
      assert forall id | id in m && id != midId && id != parent && id != nodeToSplit :: m[id] == w[id];
      nodes := m;
    }

    /** updateHash: recomputes one node's hash from its label and values or its children's hashes. */
    method UpdateHash(id: Id)
      requires id in nodes
      modifies this`hashes
      ensures hashes == old(hashes)[id := ComputedHash(crypto, nodes, old(hashes), id)]
    {
      var n := nodes[id];
      if n.ALeaf? {
        hashes := hashes[id := Some(crypto.leafHash(n.prefix, n.values))];
      } else {
        var l := LinkHash(hashes, n.left);
        var r := LinkHash(hashes, n.right);
        hashes := hashes[id := Some(crypto.hash([n.prefix, l, r]))];
      }
    }

    /** addValue: appends a value to a leaf. */
    method AddValue(id: Id, kh: KeyHash)
      requires id in nodes && nodes[id].ALeaf?
      modifies this`nodes
      ensures nodes == old(nodes)[id := old(nodes)[id].(values := old(nodes)[id].values + [kh])]
    {
      nodes := nodes[id := nodes[id].(values := nodes[id].values + [kh])];
    }

    /**
     * updateHashesFromLeaf: recomputes the hashes from the leaf up to the
     * root. If only the path to the leaf was stale, every hash is then up to
     * date.
     */
    method UpdateHashesFromLeaf(leaf: Id, ghost t: Node, ghost p: seq<bool>)
      requires Shape(nodes, t, None) && t.id == RootId && Distinct(t) && Ids(t) <= hashes.Keys
      requires Sub(t, p).Some? && Sub(t, p).value.Leaf? && Sub(t, p).value.id == leaf
      requires HashedExcept(crypto, hashes, t, p)
      modifies this`hashes
      ensures hashes.Keys == old(hashes).Keys
      ensures ChildrenHashed(crypto, hashes, t) && hashes[RootId] == Some(HashOf(crypto, t))
    {
      var curr := leaf;
      ghost var q := p;
      while curr != RootId
        invariant Sub(t, q).Some? && curr == Sub(t, q).value.id
        invariant HashedExcept(crypto, hashes, t, q)
        invariant hashes.Keys == old(hashes).Keys
        decreases |q|
      {
        ExceptChildren(crypto, hashes, t, q);
        ShapeSub(nodes, t, q, None);
        ComputedHashOK(crypto, nodes, hashes, Sub(t, q).value, ParentAt(t, q, None));
        ClimbStep(crypto, hashes, t, q);
        ParentAtLast(t, q, None);
        IdsSub(t, q);
        UpdateHash(curr);
        curr := nodes[curr].parent.value;
        q := q[..|q| - 1];
      }
      IdsSub(t, q);
      ExceptChildren(crypto, hashes, t, q);
      ComputedHashOK(crypto, nodes, hashes, t, None);
      RootRehashed(crypto, hashes, t, ComputedHash(crypto, nodes, hashes, RootId));
      UpdateHash(RootId);
    }

    // -------------------------------------------------------------------
    // PrefixAppend.

    /**
     * The walk of PrefixAppend: from the root, step to the child the next key
     * byte selects and match its label byte by byte. It stops at a missing
     * child, at the first byte where a child's label leaves the key, or when
     * the key is used up. Appending below the node it stops at is appending
     * to the tree.
     */
    method FindAppendPoint(prefix: Bytes)
      returns (node: Id, i: nat, stop: Stop, ghost q: seq<bool>, ghost s: Node, ghost c: Node)
      requires Linked() && CanInsert(tree, prefix)
      ensures Sub(tree, q) == Some(s) && node == s.id && i <= |prefix|
      ensures CanInsertAt(s, prefix[i..]) && PathLabel(tree, q) == prefix[..i]
      ensures stop.AtLeaf? <==> i == |prefix|
      ensures stop.MissingChild? ==> i < |prefix| && Child(s, Slot(prefix[i])).None?
      ensures stop.Mismatch? ==>
        i < |prefix| && Child(s, Slot(prefix[i])) == Some(c) && stop.child == c.id &&
        stop.j == CommonPrefixLen(c.prefix, prefix[i..]) && stop.j < |c.prefix|
    {
      node, i, q, s, c := RootId, 0, [], tree, tree;
      ghost var par: Option<Id> := None;
      while i < |prefix|
        invariant i <= |prefix| && Sub(tree, q) == Some(s) && node == s.id && Shape(nodes, s, par)
        invariant CanInsertAt(s, prefix[i..]) && PathLabel(tree, q) == prefix[..i]
        decreases |prefix| - i
      {
        WFSub(tree, q, true);
        var next, j, cc := ChildMatch(node, prefix, i, s, par, q == []);
        if next.None? {
          return node, i, MissingChild, q, s, s;
        }
        if j < |nodes[next.value].prefix| {
          return node, i, Mismatch(next.value, j), q, s, cc;
        }
        var i0 := i;
        i := i + j;
        DescendStep(tree, q, s, cc, prefix, i0, i);
        q, s, par, node := q + [Slot(prefix[i0])], cc, Some(node), next.value;
      }
      stop := AtLeaf;
    }

    /**
     * One round of PrefixAppend's walk at the node s: the child in the slot
     * of the key's next byte, and how far its label agrees with the key.
     */
    method ChildMatch(node: Id, prefix: Bytes, i: nat, ghost s: Node, ghost par: Option<Id>, ghost isRoot: bool)
      returns (next: Option<Id>, j: nat, ghost c: Node)
      requires Shape(nodes, s, par) && WF(s, isRoot) && node == s.id
      requires i < |prefix| && CanInsertAt(s, prefix[i..])
      ensures next == IdOf(Child(s, Slot(prefix[i])))
      ensures next.Some? ==>
        Child(s, Slot(prefix[i])) == Some(c) && Shape(nodes, c, Some(node)) &&
        c.prefix == nodes[c.id].prefix && |c.prefix| > 0 &&
        j == CommonPrefixLen(c.prefix, prefix[i..]) &&
        (j == |c.prefix| ==> HasPrefix(prefix[i..], c.prefix))
    {
      c, j := s, 0;
      var b := Slot(prefix[i]);
      ShapeChild(nodes, s, par, b);
      next := ArenaChild(nodes[node], b);
      if next.Some? {
        c := Child(s, b).value;
        MatchBound(s, prefix[i..]);
        j := MatchLabel(prefix, i, nodes[next.value].prefix);
      }
    }

    /** PrefixAppend at a missing child: newLeafNode puts the rest of the key in the empty slot. */
    method AppendMissing(node: Id, k: Bytes, kh: KeyHash, l: Id, ghost s: Node, ghost par: Option<Id>)
      returns (leaf: Id, ghost r: seq<bool>)
      requires Shape(nodes, s, par) && s.Inner? && Distinct(s) && ChildrenHashed(crypto, hashes, s) && node == s.id
      requires CanInsert(s, k) && Child(s, Slot(k[0])).None? && l !in nodes && hashes.Keys == nodes.Keys
      modifies this`nodes, this`hashes
      ensures Installed(crypto, old(nodes), old(hashes), nodes, hashes, s, par, InsertAt(s, k, kh, l), r, leaf, {l})
    {
      ghost var m, h := nodes, hashes;
      NewLeafNode(node, l, k, kh);
      NewLeafCase(crypto, m, h, nodes, hashes, s, par, l, k, kh);
      leaf, r := l, [Slot(k[0])];
    }

    /**
     * The arena steps of PrefixAppend where a child's label leaves the key
     * after j bytes: splitCompressedNode, updateHash on the lowered child,
     * then newLeafNode under the new intermediate record l + 1.
     */
    method SplitAndAttach(node: Id, child: Id, j: nat, k: Bytes, kh: KeyHash, l: Id)
      requires child in nodes && node in nodes && nodes[node].AInner? && child != node
      requires 0 < j < |nodes[child].prefix| && j < |k| && l !in nodes && l + 1 !in nodes
      modifies this`nodes, this`hashes
      ensures nodes == WithLeaf(WithSplit(old(nodes), child, node, j, l + 1), l + 1, l, k[j..], kh)
      ensures hashes ==
        old(hashes)[l + 1 := None]
          [child := ComputedHash(crypto, WithSplit(old(nodes), child, node, j, l + 1), old(hashes)[l + 1 := None], child)]
          [l := None]
    {
      var mid := SplitCompressedNode(child, node, j, l + 1);
      UpdateHash(child);
      NewLeafNode(mid, l, k[j..], kh);
    }

    /** PrefixAppend where the child's label leaves the key after j bytes: the split, with the new leaf beside the child. */
    method AppendSplit(node: Id, child: Id, j: nat, k: Bytes, kh: KeyHash, l: Id,
                       ghost s: Node, ghost par: Option<Id>, ghost isRoot: bool, ghost ch: Node)
      returns (leaf: Id, ghost r: seq<bool>)
      requires Shape(nodes, s, par) && WF(s, isRoot) && Distinct(s) && ChildrenHashed(crypto, hashes, s) && node == s.id
      requires CanInsert(s, k) && IsBits(k) && Child(s, Slot(k[0])) == Some(ch) && child == ch.id
      requires j == CommonPrefixLen(ch.prefix, k) && j < |ch.prefix|
      requires l !in nodes && l + 1 !in nodes && hashes.Keys == nodes.Keys
      modifies this`nodes, this`hashes
      ensures Installed(crypto, old(nodes), old(hashes), nodes, hashes, s, par, InsertAt(s, k, kh, l), r, leaf, {l, l + 1})
    {
      ghost var m, h := nodes, hashes;
      assert 0 < j < |k| && child in nodes && node in nodes && nodes[node].AInner? && child != node && j < |nodes[child].prefix| by {
        SplitSlots(crypto, m, h, s, par, isRoot, ch, j, k);
      }
      SplitAndAttach(node, child, j, k, kh, l);
      SplitInstalled(crypto, m, h, nodes, hashes, s, par, isRoot, ch, j, k, kh, l);
      leaf, r := l, [Slot(k[0]), Slot(k[j])];
    }

    /** PrefixAppend where the key ends at a leaf: addValue. */
    method AppendToLeaf(node: Id, kh: KeyHash, ghost l: Id, ghost s: Node, ghost par: Option<Id>)
      returns (leaf: Id, ghost r: seq<bool>)
      requires Shape(nodes, s, par) && s.Leaf? && node == s.id && hashes.Keys == nodes.Keys
      modifies this`nodes
      ensures Installed(crypto, old(nodes), hashes, nodes, hashes, s, par, InsertAt(s, [], kh, l), r, leaf, {})
    {
      ghost var m := nodes;
      AddValue(node, kh);
      AddValueCase(crypto, m, hashes, nodes, s, par, kh, l);
      leaf, r := node, [];
    }

    /**
     * PrefixAppend: records the append, adds the value under the key (as a
     * new leaf under a missing child, as a new leaf beside a split node, or
     * on the leaf the key ends at) and rehashes from that leaf up. A
     * completed tree refuses with an error and does not change.
     */
    method PrefixAppend(prefix: Bytes, valueHash: Bytes, pos: nat) returns (err: Option<string>)
      requires Valid()
      requires !isComplete ==> IsBits(prefix) && CanInsert(tree, prefix)
      modifies this
      ensures Valid() && isComplete == old(isComplete)
      ensures old(isComplete) ==>
        err == Some("cannot append to completed prefix tree") && tree == old(tree) &&
        appends == old(appends) && nodes == old(nodes) && hashes == old(hashes)
      ensures !old(isComplete) ==>
        err.None? && appends == old(appends) + [PrefixAppendRec(prefix, valueHash, pos)] &&
        tree == InsertBelow(old(tree), prefix, KeyHash(valueHash, pos), old(nextId))
      ensures !old(isComplete) ==>
        Lookup(tree, prefix) == Some(ValuesAt(old(tree), prefix) + [KeyHash(valueHash, pos)])
      ensures !old(isComplete) ==> forall x :: x != prefix ==> Lookup(tree, x) == Lookup(old(tree), x)
      ensures !old(isComplete) ==> hashes[RootId] == Some(HashOf(crypto, tree))
    {
      if isComplete {
        err := Some("cannot append to completed prefix tree");
        return;
      }
      err := None;
      AppendLookups(tree, prefix, KeyHash(valueHash, pos), nextId);
      AppendRecord(prefix, valueHash, pos);
    }

    /** PrefixAppend on a tree that is not complete: records the append and inserts the value. */
    method AppendRecord(prefix: Bytes, valueHash: Bytes, pos: nat)
      requires Valid() && IsBits(prefix) && CanInsert(tree, prefix)
      modifies this`nodes, this`hashes, this`tree, this`appends, this`nextId
      ensures Valid()
      ensures appends == old(appends) + [PrefixAppendRec(prefix, valueHash, pos)]
      ensures tree == InsertBelow(old(tree), prefix, KeyHash(valueHash, pos), old(nextId))
      ensures hashes[RootId] == Some(HashOf(crypto, tree))
    {
      ghost var t := tree;
      var kh := KeyHash(valueHash, pos);
      AppendReplayed(appends, nextId, t, PrefixAppendRec(prefix, valueHash, pos));
      InsertStored(prefix, kh, nextId, appends != []);
      appends := appends + [PrefixAppendRec(prefix, valueHash, pos)];
      nextId := nextId + 2;
    }

    /** InsertKey keeps the arena storing the tree, with leafId and leafId + 1 used up. */
    method InsertStored(prefix: Bytes, kh: KeyHash, leafId: Id, ghost hashed: bool)
      requires Stored(crypto, nodes, hashes, leafId, tree, hashed) && IsBits(prefix) && CanInsert(tree, prefix)
      modifies this`nodes, this`hashes, this`tree
      ensures tree == InsertBelow(old(tree), prefix, kh, leafId)
      ensures Stored(crypto, nodes, hashes, leafId + 2, tree, true)
    {
      ghost var t, m, h := tree, nodes, hashes;
      InsertKey(prefix, kh, leafId);
      AppendStored(crypto, m, h, leafId, t, hashed, nodes, hashes, tree, prefix, kh);
    }

    /**
     * The arena work of PrefixAppend: walk to the append point, apply the
     * case found there, and rehash from the receiving leaf to the root. New
     * leaves take identity leafId, a split's intermediate record leafId + 1.
     */
    method InsertKey(prefix: Bytes, kh: KeyHash, leafId: Id)
      requires Linked() && IsBits(prefix) && CanInsert(tree, prefix)
      requires hashes.Keys == nodes.Keys && ChildrenHashed(crypto, hashes, tree)
      requires forall id | id in nodes :: id < leafId
      modifies this`nodes, this`hashes, this`tree
      ensures tree == InsertBelow(old(tree), prefix, kh, leafId)
      ensures Shape(nodes, tree, None) && hashes.Keys == nodes.Keys && nodes.Keys <= old(nodes).Keys + {leafId, leafId + 1}
      ensures ChildrenHashed(crypto, hashes, tree) && hashes[RootId] == Some(HashOf(crypto, tree))
    {
      ghost var t := tree;
      var node, i, stop, q, s, ch, par := LocateAppendPoint(prefix, kh, leafId);
      ghost var m0, h0 := nodes, hashes;
      var leaf, r := ApplyCase(node, i, stop, prefix, kh, leafId, s, ch, par, q == []);
      Commit(leaf, m0, h0, prefix, kh, leafId, q, s, par, i, r);
    }

    /** The end of PrefixAppend: the tree takes the new subtree, and the path to the leaf is rehashed. */
    method Commit(leaf: Id, ghost m0: Arena, ghost h0: Hashes, ghost prefix: Bytes, ghost kh: KeyHash, ghost leafId: Id,
                  ghost q: seq<bool>, ghost s: Node, ghost par: Option<Id>, ghost i: nat, ghost r: seq<bool>)
      requires AppendPoint(crypto, m0, h0, tree, prefix, kh, leafId, q, s, par, i)
      requires Installed(crypto, m0, h0, nodes, hashes, s, par, InsertAt(s, prefix[i..], kh, leafId), r, leaf, {leafId, leafId + 1})
      modifies this`hashes, this`tree
      ensures tree == InsertBelow(old(tree), prefix, kh, leafId)
      ensures Shape(nodes, tree, None) && hashes.Keys == nodes.Keys && nodes.Keys <= m0.Keys + {leafId, leafId + 1}
      ensures ChildrenHashed(crypto, hashes, tree) && hashes[RootId] == Some(HashOf(crypto, tree))
    {
      ghost var x := InsertAt(s, prefix[i..], kh, leafId);
      PlugInstalled(crypto, m0, h0, nodes, hashes, tree, q, s, par, x, r, leaf, {leafId, leafId + 1});
      tree := Plug(tree, q, x);
      UpdateHashesFromLeaf(leaf, tree, q + r);
    }

    /** The three cases of PrefixAppend, chosen by where the walk stopped. */
    method ApplyCase(node: Id, i: nat, stop: Stop, prefix: Bytes, kh: KeyHash, leafId: Id,
                     ghost s: Node, ghost ch: Node, ghost par: Option<Id>, ghost isRoot: bool)
      returns (leaf: Id, ghost r: seq<bool>)
      requires node == s.id && i <= |prefix| && hashes.Keys == nodes.Keys && leafId !in nodes && leafId + 1 !in nodes
      requires Shape(nodes, s, par) && WF(s, isRoot) && Distinct(s) && ChildrenHashed(crypto, hashes, s)
      requires stop.AtLeaf? ==> s.Leaf? && i == |prefix|
      requires stop.MissingChild? ==> s.Inner? && CanInsert(s, prefix[i..]) && Child(s, Slot(prefix[i])).None?
      requires stop.Mismatch? ==>
        s.Inner? && CanInsert(s, prefix[i..]) && IsBits(prefix[i..]) && Child(s, Slot(prefix[i])) == Some(ch) &&
        stop.child == ch.id && stop.j == CommonPrefixLen(ch.prefix, prefix[i..]) && stop.j < |ch.prefix|
      modifies this`nodes, this`hashes
      ensures Installed(crypto, old(nodes), old(hashes), nodes, hashes, s, par, InsertAt(s, prefix[i..], kh, leafId), r, leaf,
                        {leafId, leafId + 1})
    {
      match stop {
        case MissingChild =>
          leaf, r := AppendMissing(node, prefix[i..], kh, leafId, s, par);
        case Mismatch(child, j) =>
          leaf, r := AppendSplit(node, child, j, prefix[i..], kh, leafId, s, par, isRoot, ch);
        case AtLeaf =>
          assert prefix[i..] == [];
          leaf, r := AppendToLeaf(node, kh, leafId, s, par);
      }
    }

    /**
     * The walk of PrefixAppend with what the three cases need: the node s it
     * stops at, its arena record, its parent, and that appending to the
     * tree is appending below s.
     */
    method LocateAppendPoint(prefix: Bytes, ghost kh: KeyHash, ghost leafId: Id)
      returns (node: Id, i: nat, stop: Stop, ghost q: seq<bool>, ghost s: Node, ghost ch: Node, ghost par: Option<Id>)
      requires Linked() && IsBits(prefix) && CanInsert(tree, prefix)
      requires hashes.Keys == nodes.Keys && ChildrenHashed(crypto, hashes, tree)
      requires forall id | id in nodes :: id < leafId
      ensures AppendPoint(crypto, nodes, hashes, tree, prefix, kh, leafId, q, s, par, i)
      ensures node == s.id && i <= |prefix| && leafId !in nodes && leafId + 1 !in nodes
      ensures Shape(nodes, s, par) && WF(s, q == []) && Distinct(s) && ChildrenHashed(crypto, hashes, s)
      ensures stop.AtLeaf? ==> s.Leaf? && i == |prefix|
      ensures stop.MissingChild? ==> s.Inner? && CanInsert(s, prefix[i..]) && Child(s, Slot(prefix[i])).None?
      ensures stop.Mismatch? ==>
        s.Inner? && CanInsert(s, prefix[i..]) && IsBits(prefix[i..]) && Child(s, Slot(prefix[i])) == Some(ch) && stop.child == ch.id &&
        stop.j == CommonPrefixLen(ch.prefix, prefix[i..]) && stop.j < |ch.prefix|
    {
      node, i, stop, q, s, ch := FindAppendPoint(prefix);
      par := ParentAt(tree, q, None);
      AppendPointArena(crypto, nodes, hashes, tree, q, s, leafId);
      AppendPointTree(tree, prefix, kh, leafId, q, i, s);
      if stop.AtLeaf? {
        assert prefix[i..] == [];
      }
    }

    // -------------------------------------------------------------------
    // Queries and proofs.

    /**
     * getLeaf: from the root, step to the child the next key byte selects
     * and consume its whole label; the node where the key is used up, or
     * none at a missing child or at a label that is not the next part of
     * the key.
     */
    method GetLeaf(prefix: Bytes) returns (r: Option<Id>)
      requires Linked() && WalkSafe(tree, prefix)
      ensures r.Some? <==> Walk(tree, prefix).Reached?
      ensures r.Some? ==> r.value == Sub(tree, Walk(tree, prefix).path).value.id
    {
      var curr, i := RootId, 0;
      ghost var q, s, par := [], tree, None;
      WalkAtRoot(tree, prefix);
      while i < |prefix|
        invariant WalkAt(tree, prefix, q, s, i) && i <= |prefix| && curr == s.id && Shape(nodes, s, par)
        decreases |prefix| - i
      {
        ShapeChild(nodes, s, par, Slot(prefix[i]));
        var next := ArenaChild(nodes[curr], Slot(prefix[i]));
        if next.None? {
          WalkAtNoChild(tree, prefix, q, s, i);
          return None;
        }
        ghost var c, q' := Child(s, Slot(prefix[i])).value, q + [Slot(prefix[i])];
        var pp := nodes[next.value].prefix;
        WalkAtFits(tree, prefix, q, s, i, c);
        if !MatchesAt(prefix, i, pp) {
          WalkAtDiverges(tree, prefix, q, s, i, c);
          return None;
        }
        WalkAtDescend(tree, prefix, q, s, i, c, q', i + |pp|);
        q, s, par := q', c, Some(curr);
        curr, i := next.value, i + |pp|;
      }
      WalkAtEnd(tree, prefix, q, s, i);
      r := Some(curr);
    }

    /**
     * buildCopathFromNode: climb from the starting node, given by its parent
     * link and partial prefix, to the root, recording for every ancestor its label
     * and the hash of its child off the path.
     */
    method BuildCopathFromNode(parent: Option<Id>, partialPrefix: Bytes, ghost q: seq<bool>) returns (copath: seq<CopathEntry>)
      requires Hashed() && ClimbAt(tree, q, q, parent, partialPrefix)
      ensures copath == CopathAbove(crypto, tree, q)
    {
      copath := [];
      var par, lbl := parent, partialPrefix;
      ghost var r := q;
      while par.Some?
        invariant ClimbAt(tree, q, r, par, lbl)
        invariant copath + CopathAbove(crypto, tree, r) == CopathAbove(crypto, tree, q)
        decreases |r|
      {
        ClimbEntry(crypto, nodes, hashes, tree, q, r, par, lbl);
        var a := nodes[par.value];
        var sib := ArenaChild(a, !Slot(lbl[0]));
        var siblingHash: NBytes := None;
        if sib.Some? {
          siblingHash := hashes[sib.value];
        }
        var e := CopathEntry(PartialPrefix(a), siblingHash);
        assert copath + [e] + CopathAbove(crypto, tree, r[..|r| - 1]) == copath + ([e] + CopathAbove(crypto, tree, r[..|r| - 1]));
        copath := copath + [e];
        par, lbl := a.parent, a.prefix;
        r := r[..|r| - 1];
      }
    }

    /**
     * generateMembershipProof: for a key whose walk is used up, the leaf's
     * label and copath, and its values; none otherwise.
     */
    method GenerateMembershipProof(prefix: Bytes) returns (r: Option<(MembershipProof, seq<KeyHash>)>)
      requires Hashed() && MembershipSafe(tree, prefix)
      ensures r == MembershipProofOf(crypto, tree, prefix)
    {
      var leaf := GetLeaf(prefix);
      if leaf.None? {
        return None;
      }
      ghost var p := Walk(tree, prefix).path;
      ShapeSub(nodes, tree, p, None);
      ParentAtLast(tree, p, None);
      SlotOfSub(tree, p, true);
      CopathAboveOf(crypto, tree, p);
      assert p[..|p|] == p;
      var copath := BuildCopathFromNode(nodes[leaf.value].parent, nodes[leaf.value].prefix, p);
      r := Some((MembershipProof(nodes[leaf.value].prefix, copath), nodes[leaf.value].values));
    }

    /**
     * generateNonMembershipProof: the walk of getLeaf; at an empty slot of
     * the root, a nil end hash under the key's next byte; at a label that
     * leaves the key, that node's hash and label; none when the key is used
     * up. Each comes with the copath of the node it names.
     */
    method GenerateNonMembershipProof(prefix: Bytes) returns (r: Option<NonMembershipProof>)
      requires Hashed() && NonMembershipSafe(tree, prefix)
      ensures r == NonMembershipProofOf(crypto, tree, prefix)
    {
      var curr, i := RootId, 0;
      ghost var q, s, par := [], tree, None;
      WalkAtRoot(tree, prefix);
      while i < |prefix|
        invariant WalkAt(tree, prefix, q, s, i) && i <= |prefix| && curr == s.id && Shape(nodes, s, par)
        decreases |prefix| - i
      {
        ShapeChild(nodes, s, par, Slot(prefix[i]));
        var next := ArenaChild(nodes[curr], Slot(prefix[i]));
        if next.None? {
          EmptySlotProof(crypto, tree, prefix, q, s, i);
          var copath := BuildCopathFromNode(Some(RootId), [prefix[i]], [Slot(prefix[i])]);
          return Some(NonMembershipProof(None, [prefix[i]], copath));
        }
        ghost var c, q' := Child(s, Slot(prefix[i])).value, q + [Slot(prefix[i])];
        var pp := nodes[next.value].prefix;
        WalkAtFits(tree, prefix, q, s, i, c);
        if !MatchesAt(prefix, i, pp) {
          DivergingProof(crypto, nodes, hashes, tree, prefix, q, s, i, c, q');
          var copath := BuildCopathFromNode(Some(curr), pp, q');
          return Some(NonMembershipProof(hashes[next.value], pp, copath));
        }
        WalkAtDescend(tree, prefix, q, s, i, c, q', i + |pp|);
        q, s, par := q', c, Some(curr);
        curr, i := next.value, i + |pp|;
      }
      WalkAtEnd(tree, prefix, q, s, i);
      r := None;
    }

    /** HasValue: the key's leaf is found and one of its values has the given hash. */
    method HasValue(prefix: Bytes, value: Bytes) returns (r: bool)
      requires Linked() && WalkSafe(tree, prefix)
      ensures r <==> Lookup(tree, prefix).Some? && exists kh :: kh in Lookup(tree, prefix).value && kh.hash == value
    {
      var leaf := GetLeaf(prefix);
      WalkLookup(tree, prefix);
      assert tree.prefix + prefix == prefix;
      if leaf.None? {
        return false;
      }
      ShapeSub(nodes, tree, Walk(tree, prefix).path, None);
      var vals := if nodes[leaf.value].ALeaf? then nodes[leaf.value].values else [];
      var j := 0;
      while j < |vals|
        invariant j <= |vals|
        invariant forall k :: 0 <= k < j ==> vals[k].hash != value
      {
        if vals[j].hash == value {
          return true;
        }
        j := j + 1;
      }
      return false;
    }

    /**
     * copy: a new tree built by replaying the recorded appends in order. It
     * has the same tree, appends and root hash, and is not complete.
     */
    method Copy() returns (r: Result<PrefixTree>)
      requires Valid()
      ensures r.Ok? && fresh(r.value) && r.value.Valid() && r.value.crypto == crypto
      ensures r.value.tree == tree && r.value.appends == appends && r.value.GetHash() == GetHash()
      ensures !r.value.isComplete
    {
      var ret := new PrefixTree(crypto);
      var k := 0;
      while k < |appends|
        invariant k <= |appends| && fresh(ret) && ret.Valid() && ret.crypto == crypto
        invariant !ret.isComplete && ret.appends == appends[..k]
      {
        var a := appends[k];
        ReplayNext(appends, k);
        var err := ret.PrefixAppend(a.prefix, a.value, a.pos);
        // The error return after each replayed append is never taken: every
        // recorded append was accepted once, on the same tree.
        assert err.None?;
        k := k + 1;
      }
      assert appends[..k] == appends;
      r := Ok(ret);
    }

    /**
     * copyFast: a new tree whose nodes are fresh copies of this tree's,
     * made by the iterative copy under a new root with the root's label and
     * hash; the appends and isComplete are copied. The new tree stores a
     * node-for-node copy of this one, so it answers every lookup the same
     * way, has the same root hash, and keeps its hashes up to date below
     * the root; the error it returns is always nil.
     */
    method CopyFast() returns (r: Result<PrefixTree>)
      requires Valid()
      ensures r.Ok? && fresh(r.value) && r.value.crypto == crypto
      ensures r.value.isComplete == isComplete && r.value.appends == appends
      ensures PrefixCopy.Copied(tree, hashes, r.value.tree, r.value.hashes)
      ensures r.value.Hashed() && r.value.hashes[RootId] == hashes[RootId]
      ensures forall key :: Lookup(r.value.tree, key) == Lookup(tree, key)
      ensures HashOf(crypto, r.value.tree) == HashOf(crypto, tree)
    {
      ShapeIds(nodes, tree, None);
      var dst, dstH, next, t' := PrefixCopy.CopyTree(nodes, hashes, tree, RootId);
      PrefixCopy.CopiedSame(crypto, tree, hashes, t', dstH);
      PrefixCopy.CopiedChildrenHashed(crypto, tree, hashes, t', dstH);
      var ret := new PrefixTree(crypto);
      ret.nodes, ret.hashes, ret.nextId, ret.tree := dst, dstH, next, t';
      ret.isComplete, ret.appends := isComplete, appends;
      r := Ok(ret);
    }
  }

  /** generateNonMembershipProof at an empty slot: it is one of the root's, and the proof stands in for it. */
  lemma EmptySlotProof(c: Primitives, t: Node, key: Bytes, q: seq<bool>, s: Node, i: nat)
    requires WF(t, true) && NonMembershipSafe(t, key) && t.id == RootId
    requires WalkAt(t, key, q, s, i) && i < |key| && Child(s, Slot(key[i])).None?
    ensures s == t && ClimbAt(t, [Slot(key[i])], [Slot(key[i])], Some(RootId), [key[i]])
    ensures NonMembershipProofOf(c, t, key) ==
      Some(NonMembershipProof(None, [key[i]], CopathAbove(c, t, [Slot(key[i])])))
  {
    WalkAtNoChild(t, key, q, s, i);
    assert q == [];
    assert i == 0 && s == t;
    var b := Slot(key[i]);
    assert [b][..0] == [] && [b][..1] == [b];
    assert CopathAbove(c, t, [b]) == [EntryOf(c, t, b)];
  }

  /** generateNonMembershipProof at a label that leaves the key: the proof names that node. */
  lemma DivergingProof(c: Primitives, m: Arena, h: Hashes, t: Node, key: Bytes, q: seq<bool>, s: Node, i: nat, d: Node,
                        p: seq<bool>)
    requires WF(t, true) && NonMembershipSafe(t, key) && Shape(m, t, None) && ChildrenHashed(c, h, t)
    requires WalkAt(t, key, q, s, i) && i < |key| && Child(s, Slot(key[i])) == Some(d) && p == q + [Slot(key[i])]
    requires 0 < |d.prefix| && i + |d.prefix| <= |key| && !MatchesAt(key, i, d.prefix)
    ensures ClimbAt(t, p, p, Some(s.id), d.prefix) && d.id in h
    ensures NonMembershipProofOf(c, t, key) == Some(NonMembershipProof(h[d.id], d.prefix, CopathAbove(c, t, p)))
  {
    WalkAtFits(t, key, q, s, i, d);
    WalkAtDiverges(t, key, q, s, i, d);
    HashedSub(c, h, t, p);
    SlotOfSub(t, p, true);
    CopathAboveOf(c, t, p);
    assert p[..|p| - 1] == q && p[..|p|] == p;
  }

  /**
   * Where PrefixAppend's walk stops: the node s at path q, with its parent
   * par; every hash off the path is up to date, and appending to the tree
   * is appending below s.
   */
  ghost predicate AppendPoint(c: Primitives, m: Arena, h: Hashes, t: Node, prefix: Bytes, kh: KeyHash, leafId: Id,
                              q: seq<bool>, s: Node, par: Option<Id>, i: nat)
  {
    Shape(m, t, None) && t.id == RootId && Distinct(t) && CanInsert(t, prefix) &&
    Sub(t, q) == Some(s) && par == ParentAt(t, q, None) && i <= |prefix| &&
    HashedExcept(c, h, t, q) && CanInsertAt(s, prefix[i..]) &&
    Distinct(InsertBelow(t, prefix, kh, leafId)) &&
    InsertBelow(t, prefix, kh, leafId) == Plug(t, q, InsertAt(s, prefix[i..], kh, leafId))
  }

  /** The arena facts at the node PrefixAppend's walk stops at. */
  lemma AppendPointArena(c: Primitives, m: Arena, h: Hashes, t: Node, q: seq<bool>, s: Node, leafId: Id)
    requires Shape(m, t, None) && ChildrenHashed(c, h, t) && Sub(t, q) == Some(s)
    requires forall id | id in m :: id < leafId
    ensures Shape(m, s, ParentAt(t, q, None)) && ChildrenHashed(c, h, s) && HashedExcept(c, h, t, q)
    ensures leafId !in m && leafId + 1 !in m && forall id | id in Ids(t) :: id < leafId
  {
    ShapeIds(m, t, None);
    ShapeSub(m, t, q, None);
    ExceptExtend(c, h, t, q);
    ExceptChildren(c, h, t, q);
  }

  /** The trie facts at the node PrefixAppend's walk stops at: appending there is appending to the tree. */
  lemma AppendPointTree(t: Node, prefix: Bytes, kh: KeyHash, leafId: Id, q: seq<bool>, i: nat, s: Node)
    requires WF(t, true) && Distinct(t) && IsBits(prefix) && CanInsert(t, prefix)
    requires forall id | id in Ids(t) :: id < leafId
    requires Sub(t, q) == Some(s) && i <= |prefix| && PathLabel(t, q) == prefix[..i] && CanInsertAt(s, prefix[i..])
    ensures WF(s, q == []) && Distinct(s) && IsBits(prefix[i..])
    ensures Distinct(InsertBelow(t, prefix, kh, leafId))
    ensures InsertBelow(t, prefix, kh, leafId) == Plug(t, q, InsertAt(s, prefix[i..], kh, leafId))
  {
    InsertDistinct(t, prefix, kh, leafId);
    InsertAlong(t, prefix, q, i, kh, leafId, true);
    IdsSub(t, q);
    WFSub(t, q, true);
    IsBitsSuffix(prefix, i);
  }

  /**
   * Putting the subtree a case built back into the whole tree: the arena
   * holds the new tree, whose hashes are stale only on the path to the leaf
   * that received the value.
   */
  lemma PlugInstalled(c: Primitives, m: Arena, h: Hashes, m': Arena, h': Hashes, t: Node, q: seq<bool>,
                      s: Node, par: Option<Id>, x: Node, r: seq<bool>, leaf: Id, added: set<Id>)
    requires Shape(m, t, None) && t.id == RootId && Distinct(t) && Sub(t, q) == Some(s) && par == ParentAt(t, q, None)
    requires HashedExcept(c, h, t, q) && x.id == s.id && Distinct(Plug(t, q, x))
    requires Installed(c, m, h, m', h', s, par, x, r, leaf, added)
    ensures Shape(m', Plug(t, q, x), None) && Plug(t, q, x).id == RootId && Distinct(Plug(t, q, x))
    ensures Ids(Plug(t, q, x)) <= h'.Keys && h'.Keys == m'.Keys && m'.Keys <= m.Keys + added
    ensures Sub(Plug(t, q, x), q + r).Some? && Sub(Plug(t, q, x), q + r).value.Leaf?
    ensures Sub(Plug(t, q, x), q + r).value.id == leaf && HashedExcept(c, h', Plug(t, q, x), q + r)
  {
    PlugEffect(c, m, h, m', h', t, q, x, r);
    ShapeIds(m', Plug(t, q, x), None);
  }

  /** Storing the root's hash leaves the hashes below it alone. */
  lemma RootRehashed(c: Primitives, h: Hashes, t: Node, v: NBytes)
    requires Distinct(t) && ChildrenHashed(c, h, t)
    ensures ChildrenHashed(c, h[t.id := v], t)
  {
    if Child(t, false).Some? { AllHashedFrame(c, h, h[t.id := v], Child(t, false).value); }
    if Child(t, true).Some? { AllHashedFrame(c, h, h[t.id := v], Child(t, true).value); }
  }

  /**
   * The byte-by-byte matching loop of PrefixAppend: how many bytes of the
   * label agree with the key from position i. It reads the key only while
   * the bytes so far agree.
   */
  method MatchLabel(prefix: Bytes, i: nat, lbl: Bytes) returns (j: nat)
    requires i <= |prefix|
    requires |lbl| <= |prefix| - i || CommonPrefixLen(lbl, prefix[i..]) < |prefix| - i
    ensures j == CommonPrefixLen(lbl, prefix[i..])
  {
    ghost var k := prefix[i..];
    j := 0;
    while j < |lbl|
      invariant j <= CommonPrefixLen(lbl, k)
      invariant lbl[..j] == k[..j]
      decreases |lbl| - j
    {
      if prefix[i + j] == lbl[j] {
        assert lbl[..j + 1] == k[..j + 1];
        j := j + 1;
      } else {
        break;
      }
    }
    CommonPrefixLenAt(lbl, k, j);
  }

  /** The records (or hashes) outside ids are kept. */
  predicate KeepsOutside<V(==)>(m: map<Id, V>, m': map<Id, V>, ids: set<Id>)
  {
    forall id | id in m && id !in ids :: id in m' && m'[id] == m[id]
  }

  /**
   * Installing the new subtree x in place of the node at q: if the arena
   * holds x and keeps the other records, and x is stale only along r, the
   * arena holds the new tree, stale only along q + r.
   */
  lemma PlugEffect(c: Primitives, m: Arena, h: Hashes, m': Arena, h': Hashes,
                   t: Node, q: seq<bool>, x: Node, r: seq<bool>)
    requires Shape(m, t, None) && Distinct(t) && Sub(t, q).Some? && x.id == Sub(t, q).value.id
    requires HashedExcept(c, h, t, q)
    requires Shape(m', x, ParentAt(t, q, None)) && HashedExcept(c, h', x, r)
    requires KeepsOutside(m, m', Ids(Sub(t, q).value)) && KeepsOutside(h, h', Ids(Sub(t, q).value))
    ensures Shape(m', Plug(t, q, x), None) && HashedExcept(c, h', Plug(t, q, x), q + r)
    ensures Sub(Plug(t, q, x), q + r) == Sub(x, r)
  {
    PlugShape(m, m', t, q, x, None);
    PlugHashed(c, h, h', t, q, x, r);
    SubPlug(t, q, x);
    SubAppend(Plug(t, q, x), q, r);
  }

  /**
   * After one of PrefixAppend's cases: the arena (m', h') holds the new
   * subtree x in place of s, its hashes are stale only along r, which ends at
   * the leaf that received the value, and records outside s are kept.
   */
  ghost predicate Installed(c: Primitives, m: Arena, h: Hashes, m': Arena, h': Hashes, s: Node, par: Option<Id>,
                            x: Node, r: seq<bool>, leaf: Id, added: set<Id>)
  {
    Shape(m', x, par) && HashedExcept(c, h', x, r) &&
    Sub(x, r).Some? && Sub(x, r).value.Leaf? && Sub(x, r).value.id == leaf &&
    KeepsOutside(m, m', Ids(s)) && KeepsOutside(h, h', Ids(s)) &&
    h'.Keys == m'.Keys && m'.Keys <= m.Keys + added
  }

  /**
   * The last step of the missing-child and split cases: the record of s
   * points its slot b at the new subtree y, and only s and the records of
   * the subtree that was in slot b have changed.
   */
  lemma InstallChild(c: Primitives, m: Arena, h: Hashes, m': Arena, h': Hashes, s: Node, par: Option<Id>,
                     b: bool, y: Node, r: seq<bool>, leaf: Id, changed: set<Id>, added: set<Id>)
    requires Shape(m, s, par) && s.Inner? && Distinct(s) && ChildrenHashed(c, h, s)
    requires s.id in m' && m'[s.id] == SetArenaChild(m[s.id], b, y.id)
    requires Shape(m', y, Some(s.id)) && HashedExcept(c, h', y, r)
    requires Sub(y, r).Some? && Sub(y, r).value.Leaf? && Sub(y, r).value.id == leaf
    requires changed <= {s.id} + (if Child(s, b).Some? then Ids(Child(s, b).value) else {})
    requires KeepsOutside(m, m', changed) && KeepsOutside(h, h', changed)
    requires h'.Keys == m'.Keys && m'.Keys <= m.Keys + added
    ensures Installed(c, m, h, m', h', s, par, SetChild(s, b, y), [b] + r, leaf, added)
  {
    var x := SetChild(s, b, y);
    ShapeChild(m, s, par, !b);
    if Child(s, !b).Some? {
      var o := Child(s, !b).value;
      DistinctChild(s, !b);
      if Child(s, b).Some? { DistinctChild(s, b); }
      ShapeFrame(m, m', o, Some(s.id));
      AllHashedFrame(c, h, h', o);
    }
    ShapeInner(m', x, par);
    assert ([b] + r)[0] == b && ([b] + r)[1..] == r;
    assert changed <= Ids(s);
  }

  /** A missing child: the new leaf fills the key's slot of s. */
  lemma NewLeafCase(c: Primitives, m: Arena, h: Hashes, m': Arena, h': Hashes,
                    s: Node, par: Option<Id>, l: Id, k: Bytes, kh: KeyHash)
    requires Shape(m, s, par) && s.Inner? && Distinct(s) && ChildrenHashed(c, h, s)
    requires CanInsert(s, k) && Child(s, Slot(k[0])).None? && l !in m && l !in h && h.Keys == m.Keys
    requires m' == WithLeaf(m, s.id, l, k, kh) && h' == h[l := None]
    ensures Installed(c, m, h, m', h', s, par, InsertAt(s, k, kh, l), [Slot(k[0])], l, {l})
  {
    var b := Slot(k[0]);
    var leaf := Leaf(l, k, [kh]);
    assert NewChild(s, k, kh, l) == leaf;
    assert InsertAt(s, k, kh, l) == SetChild(s, b, leaf);
    assert Shape(m', leaf, Some(s.id));
    InstallChild(c, m, h, m', h', s, par, b, leaf, [], l, {s.id}, {l});
  }

  /** The key ends at the leaf s: its record gets the value. */
  lemma AddValueCase(c: Primitives, m: Arena, h: Hashes, m': Arena, s: Node, par: Option<Id>, kh: KeyHash, l: Id)
    requires Shape(m, s, par) && s.Leaf? && h.Keys == m.Keys
    requires m' == m[s.id := m[s.id].(values := m[s.id].values + [kh])]
    ensures Installed(c, m, h, m', h, s, par, InsertAt(s, [], kh, l), [], s.id, {})
  {
  }

  /** Shape of an internal node from its record and its children's shapes. */
  lemma ShapeInner(m: Arena, t: Node, parent: Option<Id>)
    requires t.Inner? && t.id in m && m[t.id].AInner? && m[t.id].parent == parent && m[t.id].prefix == t.prefix
    requires ArenaChild(m[t.id], false) == IdOf(Child(t, false))
    requires ArenaChild(m[t.id], true) == IdOf(Child(t, true))
    requires Child(t, false).Some? ==> Shape(m, Child(t, false).value, Some(t.id))
    requires Child(t, true).Some? ==> Shape(m, Child(t, true).value, Some(t.id))
    ensures Shape(m, t, parent)
  {
  }

  /**
   * The split node keeps the end of its label under the new intermediate
   * record; updateHash gives it its hash from its unchanged children.
   */
  lemma LoweredCase(c: Primitives, m: Arena, h: Hashes, m1: Arena, h1: Hashes, m': Arena, h': Hashes,
                    ch: Node, j: nat, sid: Id, mid: Id)
    requires Shape(m, ch, Some(sid)) && Distinct(ch) && ChildrenHashed(c, h, ch) && j < |ch.prefix|
    requires forall id | id in Ids(ch) && id != ch.id && id in m :: id in m1 && m1[id] == m[id]
    requires forall id | id in Ids(ch) && id in m1 :: id in m' && m'[id] == m1[id]
    requires ch.id in m1 && m1[ch.id] == m[ch.id].(prefix := ch.prefix[j..], parent := Some(mid))
    requires forall id | id in Ids(ch) && id != ch.id && id in h :: id in h1 && h1[id] == h[id]
    requires forall id | id in Ids(ch) && id != ch.id && id in h1 :: id in h' && h'[id] == h1[id]
    requires ch.id in h' && h'[ch.id] == ComputedHash(c, m1, h1, ch.id)
    ensures Shape(m', ch.(prefix := ch.prefix[j..]), Some(mid))
    ensures AllHashed(c, h', ch.(prefix := ch.prefix[j..]))
  {
    var lower := ch.(prefix := ch.prefix[j..]);
    if Child(ch, false).Some? {
      var g := Child(ch, false).value;
      DistinctChild(ch, false);
      ShapeFrame(m, m1, g, Some(ch.id));
      ShapeFrame(m1, m', g, Some(ch.id));
      AllHashedFrame(c, h, h1, g);
      AllHashedFrame(c, h1, h', g);
    }
    if Child(ch, true).Some? {
      var g := Child(ch, true).value;
      DistinctChild(ch, true);
      ShapeFrame(m, m1, g, Some(ch.id));
      ShapeFrame(m1, m', g, Some(ch.id));
      AllHashedFrame(c, h, h1, g);
      AllHashedFrame(c, h1, h', g);
    }
    assert Shape(m1, lower, Some(mid));
    ComputedHashOK(c, m1, h1, lower, Some(mid));
  }

  /** The facts about the split child that hold before any record changes. */
  lemma SplitSlots(c: Primitives, m: Arena, h: Hashes, s: Node, par: Option<Id>, isRoot: bool, ch: Node, j: nat, k: Bytes)
    requires Shape(m, s, par) && WF(s, isRoot) && Distinct(s) && ChildrenHashed(c, h, s)
    requires CanInsert(s, k) && IsBits(k) && Child(s, Slot(k[0])) == Some(ch)
    requires j == CommonPrefixLen(ch.prefix, k) && j < |ch.prefix|
    ensures 0 < j < |k| && WF(ch, false) && Slot(ch.prefix[0]) == Slot(k[0])
    ensures Slot(ch.prefix[j]) != Slot(k[j])
    ensures ch.id in Ids(s) && s.id !in Ids(ch) && Shape(m, ch, Some(s.id)) && Distinct(ch)
    ensures Ids(s) <= m.Keys && Ids(ch) <= m.Keys && ChildrenHashed(c, h, ch)
    ensures s.id in m && m[s.id].AInner? && ch.id in m && m[ch.id].prefix == ch.prefix
  {
    var lbl := ch.prefix;
    assert lbl[j] != k[j];
    ShapeIds(m, s, par);
    DistinctChild(s, Slot(k[0]));
    ShapeChild(m, s, par, Slot(k[0]));
    ShapeIds(m, ch, Some(s.id));
  }

  /** splitCompressedNode and newLeafNode keep the records below the split child, and add two records. */
  lemma SplitRecords(m: Arena, m1: Arena, m': Arena, sid: Id, ch: Node, j: nat, k: Bytes, kh: KeyHash, l: Id)
    requires Ids(ch) <= m.Keys && sid !in Ids(ch) && ch.id in Ids(ch) && l !in m && l + 1 !in m
    requires sid in m && m[sid].AInner? && 0 < j < |m[ch.id].prefix| && j < |k|
    requires Slot(m[ch.id].prefix[j]) != Slot(k[j])
    requires m1 == WithSplit(m, ch.id, sid, j, l + 1)
    requires m' == WithLeaf(m1, l + 1, l, k[j..], kh)
    ensures forall id | id in Ids(ch) && id != ch.id && id in m :: id in m1 && m1[id] == m[id]
    ensures forall id | id in Ids(ch) && id in m1 :: id in m' && m'[id] == m1[id]
    ensures ch.id in m1 && m1[ch.id] == m[ch.id].(prefix := m[ch.id].prefix[j..], parent := Some(l + 1))
    ensures m1.Keys == m.Keys + {l + 1}
    ensures sid in m' && m'[sid] == SetArenaChild(m[sid], Slot(m[ch.id].prefix[0]), l + 1)
    ensures KeepsOutside(m, m', {sid, ch.id}) && m'.Keys == m.Keys + {l, l + 1}
    ensures l in m' && m'[l] == ALeaf(Some(l + 1), k[j..], [kh])
    ensures l + 1 in m' && m'[l + 1].AInner? && m'[l + 1].parent == Some(sid) && m'[l + 1].prefix == m[ch.id].prefix[..j]
    ensures ArenaChild(m'[l + 1], Slot(k[j])) == Some(l) && ArenaChild(m'[l + 1], !Slot(k[j])) == Some(ch.id)
  {
  }

  /** updateHash on the split child and the nil hashes of the two new records keep the hashes below it. */
  lemma SplitHashes(c: Primitives, m: Arena, h: Hashes, m1: Arena, h1: Hashes, h': Hashes,
                    sid: Id, ch: Node, l: Id)
    requires Ids(ch) <= m.Keys && sid !in Ids(ch) && ch.id in Ids(ch) && l !in m && l + 1 !in m && h.Keys == m.Keys
    requires ch.id in m1 && m1.Keys == m.Keys + {l + 1}
    requires h1 == h[l + 1 := None]
    requires h' == h1[ch.id := ComputedHash(c, m1, h1, ch.id)][l := None]
    ensures forall id | id in Ids(ch) && id != ch.id && id in h :: id in h1 && h1[id] == h[id]
    ensures forall id | id in Ids(ch) && id != ch.id && id in h1 :: id in h' && h'[id] == h1[id]
    ensures ch.id in h' && h'[ch.id] == ComputedHash(c, m1, h1, ch.id)
    ensures KeepsOutside(h, h', {sid, ch.id}) && h'.Keys == m.Keys + {l, l + 1}
  {
  }

  /**
   * The intermediate record splitCompressedNode creates, once the new leaf
   * is under it: it holds the lower part of the split child and the leaf.
   */
  lemma SplitMid(c: Primitives, m: Arena, h: Hashes, m1: Arena, h1: Hashes, m': Arena, h': Hashes,
                 sid: Id, ch: Node, j: nat, k: Bytes, kh: KeyHash, l: Id)
    requires Shape(m, ch, Some(sid)) && Distinct(ch) && ChildrenHashed(c, h, ch) && 0 < j < |ch.prefix| && j < |k|
    requires Slot(ch.prefix[j]) != Slot(k[j])
    requires forall id | id in Ids(ch) && id != ch.id && id in m :: id in m1 && m1[id] == m[id]
    requires forall id | id in Ids(ch) && id in m1 :: id in m' && m'[id] == m1[id]
    requires ch.id in m1 && m1[ch.id] == m[ch.id].(prefix := ch.prefix[j..], parent := Some(l + 1))
    requires forall id | id in Ids(ch) && id != ch.id && id in h :: id in h1 && h1[id] == h[id]
    requires forall id | id in Ids(ch) && id != ch.id && id in h1 :: id in h' && h'[id] == h1[id]
    requires ch.id in h' && h'[ch.id] == ComputedHash(c, m1, h1, ch.id)
    requires l in m' && m'[l] == ALeaf(Some(l + 1), k[j..], [kh])
    requires l + 1 in m' && m'[l + 1].AInner? && m'[l + 1].parent == Some(sid) && m'[l + 1].prefix == ch.prefix[..j]
    requires ArenaChild(m'[l + 1], Slot(k[j])) == Some(l) && ArenaChild(m'[l + 1], !Slot(k[j])) == Some(ch.id)
    ensures Shape(m', AddChild(Split(ch, j, l + 1), Leaf(l, k[j..], [kh])), Some(sid))
    ensures HashedExcept(c, h', AddChild(Split(ch, j, l + 1), Leaf(l, k[j..], [kh])), [Slot(k[j])])
    ensures Sub(AddChild(Split(ch, j, l + 1), Leaf(l, k[j..], [kh])), [Slot(k[j])]) == Some(Leaf(l, k[j..], [kh]))
  {
    var bl := Slot(k[j]);
    var M := l + 1;
    var lower := ch.(prefix := ch.prefix[j..]);
    var leaf := Leaf(l, k[j..], [kh]);
    var mid := AddChild(Split(ch, j, M), leaf);
    LoweredCase(c, m, h, m1, h1, m', h', ch, j, sid, M);
    assert Child(mid, bl) == Some(leaf) && Child(mid, !bl) == Some(lower);
    assert Shape(m', leaf, Some(M));
    ShapeInner(m', mid, Some(sid));
    assert [bl][1..] == [];
  }

  /** The arena after splitCompressedNode, updateHash and newLeafNode holds the split with the new leaf. */
  lemma SplitInstalled(c: Primitives, m: Arena, h: Hashes, m': Arena, h': Hashes,
                       s: Node, par: Option<Id>, isRoot: bool, ch: Node, j: nat, k: Bytes, kh: KeyHash, l: Id)
    requires Shape(m, s, par) && WF(s, isRoot) && Distinct(s) && ChildrenHashed(c, h, s)
    requires CanInsert(s, k) && IsBits(k) && Child(s, Slot(k[0])) == Some(ch)
    requires j == CommonPrefixLen(ch.prefix, k) && j < |ch.prefix|
    requires l !in m && l + 1 !in m && h.Keys == m.Keys
    requires ch.id in m && s.id in m && m[s.id].AInner? && 0 < j < |m[ch.id].prefix|
    requires j < |k| && m' == WithLeaf(WithSplit(m, ch.id, s.id, j, l + 1), l + 1, l, k[j..], kh)
    requires h' ==
      h[l + 1 := None][ch.id := ComputedHash(c, WithSplit(m, ch.id, s.id, j, l + 1), h[l + 1 := None], ch.id)][l := None]
    ensures Installed(c, m, h, m', h', s, par, InsertAt(s, k, kh, l), [Slot(k[0]), Slot(k[j])], l, {l, l + 1})
  {
    SplitSlots(c, m, h, s, par, isRoot, ch, j, k);
    SplitFramed(c, m, h, m', h', s, par, ch, j, k, kh, l);
  }

  /** SplitRecords and SplitHashes give SplitTail its frame facts. */
  lemma SplitFramed(c: Primitives, m: Arena, h: Hashes, m': Arena, h': Hashes,
                    s: Node, par: Option<Id>, ch: Node, j: nat, k: Bytes, kh: KeyHash, l: Id)
    requires Shape(m, s, par) && s.Inner? && Distinct(s) && ChildrenHashed(c, h, s)
    requires CanInsert(s, k) && Child(s, Slot(k[0])) == Some(ch)
    requires j == CommonPrefixLen(ch.prefix, k) && 0 < j < |ch.prefix| && j < |k|
    requires Slot(ch.prefix[j]) != Slot(k[j]) && Slot(ch.prefix[0]) == Slot(k[0])
    requires ch.id in Ids(s) && s.id !in Ids(ch) && Shape(m, ch, Some(s.id)) && Distinct(ch)
    requires Ids(ch) <= m.Keys && ChildrenHashed(c, h, ch)
    requires s.id in m && m[s.id].AInner? && ch.id in m && m[ch.id].prefix == ch.prefix
    requires l !in m && l + 1 !in m && h.Keys == m.Keys
    requires m' == WithLeaf(WithSplit(m, ch.id, s.id, j, l + 1), l + 1, l, k[j..], kh)
    requires h' ==
      h[l + 1 := None][ch.id := ComputedHash(c, WithSplit(m, ch.id, s.id, j, l + 1), h[l + 1 := None], ch.id)][l := None]
    ensures Installed(c, m, h, m', h', s, par, InsertAt(s, k, kh, l), [Slot(k[0]), Slot(k[j])], l, {l, l + 1})
  {
    var m1, h1 := WithSplit(m, ch.id, s.id, j, l + 1), h[l + 1 := None];
    SplitRecords(m, m1, m', s.id, ch, j, k, kh, l);
    SplitHashes(c, m, h, m1, h1, h', s.id, ch, l);
    SplitTail(c, m, h, m1, h1, m', h', s, par, ch, j, k, kh, l);
  }

  /** SplitMid, then SplitCase, from the frame facts of SplitRecords and SplitHashes. */
  lemma SplitTail(c: Primitives, m: Arena, h: Hashes, m1: Arena, h1: Hashes, m': Arena, h': Hashes,
                  s: Node, par: Option<Id>, ch: Node, j: nat, k: Bytes, kh: KeyHash, l: Id)
    requires Shape(m, s, par) && s.Inner? && Distinct(s) && ChildrenHashed(c, h, s)
    requires CanInsert(s, k) && Child(s, Slot(k[0])) == Some(ch)
    requires j == CommonPrefixLen(ch.prefix, k) && 0 < j < |ch.prefix| && j < |k|
    requires Shape(m, ch, Some(s.id)) && Distinct(ch) && ChildrenHashed(c, h, ch)
    requires Slot(ch.prefix[j]) != Slot(k[j]) && Slot(ch.prefix[0]) == Slot(k[0]) && ch.id in m && m[ch.id].prefix == ch.prefix
    requires forall id | id in Ids(ch) && id != ch.id && id in m :: id in m1 && m1[id] == m[id]
    requires forall id | id in Ids(ch) && id in m1 :: id in m' && m'[id] == m1[id]
    requires ch.id in m1 && m1[ch.id] == m[ch.id].(prefix := m[ch.id].prefix[j..], parent := Some(l + 1))
    requires forall id | id in Ids(ch) && id != ch.id && id in h :: id in h1 && h1[id] == h[id]
    requires forall id | id in Ids(ch) && id != ch.id && id in h1 :: id in h' && h'[id] == h1[id]
    requires ch.id in h' && h'[ch.id] == ComputedHash(c, m1, h1, ch.id)
    requires s.id in m && s.id in m' && m'[s.id] == SetArenaChild(m[s.id], Slot(m[ch.id].prefix[0]), l + 1)
    requires KeepsOutside(m, m', {s.id, ch.id}) && m'.Keys == m.Keys + {l, l + 1}
    requires KeepsOutside(h, h', {s.id, ch.id}) && h'.Keys == m.Keys + {l, l + 1}
    requires l in m' && m'[l] == ALeaf(Some(l + 1), k[j..], [kh])
    requires l + 1 in m' && m'[l + 1].AInner? && m'[l + 1].parent == Some(s.id) && m'[l + 1].prefix == m[ch.id].prefix[..j]
    requires ArenaChild(m'[l + 1], Slot(k[j])) == Some(l) && ArenaChild(m'[l + 1], !Slot(k[j])) == Some(ch.id)
    ensures Installed(c, m, h, m', h', s, par, InsertAt(s, k, kh, l), [Slot(k[0]), Slot(k[j])], l, {l, l + 1})
  {
    SplitMid(c, m, h, m1, h1, m', h', s.id, ch, j, k, kh, l);
    SplitCase(c, m, h, m', h', s, par, ch, j, k, kh, l);
  }

  /**
   * A child whose label leaves the key after j bytes: splitCompressedNode
   * puts an intermediate record (identity l + 1) above it, updateHash
   * rehashes the child, and the new leaf (identity l) goes beside it.
   */
  lemma SplitCase(c: Primitives, m: Arena, h: Hashes, m': Arena, h': Hashes,
                  s: Node, par: Option<Id>, ch: Node, j: nat, k: Bytes, kh: KeyHash, l: Id)
    requires Shape(m, s, par) && s.Inner? && Distinct(s) && ChildrenHashed(c, h, s)
    requires CanInsert(s, k) && Child(s, Slot(k[0])) == Some(ch)
    requires j == CommonPrefixLen(ch.prefix, k) && 0 < j < |ch.prefix| && j < |k|
    requires Shape(m', AddChild(Split(ch, j, l + 1), Leaf(l, k[j..], [kh])), Some(s.id))
    requires HashedExcept(c, h', AddChild(Split(ch, j, l + 1), Leaf(l, k[j..], [kh])), [Slot(k[j])])
    requires Sub(AddChild(Split(ch, j, l + 1), Leaf(l, k[j..], [kh])), [Slot(k[j])]) == Some(Leaf(l, k[j..], [kh]))
    requires s.id in m' && m'[s.id] == SetArenaChild(m[s.id], Slot(k[0]), l + 1)
    requires KeepsOutside(m, m', {s.id, ch.id}) && KeepsOutside(h, h', {s.id, ch.id})
    requires h'.Keys == m'.Keys && m'.Keys <= m.Keys + {l, l + 1}
    ensures Installed(c, m, h, m', h', s, par, InsertAt(s, k, kh, l), [Slot(k[0]), Slot(k[j])], l, {l, l + 1})
  {
    var b := Slot(k[0]);
    var bl := Slot(k[j]);
    var mid := AddChild(Split(ch, j, l + 1), Leaf(l, k[j..], [kh]));
    assert NewChild(s, k, kh, l) == mid;
    assert InsertAt(s, k, kh, l) == SetChild(s, b, mid);
    assert [b] + [bl] == [b, bl];
    InstallChild(c, m, h, m', h', s, par, b, mid, [bl], l, {s.id, ch.id}, {l, l + 1});
  }

  /** Matching a child's whole label moves PrefixAppend's walk one node down. */
  lemma DescendStep(t: Node, q: seq<bool>, s: Node, c: Node, prefix: Bytes, i: nat, i': nat)
    requires Sub(t, q) == Some(s) && i < |prefix| && CanInsertAt(s, prefix[i..]) && PathLabel(t, q) == prefix[..i]
    requires Child(s, Slot(prefix[i])) == Some(c) && HasPrefix(prefix[i..], c.prefix) && i' == i + |c.prefix|
    ensures i' <= |prefix| && Sub(t, q + [Slot(prefix[i])]) == Some(c)
    ensures CanInsertAt(c, prefix[i'..]) && PathLabel(t, q + [Slot(prefix[i])]) == prefix[..i']
  {
    DescendCan(s, c, prefix, i, i');
    DescendPath(t, q, s, c, prefix, i, i');
  }

  lemma DescendCan(s: Node, c: Node, prefix: Bytes, i: nat, i': nat)
    requires i < |prefix| && CanInsertAt(s, prefix[i..])
    requires Child(s, Slot(prefix[i])) == Some(c) && HasPrefix(prefix[i..], c.prefix) && i' == i + |c.prefix|
    ensures i' <= |prefix| && CanInsertAt(c, prefix[i'..])
  {
    var k := prefix[i..];
    DescendInsert(s, k, KeyHash([], 0), 0);
    assert prefix[i..][|c.prefix|..] == prefix[i'..];
  }

  lemma DescendPath(t: Node, q: seq<bool>, s: Node, c: Node, prefix: Bytes, i: nat, i': nat)
    requires Sub(t, q) == Some(s) && i < |prefix| && PathLabel(t, q) == prefix[..i]
    requires Child(s, Slot(prefix[i])) == Some(c) && HasPrefix(prefix[i..], c.prefix) && i' == i + |c.prefix|
    ensures i' <= |prefix| && Sub(t, q + [Slot(prefix[i])]) == Some(c)
    ensures PathLabel(t, q + [Slot(prefix[i])]) == prefix[..i']
  {
    var b := Slot(prefix[i]);
    assert [b][1..] == [];
    SubAppend(t, q, [b]);
    PathLabelLast(t, q + [b]);
    assert (q + [b])[..|q|] == q;
    assert prefix[..i'] == prefix[..i] + prefix[i..i'];
    assert prefix[i..][..i' - i] == prefix[i..i'];
  }

  /** Where a child's label and the key part ways, the key goes on (PrefixAppend's matching loop stays in bounds). */
  lemma MatchBound(s: Node, k: Bytes)
    requires CanInsert(s, k) && Child(s, Slot(k[0])).Some?
    ensures var c := Child(s, Slot(k[0])).value;
      (CommonPrefixLen(c.prefix, k) < |c.prefix| ==> 0 < CommonPrefixLen(c.prefix, k) < |k|) &&
      (CommonPrefixLen(c.prefix, k) == |c.prefix| ==> |c.prefix| <= |k|)
  {
  }
}
