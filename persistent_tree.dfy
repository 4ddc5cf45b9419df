/**
 * persistentPrefixTree of core/persistent_prefix_tree.go: a compressed
 * binary trie that keeps every epoch's version. A record older than the
 * current epoch is never rewritten; it is copied into a new version
 * (makeNextMetadata), and the copy is linked in place of it along the
 * newest-parent chain.
 *
 * The store and its invariant are in PersistentStore. The ghost K is the
 * common length of the keys (bit strings) the tree is used with.
 */
module PersistentTrees {
  import opened Wrappers
  import opened Bits
  import opened Crypto
  import opened Copath
  import opened TrieSpec
  import opened TrieWalk
  import opened TrieArena
  import opened TrieQuery
  import opened PersistentStore
  import opened PersistentQuery

  class PersistentPrefixTree {
    var nodes: Store
    var roots: seq<Id>
    var currRoot: Id
    var currEpoch: nat
    var sizesAtEpoch: seq<nat>
    var nextId: Id
    ghost var st: Offsets
    ghost const K: nat
    const crypto: Primitives

    /** The store is linked, no record is newer than the current epoch, and every offset's id is below nextId. */
    ghost predicate Stored()
      reads this`nodes, this`st, this`currEpoch, this`nextId
    {
      Sound(nodes, st, K, currEpoch, nextId)
    }

    ghost predicate Valid()
      reads this
    {
      Stored() && Balanced(nodes, st, K) && K > 0 &&
      currRoot in nodes && nodes[currRoot].prefix == [] &&
      |roots| == currEpoch &&
      (forall e | 0 <= e < |roots| :: roots[e] in nodes && nodes[roots[e]].prefix == [] && nodes[roots[e]].epoch <= e) &&
      |sizesAtEpoch| == currEpoch + 1
    }

    /** getRootAtEpoch. */
    ghost function RootAt(e: nat): Id
      reads this
      requires Valid() && e <= currEpoch
    {
      if e == currEpoch then currRoot else roots[e]
    }

    /** The trie an epoch sees. */
    ghost function View(e: nat): (t: Node)
      reads this
      requires Valid() && e <= currEpoch
      ensures WF(t, true)
    {
      ViewWF(nodes, st, K, RootAt(e));
      ViewOf(nodes, st, K, RootAt(e))
    }

    /** The stored hashes below the root of epoch e agree with its trie. */
    ghost predicate HashedAt(e: nat)
      reads this
      requires Valid() && e <= currEpoch
    {
      ChildrenHashed(crypto, HashesOf(nodes), View(e))
    }

    /** NewPersistentPrefixTree: an empty root at epoch 0 of size 0. */
    constructor(c: Primitives, ghost keyLen: nat)
      requires keyLen > 0
      ensures Valid() && crypto == c && K == keyLen
      ensures currEpoch == 0 && roots == [] && sizesAtEpoch == [0]
      ensures View(0) == Inner(currRoot, [], None, None) && nodes[currRoot].hash.None?
      ensures nodes[currRoot].epoch == 0 && nodes[currRoot].left.None? && nodes[currRoot].right.None?
    {
      crypto := c;
      K := keyLen;
      nodes := map[0 := Meta(None, [], 0, [], None, None, None, None, None)];
      roots := [];
      currRoot := 0;
      currEpoch := 0;
      sizesAtEpoch := [0];
      nextId := 1;
      st := map[0 := 0];
      new;
      assert LinkedAt(nodes, st, K, 0);
      assert BalancedAt(nodes, st, K, 0);
    }

    /** The root of a past or the current epoch is a root record no newer than that epoch. */
    function GetRootAtEpoch(epoch: nat): (r: Id)
      reads this
      requires Valid() && epoch <= currEpoch
      ensures r == RootAt(epoch) && r in nodes && nodes[r].prefix == [] && nodes[r].epoch <= epoch
      ensures ViewOf(nodes, st, K, r) == View(epoch)
    {
      if epoch == currEpoch then currRoot else roots[epoch]
    }

    /** getHash: the root's stored hash, which is the trie's hash once the hashes below it are stored. */
    function GetHash(epoch: nat): (r: NBytes)
      reads this
      requires Valid() && epoch <= currEpoch
      ensures AllHashed(crypto, HashesOf(nodes), View(epoch)) ==> r == Some(HashOf(crypto, View(epoch)))
    {
      nodes[if epoch == currEpoch then currRoot else roots[epoch]].hash
    }

    /** getSize. */
    function GetSize(epoch: nat): nat
      reads this
      requires Valid() && epoch <= currEpoch
    {
      sizesAtEpoch[epoch]
    }

    /** NextEpoch: freeze the current root and size; the new epoch starts from them. */
    method NextEpoch()
      requires Valid()
      modifies this`sizesAtEpoch, this`roots, this`currEpoch
      ensures Valid() && currEpoch == old(currEpoch) + 1 && roots == old(roots) + [currRoot]
      ensures sizesAtEpoch == old(sizesAtEpoch) + [old(sizesAtEpoch[currEpoch])]
      ensures forall e | 0 <= e < currEpoch :: View(e) == old(View(e)) && GetHash(e) == old(GetHash(e))
      ensures View(currEpoch) == View(currEpoch - 1) && GetSize(currEpoch) == GetSize(currEpoch - 1)
    {
      sizesAtEpoch := sizesAtEpoch + [sizesAtEpoch[currEpoch]];
      roots := roots + [currRoot];
      currEpoch := currEpoch + 1;
    }

    /**
     * makeNextMetadata: a new version of an old record, for the current
     * epoch. Its parent (versioned first when it is old itself) takes the
     * version in the record's slot, the record's children take it as
     * their parent, and the record links to it as its next version.
     */
    method MakeNextMetadata(x: Id) returns (ret: Id)
      requires Stored() && x in nodes && nodes[x].epoch < currEpoch
      modifies this`nodes, this`nextId, this`st
      ensures Stored() && Step(old(nodes), old(st), nodes, st, currEpoch, {})
      ensures FreshFrom(old(nodes), nodes, old(nextId))
      ensures ret !in old(nodes) && ret in nodes
      ensures nodes[ret] == old(nodes[x]).(epoch := currEpoch, prev := Some(x), next := None, parent := nodes[ret].parent)
      ensures nodes[x].next == Some(ret) && st[ret] == st[x]
      ensures WritesNear(old(nodes), old(st), nodes, x, currEpoch)
      ensures old(nodes[x].parent).None? ==> nodes == Versioning(old(nodes), x, ret, None, currEpoch)
      decreases Depth(nodes, st, x)
    {
      LinkedAtOf(nodes, st, K, x);
      var n := nodes[x];
      ret := nextId;
      nextId := nextId + 1;
      st := st[ret := st[x]];
      LinkedOffsets(nodes, old(st), st, K);
      ghost var m0, st0 := nodes, st;
      assert Step(old(nodes), old(st), m0, st0, currEpoch, {});
      ghost var p: Option<Id> := None;
      var par: Option<Id> := None;
      if n.parent.Some? {
        var edit := n.parent.value;
        LinkedAtOf(nodes, st, K, edit);
        if currEpoch > nodes[edit].epoch {
          p := Some(edit);
          edit := MakeNextMetadata(edit);
          StepTrans(old(nodes), old(st), m0, st0, nodes, st, currEpoch, {});
        }
        par := Some(edit);
      }
      ghost var m1, st1 := nodes, st;
      CanVersionFrom(m0, st0, m1, st, K, currEpoch, x, ret, par);
      LinkedAtOf(m0, st0, K, x);
      VersionNear(old(nodes), old(st), m0, st0, m1, st1, K, currEpoch, x, ret, par, p);
      nodes := Versioning(nodes, x, ret, par, currEpoch);
      VersionFinish(old(nodes), old(st), m1, st, K, currEpoch, nextId, x, ret, par);
    }

    /**
     * updateLeftChild / updateRightChild: put child into a slot of node,
     * or of a new version of node when node is old. The ghost target is
     * the record written.
     */
    method UpdateChild(node: Id, right: bool, child: Id) returns (ghost target: Id)
      requires Stored() && node in nodes && child in nodes
      requires nodes[child].prefix != [] && Slot(nodes[child].prefix[0]) == right
      requires st[child] == End(nodes, st, node) && nodes[child].epoch == currEpoch
      modifies this`nodes, this`nextId, this`st
      ensures Stored() && Step(old(nodes), old(st), nodes, st, currEpoch, {target})
      ensures FreshFrom(old(nodes), nodes, old(nextId)) && old(nextId) <= nextId
      ensures target in nodes && nodes[target].epoch == currEpoch
      ensures nodes[target].prefix == old(nodes[node].prefix) && st[target] == st[node]
      ensures Slotted(nodes[target], right) == Some(child)
      ensures Slotted(nodes[target], !right) == Slotted(old(nodes[node]), !right)
      ensures target == node || (old(nodes[node].epoch) < currEpoch && nodes[node].next == Some(target) && target !in old(nodes))
      ensures old(nodes[node].parent).None? && old(nodes[node].epoch) < currEpoch ==>
        var v := Versioning(old(nodes), node, target, None, currEpoch); nodes == v[target := WithSlot(v[target], right, child)]
    {
      LinkedAtOf(nodes, st, K, node);
      if currEpoch > nodes[node].epoch {
        var m := MakeNextMetadata(node);
        ghost var m1 := nodes;
        SlotWrite(nodes, st, K, currEpoch, nextId, m, right, child);
        nodes := nodes[m := WithSlot(nodes[m], right, child)];
        StepWiden(old(nodes), old(st), m1, st, currEpoch, {}, {m});
        StepTrans(old(nodes), old(st), m1, st, nodes, st, currEpoch, {m});
        FreshFromTrans(old(nodes), m1, nodes, old(nextId), nextId);
        target := m;
      } else {
        SlotWrite(nodes, st, K, currEpoch, nextId, node, right, child);
        nodes := nodes[node := WithSlot(nodes[node], right, child)];
        target := node;
      }
    }

    /**
     * updateHash: recompute a record's hash from its label and values (no
     * children) or its label and its children's hashes; when it differs
     * from the stored one, store it, in a new version if the record is old.
     */
    method UpdateHash(id: Id)
      requires Stored() && id in nodes
      modifies this`nodes, this`nextId, this`st
      ensures Stored() && Step(old(nodes), old(st), nodes, st, currEpoch, {})
      ensures FreshFrom(old(nodes), nodes, old(nextId)) && old(nextId) <= nextId
      ensures Rehashed(old(nodes), nodes, id, FreshHash(crypto, old(nodes), id), currEpoch)
    {
      var h := ComputeHash(id);
      var n := nodes[id];
      if h != Flat(n.hash) {
        if n.epoch < currEpoch {
          var m := MakeNextMetadata(id);
          RehashOld(old(nodes), old(st), nodes, st, K, currEpoch, old(nextId), nextId, id, m, h);
          nodes := nodes[m := nodes[m].(hash := Some(h))];
        } else {
          HashWrite(nodes, st, K, currEpoch, nextId, id, h);
          nodes := nodes[id := n.(hash := Some(h))];
        }
      }
    }

    /** The hash updateHash computes for a record, from its stored children's hashes. */
    method ComputeHash(id: Id) returns (h: Bytes)
      requires Stored() && id in nodes
      ensures h == FreshHash(crypto, nodes, id)
    {
      LinkedAtOf(nodes, st, K, id);
      var n := nodes[id];
      var leftHash: Bytes := [];
      var rightHash: Bytes := [];
      if n.left.Some? {
        leftHash := Flat(nodes[n.left.value].hash);
      }
      if n.right.Some? {
        rightHash := Flat(nodes[n.right.value].hash);
      }
      if n.left.None? && n.right.None? {
        h := crypto.leafHash(n.prefix, n.values);
      } else {
        h := crypto.hash([n.prefix, leftHash, rightHash]);
      }
    }

    /**
     * The state Insert leaves for updateHashesFromLeaf after hanging a new
     * leaf from an old, childless root: the leaf is of the current epoch
     * and its parent is still that old root (not the root's new version,
     * which holds the leaf).
     */
    static ghost predicate OrphanedLeaf(m: Store, leaf: Id, cur: nat)
    {
      leaf in m && m[leaf].epoch == cur && m[leaf].parent.Some? &&
      var r := m[leaf].parent.value;
      r in m && r != leaf && m[r].parent.None? && m[r].epoch < cur &&
      m[r].left.None? && m[r].right.None? && m[r].next != Some(leaf)
    }

    /**
     * updateHashesFromLeaf: rehash every record on the newest-parent chain
     * from the leaf up to a root; the current root becomes that root, or
     * its newer version.
     */
    method UpdateHashesFromLeaf(leaf: Id)
      requires Stored() && leaf in nodes
      modifies this`nodes, this`nextId, this`st, this`currRoot
      ensures Stored() && Step(old(nodes), old(st), nodes, st, currEpoch, {})
      ensures FreshFrom(old(nodes), nodes, old(nextId)) && old(nextId) <= nextId
      ensures currRoot in nodes && nodes[currRoot].prefix == []
      ensures OrphanedLeaf(old(nodes), leaf, currEpoch) ==>
        var r, nr := old(nodes[leaf].parent.value), currRoot;
        (nodes[nr].left.None? && nodes[nr].right.None?) ||
        (old(nodes[r].next) == Some(nr) && nr in old(nodes) && nodes[nr].hash == old(nodes)[nr].hash)
    {
      ghost var m0, st0 := nodes, st;
      assert Step(m0, st0, nodes, st, currEpoch, {}) && FreshFrom(m0, nodes, nextId);
      ghost var orphan := OrphanedLeaf(m0, leaf, currEpoch);
      var curr := leaf;
      while nodes[curr].parent.Some?
        invariant Stored() && curr in nodes && old(nextId) <= nextId
        invariant Step(m0, st0, nodes, st, currEpoch, {}) && FreshFrom(m0, nodes, old(nextId))
        invariant orphan ==>
          ((curr == leaf && nodes == m0) ||
           (curr == m0[leaf].parent.value && forall id | id in m0 && id != leaf :: id in nodes && nodes[id] == m0[id]))
        decreases Depth(nodes, st, curr)
      {
        ghost var m1, st1, n1 := nodes, st, nextId;
        RootIffNoParent(nodes, st, K, curr);
        UpdateHash(curr);
        StepTrans(m0, st0, m1, st1, nodes, st, currEpoch, {});
        FreshFromTrans(m0, m1, nodes, old(nextId), n1);
        ParentAbove(nodes, st, K, curr);
        curr := nodes[curr].parent.value;
      }
      ghost var m1, st1, n1 := nodes, st, nextId;
      RootIffNoParent(nodes, st, K, curr);
      UpdateHash(curr);
      StepTrans(m0, st0, m1, st1, nodes, st, currEpoch, {});
      FreshFromTrans(m0, m1, nodes, old(nextId), n1);
      currRoot := curr;
      if nodes[curr].next.Some? {
        RootNext(nodes, st, K, curr);
        currRoot := nodes[curr].next.value;
      }
      if orphan {
        var r := m0[leaf].parent.value;
        assert curr == r && m1[r] == m0[r];
        if m0[r].next.Some? {
          RootNext(m0, st0, K, r);
        }
      }
    }

    /**
     * splitNode's re-parenting of one of botHalf's children: the child in
     * bot's slot takes bot as its parent; an old child is versioned first
     * and the version takes its place in the slot.
     */
    method ReparentChild(bot: Id, right: bool)
      requires Stored() && bot in nodes && nodes[bot].epoch == currEpoch && nodes[bot].prefix != []
      modifies this`nodes, this`nextId, this`st
      ensures Stored() && Step(old(nodes), old(st), nodes, st, currEpoch, {})
      ensures FreshFrom(old(nodes), nodes, old(nextId)) && old(nextId) <= nextId
      ensures Reparented(old(nodes), nodes, bot, right, currEpoch)
    {
      LinkedAtOf(nodes, st, K, bot);
      var child := Slotted(nodes[bot], right);
      if child.Some? {
        var c := child.value;
        if nodes[c].epoch < currEpoch {
          ghost var m0, st0 := nodes, st;
          var m := MakeNextMetadata(c);
          ghost var m1, st1, n1 := nodes, st, nextId;
          ReparentOld(m0, st0, m1, K, currEpoch, bot, right, c, m);
          AttachWrite(nodes, st, K, currEpoch, nextId, bot, right, m);
          nodes := nodes[bot := WithSlot(nodes[bot], right, m)][m := nodes[m].(parent := Some(bot))];
          StepTrans(old(nodes), old(st), m1, st1, nodes, st, currEpoch, {});
          FreshFromTrans(old(nodes), m1, nodes, old(nextId), n1);
        } else {
          ParentWrite(nodes, st, K, currEpoch, nextId, c, bot);
          nodes := nodes[c := nodes[c].(parent := Some(bot))];
        }
      }
    }

    /** The middle of splitNode: botHalf's children take it as their parent, then botHalf is rehashed. */
    method AdoptChildren(bot: Id)
      requires Stored() && bot in nodes && nodes[bot].epoch == currEpoch && nodes[bot].prefix != []
      modifies this`nodes, this`nextId, this`st
      ensures Stored() && Step(old(nodes), old(st), nodes, st, currEpoch, {})
      ensures FreshFrom(old(nodes), nodes, old(nextId)) && old(nextId) <= nextId
      ensures nodes[bot].values == old(nodes[bot].values)
      ensures Adopted(nodes, bot, false, Slotted(old(nodes[bot]), false))
      ensures Adopted(nodes, bot, true, Slotted(old(nodes[bot]), true))
    {
      LinkedAtOf(nodes, st, K, bot);
      ReparentChild(bot, false);
      ghost var m1, st1, n1 := nodes, st, nextId;
      ReparentChild(bot, true);
      ghost var m2, st2, n2 := nodes, st, nextId;
      LinkedAtOf(m1, st1, K, bot);
      AdoptedKept(m1, m2, bot, false, Slotted(old(nodes[bot]), false));
      UpdateHash(bot);
      AdoptedRehash(m2, nodes, bot, FreshHash(crypto, m2, bot), currEpoch,
                    Slotted(old(nodes[bot]), false), Slotted(old(nodes[bot]), true));
      StepTrans(m1, st1, m2, st2, nodes, st, currEpoch, {});
      StepTrans(old(nodes), old(st), m1, st1, nodes, st, currEpoch, {});
      FreshFromTrans(m1, m2, nodes, n1, n2);
      FreshFromTrans(old(nodes), m1, nodes, old(nextId), n1);
    }

    /** The record to edit for x in the current epoch: x itself, or a new version of it when x is old. */
    method CurrentVersion(x: Id) returns (m: Id)
      requires Stored() && x in nodes
      modifies this`nodes, this`nextId, this`st
      ensures Stored() && Step(old(nodes), old(st), nodes, st, currEpoch, {})
      ensures FreshFrom(old(nodes), nodes, old(nextId)) && old(nextId) <= nextId
      ensures m in nodes && nodes[m].epoch == currEpoch && nodes[m].prefix == old(nodes[x].prefix) && st[m] == old(st[x])
      ensures Slotted(nodes[m], false).Some? == Slotted(old(nodes[x]), false).Some?
      ensures Slotted(nodes[m], true).Some? == Slotted(old(nodes[x]), true).Some?
      ensures m == x || (old(nodes[x].epoch) < currEpoch && nodes[x].next == Some(m) && m !in old(nodes))
      ensures ValuesKept(old(nodes), nodes) && SlotsAbove(old(nodes), old(st), nodes, old(End(nodes, st, x)), false, false)
      ensures forall id | id in old(nodes) && old(nodes[id]).epoch == currEpoch :: id in nodes && nodes[id].parent == old(nodes[id].parent)
    {
      m := x;
      LinkedAtOf(nodes, st, K, x);
      if nodes[x].epoch < currEpoch {
        m := MakeNextMetadata(x);
        SlotsAboveWeaken(old(nodes), old(st), nodes, old(st[x]), SideOf(old(nodes[x])), old(nodes[x].prefix) != [],
                         old(End(nodes, st, x)), false, false);
      }
    }

    /**
     * The end of splitNode: topHalf goes into the slot of node's parent, or
     * of a new version of the parent when the parent is old, and takes that
     * record as its parent.
     */
    method HangTop(parent: Id, right: bool, top: Id)
      requires Stored() && top in nodes && parent in nodes && nodes[top].epoch == currEpoch
      requires nodes[top].prefix != [] && Slot(nodes[top].prefix[0]) == right && End(nodes, st, parent) == st[top]
      requires nodes[parent].prefix != [] ==> Slotted(nodes[parent], right).Some?
      modifies this`nodes, this`nextId, this`st
      ensures Stored() && Step(old(nodes), old(st), nodes, st, currEpoch, {})
      ensures FreshFrom(old(nodes), nodes, old(nextId)) && old(nextId) <= nextId
      ensures top in nodes && nodes[top].parent.Some? && nodes[top].parent.value in nodes
      ensures Slotted(nodes[nodes[top].parent.value], right) == Some(top)
      ensures var m := nodes[top].parent.value;
        m == parent || (old(nodes[parent].epoch) < currEpoch && nodes[parent].next == Some(m) && m !in old(nodes))
      ensures WritesAbove(old(nodes), old(st), nodes, old(st[top]), right, currEpoch, top)
    {
      var m := CurrentVersion(parent);
      ghost var m1, st1, n1 := nodes, st, nextId;
      SlotsAboveWeaken(old(nodes), old(st), m1, End(old(nodes), old(st), parent), false, false, old(st[top]), right, true);
      LinkedAtOf(nodes, st, K, m);
      AttachWrite(nodes, st, K, currEpoch, nextId, m, right, top);
      AttachAbove(nodes, st, m, right, top);
      nodes := nodes[m := WithSlot(nodes[m], right, top)][top := nodes[top].(parent := Some(m))];
      SlotsAboveTrans(old(nodes), old(st), m1, st1, nodes, old(st[top]), right, true);
      ValuesKeptTrans(old(nodes), m1, nodes);
      StepTrans(old(nodes), old(st), m1, st1, nodes, st, currEpoch, {});
      FreshFromTrans(old(nodes), m1, nodes, old(nextId), n1);
    }

    /**
     * The first part of splitNode: topHalf with botHalf in its slot, and
     * botHalf with the rest of node's label, node's values and node's
     * children, which take botHalf as their parent (a new version of an old
     * child takes its place).
     */
    method MakeHalves(node: Id, idx: nat) returns (top: Id, ghost bot: Id)
      requires Stored() && node in nodes && 0 < idx < |nodes[node].prefix|
      modifies this`nodes, this`nextId, this`st
      ensures Stored() && Step(old(nodes), old(st), nodes, st, currEpoch, {top, bot})
      ensures FreshFrom(old(nodes), nodes, old(nextId)) && old(nextId) <= nextId
      ensures top !in old(nodes) && bot !in old(nodes) && top != bot && top in nodes && bot in nodes
      ensures TopHalfOf(nodes, st, top, old(nodes[node]), old(st[node]), idx, currEpoch)
      ensures BotHalfOf(nodes, st, bot, old(nodes[node]), old(st[node]), idx, currEpoch)
    {
      var n := nodes[node];
      LinkedAtOf(nodes, st, K, node);
      var botHalf := nextId + 1;
      top, bot := nextId, botHalf;
      // topHalf is made with botHalf already in its slot: nothing in between reads that slot.
      HalvesWrite(nodes, st, K, currEpoch, nextId, node, idx,
                  Halved(nodes, node, idx, top, botHalf, currEpoch), st[top := st[node]][botHalf := st[node] + idx]);
      nodes := Halved(nodes, node, idx, top, botHalf, currEpoch);
      st := st[top := st[node]][botHalf := st[node] + idx];
      nextId := nextId + 2;
      ghost var m0, st0, n0 := nodes, st, nextId;
      assert SamePattern(nodes[bot], n);

      AdoptChildren(botHalf);
      StepThen(old(nodes), old(st), old(nextId), m0, st0, n0, nodes, st, currEpoch, {top, bot});
      assert ShapeAt(m0, nodes, top) && ShapeAt(m0, nodes, bot);
    }

    /**
     * splitNode: cut node's label at idx. topHalf takes the first idx bits
     * and hangs from node's parent (or a new version of it, when the parent
     * is old) in node's slot; botHalf takes the rest of the label, node's
     * values and children, and hangs from topHalf. node itself is left as
     * it was. The ghost bot is botHalf.
     */
    method SplitNode(node: Id, idx: nat) returns (top: Id, ghost bot: Id)
      requires Stored() && node in nodes && 0 < idx < |nodes[node].prefix|
      modifies this`nodes, this`nextId, this`st
      ensures Stored() && Step(old(nodes), old(st), nodes, st, currEpoch, {top, bot})
      ensures FreshFrom(old(nodes), nodes, old(nextId)) && old(nextId) <= nextId
      ensures top !in old(nodes) && bot !in old(nodes) && top != bot && top in nodes && bot in nodes
      ensures TopHalfOf(nodes, st, top, old(nodes[node]), old(st[node]), idx, currEpoch)
      ensures BotHalfOf(nodes, st, bot, old(nodes[node]), old(st[node]), idx, currEpoch)
    {
      var n := nodes[node];
      ParentAbove(nodes, st, K, node);
      LinkedAtOf(nodes, st, K, node);
      var parent := n.parent.value;
      top, bot := MakeHalves(node, idx);
      ghost var m0, st0, n0 := nodes, st, nextId;
      LinkedAtOf(nodes, st, K, bot);
      HangTop(parent, Slot(n.prefix[0]), top);
      SplitFinish(old(nodes), old(st), old(nextId), m0, st0, n0, nodes, st, K, currEpoch,
                  n, old(st[node]), idx, top, bot, Slot(n.prefix[0]));
    }

    // -------------------------------------------------------------------
    // Insert.

    /**
     * Insert on a key already present: the value goes to the end of the
     * leaf's values, in a new version of the leaf when the leaf is old.
     */
    method AddValue(leaf: Id, kh: KeyHash) returns (v: Id)
      requires Valid() && leaf in nodes
      modifies this`nodes, this`nextId, this`st
      ensures Valid() && Evolves(old(nodes), nodes, currEpoch) && Extends(old(st), st)
      ensures v in nodes && nodes[v].values == old(nodes[leaf].values) + [kh] && nodes[v].prefix == old(nodes[leaf].prefix)
      ensures v == leaf || (old(nodes[leaf].epoch) < currEpoch && nodes[leaf].next == Some(v) && v !in old(nodes))
    {
      v := leaf;
      if nodes[leaf].epoch < currEpoch {
        v := MakeNextMetadata(leaf);
      }
      ghost var m1, st1 := nodes, st;
      ValuesWrite(nodes, st, K, currEpoch, nextId, v, kh);
      nodes := nodes[v := nodes[v].(values := nodes[v].values + [kh])];
      StepTrans(old(nodes), old(st), m1, st1, nodes, st, currEpoch, {});
      BalancedStep(old(nodes), old(st), nodes, st, K, currEpoch, {});
    }

    /**
     * Insert on an empty slot of the current root: a new leaf with the
     * whole key as its label, under the root, goes into the slot (of a new
     * version of the root when the root is old). Like the source, the leaf
     * keeps the root it was made under as its parent.
     */
    method AttachLeaf(rest: Bytes, kh: KeyHash) returns (leaf: Id, ghost target: Id)
      requires Valid() && |rest| == K && IsBits(rest) && Slotted(nodes[currRoot], Slot(rest[0])).None?
      modifies this`nodes, this`nextId, this`st
      ensures Valid() && Evolves(old(nodes), nodes, currEpoch) && Extends(old(st), st)
      ensures leaf !in old(nodes) && leaf in nodes && nodes[leaf].prefix == rest && st[leaf] == 0
      ensures target in nodes && nodes[target].prefix == [] && Slotted(nodes[target], Slot(rest[0])) == Some(leaf)
      ensures target == currRoot || (old(nodes[currRoot].epoch) < currEpoch && nodes[currRoot].next == Some(target))
      ensures old(nodes[currRoot].epoch) < currEpoch && old(nodes[currRoot].left).None? && old(nodes[currRoot].right).None? ==>
        OrphanedLeaf(nodes, leaf, currEpoch) && nodes[leaf].parent == Some(currRoot) &&
        nodes[currRoot].next == Some(target) && nodes[target].hash == old(nodes[currRoot].hash)
    {
      var root := currRoot;
      leaf := nextId;
      LinkedAtOf(nodes, st, K, root);
      RootIffNoParent(nodes, st, K, root);
      LeafUnderRoot(nodes, st, K, currEpoch, nextId, root, rest, kh);
      nodes := nodes[leaf := NewLeaf(rest, kh, currEpoch, root)];
      st := st[leaf := End(nodes, st, root)];
      nextId := nextId + 1;
      assert BalancedAt(nodes, st, K, leaf);
      BalancedStep(old(nodes), old(st), nodes, st, K, currEpoch, {leaf});
      ghost var m1, st1 := nodes, st;
      target := UpdateChild(root, Slot(rest[0]), leaf);
      assert BalancedAt(nodes, st, K, target);
      BalancedStep(m1, st1, nodes, st, K, currEpoch, {target});
      EvolvesTrans(old(nodes), m1, nodes, currEpoch);
    }

    /**
     * Insert on a label that differs from the key at its bit j: splitNode
     * cuts the label there, and a new leaf with the rest of the key goes
     * into topHalf's empty slot.
     */
    method SplitInsert(c: Id, j: nat, rest: Bytes, kh: KeyHash) returns (leaf: Id, top: Id)
      requires Valid() && c in nodes && 0 < j < |nodes[c].prefix|
      requires rest != [] && IsBits(rest) && st[c] + j + |rest| == K && rest[0] != nodes[c].prefix[j]
      modifies this`nodes, this`nextId, this`st
      ensures Valid() && Evolves(old(nodes), nodes, currEpoch) && Extends(old(st), st)
      ensures leaf !in old(nodes) && leaf in nodes && nodes[leaf].prefix == rest && st[leaf] == old(st[c]) + j
      ensures top !in old(nodes) && top in nodes && nodes[top].prefix == old(nodes[c].prefix[..j])
      ensures Slotted(nodes[top], Slot(rest[0])) == Some(leaf) && Slotted(nodes[top], !Slot(rest[0])).Some?
    {
      ghost var bot;
      ghost var m0, st0 := nodes, st;
      top, bot := SplitNode(c, j);
      leaf := nextId;
      SplitLeafStep(m0, st0, nodes, st, K, currEpoch, nextId, c, j, top, bot, rest, kh);
      st := st[leaf := End(nodes, st, top)];
      nodes := nodes[leaf := NewLeaf(rest, kh, currEpoch, top)][top := WithSlot(nodes[top], Slot(rest[0]), leaf)];
      nextId := nextId + 1;
    }

    /**
     * The part of Insert before the hashes are updated: walk the key from
     * the current root and append the value to the key's leaf, or hang a
     * new leaf from the root or from a split label. The leaf returned is
     * the record updateHashesFromLeaf starts from (for a present key, the
     * leaf the walk ended on, not its new version); added says a new leaf
     * was made, which happens exactly when the key was not in the current
     * trie.
     */
    method Place(prefix: Bytes, kh: KeyHash) returns (leaf: Id, added: bool)
      requires Valid() && |prefix| == K && IsBits(prefix)
      modifies this`nodes, this`nextId, this`st
      ensures Valid() && Evolves(old(nodes), nodes, currEpoch) && Extends(old(st), st) && leaf in nodes
      ensures added <==> old(Lookup(View(currEpoch), prefix)).None?
      ensures old(nodes[currRoot].epoch) < currEpoch && old(nodes[currRoot].left).None? && old(nodes[currRoot].right).None? ==>
        OrphanedLeaf(nodes, leaf, currEpoch) && nodes[leaf].parent == Some(currRoot) &&
        nodes[currRoot].next.Some? && nodes[currRoot].next.value in nodes &&
        nodes[nodes[currRoot].next.value].hash == old(nodes[currRoot].hash)
    {
      FullKeyWalk(nodes, st, K, currRoot, prefix);
      var at, next, i, j := InsertWalk(nodes, st, K, currRoot, prefix, View(currEpoch));
      if i == |prefix| {
        var v := AddValue(at, kh);
        leaf, added := at, false;
      } else if next.None? {
        ghost var target;
        leaf, target := AttachLeaf(prefix, kh);
        added := true;
      } else {
        var top;
        leaf, top := SplitInsert(next.value, j, prefix[i..], kh);
        added := true;
      }
    }

    /**
     * Insert: add the value hash and position under a key of K bits, then
     * update the hashes from the leaf up. The size of the current epoch
     * grows by one exactly when the key was not in the current trie, and
     * every past epoch keeps its trie, its root hash, and whether the
     * hashes below its root are stored.
     */
    method Insert(prefix: Bytes, valHash: Bytes, pos: nat)
      requires Valid() && |prefix| == K && IsBits(prefix)
      modifies this`nodes, this`nextId, this`st, this`currRoot, this`sizesAtEpoch
      ensures Valid() && roots == old(roots) && currEpoch == old(currEpoch)
      ensures Evolves(old(nodes), nodes, currEpoch) && Extends(old(st), st)
      ensures sizesAtEpoch == old(sizesAtEpoch)[currEpoch := old(sizesAtEpoch[currEpoch]) +
        (if old(Lookup(View(currEpoch), prefix)).Some? then 0 else 1)]
      ensures forall e | 0 <= e < currEpoch :: View(e) == old(View(e)) && GetHash(e) == old(GetHash(e))
      ensures forall e | 0 <= e < currEpoch :: old(HashedAt(e)) <==> HashedAt(e)
      ensures old(nodes[currRoot].epoch) < currEpoch && old(nodes[currRoot].left).None? && old(nodes[currRoot].right).None? ==>
        (nodes[currRoot].left.None? && nodes[currRoot].right.None?) || nodes[currRoot].hash == old(nodes[currRoot].hash)
    {
      ghost var m0, st0 := nodes, st;
      var leaf, added := Place(prefix, KeyHash(valHash, pos));
      if added {
        sizesAtEpoch := sizesAtEpoch[currEpoch := sizesAtEpoch[currEpoch] + 1];
      }
      ghost var m1, st1 := nodes, st;
      UpdateHashesFromLeaf(leaf);
      BalancedStep(m1, st1, nodes, st, K, currEpoch, {});
      EvolvesTrans(m0, m1, nodes, currEpoch);
      PastKept(m0, st0, nodes, st, K, currEpoch, roots, crypto);
    }

    // -------------------------------------------------------------------
    // Queries and proofs.

    /**
     * getLeaf: from the root of the epoch, step to the child the next key
     * byte selects and consume its whole label; the record where the key
     * is used up, or none at a missing child or at a label that is not the
     * next part of the key.
     */
    method LeafAt(prefix: Bytes, epoch: nat) returns (r: Option<Id>)
      requires Valid() && epoch <= currEpoch && WalkSafe(View(epoch), prefix)
      ensures r.Some? <==> Walk(View(epoch), prefix).Reached?
      ensures r.Some? ==> r.value in nodes && Sub(View(epoch), Walk(View(epoch), prefix).path) == Some(ViewOf(nodes, st, K, r.value))
    {
      ghost var t := View(epoch);
      var curr := GetRootAtEpoch(epoch);
      var i := 0;
      ghost var q, s := [], t;
      WalkAtRoot(t, prefix);
      while i < |prefix|
        invariant WalkAt(t, prefix, q, s, i) && i <= |prefix|
        invariant curr in nodes && s == ViewOf(nodes, st, K, curr) && nodes[curr].epoch <= epoch
        decreases |prefix| - i
      {
        if nodes[curr].epoch > epoch {
          assert false;
        }
        ProbeStep(nodes, st, K, t, prefix, q, curr, i);
        var next := Slotted(nodes[curr], Slot(prefix[i]));
        if next.None? {
          ProbeMissing(nodes, st, K, t, prefix, q, curr, i);
          return None;
        }
        var pp := nodes[next.value].prefix;
        if prefix[i..i + |pp|] != pp {
          ProbeDiverges(nodes, st, K, t, prefix, q, curr, i);
          return None;
        }
        q, s := q + [Slot(prefix[i])], ViewOf(nodes, st, K, next.value);
        curr, i := next.value, i + |pp|;
      }
      WalkAtEnd(t, prefix, q, s, i);
      r := Some(curr);
    }

    /**
     * LookupPath: the records getLeaf passes through below the root, for a
     * key whose walk is used up; an error for an epoch still to come and
     * for a key the walk does not reach.
     */
    method LookupPath(prefix: Bytes, epoch: nat) returns (r: Result<seq<Id>>)
      requires Valid() && (epoch <= currEpoch ==> WalkSafe(View(epoch), prefix))
      ensures epoch > currEpoch ==> r == Err("epoch hasn't occurred yet")
      ensures epoch <= currEpoch ==> (r.Ok? <==> Walk(View(epoch), prefix).Reached?)
      ensures epoch <= currEpoch && r.Ok? ==> r.value == Spine(View(epoch), Walk(View(epoch), prefix).path)
      ensures epoch <= currEpoch && r.Err? ==> r.msg == "key doesn't exist in tree at epoch " + DecimalText(epoch)
    {
      if epoch > currEpoch {
        return Err("epoch hasn't occurred yet");
      }
      var missing := Err("key doesn't exist in tree at epoch " + DecimalText(epoch));
      ghost var t := View(epoch);
      var ret: seq<Id> := [];
      var curr := GetRootAtEpoch(epoch);
      var i := 0;
      ghost var q, s := [], t;
      WalkAtRoot(t, prefix);
      while i < |prefix|
        invariant WalkAt(t, prefix, q, s, i) && i <= |prefix| && Sub(t, q).Some? && ret == Spine(t, q)
        invariant curr in nodes && s == ViewOf(nodes, st, K, curr) && nodes[curr].epoch <= epoch
        decreases |prefix| - i
      {
        if nodes[curr].epoch > epoch {
          assert false;
        }
        ProbeStep(nodes, st, K, t, prefix, q, curr, i);
        var next := Slotted(nodes[curr], Slot(prefix[i]));
        if next.None? {
          ProbeMissing(nodes, st, K, t, prefix, q, curr, i);
          return missing;
        }
        var pp := nodes[next.value].prefix;
        if prefix[i..i + |pp|] != pp {
          ProbeDiverges(nodes, st, K, t, prefix, q, curr, i);
          return missing;
        }
        ProbeSpine(nodes, st, K, t, prefix, q, curr, i);
        ret := ret + [next.value];
        q, s := q + [Slot(prefix[i])], ViewOf(nodes, st, K, next.value);
        curr, i := next.value, i + |pp|;
      }
      WalkAtEnd(t, prefix, q, s, i);
      r := Ok(ret);
    }

    /** GetLeaf: the last record of LookupPath, or none when it fails. */
    method GetLeaf(prefix: Bytes, epoch: nat) returns (r: Option<Id>)
      requires Valid() && (epoch <= currEpoch ==> prefix != [] && WalkSafe(View(epoch), prefix))
      ensures r.Some? <==> epoch <= currEpoch && Walk(View(epoch), prefix).Reached?
      ensures r.Some? ==> r.value == Sub(View(epoch), Walk(View(epoch), prefix).path).value.id
    {
      var ret := LookupPath(prefix, epoch);
      if ret.Err? {
        return None;
      }
      ghost var q := Walk(View(epoch), prefix).path;
      assert q != [];
      SpineAt(View(epoch), q, |q| - 1);
      assert q[..|q|] == q;
      r := Some(ret.value[|ret.value| - 1]);
    }

    /**
     * getPath: the records from the root of the epoch down to leaf, taking
     * at each record the child (left first) whose label is the next part of
     * fullPrefix.
     */
    method GetPath(leaf: Id, fullPrefix: Bytes, epoch: nat, ghost qe: seq<bool>) returns (path: seq<Id>)
      requires Valid() && epoch <= currEpoch && WalkSafe(View(epoch), fullPrefix)
      requires Walk(View(epoch), fullPrefix) == Reached(qe) && Sub(View(epoch), qe).Some? && Sub(View(epoch), qe).value.id == leaf
      ensures path == [RootAt(epoch)] + Spine(View(epoch), qe)
    {
      ghost var t := View(epoch);
      var curr := GetRootAtEpoch(epoch);
      LinkedAtOf(nodes, st, K, curr);
      var i := 0;
      path := [];
      ghost var r := [];
      WalkAtRoot(t, fullPrefix);
      while curr != leaf
        invariant curr in nodes && curr in st && End(nodes, st, curr) == i <= |fullPrefix|
        invariant WalkAt(t, fullPrefix, r, ViewOf(nodes, st, K, curr), i) && Sub(t, r) == Some(ViewOf(nodes, st, K, curr))
        invariant path + [curr] == [RootAt(epoch)] + Spine(t, r)
        invariant i == |fullPrefix| ==> curr == leaf
        decreases |fullPrefix| - i
      {
        PathStep(nodes, st, K, t, fullPrefix, r, curr, i, qe);
        ghost var b := Slot(fullPrefix[i]);
        path := path + [curr];
        var n := nodes[curr];
        if n.left.Some? {
          var leftPrefix := nodes[n.left.value].prefix;
          if |fullPrefix| - i >= |leftPrefix| && fullPrefix[i..i + |leftPrefix|] == leftPrefix {
            r := r + [b];
            curr, i := n.left.value, i + |leftPrefix|;
            continue;
          }
        }
        if n.right.Some? {
          var rightPrefix := nodes[n.right.value].prefix;
          if |fullPrefix| - i >= |rightPrefix| && fullPrefix[i..i + |rightPrefix|] == rightPrefix {
            r := r + [b];
            curr, i := n.right.value, i + |rightPrefix|;
            continue;
          }
        }
        assert false;
      }
      PathEnd(nodes, st, K, RootAt(epoch), fullPrefix, r, curr, i, qe);
      path := path + [curr];
    }

    /**
     * buildCopathFromNodeFromRoot: walking getPath's records from the root,
     * each record's label and the hash of its child off the path, the
     * lowest first; this is the copath of the node at qe.
     */
    method BuildCopathFromNodeFromRoot(leaf: Id, fullPrefix: Bytes, epoch: nat, ghost qe: seq<bool>) returns (copath: seq<CopathEntry>)
      requires Valid() && epoch <= currEpoch && HashedAt(epoch) && WalkSafe(View(epoch), fullPrefix)
      requires Walk(View(epoch), fullPrefix) == Reached(qe) && Sub(View(epoch), qe).Some? && Sub(View(epoch), qe).value.id == leaf
      ensures copath == CopathOf(crypto, View(epoch), qe)
    {
      ghost var t := View(epoch);
      ghost var root := RootAt(epoch);
      var path := GetPath(leaf, fullPrefix, epoch, qe);
      copath := [];
      var curr := GetRootAtEpoch(epoch);
      var k := 1;
      while k < |path|
        invariant 1 <= k <= |path| && curr == path[k - 1] && Sub(t, qe[..k - 1]).Some?
        invariant copath == CopathOf(crypto, t, qe[..k - 1])
        decreases |path| - k
      {
        CopathStep(crypto, nodes, st, K, root, qe, path, k);
        var pathNode := path[k];
        var n := nodes[curr];
        var siblingHash := None;
        if Some(pathNode) == n.left {
          if n.right.Some? {
            siblingHash := nodes[n.right.value].hash;
          }
        } else {
          if n.left.Some? {
            siblingHash := nodes[n.left.value].hash;
          }
        }
        copath := [CopathEntry(LabelEntry(n.prefix), siblingHash)] + copath;
        curr := pathNode;
        k := k + 1;
      }
      SpineEnd(t, qe);
      if curr != leaf {
        assert false;
      }
      assert qe[..k - 1] == qe;
    }

    /**
     * buildCopathFromMissingNode for the empty child slot of the root that
     * generateNonMembershipProof makes up: the root's entry with the hash of
     * its other child, then the (empty) copath of the root.
     */
    method BuildCopathFromMissingNode(parent: Option<Id>, isLeft: bool, epoch: nat) returns (copath: seq<CopathEntry>)
      requires Valid() && epoch <= currEpoch && HashedAt(epoch)
      requires parent.Some? ==> parent.value == RootAt(epoch)
      ensures parent.None? ==> copath == []
      ensures parent.Some? ==> copath == [EntryOf(crypto, View(epoch), !isLeft)]
    {
      copath := [];
      if parent.None? {
        return;
      }
      var parentMeta := nodes[parent.value];
      StoredEntry(crypto, nodes, st, K, parent.value, [], !isLeft);
      var siblingHash: NBytes;
      if isLeft {
        if parentMeta.right.None? {
          siblingHash := None;
        } else {
          siblingHash := nodes[parentMeta.right.value].hash;
        }
      } else {
        if parentMeta.left.None? {
          siblingHash := None;
        } else {
          siblingHash := nodes[parentMeta.left.value].hash;
        }
      }
      copath := copath + [CopathEntry(LabelEntry(parentMeta.prefix), siblingHash)];
      var rest := BuildCopathFromNodeFromRoot(parent.value, [], epoch, []);
      copath := copath + rest;
    }

    /**
     * generateMembershipProof: for a key whose walk reaches a leaf, the
     * leaf's label, its copath and its values; none otherwise.
     */
    method GenerateMembershipProof(prefix: Bytes, epoch: nat) returns (r: Option<(MembershipProof, seq<KeyHash>)>)
      requires Valid() && epoch <= currEpoch && HashedAt(epoch) && MembershipSafe(View(epoch), prefix)
      ensures r == MembershipProofOf(crypto, View(epoch), prefix)
    {
      ghost var t := View(epoch);
      var leaf := LeafAt(prefix, epoch);
      if leaf.None? {
        return None;
      }
      ghost var q := Walk(t, prefix).path;
      LinkedAtOf(nodes, st, K, leaf.value);
      if nodes[leaf.value].left.Some? || nodes[leaf.value].right.Some? {
        assert false;
      }
      var copath := BuildCopathFromNodeFromRoot(leaf.value, prefix, epoch, q);
      r := Some((MembershipProof(nodes[leaf.value].prefix, copath), nodes[leaf.value].values));
    }

    /**
     * generateNonMembershipProof: none when the key is used up on a node;
     * for an empty child of the root, the made-up one-byte node and the
     * root's entry; otherwise the first node whose label leaves the key,
     * with its stored hash and its copath.
     */
    method GenerateNonMembershipProof(prefix: Bytes, epoch: nat) returns (r: Option<NonMembershipProof>)
      requires Valid() && epoch <= currEpoch && HashedAt(epoch) && NonMembershipSafe(View(epoch), prefix)
      ensures r == NonMembershipProofOf(crypto, View(epoch), prefix)
    {
      ghost var t := View(epoch);
      var root := GetRootAtEpoch(epoch);
      var curr, next, i, conflictingPrefix, q := ProbeForConflict(prefix, epoch);
      if i == |prefix| {
        WalkAtEnd(t, prefix, q, ViewOf(nodes, st, K, curr), i);
        return None;
      }
      if next.None? {
        var proof := MissingChildProof(root, curr, prefix[i], epoch, prefix, q, i, t);
        return Some(proof);
      }
      var proof := ConflictProof(curr, next.value, conflictingPrefix, epoch, prefix, q, i, t);
      r := Some(proof);
    }

    /**
     * The walk of generateNonMembershipProof: from the root of the epoch,
     * step to the child the next key byte selects while its label is the
     * next part of the key, gathering the labels in conflictingPrefix. It
     * stops with the key used up, at an empty slot (next is none), or at a
     * child whose label leaves the key, which conflictingPrefix then ends
     * with.
     */
    method ProbeForConflict(prefix: Bytes, epoch: nat)
      returns (curr: Id, next: Option<Id>, i: nat, conflictingPrefix: Bytes, ghost q: seq<bool>)
      requires Valid() && epoch <= currEpoch && WalkSafe(View(epoch), prefix)
      ensures curr in nodes && i <= |prefix| && (q == [] ==> curr == RootAt(epoch))
      ensures WalkAt(View(epoch), prefix, q, ViewOf(nodes, st, K, curr), i)
      ensures i < |prefix| ==> next == Slotted(nodes[curr], Slot(prefix[i]))
      ensures i < |prefix| && next.Some? ==>
        next.value in nodes && i + |nodes[next.value].prefix| <= |prefix| &&
        prefix[i..i + |nodes[next.value].prefix|] != nodes[next.value].prefix &&
        conflictingPrefix == prefix[..i] + nodes[next.value].prefix
    {
      ghost var t := View(epoch);
      var root := GetRootAtEpoch(epoch);
      curr, next, i, conflictingPrefix := root, None, 0, [];
      ghost var s := t;
      q := [];
      WalkAtRoot(t, prefix);
      while i < |prefix|
        invariant curr in nodes && nodes[curr].epoch <= epoch && i <= |prefix| && s == ViewOf(nodes, st, K, curr)
        invariant WalkAt(t, prefix, q, s, i) && (q == [] ==> curr == root)
        invariant conflictingPrefix == prefix[..i]
        decreases |prefix| - i
      {
        if nodes[curr].epoch > epoch {
          assert false;
        }
        var b := Slot(prefix[i]);
        ProbeStep(nodes, st, K, t, prefix, q, curr, i);
        next := Slotted(nodes[curr], b);
        if next.None? {
          return;
        }
        var partialPrefix := nodes[next.value].prefix;
        if prefix[i..i + |partialPrefix|] != partialPrefix {
          conflictingPrefix := conflictingPrefix + partialPrefix;
          return;
        }
        conflictingPrefix := conflictingPrefix + partialPrefix;
        assert prefix[..i + |partialPrefix|] == prefix[..i] + prefix[i..i + |partialPrefix|];
        assert prefix[i..][..|partialPrefix|] == prefix[i..i + |partialPrefix|];
        q, s := q + [b], ViewOf(nodes, st, K, next.value);
        curr, i := next.value, i + |partialPrefix|;
      }
    }

    /**
     * generateNonMembershipProof at an empty child slot of prev, the slot of
     * the key byte i: prev is the root (any other record has both
     * children), and the answer is the made-up one-byte node with the
     * root's entry.
     */
    method MissingChildProof(root: Id, prev: Id, keyByte: byte, epoch: nat, ghost key: Bytes, ghost q: seq<bool>, ghost i: nat, ghost t: Node)
      returns (r: NonMembershipProof)
      requires Valid() && epoch <= currEpoch && HashedAt(epoch) && t == View(epoch) && NonMembershipSafe(t, key)
      requires root == RootAt(epoch) && prev in nodes && (q == [] ==> prev == root)
      requires i < |key| && keyByte == key[i] && Slotted(nodes[prev], Slot(keyByte)).None?
      requires WalkAt(t, key, q, ViewOf(nodes, st, K, prev), i)
      ensures Some(r) == NonMembershipProofOf(crypto, t, key)
    {
      ProbeMissing(nodes, st, K, t, key, q, prev, i);
      if prev != root {
        assert false;
      }
      var missingIsLeft := keyByte == 0;
      var copath := BuildCopathFromMissingNode(Some(root), missingIsLeft, epoch);
      NoChildProof(crypto, t, key, Slot(keyByte));
      r := NonMembershipProof(None, [keyByte], copath);
    }

    /**
     * generateNonMembershipProof at the record next in the slot of the key
     * byte i of curr, whose label is not the next part of the key: next's
     * stored hash and label, and the copath of next, found by the key cut
     * at the end of next's label.
     */
    method ConflictProof(curr: Id, next: Id, conflictingPrefix: Bytes, epoch: nat, ghost key: Bytes, ghost q: seq<bool>, ghost i: nat, ghost t: Node)
      returns (r: NonMembershipProof)
      requires Valid() && epoch <= currEpoch && HashedAt(epoch) && t == View(epoch) && NonMembershipSafe(t, key)
      requires curr in nodes && i < |key| && Slotted(nodes[curr], Slot(key[i])) == Some(next) && next in nodes
      requires WalkAt(t, key, q, ViewOf(nodes, st, K, curr), i)
      requires i + |nodes[next].prefix| <= |key| && key[i..i + |nodes[next].prefix|] != nodes[next].prefix
      requires conflictingPrefix == key[..i] + nodes[next].prefix
      ensures Some(r) == NonMembershipProofOf(crypto, t, key)
    {
      ProbeDiverges(nodes, st, K, t, key, q, curr, i);
      ghost var p := q + [Slot(key[i])];
      var copath := BuildCopathFromNodeFromRoot(next, conflictingPrefix, epoch, p);
      DivergesProof(crypto, HashesOf(nodes), t, key, p, ViewOf(nodes, st, K, next));
      r := NonMembershipProof(nodes[next].hash, nodes[next].prefix, copath);
    }
  }

  /** fmt's %d of a natural number. */
  function DecimalText(n: nat): (s: string)
    ensures |s| > 0 && forall i :: 0 <= i < |s| ==> '0' <= s[i] <= '9'
  {
    if n < 10 then ["0123456789"[n]] else DecimalText(n / 10) + ["0123456789"[n % 10]]
  }

  /**
   * Insert as written, on the first key put into a fresh tree after
   * NextEpoch (what a new partition's first Append does): updateLeftChild
   * or updateRightChild hangs the leaf from a new version of the old root,
   * but the leaf's parent stays the old root, so updateHashesFromLeaf
   * rehashes the old, childless root. Either that hash differs from the
   * nil one and the old root gets a second, childless version that becomes
   * the current root (the key is lost), or it does not and the current
   * root is the version holding the leaf, with the old root's nil hash.
   */
  method FirstInsertLost(c: Primitives, key: Bytes, valHash: Bytes) returns (t: PersistentPrefixTree)
    requires |key| > 0 && IsBits(key)
    ensures fresh(t) && t.Valid() && t.currEpoch == 1
    ensures Lookup(t.View(1), key).None? || t.GetHash(1).None?
  {
    t := new PersistentPrefixTree(c, |key|);
    t.NextEpoch();
    t.Insert(key, valHash, 0);
  }
}
