/**
 * The persistent prefix tree of core/persistent_prefix_tree.go as its
 * design intends it, on values: every past epoch keeps its trie and the
 * root hash it reported, and an insert changes the current epoch's trie
 * alone, rehashing the key's leaf and every node above it up to the
 * current root.
 *
 * It is the corrected counterpart of PersistentTrees.PersistentPrefixTree,
 * whose Insert, as written, hangs a new leaf under a new version of a node
 * but rehashes from the old version: the first key of an epoch can be lost
 * and the current root's hash can be stale (PersistentTrees.FirstInsertLost).
 * The partitions are modelled over this one.
 */
module VersionedTries {
  import opened Wrappers
  import opened Bits
  import opened Crypto
  import opened Copath
  import opened TrieSpec
  import opened TrieWalk
  import opened PrefixTrees
  import opened LegologProofs

  /** A root without children: the trie of a tree nothing was ever inserted in. */
  predicate Bare(t: Node)
  {
    t.Inner? && t.left.None? && t.right.None?
  }

  /**
   * The hash getHash reports for a trie: nil while the root was never
   * hashed (nothing was inserted), the trie's hash once it was.
   */
  function RootHash(c: Primitives, t: Node): (r: NBytes)
    ensures r.Some? ==> r.value == HashOf(c, t)
    ensures r.None? && t.prefix == [] ==> forall x :: Lookup(t, x).None?
  {
    if Bare(t) then None else Some(HashOf(c, t))
  }

  class VersionedTrie {
    /** The trie of every past epoch, by epoch (the source's roots). */
    var roots: seq<Node>
    /** The root hash of every past epoch. */
    var rootHashes: seq<NBytes>
    /** The trie of the current epoch. */
    var currRoot: Node
    /** The hash of the current root. */
    var currHash: NBytes
    /** The number of distinct keys of every epoch, the current one last. */
    var sizesAtEpoch: seq<nat>
    /** The identity the next new leaf gets; a node created by a split takes the one after. */
    var nextId: Id
    const crypto: Primitives

    /** Every epoch's trie is over hashed identifiers and its root hash is RootHash of it. */
    ghost predicate Valid()
      reads this
    {
      |rootHashes| == |roots| && |sizesAtEpoch| == |roots| + 1 &&
      Uniform(currRoot) && currHash == RootHash(crypto, currRoot) &&
      forall e :: 0 <= e < |roots| ==> Uniform(roots[e]) && rootHashes[e] == RootHash(crypto, roots[e])
    }

    /** getRootAtEpoch: the trie epoch e sees; the current epoch is the number of past ones. */
    function View(e: nat): (t: Node)
      reads this
      requires Valid() && e <= |roots|
      ensures Uniform(t)
    {
      if e == |roots| then currRoot else roots[e]
    }

    /** NewPersistentPrefixTree: an empty root at epoch 0 of size 0. */
    constructor (c: Primitives)
      ensures Valid() && crypto == c
      ensures roots == [] && currRoot == EmptyTree() && currHash.None? && sizesAtEpoch == [0]
    {
      crypto := c;
      roots, rootHashes := [], [];
      currRoot, currHash := EmptyTree(), None;
      sizesAtEpoch := [0];
      nextId := 1;
    }

    /**
     * getHash: the root hash of the epoch, the trie's hash, or nil for an
     * epoch whose trie holds no key.
     */
    function GetHash(e: nat): (r: NBytes)
      reads this
      requires Valid() && e <= |roots|
      ensures r.Some? ==> r.value == HashOf(crypto, View(e))
      ensures r.None? ==> forall x :: Lookup(View(e), x).None?
    {
      if e == |roots| then currHash else rootHashes[e]
    }

    /** getSize: the number of distinct keys the epoch's trie holds. */
    function GetSize(e: nat): nat
      reads this
      requires Valid() && e <= |roots|
    {
      sizesAtEpoch[e]
    }

    /** NextEpoch: freeze the current trie, its hash and its size; the new epoch starts from them. */
    method NextEpoch()
      requires Valid()
      modifies this`roots, this`rootHashes, this`sizesAtEpoch
      ensures Valid() && roots == old(roots) + [currRoot] && rootHashes == old(rootHashes) + [currHash]
      ensures sizesAtEpoch == old(sizesAtEpoch) + [old(sizesAtEpoch)[|old(roots)|]]
      ensures forall e | 0 <= e < |roots| :: View(e) == old(View(e)) && GetHash(e) == old(GetHash(e))
      ensures View(|roots|) == View(|roots| - 1) && GetHash(|roots|) == GetHash(|roots| - 1)
    {
      sizesAtEpoch := sizesAtEpoch + [sizesAtEpoch[|roots|]];
      roots, rootHashes := roots + [currRoot], rootHashes + [currHash];
    }

    /**
     * Insert: the value hash and position join the key's leaf in the
     * current epoch's trie (a new leaf when the key is absent) and the
     * root's hash is that of the new trie; every other key keeps its
     * values, every past epoch its trie and hash, and the current size
     * grows by one exactly when the key was absent.
     */
    method Insert(prefix: Bytes, valHash: Bytes, pos: nat)
      requires Valid() && |prefix| == 8 * DigestLen && IsBits(prefix)
      modifies this`currRoot, this`currHash, this`sizesAtEpoch, this`nextId
      ensures Valid()
      ensures Lookup(currRoot, prefix) == Some(old(ValuesAt(currRoot, prefix)) + [KeyHash(valHash, pos)])
      ensures forall x :: x != prefix ==> Lookup(currRoot, x) == old(Lookup(currRoot, x))
      ensures currHash == Some(HashOf(crypto, currRoot))
      ensures sizesAtEpoch == old(sizesAtEpoch)[|roots| := old(sizesAtEpoch)[|roots|] +
        (if old(Lookup(currRoot, prefix)).Some? then 0 else 1)]
    {
      var kh := KeyHash(valHash, pos);
      var added := Lookup(currRoot, prefix).None?;
      InsertFacts(currRoot, prefix, kh, nextId);
      var n := InsertBelow(currRoot, prefix, kh, nextId);
      var h := Some(HashOf(crypto, n));
      assert h == RootHash(crypto, n) by {
        assert Lookup(n, prefix).Some?;
      }
      currRoot, currHash := n, h;
      nextId := nextId + 2;
      if added {
        sizesAtEpoch := sizesAtEpoch[|roots| := sizesAtEpoch[|roots|] + 1];
      }
    }
  }

  /** Inserting a hashed identifier's key keeps the trie over hashed identifiers and changes that key alone. */
  lemma InsertFacts(t: Node, key: Bytes, kh: KeyHash, newId: Id)
    requires Uniform(t) && |key| == 8 * DigestLen && IsBits(key)
    ensures CanInsert(t, key) && Uniform(InsertBelow(t, key, kh, newId))
    ensures Lookup(InsertBelow(t, key, kh, newId), key) == Some(ValuesAt(t, key) + [kh])
    ensures forall x :: x != key ==> Lookup(InsertBelow(t, key, kh, newId), x) == Lookup(t, x)
  {
    assert t.prefix + key == key;
    UniformCanInsert(t, key, true);
    InsertWF(t, key, kh, newId, true);
    InsertUniform(t, key, kh, newId);
    InsertLookupSame(t, key, kh, newId, true);
    forall x | x != key
      ensures Lookup(InsertBelow(t, key, kh, newId), x) == Lookup(t, x)
    {
      InsertLookupOther(t, key, kh, newId, true, x);
    }
  }

  /**
   * The round trip at every epoch, the current one included: for a key
   * the epoch's trie holds, the membership proof folds to the root hash
   * getHash reports for the epoch; for a key it does not hold, the
   * non-membership proof passes against that hash.
   */
  lemma EpochRoundTrip(t: VersionedTrie, e: nat, identifier: Bytes)
    requires t.Valid() && e <= |t.roots|
    ensures var key, entry := KeyPrefix(t.crypto, identifier), TrieEntry(t.crypto, t.View(e), identifier);
      if Lookup(t.View(e), key).Some? then
        entry.membershipProof.Some? && MembershipCheckable(key, entry.membershipProof.value) &&
        ComputeRootHashMembership(t.crypto, key, entry.membershipProof.value, entry.leafValues) == t.GetHash(e)
      else ValidateNonMembershipProof(t.crypto, entry.nonMembershipProof, identifier, t.GetHash(e)) == Accepted
  {
    var c, v, key := t.crypto, t.View(e), KeyPrefix(t.crypto, identifier);
    KeySafe(c, v, identifier);
    if Lookup(v, key).Some? {
      WalkLookup(v, key);
      assert v.prefix + key == key;
      MembershipRoundTrip(c, v, key);
    } else {
      if t.GetHash(e).Some? {
        NonMembershipEntryAccepted(c, v, identifier);
      }
    }
  }

  /**
   * The corrected counterpart of PersistentTrees.FirstInsertLost: the
   * first key inserted after NextEpoch into a fresh tree is in the current
   * trie, and the current root hash is that trie's hash.
   */
  method FirstInsertKept(c: Primitives, key: Bytes, valHash: Bytes) returns (t: VersionedTrie)
    requires |key| == 8 * DigestLen && IsBits(key)
    ensures fresh(t) && t.Valid() && |t.roots| == 1
    ensures Lookup(t.View(1), key) == Some([KeyHash(valHash, 0)])
    ensures t.GetHash(1) == Some(HashOf(c, t.View(1))) && t.GetHash(0).None?
  {
    t := new VersionedTrie(c);
    t.NextEpoch();
    assert Lookup(t.currRoot, key).None?;
    t.Insert(key, valHash, 0);
    assert [] + [KeyHash(valHash, 0)] == [KeyHash(valHash, 0)];
  }
}
