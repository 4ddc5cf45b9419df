/**
 * The aggregated-history partition of core/partition_agghist.go. Like the
 * plain partition it keeps a persistent base tree and, per update epoch, a
 * prefix tree of that epoch's updates whose root is logged; instead of a
 * hash chain it keeps a history forest over the base tree's frozen root
 * hashes. Append buffers an update twice (for the update epoch and for the
 * verification period) and inserts it in the base tree at position 0;
 * IncrementVerificationPeriod freezes the base tree's epoch and, from the
 * second period on, appends the root hash of the epoch two before to the
 * forest. GetDigest reports the newest leaf hash of every forest root;
 * GenerateExistenceProof queries the base tree at each forest root's
 * verification period, so that entry i of the proof and root i of the
 * digest speak of the same epoch (ForestPairing).
 */
module AggHistPartitions {
  import opened Wrappers
  import opened Bits
  import opened Crypto
  import opened TrieSpec
  import opened PrefixTrees
  import opened LegologProofs
  import opened EpochTrees
  import opened VersionedTries
  import opened Verifiers
  import opened Partitions
  import HistoryForests
  import ChronTrees

  /**
   * How many of the base tree's epochs the forest holds after v
   * verification periods: each period from the second on adds the epoch
   * two before it, until the forest's capacity is reached.
   */
  function ForestCount(v: nat, cap: nat): (n: nat)
    ensures n <= cap && n < v + 1 && (v >= 1 && v - 1 <= cap ==> n == v - 1)
  {
    var frozen := if v == 0 then 0 else v - 1;
    if frozen < cap then frozen else cap
  }

  /** The forest's leaves for the first n epochs: each epoch's root hash, with the epoch as its verification period. */
  function Frozen(hashes: seq<NBytes>, n: nat): (r: seq<HistoryForests.Entry>)
    requires n <= |hashes|
    ensures |r| == n
  {
    seq(n, k requires 0 <= k < n => HistoryForests.Entry(hashes[k], k))
  }

  /** The newest leaf hash of every forest root, in order. */
  function EntryHashes(newest: seq<HistoryForests.Entry>): (r: seq<NBytes>)
    ensures |r| == |newest|
  {
    seq(|newest|, k requires 0 <= k < |newest| => newest[k].hash)
  }

  /** The base tree's trie at the verification period of every forest root, in order. */
  function BaseTries(newest: seq<HistoryForests.Entry>, roots: seq<Node>): (r: seq<Node>)
    requires forall k :: 0 <= k < |newest| ==> newest[k].period < |roots|
    ensures |r| == |newest|
  {
    seq(|newest|, k requires 0 <= k < |newest| => roots[newest[k].period])
  }

  /** GetRootHash of an update log: Hash() of nothing while it is empty, its root hash after. */
  function LogRootOrEmpty(c: Primitives, log: seq<LogRecord>): (r: Bytes)
    ensures |log| > 0 ==> r == ChronTrees.MTH(c, LogLeaves(c, log))
    ensures |log| == 0 ==> r == c.hash([])
  {
    if |log| == 0 then c.hash([]) else LogRoot(c, log)
  }

  /** Frozen entries read only the hashes they cover. */
  lemma FrozenPrefix(hashes: seq<NBytes>, longer: seq<NBytes>, n: nat)
    requires n <= |hashes| <= |longer| && hashes == longer[..|hashes|]
    ensures Frozen(hashes, n) == Frozen(longer, n)
  {
    forall k | 0 <= k < n
      ensures Frozen(hashes, n)[k] == Frozen(longer, n)[k]
    {
      assert hashes[k] == longer[k];
    }
  }

  /**
   * One more period: unless the forest is full, the frozen entries gain
   * the epoch two periods back, with its hash; a full forest holds the same
   * entries.
   */
  lemma FrozenNext(hashes: seq<NBytes>, v: nat, cap: nat)
    requires v >= 2 && v - 1 <= |hashes|
    ensures var n := ForestCount(v - 1, cap);
      if n < cap then n == v - 2 && Frozen(hashes, n) + [HistoryForests.Entry(hashes[v - 2], v - 2)] == Frozen(hashes, ForestCount(v, cap))
      else Frozen(hashes, n) == Frozen(hashes, ForestCount(v, cap))
  {
  }

  /** The newest leaf of every root of a forest over the first n frozen epochs is one of them, with its own epoch's hash. */
  lemma FrozenNewest(hashes: seq<NBytes>, n: nat)
    requires n <= |hashes|
    ensures forall k :: 0 <= k < |HistoryForests.NewestOf(Frozen(hashes, n))| ==>
      (HistoryForests.NewestOf(Frozen(hashes, n))[k].period < n &&
       HistoryForests.NewestOf(Frozen(hashes, n))[k].hash == hashes[HistoryForests.NewestOf(Frozen(hashes, n))[k].period])
  {
    HistoryForests.NewestAppended(Frozen(hashes, n));
  }

  /**
   * The pairing of GetDigest and GenerateExistenceProof: when every epoch's
   * root hash is that of its trie, the root hash the digest reports for
   * forest root k fits the trie the proof queries for it, for every key.
   */
  lemma ForestPairing(c: Primitives, roots: seq<Node>, hashes: seq<NBytes>, n: nat, key: Bytes)
    requires |hashes| == |roots| && n <= |roots|
    requires forall e :: 0 <= e < |roots| ==> Uniform(roots[e]) && hashes[e] == RootHash(c, roots[e])
    ensures var newest := HistoryForests.NewestOf(Frozen(hashes, n));
      (forall k :: 0 <= k < |newest| ==> newest[k].period < |roots|) &&
      AllUniform(BaseTries(newest, roots)) && Covers(c, EntryHashes(newest), BaseTries(newest, roots), key)
  {
    var newest := HistoryForests.NewestOf(Frozen(hashes, n));
    FrozenNewest(hashes, n);
    var bs, hs := BaseTries(newest, roots), EntryHashes(newest);
    forall k | 0 <= k < |newest|
      ensures Uniform(bs[k]) && (hs[k] == Some(HashOf(c, bs[k])) || (hs[k].None? && Lookup(bs[k], key).None?))
    {
      var e := newest[k].period;
      assert bs[k] == roots[e] && hs[k] == hashes[e] == RootHash(c, roots[e]);
      assert roots[e].prefix == [];
    }
  }

  /** The update roots GetDigest reports fit the query tries they start with, for every key. */
  lemma QueryCovers(c: Primitives, q: seq<Node>, v: seq<Node>, key: Bytes)
    requires AllUniform(q)
    ensures Covers(c, UpdateRoots(c, q + v), q, key)
  {
    RootsCover(c, q, key);
    forall i | 0 <= i < |q|
      ensures UpdateRoots(c, q + v)[i] == UpdateRoots(c, q)[i]
    {
      assert (q + v)[i] == q[i];
    }
  }

  /** The loop of GetDigest over the forest's roots: each root's newest leaf hash, in order. */
  method NewestHashes(f: HistoryForests.HistoryForest, ghost newest: seq<HistoryForests.Entry>) returns (hs: seq<NBytes>)
    requires |f.roots| == |newest|
    requires forall k :: 0 <= k < |f.roots| ==> f.roots[k] in f.nodes && f.nodes[f.roots[k]].newestLeafHash == newest[k].hash
    ensures hs == EntryHashes(newest)
  {
    var roots := f.roots;
    hs := [];
    for i := 0 to |roots|
      invariant |hs| == i && forall k :: 0 <= k < i ==> hs[k] == newest[k].hash
    {
      hs := hs + [f.nodes[roots[i]].newestLeafHash];
    }
  }

  /**
   * The loop of GenerateExistenceProof over the forest's roots: the entry
   * of the base tree's trie at each root's verification period, in order.
   */
  method BaseEntries(f: HistoryForests.HistoryForest, t: VersionedTrie, ghost newest: seq<HistoryForests.Entry>,
                     identifier: Bytes) returns (es: seq<ProofEntry>)
    requires t.Valid() && |f.roots| == |newest|
    requires forall k :: 0 <= k < |f.roots| ==>
      f.roots[k] in f.nodes && f.nodes[f.roots[k]].verificationPeriod == newest[k].period && newest[k].period < |t.roots|
    ensures AllUniform(BaseTries(newest, t.roots)) && es == TrieEntries(t.crypto, BaseTries(newest, t.roots), identifier)
  {
    var roots := f.roots;
    es := [];
    for i := 0 to |roots|
      invariant |es| == i && forall k :: 0 <= k < i ==> es[k] == TrieEntry(t.crypto, t.roots[newest[k].period], identifier)
    {
      var period := f.nodes[roots[i]].verificationPeriod;
      es := es + [TrieEntry(t.crypto, t.View(period), identifier)];
    }
  }

  class AggHistPartition {
    const crypto: Primitives
    const baseTree: VersionedTrie
    const baseTreeForest: HistoryForests.HistoryForest
    /** What was appended to queryUpdateLog, in order. */
    var queryUpdateLog: seq<LogRecord>
    /** The tries of queryUpdatePrefixTrees. */
    var queryUpdateTries: seq<Node>
    /** What was appended to verifyUpdateLog, in order. */
    var verifyUpdateLog: seq<LogRecord>
    /** The tries of verifyUpdatePrefixTrees. */
    var verifyUpdateTries: seq<Node>
    var currUpdatePeriodUpdates: Updates
    var currVerifyPeriodUpdates: Updates
    var epoch: nat
    var verificationPeriod: nat

    /**
     * The base tree has frozen v epochs, one per verification period, and
     * the forest holds the root hashes of the frozen epochs up to two
     * periods back, each with its epoch, as far as its capacity allows.
     */
    ghost predicate Stores(v: nat)
      reads baseTree, baseTreeForest
    {
      baseTree.Valid() && baseTree.crypto == crypto && |baseTree.roots| == v &&
      baseTreeForest.Valid() && baseTreeForest.crypto == crypto &&
      baseTreeForest.leaves == Frozen(baseTree.rootHashes, ForestCount(v, HistoryForests.Cap(baseTreeForest.depth)))
    }

    /**
     * Each update log holds one leaf per update tree of its list, numbered
     * by update epoch up to the current one; both buffers hold hashed
     * identifiers with one leaf hash each.
     */
    ghost predicate Logs()
      reads this
    {
      LogsAt(crypto, currUpdatePeriodUpdates, queryUpdateLog, queryUpdateTries, verifyUpdateLog, verifyUpdateTries, epoch) &&
      Buffered(currVerifyPeriodUpdates)
    }

    ghost predicate Valid()
      reads this, baseTree, baseTreeForest
    {
      Stores(verificationPeriod) && Logs()
    }

    /**
     * NewAggHistPartition: an empty base tree, a history forest of the
     * configured depth, two empty logs and buffers, at update epoch 0 and
     * verification period 0. Any depth is accepted here; a depth of 0 only
     * fails when the forest takes its first leaf (IncrementVerificationPeriod).
     */
    constructor (c: Primitives, aggHistoryDepth: nat)
      ensures Valid() && crypto == c && baseTreeForest.depth == aggHistoryDepth
      ensures verificationPeriod == 0 && epoch == 0 && baseTreeForest.leaves == []
      ensures currUpdatePeriodUpdates == Updates([], []) && currVerifyPeriodUpdates == Updates([], [])
      ensures queryUpdateTries == [] && verifyUpdateTries == [] && baseTree.currRoot == EmptyTree()
    {
      crypto := c;
      baseTree := new VersionedTrie(c);
      baseTreeForest := new HistoryForests.HistoryForest(aggHistoryDepth, c);
      queryUpdateLog, verifyUpdateLog := [], [];
      queryUpdateTries, verifyUpdateTries := [], [];
      currUpdatePeriodUpdates, currVerifyPeriodUpdates := Updates([], []), Updates([], []);
      epoch, verificationPeriod := 0, 0;
    }

    /**
     * Append: the key (the bits of the identifier's hash) and the value's
     * leaf hash join both buffers, and the base tree's current epoch gets
     * them at position 0.
     */
    method Append(username: Bytes, identifier: Bytes, value: Bytes, signature: Bytes)
      requires Valid()
      modifies this`currUpdatePeriodUpdates, this`currVerifyPeriodUpdates, baseTree
      ensures Valid()
      ensures currUpdatePeriodUpdates == Updates(old(currUpdatePeriodUpdates).ids + [KeyPrefix(crypto, identifier)],
        old(currUpdatePeriodUpdates).hashes + [ExpectedLeafHash(crypto, identifier, value, signature)])
      ensures currVerifyPeriodUpdates == Updates(old(currVerifyPeriodUpdates).ids + [KeyPrefix(crypto, identifier)],
        old(currVerifyPeriodUpdates).hashes + [ExpectedLeafHash(crypto, identifier, value, signature)])
      ensures baseTree.roots == old(baseTree.roots) && baseTree.rootHashes == old(baseTree.rootHashes)
      ensures Lookup(baseTree.currRoot, KeyPrefix(crypto, identifier)) ==
        Some(old(ValuesAt(baseTree.currRoot, KeyPrefix(crypto, identifier))) +
             [KeyHash(ExpectedLeafHash(crypto, identifier, value, signature), 0)])
      ensures forall x :: x != KeyPrefix(crypto, identifier) ==> Lookup(baseTree.currRoot, x) == old(Lookup(baseTree.currRoot, x))
    {
      var idHash := KeyPrefix(crypto, identifier);
      var hashBytes := ExpectedLeafHash(crypto, identifier, value, signature);
      AppendUpdate(idHash, hashBytes);
    }

    /** The rest of Append, once the key and the leaf hash are computed. */
    method AppendUpdate(idHash: Bytes, hashBytes: Bytes)
      requires Valid() && |idHash| == 8 * DigestLen && IsBits(idHash)
      modifies this`currUpdatePeriodUpdates, this`currVerifyPeriodUpdates, baseTree
      ensures Valid()
      ensures currUpdatePeriodUpdates == Updates(old(currUpdatePeriodUpdates).ids + [idHash], old(currUpdatePeriodUpdates).hashes + [hashBytes])
      ensures currVerifyPeriodUpdates == Updates(old(currVerifyPeriodUpdates).ids + [idHash], old(currVerifyPeriodUpdates).hashes + [hashBytes])
      ensures baseTree.roots == old(baseTree.roots) && baseTree.rootHashes == old(baseTree.rootHashes)
      ensures Lookup(baseTree.currRoot, idHash) == Some(old(ValuesAt(baseTree.currRoot, idHash)) + [KeyHash(hashBytes, 0)])
      ensures forall x :: x != idHash ==> Lookup(baseTree.currRoot, x) == old(Lookup(baseTree.currRoot, x))
    {
      HashedKeysSnoc(currUpdatePeriodUpdates.ids, idHash);
      HashedKeysSnoc(currVerifyPeriodUpdates.ids, idHash);
      baseTree.Insert(idHash, hashBytes, 0);
      Buffer(idHash, hashBytes);
    }

    /** The assignments of Append: the update joins both buffers. */
    method Buffer(idHash: Bytes, hashBytes: Bytes)
      modifies this`currUpdatePeriodUpdates, this`currVerifyPeriodUpdates
      ensures currUpdatePeriodUpdates == Updates(old(currUpdatePeriodUpdates).ids + [idHash], old(currUpdatePeriodUpdates).hashes + [hashBytes])
      ensures currVerifyPeriodUpdates == Updates(old(currVerifyPeriodUpdates).ids + [idHash], old(currVerifyPeriodUpdates).hashes + [hashBytes])
    {
      currUpdatePeriodUpdates := Updates(currUpdatePeriodUpdates.ids + [idHash], currUpdatePeriodUpdates.hashes + [hashBytes]);
      currVerifyPeriodUpdates := Updates(currVerifyPeriodUpdates.ids + [idHash], currVerifyPeriodUpdates.hashes + [hashBytes]);
    }

    /**
     * IncrementUpdateEpoch: a new update tree holding the update epoch's
     * buffered updates at position 0 joins both lists (the check that it
     * holds every buffered key finds none missing); that buffer is cleared,
     * the epoch advances, and both logs record the tree's root under the new
     * epoch's number. The verification period's buffer, the base tree and
     * the forest are left as they are, so Stores is kept.
     */
    method IncrementUpdateEpoch() returns (ghost t: Node)
      requires Logs()
      modifies this`queryUpdateTries, this`verifyUpdateTries, this`currUpdatePeriodUpdates,
               this`epoch, this`queryUpdateLog, this`verifyUpdateLog
      ensures Logs() && epoch == old(epoch) + 1 && currUpdatePeriodUpdates == Updates([], [])
      ensures queryUpdateTries == old(queryUpdateTries) + [t] && verifyUpdateTries == old(verifyUpdateTries) + [t]
      ensures queryUpdateLog == old(queryUpdateLog) + [LogRecord(epoch, RootHash(crypto, t))]
      ensures verifyUpdateLog == old(verifyUpdateLog) + [LogRecord(epoch, RootHash(crypto, t))]
      ensures UpdatesLookUp(t, old(currUpdatePeriodUpdates).ids, old(currUpdatePeriodUpdates).hashes, |old(currUpdatePeriodUpdates).ids|)
    {
      var trie, root, qlog, qts, vlog, vts := NextUpdate(crypto, currUpdatePeriodUpdates, queryUpdateLog, queryUpdateTries,
                                                         verifyUpdateLog, verifyUpdateTries, epoch);
      SetLogs(Updates([], []), qlog, qts, vlog, vts, epoch + 1);
      t := trie;
    }

    /** The assignments of IncrementUpdateEpoch, once the new lists, logs and epoch are known. */
    method SetLogs(u: Updates, qlog: seq<LogRecord>, qts: seq<Node>, vlog: seq<LogRecord>, vts: seq<Node>, e: nat)
      requires LogsAt(crypto, u, qlog, qts, vlog, vts, e)
      modifies this`queryUpdateTries, this`verifyUpdateTries, this`currUpdatePeriodUpdates,
               this`epoch, this`queryUpdateLog, this`verifyUpdateLog
      ensures LogsAt(crypto, currUpdatePeriodUpdates, queryUpdateLog, queryUpdateTries, verifyUpdateLog, verifyUpdateTries, epoch)
      ensures currUpdatePeriodUpdates == u && epoch == e
      ensures queryUpdateLog == qlog && queryUpdateTries == qts && verifyUpdateLog == vlog && verifyUpdateTries == vts
    {
      queryUpdateLog, queryUpdateTries, verifyUpdateLog, verifyUpdateTries := qlog, qts, vlog, vts;
      currUpdatePeriodUpdates, epoch := u, e;
    }

    /**
     * IncrementVerificationPeriod: the period advances and the base tree
     * freezes its current epoch; from the second period on, the root hash
     * of the epoch two periods back joins the forest (a full forest stays
     * as it is); the verify log and trees become the query ones, and the
     * verify side and the verification period's buffer start empty. The
     * first hash to join a depth-0 forest panics, so from the second
     * period on the depth must be at least 1.
     */
    method IncrementVerificationPeriod()
      requires Valid()
      requires verificationPeriod == 0 || baseTreeForest.depth >= 1
      modifies this`verificationPeriod, this`queryUpdateLog, this`queryUpdateTries, this`verifyUpdateLog,
               this`verifyUpdateTries, this`currVerifyPeriodUpdates, baseTree, baseTreeForest
      ensures Valid() && verificationPeriod == old(verificationPeriod) + 1
      ensures baseTree.roots == old(baseTree.roots) + [baseTree.currRoot] && baseTree.currRoot == old(baseTree.currRoot)
      ensures baseTree.rootHashes == old(baseTree.rootHashes) + [baseTree.currHash]
      ensures queryUpdateTries == old(verifyUpdateTries) && queryUpdateLog == old(verifyUpdateLog)
      ensures verifyUpdateTries == [] && verifyUpdateLog == [] && currVerifyPeriodUpdates == Updates([], [])
    {
      var v := verificationPeriod + 1;
      ghost var hashes := baseTree.rootHashes;
      baseTree.NextEpoch();
      FrozenPrefix(hashes, baseTree.rootHashes, ForestCount(v - 1, HistoryForests.Cap(baseTreeForest.depth)));
      if v >= 2 {
        Freeze(baseTree.rootHashes, v, baseTree.GetHash(v - 2));
      }
      Rotate();
    }

    /**
     * The forest step of IncrementVerificationPeriod at period v: the root
     * hash of epoch v - 2 joins the forest unless it is full.
     */
    method Freeze(ghost hashes: seq<NBytes>, v: nat, h: NBytes)
      requires v >= 2 && v - 1 <= |hashes| && h == hashes[v - 2]
      requires baseTreeForest.Valid() && baseTreeForest.depth >= 1
      requires baseTreeForest.leaves == Frozen(hashes, ForestCount(v - 1, HistoryForests.Cap(baseTreeForest.depth)))
      modifies baseTreeForest
      ensures baseTreeForest.Valid()
      ensures baseTreeForest.leaves == Frozen(hashes, ForestCount(v, HistoryForests.Cap(baseTreeForest.depth)))
    {
      FrozenNext(hashes, v, HistoryForests.Cap(baseTreeForest.depth));
      baseTreeForest.Append(h, v - 2);
    }

    /** The assignments of IncrementVerificationPeriod: the period advances and the verify side moves to the query side. */
    method Rotate()
      modifies this`verificationPeriod, this`queryUpdateLog, this`queryUpdateTries, this`verifyUpdateLog,
               this`verifyUpdateTries, this`currVerifyPeriodUpdates
      ensures verificationPeriod == old(verificationPeriod) + 1
      ensures queryUpdateTries == old(verifyUpdateTries) && queryUpdateLog == old(verifyUpdateLog)
      ensures verifyUpdateTries == [] && verifyUpdateLog == [] && currVerifyPeriodUpdates == Updates([], [])
    {
      verificationPeriod := verificationPeriod + 1;
      currVerifyPeriodUpdates := Updates([], []);
      queryUpdateLog, queryUpdateTries := verifyUpdateLog, verifyUpdateTries;
      verifyUpdateLog, verifyUpdateTries := [], [];
    }

    /**
     * GetDigest: the newest leaf hash of every forest root, the verify
     * log's root hash (Hash() of nothing while it is empty) and the roots
     * of the query update trees followed by the verify ones; the sizes, the
     * epoch and the hash chain are left at their zero values.
     */
    method GetDigest() returns (d: Digest)
      requires Valid()
      ensures d.baseTreeRoots == EntryHashes(HistoryForests.NewestOf(baseTreeForest.leaves))
      ensures d.updateLogRoot == LogRootOrEmpty(crypto, verifyUpdateLog)
      ensures d.updateSetRoots == UpdateRoots(crypto, queryUpdateTries + verifyUpdateTries)
      ensures d.baseTreeSize == 0 && d.updateLogSize == 0 && d.epoch == 0 && d.hashChain.None?
    {
      var updateRoots := RootHashes(crypto, queryUpdateTries + verifyUpdateTries);
      baseTreeForest.RootsNewest();
      var baseRoots := NewestHashes(baseTreeForest, HistoryForests.NewestOf(baseTreeForest.leaves));
      d := Digest(baseRoots, 0, LogRootOrEmpty(crypto, verifyUpdateLog), updateRoots, 0, 0, None);
    }

    /**
     * GenerateExistenceProof: one entry per forest root, from the base
     * tree's trie at that root's verification period, then one per query
     * update tree; each is a membership proof with the key's values when
     * the trie holds the key and a non-membership proof otherwise.
     */
    method GenerateExistenceProof(identifier: Bytes, value: Bytes, signature: Bytes) returns (proof: ExistenceProof)
      requires Valid()
      ensures var newest := HistoryForests.NewestOf(baseTreeForest.leaves);
        (forall k :: 0 <= k < |newest| ==> newest[k].period < |baseTree.roots|) &&
        AllUniform(BaseTries(newest, baseTree.roots)) && AllUniform(queryUpdateTries) &&
        proof == HonestProof(crypto, BaseTries(newest, baseTree.roots), queryUpdateTries, identifier)
    {
      baseTreeForest.RootsNewest();
      FrozenNewest(baseTree.rootHashes, |baseTreeForest.leaves|);
      var bases := BaseEntries(baseTreeForest, baseTree, HistoryForests.NewestOf(baseTreeForest.leaves), identifier);
      ChainUniform(crypto, queryUpdateLog, queryUpdateTries, epoch);
      var updates := UpdateEntries(crypto, queryUpdateTries, identifier);
      proof := ExistenceProof(bases, updates);
    }
  }
}
