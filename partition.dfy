/**
 * The LegoLog partition of core/partition.go. A persistent base tree holds
 * every update ever appended; each update epoch's updates also go into a
 * prefix tree of their own, whose root is logged in an update log.
 * Append buffers an update and inserts it in the base tree;
 * IncrementUpdateEpoch turns the buffer into an update tree and logs its
 * root in both the query and the verification log; IncrementVerificationPeriod
 * freezes the base tree's epoch, makes the verification log the query log
 * and chains the base tree's root hashes. GetDigest and
 * GenerateExistenceProof serve what the checks of module Verifiers read.
 *
 * The base tree is the corrected persistent tree (VersionedTries). The
 * partition keeps every update tree by the trie it holds and every update
 * log by the leaves it holds: the tree and log objects are modelled in
 * PrefixTrees and ChronTrees, whose contracts tie their operations to those
 * values (getHash to RootHash of the trie, Append to one more LeafHash,
 * the root hash to MTH of the leaves).
 */
module Partitions {
  import opened Wrappers
  import opened Bits
  import opened Crypto
  import opened TrieSpec
  import opened TrieWalk
  import opened PrefixTrees
  import opened LegologProofs
  import opened EpochTrees
  import opened VersionedTries
  import opened Verifiers
  import ChronTrees

  /** The type of the position counter: after 2^32 - 1 it wraps to 0. */
  newtype uint32 = x: int | 0 <= x < 0x1_0000_0000

  /** pos += 1 on a uint32: one more, modulo 2^32. */
  function NextPos(p: uint32): (q: uint32)
    ensures q as int == (p as int + 1) % 0x1_0000_0000
  {
    if p == 0xFFFF_FFFF then 0 else p + 1
  }

  /**
   * latestUpdates: the keys appended in the current update epoch
   * (latestUpdates[0]) and the leaf hashes of their values
   * (latestUpdates[1]).
   */
  datatype Updates = Updates(ids: seq<Bytes>, hashes: seq<Bytes>)

  /** A buffer of updates: one leaf hash per key, every key a hashed identifier. */
  predicate Buffered(u: Updates)
  {
    |u.ids| == |u.hashes| && HashedKeys(u.ids)
  }

  /** The root hash of every update tree, in order: nil for one built from no updates. */
  function UpdateRoots(c: Primitives, ts: seq<Node>): (r: seq<NBytes>)
    ensures |r| == |ts|
  {
    seq(|ts|, i requires 0 <= i < |ts| => RootHash(c, ts[i]))
  }

  /**
   * What IncrementUpdateEpoch appends to an update log: the update epoch's
   * number (its decimal string is the key), the update tree's root hash
   * (the value) and an empty signature.
   */
  datatype LogRecord = LogRecord(epoch: nat, root: NBytes)

  /** The leaves an update log holding these records has, each hashed at its position. */
  function LogLeaves(c: Primitives, log: seq<LogRecord>): (r: seq<Bytes>)
    ensures |r| == |log|
  {
    seq(|log|, i requires 0 <= i < |log| =>
      ChronTrees.LeafHash(c, Decimal(log[i].epoch), Flat(log[i].root), [], i))
  }

  /** The records of an update log for update trees with these roots, for the epochs after start. */
  function UpdateRecords(roots: seq<NBytes>, start: nat): (r: seq<LogRecord>)
    ensures |r| == |roots|
  {
    seq(|roots|, i requires 0 <= i < |roots| => LogRecord(start + i + 1, roots[i]))
  }

  /** The root hash of a non-empty update log: the Merkle tree hash of its leaves. */
  function LogRoot(c: Primitives, log: seq<LogRecord>): Bytes
    requires |log| > 0
  {
    ChronTrees.MTH(c, LogLeaves(c, log))
  }

  /**
   * An update list and its log, up to this update epoch: every trie is
   * uniform, and the log has one record per trie, the last for the current
   * epoch and each earlier one for the epoch before the next, with its
   * trie's root hash.
   */
  ghost predicate UpdateChain(c: Primitives, log: seq<LogRecord>, ts: seq<Node>, epoch: nat)
    decreases |ts|
  {
    (ts == [] && log == []) ||
    (ts != [] && |log| == |ts| <= epoch &&
     UpdateChain(c, log[..|log| - 1], ts[..|ts| - 1], epoch - 1) &&
     Uniform(ts[|ts| - 1]) && log[|log| - 1] == LogRecord(epoch, RootHash(c, ts[|ts| - 1])))
  }

  /** Logging the next epoch's update trie appends its record at the log's end. */
  lemma ChainNext(c: Primitives, log: seq<LogRecord>, ts: seq<Node>, epoch: nat, t: Node)
    requires UpdateChain(c, log, ts, epoch) && Uniform(t)
    ensures UpdateChain(c, log + [LogRecord(epoch + 1, RootHash(c, t))], ts + [t], epoch + 1)
  {
    var log', ts' := log + [LogRecord(epoch + 1, RootHash(c, t))], ts + [t];
    assert log'[..|log'| - 1] == log && ts'[..|ts'| - 1] == ts;
  }

  /** Every trie of an update list is uniform. */
  lemma {:induction false} ChainUniform(c: Primitives, log: seq<LogRecord>, ts: seq<Node>, epoch: nat)
    requires UpdateChain(c, log, ts, epoch)
    ensures AllUniform(ts)
  {
    if ts != [] {
      var n := |ts| - 1;
      ChainUniform(c, log[..n], ts[..n], epoch - 1);
      assert forall i :: 0 <= i < n ==> ts[i] == ts[..n][i];
    }
  }

  /**
   * What an update log holds: the records of its tries' root hashes,
   * numbered by update epoch up to the current one.
   */
  lemma {:induction false} ChainRecords(c: Primitives, log: seq<LogRecord>, ts: seq<Node>, epoch: nat)
    requires UpdateChain(c, log, ts, epoch)
    ensures log == UpdateRecords(UpdateRoots(c, ts), epoch - |ts|)
  {
    if ts != [] {
      var n := |ts| - 1;
      ChainRecords(c, log[..n], ts[..n], epoch - 1);
      forall i | 0 <= i < n
        ensures log[i] == UpdateRecords(UpdateRoots(c, ts), epoch - |ts|)[i]
      {
        assert ts[i] == ts[..n][i] && log[i] == log[..n][i];
      }
    }
  }

  /** The root hashes of update tries fit them: a nil root is that of a trie without keys. */
  lemma RootsCover(c: Primitives, ts: seq<Node>, key: Bytes)
    requires AllUniform(ts)
    ensures Covers(c, UpdateRoots(c, ts), ts, key)
  {
    var roots := UpdateRoots(c, ts);
    forall i | 0 <= i < |ts|
      ensures roots[i] == Some(HashOf(c, ts[i])) || (roots[i].None? && Lookup(ts[i], key).None?)
    {
      assert roots[i] == RootHash(c, ts[i]) && ts[i].prefix == [];
    }
  }

  /** A non-empty list holds its first element. */
  lemma Head(s: seq<Bytes>)
    requires s != []
    ensures s[0] in s
  {
  }

  /**
   * What GetDigest reports about the update trees and their log: the log
   * holds one record per tree, its root commits to the trees' root hashes
   * numbered by the epochs after the first one the log covers, and every
   * reported root fits its tree, a nil one only for a tree without keys.
   */
  lemma LogCommits(c: Primitives, log: seq<LogRecord>, ts: seq<Node>, epoch: nat)
    requires UpdateChain(c, log, ts, epoch) && |ts| > 0
    ensures |log| == |ts| <= epoch
    ensures LogRoot(c, log) == ChronTrees.MTH(c, LogLeaves(c, UpdateRecords(UpdateRoots(c, ts), epoch - |ts|)))
    ensures AllUniform(ts) && forall key :: Covers(c, UpdateRoots(c, ts), ts, key)
  {
    ChainRecords(c, log, ts, epoch);
    ChainUniform(c, log, ts, epoch);
    forall key
      ensures Covers(c, UpdateRoots(c, ts), ts, key)
    {
      RootsCover(c, ts, key);
    }
  }

  /** A trie holding a key is not bare. */
  lemma NotBare(t: Node, x: Bytes)
    requires Lookup(t, x).Some?
    ensures !Bare(t)
  {
  }

  /** One more hashed key keeps the buffer's keys hashed. */
  lemma HashedKeysSnoc(ids: seq<Bytes>, k: Bytes)
    requires HashedKeys(ids) && |k| == 8 * DigestLen && IsBits(k)
    ensures HashedKeys(ids + [k])
  {
  }

  /**
   * The first half of IncrementUpdateEpoch: a new prefix tree gets the
   * buffered updates at position 0, its root hash is read, and the check
   * that it holds every buffered key finds none missing. The trie it holds
   * answers every key with exactly the buffered values for that key, and
   * its root hash is RootHash of it.
   */
  method BuildUpdate(c: Primitives, ids: seq<Bytes>, hashes: seq<Bytes>)
    returns (trie: Node, root: NBytes, missing: seq<Bytes>)
    requires |ids| == |hashes| && HashedKeys(ids)
    ensures Uniform(trie) && root == RootHash(c, trie) && missing == []
    ensures UpdatesLookUp(trie, ids, hashes, |ids|)
  {
    var prefixTree := BuildUpdateTree(c, ids, hashes);
    root := prefixTree.GetHash();
    missing := MissingKeys(prefixTree, ids);
    NothingMissing(prefixTree.tree, ids, hashes);
    if missing != [] {
      Head(missing);
      assert false;
    }
    trie := Replay(prefixTree.appends);
    if ids != [] {
      assert ids[0] in ids;
      NotBare(trie, ids[0]);
    }
  }

  /** Both update lists with their logs at this update epoch, and a buffer of hashed keys. */
  ghost predicate LogsAt(c: Primitives, u: Updates, qlog: seq<LogRecord>, qts: seq<Node>,
                         vlog: seq<LogRecord>, vts: seq<Node>, epoch: nat)
  {
    Buffered(u) && UpdateChain(c, qlog, qts, epoch) && UpdateChain(c, vlog, vts, epoch)
  }

  /**
   * The value side of IncrementUpdateEpoch: the update tree built from the
   * buffer, its root hash, and both update lists and logs one epoch on.
   */
  method NextUpdate(c: Primitives, u: Updates, qlog: seq<LogRecord>, qts: seq<Node>,
                    vlog: seq<LogRecord>, vts: seq<Node>, epoch: nat)
    returns (trie: Node, root: NBytes, qlog': seq<LogRecord>, qts': seq<Node>, vlog': seq<LogRecord>, vts': seq<Node>)
    requires LogsAt(c, u, qlog, qts, vlog, vts, epoch)
    ensures root == RootHash(c, trie) && UpdatesLookUp(trie, u.ids, u.hashes, |u.ids|)
    ensures qlog' == qlog + [LogRecord(epoch + 1, root)] && qts' == qts + [trie]
    ensures vlog' == vlog + [LogRecord(epoch + 1, root)] && vts' == vts + [trie]
    ensures LogsAt(c, Updates([], []), qlog', qts', vlog', vts', epoch + 1)
  {
    var missing;
    trie, root, missing := BuildUpdate(c, u.ids, u.hashes);
    ChainNext(c, qlog, qts, epoch, trie);
    ChainNext(c, vlog, vts, epoch, trie);
    qlog', qts' := qlog + [LogRecord(epoch + 1, root)], qts + [trie];
    vlog', vts' := vlog + [LogRecord(epoch + 1, root)], vts + [trie];
  }

  /** The loop of GetDigest over the update trees: each tree's root hash, in order. */
  method RootHashes(c: Primitives, ts: seq<Node>) returns (r: seq<NBytes>)
    ensures r == UpdateRoots(c, ts)
  {
    r := [];
    var i := 0;
    while i < |ts|
      invariant i <= |ts| && |r| == i
      invariant forall j :: 0 <= j < i ==> r[j] == RootHash(c, ts[j])
    {
      r := r + [RootHash(c, ts[i])];
      i := i + 1;
    }
  }

  /** The entry GenerateExistenceProof builds from one update tree object, with getLeaf and the proof builders. */
  method UpdateEntry(t: PrefixTree, identifier: Bytes) returns (e: ProofEntry)
    requires t.Hashed() && Uniform(t.tree)
    ensures e == TrieEntry(t.crypto, t.tree, identifier)
  {
    var key := KeyPrefix(t.crypto, identifier);
    KeySafe(t.crypto, t.tree, identifier);
    WalkLookup(t.tree, key);
    assert t.tree.prefix + key == key;
    var leaf := t.GetLeaf(key);
    if leaf.Some? {
      var mp := t.GenerateMembershipProof(key);
      e := ProofEntry(Some(mp.value.0), None, true, mp.value.1);
    } else {
      var nmp := t.GenerateNonMembershipProof(key);
      e := ProofEntry(None, nmp, false, []);
    }
  }

  /**
   * The loop of GenerateExistenceProof over the update tree objects, which
   * hold the given tries: the entries, built by UpdateEntry, are those the
   * value-level loop UpdateEntries builds from the tries.
   */
  method ObjectEntries(c: Primitives, ts: seq<PrefixTree>, ghost tries: seq<Node>, identifier: Bytes)
    returns (es: seq<ProofEntry>)
    requires |tries| == |ts| && AllUniform(tries)
    requires forall j :: 0 <= j < |ts| ==> ts[j].Hashed() && ts[j].crypto == c && ts[j].tree == tries[j]
    ensures es == TrieEntries(c, tries, identifier)
  {
    es := [];
    var i := 0;
    while i < |ts|
      invariant i <= |ts| && |es| == i
      invariant forall j :: 0 <= j < i ==> es[j] == TrieEntry(c, tries[j], identifier)
    {
      var t := ts[i];
      assert t.Hashed() && t.crypto == c && t.tree == tries[i] && Uniform(t.tree);
      var e := UpdateEntry(t, identifier);
      assert e == TrieEntry(c, tries[i], identifier);
      es := es + [e];
      i := i + 1;
    }
  }

  /** The loop of GenerateExistenceProof over the update trees: each trie's entry for the identifier, in order. */
  method UpdateEntries(c: Primitives, ts: seq<Node>, identifier: Bytes) returns (es: seq<ProofEntry>)
    requires AllUniform(ts)
    ensures es == TrieEntries(c, ts, identifier)
  {
    es := [];
    var i := 0;
    while i < |ts|
      invariant i <= |ts| && |es| == i
      invariant forall j :: 0 <= j < i ==> es[j] == TrieEntry(c, ts[j], identifier)
    {
      es := es + [TrieEntry(c, ts[i], identifier)];
      i := i + 1;
    }
  }

  /** The body of GenerateExistenceProof: the base tree's entry, then one entry per update tree. */
  method ExistenceProofFor(c: Primitives, b: Node, log: seq<LogRecord>, ts: seq<Node>, epoch: nat, identifier: Bytes)
    returns (proof: ExistenceProof)
    requires Uniform(b) && UpdateChain(c, log, ts, epoch)
    ensures AllUniform(ts) && proof == HonestProof(c, [b], ts, identifier)
  {
    ChainUniform(c, log, ts, epoch);
    var entries := UpdateEntries(c, ts, identifier);
    proof := ExistenceProof([TrieEntry(c, b, identifier)], entries);
    assert TrieEntries(c, [b], identifier) == [TrieEntry(c, b, identifier)];
  }

  class Partition {
    const crypto: Primitives
    const baseTree: VersionedTrie
    /** What was appended to queryUpdateLog, in order. */
    var queryUpdateLog: seq<LogRecord>
    /** The tries of queryUpdatePrefixTrees. */
    var queryUpdateTries: seq<Node>
    /** The tries of verificationUpdatePrefixTrees. */
    var verificationUpdateTries: seq<Node>
    /** What was appended to verificationUpdateLog, in order. */
    var verificationUpdateLog: seq<LogRecord>
    var latestUpdates: Updates
    var epoch: nat
    var verificationEpoch: nat
    var pos: uint32
    var hashChain: NBytes

    /**
     * The base tree has frozen one epoch per verification period; each
     * update log holds, in order, one leaf per update tree of its list,
     * numbered by update epoch up to the current one; the buffered keys are
     * hashed identifiers, one leaf hash each; the position is a uint32.
     */
    ghost predicate Valid()
      reads this, baseTree
    {
      baseTree.Valid() && baseTree.crypto == crypto && |baseTree.roots| == verificationEpoch &&
      LogsAt(crypto, latestUpdates, queryUpdateLog, queryUpdateTries,
             verificationUpdateLog, verificationUpdateTries, epoch)
    }

    /**
     * NewPartition: an empty base tree, two empty logs, no buffered
     * updates, then two verification periods, so that the base tree's
     * epochs 0 and 1 are frozen (both empty) and the hash chain starts
     * from their two nil root hashes.
     */
    constructor (c: Primitives)
      ensures Valid() && crypto == c
      ensures verificationEpoch == 2 && epoch == 0 && pos == 0 && latestUpdates == Updates([], [])
      ensures queryUpdateTries == [] && verificationUpdateTries == []
      ensures baseTree.roots == [EmptyTree(), EmptyTree()] && baseTree.currRoot == EmptyTree()
      ensures hashChain == Some(c.hash([[], [], Decimal(0), []]))
    {
      crypto := c;
      baseTree := new VersionedTrie(c);
      queryUpdateLog, verificationUpdateLog := [], [];
      queryUpdateTries, verificationUpdateTries := [], [];
      latestUpdates := Updates([], []);
      epoch, verificationEpoch, pos := 0, 0, 0;
      hashChain := None;
      new;
      IncrementVerificationPeriod();
      IncrementVerificationPeriod();
    }

    /**
     * Append: buffer the key (the bits of the identifier's hash) with the
     * value's leaf hash, insert them in the base tree's current epoch at
     * the current position, and advance the position, a uint32 that wraps.
     */
    method Append(username: Bytes, identifier: Bytes, value: Bytes, signature: Bytes)
      requires Valid()
      modifies this`latestUpdates, this`pos, baseTree
      ensures Valid()
      ensures latestUpdates == Updates(old(latestUpdates).ids + [KeyPrefix(crypto, identifier)],
                                       old(latestUpdates).hashes + [ExpectedLeafHash(crypto, identifier, value, signature)])
      ensures pos == NextPos(old(pos))
      ensures baseTree.roots == old(baseTree.roots) && baseTree.rootHashes == old(baseTree.rootHashes)
      ensures Lookup(baseTree.currRoot, KeyPrefix(crypto, identifier)) ==
        Some(old(ValuesAt(baseTree.currRoot, KeyPrefix(crypto, identifier))) +
             [KeyHash(ExpectedLeafHash(crypto, identifier, value, signature), old(pos) as nat)])
      ensures forall x :: x != KeyPrefix(crypto, identifier) ==> Lookup(baseTree.currRoot, x) == old(Lookup(baseTree.currRoot, x))
    {
      var idHash := KeyPrefix(crypto, identifier);
      var hashBytes := ExpectedLeafHash(crypto, identifier, value, signature);
      AppendUpdate(idHash, hashBytes);
    }

    /** The rest of Append, once the key and the leaf hash are computed. */
    method AppendUpdate(idHash: Bytes, hashBytes: Bytes)
      requires Valid() && |idHash| == 8 * DigestLen && IsBits(idHash)
      modifies this`latestUpdates, this`pos, baseTree
      ensures Valid()
      ensures latestUpdates == Updates(old(latestUpdates).ids + [idHash], old(latestUpdates).hashes + [hashBytes])
      ensures pos == NextPos(old(pos))
      ensures baseTree.roots == old(baseTree.roots) && baseTree.rootHashes == old(baseTree.rootHashes)
      ensures Lookup(baseTree.currRoot, idHash) == Some(old(ValuesAt(baseTree.currRoot, idHash)) + [KeyHash(hashBytes, old(pos) as nat)])
      ensures forall x :: x != idHash ==> Lookup(baseTree.currRoot, x) == old(Lookup(baseTree.currRoot, x))
    {
      HashedKeysSnoc(latestUpdates.ids, idHash);
      var p := pos;
      baseTree.Insert(idHash, hashBytes, p as nat);
      Buffer(idHash, hashBytes);
    }

    /** The assignments of Append: the update joins the buffer and the position advances. */
    method Buffer(idHash: Bytes, hashBytes: Bytes)
      modifies this`latestUpdates, this`pos
      ensures latestUpdates == Updates(old(latestUpdates).ids + [idHash], old(latestUpdates).hashes + [hashBytes])
      ensures pos == NextPos(old(pos))
    {
      latestUpdates := Updates(latestUpdates.ids + [idHash], latestUpdates.hashes + [hashBytes]);
      pos := NextPos(pos);
    }

    /**
     * IncrementUpdateEpoch: a new update tree holding the buffered updates
     * at position 0 joins both lists (the check that it holds every
     * buffered key finds none missing); the buffer is cleared, the epoch
     * advances, and both logs record the tree's root under the new epoch's
     * number.
     */
    method IncrementUpdateEpoch() returns (ghost t: Node)
      requires Valid()
      modifies this`queryUpdateTries, this`verificationUpdateTries, this`latestUpdates,
               this`epoch, this`queryUpdateLog, this`verificationUpdateLog
      ensures Valid() && epoch == old(epoch) + 1 && latestUpdates == Updates([], [])
      ensures queryUpdateTries == old(queryUpdateTries) + [t] && verificationUpdateTries == old(verificationUpdateTries) + [t]
      ensures queryUpdateLog == old(queryUpdateLog) + [LogRecord(epoch, RootHash(crypto, t))]
      ensures verificationUpdateLog == old(verificationUpdateLog) + [LogRecord(epoch, RootHash(crypto, t))]
      ensures UpdatesLookUp(t, old(latestUpdates).ids, old(latestUpdates).hashes, |old(latestUpdates).ids|)
    {
      var trie, root, qlog, qts, vlog, vts := NextUpdate(crypto, latestUpdates, queryUpdateLog, queryUpdateTries,
                                                         verificationUpdateLog, verificationUpdateTries, epoch);
      SetLogs(Updates([], []), qlog, qts, vlog, vts, epoch + 1);
      t := trie;
    }

    /** The assignments of IncrementUpdateEpoch, once the new lists, logs and epoch are known. */
    method SetLogs(u: Updates, qlog: seq<LogRecord>, qts: seq<Node>, vlog: seq<LogRecord>, vts: seq<Node>, e: nat)
      requires LogsAt(crypto, u, qlog, qts, vlog, vts, e)
      modifies this`queryUpdateTries, this`verificationUpdateTries, this`latestUpdates,
               this`epoch, this`queryUpdateLog, this`verificationUpdateLog
      ensures LogsAt(crypto, latestUpdates, queryUpdateLog, queryUpdateTries, verificationUpdateLog, verificationUpdateTries, epoch)
      ensures latestUpdates == u && epoch == e
      ensures queryUpdateLog == qlog && queryUpdateTries == qts && verificationUpdateLog == vlog && verificationUpdateTries == vts
    {
      queryUpdateLog, queryUpdateTries, verificationUpdateLog, verificationUpdateTries := qlog, qts, vlog, vts;
      latestUpdates, epoch := u, e;
    }

    /**
     * IncrementVerificationPeriod: the base tree freezes its current epoch,
     * the verification log and trees become the query ones and a new,
     * empty verification log starts; from the second period on, the hash
     * chain absorbs the root hashes of the base tree's last two frozen
     * epochs and the update epoch's number.
     */
    method IncrementVerificationPeriod()
      requires Valid()
      modifies this`verificationEpoch, this`queryUpdateLog, this`queryUpdateTries, this`verificationUpdateLog,
               this`verificationUpdateTries, this`hashChain, baseTree
      ensures Valid() && verificationEpoch == old(verificationEpoch) + 1
      ensures baseTree.roots == old(baseTree.roots) + [baseTree.currRoot] && baseTree.currRoot == old(baseTree.currRoot)
      ensures baseTree.rootHashes == old(baseTree.rootHashes) + [baseTree.currHash] && baseTree.currHash == old(baseTree.currHash)
      ensures queryUpdateTries == old(verificationUpdateTries) && queryUpdateLog == old(verificationUpdateLog)
      ensures verificationUpdateTries == [] && verificationUpdateLog == []
      ensures hashChain == if verificationEpoch < 2 then old(hashChain) else
        Some(crypto.hash([Flat(baseTree.rootHashes[verificationEpoch - 2]), Flat(baseTree.rootHashes[verificationEpoch - 1]),
                          Decimal(epoch), Flat(old(hashChain))]))
    {
      baseTree.NextEpoch();
      var chain := hashChain;
      if verificationEpoch + 1 >= 2 {
        chain := Some(crypto.hash([Flat(baseTree.GetHash(verificationEpoch - 1)),
                                   Flat(baseTree.GetHash(verificationEpoch)), Decimal(epoch), Flat(hashChain)]));
      }
      Rotate(chain);
    }

    /** The assignments of IncrementVerificationPeriod, once the base tree has moved on and the new chain is computed. */
    method Rotate(chain: NBytes)
      modifies this`verificationEpoch, this`queryUpdateLog, this`queryUpdateTries, this`verificationUpdateLog,
               this`verificationUpdateTries, this`hashChain
      ensures verificationEpoch == old(verificationEpoch) + 1 && hashChain == chain
      ensures queryUpdateTries == old(verificationUpdateTries) && queryUpdateLog == old(verificationUpdateLog)
      ensures verificationUpdateTries == [] && verificationUpdateLog == []
    {
      verificationEpoch := verificationEpoch + 1;
      queryUpdateLog, queryUpdateTries := verificationUpdateLog, verificationUpdateTries;
      verificationUpdateLog, verificationUpdateTries := [], [];
      hashChain := chain;
    }

    /**
     * GetDigest: the root hashes of the base tree's last two frozen epochs
     * and the size of the earlier one, the query log's root and size, the
     * roots of the query update trees, the update epoch and the hash
     * chain. The query log must not be empty: its root is read without a
     * nil check. What the reported log root commits to is LogCommits.
     */
    method GetDigest() returns (d: Digest)
      requires Valid() && verificationEpoch >= 2 && |queryUpdateTries| > 0
      ensures d.baseTreeRoots == [baseTree.GetHash(verificationEpoch - 2), baseTree.GetHash(verificationEpoch - 1)]
      ensures d.baseTreeSize == baseTree.GetSize(verificationEpoch - 2)
      ensures d.updateLogRoot == LogRoot(crypto, queryUpdateLog) && d.updateSetRoots == UpdateRoots(crypto, queryUpdateTries)
      ensures d.updateLogSize == |queryUpdateLog| && d.epoch == epoch && d.hashChain == hashChain
    {
      var roots := RootHashes(crypto, queryUpdateTries);
      var baseRoots, baseSize := BaseTreeView();
      d := Digest(baseRoots, baseSize, LogRoot(crypto, queryUpdateLog), roots, |queryUpdateLog|, epoch, hashChain);
    }

    /** The base tree's part of GetDigest: GetHash of its last two frozen epochs, GetSize of the earlier one. */
    method BaseTreeView() returns (roots: seq<NBytes>, size: nat)
      requires Valid() && verificationEpoch >= 2
      ensures roots == [baseTree.GetHash(verificationEpoch - 2), baseTree.GetHash(verificationEpoch - 1)]
      ensures size == baseTree.GetSize(verificationEpoch - 2)
    {
      var v := verificationEpoch;
      roots, size := [baseTree.GetHash(v - 2), baseTree.GetHash(v - 1)], baseTree.GetSize(v - 2);
    }

    /**
     * GetUpdateEpochConsistencyProof: an empty proof when the verification
     * log is shorter than the old size or the old size is 0; otherwise the
     * log's consistency proof from the old size to its current one.
     */
    method GetUpdateEpochConsistencyProof(oldSize: nat) returns (proof: seq<Bytes>)
      requires Valid()
      ensures oldSize == 0 || oldSize > |verificationUpdateTries| ==> proof == []
      ensures 0 < oldSize <= |verificationUpdateTries| ==>
        proof == ChronTrees.SubProof(crypto, oldSize, LogLeaves(crypto, verificationUpdateLog), true)
    {
      var newSize := |verificationUpdateLog|;
      if newSize < oldSize || oldSize == 0 {
        return [];
      }
      proof := ChronTrees.SubProof(crypto, oldSize, LogLeaves(crypto, verificationUpdateLog), true);
    }

    /**
     * GenerateExistenceProof: one entry from the base tree's epoch two
     * before the verification epoch, and one per query update tree, each a
     * membership proof with the key's values when the tree holds the key
     * and a non-membership proof otherwise.
     */
    method GenerateExistenceProof(identifier: Bytes, value: Bytes, signature: Bytes) returns (proof: ExistenceProof)
      requires Valid() && verificationEpoch >= 2
      ensures Uniform(baseTree.roots[verificationEpoch - 2]) && AllUniform(queryUpdateTries)
      ensures proof == HonestProof(crypto, [baseTree.roots[verificationEpoch - 2]], queryUpdateTries, identifier)
    {
      var b := baseTree.roots[verificationEpoch - 2];
      proof := ExistenceProofFor(crypto, b, queryUpdateLog, queryUpdateTries, epoch, identifier);
    }
  }
}
