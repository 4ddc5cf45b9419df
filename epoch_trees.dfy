/**
 * The update tree both partitions build when an update epoch ends
 * (IncrementUpdateEpoch in core/partition.go and core/partition_agghist.go):
 * a fresh prefix tree holding every buffered update, followed by the check
 * that each buffered key can be found in it.
 */
module EpochTrees {
  import opened Wrappers
  import opened Bits
  import opened Crypto
  import opened TrieSpec
  import opened TrieWalk
  import opened PrefixTrees
  import opened LegologProofs
  import SetTrees

  /** The buffered keys are hashed identifiers: bit strings of the digest's length in bits. */
  predicate HashedKeys(ids: seq<Bytes>)
  {
    forall i :: 0 <= i < |ids| ==> |ids[i]| == 8 * DigestLen && IsBits(ids[i])
  }

  /** The values the first n buffered updates give key x: their value hashes, in order, at position 0. */
  function UpdateValues(ids: seq<Bytes>, hashes: seq<Bytes>, n: nat, x: Bytes): seq<KeyHash>
    requires n <= |ids| <= |hashes|
  {
    if n == 0 then []
    else UpdateValues(ids, hashes, n - 1, x) + (if ids[n - 1] == x then [KeyHash(hashes[n - 1], 0)] else [])
  }

  /** Every buffered key is given a value, so it is present. */
  lemma {:induction false} UpdateValuesOfKey(ids: seq<Bytes>, hashes: seq<Bytes>, n: nat, i: nat)
    requires i < n <= |ids| <= |hashes|
    ensures KeyHash(hashes[i], 0) in UpdateValues(ids, hashes, n, ids[i])
  {
    if i < n - 1 {
      UpdateValuesOfKey(ids, hashes, n - 1, i);
    }
  }

  /** The appends of the update tree: one per buffered update, at position 0. */
  function UpdateAppends(ids: seq<Bytes>, hashes: seq<Bytes>): (r: seq<PrefixAppendRec>)
    requires |ids| <= |hashes|
    ensures |r| == |ids|
  {
    seq(|ids|, i requires 0 <= i < |ids| => PrefixAppendRec(ids[i], hashes[i], 0))
  }

  /** The trie holds, for every key of the right length, the values of the first n buffered updates. */
  ghost predicate UpdatesLookUp(t: Node, ids: seq<Bytes>, hashes: seq<Bytes>, n: nat)
    requires n <= |ids| <= |hashes|
  {
    forall x :: |x| == 8 * DigestLen ==> Lookup(t, x) == SetTrees.AsLookup(UpdateValues(ids, hashes, n, x))
  }

  /**
   * The first loop of IncrementUpdateEpoch: a new prefix tree, and each
   * buffered key appended with its value hash at position 0.
   */
  method BuildUpdateTree(c: Primitives, ids: seq<Bytes>, hashes: seq<Bytes>) returns (t: PrefixTree)
    requires |ids| == |hashes| && HashedKeys(ids)
    ensures fresh(t) && t.Valid() && t.crypto == c && !t.isComplete && Uniform(t.tree)
    ensures t.appends == UpdateAppends(ids, hashes)
    ensures UpdatesLookUp(t.tree, ids, hashes, |ids|)
  {
    t := new PrefixTree(c);
    EmptyUpdateTree(ids, hashes);
    AppendUpdates(t, ids, hashes);
  }

  /** The loop of BuildUpdateTree, on the new tree. */
  method AppendUpdates(t: PrefixTree, ids: seq<Bytes>, hashes: seq<Bytes>)
    requires t.Valid() && !t.isComplete && t.appends == [] && Uniform(t.tree)
    requires |ids| == |hashes| && HashedKeys(ids) && UpdatesLookUp(t.tree, ids, hashes, 0)
    modifies t
    ensures t.Valid() && !t.isComplete && Uniform(t.tree)
    ensures t.appends == UpdateAppends(ids, hashes)
    ensures UpdatesLookUp(t.tree, ids, hashes, |ids|)
  {
    ghost var keys := UpdateAppends(ids, hashes);
    var i := 0;
    while i < |ids|
      invariant i <= |ids| && t.Valid() && !t.isComplete
      invariant t.appends == keys[..i] && Uniform(t.tree)
      invariant UpdatesLookUp(t.tree, ids, hashes, i)
    {
      AppendUpdate(t, ids, hashes, i);
      UpdateAppendsStep(ids, hashes, i);
      i := i + 1;
    }
    assert keys[..i] == keys;
  }

  lemma UpdateAppendsStep(ids: seq<Bytes>, hashes: seq<Bytes>, i: nat)
    requires i < |ids| <= |hashes|
    ensures UpdateAppends(ids, hashes)[..i + 1] == UpdateAppends(ids, hashes)[..i] + [PrefixAppendRec(ids[i], hashes[i], 0)]
  {
    var keys := UpdateAppends(ids, hashes);
    assert keys[..i + 1] == keys[..i] + [keys[i]];
  }

  /** The new tree holds no key and has keys of every length. */
  lemma EmptyUpdateTree(ids: seq<Bytes>, hashes: seq<Bytes>)
    requires |ids| <= |hashes|
    ensures Uniform(EmptyTree()) && UpdatesLookUp(EmptyTree(), ids, hashes, 0)
  {
    forall x | |x| == 8 * DigestLen
      ensures Lookup(EmptyTree(), x) == SetTrees.AsLookup(UpdateValues(ids, hashes, 0, x))
    {
      assert HasPrefix(x, []);
    }
  }

  /** One round of BuildUpdateTree: buffered update i is appended at position 0. */
  method AppendUpdate(t: PrefixTree, ids: seq<Bytes>, hashes: seq<Bytes>, i: nat)
    requires t.Valid() && !t.isComplete && Uniform(t.tree)
    requires i < |ids| == |hashes| && HashedKeys(ids) && UpdatesLookUp(t.tree, ids, hashes, i)
    modifies t
    ensures t.Valid() && !t.isComplete && Uniform(t.tree)
    ensures t.appends == old(t.appends) + [PrefixAppendRec(ids[i], hashes[i], 0)]
    ensures UpdatesLookUp(t.tree, ids, hashes, i + 1)
  {
    var key := ids[i];
    ghost var before, id := t.tree, t.nextId;
    ghost var kh := KeyHash(hashes[i], 0);
    assert before.prefix + key == key;
    UniformCanInsert(before, key, true);
    InsertUniform(before, key, kh, id);
    var err := t.PrefixAppend(key, hashes[i], 0);
    forall x | |x| == 8 * DigestLen
      ensures Lookup(t.tree, x) == SetTrees.AsLookup(UpdateValues(ids, hashes, i + 1, x))
    {
      UpdateStepAt(Lookup(before, x), Lookup(t.tree, x), ValuesAt(before, x), ids, hashes, i, x);
    }
  }

  /** Appending update i adds its value to its key's lookup and leaves every other key's alone. */
  lemma UpdateStepAt(lb: Option<seq<KeyHash>>, la: Option<seq<KeyHash>>, vb: seq<KeyHash>,
                     ids: seq<Bytes>, hashes: seq<Bytes>, i: nat, x: Bytes)
    requires i < |ids| <= |hashes|
    requires lb == SetTrees.AsLookup(UpdateValues(ids, hashes, i, x))
    requires vb == (match lb case None => [] case Some(v) => v)
    requires x == ids[i] ==> la == Some(vb + [KeyHash(hashes[i], 0)])
    requires x != ids[i] ==> la == lb
    ensures la == SetTrees.AsLookup(UpdateValues(ids, hashes, i + 1, x))
  {
    var prev := UpdateValues(ids, hashes, i, x);
    if x == ids[i] {
      assert vb == prev;
    } else {
      assert UpdateValues(ids, hashes, i + 1, x) == prev + [];
      assert prev + [] == prev;
    }
  }

  /**
   * The second loop of IncrementUpdateEpoch: the buffered keys getLeaf does
   * not find, which the source reports as something that should not happen.
   */
  method MissingKeys(t: PrefixTree, ids: seq<Bytes>) returns (missing: seq<Bytes>)
    requires t.Valid() && Uniform(t.tree) && HashedKeys(ids)
    ensures forall x :: x in missing <==> x in ids && Lookup(t.tree, x).None?
  {
    missing := [];
    var i := 0;
    while i < |ids|
      invariant i <= |ids|
      invariant forall x :: x in missing <==> x in ids[..i] && Lookup(t.tree, x).None?
    {
      var key := ids[i];
      UniformWalk(t.tree, key, true);
      WalkLookup(t.tree, key);
      assert t.tree.prefix + key == key;
      var leaf := t.GetLeaf(key);
      if leaf.None? {
        missing := missing + [key];
      }
      assert ids[..i + 1] == ids[..i] + [key];
      i := i + 1;
    }
    assert ids[..i] == ids;
  }

  /** The update tree holds every buffered key, so the check finds nothing missing. */
  lemma NothingMissing(t: Node, ids: seq<Bytes>, hashes: seq<Bytes>)
    requires |ids| == |hashes| && HashedKeys(ids) && UpdatesLookUp(t, ids, hashes, |ids|)
    ensures forall x :: x in ids ==> Lookup(t, x).Some?
  {
    forall x | x in ids
      ensures Lookup(t, x).Some?
    {
      var i :| 0 <= i < |ids| && ids[i] == x;
      UpdateValuesOfKey(ids, hashes, |ids|, i);
    }
  }
}
