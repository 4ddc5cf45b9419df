/**
 * The proofs a LegoLog partition hands out and the per-entry checks a
 * client runs on them (core/partition.go, core/partition_agghist.go): the
 * digest, one proof entry per tree, validateExistenceProof,
 * validateNonExistenceProof and validateNonMembershipProof, and the entry
 * GenerateExistenceProof builds from one trie.
 */
module LegologProofs {
  import opened Wrappers
  import opened Bits
  import opened Crypto
  import opened Copath
  import opened TrieSpec
  import opened TrieWalk

  /** LegologDigest. HistoryForestRoots is never filled in by either partition and is left out. */
  datatype Digest = Digest(
    baseTreeRoots: seq<NBytes>,
    baseTreeSize: nat,
    updateLogRoot: Bytes,
    updateSetRoots: seq<NBytes>,
    updateLogSize: nat,
    epoch: nat,
    hashChain: NBytes)

  /** MembershipOrNonmembershipProof; a nil proof pointer is None. */
  datatype ProofEntry = ProofEntry(
    membershipProof: Option<MembershipProof>,
    nonMembershipProof: Option<NonMembershipProof>,
    valueExists: bool,
    leafValues: seq<KeyHash>)

  /** LegologExistenceProof. */
  datatype ExistenceProof = ExistenceProof(baseTreeProofs: seq<ProofEntry>, updateLogProofs: seq<ProofEntry>)

  /** How a check ends: it returns true, it returns false with an error, or it panics. */
  datatype Outcome = Accepted | Rejected | Panics

  /** The bits of ComputeLeafNodeHash(identifier, value, signature, 0): the hash a key's leaf stores for a value. */
  function ExpectedLeafHash(c: Primitives, identifier: Bytes, value: Bytes, signature: Bytes): Bytes
  {
    BitsOf(c.leafNodeHash(identifier, value, signature, 0))
  }

  /** The message the master key signs: the value followed by the decimal position, or the bare value for a master key. */
  function SignedValue(value: Bytes, pos: nat, isMK: bool): Bytes
  {
    if isMK then value else value + Decimal(pos)
  }

  /** Some value of the leaf carries hash h. */
  predicate HasLeafHash(values: seq<KeyHash>, h: Bytes)
  {
    exists i :: 0 <= i < |values| && values[i].hash == h
  }

  /**
   * validateExistenceProof: computeRootHashMembership over the key's
   * prefix (a nil proof, or one it cannot fold, panics), then the value's
   * leaf hash must be among the leaf values, the master key must have
   * signed the value, and the computed root must equal the reported one.
   */
  function ExistenceVerdict(c: Primitives, e: ProofEntry, identifier: Bytes, value: Bytes, signature: Bytes,
                            pos: nat, masterVK: Bytes, reportedRoot: NBytes, isMK: bool): Outcome
  {
    var prefix := KeyPrefix(c, identifier);
    if e.membershipProof.None? || !MembershipCheckable(prefix, e.membershipProof.value) then Panics
    else if !HasLeafHash(e.leafValues, ExpectedLeafHash(c, identifier, value, signature)) then Rejected
    else if !c.verifyBlob(masterVK, signature, SignedValue(value, pos, isMK)) then Rejected
    else if !BytesEqual(ComputeRootHashMembership(c, prefix, e.membershipProof.value, e.leafValues), reportedRoot)
    then Rejected
    else Accepted
  }

  /** validateExistenceProof, with its loop over the leaf values. */
  method ValidateExistenceProof(c: Primitives, e: ProofEntry, identifier: Bytes, value: Bytes, signature: Bytes,
                                pos: nat, masterVK: Bytes, reportedRoot: NBytes, isMK: bool) returns (r: Outcome)
    ensures r == ExistenceVerdict(c, e, identifier, value, signature, pos, masterVK, reportedRoot, isMK)
  {
    var prefix := KeyPrefix(c, identifier);
    if e.membershipProof.None? || !MembershipCheckable(prefix, e.membershipProof.value) {
      return Panics;
    }
    var computedRoot := ComputeRootHashMembership(c, prefix, e.membershipProof.value, e.leafValues);
    var expected := ExpectedLeafHash(c, identifier, value, signature);
    var foundMatch := false;
    var i := 0;
    while i < |e.leafValues|
      invariant i <= |e.leafValues|
      invariant foundMatch <==> exists j :: 0 <= j < i && e.leafValues[j].hash == expected
    {
      if e.leafValues[i].hash == expected {
        foundMatch := true;
      }
      i := i + 1;
    }
    if !foundMatch {
      return Rejected;
    }
    if !c.verifyBlob(masterVK, signature, SignedValue(value, pos, isMK)) {
      return Rejected;
    }
    if !BytesEqual(computedRoot, reportedRoot) {
      return Rejected;
    }
    return Accepted;
  }

  /** The frontier prefix of a membership proof: the copath labels followed by the leaf's label. */
  function FrontierOf(mp: MembershipProof): Bytes
  {
    GetPrefix(mp.copathNodes) + mp.leafPartialPrefix
  }

  /**
   * validateNonExistenceProof: an entry that claims a value is refused; the
   * frontier of its membership proof (a nil proof panics) must be a prefix
   * of the key, its leaf must hold exactly the frontier itself at position
   * 0, and the root computed for the frontier must equal the reported one.
   * An accepted entry proves a frontier leaf on the key's path.
   */
  function ValidateNonExistenceProof(c: Primitives, e: ProofEntry, identifier: Bytes, reportedRoot: NBytes): (r: Outcome)
    ensures e.valueExists ==> r == Rejected
    ensures r == Accepted ==>
      e.membershipProof.Some? && HasPrefix(KeyPrefix(c, identifier), FrontierOf(e.membershipProof.value)) &&
      e.leafValues == [KeyHash(FrontierOf(e.membershipProof.value), 0)]
  {
    if e.valueExists then Rejected
    else if e.membershipProof.None? then Panics
    else
      var mp := e.membershipProof.value;
      var frontier := FrontierOf(mp);
      if !HasPrefix(KeyPrefix(c, identifier), frontier) then Rejected
      else if |e.leafValues| != 1 then Rejected
      else if e.leafValues[0].pos != 0 then Rejected
      else if e.leafValues[0].hash != frontier then Rejected
      else if !RootHashDefined(mp.leafPartialPrefix, mp.copathNodes) then Panics
      else if !BytesEqual(ComputeRootHashMembership(c, frontier, mp, e.leafValues), reportedRoot) then Rejected
      else Accepted
  }

  /**
   * validateNonMembershipProof: a nil root (a tree nothing was appended to)
   * proves absence outright; otherwise the root computed from the key's
   * prefix and the proof (a nil proof, or one it cannot fold, panics) must
   * equal it.
   */
  function ValidateNonMembershipProof(c: Primitives, proof: Option<NonMembershipProof>, id: Bytes, rootHash: NBytes): (r: Outcome)
    ensures rootHash.None? ==> r == Accepted
    ensures r == Accepted && rootHash.Some? ==>
      proof.Some? && NonMembershipCheckable(KeyPrefix(c, id), proof.value) &&
      Flat(ComputeRootHashNonMembership(c, KeyPrefix(c, id), proof.value)) == rootHash.value
  {
    if rootHash.None? then Accepted
    else if proof.None? || !NonMembershipCheckable(KeyPrefix(c, id), proof.value) then Panics
    else if BytesEqual(ComputeRootHashNonMembership(c, KeyPrefix(c, id), proof.value), rootHash) then Accepted
    else Rejected
  }

  // ---------------------------------------------------------------------
  // The entries a partition builds from its tries.

  /** A trie root over keys of the length of a hashed identifier. */
  predicate Uniform(t: Node)
  {
    WF(t, true) && UniformKeys(t, 8 * DigestLen)
  }

  /** In such a trie no walk along a hashed identifier panics. */
  lemma KeySafe(c: Primitives, t: Node, identifier: Bytes)
    requires Uniform(t)
    ensures MembershipSafe(t, KeyPrefix(c, identifier)) && NonMembershipSafe(t, KeyPrefix(c, identifier))
  {
    UniformWalk(t, KeyPrefix(c, identifier), true);
  }

  /**
   * The entry GenerateExistenceProof builds for one trie: when getLeaf finds
   * the key, its membership proof and the leaf's values; otherwise its
   * non-membership proof and no values.
   */
  function TrieEntry(c: Primitives, t: Node, identifier: Bytes): (e: ProofEntry)
    requires Uniform(t)
    ensures e.valueExists <==> Lookup(t, KeyPrefix(c, identifier)).Some?
    ensures e.valueExists ==> e.membershipProof.Some? && e.leafValues == Lookup(t, KeyPrefix(c, identifier)).value
    ensures !e.valueExists ==> e.membershipProof.None? && e.nonMembershipProof.Some? && e.leafValues == []
  {
    var key := KeyPrefix(c, identifier);
    KeySafe(c, t, identifier);
    WalkLookup(t, key);
    assert t.prefix + key == key;
    if Walk(t, key).Reached? then
      var mp := MembershipProofOf(c, t, key).value;
      ProofEntry(Some(mp.0), None, true, mp.1)
    else
      ProofEntry(None, NonMembershipProofOf(c, t, key), false, [])
  }

  /**
   * An entry built from a trie holding the key passes validateExistenceProof
   * against the trie's hash exactly when the value's leaf hash is among the
   * key's values and the master key signed the value.
   */
  lemma ExistenceEntryAccepted(c: Primitives, t: Node, identifier: Bytes, value: Bytes, signature: Bytes,
                               pos: nat, masterVK: Bytes, isMK: bool)
    requires Uniform(t) && Lookup(t, KeyPrefix(c, identifier)).Some?
    ensures ExistenceVerdict(c, TrieEntry(c, t, identifier), identifier, value, signature, pos, masterVK,
                             Some(HashOf(c, t)), isMK) == Accepted
      <==> HasLeafHash(Lookup(t, KeyPrefix(c, identifier)).value, ExpectedLeafHash(c, identifier, value, signature)) &&
           c.verifyBlob(masterVK, signature, SignedValue(value, pos, isMK))
  {
    var key := KeyPrefix(c, identifier);
    KeySafe(c, t, identifier);
    MembershipRoundTrip(c, t, key);
  }

  /** An entry built from a trie without the key panics validateExistenceProof: it has no membership proof. */
  lemma ExistenceEntryOfAbsentKeyPanics(c: Primitives, t: Node, identifier: Bytes, value: Bytes, signature: Bytes,
                                        pos: nat, masterVK: Bytes, root: NBytes, isMK: bool)
    requires Uniform(t) && Lookup(t, KeyPrefix(c, identifier)).None?
    ensures ExistenceVerdict(c, TrieEntry(c, t, identifier), identifier, value, signature, pos, masterVK, root, isMK) == Panics
  {
  }

  /** An entry built from a trie without the key passes validateNonMembershipProof against the trie's hash. */
  lemma NonMembershipEntryAccepted(c: Primitives, t: Node, identifier: Bytes)
    requires Uniform(t) && Lookup(t, KeyPrefix(c, identifier)).None?
    ensures ValidateNonMembershipProof(c, TrieEntry(c, t, identifier).nonMembershipProof, identifier,
                                       Some(HashOf(c, t))) == Accepted
  {
    var key := KeyPrefix(c, identifier);
    KeySafe(c, t, identifier);
    WalkLookup(t, key);
    assert t.prefix + key == key;
    NonMembershipRoundTrip(c, t, key);
  }

  /**
   * A trie whose leaf at frontier f holds f itself at position 0 (the
   * frontier leaves of a set tree) yields, from f's membership proof, an
   * entry that passes validateNonExistenceProof against the trie's hash for
   * every identifier whose key starts with f.
   */
  lemma FrontierEntryAccepted(c: Primitives, t: Node, f: Bytes, identifier: Bytes)
    requires WF(t, true) && MembershipSafe(t, f) && Lookup(t, f) == Some([KeyHash(f, 0)])
    requires HasPrefix(KeyPrefix(c, identifier), f)
    ensures MembershipProofOf(c, t, f).Some?
    ensures ValidateNonExistenceProof(c, ProofEntry(Some(MembershipProofOf(c, t, f).value.0), None, false, [KeyHash(f, 0)]),
                                      identifier, Some(HashOf(c, t))) == Accepted
  {
    MembershipRoundTrip(c, t, f);
  }

  // ---------------------------------------------------------------------
  // A nil reported root lets an unbound membership proof through.

  /**
   * validateExistenceProof as intended: the proof's path must spell the
   * key, so that the computed root exists, before it is compared with the
   * reported root.
   */
  function CheckedExistenceVerdict(c: Primitives, e: ProofEntry, identifier: Bytes, value: Bytes, signature: Bytes,
                                   pos: nat, masterVK: Bytes, reportedRoot: NBytes, isMK: bool): (r: Outcome)
    ensures r == Accepted ==>
      e.membershipProof.Some? && FrontierOf(e.membershipProof.value) == KeyPrefix(c, identifier) &&
      HasLeafHash(e.leafValues, ExpectedLeafHash(c, identifier, value, signature)) &&
      c.verifyBlob(masterVK, signature, SignedValue(value, pos, isMK))
  {
    var prefix := KeyPrefix(c, identifier);
    if e.membershipProof.None? || !MembershipCheckable(prefix, e.membershipProof.value) then Panics
    else if !HasLeafHash(e.leafValues, ExpectedLeafHash(c, identifier, value, signature)) then Rejected
    else if !c.verifyBlob(masterVK, signature, SignedValue(value, pos, isMK)) then Rejected
    else
      var computedRoot := ComputeRootHashMembership(c, prefix, e.membershipProof.value, e.leafValues);
      if computedRoot.None? || !BytesEqual(computedRoot, reportedRoot) then Rejected
      else Accepted
  }

  /**
   * The check as intended still accepts every honest entry: one built from
   * a trie holding the key, checked against the trie's hash.
   */
  lemma CheckedExistenceEntryAccepted(c: Primitives, t: Node, identifier: Bytes, value: Bytes, signature: Bytes,
                                      pos: nat, masterVK: Bytes, isMK: bool)
    requires Uniform(t) && Lookup(t, KeyPrefix(c, identifier)).Some?
    ensures CheckedExistenceVerdict(c, TrieEntry(c, t, identifier), identifier, value, signature, pos, masterVK,
                                    Some(HashOf(c, t)), isMK) == Accepted
      <==> HasLeafHash(Lookup(t, KeyPrefix(c, identifier)).value, ExpectedLeafHash(c, identifier, value, signature)) &&
           c.verifyBlob(masterVK, signature, SignedValue(value, pos, isMK))
  {
    var key := KeyPrefix(c, identifier);
    KeySafe(c, t, identifier);
    MembershipRoundTrip(c, t, key);
    ExistenceEntryAccepted(c, t, identifier, value, signature, pos, masterVK, isMK);
  }

  /**
   * As written, an entry whose empty proof says nothing about the key is
   * accepted against a nil reported root (the root of an update tree
   * nothing was appended to): the computed root is nil too, and
   * bytes.Equal(nil, nil) holds. The check as intended refuses it.
   */
  lemma NilRootAcceptsUnboundProof(c: Primitives, identifier: Bytes, value: Bytes, signature: Bytes,
                                   pos: nat, masterVK: Bytes, isMK: bool)
    requires c.verifyBlob(masterVK, signature, SignedValue(value, pos, isMK))
    ensures var e := ProofEntry(Some(MembershipProof([], [])), None, true,
                                [KeyHash(ExpectedLeafHash(c, identifier, value, signature), 0)]);
      ExistenceVerdict(c, e, identifier, value, signature, pos, masterVK, None, isMK) == Accepted &&
      CheckedExistenceVerdict(c, e, identifier, value, signature, pos, masterVK, None, isMK) == Rejected
  {
    var e := ProofEntry(Some(MembershipProof([], [])), None, true,
                        [KeyHash(ExpectedLeafHash(c, identifier, value, signature), 0)]);
    assert FrontierOf(e.membershipProof.value) == [];
    assert e.leafValues[0].hash == ExpectedLeafHash(c, identifier, value, signature);
  }

  // ---------------------------------------------------------------------
  // Whole proofs.

  /** The index of the last entry that claims a value, if any. */
  function LastMembership(entries: seq<ProofEntry>): (r: Option<nat>)
    ensures r.Some? ==>
      r.value < |entries| && entries[r.value].valueExists &&
      (forall j :: r.value < j < |entries| ==> !entries[j].valueExists)
    ensures r.None? ==> forall j :: 0 <= j < |entries| ==> !entries[j].valueExists
  {
    if entries == [] then None
    else if entries[|entries| - 1].valueExists then Some(|entries| - 1)
    else LastMembership(entries[..|entries| - 1])
  }

  /** The entries GenerateExistenceProof builds from a list of tries, one per trie. */
  function TrieEntries(c: Primitives, ts: seq<Node>, identifier: Bytes): (es: seq<ProofEntry>)
    requires forall i :: 0 <= i < |ts| ==> Uniform(ts[i])
    ensures |es| == |ts| && forall i :: 0 <= i < |ts| ==> es[i] == TrieEntry(c, ts[i], identifier)
  {
    seq(|ts|, i requires 0 <= i < |ts| => TrieEntry(c, ts[i], identifier))
  }

  /**
   * Reported roots that fit the tries: each is the trie's hash, or nil for a
   * trie that does not hold the key.
   */
  predicate Commits(c: Primitives, roots: seq<NBytes>, ts: seq<Node>, key: Bytes)
  {
    |roots| == |ts| &&
    forall i :: 0 <= i < |ts| ==> roots[i] == Some(HashOf(c, ts[i])) || (roots[i].None? && Lookup(ts[i], key).None?)
  }
}
