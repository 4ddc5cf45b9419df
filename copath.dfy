/**
 * Copath proofs of the prefix trie and the pure functions of
 * core/prefix_tree.go that check them: getPrefix, getRootHash,
 * computeRootHashMembership and computeRootHashNonMembership.
 */
module Copath {
  import opened Wrappers
  import opened Bits
  import opened Crypto

  /** forNodeOnCopath: an ancestor's partial prefix (nil for the root) and the hash of its off-path child. */
  datatype CopathEntry = CopathEntry(partialPrefix: NBytes, otherChildHash: NBytes)

  /** The copath runs from the leaf's parent (first) to the root (last). */
  datatype MembershipProof = MembershipProof(leafPartialPrefix: Bytes, copathNodes: seq<CopathEntry>)

  /** endNodeHash is nil for an empty child of the root. */
  datatype NonMembershipProof =
    NonMembershipProof(endNodeHash: NBytes, endNodePartialPrefix: Bytes, copathNodes: seq<CopathEntry>)

  /** getPrefix: the copath labels concatenated from the last (root) entry to the first. */
  function GetPrefix(copath: seq<CopathEntry>): (r: Bytes)
  {
    if copath == [] then [] else GetPrefix(copath[1..]) + Flat(copath[0].partialPrefix)
  }

  /** The root-most entry's label comes first in getPrefix. */
  lemma {:induction false} GetPrefixSnoc(copath: seq<CopathEntry>, e: CopathEntry)
    ensures GetPrefix(copath + [e]) == Flat(e.partialPrefix) + GetPrefix(copath)
  {
    if copath == [] {
      assert ([e])[1..] == [];
    } else {
      assert (copath + [e])[1..] == copath[1..] + [e];
      GetPrefixSnoc(copath[1..], e);
    }
  }

  /**
   * The inputs on which getRootHash does not panic: the end node has a
   * label, and every entry below the root has a sibling hash and a
   * non-empty label.
   */
  predicate RootHashDefined(endNodePartialPrefix: Bytes, copath: seq<CopathEntry>)
  {
    |endNodePartialPrefix| > 0 &&
    forall i :: 0 <= i < |copath| - 1 ==>
      copath[i].otherChildHash.Some? && copath[i].partialPrefix.Some? &&
      |copath[i].partialPrefix.value| > 0
  }

  /** Whether the running hash enters copath entry i from the left. */
  function ComingFromLeft(endNodePartialPrefix: Bytes, copath: seq<CopathEntry>, i: nat): bool
    requires RootHashDefined(endNodePartialPrefix, copath) && i < |copath|
  {
    if i == 0 then endNodePartialPrefix[0] == 0
    else copath[i - 1].partialPrefix.value[0] == 0
  }

  /** The running hash of getRootHash after its first n iterations. */
  function FoldedHash(c: Primitives, endNodeHash: NBytes, endNodePartialPrefix: Bytes,
                      copath: seq<CopathEntry>, n: nat): (r: NBytes)
    requires RootHashDefined(endNodePartialPrefix, copath) && n <= |copath|
    ensures n > 0 ==> r.Some?
    decreases n
  {
    if n == 0 then endNodeHash
    else
      var curr := Flat(FoldedHash(c, endNodeHash, endNodePartialPrefix, copath, n - 1));
      var e := copath[n - 1];
      if ComingFromLeft(endNodePartialPrefix, copath, n - 1)
      then Some(c.hash([Flat(e.partialPrefix), curr, Flat(e.otherChildHash)]))
      else Some(c.hash([Flat(e.partialPrefix), Flat(e.otherChildHash), curr]))
  }

  /** Iterations up to n read only the first n entries of the copath. */
  lemma {:induction false} FoldedHashPrefix(c: Primitives, h: NBytes, ep: Bytes,
                                            a: seq<CopathEntry>, b: seq<CopathEntry>, n: nat)
    requires RootHashDefined(ep, a) && RootHashDefined(ep, a + b) && n <= |a|
    ensures FoldedHash(c, h, ep, a + b, n) == FoldedHash(c, h, ep, a, n)
  {
    if n > 0 {
      FoldedHashPrefix(c, h, ep, a, b, n - 1);
      assert (a + b)[n - 1] == a[n - 1];
      if n >= 2 { assert (a + b)[n - 2] == a[n - 2]; }
    }
  }

  /**
   * getRootHash: folds the copath from the end node up to the root,
   * hashing (label, left, right) at every level. Without copath entries it
   * returns the end node's hash.
   */
  function GetRootHash(c: Primitives, endNodeHash: NBytes, endNodePartialPrefix: Bytes,
                       copath: seq<CopathEntry>): (r: NBytes)
    requires RootHashDefined(endNodePartialPrefix, copath)
    ensures copath == [] ==> r == endNodeHash
    ensures copath != [] ==> r.Some? && |r.value| == DigestLen
  {
    FoldedHash(c, endNodeHash, endNodePartialPrefix, copath, |copath|)
  }

  /** The membership check that does not panic on the given proof. */
  predicate MembershipCheckable(prefix: Bytes, proof: MembershipProof)
  {
    prefix == GetPrefix(proof.copathNodes) + proof.leafPartialPrefix ==>
      RootHashDefined(proof.leafPartialPrefix, proof.copathNodes)
  }

  /**
   * computeRootHashMembership: nil unless the copath labels followed by the
   * leaf label spell the key; otherwise the root hash the proof commits to.
   */
  function ComputeRootHashMembership(c: Primitives, prefix: Bytes, proof: MembershipProof,
                                     leafValues: seq<KeyHash>): (rootHash: NBytes)
    requires MembershipCheckable(prefix, proof)
    ensures rootHash.None? <==> prefix != GetPrefix(proof.copathNodes) + proof.leafPartialPrefix
  {
    if prefix != GetPrefix(proof.copathNodes) + proof.leafPartialPrefix then None
    else GetRootHash(c, Some(c.leafHash(proof.leafPartialPrefix, leafValues)),
                     proof.leafPartialPrefix, proof.copathNodes)
  }

  /** The non-membership check that does not panic on the given proof. */
  predicate NonMembershipCheckable(prefix: Bytes, proof: NonMembershipProof)
  {
    var copathPrefix := GetPrefix(proof.copathNodes);
    HasPrefix(prefix, copathPrefix) ==>
      |prefix| > |copathPrefix| && |proof.endNodePartialPrefix| > 0 &&
      (prefix[|copathPrefix|] == proof.endNodePartialPrefix[0] ==>
        (proof.endNodeHash.None? ==> |proof.copathNodes| == 1) &&
        (proof.endNodeHash.None? || !HasPrefix(prefix[|copathPrefix|..], proof.endNodePartialPrefix) ==>
          RootHashDefined(proof.endNodePartialPrefix, proof.copathNodes)))
  }

  /**
   * computeRootHashNonMembership: nil exactly when the copath labels are not
   * a prefix of the key, when the end node leaves the key's path at its
   * first bit, or when a non-empty end node's label continues the key (the
   * key could lie below it); otherwise the root hash the proof commits to.
   */
  function ComputeRootHashNonMembership(c: Primitives, prefix: Bytes, proof: NonMembershipProof)
    : (rootHash: NBytes)
    requires NonMembershipCheckable(prefix, proof)
    ensures rootHash.None? <==>
      (!HasPrefix(prefix, GetPrefix(proof.copathNodes)) ||
       prefix[|GetPrefix(proof.copathNodes)|] != proof.endNodePartialPrefix[0] ||
       (proof.endNodeHash.Some? &&
        HasPrefix(prefix[|GetPrefix(proof.copathNodes)|..], proof.endNodePartialPrefix)))
  {
    var copathPrefix := GetPrefix(proof.copathNodes);
    if !HasPrefix(prefix, copathPrefix) then None
    else
      var remainingPrefix := prefix[|copathPrefix|..];
      if remainingPrefix[0] != proof.endNodePartialPrefix[0] then None
      else if proof.endNodeHash.Some? && HasPrefix(remainingPrefix, proof.endNodePartialPrefix) then None
      else GetRootHash(c, proof.endNodeHash, proof.endNodePartialPrefix, proof.copathNodes)
  }
}
