/**
 * The cryptographic helpers the core calls but does not define. They are
 * uninterpreted: every result proved here holds for any choice of them.
 */
module Crypto {
  import opened Bits
  import opened Wrappers

  /** Length in bytes of a crypto.Hash digest. */
  const DigestLen: nat := 32

  /** An all-zero digest; it serves only as the witness that HashFn is inhabited. */
  function ZeroDigest(parts: seq<Bytes>): (d: Bytes)
    ensures |d| == DigestLen
  {
    seq(DigestLen, _ => 0)
  }

  /** crypto.Hash over a list of byte strings; a nil argument is the empty string. */
  type HashFn = f: seq<Bytes> -> Bytes | forall parts :: |f(parts)| == DigestLen
    witness ZeroDigest

  /** One value stored in a trie leaf: a value hash and the position it was appended at. */
  datatype KeyHash = KeyHash(hash: Bytes, pos: nat)

  datatype Primitives = Primitives(
    /** crypto.Hash */
    hash: HashFn,
    /** leafHash(partialPrefix, values): the hash of a trie leaf */
    leafHash: (Bytes, seq<KeyHash>) -> Bytes,
    /** ComputeLeafNodeHash(identifier, value, signature, pos) */
    leafNodeHash: (Bytes, Bytes, Bytes, nat) -> Bytes,
    /** ComputeContentHash(key, value, signature, pos) */
    contentHash: (Bytes, Bytes, Bytes, nat) -> Bytes,
    /** crypto.VerifyBlob(verificationKey, signature, message) */
    verifyBlob: (Bytes, Bytes, Bytes) -> bool)

  /** A Go byte slice that may be nil. */
  type NBytes = Option<Bytes>

  /** The contents of a possibly nil slice: nil reads as the empty string. */
  function Flat(b: NBytes): Bytes
  {
    if b.Some? then b.value else []
  }

  /** bytes.Equal, for which nil and an empty slice are equal. */
  predicate BytesEqual(a: NBytes, b: NBytes)
  {
    Flat(a) == Flat(b)
  }

  /** makePrefixFromKey: the bits of the key's hash, one per byte. */
  function KeyPrefix(c: Primitives, key: Bytes): (p: Bytes)
    ensures |p| == 8 * DigestLen && IsBits(p)
  {
    BitsOfAt(c.hash([key]));
    BitsOf(c.hash([key]))
  }
}
