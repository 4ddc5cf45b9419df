/**
 * Bytes, bit sequences and the bit conversions of core/prefix_tree.go.
 * A key of the tries is a bit sequence stored one bit per byte.
 */
module Bits {
  newtype byte = x: int | 0 <= x < 256

  type Bytes = seq<byte>

  function Pow2(n: nat): (r: nat)
    ensures r >= 1
  {
    if n == 0 then 1 else 2 * Pow2(n - 1)
  }

  /** Bit i of b, counting from the most significant bit (i = 0). */
  function BitOf(b: byte, i: nat): (r: byte)
    requires i < 8
    ensures r == 0 || r == 1
  {
    ((b as int / Pow2(7 - i)) % 2) as byte
  }

  /** Every entry is 0 or 1. */
  predicate IsBits(s: Bytes)
  {
    forall i :: 0 <= i < |s| ==> s[i] == 0 || s[i] == 1
  }

  /** The eight bits of one byte, most significant first. */
  function ByteBits(b: byte): Bytes
  {
    [BitOf(b, 0), BitOf(b, 1), BitOf(b, 2), BitOf(b, 3),
     BitOf(b, 4), BitOf(b, 5), BitOf(b, 6), BitOf(b, 7)]
  }

  /** Specification of ConvertBitsToBytes: the bits of every byte, in order. */
  function BitsOf(s: Bytes): Bytes
  {
    if s == [] then [] else ByteBits(s[0]) + BitsOf(s[1..])
  }

  /** getBit: bit i of a byte string, most significant bit of prefix[0] first. */
  function GetBit(prefix: Bytes, i: nat): (r: byte)
    requires i / 8 < |prefix|
    ensures r == 0 || r == 1
  {
    BitOf(prefix[i / 8], i % 8)
  }

  lemma {:induction false} BitsOfAppend(s: Bytes, b: byte)
    ensures BitsOf(s + [b]) == BitsOf(s) + ByteBits(b)
  {
    if s == [] {
      assert [b][1..] == [];
    } else {
      assert (s + [b])[1..] == s[1..] + [b];
      BitsOfAppend(s[1..], b);
    }
  }

  lemma DivMod8(i: nat)
    requires i >= 8
    ensures (i - 8) / 8 == i / 8 - 1 && (i - 8) % 8 == i % 8
  {
  }

  lemma {:induction false} BitsOfLength(s: Bytes)
    ensures |BitsOf(s)| == 8 * |s|
  {
    if s != [] { BitsOfLength(s[1..]); }
  }

  /** Entry i of the expansion is the bit getBit reads at position i. */
  lemma {:induction false} BitsOfIndex(s: Bytes, i: nat)
    requires i < 8 * |s|
    ensures |BitsOf(s)| == 8 * |s|
    ensures BitsOf(s)[i] == GetBit(s, i)
  {
    BitsOfLength(s);
    if i >= 8 {
      BitsOfLength(s[1..]);
      DivMod8(i);
      BitsOfIndex(s[1..], i - 8);
      assert BitsOf(s)[i] == BitsOf(s[1..])[i - 8];
    } else {
      assert i / 8 == 0 && i % 8 == i;
      assert BitsOf(s)[i] == ByteBits(s[0])[i];
    }
  }

  /** ConvertBitsToBytes yields 8n bit entries, and entry i is getBit(input, i). */
  lemma BitsOfAt(s: Bytes)
    ensures |BitsOf(s)| == 8 * |s|
    ensures IsBits(BitsOf(s))
    ensures forall i :: 0 <= i < 8 * |s| ==> BitsOf(s)[i] == GetBit(s, i)
  {
    BitsOfLength(s);
    forall i | 0 <= i < 8 * |s|
      ensures BitsOf(s)[i] == GetBit(s, i)
    {
      BitsOfIndex(s, i);
    }
  }

  lemma ByteBitsAt(b: byte, i: nat)
    requires i < 8
    ensures ByteBits(b)[i] == BitOf(b, i)
  {
  }

  /**
   * ConvertBitsToBytes: expands every byte into its eight bits, most
   * significant first.
   */
  method ConvertBitsToBytes(asBits: Bytes) returns (res: Bytes)
    ensures res == BitsOf(asBits)
    ensures |res| == 8 * |asBits| && IsBits(res)
    ensures forall i :: 0 <= i < |res| ==> res[i] == GetBit(asBits, i)
  {
    res := [];
    var k := 0;
    while k < |asBits|
      invariant 0 <= k <= |asBits|
      invariant res == BitsOf(asBits[..k])
    {
      var byt := asBits[k];
      var i := 0;
      while i < 8
        invariant 0 <= i <= 8
        invariant res == BitsOf(asBits[..k]) + ByteBits(byt)[..i]
      {
        ByteBitsAt(byt, i);
        assert ByteBits(byt)[..i + 1] == ByteBits(byt)[..i] + [BitOf(byt, i)];
        if BitOf(byt, i) == 0 {
          res := res + [0];
        } else {
          res := res + [1];
        }
        i := i + 1;
      }
      assert ByteBits(byt)[..8] == ByteBits(byt);
      assert asBits[..k + 1] == asBits[..k] + [byt];
      BitsOfAppend(asBits[..k], byt);
      k := k + 1;
    }
    assert asBits[..k] == asBits;
    BitsOfAt(asBits);
  }

  /** a starts with p (bytes.HasPrefix). */
  predicate HasPrefix(a: Bytes, p: Bytes)
  {
    |p| <= |a| && a[..|p|] == p
  }

  /** bytes.Compare(s[i:i+len(p)], p) == 0: the bytes of s from i on start with p. */
  predicate MatchesAt(s: Bytes, i: nat, p: Bytes)
    requires i + |p| <= |s|
  {
    s[i..i + |p|] == p
  }

  /** Length of the longest common prefix of a and b. */
  function CommonPrefixLen(a: Bytes, b: Bytes): (j: nat)
    ensures j <= |a| && j <= |b|
    ensures a[..j] == b[..j]
    ensures j < |a| && j < |b| ==> a[j] != b[j]
  {
    if a == [] || b == [] || a[0] != b[0] then 0
    else 1 + CommonPrefixLen(a[1..], b[1..])
  }

  /** The first index at which a and b differ, found byte by byte, is their common prefix length. */
  lemma CommonPrefixLenAt(a: Bytes, b: Bytes, j: nat)
    requires j <= |a| && j <= |b| && a[..j] == b[..j]
    requires j == |a| || j == |b| || a[j] != b[j]
    ensures CommonPrefixLen(a, b) == j
  {
  }

  /** When a starts with p, the common prefix of p and a is all of p. */
  lemma CommonPrefixLenOfPrefix(p: Bytes, a: Bytes)
    requires HasPrefix(a, p)
    ensures CommonPrefixLen(p, a) == |p|
  {
    CommonPrefixLenAt(p, a, |p|);
  }

  /** The ASCII decimal digits of n, as strconv.Itoa writes them. */
  function Decimal(n: nat): (r: Bytes)
    ensures |r| >= 1
    ensures forall i :: 0 <= i < |r| ==> 48 <= r[i] <= 57
  {
    if n < 10 then [(48 + n) as byte] else Decimal(n / 10) + [(48 + n % 10) as byte]
  }

  // Shifts.

  /** x >> j, one bit at a time as the verifier's loops shift. */
  function Shr(x: nat, j: nat): nat
  {
    if j == 0 then x else Shr(x / 2, j - 1)
  }

  /** q << j: the first leaf of block q of 2^j leaves. */
  function Shl(q: nat, j: nat): nat
  {
    if j == 0 then q else 2 * Shl(q, j - 1)
  }

  lemma {:induction false} ShlOne(j: nat)
    ensures Shl(1, j) == Pow2(j)
  {
    if j > 0 {
      ShlOne(j - 1);
    }
  }

  lemma {:induction false} ShlAdd(a: nat, b: nat, j: nat)
    ensures Shl(a + b, j) == Shl(a, j) + Shl(b, j)
  {
    if j > 0 {
      ShlAdd(a, b, j - 1);
    }
  }

  lemma {:induction false} ShlShl(a: nat, i: nat, j: nat)
    ensures Shl(Shl(a, i), j) == Shl(a, i + j)
  {
    if j > 0 {
      ShlShl(a, i, j - 1);
    }
  }

  lemma {:induction false} ShlZero(j: nat)
    ensures Shl(0, j) == 0
  {
    if j > 0 {
      ShlZero(j - 1);
    }
  }

  /** A number below 2^j shifts right by j to 0. */
  lemma {:induction false} ShrSmall(x: nat, j: nat)
    requires x < Pow2(j)
    ensures Shr(x, j) == 0
  {
    if j > 0 {
      ShrSmall(x / 2, j - 1);
    }
  }

  lemma {:induction false} ShlPos(a: nat, j: nat)
    ensures Shl(a, j) >= a
  {
    if j > 0 {
      ShlPos(a, j - 1);
    }
  }

  /** The two children of block q at level d start at blocks 2q and 2q + 1 of level d - 1. */
  lemma Children(q: nat, d: nat)
    requires d >= 1
    ensures Shl(2 * q, d - 1) == Shl(q, d)
    ensures Shl(2 * q + 1, d - 1) == Shl(q, d) + Pow2(d - 1)
  {
    ShlShl(q, 1, d - 1);
    ShlAdd(2 * q, 1, d - 1);
    ShlOne(d - 1);
  }

  /** Shifting out j bits leaves the index of x's block of 2^j. */
  lemma {:induction false} ShrAligned(q: nat, j: nat, r: nat)
    requires r < Pow2(j)
    ensures Shr(Shl(q, j) + r, j) == q
  {
    if j > 0 {
      ShrAligned(q, j - 1, r / 2);
    }
  }

  lemma {:induction false} ShrMono(x: nat, y: nat, j: nat)
    requires x <= y
    ensures Shr(x, j) <= Shr(y, j)
  {
    if j > 0 {
      ShrMono(x / 2, y / 2, j - 1);
    }
  }

  lemma {:induction false} ShrSucc(x: nat, j: nat)
    ensures Shr(x, j + 1) == Shr(x, j) / 2
  {
    if j > 0 {
      ShrSucc(x / 2, j - 1);
    }
  }
}
