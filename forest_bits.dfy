/**
 * The binary arithmetic of the history forest (core/history_forest.go). A
 * node is named by its index (depth, shift): it covers the 2^depth leaves
 * starting at shift << depth. A forest of s leaves is the list of perfect
 * trees given by the set bits of s, the highest bit first.
 */
module ForestBits {
  import opened Bits

  /** The index of a history node: its height above the leaves and its rank at that height. */
  datatype Index = Index(depth: nat, shift: nat)

  /** Bit k of s. */
  predicate Bit(s: nat, k: nat)
  {
    Shr(s, k) % 2 == 1
  }

  /** The low k bits of s, from bit k - 1 down to bit 0. */
  function Low(s: nat, k: nat): nat
  {
    if k == 0 then 0 else (if Bit(s, k - 1) then Pow2(k - 1) else 0) + Low(s, k - 1)
  }

  lemma {:induction false} ShrShr(x: nat, a: nat, b: nat)
    ensures Shr(Shr(x, a), b) == Shr(x, a + b)
  {
    if a > 0 {
      ShrShr(x / 2, a - 1, b);
    }
  }

  /** s splits into its low k bits and the rest shifted back into place. */
  lemma {:induction false} LowSplit(s: nat, k: nat)
    ensures Low(s, k) + Shl(Shr(s, k), k) == s
  {
    if k > 0 {
      LowSplit(s, k - 1);
      ShrSucc(s, k - 1);
      var h := Shr(s, k);
      assert Shr(s, k - 1) == 2 * h + (if Bit(s, k - 1) then 1 else 0);
      Children(h, k);
    }
  }

  /** Below 2^k a number is its own low k bits. */
  lemma LowOfSmall(s: nat, k: nat)
    requires s < Pow2(k)
    ensures Low(s, k) == s
  {
    LowSplit(s, k);
    ShrSmall(s, k);
    ShlZero(k);
  }

  /** Shifting 2^D right by d <= D bits leaves 2^(D - d). */
  lemma {:induction false} ShrPow2(D: nat, d: nat)
    requires d <= D
    ensures Shr(Pow2(D), d) == Pow2(D - d)
  {
    if d > 0 {
      ShrPow2(D, d - 1);
      ShrSucc(Pow2(D), d - 1);
      assert Pow2(D - (d - 1)) == 2 * Pow2(D - d);
    }
  }

  /** A number below 2^D shifted right by d <= D bits is below 2^(D - d). */
  lemma {:induction false} ShrLt(x: nat, D: nat, d: nat)
    requires x < Pow2(D) && d <= D
    ensures Shr(x, d) < Pow2(D - d)
  {
    if d > 0 {
      ShrLt(x, D, d - 1);
      ShrSucc(x, d - 1);
      assert Pow2(D - (d - 1)) == 2 * Pow2(D - d);
    }
  }

  /** The number of trailing one bits of s: the carries of s + 1. */
  function TrailingOnes(s: nat): nat
  {
    if s % 2 == 1 then 1 + TrailingOnes(s / 2) else 0
  }

  /** Adding one to s adds one to s >> d exactly while d does not pass its carries. */
  lemma {:induction false} ShrCarry(s: nat, d: nat)
    ensures Shr(s + 1, d) == Shr(s, d) + (if d <= TrailingOnes(s) then 1 else 0)
  {
    if d > 0 {
      ShrCarry(s / 2, d - 1);
      if s % 2 == 0 {
        assert (s + 1) / 2 == s / 2;
      } else {
        assert (s + 1) / 2 == s / 2 + 1;
      }
    }
  }

  /** The bits of s at and above its trailing ones: bit TrailingOnes(s) is clear. */
  lemma {:induction false} TrailingOnesBit(s: nat)
    ensures !Bit(s, TrailingOnes(s))
    ensures forall j: nat :: j < TrailingOnes(s) ==> Bit(s, j)
  {
    if s % 2 == 1 {
      TrailingOnesBit(s / 2);
      forall j: nat | j < TrailingOnes(s)
        ensures Bit(s, j)
      {
        if j > 0 {
          assert Bit(s / 2, j - 1);
          assert Shr(s, j) == Shr(s / 2, j - 1);
        }
      }
    }
  }

  /** Every index raised by j levels, keeping its shift. */
  function Lift(r: seq<Index>, j: nat): (l: seq<Index>)
    ensures |l| == |r|
    ensures forall i :: 0 <= i < |r| ==> l[i] == Index(r[i].depth + j, r[i].shift)
  {
    seq(|r|, i requires 0 <= i < |r| => Index(r[i].depth + j, r[i].shift))
  }

  /**
   * The roots of a forest of s leaves, highest first. The trees of height
   * at least one are those of s / 2 leaves, one level up; an odd s adds the
   * single leaf s - 1.
   */
  function Roots(s: nat): seq<Index>
    decreases s
  {
    if s == 0 then [] else Lift(Roots(s / 2), 1) + (if s % 2 == 1 then [Index(0, s - 1)] else [])
  }

  /** bits.OnesCount */
  function Popcount(s: nat): nat
    decreases s
  {
    if s == 0 then 0 else s % 2 + Popcount(s / 2)
  }

  /** There is one root per set bit of the size. */
  lemma {:induction false} RootsCount(s: nat)
    ensures |Roots(s)| == Popcount(s)
    decreases s
  {
    if s > 0 {
      RootsCount(s / 2);
    }
  }

  /** The roots are ordered by strictly decreasing height. */
  lemma {:induction false} RootsDecreasing(s: nat)
    ensures forall a, b :: 0 <= a < b < |Roots(s)| ==> Roots(s)[a].depth > Roots(s)[b].depth
    decreases s
  {
    if s > 0 {
      RootsDecreasing(s / 2);
    }
  }

  /** The roots tile the leaves: each tree starts where the previous ends, the last ends at s. */
  lemma {:induction false} RootsTile(s: nat)
    ensures s == 0 <==> |Roots(s)| == 0
    ensures forall a :: 0 <= a < |Roots(s)| - 1 ==>
      Shl(Roots(s)[a].shift + 1, Roots(s)[a].depth) == Shl(Roots(s)[a + 1].shift, Roots(s)[a + 1].depth)
    ensures |Roots(s)| > 0 ==> Shl(Roots(s)[0].shift, Roots(s)[0].depth) == 0
    ensures |Roots(s)| > 0 ==> Shl(Roots(s)[|Roots(s)| - 1].shift + 1, Roots(s)[|Roots(s)| - 1].depth) == s
    decreases s
  {
    if s > 0 {
      var h := s / 2;
      RootsTile(h);
      var R, L := Roots(h), Lift(Roots(h), 1);
      forall a | 0 <= a < |L|
        ensures Shl(L[a].shift, L[a].depth) == Shl(R[a].shift, R[a].depth) * 2
        ensures Shl(L[a].shift + 1, L[a].depth) == Shl(R[a].shift + 1, R[a].depth) * 2
      {
      }
      if s % 2 == 1 && |R| > 0 {
        assert Shl(R[|R| - 1].shift + 1, R[|R| - 1].depth) == h;
      }
    }
  }

  /** The roots of 2y + b: those of y one level up, then leaf 2y when b is 1. */
  lemma RootsDouble(y: nat, b: nat)
    requires b <= 1
    ensures Roots(2 * y + b) == Lift(Roots(y), 1) + (if b == 1 then [Index(0, 2 * y)] else [])
  {
    if y == 0 && b == 0 {
      assert Lift([], 1) == [];
    }
  }

  lemma LiftAppend(a: seq<Index>, b: seq<Index>, j: nat)
    ensures Lift(a + b, j) == Lift(a, j) + Lift(b, j)
  {
  }

  lemma LiftTake(a: seq<Index>, n: nat, j: nat)
    requires n <= |a|
    ensures Lift(a[..n], j) == Lift(a, j)[..n]
  {
  }

  /** Appending leaf s pops the TrailingOnes(s) smallest roots and pushes their merged tree. */
  lemma {:induction false} Carry(s: nat)
    ensures |Roots(s)| >= TrailingOnes(s)
    ensures Roots(s + 1) == Roots(s)[..|Roots(s)| - TrailingOnes(s)] + [Index(TrailingOnes(s), Shr(s, TrailingOnes(s)))]
    decreases s
  {
    var h := s / 2;
    if s % 2 == 1 {
      Carry(h);
      var n, t := |Roots(h)|, TrailingOnes(h);
      CarryOdd(s, h, n, t);
      assert TrailingOnes(s) == 1 + t && Shr(s, TrailingOnes(s)) == Shr(h, t);
    } else {
      CarryEven(s);
      assert Roots(s)[..|Roots(s)|] == Roots(s);
    }
  }

  /** Appending to an even size adds one leaf root. */
  lemma CarryEven(s: nat)
    requires s % 2 == 0
    ensures Roots(s + 1) == Roots(s) + [Index(0, s)]
  {
    RootsDouble(s / 2, 0);
    RootsDouble(s / 2, 1);
  }

  /** The carry step of an odd size s = 2h + 1 from the carry of h. */
  lemma CarryOdd(s: nat, h: nat, n: nat, t: nat)
    requires s == 2 * h + 1
    requires n == |Roots(h)| && n >= t
    requires Roots(h + 1) == Roots(h)[..n - t] + [Index(t, Shr(h, t))]
    ensures |Roots(s)| == n + 1
    ensures Roots(s + 1) == Roots(s)[..n - t] + [Index(t + 1, Shr(h, t))]
  {
    var L := Lift(Roots(h), 1);
    RootsDouble(h, 1);
    RootsDouble(h + 1, 0);
    assert s + 1 == 2 * (h + 1) + 0;
    LiftAppend(Roots(h)[..n - t], [Index(t, Shr(h, t))], 1);
    LiftTake(Roots(h), n - t, 1);
    calc {
      Roots(s + 1);
      Lift(Roots(h + 1), 1);
      Lift(Roots(h)[..n - t], 1) + Lift([Index(t, Shr(h, t))], 1);
      { assert Lift([Index(t, Shr(h, t))], 1) == [Index(t + 1, Shr(h, t))]; }
      L[..n - t] + [Index(t + 1, Shr(h, t))];
      { assert (L + [Index(0, 2 * h)])[..n - t] == L[..n - t]; }
      Roots(s)[..n - t] + [Index(t + 1, Shr(h, t))];
    }
  }

  /**
   * The loop of getOldRoots over bits k - 1 down to 0 of s, with total the
   * leaves already covered: a root for each set bit.
   */
  function OldRoots(s: nat, k: nat, total: nat): seq<Index>
  {
    if k == 0 then []
    else if Bit(s, k - 1) then [Index(k - 1, Shr(total, k - 1))] + OldRoots(s, k - 1, total + Pow2(k - 1))
    else OldRoots(s, k - 1, total)
  }

  lemma LiftLift(r: seq<Index>, a: nat, b: nat)
    ensures Lift(Lift(r, a), b) == Lift(r, a + b)
  {
  }

  /** Shifting the leaf count left by j raises every root by j levels. */
  lemma {:induction false} RootsShl(x: nat, j: nat)
    ensures Roots(Shl(x, j)) == Lift(Roots(x), j)
  {
    if j == 0 {
      assert Lift(Roots(x), 0) == Roots(x);
    } else {
      RootsShl(x, j - 1);
      var y := Shl(x, j - 1);
      assert Shl(x, j) == 2 * y;
      if y > 0 {
        assert Roots(2 * y) == Lift(Roots(y), 1);
      }
      LiftLift(Roots(x), j - 1, 1);
    }
  }

  /** A block of 2^(k - 1) leaves after Shl(y, k) leaves adds one root of height k - 1. */
  lemma PushLevel(y: nat, k: nat)
    requires k >= 1
    ensures Roots(Shl(2 * y + 1, k - 1)) == Roots(Shl(y, k)) + [Index(k - 1, 2 * y)]
  {
    RootsShl(2 * y + 1, k - 1);
    RootsShl(y, k);
    RootsDouble(y, 1);
    LiftAppend(Lift(Roots(y), 1), [Index(0, 2 * y)], k - 1);
    LiftLift(Roots(y), 1, k - 1);
  }

  /** The high-to-low loop of getOldRoots finds the same roots as Roots. */
  lemma {:induction false} OldRootsAreRoots(s: nat, k: nat, y: nat)
    ensures Roots(Shl(y, k) + Low(s, k)) == Roots(Shl(y, k)) + OldRoots(s, k, Shl(y, k))
  {
    if k > 0 {
      Children(y, k);
      if Bit(s, k - 1) {
        OldRootsAreRoots(s, k - 1, 2 * y + 1);
        ShrAligned(2 * y, k - 1, 0);
        PushLevel(y, k);
      } else {
        OldRootsAreRoots(s, k - 1, 2 * y);
      }
    }
  }

  /** For s below 2^k the loop of getOldRoots finds exactly the roots of s. */
  lemma OldRootsOfSmall(s: nat, k: nat)
    requires s < Pow2(k)
    ensures OldRoots(s, k, 0) == Roots(s)
  {
    OldRootsAreRoots(s, k, 0);
    LowOfSmall(s, k);
    ShlZero(k);
  }

  /** Shifting right by j <= k carries a block of 2^k through whole. */
  lemma {:induction false} ShrAddShl(a: nat, q: nat, k: nat, j: nat)
    requires j <= k
    ensures Shr(a + Shl(q, k), j) == Shr(a, j) + Shl(q, k - j)
  {
    if j > 0 {
      assert (a + Shl(q, k)) / 2 == a / 2 + Shl(q, k - 1);
      ShrAddShl(a / 2, q, k - 1, j - 1);
    }
  }

  /** The low k bits of s agree with s below bit k. */
  lemma LowBit(s: nat, k: nat, j: nat)
    requires j < k
    ensures Bit(Low(s, k), j) == Bit(s, j)
  {
    LowSplit(s, k);
    ShrAddShl(Low(s, k), Shr(s, k), k, j);
    assert Shl(Shr(s, k), k - j) == 2 * Shl(Shr(s, k), k - j - 1);
  }

  lemma {:induction false} LowBound(s: nat, k: nat)
    ensures Low(s, k) < Pow2(k)
  {
    if k > 0 {
      LowBound(s, k - 1);
    }
  }
}
