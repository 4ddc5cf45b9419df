/**
 * Consistency proofs round-trip: for every old size m of a log of n leaves,
 * the proof generateConsistencyProof builds (section 2.1.2 of RFC 6962) is
 * accepted by VerifyConsistencyProof (section 2.1.4.2 of RFC 9162) against
 * the two roots.
 *
 * The argument follows the recursion of the proof: after the hashes a
 * subtree contributes, the verifier's fn and sn have been shifted to the
 * subtree's level, fr is the root of the subtree's old leaves and sr the
 * root of all its leaves.
 */
module Consistency {
  import opened Wrappers
  import opened Bits
  import opened Crypto
  import opened ChronTrees

  /** The first loop on the last leaf of an even-numbered perfect block of 2^j leaves. */
  lemma {:induction false} StripOnesAligned(q: nat, j: nat, s: nat)
    requires q % 2 == 0
    ensures StripOnes(Shl(q, j) + Pow2(j) - 1, s) == (q, Shr(s, j))
  {
    if j > 0 {
      StripOnesAligned(q, j - 1, s / 2);
    }
  }

  /** The inner loop on an equal fn and sn with j low zero bits. */
  lemma {:induction false} StripZerosAligned(a: nat, j: nat)
    requires a % 2 == 1
    ensures StripZeros(Shl(a, j), Shl(a, j)) == (a, a)
  {
    if j > 0 {
      ShlPos(a, j - 1);
      StripZerosAligned(a, j - 1);
    }
  }

  lemma CeilLog2Le(n: nat, j: nat)
    requires 1 <= n <= Pow2(j)
    ensures CeilLog2(n) <= j
  {
    var d := CeilLog2(n);
    if d > j {
      Pow2Mono(j, d - 1);
    }
  }

  // ---------------------------------------------------------------------
  // The fold and the proof.

  /** The state after the first loop, with the first proof hash in fr and sr. */
  function Start(fn: nat, sn: nat, h: Bytes): Fold
  {
    var z := StripOnes(fn, sn);
    Fold(z.0, z.1, h, h)
  }

  /** The fold over a proof with one more hash at its end. */
  lemma {:induction false} FoldSnoc(c: Primitives, s: Fold, hs: seq<Bytes>, h: Bytes)
    ensures FoldAll(c, s, hs + [h]) == Then(c, FoldAll(c, s, hs), h)
    decreases |hs|
  {
    if hs == [] {
      assert [] + [h] == [h];
    } else {
      assert (hs + [h])[0] == hs[0] && (hs + [h])[1..] == hs[1..] + [h];
      match Step(c, s, hs[0])
      case None =>
      case Some(s') => FoldSnoc(c, s', hs[1..], h);
    }
  }

  /** One step with the right sibling of a left subtree: sr takes it on its right. */
  lemma StepLeft(c: Primitives, q: nat, d: nat, S: nat, sn: nat, fr: Bytes, sr: Bytes, sib: Bytes)
    requires d >= 1 && S >= Shl(q, d) + Pow2(d - 1) && sn == Shr(S, d - 1)
    ensures Step(c, Fold(2 * q, sn, fr, sr), sib) == Some(Fold(q, Shr(S, d), fr, c.hash([sr, sib])))
  {
    Children(q, d);
    ShrAligned(2 * q + 1, d - 1, 0);
    ShrMono(Shl(2 * q + 1, d - 1), S, d - 1);
    ShrSucc(S, d - 1);
  }

  /** One step with the left sibling of a right subtree one level down: fr and sr take it on their left. */
  lemma StepRightNear(c: Primitives, q: nat, d: nat, S: nat, fn: nat, sn: nat, fr: Bytes, sr: Bytes, sib: Bytes)
    requires d >= 1 && S >= Shl(2 * q + 1, d - 1) && fn == 2 * q + 1 && sn == Shr(S, d - 1)
    ensures Step(c, Fold(fn, sn, fr, sr), sib) == Some(Fold(q, Shr(S, d), c.hash([sib, fr]), c.hash([sib, sr])))
  {
    ShrAligned(2 * q + 1, d - 1, 0);
    ShrMono(Shl(2 * q + 1, d - 1), S, d - 1);
    ShrSucc(S, d - 1);
    assert StripZeros(2 * q + 1, Shr(S, d - 1)) == (2 * q + 1, Shr(S, d - 1));
  }

  /**
   * One step with the left sibling of a right subtree j + 1 levels down on
   * the right edge: fn and sn are equal, fr and sr take the sibling on their
   * left and the j levels of the right subtree's promotion are skipped.
   */
  lemma StepRightFar(c: Primitives, q: nat, j: nat, fn: nat, sn: nat, fr: Bytes, sr: Bytes, sib: Bytes)
    requires j >= 1 && fn == Shl(2 * q + 1, j) && sn == fn
    ensures Step(c, Fold(fn, sn, fr, sr), sib) == Some(Fold(q, q, c.hash([sib, fr]), c.hash([sib, sr])))
  {
    ShlPos(2 * q + 1, j);
    StripZerosAligned(2 * q + 1, j);
  }

  /** The roots of X and of its first m > k leaves, k the split of X, from the roots of its children. */
  lemma MthRight(c: Primitives, X: seq<Bytes>, m: nat, k: nat, d: nat, j: nat, R: seq<Bytes>)
    requires |X| >= 2 && k == Split(|X|) && k < m <= |X| && d == CeilLog2(|X|) && j == m - k && R == X[k..]
    ensures MTH(c, X[..m]) == c.hash([MTH(c, X[..k]), MTH(c, R[..j])])
    ensures MTH(c, X) == c.hash([MTH(c, X[..k]), MTH(c, R)])
  {
    SplitLogUnique(m, d - 1);
    assert X[..m][..k] == X[..k] && X[..m][k..] == R[..j];
  }

  /**
   * The verifier's state after the hashes generateConsistencyProof emits
   * for the subtree X with m old leaves, following the generator's
   * recursion: the first loop and the first hash at the bottom, then one
   * Step per sibling on the way up.
   */
  function FoldProof(c: Primitives, m: nat, X: seq<Bytes>, F: nat, S: nat): Option<Fold>
    requires 1 <= m <= |X|
    decreases |X|
  {
    if m == |X| then Some(Start(F, S, MTH(c, X)))
    else Then(c, FoldProof(c, OldIn(m, |X|), Child(m, X), F, S), MTH(c, Sibling(m, X)))
  }

  /** The number of old leaves in the child of X that the recursion enters. */
  function OldIn(m: nat, n: nat): (r: nat)
    requires 1 <= m < n
    ensures if m <= Split(n) then r == m else r == m - Split(n)
  {
    if m <= Split(n) then m else m - Split(n)
  }

  /** The child of X the recursion enters: the left one when it holds all m old leaves. */
  function Child(m: nat, X: seq<Bytes>): (r: seq<Bytes>)
    requires 1 <= m < |X|
    ensures 1 <= OldIn(m, |X|) <= |r| < |X|
  {
    if m <= Split(|X|) then X[..Split(|X|)] else X[Split(|X|)..]
  }

  /** The other child, whose root is the next proof hash. */
  function Sibling(m: nat, X: seq<Bytes>): (r: seq<Bytes>)
    requires 1 <= m < |X|
    ensures |r| >= 1
  {
    if m <= Split(|X|) then X[Split(|X|)..] else X[..Split(|X|)]
  }

  /** One more Step after r, unless r already failed. */
  function Then(c: Primitives, r: Option<Fold>, h: Bytes): Option<Fold>
  {
    if r.None? then None else Step(c, r.value, h)
  }

  lemma ThenSome(c: Primitives, r: Option<Fold>, a: Fold, h: Bytes)
    requires r == Some(a)
    ensures Then(c, r, h) == Step(c, a, h)
  {
  }

  lemma FoldProofLeft(c: Primitives, m: nat, X: seq<Bytes>, F: nat, S: nat, k: nat, L: seq<Bytes>, sib: Bytes)
    requires 1 <= m < |X| && k == Split(|X|) && m <= k && L == X[..k] && sib == MTH(c, X[k..])
    ensures FoldProof(c, m, X, F, S) == Then(c, FoldProof(c, m, L, F, S), sib)
  {
    assert OldIn(m, |X|) == m && Child(m, X) == L && Sibling(m, X) == X[k..];
    assert FoldProof(c, m, X, F, S) == Then(c, FoldProof(c, OldIn(m, |X|), Child(m, X), F, S), MTH(c, Sibling(m, X)));
  }

  lemma FoldProofRight(c: Primitives, m: nat, X: seq<Bytes>, F: nat, S: nat, k: nat, j: nat, R: seq<Bytes>, sib: Bytes)
    requires 2 <= |X| && k == Split(|X|) && k < m < |X| && j == m - k && R == X[k..] && sib == MTH(c, X[..k])
    ensures 1 <= j <= |R|
    ensures FoldProof(c, m, X, F, S) == Then(c, FoldProof(c, j, R, F, S), sib)
  {
    assert OldIn(m, |X|) == j && Child(m, X) == R && Sibling(m, X) == X[..k];
    assert FoldProof(c, m, X, F, S) == Then(c, FoldProof(c, OldIn(m, |X|), Child(m, X), F, S), MTH(c, Sibling(m, X)));
  }

  lemma SubProofLeft(c: Primitives, m: nat, X: seq<Bytes>, b: bool, k: nat, L: seq<Bytes>, sib: Bytes)
    requires 1 <= m < |X| && k == Split(|X|) && m <= k && L == X[..k] && sib == MTH(c, X[k..])
    ensures SubProof(c, m, X, b) == SubProof(c, m, L, b) + [sib]
  {
  }

  /** The fold over a proof with one more hash at its end, from the start state. */
  lemma SnocStart(c: Primitives, Qc: seq<Bytes>, sib: Bytes, F: nat, S: nat)
    requires |Qc| >= 1
    ensures var Q := Qc + [sib];
      FoldAll(c, Start(F, S, Q[0]), Q[1..]) == Then(c, FoldAll(c, Start(F, S, Qc[0]), Qc[1..]), sib)
  {
    assert (Qc + [sib])[0] == Qc[0] && (Qc + [sib])[1..] == Qc[1..] + [sib];
    FoldSnoc(c, Start(F, S, Qc[0]), Qc[1..], sib);
  }

  /** FoldProof is the verifier's loop over the generated proof. */
  lemma {:induction false} FoldProofIsFoldAll(c: Primitives, m: nat, X: seq<Bytes>, F: nat, S: nat)
    requires 1 <= m <= |X|
    ensures |SubProof(c, m, X, false)| >= 1
    ensures var Q := SubProof(c, m, X, false);
      FoldAll(c, Start(F, S, Q[0]), Q[1..]) == FoldProof(c, m, X, F, S)
    decreases |X|, 1
  {
    if m < |X| {
      var k := Split(|X|);
      if m <= k {
        FoldProofIsFoldAllLeft(c, m, X, F, S, k, X[..k], MTH(c, X[k..]));
      } else {
        FoldProofIsFoldAllRight(c, m, X, F, S, k, m - k, X[k..], MTH(c, X[..k]));
      }
    }
  }

  lemma {:induction false} FoldProofIsFoldAllLeft(c: Primitives, m: nat, X: seq<Bytes>, F: nat, S: nat, k: nat, L: seq<Bytes>, sib: Bytes)
    requires 1 <= m < |X| && k == Split(|X|) && m <= k && L == X[..k] && sib == MTH(c, X[k..])
    ensures |SubProof(c, m, X, false)| >= 1
    ensures var Q := SubProof(c, m, X, false);
      FoldAll(c, Start(F, S, Q[0]), Q[1..]) == FoldProof(c, m, X, F, S)
    decreases |X|, 0
  {
    SubProofLeft(c, m, X, false, k, L, sib);
    FoldProofIsFoldAll(c, m, L, F, S);
    SnocStart(c, SubProof(c, m, L, false), sib, F, S);
    FoldProofLeft(c, m, X, F, S, k, L, sib);
  }

  lemma {:induction false} FoldProofIsFoldAllRight(c: Primitives, m: nat, X: seq<Bytes>, F: nat, S: nat, k: nat, j: nat, R: seq<Bytes>, sib: Bytes)
    requires 2 <= |X| && k == Split(|X|) && k < m < |X| && j == m - k && R == X[k..] && sib == MTH(c, X[..k])
    ensures |SubProof(c, m, X, false)| >= 1
    ensures var Q := SubProof(c, m, X, false);
      FoldAll(c, Start(F, S, Q[0]), Q[1..]) == FoldProof(c, m, X, F, S)
    decreases |X|, 0
  {
    SubProofRight(c, m, X, false, k, j, R);
    FoldProofIsFoldAll(c, j, R, F, S);
    SnocStart(c, SubProof(c, j, R, false), sib, F, S);
    FoldProofRight(c, m, X, F, S, k, j, R, sib);
  }

  /**
   * The fold over the hashes generated for a subtree X of depth d whose
   * first leaf is leaf q * 2^d of the whole tree and whose first m leaves
   * are old. F and S are the whole tree's last old and last new leaf: S
   * ends X when X is not perfect (it is then on the right edge), and a
   * subtree wholly old is a perfect left child. The fold ends at level d
   * with the roots of the old part and of X.
   */
  lemma {:induction false} FoldSub(c: Primitives, X: seq<Bytes>, m: nat, q: nat, d: nat, F: nat, S: nat)
    requires 1 <= m <= |X| && d == CeilLog2(|X|)
    requires F == Shl(q, d) + m - 1
    requires S >= Shl(q, d) + |X| - 1
    requires |X| != Pow2(d) ==> S == Shl(q, d) + |X| - 1
    requires m == |X| ==> |X| == Pow2(d) && q % 2 == 0
    ensures FoldProof(c, m, X, F, S) == Some(Fold(q, Shr(S, d), MTH(c, X[..m]), MTH(c, X)))
    decreases |X|, 1, 0
  {
    if m == |X| {
      StripOnesAligned(q, d, S);
      assert X[..m] == X;
    } else if m <= Split(|X|) {
      FoldSubLeft(c, X, m, q, d, F, S);
    } else {
      FoldSubRight(c, X, m, q, d, F, S);
    }
  }

  lemma {:induction false} FoldSubLeft(c: Primitives, X: seq<Bytes>, m: nat, q: nat, d: nat, F: nat, S: nat)
    requires 1 <= m < |X| && m <= Split(|X|) && d == CeilLog2(|X|)
    requires F == Shl(q, d) + m - 1
    requires S >= Shl(q, d) + |X| - 1
    ensures FoldProof(c, m, X, F, S) == Some(Fold(q, Shr(S, d), MTH(c, X[..m]), MTH(c, X)))
    decreases |X|, 0, 1
  {
    var k := Split(|X|);
    LeftChild(q, |X|, m, d, k, F, S);
    var L, sib := X[..k], MTH(c, X[k..]);
    assert |L| == k;
    FoldSubLeftRaw(c, X, m, q, d, k, L, sib, F, S);
    MthLeft(c, X, m, k, L, sib);
  }

  /** The left child of block q at level d is block 2q at level d - 1, and it is perfect. */
  lemma LeftChild(q: nat, n: nat, m: nat, d: nat, k: nat, F: nat, S: nat)
    requires 1 <= m < n && k == Split(n) && m <= k && d == CeilLog2(n)
    requires F == Shl(q, d) + m - 1
    requires S >= Shl(q, d) + n - 1
    ensures d >= 1 && k == Pow2(d - 1) && CeilLog2(k) == d - 1
    ensures F == Shl(2 * q, d - 1) + m - 1
    ensures S >= Shl(q, d) + Pow2(d - 1) && S >= Shl(2 * q, d - 1) + k - 1
  {
    CeilLog2Pow2(d - 1);
    Children(q, d);
  }

  /** The roots of X and of its first m <= k leaves, k the split of X, from the roots of its children. */
  lemma MthLeft(c: Primitives, X: seq<Bytes>, m: nat, k: nat, L: seq<Bytes>, sib: Bytes)
    requires 1 <= m <= k && |X| >= 2 && k == Split(|X|) && L == X[..k] && sib == MTH(c, X[k..])
    ensures MTH(c, X[..m]) == MTH(c, L[..m])
    ensures MTH(c, X) == c.hash([MTH(c, L), sib])
  {
    assert X[..m] == L[..m];
  }

  lemma {:induction false} FoldSubLeftRaw(c: Primitives, X: seq<Bytes>, m: nat, q: nat, d: nat, k: nat, L: seq<Bytes>, sib: Bytes, F: nat, S: nat)
    requires 1 <= m < |X| && d >= 1 && k == Split(|X|) && m <= k && L == X[..k] && sib == MTH(c, X[k..])
    requires |L| == k == Pow2(d - 1) && CeilLog2(k) == d - 1
    requires F == Shl(2 * q, d - 1) + m - 1
    requires S >= Shl(q, d) + Pow2(d - 1) && S >= Shl(2 * q, d - 1) + |L| - 1
    requires m == |L| ==> (2 * q) % 2 == 0
    ensures FoldProof(c, m, X, F, S) == Some(Fold(q, Shr(S, d), MTH(c, L[..m]), c.hash([MTH(c, L), sib])))
    decreases |X|, 0, 0
  {
    StepLeft(c, q, d, S, Shr(S, d - 1), MTH(c, L[..m]), MTH(c, L), sib);
    FoldSub(c, L, m, 2 * q, d - 1, F, S);
    ThenSome(c, FoldProof(c, m, L, F, S), Fold(2 * q, Shr(S, d - 1), MTH(c, L[..m]), MTH(c, L)), sib);
    FoldProofLeft(c, m, X, F, S, k, L, sib);
  }

  lemma {:induction false} FoldSubRight(c: Primitives, X: seq<Bytes>, m: nat, q: nat, d: nat, F: nat, S: nat)
    requires 2 <= |X| && Split(|X|) < m < |X| && d == CeilLog2(|X|)
    requires F == Shl(q, d) + m - 1
    requires S >= Shl(q, d) + |X| - 1
    requires |X| != Pow2(d) ==> S == Shl(q, d) + |X| - 1
    ensures FoldProof(c, m, X, F, S) == Some(Fold(q, Shr(S, d), MTH(c, X[..m]), MTH(c, X)))
    decreases |X|, 0, 3
  {
    var n, k := |X|, Split(|X|);
    var j, R, sib := m - k, X[k..], MTH(c, X[..k]);
    FoldSubRightTree(c, X, n, m, q, d, k, j, R, sib, F, S);
    MthRight(c, X, m, k, d, j, R);
  }

  lemma {:induction false} FoldSubRightTree(c: Primitives, X: seq<Bytes>, n: nat, m: nat, q: nat, d: nat, k: nat,
                                            j: nat, R: seq<Bytes>, sib: Bytes, F: nat, S: nat)
    requires n == |X| && n >= 2 && k == Split(n) && k < m < n && d == CeilLog2(n)
    requires j == m - k && R == X[k..] && sib == MTH(c, X[..k])
    requires F == Shl(q, d) + m - 1
    requires S >= Shl(q, d) + n - 1
    requires n != Pow2(d) ==> S == Shl(q, d) + n - 1
    ensures FoldProof(c, m, X, F, S) == Some(Fold(q, Shr(S, d), c.hash([sib, MTH(c, R[..j])]), c.hash([sib, MTH(c, R)])))
    decreases |X|, 0, 2
  {
    var r := |R|;
    var dc := CeilLog2(r);
    var qc := RightChild(q, n, m, d, k, r, dc);
    FoldSubRightCases(c, X, n, m, q, d, k, dc, qc, j, R, sib, F, S);
  }

  lemma {:induction false} FoldSubRightCases(c: Primitives, X: seq<Bytes>, n: nat, m: nat, q: nat, d: nat, k: nat, dc: nat, qc: nat,
                                             j: nat, R: seq<Bytes>, sib: Bytes, F: nat, S: nat)
    requires n == |X| && n >= 2 && k == Split(n) && k < m < n && j == m - k && R == X[k..] && sib == MTH(c, X[..k])
    requires dc == CeilLog2(|R|) && dc + 1 <= d && qc == Shl(2 * q + 1, d - 1 - dc) && Shl(qc, dc) == Shl(q, d) + k
    requires n <= Pow2(d) && |R| <= Pow2(dc) && (n == Pow2(d) ==> dc == d - 1 && |R| == Pow2(dc))
    requires F == Shl(q, d) + m - 1
    requires S >= Shl(q, d) + n - 1
    requires n != Pow2(d) ==> S == Shl(q, d) + n - 1
    ensures FoldProof(c, m, X, F, S) == Some(Fold(q, Shr(S, d), c.hash([sib, MTH(c, R[..j])]), c.hash([sib, MTH(c, R)])))
    decreases |X|, 0, 1
  {
    if dc == d - 1 {
      FoldSubRightNear(c, X, n, m, q, d, k, dc, qc, j, R, sib, F, S);
    } else {
      RightEdge(q, n, d, k, dc, qc, S);
      FoldSubRightFar(c, X, n, m, q, d, k, dc, qc, j, R, sib, F, S);
    }
  }

  /** Where the right child of block q at level d sits: block qc at level dc. */
  lemma RightChild(q: nat, n: nat, m: nat, d: nat, k: nat, r: nat, dc: nat) returns (qc: nat)
    requires n >= 2 && k == Split(n) && k < m < n && d == CeilLog2(n) && r == n - k && dc == CeilLog2(r)
    ensures dc + 1 <= d && qc == Shl(2 * q + 1, d - 1 - dc) && Shl(qc, dc) == Shl(q, d) + k
    ensures n <= Pow2(d) && r <= Pow2(dc)
    ensures n == Pow2(d) ==> dc == d - 1 && r == Pow2(dc)
  {
    SplitOfLog(n, d, k);
    CeilLog2Le(r, d - 1);
    qc := RightBlock(q, d, dc);
    if n == Pow2(d) {
      FullSplit(n, d, k, d - 1, dc);
    }
  }

  /** A power of two less its split is the split, one level down. */
  lemma FullSplit(n: nat, d: nat, k: nat, e: nat, dc: nat)
    requires d >= 1 && e == d - 1 && n == Pow2(d) && k == Pow2(e) && dc == CeilLog2(n - k)
    ensures dc == e && n - k == Pow2(dc)
  {
    assert Pow2(d) == 2 * Pow2(e);
    CeilLog2Pow2(e);
  }

  /** The split of n is 2^(d - 1) for the least d with n <= 2^d. */
  lemma SplitOfLog(n: nat, d: nat, k: nat)
    requires n >= 2 && d == CeilLog2(n) && k == Split(n)
    ensures d >= 1 && k == Pow2(d - 1)
  {
    assert d - 1 == SplitLog(n);
  }

  /** The block index, at level dc, of the right child of block q at level d. */
  lemma RightBlock(q: nat, d: nat, dc: nat) returns (qc: nat)
    requires dc + 1 <= d
    ensures qc == Shl(2 * q + 1, d - 1 - dc)
    ensures Shl(qc, dc) == Shl(q, d) + Pow2(d - 1)
  {
    qc := Shl(2 * q + 1, d - 1 - dc);
    ShlShl(2 * q + 1, d - 1 - dc, dc);
    Children(q, d);
  }

  /** On the right edge, the last leaf's index shifted to either level is the block index there. */
  lemma RightEdge(q: nat, n: nat, d: nat, k: nat, dc: nat, qc: nat, S: nat)
    requires n >= 1 && n <= Pow2(d) && 1 <= n - k <= Pow2(dc) && k <= n
    requires S == Shl(q, d) + n - 1 && Shl(qc, dc) == Shl(q, d) + k
    ensures Shr(S, dc) == qc && Shr(S, d) == q
  {
    ShrAligned(qc, dc, n - k - 1);
    ShrAligned(q, d, n - 1);
  }

  /** The right child is one level down: the old part ends inside it. */
  lemma {:induction false} FoldSubRightNear(c: Primitives, X: seq<Bytes>, n: nat, m: nat, q: nat, d: nat, k: nat, dc: nat, qc: nat,
                                            j: nat, R: seq<Bytes>, sib: Bytes, F: nat, S: nat)
    requires n == |X| && n >= 2 && k == Split(n) && k < m < n && j == m - k && R == X[k..] && sib == MTH(c, X[..k])
    requires dc == CeilLog2(|R|) && dc + 1 == d && qc == 2 * q + 1 && S >= Shl(2 * q + 1, d - 1)
    requires F == Shl(qc, dc) + j - 1
    requires S >= Shl(qc, dc) + |R| - 1
    requires |R| != Pow2(dc) ==> S == Shl(qc, dc) + |R| - 1
    ensures FoldProof(c, m, X, F, S) == Some(Fold(q, Shr(S, d), c.hash([sib, MTH(c, R[..j])]), c.hash([sib, MTH(c, R)])))
    decreases |X|, 0, 0
  {
    StepRightNear(c, q, d, S, qc, Shr(S, dc), MTH(c, R[..j]), MTH(c, R), sib);
    FoldSub(c, R, j, qc, dc, F, S);
    ThenSome(c, FoldProof(c, j, R, F, S), Fold(qc, Shr(S, dc), MTH(c, R[..j]), MTH(c, R)), sib);
    FoldProofRight(c, m, X, F, S, k, j, R, sib);
  }

  /**
   * The right child is a perfect subtree more than one level down, on the
   * right edge: the old part ends inside it.
   */
  lemma {:induction false} FoldSubRightFar(c: Primitives, X: seq<Bytes>, n: nat, m: nat, q: nat, d: nat, k: nat, dc: nat, qc: nat,
                                           j: nat, R: seq<Bytes>, sib: Bytes, F: nat, S: nat)
    requires n == |X| && n >= 2 && k == Split(n) && k < m < n && j == m - k && R == X[k..] && sib == MTH(c, X[..k])
    requires dc == CeilLog2(|R|) && dc + 1 < d && qc == Shl(2 * q + 1, d - 1 - dc) && Shr(S, dc) == qc && Shr(S, d) == q
    requires F == Shl(qc, dc) + j - 1
    requires S >= Shl(qc, dc) + |R| - 1
    requires |R| != Pow2(dc) ==> S == Shl(qc, dc) + |R| - 1
    ensures FoldProof(c, m, X, F, S) == Some(Fold(q, Shr(S, d), c.hash([sib, MTH(c, R[..j])]), c.hash([sib, MTH(c, R)])))
    decreases |X|, 0, 0
  {
    StepRightFar(c, q, d - 1 - dc, qc, Shr(S, dc), MTH(c, R[..j]), MTH(c, R), sib);
    FoldSub(c, R, j, qc, dc, F, S);
    ThenSome(c, FoldProof(c, j, R, F, S), Fold(qc, Shr(S, dc), MTH(c, R[..j]), MTH(c, R)), sib);
    FoldProofRight(c, m, X, F, S, k, j, R, sib);
  }

  // ---------------------------------------------------------------------
  // The round trip.

  /** A number strictly between two consecutive powers of two is not a power of two. */
  lemma NotPow2(m: nat, s: nat)
    requires Pow2(s) < m < 2 * Pow2(s)
    ensures !IsPow2(m)
  {
    var d := CeilLog2(m);
    if Pow2(d) == m {
      if d <= s {
        if d < s {
          Pow2Mono(d, s);
        }
      } else if d > s + 1 {
        Pow2Mono(s + 1, d);
      }
    }
  }

  /**
   * The proof generateConsistencyProof returns lacks, exactly when m is a
   * power of two, the root of the first m leaves that the complete-subtree
   * form of the recursion would start with.
   */
  lemma {:induction false} SubProofComplete(c: Primitives, m: nat, X: seq<Bytes>)
    requires 1 <= m <= |X| && (m == |X| ==> IsPow2(m))
    ensures SubProof(c, m, X, false) == (if IsPow2(m) then [MTH(c, X[..m])] + SubProof(c, m, X, true) else SubProof(c, m, X, true))
    decreases |X|, 1
  {
    if m == |X| {
      assert X[..m] == X;
    } else {
      var k := Split(|X|);
      if m <= k {
        SubProofCompleteLeft(c, m, X, k, X[..k], MTH(c, X[k..]));
      } else {
        NotPow2(m, SplitLog(|X|));
        SubProofRight(c, m, X, true, k, m - k, X[k..]);
        SubProofRight(c, m, X, false, k, m - k, X[k..]);
      }
    }
  }

  lemma {:induction false} SubProofCompleteLeft(c: Primitives, m: nat, X: seq<Bytes>, k: nat, L: seq<Bytes>, sib: Bytes)
    requires 1 <= m < |X| && k == Split(|X|) && m <= k && L == X[..k] && sib == MTH(c, X[k..])
    ensures SubProof(c, m, X, false) == (if IsPow2(m) then [MTH(c, X[..m])] + SubProof(c, m, X, true) else SubProof(c, m, X, true))
    decreases |X|, 0
  {
    assert L[..m] == X[..m];
    assert |L| == k == Pow2(SplitLog(|X|));
    if m == k {
      CeilLog2Pow2(SplitLog(|X|));
    }
    SubProofLeft(c, m, X, true, k, L, sib);
    SubProofLeft(c, m, X, false, k, L, sib);
    SubProofComplete(c, m, L);
  }

  /** The proof hashes the verifier folds over: the generated proof, after the prepend. */
  lemma PrependedProof(c: Primitives, m: nat, hs: seq<Bytes>, oldDigest: Digest, proof: seq<Bytes>)
    requires 1 <= m < |hs| && oldDigest == Digest([MTH(c, hs[..m])], m) && proof == SubProof(c, m, hs, true)
    ensures proof != [] && Prepended(oldDigest, proof) == SubProof(c, m, hs, false)
  {
    SubProofComplete(c, m, hs);
  }

  /** The fold over the whole tree ends at the root level with both roots and sn used up. */
  lemma FoldWhole(c: Primitives, m: nat, hs: seq<Bytes>, F: nat, S: nat)
    requires 1 <= m < |hs| && F == m - 1 && S == |hs| - 1
    ensures FoldProof(c, m, hs, F, S) == Some(Fold(0, 0, MTH(c, hs[..m]), MTH(c, hs)))
  {
    var D := CeilLog2(|hs|);
    ShlZero(D);
    ShrSmall(S, D);
    FoldSub(c, hs, m, 0, D, F, S);
  }

  /**
   * The proof generated for an old size m of a log of leaves hs is
   * accepted by the verifier against the roots of the first m leaves and of
   * all of them, for every m and every size (section 2.1.4 of RFC 9162).
   */
  lemma ConsistencyRoundTrip(c: Primitives, hs: seq<Bytes>, m: nat)
    requires 1 <= |hs| && m <= |hs|
    ensures var oldDigest := Digest(if m == 0 then [] else [MTH(c, hs[..m])], m);
      var newDigest := Digest([MTH(c, hs)], |hs|);
      var proof := if m == 0 then [] else SubProof(c, m, hs, true);
      RootsRead(oldDigest, newDigest, proof) && VerifySpec(c, oldDigest, newDigest, proof)
  {
    if 1 <= m < |hs| {
      RoundTripProper(c, hs, m, Digest([MTH(c, hs[..m])], m), Digest([MTH(c, hs)], |hs|), SubProof(c, m, hs, true));
    } else if m == |hs| {
      assert hs[..m] == hs;
    }
  }

  /** The round trip when the old size is strictly between 0 and the new size. */
  lemma RoundTripProper(c: Primitives, hs: seq<Bytes>, m: nat, oldDigest: Digest, newDigest: Digest, proof: seq<Bytes>)
    requires 1 <= m < |hs|
    requires oldDigest == Digest([MTH(c, hs[..m])], m) && newDigest == Digest([MTH(c, hs)], |hs|)
    requires proof == SubProof(c, m, hs, true)
    ensures RootsRead(oldDigest, newDigest, proof) && VerifySpec(c, oldDigest, newDigest, proof)
  {
    var Q := SubProof(c, m, hs, false);
    var F, S := oldDigest.size - 1, newDigest.size - 1;
    PrependedProof(c, m, hs, oldDigest, proof);
    FoldWhole(c, m, hs, F, S);
    FoldProofIsFoldAll(c, m, hs, F, S);
    VerifyLate(c, oldDigest, newDigest, proof, Q, F, S, Start(F, S, Q[0]));
  }
}
