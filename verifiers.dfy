/**
 * The client-side checks of a whole existence proof against a digest:
 * ValidatePKProof and ValidateMKProof of core/partition.go, and the
 * AggHistVerifier's ValidatePKProof, ValidatePKProofMonitoring and
 * ValidateMKProof of core/partition_agghist.go.
 *
 * Each check is a specification function that scans the entries the way
 * the source's loops do (a panic, an early rejection, or the state the
 * loop carries on with) and a method with the source's loop proved equal
 * to it. The lemmas say what each check answers for a proof built honestly
 * from the tries the digest commits to.
 */
module Verifiers {
  import opened Wrappers
  import opened Bits
  import opened Crypto
  import opened Copath
  import opened TrieSpec
  import opened TrieWalk
  import opened LegologProofs

  /** The suffix a master key's identifier carries: the bytes of "MK". */
  const MK: Bytes := [77, 75]

  /** append(username, []byte("MK")...) */
  function MasterKeyId(username: Bytes): Bytes
  {
    username + MK
  }

  /** The latest membership entry a scan has seen, with the root it is checked against. */
  datatype Pick = Pick(entry: ProofEntry, root: NBytes)

  // ---------------------------------------------------------------------
  // ValidatePKProof (core/partition.go).

  /**
   * ValidatePKProof: the single base-tree entry must carry the proof its
   * ValueExists flag calls for; then only the last update-log membership
   * entry is checked, against its tree's reported root. Non-membership
   * entries are not checked at all. A proof with no membership entry is
   * refused, and one whose only membership entry is the base-tree one
   * reads UpdateSetRoots[-1] and panics.
   */
  function PKVerdict(c: Primitives, d: Digest, p: ExistenceProof, identifier: Bytes, value: Bytes,
                     signature: Bytes, pos: nat, masterVK: Bytes): (r: Outcome)
    ensures r == Accepted ==>
      LastMembership(p.updateLogProofs).Some? && LastMembership(p.updateLogProofs).value < |d.updateSetRoots| &&
      ExistenceVerdict(c, p.updateLogProofs[LastMembership(p.updateLogProofs).value], identifier, value, signature,
                       pos, masterVK, d.updateSetRoots[LastMembership(p.updateLogProofs).value], false) == Accepted
    ensures |p.baseTreeProofs| > 0 && !p.baseTreeProofs[0].valueExists && LastMembership(p.updateLogProofs).None? ==>
      r == Rejected
  {
    if |p.baseTreeProofs| == 0 then Panics
    else
      var b := p.baseTreeProofs[0];
      if !BaseEntryComplete(b) then Rejected
      else match LastMembership(p.updateLogProofs)
        case None => if b.valueExists then Panics else Rejected
        case Some(i) =>
          if i >= |d.updateSetRoots| then Panics
          else ExistenceVerdict(c, p.updateLogProofs[i], identifier, value, signature, pos, masterVK, d.updateSetRoots[i], false)
  }

  /** The index ValidatePKProof's loop leaves in latestIndex: the last membership entry, or -1. */
  function LatestIndex(entries: seq<ProofEntry>): int
  {
    match LastMembership(entries)
    case None => -1
    case Some(i) => i
  }

  /** ValidatePKProof, with its loop over the update-log entries. */
  method ValidatePKProof(c: Primitives, d: Digest, p: ExistenceProof, identifier: Bytes, value: Bytes,
                         signature: Bytes, pos: nat, masterVK: Bytes) returns (r: Outcome)
    ensures r == PKVerdict(c, d, p, identifier, value, signature, pos, masterVK)
  {
    if |p.baseTreeProofs| == 0 {
      return Panics;
    }
    var b := p.baseTreeProofs[0];
    var latest: Option<ProofEntry> := None;
    var latestIndex: int := -1;
    if b.valueExists {
      latest := Some(b);
      if b.membershipProof.None? {
        return Rejected;
      }
    } else if b.nonMembershipProof.None? {
      return Rejected;
    }
    var ups := p.updateLogProofs;
    var i := 0;
    assert ups[..0] == [];
    while i < |ups|
      invariant i <= |ups| && latestIndex == LatestIndex(ups[..i])
      invariant latestIndex == -1 ==> latest == if b.valueExists then Some(b) else None
      invariant latestIndex >= 0 ==> latest == Some(ups[latestIndex])
    {
      assert ups[..i + 1][..i] == ups[..i];
      if ups[i].valueExists {
        latest := Some(ups[i]);
        latestIndex := i;
      }
      i := i + 1;
    }
    assert ups[..i] == ups;
    if latest.None? {
      return Rejected;
    }
    if latestIndex < 0 || latestIndex >= |d.updateSetRoots| {
      return Panics;
    }
    r := ValidateExistenceProof(c, latest.value, identifier, value, signature, pos, masterVK, d.updateSetRoots[latestIndex], false);
  }

  // ---------------------------------------------------------------------
  // ValidateMKProof (core/partition.go).

  /**
   * The check a non-membership update entry of the MK scans goes through:
   * validateNonExistenceProof as written, or, when checked, the
   * non-membership proof alone through validateNonMembershipProof.
   */
  function NonMemberCheck(c: Primitives, e: ProofEntry, id: Bytes, root: NBytes, checked: bool): Outcome
  {
    if checked then ValidateNonMembershipProof(c, e.nonMembershipProof, id, root)
    else ValidateNonExistenceProof(c, e, id, root)
  }

  /**
   * The loop of ValidateMKProof from update entry i on: the first
   * membership entry decides (checked with the master key as the value),
   * and every non-membership entry before it must pass
   * validateNonExistenceProof as written (or, when checked,
   * validateNonMembershipProof on its non-membership proof, as the entries
   * GenerateExistenceProof builds call for). Running out of entries
   * refuses.
   */
  function MKFrom(c: Primitives, roots: seq<NBytes>, es: seq<ProofEntry>, i: nat, id: Bytes,
                  signature: Bytes, pos: nat, masterVK: Bytes, checked: bool): (r: Outcome)
    requires i <= |es|
    ensures r == Accepted ==> exists k :: i <= k < |es| && es[k].valueExists
    decreases |es| - i
  {
    if i == |es| then Rejected
    else if i >= |roots| then Panics
    else if es[i].valueExists then ExistenceVerdict(c, es[i], id, masterVK, signature, pos, masterVK, roots[i], true)
    else
      match NonMemberCheck(c, es[i], id, roots[i], checked)
      case Accepted => MKFrom(c, roots, es, i + 1, id, signature, pos, masterVK, checked)
      case Rejected => Rejected
      case Panics => Panics
  }

  /** The base-tree entry of a partition.go proof carries the proof its ValueExists flag calls for. */
  predicate BaseEntryComplete(b: ProofEntry)
  {
    if b.valueExists then b.membershipProof.Some? else b.nonMembershipProof.Some?
  }

  /**
   * ValidateMKProof: the single base-tree entry must carry the proof its
   * flag calls for; then the update-log entries are scanned for the
   * identifier username‖"MK". The value argument is not used: the master
   * key itself is the value checked.
   */
  function MKVerdict(c: Primitives, d: Digest, p: ExistenceProof, username: Bytes, value: Bytes,
                     signature: Bytes, pos: nat, masterVK: Bytes): (r: Outcome)
    ensures r == Accepted ==> exists k :: 0 <= k < |p.updateLogProofs| && p.updateLogProofs[k].valueExists
  {
    if |p.baseTreeProofs| == 0 then Panics
    else
      var b := p.baseTreeProofs[0];
      if !BaseEntryComplete(b) then Rejected
      else MKFrom(c, d.updateSetRoots, p.updateLogProofs, 0, MasterKeyId(username), signature, pos, masterVK, false)
  }

  /** ValidateMKProof, with its loop over the update-log entries. */
  method ValidateMKProof(c: Primitives, d: Digest, p: ExistenceProof, username: Bytes, value: Bytes,
                         signature: Bytes, pos: nat, masterVK: Bytes) returns (r: Outcome)
    ensures r == MKVerdict(c, d, p, username, value, signature, pos, masterVK)
  {
    if |p.baseTreeProofs| == 0 {
      return Panics;
    }
    var b := p.baseTreeProofs[0];
    if b.valueExists && b.membershipProof.None? {
      return Rejected;
    } else if !b.valueExists && b.nonMembershipProof.None? {
      return Rejected;
    }
    r := MKLoop(c, d.updateSetRoots, p.updateLogProofs, MasterKeyId(username), signature, pos, masterVK);
  }

  /**
   * The loop of ValidateMKProof: the first membership entry decides, every
   * non-membership entry before it must pass validateNonExistenceProof.
   */
  method MKLoop(c: Primitives, roots: seq<NBytes>, ups: seq<ProofEntry>, identifier: Bytes,
                signature: Bytes, pos: nat, masterVK: Bytes) returns (r: Outcome)
    ensures r == MKFrom(c, roots, ups, 0, identifier, signature, pos, masterVK, false)
  {
    var i := 0;
    while i < |ups|
      invariant i <= |ups|
      invariant MKFrom(c, roots, ups, 0, identifier, signature, pos, masterVK, false) ==
                MKFrom(c, roots, ups, i, identifier, signature, pos, masterVK, false)
    {
      if i >= |roots| {
        return Panics;
      }
      if ups[i].valueExists {
        r := ValidateExistenceProof(c, ups[i], identifier, masterVK, signature, pos, masterVK, roots[i], true);
        return;
      }
      var ok := ValidateNonExistenceProof(c, ups[i], identifier, roots[i]);
      if ok != Accepted {
        return ok;
      }
      i := i + 1;
    }
    return Rejected;
  }

  // ---------------------------------------------------------------------
  // AggHistVerifier.ValidatePKProof and ValidatePKProofMonitoring.

  /**
   * The base-tree loop of the AggHistVerifier's checks from entry i on,
   * carrying the latest membership entry and whether one was seen. A
   * membership entry is run through validateExistenceProof, whose answer
   * is only printed (its panic still ends the check); a non-membership
   * entry must pass validateNonMembershipProof and must not follow a
   * membership entry. After the loop, the monitoring check accepts once a
   * membership entry was seen, and the full check goes on to the update
   * log.
   */
  function AggBaseFrom(c: Primitives, d: Digest, p: ExistenceProof, i: nat, latest: Option<Pick>, seen: bool,
                       identifier: Bytes, value: Bytes, signature: Bytes, pos: nat, masterVK: Bytes,
                       monitoring: bool): (r: Outcome)
    requires i <= |p.baseTreeProofs|
    ensures r == Accepted ==>
      latest.Some? || (exists k :: i <= k < |p.baseTreeProofs| && p.baseTreeProofs[k].valueExists) ||
      (!monitoring && exists k :: 0 <= k < |p.updateLogProofs| && p.updateLogProofs[k].valueExists)
    decreases |p.baseTreeProofs| - i
  {
    if i == |p.baseTreeProofs| then
      if monitoring then (if latest.None? then Rejected else Accepted)
      else AggUpdateFrom(c, d, p.updateLogProofs, 0, latest, identifier, value, signature, pos, masterVK)
    else if i >= |d.baseTreeRoots| then Panics
    else
      var e := p.baseTreeProofs[i];
      if e.valueExists then
        if ExistenceVerdict(c, e, identifier, value, signature, pos, masterVK, d.baseTreeRoots[i], false) == Panics then Panics
        else AggBaseFrom(c, d, p, i + 1, Some(Pick(e, d.baseTreeRoots[i])), true,
                         identifier, value, signature, pos, masterVK, monitoring)
      else match ValidateNonMembershipProof(c, e.nonMembershipProof, identifier, d.baseTreeRoots[i])
        case Accepted =>
          if seen then Rejected
          else AggBaseFrom(c, d, p, i + 1, latest, seen, identifier, value, signature, pos, masterVK, monitoring)
        case Rejected => Rejected
        case Panics => Panics
  }

  /**
   * The update-log loop of AggHistVerifier.ValidatePKProof from entry i
   * on: a membership entry becomes the latest, a non-membership entry must
   * pass validateNonMembershipProof; at the end the latest membership
   * entry, if any, is checked against its tree's root.
   */
  function AggUpdateFrom(c: Primitives, d: Digest, es: seq<ProofEntry>, i: nat, latest: Option<Pick>,
                         identifier: Bytes, value: Bytes, signature: Bytes, pos: nat, masterVK: Bytes): (r: Outcome)
    requires i <= |es|
    ensures r == Accepted ==> latest.Some? || exists k :: i <= k < |es| && es[k].valueExists
    decreases |es| - i
  {
    if i == |es| then
      if latest.None? then Rejected
      else ExistenceVerdict(c, latest.value.entry, identifier, value, signature, pos, masterVK, latest.value.root, false)
    else if i >= |d.updateSetRoots| then Panics
    else if es[i].valueExists then
      AggUpdateFrom(c, d, es, i + 1, Some(Pick(es[i], d.updateSetRoots[i])), identifier, value, signature, pos, masterVK)
    else match ValidateNonMembershipProof(c, es[i].nonMembershipProof, identifier, d.updateSetRoots[i])
      case Accepted => AggUpdateFrom(c, d, es, i + 1, latest, identifier, value, signature, pos, masterVK)
      case Rejected => Rejected
      case Panics => Panics
  }

  /**
   * The base-tree loop accepts only when the membership entries form a
   * suffix of the base entries (a key, once in a base tree, stays), and
   * only when none but membership entries follow one already seen.
   */
  lemma {:induction false} AggBaseOrdered(c: Primitives, d: Digest, p: ExistenceProof, i: nat, latest: Option<Pick>,
                                         seen: bool, identifier: Bytes, value: Bytes, signature: Bytes, pos: nat,
                                         masterVK: Bytes, monitoring: bool)
    requires i <= |p.baseTreeProofs|
    requires AggBaseFrom(c, d, p, i, latest, seen, identifier, value, signature, pos, masterVK, monitoring) == Accepted
    ensures forall k, l :: i <= k < l < |p.baseTreeProofs| && p.baseTreeProofs[k].valueExists ==> p.baseTreeProofs[l].valueExists
    ensures seen ==> forall l :: i <= l < |p.baseTreeProofs| ==> p.baseTreeProofs[l].valueExists
    decreases |p.baseTreeProofs| - i
  {
    if i < |p.baseTreeProofs| {
      var e := p.baseTreeProofs[i];
      if e.valueExists {
        AggBaseOrdered(c, d, p, i + 1, Some(Pick(e, d.baseTreeRoots[i])), true,
                       identifier, value, signature, pos, masterVK, monitoring);
      } else {
        AggBaseOrdered(c, d, p, i + 1, latest, seen, identifier, value, signature, pos, masterVK, monitoring);
      }
    }
  }

  /** AggHistVerifier.ValidatePKProof. */
  function AggPKVerdict(c: Primitives, d: Digest, p: ExistenceProof, identifier: Bytes, value: Bytes,
                        signature: Bytes, pos: nat, masterVK: Bytes): (r: Outcome)
    ensures r == Accepted ==>
      (exists k :: 0 <= k < |p.baseTreeProofs| && p.baseTreeProofs[k].valueExists) ||
      (exists k :: 0 <= k < |p.updateLogProofs| && p.updateLogProofs[k].valueExists)
    ensures r == Accepted ==>
      forall k, l :: 0 <= k < l < |p.baseTreeProofs| && p.baseTreeProofs[k].valueExists ==> p.baseTreeProofs[l].valueExists
  {
    var r := AggBaseFrom(c, d, p, 0, None, false, identifier, value, signature, pos, masterVK, false);
    if r == Accepted then
      AggBaseOrdered(c, d, p, 0, None, false, identifier, value, signature, pos, masterVK, false);
      r
    else r
  }

  /** AggHistVerifier.ValidatePKProofMonitoring. */
  function AggMonitoringVerdict(c: Primitives, d: Digest, p: ExistenceProof, identifier: Bytes, value: Bytes,
                                signature: Bytes, pos: nat, masterVK: Bytes): (r: Outcome)
    ensures r == Accepted ==> exists k :: 0 <= k < |p.baseTreeProofs| && p.baseTreeProofs[k].valueExists
    ensures r == Accepted ==>
      forall k, l :: 0 <= k < l < |p.baseTreeProofs| && p.baseTreeProofs[k].valueExists ==> p.baseTreeProofs[l].valueExists
  {
    var r := AggBaseFrom(c, d, p, 0, None, false, identifier, value, signature, pos, masterVK, true);
    if r == Accepted then
      AggBaseOrdered(c, d, p, 0, None, false, identifier, value, signature, pos, masterVK, true);
      r
    else r
  }

  /**
   * The base-tree loop the AggHistVerifier's PK checks share: it stops
   * with the check's outcome, or hands on the latest membership entry.
   */
  method AggBaseLoop(c: Primitives, d: Digest, p: ExistenceProof, identifier: Bytes, value: Bytes,
                     signature: Bytes, pos: nat, masterVK: Bytes, monitoring: bool)
    returns (stop: Option<Outcome>, latest: Option<Pick>)
    ensures stop.Some? ==>
      stop.value == AggBaseFrom(c, d, p, 0, None, false, identifier, value, signature, pos, masterVK, monitoring)
    ensures stop.None? ==>
      AggBaseFrom(c, d, p, 0, None, false, identifier, value, signature, pos, masterVK, monitoring) ==
      AggBaseFrom(c, d, p, |p.baseTreeProofs|, latest, latest.Some?, identifier, value, signature, pos, masterVK, monitoring)
  {
    latest := None;
    var valueExists := false;
    var i := 0;
    while i < |p.baseTreeProofs|
      invariant i <= |p.baseTreeProofs| && valueExists == latest.Some?
      invariant AggBaseFrom(c, d, p, 0, None, false, identifier, value, signature, pos, masterVK, monitoring) ==
                AggBaseFrom(c, d, p, i, latest, valueExists, identifier, value, signature, pos, masterVK, monitoring)
    {
      if i >= |d.baseTreeRoots| {
        return Some(Panics), latest;
      }
      var e := p.baseTreeProofs[i];
      if e.valueExists {
        latest := Some(Pick(e, d.baseTreeRoots[i]));
        valueExists := true;
        var success := ValidateExistenceProof(c, e, identifier, value, signature, pos, masterVK, d.baseTreeRoots[i], false);
        if success == Panics {
          return Some(Panics), latest;
        }
      } else {
        var success := ValidateNonMembershipProof(c, e.nonMembershipProof, identifier, d.baseTreeRoots[i]);
        if success != Accepted {
          return Some(success), latest;
        }
        if valueExists {
          return Some(Rejected), latest;
        }
      }
      i := i + 1;
    }
    stop := None;
  }

  /** AggHistVerifier.ValidatePKProof, with its two loops. */
  method AggValidatePKProof(c: Primitives, d: Digest, p: ExistenceProof, identifier: Bytes, value: Bytes,
                            signature: Bytes, pos: nat, masterVK: Bytes) returns (r: Outcome)
    ensures r == AggPKVerdict(c, d, p, identifier, value, signature, pos, masterVK)
  {
    var stop, latest := AggBaseLoop(c, d, p, identifier, value, signature, pos, masterVK, false);
    if stop.Some? {
      return stop.value;
    }
    var ups := p.updateLogProofs;
    var i := 0;
    while i < |ups|
      invariant i <= |ups|
      invariant AggPKVerdict(c, d, p, identifier, value, signature, pos, masterVK) ==
                AggUpdateFrom(c, d, ups, i, latest, identifier, value, signature, pos, masterVK)
    {
      if i >= |d.updateSetRoots| {
        return Panics;
      }
      if ups[i].valueExists {
        latest := Some(Pick(ups[i], d.updateSetRoots[i]));
      } else {
        var success := ValidateNonMembershipProof(c, ups[i].nonMembershipProof, identifier, d.updateSetRoots[i]);
        if success != Accepted {
          return success;
        }
      }
      i := i + 1;
    }
    if latest.None? {
      return Rejected;
    }
    r := ValidateExistenceProof(c, latest.value.entry, identifier, value, signature, pos, masterVK, latest.value.root, false);
  }

  /** AggHistVerifier.ValidatePKProofMonitoring: the base-tree loop, then a membership entry must have been seen. */
  method AggValidatePKProofMonitoring(c: Primitives, d: Digest, p: ExistenceProof, identifier: Bytes, value: Bytes,
                                      signature: Bytes, pos: nat, masterVK: Bytes) returns (r: Outcome)
    ensures r == AggMonitoringVerdict(c, d, p, identifier, value, signature, pos, masterVK)
  {
    var stop, latest := AggBaseLoop(c, d, p, identifier, value, signature, pos, masterVK, true);
    if stop.Some? {
      return stop.value;
    }
    r := if latest.None? then Rejected else Accepted;
  }

  // ---------------------------------------------------------------------
  // AggHistVerifier.ValidateMKProof.

  /**
   * The base-tree loop of AggHistVerifier.ValidateMKProof from entry i on:
   * any membership entry refuses (the master key must be new), every
   * other entry must pass validateNonMembershipProof.
   */
  function AggMKBaseFrom(c: Primitives, d: Digest, p: ExistenceProof, i: nat, id: Bytes,
                         signature: Bytes, pos: nat, masterVK: Bytes, checked: bool): (r: Outcome)
    requires i <= |p.baseTreeProofs|
    ensures r == Accepted ==> forall k :: i <= k < |p.baseTreeProofs| ==> !p.baseTreeProofs[k].valueExists
    ensures r == Accepted ==> exists k :: 0 <= k < |p.updateLogProofs| && p.updateLogProofs[k].valueExists
    decreases |p.baseTreeProofs| - i
  {
    if i == |p.baseTreeProofs| then AggMKUpdateFrom(c, d.updateSetRoots, p.updateLogProofs, 0, false, id, signature, pos, masterVK, checked)
    else if p.baseTreeProofs[i].valueExists then Rejected
    else if i >= |d.baseTreeRoots| then Panics
    else match ValidateNonMembershipProof(c, p.baseTreeProofs[i].nonMembershipProof, id, d.baseTreeRoots[i])
      case Accepted => AggMKBaseFrom(c, d, p, i + 1, id, signature, pos, masterVK, checked)
      case Rejected => Rejected
      case Panics => Panics
  }

  /**
   * The update-log loop of AggHistVerifier.ValidateMKProof from entry i
   * on: a second membership entry refuses, the first must pass
   * validateExistenceProof with the master key as the value, and the
   * other entries must pass validateNonExistenceProof as written (or, when
   * checked, validateNonMembershipProof on their non-membership proof, as
   * the entries GenerateExistenceProof builds call for). Exactly one
   * membership entry accepts.
   */
  function AggMKUpdateFrom(c: Primitives, roots: seq<NBytes>, es: seq<ProofEntry>, i: nat, proved: bool, id: Bytes,
                           signature: Bytes, pos: nat, masterVK: Bytes, checked: bool): (r: Outcome)
    requires i <= |es|
    ensures r == Accepted ==> proved || exists k :: i <= k < |es| && es[k].valueExists
    decreases |es| - i
  {
    if i == |es| then (if proved then Accepted else Rejected)
    else if es[i].valueExists then
      if proved then Rejected
      else if i >= |roots| then Panics
      else match ExistenceVerdict(c, es[i], id, masterVK, signature, pos, masterVK, roots[i], true)
        case Accepted => AggMKUpdateFrom(c, roots, es, i + 1, true, id, signature, pos, masterVK, checked)
        case Rejected => Rejected
        case Panics => Panics
    else if i >= |roots| then Panics
    else
      match NonMemberCheck(c, es[i], id, roots[i], checked)
      case Accepted => AggMKUpdateFrom(c, roots, es, i + 1, proved, id, signature, pos, masterVK, checked)
      case Rejected => Rejected
      case Panics => Panics
  }

  /** AggHistVerifier.ValidateMKProof as written. */
  function AggMKVerdict(c: Primitives, d: Digest, p: ExistenceProof, username: Bytes, value: Bytes,
                        signature: Bytes, pos: nat, masterVK: Bytes): (r: Outcome)
    ensures r == Accepted ==> forall k :: 0 <= k < |p.baseTreeProofs| ==> !p.baseTreeProofs[k].valueExists
    ensures r == Accepted ==> exists k :: 0 <= k < |p.updateLogProofs| && p.updateLogProofs[k].valueExists
  {
    AggMKBaseFrom(c, d, p, 0, MasterKeyId(username), signature, pos, masterVK, false)
  }

  /** AggHistVerifier.ValidateMKProof: its base-tree loop, then its update-log loop. */
  method AggValidateMKProof(c: Primitives, d: Digest, p: ExistenceProof, username: Bytes, value: Bytes,
                            signature: Bytes, pos: nat, masterVK: Bytes) returns (r: Outcome)
    ensures r == AggMKVerdict(c, d, p, username, value, signature, pos, masterVK)
  {
    var identifier := MasterKeyId(username);
    var stop := AggMKBaseLoop(c, d, p, identifier, signature, pos, masterVK);
    if stop.Some? {
      return stop.value;
    }
    r := AggMKUpdateLoop(c, d.updateSetRoots, p.updateLogProofs, identifier, signature, pos, masterVK);
  }

  /**
   * The base-tree loop of AggHistVerifier.ValidateMKProof: it stops with
   * the check's outcome, or hands on to the update-log loop.
   */
  method AggMKBaseLoop(c: Primitives, d: Digest, p: ExistenceProof, identifier: Bytes,
                       signature: Bytes, pos: nat, masterVK: Bytes) returns (stop: Option<Outcome>)
    ensures stop.Some? ==> stop.value == AggMKBaseFrom(c, d, p, 0, identifier, signature, pos, masterVK, false)
    ensures stop.None? ==>
      AggMKBaseFrom(c, d, p, 0, identifier, signature, pos, masterVK, false) ==
      AggMKUpdateFrom(c, d.updateSetRoots, p.updateLogProofs, 0, false, identifier, signature, pos, masterVK, false)
  {
    var i := 0;
    while i < |p.baseTreeProofs|
      invariant i <= |p.baseTreeProofs|
      invariant AggMKBaseFrom(c, d, p, 0, identifier, signature, pos, masterVK, false) ==
                AggMKBaseFrom(c, d, p, i, identifier, signature, pos, masterVK, false)
    {
      if p.baseTreeProofs[i].valueExists {
        return Some(Rejected);
      }
      if i >= |d.baseTreeRoots| {
        return Some(Panics);
      }
      var ok := ValidateNonMembershipProof(c, p.baseTreeProofs[i].nonMembershipProof, identifier, d.baseTreeRoots[i]);
      if ok != Accepted {
        return Some(ok);
      }
      i := i + 1;
    }
    stop := None;
  }

  /**
   * The update-log loop of AggHistVerifier.ValidateMKProof: exactly one
   * membership entry, passing validateExistenceProof, and every other
   * entry passing validateNonExistenceProof.
   */
  method AggMKUpdateLoop(c: Primitives, roots: seq<NBytes>, ups: seq<ProofEntry>, identifier: Bytes,
                         signature: Bytes, pos: nat, masterVK: Bytes) returns (r: Outcome)
    ensures r == AggMKUpdateFrom(c, roots, ups, 0, false, identifier, signature, pos, masterVK, false)
  {
    var proved := false;
    var i := 0;
    while i < |ups|
      invariant i <= |ups|
      invariant AggMKUpdateFrom(c, roots, ups, 0, false, identifier, signature, pos, masterVK, false) ==
                AggMKUpdateFrom(c, roots, ups, i, proved, identifier, signature, pos, masterVK, false)
    {
      if ups[i].valueExists {
        if proved {
          return Rejected;
        }
        if i >= |roots| {
          return Panics;
        }
        var success := ValidateExistenceProof(c, ups[i], identifier, masterVK, signature, pos, masterVK, roots[i], true);
        if success != Accepted {
          return success;
        }
        proved := true;
      } else {
        if i >= |roots| {
          return Panics;
        }
        var success := ValidateNonExistenceProof(c, ups[i], identifier, roots[i]);
        if success != Accepted {
          return success;
        }
      }
      i := i + 1;
    }
    r := if proved then Accepted else Rejected;
  }

  // ---------------------------------------------------------------------
  // The checks as intended.

  /**
   * ValidatePKProof as intended: a proof whose only membership entry is
   * the base-tree one is checked against the base tree's reported root
   * (BaseTreeRoots[0], the tree at v-2 the entry was built from) instead
   * of reading UpdateSetRoots[-1].
   */
  function CheckedPKVerdict(c: Primitives, d: Digest, p: ExistenceProof, identifier: Bytes, value: Bytes,
                            signature: Bytes, pos: nat, masterVK: Bytes): (r: Outcome)
    ensures r == Accepted ==>
      (LastMembership(p.updateLogProofs).Some? ||
       (|p.baseTreeProofs| > 0 && p.baseTreeProofs[0].valueExists && |d.baseTreeRoots| > 0 &&
        ExistenceVerdict(c, p.baseTreeProofs[0], identifier, value, signature, pos, masterVK, d.baseTreeRoots[0], false) == Accepted))
    ensures LastMembership(p.updateLogProofs).Some? ==>
      r == PKVerdict(c, d, p, identifier, value, signature, pos, masterVK)
  {
    if |p.baseTreeProofs| == 0 then Panics
    else
      var b := p.baseTreeProofs[0];
      if !BaseEntryComplete(b) then Rejected
      else match LastMembership(p.updateLogProofs)
        case None =>
          if !b.valueExists then Rejected
          else if |d.baseTreeRoots| == 0 then Panics
          else ExistenceVerdict(c, b, identifier, value, signature, pos, masterVK, d.baseTreeRoots[0], false)
        case Some(i) =>
          if i >= |d.updateSetRoots| then Panics
          else ExistenceVerdict(c, p.updateLogProofs[i], identifier, value, signature, pos, masterVK, d.updateSetRoots[i], false)
  }

  /**
   * ValidateMKProof as intended: the non-membership entries before the
   * first membership entry are checked with validateNonMembershipProof.
   */
  function CheckedMKVerdict(c: Primitives, d: Digest, p: ExistenceProof, username: Bytes, value: Bytes,
                            signature: Bytes, pos: nat, masterVK: Bytes): (r: Outcome)
    ensures r == Accepted ==> exists k :: 0 <= k < |p.updateLogProofs| && p.updateLogProofs[k].valueExists
  {
    if |p.baseTreeProofs| == 0 then Panics
    else if !BaseEntryComplete(p.baseTreeProofs[0]) then Rejected
    else MKFrom(c, d.updateSetRoots, p.updateLogProofs, 0, MasterKeyId(username), signature, pos, masterVK, true)
  }

  /**
   * AggHistVerifier.ValidateMKProof as intended: the update-log
   * non-membership entries are checked with validateNonMembershipProof.
   */
  function CheckedAggMKVerdict(c: Primitives, d: Digest, p: ExistenceProof, username: Bytes, value: Bytes,
                               signature: Bytes, pos: nat, masterVK: Bytes): (r: Outcome)
    ensures r == Accepted ==> forall k :: 0 <= k < |p.baseTreeProofs| ==> !p.baseTreeProofs[k].valueExists
    ensures r == Accepted ==> exists k :: 0 <= k < |p.updateLogProofs| && p.updateLogProofs[k].valueExists
  {
    AggMKBaseFrom(c, d, p, 0, MasterKeyId(username), signature, pos, masterVK, true)
  }

  // ---------------------------------------------------------------------
  // Honest proofs.

  /** Every trie in the list is over hashed identifiers. */
  predicate AllUniform(ts: seq<Node>)
  {
    forall i :: 0 <= i < |ts| ==> Uniform(ts[i])
  }

  /**
   * Reported roots that fit the tries, possibly followed by more roots:
   * each is the trie's hash, or nil for a trie without the key.
   */
  predicate Covers(c: Primitives, roots: seq<NBytes>, ts: seq<Node>, key: Bytes)
  {
    |roots| >= |ts| &&
    forall i :: 0 <= i < |ts| ==> roots[i] == Some(HashOf(c, ts[i])) || (roots[i].None? && Lookup(ts[i], key).None?)
  }

  /** Once a tree of the list holds the key, every later one does (base trees only grow). */
  predicate Kept(ts: seq<Node>, key: Bytes)
  {
    forall i, j :: 0 <= i < j < |ts| && Lookup(ts[i], key).Some? ==> Lookup(ts[j], key).Some?
  }

  /** The proof GenerateExistenceProof builds from base tries and update tries. */
  function HonestProof(c: Primitives, Bs: seq<Node>, ts: seq<Node>, identifier: Bytes): ExistenceProof
    requires AllUniform(Bs) && AllUniform(ts)
  {
    ExistenceProof(TrieEntries(c, Bs, identifier), TrieEntries(c, ts, identifier))
  }

  /**
   * What checking a trie holding the key comes to: the value's leaf hash
   * must be among the key's values and the master key must have signed
   * the value.
   */
  function HonestVerdict(c: Primitives, t: Node, identifier: Bytes, value: Bytes, signature: Bytes,
                         pos: nat, masterVK: Bytes, isMK: bool): Outcome
  {
    if HasLeafHash(ValuesAt(t, KeyPrefix(c, identifier)), ExpectedLeafHash(c, identifier, value, signature)) &&
       c.verifyBlob(masterVK, signature, SignedValue(value, pos, isMK))
    then Accepted else Rejected
  }

  /** The last trie of the list holding the key. */
  function LastHolder(ts: seq<Node>, key: Bytes): (r: Option<nat>)
    ensures r.Some? ==>
      r.value < |ts| && Lookup(ts[r.value], key).Some? && forall j :: r.value < j < |ts| ==> Lookup(ts[j], key).None?
    ensures r.None? ==> forall j :: 0 <= j < |ts| ==> Lookup(ts[j], key).None?
  {
    if ts == [] then None
    else if Lookup(ts[|ts| - 1], key).Some? then Some(|ts| - 1)
    else LastHolder(ts[..|ts| - 1], key)
  }

  /** The first trie of the list from index i on holding the key. */
  function FirstHolderFrom(ts: seq<Node>, key: Bytes, i: nat): (r: Option<nat>)
    requires i <= |ts|
    ensures r.Some? ==>
      i <= r.value < |ts| && Lookup(ts[r.value], key).Some? && forall j :: i <= j < r.value ==> Lookup(ts[j], key).None?
    ensures r.None? ==> forall j :: i <= j < |ts| ==> Lookup(ts[j], key).None?
    decreases |ts| - i
  {
    if i == |ts| then None
    else if Lookup(ts[i], key).Some? then Some(i)
    else FirstHolderFrom(ts, key, i + 1)
  }

  /** An honest membership entry checked against its trie's hash comes to HonestVerdict; it never panics. */
  lemma HonestMember(c: Primitives, t: Node, root: NBytes, identifier: Bytes, value: Bytes, signature: Bytes,
                     pos: nat, masterVK: Bytes, isMK: bool)
    requires Uniform(t) && Lookup(t, KeyPrefix(c, identifier)).Some? && root == Some(HashOf(c, t))
    ensures ExistenceVerdict(c, TrieEntry(c, t, identifier), identifier, value, signature, pos, masterVK, root, isMK) ==
            HonestVerdict(c, t, identifier, value, signature, pos, masterVK, isMK)
  {
    KeySafe(c, t, identifier);
    WalkLookup(t, KeyPrefix(c, identifier));
    assert t.prefix + KeyPrefix(c, identifier) == KeyPrefix(c, identifier);
    MembershipRoundTrip(c, t, KeyPrefix(c, identifier));
    ExistenceEntryAccepted(c, t, identifier, value, signature, pos, masterVK, isMK);
  }

  /** An honest non-membership entry passes validateNonMembershipProof against its trie's hash or a nil root. */
  lemma HonestNonMember(c: Primitives, t: Node, root: NBytes, identifier: Bytes)
    requires Uniform(t) && Lookup(t, KeyPrefix(c, identifier)).None?
    requires root == Some(HashOf(c, t)) || root.None?
    ensures ValidateNonMembershipProof(c, TrieEntry(c, t, identifier).nonMembershipProof, identifier, root) == Accepted
  {
    if root.Some? {
      NonMembershipEntryAccepted(c, t, identifier);
    }
  }

  /** The last membership entry of an honest list is the one of the last trie holding the key. */
  lemma {:induction false} LastMembershipOfTries(c: Primitives, ts: seq<Node>, identifier: Bytes)
    requires AllUniform(ts)
    ensures LastMembership(TrieEntries(c, ts, identifier)) == LastHolder(ts, KeyPrefix(c, identifier))
  {
    if ts != [] {
      var n, es := |ts| - 1, TrieEntries(c, ts, identifier);
      assert es[n] == TrieEntry(c, ts[n], identifier);
      assert es[..n] == TrieEntries(c, ts[..n], identifier);
      LastMembershipOfTries(c, ts[..n], identifier);
    }
  }

  /**
   * ValidatePKProof on an honest proof, as written: the last update trie
   * holding the key decides; with none, a base-tree membership panics and
   * otherwise the proof is refused.
   */
  lemma PKHonest(c: Primitives, d: Digest, B: Node, ts: seq<Node>, identifier: Bytes, value: Bytes,
                 signature: Bytes, pos: nat, masterVK: Bytes)
    requires Uniform(B) && AllUniform(ts) && Covers(c, d.updateSetRoots, ts, KeyPrefix(c, identifier))
    ensures PKVerdict(c, d, HonestProof(c, [B], ts, identifier), identifier, value, signature, pos, masterVK) ==
      match LastHolder(ts, KeyPrefix(c, identifier))
      case Some(j) => HonestVerdict(c, ts[j], identifier, value, signature, pos, masterVK, false)
      case None => if Lookup(B, KeyPrefix(c, identifier)).Some? then Panics else Rejected
  {
    LastMembershipOfTries(c, ts, identifier);
    match LastHolder(ts, KeyPrefix(c, identifier))
    case Some(j) => HonestMember(c, ts[j], d.updateSetRoots[j], identifier, value, signature, pos, masterVK, false);
    case None =>
  }

  /**
   * ValidatePKProof as intended on an honest proof: the last tree holding
   * the key decides, the base tree when no update trie holds it.
   */
  lemma CheckedPKHonest(c: Primitives, d: Digest, B: Node, ts: seq<Node>, identifier: Bytes, value: Bytes,
                        signature: Bytes, pos: nat, masterVK: Bytes)
    requires Uniform(B) && AllUniform(ts)
    requires Covers(c, d.baseTreeRoots, [B], KeyPrefix(c, identifier)) && |d.baseTreeRoots| > 0
    requires Covers(c, d.updateSetRoots, ts, KeyPrefix(c, identifier))
    ensures CheckedPKVerdict(c, d, HonestProof(c, [B], ts, identifier), identifier, value, signature, pos, masterVK) ==
      match LastHolder(ts, KeyPrefix(c, identifier))
      case Some(j) => HonestVerdict(c, ts[j], identifier, value, signature, pos, masterVK, false)
      case None =>
        if Lookup(B, KeyPrefix(c, identifier)).Some? then HonestVerdict(c, B, identifier, value, signature, pos, masterVK, false)
        else Rejected
  {
    LastMembershipOfTries(c, ts, identifier);
    match LastHolder(ts, KeyPrefix(c, identifier))
    case Some(j) => HonestMember(c, ts[j], d.updateSetRoots[j], identifier, value, signature, pos, masterVK, false);
    case None =>
      if Lookup(B, KeyPrefix(c, identifier)).Some? {
        assert [B][0] == B;
        HonestMember(c, B, d.baseTreeRoots[0], identifier, value, signature, pos, masterVK, false);
      }
  }

  /**
   * A key appended before the last verification period and not since:
   * the honest proof has its only membership entry in the base tree, and
   * ValidatePKProof panics on it, where the check as intended accepts it.
   */
  lemma BaseOnlyMembershipPanics(c: Primitives, d: Digest, B: Node, ts: seq<Node>, identifier: Bytes, value: Bytes,
                                 signature: Bytes, pos: nat, masterVK: Bytes)
    requires Uniform(B) && AllUniform(ts)
    requires Covers(c, d.baseTreeRoots, [B], KeyPrefix(c, identifier)) && |d.baseTreeRoots| > 0
    requires Covers(c, d.updateSetRoots, ts, KeyPrefix(c, identifier))
    requires forall j :: 0 <= j < |ts| ==> Lookup(ts[j], KeyPrefix(c, identifier)).None?
    requires HasLeafHash(ValuesAt(B, KeyPrefix(c, identifier)), ExpectedLeafHash(c, identifier, value, signature))
    requires Lookup(B, KeyPrefix(c, identifier)).Some? && c.verifyBlob(masterVK, signature, SignedValue(value, pos, false))
    ensures PKVerdict(c, d, HonestProof(c, [B], ts, identifier), identifier, value, signature, pos, masterVK) == Panics
    ensures CheckedPKVerdict(c, d, HonestProof(c, [B], ts, identifier), identifier, value, signature, pos, masterVK) == Accepted
  {
    PKHonest(c, d, B, ts, identifier, value, signature, pos, masterVK);
    CheckedPKHonest(c, d, B, ts, identifier, value, signature, pos, masterVK);
  }

  /**
   * ValidateMKProof on an honest proof, as written: the first update trie
   * decides when it holds the master key; when it does not, its entry has
   * no membership proof and validateNonExistenceProof panics on it.
   */
  lemma MKHonest(c: Primitives, d: Digest, B: Node, ts: seq<Node>, username: Bytes, value: Bytes,
                 signature: Bytes, pos: nat, masterVK: Bytes)
    requires Uniform(B) && AllUniform(ts) && Covers(c, d.updateSetRoots, ts, KeyPrefix(c, MasterKeyId(username)))
    ensures MKVerdict(c, d, HonestProof(c, [B], ts, MasterKeyId(username)), username, value, signature, pos, masterVK) ==
      if |ts| == 0 then Rejected
      else if Lookup(ts[0], KeyPrefix(c, MasterKeyId(username))).Some? then
        HonestVerdict(c, ts[0], MasterKeyId(username), masterVK, signature, pos, masterVK, true)
      else Panics
  {
    var id := MasterKeyId(username);
    assert [B][0] == B;
    if |ts| > 0 && Lookup(ts[0], KeyPrefix(c, id)).Some? {
      HonestMember(c, ts[0], d.updateSetRoots[0], id, masterVK, signature, pos, masterVK, true);
    }
  }

  /** The loop of ValidateMKProof as intended, on honest entries, from a trie before the first holder on. */
  lemma {:induction false} CheckedMKFromHonest(c: Primitives, roots: seq<NBytes>, ts: seq<Node>, i: nat, id: Bytes,
                                              signature: Bytes, pos: nat, masterVK: Bytes)
    requires AllUniform(ts) && Covers(c, roots, ts, KeyPrefix(c, id)) && i <= |ts|
    ensures MKFrom(c, roots, TrieEntries(c, ts, id), i, id, signature, pos, masterVK, true) ==
      match FirstHolderFrom(ts, KeyPrefix(c, id), i)
      case None => Rejected
      case Some(j) => HonestVerdict(c, ts[j], id, masterVK, signature, pos, masterVK, true)
    decreases |ts| - i
  {
    var key := KeyPrefix(c, id);
    if i < |ts| {
      if Lookup(ts[i], key).Some? {
        HonestMember(c, ts[i], roots[i], id, masterVK, signature, pos, masterVK, true);
      } else {
        HonestNonMember(c, ts[i], roots[i], id);
        CheckedMKFromHonest(c, roots, ts, i + 1, id, signature, pos, masterVK);
      }
    }
  }

  /** ValidateMKProof as intended on an honest proof: the first update trie holding the master key decides. */
  lemma CheckedMKHonest(c: Primitives, d: Digest, B: Node, ts: seq<Node>, username: Bytes, value: Bytes,
                        signature: Bytes, pos: nat, masterVK: Bytes)
    requires Uniform(B) && AllUniform(ts) && Covers(c, d.updateSetRoots, ts, KeyPrefix(c, MasterKeyId(username)))
    ensures CheckedMKVerdict(c, d, HonestProof(c, [B], ts, MasterKeyId(username)), username, value, signature, pos, masterVK) ==
      match FirstHolderFrom(ts, KeyPrefix(c, MasterKeyId(username)), 0)
      case None => Rejected
      case Some(j) => HonestVerdict(c, ts[j], MasterKeyId(username), masterVK, signature, pos, masterVK, true)
  {
    assert [B][0] == B;
    CheckedMKFromHonest(c, d.updateSetRoots, ts, 0, MasterKeyId(username), signature, pos, masterVK);
  }

  /**
   * A master key registered in the second update epoch of the period:
   * ValidateMKProof panics on the honest proof, where the check as
   * intended accepts it.
   */
  lemma MKAfterNonMemberPanics(c: Primitives, d: Digest, B: Node, ts: seq<Node>, username: Bytes, value: Bytes,
                               signature: Bytes, pos: nat, masterVK: Bytes)
    requires Uniform(B) && AllUniform(ts) && Covers(c, d.updateSetRoots, ts, KeyPrefix(c, MasterKeyId(username)))
    requires |ts| == 2 && Lookup(ts[0], KeyPrefix(c, MasterKeyId(username))).None?
    requires Lookup(ts[1], KeyPrefix(c, MasterKeyId(username))).Some?
    requires HonestVerdict(c, ts[1], MasterKeyId(username), masterVK, signature, pos, masterVK, true) == Accepted
    ensures MKVerdict(c, d, HonestProof(c, [B], ts, MasterKeyId(username)), username, value, signature, pos, masterVK) == Panics
    ensures CheckedMKVerdict(c, d, HonestProof(c, [B], ts, MasterKeyId(username)), username, value, signature, pos, masterVK) == Accepted
  {
    MKHonest(c, d, B, ts, username, value, signature, pos, masterVK);
    CheckedMKHonest(c, d, B, ts, username, value, signature, pos, masterVK);
    assert FirstHolderFrom(ts, KeyPrefix(c, MasterKeyId(username)), 0) == Some(1);
  }

  /**
   * What the AggHistVerifier's PK check answers on an honest proof: the
   * last update trie holding the key decides, else the last base tree
   * holding it; with none, the proof is refused.
   */
  function LatestVerdict(c: Primitives, Bs: seq<Node>, ts: seq<Node>, identifier: Bytes, value: Bytes,
                         signature: Bytes, pos: nat, masterVK: Bytes): (r: Outcome)
    ensures r != Panics
    ensures r == Accepted ==>
      c.verifyBlob(masterVK, signature, SignedValue(value, pos, false)) &&
      ((exists j :: 0 <= j < |ts| && Lookup(ts[j], KeyPrefix(c, identifier)).Some?) ||
       (exists j :: 0 <= j < |Bs| && Lookup(Bs[j], KeyPrefix(c, identifier)).Some?))
  {
    match LastHolder(ts, KeyPrefix(c, identifier))
    case Some(j) => HonestVerdict(c, ts[j], identifier, value, signature, pos, masterVK, false)
    case None =>
      match LastHolder(Bs, KeyPrefix(c, identifier))
      case Some(j) => HonestVerdict(c, Bs[j], identifier, value, signature, pos, masterVK, false)
      case None => Rejected
  }

  /** The last holder among the first i + 1 tries. */
  lemma LastHolderStep(ts: seq<Node>, key: Bytes, i: nat)
    requires i < |ts|
    ensures LastHolder(ts[..i + 1], key) == if Lookup(ts[i], key).Some? then Some(i) else LastHolder(ts[..i], key)
  {
    assert ts[..i + 1][..i] == ts[..i];
  }

  /** The last trie of the list from index i on holding the key. */
  function LastHolderFrom(ts: seq<Node>, key: Bytes, i: nat): (r: Option<nat>)
    requires i <= |ts|
    ensures r.Some? ==>
      i <= r.value < |ts| && Lookup(ts[r.value], key).Some? && forall j :: r.value < j < |ts| ==> Lookup(ts[j], key).None?
    ensures r.None? ==> forall j :: i <= j < |ts| ==> Lookup(ts[j], key).None?
    decreases |ts| - i
  {
    if i == |ts| then None
    else match LastHolderFrom(ts, key, i + 1)
      case Some(j) => Some(j)
      case None => if Lookup(ts[i], key).Some? then Some(i) else None
  }

  /** Scanning forward from the first trie finds the same last holder as scanning back. */
  lemma LastHolderFromStart(ts: seq<Node>, key: Bytes)
    ensures LastHolderFrom(ts, key, 0) == LastHolder(ts, key)
  {
  }

  /**
   * The update-log loop of AggHistVerifier.ValidatePKProof on honest
   * entries, from entry i on: the last update trie from i on holding the
   * key decides; with none, the latest membership entry seen before does.
   */
  lemma {:induction false} AggUpdateHonest(c: Primitives, d: Digest, ts: seq<Node>, i: nat, latest: Option<Pick>,
                                          identifier: Bytes, value: Bytes, signature: Bytes, pos: nat, masterVK: Bytes)
    requires AllUniform(ts) && Covers(c, d.updateSetRoots, ts, KeyPrefix(c, identifier)) && i <= |ts|
    ensures AggUpdateFrom(c, d, TrieEntries(c, ts, identifier), i, latest, identifier, value, signature, pos, masterVK) ==
      match LastHolderFrom(ts, KeyPrefix(c, identifier), i)
      case Some(j) => HonestVerdict(c, ts[j], identifier, value, signature, pos, masterVK, false)
      case None =>
        if latest.None? then Rejected
        else ExistenceVerdict(c, latest.value.entry, identifier, value, signature, pos, masterVK, latest.value.root, false)
    decreases |ts| - i
  {
    var key, es := KeyPrefix(c, identifier), TrieEntries(c, ts, identifier);
    if i < |ts| {
      var e, root := TrieEntry(c, ts[i], identifier), d.updateSetRoots[i];
      assert es[i] == e;
      if Lookup(ts[i], key).Some? {
        HonestMember(c, ts[i], root, identifier, value, signature, pos, masterVK, false);
        AggUpdateHonest(c, d, ts, i + 1, Some(Pick(e, root)), identifier, value, signature, pos, masterVK);
      } else {
        HonestNonMember(c, ts[i], root, identifier);
        AggUpdateHonest(c, d, ts, i + 1, latest, identifier, value, signature, pos, masterVK);
      }
    }
  }

  /** The base-tree loop of the AggHistVerifier's PK checks on honest entries, from entry i on. */
  lemma {:induction false} AggBaseHonest(c: Primitives, d: Digest, Bs: seq<Node>, ts: seq<Node>, i: nat,
                                        latest: Option<Pick>, identifier: Bytes, value: Bytes, signature: Bytes,
                                        pos: nat, masterVK: Bytes, monitoring: bool)
    requires AllUniform(Bs) && AllUniform(ts) && i <= |Bs|
    requires Covers(c, d.baseTreeRoots, Bs, KeyPrefix(c, identifier)) && Kept(Bs, KeyPrefix(c, identifier))
    requires Covers(c, d.updateSetRoots, ts, KeyPrefix(c, identifier))
    requires latest.None? <==> LastHolder(Bs[..i], KeyPrefix(c, identifier)).None?
    requires latest.Some? ==>
      ExistenceVerdict(c, latest.value.entry, identifier, value, signature, pos, masterVK, latest.value.root, false) ==
      HonestVerdict(c, Bs[LastHolder(Bs[..i], KeyPrefix(c, identifier)).value], identifier, value, signature, pos, masterVK, false)
    ensures AggBaseFrom(c, d, HonestProof(c, Bs, ts, identifier), i, latest, latest.Some?,
                        identifier, value, signature, pos, masterVK, monitoring) ==
      if monitoring then (if LastHolder(Bs, KeyPrefix(c, identifier)).None? then Rejected else Accepted)
      else LatestVerdict(c, Bs, ts, identifier, value, signature, pos, masterVK)
    decreases |Bs| - i
  {
    var key := KeyPrefix(c, identifier);
    if i == |Bs| {
      assert Bs[..i] == Bs;
      if !monitoring {
        AggUpdateHonest(c, d, ts, 0, latest, identifier, value, signature, pos, masterVK);
        LastHolderFromStart(ts, key);
      }
    } else {
      LastHolderStep(Bs, key, i);
      var e := TrieEntry(c, Bs[i], identifier);
      if Lookup(Bs[i], key).Some? {
        HonestMember(c, Bs[i], d.baseTreeRoots[i], identifier, value, signature, pos, masterVK, false);
        AggBaseHonest(c, d, Bs, ts, i + 1, Some(Pick(e, d.baseTreeRoots[i])), identifier, value, signature, pos,
                      masterVK, monitoring);
      } else {
        HonestNonMember(c, Bs[i], d.baseTreeRoots[i], identifier);
        AggBaseHonest(c, d, Bs, ts, i + 1, latest, identifier, value, signature, pos, masterVK, monitoring);
      }
    }
  }

  /**
   * AggHistVerifier.ValidatePKProof on an honest proof over base trees in
   * which the key, once present, stays: the last tree holding the key
   * decides, an update trie before any base tree.
   */
  lemma AggPKHonest(c: Primitives, d: Digest, Bs: seq<Node>, ts: seq<Node>, identifier: Bytes, value: Bytes,
                    signature: Bytes, pos: nat, masterVK: Bytes)
    requires AllUniform(Bs) && AllUniform(ts)
    requires Covers(c, d.baseTreeRoots, Bs, KeyPrefix(c, identifier)) && Kept(Bs, KeyPrefix(c, identifier))
    requires Covers(c, d.updateSetRoots, ts, KeyPrefix(c, identifier))
    ensures AggPKVerdict(c, d, HonestProof(c, Bs, ts, identifier), identifier, value, signature, pos, masterVK) ==
            LatestVerdict(c, Bs, ts, identifier, value, signature, pos, masterVK)
  {
    assert Bs[..0] == [];
    AggBaseHonest(c, d, Bs, ts, 0, None, identifier, value, signature, pos, masterVK, false);
  }

  /**
   * ValidatePKProofMonitoring on an honest proof accepts exactly when some
   * base tree holds the key, whatever the value: the base-tree membership
   * entries are checked, but a failed check is only printed.
   */
  lemma AggMonitoringHonest(c: Primitives, d: Digest, Bs: seq<Node>, ts: seq<Node>, identifier: Bytes, value: Bytes,
                            signature: Bytes, pos: nat, masterVK: Bytes)
    requires AllUniform(Bs) && AllUniform(ts)
    requires Covers(c, d.baseTreeRoots, Bs, KeyPrefix(c, identifier)) && Kept(Bs, KeyPrefix(c, identifier))
    requires Covers(c, d.updateSetRoots, ts, KeyPrefix(c, identifier))
    ensures AggMonitoringVerdict(c, d, HonestProof(c, Bs, ts, identifier), identifier, value, signature, pos, masterVK) ==
            if LastHolder(Bs, KeyPrefix(c, identifier)).None? then Rejected else Accepted
  {
    assert Bs[..0] == [];
    AggBaseHonest(c, d, Bs, ts, 0, None, identifier, value, signature, pos, masterVK, true);
  }

  /**
   * The base-tree loop of AggHistVerifier.ValidateMKProof on honest
   * entries: refused when a base tree holds the master key, handed on to
   * the update-log loop otherwise.
   */
  lemma {:induction false} AggMKBaseHonest(c: Primitives, d: Digest, Bs: seq<Node>, ts: seq<Node>, i: nat, id: Bytes,
                                          signature: Bytes, pos: nat, masterVK: Bytes, checked: bool)
    requires AllUniform(Bs) && AllUniform(ts) && i <= |Bs| && Covers(c, d.baseTreeRoots, Bs, KeyPrefix(c, id))
    ensures AggMKBaseFrom(c, d, HonestProof(c, Bs, ts, id), i, id, signature, pos, masterVK, checked) ==
      if NoHolderFrom(Bs, KeyPrefix(c, id), i)
      then AggMKUpdateFrom(c, d.updateSetRoots, TrieEntries(c, ts, id), 0, false, id, signature, pos, masterVK, checked)
      else Rejected
    decreases |Bs| - i
  {
    if i < |Bs| {
      NoHolderStep(Bs, KeyPrefix(c, id), i);
      if Lookup(Bs[i], KeyPrefix(c, id)).None? {
        HonestNonMember(c, Bs[i], d.baseTreeRoots[i], id);
        AggMKBaseHonest(c, d, Bs, ts, i + 1, id, signature, pos, masterVK, checked);
      }
    }
  }

  /**
   * What AggHistVerifier.ValidateMKProof as intended answers on honest
   * update entries from index i on: the first update trie holding the
   * master key must be the only one, and its leaf hash and signature must
   * check.
   */
  function SoleHolderFrom(c: Primitives, ts: seq<Node>, i: nat, id: Bytes, signature: Bytes, pos: nat,
                          masterVK: Bytes): Outcome
    requires i <= |ts|
  {
    match FirstHolderFrom(ts, KeyPrefix(c, id), i)
    case None => Rejected
    case Some(j) =>
      if HonestVerdict(c, ts[j], id, masterVK, signature, pos, masterVK, true) == Accepted &&
         NoHolderFrom(ts, KeyPrefix(c, id), j + 1)
      then Accepted else Rejected
  }

  /** No trie of ts from index i on holds the key. */
  predicate NoHolderFrom(ts: seq<Node>, key: Bytes, i: nat)
  {
    forall k :: i <= k < |ts| ==> Lookup(ts[k], key).None?
  }

  /** No trie from index i on holds the key when trie i does not and none from i + 1 on does. */
  lemma NoHolderStep(ts: seq<Node>, key: Bytes, i: nat)
    requires i < |ts|
    ensures NoHolderFrom(ts, key, i) <==> Lookup(ts[i], key).None? && NoHolderFrom(ts, key, i + 1)
  {
  }

  /**
   * The update-log loop of AggHistVerifier.ValidateMKProof as intended,
   * once the master key's membership entry has passed: any later honest
   * membership entry refuses the proof.
   */
  lemma {:induction false} CheckedAggMKProvedHonest(c: Primitives, roots: seq<NBytes>, ts: seq<Node>, i: nat,
                                                   id: Bytes, signature: Bytes, pos: nat, masterVK: Bytes)
    requires AllUniform(ts) && Covers(c, roots, ts, KeyPrefix(c, id)) && i <= |ts|
    ensures AggMKUpdateFrom(c, roots, TrieEntries(c, ts, id), i, true, id, signature, pos, masterVK, true) ==
            if NoHolderFrom(ts, KeyPrefix(c, id), i) then Accepted else Rejected
    decreases |ts| - i
  {
    var key, es := KeyPrefix(c, id), TrieEntries(c, ts, id);
    if i < |ts| {
      assert es[i] == TrieEntry(c, ts[i], id);
      NoHolderStep(ts, key, i);
      if Lookup(ts[i], key).None? {
        HonestNonMember(c, ts[i], roots[i], id);
        CheckedAggMKProvedHonest(c, roots, ts, i + 1, id, signature, pos, masterVK);
      }
    }
  }

  /**
   * The update-log loop of AggHistVerifier.ValidateMKProof as intended, on
   * honest entries, from an entry i before any trie holding the master key.
   */
  lemma {:induction false} CheckedAggMKUpdateHonest(c: Primitives, roots: seq<NBytes>, ts: seq<Node>, i: nat,
                                                   id: Bytes, signature: Bytes, pos: nat, masterVK: Bytes)
    requires AllUniform(ts) && Covers(c, roots, ts, KeyPrefix(c, id)) && i <= |ts|
    ensures AggMKUpdateFrom(c, roots, TrieEntries(c, ts, id), i, false, id, signature, pos, masterVK, true) ==
            SoleHolderFrom(c, ts, i, id, signature, pos, masterVK)
    decreases |ts| - i
  {
    var key, es := KeyPrefix(c, id), TrieEntries(c, ts, id);
    if i < |ts| {
      assert es[i] == TrieEntry(c, ts[i], id);
      if Lookup(ts[i], key).Some? {
        HonestMember(c, ts[i], roots[i], id, masterVK, signature, pos, masterVK, true);
        if HonestVerdict(c, ts[i], id, masterVK, signature, pos, masterVK, true) == Accepted {
          CheckedAggMKProvedHonest(c, roots, ts, i + 1, id, signature, pos, masterVK);
        }
      } else {
        HonestNonMember(c, ts[i], roots[i], id);
        CheckedAggMKUpdateHonest(c, roots, ts, i + 1, id, signature, pos, masterVK);
      }
    }
  }

  /**
   * AggHistVerifier.ValidateMKProof as intended on an honest proof: it
   * accepts exactly when no base tree holds the master key and exactly one
   * update trie does, with the master key's own leaf hash and signature.
   */
  lemma CheckedAggMKHonest(c: Primitives, d: Digest, Bs: seq<Node>, ts: seq<Node>, username: Bytes, value: Bytes,
                           signature: Bytes, pos: nat, masterVK: Bytes)
    requires AllUniform(Bs) && AllUniform(ts)
    requires Covers(c, d.baseTreeRoots, Bs, KeyPrefix(c, MasterKeyId(username)))
    requires Covers(c, d.updateSetRoots, ts, KeyPrefix(c, MasterKeyId(username)))
    ensures CheckedAggMKVerdict(c, d, HonestProof(c, Bs, ts, MasterKeyId(username)), username, value, signature, pos, masterVK) ==
      if NoHolderFrom(Bs, KeyPrefix(c, MasterKeyId(username)), 0)
      then SoleHolderFrom(c, ts, 0, MasterKeyId(username), signature, pos, masterVK)
      else Rejected
  {
    var id := MasterKeyId(username);
    AggMKBaseHonest(c, d, Bs, ts, 0, id, signature, pos, masterVK, true);
    CheckedAggMKUpdateHonest(c, d.updateSetRoots, ts, 0, id, signature, pos, masterVK);
  }

  /**
   * A master key registered in the second update epoch of the period:
   * AggHistVerifier.ValidateMKProof panics on the honest proof (the first
   * update entry has no membership proof for validateNonExistenceProof),
   * where the check as intended accepts it.
   */
  lemma AggMKAfterNonMemberPanics(c: Primitives, d: Digest, Bs: seq<Node>, ts: seq<Node>, username: Bytes, value: Bytes,
                                  signature: Bytes, pos: nat, masterVK: Bytes)
    requires AllUniform(Bs) && AllUniform(ts)
    requires Covers(c, d.baseTreeRoots, Bs, KeyPrefix(c, MasterKeyId(username)))
    requires Covers(c, d.updateSetRoots, ts, KeyPrefix(c, MasterKeyId(username)))
    requires forall k :: 0 <= k < |Bs| ==> Lookup(Bs[k], KeyPrefix(c, MasterKeyId(username))).None?
    requires |ts| == 2 && Lookup(ts[0], KeyPrefix(c, MasterKeyId(username))).None?
    requires Lookup(ts[1], KeyPrefix(c, MasterKeyId(username))).Some?
    requires HonestVerdict(c, ts[1], MasterKeyId(username), masterVK, signature, pos, masterVK, true) == Accepted
    ensures AggMKVerdict(c, d, HonestProof(c, Bs, ts, MasterKeyId(username)), username, value, signature, pos, masterVK) == Panics
    ensures CheckedAggMKVerdict(c, d, HonestProof(c, Bs, ts, MasterKeyId(username)), username, value, signature, pos, masterVK) == Accepted
  {
    var id := MasterKeyId(username);
    AggMKBaseHonest(c, d, Bs, ts, 0, id, signature, pos, masterVK, false);
    CheckedAggMKHonest(c, d, Bs, ts, username, value, signature, pos, masterVK);
    assert FirstHolderFrom(ts, KeyPrefix(c, id), 0) == Some(1) && NoHolderFrom(ts, KeyPrefix(c, id), 2);
  }
}
