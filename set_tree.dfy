/**
 * The set tree of core/set_tree.go: a prefix tree over keys cut to one
 * length, whose empty root slots are filled with frontier leaves, that
 * answers membership queries and hands out proofs that a key is in the set
 * or outside it.
 */
module SetTrees {
  import opened Wrappers
  import opened Bits
  import opened Crypto
  import opened Copath
  import opened TrieSpec
  import opened TrieWalk
  import opened TrieArena
  import opened PrefixTrees

  // ---------------------------------------------------------------------
  // What NewSetTree appends.

  /** Every prefix can be cut to len bytes (prefixes[i][:len]), and the cut keys are bit strings. */
  predicate Cuttable(prefixes: seq<Bytes>, len: nat)
  {
    forall i :: 0 <= i < |prefixes| ==> len <= |prefixes[i]| && IsBits(prefixes[i][..len])
  }

  /** The appends of NewSetTree's first loop: key i cut to len, with value hash i at position 1. */
  function KeyAppends(prefixes: seq<Bytes>, valHashes: seq<Bytes>, len: nat): (r: seq<PrefixAppendRec>)
    requires |prefixes| <= |valHashes| && Cuttable(prefixes, len)
    ensures |r| == |prefixes|
  {
    seq(|prefixes|, i requires 0 <= i < |prefixes| => PrefixAppendRec(prefixes[i][..len], valHashes[i], 1))
  }

  /** The appends of NewSetTree's second loop: each frontier key is its own value hash, at position 0. */
  function FrontierAppends(frontier: seq<Bytes>): (r: seq<PrefixAppendRec>)
    ensures |r| == |frontier|
  {
    seq(|frontier|, i requires 0 <= i < |frontier| => PrefixAppendRec(frontier[i], frontier[i], 0))
  }

  /** The values the first n inputs give to the key x, in input order. */
  function KeyValues(prefixes: seq<Bytes>, valHashes: seq<Bytes>, len: nat, n: nat, x: Bytes): seq<KeyHash>
    requires n <= |prefixes| <= |valHashes| && Cuttable(prefixes, len)
  {
    if n == 0 then []
    else
      KeyValues(prefixes, valHashes, len, n - 1, x) +
      (if prefixes[n - 1][..len] == x then [KeyHash(valHashes[n - 1], 1)] else [])
  }

  /** A key's lookup result: none for a key that was given no value. */
  function AsLookup(vs: seq<KeyHash>): Option<seq<KeyHash>>
  {
    if vs == [] then None else Some(vs)
  }

  /**
   * The value of every input is among the values of its key, and every value
   * of a key is the value of an input with that key.
   */
  lemma {:induction false} KeyValuesOf(prefixes: seq<Bytes>, valHashes: seq<Bytes>, len: nat, n: nat, x: Bytes)
    requires n <= |prefixes| <= |valHashes| && Cuttable(prefixes, len)
    ensures forall i :: 0 <= i < n && prefixes[i][..len] == x ==>
      KeyHash(valHashes[i], 1) in KeyValues(prefixes, valHashes, len, n, x)
    ensures forall kh :: kh in KeyValues(prefixes, valHashes, len, n, x) ==>
      exists i :: 0 <= i < n && prefixes[i][..len] == x && kh == KeyHash(valHashes[i], 1)
  {
    if n > 0 {
      KeyValuesOf(prefixes, valHashes, len, n - 1, x);
      var prev := KeyValues(prefixes, valHashes, len, n - 1, x);
      var last := if prefixes[n - 1][..len] == x then [KeyHash(valHashes[n - 1], 1)] else [];
      assert KeyValues(prefixes, valHashes, len, n, x) == prev + last;
      forall kh | kh in prev + last
        ensures exists i :: 0 <= i < n && prefixes[i][..len] == x && kh == KeyHash(valHashes[i], 1)
      {
        if kh !in prev {
          assert prefixes[n - 1][..len] == x && kh == KeyHash(valHashes[n - 1], 1);
        }
      }
    }
  }

  // ---------------------------------------------------------------------
  // computeFrontier.

  /** 1 - bit on a Go byte, which wraps for bytes other than 0 and 1. */
  function OtherBit(b: byte): (r: byte)
    ensures b == 0 ==> r == 1
    ensures b == 1 ==> r == 0
  {
    ((1 - b as int) % 256) as byte
  }

  /** For every bit of a compressed label, the key so far followed by the label up to that bit and the other bit. */
  function LabelSiblings(p: Bytes, lbl: Bytes): (r: seq<Bytes>)
    ensures |r| == |lbl|
  {
    seq(|lbl|, i requires 0 <= i < |lbl| => p + lbl[..i] + [OtherBit(lbl[i])])
  }

  /**
   * computeFrontier for the node record curr, reached with the key bytes
   * prefixSoFar at depth: nothing at maxDepth; otherwise the siblings of the
   * bits of a compressed label, then the key extended past curr by 0 if curr
   * has no left child and by 1 if it has no right child. The lists the
   * recursive calls into the children return are discarded, so they add
   * nothing to the result.
   */
  function ComputeFrontier(curr: ANode, prefixSoFar: Bytes, depth: int, maxDepth: int): (res: seq<Bytes>)
    ensures depth == maxDepth ==> res == []
    ensures forall f :: f in res ==> |prefixSoFar| < |f| && f[..|prefixSoFar|] == prefixSoFar
  {
    if depth == maxDepth then []
    else
      var lbl := curr.prefix;
      var siblings := if |lbl| > 1 then LabelSiblings(prefixSoFar, lbl) else [];
      var p := prefixSoFar + lbl;
      assert forall f :: f in siblings ==> f[..|prefixSoFar|] == prefixSoFar;
      siblings + (if ArenaChild(curr, false).None? then [p + [0]] else []) +
                 (if ArenaChild(curr, true).None? then [p + [1]] else [])
  }

  /** The empty slots of the root, as one-bit keys: left before right. */
  function EmptySlots(t: Node): seq<Bytes>
  {
    (if Child(t, false).None? then [[0]] else []) + (if Child(t, true).None? then [[1]] else [])
  }

  /** The frontier NewSetTree appends after the keys of length len that build t. */
  function SetFrontier(t: Node, len: nat): seq<Bytes>
  {
    if len == 1 then [] else EmptySlots(t)
  }

  /**
   * At the root, whose label is empty, computeFrontier from depth 1 finds
   * exactly the root's empty slots, and none when the keys are one bit long.
   */
  lemma RootFrontier(m: Arena, t: Node, len: nat)
    requires Shape(m, t, None) && t.prefix == []
    ensures ComputeFrontier(m[t.id], [], 1, len) == SetFrontier(t, len)
  {
    ShapeChild(m, t, None, false);
    ShapeChild(m, t, None, true);
    var e: Bytes := [];
    assert m[t.id].prefix == [] && e + e + [0] == [0] && e + e + [1] == [1];
  }

  /** One-bit keys for distinct empty slots of the root t. */
  predicate FreshSlots(t: Node, fs: seq<Bytes>)
  {
    (forall j :: 0 <= j < |fs| ==> |fs[j]| == 1 && IsBits(fs[j]) && Child(t, Slot(fs[j][0])).None?) &&
    (forall j, k :: 0 <= j < k < |fs| ==> fs[j][0] != fs[k][0])
  }

  /** Every empty slot of the root t is the slot of one of the keys fs. */
  predicate Covered(t: Node, fs: seq<Bytes>)
  {
    (Child(t, false).Some? || [0] in fs) && (Child(t, true).Some? || [1] in fs)
  }

  /** The frontier of the root names its empty slots, each once. */
  lemma EmptySlotsFresh(t: Node)
    ensures FreshSlots(t, EmptySlots(t)) && Covered(t, EmptySlots(t))
  {
  }

  /** Appending the first frontier key fills its slot and leaves the others' slots empty. */
  lemma {:induction false} FrontierStep(t: Node, fs: seq<Bytes>, kh: KeyHash, newId: Id)
    requires t.Inner? && FreshSlots(t, fs) && |fs| > 0
    ensures CanInsert(t, fs[0])
    ensures FreshSlots(InsertBelow(t, fs[0], kh, newId), fs[1..])
    ensures Covered(t, fs) ==> Covered(InsertBelow(t, fs[0], kh, newId), fs[1..])
  {
    var r := InsertBelow(t, fs[0], kh, newId);
    var b := Slot(fs[0][0]);
    assert Child(r, b).Some?;
    assert Child(r, !b) == Child(t, !b);
    forall j | 0 <= j < |fs[1..]|
      ensures Child(r, Slot(fs[1..][j][0])).None?
    {
      assert fs[1..][j] == fs[j + 1];
      assert fs[0][0] != fs[j + 1][0];
      assert fs[0][0] == 0 || fs[0][0] == 1;
      assert fs[j + 1][0] == 0 || fs[j + 1][0] == 1;
    }
    if Covered(t, fs) {
      forall x | x in [[0 as byte], [1 as byte]] && Child(r, Slot(x[0])).None?
        ensures x in fs[1..]
      {
        assert Slot(x[0]) != b;
        assert Child(t, Slot(x[0])).None?;
        assert x in fs;
        assert x != fs[0];
      }
      assert Slot(0) == false && Slot(1) == true;
    }
  }

  // ---------------------------------------------------------------------
  // The set tree.

  /**
   * The record getLeaf returns for a used-up key is a leaf exactly when the
   * key is present, and then it holds the key's values.
   */
  lemma LeafRecord(m: Arena, t: Node, key: Bytes)
    requires Shape(m, t, None) && t.Inner? && t.prefix == [] && WalkSafe(t, key) && Walk(t, key).Reached?
    ensures Sub(t, Walk(t, key).path).value.id in m
    ensures var a := m[Sub(t, Walk(t, key).path).value.id];
            (Lookup(t, key).Some? <==> a.ALeaf?) && (a.ALeaf? ==> Lookup(t, key).value == a.values)
  {
    var p := Walk(t, key).path;
    WalkLookup(t, key);
    assert t.prefix + key == key;
    ShapeSub(m, t, p, None);
  }

  class SetTree {
    const tree: PrefixTree
    /** The length every key is cut to (prefix_len). */
    const prefixLen: nat

    ghost predicate Valid()
      reads this, tree
    {
      tree.Valid()
    }

    constructor (t: PrefixTree, len: nat)
      ensures tree == t && prefixLen == len
    {
      tree := t;
      prefixLen := len;
    }

    /** HasKey: the walk of getLeaf is used up on the key cut to prefixLen. */
    method HasKey(prefix: Bytes) returns (r: bool)
      requires Valid() && prefixLen <= |prefix| && WalkSafe(tree.tree, prefix[..prefixLen])
      ensures r <==> Walk(tree.tree, prefix[..prefixLen]).Reached?
      ensures Lookup(tree.tree, prefix[..prefixLen]).Some? ==> r
    {
      var leaf := tree.GetLeaf(prefix[..prefixLen]);
      WalkLookup(tree.tree, prefix[..prefixLen]);
      assert tree.tree.prefix + prefix[..prefixLen] == prefix[..prefixLen];
      r := leaf.Some?;
    }

    /** GetLeaf: getLeaf on the key cut to prefixLen. */
    method GetLeaf(prefix: Bytes) returns (r: Option<Id>)
      requires Valid() && prefixLen <= |prefix| && WalkSafe(tree.tree, prefix[..prefixLen])
      ensures r.Some? <==> Walk(tree.tree, prefix[..prefixLen]).Reached?
      ensures r.Some? ==> r.value == Sub(tree.tree, Walk(tree.tree, prefix[..prefixLen]).path).value.id
    {
      r := tree.GetLeaf(prefix[..prefixLen]);
    }

    /**
     * HasValue: the cut key is present and one of its values has the given
     * hash (bytes.Equal on the value hashes).
     */
    method HasValue(prefix: Bytes, value: Bytes) returns (r: bool)
      requires Valid() && prefixLen <= |prefix| && WalkSafe(tree.tree, prefix[..prefixLen])
      ensures r <==> Lookup(tree.tree, prefix[..prefixLen]).Some? &&
                     exists kh :: kh in Lookup(tree.tree, prefix[..prefixLen]).value && kh.hash == value
    {
      var key := prefix[..prefixLen];
      var has := HasKey(prefix);
      if !has {
        return false;
      }
      var leaf := GetLeaf(prefix);
      LeafRecord(tree.nodes, tree.tree, key);
      var vals := if tree.nodes[leaf.value].ALeaf? then tree.nodes[leaf.value].values else [];
      var j := 0;
      while j < |vals|
        invariant j <= |vals|
        invariant forall k :: 0 <= k < j ==> vals[k].hash != value
      {
        if vals[j].hash == value {
          return true;
        }
        j := j + 1;
      }
      return false;
    }

    /** ProveExistence: generateMembershipProof on the key cut to prefixLen. */
    method ProveExistence(prefix: Bytes) returns (r: Option<(MembershipProof, seq<KeyHash>)>)
      requires Valid() && prefixLen <= |prefix| && MembershipSafe(tree.tree, prefix[..prefixLen])
      ensures r == MembershipProofOf(tree.crypto, tree.tree, prefix[..prefixLen])
    {
      r := tree.GenerateMembershipProof(prefix[..prefixLen]);
    }

    /**
     * ProveNonExistence: collect the key bits one per step down, taking the
     * child each bit selects, until a node without children, and return
     * the membership proof of the collected bits. Labels are not read: a
     * compressed node is passed over by a single bit.
     */
    method ProveNonExistence(prefix: Bytes) returns (r: Option<(MembershipProof, seq<KeyHash>)>)
      requires Valid() && Probe(Some(tree.tree), prefix).Some?
      requires MembershipSafe(tree.tree, Probe(Some(tree.tree), prefix).value)
      ensures r == MembershipProofOf(tree.crypto, tree.tree, Probe(Some(tree.tree), prefix).value)
    {
      var prefixToProve := CollectBits(tree.nodes, RootId, prefix, tree.tree);
      r := tree.GenerateMembershipProof(prefixToProve);
    }
  }

  /**
   * The loop of ProveNonExistence over the node records m holding t: the
   * bits taken on the way down, one per step, until a node without children.
   */
  method CollectBits(m: Arena, root: Id, prefix: Bytes, ghost t: Node) returns (prefixToProve: Bytes)
    requires Shape(m, t, None) && root == t.id && Probe(Some(t), prefix).Some?
    ensures prefixToProve == Probe(Some(t), prefix).value
  {
    var curr: Option<Id> := Some(root);
    ghost var s: Option<Node> := Some(t);
    ghost var par: Option<Id> := None;
    prefixToProve := [];
    var i := 0;
    assert prefix[0..] == prefix;
    assert Then([], Probe(s, prefix)) == Probe(s, prefix) by {
      assert [] + Probe(s, prefix).value == Probe(s, prefix).value;
    }
    while i < |prefix|
      invariant i <= |prefix|
      invariant Probe(Some(t), prefix) == Then(prefixToProve, Probe(s, prefix[i..]))
      invariant curr == IdOf(s) && (s.Some? ==> Shape(m, s.value, par))
      decreases |prefix| - i
    {
      ProbeStep(s, prefix[i..], prefixToProve, Probe(Some(t), prefix));
      ShapeChild(m, s.value, par, false);
      ShapeChild(m, s.value, par, true);
      var a := m[curr.value];
      if ArenaChild(a, true).None? && ArenaChild(a, false).None? {
        break;
      }
      assert prefix[i..][1..] == prefix[i + 1..];
      curr := ArenaChild(a, Slot(prefix[i]));
      par := Some(s.value.id);
      s := Child(s.value, Slot(prefix[i]));
      prefixToProve := prefixToProve + [prefix[i]];
      i := i + 1;
    }
    assert i == |prefix| ==> prefix[i..] == [];
    ThenDone(prefixToProve, Probe(s, prefix[i..]));
  }

  /**
   * The bits ProveNonExistence collects from the node n (none when it steps
   * onto a missing child and then reads it, which panics): one key bit per
   * step down, taking the child the bit selects, until the key is used up
   * or a node has no children.
   */
  function Probe(n: Option<Node>, bits: Bytes): (r: Option<Bytes>)
    ensures r.Some? ==> r.value <= bits
    decreases |bits|
  {
    if bits == [] then Some([])
    else if n.None? then None
    else if Child(n.value, false).None? && Child(n.value, true).None? then Some([])
    else
      match Probe(Child(n.value, Slot(bits[0])), bits[1..])
      case None => None
      case Some(p) =>
        assert bits == [bits[0]] + bits[1..];
        Some([bits[0]] + p)
  }

  /**
   * One step of ProveNonExistence's loop, when the whole probe succeeds: the
   * node is there, and either it has no children and the probe ends, or the
   * probe goes on in the child the next bit selects.
   */
  lemma ProbeStep(s: Option<Node>, rest: Bytes, done: Bytes, target: Option<Bytes>)
    requires target.Some? && target == Then(done, Probe(s, rest)) && |rest| > 0
    ensures s.Some?
    ensures Child(s.value, false).None? && Child(s.value, true).None? ==> Probe(s, rest) == Some([])
    ensures Child(s.value, false).Some? || Child(s.value, true).Some? ==>
      target == Then(done + [rest[0]], Probe(Child(s.value, Slot(rest[0])), rest[1..]))
  {
    if Child(s.value, false).Some? || Child(s.value, true).Some? {
      ThenCons(done, rest[0], Probe(Child(s.value, Slot(rest[0])), rest[1..]));
    }
  }

  /** The bits collected so far followed by those still to come. */
  function Then(done: Bytes, rest: Option<Bytes>): Option<Bytes>
  {
    if rest.None? then None else Some(done + rest.value)
  }

  lemma ThenDone(done: Bytes, rest: Option<Bytes>)
    requires rest == Some([])
    ensures Then(done, rest) == Some(done)
  {
    assert done + [] == done;
  }

  lemma ThenCons(done: Bytes, b: byte, rest: Option<Bytes>)
    ensures Then(done, Then([b], rest)) == Then(done + [b], rest)
  {
    if rest.Some? {
      assert done + ([b] + rest.value) == (done + [b]) + rest.value;
    }
  }

  /**
   * NewSetTree: a set tree whose keys are the prefixes cut to the length of
   * the first, each holding the value hashes given with it at position 1,
   * followed by one frontier leaf per empty root slot (when keys are longer
   * than one bit). The unequal-length error is overwritten by the first
   * append's result, so err is always nil.
   */
  method NewSetTree(c: Primitives, prefixes: seq<Bytes>, valHashes: seq<Bytes>) returns (res: SetTree, err: Option<string>)
    requires |prefixes| > 0 && |valHashes| >= |prefixes|
    requires |prefixes[0]| > 0 && Cuttable(prefixes, |prefixes[0]|)
    ensures fresh(res) && fresh(res.tree) && res.Valid() && res.tree.crypto == c && !res.tree.isComplete
    ensures res.prefixLen == |prefixes[0]| && err.None?
    ensures ReplayOK(KeyAppends(prefixes, valHashes, res.prefixLen))
    ensures res.tree.appends == KeyAppends(prefixes, valHashes, res.prefixLen) +
      FrontierAppends(SetFrontier(Replay(KeyAppends(prefixes, valHashes, res.prefixLen)), res.prefixLen))
    ensures forall x :: |x| == res.prefixLen ==>
      Lookup(res.tree.tree, x) == AsLookup(KeyValues(prefixes, valHashes, res.prefixLen, |prefixes|, x))
    ensures res.prefixLen > 1 ==> Child(res.tree.tree, false).Some? && Child(res.tree.tree, true).Some?
  {
    err := None;
    if |prefixes| != |valHashes| {
      err := Some("prefixes and valHashes are of unequal length");
    }
    var prefixLen := |prefixes[0]|;
    var t := new PrefixTree(c);
    res := new SetTree(t, prefixLen);
    err := AppendKeys(t, prefixes, valHashes, prefixLen);
    ghost var keyTree := t.tree;
    var frontier := ComputeFrontier(t.nodes[RootId], [], 1, prefixLen);
    RootFrontier(t.nodes, t.tree, prefixLen);
    EmptySlotsFresh(keyTree);
    err := AppendFrontier(t, frontier, err);
    FrontierKeepsKeys(keyTree, t.tree, prefixes, valHashes, prefixLen);
  }

  /** The keys of length len look up the values the first n inputs give them. */
  ghost predicate KeysLookUp(t: Node, prefixes: seq<Bytes>, valHashes: seq<Bytes>, len: nat, n: nat)
    requires n <= |prefixes| <= |valHashes| && Cuttable(prefixes, len)
  {
    forall x :: |x| == len ==> Lookup(t, x) == AsLookup(KeyValues(prefixes, valHashes, len, n, x))
  }

  /**
   * The first loop of NewSetTree: every input key cut to len is appended
   * with its value hash at position 1; err is the last append's result.
   */
  method AppendKeys(t: PrefixTree, prefixes: seq<Bytes>, valHashes: seq<Bytes>, len: nat) returns (err: Option<string>)
    requires t.Valid() && !t.isComplete && t.appends == []
    requires |prefixes| <= |valHashes| && 0 < len && Cuttable(prefixes, len)
    modifies t
    ensures t.Valid() && !t.isComplete && err.None?
    ensures t.appends == KeyAppends(prefixes, valHashes, len)
    ensures forall x :: |x| == len ==> Lookup(t.tree, x) == AsLookup(KeyValues(prefixes, valHashes, len, |prefixes|, x))
  {
    err := None;
    ghost var keys := KeyAppends(prefixes, valHashes, len);
    var i := 0;
    while i < |prefixes|
      invariant i <= |prefixes| && t.Valid() && !t.isComplete && err.None?
      invariant t.appends == keys[..i] && UniformKeys(t.tree, len)
      invariant KeysLookUp(t.tree, prefixes, valHashes, len, i)
    {
      err := AppendKey(t, prefixes, valHashes, len, i);
      KeyAppendsStep(prefixes, valHashes, len, i);
      i := i + 1;
    }
    assert keys[..i] == keys;
    assert KeysLookUp(t.tree, prefixes, valHashes, len, |prefixes|);
  }

  /** One round of AppendKeys: input i cut to len is appended with its value hash at position 1. */
  method AppendKey(t: PrefixTree, prefixes: seq<Bytes>, valHashes: seq<Bytes>, len: nat, i: nat) returns (err: Option<string>)
    requires t.Valid() && !t.isComplete
    requires i < |prefixes| <= |valHashes| && 0 < len && Cuttable(prefixes, len)
    requires UniformKeys(t.tree, len) && KeysLookUp(t.tree, prefixes, valHashes, len, i)
    modifies t
    ensures t.Valid() && !t.isComplete && err.None?
    ensures t.appends == old(t.appends) + [PrefixAppendRec(prefixes[i][..len], valHashes[i], 1)]
    ensures UniformKeys(t.tree, len) && KeysLookUp(t.tree, prefixes, valHashes, len, i + 1)
  {
    var key := prefixes[i][..len];
    ghost var before, id := t.tree, t.nextId;
    ghost var kh := KeyHash(valHashes[i], 1);
    assert before.prefix + key == key;
    UniformCanInsert(before, key, true);
    InsertUniform(before, key, kh, id);
    err := t.PrefixAppend(key, valHashes[i], 1);
    KeyStep(before, t.tree, prefixes, valHashes, len, i);
  }

  /** Appending key i adds its value to its key's lookup and leaves every other key's alone. */
  lemma KeyStep(before: Node, after: Node, prefixes: seq<Bytes>, valHashes: seq<Bytes>, len: nat, i: nat)
    requires i < |prefixes| <= |valHashes| && Cuttable(prefixes, len)
    requires forall x :: |x| == len ==> Lookup(before, x) == AsLookup(KeyValues(prefixes, valHashes, len, i, x))
    requires Lookup(after, prefixes[i][..len]) == Some(ValuesAt(before, prefixes[i][..len]) + [KeyHash(valHashes[i], 1)])
    requires forall x :: x != prefixes[i][..len] ==> Lookup(after, x) == Lookup(before, x)
    ensures forall x :: |x| == len ==> Lookup(after, x) == AsLookup(KeyValues(prefixes, valHashes, len, i + 1, x))
  {
    forall x | |x| == len
      ensures Lookup(after, x) == AsLookup(KeyValues(prefixes, valHashes, len, i + 1, x))
    {
      KeyStepAt(Lookup(before, x), Lookup(after, x), ValuesAt(before, x), prefixes, valHashes, len, i, x);
    }
  }

  /** KeyStep for one key x, given its lookups before and after. */
  lemma KeyStepAt(lb: Option<seq<KeyHash>>, la: Option<seq<KeyHash>>, vb: seq<KeyHash>,
                  prefixes: seq<Bytes>, valHashes: seq<Bytes>, len: nat, i: nat, x: Bytes)
    requires i < |prefixes| <= |valHashes| && Cuttable(prefixes, len)
    requires lb == AsLookup(KeyValues(prefixes, valHashes, len, i, x))
    requires vb == (match lb case None => [] case Some(v) => v)
    requires x == prefixes[i][..len] ==> la == Some(vb + [KeyHash(valHashes[i], 1)])
    requires x != prefixes[i][..len] ==> la == lb
    ensures la == AsLookup(KeyValues(prefixes, valHashes, len, i + 1, x))
  {
    var prev := KeyValues(prefixes, valHashes, len, i, x);
    if x == prefixes[i][..len] {
      assert vb == prev;
    } else {
      assert KeyValues(prefixes, valHashes, len, i + 1, x) == prev + [] == prev;
    }
  }

  lemma KeyAppendsStep(prefixes: seq<Bytes>, valHashes: seq<Bytes>, len: nat, i: nat)
    requires i < |prefixes| <= |valHashes| && Cuttable(prefixes, len)
    ensures KeyAppends(prefixes, valHashes, len)[..i + 1] ==
      KeyAppends(prefixes, valHashes, len)[..i] + [PrefixAppendRec(prefixes[i][..len], valHashes[i], 1)]
  {
    var keys := KeyAppends(prefixes, valHashes, len);
    assert keys[..i + 1] == keys[..i] + [keys[i]];
  }

  /**
   * The second loop of NewSetTree: every frontier key is appended as its
   * own value hash at position 0, filling the root slots it names; err is
   * the last append's result, or the one before the loop when there is
   * none.
   */
  method AppendFrontier(t: PrefixTree, frontier: seq<Bytes>, err0: Option<string>) returns (err: Option<string>)
    requires t.Valid() && !t.isComplete && FreshSlots(t.tree, frontier)
    modifies t
    ensures t.Valid() && !t.isComplete && err == (if frontier == [] then err0 else None)
    ensures frontier == [] ==> t.tree == old(t.tree)
    ensures t.appends == old(t.appends) + FrontierAppends(frontier)
    ensures Covered(old(t.tree), frontier) ==> Child(t.tree, false).Some? && Child(t.tree, true).Some?
    ensures forall x :: |x| != 1 ==> Lookup(t.tree, x) == Lookup(old(t.tree), x)
  {
    err := err0;
    ghost var t0, a0 := t.tree, t.appends;
    var k := 0;
    while k < |frontier|
      invariant k <= |frontier| && t.Valid() && !t.isComplete && err == (if k == 0 then err0 else None)
      invariant FrontierDone(t0, a0, frontier, k, t.tree, t.appends)
    {
      err := AppendFrontierKey(t, frontier, k, t0, a0);
      k := k + 1;
    }
    FrontierFinished(t0, a0, frontier, t.tree, t.appends);
  }

  /**
   * AppendFrontier's loop state after the first k frontier keys, from the
   * root t0 and the appends a0: the keys are recorded as appends, the
   * slots of the keys still to come are empty, the keys off the root's
   * level keep their lookups, and, when the frontier covered t0's empty
   * slots, the keys still to come cover the ones left.
   */
  ghost predicate FrontierDone(t0: Node, a0: seq<PrefixAppendRec>, frontier: seq<Bytes>, k: nat, tree: Node,
                               appends: seq<PrefixAppendRec>)
    requires k <= |frontier|
  {
    (k == 0 && tree == t0 && appends == a0 && FreshSlots(t0, frontier)) ||
    (0 < k && appends == a0 + FrontierAppends(frontier[..k]) && FreshSlots(tree, frontier[k..]) &&
     (Covered(t0, frontier) ==> Covered(tree, frontier[k..])) &&
     forall x :: |x| != 1 ==> Lookup(tree, x) == Lookup(t0, x))
  }

  /** Once every frontier key is appended: what AppendFrontier promises. */
  lemma FrontierFinished(t0: Node, a0: seq<PrefixAppendRec>, frontier: seq<Bytes>, tree: Node,
                         appends: seq<PrefixAppendRec>)
    requires FrontierDone(t0, a0, frontier, |frontier|, tree, appends)
    ensures frontier == [] ==> tree == t0
    ensures appends == a0 + FrontierAppends(frontier)
    ensures Covered(t0, frontier) ==> Child(tree, false).Some? && Child(tree, true).Some?
    ensures forall x :: |x| != 1 ==> Lookup(tree, x) == Lookup(t0, x)
  {
    assert frontier[..|frontier|] == frontier;
    if frontier == [] {
      assert FrontierAppends(frontier) == [];
    }
  }

  /** One round of AppendFrontier: frontier key k is appended as its own value hash at position 0. */
  method AppendFrontierKey(t: PrefixTree, frontier: seq<Bytes>, k: nat, ghost t0: Node, ghost a0: seq<PrefixAppendRec>)
    returns (err: Option<string>)
    requires t.Valid() && !t.isComplete && k < |frontier|
    requires FrontierDone(t0, a0, frontier, k, t.tree, t.appends)
    modifies t
    ensures t.Valid() && !t.isComplete && err.None?
    ensures FrontierDone(t0, a0, frontier, k + 1, t.tree, t.appends)
  {
    var item := frontier[k];
    if k == 0 {
      assert frontier[..0] == [] && frontier[0..] == frontier;
    }
    FrontierAdvance(t0, t.tree, frontier, k, t.nextId);
    err := t.PrefixAppend(item, item, 0);
    FrontierAppendsStep(a0, frontier, k);
  }

  /** AppendFrontier's step: the next frontier key fills a slot of the root that was empty. */
  lemma FrontierAdvance(t0: Node, before: Node, frontier: seq<Bytes>, k: nat, newId: Id)
    requires before.Inner? && k < |frontier| && FreshSlots(before, frontier[k..])
    requires Covered(t0, frontier) ==> Covered(before, frontier[k..])
    ensures |frontier[k]| == 1 && IsBits(frontier[k]) && CanInsert(before, frontier[k])
    ensures var after := InsertBelow(before, frontier[k], KeyHash(frontier[k], 0), newId);
      FreshSlots(after, frontier[k + 1..]) && (Covered(t0, frontier) ==> Covered(after, frontier[k + 1..]))
  {
    assert frontier[k..][0] == frontier[k];
    FrontierStep(before, frontier[k..], KeyHash(frontier[k], 0), newId);
    assert frontier[k..][1..] == frontier[k + 1..];
  }

  lemma FrontierAppendsStep(a0: seq<PrefixAppendRec>, frontier: seq<Bytes>, k: nat)
    requires k < |frontier|
    ensures a0 + FrontierAppends(frontier[..k + 1]) ==
      (a0 + FrontierAppends(frontier[..k])) + [PrefixAppendRec(frontier[k], frontier[k], 0)]
  {
    assert FrontierAppends(frontier[..k + 1]) == FrontierAppends(frontier[..k]) + [PrefixAppendRec(frontier[k], frontier[k], 0)];
  }

  /** The frontier leaves leave the lookups of the keys alone. */
  lemma FrontierKeepsKeys(keyTree: Node, final: Node, prefixes: seq<Bytes>, valHashes: seq<Bytes>, len: nat)
    requires |prefixes| <= |valHashes| && Cuttable(prefixes, len)
    requires forall x :: |x| == len ==> Lookup(keyTree, x) == AsLookup(KeyValues(prefixes, valHashes, len, |prefixes|, x))
    requires len == 1 ==> final == keyTree
    requires forall x :: |x| != 1 ==> Lookup(final, x) == Lookup(keyTree, x)
    ensures forall x :: |x| == len ==> Lookup(final, x) == AsLookup(KeyValues(prefixes, valHashes, len, |prefixes|, x))
  {
  }

  /**
   * NewSetTree with the length check it evidently intends: unequal lengths
   * give an error and no tree; otherwise the tree NewSetTree builds.
   */
  method NewSetTreeChecked(c: Primitives, prefixes: seq<Bytes>, valHashes: seq<Bytes>)
    returns (res: Option<SetTree>, err: Option<string>)
    requires |prefixes| == |valHashes| ==> |prefixes| > 0 && |prefixes[0]| > 0 && Cuttable(prefixes, |prefixes[0]|)
    ensures err.Some? <==> |prefixes| != |valHashes|
    ensures res.Some? <==> err.None?
    ensures res.Some? ==> fresh(res.value) && res.value.Valid() && res.value.prefixLen == |prefixes[0]|
    ensures res.Some? ==> forall x :: |x| == res.value.prefixLen ==>
      Lookup(res.value.tree.tree, x) == AsLookup(KeyValues(prefixes, valHashes, res.value.prefixLen, |prefixes|, x))
  {
    if |prefixes| != |valHashes| {
      return None, Some("prefixes and valHashes are of unequal length");
    }
    var s, e := NewSetTree(c, prefixes, valHashes);
    return Some(s), e;
  }

  /**
   * The tree NewSetTree builds holds every input key, cut to the common
   * length, with the input's value hash among its values (what the
   * construction test checks through HasKey and GetLeaf).
   */
  lemma SetTreeHoldsInputs(prefixes: seq<Bytes>, valHashes: seq<Bytes>, len: nat, t: Node)
    requires |prefixes| <= |valHashes| && Cuttable(prefixes, len)
    requires forall x :: |x| == len ==> Lookup(t, x) == AsLookup(KeyValues(prefixes, valHashes, len, |prefixes|, x))
    ensures forall i :: 0 <= i < |prefixes| ==>
      Lookup(t, prefixes[i][..len]).Some? && KeyHash(valHashes[i], 1) in Lookup(t, prefixes[i][..len]).value
  {
    forall i | 0 <= i < |prefixes|
      ensures Lookup(t, prefixes[i][..len]).Some? && KeyHash(valHashes[i], 1) in Lookup(t, prefixes[i][..len]).value
    {
      KeyValuesOf(prefixes, valHashes, len, |prefixes|, prefixes[i][..len]);
    }
  }

  // ---------------------------------------------------------------------
  // A proof of absence that reads labels.

  /**
   * A proof that a key is outside the set: the membership of the frontier
   * leaf whose key the probed key extends, or the trie's proof that the
   * key leaves the tree at an empty root slot or inside a label.
   */
  datatype AbsenceProof =
    | FrontierLeaf(key: Bytes, proof: MembershipProof, values: seq<KeyHash>)
    | Gap(gap: NonMembershipProof)

  /**
   * ProveNonExistence as its comment intends it: walk by whole labels (the
   * walk of getLeaf); a walk that is used up proves nothing; a walk that
   * stops at a leaf before the key is used up gives that leaf's membership
   * proof; a walk that meets an empty root slot or a label that leaves the
   * key gives the non-membership proof for it.
   */
  function AbsenceProofOf(c: Primitives, t: Node, key: Bytes): (r: Option<AbsenceProof>)
    requires WF(t, true) && WalkSafe(t, key)
  {
    match Walk(t, key)
    case Reached(_) => None
    case NoChild(p, s) =>
      WalkNoChild(t, key);
      assert t.prefix + key == key;
      if p == [] then Some(Gap(NonMembershipProof(None, [key[0]], [EntryOf(c, t, s)])))
      else
        var d := Sub(t, p).value;
        if d.Leaf? then Some(FrontierLeaf(PathLabel(t, p), MembershipProof(d.prefix, CopathOf(c, t, p)), d.values))
        else None
    case Diverges(p) =>
      var d := Sub(t, p).value;
      Some(Gap(NonMembershipProof(Some(HashOf(c, d)), d.prefix, CopathOf(c, t, p))))
  }

  /** Every key outside the set has a proof of absence. */
  lemma AbsenceComplete(c: Primitives, t: Node, key: Bytes)
    requires WF(t, true) && MembershipSafe(t, key) && Lookup(t, key).None?
    ensures AbsenceProofOf(c, t, key).Some?
  {
    WalkLookup(t, key);
    assert t.prefix + key == key;
    match Walk(t, key)
    case Reached(_) =>
    case Diverges(_) =>
    case NoChild(p, s) =>
      if p != [] {
        WalkNoChild(t, key);
        WFSub(t, p, true);
      }
  }

  /**
   * A proof of absence checks out against the tree's hash: a frontier
   * leaf's key is a proper prefix of the key and its membership proof
   * recomputes the root hash; a gap proof recomputes it for the key itself.
   */
  lemma AbsenceSound(c: Primitives, t: Node, key: Bytes)
    requires WF(t, true) && IsBits(key) && WalkSafe(t, key) && AbsenceProofOf(c, t, key).Some?
    ensures var r := AbsenceProofOf(c, t, key).value;
      r.FrontierLeaf? ==>
        |r.key| < |key| && HasPrefix(key, r.key) && MembershipCheckable(r.key, r.proof) &&
        ComputeRootHashMembership(c, r.key, r.proof, r.values) == Some(HashOf(c, t))
    ensures var r := AbsenceProofOf(c, t, key).value;
      r.Gap? ==>
        NonMembershipCheckable(key, r.gap) && ComputeRootHashNonMembership(c, key, r.gap) == Some(HashOf(c, t))
  {
    assert t.prefix + key == key;
    match Walk(t, key)
    case NoChild(p, s) =>
      WalkNoChild(t, key);
      if p == [] {
        NoChildRoundTrip(c, t, key, s);
      } else {
        CopathFold(c, t, p, true);
      }
    case Diverges(p) =>
      DivergesWalkRoundTrip(c, t, key, p);
  }

  // ---------------------------------------------------------------------
  // The construction test's non-existence case.

  function ExamplePrefixes(): seq<Bytes>
  {
    [[0, 0, 0], [1, 1, 1], [0, 0, 1]]
  }

  function ExampleValues(): seq<Bytes>
  {
    [[0, 0, 0], [0, 0, 1], [0, 1, 0]]
  }

  /** The tree NewSetTree builds from the example: 00 compressed on the left, 111 on the right. */
  function ExampleTree(): Node
  {
    Inner(RootId, [],
      Some(Inner(6, [0, 0], Some(Leaf(1, [0], [KeyHash([0, 0, 0], 1)])), Some(Leaf(5, [1], [KeyHash([0, 1, 0], 1)])))),
      Some(Leaf(3, [1, 1, 1], [KeyHash([0, 0, 1], 1)])))
  }

  /** The first two appends of the example: two leaves under the root. */
  lemma ExampleFirstTwo()
    ensures ReplayOK([PrefixAppendRec([0, 0, 0], [0, 0, 0], 1), PrefixAppendRec([1, 1, 1], [0, 0, 1], 1)])
    ensures Replay([PrefixAppendRec([0, 0, 0], [0, 0, 0], 1), PrefixAppendRec([1, 1, 1], [0, 0, 1], 1)]) ==
            Inner(RootId, [], Some(Leaf(1, [0, 0, 0], [KeyHash([0, 0, 0], 1)])),
                              Some(Leaf(3, [1, 1, 1], [KeyHash([0, 0, 1], 1)])))
  {
    var r0 := PrefixAppendRec([0, 0, 0], [0, 0, 0], 1);
    var r1 := PrefixAppendRec([1, 1, 1], [0, 0, 1], 1);
    assert [r0][..0] == [] && [r0, r1][..1] == [r0];
    var t0 := Inner(RootId, [], Some(Leaf(1, [0, 0, 0], [KeyHash([0, 0, 0], 1)])), None);
    assert ReplayOK([]) && Replay([]) == EmptyTree();
    assert CanInsert(EmptyTree(), [0, 0, 0]);
    assert ReplayOK([r0]);
    assert Replay([r0]) == InsertBelow(EmptyTree(), [0, 0, 0], KeyHash([0, 0, 0], 1), 1);
    assert Replay([r0]) == t0;
    assert CanInsert(t0, [1, 1, 1]);
    assert ReplayOK([r0, r1]);
    assert Replay([r0, r1]) == InsertBelow(t0, [1, 1, 1], KeyHash([0, 0, 1], 1), 3);
  }

  /** The third append of the example splits the left leaf under a new node with label 00. */
  lemma ExampleThird()
    ensures var t1 := Inner(RootId, [], Some(Leaf(1, [0, 0, 0], [KeyHash([0, 0, 0], 1)])),
                                       Some(Leaf(3, [1, 1, 1], [KeyHash([0, 0, 1], 1)])));
            CanInsert(t1, [0, 0, 1]) && InsertBelow(t1, [0, 0, 1], KeyHash([0, 1, 0], 1), 5) == ExampleTree()
  {
    var t1 := Inner(RootId, [], Some(Leaf(1, [0, 0, 0], [KeyHash([0, 0, 0], 1)])),
                               Some(Leaf(3, [1, 1, 1], [KeyHash([0, 0, 1], 1)])));
    assert CommonPrefixLen([0, 0, 0], [0, 0, 1]) == 2 by {
      CommonPrefixLenAt([0, 0, 0], [0, 0, 1], 2);
    }
    assert CanInsert(t1, [0, 0, 1]);
    var c := Leaf(1, [0, 0, 0], [KeyHash([0, 0, 0], 1)]);
    assert Child(t1, Slot(0)) == Some(c);
    var lbl: Bytes := [0, 0, 0];
    var key: Bytes := [0, 0, 1];
    assert lbl[..2] == [0, 0] && lbl[2..] == [0] && key[2..] == [1];
    var mid := Split(c, 2, 6);
    assert mid == Inner(6, [0, 0], Some(Leaf(1, [0], [KeyHash([0, 0, 0], 1)])), None);
    assert NewChild(t1, key, KeyHash([0, 1, 0], 1), 5) == AddChild(mid, Leaf(5, [1], [KeyHash([0, 1, 0], 1)]));
  }

  lemma ExampleBuilt()
    ensures Cuttable(ExamplePrefixes(), 3)
    ensures ReplayOK(KeyAppends(ExamplePrefixes(), ExampleValues(), 3))
    ensures Replay(KeyAppends(ExamplePrefixes(), ExampleValues(), 3)) == ExampleTree()
    ensures SetFrontier(ExampleTree(), 3) == []
  {
    var a := KeyAppends(ExamplePrefixes(), ExampleValues(), 3);
    var r0 := PrefixAppendRec([0, 0, 0], [0, 0, 0], 1);
    var r1 := PrefixAppendRec([1, 1, 1], [0, 0, 1], 1);
    var r2 := PrefixAppendRec([0, 0, 1], [0, 1, 0], 1);
    assert ExamplePrefixes()[0][..3] == [0, 0, 0];
    assert ExamplePrefixes()[1][..3] == [1, 1, 1];
    assert ExamplePrefixes()[2][..3] == [0, 0, 1];
    assert a == [r0, r1, r2];
    ExampleFirstTwo();
    ExampleThird();
    assert a[..|a| - 1] == [r0, r1] && a[|a| - 1] == r2;
    assert ReplayOK(a);
  }

  /**
   * The example the non-existence test uses: 011 is not in the set, but
   * ProveNonExistence passes over the compressed node 00 by one bit,
   * collects 01, and generateMembershipProof finds no leaf there, so the
   * proof is nil. The label-reading proof of absence exists.
   */
  lemma ProbeMissesCompressedNode(c: Primitives)
    ensures WF(ExampleTree(), true) && Lookup(ExampleTree(), [0, 1, 1]).None?
    ensures Probe(Some(ExampleTree()), [0, 1, 1]) == Some([0, 1])
    ensures MembershipSafe(ExampleTree(), [0, 1])
    ensures MembershipProofOf(c, ExampleTree(), [0, 1]).None?
    ensures WalkSafe(ExampleTree(), [0, 1, 1]) && AbsenceProofOf(c, ExampleTree(), [0, 1, 1]).Some?
  {
    var t := ExampleTree();
    var l := Child(t, false).value;
    assert Child(l, true) == Some(Leaf(5, [1], [KeyHash([0, 1, 0], 1)]));
    var b011: Bytes := [0, 1, 1];
    var b11: Bytes := [1, 1];
    var b1: Bytes := [1];
    assert b011[1..] == b11 && b11[1..] == b1 && b1[1..] == [];
    assert Probe(Some(Child(l, true).value), b1) == Some([]);
    assert Probe(Some(l), b11) == Some([1]) by {
      assert Slot(b11[0]) == true;
      assert [b11[0]] + [] == [1];
    }
    assert Probe(Some(t), b011) == Some([0, 1]) by {
      assert Slot(b011[0]) == false;
      assert [b011[0]] + [1] == [0, 1];
    }
    assert [0, 1][..2] == [0, 1] && [0, 1, 1][..2] == [0, 1];
    assert Walk(t, [0, 1]) == Diverges([false]);
    assert WalkSafe(t, [0, 1, 1]);
    assert Lookup(t, [0, 1]).None?;
    AbsenceComplete(c, t, [0, 1, 1]);
  }
}
