/**
 * The node store of core/persistent_prefix_tree.go: every metadata record
 * lives in an arena under an id, and the pointers between records (prev,
 * next, left and right child, newest parent) are ids.
 *
 * The invariant here (Linked) is what the tree's operations keep at every
 * step: links stay inside the store, labels are bit strings, and every
 * record has a ghost offset, the number of key bits consumed above it, such
 * that a child starts where its parent's label ends and a record with a
 * parent has a non-empty label. Offsets make the parent chain and every
 * walk down a child chain finite.
 *
 * The snapshot an epoch sees is the tree reachable from that epoch's root
 * through child links (ViewOf). Records older than the current epoch are
 * never written except for their next and parent links (Evolves), and a
 * child is never newer than its parent, so a snapshot of a past epoch never
 * changes (ViewKept).
 */
module PersistentStore {
  import opened Wrappers
  import opened Bits
  import opened Crypto
  import opened TrieSpec
  import opened TrieArena

  /** metadata: one version of a trie node. */
  datatype Meta = Meta(hash: NBytes, values: seq<KeyHash>, epoch: nat, prefix: Bytes,
                       prev: Option<Id>, next: Option<Id>,
                       left: Option<Id>, right: Option<Id>, parent: Option<Id>)

  type Store = map<Id, Meta>

  /** Ghost: the number of key bits consumed above each record. */
  type Offsets = map<Id, nat>

  function Slotted(n: Meta, right: bool): Option<Id>
  {
    if right then n.right else n.left
  }

  function WithSlot(n: Meta, right: bool, c: Id): (r: Meta)
    ensures Slotted(r, right) == Some(c) && Slotted(r, !right) == Slotted(n, !right)
    ensures r.hash == n.hash && r.values == n.values && r.epoch == n.epoch && r.prefix == n.prefix
    ensures r.prev == n.prev && r.next == n.next && r.parent == n.parent
  {
    if right then n.(right := Some(c)) else n.(left := Some(c))
  }

  predicate Has(m: Store, o: Option<Id>)
  {
    o.None? || o.value in m
  }

  /** The key bits left below a record's label (a termination measure). */
  function Rest(m: Store, st: Offsets, K: nat, id: Id): nat
  {
    if id in m && id in st && End(m, st, id) <= K then K - End(m, st, id) else 0
  }

  /** The offset at which a record's label ends, or 0 for an unknown record (a termination measure). */
  function Depth(m: Store, st: Offsets, id: Id): nat
  {
    if id in m && id in st then End(m, st, id) else 0
  }

  /** The offset at which a record's label ends. */
  function End(m: Store, st: Offsets, id: Id): nat
    requires id in m && id in st
  {
    st[id] + |m[id].prefix|
  }

  /**
   * The child in a slot: its label is non-empty and starts with the slot's
   * bit, it starts where the record's label ends, and it is no newer than
   * the record.
   */
  predicate ChildOK(m: Store, st: Offsets, id: Id, right: bool)
    requires id in m && id in st
  {
    var o := Slotted(m[id], right);
    o.Some? ==>
      o.value in m && o.value in st && m[o.value].prefix != [] &&
      Slot(m[o.value].prefix[0]) == right && st[o.value] == End(m, st, id) &&
      m[o.value].epoch <= m[id].epoch
  }

  /**
   * Only roots (empty label) lack a parent; a parent's label ends where the
   * record starts, and a parent below the root has a child in the record's
   * slot (not necessarily the record itself).
   */
  predicate ParentOK(m: Store, st: Offsets, id: Id)
    requires id in m && id in st
  {
    var n := m[id];
    (n.parent.None? <==> n.prefix == []) &&
    (n.parent.Some? ==>
      var p := n.parent.value;
      p in m && p in st && End(m, st, p) == st[id] &&
      (m[p].prefix != [] ==> Slotted(m[p], Slot(n.prefix[0])).Some?))
  }

  /** The per-record invariant; K is the common key length. */
  predicate LinkedAt(m: Store, st: Offsets, K: nat, id: Id)
    requires id in m
  {
    var n := m[id];
    id in st && IsBits(n.prefix) && st[id] + |n.prefix| <= K && (n.prefix == [] ==> st[id] == 0) &&
    Has(m, n.prev) &&
    (n.next.Some? ==>
      n.next.value in m && n.next.value in st &&
      m[n.next.value].prefix == n.prefix && st[n.next.value] == st[id]) &&
    ChildOK(m, st, id, false) && ChildOK(m, st, id, true) && ParentOK(m, st, id)
  }

  ghost predicate Linked(m: Store, st: Offsets, K: nat)
  {
    forall id {:trigger LinkedAt(m, st, K, id)} | id in m :: LinkedAt(m, st, K, id)
  }

  /** One record's share of Linked. */
  lemma LinkedAtOf(m: Store, st: Offsets, K: nat, id: Id)
    requires Linked(m, st, K) && id in m
    ensures LinkedAt(m, st, K, id)
  {
  }

  ghost predicate EpochsBelow(m: Store, cur: nat)
  {
    forall id | id in m :: m[id].epoch <= cur
  }

  /**
   * Below the root a record has no child or two, and one without children
   * ends where the keys end: it is a leaf.
   */
  predicate BalancedAt(m: Store, st: Offsets, K: nat, id: Id)
    requires id in m
  {
    id in st &&
    (m[id].prefix != [] ==>
      (m[id].left.None? <==> m[id].right.None?) &&
      (m[id].left.None? ==> End(m, st, id) == K))
  }

  ghost predicate Balanced(m: Store, st: Offsets, K: nat)
  {
    forall id {:trigger BalancedAt(m, st, K, id)} | id in m :: BalancedAt(m, st, K, id)
  }

  lemma BalancedAtOf(m: Store, st: Offsets, K: nat, id: Id)
    requires Balanced(m, st, K) && id in m
    ensures BalancedAt(m, st, K, id)
  {
  }

  /** The stored hash of every record. */
  function HashesOf(m: Store): (h: Hashes)
    ensures h.Keys == m.Keys
  {
    map id | id in m :: m[id].hash
  }

  // ---------------------------------------------------------------------
  // How the store may change.

  /** Records are never removed, their labels epochs and previous versions never change, and a filled slot stays filled. */
  ghost predicate Grows(m0: Store, m1: Store)
  {
    forall id | id in m0 ::
      id in m1 && m1[id].prefix == m0[id].prefix && m1[id].epoch == m0[id].epoch &&
      m1[id].prev == m0[id].prev &&
      (m0[id].left.Some? ==> m1[id].left.Some?) && (m0[id].right.Some? ==> m1[id].right.Some?)
  }

  ghost predicate Extends(st0: Offsets, st1: Offsets)
  {
    forall id | id in st0 :: id in st1 && st1[id] == st0[id]
  }

  /**
   * The frame rule: a record older than the current epoch changes only in
   * its next and parent links, and every new record carries the current
   * epoch.
   */
  ghost predicate Evolves(m0: Store, m1: Store, cur: nat)
  {
    Grows(m0, m1) &&
    (forall id {:trigger FrozenAt(m0, m1, id)} | id in m0 && m0[id].epoch < cur :: FrozenAt(m0, m1, id)) &&
    (forall id | id in m1 && id !in m0 :: m1[id].epoch == cur)
  }

  /** An old record: only its next and parent links may differ. */
  predicate FrozenAt(m0: Store, m1: Store, id: Id)
    requires id in m0
  {
    id in m1 && m1[id] == m0[id].(next := m1[id].next, parent := m1[id].parent)
  }

  predicate SamePattern(a: Meta, b: Meta)
  {
    a.left.Some? == b.left.Some? && a.right.Some? == b.right.Some?
  }

  /**
   * Which records have children is unchanged below the root, except for the
   * records in free; every other new record is a version of an older
   * record: same label and offset, and the same children pattern.
   */
  /** A record below the root keeps which of its slots are filled. */
  predicate ShapeAt(m0: Store, m1: Store, id: Id)
    requires id in m0
  {
    m0[id].prefix != [] ==> id in m1 && SamePattern(m0[id], m1[id])
  }

  /** A new record outside free is a version of an older record: same label and offset, and the same children pattern. */
  predicate VersionAt(m0: Store, st0: Offsets, m1: Store, st1: Offsets, cur: nat, id: Id)
    requires id in m1
  {
    m1[id].prev.Some? && m1[id].prev.value in m0 && m0[m1[id].prev.value].epoch < cur &&
    m1[id].prefix == m0[m1[id].prev.value].prefix &&
    id in st1 && m1[id].prev.value in st0 && st1[id] == st0[m1[id].prev.value] &&
    (m1[id].prefix != [] ==> SamePattern(m1[id], m0[m1[id].prev.value]))
  }

  ghost predicate Reshaped(m0: Store, st0: Offsets, m1: Store, st1: Offsets, cur: nat, free: set<Id>)
  {
    (forall id {:trigger ShapeAt(m0, m1, id)} | id in m0 && id !in free :: ShapeAt(m0, m1, id)) &&
    (forall id {:trigger VersionAt(m0, st0, m1, st1, cur, id)} | id in m1 && id !in m0 && id !in free ::
      VersionAt(m0, st0, m1, st1, cur, id))
  }

  lemma EvolvesTrans(m0: Store, m1: Store, m2: Store, cur: nat)
    requires Evolves(m0, m1, cur) && Evolves(m1, m2, cur)
    ensures Evolves(m0, m2, cur)
  {
    forall id | id in m0 && m0[id].epoch < cur
      ensures FrozenAt(m0, m2, id)
    {
      assert FrozenAt(m0, m1, id) && FrozenAt(m1, m2, id);
    }
  }

  lemma ReshapedTrans(m0: Store, st0: Offsets, m1: Store, st1: Offsets, m2: Store, st2: Offsets,
                      cur: nat, free: set<Id>)
    requires Evolves(m0, m1, cur) && Grows(m1, m2) && Extends(st0, st1) && Extends(st1, st2)
    requires Reshaped(m0, st0, m1, st1, cur, free) && Reshaped(m1, st1, m2, st2, cur, free)
    requires forall id | id in free && id in m1 :: m1[id].epoch == cur
    requires m0.Keys <= st0.Keys
    ensures Reshaped(m0, st0, m2, st2, cur, free)
  {
    forall id | id in m0 && id !in free
      ensures ShapeAt(m0, m2, id)
    {
      assert ShapeAt(m0, m1, id) && ShapeAt(m1, m2, id);
    }
    forall id | id in m2 && id !in m0 && id !in free
      ensures VersionAt(m0, st0, m2, st2, cur, id)
    {
      if id !in m1 {
        assert VersionAt(m1, st1, m2, st2, cur, id);
        var p := m2[id].prev.value;
        assert p in m1 && m1[p].epoch < cur;
        assert ShapeAt(m0, m1, p);
      } else {
        assert VersionAt(m0, st0, m1, st1, cur, id);
        assert ShapeAt(m1, m2, id);
      }
    }
  }

  /** One step of the tree: the frame rule, growing offsets, and reshaping outside free. */
  ghost predicate Step(m0: Store, st0: Offsets, m1: Store, st1: Offsets, cur: nat, free: set<Id>)
  {
    Evolves(m0, m1, cur) && Extends(st0, st1) && Reshaped(m0, st0, m1, st1, cur, free)
  }

  lemma StepTrans(m0: Store, st0: Offsets, m1: Store, st1: Offsets, m2: Store, st2: Offsets,
                  cur: nat, free: set<Id>)
    requires Step(m0, st0, m1, st1, cur, free) && Step(m1, st1, m2, st2, cur, free)
    requires forall id | id in free && id in m1 :: m1[id].epoch == cur
    requires m0.Keys <= st0.Keys
    ensures Step(m0, st0, m2, st2, cur, free)
  {
    EvolvesTrans(m0, m1, m2, cur);
    ReshapedTrans(m0, st0, m1, st1, m2, st2, cur, free);
  }

  /** A step with free records F followed by one without: a step with F, and the new records are still fresh. */
  lemma StepThen(m0: Store, st0: Offsets, n0: Id, m1: Store, st1: Offsets, n1: Id, m2: Store, st2: Offsets,
                 cur: nat, free: set<Id>)
    requires Step(m0, st0, m1, st1, cur, free) && FreshFrom(m0, m1, n0) && n0 <= n1 && m0.Keys <= st0.Keys
    requires forall id | id in free && id in m1 :: m1[id].epoch == cur
    requires Step(m1, st1, m2, st2, cur, {}) && FreshFrom(m1, m2, n1)
    ensures Step(m0, st0, m2, st2, cur, free) && FreshFrom(m0, m2, n0)
    ensures forall id | id in free && id in m2 :: m2[id].epoch == cur
  {
    StepWiden(m1, st1, m2, st2, cur, {}, free);
    StepTrans(m0, st0, m1, st1, m2, st2, cur, free);
    FreshFromTrans(m0, m1, m2, n0, n1);
  }

  lemma StepWiden(m0: Store, st0: Offsets, m1: Store, st1: Offsets, cur: nat, free: set<Id>, free': set<Id>)
    requires Step(m0, st0, m1, st1, cur, free) && free <= free'
    ensures Step(m0, st0, m1, st1, cur, free')
  {
  }

  lemma ReshapedRefl(m: Store, st: Offsets, cur: nat, free: set<Id>)
    ensures Reshaped(m, st, m, st, cur, free)
  {
  }

  /** Reshaping keeps every record outside free balanced. */
  lemma ReshapedBalanced(m0: Store, st0: Offsets, m1: Store, st1: Offsets, K: nat, cur: nat, free: set<Id>)
    requires Balanced(m0, st0, K) && Linked(m1, st1, K) && Grows(m0, m1) && Extends(st0, st1)
    requires Reshaped(m0, st0, m1, st1, cur, free)
    ensures forall id | id in m1 && id !in free :: BalancedAt(m1, st1, K, id)
  {
    forall id | id in m1 && id !in free
      ensures BalancedAt(m1, st1, K, id)
    {
      if id !in m0 {
        assert VersionAt(m0, st0, m1, st1, cur, id);
        BalancedAtOf(m0, st0, K, m1[id].prev.value);
      } else {
        assert ShapeAt(m0, m1, id);
        BalancedAtOf(m0, st0, K, id);
      }
    }
  }

  /** A step keeps the store balanced when its free records are balanced afterwards. */
  lemma BalancedStep(m0: Store, st0: Offsets, m1: Store, st1: Offsets, K: nat, cur: nat, free: set<Id>)
    requires Balanced(m0, st0, K) && Linked(m1, st1, K) && Step(m0, st0, m1, st1, cur, free)
    requires forall id | id in free && id in m1 :: BalancedAt(m1, st1, K, id)
    ensures Balanced(m1, st1, K)
  {
    ReshapedBalanced(m0, st0, m1, st1, K, cur, free);
  }

  /** A record whose fields are unchanged keeps the invariant when the store grows. */
  lemma LinkedAtFrame(m0: Store, st0: Offsets, m1: Store, st1: Offsets, K: nat, id: Id)
    requires id in m0 && LinkedAt(m0, st0, K, id) && Grows(m0, m1) && Extends(st0, st1)
    requires m1[id] == m0[id]
    ensures LinkedAt(m1, st1, K, id)
  {
    var n := m0[id];
    if n.parent.Some? && m0[n.parent.value].prefix != [] {
      assert Slotted(m1[n.parent.value], Slot(n.prefix[0])).Some?;
    }
  }

  /** The store keeps the invariant when only the records in changed (or new ones) differ and those are linked. */
  lemma LinkedUpdate(m0: Store, st0: Offsets, m1: Store, st1: Offsets, K: nat, changed: set<Id>)
    requires Linked(m0, st0, K) && Grows(m0, m1) && Extends(st0, st1)
    requires forall id | id in m0 && id !in changed :: m1[id] == m0[id]
    requires forall id | id in m1 && (id in changed || id !in m0) :: LinkedAt(m1, st1, K, id)
    ensures Linked(m1, st1, K)
  {
    forall id | id in m1
      ensures LinkedAt(m1, st1, K, id)
    {
      if id in m0 && id !in changed {
        LinkedAtFrame(m0, st0, m1, st1, K, id);
      }
    }
  }

  // ---------------------------------------------------------------------
  // Hashes.

  /** The hash a linked child contributes: nil for an empty slot. */
  function ChildHash(m: Store, o: Option<Id>): Bytes
  {
    if o.None? || o.value !in m then [] else Flat(m[o.value].hash)
  }

  /**
   * updateHash's value for a record: the leaf hash of its label and values
   * when it has no children, otherwise the hash of its label and its
   * children's stored hashes.
   */
  function FreshHash(c: Primitives, m: Store, id: Id): Bytes
    requires id in m
  {
    var n := m[id];
    if n.left.None? && n.right.None? then c.leafHash(n.prefix, n.values)
    else c.hash([n.prefix, ChildHash(m, n.left), ChildHash(m, n.right)])
  }

  // ---------------------------------------------------------------------
  // Snapshots.

  /**
   * The tree reachable from a record through child links: a record below
   * the root without children is a leaf, every other record an internal
   * node.
   */
  ghost function ViewOf(m: Store, st: Offsets, K: nat, id: Id): (t: Node)
    requires Linked(m, st, K) && id in m
    ensures t.id == id && t.prefix == m[id].prefix
    decreases Rest(m, st, K, id)
  {
    LinkedAtOf(m, st, K, id);
    var n := m[id];
    if n.prefix != [] && n.left.None? && n.right.None? then Leaf(id, n.prefix, n.values)
    else
      Inner(id, n.prefix,
            if n.left.Some? then
              LinkedAtOf(m, st, K, n.left.value);
              Some(ViewOf(m, st, K, n.left.value))
            else None,
            if n.right.Some? then
              LinkedAtOf(m, st, K, n.right.value);
              Some(ViewOf(m, st, K, n.right.value))
            else None)
  }

  /** A child of a snapshot is the snapshot of the child record. */
  lemma ViewChild(m: Store, st: Offsets, K: nat, id: Id, right: bool)
    requires Linked(m, st, K) && id in m
    ensures Child(ViewOf(m, st, K, id), right).Some? <==> Slotted(m[id], right).Some?
    ensures Child(ViewOf(m, st, K, id), right).Some? ==>
      Slotted(m[id], right).value in m &&
      Child(ViewOf(m, st, K, id), right).value == ViewOf(m, st, K, Slotted(m[id], right).value)
  {
    LinkedAtOf(m, st, K, id);
  }

  /** A snapshot is a well-formed trie; it is a root exactly when its label is empty. */
  lemma {:induction false} ViewWF(m: Store, st: Offsets, K: nat, id: Id)
    requires Linked(m, st, K) && Balanced(m, st, K) && id in m
    ensures WF(ViewOf(m, st, K, id), m[id].prefix == [])
    decreases Rest(m, st, K, id)
  {
    LinkedAtOf(m, st, K, id);
    BalancedAtOf(m, st, K, id);
    var n := m[id];
    if n.left.Some? {
      LinkedAtOf(m, st, K, n.left.value);
      ViewWF(m, st, K, n.left.value);
    }
    if n.right.Some? {
      LinkedAtOf(m, st, K, n.right.value);
      ViewWF(m, st, K, n.right.value);
    }
  }

  /** Every key below a record has the length that is left of K after its offset. */
  lemma {:induction false} ViewUniform(m: Store, st: Offsets, K: nat, id: Id)
    requires Linked(m, st, K) && Balanced(m, st, K) && id in m
    ensures id in st && st[id] <= K && UniformKeys(ViewOf(m, st, K, id), K - st[id])
    decreases Rest(m, st, K, id)
  {
    LinkedAtOf(m, st, K, id);
    BalancedAtOf(m, st, K, id);
    var n := m[id];
    if n.left.Some? {
      LinkedAtOf(m, st, K, n.left.value);
      ViewUniform(m, st, K, n.left.value);
    }
    if n.right.Some? {
      LinkedAtOf(m, st, K, n.right.value);
      ViewUniform(m, st, K, n.right.value);
    }
  }

  /**
   * Every record in the snapshot of a record is stored and no newer than
   * it: a walk from an epoch's root never meets a record of a later epoch.
   */
  lemma {:induction false} ViewEpochs(m: Store, st: Offsets, K: nat, id: Id, q: seq<bool>)
    requires Linked(m, st, K) && id in m && Sub(ViewOf(m, st, K, id), q).Some?
    ensures Sub(ViewOf(m, st, K, id), q).value.id in m
    ensures m[Sub(ViewOf(m, st, K, id), q).value.id].epoch <= m[id].epoch
    ensures Sub(ViewOf(m, st, K, id), q).value == ViewOf(m, st, K, Sub(ViewOf(m, st, K, id), q).value.id)
    decreases |q|
  {
    if q != [] {
      ViewChild(m, st, K, id, q[0]);
      var c := Slotted(m[id], q[0]).value;
      LinkedAtOf(m, st, K, id);
      ViewEpochs(m, st, K, c, q[1..]);
    }
  }

  /** Persistence: the snapshot of a record older than the current epoch is unchanged. */
  lemma {:induction false} ViewKept(m0: Store, st0: Offsets, m1: Store, st1: Offsets, K: nat, cur: nat, id: Id)
    requires Linked(m0, st0, K) && Linked(m1, st1, K) && Evolves(m0, m1, cur) && Extends(st0, st1)
    requires id in m0 && m0[id].epoch < cur
    ensures ViewOf(m1, st1, K, id) == ViewOf(m0, st0, K, id)
    decreases Rest(m0, st0, K, id)
  {
    LinkedAtOf(m0, st0, K, id);
    LinkedAtOf(m1, st1, K, id);
    var n := m0[id];
    assert FrozenAt(m0, m1, id);
    if n.left.Some? {
      LinkedAtOf(m0, st0, K, n.left.value);
      ViewKept(m0, st0, m1, st1, K, cur, n.left.value);
    }
    if n.right.Some? {
      LinkedAtOf(m0, st0, K, n.right.value);
      ViewKept(m0, st0, m1, st1, K, cur, n.right.value);
    }
  }

  /** ... and neither are the hashes stored in it. */
  lemma {:induction false} HashesKept(m0: Store, st0: Offsets, m1: Store, st1: Offsets, K: nat, cur: nat,
                                      id: Id, c: Primitives)
    requires Linked(m0, st0, K) && Linked(m1, st1, K) && Evolves(m0, m1, cur) && Extends(st0, st1)
    requires id in m0 && m0[id].epoch < cur
    ensures AllHashed(c, HashesOf(m1), ViewOf(m0, st0, K, id)) <==> AllHashed(c, HashesOf(m0), ViewOf(m0, st0, K, id))
    decreases Rest(m0, st0, K, id)
  {
    LinkedAtOf(m0, st0, K, id);
    var n := m0[id];
    assert FrozenAt(m0, m1, id);
    if n.left.Some? {
      LinkedAtOf(m0, st0, K, n.left.value);
      HashesKept(m0, st0, m1, st1, K, cur, n.left.value, c);
    }
    if n.right.Some? {
      LinkedAtOf(m0, st0, K, n.right.value);
      HashesKept(m0, st0, m1, st1, K, cur, n.right.value, c);
    }
  }

  /** ... so a past epoch's root keeps its snapshot, its stored hash, and whether the hashes below it are stored. */
  lemma SnapshotKept(m0: Store, st0: Offsets, m1: Store, st1: Offsets, K: nat, cur: nat, id: Id, c: Primitives)
    requires Linked(m0, st0, K) && Linked(m1, st1, K) && Evolves(m0, m1, cur) && Extends(st0, st1)
    requires id in m0 && m0[id].epoch < cur
    ensures id in m1 && m1[id].hash == m0[id].hash && ViewOf(m1, st1, K, id) == ViewOf(m0, st0, K, id)
    ensures ChildrenHashed(c, HashesOf(m1), ViewOf(m0, st0, K, id)) <==> ChildrenHashed(c, HashesOf(m0), ViewOf(m0, st0, K, id))
  {
    assert FrozenAt(m0, m1, id);
    ViewKept(m0, st0, m1, st1, K, cur, id);
    LinkedAtOf(m0, st0, K, id);
    ViewChild(m0, st0, K, id, false);
    ViewChild(m0, st0, K, id, true);
    if m0[id].left.Some? {
      HashesKept(m0, st0, m1, st1, K, cur, m0[id].left.value, c);
    }
    if m0[id].right.Some? {
      HashesKept(m0, st0, m1, st1, K, cur, m0[id].right.value, c);
    }
  }

  /** SnapshotKept for every past epoch's root at once. */
  lemma PastKept(m0: Store, st0: Offsets, m1: Store, st1: Offsets, K: nat, cur: nat, roots: seq<Id>, c: Primitives)
    requires Linked(m0, st0, K) && Linked(m1, st1, K) && Evolves(m0, m1, cur) && Extends(st0, st1) && |roots| == cur
    requires forall e | 0 <= e < |roots| :: roots[e] in m0 && m0[roots[e]].prefix == [] && m0[roots[e]].epoch <= e
    ensures forall e | 0 <= e < |roots| :: roots[e] in m1 && m1[roots[e]].prefix == [] && m1[roots[e]].epoch <= e
    ensures forall e | 0 <= e < |roots| ::
      m1[roots[e]].hash == m0[roots[e]].hash && ViewOf(m1, st1, K, roots[e]) == ViewOf(m0, st0, K, roots[e]) &&
      (ChildrenHashed(c, HashesOf(m1), ViewOf(m0, st0, K, roots[e])) <==> ChildrenHashed(c, HashesOf(m0), ViewOf(m0, st0, K, roots[e])))
  {
    forall e | 0 <= e < |roots|
      ensures roots[e] in m1 && m1[roots[e]].hash == m0[roots[e]].hash
      ensures ViewOf(m1, st1, K, roots[e]) == ViewOf(m0, st0, K, roots[e])
      ensures ChildrenHashed(c, HashesOf(m1), ViewOf(m0, st0, K, roots[e])) <==> ChildrenHashed(c, HashesOf(m0), ViewOf(m0, st0, K, roots[e]))
    {
      SnapshotKept(m0, st0, m1, st1, K, cur, roots[e], c);
    }
  }

  /**
   * With its children's hashes stored, updateHash computes the hash of the
   * record's snapshot (a root without children is the one record whose
   * snapshot is not hashed like this).
   */
  lemma FreshHashOK(c: Primitives, m: Store, st: Offsets, K: nat, id: Id)
    requires Linked(m, st, K) && id in m && ChildrenHashed(c, HashesOf(m), ViewOf(m, st, K, id))
    requires m[id].prefix != [] || m[id].left.Some? || m[id].right.Some?
    ensures FreshHash(c, m, id) == HashOf(c, ViewOf(m, st, K, id))
  {
    LinkedAtOf(m, st, K, id);
    ViewChild(m, st, K, id, false);
    ViewChild(m, st, K, id, true);
  }

  /** Where the record at the end of a path of a snapshot ends: after the labels along the path. */
  lemma {:induction false} ViewPathEnd(m: Store, st: Offsets, K: nat, id: Id, q: seq<bool>)
    requires Linked(m, st, K) && id in m && Sub(ViewOf(m, st, K, id), q).Some?
    ensures Sub(ViewOf(m, st, K, id), q).value.id in m && id in st && Sub(ViewOf(m, st, K, id), q).value.id in st
    ensures End(m, st, Sub(ViewOf(m, st, K, id), q).value.id) == st[id] + |PathLabel(ViewOf(m, st, K, id), q)|
    decreases |q|
  {
    LinkedAtOf(m, st, K, id);
    ViewEpochs(m, st, K, id, q);
    if q != [] {
      ViewChild(m, st, K, id, q[0]);
      var c := Slotted(m[id], q[0]).value;
      LinkedAtOf(m, st, K, c);
      ViewPathEnd(m, st, K, c, q[1..]);
    }
  }

  /** Extending the offsets keeps the store linked. */
  lemma LinkedOffsets(m: Store, st0: Offsets, st1: Offsets, K: nat)
    requires Linked(m, st0, K) && Extends(st0, st1)
    ensures Linked(m, st1, K)
  {
    forall id | id in m
      ensures LinkedAt(m, st1, K, id)
    {
      LinkedAtFrame(m, st0, m, st1, K, id);
    }
  }

  // ---------------------------------------------------------------------
  // makeNextMetadata's writes.

  function SetParent(m: Store, o: Option<Id>, p: Id): (r: Store)
    ensures r.Keys == m.Keys
  {
    if o.Some? && o.value in m then m[o.value := m[o.value].(parent := Some(p))] else m
  }

  /**
   * The store after makeNextMetadata's writes for the record x: the version
   * ret (with parent par), par's slot for x, the children's parent links,
   * and x's next link.
   */
  function Versioning(m: Store, x: Id, ret: Id, par: Option<Id>, cur: nat): (r: Store)
    requires x in m && Has(m, par) && (par.Some? ==> m[x].prefix != [])
    ensures r.Keys == m.Keys + {ret}
  {
    var n := m[x];
    var a := m[ret := n.(epoch := cur, prev := Some(x), next := None, parent := par)];
    var b := if par.Some? then a[par.value := WithSlot(a[par.value], Slot(n.prefix[0]), ret)] else a;
    var d := SetParent(SetParent(b, n.left, ret), n.right, ret);
    d[x := d[x].(next := Some(ret))]
  }

  /** The conditions under which makeNextMetadata writes: x is old, ret is unused, par is x's parent or its version. */
  ghost predicate CanVersion(m: Store, st: Offsets, K: nat, cur: nat, x: Id, ret: Id, par: Option<Id>)
  {
    Linked(m, st, K) && EpochsBelow(m, cur) &&
    x in m && m[x].epoch < cur && ret !in m && ret in st && x in st && st[ret] == st[x] &&
    (par.None? <==> m[x].parent.None?) &&
    (par.Some? ==>
      par.value in m && par.value in st && m[par.value].epoch == cur &&
      End(m, st, par.value) == st[x] &&
      m[x].prefix != [] &&
      (m[par.value].prefix != [] ==> Slotted(m[par.value], Slot(m[x].prefix[0])).Some?))
  }

  /** What makeNextMetadata's writes make of each record. */
  ghost predicate VersionedAs(m: Store, m2: Store, x: Id, ret: Id, par: Option<Id>, cur: nat)
    requires x in m
  {
    var n := m[x];
    m2.Keys == m.Keys + {ret} && Has(m, n.left) && Has(m, n.right) && Has(m, par) &&
    m2[ret] == n.(epoch := cur, prev := Some(x), next := None, parent := par) &&
    m2[x] == n.(next := Some(ret)) &&
    (par.Some? ==> par.value != x && n.prefix != [] && m2[par.value] == WithSlot(m[par.value], Slot(n.prefix[0]), ret)) &&
    (n.left.Some? ==> n.left.value != x && m2[n.left.value] == m[n.left.value].(parent := Some(ret))) &&
    (n.right.Some? ==> n.right.value != x && m2[n.right.value] == m[n.right.value].(parent := Some(ret))) &&
    (forall id | id in m && id != x && Some(id) != par && Some(id) != n.left && Some(id) != n.right :: m2[id] == m[id])
  }

  /** The records makeNextMetadata writes are distinct, and what each becomes. */
  /** The records makeNextMetadata touches are distinct: x, its version, its parent and its children. */
  lemma VersionDistinct(m: Store, st: Offsets, K: nat, cur: nat, x: Id, ret: Id, par: Option<Id>)
    requires CanVersion(m, st, K, cur, x, ret, par)
    ensures Has(m, m[x].left) && Has(m, m[x].right)
    ensures par.Some? ==> par.value != x && Some(par.value) != m[x].left && Some(par.value) != m[x].right
    ensures m[x].left.Some? ==> m[x].left.value != x && m[x].left != m[x].right
    ensures m[x].right.Some? ==> m[x].right.value != x
  {
    LinkedAtOf(m, st, K, x);
  }

  lemma VersioningAt(m: Store, st: Offsets, K: nat, cur: nat, x: Id, ret: Id, par: Option<Id>)
    requires CanVersion(m, st, K, cur, x, ret, par)
    ensures VersionedAs(m, Versioning(m, x, ret, par, cur), x, ret, par, cur)
  {
    VersionDistinct(m, st, K, cur, x, ret, par);
  }

  lemma VersionedRet(m: Store, st: Offsets, K: nat, cur: nat, x: Id, ret: Id, par: Option<Id>, m2: Store)
    requires CanVersion(m, st, K, cur, x, ret, par) && VersionedAs(m, m2, x, ret, par, cur) && Grows(m, m2)
    ensures LinkedAt(m2, st, K, ret)
  {
    LinkedAtOf(m, st, K, x);
  }

  lemma VersionedOld(m: Store, st: Offsets, K: nat, cur: nat, x: Id, ret: Id, par: Option<Id>, m2: Store)
    requires CanVersion(m, st, K, cur, x, ret, par) && VersionedAs(m, m2, x, ret, par, cur) && Grows(m, m2)
    ensures LinkedAt(m2, st, K, x)
  {
    LinkedAtOf(m, st, K, x);
  }

  lemma VersionedParent(m: Store, st: Offsets, K: nat, cur: nat, x: Id, ret: Id, par: Option<Id>, m2: Store)
    requires CanVersion(m, st, K, cur, x, ret, par) && VersionedAs(m, m2, x, ret, par, cur) && Grows(m, m2) && par.Some?
    ensures LinkedAt(m2, st, K, par.value)
  {
    LinkedAtOf(m, st, K, par.value);
  }

  lemma VersionedChild(m: Store, st: Offsets, K: nat, cur: nat, x: Id, ret: Id, par: Option<Id>, m2: Store,
                       right: bool)
    requires CanVersion(m, st, K, cur, x, ret, par) && VersionedAs(m, m2, x, ret, par, cur) && Grows(m, m2)
    requires Slotted(m[x], right).Some?
    ensures Slotted(m[x], right).value in m2 && LinkedAt(m2, st, K, Slotted(m[x], right).value)
  {
    LinkedAtOf(m, st, K, x);
    var c := Slotted(m[x], right).value;
    LinkedAtOf(m, st, K, c);
  }

  /** makeNextMetadata's writes keep the store linked, and they are one step of the tree. */
  lemma VersioningLinked(m: Store, st: Offsets, K: nat, cur: nat, x: Id, ret: Id, par: Option<Id>)
    requires CanVersion(m, st, K, cur, x, ret, par)
    ensures Linked(Versioning(m, x, ret, par, cur), st, K)
    ensures EpochsBelow(Versioning(m, x, ret, par, cur), cur)
    ensures Step(m, st, Versioning(m, x, ret, par, cur), st, cur, {})
  {
    var m2 := Versioning(m, x, ret, par, cur);
    VersioningAt(m, st, K, cur, x, ret, par);
    VersionedStep(m, st, K, cur, x, ret, par, m2);
  }

  lemma VersionedStep(m: Store, st: Offsets, K: nat, cur: nat, x: Id, ret: Id, par: Option<Id>, m2: Store)
    requires CanVersion(m, st, K, cur, x, ret, par) && VersionedAs(m, m2, x, ret, par, cur)
    ensures Linked(m2, st, K) && EpochsBelow(m2, cur) && Step(m, st, m2, st, cur, {})
  {
    VersionedGrows(m, st, K, cur, x, ret, par, m2);
    VersionedLinked(m, st, K, cur, x, ret, par, m2);
    VersionedReshaped(m, st, K, cur, x, ret, par, m2);
  }

  lemma VersionedGrows(m: Store, st: Offsets, K: nat, cur: nat, x: Id, ret: Id, par: Option<Id>, m2: Store)
    requires CanVersion(m, st, K, cur, x, ret, par) && VersionedAs(m, m2, x, ret, par, cur)
    ensures Grows(m, m2) && Evolves(m, m2, cur) && EpochsBelow(m2, cur)
  {
    forall id | id in m
      ensures id in m2 && m2[id].prefix == m[id].prefix && m2[id].epoch == m[id].epoch && m2[id].prev == m[id].prev
      ensures (m[id].left.Some? ==> m2[id].left.Some?) && (m[id].right.Some? ==> m2[id].right.Some?)
      ensures m[id].epoch < cur ==> FrozenAt(m, m2, id)
    {
      if id != x && Some(id) != par && Some(id) != m[x].left && Some(id) != m[x].right {
        assert m2[id] == m[id];
      }
    }
  }

  lemma VersionedReshaped(m: Store, st: Offsets, K: nat, cur: nat, x: Id, ret: Id, par: Option<Id>, m2: Store)
    requires CanVersion(m, st, K, cur, x, ret, par) && VersionedAs(m, m2, x, ret, par, cur)
    ensures Reshaped(m, st, m2, st, cur, {})
  {
  }

  lemma VersionedLinked(m: Store, st: Offsets, K: nat, cur: nat, x: Id, ret: Id, par: Option<Id>, m2: Store)
    requires CanVersion(m, st, K, cur, x, ret, par) && VersionedAs(m, m2, x, ret, par, cur)
    requires Grows(m, m2)
    ensures Linked(m2, st, K)
  {
    var n := m[x];
    forall id | id in m2
      ensures LinkedAt(m2, st, K, id)
    {
      if id == ret {
        VersionedRet(m, st, K, cur, x, ret, par, m2);
      } else if id == x {
        VersionedOld(m, st, K, cur, x, ret, par, m2);
      } else if par == Some(id) {
        VersionedParent(m, st, K, cur, x, ret, par, m2);
      } else if n.left == Some(id) {
        VersionedChild(m, st, K, cur, x, ret, par, m2, false);
      } else if n.right == Some(id) {
        VersionedChild(m, st, K, cur, x, ret, par, m2, true);
      } else {
        LinkedAtOf(m, st, K, id);
        LinkedAtFrame(m, st, m2, st, K, id);
      }
    }
  }

  /** makeNextMetadata may write once its parent is settled: par is x's parent, or a version of it made on the way. */
  lemma CanVersionFrom(m0: Store, st0: Offsets, m1: Store, st1: Offsets, K: nat, cur: nat, x: Id, ret: Id, par: Option<Id>)
    requires Linked(m0, st0, K) && Linked(m1, st1, K) && EpochsBelow(m1, cur)
    requires Evolves(m0, m1, cur) && Extends(st0, st1)
    requires x in m0 && m0[x].epoch < cur && ret !in m1 && ret in st0 && x in st0 && st0[ret] == st0[x]
    requires par.None? <==> m0[x].parent.None?
    requires par.Some? ==>
      var p := m0[x].parent.value;
      p in m0 && par.value in m1 && par.value in st1 && p in st0 && m1[par.value].epoch == cur &&
      st1[par.value] == st0[p] && m1[par.value].prefix == m0[p].prefix &&
      Slotted(m1[par.value], false).Some? == Slotted(m0[p], false).Some? &&
      Slotted(m1[par.value], true).Some? == Slotted(m0[p], true).Some?
    ensures CanVersion(m1, st1, K, cur, x, ret, par)
  {
    LinkedAtOf(m0, st0, K, x);
    LinkedAtOf(m1, st1, K, x);
  }

  // ---------------------------------------------------------------------
  // Where a step may write.

  /** The slot a record with this label fills in its parent (false for a root, which fills none). */
  function SideOf(n: Meta): bool
  {
    n.prefix != [] && Slot(n.prefix[0])
  }

  /**
   * Between m0 and m1, a slot changes only in a record whose label ends
   * above offset d, or (when any holds) ends at d, and then only on side.
   */
  ghost predicate SlotsAbove(m0: Store, st0: Offsets, m1: Store, d: nat, side: bool, any: bool)
  {
    forall id, right | id in m0 && id in st0 && id in m1 && Slotted(m1[id], right) != Slotted(m0[id], right) ::
      End(m0, st0, id) < d || (any && End(m0, st0, id) == d && right == side)
  }

  /** Between m0 and m1, a parent link changes only in a record older than the current epoch. */
  ghost predicate ParentsOld(m0: Store, m1: Store, cur: nat)
  {
    forall id | id in m0 && id in m1 && m1[id].parent != m0[id].parent :: m0[id].epoch < cur
  }

  /** No record's values change. */
  ghost predicate ValuesKept(m0: Store, m1: Store)
  {
    forall id | id in m0 && id in m1 :: m1[id].values == m0[id].values
  }

  /** makeNextMetadata's own writes: a slot of the parent, on x's side, and the parent links of x's children. */
  lemma VersioningFrame(m: Store, st: Offsets, K: nat, cur: nat, x: Id, ret: Id, par: Option<Id>)
    requires CanVersion(m, st, K, cur, x, ret, par)
    ensures ValuesKept(m, Versioning(m, x, ret, par, cur))
    ensures SlotsAbove(m, st, Versioning(m, x, ret, par, cur), st[x], SideOf(m[x]), m[x].prefix != [])
    ensures ParentsOld(m, Versioning(m, x, ret, par, cur), cur)
  {
    var m2 := Versioning(m, x, ret, par, cur);
    VersioningAt(m, st, K, cur, x, ret, par);
    LinkedAtOf(m, st, K, x);
    forall id | id in m && id in st && id in m2
      ensures m2[id].values == m[id].values
      ensures m2[id].parent != m[id].parent ==> m[id].epoch < cur
    {
    }
    forall id, right | id in m && id in st && id in m2 && Slotted(m2[id], right) != Slotted(m[id], right)
      ensures End(m, st, id) < st[x] || (m[x].prefix != [] && End(m, st, id) == st[x] && right == SideOf(m[x]))
    {
      assert par == Some(id);
    }
  }

  /** A bound on slot writes holds for any larger bound. */
  lemma SlotsAboveWeaken(m0: Store, st0: Offsets, m1: Store, d: nat, side: bool, any: bool,
                         d': nat, side': bool, any': bool)
    requires SlotsAbove(m0, st0, m1, d, side, any)
    requires d < d' || (d == d' && !any)
    ensures SlotsAbove(m0, st0, m1, d', side', any')
  {
  }

  /** Two steps with the same bound on slot writes. */
  lemma SlotsAboveTrans(m0: Store, st0: Offsets, m1: Store, st1: Offsets, m2: Store, d: nat, side: bool, any: bool)
    requires SlotsAbove(m0, st0, m1, d, side, any) && SlotsAbove(m1, st1, m2, d, side, any)
    requires Grows(m0, m1) && Extends(st0, st1) && m0.Keys <= st0.Keys
    ensures SlotsAbove(m0, st0, m2, d, side, any)
  {
    forall id, right | id in m0 && id in st0 && id in m2 && Slotted(m2[id], right) != Slotted(m0[id], right)
      ensures End(m0, st0, id) < d || (any && End(m0, st0, id) == d && right == side)
    {
      assert End(m1, st1, id) == End(m0, st0, id);
    }
  }

  /** Two steps that change parent links of old records only. */
  lemma ParentsOldTrans(m0: Store, m1: Store, m2: Store, cur: nat)
    requires ParentsOld(m0, m1, cur) && ParentsOld(m1, m2, cur) && Grows(m0, m1)
    ensures ParentsOld(m0, m2, cur)
  {
  }

  /**
   * What makeNextMetadata(x) may write: no values; slots only in records
   * ending above x's label, or x's own slot in its parent; parent links
   * only in records older than the current epoch.
   */
  ghost predicate WritesNear(m0: Store, st0: Offsets, m1: Store, x: Id, cur: nat)
    requires x in m0 && x in st0
  {
    ValuesKept(m0, m1) &&
    SlotsAbove(m0, st0, m1, st0[x], SideOf(m0[x]), m0[x].prefix != []) &&
    ParentsOld(m0, m1, cur)
  }

  /**
   * makeNextMetadata's frame: its writes for x after the parent p (when
   * it was old) has been versioned with writes near p.
   */
  lemma VersionNear(o: Store, ost: Offsets, m0: Store, st0: Offsets, m1: Store, st1: Offsets, K: nat, cur: nat,
                    x: Id, ret: Id, par: Option<Id>, p: Option<Id>)
    requires o == m0 && Extends(ost, st0) && o.Keys <= ost.Keys && x in o && LinkedAt(m0, st0, K, x)
    requires p.Some? ==> p == m0[x].parent && p.value in m0 && p.value in st0 && WritesNear(m0, st0, m1, p.value, cur)
    requires p.None? ==> m1 == m0
    requires Grows(m0, m1) && Extends(st0, st1)
    requires CanVersion(m1, st1, K, cur, x, ret, par)
    ensures WritesNear(o, ost, Versioning(m1, x, ret, par, cur), x, cur)
  {
    var m2 := Versioning(m1, x, ret, par, cur);
    var side, any := SideOf(m0[x]), m0[x].prefix != [];
    VersioningFrame(m1, st1, K, cur, x, ret, par);
    if p.Some? {
      var q := p.value;
      SlotsAboveWeaken(m0, st0, m1, st0[q], SideOf(m0[q]), m0[q].prefix != [], st0[x], side, any);
    }
    SlotsAboveTrans(m0, st0, m1, st1, m2, st0[x], side, any);
    SlotsAboveTrans(o, ost, m0, st0, m2, st0[x], side, any);
    ParentsOldTrans(m0, m1, m2, cur);
  }

  /**
   * One of splitNode's botHalf's slots after re-parenting: filled exactly
   * when was is, by a record of bot's epoch that takes bot as its parent
   * and is was's record itself or a new version of it.
   */
  predicate Adopted(m: Store, bot: Id, right: bool, was: Option<Id>)
    requires bot in m
  {
    var o := Slotted(m[bot], right);
    (o.None? <==> was.None?) &&
    (o.Some? ==> o.value in m && m[o.value].parent == Some(bot) && m[o.value].epoch == m[bot].epoch &&
                 (o == was || m[o.value].prev == was))
  }

  /** AttachWrite's writes: one slot of t, on side right, and c's parent link. */
  lemma AttachAbove(m: Store, st: Offsets, t: Id, right: bool, c: Id)
    requires t in m && t in st && c in m && c != t
    ensures var m2 := m[t := WithSlot(m[t], right, c)][c := m[c].(parent := Some(t))];
      SlotsAbove(m, st, m2, End(m, st, t), right, true) && ValuesKept(m, m2) &&
      forall id | id in m && id != c :: m2[id].parent == m[id].parent
  {
  }

  lemma ValuesKeptTrans(m0: Store, m1: Store, m2: Store)
    requires ValuesKept(m0, m1) && ValuesKept(m1, m2) && Grows(m0, m1)
    ensures ValuesKept(m0, m2)
  {
  }

  /**
   * splitNode's re-parenting of bot's child on side right, from m0 to m1:
   * bot keeps its values and its other slot, the slot is adopted, and no
   * other record of the current epoch changes its parent link.
   */
  ghost predicate Reparented(m0: Store, m1: Store, bot: Id, right: bool, cur: nat)
    requires bot in m0
  {
    bot in m1 && m1[bot].values == m0[bot].values && m1[bot].epoch == cur &&
    Slotted(m1[bot], !right) == Slotted(m0[bot], !right) &&
    Adopted(m1, bot, right, Slotted(m0[bot], right)) &&
    forall id | id in m0 && m0[id].epoch == cur && Some(id) != Slotted(m0[bot], right) ::
      id in m1 && m1[id].parent == m0[id].parent
  }

  /** Re-parenting an old child c: its new version m goes into bot's slot and takes bot as its parent. */
  lemma ReparentOld(m0: Store, st0: Offsets, m1: Store, K: nat, cur: nat, bot: Id, right: bool, c: Id, m: Id)
    requires bot in m0 && LinkedAt(m0, st0, K, bot) && m0[bot].epoch == cur && Slotted(m0[bot], right) == Some(c)
    requires c in m0 && m0[c].epoch < cur && WritesNear(m0, st0, m1, c, cur) && Grows(m0, m1)
    requires m !in m0 && m in m1 && m1[m].prev == Some(c) && m1[m].epoch == cur
    ensures Reparented(m0, m1[bot := WithSlot(m1[bot], right, m)][m := m1[m].(parent := Some(bot))], bot, right, cur)
  {
    assert Slotted(m1[bot], !right) == Slotted(m0[bot], !right);
  }

  /** An adopted slot stays so while the slot and its record's parent link are left alone. */
  lemma AdoptedKept(m1: Store, m2: Store, bot: Id, right: bool, was: Option<Id>)
    requires bot in m1 && bot in m2 && Adopted(m1, bot, right, was) && Grows(m1, m2)
    requires Slotted(m2[bot], right) == Slotted(m1[bot], right)
    requires Slotted(m1[bot], right).Some? ==> m2[Slotted(m1[bot], right).value].parent == m1[Slotted(m1[bot], right).value].parent
    ensures Adopted(m2, bot, right, was)
  {
  }

  /**
   * top is splitNode's topHalf for the record n (at offset off) cut at
   * idx: of the current epoch, the first idx bits of n's label, and one
   * child, on the side of n's label's bit idx.
   */
  ghost predicate TopHalfOf(m: Store, st: Offsets, top: Id, n: Meta, off: nat, idx: nat, cur: nat)
    requires idx < |n.prefix|
  {
    top in m && top in st && m[top].epoch == cur && m[top].prefix == n.prefix[..idx] && st[top] == off &&
    Slotted(m[top], Slot(n.prefix[idx])).Some? && Slotted(m[top], !Slot(n.prefix[idx])).None?
  }

  /**
   * bot is splitNode's botHalf for the record n (at offset off) cut at
   * idx: of the current epoch, the rest of n's label, n's values, and n's
   * children or their new versions, adopted.
   */
  ghost predicate BotHalfOf(m: Store, st: Offsets, bot: Id, n: Meta, off: nat, idx: nat, cur: nat)
    requires idx <= |n.prefix|
  {
    bot in m && bot in st && m[bot].epoch == cur && m[bot].prefix == n.prefix[idx..] && st[bot] == off + idx &&
    m[bot].values == n.values &&
    Adopted(m, bot, false, Slotted(n, false)) && Adopted(m, bot, true, Slotted(n, true))
  }

  /**
   * What hanging topHalf (c) from a record ending at offset d writes: no
   * values, slots only in records ending above d or on side at d, and no
   * parent link of a record of the current epoch other than c's.
   */
  ghost predicate WritesAbove(m0: Store, st0: Offsets, m1: Store, d: nat, side: bool, cur: nat, c: Id)
  {
    ValuesKept(m0, m1) && SlotsAbove(m0, st0, m1, d, side, true) &&
    forall id | id in m0 && m0[id].epoch == cur && id != c :: id in m1 && m1[id].parent == m0[id].parent
  }

  /** Hanging topHalf writes above botHalf: botHalf stays as it was. */
  lemma AdoptedAfterHang(m0: Store, st0: Offsets, m1: Store, st1: Offsets, K: nat, cur: nat, bot: Id, top: Id,
                         side: bool, n: Meta, off: nat, idx: nat)
    requires idx <= |n.prefix| && BotHalfOf(m0, st0, bot, n, off, idx, cur)
    requires top in m0 && top in st0 && LinkedAt(m0, st0, K, bot) && st0[top] < st0[bot]
    requires Grows(m0, m1) && Extends(st0, st1) && WritesAbove(m0, st0, m1, st0[top], side, cur, top)
    ensures BotHalfOf(m1, st1, bot, n, off, idx, cur)
  {
    assert Slotted(m1[bot], false) == Slotted(m0[bot], false);
    assert Slotted(m1[bot], true) == Slotted(m0[bot], true);
    AdoptedKept(m0, m1, bot, false, Slotted(n, false));
    AdoptedKept(m0, m1, bot, true, Slotted(n, true));
  }

  /** splitNode after topHalf is hung: one step from the start, with both halves as made. */
  lemma SplitFinish(o: Store, ost: Offsets, on: Id, m0: Store, st0: Offsets, n0: Id, m1: Store, st1: Offsets,
                    K: nat, cur: nat, n: Meta, off: nat, idx: nat, top: Id, bot: Id, side: bool)
    requires 0 < idx < |n.prefix| && top != bot && o.Keys <= ost.Keys
    requires Step(o, ost, m0, st0, cur, {top, bot}) && FreshFrom(o, m0, on) && on <= n0
    requires TopHalfOf(m0, st0, top, n, off, idx, cur) && BotHalfOf(m0, st0, bot, n, off, idx, cur)
    requires LinkedAt(m0, st0, K, bot)
    requires Step(m0, st0, m1, st1, cur, {}) && FreshFrom(m0, m1, n0)
    requires WritesAbove(m0, st0, m1, st0[top], side, cur, top)
    ensures Step(o, ost, m1, st1, cur, {top, bot}) && FreshFrom(o, m1, on)
    ensures TopHalfOf(m1, st1, top, n, off, idx, cur) && BotHalfOf(m1, st1, bot, n, off, idx, cur)
  {
    AdoptedAfterHang(m0, st0, m1, st1, K, cur, bot, top, side, n, off, idx);
    StepThen(o, ost, on, m0, st0, n0, m1, st1, cur, {top, bot});
    assert ShapeAt(m0, m1, top);
  }

  /** Storing a new hash in botHalf keeps its slots adopted. */
  lemma AdoptedRehash(m1: Store, m2: Store, bot: Id, h: Bytes, cur: nat, wasL: Option<Id>, wasR: Option<Id>)
    requires bot in m1 && m1[bot].epoch == cur && Rehashed(m1, m2, bot, h, cur)
    requires Adopted(m1, bot, false, wasL) && Adopted(m1, bot, true, wasR)
    ensures bot in m2 && m2[bot].values == m1[bot].values
    ensures Adopted(m2, bot, false, wasL) && Adopted(m2, bot, true, wasR)
  {
  }

  /** Every record of m1 that m0 lacks has an id of at least n. */
  ghost predicate FreshFrom(m0: Store, m1: Store, n: Id)
  {
    forall id | id in m1 && id !in m0 :: n <= id
  }

  /** The store invariant of the tree, with next the first unused id. */
  ghost predicate Sound(m: Store, st: Offsets, K: nat, cur: nat, next: Id)
  {
    Linked(m, st, K) && EpochsBelow(m, cur) && m.Keys <= st.Keys && (forall id | id in st :: id < next)
  }

  /** makeNextMetadata's writes, after the parent is settled, finish a step from m0. */
  lemma VersionFinish(m0: Store, st0: Offsets, m1: Store, st1: Offsets, K: nat, cur: nat, next: Id,
                      x: Id, ret: Id, par: Option<Id>)
    requires Sound(m1, st1, K, cur, next) && Step(m0, st0, m1, st1, cur, {}) && m0.Keys <= st0.Keys
    requires CanVersion(m1, st1, K, cur, x, ret, par) && x in m0
    requires FreshFrom(m0, m1, ret + 1)
    ensures FreshFrom(m0, Versioning(m1, x, ret, par, cur), ret)
    ensures Sound(Versioning(m1, x, ret, par, cur), st1, K, cur, next)
    ensures Step(m0, st0, Versioning(m1, x, ret, par, cur), st1, cur, {})
    ensures Versioning(m1, x, ret, par, cur)[ret] == m0[x].(epoch := cur, prev := Some(x), next := None, parent := par)
    ensures Versioning(m1, x, ret, par, cur)[x].next == Some(ret)
  {
    assert FrozenAt(m0, m1, x);
    VersioningLinked(m1, st1, K, cur, x, ret, par);
    VersioningAt(m1, st1, K, cur, x, ret, par);
    StepTrans(m0, st0, m1, st1, Versioning(m1, x, ret, par, cur), st1, cur, {});
  }

  lemma FreshFromTrans(m0: Store, m1: Store, m2: Store, n0: Id, n1: Id)
    requires FreshFrom(m0, m1, n0) && FreshFrom(m1, m2, n1) && n0 <= n1 && Grows(m0, m1)
    ensures FreshFrom(m0, m2, n0)
  {
  }

  /**
   * updateHash's effect with the recomputed hash h: nothing when it equals
   * the stored hash; otherwise h is stored in the record, or, when the
   * record is old, in its new version.
   */
  ghost predicate Rehashed(m0: Store, m1: Store, id: Id, h: Bytes, cur: nat)
    requires id in m0
  {
    if h == Flat(m0[id].hash) then m1 == m0
    else if m0[id].epoch < cur then
      id in m1 && m1[id].next.Some? && m1[id].next.value in m1 && m1[id].next.value !in m0 &&
      m1[m1[id].next.value] == m0[id].(hash := Some(h), epoch := cur, prev := Some(id), next := None,
                                         parent := m1[m1[id].next.value].parent)
    else m1 == m0[id := m0[id].(hash := Some(h))]
  }

  /** Writing a new hash into a record of the current epoch. */
  lemma HashWrite(m: Store, st: Offsets, K: nat, cur: nat, next: Id, t: Id, h: Bytes)
    requires Sound(m, st, K, cur, next) && t in m && m[t].epoch == cur
    ensures Sound(m[t := m[t].(hash := Some(h))], st, K, cur, next)
    ensures Step(m, st, m[t := m[t].(hash := Some(h))], st, cur, {})
    ensures FreshFrom(m, m[t := m[t].(hash := Some(h))], next)
  {
    var m2 := m[t := m[t].(hash := Some(h))];
    assert Grows(m, m2);
    LinkedAtOf(m, st, K, t);
    assert LinkedAt(m2, st, K, t);
    LinkedUpdate(m, st, m2, st, K, {t});
  }

  /** Exactly the records with an empty label have no parent. */
  lemma RootIffNoParent(m: Store, st: Offsets, K: nat, id: Id)
    requires Linked(m, st, K) && id in m
    ensures m[id].parent.None? <==> m[id].prefix == []
  {
    LinkedAtOf(m, st, K, id);
  }

  /** A record with a non-empty label has a stored parent whose label ends where the record's begins. */
  lemma ParentAbove(m: Store, st: Offsets, K: nat, id: Id)
    requires Linked(m, st, K) && id in m && m[id].prefix != []
    ensures m[id].parent.Some? && m[id].parent.value in m
    ensures Depth(m, st, m[id].parent.value) < Depth(m, st, id)
  {
    LinkedAtOf(m, st, K, id);
  }

  /** A newer version of a root record is a root record. */
  lemma RootNext(m: Store, st: Offsets, K: nat, id: Id)
    requires Linked(m, st, K) && id in m && m[id].prefix == [] && m[id].next.Some?
    ensures m[id].next.value in m && m[m[id].next.value].prefix == []
  {
    LinkedAtOf(m, st, K, id);
  }

  /** updateHash on an old record: the new hash goes into the version makeNextMetadata made. */
  lemma RehashOld(m0: Store, st0: Offsets, m1: Store, st1: Offsets, K: nat, cur: nat, n0: Id, n1: Id,
                  id: Id, ret: Id, h: Bytes)
    requires m0.Keys <= st0.Keys && id in m0 && m0[id].epoch < cur && h != Flat(m0[id].hash)
    requires Sound(m1, st1, K, cur, n1) && Step(m0, st0, m1, st1, cur, {})
    requires FreshFrom(m0, m1, n0) && n0 <= n1
    requires ret !in m0 && ret in m1 && id in m1 && m1[id].next == Some(ret)
    requires m1[ret] == m0[id].(epoch := cur, prev := Some(id), next := None, parent := m1[ret].parent)
    ensures Sound(m1[ret := m1[ret].(hash := Some(h))], st1, K, cur, n1)
    ensures Step(m0, st0, m1[ret := m1[ret].(hash := Some(h))], st1, cur, {})
    ensures FreshFrom(m0, m1[ret := m1[ret].(hash := Some(h))], n0)
    ensures Rehashed(m0, m1[ret := m1[ret].(hash := Some(h))], id, h, cur)
  {
    var m2 := m1[ret := m1[ret].(hash := Some(h))];
    HashWrite(m1, st1, K, cur, n1, ret, h);
    StepTrans(m0, st0, m1, st1, m2, st1, cur, {});
    FreshFromTrans(m0, m1, m2, n0, n1);
  }

  /** Putting c into a slot of a record of the current epoch (updateLeftChild / updateRightChild). */
  lemma SlotWrite(m: Store, st: Offsets, K: nat, cur: nat, next: Id, t: Id, right: bool, c: Id)
    requires Sound(m, st, K, cur, next) && t in m && m[t].epoch == cur && c in m
    requires m[c].prefix != [] && Slot(m[c].prefix[0]) == right && st[c] == End(m, st, t) && m[c].epoch <= cur
    ensures Sound(m[t := WithSlot(m[t], right, c)], st, K, cur, next)
    ensures Step(m, st, m[t := WithSlot(m[t], right, c)], st, cur, {t})
    ensures Slotted(m[t], right).Some? || m[t].prefix == [] ==> Step(m, st, m[t := WithSlot(m[t], right, c)], st, cur, {})
    ensures FreshFrom(m, m[t := WithSlot(m[t], right, c)], next)
  {
    var m2 := m[t := WithSlot(m[t], right, c)];
    assert Grows(m, m2);
    LinkedAtOf(m, st, K, t);
    GainChildLinked(m, st, m2, st, K, t, right, c);
    LinkedUpdate(m, st, m2, st, K, {t});
  }

  /** A record that takes the child c into a slot stays linked. */
  lemma GainChildLinked(m: Store, st: Offsets, m2: Store, st2: Offsets, K: nat, p: Id, right: bool, c: Id)
    requires p in m && LinkedAt(m, st, K, p) && Grows(m, m2) && Extends(st, st2)
    requires p in m2 && m2[p] == WithSlot(m[p], right, c)
    requires c in m2 && c in st2 && m2[c].prefix != [] && Slot(m2[c].prefix[0]) == right
    requires st2[c] == End(m, st, p) && m2[c].epoch <= m[p].epoch
    ensures LinkedAt(m2, st2, K, p)
  {
    var n := m[p];
    if n.parent.Some? && m[n.parent.value].prefix != [] {
      assert Slotted(m2[n.parent.value], Slot(n.prefix[0])).Some?;
    }
  }

  /** Appending to a record's values (a leaf of the current epoch). */
  lemma ValuesWrite(m: Store, st: Offsets, K: nat, cur: nat, next: Id, t: Id, kh: KeyHash)
    requires Sound(m, st, K, cur, next) && t in m && m[t].epoch == cur
    ensures Sound(m[t := m[t].(values := m[t].values + [kh])], st, K, cur, next)
    ensures Step(m, st, m[t := m[t].(values := m[t].values + [kh])], st, cur, {})
    ensures FreshFrom(m, m[t := m[t].(values := m[t].values + [kh])], next)
  {
    var m2 := m[t := m[t].(values := m[t].values + [kh])];
    assert Grows(m, m2);
    LinkedAtOf(m, st, K, t);
    assert LinkedAt(m2, st, K, t);
    LinkedUpdate(m, st, m2, st, K, {t});
  }

  /** Pointing a record of the current epoch at a new parent p, whose label ends where the record's begins. */
  lemma ParentWrite(m: Store, st: Offsets, K: nat, cur: nat, next: Id, c: Id, p: Id)
    requires Sound(m, st, K, cur, next) && c in m && m[c].epoch == cur && p in m && m[c].prefix != []
    requires End(m, st, p) == st[c] && (m[p].prefix != [] ==> Slotted(m[p], Slot(m[c].prefix[0])).Some?)
    ensures Sound(m[c := m[c].(parent := Some(p))], st, K, cur, next)
    ensures Step(m, st, m[c := m[c].(parent := Some(p))], st, cur, {})
    ensures FreshFrom(m, m[c := m[c].(parent := Some(p))], next)
  {
    var m2 := m[c := m[c].(parent := Some(p))];
    assert Grows(m, m2);
    LinkedAtOf(m, st, K, c);
    assert LinkedAt(m2, st, K, c);
    LinkedUpdate(m, st, m2, st, K, {c});
  }

  /** A record c of the current epoch goes into a slot of t and takes t as its parent. */
  lemma AttachWrite(m: Store, st: Offsets, K: nat, cur: nat, next: Id, t: Id, right: bool, c: Id)
    requires Sound(m, st, K, cur, next) && t in m && m[t].epoch == cur && c in m && m[c].epoch == cur
    requires m[c].prefix != [] && Slot(m[c].prefix[0]) == right && st[c] == End(m, st, t)
    requires Slotted(m[t], right).Some? || m[t].prefix == []
    ensures t != c
    ensures var m2 := m[t := WithSlot(m[t], right, c)][c := m[c].(parent := Some(t))];
      Sound(m2, st, K, cur, next) && Step(m, st, m2, st, cur, {}) && FreshFrom(m, m2, next)
  {
    var m1 := m[t := WithSlot(m[t], right, c)];
    SlotWrite(m, st, K, cur, next, t, right, c);
    ParentWrite(m1, st, K, cur, next, c, t);
    StepTrans(m, st, m1, st, m1[c := m1[c].(parent := Some(t))], st, cur, {});
  }

  // ---------------------------------------------------------------------
  // New records.

  /** splitNode's topHalf: the first idx bits of the label, under node's parent, with botHalf in its slot. */
  function TopHalf(n: Meta, idx: nat, bot: Id, cur: nat): (r: Meta)
    requires idx < |n.prefix|
    ensures r.prefix == n.prefix[..idx] && r.parent == n.parent && r.epoch == cur
    ensures Slotted(r, Slot(n.prefix[idx])) == Some(bot) && Slotted(r, !Slot(n.prefix[idx])).None?
  {
    var r := Meta(None, [], cur, n.prefix[..idx], None, None, None, None, n.parent);
    WithSlot(r, Slot(n.prefix[idx]), bot)
  }

  /** splitNode's botHalf: the rest of the label, node's values and children, under topHalf. */
  function BotHalf(n: Meta, idx: nat, top: Id, cur: nat): (r: Meta)
    requires idx <= |n.prefix|
    ensures r.prefix == n.prefix[idx..] && r.parent == Some(top) && r.epoch == cur
    ensures r.values == n.values && r.left == n.left && r.right == n.right
  {
    Meta(None, n.values, cur, n.prefix[idx..], None, None, n.left, n.right, Some(top))
  }

  /** Insert's new leaf: one value, the rest of the key as its label, under p. */
  function NewLeaf(rest: Bytes, kh: KeyHash, cur: nat, p: Id): (r: Meta)
    ensures r.prefix == rest && r.values == [kh] && r.parent == Some(p) && r.epoch == cur
    ensures r.left.None? && r.right.None? && r.prev.None? && r.next.None?
  {
    Meta(None, [kh], cur, rest, None, None, None, None, Some(p))
  }

  /** The store after splitNode creates its two halves. */
  function Halved(m: Store, node: Id, idx: nat, top: Id, bot: Id, cur: nat): (r: Store)
    requires node in m && idx < |m[node].prefix|
    ensures r.Keys == m.Keys + {top, bot}
  {
    m[top := TopHalf(m[node], idx, bot, cur)][bot := BotHalf(m[node], idx, top, cur)]
  }

  /** The conditions of splitNode's halves: top and bot are unused ids, and their offsets. */
  ghost predicate HalvesAt(m: Store, st: Offsets, K: nat, cur: nat, next: Id, node: Id, idx: nat,
                           m2: Store, st2: Offsets)
  {
    Sound(m, st, K, cur, next) && node in m && 0 < idx < |m[node].prefix| &&
    st2 == st[next := st[node]][next + 1 := st[node] + idx] &&
    m2 == Halved(m, node, idx, next, next + 1, cur)
  }

  lemma TopLinked(m: Store, st: Offsets, K: nat, cur: nat, next: Id, node: Id, idx: nat, m2: Store, st2: Offsets)
    requires HalvesAt(m, st, K, cur, next, node, idx, m2, st2)
    ensures LinkedAt(m2, st2, K, next)
  {
    var n := m[node];
    LinkedAtOf(m, st, K, node);
    LinkedAtOf(m, st, K, n.parent.value);
    IsBitsSuffix(n.prefix, idx);
  }

  lemma BotLinked(m: Store, st: Offsets, K: nat, cur: nat, next: Id, node: Id, idx: nat, m2: Store, st2: Offsets)
    requires HalvesAt(m, st, K, cur, next, node, idx, m2, st2)
    ensures LinkedAt(m2, st2, K, next + 1)
  {
    var n := m[node];
    LinkedAtOf(m, st, K, node);
    if n.left.Some? {
      LinkedAtOf(m, st, K, n.left.value);
    }
    if n.right.Some? {
      LinkedAtOf(m, st, K, n.right.value);
    }
    IsBitsSuffix(n.prefix, idx);
  }

  /** splitNode's two halves keep the store linked; they are the step's free records. */
  lemma HalvesWrite(m: Store, st: Offsets, K: nat, cur: nat, next: Id, node: Id, idx: nat, m2: Store, st2: Offsets)
    requires HalvesAt(m, st, K, cur, next, node, idx, m2, st2)
    ensures Sound(m2, st2, K, cur, next + 2) && Step(m, st, m2, st2, cur, {next, next + 1})
    ensures FreshFrom(m, m2, next) && End(m2, st2, next + 1) == End(m, st, node)
  {
    assert Grows(m, m2) && Extends(st, st2);
    TopLinked(m, st, K, cur, next, node, idx, m2, st2);
    BotLinked(m, st, K, cur, next, node, idx, m2, st2);
    LinkedUpdate(m, st, m2, st2, K, {});
  }

  /** The conditions of Insert's new leaf under p: the unused id next, and the rest of the key as its label. */
  ghost predicate LeafFits(m: Store, st: Offsets, K: nat, cur: nat, next: Id, p: Id, rest: Bytes)
  {
    Sound(m, st, K, cur, next) && p in m && rest != [] && IsBits(rest) && End(m, st, p) + |rest| <= K
  }

  lemma NewLeafLinked(m: Store, st: Offsets, K: nat, cur: nat, next: Id, p: Id, rest: Bytes, kh: KeyHash,
                      m2: Store, st2: Offsets)
    requires LeafFits(m, st, K, cur, next, p, rest) && st2 == st[next := End(m, st, p)]
    requires next in m2 && m2[next] == NewLeaf(rest, kh, cur, p) && p in m2 && m2[p].prefix == m[p].prefix
    requires m[p].prefix != [] ==> Slotted(m2[p], Slot(rest[0])).Some?
    ensures LinkedAt(m2, st2, K, next)
  {
    LinkedAtOf(m, st, K, p);
  }

  /** Insert's new leaf below the root (the root's slot is filled by updateLeftChild / updateRightChild). */
  lemma LeafUnderRoot(m: Store, st: Offsets, K: nat, cur: nat, next: Id, p: Id, rest: Bytes, kh: KeyHash)
    requires LeafFits(m, st, K, cur, next, p, rest) && m[p].prefix == []
    ensures var m2 := m[next := NewLeaf(rest, kh, cur, p)];
      var st2 := st[next := End(m, st, p)];
      Sound(m2, st2, K, cur, next + 1) && Step(m, st, m2, st2, cur, {next}) && FreshFrom(m, m2, next)
  {
    var m2 := m[next := NewLeaf(rest, kh, cur, p)];
    var st2 := st[next := End(m, st, p)];
    assert Grows(m, m2) && Extends(st, st2);
    NewLeafLinked(m, st, K, cur, next, p, rest, kh, m2, st2);
    LinkedUpdate(m, st, m2, st2, K, {});
  }

  /** Insert's new leaf in the empty slot of splitNode's topHalf p, a record of the current epoch. */
  lemma LeafUnderSplit(m: Store, st: Offsets, K: nat, cur: nat, next: Id, p: Id, rest: Bytes, kh: KeyHash)
    requires LeafFits(m, st, K, cur, next, p, rest) && m[p].epoch == cur
    ensures var m2 := m[next := NewLeaf(rest, kh, cur, p)][p := WithSlot(m[p], Slot(rest[0]), next)];
      var st2 := st[next := End(m, st, p)];
      Sound(m2, st2, K, cur, next + 1) && Step(m, st, m2, st2, cur, {next, p}) && FreshFrom(m, m2, next)
  {
    var m2 := m[next := NewLeaf(rest, kh, cur, p)][p := WithSlot(m[p], Slot(rest[0]), next)];
    var st2 := st[next := End(m, st, p)];
    assert Grows(m, m2) && Extends(st, st2);
    NewLeafLinked(m, st, K, cur, next, p, rest, kh, m2, st2);
    LinkedAtOf(m, st, K, p);
    GainChildLinked(m, st, m2, st2, K, p, Slot(rest[0]), next);
    LinkedUpdate(m, st, m2, st2, K, {p});
  }

  /**
   * Insert's split case as one step: after splitNode cut c's label at j
   * into top and bot, the new leaf with the rest of the key goes into
   * top's empty slot, and the store stays sound and balanced.
   */
  lemma SplitLeafStep(m0: Store, st0: Offsets, m1: Store, st1: Offsets, K: nat, cur: nat, next: Id,
                      c: Id, j: nat, top: Id, bot: Id, rest: Bytes, kh: KeyHash)
    requires Linked(m0, st0, K) && m0.Keys <= st0.Keys && Balanced(m0, st0, K) && c in m0 && 0 < j < |m0[c].prefix|
    requires Sound(m1, st1, K, cur, next) && Step(m0, st0, m1, st1, cur, {top, bot})
    requires top !in m0 && bot !in m0 && top in m1 && bot in m1 && top != bot
    requires m1[top].epoch == cur && m1[bot].epoch == cur
    requires m1[top].prefix == m0[c].prefix[..j] && st1[top] == st0[c]
    requires Slotted(m1[top], Slot(m0[c].prefix[j])).Some? && Slotted(m1[top], !Slot(m0[c].prefix[j])).None?
    requires m1[bot].prefix == m0[c].prefix[j..] && st1[bot] == st0[c] + j && SamePattern(m1[bot], m0[c])
    requires rest != [] && IsBits(rest) && st0[c] + j + |rest| == K && rest[0] != m0[c].prefix[j]
    ensures var m2 := m1[next := NewLeaf(rest, kh, cur, top)][top := WithSlot(m1[top], Slot(rest[0]), next)];
      var st2 := st1[next := End(m1, st1, top)];
      Sound(m2, st2, K, cur, next + 1) && Balanced(m2, st2, K) && Evolves(m0, m2, cur) && Extends(st0, st2) &&
      Slotted(m2[top], !Slot(rest[0])).Some?
  {
    var m2 := m1[next := NewLeaf(rest, kh, cur, top)][top := WithSlot(m1[top], Slot(rest[0]), next)];
    var st2 := st1[next := End(m1, st1, top)];
    LinkedAtOf(m0, st0, K, c);
    BalancedAtOf(m0, st0, K, c);
    assert Slot(rest[0]) != Slot(m0[c].prefix[j]);
    LeafUnderSplit(m1, st1, K, cur, next, top, rest, kh);
    StepWiden(m0, st0, m1, st1, cur, {top, bot}, {top, bot, next});
    StepWiden(m1, st1, m2, st2, cur, {next, top}, {top, bot, next});
    StepTrans(m0, st0, m1, st1, m2, st2, cur, {top, bot, next});
    SplitBalanced(m0, st0, m1, st1, m2, st2, K, c, j, top, bot, next);
    BalancedStep(m0, st0, m2, st2, K, cur, {top, bot, next});
  }

  /** The records SplitLeafStep makes or fills are balanced: top has two children, bot keeps c's, the leaf ends at K. */
  lemma SplitBalanced(m0: Store, st0: Offsets, m1: Store, st1: Offsets, m2: Store, st2: Offsets, K: nat,
                      c: Id, j: nat, top: Id, bot: Id, leaf: Id)
    requires c in m0 && c in st0 && BalancedAt(m0, st0, K, c) && 0 < j < |m0[c].prefix|
    requires bot in m1 && bot in st1 && m1[bot].prefix == m0[c].prefix[j..] && st1[bot] == st0[c] + j
    requires SamePattern(m1[bot], m0[c]) && Grows(m1, m2) && ShapeAt(m1, m2, bot) && Extends(st1, st2)
    requires top in m2 && top in st2 && m2[top].prefix != [] && m2[top].left.Some? && m2[top].right.Some?
    requires leaf in m2 && leaf in st2 && m2[leaf].left.None? && m2[leaf].right.None? && End(m2, st2, leaf) == K
    ensures BalancedAt(m2, st2, K, top) && BalancedAt(m2, st2, K, bot) && BalancedAt(m2, st2, K, leaf)
  {
  }
}
