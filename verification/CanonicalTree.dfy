// The abstract value of a tree: a map from indices to values, and the one tree that stands for it.
module CanonicalTree {
  import opened Words
  import opened NodeStore

  type Contents = map<uint256, uint256>

  datatype Tree = Empty | Leaf(index: uint256, value: uint256) | Middle(left: Tree, right: Tree)

  // The node a tree's root is stored as.
  function NodeOf(h: Hasher, t: Tree): Node {
    match t
    case Empty => EmptyNode
    case Leaf(i, v) => LeafNode(i, v)
    case Middle(l, r) => MiddleNode(NodeHash(h, NodeOf(h, l)), NodeHash(h, NodeOf(h, r)))
  }

  function RootHash(h: Hasher, t: Tree): uint256 {
    NodeHash(h, NodeOf(h, t))
  }

  // All non-empty nodes of a tree.
  ghost function NodesIn(h: Hasher, t: Tree): set<Node> {
    match t
    case Empty => {}
    case Leaf(i, v) => {LeafNode(i, v)}
    case Middle(l, r) => {NodeOf(h, t)} + NodesIn(h, l) + NodesIn(h, r)
  }

  function Height(t: Tree): nat {
    match t
    case Empty => 0
    case Leaf(_, _) => 0
    case Middle(l, r) => 1 + if Height(l) < Height(r) then Height(r) else Height(l)
  }

  // The entries whose index has the given bit at position d.
  ghost function Half(m: Contents, d: nat, bit: bool): Contents {
    map k | k in m && Bit(k, d) == bit :: m[k]
  }

  ghost predicate Plural(m: Contents) {
    exists i, j :: i in m && j in m && i != j
  }

  // The canonical tree of m below depth d: empty, a single leaf however high up, or a split on bit d.
  // (256-bit indices are told apart by bit 255, so the depth cap cuts nothing off.)
  ghost function Canon(m: Contents, d: nat): Tree
    decreases WORD_BITS - d
  {
    if m == map[] then Empty
    else if !Plural(m) then var k :| k in m; Leaf(k, m[k])
    else if d >= WORD_BITS then Empty
    else Middle(Canon(Half(m, d, false), d + 1), Canon(Half(m, d, true), d + 1))
  }

  // The hash the contract gives a map, from the Poseidon functions alone: 0 for no entry, the leaf digest for one, and
  // otherwise the digest of the two halves.
  ghost function CanonicalHash(h: Hasher, m: Contents, d: nat): uint256
    decreases WORD_BITS - d
  {
    if m == map[] then 0
    else if !Plural(m) then var k :| k in m; h.poseidon3(k, m[k], 1)
    else if d >= WORD_BITS then 0
    else h.poseidon2(CanonicalHash(h, Half(m, d, false), d + 1), CanonicalHash(h, Half(m, d, true), d + 1))
  }

  // No two indices of m share all the bits d..maxDepth-1.
  ghost predicate Fits(m: Contents, d: nat, maxDepth: nat) {
    forall i, j :: i in m && j in m && i != j ==> !Agree(i, j, d, maxDepth)
  }

  // ---------- maps ----------

  lemma {:induction false} OnlyEntry(m: Contents, k: uint256)
    requires !Plural(m) && k in m
    ensures m == map[k := m[k]]
  {
  }

  lemma {:induction false} HalfOfUpdate(m: Contents, i: uint256, v: uint256, d: nat)
    ensures Half(m[i := v], d, Bit(i, d)) == Half(m, d, Bit(i, d))[i := v]
    ensures Half(m[i := v], d, !Bit(i, d)) == Half(m, d, !Bit(i, d))
  {
  }

  lemma {:induction false} HalfFits(m: Contents, d: nat, bit: bool, maxDepth: nat)
    requires Fits(m, d, maxDepth)
    ensures Fits(Half(m, d, bit), d + 1, maxDepth)
  {
  }

  // A map that fits and has two entries still has a bit left to split on.
  lemma {:induction false} RoomToSplit(m: Contents, d: nat, maxDepth: nat)
    requires Plural(m) && Fits(m, d, maxDepth)
    ensures d < maxDepth
  {
    var i, j :| i in m && j in m && i != j;
    assert !Agree(i, j, d, maxDepth);
  }

  lemma {:induction false} CanonOfEmpty(d: nat)
    ensures Canon(map[], d) == Empty
  {
  }

  lemma {:induction false} CanonOfSingle(k: uint256, v: uint256, d: nat)
    ensures Canon(map[k := v], d) == Leaf(k, v)
  {
    assert k in map[k := v] && !Plural(map[k := v]);
  }

  lemma {:induction false} CanonOfFew(m: Contents, d: nat)
    requires !Plural(m)
    ensures !Canon(m, d).Middle?
    ensures Canon(m, d) == Empty <==> m == map[]
    ensures forall k :: k in m ==> Canon(m, d) == Leaf(k, m[k])
  {
    hide Canon;
    if m == map[] {
      CanonOfEmpty(d);
    } else {
      var k :| k in m;
      OnlyEntry(m, k);
      CanonOfSingle(k, m[k], d);
    }
  }

  lemma {:induction false} CanonOfLarger(m: Contents, d: nat)
    requires Plural(m) && d < WORD_BITS
    ensures Canon(m, d) == Middle(Canon(Half(m, d, false), d + 1), Canon(Half(m, d, true), d + 1))
  {
  }

  // The root of the canonical tree hashes to the canonical hash.
  lemma {:induction false} RootHashIsCanonicalHash(h: Hasher, m: Contents, d: nat)
    ensures RootHash(h, Canon(m, d)) == CanonicalHash(h, m, d)
    decreases WORD_BITS - d
  {
    hide Half, Bit;
    if m != map[] && !Plural(m) {
      var k :| k in m;
      CanonOfFew(m, d);
      OneEntryHash(h, m, d, k);
    } else if m != map[] && d < WORD_BITS {
      RootHashIsCanonicalHash(h, Half(m, d, false), d + 1);
      RootHashIsCanonicalHash(h, Half(m, d, true), d + 1);
    }
  }

  lemma {:induction false} OneEntryHash(h: Hasher, m: Contents, d: nat, k: uint256)
    requires !Plural(m) && k in m
    ensures CanonicalHash(h, m, d) == h.poseidon3(k, m[k], 1)
  {
  }

  // Any map over 256-bit indices fits the full depth.
  lemma {:induction false} EverythingFitsFullDepth(m: Contents)
    ensures Fits(m, 0, WORD_BITS)
  {
    forall i, j | i in m && j in m && i != j
      ensures !Agree(i, j, 0, WORD_BITS)
    {
      if Agree(i, j, 0, WORD_BITS) {
        WordsWithSameBitsAreEqual(i, j);
      }
    }
  }

  lemma {:induction false} FitsDeeper(m: Contents, sub: Contents, d: nat, maxDepth: nat, deeper: nat)
    requires Fits(m, d, maxDepth) && maxDepth <= deeper && sub.Keys <= m.Keys
    ensures Fits(sub, d, deeper)
  {
    forall i, j | i in sub && j in sub && i != j
      ensures !Agree(i, j, d, deeper)
    {
      if Agree(i, j, d, deeper) {
        AgreeShorter(i, j, d, maxDepth, deeper);
      }
    }
  }

  // ---------- shape ----------

  // What the tree says an index maps to, read off leaf by leaf.
  ghost function ContentsOf(t: Tree): Contents {
    match t
    case Empty => map[]
    case Leaf(i, v) => map[i := v]
    case Middle(l, r) => ContentsOf(l) + ContentsOf(r)
  }

  // A tree at depth d whose leaves lie on the path of their own bits, whose middle nodes each have two
  // leaves or more beneath them and lie above maxDepth, and whose leaves lie no deeper than maxDepth.
  ghost predicate WellShaped(t: Tree, d: nat, maxDepth: nat) {
    match t
    case Empty => true
    case Leaf(_, _) => d <= maxDepth
    case Middle(l, r) =>
      && d < maxDepth
      && Plural(ContentsOf(t))
      && (forall k :: k in ContentsOf(l) ==> !Bit(k, d))
      && (forall k :: k in ContentsOf(r) ==> Bit(k, d))
      && WellShaped(l, d + 1, maxDepth)
      && WellShaped(r, d + 1, maxDepth)
  }

  lemma {:induction false} JoinIsWellShaped(m: Contents, l: Tree, r: Tree, d: nat, maxDepth: nat)
    requires Plural(m) && d < maxDepth
    requires WellShaped(l, d + 1, maxDepth) && WellShaped(r, d + 1, maxDepth)
    requires ContentsOf(l) == Half(m, d, false) && ContentsOf(r) == Half(m, d, true)
    ensures WellShaped(Middle(l, r), d, maxDepth)
    ensures ContentsOf(Middle(l, r)) == m
  {
    assert Half(m, d, false) + Half(m, d, true) == m;
  }

  lemma {:induction false} CanonIsWellShaped(m: Contents, d: nat, maxDepth: nat)
    requires Fits(m, d, maxDepth) && d <= maxDepth <= WORD_BITS
    ensures WellShaped(Canon(m, d), d, maxDepth)
    ensures ContentsOf(Canon(m, d)) == m
    decreases maxDepth - d
  {
    hide Half, Bit, Plural;
    if m == map[] {
    } else if !Plural(m) {
      var k :| k in m;
      OnlyEntry(m, k);
      CanonOfSingle(k, m[k], d);
    } else {
      RoomToSplit(m, d, maxDepth);
      CanonOfLarger(m, d);
      HalfFits(m, d, false, maxDepth);
      HalfFits(m, d, true, maxDepth);
      var a, b := Half(m, d, false), Half(m, d, true);
      CanonIsWellShaped(a, d + 1, maxDepth);
      CanonIsWellShaped(b, d + 1, maxDepth);
      JoinIsWellShaped(m, Canon(a, d + 1), Canon(b, d + 1), d, maxDepth);
    }
  }

  lemma {:induction false} HalvesOfJoin(l: Tree, r: Tree, d: nat, maxDepth: nat)
    requires WellShaped(Middle(l, r), d, maxDepth)
    ensures Half(ContentsOf(Middle(l, r)), d, false) == ContentsOf(l)
    ensures Half(ContentsOf(Middle(l, r)), d, true) == ContentsOf(r)
  {
  }

  // The canonical tree is the only well-shaped tree with its contents.
  lemma {:induction false} WellShapedIsCanon(t: Tree, m: Contents, d: nat, maxDepth: nat)
    requires WellShaped(t, d, maxDepth) && maxDepth <= WORD_BITS && ContentsOf(t) == m
    ensures t == Canon(m, d)
  {
    hide Half, Bit, Plural;
    match t
    case Empty =>
    case Leaf(i, v) =>
      CanonOfSingle(i, v, d);
    case Middle(l, r) =>
      HalvesOfJoin(l, r, d, maxDepth);
      WellShapedIsCanon(l, Half(m, d, false), d + 1, maxDepth);
      WellShapedIsCanon(r, Half(m, d, true), d + 1, maxDepth);
      CanonOfLarger(m, d);
  }

  // For every map over 256-bit indices there is one well-shaped tree, the canonical one.
  lemma {:induction false} CanonIsTheOnlyTree(m: Contents, t: Tree)
    ensures WellShaped(t, 0, WORD_BITS) && ContentsOf(t) == m <==> t == Canon(m, 0)
  {
    hide Canon, WellShaped, ContentsOf, Fits;
    EverythingFitsFullDepth(m);
    CanonIsWellShaped(m, 0, WORD_BITS);
    if WellShaped(t, 0, WORD_BITS) && ContentsOf(t) == m {
      WellShapedIsCanon(t, m, 0, WORD_BITS);
    }
  }

  // ---------- trees in a store ----------

  lemma {:induction false} RootIsInNodes(h: Hasher, t: Tree)
    ensures t != Empty ==> NodeOf(h, t) in NodesIn(h, t)
  {
  }

  // The store gives back the root of every tree it holds.
  lemma {:induction false} LookupRoot(h: Hasher, store: Store, t: Tree)
    requires Sound(h, store) && 0 !in store && NodesIn(h, t) <= store.Values
    ensures GetNode(store, RootHash(h, t)) == NodeOf(h, t)
    ensures RootHash(h, t) == 0 <==> t == Empty
  {
    RootIsInNodes(h, t);
    if t != Empty {
      SoundLookup(h, store, NodeOf(h, t));
    }
  }

  // Within one store a hash stands for one tree, with no assumption on the hash functions.
  lemma {:induction false} SameHashSameTree(h: Hasher, store: Store, t: Tree, u: Tree)
    requires Sound(h, store) && 0 !in store
    requires NodesIn(h, t) <= store.Values && NodesIn(h, u) <= store.Values
    requires RootHash(h, t) == RootHash(h, u)
    ensures t == u
  {
    LookupRoot(h, store, t);
    LookupRoot(h, store, u);
    if t.Middle? {
      SameHashSameTree(h, store, t.left, u.left);
      SameHashSameTree(h, store, t.right, u.right);
    }
  }
}
