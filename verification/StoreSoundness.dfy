// The store as a graph: which links fall, when there is no cycle, and what slot 0 has to do with it.
module StoreSoundness {
  import opened Words
  import opened Outcomes
  import opened NodeStore
  import opened CanonicalTree
  import opened LeafInsertion
  import opened MembershipProof
  import opened RootLog
  import opened SmtState
  import opened Invariant
  import opened Reachability
  import opened Updates
  import opened History

  // The tree below a node of a well-shaped tree.
  lemma {:induction false} SubtreeOfNode(h: Hasher, t: Tree, node: Node, d: nat, maxDepth: nat)
    returns (u: Tree, e: nat)
    requires node in NodesIn(h, t) && WellShaped(t, d, maxDepth)
    ensures u != Empty && NodeOf(h, u) == node && NodesIn(h, u) <= NodesIn(h, t) && WellShaped(u, e, maxDepth)
  {
    hide Bit, Plural, ContentsOf;
    if node == NodeOf(h, t) {
      u, e := t, d;
    } else if node in NodesIn(h, t.left) {
      u, e := SubtreeOfNode(h, t.left, node, d + 1, maxDepth);
    } else {
      u, e := SubtreeOfNode(h, t.right, node, d + 1, maxDepth);
    }
  }

  lemma {:induction false} VersionWithNode(h: Hasher, writes: seq<Write>, node: Node) returns (k: nat)
    requires node in NodesOfAllVersions(h, writes)
    ensures k <= |writes| && node in NodesIn(h, Version(writes, k))
  {
    hide Canon, MapAfter, NodesIn;
    var before := writes[..|writes| - 1];
    assert writes[..|writes|] == writes;
    if node in NodesOfAllVersions(h, before) {
      k := VersionWithNode(h, before, node);
      assert before[..k] == writes[..k];
    } else {
      k := |writes|;
    }
  }

  // ---------- children and ranks ----------

  ghost predicate StandsFor(h: Hasher, store: Store, nodeHash: uint256, t: Tree) {
    NodesIn(h, t) <= store.Values && RootHash(h, t) == nodeHash
  }

  // The height of the tree a hash stands for.
  ghost function Rank(h: Hasher, store: Store, nodeHash: uint256): nat {
    if t :| StandsFor(h, store, nodeHash, t) then Height(t) else 0
  }

  lemma {:induction false} RankIsHeight(h: Hasher, store: Store, t: Tree)
    requires Sound(h, store) && 0 !in store && NodesIn(h, t) <= store.Values
    ensures Rank(h, store, RootHash(h, t)) == Height(t)
  {
    hide NodesIn, RootHash, Sound;
    assert StandsFor(h, store, RootHash(h, t), t);
    forall u | StandsFor(h, store, RootHash(h, t), u)
      ensures u == t
    {
      SameHashSameTree(h, store, t, u);
    }
  }

  // In a clean run the rank of a node can be taken to be the height of its tree, which the depth bounds.
  lemma {:induction false} RankIsBoundedByDepth(h: Hasher, w: World, writes: seq<Write>, k: uint256)
    requires ReachedClean(h, w, writes) && k in w.data.nodes
    ensures var store := w.data.nodes;
            && store[k] != EmptyNode && NodeHash(h, store[k]) == k
            && Rank(h, store, k) <= w.data.maxDepth
            && (store[k].MiddleNode? ==>
                  forall c :: c in {store[k].childLeft, store[k].childRight} && c != 0 ==>
                    c in store && Rank(h, store, c) < Rank(h, store, k))
  {
    hide Reached, Canon, MapAfter, Fits, IndexAgrees, Rank, WellShaped, NodesOfAllVersions;
    var store := w.data.nodes;
    ReachedIsInvariant(h, w, writes);
    assert store[k] in store.Values;
    var n := VersionWithNode(h, writes, store[k]);
    VersionOfEntry(h, w, writes, n);
    VersionsAreWellShaped(h, w, writes, n);
    var u, e := SubtreeOfNode(h, Version(writes, n), store[k], 0, w.data.maxDepth);
    HeightIsBounded(u, e, w.data.maxDepth);
    RankIsHeight(h, store, u);
    if u.Middle? {
      RankIsHeight(h, store, u.left);
      RankIsHeight(h, store, u.right);
      LookupRoot(h, store, u.left);
      LookupRoot(h, store, u.right);
    }
  }

  lemma {:induction false} HeightIsBounded(t: Tree, d: nat, maxDepth: nat)
    requires WellShaped(t, d, maxDepth)
    ensures t == Empty || d + Height(t) <= maxDepth
  {
    hide Bit, Plural, ContentsOf;
    if t.Middle? {
      HeightIsBounded(t.left, d + 1, maxDepth);
      HeightIsBounded(t.right, d + 1, maxDepth);
    }
  }

  // In the store of every run, with nothing assumed about the hashes, each node sits under its own hash, each non-zero
  // child is present, and some rank falls along every non-zero link.
  lemma {:induction false} NonZeroLinksFall(h: Hasher, w: World, writes: seq<Write>)
    requires Reached(h, w, writes)
    ensures var store := w.data.nodes;
            && (forall k :: k in store ==> store[k] != EmptyNode && NodeHash(h, store[k]) == k)
            && exists rank: map<uint256, nat> {:trigger Ranked(store, rank)} ::
                 rank.Keys == store.Keys &&
                 forall k, c :: k in store && store[k].MiddleNode? &&
                                (c == store[k].childLeft || c == store[k].childRight) && c != 0 ==>
                   c in store && rank[c] < rank[k]
  {
    hide Reached;
    ReachedIsLinked(h, w, writes);
    var rank :| Ranked(w.data.nodes, rank);
  }

  ghost predicate Falls(store: Store, rank: map<uint256, nat>, child: uint256, bound: nat) {
    child in store ==> child in rank && rank[child] < bound
  }

  // A rank that falls along every link the walks follow: those with child 0 too, when a node is stored in slot 0.
  ghost predicate AllLinksFall(store: Store, rank: map<uint256, nat>) {
    && rank.Keys == store.Keys
    && forall k :: k in store && store[k].MiddleNode? ==>
         Falls(store, rank, store[k].childLeft, rank[k]) && Falls(store, rank, store[k].childRight, rank[k])
  }

  // A set of stored nodes with everything below them, in which no node has a link to 0.
  ghost predicate ZeroFree(store: Store, s: set<uint256>) {
    && s <= store.Keys
    && forall k :: k in s && store[k].MiddleNode? ==>
         store[k].childLeft != 0 && store[k].childRight != 0 && store[k].childLeft in s && store[k].childRight in s
  }

  // The store has no cycle at all if and only if slot 0 is EMPTY or nothing below it leads back to it.
  lemma {:induction false} StoreIsAcyclic(h: Hasher, w: World, writes: seq<Write>)
    requires Reached(h, w, writes)
    ensures (exists rank :: AllLinksFall(w.data.nodes, rank)) <==>
            0 !in w.data.nodes || exists s :: ZeroFree(w.data.nodes, s) && 0 in s
  {
    hide Reached, Ranked, AllLinksFall, ZeroFree;
    var store := w.data.nodes;
    ReachedIsLinked(h, w, writes);
    var rank :| Ranked(store, rank);
    if 0 !in store {
      RankedFalls(store, rank);
    } else if s :| ZeroFree(store, s) && 0 in s {
      var lifted := LiftOutside(store, rank, s);
    } else if falling :| AllLinksFall(store, falling) {
      var s := NodesBelow(store, rank, falling, 0);
    }
  }

  lemma {:induction false} RankedFalls(store: Store, rank: map<uint256, nat>)
    requires Ranked(store, rank) && 0 !in store
    ensures AllLinksFall(store, rank)
  {
  }

  // Lifting all nodes outside s above those in s lets the links to slot 0 fall as well.
  lemma {:induction false} LiftOutside(store: Store, rank: map<uint256, nat>, s: set<uint256>)
    returns (lifted: map<uint256, nat>)
    requires Ranked(store, rank) && ZeroFree(store, s) && 0 in s
    ensures AllLinksFall(store, lifted)
  {
    lifted := map k | k in rank :: if k in s then rank[k] else rank[k] + |store|;
    forall k | k in store && store[k].MiddleNode?
      ensures Falls(store, lifted, store[k].childLeft, lifted[k])
      ensures Falls(store, lifted, store[k].childRight, lifted[k])
    {
      assert Below(rank, store[k].childLeft, rank[k]) && Below(rank, store[k].childRight, rank[k]);
    }
  }

  // All nodes from k down; when all links fall, none that is ranked no higher than slot 0 links to it.
  lemma {:induction false} NodesBelow(store: Store, rank: map<uint256, nat>, falling: map<uint256, nat>, k: uint256)
    returns (s: set<uint256>)
    requires Ranked(store, rank) && AllLinksFall(store, falling)
    requires 0 in store && k in store && falling[k] <= falling[0]
    ensures ZeroFree(store, s) && k in s
    decreases falling[k]
  {
    s := {k};
    match store[k]
    case MiddleNode(left, right) =>
      assert Below(rank, left, rank[k]) && Below(rank, right, rank[k]);
      assert Falls(store, falling, left, falling[k]) && Falls(store, falling, right, falling[k]);
      var below := NodesBelow(store, rank, falling, left);
      var besides := NodesBelow(store, rank, falling, right);
      s := {k} + below + besides;
    case _ =>
  }

  // ---------- slot 0 ----------

  ghost predicate Kept(h: Hasher, store: Store, t: Tree) {
    forall node :: node in NodesIn(h, t) ==> GetNode(store, NodeHash(h, node)) == node
  }

  // A non-empty tree that the hash 0, meant for EMPTY, leads into.
  ghost predicate HauntsZero(h: Hasher, d: Data, t: Tree, e: nat) {
    t != Empty && RootHash(h, t) == 0 && Kept(h, d.nodes, t) && WellShaped(t, e, d.maxDepth)
  }

  lemma {:induction false} WellShapedDeeper(t: Tree, d: nat, maxDepth: nat, deeper: nat)
    requires WellShaped(t, d, maxDepth) && maxDepth <= deeper
    ensures WellShaped(t, d, deeper)
  {
    hide Bit, Plural, ContentsOf;
    if t.Middle? {
      WellShapedDeeper(t.left, d + 1, maxDepth, deeper);
      WellShapedDeeper(t.right, d + 1, maxDepth, deeper);
    }
  }

  lemma {:induction false} HauntingLasts(h: Hasher, d: Data, after: Data, t: Tree, e: nat)
    requires HauntsZero(h, d, t, e) && d.maxDepth <= after.maxDepth && EmptyNode !in NodesIn(h, t)
    requires forall k :: k in d.nodes ==> k in after.nodes && after.nodes[k] == d.nodes[k]
    ensures HauntsZero(h, after, t, e)
  {
    hide WellShaped, RootHash, NodesIn;
    WellShapedDeeper(t, e, d.maxDepth, after.maxDepth);
  }

  lemma {:induction false} NoEmptyInTree(h: Hasher, t: Tree)
    ensures EmptyNode !in NodesIn(h, t)
  {
    if t.Middle? {
      NoEmptyInTree(h, t.left);
      NoEmptyInTree(h, t.right);
    }
  }

  // The write that first takes slot 0 puts a whole tree behind it.
  lemma {:induction false} FirstHaunting(h: Hasher, w: World, writes: seq<Write>, i: uint256, v: uint256)
    returns (t: Tree, e: nat)
    requires ReachedClean(h, w, writes)
    requires Execute(h, w, CallAddLeaf(i, v)).Ok? && 0 in Execute(h, w, CallAddLeaf(i, v)).value.data.nodes
    ensures HauntsZero(h, Execute(h, w, CallAddLeaf(i, v)).value.data, t, e)
  {
    hide Reached, AddLeaf, Canon, MapAfter, IndexAgrees, WellShaped, CollisionFree, Bit, Pow2, Fits;
    var m := MapAfter(writes);
    var after := Execute(h, w, CallAddLeaf(i, v)).value.data;
    var full := Canon(m[i := v], 0);
    AddLeafOutcome(h, w, writes, i, v);
    ReachedIsInvariant(h, w, writes);
    UpdateFits(m, i, v, 0, w.data.maxDepth);
    ClashIsCrowding(m, i, w.data.maxDepth);
    CanonIsWellShaped(m[i := v], 0, w.data.maxDepth);
    var node := after.nodes[0];
    assert node in after.nodes.Values;
    SoundLookup(h, w.data.nodes, node);
    t, e := SubtreeOfNode(h, full, node, 0, w.data.maxDepth);
    KeptInSound(h, after.nodes, t);
  }

  lemma {:induction false} KeptInSound(h: Hasher, store: Store, t: Tree)
    requires Sound(h, store) && NodesIn(h, t) <= store.Values
    ensures Kept(h, store, t)
  {
    hide NodesIn, Sound;
    forall node | node in NodesIn(h, t)
      ensures GetNode(store, NodeHash(h, node)) == node
    {
      SoundLookup(h, store, node);
    }
  }

  lemma {:induction false} TakenZeroIsHaunted(h: Hasher, timestamp: nat, blockNumber: nat, calls: seq<Call>)
    returns (t: Tree, e: nat)
    requires 0 in Run(h, Deployed(timestamp, blockNumber), calls).data.nodes
    ensures HauntsZero(h, Run(h, Deployed(timestamp, blockNumber), calls).data, t, e)
  {
    hide Execute, HauntsZero;
    var start := Deployed(timestamp, blockNumber);
    var before, c := calls[..|calls| - 1], calls[|calls| - 1];
    var w, writes := Run(h, start, before), Writes(h, start, before);
    assert Reached(h, w, writes);
    if 0 in w.data.nodes {
      t, e := TakenZeroIsHaunted(h, timestamp, blockNumber, before);
      StepKeepsNodes(h, w, writes, c);
      NoEmptyInTree(h, t);
      HauntingLasts(h, w.data, Step(h, w, c).data, t, e);
    } else {
      OnlyAddLeafWritesNodes(h, w, c);
      t, e := FirstHaunting(h, w, writes, c.index, c.value);
    }
  }

  lemma {:induction false} OnlyAddLeafWritesNodes(h: Hasher, w: World, c: Call)
    requires Step(h, w, c).data.nodes != w.data.nodes
    ensures c.CallAddLeaf? && Execute(h, w, c).Ok?
  {
  }

  // An index whose bits, read from position 0, lead from the top of t to one of its leaves.
  function LeafPath(t: Tree): nat {
    match t
    case Middle(l, r) => if l != Empty then 2 * LeafPath(l) else 2 * LeafPath(r) + 1
    case _ => 0
  }

  lemma {:induction false} Pow2Grows(n: nat, m: nat)
    requires n <= m
    ensures Pow2(n) <= Pow2(m)
    decreases m - n
  {
    if n < m {
      Pow2Grows(n, m - 1);
    }
  }

  lemma {:induction false} LeafPathIsShort(t: Tree)
    ensures LeafPath(t) < Pow2(Height(t))
  {
    if t.Middle? {
      var next := if t.left != Empty then t.left else t.right;
      LeafPathIsShort(next);
      Pow2Grows(Height(next), Height(t) - 1);
    }
  }

  lemma {:induction false} SomeChildIsNotEmpty(l: Tree, r: Tree, d: nat, maxDepth: nat)
    requires WellShaped(Middle(l, r), d, maxDepth)
    ensures l != Empty || r != Empty
  {
  }

  lemma {:induction false} LeafPathFindsLeaf(h: Hasher, store: Store, maxDepth: nat, t: Tree, e: nat,
                                             index: uint256, depth: nat)
    requires t != Empty && Kept(h, store, t) && WellShaped(t, e, maxDepth) && depth + Height(t) <= maxDepth
    requires forall k: nat :: Bit(index, depth + k) == Bit(LeafPath(t), k)
    ensures var r := Descend(store, maxDepth, index, RootHash(h, t), depth);
            r.Ok? && r.value.terminal.LeafNode?
  {
    hide Plural, ContentsOf;
    RootIsInNodes(h, t);
    if t.Middle? {
      var next := if t.left != Empty then t.left else t.right;
      assert next != Empty by { SomeChildIsNotEmpty(t.left, t.right, e, maxDepth); }
      var path := LeafPath(t);
      assert path / 2 == LeafPath(next) && (path % 2 == 1 <==> t.left == Empty);
      assert Bit(index, depth + 0) == Bit(path, 0);
      forall k: nat
        ensures Bit(index, depth + 1 + k) == Bit(LeafPath(next), k)
      {
        assert Bit(index, depth + (k + 1)) == Bit(path, k + 1);
      }
      LeafPathFindsLeaf(h, store, maxDepth, next, e + 1, index, depth + 1);
    }
  }

  // The tree as it was before any write still denies every index.
  ghost predicate EmptyVersionDeniesAll(d: Data) {
    forall index: uint256 ::
      var r := GetProofByRoot(d, index, 0);
      r.Ok? && !r.value.existence && !r.value.auxExistence
  }

  // The hypothesis of a clean run is exact: version 0 stays empty if and only if slot 0 does.
  lemma {:induction false} EmptyVersionNeedsEmptySlot(h: Hasher, w: World, writes: seq<Write>)
    requires Reached(h, w, writes) && w.data.initialized
    ensures EmptyVersionDeniesAll(w.data) <==> 0 !in w.data.nodes
  {
    hide Run, Writes, GetProofByRoot, HauntsZero, Deployed;
    if 0 in w.data.nodes {
      var timestamp, blockNumber, calls :| w == Run(h, Deployed(timestamp, blockNumber), calls);
      var t, e := TakenZeroIsHaunted(h, timestamp, blockNumber, calls);
      var index := HauntedAnswer(h, w, writes, t, e);
    } else {
      forall index: uint256
        ensures var r := GetProofByRoot(w.data, index, 0); r.Ok? && !r.value.existence && !r.value.auxExistence
      {
        ReachedIsInvariant(h, w, writes);
        ProofOfEveryVersion(h, w, writes, 0, index);
      }
    }
  }

  lemma {:induction false} HauntedAnswer(h: Hasher, w: World, writes: seq<Write>, t: Tree, e: nat)
    returns (index: uint256)
    requires Reached(h, w, writes) && HauntsZero(h, w.data, t, e) && w.data.initialized
    ensures var r := GetProofByRoot(w.data, index, 0); !(r.Ok? && !r.value.existence && !r.value.auxExistence)
  {
    hide Reached, WellShaped, Bit, Pow2, Kept, NodesIn, RootHash, IndexAgrees, MapAfter;
    var d := w.data;
    ReachedIsInvariant(h, w, writes);
    HeightIsBounded(t, e, d.maxDepth);
    LeafPathIsShort(t);
    var bits: nat := WORD_BITS;
    Pow2Grows(Height(t), bits);
    Pow2OfWordBits(bits);
    index := LeafPath(t);
    LeafPathFindsLeaf(h, d.nodes, d.maxDepth, t, e, index, 0);
  }

  // The same for a question about a time or block before the first write: all such answers are negative if and only
  // if slot 0 is EMPTY.
  lemma {:induction false} TimesBeforeWritesNeedEmptySlot(h: Hasher, w: World, writes: seq<Write>,
                                                          value: nat, st: SearchType)
    requires Reached(h, w, writes) && w.data.initialized && value <= Now(w, st)
    requires writes != [] ==> value < WrittenAt(writes[0], st)
    ensures (forall index: uint256 ::
               var r := GetProofBy(w, index, value, st); r.Ok? && !r.value.existence && !r.value.auxExistence)
       <==> 0 !in w.data.nodes
  {
    hide Reached, GetProofByRoot, IndexAgrees, LatestAtOrBefore;
    LookupFindsCurrentEntry(h, w, writes, value, st);
    LogIsSorted(h, w, writes, st);
    ReachedIsInvariant(h, w, writes);
    EmptyVersionNeedsEmptySlot(h, w, writes);
    assert LatestAtOrBefore(w.data.rootEntries, value, st).0 == 0;
    forall index: uint256
      ensures GetProofBy(w, index, value, st) == GetProofByRoot(w.data, index, 0)
    {
    }
  }

  const LEAVES_TO_ZERO: Hasher := Hasher((l, r) => 1, (i, v, one) => 0)

  lemma {:induction false} SetUpAtTimeTen(h: Hasher, calls: seq<Call>)
    requires calls == [CallInitialize(1), Tick(10, 1)]
    ensures Run(h, Deployed(0, 0), calls) == World(Data(map[], [RootEntry(0, 0, 0)], map[0 := [0]], 1, true), 10, 1)
    ensures Writes(h, Deployed(0, 0), calls) == []
  {
    var w := World(Data(map[], [RootEntry(0, 0, 0)], map[0 := [0]], 1, true), 0, 0);
    var none: seq<nat> := [];
    assert [] + [RootEntry(0, 0, 0)] == [RootEntry(0, 0, 0)] && none + [0] == [0];
    assert Step(h, Deployed(0, 0), CallInitialize(1)) == w;
    assert calls[..1] == [CallInitialize(1)] && calls[..1][..0] == [];
    assert Run(h, Deployed(0, 0), calls[..1]) == w && Writes(h, Deployed(0, 0), calls[..1]) == [];
  }

  // A hasher that maps every leaf to 0 loses the past: the value written at time 10 already answers at time 0.
  lemma {:induction false} ZeroHashRewritesThePast(calls: seq<Call>)
    requires calls == [CallInitialize(1), Tick(10, 1), CallAddLeaf(5, 7)]
    ensures Writes(LEAVES_TO_ZERO, Deployed(0, 0), calls) == [Write(5, 7, 10, 1)]
    ensures var answer := GetProofBy(Run(LEAVES_TO_ZERO, Deployed(0, 0), calls), 5, 0, Timestamp);
            answer.Ok? && answer.value.existence
  {
    var h := LEAVES_TO_ZERO;
    var before := calls[..2];
    SetUpAtTimeTen(h, before);
    var w := Run(h, Deployed(0, 0), before);
    assert Run(h, Deployed(0, 0), calls) == Step(h, w, CallAddLeaf(5, 7));
    var after := Step(h, w, CallAddLeaf(5, 7)).data;
    assert after.nodes == map[0 := LeafNode(5, 7)];
    assert after.rootEntries == [RootEntry(0, 0, 0), RootEntry(0, 10, 1)];
    assert after.rootEntries[..1] == [RootEntry(0, 0, 0)];
    assert LatestAtOrBefore(after.rootEntries, 0, Timestamp) == (0, true);
    assert GetRootInfoAt(after, 0, Timestamp) == Ok(RootEntryInfo(0, 0, 0, 10, 0, 1));
    assert IndexesOf(after.rootIndexes, 0) == [0] + [1];
    assert Descend(after.nodes, after.maxDepth, 5, 0, 0) == Ok(Descent([], LeafNode(5, 7)));
    assert GetProofByRoot(after, 5, 0).Ok? && GetProofByRoot(after, 5, 0).value.existence;
    assert GetProofBy(Run(h, Deployed(0, 0), calls), 5, 0, Timestamp) == GetProofByRoot(after, 5, 0);
  }

  // Two leaves get the hashes 5 and 6, the node above them 7, and any other middle node 0.
  const MIDDLES_TO_ZERO: Hasher :=
    Hasher((l, r) => if l == 5 && r == 6 then 7 else 0, (i, v, one) => if i == 0 then 5 else 6)

  lemma {:induction false} FirstLeafOfTwo(calls: seq<Call>)
    requires calls == [CallInitialize(2), CallAddLeaf(0, 1)]
    ensures var d := Run(MIDDLES_TO_ZERO, Deployed(0, 0), calls).data;
            && d.initialized && d.maxDepth == 2 && d.nodes == map[5 := LeafNode(0, 1)]
            && d.rootEntries == [RootEntry(0, 0, 0), RootEntry(5, 0, 0)]
            && 0 in d.rootIndexes && d.rootIndexes[0] == [0]
  {
    var h, start := MIDDLES_TO_ZERO, Deployed(0, 0);
    assert calls[..1] == [CallInitialize(2)] && calls[..1][..0] == [];
    var w := Step(h, start, CallInitialize(2));
    assert Run(h, start, calls[..1]) == w;
    assert w.data.nodes == map[] && w.data.rootEntries == [RootEntry(0, 0, 0)] && w.data.rootIndexes[0] == [0];
    var after := Step(h, w, CallAddLeaf(0, 1)).data;
    assert after.nodes == map[5 := LeafNode(0, 1)];
  }

  // A run in which slot 0 becomes its own right child: no rank falls along that link, and a proof against root 0 walks
  // round it until it runs off the sibling array.
  lemma {:induction false} ZeroHashClosesACycle(calls: seq<Call>)
    requires calls == [CallInitialize(2), CallAddLeaf(0, 1), CallAddLeaf(2, 1)]
    ensures var d := Run(MIDDLES_TO_ZERO, Deployed(0, 0), calls).data;
            && 0 in d.nodes && d.nodes[0] == MiddleNode(7, 0)
            && (forall rank :: !AllLinksFall(d.nodes, rank))
            && GetProofByRoot(d, 3, 0) == Reverted(SiblingsOutOfBounds)
  {
    var h, start := MIDDLES_TO_ZERO, Deployed(0, 0);
    var before := calls[..2];
    FirstLeafOfTwo(before);
    var w := Run(h, start, before);
    assert Run(h, start, calls) == Step(h, w, CallAddLeaf(2, 1));
    var one := map[5 := LeafNode(0, 1)];
    var two := one[6 := LeafNode(2, 1)];
    var three := two[7 := MiddleNode(5, 6)];
    assert PushLeaf(h, one, 2, LeafNode(2, 1), LeafNode(0, 1), 1) == Ok((three, 7));
    assert PushLeaf(h, one, 2, LeafNode(2, 1), LeafNode(0, 1), 0) == Ok((three[0 := MiddleNode(7, 0)], 0));
    var d := Step(h, w, CallAddLeaf(2, 1)).data;
    assert d.nodes == three[0 := MiddleNode(7, 0)];
    assert Descend(d.nodes, 2, 3, 0, 2) == Reverted(SiblingsOutOfBounds);
    assert Descend(d.nodes, 2, 3, 0, 1) == Reverted(SiblingsOutOfBounds);
    assert RootExists(d, 0);
  }

  // ---------- setMaxDepth is open before initialize ----------

  // Raising the depth to the cap before initialize locks the tree out for good: initialize has no depth left to take.
  lemma {:induction false} CapBeforeInitializeLocksOut(h: Hasher, w: World, more: seq<Call>)
    requires !w.data.initialized && w.data.maxDepth == MAX_DEPTH_HARD_CAP
    ensures !Run(h, w, more).data.initialized && Run(h, w, more).data.maxDepth == MAX_DEPTH_HARD_CAP
    ensures Writes(h, w, more) == []
  {
    if more != [] {
      CapBeforeInitializeLocksOut(h, w, more[..|more| - 1]);
    }
  }

  lemma {:induction false} InitializeBelowCap(h: Hasher, w: World) returns (more: seq<Call>)
    requires w.data.initialized || w.data.maxDepth < MAX_DEPTH_HARD_CAP
    ensures Run(h, w, more).data.initialized
  {
    if w.data.initialized {
      more := [];
    } else {
      more := [CallInitialize(MAX_DEPTH_HARD_CAP)];
      assert more[..0] == [];
      assert Run(h, w, more) == Step(h, w, more[0]);
    }
  }

  // A tree is initialized by now or by some further calls if and only if it is already, or its depth is below the cap.
  lemma {:induction false} InitializableBelowCap(h: Hasher, w: World, writes: seq<Write>)
    requires Reached(h, w, writes)
    ensures (exists more :: Run(h, w, more).data.initialized) <==>
            w.data.initialized || w.data.maxDepth < MAX_DEPTH_HARD_CAP
  {
    hide Reached, Run, IndexAgrees;
    ReachedIsInvariant(h, w, writes);
    if w.data.initialized || w.data.maxDepth < MAX_DEPTH_HARD_CAP {
      var more := InitializeBelowCap(h, w);
    } else {
      forall more
        ensures !Run(h, w, more).data.initialized
      {
        CapBeforeInitializeLocksOut(h, w, more);
      }
    }
  }

  // One call on a fresh tree is enough to lock it out.
  lemma {:induction false} OneCallLocksOut(h: Hasher, timestamp: nat, blockNumber: nat,
                                           calls: seq<Call>, more: seq<Call>)
    requires calls == [CallSetMaxDepth(MAX_DEPTH_HARD_CAP)]
    ensures var w := Run(h, Deployed(timestamp, blockNumber), calls);
            && w.data == ZEROED.(maxDepth := MAX_DEPTH_HARD_CAP)
            && !Run(h, w, more).data.initialized
  {
    var start := Deployed(timestamp, blockNumber);
    assert calls[..0] == [];
    assert Run(h, start, calls) == Step(h, start, calls[0]);
    CapBeforeInitializeLocksOut(h, Run(h, start, calls), more);
  }
}
