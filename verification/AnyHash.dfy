// What the walks do on every store and every hasher, slot 0 taken or not.
module AnyHash {
  import opened Words
  import opened Outcomes
  import opened NodeStore
  import opened LeafInsertion
  import opened MembershipProof
  import opened RootLog
  import opened SmtState
  import opened Invariant
  import opened Reachability
  import opened History

  // ---------- the walk of a proof ----------

  // From hashes[k], a stored middle node, the walk at depth d + k goes on to hashes[k + 1], past the given sibling.
  ghost predicate LinkFollowed(store: Store, index: uint256, d: nat, hashes: seq<uint256>, k: nat, sibling: uint256)
    requires k + 1 < |hashes|
  {
    && GetNode(store, hashes[k]).MiddleNode?
    && GetNode(store, hashes[k]) ==
       if Bit(index, d + k) then MiddleNode(sibling, hashes[k + 1]) else MiddleNode(hashes[k + 1], sibling)
  }

  ghost predicate IsWalk(store: Store, index: uint256, d: nat, hashes: seq<uint256>, siblings: seq<uint256>) {
    && |hashes| == |siblings| + 1
    && forall k :: 0 <= k < |siblings| ==> LinkFollowed(store, index, d, hashes, k, siblings[k])
  }

  // The descent answers with the one walk that ends at an EMPTY or LEAF node, and runs off the sibling array exactly if
  // the walk is at a middle node when the array is full.
  lemma {:induction false} DescentIsTheWalk(store: Store, maxDepth: nat, index: uint256, nodeHash: uint256, d: nat)
    returns (hashes: seq<uint256>, siblings: seq<uint256>)
    requires d <= maxDepth
    ensures IsWalk(store, index, d, hashes, siblings) && hashes[0] == nodeHash && d + |siblings| <= maxDepth
    ensures var end := GetNode(store, hashes[|siblings|]);
            && (d + |siblings| < maxDepth ==> !end.MiddleNode?)
            && Descend(store, maxDepth, index, nodeHash, d) ==
               if end.MiddleNode? then Reverted(SiblingsOutOfBounds) else Ok(Descent(siblings, end))
    decreases maxDepth - d
  {
    hide Bit;
    match GetNode(store, nodeHash)
    case MiddleNode(left, right) =>
      if d < maxDepth {
        var b := Bit(index, d);
        var next, sibling := if b then right else left, if b then left else right;
        var below, besides := DescentIsTheWalk(store, maxDepth, index, next, d + 1);
        hashes, siblings := [nodeHash] + below, [sibling] + besides;
        forall k | 0 <= k < |siblings|
          ensures LinkFollowed(store, index, d, hashes, k, siblings[k])
        {
          assert k > 0 ==> LinkFollowed(store, index, d + 1, below, k - 1, besides[k - 1]);
        }
      } else {
        hashes, siblings := [nodeHash], [];
      }
    case _ =>
      hashes, siblings := [nodeHash], [];
  }

  // ---------- insertion ----------

  // A successful insertion is read back by the walk to its own index, through whatever it wrote.
  ghost predicate ReadsBack(store: Store, maxDepth: nat, i: uint256, v: uint256, nodeHash: uint256, d: nat)
    requires d <= maxDepth
  {
    var r := Descend(store, maxDepth, i, nodeHash, d);
    r.Ok? && r.value.terminal == LeafNode(i, v)
  }

  lemma {:induction false} ReadsBackStill(store: Store, after: Store, maxDepth: nat, i: uint256, v: uint256,
                                          nodeHash: uint256, d: nat)
    requires d <= maxDepth && ReadsBack(store, maxDepth, i, v, nodeHash, d)
    requires forall k :: k in store ==> k in after && after[k] == store[k]
    ensures ReadsBack(after, maxDepth, i, v, nodeHash, d)
    decreases maxDepth - d
  {
    hide Bit;
    var node := GetNode(store, nodeHash);
    if node.MiddleNode? {
      ReadsBackStill(store, after, maxDepth, i, v, if Bit(i, d) then node.childRight else node.childLeft, d + 1);
    }
  }

  // Adding the node above a subtree that reads back.
  lemma {:induction false} JoinReadsBack(h: Hasher, store: Store, maxDepth: nat, i: uint256, v: uint256,
                                         next: uint256, sibling: uint256, d: nat)
    requires d < maxDepth && ReadsBack(store, maxDepth, i, v, next, d + 1) && EmptyNode !in store.Values
    ensures var r := AddNode(h, store, if Bit(i, d) then MiddleNode(sibling, next) else MiddleNode(next, sibling));
            r.Ok? ==> ReadsBack(r.value.0, maxDepth, i, v, r.value.1, d)
  {
    hide Bit, NodeHash;
    var node := if Bit(i, d) then MiddleNode(sibling, next) else MiddleNode(next, sibling);
    if AddNode(h, store, node).Ok? {
      AddNodeKeeps(h, store, node);
      ReadsBackStill(store, AddNode(h, store, node).value.0, maxDepth, i, v, next, d + 1);
    }
  }

  lemma {:induction false} LeafReadsBack(h: Hasher, store: Store, maxDepth: nat, i: uint256, v: uint256, d: nat)
    requires d <= maxDepth
    ensures var r := AddNode(h, store, LeafNode(i, v)); r.Ok? ==> ReadsBack(r.value.0, maxDepth, i, v, r.value.1, d)
  {
  }

  lemma {:induction false} PushLeafReadsBack(h: Hasher, store: Store, maxDepth: nat, i: uint256, v: uint256,
                                             oldLeaf: Node, d: nat)
    requires oldLeaf.LeafNode? && EmptyNode !in store.Values && d <= maxDepth
    ensures var r := PushLeaf(h, store, maxDepth, LeafNode(i, v), oldLeaf, d);
            r.Ok? ==> ReadsBack(r.value.0, maxDepth, i, v, r.value.1, d)
    decreases maxDepth - d
  {
    hide Bit, AddNode, NodeHash, ReadsBack;
    var newLeaf := LeafNode(i, v);
    if d < maxDepth && PushLeaf(h, store, maxDepth, newLeaf, oldLeaf, d).Ok? {
      if Bit(i, d) == Bit(oldLeaf.index, d) {
        PushLeafReadsBack(h, store, maxDepth, i, v, oldLeaf, d + 1);
        PushLeafGrows(h, store, maxDepth, newLeaf, oldLeaf, d + 1);
        var (store', next) := PushLeaf(h, store, maxDepth, newLeaf, oldLeaf, d + 1).value;
        JoinReadsBack(h, store', maxDepth, i, v, next, 0, d);
      } else {
        LeafReadsBack(h, store, maxDepth, i, v, d + 1);
        AddNodeReturnsHash(h, store, newLeaf);
        GrowsNot(store);
        AddNodeGrows(h, store, store, 0, newLeaf);
        var (store', newHash) := AddNode(h, store, newLeaf).value;
        JoinReadsBack(h, store', maxDepth, i, v, newHash, NodeHash(h, oldLeaf), d);
      }
    }
  }

  lemma {:induction false} AddLeafAtReadsBack(h: Hasher, store: Store, maxDepth: nat, i: uint256, v: uint256,
                                              nodeHash: uint256, d: nat)
    requires EmptyNode !in store.Values && d <= maxDepth
    ensures var r := AddLeafAt(h, store, maxDepth, LeafNode(i, v), nodeHash, d);
            r.Ok? ==> ReadsBack(r.value.0, maxDepth, i, v, r.value.1, d)
    decreases maxDepth - d
  {
    hide Bit, AddNode, NodeHash, ReadsBack;
    var newLeaf := LeafNode(i, v);
    match GetNode(store, nodeHash)
    case EmptyNode =>
      LeafReadsBack(h, store, maxDepth, i, v, d);
    case LeafNode(j, w) =>
      LeafReadsBack(h, store, maxDepth, i, v, d);
      PushLeafReadsBack(h, store, maxDepth, i, v, LeafNode(j, w), d);
    case MiddleNode(left, right) =>
      if AddLeafAt(h, store, maxDepth, newLeaf, nodeHash, d).Ok? {
        var b := Bit(i, d);
        var child, sibling := if b then right else left, if b then left else right;
        AddLeafAtGrows(h, store, maxDepth, newLeaf, child, d + 1);
        AddLeafAtReadsBack(h, store, maxDepth, i, v, child, d + 1);
        var (store', next) := AddLeafAt(h, store, maxDepth, newLeaf, child, d + 1).value;
        JoinReadsBack(h, store', maxDepth, i, v, next, sibling, d);
      }
  }

  // ---------- the path an insertion writes ----------

  // The digest at the top of a path from depth d down to the leaf (i, v), past the given siblings.
  function PathHash(h: Hasher, siblings: seq<uint256>, i: uint256, v: uint256, d: nat): uint256 {
    FoldUp(h, siblings, i, d, h.poseidon3(i, v, 1))
  }

  // The nodes of that path.
  ghost function PathNodes(h: Hasher, siblings: seq<uint256>, i: uint256, v: uint256, d: nat): set<Node> {
    if siblings == [] then {LeafNode(i, v)}
    else
      var below := PathHash(h, siblings[1..], i, v, d + 1);
      {if Bit(i, d) then MiddleNode(siblings[0], below) else MiddleNode(below, siblings[0])}
      + PathNodes(h, siblings[1..], i, v, d + 1)
  }

  // How many bits i and j share from d on, before maxDepth.
  function SharedBits(i: uint256, j: uint256, d: nat, maxDepth: nat): nat
    decreases maxDepth - d
  {
    if d < maxDepth && Bit(i, d) == Bit(j, d) then 1 + SharedBits(i, j, d + 1, maxDepth) else 0
  }

  // How an insertion at (i, v) ends, given where the walk to i from the same node ends. It is refused for depth if the
  // walk has not ended in time, or ended at another leaf that shares all bits that are left. Otherwise it writes the
  // path to the new leaf past the siblings of the walk, prolonged until the other leaf, if any, becomes a sibling.
  ghost predicate EndsAsWalked(h: Hasher, store: Store, maxDepth: nat, i: uint256, v: uint256, d: nat,
                               walk: Outcome<Descent>, r: Outcome<(Store, uint256)>)
  {
    if walk.Reverted? then r == Reverted(DescentTooDeep)
    else
      var n, end := d + |walk.value.siblings|, walk.value.terminal;
      var apart := end.LeafNode? && end.index != i;
      if apart && Agree(i, end.index, n, maxDepth) then r == Reverted(PushTooDeep)
      else
        var siblings := walk.value.siblings +
          if apart then Zeros(SharedBits(i, end.index, n, maxDepth)) + [h.poseidon3(end.index, end.value, 1)] else [];
        Written(h, store, PathNodes(h, siblings, i, v, d), PathHash(h, siblings, i, v, d), r)
  }

  // Adding the node above a path that has been written.
  lemma {:induction false} PathGrows(h: Hasher, store: Store, first: Outcome<(Store, uint256)>, below: seq<uint256>,
                                     sibling: uint256, i: uint256, v: uint256, d: nat)
    requires Sound(h, store)
    requires Written(h, store, PathNodes(h, below, i, v, d + 1), PathHash(h, below, i, v, d + 1), first)
    ensures var next := PathHash(h, below, i, v, d + 1);
            var node := if Bit(i, d) then MiddleNode(sibling, next) else MiddleNode(next, sibling);
            && (first.Ok? ==> first.value.1 == next)
            && Written(h, store, PathNodes(h, [sibling] + below, i, v, d), PathHash(h, [sibling] + below, i, v, d),
                       if first.Ok? then AddNode(h, first.value.0, node) else Reverted(first.reason))
  {
    hide Bit, AddNode, CollisionFree, Sound;
    var next := PathHash(h, below, i, v, d + 1);
    var node := if Bit(i, d) then MiddleNode(sibling, next) else MiddleNode(next, sibling);
    assert ([sibling] + below)[1..] == below;
    WrittenThenAddNode(h, store, PathNodes(h, below, i, v, d + 1), next, first, node);
    assert PathNodes(h, [sibling] + below, i, v, d) == PathNodes(h, below, i, v, d + 1) + {node};
  }

  lemma {:induction false} PushLeafWritesPath(h: Hasher, store: Store, maxDepth: nat, i: uint256, v: uint256,
                                              j: uint256, w: uint256, d: nat)
    requires Sound(h, store)
    ensures var r := PushLeaf(h, store, maxDepth, LeafNode(i, v), LeafNode(j, w), d);
            var siblings := Zeros(SharedBits(i, j, d, maxDepth)) + [h.poseidon3(j, w, 1)];
            if Agree(i, j, d, maxDepth) then r == Reverted(PushTooDeep)
            else Written(h, store, PathNodes(h, siblings, i, v, d), PathHash(h, siblings, i, v, d), r)
    decreases maxDepth - d
  {
    hide Bit, AddNode, Written, PathNodes, PathHash;
    var oldHash := h.poseidon3(j, w, 1);
    if d < maxDepth {
      if Bit(i, d) == Bit(j, d) {
        var n := SharedBits(i, j, d + 1, maxDepth);
        PushLeafWritesPath(h, store, maxDepth, i, v, j, w, d + 1);
        if !Agree(i, j, d, maxDepth) {
          var first := PushLeaf(h, store, maxDepth, LeafNode(i, v), LeafNode(j, w), d + 1);
          PathGrows(h, store, first, Zeros(n) + [oldHash], 0, i, v, d);
          assert Zeros(n + 1) + [oldHash] == [0] + (Zeros(n) + [oldHash]);
        }
      } else {
        LeafIsPath(h, store, i, v, d + 1);
        var first := AddNode(h, store, LeafNode(i, v));
        PathGrows(h, store, first, [], oldHash, i, v, d);
        assert Zeros(0) + [oldHash] == [oldHash] + [];
      }
    }
  }

  lemma {:induction false} LeafIsPath(h: Hasher, store: Store, i: uint256, v: uint256, d: nat)
    requires Sound(h, store)
    ensures PathHash(h, [], i, v, d) == h.poseidon3(i, v, 1)
    ensures Written(h, store, PathNodes(h, [], i, v, d), PathHash(h, [], i, v, d), AddNode(h, store, LeafNode(i, v)))
  {
    hide AddNode, Written, Sound;
    AddNodeWrites(h, store, LeafNode(i, v));
  }

  // On every store of nodes under their own hashes, insertion ends as the walk says.
  lemma {:induction false} AddLeafAtEndsAsWalked(h: Hasher, store: Store, maxDepth: nat, i: uint256, v: uint256,
                                                 nodeHash: uint256, d: nat)
    requires Sound(h, store) && d <= maxDepth
    ensures EndsAsWalked(h, store, maxDepth, i, v, d, Descend(store, maxDepth, i, nodeHash, d),
                         AddLeafAt(h, store, maxDepth, LeafNode(i, v), nodeHash, d))
    decreases maxDepth - d
  {
    hide Bit, AddNode, Written, PathNodes, PathHash, Agree;
    var none: seq<uint256> := [];
    assert none + none == none;
    match GetNode(store, nodeHash)
    case EmptyNode =>
      LeafIsPath(h, store, i, v, d);
    case LeafNode(j, w) =>
      LeafIsPath(h, store, i, v, d);
      PushLeafWritesPath(h, store, maxDepth, i, v, j, w, d);
      var pushed := Zeros(SharedBits(i, j, d, maxDepth)) + [h.poseidon3(j, w, 1)];
      assert [] + pushed == pushed;
    case MiddleNode(left, right) =>
      if d < maxDepth {
        var b := Bit(i, d);
        var child, sibling := if b then right else left, if b then left else right;
        AddLeafAtEndsAsWalked(h, store, maxDepth, i, v, child, d + 1);
        MiddleEndsAsWalked(h, store, maxDepth, i, v, d, sibling, Descend(store, maxDepth, i, child, d + 1),
                           AddLeafAt(h, store, maxDepth, LeafNode(i, v), child, d + 1));
      }
  }

  lemma {:induction false} MiddleEndsAsWalked(h: Hasher, store: Store, maxDepth: nat, i: uint256, v: uint256, d: nat,
                                              sibling: uint256, walk: Outcome<Descent>,
                                              first: Outcome<(Store, uint256)>)
    requires Sound(h, store) && EndsAsWalked(h, store, maxDepth, i, v, d + 1, walk, first)
    ensures EndsAsWalked(h, store, maxDepth, i, v, d,
              if walk.Reverted? then Reverted(walk.reason)
              else Ok(Descent([sibling] + walk.value.siblings, walk.value.terminal)),
              if first.Reverted? then Reverted(first.reason)
              else
                var next := first.value.1;
                AddNode(h, first.value.0, if Bit(i, d) then MiddleNode(sibling, next) else MiddleNode(next, sibling)))
  {
    hide Bit, AddNode, Written, PathNodes, PathHash, Agree, Sound;
    if walk.Ok? {
      var n, end := d + 1 + |walk.value.siblings|, walk.value.terminal;
      var apart := end.LeafNode? && end.index != i;
      if !(apart && Agree(i, end.index, n, maxDepth)) {
        var more :=
          if apart then Zeros(SharedBits(i, end.index, n, maxDepth)) + [h.poseidon3(end.index, end.value, 1)] else [];
        PathGrows(h, store, first, walk.value.siblings + more, sibling, i, v, d);
        assert [sibling] + walk.value.siblings + more == [sibling] + (walk.value.siblings + more);
      }
    }
  }

  // ---------- in every run ----------

  // After any run, a proof against a root in the log reports the walk from that root: its siblings, padded with zeros,
  // and what the walk ends at.
  lemma {:induction false} ProofIsTheWalk(h: Hasher, w: World, writes: seq<Write>, index: uint256, p: nat)
    returns (hashes: seq<uint256>, siblings: seq<uint256>)
    requires Reached(h, w, writes) && p < |w.data.rootEntries|
    ensures var d, root := w.data, w.data.rootEntries[p].root;
            && IsWalk(d.nodes, index, 0, hashes, siblings) && hashes[0] == root && |siblings| <= d.maxDepth
            && (|siblings| < d.maxDepth ==> !GetNode(d.nodes, hashes[|siblings|]).MiddleNode?)
            && var padded := siblings + Zeros(d.maxDepth - |siblings|);
            GetProofByRoot(d, index, root) ==
            match GetNode(d.nodes, hashes[|siblings|])
            case EmptyNode => Ok(Proof(root, false, padded, index, 0, false, 0, 0))
            case LeafNode(i, v) =>
              if i == index then Ok(Proof(root, true, padded, index, v, false, 0, 0))
              else Ok(Proof(root, false, padded, index, v, true, i, v))
            case MiddleNode(_, _) => Reverted(SiblingsOutOfBounds)
  {
    hide Reached, Descend, IsWalk, Zeros, IndexAgrees;
    var d, root := w.data, w.data.rootEntries[p].root;
    hashes, siblings := DescentIsTheWalk(d.nodes, d.maxDepth, index, root, 0);
    assert |hashes| == |siblings| + 1 by { WalkLength(d.nodes, index, 0, hashes, siblings); }
    IndexesInvertTheLog(h, w, writes, root);
  }

  lemma {:induction false} WalkLength(store: Store, index: uint256, d: nat,
                                      hashes: seq<uint256>, siblings: seq<uint256>)
    requires IsWalk(store, index, d, hashes, siblings)
    ensures |hashes| == |siblings| + 1
  {
  }

  // The root of the last entry; every initialized tree has one.
  function CurrentRoot(d: Data): uint256 {
    if d.rootEntries == [] then 0 else d.rootEntries[|d.rootEntries| - 1].root
  }

  // After any run, addLeaf on an initialized tree ends as the walk from the current root says, on any hasher; when it
  // succeeds, the entry it makes names a root against which the index has the value written.
  lemma {:induction false} AddLeafEndsAsWalked(h: Hasher, w: World, writes: seq<Write>, i: uint256, v: uint256)
    requires Reached(h, w, writes) && w.data.initialized
    ensures var d, r := w.data, Execute(h, w, CallAddLeaf(i, v));
            && d.rootEntries != []
            && var walk := Descend(d.nodes, d.maxDepth, i, CurrentRoot(d), 0);
            match r
            case Reverted(reason) => EndsAsWalked(h, d.nodes, d.maxDepth, i, v, 0, walk, Reverted(reason))
            case Ok(World(after, _, _)) =>
              && |after.rootEntries| == |d.rootEntries| + 1
              && var root := CurrentRoot(after);
              && EndsAsWalked(h, d.nodes, d.maxDepth, i, v, 0, walk, Ok((after.nodes, root)))
              && after.rootEntries == d.rootEntries + [RootEntry(root, w.timestamp, w.blockNumber)]
              && var answer := GetProofByRoot(after, i, root);
              && answer.Ok? && answer.value.existence && answer.value.value == v
  {
    hide Reached, AddLeafAt, IndexAgrees, Descend, TreeInvariant, EndsAsWalked, Sound;
    var d := w.data;
    ReachedIsInvariant(h, w, writes);
    ReachedIsLinked(h, w, writes);
    AddLeafAtEndsAsWalked(h, d.nodes, d.maxDepth, i, v, CurrentRoot(d), 0);
    AddLeafAtReadsBack(h, d.nodes, d.maxDepth, i, v, CurrentRoot(d), 0);
    var r := Execute(h, w, CallAddLeaf(i, v));
    if r.Ok? {
      assert RootExists(r.value.data, CurrentRoot(r.value.data));
    }
  }
}
