// Nodes, their hashes, and the append-only store that is addressed by hash.
module NodeStore {
  import opened Words
  import opened Outcomes

  // The two Poseidon contracts, as arbitrary functions: nothing is assumed about collisions.
  datatype Hasher = Hasher(
    poseidon2: (uint256, uint256) -> uint256,
    poseidon3: (uint256, uint256, uint256) -> uint256)

  datatype Node =
    | EmptyNode
    | LeafNode(index: uint256, value: uint256)
    | MiddleNode(childLeft: uint256, childRight: uint256)

  // The nodes mapping. A hash that is absent holds the default struct, an EMPTY node.
  type Store = map<uint256, Node>

  function GetNode(store: Store, nodeHash: uint256): Node {
    if nodeHash in store then store[nodeHash] else EmptyNode
  }

  function NodeHash(h: Hasher, node: Node): uint256 {
    match node
    case EmptyNode => 0
    case LeafNode(index, value) => h.poseidon3(index, value, 1)
    case MiddleNode(left, right) => h.poseidon2(left, right)
  }

  function AddNode(h: Hasher, store: Store, node: Node): Outcome<(Store, uint256)>
    requires node != EmptyNode
  {
    var nodeHash := NodeHash(h, node);
    if GetNode(store, nodeHash) != EmptyNode then
      if store[nodeHash] == node then Ok((store, nodeHash)) else Reverted(NodeMismatch)
    else
      Ok((store[nodeHash := node], nodeHash))
  }

  // Every stored node is non-empty and sits under its own hash.
  ghost predicate Sound(h: Hasher, store: Store) {
    forall k :: k in store ==> store[k] != EmptyNode && NodeHash(h, store[k]) == k
  }

  // Two leaf or middle nodes that Poseidon does not tell apart.
  ghost predicate SameDigest(h: Hasher, a: Node, b: Node) {
    match (a, b)
    case (LeafNode(i, v), LeafNode(j, w)) => h.poseidon3(i, v, 1) == h.poseidon3(j, w, 1)
    case (MiddleNode(l, r), MiddleNode(l', r')) => h.poseidon2(l, r) == h.poseidon2(l', r')
    case (LeafNode(i, v), MiddleNode(l, r)) => h.poseidon3(i, v, 1) == h.poseidon2(l, r)
    case (MiddleNode(l, r), LeafNode(i, v)) => h.poseidon2(l, r) == h.poseidon3(i, v, 1)
    case _ => false
  }

  ghost predicate CollisionFree(h: Hasher, nodes: set<Node>) {
    forall a, b :: a in nodes && b in nodes && SameDigest(h, a, b) ==> a == b
  }

  lemma {:induction false} SameDigestIsSameHash(h: Hasher, a: Node, b: Node)
    requires a != EmptyNode && b != EmptyNode
    ensures SameDigest(h, a, b) <==> NodeHash(h, a) == NodeHash(h, b)
  {
  }

  // The exact result of writing a set of nodes whose top has hash root: the store grows by that set and nothing else,
  // unless two of all those nodes have the same hash.
  ghost predicate Written(h: Hasher, before: Store, nodes: set<Node>, root: uint256,
                          result: Outcome<(Store, uint256)>)
  {
    if CollisionFree(h, before.Values + nodes) then
      && result.Ok?
      && Sound(h, result.value.0)
      && result.value.0.Values == before.Values + nodes
      && result.value.1 == root
    else
      result == Reverted(NodeMismatch)
  }

  lemma {:induction false} SoundLookup(h: Hasher, store: Store, node: Node)
    requires Sound(h, store)
    ensures node in store.Values <==> node != EmptyNode && GetNode(store, NodeHash(h, node)) == node
  {
    if node != EmptyNode && GetNode(store, NodeHash(h, node)) == node {
      assert NodeHash(h, node) in store && store[NodeHash(h, node)] in store.Values;
    }
  }

  lemma {:induction false} SoundIsCollisionFree(h: Hasher, store: Store)
    requires Sound(h, store)
    ensures CollisionFree(h, store.Values)
  {
    forall a, b | a in store.Values && b in store.Values && SameDigest(h, a, b)
      ensures a == b
    {
      SoundLookup(h, store, a);
      SoundLookup(h, store, b);
      SameDigestIsSameHash(h, a, b);
    }
  }

  // A sound store is determined by the nodes in it.
  lemma {:induction false} SoundStoresWithSameNodesAreEqual(h: Hasher, s: Store, t: Store)
    requires Sound(h, s) && Sound(h, t) && s.Values == t.Values
    ensures s == t
  {
    forall k
      ensures k in s <==> k in t
      ensures k in s ==> s[k] == t[k]
    {
      if k in s {
        SoundLookup(h, s, s[k]);
        SoundLookup(h, t, s[k]);
      }
      if k in t {
        SoundLookup(h, t, t[k]);
        SoundLookup(h, s, t[k]);
      }
    }
  }

  lemma {:induction false} OneMoreNodeCollides(h: Hasher, store: Store, node: Node)
    requires Sound(h, store) && node != EmptyNode
    ensures CollisionFree(h, store.Values + {node}) <==>
            GetNode(store, NodeHash(h, node)) in {EmptyNode, node}
  {
    hide SameDigest, NodeHash;
    var all := store.Values + {node};
    var other := GetNode(store, NodeHash(h, node));
    SoundIsCollisionFree(h, store);
    if other in {EmptyNode, node} {
      forall a | a in store.Values && (SameDigest(h, a, node) || SameDigest(h, node, a))
        ensures a == node
      {
        SoundLookup(h, store, a);
        SameDigestIsSameHash(h, a, node);
        SameDigestIsSameHash(h, node, a);
      }
    } else {
      assert other in store.Values;
      SameDigestIsSameHash(h, other, node);
    }
  }

  lemma {:induction false} AddNodeWrites(h: Hasher, store: Store, node: Node)
    requires Sound(h, store) && node != EmptyNode
    ensures Written(h, store, {node}, NodeHash(h, node), AddNode(h, store, node))
  {
    hide CollisionFree, NodeHash;
    var k := NodeHash(h, node);
    OneMoreNodeCollides(h, store, node);
    if GetNode(store, k) == EmptyNode {
      var grown := store[k := node];
      forall n
        ensures n in grown.Values <==> n in store.Values + {node}
      {
        if n in store.Values {
          SoundLookup(h, store, n);
          assert grown[NodeHash(h, n)] == n;
        }
        assert grown[k] == node;
      }
    } else if store[k] == node {
      assert node in store.Values;
      assert store.Values + {node} == store.Values;
    }
  }

  // Writing some nodes and then one more.
  lemma {:induction false} WrittenThenAddNode(h: Hasher, before: Store, nodes: set<Node>, root: uint256,
                                              first: Outcome<(Store, uint256)>, node: Node)
    requires Sound(h, before) && Written(h, before, nodes, root, first) && node != EmptyNode
    ensures Written(h, before, nodes + {node}, NodeHash(h, node),
                    if first.Ok? then AddNode(h, first.value.0, node) else Reverted(first.reason))
  {
    assert before.Values + (nodes + {node}) == before.Values + nodes + {node};
    if first.Ok? {
      AddNodeWrites(h, first.value.0, node);
    }
  }

  // A store only grows: a successful write keeps every slot that was taken.
  lemma {:induction false} AddNodeKeeps(h: Hasher, store: Store, node: Node)
    requires node != EmptyNode && EmptyNode !in store.Values && AddNode(h, store, node).Ok?
    ensures var s := AddNode(h, store, node).value.0;
            store.Keys <= s.Keys && EmptyNode !in s.Values && |s| <= |store| + 1 &&
            forall k :: k in store ==> s[k] == store[k]
  {
    var k := NodeHash(h, node);
    if k in store {
      assert store[k] in store.Values;
    }
  }

  // ---------- links ----------

  ghost predicate Below(rank: map<uint256, nat>, child: uint256, bound: nat) {
    child != 0 ==> child in rank && rank[child] < bound
  }

  // Every non-zero child of a stored node is stored, with a rank below its parent's.
  ghost predicate Ranked(store: Store, rank: map<uint256, nat>) {
    && rank.Keys == store.Keys
    && forall k :: k in store ==>
         && rank[k] < |store|
         && (store[k].MiddleNode? ==>
               Below(rank, store[k].childLeft, rank[k]) && Below(rank, store[k].childRight, rank[k]))
  }

  // Nodes under their own hashes, with non-zero children stored and no cycle of non-zero links. A link with child 0 is
  // exempt: it leads to slot 0, which is EMPTY unless some node hashes to 0.
  ghost predicate Linked(h: Hasher, store: Store) {
    Sound(h, store) && exists rank :: Ranked(store, rank)
  }

  ghost predicate Present(store: Store, nodeHash: uint256) {
    nodeHash != 0 ==> nodeHash in store
  }

  // after is linked, keeps all that was stored before, and has nodeHash.
  ghost predicate Links(h: Hasher, before: Store, after: Store, nodeHash: uint256) {
    Linked(h, after) && before.Keys <= after.Keys && nodeHash in after
  }

  // A node whose non-zero children are stored can be added without closing a cycle of non-zero links: its slot is new,
  // or already its own.
  lemma {:induction false} AddNodeLinks(h: Hasher, before: Store, store: Store, node: Node)
    requires Linked(h, store) && before.Keys <= store.Keys && node != EmptyNode
    requires node.MiddleNode? ==> Present(store, node.childLeft) && Present(store, node.childRight)
    ensures var r := AddNode(h, store, node); r.Ok? ==> Links(h, before, r.value.0, r.value.1)
  {
    hide Ranked;
    var k := NodeHash(h, node);
    if k !in store {
      var rank :| Ranked(store, rank);
      RankNewNode(store, rank, k, node);
    }
  }

  lemma {:induction false} RankNewNode(store: Store, rank: map<uint256, nat>, k: uint256, node: Node)
    requires Ranked(store, rank) && k !in store
    requires node.MiddleNode? ==> Present(store, node.childLeft) && Present(store, node.childRight)
    ensures Ranked(store[k := node], rank[k := |store|])
  {
  }
}
