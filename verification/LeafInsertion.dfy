// Inserting a leaf: the recursive walk over stored nodes, and why it builds the canonical tree of the updated map.
module LeafInsertion {
  import opened Words
  import opened Outcomes
  import opened NodeStore
  import opened CanonicalTree

  function PushLeaf(h: Hasher, store: Store, maxDepth: nat, newLeaf: Node, oldLeaf: Node, depth: nat)
    : Outcome<(Store, uint256)>
    requires newLeaf.LeafNode? && oldLeaf.LeafNode?
    decreases maxDepth - depth
  {
    if depth >= maxDepth then Reverted(PushTooDeep)
    else
      var newBit, oldBit := Bit(newLeaf.index, depth), Bit(oldLeaf.index, depth);
      if newBit == oldBit then
        var (store', next) :- PushLeaf(h, store, maxDepth, newLeaf, oldLeaf, depth + 1);
        AddNode(h, store', if newBit then MiddleNode(0, next) else MiddleNode(next, 0))
      else
        var newHash, oldHash := NodeHash(h, newLeaf), NodeHash(h, oldLeaf);
        var (store', _) :- AddNode(h, store, newLeaf);
        AddNode(h, store', if newBit then MiddleNode(oldHash, newHash) else MiddleNode(newHash, oldHash))
  }

  function AddLeafAt(h: Hasher, store: Store, maxDepth: nat, newLeaf: Node, nodeHash: uint256, depth: nat)
    : Outcome<(Store, uint256)>
    requires newLeaf.LeafNode?
    decreases maxDepth + 1 - depth
  {
    if depth > maxDepth then Reverted(DescentTooDeep)
    else
      match GetNode(store, nodeHash)
      case EmptyNode => AddNode(h, store, newLeaf)
      case LeafNode(index, value) =>
        if index == newLeaf.index then AddNode(h, store, newLeaf)
        else PushLeaf(h, store, maxDepth, newLeaf, LeafNode(index, value), depth)
      case MiddleNode(left, right) =>
        if Bit(newLeaf.index, depth) then
          var (store', next) :- AddLeafAt(h, store, maxDepth, newLeaf, right, depth + 1);
          AddNode(h, store', MiddleNode(left, next))
        else
          var (store', next) :- AddLeafAt(h, store, maxDepth, newLeaf, left, depth + 1);
          AddNode(h, store', MiddleNode(next, right))
  }

  // ---------- refinement ----------

  // Some other index of m shares with i all the bits d..maxDepth-1.
  ghost predicate Clash(m: Contents, i: uint256, d: nat, maxDepth: nat) {
    exists j :: j in m && j != i && Agree(i, j, d, maxDepth)
  }

  lemma {:induction false} ClashInHalf(m: Contents, i: uint256, d: nat, maxDepth: nat)
    requires d < maxDepth
    ensures Clash(m, i, d, maxDepth) <==> Clash(Half(m, d, Bit(i, d)), i, d + 1, maxDepth)
  {
    if Clash(m, i, d, maxDepth) {
      var j :| j in m && j != i && Agree(i, j, d, maxDepth);
      assert j in Half(m, d, Bit(i, d)) && Agree(i, j, d + 1, maxDepth);
    }
    if Clash(Half(m, d, Bit(i, d)), i, d + 1, maxDepth) {
      var j :| j in Half(m, d, Bit(i, d)) && j != i && Agree(i, j, d + 1, maxDepth);
      assert Agree(i, j, d, maxDepth);
    }
  }

  // An update that clashes with nothing still fits.
  lemma {:induction false} UpdateFits(m: Contents, i: uint256, v: uint256, d: nat, maxDepth: nat)
    requires Fits(m, d, maxDepth)
    ensures Fits(m[i := v], d, maxDepth) <==> !Clash(m, i, d, maxDepth)
  {
    var n := m[i := v];
    if !Clash(m, i, d, maxDepth) {
      forall a, b | a in n && b in n && a != b
        ensures !Agree(a, b, d, maxDepth)
      {
        AgreeSymmetric(a, b, d, maxDepth);
      }
    } else {
      var j :| j in m && j != i && Agree(i, j, d, maxDepth);
      assert i in n && j in n;
    }
  }

  lemma {:induction false} WrittenAbsorbs(h: Hasher, before: Store, nodes: set<Node>, extra: set<Node>, root: uint256,
                                          result: Outcome<(Store, uint256)>)
    requires Written(h, before, nodes, root, result) && extra <= before.Values
    ensures Written(h, before, nodes + extra, root, result)
  {
    assert before.Values + (nodes + extra) == before.Values + nodes;
  }

  // Once one child has been written, adding the node above it and an untouched sibling completes the tree.
  lemma {:induction false} JoinWritten(h: Hasher, store: Store, child: Tree, sibling: Tree, right: bool,
                                       first: Outcome<(Store, uint256)>)
    requires Sound(h, store) && NodesIn(h, sibling) <= store.Values
    requires Written(h, store, NodesIn(h, child), RootHash(h, child), first)
    ensures var t := if right then Middle(sibling, child) else Middle(child, sibling);
            && (first.Ok? ==> first.value.1 == RootHash(h, child))
            && Written(h, store, NodesIn(h, t), RootHash(h, t),
                       if first.Ok? then AddNode(h, first.value.0, NodeOf(h, t)) else Reverted(first.reason))
  {
    var t := if right then Middle(sibling, child) else Middle(child, sibling);
    var node := NodeOf(h, t);
    var result := if first.Ok? then AddNode(h, first.value.0, node) else Reverted(first.reason);
    WrittenThenAddNode(h, store, NodesIn(h, child), RootHash(h, child), first, node);
    WrittenAbsorbs(h, store, NodesIn(h, child) + {node}, NodesIn(h, sibling), RootHash(h, t), result);
    assert NodesIn(h, t) == NodesIn(h, child) + {node} + NodesIn(h, sibling);
  }

  lemma {:induction false} PairHalves(i: uint256, v: uint256, j: uint256, w: uint256, d: nat)
    requires i != j
    ensures var m := map[j := w][i := v];
            && Plural(m)
            && (Bit(i, d) == Bit(j, d) ==> Half(m, d, Bit(i, d)) == m && Half(m, d, !Bit(i, d)) == map[])
            && (Bit(i, d) != Bit(j, d) ==> Half(m, d, Bit(i, d)) == map[i := v] && Half(m, d, Bit(j, d)) == map[j := w])
  {
    var m := map[j := w][i := v];
    assert i in m && j in m;
  }

  // The exact result of pushing the new leaf (i, v) and the old leaf (j, w) apart, from depth d on.
  ghost predicate Pushed(h: Hasher, store: Store, maxDepth: nat, i: uint256, v: uint256, j: uint256, w: uint256, d: nat,
                         result: Outcome<(Store, uint256)>) {
    var t := Canon(map[j := w][i := v], d);
    if Agree(i, j, d, maxDepth) then result == Reverted(PushTooDeep)
    else Written(h, store, NodesIn(h, t), RootHash(h, t), result)
  }

  lemma {:induction false} PushLeafDiverges(h: Hasher, store: Store, maxDepth: nat,
                                            i: uint256, v: uint256, j: uint256, w: uint256, d: nat)
    requires Sound(h, store) && LeafNode(j, w) in store.Values
    requires d < maxDepth <= WORD_BITS && Bit(i, d) != Bit(j, d)
    ensures Pushed(h, store, maxDepth, i, v, j, w, d, PushLeaf(h, store, maxDepth, LeafNode(i, v), LeafNode(j, w), d))
  {
    hide Half, Canon, Plural, Bit, Written;
    PairHalves(i, v, j, w, d);
    CanonOfLarger(map[j := w][i := v], d);
    CanonOfSingle(i, v, d + 1);
    CanonOfSingle(j, w, d + 1);
    AddNodeWrites(h, store, LeafNode(i, v));
    JoinWritten(h, store, Leaf(i, v), Leaf(j, w), Bit(i, d), AddNode(h, store, LeafNode(i, v)));
    var t := if Bit(i, d) then Middle(Leaf(j, w), Leaf(i, v)) else Middle(Leaf(i, v), Leaf(j, w));
    assert Canon(map[j := w][i := v], d) == t;
    var first := AddNode(h, store, LeafNode(i, v));
    assert PushLeaf(h, store, maxDepth, LeafNode(i, v), LeafNode(j, w), d)
        == if first.Ok? then AddNode(h, first.value.0, NodeOf(h, t)) else Reverted(first.reason);
  }

  // Pushing two leaves down builds the canonical tree of the two, unless they share every bit that is left.
  lemma {:induction false} PushLeafBuilds(h: Hasher, store: Store, maxDepth: nat,
                                          i: uint256, v: uint256, j: uint256, w: uint256, d: nat)
    requires Sound(h, store) && LeafNode(j, w) in store.Values
    requires i != j && d <= maxDepth <= WORD_BITS
    ensures Pushed(h, store, maxDepth, i, v, j, w, d, PushLeaf(h, store, maxDepth, LeafNode(i, v), LeafNode(j, w), d))
    decreases maxDepth - d
  {
    hide Half, Canon, Plural, Bit, Written;
    if d < maxDepth && Bit(i, d) != Bit(j, d) {
      PushLeafDiverges(h, store, maxDepth, i, v, j, w, d);
    } else if d < maxDepth {
      var m := map[j := w][i := v];
      PairHalves(i, v, j, w, d);
      CanonOfLarger(m, d);
      CanonOfEmpty(d + 1);
      PushLeafBuilds(h, store, maxDepth, i, v, j, w, d + 1);
      var t := Canon(m, d + 1);
      assert Canon(m, d) == if Bit(i, d) then Middle(Empty, t) else Middle(t, Empty);
      if !Agree(i, j, d, maxDepth) {
        var first := PushLeaf(h, store, maxDepth, LeafNode(i, v), LeafNode(j, w), d + 1);
        JoinWritten(h, store, t, Empty, Bit(i, d), first);
        assert NodeOf(h, Canon(m, d))
            == if Bit(i, d) then MiddleNode(0, RootHash(h, t)) else MiddleNode(RootHash(h, t), 0);
      }
    }
  }

  // The whole of addLeaf below depth d: one exact outcome for every state the tree can be in.
  ghost predicate Inserted(h: Hasher, store: Store, maxDepth: nat, m: Contents, i: uint256, v: uint256, d: nat,
                           result: Outcome<(Store, uint256)>) {
    var t := Canon(m[i := v], d);
    if Clash(m, i, d, maxDepth) then result == Reverted(PushTooDeep)
    else Written(h, store, NodesIn(h, t), RootHash(h, t), result)
  }

  lemma {:induction false} AddLeafAtLeaf(h: Hasher, store: Store, maxDepth: nat, j: uint256, w: uint256,
                                         i: uint256, v: uint256, d: nat)
    requires Sound(h, store) && LeafNode(j, w) in store.Values && d <= maxDepth <= WORD_BITS
    ensures Inserted(h, store, maxDepth, map[j := w], i, v, d,
                     if i == j then AddNode(h, store, LeafNode(i, v))
                     else PushLeaf(h, store, maxDepth, LeafNode(i, v), LeafNode(j, w), d))
  {
    hide Canon;
    var m := map[j := w];
    if i == j {
      assert m[i := v] == map[i := v];
      CanonOfSingle(i, v, d);
      AddNodeWrites(h, store, LeafNode(i, v));
    } else {
      PushLeafBuilds(h, store, maxDepth, i, v, j, w, d);
      assert Clash(m, i, d, maxDepth) <==> Agree(i, j, d, maxDepth) by {
        assert j in m;
      }
    }
  }

  lemma {:induction false} AddLeafAtBuilds(h: Hasher, store: Store, maxDepth: nat, m: Contents,
                                           i: uint256, v: uint256, d: nat)
    requires Sound(h, store) && 0 !in store && NodesIn(h, Canon(m, d)) <= store.Values
    requires Fits(m, d, maxDepth) && d <= maxDepth <= WORD_BITS
    ensures Inserted(h, store, maxDepth, m, i, v, d,
                     AddLeafAt(h, store, maxDepth, LeafNode(i, v), RootHash(h, Canon(m, d)), d))
    decreases maxDepth - d
  {
    hide Canon, Half;
    LookupRoot(h, store, Canon(m, d));
    if m == map[] {
      CanonOfEmpty(d);
      CanonOfSingle(i, v, d);
      AddNodeWrites(h, store, LeafNode(i, v));
    } else if !Plural(m) {
      var j :| j in m;
      OnlyEntry(m, j);
      CanonOfSingle(j, m[j], d);
      AddLeafAtLeaf(h, store, maxDepth, j, m[j], i, v, d);
    } else {
      AddLeafAtMiddle(h, store, maxDepth, m, i, v, d);
    }
  }

  lemma {:induction false} AddLeafAtMiddle(h: Hasher, store: Store, maxDepth: nat, m: Contents,
                                           i: uint256, v: uint256, d: nat)
    requires Sound(h, store) && 0 !in store && NodesIn(h, Canon(m, d)) <= store.Values
    requires Fits(m, d, maxDepth) && d <= maxDepth <= WORD_BITS && Plural(m)
    ensures Inserted(h, store, maxDepth, m, i, v, d,
                     AddLeafAt(h, store, maxDepth, LeafNode(i, v), RootHash(h, Canon(m, d)), d))
    decreases maxDepth - d, 0
  {
    hide Canon, Half, Plural;
    var b := Bit(i, d);
    var near, far := Half(m, d, b), Half(m, d, !b);
    RoomToSplit(m, d, maxDepth);
    CanonOfLarger(m, d);
    HalfFits(m, d, b, maxDepth);
    LookupRoot(h, store, Canon(m, d));
    AddLeafAtBuilds(h, store, maxDepth, near, i, v, d + 1);
    ClashInHalf(m, i, d, maxDepth);
    assert Plural(m[i := v]) by { PluralStays(m, i, v); }
    CanonOfLarger(m[i := v], d);
    HalfOfUpdate(m, i, v, d);
    if !Clash(m, i, d, maxDepth) {
      var first := AddLeafAt(h, store, maxDepth, LeafNode(i, v), RootHash(h, Canon(near, d + 1)), d + 1);
      JoinWritten(h, store, Canon(near[i := v], d + 1), Canon(far, d + 1), b, first);
    }
  }

  lemma {:induction false} PluralStays(m: Contents, i: uint256, v: uint256)
    requires Plural(m)
    ensures Plural(m[i := v])
  {
    var a, b :| a in m && b in m && a != b;
    assert a in m[i := v] && b in m[i := v];
  }

  // ---------- growth ----------

  // after keeps every slot of before, holds no EMPTY node, and has at most n more nodes.
  ghost predicate Grows(before: Store, after: Store, n: nat) {
    && (forall k :: k in before ==> k in after && after[k] == before[k])
    && EmptyNode !in after.Values
    && |after| <= |before| + n
  }

  lemma {:induction false} AddNodeGrows(h: Hasher, before: Store, store: Store, n: nat, node: Node)
    requires node != EmptyNode && Grows(before, store, n)
    ensures var r := AddNode(h, store, node); r.Ok? ==> Grows(before, r.value.0, n + 1)
  {
    if AddNode(h, store, node).Ok? {
      AddNodeKeeps(h, store, node);
    }
  }

  lemma {:induction false} PushLeafGrowsByTwo(h: Hasher, store: Store, maxDepth: nat,
                                              newLeaf: Node, oldLeaf: Node, depth: nat)
    requires newLeaf.LeafNode? && oldLeaf.LeafNode? && EmptyNode !in store.Values
    requires depth < maxDepth && Bit(newLeaf.index, depth) != Bit(oldLeaf.index, depth)
    ensures var r := PushLeaf(h, store, maxDepth, newLeaf, oldLeaf, depth); r.Ok? ==> Grows(store, r.value.0, 2)
  {
    hide Grows, Bit, AddNode, NodeHash;
    var newHash, oldHash := NodeHash(h, newLeaf), NodeHash(h, oldLeaf);
    GrowsNot(store);
    AddNodeGrows(h, store, store, 0, newLeaf);
    var first := AddNode(h, store, newLeaf);
    if first.Ok? {
      var middle := if Bit(newLeaf.index, depth) then MiddleNode(oldHash, newHash) else MiddleNode(newHash, oldHash);
      AddNodeGrows(h, store, first.value.0, 1, middle);
      assert PushLeaf(h, store, maxDepth, newLeaf, oldLeaf, depth) == AddNode(h, first.value.0, middle);
    }
  }

  lemma {:induction false} PushLeafGrows(h: Hasher, store: Store, maxDepth: nat,
                                         newLeaf: Node, oldLeaf: Node, depth: nat)
    requires newLeaf.LeafNode? && oldLeaf.LeafNode? && EmptyNode !in store.Values
    ensures var r := PushLeaf(h, store, maxDepth, newLeaf, oldLeaf, depth);
            r.Ok? ==> depth < maxDepth && Grows(store, r.value.0, maxDepth + 1 - depth)
    decreases maxDepth - depth
  {
    hide Grows, Bit, AddNode;
    var r := PushLeaf(h, store, maxDepth, newLeaf, oldLeaf, depth);
    if depth < maxDepth && r.Ok? {
      if Bit(newLeaf.index, depth) == Bit(oldLeaf.index, depth) {
        PushLeafGrows(h, store, maxDepth, newLeaf, oldLeaf, depth + 1);
        var (store', next) := PushLeaf(h, store, maxDepth, newLeaf, oldLeaf, depth + 1).value;
        var middle := if Bit(newLeaf.index, depth) then MiddleNode(0, next) else MiddleNode(next, 0);
        AddNodeGrows(h, store, store', maxDepth - depth, middle);
      } else {
        PushLeafGrowsByTwo(h, store, maxDepth, newLeaf, oldLeaf, depth);
        GrowsLess(store, r.value.0, 2, maxDepth + 1 - depth);
      }
    }
  }

  // A successful insertion writes at most one node per level, whatever the store holds.
  lemma {:induction false} AddLeafAtGrows(h: Hasher, store: Store, maxDepth: nat,
                                          newLeaf: Node, nodeHash: uint256, depth: nat)
    requires newLeaf.LeafNode? && EmptyNode !in store.Values
    ensures var r := AddLeafAt(h, store, maxDepth, newLeaf, nodeHash, depth);
            r.Ok? ==> depth <= maxDepth && Grows(store, r.value.0, maxDepth + 1 - depth)
    decreases maxDepth + 1 - depth
  {
    hide Grows, Bit;
    var r := AddLeafAt(h, store, maxDepth, newLeaf, nodeHash, depth);
    if depth <= maxDepth {
      match GetNode(store, nodeHash)
      case MiddleNode(left, right) =>
        var b := Bit(newLeaf.index, depth);
        var next := if b then right else left;
        AddLeafAtGrows(h, store, maxDepth, newLeaf, next, depth + 1);
        var first := AddLeafAt(h, store, maxDepth, newLeaf, next, depth + 1);
        if first.Ok? {
          AddNodeGrows(h, store, first.value.0, maxDepth - depth,
                       if b then MiddleNode(left, first.value.1) else MiddleNode(first.value.1, right));
        }
      case _ =>
        GrowsNot(store);
        AddNodeGrows(h, store, store, 0, newLeaf);
        if r.Ok? && r == AddNode(h, store, newLeaf) {
          GrowsLess(store, r.value.0, 1, maxDepth + 1 - depth);
        }
        if GetNode(store, nodeHash).LeafNode? {
          PushLeafGrows(h, store, maxDepth, newLeaf, GetNode(store, nodeHash), depth);
        }
    }
  }

  lemma {:induction false} GrowsNot(store: Store)
    requires EmptyNode !in store.Values
    ensures Grows(store, store, 0)
  {
  }

  lemma {:induction false} GrowsLess(before: Store, after: Store, n: nat, more: nat)
    requires Grows(before, after, n) && n <= more
    ensures Grows(before, after, more)
  {
  }

  // ---------- links ----------

  lemma {:induction false} PushLeafLinks(h: Hasher, store: Store, maxDepth: nat,
                                         newLeaf: Node, oldLeaf: Node, depth: nat)
    requires newLeaf.LeafNode? && oldLeaf.LeafNode?
    requires Linked(h, store) && NodeHash(h, oldLeaf) in store
    ensures var r := PushLeaf(h, store, maxDepth, newLeaf, oldLeaf, depth);
            r.Ok? ==> Links(h, store, r.value.0, r.value.1)
    decreases maxDepth - depth
  {
    hide Linked, Bit, AddNode, NodeHash;
    if depth < maxDepth && PushLeaf(h, store, maxDepth, newLeaf, oldLeaf, depth).Ok? {
      var newBit := Bit(newLeaf.index, depth);
      if newBit == Bit(oldLeaf.index, depth) {
        PushLeafLinks(h, store, maxDepth, newLeaf, oldLeaf, depth + 1);
        var (store', next) := PushLeaf(h, store, maxDepth, newLeaf, oldLeaf, depth + 1).value;
        AddNodeLinks(h, store, store', if newBit then MiddleNode(0, next) else MiddleNode(next, 0));
      } else {
        var newHash, oldHash := NodeHash(h, newLeaf), NodeHash(h, oldLeaf);
        AddNodeLinks(h, store, store, newLeaf);
        AddNodeReturnsHash(h, store, newLeaf);
        var (store', _) := AddNode(h, store, newLeaf).value;
        AddNodeLinks(h, store, store', if newBit then MiddleNode(oldHash, newHash) else MiddleNode(newHash, oldHash));
      }
    }
  }

  lemma {:induction false} AddNodeReturnsHash(h: Hasher, store: Store, node: Node)
    requires node != EmptyNode && AddNode(h, store, node).Ok?
    ensures AddNode(h, store, node).value.1 == NodeHash(h, node)
  {
  }

  // Insertion leaves every non-zero child stored and lets non-zero links fall, whatever the hashes are. (What links
  // with child 0 lead to, once a node is stored in slot 0, is another matter.)
  lemma {:induction false} AddLeafAtLinks(h: Hasher, store: Store, maxDepth: nat,
                                          newLeaf: Node, nodeHash: uint256, depth: nat)
    requires newLeaf.LeafNode? && Linked(h, store)
    ensures var r := AddLeafAt(h, store, maxDepth, newLeaf, nodeHash, depth);
            r.Ok? ==> Links(h, store, r.value.0, r.value.1)
    decreases maxDepth + 1 - depth
  {
    hide Linked, Bit, AddNode, NodeHash;
    if depth <= maxDepth && AddLeafAt(h, store, maxDepth, newLeaf, nodeHash, depth).Ok? {
      match GetNode(store, nodeHash)
      case EmptyNode =>
        AddNodeLinks(h, store, store, newLeaf);
      case LeafNode(index, value) =>
        LinkedNode(h, store, nodeHash);
        if index == newLeaf.index {
          AddNodeLinks(h, store, store, newLeaf);
        } else {
          PushLeafLinks(h, store, maxDepth, newLeaf, LeafNode(index, value), depth);
        }
      case MiddleNode(left, right) =>
        LinkedNode(h, store, nodeHash);
        var b := Bit(newLeaf.index, depth);
        var child := if b then right else left;
        AddLeafAtLinks(h, store, maxDepth, newLeaf, child, depth + 1);
        var (store', next) := AddLeafAt(h, store, maxDepth, newLeaf, child, depth + 1).value;
        AddNodeLinks(h, store, store', if b then MiddleNode(left, next) else MiddleNode(next, right));
    }
  }

  lemma {:induction false} LinkedNode(h: Hasher, store: Store, k: uint256)
    requires Linked(h, store) && k in store
    ensures NodeHash(h, store[k]) == k
    ensures store[k].MiddleNode? ==> Present(store, store[k].childLeft) && Present(store, store[k].childRight)
  {
    var rank :| Ranked(store, rank);
  }
}
