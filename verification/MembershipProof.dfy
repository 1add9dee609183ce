// Proofs of membership and non-membership: the walk that collects them, and what they say.
module MembershipProof {
  import opened Words
  import opened Outcomes
  import opened NodeStore
  import opened CanonicalTree

  datatype Proof = Proof(
    root: uint256,
    existence: bool,
    siblings: seq<uint256>,
    index: uint256,
    value: uint256,
    auxExistence: bool,
    auxIndex: uint256,
    auxValue: uint256)

  // The siblings met on the way down, and the EMPTY or LEAF node at the end.
  datatype Descent = Descent(siblings: seq<uint256>, terminal: Node)

  function Descend(store: Store, maxDepth: nat, index: uint256, nodeHash: uint256, depth: nat): (r: Outcome<Descent>)
    requires depth <= maxDepth
    ensures r.Ok? ==> depth + |r.value.siblings| <= maxDepth && !r.value.terminal.MiddleNode?
    decreases maxDepth - depth
  {
    match GetNode(store, nodeHash)
    case EmptyNode => Ok(Descent([], EmptyNode))
    case LeafNode(i, v) => Ok(Descent([], LeafNode(i, v)))
    case MiddleNode(left, right) =>
      if depth == maxDepth then Reverted(SiblingsOutOfBounds)
      else
        var goRight := Bit(index, depth);
        var rest :- Descend(store, maxDepth, index, if goRight then right else left, depth + 1);
        Ok(Descent([if goRight then left else right] + rest.siblings, rest.terminal))
  }

  function Zeros(n: nat): seq<uint256> {
    seq(n, _ => 0)
  }

  // The returned struct. Beside an auxiliary leaf, value repeats that leaf's value.
  function Assemble(maxDepth: nat, index: uint256, root: uint256, d: Descent): Proof
    requires |d.siblings| <= maxDepth
  {
    var siblings := d.siblings + Zeros(maxDepth - |d.siblings|);
    match d.terminal
    case LeafNode(i, v) =>
      if i == index then Proof(root, true, siblings, index, v, false, 0, 0)
      else Proof(root, false, siblings, index, v, true, i, v)
    case _ =>
      Proof(root, false, siblings, index, 0, false, 0, 0)
  }

  function GetProof(store: Store, maxDepth: nat, index: uint256, root: uint256): Outcome<Proof> {
    var d :- Descend(store, maxDepth, index, root, 0);
    Ok(Assemble(maxDepth, index, root, d))
  }

  lemma {:induction false} DescentRunsOutOrEnds(store: Store, maxDepth: nat, index: uint256,
                                                nodeHash: uint256, depth: nat)
    requires depth <= maxDepth
    ensures var r := Descend(store, maxDepth, index, nodeHash, depth); r.Ok? || r == Reverted(SiblingsOutOfBounds)
    decreases maxDepth - depth
  {
    var node := GetNode(store, nodeHash);
    if node.MiddleNode? && depth < maxDepth {
      var next := if Bit(index, depth) then node.childRight else node.childLeft;
      DescentRunsOutOrEnds(store, maxDepth, index, next, depth + 1);
    }
  }

  // ---------- reading a proof ----------

  // One past the last non-zero sibling.
  function ProofDepth(siblings: seq<uint256>): nat {
    if siblings == [] then 0
    else if siblings[|siblings| - 1] != 0 then |siblings|
    else ProofDepth(siblings[..|siblings| - 1])
  }

  // Hashing upwards from the terminal node through siblings of depth d, d + 1, ...
  function FoldUp(h: Hasher, siblings: seq<uint256>, index: uint256, d: nat, terminalHash: uint256): uint256 {
    if siblings == [] then terminalHash
    else
      var below := FoldUp(h, siblings[1..], index, d + 1, terminalHash);
      if Bit(index, d) then h.poseidon2(siblings[0], below) else h.poseidon2(below, siblings[0])
  }

  function TerminalHash(h: Hasher, p: Proof): uint256 {
    if p.existence then h.poseidon3(p.index, p.value, 1)
    else if p.auxExistence then h.poseidon3(p.auxIndex, p.auxValue, 1)
    else 0
  }

  // A proof for the map m: complete, self-delimiting, and folding up to its root.
  ghost predicate ProvesAgainst(h: Hasher, m: Contents, maxDepth: nat, index: uint256, root: uint256, p: Proof) {
    var d := ProofDepth(p.siblings);
    var cell := Pow2(d);
    && p.root == root && p.index == index && |p.siblings| == maxDepth && d <= maxDepth
    && (p.existence <==> index in m)
    && (p.existence ==> p.value == m[index] && !p.auxExistence)
    && (p.auxExistence ==>
          && p.auxIndex in m && p.auxIndex != index && p.auxValue == p.value == m[p.auxIndex]
          && (forall k :: k in m && k % cell == index % cell <==> k == p.auxIndex))
    && (!p.existence && !p.auxExistence ==>
          p.value == 0 && forall k :: k in m ==> k % cell != index % cell)
    && (!p.auxExistence ==> p.auxIndex == 0 && p.auxValue == 0)
    && FoldUp(h, p.siblings[..d], index, 0, TerminalHash(h, p)) == root
  }

  // ---------- the walk in a tree ----------

  function TreePath(h: Hasher, t: Tree, index: uint256, d: nat): Descent {
    match t
    case Middle(l, r) =>
      var goRight := Bit(index, d);
      var rest := TreePath(h, if goRight then r else l, index, d + 1);
      Descent([RootHash(h, if goRight then l else r)] + rest.siblings, rest.terminal)
    case _ => Descent([], NodeOf(h, t))
  }

  // On a stored tree the walk never runs off the sibling array and follows the tree.
  lemma {:induction false} DescendFollowsTree(h: Hasher, store: Store, maxDepth: nat, t: Tree, index: uint256, d: nat)
    requires Sound(h, store) && 0 !in store && NodesIn(h, t) <= store.Values
    requires d <= maxDepth && WellShaped(t, d, maxDepth)
    ensures Descend(store, maxDepth, index, RootHash(h, t), d) == Ok(TreePath(h, t, index, d))
  {
    hide Bit, Plural, ContentsOf;
    LookupRoot(h, store, t);
    if t.Middle? {
      DescendFollowsTree(h, store, maxDepth, if Bit(index, d) then t.right else t.left, index, d + 1);
    }
  }

  lemma {:induction false} PathFoldsUp(h: Hasher, t: Tree, index: uint256, d: nat)
    ensures var p := TreePath(h, t, index, d);
            FoldUp(h, p.siblings, index, d, NodeHash(h, p.terminal)) == RootHash(h, t)
  {
    if t.Middle? {
      var next := if Bit(index, d) then t.right else t.left;
      PathFoldsUp(h, next, index, d + 1);
      var p := TreePath(h, t, index, d);
      assert p.siblings[1..] == TreePath(h, next, index, d + 1).siblings;
    }
  }

  // The entries that share with index the n bits from d on.
  ghost function Near(m: Contents, index: uint256, d: nat, n: nat): Contents {
    map k | k in m && Agree(index, k, d, d + n) :: m[k]
  }

  lemma {:induction false} NearInHalf(m: Contents, index: uint256, d: nat, n: nat)
    ensures Near(m, index, d, 0) == m
    ensures Near(m, index, d, n + 1) == Near(Half(m, d, Bit(index, d)), index, d + 1, n)
  {
  }

  // The walk stops at the first depth at which at most one entry is left on the path, and that is where it ends.
  lemma {:induction false} PathStopsWhenAlone(h: Hasher, m: Contents, index: uint256, d: nat, maxDepth: nat)
    requires Fits(m, d, maxDepth) && d <= maxDepth <= WORD_BITS
    ensures var p := TreePath(h, Canon(m, d), index, d);
            var n := |p.siblings|;
            && !Plural(Near(m, index, d, n))
            && (n > 0 ==> Plural(Near(m, index, d, n - 1)))
            && p.terminal == NodeOf(h, Canon(Near(m, index, d, n), d + n))
    decreases maxDepth - d
  {
    hide Half, Canon, Bit, Near, Plural;
    NearInHalf(m, index, d, 0);
    if !Plural(m) {
      CanonOfFew(m, d);
    } else {
      RoomToSplit(m, d, maxDepth);
      CanonOfLarger(m, d);
      var b := Bit(index, d);
      var near := Half(m, d, b);
      HalfFits(m, d, b, maxDepth);
      PathStopsWhenAlone(h, near, index, d + 1, maxDepth);
      var n := |TreePath(h, Canon(near, d + 1), index, d + 1).siblings|;
      NearInHalf(m, index, d, n);
      if n > 0 {
        NearInHalf(m, index, d, n - 1);
      }
    }
  }

  lemma {:induction false} LastSiblingIsNotEmpty(h: Hasher, store: Store, m: Contents,
                                                 index: uint256, d: nat, maxDepth: nat)
    requires Sound(h, store) && 0 !in store && NodesIn(h, Canon(m, d)) <= store.Values
    requires Fits(m, d, maxDepth) && d <= maxDepth <= WORD_BITS
    ensures var s := TreePath(h, Canon(m, d), index, d).siblings; s != [] ==> s[|s| - 1] != 0
    decreases maxDepth - d
  {
    hide Half, Canon, Bit, Plural;
    if !Plural(m) {
      CanonOfFew(m, d);
    } else {
      RoomToSplit(m, d, maxDepth);
      CanonOfLarger(m, d);
      var b := Bit(index, d);
      var near, far := Half(m, d, b), Half(m, d, !b);
      HalfFits(m, d, b, maxDepth);
      HalfFits(m, d, !b, maxDepth);
      if Plural(near) {
        RoomToSplit(near, d + 1, maxDepth);
        CanonOfLarger(near, d + 1);
        LastSiblingIsNotEmpty(h, store, near, index, d + 1, maxDepth);
      } else {
        CanonOfFew(near, d + 1);
        OneHalfEach(m, d, b);
        CanonOfSome(far, d + 1, maxDepth);
        LookupRoot(h, store, Canon(far, d + 1));
      }
    }
  }

  lemma {:induction false} OneHalfEach(m: Contents, d: nat, bit: bool)
    requires Plural(m) && !Plural(Half(m, d, bit))
    ensures Half(m, d, !bit) != map[]
  {
    var i, j :| i in m && j in m && i != j;
    assert !(i in Half(m, d, bit) && j in Half(m, d, bit));
    assert i in Half(m, d, !bit) || j in Half(m, d, !bit);
  }

  lemma {:induction false} CanonOfSome(m: Contents, d: nat, maxDepth: nat)
    requires Fits(m, d, maxDepth) && maxDepth <= WORD_BITS
    ensures Canon(m, d) == Empty <==> m == map[]
  {
    hide Canon;
    if Plural(m) {
      RoomToSplit(m, d, maxDepth);
      CanonOfLarger(m, d);
    } else {
      CanonOfFew(m, d);
    }
  }

  lemma {:induction false} PaddingIsNotDepth(path: seq<uint256>, n: nat)
    requires path != [] ==> path[|path| - 1] != 0
    ensures ProofDepth(path + Zeros(n)) == |path|
  {
    var s := path + Zeros(n);
    if n > 0 {
      assert s[..|s| - 1] == path + Zeros(n - 1);
      PaddingIsNotDepth(path, n - 1);
    } else {
      assert s == path;
    }
  }

  lemma {:induction false} NearIsCongruence(m: Contents, index: uint256, n: nat, k: uint256)
    ensures k in Near(m, index, 0, n) <==> k in m && k % Pow2(n) == index % Pow2(n)
  {
    AgreeIsCongruence(index, k, n);
  }

  ghost predicate TerminalTells(m: Contents, index: uint256, n: nat, terminal: Node) {
    && (match terminal
        case LeafNode(j, w) => j in m && m[j] == w && forall k :: k in m && k % Pow2(n) == index % Pow2(n) <==> k == j
        case EmptyNode => forall k :: k in m ==> k % Pow2(n) != index % Pow2(n)
        case MiddleNode(_, _) => false)
    && (index in m ==> terminal == LeafNode(index, m[index]))
  }

  // What the terminal node tells about the entries on the path.
  lemma {:induction false} TerminalSaysWho(h: Hasher, m: Contents, index: uint256, n: nat, terminal: Node)
    requires !Plural(Near(m, index, 0, n)) && terminal == NodeOf(h, Canon(Near(m, index, 0, n), n))
    ensures TerminalTells(m, index, n, terminal)
  {
    hide Canon, Pow2;
    var near := Near(m, index, 0, n);
    CanonOfFew(near, n);
    forall k: uint256
      ensures k in near <==> k in m && k % Pow2(n) == index % Pow2(n)
    {
      NearIsCongruence(m, index, n, k);
    }
    forall k | k in near
      ensures near == map[k := m[k]]
    {
      OnlyEntry(near, k);
    }
    if near != map[] {
      var k :| k in near;
      assert near == map[k := m[k]];
    }
  }

  lemma {:induction false} AssembledProves(h: Hasher, m: Contents, maxDepth: nat,
                                           index: uint256, root: uint256, path: Descent)
    requires |path.siblings| <= maxDepth
    requires path.siblings != [] ==> path.siblings[|path.siblings| - 1] != 0
    requires TerminalTells(m, index, |path.siblings|, path.terminal)
    requires FoldUp(h, path.siblings, index, 0, NodeHash(h, path.terminal)) == root
    ensures ProvesAgainst(h, m, maxDepth, index, root, Assemble(maxDepth, index, root, path))
  {
    hide FoldUp, Pow2, ProofDepth;
    var n := |path.siblings|;
    var p := Assemble(maxDepth, index, root, path);
    PaddingIsNotDepth(path.siblings, maxDepth - n);
    assert p.siblings[..n] == path.siblings;
    assert NodeHash(h, path.terminal) == TerminalHash(h, p);
  }

  // Every stored version answers every query, and the answer is right.
  lemma {:induction false} GetProofProves(h: Hasher, store: Store, maxDepth: nat, m: Contents, index: uint256)
    requires Sound(h, store) && 0 !in store && NodesIn(h, Canon(m, 0)) <= store.Values
    requires Fits(m, 0, maxDepth) && maxDepth <= WORD_BITS
    ensures var root := RootHash(h, Canon(m, 0));
            var path := TreePath(h, Canon(m, 0), index, 0);
            && |path.siblings| <= maxDepth
            && GetProof(store, maxDepth, index, root) == Ok(Assemble(maxDepth, index, root, path))
            && ProvesAgainst(h, m, maxDepth, index, root, Assemble(maxDepth, index, root, path))
  {
    hide Canon, Half, Bit, Near, Plural, Fits, FoldUp, TreePath, TerminalTells, ProvesAgainst, WellShaped, Assemble;
    var t := Canon(m, 0);
    var path := TreePath(h, t, index, 0);
    CanonIsWellShaped(m, 0, maxDepth);
    DescendFollowsTree(h, store, maxDepth, t, index, 0);
    PathFoldsUp(h, t, index, 0);
    PathStopsWhenAlone(h, m, index, 0, maxDepth);
    LastSiblingIsNotEmpty(h, store, m, index, 0, maxDepth);
    TerminalSaysWho(h, m, index, |path.siblings|, path.terminal);
    AssembledProves(h, m, maxDepth, index, RootHash(h, t), path);
  }
}
