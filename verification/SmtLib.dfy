// The library as the contract runs it: storage fields updated in place, reverts undone, proofs filled in by a loop.
module SmtLib {
  import opened Words
  import opened Outcomes
  import opened NodeStore
  import opened CanonicalTree
  import opened MembershipProof
  import opened RootLog
  import opened BinarySearchSmtRoots
  import opened SmtState
  import opened Invariant
  import opened Reachability
  import opened Updates
  import opened History
  import opened AnyHash

  class Smt {
    const hasher: Hasher

    // The Data struct.
    var nodes: Store
    var rootEntries: seq<RootEntry>
    var rootIndexes: RootIndexes
    var maxDepth: nat
    var initialized: bool

    // The block being executed.
    var timestamp: nat
    var blockNumber: nat

    // All successful writes so far.
    ghost var writes: seq<Write>

    function Storage(): Data
      reads this
    {
      Data(nodes, rootEntries, rootIndexes, maxDepth, initialized)
    }

    function Here(): World
      reads this
    {
      World(Storage(), timestamp, blockNumber)
    }

    ghost predicate Valid()
      reads this
    {
      Reached(hasher, Here(), writes)
    }

    // The map the tree stands for.
    ghost function Map(): Contents
      reads this
    {
      MapAfter(writes)
    }

    constructor (hasher: Hasher, timestamp: nat, blockNumber: nat)
      ensures Valid() && this.hasher == hasher
      ensures Here() == Deployed(timestamp, blockNumber) && writes == []
      ensures nodes == map[] && rootEntries == [] && rootIndexes == map[] && maxDepth == 0 && !initialized
      ensures this.timestamp == timestamp && this.blockNumber == blockNumber
    {
      this.hasher := hasher;
      nodes, rootEntries, rootIndexes, maxDepth, initialized := map[], [], map[], 0, false;
      this.timestamp, this.blockNumber := timestamp, blockNumber;
      writes := [];
      new;
      assert Run(hasher, Deployed(timestamp, blockNumber), []) == Here();
      assert Writes(hasher, Deployed(timestamp, blockNumber), []) == [];
    }

    // ---------- the environment ----------

    // Time passes between blocks, never backwards.
    method PassTime(seconds: nat, blocks: nat)
      requires Valid()
      modifies this`timestamp, this`blockNumber
      ensures Valid()
      ensures timestamp == old(timestamp) + seconds && blockNumber == old(blockNumber) + blocks
    {
      ghost var before := Here();
      timestamp, blockNumber := timestamp + seconds, blockNumber + blocks;
      Recorded(before, Tick(seconds, blocks), []);
    }

    // The bookkeeping that ends every call: the new state is the one the run reaches by this call.
    lemma Recorded(before: World, c: Call, logged: seq<Write>)
      requires Reached(hasher, before, writes)
      requires Here() == Step(hasher, before, c) && logged == Logged(hasher, before, c)
      ensures Reached(hasher, Here(), writes + logged)
      ensures logged == [] ==> Valid()
    {
      StepFromReached(hasher, before, writes, c);
      assert writes + [] == writes;
    }

    // ---------- writing operations ----------

    method SetMaxDepth(newMaxDepth: nat) returns (r: Outcome<()>)
      requires Valid()
      modifies this`maxDepth
      ensures Valid()
      ensures r.Ok? <==> old(maxDepth) < newMaxDepth <= MAX_DEPTH_HARD_CAP
      ensures maxDepth == if r.Ok? then newMaxDepth else old(maxDepth)
      ensures r.Reverted? ==> r.reason == DepthRefusal(old(maxDepth), newMaxDepth)
      ensures Here() == Step(hasher, old(Here()), CallSetMaxDepth(newMaxDepth))
      ensures r.Reverted? ==> Execute(hasher, old(Here()), CallSetMaxDepth(newMaxDepth)) == Reverted(r.reason)
    {
      ghost var before := Here();
      r := RaiseMaxDepth(newMaxDepth);
      Recorded(before, CallSetMaxDepth(newMaxDepth), []);
    }

    // Why a depth that is not accepted is refused: too small, whatever it is, comes before too large.
    static function DepthRefusal(current: nat, wanted: nat): Revert {
      if wanted > current then MaxDepthOverHardCap else if wanted > 0 then MaxDepthNotIncreased else MaxDepthZero
    }

    method RaiseMaxDepth(newMaxDepth: nat) returns (r: Outcome<()>)
      modifies this`maxDepth
      ensures match SmtState.SetMaxDepth(old(Storage()), newMaxDepth)
              case Ok(d) => r == Ok(()) && Storage() == d
              case Reverted(reason) => r == Reverted(reason) && maxDepth == old(maxDepth)
    {
      if newMaxDepth == 0 {
        return Reverted(MaxDepthZero);
      }
      if newMaxDepth <= maxDepth {
        return Reverted(MaxDepthNotIncreased);
      }
      if newMaxDepth > MAX_DEPTH_HARD_CAP {
        return Reverted(MaxDepthOverHardCap);
      }
      maxDepth := newMaxDepth;
      return Ok(());
    }

    method Initialize(newMaxDepth: nat) returns (r: Outcome<()>)
      requires Valid()
      modifies this`rootEntries, this`rootIndexes, this`maxDepth, this`initialized
      ensures Valid()
      ensures r.Ok? <==> !old(initialized) && old(maxDepth) < newMaxDepth <= MAX_DEPTH_HARD_CAP
      ensures r.Ok? ==> initialized && rootEntries == [RootEntry(0, 0, 0)] && Map() == map[]
      ensures maxDepth == if r.Ok? then newMaxDepth else old(maxDepth)
      ensures r.Reverted? ==> Here() == old(Here())
      ensures r.Reverted? ==>
                r.reason == if initialized then AlreadyInitialized else DepthRefusal(old(maxDepth), newMaxDepth)
      ensures Here() == Step(hasher, old(Here()), CallInitialize(newMaxDepth))
      ensures r.Reverted? ==> Execute(hasher, old(Here()), CallInitialize(newMaxDepth)) == Reverted(r.reason)
    {
      ghost var before := Here();
      ReachedIsInvariant(hasher, before, writes);
      if initialized {
        return Reverted(AlreadyInitialized);
      }
      var raised := RaiseMaxDepth(newMaxDepth);
      if raised.Reverted? {
        return raised;
      }
      AddEntry(0, 0, 0);
      initialized := true;
      Recorded(before, CallInitialize(newMaxDepth), []);
      return Ok(());
    }

    method AddEntry(root: uint256, createdAtTimestamp: nat, createdAtBlock: nat)
      modifies this`rootEntries, this`rootIndexes
      ensures Storage() == SmtState.AddEntry(old(Storage()), root, createdAtTimestamp, createdAtBlock)
      ensures rootEntries == old(rootEntries) + [RootEntry(root, createdAtTimestamp, createdAtBlock)]
      ensures old(IndexAgrees(rootEntries, rootIndexes)) ==> IndexAgrees(rootEntries, rootIndexes)
    {
      if IndexAgrees(rootEntries, rootIndexes) {
        PushKeepsIndexAgreement(rootEntries, rootIndexes, RootEntry(root, createdAtTimestamp, createdAtBlock));
      }
      rootEntries := rootEntries + [RootEntry(root, createdAtTimestamp, createdAtBlock)];
      rootIndexes := PushIndex(rootIndexes, root, |rootEntries| - 1);
    }

    // What a storage-writing helper leaves behind: on success the new store and a hash, on a revert only the reason
    // (whatever it wrote is undone by the call that fails with it).
    ghost predicate Returns(spec: Outcome<(Store, uint256)>, r: Outcome<uint256>)
      reads this
    {
      match spec
      case Ok((store, nodeHash)) => r == Ok(nodeHash) && nodes == store
      case Reverted(reason) => r == Reverted(reason)
    }

    method AddNode(node: Node) returns (r: Outcome<uint256>)
      requires node != EmptyNode
      modifies this`nodes
      ensures Returns(NodeStore.AddNode(hasher, old(nodes), node), r)
      ensures Sound(hasher, old(nodes)) ==>
                && (r.Ok? <==> CollisionFree(hasher, old(nodes).Values + {node}))
                && (r.Ok? ==> Sound(hasher, nodes) && nodes.Values == old(nodes).Values + {node})
    {
      if Sound(hasher, nodes) {
        AddNodeWrites(hasher, nodes, node);
      }
      var nodeHash := NodeHash(hasher, node);
      if GetNode(nodes, nodeHash) != EmptyNode {
        if nodes[nodeHash] != node {
          return Reverted(NodeMismatch);
        }
        return Ok(nodeHash);
      }
      nodes := nodes[nodeHash := node];
      return Ok(nodeHash);
    }

    method PushLeaf(newLeaf: Node, oldLeaf: Node, depth: nat) returns (r: Outcome<uint256>)
      requires newLeaf.LeafNode? && oldLeaf.LeafNode?
      modifies this`nodes
      ensures Returns(LeafInsertion.PushLeaf(hasher, old(nodes), maxDepth, newLeaf, oldLeaf, depth), r)
      decreases maxDepth - depth
    {
      if depth >= maxDepth {
        return Reverted(PushTooDeep);
      }
      var newLeafBitAtDepth := Bit(newLeaf.index, depth);
      var oldLeafBitAtDepth := Bit(oldLeaf.index, depth);
      if newLeafBitAtDepth == oldLeafBitAtDepth {
        var nextNodeHash :- PushLeaf(newLeaf, oldLeaf, depth + 1);
        var newNodeMiddle :=
          if newLeafBitAtDepth then MiddleNode(0, nextNodeHash) else MiddleNode(nextNodeHash, 0);
        r := AddNode(newNodeMiddle);
        return;
      }
      var newNodeMiddle :=
        if newLeafBitAtDepth then MiddleNode(NodeHash(hasher, oldLeaf), NodeHash(hasher, newLeaf))
        else MiddleNode(NodeHash(hasher, newLeaf), NodeHash(hasher, oldLeaf));
      var _ :- AddNode(newLeaf);
      r := AddNode(newNodeMiddle);
    }

    method AddLeafAt(newLeaf: Node, nodeHash: uint256, depth: nat) returns (r: Outcome<uint256>)
      requires newLeaf.LeafNode?
      modifies this`nodes
      ensures Returns(LeafInsertion.AddLeafAt(hasher, old(nodes), maxDepth, newLeaf, nodeHash, depth), r)
      decreases maxDepth + 1 - depth
    {
      if depth > maxDepth {
        return Reverted(DescentTooDeep);
      }
      match GetNode(nodes, nodeHash) {
        case EmptyNode =>
          r := AddNode(newLeaf);
        case LeafNode(index, value) =>
          if index == newLeaf.index {
            r := AddNode(newLeaf);
          } else {
            r := PushLeaf(newLeaf, LeafNode(index, value), depth);
          }
        case MiddleNode(childLeft, childRight) =>
          var newNodeMiddle;
          if Bit(newLeaf.index, depth) {
            var nextNodeHash :- AddLeafAt(newLeaf, childRight, depth + 1);
            newNodeMiddle := MiddleNode(childLeft, nextNodeHash);
          } else {
            var nextNodeHash :- AddLeafAt(newLeaf, childLeft, depth + 1);
            newNodeMiddle := MiddleNode(nextNodeHash, childRight);
          }
          r := AddNode(newNodeMiddle);
      }
    }

    method GetRoot() returns (r: Outcome<uint256>)
      requires Valid()
      ensures r == SmtState.GetRoot(Storage())
      ensures initialized ==> rootEntries != [] && r == Ok(rootEntries[|rootEntries| - 1].root)
      ensures !initialized ==> r == Reverted(NotInitialized)
      ensures initialized && 0 !in nodes ==> r == Ok(CanonicalHash(hasher, Map(), 0))
    {
      ReachedIsInvariant(hasher, Here(), writes);
      if !initialized {
        return Reverted(NotInitialized);
      }
      if 0 !in nodes {
        RootIsCanonical(hasher, Here(), writes);
      }
      return Ok(rootEntries[|rootEntries| - 1].root);
    }

    // The map is updated at i, or nothing changes; which of the two is decided by the map, the depth and the hashes.
    method AddLeaf(i: uint256, v: uint256) returns (r: Outcome<()>)
      requires Valid()
      modifies this`nodes, this`rootEntries, this`rootIndexes, this`writes
      ensures Valid()
      ensures Here() == Step(hasher, old(Here()), CallAddLeaf(i, v))
      ensures r.Reverted? ==> Execute(hasher, old(Here()), CallAddLeaf(i, v)) == Reverted(r.reason)
      ensures writes == old(writes) + if r.Ok? then [Write(i, v, timestamp, blockNumber)] else []
      ensures r.Ok? ==> Map() == old(Map())[i := v]
      ensures r.Reverted? ==> Here() == old(Here())
      ensures initialized && 0 !in old(nodes) ==>
                r == if Crowded(old(Map()), i, maxDepth) then Reverted(PushTooDeep)
                     else if !CollisionFree(hasher, old(nodes).Values + NodesIn(hasher, Canon(old(Map())[i := v], 0)))
                     then Reverted(NodeMismatch)
                     else Ok(())
      ensures !initialized ==> r == Reverted(NotInitialized)
      ensures r.Ok? ==> rootEntries == old(rootEntries) + [RootEntry(CurrentRoot(Storage()), timestamp, blockNumber)]
      ensures initialized ==>
                EndsAsWalked(hasher, old(nodes), maxDepth, i, v, 0,
                             Descend(old(nodes), maxDepth, i, CurrentRoot(old(Storage())), 0),
                             if r.Ok? then Ok((nodes, CurrentRoot(Storage()))) else Reverted(r.reason))
    {
      hide EndsAsWalked, Crowded, CollisionFree, NodesIn, Canon, CanonicalHash, MapAfter, Updated;
      ghost var before := Here();
      ghost var c := CallAddLeaf(i, v);
      if 0 !in nodes {
        AddLeafOutcome(hasher, before, writes, i, v);
      }
      if initialized {
        AddLeafEndsAsWalked(hasher, before, writes, i, v);
      }
      OneMoreWrite(hasher, writes, Write(i, v, timestamp, blockNumber));
      r := InsertLeaf(i, v);
      ghost var logged := if r.Ok? then [Write(i, v, timestamp, blockNumber)] else [];
      Recorded(before, c, logged);
      writes := writes + logged;
    }

    // The call itself: a revert anywhere undoes whatever had been stored.
    method InsertLeaf(i: uint256, v: uint256) returns (r: Outcome<()>)
      requires Valid()
      modifies this`nodes, this`rootEntries, this`rootIndexes
      ensures match Execute(hasher, old(Here()), CallAddLeaf(i, v))
              case Ok(after) => r == Ok(()) && Here() == after
              case Reverted(reason) => r == Reverted(reason) && Here() == old(Here())
    {
      var prevRoot :- GetRoot();
      var saved := nodes;
      var newRoot := AddLeafAt(LeafNode(i, v), prevRoot, 0);
      if newRoot.Reverted? {
        nodes := saved;
        return Reverted(newRoot.reason);
      }
      AddEntry(newRoot.value, timestamp, blockNumber);
      return Ok(());
    }

    // ---------- reading operations ----------

    method GetProofByRoot(index: uint256, historicalRoot: uint256) returns (r: Outcome<Proof>)
      requires Valid()
      ensures r == SmtState.GetProofByRoot(Storage(), index, historicalRoot)
      ensures r == Reverted(RootDoesNotExist) <==>
              forall p :: 0 <= p < |rootEntries| ==> rootEntries[p].root != historicalRoot
      ensures 0 !in nodes ==>
                forall k :: 0 <= k < |rootEntries| && rootEntries[k].root == historicalRoot ==>
                  k <= |writes| && r.Ok? &&
                  ProvesAgainst(hasher, MapAfter(writes[..k]), maxDepth, index, historicalRoot, r.value)
    {
      UnknownRootsAreRefused(hasher, Here(), writes, index, historicalRoot);
      r := CollectProof(index, historicalRoot);
      if 0 !in nodes {
        forall k | 0 <= k < |rootEntries| && rootEntries[k].root == historicalRoot
          ensures k <= |writes| && r.Ok?
          ensures ProvesAgainst(hasher, MapAfter(writes[..k]), maxDepth, index, historicalRoot, r.value)
        {
          ProofOfEveryVersion(hasher, Here(), writes, k, index);
        }
      }
    }

    method CollectProof(index: uint256, historicalRoot: uint256) returns (r: Outcome<Proof>)
      ensures r == SmtState.GetProofByRoot(Storage(), index, historicalRoot)
      ensures r == Reverted(RootDoesNotExist) <==> IndexesOf(rootIndexes, historicalRoot) == []
    {
      hide Bit, NodeHash;
      DescentRunsOutOrEnds(nodes, maxDepth, index, historicalRoot, 0);
      if !RootExists(Storage(), historicalRoot) {
        return Reverted(RootDoesNotExist);
      }
      var siblings := new uint256[maxDepth];
      for i := 0 to maxDepth
        invariant forall k :: 0 <= k < i ==> siblings[k] == 0
      {
        siblings[i] := 0;
      }
      var existence, value := false, 0;
      var auxExistence, auxIndex, auxValue := false, 0, 0;
      var nextNodeHash := historicalRoot;
      ghost var whole := Descend(nodes, maxDepth, index, historicalRoot, 0);
      var i := 0;
      ContinuesFromStart(whole);
      assert siblings[..0] == [];
      while i <= maxDepth
        invariant i <= maxDepth == siblings.Length
        invariant forall k :: i <= k < maxDepth ==> siblings[k] == 0
        invariant !existence && value == 0 && !auxExistence && auxIndex == 0 && auxValue == 0
        invariant Continues(whole, siblings[..i], Descend(nodes, maxDepth, index, nextNodeHash, i))
        decreases maxDepth - i
      {
        match GetNode(nodes, nextNodeHash) {
          case EmptyNode =>
            break;
          case LeafNode(leafIndex, leafValue) =>
            if leafIndex == index {
              existence, value := true, leafValue;
            } else {
              auxExistence, auxIndex, auxValue, value := true, leafIndex, leafValue, leafValue;
            }
            break;
          case MiddleNode(childLeft, childRight) =>
            if i == maxDepth {
              return Reverted(SiblingsOutOfBounds);
            }
            ghost var soFar := siblings[..i];
            if Bit(index, i) {
              nextNodeHash := childRight;
              siblings[i] := childLeft;
            } else {
              nextNodeHash := childLeft;
              siblings[i] := childRight;
            }
            assert siblings[..i + 1] == soFar + [siblings[i]];
            ContinuesByOne(whole, soFar, siblings[i], Descend(nodes, maxDepth, index, nextNodeHash, i + 1));
            i := i + 1;
        }
      }
      assert siblings[..i] + [] == siblings[..i];
      assert siblings[..] == siblings[..i] + Zeros(maxDepth - i);
      return Ok(Proof(historicalRoot, existence, siblings[..], index, value, auxExistence, auxIndex, auxValue));
    }

    // The whole descent is what has been collected so far followed by the rest.
    static ghost predicate Continues(whole: Outcome<Descent>, soFar: seq<uint256>, rest: Outcome<Descent>) {
      match rest
      case Ok(d) => whole == Ok(Descent(soFar + d.siblings, d.terminal))
      case Reverted(reason) => whole == Reverted(reason)
    }

    static lemma {:induction false} ContinuesFromStart(whole: Outcome<Descent>)
      ensures Continues(whole, [], whole)
    {
      if whole.Ok? {
        assert [] + whole.value.siblings == whole.value.siblings;
      }
    }

    static lemma {:induction false} ContinuesByOne(whole: Outcome<Descent>, soFar: seq<uint256>, sibling: uint256,
                                                   rest: Outcome<Descent>)
      requires Continues(whole, soFar,
                         if rest.Ok? then Ok(Descent([sibling] + rest.value.siblings, rest.value.terminal))
                         else Reverted(rest.reason))
      ensures Continues(whole, soFar + [sibling], rest)
    {
      if rest.Ok? {
        assert soFar + ([sibling] + rest.value.siblings) == soFar + [sibling] + rest.value.siblings;
      }
    }

    method GetProof(index: uint256) returns (r: Outcome<Proof>)
      requires Valid()
      ensures !initialized ==> r == Reverted(NotInitialized)
      ensures initialized && 0 !in nodes ==>
                r.Ok? && ProvesAgainst(hasher, Map(), maxDepth, index, CanonicalHash(hasher, Map(), 0), r.value)
    {
      var root :- GetRoot();
      ReachedIsInvariant(hasher, Here(), writes);
      r := GetProofByRoot(index, root);
      assert writes[..|writes|] == writes;
      assert rootEntries[|writes|].root == root;
    }

    method GetRootInfoByTimestampOrBlock(value: nat, st: SearchType) returns (r: Outcome<RootEntryInfo>)
      requires Valid()
      ensures r == GetRootInfoAt(Storage(), value, st)
      ensures r.Ok? ==> exists k: nat :: CurrentAt(rootEntries, k, value, st) && Describes(rootEntries, k, r.value)
      ensures r.Reverted? ==>
                r.reason == RootEntryNotFound && forall e :: e in rootEntries ==> FieldSelector(e, st) > value
    {
      LogIsSorted(hasher, Here(), writes, st);
      var index, found := BinarySearchUint256(rootEntries, value, st);
      InfoDescribesEntry(rootEntries, index);
      assert found ==> CurrentAt(rootEntries, index, value, st);
      if !found {
        return Reverted(RootEntryNotFound);
      }
      return GetRootInfoByIndex(rootEntries, index);
    }

    // The entry that was current at the given time; the search on an initialized tree always finds one.
    method GetRootInfoByTime(time: nat) returns (r: Outcome<RootEntryInfo>)
      requires Valid()
      ensures r == GetRootInfoBy(Here(), time, Timestamp)
      ensures time > timestamp ==> r == Reverted(FutureTimestamp)
      ensures r == Reverted(RootEntryNotFound) <==> !initialized && time <= timestamp
      ensures time <= timestamp && initialized ==>
                r.Ok? && exists k: nat ::
                  CurrentAt(rootEntries, k, time, Timestamp) && Describes(rootEntries, k, r.value)
    {
      EntryNotFoundIffUninitialized(hasher, Here(), writes, 0, time, Timestamp);
      if time > timestamp {
        return Reverted(FutureTimestamp);
      }
      r := GetRootInfoByTimestampOrBlock(time, Timestamp);
      if initialized {
        LookupFindsCurrentEntry(hasher, Here(), writes, time, Timestamp);
        assert CurrentAt(rootEntries, LatestAtOrBefore(rootEntries, time, Timestamp).0, time, Timestamp);
      }
    }

    method GetRootInfoByBlock(block: nat) returns (r: Outcome<RootEntryInfo>)
      requires Valid()
      ensures r == GetRootInfoBy(Here(), block, Block)
      ensures block > blockNumber ==> r == Reverted(FutureBlock)
      ensures r == Reverted(RootEntryNotFound) <==> !initialized && block <= blockNumber
      ensures block <= blockNumber && initialized ==>
                r.Ok? && exists k: nat ::
                  CurrentAt(rootEntries, k, block, Block) && Describes(rootEntries, k, r.value)
    {
      EntryNotFoundIffUninitialized(hasher, Here(), writes, 0, block, Block);
      if block > blockNumber {
        return Reverted(FutureBlock);
      }
      r := GetRootInfoByTimestampOrBlock(block, Block);
      if initialized {
        LookupFindsCurrentEntry(hasher, Here(), writes, block, Block);
        assert CurrentAt(rootEntries, LatestAtOrBefore(rootEntries, block, Block).0, block, Block);
      }
    }

    // What had been written to index by the given time: nothing, or the last value.
    method GetProofByTime(index: uint256, time: nat) returns (r: Outcome<Proof>)
      requires Valid()
      ensures r == GetProofBy(Here(), index, time, Timestamp)
      ensures time > timestamp ==> r == Reverted(FutureTimestamp)
      ensures r == Reverted(RootEntryNotFound) <==> !initialized && time <= timestamp
      ensures initialized && 0 !in nodes && time <= timestamp ==>
                && r.Ok?
                && (r.value.existence <==>
                      exists k :: 0 <= k < |writes| && writes[k].index == index && writes[k].timestamp <= time)
                && (forall k: nat :: IsLastWrite(writes, index, time, Timestamp, k) ==>
                      r.value.value == writes[k].value)
                && forall k: nat :: MadeBy(writes, time, Timestamp, k) ==>
                     ProvesAgainst(hasher, MapAfter(writes[..k]), maxDepth, index,
                                   CanonicalHash(hasher, MapAfter(writes[..k]), 0), r.value)
      ensures initialized && time <= timestamp ==>
                exists k: nat ::
                  && MadeBy(writes, time, Timestamp, k) && CurrentAt(rootEntries, k, time, Timestamp)
                  && r == SmtState.GetProofByRoot(Storage(), index, rootEntries[k].root)
    {
      hide MapAfter, ProvesAgainst, CanonicalHash;
      EntryNotFoundIffUninitialized(hasher, Here(), writes, index, time, Timestamp);
      if initialized && time <= timestamp {
        ghost var k := ProofByTimeIsByRoot(hasher, Here(), writes, index, time, Timestamp);
        if 0 !in nodes {
          TimeTravel(hasher, Here(), writes, index, time, Timestamp);
        }
      }
      var rootInfo :- GetRootInfoByTime(time);
      r := GetProofByRoot(index, rootInfo.root);
    }

    method GetProofByBlock(index: uint256, block: nat) returns (r: Outcome<Proof>)
      requires Valid()
      ensures r == GetProofBy(Here(), index, block, Block)
      ensures block > blockNumber ==> r == Reverted(FutureBlock)
      ensures r == Reverted(RootEntryNotFound) <==> !initialized && block <= blockNumber
      ensures initialized && 0 !in nodes && block <= blockNumber ==>
                && r.Ok?
                && (r.value.existence <==>
                      exists k :: 0 <= k < |writes| && writes[k].index == index && writes[k].blockNumber <= block)
                && (forall k: nat :: IsLastWrite(writes, index, block, Block, k) ==>
                      r.value.value == writes[k].value)
                && forall k: nat :: MadeBy(writes, block, Block, k) ==>
                     ProvesAgainst(hasher, MapAfter(writes[..k]), maxDepth, index,
                                   CanonicalHash(hasher, MapAfter(writes[..k]), 0), r.value)
      ensures initialized && block <= blockNumber ==>
                exists k: nat ::
                  && MadeBy(writes, block, Block, k) && CurrentAt(rootEntries, k, block, Block)
                  && r == SmtState.GetProofByRoot(Storage(), index, rootEntries[k].root)
    {
      hide MapAfter, ProvesAgainst, CanonicalHash;
      EntryNotFoundIffUninitialized(hasher, Here(), writes, index, block, Block);
      if initialized && block <= blockNumber {
        ghost var k := ProofByTimeIsByRoot(hasher, Here(), writes, index, block, Block);
        if 0 !in nodes {
          TimeTravel(hasher, Here(), writes, index, block, Block);
        }
      }
      var rootInfo :- GetRootInfoByBlock(block);
      r := GetProofByRoot(index, rootInfo.root);
    }

    // The info of the last occurrence of a root.
    method GetRootInfo(root: uint256) returns (r: Outcome<RootEntryInfo>)
      requires Valid()
      ensures r == SmtState.GetRootInfo(Storage(), root)
      ensures r.Reverted? ==>
                r.reason == RootDoesNotExist && forall p :: 0 <= p < |rootEntries| ==> rootEntries[p].root != root
      ensures r.Ok? ==> exists p :: 0 <= p < |rootEntries| && rootEntries[p].root == root &&
                                    (forall q :: p < q < |rootEntries| ==> rootEntries[q].root != root) &&
                                    Describes(rootEntries, p, r.value)
    {
      IndexesInvertTheLog(hasher, Here(), writes, root);
      if !RootExists(Storage(), root) {
        return Reverted(RootDoesNotExist);
      }
      var indexes := IndexesOf(rootIndexes, root);
      var lastIndex := indexes[|indexes| - 1];
      assert lastIndex in indexes;
      assert forall q: nat :: lastIndex < q < |rootEntries| ==> q !in indexes;
      InfoDescribesEntry(rootEntries, lastIndex);
      return GetRootInfoByIndex(rootEntries, lastIndex);
    }
  }
}
