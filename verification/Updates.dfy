// What addLeaf does to the map, and why the root depends on the map alone.
module Updates {
  import opened Words
  import opened Outcomes
  import opened NodeStore
  import opened CanonicalTree
  import opened LeafInsertion
  import opened RootLog
  import opened SmtState
  import opened Invariant
  import opened Reachability

  // Another index of m has the same low bits as i, as many as the tree is deep.
  ghost predicate Crowded(m: Contents, i: uint256, maxDepth: nat) {
    exists j :: j in m && j != i && j % Pow2(maxDepth) == i % Pow2(maxDepth)
  }

  lemma {:induction false} ClashIsCrowding(m: Contents, i: uint256, maxDepth: nat)
    ensures Clash(m, i, 0, maxDepth) <==> Crowded(m, i, maxDepth)
  {
    hide Agree, Pow2;
    forall j: uint256
      ensures Agree(i, j, 0, maxDepth) <==> j % Pow2(maxDepth) == i % Pow2(maxDepth)
    {
      AgreeIsCongruence(i, j, maxDepth);
    }
  }

  // At full depth no index crowds another.
  lemma {:induction false} FullDepthIsNeverCrowded(m: Contents, i: uint256, maxDepth: nat)
    requires maxDepth == WORD_BITS
    ensures !Crowded(m, i, maxDepth)
  {
    hide Agree, Pow2;
    ClashIsCrowding(m, i, maxDepth);
    if j :| j in m && j != i && Agree(i, j, 0, maxDepth) {
      WordsWithSameBitsAreEqual(i, j);
    }
  }

  // The data after a successful addLeaf: the map updated at i, its tree's nodes added, one more entry, nothing else.
  ghost predicate Updated(h: Hasher, w: World, m: Contents, i: uint256, v: uint256, after: World) {
    var t := Canon(m[i := v], 0);
    && Sound(h, after.data.nodes)
    && after.data.nodes.Values == w.data.nodes.Values + NodesIn(h, t)
    && after.data.rootEntries ==
       w.data.rootEntries + [RootEntry(CanonicalHash(h, m[i := v], 0), w.timestamp, w.blockNumber)]
    && after == w.(data := w.data.(nodes := after.data.nodes, rootEntries := after.data.rootEntries,
                                   rootIndexes := after.data.rootIndexes))
  }

  // addLeaf has exactly four outcomes, and the map decides which: the guard on descending too deep is never one.
  lemma {:induction false} AddLeafOutcome(h: Hasher, w: World, writes: seq<Write>, i: uint256, v: uint256)
    requires ReachedClean(h, w, writes)
    ensures var m := MapAfter(writes);
            var result := Execute(h, w, CallAddLeaf(i, v));
            if !w.data.initialized then result == Reverted(NotInitialized)
            else if Crowded(m, i, w.data.maxDepth) then result == Reverted(PushTooDeep)
            else if !CollisionFree(h, w.data.nodes.Values + NodesIn(h, Canon(m[i := v], 0))) then
              result == Reverted(NodeMismatch)
            else result.Ok? && Updated(h, w, m, i, v, result.value)
  {
    hide Reached, AddLeafAt, Canon, Sound, CollisionFree, Clash, Crowded, MapAfter, IndexAgrees;
    hide NodesIn, RootHash, TreeInvariant, CanonicalHash;
    ReachedIsInvariant(h, w, writes);
    if w.data.initialized {
      AddLeafInserts(h, w, writes, i, v);
      ClashIsCrowding(MapAfter(writes), i, w.data.maxDepth);
      RootHashIsCanonicalHash(h, MapAfter(writes)[i := v], 0);
    }
  }

  // With the depth at its cap no write is ever refused for depth, by either of the two guards.
  lemma {:induction false} FullDepthNeverRefuses(h: Hasher, w: World, writes: seq<Write>, i: uint256, v: uint256)
    requires ReachedClean(h, w, writes) && w.data.maxDepth == MAX_DEPTH_HARD_CAP
    ensures Execute(h, w, CallAddLeaf(i, v)) !in {Reverted(PushTooDeep), Reverted(DescentTooDeep)}
  {
    hide Reached, AddLeaf, Crowded, CollisionFree, Canon, MapAfter;
    AddLeafOutcome(h, w, writes, i, v);
    FullDepthIsNeverCrowded(MapAfter(writes), i, w.data.maxDepth);
  }

  // The current root is the canonical hash of the current map.
  lemma {:induction false} RootIsCanonical(h: Hasher, w: World, writes: seq<Write>)
    requires ReachedClean(h, w, writes) && w.data.initialized
    ensures GetRoot(w.data) == Ok(CanonicalHash(h, MapAfter(writes), 0))
  {
    hide Reached, Canon, RootHash, Inserted, AddLeafAt, MapAfter, Inv, CanonicalHash;
    ReachedIsInvariant(h, w, writes);
    AddLeafInserts(h, w, writes, 0, 0);
    RootHashIsCanonicalHash(h, MapAfter(writes), 0);
  }

  // Two histories that end in one map end in one root, whatever they wrote, overwrote or resized on the way.
  lemma {:induction false} HistoryIndependence(h: Hasher, w1: World, writes1: seq<Write>,
                                               w2: World, writes2: seq<Write>)
    requires ReachedClean(h, w1, writes1) && w1.data.initialized
    requires ReachedClean(h, w2, writes2) && w2.data.initialized
    requires MapAfter(writes1) == MapAfter(writes2)
    ensures GetRoot(w1.data) == GetRoot(w2.data)
  {
    hide Reached, MapAfter, CanonicalHash;
    RootIsCanonical(h, w1, writes1);
    RootIsCanonical(h, w2, writes2);
  }

  // Every version of the log is stored, fits, and is named by its entry.
  lemma {:induction false} VersionOfEntry(h: Hasher, w: World, writes: seq<Write>, k: nat)
    requires ReachedClean(h, w, writes) && w.data.initialized && k <= |writes|
    ensures |w.data.rootEntries| == |writes| + 1 && w.data.maxDepth <= MAX_DEPTH_HARD_CAP
    ensures w.data.rootEntries[k].root == RootHash(h, Version(writes, k)) == CanonicalHash(h, MapAfter(writes[..k]), 0)
    ensures Sound(h, w.data.nodes) && NodesIn(h, Version(writes, k)) <= w.data.nodes.Values
    ensures Fits(MapAfter(writes[..k]), 0, w.data.maxDepth)
  {
    hide Reached, MapAfter, Canon, Fits, Sound, NodesIn, RootHash, IndexAgrees, CanonicalHash;
    ReachedIsInvariant(h, w, writes);
    VersionIsStored(h, writes, k);
    PrefixFits(writes, k, w.data.maxDepth);
    RootHashIsCanonicalHash(h, MapAfter(writes[..k]), 0);
  }

  lemma {:induction false} PrefixKeys(writes: seq<Write>, k: nat)
    requires k <= |writes|
    ensures MapAfter(writes[..k]).Keys <= MapAfter(writes).Keys
  {
    if k == |writes| {
      assert writes[..k] == writes;
    } else {
      var before := writes[..|writes| - 1];
      assert before[..k] == writes[..k];
      PrefixKeys(before, k);
    }
  }

  lemma {:induction false} PrefixFits(writes: seq<Write>, k: nat, maxDepth: nat)
    requires k <= |writes| && Fits(MapAfter(writes), 0, maxDepth)
    ensures Fits(MapAfter(writes[..k]), 0, maxDepth)
  {
    PrefixKeys(writes, k);
    FitsDeeper(MapAfter(writes), MapAfter(writes[..k]), 0, maxDepth, maxDepth);
  }

  // Within one history, two entries have one root exactly when their versions are one map.
  lemma {:induction false} VersionIdentity(h: Hasher, w: World, writes: seq<Write>, j: nat, k: nat)
    requires ReachedClean(h, w, writes) && w.data.initialized && j <= |writes| && k <= |writes|
    ensures |w.data.rootEntries| == |writes| + 1
    ensures w.data.rootEntries[j].root == w.data.rootEntries[k].root
       <==> MapAfter(writes[..j]) == MapAfter(writes[..k])
  {
    hide Reached, MapAfter, Canon, Fits, Sound, NodesIn, RootHash;
    VersionOfEntry(h, w, writes, j);
    VersionOfEntry(h, w, writes, k);
    CanonIsWellShaped(MapAfter(writes[..j]), 0, w.data.maxDepth);
    CanonIsWellShaped(MapAfter(writes[..k]), 0, w.data.maxDepth);
    if w.data.rootEntries[j].root == w.data.rootEntries[k].root {
      SameHashSameTree(h, w.data.nodes, Version(writes, j), Version(writes, k));
    }
  }

  // Every version has the shape the library promises, at the depth the tree has now, and holds exactly its map.
  lemma {:induction false} VersionsAreWellShaped(h: Hasher, w: World, writes: seq<Write>, k: nat)
    requires ReachedClean(h, w, writes) && w.data.initialized && k <= |writes|
    ensures WellShaped(Version(writes, k), 0, w.data.maxDepth)
    ensures ContentsOf(Version(writes, k)) == MapAfter(writes[..k])
  {
    hide Reached, MapAfter, Canon, Fits, WellShaped;
    VersionOfEntry(h, w, writes, k);
    CanonIsWellShaped(MapAfter(writes[..k]), 0, w.data.maxDepth);
  }

  // Writing what is already there succeeds, adds no node, and repeats the root.
  lemma {:induction false} RewriteAddsNothing(h: Hasher, w: World, writes: seq<Write>, i: uint256, v: uint256)
    requires ReachedClean(h, w, writes) && w.data.initialized
    requires i in MapAfter(writes) && MapAfter(writes)[i] == v
    ensures var result := Execute(h, w, CallAddLeaf(i, v));
            && result.Ok?
            && result.value.data.nodes == w.data.nodes
            && GetRoot(result.value.data) == GetRoot(w.data)
            && |result.value.data.rootEntries| == |w.data.rootEntries| + 1
  {
    hide Reached, Canon, Fits, MapAfter, Crowded, AddLeaf, NodesIn;
    var m := MapAfter(writes);
    assert m[i := v] == m;
    assert writes[..|writes|] == writes;
    AddLeafOutcome(h, w, writes, i, v);
    VersionOfEntry(h, w, writes, |writes|);
    UpdateFits(m, i, v, 0, w.data.maxDepth);
    ClashIsCrowding(m, i, w.data.maxDepth);
    assert w.data.nodes.Values + NodesIn(h, Canon(m, 0)) == w.data.nodes.Values;
    SoundIsCollisionFree(h, w.data.nodes);
    RootIsCanonical(h, w, writes);
    SoundStoresWithSameNodesAreEqual(h, w.data.nodes, Execute(h, w, CallAddLeaf(i, v)).value.data.nodes);
  }

  // Growth: one entry a write, and no more than maxDepth + 1 nodes a write over the whole run.
  lemma {:induction false} GrowthIsBounded(h: Hasher, w: World, writes: seq<Write>)
    requires Reached(h, w, writes)
    ensures |w.data.nodes| <= |writes| * (w.data.maxDepth + 1)
    ensures w.data.initialized ==> |w.data.rootEntries| == |writes| + 1
    ensures forall i, v :: var r := Execute(h, w, CallAddLeaf(i, v));
                           r.Ok? ==> |r.value.data.nodes| <= |w.data.nodes| + w.data.maxDepth + 1
  {
    hide Reached, AddLeafAt, IndexAgrees;
    ReachedIsInvariant(h, w, writes);
    forall i, v | Execute(h, w, CallAddLeaf(i, v)).Ok?
      ensures |Execute(h, w, CallAddLeaf(i, v)).value.data.nodes| <= |w.data.nodes| + w.data.maxDepth + 1
    {
      AddLeafAtGrows(h, w.data.nodes, w.data.maxDepth, LeafNode(i, v), GetRoot(w.data).value, 0);
    }
  }

  // ---------- many writes ----------

  // No two of these indices share their low maxDepth bits.
  ghost predicate Spread(keys: set<uint256>, maxDepth: nat) {
    forall i, j :: i in keys && j in keys && i != j ==> i % Pow2(maxDepth) != j % Pow2(maxDepth)
  }

  ghost function IndicesOf(calls: seq<Call>): set<uint256> {
    set c | c in calls && c.CallAddLeaf? :: c.index
  }

  ghost predicate OnlyWrites(calls: seq<Call>) {
    forall c :: c in calls ==> c.CallAddLeaf?
  }

  // The outcome of the n-th call of a run.
  function OutcomeOf(h: Hasher, w: World, calls: seq<Call>, n: nat): Outcome<World>
    requires n < |calls|
  {
    Execute(h, Run(h, w, calls[..n]), calls[n])
  }

  ghost predicate AllSucceed(h: Hasher, w: World, calls: seq<Call>) {
    forall n :: 0 <= n < |calls| ==> OutcomeOf(h, w, calls, n).Ok?
  }

  ghost predicate NoneCollides(h: Hasher, w: World, calls: seq<Call>) {
    forall n :: 0 <= n < |calls| ==> OutcomeOf(h, w, calls, n) != Reverted(NodeMismatch)
  }

  lemma {:induction false} FitsIsSpread(m: Contents, maxDepth: nat)
    ensures Fits(m, 0, maxDepth) <==> Spread(m.Keys, maxDepth)
  {
    hide Agree, Pow2;
    forall i: uint256, j: uint256
      ensures Agree(i, j, 0, maxDepth) <==> i % Pow2(maxDepth) == j % Pow2(maxDepth)
    {
      AgreeIsCongruence(i, j, maxDepth);
    }
  }

  lemma {:induction false} CrowdedIsNotSpread(m: Contents, i: uint256, maxDepth: nat)
    requires Spread(m.Keys, maxDepth)
    ensures Crowded(m, i, maxDepth) <==> !Spread(m.Keys + {i}, maxDepth)
  {
    hide Pow2;
    if Crowded(m, i, maxDepth) {
      var j :| j in m && j != i && j % Pow2(maxDepth) == i % Pow2(maxDepth);
      assert j in m.Keys + {i} && i in m.Keys + {i};
    }
  }

  lemma {:induction false} IndicesOfLast(calls: seq<Call>)
    requires calls != [] && OnlyWrites(calls)
    ensures IndicesOf(calls) == IndicesOf(calls[..|calls| - 1]) + {calls[|calls| - 1].index}
    ensures OnlyWrites(calls[..|calls| - 1])
  {
    var before, last := calls[..|calls| - 1], calls[|calls| - 1];
    assert calls == before + [last];
    assert last in calls;
    forall i | i in IndicesOf(before) + {last.index}
      ensures i in IndicesOf(calls)
    {
      if i in IndicesOf(before) {
        var c :| c in before && c.CallAddLeaf? && c.index == i;
        assert c in calls;
      }
    }
  }

  lemma {:induction false} OutcomesOfPrefix(h: Hasher, w: World, calls: seq<Call>)
    requires calls != []
    ensures var before := calls[..|calls| - 1];
            var last := Execute(h, Run(h, w, before), calls[|calls| - 1]);
            && (AllSucceed(h, w, calls) <==> AllSucceed(h, w, before) && last.Ok?)
            && (NoneCollides(h, w, calls) <==> NoneCollides(h, w, before) && last != Reverted(NodeMismatch))
  {
    hide Execute, Run;
    var n := |calls| - 1;
    var before := calls[..n];
    forall k | 0 <= k < n
      ensures OutcomeOf(h, w, before, k) == OutcomeOf(h, w, calls, k)
    {
      assert before[..k] == calls[..k];
    }
    assert OutcomeOf(h, w, calls, n) == Execute(h, Run(h, w, before), calls[n]);
  }

  // The map's indices after one more call that succeeds.
  lemma {:induction false} LastWriteAddsItsIndex(h: Hasher, w: World, writes: seq<Write>, c: Call)
    requires c.CallAddLeaf?
    ensures MapAfter(writes + Logged(h, w, c)).Keys ==
            MapAfter(writes).Keys + if Execute(h, w, c).Ok? then {c.index} else {}
  {
    hide Execute;
    var longer := writes + Logged(h, w, c);
    if Execute(h, w, c).Ok? {
      assert longer[..|longer| - 1] == writes;
    } else {
      assert longer == writes;
    }
  }

  // A run of writes goes through if and only if the indices it would leave in the tree are spread; whether the depth
  // suffices is a matter of the set of indices.
  lemma {:induction false} WritesSucceedWhenSpread(h: Hasher, w: World, writes: seq<Write>, calls: seq<Call>)
    requires ReachedClean(h, w, writes) && w.data.initialized
    requires OnlyWrites(calls) && 0 !in Run(h, w, calls).data.nodes && NoneCollides(h, w, calls)
    ensures AllSucceed(h, w, calls) <==> Spread(MapAfter(writes).Keys + IndicesOf(calls), w.data.maxDepth)
    ensures AllSucceed(h, w, calls) ==>
              MapAfter(writes + Writes(h, w, calls)).Keys == MapAfter(writes).Keys + IndicesOf(calls)
    ensures Run(h, w, calls).data.initialized && Run(h, w, calls).data.maxDepth == w.data.maxDepth
  {
    hide Reached, Spread, MapAfter, AddLeaf, Crowded, CollisionFree, Canon, Sound, AllSucceed, NoneCollides,
      IndicesOf, OnlyWrites;
    var keys := MapAfter(writes).Keys;
    if calls == [] {
      assert writes + Writes(h, w, calls) == writes;
      IndicesOfNone(h, w);
      assert keys + IndicesOf(calls) == keys;
      IndicesAreSpread(h, w, writes);
    } else {
      var n := |calls| - 1;
      var before, c := calls[..n], calls[n];
      var w', writes' := Run(h, w, before), writes + Writes(h, w, before);
      IndicesOfLast(calls);
      OutcomesOfPrefix(h, w, calls);
      RunFromReached(h, w, writes, before);
      StepKeepsNodes(h, w', writes', c);
      WritesSucceedWhenSpread(h, w, writes, before);
      WritesAreWrites(calls, c);
      AddLeafOutcome(h, w', writes', c.index, c.value);
      LastWriteAddsItsIndex(h, w', writes', c);
      assert writes' + Logged(h, w', c) == writes + Writes(h, w, calls);
      assert keys + IndicesOf(calls) == keys + IndicesOf(before) + {c.index};
      if AllSucceed(h, w, before) {
        IndicesAreSpread(h, w', writes');
        CrowdedIsNotSpread(MapAfter(writes'), c.index, w.data.maxDepth);
      } else if Spread(keys + IndicesOf(calls), w.data.maxDepth) {
        SpreadShrinks(keys + IndicesOf(before), keys + IndicesOf(calls), w.data.maxDepth);
      }
    }
  }

  lemma {:induction false} WritesAreWrites(calls: seq<Call>, c: Call)
    requires OnlyWrites(calls) && c in calls
    ensures c.CallAddLeaf?
  {
  }

  lemma {:induction false} SpreadShrinks(keys: set<uint256>, more: set<uint256>, maxDepth: nat)
    requires keys <= more && Spread(more, maxDepth)
    ensures Spread(keys, maxDepth)
  {
  }

  lemma {:induction false} IndicesOfNone(h: Hasher, w: World)
    ensures AllSucceed(h, w, []) && IndicesOf([]) == {}
  {
  }

  lemma {:induction false} IndicesAreSpread(h: Hasher, w: World, writes: seq<Write>)
    requires ReachedClean(h, w, writes)
    ensures Spread(MapAfter(writes).Keys, w.data.maxDepth)
  {
    hide Reached, Spread, Fits, MapAfter, IndexAgrees;
    ReachedIsInvariant(h, w, writes);
    FitsIsSpread(MapAfter(writes), w.data.maxDepth);
  }

  // So the order of the writes does not matter, nor how they are repeated.
  lemma {:induction false} OrderDoesNotMatter(h: Hasher, w: World, writes: seq<Write>, one: seq<Call>, other: seq<Call>)
    requires ReachedClean(h, w, writes) && w.data.initialized
    requires OnlyWrites(one) && 0 !in Run(h, w, one).data.nodes && NoneCollides(h, w, one)
    requires OnlyWrites(other) && 0 !in Run(h, w, other).data.nodes && NoneCollides(h, w, other)
    requires IndicesOf(one) == IndicesOf(other)
    ensures AllSucceed(h, w, one) <==> AllSucceed(h, w, other)
  {
    hide Reached, OnlyWrites, Run, NoneCollides, IndicesOf, AllSucceed, Spread, MapAfter;
    WritesSucceedWhenSpread(h, w, writes, one);
    WritesSucceedWhenSpread(h, w, writes, other);
  }
}
