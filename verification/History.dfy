// What the history answers: any version, at any time, for ever.
module History {
  import opened Words
  import opened Outcomes
  import opened NodeStore
  import opened CanonicalTree
  import opened MembershipProof
  import opened RootLog
  import opened SmtState
  import opened Invariant
  import opened Reachability
  import opened Updates

  // ---------- the inverse index ----------

  // rootIndexes holds, for each root, exactly its positions in the log, in increasing order.
  lemma {:induction false} IndexesInvertTheLog(h: Hasher, w: World, writes: seq<Write>, root: uint256)
    requires Reached(h, w, writes)
    ensures var d := w.data;
            var indexes := IndexesOf(d.rootIndexes, root);
            && Increasing(indexes)
            && (forall p: nat :: p in indexes <==> p < |d.rootEntries| && d.rootEntries[p].root == root)
            && (RootExists(d, root) <==> exists p :: 0 <= p < |d.rootEntries| && d.rootEntries[p].root == root)
  {
    hide Reached;
    var d := w.data;
    ReachedIsInvariant(h, w, writes);
    PositionsAreExact(d.rootEntries, root);
    var indexes := IndexesOf(d.rootIndexes, root);
    assert indexes == Positions(d.rootEntries, root);
    if indexes != [] {
      assert indexes[0] in indexes;
    }
  }

  // getRootInfo describes the last occurrence of a root, and reverts when there is none.
  lemma {:induction false} RootInfoIsOfLastOccurrence(h: Hasher, w: World, writes: seq<Write>, root: uint256, p: nat)
    requires Reached(h, w, writes) && p < |w.data.rootEntries| && w.data.rootEntries[p].root == root
    requires forall q :: p < q < |w.data.rootEntries| ==> w.data.rootEntries[q].root != root
    ensures GetRootInfo(w.data, root).Ok? && Describes(w.data.rootEntries, p, GetRootInfo(w.data, root).value)
  {
    hide Reached;
    IndexesInvertTheLog(h, w, writes, root);
    var indexes := IndexesOf(w.data.rootIndexes, root);
    var n := |indexes| - 1;
    assert p in indexes && indexes[n] in indexes;
    var a :| 0 <= a < |indexes| && indexes[a] == p;
    InfoDescribesEntry(w.data.rootEntries, p);
  }

  // ---------- times and blocks ----------

  lemma {:induction false} LogIsSorted(h: Hasher, w: World, writes: seq<Write>, st: SearchType)
    requires Reached(h, w, writes)
    ensures Sorted(w.data.rootEntries, st)
    ensures forall k :: 0 <= k < |w.data.rootEntries| ==> FieldSelector(w.data.rootEntries[k], st) <= Now(w, st)
  {
    hide Reached, IndexAgrees, LogsWrites;
    ReachedIsInvariant(h, w, writes);
    var entries := w.data.rootEntries;
    if entries != [] {
      EntriesCarryWrites(entries, writes, st);
      forall k | 0 < k < |entries|
        ensures FieldSelector(entries[k], st) == WrittenAt(writes[k - 1], st)
      {
        assert entries[k - 1 + 1] == entries[k];
      }
    }
  }

  lemma {:induction false} EntriesCarryWrites(entries: seq<RootEntry>, writes: seq<Write>, st: SearchType)
    requires LogsWrites(entries, writes)
    ensures |entries| == |writes| + 1 && FieldSelector(entries[0], st) == 0
    ensures forall k :: 0 <= k < |writes| ==> FieldSelector(entries[k + 1], st) == WrittenAt(writes[k], st)
  {
  }

  // Entry k was current at value: made by then, and not replaced until after.
  ghost predicate CurrentAt(entries: seq<RootEntry>, k: nat, value: nat, st: SearchType) {
    && k < |entries|
    && FieldSelector(entries[k], st) <= value
    && (k + 1 < |entries| ==> value < FieldSelector(entries[k + 1], st))
  }

  // An initialized tree always finds the entry that was current; the assert on the way never fails.
  lemma {:induction false} LookupFindsCurrentEntry(h: Hasher, w: World, writes: seq<Write>, value: nat, st: SearchType)
    requires Reached(h, w, writes) && w.data.initialized && value <= Now(w, st)
    ensures var (k, found) := LatestAtOrBefore(w.data.rootEntries, value, st);
            && found && k < |w.data.rootEntries| && CurrentAt(w.data.rootEntries, k, value, st)
            && GetRootInfoBy(w, value, st).Ok?
            && Describes(w.data.rootEntries, k, GetRootInfoBy(w, value, st).value)
            && (k > 0 ==> k <= |writes| && WrittenAt(writes[k - 1], st) <= value)
            && forall j :: 0 <= j < |writes| ==> (WrittenAt(writes[j], st) <= value <==> j < k)
  {
    hide Reached, IndexAgrees, Sorted, LogsWrites, LatestAtOrBefore, TreeInvariant;
    var entries := w.data.rootEntries;
    LogIsSorted(h, w, writes, st);
    LatestSplitsTheLog(entries, value, st);
    ReachedIsInvariant(h, w, writes);
    EntriesCarryWrites(entries, writes, st);
    InfoDescribesEntry(entries, LatestAtOrBefore(entries, value, st).0);
  }

  // The assert in the lookup fails exactly on a tree that is not initialized, for every time that is not in the future.
  lemma {:induction false} EntryNotFoundIffUninitialized(h: Hasher, w: World, writes: seq<Write>,
                                                         index: uint256, value: nat, st: SearchType)
    requires Reached(h, w, writes)
    ensures GetRootInfoBy(w, value, st) == Reverted(RootEntryNotFound) <==>
            !w.data.initialized && value <= Now(w, st)
    ensures GetProofBy(w, index, value, st) == Reverted(RootEntryNotFound) <==>
            !w.data.initialized && value <= Now(w, st)
  {
    hide Reached, GetProof;
    ReachedIsInvariant(h, w, writes);
    if w.data.initialized && value <= Now(w, st) {
      LookupFindsCurrentEntry(h, w, writes, value, st);
    }
    ProofsFindEntries(w.data, index);
  }

  // So it fails on a tree just deployed, for its own present and for every time before.
  lemma {:induction false} FreshTreeFindsNoEntry(h: Hasher, timestamp: nat, blockNumber: nat,
                                                 index: uint256, value: nat, st: SearchType)
    requires value <= Now(Deployed(timestamp, blockNumber), st)
    ensures GetProofBy(Deployed(timestamp, blockNumber), index, value, st) == Reverted(RootEntryNotFound)
  {
    var w := Deployed(timestamp, blockNumber);
    assert Run(h, w, []) == w && Writes(h, w, []) == [];
    EntryNotFoundIffUninitialized(h, w, [], index, value, st);
  }

  lemma {:induction false} ProofsFindEntries(d: Data, index: uint256)
    ensures forall root :: GetProofByRoot(d, index, root) != Reverted(RootEntryNotFound)
  {
    forall root
      ensures GetProofByRoot(d, index, root) != Reverted(RootEntryNotFound)
    {
      DescentRunsOutOrEnds(d.nodes, d.maxDepth, index, root, 0);
    }
  }

  // Root 0 is the first entry and no other.
  lemma {:induction false} RootZeroOccursOnce(h: Hasher, w: World, writes: seq<Write>, k: nat)
    requires ReachedClean(h, w, writes) && k < |w.data.rootEntries|
    ensures w.data.rootEntries[k].root == 0 <==> k == 0
  {
    hide Reached, Canon, MapAfter, Fits, Sound, NodesIn, RootHash, IndexAgrees;
    ReachedIsInvariant(h, w, writes);
    VersionOfEntry(h, w, writes, k);
    LookupRoot(h, w.data.nodes, Version(writes, k));
    CanonOfSome(MapAfter(writes[..k]), 0, w.data.maxDepth);
    MapIsEmptyBeforeWrites(writes[..k]);
  }

  lemma {:induction false} MapIsEmptyBeforeWrites(writes: seq<Write>)
    ensures MapAfter(writes) == map[] <==> writes == []
  {
    if writes != [] {
      assert writes[|writes| - 1].index in MapAfter(writes);
    }
  }

  // Consecutive infos chain exactly, and the info of the current entry is the one that names no successor.
  lemma {:induction false} InfosChain(h: Hasher, w: World, writes: seq<Write>, k: nat, info: RootEntryInfo)
    requires ReachedClean(h, w, writes) && Describes(w.data.rootEntries, k, info)
    ensures var entries := w.data.rootEntries;
            && (info.replacedByRoot == 0 <==> k == |entries| - 1)
            && (k == |entries| - 1 ==> info.replacedAtTimestamp == 0 && info.replacedAtBlock == 0)
            && (k + 1 < |entries| ==>
                  forall next :: Describes(entries, k + 1, next) ==>
                    && info.replacedByRoot == next.root
                    && info.createdAtTimestamp <= info.replacedAtTimestamp == next.createdAtTimestamp
                    && info.createdAtBlock <= info.replacedAtBlock == next.createdAtBlock)
  {
    hide Reached;
    LogIsSorted(h, w, writes, Timestamp);
    LogIsSorted(h, w, writes, Block);
    if k + 1 < |w.data.rootEntries| {
      RootZeroOccursOnce(h, w, writes, k + 1);
      assert FieldSelector(w.data.rootEntries[k], Timestamp) <= FieldSelector(w.data.rootEntries[k + 1], Timestamp);
      assert FieldSelector(w.data.rootEntries[k], Block) <= FieldSelector(w.data.rootEntries[k + 1], Block);
    }
  }

  // ---------- proofs of versions ----------

  // A root is refused if and only if it is not in the log.
  lemma {:induction false} UnknownRootsAreRefused(h: Hasher, w: World, writes: seq<Write>,
                                                  index: uint256, root: uint256)
    requires Reached(h, w, writes)
    ensures GetProofByRoot(w.data, index, root) == Reverted(RootDoesNotExist) <==>
            forall p :: 0 <= p < |w.data.rootEntries| ==> w.data.rootEntries[p].root != root
    ensures GetRootInfo(w.data, root) == Reverted(RootDoesNotExist) <==>
            forall p :: 0 <= p < |w.data.rootEntries| ==> w.data.rootEntries[p].root != root
  {
    hide Reached;
    IndexesInvertTheLog(h, w, writes, root);
    DescentRunsOutOrEnds(w.data.nodes, w.data.maxDepth, index, root, 0);
  }

  // Every entry of the log can be asked about every index, and the answer proves the map of its version.
  lemma {:induction false} ProofOfEveryVersion(h: Hasher, w: World, writes: seq<Write>, k: nat, index: uint256)
    requires ReachedClean(h, w, writes) && k < |w.data.rootEntries|
    ensures k <= |writes|
    ensures var root := w.data.rootEntries[k].root;
            var path := TreePath(h, Version(writes, k), index, 0);
            && |path.siblings| <= w.data.maxDepth
            && GetProofByRoot(w.data, index, root) == Ok(Assemble(w.data.maxDepth, index, root, path))
            && ProvesAgainst(h, MapAfter(writes[..k]), w.data.maxDepth, index, root,
                             GetProofByRoot(w.data, index, root).value)
  {
    hide Reached, Canon, MapAfter, Fits, Sound, NodesIn, RootHash, IndexAgrees;
    hide ProvesAgainst, TreePath, GetProof, Assemble;
    ReachedIsInvariant(h, w, writes);
    VersionOfEntry(h, w, writes, k);
    GetProofProves(h, w.data.nodes, w.data.maxDepth, MapAfter(writes[..k]), index);
    IndexesInvertTheLog(h, w, writes, w.data.rootEntries[k].root);
  }

  function Padded(p: Proof, maxDepth: nat): Proof {
    if maxDepth <= |p.siblings| then p else p.(siblings := p.siblings + Zeros(maxDepth - |p.siblings|))
  }

  lemma {:induction false} DeeperAssemblyIsPadded(maxDepth: nat, deeper: nat, index: uint256, root: uint256,
                                                 path: Descent)
    requires |path.siblings| <= maxDepth <= deeper
    ensures Assemble(deeper, index, root, path) == Padded(Assemble(maxDepth, index, root, path), deeper)
  {
    var n := |path.siblings|;
    assert path.siblings + Zeros(deeper - n) == path.siblings + Zeros(maxDepth - n) + Zeros(deeper - maxDepth);
  }

  // Old versions survive: a proof given once is given again after any further calls, only padded when the depth grew.
  lemma {:induction false} ProofsPersist(h: Hasher, w: World, writes: seq<Write>, more: seq<Call>,
                                         index: uint256, root: uint256)
    requires Reached(h, w, writes) && RootExists(w.data, root) && 0 !in Run(h, w, more).data.nodes
    ensures var now, later := GetProofByRoot(w.data, index, root), GetProofByRoot(Run(h, w, more).data, index, root);
            now.Ok? && later == Ok(Padded(now.value, Run(h, w, more).data.maxDepth))
  {
    hide Reached, Run, Writes, Canon, MapAfter, TreePath, GetProof, Assemble, ProvesAgainst, Version;
    var w', writes' := Run(h, w, more), writes + Writes(h, w, more);
    RunFromReached(h, w, writes, more);
    RunKeepsNodes(h, w, writes, more);
    IndexesInvertTheLog(h, w, writes, root);
    var k :| 0 <= k < |w.data.rootEntries| && w.data.rootEntries[k].root == root;
    ProofOfEveryVersion(h, w, writes, k, index);
    ProofOfEveryVersion(h, w', writes', k, index);
    assert Version(writes', k) == Version(writes, k) by { VersionOfLonger(writes, Writes(h, w, more), k); }
    DeeperAssemblyIsPadded(w.data.maxDepth, w'.data.maxDepth, index, root, TreePath(h, Version(writes, k), index, 0));
  }

  lemma {:induction false} VersionOfLonger(writes: seq<Write>, more: seq<Write>, k: nat)
    requires k <= |writes|
    ensures Version(writes + more, k) == Version(writes, k)
  {
    assert (writes + more)[..k] == writes[..k];
  }

  // ---------- time travel ----------

  // Write k is the last one to index made at or before value.
  ghost predicate IsLastWrite(writes: seq<Write>, index: uint256, value: nat, st: SearchType, k: nat) {
    && k < |writes| && writes[k].index == index && WrittenAt(writes[k], st) <= value
    && forall j :: k < j < |writes| && writes[j].index == index ==> WrittenAt(writes[j], st) > value
  }

  // A log leaves behind, for each index, the value of the last write to it.
  lemma {:induction false} MapHoldsLastWrites(writes: seq<Write>, index: uint256)
    ensures index in MapAfter(writes) <==> exists k :: 0 <= k < |writes| && writes[k].index == index
    ensures forall k :: 0 <= k < |writes| && writes[k].index == index &&
                        (forall j :: k < j < |writes| ==> writes[j].index != index) ==>
              index in MapAfter(writes) && MapAfter(writes)[index] == writes[k].value
  {
    if writes != [] {
      var n := |writes| - 1;
      var before := writes[..n];
      MapHoldsLastWrites(before, index);
      if writes[n].index != index {
        forall k | 0 <= k < |writes| && writes[k].index == index
          ensures k < n && before[k].index == index
        {
        }
      }
    }
  }

  // How many of the writes were made at or before value, when the first k are and no others.
  ghost predicate MadeBy(writes: seq<Write>, value: nat, st: SearchType, k: nat) {
    k <= |writes| && forall j :: 0 <= j < |writes| ==> (WrittenAt(writes[j], st) <= value <==> j < k)
  }

  // A question about a time is a question about the root of the version that was current then, on any hasher.
  lemma {:induction false} ProofByTimeIsByRoot(h: Hasher, w: World, writes: seq<Write>,
                                               index: uint256, value: nat, st: SearchType) returns (k: nat)
    requires Reached(h, w, writes) && w.data.initialized && value <= Now(w, st)
    ensures MadeBy(writes, value, st, k) && CurrentAt(w.data.rootEntries, k, value, st)
    ensures GetProofBy(w, index, value, st) == GetProofByRoot(w.data, index, w.data.rootEntries[k].root)
  {
    hide Reached, LatestAtOrBefore, GetProofByRoot, IndexAgrees;
    ReachedIsInvariant(h, w, writes);
    LookupFindsCurrentEntry(h, w, writes, value, st);
    k := LatestAtOrBefore(w.data.rootEntries, value, st).0;
  }

  // getProofByTime and getProofByBlock report what had been written to index by then: nothing, or the last value. The
  // proof is against the canonical hash of the map as it was then.
  lemma {:induction false} TimeTravel(h: Hasher, w: World, writes: seq<Write>,
                                      index: uint256, value: nat, st: SearchType)
    requires ReachedClean(h, w, writes) && w.data.initialized && value <= Now(w, st)
    ensures var result := GetProofBy(w, index, value, st);
            && result.Ok?
            && (result.value.existence <==>
                  exists k :: 0 <= k < |writes| && writes[k].index == index && WrittenAt(writes[k], st) <= value)
            && (forall k: nat :: IsLastWrite(writes, index, value, st, k) ==>
                  result.value.existence && result.value.value == writes[k].value)
            && (exists k: nat :: MadeBy(writes, value, st, k))
            && forall k: nat :: MadeBy(writes, value, st, k) ==>
                 ProvesAgainst(h, MapAfter(writes[..k]), w.data.maxDepth, index,
                               CanonicalHash(h, MapAfter(writes[..k]), 0), result.value)
  {
    hide Reached, MapAfter, Version, TreePath, Assemble, GetProofByRoot, GetProofBy, FoldUp, Pow2, ProofDepth;
    hide CanonicalHash, Fits, Sound, NodesIn, RootHash;
    var k := ProofByTimeIsByRoot(h, w, writes, index, value, st);
    ProofOfEveryVersion(h, w, writes, k, index);
    VersionOfEntry(h, w, writes, k);
    MapHoldsLastWrites(writes[..k], index);
    forall n: nat | MadeBy(writes, value, st, n)
      ensures n == k
    {
      MadeByOnce(writes, value, st, n, k);
    }
  }

  lemma {:induction false} MadeByOnce(writes: seq<Write>, value: nat, st: SearchType, k: nat, n: nat)
    requires MadeBy(writes, value, st, k) && MadeBy(writes, value, st, n)
    ensures k == n
  {
    var least := if k < n then k else n;
    if least < |writes| {
      assert WrittenAt(writes[least], st) <= value <==> least < k;
    }
  }
}
