// What every run keeps: the whole state is a function of the log of writes.
module Invariant {
  import opened Words
  import opened Outcomes
  import opened NodeStore
  import opened CanonicalTree
  import opened LeafInsertion
  import opened RootLog
  import opened SmtState

  // The map that a log of writes leaves behind; later writes win.
  function MapAfter(writes: seq<Write>): Contents {
    if writes == [] then map[]
    else
      var last := writes[|writes| - 1];
      MapAfter(writes[..|writes| - 1])[last.index := last.value]
  }

  // The tree of the version after the first k writes.
  ghost function Version(writes: seq<Write>, k: nat): Tree
    requires k <= |writes|
  {
    Canon(MapAfter(writes[..k]), 0)
  }

  // The nodes of all versions together.
  ghost function NodesOfAllVersions(h: Hasher, writes: seq<Write>): set<Node> {
    if writes == [] then {}
    else NodesOfAllVersions(h, writes[..|writes| - 1]) + NodesIn(h, Canon(MapAfter(writes), 0))
  }

  // Entry k + 1 of the log carries the clock of write k, after a first entry that is all zero.
  ghost predicate LogsWrites(entries: seq<RootEntry>, writes: seq<Write>) {
    && |entries| == |writes| + 1
    && entries[0] == RootEntry(0, 0, 0)
    && forall k :: 0 <= k < |writes| ==>
         FieldSelector(entries[k + 1], Timestamp) == writes[k].timestamp &&
         FieldSelector(entries[k + 1], Block) == writes[k].blockNumber
  }

  // The part that needs nothing of the hash functions.
  ghost predicate LogInvariant(w: World, writes: seq<Write>) {
    var d := w.data;
    && EmptyNode !in d.nodes.Values
    && d.maxDepth <= MAX_DEPTH_HARD_CAP
    && IndexAgrees(d.rootEntries, d.rootIndexes)
    && (!d.initialized ==> d.rootEntries == [] && d.nodes == map[] && writes == [])
    && (d.initialized ==> d.maxDepth > 0 && LogsWrites(d.rootEntries, writes))
    && (forall k :: 0 <= k < |writes| ==>
          writes[k].timestamp <= w.timestamp && writes[k].blockNumber <= w.blockNumber)
    && (forall j, k :: 0 <= j < k < |writes| ==>
          writes[j].timestamp <= writes[k].timestamp && writes[j].blockNumber <= writes[k].blockNumber)
    && |d.nodes| <= |writes| * (d.maxDepth + 1)
  }

  // The part about trees: the store holds the nodes of all versions and no others, each under its own hash, the
  // indices fit the depth, and entry k of the log is the hash of version k.
  ghost predicate TreeInvariant(h: Hasher, d: Data, writes: seq<Write>) {
    && Sound(h, d.nodes)
    && d.nodes.Values == NodesOfAllVersions(h, writes)
    && Fits(MapAfter(writes), 0, d.maxDepth)
    && (d.initialized ==>
          |d.rootEntries| == |writes| + 1 &&
          forall k :: 0 <= k <= |writes| ==> d.rootEntries[k].root == RootHash(h, Version(writes, k)))
  }

  // Slot 0 stands for EMPTY; the tree part holds as long as no node was ever written there.
  ghost predicate Inv(h: Hasher, w: World, writes: seq<Write>) {
    && LogInvariant(w, writes)
    && (0 !in w.data.nodes ==> TreeInvariant(h, w.data, writes))
  }

  lemma {:induction false} DeployedIsInvariant(h: Hasher, timestamp: nat, blockNumber: nat)
    ensures Inv(h, Deployed(timestamp, blockNumber), [])
  {
  }

  lemma {:induction false} FitsDeeperStill(m: Contents, maxDepth: nat, deeper: nat)
    requires Fits(m, 0, maxDepth) && maxDepth <= deeper
    ensures Fits(m, 0, deeper)
  {
    FitsDeeper(m, m, 0, maxDepth, deeper);
  }

  lemma {:induction false} ProductGrows(n: nat, a: nat, b: nat)
    requires a <= b
    ensures n * a <= n * b
  {
  }

  lemma {:induction false} SetMaxDepthKeeps(h: Hasher, w: World, writes: seq<Write>, maxDepth: nat)
    requires Inv(h, w, writes) && SetMaxDepth(w.data, maxDepth).Ok?
    ensures Inv(h, w.(data := SetMaxDepth(w.data, maxDepth).value), writes)
  {
    hide Fits, Sound, NodesOfAllVersions, MapAfter, IndexAgrees, Version;
    ProductGrows(|writes|, w.data.maxDepth + 1, maxDepth + 1);
    if 0 !in w.data.nodes {
      FitsDeeperStill(MapAfter(writes), w.data.maxDepth, maxDepth);
    }
  }

  lemma {:induction false} InitializeKeeps(h: Hasher, w: World, writes: seq<Write>, maxDepth: nat)
    requires Inv(h, w, writes) && Initialize(w.data, maxDepth).Ok?
    ensures Inv(h, w.(data := Initialize(w.data, maxDepth).value), writes)
  {
    hide IndexAgrees;
    PushKeepsIndexAgreement(w.data.rootEntries, w.data.rootIndexes, RootEntry(0, 0, 0));
  }

  lemma {:induction false} EntryLogsWrite(entries: seq<RootEntry>, root: uint256, writes: seq<Write>, x: Write)
    requires LogsWrites(entries, writes)
    ensures LogsWrites(entries + [RootEntry(root, x.timestamp, x.blockNumber)], writes + [x])
  {
  }

  lemma {:induction false} ProductOfOneMore(n: nat, a: nat)
    ensures (n + 1) * a == n * a + a
  {
  }

  lemma {:induction false} AddLeafKeepsLog(h: Hasher, w: World, writes: seq<Write>, i: uint256, v: uint256)
    requires LogInvariant(w, writes)
    requires AddLeaf(h, w.data, i, v, w.timestamp, w.blockNumber).Ok?
    ensures var d := AddLeaf(h, w.data, i, v, w.timestamp, w.blockNumber).value;
            LogInvariant(w.(data := d), writes + [Write(i, v, w.timestamp, w.blockNumber)])
  {
    hide IndexAgrees, AddLeafAt, LogsWrites;
    var d := w.data;
    var prevRoot := GetRoot(d).value;
    AddLeafAtGrows(h, d.nodes, d.maxDepth, LeafNode(i, v), prevRoot, 0);
    var (nodes, newRoot) := AddLeafAt(h, d.nodes, d.maxDepth, LeafNode(i, v), prevRoot, 0).value;
    PushKeepsIndexAgreement(d.rootEntries, d.rootIndexes, RootEntry(newRoot, w.timestamp, w.blockNumber));
    ProductOfOneMore(|writes|, d.maxDepth + 1);
    EntryLogsWrite(d.rootEntries, newRoot, writes, Write(i, v, w.timestamp, w.blockNumber));
  }

  lemma {:induction false} OneMoreWrite(h: Hasher, writes: seq<Write>, x: Write)
    ensures MapAfter(writes + [x]) == MapAfter(writes)[x.index := x.value]
    ensures NodesOfAllVersions(h, writes + [x]) ==
            NodesOfAllVersions(h, writes) + NodesIn(h, Canon(MapAfter(writes + [x]), 0))
  {
    hide Canon, NodesIn;
    assert (writes + [x])[..|writes + [x]| - 1] == writes;
  }

  lemma {:induction false} VersionsAfterOneMoreWrite(writes: seq<Write>, x: Write)
    ensures forall k :: 0 <= k <= |writes| ==> Version(writes + [x], k) == Version(writes, k)
    ensures Version(writes + [x], |writes| + 1) == Canon(MapAfter(writes + [x]), 0)
  {
    hide Canon, MapAfter;
    var longer := writes + [x];
    assert longer[..|longer|] == longer;
    assert forall k :: 0 <= k <= |writes| ==> longer[..k] == writes[..k];
  }

  lemma {:induction false} VersionIsStored(h: Hasher, writes: seq<Write>, k: nat)
    requires k <= |writes|
    ensures NodesIn(h, Version(writes, k)) <= NodesOfAllVersions(h, writes)
  {
    hide Canon, NodesIn;
    if k == |writes| {
      assert writes[..k] == writes;
      if k == 0 {
        EmptyMapHasNoNodes(h);
      }
    } else {
      var before := writes[..|writes| - 1];
      assert before[..k] == writes[..k];
      VersionIsStored(h, before, k);
    }
  }

  lemma {:induction false} EmptyMapHasNoNodes(h: Hasher)
    ensures NodesIn(h, Canon(map[], 0)) == {}
  {
    CanonOfEmpty(0);
  }

  // The exact effect of an addLeaf on the nodes, in terms of the map before and the map after.
  lemma {:induction false} AddLeafInserts(h: Hasher, w: World, writes: seq<Write>, i: uint256, v: uint256)
    requires Inv(h, w, writes) && w.data.initialized && 0 !in w.data.nodes
    ensures GetRoot(w.data) == Ok(RootHash(h, Canon(MapAfter(writes), 0)))
    ensures Inserted(h, w.data.nodes, w.data.maxDepth, MapAfter(writes), i, v, 0,
                     AddLeafAt(h, w.data.nodes, w.data.maxDepth, LeafNode(i, v), GetRoot(w.data).value, 0))
  {
    hide Inserted, AddLeafAt, Canon, Fits, Sound, RootHash, NodesOfAllVersions, MapAfter, IndexAgrees;
    assert writes[..|writes|] == writes;
    VersionIsStored(h, writes, |writes|);
    AddLeafAtBuilds(h, w.data.nodes, w.data.maxDepth, MapAfter(writes), i, v, 0);
  }

  // What one more write does to the tree part, once the write itself is known.
  lemma {:induction false} WriteKeepsTrees(h: Hasher, d: Data, writes: seq<Write>, x: Write, written: (Store, uint256))
    requires TreeInvariant(h, d, writes) && d.initialized
    requires !Clash(MapAfter(writes), x.index, 0, d.maxDepth)
    requires var t := Canon(MapAfter(writes)[x.index := x.value], 0);
             Sound(h, written.0) && written.0.Values == d.nodes.Values + NodesIn(h, t) && written.1 == RootHash(h, t)
    ensures TreeInvariant(h, AddEntry(d.(nodes := written.0), written.1, x.timestamp, x.blockNumber), writes + [x])
  {
    hide Canon, MapAfter, Fits, Clash, Sound, NodesIn, RootHash, NodesOfAllVersions, Version;
    OneMoreWrite(h, writes, x);
    VersionsAfterOneMoreWrite(writes, x);
    UpdateFits(MapAfter(writes), x.index, x.value, 0, d.maxDepth);
  }

  lemma {:induction false} AddLeafKeepsTrees(h: Hasher, w: World, writes: seq<Write>, i: uint256, v: uint256)
    requires Inv(h, w, writes)
    requires AddLeaf(h, w.data, i, v, w.timestamp, w.blockNumber).Ok?
    ensures var d := AddLeaf(h, w.data, i, v, w.timestamp, w.blockNumber).value;
            0 !in d.nodes ==>
              0 !in w.data.nodes && TreeInvariant(h, d, writes + [Write(i, v, w.timestamp, w.blockNumber)])
  {
    hide IndexAgrees, AddLeafAt, Canon, Clash, CollisionFree, Sound, RootHash, NodesIn, MapAfter, TreeInvariant;
    var d := w.data;
    AddLeafAtGrows(h, d.nodes, d.maxDepth, LeafNode(i, v), GetRoot(d).value, 0);
    var written := AddLeafAt(h, d.nodes, d.maxDepth, LeafNode(i, v), GetRoot(d).value, 0).value;
    if 0 !in written.0 {
      AddLeafInserts(h, w, writes, i, v);
      WriteKeepsTrees(h, d, writes, Write(i, v, w.timestamp, w.blockNumber), written);
    }
  }

  lemma {:induction false} StepKeepsInv(h: Hasher, w: World, writes: seq<Write>, c: Call)
    requires Inv(h, w, writes)
    ensures Inv(h, Step(h, w, c), writes + Logged(h, w, c))
  {
    hide IndexAgrees, AddLeaf, Initialize, SetMaxDepth, TreeInvariant;
    assert writes + [] == writes;
    if Execute(h, w, c).Ok? {
      match c
      case CallInitialize(maxDepth) => InitializeKeeps(h, w, writes, maxDepth);
      case CallSetMaxDepth(maxDepth) => SetMaxDepthKeeps(h, w, writes, maxDepth);
      case CallAddLeaf(i, v) =>
        AddLeafKeepsLog(h, w, writes, i, v);
        AddLeafKeepsTrees(h, w, writes, i, v);
      case Tick(_, _) =>
    }
  }

  // Every run, from deployment on, keeps the invariant against the log of its own writes.
  lemma {:induction false} RunKeepsInv(h: Hasher, timestamp: nat, blockNumber: nat, calls: seq<Call>)
    ensures var start := Deployed(timestamp, blockNumber);
            Inv(h, Run(h, start, calls), Writes(h, start, calls))
  {
    hide Inv, Step;
    if calls == [] {
      DeployedIsInvariant(h, timestamp, blockNumber);
    } else {
      var start := Deployed(timestamp, blockNumber);
      var before := calls[..|calls| - 1];
      RunKeepsInv(h, timestamp, blockNumber, before);
      StepKeepsInv(h, Run(h, start, before), Writes(h, start, before), calls[|calls| - 1]);
    }
  }
}
