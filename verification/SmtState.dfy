// The library's Data struct, every operation on it, and runs of operations under a moving block clock.
module SmtState {
  import opened Words
  import opened Outcomes
  import opened NodeStore
  import opened LeafInsertion
  import opened MembershipProof
  import opened RootLog

  const MAX_DEPTH_HARD_CAP: nat := 256

  datatype Data = Data(
    nodes: Store,
    rootEntries: seq<RootEntry>,
    rootIndexes: RootIndexes,
    maxDepth: nat,
    initialized: bool)

  // The struct as the chain first presents it: all zero.
  const ZEROED: Data := Data(map[], [], map[], 0, false)

  // ---------- writing operations ----------

  function AddEntry(d: Data, root: uint256, timestamp: nat, blockNumber: nat): Data {
    d.(rootEntries := d.rootEntries + [RootEntry(root, timestamp, blockNumber)],
       rootIndexes := PushIndex(d.rootIndexes, root, |d.rootEntries|))
  }

  function SetMaxDepth(d: Data, maxDepth: nat): Outcome<Data> {
    if maxDepth == 0 then Reverted(MaxDepthZero)
    else if maxDepth <= d.maxDepth then Reverted(MaxDepthNotIncreased)
    else if maxDepth > MAX_DEPTH_HARD_CAP then Reverted(MaxDepthOverHardCap)
    else Ok(d.(maxDepth := maxDepth))
  }

  function Initialize(d: Data, maxDepth: nat): Outcome<Data> {
    if d.initialized then Reverted(AlreadyInitialized)
    else
      var deepened :- SetMaxDepth(d, maxDepth);
      Ok(AddEntry(deepened, 0, 0, 0).(initialized := true))
  }

  function GetRoot(d: Data): Outcome<uint256> {
    if !d.initialized then Reverted(NotInitialized)
    else if d.rootEntries == [] then Reverted(EntryOutOfBounds)
    else Ok(d.rootEntries[|d.rootEntries| - 1].root)
  }

  function AddLeaf(h: Hasher, d: Data, i: uint256, v: uint256, timestamp: nat, blockNumber: nat): Outcome<Data> {
    var prevRoot :- GetRoot(d);
    var (nodes, newRoot) :- AddLeafAt(h, d.nodes, d.maxDepth, LeafNode(i, v), prevRoot, 0);
    Ok(AddEntry(d.(nodes := nodes), newRoot, timestamp, blockNumber))
  }

  // ---------- reading operations ----------

  predicate RootExists(d: Data, root: uint256) {
    |IndexesOf(d.rootIndexes, root)| > 0
  }

  function GetProofByRoot(d: Data, index: uint256, historicalRoot: uint256): Outcome<Proof> {
    if !RootExists(d, historicalRoot) then Reverted(RootDoesNotExist)
    else GetProof(d.nodes, d.maxDepth, index, historicalRoot)
  }

  function GetRootInfo(d: Data, root: uint256): Outcome<RootEntryInfo> {
    if !RootExists(d, root) then Reverted(RootDoesNotExist)
    else
      var indexes := IndexesOf(d.rootIndexes, root);
      GetRootInfoByIndex(d.rootEntries, indexes[|indexes| - 1])
  }

  function GetRootInfoAt(d: Data, value: nat, st: SearchType): Outcome<RootEntryInfo> {
    var (index, found) := LatestAtOrBefore(d.rootEntries, value, st);
    if !found then Reverted(RootEntryNotFound) else GetRootInfoByIndex(d.rootEntries, index)
  }

  // ---------- runs ----------

  // The contract's data together with the clock of the block being executed.
  datatype World = World(data: Data, timestamp: nat, blockNumber: nat)

  function Now(w: World, st: SearchType): nat {
    match st
    case Timestamp => w.timestamp
    case Block => w.blockNumber
  }

  // getRootInfoByTime and getRootInfoByBlock
  function GetRootInfoBy(w: World, value: nat, st: SearchType): Outcome<RootEntryInfo> {
    if value > Now(w, st) then Reverted(if st == Block then FutureBlock else FutureTimestamp)
    else GetRootInfoAt(w.data, value, st)
  }

  // getProofByTime and getProofByBlock
  function GetProofBy(w: World, index: uint256, value: nat, st: SearchType): Outcome<Proof> {
    var info :- GetRootInfoBy(w, value, st);
    GetProofByRoot(w.data, index, info.root)
  }

  datatype Call =
    | CallInitialize(maxDepth: nat)
    | CallSetMaxDepth(maxDepth: nat)
    | CallAddLeaf(index: uint256, value: uint256)
    | Tick(seconds: nat, blocks: nat)

  function Execute(h: Hasher, w: World, c: Call): Outcome<World> {
    match c
    case CallInitialize(maxDepth) =>
      var d :- Initialize(w.data, maxDepth);
      Ok(w.(data := d))
    case CallSetMaxDepth(maxDepth) =>
      var d :- SetMaxDepth(w.data, maxDepth);
      Ok(w.(data := d))
    case CallAddLeaf(i, v) =>
      var d :- AddLeaf(h, w.data, i, v, w.timestamp, w.blockNumber);
      Ok(w.(data := d))
    case Tick(seconds, blocks) =>
      Ok(w.(timestamp := w.timestamp + seconds, blockNumber := w.blockNumber + blocks))
  }

  // A reverted call changes nothing.
  function Step(h: Hasher, w: World, c: Call): World {
    var r := Execute(h, w, c);
    if r.Ok? then r.value else w
  }

  function Deployed(timestamp: nat, blockNumber: nat): World {
    World(ZEROED, timestamp, blockNumber)
  }

  function Run(h: Hasher, start: World, calls: seq<Call>): World {
    if calls == [] then start
    else Step(h, Run(h, start, calls[..|calls| - 1]), calls[|calls| - 1])
  }

  // ---------- the log of writes ----------

  datatype Write = Write(index: uint256, value: uint256, timestamp: nat, blockNumber: nat)

  function WrittenAt(x: Write, st: SearchType): nat {
    match st
    case Timestamp => x.timestamp
    case Block => x.blockNumber
  }

  // What a call adds to the log: one entry for an addLeaf that did not revert.
  function Logged(h: Hasher, w: World, c: Call): seq<Write> {
    match c
    case CallAddLeaf(i, v) => if Execute(h, w, c).Ok? then [Write(i, v, w.timestamp, w.blockNumber)] else []
    case _ => []
  }

  // The successful writes of a run, in order, each with the clock it was made under.
  function Writes(h: Hasher, start: World, calls: seq<Call>): seq<Write> {
    if calls == [] then []
    else
      var before := calls[..|calls| - 1];
      Writes(h, start, before) + Logged(h, Run(h, start, before), calls[|calls| - 1])
  }
}
