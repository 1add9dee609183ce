// The states that runs reach, and the two hypotheses under which slot 0 stays EMPTY.
module Reachability {
  import opened NodeStore
  import opened LeafInsertion
  import opened RootLog
  import opened SmtState
  import opened Invariant

  // Some run from deployment ends in w, with these as its successful writes.
  ghost predicate Reached(h: Hasher, w: World, writes: seq<Write>) {
    exists timestamp, blockNumber, calls ::
      && w == Run(h, Deployed(timestamp, blockNumber), calls)
      && writes == Writes(h, Deployed(timestamp, blockNumber), calls)
  }

  // The same, for a run that leaves slot 0 of the store EMPTY: no node it wrote hashed to 0.
  ghost predicate ReachedClean(h: Hasher, w: World, writes: seq<Write>) {
    Reached(h, w, writes) && 0 !in w.data.nodes
  }

  lemma {:induction false} ReachedIsInvariant(h: Hasher, w: World, writes: seq<Write>)
    requires Reached(h, w, writes)
    ensures Inv(h, w, writes)
  {
    hide Inv, Run, Writes, Deployed;
    var timestamp, blockNumber, calls :|
      && w == Run(h, Deployed(timestamp, blockNumber), calls)
      && writes == Writes(h, Deployed(timestamp, blockNumber), calls);
    RunKeepsInv(h, timestamp, blockNumber, calls);
  }

  lemma {:induction false} RunsCompose(h: Hasher, start: World, first: seq<Call>, second: seq<Call>)
    ensures Run(h, start, first + second) == Run(h, Run(h, start, first), second)
    ensures Writes(h, start, first + second) == Writes(h, start, first) + Writes(h, Run(h, start, first), second)
  {
    hide Step, Logged;
    if second == [] {
      assert first + second == first;
    } else {
      var before := second[..|second| - 1];
      assert (first + second)[..|first + second| - 1] == first + before;
      RunsCompose(h, start, first, before);
    }
  }

  lemma {:induction false} RunFromReached(h: Hasher, w: World, writes: seq<Write>, more: seq<Call>)
    requires Reached(h, w, writes)
    ensures Reached(h, Run(h, w, more), writes + Writes(h, w, more))
  {
    hide Run, Writes, Deployed;
    var timestamp, blockNumber, calls :|
      && w == Run(h, Deployed(timestamp, blockNumber), calls)
      && writes == Writes(h, Deployed(timestamp, blockNumber), calls);
    RunsCompose(h, Deployed(timestamp, blockNumber), calls, more);
  }

  lemma {:induction false} StepFromReached(h: Hasher, w: World, writes: seq<Write>, c: Call)
    requires Reached(h, w, writes)
    ensures Reached(h, Step(h, w, c), writes + Logged(h, w, c))
  {
    hide Step, Logged, Reached;
    RunFromReached(h, w, writes, [c]);
    assert [c][..0] == [];
    assert Run(h, w, [c]) == Step(h, w, c);
    assert Writes(h, w, [c]) == Logged(h, w, c);
  }

  // Nothing ever leaves the store.
  lemma {:induction false} StepKeepsNodes(h: Hasher, w: World, writes: seq<Write>, c: Call)
    requires Reached(h, w, writes)
    ensures forall k :: k in w.data.nodes ==>
              k in Step(h, w, c).data.nodes && Step(h, w, c).data.nodes[k] == w.data.nodes[k]
    ensures w.data.initialized ==> Step(h, w, c).data.initialized
    ensures w.data.maxDepth <= Step(h, w, c).data.maxDepth
    ensures w.data.rootEntries <= Step(h, w, c).data.rootEntries
  {
    hide AddLeafAt, IndexAgrees;
    ReachedIsInvariant(h, w, writes);
    if c.CallAddLeaf? && Execute(h, w, c).Ok? {
      AddLeafAtGrows(h, w.data.nodes, w.data.maxDepth, LeafNode(c.index, c.value), GetRoot(w.data).value, 0);
    }
  }

  lemma {:induction false} RunKeepsNodes(h: Hasher, w: World, writes: seq<Write>, more: seq<Call>)
    requires Reached(h, w, writes)
    ensures forall k :: k in w.data.nodes ==>
              k in Run(h, w, more).data.nodes && Run(h, w, more).data.nodes[k] == w.data.nodes[k]
    ensures w.data.initialized ==> Run(h, w, more).data.initialized
    ensures w.data.maxDepth <= Run(h, w, more).data.maxDepth
    ensures w.data.rootEntries <= Run(h, w, more).data.rootEntries
  {
    hide Step, Reached;
    if more != [] {
      var before := more[..|more| - 1];
      RunKeepsNodes(h, w, writes, before);
      RunFromReached(h, w, writes, before);
      StepKeepsNodes(h, Run(h, w, before), writes + Writes(h, w, before), more[|more| - 1]);
    }
  }

  // Every run, on every hasher, leaves nodes under their own hashes, non-zero children stored, and non-zero links that
  // close no cycle.
  lemma {:induction false} RunKeepsLinks(h: Hasher, timestamp: nat, blockNumber: nat, calls: seq<Call>)
    ensures Linked(h, Run(h, Deployed(timestamp, blockNumber), calls).data.nodes)
  {
    hide Linked, AddLeafAt;
    if calls == [] {
      EmptyStoreIsLinked(h);
    } else {
      var before, c := calls[..|calls| - 1], calls[|calls| - 1];
      var d := Run(h, Deployed(timestamp, blockNumber), before).data;
      RunKeepsLinks(h, timestamp, blockNumber, before);
      if c.CallAddLeaf? && GetRoot(d).Ok? {
        AddLeafAtLinks(h, d.nodes, d.maxDepth, LeafNode(c.index, c.value), GetRoot(d).value, 0);
      }
    }
  }

  lemma {:induction false} EmptyStoreIsLinked(h: Hasher)
    ensures Linked(h, map[])
  {
    assert Ranked(map[], map[]);
  }

  lemma {:induction false} ReachedIsLinked(h: Hasher, w: World, writes: seq<Write>)
    requires Reached(h, w, writes)
    ensures Linked(h, w.data.nodes)
  {
    hide Run, Writes, Deployed, Linked;
    var timestamp, blockNumber, calls :|
      && w == Run(h, Deployed(timestamp, blockNumber), calls)
      && writes == Writes(h, Deployed(timestamp, blockNumber), calls);
    RunKeepsLinks(h, timestamp, blockNumber, calls);
  }

  // A hasher that never hashes a leaf or a middle node to 0.
  ghost predicate NeverZero(h: Hasher) {
    forall node :: node != EmptyNode ==> NodeHash(h, node) != 0
  }

  // With such a hasher every run leaves slot 0 EMPTY.
  lemma {:induction false} NeverZeroRunsAreClean(h: Hasher, w: World, writes: seq<Write>)
    requires NeverZero(h) && Reached(h, w, writes)
    ensures ReachedClean(h, w, writes)
  {
    hide Reached;
    ReachedIsLinked(h, w, writes);
  }
}
