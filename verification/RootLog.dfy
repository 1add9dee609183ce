// The log of roots and its two derived views: positions by root, and the search by time or block.
module RootLog {
  import opened Words
  import opened Outcomes

  datatype RootEntry = RootEntry(root: uint256, createdAtTimestamp: nat, createdAtBlock: nat)

  datatype RootEntryInfo = RootEntryInfo(
    root: uint256,
    replacedByRoot: uint256,
    createdAtTimestamp: nat,
    replacedAtTimestamp: nat,
    createdAtBlock: nat,
    replacedAtBlock: nat)

  datatype SearchType = Timestamp | Block

  function FieldSelector(entry: RootEntry, st: SearchType): nat {
    match st
    case Block => entry.createdAtBlock
    case Timestamp => entry.createdAtTimestamp
  }

  function GetRootInfoByIndex(entries: seq<RootEntry>, index: nat): Outcome<RootEntryInfo> {
    if index >= |entries| then Reverted(EntryOutOfBounds)
    else
      var isLastRoot := index == |entries| - 1;
      var entry := entries[index];
      Ok(RootEntryInfo(
           entry.root,
           if isLastRoot then 0 else entries[index + 1].root,
           entry.createdAtTimestamp,
           if isLastRoot then 0 else entries[index + 1].createdAtTimestamp,
           entry.createdAtBlock,
           if isLastRoot then 0 else entries[index + 1].createdAtBlock))
  }

  // What the info of entry k reports: the entry itself and the entry that replaced it, or zeros for the current one.
  ghost predicate Describes(entries: seq<RootEntry>, k: nat, info: RootEntryInfo) {
    && k < |entries|
    && RootEntry(info.root, info.createdAtTimestamp, info.createdAtBlock) == entries[k]
    && RootEntry(info.replacedByRoot, info.replacedAtTimestamp, info.replacedAtBlock) ==
       if k + 1 < |entries| then entries[k + 1] else RootEntry(0, 0, 0)
  }

  lemma {:induction false} InfoDescribesEntry(entries: seq<RootEntry>, k: nat)
    ensures var r := GetRootInfoByIndex(entries, k);
            if k < |entries| then r.Ok? && Describes(entries, k, r.value) else r == Reverted(EntryOutOfBounds)
  {
  }

  // ---------- positions by root ----------

  // The rootIndexes mapping; an absent root holds the default, an empty array.
  type RootIndexes = map<uint256, seq<nat>>

  function IndexesOf(indexes: RootIndexes, root: uint256): seq<nat> {
    if root in indexes then indexes[root] else []
  }

  function PushIndex(indexes: RootIndexes, root: uint256, position: nat): RootIndexes {
    indexes[root := IndexesOf(indexes, root) + [position]]
  }

  // The positions of root in the log, in order.
  ghost function Positions(entries: seq<RootEntry>, root: uint256): seq<nat> {
    if entries == [] then []
    else
      var n := |entries| - 1;
      Positions(entries[..n], root) + if entries[n].root == root then [n] else []
  }

  ghost predicate IndexAgrees(entries: seq<RootEntry>, indexes: RootIndexes) {
    forall root: uint256 :: IndexesOf(indexes, root) == Positions(entries, root)
  }

  ghost predicate Increasing(s: seq<nat>) {
    forall a, b :: 0 <= a < b < |s| ==> s[a] < s[b]
  }

  lemma {:induction false} PositionsAreOccurrences(entries: seq<RootEntry>, root: uint256, p: nat)
    ensures p in Positions(entries, root) <==> p < |entries| && entries[p].root == root
  {
    if entries != [] {
      PositionsAreOccurrences(entries[..|entries| - 1], root, p);
    }
  }

  // Positions lists each occurrence once, in increasing order, and nothing else.
  lemma {:induction false} PositionsAreExact(entries: seq<RootEntry>, root: uint256)
    ensures Increasing(Positions(entries, root))
    ensures forall p: nat :: p in Positions(entries, root) <==> p < |entries| && entries[p].root == root
  {
    forall p: nat
      ensures p in Positions(entries, root) <==> p < |entries| && entries[p].root == root
    {
      PositionsAreOccurrences(entries, root, p);
    }
    if entries != [] {
      var n := |entries| - 1;
      var before := Positions(entries[..n], root);
      PositionsAreExact(entries[..n], root);
      forall a | 0 <= a < |before|
        ensures before[a] < n
      {
        assert before[a] in before;
        PositionsAreOccurrences(entries[..n], root, before[a]);
      }
    }
  }

  lemma {:induction false} PushKeepsIndexAgreement(entries: seq<RootEntry>, indexes: RootIndexes, entry: RootEntry)
    requires IndexAgrees(entries, indexes)
    ensures IndexAgrees(entries + [entry], PushIndex(indexes, entry.root, |entries|))
  {
    var longer := entries + [entry];
    assert longer[..|longer| - 1] == entries;
    forall root: uint256
      ensures IndexesOf(PushIndex(indexes, entry.root, |entries|), root) == Positions(longer, root)
    {
      assert IndexesOf(indexes, root) == Positions(entries, root);
    }
  }

  // ---------- search by time or block ----------

  ghost predicate Sorted(entries: seq<RootEntry>, st: SearchType) {
    forall a, b :: 0 <= a < b < |entries| ==> FieldSelector(entries[a], st) <= FieldSelector(entries[b], st)
  }

  // The last entry made at or before value, looking backwards through the log; (0, false) when there is none.
  function LatestAtOrBefore(entries: seq<RootEntry>, value: nat, st: SearchType): (nat, bool) {
    if entries == [] then (0, false)
    else if FieldSelector(entries[|entries| - 1], st) <= value then (|entries| - 1, true)
    else LatestAtOrBefore(entries[..|entries| - 1], value, st)
  }

  // In a sorted log the entries made at or before value are exactly those up to the one found.
  lemma {:induction false} LatestSplitsTheLog(entries: seq<RootEntry>, value: nat, st: SearchType)
    requires Sorted(entries, st)
    ensures var (index, found) := LatestAtOrBefore(entries, value, st);
            if found then
              index < |entries| &&
              forall k :: 0 <= k < |entries| ==> (FieldSelector(entries[k], st) <= value <==> k <= index)
            else
              index == 0 && forall k :: 0 <= k < |entries| ==> FieldSelector(entries[k], st) > value
  {
    if entries != [] && FieldSelector(entries[|entries| - 1], st) > value {
      LatestSplitsTheLog(entries[..|entries| - 1], value, st);
    }
  }
}
