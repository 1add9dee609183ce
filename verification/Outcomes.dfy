// What a call returns: a value, or the revert that undoes it.
module Outcomes {
  datatype Revert =
    | NotInitialized
    | AlreadyInitialized
    | MaxDepthZero
    | MaxDepthNotIncreased
    | MaxDepthOverHardCap
    | DescentTooDeep          // "Max depth reached", raised while following existing nodes
    | PushTooDeep             // "Max depth reached", raised while pushing two leaves down
    | NodeMismatch            // a failed assert in _addNode: two nodes with one hash
    | SiblingsOutOfBounds     // a write past the end of a proof's sibling array
    | RootDoesNotExist
    | FutureTimestamp
    | FutureBlock
    | RootEntryNotFound       // the failed assert(found)
    | EntryOutOfBounds        // a read past the end of rootEntries

  datatype Outcome<+T> = Ok(value: T) | Reverted(reason: Revert) {
    predicate IsFailure() {
      Reverted?
    }

    function PropagateFailure<U>(): Outcome<U>
      requires Reverted?
    {
      Reverted(reason)
    }

    function Extract(): T
      requires Ok?
    {
      value
    }
  }
}
