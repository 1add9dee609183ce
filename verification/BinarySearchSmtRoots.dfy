// The binary search over the root log.
module BinarySearchSmtRoots {
  import opened RootLog

  // On a log sorted by the searched field, equal values included, the loop finds the last entry at or before value.
  method BinarySearchUint256(entries: seq<RootEntry>, value: nat, st: SearchType) returns (index: nat, found: bool)
    requires Sorted(entries, st)
    ensures found <==> exists k :: 0 <= k < |entries| && FieldSelector(entries[k], st) <= value
    ensures found ==> index < |entries| &&
                      forall k :: 0 <= k < |entries| ==> (FieldSelector(entries[k], st) <= value <==> k <= index)
    ensures (index, found) == LatestAtOrBefore(entries, value, st)
  {
    ghost var latest := LatestAtOrBefore(entries, value, st).0;
    LatestSplitsTheLog(entries, value, st);
    if |entries| == 0 {
      return 0, false;
    }
    var min, max := 0, |entries| - 1;
    while min <= max
      invariant 0 <= min <= max + 1 <= |entries| && 0 <= max
      invariant forall k :: 0 <= k < min ==> FieldSelector(entries[k], st) < value
      invariant forall k :: max < k < |entries| ==> value < FieldSelector(entries[k], st)
      decreases max + 1 - min
    {
      var mid := (max + min) / 2;
      var midValue := FieldSelector(entries[mid], st);
      if midValue == value {
        while mid < |entries| - 1
          invariant mid < |entries| && FieldSelector(entries[mid], st) == value
        {
          var nextValue := FieldSelector(entries[mid + 1], st);
          if nextValue == value {
            mid := mid + 1;
          } else {
            return mid, true;
          }
        }
        return mid, true;
      } else if value > midValue {
        min := mid + 1;
      } else if value < midValue && mid > 0 {
        max := mid - 1;
      } else {
        return 0, false;
      }
    }
    assert FieldSelector(entries[max], st) < value;
    assert FieldSelector(entries[latest], st) <= value;
    return max, true;
  }
}
