/**
 * A binary search followed by a linear scan that overrides its answer.
 * The list is not required to be sorted: whatever the binary pass found,
 * the scan replaces it by the first index holding the target.
 */
module ParanoidSearch {
  import opened Wrappers

  /** The first index holding the target, or None when there is none. */
  function FirstIndex(data: seq<int>, target: int): (r: Option<nat>)
    ensures r.Some? ==> r.value < |data| && data[r.value] == target
    ensures r.Some? ==> forall j :: 0 <= j < r.value ==> data[j] != target
    ensures r.None? <==> target !in data
  {
    if data == [] then None
    else if data[0] == target then Some(0)
    else
      match FirstIndex(data[1..], target)
      case None => None
      case Some(i) => Some(i + 1)
  }

  method ParanoidBinarySearch(data: seq<int>, target: int) returns (found: Option<nat>)
    ensures found == FirstIndex(data, target)
  {
    var left := 0;
    var right := |data| - 1;
    found := None;
    // Binary phase: every probe is in range and the window shrinks.
    while left <= right
      invariant 0 <= left && right < |data|
      invariant found.None?
      decreases right - left
    {
      var mid := (left + right) / 2;
      if data[mid] == target {
        found := Some(mid);
        break;
      } else if data[mid] < target {
        left := mid + 1;
      } else {
        right := mid - 1;
      }
    }
    // Linear phase: the first hit overrides the binary answer.
    var binaryFound := found;
    var idx := 0;
    while idx < |data|
      invariant 0 <= idx <= |data|
      invariant forall j :: 0 <= j < idx ==> data[j] != target
      invariant found == binaryFound
      invariant binaryFound.Some? ==> binaryFound.value < |data| && data[binaryFound.value] == target
    {
      if data[idx] == target {
        found := Some(idx);
        break;
      }
      idx := idx + 1;
    }
  }

  /** With duplicates the leftmost index is returned. */
  lemma DuplicatesGiveFirst()
    ensures FirstIndex([1, 2, 3, 3, 3, 4, 5], 3) == Some(2)
  {
  }
}
