/**
 * Binary search over a non-decreasing int array, with the result contract
 * documented for java.util.Arrays.binarySearch(int[], int): some index
 * whose entry is the key (not necessarily the first one), or else
 * -(insertion point) - 1, where the insertion point is the index of the
 * first entry greater than the key, or the length when there is none.
 */
module Search {

  predicate Sorted(a: seq<int>)
  {
    forall j, k | 0 <= j <= k < |a| :: a[j] <= a[k]
  }

  /** The insertion point of key in a: everything before it is smaller, everything from it on is greater. */
  predicate IsInsertionPoint(a: seq<int>, key: int, point: int)
  {
    && 0 <= point <= |a|
    && (forall k | 0 <= k < point :: a[k] < key)
    && (forall k | point <= k < |a| :: a[k] > key)
  }

  /** The documented result of a binary search for key in a. */
  predicate IsSearchResult(a: seq<int>, key: int, r: int)
  {
    if 0 <= r then r < |a| && a[r] == key
    else IsInsertionPoint(a, key, -(r + 1))
  }

  method BinarySearch(a: array<int>, key: int) returns (r: int)
    requires Sorted(a[..])
    ensures IsSearchResult(a[..], key, r)
  {
    var low, high := 0, a.Length - 1;
    while low <= high
      invariant 0 <= low <= high + 1 <= a.Length
      invariant forall k | 0 <= k < low :: a[k] < key
      invariant forall k | high < k < a.Length :: a[k] > key
    {
      var mid := (low + high) / 2;
      var midValue := a[mid];
      if midValue < key {
        low := mid + 1;
      } else if midValue > key {
        high := mid - 1;
      } else {
        return mid;
      }
    }
    r := -(low + 1);
  }

  /** A search result is non-negative exactly when the key occurs in the array. */
  lemma SearchResultFound(a: seq<int>, key: int, r: int)
    requires IsSearchResult(a, key, r)
    ensures 0 <= r <==> key in a
  {
    if r < 0 {
      var point := -(r + 1);
      forall k | 0 <= k < |a|
        ensures a[k] != key
      {
        if k < point {
          assert a[k] < key;
        } else {
          assert a[k] > key;
        }
      }
    }
  }

  /** When the key occurs exactly once, every search result is its index. */
  lemma SearchResultUnique(a: seq<int>, key: int, r: int, k: int)
    requires IsSearchResult(a, key, r)
    requires 0 <= k < |a| && a[k] == key
    requires forall j | 0 <= j < |a| && j != k :: a[j] != key
    ensures r == k
  {
    SearchResultFound(a, key, r);
  }
}
