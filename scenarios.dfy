/**
  * Client scenarios for the sorting engine: a concrete stable merge sort whose result
  * is pinned down completely by the engine's contract, and a range of equal keys,
  * which a stable sort must leave exactly as it was.
  */
module Scenarios {
  import opened SortSpec
  import opened SorterTemplate

  /** A tagged element: its key and its original position. */
  type Tagged = (int, int)

  /** The input [5, 3a, 3b, 1, 4], each element tagged with its starting index. */
  const Input: seq<Tagged> := [(5, 0), (3, 1), (3, 2), (1, 3), (4, 4)]

  /** Sorting Input stably: the two 3s keep their order, 3a ahead of 3b. */
  const Expected: seq<Tagged> := [(1, 3), (3, 1), (3, 2), (4, 4), (5, 0)]

  /** Orders tagged elements by key alone. */
  function KeyOf(x: Tagged): int { x.0 }

  /** Expected is reached from Input by exchanging strictly descending neighbours only. */
  lemma ExpectedKeepsKeyOrder()
    ensures SameKeyOrder(Expected, Input, KeyOf)
  {
    var i1 := [(3, 1), (5, 0), (3, 2), (1, 3), (4, 4)];
    var i2 := [(3, 1), (3, 2), (5, 0), (1, 3), (4, 4)];
    var i3 := [(3, 1), (3, 2), (1, 3), (5, 0), (4, 4)];
    var i4 := [(3, 1), (1, 3), (3, 2), (5, 0), (4, 4)];
    var i5 := [(1, 3), (3, 1), (3, 2), (5, 0), (4, 4)];
    SwapAdjacentKeepsKeyOrder(Input, i1, 0, KeyOf);
    SwapAdjacentKeepsKeyOrder(i1, i2, 1, KeyOf);
    SwapAdjacentKeepsKeyOrder(i2, i3, 2, KeyOf);
    SwapAdjacentKeepsKeyOrder(i3, i4, 1, KeyOf);
    SwapAdjacentKeepsKeyOrder(i4, i5, 0, KeyOf);
    SwapAdjacentKeepsKeyOrder(i5, Expected, 3, KeyOf);
    SameKeyOrderTrans(i2, i1, Input, KeyOf);
    SameKeyOrderTrans(i3, i2, Input, KeyOf);
    SameKeyOrderTrans(i4, i3, Input, KeyOf);
    SameKeyOrderTrans(i5, i4, Input, KeyOf);
    SameKeyOrderTrans(Expected, i5, Input, KeyOf);
  }

  /** The only sorted stable rearrangement of Input is Expected. */
  lemma OnlyStableSortOfInput(r: seq<Tagged>)
    requires Sorted(r, KeyOf) && SameKeyOrder(r, Input, KeyOf)
    ensures r == Expected
  {
    ExpectedKeepsKeyOrder();
    SameKeyOrderTrans(r, Input, Expected, KeyOf);
    SortedStableUnique(r, Expected, KeyOf);
  }

  /** Merge-sorting [5, 3a, 3b, 1, 4] over its inclusive range [0..4] yields [1, 3a, 3b, 4, 5]. */
  method MergeSortTagged() returns (r: seq<Tagged>)
    ensures r == Expected
  {
    var arr := new Tagged[5](i requires 0 <= i < 5 => Input[i]);
    assert arr[..] == Input;
    var sorter := new Sorter(arr, KeyOf);
    sorter.MergeSort(0, 4);
    r := arr[..];
    assert Sorted(r, KeyOf) by {
      assert r == arr[0..4 + 1];
    }
    OnlyStableSortOfInput(r);
  }

  /**
    * A range whose elements all share one key is already sorted, so merge-sorting it
    * changes nothing at all, in value or in order.
    */
  method MergeSortAllEqual(sorter: Sorter<Tagged>, lo: int, hi: int)
    requires 0 <= lo <= hi + 1 <= sorter.a.Length
    requires forall k :: lo <= k <= hi ==> sorter.key(sorter.a[k]) == sorter.key(sorter.a[lo])
    modifies sorter, sorter.a
    ensures sorter.a[..] == old(sorter.a[..])
  {
    ghost var r := sorter.a[lo..hi + 1];
    assert Sorted(r, sorter.key) by {
      forall x, y | 0 <= x < y < |r| ensures sorter.key(r[x]) <= sorter.key(r[y]) {
        assert r[x] == sorter.a[lo + x] && r[y] == sorter.a[lo + y];
      }
    }
    sorter.MergeSort(lo, hi);
  }
}
