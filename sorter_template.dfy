/**
  * The cglib sorting engine (SorterTemplate): a hybrid quicksort and a stable
  * in-place merge sort that see the storage only through compare(i, j) and
  * swap(i, j). Here the storage is an array and compare orders positions by an
  * integer key of their elements; a ghost counter records every swap, which is the
  * engine's only way of changing the caller's data.
  */
module SorterTemplate {
  import opened SortSpec

  /** Ranges with hi - lo at or below this go to insertion sort in mergeSort. */
  const MergeSortThreshold := 12
  /** Ranges with hi - lo at or below this are left to the final insertion pass of quickSort. */
  const QuickSortThreshold := 7

  class Sorter<T> {
    /** The caller's storage. */
    const a: array<T>
    /** The order compare reports: position i sorts before j when key(a[i]) < key(a[j]). */
    const key: T -> int
    /** How many times the engine has called swap. */
    ghost var swaps: nat

    constructor (a: array<T>, key: T -> int)
      ensures this.a == a && this.key == key && swaps == 0
    {
      this.a := a;
      this.key := key;
      swaps := 0;
    }

    /** The compare primitive: negative, zero or positive as a[i] sorts before, with or after a[j]. */
    function Compare(i: int, j: int): (c: int)
      requires 0 <= i < a.Length && 0 <= j < a.Length
      reads a
      ensures c < 0 <==> key(a[i]) < key(a[j])
      ensures c == 0 <==> key(a[i]) == key(a[j])
      ensures c > 0 <==> key(a[j]) < key(a[i])
    {
      if key(a[i]) < key(a[j]) then -1 else if key(a[i]) == key(a[j]) then 0 else 1
    }

    /** The swap primitive: exchanges positions i and j and nothing else. */
    method Swap(i: int, j: int)
      requires 0 <= i < a.Length && 0 <= j < a.Length
      modifies this, a
      ensures a[i] == old(a[j]) && a[j] == old(a[i])
      ensures forall k :: 0 <= k < a.Length && k != i && k != j ==> a[k] == old(a[k])
      ensures multiset(a[..]) == multiset(old(a[..]))
      ensures swaps == old(swaps) + 1
    {
      a[i], a[j] := a[j], a[i];
      swaps := swaps + 1;
    }

    /**
      * Sorts the inclusive range a[lo..hi]; not stable. The quicksort passes leave
      * short unsorted stretches, which the final insertion pass puts in order.
      */
    method QuickSort(lo: int, hi: int)
      requires 0 <= lo <= hi + 1 <= a.Length
      modifies this, a
      ensures Sorted(a[lo..hi + 1], key)
      ensures multiset(a[..]) == multiset(old(a[..]))
      ensures SameOutside(a[..], old(a[..]), lo, hi + 1)
    {
      QuickSortHelper(lo, hi);
      InsertionSort(lo, hi);
    }

    /**
      * The quicksort passes over the inclusive range a[lo..hi]: while the range is
      * longer than the threshold it partitions around a median-of-three pivot,
      * recurses into the shorter side and keeps looping on the longer one. It only
      * rearranges the range.
      */
    method QuickSortHelper(lo: int, hi: int)
      requires 0 <= lo <= hi + 1 <= a.Length
      modifies this, a
      ensures multiset(a[..]) == multiset(old(a[..]))
      ensures SameOutside(a[..], old(a[..]), lo, hi + 1)
      decreases hi - lo
    {
      var l, h := lo, hi;
      while true
        invariant lo <= l <= h + 1 && h <= hi
        invariant multiset(a[..]) == multiset(old(a[..]))
        invariant SameOutside(a[..], old(a[..]), lo, hi + 1)
        decreases h - l
      {
        var diff := h - l;
        if diff <= QuickSortThreshold {
          break;
        }
        var mid := (h + l) / 2;
        MedianOfThree(l, mid, h);
        var j := h - 1;
        Swap(mid, j);
        var i;
        i, j := Partition(l, h);
        if j - l <= h - i + 1 {
          QuickSortHelper(l, j);
          l := i + 1;
        } else {
          QuickSortHelper(i + 1, h);
          h := j;
        }
      }
    }

    /**
      * Orders a[lo], a[mid] and a[hi] by at most three swaps, so that a[mid] holds
      * the median of the three keys.
      */
    method MedianOfThree(lo: int, mid: int, hi: int)
      requires 0 <= lo < mid < hi < a.Length
      modifies this, a
      ensures key(a[lo]) <= key(a[mid]) <= key(a[hi])
      ensures swaps <= old(swaps) + 3
      ensures forall k :: 0 <= k < a.Length && k != lo && k != mid && k != hi ==> a[k] == old(a[k])
      ensures multiset(a[..]) == multiset(old(a[..]))
    {
      if Compare(lo, mid) > 0 {
        Swap(lo, mid);
      }
      if Compare(lo, hi) > 0 {
        Swap(lo, hi);
      }
      if Compare(mid, hi) > 0 {
        Swap(mid, hi);
      }
    }

    /**
      * Parks the median a[mid] at hi - 1 and partitions a[lo..hi] around its key p
      * with two scans that need no index checks: the rightward scan stops at the
      * parked pivot at the latest and the leftward scan at a[lo], whose key is at most
      * p. Finally the pivot is swapped to position i, which then splits the range into
      * keys at most p and keys at least p; j is where the leftward scan stopped.
      */
    method Partition(lo: int, hi: int) returns (i: int, j: int)
      requires 0 <= lo < hi - 1 && hi < a.Length
      requires key(a[lo]) <= key(a[hi - 1]) <= key(a[hi])
      modifies this, a
      ensures lo <= j < i <= hi - 1
      ensures a[i] == old(a[hi - 1])
      ensures forall k :: lo <= k < i ==> key(a[k]) <= key(a[i])
      ensures forall k :: i < k <= hi ==> key(a[i]) <= key(a[k])
      ensures multiset(a[..]) == multiset(old(a[..]))
      ensures SameOutside(a[..], old(a[..]), lo, hi + 1)
    {
      ghost var p := key(a[hi - 1]);
      j := hi - 1;
      i := lo;
      var v := j;
      while true
        invariant lo <= i <= hi - 2 && i <= j <= hi - 1 && lo < j
        invariant v == hi - 1 && a[v] == old(a[hi - 1]) && key(a[v]) == p
        invariant forall k :: lo <= k <= i ==> key(a[k]) <= p
        invariant forall k :: j <= k <= hi ==> p <= key(a[k])
        invariant multiset(a[..]) == multiset(old(a[..]))
        invariant SameOutside(a[..], old(a[..]), lo, hi + 1)
        decreases j - i
      {
        i := ScanUp(lo, i, v, hi, p);
        j := ScanDown(lo, j, v, hi, p);
        if j < i {
          assert forall k :: lo <= k < i ==> key(a[k]) <= p;
          assert forall k :: i <= k <= hi ==> p <= key(a[k]);
          break;
        }
        Swap(i, j);
      }
      Swap(i, hi - 1);
    }

    /**
      * The rightward scan of Partition: steps i forward past keys below the pivot's,
      * stopping at the latest at the pivot parked at v.
      */
    method ScanUp(lo: int, i: int, v: int, hi: int, ghost p: int) returns (r: int)
      requires 0 <= lo <= i < v < hi < a.Length && v == hi - 1 && key(a[v]) == p
      ensures i < r <= v && p <= key(a[r])
      ensures forall k :: i < k < r ==> key(a[k]) < p
    {
      r := i + 1;
      while Compare(r, v) < 0
        invariant i < r <= v
        invariant forall k :: i < k < r ==> key(a[k]) < p
        decreases v - r
      {
        r := r + 1;
      }
    }

    /**
      * The leftward scan of Partition: steps j back past keys above the pivot's,
      * stopping at the latest at a[lo], whose key is at most the pivot's.
      */
    method ScanDown(lo: int, j: int, v: int, hi: int, ghost p: int) returns (r: int)
      requires 0 <= lo < j <= v < hi < a.Length && key(a[v]) == p && key(a[lo]) <= p
      ensures lo <= r < j && key(a[r]) <= p
      ensures forall k :: r < k < j ==> p < key(a[k])
    {
      r := j - 1;
      while Compare(r, v) > 0
        invariant lo <= r < j
        invariant forall k :: r < k < j ==> p < key(a[k])
        decreases r
      {
        r := r - 1;
      }
    }

    /**
      * Sorts the inclusive range a[lo..hi] by moving each element left past its
      * strictly greater neighbours; equal keys are never exchanged, so the sort is
      * stable, and a range that is already sorted costs no swap at all.
      */
    method InsertionSort(lo: int, hi: int)
      requires 0 <= lo <= hi + 1 <= a.Length
      modifies this, a
      ensures Sorted(a[lo..hi + 1], key)
      ensures multiset(a[..]) == multiset(old(a[..]))
      ensures SameKeyOrder(a[..], old(a[..]), key)
      ensures SameOutside(a[..], old(a[..]), lo, hi + 1)
      ensures Sorted(old(a[lo..hi + 1]), key) ==> a[..] == old(a[..]) && swaps == old(swaps)
    {
      ghost var wasSorted := forall x :: lo < x <= hi ==> key(a[x - 1]) <= key(a[x]);
      assert Sorted(a[lo..hi + 1], key) ==> wasSorted by {
        if Sorted(a[lo..hi + 1], key) {
          forall x | lo < x <= hi ensures key(a[x - 1]) <= key(a[x]) {
            assert a[lo..hi + 1][x - 1 - lo] == a[x - 1] && a[lo..hi + 1][x - lo] == a[x];
          }
        }
      }
      var i := lo + 1;
      while i <= hi
        invariant lo < i && (i <= hi + 1 || lo == hi + 1)
        invariant forall x, y :: lo <= x < y < i && y <= hi ==> key(a[x]) <= key(a[y])
        invariant multiset(a[..]) == multiset(old(a[..]))
        invariant SameKeyOrder(a[..], old(a[..]), key)
        invariant SameOutside(a[..], old(a[..]), lo, hi + 1)
        invariant wasSorted ==> a[..] == old(a[..]) && swaps == old(swaps)
      {
        ghost var before := a[..];
        InsertLast(lo, i);
        SameKeyOrderTrans(a[..], before, old(a[..]), key);
        i := i + 1;
      }
      ghost var r := a[lo..hi + 1];
      forall x, y | 0 <= x < y < |r|
        ensures key(r[x]) <= key(r[y])
      {
        assert r[x] == a[lo + x] && r[y] == a[lo + y];
      }
    }

    /**
      * One pass of the outer loop of insertion sort: a[lo..i) is in order, and a[i]
      * is swapped leftwards while its left neighbour has a strictly greater key.
      */
    method InsertLast(lo: int, i: int)
      requires 0 <= lo < i < a.Length
      requires forall x, y :: lo <= x < y < i ==> key(a[x]) <= key(a[y])
      modifies this, a
      ensures forall x, y :: lo <= x < y <= i ==> key(a[x]) <= key(a[y])
      ensures multiset(a[..]) == multiset(old(a[..]))
      ensures SameKeyOrder(a[..], old(a[..]), key)
      ensures SameOutside(a[..], old(a[..]), lo, i + 1)
      ensures key(old(a[i - 1])) <= key(old(a[i])) ==> a[..] == old(a[..]) && swaps == old(swaps)
    {
      var j := i;
      while j > lo
        invariant lo <= j <= i
        invariant forall x, y :: lo <= x < y <= i && x != j && y != j ==> key(a[x]) <= key(a[y])
        invariant forall y :: j < y <= i ==> key(a[j]) < key(a[y])
        invariant multiset(a[..]) == multiset(old(a[..]))
        invariant SameKeyOrder(a[..], old(a[..]), key)
        invariant SameOutside(a[..], old(a[..]), lo, i + 1)
        invariant j == i ==> a[..] == old(a[..]) && swaps == old(swaps)
        invariant j < i ==> key(old(a[i])) < key(old(a[i - 1]))
      {
        if Compare(j - 1, j) > 0 {
          ghost var before := a[..];
          Swap(j - 1, j);
          assert SameKeyOrder(a[..], old(a[..]), key) by {
            assert a[..] == before[j - 1 := before[j]][j := before[j - 1]];
            SwapAdjacentKeepsKeyOrder(before, a[..], j - 1, key);
            SameKeyOrderTrans(a[..], before, old(a[..]), key);
          }
          j := j - 1;
        } else {
          break;
        }
      }
    }

    /**
      * Sorts the inclusive range a[lo..hi], stably: small ranges by insertion sort,
      * larger ones by sorting the overlapping halves [lo..mid] and [mid..hi] and then
      * merging the runs [lo, mid) and [mid, hi) in place. The second half's sort
      * carries the largest key of the range to hi, which the merge leaves alone.
      */
    method MergeSort(lo: int, hi: int)
      requires 0 <= lo <= hi + 1 <= a.Length
      modifies this, a
      ensures Sorted(a[lo..hi + 1], key)
      ensures multiset(a[..]) == multiset(old(a[..]))
      ensures SameKeyOrder(a[..], old(a[..]), key)
      ensures SameOutside(a[..], old(a[..]), lo, hi + 1)
      ensures Sorted(old(a[lo..hi + 1]), key) ==> a[..] == old(a[..])
      decreases hi - lo
    {
      var diff := hi - lo;
      if diff <= MergeSortThreshold {
        InsertionSort(lo, hi);
        return;
      }
      var mid := lo + diff / 2;
      ghost var s0 := a[..];
      MergeSort(lo, mid);
      ghost var s1 := a[..];
      MergeSort(mid, hi);
      ghost var s2 := a[..];
      assert Sorted(s2[lo..mid], key) by {
        assert s2[lo..mid] == s1[lo..mid];
        SortedSlice(s1, lo, mid + 1, lo, mid, key);
      }
      assert Sorted(s2[mid..hi], key) by {
        SortedSlice(s2, mid, hi + 1, mid, hi, key);
      }
      Merge(lo, mid, hi, mid - lo, hi - mid);
      MergeSortStep(s0, s1, s2, a[..], lo, mid, hi, key);
    }

    /**
      * Merges the adjacent sorted runs a[lo..pivot) and a[pivot..hi) in place and
      * stably, without a buffer: it cuts the longer run in half, finds by binary search
      * where that key falls in the other run, and hands the four blocks to MergeCut.
      */
    method Merge(lo: int, pivot: int, hi: int, len1: int, len2: int)
      requires 0 <= lo <= pivot <= hi <= a.Length
      requires len1 == pivot - lo && len2 == hi - pivot
      requires Sorted(a[lo..pivot], key) && Sorted(a[pivot..hi], key)
      modifies this, a
      ensures Sorted(a[lo..hi], key)
      ensures multiset(a[..]) == multiset(old(a[..]))
      ensures SameKeyOrder(a[..], old(a[..]), key)
      ensures SameOutside(a[..], old(a[..]), lo, hi)
      ensures len1 == 0 || len2 == 0 ==> a[..] == old(a[..]) && swaps == old(swaps)
      ensures len1 == 1 && len2 == 1 ==> (a[..] == old(a[..]) <==> key(old(a[lo])) <= key(old(a[pivot])))
      decreases hi - lo, 1
    {
      if len1 == 0 || len2 == 0 {
        assert a[lo..hi] == a[pivot..hi] || a[lo..hi] == a[lo..pivot];
        return;
      }
      if len1 + len2 == 2 {
        if Compare(pivot, lo) < 0 {
          ghost var before := a[..];
          Swap(pivot, lo);
          assert a[..] == before[lo := before[lo + 1]][lo + 1 := before[lo]];
          SwapAdjacentKeepsKeyOrder(before, a[..], lo, key);
          assert a[..][lo] != before[lo];
        }
        assert Sorted(a[lo..hi], key) by {
          assert a[lo..hi][0] == a[lo] && a[lo..hi][1] == a[pivot];
        }
        return;
      }
      var firstCut, secondCut;
      if len1 > len2 {
        firstCut := lo + len1 / 2;
        secondCut := Lower(pivot, hi, firstCut);
        CutByFirstRun(a[..], lo, firstCut, pivot, secondCut, hi, key);
        MergeCut(lo, firstCut, pivot, secondCut, hi, key(a[firstCut]));
      } else {
        secondCut := pivot + len2 / 2;
        firstCut := Upper(lo, pivot, secondCut);
        CutBySecondRun(a[..], lo, firstCut, pivot, secondCut, hi, key);
        MergeCut(lo, firstCut, pivot, secondCut, hi, key(a[secondCut]));
      }
    }

    /**
      * The recursive step of Merge: with the runs cut around the key v, rotates the
      * middle blocks a[firstCut..pivot) and a[pivot..secondCut) past each other and
      * merges the two pairs of runs that result, [lo, newMid) and [newMid, hi).
      */
    method MergeCut(lo: int, firstCut: int, pivot: int, secondCut: int, hi: int, ghost v: int)
      requires CutAt(a[..], lo, firstCut, pivot, secondCut, hi, key, v)
      requires Sorted(a[lo..pivot], key) && Sorted(a[pivot..hi], key)
      requires lo < firstCut < pivot || pivot < secondCut < hi
      modifies this, a
      ensures Sorted(a[lo..hi], key)
      ensures multiset(a[..]) == multiset(old(a[..]))
      ensures SameKeyOrder(a[..], old(a[..]), key)
      ensures SameOutside(a[..], old(a[..]), lo, hi)
      decreases hi - lo, 0
    {
      ghost var s0 := a[..];
      var len11, len22 := firstCut - lo, secondCut - pivot;
      Rotate(firstCut, pivot, secondCut);
      var newMid := firstCut + len22;
      ghost var s1 := a[..];
      assert Sorted(s1[lo..firstCut], key) && Sorted(s1[firstCut..newMid], key) &&
             Sorted(s1[newMid..secondCut], key) && Sorted(s1[secondCut..hi], key) by {
        RotatedCut(s0, s1, lo, firstCut, pivot, newMid, secondCut, hi, key, v);
      }
      Merge(lo, firstCut, newMid, len11, len22);
      ghost var s2 := a[..];
      assert s2[newMid..secondCut] == s1[newMid..secondCut] && s2[secondCut..hi] == s1[secondCut..hi];
      Merge(newMid, secondCut, hi, (pivot - lo) - len11, (hi - pivot) - len22);
      MergeStep(s0, s1, s2, a[..], lo, firstCut, pivot, newMid, secondCut, hi, key, v);
    }

    /**
      * Binary search for the first position of a[lo..hi) whose key is not below that
      * of a[val]; it only compares. Without any assumption the result is a local
      * boundary; on a sorted range it splits the range into keys below and keys at
      * or above a[val].
      */
    method Lower(lo: int, hi: int, val: int) returns (r: int)
      requires 0 <= lo <= hi <= a.Length && 0 <= val < a.Length
      ensures lo <= r <= hi
      ensures r == lo || key(a[r - 1]) < key(a[val])
      ensures r == hi || key(a[val]) <= key(a[r])
      ensures Sorted(a[lo..hi], key) ==>
                (forall k :: lo <= k < r ==> key(a[k]) < key(a[val])) &&
                (forall k :: r <= k < hi ==> key(a[val]) <= key(a[k]))
    {
      ghost var sorted := Sorted(a[lo..hi], key);
      r := lo;
      var len := hi - lo;
      while len > 0
        invariant lo <= r && 0 <= len && r + len <= hi
        invariant r == lo || key(a[r - 1]) < key(a[val])
        invariant r + len == hi || key(a[val]) <= key(a[r + len])
        invariant sorted ==> forall k :: lo <= k < r ==> key(a[k]) < key(a[val])
        invariant sorted ==> forall k :: r + len <= k < hi ==> key(a[val]) <= key(a[k])
      {
        var half := len / 2;
        var mid := r + half;
        if Compare(mid, val) < 0 {
          assert sorted ==> forall k :: r <= k < mid ==> key(a[k]) <= key(a[mid]) by {
            if sorted {
              forall k | r <= k < mid ensures key(a[k]) <= key(a[mid]) {
                assert a[lo..hi][k - lo] == a[k] && a[lo..hi][mid - lo] == a[mid];
              }
            }
          }
          r := mid + 1;
          len := len - half - 1;
        } else {
          assert sorted ==> forall k :: mid < k < hi ==> key(a[mid]) <= key(a[k]) by {
            if sorted {
              forall k | mid < k < hi ensures key(a[mid]) <= key(a[k]) {
                assert a[lo..hi][k - lo] == a[k] && a[lo..hi][mid - lo] == a[mid];
              }
            }
          }
          len := half;
        }
      }
    }

    /**
      * Binary search for the first position of a[lo..hi) whose key is above that of
      * a[val]; it only compares. On a sorted range it splits the range into keys at
      * or below and keys above a[val].
      */
    method Upper(lo: int, hi: int, val: int) returns (r: int)
      requires 0 <= lo <= hi <= a.Length && 0 <= val < a.Length
      ensures lo <= r <= hi
      ensures r == lo || key(a[r - 1]) <= key(a[val])
      ensures r == hi || key(a[val]) < key(a[r])
      ensures Sorted(a[lo..hi], key) ==>
                (forall k :: lo <= k < r ==> key(a[k]) <= key(a[val])) &&
                (forall k :: r <= k < hi ==> key(a[val]) < key(a[k]))
    {
      ghost var sorted := Sorted(a[lo..hi], key);
      r := lo;
      var len := hi - lo;
      while len > 0
        invariant lo <= r && 0 <= len && r + len <= hi
        invariant r == lo || key(a[r - 1]) <= key(a[val])
        invariant r + len == hi || key(a[val]) < key(a[r + len])
        invariant sorted ==> forall k :: lo <= k < r ==> key(a[k]) <= key(a[val])
        invariant sorted ==> forall k :: r + len <= k < hi ==> key(a[val]) < key(a[k])
      {
        var half := len / 2;
        var mid := r + half;
        if Compare(val, mid) < 0 {
          assert sorted ==> forall k :: mid < k < hi ==> key(a[mid]) <= key(a[k]) by {
            if sorted {
              forall k | mid < k < hi ensures key(a[mid]) <= key(a[k]) {
                assert a[lo..hi][k - lo] == a[k] && a[lo..hi][mid - lo] == a[mid];
              }
            }
          }
          len := half;
        } else {
          assert sorted ==> forall k :: r <= k < mid ==> key(a[k]) <= key(a[mid]) by {
            if sorted {
              forall k | r <= k < mid ensures key(a[k]) <= key(a[mid]) {
                assert a[lo..hi][k - lo] == a[k] && a[lo..hi][mid - lo] == a[mid];
              }
            }
          }
          r := mid + 1;
          len := len - half - 1;
        }
      }
    }

    /** Reverses a[lo..hi) by swapping its two ends inwards: one loop of Rotate. */
    method Reverse(lo: int, hi: int)
      requires 0 <= lo <= hi <= a.Length
      modifies this, a
      ensures ReversedIn(a[..], old(a[..]), lo, hi)
      ensures SameOutside(a[..], old(a[..]), lo, hi)
      ensures multiset(a[..]) == multiset(old(a[..]))
    {
      var lot, hit := lo, hi - 1;
      while lot < hit
        invariant lo <= lot <= hit + 1 && lot + hit == lo + hi - 1
        invariant forall k :: (lo <= k < lot || hit < k < hi) ==> a[k] == old(a[lo + hi - 1 - k])
        invariant forall k :: lot <= k <= hit ==> a[k] == old(a[k])
        invariant SameOutside(a[..], old(a[..]), lo, hi)
        invariant multiset(a[..]) == multiset(old(a[..]))
      {
        Swap(lot, hit);
        lot, hit := lot + 1, hit - 1;
      }
    }

    /**
      * Exchanges the adjacent blocks a[lo..mid) and a[mid..hi) in place by three
      * reversals: the block that started at mid now starts at lo.
      */
    method Rotate(lo: int, mid: int, hi: int)
      requires 0 <= lo <= mid <= hi <= a.Length
      modifies this, a
      ensures a[lo..hi] == old(a[mid..hi]) + old(a[lo..mid])
      ensures SameOutside(a[..], old(a[..]), lo, hi)
      ensures multiset(a[..]) == multiset(old(a[..]))
    {
      ghost var s0 := a[..];
      Reverse(lo, mid);
      ghost var s1 := a[..];
      Reverse(mid, hi);
      ghost var s2 := a[..];
      Reverse(lo, hi);
      ThreeReversalsRotate(s0, s1, s2, a[..], lo, mid, hi);
      assert a[lo..hi] == a[..][lo..hi];
      assert old(a[mid..hi]) == s0[mid..hi] && old(a[lo..mid]) == s0[lo..mid];
    }
  }
}
