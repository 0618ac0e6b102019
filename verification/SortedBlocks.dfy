/**
 Lomuto quicksort on a sequence of elements, as src/util/sort.c runs it on blocks of bytes:
 what it returns, that this is sorted, and how many key comparisons it makes.
 */
module SortedBlocks {
  type Key<!T> = T -> real

  function Swapped<T>(s: seq<T>, i: nat, j: nat): seq<T>
    requires i < |s| && j < |s|
  {
    s[i := s[j]][j := s[i]]
  }

  /** The loop of partition from j on. */
  function Lomuto<T>(key: Key<T>, s: seq<T>, pivot: real, i: int, j: int, high: int): (r: (seq<T>, int))
    requires -1 <= i < j <= high < |s|
    ensures |r.0| == |s| && i <= r.1 < high
    decreases high - j
  {
    if j == high then (s, i)
    else if key(s[j]) <= pivot then Lomuto(key, Swapped(s, i + 1, j), pivot, i + 1, j + 1, high)
    else Lomuto(key, s, pivot, i, j + 1, high)
  }

  function Partitioned<T>(key: Key<T>, s: seq<T>, low: int, high: int): (r: (seq<T>, int))
    requires 0 <= low <= high < |s|
    ensures |r.0| == |s| && low <= r.1 <= high
  {
    var (t, i) := Lomuto(key, s, key(s[high]), low - 1, low, high);
    (Swapped(t, i + 1, high), i + 1)
  }

  lemma LomutoStep<T>(key: Key<T>, s: seq<T>, pivot: real, i: int, j: int, high: int)
    requires -1 <= i < j < high < |s|
    ensures Lomuto(key, s, pivot, i, j, high) ==
      if key(s[j]) <= pivot then Lomuto(key, Swapped(s, i + 1, j), pivot, i + 1, j + 1, high)
      else Lomuto(key, s, pivot, i, j + 1, high)
  {
  }

  lemma PartitionedIs<T>(key: Key<T>, s: seq<T>, low: int, high: int, t: seq<T>, i: int)
    requires 0 <= low <= high < |s| && high < |t| && -1 <= i < high
    requires Lomuto(key, t, key(s[high]), i, high, high) == Lomuto(key, s, key(s[high]), low - 1, low, high)
    ensures Partitioned(key, s, low, high) == (Swapped(t, i + 1, high), i + 1)
  {
  }

  function QuickSorted<T>(key: Key<T>, s: seq<T>, low: int, high: int): (r: seq<T>)
    requires 0 <= low && high < |s|
    ensures |r| == |s|
    decreases high - low
  {
    if low < high then
      var (t, p) := Partitioned(key, s, low, high);
      QuickSorted(key, QuickSorted(key, t, low, p - 1), p + 1, high)
    else s
  }

  /** How often partition's loop compares a key with the pivot's, over the whole sort. */
  function Comparisons<T>(key: Key<T>, s: seq<T>, low: int, high: int): nat
    requires 0 <= low && high < |s|
    decreases high - low
  {
    if low < high then
      var (t, p) := Partitioned(key, s, low, high);
      high - low + Comparisons(key, t, low, p - 1) + Comparisons(key, QuickSorted(key, t, low, p - 1), p + 1, high)
    else 0
  }

  /** How many calls of _quicksort are active at once, at most. */
  function Depth<T>(key: Key<T>, s: seq<T>, low: int, high: int): (d: nat)
    requires 0 <= low && high < |s|
    ensures d > 0
    decreases high - low
  {
    if low < high then
      var (t, p) := Partitioned(key, s, low, high);
      1 + Max(Depth(key, t, low, p - 1), Depth(key, QuickSorted(key, t, low, p - 1), p + 1, high))
    else 1
  }

  function Max(a: nat, b: nat): nat { if a > b then a else b }

  // ------------------------------------------------------------- what is kept

  /** t is s with only the elements from low to high, inclusive, rearranged. */
  ghost predicate Rearranged<T>(s: seq<T>, t: seq<T>, low: int, high: int)
    requires 0 <= low && high < |s|
  {
    && |t| == |s|
    && (low <= high ==>
          t[..low] == s[..low] && t[high + 1..] == s[high + 1..] &&
          multiset(t[low..high + 1]) == multiset(s[low..high + 1]))
    && (high < low ==> t == s)
  }

  lemma SwapRearranges<T>(s: seq<T>, i: nat, j: nat, low: nat, high: nat)
    requires low <= i <= j <= high < |s|
    ensures Rearranged(s, Swapped(s, i, j), low, high)
  {
    var t := Swapped(s, i, j);
    assert t[low..high + 1] == s[low..high + 1][i - low := s[j]][j - low := s[i]];
  }

  lemma RearrangedItself<T>(s: seq<T>, low: int, high: int)
    requires 0 <= low && high < |s|
    ensures Rearranged(s, s, low, high)
  {
  }

  lemma RearrangedTwice<T>(s: seq<T>, t: seq<T>, u: seq<T>, low: int, high: int)
    requires 0 <= low && high < |s| && Rearranged(s, t, low, high) && Rearranged(t, u, low, high)
    ensures Rearranged(s, u, low, high)
  {
  }

  /** Rearranging a part rearranges the whole. */
  lemma RearrangedWithin<T>(s: seq<T>, t: seq<T>, lo: int, hi: int, low: int, high: int)
    requires 0 <= low <= lo && hi <= high < |s| && low <= high && Rearranged(s, t, lo, hi)
    ensures Rearranged(s, t, low, high)
  {
    if lo <= hi {
      assert t[..low] == t[..lo][..low] && s[..low] == s[..lo][..low];
      assert t[high + 1..] == t[hi + 1..][high - hi..] && s[high + 1..] == s[hi + 1..][high - hi..];
      Thirds(s, lo, hi, low, high);
      Thirds(t, lo, hi, low, high);
      assert t[low..lo] == t[..lo][low..] && s[low..lo] == s[..lo][low..];
      assert t[hi + 1..high + 1] == t[hi + 1..][..high - hi] && s[hi + 1..high + 1] == s[hi + 1..][..high - hi];
    }
  }

  lemma Thirds<T>(s: seq<T>, lo: int, hi: int, low: int, high: int)
    requires 0 <= low <= lo <= hi <= high < |s|
    ensures multiset(s[low..high + 1]) == multiset(s[low..lo]) + multiset(s[lo..hi + 1]) + multiset(s[hi + 1..high + 1])
  {
    assert s[low..high + 1] == s[low..lo] + s[lo..hi + 1] + s[hi + 1..high + 1];
  }

  /** What holds of every element of a range holds of every element once it is rearranged. */
  lemma RearrangedKeeps<T(!new)>(s: seq<T>, t: seq<T>, low: int, high: int, P: T -> bool)
    requires 0 <= low <= high < |s| && Rearranged(s, t, low, high)
    requires forall k :: low <= k <= high ==> P(s[k])
    ensures forall k :: low <= k <= high ==> P(t[k])
  {
    forall k | low <= k <= high ensures P(t[k]) {
      assert t[k] == t[low..high + 1][k - low];
      assert t[k] in multiset(t[low..high + 1]);
      assert t[k] in s[low..high + 1];
    }
  }

  lemma RearrangedElsewhere<T>(s: seq<T>, t: seq<T>, low: int, high: int)
    requires 0 <= low && high < |s| && Rearranged(s, t, low, high)
    ensures |t| == |s| && forall k :: 0 <= k < |s| && !(low <= k <= high) ==> t[k] == s[k]
  {
  }

  // ---------------------------------------------------------------- it sorts

  lemma {:induction false} LomutoRearranges<T>(key: Key<T>, s: seq<T>, pivot: real, low: int, i: int, j: int, high: int)
    requires 0 <= low <= i + 1 && i < j <= high < |s|
    ensures Rearranged(s, Lomuto(key, s, pivot, i, j, high).0, low, high - 1)
    decreases high - j
  {
    hide Rearranged, Swapped;
    if j < high {
      if key(s[j]) <= pivot {
        var s' := Swapped(s, i + 1, j);
        SwapRearranges(s, i + 1, j, low, high - 1);
        LomutoRearranges(key, s', pivot, low, i + 1, j + 1, high);
        RearrangedTwice(s, s', Lomuto(key, s', pivot, i + 1, j + 1, high).0, low, high - 1);
      } else {
        LomutoRearranges(key, s, pivot, low, i, j + 1, high);
      }
    } else {
      RearrangedItself(s, low, high - 1);
    }
  }

  /** The loop keeps the elements up to i at or below the pivot, and those after, up to
      j, above it. */
  lemma {:induction false} LomutoSplits<T>(key: Key<T>, s: seq<T>, pivot: real, low: int, i: int, j: int, high: int)
    requires 0 <= low <= i + 1 && i < j <= high < |s|
    requires forall k :: low <= k <= i ==> key(s[k]) <= pivot
    requires forall k :: i < k < j ==> key(s[k]) > pivot
    ensures var (t, p) := Lomuto(key, s, pivot, i, j, high);
      && t[high] == s[high]
      && (forall k :: low <= k <= p ==> key(t[k]) <= pivot)
      && (forall k :: p < k < high ==> key(t[k]) > pivot)
    decreases high - j
  {
    if j < high {
      if key(s[j]) <= pivot {
        LomutoSplits(key, Swapped(s, i + 1, j), pivot, low, i + 1, j + 1, high);
      } else {
        LomutoSplits(key, s, pivot, low, i, j + 1, high);
      }
    }
  }

  lemma PartitionRearranges<T>(key: Key<T>, s: seq<T>, low: int, high: int)
    requires 0 <= low < high < |s|
    ensures Rearranged(s, Partitioned(key, s, low, high).0, low, high)
  {
    hide Rearranged, Swapped, Lomuto;
    var (u, i) := Lomuto(key, s, key(s[high]), low - 1, low, high);
    LomutoRearranges(key, s, key(s[high]), low, low - 1, low, high);
    RearrangedWithin(s, u, low, high - 1, low, high);
    SwapRearranges(u, i + 1, high, low, high);
    RearrangedTwice(s, u, Swapped(u, i + 1, high), low, high);
  }

  lemma PartitionSplits<T>(key: Key<T>, s: seq<T>, low: int, high: int)
    requires 0 <= low < high < |s|
    ensures var (t, p) := Partitioned(key, s, low, high);
      && (forall k :: low <= k < p ==> key(t[k]) <= key(t[p]))
      && (forall k :: p < k <= high ==> key(t[k]) > key(t[p]))
  {
    hide Lomuto;
    LomutoSplits(key, s, key(s[high]), low, low - 1, low, high);
  }

  predicate SortedBetween<T>(key: Key<T>, s: seq<T>, low: int, high: int)
    requires 0 <= low && high < |s|
  {
    forall j, k :: low <= j <= k <= high ==> key(s[j]) <= key(s[k])
  }

  lemma ShortIsSorted<T>(key: Key<T>, s: seq<T>, low: int, high: int)
    requires 0 <= low && high <= low && high < |s|
    ensures SortedBetween(key, s, low, high)
  {
  }

  /** The range comes out sorted, with the elements it had; nothing else moves. */
  lemma {:induction false} QuickSortSorts<T(!new)>(key: Key<T>, s: seq<T>, low: int, high: int)
    requires 0 <= low && high < |s|
    ensures var r := QuickSorted(key, s, low, high);
      Rearranged(s, r, low, high) && SortedBetween(key, r, low, high)
    decreases high - low
  {
    hide Rearranged, SortedBetween, Partitioned;
    if low < high {
      var (t, p) := Partitioned(key, s, low, high);
      var u := QuickSorted(key, t, low, p - 1);
      var r := QuickSorted(key, u, p + 1, high);
      PartitionRearranges(key, s, low, high);
      PartitionSplits(key, s, low, high);
      QuickSortSorts(key, t, low, p - 1);
      QuickSortSorts(key, u, p + 1, high);
      HalvesAreSorted(key, t, u, r, low, p, high);
      RearrangedWithin(t, u, low, p - 1, low, high);
      RearrangedWithin(u, r, p + 1, high, low, high);
      RearrangedTwice(s, t, u, low, high);
      RearrangedTwice(s, u, r, low, high);
    } else {
      RearrangedItself(s, low, high);
      ShortIsSorted(key, s, low, high);
    }
  }

  /** Sorting either side of a pivot that separates them sorts the whole. */
  lemma HalvesAreSorted<T(!new)>(key: Key<T>, t: seq<T>, u: seq<T>, r: seq<T>, low: int, p: int, high: int)
    requires 0 <= low <= p <= high < |t|
    requires Rearranged(t, u, low, p - 1) && Rearranged(u, r, p + 1, high)
    requires SortedBetween(key, u, low, p - 1) && SortedBetween(key, r, p + 1, high)
    requires forall k :: low <= k < p ==> key(t[k]) <= key(t[p])
    requires forall k :: p < k <= high ==> key(t[k]) > key(t[p])
    ensures SortedBetween(key, r, low, high)
  {
    hide Rearranged;
    RearrangedElsewhere(t, u, low, p - 1);
    RearrangedElsewhere(u, r, p + 1, high);
    if low < p {
      RearrangedKeeps(t, u, low, p - 1, x => key(x) <= key(t[p]));
    }
    if p < high {
      RearrangedKeeps(u, r, p + 1, high, x => key(x) > key(t[p]));
    }
    forall j, k | low <= j <= k <= high ensures key(r[j]) <= key(r[k]) {
      if k < p {
        assert key(u[j]) <= key(u[k]);
      } else if p < j {
        assert key(r[j]) <= key(r[k]);
      } else {
        assert j < p ==> key(r[j]) <= key(t[p]);
        assert p < k ==> key(r[k]) > key(t[p]);
      }
    }
  }

  // --------------------------------------------------------- what it costs

  function Triangle(n: int): int {
    n * (n - 1) / 2
  }

  lemma TriangleStep(n: nat)
    ensures Triangle(n + 1) == Triangle(n) + n
  {
    assert (n + 1) * n == n * (n - 1) + 2 * n;
  }

  lemma {:induction false} TriangleSplits(a: nat, b: nat)
    ensures Triangle(a) + Triangle(b) <= Triangle(a + b)
  {
    if b > 0 {
      TriangleSplits(a, b - 1);
      TriangleStep(b - 1);
      TriangleStep(a + b - 1);
    }
  }

  lemma {:induction false} TriangleGrows(a: nat, b: nat)
    requires a <= b
    ensures Triangle(a) <= Triangle(b)
  {
    if a < b {
      TriangleGrows(a, b - 1);
      TriangleStep(b - 1);
    }
  }

  /** At most n (n - 1) / 2 comparisons for n elements. */
  lemma {:induction false} ComparisonsBound<T>(key: Key<T>, s: seq<T>, low: int, high: int)
    requires 0 <= low <= high + 1 && high < |s|
    ensures Comparisons(key, s, low, high) <= Triangle(high - low + 1)
    decreases high - low
  {
    hide Triangle, Partitioned;
    TriangleStep(if low < high then high - low else 0);
    if low < high {
      var (t, p) := Partitioned(key, s, low, high);
      ComparisonsBound(key, t, low, p - 1);
      ComparisonsBound(key, QuickSorted(key, t, low, p - 1), p + 1, high);
      TriangleSplits(p - low, high - p);
    } else {
      assert Triangle(0) == 0 && Triangle(1) == 0 by { TriangleIsZero(); }
    }
  }

  lemma TriangleIsZero()
    ensures Triangle(0) == 0 && Triangle(1) == 0
  {
  }

  /** The calls nest at most as deep as there are elements. */
  lemma {:induction false} DepthBound<T>(key: Key<T>, s: seq<T>, low: int, high: int)
    requires 0 <= low && high < |s|
    ensures Depth(key, s, low, high) <= Max(1, if low <= high then high - low + 1 else 0)
    decreases high - low
  {
    hide Partitioned, QuickSorted;
    if low < high {
      var (t, p) := Partitioned(key, s, low, high);
      DepthBound(key, t, low, p - 1);
      DepthBound(key, QuickSorted(key, t, low, p - 1), p + 1, high);
    }
  }

  // ---------------------------------------------------------- sorted input

  /** On a sorted range every key is at or below the pivot's, so every swap is of an
      element with itself. */
  lemma {:induction false} LomutoOnSorted<T>(key: Key<T>, s: seq<T>, pivot: real, j: int, high: int)
    requires 0 <= j <= high < |s|
    requires forall k :: j <= k < high ==> key(s[k]) <= pivot
    ensures Lomuto(key, s, pivot, j - 1, j, high) == (s, high - 1)
    decreases high - j
  {
    if j < high {
      assert Swapped(s, j, j) == s;
      LomutoOnSorted(key, s, pivot, j + 1, high);
    }
  }

  lemma PartitionOnSorted<T>(key: Key<T>, s: seq<T>, low: int, high: int)
    requires 0 <= low < high < |s| && SortedBetween(key, s, low, high)
    ensures Partitioned(key, s, low, high) == (s, high)
  {
    LomutoOnSorted(key, s, key(s[high]), low, high);
    assert Swapped(s, high, high) == s;
  }

  /** A range that is sorted already, so also one whose keys are all equal, is left as it
      is, and costs the most comparisons there can be. */
  lemma {:induction false} SortedIsWorstAndUnchanged<T>(key: Key<T>, s: seq<T>, low: int, high: int)
    requires 0 <= low <= high + 1 && high < |s| && SortedBetween(key, s, low, high)
    ensures QuickSorted(key, s, low, high) == s
    ensures Comparisons(key, s, low, high) == Triangle(high - low + 1)
    decreases high - low
  {
    hide Triangle, Partitioned;
    TriangleIsZero();
    if low < high {
      assert SortedBetween(key, s, low, high - 1);
      PartitionOnSorted(key, s, low, high);
      hide SortedBetween;
      SortedIsWorstAndUnchanged(key, s, low, high - 1);
      TriangleStep(high - low);
    }
  }

  /** And on such a range the calls nest as deep as there are elements: each leaves all but
      the last to the next. */
  lemma {:induction false} SortedIsDeepest<T>(key: Key<T>, s: seq<T>, low: int, high: int)
    requires 0 <= low <= high < |s| && SortedBetween(key, s, low, high)
    ensures Depth(key, s, low, high) == high - low + 1
    decreases high - low
  {
    hide Partitioned, QuickSorted;
    if low < high {
      assert SortedBetween(key, s, low, high - 1);
      PartitionOnSorted(key, s, low, high);
      hide SortedBetween;
      SortedIsDeepest(key, s, low, high - 1);
      SortedIsWorstAndUnchanged(key, s, low, high - 1);
    }
  }

  lemma SortingTwice<T(!new)>(key: Key<T>, s: seq<T>, low: int, high: int)
    requires 0 <= low && high < |s|
    ensures var r := QuickSorted(key, s, low, high);
      QuickSorted(key, r, low, high) == r
  {
    if low < high {
      QuickSortSorts(key, s, low, high);
      SortedIsWorstAndUnchanged(key, QuickSorted(key, s, low, high), low, high);
    }
  }
}
