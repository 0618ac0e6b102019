/**
 The generic quicksort of src/util/sort.c, on raw bytes: an array of `count` elements of
 `size` bytes each, which starts at `base` in a larger memory. A key is a real number, read
 from the bytes of an element.
 */
module Sort {
  import opened Prelude
  import opened SortedBlocks

  lemma BlockEnd(k: nat, n: nat, size: nat)
    requires k < n
    ensures k * size + size <= n * size
  {
    var d := n - k - 1;
    assert (k + 1 + d) * size == k * size + size + d * size;
    assert d * size >= 0;
  }

  function BlockAt(m: seq<byte>, base: nat, size: nat, n: nat, k: nat): seq<byte>
    requires base + n * size <= |m| && k < n
  {
    BlockEnd(k, n, size);
    m[base + k * size..base + k * size + size]
  }

  /** The elements: n blocks of `size` bytes from `base` on. */
  function Blocks(m: seq<byte>, base: nat, size: nat, n: nat): (bs: seq<seq<byte>>)
    requires base + n * size <= |m|
    ensures |bs| == n
    ensures forall k :: 0 <= k < n ==> bs[k] == BlockAt(m, base, size, n, k)
  {
    seq(n, k requires 0 <= k < n => BlockAt(m, base, size, n, k))
  }

  /** Nothing but the n blocks differs. */
  predicate SameOutside(m: seq<byte>, m': seq<byte>, base: nat, size: nat, n: nat)
    requires base + n * size <= |m|
  {
    |m'| == |m| && m'[..base] == m[..base] && m'[base + n * size..] == m[base + n * size..]
  }

  // ------------------------------------------------------------------- swap

  function Copied(to: seq<byte>, p: nat, from: seq<byte>, q: nat, size: nat): (r: seq<byte>)
    requires p + size <= |to| && q + size <= |from|
    ensures |r| == |to|
  {
    to[..p] + from[q..q + size] + to[p + size..]
  }

  lemma CopiedByte(to: seq<byte>, p: nat, from: seq<byte>, q: nat, size: nat, k: nat)
    requires p + size <= |to| && q + size <= |from| && k < |to|
    ensures Copied(to, p, from, q, size)[k] == if p <= k < p + size then from[q + (k - p)] else to[k]
  {
    if k < p {
      assert Copied(to, p, from, q, size)[k] == to[..p][k];
    } else if k < p + size {
      assert Copied(to, p, from, q, size)[k] == from[q..q + size][k - p];
    } else {
      assert Copied(to, p, from, q, size)[k] == to[p + size..][k - (p + size)];
    }
  }

  method Memcpy(to: array<byte>, p: nat, from: array<byte>, q: nat, size: nat)
    requires p + size <= to.Length && q + size <= from.Length
    modifies to
    ensures to[..] == Copied(old(to[..]), p, old(from[..]), q, size)
  {
    forall k | p <= k < p + size {
      to[k] := from[q + (k - p)];
    }
  }

  /** Two places of the same size do not overlap unless they are the same. */
  predicate Apart(p: nat, q: nat, size: nat) {
    p == q || p + size <= q || q + size <= p
  }

  function SwappedBytes(m: seq<byte>, p: nat, q: nat, size: nat): (r: seq<byte>)
    requires p + size <= |m| && q + size <= |m|
    ensures |r| == |m|
  {
    Copied(Copied(m, p, m, q, size), q, m, p, size)
  }

  lemma FromTemp(m: seq<byte>, p: nat, size: nat, to: seq<byte>, q: nat, temp: seq<byte>)
    requires p + size <= |m| && q + size <= |to| && |temp| == size
    ensures Copied(to, q, Copied(temp, 0, m, p, size), 0, size) == Copied(to, q, m, p, size)
  {
    assert Copied(temp, 0, m, p, size) == m[p..p + size];
  }

  method Swap(a: array<byte>, p: nat, q: nat, size: nat)
    requires p + size <= a.Length && q + size <= a.Length
    modifies a
    ensures a[..] == SwappedBytes(old(a[..]), p, q, size)
  {
    hide Copied;
    var temp := new byte[size];
    FromTemp(a[..], p, size, Copied(a[..], p, a[..], q, size), q, temp[..]);
    Memcpy(temp, 0, a, p, size);
    Memcpy(a, p, a, q, size);
    Memcpy(a, q, temp, 0, size);
  }

  lemma SwappedByte(m: seq<byte>, p: nat, q: nat, size: nat, k: nat)
    requires p + size <= |m| && q + size <= |m| && Apart(p, q, size) && k < |m|
    ensures SwappedBytes(m, p, q, size)[k]
         == m[if p <= k < p + size then q + (k - p) else if q <= k < q + size then p + (k - q) else k]
  {
    hide Copied;
    CopiedByte(m, p, m, q, size, k);
    CopiedByte(Copied(m, p, m, q, size), q, m, p, size, k);
  }

  lemma SwappedSlice(m: seq<byte>, p: nat, q: nat, size: nat, r: nat)
    requires p + size <= |m| && q + size <= |m| && r + size <= |m| && size > 0
    requires Apart(p, q, size) && Apart(r, p, size) && Apart(r, q, size)
    ensures SwappedBytes(m, p, q, size)[r..r + size]
         == if r == p then m[q..q + size] else if r == q then m[p..p + size] else m[r..r + size]
  {
    hide SwappedBytes;
    var m' := SwappedBytes(m, p, q, size);
    var from := if r == p then q else if r == q then p else r;
    forall k | r <= k < r + size ensures m'[k] == m[from + (k - r)] {
      SwappedByte(m, p, q, size, k);
    }
    assert m'[r..r + size] == m[from..from + size];
  }

  /** Where the k-th block starts. */
  function Offset(base: nat, size: nat, k: nat): nat { base + k * size }

  lemma OffsetsApart(base: nat, size: nat, i: nat, j: nat)
    requires size > 0
    ensures Apart(Offset(base, size, i), Offset(base, size, j), size)
    ensures Offset(base, size, i) == Offset(base, size, j) <==> i == j
  {
    if i < j {
      BlockEnd(i, j, size);
    } else if j < i {
      BlockEnd(j, i, size);
    }
  }

  /** Swapping the bytes of two blocks swaps the blocks, and touches nothing outside. */
  lemma SwapSwapsBlocks(m: seq<byte>, base: nat, size: nat, n: nat, i: nat, j: nat)
    requires size > 0 && base + n * size <= |m| && i < n && j < n
    ensures Offset(base, size, i) + size <= |m| && Offset(base, size, j) + size <= |m|
    ensures var m' := SwappedBytes(m, Offset(base, size, i), Offset(base, size, j), size);
      Blocks(m', base, size, n) == Swapped(Blocks(m, base, size, n), i, j) && SameOutside(m, m', base, size, n)
  {
    hide SwappedBytes, BlockAt, Offset, Blocks;
    OffsetInside(base, size, n, i);
    OffsetInside(base, size, n, j);
    var m' := SwappedBytes(m, Offset(base, size, i), Offset(base, size, j), size);
    forall k | 0 <= k < n ensures Blocks(m', base, size, n)[k] == Swapped(Blocks(m, base, size, n), i, j)[k] {
      SwappedBlock(m, base, size, n, i, j, k);
    }
    SwapStaysInside(m, base, n * size, Offset(base, size, i), Offset(base, size, j), size);
  }

  lemma OffsetInside(base: nat, size: nat, n: nat, k: nat)
    requires k < n
    ensures base <= Offset(base, size, k) && Offset(base, size, k) + size <= base + n * size
  {
    BlockEnd(k, n, size);
  }

  lemma SwapStaysInside(m: seq<byte>, base: nat, length: nat, p: nat, q: nat, size: nat)
    requires base <= p && base <= q && p + size <= base + length <= |m| && q + size <= base + length
    ensures var m' := SwappedBytes(m, p, q, size);
      m'[..base] == m[..base] && m'[base + length..] == m[base + length..]
  {
  }

  lemma SwappedBlock(m: seq<byte>, base: nat, size: nat, n: nat, i: nat, j: nat, k: nat)
    requires size > 0 && base + n * size <= |m| && i < n && j < n && k < n
    requires Offset(base, size, i) + size <= |m| && Offset(base, size, j) + size <= |m|
    ensures BlockAt(SwappedBytes(m, Offset(base, size, i), Offset(base, size, j), size), base, size, n, k)
         == BlockAt(m, base, size, n, if k == i then j else if k == j then i else k)
  {
    hide SwappedBytes, Apart, BlockAt, Offset;
    var p, q := Offset(base, size, i), Offset(base, size, j);
    OffsetsApart(base, size, k, i);
    OffsetsApart(base, size, k, j);
    OffsetsApart(base, size, i, j);
    BlockIs(SwappedBytes(m, p, q, size), base, size, n, k);
    SwappedSlice(m, p, q, size, Offset(base, size, k));
    BlockIs(m, base, size, n, if k == i then j else if k == j then i else k);
  }

  lemma BlockIs(m: seq<byte>, base: nat, size: nat, n: nat, k: nat)
    requires base + n * size <= |m| && k < n
    ensures var p := Offset(base, size, k); p + size <= |m| && BlockAt(m, base, size, n, k) == m[p..p + size]
  {
    BlockEnd(k, n, size);
  }

  // -------------------------------------------------------------- quicksort

  /** The key of the element at j * size. */
  method GetKey(a: array<byte>, base: nat, ghost n: nat, j: nat, size: nat, key: Key<seq<byte>>) returns (k: real)
    requires j < n && base + n * size <= a.Length
    ensures k == key(Blocks(a[..], base, size, n)[j])
  {
    BlockEnd(j, n, size);
    k := key(a[base + j * size..base + j * size + size]);
    assert a[base + j * size..base + j * size + size] == BlockAt(a[..], base, size, n, j);
  }

  lemma SameOutsideTwice(m: seq<byte>, m': seq<byte>, m'': seq<byte>, base: nat, size: nat, n: nat)
    requires base + n * size <= |m| && SameOutside(m, m', base, size, n) && SameOutside(m', m'', base, size, n)
    ensures SameOutside(m, m'', base, size, n)
  {
  }

  /** The swap of two blocks in place. */
  method SwapBlocks(a: array<byte>, base: nat, ghost n: nat, i: nat, j: nat, size: nat)
    requires size > 0 && i < n && j < n && base + n * size <= a.Length
    modifies a
    ensures Blocks(a[..], base, size, n) == Swapped(Blocks(old(a[..]), base, size, n), i, j)
    ensures SameOutside(old(a[..]), a[..], base, size, n)
  {
    hide Swapped, SwappedBytes, Blocks, SameOutside;
    SwapSwapsBlocks(a[..], base, size, n, i, j);
    Swap(a, base + i * size, base + j * size, size);
  }

  method Partition(a: array<byte>, base: nat, ghost n: nat, low: int, high: int, size: nat, key: Key<seq<byte>>)
    returns (pi: int, ghost compared: nat)
    requires 0 <= low < high < n && size > 0 && base + n * size <= a.Length
    modifies a
    ensures var (t, p) := Partitioned(key, Blocks(old(a[..]), base, size, n), low, high);
      Blocks(a[..], base, size, n) == t && pi == p && compared == high - low
    ensures SameOutside(old(a[..]), a[..], base, size, n)
  {
    hide Swapped, Blocks, SameOutside, Lomuto, Partitioned;
    ghost var m := a[..];
    ghost var s := Blocks(m, base, size, n);
    var pivotKey := GetKey(a, base, n, high, size, key);
    var i := low - 1;
    var j := low;
    compared := 0;
    assert SameOutside(m, m, base, size, n) by { Unchanged(m, base, size, n); }
    while j < high
      invariant low - 1 <= i < j <= high && compared == j - low
      invariant SameOutside(m, a[..], base, size, n)
      invariant Lomuto(key, Blocks(a[..], base, size, n), pivotKey, i, j, high)
             == Lomuto(key, s, pivotKey, low - 1, low, high)
    {
      compared := compared + 1;
      LomutoStep(key, Blocks(a[..], base, size, n), pivotKey, i, j, high);
      var k := GetKey(a, base, n, j, size, key);
      if k <= pivotKey {
        i := i + 1;
        ghost var before := a[..];
        SwapBlocks(a, base, n, i, j, size);
        SameOutsideTwice(m, before, a[..], base, size, n);
      }
      j := j + 1;
    }
    PartitionedIs(key, s, low, high, Blocks(a[..], base, size, n), i);
    // Swap the pivot into its place.
    ghost var before := a[..];
    SwapBlocks(a, base, n, i + 1, high, size);
    SameOutsideTwice(m, before, a[..], base, size, n);
    pi := i + 1;
  }

  lemma Unchanged(m: seq<byte>, base: nat, size: nat, n: nat)
    requires base + n * size <= |m|
    ensures SameOutside(m, m, base, size, n)
  {
  }

  method QuicksortRange(a: array<byte>, base: nat, ghost n: nat, low: int, high: int, size: nat, key: Key<seq<byte>>)
    returns (ghost compared: nat, ghost depth: nat)
    requires 0 <= low && high < n && size > 0 && base + n * size <= a.Length
    modifies a
    ensures Blocks(a[..], base, size, n) == QuickSorted(key, Blocks(old(a[..]), base, size, n), low, high)
    ensures SameOutside(old(a[..]), a[..], base, size, n)
    ensures compared == Comparisons(key, Blocks(old(a[..]), base, size, n), low, high)
    ensures depth == Depth(key, Blocks(old(a[..]), base, size, n), low, high)
    decreases high - low
  {
    hide Blocks, Partitioned, SameOutside;
    ghost var m := a[..];
    Unchanged(m, base, size, n);
    compared, depth := 0, 1;
    if low < high {
      var pi;
      pi, compared := Partition(a, base, n, low, high, size, key);
      ghost var m1 := a[..];
      ghost var left, leftDepth := QuicksortRange(a, base, n, low, pi - 1, size, key);
      ghost var m2 := a[..];
      ghost var right, rightDepth := QuicksortRange(a, base, n, pi + 1, high, size, key);
      compared, depth := compared + left + right, 1 + Max(leftDepth, rightDepth);
      SameOutsideTwice(m, m1, m2, base, size, n);
      SameOutsideTwice(m, m2, a[..], base, size, n);
    }
  }

  /** The last element that is sorted: its index is passed on as an int. */
  function Last(n: nat): (r: int)
    ensures r < n
  {
    if n <= 1 then n - 1 else AsInt(n - 1)
  }

  method Quicksort(a: array?<byte>, base: nat, count: nat, size: nat, key: Key<seq<byte>>)
    returns (ghost compared: nat, ghost depth: nat)
    requires size > 0 && (a != null ==> base + count * size <= a.Length)
    modifies a
    ensures a != null ==>
      var s := Blocks(old(a[..]), base, size, count);
      && Blocks(a[..], base, size, count) == QuickSorted(key, s, 0, Last(count))
      && SameOutside(old(a[..]), a[..], base, size, count)
      && compared == Comparisons(key, s, 0, Last(count))
      && (count > 1 ==> depth == Depth(key, s, 0, Last(count)))
  {
    hide Blocks, SameOutside;
    compared, depth := 0, 0;
    if a != null {
      Unchanged(a[..], base, size, count);
    }
    if a == null || count <= 1 {
      return;
    }
    compared, depth := QuicksortRange(a, base, count, 0, AsInt(count - 1), size, key);
  }

  /** The elements after `last` are in order, among themselves and after those before. */
  predicate RestInOrder(key: Key<seq<byte>>, s: seq<seq<byte>>, last: int)
    requires last < |s|
  {
    forall j, k :: 0 <= j <= k < |s| && last < k ==> key(s[j]) <= key(s[k])
  }

  /** The elements are the ones there were. They are sorted by key if and only if those that
      the conversion to an int leaves out are in order already; with at most 2^31 elements it
      leaves none out. */
  lemma QuicksortSorts(key: Key<seq<byte>>, s: seq<seq<byte>>)
    ensures var r := QuickSorted(key, s, 0, Last(|s|));
      && multiset(r) == multiset(s)
      && (SortedBetween(key, r, 0, |s| - 1) <==> RestInOrder(key, s, Last(|s|)))
    ensures |s| <= 0x8000_0000 ==> Last(|s|) == |s| - 1 && RestInOrder(key, s, Last(|s|))
  {
    hide QuickSorted, Rearranged, SortedBetween, RestInOrder;
    var h := Last(|s|);
    var r := QuickSorted(key, s, 0, h);
    QuickSortSorts(key, s, 0, h);
    RearrangedWhole(s, r, h);
    WholeIsSorted(key, s, r, h);
    NothingLeftOut(key, s);
  }

  /** With one element more than that the last one is left out, and may have the least key. */
  lemma LastIsLeftOut(key: Key<seq<byte>>, high: seq<byte>, low: seq<byte>)
    requires key(low) < key(high)
    ensures var s := seq(0x8000_0000, _ => high) + [low];
      !SortedBetween(key, QuickSorted(key, s, 0, Last(|s|)), 0, |s| - 1)
  {
    hide QuickSorted, SortedBetween;
    var s := seq(0x8000_0000, _ => high) + [low];
    QuicksortSorts(key, s);
    assert s[0] == high && s[0x8000_0000] == low && Last(|s|) < 0;
  }

  lemma NothingLeftOut(key: Key<seq<byte>>, s: seq<seq<byte>>)
    ensures |s| <= 0x8000_0000 ==> Last(|s|) == |s| - 1 && RestInOrder(key, s, Last(|s|))
  {
  }

  lemma WholeIsSorted(key: Key<seq<byte>>, s: seq<seq<byte>>, r: seq<seq<byte>>, h: int)
    requires h < |s| && Rearranged(s, r, 0, h) && SortedBetween(key, r, 0, h)
    ensures SortedBetween(key, r, 0, |s| - 1) <==> RestInOrder(key, s, h)
  {
    RearrangedElsewhere(s, r, 0, h);
    assert Rearranged(r, s, 0, h);
    hide Rearranged;
    forall k | 0 <= h < k < |s|
      ensures (forall j :: 0 <= j <= h ==> key(r[j]) <= key(r[k]))
         <==> (forall j :: 0 <= j <= h ==> key(s[j]) <= key(s[k]))
    {
      var P := x => key(x) <= key(s[k]);
      if forall j :: 0 <= j <= h ==> P(s[j]) {
        RearrangedKeeps(s, r, 0, h, P);
      }
      if forall j :: 0 <= j <= h ==> P(r[j]) {
        RearrangedKeeps(r, s, 0, h, P);
      }
    }
  }

  lemma RearrangedWhole<T>(s: seq<T>, r: seq<T>, h: int)
    requires h < |s| && Rearranged(s, r, 0, h)
    ensures multiset(r) == multiset(s)
  {
    if |s| > 0 {
      RearrangedWithin(s, r, 0, h, 0, |s| - 1);
      assert s[0..|s|] == s && r[0..|s|] == r;
    }
  }

  /** At most n (n - 1) / 2 comparisons, however many elements there are. */
  lemma QuicksortComparisons(key: Key<seq<byte>>, s: seq<seq<byte>>)
    ensures Comparisons(key, s, 0, Last(|s|)) <= Triangle(|s|)
  {
    hide Comparisons, Triangle;
    var h := Last(|s|);
    TriangleIsZero();
    if 0 <= h {
      ComparisonsBound(key, s, 0, h);
      TriangleGrows(h + 1, |s|);
    } else {
      TriangleGrows(0, |s|);
      NoComparisons(key, s, h);
    }
  }

  lemma NoComparisons(key: Key<seq<byte>>, s: seq<seq<byte>>, h: int)
    requires h < 0
    ensures Comparisons(key, s, 0, h) == 0
  {
  }
}
