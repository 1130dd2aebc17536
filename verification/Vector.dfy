/**
 The growable vector of include/zbxalgo.h (ZBX_VECTOR_IMPL and its twin GLB_VECTOR_IMPL). Every operation is
 proved to refine a sequence function of VectorLaws, over the buffer it really moves elements in.
 */
module Vectors {
  import opened Arithmetic
  import opened Orders
  import opened VectorLaws

  /** Marks the result of C `int` arithmetic: the value must be representable. */
  function Int32(x: int): (r: int)
    requires -INT_MAX - 1 <= x <= INT_MAX
  {
    x
  }

  /** The cast `(int)size` of a 64-bit size. */
  function TruncateToInt(size: nat): (r: int)
    ensures -INT_MAX - 1 <= r <= INT_MAX
    ensures r == size <==> size <= INT_MAX
    ensures (r - size) % 0x1_0000_0000 == 0
  {
    var low := size % 0x1_0000_0000;
    if low <= INT_MAX then low else low - 0x1_0000_0000
  }

  /** The capacity that follows a full buffer. */
  function Grown(capacity: nat): (r: nat) {
    if capacity == 0 then 32 else Max(capacity + 1, capacity * 3 / 2)
  }

  /** The growth step is free of signed overflow exactly while the capacity is at most INT_MAX / 3. */
  ghost predicate CanGrow(capacity: nat) {
    capacity <= INT_MAX / 3
  }

  lemma GrowthFitsExactly(capacity: nat)
    ensures CanGrow(capacity) <==> capacity + 1 <= INT_MAX && capacity * 3 <= INT_MAX
    ensures CanGrow(capacity) ==> capacity < Grown(capacity) <= INT_MAX
    ensures capacity == 0 ==> Grown(capacity) == 32
    ensures capacity > 0 ==> 3 * capacity - 1 <= 2 * Grown(capacity)
    ensures capacity > 0 ==> 2 * Grown(capacity) <= 3 * capacity || Grown(capacity) == capacity + 1
  {
  }

  /** The sum lo + hi at the last probe of a binary search that never finds anything large enough. */
  function LastProbeSum(lo: nat, hi: nat): (r: nat)
    requires lo < hi
    decreases hi - lo
  {
    if (lo + hi) / 2 + 1 >= hi then lo + hi else LastProbeSum((lo + hi) / 2 + 1, hi)
  }

  /** The midpoint computation is free of signed overflow exactly up to 2^30 elements. */
  lemma {:induction false} MidpointFitsExactly(lo: nat, hi: nat)
    requires lo < hi
    ensures 2 * hi - 2 <= LastProbeSum(lo, hi) <= 2 * hi - 1
    ensures hi <= 0x4000_0000 ==> lo + hi <= INT_MAX
    ensures hi > 0x4000_0000 ==> LastProbeSum(lo, hi) > INT_MAX
    decreases hi - lo
  {
    if (lo + hi) / 2 + 1 < hi {
      MidpointFitsExactly((lo + hi) / 2 + 1, hi);
    }
  }

  // ----- The in-place loops, on a bare buffer -----

  /** memmove: the ranges may overlap. */
  method MoveBlock<T>(a: array<T>, to: nat, from: nat, n: nat)
    requires to + n <= a.Length && from + n <= a.Length
    modifies a
    ensures forall k {:trigger a[k]} | to <= k < to + n :: a[k] == old(a[from + (k - to)])
    ensures forall k {:trigger a[k]} | 0 <= k < to || to + n <= k < a.Length :: a[k] == old(a[k])
  {
    forall i | 0 <= i < n {
      a[to + i] := a[from + i];
    }
  }

  /** The buffer of uniq before it looks at s[i]: kept in front, and from i - 1 on still the original. */
  ghost predicate Compacted<T>(a: array<T>, s: seq<T>, kept: seq<T>, i: int)
    reads a
  {
    && 1 <= |kept| <= i <= |s| <= a.Length
    && (forall k | 0 <= k < |kept| :: a[k] == kept[k])
    && (forall k | i - 1 <= k < |s| :: a[k] == s[k])
  }

  lemma UniqStep<T>(c: (T, T) -> int, s: seq<T>, i: nat)
    requires 1 <= i < |s|
    ensures Uniq(c, s[..i + 1]) == Uniq(c, s[..i]) + if c(s[i - 1], s[i]) != 0 then [s[i]] else []
  {
    assert s[..i + 1][..i] == s[..i];
  }

  /** Copies s[i] down behind what has been kept, without touching anything that is still to be read. */
  method KeepNext<T>(a: array<T>, i: nat, j: nat, ghost s: seq<T>, ghost kept: seq<T>)
    requires Compacted(a, s, kept, i) && i < |s| && j == |kept|
    modifies a
    ensures Compacted(a, s, kept + [s[i]], i + 1)
  {
    a[j] := a[i];
  }

  /** Works on any comparator, and reads only elements it has not yet overwritten with others. */
  method UniqInPlace<T>(a: array<T>, n: nat, c: (T, T) -> int) returns (j: nat)
    requires 1 <= n <= a.Length
    modifies a
    ensures j <= n && a[..j] == Uniq(c, old(a[..n]))
  {
    ghost var s := a[..n];
    ghost var kept := s[..1];
    j := 1;
    for i := 1 to n
      invariant Compacted(a, s, kept, i) && |kept| == j
      invariant kept == Uniq(c, s[..i])
    {
      UniqStep(c, s, i);
      if c(a[i - 1], a[i]) != 0 {
        KeepNext(a, i, j, s, kept);
        kept := kept + [s[i]];
        j := j + 1;
      }
    }
    assert s[..n] == s && a[..j] == kept;
  }

  /**
   The buffer of setdiff while it runs on the sequence l: up to blockStart - deleted it is compacted, from
   blockStart on it is untouched, and kept is what the elements before li have contributed so far.
   */
  ghost predicate Layout<T>(a: array<T>, l: seq<T>, kept: seq<T>, blockStart: int, deleted: int, li: int)
    reads a
  {
    && 0 <= deleted <= blockStart <= li <= |l| <= a.Length
    && (deleted == 0 ==> blockStart == 0)
    && |kept| == li - deleted
    && (forall k {:trigger a[k]} | 0 <= k < blockStart - deleted :: a[k] == kept[k])
    && (forall k {:trigger kept[k]} | blockStart - deleted <= k < li - deleted :: kept[k] == l[k + deleted])
    && (forall k {:trigger a[k]} | blockStart <= k < |l| :: a[k] == l[k])
  }

  /** A match at li - 1 ends the pending block: it moves to the compacted part and the next block starts at li. */
  method CloseBlock<T>(a: array<T>, blockStart: int, deleted: int, li: int, ghost l: seq<T>, ghost kept: seq<T>)
    requires 1 <= li <= |l| && 1 <= deleted && Layout(a, l, kept, blockStart, deleted - 1, li - 1)
    modifies a
    ensures Layout(a, l, kept, li, deleted, li)
  {
    if 1 < deleted {
      MoveBlock(a, blockStart - deleted + 1, blockStart, li - 1 - blockStart);
    }
  }

  /** The final move brings the untouched rest next to what was kept. */
  method CloseLastBlock<T>(a: array<T>, n: nat, blockStart: int, deleted: int, li: int, ghost l: seq<T>, ghost kept: seq<T>)
    returns (left: nat)
    requires |l| == n && Layout(a, l, kept, blockStart, deleted, li)
    modifies a
    ensures left == n - deleted && a[..left] == kept + l[li..]
  {
    left := n;
    ghost var result := kept + l[li..];
    assert forall k {:trigger result[k]} | blockStart - deleted <= k < n - deleted :: result[k] == l[k + deleted];
    if 0 < deleted {
      MoveBlock(a, blockStart - deleted, blockStart, n - blockStart);
      left := n - deleted;
    }
    assert forall k {:trigger a[k]} | 0 <= k < left :: a[k] == result[k];
  }

  lemma KeepElement<T>(a: array<T>, l: seq<T>, kept: seq<T>, blockStart: int, deleted: int, li: int)
    requires Layout(a, l, kept, blockStart, deleted, li) && li < |l|
    ensures Layout(a, l, kept + [l[li]], blockStart, deleted, li + 1)
  {
  }

  /** Every element compares equal to itself. */
  ghost predicate SelfEqual<T>(c: (T, T) -> int, s: seq<T>) {
    forall x | x in s :: c(x, x) == 0
  }

  /** Where the walk of setdiff stands; a buffer subtracted from itself has only seen matches so far. */
  ghost predicate Progress<T>(a: array<T>, b: array<T>, c: (T, T) -> int, l: seq<T>, r: seq<T>, kept: seq<T>,
                              blockStart: int, deleted: int, li: int, ri: int)
    reads a, b
  {
    && Layout(a, l, kept, blockStart, deleted, li)
    && 0 <= ri <= |r| <= b.Length
    && kept + Difference(c, l[li..], r[ri..]) == Difference(c, l, r)
    && if a == b then li == ri == blockStart && l == r && SelfEqual(c, l) else b[..|r|] == r
  }

  /** One comparison of the walk. */
  method WalkOn<T>(a: array<T>, b: array<T>, c: (T, T) -> int, blockStart: int, deleted: int, li: int, ri: int,
                   ghost l: seq<T>, ghost r: seq<T>, ghost kept: seq<T>)
    returns (blockStart': int, deleted': int, li': int, ri': int, ghost kept': seq<T>)
    requires Progress(a, b, c, l, r, kept, blockStart, deleted, li, ri) && li < |l| && ri < |r|
    modifies a
    ensures Progress(a, b, c, l, r, kept', blockStart', deleted', li', ri')
    ensures li <= li' && ri <= ri' && li + ri < li' + ri'
  {
    blockStart', deleted', li', ri', kept' := blockStart, deleted, li, ri, kept;
    var order := c(a[li], b[ri]);
    assert a[li] == l[li] && b[ri] == r[ri];
    WalkStep(c, l, r, li, ri, kept);
    if order < 0 {
      KeepElement(a, l, kept, blockStart, deleted, li);
      kept' := kept + [l[li]];
    }
    if order <= 0 {
      li' := li + 1;
    }
    if 0 <= order {
      ri' := ri + 1;
    }
    if order != 0 {
      return;
    }
    deleted' := deleted + 1;
    CloseBlock(a, blockStart, deleted', li', l, kept);
    blockStart' := li';
  }

  /**
   In-place difference: a kept block is shifted left only when the match that ends it is found. A buffer may be
   subtracted from itself: then every element is a match and no block ever moves.
   */
  method DifferenceInPlace<T>(a: array<T>, n: nat, b: array<T>, m: nat, c: (T, T) -> int) returns (left: nat)
    requires n <= a.Length && m <= b.Length && (a == b ==> n == m && SelfEqual(c, a[..n]))
    modifies a
    ensures left <= n && a[..left] == Difference(c, old(a[..n]), old(b[..m]))
  {
    ghost var l, r := a[..n], b[..m];
    ghost var kept: seq<T> := [];
    assert l[0..] == l && r[0..] == r;
    var blockStart, deleted, li, ri := 0, 0, 0, 0;
    while li < n && ri < m
      invariant Progress(a, b, c, l, r, kept, blockStart, deleted, li, ri)
      decreases n - li + m - ri
    {
      blockStart, deleted, li, ri, kept := WalkOn(a, b, c, blockStart, deleted, li, ri, l, r, kept);
    }
    left := CloseLastBlock(a, n, blockStart, deleted, li, l, kept);
  }

  /** The loop of the binary search, on the first n elements of a buffer. */
  method SearchPlace<T(!new)>(a: array?<T>, n: int, c: (T, T) -> int, x: T, ghost s: seq<T>)
    returns (index: int, comparisons: nat)
    requires |s| == n <= 0x4000_0000 && (n > 0 ==> a != null && n <= a.Length)
    requires forall i | 0 <= i < n :: a[i] == s[i]
    ensures 0 <= index <= n
    ensures Ordered(c, s) ==> Located(c, s, x, index)
    ensures comparisons <= BitLength(n)
  {
    var lo, hi := 0, n;
    comparisons := 0;
    while 1 <= Int32(hi - lo)
      invariant Bracket(c, s, x, lo, hi)
      invariant comparisons + BitLength(hi - lo) <= BitLength(n)
    {
      var mid := Int32(lo + hi) / 2;
      var order := c(a[mid], x);
      BitLengthOfHalf(hi - lo, mid - lo);
      BitLengthOfHalf(hi - lo, hi - (mid + 1));
      comparisons := comparisons + 1;
      BracketNarrows(c, s, x, lo, hi, mid);
      if order < 0 {
        lo := mid + 1;
      } else if order == 0 {
        return mid, comparisons;
      } else {
        hi := mid;
      }
    }
    BracketCloses(c, s, x, hi);
    return hi, comparisons;
  }

  class Vector<T(0, !new)> {
    var values: array?<T>
    var count: int
    var capacity: int
    var live: bool        // the memory functions are set: true from create until destroy
    ghost var moved: nat  // elements carried over by every reallocation so far

    ghost predicate Valid()
      reads this
    {
      && 0 <= count <= capacity <= INT_MAX
      && (values == null <==> capacity == 0)
      && (values != null ==> values.Length == capacity)
    }

    ghost function Contents(): (s: seq<T>)
      requires Valid()
      reads this, values
      ensures |s| == count
    {
      if values == null then [] else values[..count]
    }

    constructor ()
      ensures Valid() && live && Contents() == [] && capacity == 0 && moved == 0
    {
      values, count, capacity, live := null, 0, 0, true;
      moved := 0;
    }

    /** realloc: a buffer of the new size holding the old elements. */
    method Reallocate(newCapacity: int)
      requires Valid() && live && count <= newCapacity <= INT_MAX && 0 < newCapacity
      modifies this
      ensures Valid() && live && capacity == newCapacity && fresh(values)
      ensures Contents() == old(Contents())
      ensures moved == old(moved) + count
    {
      var buffer := new T[newCapacity];
      if values != null {
        forall i | 0 <= i < count {
          buffer[i] := values[i];
        }
      }
      values, capacity := buffer, newCapacity;
      moved := moved + count;
    }

    method EnsureFreeSpace()
      requires Valid() && (count == capacity ==> live && CanGrow(capacity))
      modifies this
      ensures Valid() && live == old(live) && count < capacity
      ensures Contents() == old(Contents())
      ensures capacity == if old(count == capacity) then Grown(old(capacity)) else old(capacity)
      ensures moved == old(moved) + if old(count == capacity) then count else 0
      ensures values == old(values) || fresh(values)
    {
      if values == null {
        count := 0;
        Reallocate(32);
      } else if count == capacity {
        Reallocate(Max(Int32(capacity + 1), Int32(capacity * 3) / 2));
      }
    }

    method Append(x: T) returns (index: int)
      requires Valid() && (count == capacity ==> live && CanGrow(capacity))
      modifies this, values
      ensures Valid() && live == old(live)
      ensures Contents() == old(Contents()) + [x]
      ensures index == old(count)
      ensures capacity == if old(count == capacity) then Grown(old(capacity)) else old(capacity)
      ensures moved == old(moved) + if old(count == capacity) then old(count) else 0
      ensures values == old(values) || fresh(values)
    {
      EnsureFreeSpace();
      values[count] := x;
      count := count + 1;
      index := count - 1;
    }

    method Reserve(size: nat)
      requires Valid() && (TruncateToInt(size) > capacity ==> live)
      modifies this
      ensures Valid() && live == old(live)
      ensures Contents() == old(Contents())
      ensures capacity == Max(old(capacity), TruncateToInt(size))
      ensures capacity >= size <==> size <= INT_MAX
      ensures moved == old(moved) + if capacity > old(capacity) then count else 0
      ensures values == old(values) || fresh(values)
    {
      if TruncateToInt(size) > capacity {
        Reallocate(TruncateToInt(size));
      }
    }

    method AppendArray(xs: seq<T>)
      requires Valid() && count + |xs| <= INT_MAX && (count + |xs| > capacity ==> live)
      modifies this, values
      ensures Valid() && live == old(live)
      ensures Contents() == old(Contents()) + xs
      ensures capacity == Max(old(capacity), old(count) + |xs|)
      ensures moved == old(moved) + if capacity > old(capacity) then old(count) else 0
      ensures values == old(values) || fresh(values)
    {
      Reserve(Int32(count + |xs|));
      if values != null {
        forall i | 0 <= i < |xs| {
          values[count + i] := xs[i];
        }
      }
      count := count + |xs|;
    }

    /** A false result stands for the process exit on a non-existent index. */
    method RemoveNoOrder(index: int) returns (ok: bool)
      requires Valid()
      modifies this, values
      ensures Valid() && live == old(live) && capacity == old(capacity) && moved == old(moved) && values == old(values)
      ensures ok <==> 0 <= index < old(count)
      ensures ok ==>
                var last := old(Contents())[old(count) - 1];
                Contents() == old(Contents())[index := last][..old(count) - 1]
      ensures !ok ==> Contents() == old(Contents())
    {
      ok := 0 <= index < count;
      if ok {
        count := count - 1;
        values[index] := values[count];
      }
    }

    method Remove(index: int) returns (ok: bool)
      requires Valid()
      modifies this, values
      ensures Valid() && live == old(live) && capacity == old(capacity) && moved == old(moved) && values == old(values)
      ensures ok <==> 0 <= index < old(count)
      ensures ok ==> Contents() == old(Contents())[..index] + old(Contents())[index + 1..]
      ensures !ok ==> Contents() == old(Contents())
    {
      ok := 0 <= index < count;
      if ok {
        count := count - 1;
        MoveBlock(values, index, index + 1, count - index);
      }
    }

    /** qsort promises a sorted permutation and no particular order among equal elements. */
    method SortBy(c: (T, T) -> int)
      requires Valid() && TotalPreorder(c)
      modifies values
      ensures Valid()
      ensures Sorted(c, Contents()) && multiset(Contents()) == multiset(old(Contents()))
    {
      if 2 <= count {
        var sorted := Sort(c, values[..count]);
        SortSorts(c, values[..count]);
        SortIsPermutation(c, values[..count]);
        SameMultisetSameElements(sorted, values[..count]);
        forall i | 0 <= i < count {
          values[i] := sorted[i];
        }
        assert values[..count] == sorted;
      }
    }

    method UniqBy(c: (T, T) -> int)
      requires Valid()
      modifies this, values
      ensures Valid() && live == old(live) && capacity == old(capacity) && moved == old(moved) && values == old(values)
      ensures Contents() == Uniq(c, old(Contents()))
    {
      if 2 <= count {
        count := UniqInPlace(values, count, c);
      }
    }

    /**
     Binary search for the place of x, written as in the source with a single early return. Whatever the order of the
     elements, each comparison halves what is left.
     */
    method NearestIndex(c: (T, T) -> int, x: T) returns (index: int, comparisons: nat)
      requires Valid() && count <= 0x4000_0000
      ensures 0 <= index <= count
      ensures Ordered(c, Contents()) ==> Located(c, Contents(), x, index)
      ensures comparisons <= BitLength(count)
    {
      index, comparisons := SearchPlace(values, count, c, x, Contents());
    }

    /** bsearch of the C library: it compares the key with elements and counts in size_t, so no size is too large. */
    method BinarySearch(c: (T, T) -> int, x: T) returns (found: bool, index: int)
      requires Valid()
      ensures found ==> 0 <= index < count && c(x, Contents()[index]) == 0
      ensures Ordered(c, Contents()) ==> (found <==> Occurs(c, Contents(), x))
    {
      ghost var s := Contents();
      var lo, hi := 0, count;
      while lo < hi
        invariant Bracket(c, s, x, lo, hi)
      {
        index := (lo + hi) / 2;
        var order := c(x, values[index]);
        if Ordered(c, s) {
          Flipped(c, x, s[index]);
        }
        BracketNarrows(c, s, x, lo, hi, index);
        if order < 0 {
          hi := index;
        } else if order > 0 {
          lo := index + 1;
        } else {
          return true, index;
        }
      }
      BracketCloses(c, s, x, hi);
      return false, hi;
    }

    /** The cursor search: it resumes at index and leaves it on the match or on the first greater element. */
    method CursorSearch(c: (T, T) -> int, x: T, start: int) returns (found: bool, index: int, comparisons: nat)
      requires Valid() && 0 <= start
      ensures start <= index && (index <= count || index == start)
      ensures forall k | start <= k < index :: c(Contents()[k], x) < 0
      ensures index < count ==> c(Contents()[index], x) >= 0
      ensures found <==> index < count && c(Contents()[index], x) == 0
      ensures comparisons == index - start + if index < count then 1 else 0
    {
      index, comparisons := start, 0;
      while index < count
        invariant start <= index && (index <= count || index == start)
        invariant forall k | start <= k < index :: c(Contents()[k], x) < 0
        invariant comparisons == index - start
      {
        var order := c(values[index], x);
        comparisons := comparisons + 1;
        if order < 0 {
          index := index + 1;
          continue;
        }
        if order == 0 {
          return true, index, comparisons;
        }
        break;
      }
      found := false;
    }

    method Search(c: (T, T) -> int, x: T) returns (found: bool, index: int)
      requires Valid()
      ensures found ==> 0 <= index < count && c(Contents()[index], x) == 0
      ensures found ==> forall k | 0 <= k < index :: c(Contents()[k], x) != 0
      ensures found <==> Occurs(c, Contents(), x)
    {
      index := 0;
      while index < count
        invariant 0 <= index <= count
        invariant forall k | 0 <= k < index :: c(Contents()[k], x) != 0
      {
        if c(values[index], x) == 0 {
          assert Contents()[index] in Contents();
          return true, index;
        }
        index := index + 1;
      }
      found := false;
    }

    method SetDiff(right: Vector<T>, c: (T, T) -> int)
      requires Valid() && right.Valid()
      requires if right == this then SelfEqual(c, Contents()) else values != null ==> right.values != values
      modifies this, values
      ensures Valid() && live == old(live) && capacity == old(capacity) && moved == old(moved) && values == old(values)
      ensures Contents() == Difference(c, old(Contents()), old(right.Contents()))
      ensures right == this ==> Contents() == []
      ensures right != this ==> right.Valid() && right.Contents() == old(right.Contents())
    {
      if right == this {
        DifferenceWithSelf(c, Contents());
      }
      if values != null && right.values != null {
        count := DifferenceInPlace(values, count, right.values, right.count, c);
      }
    }

    method Clear()
      requires Valid()
      modifies this
      ensures Valid() && live == old(live) && capacity == old(capacity) && moved == old(moved) && values == old(values)
      ensures Contents() == []
    {
      count := 0;
    }

    method Destroy()
      requires Valid()
      modifies this
      ensures Valid() && !live && Contents() == [] && capacity == 0 && values == null && moved == old(moved)
    {
      if values != null {
        values, count, capacity := null, 0, 0;
      }
      live := false;
    }
  }

  // ----- Facts the searches and setdiff rest on -----

  ghost predicate Occurs<T>(c: (T, T) -> int, s: seq<T>, x: T) {
    exists y | y in s :: c(y, x) == 0
  }

  /** Putting x at position index keeps a sorted sequence sorted. */
  ghost predicate InsertionPoint<T>(c: (T, T) -> int, s: seq<T>, x: T, index: int)
    requires 0 <= index <= |s|
  {
    Sorted(c, s[..index] + [x] + s[index..])
  }

  lemma AllBelow<T(!new)>(c: (T, T) -> int, s: seq<T>, x: T, mid: nat)
    requires TotalPreorder(c) && Sorted(c, s) && mid < |s| && c(s[mid], x) < 0
    ensures forall k | 0 <= k <= mid :: c(s[k], x) < 0
  {
    forall k | 0 <= k <= mid ensures c(s[k], x) < 0 {
      StrictlyBelow(c, s[..mid + 1], s[k], x);
    }
  }

  lemma AllAbove<T(!new)>(c: (T, T) -> int, s: seq<T>, x: T, mid: nat)
    requires TotalPreorder(c) && Sorted(c, s) && mid < |s| && c(s[mid], x) > 0
    ensures forall k | mid <= k < |s| :: c(s[k], x) > 0
  {
    forall k | mid < k < |s| ensures c(s[k], x) > 0 {
      Transitive(c, x, s[mid], s[k]);
    }
  }

  lemma SplitAtEqual<T(!new)>(c: (T, T) -> int, s: seq<T>, x: T, mid: nat)
    requires TotalPreorder(c) && Sorted(c, s) && mid < |s| && c(s[mid], x) == 0
    ensures InsertionPoint(c, s, x, mid)
    ensures Occurs(c, s, x)
  {
    assert s[mid] in s;
    forall k | 0 <= k < mid ensures c(s[k], x) <= 0 {
      Transitive(c, s[k], s[mid], x);
    }
    forall k | mid <= k < |s| ensures c(x, s[k]) <= 0 {
      assert c(x, s[mid]) < 0 <==> c(s[mid], x) > 0;
      if mid < k {
        Transitive(c, x, s[mid], s[k]);
      }
    }
  }

  lemma SplitAtGap<T(!new)>(c: (T, T) -> int, s: seq<T>, x: T, index: nat)
    requires TotalPreorder(c) && Sorted(c, s) && index <= |s|
    requires forall k | 0 <= k < index :: c(s[k], x) < 0
    requires forall k | index <= k < |s| :: c(s[k], x) > 0
    ensures InsertionPoint(c, s, x, index)
    ensures !Occurs(c, s, x)
  {
    assert forall k | index <= k < |s| :: c(x, s[k]) < 0;
  }

  ghost predicate Ordered<T(!new)>(c: (T, T) -> int, s: seq<T>) {
    TotalPreorder(c) && Sorted(c, s)
  }

  /** Inserting x at the index keeps the order, and the index is on an element equal to x exactly when there is one. */
  ghost predicate Located<T>(c: (T, T) -> int, s: seq<T>, x: T, index: int) {
    && 0 <= index <= |s|
    && InsertionPoint(c, s, x, index)
    && (index < |s| && c(s[index], x) == 0 <==> Occurs(c, s, x))
  }

  /** What a binary search knows of an ordered sequence: x can only be between lo and hi. */
  ghost predicate Bracket<T(!new)>(c: (T, T) -> int, s: seq<T>, x: T, lo: int, hi: int) {
    && 0 <= lo <= hi <= |s|
    && (Ordered(c, s) ==> (forall k | 0 <= k < lo :: c(s[k], x) < 0) && (forall k | hi <= k < |s| :: c(s[k], x) > 0))
  }

  lemma BracketNarrows<T(!new)>(c: (T, T) -> int, s: seq<T>, x: T, lo: int, hi: int, mid: int)
    requires Bracket(c, s, x, lo, hi) && lo <= mid < hi
    ensures Ordered(c, s) ==>
              && (c(s[mid], x) < 0 ==> Bracket(c, s, x, mid + 1, hi))
              && (c(s[mid], x) > 0 ==> Bracket(c, s, x, lo, mid))
              && (c(s[mid], x) == 0 ==> Located(c, s, x, mid) && Occurs(c, s, x))
  {
    if Ordered(c, s) {
      if c(s[mid], x) < 0 {
        AllBelow(c, s, x, mid);
      } else if c(s[mid], x) > 0 {
        AllAbove(c, s, x, mid);
      } else {
        SplitAtEqual(c, s, x, mid);
      }
    }
  }

  lemma BracketCloses<T(!new)>(c: (T, T) -> int, s: seq<T>, x: T, index: int)
    requires Bracket(c, s, x, index, index)
    ensures Ordered(c, s) ==> Located(c, s, x, index) && !Occurs(c, s, x)
  {
    if Ordered(c, s) {
      SplitAtGap(c, s, x, index);
    }
  }

  lemma Flipped<T(!new)>(c: (T, T) -> int, x: T, y: T)
    requires TotalPreorder(c)
    ensures (c(x, y) < 0 <==> c(y, x) > 0) && (c(x, y) == 0 <==> c(y, x) == 0)
  {
    assert (c(x, y) < 0 <==> c(y, x) > 0) && (c(y, x) < 0 <==> c(x, y) > 0);
  }

  lemma {:induction false} DifferenceWithSelf<T>(c: (T, T) -> int, s: seq<T>)
    requires SelfEqual(c, s)
    ensures Difference(c, s, s) == []
  {
    if s != [] {
      DifferenceWithSelf(c, s[1..]);
    }
  }

  /** What one comparison of setdiff does to the difference of the rests. */
  lemma WalkStep<T>(c: (T, T) -> int, l: seq<T>, r: seq<T>, li: nat, ri: nat, kept: seq<T>)
    requires li < |l| && ri < |r|
    ensures var rest, order := kept + Difference(c, l[li..], r[ri..]), c(l[li], r[ri]);
            && (order < 0 ==> kept + [l[li]] + Difference(c, l[li + 1..], r[ri..]) == rest)
            && (order == 0 ==> kept + Difference(c, l[li + 1..], r[ri + 1..]) == rest)
            && (order > 0 ==> kept + Difference(c, l[li..], r[ri + 1..]) == rest)
  {
    assert l[li..][1..] == l[li + 1..] && r[ri..][1..] == r[ri + 1..];
    assert kept + ([l[li]] + Difference(c, l[li + 1..], r[ri..])) == kept + [l[li]] + Difference(c, l[li + 1..], r[ri..]);
  }
}
