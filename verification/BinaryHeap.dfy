/** The keyed priority queue of src/libs/zbxalgo/binaryheap.c, with its direct access by key. */
module BinaryHeap {
  import opened Options
  import opened Orders
  import opened HeapLaws

  datatype Elem<D> = Elem(key: nat, data: D)

  // ----- The key index -----

  /** The index and the array of elements are inverse to each other; in particular the keys are distinct. */
  ghost predicate Indexed<D>(s: seq<Elem<D>>, m: map<nat, int>) {
    && (forall i | 0 <= i < |s| :: s[i].key in m && m[s[i].key] == i)
    && (forall k | k in m :: 0 <= m[k] < |s| && s[m[k]].key == k)
  }

  /** The same, except that the index may be stale or silent about the element at position k. */
  ghost predicate IndexedExcept<D>(s: seq<Elem<D>>, m: map<nat, int>, k: int) {
    && 0 <= k < |s|
    && (forall i | 0 <= i < |s| && i != k :: s[i].key != s[k].key && s[i].key in m && m[s[i].key] == i)
    && (forall key | key in m && key != s[k].key :: 0 <= m[key] < |s| && s[m[key]].key == key)
  }

  lemma SettingCompletesIndex<D>(s: seq<Elem<D>>, m: map<nat, int>, k: int)
    requires IndexedExcept(s, m, k)
    ensures Indexed(s, m[s[k].key := k])
  {
  }

  function Reindexed<D>(s: seq<Elem<D>>, m: map<nat, int>, i: nat, j: nat): (r: map<nat, int>)
    requires i < |s| && j < |s|
  {
    m[s[i].key := i][s[j].key := j]
  }

  lemma SwapCompletesIndex<D>(s: seq<Elem<D>>, m: map<nat, int>, j: nat, k: nat)
    requires IndexedExcept(s, m, k) && j < |s| && j != k
    ensures Indexed(Swapped(s, j, k), Reindexed(Swapped(s, j, k), m, j, k))
    ensures Indexed(Swapped(s, k, j), Reindexed(Swapped(s, k, j), m, k, j))
  {
    assert Swapped(s, k, j) == Swapped(s, j, k);
    assert Reindexed(Swapped(s, j, k), m, k, j) == Reindexed(Swapped(s, j, k), m, j, k);
  }

  lemma IndexedIsIndexedExcept<D>(s: seq<Elem<D>>, m: map<nat, int>, k: int)
    requires Indexed(s, m) && 0 <= k < |s|
    ensures IndexedExcept(s, m, k)
  {
  }

  lemma AppendingStalesIndex<D>(s: seq<Elem<D>>, m: map<nat, int>, e: Elem<D>)
    requires Indexed(s, m) && e.key !in m
    ensures IndexedExcept(s + [e], m, |s|)
  {
  }

  /** The array after the element at k was overwritten by the last one and the array was shortened. */
  function Filled<T>(s: seq<T>, k: nat): (r: seq<T>)
    requires k < |s|
    ensures |r| == |s| - 1
  {
    var n := |s| - 1;
    if k == n then s[..n] else s[..n][k := s[n]]
  }

  lemma FillingStalesIndex<D>(s: seq<Elem<D>>, m: map<nat, int>, k: nat)
    requires Indexed(s, m) && k < |s|
    ensures k == |s| - 1 ==> Indexed(Filled(s, k), m - {s[k].key})
    ensures k != |s| - 1 ==> IndexedExcept(Filled(s, k), m - {s[k].key}, k)
  {
  }

  lemma FillingKeepsOrder<T(!new)>(c: (T, T) -> int, s: seq<T>, k: nat)
    requires TotalPreorder(c) && HeapOrdered(c, s) && k < |s|
    ensures k == |s| - 1 ==> HeapOrdered(c, Filled(s, k))
    ensures k != |s| - 1 ==> HoleAt(c, Filled(s, k), k)
  {
    ShrinkingKeepsOrder(c, s);
    if k != |s| - 1 {
      ReplacingMakesHole(c, s[..|s| - 1], k, s[|s| - 1]);
    }
  }

  lemma FilledMultiset<T>(s: seq<T>, k: nat)
    requires k < |s|
    ensures multiset(Filled(s, k)) == multiset(s) - multiset{s[k]}
  {
    var n := |s| - 1;
    assert s == s[..n] + [s[n]];
  }

  class Heap<D(!new)> {
    const compare: (Elem<D>, Elem<D>) -> int
    const direct: bool
    var elems: seq<Elem<D>>
    var index: map<nat, int>

    ghost predicate Valid()
      reads this
    {
      && TotalPreorder(compare)
      && HeapOrdered(compare, elems)
      && (direct ==> Indexed(elems, index))
    }

    constructor (compare: (Elem<D>, Elem<D>) -> int, direct: bool)
      requires TotalPreorder(compare)
      ensures Valid() && elems == [] && this.compare == compare && this.direct == direct
    {
      this.compare, this.direct := compare, direct;
      elems, index := [], map[];
    }

    method Swap(i: nat, j: nat)
      requires i < |elems| && j < |elems|
      modifies this
      ensures elems == Swapped(old(elems), i, j)
      ensures index == if direct then Reindexed(elems, old(index), i, j) else old(index)
    {
      elems := elems[i := elems[j]][j := elems[i]];
      if direct {
        index := index[elems[i].key := i][elems[j].key := j];
      }
    }

    /** Exchanges the element at k with its parent, which is larger. */
    method SwapUp(k: nat) returns (p: nat)
      requires TotalPreorder(compare) && 0 < k < |elems| && HoleAt(compare, elems, k)
      requires compare(elems[Parent(k)], elems[k]) > 0
      requires direct ==> IndexedExcept(elems, index, k)
      modifies this
      ensures p < k && |elems| == |old(elems)| && multiset(elems) == multiset(old(elems))
      ensures HoleAt(compare, elems, p) && ChildrenOrdered(compare, elems, p)
      ensures direct ==> Indexed(elems, index) && IndexedExcept(elems, index, p)
    {
      BubbleUpStep(compare, elems, k);
      SwappedIsPermutation(elems, Parent(k), k);
      if direct {
        SwapCompletesIndex(elems, index, Parent(k), k);
      }
      p := (k - 1) / 2;
      Swap(p, k);
      if direct {
        IndexedIsIndexedExcept(elems, index, p);
      }
    }

    /** Moves the element at start up while it is smaller than its parent. */
    method BubbleUp(start: nat) returns (k: nat)
      requires TotalPreorder(compare) && start < |elems| && HoleAt(compare, elems, start)
      requires direct ==> IndexedExcept(elems, index, start)
      modifies this
      ensures k <= start < |elems| == |old(elems)| && multiset(elems) == multiset(old(elems))
      ensures k == start ==> elems == old(elems) && index == old(index) && Ordered(compare, elems, k)
      ensures k != start ==> HeapOrdered(compare, elems) && (direct ==> Indexed(elems, index))
    {
      k := start;
      while 0 != k
        invariant k <= start < |elems| == |old(elems)| && multiset(elems) == multiset(old(elems))
        invariant HoleAt(compare, elems, k)
        invariant k == start ==> elems == old(elems) && index == old(index)
        invariant k != start ==> ChildrenOrdered(compare, elems, k) && (direct ==> Indexed(elems, index))
        invariant direct ==> IndexedExcept(elems, index, k)
      {
        if compare(elems[(k - 1) / 2], elems[k]) <= 0 {
          break;
        }
        k := SwapUp(k);
      }
      if k != start {
        HoleIsFilled(compare, elems, k);
      }
    }

    /** Moves the element at start down while it is larger than its smaller child. */
    method BubbleDown(start: nat) returns (k: nat)
      requires TotalPreorder(compare) && start < |elems| && HoleAt(compare, elems, start)
      requires Ordered(compare, elems, start)
      requires direct ==> IndexedExcept(elems, index, start)
      modifies this
      ensures start <= k < |elems| == |old(elems)| && multiset(elems) == multiset(old(elems))
      ensures HeapOrdered(compare, elems)
      ensures k == start ==> elems == old(elems) && index == old(index)
      ensures k != start ==> direct ==> Indexed(elems, index)
    {
      k := start;
      while true
        invariant start <= k < |elems| == |old(elems)| && multiset(elems) == multiset(old(elems))
        invariant HoleAt(compare, elems, k) && Ordered(compare, elems, k)
        invariant k == start ==> elems == old(elems) && index == old(index)
        invariant k != start ==> direct ==> Indexed(elems, index)
        invariant direct ==> IndexedExcept(elems, index, k)
        decreases |elems| - k
      {
        if 2 * k + 1 >= |elems| {
          break;
        }
        var child := SmallerChild(compare, elems, k);
        if compare(elems[k], elems[child]) <= 0 {
          break;
        }
        SmallerChildIsLeast(compare, elems, k);
        BubbleDownStep(compare, elems, k, child);
        SwappedIsPermutation(elems, k, child);
        if direct {
          SwapCompletesIndex(elems, index, child, k);
        }
        Swap(k, child);
        k := child;
        if direct {
          IndexedIsIndexedExcept(elems, index, k);
        }
      }
      SettledAboveChildren(compare, elems, k);
      HoleIsFilled(compare, elems, k);
    }

    method FindMin() returns (r: Option<Elem<D>>)
      requires Valid()
      ensures r.None? <==> elems == []
      ensures r.Some? ==> r.value == elems[0] && forall e | e in elems :: compare(r.value, e) <= 0
    {
      if elems == [] {
        return None;
      }
      forall i | 0 <= i < |elems| ensures compare(elems[0], elems[i]) <= 0 {
        RootIsLeast(compare, elems, i);
      }
      return Some(elems[0]);
    }

    // A false result of the operations below stands for the process exit on misuse.

    method Insert(e: Elem<D>) returns (ok: bool)
      requires Valid()
      modifies this
      ensures Valid()
      ensures ok <==> !(direct && e.key in old(index))
      ensures ok ==> multiset(elems) == multiset(old(elems)) + multiset{e}
      ensures !ok ==> elems == old(elems)
    {
      if direct && e.key in index {
        return false;
      }
      AppendingMakesHole(compare, elems, e);
      if direct {
        AppendingStalesIndex(elems, index, e);
      }
      elems := elems + [e];
      var k := BubbleUp(|elems| - 1);
      if k == |elems| - 1 {
        HoleIsFilled(compare, elems, k);
      }
      if direct && k == |elems| - 1 {
        SettingCompletesIndex(elems, index, k);
        index := index[e.key := k];
      }
      return true;
    }

    /** Puts the element at k, or whatever replaced it, back into heap order. */
    method Settle(k: nat) returns (moved: bool)
      requires TotalPreorder(compare) && k < |elems| && HoleAt(compare, elems, k)
      requires direct ==> IndexedExcept(elems, index, k)
      modifies this
      ensures |elems| == |old(elems)| && multiset(elems) == multiset(old(elems))
      ensures HeapOrdered(compare, elems)
      ensures moved ==> direct ==> Indexed(elems, index)
      ensures !moved ==> elems == old(elems) && index == old(index)
    {
      var up := BubbleUp(k);
      if up != k {
        return true;
      }
      var down := BubbleDown(k);
      moved := down != k;
    }

    method UpdateDirect(e: Elem<D>) returns (ok: bool)
      requires Valid()
      modifies this
      ensures Valid()
      ensures ok <==> direct && e.key in old(index)
      ensures ok ==> var was := old(elems[index[e.key]]);
                     was.key == e.key && multiset(elems) == multiset(old(elems)) - multiset{was} + multiset{e}
      ensures !ok ==> elems == old(elems)
    {
      if !direct || e.key !in index {
        return false;
      }
      var k := index[e.key];
      ReplacingMakesHole(compare, elems, k, e);
      elems := elems[k := e];
      assert Indexed(elems, index);
      IndexedIsIndexedExcept(elems, index, k);
      var _ := Settle(k);
      return true;
    }

    /** Takes the element at k out: the last element fills the gap and finds its place from there. */
    method RemoveAt(k: nat)
      requires Valid() && k < |elems|
      modifies this
      ensures Valid()
      ensures multiset(elems) == multiset(old(elems)) - multiset{old(elems[k])}
    {
      var n := |elems| - 1;
      FilledMultiset(elems, k);
      FillingKeepsOrder(compare, elems, k);
      if direct {
        FillingStalesIndex(elems, index, k);
        index := index - {elems[k].key};
      }
      elems := Filled(elems, k);
      if k != n {
        var moved := Settle(k);
        if direct && !moved {
          SettingCompletesIndex(elems, index, k);
          index := index[elems[k].key := k];
        }
      }
    }

    method RemoveMin() returns (ok: bool)
      requires Valid()
      modifies this
      ensures Valid()
      ensures ok <==> old(elems) != []
      ensures ok ==> multiset(elems) == multiset(old(elems)) - multiset{old(elems)[0]}
      ensures !ok ==> elems == old(elems)
    {
      ok := elems != [];
      if ok {
        RemoveAt(0);
      }
    }

    method RemoveDirect(key: nat) returns (ok: bool)
      requires Valid()
      modifies this
      ensures Valid()
      ensures ok <==> direct && key in old(index)
      ensures ok ==> var was := old(elems[index[key]]);
                     was.key == key && multiset(elems) == multiset(old(elems)) - multiset{was}
      ensures !ok ==> elems == old(elems)
    {
      ok := direct && key in index;
      if ok {
        RemoveAt(index[key]);
      }
    }

    method Clear()
      requires Valid()
      modifies this
      ensures Valid() && elems == []
    {
      elems := [];
      if direct {
        index := map[];
      }
    }

    /** Taking the minimum until the heap is empty yields its elements in ascending order. */
    method Drain() returns (out: seq<Elem<D>>)
      requires Valid()
      modifies this
      ensures Valid() && elems == []
      ensures Sorted(compare, out) && multiset(out) == multiset(old(elems))
    {
      out := [];
      while elems != []
        invariant Valid() && Draining(compare, out, elems)
        invariant multiset(out) + multiset(elems) == multiset(old(elems))
        decreases |elems|
      {
        var least := FindMin();
        ghost var before := elems;
        out := out + [elems[0]];
        var _ := RemoveMin();
        DrainStep(compare, out[..|out| - 1], before, elems);
      }
    }
  }

  /** What has been taken out is sorted and not above what is left. */
  ghost predicate Draining<T>(c: (T, T) -> int, out: seq<T>, left: seq<T>) {
    && Sorted(c, out)
    && forall x, e | x in out && e in left :: c(x, e) <= 0
  }

  lemma DrainStep<T>(c: (T, T) -> int, out: seq<T>, before: seq<T>, after: seq<T>)
    requires before != [] && Draining(c, out, before) && forall e | e in before :: c(before[0], e) <= 0
    requires multiset(after) == multiset(before) - multiset{before[0]}
    ensures Draining(c, out + [before[0]], after)
    ensures |after| < |before|
    ensures multiset(out + [before[0]]) + multiset(after) == multiset(out) + multiset(before)
  {
    RemainingElements(before, after, before[0]);
    AppendKeepsSorted(c, out, before[0]);
  }

  lemma RemainingElements<T>(before: seq<T>, after: seq<T>, x: T)
    requires x in before && multiset(after) == multiset(before) - multiset{x}
    ensures |after| == |before| - 1 && multiset(before) == multiset(after) + multiset{x}
    ensures forall e | e in after :: e in before
  {
    assert |multiset(before)| == |before| && |multiset(after)| == |after|;
    forall e | e in after ensures e in before {
      assert e in multiset(after);
    }
  }
}
