/** The order that the binary heap of src/libs/zbxalgo/binaryheap.c keeps among its elements, on sequences. */
module HeapLaws {
  import opened Orders

  function Parent(i: nat): (p: nat)
    requires i > 0
    ensures p < i && (i == 2 * p + 1 || i == 2 * p + 2)
  {
    (i - 1) / 2
  }

  function Swapped<T>(s: seq<T>, i: nat, j: nat): (r: seq<T>)
    requires i < |s| && j < |s|
    ensures |r| == |s|
  {
    s[i := s[j]][j := s[i]]
  }

  lemma SwappedIsPermutation<T>(s: seq<T>, i: nat, j: nat)
    requires i < |s| && j < |s|
    ensures multiset(Swapped(s, i, j)) == multiset(s)
  {
  }

  /** Position i is not above its parent. */
  ghost predicate Ordered<T>(c: (T, T) -> int, s: seq<T>, i: nat)
    requires i < |s|
  {
    i == 0 || c(s[Parent(i)], s[i]) <= 0
  }

  ghost predicate HeapOrdered<T>(c: (T, T) -> int, s: seq<T>) {
    forall i | 0 <= i < |s| :: Ordered(c, s, i)
  }

  ghost predicate ChildrenOrdered<T>(c: (T, T) -> int, s: seq<T>, k: nat) {
    forall i | 0 < i < |s| && Parent(i) == k :: Ordered(c, s, i)
  }

  /**
   A heap in which only the element at k may be out of place: the links to it are unconstrained, but its
   children still fit under its parent.
   */
  ghost predicate HoleAt<T>(c: (T, T) -> int, s: seq<T>, k: nat)
    requires k < |s|
  {
    && (forall i | 0 < i < |s| && i != k && Parent(i) != k :: Ordered(c, s, i))
    && (0 < k ==> forall i {:trigger Parent(i)} | 0 < i < |s| && Parent(i) == k :: c(s[Parent(k)], s[i]) <= 0)
  }

  lemma ReplacingMakesHole<T(!new)>(c: (T, T) -> int, s: seq<T>, k: nat, x: T)
    requires TotalPreorder(c) && HeapOrdered(c, s) && k < |s|
    ensures HoleAt(c, s[k := x], k)
  {
    var t := s[k := x];
    forall i | 0 < i < |s| && i != k && Parent(i) != k ensures Ordered(c, t, i) {
      assert Ordered(c, s, i);
    }
    if 0 < k {
      forall i | 0 < i < |s| && Parent(i) == k ensures c(t[Parent(k)], t[i]) <= 0 {
        assert Ordered(c, s, i) && Ordered(c, s, k);
        Transitive(c, s[Parent(k)], s[k], s[i]);
      }
    }
  }

  lemma ShrinkingKeepsOrder<T>(c: (T, T) -> int, s: seq<T>)
    requires HeapOrdered(c, s) && s != []
    ensures HeapOrdered(c, s[..|s| - 1])
  {
    var t := s[..|s| - 1];
    forall i | 0 <= i < |t| ensures Ordered(c, t, i) {
      assert Ordered(c, s, i);
    }
  }

  lemma AppendingMakesHole<T>(c: (T, T) -> int, s: seq<T>, x: T)
    requires HeapOrdered(c, s)
    ensures HoleAt(c, s + [x], |s|) && ChildrenOrdered(c, s + [x], |s|)
  {
    forall i | 0 < i < |s| ensures Ordered(c, s + [x], i) {
      assert Ordered(c, s, i);
    }
  }

  lemma HoleIsFilled<T>(c: (T, T) -> int, s: seq<T>, k: nat)
    requires k < |s| && HoleAt(c, s, k) && Ordered(c, s, k) && ChildrenOrdered(c, s, k)
    ensures HeapOrdered(c, s)
  {
    forall i | 0 <= i < |s| ensures Ordered(c, s, i) {
      if i != 0 && i != k && Parent(i) != k {
      }
    }
  }

  /** Swapping a too small element with its parent moves the hole up and mends everything below. */
  lemma BubbleUpStep<T(!new)>(c: (T, T) -> int, s: seq<T>, k: nat)
    requires TotalPreorder(c) && 0 < k < |s| && HoleAt(c, s, k) && c(s[Parent(k)], s[k]) > 0
    ensures HoleAt(c, Swapped(s, Parent(k), k), Parent(k))
    ensures ChildrenOrdered(c, Swapped(s, Parent(k), k), Parent(k))
  {
    var q, t := Parent(k), Swapped(s, Parent(k), k);
    assert c(s[k], s[q]) < 0;
    forall i | 0 < i < |s| && i != q && Parent(i) != q ensures Ordered(c, t, i) {
      assert Parent(i) != k ==> Ordered(c, s, i);
    }
    forall i | 0 < i < |s| && Parent(i) == q ensures Ordered(c, t, i) {
      if i != k {
        assert Ordered(c, s, i);
        Transitive(c, s[k], s[q], s[i]);
      }
    }
    if 0 < q {
      assert Ordered(c, s, q);
      forall i | 0 < i < |s| && Parent(i) == q ensures c(t[Parent(q)], t[i]) <= 0 {
        if i != k {
          assert Ordered(c, s, i);
          Transitive(c, s[Parent(q)], s[q], s[i]);
        }
      }
    }
  }

  /** Swapping a too large element with its smaller child moves the hole down and keeps everything above. */
  lemma BubbleDownStep<T(!new)>(c: (T, T) -> int, s: seq<T>, k: nat, j: nat)
    requires TotalPreorder(c) && 0 < j < |s| && Parent(j) == k && HoleAt(c, s, k) && Ordered(c, s, k)
    requires c(s[k], s[j]) > 0
    requires forall i {:trigger s[i]} | 0 < i < |s| && Parent(i) == k :: c(s[j], s[i]) <= 0
    ensures HoleAt(c, Swapped(s, k, j), j) && Ordered(c, Swapped(s, k, j), j)
  {
    var t := Swapped(s, k, j);
    assert c(s[j], s[k]) < 0;
    forall i | 0 < i < |s| && i != j && Parent(i) != j ensures Ordered(c, t, i) {
      if i != k && Parent(i) != k {
        assert Ordered(c, s, i);
      }
    }
    forall i | 0 < i < |s| && Parent(i) == j ensures c(t[Parent(j)], t[i]) <= 0 {
      assert Ordered(c, s, i);
    }
  }

  /** The child that bubbling down compares with: the left one unless the right one exists and is smaller. */
  function SmallerChild<T>(c: (T, T) -> int, s: seq<T>, k: nat): (j: nat)
    requires 2 * k + 1 < |s|
    ensures 0 < j < |s| && Parent(j) == k
  {
    if 2 * k + 2 < |s| && c(s[2 * k + 1], s[2 * k + 2]) > 0 then 2 * k + 2 else 2 * k + 1
  }

  lemma SmallerChildIsLeast<T(!new)>(c: (T, T) -> int, s: seq<T>, k: nat)
    requires TotalPreorder(c) && 2 * k + 1 < |s|
    ensures forall i {:trigger s[i]} | 0 < i < |s| && Parent(i) == k :: c(s[SmallerChild(c, s, k)], s[i]) <= 0
  {
    var j := SmallerChild(c, s, k);
    assert c(s[j], s[j]) < 0 <==> c(s[j], s[j]) > 0;
  }

  lemma SettledAboveChildren<T(!new)>(c: (T, T) -> int, s: seq<T>, k: nat)
    requires TotalPreorder(c) && k < |s|
    requires 2 * k + 1 < |s| ==> c(s[k], s[SmallerChild(c, s, k)]) <= 0
    ensures ChildrenOrdered(c, s, k)
  {
    forall i | 0 < i < |s| && Parent(i) == k ensures Ordered(c, s, i) {
      SmallerChildIsLeast(c, s, k);
      Transitive(c, s[k], s[SmallerChild(c, s, k)], s[i]);
    }
  }

  /** The root of a heap is a least element. */
  lemma {:induction false} RootIsLeast<T(!new)>(c: (T, T) -> int, s: seq<T>, i: nat)
    requires TotalPreorder(c) && HeapOrdered(c, s) && i < |s|
    ensures c(s[0], s[i]) <= 0
  {
    if i == 0 {
      assert c(s[0], s[0]) < 0 <==> c(s[0], s[0]) > 0;
    } else {
      RootIsLeast(c, s, Parent(i));
      assert Ordered(c, s, i);
      Transitive(c, s[0], s[Parent(i)], s[i]);
    }
  }
}
