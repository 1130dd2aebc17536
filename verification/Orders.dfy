/** Comparators in the style of `zbx_compare_func_t`, the orders they induce, and sorting. */
module Orders {

  /** The laws a comparator must obey before `qsort` and `bsearch` mean anything. */
  ghost predicate TotalPreorder<T(!new)>(c: (T, T) -> int) {
    && (forall x, y :: c(x, y) < 0 <==> c(y, x) > 0)
    && (forall x, y, z {:trigger Via(c, x, y, z)} :: c(x, y) <= 0 && c(y, z) <= 0 && Via(c, x, y, z) ==> c(x, z) <= 0)
  }

  /** Always true: mentioning it is how a proof names the step of transitivity it takes. */
  ghost predicate Via<T>(c: (T, T) -> int, x: T, y: T, z: T) {
    true
  }

  lemma Transitive<T(!new)>(c: (T, T) -> int, x: T, y: T, z: T)
    requires TotalPreorder(c) && c(x, y) <= 0 && c(y, z) <= 0
    ensures c(x, z) <= 0
    ensures c(x, y) < 0 || c(y, z) < 0 ==> c(x, z) < 0
  {
    assert Via(c, x, y, z) && Via(c, y, z, x) && Via(c, z, x, y);
    assert c(x, z) == 0 ==> c(z, x) == 0 by {
      assert !(c(z, x) < 0) <== c(x, z) == 0;
    }
  }

  /** A preorder in which only identical values compare equal, such as the uint64 comparator. */
  ghost predicate TotalOrder<T(!new)>(c: (T, T) -> int) {
    && TotalPreorder(c)
    && (forall x, y :: c(x, y) == 0 ==> x == y)
  }

  /** "Compares equal" is an equivalence relation; it need not come from an order. */
  ghost predicate Equivalence<T(!new)>(c: (T, T) -> int) {
    && (forall x :: c(x, x) == 0)
    && (forall x, y :: c(x, y) == 0 ==> c(y, x) == 0)
    && (forall x, y, z :: c(x, y) == 0 && c(y, z) == 0 ==> c(x, z) == 0)
  }

  ghost predicate Sorted<T>(c: (T, T) -> int, s: seq<T>) {
    forall i, j | 0 <= i < j < |s| :: c(s[i], s[j]) <= 0
  }

  ghost predicate StrictlySorted<T>(c: (T, T) -> int, s: seq<T>) {
    forall i, j | 0 <= i < j < |s| :: c(s[i], s[j]) < 0
  }

  /** Among the elements of s, only identical ones compare equal: no two share a sort key. */
  ghost predicate Separates<T>(c: (T, T) -> int, s: seq<T>) {
    forall x, y | x in s && y in s :: c(x, y) == 0 ==> x == y
  }

  ghost function Elements<T>(s: seq<T>): set<T> {
    set x | x in s
  }

  lemma PreorderIsEquivalence<T(!new)>(c: (T, T) -> int)
    requires TotalPreorder(c)
    ensures Equivalence(c)
  {
    forall x, y | c(x, y) == 0 ensures c(y, x) == 0 {
      assert c(x, y) < 0 <==> c(y, x) > 0;
      assert c(y, x) < 0 <==> c(x, y) > 0;
    }
    forall x, y, z | c(x, y) == 0 && c(y, z) == 0 ensures c(x, z) == 0 {
      Transitive(c, x, y, z);
      Transitive(c, z, y, x);
    }
  }

  // ----- Stable insertion sort: the stand-in for qsort and for PHP's sorting functions -----

  /** Inserts x after every element that compares less than or equal to it. */
  function Insert<T>(c: (T, T) -> int, s: seq<T>, x: T): (r: seq<T>) {
    if s == [] || c(s[|s| - 1], x) <= 0 then s + [x]
    else Insert(c, s[..|s| - 1], x) + [s[|s| - 1]]
  }

  function Sort<T>(c: (T, T) -> int, s: seq<T>): (r: seq<T>) {
    if s == [] then [] else Insert(c, Sort(c, s[..|s| - 1]), s[|s| - 1])
  }

  lemma {:induction false} InsertIsPermutation<T>(c: (T, T) -> int, s: seq<T>, x: T)
    ensures multiset(Insert(c, s, x)) == multiset(s) + multiset{x}
  {
    if s == [] || c(s[|s| - 1], x) <= 0 {
    } else {
      InsertIsPermutation(c, s[..|s| - 1], x);
      assert s == s[..|s| - 1] + [s[|s| - 1]];
    }
  }

  lemma AppendKeepsSorted<T>(c: (T, T) -> int, s: seq<T>, x: T)
    requires Sorted(c, s) && forall y | y in s :: c(y, x) <= 0
    ensures Sorted(c, s + [x])
  {
  }

  lemma LastIsGreatest<T(!new)>(c: (T, T) -> int, s: seq<T>, x: T, y: T)
    requires TotalPreorder(c) && Sorted(c, s) && y in s && c(s[|s| - 1], x) <= 0
    ensures c(y, x) <= 0
  {
    var i :| 0 <= i < |s| && s[i] == y;
    if i < |s| - 1 {
      Transitive(c, s[i], s[|s| - 1], x);
    }
  }

  lemma {:induction false} InsertKeepsSorted<T(!new)>(c: (T, T) -> int, s: seq<T>, x: T)
    requires TotalPreorder(c) && Sorted(c, s)
    ensures Sorted(c, Insert(c, s, x))
  {
    if s == [] || c(s[|s| - 1], x) <= 0 {
      forall y | y in s ensures c(y, x) <= 0 {
        LastIsGreatest(c, s, x, y);
      }
      AppendKeepsSorted(c, s, x);
    } else {
      var init, last := s[..|s| - 1], s[|s| - 1];
      InsertKeepsSorted(c, init, x);
      InsertIsPermutation(c, init, x);
      forall y | y in Insert(c, init, x) ensures c(y, last) <= 0 {
        assert y in multiset(Insert(c, init, x));
        assert c(x, last) < 0 <==> c(last, x) > 0;
      }
      AppendKeepsSorted(c, Insert(c, init, x), last);
    }
  }

  lemma {:induction false} SortIsPermutation<T>(c: (T, T) -> int, s: seq<T>)
    ensures multiset(Sort(c, s)) == multiset(s)
  {
    if s != [] {
      SortIsPermutation(c, s[..|s| - 1]);
      InsertIsPermutation(c, Sort(c, s[..|s| - 1]), s[|s| - 1]);
      assert s == s[..|s| - 1] + [s[|s| - 1]];
    }
  }

  lemma {:induction false} SortSorts<T(!new)>(c: (T, T) -> int, s: seq<T>)
    requires TotalPreorder(c)
    ensures Sorted(c, Sort(c, s))
  {
    if s != [] {
      SortSorts(c, s[..|s| - 1]);
      InsertKeepsSorted(c, Sort(c, s[..|s| - 1]), s[|s| - 1]);
    }
  }

  lemma SameMultisetSameElements<T>(s: seq<T>, t: seq<T>)
    requires multiset(s) == multiset(t)
    ensures Elements(s) == Elements(t) && |s| == |t|
  {
    forall x ensures x in s <==> x in t {
      assert x in s <==> x in multiset(s);
      assert x in t <==> x in multiset(t);
    }
    assert |multiset(s)| == |s| && |multiset(t)| == |t|;
  }

  lemma TailMultiset<T>(s: seq<T>)
    requires s != []
    ensures multiset(s[1..]) == multiset(s) - multiset{s[0]}
  {
    assert s == [s[0]] + s[1..];
  }

  lemma EmptyElements<T>(s: seq<T>)
    ensures Elements(s) == {} <==> s == []
  {
    if s != [] {
      assert s[0] in Elements(s);
    }
  }

  lemma TailIsSorted<T>(c: (T, T) -> int, s: seq<T>)
    requires Sorted(c, s) && s != []
    ensures Sorted(c, s[1..])
  {
  }

  lemma HeadIsLeast<T(!new)>(c: (T, T) -> int, s: seq<T>, x: T)
    requires TotalPreorder(c) && Sorted(c, s) && x in s
    ensures c(s[0], x) <= 0
  {
    var i :| 0 <= i < |s| && s[i] == x;
    assert c(s[0], s[0]) < 0 <==> c(s[0], s[0]) > 0;
  }

  lemma HeadsAgree<T(!new)>(c: (T, T) -> int, s: seq<T>, t: seq<T>)
    requires TotalPreorder(c) && Separates(c, s) && Sorted(c, s) && Sorted(c, t)
    requires s != [] && t != [] && s[0] in t && t[0] in s
    ensures s[0] == t[0]
  {
    HeadIsLeast(c, s, t[0]);
    HeadIsLeast(c, t, s[0]);
    assert c(s[0], t[0]) < 0 <==> c(t[0], s[0]) > 0;
  }

  /** Elements with distinct sort keys have only one sorted arrangement. */
  lemma {:induction false} SortedArrangementIsUnique<T(!new)>(c: (T, T) -> int, s: seq<T>, t: seq<T>)
    requires TotalPreorder(c) && Separates(c, s) && Sorted(c, s) && Sorted(c, t)
    requires multiset(s) == multiset(t)
    ensures s == t
  {
    SameMultisetSameElements(s, t);
    if s != [] {
      assert s[0] in Elements(s) && t[0] in Elements(t);
      HeadsAgree(c, s, t);
      TailMultiset(s);
      TailMultiset(t);
      TailIsSorted(c, s);
      TailIsSorted(c, t);
      SortedArrangementIsUnique(c, s[1..], t[1..]);
    }
  }

  /** A strictly sorted sequence has no second copy of its head. */
  lemma TailElements<T(!new)>(c: (T, T) -> int, s: seq<T>)
    requires TotalOrder(c) && StrictlySorted(c, s) && s != []
    ensures Elements(s[1..]) == Elements(s) - {s[0]}
  {
    assert c(s[0], s[0]) < 0 <==> c(s[0], s[0]) > 0;
    assert s == [s[0]] + s[1..];
  }

  /** Under a total order a set has only one strictly sorted arrangement. */
  lemma {:induction false} StrictArrangementIsUnique<T(!new)>(c: (T, T) -> int, s: seq<T>, t: seq<T>)
    requires TotalOrder(c) && StrictlySorted(c, s) && StrictlySorted(c, t)
    requires Elements(s) == Elements(t)
    ensures s == t
  {
    if s == [] || t == [] {
      EmptyElements(s);
      EmptyElements(t);
    } else {
      assert s[0] in Elements(s) && t[0] in Elements(t);
      HeadsAgree(c, s, t);
      TailElements(c, s);
      TailElements(c, t);
      StrictArrangementIsUnique(c, s[1..], t[1..]);
    }
  }

  // ----- Comparators the vectors are used with -----

  function CompareNumbers(x: int, y: int): (r: int)
    ensures r < 0 <==> x < y
    ensures r > 0 <==> x > y
  {
    if x < y then -1 else if x > y then 1 else 0
  }

  function ComparePairs(x: (int, int), y: (int, int)): (r: int) {
    if CompareNumbers(x.0, y.0) != 0 then CompareNumbers(x.0, y.0) else CompareNumbers(x.1, y.1)
  }

  /**
   The default comparators for numbers, addresses and pairs are total orders, so every law above applies to them:
   ascending, and for pairs the first components decide unless they are equal.
   */
  lemma NumberComparatorsAreTotalOrders()
    ensures TotalOrder(CompareNumbers) && TotalOrder(ComparePairs)
    ensures forall x: int, y: int :: CompareNumbers(x, y) < 0 <==> x < y
    ensures forall x: (int, int), y: (int, int) :: ComparePairs(x, y) < 0 <==> x.0 < y.0 || (x.0 == y.0 && x.1 < y.1)
  {
    forall x: (int, int), y: (int, int) | ComparePairs(x, y) == 0 ensures x == y {
      assert x.0 == y.0 && x.1 == y.1;
    }
  }

  /** strcmp, on the characters before the terminator: the first difference decides, and a prefix comes first. */
  function CompareStrings(x: seq<int>, y: seq<int>): (r: int) {
    if x == [] || y == [] then CompareNumbers(|x|, |y|)
    else if x[0] != y[0] then CompareNumbers(x[0], y[0])
    else CompareStrings(x[1..], y[1..])
  }

  lemma {:induction false} StringComparisonFlips(x: seq<int>, y: seq<int>)
    ensures CompareStrings(x, y) < 0 <==> CompareStrings(y, x) > 0
  {
    if x != [] && y != [] && x[0] == y[0] {
      StringComparisonFlips(x[1..], y[1..]);
    }
  }

  lemma {:induction false} StringComparisonSeparates(x: seq<int>, y: seq<int>)
    requires CompareStrings(x, y) == 0
    ensures x == y
  {
    if x != [] && y != [] {
      StringComparisonSeparates(x[1..], y[1..]);
      assert x == [x[0]] + x[1..] && y == [y[0]] + y[1..];
    }
  }

  lemma {:induction false} StringComparisonIsTransitive(x: seq<int>, y: seq<int>, z: seq<int>)
    requires CompareStrings(x, y) <= 0 && CompareStrings(y, z) <= 0
    ensures CompareStrings(x, z) <= 0
  {
    if x != [] && y != [] && z != [] && x[0] == y[0] == z[0] {
      StringComparisonIsTransitive(x[1..], y[1..], z[1..]);
    }
  }

  /** The strings agree up to k, and there x ends first or has the smaller character. */
  ghost predicate FirstDifference(x: seq<int>, y: seq<int>, k: nat) {
    && k <= |x| && k < |y| && x[..k] == y[..k]
    && (k == |x| || x[k] < y[k])
  }

  lemma AgreeBefore(x: seq<int>, y: seq<int>, k: nat)
    requires FirstDifference(x, y, k) && 0 < k
    ensures x != [] && x[0] == y[0]
  {
    assert x[..k][0] == x[0] && y[..k][0] == y[0];
  }

  /** The comparison is the lexicographic one. */
  lemma {:induction false} StringComparisonIsLexicographic(x: seq<int>, y: seq<int>)
    ensures CompareStrings(x, y) < 0 <==> exists k :: FirstDifference(x, y, k)
  {
    forall k: nat | FirstDifference(x, y, k) && 0 < k ensures x != [] && x[0] == y[0] {
      AgreeBefore(x, y, k);
    }
    if x == [] || y == [] || x[0] != y[0] {
      assert CompareStrings(x, y) < 0 ==> FirstDifference(x, y, 0);
    } else {
      StringComparisonIsLexicographic(x[1..], y[1..]);
      if k: nat :| FirstDifference(x[1..], y[1..], k) {
        DifferenceMovesOn(x, y, k);
      }
      if k: nat :| FirstDifference(x, y, k) {
        DifferenceMovesOn(x, y, k - 1);
      }
    }
  }

  lemma DifferenceMovesOn(x: seq<int>, y: seq<int>, k: nat)
    requires x != [] && y != [] && x[0] == y[0]
    ensures FirstDifference(x[1..], y[1..], k) <==> FirstDifference(x, y, k + 1)
  {
    if k + 1 <= |x| && k + 1 <= |y| {
      assert x[..k + 1] == [x[0]] + x[1..][..k] && y[..k + 1] == [y[0]] + y[1..][..k];
      assert x[1..][..k] == x[..k + 1][1..] && y[1..][..k] == y[..k + 1][1..];
    }
  }

  lemma StringComparatorIsTotalOrder()
    ensures TotalOrder(CompareStrings)
  {
    forall x, y ensures CompareStrings(x, y) < 0 <==> CompareStrings(y, x) > 0 {
      StringComparisonFlips(x, y);
    }
    forall x, y | CompareStrings(x, y) == 0 ensures x == y {
      StringComparisonSeparates(x, y);
    }
    forall x, y, z | CompareStrings(x, y) <= 0 && CompareStrings(y, z) <= 0 ensures CompareStrings(x, z) <= 0 {
      StringComparisonIsTransitive(x, y, z);
    }
  }

  /** The comparator for doubles, on real numbers: values at most epsilon apart compare equal. */
  function CompareDoubles(epsilon: real): (c: (real, real) -> int) {
    (x: real, y: real) => if -epsilon <= x - y <= epsilon then 0 else if x < y then -1 else 1
  }

  /** A tolerance other than zero breaks the laws of an order. */
  lemma DoubleComparatorIsOrderExactly(epsilon: real)
    ensures TotalPreorder(CompareDoubles(epsilon)) <==> epsilon == 0.0
    ensures epsilon >= 0.0 ==> forall x: real, y: real :: CompareDoubles(epsilon)(x, y) < 0 <==> x + epsilon < y
  {
    var c := CompareDoubles(epsilon);
    if TotalPreorder(c) {
      assert c(0.0, 0.0) < 0 <==> c(0.0, 0.0) > 0;
      if epsilon > 0.0 {
        assert c(epsilon, 0.0) == 0 && c(0.0, -epsilon) == 0 && c(epsilon, -epsilon) == 1;
        Transitive(c, epsilon, 0.0, -epsilon);
      }
    }
  }
}
