/** What the vector algorithms of include/zbxalgo.h compute, as functions on sequences, and the laws they obey. */
module VectorLaws {
  import opened Orders

  // ----- uniq -----

  /** The first element and every element that differs from its predecessor in the original sequence. */
  function Uniq<T>(c: (T, T) -> int, s: seq<T>): (r: seq<T>) {
    if |s| <= 1 then s
    else Uniq(c, s[..|s| - 1]) + if c(s[|s| - 2], s[|s| - 1]) != 0 then [s[|s| - 1]] else []
  }

  ghost predicate NoEqualNeighbours<T>(c: (T, T) -> int, s: seq<T>) {
    forall i | 0 <= i < |s| - 1 :: c(s[i], s[i + 1]) != 0
  }

  lemma {:induction false} UniqIsSubset<T>(c: (T, T) -> int, s: seq<T>, x: T)
    requires x in Uniq(c, s)
    ensures x in s
  {
    if |s| > 1 {
      if x in Uniq(c, s[..|s| - 1]) {
        UniqIsSubset(c, s[..|s| - 1], x);
      }
    }
  }

  /** s[i] is the first element or differs from the one before it. */
  ghost predicate StartsRun<T>(c: (T, T) -> int, s: seq<T>, i: int) {
    0 <= i < |s| && (i == 0 || c(s[i - 1], s[i]) != 0)
  }

  /** u consists of the elements of s at the given places, in their order. */
  ghost predicate Picks<T>(s: seq<T>, u: seq<T>, at: seq<int>) {
    && |at| == |u|
    && (forall k | 0 <= k < |at| :: 0 <= at[k] < |s| && u[k] == s[at[k]])
    && (forall j, k | 0 <= j < k < |at| :: at[j] < at[k])
  }

  /** The places where a run of equal neighbours starts. */
  function RunStarts<T>(c: (T, T) -> int, s: seq<T>): (at: seq<int>) {
    if |s| <= 1 then (if s == [] then [] else [0])
    else RunStarts(c, s[..|s| - 1]) + if c(s[|s| - 2], s[|s| - 1]) != 0 then [|s| - 1] else []
  }

  lemma PicksAlong<T>(s: seq<T>, u: seq<T>, at: seq<int>, x: T)
    requires Picks(s, u, at)
    ensures Picks(s + [x], u, at) && Picks(s + [x], u + [x], at + [|s|])
  {
  }

  lemma {:induction false} UniqPicksRunStarts<T>(c: (T, T) -> int, s: seq<T>)
    ensures Picks(s, Uniq(c, s), RunStarts(c, s))
  {
    if |s| > 1 {
      var init, last := s[..|s| - 1], s[|s| - 1];
      UniqPicksRunStarts(c, init);
      PicksAlong(init, Uniq(c, init), RunStarts(c, init), last);
      assert s == init + [last];
    }
  }

  lemma {:induction false} RunStartsStartRuns<T>(c: (T, T) -> int, s: seq<T>, i: int)
    ensures i in RunStarts(c, s) <==> StartsRun(c, s, i)
  {
    if |s| > 1 {
      RunStartsStartRuns(c, s[..|s| - 1], i);
    }
  }

  /** Uniq takes exactly the elements that start a run of equal neighbours, in their order, for any comparator. */
  lemma UniqTakesRunStarts<T>(c: (T, T) -> int, s: seq<T>)
    ensures exists at :: Picks(s, Uniq(c, s), at) && forall i :: i in at <==> StartsRun(c, s, i)
  {
    UniqPicksRunStarts(c, s);
    forall i ensures i in RunStarts(c, s) <==> StartsRun(c, s, i) {
      RunStartsStartRuns(c, s, i);
    }
  }

  /** The last element kept always compares equal to the last element seen. */
  lemma {:induction false} UniqKeepsLast<T(!new)>(c: (T, T) -> int, s: seq<T>)
    requires Equivalence(c) && s != []
    ensures Uniq(c, s) != [] && c(Uniq(c, s)[|Uniq(c, s)| - 1], s[|s| - 1]) == 0
  {
    if |s| > 1 {
      UniqKeepsLast(c, s[..|s| - 1]);
    }
  }

  /** Elements that equal one and the same element are equal to each other. */
  ghost predicate Euclidean<T(!new)>(c: (T, T) -> int) {
    forall x, y, z :: c(x, y) == 0 && c(x, z) == 0 ==> c(y, z) == 0
  }

  /** What equals the last element kept also equals the last element seen. */
  lemma {:induction false} UniqLastRepresents<T(!new)>(c: (T, T) -> int, s: seq<T>, x: T)
    requires Euclidean(c) && s != [] && Uniq(c, s) != [] && c(Uniq(c, s)[|Uniq(c, s)| - 1], x) == 0
    ensures c(s[|s| - 1], x) == 0
  {
    if |s| > 1 && c(s[|s| - 2], s[|s| - 1]) == 0 {
      UniqLastRepresents(c, s[..|s| - 1], x);
    }
  }

  lemma {:induction false} UniqSeparatesNeighbours<T(!new)>(c: (T, T) -> int, s: seq<T>)
    requires Euclidean(c)
    ensures NoEqualNeighbours(c, Uniq(c, s))
  {
    if |s| > 1 {
      var init, last := s[..|s| - 1], s[|s| - 1];
      var kept := Uniq(c, init);
      UniqSeparatesNeighbours(c, init);
      if kept != [] && c(kept[|kept| - 1], last) == 0 {
        UniqLastRepresents(c, init, last);
      }
    }
  }

  lemma {:induction false} UniqLeavesSeparated<T>(c: (T, T) -> int, s: seq<T>)
    requires NoEqualNeighbours(c, s)
    ensures Uniq(c, s) == s
  {
    if |s| > 1 {
      UniqLeavesSeparated(c, s[..|s| - 1]);
      assert c(s[|s| - 2], s[|s| - 2 + 1]) != 0;
    }
  }

  ghost predicate UniqIsStable<T>(c: (T, T) -> int, s: seq<T>) {
    Uniq(c, Uniq(c, s)) == Uniq(c, s)
  }

  lemma UniqOfThree<T>(c: (T, T) -> int, x: T, y: T, z: T)
    requires c(x, y) == 0 && c(x, z) == 0 && c(y, z) != 0
    ensures Uniq(c, [x, y, z]) == [x, z] && Uniq(c, [x, z]) == [x]
  {
    assert [x, y, z][..2] == [x, y] && [x, y][..1] == [x] && [x, z][..1] == [x];
    assert Uniq(c, [x, y]) == [x];
  }

  /** A second uniq never removes anything exactly when the elements equal to one are equal to each other. */
  lemma UniqIsIdempotentExactly<T(!new)>(c: (T, T) -> int)
    ensures (forall s :: UniqIsStable(c, s)) <==> Euclidean(c)
  {
    if Euclidean(c) {
      forall s ensures UniqIsStable(c, s) {
        UniqSeparatesNeighbours(c, s);
        UniqLeavesSeparated(c, Uniq(c, s));
      }
    }
    if forall s :: UniqIsStable(c, s) {
      forall x, y, z | c(x, y) == 0 && c(x, z) == 0 ensures c(y, z) == 0 {
        assert UniqIsStable(c, [x, y, z]);
        if c(y, z) != 0 {
          UniqOfThree(c, x, y, z);
        }
      }
    }
  }

  lemma UniqIsIdempotent<T(!new)>(c: (T, T) -> int, s: seq<T>)
    requires Equivalence(c)
    ensures UniqIsStable(c, s)
  {
    assert Euclidean(c);
    UniqIsIdempotentExactly(c);
  }

  /** On doubles the tolerance decides, and sorting first does not help. */
  lemma DoubleUniqIsIdempotentExactly(epsilon: real)
    ensures (forall s :: UniqIsStable(CompareDoubles(epsilon), s)) <==> epsilon <= 0.0
    ensures (forall s | Sorted(CompareDoubles(epsilon), s) :: UniqIsStable(CompareDoubles(epsilon), s)) <==> epsilon <= 0.0
  {
    var c := CompareDoubles(epsilon);
    UniqIsIdempotentExactly(c);
    if epsilon > 0.0 {
      var s := [0.0, -epsilon, epsilon];
      UniqOfThree(c, 0.0, -epsilon, epsilon);
      assert Sorted(c, s) && !UniqIsStable(c, s);
    } else {
      assert Euclidean(c);
    }
  }

  lemma AppendKeepsStrict<T>(c: (T, T) -> int, s: seq<T>, x: T)
    requires StrictlySorted(c, s) && forall y | y in s :: c(y, x) < 0
    ensures StrictlySorted(c, s + [x])
  {
  }

  lemma {:induction false} UniqStrictlySorts<T(!new)>(c: (T, T) -> int, s: seq<T>)
    requires TotalPreorder(c) && Sorted(c, s)
    ensures StrictlySorted(c, Uniq(c, s))
  {
    if |s| > 1 {
      var init, last := s[..|s| - 1], s[|s| - 1];
      UniqStrictlySorts(c, init);
      if c(s[|s| - 2], last) != 0 {
        forall x | x in Uniq(c, init) ensures c(x, last) < 0 {
          UniqIsSubset(c, init, x);
          StrictlyBelow(c, init, x, last);
        }
        AppendKeepsStrict(c, Uniq(c, init), last);
      }
    }
  }

  lemma StrictlyBelow<T(!new)>(c: (T, T) -> int, s: seq<T>, x: T, y: T)
    requires TotalPreorder(c) && Sorted(c, s) && x in s && c(s[|s| - 1], y) < 0
    ensures c(x, y) < 0
  {
    LastIsGreatest(c, s, s[|s| - 1], x) by {
      assert c(s[|s| - 1], s[|s| - 1]) < 0 <==> c(s[|s| - 1], s[|s| - 1]) > 0;
    }
    Transitive(c, x, s[|s| - 1], y);
  }

  lemma {:induction false} UniqKeepsElements<T(!new)>(c: (T, T) -> int, s: seq<T>)
    requires TotalOrder(c)
    ensures Elements(Uniq(c, s)) == Elements(s)
  {
    if |s| > 1 {
      var init := s[..|s| - 1];
      UniqKeepsElements(c, init);
      assert s == init + [s[|s| - 1]];
      assert s[|s| - 2] in init;
      assert Elements(s) == Elements(init) + {s[|s| - 1]};
    }
  }

  /** Whatever "equal" means, every element has an equal one among those kept. */
  lemma {:induction false} UniqRepresents<T(!new)>(c: (T, T) -> int, s: seq<T>, x: T) returns (y: T)
    requires Equivalence(c) && x in s
    ensures y in Uniq(c, s) && c(x, y) == 0
  {
    var init := s[..|s| - 1];
    assert s == init + [s[|s| - 1]];
    if x in init {
      y := UniqRepresents(c, init, x);
    } else {
      UniqKeepsLast(c, s);
      y := Uniq(c, s)[|Uniq(c, s)| - 1];
    }
  }

  // ----- sort followed by uniq: a canonical form for sets -----

  function Canonical<T>(c: (T, T) -> int, s: seq<T>): (r: seq<T>) {
    Uniq(c, Sort(c, s))
  }

  lemma CanonicalIsStrictlySorted<T(!new)>(c: (T, T) -> int, s: seq<T>)
    requires TotalOrder(c)
    ensures StrictlySorted(c, Canonical(c, s)) && Elements(Canonical(c, s)) == Elements(s)
  {
    SortSorts(c, s);
    SortIsPermutation(c, s);
    SameMultisetSameElements(s, Sort(c, s));
    UniqStrictlySorts(c, Sort(c, s));
    UniqKeepsElements(c, Sort(c, s));
  }

  /** Two vectors hold the same set exactly when sorting and uniq-ing them gives the same vector. */
  lemma CanonicalFormDecidesSetEquality<T(!new)>(c: (T, T) -> int, s: seq<T>, t: seq<T>)
    requires TotalOrder(c)
    ensures Canonical(c, s) == Canonical(c, t) <==> Elements(s) == Elements(t)
  {
    CanonicalIsStrictlySorted(c, s);
    CanonicalIsStrictlySorted(c, t);
    if Elements(s) == Elements(t) {
      StrictArrangementIsUnique(c, Canonical(c, s), Canonical(c, t));
    }
  }

  // ----- setdiff -----

  /** The two-pointer walk of setdiff: each element of r cancels at most one equal element of l. */
  function Difference<T>(c: (T, T) -> int, l: seq<T>, r: seq<T>): (d: seq<T>)
    decreases |l| + |r|
  {
    if l == [] || r == [] then l
    else if c(l[0], r[0]) < 0 then [l[0]] + Difference(c, l[1..], r)
    else if c(l[0], r[0]) == 0 then Difference(c, l[1..], r[1..])
    else Difference(c, l, r[1..])
  }

  lemma {:induction false} DifferenceIsSubset<T>(c: (T, T) -> int, l: seq<T>, r: seq<T>, x: T)
    requires x in Difference(c, l, r)
    ensures x in l
    decreases |l| + |r|
  {
    if l == [] || r == [] {
    } else if c(l[0], r[0]) < 0 {
      if x != l[0] {
        DifferenceIsSubset(c, l[1..], r, x);
      }
    } else if c(l[0], r[0]) == 0 {
      DifferenceIsSubset(c, l[1..], r[1..], x);
    } else {
      DifferenceIsSubset(c, l, r[1..], x);
    }
  }

  lemma PrependKeepsSorted<T>(c: (T, T) -> int, x: T, s: seq<T>)
    requires Sorted(c, s) && forall y | y in s :: c(x, y) <= 0
    ensures Sorted(c, [x] + s)
  {
  }

  lemma {:induction false} DifferenceIsSorted<T>(c: (T, T) -> int, l: seq<T>, r: seq<T>)
    requires Sorted(c, l)
    ensures Sorted(c, Difference(c, l, r))
    decreases |l| + |r|
  {
    if l == [] || r == [] {
    } else if c(l[0], r[0]) < 0 {
      DifferenceIsSorted(c, l[1..], r);
      forall y | y in Difference(c, l[1..], r) ensures c(l[0], y) <= 0 {
        DifferenceIsSubset(c, l[1..], r, y);
      }
      PrependKeepsSorted(c, l[0], Difference(c, l[1..], r));
    } else if c(l[0], r[0]) == 0 {
      DifferenceIsSorted(c, l[1..], r[1..]);
    } else {
      DifferenceIsSorted(c, l, r[1..]);
    }
  }

  /** An element strictly below the head of a sorted sequence is not in it. */
  lemma BelowHeadIsAbsent<T(!new)>(c: (T, T) -> int, x: T, s: seq<T>)
    requires TotalPreorder(c) && Sorted(c, s) && s != [] && c(x, s[0]) < 0
    ensures x !in s
  {
    assert c(x, s[0]) < 0 <==> c(s[0], x) > 0;
    if x in s {
      HeadIsLeast(c, s, x);
    }
  }

  lemma KeepHead<T>(x: T, l: multiset<T>, r: multiset<T>)
    requires x !in r && x in l
    ensures multiset{x} + (l - multiset{x} - r) == l - r
  {
  }

  lemma CancelHead<T>(x: T, l: multiset<T>, r: multiset<T>)
    requires x in l && x in r
    ensures (l - multiset{x}) - (r - multiset{x}) == l - r
  {
  }

  lemma SkipHead<T>(x: T, l: multiset<T>, r: multiset<T>)
    requires x !in l
    ensures l - (r - multiset{x}) == l - r
  {
  }

  /** On sorted vectors setdiff is multiset difference: every match cancels exactly one copy. */
  lemma {:induction false} DifferenceIsMultisetDifference<T(!new)>(c: (T, T) -> int, l: seq<T>, r: seq<T>)
    requires TotalOrder(c) && Sorted(c, l) && Sorted(c, r)
    ensures multiset(Difference(c, l, r)) == multiset(l) - multiset(r)
    decreases |l| + |r|
  {
    if l != [] && r != [] {
      TailMultiset(l);
      TailMultiset(r);
      TailIsSorted(c, l);
      TailIsSorted(c, r);
      if c(l[0], r[0]) < 0 {
        DifferenceIsMultisetDifference(c, l[1..], r);
        BelowHeadIsAbsent(c, l[0], r);
        KeepHead(l[0], multiset(l), multiset(r));
      } else if c(l[0], r[0]) == 0 {
        DifferenceIsMultisetDifference(c, l[1..], r[1..]);
        CancelHead(l[0], multiset(l), multiset(r));
      } else {
        DifferenceIsMultisetDifference(c, l, r[1..]);
        assert c(r[0], l[0]) < 0 <==> c(l[0], r[0]) > 0;
        BelowHeadIsAbsent(c, r[0], l);
        SkipHead(r[0], multiset(l), multiset(r));
      }
    }
  }

  /** How many elements compare equal to x. */
  function Count<T>(c: (T, T) -> int, s: seq<T>, x: T): (n: nat) {
    if s == [] then 0 else (if c(s[0], x) == 0 then 1 else 0) + Count(c, s[1..], x)
  }

  /** Nothing in a sorted sequence is equal to something strictly below its head. */
  lemma {:induction false} CountBelowHead<T(!new)>(c: (T, T) -> int, s: seq<T>, x: T)
    requires TotalPreorder(c) && forall y | y in s :: c(x, y) < 0
    ensures Count(c, s, x) == 0
  {
    if s != [] {
      assert c(x, s[0]) < 0 <==> c(s[0], x) > 0;
      CountBelowHead(c, s[1..], x);
    }
  }

  lemma HeadStrictlyAbove<T(!new)>(c: (T, T) -> int, w: T, x: T, s: seq<T>, y: T)
    requires TotalPreorder(c) && Sorted(c, s) && s != [] && c(w, s[0]) < 0 && c(w, x) == 0 && y in s
    ensures c(x, y) < 0
  {
    HeadIsLeast(c, s, y);
    assert c(w, x) < 0 <==> c(x, w) > 0;
    assert c(x, w) < 0 <==> c(w, x) > 0;
    Transitive(c, x, w, s[0]);
    Transitive(c, x, s[0], y);
  }

  lemma SameClass<T(!new)>(c: (T, T) -> int, v: T, w: T, x: T)
    requires TotalPreorder(c) && c(v, w) == 0
    ensures c(v, x) == 0 <==> c(w, x) == 0
  {
    PreorderIsEquivalence(c);
  }

  /** The elements that compare equal to x, in their order. */
  function Class<T>(c: (T, T) -> int, s: seq<T>, x: T): (r: seq<T>)
    ensures |r| == Count(c, s, x)
  {
    if s == [] then [] else (if c(s[0], x) == 0 then [s[0]] else []) + Class(c, s[1..], x)
  }

  function Smaller(a: nat, b: nat): (r: nat) {
    if a < b then a else b
  }

  /**
   With a comparator that looks at a key only, each element of the right vector cancels one of its key, the first
   ones first: what is left of a key are its last elements, in their order.
   */
  lemma {:induction false} DifferenceKeepsLast<T(!new)>(c: (T, T) -> int, l: seq<T>, r: seq<T>, x: T)
    requires TotalPreorder(c) && Sorted(c, l) && Sorted(c, r)
    ensures Class(c, Difference(c, l, r), x) == Class(c, l, x)[Smaller(Count(c, l, x), Count(c, r, x))..]
    decreases |l| + |r|
  {
    if l == [] || r == [] {
      DropFront(Class(c, l, x));
    } else if c(l[0], r[0]) < 0 {
      TailIsSorted(c, l);
      DifferenceKeepsLast(c, l[1..], r, x);
      KeptHeadHasNoMatch(c, l[0], r, x);
      ClassOfCons(c, l[0], Difference(c, l[1..], r), x);
      DropFront(Class(c, l, x));
      DropFront(Class(c, l[1..], x));
    } else if c(l[0], r[0]) == 0 {
      TailIsSorted(c, l);
      TailIsSorted(c, r);
      DifferenceKeepsLast(c, l[1..], r[1..], x);
      SameClass(c, l[0], r[0], x);
      DropCons(l[0], Class(c, l[1..], x), Smaller(Count(c, l[1..], x), Count(c, r[1..], x)));
    } else {
      TailIsSorted(c, r);
      DifferenceKeepsLast(c, l, r[1..], x);
      assert c(r[0], l[0]) < 0 <==> c(l[0], r[0]) > 0;
      KeptHeadHasNoMatch(c, r[0], l, x);
    }
  }

  lemma DropFront<T>(s: seq<T>)
    ensures s[0..] == s && (s == [] ==> s == s[|s|..])
  {
  }

  lemma DropCons<T>(w: T, s: seq<T>, m: nat)
    requires m <= |s|
    ensures ([w] + s)[m + 1..] == s[m..] && [] + s == s
  {
  }

  /** Nothing in a sorted sequence is in the class of an element strictly below its head. */
  lemma KeptHeadHasNoMatch<T(!new)>(c: (T, T) -> int, w: T, s: seq<T>, x: T)
    requires TotalPreorder(c) && Sorted(c, s) && s != [] && c(w, s[0]) < 0
    ensures c(w, x) == 0 ==> Count(c, s, x) == 0
  {
    if c(w, x) == 0 {
      forall y | y in s ensures c(x, y) < 0 {
        HeadStrictlyAbove(c, w, x, s, y);
      }
      CountBelowHead(c, s, x);
    }
  }

  lemma {:induction false} ClassOfCons<T>(c: (T, T) -> int, w: T, s: seq<T>, x: T)
    ensures Class(c, [w] + s, x) == (if c(w, x) == 0 then [w] else []) + Class(c, s, x)
  {
    assert ([w] + s)[1..] == s;
  }

  /** As many elements of a key are cancelled as the right vector has of it. */
  lemma DifferenceCounts<T(!new)>(c: (T, T) -> int, l: seq<T>, r: seq<T>, x: T)
    requires TotalPreorder(c) && Sorted(c, l) && Sorted(c, r)
    ensures Count(c, Difference(c, l, r), x) ==
            if Count(c, l, x) > Count(c, r, x) then Count(c, l, x) - Count(c, r, x) else 0
  {
    DifferenceKeepsLast(c, l, r, x);
  }

  lemma StrictMultiplicity<T(!new)>(c: (T, T) -> int, s: seq<T>, x: T)
    requires TotalOrder(c) && StrictlySorted(c, s)
    ensures multiset(s)[x] == if x in s then 1 else 0
  {
    if s != [] {
      TailMultiset(s);
      TailElements(c, s);
      StrictMultiplicity(c, s[1..], x);
      assert x in Elements(s) <==> x in s;
      assert x in Elements(s[1..]) <==> x in s[1..];
      assert s[0] in multiset(s);
    }
  }

  lemma StrictDifferenceMultiplicity<T(!new)>(c: (T, T) -> int, l: seq<T>, r: seq<T>, x: T)
    requires TotalOrder(c) && StrictlySorted(c, l) && StrictlySorted(c, r)
    ensures multiset(Difference(c, l, r))[x] == if x in l && x !in r then 1 else 0
  {
    DifferenceIsMultisetDifference(c, l, r);
    StrictMultiplicity(c, l, x);
    StrictMultiplicity(c, r, x);
  }

  /** setdiff of two canonical forms is the canonical form of the set difference. */
  lemma DifferenceOfCanonicalForms<T(!new)>(c: (T, T) -> int, s: seq<T>, t: seq<T>, u: seq<T>)
    requires TotalOrder(c) && Elements(u) == Elements(s) - Elements(t)
    ensures Difference(c, Canonical(c, s), Canonical(c, t)) == Canonical(c, u)
  {
    var cs, ct, cu := Canonical(c, s), Canonical(c, t), Canonical(c, u);
    CanonicalIsStrictlySorted(c, s);
    CanonicalIsStrictlySorted(c, t);
    CanonicalIsStrictlySorted(c, u);
    forall x ensures multiset(Difference(c, cs, ct))[x] == multiset(cu)[x] {
      StrictDifferenceMultiplicity(c, cs, ct, x);
      StrictMultiplicity(c, cu, x);
      assert (x in cs <==> x in Elements(cs)) && (x in ct <==> x in Elements(ct)) && (x in cu <==> x in Elements(cu));
    }
    DifferenceIsSorted(c, cs, ct);
    SortedArrangementIsUnique(c, Difference(c, cs, ct), cu);
  }
}
