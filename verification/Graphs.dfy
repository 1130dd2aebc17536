/** The graph editor of ui/graphs.php: making the sort order of a graph's items unambiguous. */
module SortOrder {
  import opened Arithmetic
  import opened Orders
  import opened VectorLaws

  ghost predicate Increasing(s: seq<int>) {
    forall i, j | 0 <= i < |s| && j == i + 1 < |s| :: s[i] < s[j]
  }

  /** No two neighbouring numbers are the same. */
  ghost predicate Unambiguous(s: seq<int>) {
    NoEqualNeighbours(CompareNumbers, s)
  }

  /** No element of s is above the element of t at the same place. */
  ghost predicate Within(s: seq<int>, t: seq<int>) {
    |s| == |t| && forall i | 0 <= i < |s| :: s[i] <= t[i]
  }

  /** Pushes every element just above its predecessor. */
  function Lifted(s: seq<int>): (r: seq<int>)
    ensures |r| == |s|
  {
    if |s| <= 1 then s
    else
      var init := Lifted(s[..|s| - 1]);
      init + [Max(s[|s| - 1], init[|init| - 1] + 1)]
  }

  lemma {:induction false} LiftedIsIncreasing(s: seq<int>)
    ensures Increasing(Lifted(s)) && Within(s, Lifted(s))
  {
    if |s| > 1 {
      LiftedIsIncreasing(s[..|s| - 1]);
    }
  }

  /** The lifted list is the least increasing list above s, at every place at once. */
  lemma {:induction false} LiftedIsLeast(s: seq<int>, t: seq<int>)
    requires Increasing(t) && Within(s, t)
    ensures Within(Lifted(s), t)
  {
    if |s| > 1 {
      LiftedIsLeast(s[..|s| - 1], t[..|t| - 1]);
      assert t[|t| - 2] < t[|t| - 2 + 1];
    }
  }

  // ----- What the repair computes, in one pass -----

  /** How far an element is raised that needs `need` to come just above its predecessor, after p clashes. */
  function Lift(need: int, p: nat): (r: nat) {
    if need <= 0 then 0 else if need <= p then need else p
  }

  /**
   The repaired list and the number of clashes found in it. Where the predecessor needs exactly one more than the
   clashes so far can give, the two are equal when the repair gets there: one more clash.
   */
  function Settled(s: seq<int>): (r: (seq<int>, nat))
    ensures |r.0| == |s|
  {
    if |s| <= 1 then (s, 0)
    else
      var (f, p) := Settled(s[..|s| - 1]);
      var x := s[|s| - 1];
      var need := f[|f| - 1] + 1 - x;
      var p' := if need == p + 1 then p + 1 else p;
      (f + [x + Lift(need, p')], p')
  }

  function Repaired(s: seq<int>): (r: seq<int>)
    ensures |r| == |s|
  {
    Settled(s).0
  }

  /** How often the repair finds two neighbours equal. */
  function Clashes(s: seq<int>): (r: nat) {
    Settled(s).1
  }

  /** An element depends on nothing after it. */
  lemma {:induction false} RepairedPrefix(s: seq<int>, n: nat)
    requires n <= |s|
    ensures Repaired(s)[..n] == Repaired(s[..n])
  {
    if n < |s| {
      RepairedPrefix(s[..|s| - 1], n);
      assert s[..|s| - 1][..n] == s[..n];
      assert |s| > 1 ==> Repaired(s)[..|s| - 1] == Repaired(s[..|s| - 1]);
    } else {
      assert s[..n] == s;
    }
  }

  lemma RepairedLast(s: seq<int>)
    requires |s| > 1
    ensures var init := s[..|s| - 1];
            var need := Repaired(init)[|init| - 1] + 1 - s[|s| - 1];
            && Repaired(s) == Repaired(init) + [s[|s| - 1] + Lift(need, Clashes(s))]
            && Clashes(s) == Clashes(init) + if need == Clashes(init) + 1 then 1 else 0
  {
  }

  /**
   Exactly which elements are raised, and how far: one that is not above its repaired predecessor is put just above
   it, but never raised by more than the clashes found up to it.
   */
  lemma RaisedExactly(s: seq<int>, k: nat)
    requires 0 < k < |s|
    ensures var before, p := Repaired(s)[k - 1], Clashes(s[..k + 1]);
            Repaired(s)[k] == if s[k] > before then s[k] else if before + 1 <= s[k] + p then before + 1 else s[k] + p
  {
    var t := s[..k + 1];
    RepairedPrefix(s, k + 1);
    assert Repaired(s)[..k + 1][k] == Repaired(s)[k] && Repaired(s)[..k + 1][k - 1] == Repaired(s)[k - 1];
    RepairedLast(t);
  }

  /** No clash is found, and nothing is changed, exactly when no two neighbours were equal. */
  lemma {:induction false} UntouchedExactly(s: seq<int>)
    ensures Repaired(s) == s <==> Unambiguous(s)
    ensures Clashes(s) == 0 <==> Unambiguous(s)
  {
    if |s| > 1 {
      var init := s[..|s| - 1];
      UntouchedExactly(init);
      RepairedLast(s);
      SnocUnambiguous(init, s[|s| - 1]);
      assert s == init + [s[|s| - 1]];
      if Repaired(s) == s {
        assert Repaired(s)[..|init|] == Repaired(init);
      }
    }
  }

  lemma SnocUnambiguous(s: seq<int>, x: int)
    requires s != []
    ensures Unambiguous(s + [x]) <==> Unambiguous(s) && s[|s| - 1] != x
  {
    var t := s + [x];
    assert forall i | 0 <= i < |s| :: t[i] == s[i];
    if Unambiguous(t) {
      var i := |s| - 1;
      assert CompareNumbers(t[i], t[i + 1]) != 0;
      assert forall i | 0 <= i < |s| - 1 :: CompareNumbers(t[i], t[i + 1]) != 0;
    }
  }

  /** Everything up to the first pair of equal neighbours stays as it was. */
  lemma UnchangedBeforeClash(s: seq<int>, n: nat)
    requires n <= |s| && Unambiguous(s[..n])
    ensures Repaired(s)[..n] == s[..n]
  {
    RepairedPrefix(s, n);
    UntouchedExactly(s[..n]);
  }

  lemma {:induction false} RepairedIsUnambiguous(s: seq<int>)
    ensures Unambiguous(Repaired(s))
  {
    if |s| > 1 {
      RepairedIsUnambiguous(s[..|s| - 1]);
      RepairedLast(s);
      SnocUnambiguous(Repaired(s[..|s| - 1]), Repaired(s)[|s| - 1]);
    }
  }

  lemma {:induction false} RepairedIsWithin(s: seq<int>)
    ensures Within(s, Repaired(s)) && Within(Repaired(s), Lifted(s))
  {
    if |s| > 1 {
      RepairedIsWithin(s[..|s| - 1]);
      RepairedLast(s);
    }
  }

  /** On a list that does not decrease no element needs more than the clashes so far, so all are lifted. */
  lemma {:induction false} RepairedIsLifted(s: seq<int>)
    requires NonDecreasing(s)
    ensures Repaired(s) == Lifted(s)
    ensures s != [] ==> Repaired(s)[|s| - 1] <= s[|s| - 1] + Clashes(s)
  {
    if |s| > 1 {
      RepairedIsLifted(s[..|s| - 1]);
      RepairedLast(s);
    }
  }

  /** The repaired list is increasing exactly when it is the lifted one. */
  lemma IncreasingIsLifted(s: seq<int>)
    ensures Increasing(Repaired(s)) <==> Repaired(s) == Lifted(s)
  {
    LiftedIsIncreasing(s);
    RepairedIsWithin(s);
    if Increasing(Repaired(s)) {
      LiftedIsLeast(s, Repaired(s));
    }
  }

  // ----- The nested loops -----

  /** From index `from` on, a is b with every element raised by one that is not above its predecessor in a. */
  ghost predicate Raised(b: seq<int>, a: seq<int>, from: int)
    requires 0 < from
  {
    && |a| == |b|
    && (forall k | 0 <= k < from && k < |a| :: a[k] == b[k])
    && (forall j, k | from <= k < |a| && j == k - 1 :: a[k] == if a[j] >= b[k] then b[k] + 1 else b[k])
  }

  lemma RaisedByAtMostOne(b: seq<int>, a: seq<int>, from: int, k: nat)
    requires 0 < from && Raised(b, a, from) && k < |a|
    ensures b[k] <= a[k] <= b[k] + 1
  {
    var j := k - 1;
    assert from <= k ==> a[k] == if a[j] >= b[k] then b[k] + 1 else b[k];
  }

  lemma RaisedOneMore(b: seq<int>, a: seq<int>, from: int)
    requires 0 < from <= |a| < |b| && Raised(b[..|a|], a, from)
    ensures var x := b[|a|];
            Raised(b[..|a| + 1], a + [if a[|a| - 1] >= x then x + 1 else x], from)
  {
  }

  /** The inner loop, from index `from` to the end. */
  method RaiseFrom(a: array<int>, from: nat)
    requires 0 < from < a.Length
    modifies a
    ensures Raised(old(a[..]), a[..], from)
  {
    ghost var b, done := a[..], a[..from];
    for j := from to a.Length
      invariant |done| == j && Raised(b[..j], done, from)
      invariant forall k | 0 <= k < a.Length :: a[k] == if k < j then done[k] else b[k]
    {
      RaisedOneMore(b, done, from);
      if a[j - 1] >= a[j] {
        a[j] := a[j] + 1;
      }
      done := done + [a[j]];
    }
    assert a[..] == done && b[..a.Length] == b;
  }

  /** After p clashes every element behind i has been raised by p, or by less if that puts it above its predecessor. */
  ghost predicate Cascaded(s: seq<int>, b: seq<int>, p: nat, i: int) {
    && 0 <= i < |s| == |b|
    && forall j, k | i < k < |s| && j == k - 1 :: b[k] == s[k] + Lift(b[j] + 1 - s[k], p)
  }

  /** One more pass of the inner loop turns p raises into p + 1. */
  lemma RaisedCascades(s: seq<int>, b: seq<int>, a: seq<int>, p: nat, i: int)
    requires Cascaded(s, b, p, i) && i + 1 < |s| && b[i] == b[i + 1] && Raised(b, a, i + 1)
    ensures Cascaded(s, a, p + 1, i)
  {
    forall j, k | i < k < |s| && j == k - 1 ensures a[k] == s[k] + Lift(a[j] + 1 - s[k], p + 1) {
      RaisedByAtMostOne(b, a, i + 1, j);
      assert b[k] == s[k] + Lift(b[j] + 1 - s[k], p);
      assert a[k] == if a[j] >= b[k] then b[k] + 1 else b[k];
    }
  }

  /** The repair has dealt with the elements up to i. */
  ghost predicate RepairedUpTo(s: seq<int>, b: seq<int>, i: int) {
    && 0 <= i < |s| == |b|
    && b[..i + 1] == Repaired(s[..i + 1])
    && Cascaded(s, b, Clashes(s[..i + 1]), i)
  }

  /** What the element after the repaired part is, and when it clashes. */
  lemma NextElement(s: seq<int>, b: seq<int>, i: int)
    requires RepairedUpTo(s, b, i) && i + 1 < |s|
    ensures var p, need := Clashes(s[..i + 1]), b[i] + 1 - s[i + 1];
            && b[i + 1] == s[i + 1] + Lift(need, p)
            && (b[i] == b[i + 1] <==> need == p + 1)
            && Clashes(s[..i + 2]) == (if need == p + 1 then p + 1 else p)
            && Repaired(s[..i + 2]) == b[..i + 1] + [s[i + 1] + Lift(need, Clashes(s[..i + 2]))]
  {
    var t, j := s[..i + 2], i + 1;
    assert t[..|t| - 1] == s[..i + 1] && t[|t| - 1] == s[j];
    RepairedLast(t);
    assert b[j] == s[j] + Lift(b[i] + 1 - s[j], Clashes(s[..i + 1]));
    assert b[..i + 1][i] == b[i];
  }

  /** What one round of the outer loop does, with or without a clash. */
  lemma RoundRepairs(s: seq<int>, b: seq<int>, a: seq<int>, i: int)
    requires RepairedUpTo(s, b, i) && i + 1 < |s|
    requires if b[i] == b[i + 1] then Raised(b, a, i + 1) else a == b
    ensures RepairedUpTo(s, a, i + 1)
  {
    var p, j := Clashes(s[..i + 1]), i + 1;
    NextElement(s, b, i);
    if b[i] == b[j] {
      RaisedCascades(s, b, a, p, i);
      assert a[j] == s[j] + Lift(a[i] + 1 - s[j], p + 1);
    }
    assert a[..i + 2] == b[..i + 1] + [a[j]];
  }

  /**
   The nested loops: wherever two neighbours are equal, everything from there on that is not above its
   predecessor is raised by one. However often that happens, the result is that of the single pass.
   */
  method Repair(a: array<int>)
    modifies a
    ensures a[..] == Repaired(old(a[..]))
    ensures Within(old(a[..]), a[..]) && Within(a[..], Lifted(old(a[..])))
    ensures Unambiguous(a[..])
    ensures Unambiguous(old(a[..])) <==> a[..] == old(a[..])
    ensures NonDecreasing(old(a[..])) ==> a[..] == Lifted(old(a[..]))
    ensures Increasing(a[..]) <==> a[..] == Lifted(old(a[..]))
  {
    ghost var s := a[..];
    var i := 0;
    while i < a.Length - 1
      invariant a.Length > 0 ==> RepairedUpTo(s, a[..], i)
    {
      ghost var b := a[..];
      var next := i + 1;
      if a[i] == a[next] {
        RaiseFrom(a, next);
      }
      RoundRepairs(s, b, a[..], i);
      i := next;
    }
    assert a.Length > 0 ==> a[..] == a[..i + 1] && s == s[..i + 1];
    RepairedProperties(s);
  }

  lemma RepairedProperties(s: seq<int>)
    ensures Within(s, Repaired(s)) && Within(Repaired(s), Lifted(s))
    ensures Unambiguous(Repaired(s))
    ensures Unambiguous(s) <==> Repaired(s) == s
    ensures NonDecreasing(s) ==> Repaired(s) == Lifted(s)
    ensures Increasing(Repaired(s)) <==> Repaired(s) == Lifted(s)
  {
    RepairedIsWithin(s);
    RepairedIsUnambiguous(s);
    UntouchedExactly(s);
    IncreasingIsLifted(s);
    if NonDecreasing(s) {
      RepairedIsLifted(s);
    }
  }
}

/** The graph list of ui/graphs.php: when will the low-level discovery delete a graph? */
module GraphDeletion {
  import opened Options

  type Id = nat

  /** A discovered item: its deletion time, 0 when none is set, and the graphs it appears in. */
  datatype Item = Item(tsDelete: nat, graphs: seq<Id>)

  /** The deletion time a graph carries itself; None when it was not discovered. */
  type Table = map<Id, Option<nat>>

  /** t is a deletion time set for graph g, by itself or by one of the items. */
  ghost predicate Candidate(items: seq<Item>, own: Option<nat>, g: Id, t: nat) {
    && t > 0
    && (own == Some(t) || exists i | 0 <= i < |items| :: items[i].tsDelete == t && g in items[i].graphs)
  }

  /** r is the earliest time set for g, or what g carried itself when none is set. */
  ghost predicate Earliest(items: seq<Item>, own: Option<nat>, g: Id, r: Option<nat>) {
    && (r != own ==> r.Some? && Candidate(items, own, g, r.value))
    && (forall t | Candidate(items, own, g, t) :: r.Some? && 0 < r.value <= t)
  }

  /** The earliest time is determined by which times are set, so the order of the items cannot matter. */
  lemma EarliestIsUnique(items: seq<Item>, items': seq<Item>, own: Option<nat>, g: Id, r: Option<nat>, r': Option<nat>)
    requires multiset(items) == multiset(items')
    requires Earliest(items, own, g, r) && Earliest(items', own, g, r')
    ensures r == r'
  {
    forall t ensures Candidate(items, own, g, t) <==> Candidate(items', own, g, t) {
      if Candidate(items, own, g, t) {
        SameCandidates(items, items', own, g, t);
      }
      if Candidate(items', own, g, t) {
        SameCandidates(items', items, own, g, t);
      }
    }
    assert own.Some? && own.value > 0 ==> Candidate(items, own, g, own.value);
  }

  lemma SameCandidates(items: seq<Item>, items': seq<Item>, own: Option<nat>, g: Id, t: nat)
    requires multiset(items) == multiset(items') && Candidate(items, own, g, t)
    ensures Candidate(items', own, g, t)
  {
    if own != Some(t) {
      var i :| 0 <= i < |items| && items[i].tsDelete == t && g in items[i].graphs;
      assert items[i] in multiset(items');
    }
  }

  /** Some item sets a time for a graph that is not in the table. */
  ghost predicate Strays(items: seq<Item>, table: Table) {
    exists i, g | 0 <= i < |items| && g in items[i].graphs :: items[i].tsDelete != 0 && g !in table
  }

  /** The graphs some item sets a time for. */
  ghost predicate Named(items: seq<Item>, g: Id) {
    exists i | 0 <= i < |items| :: items[i].tsDelete != 0 && g in items[i].graphs
  }

  /** What a graph carries itself; nothing when it is not in the table. */
  function Own(table: Table, g: Id): (r: Option<nat>) {
    if g in table then table[g] else None
  }

  /**
   Lowers the deletion time of each graph the item appears in. PHP 8 stops with an error at a graph that is missing
   from the table (strict, the false result); PHP 7.4 warns and creates an entry that holds nothing but the time.
   */
  method ApplyItem(item: Item, table: Table, strict: bool) returns (ok: bool, result: Table)
    requires item.tsDelete != 0
    ensures ok <==> !strict || forall g | g in item.graphs :: g in table
    ensures ok ==> forall g :: g in result <==> g in table || g in item.graphs
    ensures ok ==> forall g | g in result ::
                result[g] == if g in item.graphs then Lowered(Own(table, g), item.tsDelete) else Own(table, g)
  {
    result := table;
    for i := 0 to |item.graphs|
      invariant forall g :: g in result <==> g in table || g in item.graphs[..i]
      invariant strict ==> forall g | g in item.graphs[..i] :: g in table
      invariant forall g | g in result ::
          result[g] == if g in item.graphs[..i] then Lowered(Own(table, g), item.tsDelete) else Own(table, g)
    {
      var g := item.graphs[i];
      assert item.graphs[..i + 1] == item.graphs[..i] + [g];
      if strict && g !in result {
        return false, result;
      }
      if g !in result || result[g].None? {
        result := result[g := Some(item.tsDelete)];
      } else {
        var current := result[g].value;
        result := result[g := Some(if current > 0 then Min(item.tsDelete, current) else item.tsDelete)];
      }
    }
    assert item.graphs[..|item.graphs|] == item.graphs;
    ok := true;
  }

  function Min(x: nat, y: nat): (r: nat) {
    if x < y then x else y
  }

  /** The deletion time after one more time has been set. */
  function Lowered(current: Option<nat>, t: nat): (r: Option<nat>) {
    if current.Some? && current.value > 0 then Some(Min(t, current.value)) else Some(t)
  }

  lemma LoweringKeepsEarliest(items: seq<Item>, item: Item, own: Option<nat>, g: Id, r: Option<nat>)
    requires item.tsDelete > 0 && Earliest(items, own, g, r)
    ensures Earliest(items + [item], own, g, if g in item.graphs then Lowered(r, item.tsDelete) else r)
  {
    var all := items + [item];
    assert all[|items|] == item;
    forall t ensures Candidate(all, own, g, t) <==>
                     Candidate(items, own, g, t) || (t == item.tsDelete && g in item.graphs)
    {
      if i :| 0 <= i < |items| && items[i].tsDelete == t && g in items[i].graphs {
        assert all[i] == items[i];
      }
    }
    assert own.Some? && own.value > 0 ==> Candidate(items, own, g, own.value);
  }

  lemma IgnoringKeepsEarliest(items: seq<Item>, item: Item, own: Option<nat>, g: Id, r: Option<nat>)
    requires item.tsDelete == 0 && Earliest(items, own, g, r)
    ensures Earliest(items + [item], own, g, r)
  {
    var all := items + [item];
    forall t ensures Candidate(all, own, g, t) <==> Candidate(items, own, g, t) {
      if i :| 0 <= i < |items| && items[i].tsDelete == t && g in items[i].graphs {
        assert all[i] == items[i];
      }
    }
  }

  /** The table after some of the items: every graph in it or named by an item has its earliest time. */
  ghost predicate Aggregated(items: seq<Item>, table: Table, result: Table) {
    && (forall g :: g in result <==> g in table || Named(items, g))
    && (forall g | g in result :: Earliest(items, Own(table, g), g, result[g]))
  }

  lemma NamedStep(items: seq<Item>, item: Item, g: Id)
    ensures Named(items + [item], g) <==> Named(items, g) || (item.tsDelete != 0 && g in item.graphs)
  {
    var all := items + [item];
    assert all[|items|] == item;
    if i :| 0 <= i < |items| && items[i].tsDelete != 0 && g in items[i].graphs {
      assert all[i] == items[i];
    }
  }

  /** Before any item has named it, a graph outside the table has no time. */
  lemma UnnamedHasNone(items: seq<Item>, own: Option<nat>, g: Id)
    requires !Named(items, g)
    ensures Earliest(items, own, g, own)
  {
  }

  lemma AggregatedIgnoring(items: seq<Item>, item: Item, table: Table, result: Table)
    requires item.tsDelete == 0 && Aggregated(items, table, result)
    ensures Aggregated(items + [item], table, result)
  {
    forall g ensures Named(items + [item], g) <==> Named(items, g) {
      NamedStep(items, item, g);
    }
    forall g | g in result ensures Earliest(items + [item], Own(table, g), g, result[g]) {
      IgnoringKeepsEarliest(items, item, Own(table, g), g, result[g]);
    }
  }

  lemma AggregatedLowering(items: seq<Item>, item: Item, table: Table, before: Table, result: Table)
    requires item.tsDelete != 0 && Aggregated(items, table, before)
    requires forall g :: g in result <==> g in before || g in item.graphs
    requires forall g | g in result ::
               result[g] == if g in item.graphs then Lowered(Own(before, g), item.tsDelete) else Own(before, g)
    ensures Aggregated(items + [item], table, result)
  {
    forall g ensures Named(items + [item], g) <==> Named(items, g) || g in item.graphs {
      NamedStep(items, item, g);
    }
    forall g | g in result ensures Earliest(items + [item], Own(table, g), g, result[g]) {
      if g !in before {
        UnnamedHasNone(items, Own(table, g), g);
      }
      LoweringKeepsEarliest(items, item, Own(table, g), g, Own(before, g));
    }
  }

  lemma StraysStep(items: seq<Item>, item: Item, table: Table)
    ensures Strays(items + [item], table) <==>
            Strays(items, table) || (item.tsDelete != 0 && exists g | g in item.graphs :: g !in table)
  {
    var all := items + [item];
    assert all[|items|] == item;
    if i, g :| 0 <= i < |items| && g in items[i].graphs && items[i].tsDelete != 0 && g !in table {
      assert all[i] == items[i];
    }
  }

  lemma StraysRemain(items: seq<Item>, n: nat, table: Table)
    requires n <= |items| && Strays(items[..n], table)
    ensures Strays(items, table)
  {
    var i, g :| 0 <= i < n && g in items[..n][i].graphs && items[..n][i].tsDelete != 0 && g !in table;
    assert items[..n][i] == items[i];
  }

  lemma NoStraysNoNews(items: seq<Item>, table: Table, result: Table, g: Id)
    requires Aggregated(items, table, result) && !Strays(items, table)
    ensures g in result <==> g in table
  {
  }

  /**
   The page's loop over the discovered items. None stands for the fatal error of PHP 8 on a graph outside the table;
   PHP 7.4 ends with such graphs added to the table.
   */
  method Aggregate(items: seq<Item>, table: Table, strict: bool) returns (r: Option<Table>)
    ensures r.None? <==> strict && Strays(items, table)
    ensures r.Some? ==> Aggregated(items, table, r.value)
    ensures r.Some? && strict ==> r.value.Keys == table.Keys
  {
    var result := table;
    for i := 0 to |items|
      invariant Aggregated(items[..i], table, result)
      invariant strict ==> !Strays(items[..i], table)
    {
      assert items[..i + 1] == items[..i] + [items[i]];
      StraysStep(items[..i], items[i], table);
      ghost var before := result;
      if items[i].tsDelete == 0 {
        AggregatedIgnoring(items[..i], items[i], table, result);
        continue;
      }
      if strict {
        forall g ensures g in result <==> g in table {
          NoStraysNoNews(items[..i], table, result, g);
        }
      }
      var ok;
      ok, result := ApplyItem(items[i], result, strict);
      if !ok {
        StraysRemain(items, i + 1, table);
        return None;
      }
      AggregatedLowering(items[..i], items[i], table, before, result);
    }
    assert items[..|items|] == items;
    if strict {
      forall g ensures g in result <==> g in table {
        NoStraysNoNews(items, table, result, g);
      }
    }
    r := Some(result);
  }

  /** An item of one listed graph that also appears in another, unlisted one: fatal, or a row that is only a time. */
  method StrayGraph() returns (strict: Option<Table>, lenient: Option<Table>)
    ensures strict == None
    ensures lenient.Some? && lenient.value.Keys == {1, 2} && lenient.value[2] == Some(50)
  {
    var items, table := [Item(50, [1, 2])], map[1 := None];
    assert items[0].tsDelete != 0 && 2 in items[0].graphs && 2 !in table;
    strict := Aggregate(items, table, true);
    lenient := Aggregate(items, table, false);
    assert forall g :: Named(items, g) <==> g in [1, 2] by {
      assert forall g :: g in [1, 2] ==> g in items[0].graphs;
    }
    assert Candidate(items, None, 2, 50);
  }
}
