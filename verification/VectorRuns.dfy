/** Whole runs of vector operations: refinement, the cost of growth, and cursor scans. */
module VectorRuns {
  import opened Arithmetic
  import opened Options
  import opened Orders
  import opened VectorLaws
  import opened Vectors

  // ----- Every run of operations refines a run on sequences -----

  /** Every call of sort, uniq and setdiff brings its own comparator. */
  datatype Op<!T> =
    | Append(x: T)
    | AppendArray(xs: seq<T>)
    | RemoveNoOrder(index: int)
    | Remove(index: int)
    | SortOp(c: (T, T) -> int)
    | UniqOp(c: (T, T) -> int)
    | SetDiffOp(right: seq<T>, c: (T, T) -> int)
    | Reserve(size: nat)
    | Clear
    | Destroy

  /** What a caller can observe of a vector: its elements, its capacity, whether it has been destroyed. */
  datatype Model<T> = Model(elements: seq<T>, capacity: nat, live: bool)

  /** A vector that has just been created. */
  function Created<T>(): (m: Model<T>) {
    Model([], 0, true)
  }

  /** One operation on the model; None when the process exits, overflows an int, or grows a destroyed vector. */
  function Step<T>(m: Model<T>, op: Op<T>): (r: Option<Model<T>>) {
    var n := |m.elements|;
    match op
    case Append(x) =>
      if n < m.capacity then Some(m.(elements := m.elements + [x]))
      else if m.live && m.capacity <= INT_MAX / 3 then
        Some(m.(elements := m.elements + [x], capacity := Grown(m.capacity)))
      else None
    case AppendArray(xs) =>
      if n + |xs| <= m.capacity || (m.live && n + |xs| <= INT_MAX) then
        Some(m.(elements := m.elements + xs, capacity := Max(m.capacity, n + |xs|)))
      else None
    case RemoveNoOrder(i) =>
      if 0 <= i < n then Some(m.(elements := m.elements[i := m.elements[n - 1]][..n - 1])) else None
    case Remove(i) =>
      if 0 <= i < n then Some(m.(elements := m.elements[..i] + m.elements[i + 1..])) else None
    case SortOp(c) => Some(m.(elements := Sort(c, m.elements)))
    case UniqOp(c) => Some(m.(elements := Uniq(c, m.elements)))
    case SetDiffOp(right, c) =>
      if |right| <= INT_MAX then Some(m.(elements := Difference(c, m.elements, right))) else None
    case Reserve(size) =>
      if TruncateToInt(size) <= m.capacity then Some(m)
      else if m.live then Some(m.(capacity := TruncateToInt(size)))
      else None
    case Clear => Some(m.(elements := []))
    case Destroy => Some(Model([], 0, false))
  }

  /** The states an operation may lead to: qsort may leave any sorted permutation, everything else is determined. */
  ghost predicate Next<T>(m: Model<T>, op: Op<T>, m': Model<T>) {
    if op.SortOp? then
      && m' == m.(elements := m'.elements)
      && Sorted(op.c, m'.elements) && multiset(m'.elements) == multiset(m.elements)
    else
      Step(m, op) == Some(m')
  }

  /** The states of a vector from create on, while it goes through the operations as far as they are defined. */
  ghost predicate Trace<T>(ops: seq<Op<T>>, trace: seq<Model<T>>) {
    && 1 <= |trace| <= |ops| + 1
    && trace[0] == Created()
    && (forall i, j | 0 <= i < |trace| && j == i + 1 < |trace| :: Next(trace[i], ops[i], trace[j]))
    && (|trace| <= |ops| ==> Step(trace[|trace| - 1], ops[|trace| - 1]).None?)
  }

  /** The run that sorts with the stable sort. */
  function Run<T>(ops: seq<Op<T>>): (r: Option<Model<T>>) {
    if ops == [] then Some(Created())
    else match Run(ops[..|ops| - 1]) {
           case None => None
           case Some(m) => Step(m, ops[|ops| - 1])
         }
  }

  ghost predicate Consistent<T>(m: Model<T>) {
    && |m.elements| <= m.capacity <= INT_MAX
    && (!m.live ==> m.capacity == 0)
  }

  lemma {:induction false} UniqIsNoLonger<T>(c: (T, T) -> int, s: seq<T>)
    ensures |Uniq(c, s)| <= |s|
  {
    if |s| > 1 {
      UniqIsNoLonger(c, s[..|s| - 1]);
    }
  }

  lemma {:induction false} DifferenceIsNoLonger<T>(c: (T, T) -> int, l: seq<T>, r: seq<T>)
    ensures |Difference(c, l, r)| <= |l|
    decreases |l| + |r|
  {
    if l != [] && r != [] {
      if c(l[0], r[0]) < 0 {
        DifferenceIsNoLonger(c, l[1..], r);
      } else if c(l[0], r[0]) == 0 {
        DifferenceIsNoLonger(c, l[1..], r[1..]);
      } else {
        DifferenceIsNoLonger(c, l, r[1..]);
      }
    }
  }

  lemma NextKeepsConsistent<T>(m: Model<T>, op: Op<T>, m': Model<T>)
    requires Consistent(m) && Next(m, op, m')
    ensures Consistent(m')
    ensures !op.Destroy? ==> m.capacity <= m'.capacity && m'.live == m.live
  {
    match op
    case SortOp(_) => SameMultisetSameElements(m'.elements, m.elements);
    case UniqOp(c) => UniqIsNoLonger(c, m.elements);
    case SetDiffOp(right, c) => DifferenceIsNoLonger(c, m.elements, right);
    case _ =>
  }

  lemma TraceStep<T>(ops: seq<Op<T>>, trace: seq<Model<T>>, i: nat)
    requires Trace(ops, trace) && i + 1 < |trace|
    ensures i < |ops| && Next(trace[i], ops[i], trace[i + 1])
  {
    var j := i + 1;
    assert Next(trace[i], ops[i], trace[j]);
  }

  lemma {:induction false} ConsistentAt<T>(ops: seq<Op<T>>, trace: seq<Model<T>>, i: nat)
    requires Trace(ops, trace) && i < |trace|
    ensures Consistent(trace[i])
  {
    if i > 0 {
      ConsistentAt(ops, trace, i - 1);
      TraceStep(ops, trace, i - 1);
      NextKeepsConsistent(trace[i - 1], ops[i - 1], trace[i]);
    }
  }

  /** Over every run the capacity bounds the count, fits an int, and only destroy gives memory back. */
  lemma {:induction false} RunsStayConsistent<T>(ops: seq<Op<T>>, trace: seq<Model<T>>, i: nat, j: nat)
    requires Trace(ops, trace) && i <= j < |trace|
    ensures Consistent(trace[i]) && Consistent(trace[j])
    ensures (forall k | i <= k < j :: !ops[k].Destroy?) ==> trace[i].capacity <= trace[j].capacity
    decreases j
  {
    ConsistentAt(ops, trace, i);
    if i < j {
      var m := j - 1;
      RunsStayConsistent(ops, trace, i, m);
      TraceStep(ops, trace, m);
      NextKeepsConsistent(trace[m], ops[m], trace[j]);
    }
  }

  ghost predicate SortsByPreorders<T(!new)>(ops: seq<Op<T>>) {
    forall i | 0 <= i < |ops| :: ops[i].SortOp? ==> TotalPreorder(ops[i].c)
  }

  ghost predicate SortsByTotalOrders<T(!new)>(ops: seq<Op<T>>) {
    forall i | 0 <= i < |ops| :: ops[i].SortOp? ==> TotalOrder(ops[i].c)
  }

  /** Under a total order the sorted permutation qsort leaves is the only one there is. */
  lemma TotalOrderDetermines<T(!new)>(m: Model<T>, op: Op<T>, m': Model<T>)
    requires Next(m, op, m') && (op.SortOp? ==> TotalOrder(op.c))
    ensures Step(m, op) == Some(m')
  {
    if op.SortOp? {
      SortSorts(op.c, m.elements);
      SortIsPermutation(op.c, m.elements);
      SortedArrangementIsUnique(op.c, m'.elements, Sort(op.c, m.elements));
    }
  }

  lemma {:induction false} TraceFollowsRun<T(!new)>(ops: seq<Op<T>>, trace: seq<Model<T>>, i: nat)
    requires Trace(ops, trace) && SortsByTotalOrders(ops) && i < |trace|
    ensures Run(ops[..i]) == Some(trace[i])
  {
    if i > 0 {
      TraceFollowsRun(ops, trace, i - 1);
      assert ops[..i][..i - 1] == ops[..i - 1];
      TotalOrderDetermines(trace[i - 1], ops[i - 1], trace[i]);
    }
  }

  lemma {:induction false} RunStaysUndefined<T>(ops: seq<Op<T>>, i: nat)
    requires i <= |ops| && Run(ops[..i]).None?
    ensures Run(ops).None?
  {
    if i < |ops| {
      assert ops[..|ops| - 1][..i] == ops[..i];
      RunStaysUndefined(ops[..|ops| - 1], i);
    } else {
      assert ops[..i] == ops;
    }
  }

  lemma RunStopsAt<T>(ops: seq<Op<T>>, i: nat, m: Model<T>)
    requires i < |ops| && Run(ops[..i]) == Some(m) && Step(m, ops[i]).None?
    ensures Run(ops).None?
  {
    assert ops[..i + 1][..i] == ops[..i];
    RunStaysUndefined(ops, i + 1);
  }

  /** When every sort is by a total order, a run has one outcome. */
  lemma RunsAreDetermined<T(!new)>(ops: seq<Op<T>>, trace: seq<Model<T>>)
    requires Trace(ops, trace) && SortsByTotalOrders(ops)
    ensures Run(ops) == if |trace| == |ops| + 1 then Some(trace[|ops|]) else None
  {
    TraceFollowsRun(ops, trace, |trace| - 1);
    if |trace| <= |ops| {
      RunStopsAt(ops, |trace| - 1, trace[|trace| - 1]);
    } else {
      assert ops[..|ops|] == ops;
    }
  }

  ghost function Observe<T(0, !new)>(v: Vector<T>): (m: Model<T>)
    requires v.Valid()
    reads v, v.values
  {
    Model(v.Contents(), v.capacity, v.live)
  }

  method Subtract<T(0, !new)>(v: Vector<T>, right: seq<T>, c: (T, T) -> int)
    requires v.Valid() && |right| <= INT_MAX
    modifies v, v.values
    ensures v.Valid() && v.values == old(v.values) && v.live == old(v.live) && v.capacity == old(v.capacity)
    ensures v.Contents() == Difference(c, old(v.Contents()), right)
  {
    var rv := new Vector<T>();
    rv.AppendArray(right);
    assert rv.Contents() == right;
    v.SetDiff(rv, c);
  }

  /** The operations that may need memory. */
  method PerformGrowing<T(0, !new)>(v: Vector<T>, op: Op<T>) returns (ok: bool)
    requires v.Valid() && (op.Append? || op.AppendArray? || op.Reserve?)
    modifies v, v.values
    ensures v.Valid() && (v.values == old(v.values) || fresh(v.values))
    ensures ok <==> Step(old(Observe(v)), op).Some?
    ensures if ok then Step(old(Observe(v)), op) == Some(Observe(v)) else Observe(v) == old(Observe(v))
  {
    match op
    case Append(x) =>
      ok := v.count < v.capacity || (v.live && v.capacity <= INT_MAX / 3);
      if ok {
        var _ := v.Append(x);
      }
    case AppendArray(xs) =>
      ok := v.count + |xs| <= v.capacity || (v.live && v.count + |xs| <= INT_MAX);
      if ok {
        v.AppendArray(xs);
      }
    case Reserve(size) =>
      ok := TruncateToInt(size) <= v.capacity || v.live;
      if ok {
        v.Reserve(size);
      }
  }

  /** The operations that rearrange the elements they find. */
  method PerformInPlace<T(0, !new)>(v: Vector<T>, op: Op<T>) returns (ok: bool)
    requires v.Valid() && !op.Append? && !op.AppendArray? && !op.Reserve? && !op.SortOp?
    modifies v, v.values
    ensures v.Valid() && (v.values == old(v.values) || v.values == null)
    ensures ok <==> Step(old(Observe(v)), op).Some?
    ensures if ok then Step(old(Observe(v)), op) == Some(Observe(v)) else Observe(v) == old(Observe(v))
  {
    ok := true;
    match op
    case RemoveNoOrder(i) => ok := v.RemoveNoOrder(i);
    case Remove(i) => ok := v.Remove(i);
    case UniqOp(c) => v.UniqBy(c);
    case SetDiffOp(right, c) =>
      ok := |right| <= INT_MAX;
      if ok {
        Subtract(v, right, c);
      }
    case Clear => v.Clear();
    case Destroy => v.Destroy();
  }

  /**
   Performs one operation on the real vector exactly when the model says it is defined, with one of the effects
   the model allows. Only sorting asks anything of its comparator: the laws of a preorder, as qsort does.
   */
  method Perform<T(0, !new)>(v: Vector<T>, op: Op<T>) returns (ok: bool)
    requires v.Valid() && (op.SortOp? ==> TotalPreorder(op.c))
    modifies v, v.values
    ensures v.Valid() && (v.values == old(v.values) || v.values == null || fresh(v.values))
    ensures ok <==> Step(old(Observe(v)), op).Some?
    ensures if ok then Next(old(Observe(v)), op, Observe(v)) else Observe(v) == old(Observe(v))
  {
    if op.SortOp? {
      v.SortBy(op.c);
      ok := true;
    } else if op.Append? || op.AppendArray? || op.Reserve? {
      ok := PerformGrowing(v, op);
    } else {
      ok := PerformInPlace(v, op);
    }
  }

  /**
   A run on the real vector, from create on, goes through states the model allows and stops exactly at the first
   operation that is not defined. When every sort is by a total order its outcome is that of the model.
   */
  method Execute<T(0, !new)>(ops: seq<Op<T>>) returns (v: Vector<T>, ok: bool, ghost trace: seq<Model<T>>)
    requires SortsByPreorders(ops)
    ensures fresh(v) && v.Valid()
    ensures Trace(ops, trace) && Observe(v) == trace[|trace| - 1]
    ensures ok <==> |trace| == |ops| + 1
    ensures SortsByTotalOrders(ops) ==> Run(ops) == if ok then Some(Observe(v)) else None
  {
    v := new Vector<T>();
    ok := true;
    trace := [Created()];
    var i := 0;
    while ok && i < |ops|
      invariant v.Valid() && fresh(v) && (v.values == null || fresh(v.values))
      invariant 0 <= i <= |ops| && Trace(ops[..i], trace) && Observe(v) == trace[|trace| - 1]
      invariant ok <==> |trace| == i + 1
    {
      ok := Perform(v, ops[i]);
      ExtendTrace(ops, i, trace, Observe(v));
      if ok {
        trace := trace + [Observe(v)];
      }
      i := i + 1;
    }
    StoppedTrace(ops, i, trace);
    if SortsByTotalOrders(ops) {
      RunsAreDetermined(ops, trace);
    }
  }

  lemma ExtendTrace<T>(ops: seq<Op<T>>, i: nat, trace: seq<Model<T>>, m: Model<T>)
    requires i < |ops| && Trace(ops[..i], trace) && |trace| == i + 1
    ensures Next(trace[i], ops[i], m) ==> Trace(ops[..i + 1], trace + [m])
    ensures Step(trace[i], ops[i]).None? ==> Trace(ops[..i + 1], trace)
  {
  }

  /** A trace that stopped at an undefined operation is a trace of the whole run. */
  lemma StoppedTrace<T>(ops: seq<Op<T>>, i: nat, trace: seq<Model<T>>)
    requires i <= |ops| && Trace(ops[..i], trace) && (|trace| <= i || i == |ops|)
    ensures Trace(ops, trace)
  {
    assert ops[..|ops|] == ops;
  }

  // ----- The price of growth -----

  /** The capacity of a vector that has only seen n single appends. */
  function CapacityAfter(n: nat): (r: nat) {
    if n == 0 then 0
    else if CapacityAfter(n - 1) == n - 1 then Grown(n - 1)
    else CapacityAfter(n - 1)
  }

  /** The elements its reallocations have carried over in total. */
  function MovedAfter(n: nat): (r: nat) {
    if n == 0 then 0
    else MovedAfter(n - 1) + if CapacityAfter(n - 1) == n - 1 then n - 1 else 0
  }

  /** Growing by half keeps appending cheap: n appends move at most 4n elements in all. */
  lemma {:induction false} AppendsAreAmortised(n: nat)
    ensures MovedAfter(n) <= 4 * n
    ensures n <= CapacityAfter(n)
    ensures n > 0 ==> MovedAfter(n) + 96 <= 3 * CapacityAfter(n)
  {
    if n > 0 {
      AppendsAreAmortised(n - 1);
    }
  }

  /** Single appends stop being defined when the first capacity beyond INT_MAX / 3 is full. */
  ghost function AppendLimit(): (r: nat) {
    CapacityAfter(INT_MAX / 3 + 1)
  }

  lemma {:induction false} CapacityStays(m: nat, n: nat)
    requires m <= n <= CapacityAfter(m)
    ensures CapacityAfter(n) == CapacityAfter(m)
  {
    if m < n {
      CapacityStays(m, n - 1);
    }
  }

  /** With n appends behind it a vector can grow or has room exactly below the first capacity beyond `third`. */
  lemma RoomExactly(third: nat, n: nat)
    requires n <= CapacityAfter(third + 1)
    ensures (n < CapacityAfter(n) || CapacityAfter(n) <= third) <==> n < CapacityAfter(third + 1)
    ensures n <= CapacityAfter(n)
  {
    AppendsAreAmortised(n);
    if n > third {
      CapacityStays(third + 1, n);
    } else {
      AppendsAreAmortised(third + 1);
    }
  }

  /** After n appends another one is defined exactly below the limit. */
  lemma AppendFitsExactly(n: nat)
    requires n <= AppendLimit()
    ensures (n < CapacityAfter(n) || CanGrow(CapacityAfter(n))) <==> n < AppendLimit()
    ensures n <= CapacityAfter(n)
  {
    RoomExactly(INT_MAX / 3, n);
  }

  /** The vector after appending all of xs one by one. */
  ghost predicate Appended<T(0, !new)>(v: Vector<T>, xs: seq<T>)
    reads v, v.values
  {
    && v.Valid() && v.live && v.Contents() == xs
    && v.capacity == CapacityAfter(|xs|) && v.moved == MovedAfter(|xs|)
  }

  method AppendNext<T(0, !new)>(v: Vector<T>, x: T, ghost xs: seq<T>) returns (ok: bool)
    requires Appended(v, xs) && |xs| <= AppendLimit()
    modifies v, v.values
    ensures ok <==> |xs| < AppendLimit()
    ensures Appended(v, if ok then xs + [x] else xs)
    ensures v.values == old(v.values) || fresh(v.values)
  {
    AppendFitsExactly(|xs|);
    ok := v.count < v.capacity || v.capacity <= INT_MAX / 3;
    if ok {
      var _ := v.Append(x);
    }
  }

  /** Appending one by one works up to the limit, whatever the elements, and costs what is modelled. */
  method AppendAll<T(0, !new)>(xs: seq<T>) returns (v: Vector<T>, ok: bool)
    ensures fresh(v)
    ensures ok <==> |xs| <= AppendLimit()
    ensures Appended(v, if ok then xs else xs[..AppendLimit()]) && v.moved <= 4 * v.count
  {
    v := new Vector<T>();
    var i := 0;
    while i < |xs|
      invariant 0 <= i <= |xs| && i <= AppendLimit()
      invariant fresh(v) && (v.values == null || fresh(v.values))
      invariant Appended(v, xs[..i])
    {
      var room := AppendNext(v, xs[i], xs[..i]);
      if !room {
        break;
      }
      assert xs[..i] + [xs[i]] == xs[..i + 1];
      i := i + 1;
    }
    AppendsAreAmortised(i);
    assert xs[..|xs|] == xs;
    ok := i == |xs|;
  }

  /** append_array reserves exactly what it needs, so feeding it single elements moves n(n - 1)/2 of them. */
  method AppendArrayOneByOne<T(0, !new)>(xs: seq<T>) returns (v: Vector<T>)
    requires |xs| <= INT_MAX
    ensures fresh(v) && v.Valid() && v.Contents() == xs
    ensures v.capacity == |xs| && 2 * v.moved == |xs| * (|xs| - 1)
  {
    v := new Vector<T>();
    for i := 0 to |xs|
      invariant v.Valid() && v.live && fresh(v) && (v.values == null || fresh(v.values))
      invariant v.Contents() == xs[..i]
      invariant v.capacity == i && 2 * v.moved == i * (i - 1)
    {
      v.AppendArray([xs[i]]);
    }
    assert xs[..|xs|] == xs;
  }

  // ----- One cursor for many queries -----

  /** Every element before the cursor is less than x. */
  ghost predicate Passed<T>(c: (T, T) -> int, s: seq<T>, cursor: int, x: T) {
    && 0 <= cursor <= |s|
    && forall k | 0 <= k < cursor :: c(s[k], x) < 0
  }

  lemma QueriesStayAhead<T(!new)>(c: (T, T) -> int, s: seq<T>, cursor: int, x: T, x': T)
    requires TotalPreorder(c) && Passed(c, s, cursor, x) && c(x, x') <= 0
    ensures Passed(c, s, cursor, x')
  {
    forall k | 0 <= k < cursor ensures c(s[k], x') < 0 {
      Transitive(c, s[k], x, x');
    }
  }

  /** An element at or after the cursor equals x only if the cursor itself stands on such an element. */
  lemma CursorDecides<T(!new)>(c: (T, T) -> int, s: seq<T>, x: T, index: nat)
    requires TotalPreorder(c) && Sorted(c, s)
    requires Passed(c, s, index, x)
    requires index < |s| ==> c(s[index], x) >= 0
    ensures (index < |s| && c(s[index], x) == 0) <==> Occurs(c, s, x)
  {
    if index < |s| {
      assert s[index] in s;
      if c(s[index], x) > 0 {
        AllAbove(c, s, x, index);
      }
    }
  }

  /** One query of a scan: everything before the cursor is already known to be too small. */
  method Advance<T(0, !new)>(v: Vector<T>, c: (T, T) -> int, x: T, cursor: int, ghost s: seq<T>)
    returns (hit: bool, next: int, cost: nat)
    requires v.Valid() && v.Contents() == s
    requires TotalPreorder(c) && Sorted(c, s) && Passed(c, s, cursor, x)
    ensures cursor <= next <= |s| && cost <= next - cursor + 1
    ensures hit <==> Occurs(c, s, x)
    ensures Passed(c, s, next, x)
  {
    hit, next, cost := v.CursorSearch(c, x, cursor);
    CursorDecides(c, s, x, next);
  }

  ghost predicate Answered<T>(c: (T, T) -> int, s: seq<T>, queries: seq<T>, found: seq<bool>) {
    && |found| <= |queries|
    && forall k | 0 <= k < |found| :: found[k] <==> Occurs(c, s, queries[k])
  }

  /** The positions the cursor took after each of n queries never decrease and end at most at `last`. */
  ghost predicate Advanced(cursors: seq<int>, n: nat, last: int) {
    && |cursors| == n
    && (forall k | 0 <= k < n :: cursors[k] <= last)
    && (forall j, k | 0 <= j < k < n :: cursors[j] <= cursors[k])
  }

  lemma AnsweredOneMore<T>(c: (T, T) -> int, s: seq<T>, queries: seq<T>, found: seq<bool>, hit: bool)
    requires |found| < |queries| && Answered(c, s, queries, found)
    requires hit <==> Occurs(c, s, queries[|found|])
    ensures Answered(c, s, queries, found + [hit])
  {
  }

  lemma AdvancedOneMore(cursors: seq<int>, last: int, next: int)
    requires Advanced(cursors, |cursors|, last) && last <= next
    ensures Advanced(cursors + [next], |cursors| + 1, next)
  {
  }

  /**
   Ascending queries against a sorted vector through one cursor: each answer is right, the cursor never moves
   back, and the whole scan costs at most one comparison per element and per query.
   */
  method Scan<T(0, !new)>(v: Vector<T>, queries: seq<T>, c: (T, T) -> int)
    returns (found: seq<bool>, cursors: seq<int>, comparisons: nat)
    requires v.Valid() && TotalPreorder(c) && Sorted(c, v.Contents()) && Sorted(c, queries)
    ensures |found| == |queries| && Answered(c, v.Contents(), queries, found)
    ensures exists last :: Advanced(cursors, |queries|, last)
    ensures comparisons <= v.count + |queries|
  {
    found, cursors, comparisons := [], [], 0;
    var cursor := 0;
    ghost var s := v.Contents();
    for i := 0 to |queries|
      invariant |found| == i && comparisons <= cursor + i
      invariant 0 <= cursor <= |s| && v.Contents() == s
      invariant Answered(c, s, queries, found)
      invariant Advanced(cursors, i, cursor)
      invariant i < |queries| ==> Passed(c, s, cursor, queries[i])
    {
      var hit, next, cost := Advance(v, c, queries[i], cursor, s);
      if i + 1 < |queries| {
        QueriesStayAhead(c, s, next, queries[i], queries[i + 1]);
      }
      AnsweredOneMore(c, s, queries, found, hit);
      AdvancedOneMore(cursors, cursor, next);
      found, cursors, comparisons := found + [hit], cursors + [next], comparisons + cost;
      cursor := next;
    }
  }
}
