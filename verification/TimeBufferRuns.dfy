/** Whole runs of the time series ring: a bounded queue of two ends, and exactly when its times stay ascending. */
module TimeBufferRuns {
  import opened TimeBuffer

  datatype Op<D> =
    | AddNewest(v: Slot<D>)
    | AddOldest(v: Slot<D>)
    | DropOldest

  /** Whether a queue of the given size lets the operation happen. */
  predicate Accepts<D>(s: seq<Slot<D>>, size: int, op: Op<D>) {
    match op
    case AddNewest(v) =>
      s == [] || ((s[|s| - 1].time == JAN_2038 || s[|s| - 1].time <= v.time) && |s| < size)
    case AddOldest(v) =>
      s == [] || (!(0 < s[0].time < v.time) && |s| < size)
    case DropOldest => s != []
  }

  function Step<D>(s: seq<Slot<D>>, size: int, op: Op<D>): (r: seq<Slot<D>>) {
    if !Accepts(s, size, op) then s
    else match op
         case AddNewest(v) => s + [v]
         case AddOldest(v) => [v] + s
         case DropOldest => s[1..]
  }

  function Run<D>(size: int, ops: seq<Op<D>>): (r: seq<Slot<D>>) {
    if ops == [] then [] else Step(Run(size, ops[..|ops| - 1]), size, ops[|ops| - 1])
  }

  /** The ring counts no more values than it has slots. */
  ghost predicate Within<D>(r: Ring<D>, size: int)
    reads r
  {
    r.Valid() && r.size == size && r.count <= size
  }

  method Perform<D>(r: Ring<D>, op: Op<D>, ghost size: int) returns (ok: bool)
    requires 2 <= size && Within(r, size)
    modifies r, r.data
    ensures Within(r, size) && r.data == old(r.data)
    ensures ok <==> Accepts(old(r.Contents()), size, op)
    ensures r.Contents() == Step(old(r.Contents()), size, op)
  {
    match op
    case AddNewest(v) => ok := r.AddToHead(v);
    case AddOldest(v) => ok := r.AddToTail(v);
    case DropOldest => ok := r.FreeTail();
  }

  /** The answers the queue gives to the first of the operations. */
  ghost predicate Answers<D>(size: int, ops: seq<Op<D>>, accepted: seq<bool>) {
    && |accepted| <= |ops|
    && forall i | 0 <= i < |accepted| :: accepted[i] <==> Accepts(Run(size, ops[..i]), size, ops[i])
  }

  lemma AnswerOne<D>(size: int, ops: seq<Op<D>>, accepted: seq<bool>, ok: bool)
    requires |accepted| < |ops| && Answers(size, ops, accepted)
    requires ok <==> Accepts(Run(size, ops[..|accepted|]), size, ops[|accepted|])
    ensures Answers(size, ops, accepted + [ok])
  {
  }

  lemma RunStep<D>(size: int, ops: seq<Op<D>>, i: nat)
    requires i < |ops|
    ensures Run(size, ops[..i + 1]) == Step(Run(size, ops[..i]), size, ops[i])
  {
    assert ops[..i + 1][..i] == ops[..i];
  }

  /** A ring of at least two slots goes through the states of the queue, and refuses what the queue refuses. */
  method Drive<D>(size: int, zero: D, ops: seq<Op<D>>) returns (r: Ring<D>, accepted: seq<bool>)
    requires 2 <= size
    ensures fresh(r) && Within(r, size) && r.Contents() == Run(size, ops)
    ensures |accepted| == |ops| && Answers(size, ops, accepted)
  {
    r := new Ring<D>(size, zero);
    accepted := [];
    for i := 0 to |ops|
      invariant fresh(r) && fresh(r.data) && Within(r, size)
      invariant r.Contents() == Run(size, ops[..i])
      invariant |accepted| == i && Answers(size, ops, accepted)
    {
      RunStep(size, ops, i);
      var ok := Perform(r, ops[i], size);
      AnswerOne(size, ops, accepted, ok);
      accepted := accepted + [ok];
    }
    assert ops[..|ops|] == ops;
  }

  /** All times in the operations are among those allowed. */
  ghost predicate Uses<D>(ops: seq<Op<D>>, allowed: int -> bool) {
    forall i | 0 <= i < |ops| :: !ops[i].DropOldest? ==> allowed(ops[i].v.time)
  }

  /** No allowed time lets in a value on the wrong side of it. */
  ghost predicate Harmless(allowed: int -> bool) {
    && (forall t | allowed(t) && t < JAN_2038 :: !allowed(JAN_2038))
    && (forall x, t | allowed(x) && allowed(t) :: x < t ==> 0 < x)
  }

  ghost predicate AllAllowed<D>(s: seq<Slot<D>>, allowed: int -> bool) {
    forall i | 0 <= i < |s| :: allowed(s[i].time)
  }

  lemma StepKeepsAscending<D>(s: seq<Slot<D>>, size: int, op: Op<D>, allowed: int -> bool)
    requires Harmless(allowed) && Ascending(s) && AllAllowed(s, allowed)
    requires !op.DropOldest? ==> allowed(op.v.time)
    ensures Ascending(Step(s, size, op)) && AllAllowed(Step(s, size, op), allowed)
  {
    match op
    case AddNewest(v) => AppendKeepsOrderExactly(s, v);
    case AddOldest(v) => PrependKeepsOrderExactly(v, s);
    case DropOldest =>
  }

  lemma {:induction false} RunsStayAscending<D>(size: int, ops: seq<Op<D>>, allowed: int -> bool)
    requires Harmless(allowed) && Uses(ops, allowed)
    ensures Ascending(Run(size, ops)) && AllAllowed(Run(size, ops), allowed)
  {
    if ops != [] {
      RunsStayAscending(size, ops[..|ops| - 1], allowed);
      StepKeepsAscending(Run(size, ops[..|ops| - 1]), size, ops[|ops| - 1], allowed);
    }
  }

  lemma RunOfTwo<D>(size: int, first: Op<D>, second: Op<D>)
    ensures Run(size, [first, second]) == Step(Step([], size, first), size, second)
  {
    assert [first, second][..1] == [first] && [first][..0] == [];
    assert Run(size, [first]) == Step([], size, first);
  }

  /** Values of these two times, the one at the wrong end of the other, leave the ring out of order. */
  lemma HarmShows<D>(size: int, d: D, x: int, t: int) returns (ops: seq<Op<D>>)
    requires 2 <= size && x != t
    requires (x == JAN_2038 && t < x) || (x <= 0 && x < t)
    ensures |ops| == 2 && !ops[0].DropOldest? && !ops[1].DropOldest?
    ensures ops[0].v == Slot(x, d) && ops[1].v == Slot(t, d)
    ensures !Ascending(Run(size, ops))
  {
    var first := AddNewest(Slot(x, d));
    assert Step([], size, first) == [Slot(x, d)];
    if t < x {
      ops := [first, AddNewest(Slot(t, d))];
      RunOfTwo(size, ops[0], ops[1]);
      AppendKeepsOrderExactly([Slot(x, d)], Slot(t, d));
    } else {
      ops := [first, AddOldest(Slot(t, d))];
      RunOfTwo(size, ops[0], ops[1]);
      PrependKeepsOrderExactly(Slot(t, d), [Slot(x, d)]);
    }
  }

  /**
   Every run on values with allowed times keeps them ascending, so that the search finds the value in force,
   exactly when January 2038 is not allowed next to an earlier time and no time that is not positive is allowed
   next to a later one.
   */
  lemma TimesStayAscendingExactly<D(!new)>(size: int, d: D, allowed: int -> bool)
    requires 2 <= size
    ensures (forall ops: seq<Op<D>> | Uses(ops, allowed) :: Ascending(Run(size, ops))) <==> Harmless(allowed)
  {
    if Harmless(allowed) {
      forall ops: seq<Op<D>> | Uses(ops, allowed) ensures Ascending(Run(size, ops)) {
        RunsStayAscending(size, ops, allowed);
      }
    } else if t :| allowed(t) && t < JAN_2038 && allowed(JAN_2038) {
      var ops := HarmShows(size, d, JAN_2038, t);
      assert Uses(ops, allowed);
    } else {
      var x, t :| allowed(x) && allowed(t) && x < t && x <= 0;
      var ops := HarmShows(size, d, x, t);
      assert Uses(ops, allowed);
    }
  }
}
