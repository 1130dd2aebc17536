/** The item list of ui/items.php: subfilters that switch themselves off rather than show an empty list. */
module ItemSubfilters {
  import opened Filters

  datatype Tag = Tag(name: string, value: string)

  datatype Item = Item(
    hosts: set<nat>, kind: nat, valueType: nat, status: nat, state: nat, templateId: nat, flags: nat,
    triggers: nat, history: string, trends: string, delay: string, tags: set<Tag>)

  /** The values selected in each subfilter; an empty selection switches the subfilter off. */
  datatype Request = Request(
    hosts: set<nat>, kinds: set<nat>, valueTypes: set<nat>, status: set<nat>, state: set<nat>,
    inherited: set<nat>, discovered: set<nat>, withTriggers: set<nat>,
    history: set<string>, trends: set<string>, interval: set<string>, tags: set<Tag>)

  datatype Name =
    | Hosts | Kinds | ValueTypes | Status | State | Inherited | Discovered | WithTriggers
    | History | Trends | Interval | Tags

  const FLAG_NORMAL: nat := 0
  const FLAG_CREATED: nat := 4

  /** The subfilters the page can reset. The tag subfilter is not among them. */
  const RESETTABLE: set<Name> :=
    {Kinds, ValueTypes, Status, State, Inherited, WithTriggers, Hosts, Interval, History, Trends, Discovered}

  /** The verdict of one subfilter on one item. */
  function Verdict(r: Request, i: Item, n: Name): (ok: bool) {
    match n
    case Hosts => r.hosts == {} || r.hosts * i.hosts != {}
    case Kinds => r.kinds == {} || i.kind in r.kinds
    case ValueTypes => r.valueTypes == {} || i.valueType in r.valueTypes
    case Status => r.status == {} || i.status in r.status
    case State => r.state == {} || i.state in r.state
    case Inherited => r.inherited == {} || (i.templateId == 0 && 0 in r.inherited) || (i.templateId > 0 && 1 in r.inherited)
    case Discovered =>
      r.discovered == {} || (i.flags == FLAG_NORMAL && 0 in r.discovered) || (i.flags == FLAG_CREATED && 1 in r.discovered)
    case WithTriggers =>
      r.withTriggers == {} || (i.triggers == 0 && 0 in r.withTriggers) || (i.triggers > 0 && 1 in r.withTriggers)
    case History => r.history == {} || i.history in r.history
    case Trends => r.trends == {} || (i.trends != "" && i.trends in r.trends)
    case Interval => r.interval == {} || (i.delay != "" && i.delay in r.interval)
    case Tags => r.tags == {} || r.tags * i.tags != {}
  }

  ghost predicate Passes(r: Request, i: Item) {
    forall n: Name :: Verdict(r, i, n)
  }

  // ----- What the subfilters mean, said of the fields alone -----

  /** The item carries one of the selected tags, or none is selected. */
  ghost predicate TagsMeet(r: Request, i: Item) {
    r.tags != {} ==> exists t :: t in r.tags && t in i.tags
  }

  /** Every selection that is not empty has the item's value of that field in it. */
  ghost predicate Meets(r: Request, i: Item) {
    && (r.hosts != {} ==> exists h :: h in r.hosts && h in i.hosts)
    && (r.kinds != {} ==> i.kind in r.kinds)
    && (r.valueTypes != {} ==> i.valueType in r.valueTypes)
    && (r.status != {} ==> i.status in r.status)
    && (r.state != {} ==> i.state in r.state)
    && (r.inherited != {} ==> (if i.templateId == 0 then 0 else 1) in r.inherited)
    && (r.discovered != {} ==>
          (i.flags == FLAG_NORMAL || i.flags == FLAG_CREATED) && (if i.flags == FLAG_NORMAL then 0 else 1) in r.discovered)
    && (r.withTriggers != {} ==> (if i.triggers == 0 then 0 else 1) in r.withTriggers)
    && (r.history != {} ==> i.history in r.history)
    && (r.trends != {} ==> i.trends != "" && i.trends in r.trends)
    && (r.interval != {} ==> i.delay != "" && i.delay in r.interval)
    && TagsMeet(r, i)
  }

  lemma CommonElement<T>(a: set<T>, b: set<T>)
    ensures a * b != {} <==> exists x :: x in a && x in b
  {
    if a * b != {} {
      var x :| x in a * b;
    }
    if x :| x in a && x in b {
      assert x in a * b;
    }
  }

  /** The twelve verdicts together say that the item's fields are among the selected values. */
  lemma VerdictsMean(r: Request, i: Item)
    ensures Passes(r, i) <==> Meets(r, i)
    ensures Verdict(r, i, Tags) <==> TagsMeet(r, i)
  {
    CommonElement(r.hosts, i.hosts);
    CommonElement(r.tags, i.tags);
    if Passes(r, i) {
      assert Verdict(r, i, Hosts) && Verdict(r, i, Kinds) && Verdict(r, i, ValueTypes) && Verdict(r, i, Status);
      assert Verdict(r, i, State) && Verdict(r, i, Inherited) && Verdict(r, i, Discovered);
      assert Verdict(r, i, WithTriggers) && Verdict(r, i, History) && Verdict(r, i, Trends);
      assert Verdict(r, i, Interval) && Verdict(r, i, Tags);
    }
  }

  /** The request with every selection empty but the one of the given subfilter. */
  function Only(r: Request, n: Name): (q: Request) {
    var none := Request({}, {}, {}, {}, {}, {}, {}, {}, {}, {}, {}, {});
    match n
    case Hosts => none.(hosts := r.hosts)
    case Kinds => none.(kinds := r.kinds)
    case ValueTypes => none.(valueTypes := r.valueTypes)
    case Status => none.(status := r.status)
    case State => none.(state := r.state)
    case Inherited => none.(inherited := r.inherited)
    case Discovered => none.(discovered := r.discovered)
    case WithTriggers => none.(withTriggers := r.withTriggers)
    case History => none.(history := r.history)
    case Trends => none.(trends := r.trends)
    case Interval => none.(interval := r.interval)
    case Tags => none.(tags := r.tags)
  }

  /** Each verdict is about its own selection: it is what the item would meet if nothing else were selected. */
  lemma VerdictIsItsOwn(r: Request, i: Item, n: Name)
    ensures Verdict(r, i, n) <==> Meets(Only(r, n), i)
  {
    CommonElement(r.hosts, i.hosts);
    CommonElement(r.tags, i.tags);
  }

  /** An item with the value of one field replaced by that of another item. */
  function WithField(i: Item, j: Item, n: Name): (k: Item) {
    match n
    case Hosts => i.(hosts := j.hosts)
    case Kinds => i.(kind := j.kind)
    case ValueTypes => i.(valueType := j.valueType)
    case Status => i.(status := j.status)
    case State => i.(state := j.state)
    case Inherited => i.(templateId := j.templateId)
    case Discovered => i.(flags := j.flags)
    case WithTriggers => i.(triggers := j.triggers)
    case History => i.(history := j.history)
    case Trends => i.(trends := j.trends)
    case Interval => i.(delay := j.delay)
    case Tags => i.(tags := j.tags)
  }

  /** Changing one field changes no verdict but its own, and that one becomes the verdict on the new value. */
  lemma VerdictsAreIndependent(r: Request, i: Item, j: Item, n: Name, m: Name)
    ensures Verdict(r, WithField(i, j, n), m) == Verdict(r, if m == n then j else i, m)
  {
    match n
    case Hosts => case Kinds => case ValueTypes => case Status => case State => case Inherited =>
    case Discovered => case WithTriggers => case History => case Trends => case Interval => case Tags =>
  }

  /** An item with the verdicts the page stores in it. */
  datatype Row = Row(item: Item, verdicts: map<Name, bool>)

  ghost predicate AllTrue(row: Row) {
    forall n | n in row.verdicts :: row.verdicts[n]
  }

  lemma EveryName(n: Name)
    ensures n in RESETTABLE + {Tags} && (n in RESETTABLE <==> n != Tags)
  {
    match n
    case Hosts => case Kinds => case ValueTypes => case Status => case State => case Inherited =>
    case Discovered => case WithTriggers => case History => case Trends => case Interval => case Tags =>
  }

  /** The row holds the verdicts of the request, with the names in `cleared` set to true. */
  ghost predicate Judged(r: Request, i: Item, row: Row, cleared: set<Name>) {
    && row.item == i
    && forall n: Name :: n in row.verdicts && row.verdicts[n] == (n in cleared || Verdict(r, i, n))
  }

  lemma JudgedRows(r: Request, i: Item, row: Row)
    ensures Judged(r, i, row, {}) ==> (AllTrue(row) <==> Passes(r, i))
    ensures Judged(r, i, row, RESETTABLE) ==> (AllTrue(row) <==> Verdict(r, i, Tags))
  {
    forall n: Name ensures n in RESETTABLE <==> n != Tags {
      EveryName(n);
    }
  }

  // ----- The stages of the page -----

  ghost function TagsOf(items: seq<Item>): (r: set<Tag>) {
    set i, t | 0 <= i < |items| && t in items[i].tags :: t
  }

  /** Drops the selected tags that no item carries any more. */
  method PruneTags(selected: set<Tag>, items: seq<Item>) returns (tags: set<Tag>)
    ensures tags == selected * TagsOf(items)
  {
    if selected == {} {
      return {};
    }
    var itemTags := {};
    for i := 0 to |items|
      invariant itemTags == TagsOf(items[..i])
    {
      itemTags := itemTags + items[i].tags;
    }
    assert items[..|items|] == items;
    tags := selected * itemTags;
  }

  lemma JudgedAtFirst(r: Request, i: Item, verdicts: map<Name, bool>)
    requires verdicts.Keys == RESETTABLE + {Tags}
    requires forall n | n in verdicts :: verdicts[n] == Verdict(r, i, n)
    ensures Judged(r, i, Row(i, verdicts), {})
  {
    forall n: Name ensures n in verdicts {
      EveryName(n);
    }
  }

  /** The verdicts stored for an item, one by one: each says whether the item meets its selection alone. */
  ghost predicate JudgedByFields(r: Request, i: Item, row: Row) {
    forall n: Name :: n in row.verdicts && (row.verdicts[n] <==> Meets(Only(r, n), i))
  }

  lemma JudgedMeansFields(r: Request, i: Item, row: Row)
    requires Judged(r, i, row, {})
    ensures JudgedByFields(r, i, row)
  {
    forall n: Name ensures n in row.verdicts && (row.verdicts[n] <==> Meets(Only(r, n), i)) {
      VerdictIsItsOwn(r, i, n);
    }
  }

  method EvaluateAll(r: Request, items: seq<Item>) returns (rows: seq<Row>)
    ensures |rows| == |items| && forall i | 0 <= i < |items| :: Judged(r, items[i], rows[i], {})
    ensures forall i | 0 <= i < |items| :: JudgedByFields(r, items[i], rows[i])
  {
    rows := [];
    for i := 0 to |items|
      invariant |rows| == i && forall k | 0 <= k < i :: Judged(r, items[k], rows[k], {})
    {
      var verdicts := map n: Name | n in RESETTABLE + {Tags} :: Verdict(r, items[i], n);
      JudgedAtFirst(r, items[i], verdicts);
      rows := rows + [Row(items[i], verdicts)];
    }
    forall i | 0 <= i < |items| ensures JudgedByFields(r, items[i], rows[i]) {
      JudgedMeansFields(r, items[i], rows[i]);
    }
  }

  method IsAllTrue(row: Row) returns (ok: bool)
    ensures ok <==> AllTrue(row)
  {
    var left := row.verdicts.Keys;
    while left != {}
      invariant left <= row.verdicts.Keys
      invariant forall n | n in row.verdicts && n !in left :: row.verdicts[n]
    {
      var n :| n in left;
      if !row.verdicts[n] {
        return false;
      }
      left := left - {n};
    }
    ok := true;
  }

  method AnyPasses(rows: seq<Row>) returns (ok: bool)
    ensures ok <==> exists i | 0 <= i < |rows| :: AllTrue(rows[i])
  {
    for i := 0 to |rows|
      invariant forall k | 0 <= k < i :: !AllTrue(rows[k])
    {
      ok := IsAllTrue(rows[i]);
      if ok {
        return true;
      }
    }
    ok := false;
  }

  /** Sets one resettable subfilter after the other to true in every row. */
  method Reset(r: Request, items: seq<Item>, judged: seq<Row>) returns (rows: seq<Row>)
    requires |judged| == |items| && forall i | 0 <= i < |items| :: Judged(r, items[i], judged[i], {})
    ensures |rows| == |items| && forall i | 0 <= i < |items| :: Judged(r, items[i], rows[i], RESETTABLE)
  {
    rows := judged;
    var left := RESETTABLE;
    while left != {}
      invariant left <= RESETTABLE && |rows| == |items|
      invariant forall i | 0 <= i < |items| :: Judged(r, items[i], rows[i], RESETTABLE - left)
    {
      var n :| n in left;
      rows := ClearName(r, items, rows, n, RESETTABLE - left);
      left := left - {n};
      assert RESETTABLE - left == RESETTABLE - (left + {n}) + {n};
    }
    assert RESETTABLE - {} == RESETTABLE;
  }

  lemma ClearedRow(r: Request, i: Item, row: Row, n: Name, cleared: set<Name>)
    requires Judged(r, i, row, cleared)
    ensures Judged(r, i, row.(verdicts := row.verdicts[n := true]), cleared + {n})
  {
  }

  method ClearName(r: Request, items: seq<Item>, before: seq<Row>, n: Name, ghost cleared: set<Name>)
    returns (rows: seq<Row>)
    requires |before| == |items|
    requires forall i | 0 <= i < |items| :: Judged(r, items[i], before[i], cleared)
    ensures |rows| == |items| && forall i | 0 <= i < |items| :: Judged(r, items[i], rows[i], cleared + {n})
  {
    rows := before;
    for i := 0 to |items|
      invariant |rows| == |items|
      invariant forall k | 0 <= k < i :: Judged(r, items[k], rows[k], cleared + {n})
      invariant forall k | i <= k < |items| :: rows[k] == before[k]
    {
      ClearedRow(r, items[i], rows[i], n, cleared);
      rows := rows[i := rows[i].(verdicts := rows[i].verdicts[n := true])];
    }
  }

  /** Drops the rows that some subfilter hides. */
  method Remove(rows: seq<Row>, ghost items: seq<Item>, ghost keep: Item -> bool) returns (shown: seq<Item>)
    requires |rows| == |items|
    requires forall i | 0 <= i < |rows| :: rows[i].item == items[i] && (AllTrue(rows[i]) <==> keep(items[i]))
    ensures shown == Filter(items, keep)
  {
    shown := [];
    for i := 0 to |rows|
      invariant shown == Filter(items[..i], keep)
    {
      assert items[..i + 1][..i] == items[..i];
      var ok := IsAllTrue(rows[i]);
      if ok {
        shown := shown + [rows[i].item];
      }
    }
    assert items[..|items|] == items;
  }

  /** After pruning, every selected tag is carried by some item. */
  lemma PrunedTagsMatch(r: Request, items: seq<Item>)
    requires r.tags <= TagsOf(items) && items != []
    ensures exists i | i in items :: Verdict(r, i, Tags)
  {
    if r.tags == {} {
      assert Verdict(r, items[0], Tags);
    } else {
      var t :| t in r.tags;
      var i :| 0 <= i < |items| && t in items[i].tags;
      assert t in r.tags * items[i].tags;
      assert Verdict(r, items[i], Tags);
    }
  }

  /**
   The whole page. The list shown is never empty unless there are no items: if some item passes every
   subfilter, exactly the passing items are shown; otherwise everything but the tag subfilter is dropped, and
   since pruning left only tags in use, something remains.
   */
  method ShowItems(r: Request, items: seq<Item>) returns (shown: seq<Item>, pruned: Request)
    ensures pruned == r.(tags := r.tags * TagsOf(items))
    ensures (exists i | i in items :: Passes(pruned, i)) ==> shown == Filter(items, i => Passes(pruned, i))
    ensures (forall i | i in items :: !Passes(pruned, i)) ==> shown == Filter(items, i => Verdict(pruned, i, Tags))
    ensures items != [] ==> shown != []
    ensures (exists i | i in items :: Meets(pruned, i)) ==> forall i :: i in shown <==> i in items && Meets(pruned, i)
    ensures (forall i | i in items :: !Meets(pruned, i)) ==> forall i :: i in shown <==> i in items && TagsMeet(pruned, i)
  {
    var tags := PruneTags(r.tags, items);
    pruned := r.(tags := tags);
    if items == [] {
      return [], pruned;
    }
    var rows := EvaluateAll(pruned, items);
    forall i | 0 <= i < |items| ensures AllTrue(rows[i]) <==> Passes(pruned, items[i]) {
      JudgedRows(pruned, items[i], rows[i]);
    }
    var any := AnyPasses(rows);
    if any {
      shown := Remove(rows, items, i => Passes(pruned, i));
    } else {
      rows := Reset(pruned, items, rows);
      forall i | 0 <= i < |items| ensures AllTrue(rows[i]) <==> Verdict(pruned, items[i], Tags) {
        JudgedRows(pruned, items[i], rows[i]);
      }
      shown := Remove(rows, items, i => Verdict(pruned, i, Tags));
    }
    ShownIsNonEmpty(pruned, items, shown);
    ShownMeets(pruned, items, shown);
  }

  /** Which items are shown, in terms of their fields. */
  lemma ShownMeets(pruned: Request, items: seq<Item>, shown: seq<Item>)
    requires (exists i | i in items :: Passes(pruned, i)) ==> shown == Filter(items, i => Passes(pruned, i))
    requires (forall i | i in items :: !Passes(pruned, i)) ==> shown == Filter(items, i => Verdict(pruned, i, Tags))
    ensures (exists i | i in items :: Meets(pruned, i)) ==> forall i :: i in shown <==> i in items && Meets(pruned, i)
    ensures (forall i | i in items :: !Meets(pruned, i)) ==> forall i :: i in shown <==> i in items && TagsMeet(pruned, i)
  {
    forall i ensures Passes(pruned, i) <==> Meets(pruned, i) {
      VerdictsMean(pruned, i);
    }
    if i :| i in items && Passes(pruned, i) {
      forall j ensures j in shown <==> j in items && Meets(pruned, j) {
        FilterContains(items, k => Passes(pruned, k), j);
      }
    } else {
      forall j ensures j in shown <==> j in items && TagsMeet(pruned, j) {
        FilterContains(items, k => Verdict(pruned, k, Tags), j);
        VerdictsMean(pruned, j);
      }
    }
  }

  lemma ShownIsNonEmpty(pruned: Request, items: seq<Item>, shown: seq<Item>)
    requires items != [] && pruned.tags <= TagsOf(items)
    requires (exists i | i in items :: Passes(pruned, i)) ==> shown == Filter(items, i => Passes(pruned, i))
    requires (forall i | i in items :: !Passes(pruned, i)) ==> shown == Filter(items, i => Verdict(pruned, i, Tags))
    ensures shown != []
  {
    if i :| i in items && Passes(pruned, i) {
      FilterContains(items, j => Passes(pruned, j), i);
    } else {
      PrunedTagsMatch(pruned, items);
      var i :| i in items && Verdict(pruned, i, Tags);
      FilterContains(items, j => Verdict(pruned, j, Tags), i);
    }
  }

  /** Without pruning the reset would not be enough: a selected tag that no item carries hides every item. */
  lemma PruningIsNeeded(r: Request, items: seq<Item>)
    requires r.tags != {} && r.tags !! TagsOf(items)
    ensures Filter(items, i => Verdict(r, i, Tags)) == []
  {
    var shown := Filter(items, i => Verdict(r, i, Tags));
    if shown != [] {
      FilterContains(items, i => Verdict(r, i, Tags), shown[0]);
    }
  }
}
