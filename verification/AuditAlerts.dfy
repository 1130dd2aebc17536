/** The first k elements in sort order, and how they survive being taken from each part of a whole first. */
module TopK {
  import opened Orders

  function Take<T>(s: seq<T>, k: nat): (r: seq<T>) {
    if k <= |s| then s[..k] else s
  }

  function Top<T>(c: (T, T) -> int, s: seq<T>, k: nat): (r: seq<T>) {
    Take(Sort(c, s), k)
  }

  function Rest<T>(c: (T, T) -> int, s: seq<T>, k: nat): (r: seq<T>) {
    if k <= |s| then (SortLength(c, s); Sort(c, s)[k..]) else []
  }

  lemma SortLength<T>(c: (T, T) -> int, s: seq<T>)
    ensures |Sort(c, s)| == |s|
  {
    SortIsPermutation(c, s);
    SameMultisetSameElements(Sort(c, s), s);
  }

  ghost predicate Below<T>(c: (T, T) -> int, s: seq<T>, t: seq<T>) {
    forall x, y | x in s && y in t :: c(x, y) <= 0
  }

  /** Top and Rest split the sequence into a sorted part and something not below it. */
  lemma TopSplits<T(!new)>(c: (T, T) -> int, s: seq<T>, k: nat)
    requires TotalPreorder(c)
    ensures multiset(Top(c, s, k)) + multiset(Rest(c, s, k)) == multiset(s)
    ensures Sorted(c, Top(c, s, k)) && Below(c, Top(c, s, k), Rest(c, s, k))
    ensures |Top(c, s, k)| <= k && (Rest(c, s, k) != [] ==> |Top(c, s, k)| == k)
  {
    var top, rest := Top(c, s, k), Rest(c, s, k);
    SortLength(c, s);
    assert top + rest == Sort(c, s);
    SortIsPermutation(c, s);
    SortSorts(c, s);
    SplitOfSorted(c, top, rest);
  }

  lemma SplitOfSorted<T>(c: (T, T) -> int, s: seq<T>, t: seq<T>)
    requires Sorted(c, s + t)
    ensures Sorted(c, s) && Below(c, s, t)
  {
    var all := s + t;
    assert forall i | 0 <= i < |s| :: all[i] == s[i];
    forall x, y | x in s && y in t ensures c(x, y) <= 0 {
      var i, j :| 0 <= i < |s| && s[i] == x && 0 <= j < |t| && t[j] == y;
      assert all[i] == x && all[|s| + j] == y;
    }
  }

  lemma ConcatIsSorted<T>(c: (T, T) -> int, s: seq<T>, t: seq<T>)
    requires Sorted(c, s) && Sorted(c, t) && Below(c, s, t)
    ensures Sorted(c, s + t)
  {
  }

  /** Any split with the properties of TopSplits is the split into Top and Rest. */
  lemma TopIsDetermined<T(!new)>(c: (T, T) -> int, s: seq<T>, k: nat, t: seq<T>, u: seq<T>)
    requires TotalPreorder(c) && Separates(c, s) && multiset(t) + multiset(u) == multiset(s)
    requires Sorted(c, t) && Below(c, t, u) && |t| <= k && (u != [] ==> |t| == k)
    ensures Top(c, s, k) == t
  {
    var v := Sort(c, u);
    SortSorts(c, u);
    SortIsPermutation(c, u);
    SameMultisetSameElements(u, v);
    forall x, y | x in t && y in v ensures c(x, y) <= 0 {
      assert y in Elements(v);
    }
    ConcatIsSorted(c, t, v);
    SortSorts(c, s);
    SortIsPermutation(c, s);
    SeparatesPermutation(c, s, Sort(c, s));
    SortedArrangementIsUnique(c, Sort(c, s), t + v);
  }

  lemma SeparatesPermutation<T>(c: (T, T) -> int, s: seq<T>, t: seq<T>)
    requires Separates(c, s) && multiset(t) <= multiset(s)
    ensures Separates(c, t)
  {
    forall x | x in t ensures x in s {
      assert x in multiset(t);
    }
  }

  lemma TopOfPermutation<T(!new)>(c: (T, T) -> int, s: seq<T>, t: seq<T>, k: nat)
    requires TotalPreorder(c) && Separates(c, s) && multiset(s) == multiset(t)
    ensures Top(c, s, k) == Top(c, t, k)
  {
    TopSplits(c, t, k);
    TopIsDetermined(c, s, k, Top(c, t, k), Rest(c, t, k));
  }

  /** If no element of t is left over in w, then t and any x outside t both fit into r. */
  lemma Crowded<T>(t: multiset<T>, b: multiset<T>, r: multiset<T>, w: multiset<T>, x: T)
    requires t + b == r + w && x in r && x !in t && forall z | z in t :: z !in w
    ensures |t| + 1 <= |r|
  {
    forall z ensures (t + multiset{x})[z] <= r[z] {
      assert (t + b)[z] == (r + w)[z];
    }
    assert r == (t + multiset{x}) + (r - (t + multiset{x}));
  }

  /** A full top part t that lies below y keeps y out of the top of anything that contains t. */
  lemma StillBelow<T(!new)>(c: (T, T) -> int, t: seq<T>, b: seq<T>, k: nat, x: T, y: T)
    requires TotalPreorder(c) && |t| == k && x in Top(c, t + b, k)
    requires forall z | z in t :: c(z, y) <= 0
    ensures c(x, y) <= 0
  {
    var r, w := Top(c, t + b, k), Rest(c, t + b, k);
    TopSplits(c, t + b, k);
    if c(x, y) > 0 {
      forall z | z in multiset(t) ensures z !in multiset(w) && z != x {
        assert z in t;
        Transitive(c, z, y, x);
        assert c(z, x) < 0 <==> c(x, z) > 0;
        assert z in multiset(w) ==> z in w;
      }
      Crowded(multiset(t), multiset(b), multiset(r), multiset(w), x);
    }
  }

  lemma Regroup<T>(t: multiset<T>, u: multiset<T>, b: multiset<T>, r: multiset<T>, w: multiset<T>)
    requires t + b == r + w
    ensures r + (w + u) == (t + u) + b
  {
    forall z ensures (r + (w + u))[z] == ((t + u) + b)[z] {
      assert (t + b)[z] == (r + w)[z];
    }
  }

  /** Cutting a part down to its own top changes nothing about the top of the whole. */
  lemma TopOfPart<T(!new)>(c: (T, T) -> int, a: seq<T>, b: seq<T>, k: nat)
    requires TotalPreorder(c) && Separates(c, a + b)
    ensures Top(c, Top(c, a, k) + b, k) == Top(c, a + b, k)
  {
    var t, u := Top(c, a, k), Rest(c, a, k);
    var r, w := Top(c, t + b, k), Rest(c, t + b, k);
    TopSplits(c, a, k);
    TopSplits(c, t + b, k);
    forall x, y | x in r && y in w + u ensures c(x, y) <= 0 {
      if y !in w {
        StillBelow(c, t, b, k, x, y);
      }
    }
    Regroup(multiset(t), multiset(u), multiset(b), multiset(r), multiset(w));
    assert multiset(w + u) == multiset(w) + multiset(u) && multiset(a + b) == multiset(a) + multiset(b);
    if u != [] {
      SortLength(c, t + b);
    }
    TopIsDetermined(c, a + b, k, r, w + u);
  }
}

/** The action log of ui/auditacts.php: one stream of the newest alerts from several event sources. */
module AuditAlerts {
  import opened Orders
  import opened TopK

  datatype Alert = Alert(id: int, subject: string)

  /** Sorting by alert id, newest first. */
  function NewestFirst(a: Alert, b: Alert): (r: int)
    ensures r < 0 <==> a.id > b.id
    ensures r > 0 <==> a.id < b.id
  {
    if a.id > b.id then -1 else if a.id < b.id then 1 else 0
  }

  ghost predicate DistinctIds(s: seq<Alert>) {
    forall a, b | a in s && b in s :: a.id == b.id ==> a == b
  }

  function Flatten(sources: seq<seq<Alert>>): (r: seq<Alert>) {
    if sources == [] then [] else Flatten(sources[..|sources| - 1]) + sources[|sources| - 1]
  }

  /** What the page collects: the newest `limit` alerts of each source, source after source. */
  function Collected(sources: seq<seq<Alert>>, limit: nat): (r: seq<Alert>) {
    if sources == [] then []
    else Collected(sources[..|sources| - 1], limit) + Top(NewestFirst, sources[|sources| - 1], limit)
  }

  lemma NewestFirstIsPreorder()
    ensures TotalPreorder(NewestFirst)
  {
  }

  lemma {:induction false} CollectedIsSubset(sources: seq<seq<Alert>>, limit: nat)
    ensures multiset(Collected(sources, limit)) <= multiset(Flatten(sources))
  {
    if sources != [] {
      NewestFirstIsPreorder();
      CollectedIsSubset(sources[..|sources| - 1], limit);
      TopSplits(NewestFirst, sources[|sources| - 1], limit);
    }
  }

  lemma TopOfSecondPart(a: seq<Alert>, b: seq<Alert>, k: nat)
    requires Separates(NewestFirst, a + b)
    ensures Top(NewestFirst, a + Top(NewestFirst, b, k), k) == Top(NewestFirst, a + b, k)
  {
    NewestFirstIsPreorder();
    var t := Top(NewestFirst, b, k);
    TopSplits(NewestFirst, b, k);
    assert multiset(a + b) == multiset(b + a) == multiset(a) + multiset(b);
    assert multiset(a + t) == multiset(t + a) == multiset(a) + multiset(t);
    SeparatesPermutation(NewestFirst, a + b, b + a);
    SeparatesPermutation(NewestFirst, a + b, a + t);
    TopOfPart(NewestFirst, b, a, k);
    TopOfPermutation(NewestFirst, a + b, b + a, k);
    TopOfPermutation(NewestFirst, a + t, t + a, k);
  }

  /** Cutting every source to its newest alerts first loses none of the newest alerts overall. */
  lemma {:induction false} NewestOfCollected(sources: seq<seq<Alert>>, limit: nat)
    requires DistinctIds(Flatten(sources))
    ensures Top(NewestFirst, Collected(sources, limit), limit) == Top(NewestFirst, Flatten(sources), limit)
  {
    if sources != [] {
      NewestFirstIsPreorder();
      var init, last := sources[..|sources| - 1], sources[|sources| - 1];
      var all, some := Flatten(init), Collected(init, limit);
      CollectedIsSubset(init, limit);
      assert multiset(all + last) == multiset(all) + multiset(last);
      assert multiset(some + last) == multiset(some) + multiset(last);
      SeparatesPermutation(NewestFirst, all + last, all);
      SeparatesPermutation(NewestFirst, all + last, some + last);
      NewestOfCollected(init, limit);
      TopOfSecondPart(some, last, limit);
      TopOfPart(NewestFirst, some, last, limit);
      TopOfPart(NewestFirst, all, last, limit);
    }
  }

  // ----- What the page lists, said of ids and sources alone -----

  /** How many alerts there are in all sources together. */
  function Volume(sources: seq<seq<Alert>>): (n: nat) {
    if sources == [] then 0 else Volume(sources[..|sources| - 1]) + |sources[|sources| - 1]|
  }

  ghost predicate Listed(sources: seq<seq<Alert>>, a: Alert) {
    exists i | 0 <= i < |sources| :: a in sources[i]
  }

  /** The alerts are the newest ones of all sources, newest first, and as many as the limit allows. */
  ghost predicate NewestOf(sources: seq<seq<Alert>>, limit: nat, alerts: seq<Alert>) {
    && |alerts| == (if limit < Volume(sources) then limit else Volume(sources))
    && (forall a | a in alerts :: Listed(sources, a))
    && (forall i, j | 0 <= i < j < |alerts| :: alerts[i].id >= alerts[j].id)
    && (forall a, b | Listed(sources, a) && a !in alerts && b in alerts :: a.id < b.id)
  }

  /** No alert appears twice, neither within a source nor in two of them. */
  ghost predicate Unrepeated(s: seq<Alert>) {
    forall i, j | 0 <= i < j < |s| :: s[i].id != s[j].id
  }

  lemma {:induction false} FlattenContains(sources: seq<seq<Alert>>, a: Alert)
    ensures a in Flatten(sources) <==> Listed(sources, a)
  {
    if sources != [] {
      FlattenContains(sources[..|sources| - 1], a);
      assert sources == sources[..|sources| - 1] + [sources[|sources| - 1]];
    }
  }

  lemma {:induction false} FlattenLength(sources: seq<seq<Alert>>)
    ensures |Flatten(sources)| == Volume(sources)
  {
    if sources != [] {
      FlattenLength(sources[..|sources| - 1]);
    }
  }

  lemma {:induction false} UnrepeatedMultiplicity(s: seq<Alert>, a: Alert)
    requires Unrepeated(s)
    ensures multiset(s)[a] <= 1
  {
    if s != [] {
      var init, last := s[..|s| - 1], s[|s| - 1];
      UnrepeatedMultiplicity(init, a);
      assert s == init + [last];
      if a == last {
        assert a !in init;
      }
    }
  }

  lemma TwiceCounts(s: seq<Alert>, i: nat, j: nat)
    requires i < j < |s| && s[i] == s[j]
    ensures multiset(s)[s[i]] >= 2
  {
    var front, back := s[..j], s[j..];
    assert s == front + back && front[i] == s[i] && back[0] == s[j];
    assert s[i] in multiset(front) && s[i] in multiset(back);
  }

  lemma PartIsUnrepeated(all: seq<Alert>, part: seq<Alert>)
    requires Unrepeated(all) && DistinctIds(all) && multiset(part) <= multiset(all)
    ensures Unrepeated(part)
  {
    forall i, j | 0 <= i < j < |part| ensures part[i].id != part[j].id {
      if part[i].id == part[j].id {
        assert part[i] in multiset(all) && part[j] in multiset(all);
        assert part[i] == part[j];
        TwiceCounts(part, i, j);
        UnrepeatedMultiplicity(all, part[i]);
      }
    }
  }

  lemma OutsideIsOlder(sources: seq<seq<Alert>>, top: seq<Alert>, rest: seq<Alert>, a: Alert, b: Alert)
    requires DistinctIds(Flatten(sources)) && multiset(top) + multiset(rest) == multiset(Flatten(sources))
    requires Below(NewestFirst, top, rest) && Listed(sources, a) && a !in top && b in top
    ensures a.id < b.id
  {
    FlattenContains(sources, a);
    assert a in multiset(Flatten(sources)) && b in multiset(top) && b in multiset(Flatten(sources));
    assert a in multiset(rest) && a in rest;
    assert NewestFirst(b, a) <= 0;
  }

  lemma InsideIsListed(sources: seq<seq<Alert>>, top: seq<Alert>, a: Alert)
    requires multiset(top) <= multiset(Flatten(sources)) && a in top
    ensures Listed(sources, a)
  {
    assert a in multiset(top) && a in multiset(Flatten(sources));
    FlattenContains(sources, a);
  }

  /** A split of all alerts into a sorted part and older ones shows the newest. */
  lemma SplitIsNewest(sources: seq<seq<Alert>>, limit: nat, top: seq<Alert>, rest: seq<Alert>)
    requires DistinctIds(Flatten(sources)) && multiset(top) + multiset(rest) == multiset(Flatten(sources))
    requires Sorted(NewestFirst, top) && Below(NewestFirst, top, rest)
    requires |top| == if limit < Volume(sources) then limit else Volume(sources)
    ensures NewestOf(sources, limit, top)
  {
    forall a | a in top ensures Listed(sources, a) {
      InsideIsListed(sources, top, a);
    }
    forall a, b | Listed(sources, a) && a !in top && b in top ensures a.id < b.id {
      OutsideIsOlder(sources, top, rest, a, b);
    }
    forall i, j | 0 <= i < j < |top| ensures top[i].id >= top[j].id {
      assert NewestFirst(top[i], top[j]) <= 0;
    }
  }

  /** The first alerts in the order of the page are the newest ones. */
  lemma TopIsNewest(sources: seq<seq<Alert>>, limit: nat)
    requires DistinctIds(Flatten(sources))
    ensures NewestOf(sources, limit, Top(NewestFirst, Flatten(sources), limit))
    ensures Unrepeated(Flatten(sources)) ==> Unrepeated(Top(NewestFirst, Flatten(sources), limit))
  {
    var all := Flatten(sources);
    var top, rest := Top(NewestFirst, all, limit), Rest(NewestFirst, all, limit);
    NewestFirstIsPreorder();
    TopSplits(NewestFirst, all, limit);
    SortLength(NewestFirst, all);
    FlattenLength(sources);
    SplitIsNewest(sources, limit, top, rest);
    if Unrepeated(all) {
      PartIsUnrepeated(all, top);
    }
  }

  /**
   The page's loop: fetch from every source up to the limit, merge, sort, slice. It lists the newest alerts of all
   sources, their ids descending, strictly so when no alert is in two sources.
   */
  method FetchAlerts(sources: seq<seq<Alert>>, limit: nat) returns (alerts: seq<Alert>)
    requires DistinctIds(Flatten(sources))
    ensures alerts == Top(NewestFirst, Flatten(sources), limit)
    ensures NewestOf(sources, limit, alerts)
    ensures Unrepeated(Flatten(sources)) ==> forall i, j | 0 <= i < j < |alerts| :: alerts[i].id > alerts[j].id
  {
    alerts := [];
    for i := 0 to |sources|
      invariant alerts == Collected(sources[..i], limit)
    {
      assert sources[..i + 1][..i] == sources[..i];
      alerts := alerts + Top(NewestFirst, sources[i], limit);
    }
    assert sources[..|sources|] == sources;
    NewestOfCollected(sources, limit);
    TopIsNewest(sources, limit);
    alerts := Sort(NewestFirst, alerts);
    alerts := Take(alerts, limit);
  }
}
