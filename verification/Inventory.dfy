/** The inventory pages: hosts grouped by a field (ui/hostinventoriesoverview.php) and the list behind each group. */
module Inventory {
  import opened Filters
  import opened Orders
  import TopK

  datatype Host = Host(id: nat, value: string)

  datatype Group = Group(title: string, count: nat)

  /** Lower-casing, for which only this much is needed: it keeps emptiness apart from non-emptiness. */
  ghost predicate Folds(lower: string -> string) {
    forall s :: lower(s) == "" <==> s == ""
  }

  /** The hosts of the group with the given lower-case key. */
  function InGroup(lower: string -> string, key: string): (p: Host -> bool) {
    (h: Host) => h.value != "" && lower(h.value) == key
  }

  function Filled(): (p: Host -> bool) {
    (h: Host) => h.value != ""
  }

  // ----- The report -----

  /** The counts of the groups in the order in which the groups were opened. */
  function Total(keys: seq<string>, report: map<string, Group>): (r: nat)
    requires forall k | k in keys :: k in report
  {
    if keys == [] then 0 else Total(keys[..|keys| - 1], report) + report[keys[|keys| - 1]].count
  }

  lemma {:induction false} TotalOfUntouched(keys: seq<string>, report: map<string, Group>, report': map<string, Group>)
    requires forall k | k in keys :: k in report && k in report' && report[k] == report'[k]
    ensures Total(keys, report) == Total(keys, report')
  {
    if keys != [] {
      TotalOfUntouched(keys[..|keys| - 1], report, report');
    }
  }

  ghost predicate Distinct(keys: seq<string>) {
    forall i, j | 0 <= i < j < |keys| :: keys[i] != keys[j]
  }

  lemma {:induction false} TotalCountsOneMore(keys: seq<string>, report: map<string, Group>, key: string, g: Group)
    requires (forall k | k in keys :: k in report) && key in keys && Distinct(keys)
    requires g.count == report[key].count + 1
    ensures Total(keys, report[key := g]) == Total(keys, report) + 1
  {
    var init, last := keys[..|keys| - 1], keys[|keys| - 1];
    assert keys == init + [last];
    if last == key {
      TotalOfUntouched(init, report, report[key := g]);
    } else {
      TotalCountsOneMore(init, report, key, g);
    }
  }

  /** The keys list the groups of the report, each once. */
  ghost predicate Lists(keys: seq<string>, report: map<string, Group>) {
    && Distinct(keys)
    && (forall k :: k in keys <==> k in report)
  }

  lemma ListsOneMore(keys: seq<string>, report: map<string, Group>, key: string, g: Group)
    requires Lists(keys, report) && key !in report
    ensures Lists(keys + [key], report[key := g])
  {
    assert key !in keys;
  }

  /** The report says of every key how many hosts are in its group and shows the value of the first of them. */
  ghost predicate Reports(hosts: seq<Host>, lower: string -> string, keys: seq<string>, report: map<string, Group>) {
    && Lists(keys, report)
    && (forall k :: ReportsKey(Members(hosts, lower, k), report, k))
  }

  function Members(hosts: seq<Host>, lower: string -> string, key: string): (r: seq<Host>) {
    Filter(hosts, InGroup(lower, key))
  }

  lemma MembersStep(hosts: seq<Host>, h: Host, lower: string -> string, k: string)
    ensures Members(hosts + [h], lower, k) ==
            Members(hosts, lower, k) + if h.value != "" && lower(h.value) == k then [h] else []
  {
    FilterStep(hosts, h, InGroup(lower, k));
  }

  /** What the report says of one key. */
  ghost predicate ReportsKey(members: seq<Host>, report: map<string, Group>, k: string) {
    && (k in report <==> members != [])
    && (k in report ==> report[k].count == |members| && report[k].title == members[0].value)
  }

  lemma ReportsIgnoring(hosts: seq<Host>, h: Host, lower: string -> string, keys: seq<string>, report: map<string, Group>)
    requires Reports(hosts, lower, keys, report) && h.value == ""
    ensures Reports(hosts + [h], lower, keys, report)
  {
    forall k ensures ReportsKey(Members(hosts + [h], lower, k), report, k) {
      MembersStep(hosts, h, lower, k);
      assert ReportsKey(Members(hosts, lower, k), report, k);
    }
  }

  lemma ReportsOpening(hosts: seq<Host>, h: Host, lower: string -> string, keys: seq<string>, report: map<string, Group>)
    requires Reports(hosts, lower, keys, report) && h.value != "" && lower(h.value) !in report
    ensures Reports(hosts + [h], lower, keys + [lower(h.value)], report[lower(h.value) := Group(h.value, 1)])
  {
    var report' := report[lower(h.value) := Group(h.value, 1)];
    ListsOneMore(keys, report, lower(h.value), Group(h.value, 1));
    forall k ensures ReportsKey(Members(hosts + [h], lower, k), report', k) {
      MembersStep(hosts, h, lower, k);
      assert ReportsKey(Members(hosts, lower, k), report, k);
    }
  }

  lemma ReportsCounting(hosts: seq<Host>, h: Host, lower: string -> string, keys: seq<string>, report: map<string, Group>)
    requires Reports(hosts, lower, keys, report) && h.value != "" && lower(h.value) in report
    ensures var key := lower(h.value);
            Reports(hosts + [h], lower, keys, report[key := report[key].(count := report[key].count + 1)])
  {
    var key := lower(h.value);
    var report' := report[key := report[key].(count := report[key].count + 1)];
    forall k ensures ReportsKey(Members(hosts + [h], lower, k), report', k) {
      MembersStep(hosts, h, lower, k);
      assert ReportsKey(Members(hosts, lower, k), report, k);
    }
  }

  /** The report is right group by group, and its counts add up to the hosts with a value. */
  ghost predicate Accounts(hosts: seq<Host>, lower: string -> string, keys: seq<string>, report: map<string, Group>) {
    && Reports(hosts, lower, keys, report)
    && Total(keys, report) == |Filter(hosts, Filled())|
  }

  lemma AccountsIgnoring(hosts: seq<Host>, h: Host, lower: string -> string, keys: seq<string>, report: map<string, Group>)
    requires Accounts(hosts, lower, keys, report) && h.value == ""
    ensures Accounts(hosts + [h], lower, keys, report)
  {
    FilterStep(hosts, h, Filled());
    ReportsIgnoring(hosts, h, lower, keys, report);
  }

  lemma AccountsOpening(hosts: seq<Host>, h: Host, lower: string -> string, keys: seq<string>, report: map<string, Group>)
    requires Accounts(hosts, lower, keys, report) && h.value != "" && lower(h.value) !in report
    ensures Accounts(hosts + [h], lower, keys + [lower(h.value)], report[lower(h.value) := Group(h.value, 1)])
  {
    var key := lower(h.value);
    FilterStep(hosts, h, Filled());
    ReportsOpening(hosts, h, lower, keys, report);
    TotalOfUntouched(keys, report, report[key := Group(h.value, 1)]);
    assert (keys + [key])[..|keys|] == keys;
  }

  lemma AccountsCounting(hosts: seq<Host>, h: Host, lower: string -> string, keys: seq<string>, report: map<string, Group>)
    requires Accounts(hosts, lower, keys, report) && h.value != "" && lower(h.value) in report
    ensures var key := lower(h.value);
            Accounts(hosts + [h], lower, keys, report[key := report[key].(count := report[key].count + 1)])
  {
    var key := lower(h.value);
    FilterStep(hosts, h, Filled());
    ReportsCounting(hosts, h, lower, keys, report);
    TotalCountsOneMore(keys, report, key, report[key].(count := report[key].count + 1));
  }

  /** Group k has a host before any host of group l. */
  ghost predicate Precedes(hosts: seq<Host>, lower: string -> string, k: string, l: string) {
    exists m | 0 <= m < |hosts| :: InGroup(lower, k)(hosts[m]) && forall n | 0 <= n <= m :: !InGroup(lower, l)(hosts[n])
  }

  /** The groups are in the order in which their first hosts appear. */
  ghost predicate InOrderOfAppearance(hosts: seq<Host>, lower: string -> string, keys: seq<string>) {
    forall i, j | 0 <= i < j < |keys| :: Precedes(hosts, lower, keys[i], keys[j])
  }

  lemma StillPrecedes(hosts: seq<Host>, h: Host, lower: string -> string, k: string, l: string)
    requires Precedes(hosts, lower, k, l)
    ensures Precedes(hosts + [h], lower, k, l)
  {
    var m :| 0 <= m < |hosts| && InGroup(lower, k)(hosts[m]) && forall n | 0 <= n <= m :: !InGroup(lower, l)(hosts[n]);
    var all := hosts + [h];
    assert all[m] == hosts[m] && forall n | 0 <= n <= m :: all[n] == hosts[n];
  }

  lemma {:induction false} MemberAt(hosts: seq<Host>, lower: string -> string, k: string, m: int)
    requires 0 <= m < |hosts| && InGroup(lower, k)(hosts[m])
    ensures Members(hosts, lower, k) != []
  {
    FilterContains(hosts, InGroup(lower, k), hosts[m]);
  }

  lemma FirstMember(hosts: seq<Host>, lower: string -> string, k: string) returns (m: int)
    requires Members(hosts, lower, k) != []
    ensures 0 <= m < |hosts| && InGroup(lower, k)(hosts[m])
  {
    var h := Members(hosts, lower, k)[0];
    FilterContains(hosts, InGroup(lower, k), h);
    m :| 0 <= m < |hosts| && hosts[m] == h;
  }

  /** A group without hosts so far comes after one that has some. */
  lemma NewGroupIsLast(hosts: seq<Host>, lower: string -> string, k: string, l: string)
    requires Members(hosts, lower, k) != [] && Members(hosts, lower, l) == []
    ensures Precedes(hosts, lower, k, l)
  {
    var m := FirstMember(hosts, lower, k);
    forall n | 0 <= n <= m ensures !InGroup(lower, l)(hosts[n]) {
      if InGroup(lower, l)(hosts[n]) {
        MemberAt(hosts, lower, l, n);
      }
    }
  }

  lemma OrderStays(hosts: seq<Host>, h: Host, lower: string -> string, keys: seq<string>)
    requires InOrderOfAppearance(hosts, lower, keys)
    ensures InOrderOfAppearance(hosts + [h], lower, keys)
  {
    forall i, j | 0 <= i < j < |keys| ensures Precedes(hosts + [h], lower, keys[i], keys[j]) {
      StillPrecedes(hosts, h, lower, keys[i], keys[j]);
    }
  }

  lemma OrderGrows(hosts: seq<Host>, h: Host, lower: string -> string, keys: seq<string>, report: map<string, Group>)
    requires InOrderOfAppearance(hosts, lower, keys) && Reports(hosts, lower, keys, report) && lower(h.value) !in report
    ensures InOrderOfAppearance(hosts + [h], lower, keys + [lower(h.value)])
  {
    var key := lower(h.value);
    forall i, j | 0 <= i < j < |keys| + 1
      ensures Precedes(hosts + [h], lower, (keys + [key])[i], (keys + [key])[j])
    {
      if j == |keys| {
        assert keys[i] in keys && keys[i] in report;
        assert ReportsKey(Members(hosts, lower, keys[i]), report, keys[i]);
        assert ReportsKey(Members(hosts, lower, key), report, key);
        NewGroupIsLast(hosts, lower, keys[i], key);
      }
      StillPrecedes(hosts, h, lower, keys[i], (keys + [key])[j]);
    }
  }

  /** One host of the page's loop: it is ignored, opens a group or counts in one. */
  method AddHost(h: Host, lower: string -> string, keys: seq<string>, report: map<string, Group>, ghost hosts: seq<Host>)
    returns (keys': seq<string>, report': map<string, Group>)
    requires Accounts(hosts, lower, keys, report) && InOrderOfAppearance(hosts, lower, keys)
    ensures Accounts(hosts + [h], lower, keys', report') && InOrderOfAppearance(hosts + [h], lower, keys')
  {
    keys', report' := keys, report;
    if h.value == "" {
      AccountsIgnoring(hosts, h, lower, keys, report);
      OrderStays(hosts, h, lower, keys);
      return;
    }
    var key := lower(h.value);
    if key !in report {
      AccountsOpening(hosts, h, lower, keys, report);
      OrderGrows(hosts, h, lower, keys, report);
      keys', report' := keys + [key], report[key := Group(h.value, 1)];
    } else {
      AccountsCounting(hosts, h, lower, keys, report);
      OrderStays(hosts, h, lower, keys);
      report' := report[key := report[key].(count := report[key].count + 1)];
    }
  }

  lemma NoHostsNoGroups(lower: string -> string)
    ensures Accounts([], lower, [], map[]) && InOrderOfAppearance([], lower, [])
  {
  }

  /** The page's loop: one group per value, values differing only in case together. */
  method GroupHosts(hosts: seq<Host>, lower: string -> string) returns (keys: seq<string>, report: map<string, Group>)
    ensures Accounts(hosts, lower, keys, report)
    ensures InOrderOfAppearance(hosts, lower, keys)
  {
    keys, report := [], map[];
    NoHostsNoGroups(lower);
    for i := 0 to |hosts|
      invariant Accounts(hosts[..i], lower, keys, report) && InOrderOfAppearance(hosts[..i], lower, keys)
    {
      NextPrefix(hosts, i);
      keys, report := AddHost(hosts[i], lower, keys, report, hosts[..i]);
    }
    assert hosts[..|hosts|] == hosts;
  }

  // ----- The list behind a group -----

  /** The loop that removes what the search found beyond exact matches, when an exact value is asked for. */
  method ExactMatches(found: seq<Host>, lower: string -> string, value: string, exact: bool) returns (kept: seq<Host>)
    ensures kept == if value != "" && exact then Filter(found, (h: Host) => lower(h.value) == lower(value)) else found
  {
    if value == "" || !exact {
      return found;
    }
    var needle := lower(value);
    ghost var p := (h: Host) => lower(h.value) == lower(value);
    kept := [];
    for i := 0 to |found|
      invariant kept == Filter(found[..i], p)
    {
      assert found[..i + 1] == found[..i] + [found[i]];
      FilterStep(found[..i], found[i], p);
      if lower(found[i].value) == needle {
        kept := kept + [found[i]];
      }
    }
    assert found[..|found|] == found;
  }

  /**
   Following a group's link shows exactly its hosts: whatever else the case-insensitive search of the server
   finds, the exact filter given the group's title keeps as many hosts as the report counted.
   */
  lemma DrillDownMatchesCount(hosts: seq<Host>, lower: string -> string, keys: seq<string>, report: map<string, Group>,
                              key: string, search: Host -> bool)
    requires Folds(lower) && Reports(hosts, lower, keys, report) && key in report
    requires forall h: Host | lower(h.value) == lower(report[key].title) :: search(h)
    ensures var kept := Filter(Filter(hosts, search), (h: Host) => lower(h.value) == lower(report[key].title));
            kept == Members(hosts, lower, key) && |kept| == report[key].count
  {
    assert ReportsKey(Members(hosts, lower, key), report, key);
    var title := report[key].title;
    var exact := (h: Host) => lower(h.value) == lower(title);
    FilterTwice(hosts, search, exact);
    FilterContains(hosts, InGroup(lower, key), Members(hosts, lower, key)[0]);
    FilterAgrees(hosts, exact, InGroup(lower, key));
  }

  // ----- Truncation -----

  /** What any sorting routine promises; nothing is said about the order of equal keys. */
  ghost predicate Sorter(c: (Host, Host) -> int, sort: seq<Host> -> seq<Host>) {
    forall s :: Sorted(c, sort(s)) && multiset(sort(s)) == multiset(s)
  }

  function Reversed(s: seq<Host>): (r: seq<Host>)
    ensures |r| == |s| && forall i {:trigger r[i]} | 0 <= i < |s| :: r[i] == s[|s| - 1 - i]
  {
    if s == [] then [] else [s[|s| - 1]] + Reversed(s[..|s| - 1])
  }

  lemma {:induction false} ReversedIsPermutation(s: seq<Host>)
    ensures multiset(Reversed(s)) == multiset(s)
  {
    if s != [] {
      var init, last := s[..|s| - 1], s[|s| - 1];
      ReversedIsPermutation(init);
      assert multiset(Reversed(s)) == multiset{last} + multiset(Reversed(init));
      assert s == init + [last];
    }
  }

  /** order_result: ascending, or the ascending order reversed. */
  function OrderResult(sort: seq<Host> -> seq<Host>, s: seq<Host>, ascending: bool): (r: seq<Host>) {
    if ascending then sort(s) else Reversed(sort(s))
  }

  /** The slice: the first `limit` hosts when ascending, the last `limit` when descending. */
  function Cut(s: seq<Host>, limit: nat, ascending: bool): (r: seq<Host>) {
    if |s| <= limit then s else if ascending then s[..limit] else s[|s| - limit..]
  }

  /** The hosts the page keeps, and the list it displays. */
  function Kept(sort: seq<Host> -> seq<Host>, hosts: seq<Host>, limit: nat, ascending: bool): (r: seq<Host>) {
    Cut(OrderResult(sort, hosts, ascending), limit, ascending)
  }

  function Displayed(sort: seq<Host> -> seq<Host>, hosts: seq<Host>, limit: nat, ascending: bool): (r: seq<Host>) {
    OrderResult(sort, Kept(sort, hosts, limit, ascending), ascending)
  }

  /** Either direction keeps the same hosts, for every list, limit and sorting routine, ties included. */
  lemma TruncationKeepsSameHosts(sort: seq<Host> -> seq<Host>, hosts: seq<Host>, limit: nat)
    ensures Kept(sort, hosts, limit, false) == Reversed(Kept(sort, hosts, limit, true))
    ensures multiset(Kept(sort, hosts, limit, false)) == multiset(Kept(sort, hosts, limit, true))
  {
    ReversedIsPermutation(Kept(sort, hosts, limit, true));
  }

  /** r holds the elements of s from last to first by the comparator. */
  ghost predicate SortedDown(c: (Host, Host) -> int, s: seq<Host>) {
    forall i, j | 0 <= i < j < |s| :: c(s[j], s[i]) <= 0
  }

  /** kept are the first of all hosts by the sort key, as many as the limit allows, and rest are the others. */
  ghost predicate FirstOf(c: (Host, Host) -> int, hosts: seq<Host>, limit: nat, kept: seq<Host>, rest: seq<Host>) {
    && multiset(kept) + multiset(rest) == multiset(hosts)
    && TopK.Below(c, kept, rest)
    && |kept| == (if |hosts| <= limit then |hosts| else limit)
  }

  lemma CutOfSorted(c: (Host, Host) -> int, hosts: seq<Host>, s: seq<Host>, limit: nat)
    requires Sorted(c, s) && multiset(s) == multiset(hosts)
    ensures FirstOf(c, hosts, limit, Cut(s, limit, true), if |s| <= limit then [] else s[limit..])
  {
    var kept, rest := Cut(s, limit, true), if |s| <= limit then [] else s[limit..];
    SameMultisetSameElements(s, hosts);
    assert s == kept + rest;
    TopK.SplitOfSorted(c, kept, rest);
  }

  lemma FirstOfPermutation(c: (Host, Host) -> int, hosts: seq<Host>, limit: nat, kept: seq<Host>, kept': seq<Host>,
                           rest: seq<Host>)
    requires FirstOf(c, hosts, limit, kept, rest) && multiset(kept') == multiset(kept)
    ensures FirstOf(c, hosts, limit, kept', rest)
  {
    SameMultisetSameElements(kept', kept);
    forall x, y | x in kept' && y in rest ensures c(x, y) <= 0 {
      assert x in Elements(kept') && x in Elements(kept);
    }
  }

  /**
   Whatever the direction, the page keeps the first hosts by the sort key: no host that is cut off comes before one
   that is kept, and hosts are cut off only beyond the limit.
   */
  lemma TruncationKeepsFirst(c: (Host, Host) -> int, sort: seq<Host> -> seq<Host>, hosts: seq<Host>, limit: nat,
                             ascending: bool)
    returns (rest: seq<Host>)
    requires Sorter(c, sort)
    ensures FirstOf(c, hosts, limit, Kept(sort, hosts, limit, ascending), rest)
  {
    var s := sort(hosts);
    rest := if |s| <= limit then [] else s[limit..];
    CutOfSorted(c, hosts, s, limit);
    TruncationKeepsSameHosts(sort, hosts, limit);
    FirstOfPermutation(c, hosts, limit, Kept(sort, hosts, limit, true), Kept(sort, hosts, limit, ascending), rest);
  }

  /** The page displays the hosts it keeps, in the order asked for. */
  lemma DisplayedInOrder(c: (Host, Host) -> int, sort: seq<Host> -> seq<Host>, hosts: seq<Host>, limit: nat,
                         ascending: bool)
    requires Sorter(c, sort)
    ensures multiset(Displayed(sort, hosts, limit, ascending)) == multiset(Kept(sort, hosts, limit, ascending))
    ensures if ascending then Sorted(c, Displayed(sort, hosts, limit, true))
            else SortedDown(c, Displayed(sort, hosts, limit, false))
  {
    var s := sort(Kept(sort, hosts, limit, ascending));
    assert Sorted(c, s) && multiset(s) == multiset(Kept(sort, hosts, limit, ascending));
    ReversedIsPermutation(s);
  }

  /** With distinct sort keys the descending page is the ascending one turned around. */
  lemma DescendingIsReversed(c: (Host, Host) -> int, sort: seq<Host> -> seq<Host>, hosts: seq<Host>, limit: nat)
    requires TotalPreorder(c) && Sorter(c, sort) && Separates(c, hosts)
    ensures Displayed(sort, hosts, limit, false) == Reversed(Displayed(sort, hosts, limit, true))
  {
    var up, down := Kept(sort, hosts, limit, true), Kept(sort, hosts, limit, false);
    TruncationKeepsSameHosts(sort, hosts, limit);
    forall h | h in sort(up) ensures h in hosts {
      assert h in multiset(sort(up)) && h in multiset(up);
      assert h in sort(hosts);
      assert h in multiset(sort(hosts));
    }
    SortedArrangementIsUnique(c, sort(up), sort(down));
  }
}
