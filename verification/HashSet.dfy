/** The chained hash set of src/libs/zbxalgo/hashset.c, whose table is enlarged and rehashed in place. */
module HashSet {
  import opened Options

  datatype Entry<K, D> = Entry(hash: nat, key: K, data: D)

  type Chain<K, D> = seq<Entry<K, D>>

  const DEFAULT_SLOTS: nat := 10

  // ----- Tables as sequences of chains -----

  /** Every entry of the table, whichever chain it is in. */
  ghost function All<K, D>(s: seq<Chain<K, D>>): (r: multiset<Entry<K, D>>) {
    if s == [] then multiset{} else All(s[..|s| - 1]) + multiset(s[|s| - 1])
  }

  lemma AddSame<T>(a: multiset<T>, b: multiset<T>, c: multiset<T>, d: multiset<T>, l: multiset<T>)
    requires a + b == c + d
    ensures a + l + b == c + l + d
  {
    forall x ensures (a + l + b)[x] == (c + l + d)[x] {
      assert (a + b)[x] == (c + d)[x];
    }
  }

  lemma {:induction false} AllUpdated<K, D>(s: seq<Chain<K, D>>, i: nat, chain: Chain<K, D>)
    requires i < |s|
    ensures All(s[i := chain]) + multiset(s[i]) == All(s) + multiset(chain)
  {
    var init := s[..|s| - 1];
    if i < |init| {
      AllUpdated(init, i, chain);
      assert s[i := chain][..|s| - 1] == init[i := chain];
      AddSame(All(init[i := chain]), multiset(s[i]), All(init), multiset(chain), multiset(s[|s| - 1]));
    } else {
      assert s[i := chain][..|s| - 1] == init;
    }
  }

  lemma {:induction false} AllContains<K, D>(s: seq<Chain<K, D>>, e: Entry<K, D>)
    ensures e in All(s) <==> exists i | 0 <= i < |s| :: e in s[i]
  {
    if s != [] {
      AllContains(s[..|s| - 1], e);
    }
  }

  lemma {:induction false} AllExtended<K, D>(s: seq<Chain<K, D>>, n: nat)
    ensures All(s + seq(n, _ => [])) == All(s)
    decreases n
  {
    var t := s + seq(n, _ => []);
    if n == 0 {
      assert t == s;
    } else {
      AllExtended(s, n - 1);
      assert t[..|t| - 1] == s + seq(n - 1, _ => []);
    }
  }

  /** Every entry of chain i hashes there. */
  ghost predicate Placed<K, D>(s: seq<Chain<K, D>>, i: nat)
    requires i < |s|
  {
    forall e | e in s[i] :: e.hash % |s| == i
  }

  function Without<T>(s: seq<T>, p: nat): (r: seq<T>)
    requires p < |s|
    ensures |r| == |s| - 1 && multiset(r) + multiset{s[p]} == multiset(s)
    ensures forall q | 0 <= q < p :: r[q] == s[q]
    ensures forall x | x in r :: x in s
  {
    assert s == s[..p] + [s[p]] + s[p + 1..];
    s[..p] + s[p + 1..]
  }

  /** The table after entry p of one chain has been unlinked and pushed on another. */
  function Moved<K, D>(s: seq<Chain<K, D>>, from: nat, p: nat, to: nat): (r: seq<Chain<K, D>>)
    requires from < |s| && to < |s| && p < |s[from]|
    ensures |r| == |s|
  {
    s[from := Without(s[from], p)][to := [s[from][p]] + s[to]]
  }

  /** Moving an entry loses and invents nothing. */
  lemma MovingKeepsAll<K, D>(s: seq<Chain<K, D>>, from: nat, p: nat, to: nat)
    requires from < |s| && to < |s| && from != to && p < |s[from]|
    ensures All(Moved(s, from, p, to)) == All(s)
  {
    var e := s[from][p];
    var t := s[from := Without(s[from], p)];
    AllUpdated(s, from, Without(s[from], p));
    AllUpdated(t, to, [e] + s[to]);
    assert multiset([e] + s[to]) == multiset{e} + multiset(s[to]);
    Balance(All(s), All(t), All(t[to := [e] + s[to]]), multiset(s[from]), multiset(Without(s[from], p)),
            multiset(s[to]), multiset{e});
  }

  lemma MovingKeepsPlaced<K, D>(s: seq<Chain<K, D>>, from: nat, p: nat, to: nat, i: nat)
    requires from < |s| && p < |s[from]| && to == s[from][p].hash % |s| && from != to
    requires i < |s| && i != from && Placed(s, i)
    ensures Placed(Moved(s, from, p, to), i)
  {
    var r := Moved(s, from, p, to);
    assert i != to ==> r[i] == s[i];
  }

  lemma Balance<T>(a: multiset<T>, b: multiset<T>, c: multiset<T>,
                   full: multiset<T>, rest: multiset<T>, other: multiset<T>, e: multiset<T>)
    requires rest + e == full && b + full == a + rest && c + other == b + (e + other)
    ensures c == a
  {
    forall x ensures c[x] == a[x] {
      assert (rest + e)[x] == full[x] && (b + full)[x] == (a + rest)[x] && (c + other)[x] == (b + (e + other))[x];
    }
  }

  /**
   The in-place rehash: chain after chain, entries that belong elsewhere are pushed on their new chain, which may
   be one still to be visited or one already done. In the end every entry is where its hash says.
   */
  method Rehash<K, D>(slots: seq<Chain<K, D>>, newSize: nat) returns (s: seq<Chain<K, D>>)
    requires |slots| < newSize
    ensures |s| == newSize && All(s) == All(slots)
    ensures forall i | 0 <= i < |s| :: Placed(s, i)
  {
    s := slots + seq(newSize - |slots|, _ => []);
    AllExtended(slots, newSize - |slots|);
    for slot := 0 to |slots|
      invariant |s| == newSize && All(s) == All(slots)
      invariant forall i | 0 <= i < slot || |slots| <= i < newSize :: Placed(s, i)
    {
      s := RehashChain(s, slot, |slots|);
    }
  }

  /** One chain of the rehash. */
  method RehashChain<K, D>(start: seq<Chain<K, D>>, slot: nat, oldSize: nat) returns (s: seq<Chain<K, D>>)
    requires slot < oldSize < |start|
    requires forall i | 0 <= i < slot || oldSize <= i < |start| :: Placed(start, i)
    ensures |s| == |start| && All(s) == All(start)
    ensures forall i | 0 <= i <= slot || oldSize <= i < |s| :: Placed(s, i)
  {
    s := start;
    var newSize := |start|;
    var p := 0;
    while p < |s[slot]|
      invariant |s| == newSize && All(s) == All(start)
      invariant forall i | 0 <= i < slot || oldSize <= i < newSize :: Placed(s, i)
      invariant p <= |s[slot]| && forall q | 0 <= q < p :: s[slot][q].hash % newSize == slot
      decreases |s[slot]| - p
    {
      var e := s[slot][p];
      var newSlot := e.hash % newSize;
      if newSlot != slot {
        MovingKeepsAll(s, slot, p, newSlot);
        forall i | 0 <= i < slot || oldSize <= i < newSize ensures Placed(Moved(s, slot, p, newSlot), i) {
          MovingKeepsPlaced(s, slot, p, newSlot, i);
        }
        s := Moved(s, slot, p, newSlot);
      } else {
        p := p + 1;
      }
    }
  }

  // ----- What a table represents -----

  /** The entries are exactly the pairs of the map, each once and with its own hash. */
  ghost predicate Pairs<K, D>(all: multiset<Entry<K, D>>, hash: K -> nat, m: map<K, D>) {
    && (forall e | e in all :: all[e] == 1 && e.hash == hash(e.key) && e.key in m && m[e.key] == e.data)
    && (forall k | k in m :: Entry(hash(k), k, m[k]) in all)
  }

  lemma PairsPlus<K, D>(all: multiset<Entry<K, D>>, hash: K -> nat, m: map<K, D>, key: K, data: D)
    requires Pairs(all, hash, m) && key !in m
    ensures Pairs(all + multiset{Entry(hash(key), key, data)}, hash, m[key := data])
  {
    assert Entry(hash(key), key, data) !in all;
  }

  lemma PairsMinus<K, D>(all: multiset<Entry<K, D>>, rest: multiset<Entry<K, D>>, hash: K -> nat, m: map<K, D>,
                         e: Entry<K, D>)
    requires Pairs(all, hash, m) && rest + multiset{e} == all
    ensures e.key in m && Pairs(rest, hash, m - {e.key})
  {
    assert e in all && all[e] == rest[e] + 1;
    forall x | x in rest ensures x in all && x != e && rest[x] == all[x] {
      assert (rest + multiset{e})[x] == all[x];
    }
    forall k | k in m && k != e.key ensures Entry(hash(k), k, m[k]) in rest {
      assert Entry(hash(k), k, m[k]) in all;
    }
  }

  /** Every entry is in the chain its hash selects, and the entries are the pairs of the map. */
  ghost predicate Represents<K, D>(s: seq<Chain<K, D>>, hash: K -> nat, m: map<K, D>) {
    && (forall i | 0 <= i < |s| :: Placed(s, i))
    && Pairs(All(s), hash, m)
  }

  /** A chain holds the entry of every key of the map that hashes to it, and nothing of other keys. */
  lemma ChainDecides<K, D>(s: seq<Chain<K, D>>, hash: K -> nat, m: map<K, D>, key: K)
    requires |s| > 0 && Represents(s, hash, m)
    ensures key in m ==> Entry(hash(key), key, m[key]) in s[hash(key) % |s|]
    ensures forall e | e in s[hash(key) % |s|] && e.key == key :: key in m && e == Entry(hash(key), key, m[key])
  {
    if key in m {
      var e := Entry(hash(key), key, m[key]);
      AllContains(s, e);
      var i :| 0 <= i < |s| && e in s[i];
      assert Placed(s, i);
    }
    forall e | e in s[hash(key) % |s|] && e.key == key ensures key in m && e == Entry(hash(key), key, m[key]) {
      AllContains(s, e);
    }
  }

  lemma PushedRepresents<K, D>(s: seq<Chain<K, D>>, hash: K -> nat, m: map<K, D>, key: K, data: D)
    requires |s| > 0 && Represents(s, hash, m) && key !in m
    ensures var slot := hash(key) % |s|;
            Represents(s[slot := [Entry(hash(key), key, data)] + s[slot]], hash, m[key := data])
  {
    var e, slot := Entry(hash(key), key, data), hash(key) % |s|;
    var t := s[slot := [e] + s[slot]];
    AllUpdated(s, slot, [e] + s[slot]);
    assert multiset([e] + s[slot]) == multiset{e} + multiset(s[slot]);
    Pushed(All(s), All(t), multiset(s[slot]), e);
    PairsPlus(All(s), hash, m, key, data);
    forall i | 0 <= i < |t| ensures Placed(t, i) {
      assert Placed(s, i);
    }
  }

  lemma Pushed<T>(a: multiset<T>, b: multiset<T>, chain: multiset<T>, e: T)
    requires b + chain == a + (multiset{e} + chain)
    ensures b == a + multiset{e}
  {
    forall x ensures b[x] == (a + multiset{e})[x] {
      assert (b + chain)[x] == (a + (multiset{e} + chain))[x];
    }
  }

  lemma UnlinkedRepresents<K, D>(s: seq<Chain<K, D>>, hash: K -> nat, m: map<K, D>, slot: nat, p: nat)
    requires slot < |s| && p < |s[slot]| && Represents(s, hash, m)
    ensures s[slot][p].key in m
    ensures Represents(s[slot := Without(s[slot], p)], hash, m - {s[slot][p].key})
  {
    var e := s[slot][p];
    var t := s[slot := Without(s[slot], p)];
    AllUpdated(s, slot, Without(s[slot], p));
    Unlinked(All(s), All(t), multiset(s[slot]), multiset(Without(s[slot], p)), e);
    PairsMinus(All(s), All(t), hash, m, e);
    forall i | 0 <= i < |t| ensures Placed(t, i) {
      assert Placed(s, i);
    }
  }

  lemma Unlinked<T>(a: multiset<T>, b: multiset<T>, full: multiset<T>, rest: multiset<T>, e: T)
    requires b + full == a + rest && rest + multiset{e} == full
    ensures b + multiset{e} == a
  {
    forall x ensures (b + multiset{e})[x] == a[x] {
      assert (b + full)[x] == (a + rest)[x] && (rest + multiset{e})[x] == full[x];
    }
  }

  lemma {:induction false} AllOfEmptyChains<K, D>(n: nat)
    ensures All<K, D>(seq(n, _ => [])) == multiset{}
  {
    AllExtended<K, D>([], n);
    assert [] + seq<Chain<K, D>>(n, _ => []) == seq(n, _ => []);
  }

  lemma RemovalShrinks<K, D>(m: map<K, D>, key: K)
    requires key in m
    ensures |m - {key}| == |m| - 1
  {
    assert (m - {key}).Keys == m.Keys - {key};
    assert |m.Keys - {key}| == |m.Keys| - 1;
  }

  /** A map after pairs have been offered to it one by one: the first pair of a key stays. */
  function Inserted<K, D>(m: map<K, D>, pairs: seq<(K, D)>): (r: map<K, D>) {
    if pairs == [] then m
    else
      var before, (key, data) := Inserted(m, pairs[..|pairs| - 1]), pairs[|pairs| - 1];
      if key in before then before else before[key := data]
  }

  class ChainedTable<K(==, !new), D> {
    const hash: K -> nat
    const nextPrime: nat -> nat  // the table sizes it yields are what matters here, not that they are prime
    var slots: seq<Chain<K, D>>
    var count: nat
    ghost var contents: map<K, D>
    ghost var rehashed: nat  // entries visited by every enlargement so far

    ghost predicate Valid()
      reads this
    {
      && (forall n :: nextPrime(n) >= n && nextPrime(n) >= 2)
      && Represents(slots, hash, contents) && count == |contents|
      && (if slots == [] then count == 0 else 2 <= |slots| && count < |slots| * 4 / 5)
      && rehashed <= 2 * |slots|
    }

    /** The number of slots when this many entries are asked for of a table in use: it grows only at four fifths. */
    function Room(n: nat, entries: int): (r: nat) {
      if entries >= n * 4 / 5 then nextPrime(n * 3 / 2) else n
    }

    constructor (hash: K -> nat, nextPrime: nat -> nat, initial: nat)
      requires forall n :: nextPrime(n) >= n && nextPrime(n) >= 2
      ensures Valid() && contents == map[] && this.hash == hash && this.nextPrime == nextPrime && rehashed == 0
      ensures |slots| == if initial > 0 then nextPrime(initial) else 0
    {
      this.hash, this.nextPrime := hash, nextPrime;
      slots := if initial > 0 then seq(nextPrime(initial), _ => []) else [];
      count, contents, rehashed := 0, map[], 0;
      new;
      AllOfEmptyChains<K, D>(|slots|);
      assert slots == seq(|slots|, _ => []);
    }

    /** The position of a key in its chain, or the length of the chain when it is not there. */
    method Locate(key: K) returns (slot: nat, p: nat)
      requires Valid() && slots != []
      ensures slot == hash(key) % |slots| && p <= |slots[slot]|
      ensures p < |slots[slot]| <==> key in contents
      ensures p < |slots[slot]| ==> slots[slot][p] == Entry(hash(key), key, contents[key])
    {
      var h := hash(key);
      slot, p := h % |slots|, 0;
      ChainDecides(slots, hash, contents, key);
      while p < |slots[slot]|
        invariant p <= |slots[slot]| && forall q | 0 <= q < p :: slots[slot][q].key != key
      {
        var e := slots[slot][p];
        assert e in slots[slot];
        if e.hash == h && e.key == key {
          return;
        }
        p := p + 1;
      }
    }

    method Search(key: K) returns (r: Option<D>)
      requires Valid()
      ensures r == if key in contents then Some(contents[key]) else None
    {
      if slots == [] {
        return None;
      }
      var slot, p := Locate(key);
      r := if p < |slots[slot]| then Some(slots[slot][p].data) else None;
    }

    method InitSlots(initial: nat)
      requires Valid() && slots == [] && 0 < initial
      modifies this
      ensures Valid() && contents == old(contents) && |slots| == nextPrime(initial) && rehashed == old(rehashed)
    {
      slots := seq(nextPrime(initial), _ => []);
      AllOfEmptyChains<K, D>(|slots|);
      assert slots == seq(|slots|, _ => []);
      assert contents == map[];
    }

    /**
     Called for the number of entries to come. An empty table gets room for twice as many. A table in use stays as it is
     below four fifths load; otherwise it is enlarged by half once, so it has the required number of slots exactly when
     that is within this one step.
     */
    method Reserve(required: int)
      requires Valid()
      modifies this
      ensures Valid() && contents == old(contents) && 2 <= |slots| && old(|slots|) <= |slots|
      ensures required <= |slots| <==> old(slots == []) || required <= old(nextPrime(|slots| * 3 / 2))
      ensures required <= count + 1 ==> required < |slots| * 4 / 5
      ensures old(slots == []) ==> |slots| == nextPrime(if required * 2 + 1 > 10 then required * 2 + 1 else 10)
      ensures old(slots != []) && required < old(|slots| * 4 / 5) ==> slots == old(slots)
      ensures old(slots != []) ==> |slots| == Room(old(|slots|), required)
      ensures rehashed == old(rehashed) + if 0 < old(|slots|) < |slots| then count else 0
    {
      if slots == [] {
        InitSlots(if required * 2 + 1 > DEFAULT_SLOTS then required * 2 + 1 else DEFAULT_SLOTS);
      } else if required >= |slots| * 4 / 5 {
        Enlarge(nextPrime(|slots| * 3 / 2));
      }
    }

    method Enlarge(newSize: nat)
      requires Valid() && 2 <= |slots| < newSize
      modifies this
      requires |slots| * 3 / 2 <= newSize
      ensures Valid() && contents == old(contents) && |slots| == newSize && rehashed == old(rehashed) + count
    {
      slots := Rehash(slots, newSize);
      rehashed := rehashed + count;
    }

    /** Adds the pair unless the key is present; returns the data the table then holds for the key. */
    method Insert(key: K, data: D) returns (stored: D)
      requires Valid()
      modifies this
      ensures Valid()
      ensures contents == if key in old(contents) then old(contents) else old(contents)[key := data]
      ensures stored == contents[key]
      ensures var n := if old(slots == []) then nextPrime(DEFAULT_SLOTS) else old(|slots|);
              |slots| == if key in old(contents) then n else Room(n, count)
    {
      if slots == [] {
        InitSlots(DEFAULT_SLOTS);
      }
      var slot, p := Locate(key);
      if p < |slots[slot]| {
        return slots[slot][p].data;
      }
      Reserve(count + 1);
      Push(key, data);
      return data;
    }

    /** Links a new entry at the front of its chain. */
    method Push(key: K, data: D)
      requires Valid() && slots != [] && key !in contents && count + 1 < |slots| * 4 / 5
      modifies this
      ensures Valid() && contents == old(contents)[key := data] && |slots| == old(|slots|) && rehashed == old(rehashed)
    {
      var slot := hash(key) % |slots|;
      PushedRepresents(slots, hash, contents, key, data);
      slots := slots[slot := [Entry(hash(key), key, data)] + slots[slot]];
      count, contents := count + 1, contents[key := data];
    }

    /** The table has its first size, or the size that a table of m slots grew to when it had no more entries than now. */
    ghost predicate Proportionate(first: nat)
      reads this
    {
      |slots| == first || exists m :: GrownFrom(m)
    }

    ghost predicate GrownFrom(m: nat)
      reads this
    {
      2 <= m && m * 4 / 5 <= count && |slots| == nextPrime(m * 3 / 2)
    }

    /**
     A run of insertions. The number of slots stays in proportion to the entries, and all the enlargements together
     have visited at most twice as many entries as there are slots in the end.
     */
    method InsertAll(pairs: seq<(K, D)>)
      requires Valid()
      modifies this
      ensures Valid() && contents == Inserted(old(contents), pairs)
      ensures pairs == [] ==> slots == old(slots)
      ensures pairs != [] ==> Proportionate(if old(slots == []) then nextPrime(DEFAULT_SLOTS) else old(|slots|))
      ensures rehashed <= 2 * |slots|
    {
      ghost var first := if slots == [] then nextPrime(DEFAULT_SLOTS) else |slots|;
      for i := 0 to |pairs|
        invariant Valid() && contents == Inserted(old(contents), pairs[..i])
        invariant if i == 0 then slots == old(slots) else slots != [] && Proportionate(first)
      {
        assert pairs[..i + 1][..i] == pairs[..i];
        var _ := InsertOne(pairs[i].0, pairs[i].1, first);
      }
      assert pairs[..|pairs|] == pairs;
    }

    method InsertOne(key: K, data: D, ghost first: nat) returns (stored: D)
      requires Valid() && if slots == [] then first == nextPrime(DEFAULT_SLOTS) else Proportionate(first)
      modifies this
      ensures Valid() && slots != [] && Proportionate(first)
      ensures contents == if key in old(contents) then old(contents) else old(contents)[key := data]
    {
      ghost var n := if slots == [] then nextPrime(DEFAULT_SLOTS) else |slots|;
      stored := Insert(key, data);
      if |slots| != n {
        assert GrownFrom(n);
      } else if old(slots != []) && n != first {
        var m: nat :| old(GrownFrom(m));
        assert GrownFrom(m);
      }
    }

    /** If the next prime is at most twice a number (Bertrand's postulate) there are fewer than four slots per entry. */
    lemma SlotsAreLinear(first: nat)
      requires Proportionate(first) && forall n | 1 <= n :: nextPrime(n) <= 2 * n
      ensures |slots| == first || 4 * |slots| <= 15 * count + 12
    {
      if |slots| != first {
        var m: nat :| GrownFrom(m);
        assert nextPrime(m * 3 / 2) <= 2 * (m * 3 / 2);
      }
    }

    method Unlink(slot: nat, p: nat)
      requires Valid() && slot < |slots| && p < |slots[slot]|
      modifies this
      ensures Valid() && contents == old(contents) - {old(slots[slot][p].key)} && |slots| == old(|slots|)
    {
      UnlinkedRepresents(slots, hash, contents, slot, p);
      RemovalShrinks(contents, slots[slot][p].key);
      contents := contents - {slots[slot][p].key};
      slots, count := slots[slot := Without(slots[slot], p)], count - 1;
    }

    method Remove(key: K)
      requires Valid()
      modifies this
      ensures Valid() && contents == old(contents) - {key} && |slots| == old(|slots|)
    {
      if slots == [] {
        return;
      }
      var slot, p := Locate(key);
      if p < |slots[slot]| {
        Unlink(slot, p);
      } else {
        assert contents - {key} == contents;
      }
    }
  }

  /** A table of 11 slots that is asked for 1000 gets 17. */
  method ReserveFallsShort() returns (t: ChainedTable<int, int>)
    ensures fresh(t) && t.Valid() && |t.slots| < 1000
  {
    var hash := (k: int) => if k < 0 then -k else k;
    var nextPrime := (n: nat) => if n <= 11 then 11 else if n <= 17 then 17 else n;
    t := new ChainedTable<int, int>(hash, nextPrime, 10);
    assert |t.slots| == 11 && t.nextPrime(16) == 17;
    t.Reserve(1000);
  }
}
