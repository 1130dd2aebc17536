/** The time series ring of src/libs/zbxalgo/ring_buffer.c, which holds the recent values of every item. */
module TimeBuffer {
  import opened Arithmetic
  import opened Options

  const MAX_SIZE := 1_000_000
  const JAN_2038 := 2_145_916_800
  const FAIL := -1

  datatype Slot<D> = Slot(time: int, data: D)

  // ----- Places in the ring -----

  /** The index macro of the source. */
  function Wrap(i: int, size: int): (r: int)
    requires size > 0 && -size <= i
    ensures 0 <= r < size
  {
    (i + size) % size
  }

  lemma WrapIsOneTurn(i: int, size: int)
    requires size > 0 && -size <= i <= 2 * size
    ensures Wrap(i, size) ==
            if i < 0 then i + size else if i < size then i else if i < 2 * size then i - size else 0
  {
    if i < 0 {
      DivisionIsUnique(i + size, size, 0, i + size);
    } else if i < size {
      DivisionIsUnique(i + size, size, 1, i);
    } else if i < 2 * size {
      DivisionIsUnique(i + size, size, 2, i - size);
    } else {
      DivisionIsUnique(i + size, size, 3, 0);
    }
  }

  /** Where the value at a given distance from the tail lives. */
  function At(tail: int, offset: int, size: int): (r: int) {
    if tail + offset < size then tail + offset else tail + offset - size
  }

  /** The slot a number of steps behind the head. */
  function Back(head: int, steps: int, size: int): (r: int)
    requires -1 <= head < size && 0 <= steps < size
    ensures head > -1 || steps < size - 1 ==> 0 <= r < size
  {
    if steps <= head then head - steps else head - steps + size
  }

  lemma PlacesAreDistinct(tail: int, a: int, b: int, size: int)
    requires 0 <= tail < size && 0 <= a < size && 0 <= b < size
    ensures 0 <= At(tail, a, size) < size
    ensures At(tail, a, size) == At(tail, b, size) <==> a == b
  {
  }

  // ----- Time order -----

  ghost predicate Ascending<D>(s: seq<Slot<D>>) {
    forall i, j | 0 <= i < j < |s| :: s[i].time <= s[j].time
  }

  /** r is a place to read the value in force at time t: none stored later than r is as old as t, unless r is at t itself. */
  ghost predicate InForce<D>(s: seq<Slot<D>>, t: int, r: int) {
    && 0 <= r < |s|
    && s[r].time <= t
    && (s[r].time < t ==> forall j | r < j < |s| :: t < s[j].time)
  }

  /** Place r is at time t, or the times pass t between r and the next place. */
  ghost predicate Crossing<D>(s: seq<Slot<D>>, t: int, r: int) {
    && 0 <= r < |s|
    && (s[r].time == t || (r + 1 < |s| && s[r].time < t < s[r + 1].time))
  }

  lemma CrossingIsInForce<D>(s: seq<Slot<D>>, t: int, r: int)
    requires Ascending(s) && Crossing(s, t, r)
    ensures InForce(s, t, r)
  {
  }

  /** With distinct times the place in force splits the values into those up to t and those after. */
  lemma InForceSplits<D>(s: seq<Slot<D>>, t: int, k: int)
    requires InForce(s, t, k) && forall i, j | 0 <= i < j < |s| :: s[i].time < s[j].time
    ensures forall i | 0 <= i < |s| :: s[i].time <= t <==> i <= k
  {
  }

  lemma AppendKeepsOrderExactly<D>(s: seq<Slot<D>>, v: Slot<D>)
    ensures Ascending(s + [v]) <==> Ascending(s) && (s == [] || s[|s| - 1].time <= v.time)
  {
    var r := s + [v];
    assert forall i | 0 <= i < |s| :: r[i] == s[i];
    assert r[|s|] == v;
    if Ascending(r) {
      assert forall i, j | 0 <= i < j < |s| :: r[i].time <= r[j].time;
    }
  }

  lemma PrependKeepsOrderExactly<D>(v: Slot<D>, s: seq<Slot<D>>)
    ensures Ascending([v] + s) <==> Ascending(s) && (s == [] || v.time <= s[0].time)
  {
    var r := [v] + s;
    assert forall i {:trigger s[i]} | 0 <= i < |s| :: r[i + 1] == s[i];
    assert r[0] == v;
  }

  // ----- The ring -----

  class Ring<D> {
    const blank: Slot<D>  // all bytes zero
    var data: array<Slot<D>>
    var size: int
    var count: int
    var head: int
    var tail: int

    /** How many values are really stored: a ring of one slot may count more than it holds. */
    function Stored(): (n: int)
      reads this
    {
      if count <= size then count else size
    }

    /** Every state the operations reach. */
    ghost predicate Valid()
      reads this
    {
      && 1 <= size == data.Length
      && 0 <= count && (count <= size || size == 1)
      && (count == 0 ==> head == -1 && tail == -1)
      && (count > 0 ==> 0 <= tail < size && head == At(tail, Stored() - 1, size))
    }

    /** The stored values, oldest first. */
    ghost function Contents(): (s: seq<Slot<D>>)
      requires Valid()
      reads this, data
      ensures |s| == Stored()
      ensures forall i {:trigger s[i]} | 0 <= i < |s| :: s[i] == data[At(tail, i, size)]
    {
      seq(Stored(), i requires 0 <= i < Stored() reads this, data requires Valid() => data[At(tail, i, size)])
    }

    constructor (n: int, zero: D)
      requires 1 <= n
      ensures Valid() && size == n && fresh(data) && Contents() == [] && count == 0 && blank == Slot(0, zero)
    {
      blank := Slot(0, zero);
      data := new Slot<D>[n](_ => Slot(0, zero));
      size, count, head, tail := n, 0, -1, -1;
    }

    method FreeTail() returns (ok: bool)
      requires Valid()
      modifies this
      ensures Valid() && data == old(data) && size == old(size)
      ensures ok <==> old(count) > 0
      ensures count == if ok then old(count) - 1 else 0
      ensures Contents() == if ok && old(count) <= size then old(Contents())[1..] else old(Contents())
      ensures ok && count > 0 ==> tail == At(old(tail), 1, size)
    {
      if count == 0 {
        return false;
      }
      count := count - 1;
      if count == 0 {
        tail, head := -1, -1;
      } else {
        WrapIsOneTurn(tail + 1, size);
        tail := Wrap(tail + 1, size);
      }
      return true;
    }

    /** A value with this time is accepted at the new end. */
    ghost predicate HeadAccepts(time: int)
      requires Valid()
      reads this, data
    {
      count == 0 ||
      (var newest := Contents()[Stored() - 1].time;
       (newest == JAN_2038 || newest <= time) && (count < size || size == 1))
    }

    /** A value with this time is accepted at the old end. */
    ghost predicate TailAccepts(time: int)
      requires Valid()
      reads this, data
    {
      count == 0 ||
      (var oldest := Contents()[0].time;
       !(oldest > 0 && oldest < time) && count < size)
    }

    /**
     Adds a value at the new end. A full ring refuses it, except that a ring of one slot accepts it, overwrites
     the value it holds and counts one more. The times stay ascending except below a newest one in January 2038.
     */
    method AddToHead(v: Slot<D>) returns (ok: bool)
      requires Valid()
      modifies this, data
      ensures Valid() && data == old(data) && size == old(size)
      ensures ok <==> old(HeadAccepts(v.time))
      ensures !ok ==> count == old(count) && Contents() == old(Contents())
      ensures ok ==> count == old(count) + 1
      ensures ok ==> Contents() == if old(count) < size then old(Contents()) + [v] else [v]
      ensures ok && old(count) < size ==>
                (Ascending(Contents()) <==>
                 Ascending(old(Contents())) &&
                 !(old(count) > 0 && old(Contents())[old(count) - 1].time == JAN_2038 && v.time < JAN_2038))
      ensures tail == if ok && old(count) == 0 then 0 else old(tail)
    {
      ghost var before := Contents();
      var newHead := 0;
      if count > 0 {
        assert before[Stored() - 1] == data[head];
        var newest := data[head].time;
        if newest != JAN_2038 && newest > v.time {
          return false;
        }
        WrapIsOneTurn(head + 1, size);
        newHead := Wrap(head + 1, size);
      }
      if newHead == tail && size > 1 {
        return false;
      }
      PutAtHead(newHead, v);
      AppendKeepsOrderExactly(before, v);
      return true;
    }

    /** The new head takes the value; a first value is the tail as well. */
    method PutAtHead(newHead: int, v: Slot<D>)
      requires Valid() && (count < size || size == 1)
      requires newHead == if count == 0 then 0 else At(tail, Stored(), size)
      modifies this, data
      ensures Valid() && data == old(data) && size == old(size) && count == old(count) + 1
      ensures Contents() == if old(count) < size then old(Contents()) + [v] else [v]
      ensures tail == if old(count) == 0 then 0 else old(tail)
    {
      head := newHead;
      data[head] := v;
      count := count + 1;
      if count == 1 {
        tail := head;
      }
    }

    /** Adds a value at the old end. The times stay ascending except above an oldest one that is not positive. */
    method AddToTail(v: Slot<D>) returns (ok: bool)
      requires Valid()
      modifies this, data
      ensures Valid() && data == old(data) && size == old(size)
      ensures ok <==> old(TailAccepts(v.time))
      ensures count == old(count) + if ok then 1 else 0
      ensures Contents() == if ok then [v] + old(Contents()) else old(Contents())
      ensures ok ==>
                (Ascending(Contents()) <==>
                 Ascending(old(Contents())) &&
                 !(old(count) > 0 && old(Contents())[0].time <= 0 && old(Contents())[0].time < v.time))
    {
      ghost var before := Contents();
      var newTail := 0;
      if count > 0 {
        assert before[0] == data[tail];
        var oldest := data[tail].time;
        if oldest > 0 && oldest < v.time {
          return false;
        }
        WrapIsOneTurn(tail - 1, size);
        newTail := Wrap(tail - 1, size);
        if newTail == head {
          return false;
        }
      }
      PutAtTail(newTail, v);
      PrependKeepsOrderExactly(v, before);
      return true;
    }

    method PutAtTail(newTail: int, v: Slot<D>)
      requires Valid() && count < size
      requires newTail == if count == 0 then 0 else if tail == 0 then size - 1 else tail - 1
      modifies this, data
      ensures Valid() && data == old(data) && size == old(size) && count == old(count) + 1
      ensures Contents() == [v] + old(Contents())
    {
      ghost var before := Contents();
      if count == 0 {
        head := 0;
      }
      tail := newTail;
      data[tail] := v;
      count := count + 1;
      assert Contents() == [v] + before;
    }

    /** How many of the newest values growing blanks: as many as there are unused slots before the tail. */
    ghost function Lost(): (n: int)
      requires Valid() && count <= size
      reads this
      ensures 0 <= n <= count
      ensures n == 0 <==> count == 0 || tail == 0 || head < tail
    {
      if count == 0 || head < tail then 0 else if tail < count then tail else count
    }

    /**
     Growing: a ring that wraps around is unrolled, but from one that does not only the first `count` slots of
     the buffer are copied, so the newest values are blanked when the tail is not at slot 0. A false result
     stands for copying more slots than the buffer has.
     */
    method Upsize(newSize: int) returns (ok: bool)
      requires Valid() && size < newSize
      modifies this
      ensures Valid()
      ensures ok <==> old(count <= size)
      ensures !ok ==> data == old(data) && size == old(size) && count == old(count) && Contents() == old(Contents())
      ensures ok ==> fresh(data) && size == newSize && count == old(count)
      ensures ok ==> Contents() == AfterUpsize(old(Contents()), old(Lost()), blank)
      ensures ok ==> (Contents() == old(Contents()) <==> BlankFrom(old(Contents()), old(count - Lost()), blank))
      ensures ok && blank !in old(Contents()) ==>
                (Contents() == old(Contents()) <==> old(count == 0 || tail == 0 || head < tail))
    {
      if count > size {
        return false;
      }
      ghost var before, lost := Contents(), Lost();
      if head > -1 && head < tail {
        UpsizeWrapped(newSize);
      } else {
        UpsizeFlat(newSize);
      }
      UpsizeKeepsExactly(before, lost, blank);
      return true;
    }

    /** A ring that wraps around is copied from the tail to the end of the buffer, then from its start to the head. */
    method UpsizeWrapped(newSize: int)
      requires Valid() && size < newSize && 0 <= head < tail
      modifies this
      ensures Valid() && fresh(data) && size == newSize && count == old(count)
      ensures Contents() == AfterUpsize(old(Contents()), 0, blank)
    {
      ghost var before := Contents();
      var newData := Unrolled(data, tail, head, newSize, blank);
      tail, head := 0, count - 1;
      data, size := newData, newSize;
      assert Contents() == before;
    }

    method UpsizeFlat(newSize: int)
      requires Valid() && size < newSize && count <= size && (count == 0 || tail <= head)
      modifies this
      ensures Valid() && fresh(data) && size == newSize && count == old(count)
      ensures Contents() == AfterUpsize(old(Contents()), old(Lost()), blank)
    {
      ghost var before, lost := Contents(), Lost();
      var newData := FirstSlots(data, if head > -1 then count else 0, newSize, blank);
      data, size := newData, newSize;
      ghost var after := AfterUpsize(before, lost, blank);
      forall i | 0 <= i < count ensures Contents()[i] == after[i] {
        assert Contents()[i] == newData[tail + i];
      }
    }

    /** What the freeing loop of a shrinking resize passes over before it stops. */
    ghost function Passed(newSize: int): (n: int)
      requires Valid() && 1 <= newSize < size
      reads this
      ensures 0 <= n < size
    {
      if count >= newSize then count - newSize else count - newSize + size
    }

    /** The freeing loop stays inside the buffer. */
    ghost predicate ReleaseStaysInside(newSize: int)
      requires Valid() && 1 <= newSize < size
      reads this
    {
      if count == 0 then newSize == 1 else tail + Passed(newSize) <= size
    }

    /** What the freeing loop frees when it stays inside the buffer. */
    ghost function Freed(newSize: int): (r: seq<Slot<D>>)
      requires Valid() && 1 <= newSize < size && ReleaseStaysInside(newSize)
      reads this, data
    {
      if count == 0 then [] else data[tail..tail + Passed(newSize)]
    }

    /** Frees the values a shrinking resize drops; a false result stands for an abort. */
    method FreeDropped(newSize: int) returns (ok: bool, freed: seq<Slot<D>>)
      requires Valid() && 1 <= newSize < size
      ensures ok <==> ReleaseStaysInside(newSize)
      ensures ok ==> freed == Freed(newSize)
    {
      if count == 0 {
        WrapIsOneTurn(-newSize, size);
      } else {
        StopPlace(tail, count, newSize, size);
      }
      ok, freed := FreeUntil(data, tail, Wrap(head - newSize + 1, size), Passed(newSize));
    }

    lemma FreedValues(newSize: int)
      requires Valid() && 1 <= newSize < size && 0 < count && ReleaseStaysInside(newSize)
      ensures newSize <= count ==> Freed(newSize) == Contents()[..count - newSize]
      ensures count < newSize ==> Contents() <= Freed(newSize) && Freed(newSize) != []
    {
      var s, freed := Contents(), Freed(newSize);
      forall i | 0 <= i < |freed| && i < |s| ensures freed[i] == s[i] {
        assert freed[i] == data[tail + i];
      }
    }

    /**
     Freeing ends well, with exactly the dropped values freed, when there are at least as many values as slots left
     and none of the dropped ones is past the end of the buffer. With fewer values it would free those that stay.
     */
    lemma FreesDroppedExactly(newSize: int)
      requires Valid() && 1 <= newSize < size
      ensures (ReleaseStaysInside(newSize) && Freed(newSize) == Contents()[..Max(0, count - newSize)]) <==>
              (count == 0 && newSize == 1) || (newSize <= count && tail + (count - newSize) <= size)
    {
      if count > 0 && ReleaseStaysInside(newSize) {
        FreedValues(newSize);
      }
    }

    /**
     Shrinking copies the newest `newSize` slots, whether or not that many of them are in use. Before, the dropped
     values are freed when the caller asks for it.
     */
    method Downsize(newSize: int, release: bool) returns (ok: bool, freed: seq<Slot<D>>)
      requires Valid() && 1 <= newSize < size
      modifies this
      ensures Valid()
      ensures ok <==> !release || old(ReleaseStaysInside(newSize))
      ensures !ok ==> data == old(data) && size == old(size) && count == old(count) && Contents() == old(Contents())
      ensures ok ==> fresh(data) && size == newSize && count == newSize
      ensures ok && old(count) >= newSize ==> Contents() == old(Contents())[old(count) - newSize..]
      ensures ok && old(count) < newSize ==> Contents()[newSize - old(count)..] == old(Contents())
      ensures ok ==> forall k | 0 <= k < newSize :: Contents()[k] == old(data[Back(head, newSize - 1 - k, size)])
      ensures ok && release ==> freed == old(Freed(newSize))
    {
      ok, freed := true, [];
      if release {
        ok, freed := FreeDropped(newSize);
        if !ok {
          return;
        }
      }
      KeepNewest(newSize);
    }

    method KeepNewest(newSize: int)
      requires Valid() && 1 <= newSize < size
      modifies this
      ensures Valid() && fresh(data) && size == newSize && count == newSize
      ensures old(count) >= newSize ==> Contents() == old(Contents())[old(count) - newSize..]
      ensures old(count) < newSize ==> Contents()[newSize - old(count)..] == old(Contents())
      ensures forall k | 0 <= k < newSize :: Contents()[k] == old(data[Back(head, newSize - 1 - k, size)])
    {
      var newData := CopyNewest(data, head, newSize, blank);
      NewestSlots(newData[..]);
      count, size, tail, head := newSize, newSize, 0, newSize - 1;
      data := newData;
      assert Contents() == newData[..];
    }

    /** The newest slots end with the stored values, or are the newest of them. */
    lemma NewestSlots(copy: seq<Slot<D>>)
      requires Valid() && 1 <= |copy| < size
      requires forall k | 0 <= k < |copy| :: copy[k] == data[Back(head, |copy| - 1 - k, size)]
      ensures count >= |copy| ==> copy == Contents()[count - |copy|..]
      ensures count < |copy| ==> copy[|copy| - count..] == Contents()
    {
      var s := Contents();
      forall k | 0 <= k < |copy| && 0 <= k + count - |copy| ensures copy[k] == s[k + count - |copy|] {
        assert Back(head, |copy| - 1 - k, size) == At(tail, k + count - |copy|, size);
      }
    }

    /**
     A false result stands for an abort or for copying past the buffer. A ring never shrinks or grows to its own
     size, nor out of range.
     */
    method Resize(newSize: int, release: bool) returns (ok: bool, r: int)
      requires Valid()
      modifies this
      ensures Valid() && (data == old(data) || fresh(data))
      ensures r == FAIL <==> newSize > MAX_SIZE || newSize < 1 || newSize == old(size)
      ensures r == FAIL ==> ok
      ensures r == FAIL || !ok ==> size == old(size) && count == old(count) && Contents() == old(Contents())
      ensures r != FAIL ==> r == newSize
      ensures r != FAIL && newSize > old(size) ==> (ok <==> old(count <= size))
      ensures r != FAIL && newSize < old(size) ==> (ok <==> !release || old(ReleaseStaysInside(newSize)))
      ensures r != FAIL && ok ==> size == newSize
      ensures r != FAIL && ok && newSize > old(size) ==>
                Contents() == AfterUpsize(old(Contents()), old(Lost()), blank)
      ensures r != FAIL && ok && newSize > old(size) && blank !in old(Contents()) ==>
                (Contents() == old(Contents()) <==> old(count == 0 || tail == 0 || head < tail))
      ensures r != FAIL && ok && newSize < old(size) ==> count == newSize
      ensures r != FAIL && ok && newSize < old(size) && old(count) >= newSize ==>
                Contents() == old(Contents())[old(count) - newSize..]
    {
      if newSize > MAX_SIZE || newSize < 1 || newSize == size {
        return true, FAIL;
      }
      if newSize < size {
        var done, _ := Downsize(newSize, release);
        return done, newSize;
      }
      ok := Upsize(newSize);
      return ok, newSize;
    }

    /**
     Binary search for the value in force at a time, over indices that wrap around. It always ends; what it finds
     is the value in force when the times are ascending, and otherwise a place where they pass the time.
     */
    method FindTimeIndex(t: int) returns (r: int, ghost k: int)
      requires Valid()
      ensures r == FAIL <==> count == 0 || t < Contents()[0].time || Contents()[Stored() - 1].time < t
      ensures r != FAIL ==> Crossing(Contents(), t, k) && r == At(tail, k, size)
      ensures r != FAIL && Ascending(Contents()) ==> InForce(Contents(), t, k)
    {
      if count == 0 {
        return FAIL, 0;
      }
      ghost var s := Contents();
      assert s[0] == data[tail] && s[Stored() - 1] == data[head];
      if data[tail].time > t || data[head].time < t {
        return FAIL, 0;
      }
      r, k := SearchRing(data, tail, head, t, s);
      if Ascending(s) {
        CrossingIsInForce(s, t, k);
      }
    }

    /** Whether at least `need` values are stored up to the slot `index`, which is the k-th oldest. */
    method HasEnoughUpTo(need: int, index: int, ghost k: int) returns (ok: bool)
      requires Valid() && 0 <= k < Stored() && index == At(tail, k, size)
      ensures ok <==> need != 0 && need <= k + 1
    {
      if need == 0 {
        return false;
      }
      if tail > index {
        return tail <= index + size - need + 1;
      }
      return index - need + 1 >= tail;
    }

    /** The time lies within the stored ones. */
    ghost predicate Covers(t: int)
      requires Valid()
      reads this, data
    {
      count > 0 && 0 <= t && Contents()[0].time <= t <= Contents()[Stored() - 1].time
    }

    method HasEnoughAtTime(need: int, t: int) returns (ok: bool, ghost k: int)
      requires Valid()
      ensures ok ==> Covers(t) && need != 0
      ensures Covers(t) && need != 0 ==> Crossing(Contents(), t, k) && (ok <==> need <= k + 1)
      ensures Covers(t) && need != 0 && Ascending(Contents()) ==> InForce(Contents(), t, k)
    {
      var newest := if count == 0 then -1 else data[head].time;
      var oldest := if count == 0 then -1 else data[tail].time;
      assert count > 0 ==> Contents()[0] == data[tail] && Contents()[Stored() - 1] == data[head];
      if t < 0 || t > newest || t < oldest || need == 0 {
        return false, 0;
      }
      var index;
      index, k := FindTimeIndex(t);
      ok := HasEnoughUpTo(need, index, k);
    }
  }

  /** A ring of the given size; None when there would be no slots. */
  method Create<D>(n: nat, zero: D) returns (r: Option<Ring<D>>)
    ensures r.None? <==> n == 0
    ensures r.Some? ==>
              && fresh(r.value) && fresh(r.value.data) && r.value.Valid()
              && r.value.size == n && r.value.Contents() == [] && r.value.blank == Slot(0, zero)
  {
    if n == 0 {
      return None;
    }
    var ring := new Ring<D>(n, zero);
    r := Some(ring);
  }

  // ----- Resizing -----

  function AfterUpsize<D>(s: seq<Slot<D>>, lost: int, blank: Slot<D>): (r: seq<Slot<D>>)
    requires 0 <= lost <= |s|
  {
    s[..|s| - lost] + seq(lost, _ => blank)
  }

  ghost predicate BlankFrom<D>(s: seq<Slot<D>>, n: int, blank: Slot<D>) {
    forall k | 0 <= k < |s| && n <= k :: s[k] == blank
  }

  /** What is blanked goes unnoticed exactly when it was blank; without blanks, when nothing is. */
  lemma UpsizeKeepsExactly<D>(s: seq<Slot<D>>, lost: int, blank: Slot<D>)
    requires 0 <= lost <= |s|
    ensures AfterUpsize(s, lost, blank) == s <==> BlankFrom(s, |s| - lost, blank)
    ensures blank !in s ==> (AfterUpsize(s, lost, blank) == s <==> lost == 0)
  {
    var r := AfterUpsize(s, lost, blank);
    if lost > 0 {
      assert r[|s| - 1] == blank;
      assert s[|s| - 1] in s;
    }
    assert forall k | |s| - lost <= k < |s| :: r[k] == blank;
    if BlankFrom(s, |s| - lost, blank) {
      assert r == s;
    }
  }

  /** The copy of a ring that does not wrap around: the first n slots of the buffer. */
  method FirstSlots<D>(data: array<Slot<D>>, n: int, newSize: int, blank: Slot<D>) returns (newData: array<Slot<D>>)
    requires 0 <= n <= data.Length < newSize
    ensures fresh(newData) && newData.Length == newSize
    ensures forall i | 0 <= i < newSize :: newData[i] == if i < n then data[i] else blank
  {
    newData := new Slot<D>[newSize](_ => blank);
    forall i | 0 <= i < n {
      newData[i] := data[i];
    }
  }

  /** The copy of a ring that wraps around: from the tail to the end of the buffer, then from its start to the head. */
  method Unrolled<D>(data: array<Slot<D>>, tail: int, head: int, newSize: int, blank: Slot<D>)
    returns (newData: array<Slot<D>>)
    requires 0 <= head < tail < data.Length < newSize
    ensures fresh(newData) && newData.Length == newSize
    ensures forall i {:trigger newData[i]} | 0 <= i <= head + data.Length - tail ::
              newData[i] == data[At(tail, i, data.Length)]
  {
    newData := new Slot<D>[newSize](_ => blank);
    var first := data.Length - tail;
    forall i | 0 <= i < first {
      newData[i] := data[tail + i];
    }
    forall i | 0 <= i < head + 1 {
      newData[first + i] := data[i];
    }
  }

  /** The place where the freeing loop stops, as a distance from the tail. */
  lemma StopPlace(tail: int, count: int, newSize: int, size: int)
    requires 0 <= tail < size && 1 <= count <= size && 1 <= newSize < size
    ensures var head := At(tail, count - 1, size);
            var stop := if count >= newSize then count - newSize else count - newSize + size;
            0 <= stop < size && -size <= head - newSize + 1 && Wrap(head - newSize + 1, size) == At(tail, stop, size)
  {
    WrapIsOneTurn(At(tail, count - 1, size) - newSize + 1, size);
  }

  lemma OtherPlace(tail: int, i: int, steps: int, size: int)
    requires 0 <= tail <= i <= tail + steps && tail < size && 0 <= steps < size
    ensures Wrap(i, size) == At(tail, steps, size) <==> i == tail + steps
  {
    WrapIsOneTurn(i, size);
  }

  /**
   The freeing loop, from slot `from` to the slot `stop` that lies a number of steps ahead. Its index is not
   wrapped when a slot is looked up, and the lookup aborts outside the buffer: the false result.
   */
  method FreeUntil<D>(data: array<Slot<D>>, from: int, stop: int, ghost steps: int)
    returns (ok: bool, freed: seq<Slot<D>>)
    requires -1 <= from < data.Length && 0 <= steps < data.Length
    requires from >= 0 ==> stop == At(from, steps, data.Length)
    ensures ok <==> if from < 0 then stop == data.Length - 1 else from + steps <= data.Length
    ensures ok ==> freed == if from < 0 then [] else data[from..from + steps]
  {
    freed := [];
    var i := from;
    WrapIsOneTurn(from, data.Length);
    while Wrap(i, data.Length) != stop
      invariant from < 0 ==> i == from && freed == []
      invariant from >= 0 ==> from <= i <= data.Length && i <= from + steps && freed == data[from..i]
      decreases data.Length - i
    {
      if from >= 0 {
        OtherPlace(from, i, steps, data.Length);
      }
      if i < 0 || data.Length <= i {
        return false, freed;
      }
      freed := freed + [data[i]];
      i := i + 1;
    }
    if from >= 0 {
      OtherPlace(from, i, steps, data.Length);
    }
    ok := true;
  }

  /** The copying loop of the shrinking resize, on indices that wrap around. */
  method CopyNewest<D>(data: array<Slot<D>>, head: int, n: int, blank: Slot<D>) returns (newData: array<Slot<D>>)
    requires -1 <= head < data.Length && 1 <= n < data.Length
    ensures fresh(newData) && newData.Length == n
    ensures forall k | 0 <= k < n :: newData[k] == data[Back(head, n - 1 - k, data.Length)]
  {
    var size := data.Length;
    newData := new Slot<D>[n](_ => blank);
    var j := 0;
    WrapIsOneTurn(head - n + 1, size);
    WrapIsOneTurn(head + 1, size);
    var i := Wrap(head - n + 1, size);
    while i != Wrap(head + 1, size)
      invariant 0 <= j <= n
      invariant i == if j == n then Wrap(head + 1, size) else Back(head, n - 1 - j, size)
      invariant forall k | 0 <= k < j :: newData[k] == data[Back(head, n - 1 - k, size)]
      decreases n - j
    {
      newData[j] := data[i];
      WrapIsOneTurn(i + 1, size);
      i := Wrap(i + 1, size);
      j := j + 1;
    }
  }

  // ----- Searching -----

  /**
   The loop of the search: tailIndex and headIndex close in from both sides on a place where the times pass t,
   whatever the order of the times between them.
   */
  method SearchRing<D>(data: array<Slot<D>>, tail: int, head: int, t: int, ghost s: seq<Slot<D>>)
    returns (r: int, ghost k: int)
    requires 0 <= tail < data.Length && 1 <= |s| <= data.Length && head == At(tail, |s| - 1, data.Length)
    requires forall i {:trigger s[i]} | 0 <= i < |s| :: s[i] == data[At(tail, i, data.Length)]
    requires s[0].time <= t <= s[|s| - 1].time
    ensures 0 <= r < data.Length && data[r].time <= t
    ensures Crossing(s, t, k) && r == At(tail, k, data.Length)
  {
    var size := data.Length;
    ghost var lo, hi := 0, |s| - 1;
    var tailIndex, headIndex := tail, head;
    while true
      invariant 0 <= lo <= hi < |s|
      invariant tailIndex == At(tail, lo, size) && headIndex == At(tail, hi, size)
      invariant s[lo].time <= t <= s[hi].time
      decreases hi - lo
    {
      var guess := Guess(tailIndex, headIndex, size);
      ghost var mid := (lo + hi) / 2;
      Midpoint(tail, lo, hi, size);
      var g := Wrap(guess, size);
      if t == data[g].time {
        return g, mid;
      }
      if t == data[headIndex].time {
        return headIndex, hi;
      }
      if g == tailIndex {
        return tailIndex, lo;
      }
      if t > data[g].time {
        if Wrap(guess + 1, size) == headIndex {
          return g, mid;
        }
        tailIndex, lo := g, mid;
      } else {
        if Wrap(guess - 1, size) == tailIndex {
          return tailIndex, lo;
        }
        headIndex, hi := g, mid;
      }
    }
  }

  /** The probe of the search, which the source computes differently when the range wraps around. */
  function Guess(tailIndex: int, headIndex: int, size: int): (r: int)
    requires 0 <= tailIndex < size && 0 <= headIndex < size
    ensures 0 <= r < 2 * size
  {
    if headIndex < tailIndex then (tailIndex + headIndex + size) / 2
    else Wrap((tailIndex + headIndex) / 2 + size, size)
  }

  /** The probe lands on the place halfway between two places, as distances from the tail go. */
  lemma GuessIsMidpoint(tail: int, lo: int, hi: int, size: int)
    requires 0 <= tail < size && 0 <= lo <= hi < size
    ensures 0 <= At(tail, lo, size) < size && 0 <= At(tail, hi, size) < size
    ensures Wrap(Guess(At(tail, lo, size), At(tail, hi, size), size), size) == At(tail, (lo + hi) / 2, size)
  {
    var t, h := At(tail, lo, size), At(tail, hi, size);
    WrapIsOneTurn((t + h) / 2 + size, size);
    WrapIsOneTurn(Guess(t, h, size), size);
  }

  lemma NeighbourPlaces(tail: int, offset: int, size: int)
    requires 0 <= tail < size && 0 <= offset < size
    ensures var place := At(tail, offset, size);
            && (offset + 1 < size ==> At(tail, offset + 1, size) == if place + 1 == size then 0 else place + 1)
            && (0 < offset ==> At(tail, offset - 1, size) == if place == 0 then size - 1 else place - 1)
  {
  }

  /** The probe is the midpoint and the slots before and after it are the neighbouring places. */
  lemma Midpoint(tail: int, lo: int, hi: int, size: int)
    requires 0 <= tail < size && 0 <= lo <= hi < size
    ensures 0 <= At(tail, lo, size) < size && 0 <= At(tail, hi, size) < size
    ensures var guess := Guess(At(tail, lo, size), At(tail, hi, size), size);
            var mid := (lo + hi) / 2;
            && Wrap(guess, size) == At(tail, mid, size)
            && (At(tail, mid, size) == At(tail, lo, size) <==> mid == lo)
            && (mid < hi ==> (Wrap(guess + 1, size) == At(tail, hi, size) <==> mid + 1 == hi))
            && (lo < mid ==> (Wrap(guess - 1, size) == At(tail, lo, size) <==> mid - 1 == lo))
  {
    var mid := (lo + hi) / 2;
    GuessIsMidpoint(tail, lo, hi, size);
    var guess := Guess(At(tail, lo, size), At(tail, hi, size), size);
    WrapStep(guess, size);
    NeighbourPlaces(tail, mid, size);
    PlacesAreDistinct(tail, mid, lo, size);
    if mid < hi {
      assert Wrap(guess + 1, size) == At(tail, mid + 1, size);
      PlacesAreDistinct(tail, mid + 1, hi, size);
    }
    if lo < mid {
      assert Wrap(guess - 1, size) == At(tail, mid - 1, size);
      PlacesAreDistinct(tail, mid - 1, lo, size);
    }
  }

  lemma WrapStep(i: int, size: int)
    requires 0 < size && 0 <= i < 2 * size
    ensures var w := Wrap(i, size);
            && Wrap(i + 1, size) == (if w + 1 == size then 0 else w + 1)
            && Wrap(i - 1, size) == (if w == 0 then size - 1 else w - 1)
  {
    WrapIsOneTurn(i, size);
    WrapIsOneTurn(i - 1, size);
    WrapIsOneTurn(i + 1, size);
  }

  // ----- Short histories on which the ring does not behave as a bounded queue of ascending times -----

  /** Two values in, the oldest out, grow by one: the value that was left is gone and a blank stands in its place. */
  method GrowingLosesNewest() returns (r: Ring<int>)
    ensures fresh(r) && r.Valid() && r.Contents() == [Slot(0, 0)]
  {
    r := new Ring<int>(2, 0);
    var ok := r.AddToHead(Slot(10, 1));
    ok := r.AddToHead(Slot(20, 2));
    ok := r.FreeTail();
    assert r.Contents() == [Slot(20, 2)] && r.tail == 1;
    var _, _ := r.Resize(3, false);
  }

  /** Shrinking an empty ring of three slots to two leaves a ring that claims two values. */
  method ShrinkingInventsValues() returns (r: Ring<int>)
    ensures fresh(r) && r.Valid() && |r.Contents()| == 2
  {
    r := new Ring<int>(3, 0);
    var _, _ := r.Resize(2, false);
  }

  /** Shrinking three slots that hold one value to two, and freeing on the way, frees the value that stays. */
  method ShrinkingFreesKept() returns (r: Ring<int>, freed: seq<Slot<int>>)
    ensures fresh(r) && r.Valid() && r.count == 2 && r.Contents()[1..] == [Slot(10, 1)] && Slot(10, 1) in freed
  {
    r := new Ring<int>(3, 0);
    var ok := r.AddToHead(Slot(10, 1));
    r.FreedValues(2);
    assert Slot(10, 1) in r.Contents();
    ok, freed := r.Downsize(2, true);
  }

  /** A ring of one slot that accepts two values counts two; it then cannot grow without copying past its buffer. */
  method SingleSlotOverfills() returns (r: Ring<int>, grown: bool)
    ensures fresh(r) && r.Valid() && r.size == 1 && r.count == 2 && r.Contents() == [Slot(20, 2)] && !grown
  {
    r := new Ring<int>(1, 0);
    var ok := r.AddToHead(Slot(10, 1));
    ok := r.AddToHead(Slot(20, 2));
    grown := r.Upsize(2);
  }

  /** A value stamped January 2038 lets an older one in after it. */
  method HeadLosesOrder() returns (r: Ring<int>)
    ensures fresh(r) && r.Valid() && r.Contents() == [Slot(JAN_2038, 1), Slot(20, 2)] && !Ascending(r.Contents())
  {
    r := new Ring<int>(2, 0);
    var ok := r.AddToHead(Slot(JAN_2038, 1));
    ok := r.AddToHead(Slot(20, 2));
    assert r.Contents()[0].time > r.Contents()[1].time;
  }

  /** A value without a positive time lets a later one in before it. */
  method TailLosesOrder() returns (r: Ring<int>)
    ensures fresh(r) && r.Valid() && r.Contents() == [Slot(20, 2), Slot(0, 1)] && !Ascending(r.Contents())
  {
    r := new Ring<int>(2, 0);
    var ok := r.AddToHead(Slot(0, 1));
    ok := r.AddToTail(Slot(20, 2));
    assert r.Contents()[0].time > r.Contents()[1].time;
  }
}
