# Verified models of Glaber's containers, codec and list pages

Glaber is a monitoring server (a fork of Zabbix) with a C core and a PHP front end. This project models the parts of
it whose correctness is not visible from one function body, and proves what they promise, with Dafny 4.11
(`dafny verify dfyconfig.toml`).

* **Growable vectors** (`Vector.dfy`, `VectorLaws.dfy`, `VectorRuns.dfy`): the macro-generated vector with its in-place
  `uniq` and `setdiff`, its three searches and its growth, as a class over a real buffer. Every operation refines a
  function on sequences; whole runs, with a comparator of its own in every call, refine runs of a sequence machine;
  growth is shown to be amortised, cursor scans to be linear, sort-then-uniq to be a canonical form for sets, and a
  second uniq to be harmless exactly for the comparators whose equality is Euclidean.
* **Binary messages** (`Codec.dfy`): the prepare, serialize and deserialize macros. A message survives the trip exactly
  when every payload fits its 32-bit length word.
* **Keyed heap** (`HeapLaws.dfy`, `BinaryHeap.dfy`): the binary heap with direct access by key; the key index stays
  the exact inverse of the array through every swap, and draining it sorts.
* **Hash set** (`HashSet.dfy`): the chained table that is enlarged and rehashed in place, as a finite map whose load
  stays below four fifths.
* **Time series ring** (`TimeBuffer.dfy`, `TimeBufferRuns.dfy`): the ring that caches item values, with its wrapped
  binary search. Whole runs refine a bounded queue of two ends, and the times for which every run stays in order are
  characterised. Where the ring does not behave as such a queue, the exact condition is proved and a short history
  shows the failure.
* **128-bit arithmetic** (`Int128.dfy`): multiplication by partial products and shift-and-subtract division are exact.
* **Call guard** (`RateLimiter.dfy`): `RUN_ONCE_IN` spaces its runs on any clock and is optimal on a monotone one.
* **List pages** (`AuditAlerts.dfy`, `TemplateClosure.dfy`, `Graphs.dfy`, `ItemSubfilters.dfy`, `Inventory.dfy`): the
  algorithms inside five PHP pages, with the API results as parameters; what each page shows is stated of ids, fields and
  sort keys, and the quadratic repair of sort orders is shown to equal a single pass.

`Orders.dfy` holds the theory of comparators and sorting, `Basics.dfy` small shared definitions.

## Reading notes

* C `int` arithmetic that could overflow is wrapped in `Int32`, so a precondition states where the source is free of
  undefined behaviour (`CanGrow`, at most 2^30 elements for the binary search); the lemmas `GrowthFitsExactly` and
  `MidpointFitsExactly` show that these conditions are exact.
* A false or `None` result stands for a process exit, an uncaught PHP error or a read past a buffer.
* `qsort`, `natcasesort` and `uasort` are represented by their contract. Where a concrete sort is needed it is
  `Orders.Sort`; where results must not depend on the routine, the routine is a parameter (`Inventory.Sorter`).
* The time series ring does not keep all its values when it is resized, and the reset of the item page does not clear
  every subfilter. The models follow the code in both cases (`Upsize`, `Downsize`, `RESETTABLE`).
* The comment above `zbx_hashset_reserve` promises at least the required number of slots. The code enlarges a table in
  use by one step only; `HashSet.ChainedTable.Reserve` states exactly when the promise is kept.
* The loop over deletion times in ui/graphs.php hands a missing graph to `array_key_exists`. PHP 8 throws there; PHP
  7.4, which the front end still supports (ui/include/classes/setup/CFrontendSetup.php:28), warns and goes on to create
  an entry that holds nothing but the time. `GraphDeletion` models both (`strict`), and `StrayGraph` is a failing input.
* Doubles are real numbers here, so NaN and rounding are absent; the tolerance of their comparator is a parameter.

## Model

| member | source | states |
|---|---|---|
| Orders.SortedArrangementIsUnique | include/zbxalgo.h:459-463 | elements with distinct sort keys have one sorted arrangement, so the unspecified order of qsort does not matter for them |
| Orders.StrictArrangementIsUnique | include/zbxalgo.h:459-479 | a set has exactly one strictly sorted vector |
| Orders.SortSorts | include/zbxalgo.h:459-463 | the sort stand-in yields a sorted sequence for every total preorder |
| Orders.SortIsPermutation | include/zbxalgo.h:459-463 | the sort stand-in yields a permutation, for any comparator |
| Orders.NumberComparatorsAreTotalOrders | src/libs/zbxalgo/algodefs.c:138-157 | the default comparators for addresses (the same code as for numbers) and for pairs are total orders, ascending, the first components deciding |
| Orders.StringComparatorIsTotalOrder | src/libs/zbxalgo/algodefs.c:123-131 | the default string comparator is a total order |
| Orders.StringComparisonIsLexicographic | src/libs/zbxalgo/algodefs.c:123-131 | the first difference decides: there the smaller string ends or has the smaller character |
| Orders.DoubleComparatorIsOrderExactly | src/libs/zbxalgo/algodefs.c:159-167 | the comparator for doubles obeys the laws of an order exactly when its tolerance is zero; it says less exactly for values more than the tolerance below |
| VectorLaws.UniqTakesRunStarts | include/zbxalgo.h:465-479 | for any comparator uniq keeps exactly the elements that differ from their original predecessor, in order |
| VectorLaws.UniqIsIdempotentExactly | include/zbxalgo.h:465-479 | a second uniq never changes anything exactly when any two elements equal to a third are equal to each other |
| VectorLaws.UniqIsIdempotent | include/zbxalgo.h:465-479 | in particular whenever comparing equal is an equivalence |
| VectorLaws.DoubleUniqIsIdempotentExactly | include/zbxalgo.h:100-108 | with the comparator for doubles exactly when the tolerance is not positive, even for sorted vectors only |
| VectorLaws.UniqStrictlySorts | include/zbxalgo.h:465-479 | uniq of a sorted vector is strictly increasing |
| VectorLaws.UniqRepresents | include/zbxalgo.h:465-479 | every element has an equal one among those uniq keeps |
| VectorLaws.UniqKeepsElements | include/zbxalgo.h:465-479 | uniq keeps the set of elements |
| VectorLaws.CanonicalFormDecidesSetEquality | include/zbxalgo.h:459-479 | sort then uniq gives equal vectors exactly for equal element sets |
| VectorLaws.DifferenceIsMultisetDifference | include/zbxalgo.h:559-592 | on sorted vectors setdiff is multiset difference, one copy per match |
| VectorLaws.DifferenceKeepsLast | include/zbxalgo.h:559-592 | with a comparator on keys what is left of each key are its last elements, in order |
| VectorLaws.DifferenceCounts | include/zbxalgo.h:559-592 | as many elements of each key are cancelled as the right vector has |
| VectorLaws.DifferenceIsSorted | include/zbxalgo.h:559-592 | setdiff keeps a sorted vector sorted |
| VectorLaws.DifferenceOfCanonicalForms | include/zbxalgo.h:559-592 | setdiff of canonical forms is the canonical form of the set difference |
| Vectors.TruncateToInt | include/zbxalgo.h:594-602 | the cast of a size to int keeps it exactly up to INT_MAX and otherwise drops multiples of 2^32 |
| Vectors.GrowthFitsExactly | include/zbxalgo.h:356-376 | the growth step overflows no int exactly up to capacity INT_MAX / 3; it starts at 32 and then adds half, or one |
| Vectors.MidpointFitsExactly | include/zbxalgo.h:481-505 | the midpoint sum overflows exactly beyond 2^30 elements |
| Vectors.MoveBlock | include/zbxalgo.h:455-456 | memmove of overlapping ranges |
| Vectors.KeepNext | include/zbxalgo.h:473-474 | copying an element down touches nothing still to be read |
| Vectors.UniqInPlace | include/zbxalgo.h:465-479 | the in-place loop leaves exactly Uniq of the original, for any comparator |
| Vectors.CloseBlock | include/zbxalgo.h:577-583 | a delayed block move compacts the kept block and touches nothing still to be read |
| Vectors.WalkOn | include/zbxalgo.h:564-584 | one comparison of the walk keeps the layout of the buffer and the rest of the difference |
| Vectors.DifferenceInPlace | include/zbxalgo.h:559-592 | the in-place walk with delayed block moves leaves exactly the difference, for any comparator; a buffer may be subtracted from itself |
| Vectors.Vector.constructor | include/zbxalgo.h:378-398 | a new vector is empty, with no buffer |
| Vectors.Vector.Reallocate | include/zbxalgo.h:370-374 | a reallocation keeps the elements and moves as many as there are |
| Vectors.Vector.EnsureFreeSpace | include/zbxalgo.h:360-376 | a free slot afterwards, same elements, the new capacity and the elements moved |
| Vectors.Vector.Append | include/zbxalgo.h:415-419 | appends one element and returns its index |
| Vectors.Vector.AppendArray | include/zbxalgo.h:427-433 | appends all elements, growing exactly to what is needed |
| Vectors.Vector.RemoveNoOrder | include/zbxalgo.h:435-444 | the last element replaces the removed one; fails exactly on a bad index |
| Vectors.Vector.Remove | include/zbxalgo.h:446-457 | removes one element keeping the order; fails exactly on a bad index |
| Vectors.Vector.SortBy | include/zbxalgo.h:459-463 | a sorted permutation |
| Vectors.Vector.UniqBy | include/zbxalgo.h:465-479 | the contents become Uniq of the old contents |
| Vectors.Vector.NearestIndex | include/zbxalgo.h:481-505 | on a sorted vector inserting at the index keeps it sorted, and the index is on an equal element exactly when one exists; no more comparisons than the count has binary digits |
| Vectors.Vector.BinarySearch | include/zbxalgo.h:507-519 | finds an equal element exactly when a sorted vector has one, whatever its size |
| Vectors.Vector.CursorSearch | include/zbxalgo.h:521-542 | the cursor skips smaller elements only, stops at the first other one, and the comparisons are counted |
| Vectors.Vector.Search | include/zbxalgo.h:544-556 | finds the first equal element exactly when there is one |
| Vectors.Vector.SetDiff | include/zbxalgo.h:559-592 | the left vector becomes the difference, the right one is unchanged; subtracted from itself a vector becomes empty |
| Vectors.Vector.Reserve | include/zbxalgo.h:594-602 | the capacity reaches the size exactly when the size fits an int; the elements stay |
| Vectors.Vector.Clear | include/zbxalgo.h:604-607 | empties the vector and keeps its buffer |
| Vectors.Vector.Destroy | include/zbxalgo.h:400-413 | releases the buffer and leaves an empty vector that cannot grow |
| VectorRuns.RunsStayConsistent | include/zbxalgo.h:360-607 | in every state of every run the count is bounded by the capacity and the capacity fits an int, and only destroy shrinks it |
| VectorRuns.Perform | include/zbxalgo.h:360-607 | each operation is defined exactly when the sequence machine says so and then has an effect the machine allows; only sort asks its comparator to be a preorder |
| VectorRuns.Execute | include/zbxalgo.h:360-607 | every run from create on, with a comparator per call, goes through states of the sequence machine and stops exactly at the first undefined operation |
| VectorRuns.RunsAreDetermined | include/zbxalgo.h:360-607 | when every sort is by a total order a run has one outcome, that of the machine with a stable sort |
| VectorRuns.AppendsAreAmortised | include/zbxalgo.h:356-376 | n appends move at most 4n elements in total |
| VectorRuns.AppendFitsExactly | include/zbxalgo.h:360-376 | another append is defined exactly until the first capacity beyond INT_MAX / 3 is full |
| VectorRuns.AppendAll | include/zbxalgo.h:415-419 | the real vector takes exactly that many elements and moves exactly the modelled number while appending |
| VectorRuns.AppendArrayOneByOne | include/zbxalgo.h:427-433 | one-element bulk appends are not amortised: they move n(n-1)/2 elements |
| VectorRuns.Scan | include/zbxalgo.h:521-542 | ascending queries through one cursor are all answered correctly, the cursor never moves back, and the comparisons are at most elements plus queries |
| Codec.ScalarRoundTrip | include/zbxserialize.h:51-60 | a scalar of a given width is read back from its bytes |
| Codec.BytesAreDigits | include/zbxserialize.h:51-60 | byte k of a scalar is its k-th digit in base 256, the least significant first |
| Codec.SignedLayout | include/zbxserialize.h:51-60 | negative scalars are the digits of their remainder modulo 2^32 or 2^16 |
| Codec.StringLayout | include/zbxserialize.h:62-72 | a string is its size with terminator, its characters and a NUL; a NULL pointer is four zero bytes |
| Codec.VectorLayout | include/zbxserialize.h:74-82 | a vector is its size in bytes and then word after word |
| Codec.DecodeFailsExactly | include/zbxserialize.h:88-126 | a decoder takes what its width or length word says, and fails exactly when the buffer is shorter |
| Codec.LengthWordIsPayloadSize | include/zbxserialize.h:25-47 | the 32-bit length is the payload size modulo 2^32, right exactly when it fits |
| Codec.FieldRoundTrip | include/zbxserialize.h:51-126 | decoding takes exactly the field's bytes and returns the field exactly when its payload fits; NULL and empty differ |
| Codec.MessageRoundTrip | include/zbxserialize.h:51-126 | a message survives exactly when all its fields fit, whatever bytes follow |
| Codec.EncodingIsPrefixFree | include/zbxserialize.h:51-126 | per schema the encoding is injective and prefix-free |
| Codec.Prepare | include/zbxserialize.h:25-49 | the prepared size is the encoded size modulo 2^32, right exactly below 2^32 |
| Codec.SerializePrefixed | include/zbxserialize.h:62-82 | writes length and payload, or the null marker, and nothing beyond |
| Codec.SerializeField | include/zbxserialize.h:51-84 | writes exactly the encoding of the field at the offset |
| Codec.Serialize | include/zbxserialize.h:51-84 | writes exactly the encoding of the message and nothing beyond |
| Codec.Deserialize | include/zbxserialize.h:88-126 | reads the fields of a schema, failing exactly when the buffer is too short |
| Codec.DeserializeVector | include/zbxserialize.h:114-123 | appends the received words to what the target vector held |
| Codec.Exchange | include/zbxserialize.h:25-126 | prepared, written and consumed sizes agree and the message arrives unchanged |
| HeapLaws.BubbleUpStep | src/libs/zbxalgo/binaryheap.c:85-97 | a swap with the parent moves the only misplaced element up and mends everything below it |
| HeapLaws.BubbleDownStep | src/libs/zbxalgo/binaryheap.c:99-143 | a swap with the smaller child moves it down and keeps everything above it |
| HeapLaws.RootIsLeast | src/libs/zbxalgo/binaryheap.c:214-223 | the root of a heap is a least element |
| BinaryHeap.SwapCompletesIndex | src/libs/zbxalgo/binaryheap.c:38-51 | one swap repairs the key index even if it was stale for one of the two elements |
| BinaryHeap.Heap.constructor | src/libs/zbxalgo/binaryheap.c:147-182 | an empty heap with or without direct access |
| BinaryHeap.Heap.Swap | src/libs/zbxalgo/binaryheap.c:38-51 | exchanges two elements and re-registers both keys |
| BinaryHeap.Heap.BubbleUp | src/libs/zbxalgo/binaryheap.c:85-97 | restores heap order upwards and the index whenever it moves anything |
| BinaryHeap.Heap.BubbleDown | src/libs/zbxalgo/binaryheap.c:99-143 | restores heap order downwards and the index whenever it moves anything |
| BinaryHeap.Heap.FindMin | src/libs/zbxalgo/binaryheap.c:214-223 | a least element, none exactly when empty |
| BinaryHeap.Heap.Insert | src/libs/zbxalgo/binaryheap.c:225-245 | adds the element, keeps order and index; fails exactly on a duplicate key with direct access |
| BinaryHeap.Heap.UpdateDirect | src/libs/zbxalgo/binaryheap.c:247-269 | replaces the element of that key and no other, keeps order and index |
| BinaryHeap.Heap.RemoveMin | src/libs/zbxalgo/binaryheap.c:271-292 | removes exactly the root, keeps order and index |
| BinaryHeap.Heap.RemoveDirect | src/libs/zbxalgo/binaryheap.c:294-322 | removes exactly the element of that key, keeps order and index |
| BinaryHeap.Heap.Clear | src/libs/zbxalgo/binaryheap.c:324-330 | empties heap and index |
| BinaryHeap.Heap.Drain | src/libs/zbxalgo/binaryheap.c:214-292 | taking minima until empty yields the elements sorted |
| HashSet.Rehash | src/libs/zbxalgo/hashset.c:151-189 | the in-place rehash puts every entry in its chain and loses or invents none |
| HashSet.RehashChain | src/libs/zbxalgo/hashset.c:167-186 | one chain is cleared of foreign entries without disturbing finished chains |
| HashSet.ChainedTable.constructor | src/libs/zbxalgo/hashset.c:43-96 | an empty table, with or without slots |
| HashSet.ChainedTable.Locate | src/libs/zbxalgo/hashset.c:209-222 | the chain walk finds the entry of a key exactly when the key is present |
| HashSet.ChainedTable.Search | src/libs/zbxalgo/hashset.c:243-266 | returns the data of the key, none exactly when absent |
| HashSet.ChainedTable.Reserve | src/libs/zbxalgo/hashset.c:139-193 | leaves the contents; a table in use grows exactly at four fifths load, by one step, and so reaches the required number of slots exactly when it was empty or that step is enough |
| HashSet.ReserveFallsShort | src/libs/zbxalgo/hashset.c:151-189 | a table that ends with fewer slots than required |
| HashSet.ChainedTable.Insert | src/libs/zbxalgo/hashset.c:200-241 | adds a pair only for a new key and returns what is stored; exactly how many slots there are afterwards |
| HashSet.ChainedTable.InsertAll | src/libs/zbxalgo/hashset.c:200-241 | over a run of insertions the first pair of each key stays, the table has its first size or one it grew to at four fifths load, and all rehashing together visited at most two entries per slot |
| HashSet.ChainedTable.SlotsAreLinear | src/libs/zbxalgo/hashset.c:151-156 | so there are fewer than four slots per entry, up to a constant, if primes are as dense as Bertrand's postulate says |
| HashSet.ChainedTable.Remove | src/libs/zbxalgo/hashset.c:273-317 | removes exactly the key |
| TimeBuffer.WrapIsOneTurn | src/libs/zbxalgo/ring_buffer.c:34 | the index macro adds or drops whole turns |
| TimeBuffer.Create | src/libs/zbxalgo/ring_buffer.c:188-206 | an empty ring of blank slots, none exactly for size 0 |
| TimeBuffer.Ring.FreeTail | src/libs/zbxalgo/ring_buffer.c:54-69 | drops the oldest value, or one from the count of an overfull ring; fails exactly when empty |
| TimeBuffer.Ring.AddToHead | src/libs/zbxalgo/ring_buffer.c:103-137 | appends a newest value, exactly when it is refused, what a ring of one slot does instead, and that the times stay ascending except below a January 2038 stamp |
| TimeBuffer.Ring.AddToTail | src/libs/zbxalgo/ring_buffer.c:139-172 | prepends an oldest value, exactly when it is refused, and that the times stay ascending except above a non-positive oldest time |
| TimeBuffer.Ring.Upsize | src/libs/zbxalgo/ring_buffer.c:294-327 | growing keeps the contents exactly when what it blanks was blank; without blanks, when the ring is empty, wrapped, or starts at slot 0; it copies past the buffer exactly when the ring is overfull |
| TimeBuffer.Ring.UpsizeWrapped | src/libs/zbxalgo/ring_buffer.c:308-319 | a ring that wraps around is unrolled without loss |
| TimeBuffer.Ring.UpsizeFlat | src/libs/zbxalgo/ring_buffer.c:304-306 | a ring that does not wrap around loses as many of the newest values as there are slots before the tail |
| TimeBuffer.Ring.Lost | src/libs/zbxalgo/ring_buffer.c:304-306 | how many values growing blanks, zero exactly under that condition |
| TimeBuffer.Ring.Downsize | src/libs/zbxalgo/ring_buffer.c:329-357 | shrinking keeps the newest values but always claims a full ring, with stale slots in front when fewer values were stored; what it frees and when that aborts |
| TimeBuffer.FreeUntil | src/libs/zbxalgo/ring_buffer.c:336-339 | the freeing loop ends on every ring, and aborts exactly when it would pass the end of the buffer |
| TimeBuffer.Ring.FreesDroppedExactly | src/libs/zbxalgo/ring_buffer.c:336-339 | exactly the dropped values are freed when enough values are stored and none of the dropped is past the end of the buffer, and only then |
| TimeBuffer.CopyNewest | src/libs/zbxalgo/ring_buffer.c:341-345 | the wrapped copying loop copies the newest slots in order |
| TimeBuffer.Ring.Resize | src/libs/zbxalgo/ring_buffer.c:371-381 | refused exactly for sizes out of range or unchanged, otherwise grows or shrinks as above, with the exact condition for growing to keep the values |
| TimeBuffer.Ring.FindTimeIndex | src/libs/zbxalgo/ring_buffer.c:238-292 | fails exactly outside the oldest and newest time, otherwise returns a slot where the times pass the one asked for: the value in force when they are ascending |
| TimeBuffer.SearchRing | src/libs/zbxalgo/ring_buffer.c:254-291 | the wrapped binary search terminates on such a slot, whatever the order of the times |
| TimeBuffer.Midpoint | src/libs/zbxalgo/ring_buffer.c:257-262 | the probe of two wrapped indices is the wrapped midpoint, and its neighbour tests are right |
| TimeBuffer.Ring.HasEnoughUpTo | src/libs/zbxalgo/ring_buffer.c:383-401 | true exactly when that many values are stored up to the slot |
| TimeBuffer.Ring.HasEnoughAtTime | src/libs/zbxalgo/ring_buffer.c:403-412 | true exactly when that many values are stored up to the slot found |
| TimeBuffer.InForceSplits | src/libs/zbxalgo/ring_buffer.c:238-292 | with distinct times the slot found splits the values into those up to the time and those after |
| TimeBufferRuns.Drive | src/libs/zbxalgo/ring_buffer.c:54-172 | every run on at least two slots goes through the states of a bounded queue of two ends and refuses exactly what it refuses |
| TimeBufferRuns.TimesStayAscendingExactly | src/libs/zbxalgo/ring_buffer.c:108-151 | every run on values with allowed times stays ascending exactly when January 2038 is not allowed with an earlier time and no non-positive time with a later one |
| TimeBuffer.HeadLosesOrder | src/libs/zbxalgo/ring_buffer.c:111-115 | a history that leaves the times out of order at the head |
| TimeBuffer.TailLosesOrder | src/libs/zbxalgo/ring_buffer.c:147-150 | a history that leaves the times out of order at the tail |
| TimeBuffer.GrowingLosesNewest | src/libs/zbxalgo/ring_buffer.c:294-327 | a history after which growing loses the newest value |
| TimeBuffer.ShrinkingInventsValues | src/libs/zbxalgo/ring_buffer.c:329-357 | a history after which shrinking claims values that were never stored |
| TimeBuffer.ShrinkingFreesKept | src/libs/zbxalgo/ring_buffer.c:336-339 | a history after which shrinking has freed a value that it keeps |
| TimeBuffer.SingleSlotOverfills | src/libs/zbxalgo/ring_buffer.c:103-137 | a ring of one slot that counts two values and cannot grow any more |
| Int128.IncrementAdds | src/libs/zbxalgo/int128.c:177-186 | addition modulo 2^128 |
| Int128.DecrementSubtracts | src/libs/zbxalgo/int128.c:36-44 | subtraction modulo 2^128 |
| Int128.ShiftLeft32Multiplies | src/libs/zbxalgo/int128.c:80-96 | the shift by 32 multiplies by 2^32 while it fits |
| Int128.ShiftRight1Halves | src/libs/zbxalgo/int128.c:54-70 | the shift by one halves |
| Int128.OrIsBitwise | src/libs/zbxalgo/int128.c:94-95 | a bit of the result is set exactly when it is set in one of the operands |
| Int128.OrIsSum | src/libs/zbxalgo/int128.c:94-95 | bitwise or of bits that do not meet is addition |
| Int128.MultiplyAddAdds | src/libs/zbxalgo/int128.c:136-147 | two partial products add value times factor at the shift |
| Int128.MultiplyIsExact | src/libs/zbxalgo/int128.c:197-204 | the 128-bit result is the product of the two 64-bit values |
| Int128.AlignDivisor | src/libs/zbxalgo/int128.c:250-254 | the inner loop halves divisor and mask together and stops before the mask is shifted out |
| Int128.DivideLow | src/libs/zbxalgo/int128.c:238-262 | the shift-and-subtract loop ends in the quotient |
| Int128.Divide | src/libs/zbxalgo/int128.c:216-262 | the result is the quotient, for every dividend and every non-zero divisor |
| RateLimiter.Site.Enter | include/glb_log.h:53-67 | runs exactly when freq has passed since the last run, and then remembers the time |
| RateLimiter.RunsAreSpaced | include/glb_log.h:53-67 | successive runs are at least freq apart, whatever the clock does |
| RateLimiter.WindowBound | include/glb_log.h:53-67 | a window of w seconds holds at most w / freq + 1 runs |
| RateLimiter.RunsAreOptimal | include/glb_log.h:53-67 | on a clock that does not go back no other freq-spaced schedule runs more often or earlier |
| RateLimiter.Drive | include/glb_log.h:53-59 | a site runs exactly at the modelled times |
| TopK.TopIsDetermined | ui/auditacts.php:122-126 | the sorted and sliced list is the only sorted split of that size with nothing smaller left out |
| TopK.TopOfPart | ui/auditacts.php:103-126 | cutting one part to its own top does not change the top of the whole |
| AuditAlerts.NewestOfCollected | ui/auditacts.php:103-126 | the newest of the per-source newest alerts are the newest of all, for any number of sources |
| AuditAlerts.TopIsNewest | ui/auditacts.php:117-126 | the sorted slice has descending ids, and every alert left out has a smaller id than every one listed |
| AuditAlerts.FetchAlerts | ui/auditacts.php:103-126 | the page lists exactly the newest alerts of all sources, as many as the limit allows, their ids descending |
| TemplateClosure.LeastClosedSetIsDescendants | ui/report2.php:338-352 | the least closed set around the seeds is the set of descendants |
| TemplateClosure.Descendants | ui/report2.php:338-352 | the loop ends on every table and returns the descendants, the least closed set |
| SortOrder.LiftedIsLeast | ui/graphs.php:598-616 | the lifted list is pointwise the least strictly increasing list above the input |
| SortOrder.RaiseFrom | ui/graphs.php:608-612 | the inner loop raises by one exactly the elements that are not above their new predecessor |
| SortOrder.RaisedCascades | ui/graphs.php:608-612 | after p passes every later element has been raised by p, or by less if that puts it above its predecessor |
| SortOrder.RaisedExactly | ui/graphs.php:598-616 | which elements end up raised and how far: just above the repaired predecessor, but by no more than the clashes found up to there |
| SortOrder.UntouchedExactly | ui/graphs.php:607 | the list stays as it is exactly when no two neighbours were equal |
| SortOrder.UnchangedBeforeClash | ui/graphs.php:607 | everything up to the first equal pair stays as it is |
| SortOrder.Repair | ui/graphs.php:598-616 | the nested loops give the result of a single pass: between the input and its lifted list, no equal neighbours, unchanged exactly if there were none, the lifted list for a non-decreasing input |
| GraphDeletion.EarliestIsUnique | ui/graphs.php:714-732 | the earliest deletion time does not depend on the order of the items |
| GraphDeletion.ApplyItem | ui/graphs.php:721-731 | lowers the time of exactly the graphs of the item; a graph outside the table is fatal in PHP 8 and gets an entry in PHP 7.4 |
| GraphDeletion.Aggregate | ui/graphs.php:714-732 | each graph ends with the earliest positive time set for it; in PHP 8 the page fails exactly on a graph outside the table, in PHP 7.4 exactly such graphs are added |
| GraphDeletion.StrayGraph | ui/graphs.php:721-731 | an input on which the page fails, or lists a graph that is only a time |
| ItemSubfilters.PruneTags | ui/items.php:1038-1047 | keeps exactly the selected tags that some item carries |
| ItemSubfilters.VerdictsMean | ui/items.php:1091-1125 | an item passes all twelve subfilters exactly when each of its fields is among the values selected for it |
| ItemSubfilters.VerdictsAreIndependent | ui/items.php:1091-1125 | changing one field of an item changes no verdict but its own |
| ItemSubfilters.EvaluateAll | ui/items.php:1056-1126 | every item gets the verdict of all twelve subfilters, each about its own field and selection |
| ItemSubfilters.AnyPasses | ui/items.php:1130-1141 | whether some item passes every subfilter |
| ItemSubfilters.Reset | ui/items.php:1142-1151 | sets every subfilter but the one for tags to true |
| ItemSubfilters.Remove | ui/items.php:1237-1245 | keeps exactly the items without a negative verdict, in order |
| ItemSubfilters.PrunedTagsMatch | ui/items.php:1038-1047 | after pruning some item passes the tag subfilter |
| ItemSubfilters.PruningIsNeeded | ui/items.php:1142-1151 | without pruning a stale tag would hide every item in spite of the reset |
| ItemSubfilters.ShowItems | ui/items.php:1038-1151 | the items whose fields meet every selection if there are any, otherwise those that carry a selected tag; never empty for a non-empty list |
| Inventory.GroupHosts | ui/hostinventoriesoverview.php:99-116 | one group per value up to case, in the order of appearance, with the first value as title and the right count; the counts add up to the hosts with a value |
| Inventory.ExactMatches | ui/hostinventories.php:219-230 | when an exact value is asked for, keeps exactly the hosts whose value equals it up to case, otherwise all |
| Inventory.DrillDownMatchesCount | ui/hostinventoriesoverview.php:121-133 | the list behind a group holds exactly its hosts, as many as counted |
| Inventory.TruncationKeepsFirst | ui/hostinventories.php:249-258 | in either direction the kept hosts are the first by the sort key: none cut off comes before one kept, and only hosts beyond the limit are cut off |
| Inventory.DisplayedInOrder | ui/hostinventories.php:260 | the page shows the kept hosts in the direction asked for |
| Inventory.TruncationKeepsSameHosts | ui/hostinventories.php:249-258 | both sort directions keep the same hosts, for every list, limit and sorting routine |
| Inventory.DescendingIsReversed | ui/hostinventories.php:249-260 | with distinct sort keys the descending page is the ascending one reversed |

## Left out

- Vectors.Vector.SetDiff: subtracting a vector from itself is covered for comparators that find every element equal to itself, not for others.
- Vectors.Vector.AppendArray: takes its source as a value, so a source inside the vector's own buffer is not covered.
- Vectors.Vector.SortBy: says nothing about the order of elements that compare equal, because qsort does not.
- Inventory.DescendingIsReversed: the order of hosts with equal sort keys depends on the sorting routine of the PHP version.
- Allocation failure, `clear_ext` and other callbacks of the vector; they would add members without new proof content.
- `zbx_deserialize_bin` and `zbx_serialize_uint31_compact`: another length prefix and a small fixed-width bit packing.
- The growth of the heap's array, which is that of the vector, and its hash map, which is a finite map here.
- Linked chains of the hash set are sequences: pointer aliasing inside a chain is not modelled; neither are its iterator and copy.
- Whether the table sizes of the hash set are prime; only that they grow matters for what is proved.
- Shifts of 128-bit values by distances the arithmetic never uses.
- Pointer queues, linked lists, the string pool and the locking around the element hash.
- The expression evaluator, preprocessing, IPC, the agents and the database layer.
- `zbx_natural_str_compare_func`: the natural order of strings, a comparison routine of its own outside the containers.
- PHP loose comparison, natural string order, rendering, permissions, profiles and paging; API results are parameters.
- Overflow of the clock in the call guard: the sum of the last run and the period is required to fit an int.
