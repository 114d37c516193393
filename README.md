# max-bytes-cache in Dafny

A model of the two parts of max-bytes-cache that hold its logic:

- **The deep size estimator (size.go).** `calcSize` walks a Go value and adds up the bytes it occupies. It follows slices, maps, strings, pointers and interfaces, and it keeps one set of visited storage addresses for the whole walk. That set makes shared storage count once and makes cycles terminate.
- **The byte-bounded FIFO cache (cache.go).** `MaxBytesCache` keeps a map from string keys to values, plus a queue of the keys in the order they were set. After each `Set`, it evicts the oldest keys until the map's estimated size fits `maxBytes`. `Set` returns the summed sizes of the values it evicted.

Go's reflection is replaced by an explicit datatype, `Size.Value`:

- Every node carries the static width of its type.
- Every node that refers to storage carries that storage's address: a slice's backing array, a map, a string's bytes, and a pointer's target.
- Pointees live in a `Heap` that maps addresses to values, so a value can refer to itself through a pointer. Slice elements and map entries are held inline (see Left out).
- Address 0 is nil.

The walk appears twice:

- **As functions.** `Size.SizeOf`, `SizeOfSlice`, `SizeOfPointer`, `SizeOfMap`, `SizeOfAll`, `SizeOfEntries` and `SizeOfEntry` take the visited set and return it updated. This is the specification.
- **As methods.** `Size.Walk`, `WalkSlice`, `WalkStruct`, `WalkPointer`, `WalkMap`, `WalkAll`, `WalkEntries` and `WalkEntry` run the summing loops of size.go with a running `sum`. Each is proved to return exactly what the function returns.

The cache works the same way:

- `Cache.MaxBytesCache` is a class whose methods update `data` and `order` in place.
- Each method is proved equal to a function on snapshots: `Cache.ShiftOf`, `Cache.Evict` or `Cache.SetOf`.
- The properties of those functions are proved in `CacheFacts`.

Modules:

| file | module | contents |
|---|---|---|
| size.dfy | Size | value datatype, sizing functions, sizing methods |
| size_rules.dfy | SizeRules | the per-kind rules, one lemma each |
| size_facts.dfy | SizeFacts | when sizing succeeds; agreement with a naive tree size, pointees included, when nothing is shared |
| size_examples.dfy | SizeExamples | concrete walks: cycles, shared strings, nil pointers, maps |
| cache.dfy | Cache | snapshot functions, the `MaxBytesCache` class, `NewMaxBytesCache` |
| cache_facts.dfy | CacheFacts | FIFO eviction, the returned count, the budget, the covering invariant, the loop as written |

## Model

| member | source | states |
|---|---|---|
| Size.NoRuleOtherwise | size.go:98-139 | The kinds with no rule in sizeOf's switch are exactly those that are neither scalar nor composite: Invalid and UnsafePointer. |
| Size.SizeOf | size.go:25-140 | The visited set only grows. Sizing fails only with the kind of a node that has no rule. |
| Size.SizeOfSlice | size.go:40-58 | Slice sizing only grows the visited set, and fails only on a kind with no rule. |
| Size.SizeOfPointer | size.go:84-97 | Pointer sizing only grows the visited set, and fails only on a kind with no rule. It terminates on cyclic heaps because the target is marked before descending. |
| Size.SizeOfMap | size.go:107-130 | Map sizing only grows the visited set, and fails only on a kind with no rule. |
| Size.SizeOfAll | size.go:29-37 | The summing loop over elements or fields only grows the visited set. Its errors come from kinds with no rule. |
| Size.SizeOfEntries | size.go:113-127 | The loop over map entries only grows the visited set. Its errors come from kinds with no rule. |
| Size.SizeOfEntry | size.go:116-126 | One entry: the value is sized, then the key. The visited set only grows. |
| Size.CalcSize | size.go:10-15 | Sizing a value from an empty visited set fails only on a kind with no rule. A nil pointer argument fails with Invalid. |
| Size.MustCalcSize | size.go:17-23 | When sizing succeeds, the result is calcSize's byte count. |
| Size.SizeOfAllStopsAtError | size.go:31-36 | Once an element fails, later elements are not sized. The loop returns that error and that visited set. |
| Size.SizeOfEntriesStopsAtError | size.go:115-125 | Once an entry fails, later entries are not sized. |
| Size.SizeOfAllStep | size.go:31-36 | One pass of the summing loop either returns the element's error as the whole result, or adds the element's size to the running sum. |
| Size.SizeOfEntriesStep | size.go:115-127 | One pass of the map loop either returns the entry's error, or adds value size plus key size to the sum. |
| Size.SliceUnvisited | size.go:45-58 | An unvisited slice is its elements sized after marking its address, plus unused capacity and header. |
| Size.MapUnvisited | size.go:112-130 | An unvisited map is its entries sized after marking its address, plus header and floor(n*10.79). |
| Size.Walk | size.go:25-140 | The imperative walk returns the same result and visited set as SizeOf. |
| Size.WalkSlice | size.go:40-58 | The slice case returns what SizeOfSlice specifies. |
| Size.WalkStruct | size.go:59-75 | Field sizes plus declared width minus the fields' widths, computed by the padding loop, equal SizeOf. |
| Size.WalkPointer | size.go:84-97 | The pointer case returns what SizeOfPointer specifies. |
| Size.WalkMap | size.go:107-130 | The map case returns what SizeOfMap specifies. |
| Size.WalkAll | size.go:30-37 | The `for` loop with its running sum equals SizeOfAll, including the early error return. |
| Size.WalkEntries | size.go:113-127 | The `for` loop over the keys equals SizeOfEntries. |
| Size.WalkEntry | size.go:116-126 | Value then key equals SizeOfEntry. |
| SizeRules.ScalarIsWidth | size.go:98-106 | A scalar costs exactly its static width and leaves the visited set unchanged. |
| SizeRules.NoRuleFails | size.go:139 | A kind with no rule yields an error naming that kind, with the visited set unchanged. |
| SizeRules.ArrayAddsUnusedCapacity | size.go:29-39 | An array is its elements summed in order plus (cap - len) * elemWidth, which is 0, so the array costs exactly its elements. |
| SizeRules.StructAddsPadding | size.go:59-75 | A struct is its fields summed in order plus its padding, the declared width less the fields' static widths, which is never negative. |
| SizeRules.StringCountsDataOnce | size.go:76-83 | The first visit to a string's data costs length plus header and marks the data. A later visit costs the header only, whatever the length. |
| SizeRules.RevisitedStorageIsFree | size.go:42-44 | A slice or map whose address was visited costs 0, header included, and marks nothing. |
| SizeRules.FirstVisitMarksStorage | size.go:45-58 | An unvisited slice or map marks its address. Its size is its contents plus unused capacity and header (slice), or plus header and bucket slack (map). |
| SizeRules.PointerMarksBeforeDescending | size.go:84-97 | A nil or visited pointer costs its width alone. The target is always marked. Otherwise the pointee is sized with its address already marked, plus the pointer width. |
| SizeRules.InterfaceAddsHeader | size.go:131-136 | An interface is its dynamic value plus its header. A nil interface holds an Invalid value and fails. |
| SizeFacts.SupportedSucceeds | size.go:25-140 | The converse of SizeOf's error clause: if no basic node of v or of any heap value lacks a rule, sizing succeeds from any visited set. |
| SizeFacts.SupportedSucceedsAll | size.go:29-37 | The same for a sequence of elements. |
| SizeFacts.SupportedSucceedsEntries | size.go:113-127 | The same for map entries. |
| SizeFacts.SupportedSucceedsEntry | size.go:116-126 | The same for one entry. |
| SizeFacts.UnsharedSplit | size.go:25-140 | If the addresses of two consecutive parts are pairwise distinct and unvisited, each part's addresses are unshared in turn. |
| SizeFacts.UnsharedIsTreeSize | size.go:25-140 | Against an independent naive per-kind size that unfolds every non-nil pointer's pointee and sums siblings without deduplication: when no address the walk meets (pointees' addresses included) repeats or was visited, SizeOf equals the naive size and marks exactly those addresses. |
| SizeFacts.UnsharedSliceIsTreeSize | size.go:40-58 | The same for a slice: its address, then its elements. |
| SizeFacts.PointerUnfolds | size.go:84-97 | A non-nil, unvisited pointer is its pointee sized with the target marked, plus its width, in SizeOf and in the naive size, and its target comes first among the addresses met. |
| SizeFacts.UnsharedPointerIsTreeSize | size.go:84-97 | The same for a pointer: a nil pointer costs its width, any other adds its pointee's naive size. |
| SizeFacts.UnsharedMapIsTreeSize | size.go:107-130 | The same for a map: its address, then its entries. |
| SizeFacts.UnsharedIsTreeSizeAll | size.go:29-37 | The same for a sequence of elements. |
| SizeFacts.UnsharedIsTreeSizeEntries | size.go:113-127 | The same for map entries. |
| SizeFacts.UnsharedIsTreeSizeEntry | size.go:116-126 | The same for one entry. |
| SizeExamples.CycleStopsAtRevisit | size.go:84-97 | A struct holding a pointer to itself: the walk stops at the revisit. 8 + 8 bytes, with address 1 marked. |
| SizeExamples.TopLevelPointeeCountedTwice | size.go:10-15 | calcSize dereferences its argument without marking it, so the self-pointing struct is counted once more when reached again. |
| SizeExamples.SharedStringBytesCountedOnce | size.go:76-83 | Two 3-byte strings over the same data at address 5 count those bytes once: 3 + 16 + 16. |
| SizeExamples.NilPointerHidesLaterNilSlice | size.go:42-45 | A nil pointer marks address 0, so a later nil slice costs nothing, not even its header. |
| SizeExamples.NilSliceBeforeNilPointerCounted | size.go:84-91 | In the other order the slice header is counted: the result depends on field order. |
| SizeExamples.NilInterfaceFails | size.go:131-139 | A struct whose interface field holds nil fails with "unknown type: invalid". |
| SizeExamples.OneEntryMap | size.go:107-130 | One entry from a 2-byte string to an int: 8 for the value, 2 + 16 for the key, 8 for the header and floor(10.79) = 10 of slack, 44 in all. |
| SizeExamples.EmptyMapIsHeader | size.go:107-130 | An empty map costs its 8-byte header alone. |
| Cache.ShiftOf | cache.go:70-93 | shift pops exactly the front key. It takes that key's value if present, and deletes the key from the map. An empty queue changes nothing. |
| Cache.Evict | cache.go:51-64 | The eviction loop never lengthens the queue. It is the loop of cache.go with an added exit on an empty queue (see Findings). |
| Cache.SetOf | cache.go:34-45 | If the stored entry fits the budget, Set returns 0 and the state is the store plus the appended key, nothing else. |
| Cache.StepsAsWritten | cache.go:52-62 | The loop exactly as written, for n passes: the state and the running count. Within budget, it leaves the state alone and counts 0. |
| Cache.ShiftKeepsCovered | cache.go:77-90 | A shift keeps every remaining entry's key in the queue. |
| Cache.MaxBytesCache.constructor | cache.go:19-24 | A new cache has an empty map and queue, and stores maxBytes unchanged. |
| Cache.MaxBytesCache.Get | cache.go:27-32 | The stored value, or T's zero value for a missing key. Nothing changes. |
| Cache.MaxBytesCache.DataSize | cache.go:66-68 | The aggregate size of the entries is the sizing function of the cache's limits applied to its map. It exceeds maxBytes exactly when the snapshot is over budget. |
| Cache.MaxBytesCache.MaxBytesExceeded | cache.go:47-49 | True exactly when the map's size exceeds maxBytes. |
| Cache.MaxBytesCache.ShiftKey | cache.go:85-93 | Returns and removes the front key, or nil on an empty queue. The map is unchanged. |
| Cache.MaxBytesCache.Shift | cache.go:70-83 | The new state and returned value are those of ShiftOf. |
| Cache.MaxBytesCache.FreeToMaxBytes | cache.go:51-64 | The loop with its running count ends in the state, and with the count, that Evict gives. It keeps every entry queued. |
| Cache.MaxBytesCache.Set | cache.go:34-45 | The new state and returned count are those of SetOf. It keeps every entry queued. |
| Cache.NewMaxBytesCache | cache.go:12-25 | Fails exactly when sizing T's zero value fails, returning that error and no cache. Otherwise it returns a fresh empty cache holding maxBytes. |
| CacheFacts.DropNone | cache.go:51-64 | Dropping no positions changes nothing. |
| CacheFacts.ShiftDrop | cache.go:70-93 | A shift removes exactly the next queue position and that key's entry. |
| CacheFacts.ShiftFrees | cache.go:58-61 | A shift adds the value of a key at its oldest position, and 0 for a key already gone. |
| CacheFacts.EvictStops | cache.go:53-56 | Eviction ends within budget or with an empty queue. |
| CacheFacts.EvictFrom | cache.go:53-62 | Eviction started with the i oldest positions gone ends with the j oldest gone, for some j >= i. Its count is what positions i..j free: each key counted once, at its oldest position, with its current value. |
| CacheFacts.EvictPassesOverBudget | cache.go:54-56 | Every state eviction shifts from is over budget. |
| CacheFacts.EvictDropsOldest | cache.go:51-64 | From the start, eviction leaves the queue less its j oldest positions, and the map less those keys' entries. It counts exactly those keys' values, each once. |
| CacheFacts.EvictPassesOverBudgetFromStart | cache.go:54-56 | From the start, every state before the one eviction stops at is over budget. |
| CacheFacts.EvictIsOldestPrefix | cache.go:51-64 | FIFO eviction. It removes the oldest j positions and their keys' entries, and no others. It reports exactly their values' sizes. It stops at the first position where the budget holds. |
| CacheFacts.DropAllEmpties | cache.go:77-90 | With every entry queued, dropping all positions empties the map. |
| CacheFacts.EvictWithinBudget | cache.go:51-64 | After eviction the cache fits the budget or is empty. If an empty map fits the budget, it always fits. |
| CacheFacts.DropKeepsCovered | cache.go:77-90 | Dropping positions keeps every remaining entry queued. |
| CacheFacts.StoreKeepsCovered | cache.go:38-39 | Storing a value and appending its key keeps every entry queued. |
| CacheFacts.SetKeepsCovered | cache.go:34-45 | Set keeps every entry queued. |
| CacheFacts.SetKeepsNewValue | cache.go:38-44 | If the key Set stored survives eviction, it holds the value just given. |
| CacheFacts.FreshKeyEvictedLast | cache.go:38-62 | A new key is evicted only after every other entry: if it is gone, the cache is empty. |
| CacheFacts.ReSetCountsAtOldestPosition | cache.go:38-39 | A key set again keeps its older queue position. Reaching that position frees the new value, and the newer position frees nothing. |
| CacheFacts.AsWrittenStuckWhenEmpty | cache.go:53-62 | On an empty cache over budget, the loop as written is still over budget, still empty and still at count 0 after any number of passes. |
| CacheFacts.ZeroBudgetSetNeverReturns | cache.go:34-62 | With budget 0 and maps costing at least 8 bytes, Set("a", 1) never leaves the loop as written. |
| CacheFacts.AsWrittenAgreesWithinBudget | cache.go:51-64 | If an empty map fits the budget, the loop as written ends within len(order) passes, with the state and count Evict gives, within budget. |
| CacheFacts.AsWrittenMatchesEvict | cache.go:53-62 | If an empty map fits the budget, len(order) passes of the loop as written give the state and the count Evict gives. |

## Left out

- Mutex locking in `Get` and `Set` (cache.go:6, 28-29, 35-36). It is concurrency, so each call is modelled as atomic.
- main.go, a demo loop that prints sizes. main.go is not part of this model.
- Go's `reflect` and `unsafe`. Static widths and storage addresses are fields of `Size.Value` instead of being read from memory. A Go value is laid out as a `Value` by whoever calls the model.
- Map iteration order, which Go randomises. `Size.MapOf` holds its entries in one fixed order. Because results can depend on visiting order, no order-independence is claimed.
- Size.BucketOverhead: floor(n * 10.79) is computed exactly as n * 1079 / 100, not with float64 rounding.
- Size.SizeOf: running sums are unbounded naturals, so uint64 wrap-around of very large totals is not modelled.
- Size.MustCalcSize: the panic on a failed sizing is a precondition that sizing succeeds.
- Cache.MaxBytesCache: `dataSize` and `valSize` are total function parameters that stand for `mustCalcSize` of the map and of one value. The layout of a `T` value as a `Size.Value` is not derived. The size estimator fits only through a total wrapper around `Size.MustCalcSize`, that is, for types whose values always size successfully.
- Cache.MaxBytesCache.Set: the panic of `mustCalcSize` (size.go:20) inside `dataSize` is not modelled. With `T = []any`, construction succeeds, but `Set("a", []any{nil})` panics in Go after `data` and `order` were already changed; the model's `Set` always returns.
- Size.Value: slice elements and map entries are held inline in the value tree, and only pointers go through the heap. A slice or map that contains itself (through an interface, or a type like `type T []T`) can be written only as a finite unrolling cut at the first revisit. For such values, termination comes from the tree's structure, not from marking the slice or map address.
- Cache.NewMaxBytesCache: the zero value of `T` is passed in twice. `zero` is the value `Get` returns; `zeroLayout` is that value laid out for the size estimator.
- Cache.Evict: the loop also stops once the queue is empty. cache.go has no such exit. The loop as written is `Cache.StepsAsWritten` (see Findings).
- Cache.MaxBytesCache.FreeToMaxBytes: its `while` loop also stops once the queue is empty, as `Cache.Evict` does; cache.go has no such exit (see Findings).
- uint64 `maxBytes` and the returned count are naturals.

## Findings

| source | as written | input that shows it | evidently intended | confidence | as-written member | corrected member |
|---|---|---|---|---|---|---|
| cache.go:53-62 | The eviction loop exits only when the map's size is within `maxBytes`. Once the queue is empty, `shift` returns nil on every pass, and an empty map still costs its 8-byte header. | `NewMaxBytesCache[int](0)`, then `Set("a", 1)`: the entry is evicted, and the empty map's 8 bytes exceed 0 forever, so `Set` never returns. | Stop evicting once nothing is left to evict, leaving an empty cache. With that exit, eviction ends within budget or empty, and exactly within budget whenever an empty map fits. | not executed | CacheFacts.ZeroBudgetSetNeverReturns | CacheFacts.EvictWithinBudget |
