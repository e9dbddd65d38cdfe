# Cachery LRU caches in Dafny

This project models the two least-recently-used caches of Cachery:

- **The direct-lock cache** (`Cachery/lru.go`, `Cachery/helper.go`). It keeps
  a key-to-node map and a doubly linked list of nodes. The head is the most
  recently used node and the tail the least recently used. `Get` moves a hit
  to the head. `Set` inserts a new key at the head and evicts the tail when
  the map outgrows `cacheCapacity`.
- **The channel-pipeline cache** (`lru_cache.go`). It keeps a key-to-value
  map, the same kind of list, a node counter `len` and a `limit`. `Set` and
  `Get` hand their list work over channels to three closures:
  `insertToStart`, `deleteFromEnd` and `removeAndInsertAtStart`. Here each
  closure is a method, and the model runs them in the order the channels
  deliver the work.

Modules:

- `Recency` (`recency.dfy`): the list as a value, a sequence of entries from
  head to tail. It defines `Put` (a direct-lock write), `Touch` (a read) and
  `Admit` (a pipeline write), and proves their laws.
- `Arena` (`arena.dfy`): pointers become ids into a map of nodes. `Linked`
  ties the `left`/`right` links, `head` and `tail` to a ghost sequence of
  ids. The module also holds the relinking lemmas.
- `Cachery` (`cachery.dfy`): class `Lru` for the direct-lock cache. Its
  methods update the map, the arena, `head` and `tail` in place.
- `Pipeline` (`pipeline.dfy`): class `Lru` for the channel-pipeline cache.
- `Scenarios` (`scenarios.dfy`): the call sequences of `Cachery/lru_test.go`,
  plus the overflow that `Set` as written allows.
- `PipelineScenarios` (`pipeline_scenarios.dfy`): read-back and miss on a
  fresh pipeline cache.

Each class proves its methods against the value model:

- `Consistent()` says the map mirrors the list: the same keys, each listed
  once, with the same values.
- In the direct-lock cache, a read changes the list as `Touch` does. The
  corrected write changes it as `Put` does; as written, a write of a
  present key does not (see Findings).
- In the pipeline cache, a read changes the list as `Touch` does and a write
  as `Admit` does.

## Model

| member | source | states |
|---|---|---|
| Recency.MoveToFront | Cachery/helper.go:12-27 | moving one node to the head puts it first, shifts the nodes before it back by one, keeps the rest in place and is a permutation |
| Recency.Find | Cachery/lru.go:43 | the key lookup reports the first position holding the key, or none when no entry has it |
| Recency.Lookup | Cachery/lru.go:43-50 | the value a key reads: the value of the first entry with the key, or none when no entry has it |
| Recency.Touch | Cachery/lru.go:41-51 | a read: the entry of a present key moves to the head, others keep their order; an absent key leaves the list as it is |
| Recency.Trim | Cachery/lru.go:77-88 | at most one eviction: the tail goes when the list holds more than `cap` entries |
| Recency.Put | Cachery/lru.go:53-90 | the corrected direct-lock write: a present key takes the new value and moves to the head; a new key is prepended, then `Trim` evicts the tail when over capacity |
| Recency.Admit | lru_cache.go:43-69 | the pipeline write: a present key leaves the list alone; a new key is prepended, and the tail goes when the list was non-empty and had reached `limit` |
| Pipeline.Bump | lru_cache.go:102-128 | the reposition: the first entry after the head with the key moves to the front; without one, nothing changes |
| Arena.Unlinked | Cachery/helper.go:12-18 | the splice: the left neighbour's right link and the right neighbour's left link skip the node; every other node is as it was |
| Arena.Relinked | Cachery/helper.go:12-27 | the splice followed by the link in front of the head: node.left nil, node.right the head, head.left the node; every other node is as it was |
| Recency.UniqueKeySetSize | Cachery/lru.go:77 | with unique keys the number of distinct keys equals the list length, so `len(l.vals)` counts the nodes |
| Recency.KeySetMoveToFront | Cachery/helper.go:7-32 | moving a node to the head keeps the set of listed keys |
| Recency.UniqueMoveToFront | Cachery/helper.go:7-32 | moving a node to the head keeps the keys unique |
| Recency.TouchKeeps | Cachery/lru.go:46-48 | a read keeps the length, the multiset of entries, the key set and uniqueness of keys |
| Recency.TouchPromotes | Cachery/helper.go:8-27 | a read of a present key puts that key at the head; an absent key or the head key leaves the list unchanged |
| Recency.LookupAfterTouch | Cachery/lru.go:41-51 | a read changes no key's value |
| Recency.PutThenLookup | Cachery/lru.go:53-75 | after a write of k with a positive capacity, k holds the written value |
| Recency.PutExisting | Cachery/lru.go:59-63 | overwriting a present key keeps the key set and length and puts the new entry at the head |
| Recency.PutBelowCapacity | Cachery/lru.go:66-77 | a new key below capacity is prepended and nothing is evicted |
| Recency.PutEvictsLeastRecent | Cachery/lru.go:77-88 | a new key into a full list evicts exactly the old tail; its key is then absent and every other entry keeps its value |
| Recency.PutUniqueBounded | Cachery/lru.go:77-88 | writes keep keys unique and keep a list within a non-negative capacity within it |
| Recency.PutKeySet | Cachery/lru.go:59-88 | the key set after a write is the old key set plus k, minus the evicted tail key when an eviction happens |
| Recency.AdmitExisting | lru_cache.go:45-49 | a pipeline write of a present key leaves the list as it is |
| Recency.AdmitNew | lru_cache.go:45-69 | a new key goes to the head; the tail is evicted exactly when the list was non-empty and had reached `limit`; keys stay unique, the key reads back and the list stays within `limit` |
| Arena.NewNode | Cachery/helper.go:3-5 | a new node carries the key and value and has nil left and right links |
| Cachery.Configure | Cachery/lru.go:35-37 | the modifiers run in order: no modifier leaves the default, otherwise the last `WithCapacity` wins |
| Cachery.OverwriteIsPut | Cachery/lru.go:59-63 | writing the value into the key's node and moving it to the head is `Put` on a present key, keeping keys unique and the key set |
| Cachery.InsertIsPut | Cachery/lru.go:66-88 | linking a new key at the head and evicting the tail when the map exceeds capacity is `Put` on an absent key; the map's keys mirror the list and a bounded cache stays bounded |
| Cachery.Lru.constructor | Cachery/lru.go:29-39 | empty map, nil head and tail, capacity `DefaultCapacity` (10) after the modifiers run |
| Cachery.Lru.Alloc | Cachery/helper.go:3-5 | a fresh node goes into the arena, unused by the list; nothing else changes |
| Cachery.Lru.PushToStart | Cachery/helper.go:7-32 | the node ends up at the head and all other nodes keep their order; the head case changes nothing |
| Cachery.Lru.Promote | Cachery/helper.go:12-31 | the same for a node that is not the head: spliced out, then linked before the old head |
| Cachery.Lru.Splice | Cachery/helper.go:12-27 | the pointer writes: neighbours joined, the tail moved left if the node was the tail, node linked before the head |
| Cachery.Lru.Unlink | Cachery/helper.go:12-22 | the node's left and right neighbours are linked to each other; the tail becomes the left neighbour if the node was the tail |
| Cachery.Lru.LinkAtHead | Cachery/helper.go:24-31 | node.left nil, node.right the old head, old head.left the node, head the node, and an empty tail is set to the node |
| Cachery.Lru.Get | Cachery/lru.go:41-51 | ok exactly when the key is mapped; the value is the node's value; a hit moves the node to the head and a miss changes nothing; on a consistent cache this is `Lookup` and `Touch` |
| Cachery.Lru.LinkFront | Cachery/lru.go:68-75 | a new node becomes head and tail of an empty list, or is linked before the old head |
| Cachery.Lru.EvictTail | Cachery/lru.go:77-88 | the tail's key leaves the map and the tail node leaves the list; an empty list is left alone |
| Cachery.Lru.Insert | Cachery/lru.go:66-88 | a new key is mapped and linked at the head; one tail eviction happens when the map exceeds capacity |
| Cachery.Lru.Set | Cachery/lru.go:53-90 | corrected write: the list becomes `Put` of the old list, consistency is kept and a cache within capacity stays within it |
| Cachery.Lru.Overwrite | Cachery/lru.go:59-63 | corrected overwrite: the key's own node takes the value and moves to the head |
| Cachery.Lru.SetAsWritten | Cachery/lru.go:53-90 | write as written: on a present key the fresh node is pushed, so the list gains a second entry for the key while the map keeps the old node |
| Cachery.Lru.OverwriteAsWritten | Cachery/lru.go:57-63 | the old node takes the value and the unmapped fresh node is linked in front of the head |
| Cachery.Lru.Stop | Cachery/lru.go:92-96 | the map is empty, head and tail nil, and the cache is consistent and empty |
| Scenarios.WriteThenRead | Cachery/lru_test.go:30-34 | on any consistent cache with capacity at least 1, a write then a read of the same key returns the written value with true |
| Scenarios.SetGetScenario | Cachery/lru_test.go:30-41 | `TestSetGet`: read-back after the first write and after the overwrite |
| Scenarios.TwoWrites | Cachery/lru_test.go:109-110 | two writes at capacity 3 leave the newer key first |
| Scenarios.ReadOlder | Cachery/lru_test.go:112 | reading the older of two keys moves it to the head |
| Scenarios.WritesPastCapacity | Cachery/lru_test.go:113-114 | the fourth key at capacity 3 evicts the least recently used one |
| Scenarios.ReplaceTrace | Cachery/lru_test.go:106-114 | the whole `TestReplace` write and read sequence on the value model |
| Scenarios.ThreeEntries | Cachery/lru_test.go:116-127 | the final three entries hold the expected keys and values |
| Scenarios.FillAndRead | Cachery/lru_test.go:107-112 | the first writes and the read on the class |
| Scenarios.WriteTwoMore | Cachery/lru_test.go:113-114 | the last writes on the class evict key "2" |
| Scenarios.ReadBack | Cachery/lru_test.go:116-127 | "1" reads 23, "2" misses, "3" reads 90 |
| Scenarios.ReplaceScenario | Cachery/lru_test.go:106-127 | `TestReplace` end to end on the class |
| Scenarios.WriteTwice | Cachery/lru.go:59-63 | capacity 1, writing `a` twice as written leaves two list entries for the one key |
| Scenarios.WriteThird | Cachery/lru.go:77-88 | a third write evicts the unmapped node for `a`, so the map loses `a` |
| Scenarios.WriteFourth | Cachery/lru.go:77-88 | the fourth write evicts the other `a` node, removing a key that is already unmapped, so `b` and `c` both stay |
| Scenarios.OverflowAsWritten | Cachery/lru.go:62 | as written, the map ends with 2 keys at capacity 1 |
| Scenarios.NoOverflow | Cachery/lru.go:53-90 | the same writes under the corrected `Set` keep at most one key |
| Pipeline.BumpIsTouch | lru_cache.go:106-127 | with unique keys, the scan that skips the head is a read `Touch` |
| Pipeline.BumpFinds | lru_cache.go:108-123 | when the first node after the head with the key is at p, that node moves to the front |
| Pipeline.BumpMisses | lru_cache.go:108-127 | when no node after the head has the key, the list is unchanged |
| Pipeline.MirrorsLookup | lru_cache.go:31-40 | what the map answers for a key is what the list holds for it |
| Pipeline.MirrorsCons | lru_cache.go:45-48 | mapping a new key and prepending its node keeps map and list in step |
| Pipeline.MirrorsDropLast | lru_cache.go:86-87 | deleting the tail key and dropping the tail node keeps map and list in step |
| Pipeline.MirrorsPush | lru_cache.go:43-89 | a push, with or without the tail eviction, keeps map and list in step |
| Pipeline.MirrorsBump | lru_cache.go:102-128 | repositioning keeps map and list in step |
| Pipeline.InsertIsAdmit | lru_cache.go:54-69 | insert-then-maybe-evict with the eviction test `len >= limit` on a counted list is `Admit` |
| Pipeline.AdmitRoom | lru_cache.go:61-63 | a list within `limit` (one when `limit` is 0) stays within it after a write |
| Pipeline.TrackedEvicts | lru_cache.go:61-68 | while `len` counts insertions, the list size follows `min(len, limit)`, and `len >= limit` fires exactly when the list is full |
| Pipeline.Lru.constructor | lru_cache.go:150-165 | limit 15, `len` 0, empty map, nil head and tail |
| Pipeline.Lru.Alloc | lru_cache.go:167-172 | a fresh node goes into the arena, unused by the list |
| Pipeline.Lru.InsertToStart | lru_cache.go:54-69 | an empty list gets the node as head and tail; otherwise it is linked before the old head and eviction is requested iff `len >= limit`; `len` grows by one |
| Pipeline.Lru.DeleteFromEndAsWritten | lru_cache.go:82-89 | the tail key leaves the map and the tail moves left with a nil right link; `len` is not decremented, so a counter that matched the list no longer does |
| Pipeline.Lru.DeleteFromEnd | lru_cache.go:82-89 | corrected: the same, with `len` decremented, so a counter that matched the list still does |
| Pipeline.Lru.RemoveAndInsertAtStart | lru_cache.go:102-128 | the list becomes `Bump`: the first node after the head with the key moves to the front, otherwise nothing changes; map, `len` and list length stay the same |
| Pipeline.Lru.Scan | lru_cache.go:106-127 | the walk stops at the first node after the head with the key, or runs off the tail when there is none |
| Pipeline.Lru.MoveListed | lru_cache.go:109-121 | relinking the node at position p > 0 moves its entry to the front |
| Pipeline.Lru.MoveUp | lru_cache.go:110-121 | splice then link before the head; the tail becomes the left neighbour when the node was the tail |
| Pipeline.Lru.Detach | lru_cache.go:110-116 | the right neighbour takes the node's left link (or the tail does), and the left neighbour takes its right link |
| Pipeline.Lru.LinkUp | lru_cache.go:118-121 | node.left nil, node.right the old head, old head.left the node, head the node |
| Pipeline.Lru.Get | lru_cache.go:31-40 | corrected: ok exactly when the key is mapped, with its value; a hit repositions the key; on a consistent cache this is `Lookup` and `Touch` |
| Pipeline.Lru.GetAsWritten | lru_cache.go:31-40 | as written: ok is always true, and a miss returns no value |
| Pipeline.Lru.Push | lru_cache.go:45-49 | a new key is mapped and its node inserted; when eviction is requested, the tail goes and `len` is unchanged |
| Pipeline.Lru.PushAsWritten | lru_cache.go:45-49 | the same with the as-written evictor: `len` grows by one even after an eviction |
| Pipeline.Lru.Set | lru_cache.go:43-51 | corrected pipeline: a present key changes nothing; otherwise the list becomes `Admit`, consistency and `len == list length` are kept, and the list stays within `limit` |
| Pipeline.Lru.SetAsWritten | lru_cache.go:43-51 | as written: `len` grows by one per new key, the list size stays `min(len, limit)`, and the list still follows `Admit` |
| PipelineScenarios.WriteThenRead | lru_cache.go:31-51 | on a fresh cache a written key reads back with its value, and any other key misses under the corrected `Get` |
| PipelineScenarios.MissAsWritten | lru_cache.go:39 | as written, a read of a never-written key reports true with no value |
| PipelineScenarios.Miss | lru_cache.go:31-40 | corrected, the same read reports a miss |

## Left out

- Locking: the `sync.RWMutex` of both caches is left out. Each method runs as one sequential step. So is `Get` calling `pushToStart` outside the lock (Cachery/lru.go:42-47).
- Goroutines, channels and context: the `push`, `pop` and `updatePos` select loops (lru_cache.go:71-78, 91-98, 130-137) are left out. So is the worker startup in `NewLRU` (lru_cache.go:151-163). Their work runs as direct calls:
  - `Set` calls `InsertToStart`, then `DeleteFromEnd` when eviction was requested.
  - `Get` calls `RemoveAndInsertAtStart`.
  - A channel send made under the lock, and a dropped or reordered signal, are not modelled.
- The `ctx` parameters of `Get` and `Set` are unused and left out.
- Value types: values of type `any` become a type parameter `V`. The modelled caches never compare values.
- Garbage collection: nodes that leave the list stay in the arena, unreferenced. No pointer in the model reaches them.
- `Pipeline.Lru.constructor`: `len` and `limit` are `nat`, and the `uint64` wrap-around of `len` is not modelled, since it takes 2^64 insertions.
- The pipeline's `WithLimit` modifier is left out, so the pipeline constructor always uses limit 15. `modifiers.go:9` assigns an `int64` to the `uint64` field and does not type-check. The lemmas take any `limit`.
- The `NewCache` factory in `Cachery/instance.go` is left out. It is a dispatch wrapper. `Cache.Stop` appears only on the direct-lock cache.
- `Pipeline.Lru.DeleteFromEndAsWritten` requires at least two listed nodes. With fewer, the code would dereference a nil `l.tail.left` (lru_cache.go:88). Eviction is only requested when the list held a node before the insert, so callers always meet this.
- `deleteFromEnd` neither decrements `len` nor guards an empty or one-node list (lru_cache.go:82-89). The model follows the code and records the missing decrement under Findings.
- `TestExtrusion` (Cachery/lru_test.go:43-104) has no scenario of its own. `Recency.PutEvictsLeastRecent` states its point for any full list: an 11th key at capacity 10 evicts the least recently used entry.

## Findings

| source | as written | input that shows it | evidently intended | confidence | as-written member | corrected member |
|---|---|---|---|---|---|---|
| Cachery/lru.go:62 | `Set` on a present key updates the existing node but pushes the fresh `node`. The list then holds two nodes for the key, and a later eviction can drop a key that is already unmapped. | capacity 1: Set a,1; Set a,2; Set b,3; Set c,4. The map ends with keys {b, c}, 2 keys over capacity 1. | push `existingNode`, so the key keeps one node and the map stays within capacity | not executed | Scenarios.OverflowAsWritten | Scenarios.NoOverflow |
| lru_cache.go:39 | `Get` returns `true` whatever the lookup found | `Get("k")` on a fresh cache returns (true, nil) | return `ok` | not executed | PipelineScenarios.MissAsWritten | PipelineScenarios.Miss |
| lru_cache.go:86-88 | `deleteFromEnd` removes the tail but never decrements `len` | after limit+1 distinct writes, `len` is limit+1 while the list holds limit nodes | `l.len--` after the unlink | not executed | Pipeline.Lru.DeleteFromEndAsWritten | Pipeline.Lru.DeleteFromEnd |
