# krproject verification

krproject is an in-memory streaming rule engine. This project models the data structures,
the concurrent queue, the two codecs, the rule parser and the rule evaluator it rests on, and
proves what they are relied on for. `dafny verify dfyconfig.toml` checks everything.

Code that changes objects in place is modelled by classes and methods with the same fields
and loops, each proved against a specification function or predicate; what the source
promises is then proved about that specification for all inputs or all runs.

| files | source | main results |
|---|---|---|
| Probing, HashSpec, HashTable, HashRuns | krutils/kr_hashtable.c | Triangular probing modulo 2^n meets every slot, so every probe and rehash loop ends. After any run of insert, replace, remove, steal, foreach_remove, foreach_steal, remove_all and steal_all, a lookup returns what the history of operations on the key's equivalence class says. |
| LinkedList, Queue | krutils/kr_list.c, krutils/kr_queue.c | The doubly linked list refines a sequence; sorted insertion is stable. |
| KrdbSpec, KrdbHistory, KrdbOrder, KrdbIndex, Krdb | krdb/kr_db_kernel.c | After any sequence of insertions into any rings, every query on a table-wide or database-wide index returns exactly the live records with the key, each once, in the order the index code makes of the history. That order is insertion or stable sort order for every history if and only if the tables that share the index agree on the sort field. The hash tables are the real ones, keyed by pointers into record buffers that are overwritten; no stored pointer is ever stale. |
| SkipList | krutils/kr_skiplist.c | For every choice of random levels the lanes stay linked in order and the list refines a strictly ascending sequence. |
| RingTexts, ConHash | krutils/kr_conhash.c | An object belongs to the node one of whose texts, its name, a dash and a number below its weight, has the first hash clockwise. Minimal disruption: adding, removing or re-weighting a node moves objects only to or from that node. |
| ThreadPool | krutils/kr_threadpool.c | In every interleaving: no lost wakeup, no deadlock, tasks conserved in order and run once; the busy-wait test outside the mutex is enough exactly for a single producer. |
| JsonSpec, JsonGrammar, JsonSentences, JsonEscapes, Json | krutils/kr_json.c | Every text that RFC 8259 allows for a value is parsed as that value, wherever its white space is, and everything the printers write is such a text of the value printed, laid out tab by tab. Parsing what either printer wrote gives the tree back. The printers stay inside the buffers their first pass sized, with one exception that is characterised exactly. The parser does not: which escapes take it out of the text, and which literals it reads without a fault whatever follows them, is stated for all texts. |
| Framing | krserver/kr_server_protocol.c, krserver/kr_server_network.c | A frame is 44 bytes of header, numbers with the highest byte first, and the body. However a stream is cut into reads, the server handles exactly the messages sent if and only if they all fit its buffer. |
| Cache, HdiCache | krutils/kr_cache.c, krdata/kr_hdi_cache.c | The cache holds exactly the most recently requested keys, in order of recency. |
| CalcTables, CalcGrammar, CalcStack, CalcAccept, CalcValue, CalcParser | krcalc/kr_calc_parser_bison.c | The parser driven by the generated tables accepts exactly the sentences with a layered parse, of which there is only one, and stores its tree. What that tree evaluates to is what the numbers of the tokens say. |
| CalcSpec, CalcLaws, Calc | krcalc/kr_calc_tree.c | The in-place evaluator computes a state-free big-step meaning, which in exact arithmetic obeys the laws of sums, remainders, comparisons, and, or and not; what passes the check evaluates without a type error, and traps exactly at two kinds of remainder. |
| Options, Sequences, Decimals | | What several of the others share. |

Where the code says something else than its comments or its documentation, the model follows
the code:

- The grammar file declares `&&` tighter than `||` (krcalc/kr_calc_parser_bison.y:31-32), but
  both are alternatives of one nonterminal, so the tables put them on one left-associative level.
- krutils/kr_list.c:150-154 leaves the value of a deleted node to the caller, but the list's
  free function is called on it when there is one (krutils/kr_list.c:164).
- kr_cache_set_max_size evicts the difference of the limits even when the cache is not full.
  `Cache.ShrinkEvictsTooMuch` is an instance, `Cache.ShrinkIsMinimal` says when it happens.
- A record is sorted into the list of a database-wide index by the sort field of its own table's
  index, applied to the records of all tables (krdb/kr_db_kernel.c:166). Where the sort fields
  differ the list is not sorted: `KrdbOrder.SortedByTheWrongField` is an instance,
  `KrdbOrder.SortedIffAgree` says when it happens, `KrdbOrder.AgreementGrows` what to check when
  an index is created.
- parse_string steps four characters at `\u` whatever sscanf has read there
  (krutils/kr_json.c:169), so that it may pass the closing quote, or the end of the text, and write
  more than it has counted. `JsonEscapes.OverflowInstance` and `JsonEscapes.OutsideInstance` are
  instances; `JsonEscapes.LiteralSafe` and `JsonEscapes.LeavesTheText` say when it happens.
- The remainder of two numbers is taken as that of two ints (krcalc/kr_calc_tree.c:383), which
  traps for a zero divisor and for the smallest int by -1. `CalcSpec.CheckedIsSound` says that a
  checked expression has no other way to fail.
- print_object allocates one byte too few for a formatted empty object at depth 0.
  `Json.EmptyObjectOverflows` is the instance, `Json.ObjectBufferFits` says it is the only one.
- kr_server_on_read asks read() for no bytes once a frame longer than the buffer fills it, and
  takes the answer for the end of the connection. `Framing.StuckOnEncoded` says when.
- The busy-wait test of kr_threadpool_add_task does not keep the push from failing when two
  producers pass it together. `ThreadPool.BusyWaitSuffices` says when it does.

## Model

| member | source | states |
|---|---|---|
| Probing.MaskIsMod | krutils/kr_hashtable.c:83-89 | masking with n one-bits is the remainder modulo 2^n |
| Probing.ProbeIsTriangular | krutils/kr_hashtable.c:148-171 | the k-th probe is the start plus the k-th triangular number modulo 2^n |
| Probing.ProbeInjective | krutils/kr_hashtable.c:148-171 | the first 2^n probes are pairwise different |
| Probing.ProbeCovers | krutils/kr_hashtable.c:148-171 | from any start, every slot is among the first 2^n probes |
| HashSpec.StopAtEmpty | krutils/kr_hashtable.c:148-171 | a probe that meets an empty slot may stop: no slot of the whole table matches the key |
| HashSpec.ChainedUpdate | krutils/kr_hashtable.c:255-287 | filling a slot on its own probe sequence, or erecting a tombstone, keeps every live node reachable before any empty slot |
| HashSpec.FillSlot | krutils/kr_hashtable.c:612-619 | using a free slot keeps chains, uniqueness and hashes, and adds exactly one entry to the abstract map |
| HashSpec.ReplaceSlot | krutils/kr_hashtable.c:591-611 | overwriting an equivalent key keeps the table invariant and replaces the one entry of the key's class |
| HashSpec.EraseSlot | krutils/kr_hashtable.c:269-291 | a tombstone keeps the table invariant and removes exactly one entry |
| HashSpec.SameContents | krutils/kr_hashtable.c:341-380 | a slot array represents one abstract map only |
| HashSpec.StoredKeysIntact | krdb/kr_db_kernel.c:171-192 | a table stays sound while the contents of its own stored keys do not change, whatever happens to other memory |
| HashTable.ShiftFits | krutils/kr_hashtable.c:24-89 | every size of the table has a modulus in the source's list that is positive and at most the size |
| HashTable.FindClosestShift | krutils/kr_hashtable.c:92-101 | the result is the number of significant bits: n lies between 2^(i-1) and 2^i |
| HashTable.EmptyAhead | krutils/kr_hashtable.c:148-171 | in a table that is not full every probe sequence meets an empty slot, so the probe loops end |
| HashTable.HashTable.constructor | krutils/kr_hashtable.c:445-470 | a new table is empty, with 8 slots, and satisfies all invariants |
| HashTable.HashTable.SetShift | krutils/kr_hashtable.c:74-90 | size, modulus and mask agree: 2^shift, the prime of the shift, 2^shift - 1 |
| HashTable.HashTable.LookupNode | krutils/kr_hashtable.c:131-175 | the entry matching the key, or an empty slot certified by a probe that met no match; never a tombstone |
| HashTable.HashTable.LookupNodeForInsertion | krutils/kr_hashtable.c:198-260 | the entry matching the key, or the first free slot on its probe sequence with a certificate that no entry matches |
| HashTable.HashTable.RemoveNode | krutils/kr_hashtable.c:269-291 | exactly this entry leaves the map, its slot becomes a tombstone, the notifiers get its old key and value |
| HashTable.HashTable.FindHole | krutils/kr_hashtable.c:362-372 | the rehash loop ends at the first empty slot of the probe sequence |
| HashTable.HashTable.Rehash | krutils/kr_hashtable.c:356-377 | an old entry is stored in the new array once, and the new array stays a sound table |
| HashTable.HashTable.Resize | krutils/kr_hashtable.c:341-380 | contents unchanged, no tombstones left, size more than twice and at most four times the entries (or 8) |
| HashTable.HashTable.MaybeResize | krutils/kr_hashtable.c:391-400 | resizes exactly when the load is out of bounds; afterwards size > noccupied + noccupied/16 and size <= max(8, 4*nnodes), with the same contents |
| HashTable.HashTable.InsertInternal | krutils/kr_hashtable.c:576-629 | the map gets the value under the kept or the new key of the class; the notifiers get exactly the replaced value and the dropped key |
| HashTable.HashTable.Insert | krutils/kr_hashtable.c:645-650 | insert keeps the old key of an existing class |
| HashTable.HashTable.Replace | krutils/kr_hashtable.c:666-671 | replace takes over the new key |
| HashTable.HashTable.LookupExtended | krutils/kr_hashtable.c:533-558 | returns the stored key and value of the class, if and only if there is one |
| HashTable.HashTable.Lookup | krutils/kr_hashtable.c:501-514 | returns the stored value of the key's class; nothing only if no entry matches |
| HashTable.HashTable.RemoveInternal | krutils/kr_hashtable.c:687-711 | reports whether the class was present and removes exactly it; remove notifies, steal does not |
| HashTable.HashTable.RemoveAllNodes | krutils/kr_hashtable.c:301-330 | all slots empty, the notifiers called on every entry in slot order |
| HashTable.HashTable.RemoveAll | krutils/kr_hashtable.c:762-787 | the map is empty and the table back at 8 slots |
| HashTable.HashTable.Sweep | krutils/kr_hashtable.c:806-829 | after the loop each slot is as before, or a tombstone where the function asked for removal |
| HashTable.HashTable.ForeachRemoveOrSteal | krutils/kr_hashtable.c:806-837 | exactly the entries the function accepts are gone, the count and the notifications are theirs |
| HashTable.HashTable.MemoryChanges | krdb/kr_db_kernel.c:171-192 | when memory behind the keys changes and no stored key changes its hash or its equalities, the table is sound for the new memory without being touched |
| HashRuns.RunFindsExpected | krutils/kr_hashtable.c:576-829 | in the abstract map of any run, a lookup is decided by the last operation that concerns the key's class |
| HashRuns.Perform | krutils/kr_hashtable.c:645-880 | every public operation does to the table what it does to the abstract map |
| HashRuns.RunThenLookup | krutils/kr_hashtable.c:131-829 | after any sequence of operations on a real table, a lookup returns what the history says; a key found is equal to the key looked up |
| LinkedList.SortedInsertion | krutils/kr_list.c:106-147 | sorted insertion keeps the list sorted and puts the element after all it ties with |
| LinkedList.List.AddHead | krutils/kr_list.c:52-71 | the value becomes the first element, links stay sound |
| LinkedList.List.AddTail | krutils/kr_list.c:78-97 | the value becomes the last element |
| LinkedList.List.AddSorted | krutils/kr_list.c:106-147 | the value enters at the position where the walk from the tail stops |
| LinkedList.List.Delete | krutils/kr_list.c:154-167 | exactly that node leaves the list, its value goes to the free function if there is one |
| LinkedList.List.Search | krutils/kr_list.c:235-253 | the first matching node from the head, or none |
| LinkedList.List.Remove | krutils/kr_list.c:278-297 | the first matching node leaves the list, if there is one, and its value goes to the free function if there is one |
| LinkedList.List.MoveHead | krutils/kr_list.c:325-338 | the node becomes the head, the others keep their order |
| Queue.Queue.Push | krutils/kr_queue.c:24-39 | appends below the high-water mark, otherwise refuses and changes nothing |
| Queue.Queue.Pop | krutils/kr_queue.c:42-63 | takes the oldest element, or nothing from an empty queue |
| KrdbSpec.IndexKeysIntact | krdb/kr_db_kernel.c:171-192 | in a sound index every stored key pointer still points to the contents it was hashed with |
| KrdbSpec.OrderedUnique | krdb/kr_db_kernel.c:155-172 | two lists with the same elements that are strictly ordered in the same way are equal |
| KrdbSpec.ListInsert | krdb/kr_db_kernel.c:165-169 | with the new record put in at any position the list has exactly the live records with its key, once each, in the order their insertions are wanted in |
| KrdbSpec.IndexInsert | krdb/kr_db_kernel.c:155-172 | entering a record into one index makes it right for the live records plus the new one: members, order and stored key |
| KrdbSpec.IndexDelete | krdb/kr_db_kernel.c:175-197 | taking a record off its list, with re-keying to the last record left or removal of the key, makes the index right for the live records without it |
| KrdbSpec.RekeyedOk | krdb/kr_db_kernel.c:182-192 | re-keying to the last record of the list, possibly of another table, leaves the same key with a pointer into a live record |
| KrdbSpec.IndexFrame | krdb/kr_db_kernel.c:245-265 | recycling the buffer of a deleted record changes nothing an index refers to |
| KrdbHistory.SlotDistinct | krdb/kr_db_kernel.c:206-210 | two insertions less than the capacity apart are in different slots; at exactly the capacity, in the same one |
| KrdbHistory.RingInsert | krdb/kr_db_kernel.c:200-213 | the ring holds exactly the last insertions of its table, up to its capacity |
| KrdbHistory.RingOccupied | krdb/kr_db_kernel.c:249-255 | the slot to be reused holds a live record exactly when the ring is full |
| KrdbHistory.ListMembers | krdb/kr_db_kernel.c:155-197 | whatever the sort fields, the list the index code makes of a history has all live insertions with the key, once each |
| KrdbOrder.ListAnswers | krdb/kr_db_kernel.c:165-169 | if the tables that share an index agree on the sort field, that list is sorted, ties by age, and no comparison reads a field a record does not have |
| KrdbOrder.SortedIffAgree | krdb/kr_db_kernel.c:166 | every history gets every key's list right if and only if the tables that share the index agree on the sort field, or sort by the key or not at all with the key in the same field |
| KrdbOrder.SortedByTheWrongField | krdb/kr_db_kernel.c:166 | two tables that sort by their second and third field: 3 is put after 5 |
| KrdbOrder.AgreementGrows | krdb/kr_db_kernel.c:72-130 | a new index keeps the tables in agreement if and only if its sort field suits those already on the hash table |
| Krdb.AnswerOk | krdb/kr_db_kernel.c:384-388 | a sound index answers each key with the list of the history, which has the right members, and is the right answer if the sort fields agree |
| KrdbHistory.AnswerUnique | krdb/kr_db_kernel.c:384-388 | the history leaves one right answer only: any two agree in members and order |
| KrdbHistory.AnswerInOrder | krdb/kr_db_kernel.c:165-169 | of two records in the right answer the first is no larger in the sort fields, and older if they are equal; without a sort field it is older |
| KrdbIndex.StoredMatch | krdb/kr_db_kernel.c:87-107 | while no stored pointer is stale, a key of the table matches a search key exactly if it is the one pointer filed under the contents searched for |
| KrdbIndex.StoresElsewhere | krdb/kr_db_kernel.c:245-265 | when record buffers are overwritten and no stored pointer goes stale, the table stands for the same entries, and its keys hash and compare as before |
| KrdbIndex.RecIndex.Lookup | krdb/kr_db_kernel.c:159 | the real table, with keys that point into record buffers, returns the list filed under the contents searched for, or nothing |
| KrdbIndex.RecIndex.Replace | krdb/kr_db_kernel.c:171 | the list is filed under the contents the new pointer points to, and the new pointer is the stored key even where an equal one was |
| KrdbIndex.RecIndex.Remove | krdb/kr_db_kernel.c:195 | exactly the entry with the pointed-to contents leaves the table |
| KrdbIndex.RecIndex.MemoryChanges | krdb/kr_db_kernel.c:245-265 | the table answers as before for the overwritten buffers if no stored pointer goes stale |
| Krdb.Db.MemoryChanges | krdb/kr_db_kernel.c:245-265 | so do all tables of a database at once |
| Krdb.Db.RebuildIndexIns | krdb/kr_db_kernel.c:155-172 | the walk by the index's own sort field puts the record where the history has it; the index is right for the live records plus the new one, all other indexes untouched |
| Krdb.Db.RebuildIndexDel | krdb/kr_db_kernel.c:175-197 | the index is right for the live records without the deleted one, all other indexes untouched |
| Krdb.Db.DeleteRecord | krdb/kr_db_kernel.c:216-226 | the record leaves every index of every table, the count of its table drops by one |
| Krdb.Db.CreateRecordFromData | krdb/kr_db_kernel.c:245-265 | the overwritten record is deleted first, the next slot gets the new fields, all indexes stay right |
| Krdb.Db.InsertRecord | krdb/kr_db_kernel.c:200-213 | the record enters every index of its table; count and location advance around the ring |
| Krdb.Db.Insert | krdb/kr_db.c:309-328 | every insertion keeps the database consistent and appends to the history; an unknown table gives nothing and changes nothing |
| Krdb.Db.Select | krdb/kr_db.c:291-306 | the records returned are live, are the list of the history with exactly the right members, and are the right answer if the sort fields agree; nothing without a table or index |
| Krdb.Db.constructor | krdb/kr_db_kernel.c:354-371 | an empty database is consistent |
| Krdb.Db.CreateTable | krdb/kr_db_kernel.c:283-337 | a new empty ring keeps the database consistent |
| Krdb.Db.CreateIndex | krdb/kr_db_kernel.c:72-130 | a table index gets a hash table of its own, a database index shares that of its namesake whatever either sorts by, other types are refused |
| Krdb.Db.InsertAllThenSelect | krdb/kr_db.c:291-328 | after any insertions any query returns exactly the live records with the key, once each, with the fields they were inserted with, in the order of the history's list; sorted, ties by age, if the tables that share the index agree on the sort field |
| SkipList.NextInsert | krutils/kr_skiplist.c:122-126 | what each node sees next on each lane after a node of any height is put in |
| SkipList.NextRemove | krutils/kr_skiplist.c:139-143 | what each node sees next on each lane after a node is taken out |
| SkipList.RankFinds | krutils/kr_skiplist.c:109-113 | in an ascending list the element is present exactly if the node the walk ends at is it |
| SkipList.AscendingMeans | krutils/kr_skiplist.c:81-100 | an ascending list is ordered by key, and by the comparison where keys are equal |
| SkipList.InsertedAscending | krutils/kr_skiplist.c:104-130 | insertion keeps the list strictly ascending by key and comparison |
| SkipList.RemovedAscending | krutils/kr_skiplist.c:132-155 | deletion keeps it strictly ascending |
| SkipList.SkipList.LookupInternal | krutils/kr_skiplist.c:81-100 | the walk ends at the element's rank and notes the last node before it on every lane |
| SkipList.SkipList.Splice | krutils/kr_skiplist.c:122-126 | linking a node into the lanes below its height leaves every lane linked in order |
| SkipList.SkipList.Bypassing | krutils/kr_skiplist.c:139-143 | unlinking a node leaves every lane linked in order |
| SkipList.SkipList.LowerLevel | krutils/kr_skiplist.c:147-148 | the level comes down to the height of the tallest node, or 1 |
| SkipList.SkipList.Insert | krutils/kr_skiplist.c:104-130 | for every level from 1 to 12 the abstract list gains the element, or its value is replaced |
| SkipList.SkipList.Delete | krutils/kr_skiplist.c:132-155 | exactly the equal element leaves the list; 0 if it was there, -1 if not |
| SkipList.SkipList.Lookup | krutils/kr_skiplist.c:158-168 | the stored value, if and only if an equal element is present |
| SkipList.SkipList.LookupCycle | krutils/kr_skiplist.c:186-206 | the first element with at least the key, or the smallest, or nothing from an empty list |
| ConHash.VidInjective | krutils/kr_conhash.c:154 | for ids below 100 characters the virtual node names are injective in node and number, and never truncated |
| RingTexts.WrittenOnce | krutils/kr_conhash.c:154 | a number is written in one way with at least three digits and no other leading zeros |
| ConHash.PaddedWritten | krutils/kr_conhash.c:154 | %03d writes the number that way |
| ConHash.StrcmpEarlier | krutils/kr_conhash.c:60-76 | strcmp is negative exactly for the text that comes first by its characters |
| ConHash.VNodeOrder | krutils/kr_conhash.c:60-76 | ordering by strcmp is a total preorder, as the skip list demands |
| ConHash.CyclicIsSoonest | krutils/kr_conhash.c:253-264 | the virtual node found is the first one met clockwise from the object |
| ConHash.OwnerDiffers | krutils/kr_conhash.c:146-182 | rings that differ only in one node's virtual nodes agree on all objects but those the larger gives to that node |
| ConHash.OwnerRegistered | krutils/kr_conhash.c:253-264 | owners are registered nodes with weight; there is no owner exactly if no node has weight |
| ConHash.OwnersFollowTheTable | krutils/kr_conhash.c:199-264 | the owner of an object depends only on who is registered with what weight, not on the order of operations |
| ConHash.RegisteredByName | krutils/kr_conhash.c:151-156 | a ring element is a registered node's name, a dash and a number below its weight in digits, at the hash of that text |
| ConHash.OwnerByTexts | krutils/kr_conhash.c:253-264 | an object belongs to a node if and only if one of its texts has the first hash clockwise among the texts of all registered nodes, ties going by the order of the texts |
| ConHash.RingGrows | krutils/kr_conhash.c:151-159 | each virtual node put on the ring is new, and nothing else changes |
| ConHash.RingShrinks | krutils/kr_conhash.c:173-177 | each virtual node taken off was there, and nothing else changes |
| ConHash.NodeHit | krutils/kr_conhash.c:185-196 | the node list finds exactly the registered ids |
| ConHash.ConHash.InsertNode | krutils/kr_conhash.c:146-165 | the ring holds the texts of the registered nodes, the new one included, each at its hash, and nothing else; objects move only to the new node |
| ConHash.ConHash.DeleteNode | krutils/kr_conhash.c:168-182 | the node and all its virtual nodes are gone; only its own objects move |
| ConHash.ConHash.Lookup | krutils/kr_conhash.c:185-196 | a node is found if and only if it is registered |
| ConHash.ConHash.Add | krutils/kr_conhash.c:199-210 | adding a node moves objects only to that node |
| ConHash.ConHash.Remove | krutils/kr_conhash.c:213-225 | removing a node moves only the objects that were on it; -1 and no change for an unknown id |
| ConHash.ConHash.AdjustWeights | krutils/kr_conhash.c:228-250 | re-weighting never moves an object between two other nodes |
| ConHash.ConHash.Locate | krutils/kr_conhash.c:253-264 | the owner is the node with the first text clockwise from the hash of the object, none if and only if no node has weight; one kick is counted on it, modulo 0xFFFFFFFF, and nothing else changes |
| ThreadPool.MutexKept | krutils/kr_threadpool.c:162-205 | every step keeps exactly the thread inside its critical section as the owner of the mutex |
| ThreadPool.ConservedKept | krutils/kr_threadpool.c:162-205 | every step keeps: accepted tasks are the tasks taken followed by the queue, which is within hwm |
| ThreadPool.CustodyKept | krutils/kr_threadpool.c:36-66 | every step keeps: a task taken is finished, or with the one worker that took it |
| ThreadPool.NoLostWakeupKept | krutils/kr_threadpool.c:182-205 | every step keeps: while a worker sleeps, queued tasks are at most the woken workers plus one owed signal or pop |
| ThreadPool.RunKeepsInv | krutils/kr_threadpool.c:36-205 | the invariant holds in every state of every interleaving, spurious wakeups included |
| ThreadPool.HistoriesGrow | krutils/kr_threadpool.c:162-205 | nothing accepted or taken is ever reordered or withdrawn |
| ThreadPool.TasksConserved | krutils/kr_threadpool.c:162-205 | the k-th accepted task is the k-th taken or at its place in the queue, and with exactly one worker until finished |
| ThreadPool.SomeoneIsComing | krutils/kr_threadpool.c:182-205 | between critical sections a non-empty queue never finds all workers asleep |
| ThreadPool.Progress | krutils/kr_threadpool.c:36-205 | unless all callers have returned and all workers sleep, some thread can move: no deadlock |
| ThreadPool.QuietIsDone | krutils/kr_threadpool.c:36-205 | at rest the queue is empty and every accepted task has been run |
| ThreadPool.StepsRunOut | krutils/kr_threadpool.c:36-205 | without new calls and spurious wakeups every step lowers a bound on the steps left |
| ThreadPool.Drains | krutils/kr_threadpool.c:36-205 | left alone the pool comes to rest within that bound, with every accepted task run |
| ThreadPool.LoneProducerNeverRefused | krutils/kr_threadpool.c:164-181 | with one producer the push never fails after the unlocked length test |
| ThreadPool.BusyWaitSuffices | krutils/kr_threadpool.c:164-181 | some interleaving refuses a push if and only if there are at least two producers |
| Framing.PutThenGet | krserver/kr_server_protocol.c:4-19 | every 32-bit number survives the wire |
| Framing.GetThenPut | krserver/kr_server_protocol.c:4-19 | every four bytes are the encoding of what they decode to |
| Framing.EncodeThenDecode | krserver/kr_server_protocol.c:39-106 | a dumped message followed by anything parses back to itself and leaves exactly the rest |
| Framing.DecodeThenEncode | krserver/kr_server_protocol.c:39-106 | a parsed frame dumps to the bytes it came from |
| Framing.EncodeFrames | krserver/kr_server_protocol.c:84-106 | a message is written as 16 bytes of id, 20 of method, the data source and the body length with the highest of four bytes first, and the body |
| Framing.DecodeFrames | krserver/kr_server_protocol.c:39-81 | a frame is whole exactly if the body bytes its length announces are there, and its fields are read from those places |
| Framing.FramedOnce | krserver/kr_server_protocol.c:39-106 | a frame has one message and a message one frame |
| Framing.NumbersCompare | krserver/kr_server_protocol.c:4-19 | a number is smaller if and only if its bytes come first at the first place they differ |
| Framing.FramesCompare | krserver/kr_server_protocol.c:39-106 | so are the data sources and body lengths of two frames |
| Framing.DecodedFrames | krserver/kr_server_network.c:65-90 | whatever bytes have come, those decoded are frames of the messages, one after the other, and the rest is no whole frame |
| Framing.DecodedAndLeftover | krserver/kr_server_network.c:65-90 | messages encoded again plus leftover are the bytes received; the leftover is never a whole frame |
| Framing.DecodeAllOfEncodeAll | krserver/kr_server_network.c:65-90 | any sequence of dumped messages decodes to that sequence |
| Framing.DecodeInTwo | krserver/kr_server_network.c:92-122 | decoding a first chunk and then its leftover with the next chunk is decoding both at once |
| Framing.Shift | krserver/kr_server_protocol.c:74-78 | the bytes after the frame move to the front of the buffer |
| Framing.Parse | krserver/kr_server_protocol.c:39-81 | 1 for less than 44 bytes, 2 for fewer body bytes than the length says, both without effect; 0 with the message the frame's bytes hold and the bytes after it |
| Framing.Dump | krserver/kr_server_protocol.c:84-106 | the buffer holds exactly the frame of the message, byte for byte, and its length is returned |
| Framing.Client.ProcessInputBuffer | krserver/kr_server_network.c:65-90 | all whole frames are handled in order, the leftover stays |
| Framing.Client.OnRead | krserver/kr_server_network.c:92-122 | after any read the bytes received are the frames of the messages handled, in order, followed by the bytes kept, which are no whole frame |
| Framing.Client.Receive | krserver/kr_server_network.c:92-122 | for every way of cutting a stream into reads the connection survives if and only if no frame overfills the buffer |
| Framing.StuckOnEncoded | krserver/kr_server_network.c:100-113 | a stream of dumped messages overfills the buffer if and only if one of its frames is longer than 16384 bytes |
| Framing.ServeAll | krserver/kr_server_network.c:65-122 | the server handles exactly the messages sent, in order, if and only if they all fit the buffer |
| JsonSpec.NumberRoundTrip | krutils/kr_json.c:97-127 | a printed integer reads back as itself and not a character more |
| JsonSpec.StringRoundTrip | krutils/kr_json.c:144-237 | a printed NUL-free string reads back as itself (section 7 of RFC 8259) |
| JsonSpec.UnicodeRoundTrip | krutils/kr_json.c:168-190 | the escape of every non-zero code point, a surrogate pair where needed, decodes to its UTF-8 |
| JsonSpec.Utf8RoundTrip | krutils/kr_json.c:181-189 | that UTF-8 (section 3 of RFC 3629) determines the code point |
| JsonSpec.ArrayRoundTrip | krutils/kr_json.c:309-392 | printed arrays read back, at any depth, followed by any text |
| JsonSpec.ObjectRoundTrip | krutils/kr_json.c:395-496 | printed objects read back, at any depth, followed by any text |
| JsonSpec.PrintThenParse | krutils/kr_json.c:253-496 | parsing what either printer wrote gives the tree back and consumes exactly the text printed |
| JsonGrammar.NumberReads | krutils/kr_json.c:97-117 | every number by the grammar, with fraction and power, is read as sign, digits and power of ten (section 6 of RFC 8259) |
| JsonGrammar.StringReads | krutils/kr_json.c:144-201 | every string by the grammar, with its escapes in either case and surrogate pairs, is read as the bytes it stands for (section 7 of RFC 8259) |
| JsonSentences.ValueReads | krutils/kr_json.c:276-288 | every way to write a value, white space included, is read as the value, whatever follows that does not continue a number (sections 2 to 7 of RFC 8259) |
| JsonSentences.TextReads | krutils/kr_json.c:253-265 | so is a value with white space around it |
| JsonSentences.OneTree | krutils/kr_json.c:276-288 | a text is a way to write one value at most |
| JsonSentences.PrintIsSentence | krutils/kr_json.c:291-306 | what either printer writes is a way to write the value, laid out with the spaces, tabs and line ends of its format and no others |
| JsonSentences.ScansHex | krutils/kr_json.c:169 | what sscanf stores for %4x: white space, a sign, and the digits of four characters at most |
| JsonSentences.ScansNothing | krutils/kr_json.c:169 | it stores nothing where no digit comes |
| JsonEscapes.BodyStep | krutils/kr_json.c:155-195 | the second pass, one piece at a time: how far it steps and what it writes, or which fault it meets |
| JsonEscapes.LeavesTheText | krutils/kr_json.c:155-195 | the second pass reads outside the text if and only if it comes to an escape that the end of the text cuts off |
| JsonEscapes.EarlyEscapesStayInside | krutils/kr_json.c:149-195 | without a backslash in the last eleven characters neither pass leaves the text |
| JsonEscapes.BodyFits | krutils/kr_json.c:149-195 | where the second pass stops no later than the first, it writes no more than the first has counted |
| JsonEscapes.LiteralSafe | krutils/kr_json.c:144-201 | a literal as the first pass delimits it is read without a fault in front of every further text if and only if the second pass, stepping from escape to escape, ends at its closing quote |
| JsonEscapes.OverflowInstance | krutils/kr_json.c:149-195 | a literal of one digit's escape and eight letters after it: two characters counted, seven written |
| JsonEscapes.ShortNumberInstance | krutils/kr_json.c:169 | two hexadecimal digits and two other characters are read as character 18, inside the text |
| JsonEscapes.OutsideInstance | krutils/kr_json.c:169-195 | an escape of one digit at the end of the text takes the second pass out of it |
| Json.EscapedLength | krutils/kr_json.c:209 | the first pass counts exactly the bytes the second pass writes |
| Json.PrintStringPtr | krutils/kr_json.c:204-237 | the buffer is filled to its last byte with the quoted text and its terminator |
| Json.CountBody | krutils/kr_json.c:149 | the first pass counts characters and escapes as one each, wherever it stays inside the text |
| Json.PutUtf8 | krutils/kr_json.c:181-189 | the bytes written backwards by the fall-through switch are the UTF-8 of the code point |
| Json.PutUnicode | krutils/kr_json.c:168-190 | lone halves of pairs and zero produce nothing, everything else its UTF-8 |
| Json.ParseStringM | krutils/kr_json.c:144-201 | where no fault is met, the decoded bytes fit the buffer and are what the specification says |
| Json.ParseNumberM | krutils/kr_json.c:97-117 | the digit loops compute sign, mantissa, scale and exponent of the number text |
| Json.PrintNumber | krutils/kr_json.c:120-140 | every 32-bit integer fits the 21 bytes allocated |
| Json.ItemsFit | krutils/kr_json.c:357-391 | the length counted for an array covers its items and separators |
| Json.PrintArrayM | krutils/kr_json.c:337-392 | print_array writes the specified text inside its buffer, a sentence of the grammar for the array |
| Json.MembersFit | krutils/kr_json.c:457-490 | the length counted for an object covers its members, tabs and separators |
| Json.ObjectBufferFits | krutils/kr_json.c:431-496 | the buffer of an object is large enough if and only if it is not a formatted empty object at depth 0 |
| Json.EmptyObjectOverflows | krutils/kr_json.c:440-448 | that object needs four bytes and gets three |
| Json.PrintObjectM | krutils/kr_json.c:431-496 | print_object writes the specified text inside its buffer, a sentence of the grammar for the object |
| Json.PrintValue | krutils/kr_json.c:291-306 | the printer's output buffer holds exactly the specified text, a sentence of the grammar for the value in the layout of its format |
| Json.ParseValueM | krutils/kr_json.c:276-288 | the recursive-descent parser computes the specified result, failures included, and reads every sentence of the grammar as its value |
| Json.ParseArrayM | krutils/kr_json.c:309-334 | the item loop computes the specified array or failure, and reads every sentence for an array as the array |
| Json.ParseObjectM | krutils/kr_json.c:395-428 | the member loop computes the specified object or failure, and reads every sentence for an object as the object |
| Json.PrintThenParseM | krutils/kr_json.c:253-306 | printing into real buffers and parsing them back returns the same tree, with nothing left over |
| Cache.TouchRecent | krutils/kr_cache.c:141-170 | one request to a cache of the n most recent keys leaves the n most recent keys of the longer history |
| Cache.IndexedDrop | krutils/kr_cache.c:112-114 | dropping the last entry keeps table and list in one-to-one correspondence |
| Cache.IndexedMove | krutils/kr_cache.c:146 | so does moving an entry to the front |
| Cache.IndexedAdd | krutils/kr_cache.c:164-168 | so does adding an entry with a new key |
| Cache.ShrinkIsMinimal | krutils/kr_cache.c:119-126 | lowering the limit evicts no more than needed if and only if the limit does not shrink or the cache was full or empty |
| Cache.ShrinkEvictsTooMuch | krutils/kr_cache.c:119-126 | from limit 10 to 9 with one entry, that entry is dropped |
| Cache.Cache.constructor | krutils/kr_cache.c:57-86 | a new cache is empty and sound |
| Cache.Cache.EvictOldest | krutils/kr_cache.c:101-116 | exactly the n least recent entries, or all, leave table and list, oldest first |
| Cache.Cache.SetMaxSize | krutils/kr_cache.c:119-126 | the entries left, in order, and those freed; the size is within the new limit, 0 included |
| Cache.Cache.GetSize | krutils/kr_cache.c:135-138 | the size of the table is the length of the list |
| Cache.Cache.Get | krutils/kr_cache.c:141-155 | a hit returns the value, moves the key to the front and counts; a miss changes nothing |
| Cache.Cache.Set | krutils/kr_cache.c:158-170 | a new key enters at the front, and the least recent one leaves if the cache was full |
| HdiCache.HdiGet | krdata/kr_hdi_cache.c:94-112 | one request is one step of the abstract LRU list; the same value comes back as long as its key stays |
| HdiCache.HdiGetAll | krdata/kr_hdi_cache.c:94-112 | after any requests the cache holds exactly the n most recent keys, most recent first |
| CalcTables.ShiftExpect | krcalc/kr_calc_parser_bison.c:559-619 | what every state may shift, row by row, as the packed tables encode it |
| CalcTables.ShiftEdge | krcalc/kr_calc_parser_bison.c:1270-1298 | every shift follows an edge of the automaton into a state entered by that token |
| CalcTables.GotoEdge | krcalc/kr_calc_parser_bison.c:1674-1680 | every goto after a reduction follows an edge into a state entered by that nonterminal |
| CalcTables.EdgeDetermined | krcalc/kr_calc_parser_bison.c:1674-1680 | the state below and the nonterminal determine the state on top |
| CalcTables.NoRecovery | krcalc/kr_calc_parser_bison.c:559-619 | no state shifts the error token, so an error always ends the parse |
| CalcGrammar.RuleIsComplete | krcalc/kr_calc_parser_bison.c:1330-1650 | a parse by levels contains no unfinished part |
| CalcGrammar.LeavesAreOperands | krcalc/kr_calc_parser_bison.c:1330-1650 | the leaves of the tree, left to right, are exactly those of the operand tokens, negated exactly where a minus that follows no operand stands before them |
| CalcStack.ReduceOperand | krcalc/kr_calc_parser_bison.c:1559-1640 | where the action takes the scanner's last leaf, that leaf is the operand being reduced |
| CalcStack.ReduceBinary | krcalc/kr_calc_parser_bison.c:1338-1558 | a binary reduction builds the node of its own operator, with the kind, operator and type of its token's number, from its own operands, at the operator's level |
| CalcStack.ReduceMatches | krcalc/kr_calc_parser_bison.c:1314-1328 | whenever the driver reduces, the symbols it pops are the rule's right-hand side and the action yields the tree of the parse |
| CalcAccept.PrimaryRuns | krcalc/kr_calc_parser_bison.c:1238-1308 | on every primary the automaton arrives at the state after a primary |
| CalcAccept.ProductRuns | krcalc/kr_calc_parser_bison.c:1238-1308 | on every product it arrives at the state after a term |
| CalcAccept.TermRuns | krcalc/kr_calc_parser_bison.c:1238-1308 | on every sum it arrives at the state after a term, unless a tighter operator follows |
| CalcAccept.SubruleRuns | krcalc/kr_calc_parser_bison.c:1238-1308 | on every comparison it arrives at the state after a subrule |
| CalcAccept.RuleRuns | krcalc/kr_calc_parser_bison.c:1238-1308 | on every rule it arrives at the state after a rule |
| CalcAccept.SentenceRuns | krcalc/kr_calc_parser_bison.c:1230-1308 | on every sentence it reaches the final state, with that very parse on its stack |
| CalcAccept.Unambiguous | krcalc/kr_calc_parser_bison.y:45-230 | a text has at most one parse by levels |
| CalcParser.LexStep | krcalc/kr_calc_parser_bison.c:1251-1266 | reading a lookahead keeps the driver's invariant |
| CalcParser.ShiftStep | krcalc/kr_calc_parser_bison.c:1287-1298 | a shift keeps the driver's invariant and makes progress |
| CalcParser.ReduceStep | krcalc/kr_calc_parser_bison.c:1314-1682 | a reduction keeps the driver's invariant and makes progress |
| CalcParser.NoSentence | krcalc/kr_calc_parser_bison.c:1304-1308 | where the driver finds an error the tokens are not a sentence |
| CalcParser.SentenceTree | krcalc/kr_calc_parser_bison.c:1330-1650 | the tree of a sentence has exactly the leaves its tokens stand for, signs included, and a shape the evaluator can work on |
| CalcValue.TreeReads | krcalc/kr_calc_parser_bison.c:1330-1650 | the tree of a rule evaluates to the value read from the numbers of its tokens: 32 adds, 33 subtracts and so on, a minus before a constant flips its sign; unset operands, type errors and trapping remainders included |
| CalcParser.YyParse | krcalc/kr_calc_parser_bison.c:1150-1700 | accepts only tokens with a parse in which `*` `/` `%` bind tighter than `+` `-`, those tighter than comparisons, these tighter than AND and OR on one level, and stores the tree of that parse, the only one the tokens have; that tree evaluates to what the tokens say, whatever the callbacks deliver; a syntax error is reported only for what is no sentence, and rules of fewer than 9998 tokens are always decided |
| CalcSpec.CheckedIsSound | krcalc/kr_calc_tree.c:56-205 | a checked expression with resolved types and set leaves traps if and only if a remainder in it is by zero or of the smallest int by -1; otherwise it evaluates to a value of its type |
| CalcSpec.SameMeaning | krcalc/kr_calc_tree.c:648-718 | the types noted at identifiers by earlier evaluations do not matter to the meaning |
| CalcLaws.EvalObeys | krcalc/kr_calc_tree.c:214-718 | in exact arithmetic every node holds the sum, difference, product, quotient or C remainder of its operands, the truth of their comparison, membership or match, or whether all, one or none of them are true |
| CalcLaws.RealsAreExact | krcalc/kr_calc_tree.c:324-418 | with real numbers for doubles arithmetic is exact |
| CalcLaws.ThreeBelowFive | krcalc/kr_calc_tree.c:474-489 | 3 < 5 evaluates to 1 |
| Calc.Calc.EvalRel | krcalc/kr_calc_tree.c:214-322 | AND, OR and NOT look at set operands from the left until one decides; of operands that are all truth values AND is 1 if all are true, OR if one is, NOT if none is |
| Calc.Calc.EvalArith | krcalc/kr_calc_tree.c:324-418 | the node gets the specified result, or the specified error or unset operand is reported |
| Calc.Calc.EvalLogic | krcalc/kr_calc_tree.c:420-646 | comparisons, membership and matches as specified, errors and unset operands included; in exact arithmetic the value is 1 if the operands compare so and 0 if not |
| Calc.Calc.EvalExtern | krcalc/kr_calc_tree.c:648-718 | an identifier is loaded through the callbacks, its type asked for only once |
| Calc.Calc.EvalTree | krcalc/kr_calc_tree.c:720-746 | whatever the tree was used for before, the return code is that of the big-step meaning, and on success indicator and value of the root are; after a failure the root is unset if it failed itself, and keeps the indicator and value of an earlier evaluation if an operand failed; in exact arithmetic the root holds what its operator makes of its operands |
| Calc.Calc.EvalMany | krcalc/kr_calc_tree.c:720-746 | over any number of evaluations, failed ones included, each depends on its own callbacks only; after the last the root holds what its operator makes of its operands |
| Calc.Calc.CheckTree | krcalc/kr_calc_tree.c:56-212 | the post-order check accepts exactly what the recursive check of the expression accepts, and sets the status only on failure |
| Calc.Calc.CheckThenEval | krcalc/kr_calc_tree.c:207-212 | what passes the check and has no trapping remainder evaluates without an error and sets the root to a value of its type |

## Left out

- Hash tables beyond 2^28 live entries: there the size arithmetic of krutils/kr_hashtable.c:341-380 leaves 32-bit ints.
- Hash table reference counts, foreach and find: iteration that changes nothing.
- The cache uses a map for its hash table; that the real table behaves like a map is proved in HashTable and HashRuns.
- The record lists of krdb are sequences changed by the specification functions that LinkedList proves of the real list.
- kr_db_field_compare as written, which reads a pointer as a field id and truncates differences to int: a total preorder on the sort field stands for it.
- Krdb.Db.CreateTable: before the first insertion only, as when a database is loaded (krdb/kr_db.c:200-275), and within the hash tables' 2^28 entries.
- Krdb.Db.CreateIndex: before the first insertion only, and with an id that its table does not have yet; the source does not enter the records already there into an index made later.
- Krdb.Db.Insert: insertions are sequential here. kr_db_insert locks only the table it inserts into (krdb/kr_db.c:309-328), while tables share the hash tables of database-wide indexes.
- The fields of krdb records are of one abstract type with one hash function, where the source picks hash and equality by the type of the key field.
- Dropping tables and indexes, and the mapping functions that fill a record's fields.
- The skip list's update array is a sequence, and kr_skiplist_foreach, which only reads.
- ConHash.ConHash.InsertNode: a fresh id below 100 characters, as its callers give it; a longer one does not fit the node.
- ConHash.ConHash.Add: the same; a second node with an id in use would leave virtual nodes that no removal finds.
- ConHash.ConHash.Remove: an id below 100 characters.
- ConHash.ConHash.AdjustWeights: an id below 100 characters, and no free function; with one the source hands on private data it has freed.
- kr_threadpool_broadcast_task and destroying a pool: an early failure of the former returns before it signals.
- Thread steps are atomic between synchronisation points; the unlocked read of the queue length is one step, and tasks are values.
- The fields of the network server apart from the input buffer: sockets, event loop, the engine's reaction to a message.
- Shifts and masks of the 32-bit conversions are written as division and remainder.
- Framing.Dump: messages that fit the buffer. The source checks nothing and writes past it.
- Json.PrintNumber: 32-bit integers only; doubles are a mantissa and a power of ten when parsed, and how sprintf rounds them is left out.
- Json.CountBody: texts on which the first pass does not come to a backslash as the last character; there the source reads past the terminator.
- Json.ParseStringM: texts on which the second pass stays inside text and buffer and has a number at every `\u` (JsonEscapes.LiteralSafe). "0x" without digits, and an escape without a number after one that had a number, count as having none.
- Json.ParseValueM: the same texts, for the strings in them.
- Json.ParseArrayM: the same texts.
- Json.ParseObjectM: the same texts.
- The linked nodes of a JSON tree, which are values here.
- The escape of code point 0 and lone halves of surrogate pairs are no strings in JsonGrammar; the parser drops them (Json.PutUnicode).
- Json.PrintObjectM: leaves out a formatted empty object at depth 0 (Json.ObjectBufferFits).
- Json.PrintValue: leaves out a formatted empty object at depth 0, for which the source writes one byte past its buffer (Json.ObjectBufferFits).
- Calc.Calc.EvalArith: leaves out a remainder by zero or of the smallest int by -1, which is a crash.
- Calc.Calc.CheckThenEval: leaves out expressions with such a remainder; CalcSpec.CheckedIsSound says that they trap.
- CalcSpec.CheckedIsSound: leaves out membership tests, which the check and the evaluator type differently (krcalc/kr_calc_tree.c:133-146).
- Doubles in expressions are an abstract type with abstract operations, and so are the casts of doubles outside the range of the integers; pointers returned by callbacks are numbers the environment reads.
- CalcParser.YyParse: gives up at 10000 stack entries without a verdict, as the source does; the tree's nodes are values and error messages are not built.
- The generated scanner: the parser starts from the numbered tokens.
- Cache.Cache.Set: demands a limit above 0 and an absent key, as kr_hdi_cache_get ensures; on a present key the source leaves the old list node behind.
- kr_list_remove_all, which reads a node after deleting it, kr_list_dup and kr_list_locate.
- Memoisation of SDI, DDI and HDI values per record address, the coordinator's text header, trees (krutils/kr_ntree.c), the vendored parson.c, logging, shared memory, databases, and the web and shell front ends.
