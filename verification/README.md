# Hash-Lab in Dafny

A model of the three pieces of logic in Hash-Lab. Each one is written as
immutable data and pure functions.

- **hashtable_chain.cpp**: a separate-chaining hash table from `int` keys to
  `int` data.
  - One chain of nodes per bucket; a key goes to bucket `(hash_t) key % size`.
  - Insert prepends a new key or overwrites the data of a present one.
  - Remove unlinks the node through its predecessor.
  - Once `count > 4 * size`, rehash doubles the bucket count and re-inserts
    every node through the public insert.
- **hashtable_open.cpp**: an open-addressing table with double hashing.
  - Each slot is empty, occupied or deleted (a tombstone).
  - The probe starts at `hash1 = key % (size - 1)` and steps by
    `hash2 = key % (size - 3) + 1`, rounded up to odd.
  - Insert claims the first slot that is not occupied.
  - Find and remove probe until they reach an empty slot.
  - Once `2 * count >= size`, rehash doubles the size and re-inserts the
    occupied slots in index order.
- **hash_func.cpp**: the hash functions of the histogram experiment.
  - `hash_mod` and `hash_bin(int)` for integers.
  - `hash_len`, `hash_charsum`, `poly_hash` and `crc32` for strings.
  - The bucket index `func(key) % BUFFER_SIZE`.

Modules and files:

| file | module | contents |
|---|---|---|
| ctypes.dfy | `CTypes` | `hash_t` as integers modulo 2^64, the 32-bit `int` range, `Option` |
| arith.dfy | `Arith` | remainder facts shared by the hash and probe proofs |
| hash_func.dfy | `HashFunc` | the hash functions as folds with explicit wrap-around, each proved equal to a closed-form reference definition |
| chain.dfy | `ChainTable` | the chaining table, proved to behave as a map from keys to data |
| probing.dfy | `Probing` | the double-hashing probe sequence; with a power-of-two size and an odd step it visits every slot |
| open.dfy | `OpenTable` | the open-addressing table, including its two defects |
| open_scenarios.dfy | `OpenScenarios` | concrete runs of the open table that exhibit the defects |
| open_fixed.dfy | `OpenFixed` | corrected insert, find and remove, with the properties the C code lacks |

### Modelling choices

- A C string is the sequence of its characters before the NUL.
  - `char` is signed, so each character is an integer in [-128, 127] other than 0.
  - Every `hash_t` accumulator is reduced modulo 2^64 at each step, as the C
    arithmetic does.
- A chain table is a sequence of buckets, each a sequence of `(key, data)`
  nodes, head first.
  - The C insert calls rehash, and rehash calls insert.
  - `Insert`, `Rehash` and `ReinsertAll` keep this mutual recursion.
  - Their termination measure shows that the rehash nested inside the
    re-insertion never fires.
- An open table is a sequence of slots plus the count.
  - `OpenTable.Valid` is the invariant every operation keeps:
    - the size is a power of two and at least 4;
    - count equals the number of occupied slots;
    - every occupied key is non-negative;
    - every occupied slot is reached by its key's probe before any empty slot;
    - `2 * count < size`.
  - The C find loop need not end.
    - `Find` and `Remove` return `Run.Diverges` in exactly the case where it
      does not: the key is absent and no slot is empty.
    - The proof rests on two facts: the probe visits every slot in its first
      `size` steps, and it repeats after that (`Probing.ProbeCovers`,
      `OpenTable.CyclesForever`).
  - `OpenTable.View` folds the slots into a map in index order, so a later
    slot with the same key wins.
    - Rehash re-inserts slots in the same order, so `View` is the map
      rehash keeps, duplicates included.
    - While keys are unique, `View` is also what find answers.
    - On a duplicated key they can differ. Find returns the copy its probe
      meets first, and `View` the copy at the highest index.
    - When these are different copies, a rehash switches the key to the
      `View` copy's data (`OpenScenarios.StaleAfterRehash`).
- Open-table keys are non-negative.
  - `hash1` and `hash2` use the signed C remainder, so a negative key would
    give an out-of-range slot index.
  - The driver only inserts `rand()` values (hashtable_open.cpp:76).
- The chain rehash does not relink nodes.
  - It re-inserts each node through `hashtable_insert` and frees the old one
    (hashtable_chain.cpp:305-316).
  - So `ChainTable.Rehash` states the set of `(key, data)` pairs and the
    count, not the order of nodes within a chain.
- The open table's insert can store a key twice; see Findings.

## Model

| member | source | states |
|---|---|---|
| CTypes.ToHash | hashtable_chain.cpp:238 | converting a C integer to `hash_t` keeps a value in [0, 2^64), adds 2^64 to a negative one, and always agrees with the input modulo 2^64 |
| HashFunc.HashMod | hash_func.cpp:40-42 | hash_mod widens the key to `hash_t`: a non-negative key is returned unchanged, a negative one as key + 2^64 |
| HashFunc.HashBinInt | hash_func.cpp:45-47 | hash_bin on an int returns exactly what hash_mod returns |
| HashFunc.LenLoopCounts | hash_func.cpp:73-74 | the counting loop started at `len` ends at `len` plus the string length, modulo 2^64 |
| HashFunc.HashLenIsLength | hash_func.cpp:72-76 | hash_len is the number of characters before the NUL, modulo 2^64 |
| HashFunc.CharsumLoopSums | hash_func.cpp:80-81 | the summing loop started at `sum` ends at `sum` plus the signed sum of the characters, modulo 2^64 |
| HashFunc.HashCharsumIsSum | hash_func.cpp:79-83 | hash_charsum is the sum of the signed characters, widened, modulo 2^64 |
| HashFunc.PolyLoopHorner | hash_func.cpp:87-88 | the Horner loop started at `sum` ends at `sum * 7^len + Poly(s)` modulo 2^64, where Poly(s) is the base-7 value of the string without wrap-around |
| HashFunc.PolyHashIsHorner | hash_func.cpp:86-90 | poly_hash is the base-7 value of the string, modulo 2^64 |
| HashFunc.PolyHashStep | hash_func.cpp:86-90 | poly_hash of the empty string is 0, and appending a character c maps h to 7h + c modulo 2^64 |
| HashFunc.Crc32LoopSums | hash_func.cpp:94-98 | started from the sums of a prefix, the loop ends with the sums of prefix + rest: sum1 = 1 + the character sum, sum2 = the sum of every prefix's sum1, both modulo 2^32 |
| HashFunc.Crc32IsPackedSums | hash_func.cpp:93-100 | crc32 of the empty string is 1; crc32 equals sum2 * 2^32 + sum1 with both sums below 2^32 |
| HashFunc.PackNoWrap | hash_func.cpp:99 | `(sum2 << 32) + sum1` computed in `hash_t` does not wrap when both sums are below 2^32 |
| HashFunc.HistogramIndex | hash_func.cpp:149 | the histogram slot is below BUFFER_SIZE (1000) and congruent to the hash modulo 1000 |
| ChainTable.BucketOf | hashtable_chain.cpp:237-239 | the bucket of a key is an index below the bucket count |
| ChainTable.FindNode | hashtable_chain.cpp:255-265 | find_node returns the position of the first node with the key, with no earlier node holding it, and finds nothing exactly when no node of the chain has the key |
| ChainTable.Construct | hashtable_chain.cpp:121-131 | a new table has `size` empty buckets, count 0, holds no pair, and satisfies the invariant and the load bound |
| ChainTable.Destroy | hashtable_chain.cpp:202-214 | after destruction the table has no buckets, count 0 and no pair |
| ChainTable.Find | hashtable_chain.cpp:168-181 | find returns 0 exactly when some node holds the key, and then that node's data; otherwise it returns -1 with data 0 |
| ChainTable.Insert | hashtable_chain.cpp:134-165 | the pairs afterwards are the old pairs of other keys plus (key, data). A present key has only its node's data replaced, in place, with count and bucket count unchanged. A new key becomes the head of its bucket's chain in front of the unchanged old chain, and count grows by one. The table is doubled exactly when the load bound is crossed, and the invariant and `count <= 4 * size` hold afterwards |
| ChainTable.Rehash | hashtable_chain.cpp:290-322 | below the threshold nothing changes. Above it the bucket count doubles, the set of pairs and the count are preserved, and the invariant and load bound hold |
| ChainTable.ReinsertAll | hashtable_chain.cpp:305-317 | re-inserting distinct fresh nodes through insert adds exactly those pairs and counts each once. The bucket count does not change, so the nested rehash never fires |
| ChainTable.Remove | hashtable_chain.cpp:184-199 | the pairs afterwards are the old ones without the key. An absent key leaves the table unchanged. A present key's node is cut out of its chain with the rest kept in order, other buckets are unchanged, and count drops by one |
| ChainTable.HoldsUnique | hashtable_chain.cpp:139-161 | a table satisfying the invariant holds at most one pair per key |
| ChainTable.FindAgrees | hashtable_chain.cpp:168-181 | two tables that hold the same pairs for a key answer find for it identically |
| ChainTable.FindAfterInsert | hashtable_chain.cpp:134-181 | after insert(k, d), find(k) returns d, and every other key answers as before |
| ChainTable.FindAfterRemove | hashtable_chain.cpp:168-199 | after remove(k), find(k) reports absence, and every other key answers as before |
| ChainTable.FindAfterRehash | hashtable_chain.cpp:290-322 | rehashing never changes what find returns for any key |
| ChainTable.CollisionScenario | hashtable_chain.cpp:134-199 | with four buckets, keys 1 and 5 share bucket 1, the later one at the head; both are found; after removing 1, key 5 is still found and count is 1 |
| Probing.ProbeStep | hashtable_open.cpp:130 | the C update `i = (i + k) % size` moves from probe position j to j + 1 of the sequence `(h + j * k) % size` |
| Probing.ProbePeriodic | hashtable_open.cpp:234 | after `size` steps the probe returns to where it was |
| Probing.Pow2DividesOddProduct | hashtable_open.cpp:224-227 | an odd step is invertible modulo a power of two: if size divides d * k then size divides d |
| Probing.ProbeInjective | hashtable_open.cpp:130 | with a power-of-two size and an odd step, the first `size` probe positions are pairwise distinct |
| Probing.ProbeCovers | hashtable_open.cpp:127-135 | with a power-of-two size and an odd step, every slot is among the first `size` probe positions |
| OpenTable.Hash1 | hashtable_open.cpp:219-221 | for a non-negative key and size at least 4, hash1 lies in [0, size - 2] |
| OpenTable.Hash2 | hashtable_open.cpp:224-227 | for a non-negative key and size at least 4, hash2 is odd and lies in [1, size - 2] |
| OpenTable.ProbeClosedForm | hashtable_open.cpp:127-130 | the slot the C loop visits at step j is `(hash1 + j * hash2) % size` |
| OpenTable.ScanInsert | hashtable_open.cpp:130-135 | insert's loop stops at the first step whose slot is not occupied or holds the key; every earlier step meets an occupied slot with another key |
| OpenTable.ScanFind | hashtable_open.cpp:234-237 | find_node's loop stops with a hit at an occupied slot with the key, or a miss at an empty slot; every earlier step meets a non-empty slot without the key; if neither happens within `size` steps it reports `Cycles`, with every one of those steps passed |
| OpenTable.InsertProbe | hashtable_open.cpp:127-135 | in a valid table insert's loop always ends within `size` steps, at a slot that is free or holds the key |
| OpenTable.Construct | hashtable_open.cpp:111-121 | a new table has `size` zeroed empty slots and count 0, holds no key, and is valid when the size is a power of two of at least 4 |
| OpenTable.InitialTableValid | hashtable_open.cpp:12 | the driver's initial table of 128 slots is valid |
| OpenTable.Destroy | hashtable_open.cpp:180-190 | after destruction the table has no slots, count 0 and no key |
| OpenTable.Find | hashtable_open.cpp:147-160 | a present key is always found, with the data of some occupied slot holding it. A reported miss is -1 with data 0 and means the key is absent. The lookup never returns exactly when the key is absent and no slot is empty |
| OpenTable.Insert | hashtable_open.cpp:124-144 | the table stays valid, and the key set gains the key. When insert's probe stops at the key, only that slot's data changes and count is unchanged. When it stops at a free slot below the threshold, exactly that slot becomes (key, data, occupied) and count grows by one. When it stops at a free slot at the threshold, the size doubles and the new table has no tombstones and unique keys. In every case the view afterwards is that of the slots with (key, data) written where the probe stopped. With unique keys, and either no tombstones or an absent key, the keys stay unique and the view becomes view[key := data] |
| OpenTable.Rehash | hashtable_open.cpp:193-216 | below the threshold nothing changes. At or above it, the size doubles, tombstones disappear, keys become unique, and count becomes the number of distinct keys, so it can only shrink. The key set and the view, in which a later copy wins, are preserved |
| OpenTable.ReinsertSlots | hashtable_open.cpp:208-211 | re-inserting the occupied slots from index i on keeps the size, so no nested rehash fires. It adds exactly their keys and folds their data into the view in index order |
| OpenTable.Remove | hashtable_open.cpp:163-177 | remove never returns exactly when find never returns. An absent key leaves the table unchanged. For a present key, exactly one occupied slot holding it becomes (0, 0, deleted) and count drops by one. The table stays valid |
| OpenTable.InsertAtStep | hashtable_open.cpp:130-141 | if the probe meets occupied slots with other keys up to step j, and step j is free or holds the key, insert writes (key, data, occupied) into that slot. Count grows only when the slot was free, and below the threshold nothing else changes |
| OpenTable.HitAtStep | hashtable_open.cpp:147-177 | if the probe meets non-empty slots without the key up to step j, and step j holds the key, find returns that slot's data and remove turns exactly that slot into a tombstone |
| OpenTable.MissAtStep | hashtable_open.cpp:147-177 | if the probe meets non-empty slots without the key up to step j, and step j is empty, find returns -1 with data 0 and remove changes nothing |
| OpenTable.FreeSlotOnProbe | hashtable_open.cpp:127-135 | in a valid table the probe of any key meets a slot that is not occupied, so insert's loop ends |
| OpenTable.AllSlotsProbed | hashtable_open.cpp:230-240 | every slot index is visited within the first `size` probe steps of any non-negative key |
| OpenTable.CyclesForever | hashtable_open.cpp:234-237 | once find_node's loop has gone `size` steps without stopping, no later step ever stops it, so the C loop never returns |
| OpenTable.SearchFacts | hashtable_open.cpp:230-240 | find_node hits whenever the key is present. A miss means the key is absent. It cycles exactly when the key is absent and no slot is empty |
| OpenTable.InsertFindsPresent | hashtable_open.cpp:130-135 | without tombstones, insert's loop stops at the occupied slot of a key that is present |
| OpenTable.OccKeysCount | hashtable_open.cpp:206-211 | the number of distinct keys is at most count, and equal to it when keys are unique |
| OpenTable.NumOccupiedBound | hashtable_open.cpp:194 | count is at most the size, and if it is below the size some slot is not occupied |
| OpenTable.ViewFromSpec | hashtable_open.cpp:208-211 | folding slots in index order into a map adds exactly the occupied keys; each gets the data of its last occupied slot; other keys keep their data |
| OpenScenarios.DuplicateAfterTombstone | hashtable_open.cpp:124-177 | on 8 slots: insert(0, 100), insert(7, 1), remove(0), insert(7, 2) leaves key 7 in two occupied slots with count 2. A following remove(7) deletes only the newer copy, and find(7) then returns the stale 1 |
| OpenScenarios.TombstonesForever | hashtable_open.cpp:230-240 | on 8 slots: insert(6, 1), insert(20, 2), remove(20), remove(6), then insert and remove each key 0 to 5. The table ends valid with count 0 and every slot a tombstone, and find and remove then never return for any key |
| OpenScenarios.StaleAfterRehash | hashtable_open.cpp:193-240 | on the table with key 7 in slots 0 (data 2) and 3 (data 1): find(7) returns 2, but the view keeps 1. After insert(1, 0) and insert(2, 0), the second of which triggers a rehash, find(7) returns the stale 1 |
| OpenScenarios.FindOnUnique | hashtable_open.cpp:147-160 | on a valid table with unique keys, find returns exactly the data the view holds for a present key |
| OpenScenarios.AllTombstonesDiverge | hashtable_open.cpp:234-237 | in a valid table whose slots are all tombstones, find and remove never return for any key |
| OpenFixed.InsertChecked | hashtable_open.cpp:124-144 | insert that first searches the whole probe for the key. The table stays valid and the key set gains the key. With unique keys, the keys stay unique and the view becomes view[key := data], tombstones or not. For an absent key it is the original insert |
| OpenFixed.FindBounded | hashtable_open.cpp:230-240 | find that gives up after `size` probes always returns. It returns status 0 exactly when the key is present, with that key's data; otherwise -1 and 0. It agrees with the original find whenever that returns |
| OpenFixed.RemoveBounded | hashtable_open.cpp:163-177 | remove with the bounded search always returns and keeps the table valid. It agrees with the original remove whenever that returns. With unique keys it removes exactly the key from the key set and the view |
| OpenFixed.TombstoneFacts | hashtable_open.cpp:169-171 | with unique keys, turning an occupied slot into a tombstone removes exactly its key from the key set and the view |
| OpenFixed.RemovedKeyIsGone | hashtable_open.cpp:163-177 | with unique keys, a removed key is no longer found |
| OpenFixed.FoundAfterCheckedInsert | hashtable_open.cpp:124-160 | with unique keys, a key put with the corrected insert is found with the data just put |

## Left out

- The `main` benchmark drivers are not modelled; they are timing, `rand()` and file output (hashtable_chain.cpp:60-101, hashtable_open.cpp:58-99, hash_func.cpp:103-141).
- `hashtable_dump` is not modelled; it only formats output to a `FILE`.
- `hash_mul`, `hash_int` and `hash_bin(float)` are not modelled; they use floating point, `rand()` and union type punning.
- `key_generator` and the CSV output of `test_func` are not modelled; they are random generation and I/O. Only the bucket index expression is kept, as `HashFunc.HistogramIndex`.
- Heap management is not modelled: `create_node`, `free_node`, `free_list` and `calloc`/`free`. Destruction is modelled as a table with no buckets or slots and count 0.
- Allocation failure is not modelled; every allocation is taken to succeed. In the C code:
  - a failed node allocation in the chain insert is reported only after the bucket's head pointer was overwritten with null, which loses the old chain (hashtable_chain.cpp:155-156);
  - a failed bucket allocation in rehash is reported after insert has already added and counted the new node (hashtable_chain.cpp:295-296);
  - the re-insertion loop ignores insert failures, which would drop entries (hashtable_chain.cpp:309).
- The `ASSERT` checks for null table and data pointers are not modelled; a value of a Dafny datatype cannot be null.
- Integer widths of the tables are not enforced.
  - Keys and data are unbounded integers. The only arithmetic on a key is the conversion to `hash_t` and the two remainders, and the conversion agrees with the C code for every 32-bit key. The two open-table remainders agree with C's truncating `%` only for non-negative keys, the only ones the open table models (see below).
  - `size * 4`, `size * 2` and `count * 2` in `size_t` are taken not to overflow.
  - The cast `(okey_t)(size - 1)` in hash1 and hash2 is taken not to truncate, which holds while the size is below 2^31.
- OpenTable.Find: only non-negative keys are modelled; for a negative key the C index `key % (size - 1)` converted to `hash_t` lies far outside the slot array.
- OpenTable.Insert: only non-negative keys are modelled, for the same reason as Find.
- OpenTable.Remove: only non-negative keys are modelled, for the same reason as Find.
- A probe loop that never ends is represented by the value `Diverges`. The model does not unfold the loop past `size` steps; `OpenTable.CyclesForever` shows that later steps would repeat.
- ChainTable.Rehash: states the set of pairs and the count after growing, not the order of the nodes within each chain. The order depends on re-insertion through the public insert, and no modelled operation's result depends on it; only `hashtable_dump`, which is not modelled, prints it.

## Findings

| source | as written | input that shows it | evidently intended | confidence | as-written member | corrected member |
|---|---|---|---|---|---|---|
| hashtable_open.cpp:130-139 | insert stops at the first slot that is not occupied, a tombstone included, and never looks further along the probe for the key | on 8 slots: insert(0, 100), insert(7, 1), remove(0), insert(7, 2). Key 7 now sits in slots 0 and 3. After remove(7), find(7) returns the stale 1 | each key occupies at most one slot, so a removed key is no longer found | high (proved about the model; not executed) | OpenScenarios.DuplicateAfterTombstone | OpenFixed.InsertChecked |
| hashtable_open.cpp:234 | find_node probes while the slot is not empty, but tombstones do not count toward the load (hashtable_open.cpp:173,194), so a table can fill with tombstones | on 8 slots: insert(6, 1), insert(20, 2), remove(20), remove(6), then insert and remove each key 0 to 5. All 8 slots are tombstones with count 0, and find and remove never return for any key | the lookup ends, reporting absence once every slot has been probed | high (proved about the model; not executed) | OpenScenarios.TombstonesForever | OpenFixed.FindBounded |
