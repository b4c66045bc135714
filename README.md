# Linked hash table, modelled in Dafny

This project models the fixed-capacity linked hash table of
`src/linked-hash-table.c` and proves properties of the model.

The table is an array `raw` of `INIT_HASH` (16) slots. Each slot is NULL or
points to an entry record (`lht_entry_t`) holding a key, a value, the index
`i` of its slot, and `next`/`prev` links. The links thread every live entry
into an insertion-ordered doubly linked list from `first` to `last`. A key's
slot comes from double hashing:
- round 0 is `calculate_hash1(key)`;
- round r is `rehash(key, hash1, r) = (hash1 + r * hash2) mod 16`.

Both hashes fold the key's characters in 64-bit unsigned arithmetic.

Modules:

- `Wrappers`: `Option`.
- `Hashing`:
  - the two hash folds, with 2^64 wrap-around written out;
  - the loops `CalculateHash1` and `CalculateHash2`, proved equal to the folds;
  - `Rehash`;
  - the probe sequence `Probe`, with its closed form and its period 16.
- `Probing`: the slot array as the probe loops see it (a key or nothing per slot).
  - What lookup and insertion compute: `Lookup`, `FirstHit`, `FirstFree`.
  - When the loops end.
  - Reachability, the invariant lookup relies on.
- `Arena`: the entry records as a sequence indexed by small integers, with NULL as -1.
  - The list invariant (`Threaded`) and the slot invariant (`Slotted`).
  - The effect of each operation on records, slots and list, with its proof
    of preservation (`InsertStep`, `LeakStep`, `PopStep`).
- `LinkedHashTable`: class `Table` with the fields of `lht_t`.
  - `raw` is an `array<int>`. The records are a sequence field `arena`. The live
    list is a ghost sequence `order`.
  - One method per function of the C file except `lht_destroy`; probe and hash loops are `while` loops.
  - `Init` establishes `Valid()`. Each other public method that changes the table (`Insert`, `Leak`, `Pop`, `PopUnlinked`, and `Iter`, which moves the cursor) requires and keeps `Valid()`. Every one of them states the whole new state. `GetIndex` and `ProbeEmpty` change nothing and only need every slot to point into the records.
  - The helpers `Place`, `Link`, `Remove`, `Vacate`, `Bypass` and `Drop` are steps of those methods. `Place` and `Remove` keep `Valid()`; `Link`, `Vacate`, `Bypass` and `Drop` only state the writes they make, under weaker preconditions.
- `Scenarios`: concrete runs that show where the code departs from what a hash
  table promises (see Findings).
- `Tombstones`: the slot discipline the code evidently intends, on the slot
  array alone. It has tombstones, an odd probe stride and replace-on-insert,
  and its lookup is proved equal to a linear scan.

Freed entry records stay in `arena` and are never reused. A read through a
stale link therefore sees the freed record's old contents; in C that read is
undefined. Allocation failure is a boolean parameter `allocOk`.

## Model

| member | source | states |
|---|---|---|
| LinkedHashTable.Table.constructor | src/linked-hash-table.c:22-31 | a new table has all 16 slots NULL, size 0, capacity INIT_HASH, both ends NULL, an empty list, and is valid and tidy |
| LinkedHashTable.Table.Init | src/linked-hash-table.c:8-32 | returns NULL when an allocation fails; otherwise a fresh valid table with every slot empty, size 0 and capacity INIT_HASH |
| Hashing.CalculateHash1 | src/linked-hash-table.c:49-57 | the loop's 64-bit fold `h*31+c` from 0, reduced mod 16, equals both Hash1 and the same fold done mod 16, and lies below INIT_HASH |
| Hashing.CalculateHash2 | src/linked-hash-table.c:63-71 | the loop's `(h<<5)+h+c` from 5381 with every step wrapping mod 2^64, reduced mod 16, equals Hash2 and the fold with multiplier 33 done mod 16 |
| Hashing.ShiftAddStep | src/linked-hash-table.c:68 | shifting by 5 and adding, each wrapping mod 2^64, is one multiply-by-33 step of the fold |
| Hashing.FoldModSixteen | src/linked-hash-table.c:53-56 | because 16 divides 2^64, the 64-bit fold reduced mod 16 equals the fold done mod 16 throughout |
| Hashing.WordModSixteen | src/linked-hash-table.c:56 | wrapping mod 2^64 does not change a value mod 16 |
| Hashing.Rehash | src/linked-hash-table.c:77-79 | with the product and sum wrapping mod 2^64, the result is `(prev + round*hash2) mod 16`, and from hash1 it is round `round` of the probe sequence |
| Hashing.StepClosedForm | src/linked-hash-table.c:77-78 | stepping h2 slots per round from h1 reaches `(h1 + round*h2) mod 16` |
| Hashing.ProbeClosedForm | src/linked-hash-table.c:88-96 | the slot the loops examine in round r is `(hash1 + r*hash2) mod 16` |
| Hashing.ProbePeriodic | src/linked-hash-table.c:90-97 | the probe sequence repeats with period 16, so rounds 0..15 are every slot a probe loop can reach |
| Hashing.StepPeriodic | src/linked-hash-table.c:77-78 | a start slot stepped `round` times lands where it lands after `round mod 16` steps |
| Hashing.ProbeParity | src/linked-hash-table.c:77-78 | when hash2 is even, every probed slot has the parity of hash1, so half of the table is never probed |
| Hashing.StepParity | src/linked-hash-table.c:77-78 | for any start slot below 16 and any even step, every round of the double-hashing recurrence stays at the parity of the start slot |
| Probing.FirstHit | src/linked-hash-table.c:90-97 | the first round from `round` on whose slot is empty or holds key, 16 when none: that round stops the lookup, and every earlier round goes on |
| Probing.FirstFree | src/linked-hash-table.c:131-134 | the first round whose slot is empty, 16 when none: that round stops insertion, and every earlier round goes on |
| Probing.Lookup | src/linked-hash-table.c:85-101 | the result is -1 or a slot index, and a slot index returned holds key |
| Probing.LookupMeaning | src/linked-hash-table.c:90-100 | a slot returned lies on key's probe sequence with no empty slot before it; -1 means an empty slot comes before any slot holding key |
| Probing.LookupNeverStops | src/linked-hash-table.c:90-97 | when no round below 16 stops the lookup, no round ever does: the loop then runs forever |
| Probing.InsertNeverStops | src/linked-hash-table.c:131-134 | when no round below 16 finds an empty slot, none ever does: the insertion loop then runs forever |
| Probing.LookupFindsReachable | src/linked-hash-table.c:85-101 | a stored key that its probe sequence reaches before any empty slot is found by lookup |
| Probing.InsertKeepsReachable | src/linked-hash-table.c:131-142 | storing a key in the first empty slot of its probe sequence keeps every stored key reachable |
| Arena.Append | src/linked-hash-table.c:137-154 | the new record holds key, value, slot, `prev` = old last and `next` = NULL; the old tail's `next` is the new record; every other record is unchanged |
| Arena.Unlink | src/linked-hash-table.c:172-182 | unlinking keeps every record's key, value and slot index and keeps all links inside the arena |
| Arena.UnlinkEffect | src/linked-hash-table.c:172-182 | unlinking changes only the successor's `prev` (to e's prev) and the predecessor's `next` (to e's next) |
| Arena.WalkIsOrder | src/linked-hash-table.c:208-216 | following `next` links from `first` meets exactly the live entries in insertion order, then NULL, whenever the tail link is NULL |
| Arena.AppendKeepsThreaded | src/linked-hash-table.c:146-154 | appending keeps the list threaded, with the new entry at its tail, `first` set when the list was empty, and the tail link NULL |
| Arena.AppendKeepsSlotted | src/linked-hash-table.c:137-142 | storing the new record in an empty slot keeps every slot pointing at a live entry whose `i` is that slot |
| Arena.UnlinkKeepsThreaded | src/linked-hash-table.c:172-182 | unlinking the entry at any position keeps the list threaded, with `first`/`last` repaired as the code repairs them, provided the removed tail's `next` is NULL |
| Arena.NeighboursOf | src/linked-hash-table.c:173-182 | the `prev` and `next` of a live entry are its list neighbours, NULL at the ends |
| Arena.RemoveKeepsSlotted | src/linked-hash-table.c:185-186 | clearing the slot of a removed entry keeps the slot invariant for the remaining entries |
| Arena.DropLastKeepsThreaded | src/linked-hash-table.c:231-241 | dropping the tail keeps the list threaded, with the old tail's `prev` as the new tail |
| Arena.ClearTailLink | src/linked-hash-table.c:233-235 | setting the new tail's `next` to NULL keeps the list threaded and makes it tidy |
| Arena.InsertStep | src/linked-hash-table.c:137-154 | an insertion keeps the whole invariant and leaves the tail link NULL; the slot array then shows key in the chosen slot and nothing else changes |
| Arena.LeakStep | src/linked-hash-table.c:170-192 | a removal keeps the whole invariant and keeps the tail link NULL if it was; the removed entry's slot then shows nothing |
| Arena.PopStep | src/linked-hash-table.c:231-241 | a pop keeps the whole invariant without changing any record; the old tail's slot then shows nothing |
| Arena.PopTidyStep | src/linked-hash-table.c:231-241 | a pop followed by clearing the new tail's `next` keeps the invariant and leaves the list tidy |
| Arena.PopLeavesStaleLink | src/linked-hash-table.c:233-235 | with two or more entries, a pop leaves the new tail's `next` pointing at the popped entry, which is no longer live, so a tidy list stops being tidy |
| Arena.LeakStaleTail | src/linked-hash-table.c:173-182 | leak of a tail whose `next` is stale writes the tail's `prev` into the freed entry, leaves `last` on the removed entry, links the new tail to the freed entry, and so breaks the list invariant |
| Arena.LeakAfterPop | src/linked-hash-table.c:173-182 | on a tidy list of three or more entries, a pop followed by a leak of the new tail leaves `last` outside the live list and the entry before it linked to the popped entry, so the list invariant fails |
| LinkedHashTable.Table.GetIndex | src/linked-hash-table.c:85-101 | the probe loop returns Lookup of the slot keys; an index it returns holds a record whose key is key |
| LinkedHashTable.Table.GetEntry | src/linked-hash-table.c:108-112 | returns the value of the live entry lookup finds, or nothing when lookup returns -1, and changes nothing |
| LinkedHashTable.Table.ProbeEmpty | src/linked-hash-table.c:125-134 | the collision loop returns the slot of the first empty round of key's probe sequence |
| LinkedHashTable.Table.Insert | src/linked-hash-table.c:121-157 | returns -1 with nothing changed when allocation fails; otherwise returns 0, keeps the table valid and tidy, stores the new entry in the first empty slot of its probe sequence with `i` set to that slot, appends it behind the old tail (setting `first` when empty) and increments `size` |
| LinkedHashTable.Table.Place | src/linked-hash-table.c:136-154 | storing and linking a new entry in an empty slot keeps the table valid and tidy, with the new state in full |
| LinkedHashTable.Table.Link | src/linked-hash-table.c:137-154 | the writes of insertion: slot, new record, tail link, `size`, `first`/`last` |
| LinkedHashTable.Table.Leak | src/linked-hash-table.c:163-195 | an absent key returns nothing with nothing changed; a present key returns its value, clears its slot, unlinks it with the ends repaired, decrements `size`, keeps the table valid, and keeps it tidy if it was |
| LinkedHashTable.Table.Remove | src/linked-hash-table.c:170-194 | removing the entry in a given slot keeps the table valid and has exactly the effect of Leak's found branch |
| LinkedHashTable.Table.Vacate | src/linked-hash-table.c:170-192 | the writes of removal: value out, relinking, slot cleared, `size` decremented, ends reset to NULL when the table becomes empty |
| LinkedHashTable.Table.Bypass | src/linked-hash-table.c:172-182 | the successor's `prev` and the predecessor's `next` bypass e, or `last`/`first` move when e is an end |
| LinkedHashTable.Table.GetSize | src/linked-hash-table.c:200 | the size returned is the number of live entries |
| LinkedHashTable.Table.Iter | src/linked-hash-table.c:208-216 | BEGIN moves the cursor to the first entry (NULL when empty); KEEP moves it to the successor in insertion order, and past a tidy tail to NULL; the value under the new cursor is returned, nothing when it is NULL |
| LinkedHashTable.Table.Pop | src/linked-hash-table.c:222-244 | an empty table returns nothing and is unchanged; otherwise the tail's value is returned, its slot cleared, `last` steps back along `prev`, `size` drops, both ends become NULL at size 0, no record changes, and the table stays valid |
| LinkedHashTable.Table.Drop | src/linked-hash-table.c:231-241 | the writes of the pop, with no record changed |
| LinkedHashTable.Table.PopUnlinked | src/linked-hash-table.c:222-244 | the pop with the new tail's `next` cleared: the same effect on slots, size and ends, and the table stays valid and tidy |
| LinkedHashTable.Table.TidyLeakSafe | src/linked-hash-table.c:173-176 | on a tidy table every entry lookup finds may be leaked without meeting a stale tail link |
| Scenarios.OrphanedKey | src/linked-hash-table.c:186 | after inserting "a" and then "q", which share both hashes, and leaking "a", slot 7 still holds "q" but lookup of "q" returns -1, and reachability is broken |
| Scenarios.StuckProbe | src/linked-hash-table.c:131-134 | "k" has hash2 0, so its probe sequence is slot 11 forever; with "[" in slot 11, insertion of "k" finds no empty round although 15 slots are empty |
| Scenarios.StaleIteration | src/linked-hash-table.c:233-235 | after inserting "a" and "b" and popping, iterating BEGIN then KEEP yields 1 and then 2, the value of the popped entry |
| Scenarios.DuplicateKey | src/linked-hash-table.c:130-134 | inserting "a" twice and leaking "a" returns the first value, after which lookup of "a" finds nothing while the size is still 1 |
| Scenarios.EmptyAfterPop | src/linked-hash-table.c:163-195 | after inserting "a" and "b" and popping, leaking "a", whose `next` still points at the popped entry, returns 1 and leaves the table empty |
| Tombstones.Stride | src/linked-hash-table.c:78 | the corrected probe stride is odd and below 16 |
| Tombstones.RoundOf | src/linked-hash-table.c:77-78 | with an odd stride, every slot is reached by some round below 16 of every key's probe sequence |
| Tombstones.ScanFrom | src/linked-hash-table.c:85-101 | the reference lookup is nothing exactly when no slot holds key, otherwise the value of a slot holding key |
| Tombstones.Find | src/linked-hash-table.c:85-101 | a slot the corrected lookup returns holds key |
| Tombstones.Get | src/linked-hash-table.c:108-112 | a value the corrected lookup returns is the value of a slot holding key |
| Tombstones.FindsHeld | src/linked-hash-table.c:85-101 | on every table that keeps the invariant, the corrected lookup finds a key in exactly the slot that holds it |
| Tombstones.GetIsScan | src/linked-hash-table.c:85-112 | on every table that keeps the invariant, the corrected lookup equals the linear scan |
| Tombstones.PutSpec | src/linked-hash-table.c:121-157 | corrected insert keeps the invariant, makes key map to the new value, leaves every other key unchanged, and fails exactly when every slot holds another key |
| Tombstones.RemoveSpec | src/linked-hash-table.c:163-195 | corrected removal keeps the invariant, returns what lookup found, leaves key absent and every other key unchanged |

## Left out

- `lht_destroy` (src/linked-hash-table.c:38-44) and all `malloc`/`free`: memory management only. Freed records stay in the arena, and allocation failure is the `allocOk` parameter.
- The `fprintf(stderr, ...)` messages and everything in `src/debug.h`: I/O only.
- The header `src/linked-hash-table.h` declares functions with no implementation in the C file (`lht_get`, `lht_insert`, `lht_remove`, `lht_iter_init`, `lht_iter_next`, `lht_iter_prev`), and fields nothing uses. They are not part of this model.
- The header also disagrees with the C file about `lht_init` and the iteration flags. The model follows the C file: `lht_init` takes no arguments, and `lht_iter` only distinguishes KEEP from any other setting.
- `capacity` is stored and kept equal to INIT_HASH. No operation reads it and there is no resizing, because all index arithmetic uses the constant.
- LinkedHashTable.Table.GetIndex, GetEntry and Leak: they require that some round below 16 stops the lookup. Otherwise the C loop never ends, as Probing.LookupNeverStops shows. Only terminating calls are modelled.
- LinkedHashTable.Table.ProbeEmpty and Insert: they require that some round below 16 finds an empty slot, for the same reason (Probing.InsertNeverStops).
- The `int round` counter overflowing: it happens only in those non-terminating loops, which are excluded.
- LinkedHashTable.Table.Leak and Remove: when two or more entries remain, they require that the entry removed is not a tail whose `next` still points at an entry `lht_pop_entry` freed. In that case the C code writes the tail's `prev` into the freed entry (undefined behaviour), leaves `last` on the entry it frees, and gives the new tail a `next` link to the freed entry. The table that results is not valid, so the methods do not model that call. Arena.LeakStaleTail and Arena.LeakAfterPop state its effect on the records, and Table.TidyLeakSafe shows that a tidy table, such as PopUnlinked leaves, never meets the exclusion. When the entry is the only one left, the methods do model the call: the write through the stale link lands in a freed record, which the model keeps, and the size reaching 0 sets both ends to NULL, so the table ends valid and empty (Scenarios.EmptyAfterPop). The model does not capture that the C write into freed memory is undefined behaviour.
- LinkedHashTable.Table.Iter: KEEP requires a non-NULL cursor, because C dereferences it. `lht_init` leaves the cursor uninitialised; the model starts it at NULL.
- Keys are modelled as any `string`, and each character contributes its code to the hashes. The model agrees with C only on keys whose characters are non-NUL codes below 256, the bytes of a C string. No member requires this. On other strings, C's `strcmp` and hash loops would stop at a NUL or see different bytes. Whether `char` is signed does not change a hash, because 256 is a multiple of 16.
- The table keeps a pointer to the caller's key. The model stores the key's value, so the caller's later changes to the key are not modelled.
- Values are a type parameter. C returns NULL both for "absent" and for a stored NULL value; the model keeps these apart with `Option`.
- Tombstones: the corrected discipline is modelled on the slot array as values only. The class keeps the behaviour of the code as written, and its order list is not part of the corrected model.

## Findings

| source | as written | input that shows it | evidently intended | confidence | as-written member | corrected member |
|---|---|---|---|---|---|---|
| src/linked-hash-table.c:186 | removal sets the slot to NULL, leaving no tombstone, so probe chains through it break (line 231 does the same on pop) | insert "a" (slot 1), then "q" (same hash1 1 and hash2 6, so slot 7), then leak "a": lookup of "q" stops at slot 1 and returns -1 | removing one key leaves every other key findable | high; not executed | Scenarios.OrphanedKey | Tombstones.RemoveSpec |
| src/linked-hash-table.c:130-134 | insertion never looks for an existing entry with the same key | insert "a" with 1, insert "a" with 2 (slot 7), leak "a": returns 1, then lookup of "a" finds nothing while the size is 1 | inserting an existing key replaces its value | medium; not executed | Scenarios.DuplicateKey | Tombstones.PutSpec |
| src/linked-hash-table.c:77-78 | the step hash2 may be 0 or even, so the probe sequence can skip free slots and the insertion loop at lines 131-134 never ends | "[" in slot 11, then insert "k" (hash1 11, hash2 0): every round probes slot 11 while 15 slots are empty | a step coprime with 16, so every slot is probed and insertion fails only on a full table | high; not executed | Scenarios.StuckProbe | Tombstones.PutSpec |
| src/linked-hash-table.c:233-235 | pop does not clear the new tail's `next`, which keeps pointing at the freed entry | insert "a" and "b", pop, then iterate BEGIN and KEEP: the second call follows the freed entry instead of returning NULL; the model, which keeps freed records, reads its old value 2 | the new tail's `next` is NULL | high; not executed | Scenarios.StaleIteration | LinkedHashTable.Table.PopUnlinked |
| src/linked-hash-table.c:173-176 | leak takes the tail's stale `next` (left by pop at lines 233-235) for a successor: it writes into the freed entry, never moves `last`, and links the new tail to the freed entry | insert "a", "b" and "c", pop, then leak "b": `last` stays on the freed "b", "a"'s `next` points at the freed "c", and with `size` 1 a later insertion links behind the freed "b" | removing the tail makes its `prev` the new tail, whose `next` is NULL | high; not executed | Arena.LeakAfterPop | LinkedHashTable.Table.PopUnlinked |
