# fasic / basic: hash table and matrix engine in Dafny

The single-header C libraries `fasic.h` and `basic.h` carry two self-contained
components, duplicated almost verbatim in both files. This project models one
shared core of each and proves what they compute.

- **Open-addressing hash table** (string key to occurrence counter). A
  `HashMap` owns `BUCKETS_SIZE = 100000` slots and an unsigned `count`.
  `hash_function` is Horner's rule with multiplier 31 in 32-bit unsigned
  arithmetic, reduced modulo `BUCKETS_SIZE`. `hashmap_insert` and
  `hashmap_lookup` probe `(hash + i) % BUCKETS_SIZE` for at most
  `BUCKETS_SIZE` steps. `hashmap_delete` empties the slot the key hashes to.
  `hashmap_print` lists the occupied slots, and `hashmap_destroy` releases
  the table.
- **Dense row-major matrices.** Element `(r, c)` lives at offset
  `r * ncols + c`. The operations are:
  - bounds-checked `get_element` and unchecked `set_element`;
  - `create_matrix` (zeroed) and `fill`;
  - `matrix_shape`;
  - elementwise `matrix_add`, `matrix_subtract` and `hadamard_product`;
  - `dot_product` and `transpose`;
  - `test_matrix_equal`;
  - `unload`.

Files and modules:

| file | module | contents |
|---|---|---|
| `slots.dfy` | `Slots` | Pure model of the slot array. It holds the hash, the probe sequence, lookup and insert as functions, and the insert-only invariant: unique keys, counters ≥ 1, every stored key reachable from its hash without crossing an empty slot. It also has the lemmas about insert-only histories and the listing. |
| `hash_table.dfy` | `HashTable` | `class HashMap` with a `buckets` array and a `count` field. The C operations are methods with the source's loops, each proved against `Slots`. |
| `removal.dfy` | `Removal` | What `hashmap_delete` breaks, shown on concrete keys, and a corrected removal with its correctness lemma. |
| `grids.dfy` | `Grids` | Matrix values: shape plus row-major buffer. Each matrix operation is a function here, with the algebraic lemmas. |
| `matrices.dfy` | `Matrices` | `class Matrix<T>` with buffer `A`, `nrows` and `ncols`. Every operation is a method with the source's nested loops over `set_element` and `get_element`, proved against `Grids`. |

Modelling choices:

- **Keys.** A key is a sequence of non-NUL bytes, the bytes of a C string.
- **Hash input.** A plain `char` is taken as signed: bytes 128 to 255 add -128 to -1 before the unsigned wrap.
- **Counters and count.** `count` is kept below 2^32 and wraps as the C `unsigned int` does. Slot counters are unbounded.
- **Fallible calls.** Outcomes the program cannot decide are parameters: whether the `malloc` of a key's copy succeeds is `mallocOk`.
- **Fatal exits.** The `assert`/`exit` paths of the matrix operations are preconditions. The exception is the out-of-shape read that `test_matrix_equal` can make: it is the error result `IndexOutOfBounds(row, col)`.
- **Element types.** Elements are `int` for add, subtract, hadamard and dot product, and a type parameter for fill, transpose and equality.

## Model

| member | source | states |
|---|---|---|
| Slots.Signed | fasic.h:374 | a key byte contributes its signed `char` value, in -128..127 and congruent to the byte modulo 256 |
| Slots.Hash | fasic.h:368-378 | the hash is a valid slot index, below BUCKETS_SIZE |
| Slots.Step | fasic.h:374 | one Horner step `31 * hash + byte`, in unsigned 32-bit arithmetic, stays below 2^32 |
| Slots.Horner | fasic.h:370-375 | the loop's 32-bit hash over a key, one step per byte from 0; it stays below 2^32 |
| Slots.HornerAppend | fasic.h:373-375 | the loop's hash over a key one byte longer is one more Horner step over the shorter key |
| Slots.HashCollision | fasic.h:368-378 | "Aa" and "BB" both hash to slot 2112 |
| HashTable.HashFunction | fasic.h:368-378 | the loop over the key's bytes returns exactly the 32-bit Horner value reduced modulo BUCKETS_SIZE |
| Slots.SlotIndex | fasic.h:410 | the probe position `(hash + i) % BUCKETS_SIZE` is a valid slot index |
| Slots.SlotIndexValue | fasic.h:410 | within one round the probe position is `hash + i`, wrapped once past the end |
| Slots.SlotIndexInjective | fasic.h:409-410 | the BUCKETS_SIZE probe steps from one hash visit distinct slots |
| Slots.Distance | fasic.h:409-410 | every slot is reached from every hash in fewer than BUCKETS_SIZE probe steps |
| Slots.Probe | fasic.h:409-426 | the probe's stopping step: every earlier step saw a slot holding another key, and a step below BUCKETS_SIZE sees an empty slot or the key |
| Slots.ProbeIs | fasic.h:452-463 | the first step that sees an empty slot or the key is where the probe ends |
| Slots.ProbeFull | fasic.h:409-428 | a probe that runs all BUCKETS_SIZE steps has seen every slot occupied by another key, so all slots are occupied |
| Slots.ProbeNotFull | fasic.h:409-428 | while some slot is free, the probe stops within BUCKETS_SIZE steps |
| Slots.EmptyTableInv | fasic.h:380-386 | the freshly initialised table satisfies the invariant, has no occupied slot, and every key looks up as 0 |
| Slots.EmptyTable | fasic.h:380-386 | the zeroed slot array of `hashmap_init`: BUCKETS_SIZE slots, all empty |
| HashTable.HashMap.Init | fasic.h:380-386 | every slot is empty, count is 0, and the table is consistent (invariant holds, count = occupied slots) |
| Slots.InsertAt | fasic.h:393-406 | insert writes only the slot where the probe stops: counter 1 if it was empty, the old counter plus one if it held the key; it claims a slot exactly when that slot was empty |
| Slots.Claims | fasic.h:393-403 | definition (no contract): the probe stops within BUCKETS_SIZE steps at an empty slot, the case in which insert must copy the key; its partner is `Slots.InsertAt` |
| Slots.Place | fasic.h:409-426 | writes Entry(key, v) at the slot where the probe stops, and nothing when the probe runs all BUCKETS_SIZE steps; the result has BUCKETS_SIZE slots; its properties are `Slots.PlaceCorrect` |
| Slots.Insert | fasic.h:388-429 | insert as a value, the key's copy allocated: when the probe stops within BUCKETS_SIZE steps, the stop slot gets the key's lookup plus one; the result has BUCKETS_SIZE slots; its properties are `Slots.InsertAt`, `Slots.InsertCorrect` and `Slots.InsertFull` |
| HashTable.HashMap.StoreAt | fasic.h:393-406 | at the probe's stop: an empty slot is claimed with counter 1 and count + 1 unless the key's copy fails, in which case nothing changes; a matching slot gets counter + 1 with count unchanged |
| HashTable.HashMap.Insert | fasic.h:388-429 | succeeds exactly when the probe stops within BUCKETS_SIZE steps and the key's copy succeeds or is not needed; on success the slots become `Slots.Insert` of the old ones and count grows (mod 2^32) exactly when a slot is claimed; a failure changes nothing; consistency is preserved |
| Slots.InsertFull | fasic.h:409-428 | when all BUCKETS_SIZE steps pass without stopping, insert changes no slot, the key looks up as 0, and the table is full |
| Slots.PlaceKeepsInv | fasic.h:393-403 | writing a positive counter for the key where its probe stops keeps unique keys, positive counters and reachability |
| Slots.PlaceStores | fasic.h:393-406 | that write makes the key's stored counter the new value, keeps every other key's counter, and claims a slot exactly when the key was absent |
| Slots.PlaceCorrect | fasic.h:393-406 | both of the above together |
| Slots.InsertStored | fasic.h:388-429 | under the invariant and with room (the probe stops within BUCKETS_SIZE steps), insert adds one to the key's stored counter and nothing to any other, and occupies one more slot exactly when the key was new |
| Slots.InsertCorrect | fasic.h:388-429 | under the invariant and with room, insert keeps the invariant; lookup(key) is one more than before, every other lookup is unchanged, and one slot is added exactly when lookup(key) was 0 |
| Slots.InsertKeepsCount | fasic.h:402 | count equal to the occupied slots stays equal under insert's unsigned increment |
| Slots.StoredAt | fasic.h:447-465 | with unique keys, the slot holding a key determines its stored counter |
| Slots.StoredPositive | fasic.h:401 | with positive counters, a key's stored counter is positive exactly when some slot holds it |
| Slots.LookupFinds | fasic.h:452-462 | under the invariant, the probe for a stored key ends exactly at its slot and lookup returns that slot's counter |
| Slots.LookupMisses | fasic.h:447-465 | a key no slot holds looks up as 0, in any table |
| Slots.LookupStored | fasic.h:447-465 | under the invariant, lookup returns the key's stored counter (0 when absent) |
| Slots.Lookup | fasic.h:447-465 | definition (no contract): the counter of the slot where the probe stops when it holds an entry, 0 at an empty slot or after BUCKETS_SIZE steps; its properties are `Slots.LookupStored`, `Slots.LookupFinds` and `Slots.LookupMisses` |
| Slots.ProbeStop | fasic.h:452-462 | under the invariant and with room (the probe stops within BUCKETS_SIZE steps), the probe stops at the key's slot when the key is present and at an empty slot otherwise |
| HashTable.HashMap.Lookup | fasic.h:447-465 | returns the counter of the slot where the probe stops, or 0 at an empty slot or after BUCKETS_SIZE steps; modifies nothing |
| Slots.InsertAll | Test/tests.c:15-20 | the table after `hashmap_init` and one insert per key, in order, every key copy allocated (an insert whose probe runs all BUCKETS_SIZE steps changes nothing), has BUCKETS_SIZE slots |
| Slots.InsertAllStep | fasic.h:388-429 | a history one insert longer is one more insert; while the history has at most BUCKETS_SIZE distinct keys, that insert finds room, however many inserts came before |
| Slots.HistoryKeepsInv | fasic.h:388-429 | every insert-only history, of any length, keeps unique keys, positive counters and reachability (an insert whose probe runs all BUCKETS_SIZE steps changes nothing) |
| Slots.History | fasic.h:388-429 | after an insert-only history with at most BUCKETS_SIZE distinct keys, of any length, the invariant holds, every key's stored counter is its number of inserts, and the occupied slots are the distinct keys |
| Slots.HistoryRoom | fasic.h:404-406 | in such a history the next insert stops within BUCKETS_SIZE steps: a key already present is met on its probe path, and a new key finds a free slot |
| Slots.HistoryStep | fasic.h:388-429 | one more insert extends those facts by one occurrence of its key |
| Slots.DistinctAtMost | fasic.h:402 | a history has at most as many distinct keys as inserts, so count never exceeds the number of inserts |
| Slots.InsertOnly | fasic.h:388-465 | in insert-only histories with at most BUCKETS_SIZE distinct keys, of any length, every key looks up as its number of inserts, and count (the occupied slots) is the number of distinct keys, at most the number of inserts |
| Slots.Copies | fasic.h:404-406 | the history that inserts one key n times has n inserts |
| Slots.Repeated | fasic.h:404-406 | that history holds n occurrences of the key and one distinct key when n > 0 |
| Slots.RepeatedKey | fasic.h:404-406 | a key inserted n times, for any n, also beyond BUCKETS_SIZE, looks up as n and occupies one slot |
| Slots.DriverInserts | Test/tests.c:17-20 | each of the driver's four inserts finds room and extends the history by its key |
| Slots.DriverKeys | Test/tests.c:17-20 | the driver inserts three distinct keys, "Ahmed" twice |
| Slots.DriverHistory | Test/tests.c:17-20 | inserting "Ahmed", "Ali", "Mohammed", "Ahmed" gives lookups 2, 1, 1 and three occupied slots |
| HashTable.DriverScenario | Test/tests.c:14-23 | the driver on the class: lookups 2, 1, 1, count 3 and three listed lines |
| Slots.DeleteSlots | fasic.h:439-441 | delete empties the slot the key hashes to, whatever it held, and leaves every other slot alone |
| Slots.CountAfterDelete | fasic.h:442 | the unsigned decrement stays below 2^32 and is undone by insert's increment |
| HashTable.HashMap.Delete | fasic.h:431-445 | always returns true, leaves the slots as `DeleteSlots` says, and decrements count with unsigned wrap-around |
| Removal.OneEntry | fasic.h:393-403 | one insert of "Aa" into a fresh table claims slot 2112 with counter 1 |
| Removal.DeleteIgnoresKey | fasic.h:431-445 | deleting "BB", never inserted, erases "Aa"; the corrected removal keeps "Aa" |
| Removal.DeleteWrapsCount | fasic.h:442 | delete on the empty table leaves the slots empty and sets count to 2^32 - 1 |
| Removal.DeleteBreaksProbeRun | fasic.h:431-445 | after inserting "Aa" then "BB", deleting "Aa" makes "BB" look up as 0 while still stored, and a new insert of "BB" stores it twice; the corrected removal keeps "BB" at 1 and its keys unique |
| Removal.RebuildInv | fasic.h:431-445 | the rebuild of the first n slots keeps the invariant, stores every key but the removed one with its old counter, and occupies one slot per kept entry |
| Removal.RemoveKeyCorrect | fasic.h:431-445 | the corrected removal keeps the invariant; the key then looks up as 0, every other key as before; one slot is freed exactly when the key was present |
| Removal.RebuildFrom | fasic.h:431-445 | the corrected delete's rebuild of the first n slots, every entry but the key's placed by insert's probe; BUCKETS_SIZE slots; its properties are `Removal.RebuildInv` |
| Removal.RemoveKey | fasic.h:431-445 | the corrected delete: the table with every entry but the key's re-placed; BUCKETS_SIZE slots; its properties are `Removal.RemoveKeyCorrect` |
| HashTable.HashMap.Remove | fasic.h:431-445 | the corrected delete: reports whether lookup finds the key (on a consistent table: whether it is present), leaves the slots as `RemoveKey` says, decrements count only when lookup found the key, and keeps a consistent table consistent |
| HashTable.PlaceInto | fasic.h:409-426 | the probe loop on a bare slot array writes the entry exactly where `Slots.Place` says |
| Slots.ListingSlots | basic.h:451-459 | among the first `iteration` slots, one line per occupied slot: each line comes from such a slot, and each such slot gives a line |
| Slots.Listing | basic.h:451-459 | definition (no contract): the line (hash, key, counter) of each occupied slot among the first `bound`, in slot order; its properties are `Slots.ListingSlots` and `Slots.ListingContents` |
| Slots.ListingContents | fasic.h:467-476 | under the invariant, the full listing is the dictionary: each line carries lookup(key) > 0, every key with a positive lookup has its line, and there are as many lines as occupied slots |
| HashTable.HashMap.Enumerate | basic.h:451-459 | the lines for the occupied slots among the first `bound`, in slot order (`bound` is BUCKETS_SIZE in fasic.h) |
| HashTable.HashMap.Destroy | fasic.h:478-485 | count is reset to 0 and the table is released |
| Grids.Offset | basic.h:147 | for an index inside the shape, `row * ncols + col` lies inside the buffer and gives back the row and the column |
| Grids.OffsetSplit | basic.h:147 | every buffer offset is the offset of exactly one (row, col) inside the shape |
| Grids.At | basic.h:139-148 | definition (no contract): element (row, col) is the buffer element at `row * ncols + col`, whose bound `Grids.Offset` proves |
| Grids.Extensionality | basic.h:147 | two matrices of one shape agreeing on every (row, col) are equal |
| Matrices.Matrix.View | basic.h:41-45 | the matrix's value has its shape and `nrows * ncols` elements |
| Matrices.Matrix.GetElement | basic.h:139-148 | for an index inside the shape, returns element (row, col) of the matrix |
| Grids.SetCell | basic.h:150-153 | the buffer cell at `row * ncols + col` becomes v; for an index inside the shape exactly that cell changes |
| Matrices.Matrix.SetElement | basic.h:150-153 | only the buffer element at `row * ncols + col` changes, and it becomes v |
| Matrices.Matrix.MatrixShape | basic.h:198-202 | returns (nrows, ncols), whose product is the number of elements |
| Grids.Filled | basic.h:322-334 | shape (rows, cols) with every element equal to the fill value |
| Matrices.CreateMatrix | basic.h:155-166 | a fresh (rows, cols) matrix, all zero |
| Matrices.Allocate | basic.h:155-166 | a fresh buffer of rows * cols elements with that shape |
| Matrices.Matrix.Wrap | basic.h:155-166 | the matrix over a buffer of rows * cols elements is valid, with that buffer and shape (rows, cols) |
| Matrices.Fill | basic.h:322-334 | a fresh matrix of the given shape with every element equal to the fill value |
| Grids.Combined | basic.h:204-262 | the common shape, with C[i][j] = op(A[i][j], B[i][j]) |
| Grids.CombinedAt | basic.h:210-217 | the cell the loops write at offset k is op of the inputs' cells (i, j) |
| Matrices.Elementwise | basic.h:204-262 | a fresh matrix equal to the elementwise combination of the inputs, which are unchanged |
| Matrices.MatrixAdd | basic.h:204-221 | requires identical shapes; a fresh matrix with C[i][j] = A[i][j] + B[i][j] |
| Matrices.MatrixSubtract | basic.h:223-240 | requires identical shapes; a fresh matrix with C[i][j] = A[i][j] - B[i][j] |
| Matrices.HadamardProduct | basic.h:242-262 | requires identical shapes; a fresh matrix with C[i][j] = A[i][j] * B[i][j] |
| Grids.SubtractInvertsAdd | basic.h:204-240 | over the integers, subtracting B after adding B gives back A |
| Grids.Product | basic.h:264-286 | shape (A.nrows, B.ncols), with cell (i, j) the left-to-right accumulation of A[i][k] * B[k][j] |
| Grids.ProductAt | basic.h:272-281 | the cell the loops write at offset k is the full accumulation for (i, j) |
| Grids.DotAcc | basic.h:272-280 | definition (no contract): the accumulator of the inner loop for cell (i, j) after n steps, 0 then `+ A[i][k] * B[k][j]` left to right; its properties are `Grids.DotIdentity` and `Grids.OnesProductExample` |
| Matrices.DotProduct | basic.h:264-286 | requires A.ncols == B.nrows; a fresh matrix equal to the product |
| Grids.DotIdentity | basic.h:274-279 | accumulating with the identity on the left picks out the single matching term |
| Grids.Identity | basic.h:264-286 | the n x n identity: 1 on the diagonal, 0 elsewhere |
| Grids.IdentityLeft | basic.h:264-286 | the identity times A is A |
| Grids.OnesProductExample | basic.h:264-286 | a 2x3 matrix of ones times a 3x2 matrix of ones is a 2x2 matrix of threes |
| Matrices.OnesScenario | basic.h:264-286 | the same product through `fill` and `dot_product` on the class |
| Grids.Transposed | basic.h:288-301 | shape (ncols, nrows), with C[j][i] = A[i][j] |
| Grids.TransposedStep | basic.h:292-298 | writing A[i][j] at (j, i) extends the already transposed part by one cell |
| Grids.TransposedAll | basic.h:288-301 | a buffer holding every transposed cell is the transpose |
| Matrices.Transpose | basic.h:288-301 | a fresh matrix equal to the transpose; A is unchanged |
| Grids.TransposeTwice | basic.h:288-301 | transposing twice gives back the original matrix |
| Grids.TransposeExample | basic.h:288-301 | [[1, 2], [3, 4]] transposes to [[1, 3], [2, 4]] |
| Matrices.TransposeScenario | basic.h:288-301 | the same example built with `set_element` and transposed on the class |
| Grids.EqualScan | basic.h:303-320 | definition (no contract): the row-major scan of A's shape from cell k, reading B at the same index: fatal when that index is outside B, false at the first mismatch, true at the end; its properties are the `Grids.EqualScan*` lemmas |
| Grids.EqualScanAt | basic.h:308-317 | one step of the equality scan at cell (i, j): out of B's shape is fatal, a mismatch answers false, otherwise the scan goes on |
| Grids.EqualScanTrueFrom | basic.h:303-320 | from cell k on, the scan answers true exactly when every later cell of A matches B at the same index |
| Grids.EqualScanTrue | basic.h:303-320 | as written, the answer is true exactly when every cell of A's shape is a cell of B's shape holding the same value; B may be larger |
| Grids.EqualScanSameShapeFrom | basic.h:303-320 | for equal shapes, the scan from cell k answers whether the remaining buffers are equal |
| Grids.EqualScanSameShape | basic.h:303-320 | for equal shapes, the scan never reads outside B and answers whether the matrices are equal |
| Grids.EqualScanNeverFatal | basic.h:303-320 | when B is at least as large as A in both dimensions, the scan never reads outside B, so it answers true or false |
| Grids.EqualScanOkFrom | basic.h:303-320 | the same from any cell k on |
| Grids.EqualScanFatal | basic.h:311-312 | a fatal read happens only at a cell of A's shape that lies outside B's shape |
| Grids.EqualScanFalse | basic.h:313-315 | a false answer comes from a cell inside both shapes where A and B hold different values |
| Matrices.TestMatrixEqual | basic.h:303-320 | under the OR precondition, returns what the row-major scan of A's shape does: true, false at the first mismatch, or the fatal out-of-shape read of B |
| Grids.LooseEqualityExample | basic.h:305 | the 1x1 matrix [5] is reported equal to the 1x2 matrix [5, 7], and with the roles swapped the scan reads B at (0, 1), out of its shape |
| Grids.MatrixEqual | basic.h:303-320 | equality with both dimensions checked: true exactly when the matrices are equal |
| Matrices.SameMatrix | basic.h:303-320 | the corrected test on the class: shapes compared first, then the cells; true exactly when the matrices are equal |
| Matrices.Matrix.Unload | basic.h:336-346 | the buffer is released and the shape becomes (0, 0); the final state does not depend on the initial one, so a second call changes nothing |

## Left out

- `random_matrix`, `print_matrix`, the `PRINT` macros and the logging functions: they depend on `rand()` or only write to stdout and stderr.
- The directory and build helpers at the end of `fasic.h`: they are process and file-system I/O.
- Formatting of `hashmap_print`: the model returns the lines as values. A line is (hash, key, counter), as `fasic.h` prints it; `basic.h` prints the key and the counter only.
- Floating point: the elements are `int`, or an abstract type. Rounding in `+`, `-`, `*` and in the accumulation of `dot_product` is not modelled.
- Slots.Insert: a slot's counter is an unbounded natural. The `unsigned int` wrap after 2^32 - 1 inserts of one key is not modelled.
- Slots.RepeatedKey: the lookup n holds in C only while n < 2^32; beyond that the `unsigned int` counter wraps, which the unbounded counter of the model does not.
- `strlen` and the NUL test in `hash_function`: keys contain no NUL byte, so the two loop bounds agree.
- Allocation failure in `hashmap_init` and `create_matrix` (calloc returning NULL): the model assumes these allocations succeed.
- `free` and ownership: `hashmap_destroy` becomes the ghost flag `live`, and `unload` drops the buffer reference.
- The NULL-hashmap `exit` in `hashmap_lookup`: a `HashMap` reference is never null here.
- Matrices.Allocate: the initial contents of the buffer are unspecified. For a type parameter there is no zero, and every caller overwrites all of them.
- HashTable.HashMap.Enumerate: it requires `bound <= BUCKETS_SIZE`. `basic.h` reads past the array beyond that, which is undefined behaviour.
- `matrix_shape` takes a pointer in `fasic.h` and a value in `basic.h`; both read the same two fields, and one member models both.
- HashTable.HashMap.Insert: the direct check of the hashed slot and the loop from `i = 1` are both probe steps (step 0 and steps 1 and up of one probe sequence).
- Matrices.Matrix.GetElement: an index outside the shape is a precondition here. The source logs it and exits. In `test_matrix_equal` it is the error result instead.

## Findings

| source | as written | input that shows it | evidently intended | confidence | as-written member | corrected member |
|---|---|---|---|---|---|---|
| fasic.h:431-445 | `hashmap_delete` empties the slot the key hashes to without comparing its key | insert "Aa", then delete "BB" (both hash to 2112): "Aa" looks up as 0 | remove only the given key | not executed | Removal.DeleteIgnoresKey | HashTable.HashMap.Remove |
| fasic.h:442 | `count` is decremented unconditionally | delete "Aa" on a fresh table: count becomes 2^32 - 1 with no slot occupied | decrement only when a key was removed | not executed | Removal.DeleteWrapsCount | HashTable.HashMap.Remove |
| fasic.h:439-441 | emptying a slot cuts the probe run behind it | insert "Aa", "BB", delete "Aa": "BB" looks up as 0, and inserting "BB" again stores a second copy | every other key stays reachable and keys stay unique | not executed | Removal.DeleteBreaksProbeRun | Removal.RemoveKeyCorrect |
| basic.h:305 | `test_matrix_equal` asserts only that one of the two dimensions agrees | [5] against [5, 7] answers true; [5, 7] against [5] reads B out of its shape (fatal) | compare both dimensions, then the cells | not executed | Grids.LooseEqualityExample | Matrices.SameMatrix |
