# Hash table and student records, modelled in Dafny

This project models two small C programs that the repository keeps as sample input for its static checker of C runtime defects. It proves what the data-structure functions and algorithms of those programs compute; "## Left out" lists the rest.

- `tests/graphs/correct/hash_table.c` is a separate-chaining hash table with string keys and `int` values. It has a polynomial string hash (multiplier 31), create, insert (update in place or prepend a new node), get through an out-parameter, remove (unlink from the bucket head or from the predecessor), size and destroy.
- `tests/graphs/correct/complex_structures.c` is a growable array of student records. It has init, add (doubling the capacity when full) and free, followed by the algorithms the program runs over the array: first student with the highest GPA, count per major, bubble sort by descending GPA and binary search by id. The same file also has a recursive and an iterative Fibonacci function.

Files:

- `c_types.dfy` (module `CTypes`): `Option` for NULL, 64-bit `size_t` with explicit wrap-around (`SizeSub`), and the `int` and `long long` ranges.
- `hash_chains.dfy` (module `HashChains`): the value-level meaning of the table. It gives the hash as a fold, the bucket array as a sequence of chains listed head first, `Lookup`, the invariant `WellFormed`, and the chains `Inserted` and `Removed` that an insert and a remove leave behind. It also holds the lemmas about them.
- `hash_table.dfy` (module `HashTable`): the table as a heap object (`class Table`) with the C functions as methods on a `Table?`, so that NULL is a possible argument. Each method is proved against the `HashChains` definitions.
- `student_array.dfy` (module `Students`): the dynamic array as `class StudentArray` over an `array?<Student>`, its algorithms, and the as-written `size_t` versions of the sort bounds and the search step (see Findings).
- `fibonacci.dfy` (module `Fibonacci`): both Fibonacci functions and the `long long` bound.

A chain of linked nodes is modelled as the sequence of its entries, head first. Walking `node = node->next` walks that sequence, and relinking a node replaces the bucket's sequence. Every allocation that the source checks for failure (`malloc`, `calloc`, `strdup`) is modelled by a boolean argument `allocOk`.

## Model

| member | source | states |
|---|---|---|
| HashTable.HashFunction | tests/graphs/correct/hash_table.c:21-30 | For every table size up to `MaxTableSize`, the loop's result equals the polynomial fold `Hash`, is a valid bucket index, and is 0 for the empty key |
| HashChains.Hash | tests/graphs/correct/hash_table.c:25-27 | The hash reduced modulo `n` is always below `n` |
| HashTable.Create | tests/graphs/correct/hash_table.c:33-48 | NULL exactly when an allocation fails; otherwise a fresh table of `size` empty buckets, count 0, satisfying the table invariant |
| HashTable.Table.constructor | tests/graphs/correct/hash_table.c:39-46 | The zeroed bucket array: every bucket empty, `size` recorded, count 0, invariant established |
| HashTable.Destroy | tests/graphs/correct/hash_table.c:51-68 | A NULL table is ignored; otherwise every bucket is left without nodes, so the table holds no node |
| HashTable.Insert | tests/graphs/correct/hash_table.c:71-106 | -1 for a NULL table or key, or when a new node cannot be allocated; 0 otherwise. On success the key maps to the new value, every other key keeps its value, the count grows by one exactly when the key was new, and the invariant is kept. On failure nothing changes |
| HashTable.Get | tests/graphs/correct/hash_table.c:109-126 | 0 exactly when table, key and out-parameter are non-NULL and the key is stored; the out-value is then the stored value, and it is untouched on failure |
| HashTable.Remove | tests/graphs/correct/hash_table.c:129-157 | 0 exactly when the key was stored. Afterwards the key is absent, every other key keeps its value, the count drops by one exactly on success, and the invariant is kept |
| HashTable.Size | tests/graphs/correct/hash_table.c:160-162 | 0 for a NULL table; otherwise the number of nodes in all chains |
| HashTable.FindNode | tests/graphs/correct/hash_table.c:80-86 | The walk used by insert, get and remove returns the first position whose key matches, and -1 exactly when no node of the chain holds the key |
| HashTable.UnlinkFound | tests/graphs/correct/hash_table.c:138-150 | Unlinking the first node of a present key removes exactly one node, keeps the invariant, makes the key absent, and leaves every other key's lookup unchanged |
| HashChains.IndexOf | tests/graphs/correct/hash_table.c:80-86 | The chain walk stops at the first node with the key, and returns -1 only when no node has it |
| HashChains.InsertedWellFormed | tests/graphs/correct/hash_table.c:76-103 | Updating in place or prepending a node keeps every node in its key's bucket and keys distinct within each chain |
| HashChains.InsertedTotal | tests/graphs/correct/hash_table.c:76-103 | An insert adds one node when the key was absent and none when it was present |
| HashChains.LookupInserted | tests/graphs/correct/hash_table.c:76-103 | After an insert the key is found with the new value, and every other key finds what it found before |
| HashChains.RemovedWellFormed | tests/graphs/correct/hash_table.c:138-150 | Unlinking a node keeps every node in its key's bucket and keys distinct within each chain |
| HashChains.RemovedTotal | tests/graphs/correct/hash_table.c:138-150 | A remove unlinks one node when the key was present and none when it was absent |
| HashChains.LookupRemoved | tests/graphs/correct/hash_table.c:138-150 | In a well-formed table, after a remove the key is not found, and every other key finds what it found before |
| HashChains.LookupFindsStoredEntry | tests/graphs/correct/hash_table.c:114-125 | In a well-formed table, a lookup that searches only the key's bucket finds `v` exactly when some node anywhere in the table stores the key with `v` |
| HashChains.TotalNodesUpdate | tests/graphs/correct/hash_table.c:103 | Replacing one chain changes the node count by the difference in that chain's length, which is what `count++` and `count--` track |
| Students.StudentArray.constructor | tests/graphs/correct/complex_structures.c:31-35 | A `StudentArray` before initialisation, taken as zeroed: no block, size 0, capacity 0, no records, invariant holding |
| Students.StudentArray.Init | tests/graphs/correct/complex_structures.c:38-42 | A fresh block of `initial_capacity` records, none of them in use |
| Students.StudentArray.Add | tests/graphs/correct/complex_structures.c:45-51 | The records in use become the old ones followed by the new record. The capacity doubles exactly when the array was full, and the block is then a fresh one |
| Students.StudentArray.Free | tests/graphs/correct/complex_structures.c:54-59 | No block, size 0, capacity 0, no records |
| Students.StudentArray.FindTop | tests/graphs/correct/complex_structures.c:76-89 | NULL exactly for an empty array; otherwise the position of the highest GPA, and the first such position (a later equal GPA does not replace it) |
| Students.StudentArray.CountByMajor | tests/graphs/correct/complex_structures.c:92-103 | For each of the five majors, the number of students with exactly that major; the counts add up to at most the number of students |
| Students.CountsAddUp | tests/graphs/correct/complex_structures.c:96-103 | Each student is counted under at most one of a list of distinct majors, so the per-major counts sum to the number of students with a listed major, which is at most the number of students |
| Students.MajorsDistinct | tests/graphs/correct/complex_structures.c:93 | The five major names are pairwise different, so the `break` after the first match loses no count |
| Students.StudentArray.BubbleSort | tests/graphs/correct/complex_structures.c:127-137 | The records in use end up in non-increasing GPA order, as a permutation of what they were; the unused part of the block is untouched |
| Students.SwapAdjacent | tests/graphs/correct/complex_structures.c:130-134 | Neighbours `j` and `j + 1` exchange places and every other record of the block keeps its value, so the records before the sorted tail are only reordered and stay above the tail |
| Students.BubblePass | tests/graphs/correct/complex_structures.c:129-135 | One inner pass moves the lowest GPA of the unsorted prefix to its end; the sorted tail and the multiset of records are kept |
| Students.StudentArray.BinarySearch | tests/graphs/correct/complex_structures.c:140-157 | A position returned holds the target id. When ids are sorted ascending, NULL is returned only if no record has the id |
| Students.WrittenSortOverrunsEmpty | tests/graphs/correct/complex_structures.c:128-129 | With `size_t` arithmetic, on an empty array both loop bounds wrap to the largest `size_t` |
| Students.WrittenSortBoundsAgree | tests/graphs/correct/complex_structures.c:128-129 | On a non-empty array the `size_t` bounds are the plain differences `size - 1` and `size - i - 1` |
| Students.WrittenSearchStepAgrees | tests/graphs/correct/complex_structures.c:144-153 | Whenever `mid - 1` does not wrap, one `size_t` step of the source hits, moves `left` to `mid + 1`, or moves `right` to `mid - 1` exactly as an iteration of BinarySearch does |
| Students.WrittenSearchOverrunsBelowSmallest | tests/graphs/correct/complex_structures.c:141-153 | With one record of id 5 and target 3, `right = mid - 1` wraps to the largest `size_t`, and the next `mid` lies far beyond the record |
| Students.WrittenSearchOverrunsEmpty | tests/graphs/correct/complex_structures.c:141-147 | On an empty array `right` starts at the largest `size_t`, so the first probe lies beyond the array |
| Fibonacci.FibonacciRecursive | tests/graphs/correct/complex_structures.c:160-165 | The value is never negative for a non-negative `n`, and at least 1 from `n = 1` on |
| Fibonacci.FibonacciMonotone | tests/graphs/correct/complex_structures.c:160-165 | From 0 on, the recursive sequence is non-negative and non-decreasing |
| Fibonacci.FibonacciFitsLongLong | tests/graphs/correct/complex_structures.c:160-165 | For every `n <= 92` the value fits in a `long long` |
| Fibonacci.Fibonacci92 | tests/graphs/correct/complex_structures.c:160-165 | The 92nd value is 7540113804746346429, and the 93rd would exceed the `long long` range |
| Fibonacci.FibonacciIterative | tests/graphs/correct/complex_structures.c:168-183 | For `n <= 92`, the loop returns the value of the recursive definition, and it stays within the `long long` range |

## Left out

- Printing (`hash_table_print`, the output loop of `count_students_by_major`, every `printf`) and `main` in both files: output and the demonstration scenario are not modelled.
- `calculate_average_gpa` and `generate_random_student`: floating-point division, and `rand`/`srand`/`time`, which are randomness and the clock.
- The `Course` and `Transcript` records: no modelled function uses them.
- Freeing memory: `free` of nodes, keys, the bucket array and the table is not modelled. Chains are sequences of values, so node identity and aliasing between nodes are not captured.
- HashTable.Destroy: leaves the table object in place with empty buckets rather than freeing it. After `hash_table_destroy` the C table must not be used at all.
- HashTable.HashFunction: requires a table size between 1 and `MaxTableSize`. A size of 0 divides by zero in the source, and above `MaxTableSize` the running value could wrap before the `%`.
- HashTable.HashFunction: key characters are read as bytes 1 to 255. Where C `char` is signed, a byte above 127 would enter the hash sign-extended; that case is not modelled.
- HashTable.Insert, HashTable.Get, HashTable.Remove: these carry the same table-size precondition as the hash they call. A table created with size 0 is only safe to pass to `hash_table_size` and `hash_table_destroy`.
- Students.StudentArray.Add: requires a positive capacity. A zero capacity doubles to zero and the store would then write past the block. Add also requires that the doubled capacity fit in `size_t`, and `realloc` is taken to succeed; the source checks neither.
- Students.StudentArray.Init: `malloc` is taken to succeed, and `initial_capacity * sizeof(Student)` is taken not to overflow.
- Student GPAs are `float` in C and `real` here. They are only compared, and NaN is not modelled.
- Fibonacci.FibonacciIterative: requires `n <= 92`. Beyond that the C `long long` addition overflows, which is undefined behaviour. `FibonacciRecursive` is the unbounded mathematical value.
- Students.StudentArray.BubbleSort and Students.StudentArray.BinarySearch use signed bounds and are the corrected versions (see Findings). The source's `size_t` bounds are modelled only by the `Written*` members.

## Findings

| source | as written | input that shows it | evidently intended | confidence | as-written member | corrected member |
|---|---|---|---|---|---|---|
| tests/graphs/correct/complex_structures.c:128 | `i < arr->size - 1` on `size_t` | an empty array: `0 - 1` wraps to the largest `size_t`, and the first inner pass reads `students[0]` and `students[1]` | no pass on an array of fewer than two records | not executed | Students.WrittenSortOverrunsEmpty | Students.StudentArray.BubbleSort |
| tests/graphs/correct/complex_structures.c:152 | `right = mid - 1` on `size_t` | one record with id 5, target 3: `mid` is 0, `right` wraps to the largest `size_t`, and the next `mid` reads far past the record (line 142 does the same for an empty array) | stop with NULL when the target lies below the smallest id | not executed | Students.WrittenSearchOverrunsBelowSmallest | Students.StudentArray.BinarySearch |
