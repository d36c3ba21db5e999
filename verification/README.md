# Verified model of the cache service's data structures

The project models five parts of the repository and proves what they are for.

- **The uthash engine** (`src/uthash.h`). Elements are linked twice, in insertion order and in bucket chains. `Words`, `Bloom`,
  `HashTable` (chains, bucket arrays, expansion), `AppList` (the insertion-order list) and `UtHash` (class `Hash`: add, ordered
  add, replace, find, delete, clear, with every allocation allowed to fail) are imperative. Each method says that the object's new
  `State()` is a function of the old one: a value holding the list, the chains, the expansion multipliers and statistics, and the
  history of expansions. `Expansion`, `Runs`, `OrderedMap` and `SortedRuns` then prove things about those values: what doubling
  does, the invariant over every run (failed allocations included), refinement of an insertion-ordered map, when the table stops
  growing, and the sorted mode; `Runs.Perform` ties the runs to the object.
  `StableSort` and `MergeSort` prove the in-place bottom-up merge sort against an insertion sort; `Select` proves HASH_SELECT;
  `HashCheck` proves what the library's own consistency check finds, and that it passes; `Jenkins` is the default hash function.
  `KnownValues` works single values of the hash function and of the generator out, which fixes their constants.
- **The cache registry** (`src/provider.c`). `Registry` is the provider object over a `Hash`, with its request handlers.
  `RegistryRuns` proves over every sequence of requests that contexts are conserved and which ids are known.
- **The store and its benchmark** (`src/hoard.hpp`, `src/dummy/dummy-backend.c`, `examples/cachebench.c`). `Hoard` is the growing
  array; `Benchmark` is the state machine of all ranks writing under the lock, one step at a time, and the read-back.
- **The random generator** (`tests/munit/munit.c`). `Prng` proves full period and that the output function is a bijection;
  `Draws` proves the rejection loop and the ranges; `CasLoop` is the state machine of threads in compare-and-swap loops.
- **The parameter enumerator** (`tests/munit/munit.c`). `WildParams` proves the array-mutating recursion against the Cartesian
  product; `WildTest` proves the collection of parameters around it.

Most proofs keep definitions hidden and bring in one fact about them at a time; the small lemmas without a body are those facts.

Handles and elements are one object (`Handle`), as both embed each other at a fixed offset; `hv` is the hash of an element's key.
Concurrency is modelled as interleaved steps. Memory that runs out, codes a back end returns, new uuids and the outcome of a test
are parameters.

Where the code does not do what its comments or names promise, the model follows the code and states when it does:

- `munit_rand_state_at_most` divides by zero exactly for max = 0, so `munit_rand_int_range` does for equal bounds, and a
  `--single` run does for a wildcard parameter with one value. Because `min` is computed before `max++`, not every value in range
  can come out when max lies strictly between 2^31 and 2^32 - 1.
- The second pass of `munit_test_runner_run_test` stops at the first parameter without a value list. Wildcard parameters declared
  after it are not enumerated, and when none is left the recursion reads through a null pointer. A name declared twice is
  enumerated once for each pair of its declarations.
- The create and open handlers ignore `add_cache`'s result, so a context is lost exactly when its new id is already in use.
- HASH_SELECT leaves the destination's `tail` at its first element, so the result is a fully valid hash only with at most one
  element selected; links, counts, chains and lookups are right for any number.

## Model

| member | source | states |
|---|---|---|
| `BloomFilter.Bloom.Add` | src/uthash.h:206-210 | adding sets the bit of the hash value's low bits and no other bit |
| `BloomFilter.Bloom.Test` | src/uthash.h:207-213 | the test is true exactly for bits that were marked |
| `BloomFilter.SetBit` | src/uthash.h:206-207 | or-ing one mask into a byte changes that bit alone |
| `Words.AndMask` | src/uthash.h:441-444 | masking with the bucket count less one selects the low bits of the hash value |
| `Words.LowBitsDouble` | src/uthash.h:441-444 | with twice the buckets a bucket number stays or goes up by the old count |
| `Words.XorBit` | src/uthash.h:650-661 | a bit of an exclusive or is set exactly when the two bits differ |
| `HashTable.PushBkt` | src/uthash.h:780-789 | head insertion keeps a chain's forward and back links |
| `HashTable.UnlinkBkt` | src/uthash.h:802-815 | unlinking any element leaves a well linked chain of the others |
| `HashTable.Table.DelInBkt` | src/uthash.h:802-815 | the element leaves its chain and the count drops, every other chain as before |
| `HashTable.Table.AddToBkt` | src/uthash.h:780-799 | the item enters its chain; the table doubles, or rolls back when that fails, exactly when the count reaches ten times the multiplier plus one and noexpand is clear |
| `HashTable.Table.ExpandBuckets` | src/uthash.h:846-896 | the table after doubling, or nothing changed when the allocation fails |
| `HashTable.Table.Rebuild` | src/uthash.h:859-883 | the new chains are the old ones dealt out in order, with exact counts, multipliers and nonideal items |
| `HashTable.DealAllMembers` | src/uthash.h:865-883 | an item is in a new chain exactly when it was in an old one and its hash value selects that chain |
| `HashTable.PlacedDealt` | src/uthash.h:865-887 | after doubling every item is again in the one chain its hash value selects |
| `HashTable.FindInBkt` | src/uthash.h:758-776 | the walk returns the first element of the chain with this hash value and key, or null |
| `Runs.AddDoubles` | src/uthash.h:780-799 | an addition doubles the table exactly when that is due by count, multiplier and the last two expansions, and otherwise only puts the item at the front of its chain |
| `Runs.StartIs` | src/uthash.h:223-245 | a new table has 32 empty buckets with multiplier zero |
| `Runs.OutOfMemoryMeans` | src/uthash.h:324-344 | an addition fails exactly when a table must be made and one of its allocations fails, or a doubling is due and its allocation fails |
| `Expansion.NewChain` | src/uthash.h:865-883 | a new chain is the items of one old chain that belong there, in reverse order |
| `Expansion.ItemsMove` | src/uthash.h:865-887 | items of bucket b go to b or to b plus the old count, and none is lost |
| `Expansion.LookupKept` | src/uthash.h:846-896 | every lookup gives the same answer before and after doubling |
| `Expansion.IdealIsCeiling` | src/uthash.h:859-861 | the ideal chain length is the ceiling of items over new buckets |
| `Expansion.ExpandMultBounds` | src/uthash.h:870-875 | the multiplier is 0 for ideal chains, and otherwise covers the count but one by less than two ideal lengths |
| `Expansion.ExpandMultIs` | src/uthash.h:870-875 | the multiplier's exact value: the lesser of the items past the ideal length and the ceiling of the count over it |
| `Expansion.ExcessCounts` | src/uthash.h:870-872 | nonideal items are those at or beyond the ideal length of their chain, counted one by one |
| `Expansion.StatisticsAfter` | src/uthash.h:859-893 | all statistics after an expansion: ideal length, excess items, multipliers, and whether it was ineffective |
| `AppList.AppendLinks` | src/uthash.h:289-294 | appending keeps the list doubly linked |
| `AppList.FindPlace` | src/uthash.h:297-304 | every element passed compares at most equal to the new one, and the one found compares greater |
| `AppList.PlaceMeans` | src/uthash.h:297-304 | the same of the place itself |
| `AppList.InsertLinks` | src/uthash.h:361-392 | insertion before an element keeps the list doubly linked |
| `AppList.UnlinkLinks` | src/uthash.h:461-479 | removal keeps the rest of the list doubly linked |
| `UtHash.Hash.MakeTable` | src/uthash.h:223-253 | an empty valid table with its filter, or nothing when an allocation fails |
| `UtHash.Hash.AddToTable` | src/uthash.h:324-356 | a joining element becomes a full member, or list, tail, chains, counts and item count are as before |
| `UtHash.Hash.RollbackBkt` | src/uthash.h:149-157 | the compensating count makes the second removal from the bucket exact |
| `UtHash.Hash.UndoAdd` | src/uthash.h:324-344 | rollback and delete together restore the table and the list |
| `UtHash.Hash.Add` | src/uthash.h:407-426 | the invariant holds, the state is the old one with the element last, or exactly the old one when memory runs out, which is characterised |
| `UtHash.Hash.AddInOrder` | src/uthash.h:361-392 | the same, with the element after those that compare at most equal and before the first that compares greater |
| `UtHash.Hash.FindByHashValue` | src/uthash.h:164-174 | the result is the element of the list under this key or null, with or without the Bloom filter |
| `UtHash.Hash.FindInChain` | src/uthash.h:164-174 | chain and list agree on every key, and a key the filter rules out is in neither |
| `UtHash.Hash.Delete` | src/uthash.h:458-488 | the element leaves list and chain, the last one frees the table, and the invariant holds |
| `UtHash.Hash.DeleteHH` | src/uthash.h:461-488 | the unlinking itself, also for an element its bucket has already lost |
| `UtHash.Hash.Replace` | src/uthash.h:265-273 | the element found under the key is returned and gone; the new one is then last, unless memory runs out, which is characterised on the state after the removal |
| `UtHash.Hash.ReplaceInOrder` | src/uthash.h:255-263 | the same, with the new one placed by the comparison as in the ordered addition |
| `UtHash.Hash.Clear` | src/uthash.h:1050-1059 | the hash is empty again |
| `UtHash.Displaced` | src/uthash.h:265-273 | deleting what a lookup finds leaves the key absent and the new element out of the list, even when it was in it |
| `HashCheck.CountsAddUp` | src/uthash.h:549-556 | the chain lengths add up to the item count and the list length |
| `HashCheck.Fsck` | src/uthash.h:527-574 | on any table that can be walked the check passes exactly when all back links, counts and totals are right |
| `HashCheck.ValidPasses` | src/uthash.h:527-574 | and they are in every valid hash |
| `HashCheck.LinksAre` | src/uthash.h:1139-1148 | all four links of every element are determined by the list and its chain |
| `Runs.StepSound` | src/uthash.h:361-488 | every operation, failed or not, keeps list and chains holding the same elements once each, in their buckets |
| `Runs.RunSound` | src/uthash.h:361-488 | the same over every run from an empty hash, with any allocations failing |
| `Runs.RunFrozen` | src/uthash.h:888-893 | after two ineffective expansions in a row the bucket count never changes while the table lives |
| `Runs.ValidIsSound` | src/uthash.h:1122-1128 | a valid hash is such a state, its bucket count is 2^log2, and noexpand is set exactly after two ineffective expansions in a row |
| `Runs.Perform` | src/uthash.h:255-488 | every method of a hash takes its state to the step these runs are made of |
| `OrderedMap.FindIsGet` | src/uthash.h:164-174 | a lookup in the list is a lookup in the map it stands for |
| `OrderedMap.StepRefines` | src/uthash.h:265-488 | add, replace, delete and clear are put, put after remove, remove and empty of the map; a failed add is nothing and a failed replace only removes |
| `OrderedMap.RunRefines` | src/uthash.h:265-488 | after every run of these, whichever of them fail, the list is the insertion-ordered map the requests describe |
| `OrderedMap.RunAgrees` | src/uthash.h:255-488 | after every run, in-order operations and sorts included, the list holds exactly that map's entries, each once |
| `OrderedMap.SortAgrees` | src/uthash.h:903-985 | sorting changes no entry of the map |
| `StableSort.SortedIsRanked` | src/uthash.h:903-985 | sorting gives a ranked permutation |
| `StableSort.SortAscends` | src/uthash.h:940-962 | no element of the sorted list compares greater than a later one |
| `StableSort.SortedStable` | src/uthash.h:903-985 | elements of one rank keep their order |
| `StableSort.SortKeepsTies` | src/uthash.h:943-946 | of two elements that compare equal the first stays first |
| `StableSort.MergeSorted` | src/uthash.h:940-962 | merging two sorted neighbours is sorting both together |
| `MergeSort.MergeRuns` | src/uthash.h:928-968 | the inner loop relinks two runs into their merge, also when the second is short or missing |
| `MergeSort.FindRunEnd` | src/uthash.h:918-927 | the counting loop finds the second run and the first one's length |
| `MergeSort.OnePass` | src/uthash.h:907-972 | one pass merges the runs two by two and leaves the list doubly linked |
| `MergeSort.PassDoubles` | src/uthash.h:907-981 | a pass over sorted runs of k elements leaves sorted runs of 2k |
| `MergeSort.Srt` | src/uthash.h:903-985 | the list becomes its stable sort, ascending by the comparison, with right links, head and tail, and the table is as before |
| `SortedRuns.RemoveSorted` | src/uthash.h:461-488 | deleting from the sorted list is sorting what is left |
| `SortedRuns.StepKeepsMode` | src/uthash.h:255-392 | every in-order operation keeps the list equal to the stable sort of the live elements in arrival order |
| `SortedRuns.RunKeepsMode` | src/uthash.h:255-392 | the same over every run |
| `SortedRuns.SortStartsMode` | src/uthash.h:903-985 | the sort establishes that state from any list |
| `SortedRuns.SortedModeMeans` | src/uthash.h:297-304 | in that state no element compares greater than a later one, and equal ranks stand in arrival order |
| `Select.AddThenCount` | src/uthash.h:1028-1030 | the item enters the bucket, possibly doubling the table, before the item count rises; a failed doubling leaves it out |
| `Select.Undo` | src/uthash.h:1031-1036 | after a failed doubling the element leaves bucket, list and count again, and the destination is as before |
| `Select.Take` | src/uthash.h:1007-1043 | one selected element joins list, table and filter of the destination, exactly when its allocations succeed |
| `Select.Select` | src/uthash.h:992-1048 | the destination holds the selected second handles in bucket-walk order with right links and counts, whichever allocations fail, and the source is unchanged |
| `Select.SelectsExactly` | src/uthash.h:1003-1041 | an element is selected exactly when it meets the condition and, with what was selected before it, its addition does not run out of memory |
| `Select.SelectsAll` | src/uthash.h:1003-1006 | when memory lasts, exactly the elements that meet the condition are selected |
| `Select.WalkOnce` | src/uthash.h:1000-1004 | the bucket walk visits every element of the source once |
| `Select.WalkAt` | src/uthash.h:1000-1004 | it goes bucket by bucket and along each chain |
| `Select.SelectedUnique` | src/uthash.h:992-1048 | no two selected elements share a key |
| `Select.SelectedFinds` | src/uthash.h:164-174 | lookups in the destination find the selected element under the key, and its filter hides none |
| `Select.ValidWhen` | src/uthash.h:1009-1030 | the destination, tail included, is valid exactly with at most one element selected |
| `Jenkins.MixBijective` | src/uthash.h:650-661 | the mix has a two-sided inverse on triples of words |
| `Jenkins.JenMix` | src/uthash.h:650-661 | the nine lines compute the mix |
| `Jenkins.Jen` | src/uthash.h:663-701 | the loop and the tail switch compute the hash of the key |
| `Jenkins.AddTail` | src/uthash.h:685-699 | the fall-through switch adds the remaining bytes, the low byte of the third word left out |
| `Jenkins.AbsorbInjective` | src/uthash.h:669-700 | for one key, different words before it give different words after it |
| `Jenkins.OneBlockChanges` | src/uthash.h:663-701 | with length and other bytes fixed, another block or tail gives other final words |
| `Jenkins.LengthMatters` | src/uthash.h:686-686 | a zero byte after the last bytes gives other final words, unless it fills a block |
| `KnownValues.KnownHash` | src/uthash.h:663-701 | the hash of the bytes 1 to 23, a block and an eleven-byte tail, is 0x872863ac |
| `Registry.BackendOf` | src/provider.c:691-702 | the first back end of the name, or one past the end when there is none |
| `Registry.PlaceOf` | src/provider.c:638-645 | the first cache of the id, or one past the end when there is none |
| `Registry.Provider.constructor` | src/provider.c:97-108 | an empty registry; an empty token is no token |
| `Registry.Provider.AddBackend` | src/provider.c:704-713 | the back end is registered last and nothing else changes |
| `Registry.Provider.FindBackend` | src/provider.c:691-702 | the first back end of that name |
| `Registry.Provider.FindCache` | src/provider.c:638-645 | the cache at the place of that id in the list, or null |
| `Registry.Provider.AddCache` | src/provider.c:647-658 | the cache is added last and counted, unless its id is in use |
| `Registry.Provider.RemoveCache` | src/provider.c:660-677 | the cache is closed if asked, unlisted, freed and counted off; its code comes back |
| `Registry.Provider.CreateCache` | src/provider.c:215-284 | token, back end and creation errors in that order; a new context under a new id, or lost |
| `Registry.Provider.OpenCache` | src/provider.c:287-356 | the same for open |
| `Registry.Provider.CloseCache` | src/provider.c:359-401 | token and id errors, else the context is closed and the cache gone whatever code close returns |
| `Registry.Provider.DestroyCache` | src/provider.c:404-460 | token and id errors, else the context is destroyed, not closed, and the cache gone |
| `Registry.Provider.ListCaches` | src/provider.c:463-517 | the first min(num_caches, max) ids in order of insertion |
| `Registry.Provider.FillIds` | src/uthash.h:1073-1075 | the iteration visits every element once, in list order, inside the array |
| `Registry.Provider.RemoveAllCaches` | src/provider.c:679-689 | every cache is closed in order and freed while the iteration goes on, and the registry is empty |
| `Registry.Provider.Advance` | src/uthash.h:1073-1075 | the element read ahead is still on the list after the current one was deleted and freed |
| `RegistryRuns.RunAccounts` | src/provider.c:215-460 | in every run each context is held by one cache, given back once, or lost, and none is lost exactly when ids were fresh |
| `RegistryRuns.ReleasedOnce` | src/provider.c:172-193 | after finalize every context has been closed or destroyed exactly once, precisely when all ids were fresh |
| `RegistryRuns.CollisionLeaks` | src/provider.c:266-270 | an id chosen twice loses a context |
| `RegistryRuns.KnownIffLive` | src/provider.c:638-677 | an id is known exactly when it was created or opened and neither closed nor destroyed since |
| `RegistryRuns.Answers` | src/provider.c:238-260 | exactly which requests are answered with which error, and that a request refused changes nothing |
| `RegistryRuns.RecordsNew` | src/provider.c:265-275 | a new cache has the new id, the first back end of the type asked for, and the context just made |
| `RegistryRuns.GivesBack` | src/provider.c:432-445 | close and destroy give back that cache's own context, each in its own way, and remove that cache |
| `RegistryRuns.RunOrigins` | src/provider.c:245-269 | in every run each cache's back end is the one of the type named by a request for its id |
| `RegistryRuns.CountersAgree` | src/provider.c:647-677 | num_caches, the item count and the list length agree, ids are distinct, and the table exists exactly with a cache |
| `Hoards.Hoard.Put` | src/hoard.hpp:24-38 | the cells written hold the new values, all others keep theirs, new ones are zero, and the size grows by the rule |
| `Hoards.Hoard.Get` | src/hoard.hpp:39-48 | the values last written, or zero |
| `Hoards.Context.Io` | src/dummy/dummy-backend.c:124-137 | writes go through the lock, reads do not, and the byte count is rounded down to cells |
| `Hoards.RunBounds` | src/hoard.hpp:26-27 | over every run the size is below four times the largest request and growths have copied less than a third of it |
| `Hoards.RunGrows` | src/hoard.hpp:26-27 | the size never shrinks and a growth more than quadruples it |
| `Benchmark.CellBijective` | examples/cachebench.c:286-289 | each offset belongs to exactly one rank and item |
| `Benchmark.CellRange` | examples/cachebench.c:286-289 | the offsets are exactly those below items times ranks |
| `Benchmark.StepContents` | src/hoard.hpp:24-34 | each step keeps the exact contents: stored cells their value, all others zero, none lost by a resize |
| `Benchmark.StepExclusive` | src/dummy/dummy-backend.c:128-132 | each step keeps one rank inside the lock, with a size check that still holds |
| `Benchmark.AllWritten` | examples/cachebench.c:286-317 | under every interleaving no store is out of bounds, and at the end cell j holds j + 100 for all j in range and zero beyond |
| `Benchmark.Progress` | src/dummy/dummy-backend.c:128-132 | until all ranks are done, some rank can take a step |
| `Benchmark.RunsEnd` | examples/cachebench.c:286-289 | no run has more than 5 * items * ranks steps |
| `Benchmark.OneWrite` | src/hoard.hpp:24-37 | the steps of one write together are one put |
| `Benchmark.ReadBack` | examples/cachebench.c:306-317 | the read-back reports zero errors exactly when every cell is right, and gives up at the sixth |
| `Benchmark.WrongCounts` | examples/cachebench.c:310-315 | the errors counted are the cells that do not hold 100 more than their index |
| `Benchmark.NothingWrong` | examples/cachebench.c:286-317 | after any interleaving in which all ranks finish, no cell in range is wrong |
| `Benchmark.ReadFinished` | examples/cachebench.c:286-317 | the read-back of a finished run reports no error |
| `Prng.OutputBijective` | tests/munit/munit.c:890-895 | the output function has a two-sided inverse on words |
| `Prng.FullPeriod` | tests/munit/munit.c:882-888 | a state comes back exactly after multiples of 2^32 steps |
| `Prng.NoShortCycle` | tests/munit/munit.c:882-888 | no state repeats within 2^32 steps |
| `KnownValues.KnownStep` | tests/munit/munit.c:882-888 | the state after 42 is 1342679667 |
| `KnownValues.KnownOutput` | tests/munit/munit.c:890-895 | the output of state 0xdeadbeef is 0xf635a409 |
| `Prng.GeometricDivides` | tests/munit/munit.c:882-888 | 2^k divides the multiplier's geometric sum of n terms exactly when it divides n |
| `Draws.FewRejected` | tests/munit/munit.c:980-982 | at most `min` candidates in a row are rejected, from any state |
| `Draws.EveryWordOnce` | tests/munit/munit.c:919-924 | every word is drawn exactly once in 2^32 draws |
| `Draws.Generator.AtMost` | tests/munit/munit.c:965-985 | division by zero exactly for max 0; otherwise the first output that, xored with the salt, reaches `min`, reduced modulo max + 1, after at most min + 1 draws; for max all ones the first output xored with the salt |
| `Draws.Generator.Memory` | tests/munit/munit.c:938-953 | byte i is byte i mod 4 of output i / 4, and ceil(n / 4) states are used |
| `Draws.BytesOfWord` | tests/munit/munit.c:945-951 | the bytes copied from a word make up the word, least significant first |
| `Draws.IntRange` | tests/munit/munit.c:999-1010 | the result lies between the bounds in either order; division by zero exactly for equal bounds |
| `Draws.CoversExactly` | tests/munit/munit.c:965-985 | every value in [0, max] can come out exactly when max is at most 2^31 or all ones |
| `Draws.OneMissing` | tests/munit/munit.c:971-984 | the value that never comes out otherwise |
| `CasLoop.Linearizes` | tests/munit/munit.c:926-963 | under every interleaving and spurious failure the shared state walks one orbit and the calls are as if made one after another |
| `CasLoop.EachDrawOnce` | tests/munit/munit.c:926-963 | every draw went to exactly one call |
| `CasLoop.CallsReturnOnce` | tests/munit/munit.c:926-997 | each thread's calls return once each, in the order it began them |
| `CasLoop.FailedSwap` | tests/munit/munit.c:847-850 | a swap that fails and is not spurious lost to a call that returned after the load |
| `CasLoop.LogGrows` | tests/munit/munit.c:926-997 | a step adds at most one return, at the end, from the value the state then had |
| `CasLoop.FillTakes` | tests/munit/munit.c:955-963 | a fill of n bytes takes ceil(n / 4) consecutive states and returns their bytes |
| `CasLoop.Uint32Takes` | tests/munit/munit.c:926-936 | a draw takes one state and returns its output |
| `CasLoop.AtMostAnswers` | tests/munit/munit.c:986-997 | a bounded draw returns what the sequential loop returns from the loaded state, and only that |
| `CasLoop.AtMostTakes` | tests/munit/munit.c:986-997 | in every run a bounded draw takes the states the rejection loop takes from where the shared orbit was |
| `WildParams.SweepIsProduct` | tests/munit/munit.c:1519-1548 | the planned runs are the Cartesian product, each combination once, in lexicographic order |
| `WildParams.Runner.RunTestWithParams` | tests/munit/munit.c:1283-1307 | a run sees the entries before the end mark, and its outcome is counted |
| `WildParams.Runner.RunWild` | tests/munit/munit.c:1519-1548 | the recursion makes the planned runs, up to the first failure or error when these are fatal, counts every outcome, and keeps the prefix and all names |
| `WildParams.CutAll` | tests/munit/munit.c:1545-1546 | without fatal failures every planned run is made |
| `WildParams.CutAppend` | tests/munit/munit.c:1545-1546 | the break at one level of the recursion stops all levels |
| `WildParams.CutMeans` | tests/munit/munit.c:1545-1546 | the runs made are the first planned; with fatal failures none follows a failure or an error, and only then are runs left out |
| `WildParams.TallyCounts` | tests/munit/munit.c:1450-1501 | each counter rises by the number of runs with its outcome |
| `WildTest.Params.Add` | tests/munit/munit.c:1075-1089 | the entry is appended before the end mark, in an array that was reallocated |
| `WildTest.CliMeans` | tests/munit/munit.c:1591-1599 | a parameter takes the value of the first argument of its name, and none without one |
| `WildTest.FixedMeans` | tests/munit/munit.c:1590-1601 | the entries filled are those of declarations that an argument names |
| `WildTest.GatherOne` | tests/munit/munit.c:1588-1624 | with --single a wildcard takes the value whose number is drawn from the generator's state and the salt |
| `WildTest.Gather` | tests/munit/munit.c:1588-1625 | the first pass: command line values, one drawn value of each wildcard with --single, each draw from where the last left off, or blanks for all wildcards |
| `WildTest.AddWild` | tests/munit/munit.c:1627-1637 | the second pass adds, for each wildcard, every declaration of its name before the first one without a list |
| `WildTest.RunTest` | tests/munit/munit.c:1552-1647 | the runs made for every test and command line, with --single by the draws from the seeded state, and exactly when it divides by zero or reads through null |
| `WildTest.AllCombinations` | tests/munit/munit.c:1627-1637 | the wildcards, each once, are what is enumerated, exactly when none is declared after a parameter without a list and no name among them is declared twice |
| `WildTest.OwnLists` | tests/munit/munit.c:1529-1539 | each wildcard then ranges over its own list |
| `WildTest.Overlooks` | tests/munit/munit.c:1630-1635 | a test that runs two of its four combinations, one with nothing to run, and one that makes sixteen runs for four combinations |

## Left out

- RPC plumbing, serialization, JSON parsing, MPI set-up, timing, logging, hello and sum: calls into libraries that are not part of this model.
- The hash functions other than the default one; no claim is made about collisions or distribution.
- Integer widths of counters: `num_items`, bucket counts, statistics and `expand_mult` are unbounded, while hash values and `num_buckets` are 32-bit words. Additions require that `num_buckets` can double in 32 bits.
- Handles at an offset inside elements: a handle and its element are one object, so pointer arithmetic between them is not modelled.
- Freed memory: freeing a table forgets it; freeing a cache overwrites its links, and nothing reads them afterwards.
- UtHash.Hash.Add: requires an absent key, as `add_cache` does; what a lookup returns among duplicates is unspecified because expansion reverses chains.
- UtHash.Hash.AddInOrder: requires an absent key, likewise.
- Runs.RunFrozen: a replacement that empties the table on the way ends the life of that table.
- Select.Select: requires an empty destination, and second handles given by a function from elements; the destination's `tail` is what the code leaves, and its ideal chain length lags one item.
- Registry.Provider.CreateCache: the back end's function is its return code and a fresh context; the uuid is a parameter; running out of memory ends the process.
- Registry.Provider.OpenCache: shares the body of create, since the handlers differ only in which back end function makes the context.
- Registry.Provider.AddBackend: the byte size given to realloc is not modelled; the list of back ends is a sequence.
- Registry handlers are atomic steps, as there is no lock around the hash of caches.
- Hoards.Hoard.Get: requires the range to be inside, as the code does not check; `size_t` overflow of offsets is not modelled.
- Hoards.Context.Io: caches that were opened have neither array nor mutex in this back end, so only created ones are covered; offsets are not negative; the lock is a flag, its waiting is modelled in `Benchmark`.
- Benchmark.AllWritten: reads that overlap writes, and `int` overflow of `i*nprocs+rank`.
- Draws.Generator.AtMost: says nothing about uniformity, which the code does not give; `munit_rand_double` and seeding from a clock are not modelled.
- CasLoop.Linearizes: load and computation are one step, as the computation is on local state; `munit_rand_double` draws like `munit_rand_uint32`.
- WildParams.Runner.RunWild: a test's outcome is a function of the number of the run and its parameters; forks, pipes, timing and output are left out.
- WildTest.RunTest: a failed reallocation, which ends the test, is not modelled, and lists are no longer than an int can count.
