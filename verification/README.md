# Verification of malloc-craft's data structures and protocols

A Dafny model of the self-contained logic under the game's mesh, world and server code,
with proofs that it does what its callers rely on. `dafny verify dfyconfig.toml` checks
everything.

- `DoubleBuffer.dfy`: the hand-off of world meshes from the mesh workers to the renderer.
  Every lock, unlock, load, store and free of `write_double_buffer` and
  `copy_world_mesh` is a step of its own, taken by any number of threads in any order.
  A reader drops the selector before it locks its slot, so that its copy is one that was
  published at all, is not stale and is not freed meanwhile are facts about interleavings.
- `Publications.dfy`: what these calls do for their callers: a write publishes its argument,
  once; nothing else is published; what is freed was superseded; a later copy sees the write.
- `WorldMesh.dfy`: where world meshes come from, `copy_world_mesh` and `free_world_mesh`, on a
  heap of blocks.
- `Rfc8259.dfy`: RFC 8259 in its own terms: which texts denote which values.
- `JsonSyntax.dfy`, `JsonReading.dfy`, `JsonAcceptance.dfy`, `JsonSoundness.dfy`,
  `JsonRefusal.dfy`, `JsonEdges.dfy`, `JsonParser.dfy`: the JSON reader of cerialize. A grammar
  says which texts are accepted; functions say what each routine reads; the parser, with its
  cursor and failure flag, is proved against the functions, and these against the grammar, in
  both directions. Which texts of RFC 8259 are read, and which others, follows.
- `JsonNumbers.dfy`, `JsonPrecision.dfy`, `JsonPrinter.dfy`, `JsonQuotes.dfy`,
  `JsonRoundTrip.dfy`: how numbers are printed and read, and how precisely; the JSON printer
  with its buffers, what its texts are, and for which values it is undone by the reader.
- `HashTable.dfy`, `Hashmap.dfy`: the chained hash map, as a table and as linked entries
  in memory.
- `Queue.dfy`, `QueueRuns.dfy`: the coalescing work queue as a linked list, as a sequence
  and as a set of kinds with arrival times. `WorkerPool.dfy`, `PoolHistory.dfy`: the pool that
  uses it, when its waits return, and which items it processes.
- `SortedBlocks.dfy`, `Sort.dfy`: the generic quicksort, on elements and on raw bytes.
- `Bezier.dfy`: `glm_decasteljau` over exact reals.
- `RunLength.dfy`, `Compression.dfy`: the compressed form of chunks.
- `Prelude.dfy`: what the modules share.

## Where the code is not what one would expect

- `pool_wait_completion` counts on one completion for each submit. A submit that replaces
  an equal waiting item is counted and never completed, so from then on the wait does not
  return, although all work is done. And the zero of the count wakes one waiting thread, not
  all. `WorkerPool.EveryWaitReturnsIff` says of the pool's state, before, exactly when
  everyone who waits will return: with work outstanding, when nothing was coalesced and at
  most one thread waits; `WorkerPool.SubmittedTwice` and `WorkerPool.TwoWaiters` are runs in
  which someone does not.
- The JSON printer writes strings and names without quotes, numbers with six decimals, and
  cuts a number's text off after 31 characters. `JsonRoundTrip.RoundTripsIff` says exactly
  which values are read back as they were.
- The printer does not look at the end of its buffers of 1024 characters.
  `JsonPrinter.Serialize` says exactly which values stay inside, and `JsonPrinter.LongString`
  gives values that do not.
- The JSON reader accepts more than RFC 8259 (a comma before a closing bracket, a leading
  plus sign or period, `1.`, leading zeros, signs anywhere inside a number, control
  characters and backslashes in strings, anything after most roots) and less (no empty
  string, no escapes). The exact set is the grammar `Lenient` of `JsonSyntax.dfy`.
- `free_world_mesh` keeps the foliage and custom blocks of a mesh whose counts for them are
  not positive (`WorldMesh.LeakingMesh`). Neither the generator nor the copy makes such a mesh
  (`WorldMesh.Create`, `WorldMesh.Copy`).
- `quicksort` passes the last index on as an int. With more than 2^31 elements some are left
  out of the sort (`Sort.QuicksortSorts`, `Sort.LastIsLeftOut`).
- `decompress_chunk` checks that the packets are there and does not check that their counts
  add up to a chunk. Fewer blocks leave air; more overrun its array
  (`RunLength.InBoundsIff`, `RunLength.OverrunningBuffer`).

## Model

| member | source | states |
|---|---|---|
| `DoubleBuffer.InvStep` | include/game_data.h:97-239 | every lock, unlock, load, store, free and publication of a writer or reader keeps the invariant: mutexes are owned exactly by the threads inside them, the slot `read_buffer` names holds the newest version and the other one the version before it, every mesh is in one place |
| `DoubleBuffer.RunInv` | include/game_data.h:83-239 | the invariant holds in every state of every run of any number of threads |
| `DoubleBuffer.CopyIsLinearizable` | include/game_data.h:125-239 | the mesh a `copy_world_mesh` call copies, or its NULL, was the published one in a state between the call's read of `read_buffer` and its return, and at the return it is the newest or second newest published version |
| `DoubleBuffer.CopiesNeverGoBack` | include/game_data.h:169-239 | a copy that begins after another one has returned, in the same thread or another, is of the same or a newer version |
| `DoubleBuffer.OwnershipOverRuns` | include/game_data.h:125-139 | in every state a mesh is at most once in a slot or freed; a mesh never passed in is nowhere; with no call pending each mesh passed in is in exactly one slot or was freed exactly once |
| `DoubleBuffer.MeshInUseIsLive` | include/game_data.h:176-238 | while a reader tests or copies a mesh, the mesh is in the slot this reader has locked and has not been freed |
| `DoubleBuffer.SomeoneCanAdvance` | include/game_data.h:97-139 | where a thread is inside a call some thread can take a step: no deadlock |
| `DoubleBuffer.PendingCallsEnd` | include/game_data.h:125-239 | if no new call starts, every schedule is bounded by the steps the pending calls have left, and one that cannot go on has ended every call |
| `DoubleBuffer.EveryCallCanFinish` | include/game_data.h:125-239 | from every reachable state there is a schedule that ends all pending calls |
| `Publications.WritePublishes` | include/game_data.h:125-139 | a call of `write_double_buffer` that has returned published its argument: exactly one of its own steps changed what is published, and added that argument; no other step of the run, of any thread, publishes that mesh |
| `Publications.OnlyWritesPublish` | include/game_data.h:125-139 | nothing else is ever published: each publication is a step of a call of `write_double_buffer`, and of that call's argument |
| `Publications.CopyReturns` | include/game_data.h:169-239 | every call of `copy_world_mesh` returns exactly one copy, with its last step, after one read of `read_buffer` |
| `Publications.WriteIsSeen` | include/game_data.h:125-239 | a copy whose call begins after a write has returned is of the mesh that was written or of one published later |
| `Publications.FreedWasSuperseded` | include/game_data.h:132-134 | no mesh is freed before it was published and another one was published after it |
| `WorldMesh.CopyLayer` | include/game_data.h:196-202 | a layer's copy has the same cells in a fresh block, or NULL where the source has none or a count that is not positive; only that block is allocated |
| `WorldMesh.CopyLayers` | include/game_data.h:196-234 | so for the five layers, whose blocks are all different |
| `WorldMesh.Copy` | include/game_data.h:184-239 | the copy equals its source layer by layer, shares no block with it, and all it allocates is what `free_world_mesh` releases |
| `WorldMesh.FreeMesh` | include/game_data.h:54-68 | exactly the released blocks are given back, each while it is live |
| `WorldMesh.ReleasesEverything` | include/game_data.h:54-68 | freeing releases the whole mesh if and only if no foliage or custom block is behind a count that is not positive |
| `WorldMesh.LeakingMesh` | include/game_data.h:54-68 | a concrete mesh with a foliage block that freeing it does not release |
| `WorldMesh.Create` | src/mesh/generation/world_mesh.c:143-266 | each layer's count is the total of that layer over the chunks, with a block exactly where it is positive, of 12 cells a side or 8 a vertex; so no mesh the generator builds leaks |
| `WorldMesh.TotalOfOne` | src/mesh/generation/world_mesh.c:154-168 | a missing chunk adds nothing to any layer, and a single chunk's totals are its own five counts, each for its own layer |
| `WorldMesh.TotalOfBoth` | src/mesh/generation/world_mesh.c:154-168 | in every layer the totals of two packets of chunks add up; with the laws for one chunk this fixes every total |
| `WorldMesh.TotalIsTheSum` | src/mesh/generation/world_mesh.c:154-168 | a chunk adds the same wherever it stands in the packet |
| `WorldMesh.RenderFrames` | src/main.c:107-115 | any number of copy, render, free cycles, each of whatever mesh is published, leaves the live blocks as the other threads alone would |
| `JsonParser.Parser.SkipWhitespace` | include/cerialize/cerialize.h:103-107 | the cursor stops at the first character that is not white space or at the length given |
| `JsonParser.Parser.ParseString` | include/cerialize/cerialize.h:115-176 | a string up to its quote, without line breaks and not empty; the cursor just past it, or the failure flag; never past the buffer |
| `JsonParser.Parser.ParseNull` | include/cerialize/cerialize.h:178-203 | `null`, then a delimiter and no second `null`; or failure |
| `JsonParser.Parser.ParseBoolean` | include/cerialize/cerialize.h:273-328 | `true` or `false`, then a delimiter and no second boolean; or failure |
| `JsonParser.Parser.ScanChar` | include/cerialize/cerialize.h:222-255 | the scan loop refuses a character exactly for a second period, a second exponent mark or a period right after one |
| `JsonParser.Parser.ScanNumber` | include/cerialize/cerialize.h:205-255 | the scan ends at the end of the run of number characters, or refuses a run that is no number |
| `JsonParser.Parser.ParseNumber` | include/cerialize/cerialize.h:205-271 | the scanned text, exactly when it is a number of the lenient grammar |
| `JsonParser.Parser.ParseList` | include/cerialize/cerialize.h:332-413 | the list the reading function gives, with the cursor past its bracket; or failure, also where no list starts |
| `JsonParser.Parser.ListTurn` | include/cerialize/cerialize.h:346-398 | one turn of the loop reads one item and what follows it, and moves the cursor on |
| `JsonParser.Parser.ListDelimiter` | include/cerialize/cerialize.h:378-397 | a comma, a comma and the closing bracket, or the closing bracket; else failure |
| `JsonParser.Parser.ParseValue` | include/cerialize/cerialize.h:415-565 | the value the reading function gives and the cursor past it, or the failure flag; it terminates on every buffer |
| `JsonParser.Parser.ParseObject` | include/cerialize/cerialize.h:458-564 | the members the reading function gives, with the cursor past the brace; or failure |
| `JsonParser.Parser.ObjectTurn` | include/cerialize/cerialize.h:467-549 | one turn of the loop reads one member and what follows it, and moves the cursor on |
| `JsonParser.Parser.ObjectDelimiter` | include/cerialize/cerialize.h:527-548 | after a member a comma or the closing brace; a bracket passes here and is refused as the next key |
| `JsonParser.Parser.ParseKey` | include/cerialize/cerialize.h:476-492 | a key, white space and a colon; or failure |
| `JsonParser.Deserialize` | include/cerialize/cerialize.h:568-595 | parsing succeeds if and only if the buffer starts with a text of the lenient grammar, followed as it demands, and returns that text's tree; the rest is not examined |
| `JsonSoundness.ReaderIsExact` | include/cerialize/cerialize.h:415-565 | at every cursor: success with a value and an end if and only if the lenient grammar derives the text between with that tree |
| `JsonSoundness.SoundAt` | include/cerialize/cerialize.h:415-565 | what was read belongs to the grammar, with the tree that was returned |
| `JsonAcceptance.AcceptsValue` | include/cerialize/cerialize.h:415-565 | every lenient text is accepted where it may end and gets its tree |
| `JsonAcceptance.AcceptsItems` | include/cerialize/cerialize.h:342-398 | every lenient list body is read to its bracket, elements in order |
| `JsonAcceptance.AcceptsMembers` | include/cerialize/cerialize.h:462-549 | every lenient object body is read to its brace, members in order |
| `Rfc8259.NumberIsLenient` | include/cerialize/cerialize.h:205-271 | every number of RFC 8259, section 6, is one the scanner accepts |
| `Rfc8259.TreesAreTexts` | include/cerialize/cerialize.h:415-565 | the texts of RFC 8259, sections 2 to 7, defined by code points and productions alone, are those that the trees `Rfc` spell, with the same values |
| `Rfc8259.RfcIsLenient` | include/cerialize/cerialize.h:115-565 | every such tree without empty strings and names is one of the reader's grammar |
| `JsonSoundness.AcceptsRfc8259` | include/cerialize/cerialize.h:415-565 | every text of RFC 8259 whose strings and names are not empty and hold no backslash is accepted whole, and gives the value it denotes, with each number's own text |
| `JsonSoundness.AcceptsLastComma` | include/cerialize/cerialize.h:386-394 | the parser is looser: a comma before the closing bracket of any list or object that is not empty is accepted and changes nothing in the tree |
| `JsonRefusal.RefusesString` | include/cerialize/cerialize.h:147-152 | the parser is tighter: in any buffer an empty string is refused, as a name and as a value |
| `JsonRefusal.AcceptsUnlessEmpty` | include/cerialize/cerialize.h:415-565 | a text of RFC 8259 without a backslash gives the value it denotes if and only if no string and no name anywhere in that is empty, and is refused otherwise |
| `JsonEdges.StringIsReadIff` | include/cerialize/cerialize.h:115-176 | any characters but quotes, in quotes and alone in a buffer, are read as that string if and only if there are any and no line feed or carriage return is among them |
| `JsonEdges.KeywordIsReadIff` | include/cerialize/cerialize.h:178-203 | after `null`, `true` or `false` in a buffer exactly NUL, comma, closing brace, closing bracket and white space may come |
| `JsonEdges.LooseNumberIsRead` | include/cerialize/cerialize.h:205-271 | numbers that RFC 8259 does not have are read too: with a leading plus, with leading zeros, without digits before or after the period |
| `JsonPrinter.Serialize` | include/cerialize/cerialize.h:687-707 | all appends stay inside their buffers if and only if every list and object in the value prints to less than 1024 characters, and then this is the text |
| `JsonPrinter.SerializeList` | include/cerialize/cerialize.h:629-651 | the same for a list: items in order between brackets, separated by commas |
| `JsonPrinter.SerializeObject` | include/cerialize/cerialize.h:653-685 | the same for an object: names and values in order between braces, without quotes |
| `JsonPrinter.LongString` | include/cerialize/cerialize.h:629-651 | a list of one string overruns its buffer exactly from 1022 characters on |
| `JsonQuotes.PrintsUnquoted` | include/cerialize/cerialize.h:598-707 | for every value whose strings RFC 8259 can hold without a backslash and whose numbers fit, what is printed is a text of RFC 8259 that denotes the value, but for its quotation marks, which are all left out |
| `JsonNumbers.PrintedValue` | include/cerialize/cerialize.h:614-619 | what strtof reads back from a printed number is the number rounded to six decimals, less the digits that do not fit the buffer of 32 characters |
| `JsonPrecision.PrintedIsNearest` | include/cerialize/cerialize.h:614-619 | read back, a printed number of at most 31 characters is within half a millionth of the number and a multiple of a millionth, the even one of two as near |
| `JsonPrecision.PrintedIsCutOff` | include/cerialize/cerialize.h:614-619 | of a text that is c characters too long the lost decimals are worth less than 10^c millionths; where the period goes too the number read back lacks its last c - 7 digits |
| `JsonPrecision.PrintedForm` | include/cerialize/cerialize.h:614-619 | a minus for a negative number, a whole part without needless zeros, a period and six decimals: before it is cut off, a number of RFC 8259 |
| `JsonPrecision.StrtofMeans` | include/cerialize/cerialize.h:257-271 | strtof gives every number of RFC 8259 the value its sign, digits, decimals and exponent stand for |
| `JsonNumbers.KeptIff` | include/cerialize/cerialize.h:614-619 | that is the number itself if and only if its whole part fits and so does every decimal it has, six at most |
| `JsonRoundTrip.PlainIsRead` | include/cerialize/cerialize.h:598-707 | the text of a value without strings and members is read whole, number for number, also where a number was cut off |
| `JsonRoundTrip.OnlyPlainIsRead` | include/cerialize/cerialize.h:598-707 | no other value ever comes back |
| `JsonRoundTrip.RoundTripsIff` | include/cerialize/cerialize.h:598-707 | parsing the printed text gives the value back, all of the text read, if and only if the value holds no string and no object with a member, and each of its numbers is the rounding to a float of its printed decimals, however that rounds |
| `JsonRoundTrip.RoundTripsExactly` | include/cerialize/cerialize.h:598-707 | over exact reals: if and only if, besides, each number is a multiple of 10^-6 short enough for its buffer |
| `JsonRoundTrip.StringDoesNotRoundTrip` | include/cerialize/cerialize.h:598-605 | a concrete string for which the law fails |
| `JsonRoundTrip.SmallNumberDoesNotRoundTrip` | include/cerialize/cerialize.h:614-619 | a concrete number for which it fails, being printed as zero |
| `Hashmap.Map.constructor` | include/hashmap.h:24-30 | a map with no entries and empty buckets, of any capacity |
| `Hashmap.Map.Walk` | include/hashmap.h:70-83 | the walk along the key's bucket finds the entry with an equal key if the map has one anywhere, with its predecessor |
| `Hashmap.Map.Get` | include/hashmap.h:52-63 | the address of the key's value, or NULL if no equal key is there |
| `Hashmap.Map.InsertPair` | include/hashmap.h:32-50 | the table after insertion; every entry stays in its hash's bucket, lists have no cycle and share nothing, no two keys are equal, `size` is the number of entries |
| `Hashmap.Map.RemoveKey` | include/hashmap.h:65-85 | the same for removal, and the result says whether the key was there |
| `Hashmap.Map.WriteCell` | include/hashmap.h:52-63 | the same for a caller's write through the cell that get returned |
| `Hashmap.Map.FreeAll` | include/hashmap.h:87-97 | every entry is freed exactly once and none is left; then the bucket array is released |
| `Hashmap.Map.FreeList` | include/hashmap.h:89-94 | one bucket's entries are freed, in order, each while it is allocated |
| `Hashmap.PrependedValid` | include/hashmap.h:44-48 | linking a new entry in front of its bucket keeps all lists and the bucket discipline |
| `Hashmap.UnlinkedValid` | include/hashmap.h:71-77 | unlinking and freeing an entry keeps them too |
| `Hashmap.NotInChain` | include/hashmap.h:52-62 | a key not found in its own bucket is in none |
| `HashTable.InsertMeans` | include/hashmap.h:32-50 | after insertion equal keys see the value and no other key is affected; no cell moves; the number of entries grows by one for a new key only |
| `HashTable.RemoveMeans` | include/hashmap.h:65-85 | after removal equal keys are gone and no other key is affected |
| `HashTable.WriteMeans` | include/hashmap.h:52-63 | a write through a key's cell is seen under equal keys only, and moves no cell |
| `HashTable.RunsLikeAMap` | include/hashmap.h:24-85 | after any run of insertions, writes through cells and removals every lookup gives what was last written under an equal key and not removed since |
| `HashTable.CellIsStable` | include/hashmap.h:36-63 | a key's cell stays its cell through any insertions, also of the key itself, any writes and any removals of other keys |
| `Queue.WorkQueue.constructor` | src/util/queue.c:5-7 | an empty queue |
| `Queue.WorkQueue.Cleanup` | src/util/queue.c:9-15 | nothing waits and as many nodes were freed as were allocated |
| `Queue.WorkQueue.Walk` | src/util/queue.c:62-77 | the walk finds the first equal item and its predecessor, or the end |
| `Queue.WorkQueue.PushItem` | src/util/queue.c:17-42 | the new contents, one allocation unless an equal item waits; the list stays acyclic with one item of each kind, and allocations less frees is its length |
| `Queue.WorkQueue.PopItem` | src/util/queue.c:44-55 | the front item and the rest, one node freed; None for the empty queue |
| `Queue.WorkQueue.RemoveItem` | src/util/queue.c:57-78 | the equal item and its node taken out and freed, if there is one; the other nodes stay |
| `QueueRuns.ContentsDistinct` | src/util/queue.c:17-78 | in every run at most one item of each kind waits |
| `QueueRuns.QueueRefinesReference` | src/util/queue.c:17-78 | in every run each operation is that of a set of kinds with arrival times: a repeated push keeps its turn and replaces the item, pop takes the kind that waits longest, remove takes exactly the equal one |
| `QueueRuns.PushesAreConserved` | src/util/queue.c:17-78 | in every run each pushed item, as often as it was pushed, was replaced, popped or removed or still waits, and no other item was or does |
| `QueueRuns.EqualOneIsServed` | src/util/queue.c:17-55 | and of each pushed item one that equals it is popped or removed, or waits: no kind is lost with the items replaced |
| `WorkerPool.RunInv` | src/mesh/core/worker_pool.c:35-182 | in every run the count of pending work is what is queued and being processed plus every coalesced submit so far, and counted work that waits has a worker that is not blocked |
| `WorkerPool.WaitIsNotTooShort` | src/mesh/core/worker_pool.c:160-182 | the count is never negative, and a wait returns only when all work is done, but for a submit that has not counted its item yet |
| `WorkerPool.CoalescedWaitNeverReturns` | src/mesh/core/worker_pool.c:172-182 | after a coalesced submit no wait returns any more |
| `WorkerPool.PoolGoesOn` | src/mesh/core/worker_pool.c:35-76 | no worker's wake-up is lost: unless all work is done, some thread can go on without a new call |
| `WorkerPool.PoolComesToRest` | src/mesh/core/worker_pool.c:35-76 | from every reachable state there is a schedule after which nothing is left to do |
| `WorkerPool.DrainsEnd` | src/mesh/core/worker_pool.c:35-182 | every schedule without new calls is bounded, and where it can go no further all work is done |
| `PoolHistory.WorkersTakeWhatIsPopped` | src/mesh/core/worker_pool.c:35-158 | in every run the items with which workers become busy are those the queue's pops return in the run of pushes and pops that submits and takes make, in that order; and each of them has been processed as often as it was taken, or is in work |
| `PoolHistory.AllWorkIsProcessed` | src/mesh/core/worker_pool.c:35-158 | when all work is done, which is where every schedule without new calls ends, each submitted item, as often as it was submitted, has been processed or was replaced while it waited by a submitted item that equals it; nothing else has been processed |
| `PoolHistory.EndsAtRest` | src/mesh/core/worker_pool.c:35-158 | every schedule that can go no further without a new call ends there |
| `PoolHistory.ProcessedOnce` | src/mesh/core/worker_pool.c:35-158 | an item submitted once was then processed exactly once, or replaced and not processed |
| `PoolHistory.EqualOneIsProcessed` | src/mesh/core/worker_pool.c:35-158 | and of every submitted item one that equals it was processed |
| `PoolHistory.WaitedWorkIsProcessed` | src/mesh/core/worker_pool.c:172-182 | when a wait returns, with no submit on its way, the items processed are exactly the items submitted, each as often |
| `WorkerPool.EveryWaitReturnsIff` | src/mesh/core/worker_pool.c:35-182 | from a state of the pool everyone who waits returns under every schedule without new calls if and only if, in that state, nobody waits, or no submit was coalesced and either the count is at zero to stay and nobody sleeps, or work is outstanding and at most one thread waits |
| `WorkerPool.SomebodyStays` | src/mesh/core/worker_pool.c:35-182 | otherwise there is a schedule that ends with somebody asleep and nothing left to do |
| `WorkerPool.OneWaiterReturnsIff` | src/mesh/core/worker_pool.c:172-182 | with a single waiting thread, at any time of any run: it returns under every schedule if and only if it is not waiting or nothing was coalesced |
| `WorkerPool.SubmittedTwice` | src/mesh/core/worker_pool.c:142-182 | a concrete run after which all work is done and the waiting thread sleeps on: one item was coalesced |
| `WorkerPool.TwoWaiters` | src/mesh/core/worker_pool.c:66-71 | a concrete run after which all work is done, nothing was coalesced, and one of two waiting threads sleeps on: the zero is signalled to one of them |
| `Sort.Swap` | src/util/sort.c:4-9 | the bytes of the two places are exchanged and no other byte changes |
| `Sort.SwapSwapsBlocks` | src/util/sort.c:4-9 | on bytes that hold blocks this exchanges two blocks and touches nothing outside them |
| `Sort.Partition` | src/util/sort.c:11-26 | the blocks are those of the partition function, the pivot's index is returned, high - low keys were compared |
| `Sort.QuicksortRange` | src/util/sort.c:29-36 | the blocks of the range are sorted as the function says, with as many comparisons and calls nested as deep; no byte outside the blocks changes |
| `Sort.Quicksort` | src/util/sort.c:39-44 | the same for the whole buffer, up to the last index as an int; nothing for NULL or at most one element |
| `Sort.QuicksortSorts` | src/util/sort.c:39-44 | the result has the elements there were; it is sorted by key if and only if the elements that the conversion of the last index to an int leaves out are in order already, and with at most 2^31 elements it leaves none out |
| `Sort.LastIsLeftOut` | src/util/sort.c:39-44 | a concrete family of 2^31 + 1 elements that is not sorted: the last one is left out |
| `Sort.QuicksortComparisons` | src/util/sort.c:39-44 | at most n (n - 1) / 2 comparisons for n elements |
| `SortedBlocks.LomutoSplits` | src/util/sort.c:16-21 | the loop keeps the keys up to i at or below the pivot's and those after above it |
| `SortedBlocks.PartitionSplits` | src/util/sort.c:11-26 | the pivot separates keys at or below it from keys above it |
| `SortedBlocks.PartitionRearranges` | src/util/sort.c:11-26 | partitioning only rearranges the elements of its range |
| `SortedBlocks.QuickSortSorts` | src/util/sort.c:29-36 | every range comes out sorted and rearranged, and nothing else moves |
| `SortedBlocks.ComparisonsBound` | src/util/sort.c:11-36 | at most n (n - 1) / 2 comparisons for a range of n elements |
| `SortedBlocks.SortedIsWorstAndUnchanged` | src/util/sort.c:11-36 | a range already sorted, or with all keys equal, is left as it is and costs exactly n (n - 1) / 2 comparisons |
| `SortedBlocks.DepthBound` | src/util/sort.c:29-36 | the calls nest at most as deep as the range has elements |
| `SortedBlocks.SortedIsDeepest` | src/util/sort.c:29-36 | and on a range already sorted exactly as deep |
| `SortedBlocks.SortingTwice` | src/util/sort.c:29-36 | sorting is idempotent |
| `Bezier.AtIsBernstein` | include/cglm/bezier.h:30-60 | the evaluated expression is the documented formula |
| `Bezier.Subdivision` | include/cglm/bezier.h:126-131 | the points of one subdivision are the control points of the two halves of the current part of the curve, and the middle one is on the curve |
| `Bezier.Decasteljau` | include/cglm/bezier.h:111-151 | the loop computes what plain bisection computes by evaluating `glm_bezier` at every midpoint; clamping changes nothing |
| `Bezier.BisectionBrackets` | include/cglm/bezier.h:124-150 | bisection from a bracket of the value ends at a hit or in the middle of a bracket 2^n times narrower |
| `Bezier.InverseIsClose` | include/cglm/bezier.h:111-151 | the result is in [0, 1]; for every value between the end points the curve is within the tolerance there, or the value is bracketed within 2^-1001 on either side; a value hardly above the begin point or below it gives 0, another one above the end point 1 |
| `Bezier.CurveGrows` | include/cglm/bezier.h:50-60 | the curve does not go down where its control points do not |
| `Bezier.InverseIsNearSolution` | include/cglm/bezier.h:111-151 | on such a curve the result is within 2^-1001 of the first solution, unless it is a hit |
| `RunLength.IntRoundTrip` | src/server/compression/compression.c:12-46 | every 32-bit int is read back as it was written |
| `RunLength.BigEndian` | src/server/compression/compression.c:12-22 | the bytes are the int modulo 2^32, most significant first |
| `RunLength.PackPulled` | src/server/compression/compression.c:12-46 | every four bytes are the bytes of the int read from them |
| `RunLength.DecodeEncode` | src/server/compression/compression.c:86-151 | an encoded chunk, followed by anything and cut off anywhere, is decoded to itself if none of it is missing and there are 15 bytes, and is refused otherwise |
| `RunLength.EncodeDecode` | src/server/compression/compression.c:115-151 | whatever is decoded, unless it claims a negative number of packets, is an encoding followed by anything |
| `RunLength.Layout` | src/server/compression/compression.c:86-112 | where everything is in the buffer: x, z and the number of packets at 0, 4 and 8, and from 12 on 7 bytes for each packet, its block and then its count |
| `RunLength.RunsExpand` | src/server/compression/compression.c:192-213 | the segments stand for the blocks, none is empty and no two neighbours are of the same block |
| `RunLength.RunsAreTheOnlyOnes` | src/server/compression/compression.c:192-213 | they are the only such segments |
| `RunLength.RunsAreFewest` | src/server/compression/compression.c:217-250 | no list of packets that stands for the blocks is shorter |
| `RunLength.ChunkRoundTrip` | src/server/compression/compression.c:217-278 | decompressing what compression made gives the chunk back, never overruns the array of blocks, and is refused if any of it is missing |
| `RunLength.InBoundsIff` | src/server/compression/compression.c:259-271 | unpacking writes inside the array of blocks if and only if the packets stand for no more blocks than a chunk has |
| `RunLength.OverrunningBuffer` | src/server/compression/compression.c:252-271 | a concrete buffer of 19 bytes that is not refused and overruns the array |
| `Compression.PackIntToBuffer` | src/server/compression/compression.c:12-22 | the int's four bytes, most significant first, and no other byte written |
| `Compression.PullIntFromBuffer` | src/server/compression/compression.c:35-46 | the int whose bytes these are |
| `Compression.PullPacketFromBuffer` | src/server/compression/compression.c:64-83 | the packet whose bytes these are |
| `Compression.ToBuffer` | src/server/compression/compression.c:86-112 | a new buffer with the encoded chunk |
| `Compression.FromBuffer` | src/server/compression/compression.c:115-151 | the decoded chunk; None for NULL, a short buffer or a truncated one |
| `Compression.FlattenBlockArray` | src/server/compression/compression.c:165-176 | the blocks in the order x, z, y |
| `Compression.PopulateChunkBlocks` | src/server/compression/compression.c:179-190 | a chunk whose flat form is the array |
| `Compression.FlatOrder` | src/server/compression/compression.c:165-176 | the block at x, height y and z is at x + 16 z + 256 y of the flat form |
| `Compression.FlatIsInjective` | src/server/compression/compression.c:165-190 | chunks with the same flat form have the same block everywhere |
| `Compression.CompressBlockSegment` | src/server/compression/compression.c:197-213 | the longest run of equal blocks from the index on, and the index after it |
| `Compression.CompressChunk` | src/server/compression/compression.c:217-250 | the compressed form of the chunk's position and blocks |
| `Compression.Unpack` | src/server/compression/compression.c:263-271 | a packet's blocks are written after those before, or the first write past the array is found |
| `Compression.DecompressChunk` | src/server/compression/compression.c:252-278 | the chunk the bytes stand for, with air after the last packet; NULL if the buffer is refused; an overrun exactly where unpacking leaves the array |

## Left out

- DoubleBuffer: the contents of meshes, which no step changes; that no thread waits for ever for a mutex others keep taking; what happens when the machine reorders accesses that the mutexes do not order (there are none to shared fields).
- DoubleBuffer: a mesh is an identity, another one each time its address is handed out again, and is passed to `write_double_buffer` once, as its callers do; a NULL buffer argument, `destroy_game_data` and failures of the mutex functions.
- WorldMesh.Create: the sides and vertices it writes into the blocks.
- WorldMesh: the five counts and pointers are a sequence of layers; a float of the custom layer is a 32-bit cell; allocation does not fail; the sizes and sums do not overflow an int.
- JsonParser.Parser.ParseNumber: gives the scanned text. The float is `strtof` of the rest of the buffer, which is `JsonNumbers.Strtof` of that text, rounded, except for a root such as `0x1F`, where strtof reads on.
- JsonParser: a string with a NUL inside keeps all its characters in the tree; the source returns it without its length, so that its users see it end at the NUL.
- JsonParser: error messages, allocation failures and what is not freed on error paths. The value returned with a failure is of no use and not stated.
- JsonParser.Deserialize: the caller's length is that of the buffer, whose last character is NUL; with a shorter length the source still looks at what is behind it.
- JsonRoundTrip: is about the printed text, whether or not the printer's buffers can hold it.
- JsonPrinter: what the program does after an append has left its buffer; infinities, NaN and the sign of zero.
- `json_get_property`, the functions that free values and files that only declare types.
- Hashmap: what `malloc` returns is a parameter, any address not in use; lookups in a map without buckets, for which the source divides by zero.
- Queue: the queue's items are values, and a NULL item is not told from an empty queue by the source's `queue_pop`; failed allocation ends the program there.
- WorkerPool: threads' start and shutdown, wake-ups without a signal, and what processing does. A submit holds the queue's mutex until it has counted its item, so the model has one flag for it. A signal wakes one blocked thread, if there is one.
- Sort: keys are real numbers that depend on the element's bytes only, so there is no NaN and the camera does not move during a sort; element size zero; the size of the stack. Swapping a block with itself is a copy onto itself.
- Bezier.Decasteljau: over exact reals, without rounding; the other curves of cglm, its vectors and matrices are left out.
- Compression: the printed messages, NULL arguments of the functions that pack and pull, failed allocation, and buffers within 7 bytes of INT_MAX.
- The terrain and mesh generators, rendering, sockets, metrics, settings and start-up.
