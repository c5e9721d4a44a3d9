# Verified models of six small C systems

The repository is a collection of independent C programs. This project models the six that carry
real invariants and proves what they promise:

- **the pool allocator** (`baby_malloc`): `block_meta` headers and client payloads share one array
  of 8-byte words; the block list exists only as `size`, `free` and `next` fields in that array;
- **the threaded file copier** (`steal`): workers taking jobs from a queue under one mutex, as a
  transition system with one step per source line, against the sequential copier;
- **the JSON flattener** (`json-parser`): the character-driven state machine with its fixed buffers,
  key stack and one-character push-back, against a recursive definition of flattening;
- **the line-file key-value store** (`key-value-store`): `fgets`/`strtok` scans over the characters
  of `store.txt`, against an ordered map;
- **the ELF segment loader** (`ELF-loader`): counting pass, loading pass and address translation,
  against the process image of the System V gABI, chapter 5, "Program Header";
- **decimal printing** (`custom-printf`): `print_int` and its 12-byte buffer.

Code that works in place is modelled in place: the pool, the parser's buffers, the segment table and
the digit buffer are arrays of classes and methods with loops, each proved against a specification
function. The laws are lemmas about those functions.

## Modules

| files | content |
|---|---|
| `HeapBlocks`, `HeapMemory`, `HeapRuns`, `Allocator` | block lists as values; the words that represent them; whole runs; the allocator on its array |
| `CopyModel`, `CopyNames`, `CopySequential` | files and jobs; the jobs a command line makes; the sequential program |
| `CopyWorkers`, `CopyContents`, `CopyTheorems`, `CopyProgress`, `CopySchedules` | the workers and their control invariant; file contents; results over all runs; bounds on runs; schedules that exist |
| `JsonDocument`, `JsonMachine`, `JsonTokens`, `JsonTheorems`, `JsonErrors`, `JsonNames`, `JsonParser` | documents, layouts and flattening; the machine; its token view; the theorems; texts that are no documents; qualified names; the parser on its buffers |
| `LineText`, `StoreText`, `StoreMap`, `StoreRuns`, `StoreCommand`, `Store` | the C string calls; commands on characters; the ordered map; sessions; the prompt; the handlers |
| `ElfImage`, `Bytes` | loading and translation; the byte type |
| `Decimal`, `Sysout` | decimal text; `print_int` |

## Where the code and its documentation disagree

The code is what is modelled.

- `baby_malloc/README.md` says adjacent free blocks are combined to prevent fragmentation. `bby_free`
  looks at the successor only. `HeapRuns.FreeingUpwardsFragments` shows two free neighbours after two
  allocations freed in order, and a request the fresh pool would satisfy refused.
  `HeapBlocks.FreeKeepsCoalesced` and `HeapRuns.AlwaysCoalesced` say exactly when pairs arise.
- `json-parser/README.md` promises fully qualified keys. Array elements are named with the innermost
  key only; a document is printed with qualified keys exactly when all its arrays are members of the
  root (`JsonNames.PrintsQualifiedKeys`), and `JsonNames.NestedArrayMisnamed` is a document that is not.
- The end of an empty object goes unnoticed. A document that is otherwise supported is read to
  STATE_DONE exactly when it holds no empty object (`JsonTheorems.DoneIffNoEmptyObject`).
- `key-value-store/README.md` says UPDATE changes an existing key. On a missing key it inserts, and
  on an existing one it moves the pair to the end. GET reads lines into 512 bytes where the other
  commands use 700; `StoreMap.GetExactlyWhenShort` gives the exact condition under which it is right.
- GET of a key that is not stored leaves the caller's buffer unwritten, tests its first byte, and the
  buffer is then printed as the value. `StoreRuns.SessionPrints` says exactly when the text printed is
  right, and `StoreRuns.StaleValuePrinted` shows an earlier key's value printed for an unknown key.
- The two copiers spell a destination differently when the folder ends in `/`; both names resolve to
  the same file (`CopyNames.SameDestination`). The sequential program stops at the first missing
  source, the threaded one leaves an empty destination and goes on. Sources with the same name race
  for one destination. `CopySchedules.AllRunsMatchSequential` gives the exact condition under which
  every complete run still leaves the sequential result.
- `vaddr_to_host` computes a segment's end modulo 2^64, so a segment that reaches the last address is
  never found (`ElfImage.FoundUnlessWrapping`).
- `print_int` negates its argument; on `INT_MIN` two's complement gives `INT_MIN` back and the text
  printed is not a number (`Sysout.PrintInt`, `Sysout.IntMinText`).

## Modelling choices

- Sizes and positions in the pool are counted in words, and a pointer is `8 * (origin + word)` for an
  arbitrary non-zero `origin`. `size_t` arithmetic in the rounding step wraps at 2^64, as in the code.
  The `free` flag is the low half of its word; the padding half keeps whatever a client left there.
- Files are keyed by resolved names: a run of slashes counts as one, so two spellings of a path are one
  file. In the copier every read returns between 1 and 4096 bytes, chosen freely, and every interleaving of
  single source lines is a run. `owner`, `finished` and `acquired` in the state only record history.
- In the parser `key_buffer`, `val_buffer` and the rows of `key_stack` are read up to their index; the
  input is free of NUL characters, so this is the C string in them. Text between quotes is passed on
  as it is, backslashes included, as the code does.
- In the store a read that the C code would do through a NULL pointer is the result `Undefined`. The
  buffer GET fills may hold anything beforehand. A session goes on after such a read; in C nothing after it is defined.
- An ELF file is shorter than 2^63 bytes, as `off_t` requires. `lseek` refuses an offset of 2^63 or more,
  which is negative to it; the result is not checked, and the read goes on from the old position.
- Reading past the end of an ELF file leaves the rest of the buffer as `malloc` delivered it, so
  nothing is said about those bytes.

## Model

| member | source | states |
|---|---|---|
| HeapBlocks.FirstFit | baby_malloc/bby_malloc.c:33-51 | the chosen block is the lowest free one that is large enough; the end of the list means there is none |
| HeapBlocks.AllocatedBlocks | baby_malloc/bby_malloc.c:33-51 | block by block: the first fit alone changes; one of more than the request and 24 bytes is cut into exactly the request and a free rest of at least a word, any other is handed out whole |
| HeapBlocks.ReleasedBlocks | baby_malloc/bby_malloc.c:58-65 | block by block: the freed block takes in a free successor with its header, and nothing else changes |
| HeapBlocks.TakeTiles | baby_malloc/bby_malloc.c:34-46 | marking a block used, with or without splitting it, keeps the blocks an exact tiling of the pool |
| HeapBlocks.ReleaseTiles | baby_malloc/bby_malloc.c:58-65 | freeing, with or without a merge, keeps the tiling |
| HeapBlocks.BytesConserved | baby_malloc/bby_malloc.c:10-21 | the 24-byte headers and payloads of any tiling add up to POOL_SIZE |
| HeapBlocks.AllocThenFree | baby_malloc/bby_malloc.c:34-65 | freeing what was just allocated is the identity on the list, unless the block left no more than 24 bytes over and has a free successor, which it is then merged with |
| HeapBlocks.AllocFragmentation | baby_malloc/bby_malloc.c:34-46 | allocation removes exactly the free pairs the chosen block was part of and never adds one |
| HeapBlocks.FreeFragmentation | baby_malloc/bby_malloc.c:58-65 | freeing adds one free pair iff the lower neighbour is free |
| HeapBlocks.FreeKeepsCoalesced | baby_malloc/bby_malloc.c:61-65 | no two neighbours are free afterwards iff none were before and the lower neighbour is in use |
| HeapBlocks.WasteBound | baby_malloc/bby_malloc.c:30-46 | the block holds the request and exceeds it by at most 31 bytes; for the sizes above 0xFFFFFFFFFFFFFFF8, where rounding wraps, it is at most 24 bytes large |
| HeapMemory.ListIsUnique | baby_malloc/bby_malloc.c:28-51 | the memory determines the block list that walking `next` recovers |
| HeapMemory.InitRepresents | baby_malloc/bby_malloc.c:17-22 | whatever the pool held, initialisation makes it one free block of POOL_SIZE - 24 bytes |
| HeapMemory.TakeRepresents | baby_malloc/bby_malloc.c:34-46 | after the header writes of an allocation the memory represents the new list |
| HeapMemory.ReleaseRepresents | baby_malloc/bby_malloc.c:58-65 | after the header writes of a free the memory represents the new list |
| HeapMemory.ClientWriteRepresents | baby_malloc/bby_malloc.c:4-15 | a client write inside a live payload cannot change the recovered list |
| HeapMemory.AllocKeepsPayloads | baby_malloc/bby_malloc.c:33-46 | allocation leaves every word of every live payload unchanged |
| HeapMemory.TakeWritesHeaders | baby_malloc/bby_malloc.c:35-46 | of the block handed out only the place of the second header is written, no other payload word |
| HeapMemory.ReleaseKeepsPayloads | baby_malloc/bby_malloc.c:58-65 | freeing leaves every word of every live payload unchanged |
| HeapRuns.ReachableHeapTiles | baby_malloc/bby_malloc.c:17-66 | after any run of allocations, frees of live pointers and client writes, the walk visits blocks that tile the pool and account for all of it |
| HeapRuns.RunKeepsLive | baby_malloc/bby_malloc.c:24-66 | a word of a live block keeps its value, and the block its place, through any run that neither frees the block nor writes the word |
| HeapRuns.WriteStores | baby_malloc/bby_malloc.c:48-48 | the pointer handed out is to memory the client may use: any word of a live payload may be written, holds the value then, and nothing else changes |
| HeapRuns.FreeReleases | baby_malloc/bby_malloc.c:24-66 | in a run any size may be asked for and any live block freed, with the list and memory of one allocation or free |
| HeapRuns.RunHoldsLastWrite | baby_malloc/bby_malloc.c:24-66 | a word of a live block holds what was last written to it through any run that does not free the block |
| HeapRuns.WrittenSinceAllocated | baby_malloc/bby_malloc.c:24-66 | the same from first use on, for the operations after the one that allocated the block |
| HeapRuns.FirstAllocation | baby_malloc/bby_malloc.c:17-48 | every word of both headers after a first request for 100 bytes and a write to its payload |
| HeapRuns.ExactFitIsNotCut | baby_malloc/bby_malloc.c:37-46 | a freed block of 104 bytes is handed out whole for a request of 80 |
| HeapRuns.NeverHollow | baby_malloc/bby_malloc.c:30-46 | no point of a run has a block without payload iff no request that rounds to 0 bytes is cut from a larger block |
| HeapRuns.RunFragmentation | baby_malloc/bby_malloc.c:24-66 | over a run, free pairs grow by at most the number of frees above a free neighbour |
| HeapRuns.AlwaysCoalesced | baby_malloc/bby_malloc.c:24-66 | from no free pairs, no point of the run has one iff the run never frees a block above a free neighbour |
| HeapRuns.FreeingUpwardsFragments | baby_malloc/bby_malloc.c:55-66 | concrete run that leaves the whole pool free in two pieces and makes a fitting request fail |
| HeapRuns.StackRun | baby_malloc/bby_malloc.c:24-66 | under last-in-first-out use the list is used blocks then at most one free tail, and one free block of POOL_SIZE - 24 once all is released |
| HeapRuns.StackExample | baby_malloc/bby_malloc.c:24-66 | a last-in-first-out run that ends with the pool as it was |
| Allocator.Pool.constructor | baby_malloc/bby_malloc.c:12-15 | the static pool before first use |
| Allocator.Pool.InitAllocator | baby_malloc/bby_malloc.c:17-22 | in place: the pool becomes the single free block |
| Allocator.Pool.InternalAllocation | baby_malloc/bby_malloc.c:24-53 | in place: returns the payload of the first fit or NULL, with exactly the specified list and memory |
| Allocator.Pool.HandOut | baby_malloc/bby_malloc.c:35-46 | in place: the taken or split block, list and memory |
| Allocator.Pool.MarkUsed | baby_malloc/bby_malloc.c:35-46 | in place: exactly the header writes of an allocation |
| Allocator.Pool.SplitOff | baby_malloc/bby_malloc.c:38-45 | in place: the five header writes that cut a free rest off the block |
| Allocator.Pool.BbyMalloc | baby_malloc/bby_malloc.c:68-76 | 1 and the first fit's payload, now live, or 0 and NULL with the list unchanged; every live payload keeps its words |
| Allocator.Pool.BbyFree | baby_malloc/bby_malloc.c:55-66 | in place: NULL is ignored, a live pointer's block is released as specified |
| Allocator.Pool.Unuse | baby_malloc/bby_malloc.c:58-65 | in place: marks the block free and joins it with a free successor |
| Allocator.Pool.MarkFree | baby_malloc/bby_malloc.c:58-65 | in place: exactly the header writes of a free |
| Allocator.Pool.JoinNext | baby_malloc/bby_malloc.c:62-64 | in place: the header takes over the successor's size, header and link |
| Allocator.Pool.DumpAllocatorState | baby_malloc/bby_malloc.c:78-90 | the walk terminates and shows the block list; before the first allocation it shows one used block of size 0 |
| CopySequential.FileSystem.CopyFiles | steal/steal.c:32-56 | for any read sizes the destination ends up with the source's content, empty when a file is copied onto itself, and no other file changes |
| CopySequential.FileSystem.CopyAll | steal/steal.c:74-111 | the loop leaves the serial result of the jobs before the first source it cannot open, and counts them |
| CopySequential.CopiedFiles | steal/steal.c:74-111 | every source reached is then in the folder under its name with its original bytes, or empty if it was copied onto itself |
| CopyModel.SerialOutcome | steal/steal.c:74-111 | copying one after the other leaves every destination equal to its original source and all else unchanged, unless jobs clash |
| CopyModel.WrittenBytes | steal/threaded_steal.c:101-101 | a write puts its bytes where the file offset is, zeros in a hole before them, and changes no other byte |
| CopyModel.SequentialOutcome | steal/steal.c:74-111 | the loop does so for the jobs it reaches |
| CopyModel.ReachedIsFirstUnopenable | steal/steal.c:77-89 | for any jobs the loop stops exactly at the first source that neither existed beforehand nor was written by an earlier job |
| CopyModel.ReachedIsFirstMissing | steal/steal.c:77-89 | for independent jobs that is the first source that does not exist |
| CopyNames.BuildQueue | steal/threaded_steal.c:49-60 | the queue holds one job per argument, source and folder/basename, in order, and is overrun iff there are more than MAX_JOBS |
| CopyNames.BasenameIsLast | steal/threaded_steal.c:54-55 | the name is a suffix without a slash, and what precedes it, if anything, ends in one |
| CopyNames.SameDestination | steal/steal.c:92-99 | the sequential and the threaded destination names resolve to the same file |
| CopyNames.JobsNamed | steal/steal.c:76-99 | in both programs a job leads from the source as typed to folder/basename |
| CopyNames.ResolvedHasSingleSlashes | steal/steal.c:76-99 | a resolved name has no two slashes in a row |
| CopyNames.ResolveKeeps | steal/steal.c:76-99 | a name without doubled slashes resolves to itself |
| CopyNames.ResolveAlike | steal/steal.c:76-99 | two names resolve alike iff they differ only in the lengths of their runs of slashes |
| CopyNames.NestedSource | steal/steal.c:74-111 | copying a//b/f into d/ reads a/b/f and writes d/f |
| CopyNames.SameJobs | steal/threaded_steal.c:49-57 | one command line makes both programs name the same files |
| CopyNames.QueuedJobsInterfere | steal/threaded_steal.c:54-57 | two queued jobs share a destination iff their sources have the same name, and none reads another one's destination unless it is its own |
| CopyNames.IndependentByName | steal/threaded_steal.c:54-57 | queued jobs are independent iff all sources have different names |
| CopyWorkers.StartControl | steal/threaded_steal.c:28-32 | the control invariant holds before the workers run |
| CopyWorkers.StepKeepsControl | steal/threaded_steal.c:123-144 | for any jobs, every step of every worker keeps mutual exclusion, queue bounds, job ownership and the lock accounting |
| CopyContents.StepContents | steal/threaded_steal.c:86-121 | while no two jobs bring different bytes to one destination, every step keeps: a destination is as it was until truncated, and then the last job to truncate it has delivered what it wrote |
| CopyContents.FinishedContents | steal/threaded_steal.c:97-120 | when all jobs are finished that makes every destination complete |
| CopyTheorems.ClaimedExactlyOnce | steal/threaded_steal.c:127-135 | for any jobs, at every point the claimed ones are 0..job_index-1, each finished or held by exactly one worker |
| CopyTheorems.MutualExclusion | steal/threaded_steal.c:125-135 | for any jobs, at most one worker is between lock and unlock |
| CopyTheorems.JoinedCounts | steal/threaded_steal.c:77-144 | for any jobs, when all workers have exited every job is done and the mutex was taken job_count + NUM_THREADS times |
| CopyTheorems.JoinedOutcome | steal/threaded_steal.c:77-144 | every destination then holds its source's original bytes, or nothing where the source was missing or the destination itself, and nothing else changed, also where several jobs bring the same bytes to one destination |
| CopyTheorems.ThreadedMatchesSequential | steal/threaded_steal.c:86-144 | same command line, same-named sources with the same bytes: any complete run leaves the sequential program's files iff from the first source that cannot be opened when its turn comes on, every job has its result in place; in particular if all sources exist |
| CopyTheorems.NoDeadlock | steal/threaded_steal.c:123-144 | for any jobs, some step is enabled in every reachable state that is not final |
| CopyTheorems.EveryWorkerCanMove | steal/threaded_steal.c:123-144 | the scheduler is free: every worker that has not returned and does not wait for a held lock can make the next step |
| CopyTheorems.AnyPieceCanBeRead | steal/threaded_steal.c:100-100 | read(2) is free: any piece of 1 to 4096 bytes can come next |
| CopyTheorems.PiecesInOrder | steal/threaded_steal.c:100-110 | what a worker is about to write is the next piece, of 1 to 4096 bytes, of its original source |
| CopyProgress.RunsAreBounded | steal/threaded_steal.c:123-144 | for any jobs, every run ends within 3 steps a worker and 8 + 2 * m steps a job, with m the longest file's length |
| CopyProgress.RunsAreBoundedBySize | steal/threaded_steal.c:123-144 | without clashes, within 8 + 2 * size steps a job, with the size of its own source |
| CopySchedules.SerialRunExists | steal/threaded_steal.c:123-144 | for any jobs at all, some complete run does them one after the other |
| CopySchedules.DelayedRunExists | steal/threaded_steal.c:123-144 | with a second worker, some complete run carries out a given job last, so that its bytes stay |
| CopySchedules.ClashingJobsDiffer | steal/threaded_steal.c:123-144 | jobs that bring different bytes to one destination have two complete runs with different results |
| CopySchedules.AllRunsMatchSequential | steal/threaded_steal.c:49-144 | on queued jobs, every complete run of two or more workers leaves the sequential result iff same-named sources have the same bytes and, from the first source that cannot be opened when its turn comes on, every job has its result in place |
| CopySchedules.ExistingSourcesMatch | steal/threaded_steal.c:49-144 | when all sources exist, iff same-named sources have the same bytes |
| CopySchedules.SameNameRaces | steal/threaded_steal.c:49-144 | copying the differing x/f and y/f into d: some run leaves other files than the sequential program |
| JsonMachine.RunConcat | json-parser/jparse.c:52-54 | stopping after any prefix and going on gives the run over the whole text, also when a number's end is pushed back |
| JsonMachine.ChunksAreInvisible | json-parser/jparse.c:52-54 | reading by chunks equals one pass, for any chunks |
| JsonMachine.JoinConcat | json-parser/jparse.c:52-54 | chunks are joined in their order |
| JsonTokens.TokenChars | json-parser/jparse.c:56-248 | the characters of a token take the machine one token step, and leave a buffer iff the token does not fit |
| JsonTokens.LayoutRun | json-parser/jparse.c:57-119 | white space between tokens has no effect |
| JsonErrors.StrayCharacters | json-parser/jparse.c:57-119 | between tokens every character the state has no branch for is skipped, not only white space |
| JsonErrors.NumberText | json-parser/jparse.c:105-160 | a number is every digit and point after its first character; with a point it is printed as a float, else as the int atoi makes of it |
| JsonErrors.FailsExactlyWhenDeparting | json-parser/jparse.c:162-225 | for any text: the parser gives up iff somewhere a literal begins where a value is due and the text departs from it before its end |
| JsonErrors.MisspeltLiteral | json-parser/jparse.c:162-180 | the text {"a":trxue} is given up |
| JsonTheorems.ParsesDocument | json-parser/jparse.c:35-248 | every supported document, in any layout and any chunks, prints exactly its flattening in order and ends in STATE_DONE with key_depth 0 and in_array 0; every buffer index is in range iff keys, values, names and nesting are within the buffer sizes |
| JsonTheorems.LayoutIsInvisible | json-parser/jparse.c:57-248 | two layouts of a document leave the same machine state and output |
| JsonNames.PrintsQualifiedKeys | json-parser/jparse.c:125-129 | the lines printed carry fully qualified keys iff all arrays of the document are members of its root |
| JsonNames.KeyOfSegments | json-parser/jparse.c:35-42 | the name is the enclosing keys, outermost first and each with a dot behind it, then the key, each at its place |
| JsonNames.NameSplits | json-parser/jparse.c:35-42 | keys without dots are read back from the name in their order |
| JsonNames.ItemsInOrder | json-parser/jparse.c:125-129 | elements are printed in order as key[0], key[1], ... |
| JsonNames.NestedPrinted | json-parser/jparse.c:44-252 | a document two objects deep with every kind of value, in any layout and chunks, prints a.b.c, a.b.d, e[0], e[1] and f with their values |
| JsonNames.TypedDocument | json-parser/jparse.c:44-252 | the text {"a":{"b": 7}} prints a.b with 7 |
| JsonNames.LargestTexts | json-parser/jparse.c:35-42 | what fits: keys and values of 255 characters, names of 511 |
| JsonNames.DeepestObjects | json-parser/jparse.c:93-93 | what fits: ten objects inside the root |
| JsonNames.NestedArrayMisnamed | json-parser/jparse.c:125-129 | a document whose array element is printed as b[0] where a.b[0] is promised |
| JsonTheorems.DoneIffNoEmptyObject | json-parser/jparse.c:63-68 | an otherwise supported document reaches STATE_DONE iff it holds no empty object |
| JsonTheorems.EmptyObjectUnfinished | json-parser/jparse.c:63-68 | the document {"a":{}}, however laid out, is not read to STATE_DONE |
| JsonTheorems.DocumentDepth | json-parser/jparse.c:92-101 | after any number of tokens key_depth counts the open containers below the root and the closing braces ignored so far, none without empty objects |
| JsonTheorems.ArrayFlag | json-parser/jparse.c:95-101 | in_array says whether the last square bracket was an opening one, after any tokens that can come where they do |
| JsonParser.Parser.GetKey | json-parser/jparse.c:35-42 | the loop builds the dotted name |
| JsonParser.Parser.FullName | json-parser/jparse.c:125-129 | names the value, by array index inside an array, and advances the index |
| JsonParser.Parser.FeedValueBegin | json-parser/jparse.c:85-119 | in place: the start of a value |
| JsonParser.Parser.Push | json-parser/jparse.c:93-99 | in place: the key goes on the stack, one level deeper |
| JsonParser.Parser.FeedKey | json-parser/jparse.c:70-77 | in place: one character of a key |
| JsonParser.Parser.FeedString | json-parser/jparse.c:121-136 | in place: one character of a string value, or its end and the printed line |
| JsonParser.Parser.FeedNumber | json-parser/jparse.c:138-160 | in place: one character of a number, or its end, the printed line and the push-back |
| JsonParser.Parser.FeedWord | json-parser/jparse.c:162-225 | in place: one character of a literal, or the error exit |
| JsonParser.Parser.FeedValueEnd | json-parser/jparse.c:227-247 | in place: comma and closing brackets |
| JsonParser.Parser.Feed | json-parser/jparse.c:56-248 | in place: one pass through the switch on the buffers, every access in bounds |
| JsonParser.Parser.FeedChunk | json-parser/jparse.c:53-158 | the inner loop, stepping back at most once per number, ends and computes the run |
| JsonParser.Parser.Parse | json-parser/jparse.c:52-251 | the outer loop over any chunks computes one run over the whole text, and the exit code is 1 iff the text departs from a literal |
| JsonParser.Parser.ParseDocument | json-parser/jparse.c:44-252 | a supported document within the buffer sizes is printed flattened and the parser returns 0 |
| LineText.FgetsEnds | key-value-store/spkvs.c:46-46 | a chunk ends with the first newline, the buffer or the file, whichever comes first |
| LineText.StrtokSplits | key-value-store/spkvs.c:48-48 | leading delimiters are skipped, the token runs to the next one, and there is none iff nothing but delimiters is left |
| LineText.TokensOfSpaced | key-value-store/spkvs.c:214-221 | repeated strtok on words with any runs of delimiters around them yields those words |
| LineText.EveryTextIsSpaced | key-value-store/spkvs.c:214-221 | every text is its tokens with delimiters around them |
| StoreText.PairSurvives | key-value-store/spkvs.c:111-114 | a pair reads back from its line iff neither part contains `=` |
| StoreText.DeleteWithoutMatch | key-value-store/spkvs.c:109-123 | a DELETE that matches nothing leaves the file as it is iff every line ends in a newline within 700 bytes |
| StoreText.PutScans | key-value-store/spkvs.c:46-54 | PUT refuses a key iff some line starts with it, with or without a value |
| StoreText.GetScans | key-value-store/spkvs.c:73-84 | GET answers from the first line that starts with the key or holds nothing: its value, or a NULL dereference where one of the two is missing |
| StoreText.DeletesFirst | key-value-store/spkvs.c:109-123 | DELETE drops a line iff it has both this key and a value |
| StoreText.DeleteScans | key-value-store/spkvs.c:109-123 | the file DELETE writes is all other lines, in order |
| StoreText.DeleteFinds | key-value-store/spkvs.c:116-120 | the key counts as found iff a line was dropped |
| StoreText.ListScans | key-value-store/spkvs.c:151-157 | LIST shows exactly the lines with a key and a value |
| StoreText.KeyWithoutValue | key-value-store/spkvs.c:109-123 | after PUT a = the line a== is kept by DELETE a, refuses PUT a, and makes GET a follow a NULL pointer |
| StoreMap.PutRefines | key-value-store/spkvs.c:28-64 | PUT on the characters is insertion at the end, or refusal of a known key |
| StoreMap.GetRefines | key-value-store/spkvs.c:66-91 | GET on the characters is lookup |
| StoreMap.GetExactlyWhenShort | key-value-store/spkvs.c:73-85 | GET answers every well-formed key correctly iff every line fits its 512-byte buffer |
| StoreMap.NewlineLeftOver | key-value-store/spkvs.c:74-78 | a line whose newline alone is left for the next read turns every other key from there on into a NULL dereference |
| StoreMap.LineCut | key-value-store/spkvs.c:74-81 | the key of a longer line never gets its value |
| StoreMap.DeleteRefines | key-value-store/spkvs.c:93-144 | DELETE on the characters is removal |
| StoreMap.RemoveKeys | key-value-store/spkvs.c:116-122 | removal takes out that key and no other and keeps keys distinct |
| StoreMap.ListRefines | key-value-store/spkvs.c:147-159 | LIST shows every pair in order, the newline still attached to the value |
| StoreMap.PutThenDelete | key-value-store/spkvs.c:46-143 | byte for byte, PUT of a new key and DELETE restore the file; refused PUTs and DELETEs of unknown keys leave it alone |
| StoreRuns.ExecRefines | key-value-store/spkvs.c:218-259 | every command commutes with its map operation, replies included |
| StoreRuns.SessionTellsHistory | key-value-store/spkvs.c:202-270 | after any session the file is `key=value` lines with distinct keys holding, for each key, the value last stored and not deleted since |
| StoreRuns.SessionGet | key-value-store/spkvs.c:239-247 | the scan of GET after any session of short lines finds exactly that value |
| StoreRuns.SessionPrints | key-value-store/spkvs.c:236-238 | the text printed is the value the history tells iff there is one or the buffer was empty; without one the buffer is printed as it was |
| StoreRuns.StaleValuePrinted | key-value-store/spkvs.c:86-90 | concrete session: after PUT of a pair, GET of its key and then GET of another key, which was never stored, prints the pair's value both times |
| StoreRuns.ExampleFile | key-value-store/spkvs.c:28-168 | a session that shows PUT append and refuse and UPDATE move to the end and insert |
| StoreCommand.TypedPairs | key-value-store/spkvs.c:207-259 | pairs a typed PUT or UPDATE delivers have non-empty words and fit the line buffers; only `=` makes one unstorable |
| StoreCommand.TypedWords | key-value-store/spkvs.c:214-266 | words typed with any blanks between them: the second is the key, the third the value, a word too many or too few is a format error, and every other first word has its own branch |
| StoreCommand.TypedPut | key-value-store/spkvs.c:218-227 | PUT k v and UPDATE k v store v under k |
| StoreCommand.ExitQuits | key-value-store/spkvs.c:209-212 | the session ends with the line exit and no other |
| StoreCommand.TypedSession | key-value-store/spkvs.c:202-270 | whatever is typed, as long as no `=` is stored, the file holds what the commands typed say |
| StoreCommand.TypedExample | key-value-store/spkvs.c:202-270 | five typed lines and the file they leave |
| Store.Disk.HandlePut | key-value-store/spkvs.c:28-64 | in place: the scan and append leave the specified file and reply |
| Store.Disk.HandleGet | key-value-store/spkvs.c:66-91 | in place: the caller's buffer is filled when the key is found and only then; the message depends on what it held before |
| Store.Disk.FindValue | key-value-store/spkvs.c:73-85 | the scan returns the specified answer, NULL dereferences included |
| Store.Disk.Strncpy | key-value-store/spkvs.c:80-81 | in place: the value, NULs to the end of the buffer, and always a final NUL |
| Store.Disk.HandleDelete | key-value-store/spkvs.c:93-145 | in place: store.txt is rewritten through temp.txt; without a store only an empty temp.txt appears |
| Store.Disk.CopyWithout | key-value-store/spkvs.c:105-123 | the copying loop writes every line but the key's |
| Store.Disk.HandleUpdate | key-value-store/spkvs.c:161-168 | in place: delete then put |
| Store.Disk.HandleList | key-value-store/spkvs.c:147-159 | the listing loop; it has no stream to read iff store.txt is missing |
| Store.Disk.ReadPair | key-value-store/spkvs.c:219-222 | strtok for key, value and overflow |
| Store.Disk.ReadKey | key-value-store/spkvs.c:229-231 | strtok for key and overflow |
| Store.Disk.HandleLine | key-value-store/spkvs.c:208-266 | in place: one line typed is taken apart and its command carried out; anything else changes nothing |
| Store.Disk.Prompt | key-value-store/spkvs.c:202-269 | in place: the lines typed up to exit leave what their commands do |
| ElfImage.CountLoads | ELF-loader/elfload.c:178-183 | the counting pass counts the PT_LOAD headers |
| ElfImage.Load | ELF-loader/elfload.c:178-243 | NoSegments iff there is no PT_LOAD header, Overrun iff the read of one delivers more than its p_memsz bytes; otherwise the table is filled exactly, one buffer of its own per segment |
| ElfImage.FillTable | ELF-loader/elfload.c:194-243 | the loading pass fills every entry of the table the counting pass sized, reading each segment at p_offset or, where lseek refuses that, on from the last read; or it runs past a buffer |
| ElfImage.LoadSegment | ELF-loader/elfload.c:213-235 | file bytes from the position given, as far as the file reaches, zeros from p_filesz to p_memsz; past the buffer iff more bytes are delivered than allocated |
| ElfImage.OverrunsExactly | ELF-loader/elfload.c:213-222 | an overrun is p_filesz > p_memsz with file left past p_memsz bytes; for a segment in the file just the former, which the gABI forbids |
| ElfImage.LoadsConcat | ELF-loader/elfload.c:190-197 | the table has the PT_LOAD headers in their order and no others |
| ElfImage.ReadFrom | ELF-loader/elfload.c:220-221 | a segment is read at p_offset; where lseek refuses that, from where the read before it ended |
| ElfImage.LoadedFields | ELF-loader/elfload.c:213-241 | every table entry: its header's address, size and flags, the file's bytes, zeros from p_filesz on, and a buffer of its own |
| ElfImage.AddSegment | ELF-loader/elfload.c:213-241 | one PT_LOAD header: its segment goes into the next table entry in a buffer of its own, and the entries before it stay |
| ElfImage.VaddrToHost | ELF-loader/elfload.c:344-355 | the search returns the first covering segment's byte or NULL |
| ElfImage.FoundUnlessWrapping | ELF-loader/elfload.c:346-349 | a segment's addresses are found iff its end does not wrap; one that wraps is never found |
| ElfImage.TranslateNull | ELF-loader/elfload.c:344-355 | NULL iff the address lies in no segment whose end stays below 2^64 |
| ElfImage.TranslateInjective | ELF-loader/elfload.c:344-355 | distinct mapped addresses have distinct host bytes, overlapping segments included |
| ElfImage.TranslatedByte | ELF-loader/elfload.c:220-235 | the byte found is the file byte or zero the first covering header prescribes |
| ElfImage.ProcessImage | ELF-loader/elfload.c:178-355 | for disjoint, in-file, non-wrapping segments, loading then translating gives the gABI process image |
| Decimal.AtoiIntText | custom-printf/sysout.c:15-41 | decimal text is canonical and reads back as the integer |
| Decimal.IntTextDigits | custom-printf/sysout.c:29-41 | decimal text is the sign and, place by place, the decimal digits of the integer |
| Decimal.IntTextAtoi | json-parser/jparse.c:154-155 | canonical text is reproduced by atoi and %d |
| Sysout.LoopText | custom-printf/sysout.c:29-36 | the digits stored, read backwards, are the canonical text iff the negation did not overflow |
| Sysout.IntMinText | custom-printf/sysout.c:20-40 | the digits of INT_MIN come from below '0' |
| Sysout.StoreDigits | custom-printf/sysout.c:29-32 | in place: the digit loop fills the buffer from the low end |
| Sysout.WriteBackwards | custom-printf/sysout.c:38-40 | the buffer is written from its last character to its first |
| Sysout.PrintInt | custom-printf/sysout.c:15-41 | at most 11 of 12 slots are used; the output is canonical decimal iff n is not INT_MIN, and then reads back as n; for INT_MIN it is `-./,),(-*,(` |

## Left out

- Allocator: double frees, pointers that no allocation returned, and client writes outside live payloads.
- Copier: failing reads and writes other than a missing source, partial writes, PATH_MAX truncation, `pthread_create` failure and progress bars.
- Path names: arguments that end in `/` (which `basename` cuts in place), and `.`, `..` and links, which resolve to other names as well.
- Parser: the text `%.2f` prints for numbers with a point (the line is recorded with its digits), empty arrays, containers inside arrays, and escape sequences, none of which the machine treats as JSON does.
- JsonParser.Parser.ParseDocument: requires a document within the buffer sizes; JsonTheorems.ParsesDocument proves that beyond them an index leaves its buffer or a name is cut short.
- JsonTheorems.DoneIffNoEmptyObject: speaks of the machine with a key stack of any depth; what the surplus keys do to the rows of `key_stack` beyond the tenth is undefined.
- JsonNames.PrintsQualifiedKeys: speaks of the machine with buffers of any size; within the real ones (`SmallMembers`) the parser prints the same lines by JsonParser.Parser.ParseDocument.
- Store: prompts and messages, the endless prompting after the end of the input, `--help`, concurrent processes, and file-system errors other than a missing store.
- ELF: decoding of the raw headers, PT_INTERP, printing, demo translations, `malloc` failure, and a read that fails or, for a very large p_filesz, stops before the end of the file.
- Printf: the format scanner of `sysout`.
- The other programs of the repository (scheduler, cache, shell, chat, logger, hexdump, vector, SIMD).
