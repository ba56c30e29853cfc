# Verified models of the encrypted page cache and of the schema compiler

This project states, and proves in Dafny, what two programs of one repository promise.

**The encrypted page cache** (`aes_vfs/`) keeps 4096-byte pages of a file in 4128-byte encrypted slots.
`DiskCache` cuts byte requests into page pieces, `PageCache` keeps pages in a page list, an LRU list and a hash,
`DiskPage` loads pages and writes dirty ones back when it is flushed or destroyed. The result is that the whole
stack behaves as one flat byte array, for every run and every capacity, although evictions write pages in LRU
order and so leave holes in the file for a while. Decrypting a hole gives arbitrary bytes, because the read path
ignores the HMAC verdict, so the proof rests on one invariant about the whole file: every page of the array is
either cached and dirty or encrypted in its own slot, no slot lies past the last page, and every cached page holds
its bytes of the array.

**The schema compiler** turns a table schema into C++ and SQL. `template_to_c` compiles text templates into C++
functions; `emit_source` fills the templates in while one mutable map of patterns and a few counters keep column
lists, `?` lists, bind indices and read indices in step.

How the files fit together:

| files | content |
|---|---|
| `Options`, `Sequences`, `Storage` | the option type; sequences without duplicates; pages, slots, the cipher law, the file as bytes and as slots, 32-bit offsets |
| `CacheModel` | each cache operation as a function on values: the specification the classes are proved against |
| `Coherence`, `Containers`, `FlushOrder`, `Refinement` | the hole invariant, the three containers, the single writes of a flush, and the main results about whole runs |
| `DiskPage`, `PageCache`, `DiskCache` | the classes, whose methods step exactly as `CacheModel` does |
| `OfflineCipher` | the encrypting and decrypting loops of the offline tool |
| `List`, `Hash` | the intrusive doubly linked list on the heap, and the growing chained hash |
| `Semaphore`, `SemaphoreRuns` | the counting semaphore as interleaved steps of any number of threads, and what a thread's steps over a run say about its calls |
| `TemplateText`, `EmittedCode`, `EmittedProgram`, `TemplateToC` | what a template means, what emitted C++ statements and whole emitted files mean, and the compiler class |
| `Schema`, `EmitSource`, `SqlMeaning` | the schema, the emitter class, and what the emitted SQL, binders and readers do to a row |
| `EmitterRoundTrip`, `NameClashes`, `CustomUpdates` | the table that CREATE TABLE makes; insert, update and load agree with one another, and custom updates write the object, exactly under stated conditions on the names |

Pages are values of the type `seq<byte>` of length 4096. The cipher is a pair of functions with
`dec(p, enc(p, x)) == x`. The disk is a byte file that a write past the end fills with zeros, seen also as a
sequence of slots, and an open file remembers each write made to it, so that the order of writes can be stated. I/O
succeeds; requests are sequential.

SQLite compares names without regard to case, so rows are maps from column names in lower case. The words its grammar
reserves and the names that an expression computes instead of looking up a column differ between its versions; they,
and its reading of a text or a blob as a number, are a parameter of every statement about SQL (`Sqlite`). A row holds
cells as they were bound, since the declared types convert none of them (`DeclaredTypeKeeps`).

Places where the code does not do what a reader may expect are kept as they are and stated exactly:

- a write that starts past the first page after the end of the file leaves pages that read as garbage once they
  have been closed (`WriteSurvivesReopenExactly`, `SkippedPageReadsAsGarbage`);
- a hash makes `rehash` index past the end of its table of primes when the number of live items reaches 29999952, and
  at no other moment (`RunsExactly`, `OverrunReached`); a cache has far fewer page numbers (`PageNumbersFit`);
- a timed `take` whose wait takes a signal and times out all the same returns without looking at the value again,
  and can leave another thread blocked although the value would let it through (`StrandedExactly`);
- a template marker that is the very end of a body is not seen (`ClosingMarkerNeedsFollower`);
- a column that has the name of a variable of `get_columns`, such as `got`, is written and not read back
  (`InsertThenLoadExactly`, `GotIsNotRead`);
- the parser and the C++ compiler accept tables that SQLite does not: a reserved word such as `order` as a name, two
  columns that differ in case alone, an AUTOINCR column of type INT64 (`CreatedExactly`, `OrderIsNotCreated`,
  `CaseAloneIsNotCreated`, `Int64AutoIsNotCreated`);
- a column called `ROWID` takes the place of the rowid in every emitted statement, so an update can write another row
  (`UpdateWritesItsRowExactly`, `RowidColumnPicksAnotherRow`), unless it is the AUTOINCR column, which is the rowid
  (`AutoincrRowidIsWellNamed`);
- a column named `ret`, or like a parameter `v1` to `vn`, is hidden inside a custom update, which then writes
  something else (`CustomWritesExactly`, `RetIsWrittenAsZero`, `ParameterIsWritten`);
- the comment in `truncate` speaks of everything from the bound on; the code keeps the page whose number equals the
  bound, and the model follows the code.

## Model

| member | source | states |
|---|---|---|
| Storage.SeekOffsetExact | aes_vfs/DiskPage.h:20-23 | the unsigned 32-bit product that `seek` computes is the page's true offset exactly for pages up to 1040447 |
| Storage.SlotsDisjointExactly | aes_vfs/DiskPage.h:20-23 | a page shares no byte of the file with any other addressable page exactly when its number is at most 1040447 |
| Storage.HighestOffsetExact | aes_vfs/DiskCache.cc:93 | the 32-bit end offset of a write is exact for every addressable page, and where it first wraps |
| Storage.FileReadIsSlot | aes_vfs/DiskPage.cc:40-53 | reading 4128 bytes at a page's offset yields its slot, or nothing past the end |
| Storage.FileWriteIsSlotWrite | aes_vfs/DiskPage.cc:26-38 | writing 4128 bytes at a page's offset changes that slot only and turns skipped slots into holes |
| DiskPages.DiskPage.constructor | aes_vfs/DiskPage.cc:6-11 | a new page is clean and holds the decryption of its slot, or zeros past the end of the file |
| DiskPages.DiskPage.Load | aes_vfs/DiskPage.cc:40-57 | a short read gives a zero page, a full one its decryption whatever the HMAC says |
| DiskPages.DiskPage.Store | aes_vfs/DiskPage.cc:26-38 | the page's encryption lands in its own slot, the other slots keep their content; the file gets exactly that one write |
| DiskPages.DiskPage.Flush | aes_vfs/DiskPage.cc:13-24 | a dirty page is written back by one write, a clean one by none, which leaves the file as it was; afterwards it is clean |
| Coherence.FlushPageCoherent | aes_vfs/DiskPage.cc:18-24 | writing a page back keeps the hole invariant and the array, and leaves that page alone clean |
| Coherence.DeletePageCoherent | aes_vfs/PageCache.cc:52-58 | destroying a page, which writes it back when dirty, keeps the hole invariant and the array |
| Coherence.GetPageCoherent | aes_vfs/PageCache.cc:28-44 | a page loaded from its slot holds its bytes of the array, because its slot cannot be a hole |
| Coherence.EvictCoherent | aes_vfs/PageCache.cc:52-58 | eviction in LRU order, which opens holes, keeps the array |
| Coherence.ReleaseCoherent | aes_vfs/PageCache.cc:46-59 | releasing a page keeps the hole invariant and the array |
| Coherence.PokeCoherent | aes_vfs/DiskCache.cc:84-87 | storing bytes into a cached page and marking it dirty is the flat write of those bytes |
| Coherence.WriteByPages | aes_vfs/DiskCache.cc:84-96 | writing inside one page changes that page of the array and extends it to the end of the page |
| Containers.GetPageShape | aes_vfs/PageCache.cc:28-44 | fetching keeps list and hash equal, appends a page that was not cached to the page list, takes the page off the LRU and keeps every other cached page as it was |
| Containers.EvictShape | aes_vfs/PageCache.cc:52-58 | eviction leaves the last `max_pages` of the LRU, keeps the containers in agreement and touches no page in use |
| Containers.ReleaseShape | aes_vfs/PageCache.cc:46-59 | after a release the LRU is within capacity, ends with the released page, and pages still in use stay cached |
| Containers.PiecesTile | aes_vfs/DiskCache.cc:26-54 | the pieces are consecutive in the caller's buffer, non-empty, inside one page each, placed where their bytes lie in the file, one for each page touched, and nothing remains |
| Containers.RequestServed | aes_vfs/DiskCache.cc:56-91 | each page of a request stays cached from `getPages` until its piece is copied, whatever is evicted meanwhile |
| Containers.StepShape | aes_vfs/DiskCache.cc:56-99 | after a request, list, hash and LRU hold the same pages and the LRU is the tail of the touched order |
| Containers.LruExact | aes_vfs/PageCache.cc:28-59 | over every run, the cached pages are the `max_pages` most recently used ones in recency order |
| Containers.OpenedLru | aes_vfs/PageCache.cc:9-59 | a cache opened with capacity k holds, after any reads, writes and flushes, the k most recently used pages in recency order, and no other page |
| Containers.ReopenedLru | aes_vfs/PageCache.cc:9-59 | the same after closing any cache and reopening the file with capacity k |
| Containers.LruInclusion | aes_vfs/PageCache.cc:28-59 | fed the same requests, a cache opened with more room always holds the pages of one opened with less |
| Containers.DropAboveShape | aes_vfs/PageCache.cc:85-108 | the walk drops exactly the pages above the bound, keeps the containers in agreement and writes nothing |
| Containers.DropAboveOrder | aes_vfs/PageCache.cc:85-108 | the pages that stay keep their order on the page list and on the LRU |
| Refinement.ReadFlat | aes_vfs/DiskCache.cc:56-72 | a read returns the bytes of the zero-extended array and leaves the array unchanged |
| Refinement.WriteFlat | aes_vfs/DiskCache.cc:74-99 | a write stores its bytes in the array, and which pages past the end it skips |
| Refinement.FlushClean | aes_vfs/PageCache.cc:66-83 | after a flush nothing is dirty and the array is unchanged |
| FlushOrders.FlushNextInReach | aes_vfs/PageCache.cc:78-82 | of any increasing list of exactly the dirty pages, the next page to be written lies at most one slot past the end of the file as it is by then |
| FlushOrders.FlushOpensNoHole | aes_vfs/PageCache.cc:78-82 | after each single one of such writes the file has no hole that it did not have before the first: each slot is settled or as it was, and the next write starts no later than the end of the file |
| FlushOrders.WriteBacksInOrder | aes_vfs/PageCache.cc:15-26 | destroying the pages of a list one after another makes one write for each dirty page of it, at the page's own offset, in the order of the list, and none for a clean page |
| Refinement.DestroyCoherent | aes_vfs/PageCache.cc:15-26 | the destructor, in list order, keeps the array and empties the cache |
| Refinement.FlushAndDestroyComplete | aes_vfs/PageCache.cc:15-26 | flush and the destructor leave the same file: every page in its slot, of the length a reopening reads back as the same `file_size` |
| Refinement.CompleteContents | aes_vfs/DiskCache.cc:11-19 | a file that is complete for an array is well-formed, and decrypting its slots gives that array |
| Refinement.OpenCoherent | aes_vfs/DiskCache.cc:11-19 | a cache opened on a complete file stands for the same array |
| Refinement.StepSync | aes_vfs/DiskCache.cc:56-99 | one operation returns what the flat array returns and keeps cache, containers and `file_size` in step with it |
| Refinement.StepAnswers | aes_vfs/DiskCache.cc:56-99 | the state and the bytes of one operation are those of the flat array, for every array the cache stands for at the start |
| Refinement.RunRefinesFlatArray | aes_vfs/DiskCache.cc:26-99 | every run of reads, writes, flushes and reopenings, with any capacities, returns what a flat byte array returns; requests end at page 1040447 or below, where `seek` is exact |
| Refinement.AnswersInTurn | aes_vfs/DiskCache.cc:56-99 | a run has one answer for each operation, and the i-th is the answer to the i-th operation in the state the earlier ones led to |
| Refinement.OpenedFileRefines | aes_vfs/DiskCache.cc:11-19 | the same from any well-formed file, which stands for its decrypted pages, within the same page bound |
| Refinement.HolesAlwaysShadowed | aes_vfs/PageCache.cc:28-83 | after every run from a well-formed file each page below `file_size` is cached and dirty or validly encrypted, no slot lies past the last page, and a clean cached page is its slot's decryption |
| Refinement.SkippedPageIsHole | aes_vfs/DiskCache.cc:74-99 | a page that a write skipped past the end is a hole after closing, and reads as the decryption of a hole |
| Refinement.WriteSurvivesReopenExactly | aes_vfs/DiskCache.cc:74-99 | a write survives closing and reopening everywhere exactly when it starts no later than the first page past the end |
| Refinement.SkippedPageReadsAsGarbage | aes_vfs/DiskPage.cc:50-53 | one byte written to page 1 of an empty file, under a cipher that complements bytes: after reopening, page 0 reads as 255s where the array has zeros |
| PageCaches.PageCache.constructor | aes_vfs/PageCache.cc:9-13 | a new cache is empty over the slots of its file |
| PageCaches.PageCache.GetPage | aes_vfs/PageCache.cc:28-44 | the cached page of that number, taken off the LRU, or a newly loaded one added to list and hash; cached objects stay the same |
| PageCaches.PageCache.ReleasePage | aes_vfs/PageCache.cc:46-59 | the page goes to the tail of the LRU unless it is on it, and the head is evicted until the LRU is within capacity; the file gets one write for each evicted page that is dirty, oldest first, and no other |
| PageCaches.PageCache.Unlink | aes_vfs/PageCache.cc:54-57 | a page about to be deleted is on none of the three containers |
| PageCaches.PageCache.Discard | aes_vfs/PageCache.cc:54-57 | unlinking and deleting a page writes it back by one write when dirty, by none when clean, and changes no other page |
| PageCaches.PageCache.CollectDirty | aes_vfs/PageCache.cc:70-77 | the walk picks exactly the dirty pages, in list order |
| PageCaches.SortByPage | aes_vfs/PageCache.cc:61-78 | the sorted vector is a permutation in page order |
| PageCaches.PageCache.Flush | aes_vfs/PageCache.cc:66-83 | the file gets one write for each page that was dirty, at strictly increasing page numbers, and no other write; afterwards all are clean |
| PageCaches.PageCache.Destroy | aes_vfs/PageCache.cc:15-26 | every page is taken off its containers and written back if dirty, in list order, with no other write; all containers end empty |
| PageCaches.PageCache.DropAbove | aes_vfs/PageCache.cc:85-108 | the walk that deletes from the list it walks drops exactly the pages above the rounded-up bound and makes no write at all |
| DiskCaches.DiskCache.constructor | aes_vfs/DiskCache.cc:11-19 | the page cache has the capacity asked for, `file_size` is the file's length counted in whole pages of 4096 bytes, and over a well-formed file the cache stands for its decrypted pages |
| DiskCaches.DiskCache.GetPages | aes_vfs/DiskCache.cc:26-54 | the infos are the pieces of the request, each with the cached page of its number |
| DiskCaches.DiskCache.Read | aes_vfs/DiskCache.cc:56-72 | the front of the buffer becomes the bytes of every array the cache stands for, the rest of it is untouched, and the cache still stands for that array |
| DiskCaches.DiskCache.Write | aes_vfs/DiskCache.cc:74-99 | afterwards the cache stands for the array with the bytes stored, and `file_size` reaches the end of the last page touched |
| DiskCaches.DiskCache.Flush | aes_vfs/PageCache.cc:66-83 | the cache becomes the flushed one and stands for the same array; its writes are the dirty pages in page order, and after each of them the file has no hole that it did not have before |
| DiskCaches.DiskCache.Close | aes_vfs/PageCache.cc:15-26 | the destructor leaves a file that is complete for the array the cache stood for: opening it gives that array back |
| OfflineCipher.Encrypt | aes_vfs/dbcipher.cc:70-92 | the output is one slot for each page of the input, the last page zero-filled |
| OfflineCipher.Decrypt | aes_vfs/dbcipher.cc:93-106 | the output is the decryption of every complete slot; a trailing partial slot is dropped |
| OfflineCipher.RoundTrip | aes_vfs/dbcipher.cc:70-106 | decrypting the encrypted file gives the input zero-padded to a whole page, for every length |
| OfflineCipher.EncryptThenDecrypt | aes_vfs/dbcipher.cc:70-106 | the same for the two loops run one after the other on files |
| OfflineCipher.EncodedOpens | aes_vfs/DiskCache.cc:14-18 | a `DiskCache` opened on the tool's output, of up to 1040448 pages, stands for the padded file, with that `file_size` |
| LinkedLists.List.AddHead | aes_vfs/dll3.tcc:84-104 | the item becomes the first; links, ends, count and owners agree; no other item changes owner, every other list keeps its nodes, and the owner pointers go on telling membership |
| LinkedLists.List.AddTail | aes_vfs/dll3.tcc:106-120 | the item becomes the last, with the same agreement and the same frame |
| LinkedLists.List.AddBefore | aes_vfs/dll3.tcc:122-137 | the item is inserted just before the existing one, with the same agreement and frame |
| LinkedLists.List.Unlink | aes_vfs/dll3.tcc:169-183 | the item at that position is cut out and keeps no link and no owner; other lists and the owner test are kept |
| LinkedLists.List.Remove | aes_vfs/dll3.tcc:185-191 | the list loses that item and nothing else; other lists and the owner test are kept |
| LinkedLists.List.DequeueHead | aes_vfs/dll3.tcc:215-223 | the first item is returned and cut out, or null from an empty list; other lists and the owner test are kept |
| LinkedLists.List.Promote | aes_vfs/dll3.tcc:235-242 | the item moves to the front, the others keep their order; other lists and the owner test are kept |
| LinkedLists.List.GetNext | aes_vfs/dll3.tcc:153-159 | the item after this one in list order, or null after the last |
| LinkedLists.List.OnThisList | aes_vfs/dll3.tcc:204-213 | the owner pointer tells membership for any items that have only gone through the list's own operations: the constructor establishes that and every operation keeps it |
| LinkedLists.List.OwnsMore | aes_vfs/dll3.tcc:204-213 | an item that was on no list so far may join the items for which the owner pointer tells membership |
| LinkedLists.List.Disjoint | aes_vfs/dll3.tcc:204-213 | no links object is on two lists |
| LinkedLists.Walk | aes_vfs/dll3.tcc:139-159 | `get_head` and `get_next` visit every item once, in order |
| Hashes.PrimesClose | aes_vfs/dll3.cc:32-39 | the primes increase and six times each exceeds the next |
| Hashes.RehashInRangeExactly | aes_vfs/dll3.tcc:359-367 | `rehash` indexes past its primes exactly at the last order with a count of six times the last prime or more |
| Hashes.RunsExactly | aes_vfs/dll3.tcc:304-367 | a run of adds and removes on an empty hash never indexes past the primes exactly when no more than 29999951 items are ever live |
| Hashes.SmallRunsStayInRange | aes_vfs/dll3.tcc:304-367 | from any reachable table, no run of adds and removes indexes past the primes while no more than n items are live, for n up to 29999951 |
| Hashes.PageNumbersFit | aes_vfs/DiskPage.h:20-48 | items keyed by the page numbers a cache can address are few enough for that |
| Hashes.OverrunReached | aes_vfs/dll3.tcc:304-367 | additions alone are served up to some number of which the next one makes `rehash` index past its primes exactly when that number is 29999951 |
| Hashes.NeverShrinks | aes_vfs/dll3.tcc:359-382 | over every run of adds and removes the table never shrinks, because moved items are counted again |
| Hashes.Hash.Append | aes_vfs/dll3.tcc:294-302 | the item joins the chain of its key modulo the current size and its stored `h` is that number |
| Hashes.Hash.RehashTo | aes_vfs/dll3.tcc:369-382 | moving every chain keeps the item map, re-places every item, and recounts each moved item |
| Hashes.Hash.Rehash | aes_vfs/dll3.tcc:359-367 | the item map is unchanged, the order is the one chosen, and the surplus of the count grows by the items moved |
| Hashes.Hash.InRange | aes_vfs/dll3.tcc:359-367 | the next order after one more add is in the table of primes exactly while fewer than 29999951 items are live, and after a remove always |
| Hashes.Hash.Add | aes_vfs/dll3.tcc:304-311 | the map gains the item; the table grows by one order exactly when the count reaches six times its size |
| Hashes.Hash.Remove | aes_vfs/dll3.tcc:313-323 | the map loses the item, which keeps no owner; the table keeps its size |
| Hashes.Hash.Find | aes_vfs/dll3.tcc:325-339 | walking one chain is lookup in the map of all items |
| Semaphores.ExclusiveStep | aes_vfs/LockWait.h:194-226 | at most the mutex's owner is inside a critical section, over every step |
| Semaphores.CountedStep | aes_vfs/LockWait.h:315-341 | every step keeps value, gives and takes in balance, and blocked threads covered by signals to come, but for signals that late timeouts took |
| Semaphores.SemaphoreSafe | aes_vfs/LockWait.h:315-341 | in every reachable state: value non-negative and equal to initial plus gives minus takes, mutual exclusion, and while a thread is blocked the value is at most the givers yet to signal plus the woken yet to recheck plus the signals that late timeouts took |
| Semaphores.SomeInternalEnabled | aes_vfs/LockWait.h:315-341 | no deadlock: while a thread has steps ahead inside give or take, one of them can be taken |
| Semaphores.WakeUpsDelivered | aes_vfs/LockWait.h:315-341 | left to themselves the threads come to rest within a bounded number of steps, and then no thread is blocked while the value exceeds the signals that late timeouts took |
| Semaphores.StrandedExactly | aes_vfs/LockWait.h:325-341 | a thread can end up blocked, with a value that would let it through and nothing on its way to it, exactly when threads may take with a timeout |
| Semaphores.UntimedStrandsNobody | aes_vfs/LockWait.h:315-341 | over every run without timed takes, no blocked thread is forgotten |
| Semaphores.UntimedNeverGivesUp | aes_vfs/LockWait.h:325-341 | over every run without timed takes, no thread ever gives up a take |
| Semaphores.TimedTakeStrandsWaiter | aes_vfs/LockWait.h:331-335 | the run that strands one: a signal goes to a timed waiter, which times out all the same and returns without another look at the value |
| SemaphoreRuns.PlainTakeTakes | aes_vfs/LockWait.h:325-341 | over every run, whatever the other threads do: a thread that began a plain take and is outside again has done its own `value--` since |
| SemaphoreRuns.GivesUpAfterTimeout | aes_vfs/LockWait.h:329-335 | over every run: a thread about to return false has timed out itself, and has done nothing since but take the mutex again |
| SemaphoreRuns.ValueCounts | aes_vfs/LockWait.h:315-341 | after every run the value is the initial one plus the number of `value++` steps minus the number of `value--` steps of the run |
| SemaphoreRuns.CallsAccountedFor | aes_vfs/LockWait.h:315-341 | a thread outside the semaphore has made one `value++` and one signal for each give, and for each take either one `value--` or one timeout, the latter for exactly the takes that returned false |
| SemaphoreRuns.GiveAlone | aes_vfs/LockWait.h:315-323 | an uninterrupted give adds one to the value, frees the mutex and wakes one blocked thread, if any |
| SemaphoreRuns.TakeAlone | aes_vfs/LockWait.h:325-341 | an uninterrupted take of a positive value subtracts one and changes nothing else |
| SemaphoreRuns.TakeWaits | aes_vfs/LockWait.h:329-338 | a take that finds no unit blocks with the mutex free, and a spurious wake-up leads back to the same state |
| SemaphoreRuns.TimedTakeFails | aes_vfs/LockWait.h:331-335 | a timed take that waits, signalled or not, can time out and leave with the value as it was |
| TemplateText.FindMarkerFirst | template_to_c.cc:105-112 | the scan finds the first marker, except one at the very end of the body |
| TemplateText.ParseRebuilds | template_to_c.cc:119-129 | text, marker, name, marker and rest put together are the body |
| TemplateText.ClosingMarkerNeedsFollower | template_to_c.cc:105-129 | for every body: its markers pair up exactly when their number, counted to the very end, is even and the last does not end the body, or odd and the last does |
| TemplateText.SubstituteMarkedNames | template_to_c.cc:169-184 | replacing each name by itself between markers gives the body back |
| TemplateText.SubstituteDefined | template_patterns.cc:6-21 | substitution succeeds exactly when every name has a value |
| TemplateText.PrintedAll | template_to_c.cc:169-184 | what is printed up to the first name without a value is the whole substitution exactly when every name has one |
| TemplateText.PrintedBeforeMissing | template_patterns.cc:6-21 | otherwise it is the text before that name: whatever values the missing names are given, the whole substitution begins with it, and goes on with the value of that name |
| EmittedCode.PrintedNameExactly | template_to_c.cc:177-178 | a name printed between quotes is read back by the C++ lexer exactly when it is plain |
| EmittedCode.EscapedMeans | template_to_c.cc:48-91 | lexing the escaped text as string literals, split at each newline, prints the text |
| EmittedCode.TextStatementMeans | template_to_c.cc:176 | the statement for a piece of text prints that text |
| EmittedCode.PatternStatementMeans | template_to_c.cc:177-178 | the statement for a pattern prints its value, or when it has none reports pattern and template and ends the program |
| EmittedCode.StatementsMean | template_to_c.cc:93-189 | running the statements printed for a body prints the body with every pattern replaced; at a name without a value it reports that name and the template and ends the program, with exactly the text before that name printed |
| EmittedPrograms.DefinitionsCompiled | template_to_c.cc:140-143 | reading the function printed for a template as C++ text gives the name `output_` and the template's, the parameters, and as body the statements up to their own closing brace, whatever braces and quotes the template has |
| EmittedPrograms.OneFunctionRuns | template_to_c.cc:93-189 | calling that function by its name substitutes in the body, as far as there are values |
| TemplateToC.PairedExactly | template_to_c.cc:105-129 | the markers pair up exactly when the scan sees an even number of them |
| TemplateToC.EmitIsStatements | template_to_c.cc:104-184 | the three loops over positions print what parsing piece by piece prints |
| TemplateToC.Compiler.Escape | template_to_c.cc:48-91 | the loop builds the escaped text |
| TemplateToC.Compiler.AddTemplate | template_to_c.cc:93-189 | a function is appended that, called as `output_` and the template's name, substitutes in the body; the two vectors are empty again for the next template |
| TemplateToC.Compiler.ProcessLine | template_to_c.cc:191-239 | one line moves the reader as specified, or ends the program when a closing line does not say END; the option line turns line numbers off, outside templates only |
| TemplateToC.LineFailsExactly | template_to_c.cc:205-230 | a line ends the program exactly when it is a boundary without a name, or closes a template without END at its tenth character, with ENDNL after no lines, or with markers that do not pair up |
| TemplateToC.FoldTemplate | template_to_c.cc:191-239 | reading a template, with any text after END, compiles its body, whatever was read before; NL after END drops the last newline |
| TemplateToC.ReadsWhatWasPrinted | template_to_c.cc:191-239 | reading a printed file compiles exactly its templates, in order |
| TemplateToC.TemplateFileRuns | template_to_c.cc:93-289 | from template file to running program: in the file compiled from any templates of distinct plain names, calling `output_` and the name of one of them substitutes directly in that template's body |
| TemplateToC.NoOtherFunction | template_to_c.cc:140-143 | the compiled file has a function for each of its templates and no other |
| Schemas.StoredExactly | emit_source.cc:192-213 | the columns are the fields that are not SUBTABLE, and the bound ones those that are not AUTOINCR either |
| Schemas.NumOfDec | emit_source.cc:359-373 | a printed counter is read back as that number |
| EmitSources.DotsToColonsBack | emit.h:19-30 | the C++ name of an enum has no dot left, and its dotted name can be read back from it |
| EmitSources.EmitSource.FieldNames | emit_source.cc:189-220 | the column lists name the columns and the bound columns, in order, comma-separated |
| EmitSources.EmitSource.FieldBinders | emit_source.cc:531-628 | insert and update bind at the update counter, the forced insert and the reader at the select counter, although one pattern serves all three |
| EmitSources.EmitSource.FieldSource | emit_source.cc:222-396 | one field adds its column declaration, marks, binders and reader and advances each counter that applies to it |
| EmitSources.EmitSource.FieldSources | emit_source.cc:222-637 | after all fields, every list has one entry for each column it concerns, and the index left for rowid is one past the last |
| EmitSources.EmitSource.CustomColumns | emit_source.cc:716-776 | the k-th listed column gets the k-th mark and binder, and the emitter stops exactly when a listed field is a SUBTABLE |
| EmitSources.EmitSource.CustomArguments | emit_source.cc:788-838 | the arguments v1 to vn are bound from the next index on, in order |
| EmitSources.EmitSource.Custom | emit_source.cc:701-848 | the whole CUSTOM-UPD or CUSTOM-UPDBY, which leaves the table's own patterns untouched |
| EmitSources.EmitSource.Table | emit_source.cc:148-978 | a table's source is in step, and has all its custom updates, whatever earlier tables and custom updates left in the pattern map |
| EmitterRoundTrip.TableInStep | emit_source.cc:222-637 | column k, its mark and its binder belong together in all three statements, and UPDATE's rowid mark is one past the last column's |
| SqlMeaning.CellRoundTrip | emit.h:95-145 | for every column type, binding a value and reading the cell gives the value back |
| SqlMeaning.DeclaredTypeKeeps | emit.h:115-133 | the type a column is declared with gives it an affinity that leaves every value bound for it as it is |
| SqlMeaning.BindersMean | template_source_table_insert:3-45 | calling the binders in turn puts the k-th operand at the k-th mark, without a range or type error |
| SqlMeaning.PreparedExactly | template_source_table:176-227 | the emitted lists parse back to the columns with a mark each, exactly when there is a column and all of them are the table's, compared without regard to case |
| EmitterRoundTrip.CreatedExactly | emit_source.cc:376-396 | the emitted columns make a table exactly when there is one, no name is reserved, no two differ in case alone and the AUTOINCR column is an INT; then the table has these columns, and that one is the rowid |
| EmitterRoundTrip.InsertPreparesExactly | template_source_table:176-227 | insert can be prepared exactly when the table can be created and some column is bound, a forced insert exactly when the table can be created |
| EmitterRoundTrip.InsertThenLoad | template_source_table:165-207 | when the columns are well named, a SELECT after insert reads into any object exactly what the inserted object holds after the call, AUTOINCR field and rowid included |
| NameClashes.InsertThenLoadExactly | template_source_table:124-207 | every insert of every object is read back into every object exactly when some column is bound, the table can be created, no column is computed or hidden, and none but the AUTOINCR column is called rowid in any case |
| NameClashes.GotIsNotRead | template_source_table:124-143 | an INT column `got`: the row holds what was inserted, and the object it is loaded into keeps its own value |
| EmitterRoundTrip.ForceThenLoad | template_source_table:209-251 | when the columns are well named, a forced insert stores every column as the object has it and they are read back, and the rowid is the AUTOINCR field's value |
| NameClashes.ForceThenLoadExactly | template_source_table:209-251 | every forced insert is read back exactly under the same conditions on table and names |
| EmitterRoundTrip.LoadMeans | template_source_table:124-143 | a row that holds an object's columns is read back field by field in order, with a rowid that a column of that name may take over; a field whose name a variable of the reader hides keeps what it had, or the reader does not compile |
| EmitterRoundTrip.VisibleLoads | template_source_table_get:3-100 | when nothing hides a column or the rowid, loading a row into any object gives the object whose columns it holds, rowid included |
| EmitterRoundTrip.HiddenStays | template_source_table_get:3-100 | a hidden column keeps the value it had before the load, so two objects that differ there still differ |
| EmitterRoundTrip.UpdateWritesItsRow | template_source_table:253-297 | when `rowid` means the rowid, update changes the bound columns of the row whose rowid the object holds, and no other row |
| NameClashes.UpdateWritesItsRowExactly | template_source_table:253-297 | every update writes its own row and no other exactly when some column is bound, the table can be created and none but the AUTOINCR column is called rowid in any case |
| NameClashes.RowidColumnPicksAnotherRow | template_source_table:253-297 | a column `ROWID`: of rows 1 and 5, which hold 5 and 9 there, an update of the object with rowid 5 writes row 1 |
| NameClashes.OrderIsNotCreated | emit_source.cc:376-396 | a column with the reserved name `order`: the class compiles and there is no table |
| NameClashes.CaseAloneIsNotCreated | emit_source.cc:376-396 | columns `ab` and `AB`: two members of the class and no table |
| NameClashes.Int64AutoIsNotCreated | emit_source.cc:382-395 | an AUTOINCR column of type INT64, which the parser accepts, is declared with a type that SQLite does not number: no table |
| NameClashes.AutoincrRowidIsWellNamed | emit_source.cc:392-396 | an AUTOINCR column may be called `ROWID` |
| EmitterRoundTrip.UpdateThenLoad | template_source_table:253-297 | when the columns are well named, an object is read back from the row it updated |
| NameClashes.UpdateThenLoadExactly | template_source_table:253-297 | there is a table and every update of its rows is read back, exactly when some column is bound and the columns are well named |
| SqlMeaning.RewriteKeepsAlias | template_source_table:253-297 | an update, one that sets the AUTOINCR column itself included, leaves every row's AUTOINCR column equal to its rowid |
| CustomUpdates.CustomInStep | emit_source.cc:716-838 | in the i-th custom update that is emitted, marks 1 to m take the columns that the i-th of the schema lists, marks from m + 1 take rowid or v1 to vn |
| CustomUpdates.CustomsEmitted | emit_source.cc:639-848 | as many custom updates are emitted as the table has, in its order, each with its own name and its own WHERE clause |
| CustomUpdates.CustomUpdateMeans | template_source_customs:97-275 | run as emitted for the i-th one of the schema, when the table can be created, no listed column is hidden and `rowid` means the rowid: a CUSTOM-UPD sets the listed columns to the object's fields in the object's own row, a CUSTOM-UPDBY in the rows its clause is about; a row whose AUTOINCR column is set moves to that rowid |
| CustomUpdates.CustomWritesExactly | template_source_customs:97-275 | every call of the i-th emitted one does that, for every object, arguments, clause and rows, exactly when some column is listed, the table can be created, `rowid` means the rowid where the call asks for it, and no listed column has the name of a local variable or a parameter of the emitted function |
| CustomUpdates.HiddenColumnIsNotWritten | template_source_customs:149-242 | for each table with a hidden listed column some call does not write the object's own fields |
| CustomUpdates.MisledCustom | template_source_customs:111-130 | with a column that hides the rowid, some CUSTOM-UPD leaves the object's own row as it was |
| CustomUpdates.OrderIsNotWritten | template_source_customs:111-130 | a CUSTOM-UPD of a column with the reserved name `order` writes nothing, although no variable hides it |
| CustomUpdates.RetIsWrittenAsZero | template_source_customs:97-143 | a CUSTOM-UPD of an INT column `ret` writes 0, the local variable, whatever the object holds |
| CustomUpdates.ParameterIsWritten | template_source_customs:149-242 | a CUSTOM-UPDBY of an INT column `v1` by an INT writes the argument, whatever the object holds |

## Left out

- PageCaches.PageCache.DropAbove: stops before the `ftruncate` of `aes_vfs/PageCache.cc:110`, which passes a logical size to a file of 4128-byte slots; the flat array is not claimed across it.
- DiskCaches.DiskCache.Read: requests carry at least one byte and end at page 1040447 or below, where slot offsets still fit 32 bits (`SeekOffsetExact` gives the exact limit).
- DiskCaches.DiskCache.Write: the same limits on requests; a write starting past the first page after the end is allowed, and what it loses is stated by `WriteSurvivesReopenExactly`.
- PageCaches.PageCache: its list, LRU and hash are sequence and map fields, as `List` and `Hash` are proved to behave, other lists left alone; the pointers of all three containers are not linked into one heap.
- Hashes.Hash: chains are sequences and keys are unique as in the cache. What `rehash` does once it indexes past its primes is undefined, so `Add` asks for room for one more item; `RunsExactly` shows that the bound is exact.
- TemplateToC.Compiler.ProcessLine: a closing line whose body has an unpaired marker reads past the end of the vector of markers; that case is excluded, as `PairedExactly` describes it.
- TemplateToC.TemplateFileRuns: pattern names are plain, that is, without quote, backslash or newline (`PrintedNameExactly`), and template names are made of letters, digits and underscores, without which the function's name is no C++ identifier. Two templates of one name define the function twice, which the C++ compiler rejects.
- EmitterRoundTrip.InsertThenLoad: the new rowid must fit the AUTOINCR column's own C++ type; a 32-bit field would truncate a larger one.
- EmitterRoundTrip.UpdateThenLoad: the object updated holds in the AUTOINCR field the rowid of its row, as that column does; `update` does not write it.
- CustomUpdates.CustomUpdateMeans: a WHERE clause of the schema means any predicate on its arguments and a row; it is taken to have one mark for each argument.
- EmitSources.EmitSource.FieldBinders: a binder or reader is modelled by the parts its template takes from the pattern map (form, function, index, operand); its error handling and logging text is not.
- SqlMeaning: cells of NULL or of a type the emitter never stores, which reset a field to its initial value; NaN; and the logging of rows.
- Schemas.ValidFields: a table whose generated class the C++ compiler rejects by itself, because a column is named like another member, a keyword or a macro, or has a dot in it.
- EmitterRoundTrip.CreatedExactly: the text of column and table constraints, and foreign keys. An AUTOINCR column is taken to carry `PRIMARY KEY`, without which SQLite does not accept the word, and no other column to be a key; indexes, and SQLite's limits on the number of columns and marks, are not modelled. The database is one that `init_all` has set up.
- I/O errors, file descriptors, `fstat` failure and files whose length is not a multiple of 4128.
- AES, SHA-256 and the HMAC of `PageCipher`: only the inverse law is kept.
- Concurrent use of one `DiskCache`, which holds no lock and counts no references.
- `List::dequeue_tail`, which removes the head, and `HashLRU`: the cache uses neither.
- `Semaphore::init` on a semaphore in use, overflow of its `int` value, and real time: a timeout is a step that may happen whenever a timed taker is blocked.
- `TRUE_LINE_NUMBERS`, the header file of `template_to_c`, its 300-byte line buffer and its `unique_patterns`.
- CUSTOM-GET, CUSTOM-DEL, CUSTOM-SELECT, queries by field, XML, protobuf, descriptors and `toString` code of the emitter: the same numbering from 1, or no numbering.
- The schema parser: of `validate_table` the checks that the emitter relies on are assumptions.
- SQLite itself: statements are a column list, marks, parameters and a map of rows; constraints, triggers and replaced rows are not modelled, and an AUTOINCR column is taken to be the rowid's alias. An update that would give several rows the same rowid fails.
- The VFS callbacks that sit between SQLite and `DiskCache`.
