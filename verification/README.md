# A verified model of the SquashFS reader

The repository mounts SquashFS images read-only. This project models the parts in which it keeps
state or takes bytes apart, and proves what they compute. An image is a sequence of bytes; the
decompressor is an arbitrary partial function on byte strings, with the size of the output buffer as
a second argument; allocation failures are nondeterministic unless a method's parameter `memory` says
that there are none.

* **The LRU cache** (`LruSpec`, `LruMeaning`, `Cache`, `LruRuns`, `LruOwnership`, `LruInclusion`,
  `CacheRuns`, `CacheThreads`). `Cache` is the heap structure itself: nodes threaded through a doubly
  linked recency list and through hash chains, with in-place relinking, eviction and rehashing. Every
  method is proved against `LruSpec`, a list of entries in order of recency. The whole-run results are about
  that list and hold of the heap structure through `CacheRuns` and `CacheThreads`.
* **The read path** (`FileLayout`, `FileContents`, `FileAnswers`, `CachedBlocks`, `FileRead`). The
  flat contents of a file, and the one answer each read gets, are defined without any cache; the read
  loop, which mixes raw and compressed blocks, holes, a fragment tail and cached blocks, is proved to
  give exactly that answer, bytes or error, whatever earlier reads left in the cache.
  `FileStorage` says how a writer stores a file, and that reading gives back its data.
* **Metadata and directories** (`Metadata`, `Directory`). The joined contents of consecutive blocks
  are a stream; both readers deliver slices of it. The directory parser is proved to be the inverse of
  a serializer on all inputs.
* **Inodes and tables** (`Inodes`, `Export`, `FragmentTables`). Two-phase inode sizing and parsing in
  place, the export table's retained block over sequences of lookups, and the fragment table as a flat
  array.
* **Paths, and the whole way** (`Paths`, `Trees`, `OpenFiles`, `SmallVolume`). Path resolution on top of
  the inode and directory modules. A tree of directories and files as a writer stores it: every path
  leads to its node, and opening and reading a file through the cache gives the data stored. A small
  volume shows that such trees exist.
* **Attributes and log strings** (`Xattr`, `Json`). The two xattr passes and JSON escaping.
* **Bytes and errors** (`Formats`, `Failures`, `SmallTables`). The structures of the disk format field by
  field from their bytes; every answer of the readers of single blocks, table entries and path steps,
  told in terms of the image; and small tables, byte by byte.

`Words`, `Bits`, `Division`, `Bytes`, `Buffers`, `Strings` and `Disk` hold what these share. Machine
arithmetic is written out where it matters: `Word16`, `Word32` and `Word64` say what an assignment to
a variable of that width keeps.

## What is not as one might expect

Each of these is proved here, by the exact condition under which the expected behaviour holds or by a
concrete run in which it does not.

* Replacing a resident value evicts nothing, so a cache can hold more than its memory limit
  (`LruRuns.ReplaceMemory`, `LruRuns.ReplaceCanExceedLimit`).
* Storing a value again under its own key frees it and keeps it (`LruOwnership.PutKeepsLive`).
* A get can return a value that another thread's put has freed: it is so exactly when the key no longer
  maps to the value (`CacheThreads.ReturnedValueFreed`, `CacheThreads.StaleValueCanBeReturned`).
* Data blocks and fragments share one cache; a fragment index in use that is also the position of a
  block in use can be answered with the wrong bytes, in either order of reading
  (`CachedBlocks.TransparentIff`, `CachedBlocks.ClashingRun`).
* A tail whose fragment cannot be read is delivered as zeros, not as an error
  (`FileAnswers.AnswersAgree`, `FileAnswers.UnreadableTail`, `FileAnswers.UnreadableTailRun`).
* The number of blocks is kept in 32 bits (`FileLayout.EveryOffsetServed`).
* Inodes may span metadata blocks according to section 5 of the format description
  (`doc/squashfs.adoc:514`); the code rejects those that do (`Inodes.LoadsInsideBlock`).
* The xattr index of extended directories, of devices and of extended symbolic links is stored over the
  block index, the major number and half of the pointer to the target, with which it shares a union
  (`Inodes.LongDirectoryBlock`, `Inodes.DeviceMajor`, `Inodes.LongSymlinkTarget`).
* The flag of attributes whose values are stored elsewhere is not looked at: the reference is delivered
  for the value (`Failures.OutOfLineIsIgnored`).
* A failed reload of the export block leaves its old address in place (`Export.LookupHonest`,
  `Export.LeftoversAreServed`, `Export.LeftoversRun`).
* A fragment count close to 2^32 makes the table load without reading anything
  (`FragmentTables.BlocksSuffice`, `FragmentTables.TableWraps`).
* Inode numbers in directory headers are read as signed (`Directory.InodeNumberIsSum`).
* The two metadata readers disagree on stored sizes outside 1..8192 and on an offset at the end of the
  first block (`Metadata.ReadersAgree`).

## Model

| member | source | states |
|---|---|---|
| Cache.Cache.LruInsertHead | src/core/cache.c:94-106 | the node becomes the first of the recency list, the list stays doubly linked and its nodes are the old ones and this one |
| Cache.Cache.LruRemove | src/core/cache.c:109-125 | unlinking the node at position p leaves a doubly linked list without it, head and tail included |
| Cache.Cache.LruMoveToHead | src/core/cache.c:128-134 | moves the node at position p to the front and keeps the order of all others, whether or not it is first already |
| Cache.Cache.HashFind | src/core/cache.c:139-153 | walking one chain finds the node whose entry the recency list has under the key, and null exactly when no entry has it |
| Cache.Cache.HashInsert | src/core/cache.c:156-163 | the table then holds one more node, in the chain its key hashes to |
| Cache.Cache.HashRemove | src/core/cache.c:166-184 | the table then holds every node but the one with the key, wherever in its chain that was |
| Cache.Cache.Rehash | src/core/cache.c:198-231 | after a move to a larger bucket array the chains hold exactly the same nodes, each under the new mask; the recency list is untouched |
| Cache.Cache.Resize | src/core/cache.c:189-231 | the bucket count doubles if and only if more than 3/4 of it are entries, doubling does not wrap and the allocation succeeds; it stays a power of two of at least 64 and the load at most 3/4, unless one of the last two fails |
| Cache.Cache.ChainOfHash | src/core/cache.c:139-163 | every node is in the chain numbered hash modulo bucket count and in no other, although the code masks instead of dividing |
| Cache.Cache.CacheEvict | src/core/cache.c:234-259 | evicts from the tail until the limits leave room; survivors and the order of freed values are those of the specification |
| Cache.Cache.Get | src/core/cache.c:341-374 | returns the mapped value and moves its entry to the front; a miss changes nothing; no value is freed |
| Cache.Cache.GetLookup | src/core/cache.c:346-362 | the section under the read lock returns the mapped value and changes nothing |
| Cache.Cache.GetTouch | src/core/cache.c:364-372 | the section under the write lock promotes the entry if the key is still resident and does nothing otherwise |
| Cache.Cache.Put | src/core/cache.c:379-451 | list, status and freed values are those of the specification on every path: bad value, too big, replacement, eviction, no space, no memory |
| Cache.Cache.Remove | src/core/cache.c:456-486 | drops exactly the entry with the key and frees its value; a missing key changes nothing |
| Cache.Cache.Clear | src/core/cache.c:491-518 | frees every value once, in recency order, and leaves an empty consistent cache |
| Cache.Cache.Destroy | src/core/cache.c:310-336 | every resident value is freed once, in recency order |
| Cache.Cache.Init | src/core/cache.c:264-305 | refuses a limit of no entries; otherwise the number of buckets is the least power of two from 64 to 65536 that is not below the limit, or 65536, and the cache is empty and consistent, unless an allocation fails |
| LruRuns.RunBounded | src/core/cache.c:94-518 | over every run of get, put, remove and clear keys are unique, entries are at most max_entries and none is larger than max_memory |
| LruRuns.RunMemory | src/core/cache.c:399-445 | over every run the memory is at most current_entries times max_memory, and the counter is the exact sum while no such product wraps |
| LruRuns.TotalIsMemory | src/core/cache.c:441-445 | the size_t counter equals the sum of the sizes exactly while that sum is below 2^64 |
| LruRuns.KeepsLongestPrefix | src/core/cache.c:234-259 | what eviction keeps is the longest recency prefix that leaves room in both limits: it is a given prefix if and only if that one fits and no longer one does |
| LruRuns.FreshPutFits | src/core/cache.c:417-445 | a put under a fresh key never ends with ENOSPC and leaves the cache within both limits |
| LruRuns.ReplaceMemory | src/core/cache.c:399-415 | replacing keeps the cache within max_memory if and only if the other entries leave room for the new value |
| LruRuns.ReplaceCanExceedLimit | src/core/cache.c:399-415 | three puts, each accepted, after which 15 bytes are held under a limit of 10 |
| LruMeaning.PutStatus | src/core/cache.c:379-451 | the status of every put: EINVAL, E2BIG, accepted, or ENOMEM for a fresh key |
| LruMeaning.PutMaps | src/core/cache.c:379-451 | an accepted put maps its key to the value and makes it the most recently used |
| LruMeaning.ReplaceKeepsOthers | src/core/cache.c:399-415 | replacing a value changes the mapping of no other key |
| LruMeaning.FreshPutKeepsRecent | src/core/cache.c:417-451 | a put under a fresh key keeps the mapping of exactly those other keys that eviction keeps |
| LruMeaning.RemoveMaps | src/core/cache.c:456-486 | removing unmaps the key and no other, and frees the value it had |
| LruMeaning.GetReorders | src/core/cache.c:341-374 | a get moves the entry with the key to the front and keeps the order of the others |
| LruMeaning.LookupFinds | src/core/cache.c:139-153 | a lookup yields the value of the entry with the key, and nothing exactly when there is none |
| LruOwnership.StepConserves | src/core/cache.c:234-259 | each operation: resident and freed values afterwards are the resident ones before and the one accepted |
| LruOwnership.OwnershipConserved | src/core/cache.c:379-518 | over every run, accepted values are as a multiset the resident ones plus the freed ones |
| LruOwnership.DistinctValuesAreSafe | src/core/cache.c:83-91 | with distinct values no resident value has been freed, none is freed twice, and freeing the residents at the end frees every accepted value exactly once |
| LruOwnership.PutKeepsLive | src/core/cache.c:405-409 | a put leaves no freed value resident if and only if its key does not already hold that same value |
| LruInclusion.StepIncluded | src/core/cache.c:341-486 | one operation keeps the smaller cache's list a subsequence, value for value, of the larger one's |
| LruInclusion.LargerCacheIncludesSmaller | src/core/cache.c:234-259 | over every run in which memory does not bind, a cache of n entries holds a subsequence of a cache of m >= n, and its hits are no more |
| LruInclusion.LookupsAgree | src/core/cache.c:139-153 | every lookup the smaller cache answers the larger one answers with the same value |
| CacheRuns.Perform | src/core/cache.c:341-518 | one operation on the heap cache yields the list and the freed values of the specification |
| CacheRuns.Replay | src/core/cache.c:94-518 | any run on the heap cache, with resizes and evictions in it, ends in the specification's list with the specification's freed values and all links and chains consistent; while every allocation of buckets succeeds the load stays at most 3/4, unless doubling would wrap |
| CacheRuns.ReplayAndDestroy | src/core/cache.c:310-336 | after any run and a final destroy every accepted value has been freed exactly as often as it was accepted |
| CacheThreads.EveryInterleavingBounded | src/core/cache.c:341-374 | with each critical section one step, every interleaving keeps keys unique and the limits |
| CacheThreads.PromotionKeepsMap | src/core/cache.c:364-372 | a promotion changes no lookup and no count, moves only an entry that still has the key, and does nothing when it is gone |
| CacheThreads.GetsKeepMap | src/core/cache.c:346-372 | neither section of a get changes the key-value map in any reachable state |
| CacheThreads.GetReturnsFirstLookup | src/core/cache.c:346-374 | however many steps of other threads lie between its sections, a get returns the value mapped at its first one |
| CacheThreads.UninterruptedGet | src/core/cache.c:341-374 | two sections without a step between them are the sequential get |
| CacheThreads.Serializable | src/core/cache.c:341-518 | every interleaving of critical sections leaves the list of one sequential run, in which a get takes effect in its second section |
| CacheThreads.ThreadsConserveOwnership | src/core/cache.c:341-518 | after every interleaving the accepted values are, as a multiset, the resident ones plus the freed ones |
| CacheThreads.ReturnedValueFreed | src/core/cache.c:353-373 | with distinct accepted values, the value a waiting get will return has been freed if and only if its key no longer maps to it, whatever the others have done since its first section |
| CacheThreads.StaleValueCanBeReturned | src/core/cache.c:353-373 | a run in which the value is live after the first section, and freed by a replacement before the second one |
| CacheThreads.RunSection | src/core/cache.c:341-374 | a section run on the heap cache keeps its whole structure, takes the step of the abstract system and frees what that step releases |
| CacheThreads.Interleave | src/core/cache.c:341-518 | any interleaving run on the heap cache keeps the structure, reaches the abstract system's state and frees the values that its events free |
| FileLayout.FileContext.CalculateLayout | src/core/data.c:52-73 | the layout computed at read time counts the blocks that were counted when the inode was parsed, 32-bit truncation included |
| FileLayout.FileContext.BlockLocation | src/core/data.c:134-176 | position by the prefix loop, with the holes' special case and the two errors beyond the last block |
| FileLayout.StartIsPrefixSum | src/core/data.c:161-168 | a block starts at the file's start plus the stored sizes before it, holes counting nothing |
| FileLayout.BlocksInOrder | src/core/data.c:134-176 | blocks lie in order without overlap, and two of them touch if and only if nothing between them stores anything |
| FileLayout.EveryOffsetServed | src/core/data.c:559-590 | every offset below the size is served from its own block or the tail if and only if the number of blocks fits 32 bits |
| FileContents.ContentsLength | src/core/data.c:494-685 | blocks, holes and tail together are exactly file_size bytes |
| FileContents.PieceInContents | src/core/data.c:592-679 | block i is the stretch of the flat contents that begins at i times the block size |
| FileContents.TailInContents | src/core/data.c:564-579 | the fragment tail is the stretch behind the last block |
| FileAnswers.FailsFirst | src/core/data.c:592-625 | the block that stops the loop is the first one met by the whole range that does not expand |
| FileAnswers.AnswersAgree | src/core/data.c:463-488 | the answer given is the one due if and only if the range ends before the tail, or the fragment block can be read, or the read fails in a block before it |
| FileAnswers.UnreadableTail | src/core/data.c:463-488 | for every range inside a tail whose fragment block cannot be read: zeros are answered where that error is due |
| FileAnswers.UnreadableTailRun | src/core/data.c:463-488 | such an image and file, with the two answers |
| CachedBlocks.DataReadBlock | src/core/data.c:182-260 | hole, raw block and compressed block, with the error of each failure |
| CachedBlocks.NextOriginate | src/core/data.c:607-665 | whatever an access puts into the cache and evicts, every resident block stays what some access under its key expands to |
| CachedBlocks.AgreeableAnswers | src/core/data.c:607-679 | from any such cache an access answers what the disk has, if no position in use has two blocks and none that is also an index in use has another block than the fragment |
| CachedBlocks.SeparateIsAgreeable | src/core/data.c:607-625 | that is so under every key if no position in use is an index in use or used with two encoded sizes, whatever the image holds |
| CachedBlocks.TransparentIff | src/core/fragment.c:473-547 | over all sequences of reads of the blocks and fragments in use the shared cache is transparent under a key if and only if the key is no position used with two encoded sizes that expand differently, and no position and index in use whose blocks differ |
| CachedBlocks.ClashingRun | src/core/fragment.c:473-547 | an image on which a block and a fragment with one key are read in both orders; the second read gets the bytes of the first |
| CachedBlocks.Recall | src/core/data.c:607-625 | a lookup promotes the entry and is a hit only if the block reaches beyond the offset |
| CachedBlocks.Keep | src/core/data.c:635-665 | what the cache holds after a block read from disk has been offered to it, for every outcome of the allocations |
| CachedBlocks.ReadData | src/core/data.c:607-679 | one cached or fresh read of a block: the bytes from the offset on, and the exact cache afterwards |
| CachedBlocks.ReadFragment | src/core/fragment.c:434-554 | a fragment read: its bytes or error as the cache makes them, and the exact cache afterwards |
| CachedBlocks.FirstAccess | src/core/data.c:635-665 | the first block read is in the cache, at the cost of 32 bytes and its data, or the block size for a fragment |
| FileRead.ReadFragmentOf | src/core/fragment.c:434-554 | under a key whose blocks do not clash a fragment read through the cache returns what an uncached one would |
| FileRead.SeparateIsKnown | src/core/data.c:607-625 | a file whose blocks and fragment are among those in use satisfies what the reads below ask of the keys whenever positions and indices are separate |
| FileRead.ReadTail | src/core/data.c:463-488 | the tail's bytes if its fragment block can be read, else zeros of the same length |
| FileRead.FindBlock | src/core/data.c:557-561 | the block index and offset of a file position, and that the position is in that block or in the tail |
| FileRead.ReadStored | src/core/data.c:607-679 | hit or miss, the bytes of one block from an offset on, at least one of them |
| FileRead.ReadRound | src/core/data.c:546-680 | one round of the loop returns the bytes at its position of the flat file and always makes progress |
| FileRead.ReadLoop | src/core/data.c:546-685 | the loop ends and has filled exactly the wanted bytes of the buffer, leaving the rest alone |
| FileRead.DataRead | src/core/data.c:494-685 | whatever the cache holds, the bytes of offset .. min(offset + size, file_size), or exactly the error of the first block met by that range that does not expand; when allocations may fail, also that error, or zeros for the tail |
| FileRead.AnswerAll | src/core/data.c:607-665 | over any sequence of file and fragment reads, with evictions between them, each reply is the one value that its request gets without a cache, bytes or error |
| FileStorage.WordSays | src/core/data.h:185-188 | a block word with any upper bits is taken apart into its low 24 bits, the size, and bit 24, the flag |
| FileStorage.FormIsFound | src/core/data.c:134-176 | blocks stored one after the other from the file's start are looked for where they are |
| FileStorage.StoredContents | src/core/data.c:134-260 | the flat contents of a file are the data stored for it: forms raw, compressed or, for holes, empty, one after the other, under words that are their lengths and 2^24 if raw, and a tail in a fragment block |
| FileStorage.StoredFileIsRead | src/core/data.c:494-685 | every read of a stored file, from any offset and of any size, is due that stretch of the data, as the reader answers it and as it should |
| Metadata.ReadStrict | src/core/data.c:266-355 | the block at a position or the error, with the size check |
| Metadata.ReadLenient | src/core/directory.c:53-129 | the block at a position and the position of the next, or the error, without the size check |
| Metadata.MetaRead | src/core/data.c:357-430 | delivers the requested slice of the joined blocks, or the error of the first block that cannot be read; terminates on every image |
| Metadata.ReadDirectoryData | src/core/directory.c:153-207 | the same for the other reader: single-block case, loop over further blocks, offset outside the first block |
| Metadata.StreamsAgree | src/core/data.c:357-430 | the streams of both readers coincide on n bytes if and only if both have them and the blocks that hold them have stored sizes 1..8192 |
| Metadata.ReadersAgree | src/core/directory.c:153-207 | where the directory reader succeeds the other one gives the same slice if and only if all visited sizes are legal; where that one succeeds they differ only on an offset outside the first block |
| Metadata.WrittenIsRead | src/core/data.c:357-430 | blocks written raw or compressed are read back from any offset of any block, across block boundaries, by both readers |
| Metadata.StreamRoundTrip | src/core/directory.c:153-207 | a stream cut into 8 KiB blocks: any stretch is read back from the reference made of block position and offset |
| Directory.InodeNumberIsSum | src/core/directory.c:307-308 | the entry's inode number is header number plus signed offset, as 64-bit word, if and only if the header number is below 2^31 |
| Directory.ReadRecord | src/core/directory.c:253-278 | one entry's checks, in order, and its fields |
| Directory.ParseEntries | src/core/directory.c:221-335 | the nested loops with the growing array produce exactly the entries of the specification, or its error |
| Directory.RunsRoundTrip | src/core/directory.c:221-335 | a serialized list of runs, empty runs and empty names included, parses to these runs |
| Directory.ParserIsInverse | src/core/directory.c:221-335 | the parser succeeds if and only if the bytes are a concatenation of runs with types 1..7, then yields their flattened entries, and otherwise fails with BAD_DIR |
| Directory.ParsedEntries | src/core/directory.c:221-335 | entry by entry, what the parser delivers for stored runs: name and type of the record, the reference made of the run's block start and the record's offset, and the inode number with its signed difference |
| Directory.RefParts | src/core/directory.c:313-313 | an entry's reference is taken apart into the start and the offset it was made of |
| Directory.ReadDirectory | src/core/directory.c:337-389 | lists a directory from its metadata blocks; a non-directory, an empty one and each failure have their own result |
| Directory.ListingRoundTrip | src/core/directory.c:337-389 | a listing serialized into a directory table and cut into metadata blocks comes back entry by entry |
| Inodes.ReadInodeMetadata | src/core/inode.c:46-85 | the bytes of one metadata block, and BAD_INODE when they do not all lie in it |
| Inodes.Inode.ReadSizes | src/core/inode.c:176-183 | the array of block sizes is filled with the words of the inode in order |
| Inodes.Inode.StoreXattr | src/core/inode.c:138-138 | storing the xattr index replaces the low 32 bits of the union's first member; of a symbolic link that is the pointer to its target |
| Inodes.Inode.ParseDirectory | src/core/inode.c:106-123 | links and body of a basic directory; the stored size is reduced by 3 if it is at least 3 |
| Inodes.Inode.ParseLongDirectory | src/core/inode.c:128-141 | links and body of an extended directory after the union was overwritten |
| Inodes.Inode.ParseFile | src/core/inode.c:147-193 | links, body and block sizes of a basic file, and that the count of bytes consumed is its size |
| Inodes.Inode.ParseLongFile | src/core/inode.c:199-243 | links, body and block sizes of an extended file, and that the count of bytes consumed is its size |
| Inodes.Inode.ParseSymlink | src/core/inode.c:249-302 | links and target of a basic link, the overwritten pointer of an extended one, and the count of bytes consumed |
| Inodes.Inode.ParseDevice | src/core/inode.c:307-329 | links and body of a device after the union was overwritten, and the count of bytes consumed |
| Inodes.Inode.ParseIpc | src/core/inode.c:334-350 | links and xattr index of a FIFO or socket, and the count of bytes consumed |
| Inodes.Inode.Parse | src/core/inode.c:355-445 | fails on an unknown type or when the parser has consumed more than there is, and otherwise fills the object with the decoded inode |
| Inodes.SizeOf | src/core/inode.c:515-572 | the sizing switch, which does not call the parsers, yields the number of bytes that they count as consumed |
| Inodes.ComputeSize | src/core/inode.c:488-587 | one or two partial reads of the block suffice to tell that number, or the error |
| Inodes.GetByRef | src/core/inode.c:488-615 | two-phase reading with its limit of 8192 bytes loads exactly the inodes that lie inside one metadata block, extended links with their pointer overwritten |
| Inodes.InodeRoundTrip | src/core/inode.c:91-445 | encoding and decoding basic and extended files, basic directories and symbolic links, FIFOs and sockets: exact size and every field, the block-size array included |
| Inodes.LoadsInsideBlock | src/core/inode.c:46-85 | a stored inode is loaded if and only if it ends inside the block it begins in; one that runs on into the next is rejected |
| Inodes.WrittenInodeLoads | src/core/inode.c:488-615 | the same for an inode in an inode table written in metadata blocks |
| Inodes.LongDirectoryStored | src/core/inode.c:128-141 | an encoded extended directory decodes to its fields, with the xattr index for a block index |
| Inodes.LongSymlinkStored | src/core/inode.c:276-302 | an encoded extended link: exact size, its length, and the low half of the pointer replaced by the xattr index |
| Inodes.DeviceStored | src/core/inode.c:307-329 | an encoded device, basic or extended: exact size, minor number, and the xattr index for a major number |
| Inodes.LongDirectoryBlock | src/core/inode.c:128-141 | an extended directory stored in a block is loaded with its xattr index for a block index; it keeps its own if and only if they are equal |
| Inodes.LongSymlinkTarget | src/core/inode.c:276-302 | an extended link stored in a block is loaded without its target: the pointer survives if and only if its low half is the xattr index |
| Inodes.DeviceMajor | src/core/inode.c:307-329 | a device stored in a block is loaded with its xattr index for a major number; it keeps its own if and only if it is extended and they are equal |
| Inodes.LoadedFileIsCounted | src/core/inode.c:459-481 | a loaded file has as many block sizes as the layout computed at read time expects |
| Export.ExportBlock.ReadBlock | src/core/inode.c:675-700 | a block read that fails leaves the old address and size over whatever it wrote |
| Export.ExportBlock.Resolve | src/core/inode.c:628-721 | one lookup takes the step of the specification: every error, reuse of the retained block, reload |
| Export.ExportBlock.Load | src/core/inode.c:628-724 | from an honest state the inode loaded is the one the image has under the number, and the state stays honest when no read fails over the retained block |
| Export.LookupHonest | src/core/inode.c:674-719 | from an honest state the answer is right, and the state stays honest if and only if the lookup did not spoil the block or left it as it was |
| Export.AnswersAreRefs | src/core/inode.c:628-721 | over any sequence of lookups without such failures each answer is independent of the earlier ones |
| Export.LeftoversAreServed | src/core/inode.c:674-719 | after a failed reload a lookup of the retained address answers from what the failed read left behind |
| Export.LeftoversRun | src/core/inode.c:674-719 | an image on which looking up inode 1, then inode 1025 in vain, then inode 1 again gives two different answers for inode 1 |
| Export.ExportRoundTrip | src/core/inode.c:653-719 | the reference found for inode n is element n-1 of the flat array stored in metadata blocks |
| Export.LoadByNumber | src/core/inode.c:628-724 | from number to inode: if the table's element is the position and offset of a stored inode, loading the number yields that inode |
| FragmentTables.BlocksSuffice | src/core/fragment.c:87-92 | the number of blocks holds all records if and only if count + 511 does not wrap, and is zero when it does |
| FragmentTables.RecordOfBlock | src/core/fragment.c:146-174 | entry k is record k mod 512 of block k div 512 |
| FragmentTables.TableIsFlat | src/core/fragment.c:69-178 | a loaded table has exactly frag_count entries and entry k is that record of the block at index k div 512 |
| FragmentTables.TableWraps | src/core/fragment.c:87-92 | with a count of 2^32 - 511 or more loading succeeds without reading anything: all entries are zero |
| FragmentTables.TableRoundTrip | src/core/fragment.c:180-251 | a table stored in metadata blocks with an index of their addresses is loaded as it was |
| FragmentTables.Table.CopyBlock | src/core/fragment.c:146-174 | copies one block's records behind those already read, in bounds, and rejects a block that is too short |
| FragmentTables.Table.LoadEntries | src/core/fragment.c:129-178 | the loop fills the array with the records of all blocks and leaves the remaining entries zero |
| FragmentTables.Table.Load | src/core/fragment.c:180-251 | loads once; entries, count and flag after success and after every failure |
| FragmentTables.Table.GetEntry | src/core/fragment.c:253-278 | the entry, or which of the two errors |
| Xattr.CountPairs | src/core/xattr.c:175-215 | the first pass counts the pairs of the specification or finds its error |
| Xattr.FillPairs | src/core/xattr.c:231-285 | after a successful first pass the unchecked second pass visits the same pairs, stays in the block and fills exactly the array |
| Xattr.ParsePairs | src/core/xattr.c:168-290 | both passes together deliver the pairs or BAD_XATTR |
| Xattr.AttributesRoundTrip | src/core/xattr.c:168-290 | serialized pairs parse back, with fewer than four bytes behind them ignored |
| Xattr.ParserIsInverse | src/core/xattr.c:168-290 | parsing succeeds if and only if the block is a serialized list of pairs with a known prefix and less than four bytes after it |
| Xattr.ReadPairs | src/core/xattr.c:148-290 | reads the block of a reference and parses it from the offset to its end |
| Xattr.ListSize | src/core/xattr.c:442-449 | the size query is the length of what the fill call writes |
| Xattr.FillList | src/core/xattr.c:464-472 | writes every key with its NUL and nothing behind them |
| Xattr.ListGivesKeys | src/core/xattr.c:442-472 | splitting the list at its NULs gives the keys as C strings, which are the keys if and only if none has a NUL in it |
| Xattr.FoundAreListed | src/core/xattr.c:380-400 | a lookup finds a name if and only if splitting the list yields it |
| Xattr.StoredAreListed | src/core/xattr.c:148-290 | pairs stored at a reference, with prefix numbers 0, 1, 2, are listed under their keys that begin with user., trusted., security. |
| Xattr.KeysAreWritten | src/core/xattr.c:464-472 | where no key has a NUL the bytes written are the keys, each with its NUL |
| Xattr.StoredIsFound | src/core/xattr.c:350-408 | looking up a stored key finds the pair stored under it, the first if there are several |
| Xattr.OthersAreNotFound | src/core/xattr.c:380-400 | a key that is not stored is not found |
| Xattr.List | src/core/xattr.c:411-476 | size query, too small buffer, missing table, missing index, and the bytes written |
| Xattr.FindPair | src/core/xattr.c:382-400 | the first pair whose key compares equal |
| Xattr.Get | src/core/xattr.c:350-408 | value, size and each error, with the caller's buffer otherwise unchanged |
| Paths.NextToken | src/vfs/vfs_ops.c:93-145 | strtok_r yields the next non-empty part between slashes and where to go on |
| Paths.FindEntry | src/vfs/vfs_ops.c:122-134 | the first entry whose name compares equal |
| Paths.Descend | src/vfs/vfs_ops.c:97-142 | one turn of the loop: not a directory, unreadable directory, missing entry, entry whose inode cannot be loaded, or the child |
| Paths.ResolvePath | src/vfs/vfs_ops.c:54-158 | the loop returns what folding first-match lookup over the components yields |
| Paths.ComponentsSplit | src/vfs/vfs_ops.c:93-145 | a slash separates: the components of a/b are those of a and those of b |
| Paths.SlashesCollapse | src/vfs/vfs_ops.c:93-145 | repeated and trailing slashes make no difference |
| Paths.ComponentsOfJoined | src/vfs/vfs_ops.c:93-145 | every list of non-empty names without slashes is the component list of the path joined from it |
| Paths.ResolveComposes | src/vfs/vfs_ops.c:54-158 | resolving p/q is walking q from what p resolves to, errors included |
| Paths.NotDirectoryIff | src/vfs/vfs_ops.c:97-102 | a walk reports NOT_DIR if and only if it reaches a non-directory with components left |
| Trees.ListingIsFound | src/vfs/vfs_ops.c:110-120 | the entries of a directory whose listing was written in the directory table's blocks are the entries of its runs |
| Trees.InodeIsFound | src/core/inode.c:488-615 | a reference to an inode that was written inside a block of the inode table loads that inode |
| Trees.FolderChild | src/vfs/vfs_ops.c:97-142 | one step from a directory of a stored tree: the inode of the first child with the name, or NOT_FOUND when there is none |
| Trees.PathLeads | src/vfs/vfs_ops.c:54-158 | resolving any path in a stored tree finds the inode of the node it leads to, NOT_FOUND where a name is missing, and NOT_DIR where it goes through a file |
| Trees.PathToData | src/vfs/vfs_ops.c:54-158 | the path joined from the names of a file in a stored tree resolves to an inode of which every read is due that stretch of the file's data |
| OpenFiles.Open | src/vfs/vfs_ops.c:270-303 | a handle with the inode the path resolves to if that is a regular file; otherwise the reason: unresolved, or no file |
| OpenFiles.Read | src/vfs/vfs_ops.c:308-337 | nothing from the end of the file on, and otherwise the answer of the read loop for the range, or its error as an errno |
| OpenFiles.ReadPath | src/vfs/vfs_ops.c:270-337 | opening the path of a file in a stored tree and reading a range: exactly that stretch of the data arrives in the buffer, whatever the cache holds |
| SmallVolume.SmallTreeIsStored | src/vfs/vfs_ops.c:54-158 | a volume with one directory and one file of a block and a tail, byte by byte, stores its tree |
| SmallVolume.SmallFileIsKnown | src/core/data.c:607-665 | its file satisfies what reading through the cache asks of a file |
| SmallVolume.SmallFileIsDue | src/vfs/vfs_ops.c:270-337 | every read of it by its path is due its data |
| Json.EscapedLength | src/core/log.c:95-117 | the first loop computes the length of the escaped form |
| Json.WriteEscape | src/core/log.c:128-144 | the bytes written for one character |
| Json.EscapeString | src/core/log.c:86-146 | the second loop fills exactly what the first has counted, and one byte takes the NUL |
| Json.EachIsWritten | src/core/log.c:86-146 | the output is, byte after byte of the input, its two- or six-character escape, or the byte as it is, from 0x80 on as well |
| Json.EscapeIsLossless | src/core/log.c:86-146 | unescaping by section 7 of RFC 8259, with code points in UTF-8, returns the input |
| Json.NoRawBytes | src/core/log.c:86-146 | no control byte is left raw, and the number of backslashes directly before a quote is odd |
| SmallTables.SmallExport | src/core/inode.c:653-719 | an export table of one number, byte by byte, and its reference |
| SmallTables.SmallFragmentTable | src/core/fragment.c:180-251 | a fragment table of one record, byte by byte, is loaded |
| SmallTables.SmallAttributes | src/core/xattr.c:148-290 | one attribute, byte by byte, is listed under its full key |
| SmallTables.SmallRunHasRoom | src/core/cache.c:234-259 | a run for which memory does not bind, on which the larger cache has a hit and the smaller none |
| Failures.DataBlockAnswers | src/core/data.c:182-260 | each answer of a data block read from the word, the image's length and what the library says |
| Failures.FragmentBlockAnswers | src/core/fragment.c:302-428 | each answer of a fragment block read; every failure behind the record's lookup is CORRUPT |
| Failures.FragmentReadAnswers | src/core/fragment.c:434-554 | a read from a fragment: the bytes there are, zeros from an offset behind the end, or the error |
| Failures.MetadataBlockAnswers | src/core/data.c:266-355 | each answer of either metadata reader from the header, whose low 15 bits are the size and whose top bit says raw |
| Failures.AddressAnswers | src/core/inode.c:653-672 | the address of an export block, or why there is none |
| Failures.ExportAnswers | src/core/inode.c:674-719 | the reference of an inode number in its block, or why there is none |
| Failures.FragmentTableAnswers | src/core/fragment.c:180-251 | how loading the fragment table fails at its index and at its first block |
| Failures.WrappedTable | src/core/fragment.c:87-92 | with a count of 2^32 - 511 or more every record is zero |
| Failures.AttributeAnswers | src/core/xattr.c:350-450 | what list and get answer before they look at a pair |
| Failures.OutOfLineIsIgnored | src/core/xattr.c:231-285 | a pair flagged as stored elsewhere is delivered with the reference for a value |
| Failures.StepAnswers | src/vfs/vfs_ops.c:97-142 | one step of a path: each failure and its errno |
| Formats.DirectoryBytes | src/core/inode.h:93-100 | a basic directory's inode, byte by byte |
| Formats.LongDirectoryBytes | src/core/inode.h:103-112 | an extended directory's inode, byte by byte, with the overwritten block index |
| Formats.FileBytes | src/core/inode.h:115-122 | a basic file's inode, byte by byte, with as many block sizes as its size asks for |
| Formats.LongFileBytes | src/core/inode.h:125-135 | an extended file's inode, byte by byte |
| Formats.SymlinkBytes | src/core/inode.h:138-143 | a symbolic link's inode and target, byte by byte |
| Formats.LongSymlinkBytes | src/core/inode.h:146-152 | an extended link's inode, byte by byte, with the xattr index behind the target |
| Formats.DeviceNumberParts | src/core/utils.h:128-135 | a device number is taken apart into the 12-bit major and 20-bit minor number it was made of |
| Formats.DeviceBytes | src/core/inode.h:155-167 | a device's inode, byte by byte |
| Formats.IpcBytes | src/core/inode.h:170-180 | a FIFO's or socket's inode, byte by byte |
| Formats.NoInode | src/core/inode.c:510-513 | types other than 1 to 14 are refused |
| Formats.RecordBytes | src/core/directory.h:42-48 | a directory entry, byte by byte, and when it is refused |
| Formats.FragmentBytes | src/core/fragment.h:36-40 | a fragment record, byte by byte |
| Formats.AttributeBytes | src/core/xattr.h:61-69 | a stored pair, byte by byte, and when it is refused |

## Left out

- LruRuns.RunMemory: the counter's exactness is stated for limits whose product, with one entry to spare, is below 2^64; `LruRuns.TotalIsMemory` gives the exact condition on the sizes themselves.
- LruRuns.FreshPutFits: requires that the sizes held and the new one add up to less than 2^64, since the counter the code compares wraps around there.
- LruOwnership.PutKeepsLive: is about values that are distinct among the residents and not already freed, as the callers' freshly allocated values are.
- LruInclusion.LargerCacheIncludesSmaller: is stated for runs in which the memory limit does not bind and allocations succeed; with a binding memory limit LRU inclusion is not a property of the policy.
- Cache.Cache.Resize: the load test `current_entries > bucket_count * 0.75` on doubles is modelled as 4 * entries > 3 * buckets, which it equals while both are below 2^52.
- FileRead.DataRead: asks that a stored block that expands does so to its share of the file and that a readable fragment block holds the tail; otherwise the loop need not make progress. The inode is that of a regular file, and offset + size is below 2^64.
- FileRead.AnswerAll: the requests are to files and fragments in use, under whose keys no two different blocks are in use; `CachedBlocks.TransparentIff` proves that this is needed. It is about runs in which allocations succeed.
- CachedBlocks.TransparentIff: the cache's limits have room for one block, without which it never holds any that size; the sequences it ranges over have no failed allocation.
- CacheThreads.ReturnedValueFreed: is about values that are distinct among those accepted, as freshly allocated ones are.
- Metadata.MetaRead: requires the start offset to lie inside the first block; the code does not check this and would read behind the block.
- Metadata.ReadLenient: a raw block whose header announces more than 8192 bytes is modelled by its bytes; the code reads them into a buffer of 8192.
- Xattr.ReadPairs: requires the offset to lie inside the block; the code does not check this and would read behind the block.
- Xattr.List: requires the same of the reference it looks up.
- Xattr.Get: requires the same of the reference it looks up.
- Inodes.Inode.Parse: fields behind the data are not read; the code reads them before it compares what it has consumed with what there is.
- Inodes.Inode.ParseSymlink: of the overwritten pointer of an extended link only the low half is modelled; the high half is that of the address malloc returned.
- Trees.PathLeads: is about trees whose directories have basic inodes; those of 64 KiB and more have extended ones, whose block index the code overwrites (`Inodes.LongDirectoryBlock`). Links, devices and pipes are one kind of leaf.
- OpenFiles.Read: offset + size is below 2^64, as in `FileRead.DataRead`; release and reference counts are left out.
- Paths.ResolvePath: paths are not empty; the first character is dropped unseen, as the code does. When allocations fail the result may also be NOT_FOUND, because the code reports an entry whose inode cannot be loaded as missing.
- Export.ExportBlock.Load: the flag for the export table and its invalid address are one parameter.
- Hash function: `cache_hash` is an arbitrary function of the key.
- Hit and miss counters, statistics, and the pthread locks themselves: in the concurrent model each critical section is one step.
- What happens to a value after get has returned it: nothing in the cache pins it.
- zlib, zstd, and the reuse of the output buffer's end for compressed input.
- FUSE callbacks, mounting, the kernel skeleton, log files and rotation, the superblock, the ID table and the xattr ID table.
- The mode without caches, in which the caches are used uninitialised.
- pread: a read inside the image yields the exact bytes, one beyond its end fails; positions of 2^63 and above, sums of positions that wrap around, and read errors of the device are not modelled.
- Results of 2^31 and more as int return values.
- Big-endian machines, on which `sqfs_meta_read_block` and the export and fragment tables would not convert the byte order.
- The reserved word of a fragment record, and the index of extended directories.
- Freeing of partly built results on error paths.
- `sqfs_data_is_sparse`, `sqfs_file_block_index`, printing functions, attribute filling, readlink and statfs: nothing beyond what one reads in their bodies.
