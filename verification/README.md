# Verification of a systems-programming repository

Models and proofs for five parts of the repository, one group of modules each.

* **Merge sort on linked lists** (`hw2/utlist.h`): `MergeSpec`, `DoublyLinkedList`. `DL_SORT2`
  works on heap nodes whose `prev`/`next` fields it rewrites while the rest of the list still
  hangs on the old links. It is proved to end with the same nodes, well linked, sorted and stable;
  stability together with sortedness leaves exactly one possible result. The calls of `cmp` are as many
  as a function of the list says, which is bounded; passes and the range of `_ls_insize` are exact. `DL_APPEND2` and `DL_DELETE2` are proved too.
* **Blocking work queue** (`hw2/wq.c`): `WorkQueue` is the code between lock and unlock on the
  linked list, `WorkQueueProtocol` interleaves any number of threads statement by statement, with
  the waiting and signalling of POSIX.1-2017, System Interfaces, `pthread_cond_wait` and
  `pthread_cond_signal`, spurious wakeups and signals that wake several waiters included.
* **Shell tokenizer** (`hw1/tokenizer.c`): `Tokenizer`. The loop with look-ahead and its 4096-byte
  buffer is proved against a machine that takes one character at a time, and that machine is
  inverted by every printer that uses bare characters, backslashes and the two kinds of quotes in
  any mixture.
* **Heap allocator** (`malloc-master/mm_alloc.c`): `CBytes`, `HeapMemory`, `HeapBlocks`,
  `HeapSizes`, `HeapPayloads`, `HeapOverrun`, `Allocator`, `HeapRuns`. Headers are 24 bytes (two
  8-byte pointers, two 4-byte integers, little endian) in the same array the payloads lie in; an
  address is an index, `NULL` is 0, `size` keeps 32 bits, `sbrk` moves a break that never goes back and may refuse at any call (parameter
  `refuse`). `metas`, `blocks` and `data` are ghost: the headers those bytes spell, the row of
  blocks they link, and payload bytes somebody still relies on.
* **File system over memcached** (`cachedfs/main.c`, `cachedfs/memcache.c`): `Text`, `Protocol`,
  `StoreKeys`, `StoreValues`, `FileTree`, `FileOps`, `FileEffects`, `Buckets`, `BucketFiles`,
  `StoreLayout`, `CachedFs`, `FileRuns`. Every call reads and writes bytes of a key-value store through the text protocol's
  commands and replies. The store is proved to be, after every call that does what it should, exactly
  the image of a tree of directories, files and extended attributes: no key missing, none left over,
  every byte the one the tree calls for. Where a call does not, it is proved when exactly.

`Prelude` holds an option type, a minimum and a lemma on sequences. `hide` statements keep function
bodies out of proofs that do not need them.

## Where the code does not do what it should

The code is modelled as it is; what holds of it is stated exactly, and a repair is used only where
it is named here.

* `mm_free`, lines 153-157: a block merged into the one before it leaves the next block's `prev`
  pointing at the vanished header when that block is in use. `Allocator.Heap.MmFree` is the code as
  written and keeps the links if and only if this case does not arise; `HeapRuns.BackLinkIsLost` is
  a run that gets there. `MmFreeRepaired` (and `MmRealloc`, which calls it) adds
  `deletingAddr->next->prev = deletingAddr` after line 156.
* `mm_realloc`, lines 107-112: the block is freed and allocated before its bytes are copied, so
  what `mm_malloc` writes may already lie over them; and line 107 takes the length from a field that
  keeps 32 bits of it. `Allocator.Heap.MmRealloc` says byte by byte what comes back, and
  `HeapPayloads.PayloadKeptIff` that, for a request no smaller than the block, every payload comes back
  whole if and only if it is empty, or it has less than 2^32 bytes and either another block than the
  joined one is taken or what is written to the joined one, a split-off header included, ends before
  the old payload. `HeapRuns.PayloadIsLost` is a run that loses everything: the last block is asked to
  grow. `HeapRuns.LongPayloadIsLost` is one with a block of 2^32 bytes, of which nothing is copied.
* `mm_realloc`, line 111 for a request that shrinks copies the old size into the smaller block.
  `MmRealloc` says what memory is then. `HeapOverrun.HeadersStandIff`: whatever the payload is, all
  headers still stand in memory if and only if the copy lands where it came from or hits no header
  (`HeapOverrun.ShrinksSafely`). `HeapRuns.HeaderIsOverrun` is a run that gets to a request which
  overwrites one. (A payload may happen to hold the very bytes of the header it overwrites.)
* `mm_realloc`, lines 108-114: when `sbrk` refuses, the block has been freed already; the caller gets
  NULL and no longer owns the old one. `MmRealloc` says so.
* `hello_write`, line 574 counts four bytes per bucket as data, although the repository's
  `README.md:29` calls `data_len` the length of the real data. The constant `counted` of
  `CachedFs.FileSystem` says whether the line is there (it is in the source).
* `hello_write` behind the end of the file. `CachedFs.FileSystem.Write` says for every offset what the
  store is afterwards. Two statements tell when that is right.
  `BucketFiles.ContentsRightIff` is about the contents: the buckets and their number are those of the
  file with the buffer laid over it if and only if `ContentsAreRight`. As written (`counted`, not
  `reload`) that is: the offset is at most the length; or something is written, no farther than
  `data_len` says, into the last bucket, and the uninitialised bytes of the local buffer of line 582
  that come to lie in the gap are zeros; or the offset is behind `data_len` but not behind the last
  bucket, and the bytes the call for the gap leaves between the end and `data_len` are zeros.
  `BucketFiles.CallRightIff`, which the contract of `Write` uses, asks in addition for the `data_len`
  that line 574 should lead to; that excludes the third case, in which `data_len` comes out without
  the four bytes for each bucket there was before (`RightByAccident` is such a write). Without line 574
  the two agree: with lines 555-556 going on with the header from before the gap was filled, a write
  is right if and only if filling the gap adds no bucket; with the header read again (`reload`), always.
  `BucketFiles.WrongPlace`, `WrongBytes`, `WrongCounts` and `WrongHeader` are a write for each way of
  going wrong.
* A write of no bytes behind the end is meant here to lengthen the file, as `hello_write` does when it
  fills the gap; for POSIX such a write has no effect.
* `hello_read` reports too many bytes for some requests when `counted`. `CachedFs.FileSystem.ReadLength`
  computes the number for every request, `Buckets.ReadCountIsRight` says exactly when it is right, and
  `Buckets.ReadCountWrong` is a request for which it is not. `Read` is proved where it is right.
* `hello_mkdir` and `hello_create` under a parent that does not exist leave a key behind that
  belongs to no tree; `hello_create` then returns nothing at all. Both are in the contracts.
* A path of the form `//name` is not put together again from its parent and its base name; every
  other path is (`StoreKeys.JoinParentBase`).

## Model

| member | source | states |
|---|---|---|
| DoublyLinkedList.Sort | hw2/utlist.h:208-286 | for any well-linked list and any `cmp`: the same nodes, well linked again (both directions, `head->prev` the tail, `tail->next` null); for a total preorder `cmp(x, y) <= 0` for every x before y in it, and nodes that compare equal stand in the order they had; exactly `BottomUpCompares` calls of `cmp`, at most n per pass; the rounded-up logarithm of n passes; `_ls_insize` ends at 2 to the number of passes |
| DoublyLinkedList.SortPass | hw2/utlist.h:218-279 | one trip of the outer loop merges neighbouring runs pairwise and relinks the list; `_ls_nmerges` is at most 1 exactly if two runs cover the list; `cmp` is called `PassCompares` times |
| DoublyLinkedList.MergePair | hw2/utlist.h:225-274 | one pair of runs goes behind the nodes already placed; the nodes still to come keep their old links |
| DoublyLinkedList.MergeRuns | hw2/utlist.h:236-273 | the merging loop takes the two runs off the old list and puts their merge on the new one, calling `cmp` once for every node taken while both runs have one left |
| DoublyLinkedList.Choose | hw2/utlist.h:237-261 | of two ties the node of the first run is taken; run counters and pointers move along; `cmp` is called exactly when both runs have a node left |
| DoublyLinkedList.MeasureRun | hw2/utlist.h:225-234 | `_ls_psize` is the run's length, cut short by the end of the list, and `_ls_q` the node behind it |
| DoublyLinkedList.SortCost | hw2/utlist.h:216-284 | a list of n >= 2 nodes takes at most n times the rounded-up logarithm of n calls of `cmp` |
| DoublyLinkedList.InsizeFitsInt | hw2/utlist.h:214-284 | `_ls_insize` stays within a 32-bit int exactly for lists of at most 2^30 nodes |
| DoublyLinkedList.Append | hw2/utlist.h:599-611 | the node is last, everything else keeps its place, the list is well linked |
| DoublyLinkedList.Delete | hw2/utlist.h:632-648 | the node is gone, everything else keeps its place, whether it was first, last, only or in the middle |
| MergeSpec.BottomUpIsStableSort | hw2/utlist.h:208-286 | merging runs of doubling length permutes, sorts, and keeps the order of ties |
| MergeSpec.StableSortSpec | hw2/utlist.h:249-256 | a stable sort is ascending by `cmp`, and of two equal nodes the one that came first stands before the other |
| MergeSpec.StableSortIsUnique | hw2/utlist.h:208-286 | a list has only one stable sort, so for a total preorder the result of the macro is determined |
| MergeSpec.MergeSorts | hw2/utlist.h:236-273 | merging two sorted runs gives a sorted run |
| MergeSpec.MergeKeepsTies | hw2/utlist.h:249-256 | elements that compare equal leave the merge in the order first run, second run |
| MergeSpec.MergeComparesBounds | hw2/utlist.h:236-261 | merging two runs calls `cmp` at least as often as the shorter has nodes, and less often than both have together |
| MergeSpec.PassDoublesRuns | hw2/utlist.h:216-284 | after a pass every aligned run of twice the length is sorted |
| MergeSpec.PassPermutes | hw2/utlist.h:218-274 | a pass loses nothing and duplicates nothing |
| MergeSpec.BottomUpKeepsTies | hw2/utlist.h:216-284 | over all passes elements that compare equal keep their order |
| WorkQueue.Queue.Push | hw2/wq.c:34-42 | the socket is behind all others, the list stays well linked and `size` its length |
| WorkQueue.Queue.Pop | hw2/wq.c:19-31 | the oldest socket is returned and removed, the others stay in order |
| WorkQueueProtocol.StepKeepsInv | hw2/wq.c:19-42 | every statement of every thread, and every spurious wakeup, keeps mutual exclusion, the count, the history and the wakeup invariant |
| WorkQueueProtocol.RunsKeepInv | hw2/wq.c:19-42 | so does every interleaving |
| WorkQueueProtocol.FirstInFirstOut | hw2/wq.c:19-42 | in every reachable state the sockets returned are a prefix of those pushed and the queue is the rest; a call about to return returns the last of them; one thread at a time is between lock and unlock; the head is read only when there is one |
| WorkQueueProtocol.PushedWasPassed | hw2/wq.c:34-42 | over every run from the start, the times a socket was put into the list and the calls still carrying it are together the times `wq_push` was called with it; it is returned at most as often |
| WorkQueueProtocol.NoLostWakeup | hw2/wq.c:21-23 | in every reachable state, if a consumer sleeps, the announced items do not outnumber the consumers that are awake |
| WorkQueueProtocol.QuietMeansServed | hw2/wq.c:19-42 | when no thread can move, the lock is free and nobody sleeps beside a non-empty queue |
| Tokenizer.Tokenize | hw1/tokenizer.c:27-98 | the words of the one-character machine, or `abort` exactly if a word outgrows the buffer on the way; the buffer index stays below 4096 |
| Tokenizer.CopyWord | hw1/tokenizer.c:20-25 | a copy of the first n characters |
| Tokenizer.ReadsBack | hw1/tokenizer.c:48-97 | a line of words, each written with bare characters, backslashes and quotes in any mixture and followed by any white space, reads back as those words; `abort` exactly if one has more than 4094 characters |
| Tokenizer.WrittenWordsReadBack | hw1/tokenizer.c:48-97 | every list of non-empty words of at most 4094 characters, each escaped or quoted in a style of its own, survives printing and tokenizing |
| Tokenizer.SplitsAtBlank | hw1/tokenizer.c:59-64 | when `a` ends outside quotes and not in a backslash without a character after it, and `c` is one of the six characters of `isspace`, tokenizing `a`, `c`, `b` is tokenizing both and putting the results together, and the buffer suffices for the whole exactly if for both parts |
| Tokenizer.OthersStay | hw1/tokenizer.c:50-67 | every character but those, the quotes and the backslash is a word of its own |
| Tokenizer.OpenQuoteKept | hw1/tokenizer.c:68-96 | a line may end inside a quote: what is in it so far belongs to the last word, which is kept unless it is empty |
| Tokenizer.LoneBackslash | hw1/tokenizer.c:55-58 | a backslash with nothing after it changes no word |
| Tokenizer.FeedConcat | hw1/tokenizer.c:48-90 | scanning a text in two parts is scanning it at once |
| Allocator.Heap.MmMalloc | malloc-master/mm_alloc.c:20-97 | NULL and nothing changed exactly if the size is 0 or `sbrk` does not meet the demand; else the first fitting place, `size` zeros in memory there, every other used block still one with the same bytes in memory, headers and links right |
| Allocator.Heap.AllocateFirst | malloc-master/mm_alloc.c:24-37 | the first block of all starts at the old break |
| Allocator.Heap.FindFit | malloc-master/mm_alloc.c:38-82 | the walk stops at the first free block that is large enough or last, and nowhere else |
| Allocator.Heap.TakeLast | malloc-master/mm_alloc.c:41-61 | the last block, if free, is grown by just what is missing, or split |
| Allocator.Heap.TakeFitting | malloc-master/mm_alloc.c:62-79 | a free block in the middle is taken and its rest split off; nothing but its own bytes and the next block's `prev` is written |
| Allocator.Heap.Append | malloc-master/mm_alloc.c:83-96 | a new block at the break, linked behind the last |
| Allocator.Heap.MmFree | malloc-master/mm_alloc.c:149-168 | the code as written: headers, sizes and layout are right, the block is gone, every other used block is still one with the same bytes in memory, and the links are right if and only if the block was not merged backwards in front of a used one |
| Allocator.Heap.MmFreeRepaired | malloc-master/mm_alloc.c:149-168 | with the back link repaired all invariants are kept, and the links are always right; otherwise as `MmFree` |
| Allocator.Heap.MmRealloc | malloc-master/mm_alloc.c:99-147 | free, allocate again, copy. A request that does not shrink: the new block's bytes one by one, old payload, zero or split-off header, then zeros. One that shrinks: memory is what `mm_malloc` left with the old number of bytes copied over it, and the heap is valid if `ShrinksSafely`. In memory: if `KeepsPayload`, as many bytes of the old payload as fit, then zeros; every other used block still one with the same bytes, unless a shrinking copy hits a header. NULL and the block freed if `sbrk` does not meet the demand |
| Allocator.Heap.ClientWrite | malloc-master/mm_alloc.c:36-37 | a client writing inside its block disturbs no header and no other block |
| Allocator.Heap.BytesAreWatched | malloc-master/mm_alloc.c:36-37 | what the model says about payload bytes is what is in memory |
| HeapPayloads.AllocationSparesOthers | malloc-master/mm_alloc.c:47-78 | an allocation changes no byte of any live payload and hands out zeros |
| HeapPayloads.FreedBytesMissed | malloc-master/mm_alloc.c:107-112 | unless the joined block is taken, `mm_malloc` writes nowhere into the bytes just freed |
| HeapPayloads.PayloadKeptIff | malloc-master/mm_alloc.c:107-112 | a growing `mm_realloc` gives every payload back, all of it, if and only if it is empty, or shorter than 2^32 bytes and the joined block is not taken or nothing is written from the old payload on |
| HeapPayloads.SameBytesTaken | malloc-master/mm_alloc.c:107-112 | if the very same bytes are taken again, zeros are all that is copied |
| HeapPayloads.BytesFound | malloc-master/mm_alloc.c:108-111 | what `memcpy` finds at the old place after `mm_malloc` has written |
| HeapOverrun.HeadersStandIff | malloc-master/mm_alloc.c:107-112 | for every payload of a block that is asked to shrink, all headers stand in memory after the copy, if and only if the copy lands where it came from or meets no header |
| HeapOverrun.ShrinkStaysInside | malloc-master/mm_alloc.c:107-112 | unless the joined block's 32-bit size is cut to less than the request, a shrinking copy ends below the break |
| HeapBlocks.AllocatedWellFormed | malloc-master/mm_alloc.c:20-97 | blocks stay in address order with `cur + header + size <= next`, the last below the break |
| HeapBlocks.AllocatedNoTwoFree | malloc-master/mm_alloc.c:41-79 | an allocation never leaves two free neighbours |
| HeapBlocks.AllocatedAtFirstFit | malloc-master/mm_alloc.c:38-96 | every block before the place was used, or free, too small and not last; the break moves only when nothing fits |
| HeapBlocks.AllocatedAddsOne | malloc-master/mm_alloc.c:20-97 | the used blocks are the ones from before and the new one |
| HeapBlocks.PlaceApart | malloc-master/mm_alloc.c:47-78 | the bytes taken belong to no used block |
| HeapBlocks.OtherPlaceApart | malloc-master/mm_alloc.c:47-96 | nor to any block that is not the one taken |
| HeapBlocks.FreedWellFormed | malloc-master/mm_alloc.c:149-168 | merging keeps the layout, with sizes cut to 32 bits |
| HeapBlocks.FreedNoTwoFree | malloc-master/mm_alloc.c:153-166 | coalescing is maximal: no two free neighbours |
| HeapBlocks.FreedRemovesOne | malloc-master/mm_alloc.c:149-168 | the used blocks are the ones from before without the freed one |
| HeapBlocks.PiecesEnd | malloc-master/mm_alloc.c:152-167 | the links are right exactly if the block behind points back to the merged header |
| HeapSizes.FreedExactly | malloc-master/mm_alloc.c:153-167 | in each of the four cases of free and used neighbours, the row that is left: a merged block offers the sizes of its parts and 24 bytes for each header that vanished, modulo 2^32 |
| HeapSizes.FreedKeepsTotal | malloc-master/mm_alloc.c:153-167 | headers and sizes account for as many bytes after a free as before, while that is below 2^32 |
| HeapSizes.TakenInTheMiddle | malloc-master/mm_alloc.c:62-79 | of a block taken in the middle the part split off ends exactly at the next header (its size modulo 2^32); without a split fewer than 24 bytes are left over |
| HeapSizes.TakenAtTheEnd | malloc-master/mm_alloc.c:41-61 | the last block is grown by what is missing, split with the exact rest, or taken whole |
| HeapSizes.TakenAtTheBreak | malloc-master/mm_alloc.c:83-96 | when no block will do, size + 24 bytes are asked of `sbrk` and the row gets one block more at the old break |
| HeapRuns.RunsStayGood | malloc-master/mm_alloc.c:20-168 | every run of allocations, refused or not, and frees, repaired or as written, keeps layout and coalescing |
| HeapRuns.OwnersAfter | malloc-master/mm_alloc.c:20-168 | the used blocks after each request: a new one exactly if `sbrk` meets the demand, the freed one gone, all others as they were |
| HeapRuns.LivePayloadsApart | malloc-master/mm_alloc.c:20-168 | after any run from an untouched heap no payload meets another payload or a header |
| HeapRuns.PayloadSurvives | malloc-master/mm_alloc.c:20-168 | over any run of allocations, frees and client writes, a block nobody frees or writes to is still there with every byte as it was |
| HeapRuns.FilledSurvives | malloc-master/mm_alloc.c:20-168 | what a client writes into its block it finds there after any run that neither frees the block nor writes to it |
| HeapRuns.Perform | malloc-master/mm_alloc.c:20-168 | a heap performs each request as the run says: row of blocks, break and watched bytes; `mm_free` as written is a request where it loses no link |
| HeapRuns.Drive | malloc-master/mm_alloc.c:20-168 | so a heap driven through any list of requests is where the run ends |
| HeapRuns.PayloadIsLost | malloc-master/mm_alloc.c:107-112 | one allocation leads to a state where growing the block brings back zeros only |
| HeapRuns.LongPayloadIsLost | malloc-master/mm_alloc.c:107-112 | one allocation of 2^32 bytes leads to a state where growing the block brings back zeros only |
| HeapRuns.HeaderIsOverrun | malloc-master/mm_alloc.c:107-112 | two allocations and one free lead to a state where shrinking the second block, filled with `x`, leaves no header where one was split off |
| HeapRuns.BackLinkIsLost | malloc-master/mm_alloc.c:153-157 | three allocations and one free lead to a state where the next `mm_free` as written breaks a link |
| CachedFs.FileSystem.constructor | cachedfs/main.c:240-283 | a store with the right block size is taken over, any other becomes the empty root; bytes of the marker that are not there are those of an uninitialised buffer |
| CachedFs.FileSystem.TakenOver | cachedfs/main.c:240-252 | a store this file system leaves behind is one the next `hello_init` takes over |
| CachedFs.FileSystem.AddToParent | cachedfs/main.c:188-218 | the child gets the next slot and the parent counts it; without a parent the path is left under a stray key |
| CachedFs.FileSystem.Mkdir | cachedfs/main.c:220-238 | the store becomes that of the tree with the new directory; without a parent `-EFAULT` and a store no tree fits |
| CachedFs.FileSystem.Create | cachedfs/main.c:480-497 | likewise for an empty file |
| CachedFs.FileSystem.Rmdir | cachedfs/main.c:319-385 | every result code and, on success, the store of the tree without the directory, its last sibling moved into the hole |
| CachedFs.FileSystem.Unlink | cachedfs/main.c:389-478 | likewise for a file, with all its buckets and attributes gone |
| CachedFs.FileSystem.Unlist | cachedfs/main.c:346-383 | swap with the last slot, also when the victim is the last |
| CachedFs.FileSystem.DeleteBuckets | cachedfs/main.c:465-476 | just that file's data buckets go |
| CachedFs.FileSystem.DeleteAttribs | cachedfs/main.c:452-463 | just that file's attribute records go |
| CachedFs.FileSystem.Readdir | cachedfs/main.c:102-150 | the children's base names in slot order behind `.` and `..`, or nothing if there is no such key |
| CachedFs.FileSystem.ReadLength | cachedfs/main.c:500-517 | the number of bytes reported, for every request |
| CachedFs.FileSystem.Read | cachedfs/main.c:499-541 | where that number is right: terminates and returns the bytes of the file in the range asked for, cut at its end, across buckets |
| CachedFs.FileSystem.ReadPiece | cachedfs/main.c:521-532 | one bucket serves what it has of the range, never nothing |
| CachedFs.FileSystem.Write | cachedfs/main.c:543-606 | for every offset: the header and buckets the call leaves, all other keys as they were; the store is that of the file with the buffer laid over it, zeros in a gap, if and only if `CallIsRight` |
| CachedFs.FileSystem.WriteFile | cachedfs/main.c:543-606 | the call with its recursion, on whatever the header and the buckets of the file are |
| CachedFs.FileSystem.WriteBuckets | cachedfs/main.c:558-600 | the loop over the buckets, header in hand and buckets in step |
| CachedFs.FileSystem.WritePiece | cachedfs/main.c:561-597 | one pass: a new bucket, or the piece copied into an old one over a buffer with other bytes in it |
| CachedFs.FileSystem.SetXattr | cachedfs/main.c:628-651 | the record is appended and counted |
| CachedFs.FileSystem.GetXattr | cachedfs/main.c:653-688 | length and leading bytes of the value of the lowest record of that name, or -1 |
| CachedFs.FileSystem.RemoveXattr | cachedfs/main.c:726-778 | the last record moves into the hole and learns its index; nothing changes when the name is absent |
| CachedFs.FileSystem.CacheSet | cachedfs/memcache.c:56-93 | the server stores just this value under just this key |
| CachedFs.FileSystem.CacheGet | cachedfs/memcache.c:19-46 | the whole value under the key, or that there is none |
| CachedFs.ParentOf | cachedfs/main.c:193-204 | the path up to its last slash, `/` for the root's children |
| FileEffects.AddEffect | cachedfs/main.c:188-235 | after mkdir or create there is one path more, an empty directory or a file without data and attributes; its parent lists it last; every other node is as it was |
| FileEffects.RemoveEffect | cachedfs/main.c:346-476 | after unlink, or rmdir of an empty directory other than the root, that path is gone and no other; the parent's last child is in its slot and knows its index; every other node is as it was |
| FileEffects.RefusedEffect | cachedfs/main.c:321-345 | rmdir of the root or of a directory with children changes nothing |
| FileEffects.WriteEffect | cachedfs/main.c:543-606 | every byte of the file after a write, its length, and that nothing else changes |
| FileEffects.SetXattrEffect | cachedfs/main.c:628-651 | the file has the record as its last, and if its records stood for a finite map without that name, for that map with the entry now; nothing else changes |
| FileEffects.RemoveXattrEffect | cachedfs/main.c:726-778 | the records stand for the map without that name, one record fewer if there was one; for an absent name nothing changes |
| FileEffects.FreshIsEmpty | cachedfs/main.c:254-276 | the tree of a new file system is an empty root |
| Protocol.TakeApart | cachedfs/memcache.c:32-45 | from the server's reply to a get, the stored value, whatever bytes are in it |
| Protocol.SetIsUnderstood | cachedfs/memcache.c:56-72 | a server that reads a set command by its length field gets key and value back, even with line ends or protocol words in the value |
| Protocol.KeyIsUnderstood | cachedfs/memcache.c:21-23 | the key of a get or delete command is read back |
| Protocol.CommandsLiterally | cachedfs/memcache.c:21-72 | a set, get and delete command and the two replies to a get, character by character |
| StoreKeys.NamesDiffer | cachedfs/main.c:521-524 | header, slot, bucket, attribute, marker and stray keys never coincide unless kind, number and path do |
| StoreKeys.JoinParentBase | cachedfs/main.c:131-141 | parent and base name put together give the path back if and only if its last slash is not its second character |
| StoreKeys.SplitsIntoNames | cachedfs/main.c:193-204 | the parent and base name of a directory, a slash and a name are that directory and that name |
| Text.DecimalDigits | cachedfs/main.c:207 | numbers in keys and commands are decimal, the most significant digit first |
| StoreKeys.NamesLiterally | cachedfs/main.c:205-208 | the six kinds of keys as they are spelled |
| StoreValues.HeaderReadsBack | cachedfs/main.c:485-493 | the five integers of a header survive their encoding |
| StoreValues.AttrReadsBack | cachedfs/main.c:637-646 | an attribute record's name, value and index survive their encoding |
| StoreValues.BytesFramed | cachedfs/main.c:485-486 | every value written starts with its own length |
| StoreValues.HeaderLayout | cachedfs/main.c:39-46 | the bytes at which each field of a stored header lies |
| StoreValues.AttrLayout | cachedfs/main.c:637-646 | where in an attribute's record its header fields, name and value lie |
| StoreValues.PlainLayout | cachedfs/main.c:263-271 | the marker is its length, the total and the block size; a piece of text is its length and the text |
| CBytes.FourBytes | cachedfs/main.c:39-46 | an integer's four bytes, the lowest first |
| StoreLayout.StoreIsTheTree | cachedfs/main.c:220-497 | the store's keys are exactly those the tree calls for, with exactly its bytes |
| StoreLayout.FileInStore | cachedfs/main.c:480-606 | a file's header, 1024 bytes of its data under each bucket key, its attribute records, and no key beyond them |
| StoreLayout.DirInStore | cachedfs/main.c:188-235 | a directory's header and the path of each child under its number, and no key beyond them |
| StoreLayout.RefinesOneTree | cachedfs/main.c:499-541 | a store holds at most one tree, so nothing of it is lost |
| StoreLayout.StoredIsFramed | cachedfs/memcache.c:38-39 | every value in the store carries its own length |
| Buckets.DataLenIsLength | cachedfs/main.c:572-574 | `data_len` is the length of the data if and only if line 574 is gone or the file is empty |
| Buckets.ReadCountIsRight | cachedfs/main.c:500-517 | the number of bytes `hello_read` reports is right if and only if the request is in range |
| Buckets.ReadCountWrong | cachedfs/main.c:508-517 | of ten bytes a request for fourteen reports fourteen |
| BucketFiles.ContentsRightIff | cachedfs/main.c:543-606 | exactly when a write leaves the right buckets and their right number, for every file, buffer, offset and contents of the uninitialised buffers |
| BucketFiles.CallRightIff | cachedfs/main.c:543-606 | exactly when it leaves the `data_len` that goes with them as well |
| BucketFiles.RightByAccident | cachedfs/main.c:550-602 | with 3 bytes stored, a write at 10 can leave the right bytes and the true length in `data_len`, where line 574 counts four more |
| BucketFiles.LoopRight | cachedfs/main.c:558-600 | a loop that starts at or before the end leaves that image |
| BucketFiles.NewLoop | cachedfs/main.c:561-576 | once the header counts too few buckets every pass makes a new one and starts at its first byte |
| BucketFiles.CallWithin | cachedfs/main.c:572-574 | even a write that goes wrong never counts beyond what the right one would |
| BucketFiles.WrongPlace | cachedfs/main.c:561-576 | with 1024 bytes stored, a byte written at 1026 comes to lie at 1024 |
| BucketFiles.WrongBytes | cachedfs/main.c:582-596 | with 3 bytes stored, a write at 5 leaves two uninitialised bytes in the file |
| BucketFiles.WrongCounts | cachedfs/main.c:550-576 | a write at 1 of an empty file replaces the zero filled in before it |
| BucketFiles.WrongHeader | cachedfs/main.c:555-556 | so it does without line 574 |
| Buckets.ChunkWritten | cachedfs/main.c:561-597 | a write inside one bucket changes that bucket only; a missing bucket is the next one, at an aligned offset; full buckets stay full |
| Buckets.LengthsWritten | cachedfs/main.c:572-592 | the header's counts follow |
| Buckets.PieceThere | cachedfs/main.c:527-531 | the clamps of the read loop yield a non-empty part of the range, all of it in the bucket |
| StoreLayout.FileRefines | cachedfs/main.c:558-604 | a store in which only one file's header and buckets have changed is that of the tree with new contents if and only if they are the image of those |
| StoreLayout.AddRefines | cachedfs/main.c:188-235 | three stores take the image of a tree to that of the tree with a child more |
| StoreLayout.RemoveRefines | cachedfs/main.c:346-476 | the stores and deletes of a removal take it to that of the tree with the child gone |
| StoreLayout.SetAttrRefines | cachedfs/main.c:631-647 | two stores append a record |
| StoreLayout.RemoveAttrRefines | cachedfs/main.c:745-773 | the stores and the delete of a record's removal |
| FileTree.IndexBijection | cachedfs/main.c:188-218 | slot i of a directory holds p if and only if p exists, its parent is that directory and its index is i |
| FileTree.AddKeepsWellFormed | cachedfs/main.c:188-235 | adding a child keeps that |
| FileTree.RemoveKeepsWellFormed | cachedfs/main.c:346-383 | so does removal by swapping with the last |
| FileOps.ApplyKeepsWellFormed | cachedfs/main.c:220-778 | so does every call |
| FileOps.ReachableIndexBijection | cachedfs/main.c:413-450 | in every reachable tree every path has an existing parent directory, and the bijection holds |
| FileOps.OthersFramed | cachedfs/main.c:220-778 | a call on one path leaves every other file's contents and attributes alone |
| FileOps.ContentsAreTheWrites | cachedfs/main.c:543-606 | over any run a file holds what a plain byte array would after its writes |
| FileRuns.Perform | cachedfs/main.c:220-778 | a file system performs each call as the tree says |
| FileRuns.Drive | cachedfs/main.c:220-778 | so a file system driven through any list of calls, every write in it one that comes out right, is at the end the store of the tree they make |
| FileRuns.DriveAndRead | cachedfs/main.c:499-606 | a read at the end returns what a plain byte array would, written to as often as the file was |
| FileOps.WriteInTwo | cachedfs/main.c:560-600 | writing a buffer piece by piece is writing it at once |
| FileOps.WriteBehindEnd | cachedfs/main.c:550-557 | a write behind the end is a write of zeros at the end and then the write |
| FileOps.SetAttrIsInsert | cachedfs/main.c:628-651 | on a file whose records have distinct names, setting an absent one is insertion into a finite map |
| FileOps.RemoveAttrIsDelete | cachedfs/main.c:726-778 | removing a name is deletion from that map |

## Left out

- Sockets, short reads, connecting, printing and the exit codes of `send`: the server is an ideal map that understands commands by `Protocol.ServerReadsSet` and `Protocol.ServerReadsKey`.
- Concurrent file-system calls, eviction by the server and `FAST_MODE`.
- The fixed sizes of C buffers (128 to 66000 bytes), the server's limits on keys and values, and failing `malloc`, `calloc` and `realloc`.
- Paths with blanks or line ends, which the text protocol cannot carry (`PathOk` asks for their absence), and counts or lengths beyond the `int` fields (`IsInt` preconditions).
- Extended attributes on directories, whose counter is never set and whose records are never deleted; `hello_listxattr`, `hello_getattr`, `hello_access`, `hello_open`, `hello_release`.
- CachedFs.FileSystem.constructor: a marker under `stats` that does not begin with its own length, or has more than the 128 bytes of the buffer it is read into, is excluded; a store that carries the marker is taken to be one this file system left.
- CachedFs.FileSystem.Read: the bytes are not stated outside `ReadInRange`, where the number reported is wrong and the source may read buckets that are not there.
- CachedFs.FileSystem.Write: reading the header again is considered only without line 574; offsets beyond `int` are excluded; each pass has a buffer of its own, but only the first can leave bytes of it in the file, so one is a parameter.
- CachedFs.FileSystem.Mkdir: that the path is not there yet, that it is not the root and that an existing parent is a directory is what the kernel sees to before the call; the same holds for `Create`, `Rmdir` and `Unlink` and the kind of node they are given.
- CachedFs.FileSystem.SetXattr: a name that is already there gets a second record, as in the source; `FileOps.SetAttrIsInsert` therefore speaks of absent names.
- Allocator.Heap.MmRealloc: a shrinking copy that would end behind the end of memory is excluded; `memcpy` reads all its bytes before it writes any; `mm_free` is the repaired one. Runs (`HeapRuns`) consist of allocations, frees and writes by clients, not of calls of `mm_realloc`.
- Allocator.Heap.MmMalloc: sizes from about 2^63 up are excluded, for which `sbrk` gets a negative increment or the addition of the header wraps around.
- Tokenizer.Tokenize: lines of 2^32 characters or more, for which the `unsigned int` index wraps, a NULL line, and `isspace` outside the C locale; `tokens_destroy` and the accessors.
- WorkQueueProtocol.FirstInFirstOut: the values are the client sockets; one queue, since the lock and the condition are global; fairness and liveness beyond `QuietMeansServed`.
- `CDL_SORT`, `LL_` macros, search and iteration macros and the variants for other compilers in `hw2/utlist.h`, which repeat what is here.
- Long loops and calls of the source are split into methods of their own; the line numbers beside each say which part it is.
- `hw1/shell.c`, `hw2/libhttp.c`, `hw0` and the stub `hw3/mm_alloc.c`.
