# MisakiDB: a verified model

MisakiDB is a small disk-based key-value store. This project models its stack of page-structured algorithms in
Dafny and proves what each layer promises to the one above it, ending with the promise to the user: over page stores, whatever
sequence of get, set, delete and exist commands is carried out, every answer is the one that a map from processed keys
to values would give. Three defects of the code limit this, and all are delimited exactly below. The third one is in the
use of the buffer pool: the promise carries over to the program as long as the pools lose no change, for example in every
run that touches no more pages than the pools have frames.

## How the model is laid out

- `Commands.dfy`, `Database.dfy`: the store as a map from processed keys to values; whole runs of commands.
- `KeyText.dfy`, `KeyOrder.dfy`: trimming and padding of keys; the signed-byte comparator. The comparator's order is
  proved to be the order of an integer code of the key, and codes of different keys differ, so the tree is
  modelled over these codes.
- `BPlusTree.dfy`: the B+ tree, with its recursive split, coalesce, redistribute and root shrink. Pages live in a
  `PageFile`. `TreeInvariant.dfy` states the invariant page by page. A ghost table gives each live page its height
  and key interval, and a `Defect` says what is temporarily wrong between two steps of an update (one page of a wrong
  size, or a page that was split off and has no entry in its parent yet). `TreeInsertProofs.dfy` and
  `TreeRemoveProofs.dfy` prove that each step keeps the invariant. `TreeTheorems.dfy` says what the invariant means
  for somebody who only follows page ids from the root, and `TreeHeight.dfy` that the height is logarithmic.
- `LeafPage.dfy`, `InternalPage.dfy`: the entry arrays of the pages, changed in place by shifting loops, proved
  equal to the operations on sequences in `NodeOps.dfy` that the tree uses.
- `IndexIterator.dfy`: the range iterator over the leaf chain.
- `PageFile.dfy`: page allocation with an intrusive free list, as both the index file and the blob file do it.
- `DataAccessor.dfy`: records by id, over `SlottedPage.dfy` (the page as a value), `DataFilePage.dfy` (the page as
  a byte buffer changed in place), `FreeSpaceMap.dfy` and `DataFileManager.dfy` (first-fit allocation),
  and `BlobStore.dfy` (chains of blob pages).
- `BufferPool.dfy`, `LruReplacer.dfy`: the write-back cache and its replacement policy. `CacheStore.dfy`: the pool as its
  clients can know it, compared with a page store that has no cache. `PoolRuns.dfy`: the pool refines this over whole runs.
- `BipartiteMatching.dfy`: maximum bipartite matching in the vendored googlemock.

The source's exceptions are `None` or error results. Page ids are unbounded integers with the source's "no page" value; how many
pages a file can still hand out is `Room()`, and operations that need new pages require it.

## Main results

- `RunOnNewStore`, `LastWriteDecides`, `SetThenGet`: every answer of every run of commands, decided by the writes before it.
  `ProcessExactly`: what becomes of a key.
- `BPlusTree.Insert`, `BPlusTree.Remove`: the tree is a map, through any depth of splitting and coalescing. `EqualDepth`,
  `Separators`, `SizeBounds`, `HeightBound`: what its invariant means. `Drain`: a scan visits each pair once, in order.
- `InsertRecord`, `RemoveRecord`, `GetRecordValue`, `GetBlob`: records by id, in slotted pages and blob chains.
  `RemoveRefines`: compaction keeps all other records. `AllocateDataPage`: the first page with room is found, over a map that
  never promises too much.
- `RunOnNewPool`: the pool refines a least-recently-unpinned page store. `RunExactly`: when clients can tell it from a store
  without a cache.
- `Compute`: the matching found is a maximum one.

## What the model shows about the code

The three defects:

- The comparison at src/data_accessor.cpp:57 tests the value, not the record. For the value lengths 4062 to 4085 no page in
  any state has room for the record (`TooLongNeverFits`), no entry of a sound map says so (`TooLongFindsNothing`),
  hence the allocator always takes an unused page, and the debit wraps around (`TooLongWraps`). After `InsertRecord` the
  free-space map is an account of the data pages exactly for the other lengths; `Set`, `Run` and `RunOnNewStore` carry
  this condition up to whole runs, and `DamageExample` is the shortest case.
- `remove` processes the key, which is passed by reference, once more, so `set` stores under the key processed twice,
  while `get` looks under the key processed once. `IdempotentExactly` gives the exact condition: the two differ exactly
  if the trimmed key is longer than 24 bytes and its 24th byte is whitespace. `SetThenGet` shows that for these keys a
  value that has just been set is never found. No key is excluded from the model: the map of a run is defined with the
  key processed as often as the code does it.
- Page allocation changes map pages and unpins them as clean: src/file_manager/data_file_manager.cpp:41 after a debit, :47
  before a new map page is even filled. Such a change lives until its page is evicted. `RunExactly` says when the pool's
  clients notice: a run reads as without a cache exactly if it evicts no page with an unreported change. `RunWithFewPages`:
  this never happens while no more pages are touched than there are frames. `LoseQuietChange`: it does happen, in a pool of
  any size, to a client that does as `allocateDataPage` and then visits as many other pages; a map page appended this way
  reads as zeros. `LoseMapPage` shows what a lost map page comes to. With 100 frames, which is the default
  (src/main.cpp:53), four commands on a new store are enough: set k1 to a short value, set k2 to a value of
  400,000 bytes, set k3 to a short value, get k2. The blob pages of k2 evict map page 1, so that the record of k2 goes to
  data page 1025; the allocation for k3 finds room there, takes the page for a new one and empties it, and k2 is not found.
  A map page that is credited before it is evicted is safe, because src/file_manager/data_file_manager.cpp:92 reports.

Besides:

- src/data_accessor.cpp:46 credits only the 4 bytes of a blob id when a blob record is removed. The free-space map is
  therefore a lower bound, never too high (`ReleaseAccounts`): an entry falls behind its page by exactly 24 bytes with every
  blob record that is removed, and never otherwise (`InsertRecord`, `RemoveRecord`).
- src/file_store/file_store.cpp:50 computes the place of a page in 32 bits, so that pages whose ids are 2^20 apart share it
  (`OffsetsCollideExactly`). A `PageFile` hands out ids below 2^20 only.

## Model

| member | source | states |
|---|---|---|
| Database.RunOnNewStore | src/server.cpp:150-205 | over page stores, for every sequence of commands on a new store: a get finds exactly the value of the last set that wrote its key, unless a delete came after, an exist or a delete tells exactly whether there is one, and the contents at the end are those values; the run gets to its end with a consistent store exactly if no set in it has a value length that the code mishandles, and otherwise stops right after the first such set |
| Database.DamageExample | src/data_accessor.cpp:57 | one set of a 4062-byte value leaves a new store inconsistent |
| Database.DataBase.constructor | src/database.cpp:4-11 | a new store with its files is consistent and empty |
| Database.DataBase.Reopen | src/database.cpp:4-11 | opening the files that another store left behind gives back exactly its contents |
| Database.DataBase.Run | src/server.cpp:150-205 | the same for a run on any consistent store, whose contents count for keys that no command of the run writes |
| Database.DataBase.Execute | src/server.cpp:150-205 | one command answers and changes the contents as the map does: a delete answers exactly whether the key was there; index and record store stay in step exactly if it is not a set of a mishandled length; only a set takes pages |
| Database.DataBase.Get | src/database.cpp:13-23 | returns exactly the value the map holds under the processed key |
| Database.DataBase.Set | src/database.cpp:44-54 | the map gains the value under the key processed twice and changes nowhere else; the final insertion into the index cannot fail; the store stays consistent exactly if the length of the value can be stored |
| Database.DataBase.Remove | src/database.cpp:25-36 | takes exactly the processed key out of the map and reports whether it was there |
| Database.DataBase.Exist | src/database.cpp:38-42 | true exactly for keys of the map |
| Database.DataBase.Link | src/database.cpp:50-51 | stores a record under an unused id and makes the index lead to it, leaving all other entries and records alone; the record store stays consistent exactly if the length can be stored; the index and the blobs do as long as the record is not longer than a page |
| Database.DistinctRecords | src/database.cpp:50-51 | different keys never share a record id |
| Database.DataBase.TreeHeightBound | src/index/b_plus_tree.cpp:62-69 | the index pages that an insertion asks for and may use, one more than the height, are at most log2(n) + 2 for n pairs |
| Database.DataBase.EmptyIndexFile | src/index/b_plus_tree.cpp:225-318 | once all keys are gone the index file has no pages in use, unless it refused to delete some |
| Commands.LastWriteDecides | src/database.cpp:13-54 | after any run on any contents, a key has value v exactly if the last command that writes it is a set of v, or if no command writes it and v was there |
| Commands.RepliesDecided | src/server.cpp:150-205 | the answers of a run are those that the writes before each command decide |
| Commands.StoredKeysFixed | src/database.cpp:44-54 | no run ever stores a value under a key that processing would change |
| Commands.SetThenGet | src/database.cpp:13-54 | after any run, a value that was just set is found under the same key exactly if the key is not cut right after whitespace; otherwise nothing is found |
| KeyText.IdempotentExactly | src/database.cpp:64-68 | processing a key twice differs from processing it once exactly if the trimmed key is longer than 24 bytes and byte 24 is whitespace |
| KeyText.FixedExactly | src/database.cpp:64-68 | processing leaves exactly the keys of 24 bytes without whitespace at either end unchanged |
| KeyText.TwiceIsEnough | src/database.cpp:64-68 | a third processing never changes anything |
| KeyText.TrimTight | src/util.cpp:5-22 | trimming leaves no whitespace at either end, and changes a text exactly if there was some |
| KeyText.TrimExactly | src/util.cpp:5-22 | a text is trimmed to t exactly if t is what stands between whitespace on both sides and has none at its own ends |
| KeyText.ProcessExactly | src/database.cpp:64-68 | a key is processed to k exactly if k is, byte by byte, the key without the whitespace at its ends, cut off after 24 bytes or filled up with zero bytes |
| KeyOrder.Compare | src/include/generic_key.h:30-39 | the sign of the comparator is the order of the key codes, and it is zero only for equal keys |
| KeyOrder.OrderExactly | src/include/generic_key.h:30-39 | at the first difference the larger byte wins, except that bytes from 128 on are below those under 128 |
| KeyOrder.CodeInjective | src/include/generic_key.h:30-39 | different keys have different codes |
| BPlusTree.BPlusTree.Insert | src/index/b_plus_tree.cpp:62-69 | true exactly if the key is new, and then the map gains exactly this pair; the whole tree invariant is kept, and every page in use is part of the tree or could not be deleted earlier |
| BPlusTree.BPlusTree.Remove | src/index/b_plus_tree.cpp:225-247 | returns exactly the key's value and takes the key out of the map; the whole tree invariant is kept through any depth of coalescing, and every page that leaves the tree is given back unless the file refuses |
| BPlusTree.BPlusTree.GetValue | src/index/b_plus_tree.cpp:33-49 | agrees with the map for every key |
| BPlusTree.BPlusTree.FindLeafPage | src/index/b_plus_tree.cpp:469-491 | the leaf found is in charge of the key (or is the leftmost leaf); fails exactly on an empty tree |
| BPlusTree.BPlusTree.Reopen | src/index/b_plus_tree.cpp:5-14 | the root id in the header is enough to find the whole tree again |
| BPlusTree.BPlusTree.SplitLeafPage | src/index/b_plus_tree.cpp:142-162 | the leaf keeps the lower half, a page not in use before gets the upper half, and the new leaf is linked in between the leaf and its old successor |
| BPlusTree.BPlusTree.SplitInternalPage | src/index/b_plus_tree.cpp:142-162 | as for a leaf, and exactly the children that moved name the new page as their parent |
| BPlusTree.BPlusTree.InsertIntoParent | src/index/b_plus_tree.cpp:174-210 | a split-off page ends up registered, splitting upwards as far as needed, with a sound tree of unchanged contents and at most one new page per level |
| BPlusTree.BPlusTree.GrowRoot | src/index/b_plus_tree.cpp:178-194 | a split root gets a new root above it, which both root ids name |
| BPlusTree.BPlusTree.CoalesceOrRedistribute | src/index/b_plus_tree.cpp:258-318 | a page one entry short is repaired by merging, sharing or shrinking the root, ending in a sound tree of unchanged contents; pages leave the tree exactly if the page and its neighbour fit on one, or if the root has become useless; the flag tells whether this page itself is still to be deleted |
| BPlusTree.BPlusTree.FindSibling | src/index/b_plus_tree.cpp:278-293 | the sibling is the next child, or the previous one for the last child, and no other page; the index returned is that of the right one of the two |
| BPlusTree.BPlusTree.Coalesce | src/index/b_plus_tree.cpp:334-352 | after merging two neighbours the tree is sound with unchanged contents, and the page reported for deletion is no longer part of it |
| BPlusTree.BPlusTree.Redistribute | src/index/b_plus_tree.cpp:365-389 | after moving one entry between neighbours the tree is sound with unchanged contents |
| BPlusTree.BPlusTree.AdjustRoot | src/index/b_plus_tree.cpp:401-425 | a root leaf without entries leaves an empty tree that stores nothing; a root with one child is replaced by that child, which then has no parent; the old root is out of the tree |
| BPlusTree.BPlusTree.DeleteIndexPage | src/file_manager/index_file_manager.cpp:35-63 | a page that left the tree is given back unless the file refuses, and is then accounted for as refused; the tree is not harmed either way |
| BPlusTree.BPlusTree.AllInTree | src/index/b_plus_tree.cpp:225-318 | as long as no deletion was refused, the pages in use are exactly those of the tree |
| TreeInsertProofs.SplitLeaf | src/index/b_plus_tree.cpp:115-122 | splitting a full leaf leaves a tree that is sound but for the missing entry of the new leaf |
| TreeInsertProofs.SplitInternal | src/index/b_plus_tree.cpp:201-207 | so does splitting a full internal page, with every moved child re-parented |
| TreeInsertProofs.Register | src/index/b_plus_tree.cpp:196-199 | the entry in the parent removes that defect, and only the parent's size can now be off |
| TreeRemoveProofs.Merge | src/index/b_plus_tree.cpp:334-352 | merging the right one of two neighbours into the left one keeps all pairs, intervals, parents and the leaf chain; only the parent's size can be off |
| TreeRemoveProofs.RotateLeafLeft | src/index/b_plus_tree.cpp:365-389 | moving a pair from the right leaf to the left one, with the new separator, gives a sound tree |
| TreeRemoveProofs.RotateLeafRight | src/index/b_plus_tree.cpp:365-389 | the same from left to right |
| TreeRemoveProofs.RotateInternalLeft | src/index/b_plus_tree.cpp:365-389 | moving a child between internal pages rotates the separator through the parent and gives a sound tree |
| TreeRemoveProofs.RotateInternalRight | src/index/b_plus_tree.cpp:365-389 | the same from left to right |
| TreeRemoveProofs.ShrinkRoot | src/index/b_plus_tree.cpp:412-422 | dropping a root with a single child gives a sound tree one level lower |
| TreeTheorems.EqualDepth | src/index/b_plus_tree.cpp:225-425 | all leaves are equally far from the root |
| TreeTheorems.Separators | src/include/page/b_plus_tree_internal_page.h:11-16 | every key below child i lies in [K(i), K(i+1)) |
| TreeTheorems.SeparatorsSorted | src/include/page/b_plus_tree_internal_page.h:15-22 | separators of a page increase strictly |
| TreeTheorems.ParentPointers | src/index/b_plus_tree.cpp:174-210 | every page reached names the page it was reached from as its parent, and only the root has none |
| TreeTheorems.SizeBounds | src/index/b_plus_tree.cpp:225-425 | pages other than the root have at least half their capacity, rounded down, and at most one less than it; an internal root has at least two children |
| TreeTheorems.StoredIffInContents | src/index/b_plus_tree.cpp:33-49 | a pair is in the contents exactly if some path from the root leads to a leaf that holds it |
| TreeHeight.HeightBound | src/index/b_plus_tree.cpp:469-491 | a tree whose root has level L stores at least 2^L pairs: the height is at most log2 of the number of pairs, plus one |
| IndexIterator.Begin | src/index/b_plus_tree.cpp:436-439 | a full scan has all keys ahead of it |
| IndexIterator.BeginAt | src/index/b_plus_tree.cpp:447-451 | a scan from a key has exactly the keys from that key on ahead of it |
| IndexIterator.Drain | src/index/index_iterator.cpp:25-44 | iterating visits every remaining pair exactly once, in strictly increasing key order, and ends |
| IndexIterator.IndexIterator.Next | src/index/index_iterator.cpp:33-44 | moves past exactly the smallest remaining key; fails exactly at the end |
| IndexIterator.IndexIterator.Deref | src/index/index_iterator.cpp:25-31 | the current pair is the one with the smallest remaining key; fails exactly at the end |
| IndexIterator.NextLeaf | src/index/index_iterator.cpp:46-57 | the key after a leaf's last one is the first key of the leaf it links to, and a leaf without a link holds the largest key |
| LeafPage.LeafPage.Insert | src/page/b_plus_tree_leaf_page.cpp:73-81 | the shifting loop inserts the pair at its place in key order |
| LeafPage.LeafPage.Lookup | src/page/b_plus_tree_leaf_page.cpp:117-127 | finds the value of the first entry with the key |
| LeafPage.LeafPage.RemoveAndDeleteRecord | src/page/b_plus_tree_leaf_page.cpp:140-156 | removes the first entry with the key, keeping the others in order; nothing changes if there is none |
| LeafPage.LeafPage.MoveHalfTo | src/page/b_plus_tree_leaf_page.cpp:90-94 | the page keeps the lower half, rounded up, and the recipient holds the upper half |
| LeafPage.LeafPage.MoveAllTo | src/page/b_plus_tree_leaf_page.cpp:166-170 | the left neighbour gets all entries and the link to the next leaf |
| LeafPage.LeafPage.MoveFirstToEndOf | src/page/b_plus_tree_leaf_page.cpp:179-186 | the first entry becomes the left neighbour's last |
| LeafPage.LeafPage.MoveLastToFrontOf | src/page/b_plus_tree_leaf_page.cpp:202-206 | the last entry becomes the right neighbour's first |
| InternalPage.InternalPage.Lookup | src/page/b_plus_tree_internal_page.cpp:76-84 | the child before the first separator above the key; key 0 is never compared |
| InternalPage.InternalPage.ValueIndex | src/page/b_plus_tree_internal_page.cpp:48-55 | the first position of a child; fails exactly if there is none |
| InternalPage.InternalPage.InsertAfter | src/page/b_plus_tree_internal_page.cpp:109-119 | the new entry stands right behind that of the given child |
| InternalPage.InternalPage.Remove | src/page/b_plus_tree_internal_page.cpp:162-168 | exactly entry i is gone, the others keep their order |
| InternalPage.InternalPage.MoveHalfTo | src/page/b_plus_tree_internal_page.cpp:128-133 | the page keeps the lower half, rounded up; the upper half moves, and exactly its children get the recipient as their parent |
| InternalPage.InternalPage.MoveAllTo | src/page/b_plus_tree_internal_page.cpp:191-196 | all entries move, the first under the separator from the parent, and their children are adopted |
| InternalPage.InternalPage.MoveFirstToEndOf | src/page/b_plus_tree_internal_page.cpp:210-220 | the first child moves under the separator from the parent and is adopted |
| InternalPage.InternalPage.MoveLastToFrontOf | src/page/b_plus_tree_internal_page.cpp:244-249 | the last child moves to the front, the recipient's unused key becomes the separator, and the child is adopted |
| InternalPage.InternalPage.CopyFirstFrom | src/page/b_plus_tree_internal_page.cpp:256-267 | the entry becomes the first one although the loop copies one entry too many, and its child is adopted |
| PageFile.PageFile.New | src/file_manager/index_file_manager.cpp:17-33 | hands out an id that no page in use has, the most recently freed one first; all other pages are untouched |
| PageFile.PageFile.Delete | src/file_manager/index_file_manager.cpp:35-63 | succeeds exactly for pages in use that nobody else has pinned; a page that is free already is refused |
| PageFile.OffsetsCollideExactly | src/file_store/file_store.cpp:48-51 | two pages share their place in the file exactly if their ids differ by a multiple of 2^20 |
| PageFile.PushFree | src/file_manager/data_file_manager.cpp:126-157 | pushing a page keeps the free list acyclic, without duplicates, and exactly the free pages |
| PageFile.PopFree | src/file_manager/data_file_manager.cpp:103-124 | so does popping its head |
| DataAccessor.DataAccessor.InsertRecord | src/data_accessor.cpp:51-76 | for a length that can be stored the pair is stored under an id that was not in use, on the first page with room for it, and all other ids keep their pairs; no entry of the free-space map falls further behind its page; the map is an account of the data pages afterwards exactly for these lengths; blob pages used are exactly those the length needs, as long as the record is not longer than a page |
| DataAccessor.DataAccessor.RemoveRecord | src/data_accessor.cpp:32-49 | exactly this id disappears, together with its blob; all others keep their pairs; the free-space map gets all bytes of the record back, and falls behind by exactly 24 bytes if the value was a blob |
| DataAccessor.DataAccessor.GetRecordValue | src/data_accessor.cpp:11-30 | the stored value exactly if the id is live and has this key, for short and long values alike |
| DataAccessor.DataAccessor.Reopen | src/data_accessor.cpp:8-9 | the records that were stored before are stored again |
| DataAccessor.DataAccessor.PlaceRecord | src/data_accessor.cpp:65-75 | up to the maximum record size the record goes to the first page with room, exactly one slot that was not live becomes the record, and no entry falls behind; the free-space map stays sound exactly up to this size, whatever an insertion without room leaves on the page |
| DataAccessor.StorableExactly | src/data_accessor.cpp:57 | exactly for value lengths up to 4061 or above 4085 there is a page with room for the record, a sound entry that says so, and a page that an unused entry accounts for once it was debited |
| DataAccessor.UnstorableExample | src/data_accessor.cpp:57 | 4062 is the shortest mishandled length: the record fits on no page in any state, and the map would say that 65535 bytes are free |
| BlobStore.BlobStore.InsertBlob | src/data_accessor.cpp:78-126 | the value is stored in a new chain of exactly as many pages as its length needs, and page after page is filled up: 4048 bytes on the first one, 4072 on each other, the rest on the last; all other blobs stay as they are |
| BlobStore.PagesFilled | src/data_accessor.cpp:92-107 | in a valid store no page holds more than it has room for, none is empty, and all but the last of each blob are full |
| BlobStore.BlobStore.GetBlob | src/data_accessor.cpp:129-184 | returns the value exactly if the id is that of a stored blob with this key; nothing for freed pages, for pages inside a chain and for other keys; an empty value for the "no page" id, and a read error for ids that were never handed out |
| BlobStore.HeadsOnly | src/data_accessor.cpp:117-123 | the pages marked as heads are exactly the first pages of the stored blobs |
| BlobStore.BlobStore.Reopen | src/include/data_accessor.h:20 | stored blobs are found again although the id counter starts from 0 |
| BlobStore.BlobStore.RemoveBlob | src/data_accessor.cpp:186-198 | frees exactly the chain's pages; all other blobs stay as they are |
| SlottedPage.InsertRefines | src/page/data_file_page.cpp:108-129 | the slot map gains exactly one record under a slot that was not live; the free bytes and the count of invalid slots change by the right amounts |
| SlottedPage.RemoveRefines | src/page/data_file_page.cpp:77-106 | the slot map loses exactly one record; every other slot keeps its id and its bytes through the compaction |
| SlottedPage.RemoveBytes | src/page/data_file_page.cpp:86-98 | the bytes of every other record survive the memmove and the offset fix-up |
| SlottedPage.RemoveOk | src/page/data_file_page.cpp:77-106 | the remaining records are disjoint and tile the end of the page exactly |
| SlottedPage.InsertOk | src/page/data_file_page.cpp:108-129 | so are the records after an insertion, and the slot array does not reach them |
| SlottedPage.FitsExactly | src/page/data_file_page.cpp:108-129 | a record fits exactly if the page is sound once it is inserted |
| SlottedPage.GetRefines | src/page/data_file_page.cpp:65-75 | a slot yields a value exactly if its record is the key followed by that value |
| DataFilePage.DataFilePage.InsertRecord | src/page/data_file_page.cpp:108-129 | the buffer and counters change exactly as the page value does, and the slot returned is the one used |
| DataFilePage.DataFilePage.RemoveRecord | src/page/data_file_page.cpp:77-106 | so they do for a removal; it reports the length, or for a blob record the bytes after the key |
| DataFilePage.DataFilePage.CloseGap | src/page/data_file_page.cpp:86-100 | the compaction in place gives the page value without the record |
| DataFilePage.DataFilePage.GetRecordValue | src/page/data_file_page.cpp:65-75 | yields a value exactly if the slot's record is the 24-byte key followed by that value, with that record's blob mark |
| FreeSpaceMap.ReserveAccounts | src/page/free_space_map_file_page.cpp:23-31 | what the map believes to fit does fit, and the debited entry accounts for the page after insertion, is as far behind as before, and does not wrap |
| FreeSpaceMap.ReleaseAccounts | src/page/free_space_map_file_page.cpp:17-21 | crediting at most the record's length adds exactly these bytes and one invalid slot, without wrapping; the entry falls behind by what was not credited |
| FreeSpaceMap.EntryFitsExactly | src/page/free_space_map_file_page.cpp:12-15 | a sound entry says that a record fits exactly if the page has room for it and for what the entry is behind; an exact entry says so exactly if the record fits |
| FreeSpaceMap.TooLongNeverFits | src/page/free_space_map_file_page.cpp:12-15 | a record above the maximum size fits on no page in any state, and no sound entry says that it does |
| FreeSpaceMap.TooLongWraps | src/page/free_space_map_file_page.cpp:23-31 | debiting an unused page with such a record wraps around to more bytes than a page has, so that the entry accounts for no page |
| FreeSpaceMap.Conversion | src/file_manager/data_file_manager.cpp:159-169 | map entries and data pages correspond one to one |
| DataFileManager.DataFileManager.AllocateDataPage | src/file_manager/data_file_manager.cpp:20-82 | for every 16-bit size and whatever the map holds, the entry is the first that fits, or the first of a new map page, and only it is debited; an id from the next page id on is (re)initialised. On sound files this is the first page with room for the record and for what its entry is behind, and if there is none, the next page; nothing is ever emptied; beyond the maximum record size nothing fits and the first page of a new map page is taken |
| DataFileManager.DataFileManager.ReserveEntry | src/file_manager/data_file_manager.cpp:26-60 | on sound files the entry is that of the first page with room, and a map page is added only when every earlier entry has its page, or when the record is too long for any page |
| DataFileManager.TooLongFindsNothing | src/file_manager/data_file_manager.cpp:31-42 | above the maximum record size no entry of a sound map fits, whatever the pages hold |
| DataFileManager.DataFileManager.StoreInserted | src/data_accessor.cpp:68-69 | after the insertion every entry of the map accounts for its page again, and this one is as far behind as before |
| DataFileManager.DataFileManager.RemoveAndCredit | src/data_accessor.cpp:36-46 | exactly one entry is credited, with the given bytes and one invalid slot; every entry still accounts for its page, and this one falls behind by what was not credited |
| DataFileManager.LoseMapPage | src/file_manager/data_file_manager.cpp:37-68 | with the change of map page 1 lost, the next record goes to data page 1025, and the allocation after it takes that page for a new one and empties it |
| BufferPool.BufferPool.FetchPage | src/buffer/buffer_pool_manager.cpp:86-121 | every page that stays resident reads as before, and one that leaves reads as its file says with what was marked as dirty; null exactly if the page is not resident and every frame is pinned, and then nothing changes; otherwise the frame holds the page with one more pin, every other pinned page keeps its frame unchanged, all other pin counts stay, and only the page that was unpinned for the longest time may leave |
| BufferPool.BufferPool.UnpinPage | src/buffer/buffer_pool_manager.cpp:123-148 | no page reads differently right afterwards, whatever is reported; one pin less on this page, all others and their frames as before; with the last pin the page becomes idle later than all idle pages; false exactly for a resident page without pins |
| BufferPool.BufferPool.FlushPage | src/buffer/buffer_pool_manager.cpp:150-154 | the file then agrees with the page's contents, and no other page of the files changes; the page is clean afterwards, and frames keep their pages, bytes and pins |
| BufferPool.BufferPool.FlushAllPages | src/buffer/buffer_pool_manager.cpp:156-163 | the files then agree with the contents of every page, and no change is outstanding; frames keep their pages, bytes and pins |
| BufferPool.BufferPool.AppendNewPage | src/buffer/buffer_pool_manager.cpp:165-192 | null exactly if every frame is pinned; the pool stays consistent exactly if the page was not resident or its frame is the one taken, and then the new page reads as zeros, in the pool and in its file, pinned frames and pin counts are unchanged, and only the page that was unpinned for the longest time may leave |
| BufferPool.BufferPool.GetVictimPage | src/buffer/buffer_pool_manager.cpp:40-67 | a free frame first, else the frame unpinned for the longest time; fails exactly if every frame is pinned; no pin counts change, every page outside the frame stays where it is, and the page that leaves is in its file if it was marked as dirty |
| BufferPool.BufferPool.WriteFrame | src/include/page/page.h:22 | a client that writes a resident page changes that page's contents only; the frame keeps its page and its pins, and all other frames are untouched |
| BufferPool.EvictKeepsExactly | src/buffer/buffer_pool_manager.cpp:50-63 | an eviction keeps what every page reads exactly if the page is marked as dirty or agrees with its file |
| PoolRuns.RunOnNewPool | src/buffer/buffer_pool_manager.cpp:86-192 | for every pool size and every run of a client that touches only resident pages, reports or not, the replies are exactly those of the least-recently-unpinned page store, which says what every page reads and which page leaves; a page is refused exactly if it has no pins and as many pages are pinned as there are frames |
| PoolRuns.Run | src/buffer/buffer_pool_manager.cpp:86-192 | the same from any state of the pool |
| PoolRuns.Execute | src/buffer/buffer_pool_manager.cpp:86-192 | one command replies as that store does and leaves the pool as it says; a page that leaves the pool has no pins and, of the resident pages without pins, lost its last pin first in the run |
| PoolRuns.RunWithFewPages | src/buffer/buffer_pool_manager.cpp:86-192 | on a new pool, every run that touches no more pages than there are frames reads what a page store without a cache would give, for every client, whatever it reports |
| PoolRuns.LoseQuietChange | src/file_manager/data_file_manager.cpp:41-50 | for every pool size, a client that changes or appends a page without reporting it and then visits as many other pages as there are frames reads back what the file held: zeros, for an appended page |
| CacheStore.StepExactly | src/buffer/buffer_pool_manager.cpp:50-63 | a page that a command is not to change reads the same afterwards exactly if the command does not evict it with a change that was not reported |
| CacheStore.RunExactly | src/buffer/buffer_pool_manager.cpp:40-148 | at every moment of a run all pages read as in a store without a cache, exactly if no command of the run evicts a page whose change nobody has reported |
| CacheStore.CarefulLosesNothing | src/buffer/buffer_pool_manager.cpp:123-148 | nor does a client that writes only pinned pages and reports each change at the latest with the last pin, for every pool size |
| CacheStore.RefusedExactly | src/buffer/buffer_pool_manager.cpp:40-67 | a page is refused exactly if it has no pins and as many pages are pinned as there are frames |
| CacheStore.LastWriteIsRead | src/buffer/buffer_pool_manager.cpp:86-192 | without a cache a page reads as what was written to it last |
| CacheStore.UnchangedIsRead | src/buffer/buffer_pool_manager.cpp:86-192 | without a cache a page that no command of the run changes reads as it did at the start |
| LruReplacer.LruReplacer.Victim | src/buffer/lru_replacer.cpp:20-32 | the candidate whose current unpinned period began first; fails exactly if there is none |
| LruReplacer.LruReplacer.Unpin | src/buffer/lru_replacer.cpp:39-48 | a new candidate is younger than all others; a repeated unpin changes nothing |
| LruReplacer.LruReplacer.Pin | src/buffer/lru_replacer.cpp:34-37 | exactly this frame stops being a candidate |
| BipartiteMatching.MaxBipartiteMatchState.Compute | test/lib/googlemock/src/gmock-matchers.cc:129-160 | the result is a set of edges that share no node, in the order of the left nodes, and no set of edges that share no node is larger |
| BipartiteMatching.MaxBipartiteMatchState.TryAugment | test/lib/googlemock/src/gmock-matchers.cc:181-205 | terminates; on failure changes neither vector and leaves a dead end behind; on success exactly the given left node comes into use and the vectors stay mutually inverse |
| BipartiteMatching.MaxBipartiteMatchState.ReadPairs | test/lib/googlemock/src/gmock-matchers.cc:153-159 | one pair for each left node in use |
| BipartiteMatching.NoLargerMatching | test/lib/googlemock/src/gmock-matchers.cc:62-120 | if the unused left nodes lead only to dead right nodes, no matching is larger |
| BipartiteMatching.AddFlow | test/lib/googlemock/src/gmock-matchers.cc:197-201 | linking a left and a right node keeps the vectors inverse along the augmenting path |

## Left out

- Files, sockets, the command line, ini handling and the thread pool: plumbing around the algorithms.
- Concurrency: every operation is one step. Latches, the window in page allocation between the map latch and the header
  latch, and pools that wait on the condition variable are not modelled.
- Layers over each other's abstractions: the tree and the record store run over page stores, not over the buffer pool, whose
  runs are compared with a page store by themselves (`RunExactly`). Which runs of commands make the data pool evict a map page
  with an unreported change is not worked out command by command.
- DeleteIndexPage: whether somebody else still has the page pinned is a free choice, because the tree's pins are not
  balanced (redistribute keeps a pin on the parent, a duplicate insert keeps one on its leaf); so a page that left the tree
  may stay in use, and is then one of the `refused` pages.
- Delete: the pin count that the file looks at is the parameter `exclusive`.
- Byte layout: headers, padding, magic numbers and the bit fields of record ids. Free pages and pages in use are separate
  maps; that a page in use never carries the free mark is built in.
- BPlusTree: the capacities are the same for all pages of a tree; a leaf capacity of at least 2 is required.
- BPlusTree: the tree changes pages as values; that the shifting loops on the entry arrays compute these values is proved
  in LeafPage and InternalPage.
- DataFileManager: data pages are values here; that the byte buffer follows them is proved in DataFilePage. Running out
  of data or map page ids is not modelled, nor are data and map files above 4 GiB, whose pages share their places.
- Run: stops after a set that damages the store. What the page of a record without room then holds is left open
  (`StoreOverlapping`), and for a record longer than a page what any page holds; so is everything that later commands would
  make of it.
- Link: for value lengths 4073 to 4085, whose records are longer than a page, nothing is promised about the index and the
  blobs, and the same goes for Set, Store and InsertRecord.
- GetBlob: page 0 is excluded; the source reads the header of the file as a blob page.
- InsertBlob: the 64-bit blob id counter does not wrap.
- FlushAllPages: the order in which the hash map lists the pages is arbitrary.
- AppendNewPage: accepts a page that is resident, which breaks the pool's bookkeeping; the run-level clients of `PoolRuns`
  append only pages that are not resident.
- FetchPage: the file store is a total map from pages to contents; input and output errors are not modelled.
- RunOnNewStore: that the index and blob files have room for the sets of the run is required; the source does not handle a
  full file.
- Reopen: the files hold what the closed store wrote, as they do after the pools were flushed; a store that was not closed
  is not modelled. The number of users of a database.
- The rest of googlemock.
