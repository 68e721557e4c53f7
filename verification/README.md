# MyJQL, verified

MyJQL is a disk-based key-value store with the operations get, set and del. This project models
all of its storage engine (`src/` and `include/`) in Dafny, layer by layer, and proves that the
whole stack behaves like a map from byte strings to byte strings, over any history of calls and
of restarts.

`dafny verify dfyconfig.toml` checks everything.

## The layers

| file | module | what it is |
|---|---|---|
| `Common.dfy`, `KeyOrder.dfy` | `Common`, `KeyOrder` | record ids, cells, strings, and the order of keys |
| `BufferPool.dfy` | `BufferPools` | eight frames over one file: write-back, one-bit pins, least recently used eviction. Clients see a flat sequence of pages (`view`) and the set of pinned addresses |
| `Bits.dfy` | `Bits` | shifts, and, or on non-negative integers, digit by binary digit |
| `Block.dfy` | `Blocks` | the slotted page, in place on an array of cells |
| `HashChains.dfy`, `HashSteps.dfy`, `HashFree.dfy` | same names | the pages of the free-space map as linked lists, and what one step does to them |
| `HashMap.dfy` | `HashMaps` | the free-space map: a bag of block addresses for every size |
| `Table.dfy` | `Tables` | a heap of items: a map from record ids to cells |
| `Str.dfy`, `StringTable.dfy` | `Strings`, `StringTables` | strings as chains of chunks, cursors, and who owns which chunk |
| `BTreeModel.dfy`, `BTreeDeletion.dfy`, `BTreeBorrow.dfy` | same names | the B+ tree as a value: what makes it well formed, and each restructuring step |
| `BTreeSearch.dfy` | `BTreeSearch` | routing, uniqueness of the leaf of a key, reachability, equal depth |
| `BTreePages.dfy`, `BTreeSteps.dfy`, `BTreeShrink.dfy` | same names | how the tree lies in the pages of its file, and each step on them |
| `BTreeHeight.dfy`, `BTreeLeaves.dfy` | same names | what an operation does to the height of the tree and to its leaves |
| `NodeOps.dfy` | `NodeOps` | the loops that shift rows and children inside a node |
| `BTree.dfy` | `BTrees` | the tree over a buffer pool and the record store |
| `Records.dfy` | `RecordStores` | records, the comparators and the two handlers |
| `MyJql.dfy` | `MyJqls` | get, set, del, close and reopen; ownership of every record and chunk |
| `Runs.dfy` | `Runs` | whole histories against a map |

## Conventions

* Addresses count pages: the file offset `k * PAGE_SIZE` is the number `k`.
* A cell is one byte of a page or an item. A field of several bytes keeps its value in its first
  cell and zero in the others; sizes and offsets are those of the C structs. Overflow of those
  fields is not modelled.
* Pages of the index file and of the free-space map have typed views (control page, node;
  control page, directory, block). A page just appended to a file holds arbitrary contents, which
  may look like any of them.
* Where C writes through the pointer that `get_page` returned, the model changes a copy of the
  frame and puts it back while the page is still pinned. `Put` demands that the page is pinned, so
  every such write of the original is shown to hit a frame that cannot have been evicted. That no
  operation fetches while all frames are pinned by other pages is a precondition of `Fetch`. The tree
  fetches through `Pin`, which also demands that the page is not pinned yet and that at most four
  others are; the free-space map through `Get`, which allows it three pages of its own.
* `DEGREE` is a symbolic constant, at least 2.
* Keys are compared through `Rank`, an order embedding of strings into the reals, so that the tree
  can be reasoned about with plain inequalities; `KeyOrder` ties it to the lexicographic order.
* In a split that copies a separator the model calls `insert_handler` just before the loops that
  move row pointers, not in the middle of them; it touches none of the pages of the index.
* In the search loop of `hash_table_pop_lower_bound` the test of the size comes before the test of
  the directory entry, so that the page past the directories is fetched but not read as one.
* The declaration of `get_string_size` in `include/str.h:55` lacks the parameter that its
  definition in `src/str.c:49` has; the model follows the definition.

## What is proved

* **Histories.** `Runs.Run`: for every sequence of set, get, del and restart from an empty store
  the answers are those of a map, and each is the right one in terms of the calls before it
  (`Runs.RightAnswer`): a get finds the value of the last call that touched its key, in full length
  and cut off at `max_size`, if that call was a set, and nothing otherwise.
* **Restarts.** Closing writes every occupied frame back, and reopening the files gives the same
  pairs. Pages that were cut off from a file in memory come back with it; exactly these are lost to
  the tree and to the free-space map from then on.
* **The tree.** `Insert` and `Delete` keep the tree well formed and the set of entries exact, through
  all splits, borrows, merges, root splits and root collapses. Well-formed means: sorted nodes,
  left < separator <= right, one level per distance to the leaves, parents and children inverse to
  each other, `DEGREE - 1` to `2 * DEGREE - 1` keys in all nodes but the root, every record in one
  slot of one node. An insertion changes one leaf, or parts it in two of `DEGREE` entries, and no
  other leaf (`Entered`); a deletion changes one leaf, or also evens it out with one neighbour, by
  the rules of the source for borrowing and merging (`Departed`). A search answers (-1, 0) if and
  only if no entry has the key.
* **Pages of the tree.** An operation takes pages from the head of the free queue and appends to the
  file only when the queue is empty (`Drawn`); it gives pages back to the tail of the queue, or cuts
  the file off if and only if it gives back the last page (`Shed`). `MyJql.NoPageLeaks`: between calls every page of the index but the control
  page is reached from the root through child pointers, or is in the free queue, or was lost at a
  restart, and only one of these. A new store has lost none, and no call but a restart loses any
  (`Runs.History`).
* **Ownership.** `MyJql.NothingLeaks`: between calls, the live records are the leaf entries and the
  separators, each in one slot; the live chunks are those of their keys and values, each in one
  string of one record.
* **The heap.** A table is a map from record ids to items; every block is filed exactly once, under
  exactly its free size, which is the largest size that it has room for, so what the index offers
  has room. An item goes into the first free slot of a block with the least sufficient free size,
  and the file grows only if no block has room (`BestFit`). A page has room for an item if and only
  if header, ids and items, with those of the new one, fit on it (`Blocks.RoomIsSpace`).
* **The free-space map.** It is a bag of addresses for each size; `PopLowerBound` takes from the
  smallest nonempty bag that is large enough. Free blocks list themselves first, and every page is
  in the list of one size, or free, or belongs to nothing (`HashMap.PagesOwned`); insertion and
  removal leave the pages that belong to nothing as they are. The layout of the file after an
  insertion or a removal is a function of the one before (`AddrFiled`, `AddrUnfiled`).
* **The cache.** It is a flat file to its clients; a page leaves it only if all eight frames are
  occupied, and what leaves is the page that was not pinned and whose last lookup lies furthest back
  among all lookups since the file was opened (`asked`).
* **What does not hold.** `hash_table_pop_lower_bound` does not always release what it pins. It leaves
  a page pinned that was not, the one past the directories, if and only if nothing is filed under
  that size or a larger one and that page was not pinned before; it appends that page, which then
  belongs to nothing, if and only if nothing is filed there and the file ends with the directories
  (`HashMaps.HashMap.PopLowerBound`; `HashMaps.PopFromEmpty` shows both). An item of size 0 may be offered a block without room
  (`Tables.FreeSizeRoom` says exactly when, `Tables.EmptyItemHasNoRoom` gives a block).

## Model

| member | source | states |
|---|---|---|
| Runs.Run | src/myjql.c:31-199 | the answers to any history of get, set, del and restart from empty files are those of a map, each right in terms of the calls before it |
| Runs.RightAnswer | src/myjql.c:128-199 | a get answers -1 if and only if no call touched its key or the last one that did was not a set; else the length of the value set and its first max_size characters; other calls answer nothing |
| Runs.LastSetWins | src/myjql.c:128-199 | a key has value v after a history if and only if some call sets it to v and no later call sets or deletes it |
| Runs.History | src/myjql.c:31-199 | as Run, for any empty store, and without a restart no page of the index is lost |
| Runs.CloseAndOpen | src/myjql.c:31-46 | a closed and reopened store holds the same pairs; the tree loses exactly the pages that had been cut off |
| Runs.Perform | src/myjql.c:128-199 | one call changes the map, and answers, as the map operation does, and loses no page of the index |
| MyJqls.MyJql.Init | src/myjql.c:31-35 | on empty files the store is the empty map, with all invariants of the stack |
| MyJqls.MyJql.Get | src/myjql.c:128-145 | -1 and an untouched buffer for an absent key; else the full length, and the first max_size characters copied |
| MyJqls.MyJql.Set | src/myjql.c:147-184 | exactly this key changes, to this value |
| MyJqls.MyJql.SetNew | src/myjql.c:151-163 | the branch of an absent key: a new record with two new strings, indexed |
| MyJqls.MyJql.SetOld | src/myjql.c:165-183 | the branch of a present key: unindexed, value string and record replaced, indexed again |
| MyJqls.MyJql.Del | src/myjql.c:186-199 | exactly this key goes |
| MyJqls.MyJql.NothingLeaks | src/myjql.c:96-126 | between calls every live record is in exactly one slot of the tree and every live chunk in exactly one string of one record, and conversely |
| MyJqls.MyJql.NoPageLeaks | src/b_tree.c:792-846 | every page below the length but the control page is reached from root_node, or queued, or lost at a restart, one of these only; the queue runs from head to tail with free_node_num pages |
| MyJqls.MyJql.Close | src/myjql.c:37-46 | the closed files hold the pairs of the session |
| MyJqls.MyJql.Reopen | src/myjql.c:31-35 | a store opened on files that hold the pairs has them, whatever the files grew to in between |
| MyJqls.RecordsOwned | src/b_tree.c:237-263 | records are the slots of a well-formed tree, one each; those of leaves, and only those, have values |
| MyJqls.ChunksOwned | src/myjql.c:120-126 | chunks are the disjoint union of the chains of keys and values in use |
| MyJqls.PagesAccounted | src/b_tree.c:792-846 | the same for any pages that show a well-formed tree |
| MyJqls.ReachedNode | src/b_tree.c:86-115 | whatever child pointers lead to from root_node is a node of the tree |
| MyJqls.TreeKept | src/myjql.c:165-181 | a tree stays well formed when only records that it does not reference come and go |
| RecordStores.RecordStore.CompareRecords | src/myjql.c:48-59 | the sign of the key order on two records, changing nothing |
| RecordStores.RecordStore.CompareKey | src/myjql.c:61-94 | the same sign for a key in memory, although only two characters more than it has are loaded |
| RecordStores.CompareLoaded | src/myjql.c:74-93 | comparing against the loaded prefix equals comparing against the whole string |
| RecordStores.RecordStore.InsertHandler | src/myjql.c:96-118 | a fresh record with an equal key and no value; no other record changes |
| RecordStores.RecordStore.DeleteHandler | src/myjql.c:120-126 | exactly that record and its key string go |
| RecordStores.RecordStore.NewRecord | src/myjql.c:154-160 | a fresh record that owns two fresh strings, the key and the value |
| RecordStores.RecordStore.ReplaceValue | src/myjql.c:169-179 | the value string is exchanged and the key string kept; the record id may be reused |
| RecordStores.RecordStore.DropRecord | src/myjql.c:194-198 | the record and both its strings go |
| RecordStores.RecordStore.ReadValue | src/myjql.c:138-144 | full length and truncated copy of the value |
| RecordStores.RecordAdded | src/myjql.c:157-160 | strings at hand become those of a new record; every string still has one user |
| RecordStores.RecordRemoved | src/myjql.c:194-198 | the strings of a record that goes, and no others, come to hand |
| BTrees.BTree.Search | src/b_tree.c:32-119 | (-1, 0) if and only if no entry has that key, else the record id of the entry that has it; separators may equal deleted keys |
| BTrees.BTree.Insert | src/b_tree.c:121-399 | of an absent key: the tree is well formed and references the record too; only the leaf with the key in range changes, or is parted in two of DEGREE entries; no page is lost, the file grows only once the queue is empty, and the height grows only with a new root; answers (-1, 0) |
| BTrees.BTree.Delete | src/b_tree.c:401-752 | of a present key: the tree is well formed and references all but that entry; only its leaf changes, or it borrows from or is merged with one neighbour, as the source prefers them; no page is lost, the file is cut off if and only if its last page is given back, and the height shrinks only with the root |
| BTrees.BTree.Init | src/b_tree.c:6-26 | an empty file becomes two pages with a tree of one empty leaf, an empty queue and no lost page |
| BTrees.BTree.Close | src/b_tree.c:28-30 | the closed file holds the tree, and what it will lose is what had been cut off |
| BTrees.BTree.Reopen | src/b_tree.c:6-26 | the reopened file shows the same well-formed tree, with exactly those pages lost |
| BTrees.BTree.Pin | src/buffer_pool.c:51-66 | the tree never fetches a page that it holds, and never holds more than five |
| BTrees.BTree.LowerBoundKey | src/b_tree.c:758-773 | the first position whose key is not less than the given key |
| BTrees.BTree.LowerBoundRecord | src/b_tree.c:774-790 | the same for the key of a record |
| BTrees.BTree.GetNewNode | src/b_tree.c:792-810 | the head of the queue leaves it, or -1 exactly when the queue is empty; the file keeps its length and pinned pages their contents |
| BTrees.BTree.NewNode | src/b_tree.c:161-164 | the head of the queue if there is one, else one more page of the file, in hand and pinned; pages stay conserved |
| BTrees.BTree.ReleaseNode | src/b_tree.c:811-846 | the page is cut off if it is the last one, and otherwise becomes the tail of the queue; pages stay conserved |
| BTrees.BTree.FindLeaf | src/b_tree.c:130-156 | the descent ends in the only leaf whose range contains the key, at its lower bound |
| BTrees.BTree.InsertIntoLeaf | src/b_tree.c:381-387 | the record enters at its position, by shifting |
| BTrees.BTree.SplitLeafNode | src/b_tree.c:155-195 | the pages show the leaf with the new key cut at DEGREE |
| BTrees.BTree.SplitInnerNode | src/b_tree.c:212-315 | the pages show the node cut around its middle key, which is handed up, with all parents updated |
| BTrees.BTree.SplitRoot | src/b_tree.c:341-376 | a new root over both halves |
| BTrees.BTree.Separator | src/b_tree.c:237-242 | the first separator is a fresh copy, later ones are the keys moved up |
| BTrees.BTree.SplitUpwards | src/b_tree.c:205-377 | the cascade ends, with a well-formed tree and the same entries, and leaves the leaves as the first split dealt them |
| BTrees.BTree.FindIndex | src/b_tree.c:443-448 | the position of a child in its parent |
| BTrees.BTree.BorrowLeftLeaf | src/b_tree.c:450-468 | well formed again after a key moved over from the left leaf |
| BTrees.BTree.BorrowRightLeaf | src/b_tree.c:474-493 | well formed again after a key moved over from the right leaf |
| BTrees.BTree.Reseparate | src/b_tree.c:461-462 | the separator of two leaves is destroyed and replaced by a copy of the right leaf's first key |
| BTrees.BTree.MergeLeaf | src/b_tree.c:499-528 | two leaves become one, the left neighbour being preferred; the separator is due for deletion in the parent |
| BTrees.BTree.DropSeparator | src/b_tree.c:537-550 | separator and child leave the parent, the handler destroying the separator of leaves only |
| BTrees.BTree.BorrowLeftInner | src/b_tree.c:565-593 | well formed again after a key and a child moved over from the left |
| BTrees.BTree.BorrowRightInner | src/b_tree.c:599-626 | well formed again after a key and a child moved over from the right |
| BTrees.BTree.MergeInner | src/b_tree.c:631-688 | two inner nodes become one around the pulled-down separator |
| BTrees.BTree.FallToParent | src/b_tree.c:536-714 | one round of the merge loop ends the deletion or goes on strictly higher |
| BTrees.BTree.FallToRoot | src/b_tree.c:536-714 | the merge loop ends with a well-formed tree, the same leaves, and every emptied page given back |
| BTrees.BTree.CollapseRoot | src/b_tree.c:697-709 | the only child of an empty root becomes the root |
| BTrees.BTree.Rebalance | src/b_tree.c:433-717 | a thin leaf borrows from its left neighbour, else from its right one, else is merged, and the tree is repaired up to the root, keeping the entries |
| NodeOps.ShiftInsert | src/b_tree.c:382-384 | the shift loop inserts at a position |
| NodeOps.ShiftDelete | src/b_tree.c:423-424 | the shift loop removes a position |
| NodeOps.CopyBehind | src/b_tree.c:507-509 | the copy loop appends one row to another |
| NodeOps.SplitRow | src/b_tree.c:174-195 | both branches of the split deal out the row with the new key inserted |
| NodeOps.SpreadKids | src/b_tree.c:271-284 | the loop builds the children with the new page inserted |
| BTreeModel.AddKeyOk | src/b_tree.c:381-387 | adding an entry in the gap of its leaf keeps the tree well formed |
| BTreeModel.CutLeafOk | src/b_tree.c:161-195 | a leaf cut in two is well formed with the upper half pending |
| BTreeModel.CutInnerOk | src/b_tree.c:219-303 | an inner node cut around a key is well formed with the upper half pending and the key unreferenced |
| BTreeModel.LinkOk | src/b_tree.c:316-335 | a pending half hung into its parent beside the separator makes the tree whole |
| BTreeModel.NewRootOk | src/b_tree.c:341-365 | a new root over a split root makes the tree whole |
| BTreeDeletion.RemoveKeyOk | src/b_tree.c:423-425 | removing a leaf key leaves all bounds and separators valid |
| BTreeDeletion.MergeOk | src/b_tree.c:504-550 | merging two children keeps everything but the number of keys; a leaf separator becomes unreferenced |
| BTreeDeletion.CollapseOk | src/b_tree.c:699-708 | replacing an empty root by its only child keeps the tree well formed |
| BTreeDeletion.RecordsChange | src/myjql.c:96-126 | the handlers touch only records that the tree does not reference |
| BTreeBorrow.RecutLeavesOk | src/b_tree.c:450-493 | a borrow between leaves is a merge and a cut elsewhere: well formed with the copied separator |
| BTreeBorrow.RecutInnerOk | src/b_tree.c:565-626 | a borrow between inner nodes is a rotation through the parent: well formed |
| BTreeSearch.BelowRoot | src/b_tree.c:205-376 | only the root is on the root's level and nothing is above it |
| BTreeSearch.OnePage | src/b_tree.c:75-116 | on each level one page at most has a given key in its range |
| BTreeSearch.EntryInLeaf | src/b_tree.c:85-114 | a leaf whose range contains the key of an entry holds that entry |
| BTreeSearch.AbsentEntry | src/b_tree.c:104-110 | missing a key in its leaf means that no entry has it |
| BTreeSearch.Reachable | src/b_tree.c:32-119 | every page is reached from the root, all leaves in equally many steps |
| BTreeSteps.SplitInnerOk | src/b_tree.c:212-315 | splitting a full parent while linking keeps fill and order and hands up the middle key |
| BTreePages.TakeFree | src/b_tree.c:795-804 | taking the head keeps the queue linked, counted and disjoint from the tree |
| BTreePages.GiveBack | src/b_tree.c:827-845 | queueing a page at the tail keeps the queue linked, counted and disjoint |
| BTreePages.Truncate | src/b_tree.c:813-824 | cutting off the last page conserves the others |
| BTreePages.TreeFileExtended | src/b_tree.c:813-824 | pages that reappear when the file is opened again are lost to the tree and harm nothing |
| BTreePages.DrawnOn | src/b_tree.c:792-810 | operations that take pages from the queue first do so one after the other |
| BTreePages.ShedOn | src/b_tree.c:811-846 | operations that cut off or queue the pages they give back do so one after the other |
| BTreeHeight.NewRootGrows | src/b_tree.c:341-376 | a root split puts the root one level higher and moves no other page |
| BTreeHeight.CollapseShrinks | src/b_tree.c:697-709 | a root collapse is the reverse of growth |
| BTreeHeight.SplitInnerExtends | src/b_tree.c:212-315 | an inner split keeps the root and the level of every page |
| BTreeHeight.HalfMergedExtends | src/b_tree.c:499-528 | a merge keeps the root and the level of every remaining page |
| BTreeLeaves.SplitLeafParts | src/b_tree.c:168-195 | a leaf split keeps the first DEGREE entries, moves the others to the new leaf and changes no other leaf |
| BTreeLeaves.SplitInnerLeaves | src/b_tree.c:212-315 | an inner split changes no leaf |
| BTreeLeaves.RecutShared | src/b_tree.c:450-493 | a borrow between leaves shares out their entries anew and changes no other leaf |
| BTreeLeaves.InnerRecutLeaves | src/b_tree.c:565-626 | a borrow between inner nodes changes no leaf |
| KeyOrder.RankLess | src/str.c:71-91 | the embedding preserves and reflects the lexicographic order |
| KeyOrder.LessFirst | src/str.c:71-91 | a string is less if and only if at the first position where they differ it has ended or has the smaller character |
| KeyOrder.CompareRank | src/str.c:71-91 | the three-way comparison is the sign of a total order |
| StringTables.StringTable.Write | src/str.c:93-136 | a new string under a new root; all other strings stay |
| StringTables.StringTable.Erase | src/str.c:138-149 | exactly that string goes, with all its chunks |
| StringTables.StringTable.Load | src/str.c:160-171 | what was written comes back, truncated at max_size |
| StringTables.TextWritten | src/str.c:93-136 | chunks stay partitioned among strings when one is written |
| StringTables.TextErased | src/str.c:138-149 | chunks stay partitioned among strings when one is erased |
| Strings.StringRecord.HasNextChar | src/str.c:13-30 | whether the cursor is before the end of the string |
| Strings.NextChar | src/str.c:32-47 | the next character, crossing to the next chunk where needed |
| Strings.GetStringSize | src/str.c:49-70 | the length, and the cursor rewound |
| Strings.CompareStringRecord | src/str.c:71-91 | the lexicographic comparison of what is left of two strings |
| Strings.WriteString | src/str.c:93-136 | a chain of fresh chunks that spells the data, built back to front; nothing else changes |
| Strings.DeleteString | src/str.c:138-149 | exactly the chunks of the chain go |
| Strings.LoadString | src/str.c:160-171 | the next characters up to max_size, the rest of the buffer untouched |
| Strings.SpellsOne | src/str.c:93-136 | a chain of chunks spells one string only |
| Strings.StandingChunk | src/str.c:13-47 | what the loaded chunk tells about the rest of the string |
| Strings.PieceFacts | src/str.c:95-103 | every chunk but the last is full, and the pieces cover the string |
| Tables.Table.Read | src/table.c:28-43 | the bytes of a live item, changing nothing |
| Tables.Table.Insert | src/table.c:45-84 | a record id that was not live, in the first free slot of a block with the least sufficient free size, or of a new block if none has room; every other item stays |
| Tables.Table.Delete | src/table.c:86-130 | exactly that item goes, and the file keeps its length; a slot not in use is left alone |
| Tables.Table.Claim | src/table.c:52-66 | of the blocks with room one with the least free size, or a new one if and only if none has room, taken out of the index |
| Tables.FreeSizeOf | src/table.c:69-80 | the free size of a block, as the index records it: by FreeSizeRoom and NoRoomAbove the largest it has room for |
| Tables.FreeSizeRoom | src/table.c:69-80 | exactly when a block filed under at least some size has room for it |
| Tables.NoRoomAbove | src/table.c:69-80 | a block has no room for more than the size it is filed under |
| Tables.FitOffered | src/table.c:52-56 | a block from the smallest nonempty bucket that is large enough is a best fit |
| Tables.EmptyItemHasNoRoom | src/table.c:76-79 | a block for which size 0 fails |
| Tables.SlotChanged | src/table.c:45-130 | a change of one slot of one page is a change of one item |
| Tables.Unfiled | src/table.c:52-66 | what the index offers is a block of exactly that free size, filed nowhere else |
| HashMaps.HashMap.Insert | src/hash_map.c:34-108 | one more address under that size, behind those of the first block with room or in a new last block, which is the page that get_new_hash_block hands out or else one more page; the exact layout and length afterwards; no new pin, no page lost |
| HashMaps.HashMap.Pop | src/hash_map.c:156-286 | the first occurrence of the address goes and the last item of its block fills the gap; an emptied block leaves its list, and is cut off if it is the last page and free otherwise; the exact layout and length afterwards; no new pin, no page lost |
| HashMaps.HashMap.PopLowerBound | src/hash_map.c:111-153 | the last item of the first block of the smallest nonempty bucket from that size on goes, -1 only if all are empty; the exact layout and length afterwards, and the exact conditions of a new pin and of a new page |
| HashMaps.PopFromEmpty | src/hash_map.c:121-133 | on an empty map the page past the directories is appended, stays pinned and belongs to nothing |
| HashMaps.HashMap.PagesOwned | src/hash_map.c:324-404 | every page past the directories is in the list of one size, or free and listed once, or belongs to nothing |
| HashMaps.HashMap.MyHashTablePop | src/hash_map.c:406-467 | the item at that index of the first block goes |
| HashMaps.HashMap.GetNewHashBlock | src/hash_map.c:324-350 | the last page listed by the first free block, which may be that block itself, -1 exactly if there is none; bucket pages stay |
| HashMaps.HashMap.ReleaseNewHashBlock | src/hash_map.c:352-404 | an emptied page becomes a free page, listed by the first free block with room, or else by itself |
| HashMaps.HashMap.TakeItem | src/hash_map.c:173-214 | the gap is filled with the last item |
| HashMaps.HashMap.Find | src/hash_map.c:163-231 | the walk ends at the first block and position of an address that is there |
| HashMaps.HashMap.Init | src/hash_map.c:5-27 | an empty file becomes an empty map with nothing pinned and no page that belongs to nothing |
| HashMaps.HashMap.Close | src/hash_map.c:30-32 | the closed file holds the buckets, and what will belong to nothing is what had been cut off |
| HashMaps.HashMap.Reopen | src/hash_map.c:5-27 | the reopened file holds the same buckets, and exactly the pages that had been cut off belong to nothing besides those before |
| HashChains.ChainUnlinked | src/hash_map.c:236-242 | unlinking a block by its predecessor keeps a list |
| HashChains.ChainAppended | src/hash_map.c:81-97 | a new last block keeps a list |
| HashChains.HeldUpdate | src/hash_map.c:74-77 | what a list holds after one block changed |
| HashSteps.SwappedCounts | src/hash_map.c:206-214 | swap-with-last removes exactly one occurrence |
| HashSteps.BlockLinked | src/hash_map.c:43-98 | a page in hand joins the list of a size: every page keeps one owner |
| HashSteps.BlockUnlinked | src/hash_map.c:174-205 | a block that lost its last address leaves its list and comes to hand |
| HashSteps.Located | src/hash_map.c:171-281 | the walk cannot miss an address that is in the list |
| HashSteps.FileExtended | src/hash_map.c:187-199 | pages that reappear when the file is opened again belong to nothing |
| HashFree.FreeTaken | src/hash_map.c:328-343 | the page handed out lists no other; the rest of the free list is intact |
| HashFree.FreeGiven | src/hash_map.c:358-402 | a page listed in a block, or listing itself, keeps the free list sound |
| HashFree.FirstRoomFacts | src/hash_map.c:64-69 | the walk to a block with room ends at the first one |
| Blocks.PackedId | include/block.h:31-37 | the three fields of an item id, composed and taken apart by the macros, do not disturb one another |
| Blocks.FieldsOf | include/block.h:31-33 | the shifts and masks take an id apart by division and remainder |
| Blocks.ItemIdIsSum | include/block.h:35 | the shifts, masks and ors put an id together by addition |
| Bits.MaskIsRemainder | include/block.h:31-35 | and with k ones is the remainder by the k-th power of two |
| Bits.ShiftIsQuotient | include/block.h:31-32 | a shift to the right is a division |
| Bits.OrIsSum | include/block.h:35 | or of numbers without a common digit is their sum |
| Blocks.InitBlock | src/block.c:5-9 | an empty well-formed page |
| Blocks.GetItem | src/block.c:11-25 | where a live item starts; nothing for any other index |
| Blocks.NewItem | src/block.c:27-53 | the first free slot, or a new one if none is free, holds the item; all other slots keep theirs |
| Blocks.RoomIsSpace | src/block.c:27-53 | there is room if and only if header, ids and items, with those of the new one, fit on a page: no cell of a well-formed page is wasted |
| Blocks.DeleteItem | src/block.c:55-93 | that slot is freed, or dropped if it is the last; all other slots keep their items; errors change nothing |
| Blocks.RewriteIds | src/block.c:66-75 | items at or below the deleted one get their new offsets |
| Blocks.ShiftUp | src/block.c:77-82 | the overlapping backward shift moves the stretch intact |
| Blocks.PlacedOk | src/block.c:29-51 | live items still tile the page without overlap |
| Blocks.CompactedOk | src/block.c:64-91 | after compaction live items tile the page and no other slot's cells changed |
| BufferPools.BufferPool.Open | src/buffer_pool.c:7-30 | eight empty frames over the file |
| BufferPools.BufferPool.GetPage | src/buffer_pool.c:44-125 | the page of the flat file; NULL exactly for an address past the end or with all frames pinned by other pages; a page leaves only a full cache, and it is the unpinned one whose last lookup is the oldest of the history |
| BufferPools.OldestByStamps | src/buffer_pool.c:79-88 | the least recent by stamps is the one whose last lookup lies furthest back in the history |
| BufferPools.StampsNext | src/buffer_pool.c:51-62 | a hit makes its page the last looked up and leaves the order of the others |
| BufferPools.BufferPool.ChooseFrame | src/buffer_pool.c:70-92 | the first empty frame, or, with eight pages cached, the oldest unpinned one; none only if eight pages are pinned |
| BufferPools.BufferPool.FindVictim | src/buffer_pool.c:79-88 | the unpinned frame of greatest age |
| BufferPools.BufferPool.Touch | src/buffer_pool.c:51-62 | a lookup pins its page if it is cached and becomes its last one; whether there is a hit |
| BufferPools.BufferPool.AgeAll | src/buffer_pool.c:51-62 | the hit loop ages all frames but the one asked for, which it marks and finds |
| BufferPools.BufferPool.TakeFrame | src/buffer_pool.c:97-116 | reusing a frame loses nothing of the flat file |
| BufferPools.BufferPool.Put | src/buffer_pool.c:64-65 | a write to a pinned frame is a write to the flat file, and no lookup |
| BufferPools.BufferPool.Release | src/buffer_pool.c:127-139 | the one-bit pin is cleared, however often the page was requested; the order of lookups stays |
| BufferPools.BufferPool.DropLast | src/b_tree.c:813-824 | the flat file loses its last page; the order of lookups of the others stays |
| BufferPools.BufferPool.Close | src/buffer_pool.c:32-42 | the disk holds the flat file up to its length |
| BufferPools.PinnedCount | src/buffer_pool.c:79-92 | no frame can be chosen if and only if eight pages are pinned |
| BufferPools.FullCache | src/buffer_pool.c:70-76 | without an empty frame eight pages are cached |
| BufferPools.Looked | src/buffer_pool.c:51-62 | ages stay pairwise distinct and ordered by the last request |

## Left out

- Overflow of counters, sizes, offsets, slot numbers and addresses: all are unbounded integers.
- `src/file_io.c`: a file is a sequence of pages; a read is in range, a write is in range or appends
  one page. FILE handles and I/O errors are not modelled.
- `main/` and `driver/`: sockets, threads, signals and consoles; one mutex makes all calls sequential.
- printf, `print_hash_table`, `print_rid`, `num_valid_pool` and other diagnostics.
- Calls outside their contract that only print: `b_tree_insert` of a present key, `b_tree_delete` of an
  absent one, `hash_table_pop` of an absent address, `get_item` of a dead slot by `table_read`. They are
  excluded by preconditions; `myjql_set` and `myjql_del` meet them by searching first.
- `prv` in hash blocks and `next` in tree nodes that are in use: never used to find a page.
- malloc, free, alignment and casts between pages and structs; stale characters behind the end of a
  loaded chunk.
- `table_get_total_blocks` and `table_block_get_total_items`: they only read a counter.
- Two pointers into one frame at the same time: pages of the index and of the free-space map are
  values that are changed and put back, slotted pages are copied to an array and back, and the rows
  of a node are shifted as sequences. What is written, and that it is written to a pinned frame, is
  modelled; the moment of each single store is not.
- Prompting the operating system to write: a page put into a frame reaches the disk on eviction or
  at close, and nothing is said about when the file system makes it durable.
- A crash between two calls: a restart is a close followed by an open.
