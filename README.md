# journal-graph in Dafny

This project models the core of journal-graph, a C++ program that:
- reads DBLP paper records;
- stores authors and papers in paged on-disk stores;
- builds citation and co-authorship graphs over them;
- runs graph algorithms on those graphs.

Each core source file becomes one Dafny module, in the source's own imperative form. Objects whose methods update fields are classes with `modifies` frames, and loops are `while` loops with invariants. Each method is proved against a pure specification function, and the properties the program relies on are proved as lemmas about those functions.

- `key_page.dfy` (`KeyPages`) covers key pages of the B-tree. Each one is a 4096-byte page: an `internal`/`root` header, a first child pointer, and up to 339 (key, pointer) cells. It also covers their byte layout and the binary search `find_pos`. The v1 store's `find_pos` (storage/btree_db.hpp:1002-1024) has the same text as the v2 one, and `KeyPages.FindPos` models both.
- `btree_spec.dfy` (`BTreeSpec`) is the B-tree as a pure value: pages, levels, key intervals and parents. It covers lookup by descent, pushing onto a leaf, and splitting a child and the root. The tree invariant is proved to be preserved, and every key is proved to look up what it did.
- `btree_v2.dfy` (`BTreeV2`) is the `BTreeDB` class of storage/btree_db_v2.hpp:
  - a page cache over a key file and a value file, with dirty flags;
  - `insert`, `find`, `get_id_from_name`;
  - the value store: `push`, `get_value`, `set_value`;
  - page splitting and `write_all`.
  `Insert` and `Find` are proved to behave as a map update and a map lookup over the stored entries.
- `btree_v1_cache.dfy` (`BTreeCacheV1`) is the two-way set-associative page cache of storage/btree_db.hpp. That includes the LRU bit and the re-entrant `get_page`/`write_page` pair.
- `btree_types.dfy` (`BTreeTypes`) holds the three entry types — author, paper and test — with their fixed-size serialisation and their match operators. `bytes.dfy` (`Bytes`) holds the little-endian integer codecs and the fixed-width C strings they use.
- `vector_db.dfy` (`VectorDb`) is the flat append-only store of storage/vector_db.cpp.
- `dblp_parser.dfy` (`DblpParser`) is the DBLP id codec (hex id strings to two 64-bit halves and back) and the record parser of misc/test_parser.cpp.
- The graphs:
  - `journal_graph.dfy`: the citation graph and its DFS idea history;
  - `bfs.dfy`: the undirected BFS of Dataset/bfs.cpp;
  - `author_graph.dfy`: the weighted co-authorship graph with its file format;
  - `tarjan.dfy`, `author_tarjan.dfy` and `weighted_tarjan.dfy`: the two Tarjan SCC programs;
  - `dijkstra.dfy`: the shortest path by predecessor chain;
  - `reach.dfy`: reachability, shared by the graph modules.
- `wrappers.dfy` holds the Option and Result types.

I/O is modelled as state: a file is a sequence or map of pages that the class holds. Exceptions are a failing outcome. Iteration over an `unordered_map` visits its keys in an unspecified order, written with `:|`.

## Model

| member | source | states |
|---|---|---|
| KeyPages.Sizes | storage/btree_db_v2.hpp:18-22 | with ORDER 337 and 12-byte cells, ORDER keys end at byte 16+4+337·12 = 4064 within the 4096-byte page, exactly 339 whole cells fit, and HALF is ORDER/2 |
| KeyPages.NewKeyPage | storage/btree_db_v2.hpp:980-1007 | a fresh key page has zero cells and the internal and root flags it was created with |
| KeyPages.KeyLayout | storage/btree_db_v2.hpp:667-685 | key i lies in the 8 bytes at 16+4+12i of the encoded page and reads back as the cell's key; the cell's pointer, child pointer i+1, follows at 16+4+12i+8 |
| KeyPages.ChildLayout | storage/btree_db_v2.hpp:739-761 | child pointer 0 is the 4 bytes at 16; child pointer j >= 1 is at 16+4+12(j-1)+8; both lie within the page and read back as that child pointer |
| KeyPages.HeaderLayout | storage/btree_db_v2.hpp:619-665 | the cell count is bytes 0..3, the internal flag byte 4 and the root flag byte 5 of the page |
| KeyPages.LowerBoundFinds | storage/btree_db_v2.hpp:1010-1035 | on sorted keys, a key is present exactly when it sits at its lower bound (the number of smaller keys) |
| KeyPages.FindPos | storage/btree_db_v2.hpp:1010-1035 | binary search: 0 on an empty page, never more than the page size, and on strictly increasing keys the index of the key if present, else the number of smaller keys; the v1 `find_pos` at storage/btree_db.hpp:1002-1024 has the same text and this member models it too |
| KeyPages.InsertAtEffect | storage/btree_db_v2.hpp:693-713 | a positional insert at loc <= size puts the key at loc in the key sequence, leaves cells and child pointers before loc and child pointer 0 untouched, moves cells loc..size-1 one slot right and grows the size by exactly one |
| KeyPages.InsertSorted | storage/btree_db_v2.hpp:716-736 | inserting a missing key at its lower bound keeps a sorted key sequence sorted |
| KeyPages.InsertLowerBound | storage/btree_db_v2.hpp:716-736 | after the insert, every other key's lower bound stays put if smaller and moves up by one if larger |
| KeyPages.PushSorted | storage/btree_db_v2.hpp:716-736 | `push` of a missing key keeps the page's keys sorted, with the key at its lower bound and the size one larger (the size written twice, at 712 and 735, with the same value) |
| KeyPages.PushFinds | storage/btree_db_v2.hpp:716-736 | after `push` onto a leaf, looking the pushed key up finds the new pointer, and every other key finds what it found before |
| KeyPages.SplitInternal | storage/btree_db_v2.hpp:787-803 | splitting a full internal page leaves ORDER/2 keys on each side and drops the middle key from both; the left keeps child pointers 0..168 and the right gets 169..337; also lines 965-976 |
| KeyPages.SplitLeaf | storage/btree_db_v2.hpp:804-813 | splitting a full leaf leaves ORDER/2+1 keys on the left, the middle key included, and ORDER/2 on the right, so no key is lost and each keeps its pointer |
| BTreeSpec.Route | storage/btree_db_v2.hpp:588-604 | the descent that takes child `find_pos(key)` on every internal page ends at a well-formed leaf, and looking the key up from a page is looking it up in that leaf |
| BTreeSpec.LookupOwner | storage/btree_db_v2.hpp:602-609 | a value entry found for key k was created for k |
| BTreeSpec.RouteBounds | storage/btree_db_v2.hpp:536-547 | if a page's key interval holds k, so does the interval of the leaf k descends to |
| BTreeSpec.ChildrenDistinct | storage/btree_db_v2.hpp:536-547 | the child pointers of an internal page of a well-formed tree name distinct pages |
| BTreeSpec.LeafPushLookup | storage/btree_db_v2.hpp:547-568 | pushing a missing key onto a leaf makes only that key, routed to that leaf, find the new entry; every other lookup is unchanged |
| BTreeSpec.LeafPushOk | storage/btree_db_v2.hpp:547-568 | pushing a key the tree lacks, with a fresh value entry, onto the leaf it descends to keeps the tree well formed (only that leaf may now be full) and makes lookup find the new entry for that key and change for no other key |
| BTreeSpec.MoveKeysHalves | storage/btree_db_v2.hpp:787-818 | `move_keys` on a full page yields the lower and upper halves the split lemmas use |
| BTreeSpec.HalfLeft | storage/btree_db_v2.hpp:787-818 | keys up to the middle key find in the lower half the child pointer or leaf entry they found in the full page |
| BTreeSpec.HalfRight | storage/btree_db_v2.hpp:787-818 | keys above the middle key find in the upper half, shifted by HALF+1, what they found in the full page |
| BTreeSpec.DividedKeeps | storage/btree_db_v2.hpp:965-977 | after a page is divided, descent from any other page finds what it found before |
| BTreeSpec.DividedParent | storage/btree_db_v2.hpp:965-977 | at the parent that took the middle key, keys up to it take the child they took before, and keys above it take the next child, the new page where that was the divided one |
| BTreeSpec.DividedLeft | storage/btree_db_v2.hpp:965-977 | keys up to the middle key look up through the lower half what they looked up through the full page |
| BTreeSpec.DividedRight | storage/btree_db_v2.hpp:965-977 | keys above the middle key look up through the new upper page what they looked up through the full page |
| BTreeSpec.SplitTreeOk | storage/btree_db_v2.hpp:965-977 | after `split_page(parent)` the tree invariant holds again and only the parent may be full |
| BTreeSpec.SplitChildOk | storage/btree_db_v2.hpp:965-977 | `split_page(parent)` on a full child keeps the tree invariant, grows the parent by exactly one key, leaves only the parent possibly full, and every key looks up what it did |
| BTreeSpec.SplitRootOk | storage/btree_db_v2.hpp:945-962 | `split_page()` on the full root puts the middle key in a new root above the two halves, keeps the tree invariant under the new root, leaves no page full, and every key looks up what it did |
| BTreeSpec.BoundsCompose | storage/btree_db_v2.hpp:536-547 | a key inside the interval of a child of a page is inside the page's own interval |
| BTreeSpec.LeafPush | storage/btree_db_v2.hpp:547-568 | pushing a key onto a leaf keeps the number of pages |
| BTreeSpec.LeafPushWf | storage/btree_db_v2.hpp:547-568 | pushing a key onto a non-full leaf keeps every page well formed |
| BTreeSpec.LeafPushCells | storage/btree_db_v2.hpp:547-568 | a key missing from a leaf and inside its interval, pushed with the next entry number, leaves that leaf's entries owned by their keys |
| BTreeSpec.LeafPushNode | storage/btree_db_v2.hpp:547-568 | the leaf a missing key descends to is sorted, lacks the key, bounds it, and stays well formed after the push |
| BTreeSpec.HalvesUnflagged | storage/btree_db_v2.hpp:949-955 | dividing the root works on its keys and cells whatever its root flag says |
| BTreeSpec.ParentKeys | storage/btree_db_v2.hpp:965-977 | the middle key pushed into its parent at the lower bound lands between the keys around it and keeps the keys sorted |
| BTreeSpec.ParentCellKeys | storage/btree_db_v2.hpp:965-977 | the parent's keys after the push are the old keys below the slot, the middle key, and the old keys above it |
| BTreeSpec.ParentStepLow | storage/btree_db_v2.hpp:965-977 | keys up to the middle key take the same child of the parent as before; also lines 588-604 |
| BTreeSpec.ParentStepHigh | storage/btree_db_v2.hpp:965-977 | keys above the middle key take the next child of the parent, the new page where that was the divided one; also lines 588-604 |
| BTreeSpec.PushChildBefore | storage/btree_db_v2.hpp:965-977 | child pointers up to the slot are unchanged by the push |
| BTreeSpec.PushChildAfter | storage/btree_db_v2.hpp:965-977 | child pointers above the slot move up by one and the new page follows the slot |
| BTreeSpec.ParentLinkLow | storage/btree_db_v2.hpp:965-977 | children up to the slot keep their pointers and intervals, except that the divided one now ends at the middle key |
| BTreeSpec.ParentLinkNew | storage/btree_db_v2.hpp:965-977 | the new page is the child after the slot and its interval runs from the middle key to the old upper bound |
| BTreeSpec.ParentLinkHigh | storage/btree_db_v2.hpp:965-977 | children above the slot move up by one with their intervals |
| BTreeSpec.SplitPages | storage/btree_db_v2.hpp:965-977 | splitting a child adds exactly one page |
| BTreeSpec.SplitShape | storage/btree_db_v2.hpp:965-977 | the page levels, bounds and parents after a split cover one more page |
| BTreeSpec.SplitBasics | storage/btree_db_v2.hpp:965-977 | the split child and its parent are distinct, the parent is one level up, not full, sorted, and its interval holds the child's |
| BTreeSpec.SplitAt | storage/btree_db_v2.hpp:965-977 | the middle key is missing from the parent, falls at the given slot, and keeps the parent's keys sorted |
| BTreeSpec.SplitWfParent | storage/btree_db_v2.hpp:965-977 | the parent stays well formed after taking the middle key |
| BTreeSpec.SplitWfHalves | storage/btree_db_v2.hpp:965-977 | both halves of the split child are well formed |
| BTreeSpec.SplitWf | storage/btree_db_v2.hpp:965-977 | every page is well formed after a split |
| BTreeSpec.SplitOldLink | storage/btree_db_v2.hpp:965-977 | children of the parent other than the split one keep their parent and intervals |
| BTreeSpec.SplitParentKept | storage/btree_db_v2.hpp:965-977 | the parent's links to children it already had stay valid |
| BTreeSpec.SplitParentPair | storage/btree_db_v2.hpp:965-977 | the parent links validly to both halves |
| BTreeSpec.SplitParentLinks | storage/btree_db_v2.hpp:965-977 | every child link of the parent is valid after a split |
| BTreeSpec.SplitNodeParent | storage/btree_db_v2.hpp:965-977 | the parent satisfies the node invariant after a split |
| BTreeSpec.SplitSpread | storage/btree_db_v2.hpp:965-977 | a split spreads the child over itself and the new page, as the shared spread lemmas expect |
| BTreeSpec.SplitNodesOk | storage/btree_db_v2.hpp:965-977 | every page satisfies the node invariant after a split |
| BTreeSpec.SplitDivided | storage/btree_db_v2.hpp:965-977 | a split divides the child as the lookup lemmas expect |
| BTreeSpec.RootSplitPages | storage/btree_db_v2.hpp:945-962 | splitting the root adds exactly two pages |
| BTreeSpec.RootSplitShape | storage/btree_db_v2.hpp:945-962 | the page levels, bounds and parents after a root split cover two more pages |
| BTreeSpec.RootParts | storage/btree_db_v2.hpp:945-962 | after a root split the old root and the last new page hold the halves, and the other new page is an internal page holding only the middle key |
| BTreeSpec.RootWfHalves | storage/btree_db_v2.hpp:945-962 | both halves of the old root are well formed |
| BTreeSpec.RootWf | storage/btree_db_v2.hpp:945-962 | every page is well formed after a root split |
| BTreeSpec.RootSpread | storage/btree_db_v2.hpp:945-962 | a root split spreads the old root over itself and the new page |
| BTreeSpec.RootNodeTop | storage/btree_db_v2.hpp:945-962 | the new root satisfies the node invariant |
| BTreeSpec.RootNodesOk | storage/btree_db_v2.hpp:945-962 | every page satisfies the node invariant under the new root |
| BTreeSpec.RootDivided | storage/btree_db_v2.hpp:945-962 | a root split divides the old root as the lookup lemmas expect |
| BTreeSpec.SpreadOldChild | storage/btree_db_v2.hpp:945-977 | children of pages other than the divided one keep their valid links, parents and intervals |
| BTreeSpec.SpreadLowChild | storage/btree_db_v2.hpp:787-818 | the lower half of an internal page keeps valid links to its children; also lines 945-977 |
| BTreeSpec.SpreadHighChild | storage/btree_db_v2.hpp:787-818 | the upper half of an internal page links validly to the children moved into it; also lines 945-977 |
| BTreeSpec.SpreadNodeLow | storage/btree_db_v2.hpp:945-977 | the lower half satisfies the node invariant |
| BTreeSpec.SpreadNodeHigh | storage/btree_db_v2.hpp:945-977 | the upper half satisfies the node invariant |
| BTreeSpec.SpreadNodeOther | storage/btree_db_v2.hpp:945-977 | pages the division leaves alone keep the node invariant |
| BTreeV2.BTreeDb.constructor | storage/btree_db_v2.hpp:405-421 | a new store (`create_new`) has empty files and caches and every counter zero; values_per_page is (4096-4)/T::size - 1 and at least 1 |
| BTreeV2.BTreeDb.GetKeyPage | storage/btree_db_v2.hpp:1082-1096 | `get_page(n, Key)` returns the page as the cache shows it, loading it from the key file on a miss; no page's view changes |
| BTreeV2.BTreeDb.SetDirtyKey | storage/btree_db_v2.hpp:1038-1049 | `set_dirty(n, Key)` fails exactly when page n is not cached, and otherwise marks only its block dirty |
| BTreeV2.BTreeDb.WriteKeyPage | storage/btree_db_v2.hpp:1062-1070 | `write_page(n, Key)` puts the cached buffer of page n into the file at n and changes nothing else |
| BTreeV2.BTreeDb.GetValuePage | storage/btree_db_v2.hpp:1097-1108 | `get_page(p, Value)` returns value page p as the cache shows it, loading it on a miss; no view changes |
| BTreeV2.BTreeDb.SetDirtyValue | storage/btree_db_v2.hpp:1050-1057 | `set_dirty(p, Value)` fails exactly when page p is not cached, and otherwise marks only its block dirty |
| BTreeV2.BTreeDb.WriteValuePage | storage/btree_db_v2.hpp:1071-1077 | `write_page(p, Value)` puts the cached buffer of value page p into the file at p |
| BTreeV2.BTreeDb.FlushKeys | storage/btree_db_v2.hpp:477-484 | the first loop of `write_all` leaves the key file as every dirty buffer written over its page |
| BTreeV2.BTreeDb.FlushValues | storage/btree_db_v2.hpp:487-493 | the second loop of `write_all` does the same for the value file |
| BTreeV2.KeysFlushedView | storage/btree_db_v2.hpp:472-493 | when every clean buffer equals its page in the file, the flushed key file holds exactly the pages the cache shows, and only those |
| BTreeV2.BTreeDb.WriteAll | storage/btree_db_v2.hpp:472-493 | unless read only, afterwards every key page in the file is the page the cache shows, and so is every value page when the value buffers were consistent; no view changes |
| BTreeV2.BTreeDb.PageSize | storage/btree_db_v2.hpp:619-625 | `get_size()` returns the cell count of page n, at most 339 |
| BTreeV2.BTreeDb.SetPageSize | storage/btree_db_v2.hpp:627-633 | `set_size(x)` changes the cell count of page n alone and marks it dirty |
| BTreeV2.BTreeDb.PageInternal | storage/btree_db_v2.hpp:635-641 | `is_internal()` returns page n's internal flag |
| BTreeV2.BTreeDb.SetPageInternal | storage/btree_db_v2.hpp:643-649 | `set_internal(x)` changes page n's internal flag alone and marks it dirty |
| BTreeV2.BTreeDb.PageIsRoot | storage/btree_db_v2.hpp:651-657 | `is_root()` returns page n's root flag |
| BTreeV2.BTreeDb.SetPageRoot | storage/btree_db_v2.hpp:659-665 | `set_root(x)` changes page n's root flag alone and marks it dirty |
| BTreeV2.BTreeDb.PageKey | storage/btree_db_v2.hpp:667-685 | `get_key(i)` fails, after `write_all`, exactly when i is at or past the size; otherwise it returns key i and writes no file |
| BTreeV2.BTreeDb.PageChild | storage/btree_db_v2.hpp:739-761 | `get_child_ptr(j)` fails, after `write_all`, exactly when j is past the size; otherwise it returns child pointer j |
| BTreeV2.BTreeDb.SetPageChild | storage/btree_db_v2.hpp:764-784 | `set_child_ptr(target, j)` fails exactly when j is past the size; otherwise only child pointer j of page n changes, and the page is dirty |
| BTreeV2.BTreeDb.PageInsert | storage/btree_db_v2.hpp:693-713 | the positional insert changes page n to `InsertAt` of it, whose effect `KeyPages.InsertAtEffect` states, and no other page |
| BTreeV2.BTreeDb.PageFindPos | storage/btree_db_v2.hpp:1010-1035 | `find_pos` on page n returns at most its size, 0 when it is empty, and the lower bound of the key when its keys are sorted |
| BTreeV2.BTreeDb.PagePush | storage/btree_db_v2.hpp:716-736 | `push` is a positional insert at some loc <= size, and on sorted keys it is the insert at the lower bound; no other page changes |
| BTreeV2.BTreeDb.MovePageKeys | storage/btree_db_v2.hpp:787-818 | `move_keys` turns pages n and m into the two halves `MoveKeys` describes (see `KeyPages.SplitInternal` and `KeyPages.SplitLeaf`), both dirty |
| BTreeV2.BTreeDb.CreateNewKeypage | storage/btree_db_v2.hpp:980-1007 | a new page appended as the next page number: the file gets a zero page, the cache a page with the given size and flags |
| BTreeV2.BTreeDb.SplitChildPage | storage/btree_db_v2.hpp:965-977 | `split_page(parent)` appends one page, and the key pages become `SplitPages` of the old ones |
| BTreeV2.BTreeDb.SplitRootPage | storage/btree_db_v2.hpp:945-962 | `split_page()` appends two pages, the new root being the first, and the key pages become `RootSplitPages` of the old ones |
| BTreeV2.BTreeDb.ValueGetSize | storage/btree_db_v2.hpp:915-928 | `get_size(p)` fails, after `write_all`, exactly when p is past the page count, and otherwise returns the size header of page p |
| BTreeV2.BTreeDb.ValueSetSize | storage/btree_db_v2.hpp:931-942 | `set_size(size, p)` fails exactly when p is past the page count, and otherwise changes only the size header of page p, marking it dirty |
| BTreeV2.EntryInRange | storage/btree_db_v2.hpp:835-850 | under the push layout, entry e passes both range checks of `get_value` (its page n/values_per_page exists, its slot n%values_per_page is below that page's size) exactly when e is below the entry count |
| BTreeV2.PushSlot | storage/btree_db_v2.hpp:888-912 | `push` opens a new page exactly when there is none or the last is full; the new entry lands at page n/values_per_page, slot n%values_per_page, just past the last page's old size |
| BTreeV2.BTreeDb.GetValue | storage/btree_db_v2.hpp:835-863 | `get_value(e)` fails, after `write_all`, exactly when the page or the slot is out of range, and otherwise returns entry e's value |
| BTreeV2.BTreeDb.SetValue | storage/btree_db_v2.hpp:866-885 | `set_value(v, e)` fails exactly when e's page is past the count; otherwise entry e alone takes the value and its page is dirty |
| BTreeV2.BTreeDb.ValuePush | storage/btree_db_v2.hpp:888-912 | `push` returns the old entry count, raises it by one and stores the value as that entry; no other entry changes |
| BTreeV2.FirstLeafOk | storage/btree_db_v2.hpp:520-526 | the tree the first `insert` builds, one root leaf holding the key with entry 0, is a well-formed B-tree where only that key finds something |
| BTreeV2.LeafStep | storage/btree_db_v2.hpp:556-561 | pushing a new key into its leaf with the next entry number leaves a tree ready for the split loop, where only that key finds something new |
| BTreeV2.BTreeDb.Descend | storage/btree_db_v2.hpp:529-544 | the descent loop ends at the leaf the key routes to and records the pages on the way; no page changes |
| BTreeV2.BTreeDb.Cascade | storage/btree_db_v2.hpp:560-578 | the split loop and the final root split restore the B-tree invariant with no page full, and every key looks up what it did before |
| BTreeV2.BTreeDb.Overwrite | storage/btree_db_v2.hpp:550-555 | `insert` of a present key changes that key's value alone and writes no key page |
| BTreeV2.BTreeDb.AddEntry | storage/btree_db_v2.hpp:557-578 | `insert` of a new key raises the entry count by one, makes that key find the new entry and leaves every other lookup and every other entry's value as it was |
| BTreeV2.BTreeDb.Insert | storage/btree_db_v2.hpp:515-579 | on a read-only store nothing changes; otherwise afterwards `find` reports the new value for the key and the old one for every other key, and the entry count grows by one exactly when the key was absent |
| BTreeV2.BTreeDb.Find | storage/btree_db_v2.hpp:582-613 | `find` fails, after `write_all`, exactly on a store with no entries; otherwise it returns the last value inserted for the key, or `T()` when it is absent, and changes nothing `find` reports |
| BTreeV2.BTreeDb.GetIdFromName | storage/btree_db_v2.hpp:1114-1123 | the id of the first stored entry, in entry order, that the value type's match operator pairs with the search value, or -1 when none does; no entry changes |
| BTreeV2.BTreeDb.NewEntryGet | storage/btree_db_v2.hpp:557-558 | a new last entry for a key changes what `find` reports for that key alone |
| BTreeV2.KeyViews | storage/btree_db_v2.hpp:1082-1096 | the key pages as the program sees them: one per page number, the cached copy if there is one, else the file's |
| BTreeV2.KeysFlushed | storage/btree_db_v2.hpp:477-484 | after flushing, the file holds the pages it held and every dirty cached page |
| BTreeV2.ValuesFlushed | storage/btree_db_v2.hpp:487-493 | the same for the value file |
| BTreeV2.ValuesFlushedView | storage/btree_db_v2.hpp:487-493 | after flushing, the value file holds exactly the pages below the count, each as the cache showed it |
| BTreeV2.LoadedKeeps | storage/btree_db_v2.hpp:1082-1096 | loading a page into the cache changes no key page as the program sees it |
| BTreeV2.LoadedStore | storage/btree_db_v2.hpp:1038-1049 | writing a loaded page and marking it dirty changes that page's view alone; also lines 1082-1096 |
| BTreeV2.LoadedStoreTwo | storage/btree_db_v2.hpp:815-817 | two pages written in turn, as `move_keys` does, end as the two stores give |
| BTreeV2.AppendKeeps | storage/btree_db_v2.hpp:980-1007 | a new key page appended to the cache adds one page to the views and keeps the rest |
| BTreeV2.ViewsAfterSet | storage/btree_db_v2.hpp:1038-1049 | replacing a cached block changes that page's view alone |
| BTreeV2.BlankValuePage | storage/btree_db_v2.hpp:888-898 | a new value page has size 0 and room for values_per_page values |
| BTreeV2.SameEntry | storage/btree_db_v2.hpp:835-850 | the page and slot an entry number maps to determine it |
| BTreeV2.DivMod | storage/btree_db_v2.hpp:835-850 | page n/values_per_page and slot n%values_per_page are the quotient and remainder of the entry number; also lines 888-912 |
| BTreeV2.MulMono | storage/btree_db_v2.hpp:888-912 | a helper bound on slot offsets: multiplying by the value size keeps order |
| BTreeV2.MulSucc | storage/btree_db_v2.hpp:888-912 | a helper step on slot offsets: one more slot is one more value size |
| BTreeV2.WithChild | storage/btree_db_v2.hpp:764-784 | `set_child_ptr` j changes that child pointer alone and keeps keys, size and flags |
| BTreeV2.PathExtend | storage/btree_db_v2.hpp:537-544 | one more step of the descent, to the child the lower bound names, extends the recorded path |
| BTreeV2.LinkedKept | storage/btree_db_v2.hpp:560-578 | pages off the recorded path may change without breaking the links along it |
| BTreeV2.PathKept | storage/btree_db_v2.hpp:560-578 | the recorded path stays valid when only pages off it change and the levels are kept |
| BTreeV2.PathPop | storage/btree_db_v2.hpp:569-572 | the top of the recorded stack is the parent of the current page, one level up, and the rest is its path |
| BTreeV2.SplitPath | storage/btree_db_v2.hpp:965-977 | splitting a full child keeps the path to its parent valid |
| BTreeV2.LeafPath | storage/btree_db_v2.hpp:558 | pushing into the leaf keeps the path to it valid |
| BTreeV2.DescendStep | storage/btree_db_v2.hpp:537-544 | the descent is well founded: the child the lower bound names is a page, one level down, and the descent invariant continues; also lines 594-599 |
| BTreeV2.RootSplitUnfold | storage/btree_db_v2.hpp:945-962 | the root split as a whole: the old root demoted and halved in place, a new root holding the middle key over it, and the new right half appended |
| BTreeV2.UpdateAppended | storage/btree_db_v2.hpp:945-962 | a helper on page sequences updated after two appends |
| BTreeV2.AppendTwoSet | storage/btree_db_v2.hpp:945-962 | a helper on page sequences overwritten twice after an append |
| BTreeV2.BTreeDb.SetPage | storage/btree_db_v2.hpp:1038-1049 | `set_dirty` with new contents: that page's cached copy becomes the new page, dirty, and only that page's view changes |
| BTreeV2.BTreeDb.SetValuePage | storage/btree_db_v2.hpp:1050-1057 | the same for a value page |
| BTreeV2.BTreeDb.OpenValuePage | storage/btree_db_v2.hpp:892-903 | `push` opening a page: a blank page joins the cache, clean, and the earlier pages are unchanged |
| BTreeV2.BTreeDb.MakeRoom | storage/btree_db_v2.hpp:888-902 | the entry count grows by one and a page is opened exactly when there is none or the last is full |
| BTreeV2.BTreeDb.GrowLast | storage/btree_db_v2.hpp:906 | the last value page's size grows by one and nothing else changes |
| BTreeV2.BTreeDb.FillLast | storage/btree_db_v2.hpp:905-911 | the new value goes into the next slot of the last page, whose size grows by one; no other entry changes |
| BTreeV2.BTreeDb.OpenRightPage | storage/btree_db_v2.hpp:969-972 | a child split opens one new key page, empty and of the child's kind, after the existing ones |
| BTreeV2.BTreeDb.OpenRootPages | storage/btree_db_v2.hpp:949-954 | a root split opens the new root, holding the middle key with the old root and the new right page as children, and the new right page |
| BTreeV2.BTreeDb.DemoteAndMove | storage/btree_db_v2.hpp:957-958 | the old root loses its root flag and its upper half moves to the right page |
| BTreeV2.BTreeDb.InsertFirst | storage/btree_db_v2.hpp:520-526 | the first `insert` on an empty store makes a tree where only the key finds its value |
| BTreeV2.BTreeDb.FillRoot | storage/btree_db_v2.hpp:521-524 | the root leaf holds the key with entry 0, and entry 0 holds the value |
| BTreeV2.BTreeDb.PlantTree | storage/btree_db_v2.hpp:520-526 | that one-page tree meets the store invariant and answers only the key |
| BTreeV2.BTreeDb.StepDown | storage/btree_db_v2.hpp:540-543 | one step of the descent reads the child the lower bound names and whether it is internal; no page changes |
| BTreeV2.BTreeDb.Probe | storage/btree_db_v2.hpp:547-551 | the leaf test finds the key exactly when it is stored, and then its entry |
| BTreeV2.BTreeDb.Locate | storage/btree_db_v2.hpp:529-551 | descent and leaf test together report whether the key is stored and, if it is, its entry |
| BTreeV2.BTreeDb.Seek | storage/btree_db_v2.hpp:529-551 | the same on the full store, with every lookup unchanged |
| BTreeV2.BTreeDb.SplitParent | storage/btree_db_v2.hpp:563-573 | one round of the split loop: the full page is split into its parent, the path shrinks by one, and every lookup is unchanged; also lines 965-977 |
| BTreeV2.BTreeDb.SplitTop | storage/btree_db_v2.hpp:575-577 | the split of a full root restores the tree invariant with no page full, and every lookup is unchanged; also lines 945-962 |
| BTreeV2.BTreeDb.LeafInsert | storage/btree_db_v2.hpp:558 | pushing the new key into its leaf makes it find the new entry and no other lookup changes |
| BTreeV2.BTreeDb.KeyPart | storage/btree_db_v2.hpp:558-578 | the push and the split loop: the tree invariant holds again, the key finds the new entry, the others what they found |
| BTreeV2.BTreeDb.KeyAdd | storage/btree_db_v2.hpp:557-578 | the same with the value side kept, ready for `Valid` |
| BTreeV2.BTreeDb.AddNew | storage/btree_db_v2.hpp:557-578 | `insert` of a new key: one more entry, the key finds the value, every other key what it found |
| BTreeV2.BTreeDb.InsertIntoTree | storage/btree_db_v2.hpp:529-578 | `insert` into a non-empty tree: the key finds the value, every other key what it found, one more entry exactly when the key was new |
| BTreeV2.BTreeDb.GetKept | storage/btree_db_v2.hpp:582-613 | what `find` reports depends only on the key pages, the root and the stored values |
| BTreeV2.BTreeDb.ValidKept | storage/btree_db_v2.hpp:1082-1096 | reading pages into the cache keeps the store invariant |
| BTreeV2.BTreeDb.ValueSideKept | storage/btree_db_v2.hpp:1097-1108 | a key-side operation keeps the value side and every stored value |
| BTreeV2.BTreeDb.FindIn | storage/btree_db_v2.hpp:589-613 | the search of a non-empty store returns the key's value, or `T()` when it is absent, and changes no lookup |
| BTreeV2.BTreeDb.ReadEntry | storage/btree_db_v2.hpp:835-863 | reading entry e returns its stored value and changes nothing the store reports |
| BTreeV2.BTreeDb.ReadSlot | storage/btree_db_v2.hpp:846-862 | the slot read returns entry e's value and leaves both files unchanged |
| BTreeV2.BTreeDb.ReadKept | storage/btree_db_v2.hpp:1097-1108 | loading value pages keeps the invariant and every stored value |
| BTreeTypes.CopyCut | storage/btree_types.cpp:13-23 | the buffer keeps its length n and holds as C string the first n-1 bytes of the source string at most |
| BTreeTypes.NewAuthor | storage/btree_types.cpp:12-24 | the constructed author keeps `id` and holds at most 39 name bytes and 99 organization bytes, each the front of the given string |
| BTreeTypes.AuthorRoundTrip | storage/btree_types.cpp:28-40 | deserializing the 148 bytes an author serializes to, whatever follows them, gives back the same author (name [0,40), organization [40,140), id [140,148)) |
| BTreeTypes.AuthorBytesRoundTrip | storage/btree_types.cpp:28-40 | serializing what was deserialized reproduces the first 148 bytes exactly |
| BTreeTypes.AuthorMatchOfNew | storage/btree_types.cpp:42-44 | two constructed authors match exactly when their names agree in the first 39 bytes; organization and id are ignored |
| BTreeTypes.NewPaper | storage/btree_types.cpp:59-81 | as written: the title buffer ends up holding the venue cut to 39 bytes, keywords and venue keep their prior bytes, `authors` is the first ten given ids, counts and id are stored |
| BTreeTypes.CopyKeepLength | storage/btree_types.cpp:66-76 | a copy into a longer buffer keeps its length and holds the source cut to n-1 bytes as C string |
| BTreeTypes.IntsRoundTrip | storage/btree_types.cpp:89 | ten 8-byte signed ids encoded and decoded come back unchanged; also lines 99 |
| BTreeTypes.PaperLayout | storage/btree_types.cpp:95-105 | the seven serialized fields lie at [0,60), [60,120), [120,160), [160,240), [240,244), [244,248), [248,256), disjoint and covering the 256-byte record |
| BTreeTypes.PaperAsWrittenReadsPastRecord | storage/btree_types.cpp:85-93 | the deserializer as written restores every field but `id`, which it takes from bytes 2..10 past the end of the record |
| BTreeTypes.PaperAsWrittenLosesId | storage/btree_types.cpp:92 | some paper does not survive the as-written round trip; also lines 102 |
| BTreeTypes.PaperFieldsRoundTrip | storage/btree_types.cpp:85-105 | each region of a serialized paper decodes to its field, with `id` at [248,256) |
| BTreeTypes.PaperRoundTrip | storage/btree_types.cpp:85-105 | with `id` read from offset 248, deserializing a serialized paper gives it back |
| BTreeTypes.PaperMatchOfNew | storage/btree_types.cpp:59-81 | two constructed papers match exactly when their venues agree in the first 39 bytes, because the constructor leaves the venue in the title; also lines 107-109 |
| BTreeTypes.NewPaperIntended | storage/btree_types.cpp:59-81 | the corrected constructor: the title, keywords and venue land in their own buffers, cut to 59, 59 and 39 bytes, with the first ten author ids, the counts and the id |
| BTreeTypes.PaperMatchOfNewIntended | storage/btree_types.cpp:107-109 | with the corrected constructor, two constructed papers match exactly when their titles agree in the first 59 bytes |
| BTreeTypes.NewPaperLosesTitle | storage/btree_types.cpp:66-76 | as written, a paper built with title "a" and an empty venue has an empty title and matches the one built with title "b"; the corrected constructor keeps "a" and tells them apart |
| BTreeTypes.TestRoundTrip | storage/btree_types.cpp:117-130 | a test entry serialized to 12 bytes (x [0,4), id [4,12)) and deserialized comes back unchanged |
| BTreeTypes.TestBytesRoundTrip | storage/btree_types.cpp:120-130 | serializing a deserialized test entry reproduces its 12 bytes |
| Bytes.DecodeEncodeNat | storage/btree_types.cpp:90-91 | an unsigned value below 256^w copied into w bytes low byte first reads back unchanged; also lines 100-101 |
| Bytes.EncodeDecodeNat | storage/btree_types.cpp:90-91 | re-encoding the value read from w bytes reproduces the bytes; also lines 100-101 |
| Bytes.DecodeEncodeInt | storage/btree_types.cpp:31 | a signed value in range copied as w bytes of two's complement reads back unchanged; also lines 37 |
| Bytes.EncodeDecodeInt | storage/btree_types.cpp:31 | re-encoding the signed value read from w bytes reproduces the bytes; also lines 37 |
| Bytes.StrCpy | storage/btree_types.cpp:14-22 | `strcpy` leaves the destination's length, makes its C string that of the source and keeps the bytes past the terminating NUL |
| Bytes.CStringOfPrefix | storage/btree_types.cpp:14 | cutting a string with `substr` and reading it as a C string is the same as cutting its C string; also lines 20 |
| BTreeTypes.SerializeAuthor | storage/btree_types.cpp:34-38 | an author serializes to exactly its 148-byte size |
| BTreeTypes.DeserializeAuthor | storage/btree_types.cpp:28-32 | deserializing 148 bytes gives a 40-byte name, a 100-byte organization and a 64-bit id |
| BTreeTypes.EncodeInts | storage/btree_types.cpp:99 | the `authors` array is copied as 8 bytes per id |
| BTreeTypes.DecodeInts | storage/btree_types.cpp:89 | reading n ids from 8n bytes gives n 64-bit values |
| BTreeTypes.SerializePaper | storage/btree_types.cpp:95-103 | a paper serializes to exactly its 256-byte size |
| BTreeTypes.DeserializePaperAsWritten | storage/btree_types.cpp:85-93 | as written, the deserializer reads 266 bytes, the id from offset 258, and yields a well-formed paper |
| BTreeTypes.DeserializePaper | storage/btree_types.cpp:85-93 | the corrected deserializer, reading the id from offset 248, needs only the 256 bytes of the record |
| BTreeTypes.SerializeTest | storage/btree_types.cpp:125-128 | a test entry serializes to exactly its 12-byte size |
| BTreeTypes.DeserializeTest | storage/btree_types.cpp:120-123 | deserializing 12 bytes gives a 32-bit `x` and a 64-bit id |
| Bytes.EncodeNat | storage/btree_types.cpp:90-91 | an unsigned value copied into w bytes takes w bytes, low byte first; also lines 100-101 |
| Bytes.DecodeNat | storage/btree_types.cpp:90-91 | the value read from w bytes is below 256^w; also lines 100-101 |
| Bytes.EncodeInt | storage/btree_types.cpp:31 | a signed value in range takes w bytes; also lines 37 |
| Bytes.DecodeInt | storage/btree_types.cpp:31 | the signed value read from w bytes is in the range of w-byte two's complement; also lines 37 |
| Bytes.CString | storage/btree_types.cpp:43 | `std::string(buffer.data())`: the bytes before the first NUL, or all of them when there is none; also lines 108 |
| Bytes.CStringOfTerminated | storage/btree_types.cpp:14-22 | a NUL-free string followed by NUL reads back as that string |
| Bytes.Prefix | storage/btree_types.cpp:14 | `substr(0, n)`: the first n bytes, or the whole string when it is shorter; also lines 20 |
| KeyPages.Keys | storage/btree_db_v2.hpp:667-685 | the page's keys: one per cell below the size, in cell order |
| KeyPages.EncodeCells | storage/btree_db_v2.hpp:667-685 | 12 bytes per cell |
| KeyPages.EncodeKeyPage | storage/btree_db_v2.hpp:619-685 | an encodable key page fills exactly one 4096-byte page; also lines 739-761 |
| KeyPages.CellBytes | storage/btree_db_v2.hpp:667-685 | cell i's key is the 8 bytes at 12i of the cell area and its pointer the 4 bytes after; also lines 739-761 |
| KeyPages.LowerBound | storage/btree_db_v2.hpp:1010-1035 | the number of leading keys smaller than the key: every key before it is smaller, the one at it is not |
| KeyPages.LowerBoundIs | storage/btree_db_v2.hpp:1010-1035 | the lower bound is the only index with that property |
| KeyPages.LowerBoundPrefix | storage/btree_db_v2.hpp:1010-1035 | keys after the lower bound do not change it |
| KeyPages.LowerBoundSuffix | storage/btree_db_v2.hpp:1010-1035 | dropping keys before the lower bound moves it down by as many |
| KeyPages.InsertAt | storage/btree_db_v2.hpp:693-713 | `insert` at loc adds one cell, keeping the page well formed |
| KeyPages.InsertAtCells | storage/btree_db_v2.hpp:697-709 | the cells before loc stay, the new cell is at loc, and the later cells move up by one |
| KeyPages.InsertBelow | storage/btree_db_v2.hpp:716-736 | a smaller key's lower bound is unchanged by the insert |
| KeyPages.InsertAbove | storage/btree_db_v2.hpp:716-736 | a larger key's lower bound moves up by one |
| KeyPages.PushPage | storage/btree_db_v2.hpp:716-736 | `push` adds one cell, keeping the page well formed |
| KeyPages.PushFindsBelow | storage/btree_db_v2.hpp:716-736 | a smaller key finds what it found before the push |
| KeyPages.PushFindsAbove | storage/btree_db_v2.hpp:716-736 | a larger key finds what it found before the push |
| KeyPages.MoveKeys | storage/btree_db_v2.hpp:787-818 | `move_keys` leaves both pages well formed |
| BTreeCacheV1.SetIndex | storage/btree_db.hpp:1039-1042 | `get_page_idx` always yields one of the 64 sets |
| BTreeCacheV1.HitWay | storage/btree_db.hpp:1091-1099 | the hit loop stops at a valid way holding the page, and reports a miss exactly when neither way holds it |
| BTreeCacheV1.LruViews | storage/btree_db.hpp:1096 | changing a set's LRU bit changes no page's contents as the cache shows them; also lines 1134 |
| BTreeCacheV1.FlushLru | storage/btree_db.hpp:548-561 | the LRU bit `write_all` leaves: each dirty way's write-back hits through `get_page` and points the bit at the other way, way 0 first, then way 1; a set with no dirty way keeps its bit |
| BTreeCacheV1.FlushedViews | storage/btree_db.hpp:548-561 | after `write_all` every page reads as before and the file agrees with every cached copy |
| BTreeCacheV1.LruAfterMiss | storage/btree_db.hpp:1101-1136 | as written, the LRU bit after a miss names the way just loaded when the victim was dirty (the nested hit of the write-back flips it, the final flip flips it back), and the other way otherwise |
| BTreeCacheV1.BTreeCache.constructor | storage/btree_db.hpp:469-546 | the `create_new` path: no pages, empty files, both caches zeroed as the two `memset`s leave them |
| BTreeCacheV1.BTreeCache.GetCacheSet | storage/btree_db.hpp:1062-1084 | `get_cache_set` fails, after `write_all`, exactly when the page number is at or past the page count of its file, and otherwise returns the set `get_page_idx` names and changes nothing |
| BTreeCacheV1.BTreeCache.WritePage | storage/btree_db.hpp:1044-1060 | `write_page` writes the cached copy of the page to the file; the `get_page` it goes through is a hit, which points that set's LRU bit at the other way |
| BTreeCacheV1.BTreeCache.GetPage | storage/btree_db.hpp:1086-1137 | `get_page` fails exactly when the page is past the count; on a hit only the LRU bit changes, to the other way; on a miss the way the bit names is written back if dirty and then holds the page, clean and valid, the other way unchanged, with the LRU bit as `LruAfterMiss` gives; no page reads differently |
| BTreeCacheV1.BTreeCache.SetLru | storage/btree_db.hpp:1096 | setting a set's LRU bit changes that bit alone and no page's view; also lines 1134 |
| BTreeCacheV1.BTreeCache.Hit | storage/btree_db.hpp:1091-1099 | the hit loop reports a hit exactly when a valid way holds the page, and then only the LRU bit changes, naming the other way |
| BTreeCacheV1.BTreeCache.Miss | storage/btree_db.hpp:1101-1131 | the miss path writes a dirty victim back, loads the page from the file into the victim way, clean and valid, and leaves every view as it was |
| BTreeCacheV1.BTreeCache.MissViews | storage/btree_db.hpp:1101-1131 | loading the page into the victim way keeps the cached copies consistent with the file and every view unchanged |
| BTreeCacheV1.BTreeCache.GetPageIntended | storage/btree_db.hpp:1086-1137 | the corrected `get_page`: the same, except that after any miss the LRU bit names the other way, so the page just loaded is not the next victim |
| BTreeCacheV1.BTreeCache.SetDirty | storage/btree_db.hpp:1026-1037 | `set_dirty` succeeds exactly when the page is in range and a valid way holds it, and then marks that way dirty and changes nothing else; otherwise it runs `write_all` and fails |
| BTreeCacheV1.BTreeCache.WriteAll | storage/btree_db.hpp:548-561 | `write_all` writes back every dirty way of both caches, set by set: afterwards the files agree with every cached copy and no page reads differently |
| BTreeCacheV1.BTreeCache.FlushSet | storage/btree_db.hpp:549-560 | one round of the `write_all` loop extends the written-back prefix of sets by set i |
| BTreeCacheV1.BTreeCache.FlushSetPage | storage/btree_db.hpp:549-560 | after set i is written back, a page reads from the file as its view when its set is below i+1, and as before otherwise |
| BTreeCacheV1.BTreeCache.MarkDirty | storage/btree_db.hpp:1031-1034 | marking a valid way dirty changes that flag alone |
| BTreeCacheV1.BTreeCache.FlushSetDone | storage/btree_db.hpp:549-560 | writing back both ways of set i, and the LRU bit `FlushLru` gives, extends the flushed prefix to i+1 |
| BTreeCacheV1.BTreeCache.KeepsBlock | storage/btree_db.hpp:1107-1109 | writing a dirty victim back keeps every other cached block consistent with the file |
| BTreeCacheV1.BTreeCache.MissSetsOk | storage/btree_db.hpp:1101-1131 | after the victim is written back and the page loaded into its way, every set is consistent with the file again |
| BTreeCacheV1.BTreeCache.MissSameViews | storage/btree_db.hpp:1101-1131 | the miss keeps every page's view and leaves the page in the chosen way |
| VectorDb.Sizes | storage/vector_db.cpp:11-17 | the constants: 64-byte records, 64 of them filling a 4096-byte page exactly |
| VectorDb.RowToBin | storage/vector_db.cpp:189-192 | `convert_row_to_bin` produces one 64-byte record |
| VectorDb.BinToRow | storage/vector_db.cpp:194-197 | `convert_bin_to_row` yields a 64-bit id and a 56-byte name buffer |
| VectorDb.RowRoundTrip | storage/vector_db.cpp:189-197 | decoding an encoded row gives the row back |
| VectorDb.BinRoundTrip | storage/vector_db.cpp:189-197 | encoding a decoded record gives the same 64 bytes |
| VectorDb.NewRow | storage/vector_db.cpp:62-69 | the `Entry` `insert` builds: the key as id, and as name the value's C string cut to at most 55 bytes |
| VectorDb.RowOffset | storage/vector_db.cpp:182-187 | `row_slot`'s offset is record-aligned, lies inside the page, and with the page number recovers the row index |
| VectorDb.SlotsDisjoint | storage/vector_db.cpp:182-187 | two different rows on one page occupy disjoint bytes |
| VectorDb.CacheIndex | storage/vector_db.cpp:137-139 | `get_page_idx` names one of the ten blocks |
| VectorDb.Logical | storage/vector_db.cpp:148-180 | the pages as the program sees them: one per page `get_page` accepts, each the resident block's buffer or else the file's page |
| VectorDb.Rows | storage/vector_db.cpp:182-197 | the stored rows are exactly those the record slots of the visible pages decode to |
| VectorDb.PutRowEffect | storage/vector_db.cpp:189-192 | writing a record into row i's slot changes row i to the new row and no other row |
| VectorDb.RowsExtend | storage/vector_db.cpp:94-98 | writing the next row and counting it appends that row to the rows |
| VectorDb.RowsOfPrefix | storage/vector_db.cpp:87-93 | appending pages does not change the rows already stored |
| VectorDb.MissKeepsLogical | storage/vector_db.cpp:158-177 | a miss, with the dirty write-back it may do, changes no page as the program sees it |
| VectorDb.WriteKeepsOthers | storage/vector_db.cpp:78-79 | changing a resident buffer and marking it dirty changes that page's view alone; also lines 96-97 |
| VectorDb.WriteBackKeepsLogical | storage/vector_db.cpp:141-146 | writing a resident page to the file changes no page's view |
| VectorDb.AppendLogical | storage/vector_db.cpp:87-93 | appending a zero page adds one zero page to the views and keeps the rest |
| VectorDb.FindRow | storage/vector_db.cpp:72-82 | the scan's result: the index of the first row with the key, or none when no row has it; also lines 103-110 |
| VectorDb.InsertRows | storage/vector_db.cpp:62-100 | the rows after `insert`: the first row with the key is replaced, otherwise the new row is appended |
| VectorDb.SelectRows | storage/vector_db.cpp:102-112 | `select`: the C string of the first matching row's name, or "null" when there is none |
| VectorDb.SelectAfterInsert | storage/vector_db.cpp:62-112 | after inserting a key, `select` on it gives the value cut to 55 bytes |
| VectorDb.SelectOtherAfterInsert | storage/vector_db.cpp:62-112 | inserting one key does not change what `select` gives for another |
| VectorDb.InsertKeepsIdsUnique | storage/vector_db.cpp:62-100 | `insert` keeps ids distinct and adds a row exactly when the key was absent |
| VectorDb.VectorDatabase.constructor | storage/vector_db.cpp:21-47 | the constructor on an empty file: no rows, length 0, every block empty |
| VectorDb.VectorDatabase.GetPage | storage/vector_db.cpp:148-180 | `get_page` fails exactly when the page is past the page count; a hit changes nothing; a miss writes a dirty occupant back and then holds the page from the file, clean; no page reads differently |
| VectorDb.VectorDatabase.WritePage | storage/vector_db.cpp:141-146 | `write_page` writes the resident buffer to the file; the `get_page` it goes through is a hit |
| VectorDb.VectorDatabase.RowSlot | storage/vector_db.cpp:182-187 | `row_slot` fails exactly when the row's page is past the count, and otherwise names the resident block and the row's offset in it |
| VectorDb.VectorDatabase.ReadRow | storage/vector_db.cpp:73-75 | reading row i through the cache yields the stored row i; also lines 104-106 |
| VectorDb.VectorDatabase.WriteRow | storage/vector_db.cpp:78-79 | writing into row i's slot and marking the block dirty replaces stored row i and nothing else; also lines 95-97 |
| VectorDb.VectorDatabase.Insert | storage/vector_db.cpp:62-100 | `insert` leaves the rows as `InsertRows` says and grows the count exactly when the key was new |
| VectorDb.VectorDatabase.Scan | storage/vector_db.cpp:71-82 | the scan finds the key exactly when some row holds it, and then at the first such row; also lines 103-110 |
| VectorDb.VectorDatabase.AppendRow | storage/vector_db.cpp:84-99 | the new-key tail of `insert` appends the row and counts it |
| VectorDb.VectorDatabase.AppendPage | storage/vector_db.cpp:87-93 | a zero page is appended to the file and the rows are unchanged |
| VectorDb.VectorDatabase.Select | storage/vector_db.cpp:102-112 | `select` returns what `SelectRows` gives on the stored rows |
| VectorDb.VectorDatabase.Close | storage/vector_db.cpp:49-54 | the destructor's write-back leaves the file holding every page as the program saw it |
| DblpParser.DigitValue | misc/test_parser.cpp:105 | a hex digit's value, as `from_chars` in base 16 reads it, is below 16; also lines 110, 118 |
| DblpParser.DigitChar | misc/test_parser.cpp:132 | the lowercase digit `std::hex` prints for a value below 16 reads back as that value |
| DblpParser.Pow16Monotone | misc/test_parser.cpp:105 | longer digit runs have larger bounds: powers of 16 increase; also lines 118 |
| DblpParser.HexValue | misc/test_parser.cpp:105 | the value of k hex digits is below 16^k; also lines 110, 118 |
| DblpParser.HexRun | misc/test_parser.cpp:105 | `from_chars` consumes the longest leading run of hex digits and stops at the first other character; also lines 110, 118 |
| DblpParser.FromChars | misc/test_parser.cpp:105-122 | `from_chars` into a 64-bit unsigned: a value it reports is below 2^64 |
| DblpParser.HexRunOfDigits | misc/test_parser.cpp:105 | all digits followed by a non-digit: the run is exactly the digits; also lines 110, 118 |
| DblpParser.FromCharsIgnoresTail | misc/test_parser.cpp:105-122 | characters after the digit run do not change the result, since the returned end pointer is never checked |
| DblpParser.FromCharsNoDigit | misc/test_parser.cpp:105-122 | a part that is empty or starts with a non-digit fails |
| DblpParser.FromCharsOfDigits | misc/test_parser.cpp:105-122 | one to sixteen hex digits parse to their value |
| DblpParser.ParsedId | misc/test_parser.cpp:97-127 | a successful parse gives two 64-bit halves; up to 16 characters give `second` = 0; longer strings give `first` from the last 16 characters; characters stand for the string's bytes, so this matches the source for ASCII id strings only |
| DblpParser.FailedId | misc/test_parser.cpp:102-114 | on failure the id keeps its `second`, and keeps its `first` too unless the string is longer than 16 and its last 16 characters parsed, in which case `first` was already overwritten |
| DblpParser.IdStringToId | misc/test_parser.cpp:97-127 | `id_string_to_id` succeeds exactly when `ParsedId` does, and then writes that id; otherwise it leaves the id `FailedId` gives; like `ParsedId`, it counts characters where the source counts bytes |
| DblpParser.Hex | misc/test_parser.cpp:132 | `std::hex` output of a number is a non-empty run of hex digits |
| DblpParser.HexCorrect | misc/test_parser.cpp:132 | the printed digits read back as the number, and a number below 16^k needs at most k digits |
| DblpParser.HexRoundTrip | misc/test_parser.cpp:97-132 | a 64-bit number printed in hex parses back to itself, in at most 16 digits |
| DblpParser.IdToIdString | misc/test_parser.cpp:129-134 | `id_to_id_string`, as written: `second` then `first` in hex, no padding, at least two digits |
| DblpParser.IdToIdStringLosesSecond | misc/test_parser.cpp:129-134 | the id (1, 1) prints as "11", which parses back as (17, 0) |
| DblpParser.IdToIdStringRoundTripLow | misc/test_parser.cpp:97-134 | ids whose `second` is 0 print and parse back unchanged |
| DblpParser.ZeroPrefixLong | misc/test_parser.cpp:102-115 | a leading "0" before 16 digits parses as a zero high half |
| DblpParser.ZeroPrefixShort | misc/test_parser.cpp:116-124 | a leading "0" before fewer than 16 digits changes nothing |
| DblpParser.ZerosValue | misc/test_parser.cpp:105 | leading zero digits do not change a hex value; also lines 110, 118 |
| DblpParser.ZerosAreZero | misc/test_parser.cpp:105 | a run of zero digits has value 0; also lines 110, 118 |
| DblpParser.Hex16 | misc/test_parser.cpp:129-134 | a 64-bit number written in exactly 16 hex digits, zero padded |
| DblpParser.IdToPaddedIdString | misc/test_parser.cpp:129-134 | the corrected printer: `first` padded to 16 digits after the high half |
| DblpParser.PaddedRoundTrip | misc/test_parser.cpp:97-134 | every valid id printed by the corrected printer parses back to itself |
| DblpParser.ParsedAuthor | misc/test_parser.cpp:136-175 | an author is accepted exactly when name, org and a parseable id are all present, and then carries those values |
| DblpParser.ParseAuthor | misc/test_parser.cpp:136-175 | `parse_author` returns true exactly when `ParsedAuthor` accepts, and stores each field it found: name, org, and the id that a present id string leaves (parsed or `FailedId`), otherwise keeping the old values |
| DblpParser.KeptAuthors | misc/test_parser.cpp:323-338 | the authors kept are at most as many as listed, and each is the parse of a listed field set |
| DblpParser.KeptReferences | misc/test_parser.cpp:388-403 | the references kept are at most as many as listed, and each is the parse of a listed id string |
| DblpParser.ParseArticle | misc/test_parser.cpp:283-338 | the result is true exactly when the JSON parses and has a parseable id; the id is written as `id_string_to_id` writes it; the title is replaced when present; the accepted authors and references are appended; also lines 388-403, 554 |
| DblpParser.AppendKeptAuthors | misc/test_parser.cpp:326-337 | the authors loop appends exactly the accepted authors, in order |
| DblpParser.KeptAuthorsStep | misc/test_parser.cpp:329-336 | one more field set appends one more author exactly when it parses |
| DblpParser.KeptReferencesStep | misc/test_parser.cpp:394-400 | one more id string appends one more reference exactly when it parses |
| DblpParser.AppendKeptReferences | misc/test_parser.cpp:391-402 | the references loop appends exactly the parseable ids, in order |
| AuthorGraph.WithWeightEffect | graph/authorGraph.cpp:7-10 | `addEdge`: the source becomes a key, the destination enters its row, that one weight grows by the weight, and every other weight and every other row are unchanged |
| AuthorGraph.WithWeightAt | graph/authorGraph.cpp:7-10 | the weight of each pair after one `addEdge`: increased exactly at the added pair |
| AuthorGraph.AddAllWeight | graph/authorGraph.cpp:7-10 | a sequence of `addEdge` calls of one weight raises each pair's weight by the weight times the pair's number of occurrences; also lines 81-99 |
| AuthorGraph.AddAllKeys | graph/authorGraph.cpp:7-10 | after the calls, the keys are the old keys and the sources of the added pairs |
| AuthorGraph.AddAllEntries | graph/authorGraph.cpp:7-10 | after the calls, a pair has an entry exactly when it had one or was added |
| AuthorGraph.AddAllAppend | graph/authorGraph.cpp:7-10 | adding two batches of pairs in turn is adding their concatenation |
| AuthorGraph.AddBoth | graph/authorGraph.cpp:84-85 | the inner step of `add_same_paper_authors` adds the pair in both directions |
| AuthorGraph.RowPairsMembers | graph/authorGraph.cpp:83-86 | the inner loop for author i adds, in both directions, the pairs with each later author below the limit |
| AuthorGraph.SamePaperMembers | graph/authorGraph.cpp:81-88 | `add_same_paper_authors` adds, in both directions, exactly the pairs of distinct positions below the author limit |
| AuthorGraph.ReferencedCount | graph/authorGraph.cpp:92-95 | the inner loop of `add_referenced_authors` uses the referenced authors up to the first 0, and no more than the limit |
| AuthorGraph.CountFrom | graph/authorGraph.cpp:92-95 | counting from j on, given no 0 before j, stops at the first 0 or at the limit |
| AuthorGraph.RefPairsStep | graph/authorGraph.cpp:91-98 | one more paper author adds the pairs of that author with each referenced author used |
| AuthorGraph.RefRowMembers | graph/authorGraph.cpp:92-97 | the inner loop for one author adds exactly the pairs of that author with the referenced authors used |
| AuthorGraph.RefPairsMembers | graph/authorGraph.cpp:90-99 | `add_referenced_authors` adds exactly the pairs of a paper author below the limit and a referenced author used |
| AuthorGraph.AuthorMappingKeys | graph/authorGraph.cpp:119-122 | the mapping's keys are the papers' sources |
| AuthorGraph.AuthorMappingLastWins | graph/authorGraph.cpp:119-122 | for a source listed more than once, the last paper's author list is the one kept |
| AuthorGraph.RefArray | graph/authorGraph.cpp:127-130 | the array holds the first eight authors of the cited paper, zero filled |
| AuthorGraph.UnknownReferenceAddsNothing | graph/authorGraph.cpp:126-133 | a citation of an unknown paper gives an all-zero array and adds no pair |
| AuthorGraph.EncodeEdges | graph/authorGraph.cpp:21-24 | each edge takes 12 bytes: an 8-byte id and a 4-byte weight |
| AuthorGraph.ReadNode | graph/authorGraph.cpp:50-75 | reading one node record consumes exactly the record and adds what it describes to the map |
| AuthorGraph.EdgeMapKeys | graph/authorGraph.cpp:66-73 | an id no edge has is not a destination of the row |
| AuthorGraph.UpdateUnion | graph/authorGraph.cpp:72 | adding one destination to a row before or after merging gives the same row |
| AuthorGraph.EdgesRoundTrip | graph/authorGraph.cpp:21-24 | the edges of a row, written and read back, add exactly that row; also lines 66-73 |
| AuthorGraph.NodeMapFresh | graph/authorGraph.cpp:17-25 | an id that no listed node has is not a key of the listing's map |
| AuthorGraph.NodeHeader | graph/authorGraph.cpp:18-20 | a node record starts with the id in 8 bytes and the edge count in 4, followed by the edges; also lines 50-56 |
| AuthorGraph.Slices3 | graph/authorGraph.cpp:18-24 | the three parts of a record can be cut back out of it |
| AuthorGraph.NodeStep | graph/authorGraph.cpp:44-76 | reading one written node record adds that node's row and continues with the rest |
| AuthorGraph.NodesRoundTrip | graph/authorGraph.cpp:17-25 | reading back a written listing of distinct ids adds exactly the listed rows; also lines 44-76 |
| AuthorGraph.RoundTrip | graph/authorGraph.cpp:12-79 | the file `export_to_file` writes for a map, read by the file constructor, gives that map back |
| AuthorGraph.EncodeEdgesAppend | graph/authorGraph.cpp:21-24 | writing one more edge appends its 12 bytes |
| AuthorGraph.EncodeNodesAppend | graph/authorGraph.cpp:17-25 | writing one more node appends its record |
| AuthorGraph.EdgeMapAppend | graph/authorGraph.cpp:72 | one more edge with a new destination adds that entry to the row |
| AuthorGraph.NodeMapAppend | graph/authorGraph.cpp:59 | one more node with a new id adds that row to the map; also lines 72 |
| AuthorGraph.EncodeRow | graph/authorGraph.cpp:19-24 | the inner export loop writes every entry of a row once, 12 bytes each, in some order |
| AuthorGraph.RowStep | graph/authorGraph.cpp:21-24 | one more entry of the row keeps the inner loop's invariant |
| AuthorGraph.RowGrow | graph/authorGraph.cpp:21-24 | the entries written so far grow by exactly the one written |
| AuthorGraph.ExportStep | graph/authorGraph.cpp:17-25 | one more node keeps the outer loop's invariant and appends its record |
| AuthorGraph.ListedGrow | graph/authorGraph.cpp:17-25 | the nodes written so far grow by exactly the one written |
| AuthorGraph.ExportListing | graph/authorGraph.cpp:17-25 | the listing stays free of repeated ids and repeated destinations |
| AuthorGraph.AuthorGraph.ExportToFile | graph/authorGraph.cpp:12-28 | `export_to_file` writes the node count in 4 bytes, then for each node, in some order listing every node once, its 8-byte id, its 4-byte edge count and 12 bytes per edge (destination, weight); those bytes decode back to the adjacency map |
| AuthorGraph.AuthorGraph.FromFile | graph/authorGraph.cpp:30-79 | on a file whose bytes decode, the file constructor holds the map they decode to; the open failure and short files are not modelled |
| AuthorGraph.AuthorGraph.AddEdge | graph/authorGraph.cpp:7-10 | `addEdge` performs the update `WithWeightEffect` describes |
| AuthorGraph.AuthorGraph.AddSamePaperAuthors | graph/authorGraph.cpp:81-88 | `add_same_paper_authors` adds the pairs `SamePaperMembers` characterises, each with the same weight |
| AuthorGraph.AuthorGraph.AddSamePaperRow | graph/authorGraph.cpp:83-86 | one round of the outer loop adds the row pairs of author i |
| AuthorGraph.AuthorGraph.AddReferencedAuthors | graph/authorGraph.cpp:90-99 | `add_referenced_authors` adds the pairs `RefPairsMembers` characterises, each with the same weight |
| AuthorGraph.AuthorGraph.AddReferencedRow | graph/authorGraph.cpp:92-97 | one round of the outer loop adds the pairs of one author |
| AuthorGraph.AuthorGraph.FromNodeData | graph/authorGraph.cpp:115-137 | the test constructor builds the mapping, adds every paper's same-paper pairs and referenced pairs in order, and counts the nodes |
| AuthorGraph.AuthorGraph.AddPaperReferences | graph/authorGraph.cpp:126-133 | the citation loop adds, for each cited paper in turn, the referenced pairs of its array |
| AuthorGraph.AddReferencesStep | graph/authorGraph.cpp:126-133 | one more cited paper adds the referenced pairs of its array |
| AuthorGraph.BuildMapping | graph/authorGraph.cpp:117-122 | the mapping loop builds `AuthorMapping` |
| AuthorGraph.ReadGraph | graph/authorGraph.cpp:37-76 | on a file whose bytes decode, the file constructor's loop reads exactly the map they decode to |
| AuthorGraph.ReadEdges | graph/authorGraph.cpp:63-75 | the edge loop of one node reads the edges the bytes describe |
| JournalGraph.WithEdgeEffect | graph/journalGraph.cpp:13-24 | `addEdge` with a zero id changes nothing; otherwise both ids become keys, `id2` is appended to `id1`'s list, and no other list changes |
| JournalGraph.WithEdgeWellFormed | graph/journalGraph.cpp:18-22 | `addEdge` keeps every listed id a key |
| JournalGraph.AddReferencesWellFormed | graph/journalGraph.cpp:31-35 | adding one entry's references keeps every listed id a key |
| JournalGraph.BuildWellFormed | graph/journalGraph.cpp:26-38 | the constructor's graph has every listed id as a key |
| JournalGraph.AddReferencesKeeps | graph/journalGraph.cpp:31-35 | adding references removes no edge |
| JournalGraph.AddReferencesHas | graph/journalGraph.cpp:31-35 | every non-zero reference of a non-zero source becomes an edge |
| JournalGraph.BuildKeeps | graph/journalGraph.cpp:29-36 | later entries remove no edge added by earlier ones |
| JournalGraph.BuildHasReferences | graph/journalGraph.cpp:26-38 | every non-zero reference of every non-zero source in the input is an edge of the built graph |
| JournalGraph.ChildrenConcat | graph/journalGraph.cpp:54 | the children recorded by two stretches of records are those of each |
| JournalGraph.ChildrenPop | graph/journalGraph.cpp:54 | one more record adds its child |
| JournalGraph.PushUnseen | graph/journalGraph.cpp:56-60 | the push loop keeps the stack below and pushes, with the current node as parent, exactly the unseen neighbours |
| JournalGraph.DfsStep | graph/journalGraph.cpp:49-61 | one pop-mark-push round keeps the traversal invariant |
| JournalGraph.StepMarks | graph/journalGraph.cpp:52-55 | a node is marked seen exactly when it is recorded |
| JournalGraph.StepOnce | graph/journalGraph.cpp:52-55 | no node is recorded twice |
| JournalGraph.StepTree | graph/journalGraph.cpp:52-58 | every record after the first is an edge from an already recorded node |
| JournalGraph.StepReach | graph/journalGraph.cpp:49-61 | every recorded or stacked node is reachable from the start through unseen nodes |
| JournalGraph.StepShape | graph/journalGraph.cpp:48-58 | stacked pairs are graph edges from the start or a recorded node, and the first record is `(0, vertex)` |
| JournalGraph.DfsStepFrontier | graph/journalGraph.cpp:49-61 | every unseen node reachable from a recorded one is recorded or waits on the stack |
| JournalGraph.DfsStart | graph/journalGraph.cpp:47-48 | the invariant holds with `(0, vertex)` alone on the stack |
| JournalGraph.DfsDone | graph/journalGraph.cpp:49-61 | with the stack empty, the recorded children are exactly the unseen nodes reachable from the start through unseen nodes, each once |
| JournalGraph.JournalGraph.constructor | graph/journalGraph.cpp:26-38 | the constructor's graph is `Build` of the input, and every listed id is a key |
| JournalGraph.JournalGraph.AddEdge | graph/journalGraph.cpp:13-24 | `addEdge` returns true exactly when both ids are non-zero, with the change `WithEdgeEffect` describes |
| JournalGraph.JournalGraph.Dfs | graph/journalGraph.cpp:45-62 | `dfs` appends to `record`, marks exactly the nodes it records, and records `(0, vertex)` first and then, once each, every unseen node reachable through unseen nodes, each with a recorded parent |
| JournalGraph.JournalGraph.DfsIteration | graph/journalGraph.cpp:50-60 | one round keeps the invariant and decreases the unseen count, or the stack measure |
| JournalGraph.JournalGraph.GetIdeaHistory | graph/journalGraph.cpp:92-105 | an unknown source gives no records; otherwise the records start with `(0, source)`, name each node once along graph edges, and their children are exactly the nodes reachable from the source |
| JournalGraph.JournalGraph.ReachableInGraph | graph/journalGraph.cpp:18-22 | every node reachable from a key is a key, so `seen.at` and `graph.at` never throw; also lines 56-57 |
| Bfs.DistinctBound | Dataset/bfs.cpp:24-39 | a queue history without repeats holds at most v vertices |
| Bfs.BfsStart | Dataset/bfs.cpp:21-22 | marking the start and enqueueing it establishes the loop invariant |
| Bfs.BfsStep | Dataset/bfs.cpp:26-38 | one dequeue and its neighbour loop keep the invariant |
| Bfs.BfsDone | Dataset/bfs.cpp:24-39 | when the queue is empty, `visited` is exactly the set of reachable vertices, each enqueued once |
| Bfs.Graph.constructor | Dataset/bfs.cpp:3-6 | `v` vertices, each with an empty list |
| Bfs.Graph.AddEdge | Dataset/bfs.cpp:8-10 | `id2` is appended to `adj[id1]` and nothing else changes |
| Bfs.Graph.BFS | Dataset/bfs.cpp:12-40 | on exit a vertex is visited exactly when it is reachable from the start; the queue history starts at the start, has no repeats and at most v entries |
| Bfs.VisitNeighbours | Dataset/bfs.cpp:33-38 | the neighbour loop marks and enqueues exactly the unvisited neighbours, once each, and leaves every neighbour visited |
| Tarjan.Min | graph/tarjansSCC.cpp:69 | `std::min`: the smaller of the two, and one of them; also lines 71 |
| Tarjan.InitData | graph/tarjansSCC.cpp:22-26 | every key starts unvisited, with low link -1 and off the stack |
| Tarjan.StartConsistent | graph/tarjansSCC.cpp:18-30 | the initial state, with nothing numbered, an empty stack and no components, meets the search invariant |
| Tarjan.VisitConsistent | graph/tarjansSCC.cpp:56-62 | pushing an unvisited node and numbering it `disc = low_link = id++` keeps the invariant and keeps every earlier entry |
| Tarjan.LowerConsistent | graph/tarjansSCC.cpp:69 | lowering a visited node's low link by `std::min` keeps the invariant; also lines 71 |
| Tarjan.ChildReached | graph/tarjansSCC.cpp:65-69 | nodes a child's search numbers are reachable from the parent too |
| Tarjan.GrowsTrans | graph/tarjansSCC.cpp:65-73 | the stack below a search is untouched across successive child searches |
| Tarjan.PopKeeps | graph/tarjansSCC.cpp:77-93 | the pop loop keeps every number and the reachability of what the search numbered |
| Tarjan.PopConsistent | graph/tarjansSCC.cpp:77-98 | popping down to the current node and reporting the component only when it has more than one node keeps the invariant, and the current node is the component's last |
| Tarjan.PopNumbers | graph/tarjansSCC.cpp:85 | clearing `on_stack` keeps every discovery number and low link; also lines 92 |
| Tarjan.PopStack | graph/tarjansSCC.cpp:80-93 | the nodes left on the stack are exactly those still flagged on it |
| Tarjan.PopAnswers | graph/tarjansSCC.cpp:96-98 | the reported components stay pairwise disjoint and off the stack |
| Tarjan.RootedAppend | graph/tarjansSCC.cpp:96-98 | appending a component whose nodes its last node reaches keeps every component so rooted |
| AuthorTarjan.TarjansSearch | graph/tarjansSCC.cpp:49-100 | `tarjansSearch` with the cutoff: it returns at once when `id` exceeds 1024; otherwise it numbers the node, searches its unvisited neighbours, lowers its low link, and pops its component when `disc == low_link`, keeping the invariant, the rows of the graph, and every reported component reachable from its last node |
| AuthorTarjan.ProgressStart | graph/tarjansSCC.cpp:56-62 | numbering the current node and reading its row, inserting an empty one if absent, starts the neighbour loop |
| AuthorTarjan.ProgressChild | graph/tarjansSCC.cpp:67-69 | a child search keeps the loop invariant; a pruned child leaves low link -1 and `id` past the cutoff |
| AuthorTarjan.ProgressLower | graph/tarjansSCC.cpp:69 | lowering the current low link keeps the loop invariant; also lines 71 |
| AuthorTarjan.ProgressPop | graph/tarjansSCC.cpp:77-99 | the pop when `disc == low_link` ends the search as `SearchPost` states |
| AuthorTarjan.ProgressKeep | graph/tarjansSCC.cpp:77 | when `disc != low_link` the search ends with the node left on the stack |
| AuthorTarjan.PopShape | graph/tarjansSCC.cpp:80-93 | the pop leaves exactly the stack the search started with; a node alone forms a single-node component |
| AuthorTarjan.PopRooted | graph/tarjansSCC.cpp:91-98 | the popped component is reachable from its last node, the current one |
| AuthorTarjan.ComponentReached | graph/tarjansSCC.cpp:80-91 | every popped node was numbered within the current search, so the current node reaches it |
| AuthorTarjan.PopComponent | graph/tarjansSCC.cpp:80-93 | the pop loop pops down to and including the current node and clears their flags |
| AuthorTarjan.FindScc | graph/tarjansSCC.cpp:33-45 | `findSCC` numbers every key unless the cutoff stopped it, numbers nothing above 1024, and keeps the components rooted |
| AuthorTarjan.FindStep | graph/tarjansSCC.cpp:38-42 | one round of the key loop keeps its invariant |
| AuthorTarjan.TarjansScc | graph/tarjansSCC.cpp:18-31 | `tarjansSCC` reports components of more than one node, without repeats, pairwise disjoint, each reachable from its last node; the rows of the graph are unchanged |
| AuthorTarjan.TarjansSccWithQuery | graph/tarjansSCC.cpp:102-124 | the same for the search from one node; an absent query yields no components and gains an empty row |
| WeightedTarjan.NodesClosed | src/tarjansSCC.cpp:51-54 | every node an edge leads to is a node of the graph |
| WeightedTarjan.OrderedIndex | src/tarjansSCC.cpp:44-49 | discovery numbers increase up the stack |
| WeightedTarjan.TarjansSearch | src/tarjansSCC.cpp:43-76 | `tarjansSearch` on the node itself (the corrected key type): it numbers the node, keeps the invariant and the rows of the graph, keeps every low link on the stack reachable and at least the floor, and every reported component strongly connected |
| WeightedTarjan.ProgressStart | src/tarjansSCC.cpp:44-51 | numbering and pushing the current node starts the neighbour loop |
| WeightedTarjan.PushReach | src/tarjansSCC.cpp:44-49 | pushing a fresh node keeps each stacked node able to reach the node its low link names |
| WeightedTarjan.ProgressMeasure | src/tarjansSCC.cpp:43-59 | each search numbers at least one more node, so the recursion ends |
| WeightedTarjan.ProgressChild | src/tarjansSCC.cpp:53-55 | a child search followed by `low_link = min(low_link, child low_link)` keeps the loop invariant |
| WeightedTarjan.ChildPopped | src/tarjansSCC.cpp:53-55 | a child that popped its own component leaves the invariant intact |
| WeightedTarjan.ChildStays | src/tarjansSCC.cpp:53-55 | a child left on the stack passes its low link, with a witness it reaches, to the parent |
| WeightedTarjan.ChildBase | src/tarjansSCC.cpp:53-55 | what a child search returns, in the two cases of popped and left on the stack |
| WeightedTarjan.ChildAboveKept | src/tarjansSCC.cpp:53-55 | the nodes above the parent stay finished when the child popped |
| WeightedTarjan.ChildAboveLowered | src/tarjansSCC.cpp:53-55 | the nodes above the parent stay finished with the lowered link |
| WeightedTarjan.LowerCurrent | src/tarjansSCC.cpp:56-57 | lowering to a reachable stacked node's number keeps the loop invariant |
| WeightedTarjan.LowerBase | src/tarjansSCC.cpp:55 | lowering keeps the base invariant; also lines 57 |
| WeightedTarjan.LowerAbove | src/tarjansSCC.cpp:55 | lowering keeps the nodes above finished; also lines 57 |
| WeightedTarjan.LowerReach | src/tarjansSCC.cpp:55 | a lowered low link still names a node reachable from its owner; also lines 57 |
| WeightedTarjan.ProgressOnStack | src/tarjansSCC.cpp:56-57 | an edge to an on-stack node lowers to its discovery number and keeps the loop invariant |
| WeightedTarjan.ProgressPop | src/tarjansSCC.cpp:61-75 | the pop when `disc == low_link` ends the search as `SearchPost` states |
| WeightedTarjan.PopReach | src/tarjansSCC.cpp:63-71 | the stack left by the pop keeps its reachability facts |
| WeightedTarjan.StackDescent | src/tarjansSCC.cpp:61-71 | every node above a root whose number is its low link reaches the root |
| WeightedTarjan.ComponentReturns | src/tarjansSCC.cpp:61-71 | every node of the popped component reaches the current node |
| WeightedTarjan.ComponentReached | src/tarjansSCC.cpp:61-71 | the current node reaches every node of the popped component |
| WeightedTarjan.StrongAppend | src/tarjansSCC.cpp:72-74 | a component whose nodes reach and are reached from one root is strongly connected, and appending it keeps all reported components so |
| WeightedTarjan.PopLowFloor | src/tarjansSCC.cpp:63-71 | the pop keeps every remaining low link at or above the floor |
| WeightedTarjan.PopComponent | src/tarjansSCC.cpp:63-71 | the `while (true)` loop pops down to and including the current node, clearing each flag |
| WeightedTarjan.FindScc | src/tarjansSCC.cpp:33-41 | `findSCC` numbers every key once, ends with an empty stack, keeps the rows, and reports strongly connected components |
| WeightedTarjan.FindStep | src/tarjansSCC.cpp:35-39 | one round of the key loop keeps its invariant |
| WeightedTarjan.TarjansScc | src/tarjansSCC.cpp:20-31 | `tarjansSCC` reports components of more than one node, without repeats, pairwise disjoint, every two of whose nodes reach each other; the rows of the graph are unchanged |
| WeightedTarjan.KeyThroughInt | src/tarjansSCC.cpp:43-47 | as written: a key passed as `int current_id` and widened back comes out with the same low 32 bits, and unchanged exactly when it is below 2^31 or in the top 2^31 of the 64-bit range |
| WeightedTarjan.KeyThroughIntMovesKey | src/tarjansSCC.cpp:43-47 | the key 2^31 comes back as 0xFFFFFFFF80000000, a different node |
| Dijkstra.MinimalExists | graph/dijkstrasSP.cpp:9-17 | a non-empty queue has an edge of smallest weight |
| Dijkstra.Top | graph/dijkstrasSP.cpp:9-17 | `queue.top()` under `CompareWeight`: an edge of the queue whose weight no other edge undercuts; which one of equal weights is left open; also lines 32 |
| Dijkstra.UnreachedMembers | graph/dijkstrasSP.cpp:40-44 | the edges pushed after a pop are exactly the listed edges whose destination has no predecessor yet |
| Dijkstra.UnreachedStep | graph/dijkstrasSP.cpp:40-44 | one more listed edge is pushed exactly when its destination has no predecessor |
| Dijkstra.PushUnreached | graph/dijkstrasSP.cpp:40-44 | the push loop adds exactly those edges to the queue |
| Dijkstra.SearchStart | graph/dijkstrasSP.cpp:17-22 | the queue filled with the start's edges and `previous[start] = start` establish the loop invariant |
| Dijkstra.SearchSkip | graph/dijkstrasSP.cpp:34 | dropping an edge to a node that already has a predecessor keeps the invariant |
| Dijkstra.TreeGrow | graph/dijkstrasSP.cpp:35 | giving a new node its predecessor along a listed edge keeps the predecessor tree rooted at the start |
| Dijkstra.ShapeGrow | graph/dijkstrasSP.cpp:35 | the new node gets a later order number than its predecessor |
| Dijkstra.SearchGrow | graph/dijkstrasSP.cpp:35-44 | recording the predecessor and pushing the new node's unreached edges keeps the invariant |
| Dijkstra.GrowPending | graph/dijkstrasSP.cpp:40-44 | every queued edge starts at a node with a predecessor and is listed under it |
| Dijkstra.GrowCovered | graph/dijkstrasSP.cpp:40-44 | every listed edge out of a reached node leads to a reached node or waits in the queue |
| Dijkstra.SearchExhausted | graph/dijkstrasSP.cpp:31-48 | when the queue empties before `dest` is reached, `dest` is not reachable from the start (or is the start) |
| Dijkstra.Reversed | graph/dijkstrasSP.cpp:54 | `std::reverse`: the same entries in the opposite order |
| Dijkstra.ChainIsPath | graph/dijkstrasSP.cpp:49-55 | the predecessor chain from `dest` back to `start`, reversed, is a simple path along listed edges |
| Dijkstra.DijkstrasShortestPath | graph/dijkstrasSP.cpp:3-56 | the result is non-empty exactly when both ends are keys, they differ and `dest` is reachable, and then it is a simple path from `start` to `dest` along listed edges; `graph.at` throws only for a reached edge whose destination is not a key, which never happens when every destination is a key |
| Dijkstra.Backtrack | graph/dijkstrasSP.cpp:49-53 | the reconstruction loop walks predecessors from `dest` with strictly falling order numbers and ends at `start` |
| Dijkstra.BackChainStep | graph/dijkstrasSP.cpp:50 | each predecessor was reached earlier, so the walk goes one step further along an edge |
| Dijkstra.ChainExtend | graph/dijkstrasSP.cpp:50-52 | an earlier node with an edge to the chain's end extends the chain |

## Left out

- WeightedTarjan.TarjansScc: proves that every reported component is strongly connected, disjoint from the others and larger than one node. It does not prove that every component is maximal, and it does not prove that every component of more than one node is reported.
- AuthorTarjan.TarjansScc: proves only that each component is reachable from its last node, which is weaker than strong connectivity. The reason: the 1024-id cutoff (graph/tarjansSCC.cpp:52-54) cuts the search short, so the low links of cut-off nodes are not those of a Tarjan search.
- AuthorTarjan.FindScc: the same one-directional property, for the same reason.
- AuthorTarjan.TarjansSccWithQuery: the same one-directional property, for the same reason.
- Dijkstra.DijkstrasShortestPath: does not claim that the path is shortest. The source orders its queue by the weight of single edges, not by distance from the start (graph/dijkstrasSP.cpp:9-17), so it returns a path that is not in general shortest.
- Dijkstra.DijkstrasShortestPath: requires `SourcesOk`, meaning every edge listed under a node k has source k. The source accepts other lists (graph/dijkstrasSP.cpp:35), and then its predecessor walk may loop. An edge whose destination is not a key is modelled: `graph.at` throws there, which is a failing outcome.
- BTreeV2.KeyView: a page at or past the end of its file reads as a blank page. In the source, `read` leaves the freshly allocated buffer uninitialised and sets failbit (storage/btree_db_v2.hpp:1092-1094).
- BTreeV2.ValueView: the same for the value file (storage/btree_db_v2.hpp:1104-1106).
- VectorDb.DiskPage: reading the page equal to the page count (storage/vector_db.cpp:148-180) yields a zero page, where the source reads past the end of the file into an uninitialised buffer.
- BTreeCacheV1.DiskPage: the same for the v1 store.
- Fixed-width integers are not modelled; every integer is unbounded. This covers:
  - the `int` sums of edge weights (graph/authorGraph.cpp:9);
  - the unsigned product `num_edges*12` in the author graph file format;
  - the `unsigned int` `file_length` and `page_num*PAGE_SIZE` in storage/vector_db.cpp;
  - the `long` keys and `unsigned` counters of both B-trees.
  The model therefore assumes counts and offsets stay below their type's range. The one truncation that changes behaviour for ordinary keys is modelled; it is listed under Findings.
- AuthorGraph.AuthorGraph: graph/authorGraph.h declares the graph as a map from node to a list of `weighted_edge` with `float` weights (graph/authorGraph.h:17-24), but graph/authorGraph.cpp works on `adj_list`, a map from node to a map from destination to an `int` weight (graph/authorGraph.cpp:9,72). The header also declares `bool addEdge(float weight, …)` (graph/authorGraph.h:47), while graph/authorGraph.cpp:7 defines `void addEdge(int weight, long source, long dest)`, and `adj_list` is not declared in that header. The model follows the implementation; the header's `graph` member is not part of this model.
- The floating-point edge weights (`same_paper_weight*n_citation`) are not modelled. The weight of an edge is an integer parameter.
- Only fresh stores are modelled: the model always starts from empty files. These source paths are not part of this model:
  - reopening an existing B-tree and reading its metadata file (storage/btree_db_v2.hpp:405-469; storage/btree_db.hpp:521-537);
  - opening an existing vector database file;
  - the `num_entries` tail that the destructor writes into the last 4 bytes of the vector file (storage/vector_db.cpp:55-58).
  `VectorDb.VectorDatabase.Insert` still appends a zero page when at most one record's room is left, as the source does (storage/vector_db.cpp:87-93).
- BTreeV2.BTreeDb.WriteAll: models the flush of every dirty page. It does not model closing the two file streams, writing the metadata file (storage/btree_db_v2.hpp:495-505) or the `delete[]` of the buffers. In the source, an object after `write_all` sits on closed streams; in the model it stays usable.
- BTreeCacheV1.BTreeCache.WriteAll: the same; the close and metadata write at storage/btree_db.hpp:563-571 are not modelled.
- AuthorTarjan.TarjansScc: `adj_list[current_id]` inserts missing keys while a range-for over `adj_list` runs (graph/tarjansSCC.cpp:38,65). That can rehash the map and invalidate the outer iterator. The model iterates over the keys the graph had at the start, and it returns the rows the insertions add. The same applies to WeightedTarjan.TarjansScc (src/tarjansSCC.cpp).
- AuthorTarjan.TarjansSearch: the constant `unvisited` is not defined in graph/tarjansSCC.cpp or in the headers that go with it. It is taken to be -1, as in src/tarjansSCC.cpp.
- `T()`, the zero-filled value slots and the uninitialised `Entry` fields are the `dflt` and `blank` parameters of the model. The fields that `T()` leaves uninitialised in the source, such as `id`, hold whatever value those parameters give.
- BTreeV2.BTreeDb.GetIdFromName: the match operator is a parameter. `BTreeTypes.AuthorMatch`, `BTreeTypes.PaperMatch` and `BTreeTypes.TestMatch` state the three versions of it. As written, line 1118 of storage/btree_db_v2.hpp compares with `==`, but the entry types declare `bool operator=` (storage/btree_types.cpp:42,107,132), an assignment operator. So `==` does not resolve for them, and the template fails to compile once it is instantiated. No run of the program shows this, so it is not a Findings row. The model uses the comparison the three operators evidently mean.
- KeyPages.KeyPage: the logical key page has no field for the marker bytes (`255, 255` and "newblock") that `create_new_keypage` writes into bytes 6..15 (storage/btree_db_v2.hpp:986-989). `KeyPages.EncodeKeyPage` writes them into every encoded page, just as `create_new_keypage` leaves them, since no later write to a key page touches those bytes.
- Out of scope:
  - allocation with `new[]` and `delete[]`;
  - console output with `cout`, and `print_article`;
  - JSON handling outside the fields parsed here;
  - threads.
- The v1 store's set hash (storage/btree_db.hpp:1041) uses `std::hash`, which is implementation-defined. It is a function parameter of the model; only its value modulo 64 is used.
- DblpParser.IdStringToId: strings are sequences of characters here, while `id_string.length()` and the 16-from-the-end offset count bytes (misc/test_parser.cpp:100-110). Model and source agree only on ASCII id strings. On "0123456789abcdefé", where é takes two bytes in UTF-8, the source splits after "01" and the model after "0".
- DblpParser.ParsedId: the same character-versus-byte difference.
- AuthorGraph.AuthorGraph.FromFile: requires a file whose bytes decode. Two error paths are not modelled:
  - a file that does not open throws `runtime_error` (graph/authorGraph.cpp:33-35);
  - on a file shorter than its counts, the `ifs.read` calls at 41-64 fail, and the loop goes on with stale `buff_4`/`buff_8` contents and an uninitialised edge buffer.
- AuthorGraph.ReadGraph: the same requirement and the same two error paths.
- DblpParser.ParseArticle: parses `id`, `title`, `authors` and `references`. It does not parse `venue`, `year`, `keywords`, `fos`, `url`, `indexed_abstract` or `v12_authors`, since nothing in the modelled core reads them.
- BTreeTypes.NewPaper: requires at least ten authors. The paper constructor copies ten author ids (storage/btree_types.cpp:59-81), and reading fewer than ten is undefined behaviour.
- Not part of this model:
  - the driver programs and command-line front ends;
  - storage/btree_db.cpp and storage/btree_db.h;
  - src/dijkstrasSP.cpp, an incomplete stub.
- Bfs.Graph.BFS: `V` in Dataset/bfs.cpp:20 is taken to be the member `v`, since the header that declares it is not part of this model.

## Findings

| source | as written | input that shows it | evidently intended | confidence | as-written member | corrected member |
|---|---|---|---|---|---|---|
| misc/test_parser.cpp:129-134 | `id_to_id_string` prints the first half in hex without zero padding to 16 digits | first = 1, second = 1 prints "11", which `id_string_to_id` reads back as first = 0x11, second = 0 | pad the first half to 16 hex digits, so that parsing inverts printing | not executed | DblpParser.IdToIdStringLosesSecond | DblpParser.PaddedRoundTrip |
| storage/btree_types.cpp:85-93 | `paper::Entry::deserialize_value` reads `id` at offset 258, past the end of the 256-byte record, while `serialize_value` writes it at 248 | a serialised paper with id 1, followed by ten zero bytes, reads back with id 0 | read `id` at offset 248, so that deserialising inverts serialising | not executed | BTreeTypes.PaperAsWrittenLosesId | BTreeTypes.PaperRoundTrip |
| src/tarjansSCC.cpp:43 | `int current_id = node` truncates the 64-bit unsigned node key to a signed 32-bit int before using it as a key | node 0x80000000 becomes the key 0xFFFFFFFF80000000 once it widens back, a node that is not the one searched | keep the node's own key type | not executed | WeightedTarjan.KeyThroughIntMovesKey | WeightedTarjan.TarjansSearch |
| storage/btree_db.hpp:1107-1109,1134 | after a miss with a dirty victim, the nested `write_page` hit flips the LRU bit and the final flip restores it, so the bit names the way just loaded | a set whose LRU way holds a dirty page, followed by a miss on that set: the next miss evicts the page just loaded | after any miss the LRU bit names the other way, so the page just loaded is not the next victim | not executed | BTreeCacheV1.LruAfterMiss | BTreeCacheV1.BTreeCache.GetPageIntended |
| storage/btree_types.cpp:66-76 | the `paper::Entry` constructor `strcpy`s the keywords and then the venue into `title.data()`, so the title the caller gave is overwritten and the keywords and venue buffers are never filled | title "a" and title "b", both with an empty venue, give papers with empty titles that match each other under `operator=` | copy the keywords into `keywords` and the venue into `venue` | not executed | BTreeTypes.NewPaperLosesTitle | BTreeTypes.PaperMatchOfNewIntended |
