# A verified model of the storage engine, its index, its statements and its graph

The system is a small database with a code graph beside it. Tables are heaps of 4 KB slotted pages behind a
buffer pool with least-recently-used eviction; rows are packed into bytes; a B+Tree indexes INT columns; a lexer
and a parser read SQL; statements insert, update, delete and drop; a labelled graph answers path queries; and a
flat list of instructions is turned into a tree.

The model follows the source file by file. What the source changes in place is a class whose methods are proved
against functions on values; what it computes is a function with lemmas. In each pair the value side carries the
theorems: `TreeModel` to `TreeTheorems` for `BTree`, `PoolModel` for `BufferPool`, `PageModel` for `SlottedPage`,
`RowModel` for `RowCodec`, `HeapModel`, `TableModel` and `TableRuns` for `Heap`, `StatementModel` for
`Statements`, `GraphModel`, `PathModel`, `SearchModel` and `SearchOrder` for `CodeGraph`, `SqlModel`, `SqlRoundTrip`
and `SqlGrammar` for `Sql`. `TreeFit` says when the nodes of a tree fit their pages, `FirstFit` which page a new row
goes to, and `Indexing` puts the rows of a table into a tree. What stands in which byte of a node, a page or a row is
said in `NodeLayout`, `PageModel` and `RowLayout`, in terms of single bytes (`ByteOrder`) and not of the functions
that write or read them.

Check everything with `dafny verify dfyconfig.toml`.

## Findings

Where the code does not do what its documentation or its callers expect, the model keeps the code as it is, and a
lemma gives the exact condition.

- An index key that separates two nodes is inserted to the left of its separator and searched to the right of it.
  A second insertion of such a key makes a second copy that no search sees (`TreeTheorems.InsertUpdates`,
  `ReadBackExactly`), and a scan returns both copies (`ScanIsSortedRange`). 200 insertions of different keys are
  enough to have such a key (`LongRunHasUnseenUpdate`).
- Writing a leaf does not check its size. It is written whole exactly if 11 bytes, 10 for each key and its values
  come to at most 4096; if only the last value runs past that, it is cut off without an error; if an earlier byte
  does, the program panics (`NodeCodec.LeafSizes`). `Insert` returns without an error after a cut, and then the node
  in memory is not the one its page gives back (`BTree.BTree.Insert`, `CoherentIffFits`), as with one value of 4076
  bytes (`NodeCodec.LongValueIsLost`). Values of at most 10 bytes are safe over every run (`TreeFit.SmallRunFits`,
  `BTree.Build`), longer ones are not (`NodeCodec.TenBytesAreTheMost`). CREATE INDEX stores whole printed rows and
  does not look at what `Insert` returns (`Indexing.CreateIndex`).
- The adapter between index and page file loses index nodes: the page file takes the first eight bytes of a page
  for its number and blanks the page if they differ. A node survives only if its kind, key count and link spell
  the page number (`IndexAdapter.NodeReadsBackIff`); on page 1, where a new index has its root, no node with a
  key does (`FirstPageForgets`). The in-memory node cache hides this: in an index that was built and not reopened
  every node is cached (`BTree.BTree.AllCached`).
- `UpdateRow` calls `InsertRow` while it holds the lock that `InsertRow` takes. When the new row does not fit what
  is left of the old one's page, the old row is gone and the call never returns; with a wrong column count the old
  row is gone too (`Heap.Updated`). In a new database, an UPDATE of the only row loses it exactly if both versions do
  not fit one page, and hangs but for sizes on which it panics (`Statements.UpdateOnlyRow`): a text of more than 2025
  bytes cannot be written over itself (`RewriteOnlyText`).
- `DeleteRow` and `UpdateRow` do not look at whose RID they get: a RID of another table deletes or replaces that
  table's row, and updating a deleted RID puts a row there again. `TableRuns.DeleteIsolated` and `UpdateIsolated`
  say exactly when other tables are left alone; after a DROP a kept RID can name another table's row
  (`StaleRIDTakesForeignRow`).
- Tables are told apart by a 32-bit hash of their names, and names collide (`TableModel.HashesCollide`).
- A text longer than 64K loses what its 16-bit length does not count, and texts behind 64K of other text are looked
  for at a wrapped offset (`RowModel.LongTextIsCut`, `RowReadsBackIff`).
- The size check of a page adds row and slot size as a uint16, and is right exactly unless that sum wraps around and
  fits (`SlottedPage.Page.CanFit`). On a new page these are the rows of 65532 to 65535 bytes (`LongRowWraps`); a page
  with fewer than 3 free bytes refuses the longest of them. The insert then slices out of range before it writes
  anything (`InsertSlices`), which the executor recovers from; an INSERT leaves its page with a pin that nobody takes
  off, and an UPDATE has lost the old row (`Heap.HeapFile.InsertRow`, `Heap.Updated`).
- A scan passes over the pages that it cannot fetch, which are those not cached while every frame is pinned. Then the
  check of unique keys accepts what it did not see (`Statements.Executor.ExecuteInsert` says exactly when keys stay
  unique), UPDATE and DELETE leave such rows as they are, and DROP leaves such pages to the dropped table.
- Writing any page to an empty page file leaves zeros at page 0, which then reads raw and no longer as a new page
  (`PoolModel.HoleAtZero`, `FetchKeepsViews`).
- A breadth-first path may have as many edges as the depth limit, a depth-first path only fewer
  (`SearchModel.IsBfsPath` against `PathModel.IsDfsPath`). The breadth-first search returns the shortest path first,
  but one path only for each last step, not all paths (`SearchModel.Answers`).
- The property index of the graph keeps the ids of deleted nodes; searches skip them (`GraphModel.PropsIndexed`).
- Building the instruction tree recurses for ever exactly if some chain of parents from 0 meets an id twice, as with
  an instruction 0 below 0, or with an id listed both below 0 and below itself (`InstructionTree.TreeIffChainsEnd`,
  `EndlessLists`).
- Printing a statement drops the quotes of its literals: it parses back exactly if no literal needs them
  (`SqlRoundTrip.PrintParsesIffClean`), and a literal that reads as a name comes back as an identifier.

## Model

| member | source | states |
|---|---|---|
| NodeCodec.DecodeEncode | pkg/index/node.go:122-212 | every node that fits a page is read back from its bytes as it was |
| NodeCodec.EncodeInjective | pkg/index/node.go:122-163 | two different nodes never have the same bytes |
| TreeNode.Node.FindKey | pkg/index/node.go:53-67 | the binary search returns the number of smaller keys, found or not |
| TreeNode.Node.InsertKey | pkg/index/node.go:70-89 | the grow-shift-assign sequence inserts the key at its place, and its value there or its child one behind |
| TreeNode.Node.SplitNode | pkg/index/node.go:93-119 | which half keeps which keys, values, children and link; a leaf's separator stays in the right half, an inner node's goes up |
| NodeCodec.WrittenReadsBackIff | pkg/index/node.go:122-212 | a node written to a page, cut off or not, is read back as it was exactly if it fits the page |
| NodeCodec.LeafSizes | pkg/index/node.go:122-163 | in key count and value lengths: when a leaf is written whole, when it is cut off, and when writing it panics |
| NodeCodec.LongValueIsLost | pkg/index/node.go:122-212 | a leaf with one value of 4076 to 65535 bytes is written without an error, and its page gives no node back |
| NodeCodec.TenBytesAreTheMost | pkg/index/node.go:122-163 | 10 bytes is the greatest value length with which every leaf below the key limit is written whole |
| NodeLayout.ContentIsLaidOut | pkg/index/node.go:122-163 | byte by byte: kind, key count, link, keys in two's complement, then children, or values each behind its two length bytes |
| NodeLayout.WrittenIs | pkg/index/node.go:122-163 | the page of a node is these bytes, cut off at its end or with zeros behind them |
| NodeLayout.DecodedIsThere | pkg/index/node.go:166-212 | whatever is decoded from a page stands there in these places |
| TreeNode.Node.Serialize | pkg/index/node.go:122-163 | filling the buffer field by field gives the byte form of the node, cut off at the end of the page, and zeros behind it; null exactly where the source slices out of range |
| TreeNode.DeserializeNode | pkg/index/node.go:166-212 | the new node holds what the bytes decode to |
| TreeModel.InsertShaped | pkg/index/btree.go:107-170 | an insertion keeps keys ordered, within their separators, and all leaves at one depth |
| TreeContents.InsertEntries | pkg/index/btree.go:107-170 | whatever splits happen, an insertion sets one slot of the ordered contents and leaves all others |
| TreeBalance.InsertOccupied | pkg/index/btree.go:107-170 | no node ever reaches the key limit after an insertion, and all but the root stay at least half full |
| TreeBalance.CutInHalves | pkg/index/btree.go:118-170 | a full node is cut in the middle and nothing of it is lost: the parts differ by at most one key, which goes right in a leaf and left in an inner node |
| TreeBalance.HeightIsLogarithmic | pkg/index/btree.go:73-170 | a tree of height h holds at least 2 * 100^h entries |
| TreePages.InsertDistinct | pkg/index/btree.go:107-170 | no page is ever used by two nodes; new pages are those just allocated |
| TreePages.InsertChained | pkg/index/btree.go:107-170 | the chain through all leaves survives every insertion, splits included |
| TreeFit.InsertFitsIff | pkg/index/btree.go:107-170 | after an insertion into a tree whose nodes fit their pages they all fit again exactly if the leaf or leaves it wrote do |
| TreeFit.FaithfulIffFits | pkg/index/btree.go:41-70 | the pages give every node of a tree back exactly if every node fits its page |
| TreeFit.SmallStays | pkg/index/btree.go:107-170 | an insertion keeps all values of the tree at 10 bytes or less if the new one is |
| TreeFit.SmallValuesAlwaysFit | pkg/index/btree.go:107-170 | an insertion into such a tree writes leaves that fit their pages |
| TreeFit.SmallRunFits | pkg/index/btree.go:24-170 | so over any run of such insertions into a new tree no write panics and every node fits its page |
| TreeSearch.FindIsLookup | pkg/index/btree.go:173-210 | the descent finds a key exactly if its primary slot is filled, and returns that value |
| TreeTheorems.InsertUpdates | pkg/index/btree.go:73-170 | an insertion updates the searchable map at its key; for a separator it leaves the map and updates the unseen copy |
| TreeTheorems.ReadBackExactly | pkg/index/btree.go:73-210 | an inserted value is found again exactly if its key is no separator, or had that value before |
| TreeTheorems.SomeUpdateUnseen | pkg/index/btree.go:73-210 | every tree of 200 keys or more has a key whose new values no search sees |
| TreeTheorems.LongRunHasUnseenUpdate | pkg/index/btree.go:73-210 | after any 200 or more insertions of different keys there is such a key among them |
| TreeTheorems.RunIsReplay | pkg/index/btree.go:73-210 | over every run that never inserts a current separator, the tree is the map of the run |
| TreeTheorems.RunKeepsKeys | pkg/index/btree.go:73-210 | over any run at all, the keys found are exactly the keys inserted |
| TreeTheorems.FreshKeysNeverSeparate | pkg/index/btree.go:73-170 | a run of pairwise different keys never inserts a separator |
| TreeTheorems.ScanIsSortedRange | pkg/index/btree.go:213-249 | a scan lists the map's values in key order exactly if no key in the range has an unseen copy |
| TreeTheorems.SortedRangeIsUnique | pkg/index/btree.go:213-249 | there is one such list, so the scan's result is determined |
| BTree.BTree.constructor | pkg/index/btree.go:24-38 | a new index is the empty leaf on the next page of whatever store it gets, and its page gives it back |
| BTree.BTree.SaveNode | pkg/index/btree.go:63-70 | fails exactly if writing the node panics; else cache and page have it, and the page gives it back if it fits |
| BTree.BTree.CoherentIffFits | pkg/index/btree.go:41-70 | all pages of the index give back the nodes in memory exactly if every node fits its page |
| BTree.BTree.GetNode | pkg/index/btree.go:41-60 | a node comes from the cache or, decoded, from its page, and null exactly if neither has one |
| BTree.BTree.Insert | pkg/index/btree.go:73-103 | fails exactly if writing the leaf panics; else tree and map change as InsertUpdates says, and the pages still give every node back exactly if the leaf fits its page |
| BTree.Build | pkg/index/btree.go:24-103 | a new index with any list of insertions is the tree of the run, if no write panics; with values of at most 10 bytes none does, and the pages give every node back |
| BTree.BTree.InsertRecursive | pkg/index/btree.go:107-170 | the nodes of the subtree become the result of the insertion, no other node changes, and the returned split is the right one; it fails exactly if writing the leaf panics |
| BTree.BTree.Search | pkg/index/btree.go:173-178 | returns the map's value, or nothing if the key is not in the map |
| BTree.BTree.Scan | pkg/index/btree.go:213-272 | walking the leaf chain returns the values of all entries in the range, in order; sorted range of the map exactly without copies |
| IndexAdapter.NodeReadsBackIff | pkg/storage/index_adapter.go:12-26 | a node written to the page file is read back as it was exactly if it fits a page and its first bytes spell the page number |
| IndexAdapter.NodeIsBlanked | pkg/storage/index_adapter.go:12-26 | no node is read back from a page whose number does not end in the node's kind |
| IndexAdapter.FirstPageForgets | pkg/storage/index_adapter.go:12-26 | no node with a key is read back from page 1 |
| PageModel.WithRowIs | pkg/storage/page.go:109-142 | adding a row keeps the page well formed, puts the row behind the others, and changes none of them |
| PageModel.WithoutRowIs | pkg/storage/page.go:162-171 | deleting a row clears it and leaves header and all other rows |
| PageModel.BlankCanAdd | pkg/storage/page.go:102-142 | a new page takes every row of up to 4068 bytes and no longer one |
| PageModel.HeaderReadsBack | pkg/storage/page.go:52-73 | a header is read as it was written |
| PageModel.HeaderIsLaidOut | pkg/storage/page.go:65-73 | each field of a header stands in its bytes, lowest first, and behind them nothing changes |
| PageModel.SlotIsLaidOut | pkg/storage/page.go:85-90 | slot i is the four bytes at 24 + 4i, offset and length, and no other byte changes |
| PageModel.RowIsLaidOut | pkg/storage/page.go:109-142 | a row stands right below the data before it, its slot right behind the others, and the header says so and keeps its other fields |
| PageModel.FreeSpaceSays | pkg/storage/page.go:92-99 | the free bytes lie between the two offsets in the header; there are none if these have crossed |
| PageModel.BlankIsLaidOut | pkg/storage/page.go:40-49 | a new page holds its number, 24 and 4096, and zeros everywhere else |
| PageModel.TaggedIsLaidOut | pkg/storage/heap.go:71-74 | giving a page an owner changes the four bytes of the table id alone |
| SlottedPage.Page.CanFit | pkg/storage/page.go:102-106 | the 16-bit size check is right exactly unless the sum of row and slot size wraps around and fits |
| SlottedPage.LongRowWraps | pkg/storage/page.go:102-106 | on a new page it is wrong exactly for rows of 65532 to 65535 bytes |
| SlottedPage.InsertSlices | pkg/storage/page.go:109-125 | of the sizes that pass the check, exactly the wrong ones make the insert slice out of range |
| SlottedPage.Page.InsertRow | pkg/storage/page.go:109-142 | succeeds exactly if row and slot fit; then the page is the old one with the row; else unchanged, with the right error, or a panic exactly if the size check is wrong |
| SlottedPage.Page.GetRow | pkg/storage/page.go:145-159 | returns the row of the slot, or that it is deleted or does not exist |
| SlottedPage.Page.DeleteRow | pkg/storage/page.go:162-171 | succeeds exactly for an existing slot, live or not, and clears it |
| PoolModel.WriteThenRead | pkg/storage/disk_manager.go:48-86 | a write changes what its page reads as and, for every other page, nothing, but for page 0 of an empty file |
| PoolModel.HoleAtZero | pkg/storage/disk_manager.go:48-86 | writing another page leaves page 0 as it read exactly if the file was not empty |
| PoolModel.FetchKeepsViews | pkg/storage/buffer_pool.go:45-154 | a fetch with its eviction changes the contents of no reported, named page, but page 0 exactly when it digs the hole; others keep theirs or fall back to the file |
| PoolModel.FetchKeepsDiscipline | pkg/storage/buffer_pool.go:45-154 | a page stays reported and named over a fetch, with the exact exception at page 0 |
| PoolModel.FetchFails | pkg/storage/buffer_pool.go:45-154 | a fetch fails exactly if the page is absent and every frame is pinned |
| PoolModel.FetchPins | pkg/storage/buffer_pool.go:45-83 | a fetched page has one pin more, or its first one, and is dirty only if it was cached and dirty before |
| PoolModel.UnpinIs | pkg/storage/buffer_pool.go:86-102 | a page given back has one pin less, never below zero, and is dirty exactly if it was or is said to be; all else stays |
| PoolModel.PinnedStays | pkg/storage/buffer_pool.go:45-154 | a pinned page keeps its frame, contents and pins over any fetch |
| PoolModel.FetchIsMostRecent | pkg/storage/buffer_pool.go:45-154 | a fetch puts its page first in recency order, drops the evicted one, and keeps the order of the rest |
| PoolModel.LoserIsLeastRecent | pkg/storage/buffer_pool.go:130-154 | the evicted page is unpinned, and all less recent ones are pinned |
| PoolModel.FlushAllWrites | pkg/storage/buffer_pool.go:105-117 | after a flush nothing is dirty, and the file reads every reported, named page as it is held, but page 0 exactly in a hole |
| PoolModel.ReopenedAfterFlush | pkg/storage/buffer_pool.go:27-117 | reopening after a flush finds every such page as it was, with the same exact exception |
| BufferPool.DiskManager.ReadPage | pkg/storage/disk_manager.go:48-65 | a page past the end or under another number reads as new |
| BufferPool.DiskManager.WritePage | pkg/storage/disk_manager.go:68-86 | the file is extended as needed and holds the page; the page count grows with it |
| BufferPool.BufferPool.FetchPage | pkg/storage/buffer_pool.go:45-83 | the frames, page map, recency list and file become those of the value-level fetch; null exactly when that fails |
| BufferPool.BufferPool.EvictPage | pkg/storage/buffer_pool.go:130-154 | evicts the least recent unpinned page, written first if dirty |
| BufferPool.BufferPool.UnpinPage | pkg/storage/buffer_pool.go:86-102 | takes one pin, never below zero, and only ever adds the dirty mark |
| BufferPool.BufferPool.FlushAll | pkg/storage/buffer_pool.go:105-117 | writes every dirty page, in frame order |
| RowModel.RowReadsBackIff | pkg/storage/row.go:46-221 | for any schema, a typed row decodes to itself exactly if it has columns and each text is under 64K and stands at its wrapped offset |
| RowModel.RowReadsBack | pkg/storage/row.go:46-221 | so every row with columns whose texts take less than 64K reads back |
| RowModel.LongTextIsCut | pkg/storage/row.go:46-221 | a single text reads back as its first (length modulo 64K) bytes |
| RowLayout.EncodeIsLaidOut | pkg/storage/row.go:46-135 | byte by byte: a null bit for exactly the nulls, each cell at its place with an int in two's complement, a float's bits, a truth value as 1 or 0, a text as its offset; then the offset table, then each text behind its two length bytes |
| RowLayout.CellsAreAt | pkg/storage/row.go:46-135 | the place of a cell is the bitmap's length and the sizes of the columns before it |
| RowLayout.DecodeSays | pkg/storage/row.go:137-221 | a decoding exists exactly if the data is not empty and reaches to the end of every cell that is not null; each value is what its bytes say |
| RowCodec.SerializeRow | pkg/storage/row.go:46-135 | the loop over columns produces exactly the encoding, or the column count error; each byte of it is where the layout puts it |
| RowCodec.DeserializeRow | pkg/storage/row.go:137-221 | the two loops produce exactly the decoding, whatever the order of the offset map; it succeeds exactly on complete data, and each value is what its bytes say |
| HeapModel.NewDatabase | pkg/storage/disk_manager.go:17-45 | an empty file behind empty frames is a heap without rows and without used RIDs |
| HeapModel.ReopenedRows | pkg/storage/buffer_pool.go:105-117 | after a flush, reopening with any number of frames finds every row of every table and every used RID |
| HeapModel.AddsRow | pkg/storage/heap.go:26-86 | a row added to a page gets a RID never used and changes no other row of any table |
| Heap.NewTable | pkg/storage/heap.go:17-23 | a table opened in a new database is valid and no table has rows |
| Heap.OpenTable | pkg/storage/heap.go:17-23 | a table opened on a sound file is valid over that file's contents |
| Heap.HeapFile.InsertRow | pkg/storage/heap.go:26-86 | one new row under an unused RID, and no other row of any table touched, or a refusal or panic that touches none, with the exact reason; with a frame free it succeeds exactly for rows of the right width that fit a new page; the row goes to the first page, in page order, that the table may use and that has room, and to a new one only if there is none |
| Heap.HeapFile.ScanFull | pkg/storage/heap.go:89-126 | lists exactly the rows of the table on pages that can be fetched, each once, in RID order, with their values |
| Heap.HeapFile.GetRow | pkg/storage/heap.go:148-164 | the decoded row of the RID, whose-ever it is, or that it is deleted or unknown, or that its page cannot be fetched |
| Heap.HeapFile.DeleteRow | pkg/storage/heap.go:167-178 | exactly the row of the RID goes, whose-ever it is; an error changes nothing, and says exactly why |
| Heap.HeapFile.UpdateRow | pkg/storage/heap.go:181-214 | the old row goes and the new one gets the page's next RID under the page's owner; every outcome exactly: unknown RID, wrong width, panic, hang, and which of them lose the row |
| TableModel.ListingIsUnique | pkg/storage/heap.go:89-126 | a table has one listing, so the scan's result is determined |
| TableModel.HashesCollide | pkg/storage/heap.go:134-145 | two names with one table id, and a name with id 0 |
| TableModel.HashIsSum | pkg/storage/heap.go:134-145 | the table id is the sum of the characters, each times 31 to the number of those behind it, modulo 2^32 |
| TableModel.NearNamesDiffer | pkg/storage/heap.go:134-145 | names of equal length that differ in one character have different ids |
| TableRuns.NeverReused | pkg/storage/heap.go:26-214 | over any run, a RID handed out to a table is not handed out again before a drop of that table empties its page |
| TableRuns.RowStays | pkg/storage/heap.go:26-214 | over any run, a live RID names the same row until a step takes it away |
| TableRuns.StepIsolated | pkg/storage/heap.go:26-214 | a statement called on another table leaves a table's rows alone exactly if its RID does not reach into it |
| TableRuns.TablesIsolated | pkg/storage/heap.go:26-214 | over any run whose deletes and updates use only RIDs their own table gave since a drop last emptied their pages, statements on other tables leave a table exactly as it was |
| TableRuns.StaleRIDTakesForeignRow | pkg/storage/heap.go:167-178 | a run with a RID kept over a drop that deletes another table's row |
| TableRuns.InsertTakes | pkg/storage/heap.go:26-86 | every insert of the heap is such a step |
| TableRuns.RemoveTakes | pkg/storage/heap.go:167-178 | every delete of the heap is such a step |
| TableRuns.UpdateTakes | pkg/storage/heap.go:181-214 | every update of the heap is such a step, of a deleted RID too, and one that loses the row is a removal |
| TableRuns.DropTakes | pkg/executor/executor.go:722-750 | every drop is such a step, on the pages that can be fetched; with a frame free it leaves the table no row and no RID |
| TableRuns.DeleteIsolated | pkg/storage/heap.go:167-178 | a delete leaves the other tables alone exactly if its RID is not a live row of one of them |
| TableRuns.UpdateIsolated | pkg/storage/heap.go:181-214 | an update leaves the other tables alone exactly if it is refused, its RID is the table's own, or a deleted one that gets no row |
| Statements.Executor.ExecuteInsert | pkg/executor/executor.go:373-524 | refused exactly if a key is taken by a row seen, or the row does not fit; else one more row; keys stay unique exactly if no row at all takes them; other tables untouched |
| Statements.Executor.ExecuteDelete | pkg/executor/executor.go:626-660 | exactly the rows seen that satisfy the condition go, all of them with a frame free, and their number is returned |
| Statements.Executor.ExecuteUpdate | pkg/executor/executor.go:753-833 | the matching rows are replaced one by one, each on its page: in each, a column named in SET has the last value given to it and every other column its old one; it ends at the first row whose key is taken or that does not fit what is then left of its page, with exactly that reason, and that row is lost unless a key was taken; other tables untouched |
| Statements.UpdateOnlyRow | pkg/storage/heap.go:181-214 | updating the only row of a new database fails exactly if both versions do not fit one page, and the row is then lost |
| Statements.RewriteOnlyText | pkg/storage/heap.go:181-214 | such a row with a text hangs exactly above 2025 bytes |
| StatementModel.OutcomeKeepsUnique | pkg/executor/executor.go:753-833 | an UPDATE that sees all rows keeps keys unique, however it ends |
| StatementModel.NewValuesAre | pkg/executor/executor.go:776-795 | the new values of a row: the last SET of a column wins, a column without one keeps its value |
| StatementModel.BecomesOne | pkg/executor/executor.go:776-795 | there is one such row only |
| StatementModel.OutcomeRows | pkg/executor/executor.go:753-833 | after an UPDATE each replaced row has what SET promises for it, and all rows not matched are as before |
| StatementModel.UniqueInsert | pkg/executor/executor.go:486-506 | a new row keeps keys unique exactly if none of its keys is taken |
| Statements.Executor.ExecuteDrop | pkg/executor/executor.go:663-719 | exactly the rows that a scan sees go, all of them with a frame free; other tables are untouched, and reopening the file finds the same |
| Indexing.CreateIndex | pkg/executor/executor.go:310-370 | the index is the tree of the printed rows seen, inserted in RID order; it fails exactly if writing some leaf panics, never on rows that print to 10 bytes or less; the table is untouched |
| Indexing.OpsInRowOrder | pkg/executor/executor.go:345-359 | each row with an int in the column gives one insertion, of its printed form under that int, in row order |
| Indexing.IndexFindsARow | pkg/executor/executor.go:310-370 | a search of the index for an int finds the printed form of some row with that int, exactly if there is one |
| Indexing.IndexFindsTheRow | pkg/executor/executor.go:310-370 | if no two rows have the same int, it finds exactly the row with it |
| Indexing.KeyIntsUnique | pkg/executor/executor.go:310-370 | in a PRIMARY KEY or UNIQUE column with unique keys no two rows have the same int |
| Indexing.IndexHasNoCopies | pkg/executor/executor.go:310-370 | the index of such a column has no unseen copies, so its scans are sorted |
| StatementModel.UniqueReplace | pkg/executor/executor.go:753-833 | replacing a row by one whose keys no other row has keeps keys unique |
| StatementModel.UpdateKeepsFree | pkg/executor/executor.go:753-833 | checking only the columns an update names is enough |
| StatementModel.FilteredIs | pkg/executor/executor.go:868-876 | a filter keeps exactly the rows that satisfy the condition, in order |
| Heap.HeapFile.ClearPagesByTableID | pkg/executor/executor.go:722-750 | exactly the pages of the table that can be fetched become blank, and it never fails |
| PathModel.AllPathsAre | pkg/graph/iterator.go:141-205 | the depth-first search finds exactly the simple paths of fewer edges than the limit, each once, and in the order in which the edges are listed where they part |
| SearchModel.FoundIffReachable | pkg/graph/iterator.go:40-138 | a breadth-first search has an answer exactly if a walk within the limit reaches the target |
| SearchModel.LastRound | pkg/graph/iterator.go:40-138 | when the queue is empty the paths are valid and sorted, the first is shortest, and there is exactly one for each last step from an approachable node, none longer than needed |
| SearchModel.AnswersDiffer | pkg/graph/iterator.go:40-138 | no path is returned twice |
| SearchOrder.FoundFirst | pkg/graph/iterator.go:76-134 | the path to a node just discovered comes before every other walk of that length to it, by the edge listed first where they part |
| SearchOrder.LastOrder | pkg/graph/iterator.go:40-138 | the answer is in order: shorter paths first, then by the edge listed first where they part; each comes to its last step by the first of all shortest walks |
| SearchOrder.OneAnswer | pkg/graph/iterator.go:40-138 | links, limit and the two nodes determine the answer, path by path and in its order |
| CodeGraph.Graph.FindPath | pkg/graph/iterator.go:40-138 | returns such an answer, in such an order, the one-node path from a node to itself, or that a node is missing; every path goes along live edges of the types and direction asked for, without meeting a node twice, and the first is as short as any such way |
| CodeGraph.Graph.FindAllPaths | pkg/graph/iterator.go:141-149 | returns exactly the ways along live edges of the types and direction asked for that meet no node twice and have fewer edges than the limit, each once, in the order of the edges where they part |
| CodeGraph.Graph.DfsFrom | pkg/graph/iterator.go:151-205 | appends exactly the paths of the recursive definition and leaves the marks as they were |
| CodeGraph.Graph.AddNode | pkg/graph/graph.go:85-111 | one more node under the next id, and all indexes list exactly what lives; a refused node still uses up its id |
| CodeGraph.Graph.AddEdge | pkg/graph/graph.go:114-136 | one more edge between live nodes, in all three edge indexes, or an error that changes nothing |
| CodeGraph.Graph.DeleteNode | pkg/graph/graph.go:320-346 | the node and exactly the edges that join it go, from the indexes too |
| CodeGraph.Graph.DeleteEdge | pkg/graph/graph.go:349-372 | exactly the edge goes, from all three edge indexes |
| CodeGraph.Graph.FindNodes | pkg/graph/graph.go:139-180 | each node is found as often as the query hits it, through whichever index; with a label or property asked for, in the order in which the nodes were made |
| CodeGraph.Graph.GetEdges | pkg/graph/graph.go:190-213 | exactly the edges that leave the node, then exactly those that reach it, as the direction asks, each part in the order in which they were made |
| GraphModel.EdgesAtAre | pkg/graph/graph.go:190-213 | these are exactly the live edges of the node in that direction |
| GraphModel.EdgesInOrder | pkg/graph/graph.go:114-136 | first exactly the edges that leave the node, then exactly those that reach it, each part in the order in which the edges were made, whatever was added or deleted |
| GraphModel.OneOrder | pkg/graph/graph.go:190-213 | there is one such list only |
| GraphModel.WalkIsJoined | pkg/graph/iterator.go:62-98 | the walks of a search are exactly the ways along live edges of the types and direction asked for |
| GraphModel.HitsAreFilter | pkg/graph/graph.go:139-180 | with distinct labels, every live node that matches is found once and no other |
| GraphModel.RemovedCounts | pkg/graph/graph.go:374-382 | removing an id removes all its occurrences and no other id |
| InstructionTree.TreeIffChainsEnd | pkg/context/memory.go:615-632 | the recursion from 0 has a finite tree exactly if no id comes twice on a chain from 0 |
| InstructionTree.UniqueChainsEnd | pkg/context/memory.go:615-632 | different nonzero ids are enough for that |
| InstructionTree.EndlessLists | pkg/context/memory.go:620-632 | two lists on which the recursion never ends |
| InstructionTree.OneTree | pkg/context/memory.go:620-632 | a list has at most one tree |
| InstructionTree.ShapedIsInListOrder | pkg/context/memory.go:620-632 | a tree is that of the list exactly if the roots, and the children of every node, are those with that parent in list order |
| InstructionTree.TreeHasReachable | pkg/context/memory.go:615-632 | the tree has exactly the instructions that a chain of parents from 0 leads to |
| InstructionTree.TreeHasEachOnce | pkg/context/memory.go:615-632 | with different ids, each of them once |
| InstructionTree.BuildInstructionTree | pkg/context/memory.go:620-632 | the recursion ends on every list whose chains end, with the tree: the children of every node are the instructions with that parent, all of them and in list order |
| InstructionTree.GetInstructionTree | pkg/context/memory.go:615-618 | the tree has exactly the instructions reached from 0, each once if ids differ, siblings in list order |
| SqlRoundTrip.PrintParses | pkg/parser/ast.go:139-155 | the printed text of a clean statement parses to the statement |
| SqlRoundTrip.PrintParsesIffClean | pkg/parser/ast.go:106-155 | for every statement: it comes back from its printed text exactly if it is clean |
| SqlRoundTrip.AnyCaseParses | pkg/parser/lexer.go:116-132 | so does the text with its keywords in any mix of upper and lower case |
| SqlRoundTrip.KeywordInAnyCase | pkg/parser/lexer.go:116-132 | a word is read as a keyword exactly if it spells it in some mix of cases |
| SqlRoundTrip.TruthInAnyCase | pkg/parser/lexer.go:116-123 | TRUE, FALSE and NULL in any mix of cases are literals, and no other words |
| SqlRoundTrip.ParsedPrintsBack | pkg/parser/parser.go:16-47 | every statement parsed from a text without quotes prints to a text that parses to it |
| SqlRoundTrip.NameComesBackAsIdentifier | pkg/parser/ast.go:106-130 | a literal that reads as a name comes back as an identifier |
| Sql.Lexer.Tokenize | pkg/parser/lexer.go:61-158 | the position-moving loop ends on every input with the tokens of the recursive definition, or its error |
| SqlGrammar.NamesAre | pkg/parser/lexer.go:44-58 | a word is a name exactly if it is not the star and spells no reserved word in any case |
| SqlGrammar.LexAlone | pkg/parser/lexer.go:61-158 | what every single character is read as, by its code |
| SqlGrammar.LexBehindLetter | pkg/parser/lexer.go:105-133 | which characters go on a word |
| SqlGrammar.LexBehindDigit | pkg/parser/lexer.go:95-103 | which characters go on a number |
| SqlGrammar.LexBehindDot | pkg/parser/lexer.go:95-103 | a dot begins a number exactly before a digit |
| SqlGrammar.LexBehindOperator | pkg/parser/lexer.go:135-145 | an equals sign goes on an operator, nothing else does |
| SqlGrammar.LexComment | pkg/parser/lexer.go:72-78 | what stands behind two dashes is skipped to the end of the line |
| SqlGrammar.LexQuoted | pkg/parser/lexer.go:80-93 | what stands between two quotes of one kind is one literal as it stands |
| Sql.Parser.ReadDelete | pkg/parser/parser.go:475-502 | the position-moving parser reads what the function on tokens does, with the same errors |
| Sql.Parser.ReadCreateIndex | pkg/parser/parser.go:396-435 | the same for CREATE INDEX |
| Sql.Parser.ReadCondition | pkg/parser/parser.go:437-473 | the same for a condition |
| SqlGrammar.ParsesIffBegins | pkg/parser/parser.go:396-502 | a token list parses to a statement exactly if it begins with that statement's tokens; what follows them is not looked at |
| SqlGrammar.TextParsesIff | pkg/parser/parser.go:16-47 | a text parses to a statement exactly if its tokens begin so |
| Sql.ParseText | pkg/parser/parser.go:16-47 | lexer and parser together read DELETE and CREATE INDEX statements, and refuse others and malformed ones, as the recursive definitions do |

## Left out

- Locks, operating-system errors, logging, syncing and the printing of trees and tables. The one lock that matters,
  in `UpdateRow`, is modelled as the error `Deadlock`; a panic, which the executor recovers from, as the error
  `Panicked` or as a method that is not `ok`.
- Reads and writes of the page file never fail, and its length is a multiple of the page size. Pages of tables have
  numbers below 2^51, as file offsets are int64 numbers.
- BTree.BTree.Insert: requires that page numbers stay below 2^64. After a panic nothing is said about the index; CREATE
  INDEX then drops it. Dead branches of the source (a root of 0, a clamped child index, unreadable nodes) do not
  occur under its invariant and are not in the methods.
- BTree.BTree.Search: a value is returned for a found key only; the boolean beside it in the source is the option.
- The index is modelled over a store that gives back what was written, which is what its interface
  promises; what the real adapter does with single pages is `IndexAdapter`. Loading an index from an existing file
  does not exist in the source, and no statement reads an index.
- BTree.BTree.DropCache: reading an index back from its pages, which the source never does, is stated for an index
  whose nodes all fit their pages.
- Heap.HeapFile.InsertRow: requires that the page count stays below 2^51 - 1. Values have the types of their
  columns; the conversions of other Go values (to int32, to text by formatting) are left out, and a float is its bits.
  A page without rows whose owner was written but not reported as a change does not count among the pages with room:
  it loses that owner when it is evicted.
- Statements.Executor.ExecuteInsert: looking up the table by name, parsing values, AUTOINCREMENT ids and column lists
  are left out, and how a value prints is a parameter.
- Statements.Executor.ExecuteDrop: removing the table from the catalog and its indexes from the executor is left out.
- Indexing.CreateIndex: requires that the page numbers of the index stay below 2^64. Looking up table and column is
  left out, and how a row prints is a parameter.
- SELECT, joins, ordering, aggregates, CREATE TABLE, transactions, the catalog file and DROP IF EXISTS.
- Evaluating a condition is a parameter of the statements: any predicate on the values of a row.
- CodeGraph.Graph.AddNode: whether the store takes the node is a parameter; loading and saving the graph, references
  and name resolution are left out. Property values are their printed texts.
- CodeGraph.Graph.FindNodes: with a label carried twice by a node the index lists it twice, and so does the result;
  the contract counts it so.
- Sql.ParseText: reads DELETE and CREATE INDEX; all other commands are read as unknown. SELECT, INSERT, UPDATE and
  CREATE TABLE print only a summary of themselves in the source, so no text of theirs parses back.
- InstructionTree.BuildInstructionTree: requires that no chain from 0 meets an id twice; on all other lists the source
  does not return.
- Context windows, snapshots, configuration, the server, agents and the language parsers of the graph.
