# AFF4 reader: a verified model

This project models the parts of the AFF4 C++ library that decide which bytes a forensic image
returns, together with the raptor2 code in the same tree that its RDF layer is built on, and proves
what they promise.

* **The read stack.** `MapStream.dfy` builds the interval map of an `aff4:Map` from its unsorted
  entries and reads through it. Below it, `ImageStream.dfy` assembles compressed image streams chunk
  by chunk through two LRU caches (`Lru.dfy`, `LruStack.dfy`), a bevvy index and the zip file
  (`Container.dfy`), and `Lower.dfy` adds the repeated-pattern and symbolic streams. The main result
  is `MapStreams.MapStream.Read`: whatever was read before and however large the caches are, each
  byte delivered is the one that a plain scan of the entries as given, followed by locating and
  decoding its chunk, names. `Sparse.dfy` is the plugin's sparse-range query over the same map, and
  `LruNested.dfy` lets a loader use the cache it loads for. `ImageArchive.dfy` closes the circle: an
  image cut into chunks, bevvies and index segments, written into an archive and opened there, reads
  back as what was written (`ImageArchive.OpenAndRead`). `ImageFile.dfy` lays any image out as such an
  archive, and `MapFile.dfy` reads maps over images so stored: from the bytes stored to the bytes a read
  of the map delivers (`MapFile.StoreMapAndRead`).
* **The AVL tree.** `AvlTree.dfy` is insertion and removal on heap nodes with parent pointers and
  balance bytes, `AvlIterator.dfy` the iterator that walks ranges by child and parent links,
  `AvlSearch.dfy` the search and its cost, `AvlRuns.dfy` what a tree holds after any run, and a range
  over several items.
* **The archive.** `ZipReader.dfy` is the reader of the central directory, `ZipWriter.dfy` the layout
  that the PKWARE APPNOTE 6.3 prescribes, and `ZipArchive.dfy` says what reading a written archive
  gives, and exactly when it gives everything; `ZipFaults.dfy` holds archives that are opened wrong.
  `FastPath.dfy` is the shortcut for the container's identifier against the way through the archive.
* **Text and time.** `NTriples.dfy` is the chunked line splitter and `LineEnds.dfy` says where lines end
  without scanning for it; `Escape.dfy` is the escaping writer over UTF-8, `EscapeModes.dfy` what readers
  make of what it writes in each mode, `Calendar.dfy` two closed forms for UTC time against a calendar counted day by day.

Classes stand for the objects the source updates in place, with its fields; ghost fields hold the
value a heap structure represents. Unsigned 64-bit wrap-around is written out where it can matter
(`Bytes.Truncate`, `ZipReader.Wrap`, `FastPath.Limit`).

## Working domain

* Map entries have positive length, do not wrap 2^64 and are pairwise disjoint; the streams hold
  every byte the entries name, and the gap stream the whole map.
* Chunk sizes and chunks per segment are positive and below 2^32, bevvy ids fit 32 bits, cache
  capacities are at least 1, every non-empty index point of the image lies in the file, and the codec
  fills a chunk.
* A stored segment is read from as much of the file as there is. A bevvy index is read whole in one
  read, and lies in the file.
* What is looked up in a tree or walked as a range compares monotonely with its items, and may equal
  several of them. What is removed also compares the same from either side, and so does what is
  inserted; where insertion takes the place of an equivalent, there is at most one. A handler that is
  a three-way comparison of a total preorder on the items stored gives all of this for each of them
  (`AvlModel.ItemsAreKeys`).
* Requests satisfy offset + count < 2^64. `Bytes.TruncateExact` shows that the shortening every
  stream does is right exactly then.
* Archives may be classic or Zip64, their members anything the format allows, their local records in
  any order and place. Header offsets count from the start of the file.

## Where the code falls short of its promise

Each of these is stated exactly, over all inputs, with lemmas that show inputs on which it fails.
Archives that show a failure are complete, and the lemma says what opening them gives.

* The Zip64 field of a directory record is opened only when the header offset is saturated, and plain
  sizes are read as signed on Windows. So sizes come out right exactly under
  `ZipRoundTrip.SizesRight` (`ZipFaults.LargeFirstMember`, `ZipFaults.SignedSize`).
* The Zip64 end record is consulted only when the directory offset is saturated, not for a saturated
  count or size, and then it is taken to be the 56 bytes in front of its locator, so that an extensible
  data sector hides it. The directory is found exactly under `ZipArchive.DirectoryRight`
  (`ZipArchive.DirectoryExact`). Elsewhere nothing is read unless a directory record happens to be
  there (`ZipArchive.ReadsNothing`; `ZipFaults.SaturatedCount`, `ZipFaults.SaturatedSize`,
  `ZipFaults.HiddenRecord`).
* The end record is found exactly when it lies in the last 4096 bytes and not at the first of them
  (`ZipArchive.ParseTakes`, `ZipFaults.FarEnd`); on an archive that is nothing but that record the
  source dereferences a null pointer (`ZipFaults.BareEnd`).
* Together: everything is read as written where `ZipArchive.ReadRight` holds (`ZipArchive.ReadsRight`),
  and only there (`ZipArchive.ReadsExactly`).
* Members are read up to the first whose local record is not where the directory says
  (`ZipArchive.ReadsUpTo`). An archive put behind other data is such a one: the source shifts the
  directory, but not the local headers (`ZipFaults.Prepended`).
* The walk over extra records has a 16-bit cursor that may wrap. The walk never ends exactly when it
  comes back to a state it has been in (`ZipReader.EndlessExactly`; `ZipFaults.Looping` is a file of 72
  bytes on which the reader does not come back). It ends where no length in the area leads past 16 bits
  (`ZipReader.ChainEnds`), and may end where one does (`ZipReader.WrappedExtra`).
* The closed form for UTC seconds divides towards zero, so it is exact in all years from 1968 on, but
  before that only in the years of `Calendar.YearExact` (`Calendar.TimegmExact`, `LateIn1967`).
* The UTF-8 reader refuses U+FFFE and U+FFFF, so a valid text escapes exactly when it holds neither
  (`Escape.EscapeRoundTrip`, `RefusedText`); with a delimiter of 128 or more, also no character that
  begins with it (`EscapeModes.StringsRecover`). It accepts texts that are not valid
  (`Escape.LaxReader`), but among the forms of up to four bytes only the shortest (`Escape.NotOverlong`).
* In IRIs a backslash is written as two, which no IRI may hold, so IRIs read back exactly when they hold
  none (`EscapeModes.IrisRecover`). In JSON strings characters beyond the first plane are written as an
  escape that JSON does not have, so those strings read back exactly when they hold none
  (`EscapeModes.JsonRecovers`).
* The splitter remembers the CR of a CR LF past its LF, so a cut behind it loses a line. A cut loses one
  empty line exactly if the chunk before it ends like that and the text behind it is empty or starts
  with a LF that is not its end (`NTriples.CutLines`); over many chunks the lines are those of the whole
  exactly when no cut does (`NTriples.LinesLost`, `NTriples.SwallowedLF`). Only empty lines differ, so
  what the line parser gets does not (`NTriples.ChunksDoNotMatter`).
* The size guard of the identifier shortcut adds the name and extra lengths where it should take them
  off; it answers from its buffer exactly when the record fits (`FastPath.ShortcutReads`), and reads past
  it on archives whose description is 4046 to 4087 bytes long (`FastPath.PastTheBuffer`).
* Bevvy names keep the first eight digits of the id: the name of a bevvy is new exactly below a hundred
  million (`Container.BevvyNameNew`).

## Model

| member | source | states |
|---|---|---|
| AvlTree.AvlTree.Add | win32/raptor2/src/raptor_avltree.c:249-267 | On any valid tree: the tree stays ordered, balanced, with agreeing parent and child links and the right size; an item without equivalent is inserted at its place in the order, one with an equivalent leaves the items alone or takes its place under the flag; the free handler gets exactly the dropped item; a failed allocation changes nothing; c calls of the comparison handler in a tree of n items mean 2^ceil(c/2) <= n+1 |
| AvlTree.AvlTree.AddConserves | win32/raptor2/src/raptor_avltree.c:249-267 | With a free handler nothing is lost: the old items and the one added are the new items and those handed to it, in every case |
| AvlTree.AvlTree.Sprout | win32/raptor2/src/raptor_avltree.c:662-742 | A subtree stays an AVL subtree linked under its parent, its items are the old ones with the item added, and the rebalancing flag is set exactly when it grew one level; the handler is called exactly as often as counted |
| AvlTree.AvlTree.SproutLeft | win32/raptor2/src/raptor_avltree.c:443-546 | The same for the branch that descends left, through no, a single or a double rotation |
| AvlTree.AvlTree.SproutRight | win32/raptor2/src/raptor_avltree.c:549-652 | The same for the branch that descends right |
| AvlBalance.GrewLeft | win32/raptor2/src/raptor_avltree.c:464-543 | After the left subtree grew: same nodes and items, AVL again, and the flag says exactly whether the whole grew |
| AvlBalance.GrewRight | win32/raptor2/src/raptor_avltree.c:572-649 | The same after the right subtree grew |
| AvlTree.AvlTree.Remove | win32/raptor2/src/raptor_avltree.c:282-305 | On any valid tree: exactly the equivalent item is removed and returned, or nothing changes; the whole heap invariant is kept; no node is added |
| AvlTree.AvlTree.Delete | win32/raptor2/src/raptor_avltree.c:317-329 | Removal that hands the removed item, and only it, to the free handler, and tells whether there was one |
| AvlTree.AvlTree.DeleteInternal | win32/raptor2/src/raptor_avltree.c:745-809 | The subtree loses the equivalent item and one node, and a flag still set means exactly that it lost a level |
| AvlTree.AvlTree.DeleteHere | win32/raptor2/src/raptor_avltree.c:777-805 | The item found is removed whether it has no, one or two children |
| AvlTree.AvlTree.DeleteSwap | win32/raptor2/src/raptor_avltree.c:797-805 | With two children the in-order predecessor takes the item's place in the node |
| AvlTree.AvlTree.DeleteRightmost | win32/raptor2/src/raptor_avltree.c:812-844 | The last item of a subtree moves to the given node, whose old item is returned; the rest stays an AVL subtree one level lower exactly when the flag is set |
| AvlBalance.BalanceLeft | win32/raptor2/src/raptor_avltree.c:847-926 | After the left subtree lost a level: same nodes and items, AVL again, and the flag stays exactly when the whole lost a level |
| AvlBalance.BalanceRight | win32/raptor2/src/raptor_avltree.c:929-1007 | The same after the right subtree lost a level |
| AvlBalance.RotatedLeftRightItems | win32/raptor2/src/raptor_avltree.c:499-529 | A left-right double rotation keeps the order of the items and the set of nodes |
| AvlBalance.RotatedRightLeftItems | win32/raptor2/src/raptor_avltree.c:605-635 | A right-left double rotation keeps the order of the items and the set of nodes |
| AvlTree.AvlTree.SearchInternal | win32/raptor2/src/raptor_avltree.c:198-216 | The recursive search calls the comparison handler exactly as often as counted |
| AvlTree.AvlTree.Find | win32/raptor2/src/raptor_avltree.c:228-234 | Returns an item equivalent to the one asked for, or none exactly when no item of the tree is, for items and ranges; with logarithmically many calls of the handler |
| AvlSearch.SearchComplete | win32/raptor2/src/raptor_avltree.c:198-216 | The recursive search misses only what is not in the subtree, also for ranges |
| AvlSearch.SizeAtLeastFib | win32/raptor2/src/raptor_avltree.c:662-742 | An AVL tree of height h holds at least Fib(h+2)-1 items |
| AvlSearch.LogarithmicSearch | win32/raptor2/src/raptor_avltree.c:198-216 | The calls that search and insertion count, c of them in a tree of n items, satisfy 2^ceil(c/2) <= n+1 |
| AvlModel.ItemsAreKeys | win32/raptor2/src/raptor_avltree.c:71-72 | Where the handler orders the stored items as a total preorder, each of them can be stored, looked up and removed |
| AvlRuns.Run | win32/raptor2/src/raptor_avltree.c:249-305 | After any run of insertions and removals the tree is valid, and holds an equivalent of an item exactly when the last operation on one put it there |
| AvlRuns.RangeOfTwo | win32/raptor2/src/raptor_avltree.c:1268-1273 | A range equal to both items of a tree yields both, in either order |
| AvlOrder.IndexOf | win32/raptor2/src/raptor_avltree.c:89-107 | Each node of a linked tree has its own index in the in-order sequence, and the item there is the node's |
| AvlOrder.ParentOf | win32/raptor2/src/raptor_avltree.c:89-107 | Parent links agree with the in-order sequence: where a node's subtree lies within its parent's |
| AvlOrder.TopMatch | win32/raptor2/src/raptor_avltree.c:1296-1305 | Every match of a range lies below the topmost match that search finds |
| AvlIterator.NodeNext | win32/raptor2/src/raptor_avltree.c:1186-1245 | By child and parent links alone it reaches the node of the next index if that is in range, else nothing |
| AvlIterator.NodePrev | win32/raptor2/src/raptor_avltree.c:1123-1182 | The same for the previous index |
| AvlIterator.ClimbNext | win32/raptor2/src/raptor_avltree.c:1214-1235 | The walk up reaches the node right behind the subtree in the order, or nothing at its end; the branch that descends again is never taken |
| AvlIterator.ClimbPrev | win32/raptor2/src/raptor_avltree.c:1151-1172 | The walk up reaches the node right before the subtree in the order, or nothing at its start |
| AvlIterator.Leftmost | win32/raptor2/src/raptor_avltree.c:1042-1057 | Descends while the left child is in range |
| AvlIterator.SearchRight | win32/raptor2/src/raptor_avltree.c:1078-1097 | Finds a match below a node out of range by descending right, if there is one |
| AvlIterator.SearchLeft | win32/raptor2/src/raptor_avltree.c:1101-1120 | The same by descending left |
| AvlIterator.Begin | win32/raptor2/src/raptor_avltree.c:1296-1341 | A new iterator stands at the first match of the whole tree, or the last one backwards, or nowhere if there is no match |
| AvlIterator.Iterator.constructor | win32/raptor2/src/raptor_avltree.c:1277-1344 | The iterator's fields, valid and standing where the walk begins |
| AvlIterator.Iterator.Next | win32/raptor2/src/raptor_avltree.c:1395-1416 | Steps to the next match in the direction or finishes, and stays finished |
| AvlIterator.Iterator.Get | win32/raptor2/src/raptor_avltree.c:1427-1440 | The current item, none at the end |
| AvlIterator.MatchingHolds | win32/raptor2/src/raptor_avltree.c:1060-1075 | The items in range are exactly those that the handler takes as equal to the range, or all items without one |
| AvlIterator.Collect | win32/raptor2/src/raptor_avltree.c:1452-1478 | Running an iterator to its end yields exactly the items in range, however many, each once, in sorted order, or backwards item by item |
| Lru.Cache.Get | src/utils/Cache.h:80-96 | With a loader that does not use the cache, for capacity at least 1: the value is the loader's, and the held keys are the old ones with this one first, cut to the capacity |
| Lru.Cache.Find | src/utils/Cache.h:80-96 | A held key yields the loader's value and moves to the front; a missing one changes nothing |
| Lru.Cache.Load | src/utils/Cache.h:85-90 | Storing a loaded value and using it, also when the loader itself has used the cache since the miss |
| Lru.Cache.Put | src/utils/Cache.h:140-155 | The list keeps distinct keys, the map points each key at its own node, every value is the loader's, the size stays within the capacity |
| Lru.Cache.Exists | src/utils/Cache.h:104-107 | Tells whether the key is among those held |
| Lru.Cache.Invalidate | src/utils/Cache.h:123-128 | Empties list and map together |
| Lru.PutStep | src/utils/Cache.h:140-147 | Pushing a node and erasing the old node of its key keeps list and map in step |
| Lru.FindStep | src/utils/Cache.h:93-94 | Splicing a node to the front keeps list and map in step |
| LruStack.RecentIsMostRecentFirst | src/utils/Cache.h:80-96 | The recency order lists each requested key once, later use first |
| LruStack.HeldIsMostRecent | src/utils/Cache.h:140-155 | After any requests a cache of capacity n holds exactly the n most recently used keys, in order |
| LruStack.LargerCacheHits | src/utils/Cache.h:140-155 | So what it holds is a prefix of what a larger cache holds, and the larger one hits whenever it does |
| LruNested.Ask | src/utils/Cache.h:80-96 | With a loader that itself asks the same cache, to any depth: the value is the loader's, the cache stays consistent, and the keys held are those after all uses, inner ones first |
| LruNested.ServeNested | src/utils/Cache.h:157-162 | Every answer of a run of such requests is the loader's, and at the end the n most recently used of all keys used are held |
| LruStack.Serve | src/utils/Cache.h:80-155 | Every answer of a whole run through one cache is the loader's |
| Bytes.TruncateExact | src/zip/Zip.cc:363-369 | The shortening of a request at the end of a stream yields the bytes that are left exactly when offset + count does not wrap |
| Bytes.LeRoundTrip | src/stream/struct/MapEntryPoint.h:50-69 | Little-endian fields read back |
| Container.FileRead | src/zip/Zip.cc:355-405 | Whatever a positioned read delivers is a piece of the file at the offset asked for, non-empty if there is one |
| Container.SegmentRead | src/zip/ZipStream.cc:52-77 | Reading an open stored segment delivers a piece of the segment's contents at the offset asked for, also where the file ends before the segment |
| Container.PointsRoundTrip | src/stream/struct/BevvyIndex.cc:56-61 | Index points written as twelve bytes each read back as they were |
| Container.BevvyNamesDiffer | src/stream/struct/BevvyIndex.cc:30-33 | Bevvies below a hundred million have distinct segment names |
| Container.BevvyNamesClash | src/stream/struct/BevvyIndex.cc:30-33 | From there on every name is that of the bevvy with the last digit cut off |
| Container.BevvyNameNew | src/stream/struct/BevvyIndex.cc:30-33 | No earlier bevvy has a bevvy's name exactly when its id is below a hundred million |
| ImageStreams.ChunkAddressing | src/stream/struct/ChunkLoader.cc:44-57 | Chunk numbers and (bevvy, slot) pairs correspond one to one |
| ImageStreams.ChunkLoader.ReadChunk | src/stream/struct/ChunkLoader.cc:82-98 | For every schedule of short reads the buffer ends up with exactly the file bytes of the point |
| ImageStreams.PointInSegment | src/stream/struct/ChunkLoader.cc:67-80 | Those are the bytes of the stored bevvy segment at the point's offset |
| ImageStreams.ChunkLoader.Load | src/stream/struct/ChunkLoader.cc:37-119 | Through the index cache, whatever it holds, the chunk loaded is the direct meaning of its offset |
| ImageStreams.ImageStream.GetChunk | src/stream/ImageStream.cc:210-217 | Through both caches the chunk is still the direct meaning of its offset |
| ImageStreams.ImageStream.CopyFromChunk | src/stream/ImageStream.cc:205-227 | Each pass copies bytes that are what the image holds there, or finds the first one missing |
| ImageStreams.NotStoredIsMissing | src/stream/struct/ChunkLoader.cc:44-67 | A byte is missing whose bevvy or index has no segment, or whose index ends before its point or has the length zero there |
| ImageStreams.ImageStream.Read | src/stream/ImageStream.cc:176-232 | Delivers min(count, size-offset) bytes, each equal to its direct meaning whatever was read before, and nothing else in the buffer changes; fails when nothing is stored for one of them, and only when one is missing |
| ImageStreams.ChunkSupplies | src/stream/ImageStream.cc:218-221 | A slice of a chunk is what the image holds at the slice's addresses |
| LowerStreams.Fill | src/stream/RepeatedImageStream.cc:46-53 | The megabyte is filled with whole copies of the symbol from its start, the last one cut |
| LowerStreams.RepeatedStream.Read | src/stream/RepeatedImageStream.cc:73-100 | Byte j of a read is pattern[((offset+j) mod 2^20) mod length], across any number of megabyte boundaries |
| LowerStreams.RepeatedStream.CopyPiece | src/stream/RepeatedImageStream.cc:87-95 | One piece of the block extends the pattern delivered so far without a break, and nothing else in the buffer changes |
| LowerStreams.FilledPiece | src/stream/RepeatedImageStream.cc:84-89 | A piece of the block is the pattern at the address it is read for |
| LowerStreams.ReadLower | src/stream/MapStream.cc:112-124 | Any stream a map can name delivers exactly its own bytes, or fails for one that is missing, and leaves the rest of the buffer alone |
| OrderedMap.LowerBound | src/stream/MapStream.cc:98 | The first key not before the one asked for, none if all are before it |
| OrderedMap.Before | src/stream/MapStream.cc:101-109 | The last key before a position, or the last key of all |
| MapStreams.UnknownByte | src/stream/MapStream.cc:273-281 | Byte o of an unknown stream is byte o mod 2^20 mod 7 of the word UNKNOWN |
| MapModel.CoverUnordered | src/stream/MapStream.cc:240-249 | Among disjoint entries at most one covers a byte, so the order of the list does not matter |
| MapModel.TileAtFacts | src/stream/MapStream.cc:98-110 | In a tiling the byte's tile covers it, stands under its own offset, and no other tile starts inside it |
| MapModel.AddTile | src/stream/MapStream.cc:270-283 | A tile added at the end leaves the meaning of every earlier byte alone |
| MapStreams.SortEntries | src/stream/MapStream.cc:248-249 | Disjoint entries sort into a chain with the same entries, each ending before the next begins |
| MapStreams.GapStep | src/stream/MapStream.cc:258-272 | A gap filled before the next entry names the gap stream at the same offset |
| MapStreams.EntryStep | src/stream/MapStream.cc:273-283 | An entry placed at the cursor keeps the meaning of all bytes, also with a repaired stream id of the same class |
| MapStreams.BuildMap | src/stream/MapStream.cc:225-301 | From any disjoint list: the entries tile [0, end) with no gap or overlap and cover the length, keys equal entry offsets, ids name existing streams, every byte means what the unsorted list says; the length is the one given, or else where the last entry ends |
| MapStreams.AddUnknown | src/stream/MapStream.cc:273-281 | A larger id gets an unknown stream of its own, with all others kept |
| MapStreams.MapStream.constructor | src/stream/MapStream.cc:28-41 | A map without entries or length is closed; any other is valid and represents the entries given |
| MapStreams.FindEntry | src/stream/MapStream.cc:98-110 | lower_bound with its step back finds the entry that covers the offset |
| MapStreams.TileHolds | src/stream/MapStream.cc:112-124 | What a piece of a tile holds or lacks is what its stream holds or lacks |
| MapStreams.MapByteUnordered | src/stream/MapStream.cc:240-249 | What a map holds does not depend on the order of its entries |
| MapStreams.OneReadOrTwo | src/stream/MapStream.cc:62-134 | Reading a range at once and reading it in two adjacent parts fail together or deliver the same bytes, whatever the caches held before and between |
| MapStreams.MapStream.ReadTile | src/stream/MapStream.cc:91-129 | One pass extends what is delivered by at least one byte, or shows one missing below |
| MapStreams.MapStream.Read | src/stream/MapStream.cc:62-134 | Delivers min(count, size-offset) bytes, each the byte that a scan of the entries as given, the translation, and the direct meaning of the stream below name; fails only when one is missing below |
| Sparse.TileSparse | win32/xwaysPlugin/Util.cc:147-152 | All bytes of a tile are as sparse as the name of its stream says |
| Sparse.SparseNames | win32/xwaysPlugin/Util.cc:93-115 | The sparse names are four, spelled out |
| Sparse.IsSparse | win32/xwaysPlugin/Util.cc:117-160 | A range within the map is reported sparse exactly when every byte of it maps to a stream with one of those four names, spelled out |
| Sparse.OneAnswerOrTwo | win32/xwaysPlugin/Util.cc:117-160 | The answer on a concatenated range is the conjunction of the answers on its parts |
| ZipReader.FileBytes | src/zip/Zip.cc:355-374 | The bytes asked for if the file reaches that far, fewer exactly if it does not |
| ZipReader.LastEnd | src/zip/Zip.cc:194-201 | The last end signature at or before the starting point, except one at the first byte |
| ZipReader.UpToNulIs | src/zip/Zip.cc:219-224 | What is kept of a comment is the part of it before its first NUL, or all of it |
| ZipReader.ZipFile.WalkExtras | src/zip/Zip.cc:301-328 | The extra-field loop ends with what some number of its passes comes to, and is endless exactly when no number of them ends it |
| ZipReader.Repeats | src/zip/Zip.cc:302-327 | A walk whose 16-bit cursor comes back with the same sizes never ends |
| ZipReader.EndlessExactly | src/zip/Zip.cc:302-327 | The walk never ends exactly when two of its states are the same |
| ZipReader.EndlessExtra | src/zip/Zip.cc:302-327 | A record of length 65532 brings the cursor back to where it was, in any file |
| ZipReader.ChainEnds | src/zip/Zip.cc:302-327 | Where the lengths lead through the area without wrapping the 16-bit cursor, the walk ends |
| ZipReader.WrappedExtra | src/zip/Zip.cc:302-327 | A cursor that wraps and still leaves the area |
| ZipReader.ShortField | src/zip/Zip.cc:308-325 | A Zip64 field of less than eight bytes changes nothing |
| ZipReader.EntryByRecords | src/zip/Zip.cc:278-335 | An entry comes only from a directory record with its signature that leads to a local record with its signature |
| ZipReader.FoundByRecords | src/zip/Zip.cc:240-262 | A saturated offset leads to a directory only if a locator of one disk stands in front of the end record and a Zip64 end record in front of that |
| ZipReader.ZipFile.ReadEntry | src/zip/Zip.cc:278-343 | The body of the entry loop computes one directory record |
| ZipReader.ZipFile.ReadEntries | src/zip/Zip.cc:273-352 | The entry loop computes the records; those before a bad one stay |
| ZipReader.ZipFile.ScanBack | src/zip/Zip.cc:194-201 | The backward scan computes LastEnd |
| ZipReader.ZipFile.ParseCD | src/zip/Zip.cc:178-353 | The reader's entries, comment and outcome are those of the specification Parse, on every file |
| ZipRoundTrip.Signatures | src/zip/Zip.h:85-188 | The five signatures, byte by byte |
| ZipRoundTrip.LocalFields | src/zip/Zip.h:120-132 | The fields of a written local header read back, and the data stands behind name and extra field |
| ZipRoundTrip.CdHeaderFields | src/zip/Zip.h:97-115 | The fields of a written directory header read back |
| ZipRoundTrip.EndFields | src/zip/Zip.h:85-94 | The fields of a written end record read back |
| ZipRoundTrip.End64Fields | src/zip/Zip.h:167-178 | The fields of a written Zip64 end record read back |
| ZipRoundTrip.LocatorFields | src/zip/Zip.h:183-188 | The fields of a written Zip64 locator read back |
| ZipRoundTrip.WalkPlain | src/zip/Zip.cc:303-328 | The walk passes every extra record that is not a Zip64 one |
| ZipRoundTrip.WalkResolves | src/zip/Zip.cc:299-329 | Saturated fields resolve from the Zip64 record in the order of the standard, past any records before and after it |
| ZipRoundTrip.EntryIs | src/zip/Zip.cc:277-349 | A written directory record is read as name, sizes, method and data offset of its member |
| ZipRoundTrip.EntriesUpTo | src/zip/Zip.cc:273-352 | A written directory is read up to the first member whose local record is not in its place, and there reading fails |
| ZipRoundTrip.EntriesAre | src/zip/Zip.cc:277-350 | A written directory is read as its members, in its order |
| ZipRoundTrip.SeenIsMeant | src/zip/Zip.cc:285-299 | A member is read as its writer means it exactly when both its sizes are of the kind read right |
| ZipRoundTrip.AllSeenAreMeant | src/zip/Zip.cc:285-299 | The same for all members of an archive |
| ZipArchive.ScanFinds | src/zip/Zip.cc:191-210 | With no later signature the scan ends at the end record if that is past the first byte of the window, else nowhere |
| ZipArchive.DirectoryTaken | src/zip/Zip.cc:231-270 | Where the reader takes the directory of a written archive to start and how many records it reads, for every choice of saturated fields |
| ZipArchive.DirectoryExact | src/zip/Zip.cc:236-270 | It takes the right place and count exactly when nothing is saturated, or the directory offset is and no sector hides the Zip64 record, or the mark happens to be the distance |
| ZipArchive.EmptyArchive | src/zip/Zip.cc:195-203 | On an archive with no members, no comment and nothing in front the scan never runs |
| ZipArchive.ParseTakes | src/zip/Zip.cc:178-353 | What opening any written archive comes to, found or not |
| ZipArchive.ReadsUpTo | src/zip/Zip.cc:178-353 | Opening an archive whose directory is found yields the members up to the first whose local record is not where the directory says |
| ZipArchive.ReadsBack | src/zip/Zip.cc:178-353 | Opening a written archive, classic or Zip64, yields its members in directory order and success; a comment without NUL, or what stands before its first NUL, comes back as it is |
| ZipArchive.ReadsNothing | src/zip/Zip.cc:235-285 | Where the directory is looked for in a place without a record, no member is read, and opening fails unless none was claimed |
| ZipArchive.SizeLeadsAway | src/zip/Zip.cc:235-238 | A saturated directory size leads out of any file smaller than the mark |
| ZipArchive.SectorHides | src/zip/Zip.cc:250-261 | An extensible data sector that does not end like a Zip64 end record leaves the reader without a directory |
| ZipArchive.ReadsRight | src/zip/Zip.cc:178-353 | Where the end record is within reach, the directory is found or no member is there nor claimed, and every size is read right, opening yields every member as its writer means it, the comment up to its first NUL, and success |
| ZipArchive.ReadsExactly | src/zip/Zip.cc:178-353 | Every member is read as its writer means it exactly under that condition |
| ZipFaults.LargeFirstMember | src/zip/Zip.cc:299 | Archives of one compressed member of 4 GiB open with the saturation mark as its size |
| ZipFaults.SignedSize | src/zip/Zip.h:106-107 | Archives of one compressed member of 2 GiB open with a negative size where the fields are signed |
| ZipFaults.SaturatedSize | src/zip/Zip.cc:235-238 | An archive of one member with the directory size saturated but not its offset opens with no member |
| ZipFaults.SaturatedCount | src/zip/Zip.cc:235-238 | An archive of 65535 members with the count saturated but not the directory offset opens with no member |
| ZipFaults.HiddenRecord | src/zip/Zip.cc:250-261 | An archive whose Zip64 end record has a data sector opens with no member |
| ZipFaults.Prepended | src/zip/Zip.cc:330-338 | An archive that opens alone opens with no member behind data that does not start with a P |
| ZipFaults.Looping | src/zip/Zip.cc:301-328 | On a file of 72 bytes, whose only extra record leads back to itself, parsing never ends |
| ZipFaults.BareEnd | src/zip/Zip.cc:195-203 | On an archive of nothing but its end record the scan never runs |
| ZipFaults.FarEnd | src/zip/Zip.cc:184-210 | A comment of 4074 bytes moves the end record to the one place in the window where it is not looked for |
| ImageArchive.PointRead | src/stream/struct/ChunkLoader.cc:43-98 | The point of a byte's chunk, as the index filed in the archive gives it, names exactly the bytes of its piece |
| ImageArchive.ImageRoundTrip | src/stream/ImageStream.cc:176-232 | An image written into an archive and opened there is sound, and each byte of it is the byte of the data |
| ImageArchive.OpenAndRead | src/stream/ImageStream.cc:176-232 | Opening the file, taking the image from its directory and reading delivers exactly the bytes that were written, whatever the capacities of the caches |
| ImageFile.FilingRight | src/zip/Zip.cc:178-353 | An archive of stored members with every size, offset and count in its Zip64 form is read as written, with signed fields or not; its file is as long as computed |
| ImageFile.LayoutFiled | src/stream/struct/BevvyIndex.cc:30-61 | Each bevvy and each index of a laid out image is the first member of its name, up to a hundred million bevvies |
| ImageFile.Storable | src/stream/ImageStream.cc:176-232 | Every image of at most a hundred million bevvies whose members take less than 2^64 - 2^33 bytes, and whose segment names stay apart, can be laid out as an archive that opens as that image |
| ImageFile.StoreAndRead | src/stream/ImageStream.cc:176-232 | Laying an image out, opening the file and reading delivers exactly the bytes stored, for all bytes, pieces, requests and caches |
| ImageFile.StorePlainAndRead | src/stream/ImageStream.cc:176-232 | The same for any data in chunks stored as they are, with the room needed in terms of the data's length |
| MapFile.BytesExpected | src/stream/MapStream.cc:62-134 | Every byte of a map over images that hold some data is the one that a scan of its entries names among the data, the symbol of the gap stream and the unknown pattern |
| MapFile.ExpectedIs | src/stream/MapStream.cc:98-124 | Those bytes spelled out: where an entry is over a byte, the data of the image it names, as far behind the entry's stream offset as the byte lies behind its offset; the gap symbol for the id after the images, and the word UNKNOWN for larger ids |
| MapFile.ExpectedGap | src/stream/MapStream.cc:258-272 | The gap symbol where no entry is |
| MapFile.StoreMapAndRead | src/stream/MapStream.cc:62-134 | Laying images out, opening their files, building a map over them from unsorted disjoint entries and reading it delivers min(count, length-offset) bytes, each the one the entries name among the bytes stored |
| ZipArchive.StoredRoundTrip | src/zip/ZipStream.cc:52-77 | Reading a stored segment of a written archive whole gives the member's data back |
| ZipArchive.DeflatedRoundTrip | src/zip/ZipStream.cc:99-140 | Reading a compressed segment of a written archive inflates the member's data if its size is at most 32 MB, and fails above |
| FastPath.DescriptionName | src/AFF4Containers.cc:193-202 | The name looked for is container.description |
| FastPath.FindDescriptor | src/AFF4Containers.cc:240-250 | The scan finds a data descriptor that lies wholly in the buffer, with none before it, or there is none |
| FastPath.GetResourceID | src/AFF4Containers.cc:115-300 | The identifier is the shortcut's or the whole archive's answer, case by case; nothing for a file of less than 4096 bytes or that does not begin with PK, 3, 4 |
| FastPath.EntrySizeIs | src/AFF4Containers.cc:203-258 | The size of the description is found wherever it is told: in the header, in a Zip64 field, or, where that field is unset or absent, in the first data descriptor |
| FastPath.ShortcutReads | src/AFF4Containers.cc:180-271 | On a description whose size is told the shortcut gives its data exactly when the data lies in the buffer, and falls back exactly above the guard's limit |
| FastPath.ShortcutGivesWay | src/AFF4Containers.cc:236-263 | Where the header is saturated, no field is set and no descriptor lies in the buffer, it falls back |
| FastPath.ShortcutDeclines | src/AFF4Containers.cc:180-202 | It falls back on any other first record |
| FastPath.StreamedFound | src/AFF4Containers.cc:236-271 | Complete archives whose first sizes follow the data, with all ones in the Zip64 field, are identified at once |
| FastPath.CommentIdentifies | src/AFF4Containers.cc:276-298 | The way through an archive without a description gives what its comment says |
| FastPath.DescriptionIdentifies | src/AFF4Containers.cc:276-298 | With one it gives what the first description holds, stored or inflated, and the comment where that is empty or cannot be read |
| FastPath.EmptyIdentifiesNothing | src/AFF4Containers.cc:279-282 | An archive without members is identified by nothing, whatever its comment |
| FastPath.Identify | src/AFF4Containers.cc:115-300 | Whichever way is taken, a container is identified by its description if that stands first and its size is told, and by its comment if it has none |
| FastPath.PastTheBuffer | src/AFF4Containers.cc:252-271 | Complete archives whose description of 4046 to 4087 bytes passes the guard and does not lie in the buffer |
| FastPath.ShortcutAgrees | src/AFF4Containers.cc:115-300 | Where the description comes first, its size is told in any of the three ways, and it fits, the shortcut and opening the archive give the same identifier |
| LineEnds.LineEndsThere | win32/raptor2/src/ntriples_parse.c:443-473 | A line ends at the first CR or LF that is not escaped and has nothing but whole quoted strings and other bytes before it, where an apostrophe in a URI opens no string; there the scan stops, and nowhere else before the end of the text |
| LineEnds.LinesAre | win32/raptor2/src/ntriples_parse.c:423-546 | The lines of a text are the one way to cut it at those places, each line end taken off with them, CR LF as one; a text that ends in CR LF has one more, empty line |
| LineEnds.HandIs | win32/raptor2/src/ntriples_parse.c:493-505 | Lines are handed over in order, all of them or up to the first that is no comment and is rejected |
| LineEnds.IgnoredLine | win32/raptor2/src/ntriples_parse.c:190-203 | A line is passed over exactly if it is blank or a # is its first byte that is not white space |
| NTriples.EndStays | win32/raptor2/src/ntriples_parse.c:443-473 | A line that ends within a text ends there whatever follows, across quotes, backslashes and URIs |
| NTriples.SkippedTwice | win32/raptor2/src/ntriples_parse.c:432-441 | A CR remembered past its LF swallows at most one more LF: only empty lines differ |
| NTriples.CutLines | win32/raptor2/src/ntriples_parse.c:423-546 | The lines of a text cut in two are those of the whole, but for one empty line that is lost exactly where the first part ends at the LF of a CR LF and the second is empty or starts with a LF and goes on |
| NTriples.CutShows | win32/raptor2/src/ntriples_parse.c:423-546 | So a cut shows in the lines exactly under that condition |
| NTriples.LinesLost | win32/raptor2/src/ntriples_parse.c:372-564 | Over any chunks, as many lines are lost as cuts meet the condition, and the lines are those of the whole exactly when none does |
| NTriples.SwallowedLF | win32/raptor2/src/ntriples_parse.c:432-441 | A text of three lines, two of them empty, that comes out as two when cut behind its CR LF |
| NTriples.FeedThen | win32/raptor2/src/ntriples_parse.c:423-546 | The lines a chunk completes, and then those of its tail and what follows, are the non-empty lines of the whole |
| NTriples.ChunksDoNotMatter | win32/raptor2/src/ntriples_parse.c:372-564 | However a text is cut into chunks, the line parser gets the non-empty lines of the whole, up to the first that fails |
| NTriples.AnyCut | win32/raptor2/src/ntriples_parse.c:372-564 | Two cuts of one text give the same lines and the same result |
| NTriples.FindLineEnd | win32/raptor2/src/ntriples_parse.c:443-473 | The scanning loop finds where the line ends |
| NTriples.LineParser.ParseLine | win32/raptor2/src/ntriples_parse.c:165-210 | Empty, blank and comment lines are accepted as they are; only the line's own bytes of the buffer change |
| NTriples.LineParser.Grow | win32/raptor2/src/ntriples_parse.c:388-413 | The new buffer holds the unconsumed tail and then the chunk |
| NTriples.LineParser.SkipLF | win32/raptor2/src/ntriples_parse.c:425-441 | Skips exactly the LF of a CR LF |
| NTriples.LineParser.TakeLine | win32/raptor2/src/ntriples_parse.c:443-505 | One line is handed over and the text behind it is left untouched, or the line is unfinished and nothing changes |
| NTriples.LineParser.Collapse | win32/raptor2/src/ntriples_parse.c:516-546 | Dropping the consumed part keeps exactly the unconsumed tail |
| NTriples.LineParser.ParseChunk | win32/raptor2/src/ntriples_parse.c:372-564 | The lines completed are handed over in order up to the first failure; the saved buffer and offset hold exactly the unconsumed tail, which at the end is empty |
| NTriples.LineParser.ParseChunks | win32/raptor2/src/ntriples_parse.c:372-564 | Whatever chunks a parser is given one after another, the lines handed over are the non-empty lines of all of them up to the first that fails |
| NTriples.LineParser.ParseStream | win32/raptor2/src/raptor_parse.c:534-562 | Whatever the block size, the lines handed over are the non-empty lines of the stream up to the first that fails |
| Calendar.DayByDay | src/RDFValue.cc:97-101 | The count of days goes up by one from each day to the next by the rules of the calendar, from 0 at the epoch |
| Calendar.MyTimegm | src/RDFValue.cc:102-129 | The successive assignments compute the closed form |
| Calendar.YearClosed | src/RDFValue.cc:111-117 | The closed form for days before a year, with division rounding down, equals the count year by year |
| Calendar.TimegmExact | src/RDFValue.cc:102-129 | The result is the seconds counted through the calendar exactly in the years of YearExact, so always from 1968 on |
| Calendar.LateIn1967 | src/RDFValue.cc:113 | Every time in 1967 comes out a day late |
| Calendar.TimegmIncreases | src/RDFValue.cc:102-129 | For normalized dates from 1968 on without DST, the order of results is the order of dates |
| Calendar.DifftmExact | win32/raptor2/src/parsedate.c:2780-2799 | The difference of two dates is that of their counted seconds exactly when the rounding errors of their years cancel, so always from 100 BC on |
| Calendar.FormsAgree | win32/raptor2/src/parsedate.c:2780-2799 | The difference of two closed-form results equals difftm on the same dates exactly when the rounding errors of both cancel, so always from 1968 on |
| Escape.GetEncoded | win32/raptor2/src/raptor_unicode.c:147-251 | The reader inverts UTF-8 on every scalar value but U+FFFE and U+FFFF, which it refuses |
| Escape.HexRoundTrip | win32/raptor2/src/raptor_escaped.c:75-76 | Fixed-width hexadecimal reads back |
| Escape.EscapedWrite | win32/raptor2/src/raptor_escaped.c:52-154 | The loop appends exactly the escaped form, for every flag and every delimiter, a negative `char` included |
| Escape.NegativeDelimiter | win32/raptor2/src/raptor_escaped.c:66-77 | A delimiter that is negative as a signed `char` matches nothing |
| Escape.StepEncoded | win32/raptor2/src/raptor_escaped.c:66-149 | In N-Triples literal mode each encoded character is written as its own escape, or refused |
| Escape.EscapeRoundTrip | win32/raptor2/src/raptor_escaped.c:52-154 | A text escapes exactly when it holds no refused code point; only printable ASCII is written, no quote bare, and the N-Triples string escapes recover the text |
| Escape.EscapeInjective | win32/raptor2/src/raptor_escaped.c:52-154 | Escaping is injective on the texts it accepts |
| Escape.RefusedText | win32/raptor2/src/raptor_unicode.c:244-245 | A text the writer gives up on though its encoding is valid |
| Escape.EncodeExamples | win32/raptor2/src/raptor_unicode.c:147-251 | The encoding that the reader inverts agrees with the examples of RFC 3629 |
| Escape.NotOverlong | win32/raptor2/src/raptor_unicode.c:223-242 | Of the forms of up to four bytes the reader accepts only the shortest |
| Escape.LaxReader | win32/raptor2/src/raptor_unicode.c:147-251 | Three byte sequences it accepts that are not UTF-8 |
| EscapeModes.StringsRecover | win32/raptor2/src/raptor_escaped.c:52-154 | For every delimiter and flag: a text is written to its end exactly if each of its characters can be, and then the string escapes of Turtle recover it, no delimiter stands bare, nor any byte that the flags forbid |
| EscapeModes.WrittenIsRead | win32/raptor2/src/raptor_escaped.c:52-154 | Readers that know only some escapes recover a text exactly if it needs no other |
| EscapeModes.VerticalTab | win32/raptor2/src/raptor_escaped.c:117-121 | The escape that stands for a form feed is written for a vertical tab, where a mode allows it and not the others |
| EscapeModes.IrisRecover | win32/raptor2/src/raptor_escaped.c:80-92 | In an IRI no byte up to blank and none of those an IRI may not hold stands bare, and the numeric escapes recover it exactly if it holds no backslash |
| EscapeModes.JsonRecovers | win32/raptor2/src/raptor_escaped.c:94-146 | The escapes of JSON recover what is written in JSON mode exactly if all characters lie in the first plane |

## Left out

- AvlTree.AvlTree.Add: the tree size is a natural number, not a 32-bit counter; allocation failure is a parameter, and the double rotations write the final links as two single rotations.
- AvlTree.AvlTree.Delete: the free handler is the list of items handed to it; freeing node memory is the node leaving the tree.
- AvlIterator.Iterator.constructor: allocation failure and freeing of the range.
- Lru.Cache.Get: capacity 0, where the source uses an iterator it has just erased, and the recursive mutex.
- ImageStreams.ImageStream.Read: index points outside the file, where the source hands on what its buffer held; clearing of the parent on close.
- ImageStreams.ChunkLoader.Load: the index segment is one complete read of a segment that lies in the file, where the source makes one read and does not look at its result; the codec is a function that fills a chunk, its returned size ignored as in the source; a failing positioned read (-1) taken as a length.
- MapStreams.BuildMap: reading the entries and the stream names from their segments, and the 32-bit loop counter for 2^32 or more entries.
- MapStreams.MapStream.Read: overlapping or wrapping entries, and lower streams that deliver less than asked for.
- LowerStreams.RepeatedStream.Read: the empty pattern, on which the constructor of the source does not end.
- Sparse.IsSparse: negative offsets and sizes, and ranges past the end of the map.
- ZipReader.ZipFile.ParseCD: short positioned reads of a regular file; a comment without a NUL, past whose bytes `strlen` looks before the result is cut to them; an endless walk is reported as the outcome `NoEnd` instead of not returning.
- ZipArchive.ReadsExactly: a directory record that happens to stand where a misled reader looks for the directory.
- ImageArchive.OpenAndRead: bevvy indexes and bevvies that are compressed as segments.
- MapFile.StoreMapAndRead: one image to a file; the gap stream is a symbolic one.
- ImageFile.StoreAndRead: images of more than a hundred million bevvies, whose segment names repeat.
- NTriples.LineParser.ParseLine: the parsing of terms is a judgement on the lines handed over so far; locator positions are not kept.
- NTriples.LineParser.ParseChunk: allocation failure, and closing the default graph at the end.
- Calendar.MyTimegm: overflow of `long` for years far outside the range of dates.
- FastPath.GetResourceID: reading past the first 4096 bytes is the answer `None`.
- zlib, snappy and LZ4: inflation and chunk decoding are functions of their input; compressed segments above 32 MB are not read.
- Resource names are mapped to segment names by a parameter of the container.
- File, directory and Windows calls, debug output, byte-order macros beyond the sign of 32-bit fields.
- RDF parsing and properties, the lexicon, resolvers, handle tables, symbolic stream names, the date grammar.
- Mutexes and atomics: each call is one step.
