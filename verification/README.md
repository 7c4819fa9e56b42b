# tinyfs and the modules it stands on: a verified model

tinyfs keeps small records and directories on NOR flash. It appends typed, CRC-protected nodes (add or
remove a record, add or remove a directory) to a ring of flash sections, keeps the live set in memory in
per-section lists and a directory tree, reclaims space by copying the live nodes out of the oldest section
and erasing it, and rebuilds everything at mount by replaying the log. This project models that code
statement by statement, down to the write cache and the NOR rule, and proves that it behaves like a map
that survives power cycles. The bootloader's image copy, the ADPCM codec, the element pool, the CRC and the
circular list are modelled beside it.

`dafny verify dfyconfig.toml` checks the whole project.

## How the model is laid out

| layer | modules, one file each |
|---|---|
| flash, page cache, CRC | `Nor`, `WriteBehind`, `Crc16` |
| the ring as a history of sections; what a node write does to it and what a read finds | `Ring`, `Layout`, `LogWriter`, `Codec` |
| what the log means: the mount's walk, the replay, the index of live nodes | `MountWalk`, `LogReplay`, `Index` |
| memory: pool, section lists, tree | `Pool`, `Sequences`, `Nodes`, `Table`, `Tree`, `Subtree` |
| moving, adding and deleting nodes, the collector, the operations | `LogNodes`, `Collector`, `FileSystem` |
| mount: finding the ends, loading, sorting, linking, cutting, fixing parents | `Discovery`, `Loading`, `Rebuild`, `Linking`, `Fixing`, `Building`, `Mounting` |
| whole runs with power cycles | `Weights`, `Session` |
| the other programs | `Bootloader`, `Adpcm`, `CircularList` |

A section is numbered by age: section `k` is the k-th one ever opened and lives in slot `Phys(k)`. The ghost
history `h` lists the bytes written to every section since the flash was new; the medium (flash and buffered
page together) holds the window `[lo, lo + N)` of it. `items` lists the nodes of every section, `live` is
what their replay means, and the class invariants tie `live` to the lists, the pool and the tree. `Files()`
is the abstract state of the file system: a map from record and directory keys to entries.

The chain of results is: the cached flash is a flat byte array (`WriteBehind`); appended nodes are read back
over section boundaries (`Layout`, `Codec`); the walk of a mount visits exactly the appended nodes
(`MountWalk`); dropping a section without live nodes, tombstones included, does not change what the rest of
the log means (`LogReplay`, `Index`); the collector keeps that condition within its space bound
(`Collector`); every operation acts on `Files()` as a map operation and keeps the invariant (`FileSystem`);
a mount after a write-through computes the same state (`Mounting`); so any run, with power cycles anywhere,
is a run of a machine whose state is a map of contents and a map from handles to directory ids (`Session`).
That machine fixes every answer: an operation is skipped if and only if the caller's check fails, and it
reports a missing directory if and only if the pointer is no handle.

## What is assumed

- The flash is erased when it is first used, and there is one `tinyfs_init` per power cycle: the list
  initialisation (dev/module/tinyfs/tinyfs.c:753-761) clears only the first size and leaves the others to
  zeroed statics.
- Section count `N >= 3`, section size `S` (a multiple of 4 KiB, at most 32 KiB so that the mount's 16-bit
  offsets do not wrap), flash base and node pool size are constants without a value: every result holds for
  all of them. The node type takes one byte, so metadata are 9, 9, 7 and 5 bytes long.
- The space bound: before an operation that appends `size` bytes, twice the bytes of the live nodes, plus
  `size`, plus two pages, fit in a section without its header (`RoomFor`). It is weaker than asking for
  `2 * (live + size) <= (S - 6) - 510`.
- The root directory is never deleted, and `tinyfs_write` gets at least one byte, as its assertion demands.
- A loop count that wraps inside the valid window can mislead the search for head and tail
  (dev/module/tinyfs/tinyfs.c:265). Instead of assuming that it does not wrap, the model proves exactly when
  the search succeeds (`Discovery.FindHeadTailSection`), that the condition can be told from the three fields
  for head, tail and tail count (`Session.CountTells`), that a ring of three sections, which is what
  dev/module/tinyfs/tinyfs_config.h:7 configures, is never misled (`Mounting.ThreeSectionsMount`), and that
  every longer ring can be (`Discovery.LongerRingsCanBeMisled`; in a ring of four, for instance, three sections
  in the slots 1 to 3 with the counts 0xfffe, 0xffff and 0: `Discovery.FourCanBeMisled`).
- A power loss during the bootloader's copy leaves any bytes in the torn sector or page. An erase raises bits
  and lowers none, so a torn erase of the settings makes no byte of them smaller. The settings' address is
  256 bytes before the end of the flash and the chip erases the sector that holds it
  (dev/soc/arm_cm/le501x/platform.c:501-514). Source, target and settings do not share a sector.
- A sample given to the ADPCM encoders is any 32-bit number whose difference from the predictor fits 32 bits,
  so that the subtraction does not overflow; a frame's samples are 16-bit, as its type says.
- co_list is modelled by its contracts: a list is the sequence of its elements.
- Directory handles are pointers into the pool; the operations are specified for any pointer whatever.

The comment above the remote-control header (dev/module/adpcm/adpcm.c:232-239) gives two bytes to the
predictor and one to the index; the structure that is compiled (dev/module/adpcm/adpcm.h:7-11) has four and
two. The model follows the structure.

## Model

| member | source | states |
|---|---|---|
| Nor.Flash.SectorErase | dev/module/tinyfs/tinyfs_nvm.c:6 | an erase sets its 4 KiB to 0xff, makes them programmable and leaves every other byte alone |
| Nor.Flash.PageProgram | dev/module/tinyfs/tinyfs_nvm.c:4 | a program needs an aligned page none of whose bytes was programmed since its erase, and changes no other byte |
| WriteBehind.WriteCache.WriteThrough | dev/module/tinyfs/tinyfs_write_cache.c:15-26 | afterwards flash alone equals what flash and buffer stood for, and only the buffered page was programmed |
| WriteBehind.WriteCache.Program | dev/module/tinyfs/tinyfs_write_cache.c:28-51 | sequential writes lay the data over the flat memory; each page that fills is programmed once, from unprogrammed state, and a last partial page stays buffered |
| WriteBehind.WriteCache.Read | dev/module/tinyfs/tinyfs_write_cache.c:53-81 | a read that ends within the buffered bytes or avoids them returns the flat memory; otherwise exactly the flash bytes |
| WriteBehind.PageUntouched | dev/module/tinyfs/tinyfs_write_cache.c:32-49 | the page filled next has not been programmed, whatever the pages before it held |
| Ring.PhysInjective | dev/module/tinyfs/tinyfs.c:194-197 | sections less than a ring apart never share a slot |
| Ring.SlotBaseIsProduct | dev/module/tinyfs/tinyfs.c:157 | slot addresses are base plus slot times section size |
| Discovery.PhysIsRemainder | dev/module/tinyfs/tinyfs.c:194-197 | the k-th section ever opened lives in slot k modulo the section count |
| Ring.AtApart | dev/module/tinyfs/tinyfs.c:157 | within a window of one ring, section and offset are determined by the flash address |
| Ring.HoldsExtends | dev/module/tinyfs/tinyfs.c:850-863 | data laid at the tail address extends the tail section and no other byte of the window |
| Ring.HoldsPads | dev/module/tinyfs/tinyfs.c:1512-1524 | programming the tail's page early equals appending erased bytes up to the page end |
| Ring.HoldsReclaims | dev/module/tinyfs/tinyfs.c:956-962 | erasing the oldest slot moves the window on by one section and changes nothing else in it |
| Ring.TailUntouched | dev/module/tinyfs/tinyfs.c:850-863 | no page at or after the tail has been programmed, so the next write obeys the NOR rule |
| Layout.HeadLayout | dev/module/tinyfs/tinyfs.c:806-813 | a header's six bytes are loop count, node offset and the check of those four from 0x5555, least byte first |
| Layout.NodeOffsetTells | dev/module/tinyfs/tinyfs.c:830-848 | a header tells where its section's first node starts: behind it, behind the rest of a node, or nowhere if that rest fills the section |
| Layout.AppendSplits | dev/module/tinyfs/tinyfs.c:828-865 | a write of at most a section's worth crosses at most one boundary, and the new header's offset is that of the first byte after it |
| Layout.AppendReads | dev/module/tinyfs/tinyfs.c:815-867 | what was appended at any offset is read back from the address where it began, and the next node starts where the advanced address says |
| Layout.AppendFuses | dev/module/tinyfs/tinyfs.c:815-867 | a node written in pieces, each told what is still to come, leaves the same bytes as one write, headers included |
| Layout.AppendGrows | dev/module/tinyfs/tinyfs.c:815-867 | appending never changes a byte already written |
| Layout.SliceOf | dev/module/tinyfs/tinyfs.c:283-296 | a slice of a possibly straddling node is found at the advanced section and offset |
| Layout.AdvanceTwice | dev/module/tinyfs/tinyfs.c:514-524 | stepping by m and then n is stepping by m + n, across the header as well |
| LogWriter.LogStore.SectionErase | dev/module/tinyfs/tinyfs.c:204-213 | the loop over sectors erases the section's bytes and no others |
| LogWriter.LogStore.SectionHeadWrite | dev/module/tinyfs/tinyfs.c:806-813 | the header becomes the first bytes of the new section in the medium |
| LogWriter.LogStore.NodeWrite | dev/module/tinyfs/tinyfs.c:815-867 | the loop appends the node to the history, returns the address where it starts, and charges its length to free_bytes |
| LogWriter.LogStore.DataWriteThrough | dev/module/tinyfs/tinyfs.c:1512-1524 | the tail is padded to a page, the padding is charged, the cache is empty and flash alone holds the log |
| LogWriter.LogStore.Reclaim | dev/module/tinyfs/tinyfs.c:956-962 | one section leaves the window and its bytes are free; free_bytes keeps its meaning |
| LogWriter.LogStore.NvmReadNode | dev/module/tinyfs/tinyfs.c:283-296 | a read at a node returns its bytes in the history, over a boundary and through the cache |
| LogWriter.FreeNeedsSection | dev/module/tinyfs/tinyfs.c:830-848 | a full tail with free bytes left has an erased section to go to: the tail never enters a section in use |
| LogWriter.FreeAfterReclaim | dev/module/tinyfs/tinyfs.c:956-962 | the conserved sum: rest of the tail plus unused sections grows by one section when the head moves |
| LogWriter.LogStore.InUse | dev/module/tinyfs/tinyfs.c:989-991 | unless two sections are in use, two sections' worth is free |
| Codec.NodeLayout | dev/module/tinyfs/tinyfs.c:34-83 | byte by byte, the four kinds of node with kind, fields and the check of both, and a record's data with its check |
| Codec.ReadHeadInverts | dev/module/tinyfs/tinyfs.c:298-314 | metadata of each of the four kinds is read back, whatever follows a shorter node |
| Codec.ErasedIsUnreadable | dev/module/tinyfs/tinyfs.c:298-314 | erased bytes are never taken for a node |
| Codec.NodeAppended | dev/module/tinyfs/tinyfs.c:815-867 | a written node stands, whole, at the address that node_write returns |
| Codec.RecordReads | dev/module/tinyfs/tinyfs.c:526-534 | data and check of a record are where the two offset calculations point |
| Codec.ChangedDataFails | dev/module/tinyfs/tinyfs.c:526-534 | data that differs from what was written within two adjacent bytes fails the stored check |
| Codec.ChangedMetadataIsUnreadable | dev/module/tinyfs/tinyfs.c:298-314 | metadata whose fields differ within two adjacent bytes is not taken for a node |
| MountWalk.WalksTakeNode | dev/module/tinyfs/tinyfs.c:559-585 | writing a node, inner, opening or straddling, adds exactly it to what a mount visits |
| MountWalk.WalksTakeCrossingNode | dev/module/tinyfs/tinyfs.c:830-848 | a straddling node is visited in the section it starts in and skipped by the next header's node offset |
| MountWalk.WalksTakePadding | dev/module/tinyfs/tinyfs.c:577-581 | write-through padding is skipped: the same nodes are visited |
| MountWalk.WalkTakesNode | dev/module/tinyfs/tinyfs.c:567-583 | a walk that ended at the tail visits a node written there last |
| LogReplay.ReplayHolds | dev/module/tinyfs/tinyfs.c:423-482 | every live key is held by an add of that key in the log |
| LogReplay.ReplaySplits | dev/module/tinyfs/tinyfs.c:423-512 | a later stretch of the log decides every key that it mentions, by adds and tombstones alike |
| LogReplay.PrefixDrops | dev/module/tinyfs/tinyfs.c:956-962 | a prefix without live nodes may go, tombstones included: nothing is lost and nothing deleted comes back |
| LogReplay.SuffixFits | dev/module/tinyfs/tinyfs.c:434-435 | a log that could be written with a pool of nodes can be replayed with it from any section on, so the mount's allocation assertions hold |
| Nodes.SizeWithout | dev/module/tinyfs/tinyfs.c:375 | taking one node off a list lowers the sum of lengths by its length |
| Nodes.OtherListsOk | dev/module/tinyfs/tinyfs.c:331-380 | rethreading one section's list leaves all other lists intact |
| Table.NodeTable.TinyListPush | dev/module/tinyfs/tinyfs.c:331-345 | the list's node sequence gets the node at its end, its size the node's length; every list stays well threaded |
| Table.NodeTable.TinyListDel | dev/module/tinyfs/tinyfs.c:347-380 | answers whether the node was listed, and then removes just it, with its length |
| Table.NodeTable.NodeListSearch | dev/module/tinyfs/tinyfs.c:382-396 | finds a node of the list that matches, or none does |
| Table.NodeTable.NodeSearch | dev/module/tinyfs/tinyfs.c:406-421 | finds a matching node in some section's list, or there is none in any |
| Table.NodeTable.NodeAlloc | dev/module/tinyfs/tinyfs.c:316-319 | a node that was not held, unless all of the pool is |
| Table.NodeTable.NodeFree | dev/module/tinyfs/tinyfs.c:321-324 | the node, held once, is no longer held |
| Index.ListedOnce | dev/module/tinyfs/tinyfs.c:331-380 | every live node is in exactly one section list, that of its address, and once |
| Index.LogTakes | dev/module/tinyfs/tinyfs.c:927-940 | after an append, the log from the head section on and the log since ever still mean what memory says, and can be replayed in the pool |
| Index.LogPads | dev/module/tinyfs/tinyfs.c:1512-1524 | a write-through does not change what the log means |
| Index.LogDrops | dev/module/tinyfs/tinyfs.c:956-962 | the oldest section may go once no live node is in it |
| Index.LiveNode | dev/module/tinyfs/tinyfs.c:111-125 | a live node's bytes stand in the window at its address |
| Index.IndexDetaches | dev/module/tinyfs/tinyfs.c:347-380 | unlisting a node lets go exactly its key |
| Index.HeadOfList | dev/module/tinyfs/tinyfs.c:942-949 | an empty list means no live node in its section, and a head is a live node of it |
| LogNodes.PiecesMakeNode | dev/module/tinyfs/tinyfs.c:1226-1227 | metadata and then data with check are the node written at once |
| LogNodes.DirAddWrite | dev/module/tinyfs/tinyfs.c:899-909 | appends the directory's node, and returns where it starts |
| LogNodes.RecordAddWrite | dev/module/tinyfs/tinyfs.c:869-878 | appends the record's metadata announcing its data and check |
| LogNodes.RecordRemoveWrite | dev/module/tinyfs/tinyfs.c:880-888 | appends the record's tombstone, 7 bytes |
| LogNodes.DirRemoveWrite | dev/module/tinyfs/tinyfs.c:890-897 | appends the directory's tombstone, 5 bytes |
| LogNodes.RecordDataWrite | dev/module/tinyfs/tinyfs.c:1215-1220 | data and then its check are the rest of the record's node |
| LogNodes.SectionOffsetCalc | dev/module/tinyfs/tinyfs.c:514-524 | from the section and offset at which any stretch of bytes of at most a section lies, in any log, the results are the slot of the section and the offset at which the stretch without its first bytes lies, the header of a next section skipped |
| LogNodes.RecordDataCopy | dev/module/tinyfs/tinyfs.c:911-925 | 64 bytes at a time, data and check of a record are appended again unchanged, and the original still stands |
| LogNodes.NodeDataRead | dev/module/tinyfs/tinyfs.c:526-534 | for any start offset the data comes back as written and its check matches |
| Collector.Store.Detach | dev/module/tinyfs/tinyfs.c:929 | memory lets a key go before the log does, and the invariant names it |
| Collector.Store.Rewrite | dev/module/tinyfs/tinyfs.c:930-938 | the node's entry is appended again, from memory and from where it was |
| Collector.Store.NodeCopy | dev/module/tinyfs/tinyfs.c:927-940 | a copied node keeps its entry and changes only its place; listed bytes stay the same in sum |
| Collector.Store.CursorAway | dev/module/tinyfs/tinyfs.c:942-949 | copies out of the oldest section never land in it |
| Collector.Store.SectionCopy | dev/module/tinyfs/tinyfs.c:942-954 | ends, with no live node left in the oldest section and every entry unchanged |
| Collector.Store.NothingIsLost | dev/module/tinyfs/tinyfs.c:956-962 | in every state in which the collector erases the oldest section, nothing live has a byte in it |
| Collector.Store.EraseIsSafe | dev/module/tinyfs/tinyfs.c:956-962 | when the oldest section is to be erased, each byte of each live node, straddling or not, is on flash and outside it |
| Collector.Store.ReclaimHead | dev/module/tinyfs/tinyfs.c:960-961 | the erase, for which nothing live may have a byte in the section, keeps the whole invariant and frees one section |
| Collector.Store.SectionGarbageCollection | dev/module/tinyfs/tinyfs.c:956-962 | all entries survive and the section's free bytes are gained, less at most a page of padding |
| Collector.Store.SectionWipeCheck | dev/module/tinyfs/tinyfs.c:964-980 | the least number of sections from the head whose dead bytes exceed the size, or all together do not |
| Collector.Store.GarbageCollectTry | dev/module/tinyfs/tinyfs.c:982-998 | within the space bound both assertions hold; one section is collected if there is less than the room asked for and the oldest section is not the tail, and otherwise nothing changes; afterwards a whole section beyond the bytes asked for is free |
| Collector.Store.AddDir | dev/module/tinyfs/tinyfs.c:1200-1201 | log, lists and index gain exactly the directory |
| Collector.Store.AddRecord | dev/module/tinyfs/tinyfs.c:1226-1228 | log, lists and index gain exactly the record |
| Collector.Store.Tombstone | dev/module/tinyfs/tinyfs.c:1282-1290 | the tombstone appended is the one of the node's key |
| Collector.Store.Forget | dev/module/tinyfs/tinyfs.c:1298 | after its tombstone, the key is gone from memory and from what the log means |
| Tree.InTreeOnce | dev/module/tinyfs/tinyfs.c:1195-1198 | every node of the tree is once among the children of the directory its parent link names, and nowhere else |
| Tree.TreePuts | dev/module/tinyfs/tinyfs.c:1195-1198 | a new first child keeps every node in the tree once, with greater ids below |
| Tree.TreeDrops | dev/module/tinyfs/tinyfs.c:1291-1297 | unlinking a childless child, first or inner, keeps all others in the tree once |
| Tree.NotOwnKid | dev/module/tinyfs/tinyfs.c:1193 | ids grow downwards, so no directory is its own child |
| Tree.ChildOf | dev/module/tinyfs/tinyfs.c:1092-1105 | the live entries with a directory's id as parent are exactly its children in the tree |
| Tree.RecordHere | dev/module/tinyfs/tinyfs.c:1013-1034 | a child record of a name exists just when the live set has that record |
| Tree.DirHere | dev/module/tinyfs/tinyfs.c:1092-1105 | child directories of a name and live directory entries of that parent and name correspond |
| Tree.LiveCounts | dev/module/tinyfs/tinyfs.c:145 | as many nodes are held as entries live, and the root |
| Subtree.UnderUnder | dev/module/tinyfs/tinyfs.c:1332-1345 | being below is transitive along parent ids |
| Subtree.BelowIs | dev/module/tinyfs/tinyfs.c:1332-1345 | below a directory are its children and what is below them, and nothing else |
| Subtree.BelowChild | dev/module/tinyfs/tinyfs.c:1338-1343 | a child and all below it are below the directory |
| Subtree.AllGone | dev/module/tinyfs/tinyfs.c:1332-1345 | once a directory has no child left, exactly what was below it is gone |
| Subtree.TreeCloses | dev/module/tinyfs/tinyfs.c:1193-1200 | every live entry's parent is the root or a live directory of a smaller id |
| FileSystem.TinyFs.IfDirExist | dev/module/tinyfs/tinyfs.c:1000-1011 | for any pointer: true exactly for handles of directories in the tree |
| FileSystem.TinyFs.GetRecordByName | dev/module/tinyfs/tinyfs.c:1013-1034 | the record of the name and the sibling before it, or no child record has the name |
| FileSystem.TinyFs.GetChildDirByName | dev/module/tinyfs/tinyfs.c:1092-1105 | the child directory of the name, or none has it |
| FileSystem.TinyFs.FindRecord | dev/module/tinyfs/tinyfs.c:1013-1034 | found just when the abstract contents have the record |
| FileSystem.TinyFs.MakeRoom | dev/module/tinyfs/tinyfs.c:982-998 | collecting changes neither contents nor tree, even while an operation is half done |
| FileSystem.TinyFs.Adopt | dev/module/tinyfs/tinyfs.c:1193-1198 | the node becomes its directory's first child and nothing else in the tree moves |
| FileSystem.TinyFs.DoMkdir | dev/module/tinyfs/tinyfs.c:1173-1204 | an existing name, no id left and no node left are answered in this order, each exactly when it is so; otherwise there is exactly one new directory, with the next id |
| FileSystem.TinyFs.Mkdir | dev/module/tinyfs/tinyfs.c:1166-1213 | for any pointer: the parent is missing just when it is no handle; then the three errors, each exactly when it is so, or exactly one new directory with its handle |
| FileSystem.TinyFs.RecordWrite | dev/module/tinyfs/tinyfs.c:1222-1229 | the record's entry becomes the data and everything else stays, collection included |
| FileSystem.TinyFs.Overwrite | dev/module/tinyfs/tinyfs.c:1234-1241 | a record that exists is replaced, in the same node |
| FileSystem.TinyFs.WriteNew | dev/module/tinyfs/tinyfs.c:1242-1259 | a record that does not exist is added unless the pool is exhausted |
| FileSystem.TinyFs.DoWrite | dev/module/tinyfs/tinyfs.c:1231-1260 | a record that is there is always replaced, a new one is stored as long as the pool has a node, and nothing else changes |
| FileSystem.TinyFs.Write | dev/module/tinyfs/tinyfs.c:1262-1278 | for any pointer: the directory is missing just when it is no handle; the write is refused exactly when the record is new and the pool is full, and otherwise the record holds the data |
| FileSystem.TinyFs.DoRead | dev/module/tinyfs/tinyfs.c:1036-1061 | a missing record and a buffer that is too short are answered exactly when they are so, with nothing delivered; otherwise the data last written; never corruption |
| FileSystem.TinyFs.Read | dev/module/tinyfs/tinyfs.c:1064-1078 | for any pointer: the data last written exactly when the record is there and fits in the buffer, which is never overrun; otherwise the error says which it is |
| FileSystem.TinyFs.RecordExist | dev/module/tinyfs/tinyfs.c:1080-1090 | true exactly when the directory exists and holds the record |
| FileSystem.TinyFs.NodeDel | dev/module/tinyfs/tinyfs.c:1280-1300 | one entry, one node and one tree place disappear, and no listed bytes are added |
| FileSystem.TinyFs.DoDelRecord | dev/module/tinyfs/tinyfs.c:1302-1314 | removes exactly the record's key, or answers that there is none |
| FileSystem.TinyFs.DelRecord | dev/module/tinyfs/tinyfs.c:1316-1330 | for any pointer: the record's key is removed exactly if it is there, and otherwise the error says that it is not |
| FileSystem.TinyFs.NodeDelRecursively | dev/module/tinyfs/tinyfs.c:1332-1345 | removes exactly what is below the directory, at any depth, and ends because ids grow downwards |
| FileSystem.TinyFs.DelFirst | dev/module/tinyfs/tinyfs.c:1337-1343 | one turn removes the first child with all below it, and smaller ids are spared |
| FileSystem.TinyFs.GetPrevNode | dev/module/tinyfs/tinyfs.c:1347-1362 | the sibling before the directory |
| FileSystem.TinyFs.DoDelDir | dev/module/tinyfs/tinyfs.c:1376-1393 | with force the directory and all below it always go; without, the directory goes exactly if no live entry has it as parent |
| FileSystem.TinyFs.DelDir | dev/module/tinyfs/tinyfs.c:1369-1401 | for any pointer but the root's: missing just when it is no handle; with force directory and subtree always go, without exactly if it is empty; all other handles stay |
| FileSystem.TinyFs.WriteThrough | dev/module/tinyfs/tinyfs.c:1503-1510 | contents unchanged, log padded, flash alone holds everything |
| FileSystem.TinyFs.DirsAreFiles | dev/module/tinyfs/tinyfs.c:1000-1011 | the directories with handles are exactly the root and the live directories |
| Discovery.GetFirstValidSection | dev/module/tinyfs/tinyfs.c:245-258 | the section of the run in the lowest slot |
| Discovery.GetNextValidSection | dev/module/tinyfs/tinyfs.c:236-243 | ends, at the next section of the circular run |
| Discovery.FindHeadTailSection | dev/module/tinyfs/tinyfs.c:260-281 | ends for every valid run, and returns oldest and newest section if and only if the run is discoverable |
| Discovery.NoWrapIsDiscoverable | dev/module/tinyfs/tinyfs.c:265 | a run whose 16-bit counts do not wrap is discoverable |
| Discovery.ThreeAreNeverMisled | dev/module/tinyfs/tinyfs_config.h:7-11 | in a ring of three sections one of which is free the search always succeeds, wherever the counts wrap |
| Discovery.FourCanBeMisled | dev/module/tinyfs/tinyfs.c:260-281 | in a ring of four, three sections with the counts 0xfffe, 0xffff and 0 are not told aright |
| Discovery.LongerRingsCanBeMisled | dev/module/tinyfs/tinyfs.c:260-281 | in every ring of more than three sections some run of three misleads the search |
| Discovery.CountsApart | dev/module/tinyfs/tinyfs.c:265-271 | newest and oldest counts are never consecutive and their signed difference gives the run's length |
| Rebuild.CheckMeans | dev/module/tinyfs/tinyfs.c:615-650 | the insertion check decides the order by parent, directories by id before records |
| Rebuild.InsertedSorted | dev/module/tinyfs/tinyfs.c:652-668 | inserting where the check first stops keeps the chain sorted |
| Rebuild.SortedListInsert | dev/module/tinyfs/tinyfs.c:652-668 | the chain from the root has the node inserted, and stays sorted and well threaded |
| Linking.ReachedAll | dev/module/tinyfs/tinyfs.c:690-697 | the directories below the children, and the directory itself, are all that is below it |
| Linking.LastRun | dev/module/tinyfs/tinyfs.c:687-698 | when nothing follows a directory's run, no directory below has children: skipping the recursion is right |
| Linking.FindFirstChild | dev/module/tinyfs/tinyfs.c:672-677 | the start of the directory's run of children, or it has none |
| Linking.FindRunEnd | dev/module/tinyfs/tinyfs.c:678-686 | the first node after the run |
| Linking.DirTreeLink | dev/module/tinyfs/tinyfs.c:670-699 | every directory at or below gets its first child, nothing else changes, and the recursion ends by growing ids |
| Fixing.ChainStartsAtRoot | dev/module/tinyfs/tinyfs.c:715-729 | the sorted chain begins with a child of the root |
| Fixing.NodeSiblingFix | dev/module/tinyfs/tinyfs.c:715-729 | the chain is cut exactly between families |
| Fixing.FamilyAll | dev/module/tinyfs/tinyfs.c:731-743 | the run of children with their families is all that is in the directory |
| Fixing.FamilyApart | dev/module/tinyfs/tinyfs.c:734-742 | a child's family has not been touched when its turn comes, so the loop still sees ids |
| Fixing.NodeParentFix | dev/module/tinyfs/tinyfs.c:731-743 | every node below gets the link to the directory its stored id names, once |
| Building.SiblingSort | dev/module/tinyfs/tinyfs.c:701-713 | all nodes of all lists end in one sorted chain, once each |
| Building.TreeBuilt | dev/module/tinyfs/tinyfs.c:745-751 | the linked, cut and fixed chain is a tree with every live node in it once |
| Building.DirTreeBuild | dev/module/tinyfs/tinyfs.c:745-751 | turns the flat lists into the tree that the parent ids describe, lists and index untouched |
| Loading.NodeMetadataRead | dev/module/tinyfs/tinyfs.c:298-314 | a node's metadata where a node stands, and unreadable on erased bytes |
| Loading.NvmPageEmpty | dev/module/tinyfs/tinyfs.c:543-557 | true exactly when the page is erased |
| Loading.ErasedHeader | dev/module/tinyfs/tinyfs.c:215-219 | an erased header never passes its check |
| Loading.SectionHeadRead | dev/module/tinyfs/tinyfs.c:215-219 | valid if and only if the slot holds a section of the log, with its count and first node |
| Loading.SectionHeadReadAll | dev/module/tinyfs/tinyfs.c:221-234 | every slot is found valid if and only if a section of the log lives there, with its count and first node |
| Loading.SearchKey | dev/module/tinyfs/tinyfs.c:398-421 | during replay the compare functions find the node of a key just when it is live |
| Loading.RecordAddParse | dev/module/tinyfs/tinyfs.c:423-446 | memory moves as the replay does for an added record |
| Loading.DirAddParse | dev/module/tinyfs/tinyfs.c:455-482 | memory moves as the replay does for an added directory, and the greatest id seen is kept |
| Loading.RemoveParse | dev/module/tinyfs/tinyfs.c:484-512 | memory moves as the replay does for both tombstones, also when there is nothing to remove |
| Loading.LoadNode | dev/module/tinyfs/tinyfs.c:567-583 | one turn parses the next node, skips padding, or stops at the true end |
| Loading.LoadSection | dev/module/tinyfs/tinyfs.c:566-583 | parses every node of the section in order and ends, in the tail at the tail offset |
| Loading.NodesInfoLoad | dev/module/tinyfs/tinyfs.c:559-585 | memory is the replay of the log from head to tail, and the offset is the tail's |
| Loading.MaxDirIdCovers | dev/module/tinyfs/tinyfs.c:476-479 | no live directory has an id above the greatest one seen |
| Loading.TopCovers | dev/module/tinyfs/tinyfs.c:476-479 | nor is the greatest id seen above any bound of the ids in the log |
| Mounting.BlankIsImage | dev/module/tinyfs/tinyfs.c:793-801 | an erased flash holds the empty log |
| Mounting.FreeRecomputed | dev/module/tinyfs/tinyfs.c:586-593 | the mount's formula is the conserved free space |
| Mounting.RootInit | dev/module/tinyfs/tinyfs.c:597-607 | the first node of the fresh pool is the root, and nothing is listed |
| Mounting.RecoverEnds | dev/module/tinyfs/tinyfs.c:789-790 | head, tail and tail count are those of the log |
| Mounting.RecoverSpace | dev/module/tinyfs/tinyfs.c:585-593 | tail offset and free_bytes are those of the log, so that its invariant holds again |
| Mounting.LoadLog | dev/module/tinyfs/tinyfs.c:789-791 | ends, nodes and free space of a log that is not empty are all recovered |
| Mounting.BuildTree | dev/module/tinyfs/tinyfs.c:792 | with the tree, memory agrees with the log again |
| Mounting.AllSectionEmpty | dev/module/tinyfs/tinyfs.c:763-774 | true exactly when no section is valid |
| Mounting.StartLog | dev/module/tinyfs/tinyfs.c:793-801 | the empty ring satisfies the log's invariant |
| Mounting.TinyfsInit | dev/module/tinyfs/tinyfs.c:776-803 | whatever written-through log the flash holds becomes the file system's contents, with its whole invariant |
| Mounting.LeavesImage | dev/module/tinyfs/tinyfs.c:1503-1510 | after a write-through flash alone holds log and meaning |
| Mounting.ThreeSectionsMount | dev/module/tinyfs/tinyfs_config.h:7-11 | with the three sections that are configured, every state of the file system can be mounted again |
| Mounting.EarlyLogsMount | dev/module/tinyfs/tinyfs.c:260-281 | with any number of sections, every state can be mounted again until 0xffff sections have been opened |
| Mounting.Remount | dev/module/tinyfs/tinyfs.c:776-803 | write-through, power cycle and mount restore contents, places, head, tail, tail count, tail offset and free_bytes; the greatest id becomes the greatest in the log, and the state can be mounted again |
| Weights.SumIsWeight | dev/module/tinyfs/tinyfs.c:326-345 | the sizes that the section lists keep add up to the bytes of the contents, whatever the history |
| Weights.WeightWith | dev/module/tinyfs/tinyfs.c:331-380 | storing an entry adds its bytes and takes away those of the entry it replaces |
| Session.CountTells | dev/module/tinyfs/tinyfs.c:260-281 | the ends are found if and only if there are two sections or the tail's count has not wrapped since the lowest slot |
| Session.CheckWrite | dev/module/tinyfs/tinyfs.c:1262-1278 | a caller's computable check is true exactly when the machine allows the write, the replaced record's bytes deducted |
| Session.CheckCount | dev/module/tinyfs/tinyfs.c:260-281 | from the fields alone: true exactly when a mount will find the ends of the log |
| Session.Lookup | dev/module/tinyfs/tinyfs.c:1000-1011 | pointers that the pool and the tree know as directories are exactly the machine's handles, with their ids |
| Session.HandlesSurvive | dev/module/tinyfs/tinyfs.c:1369-1401 | the handles left after a deletion are exactly those whose directories are left |
| Session.AbstractOk | dev/module/tinyfs/tinyfs.c:1166-1510 | in every state exactly the root and the live directories have handles, one each; every parent is there, and no id is above the greatest |
| Session.WhenSkipped | dev/module/tinyfs/tinyfs.c:982-998 | an operation is skipped exactly when its bytes, twice the contents and two pages do not fit in a section, or it has no data, would delete the root, or could not be followed by a mount |
| Session.MissingDirectory | dev/module/tinyfs/tinyfs.c:1000-1011 | a missing directory is the answer exactly when the pointer is no handle, and then nothing changes |
| Session.MkdirAnswers | dev/module/tinyfs/tinyfs.c:1166-1213 | a name that is taken gives the handle of its directory; a new one is refused for lack of an id or of a node alone |
| Session.WriteAnswers | dev/module/tinyfs/tinyfs.c:1231-1260 | an allowed write is done whenever the record is there or a node is left, and is refused otherwise |
| Session.ReadAnswers | dev/module/tinyfs/tinyfs.c:1036-1061 | a record longer than the buffer and a missing one are refused, each by its own error, and no other read fails |
| Session.DelRecordAnswers | dev/module/tinyfs/tinyfs.c:1302-1314 | a record that is there always goes, and no other is touched |
| Session.DelDirAnswers | dev/module/tinyfs/tinyfs.c:1376-1393 | with force the directory always goes, without exactly if it is empty; no entry keeps it as parent and nothing outside it goes |
| Session.LastWriteStands | dev/module/tinyfs/tinyfs.c:1262-1278 | in any run an entry stays as it is until a step touches its key |
| Session.ReadsLastWrite | dev/module/tinyfs/tinyfs.c:1064-1078 | in any run a record reads back as last written, by whatever handle its directory has then, through any other operations and power cycles |
| Session.Do | dev/module/tinyfs/tinyfs.c:1166-1510 | each operation takes exactly the machine's step: skipped if and only if the check fails, otherwise with the machine's answer and next state, handles included |
| Session.Run | dev/module/tinyfs/tinyfs.c:776-1510 | any operations, with power cycles in between, are a run of the machine, step by step, and every state of it is sound |
| Session.RunFromBlank | dev/module/tinyfs/tinyfs.c:776-1510 | from an erased flash the run starts with no contents and the root's handle alone |
| Pool.LinkedBuffer.constructor | dev/module/static_buffer/linked_buffer.c:13-26 | every element is free, once, in address order |
| Pool.LinkedBuffer.Alloc | dev/module/static_buffer/linked_buffer.c:28-37 | the first free element is held once; free and held elements keep sharing out the pool |
| Pool.LinkedBuffer.Retain | dev/module/static_buffer/linked_buffer.c:93-98 | one more reference, the same elements held |
| Pool.LinkedBuffer.Release | dev/module/static_buffer/linked_buffer.c:53-64 | one reference less, and the last one puts the element at the end of the free list |
| Pool.LinkedBuffer.ContainElement | dev/module/static_buffer/linked_buffer.c:100-109 | for any pointer: true exactly for held elements |
| Pool.LinkedBuffer.Idx | dev/module/static_buffer/linked_buffer.c:66-71 | index and address of an element are inverse |
| Pool.LinkedBuffer.ElemInPool | dev/module/static_buffer/linked_buffer.c:73-76 | an element's address is aligned and in range, and its index is the one it was made from |
| Crc16.Crc16Lookup | dev/module/crc/crc16.c:38-46 | the loop leaves the register that the bytes drive it to |
| Crc16.TableIsShift | dev/module/crc/crc16.c:2-36 | all 256 table entries are eight division steps of their index |
| Crc16.ByteStepIsDivision | dev/module/crc/crc16.c:42 | one table step is eight steps of bitwise division with the byte's bits |
| Crc16.CrcIsDivision | dev/module/crc/crc16.c:38-51 | for every initial value and message the result is the remainder of long division by x^16 + x^12 + x^5 + 1 (ITU-T V.41) |
| Crc16.CrcComposes | dev/module/crc/crc16.c:38-46 | the check of a concatenation continues from the check of its first part |
| Crc16.CrcSeparates | dev/module/crc/crc16.c:38-51 | messages that differ only within two adjacent bytes have different checks |
| Crc16.ByteBits | dev/module/crc/crc16.c:38-46 | the message's bits are those of its bytes, the highest first |
| Crc16.OctetsAre | dev/module/crc/crc16.c:38-46 | the octets that are checked are the bytes given, every one of them |
| Crc16.CcittIsDivision | dev/module/crc/crc16.c:38-51 | the check that the file system uses is the remainder of the division of all the bytes |
| Crc16.CcittComposes | dev/module/crc/crc16.c:38-51 | that check of a concatenation continues from the check of its first part |
| Crc16.CcittSeparates | dev/module/crc/crc16.c:38-51 | that check tells apart any strings that differ only within two adjacent bytes |
| Crc16.ErasedHeaderFails | dev/module/tinyfs/tinyfs.c:215-219 | the check of four erased bytes from 0x5555 is not that of an erased field |
| Bootloader.Boot.Prepare | dev/bootloader/boot_ram/boot_ram_le501x.c:279-282 | the sector of the next page is erased when it is entered, so the page may be programmed |
| Bootloader.Boot.CopyPage | dev/bootloader/boot_ram/boot_ram_le501x.c:277-286 | one more page of the target equals the source, and the rest of the sector is still erased |
| Bootloader.PagesCover | dev/bootloader/boot_ram/boot_ram_le501x.c:277 | the pages copied are just enough for the image |
| Bootloader.Boot.FwCopy | dev/bootloader/boot_ram/boot_ram_le501x.c:273-287 | all bytes of the image stand in the target, page by page, and no byte outside the target's sectors differs |
| Bootloader.Boot.FwCopyCut | dev/bootloader/boot_ram/boot_ram_le501x.c:273-287 | power lost in any erase or program of any page touches only the target's sectors |
| Bootloader.RequestIs | dev/soc/arm_cm/le501x/platform.c:536-564 | the settings hold a request exactly when address, size and the complements of both stand in this order, least byte first, from 16 bytes into the last page on |
| Bootloader.ComplementBytes | dev/soc/arm_cm/le501x/platform.c:547 | a word is another's complement exactly when each of its bytes is, so that no carry can hide a difference |
| Bootloader.RequestSurvivesOrGoes | dev/soc/arm_cm/le501x/platform.c:510-552 | whatever a torn erase leaves of the settings, raising any bits, they hold the same request or none |
| Bootloader.SameRequest | dev/soc/arm_cm/le501x/platform.c:541-554 | the request depends on the settings' sector alone |
| Bootloader.Boot.OtaCopyInfoGet | dev/soc/arm_cm/le501x/platform.c:541-554 | the words at their offsets are the request, and there is one when the complements agree |
| Bootloader.Boot.OtaSettingsErase | dev/soc/arm_cm/le501x/platform.c:510-514 | no request is left, and no byte before the settings' sector differs |
| Bootloader.Boot.OtaSettingsEraseCut | dev/soc/arm_cm/le501x/platform.c:510-514 | power lost in that erase makes no byte smaller and changes none before the settings' sector |
| Bootloader.Boot.Start | dev/bootloader/boot_ram/boot_ram_le501x.c:308-315 | a whole boot leaves the image that was asked for in place and no request, and changes only the target's and the settings' sectors |
| Bootloader.Boot.StartCut | dev/bootloader/boot_ram/boot_ram_le501x.c:308-315 | a boot cut in any erase or program, of the settings too, leaves the same request with its source whole, or none with the image in place |
| Bootloader.Boot.BootsAndBoots | dev/bootloader/boot_ram/boot_ram_le501x.c:308-315 | after any number of cut boots one whole boot leaves every byte of the image first asked for in place, and no request |
| Adpcm.StepsGrow | dev/module/adpcm/adpcm.c:5-13 | from 7 to 32767 each step is a tenth more than the last, to within one; the last one is cut off |
| Adpcm.CodeCounts | dev/module/adpcm/adpcm.c:35-72 | a code is the side of the sample and the quarters of a step in its distance, 7 at most |
| Adpcm.CodeStandsFor | dev/module/adpcm/adpcm.c:45-72 | a code stands for half a quarter more than it counts, rounded down |
| Adpcm.CodeMoves | dev/module/adpcm/adpcm.c:74-104 | the index falls by one for fewer than four quarters and rises by twice what they exceed three by; the predictor moves by what the code stands for, within its range |
| Adpcm.QuantizeDifference | dev/module/adpcm/adpcm.c:35-72 | the code gives side and distance of the sample in quarters of a step, and diffq is what the code stands for |
| Adpcm.Move | dev/module/adpcm/adpcm.c:74-104 | predictor and index move as at the receiving end, clamped to 16 bits and 0..88 |
| Adpcm.ErrorBound | dev/module/adpcm/adpcm.c:45-92 | within two steps of the predictor, the decoded sample is within an eighth of a step plus two; beyond, it comes nearer |
| Adpcm.Encoder.Encode | dev/module/adpcm/adpcm.c:25-108 | for any 32-bit sample, the code quantizes its difference and the encoder moves exactly as the receiver of the code: its index falls by one for a sample within a step of the predictor, and rises with the quarters beyond |
| Adpcm.Encoder.FrameEncode | dev/module/adpcm/adpcm.c:186-206 | the frame's codes, low half first and odd lengths included, are packed, and no byte beyond is touched |
| Adpcm.Decoder.Decode | dev/module/adpcm/adpcm.c:117-180 | the sample is the predictor the code moves to |
| Adpcm.Decoder.FrameDecode | dev/module/adpcm/adpcm.c:210-230 | the samples are those of the unpacked codes, and no sample beyond is touched |
| Adpcm.PackedBytes | dev/module/adpcm/adpcm.c:195-204 | two codes to a byte, the first in the low half, and a last odd code by itself |
| Adpcm.UnpacksWhatWasPacked | dev/module/adpcm/adpcm.c:195-229 | unpacking inverts packing |
| Adpcm.TransmissionError | dev/module/adpcm/adpcm.c:25-180 | every decoded sample of a frame meets the error bound |
| Adpcm.Transmit | dev/module/adpcm/adpcm.c:186-230 | over any frames, each starting in the state in which the one before it ended, both ends go through the same states, and every sample meets the error bound |
| Adpcm.TwosComplement | dev/module/adpcm/adpcm.h:7-11 | the predictor's unsigned field holds its 32-bit two's complement |
| Adpcm.TvEncoder.Encode | dev/module/adpcm/adpcm.c:246-340 | the same code and the same move of the index, for any 32-bit sample, from a state kept in unsigned fields |
| Adpcm.TvEncoder.FrameEncode | dev/module/adpcm/adpcm.c:346-370 | the header holds the state the frame's codes start from, the codes are packed, and no byte beyond is touched |
| Adpcm.ReceiveTvFrame | dev/module/adpcm/adpcm.c:346-370 | a frame is decoded, within the error bound, from its own header and bytes, whatever came before it |
| CircularList.Cdll.PushBack | dev/module/common/circular_doubly_linked_list.c:8-23 | the ring is that of the sequence with the element at its end |
| CircularList.Cdll.PopFront | dev/module/common/circular_doubly_linked_list.c:25-46 | the first element leaves, unlinked, and the rest is a ring |
| CircularList.Cdll.Extract | dev/module/common/circular_doubly_linked_list.c:48-64 | an element at any place leaves, unlinked, the order of the others kept |
| CircularList.Cdll.InsertBefore | dev/module/common/circular_doubly_linked_list.c:66-77 | the element stands before the reference, and is first if that was |
| CircularList.Cdll.InsertAfter | dev/module/common/circular_doubly_linked_list.c:79-85 | the element stands after the reference, and the first element stays |
| CircularList.IsElemLinked | dev/module/common/circular_doubly_linked_list.c:135-138 | true exactly for elements of some list, whichever of several it is |
| CircularList.RingTurns | dev/module/common/circular_doubly_linked_list.c:48-85 | a ring may be read from any of its elements on |

## Left out

- Recovery of tinyfs from power cuts in the middle of an update: the code finds bad data by its check but does
  not make updates atomic; mounts are modelled after a write-through.
- Records beyond the space bound: the reader follows one boundary only, and the collector's assertions are not
  meant for them.
- Nodes in memory are values in a sequence field indexed as the node pool is; that a node's bytes lie inside the
  pool element is not modelled, nor that the free list threads through the same memory.
- The valid-section bit mask is a sequence of booleans: the search for its lowest bit is a plain search.
- The lists' 16-bit sizes and the 32-bit free_bytes are integers; the space bound keeps them in range.
- The va_list plumbing of the searches is a datatype of what is compared with.
- `hierarchy_dir_get`, the hierarchy wrappers, record listing, tree printing, mutex stubs and logging.
- `cdll_insert`: its loop guard and trailing relink do not fit a sorted insert.
- Nor.Flash.Torn: only the bootloader is cut; what a torn erase or program leaves is any bytes, to be erased again, except that a torn erase of the settings lowers no byte.
- Adpcm.Encoder.Encode: a sample so far from the predictor that their difference overflows 32 bits, which C leaves undefined.
- Adpcm.StepsGrow: which way the tenth of each step is rounded is said by the table alone.
- Session.Run: in a ring of more than three sections, whether the log's ends can be found is a part of the machine's state that any append may change; Session.Do ties it to the log of the moment.
- Session.Do: after a power cycle the greatest id is said to be no greater than before and no less than any live id; that it is the greatest among the nodes in the log is said by Mounting.Remount, as the machine has no log.
- Bootloader.Boot.Start: trimming, clocks, pins, the choice of image and the jump to it are hardware setup.
- co_list, the flash driver and the other peripheral drivers are not part of this model.
- fifo.c and the instruction helpers, which would add only easy members.
