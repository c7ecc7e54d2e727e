# Verified models of mini's storage and messaging code

A Dafny project that models the parts of *mini* with the most state and arithmetic, in the form the C
code has, and proves what the rest of the firmware relies on. `dafny verify dfyconfig.toml` checks
all of it.

## What is modelled

**The FAT driver** (`ff.c`, FatFs R0.07a in this repository's configuration: writable, `_FS_TINY`,
512-byte sectors, no long names, code page 932). One stack of classes over a drive that may fail:

- `Bytes`, `Layout`, `FatTable`: little-endian accessors, the layout of a volume, and the cluster
  table in its three packings. The main result is that one store changes one entry, also where FAT12
  entries share a byte or straddle two sectors, and through the driver's `(WORD)` casts.
- `Chains`: the cluster table as a sequence of numbers. What allocating and freeing do to it, on
  every table, and what that means for chains, for the count of free clusters and for links.
- `Volume`: the drive (`Disk`) and the mounted volume (`FatFs`) with its one write-back window.
  `view` is the logical disk, that is the drive with the dirty window laid over it; `log` is every
  logical disk there has been, in order; `images` is every content the medium has had. `Valid`
  ties them together: away from a dirty window the medium is the logical disk, the further table
  copies agree with the first, and every content of the medium is the logical disk of some earlier
  moment, never stepping back in time. `exempt` says, content by content, in which sectors it runs
  ahead of that moment: those that direct transfers of file data have written since the window was
  last written back, and none as soon as it is. `Later` says that this past only grows and where the
  new contents run ahead, `SafeRun` that links stayed safe in it, and every operation on files and
  directories says both (`WentOn`).
- `FileData`, `FileIo`: the bytes of a file as a function of a view and a chain, and `f_read`,
  `f_write`, `f_lseek`, `f_sync` with their cached cursor against byte sequences.
- `FileSystem`: many files at once, what is written is what is read, truncation by `f_open`, and
  what a power loss can leave behind.
- `Listing`, `Directory`, `Names`, `DirEntry`: directory entries, a table of them as a map from
  names, iteration, stretching, search and registration, and 8.3 names to and from text.

**Inter-processor messages** (`Ring`, `Requests`, `Ipc`; `ipc.c`): two rings, the slow queue and the
packed message registers. The PPC acts between any two accesses of the ARM (`System.Ppc`). Between
any two accesses of the main loop `System.Tick` passes, in which interrupts are taken as well unless
they are masked; inside `ipc_post` and before the sleep the proofs need the masking. The histories of
everything posted, queued and processed are ghost state, and `Valid` says that the rings lose, repeat,
reorder and overwrite nothing; it holds at every such point of every run. `Requests` takes
`ipc_enqueue_slow` apart into its accesses, for a caller whom interrupts interrupt.

**NAND error correction** (`Nand`; `nand_correct` in `nand.c`): the code, the decoder as a function,
the in-place repair against it, and single-error correction with double-error detection.

**Formatted printing** (`Format`, `Directives`, `Printf`; `vsprintf.c`): numerals and fields, the
format state machine against a grammar of directives, and the truncation law.

**The USB Gecko loader** (`Gecko`; `gecko_process` in `gecko.c`): a receive state machine across calls
against a one-shot parser.

**CSD fields** (`Csd`; `sdmmc.h`, `sdmmc.c`): `__bitfield` and the capacity fields decoded by hand.

## Reading the contracts

- A request to the drive may fail unless the drive is `reliable`; a failed request moves no data.
  Results that need every request to succeed say so. `create_chain` takes a disk error on its first
  lookup for the end of a chain (ff.c:448-451) and hangs the new cluster there, which cuts the chain
  (`Volume.FatFs.CreateChain`, `Chains.HangingCuts`). What writing, seeking and registering do to bytes
  and entries is therefore stated for a reliable drive and a table without bad entries (`Sound`); on
  any drive they state their result codes, the abort flag, what the volume keeps, and link safety.
  Inside them the ghost parameter `sure` tells the two apart. `FatFs.Shaken` is what a direct transfer
  that failed leaves of `FatFs.Valid`.
- `f_read` takes whole sectors from the drive without looking at a dirty window (ff.c:1690-1697).
  `File.Read` states exactly when that shows: the bytes returned are those of the file if and only if
  not both the window is dirty inside the first run of whole sectors and its content there differs
  from the medium's. After `f_sync` nothing is dirty.
- `put_cluster` marks the window dirty even when the sector could not be loaded (ff.c:378); that is
  harmless unless the window is still empty, which the contract excludes.
- A free search that meets an entry holding the value 1 makes the allocator report an internal error;
  `Clean` tables have none.
- The masks `& (n - 1)` for powers of two are written as remainders, and shifts and disjoint "or"s of
  integers as multiplication, division and addition.
- `Layout.Mul` is multiplication by repeated addition (`Layout.MulIsProduct`); it keeps proofs about
  sector numbers linear.
- Link safety at every moment is stated for FAT16 and FAT32. A FAT12 entry is changed by two stores.
- `Secure` says that no logical disk since the moment the medium shows links to a free cluster. It is
  what a power loss needs: an operation that starts from it leaves only contents on the medium without
  such a link (`ImagesSafe`), and ends in it. A freshly mounted volume with safe links is `Secure`.
- Where the code's own promise does not hold the exact condition is stated instead, next to an input
  that fails: the width of a number with the `'` flag (`Format.IntFieldExact`,
  `Format.QuoteDisplacesZero`), printing back a name of mixed case (`Names.PrintsBack`,
  `Names.MixedCaseLost`), the size of a version 2 card (`Csd.DecodeV2`, `Csd.V2Fails`), reading without
  a sync (`FileIo.File.Read`, `FileSystem.ReadsStale`), enqueueing from the main loop
  (`Requests.MaskingDecides`, `Requests.LostToInterrupt`, `Requests.TornByStore`).

## Model

| member | source | states |
|---|---|---|
| Bytes.LowByteFirst | ff.h:541-544 | words and double words are read with the low byte first |
| Layout.ClustersDisjoint | ff.c:493-501 | distinct clusters occupy disjoint sector ranges |
| Layout.ClusterInRange | ff.c:493-501 | every valid cluster lies on the drive |
| Layout.ClusterLayout | ff.c:493-501 | cluster 2 starts the data area, and each further cluster starts where the one before it ends |
| Layout.ClustersForCeil | ff.c:1969-1984 | the number of clusters for a size is the least that holds it |
| FatTable.EntryAfterSet | ff.c:331-382 | a stored entry reads back cut to 12, 16 or 28 bits, and every other entry is unchanged, shared bytes included |
| FatTable.EntryAfterSet12 | ff.c:349-361 | the same for FAT12, where neighbours share a nibble of a byte |
| FatTable.TableAfterSet | ff.c:331-382 | the table read as numbers changes in exactly one place |
| FatTable.EntryBytes12 | ff.c:303-309 | two FAT12 entries fill three bytes of the table, low bits first |
| FatTable.EntryBytes | ff.c:311-317 | FAT16 entries are words and FAT32 entries the low 28 bits of double words, one after the other |
| FatTable.TableInOrder | ff.c:303-317 | the bytes of the table are the sectors of FAT copy 1 in order |
| FatTable.CastOffset16 | ff.c:311-313 | the offset of a FAT16 entry in its sector survives the WORD cast of the cluster number |
| FatTable.CastOffset32 | ff.c:315-317 | the same for FAT32, whose cluster numbers exceed 16 bits |
| FatTable.Spot12 | ff.c:303-309 | the two bytes the driver reads, perhaps from two sectors, are the entry of the table |
| FatTable.Store12 | ff.c:349-361 | the two byte stores of a FAT12 entry set exactly that entry |
| FatTable.Store16 | ff.c:363-367 | the word store sets exactly that entry |
| FatTable.Store32 | ff.c:369-373 | the double word store sets exactly that entry |
| Chains.SearchHit | ff.c:454-466 | the cluster found is free, and every cluster before it in cyclic order after the hint is in use |
| Chains.SearchAll | ff.c:454-466 | on a table without bad entries the search reports none exactly when no cluster is free |
| Chains.SearchTakes | ff.c:454-466 | the cluster found is the next free one upwards from the start and round the end; none found means none free |
| Chains.AfterInjective | ff.c:455-466 | the cyclic order visits each cluster at most once |
| Chains.ChainDistinct | ff.c:434-482 | a chain that ends in an end mark never meets itself |
| Chains.StretchChain | ff.c:468-473 | linking a free cluster grows the chain by exactly that cluster, which was in no part of it |
| Chains.CreateMeans | ff.c:434-482 | error, link followed, or new cluster: the next free one after the end of the chain or, for a new chain, after the one taken last, marked, linked and remembered; nothing else changes |
| Chains.OtherChain | ff.c:468-473 | every other chain stays as it was and does not contain the new cluster |
| Chains.HangingCuts | ff.c:448-473 | a cluster hung behind one inside a chain cuts the chain there, and the clusters after it stay in use |
| Chains.GrowOne | ff.c:1969-1984 | growing a chain to one more cluster is growing it and then one more allocation |
| Chains.GrowTwice | ff.c:1761-1838 | growing in two steps is growing in one |
| Chains.GrowStuck | ff.c:1972-1975 | once no cluster can be had, asking for more changes nothing |
| Chains.FreedChain | ff.c:406-419 | freeing a chain frees exactly its clusters and meets no bad entry |
| Chains.FreedOnlyClears | ff.c:406-419 | on any table, cyclic ones included, freeing only turns entries into zero |
| Chains.ClearedOther | ff.c:406-419 | freeing one chain keeps every chain that shares no cluster with it |
| Chains.LinkedCount | ff.c:475-479 | allocation takes exactly one cluster from the free ones |
| Chains.FreeCountUpdate | ff.c:414-417 | how one store changes the number of free clusters |
| Chains.FreeCountMeans | ff.c:414-417 | the count is the number of clusters whose entry is zero |
| Chains.LinkSafe | ff.c:468-473 | after either store of an allocation no entry links to a free cluster |
| Chains.FreeSafe | ff.c:407-419 | each step of freeing keeps links safe when nothing links to the first cluster |
| Volume.Disk.ReadMany | ff.c:1690-1694 | a transfer that succeeds yields the sectors in order |
| Volume.CopySectorsDistinct | ff.c:223-226 | no two sectors of the table copies coincide |
| Volume.CopyLayout | ff.c:223-226 | each copy of the table follows the one before it, sector by sector |
| Volume.MirrorsStep | ff.c:223-226 | copying to one more copy brings exactly that copy up to date |
| Volume.SnapshotImage | ff.c:220-227 | a write-back keeps every medium content a snapshot of the past, in order |
| Volume.SnapshotPresent | ff.c:1792-1804 | after a direct transfer under a clean window the medium shows the present |
| Volume.PowerLossKeepsLinks | ff.c:407-419 | after a run that kept links safe no content of the medium since has an entry linking to a free cluster |
| Volume.WentOnTrans | ff.c:208-241 | what operations keep of the past they keep in sequence |
| Volume.FatFs.constructor | ff.c:1355-1479 | a freshly mounted volume caches nothing and shows the drive |
| Volume.FatFs.WriteBack | ff.c:219-228 | a write-back leaves the logical disk alone, the medium shows it, and the copies agree |
| Volume.FatFs.MoveWindow | ff.c:209-241 | the logical disk never changes; on success the window shows the requested sector; the invariant survives read and write failures; contents of the medium are only added, and a write-back runs ahead of nothing |
| Volume.FatFs.WriteThrough | ff.c:1792-1804 | a direct transfer and the refill change exactly the sectors written, dirty window included; when the drive gives up half way, the volume stays as sound as it was unless the window shows a sector of the transfer, and then all but the window does |
| Volume.FatFs.PokeFresh | ff.c:1813-1816 | retagging the window without a read replaces that sector and restores the invariant |
| Volume.FatFs.FillBlank | ff.c:589-597 | a whole cluster reads as zeros and nothing else changes, however far it got on failure |
| Volume.FatFs.Sync | ff.c:251-278 | nothing is left dirty; the FSInfo sector changes only on FAT32 after an allocation, carries the allocation records then, and the mark is cleared |
| Volume.FsInfoFields | ff.c:258-267 | where the free count, the hint and the signatures stand in the FSInfo sector, and that the rest is zero |
| Volume.FatFs.Clust2Sect | ff.c:493-501 | the first sector of a cluster, 0 exactly for numbers out of range, unsigned wrap included |
| Volume.FatFs.ClusterStarts | ff.c:493-501 | cluster 2 is at the start of the data area, each further one a cluster size behind its predecessor, and every other number gives 0 |
| Volume.FatFs.GetCluster | ff.c:289-321 | the table entry, 1 out of range, or a disk error, in all three packings |
| Volume.FatFs.PutCluster | ff.c:331-382 | exactly one entry changes, cut to the width of the table, and nothing outside FAT copy 1 |
| Volume.FatFs.RemoveChain | ff.c:393-423 | terminates on every table, ends with the table `Freed` describes unless the drive fails, keeps a known count exact and marks its change; on any drive no logical disk and no content of the medium in between has an entry linking to a free cluster |
| Volume.FatFs.CreateChain | ff.c:434-482 | on a reliable drive a link is followed without a change, and otherwise the cluster is the next free one after the end of the chain or, for a new chain, after the hint, or after 1 when there is no usable hint; result, table and hint are what `Create` says, or, when a drive that may fail did so on the lookup, what hanging a cluster behind `clst` makes of them; a known count stays exact and its change is marked; on any drive no logical disk and no content of the medium in between has an entry linking to a free cluster |
| Volume.FatFs.FindFree | ff.c:454-466 | the search loop finds the next free cluster upwards from the start and round the end, as the search of the table does |
| Volume.FreeSafely | ff.c:407-419 | freeing may go on at the next cluster when it could start at this one |
| FileData.SectorAt | ff.c:493-501 | where sector `r` of the `q`-th cluster of a chain lies in the file |
| FileData.SectorsApart | ff.c:493-501 | chains without a common cluster have no common sector |
| FileData.SectorsDistinct | ff.c:493-501 | a chain without repetition visits each sector once |
| FileData.ContentAfterPatch | ff.c:1827-1833 | patching part of a sector overwrites exactly those bytes of the file |
| FileData.ContentInOrder | ff.c:1675-1724 | the bytes of a file are its sectors one after the other, the last perhaps in part |
| FileData.ContentAfterFresh | ff.c:1813-1833 | starting a sector at the growing edge appends, whatever the rest of the buffer held |
| FileData.ContentAfterOverlay | ff.c:1792-1809 | writing whole consecutive sectors overwrites exactly those bytes |
| FileData.ContentCovers | ff.c:1690-1697 | a stretch of content that covers a replaced sector is unchanged exactly when the sector is |
| FileData.OverwriteTwice | ff.c:1761-1838 | two writes in a row are one write of both pieces |
| FileIo.File.constructor | ff.c:1620-1641 | an opened file satisfies the cursor invariant |
| FileIo.File.Read | ff.c:1651-1728 | yields the next bytes of the file, as many as asked for or are left, and advances by as many; exactly when a stale window sector shows instead; all error returns, the abort flag included; after a failure the cursor has passed the bytes delivered |
| FileIo.File.ReadAll | ff.c:1675-1724 | the loop returns the bytes of the disk it shows on its first turn |
| FileIo.File.Write | ff.c:1738-1844 | replaces exactly the bytes from the cursor on, grows the file, and touches nothing but the file's own and free clusters; table, chain and hint become what growing to the end of the request makes of them; it stops short only at 4 GB or, on a full volume, at the very end of the room there is; contents of the medium run ahead only in the file's sectors; on any drive a failure sets the abort flag and leaves size and mark, the position counts the bytes of the turns completed, and no content of the medium links to a free cluster |
| FileIo.File.AllocatedTwice | ff.c:1761-1838 | making room turn by turn allocates what making room at once would |
| FileIo.File.AllocatedStuck | ff.c:1772 | once no cluster can be had the rest of a request makes no difference |
| FileIo.File.Seek | ff.c:1927-2015 | the position is the offset asked for, or the end of the room on a full volume when the file may be written, or the end of a file that may only be read; table, chain and hint become what growing to there makes of them wherever the cursor was; the data stays; on any drive a failure sets the abort flag and leaves size and mark, the volume stays sound, and no content of the medium links to a free cluster |
| FileIo.File.Sync | ff.c:1853-1890 | afterwards the medium alone, read through its directory entry, yields the file |
| FileIo.CursorCluster | ff.c:1951-1955 | the position and the sector count determine the current cluster and its first byte |
| FileIo.CursorDetermined | ff.c:1946-1993 | two cursors at one position of one chain are equal, however they got there |
| FileIo.ShortcutAllowed | ff.c:1951-1953 | the shortcut test asks whether the target lies past the start of the current cluster |
| FileIo.NeedExact | ff.c:1968-1986 | a target inside a cluster takes that many clusters |
| FileIo.OthersKept | ff.c:1738-1844 | extending one file keeps every other chain and every other byte |
| FileIo.ExtendsTrans | ff.c:1761-1838 | extensions compose |
| FileSystem.OnlyOneFileChanges | ff.c:1738-1844 | the volume behaves like a map of byte sequences: the other files keep chain and bytes, and stay apart |
| FileSystem.UpdateFile | ff.c:1738-1844 | `f_write` as an update of one entry of that map, short only on a full volume or at the 4 GB limit |
| FileSystem.WriteThenReadBack | ff.c:1651-1728 | after a write, a sync and a seek back, a read returns what was written, which is all of it unless the volume is full or the file would reach 4 GB |
| FileSystem.ReadsStale | ff.c:1690-1697 | a byte written without a sync is missing from a read of its whole sector |
| FileSystem.OpenTruncate | ff.c:1595-1616 | the chain is freed, the entry leads nowhere from the first store on and ends up reset, nothing else changes, the count stays exact; on any drive every content of the medium on which a cluster was freed shows the entry that leads nowhere, and none links to a free cluster |
| FileSystem.TruncateFile | ff.c:1595-1608 | truncation as an update of the map of files: one becomes empty, the others keep chain and bytes |
| FileSystem.TruncateKeepsOthers | ff.c:1595-1608 | truncating one file keeps every other file's chain and bytes |
| FileSystem.PowerLossAfterTruncate | ff.c:1595-1608 | a content of the medium on which a cluster is free that was in use before also shows the emptied entry |
| FileSystem.InUseNow | ff.c:1595-1608 | with nothing dirty the clusters in use on the medium are those of the table |
| DirEntry.PointAtFields | ff.c:1596-1599 | start cluster and size read back, the rest of the entry stays |
| DirEntry.RecordedFields | ff.c:1875-1881 | a synced entry leads to the file, has the archive bit and a zero write time, and keeps every other byte and attribute bit |
| DirEntry.ResetFields | ff.c:1611-1615 | resetting clears the attributes and the creation time and keeps every other byte |
| Listing.LookupFinds | ff.c:781-836 | a hit is the first live entry of that name and a miss means there is none |
| Listing.LookupMeans | ff.c:791-831 | in terms of bytes: the first entry of that name that is neither deleted nor a dot entry nor a volume label, with no end mark before it |
| Listing.VacancyMeans | ff.c:969-978 | the entry taken is the first that starts with 0 or 0xE5 |
| Listing.NewEntryBytes | ff.c:981-989 | a new entry holds the name, bits 3 and 4 of the flags, and zeros |
| Listing.RegisteredIsFound | ff.c:969-990 | a registered name that was not in use is found again in the slot it went to |
| Listing.RegisterInserts | ff.c:969-990 | every other name still leads where it led |
| Listing.RegisterKeepsUnique | ff.c:969-990 | live names stay unique |
| Listing.StretchedSame | ff.c:582-597 | a table with cleared entries appended is the same directory, with room |
| Listing.RegisterRefines | ff.c:904-993 | registration, stretching included, inserts into a map from names to entries |
| Directory.Dir.Seek | ff.c:511-545 | stands on the entry asked for, or reports that there is none |
| Directory.Dir.Next | ff.c:555-614 | stands on the next entry; end of table, full volume and stretching exactly when they occur; a stretched cluster reads as zeros; on any drive success leaves it on the entry of the next number, in the root sectors or a cluster |
| Directory.Dir.Stretch | ff.c:582-597 | the table grows by one cleared cluster that was free, unless none is; on any drive a refusal changes nothing and the volume stays sound |
| Directory.AtDetermines | ff.c:511-614 | where an entry is does not depend on whether it was reached by seeking or by iterating |
| Directory.StretchedItems | ff.c:582-597 | the entries of the stretched table are the old ones and then cleared ones |
| Directory.ItemsInOrder | ff.c:511-545 | a table is a file of 32-byte records: its entries stand one after the other |
| Directory.Dir.Find | ff.c:781-836 | finds what looking the name up in the listing finds |
| Directory.Dir.Register | ff.c:904-993 | the name goes into the first vacant entry, nothing else in the table or in any other file changes; on any drive success means that the window holds the new entry, and no content of the medium links to a free cluster |
| Directory.Dir.FindOrRegister | ff.c:1579-1588 | afterwards the name is found; all other names lead where they led; names stay unique; on any drive the volume stays sound and no content of the medium links to a free cluster |
| Names.CreateName | ff.c:1150-1201 | accepts exactly the segments of the grammar, builds their name, and finds the next segment |
| Names.PrintName | ff.c:1223-1241 | prints what the entry's bytes and NT flags say |
| Names.PrintsBack | ff.c:1150-1241 | an accepted segment is printed back up to ASCII case without a final dot, and exactly if and only if in body and extension no small letter meets a capital or an extended character |
| Names.MixedCaseLost | ff.c:1150-1241 | `aB` is accepted and prints back as `AB` |
| Names.NameUsable | ff.c:1184-1185 | no accepted segment makes a name that reads as an end mark, a deleted or a dot entry |
| Names.SmallMeans | ff.c:1171-1194 | what the case record says about a part |
| Names.ParseShape | ff.c:1150-1201 | body and extension fit, consist of whole characters, and spell the segment |
| Names.ParseComplete | ff.c:1150-1201 | every segment of up to 8 and 3 bytes of whole characters is accepted and taken apart there |
| Names.NameLaid | ff.c:1155-1197 | where body, extension, padding, the escape of 0xE5 and the flags stand in the name |
| Names.StoredLetters | ff.c:1168-1182 | small letters are raised, other characters and both bytes of a pair are kept |
| Names.CharClasses | ff.c:1160-1182 | the characters refused, those that end a segment, and the letters, spelled out |
| Ring.HeadAndTail | ipc.c:100-103 | two indices alone tell an empty ring from a full one |
| Ring.SlotCounts | ipc.c:116-117 | slots are used in order of their numbers, over and over |
| Ring.Push | ipc.c:183-206 | filling the tail slot of a ring with room overwrites nothing it still holds |
| Ipc.System.constructor | ipc.c:308-321 | the initial state satisfies every invariant |
| Ipc.System.Tick | ipc.c:96-121 | between two accesses the PPC acts and, unless masked, any number of interrupts are taken; the invariants hold afterwards |
| Ipc.System.Post | ipc.c:96-121 | with interrupts masked inside, a reply is filled in word by word, queued behind all earlier ones and published; none the PPC has not read is overwritten |
| Ipc.System.Fill | ipc.c:108-116 | the reply in the slot is whole although time passes between its words |
| Ipc.System.PokeOutTail | ipc.c:76-79 | the register keeps the other index, which an interrupt within the update would change |
| Ipc.System.EnqueueSlow | ipc.c:183-206 | the request is appended, or the system panics exactly when 127 are waiting |
| Ipc.System.ProcessIn | ipc.c:208-290 | the next request in order is queued once, or if fast answered exactly when it is a ping or a register read, with its code and tag |
| Ipc.System.IpcIrq | ipc.c:292-306 | terminates, and afterwards no posted request is left without a ring set or to come |
| Ipc.System.Drain | ipc.c:297-301 | at its last look the request ring is empty |
| Ipc.System.HandleSlow | ipc.c:129-181 | the slot being handled shows the same request whatever interrupts come in between; a ping, version or git request gets its reply, a jump request gives its argument as the vector |
| Ipc.System.Dispatch | ipc.c:136-152 | exactly one reply with code and tag for a ping, version or git request, the version with the number, and none for any other system request |
| Ipc.System.EmptySlow | ipc.c:338-341 | slow requests are processed in order of arrival, each ping, version and git request gets a reply with its code and tag, the version with the number, and the loop leaves with the argument of a jump |
| Ipc.System.Rest | ipc.c:347-350 | after the second look no request can arrive before the sleep |
| Ipc.System.Sleep | ipc.c:347-350 | is entered only with the slow queue empty and interrupts off |
| Ipc.System.ProcessSlow | ipc.c:333-354 | every run without a panic keeps all invariants and extends the processed requests, and every request processed that the main loop itself replies to gets its reply |
| Ipc.System.Promise | ipc.c:183-306 | what the PPC gets processed is a prefix of its slow requests, what it receives a prefix of the replies; the registers pack the counts of both rings, each in its half; no ring pending means nothing unconsumed |
| Ipc.System.EnqueueFromMain | gecko.c:422-427 | the accesses of `ipc_enqueue_slow` one by one, with interrupts enqueueing in every gap, also between a read of the tail and the store it addresses, leave the slots and the tail described |
| Requests.SurvivesExactly | ipc.c:183-206 | such a run loses, tears and overwrites nothing if and only if no interrupt enqueues between the read and the write of the tail, the interrupts leave room, no store changed a request that an interrupt enqueued between the store and its read of the tail, and what was stored before the last of them stands in the final slot anyway |
| Requests.HitChanges | ipc.c:193-201 | a store hits the first request enqueued between its read of the tail and itself, and changes it exactly when that request lacks the value stored |
| Requests.MaskingDecides | ipc.h:140-141 | with room in the queue every possible run survives if and only if interrupts are masked |
| Requests.LostToInterrupt | gecko.c:422-427 | one interrupt before the tail is written, and the request is not in the queue |
| Requests.TornByStore | ipc.c:193-201 | one interrupt inside the first store, and the flags of its request are overwritten |
| Requests.FilledReadsEmpty | ipc.c:188-205 | when interrupts take the last room after the test, the ring reads as empty afterwards |
| Nand.FlipHalves | nand.c:250-293 | flipping a data bit changes the code by its index and the complement |
| Nand.MaskBits | nand.c:278 | bits of a byte are numbered from the least significant one up |
| Nand.WordBytes | nand.c:272-273 | which bits of the four bytes of a stored word the two halves are |
| Nand.NoError | nand.c:264-267 | an undamaged or unformatted chunk is left alone |
| Nand.SingleDataError | nand.c:277-282 | any one flipped data bit is restored |
| Nand.SingleCodeError | nand.c:268-270 | any one flipped bit of the stored word leaves the data alone |
| Nand.DoubleDataError | nand.c:274-276 | any two flipped data bits are reported and the data is left alone |
| Nand.DoubleCodeError | nand.c:274-276 | any two flipped bits of the stored word are reported |
| Nand.DataAndCodeError | nand.c:264-284 | a data bit and a code bit are reported, a data bit and a spare bit are repaired |
| Nand.Recovered | nand.c:250-293 | with at most one error what was written comes back and nothing is reported as lost |
| Nand.Correct | nand.c:250-293 | each of the four chunks is repaired as the decoder says and the return value is the worst verdict |
| Format.NumeralDenotes | vsprintf.c:699-712 | a value is printed as digits of its base in the case asked for, and they read back as the value |
| Format.DigitChars | vsprintf.c:699-712 | digits are the characters from 0 on and the letters from a or A on |
| Format.WordFits | vsprintf.c:699-712 | a 32-bit value has at most 11 digits, so the buffer always suffices |
| Format.GroupedDigits | vsprintf.c:670-675 | the separators printed are those counted, and without them the digits are as before |
| Format.GroupsOfThree | vsprintf.c:670-675 | counted from the end, every fourth character is a separator and no other |
| Format.IntFieldLength | vsprintf.c:630-682 | the exact length of a number's field for every flag combination |
| Format.IntFieldExact | vsprintf.c:630-682 | it is the larger of width and need if and only if no separator displaces a zero of the precision |
| Format.QuoteDisplacesZero | vsprintf.c:630-682 | with precision 6 and the quote flag 12345 prints in six places instead of seven |
| Format.IntFieldReadsBack | vsprintf.c:584-684 | a field is spaces, sign, prefix, digits and spaces; with the sign it denotes the number; which sign and which prefix stand there; and how zeros and spaces fill precision and width on either side |
| Directives.MachineMeaning | vsprintf.c:236-538 | on every well-formed format the state machine prints what its directives mean, for all arguments |
| Directives.NumberField | vsprintf.c:370-446 | number conversions print the argument as signed or unsigned number of the range of its modifier, in base 8, 10 or 16 and the case asked for |
| Directives.TextField | vsprintf.c:550-582 | a text is cut to the precision and stands between spaces that fill the width on the proper side |
| Directives.OtherFields | vsprintf.c:447-528 | what characters, strings, pointers, percent signs and `n` print |
| Directives.FlagChars | vsprintf.c:249-274 | each flag is set exactly when its character occurs |
| Directives.SignedMeans | vsprintf.c:370-398 | the signed value is the one of the range congruent to the argument |
| Directives.ArgsInOrder | vsprintf.c:370-526 | arguments are taken one after the other, by the conversions that take one |
| Directives.DigitsRun | vsprintf.c:278-287 | a width or precision that is an int is read whole |
| Directives.DigitsOverflow | vsprintf.c:278-284 | any larger number is reported as overflow |
| Directives.OverflowsExactly | vsprintf.c:280-283 | the overflow test asks exactly whether the next number exceeds INT_MAX |
| Printf.Sink.Out | vsprintf.c:193-198 | the character joins the output, and the buffer if it fits |
| Printf.Sink.FmtStr | vsprintf.c:550-582 | prints the string clipped to the precision and padded to the width |
| Printf.Sink.FmtInt | vsprintf.c:584-684 | prints the field of the number |
| Printf.Convert | vsprintf.c:699-712 | leaves the digits in the buffer in reverse order |
| Printf.PrintField | vsprintf.c:395-530 | prints the field of each conversion |
| Printf.Vsnprintf | vsprintf.c:206-548 | the buffer receives the first min(len, n-1) characters of the one output and a NUL, nothing else in it changes, and the return value does not depend on the size |
| Gecko.EatApart | gecko.c:326-437 | where the stream is cut does not matter to the parser |
| Gecko.Framing | gecko.c:340-386 | garbage, magic, length and payload are understood as that message |
| Gecko.MagicBytes | gecko.c:319-320 | the magic words are the letters BPPC and BARM, the most significant byte first |
| Gecko.HandledMeans | gecko.c:404-428 | where the payload of either message stands and which request it makes |
| Gecko.Loader.Fill | gecko.c:388-399 | the buffer takes the bytes that are there, and nothing outside it is written |
| Gecko.Loader.Process | gecko.c:326-437 | a call understands the bytes it takes as the one-shot parser would, handles a complete message once, drops a refused one, and times out from the magic word on |
| Gecko.FeedImage | gecko.c:326-437 | over any cutting of the stream a message with either magic word is handled exactly once and not before it is complete: a PPC image stands at 0x10100000 and is asked to boot with its length, an ARM image stands at 0 and is jumped to if it has the two headers; calls after it change nothing |
| Csd.SliceSplit | sdmmc.h:365-376 | a bit slice is its lower part and its upper part |
| Csd.ByteHead | sdmmc.h:365-376 | the lowest bits of a slice at a byte are the lowest bits of that byte |
| Csd.BitField | sdmmc.h:353-380 | the bits asked for as a number, for every start and up to 32 bits, and 0 for an impossible request |
| Csd.DecodeV1 | sdmmc.c:228-234 | the fields picked out byte by byte are the fields of the register |
| Csd.NoOverflow | sdmmc.c:241 | the sector count of a version 1 card is right exactly when the capacity is below 2^32 bytes |
| Csd.DecodeV2 | sdmmc.c:218-222 | the 24 bits taken equal the 22-bit field exactly when the top two are clear; the sector count is right exactly when the field is not all ones, and 0 then |
| Csd.V2Fails | sdmmc.c:218-222 | a register with a top bit set, and one whose sector count overflows to 0 |

## Left out

- Long file names, `f_mkfs`, `f_forward`, `f_mkdir`, `f_rename`, `f_unlink`, re-entrancy: not compiled in this configuration.
- `follow_path`, `f_close`, `f_opendir`, `f_readdir`, `f_getfree`, `f_stat`: walks and copies over the operations modelled.
- `auto_mount`: only the state it leaves is modelled, on a volume whose geometry is sound.
- `validate` is a parameter of the file operations; timestamps are the constant 0 that `get_fattime` returns here; `CTRL_SYNC` is taken to succeed on a reliable drive.
- Buffers of callers are sequences, so a buffer that overlaps the volume's window is not captured.
- Volume.FatFs.WriteThrough: when a failed transfer includes the sector the window shows, the window is not promised to show the logical disk, because the code does not refill it then.
- Volume.FatFs.RemoveChain: link safety at every moment is stated for FAT16 and FAT32 only, because a FAT12 entry is stored in two steps.
- FileIo.File.Write: what it does to the bytes of the file is stated for a reliable drive and a table without bad entries, because after a failed lookup `create_chain` cuts the chain and reports success.
- FileIo.File.Seek: what it does to the chain and to the position is stated for the same case, for the same reason.
- Directory.Dir.Next: stretching is stated in full for that case; iteration and search are not restricted.
- Directory.Dir.Stretch: what the table of entries becomes is stated for that case.
- Directory.Dir.Register: which entry the name goes to is stated for that case.
- Directory.Dir.FindOrRegister: the map of names is stated for that case.
- Several byte stores to one window sector between two drive accesses are one step of the log.
- `dir_read` and `dir_remove`: the first repeats the loop of `dir_find`, the second stores one byte.
- Names.PrintsBack: a segment ending in a dot loses it, which the statement says.
- Hardware registers, cache maintenance, DMA and bus flushes: the message registers are plain variables here.
- Ipc.System.WaitForRoom: the PPC is taken to read at least one reply per turn of the wait, without which it need not end.
- Ipc.System.ProcessSlow: observed for a bounded number of turns and of outside requests, both arbitrary, because the loop itself never ends.
- A slot and its index are published by the PPC in one step; the slot is not read before the index.
- Ipc.System.Dispatch: the text a git request copies to memory, and the registers that fast requests write, are outside the model.
- The handlers of slow requests for other devices: they may wait, read their request again and reply any number of times.
- `nand_ipc`, page reads and writes, the SD host controller: device command sequences.
- Printf.PrintField: the store through the pointer of `%n` is left out, its argument is consumed.
- Printf.Vsnprintf: missing arguments read as 0, a width argument of INT_MIN is negated without overflow, and the length is not cut to `size_t`.
- Gecko.Loader.Process: stopping the PPC when a length has arrived, and what `gecko_flush` discards after a message.
- Csd.BitField: the conversion of a 32-bit result to a signed int.
- The timeout values and the logging of the card detection code.
