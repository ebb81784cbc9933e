# A model of the FPGA NES card reader and debugger

The project models, and proves properties of:

* `fsrw`, the FAT16/32 file system on the Propeller (`propeller_src/fsrw.spin`): the
  one-sector metadata cache with its mirrored FAT, the cluster allocator and the chain
  freer, buffered reading, writing, appending and seeking, names, the directory
  listing and mounting;
* `safe_spi`, the block driver below it (`propeller_src/safe_spi.spin`): two processors
  that share three longs, with read-ahead, write-behind and multi-block card modes;
* the joypad port (`hw/ise/debounce.v`, `hw/ise/joypad_buttons.v`);
* the ROM upload and its packets (`sw/src/nesdbg.cpp`, `sw/src/dbgpacket.cpp`).

## How it is laid out

* `Bytes`, `Arith`: words, blocks, and division by a power of two.
* `Layout`: where things lie on a volume; the FAT and the root directory as tables.
* `Fat`, `Content`, `Updates`: chains, the bytes of files, and what each update keeps.
* `Counting`: how many clusters the chains own and the bytes of the files need.
* `Names`, `Listing`, `FreeSearch`, `FileState`: the value side of the operations.
* `Cache`: the class with the variables shared by all open files.
* `FileSystem`: the class with the variables of one open file and all operations.
* `Session`, `RoundTrip`: whole runs; `Browse`: two objects on one volume; `Mount`,
  `Root`: what of a FAT32 root directory is mounted.
* `SpiCog`, `SpiProtocol`: the driver's registers, and both processes side by side.
* `Debounce`, `Joypad`, `DbgPacket`, `RomUpload`.

The classes keep the fields of the source and change them in place; ghost fields hold
the chain of every file, the files as a map from names to bytes, and every image that
the disk has had. `Fsrw.Inv` ties them together: it holds between any two operations,
and with it the disk is sound (no pointer to a free cluster, no two pointers to one
cluster). `Volume.exposed` tells whether it was not sound after some block write, which
needs stale directory slots.

## What is taken for granted

* The volume is consistent when it is mounted: `ConsistentBoot` for the boot sector,
  `Consistent` for the tables, equal FATs, unique names. Byte addresses and sizes are
  below 2^31, FAT entries 0 and 1 are not 0, FAT32 entries have their top bits clear.
* There is room for what is written (`HasRoom` for runs, `Capacity` for a call); clusters
  that files give up count. The code has no working way out of a full disk: it looks at
  `rcnt` where `count` was meant (`propeller_src/fsrw.spin:322`), so the search never
  ends; `SearchEnds` says so.
* The card makes no errors and has a block for every number the driver asks for; the
  register that answers the first request starts at 0.
* Hardware powers up at zero.

## Where the code does not do what it says

* `pclose` and `pflush` return the fill of the buffer, not 0.
* A name that starts with $E5 after padding makes a slot that counts as deleted, and
  finds deleted slots (`FoundIsLive`, `DeletedIsFound`, `WrittenIsLive`). `popen` is
  therefore modelled for the other names. Deleting by such a name can free a cluster that
  belongs to another file by now (`DeletesAnother`).
* Creating a file over the end mark in the last slot of a directory sector writes that
  sector before it ends the next one; stale slots there are live in between.
  `HalfSound` says exactly when the disk is unsound then, `HalfUnsound` gives a volume,
  and `Volume.exposed` records it. Without stale slots (`NoStale`) it never happens.
* `seek` leaves `frem` too large after some forward steps (`SeekSafe`, `SeekLoses`). A
  seek to the very end of the file aborts if the file fills its last cluster, and can
  leave the position before the end (`AtEnd`, `SeekEndReplays`).
* `pputc` and `pwrite` do not look whether a file is open for writing before the buffer
  is full: they overwrite the buffer of a reader.
* Mounting reads only the low word of a FAT32 root cluster (`RootRight`,
  `HighRootMissed`), and accepts 0 sectors per cluster.
* Of a FAT32 root directory, a chain of clusters, only the first cluster is looked at
  (`RootWhole`). What the model calls the files of a volume are those in its slots
  (`FilesSeen`); files in later clusters are missed (`TwoRootsMissed`, `OpenMissed`).
* A FAT16 root directory of more than two clusters makes `opendir` compute what is no
  cluster number (`Listable`, `WideRootMissed`); the block read next is 2^23 blocks
  behind the directory (`ListAway`).
* A reset of the joypad port does not reach the latch (`StaleAfterReset`).
* A text of an odd number of digits and nothing else runs over the packet buffer
  (`RunsOverWhen`); `ReadText` requires that it is not one. The program is built for wide
  characters and looks at their low bytes, so there are more digits than those of ASCII.

## Model

| member | source | states |
|---|---|---|
| `Session.Run` | propeller_src/fsrw.spin:278-657 | any sequence of opens (all modes), writes, putc, flushes, closes, reads and getc behaves like the same operations on a map from names to byte sequences, provided that in every state of that simple form the files need no more clusters than there are, those of empty files not counted (what was deleted or overwritten is there again); free plus owned clusters are conserved; `exposed` says exactly whether some disk image after a block write is not sound, and it rises only where an operation of the run creates a file over an end mark that ends its sector, with stale bytes behind it; if the directory has no stale slots and all images were sound, all images still are |
| `Session.Do` | propeller_src/fsrw.spin:278-657 | one operation is one step of the simple form, keeps the invariant, the set of free and owned clusters and the space for bytes; only the creation of a file that was absent, over an end mark that ends its sector, with stale slots behind it, can make an image unsound |
| `Session.StepOk` | propeller_src/fsrw.spin:365-381 | in the simple form the open file always exists and a reader is inside it |
| `RoundTrip.WriteThenRead` | propeller_src/fsrw.spin:278-364 | open "w", any writes, close, open "r", any reads: the bytes handed over are a prefix of the concatenation of what was written, as long as was asked for; the file holds exactly that and no other file changed |
| `RoundTrip.WriteFile` | propeller_src/fsrw.spin:442-454 | open "w", any writes and close leave in the file exactly what was written |
| `RoundTrip.AppendThenClose` | propeller_src/fsrw.spin:455-481 | open "a", any writes and close leave the old bytes followed by the new, or the new ones in a new file |
| `RoundTrip.ReadsRun` | propeller_src/fsrw.spin:507-541 | any mixture of pread and pgetc hands over consecutive slices of the file up to its end |
| `RoundTrip.OthersKept` | propeller_src/fsrw.spin:390-504 | a file that no operation of a run names keeps its bytes, its lock and its existence |
| `RoundTrip.RewritesHaveRoom` | propeller_src/fsrw.spin:442-449 | what a run needs does not add up: a file can be overwritten any number of times where it can be once |
| `FileSystem.Fsrw.POpen` | propeller_src/fsrw.spin:390-504 | answer code, files, mode and position for every mode, name found or not, locked or not, directory full or not; free plus owned clusters conserved, and what files give up is free; exactly when the disk is unsound between two block writes; mode "r" changes nothing but the cache |
| `FileSystem.Fsrw.PClose` | propeller_src/fsrw.spin:365-381 | the invariant without an open file; files unchanged and recorded on disk; returns the fill of the buffer, not 0 |
| `FileSystem.Fsrw.PWrite` | propeller_src/fsrw.spin:542-560 | the open file grows by exactly the bytes given, no other file changes; if none is open for writing, what is left of the buffer is overwritten, and -27 is the answer unless that was enough |
| `FileSystem.Fsrw.PPutc` | propeller_src/fsrw.spin:566-577 | the open file grows by one byte; if none is open for writing, the byte goes into the buffer and 0 is the answer, or -27 if it is full |
| `FileSystem.Fsrw.PFlush` | propeller_src/fsrw.spin:339-344 | bytes unchanged and all on the disk, size recorded in the directory slot |
| `FileSystem.Fsrw.PFlushBuf` | propeller_src/fsrw.spin:278-338 | the writer invariant is kept, nothing shown changes, the buffer is stored, and with metadata the slot on disk records the size |
| `FileSystem.Fsrw.PRead` | propeller_src/fsrw.spin:507-530 | hands over exactly the next bytes of the file, up to the count or the end, -1 at the end or if no file has been open since the last close; tell advances by them; nothing else changes |
| `FileSystem.Fsrw.PGetc` | propeller_src/fsrw.spin:531-541 | the next byte of the file, or -1 at its end or after a close |
| `FileSystem.Fsrw.PFillBuf` | propeller_src/fsrw.spin:345-364 | which block is read for which position, and how floc, frem, bufend and fclust move; -1 at the end, -9 on a bad cluster |
| `FileSystem.Fsrw.Fill` | propeller_src/fsrw.spin:345-364 | refilling keeps the reader invariant, frem = min(left in cluster, left in file), and the position |
| `FileSystem.Fsrw.Seek` | propeller_src/fsrw.spin:586-611 | for 0 <= pos < filesize: tell is pos and the buffer holds the bytes there; the full reader invariant holds afterwards if and only if no forward step was taken, or nothing had been read, or the last cluster was reached; for pos = filesize: -9 if and only if the file fills its last cluster, and else tell is pos unless the end is that of a sector, something had been read and no forward step was taken, when the old buffer is read again; -1 and no change for any other pos and for a file open for writing; without a file, after a close, 0 at pos 0 |
| `FileSystem.Fsrw.SeekWalk` | propeller_src/fsrw.spin:589-603 | the cluster part: the abort, the chain cluster that holds pos, and the value of floc + frem that a forward step leaves |
| `FileSystem.Fsrw.SeekUnsafe` | propeller_src/fsrw.spin:597-603 | a concrete reader for which the condition above fails |
| `FileSystem.Fsrw.SeekLoses` | propeller_src/fsrw.spin:345-364 | after every seek for which the condition fails, reading on to the end of the cluster and refilling gives its first sector again, not that of the next cluster |
| `FileSystem.Fsrw.SeekEndReplays` | propeller_src/fsrw.spin:586-611 | a concrete reader for which a seek to the end answers 0 and leaves tell 512 bytes before it, with those bytes to be read again |
| `FileSystem.Fsrw.FreeClusters` | propeller_src/fsrw.spin:254-265 | the FAT becomes that of the free-chain function, the abort is -26 exactly on a bad number, and the disk is sound after each write if nothing leads to the chain |
| `FileSystem.Fsrw.FindCluster` | propeller_src/fsrw.spin:287-324 | if a cluster is free the search ends and returns the first free one of the first sector that has one |
| `FileSystem.Fsrw.Allocate` | propeller_src/fsrw.spin:303-316 | the chain is extended by exactly the cluster found, marked before it is linked; every other entry is unchanged |
| `FileSystem.Fsrw.Grow` | propeller_src/fsrw.spin:287-324 | allocation keeps the writer invariant and what is shown |
| `FileSystem.Fsrw.StoreBuffer` | propeller_src/fsrw.spin:325-331 | the bytes of the buffer are behind the stored ones of this file, and no other file changes |
| `FileSystem.Fsrw.FlushSize` | propeller_src/fsrw.spin:332-335 | the slot on disk records floc + bufat and the cache is clean |
| `FileSystem.Fsrw.FindEntry` | propeller_src/fsrw.spin:413-425 | the first slot with the name that is no directory or label, else the first vacant slot and the end mark |
| `FileSystem.Fsrw.Delete` | propeller_src/fsrw.spin:436-441 | the file and its chain are gone, its clusters free; others keep their bytes; sound after each write; no slot becomes stale; the tables are those of DeletedTables |
| `FileSystem.Fsrw.CutChain` | propeller_src/fsrw.spin:442-449 | the slot is cleared before its clusters are freed; the file is empty |
| `FileSystem.Fsrw.AppendPlace` | propeller_src/fsrw.spin:466-478 | for every size, 0 and multiples of the cluster size included, the writer invariant but for writelink, and the bytes already there in the buffer |
| `FileSystem.Fsrw.OpenAppend` | propeller_src/fsrw.spin:455-481 | the whole writer invariant, with the old bytes pending |
| `FileSystem.Fsrw.CreateEntry` | propeller_src/fsrw.spin:486-504 | a new empty file in the first vacant slot, or -2; exactly when the disk is unsound in between |
| `FileSystem.Fsrw.WriteEntry` | propeller_src/fsrw.spin:490-500 | the slot written, the next one ended if it was the end mark, and which images the disk goes through, the half-made one included |
| `FileSystem.Fsrw.OpenDir` | propeller_src/fsrw.spin:614-625 | closes, and sets up the listing if and only if the root directory does not start before the data region as counted; if it does, the block to be read next is 2^23 blocks behind it |
| `FileSystem.Fsrw.NextFile` | propeller_src/fsrw.spin:626-657 | prints the next listed name from the position on, or answers -1 at the end; the place in the listing advances past it |
| `FileSystem.Fsrw.ListRefill` | propeller_src/fsrw.spin:635-640 | the block read is that of the next slot, across clusters |
| `FileSystem.Fsrw.ListStays` | propeller_src/fsrw.spin:614-657 | a listing is not disturbed by others that only read |
| `FileSystem.Fsrw.ClosedStays` | propeller_src/fsrw.spin:682-697 | nor is the invariant of an object without an open file |
| `FileSystem.Fsrw.RoomsFor` | propeller_src/fsrw.spin:287-316 | what a file and the free clusters have room for covers its bytes and the free clusters |
| `FileSystem.Fsrw.RoomToGrow` | propeller_src/fsrw.spin:287-316 | a file open for writing can grow to any length for which the lengths of all files leave room |
| `FileSystem.Fsrw.FreeIs` | propeller_src/fsrw.spin:254-265 | without a file open for writing the free clusters are exactly those that neither the bytes of the files need nor empty files own |
| `FileState.ReaderStep` | propeller_src/fsrw.spin:351-360 | the next sector of a reader is in the chain cluster that the code computes, and reading it keeps the invariant |
| `FileState.ReaderBuffer` | propeller_src/fsrw.spin:354-362 | that sector holds the bytes of the file at the position |
| `FileState.AppendAt` | propeller_src/fsrw.spin:457-478 | the position that append computes meets the writer invariant |
| `FileState.StoreShows` | propeller_src/fsrw.spin:325-331 | storing the buffer changes what is shown of no file |
| `FileState.GrowShows` | propeller_src/fsrw.spin:303-316 | linking a cluster changes what is shown of no file |
| `FileState.NewEntryCrash` | propeller_src/fsrw.spin:490-500 | after the images of a creation the disk has been unsound if and only if it had been before or the stale slots that come to life are harmful |
| `FileState.FragileExposing` | propeller_src/fsrw.spin:490-500 | that takes stale bytes behind an end mark in the last slot of a sector, which shows in the first bytes of the slots |
| `FileState.FoundIsLive` | propeller_src/fsrw.spin:415-425 | what the search finds is an existing file if and only if the name does not start with $E5 |
| `FileState.DeletedIsFound` | propeller_src/fsrw.spin:417-425 | a deleted file is found under the name that deletion gave it |
| `FileState.DeletesAnother` | propeller_src/fsrw.spin:436-441 | a concrete consistent volume with a file whose cluster a deleted slot still records: deleting by the marked name of that slot frees the cluster of the file, and the tables are not sound afterwards |
| `FileState.WrittenIsLive` | propeller_src/fsrw.spin:491-492 | a created slot is a file if and only if its name does not start with $E5 |
| `FreeSearch.SearchEnds` | propeller_src/fsrw.spin:291-324 | the search for a cluster ends if and only if some cluster is free |
| `FreeSearch.PageReached` | propeller_src/fsrw.spin:318-320 | every sector of the FAT is reached from every start |
| `Cache.Volume.FlushIfDirty` | propeller_src/fsrw.spin:93-99 | the disk becomes the logical disk, which does not change; both FATs agree; each image shows the tables |
| `Cache.Volume.ReadBlockC` | propeller_src/fsrw.spin:100-108 | the logical disk does not change, and buf2 shows its block |
| `Cache.Volume.ReadByteC` | propeller_src/fsrw.spin:223-229 | the same for a byte address, with its place in the block |
| `Cache.Volume.WriteBlock2` | propeller_src/fsrw.spin:84-92 | the block, and its mirror if it is in the first FAT; the image in between shows the same tables |
| `Cache.Volume.BrwWord` | propeller_src/fsrw.spin:127-134 | the logical disk changes in those two bytes, mirrored, and is dirty |
| `Cache.Volume.StoreFat` | propeller_src/fsrw.spin:142-148 | exactly one FAT entry of the logical tables changes, and no file data |
| `Cache.Volume.StoreSlotLong` | propeller_src/fsrw.spin:135-141 | exactly one slot of the logical tables changes |
| `Cache.Volume.StoreData` | propeller_src/fsrw.spin:326 | one sector of one cluster changes; tables and cache do not |
| `Cache.CrashOn` | propeller_src/fsrw.spin:93-108 | images that show sound tables keep the crash property |
| `Layout.RegionsApart` | propeller_src/fsrw.spin:182-216 | a data sector is on the disk, outside both FATs and the root directory |
| `Layout.MetaOnDisk` | propeller_src/fsrw.spin:84-92 | a table block and its mirror are on the disk and apart |
| `Layout.SectorsApart` | propeller_src/fsrw.spin:266-270 | different sectors of clusters are different blocks |
| `Layout.FatPut` | propeller_src/fsrw.spin:230-236 | a store at the computed place changes that FAT entry and nothing else in the tables |
| `Layout.DirPut` | propeller_src/fsrw.spin:490-500 | rewriting the bytes of a slot changes that slot only |
| `Layout.DataPut` | propeller_src/fsrw.spin:266-270 | writing a data sector changes no table and no other sector |
| `Layout.MetaWriteKeepsMirror` | propeller_src/fsrw.spin:84-92 | a table write keeps the two FATs equal |
| `Fat.ChainUnique` | propeller_src/fsrw.spin:237-252 | a chain is determined by the FAT and its first cluster |
| `Fat.ChainsApart` | propeller_src/fsrw.spin:237-252 | in a sound volume chains of two live slots share no cluster and none visits a cluster twice |
| `Fat.FilesApart` | propeller_src/fsrw.spin:237-252 | the same for the chains of files |
| `Fat.MarkKeepsSound` | propeller_src/fsrw.spin:304 | marking a free cluster keeps soundness and leaves it unlinked |
| `Fat.LinkKeepsSound` | propeller_src/fsrw.spin:312 | linking it behind the last cluster keeps soundness |
| `Fat.ZeroKeepsSound` | propeller_src/fsrw.spin:260-264 | clearing an unlinked cluster keeps soundness and unlinks its successor |
| `Fat.FreeWalk` | propeller_src/fsrw.spin:254-265 | along a well-formed chain exactly its entries are cleared |
| `Fat.FreeInRange` | propeller_src/fsrw.spin:254-265 | on any FAT in range, cycles included, freeing ends at an end of chain or with the abort |
| `Fat.FreeEndsWell` | propeller_src/fsrw.spin:254-265 | it ends at an end of chain if and only if it started on a well-formed chain |
| `Updates.AllocKeeps` | propeller_src/fsrw.spin:303-316 | an allocation keeps the volume consistent |
| `Updates.PoolAfterAlloc` | propeller_src/fsrw.spin:303-316 | it moves one cluster from free to owned and loses none |
| `Updates.FreedKeeps` | propeller_src/fsrw.spin:254-265 | a freed chain leaves a consistent volume |
| `Updates.PoolAfterFree` | propeller_src/fsrw.spin:254-265 | the freed clusters are exactly those of the chain |
| `Updates.DeleteKeeps` | propeller_src/fsrw.spin:436-440 | marking the slot deleted leaves the others consistent and the chain unlinked |
| `Updates.TruncateKeeps` | propeller_src/fsrw.spin:443-445 | clearing the slot does so too |
| `Updates.CreateKeeps` | propeller_src/fsrw.spin:490-500 | a new slot keeps the volume consistent |
| `Updates.HalfSound` | propeller_src/fsrw.spin:498-500 | in general that image is sound if and only if every stale slot that comes to life and points at a cluster points at a used one that nothing else leads to, and no two at the same |
| `Updates.HalfUnsound` | propeller_src/fsrw.spin:498-500 | a consistent volume for which it is not |
| `Updates.StaleSlotLives` | propeller_src/fsrw.spin:498-500 | a stale slot behind the end mark is live in that image only |
| `Updates.CreatedNoStale` | propeller_src/fsrw.spin:490-500 | where no slot is stale, a creation makes none stale and exposes none |
| `Content.BytesGet` | propeller_src/fsrw.spin:345-364 | a sector of a chain holds the bytes of the file there |
| `Content.BytesPut` | propeller_src/fsrw.spin:325-331 | storing a sector puts its bytes behind the earlier ones |
| `Content.BytesGrow` | propeller_src/fsrw.spin:303-316 | a longer chain has the same first bytes |
| `Content.DataOthers` | propeller_src/fsrw.spin:325-331 | storing to one file leaves the bytes of the others |
| `Content.ShowsUnique` | propeller_src/fsrw.spin:390-504 | the disk determines the chains and the files |
| `Counting.PoolCount` | propeller_src/fsrw.spin:254-316 | the clusters in play are as many as the free ones and those of all chains together |
| `Counting.FileExact` | propeller_src/fsrw.spin:287-316 | a chain is as long as the bytes of its file need, or 1 for an empty file |
| `Counting.NeedIs` | propeller_src/fsrw.spin:287-316 | so the chains together are what the files need and what empty files own |
| `Counting.ClosedCount` | propeller_src/fsrw.spin:365-381 | the same for the volume between two files |
| `Counting.WriterCount` | propeller_src/fsrw.spin:287-316 | and with a file open for writing |
| `Names.ParseName` | propeller_src/fsrw.spin:400-412 | the name buffer holds the padded upper-case form of any string |
| `Names.PrintName` | propeller_src/fsrw.spin:644-656 | the printed form and a final 0, within 13 characters |
| `Names.PrintParse` | propeller_src/fsrw.spin:400-412 | parsing the printed form of a name gives it back if and only if it has no NUL, no lower case letter and no dot in its first eight characters |
| `Names.PaddedTypable` | propeller_src/fsrw.spin:400-412 | every parsed name is of that kind |
| `Listing.EntriesFrom` | propeller_src/fsrw.spin:626-657 | the listed names are those of the live files, each once if names are unique |
| `Listing.EntriesNext` | propeller_src/fsrw.spin:641-643 | what is listed first and what is listed after it |
| `Listing.ListFill` | propeller_src/fsrw.spin:635-640 | the counted cluster number gives the block of the next slot |
| `Listing.ListOpen` | propeller_src/fsrw.spin:621-624 | the position that opendir computes is that of the first slot, if the root directory does not start before the data region as counted |
| `Listing.ListAway` | propeller_src/fsrw.spin:621-624 | if it does, it is no place in the listing: the block that it gives is too large by 2^32 bytes, whatever the cluster size |
| `Browse.GetStats` | propeller_src/handyvgs.spin:97-115 | listing with one object while another opens each file gives every printed name in order with the size of its file, and changes nothing |
| `Browse.NextStat` | propeller_src/handyvgs.spin:101-115 | one round of that |
| `Browse.ListingIsFiles` | propeller_src/fsrw.spin:626-657 | the listing names exactly the files in the slots that the code looks at, each once |
| `Browse.PrintedOpens` | propeller_src/fsrw.spin:400-412 | the printed name, as it stands in the buffer, opens the file that was listed |
| `Mount.MountExplicit` | propeller_src/fsrw.spin:161-217 | the answer code of every check in order; on a consistent volume the geometry is the one computed from the low word of the root cluster, which is the specified one, with the first cluster of a FAT32 root directory, if and only if the volume is FAT16 or that cluster is below $10000; then the invariant holds for the files in the slots that the code looks at |
| `Mount.SpecifiedWf` | propeller_src/fsrw.spin:182-216 | the geometry that the FAT specification gives a consistent boot sector, of a FAT32 root directory its first cluster, is well formed and on the card, for every root cluster |
| `Mount.RootRight` | propeller_src/fsrw.spin:202-206 | the cluster taken for the first one of a FAT32 root directory is the specified one if and only if its number is below $10000 |
| `Mount.HighRootMissed` | propeller_src/fsrw.spin:202-206 | a concrete FAT32 boot sector that is accepted and whose root directory is missed |
| `Root.RootWhole` | propeller_src/fsrw.spin:201-206 | the specification makes the FAT32 root directory a chain of clusters: the slots that the code looks at are all of that chain if and only if the volume is FAT16, or the number of the first cluster is below $10000 and its FAT entry ends the chain; below $10000 they are at least its first ones |
| `Root.FilesSeen` | propeller_src/fsrw.spin:413-425 | the files that the code knows of are exactly those in the first cluster of the chain |
| `Root.TwoRootsShown` | propeller_src/fsrw.spin:201-206 | a concrete FAT32 volume with a root directory of two clusters that is accepted and consistent without any file |
| `Root.TwoRootsMissed` | propeller_src/fsrw.spin:201-206 | the root directory of that volume has a file, in the first slot of its second cluster |
| `Root.OpenMissed` | propeller_src/fsrw.spin:390-429 | mounting that volume succeeds, and opening the file by its name answers -1 |
| `Mount.MountedApart` | propeller_src/fsrw.spin:182-216 | distinct pairs of cluster and sector have distinct blocks, inside the volume, apart from both FATs and the FAT16 root directory |
| `Mount.PowerTest` | propeller_src/fsrw.spin:187-188 | the test lets exactly the powers of two and 0 pass |
| `Mount.ClusterShift` | propeller_src/fsrw.spin:189-193 | two to the shift is the number of sectors per cluster, or 1 for 0 |
| `Mount.Measure32` | propeller_src/fsrw.spin:202-207 | FAT32: the specified regions with the root directory of the low word, without overflow |
| `Mount.Measure16` | propeller_src/fsrw.spin:208-213 | FAT16: the specified regions, without overflow |
| `Mount.Listable` | propeller_src/fsrw.spin:620-621 | a listing starts at a cluster number if and only if the volume is FAT32 or its root directory takes two clusters at most, and on both sides the offset is in the range for which OpenDir says what is set up |
| `Mount.WideRootMissed` | propeller_src/fsrw.spin:620-621 | a concrete FAT16 boot sector that is accepted and consistent and for which it does not |
| `SpiCog.Cog.HandleCommand` | propeller_src/safe_spi.spin:451-482 | staying in a multi-block mode gives the same registers, buffer and card as leaving it and starting anew |
| `SpiCog.Cog.ReadAhead` | propeller_src/safe_spi.spin:410-432 | the buffer gets the block asked for, prefetched or not; the next one is fetched |
| `SpiCog.Cog.WriteBehind` | propeller_src/safe_spi.spin:434-446 | the card gets the data of the buffer for that block |
| `SpiCog.Cog.DoRelease` | propeller_src/safe_spi.spin:401-408 | the card is in no multi-block mode |
| `SpiCog.Cog.HandleTime` | propeller_src/safe_spi.spin:653-671 | clock counts are conserved, and the card is released exactly when it was idle long enough |
| `SpiCog.Cog.ToHub` | propeller_src/safe_spi.spin:673-703 | the four passes move all 128 longs to the buffer and touch nothing else |
| `SpiCog.Cog.FromHub` | propeller_src/safe_spi.spin:673-703 | the four passes move all 128 longs from the buffer |
| `SpiCog.LoadedBlock` | propeller_src/safe_spi.spin:410-422 | the buffer is served only when it holds the current block |
| `SpiCog.LongsMoved` | propeller_src/safe_spi.spin:677-699 | the order of the passes reaches every long |
| `SpiProtocol.RunKeeps` | propeller_src/safe_spi.spin:94-116 | the invariant of caller, driver and card holds after any interleaving, from the start on, when the command is the -1 that the driver has answered, or between any two calls |
| `SpiProtocol.Returns` | propeller_src/safe_spi.spin:94-116 | whenever readblock returns its buffer holds the data last given to writeblock for that block and nothing else changed; after release the card is idle; the answer is 0 |
| `SpiProtocol.GivenIs` | propeller_src/safe_spi.spin:106-116 | that data is what the run shows was given |
| `SpiProtocol.Apart` | propeller_src/safe_spi.spin:376-446 | the driver touches parameters and buffer only while the request stands; its background steps neither see nor change them |
| `SpiProtocol.Answered` | propeller_src/safe_spi.spin:376-446 | a call is answered within 134 steps of the driver, whatever the interleaving |
| `SpiProtocol.CallerKeeps` | propeller_src/safe_spi.spin:94-116 | every step of the caller keeps the invariant |
| `SpiProtocol.CogKeeps` | propeller_src/safe_spi.spin:376-446 | every step of the driver keeps the invariant |
| `Debounce.Flips` | hw/ise/debounce.v:45-100 | the level flips at exactly the edges that complete 2^N contradicting samples in a row, and the tick precedes exactly the flips to 1 |
| `Debounce.OneTickPerRise` | hw/ise/debounce.v:63-74 | as many ticks as flips from 0 to 1 |
| `Debounce.Counts` | hw/ise/debounce.v:49-97 | the counter is 2^N minus the length of the streak |
| `Debounce.Unit.Clock` | hw/ise/debounce.v:29-100 | the clocked registers do that for every trace since the last reset; under a reset they stay cleared |
| `Debounce.Unit.Reset` | hw/ise/debounce.v:30-43 | a reset clears the registers at once |
| `Joypad.TwoClocks` | hw/ise/joypad_buttons.v:89-139 | without a reset the latched buttons are the level of two clocks ago |
| `Joypad.StaleAfterReset` | hw/ise/joypad_buttons.v:89-139 | a reset does not clear the latch: a button released when it rises, or between two clocks under it, goes on being shown |
| `Joypad.FreshAfterReset` | hw/ise/joypad_buttons.v:89-139 | after a reset, held for any number of clocks or none, and any levels since, the latch is up to date if and only if a button was held since, or none was latched before and none held at a clock under the reset |
| `Joypad.LatchIs` | hw/ise/joypad_buttons.v:89-139 | from a cleared joypad_reg on, what each register of the latch holds |
| `Joypad.ReadSettles` | hw/ise/joypad_buttons.v:149-206 | after 1 and then 0 written to $4016 the k-th read settles to captured button k-1 for k up to 8 and to 1 from the ninth on, whatever else is on the bus |
| `Joypad.ShiftsOnly` | hw/ise/joypad_buttons.v:172-205 | between reloads only reads of $4016 shift the register, once each |
| `Joypad.StrobeIs` | hw/ise/joypad_buttons.v:185-195 | the strobe state is the bit last written to $4016 |
| `Joypad.Registers.Clock` | hw/ise/joypad_buttons.v:89-206 | the clocked registers follow these functions, with and without a reset |
| `Joypad.Registers.Reset` | hw/ise/joypad_buttons.v:89-99 | a rising reset clears joypad_reg at once, and nothing else |
| `DbgPacket.FirstIs` | sw/src/dbgpacket.cpp:146-479 | a packet is read off a stream whatever follows, and SizeInBytes is its length |
| `DbgPacket.PrefixFree` | sw/src/dbgpacket.cpp:146-479 | no packet starts another |
| `DbgPacket.SplitIs` | sw/src/dbgpacket.cpp:146-479 | a stream of packets splits in one way only |
| `DbgPacket.NewMemWr` | sw/src/dbgpacket.cpp:219-234 | the constructor lays out opcode, address, count and data |
| `DbgPacket.NewEcho` | sw/src/dbgpacket.cpp:146-160 | the constructor lays out opcode, count and data |
| `DbgPacket.ReadText` | sw/src/dbgpacket.cpp:53-101 | the bytes of a text of characters whose low bytes are hexadecimal digits and spaces, or failure |
| `DbgPacket.RunsOverWhen` | sw/src/dbgpacket.cpp:60-101 | the loop stores behind the buffer if and only if the text has an odd number of characters and the low bytes of all are digits |
| `DbgPacket.OneDigitRunsOver` | sw/src/dbgpacket.cpp:60-101 | as the digit 7 does, and the character U+0137, whose low byte is that digit |
| `DbgPacket.PrintHex` | sw/src/nesdbg.cpp:425-441 | two digits and a space for each byte, and a final 0 |
| `DbgPacket.HexRoundTrip` | sw/src/nesdbg.cpp:425-439 | printing bytes and reading the text gives the bytes back |
| `RomUpload.LoadRom` | sw/src/nesdbg.cpp:213-335 | accepts exactly the supported headers, and sends the packets of the file |
| `RomUpload.UploadWorks` | sw/src/nesdbg.cpp:263-335 | replaying what is sent leaves the PRG image at $8000, the CHR image at 0, each byte written once and no other, and the program counter at the word four bytes before the end of PRG |
| `RomUpload.BlocksApply` | sw/src/nesdbg.cpp:283-316 | the packets of an image load it without a wrap of the address |
| `RomUpload.SendImage` | sw/src/nesdbg.cpp:283-316 | the loops send the blocks in order |

## Left out

- FileSystem.Fsrw.POpen: requires that the padded name does not start with $E5; what happens otherwise is stated by FoundIsLive, DeletedIsFound, DeletesAnother and WrittenIsLive.
- FileSystem.Fsrw.PWrite: requires room for the bytes, because on a full disk the source loops for ever (SearchEnds).
- FileSystem.Fsrw.PPutc: the same.
- FileSystem.Fsrw.PRead: requires a file open for reading, or none since the last close; after an open that aborted, or one that deleted, the source reads from half-set variables.
- FileSystem.Fsrw.PGetc: the same.
- FileSystem.Fsrw.Seek: the same, or a file open for writing.
- Browse.GetStats: requires what OpenDir needs for a listing, and names that can be typed, because the others cannot be opened by their printed form (PrintParse).
- FileSystem.Fsrw.PClose: does not release the card; that is a call of the block driver, modelled in SpiProtocol.
- SpiProtocol.Returns: an error-free card; one transfer of a block is one step of the card.
- Mount.MountExplicit: the object has no file open for writing, the partition starts on the card, and the start of the driver is not part of it.
- RomUpload.LoadRom: starts from the file in its one-megabyte buffer; dialogs and the progress bar are not part of this model.
- DbgPacket.ReadText: the second half of CreateObjFromString, which picks the constructor by opcode, is left out.
- Card initialisation, pin timing, CRC and the bits of a transfer.
- Card error answers and the error codes that the driver passes on.
- setdate and the clock: the date is a parameter. Directories and long names, which the source does not support either.
- Two files open for writing at once: the shared cache is modelled for one writer, or any number of readers and listings.
- The alternative driver mb_spi.spin, the menus and serial interfaces, the debugger's windows, and the CPU, PPU and APU.
- Masks of powers of two are modelled as remainders and shifts as multiplications and divisions; longmove and bytemove as one copy.
