# Barelog: a verified model of the logging path

Barelog is a small data logger. An interrupt handler puts received bytes into a 1024-byte
ring; the main loop drains the ring in 512-byte sectors, straight from the ring's memory, into
a pre-allocated file on a FAT32 card; an idle flush pads and writes what is left and records the
byte count in EEPROM so that a later session can resume. On parts without EEPROM the record
lives in a flash sector behind a write-back cache. A `trim free` command erases all unallocated
clusters.

The project models these parts over an abstract card (a map from block addresses to sectors
whose operations may fail at any time) and proves what they keep over every run.

| file | contents |
|---|---|
| `Bytes.dfy`, `SectorDevice.dfy` | bytes, sectors, little-endian fields; the card, with its errors counted and the history of its states for power-loss statements |
| `Volume.dfy`, `Boot.dfy` | region layout and address arithmetic (32-bit), mounting; boot record and boot sector field by field |
| `FatTable.dfy`, `Chains.dfy` | the 28-bit entry store in all FAT copies; chains, free list, allocation and extension |
| `LogSpec.dfy`, `LogRefinement.dfy` | create, append, extend and update as functions; the linear write position against the FAT chain |
| `Directory.dfy`, `LogFile.dfy`, `Config.dfy`, `LogOpen.dfy` | names, the directory scan, the file operations, the saved configuration and the opening of a log as they run |
| `CrashSafety.dfy`, `LogSession.dfy` | power loss, unique names, reopening and resuming |
| `Ring.dfy`, `FlushPad.dfy`, `Escape.dfy`, `LogLoop.dfy` | the ring, the in-place pad, escape detection, the main loop's two operations |
| `LogTries.dfy` | appends and updates of which any may fail: what the file holds then |
| `DrainMachine.dfy`, `Overrun.dfy`, `Delivery.dfy` | interrupt and main loop as interleaved steps; the overrun bound; from serial line to file |
| `MainLoop.dfy` | the main loop pass by pass: drain, idle flush, escape, and what comes of the bytes |
| `Trim.dfy`, `EepromFlash.dfy` | TRIM coalescing; the flash EEPROM |
| `FreshCard.dfy` | a freshly formatted card, which meets all hypotheses at once, and concrete inputs on which a session goes wrong |

Each imperative operation is a method whose contract equates its result with a function of the
old state; the properties are lemmas about those functions. Where an operation may fail, the number of errors
the card reported and a `Path` through the disks it went through, one sector write or erase command at a time,
are part of the contract. The values the program keeps in 32 or
16 bits (addresses, the write position and its limit, the byte counter, the log number) wrap where
the code lets them wrap; the hypothesis `Fits` says that the data region ends strictly below 2^32, and
`FillWrapsIff` what happens to a region that does not. Masks and shifts are written as `%` and `/`,
the flash cells as 8-bit vectors.

The placement theorems speak of a range of clusters 2 .. hi-1 whose free clusters are exactly those
from some k on. The range is free to choose: by `StretchIffSuffix` it may end behind the first stretch
of free clusters, so the theorems apply whenever the lowest free clusters, as many as the file ends
up with, are consecutive.

## Where the code and its documentation differ

- Counting block addresses follows the chain exactly when the clusters taken are consecutive
  (`LinearFollowsChainIff`), and then only is every cluster in use spared by the zero-fill: each gap is
  a cluster in use that the fill overwrites (`ZeroFillSparesIff`, with the input `FragmentedInput`). The
  comment at fat32_log.c:209-210 allows for fragmentation, fat32_log.c:283 does not.
- A log is hardly ever resumed. Creation advances and saves the log number (fat32_log.c:323-324), the
  next session loads it (main.c:110) and searches upwards from it (fat32_log.c:162), so it never meets
  the file just written (`SavedNumberSkips`, with the input `FreshReopen`). Started from an earlier number
  (a power loss between fat32_log.c:318 and 324 leaves the saved number behind, with the byte count of
  the previous file beside it) it resumes the file exactly when no number in between stops the search
  and the size left in the directory is the pre-allocated one (`ReopenIff`); but every flush stores the
  bytes written there (fat32_log.c:411), and `LastUpdateDecides` says which updates leave it alone. The write
  limit of a resumed log is that of the pre-allocation (fat32_log.c:201), so a log that had been extended
  comes back full and takes a further cluster at once (`RecoveryIff`).
- When every log number is taken the search leaves its loop without `break` and creation goes on,
  making a second entry with an existing name (`ExhaustedInput`). An old entry behind the end mark of the
  directory can become a second one too (`HiddenInput`). `UniqueNameIff` says exactly when the new name is
  unique. After LOG65534 the saved number is 65535, with which the loop is not entered at
  all and fat32_log.c:236 reads a variable that was never set.
- Extension stores the link to the new cluster before the end mark; a power loss in between leaves a
  FAT copy without a terminated chain for the file. `ExtensionWindow` says for every point in time and
  every copy whether it has one. Creation has no such window.
- FAT access uses the lower half of the ring as scratch, so an append that extends the file sends FAT
  bytes for what lies there (`ExtensionSends`), and leaves FAT bytes in the queue (`DrainChunk`). A
  flush that extends the file writes a FAT sector into the log instead of its pad (`LogFlush`,
  `LastFatEntry`).
- README.md:63 says that three consecutive escape characters lead to command mode. Only full chunks are scanned
  (`MainLoop`); what the idle flush takes is not (`IdleFlush`), so characters typed on an otherwise idle line
  are flushed unseen, and characters before and after a flush count as consecutive (`FlushJoinsRuns`). As long
  as no flush finds anything queued, what is scanned is what is received (`NothingFlushed`).
- The search for a free cluster has no bound, and the disk-full test at fat32_log.c:272 cannot be
  reached: without a free cluster the search runs past the FAT (`SearchLeavesIff`), through the other copies
  and into the data region (`FullSearchReachesData`).
- The order of the two copies in the idle flush does not protect the second span from itself: the
  sector is right exactly when the second span is no longer than the first (`PadCorrectIff`), although
  log.c:135-138 only speaks of the first.
- EEPROM_FLASH.md and eeprom_flash.c:12 promise an erase when the slots are used up. With more than
  one slot the erase branch is unreachable (`FindNextFreeSlot`), and the next sync programs over an
  old slot; `FaithfulIff` and `LimitIff` say exactly when a sync still saves what it should.
- uart.h:39-42 says a torn read of the head can only undercount. If the low byte of the head carries between
  the two loads the count read is 255 too large modulo 1024 (`TornHeadIff`), and 257 queued bytes may pass for a full
  chunk (`TornInput`). Elsewhere in the model the reads are atomic.
- config.c:41 says that a partial save is detected by the magic number, which is written first. From the
  fourth byte on it passes for a complete save (`PartialSavePasses`); cut between the two bytes of the log
  number, the step from 255 to 256 leaves 0 (`PartialSaveInput`).
- config.h:16 says that the two reserved bytes are written as 0xFF; `Save` leaves them alone.

## Model

| member | source | states |
|---|---|---|
| Volumes.CopySectorsApart | fat32_state.c:49-50 | FAT sectors of two (copy, cluster) pairs coincide exactly for the same copy and the same group of 128 clusters |
| Volumes.CopySectorInFat | fat32_priv.h:152-155 | every FAT sector of a cluster below 128*fat_sz32 lies between fat_lba and data_lba |
| Volumes.EntriesApart | fat32_priv.h:152-163 | two entries share sector and offset only if they are the same entry of the same copy; otherwise their bytes do not overlap |
| Volumes.DataSectorsApart | fat32_priv.h:143-146 | distinct (cluster, sector) pairs have distinct addresses, all at or above data_lba |
| Volumes.NoWrap | fat32_priv.h:143-146 | below the cluster limit the 32-bit address computation is exact |
| Volumes.Mount | fat32_mount.c:10-65 | the outcome in terms of the partition found, the acceptance of its boot sector and the fields read from it; what these are is said by the next three rows |
| BootSectors.TakesFirstFat32 | fat32_priv.h:28-40 | for a boot record laid out field by field: the partition taken is the first whose type is 0x0B or 0x0C, by its start field, whatever the other fields hold |
| BootSectors.MountsFields | fat32_priv.h:42-69 | for a boot sector laid out field by field: it is accepted exactly with 512-byte sectors and only a 32-bit FAT size, and the volume has exactly its fields |
| FreshCard.FreshMounts | fat32_mount.c:28-62 | a literal card, with a partition of another type before the FAT32 one, mounts to the volume the other inputs use |
| Volumes.MountedLayout | fat32_mount.c:55-62 | a mounted volume has the layout the arithmetic relies on exactly when there is a FAT, a sector per cluster and no 32-bit overflow |
| FatTable.PatchedEntry | fat32_state.c:57-60 | the four patched bytes decode to the stored value and keep the reserved nibble |
| FatTable.WriteCopiesEntry | fat32_state.c:49-65 | after any number of copies: exactly those copies changed, in exactly the one entry, nibbles kept |
| FatTable.StoreRefinesMap | fat32_state.c:41-67 | a complete store is a map update in every copy, keeps nibbles, agreement of the copies and all sectors outside the FAT |
| FatTable.FatReadEntry | fat32_state.c:22-39 | returns the 28-bit entry of copy 0 and leaves the upper part of the ring alone |
| FatTable.FatWriteEntry | fat32_state.c:41-67 | success or not, the card has passed through the states with the first 1, 2, .. n copies written, and success means all of them |
| FatTable.EntryIsWord | fat32_priv.h:152-163 | the entries of a copy are the little-endian 32-bit words of its sectors in order, but for the upper nibble |
| Chains.ChainUnique | fat32_log.c:207-225 | a cluster starts at most one terminated chain |
| Chains.ChainAcyclic | fat32_log.c:217-223 | a terminated chain never meets itself, so walking it ends |
| Chains.FreeListComplete | fat32_log.c:252-257 | the free list leaves out no free cluster |
| Chains.AllocationEffect | fat32_log.c:244-278 | the n lowest free clusters become a terminated chain, all other entries and chains stay, the free list loses exactly those n |
| Chains.AllocationWellFormed | fat32_log.c:244-278 | a FAT of disjoint terminated chains stays one, with one chain more, fragmented or not |
| Chains.ExtensionEffect | fat32_log.c:348-377 | exactly the lowest free cluster is appended to the chain given, every other entry and chain stays |
| Chains.ExtensionWellFormed | fat32_log.c:348-377 | extension keeps the FAT a set of disjoint terminated chains |
| LogSpec.ChainLbaAt | fat32_priv.h:143-146 | sector t of cluster i of a chain is sector i*sec_per_clus+t of the file |
| LogSpec.LinearFollowsChainIff | fat32_log.c:282-283 | counting addresses follows the chain exactly when its clusters are consecutive |
| LogSpec.LinkDiskView | fat32_log.c:252-278 | the stores of the allocation loop amount to linking the same clusters in every FAT copy and change nothing outside the FAT |
| LogSpec.FillWrapsIff | fat32_log.c:283-297 | the fill loop clears the whole region exactly if its 32-bit end does not wrap; a region ending at 2^32 is not filled at all |
| LogRefinement.ChainReadsContent | fat32_log.c:379-384 | in every state of an open log the chain reads as the appended sectors and then zeros, with cur_lba at the next sector of the chain |
| LogRefinement.StepKeeps | fat32_log.c:333-414 | append, with or without extension, and size update keep the log invariant |
| LogRefinement.RunKeeps | fat32_log.c:333-414 | so does every run of them |
| LogRefinement.RunOthers | fat32_log.c:333-414 | no run changes a sector outside the FAT, before the file or behind the range, but for the size field of its own entry |
| LogRefinement.CreateSuffix | fat32_log.c:244-320 | on a free suffix creation takes clusters k, k+1, .. and sets the state accordingly |
| LogRefinement.CreateOpensLog | fat32_log.c:244-320 | creation yields an empty open log whose chain is all zeros, in every FAT copy |
| LogRefinement.OnlyChain | fat32_log.c:244-278 | in every FAT copy exactly one chain starts at the file's first cluster |
| LogRefinement.LinearLogRefinesChain | fat32_log.c:244-387 | main theorem: after creation and any run, following the FAT in any copy reads exactly the appended sectors in order and then zeros, and cur_lba is the next sector of that chain |
| LogRefinement.CanRunIff | fat32_log.c:343-355 | the unbounded extension search always finds a cluster exactly when all that is appended fits up to the end of the FAT |
| LogRefinement.LogTakesWhatItNeeds | fat32_log.c:343-377 | after a run the file owns exactly max(pre-allocated, needed) clusters, and is full exactly when its chain is |
| LogRefinement.PreallocStays | fat32_log.c:333-387 | from creation on and over every run the pre-allocated size is the one created with and lies within the file's clusters |
| LogRefinement.LimitMovesIff | fat32_log.c:343-377 | over a run the write limit and the last cluster move exactly when more is appended than was pre-allocated |
| Directory.MakeLogname | fat32_log.c:18-36 | the name buffer holds LOGnnnnnTXT |
| Directory.LogNameInjective | fat32_log.c:18-36 | distinct numbers below 100000 give distinct names |
| Directory.NameText | fat32_log.c:18-36 | number 12345 is LOG12345TXT |
| Directory.AttributeBits | fat32_log.c:79-103 | an entry is passed over exactly if bit 3 or bit 4 of its attributes is set, whatever the others are |
| FreshCard.EntryText | fat32_priv.h:77-90 | the 32 bytes of an entry as creation writes it |
| Directory.ScanMeaning | fat32_log.c:54-134 | the scan finds the first eligible entry of the name before the end mark exactly when there is one, and otherwise the first free slot, if any |
| Directory.ScanSector | fat32_log.c:77-119 | the entry loop over one sector, with the record of the first free slot |
| Directory.ScanCluster | fat32_log.c:70-120 | the sector loop over one cluster |
| Directory.ScanRootDir | fat32_log.c:54-134 | the three nested loops terminate on every root directory whose path of clusters ends, at whatever entry is no cluster number, and report exactly what the scan of its slots finds, with addresses |
| Directory.RootChainIsPath | fat32_log.c:122-128 | a terminated root chain is such a path |
| Directory.InsertUnique | fat32_log.c:299-320 | filling the slot the scan reports makes the new entry the only match of its name and changes no match of another name |
| Directory.InsertOnDisk | fat32_log.c:300-320 | the directory write replaces exactly one slot |
| Directory.SizeKeepsScans | fat32_log.c:393-414 | a size update changes no answer of a scan, for any name |
| CrashSafety.TraceIntact | fat32_state.c:49-65 | every state inside a store for a free cluster keeps all entries in use, in every copy |
| CrashSafety.IntactChains | fat32_log.c:244-278 | all old chains survive, in every copy |
| CrashSafety.IntactFiles | fat32_log.c:289-297 | where the region spares the clusters in use every old file reads the same |
| CrashSafety.IntactDirectory | fat32_log.c:299-320 | every directory slot and every scan is as before |
| CrashSafety.ZeroFillSparesIff | fat32_log.c:252-297 | for the clusters the allocator takes: erase and zero-fill spare every cluster in use, and stay inside the new file, exactly when those clusters are consecutive |
| FreshCard.FragmentedInput | fat32_log.c:252-297 | a card on which they do not: creation takes clusters 3, 5, 6, .. and zeroes the file in cluster 4 |
| CrashSafety.StretchIffSuffix | fat32_log.c:252-270 | the n lowest free clusters are consecutive exactly when they are a free suffix of the range that ends behind them |
| CrashSafety.ExtensionWindow | fat32_log.c:357-363 | after every prefix of the writes of both stores, copy f has a terminated chain from the first cluster exactly when neither or both of its stores have been made, and which chain |
| CrashSafety.FillKeepsChain | fat32_log.c:365-373 | while the new cluster is erased and filled every copy has the longer chain |
| CrashSafety.OtherFilesKept | fat32_log.c:333-414 | over every run each chain disjoint from the log's stays a chain in every copy, and its sectors read the same, but for the size field of the log's entry where that lies in them |
| CrashSafety.OldFilesKept | fat32_log.c:244-414 | the same from before creation: after creation and any run every chain the card had is still one in every copy, and all its sectors but the one with the log's directory entry are as they were |
| CrashSafety.ExtensionSparesOthers | fat32_log.c:343-377 | in every state an extension may be cut short in, each chain the file is not part of is whole, with the same contents |
| LogFiles.FindFree | fat32_log.c:348-355 | the extension search ends at the lowest number whose entry, by address, is zero |
| LogFiles.SearchLeavesIff | fat32_log.c:348-355 | that number is the first free cluster if there is one, and lies outside the range exactly when there is none |
| LogFiles.FullSearchReachesData | fat32_log.c:348-355 | on a full FAT whose copies agree it lies beyond all copies: the entry read and then written is in the data region |
| LogFiles.AllocateChain | fat32_log.c:244-278 | success is the n lowest free clusters linked in order with an end mark; the states on the way lead one sector write at a time to the disk left behind, and each of them, also of a failed run, leaves what was in use intact |
| LogFiles.EraseAndZero | fat32_log.c:289-297 | the region ends up zero whatever the erase command left, and only the region changes on the way |
| LogFiles.FillEntry | fat32_log.c:304-316 | the 32 bytes of the new entry, and no other byte of the sector |
| LogFiles.LogFile.Create | fat32_log.c:244-320 | success is the create function; success or not, the states passed through lead, one write or the one erase command at a time, from the old disk to the disk left behind, and in each of them the old volume is intact or creation is complete |
| LogFiles.LogFile.ExtendByOne | fat32_log.c:343-377 | success is the extend function; whether it succeeds or not, the card passes only through the states between the two stores and of the fill, and failure leaves the log state |
| LogFiles.LogFile.AppendSector | fat32_log.c:333-387 | success is the append step with what the spans hold when sent, after an extension the ring with the last FAT sector in its lower half; a failed append leaves exactly one of the listed card and log states |
| LogFiles.LogFile.Flush | fat32_log.c:393-414 | the size field takes the bytes written, nothing else changes |
| LogFiles.LogFile.Resume | fat32_log.c:176-228 | the state rebuilt from entry, EEPROM record and chain; where that is, ResumedPlace says |
| LogSession.ResumedPlace | fat32_log.c:196-205 | position from the start of the file by the record, limit by the pre-allocation, all other fields as read; the log is full exactly when the record reaches the pre-allocation |
| LogFiles.LogFile.FindLast | fat32_log.c:207-225 | the resume walk ends, at the cluster that carries the end mark |
| LogOpening.SearchNames | fat32_log.c:162-234 | all numbers passed over belong to files of another size; the search stops at a file to resume, at a free name or at the last number |
| LogOpening.SearchEndsIff | fat32_log.c:162-234 | the search ends at a file exactly when that file is the first answer to its number, has the pre-allocated size, and every earlier number names a file of another size |
| LogOpening.OpenLog | fat32_log.c:140-327 | what opening does in each of its outcomes: resume, create, directory full, card error, with the search it performed, the configuration kept and saved, and the card states passed through, which lead to the disk left behind and in each of which the old volume is intact or creation is complete; without a card error the directory is reported full exactly when the search ends at no file and no slot is free (with all names taken, none before the last one's entry) |
| Configs.Config.Save | config.c:37-67 | the 14 bytes of magic number and fields are written and no other; they read back, and the recovery record is kept |
| Configs.Config.Load | config.c:69-101 | with the magic number the saved fields and an untouched EEPROM, without it the defaults, which are then saved |
| Configs.SaveRoundTrip | config.c:37-101 | what was saved is loaded, whatever the EEPROM held before, and the recovery record survives |
| Configs.DefaultImage | config.c:27-67 | the EEPROM of a first session, byte by byte |
| Configs.RecordApart | log.c:186-199 | storing the record makes it read back and leaves magic number and configuration alone |
| Configs.SizeTable | config.c:15-25 | 1 MB, 4 MB and from there double each time up to code 4; any other code is the default |
| Configs.PartialSavePasses | config.c:41-62 | a save cut short after its fourth byte passes the magic test, and the log number loaded is the old or the new one unless the cut falls between its bytes |
| Configs.PartialSaveInput | config.c:51-56 | there it is neither: from 255 to 256 it reads 0 |
| Configs.PreallocWholeClusters | config.c:15-25 | every pre-allocation size is a whole number of clusters for power-of-two clusters up to 64 KB |
| LogSession.InterruptedCreation | fat32_log.c:244-320 | an interrupted creation that takes consecutive clusters leaves all old chains in all copies, all old file contents and the whole directory, and no entry of a file with a chain leads to a cluster being taken |
| LogSession.CreateDirectory | fat32_log.c:299-320 | creation as a whole changes exactly the one directory slot it was given |
| LogSession.UniqueNameIff | fat32_log.c:162-234 | the new name is unique in the directory exactly when the search ended by break and filling the slot does not uncover an old entry with the name behind the end mark |
| FreshCard.ExhaustedInput | fat32_log.c:162-237 | a directory on which the search ends with every name taken and creation makes a second entry with the name |
| FreshCard.HiddenInput | fat32_log.c:162-320 | a directory on which the search breaks at an unused name and creation still makes a second entry with it, an old one behind the end mark |
| LogSession.SessionKeepsScans | fat32_log.c:333-414 | after creation no run changes the answer of a scan for any name |
| LogSession.RunSizeField | fat32_log.c:406-413 | the size in the directory is what the last update stored |
| LogSession.LastUpdateDecides | fat32_log.c:176 | appends after an update do not matter: the stored size is the byte count at the last update |
| LogSession.EntryRoundTrip | fat32_log.c:196-197 | name, first cluster and size written by creation are what resume reads |
| LogSession.NameStillFound | fat32_log.c:299-320 | after creation, any run and power-off, a scan for the name finds the same entry, its first cluster, and the size of the last update |
| LogSession.ReopenIff | fat32_log.c:162-234 | a later session's search from number m, for whatever pre-allocation that session wants, ends at the file exactly when m is not beyond its number, every number before it names a file of another size, and the last update left that size |
| LogSession.SavedNumberSkips | fat32_log.c:323-324 | from the number that creation saves the file is never resumed |
| FreshCard.FreshReopen | fat32_log.c:162-324 | an input: LOG00001 created and never flushed still has the pre-allocated size, but the search from the saved number 2 ends at an unused name |
| LogSession.ResumeContinues | fat32_log.c:194-205 | the position is rebuilt exactly when the record counts the sectors written; then the log invariant holds again |
| LogSession.RecoveryIff | log.c:186-199 | after creation and any run, resuming from the recorded byte counter rebuilds the position exactly as long as it has not wrapped, and then the log goes on as before; its limit is that of creation, and the state as a whole is the one left behind exactly if nothing was appended beyond the pre-allocation |
| LogSession.ResumedSession | fat32_log.c:176-228 | create, run, power off, and an opening that resumes the file: first and last cluster are those left behind, the limit is the one of creation, the position is the old one exactly when the record counts the sectors appended, and the log then goes on; the state is the one left behind exactly if besides nothing was appended beyond the pre-allocation |
| FreshCard.FreshCardServes | fat32_log.c:244-320 | the hypotheses of the creation, run and reopen theorems hold together on a freshly formatted card |
| Rings.RxIsEnqueue | uart.c:76-84 | a byte is enqueued exactly when fewer than 1023 are queued, and no queued cell is written |
| Rings.ConsumeIsDequeue | uart.h:69-72 | consuming drops the oldest n bytes |
| Rings.SpansAreQueue | log.c:78-94 | the two spans hold the oldest bytes in order |
| Rings.SpansStable | log.c:77-108 | however many bytes arrive after the tail was read, the spans stay the bytes that were oldest then |
| Rings.UartRing.RxInterrupt | uart.c:76-87 | the handler is the enqueue function, with bytes accepted and arrived accounted for |
| Rings.UartRing.Interrupts | uart.c:76-87 | any number of interrupts appends exactly the accepted bytes to the queue |
| Rings.UartRing.Read | uart.h:55-60 | takes the oldest byte off the queue |
| Rings.UartRing.Consume | uart.h:69-72 | takes the oldest n bytes off the queue |
| Rings.TornHeadIff | uart.h:39-47 | with a byte arriving between the two loads of the head: the count seen in every case, and exactly when it is more than is queued |
| Rings.TornInput | uart.h:39-47 | 257 queued bytes seen as 512 |
| Escapes.EscapeState.ScanEscape | log.c:48-62 | the loop with its persistent counter is the scan function; the 8-bit counter cannot wrap |
| Escapes.ScanAllMeaning | log.c:48-62 | scanning piece by piece fires exactly when the whole stream completes a run, and otherwise leaves its run length |
| Escapes.ChunkingIndependent | log.c:96-104 | a piece is the first to fire exactly when the first completed run of the whole stream ends in it |
| Escapes.CutsAgree | log.c:96-104 | two cuts of one stream agree |
| FlushPads.BuildPad | log.c:140-169 | the in-place copies leave exactly the pad function, with period len_a in the second span, and no other cell changed |
| FlushPads.PadCorrectIff | log.c:135-169 | the sector is the queued bytes and zeros, for all ring contents, exactly when there is no wrap or len_b is at most len_a |
| DrainMachine.FinishStep | log.c:101-108 | the sector handed over byte by byte during interrupts is what was oldest when the tail was read |
| DrainMachine.FlushStep | log.c:114-174 | a flush moves as many bytes as are queued into one zero-padded sector, and exactly those if the copy is safe |
| DrainMachine.RunConserves | log.c:64-174 | over every interleaving of interrupts, sends and flushes as many bytes are accepted as are drained and queued, and the very same bytes while every flush copied safely |
| DrainMachine.PowerUpConserves | main.c:205-218 | the same from power-up, with every drained item a full chunk or a zero-padded sector |
| Overruns.BoundedRun | log.c:77-111 | with r0 + r at most 512 no run drops a byte |
| Overruns.NoOverrunIff | uart.c:76-84 | no run at pace (r0, r) drops a byte exactly when r0 + r is at most 512 (or nothing can arrive) |
| LogLoop.DrainChunk | log.c:77-111 | one iteration with interrupts between its statements: the oldest 512 bytes are scanned, then handed to the card and consumed, or left queued when they complete an escape; the file performs the append if the card reports no error and otherwise is left in one of the failure states; when the append extends the file, which FAT bytes are sent and left in the queue |
| LogLoop.LogProcess | log.c:64-112 | up to the first extending append: chunks handed to the card plus bytes still queued are the bytes queued before plus those received, in order; card and log are what trying exactly these appends leads to, with as many misses as the card reported errors; the loop ends below 512 queued bytes, at the first escape, or with a scanned chunk that needs a longer file |
| LogLoop.RecordBytes | log.c:186-199 | exactly the four bytes of the record change, and read back as the byte count |
| LogLoop.LogFlush | log.c:114-200 | the queue is emptied into one padded sector, directory and record follow, each tried once and as many missed as the card reported errors, and no other EEPROM byte changes; when the append extends the file, the FAT sector is written instead |
| LogLoop.ExtensionSends | fat32_log.c:343-379 | byte by byte what an extending append sends, and exactly when that is the chunk |
| LogLoop.ExtensionSparesSpansIff | fat32_state.c:24-43 | spans arrive unharmed whatever the ring and that FAT sector hold exactly when none of them reaches into the lower half |
| LogLoop.LastFatEntry | fat32_log.c:361-379 | the FAT sector left in the scratch half carries the end mark of the new cluster |
| LogTries.LooseTries | log.c:106-108 | whatever fails, appends and updates that ignore errors leave a log that holds exactly the sectors counted, up to one uncounted sector at the write position; without a miss not even that |
| LogTries.LooseReads | log.c:106-108 | following the chain of such a log in any copy reads the sectors counted, then perhaps one that was not, then zeros |
| Delivery.DrainedIntoFile | log.c:106-108 | draining an open log adds exactly the drained chunks to what a reader of the chain sees |
| MainLoops.MainLoop | main.c:205-218 | the loop as it runs, with interrupts, timer firings and card errors: the file stays an open log of exactly the sectors counted, with as many misses as the card reported errors; while every flush copied safely, the bytes handed to the card followed by the queue are what was accepted; without an error they are in the file and read back through its chain; a pass flushes exactly if the timer has fired and less than a chunk is queued; the loop leaves for command mode exactly when the chunks drained and the next one complete a run of escape characters |
| MainLoops.IdleFlush | main.c:208-210 | a firing of the timer on a line silent since the drain empties the queue into one padded sector, has the size updated and the byte count recorded, and clears the flag; the bytes are not scanned |
| MainLoops.LoopEscapes | log.c:96-104 | over any number of passes the bytes drained complete no run, and the loop leaves exactly at the chunk that completes the first, a run under way at the beginning included |
| MainLoops.NothingFlushed | main.c:205-218 | while flushes find the queue empty, the bytes scanned followed by the queue are the bytes received |
| MainLoops.FlushJoinsRuns | log.c:114-174 | an input: three escape characters that a flushed byte separates on the line, and a run of three in what is scanned |
| Delivery.AcceptedBytesReachFile | main.c:205-218 | the same for every interleaving of single steps, from power-up and creation on, each chunk end and flush performing its own append |
| Trims.ExactRunsUnique | fat32_trim.c:38-87 | there is only one list of maximal free runs in increasing order that misses no free cluster |
| Trims.ErasedIffFree | fat32_trim.c:62-87 | the erase commands of that list reach a sector exactly when it belongs to a free cluster |
| Trims.AllocatedKept | fat32_trim.c:38-87 | however far the scan came, no FAT sector and no sector of an allocated cluster changes |
| Trims.TrimKeepsFiles | fat32_trim.c:38-87 | every file reads the same afterwards |
| Trims.FreeNext | fat32_trim.c:62-76 | while a run is open the next free cluster is adjacent to it, so the third branch is dead |
| Trims.TrimFree | fat32_trim.c:27-90 | on success the erase commands are exactly the maximal free runs in order; after a read error, those met so far |
| EepromFlash.CurrentUnique | eeprom_flash.c:39-60 | the leftmost slot of the lowest generation is unique |
| EepromFlash.FlashEeprom.FindCurrentGen | eeprom_flash.c:39-60 | the scan finds it, slot 0 on a blank sector |
| EepromFlash.FlashEeprom.FindNextFreeSlot | eeprom_flash.c:66-77 | the following slot in ring order; the erase branch is taken only with a single slot |
| EepromFlash.FlashEeprom.Init | eeprom_flash.c:83-90 | loads the image of the current slot and is clean |
| EepromFlash.FlashEeprom.ReadByte | eeprom_flash.c:92-97 | the cached byte, 0xFF outside the range |
| EepromFlash.FlashEeprom.WriteByte | eeprom_flash.c:99-105 | changes one cached byte and marks the cache |
| EepromFlash.FlashEeprom.UpdateByte | eeprom_flash.c:107-115 | the same, but stays clean if the byte does not differ |
| EepromFlash.FlashEeprom.Sync | eeprom_flash.c:117-146 | is the sync function, with the sector states it passes through: image first, generation last |
| EepromFlash.SyncLoads | eeprom_flash.c:117-146 | on any sector contents, what the next initialisation loads after a sync |
| EepromFlash.FaithfulIff | eeprom_flash.c:117-146 | a sync saves every cache content exactly when there is one slot, or the generation has not run out and the next slot is blank |
| EepromFlash.HoldsLatest | eeprom_flash.c:39-90 | on a sector with k images synced since its erase the scan finds the k-th, with generation 0xFF - k |
| EepromFlash.SyncHolds | eeprom_flash.c:117-146 | a further sync adds one image in the next slot with the generation lowered by one |
| EepromFlash.LimitIff | eeprom_flash.c:66-77 | the next sync is faithful exactly while a slot is unused, or the oldest image is blank and the generations have not run out |
| EepromFlash.RunTracks | eeprom_flash.c:83-146 | while no more syncs have something to save than slots are left, every run of reads, writes, syncs and restarts behaves as a byte array with a saved copy, and exactly those syncs add an image to the flash |
| EepromFlash.FromErased | eeprom_flash.c:83-146 | the same from an erased sector; clean means cache equals what a restart loads |
| EepromFlash.QuietAfterSync | eeprom_flash.c:121-145 | after a sync or restart, on any contents, nothing changes until a byte is written or updated to another value; further syncs program nothing |
| EepromFlash.CrashAtomic | eeprom_flash.c:117-146 | power loss anywhere in a sync, even within a byte, then initialisation: the image before or the image after, on any sector with two or more slots |
| EepromFlash.AtomicIff | eeprom_flash.c:66-77 | syncs are atomic exactly when there are at least two slots |
| EepromFlash.CrashOnLog | eeprom_flash.c:117-146 | on a log with a free slot: the last image synced or the one being synced |
| EepromFlash.AfterPowerLoss | eeprom_flash.c:117-146 | repeating an interrupted sync completes it; other contents are saved faithfully only if no data bit had been cleared |
| EepromFlash.SyncTraceAtomic | eeprom_flash.c:130-143 | every sector in the history of a sync is a power-loss state, and initialisation from it loads the old image or the new one |

## Left out

- SPI, card commands and responses, timers, sleep, LED, stack canary, watchdog and factory reset: hardware. The card either does what it was asked or reports an error; a write that reports an error has changed its sector completely or not at all.
- repl.c, fat32_vol.c, fat32_trim_full and fat32_trim_fuller: straight-line code.
- Other platforms' copies (log_new.c, main_new.c, repl_new.c, uart_new.h, spi_new.h, atmega328p.c): the same logic over another register layer.
- Torn 16-bit reads of the ring indices: reads are atomic steps everywhere but in TornHeadIff.
- LogOpening.OpenLog: when the search does not end at a file to resume, asks for enough free clusters with 32-bit addresses, because the search at fat32_log.c:252 has no bound; also for a root directory whose path ends, a terminated chain behind the file to resume, and a log number of at most 65534 (with 65535 the code reads variables that were never set).
- Configs.PartialSavePasses: takes the bytes of a 32-bit EEPROM write to be written from the lowest address on.
- LogFiles.AllocateChain: asks for enough free clusters; with fewer the loop goes on with numbers that have no entry, as SearchLeavesIff and FullSearchReachesData say of the extension search.
- LogFiles.FindFree: asks for a number below 2^32 at which the search stops; a card that holds none is not modelled.
- LogRefinement.LinearLogRefinesChain: assumes that the free clusters of the range are those from k on and that no card error occurs; on a fragmented FAT linear placement fails, exactly as LinearFollowsChainIff says.
- LogSession.InterruptedCreation: assumes that the clusters taken are consecutive; otherwise the fill destroys a cluster in use, as ZeroFillSparesIff says.
- LogLoop.LogProcess: is followed up to the first append that extends the file, which DrainChunk describes, because the queue is damaged from there on. An escape is told to the caller instead of entering command mode, which never returns.
- LogLoop.LogFlush: models the flush with fewer than 512 bytes queued and interrupts held off, as log.h asks; the call from command mode with more queued, and an interrupt between its copies, are outside.
- MainLoops.MainLoop: is followed up to the first escape or extending append; when the timer fires is an input, with firings between two tests counted as one.
- Delivery.AcceptedBytesReachFile: assumes that the card stores every sector and that the pre-allocation lasts.
- DrainMachine.FlushStep: flushes as one step.
- Trims.TrimFree: assumes that all clusters the FAT has entries for have 32-bit addresses and at least one sector.
- EepromFlash.HoldsLatest: for at most 255 slots, the range of the generation byte; behaviour once the slots are used up is described by FaithfulIff only.
- EepromFlash.CrashAtomic: erasing the sector counts as one step; bits of one byte may be cleared in any order.
