# Verification of the storage, memory and input code

This project models the FAT32 driver (`trfs/fat32/fat.c`), the physical page allocator
(`kernel/memory_paging.c`), the ring buffer with its keyboard producer and its line reader (`kernel/stream.c`,
`kernel/driver/keyboard.c`, `kernel/sys.c`) and the memory copies (`libc/string.c`), and proves what they keep.
`dafny verify dfyconfig.toml` checks all of it.

## The FAT32 driver

The model has five layers, and each is proved to refine the next. Code that changes things step by step is a class with
the fields of the source and methods with the loops of the source; each method is proved against a function of its inputs,
and the laws are lemmas about these functions.

1. **Cache** (`Volume`). A volume is the device, the one-sector buffer and its flags. The ghost field `img` is the
   logical disk: the device with the dirty buffer laid over it. Every cache operation keeps it, and every method says
   what becomes of it.
2. **Table** (`Table`, `Volume`). The logical disk holds the active copy of the table and its mirror. `Active` is the
   table as a list of 28-bit values; `TableStep` says that upper nibbles and all other sectors stay and that agreeing
   copies go on agreeing.
3. **Chains** (`Chains`, `Runs`, `Crashes`). `Alloc` is the table with the allocator's two counters. The scan, an
   allocation and a removal are functions on it; `Forest` is a set of disjoint acyclic chains. The ghost flag `torn`
   records whether after some single physical write a used entry of the table on the device linked to a free one;
   `Crashes` carries out whole runs and proves that it never does.
4. **Directories** (`Sectors`, `Names`, `ShortNames`, `Slots`, `Entries`, `NewEntry`, `Directory`, `Listing`, `Tree`,
   `Undo`). A chain is a list of 32-byte slots in chain order, and a sound directory (`Clean`) is a list of live
   entries. The handle `Dir` is a cursor over the slots; ghost parameters name the chain it is on and the slot it is at.
   `Snap` is a directory at some moment, with the allocator and the disk; the operations are stated as steps between two
   of these. `Undo` puts making and unlinking a directory together.
5. **Files** (`Contents`, `Files`, `Trips`). A chain is a list of bytes. The handle `File` is proved to be a byte array with a
   cursor: `Disk` is the logical disk with the dirty file buffer laid over it, and reads, writes and seeks are stated on
   the bytes of the chain in it. `Trips` creates a file, writes and closes it, and finds it again by its name.

`Formats` ties the functions that all this is stated with to bytes and offsets on the disk, written out in numbers.

What the model asks of a volume is what mounting establishes on a well-formed one, and no more: the two copies, the info
sector and the data area do not overlap; the data area starts at a multiple of the sectors per cluster, because the end of
a cluster is told from the absolute sector number (`trfs/fat32/fat.c:511`); the table has at most 0x0ffffff7 entries,
which is also the number of clusters, and the data area has room for all of them; the last used cluster is in range, since
the scan needs that to stop. Mirroring is "there is a second copy" (`trfs/fat32/fat.c:346`).

Where the code does not do what its comments or its shape suggest, the model follows the code; `Cases` has inputs that show
it:

- a failed table read in the scan returns the flags of the entry read before, not the error (`trfs/fat32/fat.c:426`). If
  the unreadable entry is the first one and the scan is for a new chain, these flags have no value yet, and the failure
  may read as success. `Chains.FailureReadsAsSuccess` is the exact condition, `Chains.FailureThatReadsAsSuccess` such a
  table;
- the error of a failed seek inside a write is lost, because an inner variable shadows the one returned
  (`trfs/fat32/fat.c:1371`); `Files.File.Write` gives it as the ghost result `why`. The last part then counts as written,
  but the offset, and with it perhaps the size, stays at the start of that part (`trfs/fat32/fat.c:1376`). This happens
  exactly when `HasRoom` fails for the state before the call: the offset behind the data leaves the 32-bit range, or the
  chain neither holds it nor can come to hold it. `Cases.WriteThatFailedUnseen` is such a write;
- after a seek that failed for want of a cluster the handle's cluster is the last of the chain, while its offset is still
  the one before (`trfs/fat32/fat.c:1445`). The two belong together exactly when the offset is in the last cluster
  (`Files.File.PlacedExactly`); when it is not, the next seek within the cluster of the offset takes the sector in the last
  cluster of the chain instead (`trfs/fat32/fat.c:1453`). `Cases.SeekThatStrands` is such a seek;
- a read that comes to the size of a file whose clusters are all full appends one, and fails if there is none
  (`trfs/fat32/fat.c:1443`), although all bytes have been read; `Files.File.Read` has the exact condition;
- digits become underscores in short names (`trfs/fat32/fat.c:598`); so a short entry without a long name, as other systems
  make them, is found by no name at all if it has a digit. `ShortNames.FindableExactly` is the exact condition;
- unlinking frees the clusters of an entry, and brings the device up to date, before it marks the slots
  (`trfs/fat32/fat.c:1226`); in between the entry is there and leads to clusters that are free, and may be allocated next
  (`Tree.FreeChain`, `Tree.HalfUnlinkedMeans`);
- an empty directory whose slots are all marked free, without an end mark, cannot be unlinked (`trfs/fat32/fat.c:1219`);
  `Tree.EmptyMeans` is the exact condition, and the end mark lemmas show that directories made by this driver never get
  into that state;
- when the entry of a new directory or file cannot be added, the cluster taken for it stays allocated
  (`trfs/fat32/fat.c:1273`, `trfs/fat32/fat.c:1573`);
  `Tree.MakeDir` and `Trips.CreateEntry` say exactly when;
- opening a file for truncation keeps its clusters (`trfs/fat32/fat.c:1290`).

## The page allocator

`bitmap_test` shifts without masking (`kernel/memory_paging.c:26`), so a page counts as taken when it or a higher page of
its byte is marked, and start-up may leave the bit of a reserved page alone. `Pages` has the bitmap as bytes and as a list
of marks; `PageRuns` proves that reserved pages are nevertheless never handed out, over every run whose frees name only
live pages, and that the counters add up, with the exact condition for a free.

## The ring and the console

`Ring` has the put and the get as single memory steps of two parties that may be interleaved in any way, and proves the
prefix law for every interleaving. `Stream` proves that the operations as methods do these steps. `Console` has the
keyboard handler, which is the producer, and the line reader, which takes its keys from the ring while others are typed.
With caps lock on, shift does not give the second character of a key with a digit (`kernel/driver/keyboard.c:84`);
`Console.CharIs` is the exact rule.

## Memory copies

`Memory` proves the backward byte loop and the forward copy by words for every overlap. An address is an index, and
alignment is its remainder by 4.

## Model

| member | source | states |
|---|---|---|
| Volume.Fat.SyncBuf | trfs/fat32/fat.c:235-245 | flushing turns the device into the logical disk (device with the dirty buffer laid over it), by at most one write; the logical disk itself does not change |
| Volume.Fat.UpdateBuf | trfs/fat32/fat.c:248-263 | buffering a sector changes no sector of the logical disk and leaves exactly that sector of it in the buffer |
| Volume.Fat.SyncFs | trfs/fat32/fat.c:266-291 | afterwards the device is the logical disk; if the counters were marked dirty the word at byte 488 of the info sector is the free count and the one at 492 the last used cluster, and its other bytes are as before; tables, nibbles and data are as before |
| Volume.Fat.WriteInfo | trfs/fat32/fat.c:272-288 | on the device the words at bytes 488 and 492 of the info sector are the two counters; no other byte of it and no other sector changes |
| Volume.Fat.GetFat | trfs/fat32/fat.c:294-323 | gives the 28-bit value of the entry in the active copy and its kind; BROKEN exactly for values that are neither marks nor cluster numbers |
| Formats.EntryOnDisk | trfs/fat32/fat.c:294-306 | an entry is the word at byte 4 * (c % 128) of sector c / 128 of the table, without its upper four bits |
| Formats.KindIs | trfs/fat32/fat.c:304-323 | what each value of an entry means, and the flags that go with it, in numbers |
| Formats.TakenIs | trfs/fat32/fat.c:436-446 | what taking a cluster makes of the table and of both counters, entry by entry |
| Volume.Fat.PutFat2 | trfs/fat32/fat.c:326-341 | rewrites one entry of one copy under its upper nibble |
| Volume.Fat.PutFat | trfs/fat32/fat.c:344-354 | changes one entry of the table to the lower 28 bits of the value; all upper nibbles and all sectors outside the tables stay, agreeing copies go on agreeing, and up to the end of the call only the old table has reached the device |
| Table.PutChangesOneEntry | trfs/fat32/fat.c:326-354 | rewriting an entry in every copy changes that entry of the table only, keeps every upper nibble of both copies, and keeps the copies in agreement |
| Table.RestSame | trfs/fat32/fat.c:326-354 | what table operations must leave alone is the same exactly when every sector outside tables and info sector is, and every upper nibble |
| Table.UnderNibbleParts | trfs/fat32/fat.c:337-337 | masking and merging an entry keeps the old upper nibble and takes the new lower 28 bits |
| Chains.ScanFindsFirstFree | trfs/fat32/fat.c:412-434 | the circular scan takes the first free cluster in cyclic order behind the last used one; FULL exactly when no other cluster stops it; unreadable exactly when an invalid entry comes first |
| Chains.FullExactly | trfs/fat32/fat.c:399-434 | an allocation answers FULL exactly when no cluster but the last used one is free, and that one does not follow the chain |
| Chains.ChosenInOrder | trfs/fat32/fat.c:395-434 | on readable tables a new chain begins at the first free cluster behind the one taken last, in cyclic order; a chain goes on at the cluster right behind its end if that is free, and otherwise likewise |
| Chains.FlagsBefore | trfs/fat32/fat.c:412-434 | on meeting an unreadable entry the scan holds the flags of the entry just before that one, or those it began with if it is the first |
| Chains.FailureReadsAsSuccess | trfs/fat32/fat.c:391-428 | an allocation that takes no cluster may report that it did exactly when it is for a new chain and the entry behind the cluster taken last is unreadable, and not that cluster itself |
| Chains.FailureThatReadsAsSuccess | trfs/fat32/fat.c:391-428 | a table of one sector on which that happens |
| Volume.Fat.Scan | trfs/fat32/fat.c:412-434 | the loop comes to what the scan as a function does, and terminates; a failed table read answers exactly the flags that the scan holds then |
| Volume.Fat.FindCluster | trfs/fat32/fat.c:394-434 | tries the cluster behind the chain first, and then scans; the exact error when there is no cluster, on every table |
| Volume.Fat.StretchChain | trfs/fat32/fat.c:388-450 | takes exactly the chosen cluster and links it; afterwards that is the last used cluster, the free count is less by one modulo 2^32, and the device is up to date, with both numbers in the info sector; when there is none it changes nothing but the info flag, and the error is exactly that of the search; and at no single physical write of the call does a used entry on the device come to link to a free one |
| Volume.Fat.CreateChain | trfs/fat32/fat.c:453-456 | as stretching, for the head of a new chain, with the last used cluster, the free count and the info sector; the error on an unreadable table is any that a variable without a value may give, or the flags of the entry before |
| Volume.Fat.TakeCluster | trfs/fat32/fat.c:436-446 | marks the end before it links, so that an interruption leaves no dangling link; the cluster becomes the last used one, and the free count falls by one |
| Volume.Fat.FreeEntries | trfs/fat32/fat.c:363-382 | the loop frees what the removal as a function frees; it ends on every table, cyclic ones included |
| Volume.Fat.RemoveChain | trfs/fat32/fat.c:357-385 | frees the chain up to its end or to a broken entry; when it came to the end the device is up to date, with the free count in the info sector; on a detached chain no physical write of the call leaves a used entry that links to a free one |
| Chains.RemoveFreesTheChain | trfs/fat32/fat.c:357-385 | from the head of a chain exactly its clusters are freed, and each is counted, modulo the width of the counter |
| Chains.ChainIsAcyclic | trfs/fat32/fat.c:294-323 | no cluster occurs twice in a chain |
| Chains.FreeingKeepsDetached | trfs/fat32/fat.c:363-382 | each step of a removal leaves a table without dangling links, and the rest of the chain detached |
| Chains.TakingKeepsLinks | trfs/fat32/fat.c:436-443 | neither of the two table writes of an allocation makes a used entry link to a free one |
| Runs.ForestIsDetached | trfs/fat32/fat.c:357-385 | the head of every chain of a well-formed table is detached |
| Runs.ForestHasNoDangling | trfs/fat32/fat.c:357-456 | in a well-formed table no used entry links to a free one |
| Crashes.Perform | trfs/fat32/fat.c:357-456 | carrying out any legal run of create, stretch and remove leads to the chains and counters that the run leads to, the last used cluster is the one the run took last, and whenever it is cut short no used entry of the table on the device links to a free one |
| Runs.StepKeepsForest | trfs/fat32/fat.c:357-456 | each of create, stretch at the end, and remove from the head keeps the table a set of disjoint acyclic chains, changes only the chain it names, and takes at most one cluster, which was free |
| Runs.RunKeepsForest | trfs/fat32/fat.c:357-456 | over every run of these operations the table stays such a set, chains not named by an operation survive, and the free count keeps its distance from the number of free entries |
| Runs.RemoveConserves | trfs/fat32/fat.c:357-385 | a removal keeps the free count minus the number of free entries, modulo 2^32, on every table, also when it stops early |
| Runs.StretchConserves | trfs/fat32/fat.c:388-450 | so does an allocation |
| Runs.LastUsedIsLastTaken | trfs/fat32/fat.c:388-456 | over every run the last used cluster is the one that was taken last, or the first value if none was |
| Runs.NextIsBehindLastTaken | trfs/fat32/fat.c:395-446 | so after every run a new chain begins at the first free cluster behind the one taken last, whatever was freed since, and a chain is continued right behind its end if it can be |
| Runs.GrownGrewOnly | trfs/fat32/fat.c:388-450 | a chain that grew by any number of stretches keeps its old part, gains only clusters that were free, changes no other entry, and lowers the free count by their number |
| Runs.GrownReaches | trfs/fat32/fat.c:1432-1449 | a chain that has grown to a cluster could come to hold it from the start |
| Runs.StuckReaches | trfs/fat32/fat.c:1432-1449 | one that grew until the allocator had no more could not come to hold any cluster behind its last |
| Volume.Fat.ClustClear | trfs/fat32/fat.c:459-479 | all sectors of the cluster are zero on the device, and nothing else changes |
| Sectors.SectToClustInverts | trfs/fat32/fat.c:223-232 | from any sector of a cluster its number can be told, and the sector mask gives the place in it |
| Sectors.BehindCluster | trfs/fat32/fat.c:511-512 | the sector mask is zero right behind a cluster |
| Sectors.NextSector | trfs/fat32/fat.c:501-529 | the mask of the next absolute sector tells exactly whether a cluster ends |
| Sectors.CursorsDistinct | trfs/fat32/fat.c:482-529 | the places of a directory cursor are all different, and the cluster of each can be told from its sector |
| Directory.CursorStep | trfs/fat32/fat.c:501-529 | where the next slot of a chain is: behind this one, in the next sector, or in the next cluster |
| Directory.Dir.Next | trfs/fat32/fat.c:501-529 | moves to the next slot in chain order, and answers EOF exactly behind the last slot of the last cluster |
| Directory.Dir.NextStretch | trfs/fat32/fat.c:544-557 | as above, but at the end appends one cleared cluster and goes to its first slot; it fails exactly when the allocator finds no cluster behind the last one, with its error, and then nothing has changed |
| Directory.Dir.Grow | trfs/fat32/fat.c:550-556 | the directory is the old one with one cluster of cleared slots behind it, exactly when the allocator has one |
| Directory.NearIsApart | trfs/fat32/fat.c:722-774 | after a search the cache holds no sector of a file that lies apart from the directory |
| Directory.Dir.Rewind | trfs/fat32/fat.c:482-487 | goes to the first slot |
| Directory.Dir.Enter | trfs/fat32/fat.c:490-498 | goes to the first slot of another directory; cluster 0 stands for the root |
| Names.PutSfnName | trfs/fat32/fat.c:612-629 | fills in the 8.3 form of the name, whose bytes the next rows describe |
| ShortNames.SfnNameMeans | trfs/fat32/fat.c:598-629 | an 8.3 name holds, at 0 to 8, what stands for the characters before the first dot, and at 8 to 11 for those behind it, as far as they fit, and spaces; a letter stands as its capital, the special characters as themselves, and everything else as an underscore |
| ShortNames.CaseDoesNotMatter | trfs/fat32/fat.c:598-629 | names that differ only in the case of letters have the same 8.3 form |
| ShortNames.TextInCapitals | trfs/fat32/fat.c:612-646 | for a base of one to eight letters and an extension of none to three, the 8.3 form reads back as the name in capitals, letter by letter |
| ShortNames.NewNameIsSpelled | trfs/fat32/fat.c:969-978 | the short entry written for such a name spells it in capitals |
| ShortNames.FindableExactly | trfs/fat32/fat.c:598-629 | which 8.3 names are the form of any name: exactly those of capitals and the special characters allowed, so none with a digit |
| Names.SfnNameIsNotFree | trfs/fat32/fat.c:594-629 | no 8.3 name made here makes its slot look free or last |
| Names.GetCrc | trfs/fat32/fat.c:181-187 | the checksum loop computes the rotating sum modulo 256 |
| Formats.CrcOfReadme | trfs/fat32/fat.c:181-187 | its value for one name, in numbers |
| Names.PutLfnNameFrag | trfs/fat32/fat.c:649-669 | puts each character and its zero or 0xff byte at its place and changes nothing outside the slot |
| Names.PutLfn | trfs/fat32/fat.c:943-950 | fills the whole slot of a fragment, byte by byte as specified, and nothing else |
| Formats.LfnSlotIs | trfs/fat32/fat.c:105-118 | where in the slot each character lies, and the sequence number, attribute, type, checksum and cluster bytes, in numbers |
| Names.FragOfPiece | trfs/fat32/fat.c:649-669 | a written fragment reads back as its piece of the name |
| Names.PieceSlotReads | trfs/fat32/fat.c:929-947 | a written fragment is in use, marked as long-name slot, numbered, and carries the checksum |
| Names.SfnSlotReads | trfs/fat32/fat.c:969-980 | name, attributes and both halves of the cluster are read back from a short entry |
| Names.SfnSlotIs | trfs/fat32/fat.c:969-980 | a short entry as it is made, byte by byte: name, attributes, the five times and dates, both halves of the cluster, and the size |
| Formats.SfnFieldsAre | trfs/fat32/fat.c:89-103 | cluster and size of any short entry, from its bytes |
| NewEntry.NewSlotsInUse | trfs/fat32/fat.c:929-978 | no slot written for a name looks free or last |
| NewEntry.LongNameRoundTrips | trfs/fat32/fat.c:672-719 | for every name of 1 to 255 bytes without zero bytes, reading the written slots gives the same bytes and length, and the checksum fits |
| Directory.Dir.ParseLfnName | trfs/fat32/fat.c:672-719 | the reader on the disk, across sectors and clusters, does what the parser on the list of slots does, on every directory |
| Directory.Dir.SearchName | trfs/fat32/fat.c:722-774 | the search on the disk comes to what the search on the list of slots does, which the next rows describe; on success the cursor is at the short slot of the hit and the location is its first slot |
| Slots.ParseWholeSet | trfs/fat32/fat.c:672-719 | reading a complete set stops at its short entry and gives the name its fragments spell, whatever was in the buffer |
| Slots.FragmentsRead | trfs/fat32/fat.c:685-718 | on any directory reading the fragments succeeds exactly when all of them are there with one checksum and the name has at most 255 characters |
| Formats.HeadIs | trfs/fat32/fat.c:680-685 | the head mark is bit 6 of the first byte, and the number of fragments its lower five bits |
| Slots.SearchFindsFirstMatch | trfs/fat32/fat.c:722-774 | in a sound directory the search ends at the first live entry with that name, and says EOF exactly when there is none |
| ShortNames.SpelledIsFound | trfs/fat32/fat.c:722-774 | a short entry without a long name is found by every name that it spells in capitals, and the search ends there if no entry before it has that name |
| ShortNames.EfiIsFound | trfs/fat32/fat.c:767-771 | the entry EFI of another system is found by the name efi |
| Directory.Dir.RemoveEntries | trfs/fat32/fat.c:839-867 | marks exactly the slots from the location to the cursor free, across sectors and clusters, and changes nothing else, neither tables nor counters nor other data |
| Entries.RemoveDeletes | trfs/fat32/fat.c:839-867 | this takes just that entry out of the list of live entries |
| Directory.Dir.FindPlace | trfs/fat32/fat.c:880-909 | finds the first run of free slots as the list of slots has it, growing the directory by cleared clusters only as far as needed; it fails exactly when the directory, grown as far as there are clusters, ends before that run and one more slot |
| Entries.FindRoomFindsRoom | trfs/fat32/fat.c:880-909 | the run found is free, or holds the end mark behind which nothing lives |
| Entries.FindRoomIsFirst | trfs/fat32/fat.c:880-909 | and it is the first one: at no earlier slot do enough slots begin that are free or lie behind an end mark |
| Directory.Dir.WriteEntry | trfs/fat32/fat.c:924-981 | writes all slots of a new entry, last fragment first, over the place found |
| Directory.Dir.Add | trfs/fat32/fat.c:870-982 | the new directory is the old one, grown by cleared slots, with the entry in the first room for it and a new end mark if the old one was passed; the cursor is at its short slot; it fails exactly for names that are empty or too long and when no cluster is left for the growth needed, and then no entry has changed |
| Entries.AddInserts | trfs/fat32/fat.c:880-981 | adding puts just the new entry into the list of live entries |
| NewEntry.NewEntryReads | trfs/fat32/fat.c:929-978 | the slots of a new entry form a complete set that spells the given name |
| NewEntry.AddExtendsMap | trfs/fat32/fat.c:722-774 | a directory is a finite map: after a name that was not found has been added, its search ends at the new entry, and every other search ends where it did |
| NewEntry.ItemExtendsMap | trfs/fat32/fat.c:722-774 | the same for the slots of any entry with that name, also after its short slot was stamped |
| NewEntry.SearchIgnoresBuffer | trfs/fat32/fat.c:722-774 | what a search of a sound directory answers does not depend on what an earlier one left in the name buffer |
| NewEntry.RemoveUndoesAdd | trfs/fat32/fat.c:839-982 | removing what is then found leaves exactly the live entries there were before the name was added |
| NewEntry.AddKeepsEndMark | trfs/fat32/fat.c:911-922 | a directory with an end mark keeps one when an entry is added |
| NewEntry.RemoveKeepsEndMark | trfs/fat32/fat.c:839-867 | and when one is removed |
| Listing.ParseSfnName | trfs/fat32/fat.c:632-646 | the text of an 8.3 name: base, and extension behind a dot if there is one |
| Listing.ReadEntry | trfs/fat32/fat.c:1606-1658 | on every directory the loop comes to what reading an entry from the list of slots comes to, with the errors of broken long names |
| Listing.ReadLists | trfs/fat32/fat.c:1606-1658 | in a sound directory that is name, size and attributes of the first live entry from the cursor on, or EOF exactly when there is none |
| ShortNames.SfnTextIs | trfs/fat32/fat.c:632-646 | the text of any 8.3 name, up to the first space of each part |
| Formats.NewEntryIsListed | trfs/fat32/fat.c:1606-1658 | an entry just made is listed with its name, its attributes and size 0 |
| Formats.ShortEntryIsListed | trfs/fat32/fat.c:1606-1658 | a short entry alone is listed with the attributes at byte 11, the size at 28 and its 8.3 name |
| Listing.OpenDir.Read | kernel/driver/fat32.c:76-82 | each read goes on behind the entry read before it |
| Listing.ReadsGiveLive | kernel/driver/fat32.c:76-82 | so the reads of a sound directory give the live entries, each once and in order, and then EOF |
| Tree.EmptyMeans | trfs/fat32/fat.c:1196-1222 | a directory counts as empty exactly when only free slots precede an end mark; one full of free slots is refused with EOF |
| Tree.CheckEmpty | trfs/fat32/fat.c:1196-1222 | the test on the disk answers what the list of slots says, from the third slot on |
| Tree.RefusedExactly | trfs/fat32/fat.c:1185-1222 | an entry may be unlinked exactly when the cursor is not at the start of the root, bits 0, 2 and 3 of the attributes are clear, and, if bit 4 is set, an end mark comes behind the first two slots with only slots marked 0xe5 before it |
| Tree.AtRootMeans | trfs/fat32/fat.c:777-782 | the cursor counts as being at the root exactly at the first slot of the root's cluster |
| Tree.FreeChain | trfs/fat32/fat.c:1226-1229 | frees exactly the clusters of the entry; then the device has the table without them, and still all slots of the directory |
| Tree.HalfUnlinkedMeans | trfs/fat32/fat.c:1226-1232 | so when unlinking is cut short there, no chain begins at the cluster that the entry names, and on a volume that was full the next allocation takes a cluster that the entry led to |
| Tree.Unlink | trfs/fat32/fat.c:1178-1235 | refuses protected entries, the root and directories in use without any change; otherwise frees exactly the clusters of the entry, marks exactly its slots, and brings the device up to date |
| Tree.PrepareDir | trfs/fat32/fat.c:1538-1567 | the new cluster holds the entries . and .. and cleared slots; where the two lead is in the next row |
| Tree.DotsOfFresh | trfs/fat32/fat.c:1545-1570 | the first two slots have the names . and .., the attribute 0x10 and the times given, and lead to the directory itself and to the cluster given for its parent |
| Tree.MakeDir | trfs/fat32/fat.c:1521-1578 | the parent holds the new entry, with its 8.3 name, attribute 0x10, cluster and times; the directory occupies a cluster that was free, and nothing else changes; its slot . leads to itself, and its slot .. to the start of the parent, or to 0 exactly if that is the root; it fails exactly when the name is empty or too long, when there is no cluster for the directory, or when the parent needs one and there is none, and the state is stated for each, with the cluster that is lost in the last case and for a name that is too long |
| Undo.MakeThenUnlink | trfs/fat32/fat.c:1178-1235 | making a directory under an unused name, entering its parent by the cluster read from its slot .., searching for the name and unlinking what is found succeeds if making it did, and restores the parent's live entries, the table but for the clusters by which the parent grew, and the free count but for one for each of those; no data but those of the parent and of the cluster given back change, nor an upper nibble, and agreeing copies go on agreeing |
| Undo.MadeDirIsFound | trfs/fat32/fat.c:1521-1578 | the search for a directory just made ends at its entry, which names its cluster and may be unlinked; without that entry the parent has the live entries it had |
| Undo.MadeDirIsUndone | trfs/fat32/fat.c:1521-1578 | with the cluster of a directory just made freed, the allocator is as before but for the clusters by which the parent grew |
| Undo.RootNotBehind | trfs/fat32/fat.c:777-782 | the cluster of the root directory is not among those behind the first one of a directory, also after this has grown |
| Undo.NotAtRoot | trfs/fat32/fat.c:777-782 | the short entry of an entry made here is never taken for the root |
| Files.File.NextCluster | trfs/fat32/fat.c:1430-1449 | goes to the next cluster of the chain, or appends one; it fails exactly when the allocator has none, with its error |
| Files.File.Follow | trfs/fat32/fat.c:1430-1452 | walks to a given cluster, and the chain becomes just long enough |
| Files.File.Land | trfs/fat32/fat.c:1453-1468 | the buffer ends up as the sector of the offset, and no byte of the disk with the dirty buffer laid over it changes |
| Files.File.Seek | trfs/fat32/fat.c:1392-1471 | afterwards the cluster is that of the offset and the buffer its sector; only the tables change; EOF exactly outside the 32-bit range, and otherwise success exactly when the chain holds the target or can come to hold it; a failed growth leaves the offset where it was, and then its cluster is the cursor's exactly when that is the last of the chain |
| Files.File.PlacedExactly | trfs/fat32/fat.c:1432-1455 | after a seek the cursor's cluster is that of its offset exactly when the seek succeeded, or failed with the offset in the last cluster |
| Cases.SeekThatStrands | trfs/fat32/fat.c:1432-1449 | a failed seek on a full volume after which they differ |
| Contents.OffsetClust | trfs/fat32/fat.c:1417-1420 | dividing an offset by the cluster size gives the cluster of its sector |
| Formats.ByteOnDisk | trfs/fat32/fat.c:229-232 | where each byte of a file lies on the disk: cluster of the chain, sector in the cluster, byte in the sector, in numbers |
| Formats.SlotsAreBytes | trfs/fat32/fat.c:482-529 | the slots of a directory are the bytes of its chain in pieces of 32 |
| Files.File.Read | trfs/fat32/fat.c:1310-1339 | gives content[offset..min(offset+len,size)], changes no byte of any file, and lengthens the chain by one cluster at most; it fails exactly when the chain neither holds the offset behind the bytes nor can come to hold it, which is only at the size of the file |
| Files.File.Write | trfs/fat32/fat.c:1346-1381 | overwrites exactly the given bytes at the offset, across sectors and appended clusters, with size max(size, offset+len), exactly when in the state before the call the offset behind them is in the 32-bit range and the chain holds it or can come to hold it; else a seek fails, that error is lost, and the last part counts as written while the offset, and so perhaps the size, stays at its start |
| Files.File.WriteSucceedsExactly | trfs/fat32/fat.c:1360-1374 | the loop comes to its end exactly when the chain could come to hold the offset behind the data |
| Cases.WriteThatFailedUnseen | trfs/fat32/fat.c:1360-1379 | on a full volume a write of a whole sector answers success and 512 bytes, and the size is still 0 |
| Contents.BytesPatched | trfs/fat32/fat.c:1360-1371 | changing bytes in one sector of a chain changes those bytes of the file, at their offset |
| Contents.BytesOfMore | trfs/fat32/fat.c:1440-1446 | a chain that grew holds its bytes and then those of the new cluster |
| Contents.WrittenStill | trfs/fat32/fat.c:1440-1446 | what was written stays written when the chain grows |
| Contents.BytesBeside | trfs/fat32/fat.c:1310-1471 | an operation on one chain changes no byte of another |
| Files.File.Sync | trfs/fat32/fat.c:1477-1518 | the device holds the bytes of the file, its short entry the new size, times and archive mark, and everything else is as before |
| Files.SyncedFile | trfs/fat32/fat.c:1477-1518 | from the device alone the bytes and the stamped entry are read back |
| Files.StampedReads | trfs/fat32/fat.c:1485-1508 | the stamped entry names the same file and cluster and has the size of the handle exactly if the file was modified |
| Formats.StampedIs | trfs/fat32/fat.c:1485-1508 | byte by byte: the date of access at 18, size, date and time of the change at 28, 24 and 22, and bit 5 of the attributes, each exactly if it is to be recorded; every other byte is as before |
| Files.Open | trfs/fat32/fat.c:1275-1296 | a file opened from its entry is as long as that says, or empty when truncated, with the cursor at its start or its end; it fails exactly when data are to be appended and the chain neither holds the end nor can come to hold it |
| Trips.CreateEntry | trfs/fat32/fat.c:1255-1273 | creating a file takes a cluster and adds an entry for it; it fails exactly when the name is empty or too long, when there is no cluster for the file, or when the directory needs one and there is none |
| Trips.CreatedSlot | trfs/fat32/fat.c:1264-1273 | the entry of a file just created has the 8.3 name, attribute 0x20, the cluster taken, the times given, and size 0 |
| Trips.ClosedIsFound | trfs/fat32/fat.c:722-774 | in a directory to which a new file was added the search for its name ends at its short slot, also when a sync has stamped that, and it tells the cluster and the size |
| Trips.FillAndClose | trfs/fat32/fat.c:1302-1381 | data written to a new file are all written exactly when there are the clusters for them, and then, after the close, the device holds them and the directory an entry with their length |
| Trips.CreateWriteReopen | trfs/fat32/fat.c:1247-1518 | a file that is created under an unused name, written and closed, and then searched for by its name and opened again, gives back the bytes written, exactly when there were the clusters to write them all; no sector outside the tables changes but those of the directory and of the file, and upper nibbles and the agreement of copies are kept |
| Pages.ShiftKeepsHigher | kernel/memory_paging.c:26-26 | the unmasked shift tests a bit and every higher bit of the same byte |
| Pages.Pmm.Test | kernel/memory_paging.c:26-26 | a page counts as taken exactly when it, or a higher page of its byte, is marked |
| Pages.Pmm.ReservRange | kernel/memory_paging.c:36-43 | reserves page by page, leaving pages alone that count as taken |
| Pages.Pmm.Init | kernel/memory_paging.c:45-103 | the state after start-up, the place and the length of the bitmap, and exactly when start-up fails, with 64-bit wrap-around in the reserved ranges |
| Pages.MaxEndIs | kernel/memory_paging.c:52-66 | memory ends where the last conventional part does |
| Pages.BestIs | kernel/memory_paging.c:69-77 | the bitmap is placed in the first of the largest conventional parts |
| Pages.BitmapBytesAre | kernel/memory_paging.c:65-66 | it has whole pages, as few as hold a bit for each page of memory and one byte more |
| Pages.Pmm.AllocPages | kernel/memory_paging.c:105-134 | hands out the lowest run of n pages that all pass the test, and fails with no change exactly when there is none |
| Pages.Pmm.FreePage | kernel/memory_paging.c:137-146 | clears the bit of a page that counts as taken, and only then counts it as unused |
| PageRuns.ReservedAreTaken | kernel/memory_paging.c:95-102 | every page of a range reserved at start-up counts as taken afterwards, even where its own bit was left alone |
| PageRuns.InitSum | kernel/memory_paging.c:81-103 | after start-up used pages and clear bits make up the usable pages, for descriptors that share no page |
| PageRuns.AlignedAreDisjoint | kernel/memory_paging.c:83-93 | conventional descriptors that are aligned and do not overlap share no page and lie below the end, whatever the others are |
| PageRuns.GrantIsFresh | kernel/memory_paging.c:105-134 | pages handed out were not live and did not count as taken at start-up |
| PageRuns.RunIsSafe | kernel/memory_paging.c:105-146 | over every run whose frees name live pages, nothing taken at start-up is handed out, and used pages and clear bits keep their sum |
| PageRuns.LiveNeverGranted | kernel/memory_paging.c:105-146 | at every point of a run what is handed out is not live |
| PageRuns.ReservedNeverGranted | kernel/memory_paging.c:81-146 | no page of a reserved range is ever handed out |
| PageRuns.InUseNeverGranted | kernel/memory_paging.c:95-134 | over every run no page is handed out that touches the first or the fifth megabyte, the kernel, the bitmap, the framebuffer, the 128 KiB below the top of the stack, or the memory map, as long as these do not end at the very end of the address space |
| PageRuns.GrantedIsMemory | kernel/memory_paging.c:81-134 | what is handed out belongs to a conventional part of the memory |
| PageRuns.StartAndPerform | kernel/memory_paging.c:45-146 | starting the allocator and carrying out any sequence of requests for and returns of pages hands out no page of any of these, only conventional memory, and keeps used pages and clear bits in sum |
| PageRuns.FreeKeepsSumExactly | kernel/memory_paging.c:137-146 | freeing a page keeps the sum exactly when its own bit was set |
| Memory.Memmove | libc/string.c:66-78 | the destination gets the old bytes of the source and nothing else changes, for every overlap, length and alignment |
| Memory.Memcpy | libc/string.c:21-63 | so does the copy by bytes, blocks and words, when it runs forwards or the places are apart; words are accessed at aligned addresses only |
| Memory.CopiedIsMoved | libc/string.c:21-78 | the bytewise description of a copy and the sliced one are the same |
| Ring.RefusedExactlyWhenFull | kernel/stream.c:4-6 | a put is refused exactly when 4095 bytes are pending at the moment it reads the tail |
| Ring.StepKeepsInv | kernel/stream.c:4-21 | every single memory step of either party keeps the pending bytes in the ring |
| Ring.TakenIsPrefix | kernel/stream.c:4-21 | in every interleaving the bytes taken are a prefix of the bytes accepted, and at most 4095 are pending |
| Stream.PutAlone | kernel/stream.c:4-12 | the steps of an uninterrupted put append its byte, unless 4095 are pending |
| Stream.GetAlone | kernel/stream.c:14-21 | the steps of an uninterrupted get take the oldest byte, if there is one |
| Stream.RingBuf.Put | kernel/stream.c:4-12 | does these steps |
| Stream.RingBuf.Get | kernel/stream.c:14-21 | does these steps |
| Stream.RingBuf.TryRead | kernel/stream.c:29-39 | takes the oldest bytes, as many as there are and are wanted |
| Console.Keyboard.Handle | kernel/driver/keyboard.c:55-92 | offers at most one character to the ring; a dropped one is counted unless it is a backspace; how shift and caps lock change |
| Console.TypedExactly | kernel/driver/keyboard.c:60-89 | exactly which scan codes type something |
| Console.CharIs | kernel/driver/keyboard.c:79-85 | which character of a key is typed: the second one exactly if just one of shift and caps lock is on, and on a key with a digit exactly if shift is on and caps lock is not |
| Console.Type | kernel/stream.c:4-12 | what is typed is put behind what is in the ring as far as it fits, and the rest is dropped |
| Console.ReadLine | kernel/sys.c:29-67 | of what was in the ring and what is typed and fits, it takes keys up to a newline or to a full buffer, which then holds what backspaces leave of them, and an end mark; the line is not done exactly when all has been typed and taken before; nothing behind the buffer changes |
| Console.LineKeeps | kernel/sys.c:29-67 | while the ring does not overflow, the keys taken are the first of those that were there and those typed, whenever they were typed, and all of them if the line does not end; when it does they are a line |
| Console.OneLine | kernel/sys.c:29-67 | at most one number of first keys of a text is a line, and none is if the text does not end one; so what is read depends on the text alone |
| Console.Await | kernel/stream.c:41-50 | takes the oldest byte at the first look at which there is one; in vain exactly when all has been typed and the ring is still empty |
| Console.BackspaceUndoes | kernel/sys.c:46-52 | a character followed by a backspace leaves nothing |
| Console.EditedKeeps | kernel/sys.c:40-61 | without backspaces every key is kept, and no backspace is ever kept |

## Left out

- Failures of the disk, and the error code that stands for them; all reads and writes of the device succeed.
- Mounting, probing and the fields of the boot sector; the model starts from a mounted, well-formed volume.
- Paths: splitting, finding a volume, and descending from directory to directory. The operations start from a handle on
  the right directory, and where `dir_search` has found an entry from its place.
- Trips.CreateEntry: the case in which a failed allocation reads as success is excluded, as for `Tree.MakeDir`.
- Trips.CreateWriteReopen: a file of which not all data could be written is left open; what the write did to it is stated
  by `Files.File.Write`.
- Clock: times and dates are parameters.
- The global name buffer with its length and checksum is part of each directory handle. Every operation fills it before
  it reads it.
- A directory search gives its location only on success, because its callers use it only then.
- Files.File.Read: the bytes are a result instead of being copied into the caller's buffer.
- Files.File.Sync: the fields of the short entry are stored by one write of 32 bytes instead of one by one.
- Names: characters are signed on the target, so the test for 0xff in `parse_lfn_name` never succeeds and is not modelled.
- Tree.MakeDir: the case in which a failed allocation reads as success is excluded; the code then goes on with a cluster
  number that has no value.
- Several handles on one file, and the components "." and "..".
- Listing.OpenDir.Read: one open directory of `kernel/driver/fat32.c` is modelled with its cursor; the array of slots and
  the checks of the slot number are not.
- Pages.Pmm.Init: the sums of address and length in the memory map are those of unbounded numbers; a map in which they
  wrap around at 2^64 is not covered. The map is a list of descriptors.
- Console.ReadLine: the echo on the screen is left out; what is typed before each look into the ring is a parameter, and
  when that is used up before the line ends the method says so instead of waiting on.
- Console.Keyboard.Handle: the table of characters is a parameter.
- `stream_read` and `stream_write` wait for interrupts and need not end; the waits of the line reader end with what is
  typed, and writing to a stream is not modelled.
- Words are copied as four bytes; the order of bytes in a word does not matter to a copy.
- Framebuffer, terminal, loader, descriptor tables, partition scan and port access.
