# Proofs about the course projects

This project models the algorithmic cores of a repository of C programs and proves what they promise.
The models are imperative where the C is: classes with the fields the C updates, in-place arrays, and the
same loops, branches and constants. Each method is proved against a function or predicate, and the theorems are
lemmas about those.

- **Duplicate finder** (`Finddup*.dfy`). `Finder.Run` builds the file list, sorts, checksums neighbours of one length,
  sorts again, marks hard links, regroups the list in place and prints. What it prints is proved to be the naive grouping:
  the hard link summary is the grouping by inode, and the duplicate report the grouping by content, whatever order the
  sort gives to equal keys. `comp1` is modelled as it is coded, with its truncation. The proof does not need it to be the
  order it is meant to be: `qsort` needs a total ordering of the list, as section 7.22.5.2 of ISO/IEC 9899:2011 demands,
  and the scans need equal keys side by side. `FinddupSort` says exactly when every possible result of the sort has that,
  and that files whose fields are below 2^32 need no more than the ordering; `FinddupLimits` shows five files on which
  `comp1` is no ordering and the program can miss a duplicate. `FinddupRegroup` holds the invariant of the rotating pass:
  `lastix` is not advanced by an adjacent match, so a class may be scanned again from one of its own duplicates, and
  entries behind it may be links whose scan predecessor has moved. The loops with the link shortcut refine the loops with
  full comparisons only.
- **CRC-32** (`Crc32*.dfy`). The table-driven loop equals bit-by-bit feeding, which is division by the polynomial of
  section 8 of RFC 1952: the result is the one and only remainder. Composition, the affine law, the residue and the
  detection of every error burst of up to 32 bits follow.
- **Allocator** (`Sf*.dfy`). `SfPointers` and `SfQuickLists` follow link words: ten circular lists behind sentinels, ten
  bounded stacks. `SfHeap` and `SfAlloc` say what a call does to blocks that tile an arena. `SfFlush` follows the flush of
  a full quick list as it is coded, which marks all its blocks free before it coalesces the first; `SfFlushIff` shows
  exactly when that leaves the heap in order. `SfMalloc.Allocator` has blocks and link words, walks and relinks the lists
  as the C does, and is proved to do what the block level says. `SfRuns` shows that a run keeps the tiling, the lists and
  the live blocks if and only if it makes no unsafe flush, and that the allocator carries every such run out on its link
  words. `SfFlushLimits` is a run of fourteen calls after which one live block lies within another.
- **Rio and Jeux packets** (`Rio*.dfy`, `Protocol.dfy`). The kernel is a finite schedule of short transfers, interruptions and
  failures. Buffered reads cut the stream into consecutive pieces that do not depend on the schedule, and packets sent
  are packets received.
- **Goertzel filter** (`Goertzel.dfy`). Over exact reals the recurrence equals the Fourier sum, and a pure tone has half the
  square of its amplitude as its strength. The C divides by `N * N` in 32-bit arithmetic, so the strength is right exactly
  up to 65535 samples.
- **Option scanner** (`Getopt*.dfy`). Every rendering of a list of letters, legal or not, is decoded to that list letter by
  letter, and every command line is such a rendering; it is decoded without error exactly if nothing in it is at fault.
- **Ratings** (`Rating.dfy`). More than half a game is expected of a player exactly from 400 points above on. A game between
  players at least 400 points apart loses one point of the total to truncation if both updated ratings are positive, and
  creates one if both are negative; every other game conserves the total.
- **Numbers as text** (`Sio.dfy`), **audio files and tone generation** (`Audio.dfy`, `Dtmf*.dfy`). Round trips through text,
  through header words and samples, and from event lines to the samples of a file.

Results that differ from the intent of the code, each with its exact condition:

- `fullcmp` ends at a byte 0xFF as at the end of the file and lets a signed comparison fail for any byte above 0x7F;
  it decides equality with every file of the same length exactly for files of 7-bit bytes (`FullCmpExactIffSevenBit`).
  It reports two files of one length as equal exactly when they agree in 7-bit bytes up to the end or to a byte 0xFF of the
  first (`FullCmpZeroIff`), and is right about them exactly when their bytes pass the check `Decidable` (`FullCmpRightIff`).
- `comp1` truncates differences to `int`. It is right about two keys exactly when the difference that decides keeps its sign
  (`Comp1AgreesIff`); for differences below 2^32, when the first one that is not zero is below 2^31 (`Comp1AgreesIffFits`).
  Over a list that it totally orders, every result of the first sort has equal lengths side by side exactly when `comp1`
  puts no length between two others that are equal (`LengthsTogetherIff`), and every result of the second has equal
  buckets, and inside a bucket equal inodes, side by side exactly when it puts no entry between two that share a key it does
  not have (`ArrangedIff`). If lengths, devices and inodes are below 2^32 both hold wherever it is an ordering
  (`SortableIff`).
- `sf_flush_quick_list` marks all blocks of the list free and then coalesces them in order, so that one may be merged into
  another before its own turn. The heap stays in order if and only if, for every block of the list whose successor in
  memory is also on it, a free block stands before it and no block further on that free blocks join to it is still to come
  (`FlushIff`). This holds if no two blocks of the list are neighbours (`ApartSafe`); it fails if a block stands directly
  before one that is later on the list (`EarlierBeforeUnsafe`), and in any order if the first of a row of neighbours has
  nothing free before it (`FirstOfRunUnsafe`). After an unsafe flush two live blocks can overlap (`OverlapRun`).
- A stream that ends inside a packet can be reported as a packet (`RecvCut` says exactly when).
- `goertzel.h` promises twice the squared magnitude of the Fourier sum; the code divides it by the square of the block
  length, which is what is modelled. That is right for every signal exactly below 65536 samples (`LengthRightIff`), and for
  a longer signal only if its Fourier sum is zero and the wrapped square is not (`StrengthRightIff`).
- `sio_ltoa` prints every long but the least one so that it reads back (`RoundTripIff`).
- `dtmf_generate` writes as many samples as asked exactly when there is an event, the last one ends within the length and
  the length is below 2^30 (`CountRightIff`); `get_txt_idx` reads an index right exactly when ten times it is an int (`MisreadIff`).

## Model

| member | source | states |
|---|---|---|
| Finddup.Finder.Run | hw2/src/finddup.c:205-294 | If comp1 is a total ordering of the list that mixes no keys, files of one length and checksum pass the byte check under which fullcmp is right, and one inode has one content, the output is the names of exactly the files of length zero in increasing order, then the hard link summary of the naive grouping by (device, inode), then the naive grouping by content: with links shown each class of two or more once with all its members, with links hidden one name per inode |
| Finddup.Finder.Build | hw2/src/finddup.c:208-260 | The names printed as zero-length are strictly increasing and exactly those of the empty files, under one header; the names listed are strictly increasing and exactly those of the others |
| FinddupStages.ZeroLinesAre | hw2/src/finddup.c:239-246 | The report of empty files is the header and then every name in order, or nothing if there is none |
| Finddup.Finder.Sort | hw2/src/finddup.c:264-266 | If comp1 as coded is a total ordering of the list, the list becomes a permutation of itself in which comp1 puts no entry after a later one |
| FinddupSort.Comp1AgreesIff | hw2/src/finddup.c:297-309 | comp1 agrees with the lexicographic order on two keys, in both directions, if and only if they are equal or the first difference that is not a multiple of 2^32 has, as an int, the sign of the first difference that is not zero |
| FinddupSort.Comp1AgreesIffFits | hw2/src/finddup.c:297-309 | For differences below 2^32 it agrees if and only if the first one that is not zero is below 2^31 |
| FinddupSort.Comp1Decides | hw2/src/finddup.c:297-309 | As long as all differences are ints, comp1 is the difference of the lengths, or if they are equal of the checksums, then of the devices, then of the inodes |
| FinddupSort.SortedCopyAscends | hw2/src/finddup.c:264-266 | Where comp1 is a total ordering there is a sorted permutation |
| FinddupSort.LengthsTogetherIff | hw2/src/finddup.c:264-268 | Where comp1 is a total ordering, every sorted permutation has equal lengths side by side if and only if comp1 puts no length between two others that are equal |
| FinddupSort.ArrangedIff | hw2/src/finddup.c:333-333 | Where comp1 is a total ordering, every sorted permutation has equal (length, crc) buckets and, inside a bucket, equal inodes side by side if and only if comp1 puts no entry between two that share a key it does not have |
| FinddupSort.AgreeingSuffices | hw2/src/finddup.c:297-309 | If comp1 agrees with the lexicographic order on every two entries, it is a total ordering and mixes neither lengths nor keys |
| FinddupSort.OrderingSuffices | hw2/src/finddup.c:297-309 | If any two entries differ by less than 2^32 in every field and comp1 is a total ordering of them, it mixes neither lengths nor keys |
| FinddupTheorems.SortableIff | hw2/src/finddup.c:264-333 | For files whose lengths, devices and inodes are below 2^32, what the program asks of comp1 is exactly that it is a total ordering of the entries in each of the two sorts |
| FinddupLimits.FiveUnsortable | hw2/src/finddup.c:297-309 | On five one-byte files comp1 goes round in a circle through their checksums, although all else that the program needs holds |
| FinddupLimits.FiveLookSorted | hw2/src/finddup.c:333-333 | In the order of their names comp1 finds no two neighbours to exchange, although equal files are apart |
| FinddupLimits.FiveMissed | hw2/src/finddup.c:373-404 | Left in that order, the regrouping pass does not flag the last copy and the report is not the naive grouping |
| FinddupTheorems.FirstSort | hw2/src/finddup.c:264-270 | After the first sort the lengths that neighbours share are exactly those that two files share |
| FinddupTheorems.SecondSort | hw2/src/finddup.c:333-333 | After the second sort the list is arranged as scan2 needs: equal (length, crc) buckets and, inside a bucket, equal inodes are side by side |
| FinddupTheorems.SevenBitDecides | hw2/src/finddup.c:503-549 | Files of 7-bit bytes pass the check that is asked for fullcmp |
| Finddup.Finder.Scan1 | hw2/src/finddup.c:313-334 | Afterwards equal buckets and, inside a bucket, equal inodes are side by side, and an entry has FL_CRC and its file's checksum exactly when another file has its length |
| Finddup.Finder.ChecksumNeighbours | hw2/src/finddup.c:313-334 | Each entry whose length a neighbour shares is checksummed, no other is touched, and a new sort is asked for unless no two neighbours share a length |
| FinddupStages.ScanRound | hw2/src/finddup.c:313-334 | One comparison of neighbours checksums both entries if and only if they share a length, whether or not either has its checksum already |
| FinddupStages.ScannedDescribed | hw2/src/finddup.c:313-334 | Where equal lengths are side by side, comparing neighbours finds every length that two files share |
| Finddup.Finder.MarkLinks | hw2/src/finddup.c:347-370 | FL_LNK is set exactly on entries with the inode of the entry before, and the summary printed lists each run of one inode under its first file |
| Finddup.Finder.MarkRun | hw2/src/finddup.c:349-369 | One iteration marks and prints exactly the run of entries with the inode of the first |
| FinddupTheorems.LinkSummaryIsNaive | hw2/src/finddup.c:347-370 | On the arranged list the runs of one inode are the naive grouping by (device, inode) |
| FinddupTheorems.MarkedOneUnlinked | hw2/src/finddup.c:347-370 | Of the names of one inode exactly one is left without FL_LNK |
| Finddup.Finder.RegroupDuplicates | hw2/src/finddup.c:373-404 | The in-place pass with its link shortcut ends in the same list and flags as the loops that always compare in full |
| Finddup.Finder.RegroupFrom | hw2/src/finddup.c:375-403 | One iteration of the outer loop ends in the same list and the same lastix as the inner loop without the shortcut |
| Finddup.Finder.MoveUp | hw2/src/finddup.c:388-395 | The entry at ix2 goes to lastix and those between move down by one |
| FinddupRegroup.RegroupGroups | hw2/src/finddup.c:373-404 | On an arranged list with links marked the result is a permutation in which files of equal content are contiguous and FL_DUP is set exactly on an entry that follows one of equal content |
| FinddupRegroup.OuterGroups | hw2/src/finddup.c:374-404 | The same from every state the outer loop can reach, also when it resumes on a duplicate of the class just built |
| FinddupRegroup.InnerKeeps | hw2/src/finddup.c:376-403 | Gathering one class re-establishes the invariant of the outer loop at the new lastix |
| FinddupRegroup.InnerMatch | hw2/src/finddup.c:382-397 | A match extends the class by one entry, and what was passed over keeps its order behind it |
| FinddupRegroup.InnerExit | hw2/src/finddup.c:376-381 | When the bucket ends, no file of the class is left further down the list |
| FinddupRegroup.LinkShortcutSound | hw2/src/finddup.c:382-402 | In every reachable state the shortcut decides as the full comparison does, and that is equality of contents |
| Finddup.Finder.Scan3 | hw2/src/finddup.c:409-445 | The lines printed are the report of the groups delimited by FL_DUP, each leader once before its members, under one header and none if there is nothing to show |
| FinddupTheorems.GroupedLeadersPlain | hw2/src/finddup.c:409-445 | After regrouping, the flags of a leader that has a duplicate are exactly FL_CRC, which is how scan3 recognises it |
| FinddupStages.ReportShown | hw2/src/finddup.c:415-444 | A shown duplicate adds its line, and its leader's if that was not printed, and nothing else |
| FinddupReport.GroupsAreClasses | hw2/src/finddup.c:409-445 | If equal keys are contiguous, the groups formed by the continuation flags are the classes, one for each key |
| FinddupReport.ReportLength | hw2/src/finddup.c:347-445 | A report has one header and as many lines as its groups with members need, or none at all |
| FinddupReport.ReportAt | hw2/src/finddup.c:347-445 | Group by group the leader is printed once and then each member, in order |
| FinddupTheorems.DuplicatesAreNaive | hw2/src/finddup.c:409-445 | With links shown the report lists each content held by two or more files once, with every file that has it |
| FinddupTheorems.DuplicatesAreNaiveWithoutLinks | hw2/src/finddup.c:409-445 | With links hidden it lists each content held by two or more inodes once, with one name for each inode |
| FinddupFiles.FullCmpExactIffSevenBit | hw2/src/finddup.c:503-549 | fullcmp decides equality with every file of the same length if and only if the file has no byte above 0x7F |
| FinddupFiles.FullCmpOfSevenBit | hw2/src/finddup.c:503-549 | For a 7-bit file fullcmp gives zero exactly on an equal file |
| FinddupFiles.FullCmpMisjudges | hw2/src/finddup.c:503-549 | For any other file there is one of the same length on which it gives the wrong answer |
| FinddupFiles.FullCmpZeroIff | hw2/src/finddup.c:503-549 | Two files of one length compare as equal if and only if they agree, in bytes below 0x80, up to the end or up to a byte 0xFF of the first |
| FinddupFiles.FullCmpRightIff | hw2/src/finddup.c:503-549 | The comparison of two files of one length is right if and only if the first file is 7-bit, or its first byte above 0x7F is 0xFF and the files are equal or differ before it, or is another one and the files differ |
| FinddupFiles.FileCrcByLines | hw2/src/finddup.c:449-482 | The checksum of a file is that of its first line, cut at its first zero byte, plus that of the rest, in 32 bits |
| Crc32.Crc32Table.BuildTable | hw2/src/crc32.c:23-37 | Every entry is its octet after eight bit steps |
| Crc32.Crc32Table.ByteLoop | hw2/src/crc32.c:40-44 | The table-driven loop leaves the register that feeding all the bits one by one leaves |
| Crc32.Crc32Table.RcCrc32 | hw2/src/crc32.c:12-46 | For every seed and buffer the result is the bitwise checksum, whether or not the table existed |
| Crc32.ByteStepIsEightBitSteps | hw2/src/crc32.c:40-44 | One table lookup does the work of eight bit steps |
| Crc32.FeedAtOnce | hw2/src/crc32.c:25-45 | Feeding up to 32 bits one by one equals xoring them in at once |
| Crc32Polynomial.FeedDivides | hw2/src/crc32.c:25-35 | A bit step multiplies the register by X, adds the bit at X^32 and takes the generator away when the degree reaches 32 |
| Crc32Polynomial.CrcIsTheRemainder | hw2/src/crc32.c:12-46 | A word is the checksum if and only if its complement is a remainder of seed and message modulo the generator over GF(2) |
| Crc32Polynomial.RemainderUnique | hw2/src/crc32.c:25-45 | No dividend has two remainders |
| Crc32Polynomial.GeneratorTerms | hw2/src/crc32.c:30-30 | The constant of the code is the polynomial of section 8 of RFC 1952 |
| Crc32Theorems.Compose | hw2/src/crc32.c:39-45 | The checksum of a first part, passed on as the seed, gives the checksum of the whole |
| Crc32Theorems.Affine | hw2/src/crc32.c:39-45 | The checksum of the exclusive or of three buffers of one length is the exclusive or of their checksums |
| Crc32Theorems.Residue | hw2/src/crc32.c:39-45 | Any message followed by its own checksum, from any seed, has the checksum 0x2144DF1C |
| Crc32Theorems.BitBurstChangesCrc | hw2/src/crc32.c:39-45 | Two buffers of one length that differ only within 32 consecutive bits, at any bit offset, never share a checksum |
| Crc32Theorems.FourOctetBurstChangesCrc | hw2/src/crc32.c:39-45 | In particular buffers that differ only within four consecutive bytes |
| SfPointers.FreeLists.constructor | hw3/src/sfmm.c:332-348 | Ten empty rings |
| SfPointers.FreeLists.InitFirstPage | hw3/src/sfmm.c:386-388 | The first page becomes the only element of its list although the prev word of the sentinel is not set |
| SfPointers.FreeLists.Unlink | hw3/src/sfmm.c:100-103 | A block linked out by its own links leaves its list, and nothing else changes |
| SfPointers.FreeLists.PutInFreeList | hw3/src/sfmm.c:428-435 | Insertion is cons on one list; all ten stay rings, pairwise disjoint, each prev word the predecessor |
| SfPointers.FreeLists.RemoveFromFreeList | hw3/src/sfmm.c:624-639 | Exactly the given block leaves its list, and nothing changes if it is on none |
| SfPointers.InsertRings | hw3/src/sfmm.c:428-435 | The four assignments keep all rings, for a list in any state |
| SfPointers.UnlinkRings | hw3/src/sfmm.c:100-103 | Linking the neighbours of a block to one another keeps all rings without it |
| SfLists.RemovePush | hw3/src/sfmm.c:428-435 | Removing what was just inserted gives back the lists there were |
| SfQuickLists.QuickLists.PutInQuickList | hw3/src/sfmm.c:576-596 | A push, or for a full list its old contents handed out and the list left with the new block alone; length is the length of the chain and never exceeds five |
| SfQuickLists.QuickLists.Flush | hw3/src/sfmm.c:350-365 | Every block of the list is collected in order and only the new one stays |
| SfQuickLists.QuickLists.Pop | hw3/src/sfmm.c:71-76 | The block pushed last comes off, and the other stacks stay as they are |
| SfMalloc.Allocator.constructor | hw3/src/sfmm.c:375-391 | A fresh arena satisfies the invariant, on link words too, and has no live block |
| SfMalloc.Allocator.RoundUp | hw3/src/sfmm.c:45-56 | The two padding loops compute the rounded block size |
| SfAlloc.RoundedLeast | hw3/src/sfmm.c:45-56 | The block size is the least multiple of 16 that is at least 32 and at least the request plus eight |
| SfMalloc.Allocator.Malloc | hw3/src/sfmm.c:19-126 | Over link words the call returns and leaves what the block-level specification says: null, no memory, a block or a request to grow |
| SfMalloc.Allocator.TakeFromQuickLists | hw3/src/sfmm.c:58-78 | The top block of the first quick list whose top has exactly the size comes off, or nothing changes |
| SfMalloc.Allocator.SearchList | hw3/src/sfmm.c:83-94 | Following next from the sentinel finds the first block of the list that is large enough |
| SfMalloc.Allocator.TakeFromFreeLists | hw3/src/sfmm.c:80-126 | The first such block of the first list that has one is served, or nothing changes |
| SfMalloc.Allocator.Serve | hw3/src/sfmm.c:94-123 | A block found is split when 32 bytes or more are left over, the rest joining the list of its class, and taken whole otherwise |
| SfMalloc.Allocator.Coalesce | hw3/src/sfmm.c:445-528 | In a tiled arena the block is merged with the free neighbours it has, which are unlinked from their lists, as it is itself if it has one, and the result is linked into the list of its class |
| SfMalloc.Allocator.MarkFree | hw3/src/sfmm.c:355-362 | The headers of all collected blocks say free before any is coalesced |
| SfMalloc.Allocator.CoalesceFlushed | hw3/src/sfmm.c:366-368 | Where the flush is safe, coalescing the marked blocks in the order of the list on link words ends as the block level says |
| SfMalloc.Allocator.Free | hw3/src/sfmm.c:168-233 | The live block is pushed on its quick list, or coalesced if it has none; a list with five blocks is flushed first: all are marked free and then coalesced in order |
| SfAlloc.FirstFitIsLowestClass | hw3/src/sfmm.c:80-126 | The search succeeds exactly when some free block is large enough, and picks one in the lowest class that holds such a block |
| SfAlloc.FirstFitFirst | hw3/src/sfmm.c:80-94 | The block found is the first large enough one of its list, and no list before it has one |
| SfAlloc.CarveKeeps | hw3/src/sfmm.c:94-123 | Serving a request keeps the invariant, makes one block live and leaves at most 16 bytes unsplit |
| SfAlloc.MallocKeeps | hw3/src/sfmm.c:58-126 | The invariant is kept; a block granted was not live and all other live blocks stay; without one nothing changes and no free block is large enough |
| SfAlloc.ReleaseKeepsIff | hw3/src/sfmm.c:168-233 | The release of a live block keeps the invariant if and only if it flushes no list or the flush is safe, and then exactly that block stops being live |
| SfAlloc.QuickIndexBound | hw3/src/sfmm.c:530-574 | Quick list i takes the blocks of exactly 32 + 16i bytes |
| SfFlush.GoodIff | hw3/src/sfmm.c:366-368 | In the middle of a flush the block whose turn it is swallows no waiting block and goes on a list only once if and only if the condition holds at it |
| SfFlush.GoodStep | hw3/src/sfmm.c:445-528 | Coalescing such a block keeps the tiling and the lists, and a block has joined the one before it exactly when both are free and one of them has had its turn |
| SfFlushIff.BadStep | hw3/src/sfmm.c:445-528 | Otherwise a waiting block comes to lie inside another, or a block is on its list twice |
| SfFlushIff.DoomedForever | hw3/src/sfmm.c:366-368 | No later step of the flush puts either right |
| SfFlushIff.FlushIff | hw3/src/sfmm.c:350-372 | The flush as coded ends with the invariant if and only if it is safe, and then no live block has moved |
| SfFlushIff.ApartSafe | hw3/src/sfmm.c:350-372 | A flush of blocks no two of which are neighbours is safe |
| SfFlushIff.EarlierBeforeUnsafe | hw3/src/sfmm.c:350-372 | A flush is not safe if a block stands directly before one that is later on the list |
| SfFlushIff.FirstOfRunUnsafe | hw3/src/sfmm.c:350-372 | Nor, in any order, if a block with nothing free or flushed before it stands directly before another |
| SfFlushLimits.OverlapRun | hw3/src/sfmm.c:350-372 | On the first page, after six requests of 24 bytes and the release of the first five blocks in falling order and of the sixth, requests for 120 and 152 bytes are served with blocks one of which lies within the other; the first eleven states are in order and the flush is where that ends |
| SfHeap.SizeClassMonotonic | hw3/src/sfmm.c:393-426 | A block of a higher class is larger than every block of a lower one |
| SfHeap.SizeClassIs | hw3/src/sfmm.c:393-426 | Class c ends at 32 doubled c times and begins above where the one before ends; the last has no end |
| SfRuns.StepKeepsIff | hw3/src/sfmm.c:19-233 | A call keeps the invariant if and only if it makes no unsafe flush, and then every block that is live and not released stays live with its size |
| SfRuns.RunKeepsIff | hw3/src/sfmm.c:19-233 | All states up to any point of a run are in order - blocks tile the arena, sizes are multiples of 16 from 32 on, no two free blocks touch, each free block is on exactly the list of its class and each quick block on its quick list - if and only if no flush up to there is unsafe |
| SfRuns.LiveBlocksStay | hw3/src/sfmm.c:19-233 | Through any run without an unsafe flush a live block that is not released keeps its place and its size |
| SfRuns.LiveBlocksDisjoint | hw3/src/sfmm.c:19-233 | In every state of a run before which no flush was unsafe live blocks do not overlap and lie inside the arena |
| SfRuns.TilesCover | hw3/src/sfmm.c:19-233 | Every byte of the arena belongs to exactly one block |
| SfRuns.RequestServed | hw3/src/sfmm.c:19-126 | In a state in order, which is every state up to an unsafe flush, a granted block was not live, has room for the request and its header, and lies apart from every live block |
| SfRuns.ReleaseThenRequest | hw3/src/sfmm.c:58-78 | Releasing a block whose quick list has room and asking for its size again returns that block and the very state before the release |
| SfRuns.QuickServed | hw3/src/sfmm.c:58-78 | A request for the size of the block on top of a quick list is served with it, and no free list and no block size changes |
| SfRuns.RequestOutcome | hw3/src/sfmm.c:19-126 | A request gives null exactly for size zero, no memory exactly if the size as an int is negative, and asks for growth exactly if no quick list has a block of the size on top and no free block is large enough |
| SfRuns.Perform | hw3/src/sfmm.c:19-233 | Each call of the allocator on its link words that makes no unsafe flush is a step of the block level |
| SfRuns.PerformAll | hw3/src/sfmm.c:19-233 | Every run without an unsafe flush is carried out on the link words: lists stay rings, stacks stay chains, and the state is that of the run |
| SfRuns.FirstPage | hw3/src/sfmm.c:375-391 | One free block of 4080 bytes on list 7 satisfies the invariant |
| Rio.ReadN | hw5/src/csapp.c:750-769 | Under every schedule without failure all n bytes arrive, or all there are before the end of the stream, in order; -1 only if a call can fail |
| Rio.WriteN | hw5/src/csapp.c:776-793 | Unless a write fails or accepts nothing, exactly the given bytes are appended to the output under every schedule |
| RioBuffered.Reader.constructor | hw5/src/csapp.c:838-843 | A fresh reader has the whole stream still to deliver |
| RioBuffered.Reader.Refill | hw5/src/csapp.c:806-821 | Refilling changes nothing of what is still to be delivered |
| RioBuffered.Reader.Read | hw5/src/csapp.c:806-831 | The next bytes, at most n, and none only at the end of the stream; the rest stays to be delivered |
| RioBuffered.ReadNB | hw5/src/csapp.c:850-865 | The next n bytes, or all there are, whatever the buffer holds and however the kernel splits its reads |
| RioBuffered.ReadLineB | hw5/src/csapp.c:872-894 | The next line as LineReadIs describes it, under every schedule, and the stream resumed just behind the line |
| RioBuffered.LineReadIs | hw5/src/csapp.c:872-894 | The line has at most maxlen - 1 bytes and ends at the first byte 10, there or with the stream; the buffer holds it and a NUL and is otherwise as it was, and is untouched at the end of the stream |
| RioBuffered.LineLengthOnly | hw5/src/csapp.c:872-894 | The length taken is the only one that ends at the first newline, at the limit or at the end of the stream and nowhere earlier |
| RioSession.Session | hw5/src/csapp.c:806-894 | Any interleaving of the two readers returns, under every schedule without failure, the pieces that the stream and the requests determine |
| RioSession.PiecesAreTheStream | hw5/src/csapp.c:806-894 | The pieces and what remains make up the stream: nothing lost, repeated or reordered |
| RioSession.SessionsJoin | hw5/src/csapp.c:806-894 | Reading on from where one session stopped gives what one long session would have given |
| Protocol.SendPacket | hw5/src/protocol.c:15-34 | The header and exactly 256 times octet 4 plus octet 5 bytes of data are sent, or -1 if a call can fail |
| Protocol.RecvPacket | hw5/src/protocol.c:36-50 | Header and payload of the next packet, the payload of 256 times octet 4 plus octet 5 bytes in new storage, its pointer untouched if both are zero; -1 exactly when nothing is left or no more than a header whose size field announces a payload, unless a call fails; a cut header or payload is otherwise accepted as it is |
| Protocol.WellFormedIff | hw5/src/protocol.c:15-50 | A packet is well formed if and only if its header has 16 octets, of which octet 4 is the length of the payload divided by 256 and octet 5 the remainder |
| Protocol.SendAll | hw5/src/protocol.c:15-34 | A list of packets sent one after another is its wire form |
| Protocol.ReceiveAll | hw5/src/protocol.c:36-50 | Receiving until -1 gives a prefix of the packets sent, and all of them unless a call can fail |
| Protocol.Converse | hw5/src/protocol.c:15-50 | Packets of up to 65535 bytes whose size octets hold the length, high one first, arrive as the identical list under every two schedules without failure, and then the end of the stream gives -1 |
| Protocol.WireInjective | hw5/src/protocol.c:15-34 | No two lists of packets look alike on the wire |
| Protocol.RecvCut | hw5/src/protocol.c:36-50 | Receiving from a stream that ends inside a packet returns 0 if and only if it ends inside the payload, or inside a header that, over zeroed storage, then seems to have size zero |
| Protocol.CutPacketAccepted | hw5/src/protocol.c:36-50 | Exactly when a stream that ends inside a packet is reported as a packet: inside the payload, or inside a header that then seems to have size zero, given zeroed header storage |
| Goertzel.Filter.constructor | hw1/src/goertzel.c:13-32 | A fresh filter has seen no sample |
| Goertzel.Filter.Step | hw1/src/goertzel.c:34-42 | The two state variables go on tracking the sum over all the samples seen |
| Goertzel.Filter.Measure | hw1/src/goertzel.c:44-90 | Twice the squared magnitude of the Fourier sum of all the samples, over N squared as a 32-bit word, although the intermediate value is conjugated |
| Goertzel.Block | hw1/src/goertzel.c:13-90 | Init, N - 1 steps and the strength call give that value for every signal of N samples |
| Goertzel.HornerIsFourier | hw1/src/goertzel.c:34-80 | What the recurrence tracks, turned by a power on the unit circle, is the Fourier sum |
| Goertzel.StrengthRightIff | hw1/src/goertzel.c:87-87 | For every signal the division yields the promised value if and only if there are fewer than 65536 samples, or the Fourier sum is zero and the wrapped square is not |
| Goertzel.LengthRightIff | hw1/src/goertzel.c:87-87 | A block length gives the promised value for every signal if and only if it is below 65536 |
| Goertzel.ImpulseHasStrength | hw1/src/goertzel.c:87-87 | At every length and frequency some signal has a non-zero Fourier sum, so the failure is real |
| Goertzel.StrengthBounded | hw1/src/goertzel.c:44-90 | Up to 65535 samples within M give a strength between 0 and 2 M squared |
| Goertzel.ToneStrength | hw1/src/goertzel.c:44-90 | Up to 65535 samples of a pure tone of whole half turns, at its own frequency, have half the square of the amplitude as their strength, whatever the phase |
| Getopt.Scanner.constructor | hw2/src/getopt.c:42-51 | The scanner starts at the first letter of word 1 |
| Getopt.Scanner.Letter | hw2/src/getopt.c:64-90 | The letter looked at gives its item, returned and stored as such, with the message for an illegal option or a missing argument spelled out, unless silenced, and the next position |
| Getopt.Scanner.Next | hw2/src/getopt.c:46-91 | EOF exactly between words at the end, at a word without a hyphen in front, at a lone hyphen or at the terminator, which alone is passed over; otherwise the first item of what the rest of the arguments says, with the position advanced lexicographically and never on the NUL of a word |
| Getopt.Scanner.All | hw2/src/getopt.c:46-91 | Called until EOF it reports all the items in order, writes exactly the messages due, and optind is where the operands begin |
| Getopt.KindIs | hw2/src/getopt.c:65-73 | A letter is illegal if it is a colon or not in the option string, and takes an argument exactly if a colon follows its first occurrence there |
| Getopt.StopsIs | hw2/src/getopt.c:54-61 | The words at which the options end |
| GetoptRenderings.DecodesRendering | hw2/src/getopt.c:46-91 | Every rendering decodes to its list of letters: grouped in any way, legal or illegal, arguments attached, separate or missing at the very end, ended by an operand, a lone hyphen, the end or the terminator; optind is then just behind the words and the terminator |
| GetoptRenderings.LettersAt | hw2/src/getopt.c:64-90 | Of a group of letters each legal one comes out as it is and each other as unknown, in its place |
| GetoptRenderings.EveryLineIsRendering | hw2/src/getopt.c:46-91 | Whatever the arguments are, they are such a rendering, and what is decoded is its list |
| GetoptRenderings.CleanIff | hw2/src/getopt.c:46-91 | A rendering decodes without error if and only if all its letters are legal and no argument is missing |
| GetoptRenderings.CleanIsRendering | hw2/src/getopt.c:46-91 | Arguments decoded without error are a faultless rendering of the options reported |
| GetoptRenderings.RenderingsAgree | hw2/src/getopt.c:46-91 | Two renderings of one list are decoded alike |
| GetoptRenderings.ScanRendering | hw2/src/getopt.c:46-91 | The scanner run on a rendering returns its letters and arguments one by one with a question mark for each fault, writes the messages for the faults and nothing else, and stops at the first operand |
| Rating.PostResult | hw5/src/player.c:78-120 | Both ratings are updated from the two old ones: half a point each for result 0, the first player wins for 1 and loses for anything else |
| Rating.ExpectationsAddUp | hw5/src/player.c:105-108 | With division toward zero the two expectations still add up to one, and both lie strictly between 0 and 1 |
| Rating.FavouriteIff | hw5/src/player.c:105-108 | More than half a game is expected of a player if and only if he is 400 points or more above, then at least 10/11, and less if and only if he is 400 or more below, then at most 1/11 |
| Rating.ExpectedGrows | hw5/src/player.c:105-108 | The expectation does not fall as a player's own rating grows |
| Rating.UpsetPoints | hw5/src/player.c:105-110 | When the updated value is not negative, a win gains at most 2 points from 400 or more above, at least 29 from 400 or more below and 16 in between; a loss costs at least 30, at most 3 and 16 |
| Rating.TruncateIs | hw5/src/player.c:109-110 | The conversion to int is toward zero |
| Rating.StepWhole | hw5/src/player.c:105-110 | A rating changes by a whole number before truncation if and only if the players are less than 400 points apart |
| Rating.GameDrift | hw5/src/player.c:105-110 | A game loses one point of the total if the players are 400 or more apart and both updated values are positive, gains one if both are negative, and conserves it otherwise |
| Rating.GameBounds | hw5/src/player.c:105-110 | A win gains 0 to 31, a loss costs 1 to 32 and a draw moves -16 to 15, when the updated value is not negative |
| Rating.RunDrift | hw5/src/player.c:78-120 | Over n games with no negative updated value the total falls by the number of games between players 400 or more apart, so it stays within n of where it was |
| Rating.PlayAll | hw5/src/player.c:78-120 | The same for player objects updated in place |
| Sio.SioReverse | hw5/src/csapp.c:227-236 | The characters before the NUL are reversed and the rest of the buffer stays |
| Sio.StoreDigits | hw5/src/csapp.c:247-249 | The digit loop stores the digits, last one first, and touches nothing behind them |
| Sio.SioLtoa | hw5/src/csapp.c:239-256 | The buffer holds the text of the number and a NUL, and is otherwise unchanged |
| Sio.RoundTripIff | hw5/src/csapp.c:239-256 | In every base from 2 to 36 the text reads back as the number if and only if it is not the least long |
| Sio.TextIs | hw5/src/csapp.c:239-256 | The text of a number is that of its quotient by the base, if any, and the character of the remainder among the digits and the small letters; a minus sign stands in front of a negative one |
| Sio.LeastText | hw5/src/csapp.c:239-256 | The least long comes out as a minus sign and a single character |
| Sio.NoLeadingZero | hw5/src/csapp.c:247-249 | The digits begin with a zero only for zero itself |
| Sio.TextFits | hw5/src/csapp.c:239-256 | 66 characters hold every long in every base |
| Audio.WriteWord | hw1/src/audio.c:149-165 | Four octets, most significant first |
| Audio.OctetsAre | hw1/src/audio.c:149-165 | The first of the four octets holds the highest eight bits, and so on down |
| Audio.ReadWord | hw1/src/audio.c:103-123 | The word at the read position, with all ones in place of missing octets |
| Audio.NoWord | hw1/src/audio.c:103-123 | Past the end of the file a word reads as 0x00FF00FF |
| Audio.WordRoundTrip | hw1/src/audio.c:103-165 | A word reads back as it was written |
| Audio.WriteHeader | hw1/src/audio.c:43-58 | The six words in order |
| Audio.ReadHeader | hw1/src/audio.c:10-41 | The six words, accepted exactly when valid, and then the annotation skipped |
| Audio.AcceptableIff | hw1/src/audio.c:125-147 | A header is accepted exactly with the magic number, an offset of at least 24, encoding 3, rate 8000 and one channel |
| Audio.ToSkipIs | hw1/src/audio.c:34-37 | What is skipped is the offset less 24, unless that is no positive int |
| Audio.Skip | hw1/src/audio.c:34-37 | As many octets as that are passed over, or all there are |
| Audio.HeaderRoundTrip | hw1/src/audio.c:10-58 | A header reads back as it was written, wherever it stands |
| Audio.WriteSample | hw1/src/audio.c:92-101 | Two octets, high one first |
| Audio.SampleOctetsAre | hw1/src/audio.c:92-101 | The first octet of a sample holds its high eight bits and the second the low ones |
| Audio.ReadSample | hw1/src/audio.c:61-91 | The sample if two octets are left; otherwise EOF, with -1 stored if none and nothing stored if one |
| Audio.SampleRoundTrip | hw1/src/audio.c:61-101 | All 65536 samples read back as they were written |
| Audio.ReadSamples | hw1/src/audio.c:61-101 | Reading until EOF gives exactly the samples written |
| DtmfGenerate.GetTxtIdx | hw1/src/dtmf.c:729-748 | The length of the leading digits and, with ints that wrap round, ten times their decimal value as an int, divided by ten |
| DtmfGenerate.MisreadIff | hw1/src/dtmf.c:729-748 | That is the decimal value if and only if ten times it is an int |
| DtmfGenerate.ParseLine | hw1/src/dtmf.c:113-119 | A line written for an event gives back its symbol, and its start and end as get_txt_idx reads them |
| DtmfGenerate.LineOfIs | hw1/src/dtmf.c:113-119 | The line of an event is its start, its end and its symbol in decimal and with tabs between them |
| DtmfGenerate.Generate | hw1/src/dtmf.c:65-188 | It succeeds exactly when the events are ordered and do not overlap, and then writes the header and samples of which sample i is the tone of the event holding i, or zero |
| DtmfGenerate.NewHeaderOctets | hw1/src/dtmf.c:80-87 | The octets of the header of a new file |
| DtmfGenerate.CountRightIff | hw1/src/dtmf.c:88-188 | The number of samples is the length asked for if and only if there is an event, the last one ends within the length and the length is below 2^30; without events it is one too many |
| DtmfGenerate.GenerateAndRead | hw1/src/dtmf.c:65-188 | The file generated reads back as its header and exactly length samples of the promised timeline |
| Dtmf.SampleOfEvent | hw1/src/dtmf.c:52-57 | In an ordered list an index lies in at most one event, and the promised sample is the tone of that event |
| Dtmf.OrderedIff | hw1/src/dtmf.c:122-140 | Events are ordered if and only if each ends no sooner than it starts and no later than every following one starts |
| Dtmf.SampleOfNone | hw1/src/dtmf.c:52-57 | Where no event holds the promised sample is zero |
| Dtmf.SwitchIsTable | hw1/src/dtmf.c:750-840 | The switch gives each symbol the row and column frequency of the table in dtmf_static.h |
| Dtmf.KeypadIs | hw1/src/dtmf.c:750-840 | The sixteen keys have the frequencies of their row and column on a telephone |

## Left out

Weaker or narrower than the code:

- Finddup.Finder.Run: where comp1 is no total ordering of the list, qsort promises nothing and neither does the model (FinddupLimits.FiveMissed is what may happen); where fullcmp errs on two files of one length and checksum, their group is not claimed.
- Finddup.Finder.Sort: how qsort works is not modelled, only that it leaves some ascending permutation when comp1 is a total ordering; one such permutation is computed by insertion.
- Finddup.Finder.ChecksumNeighbours: the entry that scan1 reads one past the end of the list counts as having a different length.
- SfMalloc.Allocator.Malloc: the arena is fixed, so the part of sf_malloc that asks for another page is the outcome MustGrow.
- SfMalloc.Allocator.Coalesce: neighbours come from the map of blocks, not from raw boundary tags, whose layout in the code departs from the one documented in sfmm.h.
- SfMalloc.Allocator.Free: the block must be live, so the pointer checks that abort, and double frees, are not modelled; a flush it makes must be safe, since link words after an unsafe one are not modelled (the block level, SfAlloc.Release, has no such bound).
- SfFlushIff.FlushIff: coalescing finds the free block before another in the map of blocks; line 367 of the code passes a previous footer that still carries the magic number, so that the block found there depends on that number.
- SfPointers.FreeLists.PutInFreeList: link words are array elements indexed by block address, and the next words of free lists and of quick lists are kept apart.
- SfQuickLists.QuickLists.Flush: the headers are marked free by SfMalloc.Allocator.MarkFree once all blocks are collected, and coalesced by SfMalloc.Allocator.CoalesceFlushed.
- RioBuffered.ReadLineB: the user buffer has room for the line that will be read and its NUL, which maxlen is meant to ensure.
- Protocol.SendPacket: the data pointer must cover as many bytes as the size field says.
- Goertzel.Filter.Measure: arithmetic is over exact reals, the angle is a pair of a cosine and a sine with squares adding up to one, and the angle times N - 1 is the power of that pair; N is at least one. Floating-point rounding is not modelled.
- Rating.PostResult: the powers and quotients are exact reals, ratings are unbounded integers, and the locks around single fields are dropped.
- Rating.StepWhole: in exact reals; with doubles an expectation too small to change a rating at a huge gap is lost.
- Rating.GameDrift: in exact reals likewise.
- DtmfGenerate.Generate: noise is not mixed in, the tone of a frequency pair at an index is a parameter, and lines are well formed with indices that get_txt_idx reads right (DtmfGenerate.MisreadIff); reading others overflows an int, which the language leaves undefined.
- DtmfGenerate.ParseLine: lines are well formed, since on a short line the code reads past its end.
- DtmfGenerate.GetTxtIdx: an overflowing int is taken to wrap round, as it does in practice.
- Sio.SioLtoa: negating the least long is taken to wrap round, as it does in practice; the language leaves it undefined.

Not modelled:

- hw2/src/finddup.c: opening and reading files, lstat and name lookup, static name buffers, growth of the list, options, progress messages and the wording of headers.
- hw2/src/crc32.c: two threads building the table at once.
- hw3/src/sfmm.c: sf_realloc, heap growth, and the header, footer and magic tags of blocks.
- hw1/src/dtmf.c: dtmf_detect, noise, and validargs with its string helpers.
- hw4/src/cli.c: processes, signals and log files.
- hw5/src/game.c, hw5/src/invitation.c, hw5/src/client_registry.c, hw5/src/player_registry.c, hw5/src/server.c: small finite states, registries and threads around an unseen client module.
- hw5/src/csapp.c: the wrappers for sockets, threads and signals.
