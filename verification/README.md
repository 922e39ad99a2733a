# A small UEFI kernel and its boot library, modelled and proved

This project models the parts of the repository that carry the most state and arithmetic:
the kernel's physical page allocator and four-level page-table builder, and, from the boot
library, the CRC-32 of EFI tables, the glob matcher, number conversion, the formatted-print
engine, device paths, 64-bit division, transactional protocol installation and the
grow-and-retry buffer loops.

Code that changes state step by step is a class or a method with loops, proved against a
function on values; what the code promises is then proved of that function.

| file | models |
|---|---|
| `Words.dfy` | machine words and wrap-around |
| `Bitmap.dfy` | the packed page bitmap, most significant bit first |
| `PageLedger.dfy`, `PageAllocator.dfy` | the allocator: bitmap and wrapping byte counters, over whole runs and as the object that is updated |
| `PageTables.dfy`, `PagingRuns.dfy`, `IdentityMap.dfy`, `TableFrames.dfy`, `Kernel.dfy`, `Addresses.dfy` | page tables in physical memory, the processor's walk, whole runs, ranges, the frames the tables take, `kmain` up to the load of cr3, and which byte an access to a linear address reaches |
| `Crc.dfy` | the table-driven CRC against a bit-serial register; setting and checking header fields |
| `Glob.dfy`, `GlobMeaning.dfy` | `MetaMatch` against the language of its patterns; what each metacharacter stands for |
| `Division.dfy`, `Numbers.dfy`, `Numerals.dfy` | `DivU64x32`; `xtoi`, `Atoi`, `ValueToHex`, `ValueToString`; which texts denote which numbers |
| `PrintFormat.dfy`, `PrintEngine.dfy`, `PrintMeaning.dfy` | a format rendered in one go; the buffered engine; what each conversion and option prints |
| `DevicePath.dfy` | byte-encoded node lists: splitting, joining, unpacking |
| `Handles.dfy`, `Pool.dfy` | all-or-nothing installation; who owns which buffer |

How to read the models:

- Physical memory is one 512-entry table for each of the 2^52 frame numbers the builder's entries
  can hold, so every address it writes through names some table. `Walk` is the processor's
  four-level walk (section 4.5 of the Intel SDM, volume 3A), which follows only frames that bits
  51:12 of an entry can name; `Translate` takes a linear address to its walk, and to nothing if it
  is not canonical. The proofs see the tables through `View`, one
  entry for each path of indices; `Tree` says that no two paths reach the same table, that every
  table is a marked frame, and that none is in `keep`, a set of frames that belong to someone else.
  `Kernel.TakenFrames` instantiates `keep` with every frame that is not free when paging is set up:
  the firmware's, the bitmap's own and the kernel image's.
- The functions that the code is proved against are tied to references that name no function or
  constant of theirs, with numbers and character codes written out: `Addresses`, `Numerals`,
  `GlobMeaning` and `PrintMeaning`, and in the other modules lemmas over descriptor types,
  addresses, bytes and known checksums.
- A pointer into a NUL-terminated text, or into a device path, is the text or the bytes that are
  left from there on. Reading past the end is a proof obligation.
- The firmware's answers (memory map, which allocations and installations it refuses, replies,
  existing handles) are arbitrary inputs, and results are stated in terms of them.

Where the code departs from its own comments, or from what one would expect, the code is followed:

- The bounds tests of the bitmap use `>`, so one byte behind the counted ones is read and written
  (`lib/uefi/bitmap.c:10`, `:27`). The model keeps that guard byte.
- `requestPage` returns NULL for page 0 and for exhaustion. When it is exhausted the builder takes
  frame 0 for a table; `SoundMapIffFramesSuffice` gives the exact condition.
- Identity mapping of n pages from 0 works exactly for n up to 2^35: addresses from 2^47 on are not
  canonical, and in the upper canonical half no entry can name the frame.
- The bitmap counts a few pages more than there is memory, and holes and memory-mapped I/O of the
  map stay clear: `requestPage` can grant them. `GrantsAreConventionalIffMapCovers` gives the exact
  condition, and `MapsAreNeverCovered` shows that no map with its bitmap inside its segment meets it,
  unless its sizes add up to 2^64 bytes.
- `kmain` locks the framebuffer only after the memory loop has taken its tables, so a table can lie
  on a framebuffer page; `TablesSpareFramebufferIffRoomBelow` gives the exact condition.
- `kmain` locks size / 4096 + 1 pages for its image. An image that does not start on a page can
  reach into one more; `KernelImageIsMarkedIffEndsInRange` gives the exact condition.
- A framebuffer whose end wraps past 2^64 is not mapped at all, and one whose loop counter wraps
  never ends; the latter is what `KMain` excludes.
- `DivU64x32` is commented to work for 31-bit divisors; it works exactly up to 2^31 itself.
- `u` is documented to print an unsigned number. With `l` it goes through `ValueToString`, which
  takes it as signed; `LongUnsignedIffBelow2Pow63` gives the exact condition.
- `UnicodeVSPrint` promises to truncate to its size; sizes 2 and 3 get no NUL, sizes 0 and 1 are
  both no limit.
- `AppendDevicePath` is commented to append its second path to every instance of the first. It
  copies the second path's own end node each time, so a reader finds the first instance alone:
  `ExtendsEachIffOnlyOne`. It also allocates one second path and a first path for each instance,
  which is enough only under the condition of `HasRoomIffSecondNoLonger`.
- `ValueToString` negates -2^63, which C leaves undefined; the negation is taken to wrap, as the
  processor's does.
- `DevicePathInstance` gives up on an instance after 513 nodes, and `UnpackDevicePath` stores
  length 0 for nodes longer than 65532 bytes; both are exact conditions.

## Model

| member | source | states |
|---|---|---|
| Bitmap.BitMap.GetVal | lib/uefi/bitmap.c:8-23 | reads the bit of an index, counted from the top of byte index / 8; indices past the guard byte read as clear |
| Bitmap.BitMap.SetVal | lib/uefi/bitmap.c:25-39 | changes exactly the one bit, and reports whether the index was in reach |
| Bitmap.WriteByte | lib/uefi/bitmap.c:32-37 | masking one bit in or out leaves the other seven of the byte alone |
| Bitmap.BitCountsFromTop | lib/uefi/bitmap.c:20-22 | bit k of a byte, as every proof sees it, is the byte shifted right by 7 - k |
| PageAllocator.MemDesc.LockPage | kernel/uefi/mem.c:76-87 | the packed bitmap and the counters move exactly as the ledger does when a page is locked |
| PageAllocator.MemDesc.ReservePage | kernel/uefi/mem.c:35-46 | the same for reserving a page |
| PageAllocator.MemDesc.FreePage | kernel/uefi/mem.c:63-74 | the same for freeing a page |
| PageAllocator.MemDesc.LockPages | kernel/uefi/mem.c:108-112 | the same for a range, addresses wrapping at 2^64 |
| PageAllocator.MemDesc.FreePages | kernel/uefi/mem.c:102-106 | the same for freeing a range |
| PageAllocator.MemDesc.RequestPage | kernel/uefi/mem.c:148-160 | the bitmap scan grants what the ledger grants and returns its address, NULL for nothing |
| PageLedger.RequestGrantsLowestClear | kernel/uefi/mem.c:148-160 | a grant is the lowest clear page and sets only its bit; it fails exactly when no page is clear |
| PageLedger.NullMeansFailureIffPageZeroTaken | kernel/uefi/mem.c:149-159 | the returned pointer tells failure from success if and only if page 0 is taken |
| PageLedger.RunKeepsAccounts | kernel/uefi/mem.c:35-112 | over every run of lock, reserve, free and request: free + used + reserved is the memory size, and used + reserved is 4096 for each set bit, both modulo 2^64 |
| PageLedger.UsedFollowsLocking | kernel/uefi/mem.c:63-87 | in runs without reserving, the reserved counter stands still and the used counter is 4096 for each set bit beyond it |
| PageLedger.CountedPagesAgreeIffGuardUnchanged | lib/uefi/bitmap.c:27-29 | the counters agree with the counted pages alone if and only if the guard byte has as many set bits as at first |
| PageLedger.GuardKeptUnlessNamed | lib/uefi/bitmap.c:25-39 | runs that never name a guard page leave its bit alone |
| PageLedger.RangeSetsExactlyItsPages | kernel/uefi/mem.c:89-112 | a range operation sets or clears the bits of its pages and no others |
| PageLedger.InRangeMeans | kernel/uefi/mem.c:89-112 | the pages of a range are the n from address / 4096 on, modulo 2^52 |
| PageLedger.RangeMovesBytes | kernel/uefi/mem.c:35-112 | a range operation moves 4096 bytes for each bit it changes between free and reserved if it reserves, and between free and used if it locks or frees, modulo 2^64 |
| PageLedger.NeverGrantedTwice | kernel/uefi/mem.c:148-160 | in any run a page is granted a second time only if it was freed in between |
| PageAllocator.MemDesc.GetMemSize | kernel/uefi/mem.c:204-213 | sums the map once, then repeats the first answer; hangs exactly on a type above 15 |
| PageAllocator.MemDesc.LargestSegment | kernel/uefi/mem.c:174-188 | finds the first largest segment of type 7 |
| PageAllocator.MemDesc.ReadEFIMemoryMap | kernel/uefi/mem.c:162-202 | the first call leaves the ledger of the memory map with the bitmap in the largest segment, and hangs exactly on a type above 15 met while no size is cached; later calls change nothing |
| PageAllocator.MapMarksExactly | kernel/uefi/mem.c:193-201 | after the first call a counted bit is set if and only if its page is owned by the firmware or holds the bitmap |
| PageAllocator.MarkedByType | kernel/uefi/mem.c:114-119 | by type number: a counted page is marked if and only if it lies in a descriptor of a type other than 7, 11 and 12 or is one of those locked for the bitmap; and a marked one is granted in no run that does not free it |
| PageAllocator.CountersByType | kernel/uefi/mem.c:189-201 | by type number: used is 4096 for each page newly locked for the bitmap, reserved 4096 for each other page in a descriptor of a type other than 7, 11 and 12, free the rest, modulo 2^64 |
| PageAllocator.BytesOfPages | kernel/uefi/mem.c:121-135 | the memory size is 4096 times the sum of all page counts, modulo 2^64 |
| PageAllocator.GrantsAreConventionalIffMapCovers | kernel/uefi/mem.c:114-119 | every grant of every run lies in conventional memory if and only if each counted page belongs to a conventional descriptor, the firmware or the bitmap |
| PageAllocator.MapsAreNeverCovered | kernel/uefi/mem.c:189-201 | whatever the map, if the bitmap fits its segment and the sizes stay below 2^64: a counted page that no descriptor has is clear, and some run is granted it |
| PageLedger.GrantsComeFrom | kernel/uefi/mem.c:148-160 | in any run a granted page was clear at the start or has been freed since |
| PageLedger.EveryClearPageIsGranted | kernel/uefi/mem.c:148-160 | requesting often enough grants every clear page |
| PageAllocator.BooksBalanceAfterMap | kernel/uefi/mem.c:189-201 | the accounts hold from that call on, over every later run |
| PageAllocator.BitmapStorageHoldsBitmap | kernel/uefi/mem.c:197-197 | the pages locked for the bitmap contain every byte of it and the guard byte |
| PageAllocator.BitmapBytesAreMarked | kernel/uefi/mem.c:191-197 | by addresses: the counted page of every byte of the bitmap and of the guard byte is marked |
| PageTables.TableForRefines | kernel/uefi/mem.c:230-241 | creating missing tables in memory is linking fresh frames on the way to the page, and the walk then reaches the table |
| PageTables.MapPageRefines | kernel/uefi/mem.c:243-260 | mapping in memory refines mapping on the one-entry-for-each-path view |
| PageTables.MapPageTranslates | kernel/uefi/mem.c:243-260 | with frames for the missing tables: the page's walk yields the given frame if bits 51:12 can name it, every other page's walk is unchanged, tables stay an unshared tree of marked frames, exactly the missing tables' frames are taken, and if every entry let writes through, every entry does |
| PagingRuns.SoundMapIffFramesSuffice | kernel/uefi/mem.c:230-260 | a mapping is sound if and only if the free frames suffice for the missing tables |
| PagingRuns.RunKeepsTree | kernel/uefi/mem.c:63-260 | in every state reached by mapping, requesting, locking, reserving and freeing non-tables, the tables are a tree of marked frames clear of the kept ones, and every present entry lets writes through |
| PagingRuns.RunTranslatesByLastMapping | kernel/uefi/mem.c:243-260 | after any such run each page translates as its own last mapping said |
| PagingRuns.HeldFrameNeverBecomesTable | kernel/uefi/mem.c:230-241 | a frame someone holds is never taken for a table |
| IdentityMap.MapRangeTranslates | kernel/uefi/kernel.c:56-69 | a mapped range translates to itself, every other page is left alone, and from an empty root it takes exactly one frame for each block of 512, 512^2 and 512^3 pages met |
| IdentityMap.TablesForFromZero | kernel/uefi/kernel.c:56-61 | for n pages from 0 that is ceil(n/512) + ceil(n/512^2) + ceil(n/512^3) frames |
| IdentityMap.IdentityIffWithin47Bits | kernel/uefi/kernel.c:56-61 | with frames enough, the first n pages all translate to themselves if and only if n is at most 2^35 |
| IdentityMap.NoIdentityBeyond47Bits | kernel/uefi/mem.c:215-224 | whatever the tables hold, no page number from 2^35 on translates to itself |
| TableFrames.TakenIffFewBelow | kernel/uefi/mem.c:148-160 | of frames taken from below, a clear frame is one if and only if fewer frames below it are clear than were taken |
| TableFrames.MapRangeFills | kernel/uefi/mem.c:230-260 | mapping a range makes tables of exactly the frames it takes, and takes the lowest clear ones |
| Kernel.InitPageMapIndexer | kernel/uefi/mem.c:215-224 | the four indices spell the page number modulo 2^36 |
| Kernel.PageTableManager.GetNextPageTable | kernel/uefi/mem.c:230-241 | memory and allocator change exactly as the value model's next-table step |
| Kernel.PageTableManager.MapMemory | kernel/uefi/mem.c:243-260 | memory and allocator change exactly as the value model's mapping |
| Kernel.MapAllMemory | kernel/uefi/kernel.c:56-61 | the memory loop maps the pages below the memory size in order |
| Kernel.MapFramebuffer | kernel/uefi/kernel.c:63-69 | locks, then maps, the framebuffer's pages, up to a bound that may wrap |
| Kernel.KMain | kernel/uefi/kernel.c:30-71 | memory map, kernel image, root table, both loops: the machine ends as `Booted` says, or never gets there on a bad memory type |
| Kernel.BootMapsIdentity | kernel/uefi/kernel.c:51-71 | when cr3 is loaded, and all of it lies below 2^47, every page of memory and framebuffer translates to itself, nothing else translates, every present entry lets writes through, and the tables are a tree clear of the kept frames |
| Kernel.BootIsIdentityIffBelow2Pow47 | kernel/uefi/kernel.c:51-71 | given the frames, all that is mapped translates to itself if and only if it lies below 2^47 |
| Kernel.KernelBootMapsIdentity | kernel/uefi/kernel.c:30-71 | the same from the firmware's memory map on; no table lies on a firmware page, on the bitmap or on the kernel image |
| Kernel.BootLedgerMarks | kernel/uefi/kernel.c:35-42 | when paging is set up the marked pages are exactly those three |
| Kernel.KernelImageIsMarked | kernel/uefi/kernel.c:38-43 | by addresses: the counted page of every byte of a kernel image is marked when paging is set up, if the image ends in range, as it does when it starts on a page |
| Kernel.KernelImageIsMarkedIffEndsInRange | kernel/uefi/kernel.c:38-43 | that is exact: where the map left the image's last page clear, all of its pages are marked if and only if (start mod 4096) + (size mod 4096) is at most 4096 |
| Kernel.TablesSpareWhatIsHeld | kernel/uefi/kernel.c:30-71 | from the firmware's map to cr3, by type numbers and addresses: no table lies in a descriptor of a type other than 7, 11 and 12, on the bitmap, or on a page with a byte of a kernel image that ends in range |
| Kernel.TablesSpareFramebufferIffRoomBelow | kernel/uefi/kernel.c:51-69 | no table lies on a locked framebuffer page if and only if each such page that was clear has clear frames below it for the root and all of the memory loop's tables |
| Kernel.MemoryLoopMapsIdentity | kernel/uefi/kernel.c:51-61 | after the memory loop exactly the pages below the memory size translate, with the frames taken counted exactly |
| Kernel.FramebufferBytesAreMapped | kernel/uefi/kernel.c:64-66 | every byte of the framebuffer lies in the mapped range |
| Kernel.FramebufferIsMarked | kernel/uefi/kernel.c:64-66 | every page that holds a byte of the framebuffer is taken when cr3 is loaded |
| Addresses.ReachesIsTranslate | kernel/uefi/mem.c:215-224 | the processor's four lookups, by bits 47:39, 38:30, 29:21 and 20:12 of a linear address, reach the frame the model translates its page to, at the same offset |
| Addresses.WritesFollowReads | kernel/uefi/mem.c:236-257 | where every present entry lets writes through, a write reaches what a read reaches |
| Addresses.MapMemoryReaches | kernel/uefi/mem.c:243-260 | after a mapping, reads and writes at addresses of the given page reach the given frame if bits 51:12 can name it, and all others reach what they did |
| Addresses.BootReaches | kernel/uefi/kernel.c:30-71 | from the firmware's map to cr3, all of it below 2^47: every byte of memory and of the framebuffer is read and written at its own address, and outside of their pages nothing is |
| Crc.CrcTable | boot/uefi/gnu-efi/lib/crc.c:22-66 | each of the 256 constants is its index shifted eight times by the polynomial register |
| Crc.CalculateCrc | boot/uefi/gnu-efi/lib/crc.c:201-218 | the table loop computes the bit-at-a-time CRC-32 of every message |
| Crc.CheckValue | boot/uefi/gnu-efi/lib/crc.c:201-218 | the checksum of the text "123456789" is 0xCBF43926 |
| Crc.OnesThenZeros | boot/uefi/gnu-efi/lib/crc.c:210-210 | the checksum of four bytes 0xFF with any number of zero bytes behind is 0xFFFFFFFF, which pins the starting register |
| Crc.ChecksumBehindGivesResidue | boot/uefi/gnu-efi/lib/crc.c:216-216 | every message with its own checksum behind it, least significant byte first, has the checksum 0x2144DF1C, which pins the final complement |
| Crc.Turn | boot/uefi/gnu-efi/lib/crc.c:209-215 | a turn on the 64-bit accumulator feeds one byte and stays below 2^32 |
| Crc.BurstChangesCrc | boot/uefi/gnu-efi/lib/crc.c:201-218 | messages that differ in at most four neighbouring bytes, whatever their length, have different checksums |
| Crc.RegistersStayApart | boot/uefi/gnu-efi/lib/crc.c:209-215 | the register step is injective in the state |
| Crc.SetCrcAltSize | boot/uefi/gnu-efi/lib/crc.c:93-116 | stores the checksum taken with a zero field and changes no other byte |
| Crc.SetCrc | boot/uefi/gnu-efi/lib/crc.c:70-91 | the same for the size the header gives |
| Crc.CheckCrcAltSize | boot/uefi/gnu-efi/lib/crc.c:146-198 | leaves every byte as it was, and answers for size 0, size limit and checksum |
| Crc.CheckCrc | boot/uefi/gnu-efi/lib/crc.c:119-141 | the same for the size the header gives |
| Crc.HeaderFields | boot/uefi/gnu-efi/lib/crc.c:90-115 | the size is read from bytes 12 to 15 and the checksum kept in bytes 16 to 19, least significant first |
| Crc.PassesMeans | boot/uefi/gnu-efi/lib/crc.c:172-197 | by byte numbers: the check passes if and only if the size is not 0 and within a limit that is not 0, and bytes 16 to 19 hold the checksum of the covered bytes with those four zero |
| Crc.SetThenCheckPasses | boot/uefi/gnu-efi/lib/crc.c:93-198 | what was set passes the check of the same size |
| Crc.BurstIsDetected | boot/uefi/gnu-efi/lib/crc.c:146-198 | a change to at most four neighbouring bytes, all in the CRC field or all covered and outside it, makes the check fail |
| Crc.AnyChangedByteIsDetected | boot/uefi/gnu-efi/lib/crc.c:146-198 | changing any one covered byte makes the check fail |
| Glob.MetaMatch | boot/uefi/gnu-efi/lib/str.c:325-409 | TRUE if and only if the string splits into pieces that the pattern's tokens take; it terminates, and stays inside both texts unless an unclosed class meets a character that it does not turn away |
| Glob.MatchClass | boot/uefi/gnu-efi/lib/str.c:360-397 | a bracket class lets a character in if and only if some position of its body does, and a match resumes behind the bracket |
| Glob.MatchStar | boot/uefi/gnu-efi/lib/str.c:342-350 | the star case is the existence of a place from which the rest matches |
| Glob.OneCharacter | boot/uefi/gnu-efi/lib/str.c:353-405 | any token but the star takes exactly one character of the string |
| GlobMeaning.ClassMeans | boot/uefi/gnu-efi/lib/str.c:367-388 | a class body written from single characters and ranges lo-hi lets a character in if and only if it is one of the singles, or in one of the ranges, or an end of one |
| GlobMeaning.BracketsMean | boot/uefi/gnu-efi/lib/str.c:360-397 | 0x5B, such a body and 0x5D match any one character that the body lists, and the rest matches behind it |
| GlobMeaning.LeadingDash | boot/uefi/gnu-efi/lib/str.c:366-382 | a dash in front opens a range from 0 |
| GlobMeaning.TrailingDash | boot/uefi/gnu-efi/lib/str.c:372-377 | a dash at the end stands for nothing |
| GlobMeaning.StarMeans | boot/uefi/gnu-efi/lib/str.c:342-350 | 0x2A matches any run of characters |
| GlobMeaning.QuestionMeans | boot/uefi/gnu-efi/lib/str.c:352-358 | 0x3F matches any one character |
| GlobMeaning.LiteralMeans | boot/uefi/gnu-efi/lib/str.c:399-406 | any other character matches itself |
| GlobMeaning.PlainPatternMatchesItself | boot/uefi/gnu-efi/lib/str.c:325-409 | a pattern without 0x2A, 0x3F and 0x5B matches itself and nothing else |
| Numbers.Xtoi | boot/uefi/gnu-efi/lib/str.c:267-296 | the value modulo 2^64 of the hexadecimal digits behind leading spaces |
| Numbers.Atoi | boot/uefi/gnu-efi/lib/str.c:298-323 | the same in decimal |
| Numbers.ValueToHex | boot/uefi/gnu-efi/lib/print.c:1318-1346 | writes the number's hexadecimal digits without leading zeros, and a NUL |
| Numbers.ValueToString | boot/uefi/gnu-efi/lib/print.c:1349-1392 | writes sign, decimal digits, commas if asked for, and a NUL |
| Numbers.XtoiUndoesValueToHex | boot/uefi/gnu-efi/lib/print.c:1318-1346 | reading back what was printed gives the number, for all 64-bit values |
| Numbers.AtoiUndoesValueToString | boot/uefi/gnu-efi/lib/print.c:1349-1392 | the same in decimal below 2^63 |
| Numbers.AtoiReadsFirstGroup | boot/uefi/gnu-efi/lib/print.c:1379-1391 | with commas reading back yields the first group of digits, and so the number if and only if it is below 1000 |
| Numbers.NumeralsReadBack | boot/uefi/gnu-efi/lib/str.c:267-323 | reading stops at the first character behind a numeral that is no digit, and yields the number |
| Numbers.DigitsMeanTheNumber | boot/uefi/gnu-efi/lib/print.c:1336-1343 | the digits peeled off are those of the number, without leading zeros |
| Numbers.GroupingOnlyAddsCommas | boot/uefi/gnu-efi/lib/print.c:1379-1391 | without its commas the grouped output is the plain digits |
| Numbers.CommasEveryFourth | boot/uefi/gnu-efi/lib/print.c:1379-1391 | commas stand exactly before every third digit from the right |
| Numerals.AtoiReads | boot/uefi/gnu-efi/lib/str.c:298-323 | by character codes: behind any number of blanks, the decimal digits up to the first other character, modulo 2^64 |
| Numerals.XtoiReads | boot/uefi/gnu-efi/lib/str.c:267-296 | the same for hexadecimal digits, in capitals or small letters |
| Numerals.HexadecimalPrinted | boot/uefi/gnu-efi/lib/print.c:1318-1346 | by character codes: the hexadecimal numeral of the number, in capitals, without leading zeros |
| Numerals.IntegerPrinted | boot/uefi/gnu-efi/lib/print.c:1349-1392 | by character codes: a minus sign exactly for a negative number, then the decimal numeral of its magnitude, with commas before every third digit from the right if asked for |
| Division.DivU64x32 | boot/uefi/gnu-efi/lib/ia32/math.c:134-199 | the 64-turn loop, word by word; for divisors up to 2^31 it gives quotient and remainder |
| Division.RightIffNothingLost | boot/uefi/gnu-efi/lib/ia32/math.c:156-194 | on every input the result is right if and only if no turn shifts a bit out of the remainder; otherwise the quotient is too small |
| Division.WrongIffLargeRemainder | boot/uefi/gnu-efi/lib/ia32/math.c:156-194 | in terms of the input alone: it is wrong if and only if some dividend / 2^n with 0 < n < 64 leaves a remainder of 2^31 or more |
| Division.SafeDivisorsAreUpTo2Pow31 | boot/uefi/gnu-efi/lib/ia32/math.c:140-151 | a divisor works for every dividend if and only if it is at most 2^31 |
| Division.StepMeans | boot/uefi/gnu-efi/lib/ia32/math.c:159-171 | the shift-and-rotate instructions double remainder and dividend as one number, less the lost bit |
| PrintFormat.FieldShape | boot/uefi/gnu-efi/lib/print.c:973-1029 | a field is its text, cut to the field width, with only fill around it, in exactly the larger width |
| PrintMeaning.DirectiveMeans | boot/uefi/gnu-efi/lib/print.c:1039-1307 | by character codes, for every conversion, all its flags, widths and field widths, and every argument: the text is the two's-complement integer for d, the unsigned one for u without l, the hexadecimal numeral for x and X, the character, the text or its replacement, cut, padded and placed as the options say, and the rest of the format follows |
| PrintMeaning.PlainMeans | boot/uefi/gnu-efi/lib/print.c:1093-1101 | any character but the percent sign prints itself, a newline with a carriage return in front |
| PrintMeaning.FixedHexadecimalIsFilled | boot/uefi/gnu-efi/lib/print.c:1190-1195 | X prints exactly 8 digits, or 16 with l, zeros in front |
| PrintMeaning.LongUnsignedIffBelow2Pow63 | boot/uefi/gnu-efi/lib/print.c:1211-1218 | u with l prints its word as an unsigned number if and only if it is below 2^63 |
| PrintEngine.PrintState.PItem | boot/uefi/gnu-efi/lib/print.c:973-1029 | puts out exactly the field, whatever flushes fall into it |
| PrintEngine.PrintState.PPutc | boot/uefi/gnu-efi/lib/print.c:935-954 | puts out the character, a carriage return before a newline, and flushes at 199 characters without losing any |
| PrintEngine.PrintState.PFlush | boot/uefi/gnu-efi/lib/print.c:904-915 | hands over everything buffered, exactly once |
| PrintEngine.PrintState.TakeOption | boot/uefi/gnu-efi/lib/print.c:1117-1163 | flags, widths and width arguments leave the rest of the conversion meaning the same, whatever is flushed |
| PrintEngine.PrintState.Conversion | boot/uefi/gnu-efi/lib/print.c:1102-1307 | puts out the field of the conversion and goes on behind it |
| PrintEngine.PrintState.Print | boot/uefi/gnu-efi/lib/print.c:1033-1313 | the output function has received exactly the one-shot rendering of the format |
| PrintEngine.PoolPrint.SPrint | boot/uefi/gnu-efi/lib/print.c:313-352 | appends as much as fits and terminates the text |
| PrintEngine.PoolPrint.GrowAndPrint | boot/uefi/gnu-efi/lib/print.c:355-397 | memory, size and number of allocations become exactly those of the growing buffer on values |
| PrintEngine.GrowthKeepsTheRest | boot/uefi/gnu-efi/lib/print.c:355-397 | that buffer holds exactly the text behind the last refused allocation, and is gone only if that was the last |
| PrintEngine.NothingLostIfGranted | boot/uefi/gnu-efi/lib/print.c:355-397 | no text is lost unless an allocation it asked for was refused |
| PrintEngine.UnicodeVSPrint | boot/uefi/gnu-efi/lib/print.c:423-463 | the first min(total, size/2 - 1) characters of the one-shot output and a NUL; sizes 2 and 3 write nothing |
| PrintEngine.VPoolPrint | boot/uefi/gnu-efi/lib/print.c:503-532 | what the growing buffer makes of some cutting of the one-shot output into flushes: all of it and a NUL if every allocation asked for was granted, NULL only if the last was refused |
| DevicePath.ParseUndoesEncoding | boot/uefi/gnu-efi/inc/efidevp.h:50-58 | the node macros read back exactly the node list that was encoded |
| DevicePath.NodeBytes | boot/uefi/gnu-efi/inc/efidevp.h:26-57 | by byte numbers: type, subtype and the length, low byte first, of a node; it ends an instance if and only if its type is 0x7F or 0xFF, and the path if and only if its subtype is 0xFF too |
| DevicePath.EndBytes | boot/uefi/gnu-efi/inc/efidevp.h:66-71 | the two end nodes are 7F FF 04 00 and 7F 01 04 00 |
| DevicePath.DevicePathInstance | boot/uefi/gnu-efi/lib/dpath.c:48-105 | the instance's size and the position behind it, given up after 513 nodes |
| DevicePath.DevicePathInstanceCount | boot/uefi/gnu-efi/lib/dpath.c:108-121 | the number of instances the iteration yields |
| DevicePath.IterationYieldsInstancesIffShort | boot/uefi/gnu-efi/lib/dpath.c:48-105 | iterating yields exactly the instances, in order, if and only if none has more than 513 nodes |
| DevicePath.DevicePathSize | boot/uefi/gnu-efi/lib/dpath.c:286-307 | the number of bytes of the whole path |
| DevicePath.SizesAddUp | boot/uefi/gnu-efi/lib/dpath.c:286-307 | that is the instances' sizes and one end node for each |
| DevicePath.AppendDevicePathInstance | boot/uefi/gnu-efi/lib/dpath.c:397-433 | fills its allocation with the joined path |
| DevicePath.JoinedInstances | boot/uefi/gnu-efi/lib/dpath.c:397-433 | the joined path's instances are those of the first, then those of the second |
| DevicePath.AppendDevicePath | boot/uefi/gnu-efi/lib/dpath.c:124-194 | the block's bytes for any first path: each instance, all of the second path, an instance end, the last of them turned into the end; it shows the first instance followed by the second path, and with one instance it is filled |
| DevicePath.ExtendsEachIffOnlyOne | boot/uefi/gnu-efi/lib/dpath.c:124-194 | the block reads back as every instance extended by the second path if and only if there is one instance |
| DevicePath.HasRoomIffSecondNoLonger | boot/uefi/gnu-efi/lib/dpath.c:162-167 | the block holds the copies if there is one instance or the second path is no longer than the first, and only then if no instance has more than 513 nodes |
| DevicePath.AppendDevicePathNode | boot/uefi/gnu-efi/lib/dpath.c:197-230 | shows the first instance with the node behind it, before the end |
| DevicePath.AppendingIsAssociative | boot/uefi/gnu-efi/lib/dpath.c:124-194 | appending is associative on node lists, and the result is again a path of one instance that is iterated whole if and only if it has at most 513 nodes |
| DevicePath.UnpackDevicePath | boot/uefi/gnu-efi/lib/dpath.c:336-394 | both passes agree on the size, and the block holds the padded, marked nodes |
| DevicePath.UnpackedBytes | boot/uefi/gnu-efi/lib/dpath.c:374-390 | by byte numbers: what is written for a node, its length modulo 2^16 |
| DevicePath.SizeByOne | boot/uefi/gnu-efi/lib/dpath.c:350-359 | aligning the running total adds up to aligning each node |
| DevicePath.UnpackingKeepsContents | boot/uefi/gnu-efi/lib/dpath.c:377-383 | the type gets bit 0x80, subtype and payload are kept, fewer than four zero bytes are added, and the whole is a multiple of four bytes long |
| DevicePath.UnpackingIsIdempotent | boot/uefi/gnu-efi/lib/dpath.c:336-394 | unpacking an unpacked path changes no byte |
| DevicePath.UnpackedParsesIffNodesFit | boot/uefi/gnu-efi/lib/dpath.c:381-381 | the result reads back as the unpacked nodes if and only if each is at most 65532 bytes long |
| Handles.LibInstallProtocolInterfaces | boot/uefi/gnu-efi/lib/hand.c:437-517 | all listed interfaces are on the handle and nothing else changed, or database and handle are as before; it fails if and only if the list does not fit the handle or the firmware refuses a call, and then with the status of the first call that failed, which was the last one made; calls are made at priority 16, and the priority is restored |
| Handles.UndoingFirst | boot/uefi/gnu-efi/lib/hand.c:496-508 | removing the first listed interface is never having listed it |
| Handles.WithAllOnlyAdds | boot/uefi/gnu-efi/lib/hand.c:469-490 | for a new list: afterwards the handle has each listed protocol with its listed interface, every other protocol and every other handle is as before |
| Handles.AddedValues | boot/uefi/gnu-efi/lib/hand.c:469-490 | every listed interface is on the handle afterwards |
| Pool.GrowBuffer | boot/uefi/gnu-efi/lib/misc.c:131-200 | exactly when it allocates, retries, reports out of resources or ends, and that every buffer but the held one has been released once |
| Pool.RetryLoop | boot/uefi/gnu-efi/lib/misc.c:217-231 | for every list of replies and every choice of refused allocations: the exact outcome, exactly how many allocations are made and of which sizes, and a buffer of the last size left exactly when the status is no error |
| Pool.LibLocateHandle | boot/uefi/gnu-efi/lib/hand.c:57-102 | status and handle count of the first answer, zero on an error, with exactly the allocations asked for and nothing leaked |
| Pool.LibMemoryMap | boot/uefi/gnu-efi/lib/misc.c:203-240 | the entry count of the first answer, with exactly the allocations asked for and nothing leaked |
| Pool.EachReleasedOnce | boot/uefi/gnu-efi/lib/misc.c:131-200 | each buffer a loop was granted is released exactly once, except the one it returns |

## Left out

- Kernel.KMain: a framebuffer whose loop counter wraps past 2^64 is excluded, because the loop does not end; port I/O, console output and the load of cr3 itself are left out.
- Kernel.PageTableManager.MapMemory: a granted hole or memory-mapped I/O frame takes writes like memory here, and the bitmap's bytes are an array of their own; that tables never fall on the bitmap's frames is proved through the kept frames.
- PagingRuns.RunKeepsTree: callers must not free frames that are tables or are kept for someone else.
- Crc.BurstIsDetected: windows that lie partly in the CRC field are not covered, because stored and computed checksum then change together.
- Glob.MetaMatch: patterns with an unclosed bracket class that some character of the string gets to are excluded, unless the class ends in a dash and lets the character in nowhere; in all the excluded cases the code reads past the terminator.
- PrintFormat.FieldShape: the texts of GUID, device path, float, time and status conversions are inputs; the attribute letters only flush, as they do for string output.
- PrintEngine.UnicodeVSPrint: formats that end inside a conversion or lack an argument are excluded, the code reading past their end; each argument is a 64-bit slot that is read as the conversion asks.
- PrintEngine.PoolPrint.SPrint: the memory behind `str` is a field holding its contents, so aliasing with the format or the arguments is not captured.
- DevicePath.AppendDevicePath: first paths whose copies do not fit the block allocated for them are excluded (`HasRoom`), because the code writes behind it.
- DevicePath.AppendDevicePathNode: the same first paths are excluded.
- DevicePath.AppendDevicePathInstance: allocation is taken to succeed here and in the other path constructors; a failure is returned as NULL or not checked.
- Handles.LibInstallProtocolInterfaces: uninstalling an interface that was just installed at the raised priority is taken to succeed, as section 6.3 of UEFI 2.3 has it.
- Pool.RetryLoop: a firmware that always asks for more memory leaves the loop unfinished.
- Large pages are honoured by the walk but never built; caching, the user and no-execute rights and the translation cache are not modelled.
- PrintMeaning.DirectiveMeans: covers conversions whose flags stand before the width or, but for the zero, behind the field width; other orders are covered by PrintEngine.PrintState.Print alone. Texts are taken to be shorter than 2^64 - 1 characters (`Storable`).
- Console drawing, keyboard, interrupts, GDT and IDT, `Rt*` helpers, GUID and error tables, `LibReinstallProtocolInterfaces`, `ValidMBR`: easy members or firmware calls.
