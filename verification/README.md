# LensorOS and gnu-efi: models of the algorithmic core

Dafny models of the parts of the LensorOS kernel and of its UEFI boot library that carry real invariants, with
proofs of what each part is for. The models take the form of the code: buffers are arrays, objects with
state are classes, loops are loops with invariants; the HPET protocol is a state machine over the steps of
its threads and its device. `dafny verify dfyconfig.toml` checks the whole project.

| file | component |
|---|---|
| `UserStack.dfy`, `ElfLoader.dfy` | building a process image from an ELF file, and the argc/argv/envp block of section 3.4.1 of the System V ABI AMD64 supplement |
| `Print.dfy`, `PrintFormat.dfy`, `PrintDirectives.dfy`, `Numbers.dfy` | formatted printing into a string, what each directive prints, and numbers to text and back |
| `DevicePath.dfy` | UEFI device paths (section 9.3 of UEFI 2.4) |
| `Crc.dfy` | CRC-32 (section 8 of RFC 1952) and the table headers it protects |
| `Glob.dfy` | wildcard matching |
| `Links.dfy` | intrusive circular lists |
| `Renderer.dfy` | the double-buffered renderer |
| `Hpet.dfy` | reading and writing a 64-bit counter in halves (section 2.4.7 of the IA-PC HPET specification 1.0a) |
| `RingBuffers.dfy`, `Events.dfy` | event queues and their delivery |
| `Relocate.dfy` | the two self-relocators |
| `FatGeometry.dfy` | the layout of a FAT volume |
| `Bytes.dfy`, `Basics.dfy` | little-endian words, and what several modules share |

## Main results

- Through its finished page table a process reads the file's bytes and zeros wherever a segment has the page to itself
  and the stack does not cover it, and finds on its stack exactly the arguments and the environment it was given
  (`ElfLoader.LoadProcess`, `UserStack.Stack.Build`).
- Printing through the 200-character chunk buffer, into a bounded or a regrowing string, is the plain
  recursive rendering of the format (`Print.State.Run`, `Print.VSPrint`, `Print.CatPrint`), and of any directive that
  rendering is given place by place (`PrintDirectives.DirectiveMeaning`).
- Unpacking, splitting, counting and joining device paths are the operations on the abstract path that the
  bytes encode, and at most one path can be read from given bytes (`DevicePath.PathUnique`).
- The CRC table is the bitwise division for all 256 entries. A changed table passes its check if and only if the
  change of the CRC field is what the change of the other bytes makes of a zero register (`Crc.ChangePasses`); so every
  change is found that lies within four adjacent checked bytes wholly outside the field (`Crc.BurstDetected`) or wholly
  inside it (`Crc.FieldChangeDetected`).
- The backtracking matcher decides a declarative language (`Glob.MetaMatch`).
- Whole runs: lists (`Links.Run`), renderer (`Renderer.Run`, `Renderer.Shown`, `Renderer.ShownAtOnce`), counter
  (`Hpet.GetIsExact`), event delivery (`Events.NothingLostOrReordered`, `Events.Run`).

## Where the code does not do what its comments or names promise

Each has its exact condition proved, most with a concrete case beside it.

- `DevicePathInstance` gives up inside an instance of more than 513 nodes (`DevicePath.CutOfPath`): repeated calls give
  the instances of a path if and only if none is longer (`DevicePath.PartsOfPath`).
- Four adjacent changed bytes are not always found: across the edge of the CRC field there is a change that every
  24-byte header passes with (`Crc.StraddlingBurstPasses`).
- `AppendDevicePath` promises Src2 after every instance of Src1; the result is that path if and only if Src1 has one
  instance of at most 513 nodes (`DevicePath.AppendMeetsDocumentation`). What it writes fits its allocation if and only if
  the bytes of Src1 that the walk skips make up for the length by which Src2 exceeds Src1, once for each piece but one
  (`DevicePath.AllocationSuffices`); within the node guard that is: Src1 has one instance or is at least as long as Src2
  (`DevicePath.AllocationWithinGuard`).
- The bytes `UnpackDevicePath` writes can be read as a path, any at all, if and only if no node is longer than 65532
  bytes (`DevicePath.UnpackedReadable`).
- `%lu` prints the unsigned value if and only if it is below 2^63 (`PrintFormat.UnsignedDecimal`).
- `VSPrint` takes a size of 1 byte, like the documented 0, for no limit, and for a buffer of one character it writes
  nothing at all, not even the terminator (`Print.VSPrint`, through `Print.MaxLength`).
- `SwapListEntries` breaks the ring if and only if Entry2 already stands directly before Entry1, or the two are one entry
  of a ring with others (`Links.SwapListEntries`).
- A 64-bit counter write is exact if nobody restarts the counter between the call's own stop and its lock
  (`Hpet.Undisturbed`), which is when it is stopped as the lock is taken (`Hpet.LockAfterStop`). If it is running, the
  value can be missed if and only if the counter with its new low half is not at its very last value
  (`Hpet.SetCanMiss`).
- A full ring buffer drops its oldest element if and only if its head is at neither end of the array
  (`RingBuffers.RingBuffer.PushBack`).
- `register_listener` adds a process only if it is already listed, so the listener lists stay empty in every run
  (`Events.Manager.RegisterListener`, `Events.Run`).
- `clear` of a rectangle writes the screen and not the target buffer, so the buffers agree afterwards if and only if they
  are one buffer or the target showed the colour there already (`Renderer.ClearDisagrees`).
- `drawbmp` follows the bits of its bitmap in a line if and only if the line starts on a byte (`Renderer.BitmapLines`).
- Cluster numbers stay inside a FAT volume if and only if the volume reaches its own data region; otherwise a
  subtraction wraps around (`FatGeometry.ClustersInside`).
- Whether a segment may be executed is recorded and never enforced: headers that differ only in PF_X give the same page
  table, and no no-execute bit is ever set (`ElfLoader.ExecuteIgnored`, `ElfLoader.DataCanExecute`).
- The ABI puts an auxiliary vector behind envp, and the loader writes none. Where it would begin, a reader finds its
  terminator if the number of strings is even, and the bytes of a string if it is odd (`UserStack.Stack.Build`,
  `UserStack.StringIsNoTerminator`).
- The four stack pages are mapped over whatever segment has their addresses, and the process then reads the stack there
  (`ElfLoader.SegmentBesideStack`, `ElfLoader.StackHidesSegment`).
- A replacement that fails has already taken the old image down; the process keeps its old registers
  (`ElfLoader.ReplaceProcess`).
- A segment that starts in the page where an earlier one ends replaces that page: the earlier bytes read as zero
  (`ElfLoader.SharedPageZeroed`).

## Model

| member | source | states |
|---|---|---|
| UserStack.Stack.PushString | kernel/src/elf_loader.h:230-250 | a string is copied with its NUL to the bottom of a block whose size is a multiple of 16; no byte above or below the block changes |
| UserStack.Stack.PushStrings | kernel/src/elf_loader.h:230-250 | all strings stand where the recorded addresses say; none overwrites another |
| UserStack.Stack.PushAlignment | kernel/src/elf_loader.h:252-258 | the extra word is there exactly when the number of slots is odd, and touches nothing else |
| UserStack.Stack.PushWord | kernel/src/elf_loader.h:260-285 | one 64-bit word below the old top, everything else unchanged |
| UserStack.Stack.PushPointers | kernel/src/elf_loader.h:260-285 | pushed in reverse, the pointers read upward in order |
| UserStack.Stack.PushTerminated | kernel/src/elf_loader.h:260-280 | the same, with a NULL behind them |
| UserStack.Stack.PushVectors | kernel/src/elf_loader.h:252-285 | argc, argv, NULL, envp, NULL lie one behind the other from the final stack pointer on |
| UserStack.ParseLaid | kernel/src/elf_loader.h:217-285 | a reader that knows only the ABI's layout, up to envp's NULL, recovers the arguments and environment from such a block |
| UserStack.Aligned | kernel/src/elf_loader.h:252-258 | whatever the strings, the final stack pointer is a multiple of 16 |
| UserStack.Stack.Build | kernel/src/elf_loader.h:209-310 | the whole construction: the ABI reader at the final pointer finds exactly the given vectors, the pointer is 16-byte aligned so neither panic is reachable, nothing below it is written, and behind envp stands a zero word or a string, by the parity of their number |
| UserStack.StringIsNoTerminator | kernel/src/elf_loader.h:252-258 | a string with a visible first character there does not read as the end of an auxiliary vector |
| UserStack.VisibleInFull | kernel/src/elf_loader.h:230-250 | a string arrives whole if and only if it holds no NUL byte |
| ElfLoader.PageTable.Map | kernel/src/memory/virtual_memory_manager.cpp:34-155 | one whole page is mapped, no other entry changes, and the no-execute bits stay as they are whatever the flags say |
| ElfLoader.PageTable.MapPages | kernel/src/elf_loader.h:183-190 | the loop maps consecutive pages of the block to consecutive pages of the address space, over whatever was mapped before |
| ElfLoader.PageTable.UnmapPages | kernel/src/elf_loader.h:348-353 | unmapping clears the Present flag of exactly these pages |
| ElfLoader.ReadSegment | kernel/src/elf_loader.h:146-164 | the fresh block holds the segment's file bytes at its offset in the page and zeros around them, or the read fails |
| ElfLoader.LoadSegments | kernel/src/elf_loader.h:123-202 | page table and region list are extended by blocks that hold the segments, up to the first one the file does not hold; succeeds exactly when there is none |
| ElfLoader.LastCoverMeaning | kernel/src/elf_loader.h:123-202 | which header decides a page: the last one that covers it |
| ElfLoader.MappedAt | kernel/src/elf_loader.h:123-202 | a page is mapped if and only if some header covers it, then to the deciding header's block and flags |
| ElfLoader.SegmentVisible | kernel/src/elf_loader.h:123-202 | every byte of a segment on a page no later segment takes translates to the file byte or to zero past p_filesz, also for unaligned p_vaddr; the page is writable if and only if bit 1 of p_flags is set |
| ElfLoader.ImageVisible | kernel/src/elf_loader.h:123-202 | with page-disjoint segments this holds of the whole image |
| ElfLoader.SegmentBesideStack | kernel/src/elf_loader.h:218-219 | with the stack mapped last, a segment byte reads as the file says if the stack does not cover its page, and as the stack's byte if it does |
| ElfLoader.StackVisible | kernel/src/elf_loader.h:218-219 | every byte of the stack is read at its address, whatever was mapped there |
| ElfLoader.StackHidesSegment | kernel/src/elf_loader.h:112-331 | a whole load in which a segment's byte 1 reads as the 0 of argc |
| ElfLoader.SharedPageZeroed | kernel/src/elf_loader.h:123-202 | below the start of the segment that takes a shared page, the process reads zeros |
| ElfLoader.SharedPageExample | kernel/src/elf_loader.h:123-202 | two concrete segments in one page, where the first one's byte is lost |
| ElfLoader.OthersUntouched | kernel/src/elf_loader.h:123-202 | pages no segment covers keep their mapping |
| ElfLoader.CoversMeaning | kernel/src/elf_loader.h:139-190 | a loadable header takes exactly the pages that begin before the end of its memory and end behind its start |
| ElfLoader.RegionPages | kernel/src/memory/region.h:34-44 | a region has the fewest whole pages that hold its length |
| ElfLoader.SegmentPermissions | kernel/src/elf_loader.h:173-190 | the page of a segment is present, for users, and writable if and only if bit 1 of p_flags is set, whatever the other bits |
| ElfLoader.RegionPermissions | kernel/src/elf_loader.h:173-195 | the region recorded for a segment has its address, block and length, is writable by bit 1 and marked as not executable exactly when bit 0 is clear |
| ElfLoader.ExecuteIgnored | kernel/src/memory/virtual_memory_manager.cpp:140-152 | headers that differ only in PF_X are mapped to the same entries |
| ElfLoader.DataCanExecute | kernel/src/elf_loader.h:170-195 | a concrete data segment, recorded as not executable, on a page without the no-execute bit |
| ElfLoader.RegionsAreMapped | kernel/src/elf_loader.h:183-195 | the regions recorded for the process are exactly the pages mapped |
| ElfLoader.AddStack | kernel/src/elf_loader.h:217-318 | the stack is mapped over the table, recorded and filled so that the ABI reader finds the arguments at rsp, which rbp equals |
| ElfLoader.LoadProcess | kernel/src/elf_loader.h:112-331 | succeeds exactly when the file holds the segments and there is a stack; then, through the final page table, the image reads as the file says beside the stack, the stack pages read as the stack, the ABI reader finds the arguments at rsp, pages are writable by bit 1 of p_flags, and the stack is recorded last, marked as not executable by a PT_GNU_STACK header without bit 0; on failure the segments loaded so far stay and the registers are untouched |
| ElfLoader.LoadedAreMapped | kernel/src/elf_loader.h:183-195 | if every recorded region was mapped, it is after loading segments, all of them or some |
| ElfLoader.StackIsMapped | kernel/src/elf_loader.h:218-226 | and after adding the stack, so the process can be unloaded |
| ElfLoader.Unload | kernel/src/elf_loader.h:348-353 | exactly the recorded pages lose their Present flag, each region's pages are given back, and the record is emptied |
| ElfLoader.WholeBlocksFreed | kernel/src/elf_loader.h:348-353 | what is given back for a loaded segment is the whole block that was requested for it |
| ElfLoader.ReplaceProcess | kernel/src/elf_loader.h:347-355 | whether or not loading succeeds, the old pages are given back and none stays present unless a loaded segment or the new stack takes it, and the process can be replaced again; on success image and arguments read as for a fresh load, on failure the registers are the old ones |
| Print.Sink.Append | gnu-efi/lib/print.c:313-352 | the text becomes the longest prefix of old text plus chunk that the limit allows, and is terminated |
| Print.Sink.Grow | gnu-efi/lib/print.c:355-397 | growing keeps the text and makes room, or an allocation failed and there is no string |
| Print.Sink.OutputPool | gnu-efi/lib/print.c:355-397 | after any chunk the pool still holds the text so far, from the last failed allocation on |
| Print.TakeTwice | gnu-efi/lib/print.c:313-352 | truncating chunk by chunk is truncating once at the end |
| Print.State.Flush | gnu-efi/lib/print.c:845-857 | flushing hands the buffered characters to the sink and changes nothing of what has been printed |
| Print.State.PutChar | gnu-efi/lib/print.c:876-896 | one character more, a newline as CR LF, wherever the flush falls |
| Print.State.PutItem | gnu-efi/lib/print.c:914-971 | PITEM prints the declarative layout of the item: pad, text cut to the field width, spaces on the chosen side |
| Print.State.ReadWidth | gnu-efi/lib/print.c:1099-1104 | the digit loop reads exactly the decimal number at this place of the format |
| Print.State.Directive | gnu-efi/lib/print.c:1044-1250 | from any point between directives, one directive advances the output to what the rendering says and leaves the rest to print |
| Print.State.Run | gnu-efi/lib/print.c:974-1255 | the output is the rendering of the format, and the returned count is its length |
| Print.VSPrint | gnu-efi/lib/print.c:423-463 | the buffer holds the longest prefix of the rendering that fits the size in bytes together with a terminator; nothing behind it changes |
| Print.NoRoomForNul | gnu-efi/lib/print.c:423-463 | a size of two bytes leaves the array as it was, without terminator |
| Print.CatPrint | gnu-efi/lib/print.c:566-600 | the text arrives in chunks of at most 199 characters; the pool's text grows by exactly the rendering if no allocation fails, and otherwise what is dropped goes exactly to the end of the last chunk whose allocation failed |
| Print.LostMeaning | gnu-efi/lib/print.c:355-397 | where that end is |
| PrintFormat.PutLayout | gnu-efi/lib/print.c:914-971 | the pieces PITEM prints one after the other are the layout |
| PrintFormat.LayoutLength | gnu-efi/lib/print.c:914-971 | an item takes the larger of width, field width and shown text, and shows the text unbroken |
| PrintFormat.UnsignedDecimal | gnu-efi/lib/print.c:1153-1160 | %lu prints the unsigned decimal if and only if the value is below 2^63 |
| PrintFormat.SignedPowerOfTwo | gnu-efi/lib/print.c:1153-1160 | 2^63 prints with a minus sign |
| PrintDirectives.DirectiveMeaning | gnu-efi/lib/print.c:1044-1242 | for every sequence of flags, numbers and stars before a conversion: width is the last number before the first dot, field width the last one behind it, 0 chooses the padding, - the side, comma and l the conversion; the text shown is given place by place |
| PrintDirectives.PlainMeaning | gnu-efi/lib/print.c:1061-1242 | any other character at the end of a directive prints a percent sign or a question mark, laid out in the same way |
| PrintDirectives.LiteralMeaning | gnu-efi/lib/print.c:1037-1042 | what is no directive is printed as it stands |
| PrintDirectives.NewlinesExpanded | gnu-efi/lib/print.c:876-896 | every newline becomes CR LF and nothing else changes |
| PrintDirectives.LayoutIsShown | gnu-efi/lib/print.c:914-971 | the pieces PITEM prints, place by place |
| PrintDirectives.HexInWidth | gnu-efi/lib/print.c:1070-1104 | %0wx fills its width with zeros before the digits, %wx with spaces |
| PrintDirectives.StringInField | gnu-efi/lib/print.c:1074-1104 | %.ns cuts a string to n characters or puts spaces before it, %-.ns behind it |
| PrintDirectives.DecimalPrinted | gnu-efi/lib/print.c:1162-1169 | %d and %ld print signed decimal, with a comma flag in groups of three |
| PrintDirectives.UnsignedPrinted | gnu-efi/lib/print.c:1153-1160 | %u, and %lu below 2^63, print unsigned decimal |
| PrintDirectives.HexPrinted | gnu-efi/lib/print.c:1128-1145 | %x and %lx print the digits there are, %X always 8 places and %lX always 16 |
| PrintDirectives.TextPrinted | gnu-efi/lib/print.c:1061-1126 | %s and %a print the string or (null), %c the character, %% a percent sign |
| Numbers.ValueToHex | gnu-efi/lib/print.c:1260-1288 | the buffer holds the hexadecimal numeral of every 64-bit value, terminated |
| Numbers.StackDigits | gnu-efi/lib/print.c:1317-1320 | the digit loop stacks the numeral, lowest digit first |
| Numbers.EmitDigits | gnu-efi/lib/print.c:1322-1332 | the counter loop writes the digits with commas where the grouping has them |
| Numbers.ValueToString | gnu-efi/lib/print.c:1291-1334 | the decimal text of every signed 64-bit value, the smallest included |
| Numbers.MagnitudeOf | gnu-efi/lib/print.c:1312-1318 | negating and reading as unsigned gives the magnitude even where the negation overflows |
| Numbers.GroupedToIsGrouped | gnu-efi/lib/print.c:1322-1332 | counting from the left with the start table is grouping by threes from the right |
| Numbers.CommaPlaces | gnu-efi/lib/print.c:1322-1332 | commas stand exactly at every fourth place from the right and never first |
| Numbers.GroupingOnlyAddsCommas | gnu-efi/lib/print.c:1322-1332 | without its commas the text is the plain numeral |
| Numbers.Xtoi | gnu-efi/lib/str.c:267-296 | the value modulo 2^64 of the leading hexadecimal digits after spaces |
| Numbers.Atoi | gnu-efi/lib/str.c:298-323 | the same for decimal digits |
| Numbers.RoundTrips | gnu-efi/lib/str.c:267-323 | xtoi undoes ValueToHex and Atoi undoes ValueToString without commas, for every 64-bit value |
| Numbers.NumeralRead | gnu-efi/lib/str.c:267-323 | both parsers read a numeral behind any spaces and zeros, with letters of either case, up to the first character that is no digit, modulo 2^64 |
| Numbers.NoNumeral | gnu-efi/lib/str.c:267-323 | without a digit there, both give zero |
| DevicePath.FindEnd | gnu-efi/lib/dpath.c:286-307 | the walk stops at the node that closes the path |
| DevicePath.DevicePathSize | gnu-efi/lib/dpath.c:286-307 | the size of the encoded path |
| DevicePath.DevicePathInstance | gnu-efi/lib/dpath.c:48-106 | size of the part cut off and pointer to what follows the node at the cut; NULL exactly when that node has subtype 0xFF, be it an end node or not |
| DevicePath.CutOfPath | gnu-efi/lib/dpath.c:70-90 | the cut is the end of the first instance if and only if it has at most 513 nodes |
| DevicePath.LongInstance | gnu-efi/lib/dpath.c:70-90 | an instance of 514 nodes is cut after 513 |
| DevicePath.FirstInstance | gnu-efi/lib/dpath.c:48-106 | one call yields the bytes of the first instance, and what the next pointer points at encodes the others |
| DevicePath.DevicePathInstanceCount | gnu-efi/lib/dpath.c:108-121 | on any closed run of nodes, the number of parts that repeated cutting yields; the byte ranges seen on the way are those parts in order |
| DevicePath.PartsOfPath | gnu-efi/lib/dpath.c:48-121 | the parts of an encoded path are its instances if and only if none has more than 513 nodes |
| DevicePath.StreamUnique | gnu-efi/inc/efidevp.h:35-57 | the bytes determine the nodes up to the closing one |
| DevicePath.PathUnique | gnu-efi/lib/dpath.c:48-121 | at most one path can be read at a given place: encoding is injective |
| DevicePath.DuplicateDevicePath | gnu-efi/lib/dpath.c:309-334 | a fresh copy with exactly the path's encoding |
| DevicePath.CopyInstances | gnu-efi/lib/dpath.c:176-186 | on any closed run of nodes, the loop writes each piece that repeated cutting yields, followed by all of Src2 |
| DevicePath.AllocationSuffices | gnu-efi/lib/dpath.c:153-186 | for every Src1, what is written fits the allocation if and only if (pieces - 1) times the excess of Src2 over Src1 is at most the bytes skipped |
| DevicePath.AllocationWithinGuard | gnu-efi/lib/dpath.c:153-186 | with at most 513 nodes to an instance, that is: one instance, or Src1 at least as long as Src2; one instance fills the allocation |
| DevicePath.AppendOverruns | gnu-efi/lib/dpath.c:153-186 | two one-node instances against a path of four nodes: 56 bytes written into 52 |
| DevicePath.AppendDevicePath | gnu-efi/lib/dpath.c:124-194 | a missing source yields a copy of the other; otherwise the allocation has the stated size and begins with the pieces of Src1, each followed by Src2 |
| DevicePath.AppendedReads | gnu-efi/lib/dpath.c:176-186 | read back, the result is the first piece extended by Src2 |
| DevicePath.AppendMeetsDocumentation | gnu-efi/lib/dpath.c:130-186 | whatever is read back is Src1's first piece extended by Src2, and it is the documented path if and only if Src1 has one instance of at most 513 nodes |
| DevicePath.AppendToTwo | gnu-efi/lib/dpath.c:130-186 | appending to two one-node instances leaves one instance of two nodes |
| DevicePath.LongPieces | gnu-efi/lib/dpath.c:70-90 | an instance of 514 nodes is cut into its first 513 nodes and nothing |
| DevicePath.AppendToLong | gnu-efi/lib/dpath.c:130-186 | appending to it loses its last node |
| DevicePath.LongOverruns | gnu-efi/lib/dpath.c:153-186 | appending 2064 bytes to it writes 6188 bytes into 6184 |
| DevicePath.AppendDevicePathNode | gnu-efi/lib/dpath.c:197-230 | reads back as the first piece of Src1 and the node; for one instance of at most 513 nodes that is Src1 and the node, and exactly the allocation is written |
| DevicePath.TerminatedCopy | gnu-efi/lib/dpath.c:213-221 | the temporary is the encoding of the one-node path |
| DevicePath.SetDevicePathEndNode | gnu-efi/inc/efidevp.h:66-71 | writes the four bytes of an end-of-path node and no others |
| DevicePath.AppendDevicePathInstance | gnu-efi/lib/dpath.c:397-433 | the encoding of the instances of one path followed by those of the other |
| DevicePath.UnpackedSize | gnu-efi/lib/dpath.c:348-359 | the sizing pass computes the length of what the copy pass will write |
| DevicePath.RoundingAgrees | gnu-efi/lib/dpath.c:348-359 | rounding the running total is rounding each node |
| DevicePath.CopyUnpacked | gnu-efi/lib/dpath.c:375-390 | one round writes the unpacked node, zero-padded, and leaves zeros behind it |
| DevicePath.CopyPass | gnu-efi/lib/dpath.c:375-390 | the copy pass fills the allocation exactly |
| DevicePath.UnpackDevicePath | gnu-efi/lib/dpath.c:336-394 | the result is the encoding of the unpacked nodes, as long as the sizing pass said |
| DevicePath.PrefixAligned | gnu-efi/lib/dpath.c:375-390 | every node of the result starts aligned |
| DevicePath.UnpackedKeeps | gnu-efi/lib/dpath.c:375-390 | node by node type, subtype and payload are kept, the payload padded with zeros |
| DevicePath.UnpackNodesIdempotent | gnu-efi/lib/dpath.c:336-394 | unpacking twice is unpacking once |
| DevicePath.UnpackTwice | gnu-efi/lib/dpath.c:336-394 | on the bytes themselves: unpacking the result gives the same bytes, as long as no node is longer than 65532 |
| DevicePath.UnpackedReadable | gnu-efi/lib/dpath.c:375-390 | the bytes written can be read as some closed path if and only if no node is longer than 65532 bytes |
| DevicePath.LongNode | gnu-efi/lib/dpath.c:375-390 | a node of 65533 bytes unpacks to one whose length field reads zero |
| Crc.TableIsBitwise | gnu-efi/lib/crc.c:22-66 | each of the 256 entries is eight steps of the bitwise division |
| Crc.TableStep | gnu-efi/lib/crc.c:201-218 | shifting and looking up is one byte of the bitwise division, for every state and byte |
| Crc.ByteLinear | gnu-efi/lib/crc.c:201-218 | the byte step is linear |
| Crc.ByteInjective | gnu-efi/lib/crc.c:201-218 | the byte step loses nothing |
| Crc.CalculateCrc | gnu-efi/lib/crc.c:201-218 | the reflected CRC-32 of the bytes by its bitwise definition; the 64-bit accumulator never exceeds 32 bits |
| Crc.Residue | gnu-efi/lib/crc.c:201-218 | any bytes followed by their own checksum leave the register at one and the same value |
| Crc.LeadingZeroDetected | gnu-efi/lib/crc.c:201-218 | a zero byte in front always changes the checksum |
| Crc.CheckValue | gnu-efi/lib/crc.c:201-218 | the checksum of the ASCII digits 1 to 9 is 0xCBF43926, that of nothing 0 |
| Crc.FeedInjectiveInState | gnu-efi/lib/crc.c:201-218 | different states stay different whatever follows |
| Crc.FeedLinear | gnu-efi/lib/crc.c:201-218 | the register is linear in state and bytes together |
| Crc.CrcDifference | gnu-efi/lib/crc.c:201-218 | how far two checksums differ depends on the difference of the bytes alone |
| Crc.BurstChangesCrc | gnu-efi/lib/crc.c:201-218 | no change within four adjacent bytes keeps the checksum, wherever it lies |
| Crc.SetCrcAltSize | gnu-efi/lib/crc.c:93-116 | only the CRC field changes, and the table checks afterwards |
| Crc.CheckCrcAltSize | gnu-efi/lib/crc.c:146-198 | true if and only if the size is allowed and the stored value is the checksum; the table is left byte-identical |
| Crc.WithFieldTwice | gnu-efi/lib/crc.c:93-198 | clearing the field and restoring it is the identity |
| Crc.BurstDetected | gnu-efi/lib/crc.c:93-198 | a checked table changed in at most four adjacent bytes outside the CRC field fails |
| Crc.FieldChangeDetected | gnu-efi/lib/crc.c:93-198 | so does one changed in the field alone |
| Crc.SingleByteDetected | gnu-efi/lib/crc.c:93-198 | so does one with any one byte changed, field included |
| Crc.ChangePasses | gnu-efi/lib/crc.c:93-198 | exactly which changes pass: those whose change of the field is the register their other changes leave from zero |
| Crc.StraddlingBurstPasses | gnu-efi/lib/crc.c:93-198 | a change of four adjacent bytes across the edge of the field that passes in every 24-byte header |
| Glob.MatchSet | gnu-efi/lib/str.c:367-394 | the set loop decides membership, ranges included, and finds the closing bracket |
| Glob.MatchStar | gnu-efi/lib/str.c:342-350 | true if and only if the rest of the pattern matches some suffix |
| Glob.MatchesIsLanguage | gnu-efi/lib/str.c:325-409 | the recursive matcher and the declarative language, a split of the string into one part per token, are the same |
| Glob.MetaMatch | gnu-efi/lib/str.c:325-409 | terminates, and is true if and only if the string is in the pattern's language |
| Glob.PlainLanguage | gnu-efi/lib/str.c:397-405 | a pattern without special characters matches itself alone |
| Glob.StarLanguage | gnu-efi/lib/str.c:342-350 | a star between plain parts matches what begins with the one and ends with the other, without overlap |
| Glob.SetLanguage | gnu-efi/lib/str.c:360-394 | a set of plain characters matches one of them |
| Glob.RangeLanguage | gnu-efi/lib/str.c:372-384 | a range matches one character from its low to its high end, both included |
| Links.InitializeListHead | gnu-efi/inc/efilink.h:43-45 | a ring of the head alone |
| Links.IsListEmpty | gnu-efi/inc/efilink.h:54-55 | true if and only if the head is alone |
| Links.InsertTailList | gnu-efi/inc/efilink.h:90-98 | the ring with the entry at its end |
| Links.InsertHeadList | gnu-efi/inc/efilink.h:108-116 | the ring with the entry behind the head |
| Links.RemoveEntryList | gnu-efi/inc/efilink.h:64-70 | the ring without the entry, wherever it was; an entry that is alone stays alone |
| Links.SwapListEntries | gnu-efi/inc/efilink.h:126-139 | Entry2 moves to just before Entry1, adjacent or not, unless it is there already or is Entry1; an entry alone stays alone; in the other cases no ring holds Entry1, or the entry before it, afterwards |
| Links.SwapInPair | gnu-efi/inc/efilink.h:126-139 | swapping the two entries of a ring of two breaks it |
| Links.SwapWithItself | gnu-efi/inc/efilink.h:126-139 | swapping an entry of a ring of two with itself breaks it |
| Links.Forward | gnu-efi/inc/efilink.h:43-116 | following Flink visits the list in order |
| Links.Backward | gnu-efi/inc/efilink.h:43-116 | following Blink visits it in reverse |
| Links.RotatedRing | gnu-efi/inc/efilink.h:126-139 | a ring may be read from any of its entries |
| Links.PerformSwap | gnu-efi/inc/efilink.h:126-139 | the swap seen from the list head: one entry is moved in the list |
| Links.Perform | gnu-efi/inc/efilink.h:43-139 | each operation on the heap is its counterpart on the sequence |
| Links.Run | gnu-efi/inc/efilink.h:43-139 | after any sequence of initialising, inserting, removing and swapping the ring represents the abstract list |
| Renderer.ClipMeaning | kernel/src/basic_renderer.cpp:95-115 | the clipped rectangle holds the on-screen pixels of the requested one and no others |
| Renderer.BasicRenderer.ClipToTarget | kernel/src/basic_renderer.cpp:95-167 | clamping and cutting give the clipped rectangle |
| Renderer.BasicRenderer.DrawRect | kernel/src/basic_renderer.cpp:160-174 | in bounds; exactly the clipped rectangle is filled |
| Renderer.BasicRenderer.DrawPix | kernel/src/basic_renderer.cpp:198-216 | exactly the clipped rectangle shows the image, line by line at its pitch |
| Renderer.BasicRenderer.DrawBmp | kernel/src/basic_renderer.cpp:220-239 | exactly the clipped rectangle shows the bitmap in two colours; which bit of which byte decides a pixel is written out in the byte's value |
| Renderer.BasicRenderer.DrawBmpOver | kernel/src/basic_renderer.cpp:243-260 | the same, leaving the pixels of clear bits alone |
| Renderer.RectPixel | kernel/src/basic_renderer.cpp:160-174 | pixel by pixel: the colour on the requested pixels that are on screen, and what was there elsewhere |
| Renderer.ImagePixel | kernel/src/basic_renderer.cpp:198-216 | the image's pixel at column plus line times the requested width |
| Renderer.BitMeaning | kernel/src/basic_renderer.cpp:235-256 | the leftmost pixel of a byte is its bit of value 128, the rightmost that of value 1 |
| Renderer.BitmapPixel | kernel/src/basic_renderer.cpp:220-260 | the pixel a bitmap leaves, with or without a background |
| Renderer.SwapPixel | kernel/src/basic_renderer.cpp:102-128 | the target's pixel where the swap was requested on screen, and the old one elsewhere |
| Renderer.ReadPixel | kernel/src/basic_renderer.cpp:177-195 | with lines that do not overlap, every pixel read is at its own place |
| Renderer.BitmapLines | kernel/src/basic_renderer.cpp:234-235 | the bit looked at is the one the pitch asks for if and only if the line starts on a byte |
| Renderer.NarrowBitmap | kernel/src/basic_renderer.cpp:234-235 | with four pixels to a line, the second line repeats the first line's bits |
| Renderer.BasicRenderer.ReadPix | kernel/src/basic_renderer.cpp:177-195 | every place of the buffer holds the pixel that belongs there, or is untouched if none does |
| Renderer.ReadAfterDraw | kernel/src/basic_renderer.cpp:177-216 | reading after drawing gives the drawn pixels on the clipped part and leaves the rest of the buffer, even where lines overlap |
| Renderer.BasicRenderer.Swap | kernel/src/basic_renderer.cpp:102-128 | exactly the clipped rectangle of the render buffer becomes the target's, also when both are one buffer |
| Renderer.DrawThenSwap | kernel/src/basic_renderer.cpp:95-260 | drawing then swapping the same rectangle restores agreement on all visible pixels and changes nothing outside |
| Renderer.BasicRenderer.Clear | kernel/src/basic_renderer.cpp:297-319 | exactly the clipped rectangle of the render buffer gets the background |
| Renderer.ClearDisagrees | kernel/src/basic_renderer.cpp:297-323 | from agreement, the buffers agree after it if and only if they are one or the target had the colour there; with two buffers the next swap undoes it |
| Renderer.ClearLost | kernel/src/basic_renderer.cpp:297-319 | on a screen of one pixel, a clearing that the next swap undoes |
| Renderer.AgreeUnlessDamaged | kernel/src/basic_renderer.cpp:102-319 | in every run, with one buffer or two, a pixel differs between the buffers only if it was drawn or cleared and not swapped since |
| Renderer.Shown | kernel/src/basic_renderer.cpp:102-319 | in every run with two buffers, the screen shows the target as it was at the last swap over the pixel, or the colour of a later clear |
| Renderer.ShownAtOnce | kernel/src/basic_renderer.cpp:60-66 | in every run where the target is the render buffer, the screen shows the last drawing or clearing at once |
| Renderer.Perform | kernel/src/basic_renderer.cpp:102-323 | each call on the renderer is one step of the two-buffer machine, null pointers and the background colour included |
| Renderer.Run | kernel/src/basic_renderer.cpp:102-323 | any sequence of calls follows that machine, with one buffer or two, and leaves undamaged pixels in agreement |
| Hpet.InvKept | kernel/src/hpet.cpp:131-196 | every step of every thread and every tick keeps the protocol's invariant |
| Hpet.InvAlways | kernel/src/hpet.cpp:131-196 | so it holds in every reachable state |
| Hpet.MutualExclusion | kernel/src/hpet.cpp:152-196 | two threads are never both inside |
| Hpet.FinalLowRead | kernel/src/hpet.cpp:158-170 | the value a reader holds is the counter's at the moment of its latest low-half read |
| Hpet.GetIsExact | kernel/src/hpet.cpp:152-175 | in every interleaving the result is the counter's value at the final low-half read, or its low half if the device has no more |
| Hpet.GetRounds | kernel/src/hpet.cpp:158-170 | the loop repeats at most as often as the high half advanced, and not at all for a stopped counter |
| Hpet.SetIsExact | kernel/src/hpet.cpp:184-196 | the write is exact if the counter is stopped as the lock is taken |
| Hpet.StopStops | kernel/src/hpet.cpp:131-150 | the write of a stop clears bit 0 of the register, that of a start sets it, and all other bits stay as the register has them; no other step changes it |
| Hpet.OtherBitsKept | kernel/src/hpet.cpp:131-150 | so in every run the other bits are as they were at first |
| Hpet.ReturnsAsPromised | kernel/src/hpet.cpp:131-196 | the counter is stopped as stop_main_counter lets go of the lock for the last time, and running as the other calls do |
| Hpet.LockAfterStop | kernel/src/hpet.cpp:143-196 | in every run a call found inside its body stopped the counter and then took the lock, and the counter was stopped at the lock if and only if no thread started it in between without another stopping it again |
| Hpet.Undisturbed | kernel/src/hpet.cpp:152-196 | then set leaves exactly its value, and get reads in one round the value at the lock |
| Hpet.SetCanMiss | kernel/src/hpet.cpp:184-196 | from every reachable state where it is running, ticks between the two halves can make the write miss if and only if the counter with its new low half is not at its last value |
| Hpet.SetMisses | kernel/src/hpet.cpp:184-196 | a whole run from the start in which a write of 0 leaves another value |
| RingBuffers.RingBuffer.Size | std/include/extensions_ring_buffer:76-82 | the number of elements held |
| RingBuffers.RingBuffer.PushBack | std/include/extensions_ring_buffer:84-91 | appends while there is room; full, it drops the oldest, empties the buffer, or leaves the head outside, by where the head is |
| RingBuffers.OverflowEmpties | std/include/extensions_ring_buffer:84-91 | three pushes into a fresh buffer of three slots leave it empty |
| RingBuffers.OverflowRunsOff | std/include/extensions_ring_buffer:84-97 | five pushes and two pops on three slots leave the head outside the array |
| RingBuffers.RingBuffer.PopFront | std/include/extensions_ring_buffer:93-97 | removes the oldest element |
| Events.Manager.RegisterListener | kernel/src/event.h:77-81 | adds a process only to a list that has it; empty lists stay empty |
| Events.Manager.UnregisterListener | kernel/src/event.h:83-86 | removes every occurrence, and says whether there was one |
| Events.EraseMembers | kernel/src/event.h:153-157 | erasing a filter removes it and only it |
| Events.Queue.RegisterListening | kernel/src/event.h:146-151 | the filter is added to its event type, no other changes |
| Events.Queue.UnregisterListening | kernel/src/event.h:153-160 | all its occurrences go, no other changes |
| Events.Queue.Push | kernel/src/event.h:167-169 | the event comes last while there is room; on a full buffer the oldest event is dropped, the queue is emptied or its head leaves the array, by where the head is |
| Events.Queue.Pop | kernel/src/event.h:171-174 | the oldest event, or the invalid one if there is none |
| Events.Process.Notify | kernel/src/event.cpp:45-63 | every queue that listens gets the event once, the others stay as they are, whoever the manager lists |
| Events.FiltersMeaning | kernel/src/event.h:146-165 | in every run a queue listens to what was registered and not unregistered since |
| Events.NothingLostOrReordered | kernel/src/event.h:127-179 | in every run a queue's popped events followed by its pending ones are, in order, those notified while it listened |
| Events.Run | kernel/src/event.cpp:45-68 | the same of the objects themselves, and the manager never gets a listener |
| Relocate.ScanDynamic | gnu-efi/gnuefi/reloc_x86_64.c:52-72 | address, size and entry size from the last entry of each kind before the terminator, 0 if there is none |
| Relocate.LastMeaning | gnu-efi/gnuefi/reloc_aarch64.c:51-71 | of several entries with one tag the last counts |
| Relocate.EntryMeaning | gnu-efi/gnuefi/reloc_x86_64.c:79-96 | the loop sees entry j if and only if it begins within the table's size |
| Relocate.FoundMeaning | gnu-efi/gnuefi/reloc_x86_64.c:52-72 | the last entries with tags 7, 8 and 9 before the first 0 give table, size and entry size, the table with the load address added, the sizes signed |
| Relocate.FoundNothing | gnu-efi/gnuefi/reloc_x86_64.c:48-72 | a tag that is missing leaves its field zero |
| Relocate.RelocateX86 | gnu-efi/gnuefi/reloc_x86_64.c:43-98 | status by which fields are missing; the word at load address plus offset of every entry of type 8 has the load address added modulo 2^64, every other byte is unchanged |
| Relocate.RelocateAarch64 | gnu-efi/gnuefi/reloc_aarch64.c:42-97 | the same for type 1027, where the word becomes load address plus the entry's addend |
| Relocate.X86Word | gnu-efi/gnuefi/reloc_x86_64.c:85-89 | what becomes of the word an x86_64 entry names, in sums |
| Relocate.Aarch64Word | gnu-efi/gnuefi/reloc_aarch64.c:84-88 | what becomes of the word an aarch64 entry names, in sums |
| Relocate.OtherBytes | gnu-efi/gnuefi/reloc_x86_64.c:79-96 | a byte that lies in no word so named is unchanged |
| Relocate.OrderDoesNotMatter | gnu-efi/gnuefi/reloc_x86_64.c:79-96 | two images that agree but for the order of the entries in their tables agree, once relocated, on every byte outside the table |
| Relocate.SameFixup | gnu-efi/gnuefi/reloc_x86_64.c:79-96 | reordering changes no entry's effect, because the word it adds to lies outside the table |
| Relocate.SameFixups | gnu-efi/gnuefi/reloc_aarch64.c:78-95 | tables with the same offsets and addends ask both relocators for the same changes, if the words hold the addends on x86_64 |
| Relocate.RelocatorsAgree | gnu-efi/gnuefi/reloc_aarch64.c:42-97 | both relocators then produce the same memory wherever the images were the same and at every word named |
| FatGeometry.Regions | kernel/src/fat_definitions.h:66-79 | reserved sectors, FATs, root directory and data follow each other without gap or overlap, the root directory in the fewest sectors that hold it |
| FatGeometry.RegionsOfFields | kernel/src/fat_definitions.h:66-151 | the same in the record's own fields, a 16-bit field counting unless it is zero |
| FatGeometry.Fat32Volume | kernel/src/fat_definitions.h:77-160 | a concrete FAT32 volume, with its first data sector and clusters |
| FatGeometry.Clusters | kernel/src/fat_definitions.h:134-140 | the data region is its clusters and less than one more |
| FatGeometry.ClusterStart | kernel/src/fat_definitions.h:153-155 | every cluster lies in the data region and in the volume |
| FatGeometry.ClustersDisjoint | kernel/src/fat_definitions.h:153-155 | different clusters share no sector |
| FatGeometry.RoundTrip | kernel/src/fat_definitions.h:153-160 | every sector of a cluster leads back to it |
| FatGeometry.SectorInCluster | kernel/src/fat_definitions.h:153-160 | every data sector before the remainder is in the cluster it leads to |
| FatGeometry.ClustersInside | kernel/src/fat_definitions.h:134-155 | all clusters lie in the volume if and only if the first data sector does not exceed the number of sectors |
| FatGeometry.OverfullVolume | kernel/src/fat_definitions.h:134-155 | a volume of 16 sectors whose first cluster would start at sector 21 |

## Left out

- UserStack.Stack.Build: strings and pointers must fit the four stack pages, because the code does not check it.
- ElfLoader.PageTable.Map: page-table levels and their allocation are one map from pages to entries.
- ElfLoader.LoadSegments: the file's part of a segment fits the pages allocated for p_memsz, because the code reads it in unchecked.
- ElfLoader.ReadSegment: the file system is a byte sequence; reads are exact or fail.
- ElfLoader.LoadProcess: program headers arrive decoded; VerifyElf64Header, a conjunction of field tests, is not modelled.
- Print.State.Run: printing goes to memory; console attributes, %f, %g, %t, %r and %D are not modelled, and formats are those where every `%` reaches a conversion.
- Print.VSPrint: characters are Dafny characters, not 16-bit units; the array must hold what the limit lets through.
- Print.CatPrint: which allocations fail is an oracle.
- DevicePath.AppendDevicePath: allocation succeeds, at least one source is present, and the writes fit the allocation, which AllocationSuffices decides; the same holds for AppendDevicePathNode.
- DevicePath.UnpackDevicePath: allocation succeeds.
- Glob.MetaMatch: patterns are those whose sets are closed, because the code reads past the end of the others.
- Renderer.BasicRenderer.DrawBmp: the bytes it looks at are numbered below 2^31, because the number is kept in a signed 32-bit variable; the same holds for DrawBmpOver.
- Renderer.BasicRenderer.Swap: both framebuffers have the same dimensions, as the constructor makes them.
- Hpet.GetIsExact: the counter does not wrap all 64 bits.
- Events.Process.Notify: queues have room; what a full buffer does is stated of Events.Queue.Push.
- Relocate.RelocateX86: targets do not overlap each other or the table, the entry size is positive and the table lies in memory; the same holds for RelocateAarch64.
- Broadcast notification: it refuses process-specific events, and the lists it would walk are always empty.
- Device-path text conversion, and LibDuplicateDevicePathInstance.
- HPET initialisation and the firmware tables it reads.
- Renderer construction, fonts, text and the cursor.
- Firmware services, file and protocol handles, the boot loader and the sample programs.
- Scheduler, drivers, system calls and user-space programs.
