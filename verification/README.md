# RedFox32 in Dafny

This project models the parts of the RedFox32 kernel, boot stages and drivers that are state
machines rather than register wiring, and proves what they do for every input and every run:

- `HeapSpec.dfy` and `KernelHeap.dfy`: the kernel heap. `HeapSpec` is the allocator as a machine
  over a list of blocks; `KernelHeap` is the same allocator as it is written, with packed 17-byte
  headers inside a byte array of 2^32 cells, a doubly linked list in those bytes, and `malloc` and
  `CanSafelyAllocate` calling each other. `HeapCases.dfy` has runs of it, from boot, that go wrong.
- `Console.dfy` and `MemoryMapDisplay.dfy`: the text console as a 25-row window on a terminal that
  never scrolls, and the memory-map printer on top of it.
- `MemoryMapCollector.dfy` and `BootMap.dfy`: the loop that collects the BIOS memory map
  (INT 15H, EAX = E820H), and the way from the BIOS to the printout.
- `FloppyController.dfy` and `SectorMap.dfy`: sector transfers against a model of the drive, and
  the sector bitmap that is saved on the disk it describes.
- `FrameBuffer.dfy`: the VESA blitters for every resolution.
- `Keyboard.dfy`: the keyboard interrupt handler and its one-slot mailbox.
- `Words.dfy`: bytes, 32-bit words and their wrap-around; `MemoryMap.dfy`: where the memory map
  lies and how long an entry is; `Options.dfy`: a value that may be missing.

Classes hold the state the C code keeps in globals and buffers; their methods are proved against
functions on values, and the lemmas are about those functions and about whole runs of them. What a
caller sees of each operation is also said in the source's own numbers: addresses, bytes, bits and
scancodes, without the functions the operation is specified by.
`dafny verify dfyconfig.toml` checks everything.

## Findings

Where the code does not do what its comments promise, the model follows the code; the exact condition
is proved, and an input or a run shows the failure.

- The placement check never gets past a map entry it has met. Stepping over an entry issues a
  request that meets the same entry again, so a request is granted if and only if it is in bounds
  and no entry that does not end below the position holds the position or the sum; the other requests stop the machine or recurse forever
  (`GrantedExactly`, `NestedRequestSharesFate`, with an input for each of the two fates in
  `RefusedRequests`). The type of an entry is not looked at, so an entry of usable memory that covers
  the allocation position blocks every request (`CoveredPositionGrantsNothing`).
- That a granted request has neither its position nor position + size in any entry holds, over all
  maps, exactly for the sizes that do not wrap (`GrantedKeepsOffExactly`). A wrapped sum is missed
  exactly if it lies in an entry that ends below the position (`GrantedMissesExactly`, with an input
  in `GrantedOntoEntry`).
- A block granted for a size that does not wrap may still cover an entry, because two addresses are
  tested and the 18 bytes of header and padding are not counted: exactly if a nonempty entry starts
  inside the block without holding position + size, or starts below the end of the block and wraps
  past 2^32 (`GrantedOverlapsExactly`; `GrantedOverReservedMemory` has an entry in the middle of a
  block and one under its last bytes).
- The upper bound check works on a wrapped sum. It is sound exactly for sizes below
  2^32 - (position - MEMORY_START); for any other granted size the position falls back into memory
  that was handed out before (`CarveKeepsInvExactly`, with a run in `UnsoundSizeFallsBack`).
- A `realloc` of the last block beyond its capacity does not move the allocation position. It is
  the only call that lets a recorded length exceed its block (`StepKeepsCapacityExactly`, with a run
  in `OvergrownBlockIsOverlapped`).
- A `realloc` that moves does not copy: the contents are at the new place exactly if they were all
  zero (`KernelHeap.Heap32.Realloc`; in `HeapCases.LoseContents` a stored 7 is lost).
- `free` and `realloc` recognise a block by the magic word in front of the pointer. Where payload
  bytes imitate a header, `free` overwrites two bytes and `realloc` believes the imitated length
  (`MagicTellsLive`, `KernelHeap.Heap32.Free`, `KernelHeap.Heap32.Realloc`; both happen in
  `HeapCases.ImitationsAreBelieved`).
- `MemoryManagement_Setup` resets the position but not the list: the heap survives it exactly if it
  has no block (`KernelHeap.Heap32.Setup`, with a heap that does not in `HeapCases.SetUpAgain`).
- A backspace at cursor 0 writes outside video memory; the clamp behind it is not reached. It is the
  only thing that does (`StrayExactly`, `EscapeGoesAstray`).
- `ScrollScreen` of more than 12 rows leaves old cells behind (`LongScrollLeavesCells`,
  `LongScrollsDoNotAdd`).
- The floppy timeout resets the controller, which drops the motor bit, and the seek loop goes on. A
  seek that arrives on its 501st try or later makes the transfer return without having moved
  anything (`FloppyController.Fdc.PerformLate`), so over any run exactly the requests in time are
  served (`FloppyController.Fdc.PerformAll`). A save of the sector map whose first seek is late takes
  the bytes behind the map from whatever the buffer held: it leaves them alone exactly if that seek is
  in time, the second is late, or the buffer happens to end like the sector
  (`SectorMap.FileSystem.WriteSectorMapChanges`, with a run in `SectorMap.FileSystem.SaveLate`).
- The BIOS may answer with fewer bytes than an entry has: the rest of the entry is then whatever the
  slot held, and takes part in the tests. An answer is judged and recorded by what it says alone
  exactly if it writes at least 20 bytes, reports no size, or writes a zero length (`JudgedAloneExactly`, with
  an answer that is kept or skipped as the slot has it in `StaleBytesDecide`); for such answers the
  table is the plain filter (`SelfContainedAnswersAreFiltered`).
- Pixel addresses are computed in 32 bits: different pixels are stored in different bytes exactly for
  the resolutions whose frame fits the address space (`PixelsApartExactly`,
  `LargestResolutionClashes`).
- `VESA_DrawChar` counts in 8 bits: after some number of rounds its loops end exactly if the scaled
  size, taken modulo 2^32, is below 256 (`CountersReachExactly`).
- The release of key 0x60 without a prefix is indistinguishable from the prefix
  (`ScancodeRoundTrip`). A delivered keyboard event carries the modifiers of the moment of delivery,
  not of the key press: it is the event as it was posted exactly if the modifiers are the same at both
  moments (`DeliveredModifiers`, with a run in `ShiftAfterKey`).

## Model

| member | source | states |
|---|---|---|
| Words.WrapIsModular | RedFox32/Source/Kernel/Memory.c:113-119 | the 32-bit addition of pointers and sizes is addition modulo 2^32, and a wrapped distance, added back, hits its target |
| Words.WordRoundTrip | RedFox32/Source/Kernel/Memory.c:67-74 | words stored in header bytes and read back are unchanged, and so are bytes read as a word |
| Words.LittleEndian | RedFox32/Source/Kernel/Memory.c:19-24 | the least significant byte of a word comes first |
| HeapSpec.StepOverHitsAgain | RedFox32/Source/Kernel/Memory.c:138-150 | the request made in order to step over an entry meets that entry, or an earlier one, again |
| HeapSpec.GrantedIffFits | RedFox32/Source/Kernel/Memory.c:121-153 | for every map, position and nonzero size the mutual recursion grants the request iff its own scan stops nowhere |
| HeapSpec.GrantedExactly | RedFox32/Source/Kernel/Memory.c:100-153 | a nonzero request is granted iff the position and the 32-bit sum lie between 0x105000 and 0xFFFF0000, no entry cut to 32 bits holds the position, and every entry that holds the sum ends below the position |
| HeapSpec.NestedRequestSharesFate | RedFox32/Source/Kernel/Memory.c:121-151 | a nested request is never granted; it ends as the outer one does, and a chain that stops the machine goes on to strictly earlier entries |
| HeapSpec.RefusedRequests | RedFox32/Source/Kernel/Memory.c:105-151 | a request that stops the machine, under usable memory that holds the position, and one for which the two functions call each other forever |
| HeapSpec.ObstructedBy | RedFox32/Source/Kernel/Memory.c:105-151 | with one entry in the map, an obstructed request in bounds stops the machine if the entry starts out of bounds and recurses forever otherwise |
| HeapSpec.GrantedKeepsOffExactly | RedFox32/Source/Kernel/Memory.c:113-146 | for a position and size in bounds: over all maps, a grant implies that neither position nor position + size lies in an entry, iff the sum does not wrap |
| HeapSpec.GrantedMissesExactly | RedFox32/Source/Kernel/Memory.c:127-146 | of a granted request the position is in no entry, and the sum is in an entry iff it has wrapped below the position into one that ends there |
| HeapSpec.GrantedOntoEntry | RedFox32/Source/Kernel/Memory.c:127-146 | a concrete request granted although its sum lies in an entry |
| HeapSpec.GrantedOverlapsExactly | RedFox32/Source/Kernel/Memory.c:127-186 | exactly when the block taken by a granted request of sound size, header and padding included, covers a byte of a map entry |
| HeapSpec.GrantedOverReservedMemory | RedFox32/Source/Kernel/Memory.c:138-186 | two concrete requests granted over a reserved region: in the middle of the block, and in its last payload bytes behind both tested addresses |
| HeapSpec.CoveredPositionGrantsNothing | RedFox32/Source/Kernel/Memory.c:138-150 | once an entry of any type covers the allocation position no nonzero request returns |
| HeapSpec.BlocksAreDisjoint | RedFox32/Source/Kernel/Memory.c:161-184 | header, payload and padding of every block end before the next header and below the allocation position |
| HeapSpec.CarveKeepsInvExactly | RedFox32/Source/Kernel/Memory.c:113-119 | a granted size keeps the heap laid out and the position moving forward iff it is in the range where the wrapped bound check is sound |
| HeapSpec.UnsoundSizeFallsBack | RedFox32/Source/Kernel/Memory.c:113-184 | a run from boot in which a wrapped size is granted and the position falls into the payload of a live block |
| HeapSpec.StepKeepsInv | RedFox32/Source/Kernel/Memory.c:82-225 | every sound `malloc`, `free` and `realloc` keeps the layout, the accounting of every byte and the bound on the position |
| HeapSpec.MallocInNumbers | RedFox32/Source/Kernel/Memory.c:155-187 | `malloc` places its block at the position, returns 17 bytes behind it, and moves the position by size + 18 modulo 2^32 |
| HeapSpec.CallsInNumbers | RedFox32/Source/Kernel/Memory.c:82-225 | what `free` and `realloc` of a live block do: in place iff the size is at most the length or the block is the last, else a new block at the position, 17 bytes behind which the result lies |
| HeapSpec.StepKeepsCapacityExactly | RedFox32/Source/Kernel/Memory.c:206-213 | a call lets a recorded length exceed its block iff it is a `realloc` that grows the last block past its capacity |
| HeapSpec.RunKeepsInv | RedFox32/Source/Kernel/Memory.c:82-225 | the invariant over any run of sound calls, and the capacities if no call overgrows |
| HeapSpec.HeapSafety | RedFox32/Source/Kernel/Memory.c:155-225 | after any run from boot: blocks pairwise disjoint, below the position, position equal to the start plus size + 18 of every block, at most 0xFFFF0012; claimed payloads clear of all other blocks if none was overgrown |
| HeapSpec.OvergrownBlockIsOverlapped | RedFox32/Source/Kernel/Memory.c:209-213 | a run in which an overgrown block overlaps the next block |
| HeapSpec.StepIsLater | RedFox32/Source/Kernel/Memory.c:82-225 | one call keeps every block in place, brings none back to life, and changes the number of live blocks by those carved and freed |
| HeapSpec.BlockLifeCycle | RedFox32/Source/Kernel/Memory.c:82-225 | over any run each block is freed at most once and live blocks are blocks carved minus blocks freed, moving `realloc`s included |
| HeapSpec.FreedBlockIsInert | RedFox32/Source/Kernel/Memory.c:88-96 | a second `free`, or a `realloc`, of a freed block leaves the heap as it is |
| KernelHeap.Heap32.constructor | RedFox32/Source/Kernel/Memory.c:64-80 | zeroed memory with the static initialisers is a valid empty heap |
| KernelHeap.Heap32.CanSafelyAllocate | RedFox32/Source/Kernel/Memory.c:100-153 | returns 1 iff the two addresses lie in bounds and clear of the map as said in `GrantedExactly`, and 0 iff they are out of bounds, in both cases having changed nothing; otherwise it stops the machine or never returns, as the fate of the request says |
| KernelHeap.Heap32.Malloc | RedFox32/Source/Kernel/Memory.c:155-197 | returns iff the request passes that test, then with the payload of a block carved at the old position; writes only headers; keeps the heap valid for sound sizes |
| KernelHeap.Heap32.Grant | RedFox32/Source/Kernel/Memory.c:161-186 | the branch behind the check carves exactly one block, disturbs no live magic word and no payload |
| KernelHeap.Heap32.Place | RedFox32/Source/Kernel/Memory.c:161-186 | the header fields, list globals, position and every byte left alone when a block is placed |
| KernelHeap.Heap32.LinkHeader | RedFox32/Source/Kernel/Memory.c:162-176 | the new header keeps its old Next bytes, only the Next field of the previous header changes besides |
| KernelHeap.Heap32.LastBelowNext | RedFox32/Source/Kernel/Memory.c:162-172 | the position is MEMORY_START iff no block exists, the test that selects the first-block branch |
| KernelHeap.Heap32.HeaderInBytes | RedFox32/Source/Kernel/Memory.c:67-74 | the seventeen bytes of every header: magic word, addresses of the two neighbours, length and flags, each at its offset |
| KernelHeap.Heap32.PayloadsKept | RedFox32/Source/Kernel/Memory.c:155-225 | a call that writes headers only changes no payload or padding byte of any block |
| KernelHeap.Heap32.MagicTellsLive | RedFox32/Source/Kernel/Memory.c:88-88 | for every pointer, the magic test is right about the block being live unless the pointer was never returned and payload bytes imitate a header |
| KernelHeap.Heap32.Free | RedFox32/Source/Kernel/Memory.c:82-97 | for every pointer: without the magic word nothing changes; with it, exactly two bytes change, the block at that pointer is released if there is one, and the heap stays valid if there is one or the bytes lie outside all headers |
| KernelHeap.Heap32.Realloc | RedFox32/Source/Kernel/Memory.c:199-225 | decided by the magic word: nothing without it; a live block is shrunk, grown or moved as the block list says, with the old contents at the returned pointer iff it did not move or they were zero; an imitated header has its length overwritten, or a block is carved beside it and, where it lies outside all headers, two of its bytes are marked free and the heap stays valid |
| KernelHeap.Heap32.Move | RedFox32/Source/Kernel/Memory.c:214-223 | takes a new block, frees the old one, copies nothing; on an imitation it carves a block and frees none |
| KernelHeap.Heap32.SetLength | RedFox32/Source/Kernel/Memory.c:206-213 | rewrites one Length field; contents and all other headers stay |
| KernelHeap.Heap32.Perform | RedFox32/Source/Kernel/Memory.c:82-225 | any one sound call with a pointer that is a block's or fails the magic test returns iff the block machine steps, ends in the heap it says, and keeps place and contents of every block |
| KernelHeap.Heap32.PerformAll | RedFox32/Source/Kernel/Memory.c:82-225 | any run of sound calls on pointers `malloc` returned refines, in the byte heap, the run of the block machine and changes no payload byte of any block that existed before |
| KernelHeap.Heap32.PerformActs | RedFox32/Source/Kernel/Memory.c:82-225 | any run of calls and of stores into payloads: the block list is as the calls make it, and every byte of memory outside the headers holds what was stored there last, or what it held before |
| KernelHeap.Heap32.PayloadHoldsLastStored | RedFox32/Source/Kernel/Kernel.c:89-95 | after such a run every payload byte is the one last stored there |
| HeapCases.MovedContentsAreLost | RedFox32/Source/Kernel/Memory.c:214-223 | the first of two blocks grows by a byte: the new block does not hold the 7 stored in the old one |
| HeapCases.LoseContents | RedFox32/Source/Kernel/Memory.c:214-223 | that run from boot |
| HeapCases.ImitationsAreBelieved | RedFox32/Source/Kernel/Memory.c:82-213 | two runs from boot in which a pointer `malloc` never returned makes `free` and `realloc` overwrite payload bytes |
| HeapCases.SetUpAgain | RedFox32/Source/Kernel/Memory.c:229-233 | a heap with a block that setting up again leaves out of order |
| KernelHeap.Heap32.StorePayload | RedFox32/Source/Kernel/Kernel.c:89-95 | a store through a live block's pointer within the length it was told changes that byte only, and keeps the heap valid if it is within the block's capacity |
| KernelHeap.Heap32.Setup | RedFox32/Source/Kernel/Memory.c:229-233 | the position is reset and the list is not; the heap stays valid iff it has no block |
| KernelHeap.Heap32.ForwardWalk | RedFox32/Source/Kernel/Memory.c:162-178 | following Next from First visits exactly the NumAllocs blocks in increasing address order and ends at Last |
| KernelHeap.Heap32.BackwardWalk | RedFox32/Source/Kernel/Memory.c:164-178 | following Previous from Last visits the exact reverse |
| Console.ScrollRefines | RedFox32/Source/Kernel/TextMode.c:33-39 | scrolling for room leaves the terminal the window stands for unchanged |
| Console.BackspaceRefines | RedFox32/Source/Kernel/TextMode.c:56-66 | a backspace past cursor 0 is back, space, back on the terminal |
| Console.PutRefines | RedFox32/Source/Kernel/TextMode.c:31-72 | one character: the window follows the terminal and nothing outside it is touched, unless it is a backspace at cursor 0 |
| Console.TypeInNumbers | RedFox32/Source/Kernel/TextMode.c:40-70 | what one character does to every cell of the terminal and to its cursor: newline, tab, backspace and any other, with the space 0x20 that tab and backspace leave |
| Console.RunRefines | RedFox32/Source/Kernel/TextMode.c:31-81 | any run of characters without such a backspace keeps the window on the terminal |
| Console.ConsoleIsWindow | RedFox32/Source/Kernel/TextMode.c:31-125 | from a cleared screen: cursor even and at most 4000, all writes inside, and cell i is terminal cell i + 160 for each row scrolled |
| Console.StrayExactly | RedFox32/Source/Kernel/TextMode.c:56-66 | a run writes outside video memory iff it issues a backspace at cursor 0 |
| Console.EscapeGoesAstray | RedFox32/Source/Kernel/TextMode.c:56-66 | what that backspace does: two stray writes, cursor at 2^32 - 162 |
| Console.ClampNeverActs | RedFox32/Source/Kernel/TextMode.c:56-66 | from no cursor at all does the clamp behind a backspace have an effect |
| Console.NoBackspaceIsClean | RedFox32/Source/Kernel/TextMode.c:31-72 | text without backspaces never strays |
| Console.ScrollsAdd | RedFox32/Source/Kernel/TextMode.c:10-29 | up to 12 rows a scroll moves cell i + 160L to i and blanks the rest, and two scrolls are one of their sum |
| Console.LongScrollLeavesCells | RedFox32/Source/Kernel/TextMode.c:10-29 | from 13 to 25 rows, which cells keep their old value |
| Console.NoScrollBlanks | RedFox32/Source/Kernel/TextMode.c:10-29 | a scroll by no rows blanks the screen |
| Console.LongScrollsDoNotAdd | RedFox32/Source/Kernel/TextMode.c:10-29 | for all scrolls adding up to 13 to 24 rows, a screen on which they differ from one scroll |
| Console.VideoConsole.ShowsTape | RedFox32/Source/Kernel/TextMode.c:31-97 | after any sequence of calls, the driver's video memory shows the terminal with everything issued typed into it, and no write has strayed iff no backspace was issued at cursor 0 |
| Console.VideoConsole.ScrollScreen | RedFox32/Source/Kernel/TextMode.c:10-29 | the overlapping read-and-zero loop in place leaves the scrolled screen |
| Console.VideoConsole.Draw | RedFox32/Source/Kernel/TextMode.c:31-72 | the body of `putch`, with its recursive calls, on the video buffer |
| Console.VideoConsole.Putch | RedFox32/Source/Kernel/TextMode.c:31-72 | `putch` appends its glyph to the record of what was issued |
| Console.VideoConsole.Puts | RedFox32/Source/Kernel/TextMode.c:74-81 | prints exactly the bytes in front of the NUL |
| Console.VideoConsole.PutchHex | RedFox32/Source/Kernel/TextMode.c:83-97 | prints the two digits of the byte, negative `char`s included |
| Console.VideoConsole.ClearScreen | RedFox32/Source/Kernel/TextMode.c:118-125 | blanks the buffer: the screen stands for the empty terminal |
| MemoryMapDisplay.MmapDisplay | RedFox32/Source/Kernel/Memory.c:13-56 | the nested loops issue exactly the header and one row for each entry |
| MemoryMapDisplay.PrintRow | RedFox32/Source/Kernel/Memory.c:42-54 | one entry as six fields, the pointer advanced by 24 bytes |
| MemoryMapDisplay.PrintField | RedFox32/Source/Kernel/Memory.c:44-51 | one word, printed from its last byte down |
| MemoryMapDisplay.HexDownIsWord | RedFox32/Source/Kernel/Memory.c:45-49 | the eight digits read as a hexadecimal number are the little-endian word |
| MemoryMapDisplay.HexWordIsWord | RedFox32/Source/Kernel/Memory.c:19-24 | the digits of the count read back as the count |
| MemoryMapDisplay.TypeLine | RedFox32/Source/Kernel/TextMode.c:42-45 | a line below 80 columns takes one row, disturbs no other, and can be read off the terminal |
| MemoryMapDisplay.DisplayRoundTrip | RedFox32/Source/Kernel/Memory.c:13-56 | the printout takes 3 + n rows, leaves the rows above alone, and parsing it gives back the count and the six words of every entry |
| MemoryMapDisplay.HeadersOnTape | RedFox32/Source/Kernel/Memory.c:15-31 | the three lines above the entries can be read off the terminal after everything has been printed |
| MemoryMapDisplay.TitleSpells | RedFox32/Source/Kernel/Memory.c:15-15 | the text of the title |
| MemoryMapDisplay.LabelOverField | RedFox32/Source/Kernel/Memory.c:29-31 | LOW, HIGH, LEN LOW, LEN HIGH, TYPE and ACPI begin in the columns of fields 0 to 5 |
| MemoryMapDisplay.FieldText | RedFox32/Source/Kernel/Memory.c:44-52 | every field is 0x, eight digits and two spaces |
| MemoryMapDisplay.DisplayColours | RedFox32/Source/Kernel/Memory.c:15-53 | the title line has colour 0x0C and everything else 0x0B |
| MemoryMapDisplay.DisplayOnScreen | RedFox32/Source/Kernel/Memory.c:13-56 | whatever was on the screen, every field not scrolled away parses off video memory to the word printed |
| MemoryMapCollector.KeepIsFilter | RedFox32/Source/BootloaderStage2/Stage2A.asm:223-237 | for any answers the kept entries are an order-preserving selection of what they leave in their slots, with every accepted answer in it |
| MemoryMapCollector.SelfContainedAnswersAreFiltered | RedFox32/Source/BootloaderStage2/Stage2A.asm:223-237 | for self-contained answers the entries are exactly the padded answers of nonzero size and length whose valid bit, if announced and written, is set, in their order and whatever memory held |
| MemoryMapCollector.JudgedAloneExactly | RedFox32/Source/BootloaderStage2/Stage2A.asm:216-235 | what becomes of an answer is the same over every slot iff it writes at least 20 bytes, reports no size, or writes a zero length |
| MemoryMapCollector.StaleBytesDecide | RedFox32/Source/BootloaderStage2/Stage2A.asm:216-235 | an answer that is kept over a slot of ones and skipped over a slot of zeros |
| MemoryMapCollector.ScanStep | RedFox32/Source/BootloaderStage2/Stage2A.asm:216-238 | one round of the loop extends the filter by one answer, or ends the list |
| MemoryMapCollector.ExaminedExactly | RedFox32/Source/BootloaderStage2/Stage2A.asm:208-238 | which answers are looked at: up to the first with continuation value 0, or up to the first later one with an error |
| MemoryMapCollector.Collector.Ask | RedFox32/Source/BootloaderStage2/Stage2A.asm:216-220 | the answer lands in its slot; bytes it does not cover are the attribute word 1 and what the slot held |
| MemoryMapCollector.Collector.Accepts | RedFox32/Source/BootloaderStage2/Stage2A.asm:223-232 | the tests on the slot's bytes decide as the answer deserves |
| MemoryMapCollector.Collector.CreateMemoryMap | RedFox32/Source/BootloaderStage2/Stage2A.asm:197-245 | fails exactly if the first answer has the carry set, another signature than SMAP or no continuation, changing nothing below the table; otherwise the table is the filter of the answers examined, contiguous from 0x8004, and the stored count is its length |
| BootMap.Collect | RedFox32/Source/BootloaderStage2/Stage2A.asm:67-68 | with the word zeroed first, the 32-bit count the kernel reads is the number of entries in the table, 0 if the first call failed |
| BootMap.CollectAndPrint | RedFox32/Source/Kernel/Memory.c:8-54 | the kernel prints as many rows as that word says from the bytes behind it, which are the entries collected, and `MMAP_Length` is the bytes in use from 0x8000 on |
| BootMap.PrintoutIsBiosMap | RedFox32/Source/Kernel/Memory.c:36-54 | every field of the printout of the table in memory parses to a word of the answer accepted at that place |
| FloppyController.ChsRoundTrip | RedFox32/Old/Source/BootloaderStage2/FDC.c:275-284 | below 2880 the cylinder, head and sector fit their bytes and locate the same sector |
| FloppyController.EverySectorIsCounted | RedFox32/Old/Source/BootloaderStage2/FDC.c:275-284 | and every address of the disk is that of a sector below 2880 |
| FloppyController.ArrivalExactly | RedFox32/Old/Source/BootloaderStage2/FDC.c:211-229 | a seek arrives iff the cylinder LBA/36 is among the reports, and in time iff it is among the first 500 |
| FloppyController.Fdc.TimeoutPanic | RedFox32/Old/Source/BootloaderStage2/FDC.c:88-94 | the reset sequence leaves the controller idle with the motor bit dropped |
| FloppyController.Fdc.Seek | RedFox32/Old/Source/BootloaderStage2/FDC.c:211-229 | ends at the first report of the cylinder asked for; every sense has followed a seek command 15, head * 4, cylinder; the motor is still on iff it ended within 500 tries; no sector moves |
| FloppyController.Fdc.Command | RedFox32/Old/Source/BootloaderStage2/FDC.c:247-259 | sends its nine bytes, which move the sector at that address iff the motor runs, the arm was sent there and is there, and the DMA direction fits |
| FloppyController.Fdc.ReadWriteGeneric | RedFox32/Old/Source/BootloaderStage2/FDC.c:235-273 | the whole sequence moves one sector iff the seek was in time, and leaves the motor off |
| FloppyController.Fdc.ReadLba | RedFox32/Old/Source/BootloaderStage2/FDC.c:286-296 | returns iff the sector is off the disk or the seek arrives; the read is then served iff it was in time; what is sent is 0x1C, seeks to cylinder LBA/36 only, then mode 0x56 and the nine command bytes for that LBA, 8, and 0x0C; off the disk nothing is touched |
| FloppyController.Fdc.WriteLba | RedFox32/Old/Source/BootloaderStage2/FDC.c:298-308 | the same for a write, with mode 0x5A and its command |
| FloppyController.Fdc.Perform | RedFox32/Old/Source/BootloaderStage2/FDC.c:286-308 | a call that returns has served its request iff the sector is off the disk, the seek was in time, or serving would change nothing |
| FloppyController.Fdc.PerformAll | RedFox32/Old/Source/BootloaderStage2/FDC.c:235-308 | for any reports and any run of calls, sectors and buffer end as an array of 2880 sectors that served exactly the requests in time; with every seek in time that is the whole run; the motor is off once the disk was used |
| FloppyController.Fdc.PerformLate | RedFox32/Old/Source/BootloaderStage2/FDC.c:224-228 | 500 wrong reports and then the right one: the call returns with the motor off and nothing moved |
| FloppyController.AllInTimeServesAll | RedFox32/Old/Source/BootloaderStage2/FDC.c:235-308 | with every seek in time every call returns and the requests served are the whole run |
| FloppyController.ReadsWhatWasWritten | RedFox32/Old/Source/BootloaderStage2/FDC.c:286-308 | a sector written is read back whatever else is transferred in between |
| SectorMap.ShiftsAreMask | RedFox32/Old/Source/Kernel/FileSystem.c:69-71 | the two shift expressions pick out the same bit |
| SectorMap.FlipBit | RedFox32/Old/Source/Kernel/FileSystem.c:86-86 | the exclusive or changes one bit of the group |
| SectorMap.MarkIsUpdate | RedFox32/Old/Source/Kernel/FileSystem.c:75-89 | marking settles that sector's status, keeps every other sector's and the two counters |
| SectorMap.SameUsedSameMap | RedFox32/Old/Source/Kernel/FileSystem.c:27-33 | the map bytes are determined by which sectors are used |
| SectorMap.MarksCommute | RedFox32/Old/Source/Kernel/FileSystem.c:75-89 | marking is idempotent and marks of different sectors commute |
| SectorMap.BitmapIsSet | RedFox32/Old/Source/Kernel/FileSystem.c:64-89 | any sequence of markings is a sequence of insertions into and removals from a set of sectors |
| SectorMap.FileSystem.GetSectorStatus | RedFox32/Old/Source/Kernel/FileSystem.c:64-73 | 1 for a used sector, 0 for a free one: bit 7 - Sector % 8 of byte Sector / 8 |
| SectorMap.FileSystem.SetSectorStatus | RedFox32/Old/Source/Kernel/FileSystem.c:75-89 | makes that bit 1 for any nonzero status and 0 otherwise, and changes no other bit |
| SectorMap.FileSystem.LoadSectorMap | RedFox32/Old/Source/Kernel/FileSystem.c:46-53 | the map becomes the first 364 bytes of the buffer, those of its sector if the seek was in time |
| SectorMap.FileSystem.WriteSectorMapChanges | RedFox32/Old/Source/Kernel/FileSystem.c:103-111 | for every outcome of the two seeks, whether the save returns, which bytes reach the disk and which reports are left; and exactly when nothing but the map changes |
| SectorMap.FileSystem.SaveLate | RedFox32/Old/Source/Kernel/FileSystem.c:103-111 | a save with a late read and a timely write, which overwrites the bytes behind the map |
| SectorMap.FileSystem.SaveLoseLoad | RedFox32/Old/Source/Kernel/FileSystem.c:46-111 | markings, a save, any loss of the copy in memory and a load, run by the driver with its three seeks in time: the map is what the markings made it, a query answers as a set of sectors does, and nothing else on the disk has changed |
| FrameBuffer.AddrComputed | RedFox32/Old/Source/Drivers/VESA/VESA.c:130-130 | the 32-bit address expression is the start of the row, counted in strides, plus three bytes for each column, less a multiple of 2^32 |
| FrameBuffer.AddrApart | RedFox32/Old/Source/Drivers/VESA/VESA.c:128-134 | different pixels of a frame have offsets three bytes apart |
| FrameBuffer.PixelsApartExactly | RedFox32/Old/Source/Drivers/VESA/VESA.c:128-134 | no two pixels share a byte, addresses taken modulo 2^32, iff the frame is at most 2^32 bytes long |
| FrameBuffer.LargestResolutionClashes | RedFox32/Old/Source/Drivers/VESA/VESA.c:128-134 | at 65535 by 65535 two pixels share a byte |
| FrameBuffer.SetPixelSetsOne | RedFox32/Old/Source/Drivers/VESA/VESA.c:128-134 | drawing a pixel gives it its colour and leaves every other pixel |
| FrameBuffer.PixelInBytes | RedFox32/Old/Source/Drivers/VESA/VESA.c:128-134 | a pixel is the bytes blue, green, red at 3 * X + Y * 3 * XResolution |
| FrameBuffer.PixelsAreAll | RedFox32/Old/Source/Drivers/VESA/VESA.c:128-134 | the pixels cover every byte, so equal pixels are equal buffers |
| FrameBuffer.RectPaint | RedFox32/Old/Source/Drivers/VESA/VESA.c:136-149 | drawing every pixel of a rectangle gives each its paint and leaves every pixel outside |
| FrameBuffer.RectIsBorder | RedFox32/Old/Source/Drivers/VESA/VESA.c:151-173 | colour on the border, black inside, unchanged outside |
| FrameBuffer.Vesa.DrawPixel | RedFox32/Old/Source/Drivers/VESA/VESA.c:128-134 | stores blue, green and red in the three bytes at 3 * X + Y * 3 * XResolution and nothing else |
| FrameBuffer.Vesa.DrawFillRect | RedFox32/Old/Source/Drivers/VESA/VESA.c:136-149 | for every resolution whose frame fits 32 bits, the pointer walk gives every pixel of the rectangle the colour and leaves every other pixel as it was |
| FrameBuffer.Vesa.DrawRect | RedFox32/Old/Source/Drivers/VESA/VESA.c:151-173 | the pointer walk leaves the colour on the border, black inside and every other pixel as it was |
| FrameBuffer.Vesa.DrawChar | RedFox32/Old/Source/Drivers/VESA/VESA.c:175-193 | for every scale whose counters can finish, pixel (x, y) of the square is coloured if bit x / scale of font byte y / scale is set and black otherwise, and every other pixel is as it was |
| FrameBuffer.Vesa.TestFont | RedFox32/Old/Source/Drivers/VESA/VESA.c:183-183 | the table look-up and mask test the font bit of the cell the coordinates fall into |
| FrameBuffer.FontBitInNumbers | RedFox32/Old/Source/Drivers/VESA/VESA.c:178-183 | column 0 of a font row is its least significant bit |
| FrameBuffer.CountersReachExactly | RedFox32/Old/Source/Drivers/VESA/VESA.c:179-181 | counting up from 0 in 8 bits reaches the size modulo 2^32 after some number of rounds iff it is at most 255, so for scales 1 to 31 and no other small ones |
| FrameBuffer.CellIsQuotient | RedFox32/Old/Source/Drivers/VESA/VESA.c:183-183 | dividing by the scale finds the block a coordinate lies in |
| FrameBuffer.DrawnGlyphShows | RedFox32/Old/Source/Drivers/VESA/VESA.c:175-193 | after drawing, every pixel of the square has the colour of its font bit |
| FrameBuffer.ScaledGlyph | RedFox32/Old/Source/Drivers/VESA/VESA.c:175-193 | the scaled drawing is the block enlargement of the unscaled one |
| Keyboard.ScancodeRoundTrip | RedFox32/Source/Kernel/Keyboard.c:27-48 | parsing inverts sending for every key except the unprefixed release of 0x60 |
| Keyboard.HandleMoves | RedFox32/Source/Kernel/Keyboard.c:25-128 | the same of the key machine |
| Keyboard.HeldMeaning | RedFox32/Source/Kernel/Keyboard.c:54-103 | over any stream each held modifier is as its key was last seen |
| Keyboard.LockMeaning | RedFox32/Source/Kernel/Keyboard.c:69-88 | over any stream each lock is the parity of the releases of its key |
| Keyboard.PostedCharacter | RedFox32/Source/Kernel/Keyboard.c:112-115 | the character posted is the table entry chosen by either shift and the parity of caps lock releases |
| Keyboard.PostedEvents | RedFox32/Source/Kernel/Keyboard.c:117-128 | the events posted depend on the keys alone, not on the readers in between |
| Keyboard.MailboxIsSafe | RedFox32/Source/Kernel/Keyboard.c:20-167 | over any interleaving: a waiting event carries the current modifiers, and the delivered events are an increasing selection of the posted ones |
| Keyboard.DeliveredModifiers | RedFox32/Source/Kernel/Keyboard.c:20-167 | a read that finds an event delivers the mailbox with the modifiers of that moment, which is the event as posted iff the modifiers are the same as then |
| Keyboard.ShiftAfterKey | RedFox32/Source/Kernel/Keyboard.c:20-128 | a run in which an event posted without the shift is delivered with it |
| Keyboard.KeycodeTellsKey | RedFox32/Source/Kernel/Keyboard.c:117-128 | keycode and direction of an event determine the key, prefix included |
| Keyboard.DeliveredExactly | RedFox32/Source/Kernel/Keyboard.c:117-167 | a posted event is delivered iff a read comes before the next event is posted |
| Keyboard.ReadyExactly | RedFox32/Source/Kernel/Keyboard.c:157-167 | a reader finds an event iff an ordinary key has come since the last read |
| Keyboard.Driver.Switch | RedFox32/Source/Kernel/Keyboard.c:52-104 | the switch updates one modifier and the waiting event's copy, and tells modifier keys from others |
| Keyboard.Driver.Handler | RedFox32/Source/Kernel/Keyboard.c:25-128 | one interrupt refines one step of the key machine; in raw bytes, each scancode moves its own modifier, and an ordinary one leaves an event with its low seven bits, 0x0E above them behind the prefix 0xE0, the direction, the modifiers and the character they select |
| Keyboard.Driver.GetEvent | RedFox32/Source/Kernel/Keyboard.c:157-167 | hands over the waiting event and clears the mailbox |
| Keyboard.Driver.Serve | RedFox32/Source/Kernel/Keyboard.c:25-167 | any run of interrupt bytes and readers from boot: the driver is where the key machine is, and the readers have received exactly what it delivers |

## Left out

- Interrupts, the PIC, IRQ waits, port input and output, FIFO status polling, DMA programming, A20, the GDT and mode switching: hardware effects. What devices answer is a parameter: the BIOS responses, the cylinders a seek reports, the scancodes.
- KernelHeap.Heap32.Malloc, KernelHeap.Heap32.CanSafelyAllocate and KernelHeap.Heap32.Realloc: a fuel parameter bounds the mutual recursion. For a request that recurses forever they run out of every fuel, and a request that stops the machine does so once the fuel exceeds a stated number; the finite kernel stack and the printed out-of-memory message are not modelled.
- KernelHeap.Heap32.CanSafelyAllocate: the entries are a list, so how `Entries` is reached is not modelled, nor a count of 2^31 entries or more, for which the signed loop index would overflow.
- KernelHeap.Heap32.Free: the message printed for an invalid `free` is not modelled.
- KernelHeap.Heap32.Realloc: does not model a pointer below 17 in front of which the magic word is found, whose header would wrap around the end of the address space.
- KernelHeap.Heap32.PerformAll: the run passes only pointers `malloc` returned, as its callers must; what a single call does with any other pointer is in `Free` and `Realloc`.
- KernelHeap.Heap32.StorePayload: stores of the kernel beyond the length it was told are not modelled, nor memory-mapped devices or code inside the address range of the heap.
- Console.VideoConsole.ScrollScreen: does not model more than 25 rows, for which the loop's end test is never met before the pointer has left video memory; `putch` only ever scrolls one row.
- Console.VideoConsole.Draw: a store outside video memory is recorded, and its effect on whatever lies there is not modelled.
- MemoryMapDisplay.MmapDisplay: the entries are the bytes given, wherever in memory they lie. A count with the top bit set prints no rows, as the signed comparison has it.
- MemoryMapCollector.Collector.CreateMemoryMap: does not model a BIOS that writes more than the 24 bytes it is asked for, or a table of examined answers that runs past the 16-bit offset.
- FloppyController.Fdc.ReadWriteGeneric: the recording of what is sent is part of the model; the status and result bytes are read and ignored by the driver and are not modelled; the drive's reaction to the bytes it is sent is an assumption of the model, spelled out in `Transfer` and `React`.
- FloppyController.Fdc.TimeoutPanic: the data rate register and the wait for the reset interrupt are left out; calibration is disabled in the source.
- SectorMap.FileSystem.GetSectorStatus and SectorMap.FileSystem.SetSectorStatus: sector numbers from 2880 on, which index past the map, are not modelled.
- FrameBuffer.Vesa.DrawFillRect, FrameBuffer.Vesa.DrawRect and FrameBuffer.Vesa.DrawChar: rectangles and glyphs that leave the screen, and resolutions whose frame exceeds 2^32 bytes, are not modelled; the physical base address is taken as offset 0 and colour depth as 24 bits.
- FrameBuffer.Vesa.DrawChar: does not model the scales for which it never ends; the font is a parameter.
- Keyboard.Driver.GetEvent: the copy is one step; an interrupt in the middle of the byte loop is not modelled, and waiting for an event is a returned flag.
- The keyboard LEDs, `Keyboard_getch`, and the contents of the layout tables, which are a parameter.
- `putch_binary`, the colour demo, `TextMode_Setup` apart from its effect, and the older console copies.
- File and directory reading, the two sector counters (never maintained by the source), and the root directory.
- IDT and system call tables, VESA mode setting, the strobe demo, and the kernel event loop.
