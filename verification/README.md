# SSMOS in Dafny

A model of the parts of the SSMOS kernel where one mistake spreads: the heap that keeps its headers inside the memory
it hands out, the strings and lists that live on that heap, the text screen and the command line built on both, the
interrupt stubs, and the boot loader's sector loop.

The model keeps the source's own form. Memory is one array of bytes whose index is the physical address; headers,
string records and list nodes are little-endian words in it, written one after the other as the C code does, and stated
byte by byte (`HeapState.HeaderBytes`, `DynString.StringBytes`, `LinkedList.NodeBytes`). The heap, the screen, the
command line, the processor and the loader are classes with the source's variables as fields. Beside each of them stands
a description without memory or machine, and the methods are proved to do what it says:

- **Heap** (`Blocks`, `HeapState`, `HeapView`, `Allocator`, `KernelHeap`, `HeapRuns`). A row of blocks that tiles the
  heap is read back from raw bytes along `next_ptr`; the bytes alone determine it. Callers see a map from live pointers
  to the bytes behind them. A request either adds one binding or stops the machine, a release removes one, and nothing
  else changes, whatever headers a split writes in between. `haltdump`, which never returns, is the outcome `Halted`
  (the flag `halted` of the methods).
- **Strings and lists** (`Numerals`, `CStrings`, `DynString`, `StringRuns`, `LinkedList`, `Desk`). Growable strings
  refine texts, and the doubly linked list refines a sequence, on the heap above and not on an assumed one. Any number
  of strings and the list live side by side without disturbing one another or any other live block.
- **Screen and command line** (`Screen`, `Pages`, `Sessions`, `Filing`, `Terminal`). Printing is a function of the text.
  The terminal is compared with `Shell`, a terminal that has no heap: the line, the lines entered before, the prompt,
  the color and the screen. `Filing` says how the heap holds the first three; `Seals` keeps that out of sight.
- **Interrupts** (`Interrupts`) and **boot** (`Boot`). A stack machine under any tree of nested interrupts; the address
  conversion and the load loop on every disk geometry.

Some promises of the source hold only on a condition, and the condition is proved exact:

- A request that returns is a live pointer to enough bytes exactly when it does not wrap while it is rounded and, on an
  untouched heap, leaves room for a header (`Allocator.KmallocPromise`). The branch for an untouched heap ignores that
  `splitblock` may refuse; for rounded requests within 16 of 2^32 the refusal test itself wraps and the root header is
  overwritten (`Allocator.WrappedSplitCorrupts`). After one served request that branch is dead. A call of `krealloc` that
  returns keeps its promise exactly when the new size does not wrap (`Allocator.KreallocPromise`).
- The number buffer of 15 bytes holds every signed number exactly in bases 6 and above (`Numerals.FitsNumberBuffer`),
  and the digit loop stays inside its table exactly for numbers other than INT_MIN (`Numerals.DigitsInTable`).
- A printed message takes one row exactly when it has at most 79 characters (`Pages.OneRowExactlyWhenShort`). In a longer
  one the rows change every 79 characters and the columns start again every 80, so that its third row starts in the last
  column and each further one a column earlier (`Pages.LineCells`, `Pages.LineBytes`). A sector
  address leads back to its sector exactly when the cylinder fits a byte (`Boot.ChsRoundTrip`), and backspace on an
  empty line keeps the cursor behind the prompt exactly when there is a prompt (`Terminal.CursorNeedsPrompt`).
- The buffer of a string has room for its capacity exactly when the size does not wrap (`DynString.NewSzPromise`,
  `DynString.ResizePromise`); `string_newsz(0xFFFFFFFF)` gets a buffer without a byte (`DynString.NewSzExample`).
- A session leaves no block behind exactly when none of the commands entered does. `disk` and `syslog` do: each makes
  a string that it never frees (`Terminal.Console.RunTerminal`, `Sessions.LeftNone`, `Sessions.SyslogLeaves`).
- The kernel is loaded when no first read of a sector fails. The message printed before a retry overwrites `ah`, so no
  retry reads: after a failed read the loader hangs, or goes on without the sector (`Boot.Loader.LoadKernel`).

The heap never gives the machine back once it has halted, so it matters when it halts. A run of string operations halts
exactly when one of them finds no block where the ones before it lead (`StringRuns.RunAll`, `StringRuns.DrySomewhere`).
For the command line a largest free block of the cost of all lines suffices; `Spends` is that bound, stated for every
method that allocates (`Terminal.Console.ParseInput`, `Terminal.Console.RunTerminal`, `Terminal.Console.Init`).

Where comments and code disagree, the model follows the code: `splitblock` marks its first half used although its
header says neither half may be; `kmalloc` stops the machine and does not return NULL; `string_trim` leaves one byte
more than the text and its terminator; the room `tostring` needs depends on the base and not on `sizeof(val)`; the
number of heads is one more, not one less, than the BIOS reports.

## Model

| member | source | states |
|---|---|---|
| Bytes.ToFromBytes | kernel/memory.h:13-19 | four bytes are the only spelling of the word they make |
| Bytes.FromToBytes | kernel/memory.h:13-19 | a word written as bytes reads back as itself |
| Bytes.LoadBytes | kernel/memory.h:14-20 | the first of the four bytes of a word weighs 1, the next 0x100, and so on; they are the word's bytes from the least significant one up |
| Bytes.StoreBytes | kernel/memory.c:17-20 | a stored word stands in memory byte by byte, the least significant one first |
| Bytes.WriteWord | kernel/memory.c:17-20 | one field store: the four bytes are those of the word, least significant first, and every other byte is as it was |
| RawMemory.MemCpy | kernel/memory.c:207-215 | the forward loop copies faithfully unless the destination starts inside the source |
| RawMemory.CopiedBytes | kernel/memory.c:207-215 | a copy puts the source bytes at the destination and changes nothing else |
| RawMemory.MemSet | kernel/memory.c:217-225 | exactly the stretch named becomes the character |
| Blocks.TiledApart | kernel/memory.c:14-20 | blocks that tile the heap lie inside it and never overlap |
| Blocks.TiledAligned | kernel/memory.c:30-31 | every header address is a multiple of four |
| Blocks.RoundUp | kernel/memory.c:30-31 | the least multiple of four not below the request, or zero when the count wraps |
| Blocks.FirstFit | kernel/memory.c:41-49 | nothing before the block found fits, and the block found does |
| Blocks.SplitKeepsTiling | kernel/memory.c:92-109 | a split leaves the heap tiled without gap or overlap |
| Blocks.SplitKeepsPrevs | kernel/memory.c:102-103 | every back pointer still names an earlier header, although a split does not update the successor's |
| Blocks.SplitRefines | kernel/memory.c:100-106 | a split adds one header address and removes none |
| Blocks.Accounting | kernel/memory.c:162-190 | free bytes, used bytes and one header a block add up to the heap; the two counts add up to the blocks |
| Blocks.RequestSpends | kernel/memory.c:40-61 | a request no larger than the largest free block finds a block, and takes from the largest no more than its rounded size, a header and the split threshold |
| HeapState.WalkReadsRow | kernel/memory.c:124-128 | the walk along next_ptr from the root ends and reads back exactly the blocks that tile the heap |
| HeapState.RowUnique | kernel/memory.c:124-128 | the bytes of memory determine the row of blocks |
| HeapState.HeaderBytes | kernel/memory.h:14-20 | every header byte by byte: next_ptr, prev_ptr, block_size and is_free in this order, each little-endian |
| HeapState.WalkBackReachesRoot | kernel/memory.c:102 | following prev_ptr from any header reaches the root within as many steps as there are earlier headers |
| HeapState.PayloadFrame | kernel/memory.c:207-225 | stores behind a pointer leave every header as it was |
| HeapState.MarkInv | kernel/memory.c:59-90 | rewriting is_free keeps the heap well-formed |
| HeapState.SplitBytesEffect | kernel/memory.c:100-108 | the seven stores of splitblock, in source order, make two headers and touch no other byte |
| HeapState.SplitMemoryUnique | kernel/memory.c:100-108 | only one memory has the two headers of a split and every other byte unchanged |
| HeapState.SplitBlockSplits | kernel/memory.c:92-109 | on a free block with room, the 32-bit tests and sums of splitblock come to that split |
| HeapState.SplitBlockRefuses | kernel/memory.c:94-97 | on a used block, or without room, and without wrapping, it does nothing |
| HeapState.SplitInv | kernel/memory.c:92-109 | the heap after a split is well-formed |
| HeapView.ViewDisjoint | kernel/memory.c:192-200 | different live pointers own disjoint bytes above the first header |
| HeapView.TakeView | kernel/memory.c:57-61 | taking a block whole adds its pointer and bytes, and changes no other binding |
| HeapView.CutView | kernel/memory.c:52-56 | splitting a block adds its first bytes, and changes no other binding although headers are written |
| HeapView.FreeView | kernel/memory.c:83-90 | freeing a block removes its pointer and nothing else |
| HeapView.WriteView | kernel/memory.c:207-225 | stores behind a live pointer change its own bytes in the view and keep the heap well-formed |
| HeapView.UsedBlocksAreLive | kernel/memory.c:147-160 | used_blocks is the number of live pointers |
| HeapView.UsedMemoryIsLive | kernel/memory.c:177-190 | used_memory is the number of bytes behind all live pointers together |
| Allocator.KmallocDelivers | kernel/memory.c:26-62 | a servable request that returns gives a new live pointer to at least the rounded size, beside all others unchanged |
| Allocator.KmallocPromise | kernel/memory.c:26-62 | it delivers at least the requested bytes if and only if it is servable |
| Allocator.RefusedExample | kernel/memory.c:33-38 | a first request for 2000 bytes on a heap of 1 KiB returns a pointer that is not live, and the same one every time |
| Allocator.WrappedExample | kernel/memory.c:30-38 | a first request for 0xFFFFFFFF bytes returns a pointer with no byte behind it |
| Allocator.KmallocRow | kernel/memory.c:26-62 | a request changes the row of blocks as one function of the row and the rounded size says, or halts for want of a block |
| Allocator.WrappedSplitCorrupts | kernel/memory.c:33-38 | after a wrapped split no row of blocks describes memory |
| Allocator.KmallocHalts | kernel/memory.c:40-49 | kmalloc stops the machine exactly when something was allocated before and every free block is smaller than the rounded request |
| Allocator.KmallocFirstFit | kernel/memory.c:40-61 | otherwise it serves the fitting block with the lowest address |
| Allocator.KmallocLeaves | kernel/memory.c:51-61 | twenty bytes or more to spare become a free block whose back pointer names the block it was cut from, fewer stay with the caller, and every other block, the successor's back pointer included, is as it was |
| Allocator.KfreeReleases | kernel/memory.c:83-90 | kfree takes its pointer out of the view and touches nothing else |
| Allocator.KreallocMoves | kernel/memory.c:64-81 | room for the new size, the old bytes in front, every other pointer untouched; the same pointer when it fits |
| Allocator.KreallocPromise | kernel/memory.c:64-81 | for every size: a call that returns gives room for it, the old bytes in front and every other pointer untouched if and only if the size does not wrap |
| Allocator.KreallocFails | kernel/memory.c:64-81 | a size that wraps breaks the promise whenever any block is free |
| Allocator.KreallocHalts | kernel/memory.c:64-81 | krealloc stops the machine exactly when the block is too small and no free block is large enough |
| Allocator.MoveOutBytes | kernel/memory.c:70-73 | the copy may always run forwards, and copy and kfree give the stated bytes, even where the copy overruns the new block |
| Allocator.CopyView | kernel/memory.c:71 | the copy of krealloc never overlaps its source and changes only the new block |
| Allocator.MallocFreeMalloc | kernel/memory.c:26-90 | malloc, free and malloc of one size give the same pointer and the same memory, byte for byte |
| Allocator.MallocLeaves | kernel/memory.c:33-38 | after a served request there are at least two blocks |
| KernelHeap.Heap.constructor | kernel/memory.c:14-24 | memory_init leaves one free block over the whole heap, whatever was there before; its sixteen bytes are spelled out |
| KernelHeap.Heap.CountUp | kernel/memory.c:30-31 | the counting loop computes the rounded request |
| KernelHeap.Heap.FindFit | kernel/memory.c:40-49 | the search over raw headers ends at the first fit |
| KernelHeap.Heap.Kmalloc | kernel/memory.c:26-62 | kmalloc on raw memory ends as Allocator.Kmalloc says, halting and overwriting included |
| KernelHeap.Heap.Kfree | kernel/memory.c:83-90 | kfree on raw memory; the view loses exactly its pointer |
| KernelHeap.Heap.Krealloc | kernel/memory.c:64-81 | krealloc on raw memory ends as Allocator.Krealloc says, an overrun after a wrapped size included |
| KernelHeap.Heap.MoveBytes | kernel/memory.c:70-73 | the copy and the free of krealloc |
| KernelHeap.Heap.SplitBlock | kernel/memory.c:92-109 | splitblock on raw memory, with its test and sums modulo 2^32 |
| KernelHeap.Heap.FillNewBlock | kernel/memory.c:100-104 | the header of the part cut off |
| KernelHeap.Heap.TotalBlocks | kernel/memory.c:119-130 | the walking loop counts the blocks that tile the heap |
| KernelHeap.Heap.FreeBlocks | kernel/memory.c:132-145 | the walking loop counts the free blocks |
| KernelHeap.Heap.UsedBlocks | kernel/memory.c:147-160 | the walking loop counts the used blocks |
| KernelHeap.Heap.FreeMemory | kernel/memory.c:162-175 | the walking loop sums the free payload |
| KernelHeap.Heap.UsedMemory | kernel/memory.c:177-190 | the walking loop sums the used payload |
| KernelHeap.Heap.Malloc | lib/system.c:16-25 | what a caller of malloc may count on, without seeing headers, and exactly when it halts |
| KernelHeap.Heap.Realloc | lib/system.c:27-37 | what a caller of realloc may count on, and exactly when it halts |
| KernelHeap.Heap.Free | lib/system.c:39-45 | what a caller of free may count on |
| HeapRuns.StepSafe | kernel/memory.c:26-109 | each legal request, release or store keeps the heap well-formed and every accounted byte |
| HeapRuns.StepAccounts | kernel/memory.c:26-109 | the account a run keeps: a request adds as many bytes as were asked for, a release takes its pointer away, realloc carries over the bytes both sizes have, and a store changes one byte |
| HeapRuns.RunSafe | kernel/memory.c:26-109 | so does every legal run |
| HeapRuns.RunFiner | kernel/memory.c:92-109 | over any run a header address once created stays one |
| HeapRuns.NeverLoneAgain | kernel/memory.c:33-38 | once there are two blocks every request up to the wrapping limit is legal for the rest of the run |
| HeapRuns.BlockBound | kernel/memory.c:92-109 | a heap of n KiB never has more than 64 n blocks |
| HeapRuns.RunKeepsPromises | kernel/memory.c:14-190 | after any legal run the bytes alone give a tiling, all live bytes are in place and disjoint, and the sums agree |
| HeapRuns.RunFromInit | kernel/memory.c:14-190 | the same for every legal run from an initialized heap |
| Numerals.ParseIntText | lib/string.c:167-193 | reading back the signed digits gives the number, in every base from 2 to 35 |
| Numerals.IntTextDigits | lib/string.c:179-192 | a minus sign in front exactly for negative numbers, and digit k from the end is the number divided by base^k modulo base |
| Numerals.DigitTable | lib/string.c:172 | the digits are the decimals and the small letters of the table, in order |
| Numerals.NumeralCanonical | lib/string.c:182-185 | only digits of the base, and no leading zero |
| Numerals.NumeralUnique | lib/string.c:182-185 | no other canonical text reads back as the number |
| Numerals.NumeralLength | lib/string.c:182-185 | at most k digits exactly when the number is below base^k |
| Numerals.FitsNumberBuffer | lib/string.h:5 | 15 bytes suffice for every number if and only if the base is at least 6 |
| Numerals.DigitsInTable | lib/string.c:172-185 | every index into the digit table is in range if and only if the number is not INT_MIN |
| CStrings.StrRev | lib/string.c:118-127 | the stretch is reversed in place, character by character, nothing else changes, and an empty stretch is left alone |
| CStrings.ToString | lib/string.c:167-193 | the text of the number and a terminator are written, and not a byte more; nothing for an invalid base |
| CStrings.WriteDigits | lib/string.c:182-185 | the digit loop writes the numeral backwards |
| CStrings.CStrUnique | lib/string.c:15-27 | the C string at an address is unique |
| CStrings.StrLen | lib/string.c:15-27 | the number of characters before the first NUL |
| CStrings.StrCpy | lib/string.c:29-43 | the text and its terminator at the destination, and nothing else changed |
| CStrings.StrCat | lib/string.c:45-64 | the text laid over the terminator of the first |
| CStrings.StrCmp | lib/string.c:89-111 | the loop over two C strings answers -1, 0 or 1 as Compare says of their texts, and -1 if and only if the first is a proper prefix or has the smaller signed character at the first difference |
| CStrings.CompareSign | lib/string.c:89-111 | Compare is -1 if and only if the first text is a proper prefix of the second or has the smaller signed character where they first differ |
| CStrings.Signed | lib/string.c:98-101 | a character counts as the signed 8-bit number it is modulo 256 |
| CStrings.CompareEqual | lib/string.c:89-111 | strcmp answers zero for equal texts and for no others |
| CStrings.CompareSwapped | lib/string.c:89-111 | with its arguments swapped strcmp answers the opposite |
| CStrings.CompareTrans | lib/string.c:89-111 | the order of strcmp is transitive |
| CStrings.WithTextAppends | lib/string.c:45-64 | that makes the concatenation |
| DynString.NewSz | lib/string.c:204-217 | an empty text of the capacity asked for, in two fresh blocks; it halts exactly when one of the two blocks is not to be had |
| DynString.StringBytes | lib/string.h:35-39 | the record byte by byte, the address of the buffer and then the capacity, and text and terminator in the buffer |
| DynString.NewSzPromise | lib/string.c:204-217 | the buffer taken behind the record has room for the capacity if and only if the size does not wrap |
| DynString.NewSzExample | lib/string.c:204-217 | string_newsz(0xFFFFFFFF) gets an empty buffer and writes the terminator past its end |
| DynString.FreeString | lib/string.c:219-226 | both blocks go and nothing else does |
| DynString.Add | lib/string.c:238-248 | the argument is appended, in the larger of the old and the needed capacity; only this string changes; it halts exactly when the text must grow and no block is large enough |
| DynString.AddChar | lib/string.c:250-264 | the character is appended; the capacity grows by two exactly when fewer than two bytes would be left; it halts exactly when it must grow and no block is large enough |
| DynString.CharCapacity | lib/string.c:255-256 | the capacity stays exactly when three bytes more than the text are there, and grows by two otherwise |
| DynString.AddNum | lib/string.c:266-275 | the signed digits are appended through the number buffer, allocated on first use; other blocks are unchanged |
| DynString.Set | lib/string.c:277-286 | the argument replaces the text; only this string changes; it halts exactly when the text must grow and no block is large enough |
| DynString.Trim | lib/string.c:288-294 | the text stays, and the capacity becomes its length and two; it halts exactly when no block is large enough |
| DynString.Clear | lib/string.c:296-307 | zeros over the whole capacity, which stays |
| DynString.Resize | lib/string.c:309-324 | the text is cut to the new length and terminated inside the new capacity; it halts exactly when the buffer is too small and no block is large enough |
| DynString.Truncated | lib/string.c:319-323 | the cut text is a prefix that fits, and the longest one |
| DynString.ResizePromise | lib/string.c:309-324 | the buffer a resize leaves has room for the new capacity if and only if the size does not wrap |
| DynString.Padding | lib/string.c:326-332 | the capacity behind the terminator, or -1 without a string |
| DynString.Resized | lib/string.c:314-323 | a moved or kept buffer, the new record and the repaired terminator make that text |
| DynString.FrameKeeps | lib/string.c:238-324 | an operation on one string leaves every separate string as it was, and separate |
| StringRuns.Perform | lib/string.c:204-324 | one operation on any number of strings does to their texts what Apply says and to no other live block anything; it halts exactly when Dry says, and leaves row and buffers where Next says |
| StringRuns.RunAll | lib/string.c:204-324 | so does any legal sequence of operations, aliasing excluded, number buffer included; it halts exactly when one of them runs dry |
| StringRuns.DrySomewhere | lib/string.c:204-324 | that is: exactly when some operation finds no block in the state to which the ones before it lead |
| StringRuns.RoomForRun | lib/string.c:204-324 | a run whose operations ask for no more than the largest free block never halts |
| StringRuns.WorldStep | lib/string.c:238-324 | all strings stay well-formed and disjoint when one changes within its frame |
| StringRuns.NumberStep | lib/string.c:266-275 | and when one grows by a number while the shared number buffer is rewritten |
| StringRuns.OutsideStep | lib/string.c:238-324 | a change of one string leaves every live block outside the strings with its bytes |
| StringRuns.LegalLow | lib/string.c:266-275 | writing the heap and the number buffer never spoils a literal used later |
| LinkedList.NodeBytes | lib/list.h:7-12 | every node byte by byte: value, the address of the next node, that of the one before, NULL at both ends |
| LinkedList.ListDetermined | lib/list.h:7-12 | memory determines the list from its first node |
| LinkedList.GetFirst | lib/list.c:154-162 | the first node, from any node |
| LinkedList.GetLast | lib/list.c:164-172 | the last node, from any node |
| LinkedList.ListCount | lib/list.c:121-147 | the number of nodes, from any node |
| LinkedList.GetAt | lib/list.c:174-193 | the node at the index, from any node, or NULL outside the list |
| LinkedList.ListNew | lib/list.c:8-17 | a list of one value in a fresh block |
| LinkedList.ListAdd | lib/list.c:34-46 | the value is appended; next and prev stay exact inverses; other blocks are unchanged |
| LinkedList.ListAddAt | lib/list.c:48-68 | the value goes behind the index; nothing happens outside the list |
| LinkedList.InsertedAt | lib/list.c:53-67 | the new element stands right behind the index and the others keep their order |
| LinkedList.ListRemove | lib/list.c:83-99 | the node is spliced out and freed |
| LinkedList.ListRemoveAt | lib/list.c:101-110 | the node at the index goes; nothing happens outside the list |
| LinkedList.WithoutAt | lib/list.c:92-96 | the others keep their order |
| LinkedList.ListRemoveLast | lib/list.c:112-118 | the last node goes |
| LinkedList.ListDelete | lib/list.c:19-32 | from any node, every node is freed once and nothing else, so the live pointers fall by the length |
| LinkedList.Inserted | lib/list.c:60-67 | a linked-in node makes the longer list |
| LinkedList.Removed | lib/list.c:92-96 | a spliced-out node makes the shorter list |
| Desk.DeskStep | kernel/terminal.c:135-174 | an operation on one string leaves the other strings, the list and every other live block alone |
| Desk.DeskFill | kernel/terminal.c:135-137 | a new string beside strings and a list |
| Desk.DeskList | kernel/terminal.c:148-151 | an operation on the list leaves the strings and every other live block alone |
| Desk.DeskCounts | kernel/terminal.c:135-239 | the live pointers are two for every string, one for every node, and the rest |
| Screen.GetPosition | lib/output.h:34-43 | an even offset inside the framebuffer for any x and y, and the cell itself when it exists |
| Screen.PositionOutside | lib/output.h:37-38 | rows outside count as the first or the last one, columns before a row as its start, and columns behind the screen as its last cell, offset 3998 |
| Screen.LayoutShows | kernel/graphics.c:113-138 | every printed character stands where it lands, with its color |
| Screen.LayoutElsewhere | kernel/graphics.c:113-138 | a cell on which no character lands keeps both bytes |
| Screen.LayoutStops | kernel/graphics.c:119 | what follows the NUL is never printed |
| Screen.AdvanceEven | kernel/graphics.c:160-167 | a newline moves to the next multiple of 160 |
| Screen.PutNIsLayout | kernel/graphics.c:85-111 | without a NUL kputstring is kprint of the first characters |
| Screen.PutNBlanks | kernel/graphics.c:105-106 | a NUL blanks exactly one cell more than kprint does |
| Screen.Display.HandleNewline | kernel/graphics.c:160-167 | the pointer moves to the start of the next row |
| Screen.Display.KPutChar | kernel/graphics.c:76-83 | one cell changes |
| Screen.Display.KPrint | kernel/graphics.c:113-138 | the framebuffer becomes the layout of the text, up to its NUL or the end of the screen, without leaving its 4000 bytes |
| Screen.Display.KPutString | kernel/graphics.c:85-111 | the same for at most n characters |
| Screen.Display.KPrintNum | kernel/graphics.c:140-144 | the layout of the signed digits |
| Screen.Display.KCColor | kernel/graphics.c:39-55 | exactly the color bytes of n cells change, as far as the screen goes |
| Screen.Display.KClear | kernel/graphics.c:33-37 | every byte is zero |
| Screen.Display.KScroll | kernel/graphics.c:57-74 | every row moves up by one and the last is blank |
| Pages.LastLines | kernel/terminal.c:243-304 | from any page that shows the end of a history, any sequence of short lines leaves exactly the last 25 lines, in order, one a row |
| Pages.ClearedShows | kernel/commands.c:318-328 | the page cls leaves shows nothing, whatever the color |
| Pages.LinesAfterClear | kernel/commands.c:318-328 | so the lines printed after cls, and only they, are on the screen |
| Pages.RecoloredShows | kernel/commands.c:361-367 | a change of color leaves the lines on the screen |
| Pages.WriteLineShows | kernel/terminal.c:243-261 | one more short line keeps the screen showing the end of the history |
| Pages.OneRowExactlyWhenShort | kernel/terminal.c:256-257 | away from the bottom a line takes one row if and only if it has at most 79 characters |
| Pages.LineCells | kernel/terminal.c:243-261 | for a line of any length on any page, every cell holds in the present color the character of the line that ends there, or what stood there before the screen scrolled |
| Pages.LineBytes | kernel/terminal.c:249-257 | character k stands in column k % 80, one row further down behind every 79 characters after the first, with its color byte beside it |
| Pages.ShortLineBytes | kernel/terminal.c:243-261 | after a short line all 4000 bytes: its characters and colors, and everything else as it was or, after a scroll, a row higher and recolored |
| Sessions.CommandAndParams | kernel/terminal.c:157-174 | a line is its command, a space and its parameters exactly when they are cut at the first space |
| Sessions.CommandCalled | kernel/terminal.c:157-226 | the first command of a name is called with what stands behind the first space of the line, and with the empty text when there is none |
| Sessions.TypingFills | kernel/terminal.c:115-120 | typing appends up to 256 characters and loses the rest |
| Sessions.BackspacesErase | kernel/terminal.c:99-114 | k backspaces take the last k characters, or all there are |
| Terminal.CursorNeedsPrompt | kernel/terminal.c:101-103 | on an empty line the unsigned test keeps the cursor behind the prompt if and only if there is a prompt |
| Sessions.SessionEdits | kernel/terminal.c:90-121 | while no command ends it, line and history of a session are the fold of append, drop-last and enter over the keys |
| Sessions.SessionSane | kernel/terminal.c:76-121 | no session empties the prompt, overfills the line or leaves the screen, even when commands clear it |
| Sessions.LineIsSeen | kernel/terminal.c:263-276 | after draw_prompt the line stands on the screen behind the prompt, with its color |
| Sessions.DrawnBytes | kernel/terminal.c:263-276 | on one row draw_prompt puts prompt and line side by side with their color, and no other byte of the screen changes |
| Sessions.DrawnShows | kernel/terminal.c:263-276 | draw_prompt makes prompt and line the last of the lines on the screen |
| Sessions.RuboutShows | kernel/terminal.c:105-113 | a backspace takes the last character off the line the screen shows |
| Sessions.RuboutBytes | kernel/terminal.c:105-113 | the last cell of the line becomes a blank in the present color, and no other byte of the screen changes |
| Sessions.CommandedShows | kernel/terminal.c:218-240 | what a command prints, recolors or clears, as the screen shows it |
| Sessions.SessionShows | kernel/terminal.c:76-304 | after any session of short prompts, lines and output the screen shows the last 25 lines of its transcript, whatever was erased, recolored or cleared on the way |
| Sessions.EnteredShows | kernel/terminal.c:76-241 | typing any text that fits the row and entering it shows the prompt with the whole line, what its command prints, and a blank row |
| Sessions.CommandPrints | kernel/terminal.c:157-226 | so a session that enters the name of a command with parameters shows what that command prints for these parameters, between the line and the next prompt |
| Sessions.UnknownPrints | kernel/terminal.c:228-237 | a line whose command no entry has shows the message and the command |
| Sessions.AsciiAt | kernel/terminal.c:235 | a message of the source is printed with the characters of its literal |
| Sessions.CommandTakesEffect | kernel/commands.c:292-377 | only shutdown ends the session, only cprompt with parameters changes the prompt, to these parameters, only tcolor changes the color, and then every color byte of the screen; after cls no character is left and every color byte is the present color |
| Sessions.HistoryLineReads | kernel/commands.c:180-195 | line k + 1 of what history prints is the decimal number k + 1, a dot, a space and entry k; the first and the last line are empty |
| Sessions.AnyPageShows | kernel/terminal.c:41-74 | any page that is blank from the current row on, and in its last column, will do to start from |
| Sessions.LeftNone | kernel/commands.c:201-245 | the strings left behind are none if and only if no line of the history answers with a command that leaves any |
| Sessions.LineEntered | kernel/terminal.c:90-155 | typing a text and entering it adds it to the history |
| Sessions.SyslogLeaves | kernel/commands.c:554-569 | entering syslog leaves one string behind |
| Sessions.NotFoundExactly | kernel/commands.c:72-81 | there is no response if and only if no command has the name entered |
| Sessions.PrintingShows | kernel/terminal.c:221-240 | a command that prints short lines, history included, adds them and the row of the next prompt |
| Sessions.ClearsTheScreen | kernel/commands.c:318-328 | entering cls leaves an empty screen with the prompt in its first row |
| Filing.HistoryInMemory | kernel/terminal.c:143-151 | the history list in memory spells one string for every line entered, in order |
| Filing.HeapCount | kernel/terminal.c:135-239 | the live pointers are the rest, four for line and prompt, two for every line entered, and a node for each but one at least |
| Filing.CostInBytes | kernel/terminal.c:123-241 | a line of n characters costs n n + 27 n + 224 bytes, 72672 at most, unless its command is cprompt or history or leaves strings; starting the terminal costs 460 bytes and the prompt |
| Filing.StringLeft | kernel/commands.c:205-245 | a string that a command never frees becomes part of the rest, with two blocks, and disturbs nothing of the terminal |
| Filing.AliasList | kernel/terminal.c:46 | the list of aliases stays the one node with the value NULL that it was |
| Terminal.Console.AdvanceRow | kernel/terminal.c:289-298 | the next row, scrolling and recoloring at the bottom |
| Terminal.Console.NewPrompt | kernel/terminal.c:289-304 | a new row and an empty line, with the cursor behind the prompt |
| Terminal.Console.WriteMessage | kernel/terminal.c:243-261 | writeline on the heap and the framebuffer makes the page that Pages.LineCells describes cell by cell |
| Terminal.Console.Backspace | kernel/terminal.c:99-114 | the last character goes from the line and from the screen |
| Terminal.Console.TypeChar | kernel/terminal.c:115-120 | a character is typed while there is room, and NUL is ignored |
| Terminal.Console.RecordLine | kernel/terminal.c:146-151 | the entered line is kept at the end of the history, and everything else stays; room for three requests suffices |
| Terminal.Console.SplitInput | kernel/terminal.c:157-174 | the two copying loops cut the line at its first space; room for a request a character suffices |
| Terminal.Console.FindCmd | kernel/commands.c:72-81 | the loop over the table ends at the first command of this name, or reports none |
| Terminal.Console.Execute | kernel/terminal.c:180-237 | the first command of the name is called with the parameters in memory and does what Sessions.CommandCalled and Sessions.CommandTakesEffect say, and leaves behind what it leaves; when there is neither a command nor an alias, its name is reported |
| Terminal.Console.LeaveStrings | kernel/commands.c:205-245 | the strings of a command that never frees them stay allocated, and everything else stays |
| Terminal.Console.FindAlias | kernel/commands.c:83-105 | no alias is found while the list holds none |
| Terminal.Console.Cls | kernel/commands.c:318-328 | the screen is empty, every cell recolored, and the row above the first |
| Terminal.Console.Recolor | kernel/commands.c:361-367 | every cell takes the new color and keeps its character |
| Terminal.Console.ShowHistory | kernel/commands.c:172-199 | an empty line, every line entered in order with its number, and an empty line; room for the buffer and the entries suffices |
| Terminal.Console.ComposeEntry | kernel/commands.c:185-187 | number, ". " and line are put together in one string; room for three requests suffices |
| Terminal.Console.ChangePrompt | kernel/commands.c:292-309 | the prompt becomes the parameters, and is not empty; room for them suffices |
| Terminal.Console.ParseInput | kernel/terminal.c:123-241 | enter on the heap does what enter does to the reference terminal, and leaves the strings its command leaves; an empty line never halts, and room for the cost of the line suffices for any other |
| Terminal.Console.DrawPrompt | kernel/terminal.c:263-276 | prompt and line are printed at the current row |
| Terminal.Console.HandleInput | kernel/terminal.c:90-121 | one key does what it does to the reference terminal; only enter on a line that is not empty can halt |
| Terminal.Console.RunTerminal | kernel/terminal.c:76-88 | any sequence of keys leaves line, history, prompt, color and screen as the reference terminal has them, and every live block outside the terminal as it was; new blocks outside it are there if and only if a command entered leaves some, the live pointers are counted, and room for the cost of all lines suffices |
| Terminal.Console.Init | kernel/terminal.c:41-74 | the terminal starts ready in the fifteenth row and the first column, with an empty line, no history, the literal as prompt, and a list of aliases that holds none; beside its own blocks and that list the live blocks are those there were |
| Interrupts.Cpu.Pushad | kernel/isr.asm:9 | the registers stand on the stack in the processor's order |
| Interrupts.Cpu.Arrive | kernel/isr.asm:5-22 | the pushes of the processor and of either macro leave number, registers, BUFFER, error code or dummy, and frame where common_handle expects them |
| Interrupts.Cpu.Interrupt | kernel/isr.asm:5-38 | whatever the handler does and however often it is interrupted, the saved frame, the stack above it, all registers but eax and BUFFER are as at entry, eax is the handler's result, and handlers have found the numbers of all interrupts of the tree in the order of their arrival |
| Interrupts.Cpu.CommonHandle | kernel/isr.asm:26-38 | the second register block protects the first from a handler that overwrites its arguments |
| Interrupts.Cpu.Perform | kernel/isr.asm:28-29 | nothing a handler does reaches above its arguments |
| Interrupts.Cpu.PerformOne | kernel/isr.asm:28-29 | each act of a handler: an argument, a local or the registers change as it says, and an interrupt changes eax and nothing above it |
| Boot.DiskInfo | boot/boot.asm:284-297 | the geometry is usable unless the BIOS reports 256 heads or no sectors |
| Boot.DiskInfoExact | boot/boot.asm:284-297 | from the last head number, and the sectors per track with any cylinder bits above them, it finds the drive's own geometry |
| Boot.Loader.GetDiskInfo | boot/boot.asm:284-297 | so spt and numhd are those of the drive |
| Boot.ChsRoundTrip | boot/boot.asm:301-318 | the address leads back to the sector if and only if its cylinder fits a byte |
| Boot.ChsParts | boot/boot.asm:301-318 | the sector counts from one to the track length, and the head is below the number of heads |
| Boot.KernelSectorsFit | boot/boot.asm:156-166 | every sector of the kernel has such a cylinder, on every geometry |
| Boot.Loader.Convert | boot/boot.asm:301-318 | the two divisions, stored as bytes |
| Boot.Loader.ReadDisk | boot/boot.asm:196-217 | a read that fails the first time never stores the sector, and hangs exactly when the five retries, which are no reads, fail as well |
| Boot.Loader.LoadKernel | boot/boot.asm:98-123 | with the geometry get_diskinfo has found, when no first read fails, the 79 sectors the drive has from the third on land in order from 0x8000 on and nothing else changes; otherwise the loader hangs, or memory is as it was where the first lost sector belongs |

## Left out

- KernelHeap.Heap.constructor: the log line of memory_init is not part of this model, and the heap size is taken to keep the heap below 2^31 bytes, as a positive C int does.
- KernelHeap.Heap.Krealloc: a copy that would run past the end of memory, which only a size that wraps can cause, is excluded; what lies behind the heap is not part of this model.
- KernelHeap.Heap.Malloc: requests that wrap, and a first request the heap has no room for, are excluded, because exactly for them kmalloc breaks its promise (Allocator.KmallocPromise).
- KernelHeap.Heap.Realloc: sizes that wrap are excluded, because exactly for them krealloc breaks its promise (Allocator.KreallocPromise).
- DynString.NewSz: sizes from 0xFFFFFFFC on are excluded, because exactly for them the buffer is too small (DynString.NewSzPromise).
- DynString.Resize: sizes from 0xFFFFFFFC on are excluded for the same reason (DynString.ResizePromise); with 0xFFFFFFFF the source also stores in front of the buffer.
- DynString.AddNum: INT_MIN is excluded because negating it overflows a C int; invalid bases are excluded because the number buffer is then appended as it happens to be; numbers too long for the buffer, which exist only in bases below 6, are excluded because tostring overruns it.
- CStrings.ToString: INT_MIN is excluded for the same reason; the room the text needs is demanded, as lib/string.h asks of its callers.
- StringRuns.RunAll: a string is never its own argument; string_add would overwrite the terminator it is looking for, and string_set of a string to itself, which changes nothing, is left out with it.
- Terminal.Console.Execute: the commands other than cprompt, cls, tcolor, history and shutdown are parameters, one function an entry of the table, from the number of the line entered and the parameters to the lines printed with writeline and the number of strings left behind; for tcolor it gives the color found. The strings these commands free again are not modelled, so neither is a halt for want of memory in them. The alias command with a name and a command is not modelled: it reads through the NULL value of the list of aliases, so the list never holds one. print_return prints nothing for the commands that return.
- Terminal.Console.LeaveStrings: the strings are as string_newsz(80) makes them; what disk and syslog set them to, and the resize a line of more than 80 characters needs, is not modelled.
- Terminal.Console.ParseInput: that it halts is bounded from one side, by the cost of the line; the exact condition would be that of StringRuns.RunAll, with the list's nodes in between.
- Terminal.Console.RunTerminal: poll_key is the sequence of keys; the flip to video memory and the cursor, which is drawn only there, are not modelled.
- Screen.GetPosition: clamp works on integers here and on doubles in lib/math.c.
- Boot.Loader.LoadKernel: a drive with 256 heads is excluded; its number of heads is stored as 0, and lba_chs divides by it (Boot.DiskInfo).
- Boot.Loader.Int13: a disk interrupt that fails, or that asks for anything but a read, leaves memory alone; which ones fail is a parameter.
- Interrupts.Cpu.Handler: the handler is any code that obeys the C calling convention; a hardware interrupt inside the stub's own instructions, and the dispatch inside interrupt_handler, are not modelled.
- The system call instructions of lib/system.c and their loops on NULL: the calls go straight to the allocator, which stops the machine and never returns NULL.
- mergeblock, list_sort, strtok, toint and todbl: their bodies are empty.
- list_addfirst, string_fromchar and strncat: they do not do what their headers say (the new first node is not linked back, the argument of string_new is ignored, the result is not terminated).
- toupper, tolower, string_used, get_color and tocolor: easy members.
- IDT, PIC, timer, keyboard, ATA, floppy, CMOS, FAT and the rest of the boot loader: port input and output, tables, or empty bodies.
