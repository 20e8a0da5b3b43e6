# Flux kernel: memory, address spaces, tasks and printing

A Dafny 4.11 model of the x86-64 memory core of the Flux kernel, with its task table and its number
and format printing. `dafny verify dfyconfig.toml` checks everything.

## What is modelled

**Physical memory** is one mutable array of 64-bit words (`Mem.FramePool.mem`). The free list (threaded
through word 0 of the free frames), every paging table of every address space and every frame handed
out for other uses live in that array, and the methods work on it in place as the C code does.

* `structures.dfy` – entry layout and index extraction; module `Bitwise` shows that the arithmetic used
  is the C `&`, `|` and `>>` of the macros.
* `worlds.dfy` – what memory means: a `World` says which frames are free (in list order), held, or a
  table at one place of one tree, and which word every present entry holds. `Step` and `Run` give the
  operations on it; `None` is the spinning `ASSERT` (or a caller breaking its obligation).
* `physmem.dfy` – the processor's 4-level walk of memory, written from sections 4.5 and 4.6 of the
  Intel SDM volume 3A (large pages, the reserved bit and the conjunction of rights included), the
  predicate `Holds` ("this memory holds this world"), and what each kind of store does to it.
* `mem.dfy`, `paging.dfy`, `kernelmap.dfy`, `proc.dfy`, `scheduler.dfy` – the C functions as methods,
  each proved to take a memory that holds a world to one that holds the next world.
* `runs.dfy`, `history.dfy`, `ranges.dfy`, `trees.dfy`, `commute.dfy`, `poolruns.dfy` – theorems about
  all runs: last write wins, isolation, rights, exact cost, tree size, reordering, conservation.
  `PoolRuns.Execute` performs any sequence of operations on the real memory, which carries these
  theorems to what the processor reads.
* `printk.dfy` – `kputs`, `kputhex`, `kputdec` and `printk`, with output appended to a sequence.

The main chain: a run of kernel operations refines `Worlds.Run`; memory that holds a world is walked by
the processor exactly as the world says (`PhysicalMemory.WalkRefines`); and what a world says after a
run is read off the operations alone by `History.Expected` (`History.RunTranslates`): the last map of a
page decides where it goes and the first map through each of its three tables decides what that table
grants.

## What the code asks of its callers

* Usable memory-map entries are 4 KiB aligned, do not overlap, do not contain frame 0 and lie below
  2^52; physical addresses can be dereferenced. No kernel or module entry is longer than 2^64 - 4096
  bytes, past which the 64-bit offset of the mapping loop wraps around and the loop does not end.
* At boot no word of a usable frame but its first has bit 0 set, and a frame is put back only in that
  state. Root tables are never cleared, so this is what makes them empty; that it is enough, and that
  a frame from the list is an empty root only if it is in that state, is proved
  (`Mem.HeadIsEmptyRoot`). The list itself does not depend on it.
* Flags passed to a map lie in bits 0 to 11 and do not set the page-size bit. Any higher bit of the
  `unsigned int` would go into the pointer of the entry (`Bitwise.FlagsKeepPointer`).
* An empty pool makes `ASSERT` spin. It is a precondition here, and the runs that meet it are
  characterised exactly by the number of free frames.

## Where the code falls short of what one would expect

* `find_free_frames` returns `int`: the frame count is right exactly below 2^31 frames
  (`Mem.CountSurvives`).
* A byte of the kernel or of a module, in a page that nothing else covers, is found where it should be
  exactly when the entry is a module or the kernel's physical base is page aligned, and the byte lies in
  one of the `length / 4096` (rounded up) pages that the loop maps (`KernelMap.ByteExactly`). A module
  that starts in the middle of a page can therefore lose its end: `KernelMap.EntryExactly` says when a
  whole entry is right, and `KernelMap.ModuleEndLost` gives a module at 0x101800 of 0x1000 bytes whose
  byte 0x800 faults.
* The direct map is right, byte for byte, exactly when its offset is page aligned
  (`KernelMap.DirectByte`).
* The task stack survives loading exactly when the executable has at most 0xFFFF7FFFF blocks
  (`Proc.StackSurvives`).
* The order of two maps of different pages cannot be seen in any translation or right exactly when no
  table that both need is missing or, for the write and for the user right, their flags agree in it or
  a table that both already have denies it (`Commute.OrderUnseen`). The flag bits that they leave in
  the tables are the same exactly when all their flags agree or no table that both need is missing
  (`Commute.MapsCommute`).
* `%d` prints a negative number as an unsigned one: its text is the signed numeral exactly below 2^63
  (`Printk.SignIsLost`).
* Formats compose exactly when the first does not end in a dangling `%` (`Printk.ComposesExactly`);
  unknown directives, `%%` included, print nothing.
* Tables grant the rights of whichever map came first, which the comments of `paging.c` do not mention
  and `History.RunTable` states.

## Model

| member | source | states |
|---|---|---|
| Bitwise.PsePtrMasks | kernel/arch/x64/structures.h:147 | `PSE_PTR` is the bitwise and with 0x000ffffffffff000, for every word |
| Bitwise.ExtractMacros | kernel/arch/x64/structures.h:150-154 | each `EXTRACT_*` macro, shift then mask, is the quotient and remainder used in the model |
| Bitwise.EntryIsOr | kernel/arch/x64/paging.c:75 | an entry built as `PSE_PTR(p) \| PSE_PRESENT \| flags` bit by bit, with 12-bit flags, is the model's entry word |
| Bitwise.FlagsKeepPointer | kernel/arch/x64/paging.c:92-93 | of all values of an `unsigned int`, exactly those below 4096 are flags with which every entry leads to the frame it was made for |
| Bitwise.PresentIsAnd | kernel/arch/x64/paging.c:69 | the presence test is the bitwise and with 1 |
| Bitwise.FlagsAreAnd | kernel/arch/x64/structures.h:134-140 | the rights and the page-size bit are the bitwise and with 2, 4 and 0x80 |
| Structures.EntryFields | kernel/arch/x64/paging.c:92-93 | reading pointer, present bit and rights of a new entry with 12-bit flags gives back what it was made of |
| Structures.IndicesJoin | kernel/arch/x64/paging.c:61-64 | the four indices of an address, joined, are its 36-bit page number |
| Worlds.StepKeeps | kernel/arch/x64/paging.c:54-94 | every operation keeps frames partitioned and tables tree-shaped, and no table ever becomes anything else |
| Worlds.RunKeeps | kernel/arch/x64/paging.c:54-94 | the same in every state of every run over any set of roots |
| PhysicalMemory.WalkRefines | kernel/arch/x64/paging.c:41-53 | the processor's walk of memory gives for every address of every root what the world says, offset and rights included, and a fault elsewhere |
| PhysicalMemory.WalkFourLevels | kernel/arch/x64/paging.c:61-92 | the walk written out in numbers: the four words it reads, the frame and offset it ends at, and the conjunction of bits 1 and 2 |
| PhysicalMemory.WordsRefine | kernel/arch/x64/paging.c:61-93 | for a mapped page the four words the walk reads are the world's entries on its path |
| PhysicalMemory.WriteHeld | kernel/arch/x64/paging.c:27-31 | writing a handed-out frame, a stale link included, disturbs no list node and no table |
| PhysicalMemory.TakeHolds | kernel/arch/x64/mem.c:132-146 | after unlinking the head the rest is still the list, the count fits, and no word of the frame has the present bit |
| PhysicalMemory.GiveHolds | kernel/arch/x64/mem.c:148-155 | pushing a cleaned frame keeps the list, all tables and the count |
| PhysicalMemory.AdoptHolds | kernel/arch/x64/mem.c:63 | a frame with no present word, used as a root without clearing it, is an empty address space |
| PhysicalMemory.LinkHolds | kernel/arch/x64/paging.c:69-76 | storing an entry that points to a cleared frame adds exactly one empty table to one tree and changes nothing else |
| PhysicalMemory.LeafHolds | kernel/arch/x64/paging.c:92-93 | storing a leaf changes exactly one page of one address space |
| Mem.FramePool.GetPhysBlock | kernel/arch/x64/mem.c:132-146 | returns the old head, makes the word it points to the new head, leaves the rest as the list, lowers the count by one, and the frame has no present word |
| Mem.PushLink | kernel/arch/x64/mem.c:148-152 | pushing any frame that is not listed, clean or not, puts it in front of the list in memory |
| Mem.HeadIsEmptyRoot | kernel/arch/x64/mem.c:63 | the head of any list, whatever its words are, is an empty root exactly when no word but its first has the present bit |
| Mem.FramePool.PutPhysBlock | kernel/arch/x64/mem.c:148-155 | a cleaned frame becomes the head and its first word the old head, no other word changes, and the count rises by one |
| Mem.FramePool.ThreadEntry | kernel/arch/x64/mem.c:40-51 | the inner loop threads exactly the frames of one entry, whatever they contain, each before the ones found earlier, and writes only their first words |
| Mem.FramePool.FindFreeFrames | kernel/arch/x64/mem.c:32-56 | leaves in memory a NULL-terminated list, without duplicates, of exactly the frames inside entries of type 0, whatever they contain; returns their number through `int`; changes only first words of frames inside entries of type 0 |
| Mem.LinksKeepClean | kernel/arch/x64/mem.c:43-48 | threading makes no frame clean and no clean frame dirty |
| Mem.DiscoveredMembers | kernel/arch/x64/mem.c:36-52 | a frame is discovered exactly when it lies in a usable entry, and it is then addressable |
| Mem.DiscoveredExactly | kernel/arch/x64/mem.c:36-52 | the list's frames are exactly those inside entries of type 0, once each, and their number is the sum of length/4096 |
| Mem.ListOrder | kernel/arch/x64/mem.c:36-49 | in the list later entries come first, and inside an entry higher frames |
| Mem.ChainWords | kernel/arch/x64/mem.c:45-48 | the head and every link word of a list in memory, written out |
| Mem.DiscoveredOnce | kernel/arch/x64/mem.c:36-52 | no frame is discovered twice, and there are as many as the lengths divided by 4096 add up to |
| Mem.ReverseSame | kernel/arch/x64/mem.c:43-48 | the list is the discovery order backwards and contains the same frames |
| Mem.BootHolds | kernel/arch/x64/mem.c:123 | what the two loops build is a valid pool in which everything is free |
| Mem.CountSurvives | kernel/arch/x64/mem.c:32-56 | the count survives the `int` return type if and only if it is below 2^31 |
| Paging.ZeroPagingStructure | kernel/arch/x64/paging.c:27-31 | clears exactly the 512 words of a frame and keeps list and tables |
| Paging.NewPml4 | kernel/arch/x64/mem.c:63 | the head of the list, not cleared, becomes an empty address space |
| Paging.FollowEntry | kernel/arch/x64/paging.c:68-76 | one level of the walk: a present entry is followed, a missing table is created, cleared and linked with the given flags; memory outside the pool and in handed-out frames stays as it is |
| Paging.MapPageSpecificPml4 | kernel/arch/x64/paging.c:54-94 | memory goes to the world after the map; the walk of the address then ends at `PSE_PTR(paddr)` plus its offset, through the leaf word `PSE_PTR(paddr) \| 1 \| flags`, every other address of every space walks as before, and no word outside the pool or in a handed-out frame changes |
| Runs.MapStep | kernel/arch/x64/paging.c:54-94 | a map succeeds if and only if a frame is free for each missing table of its path, adds exactly these with its flags, and writes its leaf |
| Runs.RunCost | kernel/arch/x64/paging.c:69-90 | a run of maps over any roots succeeds if and only if a frame is free for each table its paths lack, takes exactly these in list order and adds exactly these tables |
| Runs.RunBalance | kernel/arch/x64/mem.c:132-155 | a run of gets, new roots, releases and maps succeeds if and only if at each point the frames needed so far fit the list; it then holds exactly that many fewer |
| History.RunLeaf | kernel/arch/x64/paging.c:92-93 | last write wins, for every page of every space after every run |
| History.RunTable | kernel/arch/x64/paging.c:69-90 | a table keeps for good the flags of the first map that needed it |
| History.RunTranslates | kernel/arch/x64/paging.c:54-94 | after any run every address translates as the last map of its page says, with rights cut down by the first map through each of its tables, and faults if never mapped |
| History.MemoryTranslates | kernel/arch/x64/paging.c:54-94 | the same for the processor's walk of the memory left behind |
| History.MemoryWords | kernel/arch/x64/paging.c:69-93 | after any run the words that the walk of a mapped page reads are the last map's leaf and, above it, tables with the flags of the first map that needed each |
| History.MapSeen | kernel/arch/x64/paging.c:54-94 | what one map changes in the processor's view, written out in bits and numbers |
| History.SpacesIsolated | kernel/arch/x64/paging.c:54-94 | translations of a space depend only on the maps of that space, over all interleavings with any others |
| History.OthersUnchanged | kernel/arch/x64/paging.c:54-94 | one operation changes translation and rights of no address but those of the page it maps in the space it maps it in |
| History.WalkUnchanged | kernel/arch/x64/paging.c:54-94 | the same for the walk of memory before and after |
| Ranges.RangeWrites | kernel/arch/x64/mem.c:81-90 | mapping consecutive pages sends page k to block k and touches no page outside |
| Ranges.RangePath | kernel/arch/x64/paging.c:69-90 | mapping a range needs exactly the tables whose prefixes lie between those of its ends |
| Ranges.RangeRunCost | kernel/arch/x64/paging.c:69-90 | a range costs at most, and in an empty space exactly, the sum over the levels of last prefix minus first plus one |
| Ranges.RangeBound | kernel/arch/x64/mem.c:99-101 | at most one table more per level than the length calls for, however the range is aligned |
| Ranges.DirectMapCost | kernel/arch/x64/mem.c:99-101 | the 4 GiB map needs at most 2056 tables and exactly 2053 when its start is aligned to 512 GiB |
| Trees.TreeSize | kernel/arch/x64/paging.c:69-90 | a tree whose tables all lead to pages V holds 1 + #(V>>27) + #(V>>18) + #(V>>9) tables |
| Trees.TreeAfterRun | kernel/arch/x64/paging.c:69-90 | after any run this is the exact number of table frames of a space that began empty |
| Trees.FramesBecomeTables | kernel/arch/x64/mem.c:132-155 | any run lowers the free count by exactly the tables its maps add and the frames that gets and new roots take, less those put back |
| Commute.MapsCommute | kernel/arch/x64/paging.c:54-94 | two maps of different pages in either order succeed alike and take the same frames, and leave the same leaves and the same flag bits in all tables if and only if their flags agree or they share no missing table |
| Commute.OrderUnseen | kernel/arch/x64/paging.c:54-94 | both orders translate every address of every space alike, with the same rights, if and only if they share no missing table or each right is one in which the flags agree or that a table they share already denies |
| Commute.SameViewTranslates | kernel/arch/x64/paging.c:54-94 | equal views translate every address alike with the same rights, whatever frames hold the tables |
| PoolRuns.FramesAddUp | kernel/arch/x64/mem.c:132-155 | free, held and table frames add up to the usable frames |
| PoolRuns.FramesConserved | kernel/arch/x64/mem.c:123-155 | in every state of every run from boot all usable frames are accounted for, each in one role |
| PoolRuns.NoDoubleHandout | kernel/arch/x64/mem.c:132-155 | between two operations of a run that take the same frame off the list, to return it, as a root or as a table of a map, it was put back |
| PoolRuns.HandsOutWhat | kernel/arch/x64/paging.c:69-90 | the frames a map takes off the list are exactly its new tables, and any other operation takes exactly the frame it returns |
| PoolRuns.PutsThenGets | kernel/arch/x64/mem.c:132-155 | k puts and k gets restore the pool, and the frames come back in reverse order |
| PoolRuns.Execute | kernel/arch/x64/paging.c:54-94 | any interleaved sequence of operations on any number of spaces leaves a memory that the processor walks as the operations say, and in which no word outside the pool, or in a frame handed out before and not released, has changed |
| KernelMap.MapEntry | kernel/arch/x64/mem.c:71-90 | the inner loop performs exactly the maps of one kernel or module entry and writes only to the pool's own frames |
| KernelMap.MapEntries | kernel/arch/x64/mem.c:65-92 | the first loop performs exactly the maps of all kernel and module entries and writes only to the pool's own frames |
| KernelMap.MapDirect | kernel/arch/x64/mem.c:99-101 | the second loop performs exactly the maps of the first 4 GiB and writes only to the pool's own frames |
| KernelMap.SetupKernelMap | kernel/arch/x64/mem.c:58-102 | takes a root, performs exactly the kernel's maps in order and writes only to the pool's own frames |
| KernelMap.MemInit | kernel/arch/x64/mem.c:104-130 | from clean memory of fewer than 2^31 frames: the pool is exactly the frames of the entries of type 0, no word outside these entries changes, the processor sees exactly the kernel's maps (in an aligned layout, each byte at the address written out in `KernelMap.KernelSeen`), and the number of frames left is returned |
| KernelMap.ByteExactly | kernel/arch/x64/mem.c:65-92 | byte x of the kernel is found at 0xffffffff80000000 + x, and byte x of any other entry of type 6 at 0xffffffff80000000 plus its base plus x, if and only if the entry is a module or aligned, the byte is in a page that the loop maps, and it is addressable |
| KernelMap.EntryExactly | kernel/arch/x64/mem.c:71-90 | every byte of an entry is found there if and only if it is a module or aligned, the offset in its first page plus its length fits the mapped pages, and it is addressable |
| KernelMap.ModuleEndLost | kernel/arch/x64/mem.c:76-90 | a module at 0x101800 of 0x1000 bytes, alone and without wrapping, faults at its byte 0x800 |
| KernelMap.KernelByte | kernel/arch/x64/mem.c:65-92 | with disjoint page-aligned entries of type 6 every byte of the kernel and of every module is found at these addresses |
| KernelMap.DirectByte | kernel/arch/x64/mem.c:99-101 | every physical byte below 4 GiB is found at the direct-map offset plus its address, whatever else is mapped, if and only if that offset is page aligned |
| KernelMap.NothingElse | kernel/arch/x64/mem.c:58-102 | every other address faults, for any entries that do not wrap, aligned or overlapping as they may be |
| KernelMap.FirstByte | kernel/arch/x64/mem.c:71-79 | the first byte of an entry is mapped right if and only if the entry is a module or its base is aligned |
| KernelMap.KernelWalk | kernel/arch/x64/mem.c:58-102 | these translations are what the processor's walk of the resulting memory gives |
| KernelMap.KernelWords | kernel/arch/x64/mem.c:86-101 | every word that the walk of a kernel page reads has the low 12 bits 7: present, writable, user, nothing else |
| KernelMap.KernelIsSeen | kernel/arch/x64/mem.c:58-102 | in the resulting memory the walk finds each kernel byte, each module byte and the first 4 GiB at the addresses written out in numbers, and faults everywhere else |
| KernelMap.KernelCost | kernel/arch/x64/mem.c:58-102 | the kernel map can be built if and only if one frame for the root and one for each table of its paths are free |
| KernelMap.EntryTables | kernel/arch/x64/mem.c:71-90 | one kernel or module entry needs exactly the computed number of tables, any other entry none |
| KernelMap.KernelFits | kernel/arch/x64/mem.c:136 | a pool with the computed bound plus 2056 frames never reaches the out-of-memory ASSERT |
| Proc.MapBlocks | kernel/arch/x64/proc.c:58-60 | the loop maps block k of the executable to page k and writes only to the pool's own frames |
| Proc.InitTaskSpaceFromMem | kernel/arch/x64/proc.c:36-61 | takes a root and a stack frame and performs exactly the task's maps; the processor sees exactly these; of memory outside the pool and of frames handed out before, only the word of `*pml4` changes, and it still holds the root at the end |
| Proc.TaskTranslates | kernel/arch/x64/proc.c:49-60 | the page below the kernel is the stack frame, writable; page k of the executable is block k and never writable, even in shared tables; all else faults |
| Proc.CodeByte | kernel/arch/x64/proc.c:57-60 | byte x of the executable is found at virtual address x, readable by the user and not writable |
| Proc.StackSurvives | kernel/arch/x64/proc.c:51-60 | for every number of blocks, the stack page stays writable if and only if the executable does not reach it |
| Proc.TaskTableCount | kernel/arch/x64/proc.c:51-60 | for every number of blocks, the tables are those of the executable plus those of the stack's three that it does not reach; three more if and only if there are at most 0xFF8000000 blocks |
| Proc.TaskCost | kernel/arch/x64/proc.c:41-60 | building a task's space succeeds if and only if root, stack and table frames are free, and takes exactly these |
| Proc.TaskWalk | kernel/arch/x64/proc.c:36-61 | the translations are what the processor's walk of the resulting memory gives |
| Proc.TaskIsSeen | kernel/arch/x64/proc.c:49-60 | up to 0xFFFF7FFFF blocks the walk finds the stack frame at 0xffffffff7ffff000, leaf flags 7, and block v at page v, leaf flags 5, and faults everywhere else |
| Scheduler.TaskTable.SchedulerInit | kernel/generic/scheduler.c:57-69 | no slot is present afterwards and no other field changes |
| Scheduler.TaskTable.NewTask | kernel/generic/scheduler.c:25-55 | with a free slot: fills the first one with present 1, READY, both counters 0, the first free frame and level 3, leaves all others alone, takes six frames, stores the root's address in the slot's frame, and the root maps just a stack; with none: returns 2^64 - 1 with table and memory unchanged |
| Scheduler.NewTaskFrames | kernel/generic/scheduler.c:46-52 | a successful call takes exactly six frames, and succeeds if and only if six are free |
| Scheduler.TaskRuns | kernel/generic/scheduler.c:25-69 | in every run the present slots are a prefix, calls return 0, 1, 2, ... and then -1, six frames go per filled slot and none for a refusal, and the run succeeds if and only if the frames suffice |
| Printk.Console.KPuts | kernel/generic/printk.c:5-9 | prints the characters before the NUL |
| Printk.Console.KPutHex | kernel/generic/printk.c:11-24 | prints the canonical or the 16-digit hexadecimal text, with the commas |
| Printk.Console.KPutDec | kernel/generic/printk.c:26-40 | prints the decimal numeral and never indexes its 20-byte buffer out of range |
| Printk.Console.PrintDirective | kernel/generic/printk.c:55-84 | `%x` prints the shortest hexadecimal numeral (nothing for 0), `%p` sixteen digits in four groups, `%d` and `%u` the decimal numeral, `%c` one character, `%s` the characters before the NUL, each taking one argument; any other character prints and takes nothing |
| Printk.DirectiveText | kernel/generic/printk.c:55-84 | a directive can be printed if and only if its argument is there and of its type, and its text is what is said above |
| Printk.Console.Printk | kernel/generic/printk.c:42-88 | prints exactly the recursive rendering of the format, a format without `%` as it is, and reads nothing past its NUL |
| Printk.RenderInOrder | kernel/generic/printk.c:51-87 | a rendering is the plain characters as they are, the text of the first directive, and the rendering of the rest over the arguments left; a lone `%` at the end is nothing |
| Printk.NibbleIsShift | kernel/generic/printk.c:15 | shift and mask pick out the hexadecimal digit |
| Printk.QuotWord10 | kernel/generic/printk.c:27-32 | twenty decimal digits hold every 64-bit value |
| Printk.ParseStep | kernel/generic/printk.c:12 | reading a numeral is positional, with the digits 0 to 9 and a to f |
| Printk.DecimalRoundTrip | kernel/generic/printk.c:26-40 | the decimal text reads back as x, has no leading zero, and is the only such text |
| Printk.HexRoundTrip | kernel/generic/printk.c:11-24 | without its commas the output reads back as x, for every x and both options |
| Printk.HexPlain | kernel/generic/printk.c:14-22 | without spacers: sixteen hexadecimal digits, or the shortest numeral and nothing for 0, that read as x |
| Printk.HexSpaced | kernel/generic/printk.c:19-20 | with spacers, for both options: the same digits, and counted from the right every fifth character is a comma |
| Printk.HexGroups | kernel/generic/printk.c:19-22 | with leading zeros and spacers the output is four groups of four digits separated by commas |
| Printk.HexShort | kernel/generic/printk.c:17-19 | without leading zeros nothing is printed for 0 and never a leading zero |
| Printk.RenderJoins | kernel/generic/printk.c:51-87 | printing two joined formats is printing one and then the other with the arguments left over |
| Printk.ComposesExactly | kernel/generic/printk.c:55-57 | that holds for every second format if and only if the first does not end in a dangling `%` |
| Printk.SignIsLost | kernel/generic/printk.c:62-65 | `%d` prints the signed numeral of its argument if and only if it is below 2^63 |

## Left out

- Mem.FramePool.PutPhysBlock: asks for a cleaned frame, which the C function does not check; without it the root tables, which are never cleared, could start with stray entries.
- Paging.FollowEntry: the three copies of the same block in the source are one method called three times.
- Proc.InitTaskSpaceFromMem: the two `return -1` branches cannot be reached because the pool asserts first; the missing return value at the end is not modelled.
- Scheduler.TaskTable.NewTask: the saved registers of a task are left out, and nothing is said about translations through `pml4Table`: the source passes it where a pointer to a table is expected, so the frame it names holds the root's address, not a table.
- PoolRuns.Execute: is not a function of the kernel; it stands for any sequence of calls, and clears a frame before putting it back.
- Printk.Console.KPutHex: `leading` and `spacers` are booleans rather than integers.
- Debug messages printed inside the memory functions, and the CR3 lookup of `map_page`.
- Inline assembly, TLB behaviour, and what the accessed, dirty, cache and no-execute bits do.
- Descriptor tables, interrupt and exception handlers, the serial driver and the Limine requests: hardware plumbing and constant tables. The memory map, the direct-map offset and the kernel's physical base are inputs.
- `_start`, including its jump into a module and its use of the pool after the switch to the new tables.
- Functions without behaviour in the source: consecutive blocks, task switching, preemption, copying of tasks, nodes and message passing.
