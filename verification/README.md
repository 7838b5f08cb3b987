# Verified model of the Dmf-x86os kernel

Dmf-x86os is a small 32-bit x86 kernel with its own heap, formatter and ELF loader, which uses
Intel VT-x to run one guest. This project models those parts in Dafny and proves what they
promise for all inputs, all runs and all interleavings.

* **The kernel heap.** `PageList` and `PageAlloc` model the list of free pages that is threaded
  through the pages themselves, and the one-pass search for a naturally aligned run of 2^order
  pages. `HeapModel`, `HeapRuns` and `KernelHeap` put malloc, calloc, memalign and free on top:
  memory is a map from word addresses to words, every page of the pool has exactly one owner,
  and the invariant is proved over every sequence of operations by clients that write only inside
  their own blocks. `HeapEffects` says what such runs leave alone and what they lose: the data of
  live blocks survives, and the pages lost are counted exactly. `EarlyHeap` is memalign over the
  early backend, with its own invariant over runs: what each served call returns and that live
  pointers keep the alignment and the room that was asked for.
* **The early allocator.** `Bump` is the bump pointer with its log of 256 regions; `SpinBump` is the
  same code for any number of threads interleaved at single reads and writes of shared memory,
  with the spin lock as a test-and-set step. phys_alloc_get_unused reads base before it takes the
  lock; `SpinBump` says exactly when that matters and `SpinRace` gives a schedule on which it does.
  `SpinAlone` shows that a thread which runs alone finishes its call with the serial result.
* **The formatter.** `Format` says what formatted output and number parsing mean; `Printf` is
  vsnprintf with its stream, digit buffers and width parser, proved against it. `Directives` writes
  directives out from their parts, reads them back, and says in plain terms what each puts out.
* **The virtual machine.** `GuestPaging` builds the guest's page tables and walks them as 32-bit
  paging does (Intel SDM volume 3, section 4.3). `VmRun` is the run loop, one method per function;
  `VmTraces` is what holds for every sequence of exits.
* **Bytes.** `Strings` has memmove, memcmp, strlen and strstr; `ElfLoad` the segment loader;
  `ElfImage` builds the bytes of ELF files from plain records (System V gABI chapters 4 and 5) and
  shows what loading them does.

`Words` gives AND, OR, ALIGN, the power-of-two test and fls their arithmetic meaning, so that the
masks of the source stand in the model as they are written. C's unsigned arithmetic wraps through
`Wrap`; signed variables that must not overflow have the type `int32`. Diagnostics printed by the
allocators, the loader and the run loop are not modelled. A condition that the source only
prints a message for (its `assert`) is a precondition.

The code decides where it differs from its own comments. alloc_pages says that it returns NULL if no
memory is left (src/kernel/mem/alloc_page.c:18); `PageList.ScanMissesASegment` is a list on which it
returns NULL although an aligned run is there, and `PageList.ScanFailsExactly` says when that happens.
calloc tests malloc's result for NULL (src/kernel/mem/alloc.c:16); `HeapModel.FailedMemalign` shows that
memalign never returns NULL, and `HeapRuns.FailedCalloc` and `HeapRuns.FreeAfterFailure` what follows.

The model's assumptions about the machine: word accesses are atomic and in program order, guest
execution between exits is arbitrary except that it does not write the three pages that hold page
tables (the processor may set accessed and dirty bits), loads of CR3 exit, CR0.WP is set, and
every VM entry reaches either the guest or a late entry failure.

## Model

| member | source | states |
|---|---|---|
| `Words.AndLowMask` | src/kernel/mem/alloc_page.c:53 | a low mask of k ones yields the remainder by 2^k |
| `Words.AndHighMask` | src/kernel/mem/alloc.h:7 | the complement of such a mask clears exactly the low k bits |
| `Words.AlignUp` | src/kernel/mem/alloc.h:7-9 | for a power of two and no wrap, ALIGN is the least multiple that is not below its argument |
| `Words.AlignMultiple` | src/kernel/mem/alloc.h:7-9 | ALIGN is a multiple of the power of two even when it wraps |
| `Words.PowerOf2Test` | src/kernel/mem/alloc_page.h:9 | the bit test holds exactly for the powers of two |
| `Words.FlsBound` | src/kernel/mem/alloc_page.h:10 | fls is the floor of the binary logarithm |
| `PageList.ListAcyclic` | src/kernel/mem/alloc_page.c:43-48 | a list that ends in NULL has no cycle and no page twice |
| `PageList.ListUnique` | src/kernel/mem/alloc_page.c:43-48 | memory and the head determine the sequence of free pages |
| `PageList.ScanFailsExactly` | src/kernel/mem/alloc_page.c:52-72 | the search fails if and only if every aligned adjacent run in the list starts with a page that broke an earlier run |
| `PageList.ScanMissesASegment` | src/kernel/mem/alloc_page.c:61-64 | a concrete list with an aligned pair of pages on which the search for a pair fails |
| `PageList.SinglePageFound` | src/kernel/mem/alloc_page.c:52-72 | order 0 succeeds exactly on a non-empty list and returns its first page |
| `PageList.HugeOrdersFail` | src/kernel/mem/alloc_page.c:29-53 | orders from 20 on never succeed |
| `PageList.RegionScan` | src/kernel/mem/alloc_page.c:52-72 | on one contiguous region the search succeeds exactly when the region holds a naturally aligned block, and returns the first |
| `PageList.FreedRegionAllocates` | src/kernel/mem/alloc_page.c:78-105 | the same for a region freed into an empty list, in terms of the address alloc_pages returns |
| `PageList.AllocPagesSplice` | src/kernel/mem/alloc_page.c:38-75 | NULL and nothing changed, or one aligned block of 2^order pages taken out, all other pages in order, at most one word written |
| `PageList.AllocPagesKeepsList` | src/kernel/mem/alloc_page.c:66-72 | what remains is again a NULL-terminated list of pages in memory |
| `PageList.LinkRunEffect` | src/kernel/mem/alloc_page.c:95-103 | each freed page links to the next and the last to the old head; no other word changes |
| `PageList.FreePagesKeepsList` | src/kernel/mem/alloc_page.c:78-105 | freeing pages that are not on the list yields a list again |
| `PageList.FreedTwice` | src/kernel/mem/alloc_page.c:78-105 | after free_pages there is a NULL-terminated list in memory if and only if no freed page was on the list already; otherwise the links run in a cycle |
| `PageList.FreeThenAlloc` | src/kernel/mem/alloc_page.c:78-105 | free_pages then alloc_pages of the same order returns the same block and the same list, memory outside the block as before |
| `PageAlloc.AlignMaskTest` | src/kernel/mem/alloc_page.c:29-53 | the mask test of the scan decides natural alignment for every order below 32 |
| `PageAlloc.OrderForIsTight` | src/kernel/mem/alloc_page.c:115 | the order chosen for n pages is the least with n <= 2^order, below 2n, and exact for powers of two only |
| `PageAlloc.PageAllocator.ScanForRun` | src/kernel/mem/alloc_page.c:20-75 | the loop stops at the first run the list search defines, with its predecessor and successor, or returns NULL |
| `PageAlloc.PageAllocator.AllocPages` | src/kernel/mem/alloc_page.c:20-76 | memory, head and list afterwards, and the result, are those of the list operation |
| `PageAlloc.PageAllocator.FreePages` | src/kernel/mem/alloc_page.c:78-105 | terminates for every page-multiple size, also up to 2^32, and yields the list operation's state, which is a list again if none of the pages was on it; size 0 and address 0 empty the list |
| `PageAlloc.PageAllocator.PageMemalign` | src/kernel/mem/alloc_page.c:107-118 | takes the least power of two of pages for the size, NULL for size 0 |
| `PageAlloc.PageAllocator.FreePage` | src/kernel/mem/alloc_page.c:136-142 | the same as freeing one page with free_pages, whether or not it is on the list already |
| `PageAlloc.PageAllocator.AllocPage` | src/kernel/mem/alloc_page.c:144-157 | the same as alloc_pages of order 0 |
| `ByteView.FillBytesEffect` | src/kernel/string.c:69-78 | memset sets exactly its bytes, with addresses that wrap at 2^32, and touches no word outside its range |
| `HeapModel.RoundedHoldsExactly` | src/kernel/mem/alloc.c:55-61 | the rounded size holds the request if and only if the size computation does not wrap, and then it is the least number of pages that does |
| `HeapModel.PlaceInBlock` | src/kernel/mem/alloc.c:65-66 | the result lies 8 bytes or one alignment into the block and is aligned |
| `HeapModel.NaturalAlignmentCovers` | src/kernel/mem/alloc.c:60-62 | the natural alignment of the block covers the alignment the backend ignores |
| `HeapModel.MemalignPlacement` | src/kernel/mem/alloc.c:47-72 | for a served request that does not wrap: block aligned, result aligned, metadata and request inside the rounded size, n <= 2^order < 2n |
| `HeapModel.LiveBlocksDisjoint` | src/kernel/mem/alloc_page.c:38-75 | live blocks share no page with each other or with the free list |
| `HeapModel.MemalignKeepsInv` | src/kernel/mem/alloc.c:47-72 | a served memalign with max(8, alignment) below the rounded size keeps the heap invariant and returns a pointer that was not live |
| `HeapModel.ServedMemalign` | src/kernel/mem/alloc.c:47-72 | a served memalign, wrapping or not, keeps the heap invariant if and only if max(8, alignment) is below the rounded size, as it is for every request that does not wrap |
| `HeapModel.FailedMemalign` | src/kernel/mem/alloc.c:62-71 | a failed memalign returns 8 or the alignment, writes only the two words before it, and keeps the invariant exactly when that is no live pointer |
| `HeapModel.MemoryFrame` | src/kernel/mem/alloc.c:68-70 | a write keeps the heap invariant if and only if it changes no link of the list and no metadata word of a live block |
| `HeapRuns.FreeDecodes` | src/kernel/mem/alloc.c:25-34 | block_begin and block_size read back the live block's base and size |
| `HeapRuns.FreeKeepsInv` | src/kernel/mem/alloc.c:36-45 | free of a live pointer keeps the heap invariant |
| `HeapRuns.AllocFreeAccounting` | src/kernel/mem/alloc_page.c:107-123 | memalign then free loses exactly 2^order - n pages, the last of the block, and conserves the free set if and only if n is a power of two, also for requests that wrap |
| `HeapRuns.WriteKeepsInv` | src/kernel/mem/alloc.c:64-71 | any writes by clients to their own blocks and pages keep links and metadata |
| `HeapRuns.CallocClears` | src/kernel/mem/alloc.c:13-19 | a served calloc that does not wrap clears exactly the bytes asked for, inside its block |
| `HeapRuns.CallocExactly` | src/kernel/mem/alloc.c:13-19 | any calloc, served or not and wrapping or not, keeps the heap if and only if its zeros find nothing to clear in links and live metadata |
| `HeapRuns.LegalExactly` | src/kernel/mem/alloc.c:13-72 | the conditions put on memalign and calloc are exact: an allocation keeps the heap invariant if and only if it is legal |
| `HeapRuns.ServedCallocIsLegal` | src/kernel/mem/alloc.c:13-19 | a calloc that is served and does not wrap is always legal |
| `HeapRuns.StepKeepsInv` | src/kernel/mem/alloc.c:8-72 | every legal operation, failed requests included, keeps the heap invariant |
| `HeapRuns.StepKeepsPool` | src/kernel/mem/alloc.c:8-72 | every legal operation keeps the set of pages, and a lost page stays lost |
| `HeapRuns.RunKeepsInv` | src/kernel/mem/alloc.c:8-72 | invariant and pool after any sequence of legal operations |
| `HeapRuns.RunSafety` | src/kernel/mem/alloc.c:8-72 | after any run: list well formed and acyclic, live blocks disjoint from each other and the list, every live pointer decodes to its block |
| `HeapRuns.RunConservesPages` | src/kernel/mem/alloc_page.c:107-123 | after any run the free pages and the pages with another owner add up to the pool the run started from |
| `HeapRuns.FreeAfterFailure` | src/kernel/mem/alloc.c:36-45 | freeing the pointer of any failed memalign empties the free list |
| `HeapRuns.FailedCalloc` | src/kernel/mem/alloc.c:13-19 | a failed calloc clears its bytes from address 8 on, wrapping at 2^32, and nothing else above the first two words; the heap survives if and only if no byte cleared that was not 0 belongs to a link or to live metadata, as when only page 0 is cleared |
| `HeapEffects.StepKeepsPage` | src/kernel/mem/alloc.c:8-72 | an operation that is not aimed at an owned page leaves its owner and every word of it alone |
| `HeapEffects.RunKeepsPage` | src/kernel/mem/alloc.c:8-72 | the same over any run, also for pages that a client took directly |
| `HeapEffects.ServedRequestsSpare` | src/kernel/mem/alloc.c:8-72 | served requests (a calloc only if its size does not wrap), frees of other blocks and returned pages are aimed at no live block |
| `HeapEffects.RunKeepsBlock` | src/kernel/mem/alloc.c:8-72 | client data survives: after any run not aimed at a live block it is live, in place, and holds what it held |
| `HeapEffects.LossOfBlock` | src/kernel/mem/alloc_page.c:107-123 | the free of a live block of n pages loses 2^order - n pages, fewer than n, and none if and only if n is a power of two |
| `HeapEffects.FreeLeaksTail` | src/kernel/mem/alloc_page.c:120-123 | the pages a free loses are the last ones of the block, and none was lost before |
| `HeapEffects.StepLeaks` | src/kernel/mem/alloc.c:8-72 | no other operation loses a page |
| `HeapEffects.RunLeaks` | src/kernel/mem/alloc_page.c:107-123 | the pages lost by any run add up to the sum over its frees of 2^order - n |
| `KernelHeap.Kernel.Memalign` | src/kernel/mem/alloc.c:47-72 | for every alignment and size over a well-formed list the method does what the heap operation says; a legal request keeps the invariant |
| `KernelHeap.Kernel.Malloc` | src/kernel/mem/alloc.c:8-11 | memalign to a word, for every size |
| `KernelHeap.Kernel.Memset` | src/kernel/string.c:69-78 | the loop fills exactly the range, which may wrap |
| `KernelHeap.Kernel.Calloc` | src/kernel/mem/alloc.c:13-19 | the method does what the heap operation says, whether memory is found or not; a legal call keeps the invariant |
| `KernelHeap.Kernel.Free` | src/kernel/mem/alloc.c:36-45 | decodes the block, returns its rounded size, keeps the invariant |
| `KernelHeap.FirstRequest` | src/kernel/mem/alloc_page.c:107-118 | on a heap of one freed region the first request is served if and only if its rounded size is not 0 and the region holds a naturally aligned block of the least power of two of pages for it |
| `KernelHeap.OnePageServes` | src/kernel/mem/alloc.c:47-72 | one free page serves malloc if and only if the size is at most 4088 or above 0xFFFFFFF8, where the size computation wraps; the result lies 8 bytes into the page |
| `EarlyHeap.RoundedHoldsExactly` | src/kernel/mem/alloc.c:55-61 | with the early minimum alignment 64 the rounded size holds the request if and only if the size computation does not wrap, and then it is the least multiple of 64 that does |
| `EarlyHeap.LargestMalloc` | src/kernel/mem/alloc.c:55-61 | malloc of 0xFFFFFFFF asks the early backend for 64 bytes |
| `EarlyHeap.EarlyPlacement` | src/kernel/mem/alloc.c:47-72 | a granted early request with max(8, alignment) below the rounded size, whose sum with the padding does not wrap: block and result aligned, metadata inside the region, and the requested bytes inside it if and only if the size computation did not wrap |
| `EarlyHeap.EarlyMemalign` | src/kernel/mem/alloc.c:47-72 | what a served call returns: a new pointer, a multiple of the alignment asked for, in the region the backend granted, behind the two words that describe it; the bytes asked for lie inside if and only if request, room to align, metadata and rounding fit below 2^32; no other word changes |
| `EarlyHeap.StepKeepsInv` | src/kernel/mem/alloc.c:36-72 | memalign served or failed, free, which does nothing here, client writes and get_unused keep live blocks apart and their metadata whole |
| `EarlyHeap.EarlyRunSafety` | src/kernel/mem/alloc.c:8-72 | after any run over the early backend live blocks have no byte in common, lie below the pointer, decode from the two words in front of them, and are aligned, with room, as was asked |
| `Bump.PaddingIsLeast` | src/kernel/mem/alloc_phy.c:75-76 | the padding is the distance to the next multiple, even when that is 2^32 |
| `Bump.GrantedExactly` | src/kernel/mem/alloc_phy.c:76-89 | a request is granted exactly when size and padding fit, or their sum wraps to something that does |
| `Bump.GrantByWrapping` | src/kernel/mem/alloc_phy.c:76-89 | a concrete wrapping request that is granted on an exhausted region |
| `Bump.AllocMeaning` | src/kernel/mem/alloc_phy.c:75-102 | without wrap: granted exactly when the aligned region fits, pointer at its end, failure changes nothing |
| `Bump.AllocAt` | src/kernel/mem/alloc_phy.c:75-102 | the same when base or top stand at 2^32 and read 0, for requests that are not empty |
| `Bump.EmptyRequestAtTop` | src/kernel/mem/alloc_phy.c:75-89 | a concrete empty request on a region ending at 2^32 that is granted at address 0 |
| `Bump.StepKeepsInv` | src/kernel/mem/alloc_phy.c:75-116 | grants of requests that do not wrap stay sorted, disjoint, aligned and accounted for, also across get_unused |
| `Bump.RunAccounts` | src/kernel/mem/alloc_phy.c:42-117 | over any run of requests that do not wrap, on a region that ends at 2^32 or below (at 2^32: no empty requests): logged regions sorted and in range; sizes, padding and rest add up to the initial size until the log is full |
| `Bump.PhysAllocator.Init` | src/kernel/mem/alloc_phy.c:42-49 | the state every run starts from |
| `Bump.PhysAllocator.AllocAligned` | src/kernel/mem/alloc_phy.c:59-103 | base, top, log and result are those of the allocation step |
| `Bump.PhysAllocator.GetUnused` | src/kernel/mem/alloc_phy.c:105-117 | returns the bounds of what is left and logs it |
| `Bump.PhysAllocator.EarlyMemalign` | src/kernel/mem/alloc_phy.c:119-131 | NULL exactly when the aligned request does not fit, or when it is granted at address 0 or, empty, at the last byte; otherwise an aligned region ending at base |
| `SpinBump.AccessProgress` | src/kernel/mem/alloc_phy.c:66-116 | every single access of the lock holder, in an allocation or in get_unused, continues the serial step it is in or is a store past a full log |
| `SpinBump.MoveKeepsInv` | include/spin_lock.h:10-18 | any access by any thread keeps the protocol invariant |
| `SpinBump.RunKeepsInv` | include/spin_lock.h:10-18 | the protocol invariant after any schedule |
| `SpinBump.Linearizable` | src/kernel/mem/alloc_phy.c:59-117 | any threads, any schedule of allocations and get_unused in which get_unused never gets the lock on a full log: one thread in the critical section, every allocation gets the result of its own request in a serial run in lock order, every range returned ends at top and starts at an earlier base, shared memory that of the serial run when the lock is free |
| `SpinBump.GrantsDisjoint` | src/kernel/mem/alloc_phy.c:59-103 | if no request wraps (size + alignment at most 2^32), two regions granted under any schedule do not overlap and lie in the initial region |
| `SpinBump.UnusedExactly` | src/kernel/mem/alloc_phy.c:105-117 | with no wrapping and no empty request, the range get_unused returns has no byte in common with what any other call takes if and only if the base it read before taking the lock is still the base when it gets it |
| `SpinBump.QuitExactly` | src/kernel/mem/alloc_phy.c:107-110 | a get_unused that returns without the lock, under the same conditions: its range has no byte in common with what was taken if and only if it is empty |
| `SpinAlone.TestExactly` | src/kernel/mem/alloc_phy.c:109-110 | when base and top are equal the call ends there with memory and calls unchanged and one more quit; otherwise it goes on to the lock |
| `SpinAlone.Finishes` | src/kernel/mem/alloc_phy.c:66-116 | from any place inside the lock the holder, alone, reaches the release in finitely many accesses, with the memory of the serial call |
| `SpinAlone.AllocAlone` | src/kernel/mem/alloc_phy.c:59-103 | an allocation alone from a free lock: pointer, base and log of the serial one |
| `SpinAlone.UnusedAlone` | src/kernel/mem/alloc_phy.c:105-117 | get_unused alone from a free lock, for every state with nothing left or room in the log: the serial memory and all that was left as range; nothing changes when nothing was left |
| `SpinRace.UnusedRace` | src/kernel/mem/alloc_phy.c:105-117 | a concrete schedule of two threads after which get_unused has returned 16 bytes that the other thread was given |
| `Format.PaddedShape` | src/kernel/printf.c:41-65 | padding yields max(length, width) characters with the text intact, in front of it for a positive width and spaces behind it for a negative one |
| `Format.DigitsRoundTrip` | src/kernel/printf.c:79-82 | the digits of a number evaluate back to it in every base up to 16 |
| `Format.LeadingDigit` | src/kernel/string.c:132-161 | a digit in front of others counts for its value times the power of the base |
| `Format.AtolReads` | src/kernel/string.c:132-161 | blanks and tabs, a sign or none, digits if any, and anything that cannot belong to them: the value of the digits, negated behind a minus sign |
| `Format.WordDigits` | src/kernel/printf.c:69-106 | 32-bit numbers need at most 10 decimal and 8 hexadecimal digits |
| `Format.PrintParse` | src/kernel/string.c:132-161 | atol of a printed integer is the integer, except exactly when zeros are put before a minus sign |
| `Format.WidthRoundTrip` | src/kernel/printf.c:142-156 | a printed integer, read as the width of a directive, is that width; a printed 0 also sets the 0 flag |
| `Format.PlainFormat` | src/kernel/printf.c:165-175 | a format without percent signs is its own output |
| `Format.ShiftIdeal` | src/kernel/printf.c:165-262 | the output of a format from some position on depends only on the text from there on |
| `Format.LiteralPrefix` | src/kernel/printf.c:165-175 | text without percent signs in front of a format comes out in front of its output |
| `Format.WidthDirective` | src/kernel/printf.c:195-224 | a decimal directive with any printed width puts out the number padded to that width, then the rest of the format |
| `Format.Joined` | src/kernel/printf.c:165-262 | when all directives of a format end inside it, the output of that format followed by another is the one output and then the other, from the argument the first stopped at; the exception is a 0 flag in front of a blank or plus sign from which atol reads on to a number that does not fit, and then the whole has no meaning |
| `Format.BlankBeforeNumber` | src/kernel/printf.c:189-197 | the exception occurs: "%0 " in front of a printed number has a meaning exactly when the number fits an int |
| `Format.LongLong` | src/kernel/printf.c:212-224 | %lld puts out the low 32 bits; the number is right if and only if the high word repeats their sign |
| `Format.PlainDirectives` | src/kernel/printf.c:103-140 | for every word the output of u and x reads back as the argument, and that of d for all but the most negative integer; p is x behind 0x if and only if the word is not 0 |
| `Directives.ReadBack` | src/kernel/printf.c:176-211 | for every # and 0 flag, width, number of l's or a z or t, and conversion character: the directive written from these parts is read back as exactly these parts |
| `Directives.Converted` | src/kernel/printf.c:176-262 | a written directive puts out what its conversion makes of its parts and arguments, then comes the rest |
| `Directives.StringDirective` | src/kernel/printf.c:255-257 | %s: the string in its field, one argument used |
| `Directives.CharDirective` | src/kernel/printf.c:179-184 | %c: the low byte; %%: one percent sign; no conversion: the character itself |
| `Directives.DecimalDirective` | src/kernel/printf.c:212-224 | %d with any length: sign and digits of the number in its field, one argument, or two for ll and more |
| `Directives.UnsignedDirective` | src/kernel/printf.c:225-250 | %u and %x: the digits of the word in base 10 or 16 in its field, one argument whatever the length |
| `Directives.PrefixDirective` | src/kernel/printf.c:115-127 | %#x and %p: 0 without 0x, otherwise 0x and the digits, zeros of the 0 flag between the two |
| `Directives.Unfinished` | src/kernel/printf.c:185-187 | a format that ends behind flags and length modifiers puts out nothing for them |
| `Directives.AlternateHex` | src/kernel/printf.c:188-190 | %#x is 0 at 0 and otherwise 0x and text whose value in base 16 is the word |
| `Printf.ReversePrefix` | src/kernel/printf.c:90-96 | the swap loop reverses the buffer in place |
| `Printf.WriteDigits` | src/kernel/printf.c:109-112 | the digit loop writes the digits, least significant first |
| `Printf.PStream.AddChar` | src/kernel/printf.c:32-39 | appends to the output; the buffer keeps what fits |
| `Printf.PStream.PrintStr` | src/kernel/printf.c:41-65 | appends exactly the padded text |
| `Printf.PStream.PrintInt` | src/kernel/printf.c:69-101 | appends the padded decimal text; the 14-character buffer suffices |
| `Printf.PStream.PrintUnsigned` | src/kernel/printf.c:103-140 | appends the padded number with its 0x where the flags put it; the 15-character buffer suffices |
| `Printf.AtolAt` | src/kernel/string.c:132-161 | the parser loop computes the number without overflow |
| `Printf.FmtNum` | src/kernel/printf.c:142-156 | value and length of a width |
| `Printf.ReadDirective` | src/kernel/printf.c:169-211 | the morefmt loop ends at the conversion character, inside the format, with the parsed properties |
| `Printf.Emit` | src/kernel/printf.c:178-261 | the conversion appends the directive's text and uses up its argument |
| `Printf.RoomExactly` | src/kernel/printf.c:32-39 | the room needed and the characters kept, in plain arithmetic: a buffer of size characters always suffices |
| `Printf.VSnprintf` | src/kernel/printf.c:158-265 | C11 section 7.21.6.12: the first min(length, size - 1) characters of the ideal output, NUL, nothing else touched, full length returned; with a size below 1, the whole output |
| `GuestPaging.SetupGuestPageTables` | src/kernel/vm/vm.c:44-83 | every entry of both tables |
| `GuestPaging.BuiltTablesIntact` | src/kernel/vm/vm.c:44-83 | those entries in memory are what the walk theorems need |
| `GuestPaging.GuestWalk` | src/kernel/vm/vm.c:51-80 | under the guest directory every address maps to itself, writable except on page 0x103 |
| `GuestPaging.HostWalk` | src/basic_set/os.c:27-30 | under the host directory the first 4 MB map to themselves and nothing else is present |
| `GuestPaging.AlwaysIdentity` | src/kernel/vm/vm.c:625-629 | under either directory present addresses map to themselves and the first 4 MB are present |
| `VmRun.Vm.ExchangeGprs` | src/kernel/vm/vm.c:244-253 | the seven exchanges swap processor and save area |
| `VmRun.Vm.VmxEnterGuest` | src/kernel/vm/vm.c:717-756 | host registers back, guest registers saved, vmlaunch or vmresume by the launched flag, failure by the top bit of the reason |
| `VmRun.Vm.HandleHypercall` | src/kernel/vm/vm.c:573-593 | the verdict for the low 12 bits; the field is cleared |
| `VmRun.Vm.ExitHandler` | src/kernel/vm/vm.c:597-696 | instruction pointer, flags, CR3 and verdict for every exit reason |
| `VmRun.Vm.VmxRun` | src/kernel/vm/vm.c:760-808 | the loop is the iteration of its round, until it returns, breaks or runs out of exits |
| `VmTraces.StepMeaning` | src/kernel/vm/vm.c:760-808 | which exits continue, return or break, and the guest state left for the next entry |
| `VmTraces.StepExactly` | src/kernel/vm/vm.c:597-808 | one round for every exit reason by its number: instruction pointer, CR3, flags, hypercall word, registers and verdict |
| `VmTraces.NextInstruction` | src/kernel/vm/vm.c:607-676 | at every entry of every run the guest goes on behind the instruction that exited for cpuid, hlt, invlpg, vmcall and control or debug register accesses, and at the same instruction otherwise |
| `VmTraces.GoesOn` | src/kernel/vm/vm.c:781-807 | there is a further entry exactly when no exit so far was a failed entry, an EPT violation or a hypercall other than 3 |
| `VmTraces.RunInvariant` | src/kernel/vm/vm.c:717-808 | every run: vmlaunch only first, host registers restored, each entry resumes the exit before it |
| `VmTraces.Outcome` | src/kernel/vm/vm.c:781-807 | return 0 with guest_finished exactly when the first exit that does not continue is hypercall 1 or 2 or an EPT violation |
| `VmTraces.HypercallDecodes` | src/kernel/vm/vm.c:268-280 | the handler decodes the low 12 bits the guest passed; 1 and 2 return, 3 continues, others break |
| `VmTraces.DirectoryInUse` | src/kernel/vm/vm.c:625-629 | the guest directory until the first page fault, the host's ever after |
| `VmTraces.FaultsAtMostOnce` | src/kernel/vm/vm.c:615-631 | the first page fault of a run is a write to page 0x103, permitted afterwards; later faults are at or above 4 MB |
| `VmTraces.AddressSpace` | src/kernel/vm/vm.c:51-80 | at every entry of every run present addresses map to themselves and the first 4 MB are present |
| `Strings.Memmove` | src/kernel/string.c:106-120 | C11 section 7.24.2.2 for every overlap, all other bytes unchanged |
| `Strings.Memcmp` | src/kernel/string.c:92-104 | zero exactly for equal blocks, otherwise the first difference |
| `Strings.Strlen` | src/kernel/string.c:4-11 | the distance to the first NUL |
| `Strings.Strstr` | src/kernel/string.c:52-67 | C11 section 7.24.5.7: the first occurrence, NULL exactly when there is none |
| `ElfLoad.LoadSegment` | src/basic_set/os.c:50-59 | copies byte by byte upwards, whatever overlaps, then clears the rest; nothing else changed |
| `ElfLoad.CopyUpBytes` | src/basic_set/os.c:50-54 | that copy is exact unless the destination starts inside the source; then the first bytes repeat |
| `ElfLoad.ReloadElfFile` | src/basic_set/os.c:36-63 | memory afterwards is that of serving one header after the other, each read as the segments before it left it, also when segments overlap the file; without the magic number nothing happens |
| `ElfLoad.LoadableFile` | src/basic_set/os.c:44-62 | a file whose segments lie away from it is loaded: every address holds what the last segment covering it puts there, and the entry point is that of the file |
| `ElfLoad.DisjointSegmentsLoaded` | src/basic_set/os.c:44-60 | with disjoint segments each ends up in place and all other bytes are unchanged (System V gABI chapter 5) |
| `ElfImage.ReadEhdr` | include/os_elf.h:28-43 | from the bytes of a written file header the loader takes its entry point, number of program headers and their addresses |
| `ElfImage.ReadPhdr` | include/os_elf.h:47-56 | the same for every written program header |
| `ElfImage.Loads` | src/basic_set/os.c:36-63 | for every file built from records, in memory at any address: each byte a PT_LOAD record fills holds what the last such record puts there, file bytes and then zeros; other bytes are unchanged, and the entry point is that of the header |
| `ElfImage.MagicExactly` | src/basic_set/os.c:39-42 | the file is taken for an ELF file exactly when it begins with 7F 45 4C 46 |
| `ElfLoad.FileUntouched` | src/basic_set/os.c:44-60 | loading leaves the file itself alone |

## Left out

- The page list under concurrency: alloc_pages and alloc_page read the head before they take the lock, so the list is modelled sequentially.
- Switching backends while blocks are live.
- The list at boot, whose head is 0x200000 and whose first link is whatever memory holds there: runs start from any well-formed list.
- PageAlloc.PageAllocator.PageMemalign: requires a size of at most 2^32 - 4096, above which the page count is 0 and the builtin behind fls undefined; memalign never asks for more.
- HeapRuns.StepKeepsInv: requires memalign's alignment to be a power of two, as ALIGN does; what wrapping does to the size is in `HeapModel.RoundedHoldsExactly`.
- EarlyHeap.EarlyMemalign: requires a power of two as alignment, a rounded size above max(8, alignment), and a sum of size and padding below 2^32; alignments 0 and 3 become 4 in the source.
- Bump.PhysAllocator.GetUnused: requires a free log entry, which the source does not look for.
- SpinBump.Linearizable: phys_alloc_init and phys_alloc_show do not run beside other threads, and a get_unused that gets the lock on a full log stores past the array, after which nothing is promised.
- Printf.VSnprintf: requires a buffer that holds what is written, enough arguments of the right kind, decimal integers other than the most negative, and widths and lengths that fit an int.
- Printf.Emit: variable arguments are a sequence of words and strings.
- snprintf, printf, vprintf and the other wrappers around vsnprintf, and binstr, whose 32 digits are a fixed-size exercise.
- VmRun.Vm.RunGuest: the guest's instructions are not modelled; an exit brings arbitrary registers, flags, instruction pointer and exit fields.
- Early VM-entry failures, entry_sysenter, the constant VMCS fields, control-bit selection and VMX enabling.
- VmTraces.FaultsAtMostOnce: assumes that the guest does not write the pages that hold page tables.
- ElfLoad.ReloadElfFile: requires headers and segments inside memory, with file size at most memory size below 2^31.
- ElfImage.Loads: requires segments away from the file; what happens when they overlap it is in `ElfLoad.CopyUpBytes` and `ElfLoad.LoadFrom`.
- strcat, strcpy, strcmp, strchr, memcpy and memchr, which would only add simpler loops.
- Port I/O, disk reads, interrupt controllers, CPUID and MSR access, descriptor tables, tasks and system calls.
