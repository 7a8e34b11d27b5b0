# TerracottaOS, verified

A Dafny model of the parts of the TerracottaOS kernel (x86-64) whose correctness is not
visible at a glance, with machine-checked proofs of what they are for. `dafny verify
dfyconfig.toml` checks everything.

* **Memory.** The first-fit bitmap allocator and the four-level page tables built from its
  pages. `PageTables` holds the tables as words of physical memory and the translation the
  processor takes from them (section 4.5 of the Intel 64 and IA-32 SDM, Volume 3A);
  `TableStores` the frame arguments for single stores; `Kernel` allocator and tables as one
  state machine with an ownership invariant; `Runs` what holds over every run; `Boot` the move
  to the kernel's own root table; `Rights` the write and user rights of a walk (section 4.6). The classes `PhysMem.Pmm` and `VirtMem.Vmm` are the code:
  arrays changed in place, pointers through the fixed offset map, C's masks and shifts. They are
  proved to follow the state machine step by step.
* **Formatting.** `NumberField` is one integer field as the 32-byte buffer produces it, next to
  the field of section 7.21.6.1 of ISO C11, and the exact condition under which the two agree.
  `C11` is that section for whole directives and formats, a definition of its own on what is
  written and passed, with the exact conditions under which the code meets it.
  `Directives` is the meaning of a format string; `Printk` the engine, proved to emit exactly
  that meaning; `Serial` the logger's second implementation, proved to print what printk prints.
* **Scheduling.** `Scheduler`: round-robin over the process table, with bounded waiting while
  registrations keep arriving.
* **Keyboard.** `Keyboard`: the scancode decoder in the interrupt handler, the ring buffer and the
  line editor, with interrupts between any two steps of the reader. What a line is made of is what
  was in the ring and what came in since; how that relates to what was typed is stated beside it.
* **Strings.** `Strings`: `memmove` over any overlap, `strstr`, and whole runs of `strtok`.

Words are natural numbers below 2^8, 2^32 or 2^64 (`Words`); wrap-around and truncation are
written out. Physical memory is one array of 64-bit words, frame f holding words 512f to
512f+511.

Where the code departs from what one would expect of it, the model follows the code and the
exact condition is proved: `PhysMem.PoolInsideRegion` and `Kernel.AllocFreeAlloc` (the bitmap is
rounded up to whole bytes, so up to seven pages of the pool can lie outside the region, and
`kfree` refuses those), `Kernel.KallocCovers` (one page whatever the size),
`NumberField.FieldMeetsC11` and `Directives.IntegerMeetsC11` (precision beside `-`, zero-padding
and precision beyond the buffer), `NumberField.NegativePrecision` and `Directives.BelowZeroInputs`
(negative precision arguments), `NumberField.HashKeepsValue`, `NumberField.HashMeetsC11` and `NumberField.HashOfZero` (digits and
prefixes lost with `#`),
`C11.IntegerPrints` and `C11.TextPrints` (the same for directives as written),
`Directives.TextMeetsC11` (string lengths are counted in 32 bits, and negative precisions),
`Rights.MmapRights` (tables built without the user bit), `Serial.SixteenHex` (hexadecimal
values that fill the logger's buffer), `Serial.I2SMeetsPrintk` (small negative numbers),
`VirtMem.EntryMaskIs` (entries with bits above the address), `Keyboard.AcceptedIsTyped`,
`Keyboard.KeptIsAll` and `Keyboard.TimingMatters` (backspaces before the first character is counted).

## Model

| member | source | states |
|---|---|---|
| Words.AroundIs | ASNU/src/sched/scheduler.c:84-90 | stepping around a table or ring is C's remainder as long as the index has gone around at most once |
| Address.OffsetMap | ASNU/src/KiSimple.c:158-172 | physical-to-virtual and back are inverse on all 64-bit words, and do not wrap for any frame below 2^47 bytes |
| PageTables.SamePage | ASNU/src/VMM/vmm.c:27-30 | two addresses select the same four table entries if and only if bits 12..47 agree |
| PageTables.NoSharing | ASNU/src/VMM/vmm.c:32-57 | in a well-formed tree a table is met at one level only, and only by addresses that agree on every index leading to it |
| PageTables.EveryTableReached | ASNU/src/VMM/vmm.c:32-57 | in a well-formed tree every table translates some address |
| TableStores.LookupFrame | ASNU/src/VMM/vmm.c:21-62 | a walk is unchanged by stores that leave the entries on its path alone |
| TableStores.LinkTree | ASNU/src/VMM/vmm.c:33-36 | linking a zeroed frame under an absent entry keeps the tables a tree |
| TableStores.LinkWalk | ASNU/src/VMM/vmm.c:33-36 | linking a zeroed frame under an absent entry changes no translation |
| TableStores.LeafStore | ASNU/src/VMM/vmm.c:59-61 | a store into a page table keeps the tree and changes the translation of exactly the addresses on that page |
| Kernel.FullIff | ASNU/src/PMM/pmm.c:102-117 | the first-fit search fails if and only if every page of the pool is marked |
| Kernel.KallocCovers | ASNU/src/PMM/pmm.c:86-100 | kalloc succeeds if and only if something is asked for and the pool is not full; what it reserves covers the request if and only if that is 0 bytes, or at most 4096 with a free page |
| Kernel.AllocFreeAlloc | ASNU/src/PMM/pmm.c:102-128 | freeing the page just allocated restores the bitmap, and the next allocation returns it again, if and only if the page lies inside the region |
| Kernel.NewTableInv | ASNU/src/VMM/vmm.c:33-36 | a table taken from the pool, zeroed and linked keeps tree and bitmap in agreement |
| Kernel.NewTableWalk | ASNU/src/VMM/vmm.c:33-36 | and changes no translation |
| Kernel.DescendStep | ASNU/src/VMM/vmm.c:32-39 | one level of mmap keeps the invariant, every translation and every caller's page, reaches the next table, and spends a page exactly when a table was missing |
| Kernel.MmapEffect | ASNU/src/VMM/vmm.c:21-62 | mmap maps exactly its own page, keeps every other translation, the invariant and every caller's page, and sets as many bitmap bits as levels were absent |
| Kernel.UnmapEffect | ASNU/src/VMM/vmm.c:64-83 | unmap makes exactly its own page fault, keeps every other translation and the invariant, and touches no bitmap bit |
| Runs.PallocKeeps | ASNU/src/PMM/pmm.c:102-117 | palloc returns the least free page, which no caller holds and which is no table; None exactly when the pool is full; nothing else changes |
| Runs.AllocationTakes | ASNU/src/PMM/pmm.c:86-117 | palloc gives a page unless the pool is full, kalloc unless the pool is full or nothing was asked for; the page is the least free one, and the caller's holding and the mark are all that changes; failing changes nothing |
| Runs.KfreeKeeps | ASNU/src/PMM/pmm.c:119-128 | freeing a caller's page keeps the invariant, every translation and every other frame |
| Runs.KfreeClears | ASNU/src/PMM/pmm.c:119-128 | a page of the region comes back zeroed, unmarked and unowned; one of the rounded-up tail changes nothing |
| Runs.WriteKeeps | ASNU/src/PMM/pmm.c:102-117 | what a caller stores into its own page changes no translation and no other frame |
| Runs.WriteStores | ASNU/src/PMM/pmm.c:102-117 | a caller's store arrives in its word, and every other word of every frame stays |
| Runs.StepKeeps | ASNU/src/VMM/vmm.c:21-83 | each operation keeps the invariant and acts on translations as the flat map does |
| Runs.RunKeepsInv | ASNU/src/VMM/vmm.c:32-57 | every run of palloc, kalloc, kfree, mmap, unmap and callers' stores keeps the tables a tree, disjoint from callers' pages, with exactly these two marked in the bitmap |
| Runs.RunTranslates | ASNU/src/VMM/vmm.c:21-83 | after every run the walk of every address is the last-writer-wins map on page numbers |
| Runs.RunHandsOutFresh | ASNU/src/PMM/pmm.c:102-117 | after every run the page handed out is neither a table nor any caller's page, and None means a full pool |
| Runs.RunIsolates | ASNU/src/VMM/vmm.c:32-61 | a page in a caller's hands keeps its contents over every run that does not free it or write to it, and is never a table |
| Runs.RunAccounts | ASNU/src/VMM/vmm.c:33-57 | over every run marked pages are callers' pages plus tables, and tables grow by exactly the absent levels the mmaps met |
| Runs.RemapIsFree | ASNU/src/VMM/vmm.c:33-57 | after an mmap, mapping any page under the same page table needs no new table |
| Runs.RunKeepsSmall | ASNU/src/VMM/vmm.c:21-83 | no run makes an address lie in a large page that did not before |
| Runs.SmallAtStart | ASNU/src/VMM/vmm.c:21-83 | for all the theorems about runs it is enough that the addresses mapped and unmapped lie in no large page at the start |
| Boot.RerootWalk | ASNU/src/VMM/vmm.c:15-16 | a copied root table translates every address as the original does |
| Boot.VmmInitEffect | ASNU/src/VMM/vmm.c:11-19 | vmm_init changes no translation, spends one page, and establishes the ownership invariant for the new root |
| Boot.VmmInitReady | ASNU/src/VMM/vmm.c:15-16 | the invariant of the boot tree and one free page give the copied root a frame of its own |
| Boot.BootThenRun | ASNU/src/VMM/vmm.c:11-83 | from the boot loader's tables through vmm_init and any run: the invariant holds, and translations are the boot loader's as changed by mmap and unmap since |
| Rights.NewTableUpper | ASNU/src/VMM/vmm.c:36 | a table mmap builds lets its path be written through, but not used by user code |
| Rights.MmapRights | ASNU/src/VMM/vmm.c:32-61 | after mmap a page may be written if and only if its flags and all entries that were on the path say so, and used by user code if and only if, besides, no table had to be built |
| Rights.MmapElsewhere | ASNU/src/VMM/vmm.c:21-62 | mmap changes the rights of no other page |
| Rights.UnmapRights | ASNU/src/VMM/vmm.c:64-83 | unmap takes the rights of its own page and of no other |
| Rights.RunRights | ASNU/src/VMM/vmm.c:21-83 | after every run a page has exactly the rights its last mmap granted in the state it found, none after an unmap, and the first ones if it was never touched |
| PhysMem.SetBitsCount | ASNU/src/PMM/pmm.c:72-84 | the set bits of the packed bitmap number the used frames |
| PhysMem.MaskTest | ASNU/src/PMM/pmm.c:94 | the mask test finds 0 if and only if the bit is clear |
| PhysMem.MarkFrames | ASNU/src/PMM/pmm.c:72-84 | or-ing a mask in, or and-ing its complement, adds or removes exactly one frame of the set the bitmap stands for |
| PhysMem.PoolInsideRegion | ASNU/src/PMM/pmm.c:61 | all pages of the rounded-up pool lie inside the region if and only if its page count is a multiple of 8 |
| PhysMem.Pmm.constructor | ASNU/src/PMM/pmm.c:29-70 | pmm_init leaves a bitmap of the rounded-up size that stands for the empty set |
| PhysMem.Pmm.BitmapSetBit | ASNU/src/PMM/pmm.c:72-77 | adds exactly that frame, or nothing beyond the bitmap |
| PhysMem.Pmm.BitmapClearBit | ASNU/src/PMM/pmm.c:79-84 | removes exactly that frame |
| PhysMem.Pmm.TakeIfFree | ASNU/src/PMM/pmm.c:106-112 | tells whether a frame is free and takes it if so |
| PhysMem.Pmm.palloc | ASNU/src/PMM/pmm.c:102-117 | returns the pointer to the least free frame and marks that frame alone; 0 and no change if none is free |
| PhysMem.Pmm.kalloc | ASNU/src/PMM/pmm.c:86-100 | the same for any size but 0; 0 and no change for size 0 |
| PhysMem.Pmm.kfree | ASNU/src/PMM/pmm.c:119-128 | a page of the region is unmarked and zeroed, nothing else changes; other pointers change nothing |
| PhysMem.Pmm.ClearPage | ASNU/src/string.c:14-22 | memset of a page through the offset map zeroes exactly that frame |
| VirtMem.IndexMasks | ASNU/src/VMM/vmm.c:27-30 | the shifts and masks select the indices the processor uses |
| VirtMem.EntryPtr | ASNU/src/VMM/vmm.c:38 | masking an entry whose upper bits are clear and adding the offset points at the frame the processor takes from it |
| VirtMem.EntryMaskIs | ASNU/src/VMM/vmm.c:38 | the mask yields that frame if and only if bits 52..63 of the entry are clear |
| VirtMem.PresentMask | ASNU/src/VMM/vmm.c:33 | the flag test agrees with the processor's present bit |
| VirtMem.FlagMasks | ASNU/src/VMM/vmm.h:10-12 | the write and user bits of the model are the flag constants, and the page-size bit is the processor's |
| VirtMem.TableEntryMask | ASNU/src/VMM/vmm.c:36 | the or-ed table entry is frame address plus present and writable |
| VirtMem.LeafEntryMask | ASNU/src/VMM/vmm.c:61 | the or-ed leaf entry is page address, the 12 low flag bits, and present |
| VirtMem.Vmm.constructor | ASNU/src/VMM/vmm.c:11-19 | the code of vmm_init takes the step of `Boot.VmmInitEffect` |
| VirtMem.Vmm.Start | ASNU/src/VMM/vmm.c:11-19 | after vmm_init on the boot loader's tables the kernel's own are in order and translate every address as these did |
| VirtMem.Vmm.CopyPage | ASNU/src/string.c:3-12 | memcpy of a page copies exactly one frame over another |
| VirtMem.Vmm.BuildTable | ASNU/src/VMM/vmm.c:34-36 | takes the least free frame, zeroes it and stores its entry, and changes nothing else |
| VirtMem.Vmm.FollowEntry | ASNU/src/VMM/vmm.c:73-74 | yields the pointer to the table an entry refers to, 0 if absent |
| VirtMem.Vmm.NextTable | ASNU/src/VMM/vmm.c:32-39 | the code of one level of mmap takes the step of `Kernel.DescendStep` |
| VirtMem.Vmm.mmap | ASNU/src/VMM/vmm.c:21-62 | afterwards exactly the page of vaddr translates to the new leaf entry, every other page as before; as many pages are spent as tables were missing; the invariant holds |
| VirtMem.Vmm.FindPageTable | ASNU/src/VMM/vmm.c:67-78 | finds the page table of an address, or 0 where the walk stops short |
| VirtMem.Vmm.unmap | ASNU/src/VMM/vmm.c:64-83 | afterwards exactly the page of vaddr faults, every other page translates as before; the allocator is untouched; the invariant holds |
| VirtMem.Vmm.TakePage | ASNU/src/PMM/pmm.c:102-117 | palloc called beside live page tables keeps them and the invariant |
| VirtMem.Vmm.TakeSome | ASNU/src/PMM/pmm.c:86-100 | kalloc called beside live page tables keeps them and the invariant; it returns 0, changing nothing, exactly when nothing was asked for or the pool is full, and otherwise points at the least free page |
| VirtMem.Vmm.GiveBack | ASNU/src/PMM/pmm.c:119-128 | kfree called beside live page tables keeps them and the invariant |
| Numerals.RevDigitsAll | ASNU/src/printk/printk.c:301-308 | with room for all digits, the loop leaves the usual numeral reversed |
| Numerals.RevDigitsValue | ASNU/src/printk/printk.c:301-308 | whatever the room, the characters read back as the value modulo base^room |
| Numerals.LeadingDigit | ASNU/src/printk/printk.c:301-308 | no leading zero is produced for a value other than 0 |
| Numerals.DigitInTable | ASNU/src/Serial/serial.c:70 | printk's digit is the one at its place in the logger's table, capital letters exactly when asked for |
| Numerals.DigitAt | ASNU/src/printk/printk.c:301-308 | place i of a numeral, from the right, is the table's character for v / base^i mod base |
| Numerals.DigitsNeeded | ASNU/src/printk/printk.c:301-308 | a numeral has exactly the places its value needs |
| NumberField.FieldMeetsC11 | ASNU/src/printk/printk.c:237-336 | a field without `#` is the field C11 asks for if and only if the directive fits: no zeros asked for beside `-`, width at most 32 with `0`, precision and sign within the buffer otherwise |
| NumberField.NegativePrecision | ASNU/src/printk/printk.c:649-652 | with a negative precision argument the field is C11's, to which none was given, if and only if the value is not 0 and the `0` flag has nothing to do |
| NumberField.FittingLength | ASNU/src/printk/printk.c:237-287 | a field that fits is as long as the larger of the width and sign plus the larger of precision and digits |
| NumberField.FieldLength | ASNU/src/printk/printk.c:209-287 | the length of every field: left-justified, the larger of the width and sign plus digits, with the precision ignored; otherwise as the width or precision says, with zeros and sign bounded by the 32-byte buffer |
| NumberField.FieldValue | ASNU/src/printk/printk.c:209-336 | for every flag but `#`, every width and precision, a field reads back as the value modulo base^32 |
| NumberField.FieldRoundTrip | ASNU/src/printk/printk.c:209-336 | in bases 8 to 16 a field that fits reads back as the 64-bit value itself, and holds a `-` if and only if the number is negative |
| NumberField.OnlyDigits | ASNU/src/printk/printk.c:305 | a numeral holds nothing but digits |
| NumberField.HashKeepsValue | ASNU/src/printk/printk.c:252-272 | with `#` a field reads back as its value if and only if `#` takes back no more characters than there are padding zeros |
| NumberField.HashMeetsC11 | ASNU/src/printk/printk.c:237-336 | for an octal or hexadecimal value other than 0 the field with `#` is the one C11 asks for, prefix included, if and only if width and precision stay clear of the prefix, as spelt out case by case |
| NumberField.HashOfZero | ASNU/src/printk/printk.c:296-302 | for 0, where the code drops `#`, the field is C11's if and only if it fits without `#` and is not an octal 0 of precision 0 |
| NumberField.NegativeHash | ASNU/src/printk/printk.c:649-652 | the same with `#` |
| Directives.ParseShow | ASNU/src/printk/printk.c:611-693 | every directive written as C11 describes is scanned as what it means, and the rest of the format is left untouched |
| Directives.RenderShow | ASNU/src/printk/printk.c:597-860 | the output of a format is its literal characters and the renderings of its directives, in order, each with its own arguments |
| Directives.IntegerMeetsC11 | ASNU/src/printk/printk.c:641-766 | d, i, u, x, X and o without `#` print what C11 asks for, for every length modifier and argument, if and only if the directive fits; with a negative precision argument, if and only if the value is not 0 and the `0` flag has nothing to do |
| Directives.HashDirectiveMeetsC11 | ASNU/src/printk/printk.c:641-766 | o, x and X with `#` print what C11 asks for, for every length modifier and argument, exactly under the conditions of HashMeetsC11 and HashOfZero, or, with a negative precision argument, NegativeHash |
| Directives.TextMeetsC11 | ASNU/src/printk/printk.c:806-830 | `%s` prints what C11 asks for if and only if no string of 4 GiB or more is padded as a short one; with a negative precision argument, if and only if the string is blank and fits the width |
| Directives.BelowZeroInputs | ASNU/src/printk/printk.c:649-652 | three directives with precision argument -1: what they print and what C11 asks for |
| Directives.LeftSet | ASNU/src/printk/printk.c:611-622 | for every string of flag characters, left-justification is on if and only if it was on or `-` is among them |
| Directives.PlusSet | ASNU/src/printk/printk.c:611-622 | the same for the plus flag and `+` |
| Directives.SpaceSet | ASNU/src/printk/printk.c:611-622 | the same for the space flag and the space |
| Directives.HashSet | ASNU/src/printk/printk.c:611-622 | the same for the prefix flag and `#` |
| Directives.ZeroSet | ASNU/src/printk/printk.c:611-622 | the same for zero padding and `0` |
| Directives.OthersUnset | ASNU/src/printk/printk.c:611-622 | and no flag character changes any other flag |
| C11.TwosComplementIs | ASNU/src/printk/printk.c:732-748 | the number a signed conversion takes from a word is the one in the range of its type that agrees with the word's low bits |
| C11.WrittenFlags | ASNU/src/printk/printk.c:611-690 | the flags a written directive is scanned to are the characters it is written with |
| C11.WrittenLength | ASNU/src/printk/printk.c:656-690 | the length modifiers name 8, 16, 32 and 64 bits |
| C11.ResolvedAmounts | ASNU/src/printk/printk.c:624-654 | width, precision and the place of the value among the arguments, for every combination of stars and numbers, are those of C11 |
| C11.IntegerPrints | ASNU/src/printk/printk.c:611-766 | every integer directive of C11, judged by how it is written and what is passed, prints the text C11 asks for if and only if it fits |
| C11.TextPrints | ASNU/src/printk/printk.c:806-830 | the same for `%s` |
| C11.CharPrints | ASNU/src/printk/printk.c:786-853 | `%c`, with any flags and width, and `%%` always do |
| C11.PointerPrints | ASNU/src/printk/printk.c:832-848 | `%p` prints sixteen capital hexadecimal digits |
| C11.BinaryPrints | ASNU/src/printk/printk.c:708-710 | `%b` prints the binary numeral of every 32-bit value |
| C11.ConvertTakes | ASNU/src/printk/printk.c:630-842 | a directive takes one argument for each star and one for its value, if it has one, and leaves the rest |
| C11.RenderInTurn | ASNU/src/printk/printk.c:597-860 | in a format of pieces the i-th directive is rendered with the arguments from the sum of what the earlier ones take on |
| C11.FormatMeetsC11 | ASNU/src/printk/printk.c:597-860 | a format all of whose directives fit prints exactly what C11 asks for, every directive with its own arguments |
| Printk.EmitConcat | ASNU/src/printk/printk.c:597-860 | writing one text after another is writing their concatenation |
| Printk.EmitToBuffer | ASNU/src/printk/printk.c:133-138 | the buffer receives exactly the part of the text below maxlen, and nothing else changes |
| Printk.EmitToTerminal | ASNU/src/printk/printk.c:151-165 | the terminal shows the text without its zero characters |
| Printk.EmitNowhere | ASNU/src/printk/printk.c:142-145 | a null output stores nothing |
| Printk.EmitTruncates | ASNU/src/printk/printk.c:862-866 | output and terminator together leave the first min(len, count-1) characters, a zero and the rest as it was; nothing at all for count 0 |
| Printk.Sink.Pad | ASNU/src/printk/printk.c:213-218 | emits exactly the missing spaces |
| Printk.Sink.OutRev | ASNU/src/printk/printk.c:209-233 | emits the buffer reversed with its spaces on the side the flags say |
| Printk.Sink.FillBuffer | ASNU/src/printk/printk.c:237-284 | zeros, prefix and sign go into the 32-byte buffer and never beyond it |
| Printk.Sink.DigitLoop | ASNU/src/printk/printk.c:301-308 | the digit loop leaves the digits, least significant first, at most 32 |
| Printk.Sink.Ntoa | ASNU/src/printk/printk.c:291-336 | emits one field, from digit loop to padding |
| Printk.Sink.FlagLoop | ASNU/src/printk/printk.c:611-622 | the flag loop stops at the first other character, with the flags before it |
| Printk.Sink.AtoiLoop | ASNU/src/printk/printk.c:198-205 | reads the digits up to the first other character, modulo 2^32 |
| Printk.Sink.StrnlenS | ASNU/src/printk/printk.c:181-186 | the limited length of a string, as an unsigned int |
| Printk.Sink.ScanDirective | ASNU/src/printk/printk.c:611-690 | the scan of a directive, stars included, yields its meaning and stops at its conversion character |
| Printk.Sink.OutInteger | ASNU/src/printk/printk.c:694-766 | an integer directive emits its text |
| Printk.Sink.OutChar | ASNU/src/printk/printk.c:786-804 | `%c` emits the character justified in its width |
| Printk.Sink.OutString | ASNU/src/printk/printk.c:806-830 | `%s` emits its text |
| Printk.Sink.OutDirective | ASNU/src/printk/printk.c:611-859 | a directive emits its conversion, takes its arguments and leaves the format behind itself |
| Printk.Sink.vsnprintf | ASNU/src/printk/printk.c:587-867 | emits the rendering of the whole format followed by a zero, and returns the full length as an int |
| Printk.Snprintf | ASNU/src/printk/printk.c:893-900 | for every count, format and arguments the buffer holds the first min(len, count-1) characters, a zero, and what was there before; the result does not depend on count or buffer |
| Printk.PrintkTo | ASNU/src/printk/printk.c:872-880 | printk shows the rendering on the terminal |
| Serial.PlainUnsigned | ASNU/src/printk/printk.c:749-762 | u, o, x and X without flags, with no length or l or ll, print the bare numeral |
| Serial.PaddedUnsigned | ASNU/src/printk/printk.c:749-762 | `%04u` prints the numeral filled with zeros to four digits |
| Serial.PaddedSigned | ASNU/src/printk/printk.c:732-748 | `%04d` prints the sign, then zeros to a total of four, then the numeral |
| Serial.DigitsBackwards | ASNU/src/Serial/serial.c:34-37 | the logger's digit loop leaves the same digits as printk's |
| Serial.ReverseInPlace | ASNU/src/Serial/serial.c:44-48 | the swap loop reverses the buffer and nothing beyond it |
| Serial.PadToFour | ASNU/src/Serial/serial.c:42 | fills up to four characters |
| Serial.Port.serial_write_uint | ASNU/src/Serial/serial.c:54-65 | writes what printk renders for `%04u`, for every 32-bit value |
| Serial.Port.serial_write_hex | ASNU/src/Serial/serial.c:67-82 | writes what printk renders for `%lx` or `%lX`, and for 32-bit values `%x` or `%X` |
| Serial.Port.serial_write_octal | ASNU/src/Serial/serial.c:84-94 | writes what printk renders for `%o`, for every 32-bit value |
| Serial.Port.WriteLongLong | ASNU/src/Serial/serial.c:164-174 | writes what printk renders for `%llu`, for every 64-bit value |
| Serial.I2SMeetsPrintk | ASNU/src/Serial/serial.c:10-52 | serial_i2s agrees with printk's `%04d` if and only if the number is not negative or is at most -100 and not the least int |
| Serial.I2SShort | ASNU/src/Serial/serial.c:26-50 | what it prints otherwise: the sign behind the filling zeros, and no digits for the least int |
| Serial.SixteenHex | ASNU/src/Serial/serial.c:67-80 | a value has sixteen hexadecimal digits, which leave no room for the terminator in the buffer, if and only if it is 2^60 or more |
| Serial.Memo.Fill | ASNU/src/Serial/serial.c:29-50 | the conversion of a value other than 0, ended by a zero within the 16 bytes |
| Serial.Memo.serial_i2s | ASNU/src/Serial/serial.c:10-52 | over any sequence of calls the static buffer holds what a fresh conversion would |
| Scheduler.SwitchMovesOn | ASNU/src/sched/scheduler.c:78-125 | a context switch moves the turn to the next index around the table and keeps exactly one process running |
| Scheduler.FindNextIs | ASNU/src/sched/scheduler.c:78-96 | whatever states the processes are in, the search yields the first ready or idle one in cyclic order behind the current one, and nothing if and only if there is none |
| Scheduler.SwitchEffect | ASNU/src/sched/scheduler.c:98-125 | on every table a switch makes the process found run and the one before it ready and leaves all others alone, or does nothing |
| Scheduler.RegisterEffect | ASNU/src/sched/scheduler.c:50-58 | registering adds one process at the end, running exactly when it is the first, and does nothing to a full table |
| Scheduler.RunKeepsInv | ASNU/src/sched/scheduler.c:50-125 | every run of registrations and switches keeps: at most MAX_PROCS entries, a current process exactly when any is registered, it alone running and all others ready; nobody leaves the table |
| Scheduler.SwitchLowersRank | ASNU/src/sched/scheduler.c:78-125 | a switch brings every waiting process strictly closer to its turn |
| Scheduler.TurnComes | ASNU/src/sched/scheduler.c:50-125 | whatever registrations arrive in between, a process has become current by the time as many switches have happened as its rank |
| Scheduler.BoundedWaiting | ASNU/src/sched/scheduler.c:50-125 | in any run with MAX_PROCS-1 switches every process registered at its start becomes current |
| Scheduler.TicksMoveOn | ASNU/src/sched/scheduler.c:66-76 | with no registrations any number of ticks moves the turn by the slice boundaries among them, modulo the table |
| Scheduler.TicksFromBoundary | ASNU/src/sched/scheduler.c:66-76 | from a slice boundary n ticks lead from index c to (c + n / SchedTickFreq) mod the table |
| Scheduler.Scheduler.scheduler_init | ASNU/src/sched/scheduler.c:60-64 | the table is empty and in order, pids start over, the tick counter goes on |
| Scheduler.Scheduler.create_proc | ASNU/src/sched/scheduler.c:18-48 | a new process gets the next pid, modulo 2^32, in state new; no process and no pid spent without memory |
| Scheduler.Scheduler.register_proc | ASNU/src/sched/scheduler.c:50-58 | a fresh process is appended, running if it is the first; a full table is left alone |
| Scheduler.Scheduler.AfterCurrent | ASNU/src/sched/scheduler.c:80-88 | finds the index behind the current process, 0 without one |
| Scheduler.Scheduler.find_next_proc | ASNU/src/sched/scheduler.c:78-96 | returns the first runnable process in cyclic order behind the current one, NULL if none |
| Scheduler.Scheduler.context_switch | ASNU/src/sched/scheduler.c:98-125 | takes the switch step on the table, in the processes' own state fields |
| Scheduler.Scheduler.scheduler_tick | ASNU/src/sched/scheduler.c:66-76 | counts, wrapping at 2^64, and switches on every tenth tick |
| Keyboard.LetterTables | ASNU/src/Drivers/PS2Keyboard/driver.c:82-110 | the caps and the shifted layout hold the capital of every letter of the normal one |
| Keyboard.Rows | ASNU/src/Drivers/PS2Keyboard/driver.c:82-100 | the rows of digits and letters start at scancodes 0x02, 0x10, 0x1E and 0x2C |
| Keyboard.EditingKeys | ASNU/src/Drivers/PS2Keyboard/driver.c:82-110 | backspace, tab, enter and space type the same in every layout, and beyond the space bar only the keypad's minus and plus type anything |
| Keyboard.EveryCharacter | ASNU/src/Drivers/PS2Keyboard/driver.c:82-110 | every printable ASCII character has a key, with shift or without |
| Keyboard.OneKey | ASNU/src/Drivers/PS2Keyboard/driver.c:136-151 | outside the prefix 0x2A and 0x36 set shift, 0xAA and 0xB6 clear it, 0x3A turns caps lock over, and no other scancode changes either |
| Keyboard.PrefixedKey | ASNU/src/Drivers/PS2Keyboard/driver.c:116-134 | a key behind the prefix changes nothing of the decoder, and a repeated prefix counts once |
| Keyboard.ShiftIsHeld | ASNU/src/Drivers/PS2Keyboard/driver.c:136-146 | over every stream without prefixes shift is on if and only if some press has no release behind it, or it was on before and nothing released it |
| Keyboard.CapsIsParity | ASNU/src/Drivers/PS2Keyboard/driver.c:147-150 | and caps lock is turned over by the parity of its presses |
| Keyboard.CapitalLetters | ASNU/src/Drivers/PS2Keyboard/driver.c:153-159 | a letter key types its capital exactly under shift, caps lock or both, and no other key feels caps lock |
| Keyboard.CharsAppend | ASNU/src/Drivers/PS2Keyboard/driver.c:112-164 | decoding can be cut anywhere: prefix, shift and caps state carry all that the rest depends on |
| Keyboard.SilentKeys | ASNU/src/Drivers/PS2Keyboard/driver.c:116-141 | a key behind the prefix 0xE0 and the release of any key but shift leave no trace in what is typed |
| Keyboard.PushEffect | ASNU/src/Drivers/PS2Keyboard/driver.c:62-73 | a push appends, is dropped (a backspace before the first read), or finds the ring full and empties it; a slot read but not left stays as it is |
| Keyboard.AdvanceRemoves | ASNU/src/Drivers/PS2Keyboard/driver.c:16-17 | moving tail on takes away exactly the character that was read, which is not counted yet |
| Keyboard.Fifo | ASNU/src/Drivers/PS2Keyboard/driver.c:13-73 | over every interleaving of pushes with the reader's three steps (slot read, tail moved, character counted) in which no push finds the ring full, what was in the ring followed by what came in is what went out followed by what is left |
| Keyboard.AcceptedIsTyped | ASNU/src/Drivers/PS2Keyboard/driver.c:16-19 | every character typed gets into the ring if and only if no backspace came before the first character of all was counted, the window between the move of tail and the count included |
| Keyboard.KeptIsAll | ASNU/src/Drivers/PS2Keyboard/driver.c:62-65 | of a text of which a part comes in before that count, all is kept if and only if that part holds no backspace |
| Keyboard.TimingMatters | ASNU/src/Drivers/PS2Keyboard/driver.c:62-65 | when the characters ahead come in makes no difference if and only if one has been counted already or there is no backspace among them; ahead leaves out the backspaces that come with nothing to be read, which are always lost |
| Keyboard.LineAlwaysEnds | ASNU/src/Drivers/PS2Keyboard/driver.c:24-47 | a line ends, with no backspace on an empty line, whatever the timing, if and only if it does when nothing ahead is lost |
| Keyboard.SameKeysTwoLines | ASNU/src/Drivers/PS2Keyboard/driver.c:24-47 | a, b, backspace, enter typed on a machine just started give the line "ab" or "a", depending on when they come in |
| Keyboard.CameInAfterFirst | ASNU/src/Drivers/PS2Keyboard/driver.c:62-73 | once a character has been counted, what came in is just what was typed |
| Keyboard.EditedLine | ASNU/src/Drivers/PS2Keyboard/driver.c:24-47 | an edited line holds no newline, zero or backspace and fits |
| Keyboard.TypeAndTakeBack | ASNU/src/Drivers/PS2Keyboard/driver.c:34-40 | a character typed and taken back leaves no trace |
| Keyboard.EditPlain | ASNU/src/Drivers/PS2Keyboard/driver.c:30-41 | text without backspaces is the line itself |
| Keyboard.Driver.constructor | ASNU/src/Drivers/PS2Keyboard/driver.c:57-60 | the ring starts empty |
| Keyboard.Driver.OverflowKbdBfr | ASNU/src/Drivers/PS2Keyboard/driver.c:49-55 | the ring is emptied and zeroed |
| Keyboard.Driver.KbdPushback | ASNU/src/Drivers/PS2Keyboard/driver.c:62-73 | takes the push step on the ring |
| Keyboard.Driver.KeyboardDriverMain | ASNU/src/Drivers/PS2Keyboard/driver.c:112-164 | decodes one scancode and pushes its character, if it has one |
| Keyboard.InterruptEffect | ASNU/src/Drivers/PS2Keyboard/driver.c:112-164 | an interrupt that does not find the ring full moves at most one character from the keyboard into the ring, or drops an early backspace, and leaves the reader where it is |
| Keyboard.Driver.Interrupt | ASNU/src/Drivers/PS2Keyboard/driver.c:112-164 | the code of the handler takes the push step, and what it stores is logged |
| Keyboard.Driver.Interrupts | ASNU/src/Drivers/PS2Keyboard/driver.c:112-164 | so do any number of interrupts, of a stream of any length, as long as none finds the ring full |
| Keyboard.Driver.Await | ASNU/src/Drivers/PS2Keyboard/driver.c:15 | the waiting loop ends with a character in the ring whenever one is there or to come |
| Keyboard.Driver.ReadSlot | ASNU/src/Drivers/PS2Keyboard/driver.c:16 | takes the first step of the reader |
| Keyboard.Driver.TakeSlot | ASNU/src/Drivers/PS2Keyboard/driver.c:17 | takes the second step |
| Keyboard.Driver.CountIt | ASNU/src/Drivers/PS2Keyboard/driver.c:18-19 | takes the third step |
| Keyboard.Driver.kbd_getc | ASNU/src/Drivers/PS2Keyboard/driver.c:13-22 | whatever interrupts come while it waits, reads, moves on and counts, returns the first character of what was in the ring followed by what came in, and leaves the rest in the ring; what came in is what could become of what was typed |
| Keyboard.Driver.kbd_gets | ASNU/src/Drivers/PS2Keyboard/driver.c:24-47 | out holds exactly the line edited from what was in the ring followed by what came in, its length is returned, the rest up to maxlen is zero and nothing beyond is touched; what came in behind the line is in the ring; what came in is the text typed less any backspaces that came too early |
| Strings.memmove | ASNU/src/string.c:24-39 | for every overlap the destination becomes the old source and every other byte stays |
| Strings.strchr | ASNU/src/string.c:114-120 | finds the first occurrence, NULL if and only if there is none |
| Strings.strstr | ASNU/src/string.c:122-135 | returns the first place where the needle occurs, NULL if and only if it occurs nowhere |
| Strings.Matches | ASNU/src/string.c:125-131 | the inner comparison succeeds if and only if the needle occurs there |
| Strings.SpansAreMaximal | ASNU/src/string.c:137-162 | the tokens are the maximal non-empty delimiter-free pieces of the string, all of them and no others |
| Strings.SpansInOrder | ASNU/src/string.c:137-162 | they come in the order of the text, apart by at least one delimiter |
| Strings.RunYieldsTokens | ASNU/src/string.c:137-162 | a run of strtok of any length returns the tokens in order and NULL ever after |
| Strings.RunChangesEndsOnly | ASNU/src/string.c:154-156 | however many calls were made, memory has changed at the ends of the tokens returned and nowhere else |
| Strings.RunKeepsTokens | ASNU/src/string.c:137-162 | every token returned so far reads as its piece of the original text |
| Strings.Tokenizer.strtok | ASNU/src/string.c:137-162 | a call, first or later, takes one step of such a run on memory and static pointer |
| Strings.Tokenizer.SkipWhile | ASNU/src/string.c:143-152 | both loops of strtok stop where they should |

## Left out

- Inline assembly, port I/O, loading CR3, INVLPG and the TLB: the processor is taken to walk the tables as they are in memory.
- The page tables' own part in reaching memory: physical memory is taken to stay visible through the fixed offset map, so runs that remap that window are outside the model.
- mmap: with fewer free pages than missing tables, because the code does not test palloc for NULL; and inside a large page, because it takes any present entry for a table, which also goes for unmap.
- EntryPtr, FollowEntry: entries of the upper three levels with any of bits 52..63 set (no-execute among them), which `~0xFFF` leaves in the pointer; `LinkOwned` keeps them out of the tree.
- kfree: pointers into the region that are not page aligned, and pages the caller does not hold.
- Pmm.constructor: the bitmap's storage is an array of its own, disjoint from the frames of the pool, so clearing the rest of the second region is left out; the region must not wrap around the address space and its length must be whole pages.
- Reclaiming emptied tables: not implemented by the kernel.
- ClearPage, CopyPage: memset and memcpy of a page go a word at a time; the byte loops of the general memset and memcpy are not modelled.
- Floating-point conversions: compiled out in the source.
- Formats that end inside a directive: the code steps over the terminating zero.
- Missing or mistyped variable arguments read as 0 or "".
- IntegerMeetsC11, IntegerPrints: `%b`, which C11 does not know (BinaryPrints), and the `#` flag in base 10, which C11 leaves undefined; so are `%lc` and `%ls`, which the code takes as `%c` and `%s`, and `%n`, which it prints.
- HashKeepsValue: covers values other than 0; HashOfZero and HashMeetsC11 say what is printed.
- vsnprintf: the flag bits are a record of Booleans; the function-pointer output of fctprintf is not modelled.
- Snprintf: a buffer shorter than count is allowed only when the output fits it; sprintf is that case with an unlimited count.
- serial_write_hex: values of 2^60 and above, whose digits leave no room for the terminator (SixteenHex).
- serial_fwrite's own format loop, `%lld` and the log number; what serial_write_char repeats on the terminal.
- create_proc: stacks, privilege levels, registers and the other fields of a process.
- context_switch: saving and restoring registers, and the jump at its end.
- register_proc: requires that the process is not in the table yet; the code does not look.
- Rights: the execute-disable bit, supervisor-mode protections and the TLB.
- Fifo, Interrupts: a push that finds the ring full empties it (PushEffect), possibly under a reader that holds a slot; runs in which that happens are outside both.
- kbd_gets: requires that the line ends within what is typed, and that no backspace meets an empty line when none but those before the first character are lost: the code would wait for ever, or store in front of the buffer.
- kbd_getc: what it echoes, and the overflow of its read counter after 2^31 characters; it requires a character that is there or will come.
- strtok with delimiters that change between the calls of a run; its delimiters are a text apart from the memory it edits.
- strlen, strcpy, strcat, strcmp and their relatives; PCI, XHCI, the terminal, interrupt tables, timers and boot plumbing.
