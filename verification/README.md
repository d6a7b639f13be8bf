# UDOS core: storage, load modules and friends

A Dafny model of the parts of the UDOS kernel and of its stage-zero loader whose
correctness rests on invariants over whole runs, with proofs of those invariants.
Code that works in place is modelled in place (classes and arrays); every such method
is proved against a specification function, and the laws are proved of those
functions. `dafny verify dfyconfig.toml` checks everything.

## What is modelled

**Physical storage (`kernel/pmm.c`).** A region is tiled by blocks; a linked list of
descriptors, kept in an array at the start of the region itself, describes the tiling.

- `PmmTiling` says what each operation does to the tiling: first fit, the cut in two
  or three, growth of the descriptor table by 32 descriptors at the expense of block 1,
  coalescing. All arithmetic is unsigned and wraps at 2^32, as in the code.
- `PmmRegions.PmmRegion` is the descriptor array with its links. Its methods refine the
  tiling: list acyclic, each descriptor that is present met once, table exact.
- `PmmMemory` and `PmmTable.PhysicalMemory` are the table of 8 regions, as a
  specification and in place. `PmmRoom` says in bytes when a request is refused and
  which block is cut, over all regions; `PmmUnaligned` what follows without alignment;
  `PmmAnyPointer` what freeing any pointer does. `PmmRuns` is about arbitrary runs of calls.

A panic is an outcome that never returns. The two places where the code misses its
evident intent are modelled as the code has them, and the exact condition is proved:

- *The free search* (`kernel/pmm.c:255`) uses a closed interval. It frees the right
  block if and only if no USED block ends at the pointer (`ClosedFindsOwnerIff`,
  `FreeStep`). `FreeingOneFreesTheOther` is a two-allocation history in which it frees
  somebody else's block. The half-open search is carried along everywhere and is
  always right.
- *The fit test of aligned requests* (`kernel/pmm.c:164`) adds `current_ptr % align`
  where the gap to the next multiple is needed. It can be trusted at an address if and
  only if the remainder `r` is 0 or `2r >= align` (`GuardIsSafeIff`). A request that
  passes but does not fit is put below the block chosen for it (`AllocationUnsound`),
  which the author's own heap check cannot notice (`HeapCheckIsBlind`); in
  `AlignedRequestGetsTheTable` the caller is handed the descriptor table.

`PmmRuns.StepSafeIff` joins both: a call keeps memory in order if and only if the
request fits where it is put and, for the closed test, no USED block ends at the
pointer. `UnalignedIsLegal`: with the half-open test and no alignment, nothing is left
to check.

**Allocation on top (`kernel/mm.c`, `kernel/memory.c`).** `KeMoveMemory` moves towards
higher addresses over the offsets n..1 instead of n-1..0; `MoveIsRightIff` says when
that shows. `ReallocateEffect` says, of memory before the call, exactly when the new
object is live instead of the old one, and what becomes of the contents of the object
and of everybody else's. Since first fit puts the new object directly below the old one
whenever it can, and the closed free test then frees the new one, `MmReallocate`
usually returns a pointer to freed storage; `ReallocateFreesTheNew` and
`ReallocateLosesAByte` are short runs that show both faults.

**The load-module fixer (`programs/loadzero.c`).** `LoadFormat` parses an immutable
file and states the clean two-pass loader: put the text together, then relocate it.
`LoadZero.FixPE` is the loader that compacts text to the front of the buffer it is
still reading and relocates as it goes; it computes what the two-pass loader does. The
formats follow Appendices B and E of MVS Program Management: Advanced Facilities
(SA22-7644-01), which the code names. `LoadModules` says from the writer's side what a
module is, that the loader accepts exactly the modules (`ModuleIff`), and that each
loads to its program.

**ARC4 (`kernel/crypto.c`).** `Arc4` is the state machine over (i, j, S): key schedule
and keystream in place, S a permutation throughout, every round reversible, the states
that run in short cycles never entered, what key and cursors do pinned down to a known
answer. `Crypto` adds the storage: the function takes
two buffers and frees the first, and by the same closed test that frees its own result
whenever one block has room for both (`ResultIsFreed`).

**Scheduler, numbers, file system.** `Scheduler` gives the nested round-robin cursors a
closed form, for every run: a thread ever gets a turn if and only if its task has an odd
number of threads or its own index is odd. `Numbers` is the number printer with the parser:
parsing undoes printing for every `int` but the least one, and the digit buffer is big
enough exactly from base 3 up. `FileSystem` is path resolution over the node tree,
where names match when length and character sum agree, as in the code.

## Model

| member | source | states |
|---|---|---|
| PmmRegions.PmmRegion.constructor | kernel/pmm.c:31-47 | formatting a region establishes the whole invariant, with one table block and one FREE block |
| PmmRegions.PmmRegion.FindSlot | kernel/pmm.c:68-74 | the first descriptor of the table that is not present, or that there is none |
| PmmRegions.PmmRegion.ExpandTable | kernel/pmm.c:80-86 | the table takes 384 bytes from block 1 and 32 zeroed descriptors; nothing else changes |
| PmmRegions.PmmRegion.CreateBlock | kernel/pmm.c:61-92 | it panics exactly when all descriptors are present and block 1 is not FREE or too small; otherwise it writes one descriptor that was off the list, growing the table only when full |
| PmmRegions.PmmRegion.FullIff | kernel/pmm.c:68-78 | the slot search fails exactly when the list uses the whole table |
| PmmRegions.PmmRegion.InsertAfter | kernel/pmm.c:182-183 | creating and linking in a descriptor inserts one block into the tiling and keeps list and table exact |
| PmmRegions.PmmRegion.CarveLeft | kernel/pmm.c:177-184 | the left part is split off, FREE, and the rest is USED, through slot reuse and growth |
| PmmRegions.PmmRegion.CarveRight | kernel/pmm.c:196-207 | what exceeds the object is split off, FREE, also when the table grows between the two halves |
| PmmRegions.PmmRegion.Carve | kernel/pmm.c:168-212 | slicing block k in the linked table is one cut of the tiling plus at most one growth, and the pointer was computed right although block 1 may have shrunk meanwhile |
| PmmRegions.PmmRegion.FindBlock | kernel/pmm.c:154-165 | the search returns the first block that passes the test, at its address, or none |
| PmmRegions.PmmRegion.AllocateIn | kernel/pmm.c:146-217 | the allocator's work in one region refines the tiling; a miss changes nothing |
| PmmRegions.PmmRegion.FindOwner | kernel/pmm.c:249-288 | the free search finds the first USED block whose closed interval holds the pointer, and its predecessor on the list |
| PmmRegions.PmmRegion.Absorb | kernel/pmm.c:260-262 | taking over the next block joins two blocks and frees exactly one descriptor |
| PmmRegions.PmmRegion.Coalesce | kernel/pmm.c:256-274 | marking and coalescing on both sides is freeing in the tiling |
| PmmRegions.PmmRegion.FreeIn | kernel/pmm.c:249-288 | the deallocator's work in one region refines the tiling for any pointer; only freeing the table breaks the table |
| PmmRegions.SpliceKeeps | kernel/pmm.c:182-183 | linking in a descriptor keeps list acyclic and complete and inserts one block |
| PmmRegions.ExpandKeeps | kernel/pmm.c:76-86 | growth keeps list and table exact and is growth of the tiling |
| PmmRegions.AbsorbKeeps | kernel/pmm.c:259-272 | unlinking a descriptor keeps list and table exact and joins two blocks |
| PmmCarving.CarveIsPlace | kernel/pmm.c:177-207 | two insertions, each of which may grow the table, are one cut followed by at most one growth, or a panic exactly when that is impossible |
| PmmFacts.GrowKeeps | kernel/pmm.c:76-86 | growth takes only FREE bytes: no address but that of block 1 moves and no allocation changes |
| PmmFacts.CutKeeps | kernel/pmm.c:177-207 | cutting a FREE block keeps the shape of the tiling and adds one live interval |
| PmmFacts.LiveLayout | kernel/pmm.c:111-128 | live allocations are non-empty, disjoint, inside the region and behind the table |
| PmmAllocation.PlacementHighest | kernel/pmm.c:169-171 | a request that fits goes to the highest aligned address whose object ends in the block |
| PmmAllocation.Placement | kernel/pmm.c:168-202 | left, used and right pieces sum to the old block and the address is aligned |
| PmmAllocation.Misplacement | kernel/pmm.c:162-187 | a request that passes the test but does not fit is put where the block's address rounds down to |
| PmmAllocation.GuardIsSafeIff | kernel/pmm.c:162-166 | the test guarantees a fit at an address exactly when its remainder r has r = 0 or 2r >= align |
| PmmAllocation.ChosenFacts | kernel/pmm.c:154-165 | the block settled on is FREE, big enough, inside the region, and its address is known |
| PmmAllocation.AllocationSound | kernel/pmm.c:137-217 | a request that fits adds exactly one live allocation, new and apart from all others, and keeps the invariant |
| PmmAllocation.PlacedAligned | kernel/pmm.c:186-194 | a request that fits is aligned as asked |
| PmmAllocation.TableStaysClear | kernel/pmm.c:76-86 | an allocation grows the table by 0 or 384 bytes and never past the first live byte |
| PmmAllocation.AllocationUnsound | kernel/pmm.c:136-212 | the pointer is below the chosen block exactly when the request does not fit there, and then inside an earlier block if still in the region |
| PmmAllocation.HeapCheckIsBlind | kernel/pmm.c:111-128 | the sizes sum to the region size modulo 2^32 after every allocation, sound or not |
| PmmRelease.FreeAtSound | kernel/pmm.c:256-274 | freeing a block removes exactly its interval and keeps the invariant through both coalescings |
| PmmRelease.HalfOpenFindsOwner | kernel/pmm.c:249-255 | with the half-open test a live pointer finds its own block |
| PmmRelease.ClosedFindsOwnerIff | kernel/pmm.c:255 | with the closed test it does so exactly when no USED block ends at the pointer; otherwise the block that ends there is hit |
| PmmRelease.ReleaseSound | kernel/pmm.c:228-288 | the half-open release removes exactly that allocation; the closed one agrees with it under the same condition only |
| PmmCanonical.NullIff | kernel/pmm.c:154-224 | no storage is found exactly when no block passes the test at its address |
| PmmCanonical.UnalignedComplete | kernel/pmm.c:154-217 | in one region: an unaligned request finds nothing exactly when no FREE block is big enough; else it gets the high end of the first that is |
| PmmUnaligned.UnalignedIsComplete | kernel/pmm.c:145-224 | over all regions: an unaligned request that does not panic is refused exactly when no region has a FREE block of its size; else it gets the high end of the first such block of the earliest region, or panics exactly when the cut cannot be described |
| PmmRoom.AllocationIsComplete | kernel/pmm.c:145-224 | aligned or not, said in bytes: a request that does not panic is refused exactly when no FREE block of any region has `size` bytes and, modulo 2^32, `size + address % align` bytes; else the first block that has them is cut, in the earliest such region |
| PmmRoom.AlignedRefusedIff | kernel/pmm.c:164 | where nothing wraps, an aligned request is refused exactly when every FREE block of every region is smaller than `size + address % align` |
| PmmRoom.PlacePanicsIff | kernel/pmm.c:65-86 | a cut panics exactly when the pieces need more descriptors of 12 bytes than the table holds and the block behind the table is then USED or smaller than 384 bytes |
| PmmRoom.AlignedRequestIsMet | kernel/pmm.c:164-171 | in a fresh region of 4096 bytes a request of 3000 bytes, aligned to 8, gets the address it should |
| PmmUnaligned.EndsAfterIff | kernel/pmm.c:76-86 | exactly when a USED block will end at a live pointer after an unaligned request, said of memory before it: one does already, the block that is cut ends there, or the table grows up to it |
| PmmCanonical.RoundTrip | kernel/pmm.c:168-274 | allocating and freeing restores the tiling up to table growth; the closed test does so exactly when no USED block ends at the pointer |
| PmmCanonical.LiveDetermines | kernel/pmm.c:256-274 | equal tables and equal live allocations mean equal tilings, up to an empty FREE block 1, whatever the history |
| PmmCanonical.EmptyIsTwoBlocks | kernel/pmm.c:256-274 | with nothing live a region is its table and one FREE block |
| PmmCanonical.ReleaseAllEmpties | kernel/pmm.c:228-288 | freeing all live allocations in any order leaves the table and one FREE block |
| PmmCanonical.BlocksAtMostDouble | kernel/pmm.c:256-274 | there are at most twice as many blocks as USED blocks |
| PmmCanonical.CapacityStep | kernel/pmm.c:65-86 | the capacity rises only if twice the USED blocks need it |
| PmmCanonical.FreshIsTiled | kernel/pmm.c:36-47 | a new region satisfies the invariant and holds nothing |
| PmmMemory.AllocateStep | kernel/pmm.c:145-224 | over all regions a fitting request adds exactly one live allocation, or changes nothing |
| PmmMemory.FreeStep | kernel/pmm.c:234-288 | over all regions the half-open free removes exactly the allocation; the closed one agrees exactly when no USED block ends at the pointer |
| PmmMemory.FreeStepIff | kernel/pmm.c:234-288 | the free of the code removes exactly the allocation, with every region in order, if and only if no USED block ends at the pointer |
| PmmMemory.FreesTheOther | kernel/pmm.c:255 | where another allocation ends at the pointer, exactly that one is freed |
| PmmAnyPointer.FreeAnyPointer | kernel/pmm.c:228-288 | for any pointer, live or not: the first USED block that covers it is freed, in the first region that has one, with either test; where none covers it nothing happens |
| PmmMemory.CreateStep | kernel/pmm.c:25-49 | a new region keeps the invariant and what is live |
| PmmMemory.CreatesInFirstFree | kernel/pmm.c:25-52 | the first free entry becomes a region of the given base and size, with a table of one 12-byte descriptor per 2048 bytes begun; the call panics exactly when no entry is free |
| PmmMemory.LiveApart | kernel/pmm.c:145-217 | live allocations are disjoint across regions, too |
| PmmMemory.SoundFreeMissesTables | kernel/pmm.c:255 | freeing a live pointer at which no USED block ends never frees a descriptor table |
| PmmMemory.RegionsStay | kernel/pmm.c:145-217 | allocation moves and resizes no region |
| PmmRuns.StepSafeIff | kernel/pmm.c:137-295 | a call by a client that frees only what it holds keeps the state safe exactly when its request fits and, for the closed test, no USED block ends at its pointer |
| PmmRuns.UnalignedIsLegal | kernel/pmm.c:137-295 | for unaligned requests and the half-open test that condition always holds |
| PmmRuns.RunsAreSafe | kernel/pmm.c:137-295 | every run of legal calls keeps every region in order, with live allocations exactly those the clients hold |
| PmmRuns.RunFromBoot | kernel/pmm.c:17-295 | from empty memory: allocations held are disjoint, inside regions, outside tables; sizes sum to the region; each region's capacity is at most max(size/2048 + 1, 2U + 33), U its own peak number of USED blocks, table included |
| PmmRuns.NothingHeld | kernel/pmm.c:228-295 | clients that freed everything leave every region as one table and one FREE block |
| PmmRuns.SafeMeansDisjoint | kernel/pmm.c:137-217 | in a safe state what clients hold is disjoint, non-empty, inside a region and outside its table |
| PmmRuns.FreeingOneFreesTheOther | kernel/pmm.c:255 | in the region made at boot, after two requests, freeing the first pointer frees the second allocation |
| PmmRuns.AlignedRequestGetsTheTable | kernel/pmm.c:136-171 | a page-aligned request in a fresh region of 4096 bytes returns the address of the descriptor table |
| PmmRuns.UsedCountLive | kernel/pmm.c:196-203 | a region has one USED block per live allocation, and its table |
| PmmTable.PhysicalMemory.constructor | kernel/pmm.c:17-19 | no region is present at first |
| PmmTable.PhysicalMemory.AllocatePhysical | kernel/pmm.c:137-225 | the loop over the regions in place is the specification, panic included; it is refused exactly when no block has the bytes asked for, else the first that has them is cut; the invariant holds again when the request fits there |
| PmmTable.PhysicalMemory.FreePhysical | kernel/pmm.c:228-295 | for any pointer the loop in place is the specification with the closed test; only freeing a table breaks the invariant |
| PmmTable.PhysicalMemory.CreateRegion | kernel/pmm.c:21-53 | the first free entry is formatted, or the call panics because there is none |
| Mm.MmAllocate | kernel/mm.c:5-10 | refused exactly when no region has room; otherwise the object is flush with the high end of the first block that has it, in the earliest region |
| Mm.KeMoveMemory | kernel/memory.c:21-40 | in-place move, byte by byte: right towards lower addresses, one byte off towards higher ones |
| Mm.MovedAsCodedAt | kernel/memory.c:21-40 | what each byte holds after a move, in either direction |
| Mm.MoveIsRightIff | kernel/memory.c:21-40 | the move is right exactly when it goes down, moves nothing, or the two wrong bytes happen to agree |
| Mm.MmReallocate | kernel/mm.c:33-47 | the sequence allocate, move, free over both memory and descriptors, with its null, panic and no-storage cases |
| Mm.ReallocateEffect | kernel/mm.c:33-47 | the new object is live instead of the old one, with memory in order, if and only if no USED block will end at the old pointer, said of memory before the call; directly below the old one, the new one is freed; the exact conditions under which its bytes and those of all other allocations are kept, and that its first byte is the only one it can lose |
| Mm.ReplaceEffect | kernel/mm.c:40-45 | the same for allocating one object and then freeing another, whatever happens to contents |
| Mm.ReallocateFreesTheNew | kernel/mm.c:40-46 | a run: after the first request of all, reallocation to any size that leaves room returns a pointer to freed storage and leaves the old object live |
| Mm.ReallocateLosesAByte | kernel/mm.c:44 | a run: an object with more room above than below loses its first byte when it is reallocated there |
| LoadZero.FixPE | programs/loadzero.c:108-365 | the in-place loader leaves what the two-pass loader makes of the file, refuses what that refuses, and never grows the module |
| LoadZero.ReadRecordIn | programs/loadzero.c:207-342 | the inner loop keeps the write cursor behind the read cursor, stays in the record, ends, and does what the parse of the unchanged file says |
| LoadZero.ReadChunkIn | programs/loadzero.c:230-305 | one sub-record: text is appended to the image, relocations act on the image only |
| LoadZero.ReadOneIn | programs/loadzero.c:144-166 | one turn of the outer loop: from the fourth record on it takes bytes of the file, so the loop ends although it does not stop at the end of the file |
| LoadZero.ProcessRLD | programs/loadzero.c:368-434 | parsing and applying in one loop over the buffer is parsing first, then applying; it ends for every length, even below 16 |
| LoadFacts.InterleavedIsTwoPass | programs/loadzero.c:240-305 | relocating words while later text is still missing gives what relocating at the end gives |
| LoadFacts.RelocatedWord | programs/loadzero.c:425-430 | a word gains the load address once per entry that names it, modulo 2^32 |
| LoadFacts.WideAddsThere | programs/loadzero.c:425-430 | a 4-byte entry adds to the word at its address |
| LoadFacts.UntouchedByte | programs/loadzero.c:425-430 | a byte outside all windows is left alone |
| LoadFacts.RelocateTwice | programs/loadzero.c:425-430 | for windows identical or disjoint, relocating by x then y is relocating by x + y |
| LoadFacts.RelocateBack | programs/loadzero.c:425-430 | for such windows relocation can be undone |
| LoadFacts.NarrowKeepsByteIff | programs/loadzero.c:406-430 | for every load address, negative ones included, a 3-byte entry leaves the byte before the address alone exactly when the 24-bit sum, taken as a word, has 24 bits |
| LoadFacts.NegativeLoadAddress | programs/loadzero.c:408 | the signed guard accepts a 3-byte entry at load address 0x80000000, and the byte before the address changes |
| LoadFacts.RldReads | programs/loadzero.c:380-433 | what a writer encodes is read back |
| LoadFacts.RldWritten | programs/loadzero.c:380-433 | what is accepted is the encoding of well-formed entries, given back as a witness |
| LoadFacts.RldAcceptsIff | programs/loadzero.c:380-433 | a list is accepted exactly when it encodes entries with pairs shared by the continuation bit, and means what they mean |
| LoadFacts.RldRefusedIff | programs/loadzero.c:380-433 | a list inside the buffer is refused exactly when it encodes no well-formed entries |
| LoadFacts.WordIsHalves | programs/loadzero.c:147 | a word is two halfwords, the high one first |
| LoadFacts.HalfWritten | programs/loadzero.c:147 | a length is read with its high byte first, and in two's complement |
| LoadFacts.PEMark | programs/loadzero.c:135 | a program is told by the bytes 00 ca 6d 0f behind its first word |
| LoadFacts.InsideIff | programs/loadzero.c:423-430 | an entry is inside the text when its address is and, for 3 bytes, one byte stands before it |
| LoadFacts.PlacedIff | programs/loadzero.c:423-430 | loading is specified exactly when each relocation is inside the text emitted before it |
| LoadModules.SubReads | programs/loadzero.c:230-305 | every kind of sub-record is read as its writer meant it |
| LoadModules.SubWritten | programs/loadzero.c:230-305 | what does not stop the loader is a proper sub-record of some kind |
| LoadModules.RecordReads | programs/loadzero.c:207-342 | so is a record of any number of sub-records, padded or not |
| LoadModules.RecordWritten | programs/loadzero.c:207-342 | a record that does not stop the loader consists of proper sub-records |
| LoadModules.FileReads | programs/loadzero.c:144-354 | so is a file: any number of records, anything behind the last |
| LoadModules.FileWritten | programs/loadzero.c:144-354 | a file that is read to a good end is a module |
| LoadModules.ModuleIff | programs/loadzero.c:144-354 | the loader accepts exactly the well-formed modules, with their entry points |
| LoadModules.FileStays | programs/loadzero.c:144-354 | where the loader leaves its buffer, a position in the file has a negative length, no length, or a type 3 list that reaches beyond the buffer |
| LoadModules.RefusedIff | programs/loadzero.c:144-354 | a file without such a position is refused exactly when it is no module |
| LoadModules.ModuleLoads | programs/loadzero.c:108-365 | a module loads to its texts in order, relocated where its lists say, entered where its directory says; this fails to be specified exactly when a relocation falls outside the text before it |
| Arc4.KeySchedule | kernel/crypto.c:13-25 | the loops in place compute the key schedule |
| Arc4.KeyStream | kernel/crypto.c:33-46 | byte m of the keystream is the output after m + 1 rounds, while S is permuted in place |
| Arc4.Mix | kernel/crypto.c:53-55 | the loop computes the cipher text from message and keystream |
| Crypto.CryptoARC4Encode | kernel/crypto.c:7-58 | the whole function over the storage manager: it panics when either buffer cannot be had; else the bytes it returns are the cipher text, and storage is as after two requests and one free |
| Crypto.EncodingEffect | kernel/crypto.c:27-57 | afterwards the result is live and nothing else is new if and only if no USED block will end at the keystream; with the result directly below the keystream, the result is freed and the keystream stays |
| Crypto.ResultIsFreed | kernel/crypto.c:27-57 | that happens whenever what is left of the block chosen, after a growth of the table if any, has room for the second buffer |
| Crypto.FirstEncoding | kernel/crypto.c:27-57 | a run: in the region made at boot it happens to every message of 1 to 60000 bytes |
| Arc4.ScheduleIsPermutation | kernel/crypto.c:18-25 | S is a permutation after every round of the key schedule |
| Arc4.EveryByteOnce | kernel/crypto.c:33-46 | S holds each byte exactly once after every round of the keystream, for every key |
| Arc4.UnstepStep | kernel/crypto.c:38-43 | a round can be undone |
| Arc4.StepUnstep | kernel/crypto.c:38-43 | every state is reached by a round from exactly one state |
| Arc4.BackAfter | kernel/crypto.c:35-46 | any number of rounds can be undone |
| Arc4.RunsNeverMeet | kernel/crypto.c:35-46 | different states stay different for ever |
| Arc4.ShortIffShort | kernel/crypto.c:38-43 | the class j = i + 1, S[j] = 1 is closed forwards and backwards |
| Arc4.NeverShort | kernel/crypto.c:33-46 | it is never entered, for any key and length |
| Arc4.EncodeTwice | kernel/crypto.c:53-55 | encoding twice with one key gives the message back |
| Arc4.EncodePrefix | kernel/crypto.c:33-55 | output on a prefix is a prefix of the output |
| Arc4.RepeatedKey | kernel/crypto.c:19-21 | repeating the key any number of times changes nothing |
| Arc4.OutputPlace | kernel/crypto.c:45 | the output is the entry at the sum of the two entries at the cursors, and at no other place |
| Arc4.OutputInOrder | kernel/crypto.c:45 | with S in order the output is the sum of the cursors |
| Arc4.OutputExchanged | kernel/crypto.c:45 | exchanging two entries at neither cursor exchanges them in the output and changes nothing else |
| Arc4.ScheduleExchanges | kernel/crypto.c:19-25 | a round of the key schedule exchanges its own entry with the one at the new j |
| Arc4.KeyReadBack | kernel/crypto.c:21 | the key can be read off the states of its schedule |
| Arc4.KeysTellApart | kernel/crypto.c:19-25 | two keys have the same schedule up to the byte in which they first differ, and another j right behind it |
| Arc4.KnownAnswer | kernel/crypto.c:13-46 | a known answer: the key 0, 0, 255, 254, ..., 2 leaves S in order, and its keystream begins 2, 5, 7 |
| Arc4.EncodeZeroes | kernel/crypto.c:53-55 | a message of zeroes gives the keystream |
| Arc4.EncodeDifference | kernel/crypto.c:53-55 | with one key, cipher texts differ in the bits in which the messages do |
| Scheduler.KernelScheduler.CreateJob | kernel/scheduler.c:20-42 | a job without tasks is added; no cursor moves |
| Scheduler.KernelScheduler.CreateTask | kernel/scheduler.c:44-63 | a task without threads is added; no cursor moves |
| Scheduler.KernelScheduler.CreateThread | kernel/scheduler.c:65-98 | a thread is added; no cursor moves or leaves its table |
| Scheduler.KernelScheduler.Schedule | kernel/scheduler.c:106-138 | the three nested cursors in place make one step of the specification and stay within their tables |
| Scheduler.CallStep | kernel/scheduler.c:106-138 | one step from the closed form of call k leads to that of call k + 1 |
| Scheduler.RunOfCalls | kernel/scheduler.c:106-138 | call k picks job k mod jobs, task v mod tasks, threads 2w and 2w + 1 mod threads, v and w the visits so far |
| Scheduler.VisitAt | kernel/scheduler.c:106-138 | the call that is visit w of a task enters its thread 2w + 1 in turn |
| Scheduler.IsVisit | kernel/scheduler.c:106-138 | every call is some visit of the task it picks |
| Scheduler.RunExists | kernel/scheduler.c:106-138 | from tables none of which is empty there are runs of every length |
| Scheduler.ThreadGetsTurnIff | kernel/scheduler.c:124-134 | some run enters a thread if and only if the number of threads of its task is odd or its own index is |
| Scheduler.TurnsAreFair | kernel/scheduler.c:124-134 | in every run, with n threads and n odd, each is entered exactly once in any n consecutive visits of their task |
| Scheduler.EvenStarves | kernel/scheduler.c:124-134 | in every run, a task with an even number of threads has only odd ones entered |
| Scheduler.AnyCall | kernel/scheduler.c:106-138 | from any state that creations and calls can lead to: job and task at their cursors, thread at its cursor left and the next in the circle entered, and only these three cursors move |
| Scheduler.ParityKept | kernel/scheduler.c:124-134 | from any such state, a task with an even number of threads enters those of one parity, told by its cursor, until a thread is created |
| Numbers.NumberToString | kernel/printf.c:41-74 | the digit loops write the printed form and a NUL, and nothing behind it, for every base from 2 to 36 whose digits fit the buffer |
| Numbers.KeSpanString | kernel/memory.c:118-142 | the number of leading characters that are accepted |
| Numbers.KeConvertStringToInt | kernel/memory.c:218-239 | skips blanks, takes a sign, folds digits in 32-bit arithmetic |
| Numbers.DigitCount | kernel/printf.c:57-62 | a number has at most n digits exactly when it is below base^n |
| Numbers.BufferIsEnoughIff | kernel/printf.c:47-62 | the 24 digits of the buffer do for every 32-bit number exactly from base 3 up |
| Numbers.BinaryFitsIff | kernel/printf.c:47-62 | in base 2 it holds exactly the numbers of 24 bits |
| Numbers.PrintedIsCanonical | kernel/printf.c:41-74 | for all printers and every base from 2 to 36: no leading zero, and different numbers print differently, the least int included |
| Numbers.PrintedStart | kernel/printf.c:53-65 | the text has a sign exactly for negative numbers, and behind it stand the digits of the magnitude, except for the least int, whose text starts with a character below 0 |
| Numbers.FallenAt | kernel/printf.c:58-59 | each digit of the least int stands as far below the character 0 as it is worth |
| Numbers.PrintThenParse | kernel/memory.c:218-239 | parsing a printed int gives it back exactly when it is not the least one, which comes back as 0 |
| Numbers.SpanIsLongest | kernel/memory.c:118-142 | the span is the longest stretch of accepted characters |
| Numbers.ParseAmid | kernel/memory.c:218-239 | blanks and tabs before the digits are skipped, the parse stops behind them, and it makes 0 where there is no digit, for any text |
| Numbers.ParseNegativeAmid | kernel/memory.c:218-239 | so it does behind a minus sign, and negates |
| FileSystem.KeCompareStringEx | kernel/memory.c:91-104 | the difference of the character sums, or -1 where one text ends too early |
| FileSystem.ComparedZeroIff | kernel/memory.c:91-104 | on names of equal length the comparison is zero exactly when the character sums agree |
| FileSystem.ComparedIs | kernel/memory.c:91-104 | the comparison is the difference of the sums of the compared characters, or -1 where just one text ends before |
| FileSystem.CharSumConcat | kernel/memory.c:95-98 | character sums of texts add up |
| FileSystem.SumOne | kernel/memory.c:95-98 | the sum of one character is its code |
| FileSystem.KeBreakCharPtrString | kernel/memory.c:144-156 | the first separator, or the end of the text |
| FileSystem.Vfs.KeResolveFsPath | kernel/fs.c:92-181 | the goto loop ends and is the recursive walk of the tree, letters, colon and separators included |
| FileSystem.Vfs.KeAddFsNodeChild | kernel/fs.c:57-65 | the child is appended to the parent's children |
| FileSystem.Vfs.KeCreateFsNode | kernel/fs.c:183-204 | a node is added below what the path resolves to, or below the root |
| FileSystem.ResolveKept | kernel/fs.c:92-181 | a path that resolves keeps its node however many nodes and children are added |
| FileSystem.CreateKeepsPaths | kernel/fs.c:183-204 | creating a node changes no path that resolves |
| FileSystem.CreateThenLook | kernel/fs.c:183-204 | for every path and name: what is found by a text below the path afterwards is the first older child that matches it, else the new node if that matches, else nothing |
| FileSystem.CreateThenResolve | kernel/fs.c:183-204 | for every path, drive letters, the empty path and paths that lead nowhere included: the new node is found by its name exactly when no older sibling matches |
| FileSystem.LookupDescends | kernel/fs.c:92-181 | resolving a path one name longer takes one step down from where the path leads |
| FileSystem.SegmentsOfJoin | kernel/fs.c:134-174 | a path is read as the names it is made of, empty ones included, whether or not a separator ends it |
| FileSystem.FromTheRoot | kernel/fs.c:102-105 | behind a separator at the beginning names are followed down from the root |
| FileSystem.DriveThenNames | kernel/fs.c:110-134 | behind drive letters, colon and separator names are followed down from where the letters lead, each picking the child of its number, nine to a row |
| FileSystem.LettersAlone | kernel/fs.c:110-132 | drive letters with anything else behind them, or nothing, stand for the node they lead to |
| FileSystem.DriveLetter | kernel/fs.c:67-89 | one drive letter stands for the child of the root with its number, or nothing |
| FileSystem.NextDrive | kernel/fs.c:183-204 | a node created at the root is what the next drive letter stands for |
| FileSystem.AnagramsMatch | kernel/memory.c:91-104 | names with the same letters in any order match, so below a parent that has such a child an older node is found by that name, never the new one |
| FileSystem.SeparatorsInterchange | kernel/fs.c:92-181 | the result does not depend on which separators a path uses |

## Left out

- LoadZero.FixPE: says nothing where a length is negative, a list leaves the buffer, or a relocation falls outside the text emitted so far; the code then reads or writes storage that is not its own, and admits that the bounds check is missing. The entry point is given as an offset, and what `*entry` holds after a failure is not stated.
- Mm.MmReallocate: client bytes and descriptors are separate storage, so a move that strays into a descriptor table is not seen; addresses have 31 bits, so the signed pointer comparison is the plain one.
- Numbers.NumberToString: takes the digits to fit its buffer of 24 (see BufferIsEnoughIff); with base 2 the code overruns it. `long` has 32 bits, as on the target.
- Crypto.CryptoARC4Encode: the contents of its two buffers are arrays of their own, apart from the addresses the storage manager gives them; an empty key, a division by zero in the code, is excluded.
- Scheduler.KernelScheduler.Schedule: a call with an empty table on its way reads outside the table in the code and is excluded.
- PmmTable.PhysicalMemory.CreateRegion: the storage is at least 2048 bytes and its other descriptors are zero, which the code takes for granted; the array that stands for it runs 32 descriptors past the region, so that growth on a misplaced request stays an array access; running out of entries is `!ok`, a panic in the code.
- The job tag of a block and DEBUG output: they influence nothing else. `MmDeleteRegion` is never called.
- Freeing a null pointer, which the caller must exclude; `MmFree` only adds that test.
- File system: drivers that take over resolution, case folding (promised by the comments, absent from the code), and failure of the allocator. Node names and child lists are values. Text is ASCII, not EBCDIC; the letters A, J and S mean the same drive, as in the code.
- Scheduler: names, priorities, stacks and the context switch.
- Interrupts, channel I/O, devices, the console and the registry: what they do depends on machine state and replies that are not in the files. Formatted printing, the rest of the loader and the libraries keep no state between calls that could be invariant.
