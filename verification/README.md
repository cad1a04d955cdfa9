# A verified model of the BROS kernel's memory, loader, keyboard and console

BROS is a small 32-bit x86 kernel with a FAT12 boot loader.  This project models the parts of it
whose correctness spans several functions and proves properties of them with Dafny 4.11.
`dafny verify dfyconfig.toml` checks the whole project.

| file | models |
|---|---|
| `Words.dfy`, `Sets.dfy`, `Memset.dfy` | 32-bit words with C's `\|`, `&`, `& ~`, `align_up`; finite sets; `memset` over little-endian words |
| `Bitset.dfy` | `bitset.c` on words of physical memory, with `bitset_find` exactly as written |
| `Ledger.dfy`, `Frames.dfy`, `FrameRuns.dfy` | the frame allocator as a state machine over memory, its invariant, whole runs |
| `Requests.dfy`, `Calls.dfy` | which requests are answered soundly; runs of calls with the search as written and with a contiguous one |
| `PMM.dfy` | `PMM_init`, `PMM_malloc`, `PMM_free` as methods on a memory that contains their own bitmap |
| `Paging.dfy`, `Boot.dfy` | `VMM_init` on that allocator, against the processor's page walk; the memory part of `_start` |
| `Fat12.dfy`, `Chs.dfy`, `Loader.dfy` | FAT12 entries and chains, `LBA2CHS`, `LoadFile`, the relocation to 1 MB |
| `Ring.dfy`, `Scancodes.dfy` | the keyboard ring under interleaving, the scancode decoder |
| `Numbers.dfy`, `Format.dfy` | `utoa`, `itoa`, `atoi`, `CON_vsprintf` |
| `Pages.dfy`, `Console.dfy` | the 80x25 console as a window on an unbounded page |

A word is a number below 2^32 and the C bit operators are defined digit by digit, so every fact about
them is an induction over bits.  Physical memory is an array of words indexed by address / 4.  The
allocator's class methods are proved equal to functions on a snapshot of the machine (`Frames.Machine`:
memory, bitmap base, total, counter, and the two records the kernel does not keep, the boot-reserved
frames and the ledger of live blocks); runs, isolation and undoing are then proved of those functions.

## Where the code departs from its intent

The code is modelled as it is; each departure is stated with the condition under which the code does
what it is for.

- `bitset_find` starts counting at 32i + 2^j instead of 32i + j (bitset.c:38) and accepts n clear bits out
  of n + 1 (bitset.c:43-46).  A successful answer for n frames is a clear block for every bitmap exactly when
  n <= 1, n >= total or total < 32 (`FindSoundExactlyWhen`); it misses room for every n it could satisfy
  (`FindCompleteExactlyWhen`); the first free frame numbered 20 or more modulo 32 ends every search
  (`HighBitStopsSearch`).
- So `PMM_malloc` keeps every allocator in order exactly when the request is not an unsafe one
  (`MallocSoundExactlyWhen`).  With total frames, between 32 and 2^20, and k = total / 32768 rounded up, n >= 2
  frames are unsafe if n + k + 2 <= total, or k = 1 and n < total, or k = 32 and n + 33 = total.  The rest of
  the large requests are safe because the bitmap's own frames stand in the way of the search's mistake.  A
  client sees it as address 4096 returned for a block with the reserved frame 2 in it
  (`ClientGetsReservedFrame`); on a memory of up to 128 MB that frame can be the bitmap's
  (`ClientGetsBitmapFrame`).
- Frame 0 has the address that means failure.  `PMM_malloc` succeeds with it exactly when frame 0 is free, and
  n of the n + 1 frames behind it are, and n fit (`SucceedsWithNullExactlyWhen`).
- Boot fails although almost all memory is free when the windows counted for the two frames behind the kernel
  range begin above the memory.  On a map that is all available memory a kernel of n pages boots exactly when
  n >= 2 and both begin below the total (`PlainMapBootsExactlyWhen`); for up to 30 pages that is
  2^(n + 2) < total, so 128 MB boot a kernel of at most 48 KB (`SmallKernelBootsExactlyWhen`).
- `PMM_free` checks only the counter; it keeps the allocator in order exactly for a whole live block or
  nothing (`FreeKeepsInvExactlyWhen`).
- `_start.c:187` passes `KERNEL_SEG` as the kernel start, so the running image at 1 MB is not reserved,
  unless it is at most 4088 bytes (`RunningImageReservedExactlyWhen`).
- `LBA2CHS` clears DL, so the loader always reads drive 0 (`DriveHonouredExactlyWhen`); FAT links up to 2879
  are accepted although the last cluster on the disk is 2845 (`ClusterOnImage`).
- `itoa` puts the sign last (`ItoaRightExactlyWhen`); `atoi` of a printed unsigned number is exact up to 2^31 - 1 (`PrintParse`).
- A format that ends in an odd number of percent signs makes `CON_vsprintf` leave the format
  (`DanglingExactlyWhen`).
- The release and extended marks of a modifier stay for the next key of the same call, and no modifier is
  ever cleared (`KeyAfterModifiersExactlyWhen`, `StreamRightExactlyWhen`, `CallMeaning`).

`Calls.FindContiguous` is not in the repository.  It searches for what a caller of `bitset_find` expects, n
consecutive clear bits, finds them whenever they exist (`ContiguousFailsOnlyWhenFull`), and with it the run
theorems hold for requests of every size.

## Assumptions

- `PMM_init` is called with what it takes for granted: the memory map ends at or below 4 GB, the kernel range
  and the bitmap range end inside the total and below 4 GB, and the word after the last bitmap word exists
  (the search may read one bit past the end of the bitmap).
- A store to an address without memory, which `PMM_free` makes for a pointer beyond the bitmap, has no effect.
- The file to load has a chain, at most 54 clusters long, so that it ends below the loader's own code at 0x7C00.
- The console starts with its cursor on the screen; output buffers are large enough; `itoa` is not given the
  least int; the arguments of a format are those its conversions take.
- A BIOS sector read is a function from drive and address to 512 bytes or an error; a read of several sectors
  is one of consecutive sectors of a track.

## Model

| member | source | states |
|---|---|---|
| Words.AlignUpMeaning | kernel/src/arch/x86/mmu/PMM.c:16-19 | `align_up`, with its mask, is rounding up to the next multiple |
| Words.CeilDivIsLeast | kernel/src/arch/x86/mmu/PMM.c:16-19 | no smaller multiple reaches the value |
| Words.MaskTest | kernel/src/lib/bitset.c:19-22 | `word & (1 << k)` is non-zero exactly when bit k is set |
| Words.BitInNumbers | kernel/src/lib/bitset.c:9-22 | bit k of a word is the last digit of the word divided by 2^k |
| Bitset.Set | kernel/src/lib/bitset.c:9-12 | the word of the bit is or-ed in place, all other memory stays |
| Bitset.Clear | kernel/src/lib/bitset.c:14-17 | the word of the bit is masked in place, all other memory stays |
| Bitset.TestBit | kernel/src/lib/bitset.c:19-22 | answers membership of the index |
| Bitset.TestInNumbers | kernel/src/lib/bitset.c:3-22 | bit x is digit x % 32 of word x / 32 |
| Bitset.SetAtInserts | kernel/src/lib/bitset.c:9-12 | setting x changes bit x and no other bit, in its word or any other |
| Bitset.ClearAtRemoves | kernel/src/lib/bitset.c:14-17 | clearing x changes bit x and no other bit |
| Bitset.MembersAfterSet | kernel/src/arch/x86/mmu/PMM.c:122-123 | the words refine a set: the malloc loop adds exactly the run |
| Bitset.MembersAfterClear | kernel/src/arch/x86/mmu/PMM.c:139-140 | the free loop removes exactly the run |
| Bitset.SameStore | kernel/src/lib/bitset.c:3-17 | memory is determined by the words below the bit array and its bits |
| Bitset.FindAsWritten | kernel/src/lib/bitset.c:24-59 | the three nested loops compute the first deciding candidate |
| Bitset.WindowHasFree | kernel/src/lib/bitset.c:42-53 | the inner loop: at least `size` clear bits among the size + 1 of the window |
| Bitset.FindMeaning | kernel/src/lib/bitset.c:24-59 | p is answered if and only if it is the first accepting candidate and no earlier clear one overruns; p is clear and the block in range |
| Bitset.FindInNumbers | kernel/src/lib/bitset.c:24-59 | p is answered iff it is the first clear bit of a whole word with n of the n + 1 window bits clear, and every clear bit before it has its window in range but fewer clear |
| Bitset.WindowInNumbers | kernel/src/lib/bitset.c:35-38 | the window of bit j of word i begins at 32i + 2^j, in every word |
| Bitset.FindSoundExactlyWhen | kernel/src/lib/bitset.c:24-59 | answers are clear blocks for all bitmaps iff n <= 1, n >= total or total < 32 |
| Bitset.UnsafeRequestWitness | kernel/src/lib/bitset.c:38-50 | for every other request a bitmap on which a used frame is handed out |
| Bitset.FindCompleteExactlyWhen | kernel/src/lib/bitset.c:29-40 | for every satisfiable request some bitmap with room is refused |
| Bitset.FindAboveUsedPrefix | kernel/src/lib/bitset.c:24-59 | with everything from p on free, p is found iff its displaced window fits, and its block is clear |
| Bitset.HighBitStopsSearch | kernel/src/lib/bitset.c:35-40 | a first free frame numbered 20 or more modulo 32 ends every search |
| Memset.MemsetZero | kernel/src/arch/x86/lib/string.S:11-20 | byte-wise zeroing of words in place |
| Memset.ZeroBytesBit | kernel/src/arch/x86/lib/string.S:11-20 | clears exactly the first 8n bits, also in a partly covered word |
| Memset.ZeroWholeWords | kernel/src/arch/x86/lib/string.S:11-20 | whole words become zero |
| Ledger.TakeKeepsBooks | kernel/src/arch/x86/mmu/PMM.c:122-125 | taking unmarked frames keeps: marks = reserved + live, counter = marks, blocks disjoint |
| Ledger.OverlapBreaksBooks | kernel/src/arch/x86/mmu/PMM.c:122-125 | taking a marked frame makes the counter run ahead |
| Ledger.ReleaseKeepsBooks | kernel/src/arch/x86/mmu/PMM.c:139-141 | returning a whole live block keeps the books |
| Ledger.ForeignReleaseBreaksBooks | kernel/src/arch/x86/mmu/PMM.c:139-141 | returning anything else breaks them |
| Frames.SizeToFramesIsCeiling | kernel/src/arch/x86/mmu/PMM.c:28-31 | the exact ceiling, at most 2^20 for a 32-bit size |
| Frames.MallocKeepsInvExactlyWhen | kernel/src/arch/x86/mmu/PMM.c:112-130 | malloc keeps the allocator in order iff it fails or the picked block was clear |
| Frames.SafeRequestIsClear | kernel/src/lib/bitset.c:24-59 | for a safe request the picked block is always clear |
| Frames.ClearIsFresh | kernel/src/arch/x86/mmu/PMM.c:112-130 | a clear block is disjoint from the reserved frames and from every live block, and the counter has room for it |
| Frames.TakeClearBlock | kernel/src/arch/x86/mmu/PMM.c:122-125 | taking a clear block keeps the allocator in order and adds exactly its frames |
| Frames.FreeBlock | kernel/src/arch/x86/mmu/PMM.c:132-142 | freeing a live block takes out its frames and nothing else |
| Frames.FreeKeepsInvExactlyWhen | kernel/src/arch/x86/mmu/PMM.c:132-142 | for every pointer and size: without a panic, free keeps the order iff it frees nothing or a whole live block |
| Frames.ClientWriteKeepsBooks | kernel/src/arch/x86/mmu/PMM.c:87-99 | a store into a live block hits no bitmap word: the bitmap's frames are reserved |
| FrameRuns.RunIsSafe | kernel/src/arch/x86/mmu/PMM.c:102-142 | after any run that takes clear blocks, gives back live ones and stores into live ones: bits = reserved + live, counter = set bits, live blocks disjoint from each other and the reserved frames |
| FrameRuns.LiveBlockIsolated | kernel/src/arch/x86/mmu/PMM.c:112-142 | over any run a live block's contents change only by stores into it |
| FrameRuns.FreeUndoesMallocExactlyWhen | kernel/src/arch/x86/mmu/PMM.c:112-142 | freeing what malloc just returned restores memory bit for bit, counter and ledger iff the block was clear |
| FrameRuns.FreesCommute | kernel/src/arch/x86/mmu/PMM.c:132-142 | two live blocks may be freed in either order |
| Requests.UnsafeMallocWitness | kernel/src/arch/x86/mmu/PMM.c:112-130 | for every unsafe request a machine in order on which it is given a block with a used frame |
| Requests.MallocSoundExactlyWhen | kernel/src/arch/x86/mmu/PMM.c:112-130 | for every total: malloc keeps every machine in order iff the request is not unsafe |
| Requests.ClientGetsReservedFrame | kernel/src/arch/x86/mmu/PMM.c:112-130 | with frame 0 reserved, address 4096 is returned for a block that holds the reserved frame 2 |
| Requests.ClientGetsBitmapFrame | kernel/src/arch/x86/mmu/PMM.c:112-130 | up to 128 MB that frame can be the bitmap's own |
| Requests.SucceedsWithNullExactlyWhen | kernel/src/arch/x86/mmu/PMM.c:112-130 | malloc marks frames and returns 0 iff frame 0 is free, n of the n + 1 behind it are, and n fit |
| Requests.OneFrameIsNullExactlyWhen | kernel/src/arch/x86/mmu/PMM.c:112-130 | for one frame: iff frame 0 is free and frames 1 and 2 are not both used |
| Calls.AsWrittenIsTheKernel | kernel/src/arch/x86/mmu/PMM.c:112-142 | a call whose caller does its duty, a request that is not unsafe or a live block freed, is one permitted event |
| Calls.CallsAreEvents | kernel/src/arch/x86/mmu/PMM.c:112-142 | a run of such calls is a permitted run, with the search as written and with the contiguous one |
| Calls.CallsAreSafe | kernel/src/arch/x86/mmu/PMM.c:102-142 | so the books are right after every run of calls; with the contiguous search requests of any size are allowed |
| Calls.CallsIsolate | kernel/src/arch/x86/mmu/PMM.c:112-142 | and a live block's contents change only by stores into it |
| Calls.DutyIsNeeded | kernel/src/arch/x86/mmu/PMM.c:112-142 | the callers' duties are exactly what keeps the allocator in order |
| PMM.FrameAllocator.Init | kernel/src/arch/x86/mmu/PMM.c:33-100 | panics iff the map exceeds 4 GB; else reserved = frames of non-available entries, kernel and bitmap, counter = their number, invariant established, memory outside the bitmap untouched, the bit behind the bitmap known |
| PMM.MapReservesInBytes | kernel/src/arch/x86/mmu/PMM.c:53-71 | the map reserves a frame iff an entry of a kind other than 1 has a byte in it, or is empty and points inside it |
| PMM.BootReservedInBytes | kernel/src/arch/x86/mmu/PMM.c:47-99 | `PMM_init` leaves a frame used iff such an entry, the kernel range, or the bitmap at the next multiple of 8 has a byte in it |
| PMM.TotalFramesInBytes | kernel/src/arch/x86/mmu/PMM.c:33-48 | the total is the least number of 4096-byte frames that covers every entry |
| PMM.Beyond4GInBytes | kernel/src/arch/x86/mmu/PMM.c:37-40 | the panic is raised iff a 64-bit base or length needs more than 32 bits |
| PMM.BootArgumentsInBytes | kernel/src/arch/x86/mmu/PMM.c:33-99 | what is assumed of the arguments, in bytes |
| PMM.FrameAllocator.MarkEntry | kernel/src/arch/x86/mmu/PMM.c:53-71 | marks the outward-rounded frames of a non-available entry once; the second panic is unreachable |
| PMM.FrameAllocator.MarkFrames | kernel/src/arch/x86/mmu/PMM.c:63-70 | adds exactly the range to the marks, counting each frame once |
| PMM.FrameAllocator.PlaceBitmap | kernel/src/arch/x86/mmu/PMM.c:47-52 | the bitmap is placed and holds no bit |
| PMM.BitmapIsReserved | kernel/src/arch/x86/mmu/PMM.c:87-99 | every word access for an in-range bit stays in the frames marked for the bitmap |
| PMM.InitIgnoresEntryOrder | kernel/src/arch/x86/mmu/PMM.c:33-71 | order and repetition of map entries do not matter |
| PMM.RunningImageReservedExactlyWhen | kernel/src/_start.c:186-187 | with the boot arguments the running image is reserved iff it is at most 4088 bytes |
| PMM.FrameAllocator.Malloc | kernel/src/arch/x86/mmu/PMM.c:112-130 | on the real memory: exactly the state-machine step, address 0 on failure |
| PMM.FrameAllocator.Free | kernel/src/arch/x86/mmu/PMM.c:132-142 | on the real memory, for every pointer and size: exactly the state-machine step, or the panic with nothing changed |
| PMM.FrameAllocator.FramesFree | kernel/src/arch/x86/mmu/PMM.c:107-110 | free frames and set bits add up to the total |
| Paging.WalkIsIdentity | kernel/src/arch/x86/mmu/VMM.c:77-103 | the processor's walk of the tables maps every address below 4 MB to itself, supervisor and writable, and faults on all others |
| Paging.FillTables | kernel/src/arch/x86/mmu/VMM.c:77-103 | clearing and filling the two frames in place gives identity tables, other memory untouched |
| Paging.AddressSpace.Init | kernel/src/arch/x86/mmu/VMM.c:69-112 | succeeds iff both one-page requests yield a frame other than frame 0; then CR3 points at identity tables, paging is on, the two frames are different live blocks, the allocator is in order |
| Paging.AddressSpace.SwitchPageDirectory | kernel/src/arch/x86/mmu/VMM.c:114-123 | loads CR3 iff the directory is not NULL |
| Paging.OneFrame | kernel/src/arch/x86/mmu/VMM.c:71-75 | a frame found for one page is new and taking it keeps the allocator in order |
| Paging.PagingSurvivesRuns | kernel/src/arch/x86/mmu/VMM.c:69-112 | translations stay the same over any later allocator run that leaves the two frames alone |
| Boot.TwoFramesAreBootFrames | kernel/src/lib/bitset.c:24-59 | the frames `VMM_init` gets are determined by the set of used frames and the bit behind them |
| Boot.StartMemory | kernel/src/_start.c:113-118 | `PMM_init` then `VMM_init`: panics iff the map exceeds 4 GB or those two frames are not found; else exactly they hold directory and table, under identity paging, and the allocator is in order |
| Boot.ZeroIsFoundExactlyWhen | kernel/src/lib/bitset.c:24-59 | frame 0 is found iff it is free and frames 1 and 2 are not both used |
| Boot.BootIsNullSafe | kernel/src/_start.c:186-187 | the boot arguments reserve frames 1 and 2 for a kernel larger than a page, so frame 0 is never found |
| Boot.FirstFreeFrames | kernel/src/lib/bitset.c:24-59 | with frames 1 to k - 1 used, k and k + 1 free: these two are found iff their windows begin inside the memory, else none |
| Boot.PlainMapBootsExactlyWhen | kernel/src/_start.c:113-118 | on a map of one available entry, for every size of memory and kernel: boot succeeds iff the kernel has two pages or more and both windows begin inside the memory |
| Boot.SmallKernelBootsExactlyWhen | kernel/src/_start.c:113-118 | in numbers: 2^(n + 2) < total for n pages; 4 to 48 KB on 128 MB |
| Boot.MachineThatBoots | kernel/src/_start.c:113-118 | 128 MB and any kernel of 4 to 48 KB meet what is assumed and boot |
| Fat12.EntryOfPack | BIOS_bootloader/src/filesystems/FAT12.inc:142-182 | decoding inverts packing two entries in three bytes |
| Fat12.EntryInsideFat | BIOS_bootloader/src/filesystems/FAT12.inc:167-172 | every entry read lies in the nine loaded sectors |
| Fat12.ChainInNumbers | BIOS_bootloader/src/filesystems/FAT12.inc:162-183 | a link below 2880 is followed, one from 2880 on ends the walk |
| Fat12.FileOnDiskIsChain | BIOS_bootloader/src/filesystems/FAT12.inc:142-183 | clusters linked in a packed table up to an end mark of 0xFF8 to 0xFFF are the chain of the first, whole and the only one |
| Fat12.ChainExistsExactlyWhenAcyclic | BIOS_bootloader/src/filesystems/FAT12.inc:162-183 | the walk from a cluster ends iff no cluster repeats |
| Fat12.ChainIsUnique | BIOS_bootloader/src/filesystems/FAT12.inc:162-183 | the chain is determined by its start and has at most 2880 clusters |
| Loader.LoadFat | BIOS_bootloader/src/filesystems/FAT12.inc:39-49 | the table in memory is the nine sectors from number 4, iff they are readable |
| Loader.DriveReadSectors | BIOS_bootloader/src/bios/DriveReadSectors.inc:32-47 | consecutive sectors arrive in order iff all are readable |
| Loader.FollowLink | BIOS_bootloader/src/filesystems/FAT12.inc:167-179 | offset, parity, shift and mask read the link of the cluster |
| Loader.ParseFat | BIOS_bootloader/src/filesystems/FAT12.inc:136-187 | stores exactly the chain, in order, leaves its length in CX, writes nothing but the list |
| Loader.ReadClusters | BIOS_bootloader/src/filesystems/FAT12.inc:189-222 | loads the concatenation of the sectors iff all are readable, writing nothing else |
| Loader.LoadFile | BIOS_bootloader/src/filesystems/FAT12.inc:136-222 | the file ends up at 0x1000 although it overwrites the FAT it was found with |
| Loader.ClusterOnImage | BIOS_bootloader/src/filesystems/FAT12.inc:193-201 | cluster c is read from sector c + 34, iff the disk has it |
| Loader.DriveHonouredExactlyWhen | BIOS_bootloader/src/filesystems/FAT12.inc:199-211 | the caller's drive is read, whatever the drives hold, iff it is drive 0 |
| Loader.Relocate | BIOS_bootloader/src/boot2.asm:160-168 | dwords then bytes, upwards: byte k arrives from offset k modulo the distance |
| Loader.RelocationExactWhen | BIOS_bootloader/src/boot2.asm:160-168 | the copy is exact for all memories iff the size is at most the distance |
| Loader.FatBytes | BIOS_bootloader/src/filesystems/FAT12.inc:39-49 | the table's bytes are those of the sectors from number 4 |
| Loader.FileByte | BIOS_bootloader/src/filesystems/FAT12.inc:189-222 | byte k of a file is byte k % 512 of sector 34 + its cluster k / 512 |
| Loader.LoadKernel | BIOS_bootloader/src/boot2.asm:69-168 | from the disk image, table included, to 1 MB: byte k of the chain's file is at 0x100000 + k, for every k below the file size |
| Chs.LbaToChs | BIOS_bootloader/src/utils/LBA2CHS.inc:21-39 | the register result; DL is left 0 |
| Chs.RoundTripFromLba | BIOS_bootloader/src/utils/LBA2CHS.inc:4-7 | every sector of the disk has an address with that sector number |
| Chs.RoundTripFromAddress | BIOS_bootloader/src/utils/LBA2CHS.inc:4-7 | every address of the disk comes from its sector number |
| Chs.OnFloppyExactlyWhen | BIOS_bootloader/src/utils/LBA2CHS.inc:21-39 | for every number: the address is on the disk iff the number modulo 9216 is |
| Chs.AgreesWithDriverExactlyWhen | kernel/src/drivers/fdc.c:279-288 | the kernel driver's different divisions agree iff the cylinder fits eight bits |
| Ring.RingBuffer.Push | kernel/src/drivers/ps2.c:76-84 | the sequential push |
| Ring.RingBuffer.Pop | kernel/src/drivers/ps2.c:86-97 | the sequential pop |
| Ring.QueueLaws | kernel/src/drivers/ps2.c:66-97 | run one at a time, push and pop are a first-in first-out queue that holds 15 |
| Ring.StepKeepsInv | kernel/src/drivers/ps2.c:66-97 | every single read or write, in any order, keeps the invariant |
| Ring.InterleavedRunIsSafe | kernel/src/drivers/ps2.c:57-97 | under every interleaving: delivered is a prefix of accepted, the rest is the ring's content, at most 15; drops saw 15 unread, misses saw none |
| Ring.EveryStepAccountedFor | kernel/src/drivers/ps2.c:66-97 | over any interleaving every byte offered is accepted, dropped or at hand, every pop has delivered, failed or is at work |
| Ring.UninterruptedPush | kernel/src/drivers/ps2.c:209-214 | the steps of a push without interference are the sequential push |
| Ring.UninterruptedPop | kernel/src/drivers/ps2.c:354-367 | the steps of a pop without interference are the sequential pop |
| Scancodes.Keyboard.GetChar | kernel/src/drivers/ps2.c:369-436 | the loop with its latched static modifiers is the scan of the stream |
| Scancodes.NextByte | kernel/src/drivers/ps2.c:375-436 | what each byte does: 0xE0, 0xF0, 0, 0x14, 0x11, 0x12, 0x59 and all others |
| Scancodes.CallMeaning | kernel/src/drivers/ps2.c:369-436 | consumes through the first byte that is no prefix, no control, alt or unextended shift; release iff an F0 came before; modifiers are the old ones and all that came by |
| Scancodes.OrdinaryKeysRoundTrip | kernel/src/drivers/ps2.c:369-436 | decoding any encoded sequence of ordinary makes and breaks gives it back |
| Scancodes.KeyAfterModifiersExactlyWhen | kernel/src/drivers/ps2.c:369-436 | after any modifiers a key comes through as what it was iff no shift follows an extended modifier and it was a break or none of them was released; what is reported otherwise |
| Scancodes.ShiftAfterExtendedModifier | kernel/src/drivers/ps2.c:375-406 | after an extended modifier a shift is reported as a key |
| Scancodes.DecodeIsReport | kernel/src/drivers/ps2.c:369-436 | decoding the bytes of any keys gives the events of the keys, whatever the call has already seen |
| Scancodes.StreamRightExactlyWhen | kernel/src/drivers/ps2.c:369-436 | repeated calls report exactly the keys typed iff no modifier's marks reach, over modifiers only, a key they change |
| Numbers.Utoa | kernel/src/lib/stdlib.c:29-53 | writes the numeral and a terminator, bases 8 to 16 |
| Numbers.Itoa | kernel/src/lib/stdlib.c:55-85 | writes the digits, then the sign, and a terminator, bases 8 to 16 |
| Numbers.ReverseCopy | kernel/src/lib/stdlib.c:20-27 | copies backwards and terminates |
| Numbers.Atoi | kernel/src/lib/stdlib.c:5-13 | the 32-bit wrapped value of the leading digits |
| Numbers.DigitsValue | kernel/src/lib/stdlib.c:41-47 | the digits evaluate to the number, without leading zero |
| Numbers.NumeralDenotes | kernel/src/lib/stdlib.c:29-53 | the printed text, read most significant digit first, denotes the number in every base |
| Numbers.NumeralShape | kernel/src/lib/stdlib.c:29-53 | the text has only digits of the base, and no leading zero |
| Numbers.ScratchFitsExactlyWhen | kernel/src/lib/stdlib.c:39-49 | the 12-byte buffer holds every 32-bit value iff the base is at least 8 |
| Numbers.ItoaRightExactlyWhen | kernel/src/lib/stdlib.c:68-82 | the text is the conventional one iff the number is not negative |
| Numbers.ItoaInNumbers | kernel/src/lib/stdlib.c:55-85 | the text denotes the magnitude and a sign stands behind a negative number |
| Numbers.PrintParse | kernel/src/lib/stdlib.c:5-53 | print then parse returns the value iff it is below 2^31 |
| Numbers.LeadingInNumbers | kernel/src/lib/stdlib.c:5-13 | `atoi` stops at the first character outside 0 to 9; the digits before denote the number |
| Format.ParseOfSource | kernel/src/lib/conio.c:134-143 | splitting a format into units inverts writing them down |
| Format.SourceOfParse | kernel/src/lib/conio.c:134-143 | every format is its units, and perhaps a percent sign left over |
| Format.DanglingExactlyWhen | kernel/src/lib/conio.c:192-197 | the interpreter leaves the format iff it ends in an odd number of percent signs |
| Format.Vsprintf | kernel/src/lib/conio.c:126-212 | writes exactly the rendering and a terminator, returns their length |
| Format.AppendNumber | kernel/src/lib/conio.c:168-208 | a number passes through the 13-byte buffer unchanged |
| Format.TextOfConcat | kernel/src/lib/conio.c:134-210 | the text of two formats in a row is the one's, with the first arguments, then the other's, with the rest |
| Format.UnsignedConversions | kernel/src/lib/conio.c:178-208 | `%u` prints the decimal, `%x` and `%X` the upper-case hexadecimal numeral of the argument |
| Format.SignedConversions | kernel/src/lib/conio.c:168-177 | `%d` and `%i` print the decimal magnitude and then a sign |
| Format.TextConversions | kernel/src/lib/conio.c:150-166 | `%c` and `%s` print their argument |
| Format.OtherCharacters | kernel/src/lib/conio.c:134-197 | `%%` prints one percent sign, any other `%q` and any plain character itself |
| Pages.PrintingFollowsLayout | kernel/src/lib/conio.c:74-99 | the cursor is where the layout of the text ends, rows are begun only as needed |
| Pages.LayoutOfLine | kernel/src/lib/conio.c:74-87 | text without byte 10 moves the cursor on by its length in reading order |
| Pages.LayoutAfterLineFeed | kernel/src/lib/conio.c:95-99 | byte 10 moves it to column 0 of the next row |
| Pages.CharacterAtItsPlace | kernel/src/lib/conio.c:74-99 | every printed character stands where the layout of the text before it ends |
| Pages.OtherCellsUntouched | kernel/src/lib/conio.c:74-99 | every other cell keeps its content; in a new row it is blank in the colour of the last cell of the row above |
| Console.Console.WriteChar | kernel/src/bios/vga.c:34-43 | writes the two bytes of the cell, ignores positions off the screen |
| Console.Console.ScrollDown | kernel/src/bios/vga.c:121-136 | the overlapping in-place copy is exact, the last row blank in the last cell's colour |
| Console.ScrollIsNewRow | kernel/src/bios/vga.c:121-136 | scrolling the bytes is starting a row on the page |
| Console.WriteIsCell | kernel/src/bios/vga.c:34-43 | writing the bytes is writing the cell on the page |
| Console.Console.UpdateCursor | kernel/src/bios/vga.c:111-119 | the two register bytes make up the position |
| Console.Console.Adjust | kernel/src/lib/conio.c:13-28 | wraps and scrolls so that screen, cursor and register again show the page |
| Console.Console.Newline | kernel/src/lib/conio.c:95-99 | the page after a line feed, shown |
| Console.Console.Putc | kernel/src/lib/conio.c:74-87 | the page after a character, shown |
| Console.Console.Puts | kernel/src/lib/conio.c:89-93 | the page after the text before the terminator, shown; where the cursor ends, with and without line feeds; the scroll count is the layout's excess over row 24 |

## Left out

- Bitset.FindAsWritten: stated for at most 2^20 frames and bits, the most the 32-bit allocator can pass, so that 32-bit wrap-around of the window does not arise.
- PMM.FrameAllocator.Init: kernel and bitmap ranges that end above the total are excluded, the source does not check them and would mark bits outside the bitmap; so are entries that start below 4 GB and end above it, whose total exceeds the addresses `PMM_malloc` can return.
- Boot.StartMemory: takes the memory map and the kernel size as given, with the same ranges excluded.
- Loader.LoadFile: chains longer than 54 clusters are excluded, they overwrite the running loader.
- Loader.DriveReadSectors: how much of a failing read has arrived; boot stops there.
- Scancodes.Keyboard.GetChar: reads a given stream; the busy wait of `PS2_get_scancode` and the ASCII table after the loop are not modelled.
- Format.Vsprintf: what is read after a dangling percent sign is not modelled, nor arguments of the wrong type.
- Console.Console.Putc: cursors set off the screen by `CON_gotoXY` are excluded.
- Numbers.Itoa: the least int is excluded, its negation overflows; so are bases below 8, in which the buffer does not hold every number.
- Numbers.Atoi: overflow of the C int is taken as wrapping.
- `RootDirFindFile` (it uses a store where a comparison is meant), the root directory and the SYS_INFO block between loading and relocation; the start cluster and the file size are inputs.
- The page fault handler, interrupt and descriptor tables, PIC, PIT, DMA, floppy commands, PS/2 controller set-up, mouse and CMOS: they depend on hardware that is not in the repository.
- The first boot stage, A20, BIOS printing and memory detection, `boot_info_sanitize`, panic screens, colours and banners.
- Timing and the memory model of several processors; the ring's steps are interleaved one read or write at a time.
