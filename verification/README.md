# Verified model of SHV's page tables, locks and text routines

SHV is a small hypervisor. This project models its page-table library and the clients of that
library, its locking steps, and its number and text routines, and proves what they are for.

**Page tables.** `Bitfield` and `Hpt` encode and decode entries of the four x86 formats (32-bit, PAE,
4-level, EPT), one binary digit at a time. `PageWalk` says what tables mean: a walk, a translation
(`Lookup`), and the invariant that the tables in use form a tree while the free pages are zero.
`Hptw.Context` is the library as it runs, on arrays in memory that are changed in place; its methods
are proved against `PageWalk`, where inserting an entry is shown to be the update of a finite map.
`Pool` counts the pages that inserts allocate. `EptSpec` and `ShvEpt.EptCpu` are the EPT builder of
one CPU over any sequence of builds. `Access` and `HptwAccess` are the checked accesses and the
copy and fill loops, proved to do what copying byte by byte through the translation does.

**Flat tables.** `FlatTables` shows that a walk of tables that lie in flat arrays is the identity;
`FlaggedEntries` reads entries that are written as flags and address; `Paging`, `KernelTables` and
`UserTables` are the fill loops of the kernel and of user mode in all three paging modes.
`StaticMemory` builds their objects from zeroed arrays, with the entries of the boot code, and runs
them; `EptBoot` does so for the EPT builder.

**Locks.** `SpinLock`, `PalSemaphore`, `UserLock` and `UserPrograms` are transition systems in which
any number of CPUs take turns, one memory access at a time.

**Text.** `Numbers` prints and parses numbers, `Format` pads them and bounds the output,
`FormatString` runs the directive loop of printf over a format and its arguments, `Directives` says
what formats mean and proves that the loop reads them so, `Printed` gives the output of each
conversion and of whole formats, `Cmdline` sets options, `LibcString` moves bytes, `VgaScreen` scrolls, `Mtrr` folds
memory types, and `MtrrRanges` says which addresses a register covers.

Words of 64 bits are numbers below 2^64, with wrap-around, truncation and shifts written out. An
assertion of the source that callers must meet is a precondition; one that the code could fail by
itself is proved, or its failure is a result. Clocks, console output and instructions with effects
outside memory are not modelled. `ept_get_mem_type` enters the builder as any function whose values
fit the three-digit field of an entry, as the source asserts; `EptBoot.RegistersFit` shows that its
loop over the variable ranges gives such a function when registers and default declare such types.
Below 1 MB with fixed ranges it gives a type at the start of a range only, see below.
`pa2ptr` enters as the identity for tables and as an arbitrary callback for data.

Where the code departs from what its interface or comments suggest, the model follows the code:

- Validity accepts the rights RX and RW for level 3 of PAE, but only the present bit is stored
  (src/hpt.c:190-194, 284-291). `Hpt.SetProtLaw` gives the exact condition for the round trip.
- For a 4 MB page of 32-bit paging the address getter copies entry bits 39:32, which such an entry
  keeps in bits 20:13 (src/hpt.c:489-494). `Hpt.GetAddress` does the same.
  `Hpt.BigPageAddressExactly` gives the exact condition for the address to be right: bits 20:13 are
  clear, that is, the page lies below 4 GB; `Hpt.BigPageAddressMissed` is an entry where it is wrong.
- Padding with zeros replaces the precision of a number conversion by its width, so the promised
  length is not always reached. `Format.LengthIffRoom` gives the exact condition,
  `Format.ZeroPaddingForgetsPrecision` an example.
- A PAL with a wrong result keeps the lock for good (src/shv-user.c:259-270), so a waiting CPU does
  not always get on. `PalSemaphore.LeaveIffNoneFailed` gives the exact condition,
  `PalSemaphore.WrongResultBlocks` an example.
- The bytes left on a page are computed from the physical address (src/hptw.c:412-413), and the field
  of a large page reaches below its size. `Access.ChunkExactly` gives the exact condition for a chunk to
  end with its page, `Access.AlignedExactly` that for all chunks of a page: its address is a multiple
  of its size. It always is for pages of 4 KB and for 4 MB pages of 32-bit paging
  (`Access.AlignedAlways`); `Access.UnalignedPage` is an entry where a chunk goes on. The copy loops are
  proved for ranges whose addresses meet the condition.
- A format that ends inside a directive is read past its end (src/libc_stdio.c:358, 634-644).
  `Directives.StaysInside` gives the exact condition, `Directives.LonePercent` formats such as "100%".
  After a negative width from the arguments the padding changes sides, so "%-*d" pads on the left:
  `Directives.ScanRendered`.
- In the fixed ranges of the memory types, the index is computed as start minus address
  (src/shv-ept.c:120-123). `Mtrr.FixedExactly`: index and shift are right, and the shift is defined,
  iff the address is the start of a range.
- Whether conflicting memory types halt depends on the order of the ranges, the type itself does
  not: `Mtrr.FoldMeans`, `Mtrr.HaltDependsOnOrder`. `Mtrr.NoOrderHalts` gives the exact condition on the
  types for no order to halt. The reserved type 7, which the loop uses for "no
  range so far", is ignored in front and a conflict behind: `Mtrr.ReservedInRegister`.

## Model

| member | source | states |
|---|---|---|
| Bitfield.SetHLBit | include/bitfield.h:137-141 | setting a field changes exactly the digits of the field, to those of the value |
| Bitfield.GetHLBit | include/bitfield.h:127-130 | digit i of a field is digit lo + i of the word |
| Bitfield.FitsField | include/bitfield.h:139-139 | the assertion on the value holds for every value below the field's power of two |
| Bitfield.GetAfterSet | include/bitfield.h:127-141 | a field reads back the value that was set, for all widths and positions |
| Bitfield.GetAgrees | include/bitfield.h:127-130 | a field depends on its own digits only |
| Bitfield.GetHLValue | include/bitfield.h:127-130 | a field is the word divided by 2^lo, modulo the field's size |
| Bitfield.SetBitBit | include/bitfield.h:157-161 | setting a bit changes that bit only |
| Bitfield.GetBitIsBit | include/bitfield.h:152-155 | the bit getter reads that binary digit |
| Bitfield.SameBits | include/bitfield.h:87-161 | words with the same digits are equal, so the digit laws determine each operation |
| Hpt.SetProtLaw | src/hpt.c:271-345 | rights read back as set iff not RX or RW at PAE level 3; presence is exact; user bit, page flag, address and memory type stay |
| Hpt.SetUserLaw | src/hpt.c:228-268 | the user bit reads back; rights, presence, page flag, address and memory type stay |
| Hpt.SetPageLaw | src/hpt.c:412-479 | the page flag reads back; rights, presence and user bit stay; an unchanged flag leaves the entry unchanged |
| Hpt.SetAddressLaw | src/hpt.c:482-624 | the address reads back masked to the field, hence exactly when it fits; all else stays |
| Hpt.SetPmtLaw | src/hpt.c:776-839 | UC, WC, WT and WB (all eight values for EPT) read back; rights, presence, user bit, page flag and address stay |
| Hpt.FlagsRead | src/hpt.c:228-839 | the places of user bit, page flag and memory type in all formats, as the processor reads them |
| Hpt.GetProtIsDigits | src/hpt.c:309-345 | the places of the rights in all formats |
| Hpt.PresentIsDigits | src/hpt.c:394-409 | an entry is present iff readable; for EPT iff it grants any right |
| Hpt.AddressRead | src/hpt.c:482-548 | the digits of the address, but for 4 MB pages |
| Hpt.SetPmtDigits | src/hpt.c:805-839 | setting the type writes its pair of digits and clears the PAT digit of a page; for EPT its three digits |
| Hpt.StoredLaw | src/hpt.c:874-885 | storing in 32 bits keeps page flag, presence, rights, user bit, memory type, and the address of all but 4 MB pages |
| Hpt.BigPageAddressExactly | src/hpt.c:487-495 | the getter gives the address that a stored 4 MB entry holds iff bits 20:13 are clear, iff the page lies below 4 GB |
| Hpt.BigPageAddressOfWord | src/hpt.c:487-495 | for any 64-bit word: iff bits 20:13 and 39:32 are clear |
| Hpt.BigPageAddressMissed | src/hpt.c:487-495 | a present entry of a page at 4 GB for which the getter gives 0 |
| Hpt.IdxSplits | src/hpt.c:846-857 | the index of a level is the last digit of the region number of that level: nested indices flatten |
| Hpt.GetPmIdx | src/hpt.c:846-857 | an index lies inside its table |
| Hpt.OffsetIsRemainder | src/hpto.c:167-179 | the offset mask of a level is the remainder modulo the page size |
| Hpt.RemainingOnPage | src/hpto.c:207-217 | at least 1 byte and at most a page remains, so chunks make progress |
| Hpt.TablePointerLaw | src/hptw.c:141-145 | the entry that links a new table is a present pointer to it, with all rights and user access |
| PageWalk.WalkStops | src/hptw.c:212-249 | a walk ends inside the levels at an entry that is no table pointer |
| PageWalk.LinkIsTree | src/hptw.c:132-146 | linking a free page under an empty entry keeps tree and zero pages |
| PageWalk.LinkLookup | src/hptw.c:132-146 | linking an empty table changes no translation |
| PageWalk.AllocPath | src/hptw.c:120-157 | allocation along a path keeps the tree and the zero pages, also when it stops half-way |
| PageWalk.AllocPathKeeps | src/hptw.c:120-157 | allocation changes no translation, no rights along any way, and removes no table, also when it fails |
| PageWalk.AllocPathGoal | src/hptw.c:120-157 | on success the table found is the one of the level asked for on the way of the address |
| PageWalk.PutIsTree | src/hptw.c:163-178 | writing a page or empty entry keeps the tree, even if it cuts off a whole lower table |
| PageWalk.PutRefinesUpdate | src/hptw.c:100-114 | overwriting an entry gives it to exactly the addresses of its region, with the rights of the way, and leaves all other translations |
| PageWalk.InsertRefinesUpdate | src/hptw.c:120-178 | insert with allocation is a map update for exactly the addresses sharing the index digits; on failure no translation changes; tree and zero pages are kept |
| PageWalk.RegionsAbove | src/hpt.c:846-857 | addresses of one region share all larger regions |
| PageWalk.SameWay | src/hptw.c:212-249 | addresses of one region are served by the same tables |
| PageWalk.FirstFree | src/shv-ept.c:74-87 | the first free page, or none exactly when all are taken |
| Hptw.Context.constructor | src/shv-ept.c:30-39 | zeroed memory with nothing allocated is a tree |
| Hptw.Context.Gzp | src/shv-ept.c:74-87 | first fit: takes the first free page and nothing else |
| Hptw.Context.GetPmeByVa | src/hpt.c:888-891 | reads the entry of the address |
| Hptw.Context.SetPmeByVa | src/hpt.c:894-898 | writes that entry, truncated as stored, and nothing else in any table |
| Hptw.Context.NextLvl | src/hptw.c:212-249 | one level down along a pointer; stays at a leaf; reports a table that cannot be read |
| Hptw.Context.LinkTable | src/hptw.c:132-146 | the whole new state after a table is allocated and linked; unchanged when the pool is empty |
| Hptw.Context.GetPmoAlloc | src/hptw.c:120-157 | the loop computes the state and result of `AllocPath` for every level asked for |
| Hptw.Context.InsertPmeoAlloc | src/hptw.c:163-178 | the new state is that of `Insert`; success exactly as in `Pool.InsertFits`; for leaf entries the translations of all addresses are updated on success and unchanged on failure |
| Hptw.Context.GetPmo | src/hptw.c:184-193 | for any tables: the deepest table on the way, at the level asked for iff it exists and can be read; in a tree every table can |
| Hptw.Context.InsertPmeo | src/hptw.c:100-114 | for any tables: fails iff the table of the level is missing, then changing nothing; else writes one entry; in a tree a leaf updates the map |
| Hptw.Context.Overwritten | src/hptw.c:100-114 | overwriting with a leaf where a walk is updates the map and keeps the tree |
| Hptw.Context.SetProtVa | src/hptw.c:292-304 | for any tables: rewrites the level-1 entry; in a tree gives the 4 KB page the new rights and leaves every other address alone |
| Pool.AllocPathCounts | src/hptw.c:127-152 | a level-1 allocation adds exactly the missing tables of the way, and fails only when they exceed the pool |
| Pool.InsertCounts | src/hptw.c:163-178 | the same for a whole insert |
| Pool.AllocPathSucceeds | src/hptw.c:120-157 | for any tree, table and level: allocation succeeds iff the walk of the address meets no page above the level and the free pages suffice for the tables that are missing |
| Pool.InsertSucceeds | src/hptw.c:163-178 | an insert succeeds iff the level exists, the walk ends at or below it or at no page, and the free pages suffice |
| Pool.InsertAllExact | src/hptw.c:127-152 | from an empty root, successful level-1 inserts allocate exactly as many pages as there are distinct prefixes |
| Pool.InsertAllExactShifts | src/shv-ept.c:74-87 | for EPT and 4-level paging: the distinct va >> 39, va >> 30 and va >> 21 |
| EptBoot.ZeroedContext | src/shv-ept.c:30-39 | zeroed static memory is an empty tree with its pool, so the preconditions of the builder are met |
| EptBoot.Boot | src/shv-ept.c:27-39 | the builder's initial state exists for every layout, and every run starts there |
| EptBoot.RegistersFit | src/shv-ept.c:132-165 | the types that the variable ranges give fit the field of an entry when those declared do |
| EptSpec.BuilderInsert | src/hptw.c:163-178 | an insert of the builder succeeds when its way can be made, maps its region to the frame and memory type told with all rights, changes no other address, and keeps all other ways open |
| EptSpec.BudgetCanInsert | src/shv-ept.c:256-281 | within the 128 pages every insert of a build succeeds |
| EptSpec.BudgetSize | src/shv-ept.c:22-22 | kernel image up to 246 MiB, LAPIC, console, real-mode memory and target page need at most 128 tables |
| EptSpec.TargetsApart | src/shv-ept.c:272-282 | number n has the page n pages after the first, apart from that of every other number |
| EptSpec.Remapped | src/shv-ept.c:175-176 | changing type and address of the builder's entry gives a page entry for that address with that type |
| ShvEpt.MapPage | src/shv-ept.c:174-178 | one page is mapped to itself with its type, and the accounting of the pool goes on |
| ShvEpt.MapContinuous | src/shv-ept.c:168-179 | exactly [low, high) is mapped to itself, each page with the memory type of its address; all else unchanged |
| ShvEpt.MapIdentity | src/shv-ept.c:256-266 | after the first stage exactly kernel image, LAPIC, console and real-mode memory are mapped, each to itself |
| ShvEpt.MapTarget | src/shv-ept.c:272-282 | 0x12340000 goes to the target page of the number, write-back, or nowhere for 0 |
| ShvEpt.EnterBig | src/shv-ept.c:296-301 | one 2 MB page is laid over the 4 KB table |
| ShvEpt.SwapBig | src/shv-ept.c:285-301 | the two 2 MB regions are mapped onto each other, write-back, over the 4 KB tables |
| ShvEpt.FillMarks | src/shv-ept.c:274-303 | exactly the 16-byte marks are written |
| ShvEpt.MarksStay | src/shv-ept.c:274-303 | the marks of a number survive those of every other |
| ShvEpt.StagesGiveMap | src/shv-ept.c:254-301 | the stages together give the whole expected map of the root |
| ShvEpt.StagesOpen | src/shv-ept.c:267-281 | a rebuild needs no page |
| ShvEpt.BuildTables | src/shv-ept.c:234-301 | first build and rebuild both end at the expected map; a rebuild allocates nothing |
| ShvEpt.EptCpu.BuildEpt | src/shv-ept.c:234-307 | no assertion fires; root n / 16 maps as the number demands (address, memory type, rights), the other root is untouched, only the marks change in data memory, and the guest test holds |
| ShvEpt.EptCpu.BuildMany | src/shv-ept.c:234-307 | any sequence of builds keeps the invariant |
| ShvEpt.EptCpu.EveryRun | src/shv-ept.c:234-307 | after any sequence of builds each root maps every address as its last number demands, in plain numbers: physical address, all rights, and memory type |
| ShvEpt.EptCpu.BothRootsPass | src/shv-guest.c:265-281 | after any sequence of builds each root passes the guest test of its own last number, whatever was built in the other root since |
| ShvEpt.EptCpu.OwnNumberIsRead | src/shv-guest.c:265-281 | under either root the four bytes at 0x12340000 read as the last number of that root |
| ShvEpt.EptCpu.SwitchEpt | src/shv-guest.c:291-310 | the switch to the next number is followed by a successful guest test |
| ShvEpt.EptCpu.GuestBytes | src/shv-guest.c:265-281 | the four bytes at 0x12340000 read as the number, and the large pages read swapped (also src/shv-guest.c:533-537) |
| Access.SameRegionWalk | src/hptw.c:354-374 | all addresses of the region of the last entry have the same walk |
| Access.PageOffsets | src/hpto.c:167-180 | up to the end of a page physical addresses go up with virtual ones |
| Access.VaToPaIs | src/hpto.c:167-180 | the physical address is the page address plus the remainder modulo the page size, without wrapping |
| Access.ChunkExactly | src/hptw.c:412-413 | the bytes said to be left are on the page iff page address and offset, both modulo the page size, sum to less than it |
| Access.AlignedExactly | src/hpto.c:207-217 | so it is at every address of a page iff its address is a multiple of its size |
| Access.AlignedAlways | src/hpt.c:482-548 | pages of 4 KB, and all pages of 32-bit paging, are aligned |
| Access.UnalignedPage | src/hptw.c:412-413 | a 2 MB page at 0x2000: at its last byte more than one byte is said to be left |
| Access.PageIsContiguous | src/hptw.c:400-419 | all bytes of a chunk that ends with its page have the same permission and follow each other in memory |
| Access.AccessExtends | src/hptw.c:400-419 | a granted chunk extends the prefix accessed so far, by at least one byte |
| HptwAccess.CheckedGetPmeo | src/hptw.c:354-389 | the early-exit check succeeds iff the walk meets no error, ends present, and its effective rights allow the access; the entry is then a page, so the halt is unreachable |
| Access.PermitsIffAllGrant | src/hptw.c:354-389 | an access is permitted iff the walk ends at a present entry and every entry on the way can be read and grants it |
| HptwAccess.GetEffectiveProts | src/hptw.c:259-289 | the fold over all entries of the walk; none when a table cannot be read |
| HptwAccess.CheckedAccessVa | src/hptw.c:400-419 | address and size of the chunk, or refusal, exactly |
| Access.AccessAsks | src/hptw.c:410-415 | the callback is asked for the request or what is left of the page, whichever is less, with kind and privilege of the request |
| HptwAccess.CheckedCopyFromVa | src/hptw.c:426-447 | a prefix is copied byte for byte, all of it iff success; on failure it ends at a refused access; terminates |
| HptwAccess.CheckedCopyToVa | src/hptw.c:454-475 | the same for copies to virtual addresses |
| HptwAccess.CheckedMemsetVa | src/hptw.c:525-551 | the same for filling; no other byte changes |
| HptwAccess.CheckedCopyVaToVa | src/hptw.c:482-518 | the chunked copy is the copy byte by byte through both translations, for every mix of page sizes and overlaps |
| HptwAccess.CopyMeans | src/hptw.c:482-518 | with disjoint physical ranges the destination has the old source bytes and nothing else changed |
| HptwAccess.CopyVaToVaMeans | src/hptw.c:482-518 | byte i of the destination range is the old byte i of the source range |
| FlatTables.FlatWalk | src/hpt.c:846-857 | a walk of flat arrays reads the entry with the region number of each level |
| FlatTables.IdentityMap | src/hpt.c:846-857 | identity tables send every address below the limit to itself with rights RWX and the given user access |
| FlaggedEntries.OrIsFlagged | src/shv-user.c:63-63 | flags and aligned address combined by or are read back separately |
| FlaggedEntries.FlaggedPointer | src/paging.c:43-43 | 1, 3 or 7 with a table address is a pointer to that table with all rights |
| FlaggedEntries.FlaggedSelf | src/paging.c:59-59 | 7 or 0x83 with the address of a region maps the region to itself, whatever the accessed and dirty bits |
| Paging.FillArray | src/paging.c:39-62 | one counted loop: halts iff a boot entry is wrong; else exactly the entries past those are written |
| Paging.CountCovers | include/_paging.h:278-282 | the rounded-up array sizes cover every entry that an address below the limit needs |
| Paging.CountsFit | include/_paging.h:278-282 | the filled entries fit the arrays, and the pages cover the limit |
| Paging.FilledMaps | src/paging.c:36-84 | filled tables, of the kernel or of user mode, map every address below the limit to itself |
| KernelTables.BootWordExactly | src/paging.c:41-41 | the check of a boot entry accepts exactly flags and address, apart from accessed and dirty bits |
| KernelTables.LongTables.ShvPageTableInit | src/paging.c:38-63 | 4-level build: halts iff the boot code's entries are wrong; else the tables are identity tables |
| KernelTables.PaeTables.ShvPageTableInit | src/paging.c:65-73 | PAE build: the tables are identity tables |
| KernelTables.NormTables.ShvPageTableInit | src/paging.c:75-79 | 32-bit build, with its wrapping counter: the table is an identity table |
| StaticMemory.WriteBootEntries | src/boot.S:106-128 | flags and address, written as the boot code does, are accepted by the checks of the fill loops |
| StaticMemory.BootLong | src/paging.c:38-63 | after the boot code, the 4-level build does not halt and leaves identity tables |
| StaticMemory.BootPae | src/paging.c:65-73 | the PAE build from zeroed arrays |
| StaticMemory.BootNorm | src/paging.c:75-79 | the 32-bit build from zeroed arrays |
| UserTables.LongTables.FillLevel | src/shv-user.c:62-80 | one of the four loops does its assignments of the program, in order |
| UserTables.LongTables.SetUserModePageTable | src/shv-user.c:59-81 | 4-level build: the first call does the assignments of the program and leaves identity tables; later calls change nothing |
| UserTables.PaeTables.SetUserModePageTable | src/shv-user.c:83-97 | the same for the nested loops of the PAE build |
| UserTables.NormTables.SetUserModePageTable | src/shv-user.c:99-108 | the same for the 32-bit build |
| StaticMemory.UserLong | src/shv-user.c:59-81 | from zeroed arrays the first call leaves identity tables; likewise for the next two |
| StaticMemory.UserPae | src/shv-user.c:83-97 | the same for PAE |
| StaticMemory.UserNorm | src/shv-user.c:99-108 | the same for 32-bit paging |
| SpinLock.LockStaysExclusive | src/spinlock.c:21-39 | an access to the lock by any CPU keeps that it is 1 iff one CPU holds it, and 0 iff none does |
| PalSemaphore.StepKeepsInv | src/spinlock.c:21-39 | every access of every CPU keeps: one holder at most, counter plus users is 3, values read under the lock stay current |
| PalSemaphore.EveryRun | src/shv-user.c:287-326 | so it is after any interleaving of any number of CPUs; the counter never wraps |
| PalSemaphore.SomeoneMoves | src/shv-user.c:290-304 | while none has failed and one is waiting, some CPU has a step that is not spinning |
| PalSemaphore.AllCanLeave | src/shv-user.c:287-326 | and all CPUs can still get out |
| PalSemaphore.LeaveIffNoneFailed | src/shv-user.c:258-326 | in every reachable state all CPUs can get out iff the PAL failed on none |
| PalSemaphore.FailedKeepsPlace | src/shv-user.c:259-270 | from the failure of a PAL on, its CPU never gives its place back: counter and the other users make 2 |
| PalSemaphore.WaitsWithoutLock | src/shv-user.c:297-303 | a CPU that finds no place gives the lock back and reads the counter up to 4096 times before it tries again |
| PalSemaphore.TrappedForever | src/shv-user.c:265-270 | once that CPU holds the lock, no CPU ever enters or leaves the section again |
| PalSemaphore.WrongResultBlocks | src/shv-user.c:259-270 | a run of two CPUs that gets stuck |
| UserLock.StepKeepsInv | src/shv-user.c:53-116 | every access of every CPU keeps the invariant of the one-time fill |
| UserLock.BuiltOnce | src/shv-user.c:53-116 | in every interleaving the fill is done once, a CPU that loaded cr3 loaded the root of finished tables, and a CPU about to return has loaded it |
| UserLock.ReturnsWithRoot | src/shv-user.c:114-116 | the step that returns leaves the CPU outside with the root loaded |
| UserLock.StaysLoaded | src/shv-user.c:114-114 | the root stays loaded in every run |
| UserLock.SomeoneMoves | src/shv-user.c:53-116 | while a CPU has not finished, some CPU has a step that is not spinning |
| UserLock.AllGetTables | src/shv-user.c:53-116 | every run goes on to one after which all CPUs are outside with the root of finished tables |
| UserPrograms.ProgramCovers | src/shv-user.c:59-108 | the loops of all builds write every entry and only what belongs there |
| UserPrograms.ProgramFills | src/shv-user.c:59-108 | the writes in order leave filled tables |
| UserPrograms.UserTablesAreIdentity | src/shv-user.c:53-116 | a CPU that runs on the user tables, as it does from before its return on, maps every address below the limit to itself, for user mode |
| UserPrograms.AllGetIdentity | src/shv-user.c:53-116 | every run goes on to one after which all CPUs have returned and run on filled tables |
| Numbers.Ksprintn | src/libc_stdio.c:265-278 | the buffer read down from the result is the numeral; nothing is written past 65 characters |
| Numbers.NumeralLength | src/libc_stdio.c:118-118 | 64 digits suffice for every base |
| Numbers.NumeralMeans | src/libc_stdio.c:265-278 | the numeral consists of digits of the base and stands for the number |
| Numbers.DigitsAre | src/libc_stdio.c:265-278 | the digits in lower and in upper case |
| Numbers.ReadHead | src/strtoul.c:83-97 | spaces, sign, prefix and base are recognised |
| Numbers.ReadDigits | src/strtoul.c:98-116 | the sticky flag is set iff the mathematical value of the digits exceeds 2^64 - 1; else the accumulator is that value |
| Numbers.TbStrtoull | src/strtoul.c:71-125 | halts iff the value exceeds 2^64 - 1; else value, negation modulo 2^64, and end position are exact; in a negative base nothing is read |
| Numbers.Cutoff | src/strtoul.c:98-115 | the test with quotient and remainder is the test for overflow |
| Numbers.ReadsWritten | src/strtoul.c:71-125 | spaces, sign, prefix, digits and a rest are read as the value of the digits |
| Numbers.ReadsNothing | src/strtoul.c:83-125 | without digits the result is 0 and the end is the beginning, whatever spaces, sign and prefix |
| Numbers.PrintThenRead | src/libc_stdio.c:265-278 | printing then parsing gives the number, for every base and both cases |
| Numbers.LiteralReads | src/strtoul.c:91-97 | C literals in decimal, octal and hexadecimal, however large, are read with base 0 up to their end, or halt beyond 64 bits |
| Format.Sink.Put | src/libc_stdio.c:249-257 | a character is stored or dropped; the output so far is what was sent |
| Format.Sink.Terminate | src/libc_stdio.c:227-228 | the buffer then is the truncated output, the NUL, and the rest as before |
| Format.PutNumber | src/libc_stdio.c:590-633 | a number conversion sends the layout of sign, prefix, zeros, digits and padding |
| Format.PutText | src/libc_stdio.c:514-534 | a string conversion sends the shown part, padded on the right side |
| Format.FormattedLength | src/libc_stdio.c:590-632 | exact length under every combination of flags |
| Format.LengthIffRoom | src/libc_stdio.c:606-609 | the length is max(width, marks + max(precision, digits)) iff no zero padding, or few enough digits asked for, or room in the width |
| Format.ZeroPaddingForgetsPrecision | src/libc_stdio.c:606-607 | an example where it is not |
| Format.FormatThenRead | src/libc_stdio.c:590-633 | a formatted number, signed or not, is read back in its base whatever flags, width and precision |
| FormatString.ScanModifiers | src/libc_stdio.c:358-418 | the cases of the switch that go on, with their numbers and arguments, are the scan that directives are defined on |
| FormatString.PutConversion | src/libc_stdio.c:442-633 | one conversion takes its argument in the size asked for and sends its text or number; refused when the argument is missing or of another kind |
| FormatString.Kvprintf | src/libc_stdio.c:306-645 | for every format and argument list: what is sent is the output of all pieces that the format asks for |
| FormatString.Vsnprintf | src/libc_stdio.c:219-245 | the first min(retval, size - 1) characters of the whole output, then NUL, for every size; retval is the whole length |
| Directives.ScanRendered | src/libc_stdio.c:358-553 | every directive %[flags][width][.precision][size] is read as meant: flags in any order and number, widths and precisions as numerals or arguments |
| Directives.FormatMeans | src/libc_stdio.c:335-645 | a format made of letters and directives, with or without an unknown directive behind, is read as meant, each directive taking its arguments in turn |
| Directives.AfterStop | src/libc_stdio.c:634-646 | after an unknown directive everything is sent as it stands and no argument is taken |
| Directives.StaysInside | src/libc_stdio.c:335-645 | provided the arguments are there, the code stays inside the format iff no directive is cut off |
| Directives.LonePercent | src/libc_stdio.c:634-644 | a format that ends with a single % is read past its end |
| Printed.SignedIs | src/libc_stdio.c:573-589 | two's complement: the number of the signed range that is congruent to the argument |
| Printed.SpecMeans | src/libc_stdio.c:442-595 | base, case, sign and magnitude of each number conversion, for every size of the argument |
| Printed.PlainNumber | src/libc_stdio.c:442-633 | %d and %i print the signed decimal, %u %o %x %X the unsigned numeral in base 10, 8, 16 and 16 with capitals, %y the signed one in base 16, %p the word behind 0x |
| Printed.NumberPrints | src/libc_stdio.c:590-633 | the whole text of a number under any flags, width and precision |
| Printed.TextPrints | src/libc_stdio.c:514-534 | the whole text of %s: cut by the precision, padded on the side that flags and width say |
| Printed.TakePrints | src/libc_stdio.c:442-633 | a conversion is done iff its arguments are there and of the right kind, and then prints its text |
| Printed.FormatPrints | src/libc_stdio.c:335-645 | a format of letters and directives is sent whole iff all arguments are there, as letters, texts of the directives in turn, and unknown rest |
| Printed.DirectiveReadsBack | src/libc_stdio.c:335-633 | a number printed by a directive of any flags, width, precision and size is read back in its base |
| Cmdline.MatchVar | src/cmdline.c:39-51 | exactly the options that the word names are set, to the number read after the name |
| Cmdline.ParseCmdline | src/cmdline.c:53-68 | every option ends with the value of the last word naming it, or its own; halts iff some word has a number of more than 64 bits |
| Cmdline.WordDone | src/cmdline.c:53-68 | the scanning loops stop at every position where a word starts, and only there |
| Cmdline.OptionReads | src/cmdline.c:39-51 | an option written as a C literal in any base, followed by a space or the end, names its number, or none beyond 64 bits |
| Cmdline.LastWordWins | src/cmdline.c:53-68 | after a command line is read, an option has the number of the last literal written for it |
| Cmdline.ParseLast | src/cmdline.c:53-68 | a command line that ends with an option sets it to the number written there |
| LibcString.Memcpy | src/libc_string.c:98-105 | byte after byte upwards, also when the ranges overlap |
| LibcString.MoveDisjoint | src/libc_string.c:98-105 | with disjoint ranges the old bytes arrive and nothing else changes |
| LibcString.Memset | src/libc_string.c:107-114 | exactly the range is filled |
| LibcString.Memmove | src/libc_string.c:69-88 | the destination has the old source bytes for every overlap |
| VgaScreen.LinesExtend | src/debug-vga.c:87-97 | one more character extends the newline-split, wrapped stream |
| VgaScreen.WrappedRows | src/debug-vga.c:87-97 | row k of a line has its characters from 80 k on |
| VgaScreen.ShortLines | src/debug-vga.c:87-97 | lines of fewer than 80 characters, joined by newlines, are the rows |
| VgaScreen.ShownAt | src/debug-vga.c:74-97 | each place of the screen has the character and attribute 7, of the last 25 rows, or zeros |
| VgaScreen.Screen.Init | src/debug-vga.c:107-111 | the empty screen shows the empty stream |
| VgaScreen.Screen.NewLine | src/debug-vga.c:74-85 | scrolling shows the last rows and an empty one |
| VgaScreen.Screen.Putc | src/debug-vga.c:87-97 | the screen shows the stream with the character, cursor behind it |
| VgaScreen.Screen.Putstr | src/debug-vga.c:99-105 | after any string the screen equals the last 25 rows of everything written |
| VgaScreen.Screen.CursorInside | src/debug-vga.c:74-97 | the cursor is on the screen |
| StaticMemory.ShowText | src/debug-vga.c:99-111 | video memory with anything in it shows a string after initialisation |
| Mtrr.VariableMemType | src/shv-ept.c:132-165 | the loop computes `MemType`, whose meaning the next rows give |
| MtrrRanges.MatchesIffCovers | src/shv-ept.c:135-145 | the test of the loop holds iff the register is valid and base and address agree at every digit of the mask from 12 on |
| MtrrRanges.CoversInterval | src/shv-ept.c:135-145 | a mask of the digits from k on covers exactly the 2^k addresses from the base |
| MtrrRanges.OneRegister | src/shv-ept.c:132-165 | one register, any mask: its type where it covers, the default elsewhere |
| MtrrRanges.OneInterval | src/shv-ept.c:132-165 | one register of 2^k addresses: its type there and the default elsewhere |
| MtrrRanges.RegistersMean | src/shv-ept.c:132-165 | any list of registers: when it halts, when the default is taken, and which of the declared types wins |
| MtrrRanges.OneTypeCovers | src/shv-ept.c:132-165 | when all covering registers declare one type, that is the type |
| Mtrr.EptGetMemType | src/shv-ept.c:107-165 | the whole function: UC while not enabled; below 1 MB with fixed ranges the declared type at the start of a range and an undefined shift elsewhere; else the variable ranges |
| Mtrr.FixedExactly | src/shv-ept.c:118-124 | index and shift are right, and the shift is defined, iff the address is the start of a fixed range |
| Mtrr.MemTypeFits | src/shv-ept.c:132-165 | declared types of three digits give a type of three digits |
| Mtrr.FoldMeans | src/shv-ept.c:147-160 | for any types: UC wins, WT wins over WB, else the single common type; halts iff incompatible types come before the first UC |
| Mtrr.OrderDoesNotMatter | src/shv-ept.c:147-160 | two orders that complete give the same type |
| Mtrr.HaltDependsOnOrder | src/shv-ept.c:147-160 | whether the fold halts does depend on the order |
| Mtrr.NoOrderHalts | src/shv-ept.c:147-160 | for any types: no order of them halts iff those other than UC are compatible |
| Mtrr.ReservedInRegister | src/shv-ept.c:147-160 | a register with the reserved type is ignored in front of a range and a conflict behind it |

## Left out

- Hptw.Context.InsertPmeoAlloc: for an entry that grafts a table of the caller's own, only the new state is given, since the tables may then be no tree.
- Hptw.Context.GetPmoAlloc: for tables that form a tree below the root, as the library builds them.
- Hptw.Context.SetPmeByVa: tables are memory of their own, apart from the data memory of the copy loops, as the source's callers arrange; concurrent edits are excluded by the library's own rules.
- Hpt.SetAddressLaw: not for 4 MB pages of 32-bit paging, where the source computes a negative position and drops a result.
- HptwAccess.CheckedCopyFromVa: for ranges whose chunks end with their pages (`Access.FitsAt`), as for the next three; elsewhere a chunk of the source goes on beyond its page.
- HptwAccess.CheckedCopyToVa: for such ranges.
- HptwAccess.CheckedMemsetVa: for such ranges.
- HptwAccess.CheckedCopyVaToVa: for such ranges.
- ShvEpt.EptCpu.BuildEpt: the invalidation instruction and the console messages are not modelled, nor is anything else that writes to the marked bytes between builds.
- ShvEpt.MapContinuous: only for addresses that the builder maps, on which the accounting of the pool rests.
- Numbers.TbStrtoull: the 32-bit build, whose result type drops the high half.
- FormatString.Kvprintf: the conversions %b, %D and %n, a null format, arguments of a 32-bit build, and numbers of padding and length beyond 2^31, where the source overflows.
- PalSemaphore.EveryRun: assertions inside the PAL section, which stop a CPU for good, and fairness of the scheduler.
- KernelTables.LongTables.ShvPageTableInit: limits above 2^48, which 4-level paging cannot map.
- The unchecked walks `hptw_va_to_pa` and `hptw_access_va`, the unused bits of entries, and the address fields of cr3 and EPTP: easy instances of what is proved.
- `construct_idt`: its flag does not protect the fill, as the lock is released before.
- The guest's VM exits, NMI experiments, descriptor tables, VMCS access, timers, devices, other boot and assembly code.
