# MinOS kernel core, modelled in Dafny

This project models the core of MinOS, a small 32-bit x86 kernel. It covers five parts.

- **The physical-page manager** (`memory.dfy`, `bits.dfy`, `memory_layout.dfy`). It covers:
  - the walk over the Multiboot memory map that sets the memory bound;
  - the page directory and the flat array of page-table entries;
  - the allocation bitmap, with one bit per 4 KiB page and 32 pages to a group;
  - the first-fit `AllocatePage`.

  The entry flags follow section 4.3 of the Intel SDM Vol. 3A: P is bit 0, R/W is bit 1 and U/S is bit 2. The bitmap words are modelled bit by bit. Each C operator on them (`|=`, `&= ~`, `&`, `>>`, `+ 1 != 0`) is defined by what it does to every bit.
- **The task list and scheduler** (`multitask.dfy`). It covers:
  - `CreateTask`, which rounds the image size, pushes the 17-word initial frame onto the task's stack and links the task in as the new head of the circular list;
  - enabling and disabling the scheduler;
  - the mapping of a user task's image;
  - `OnMultitaskPIT`, the timer tick that picks the next task.

  The scheduler is a class whose fields are the source's globals. A ghost sequence `tasks` lists the tasks in creation order.
- **The ELF32 loader** (`elf.dfy`). It covers:
  - the header checks (TIS ELF Specification 1.2, Book I, chapter 1);
  - the walk over the program-header table;
  - the copy of each `PT_LOAD` segment into an address space, modelled as a map from address to byte.

  The kernel's `assert` only logs (`kernel/include/stdlib.h:13-26`). So the loader returns the list of checks that failed, and it loads every segment whatever that list says.
- **The freestanding C library** (`stdlib.dfy`): `strlen`, `pow`, `strcmp`, `strncpy`, `memset` and `memcpy`.
- **The pointer `Vector`** (`vector.dfy`): a class with storage that doubles when full and removal that shifts the later elements down.

`common.dfy` holds the shared machine vocabulary: `u32`, `byte`, `Option`, truncation to 32 bits, and little-endian field reads.

The model follows the code, including where it behaves in ways one might not expect:

- `GetMaxMemory` looks for a region at 0x100000 (1 MiB), although its comment (`kernel/src/memory/memory.cpp:55`) speaks of 0x1000000 (16 MiB).
- The tick runs the tasks in creation order. The first task created runs first, because the tail is the task created first.
- A failed ELF header check does not stop the load: the kernel's `assert` only logs.
- `CreateTask` sets `bKernel` by comparing the task type with the page flag `KERNEL_PAGE`. No task type equals it, so no task is ever marked a kernel task (`Multitask.NoTaskIsMarkedKernel`).

## Model

| member | source | states |
|---|---|---|
| MemoryLayout.PdPresent | kernel/include/memory/memory.h:16 | the low bit of `x` lands on bit 0 (P): the result is 1 or 0 |
| MemoryLayout.PdReadWrite | kernel/include/memory/memory.h:17 | the low bit of `x` lands on bit 1 (R/W): the result is 2 or 0 |
| MemoryLayout.PdGlobalAccess | kernel/include/memory/memory.h:18 | the low bit of `x` lands on bit 2 (U/S): the result is 4 or 0 |
| MemoryLayout.FlagValues | kernel/include/memory/memory.h:16-22 | `KERNEL_PAGE` is 3: present, writable, supervisor. `USER_PAGE` and `USER_DIRECTORY` are 7: user-accessible too. `PD_PRESENT(0)` is 0, with the P bit clear |
| MemoryLayout.DirectorySpansOneTable | kernel/include/memory/memory.h:10-14 | one directory entry covers exactly the 1024 pages of one table: 0x400000 bytes |
| MemoryLayout.EntrySplits | kernel/src/memory/memory.cpp:115 | `physical \| flags`, built from a page-aligned address and flags below 4096, keeps the frame in bits 12-31 and the flags in bits 0-11 |
| Bits.ShiftRightOneStep | kernel/src/memory/memory.cpp:159 | shifting right by one, `n + 1` times, is shifting by `n + 1`; bit `j` of `w >> n` is bit `j + n` of `w`, or a zero shifted in |
| Bits.FitsAtMeans | kernel/src/memory/memory.cpp:152 | `((w >> b) & ((1 << k) - 1)) == 0` holds iff bits `b` to `b + k - 1` of `w` are clear, counting only bits inside the word |
| Memory.Walk | kernel/src/memory/memory.cpp:61-68 | the record offsets the walk visits: each is below `mmap_length`, the first is the start, and the successor of the last is at or past the end |
| Memory.WalkFollowsRecords | kernel/src/memory/memory.cpp:67 | each visited record starts `size + 4` bytes after the one before |
| Memory.MaxMemoryFromNoLowRecord | kernel/src/memory/memory.cpp:59-70 | a walk that meets no record at 0x100000 settles on 0 |
| Memory.MaxMemoryFromFirstLowRecord | kernel/src/memory/memory.cpp:59-70 | a walk settles on `addr + len`, truncated to 32 bits, of the first record it meets at 0x100000 |
| Memory.MaxMemoryIsFirstLowRegion | kernel/src/memory/memory.cpp:59-70 | the bound is `(uint32_t)(addr + len)` of the first record with `addr == 0x100000`, or 0 when there is none |
| Memory.GetMaxMemory | kernel/src/memory/memory.cpp:50-71 | the loop returns that bound. Its invariant is that the bound from the current record equals the bound from the first |
| Memory.GetPageDirectoryIndex | kernel/src/memory/memory.cpp:73-76 | the result is the directory whose 4 MiB hold `va`, below 1024 |
| Memory.GetPageTableIndex | kernel/src/memory/memory.cpp:78-81 | the result is the page whose 4 KiB hold `va`, below 1024 * 1024 |
| Memory.RoundToNextPageSize | kernel/src/memory/memory.cpp:127-131 | the result is a multiple of PAGE_SIZE. It is `size` itself when `size` is already one. Otherwise `size <= r < size + PAGE_SIZE`, except that a size in the last page of the 4 GiB space wraps to 0 |
| Memory.BitmapSlot | kernel/src/memory/memory.cpp:104-106 | the word and bit `SetPageInBitmap` touches are word `p / 32` and bit `p % 32` of the page `p` holding `va` |
| Memory.MarkPageChangesOnePage | kernel/src/memory/memory.cpp:101-111 | marking `va` sets (allocated) or clears the bit of the page holding `va`; every other page's bit is unchanged |
| Memory.SetThenClearPage | kernel/src/memory/memory.cpp:113-125 | setting and then clearing the same `va` leaves that page free and every other page as it was |
| Memory.PagesMask | kernel/src/memory/memory.cpp:136-137 | `(1 << neededPages) - 1` has bit `j` set iff `j` is below the page count taken mod 32, the shift count the i386 `shl` uses |
| Memory.FirstFitInWordIsLeast | kernel/src/memory/memory.cpp:150-161 | the bit the inner loop stops at passes the window test, is below 32, and no earlier bit passes it |
| Memory.FirstFitIsLeast | kernel/src/memory/memory.cpp:140-163 | the (group, bit) the search picks is in a group below `maxGroups` that is not all ones and passes the test there. It is the lexicographically least pair that does. It finds nothing only when no pair passes |
| Memory.FirstFitRunIsFree | kernel/src/memory/memory.cpp:136-159 | at the chosen position, the `neededPages % 32` pages from the chosen bit are free, as far as they lie inside the group. Pages past bit 31 are not looked at |
| Memory.PageBitInGroup | kernel/src/memory/memory.cpp:155 | page `group * 32 + bit` is bit `bit` of word `group` |
| Memory.MultiPageRunMarksOnlyItsFirstPage | kernel/src/memory/memory.cpp:155-157 | on an empty bitmap a two-page request gets page 0, and a one-page request after it gets page 1, which lies inside the first run |
| Memory.ZeroSizeRequestTakesAnyPage | kernel/src/memory/memory.cpp:136-137 | a zero-byte request has an empty mask, so it gets bit 0 of the first group that is not full, whichever group that is, even when that page is in use |
| Memory.KernelPages | kernel/src/memory/memory.cpp:30-42 | the identity-mapped pages end at the end of the bookkeeping arrays placed after `__kernel_end`, at most all pages |
| Memory.InitPageDirectoryClearsWrongWords | kernel/src/memory/memory.cpp:96-98 | as written, directory `d` clears bitmap words from `1024 * d`, not `32 * d`. From directory 32 on this is past the bitmap, and word 32 is never cleared |
| Memory.ClearBitmapAsWritten | kernel/src/memory/memory.cpp:96-98 | the bitmap after the as-written clear of one directory: the 32 words from `va / PAGE_SIZE` that lie inside the bitmap become zero, and every other word keeps its value |
| Memory.InitBitmapAsWritten | kernel/src/memory/memory.cpp:38-39 | the bitmap after the first loop of `Init` as written: over `n` directories, the first 32 words of each 1024-word block below `1024 * n` are zero |
| Memory.InitBitmapAsWrittenKeepsStaleWords | kernel/src/memory/memory.cpp:96-98 | as written, the first loop of `Init` leaves every bitmap word whose index is 32 or more past a multiple of 1024 (word 32, words 1056-2047, ...) as it was, so those pages keep whatever bits the memory held |
| Memory.PageOfPageAddress | kernel/src/memory/memory.cpp:42-43 | the page index of `k * PAGE_SIZE` is `k` |
| Memory.DirectoryOfDirectoryAddress | kernel/src/memory/memory.cpp:38-39 | the directory index of `d * DIRECTORY_SIZE` is `d` |
| Memory.ScanGroup | kernel/src/memory/memory.cpp:145-161 | the shift loop over one group returns the first passing bit, as `FirstFitInWord` defines it, or none after 32 shifts |
| Memory.PageManager.constructor | kernel/src/memory/memory.cpp:12-18 | the directory (1024 entries), the tables (1024 * 1024 entries) and the bitmap (32768 words) are distinct storage |
| Memory.PageManager.SetPageInBitmap | kernel/src/memory/memory.cpp:101-111 | the new bitmap is the old one with the page of `va` marked or freed |
| Memory.PageManager.SetPage | kernel/src/memory/memory.cpp:113-118 | entry `va / PAGE_SIZE` becomes `physical \| flags` and no other entry changes; the page is marked |
| Memory.PageManager.ClearPage | kernel/src/memory/memory.cpp:120-125 | entry `va / PAGE_SIZE` becomes not-present and no other entry changes; the page is freed |
| Memory.PageManager.InitPageDirectory | kernel/src/memory/memory.cpp:83-99 | the 1024 entries of table `d` become not-present. Directory entry `d` points at table `d` with the user flags. The 32 bitmap words of the directory's pages are cleared, from the corrected start `32 * d` (see Findings). Nothing else changes |
| Memory.PageManager.AllocatePage | kernel/src/memory/memory.cpp:133-167 | with a fit: the address is `(group * 32 + bit) * PAGE_SIZE` of the least fitting pair, exactly that entry becomes `address \| KERNEL_PAGE`, and exactly that page is marked. With no fit: `0xFFFFFFFF` is returned and the tables and bitmap are unchanged |
| Memory.PageManager.Init | kernel/src/memory/memory.cpp:22-48 | `maxPages` and `maxGroups` come from the memory-map bound. Every directory entry points at its table. The pages up to the end of the bookkeeping are identity-mapped as kernel pages and marked; every other page is not present and, with the corrected bitmap clear, free |
| Memory.PageManager.InitAllDirectories | kernel/src/memory/memory.cpp:38-39 | every directory entry points at its table, every table entry is not present, and, with the corrected bitmap clear, every bitmap word is cleared |
| Memory.PageManager.IdentityMapKernel | kernel/src/memory/memory.cpp:42-43 | page `k` below the kernel page count maps to `k * PAGE_SIZE \| KERNEL_PAGE` and is marked; the other entries stay not present, and the other pages keep the bit they had before the loop, stale or not |
| Multitask.IsKernelAsCompared | kernel/src/multitask/multitask.cpp:24 | `bKernel` as the source computes it: the task type compared with the page flag `KERNEL_PAGE`. It has no contract of its own; `NoTaskIsMarkedKernel` states what it yields |
| Multitask.NoTaskIsMarkedKernel | kernel/src/multitask/multitask.cpp:24-26 | `type == KERNEL_PAGE` holds for no task type, so `bKernel` is always false and every image size is rounded |
| Multitask.DataSelector | kernel/src/multitask/multitask.cpp:46 | the data and stack selector has RPL 0 for a kernel task (0x10) and RPL 3 for a user task (0x23) |
| Multitask.CodeSelector | kernel/src/multitask/multitask.cpp:49 | the code selector has RPL 0 for a kernel task (0x08) and RPL 3 for a user task (0x1B) |
| Multitask.InitialFrame | kernel/src/multitask/multitask.cpp:46-64 | the 17 words the pushes of `CreateTask` leave, lowest address first; `InitialFrameLayout` gives each word's meaning |
| Multitask.InitialFrameLayout | kernel/src/multitask/multitask.cpp:46-64 | the frame is 17 words. Its top five enter the task at `entry` with esp at the stack top, at the task's ring. Below them are six cleared registers, then ebp (the stack top), eflags, and the four data selectors |
| Multitask.UserTaskMapping | kernel/src/multitask/multitask.cpp:98-101 | one request per whole page of the image: `location + i * PAGE_SIZE` to `0x40000000 + i * PAGE_SIZE`, as a user page |
| Multitask.UserTaskMappingCoversImage | kernel/src/multitask/multitask.cpp:98-101 | for a page-multiple size, the requests cover the image exactly, and their virtual pages are distinct and page-aligned |
| Multitask.RoundImageSize | kernel/src/multitask/multitask.cpp:29-33 | the stored size is the memory manager's rounding: a page multiple, `size` itself when already one, otherwise `size <= r < size + PAGE_SIZE`, except that a size in the last page of the 4 GiB space wraps to 0 |
| Multitask.Task.constructor | kernel/src/multitask/multitask.cpp:22-38 | a fresh control block with cleared links, and `pStack` at the stack top of a fresh one-page stack |
| Multitask.LinkedNext | kernel/src/multitask/multitask.cpp:67-75 | in the linked list, the next link of the task at position `k` is the task at the next position of the cycle, the first after the last |
| Multitask.AdvanceWraps | kernel/src/multitask/multitask.cpp:135-138 | `m <= n` ticks from position `k` land at `k + m`, less `n` once the last position is passed |
| Multitask.RoundRobinVisitsEveryTask | kernel/src/multitask/multitask.cpp:104-145 | `n` consecutive ticks from any task visit each of the `n` tasks exactly once, and the next tick returns to the start |
| Multitask.Scheduler.constructor | kernel/src/multitask/multitask.cpp:8-14 | no tasks, nothing current, scheduling disabled |
| Multitask.Scheduler.EnableScheduler | kernel/src/multitask/multitask.cpp:90 | sets the enable flag and changes nothing else |
| Multitask.Scheduler.DisableScheduler | kernel/src/multitask/multitask.cpp:91 | clears the enable flag and changes nothing else |
| Multitask.Scheduler.CreateTask | kernel/src/multitask/multitask.cpp:19-86 | the task list grows by the new task at the end of creation order and stays one cycle; the task is the new head, its prev is the old head and its next is the tail. The tasks already in the list keep every field but the old head's next link. The name is cut to 32 characters. The size is rounded. `pStack` is 17 words below `stackBase + 4096 - 16`, and the words between hold the initial frame. Nothing else changes |
| Multitask.Scheduler.NewTask | kernel/src/multitask/multitask.cpp:22-64 | a fresh control block with cleared links. The name is cut to 32 characters. The size is rounded. `pStack` is 17 words below `stackBase + 4096 - 16`, and the words between hold the initial frame |
| Multitask.Scheduler.LinkAsHead | kernel/src/multitask/multitask.cpp:66-75 | linking keeps the list one cycle in creation order: the new task is head with prev the old head; the tail is set on the first creation only; the count grows by one |
| Multitask.Scheduler.PushFrame | kernel/src/multitask/multitask.cpp:45-64 | after the 17 pushes, `pStack` is 17 words below the stack top and the stack holds exactly the initial frame |
| Multitask.Scheduler.PushIretFrame | kernel/src/multitask/multitask.cpp:46-50 | pushes ss, esp, eflags, cs and eip, leaving the words above untouched |
| Multitask.Scheduler.PushGeneralRegisters | kernel/src/multitask/multitask.cpp:51-56 | pushes six zero registers, leaving the words above untouched |
| Multitask.Scheduler.PushSavedRegisters | kernel/src/multitask/multitask.cpp:57-64 | pushes ebp, eflags, ds, fs, es and gs, leaving the words above untouched |
| Multitask.Scheduler.MapNewUserTask | kernel/src/multitask/multitask.cpp:93-102 | the requests made are exactly the image's page mapping, in order; nothing else changes |
| Multitask.Scheduler.OnMultitaskPIT | kernel/src/multitask/multitask.cpp:104-145 | with no tasks or scheduling off, the jump flag is cleared and nothing else changes. With one task already running, nothing changes. With nothing running, the first task created starts, with no old stack. Otherwise the task after the current one in the cycle starts, the old stack is the current task's, and a user task's image is mapped. The list is unchanged |
| Multitask.Scheduler.SwitchTo | kernel/src/multitask/multitask.cpp:112-116 | the new task becomes current, the two stack cells point at the old and new tasks, a user task's image is mapped, and the jump flag is set |
| Elf.HeaderChecksAsWritten | kernel/src/multitask/elf.cpp:14-24 | the checks as written. The machine check fails iff the class byte is not EM_386. Every other check fails exactly when the corrected one does, including the data check, which compares with ELFCLASS32, whose value is that of ELFDATA2LSB |
| Elf.HeaderChecksAsWrittenAlwaysFail | kernel/src/multitask/elf.cpp:20-23 | as written, the class byte is compared with both ELFCLASS32 and EM_386, so every file fails a check. A well-formed i386 executable fails exactly the machine check |
| Elf.HeaderChecksAcceptExactlyI386Executables | kernel/src/multitask/elf.cpp:14-24 | the checks, with the machine check reading `e_machine`, all pass iff the file has the ELF magic, 32-bit class, little-endian data, the current version, machine EM_386 and type ET_EXEC. A bad first magic byte is reported first |
| Elf.ProgramHeaders | kernel/src/multitask/elf.cpp:27-30 | exactly `e_phnum` entries are read, 32 bytes apart, from `e_phoff` on |
| Elf.CopiedContents | kernel/src/multitask/elf.cpp:36 | after the copy, the `j`th byte after the destination holds `src[j]`, and every address outside the copied range is unchanged |
| Elf.AddressSpace.AllocateMemory | kernel/src/multitask/elf.cpp:35 | the allocation of `size` bytes at `vaddr` with the given flags is recorded, and the bytes land at `vaddr` |
| Elf.AddressSpace.CopyIn | kernel/src/multitask/elf.cpp:36 | the byte-by-byte copy leaves the memory as `Copied` describes |
| Elf.OnlyLoadEntriesCopy | kernel/src/multitask/elf.cpp:32 | entries whose type is not PT_LOAD copy nothing: loading the whole table equals loading its PT_LOAD entries |
| Elf.OnlyLoadEntriesAllocate | kernel/src/multitask/elf.cpp:32-35 | entries whose type is not PT_LOAD allocate nothing |
| Elf.OneAllocationPerLoadEntry | kernel/src/multitask/elf.cpp:35 | each PT_LOAD entry, in table order, makes exactly one allocation of `p_memsz` bytes at `p_vaddr` with the read-only flags |
| Elf.OneSegmentIsCopied | kernel/src/multitask/elf.cpp:35-36 | for a single PT_LOAD segment, its `p_memsz` file bytes from `p_offset` are found byte for byte from `p_vaddr` on. The length copied is `p_memsz`, not `p_filesz` |
| Elf.LoadEntry | kernel/src/multitask/elf.cpp:32-36 | one entry of the walk: a PT_LOAD entry is allocated and copied; any other entry changes nothing |
| Elf.LoadElfProgram | kernel/src/multitask/elf.cpp:8-40 | the failed checks are the header checks in source order, with the machine check corrected (see Findings), then the entry check (`e_entry == USER_PAGING_OFFSET`) after loading. Memory and allocations are those of the PT_LOAD entries in table order, whatever the checks say |
| StdLib.CStringLength | stdlib/src/stdlib.c:7 | the index of the first NUL: every byte before it is non-zero |
| StdLib.Strlen | stdlib/src/stdlib.c:4-9 | returns the index of the first NUL |
| StdLib.Strcmp | stdlib/src/stdlib.c:19-29 | returns 1 iff the two strings agree byte for byte up to and including the NUL, and 0 otherwise |
| StdLib.StringsAgreeUpToNul | stdlib/src/stdlib.c:28 | two strings equal before position `k` and both NUL at `k` are the same string |
| StdLib.StrncpyCountBounds | stdlib/src/stdlib.c:34 | the copy takes at most `maxLength` bytes. It ends with the NUL iff the string fits in `maxLength`, and no earlier copied byte is NUL |
| StdLib.Strncpy | stdlib/src/stdlib.c:31-36 | dest's first `StrncpyCount` bytes become src's, later bytes of dest are unchanged (no padding), and dest is returned |
| StdLib.LowByte | stdlib/src/stdlib.c:43 | `(unsigned char)c` is `c` for 0..255 and `c + 256` for -256..-1 |
| StdLib.Memset | stdlib/src/stdlib.c:38-47 | the first `len` bytes become `(unsigned char)c`. With `len <= 0` nothing changes; bytes past `len` are untouched |
| StdLib.Memcpy | stdlib/src/stdlib.c:49-56 | `dest[i]` is the old `src[i]` for `i < n`, and the rest of dest is unchanged, even when dest and src are one buffer |
| StdLib.WrapMultiply | stdlib/src/stdlib.c:15 | multiplying into a `size_t` and truncating at each step equals truncating the full product |
| StdLib.Pow | stdlib/src/stdlib.c:11-17 | returns `number` to the `power` modulo 2^32, and 1 when `power` is 0 |
| Vectors.FirstIndex | lib/minlib/include/vector.h:65-67 | the first position holding `x`: none before it holds `x` |
| Vectors.RemoveFirstTakesOneOut | lib/minlib/include/vector.h:49-61 | removing the first occurrence takes out exactly one copy of the element and keeps the rest |
| Vectors.RemoveFirstUndoesPush | lib/minlib/include/vector.h:22-61 | popping an element that was pushed last, and appears nowhere else, gives back the elements from before the push |
| Vectors.ShiftDownAsWritten | lib/minlib/include/vector.h:57-58 | the shift loop as written from `i` while `i < length`. It reads past the storage iff the loop runs and `length` is at least the number of slots. Otherwise slot `k` in `i .. length - 1` takes slot `k + 1` and every other slot keeps its value |
| Vectors.ShiftDownAsWrittenOverrunsFullVector | lib/minlib/include/vector.h:57-58 | as written, the shift loop of a full vector reads slot `Length()`, past the storage, for every element popped |
| Vectors.Vector.constructor | lib/minlib/include/vector.h:12-20 | `Vector(n)` has length `n` and capacity `n`; `Vector(0)` has length 0 and capacity 2 |
| Vectors.Vector.Length | lib/minlib/include/vector.h:78 | the number of elements |
| Vectors.Vector.Get | lib/minlib/include/vector.h:73-76 | below the length, slot `index` is the element at `index` |
| Vectors.Vector.Push | lib/minlib/include/vector.h:22-47 | the elements become the old ones plus `value` at the end. A vector with room keeps its storage and capacity. A full one moves to fresh storage of twice the length, keeping its elements in order |
| Vectors.Vector.GetIndex | lib/minlib/include/vector.h:63-71 | returns the first position of `element` below the length, or `0xdeadbeef` when there is none |
| Vectors.Vector.Pop | lib/minlib/include/vector.h:49-61 | the elements become the old ones without the first occurrence of `element`, the later ones moved down in order. The storage and capacity are kept |

## Left out

- `NUM_TABLES`, used at memory.cpp:31-32 and 89-90, is not defined in memory.h, which defines `NUM_PAGES` as 1024. The model takes `NUM_TABLES` to be 1024 too: one table of 1024 entries per directory.
- The ELF constants and the `Elf32_Ehdr`/`Elf32_Phdr` layouts come from `multitask/elf.h`, which is not part of this model. The model takes the values and field offsets of the TIS ELF Specification 1.2.
- Hardware effects are not modelled:
  - `CPU::LoadPageDirectories`, `CPU::EnablePaging` and `CPU::FlushTLB` (memory.cpp);
  - the `pushf` read of the flags, which `CreateTask` takes as the parameter `eflags`.
- Console output is not modelled: the `VGA_printf` logging, the UART output of the kernel's `assert`, and `error` in stdlib.c. A failed ELF check is the `ElfCheck` entry it would log.
- `kmalloc` is not modelled.
  - The control block is a fresh `Task`.
  - The stack block is a fresh array whose address is the parameter `stackBase`.
  - The source relies on the fresh block having a null next link. The model gives every fresh block cleared links.
  - The flags argument to `kmalloc` is left out.
- The 4-argument `AllocatePage` called by `MapNewUserTask` is not part of this model. Its calls are recorded in `pageRequests`, in order, with the physical address, the virtual address and the flags. The fourth argument, the constant `false` (multitask.cpp:100), is not recorded.
- `PageFrame::AllocateMemory` is not part of this model.
  - `AddressSpace.AllocateMemory` records the call and returns `vaddr` as the place the segment's bytes are written.
  - The page-level mapping and any zero fill are not modelled.
- The `strncpy` of the task name is modelled as taking the first 32 characters of the name. Its NUL handling is modelled once, in `StdLib.Strncpy`.
- The `TaskType` enumeration is not part of this model. `KERNEL_TASK` is taken to be 0 and `USER_TASK` 1, their order of declaration.
- The first `CreateTask` writes `oldHead->pNextTask` through a null `oldHead` (multitask.cpp:70). The model skips that write when there is no old head.
- The context switch, the interrupt return path and `SetTSSForMultitasking` are assembly and privilege transitions, and are not modelled. `oldTaskStack` and `newTaskStack` record which task's `pStack` cell they point at.
- Multitask.Scheduler.OnMultitaskPIT: `nTasks` is an unbounded count, so `size_t` wrap-around of the count is not modelled.
- Memory.PagesMask: the mask `(1 << neededPages) - 1` takes the shift count mod 32, as the i386 `shl` does. C leaves shifts by 32 or more undefined.
- Memory.PageManager.Init: the memory map is a byte sequence from `mmap_addr` on. `MapReadable` requires every record that starts before `mmap_length` to be readable up to its `len` field. The source reads them unchecked.
- Memory.PageManager.Init: the source writes the bookkeeping arrays into memory after `__kernel_end`. The model keeps them as three separate arrays, with `tablesAddress` standing for the address of the tables. Aliasing between those arrays and other memory is not modelled.
- Memory.PageManager.AllocatePage: the `assert(false)` on exhaustion only logs, as everywhere in the kernel. The model returns `0xFFFFFFFF`, as the code does next.
- Memory.Walk: the walk steps through the memory map with unbounded offsets. The source adds `size + 4` to a 32-bit pointer and compares it with the 32-bit `mmap_addr + mmap_length` (memory.cpp:61,67). A record whose `size` is 0xFFFFFFFC brings the pointer back to the same record, so the source revisits it forever. The model steps past the end instead. Neither this wrap nor the hang it causes on such a malformed map is modelled.
- Memory.GetMaxMemory: inherits the gap of `Memory.Walk`. On a map with a record that wraps the pointer, the source never returns, while the model returns the bound of the unwrapped walk.
- Memory.PageManager.InitPageDirectory clears the bitmap from the corrected start `32 * d` (see Findings). As written it clears from word `1024 * d`. `Memory.ClearBitmapAsWritten` and `Memory.InitBitmapAsWritten` model that clear as far as the bitmap reaches. For directories 32 and up the source's writes go past the bitmap into the memory that follows it, which is not modelled.
- Memory.PageManager.InitAllDirectories: the clause that every bitmap word is cleared holds for the corrected clear only. As written, words whose index is 32 or more past a multiple of 1024 keep their old contents (`Memory.InitBitmapAsWrittenKeepsStaleWords`).
- Memory.PageManager.Init: the clause that every page past the kernel pages is free holds for the corrected clear only, for the same reason.
- Elf.LoadElfProgram reports the header checks with the machine check corrected (`Elf.HeaderChecks`, see Findings). As written, line 23 compares the class byte with EM_386, so every well-formed i386 file also logs a failed `Machine` check (`Elf.HeaderChecksAsWrittenAlwaysFail`). The load itself does not depend on the checks either way.
- Elf.LoadElfProgram requires the buffer to hold the header, the program-header table and `p_memsz` bytes from `p_offset` for every PT_LOAD entry, because the source reads them without bounds checks. The copy into the address space reads the file as a byte sequence, so aliasing between the buffer and the target is not modelled.
- StdLib.Strncpy and StdLib.Strcmp take the strings they only read as byte sequences. Overlap between `dest` and `src` in `strncpy` is not modelled.
- StdLib.Memcpy: `dest` and `src` are whole arrays, starting at index 0. Overlapping ranges that start at different offsets in one buffer cannot be expressed. For those the source's forward copy smears: with `dest` above `src`, bytes already copied are read again.
- StdLib.Strlen requires the string to lie within the 32-bit address space (its length fits a `size_t`).
- Vectors.Vector.Pop requires the element to be present. With an absent element the source frees `m_pData[0xdeadbeef]`, far outside the storage, and decrements the count anyway. That behaviour is undefined.
- Vectors.Vector: `malloc` and `free` are not modelled.
  - Storage is a fresh array.
  - The elements `Vector(n)` starts with are whatever the fresh storage holds; the model's arrays start with default values.
  - The destructor only frees, so it is left out.
  - Capacities are unbounded, so `size_t` overflow of `2 * m_nElements` is not modelled.
- The helper methods are the source's inline code given names, so that each is proved on its own:
  - `Memory.ScanGroup` is the inner loop of `AllocatePage`;
  - `Memory.PageManager.InitAllDirectories` and `Memory.PageManager.IdentityMapKernel` are the two loops of `Init`;
  - `Multitask.Scheduler.PushFrame` and its three parts are the pushes of `CreateTask`;
  - `Multitask.Scheduler.NewTask` is the part of `CreateTask` before the list is touched;
  - `Multitask.Scheduler.LinkAsHead` is the list part of `CreateTask`;
  - `Multitask.Scheduler.SwitchTo` is the part the switching branches of `OnMultitaskPIT` share;
  - `Elf.LoadEntry` is the body of the program-header loop.

## Findings

| source | as written | input that shows it | evidently intended | confidence | as-written member | corrected member |
|---|---|---|---|---|---|---|
| kernel/src/memory/memory.cpp:97-98 | the bitmap clear of directory `d` starts at word `va / PAGE_SIZE = 1024 * d` | `InitPageDirectory(32 * DIRECTORY_SIZE)` clears words 32768-32799, past the 32768-word bitmap; word 32 (pages 1024-1055) is never cleared | start at word `32 * d`, the directory's first group, as the comment's 32 groups per directory says | high, not executed | Memory.InitPageDirectoryClearsWrongWords | Memory.PageManager.InitPageDirectory |
| kernel/src/multitask/elf.cpp:23 | `e_ident[EI_CLASS]` is compared with `EM_386` | any well-formed i386 executable: its class byte is 1 (ELFCLASS32), not 3, so the machine check always logs a failure | compare `e_machine` with `EM_386` | high, not executed | Elf.HeaderChecksAsWrittenAlwaysFail | Elf.HeaderChecksAcceptExactlyI386Executables |
| lib/minlib/include/vector.h:57-58 | the shift loop runs `i` up to `Length() - 1` and reads `m_pData[i + 1]` | `Vector(0)`, push `a`, push `b` (length 2, capacity 2), then `Pop(a)` reads `m_pData[2]`, past the 2-slot storage | stop the shift at `Length() - 1` | high, not executed | Vectors.ShiftDownAsWrittenOverrunsFullVector | Vectors.Vector.Pop |
