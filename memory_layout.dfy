/** The paging constants and page-entry flag encoding of the memory manager
    (32-bit paging, section 4.3 of the Intel SDM Vol. 3A: P is bit 0, R/W is
    bit 1, U/S is bit 2 of a page-directory or page-table entry). */
module MemoryLayout {

  /** Bytes covered by one page-directory entry: 4 MiB. */
  const DIRECTORY_SIZE: nat := 0x400000
  /** Bytes in one page: 4 KiB. */
  const PAGE_SIZE: nat := 0x1000
  const NUM_DIRECTORIES: nat := 1024
  const NUM_PAGES: nat := 1024

  /** `PD_PRESENT(x)`: the low bit of `x` placed at bit 0 (P). */
  function PdPresent(x: bv32): (r: bv32)
    ensures r == if x & 1 == 1 then 1 else 0
  {
    x & 1
  }

  /** `PD_READWRITE(x)`: the low bit of `x` placed at bit 1 (R/W). */
  function PdReadWrite(x: bv32): (r: bv32)
    ensures r == if x & 1 == 1 then 2 else 0
  {
    (x & 1) << 1
  }

  /** `PD_GLOBALACCESS(x)`: the low bit of `x` placed at bit 2 (U/S). */
  function PdGlobalAccess(x: bv32): (r: bv32)
    ensures r == if x & 1 == 1 then 4 else 0
  {
    (x & 1) << 2
  }

  /** Present, writable, supervisor-only. */
  const KERNEL_PAGE: bv32 := PdPresent(1) | PdReadWrite(1) | PdGlobalAccess(0)
  /** Present, writable, accessible from ring 3. */
  const USER_PAGE: bv32 := PdPresent(1) | PdReadWrite(1) | PdGlobalAccess(1)
  const USER_DIRECTORY: bv32 := PdPresent(1) | PdReadWrite(1) | PdGlobalAccess(1)
  /** The entry value the table code writes for "not present". */
  const NOT_PRESENT: bv32 := PdPresent(0)

  /** The flag words the kernel uses, and what each says in the SDM's terms. */
  lemma FlagValues()
    ensures KERNEL_PAGE == 3 && USER_PAGE == 7 && USER_DIRECTORY == 7 && NOT_PRESENT == 0
    ensures KERNEL_PAGE & 1 == 1 && KERNEL_PAGE & 2 == 2 && KERNEL_PAGE & 4 == 0
    ensures USER_PAGE & 1 == 1 && USER_PAGE & 2 == 2 && USER_PAGE & 4 == 4
    ensures NOT_PRESENT & 1 == 0
  {
  }

  /** One directory entry spans the pages of one whole page table. */
  lemma DirectorySpansOneTable()
    ensures DIRECTORY_SIZE == NUM_PAGES * PAGE_SIZE
  {
  }

  /** An entry `physical | flags` built from a page-aligned address and flags
      below 4096 keeps the frame address in bits 12..31 and the flags in bits 0..11. */
  lemma EntrySplits(physical: bv32, flags: bv32)
    requires physical & 0xFFF == 0 && flags < 0x1000
    ensures (physical | flags) & 0xFFFF_F000 == physical
    ensures (physical | flags) & 0xFFF == flags
  {
  }
}
