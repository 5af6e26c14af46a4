/** The ELF32 program loader: the header checks (TIS ELF Specification 1.2,
    Book I, chapter 1, "ELF Header" and "ELF Identification") and the copy of
    every `PT_LOAD` segment (chapter 2, "Program Header") into an address
    space. The kernel's `assert` only logs, so a failed check does not stop
    the load: the loader reports the checks that failed and loads regardless. */
module Elf {
  import opened Common

  // ---------------------------------------------------------------------
  // Layout and constants of TIS ELF 1.2 used by the loader.
  // ---------------------------------------------------------------------

  const EHDR_SIZE: nat := 52
  /** `sizeof(ElfProgramHeader)`: the stride of the program-header walk. */
  const PHDR_SIZE: nat := 32

  const EI_MAG0: nat := 0
  const EI_MAG1: nat := 1
  const EI_MAG2: nat := 2
  const EI_MAG3: nat := 3
  const EI_CLASS: nat := 4
  const EI_DATA: nat := 5
  const EI_VERSION: nat := 6

  const ELFMAG0: byte := 0x7F
  const ELFMAG1: byte := 0x45  // 'E'
  const ELFMAG2: byte := 0x4C  // 'L'
  const ELFMAG3: byte := 0x46  // 'F'
  const ELFCLASS32: nat := 1
  const ELFDATA2LSB: nat := 1
  const EV_CURRENT: nat := 1
  const EM_386: nat := 3
  const ET_EXEC: nat := 2
  const PT_LOAD: nat := 1

  /** Byte offsets of the `Elf32_Ehdr` fields the loader reads. */
  const E_TYPE: nat := 16
  const E_MACHINE: nat := 18
  const E_ENTRY: nat := 24
  const E_PHOFF: nat := 28
  const E_PHNUM: nat := 44

  /** The buffer holds a whole header. */
  predicate HasHeader(file: seq<byte>)
  {
    EHDR_SIZE <= |file|
  }

  function EType(file: seq<byte>): nat
    requires HasHeader(file)
  {
    Le16(file, E_TYPE)
  }

  function EMachine(file: seq<byte>): nat
    requires HasHeader(file)
  {
    Le16(file, E_MACHINE)
  }

  function EEntry(file: seq<byte>): u32
    requires HasHeader(file)
  {
    Le32(file, E_ENTRY)
  }

  function EPhoff(file: seq<byte>): u32
    requires HasHeader(file)
  {
    Le32(file, E_PHOFF)
  }

  function EPhnum(file: seq<byte>): nat
    requires HasHeader(file)
  {
    Le16(file, E_PHNUM)
  }

  // ---------------------------------------------------------------------
  // Header checks.
  // ---------------------------------------------------------------------

  /** The checks of `LoadElfProgram`, in the order it makes them. */
  datatype ElfCheck =
    | Magic0 | Magic1 | Magic2 | Magic3
    | Class | Data | Version | Machine | ObjectType
    | Entry

  /** What the specification asks of an executable for this kernel: the
      magic, 32-bit objects, little-endian data, the current version, an
      Intel 80386 machine and an executable file. */
  predicate IsI386Executable(file: seq<byte>)
    requires HasHeader(file)
  {
    && file[EI_MAG0] == ELFMAG0 && file[EI_MAG1] == ELFMAG1
    && file[EI_MAG2] == ELFMAG2 && file[EI_MAG3] == ELFMAG3
    && file[EI_CLASS] == ELFCLASS32 && file[EI_DATA] == ELFDATA2LSB
    && file[EI_VERSION] == EV_CURRENT
    && EMachine(file) == EM_386 && EType(file) == ET_EXEC
  }

  /** `[c]` when `ok` fails, and nothing otherwise: one logged assertion. */
  function CheckThat(ok: bool, c: ElfCheck): seq<ElfCheck>
  {
    if ok then [] else [c]
  }

  /** The header checks as written: the machine check compares
      `e_ident[EI_CLASS]`, not `e_machine`, against `EM_386`, and the data
      encoding is compared against `ELFCLASS32` (numerically `ELFDATA2LSB`). */
  function HeaderChecksAsWritten(file: seq<byte>): (r: seq<ElfCheck>)
    requires HasHeader(file)
    ensures Machine in r <==> file[EI_CLASS] != EM_386
    ensures forall c :: c != Machine ==> (c in r <==> c in HeaderChecks(file))
  {
    CheckThat(file[EI_MAG0] == ELFMAG0, Magic0) + CheckThat(file[EI_MAG1] == ELFMAG1, Magic1)
    + CheckThat(file[EI_MAG2] == ELFMAG2, Magic2) + CheckThat(file[EI_MAG3] == ELFMAG3, Magic3)
    + CheckThat(file[EI_CLASS] == ELFCLASS32, Class) + CheckThat(file[EI_DATA] == ELFCLASS32, Data)
    + CheckThat(file[EI_VERSION] == EV_CURRENT, Version) + CheckThat(file[EI_CLASS] == EM_386, Machine)
    + CheckThat(EType(file) == ET_EXEC, ObjectType)
  }

  /** As written, the class check and the machine check test one byte
      against two different values, so every file fails one of them, and a
      well-formed i386 executable fails exactly the machine check. */
  lemma HeaderChecksAsWrittenAlwaysFail(file: seq<byte>)
    requires HasHeader(file)
    ensures HeaderChecksAsWritten(file) != []
    ensures Class in HeaderChecksAsWritten(file) || Machine in HeaderChecksAsWritten(file)
    ensures IsI386Executable(file) ==> HeaderChecksAsWritten(file) == [Machine]
  {
    var r := HeaderChecksAsWritten(file);
    if file[EI_CLASS] == ELFCLASS32 {
      assert Machine in CheckThat(file[EI_CLASS] == EM_386, Machine);
    } else {
      assert Class in CheckThat(file[EI_CLASS] == ELFCLASS32, Class);
    }
  }

  /** The header checks with the machine check reading `e_machine`: the
      checks that fail, in the order they are made. */
  function HeaderChecks(file: seq<byte>): seq<ElfCheck>
    requires HasHeader(file)
  {
    CheckThat(file[EI_MAG0] == ELFMAG0, Magic0) + CheckThat(file[EI_MAG1] == ELFMAG1, Magic1)
    + CheckThat(file[EI_MAG2] == ELFMAG2, Magic2) + CheckThat(file[EI_MAG3] == ELFMAG3, Magic3)
    + CheckThat(file[EI_CLASS] == ELFCLASS32, Class) + CheckThat(file[EI_DATA] == ELFDATA2LSB, Data)
    + CheckThat(file[EI_VERSION] == EV_CURRENT, Version) + CheckThat(EMachine(file) == EM_386, Machine)
    + CheckThat(EType(file) == ET_EXEC, ObjectType)
  }

  /** The corrected checks pass exactly on i386 executables, and a corrupted
      magic number is always reported. */
  lemma HeaderChecksAcceptExactlyI386Executables(file: seq<byte>)
    requires HasHeader(file)
    ensures HeaderChecks(file) == [] <==> IsI386Executable(file)
    ensures file[EI_MAG0] != ELFMAG0 ==> HeaderChecks(file)[0] == Magic0
    ensures forall c :: c in HeaderChecks(file) ==> c != Entry
  {
    if !IsI386Executable(file) {
      assert |HeaderChecks(file)| > 0;
    }
  }

  // ---------------------------------------------------------------------
  // Program headers.
  // ---------------------------------------------------------------------

  /** The `Elf32_Phdr` fields the loader reads. */
  datatype ProgramHeader = ProgramHeader(pType: u32, offset: u32, vaddr: u32, memsz: u32)

  function ReadProgramHeader(file: seq<byte>, off: nat): ProgramHeader
    requires off + PHDR_SIZE <= |file|
  {
    ProgramHeader(Le32(file, off), Le32(file, off + 4), Le32(file, off + 8), Le32(file, off + 20))
  }

  /** The program-header table lies inside the buffer. */
  predicate HasProgramHeaders(file: seq<byte>)
  {
    HasHeader(file) && EPhoff(file) + PHDR_SIZE * EPhnum(file) <= |file|
  }

  /** The `e_phnum` entries of `sizeof(ElfProgramHeader)` bytes each, from
      file offset `e_phoff` on, in ascending order. */
  function ProgramHeaders(file: seq<byte>): (hs: seq<ProgramHeader>)
    requires HasProgramHeaders(file)
    ensures |hs| == EPhnum(file)
  {
    seq(EPhnum(file), i requires 0 <= i < EPhnum(file) => ReadProgramHeader(file, EPhoff(file) + PHDR_SIZE * i))
  }

  /** Every loadable segment can be read from the buffer for `p_memsz` bytes. */
  predicate SegmentsInFile(file: seq<byte>, hs: seq<ProgramHeader>)
  {
    forall i :: 0 <= i < |hs| && hs[i].pType == PT_LOAD ==> hs[i].offset + hs[i].memsz <= |file|
  }

  /** The buffer holds the header, the program-header table and the
      `p_memsz` bytes of every loadable segment: the loader reads them all
      without checking. */
  predicate Loadable(file: seq<byte>)
  {
    HasProgramHeaders(file) && SegmentsInFile(file, ProgramHeaders(file))
  }

  // ---------------------------------------------------------------------
  // The target address space.
  // ---------------------------------------------------------------------

  /** A call `AllocateMemory(size, flags, vaddr)` of the page frame. */
  datatype Allocation = Allocation(size: u32, flags: bv32, vaddr: u32)

  /** `addr` is the byte `Offset(addr, base)` places after `base`, modulo 2^32. */
  function Offset(addr: u32, base: u32): nat
  {
    (addr - base) % WORD_MODULUS
  }

  /** `mem` after `src` is copied byte by byte to `base` on, each address
      taken modulo 2^32. */
  function Copied(mem: map<u32, byte>, base: u32, src: seq<byte>): map<u32, byte>
    decreases |src|
  {
    if src == [] then mem
    else Copied(mem, base, src[..|src| - 1])[At(base, |src| - 1) := src[|src| - 1]]
  }

  /** The address `j` bytes after `base`, modulo 2^32. */
  function At(base: u32, j: nat): u32
  {
    Wrap32(base + j)
  }

  lemma OffsetOfAt(base: u32, j: nat)
    requires j < WORD_MODULUS
    ensures Offset(At(base, j), base) == j
  {
  }

  /** After the copy, the `j`th byte after `base` holds `src[j]`, and every
      address outside the `|src|` bytes from `base` is as before. */
  lemma {:induction false} CopiedContents(mem: map<u32, byte>, base: u32, src: seq<byte>)
    requires |src| <= WORD_MODULUS
    ensures forall j :: 0 <= j < |src| ==>
      At(base, j) in Copied(mem, base, src) && Copied(mem, base, src)[At(base, j)] == src[j]
    ensures forall a: u32 :: Offset(a, base) >= |src| ==>
      (a in Copied(mem, base, src) <==> a in mem) && (a in mem ==> Copied(mem, base, src)[a] == mem[a])
    decreases |src|
  {
    if src != [] {
      var n := |src| - 1;
      var prefix := src[..n];
      CopiedContents(mem, base, prefix);
      OffsetOfAt(base, n);
      forall j | 0 <= j < n
        ensures At(base, j) in Copied(mem, base, src) && Copied(mem, base, src)[At(base, j)] == src[j]
      {
        OffsetOfAt(base, j);
        assert At(base, j) != At(base, n);
        assert prefix[j] == src[j];
      }
    }
  }

  /** The address space the loader maps segments into: `mem` holds the
      bytes written through the pointers `AllocateMemory` returned, and
      `allocations` the calls made to it. */
  class AddressSpace {
    var mem: map<u32, byte>
    var allocations: seq<Allocation>

    constructor ()
      ensures mem == map[] && allocations == []
    {
      mem := map[];
      allocations := [];
    }

    /** `PageFrame::AllocateMemory`: maps `size` bytes at `vaddr` and returns
        the place where the loader writes them. */
    method AllocateMemory(size: u32, flags: bv32, vaddr: u32) returns (data: u32)
      modifies this
      ensures data == vaddr
      ensures allocations == old(allocations) + [Allocation(size, flags, vaddr)]
      ensures mem == old(mem)
    {
      allocations := allocations + [Allocation(size, flags, vaddr)];
      data := vaddr;
    }

    /** `memcpy(data, src, n)` into this address space. */
    method CopyIn(data: u32, src: seq<byte>)
      modifies this
      ensures mem == Copied(old(mem), data, src)
      ensures allocations == old(allocations)
    {
      for i := 0 to |src|
        invariant mem == Copied(old(mem), data, src[..i])
        invariant allocations == old(allocations)
      {
        assert src[..i + 1][..i] == src[..i];
        mem := mem[At(data, i) := src[i]];
      }
      assert src[..|src|] == src;
    }
  }

  // ---------------------------------------------------------------------
  // Loading.
  // ---------------------------------------------------------------------

  /** The effect of one program-header entry on the memory: a loadable
      segment's `p_memsz` bytes from `p_offset` land at `p_vaddr`; any other
      entry does nothing. */
  function LoadSegment(mem: map<u32, byte>, file: seq<byte>, h: ProgramHeader): map<u32, byte>
    requires h.pType == PT_LOAD ==> h.offset + h.memsz <= |file|
  {
    if h.pType != PT_LOAD then mem else Copied(mem, h.vaddr, file[h.offset..h.offset + h.memsz])
  }

  /** The memory after the entries `hs` are processed in order. */
  function LoadAll(mem: map<u32, byte>, file: seq<byte>, hs: seq<ProgramHeader>): map<u32, byte>
    requires SegmentsInFile(file, hs)
    decreases |hs|
  {
    if hs == [] then mem
    else LoadSegment(LoadAll(mem, file, hs[..|hs| - 1]), file, hs[|hs| - 1])
  }

  /** The allocations the entries `hs` request, in order. */
  function Requests(hs: seq<ProgramHeader>, readOnly: bv32): seq<Allocation>
    decreases |hs|
  {
    if hs == [] then []
    else
      var h := hs[|hs| - 1];
      Requests(hs[..|hs| - 1], readOnly)
      + (if h.pType == PT_LOAD then [Allocation(h.memsz, readOnly, h.vaddr)] else [])
  }

  /** The loadable entries of `hs`, in order. */
  function LoadEntries(hs: seq<ProgramHeader>): seq<ProgramHeader>
    decreases |hs|
  {
    if hs == [] then []
    else LoadEntries(hs[..|hs| - 1]) + (if hs[|hs| - 1].pType == PT_LOAD then [hs[|hs| - 1]] else [])
  }

  /** A prefix of the entries reads no segment the whole table does not. */
  lemma SegmentsInFilePrefix(file: seq<byte>, hs: seq<ProgramHeader>, n: nat)
    requires SegmentsInFile(file, hs) && n <= |hs|
    ensures SegmentsInFile(file, hs[..n])
  {
    forall i | 0 <= i < n && hs[..n][i].pType == PT_LOAD
      ensures hs[..n][i].offset + hs[..n][i].memsz <= |file|
    {
      assert hs[..n][i] == hs[i];
    }
  }

  /** Appending a segment that lies in the buffer keeps every segment in it. */
  lemma SegmentsInFileAppend(file: seq<byte>, hs: seq<ProgramHeader>, h: ProgramHeader)
    requires SegmentsInFile(file, hs)
    requires h.pType == PT_LOAD ==> h.offset + h.memsz <= |file|
    ensures SegmentsInFile(file, hs + [h])
  {
    forall i | 0 <= i < |hs| + 1 && (hs + [h])[i].pType == PT_LOAD
      ensures (hs + [h])[i].offset + (hs + [h])[i].memsz <= |file|
    {
      if i < |hs| {
        assert (hs + [h])[i] == hs[i];
      }
    }
  }

  /** Entries that are not `PT_LOAD` copy nothing: loading all entries is
      loading the loadable ones. */
  lemma {:induction false} OnlyLoadEntriesCopy(mem: map<u32, byte>, file: seq<byte>, hs: seq<ProgramHeader>)
    requires SegmentsInFile(file, hs)
    ensures SegmentsInFile(file, LoadEntries(hs))
    ensures LoadAll(mem, file, hs) == LoadAll(mem, file, LoadEntries(hs))
    decreases |hs|
  {
    if hs != [] {
      var init := hs[..|hs| - 1];
      var h := hs[|hs| - 1];
      SegmentsInFilePrefix(file, hs, |hs| - 1);
      assert h.pType == PT_LOAD ==> h.offset + h.memsz <= |file|;
      OnlyLoadEntriesCopy(mem, file, init);
      var le := LoadEntries(hs);
      var li := LoadEntries(init);
      var before := LoadAll(mem, file, init);
      assert LoadAll(mem, file, hs) == LoadSegment(before, file, h);
      if h.pType == PT_LOAD {
        assert le == li + [h];
        SegmentsInFileAppend(file, li, h);
        assert le[..|le| - 1] == li;
        assert LoadAll(mem, file, le) == LoadSegment(LoadAll(mem, file, li), file, h);
      } else {
        assert le == li;
      }
    }
  }

  /** Entries that are not `PT_LOAD` allocate nothing: the allocations are
      those of the loadable entries. */
  lemma {:induction false} OnlyLoadEntriesAllocate(hs: seq<ProgramHeader>, readOnly: bv32)
    ensures Requests(hs, readOnly) == Requests(LoadEntries(hs), readOnly)
    decreases |hs|
  {
    if hs != [] {
      var init := hs[..|hs| - 1];
      var h := hs[|hs| - 1];
      OnlyLoadEntriesAllocate(init, readOnly);
      var le := LoadEntries(hs);
      var li := LoadEntries(init);
      if h.pType == PT_LOAD {
        assert le == li + [h];
        assert le[..|le| - 1] == li;
      } else {
        assert le == li;
      }
    }
  }

  /** Each loadable entry makes exactly one allocation, of its `p_memsz`
      bytes at its `p_vaddr`, in the order of the table. */
  lemma {:induction false} OneAllocationPerLoadEntry(hs: seq<ProgramHeader>, readOnly: bv32)
    ensures |Requests(hs, readOnly)| == |LoadEntries(hs)|
    ensures forall k :: 0 <= k < |LoadEntries(hs)| ==>
      Requests(hs, readOnly)[k] == Allocation(LoadEntries(hs)[k].memsz, readOnly, LoadEntries(hs)[k].vaddr)
    decreases |hs|
  {
    if hs != [] {
      var init := hs[..|hs| - 1];
      var h := hs[|hs| - 1];
      OneAllocationPerLoadEntry(init, readOnly);
      if h.pType == PT_LOAD {
        assert LoadEntries(hs) == LoadEntries(init) + [h];
      }
    }
  }

  /** A file whose one program-header entry is a loadable segment of `N`
      bytes: after loading, those `N` file bytes are found byte for byte
      from the segment's virtual address on. */
  lemma OneSegmentIsCopied(mem: map<u32, byte>, file: seq<byte>, h: ProgramHeader)
    requires h.pType == PT_LOAD && h.offset + h.memsz <= |file|
    ensures forall j :: 0 <= j < h.memsz ==>
      At(h.vaddr, j) in LoadAll(mem, file, [h]) && LoadAll(mem, file, [h])[At(h.vaddr, j)] == file[h.offset + j]
  {
    assert [h][..0] == [];
    CopiedContents(mem, h.vaddr, file[h.offset..h.offset + h.memsz]);
  }

  /** The body of the program-header walk: skips an entry that is not
      `PT_LOAD`, otherwise allocates its `p_memsz` bytes at `p_vaddr` and
      copies as many file bytes from `p_offset` there. */
  method LoadEntry(file: seq<byte>, space: AddressSpace, h: ProgramHeader, readOnly: bv32)
    requires h.pType == PT_LOAD ==> h.offset + h.memsz <= |file|
    modifies space
    ensures space.mem == LoadSegment(old(space.mem), file, h)
    ensures space.allocations == old(space.allocations) + Requests([h], readOnly)
  {
    assert [h][..0] == [];
    if h.pType != PT_LOAD {
      return;
    }
    var data := space.AllocateMemory(h.memsz, readOnly, h.vaddr);
    space.CopyIn(data, file[h.offset..h.offset + h.memsz]);
  }

  /** `LoadElfProgram`: reports the header checks that fail, maps and copies
      every loadable segment whatever they say, then checks the entry point
      against `userPagingOffset`. `readOnly` is `USER_PAGE_READ_ONLY`. */
  method LoadElfProgram(file: seq<byte>, space: AddressSpace, readOnly: bv32, userPagingOffset: u32)
    returns (failed: seq<ElfCheck>)
    requires Loadable(file)
    modifies space
    ensures failed == HeaderChecks(file) + CheckThat(EEntry(file) == userPagingOffset, Entry)
    ensures space.mem == LoadAll(old(space.mem), file, ProgramHeaders(file))
    ensures space.allocations == old(space.allocations) + Requests(ProgramHeaders(file), readOnly)
  {
    failed := HeaderChecks(file);
    ghost var hs := ProgramHeaders(file);
    var phoff := EPhoff(file);
    var phnum := EPhnum(file);
    for i := 0 to phnum
      invariant SegmentsInFile(file, hs[..i])
      invariant space.mem == LoadAll(old(space.mem), file, hs[..i])
      invariant space.allocations == old(space.allocations) + Requests(hs[..i], readOnly)
    {
      var h := ReadProgramHeader(file, phoff + PHDR_SIZE * i);
      assert h == hs[i];
      assert hs[..i + 1][..i] == hs[..i];
      LoadEntry(file, space, h, readOnly);
    }
    assert hs[..phnum] == hs;
    if EEntry(file) != userPagingOffset {
      failed := failed + [Entry];
    }
  }
}
