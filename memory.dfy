/** The physical-page manager of the kernel: the multiboot memory-map walk,
    the page directory, the page tables, the allocation bitmap (one bit per
    4 KiB page, 32 pages to a "group") and the first-fit page allocator. */
module Memory {
  import opened Common
  import opened Bits
  import opened MemoryLayout

  /** Entries in one page table. One table is kept per directory entry. */
  const NUM_TABLES: nat := 1024
  /** Page-table entries in all: one per page of the 4 GiB address space. */
  const TABLE_ENTRIES: nat := NUM_TABLES * NUM_DIRECTORIES
  /** 32-bit words of the allocation bitmap: 1024 * 1024 pages / 32. */
  const BITMAP_WORDS: nat := 32768
  /** Bytes reserved after the kernel image for the directory, the tables and
      the bitmap; the identity map covers the kernel up to their end. */
  const BOOKKEEPING_BYTES: nat := 4 * (NUM_DIRECTORIES + TABLE_ENTRIES + BITMAP_WORDS)
  /** The base address `GetMaxMemory` looks for in the memory map (1 MiB). */
  const LOW_MEMORY_BASE: nat := 0x100000
  /** What `AllocatePage` returns when no group has room: `-1` as a `uint32_t`. */
  const ALLOCATION_FAILED: u32 := 0xFFFF_FFFF

  // ---------------------------------------------------------------------
  // The multiboot memory map.
  //
  // `mmap` holds the bytes from `mmap_addr` on; offsets are relative to it.
  // A record is `size` (4 bytes), `addr` (8), `len` (8), `type` (4), and the
  // next record starts `size + 4` bytes further on.
  // ---------------------------------------------------------------------

  /** Every record that starts before `length` can be read up to its `len`. */
  predicate MapReadable(mmap: seq<byte>, length: u32)
  {
    length + 20 <= |mmap|
  }

  function RecordSize(mmap: seq<byte>, off: nat): u32
    requires off + 20 <= |mmap|
  {
    Le32(mmap, off)
  }

  function RecordAddr(mmap: seq<byte>, off: nat): nat
    requires off + 20 <= |mmap|
  {
    Le64(mmap, off + 4)
  }

  function RecordLen(mmap: seq<byte>, off: nat): nat
    requires off + 20 <= |mmap|
  {
    Le64(mmap, off + 12)
  }

  function NextRecord(mmap: seq<byte>, off: nat): nat
    requires off + 20 <= |mmap|
  {
    off + RecordSize(mmap, off) + 4
  }

  /** The offsets of the records the walk visits from `off`, in order: each
      one below `length`, each the successor of the one before, and the
      successor of the last one at or past `length`. */
  function Walk(mmap: seq<byte>, length: u32, off: nat): (w: seq<nat>)
    requires MapReadable(mmap, length)
    ensures off >= length <==> w == []
    ensures |w| > 0 ==> w[0] == off
    ensures forall k :: 0 <= k < |w| ==> off <= w[k] < length
    ensures |w| > 0 ==> NextRecord(mmap, w[|w| - 1]) >= length
    decreases length - off
  {
    if off >= length then [] else [off] + Walk(mmap, length, NextRecord(mmap, off))
  }

  /** Each record the walk visits after the first is the successor of the one
      before it. */
  lemma {:induction false} WalkFollowsRecords(mmap: seq<byte>, length: u32, off: nat, k: nat)
    requires MapReadable(mmap, length)
    requires k + 1 < |Walk(mmap, length, off)|
    ensures Walk(mmap, length, off)[k + 1] == NextRecord(mmap, Walk(mmap, length, off)[k])
    decreases length - off
  {
    if k > 0 {
      WalkFollowsRecords(mmap, length, NextRecord(mmap, off), k - 1);
    }
  }

  /** The end of the region record `off` describes, truncated to 32 bits. */
  function RegionEnd(mmap: seq<byte>, off: nat): u32
    requires off + 20 <= |mmap|
  {
    Wrap32(RecordAddr(mmap, off) + RecordLen(mmap, off))
  }

  function MaxMemoryFrom(mmap: seq<byte>, length: u32, off: nat): u32
    requires MapReadable(mmap, length)
    decreases length - off
  {
    if off >= length then 0
    else if RecordAddr(mmap, off) == LOW_MEMORY_BASE
    then RegionEnd(mmap, off)
    else MaxMemoryFrom(mmap, length, NextRecord(mmap, off))
  }

  /** The upper bound `GetMaxMemory` settles on. */
  function MaxMemory(mmap: seq<byte>, length: u32): u32
    requires MapReadable(mmap, length)
  {
    MaxMemoryFrom(mmap, length, 0)
  }

  /** Record `off` describes the region at `LOW_MEMORY_BASE`. */
  predicate IsLow(mmap: seq<byte>, off: nat)
    requires off + 20 <= |mmap|
  {
    RecordAddr(mmap, off) == LOW_MEMORY_BASE
  }

  /** No record the walk from `off` visits describes the region at
      `LOW_MEMORY_BASE`. */
  predicate NoLowRecord(mmap: seq<byte>, length: u32, off: nat)
    requires MapReadable(mmap, length)
  {
    forall k :: 0 <= k < |Walk(mmap, length, off)| ==> !IsLow(mmap, Walk(mmap, length, off)[k])
  }

  /** The `k`-th record the walk from `off` visits is the first to describe
      the region at `LOW_MEMORY_BASE`. */
  predicate FirstLowRecord(mmap: seq<byte>, length: u32, off: nat, k: nat)
    requires MapReadable(mmap, length)
  {
    && k < |Walk(mmap, length, off)|
    && IsLow(mmap, Walk(mmap, length, off)[k])
    && forall j :: 0 <= j < k ==> !IsLow(mmap, Walk(mmap, length, off)[j])
  }

  /** The walk from `off` settles on 0 when it visits no record at
      `LOW_MEMORY_BASE`. */
  lemma {:induction false} MaxMemoryFromNoLowRecord(mmap: seq<byte>, length: u32, off: nat)
    requires MapReadable(mmap, length) && NoLowRecord(mmap, length, off)
    ensures MaxMemoryFrom(mmap, length, off) == 0
    decreases length - off
  {
    if off < length {
      var next := NextRecord(mmap, off);
      var w, w' := Walk(mmap, length, off), Walk(mmap, length, next);
      assert w == [off] + w';
      assert !IsLow(mmap, w[0]);
      forall j | 0 <= j < |w'|
        ensures !IsLow(mmap, w'[j])
      {
        assert w'[j] == w[j + 1];
      }
      MaxMemoryFromNoLowRecord(mmap, length, next);
    }
  }

  /** The walk from `off` settles on the end of the first record it visits
      at `LOW_MEMORY_BASE`, truncated to 32 bits. */
  lemma {:induction false} MaxMemoryFromFirstLowRecord(mmap: seq<byte>, length: u32, off: nat, k: nat)
    requires MapReadable(mmap, length) && FirstLowRecord(mmap, length, off, k)
    ensures MaxMemoryFrom(mmap, length, off) == RegionEnd(mmap, Walk(mmap, length, off)[k])
    decreases k
  {
    var w := Walk(mmap, length, off);
    if k > 0 {
      var next := NextRecord(mmap, off);
      var w' := Walk(mmap, length, next);
      assert w == [off] + w';
      assert !IsLow(mmap, w[0]);
      forall j | 0 <= j < k - 1
        ensures !IsLow(mmap, w'[j])
      {
        assert w'[j] == w[j + 1];
      }
      assert w'[k - 1] == w[k];
      MaxMemoryFromFirstLowRecord(mmap, length, next, k - 1);
    }
  }

  /** `GetMaxMemory` returns the end of the first region the walk finds at
      `LOW_MEMORY_BASE`, or 0 when there is none. */
  lemma MaxMemoryIsFirstLowRegion(mmap: seq<byte>, length: u32)
    requires MapReadable(mmap, length)
    ensures NoLowRecord(mmap, length, 0) ==> MaxMemory(mmap, length) == 0
    ensures forall k: nat :: FirstLowRecord(mmap, length, 0, k) ==>
      MaxMemory(mmap, length) == RegionEnd(mmap, Walk(mmap, length, 0)[k])
  {
    if NoLowRecord(mmap, length, 0) {
      MaxMemoryFromNoLowRecord(mmap, length, 0);
    }
    forall k: nat | FirstLowRecord(mmap, length, 0, k)
      ensures MaxMemory(mmap, length) == RegionEnd(mmap, Walk(mmap, length, 0)[k])
    {
      MaxMemoryFromFirstLowRecord(mmap, length, 0, k);
    }
  }

  /** `GetMaxMemory`: walks the memory map record by record. */
  method GetMaxMemory(mmap: seq<byte>, length: u32) returns (upperBound: u32)
    requires MapReadable(mmap, length)
    ensures upperBound == MaxMemory(mmap, length)
  {
    var off: nat := 0;
    while off < length
      invariant MaxMemoryFrom(mmap, length, off) == MaxMemory(mmap, length)
      decreases length - off
    {
      if RecordAddr(mmap, off) == LOW_MEMORY_BASE {
        return RegionEnd(mmap, off);
      }
      off := NextRecord(mmap, off);
    }
    return 0;
  }

  // ---------------------------------------------------------------------
  // Indexes and sizes.
  // ---------------------------------------------------------------------

  /** `GetPageDirectoryIndex`: the directory entry whose 4 MiB hold `va`. */
  function GetPageDirectoryIndex(va: u32): (d: nat)
    ensures d < NUM_DIRECTORIES
    ensures d * DIRECTORY_SIZE <= va < d * DIRECTORY_SIZE + DIRECTORY_SIZE
  {
    if va == 0 then 0 else va / DIRECTORY_SIZE
  }

  /** `GetPageTableIndex`: the page that holds `va`, numbered from 0. */
  function GetPageTableIndex(va: u32): (p: nat)
    ensures p < TABLE_ENTRIES
    ensures p * PAGE_SIZE <= va < p * PAGE_SIZE + PAGE_SIZE
  {
    if va == 0 then 0 else va / PAGE_SIZE
  }

  /** `RoundToNextPageSize`: the least multiple of the page size at or above
      `size`; a size in the last page of the 4 GiB space wraps round to 0. */
  function RoundToNextPageSize(size: u32): (r: u32)
    ensures r % PAGE_SIZE == 0
    ensures size % PAGE_SIZE == 0 ==> r == size
    ensures size <= WORD_MODULUS - PAGE_SIZE ==> size <= r < size + PAGE_SIZE
    ensures size > WORD_MODULUS - PAGE_SIZE ==> r == 0
  {
    var remainder := size % PAGE_SIZE;
    if remainder == 0 then size else Wrap32(size + PAGE_SIZE - remainder)
  }

  // ---------------------------------------------------------------------
  // The allocation bitmap.
  // ---------------------------------------------------------------------

  /** Page `p` is marked in use: bit `p % 32` of group `p / 32`. */
  predicate PageBit(bm: seq<Word>, p: nat)
    requires |bm| == BITMAP_WORDS && p < TABLE_ENTRIES
  {
    bm[p / 32][p % 32]
  }

  /** Where `SetPageInBitmap` finds the bit of `va`: the word and the bit of
      the page that holds `va`. */
  function BitmapSlot(va: u32): (slot: (nat, nat))
    ensures slot.0 < BITMAP_WORDS && slot.1 < WORD_BITS
    ensures slot.0 * 32 + slot.1 == GetPageTableIndex(va)
  {
    var nth := if va == 0 then 0 else va / PAGE_SIZE;
    var index := if nth == 0 then 0 else nth / 32;
    (index, nth % 32)
  }

  /** `pageBitmaps[index] |= 1 << remainder`, or `&= ~(1 << remainder)`. */
  function MarkSlot(bm: seq<Word>, index: nat, remainder: nat, inUse: bool): (r: seq<Word>)
    requires index < |bm| && remainder < WORD_BITS
    ensures |r| == |bm|
  {
    bm[index := if inUse then SetBit(bm[index], remainder) else ClearBit(bm[index], remainder)]
  }

  /** The bitmap after `SetPageInBitmap(va, inUse)`. */
  function MarkPage(bm: seq<Word>, va: u32, inUse: bool): (r: seq<Word>)
    requires |bm| == BITMAP_WORDS
    ensures |r| == BITMAP_WORDS
  {
    var slot := BitmapSlot(va);
    MarkSlot(bm, slot.0, slot.1, inUse)
  }

  /** Marking `va` sets or clears the bit of the page holding `va` and leaves
      the bit of every other page as it was. */
  lemma MarkPageChangesOnePage(bm: seq<Word>, va: u32, inUse: bool, p: nat)
    requires |bm| == BITMAP_WORDS && p < TABLE_ENTRIES
    ensures PageBit(MarkPage(bm, va, inUse), p)
         == if p == GetPageTableIndex(va) then inUse else PageBit(bm, p)
  {
    var slot := BitmapSlot(va);
    SamePageIffSameSlot(p, slot.0, slot.1, GetPageTableIndex(va));
    if p / 32 == slot.0 {
      assert MarkPage(bm, va, inUse)[p / 32]
          == if inUse then SetBit(bm[p / 32], slot.1) else ClearBit(bm[p / 32], slot.1);
    } else {
      assert MarkPage(bm, va, inUse)[p / 32] == bm[p / 32];
    }
  }

  lemma SamePageIffSameSlot(p: nat, index: nat, remainder: nat, page: nat)
    requires remainder < 32 && page == index * 32 + remainder
    ensures (p / 32 == index && p % 32 == remainder) <==> p == page
  {
  }

  /** A page set and then cleared is free again; no other page is touched. */
  lemma SetThenClearPage(bm: seq<Word>, va: u32, p: nat)
    requires |bm| == BITMAP_WORDS && p < TABLE_ENTRIES
    ensures PageBit(MarkPage(MarkPage(bm, va, true), va, false), p)
         == (p != GetPageTableIndex(va) && PageBit(bm, p))
  {
    MarkPageChangesOnePage(bm, va, true, p);
    MarkPageChangesOnePage(MarkPage(bm, va, true), va, false, p);
  }

  // ---------------------------------------------------------------------
  // The first-fit search of `AllocatePage`.
  // ---------------------------------------------------------------------

  /** `(1 << neededPages) - 1`, the run of `neededPages` low bits. The shift
      count is taken mod 32, as the i386 `shl` instruction does. */
  function PagesMask(neededPages: u32): (m: Word)
    ensures forall j :: 0 <= j < WORD_BITS ==> (m[j] <==> j < neededPages % 32)
  {
    LowMask(neededPages % 32)
  }

  /** The test the inner loop makes once the group has been shifted right by
      `b`: `(bitmap & pagesAsBinary) == 0`. */
  predicate FitsAt(w: Word, b: nat, mask: Word)
  {
    IsZero(And(Shr(w, b), mask))
  }

  /** The first shift at or after `b` and below 32 at which the test passes. */
  function FirstFitInWord(w: Word, mask: Word, b: nat): Option<nat>
    requires b <= WORD_BITS
    decreases WORD_BITS - b
  {
    if b == WORD_BITS then None
    else if FitsAt(w, b, mask) then Some(b)
    else FirstFitInWord(w, mask, b + 1)
  }

  /** The shift `FirstFitInWord` finds passes the test, and every passing
      shift from `b` on is at or after it. */
  lemma {:induction false} FirstFitInWordIsLeast(w: Word, mask: Word, b: nat)
    requires b <= WORD_BITS
    ensures FirstFitInWord(w, mask, b).Some? ==>
      b <= FirstFitInWord(w, mask, b).value < WORD_BITS && FitsAt(w, FirstFitInWord(w, mask, b).value, mask)
    ensures forall c: nat :: b <= c < WORD_BITS && FitsAt(w, c, mask) ==>
      FirstFitInWord(w, mask, b).Some? && FirstFitInWord(w, mask, b).value <= c
    decreases WORD_BITS - b
  {
    if b < WORD_BITS && !FitsAt(w, b, mask) {
      FirstFitInWordIsLeast(w, mask, b + 1);
    }
  }

  /** Group `g` is searched (it is not full: `pageBitmaps[group] + 1 != 0`)
      and the test passes at bit `b`. */
  predicate Fits(bm: seq<Word>, mask: Word, g: nat, b: nat)
    requires g < |bm|
  {
    !AllSet(bm[g]) && FitsAt(bm[g], b, mask)
  }

  /** The group and bit `AllocatePage` settles on, searching groups from `g`
      in the order of its two loops. */
  function FirstFit(bm: seq<Word>, groups: nat, mask: Word, g: nat): Option<(nat, nat)>
    requires groups <= |bm|
    decreases groups - g
  {
    if g >= groups then None
    else
      var inWord := FirstFitInWord(bm[g], mask, 0);
      if !AllSet(bm[g]) && inWord.Some? then Some((g, inWord.value))
      else FirstFit(bm, groups, mask, g + 1)
  }

  /** The position `FirstFit` finds passes the test in a group that is not
      full, and it is the least passing position from group `g` on: every
      other one lies in a later group, or later in the same group. */
  lemma {:induction false} FirstFitIsLeast(bm: seq<Word>, groups: nat, mask: Word, g: nat)
    requires groups <= |bm|
    ensures FirstFit(bm, groups, mask, g).Some? ==>
      g <= FirstFit(bm, groups, mask, g).value.0 < groups
      && FirstFit(bm, groups, mask, g).value.1 < WORD_BITS
      && Fits(bm, mask, FirstFit(bm, groups, mask, g).value.0, FirstFit(bm, groups, mask, g).value.1)
    ensures forall g': nat, b': nat :: g <= g' < groups && b' < WORD_BITS && Fits(bm, mask, g', b') ==>
      FirstFit(bm, groups, mask, g).Some?
      && (FirstFit(bm, groups, mask, g).value.0 < g'
          || (FirstFit(bm, groups, mask, g).value.0 == g' && FirstFit(bm, groups, mask, g).value.1 <= b'))
    decreases groups - g
  {
    if g < groups {
      FirstFitInWordIsLeast(bm[g], mask, 0);
      if AllSet(bm[g]) || FirstFitInWord(bm[g], mask, 0).None? {
        FirstFitIsLeast(bm, groups, mask, g + 1);
      }
    }
  }

  /** The page of bit `b` of group `g`: `group * 32 + bitCounter`. */
  function GroupPage(g: nat, b: nat): nat
  {
    g * 32 + b
  }

  /** The address of bit `b` of group `g`. */
  function PageAddress(g: nat, b: nat): nat
  {
    GroupPage(g, b) * PAGE_SIZE
  }

  /** Page `g * 32 + i` is bit `i` of group `g`. */
  lemma PageBitInGroup(bm: seq<Word>, g: nat, i: nat)
    requires |bm| == BITMAP_WORDS && g < BITMAP_WORDS && i < WORD_BITS
    ensures GroupPage(g, i) < TABLE_ENTRIES
    ensures PageBit(bm, GroupPage(g, i)) == bm[g][i]
  {
    var p := GroupPage(g, i);
    assert p / 32 == g && p % 32 == i;
  }

  /** What the allocator's test guarantees: the group it picks is not full and
      the `neededPages % 32` pages from the one it picks are free, as far as
      they lie inside that group. Pages past the group's last bit are not
      looked at. */
  lemma FirstFitRunIsFree(bm: seq<Word>, groups: nat, neededPages: u32)
    requires |bm| == BITMAP_WORDS && groups <= BITMAP_WORDS
    requires FirstFit(bm, groups, PagesMask(neededPages), 0).Some?
    ensures FirstFit(bm, groups, PagesMask(neededPages), 0).value.0 < groups
    ensures var (g, b) := FirstFit(bm, groups, PagesMask(neededPages), 0).value;
      !AllSet(bm[g])
      && forall i: nat :: b <= i < WORD_BITS && i < b + neededPages % 32
           ==> !PageBit(bm, GroupPage(g, i))
  {
    FirstFitIsLeast(bm, groups, PagesMask(neededPages), 0);
    var (g, b) := FirstFit(bm, groups, PagesMask(neededPages), 0).value;
    FitsAtMeans(bm[g], b, neededPages % 32);
    forall i: nat | b <= i < WORD_BITS && i < b + neededPages % 32
      ensures !PageBit(bm, GroupPage(g, i))
    {
      PageBitInGroup(bm, g, i);
    }
  }

  /** The bitmap with nothing in use. */
  function EmptyBitmap(): (bm: seq<Word>)
    ensures |bm| == BITMAP_WORDS && forall p :: 0 <= p < TABLE_ENTRIES ==> !PageBit(bm, p)
  {
    seq(BITMAP_WORDS, _ => Zero())
  }

  /** Only the first page of a run is marked: on an empty bitmap a two-page
      request gets page 0, and a one-page request after it gets page 1,
      which is the second page of the first run. */
  lemma MultiPageRunMarksOnlyItsFirstPage()
    ensures FirstFit(EmptyBitmap(), 1, PagesMask(2), 0) == Some((0, 0))
    ensures FirstFit(MarkPage(EmptyBitmap(), PageAddress(0, 0), true), 1, PagesMask(1), 0) == Some((0, 1))
  {
    var bm := EmptyBitmap();
    assert !bm[0][0];
    assert FitsAt(bm[0], 0, PagesMask(2));
    var after := MarkPage(bm, 0, true);
    assert after[0] == SetBit(Zero(), 0);
    assert !after[0][1];
    assert And(Shr(after[0], 0), PagesMask(1))[0];
    assert !FitsAt(after[0], 0, PagesMask(1));
    assert FitsAt(after[0], 1, PagesMask(1));
  }

  /** A request for 0 bytes asks for no pages; its mask is 0, so the test
      passes at bit 0 of the first group that is not full, even when that page
      is already in use. */
  lemma ZeroSizeRequestTakesAnyPage(bm: seq<Word>, groups: nat, g: nat)
    requires groups <= |bm| && g < groups && !AllSet(bm[g])
    requires forall h :: 0 <= h < g ==> AllSet(bm[h])
    ensures FirstFit(bm, groups, PagesMask(RoundToNextPageSize(0) / PAGE_SIZE), 0) == Some((g, 0))
  {
    var mask := PagesMask(RoundToNextPageSize(0) / PAGE_SIZE);
    assert Fits(bm, mask, g, 0);
    FirstFitIsLeast(bm, groups, mask, 0);
    var (g', b') := FirstFit(bm, groups, mask, 0).value;
    assert Fits(bm, mask, g', b');
  }

  // ---------------------------------------------------------------------
  // The directory entries `Init` writes.
  // ---------------------------------------------------------------------

  /** Directory entry `d`: the address of table `d` with the user flags. */
  function DirectoryEntry(tablesAddress: u32, d: nat): bv32
  {
    (Wrap32(tablesAddress + 4 * NUM_TABLES * d) as bv32) | USER_PAGE
  }

  /** The identity-map entry of page `k`: `k * PAGE_SIZE | KERNEL_PAGE`. */
  function IdentityEntry(k: nat): bv32
    requires k < TABLE_ENTRIES
  {
    ((k * PAGE_SIZE) as bv32) | KERNEL_PAGE
  }

  /** The pages the identity map covers: up to the end of the bookkeeping. */
  function KernelPages(kernelEnd: u32): (n: nat)
    ensures n <= TABLE_ENTRIES
  {
    Wrap32(kernelEnd + BOOKKEEPING_BYTES) / PAGE_SIZE
  }

  /** The first bitmap word `InitPageDirectory` clears, as written: the page
      number of the directory's base address. */
  function BitmapClearStartAsWritten(va: u32): nat
  {
    if va == 0 then 0 else va / PAGE_SIZE
  }

  /** As written, the clear of directory `d` starts at word `1024 * d` instead
      of `32 * d`: from directory 32 on it writes past the end of the bitmap,
      and group 32 (pages 1024 to 1055) is never cleared by any directory. */
  lemma InitPageDirectoryClearsWrongWords()
    ensures forall d: nat :: (0 < d < NUM_DIRECTORIES
      ==> BitmapClearStartAsWritten(d * DIRECTORY_SIZE) == 1024 * d != 32 * d)
    ensures forall d: nat :: (32 <= d < NUM_DIRECTORIES
      ==> BitmapClearStartAsWritten(d * DIRECTORY_SIZE) >= BITMAP_WORDS)
    ensures forall d: nat :: (d < NUM_DIRECTORIES
      ==> !(BitmapClearStartAsWritten(d * DIRECTORY_SIZE) <= 32
              < BitmapClearStartAsWritten(d * DIRECTORY_SIZE) + 32))
  {
    forall d: nat | d < NUM_DIRECTORIES
      ensures BitmapClearStartAsWritten(d * DIRECTORY_SIZE) == 1024 * d
    {
      assert d * DIRECTORY_SIZE == (1024 * d) * PAGE_SIZE;
    }
  }

  /** The bitmap after `InitPageDirectory(va)` as written, as far as the
      bitmap reaches: the 32 words from `BitmapClearStartAsWritten(va)` are
      cleared; those past the last word fall outside it. */
  function ClearBitmapAsWritten(bm: seq<Word>, va: u32): (r: seq<Word>)
    ensures |r| == |bm|
    ensures forall k :: 0 <= k < |bm| ==>
      r[k] == if BitmapClearStartAsWritten(va) <= k < BitmapClearStartAsWritten(va) + 32 then Zero() else bm[k]
  {
    seq(|bm|, k requires 0 <= k < |bm| => ClearedFrom(bm[k], k, BitmapClearStartAsWritten(va)))
  }

  /** Word `k` after the 32 words from `start` are cleared. */
  function ClearedFrom(w: Word, k: nat, start: nat): Word
  {
    if start <= k < start + 32 then Zero() else w
  }

  /** The bitmap after the first loop of `Init` as written, over directories
      `0` to `n - 1`. */
  function InitBitmapAsWritten(bm: seq<Word>, n: nat): (r: seq<Word>)
    requires n <= NUM_DIRECTORIES
    ensures |r| == |bm|
    ensures forall k :: 0 <= k < |bm| && k < 1024 * n && k % 1024 < 32 ==> r[k] == Zero()
  {
    if n == 0 then bm
    else
      InitPageDirectoryClearsWrongWords();
      ClearBitmapAsWritten(InitBitmapAsWritten(bm, n - 1), (n - 1) * DIRECTORY_SIZE)
  }

  /** As written, the first loop of `Init` leaves every bitmap word whose
      index is 32 or more past a multiple of 1024 as it was: word 32 (pages
      1024 to 1055) and words 1056 to 2047, among others, keep whatever the
      memory held. */
  lemma {:induction false} InitBitmapAsWrittenKeepsStaleWords(bm: seq<Word>, n: nat, k: nat)
    requires n <= NUM_DIRECTORIES && k < |bm| && k % 1024 >= 32
    ensures InitBitmapAsWritten(bm, n)[k] == bm[k]
  {
    if n > 0 {
      InitPageDirectoryClearsWrongWords();
      InitBitmapAsWrittenKeepsStaleWords(bm, n - 1, k);
      assert BitmapClearStartAsWritten((n - 1) * DIRECTORY_SIZE) == 1024 * (n - 1);
    }
  }

  // ---------------------------------------------------------------------
  // The page manager.
  // ---------------------------------------------------------------------

  /** `va / PAGE_SIZE` of a page's own address is that page. */
  lemma PageOfPageAddress(k: nat)
    requires k < TABLE_ENTRIES
    ensures k * PAGE_SIZE < WORD_MODULUS
    ensures GetPageTableIndex(k * PAGE_SIZE) == k
  {
  }

  /** `va / DIRECTORY_SIZE` of a directory's base address is that directory. */
  lemma DirectoryOfDirectoryAddress(d: nat)
    requires d < NUM_DIRECTORIES
    ensures d * DIRECTORY_SIZE < WORD_MODULUS
    ensures GetPageDirectoryIndex(d * DIRECTORY_SIZE) == d
  {
  }

  /** The inner loop of `AllocatePage`: shifts the group right one bit at a
      time and stops at the first shift where the run of needed pages is
      clear, giving up after 32 shifts. */
  method ScanGroup(group: Word, pagesAsBinary: Word) returns (bitCounter: Option<nat>)
    ensures bitCounter == FirstFitInWord(group, pagesAsBinary, 0)
    ensures bitCounter.Some? ==> bitCounter.value < WORD_BITS
  {
    var bitmap := group;
    var counter: nat := 0;
    ShrZero(group);
    while counter < WORD_BITS
      invariant counter <= WORD_BITS
      invariant bitmap == Shr(group, counter)
      invariant FirstFitInWord(group, pagesAsBinary, counter) == FirstFitInWord(group, pagesAsBinary, 0)
    {
      if IsZero(And(bitmap, pagesAsBinary)) {
        return Some(counter);
      }
      ShiftRightOneStep(group, counter);
      bitmap := ShiftRightOne(bitmap);
      counter := counter + 1;
    }
    return None;
  }

  /** The manager's state: the directory, the tables and the bitmap kept after
      the kernel image, the address of the tables, and the memory bound. */
  class PageManager {
    var pageDirectories: array<bv32>
    var pageTables: array<bv32>
    var pageBitmaps: array<Word>
    /** The address `pageTables` points at. */
    var tablesAddress: u32
    var maxPages: nat
    var maxGroups: nat

    ghost predicate Valid()
      reads this
    {
      && pageDirectories.Length == NUM_DIRECTORIES
      && pageTables.Length == TABLE_ENTRIES
      && pageBitmaps.Length == BITMAP_WORDS
      && pageDirectories != pageTables
      && maxPages < TABLE_ENTRIES
      && maxGroups == maxPages / 32
    }

    /** The storage the linker leaves after the kernel image; its contents are
        whatever memory held until `Init` runs. */
    constructor ()
      ensures Valid() && maxPages == 0
      ensures fresh(pageDirectories) && fresh(pageTables) && fresh(pageBitmaps)
    {
      pageDirectories := new bv32[NUM_DIRECTORIES];
      pageTables := new bv32[TABLE_ENTRIES];
      pageBitmaps := new Word[BITMAP_WORDS](_ => Zero());
      tablesAddress := 0;
      maxPages := 0;
      maxGroups := 0;
    }

    /** `SetPageInBitmap`: sets or clears the bit of the page holding `va`. */
    method SetPageInBitmap(va: u32, inUse: bool)
      requires Valid()
      modifies pageBitmaps
      ensures pageBitmaps[..] == MarkPage(old(pageBitmaps[..]), va, inUse)
    {
      var slot := BitmapSlot(va);
      var index, remainder := slot.0, slot.1;
      if inUse {
        pageBitmaps[index] := SetBit(pageBitmaps[index], remainder);
      } else {
        pageBitmaps[index] := ClearBit(pageBitmaps[index], remainder);
      }
    }

    /** `SetPage`: maps the page of `va` to `physical | flags` and marks it. */
    method SetPage(physical: u32, va: u32, flags: bv32)
      requires Valid()
      modifies pageTables, pageBitmaps
      ensures pageTables[..] == old(pageTables[..])[GetPageTableIndex(va) := (physical as bv32) | flags]
      ensures pageBitmaps[..] == MarkPage(old(pageBitmaps[..]), va, true)
    {
      pageTables[GetPageTableIndex(va)] := (physical as bv32) | flags;
      SetPageInBitmap(va, true);
    }

    /** `ClearPage`: marks the page of `va` not present and frees it. */
    method ClearPage(va: u32)
      requires Valid()
      modifies pageTables, pageBitmaps
      ensures pageTables[..] == old(pageTables[..])[GetPageTableIndex(va) := NOT_PRESENT]
      ensures pageBitmaps[..] == MarkPage(old(pageBitmaps[..]), va, false)
    {
      pageTables[GetPageTableIndex(va)] := NOT_PRESENT;
      SetPageInBitmap(va, false);
    }

    /** `InitPageDirectory`, with the bitmap clear starting at the directory's
        first group (`32 * d`); see `InitPageDirectoryClearsWrongWords` for
        the start as written. Clears the 1024 entries of table `d`, points
        directory entry `d` at it, and frees the 32 groups of its pages. */
    method InitPageDirectory(va: u32)
      requires Valid()
      modifies pageDirectories, pageTables, pageBitmaps
      ensures pageDirectories[..]
           == old(pageDirectories[..])[GetPageDirectoryIndex(va) := DirectoryEntry(tablesAddress, GetPageDirectoryIndex(va))]
      ensures forall k :: 0 <= k < TABLE_ENTRIES ==>
        pageTables[k] == if NUM_TABLES * GetPageDirectoryIndex(va) <= k < NUM_TABLES * GetPageDirectoryIndex(va) + NUM_TABLES
                         then NOT_PRESENT else old(pageTables[k])
      ensures forall k :: 0 <= k < BITMAP_WORDS ==>
        pageBitmaps[k] == if 32 * GetPageDirectoryIndex(va) <= k < 32 * GetPageDirectoryIndex(va) + 32
                          then Zero() else old(pageBitmaps[k])
    {
      var d := GetPageDirectoryIndex(va);
      var base := NUM_TABLES * d;
      for i := 0 to NUM_TABLES
        invariant forall k :: 0 <= k < TABLE_ENTRIES ==>
          pageTables[k] == if base <= k < base + i then NOT_PRESENT else old(pageTables[k])
        invariant pageDirectories[..] == old(pageDirectories[..])
        invariant pageBitmaps[..] == old(pageBitmaps[..])
      {
        pageTables[base + i] := NOT_PRESENT;
      }
      pageDirectories[d] := DirectoryEntry(tablesAddress, d);
      var start := 32 * d;
      for i := 0 to 32
        invariant forall k :: 0 <= k < BITMAP_WORDS ==>
          pageBitmaps[k] == if start <= k < start + i then Zero() else old(pageBitmaps[k])
        invariant pageDirectories[..] == old(pageDirectories[..])[d := DirectoryEntry(tablesAddress, d)]
        invariant forall k :: 0 <= k < TABLE_ENTRIES ==>
          pageTables[k] == if base <= k < base + NUM_TABLES then NOT_PRESENT else old(pageTables[k])
      {
        pageBitmaps[start + i] := Zero();
      }
    }

    /** `AllocatePage`: rounds `size` up to whole pages, searches the groups
        below `maxGroups` for the first position where the run of needed
        pages fits, maps that page to itself as a kernel page, marks it and
        returns its address; returns `ALLOCATION_FAILED` and changes nothing
        when no group has room. */
    method AllocatePage(size: u32) returns (address: u32)
      requires Valid()
      modifies pageTables, pageBitmaps
      ensures var fit := FirstFit(old(pageBitmaps[..]), maxGroups, PagesMask(RoundToNextPageSize(size) / PAGE_SIZE), 0);
        match fit
        case None =>
          address == ALLOCATION_FAILED
          && pageTables[..] == old(pageTables[..]) && pageBitmaps[..] == old(pageBitmaps[..])
        case Some((g, b)) =>
          address == PageAddress(g, b)
          && pageTables[..] == old(pageTables[..])[GetPageTableIndex(address) := (address as bv32) | KERNEL_PAGE]
          && pageBitmaps[..] == MarkPage(old(pageBitmaps[..]), address, true)
    {
      var neededPages := RoundToNextPageSize(size) / PAGE_SIZE;
      var pagesAsBinary := PagesMask(neededPages);
      ghost var bm := pageBitmaps[..];
      var group: nat := 0;
      while group < maxGroups
        invariant group <= maxGroups
        invariant pageBitmaps[..] == bm && pageTables[..] == old(pageTables[..])
        invariant FirstFit(bm, maxGroups, pagesAsBinary, group) == FirstFit(bm, maxGroups, pagesAsBinary, 0)
      {
        if !AllSet(pageBitmaps[group]) {
          var bitCounter := ScanGroup(pageBitmaps[group], pagesAsBinary);
          if bitCounter.Some? {
            address := (group * 32 + bitCounter.value) * PAGE_SIZE;
            SetPage(address, address, KERNEL_PAGE);
            return;
          }
        }
        group := group + 1;
      }
      address := ALLOCATION_FAILED;
    }

    /** `Init`: takes the memory bound from the memory map, places the tables
        after the directory at `kernelEnd`, initialises every directory entry
        with its table, and identity-maps and marks every page up to the end
        of the bookkeeping storage as a kernel page. */
    method Init(mmap: seq<byte>, mmapLength: u32, kernelEnd: u32)
      requires Valid() && MapReadable(mmap, mmapLength)
      modifies this, pageDirectories, pageTables, pageBitmaps
      ensures Valid()
      ensures pageDirectories == old(pageDirectories) && pageTables == old(pageTables)
      ensures pageBitmaps == old(pageBitmaps)
      ensures maxPages == MaxMemory(mmap, mmapLength) / PAGE_SIZE && maxGroups == maxPages / 32
      ensures tablesAddress == Wrap32(kernelEnd + 4 * NUM_DIRECTORIES)
      ensures forall d :: 0 <= d < NUM_DIRECTORIES ==> pageDirectories[d] == DirectoryEntry(tablesAddress, d)
      ensures forall k :: 0 <= k < TABLE_ENTRIES ==>
        pageTables[k] == if k < KernelPages(kernelEnd) then IdentityEntry(k) else NOT_PRESENT
      ensures forall p :: 0 <= p < TABLE_ENTRIES ==>
        PageBit(pageBitmaps[..], p) == (p < KernelPages(kernelEnd))
    {
      var upperBound := GetMaxMemory(mmap, mmapLength);
      maxPages := upperBound / PAGE_SIZE;
      maxGroups := maxPages / 32;
      tablesAddress := Wrap32(kernelEnd + 4 * NUM_DIRECTORIES);

      InitAllDirectories();
      assert forall p :: 0 <= p < TABLE_ENTRIES ==> !PageBit(pageBitmaps[..], p);
      IdentityMapKernel(KernelPages(kernelEnd));
    }

    /** The first loop of `Init`: `InitPageDirectory` on the base address of
        every directory. */
    method InitAllDirectories()
      requires Valid()
      modifies pageDirectories, pageTables, pageBitmaps
      ensures forall d :: 0 <= d < NUM_DIRECTORIES ==> pageDirectories[d] == DirectoryEntry(tablesAddress, d)
      ensures forall k :: 0 <= k < TABLE_ENTRIES ==> pageTables[k] == NOT_PRESENT
      ensures forall k :: 0 <= k < BITMAP_WORDS ==> pageBitmaps[k] == Zero()
    {
      for i := 0 to NUM_DIRECTORIES
        invariant forall d :: 0 <= d < i ==> pageDirectories[d] == DirectoryEntry(tablesAddress, d)
        invariant forall k :: 0 <= k < NUM_TABLES * i ==> pageTables[k] == NOT_PRESENT
        invariant forall k :: 0 <= k < 32 * i ==> pageBitmaps[k] == Zero()
      {
        DirectoryOfDirectoryAddress(i);
        InitPageDirectory(i * DIRECTORY_SIZE);
      }
    }

    /** The second loop of `Init`: maps each of the first `kernelPages` pages
        to itself as a kernel page and marks it, on tables and a bitmap that
        `InitAllDirectories` left empty. */
    method IdentityMapKernel(kernelPages: nat)
      requires Valid() && kernelPages <= TABLE_ENTRIES
      requires forall k :: 0 <= k < TABLE_ENTRIES ==> pageTables[k] == NOT_PRESENT
      modifies pageTables, pageBitmaps
      ensures forall k :: 0 <= k < TABLE_ENTRIES ==>
        pageTables[k] == if k < kernelPages then IdentityEntry(k) else NOT_PRESENT
      ensures forall p :: 0 <= p < TABLE_ENTRIES ==>
        PageBit(pageBitmaps[..], p) == (p < kernelPages || PageBit(old(pageBitmaps[..]), p))
    {
      ghost var initial := pageBitmaps[..];
      for i := 0 to kernelPages
        invariant forall k :: 0 <= k < TABLE_ENTRIES ==>
          pageTables[k] == if k < i then IdentityEntry(k) else NOT_PRESENT
        invariant forall p :: 0 <= p < TABLE_ENTRIES ==>
          PageBit(pageBitmaps[..], p) == (p < i || PageBit(initial, p))
      {
        ghost var before := pageBitmaps[..];
        PageOfPageAddress(i);
        SetPage(i * PAGE_SIZE, i * PAGE_SIZE, KERNEL_PAGE);
        forall p | 0 <= p < TABLE_ENTRIES
          ensures PageBit(pageBitmaps[..], p) == (p < i + 1 || PageBit(initial, p))
        {
          MarkPageChangesOnePage(before, i * PAGE_SIZE, true, p);
        }
      }
    }
  }
}
