/**
 * The per-process address space of asst3 (kern/vm/addrspace.c): an
 * insertion-ordered list of regions and a two-level page table whose
 * top-level table is one page from alloc_kpages and whose second-level
 * tables come from kmalloc.  An entry of 0 means "no translation".
 */
module AddrSpaces {
  import opened Kern
  import opened Machine
  import opened PageTables

  // ---------------------------------------------------------------------
  // Regions
  // ---------------------------------------------------------------------

  /** struct region: npages pages from vbase, the current writeable flag w and its saved copy. */
  datatype Region = Region(vbase: Word, npages: Word, w: Int32, wReserve: Int32)

  /** vbase + npages * PAGE_SIZE, computed in 32-bit arithmetic. */
  function RegionEnd(r: Region): Word {
    Wrap(r.vbase + r.npages * PAGE_SIZE)
  }

  /** The test vm_fault applies to decide whether address a lies in region r. */
  predicate Contains(r: Region, a: Word) {
    r.vbase <= a < RegionEnd(r)
  }

  /**
   * The region as_define_region records for [vaddr, vaddr + memsize): the
   * base rounded down to a page, the length (grown by the base's offset)
   * rounded up to whole pages, and both flags set to writeable.
   */
  function AlignedRegion(vaddr: Word, memsize: Word, writeable: Int32): Region {
    var size := Wrap(memsize + PageOffset(vaddr));
    var base := PageBase(vaddr);
    var len := PageBase(Wrap(size + PAGE_SIZE - 1));
    Region(base, len / PAGE_SIZE, writeable, writeable)
  }

  /**
   * When the segment, rounded up to a page, fits below 2^32, the aligned
   * region starts on the page of vaddr, ends on the first page boundary at
   * or after vaddr + memsize, contains every address of the segment, and
   * records w == w_reserve == writeable.
   */
  lemma AlignedRegionCovers(vaddr: Word, memsize: Word, writeable: Int32)
    requires vaddr + memsize <= WORD_MODULUS - PAGE_SIZE
    ensures var r := AlignedRegion(vaddr, memsize, writeable);
      PageAligned(r.vbase) && r.vbase <= vaddr < r.vbase + PAGE_SIZE
      && RegionEnd(r) == r.vbase + r.npages * PAGE_SIZE
      && PageAligned(RegionEnd(r))
      && vaddr + memsize <= RegionEnd(r) < vaddr + memsize + PAGE_SIZE
      && (forall a: Word :: vaddr <= a < vaddr + memsize ==> Contains(r, a))
      && r.w == writeable && r.wReserve == writeable
  {
  }

  /** A zero-length segment at a page boundary gives a region of zero pages, which contains no address. */
  lemma ZeroPageRegion(vaddr: Word, writeable: Int32)
    requires PageAligned(vaddr)
    ensures AlignedRegion(vaddr, 0, writeable).npages == 0
    ensures forall a: Word :: !Contains(AlignedRegion(vaddr, 0, writeable), a)
  {
  }

  /** The stack as_define_stack defines: the 16 pages just below USERSTACK, writeable. */
  function StackRegion(): (r: Region)
    ensures r == AlignedRegion(USERSTACK - USERSTACKSIZE, USERSTACKSIZE, 1)
    ensures RegionEnd(r) == USERSTACK && r.npages == 16
  {
    Region(0x7FFF_0000, 16, 1, 1)
  }

  /** The regions as_prepare_load leaves: every region writeable, nothing else changed. */
  function Prepared(rs: seq<Region>): seq<Region> {
    seq(|rs|, i requires 0 <= i < |rs| => rs[i].(w := 1))
  }

  /** The regions as_complete_load leaves: every w restored from w_reserve. */
  function Completed(rs: seq<Region>): seq<Region> {
    seq(|rs|, i requires 0 <= i < |rs| => rs[i].(w := rs[i].wReserve))
  }

  /** Every region's w equals its saved copy, as as_define_region creates it. */
  predicate FlagsSaved(rs: seq<Region>) {
    forall i :: 0 <= i < |rs| ==> rs[i].w == rs[i].wReserve
  }

  /**
   * Loading an executable (prepare, then complete) gives back exactly the
   * regions it started from, and only their flags vary meanwhile.
   */
  lemma LoadRestoresFlags(rs: seq<Region>)
    requires FlagsSaved(rs)
    ensures Completed(Prepared(rs)) == rs
    ensures |Prepared(rs)| == |rs|
    ensures forall i :: 0 <= i < |rs| ==>
              Prepared(rs)[i].w == 1 && Prepared(rs)[i] == rs[i].(w := 1)
  {
    assert forall i :: 0 <= i < |rs| ==> Completed(Prepared(rs))[i] == rs[i];
  }

  // ---------------------------------------------------------------------
  // The TLB flush
  // ---------------------------------------------------------------------

  /** Every TLB slot i holds TLBHI_INVALID(i) and an invalid EntryLo. */
  predicate Flushed(slots: seq<TlbEntry>) {
    |slots| == NUM_TLB && forall i :: 0 <= i < NUM_TLB ==> slots[i] == InvalidSlot(i)
  }

  /**
   * After a flush no slot translates a user address: every EntryLo is
   * invalid, every EntryHi lies in kseg0, and the EntryHi values are
   * pairwise different.
   */
  lemma FlushedMatchesNoUserPage(slots: seq<TlbEntry>, va: Word)
    requires Flushed(slots) && va < MIPS_KSEG0
    ensures forall i :: 0 <= i < NUM_TLB ==> slots[i].lo == TLBLO_INVALID && slots[i].hi != PageBase(va)
    ensures forall i, k :: 0 <= i < k < NUM_TLB ==> slots[i].hi != slots[k].hi
  {
  }

  /** The flush loop of as_activate, as_deactivate and as_complete_load. */
  method FlushTlb(tlb: Tlb)
    requires tlb.Valid()
    modifies tlb.slots
    ensures Flushed(tlb.slots[..])
  {
    var i := 0;
    while i < NUM_TLB
      invariant 0 <= i <= NUM_TLB
      invariant forall k :: 0 <= k < i ==> tlb.slots[k] == InvalidSlot(k)
    {
      tlb.Write(TlbhiInvalid(i), TLBLO_INVALID, i);
      i := i + 1;
    }
  }

  // ---------------------------------------------------------------------
  // The address space
  // ---------------------------------------------------------------------

  class AddrSpace {
    /** page_table: the top-level table; each slot is NULL or a second-level table. */
    const pageTable: array<Option<array<Word>>>
    /** The kseg0 address alloc_kpages returned for the top-level table. */
    var ptPage: Word
    /** first_region and its successors, in list order. */
    var regions: seq<Region>
    /** The contents of the page table. */
    ghost var PT: Table
    ghost var Repr: set<object>

    ghost predicate Valid()
      reads this, Repr
      ensures Valid() ==> WellFormed(PT)
    {
      this in Repr && pageTable in Repr
      && pageTable.Length == PAGE_TABLE_SIZE && |PT| == PAGE_TABLE_SIZE
      && PageAligned(ptPage)
      && (forall i :: 0 <= i < PAGE_TABLE_SIZE ==>
            (pageTable[i].None? <==> PT[i].None?)
            && (pageTable[i].Some? ==>
                  pageTable[i].value in Repr && pageTable[i].value.Length == PAGE_TABLE_SIZE
                  && PT[i].value == pageTable[i].value[..]))
      && (forall i, k ::
            (0 <= i < PAGE_TABLE_SIZE && 0 <= k < PAGE_TABLE_SIZE && i != k
             && pageTable[i].Some? && pageTable[k].Some?) ==> pageTable[i].value != pageTable[k].value)
    }

    /** The struct and its top-level table, before as_create initialises them. */
    constructor ()
      ensures fresh(pageTable) && pageTable.Length == PAGE_TABLE_SIZE
      ensures Repr == {this, pageTable}
    {
      pageTable := new Option<array<Word>>[PAGE_TABLE_SIZE];
      Repr := {this, pageTable};
    }
  }

  lemma PageBaseIsAligned(x: Word)
    ensures PageAligned(PageBase(x)) && PageBase(PageBase(x)) == PageBase(x)
  {
  }

  /** free_kpages(PADDR_TO_KVADDR(e & PAGE_FRAME)) returns exactly the frame entry e names. */
  lemma FreedFrameOfEntry(e: Word)
    ensures PageBase(KvaddrToPaddr(PaddrToKvaddr(Frame(e)))) == Frame(e)
  {
    KvaddrRoundTrip(Frame(e), 0);
    PageBaseIsAligned(e);
  }

  lemma {:induction false} RowFramesAligned(row: seq<Word>, n: nat)
    requires n <= |row|
    ensures forall f :: f in RowFrames(row, n) ==> PageAligned(f)
  {
    if n > 0 {
      RowFramesAligned(row, n - 1);
      PageBaseIsAligned(row[n - 1]);
    }
  }

  lemma {:induction false} TableFramesAligned(pt: Table, n: nat)
    requires WellFormed(pt) && n <= PAGE_TABLE_SIZE
    ensures forall f :: f in TableFrames(pt, n) ==> PageAligned(f)
  {
    if n > 0 {
      TableFramesAligned(pt, n - 1);
      if pt[n - 1].Some? {
        RowFramesAligned(pt[n - 1].value, PAGE_TABLE_SIZE);
      }
    }
  }

  /**
   * as_create: a new address space with every top-level slot NULL and no
   * regions, its top-level table one frame taken from the pool; or NULL
   * with the pool and the heap as they were.
   */
  method AsCreate(ram: Ram) returns (a: AddrSpace?)
    requires ram.Valid()
    modifies ram
    ensures ram.Valid() && ram.mem == old(ram.mem)
    ensures a == null ==> ram.free == old(ram.free) && ram.heap == old(ram.heap)
    ensures a != null ==>
              fresh(a.Repr) && a.Valid() && a.regions == []
              && (forall i :: 0 <= i < PAGE_TABLE_SIZE ==> a.PT[i].None?)
              && KvaddrToPaddr(a.ptPage) in old(ram.free)
              && ram.free == old(ram.free) - {KvaddrToPaddr(a.ptPage)}
              && ram.heap == old(ram.heap) + {a}
  {
    var granted := Kmalloc();
    if !granted {
      return null;
    }
    a := new AddrSpace();
    ram.Track(a);
    var kv := ram.AllocKpage();
    if kv == 0 {
      ram.Kfree(a);
      return null;
    }
    a.ptPage := kv;
    var i := 0;
    while i < PAGE_TABLE_SIZE
      invariant 0 <= i <= PAGE_TABLE_SIZE
      invariant forall k :: 0 <= k < i ==> a.pageTable[k].None?
      invariant ram.Valid() && ram.mem == old(ram.mem)
      invariant ram.free == old(ram.free) - {KvaddrToPaddr(kv)} && ram.heap == old(ram.heap) + {a}
      invariant a.Repr == {a, a.pageTable} && a.ptPage == kv
    {
      a.pageTable[i] := None;
      i := i + 1;
    }
    a.regions := [];
    a.PT := seq(PAGE_TABLE_SIZE, _ => None);
  }

  /**
   * as_destroy: every frame a nonzero entry names and the frame of the
   * top-level table return to the pool, and the struct leaves the heap.
   * The second-level tables are never passed to kfree, so they stay in the
   * heap.  Every frame handed to free_kpages for an entry is page-aligned.
   */
  method AsDestroy(a: AddrSpace, ram: Ram)
    requires a.Valid() && ram.Valid()
    modifies ram
    ensures ram.Valid() && ram.mem == old(ram.mem)
    ensures ram.free == old(ram.free) + Frames(a.PT) + {KvaddrToPaddr(a.ptPage)}
    ensures ram.heap == old(ram.heap) - {a}
    ensures forall f :: f in Frames(a.PT) ==> PageAligned(f)
  {
    TableFramesAligned(a.PT, PAGE_TABLE_SIZE);
    // the region nodes are freed first; they are values here (see README)
    var i := 0;
    while i < PAGE_TABLE_SIZE
      invariant 0 <= i <= PAGE_TABLE_SIZE
      invariant ram.Valid() && ram.mem == old(ram.mem) && ram.heap == old(ram.heap)
      invariant ram.free == old(ram.free) + TableFrames(a.PT, i)
    {
      if a.pageTable[i].Some? {
        var t := a.pageTable[i].value;
        var j := 0;
        while j < PAGE_TABLE_SIZE
          invariant 0 <= j <= PAGE_TABLE_SIZE
          invariant ram.Valid() && ram.mem == old(ram.mem) && ram.heap == old(ram.heap)
          invariant ram.free == old(ram.free) + TableFrames(a.PT, i) + RowFrames(t[..], j)
        {
          if t[j] != 0 {
            FreedFrameOfEntry(t[j]);
            ram.FreeKpage(PaddrToKvaddr(Frame(t[j])));
          }
          j := j + 1;
        }
      }
      i := i + 1;
    }
    // kfree of the page-sized top-level table hands its frame back to the page allocator
    KvaddrToPaddrCases(a.ptPage);
    ram.FreeKpage(a.ptPage);
    ram.Kfree(a);
  }

  /**
   * as_define_region: ENOSYS without an address space, ENOMEM when the
   * region node cannot be allocated (the list is unchanged), otherwise the
   * aligned region appended at the tail of the list.
   */
  method AsDefineRegion(a: AddrSpace?, vaddr: Word, memsize: Word,
                        readable: Int32, writeable: Int32, executable: Int32)
    returns (r: Result<()>)
    modifies a
    ensures a == null ==> r == Err(ENOSYS)
    ensures a != null ==>
              a.PT == old(a.PT) && a.Repr == old(a.Repr) && a.ptPage == old(a.ptPage)
              && (old(a.Valid()) ==> a.Valid())
              && ((r == Err(ENOMEM) && a.regions == old(a.regions))
                  || (r == Ok(()) && a.regions == old(a.regions) + [AlignedRegion(vaddr, memsize, writeable)]))
  {
    if a == null {
      return Err(ENOSYS);
    }
    var granted := Kmalloc();
    if !granted {
      return Err(ENOMEM);
    }
    a.regions := a.regions + [AlignedRegion(vaddr, memsize, writeable)];
    return Ok(());
  }

  /**
   * as_define_stack: on success the 16-page stack region below USERSTACK is
   * appended and the stack pointer is USERSTACK; an error from
   * as_define_region is passed on and no stack pointer is produced.
   */
  method AsDefineStack(a: AddrSpace?) returns (r: Result<Word>)
    modifies a
    ensures a == null ==> r == Err(ENOSYS)
    ensures r.Ok? ==> a != null && r.value == USERSTACK
                      && a.regions == old(a.regions) + [StackRegion()]
    ensures r.Err? && a != null ==> r.err == ENOMEM && a.regions == old(a.regions)
    ensures a != null ==> a.PT == old(a.PT) && a.Repr == old(a.Repr) && a.ptPage == old(a.ptPage)
                          && (old(a.Valid()) ==> a.Valid())
  {
    var res := AsDefineRegion(a, USERSTACK - USERSTACKSIZE, USERSTACKSIZE, 1, 1, 1);
    if res.Err? {
      return Err(res.err);
    }
    return Ok(USERSTACK);
  }

  /** as_prepare_load: every region becomes writeable for loading. */
  method AsPrepareLoad(a: AddrSpace)
    modifies a
    ensures a.regions == Prepared(old(a.regions))
    ensures a.PT == old(a.PT) && a.Repr == old(a.Repr) && a.ptPage == old(a.ptPage)
    ensures old(a.Valid()) ==> a.Valid()
  {
    var k := 0;
    while k < |a.regions|
      invariant 0 <= k <= |a.regions| == |old(a.regions)|
      invariant forall m :: 0 <= m < |a.regions| ==>
                  a.regions[m] == if m < k then old(a.regions[m]).(w := 1) else old(a.regions[m])
      invariant a.PT == old(a.PT) && a.Repr == old(a.Repr) && a.ptPage == old(a.ptPage)
    {
      a.regions := a.regions[k := a.regions[k].(w := 1)];
      k := k + 1;
    }
  }

  /** as_complete_load: every region's w is restored from w_reserve and the TLB is flushed. */
  method AsCompleteLoad(a: AddrSpace, tlb: Tlb)
    requires tlb.Valid()
    modifies a, tlb.slots
    ensures a.regions == Completed(old(a.regions))
    ensures Flushed(tlb.slots[..])
    ensures a.PT == old(a.PT) && a.Repr == old(a.Repr) && a.ptPage == old(a.ptPage)
    ensures old(a.Valid()) ==> a.Valid()
  {
    var k := 0;
    while k < |a.regions|
      invariant 0 <= k <= |a.regions| == |old(a.regions)|
      invariant forall m :: 0 <= m < |a.regions| ==>
                  a.regions[m] == if m < k then old(a.regions[m]).(w := old(a.regions[m]).wReserve)
                                  else old(a.regions[m])
      invariant a.PT == old(a.PT) && a.Repr == old(a.Repr) && a.ptPage == old(a.ptPage)
    {
      a.regions := a.regions[k := a.regions[k].(w := a.regions[k].wReserve)];
      k := k + 1;
    }
    FlushTlb(tlb);
  }

  /** as_activate: no change without a current address space, otherwise every TLB slot invalidated. */
  method AsActivate(cur: AddrSpace?, tlb: Tlb)
    requires tlb.Valid()
    modifies tlb.slots
    ensures cur == null ==> tlb.slots[..] == old(tlb.slots[..])
    ensures cur != null ==> Flushed(tlb.slots[..])
  {
    if cur == null {
      return;
    }
    FlushTlb(tlb);
  }

  /** as_deactivate: the same flush as as_activate. */
  method AsDeactivate(cur: AddrSpace?, tlb: Tlb)
    requires tlb.Valid()
    modifies tlb.slots
    ensures cur == null ==> tlb.slots[..] == old(tlb.slots[..])
    ensures cur != null ==> Flushed(tlb.slots[..])
  {
    if cur == null {
      return;
    }
    FlushTlb(tlb);
  }

  // ---------------------------------------------------------------------
  // as_copy
  // ---------------------------------------------------------------------

  /**
   * The body of the pt2 loop of as_copy for entry j: a nonzero source entry
   * s gets a frame from alloc_kpages holding a copy of its page and an
   * entry with its dirty bit and the valid bit; a zero entry is copied as
   * zero.  pool and mem0 are the free frames and memory when the copy of
   * the whole table began.
   */
  method CopyEntry(s: Word, dst: array<Word>, j: nat, ram: Ram,
                   ghost pool: set<Word>, ghost mem0: map<Word, Page>) returns (ok: bool)
    requires j < dst.Length && ram.Valid()
    requires ram.free <= pool
    requires s != 0 ==> Frame(s) !in pool
    requires forall f :: f !in pool ==> ReadMem(ram.mem, f) == ReadMem(mem0, f)
    modifies dst, ram
    ensures ram.Valid() && ram.heap == old(ram.heap) && ram.pageOf == old(ram.pageOf) && ram.free <= old(ram.free)
    ensures forall f :: f !in old(ram.free) ==> ReadMem(ram.mem, f) == old(ReadMem(ram.mem, f))
    ensures forall k :: 0 <= k < dst.Length && k != j ==> dst[k] == old(dst[k])
    ensures ok ==> CopiedEntry(s, dst[j], pool, ram.free, mem0, ram.mem)
                   && (dst[j] != 0 ==> Frame(dst[j]) in old(ram.free))
                   && ram.free == old(ram.free) - (if dst[j] != 0 then {Frame(dst[j])} else {})
    ensures !ok ==> s != 0 && ram.free == old(ram.free) && dst[j] == old(dst[j])
  {
    if s == 0 {
      dst[j] := 0;
      return true;
    }
    var kv := ram.AllocKpage();
    if kv == 0 {
      return false;
    }
    KvaddrRoundTrip(Frame(s), kv);
    ram.CopyPage(kv, PaddrToKvaddr(Frame(s)));
    dst[j] := MakePte(KvaddrToPaddr(kv), DirtyBits(s));
    return true;
  }

  /**
   * One turn of the pt2 loop: once entry j has been copied from a frame
   * that was free, the first j + 1 entries are a copy with distinct frames,
   * and the free frames are the pool less theirs.
   */
  lemma CopyRowStep(s: seq<Word>, d: seq<Word>, d': seq<Word>, j: nat, pool: set<Word>,
                    free: set<Word>, free': set<Word>,
                    mem0: map<Word, Page>, mem: map<Word, Page>, mem': map<Word, Page>)
    requires j < |s| && j < |d| && j < |d'|
    requires CopiedRow(s, d, j, pool, free, mem0, mem) && DistinctRow(d, j)
    requires free == pool - RowFrames(d, j)
    requires forall k :: 0 <= k < j ==> d'[k] == d[k]
    requires forall f :: f !in free ==> ReadMem(mem', f) == ReadMem(mem, f)
    requires CopiedEntry(s[j], d'[j], pool, free', mem0, mem')
    requires d'[j] != 0 ==> Frame(d'[j]) in free
    requires free' == free - (if d'[j] != 0 then {Frame(d'[j])} else {})
    ensures CopiedRow(s, d', j + 1, pool, free', mem0, mem') && DistinctRow(d', j + 1)
    ensures free' == pool - RowFrames(d', j + 1)
  {
    CopiedRowStep(s, d, d', j, pool, free, free', mem0, mem, mem');
    DistinctRowStep(d, d', j, free);
    RowFramesPrefix(d, d', j);
  }

  /**
   * The pt2 loop of as_copy: each nonzero source entry gets a frame from
   * alloc_kpages, a copy of the source page and an entry with the source's
   * dirty bit; each zero entry stays zero.  Memory changes only in frames
   * taken from the pool.  On a failed allocation the entries from there on
   * are left as they were (kmalloc does not clear them).
   */
  method CopyRow(src: array<Word>, dst: array<Word>, ram: Ram) returns (ok: bool)
    requires src.Length == PAGE_TABLE_SIZE && dst.Length == PAGE_TABLE_SIZE && src != dst
    requires ram.Valid()
    requires RowFrames(src[..], PAGE_TABLE_SIZE) !! ram.free
    modifies dst, ram
    ensures ram.Valid() && ram.heap == old(ram.heap) && ram.pageOf == old(ram.pageOf) && ram.free <= old(ram.free)
    ensures forall f :: f !in old(ram.free) ==> ReadMem(ram.mem, f) == old(ReadMem(ram.mem, f))
    ensures ok ==> CopiedRow(src[..], dst[..], PAGE_TABLE_SIZE, old(ram.free), ram.free, old(ram.mem), ram.mem)
                   && DistinctRow(dst[..], PAGE_TABLE_SIZE)
                   && ram.free == old(ram.free) - RowFrames(dst[..], PAGE_TABLE_SIZE)
    ensures !ok ==> old(ram.free) <= ram.free + RowFrames(dst[..], PAGE_TABLE_SIZE)
  {
    var j := 0;
    while j < PAGE_TABLE_SIZE
      invariant 0 <= j <= PAGE_TABLE_SIZE
      invariant ram.Valid() && ram.heap == old(ram.heap) && ram.pageOf == old(ram.pageOf) && ram.free <= old(ram.free)
      invariant forall f :: f !in old(ram.free) ==> ReadMem(ram.mem, f) == old(ReadMem(ram.mem, f))
      invariant CopiedRow(src[..], dst[..], j, old(ram.free), ram.free, old(ram.mem), ram.mem)
      invariant DistinctRow(dst[..], j)
      invariant ram.free == old(ram.free) - RowFrames(dst[..], j)
    {
      ghost var row, free, mem := dst[..], ram.free, ram.mem;
      if src[j] != 0 {
        RowFramesHas(src[..], PAGE_TABLE_SIZE, j);
      }
      ok := CopyEntry(src[j], dst, j, ram, old(ram.free), old(ram.mem));
      if !ok {
        assert dst[..] == row;
        RowFramesGrow(dst[..], j, PAGE_TABLE_SIZE);
        return false;
      }
      CopyRowStep(src[..], row, dst[..], j, old(ram.free), free, ram.free, old(ram.mem), mem, ram.mem);
      j := j + 1;
    }
    return true;
  }

  /**
   * The present-slot branch of the pt1 loop of as_copy: a second-level
   * table is kmalloc'd on frame page, stored in slot i and filled by
   * CopyRow from frames taken after it.  If kmalloc fails the slot stays
   * NULL and no frame is taken.
   */
  method FillSlot(src: AddrSpace, dst: AddrSpace, i: nat, ram: Ram) returns (ok: bool, page: Word)
    requires src.Valid() && dst.Valid() && ram.Valid()
    requires src.Repr !! dst.Repr
    requires i < PAGE_TABLE_SIZE && src.PT[i].Some? && dst.PT[i].None?
    requires RowFrames(src.PT[i].value, PAGE_TABLE_SIZE) !! ram.free
    modifies dst, dst.pageTable, ram
    ensures dst.Valid() && fresh(dst.Repr - old(dst.Repr))
    ensures dst.regions == old(dst.regions) && dst.ptPage == old(dst.ptPage)
    ensures forall k :: 0 <= k < PAGE_TABLE_SIZE && k != i ==> dst.PT[k] == old(dst.PT[k])
    ensures ram.Valid() && old(ram.heap) <= ram.heap && ram.free <= old(ram.free)
    ensures forall f :: f !in old(ram.free) ==> ReadMem(ram.mem, f) == old(ReadMem(ram.mem, f))
    ensures dst.PT[i].Some? ==> page in old(ram.free) && dst.pageTable[i].Some?
                                && ram.pageOf == old(ram.pageOf)[dst.pageTable[i].value := page]
    ensures ok ==> dst.PT[i].Some?
                   && CopiedRow(src.PT[i].value, dst.PT[i].value, PAGE_TABLE_SIZE,
                                old(ram.free) - {page}, ram.free, old(ram.mem), ram.mem)
                   && DistinctRow(dst.PT[i].value, PAGE_TABLE_SIZE)
                   && ram.free == old(ram.free) - {page} - RowFrames(dst.PT[i].value, PAGE_TABLE_SIZE)
    ensures !ok ==> (dst.PT[i].None? && ram.free == old(ram.free))
                    || (dst.PT[i].Some?
                        && old(ram.free) <= ram.free + RowFrames(dst.PT[i].value, PAGE_TABLE_SIZE) + {page})
  {
    var st := src.pageTable[i].value;
    var ot;
    ot, page := ram.KmallocTable();
    if ot.None? {
      return false, page;
    }
    var t := ot.value;
    // t is fresh and reachable only from here, so filling it before it is
    // linked into slot i leaves the same state as the source's order
    ok := CopyRow(st, t, ram);
    LinkTable(dst, i, t);
  }

  /** new->page_table[pt1] = t: a table no slot holds yet becomes slot i's. */
  method LinkTable(a: AddrSpace, i: nat, t: array<Word>)
    requires a.Valid() && i < PAGE_TABLE_SIZE && a.PT[i].None?
    requires t !in a.Repr && t.Length == PAGE_TABLE_SIZE
    modifies a, a.pageTable
    ensures a.Valid() && a.Repr == old(a.Repr) + {t}
    ensures a.PT == old(a.PT)[i := Some(t[..])] && a.pageTable[i] == Some(t)
    ensures a.regions == old(a.regions) && a.ptPage == old(a.ptPage)
  {
    a.pageTable[i] := Some(t);
    a.PT := a.PT[i := Some(t[..])];
    a.Repr := a.Repr + {t};
  }

  /**
   * One iteration of the pt1 loop of as_copy: an absent source slot is
   * skipped, a present one is copied by FillSlot.  pool and mem0 are the
   * free frames and memory when the copy began; pages holds the frames of
   * the second-level tables made so far, and pages' the same after this
   * slot.
   */
  method CopySlot(src: AddrSpace, dst: AddrSpace, i: nat, ram: Ram,
                  ghost pool: set<Word>, ghost pages: set<Word>, ghost mem0: map<Word, Page>)
    returns (ok: bool, ghost pages': set<Word>)
    requires src.Valid() && dst.Valid() && ram.Valid()
    requires src.Repr !! dst.Repr && i < PAGE_TABLE_SIZE
    requires CopyProgress(src.PT, dst.PT, i, pool, pages, ram.free, mem0, ram.mem)
    requires Frames(src.PT) !! pool
    modifies dst, dst.pageTable, ram
    ensures dst.Valid() && fresh(dst.Repr - old(dst.Repr))
    ensures dst.regions == old(dst.regions) && dst.ptPage == old(dst.ptPage)
    ensures ram.Valid() && old(ram.heap) <= ram.heap
    ensures ok ==> CopyProgress(src.PT, dst.PT, i + 1, pool, pages', ram.free, mem0, ram.mem)
    ensures !ok ==> ram.free <= pool && pages' <= pool && pool <= ram.free + Frames(dst.PT) + pages'
                    && forall f :: f !in pool ==> ReadMem(ram.mem, f) == ReadMem(mem0, f)
  {
    ghost var PT1, free1, mem1 := dst.PT, ram.free, ram.mem;
    if src.pageTable[i].None? {
      pages' := pages;
      CopyProgressStep(src.PT, PT1, dst.PT, i, pool, pages, pages', 0, free1, ram.free, mem0, mem1, ram.mem);
      return true, pages';
    }
    RowFramesInFrames(src.PT, i);
    var page;
    ok, page := FillSlot(src, dst, i, ram);
    pages' := if dst.PT[i].Some? then pages + {page} else pages;
    if !ok {
      TableFramesReturned(pool, pages, pages', free1, ram.free, PT1, dst.PT, i);
      return false, pages';
    }
    CopyProgressStep(src.PT, PT1, dst.PT, i, pool, pages, pages', page, free1, ram.free, mem0, mem1, ram.mem);
  }

  /**
   * The pt1 loop of as_copy: each present source slot gets a kmalloc'd
   * second-level table filled by CopyRow; absent slots stay NULL.  It stops
   * at the first allocation failure.  pages is the set of frames the
   * second-level tables took, one per present source slot on success.
   */
  method CopyTable(src: AddrSpace, dst: AddrSpace, ram: Ram) returns (ok: bool, ghost pages: set<Word>)
    requires src.Valid() && dst.Valid() && ram.Valid()
    requires src.Repr !! dst.Repr
    requires forall i :: 0 <= i < PAGE_TABLE_SIZE ==> dst.PT[i].None?
    requires Frames(src.PT) !! ram.free
    modifies dst, dst.pageTable, ram
    ensures dst.Valid() && fresh(dst.Repr - old(dst.Repr))
    ensures dst.regions == old(dst.regions) && dst.ptPage == old(dst.ptPage)
    ensures ram.Valid() && old(ram.heap) <= ram.heap && ram.free <= old(ram.free)
    ensures forall f :: f !in old(ram.free) ==> ReadMem(ram.mem, f) == old(ReadMem(ram.mem, f))
    ensures pages <= old(ram.free)
    ensures ok ==> CopiedTable(src.PT, dst.PT, old(ram.free), ram.free, old(ram.mem), ram.mem)
                   && DistinctFrames(dst.PT, PAGE_TABLE_SIZE)
                   && pages !! Frames(dst.PT) && |pages| == PresentSlots(src.PT, PAGE_TABLE_SIZE)
                   && ram.free == old(ram.free) - Frames(dst.PT) - pages
    ensures !ok ==> old(ram.free) <= ram.free + Frames(dst.PT) + pages
  {
    pages := {};
    var i := 0;
    while i < PAGE_TABLE_SIZE
      invariant 0 <= i <= PAGE_TABLE_SIZE
      invariant dst.Valid() && fresh(dst.Repr - old(dst.Repr)) && src.Repr !! dst.Repr
      invariant dst.regions == old(dst.regions) && dst.ptPage == old(dst.ptPage)
      invariant ram.Valid() && old(ram.heap) <= ram.heap
      invariant CopyProgress(src.PT, dst.PT, i, old(ram.free), pages, ram.free, old(ram.mem), ram.mem)
    {
      ok, pages := CopySlot(src, dst, i, ram, old(ram.free), pages, old(ram.mem));
      if !ok {
        return false, pages;
      }
      i := i + 1;
    }
    return true, pages;
  }

  /**
   * The region loop of as_copy: each region of rs, in order, is appended
   * to a's list as a new node.  It stops at the first kmalloc failure,
   * leaving a proper prefix of rs; the page table is not touched.
   */
  method CopyRegions(rs: seq<Region>, a: AddrSpace) returns (ok: bool)
    requires a.Valid() && a.regions == []
    modifies a
    ensures a.Valid() && a.PT == old(a.PT) && a.Repr == old(a.Repr) && a.ptPage == old(a.ptPage)
    ensures ok ==> a.regions == rs
    ensures !ok ==> a.regions < rs
  {
    var k := 0;
    while k < |rs|
      invariant 0 <= k <= |rs|
      invariant a.regions == rs[..k]
      invariant a.Valid() && a.PT == old(a.PT) && a.Repr == old(a.Repr) && a.ptPage == old(a.ptPage)
    {
      var granted := Kmalloc();
      if !granted {
        return false;
      }
      a.regions := a.regions + [rs[k]];
      k := k + 1;
    }
    assert rs[..|rs|] == rs;
    return true;
  }

  /**
   * as_copy: a new address space with the same regions in the same order
   * and a page table that copies the source's (CopiedTable: same slots
   * present, same entries nonzero, same dirty bits, frames taken from the
   * free pool holding the source pages), no two of whose entries share a
   * frame (DistinctFrames).  The source is not modified, and memory
   * changes only in frames that were free.  tablePages is the set of
   * frames the new second-level tables took: one per present source slot,
   * apart from the entries' frames and the top-level table's.  Any
   * allocation failure gives ENOMEM after as_destroy of the partial copy,
   * which returns every frame that was free except the frames of the
   * second-level tables made so far, which as_destroy never frees.
   */
  method AsCopy(src: AddrSpace, ram: Ram) returns (r: Result<AddrSpace>, ghost tablePages: set<Word>)
    requires src.Valid() && ram.Valid()
    requires Frames(src.PT) !! ram.free
    modifies ram
    ensures ram.Valid() && old(ram.heap) <= ram.heap
    ensures forall f :: f !in old(ram.free) ==> ReadMem(ram.mem, f) == old(ReadMem(ram.mem, f))
    ensures tablePages <= old(ram.free)
    ensures r.Err? ==> r.err == ENOMEM && old(ram.free) <= ram.free + tablePages
    ensures r.Ok? ==>
              var n := r.value;
              fresh(n.Repr) && n.Valid() && n.regions == src.regions
              && CopiedTable(src.PT, n.PT, old(ram.free), ram.free, old(ram.mem), ram.mem)
              && DistinctFrames(n.PT, PAGE_TABLE_SIZE)
              && KvaddrToPaddr(n.ptPage) in old(ram.free)
              && |tablePages| == PresentSlots(src.PT, PAGE_TABLE_SIZE)
              && tablePages !! Frames(n.PT) && KvaddrToPaddr(n.ptPage) !in tablePages
              && ram.free == old(ram.free) - Frames(n.PT) - {KvaddrToPaddr(n.ptPage)} - tablePages
              && Frames(n.PT) !! ram.free
              && n in ram.heap
  {
    tablePages := {};
    var n := AsCreate(ram);
    if n == null {
      return Err(ENOMEM), tablePages;
    }
    ghost var free0, ptPage0 := ram.free, n.ptPage;
    assert old(ram.free) <= free0 + {KvaddrToPaddr(ptPage0)};
    var ok := CopyRegions(src.regions, n);
    if !ok {
      AsDestroy(n, ram);
      return Err(ENOMEM), tablePages;
    }
    ok, tablePages := CopyTable(src, n, ram);
    if !ok {
      ghost var free2, PT2 := ram.free, n.PT;
      AsDestroy(n, ram);
      assert free0 <= free2 + Frames(PT2) + tablePages;
      assert n.ptPage == ptPage0 && ram.free == free2 + Frames(PT2) + {KvaddrToPaddr(ptPage0)};
      return Err(ENOMEM), tablePages;
    }
    CopiedTableWiden(src.PT, n.PT, free0, old(ram.free), ram.free, old(ram.mem), ram.mem);
    CopiedTableFrames(src.PT, n.PT, old(ram.free), ram.free, old(ram.mem), ram.mem);
    return Ok(n), tablePages;
  }
}
