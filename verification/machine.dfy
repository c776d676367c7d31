/**
 * The machine services the VM code consumes: physical page frames handed
 * out by alloc_kpages and returned by free_kpages, their contents, the
 * kmalloc heap, and the software-managed TLB.  OS/161's kmalloc serves a
 * page-sized request with alloc_kpages(1) and its kfree with free_kpages,
 * so a second-level page table occupies a frame of the same pool.  Only their interfaces are
 * modelled; an allocation may fail for reasons outside this model, which
 * the methods express by a nondeterministic choice.
 */
module Machine {
  import opened Kern

  /** Contents of one physical page. */
  type Page = seq<bv8>

  predicate PageAligned(p: Word) {
    PageOffset(p) == 0
  }

  /** Contents of the frame at physical address p ([] for a frame never written). */
  function ReadMem(mem: map<Word, Page>, p: Word): Page {
    if p in mem then mem[p] else []
  }

  /** Converting an aligned frame to its kseg0 alias and back keeps it aligned. */
  lemma AlignedAlias(p: Word)
    requires PageAligned(p)
    ensures PageAligned(PaddrToKvaddr(p)) && KvaddrToPaddr(PaddrToKvaddr(p)) == p
  {
    PaddrToKvaddrCases(p);
  }

  class Ram {
    /** Physical frames alloc_kpages may still hand out. */
    var free: set<Word>
    /** Contents of physical frames. */
    var mem: map<Word, Page>
    /** Objects currently allocated with kmalloc and not yet passed to kfree. */
    ghost var heap: set<object>
    /**
     * The frame under each page-sized block kmalloc has handed out; kfree
     * finds it from the block's address.  The record outlives the block,
     * as a pointer to a freed block can.
     */
    var pageOf: map<object, Word>

    ghost predicate Valid()
      reads this
    {
      (forall p :: p in free ==> PageAligned(p))
      && (forall o :: o in pageOf ==> PageAligned(pageOf[o]))
    }

    constructor (frames: set<Word>)
      requires forall p :: p in frames ==> PageAligned(p)
      ensures Valid() && free == frames && mem == map[] && heap == {} && pageOf == map[]
    {
      free := frames;
      mem := map[];
      heap := {};
      pageOf := map[];
    }

    function Read(p: Word): Page
      reads this
    {
      ReadMem(mem, p)
    }

    /**
     * alloc_kpages(1): the kseg0 address of a frame taken from the pool, or
     * 0 when the allocator refuses.
     */
    method AllocKpage() returns (kv: Word)
      requires Valid()
      modifies this
      ensures Valid() && mem == old(mem) && heap == old(heap) && pageOf == old(pageOf)
      ensures kv == 0 ==> free == old(free)
      ensures kv != 0 ==> PageAligned(kv) && KvaddrToPaddr(kv) in old(free)
                          && free == old(free) - {KvaddrToPaddr(kv)}
    {
      kv := 0;
      // the allocator either refuses or hands out some frame of the pool
      var choice: Option<Word> :| choice.None? || choice.value in free;
      if choice.None? {
        return;
      }
      var p := choice.value;
      AlignedAlias(p);
      if PaddrToKvaddr(p) == 0 {
        // this frame has no non-null kseg0 alias, so it cannot be returned
        return;
      }
      free := free - {p};
      kv := PaddrToKvaddr(p);
    }

    /** free_kpages(kv): the frame holding kseg0 address kv returns to the pool. */
    method FreeKpage(kv: Word)
      requires Valid()
      modifies this
      ensures Valid() && mem == old(mem) && heap == old(heap) && pageOf == old(pageOf)
      ensures free == old(free) + {PageBase(KvaddrToPaddr(kv))}
    {
      free := free + {PageBase(KvaddrToPaddr(kv))};
    }

    /** memmove of one page between two kseg0 addresses. */
    method CopyPage(dstKv: Word, srcKv: Word)
      modifies this
      ensures free == old(free) && heap == old(heap) && pageOf == old(pageOf)
      ensures mem == old(mem)[KvaddrToPaddr(dstKv) := old(Read(KvaddrToPaddr(srcKv)))]
    {
      mem := mem[KvaddrToPaddr(dstKv) := Read(KvaddrToPaddr(srcKv))];
    }

    /** Records an object the caller just obtained from kmalloc. */
    ghost method Track(o: object)
      modifies this
      ensures free == old(free) && mem == old(mem) && heap == old(heap) + {o} && pageOf == old(pageOf)
    {
      heap := heap + {o};
    }

    /**
     * kmalloc of a second-level page table (PAGE_TABLE_SIZE words, one
     * page): kmalloc takes a frame from the pool for it, or fails.  Its
     * entries are not initialised.  page is the frame taken.
     */
    method KmallocTable() returns (t: Option<array<Word>>, page: Word)
      requires Valid()
      modifies this
      ensures Valid() && mem == old(mem)
      ensures t.None? ==> free == old(free) && heap == old(heap) && pageOf == old(pageOf)
      ensures t.Some? ==> fresh(t.value) && t.value.Length == PAGE_TABLE_SIZE
                          && heap == old(heap) + {t.value}
                          && page in old(free) && free == old(free) - {page}
                          && pageOf == old(pageOf)[t.value := page]
    {
      page := 0;
      // kmalloc either refuses or backs the table with some frame of the pool
      var choice: Option<Word> :| choice.None? || choice.value in free;
      if choice.None? {
        return None, page;
      }
      page := choice.value;
      var a := new Word[PAGE_TABLE_SIZE];
      free := free - {page};
      heap := heap + {a};
      pageOf := pageOf[a := page];
      t := Some(a);
    }

    /** kfree of a page-sized block: it leaves the heap and its frame returns to the pool. */
    method KfreeTable(t: array<Word>)
      requires Valid() && t in pageOf
      modifies this
      ensures Valid() && mem == old(mem) && pageOf == old(pageOf)
      ensures heap == old(heap) - {t} && free == old(free) + {pageOf[t]}
    {
      heap := heap - {t};
      free := free + {pageOf[t]};
    }

    /** kfree of a small object: it leaves the heap (references to it may remain). */
    method Kfree(o: object)
      modifies this
      ensures free == old(free) && mem == old(mem) && heap == old(heap) - {o} && pageOf == old(pageOf)
    {
      heap := heap - {o};
    }
  }

  /**
   * Whether kmalloc grants a small allocation.  The caller then creates the
   * object; objects that must be tracked are recorded with Ram.Track.
   */
  method Kmalloc() returns (granted: bool)
  {
    granted :| true;
  }

  /** One TLB slot: the EntryHi (virtual page) and EntryLo (frame and flags) words. */
  datatype TlbEntry = TlbEntry(hi: Word, lo: Word)

  /** TLBHI_INVALID(i), (0x80000 + i) << 12: a distinct kseg0 page per slot, which no user access can match. */
  function TlbhiInvalid(i: nat): (hi: Word)
    requires i < NUM_TLB
    ensures PageAligned(hi) && MIPS_KSEG0 <= hi
  {
    (0x8_0000 + i) * PAGE_SIZE
  }

  /** The value as_activate writes into slot i. */
  function InvalidSlot(i: nat): TlbEntry
    requires i < NUM_TLB
  {
    TlbEntry(TlbhiInvalid(i), TLBLO_INVALID)
  }

  /** after is before with exactly one slot overwritten by e. */
  predicate WrittenOnce(before: seq<TlbEntry>, after: seq<TlbEntry>, e: TlbEntry) {
    |after| == |before| && exists i :: 0 <= i < |before| && after[i] == e && after == before[i := e]
  }

  class Tlb {
    const slots: array<TlbEntry>

    ghost predicate Valid()
      reads this
    {
      slots.Length == NUM_TLB
    }

    constructor ()
      ensures Valid() && fresh(slots)
    {
      slots := new TlbEntry[NUM_TLB];
    }

    /** tlb_write(hi, lo, i). */
    method Write(hi: Word, lo: Word, i: nat)
      requires Valid() && i < NUM_TLB
      modifies slots
      ensures slots[..] == old(slots[..])[i := TlbEntry(hi, lo)]
    {
      slots[i] := TlbEntry(hi, lo);
    }

    /** tlb_random(hi, lo): the hardware picks the slot. */
    method Random(hi: Word, lo: Word) returns (i: nat)
      requires Valid()
      modifies slots
      ensures i < NUM_TLB && slots[..] == old(slots[..])[i := TlbEntry(hi, lo)]
      ensures WrittenOnce(old(slots[..]), slots[..], TlbEntry(hi, lo))
    {
      i :| i < NUM_TLB;
      slots[i] := TlbEntry(hi, lo);
    }
  }
}
