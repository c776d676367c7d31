/**
 * Value-level view of the two-level page table: the 10/10/12 split of an
 * address into table indices, the page-table entry format, the set of
 * frames a table maps, and what it means for one table to be a copy of
 * another.  The imperative code in AddrSpaces and Vm is specified in
 * these terms.
 */
module PageTables {
  import opened Kern
  import opened Machine

  /** A snapshot of a page table: top-level slots, absent or holding a second-level table. */
  type Table = seq<Option<seq<Word>>>

  // ---------------------------------------------------------------------
  // The index split
  // ---------------------------------------------------------------------

  /** Top-level index, p >> 22: the ten most significant bits of the address. */
  function L1Index(p: Word): (r: nat)
    ensures r < PAGE_TABLE_SIZE
  {
    p / 0x40_0000
  }

  /** Second-level index, (p << 10) >> 22: the next ten bits of the address. */
  function L2Index(p: Word): (r: nat)
    ensures r < PAGE_TABLE_SIZE
  {
    (p % 0x40_0000) / PAGE_SIZE
  }

  /** The two indices, put back in place, give the page number: no bit of it is lost. */
  lemma IndexSplitRecombines(p: Word)
    ensures p / PAGE_SIZE == L1Index(p) * PAGE_TABLE_SIZE + L2Index(p)
  {
  }

  lemma SameIndicesIffSamePage(p: Word, q: Word)
    ensures (L1Index(p) == L1Index(q) && L2Index(p) == L2Index(q)) <==> p / PAGE_SIZE == q / PAGE_SIZE
  {
    IndexSplitRecombines(p);
    IndexSplitRecombines(q);
  }

  lemma Kseg0PageNumber(a: Word)
    ensures KvaddrToPaddr(a) / PAGE_SIZE
            == if a >= MIPS_KSEG0 then a / PAGE_SIZE - 0x8_0000 else a / PAGE_SIZE + 0x8_0000
  {
    KvaddrToPaddrCases(a);
  }

  /**
   * vm_fault indexes the table with KVADDR_TO_PADDR(faultaddress): two fault
   * addresses select the same entry exactly when they lie in the same
   * virtual page.
   */
  lemma SameEntryIffSamePage(a: Word, b: Word)
    ensures (L1Index(KvaddrToPaddr(a)) == L1Index(KvaddrToPaddr(b))
             && L2Index(KvaddrToPaddr(a)) == L2Index(KvaddrToPaddr(b)))
            <==> PageBase(a) == PageBase(b)
  {
    SameIndicesIffSamePage(KvaddrToPaddr(a), KvaddrToPaddr(b));
    Kseg0PageNumber(a);
    Kseg0PageNumber(b);
  }

  // ---------------------------------------------------------------------
  // Entries
  // ---------------------------------------------------------------------

  /** The frame an entry maps, e & PAGE_FRAME. */
  function Frame(e: Word): Word {
    PageBase(e)
  }

  /**
   * e & TLBLO_DIRTY, read off the dirty bit.  The mask keeps bit 10 of e
   * and clears every other bit, which in arithmetic is e's remainder
   * modulo 2^11 less its remainder modulo 2^10.
   */
  function DirtyBits(e: Word): (d: Word)
    ensures d == e % (2 * TLBLO_DIRTY) - e % TLBLO_DIRTY
  {
    MaskOneBit(e);
    if HasBit(e, TLBLO_DIRTY) then TLBLO_DIRTY else 0
  }

  /** Keeping only bit 10 of e leaves TLBLO_DIRTY when that bit is set and 0 otherwise. */
  lemma MaskOneBit(e: Word)
    ensures e % (2 * TLBLO_DIRTY) - e % TLBLO_DIRTY == TLBLO_DIRTY * ((e / TLBLO_DIRTY) % 2)
  {
    var q, r := e / (2 * TLBLO_DIRTY), e % (2 * TLBLO_DIRTY);
    assert e == 2 * TLBLO_DIRTY * q + r;
    assert e / TLBLO_DIRTY == 2 * q + r / TLBLO_DIRTY;
    assert e % TLBLO_DIRTY == r % TLBLO_DIRTY;
    ParityOfSum(q, r / TLBLO_DIRTY);
  }

  lemma LowBits(k: nat, r: nat)
    requires r < PAGE_SIZE
    ensures (PAGE_SIZE * k + r) % PAGE_SIZE == r
    ensures (PAGE_SIZE * k + r) / TLBLO_DIRTY == 4 * k + r / TLBLO_DIRTY
    ensures (PAGE_SIZE * k + r) / TLBLO_VALID == 8 * k + r / TLBLO_VALID
  {
  }

  /**
   * (paddr & PAGE_FRAME) | dirty | TLBLO_VALID: a present entry naming the
   * frame of paddr, with the given dirty bit and the valid bit.
   */
  function MakePte(paddr: Word, dirty: Word): (e: Word)
    requires dirty == 0 || dirty == TLBLO_DIRTY
    ensures e != 0
    ensures Frame(e) == PageBase(paddr)
    ensures DirtyBits(e) == dirty && HasBit(e, TLBLO_VALID)
  {
    PteBits(paddr, dirty);
    PageBase(paddr) + dirty + TLBLO_VALID
  }

  lemma PteBits(paddr: Word, dirty: Word)
    requires dirty == 0 || dirty == TLBLO_DIRTY
    ensures PageBase(paddr) + dirty + TLBLO_VALID < WORD_MODULUS
    ensures var e := PageBase(paddr) + dirty + TLBLO_VALID;
            Frame(e) == PageBase(paddr) && HasBit(e, TLBLO_VALID)
            && (HasBit(e, TLBLO_DIRTY) <==> dirty == TLBLO_DIRTY)
  {
    var k := paddr / PAGE_SIZE;
    assert PageBase(paddr) == PAGE_SIZE * k;
    var r := dirty + TLBLO_VALID;
    LowBits(k, r);
    ParityOfSum(2 * k, r / TLBLO_DIRTY);
    ParityOfSum(4 * k + 1, r / TLBLO_VALID - 1);
  }

  lemma ParityOfSum(m: nat, b: nat)
    ensures (2 * m + b) % 2 == b % 2
  {
  }

  /** A table has PAGE_TABLE_SIZE slots and every present second-level table PAGE_TABLE_SIZE entries. */
  predicate WellFormed(pt: Table) {
    |pt| == PAGE_TABLE_SIZE
    && forall i :: 0 <= i < |pt| && pt[i].Some? ==> |pt[i].value| == PAGE_TABLE_SIZE
  }

  /** The entry for indices (i, j); an absent second-level table reads as all zero. */
  function EntryAt(pt: Table, i: nat, j: nat): Word
    requires WellFormed(pt) && i < PAGE_TABLE_SIZE && j < PAGE_TABLE_SIZE
  {
    match pt[i]
    case None => 0
    case Some(row) => row[j]
  }

  /** A second-level table as vm_create_l1_pte leaves it. */
  function ZeroRow(): seq<Word> {
    seq(PAGE_TABLE_SIZE, _ => 0)
  }

  /** Two tables hold the same entry at every index pair except possibly (i, j). */
  predicate SameEntriesExcept(pt: Table, pt': Table, i: nat, j: nat)
    requires WellFormed(pt) && WellFormed(pt')
  {
    forall i', j' :: 0 <= i' < PAGE_TABLE_SIZE && 0 <= j' < PAGE_TABLE_SIZE && (i' != i || j' != j)
      ==> EntryAt(pt', i', j') == EntryAt(pt, i', j')
  }

  // ---------------------------------------------------------------------
  // The frames a table maps
  // ---------------------------------------------------------------------

  /** Frames named by the nonzero entries among the first n of a second-level table. */
  function RowFrames(row: seq<Word>, n: nat): set<Word>
    requires n <= |row|
  {
    if n == 0 then {}
    else RowFrames(row, n - 1) + (if row[n - 1] != 0 then {Frame(row[n - 1])} else {})
  }

  /** Frames named by the nonzero entries of the first n top-level slots. */
  function TableFrames(pt: Table, n: nat): set<Word>
    requires WellFormed(pt) && n <= PAGE_TABLE_SIZE
  {
    if n == 0 then {}
    else TableFrames(pt, n - 1)
         + match pt[n - 1] case None => {} case Some(row) => RowFrames(row, PAGE_TABLE_SIZE)
  }

  /** Frames named by the nonzero entries of the whole table. */
  function Frames(pt: Table): set<Word>
    requires WellFormed(pt)
  {
    TableFrames(pt, PAGE_TABLE_SIZE)
  }

  lemma {:induction false} RowFramesMember(row: seq<Word>, n: nat, f: Word)
    requires n <= |row|
    ensures f in RowFrames(row, n) <==> exists j :: 0 <= j < n && row[j] != 0 && Frame(row[j]) == f
  {
    if n > 0 {
      RowFramesMember(row, n - 1, f);
    }
  }

  lemma {:induction false} TableFramesMember(pt: Table, n: nat, f: Word)
    requires WellFormed(pt) && n <= PAGE_TABLE_SIZE
    ensures f in TableFrames(pt, n) <==>
            exists i, j :: 0 <= i < n && 0 <= j < PAGE_TABLE_SIZE && EntryAt(pt, i, j) != 0
                           && Frame(EntryAt(pt, i, j)) == f
  {
    if n > 0 {
      TableFramesMember(pt, n - 1, f);
      if pt[n - 1].Some? {
        RowFramesMember(pt[n - 1].value, PAGE_TABLE_SIZE, f);
        if f in RowFrames(pt[n - 1].value, PAGE_TABLE_SIZE) {
          var j :| 0 <= j < PAGE_TABLE_SIZE && pt[n - 1].value[j] != 0 && Frame(pt[n - 1].value[j]) == f;
          assert EntryAt(pt, n - 1, j) == pt[n - 1].value[j];
        }
      }
    }
  }

  /** A frame is in Frames(pt) exactly when some nonzero entry names it. */
  lemma FramesMember(pt: Table, f: Word)
    requires WellFormed(pt)
    ensures f in Frames(pt) <==>
            exists i, j :: 0 <= i < PAGE_TABLE_SIZE && 0 <= j < PAGE_TABLE_SIZE && EntryAt(pt, i, j) != 0
                           && Frame(EntryAt(pt, i, j)) == f
  {
    TableFramesMember(pt, PAGE_TABLE_SIZE, f);
  }

  /** TableFrames(pt, n) depends on the first n slots only. */
  lemma {:induction false} TableFramesPrefix(pt: Table, pt': Table, n: nat)
    requires WellFormed(pt) && WellFormed(pt') && n <= PAGE_TABLE_SIZE
    requires forall i :: 0 <= i < n ==> pt[i] == pt'[i]
    ensures TableFrames(pt, n) == TableFrames(pt', n)
  {
    if n > 0 {
      TableFramesPrefix(pt, pt', n - 1);
    }
  }

  /** RowFrames(row, n) depends on the first n entries only. */
  lemma {:induction false} RowFramesPrefix(row: seq<Word>, row': seq<Word>, n: nat)
    requires n <= |row| && n <= |row'|
    requires forall j :: 0 <= j < n ==> row[j] == row'[j]
    ensures RowFrames(row, n) == RowFrames(row', n)
  {
    if n > 0 {
      RowFramesPrefix(row, row', n - 1);
    }
  }

  /** The frame of a nonzero entry among the first n is one of the row's frames. */
  lemma RowFramesHas(row: seq<Word>, n: nat, j: nat)
    requires j < n <= |row| && row[j] != 0
    ensures Frame(row[j]) in RowFrames(row, n)
  {
    RowFramesMember(row, n, Frame(row[j]));
  }

  lemma {:induction false} RowFramesGrow(row: seq<Word>, n: nat, m: nat)
    requires n <= m <= |row|
    ensures RowFrames(row, n) <= RowFrames(row, m)
    decreases m
  {
    if n < m {
      RowFramesGrow(row, n, m - 1);
    }
  }

  lemma {:induction false} TableFramesGrow(pt: Table, n: nat, m: nat)
    requires WellFormed(pt) && n <= m <= PAGE_TABLE_SIZE
    ensures TableFrames(pt, n) <= TableFrames(pt, m)
    decreases m
  {
    if n < m {
      TableFramesGrow(pt, n, m - 1);
    }
  }

  /** Every frame a present second-level table names is among the frames of the table. */
  lemma RowFramesInFrames(pt: Table, i: nat)
    requires WellFormed(pt) && i < PAGE_TABLE_SIZE && pt[i].Some?
    ensures RowFrames(pt[i].value, PAGE_TABLE_SIZE) <= Frames(pt)
  {
    TableFramesGrow(pt, i + 1, PAGE_TABLE_SIZE);
  }

  /**
   * Filling one zero entry adds exactly its frame to the frames the table
   * maps, whatever else (an all-zero second-level table) was created.
   */
  lemma FramesAfterInstall(pt: Table, pt': Table, i: nat, j: nat)
    requires WellFormed(pt) && WellFormed(pt') && i < PAGE_TABLE_SIZE && j < PAGE_TABLE_SIZE
    requires EntryAt(pt, i, j) == 0 && EntryAt(pt', i, j) != 0
    requires SameEntriesExcept(pt, pt', i, j)
    ensures Frames(pt') == Frames(pt) + {Frame(EntryAt(pt', i, j))}
  {
    forall f | true
      ensures f in Frames(pt') <==> f in Frames(pt) + {Frame(EntryAt(pt', i, j))}
    {
      FramesMember(pt, f);
      FramesMember(pt', f);
    }
  }

  /** Tables with the same entries map the same frames. */
  lemma FramesOfSameEntries(pt: Table, pt': Table)
    requires WellFormed(pt) && WellFormed(pt')
    requires forall i, j :: 0 <= i < PAGE_TABLE_SIZE && 0 <= j < PAGE_TABLE_SIZE
               ==> EntryAt(pt', i, j) == EntryAt(pt, i, j)
    ensures Frames(pt') == Frames(pt)
  {
    forall f | true
      ensures f in Frames(pt') <==> f in Frames(pt)
    {
      FramesMember(pt, f);
      FramesMember(pt', f);
    }
  }

  // ---------------------------------------------------------------------
  // Copies (as_copy)
  // ---------------------------------------------------------------------

  /**
   * Entry d copies entry s: both zero or both present; a present copy keeps
   * the dirty bit, sets the valid bit and names a frame that was taken from
   * the pool (it was in pool and is no longer free) and now holds what the
   * source frame held in mem0.
   */
  predicate CopiedEntry(s: Word, d: Word, pool: set<Word>, free: set<Word>,
                        mem0: map<Word, Page>, mem: map<Word, Page>)
  {
    (s == 0 <==> d == 0)
    && (s != 0 ==>
          DirtyBits(d) == DirtyBits(s) && HasBit(d, TLBLO_VALID)
          && Frame(d) in pool && Frame(d) !in free
          && ReadMem(mem, Frame(d)) == ReadMem(mem0, Frame(s)))
  }

  /** The first n entries of d copy those of s. */
  predicate CopiedRow(s: seq<Word>, d: seq<Word>, n: nat, pool: set<Word>, free: set<Word>,
                      mem0: map<Word, Page>, mem: map<Word, Page>)
    requires n <= |s| && n <= |d|
  {
    forall j :: 0 <= j < n ==> CopiedEntry(s[j], d[j], pool, free, mem0, mem)
  }

  /** Table d copies table s slot by slot and entry by entry. */
  predicate CopiedTable(s: Table, d: Table, pool: set<Word>, free: set<Word>,
                        mem0: map<Word, Page>, mem: map<Word, Page>)
    requires WellFormed(s) && WellFormed(d)
  {
    CopiedUpTo(s, d, PAGE_TABLE_SIZE, pool, free, mem0, mem)
  }

  /** The first n slots of d copy those of s. */
  predicate CopiedUpTo(s: Table, d: Table, n: nat, pool: set<Word>, free: set<Word>,
                             mem0: map<Word, Page>, mem: map<Word, Page>)
    requires WellFormed(s) && WellFormed(d) && n <= PAGE_TABLE_SIZE
  {
    forall k :: 0 <= k < n ==>
      (s[k].Some? <==> d[k].Some?)
      && (s[k].Some? ==> CopiedRow(s[k].value, d[k].value, PAGE_TABLE_SIZE, pool, free, mem0, mem))
  }

  /**
   * Copying slot i extends a copy of the first i slots to the first i + 1,
   * provided the earlier slots are untouched, frames are only taken from
   * the free pool and memory only changes in frames that were free.
   */
  lemma CopiedUpToStep(s: Table, d: Table, d': Table, i: nat, pool: set<Word>,
                       free: set<Word>, free': set<Word>,
                       mem0: map<Word, Page>, mem: map<Word, Page>, mem': map<Word, Page>)
    requires WellFormed(s) && WellFormed(d) && WellFormed(d') && i < PAGE_TABLE_SIZE
    requires CopiedUpTo(s, d, i, pool, free, mem0, mem)
    requires forall k :: 0 <= k < i ==> d'[k] == d[k]
    requires free' <= free
    requires forall f :: f !in free ==> ReadMem(mem', f) == ReadMem(mem, f)
    requires s[i].Some? <==> d'[i].Some?
    requires s[i].Some? ==> CopiedRow(s[i].value, d'[i].value, PAGE_TABLE_SIZE, pool, free', mem0, mem')
    ensures CopiedUpTo(s, d', i + 1, pool, free', mem0, mem')
  {
    forall k | 0 <= k < i && s[k].Some?
      ensures CopiedRow(s[k].value, d'[k].value, PAGE_TABLE_SIZE, pool, free', mem0, mem')
    {
      CopiedRowStable(s[k].value, d[k].value, PAGE_TABLE_SIZE, pool, free, free', mem0, mem, mem');
    }
  }

  /** The number of present slots among the first n. */
  function PresentSlots(pt: Table, n: nat): nat
    requires n <= |pt|
  {
    if n == 0 then 0 else PresentSlots(pt, n - 1) + (if pt[n - 1].Some? then 1 else 0)
  }

  /**
   * The state of a table copy after its first n slots: they copy the
   * source's and no two of their entries share a frame; pages holds the
   * frames of the second-level tables made so far, one per present source
   * slot, apart from the frames the entries name; the free frames are the
   * pool less both; the later slots are still absent; and memory has
   * changed only in frames of the pool.
   */
  predicate CopyProgress(s: Table, d: Table, n: nat, pool: set<Word>, pages: set<Word>, free: set<Word>,
                         mem0: map<Word, Page>, mem: map<Word, Page>)
    requires WellFormed(s) && WellFormed(d) && n <= PAGE_TABLE_SIZE
  {
    CopiedUpTo(s, d, n, pool, free, mem0, mem)
    && DistinctFrames(d, n)
    && pages <= pool && pages !! TableFrames(d, n) && |pages| == PresentSlots(s, n)
    && free == pool - TableFrames(d, n) - pages
    && (forall k :: n <= k < PAGE_TABLE_SIZE ==> d[k].None?)
    && (forall f :: f !in pool ==> ReadMem(mem, f) == ReadMem(mem0, f))
  }

  /**
   * Copying slot i advances a table copy from i slots to i + 1: an absent
   * slot stays absent; a present one gets a second-level table on frame
   * page, taken from the free set, whose row copies the source's from
   * frames taken after it.  The source's frames must lie outside the
   * pool, so that the pages read are the ones of mem0.
   */
  lemma CopyProgressStep(s: Table, d: Table, d': Table, i: nat, pool: set<Word>,
                         pages: set<Word>, pages': set<Word>, page: Word,
                         free: set<Word>, free': set<Word>,
                         mem0: map<Word, Page>, mem: map<Word, Page>, mem': map<Word, Page>)
    requires WellFormed(s) && WellFormed(d) && WellFormed(d') && i < PAGE_TABLE_SIZE
    requires CopyProgress(s, d, i, pool, pages, free, mem0, mem)
    requires Frames(s) !! pool
    requires forall k :: 0 <= k < PAGE_TABLE_SIZE && k != i ==> d'[k] == d[k]
    requires free' <= free
    requires forall f :: f !in free ==> ReadMem(mem', f) == ReadMem(mem, f)
    requires s[i].None? ==> d'[i].None? && free' == free && pages' == pages
    requires s[i].Some? ==> d'[i].Some? && page in free && pages' == pages + {page}
                            && CopiedRow(s[i].value, d'[i].value, PAGE_TABLE_SIZE, free - {page}, free', mem, mem')
                            && DistinctRow(d'[i].value, PAGE_TABLE_SIZE)
                            && free' == free - {page} - RowFrames(d'[i].value, PAGE_TABLE_SIZE)
    ensures CopyProgress(s, d', i + 1, pool, pages', free', mem0, mem')
  {
    if s[i].Some? {
      RowFramesInFrames(s, i);
      CopiedRowRebase(s[i].value, d'[i].value, free - {page}, pool, free', mem, mem0, mem');
      CopiedRowFrames(s[i].value, d'[i].value, PAGE_TABLE_SIZE, free - {page}, free', mem, mem');
    }
    DistinctFramesStep(d, d', i, free);
    TableFramesTaken(pool, pages, pages', page, free, free', d, d', i);
    CopiedUpToStep(s, d, d', i, pool, free, free', mem0, mem, mem');
  }

  /** Extending the prefix of slots by one adds the frames of that slot. */
  lemma TableFramesStep(d: Table, d': Table, i: nat)
    requires WellFormed(d) && WellFormed(d') && i < PAGE_TABLE_SIZE
    requires forall k :: 0 <= k < i ==> d'[k] == d[k]
    ensures TableFrames(d', i + 1)
            == TableFrames(d, i) + match d'[i] case None => {} case Some(row) => RowFrames(row, PAGE_TABLE_SIZE)
  {
    TableFramesPrefix(d, d', i);
  }

  /**
   * Frame accounting of one slot of a table copy: if the free frames were
   * the pool less the frames of the first i slots and the table pages, and
   * copying slot i takes a new table page and then exactly the frames of
   * its row, they become the pool less the frames of the first i + 1 slots
   * and the table pages, which still lie apart from the entries' frames.
   */
  lemma TableFramesTaken(pool: set<Word>, pages: set<Word>, pages': set<Word>, page: Word,
                         free: set<Word>, free': set<Word>, d: Table, d': Table, i: nat)
    requires WellFormed(d) && WellFormed(d') && i < PAGE_TABLE_SIZE
    requires forall k :: 0 <= k < i ==> d'[k] == d[k]
    requires pages !! TableFrames(d, i) && free == pool - TableFrames(d, i) - pages
    requires d'[i].None? ==> free' == free && pages' == pages
    requires d'[i].Some? ==> page in free && pages' == pages + {page}
                             && RowFrames(d'[i].value, PAGE_TABLE_SIZE) <= free - {page}
                             && free' == free - {page} - RowFrames(d'[i].value, PAGE_TABLE_SIZE)
    ensures pages' !! TableFrames(d', i + 1) && free' == pool - TableFrames(d', i + 1) - pages'
  {
    TableFramesStep(d, d', i);
  }

  /**
   * The same accounting when the copy of slot i stops early: every frame of
   * the pool is free again, named somewhere in the table, or one of the
   * table pages.
   */
  lemma TableFramesReturned(pool: set<Word>, pages: set<Word>, pages': set<Word>,
                            free: set<Word>, free': set<Word>, d: Table, d': Table, i: nat)
    requires WellFormed(d) && WellFormed(d') && i < PAGE_TABLE_SIZE
    requires forall k :: 0 <= k < i ==> d'[k] == d[k]
    requires free == pool - TableFrames(d, i) - pages && pages <= pages'
    requires d'[i].None? ==> free <= free' + pages'
    requires d'[i].Some? ==> free <= free' + RowFrames(d'[i].value, PAGE_TABLE_SIZE) + pages'
    ensures pool <= free' + Frames(d') + pages'
  {
    TableFramesStep(d, d', i);
    assert pool <= free + TableFrames(d, i) + pages;
    TableFramesGrow(d', i + 1, PAGE_TABLE_SIZE);
  }

  /**
   * Copying entry j extends a copy of the first j entries to the first
   * j + 1, provided the earlier entries are untouched, frames are only taken
   * from the free pool and memory only changes in frames that were free.
   */
  lemma CopiedRowStep(s: seq<Word>, d: seq<Word>, d': seq<Word>, j: nat, pool: set<Word>,
                      free: set<Word>, free': set<Word>,
                      mem0: map<Word, Page>, mem: map<Word, Page>, mem': map<Word, Page>)
    requires j < |s| && j < |d| && j < |d'|
    requires CopiedRow(s, d, j, pool, free, mem0, mem)
    requires forall k :: 0 <= k < j ==> d'[k] == d[k]
    requires free' <= free
    requires forall f :: f !in free ==> ReadMem(mem', f) == ReadMem(mem, f)
    requires CopiedEntry(s[j], d'[j], pool, free', mem0, mem')
    ensures CopiedRow(s, d', j + 1, pool, free', mem0, mem')
  {
    CopiedRowStable(s, d, j, pool, free, free', mem0, mem, mem');
  }

  /**
   * A copy stays a copy while frames are only taken from the free pool and
   * memory is only written in frames that are still free.
   */
  lemma CopiedRowStable(s: seq<Word>, d: seq<Word>, n: nat, pool: set<Word>, free: set<Word>, free': set<Word>,
                        mem0: map<Word, Page>, mem: map<Word, Page>, mem': map<Word, Page>)
    requires n <= |s| && n <= |d|
    requires CopiedRow(s, d, n, pool, free, mem0, mem)
    requires free' <= free
    requires forall f :: f !in free ==> ReadMem(mem', f) == ReadMem(mem, f)
    ensures CopiedRow(s, d, n, pool, free', mem0, mem')
  {
    forall j | 0 <= j < n
      ensures CopiedEntry(s[j], d[j], pool, free', mem0, mem')
    {
      assert CopiedEntry(s[j], d[j], pool, free, mem0, mem);
    }
  }

  /**
   * A row copied against a later pool and memory is also a copy against an
   * earlier, larger pool and the earlier memory, provided the source frames
   * were never in that pool and memory only changed inside it.
   */
  lemma CopiedRowRebase(s: seq<Word>, d: seq<Word>, pool: set<Word>, pool0: set<Word>, free: set<Word>,
                        memR: map<Word, Page>, mem0: map<Word, Page>, mem: map<Word, Page>)
    requires |s| == PAGE_TABLE_SIZE && |d| == PAGE_TABLE_SIZE
    requires CopiedRow(s, d, PAGE_TABLE_SIZE, pool, free, memR, mem)
    requires pool <= pool0
    requires RowFrames(s, PAGE_TABLE_SIZE) !! pool0
    requires forall f :: f !in pool0 ==> ReadMem(memR, f) == ReadMem(mem0, f)
    ensures CopiedRow(s, d, PAGE_TABLE_SIZE, pool0, free, mem0, mem)
  {
    forall j | 0 <= j < PAGE_TABLE_SIZE
      ensures CopiedEntry(s[j], d[j], pool0, free, mem0, mem)
    {
      assert CopiedEntry(s[j], d[j], pool, free, memR, mem);
      if s[j] != 0 {
        RowFramesMember(s, PAGE_TABLE_SIZE, Frame(s[j]));
      }
    }
  }

  /** A copy against a pool is a copy against any larger pool. */
  lemma CopiedTableWiden(s: Table, d: Table, pool: set<Word>, pool': set<Word>, free: set<Word>,
                         mem0: map<Word, Page>, mem: map<Word, Page>)
    requires WellFormed(s) && WellFormed(d) && pool <= pool'
    requires CopiedTable(s, d, pool, free, mem0, mem)
    ensures CopiedTable(s, d, pool', free, mem0, mem)
  {
    forall i, j | 0 <= i < PAGE_TABLE_SIZE && s[i].Some? && 0 <= j < PAGE_TABLE_SIZE
      ensures CopiedEntry(s[i].value[j], d[i].value[j], pool', free, mem0, mem)
    {
      assert CopiedEntry(s[i].value[j], d[i].value[j], pool, free, mem0, mem);
    }
  }

  /** Every frame among the first n entries of a copied row was taken from the pool. */
  lemma CopiedRowFrames(s: seq<Word>, d: seq<Word>, n: nat, pool: set<Word>, free: set<Word>,
                        mem0: map<Word, Page>, mem: map<Word, Page>)
    requires n <= |s| && n <= |d|
    requires CopiedRow(s, d, n, pool, free, mem0, mem)
    ensures RowFrames(d, n) <= pool
  {
    forall f | f in RowFrames(d, n)
      ensures f in pool
    {
      RowFramesMember(d, n, f);
      var j :| 0 <= j < n && d[j] != 0 && Frame(d[j]) == f;
      assert CopiedEntry(s[j], d[j], pool, free, mem0, mem);
    }
  }

  /** Every frame a copy maps was taken from the pool and is no longer free. */
  lemma CopiedTableFrames(s: Table, d: Table, pool: set<Word>, free: set<Word>,
                          mem0: map<Word, Page>, mem: map<Word, Page>)
    requires WellFormed(s) && WellFormed(d)
    requires CopiedTable(s, d, pool, free, mem0, mem)
    ensures Frames(d) <= pool && Frames(d) !! free
  {
    forall f | f in Frames(d)
      ensures f in pool && f !in free
    {
      FramesMember(d, f);
      var i, j :| 0 <= i < PAGE_TABLE_SIZE && 0 <= j < PAGE_TABLE_SIZE && EntryAt(d, i, j) != 0
                  && Frame(EntryAt(d, i, j)) == f;
      assert CopiedEntry(s[i].value[j], d[i].value[j], pool, free, mem0, mem);
    }
  }

  // ---------------------------------------------------------------------
  // Distinct frames
  // ---------------------------------------------------------------------

  /** No two nonzero entries among the first n of row name the same frame. */
  predicate DistinctRow(row: seq<Word>, n: nat)
    requires n <= |row|
  {
    forall k, k' :: 0 <= k < k' < n && row[k] != 0 && row[k'] != 0 ==> Frame(row[k]) != Frame(row[k'])
  }

  /**
   * No two nonzero entries in the first n slots of pt name the same frame:
   * each present second-level table is distinct, and two present ones
   * share no frame.
   */
  predicate DistinctFrames(pt: Table, n: nat)
    requires WellFormed(pt) && n <= PAGE_TABLE_SIZE
  {
    (forall k :: 0 <= k < n && pt[k].Some? ==> DistinctRow(pt[k].value, PAGE_TABLE_SIZE))
    && (forall k, k' :: 0 <= k < k' < n && pt[k].Some? && pt[k'].Some?
          ==> RowFrames(pt[k].value, PAGE_TABLE_SIZE) !! RowFrames(pt[k'].value, PAGE_TABLE_SIZE))
  }

  /** In a table with distinct frames, two different nonzero entries name two different frames. */
  lemma DistinctFramesEntries(pt: Table)
    requires WellFormed(pt) && DistinctFrames(pt, PAGE_TABLE_SIZE)
    ensures forall i, j, i', j' ::
              0 <= i < PAGE_TABLE_SIZE && 0 <= j < PAGE_TABLE_SIZE
              && 0 <= i' < PAGE_TABLE_SIZE && 0 <= j' < PAGE_TABLE_SIZE
              && (i != i' || j != j') && EntryAt(pt, i, j) != 0 && EntryAt(pt, i', j') != 0
              ==> Frame(EntryAt(pt, i, j)) != Frame(EntryAt(pt, i', j'))
  {
    forall i, j, i', j' |
      0 <= i < PAGE_TABLE_SIZE && 0 <= j < PAGE_TABLE_SIZE
      && 0 <= i' < PAGE_TABLE_SIZE && 0 <= j' < PAGE_TABLE_SIZE
      && (i != i' || j != j') && EntryAt(pt, i, j) != 0 && EntryAt(pt, i', j') != 0
      ensures Frame(EntryAt(pt, i, j)) != Frame(EntryAt(pt, i', j'))
    {
      var row, row' := pt[i].value, pt[i'].value;
      if i == i' {
        assert DistinctRow(row, PAGE_TABLE_SIZE);
      } else {
        RowFramesMember(row, PAGE_TABLE_SIZE, Frame(row[j]));
        RowFramesMember(row', PAGE_TABLE_SIZE, Frame(row'[j']));
        assert Frame(row[j]) in RowFrames(row, PAGE_TABLE_SIZE);
        assert Frame(row'[j']) in RowFrames(row', PAGE_TABLE_SIZE);
      }
    }
  }

  /**
   * Setting entry j to a free frame, when none of the frames of the first
   * j entries is free, extends a distinct prefix by one entry.
   */
  lemma DistinctRowStep(d: seq<Word>, d': seq<Word>, j: nat, free: set<Word>)
    requires j < |d| && j < |d'|
    requires DistinctRow(d, j) && RowFrames(d, j) !! free
    requires forall k :: 0 <= k < j ==> d'[k] == d[k]
    requires d'[j] != 0 ==> Frame(d'[j]) in free
    ensures DistinctRow(d', j + 1)
  {
    forall k | 0 <= k < j && d[k] != 0
      ensures Frame(d[k]) in RowFrames(d, j)
    {
      RowFramesMember(d, j, Frame(d[k]));
    }
  }

  /**
   * Filling slot i with a distinct row whose frames are all free, when none
   * of the frames of the first i slots is free, extends a table with
   * distinct frames by one slot.
   */
  lemma DistinctFramesStep(d: Table, d': Table, i: nat, free: set<Word>)
    requires WellFormed(d) && WellFormed(d') && i < PAGE_TABLE_SIZE
    requires DistinctFrames(d, i) && TableFrames(d, i) !! free
    requires forall k :: 0 <= k < i ==> d'[k] == d[k]
    requires d'[i].Some? ==> DistinctRow(d'[i].value, PAGE_TABLE_SIZE)
                             && RowFrames(d'[i].value, PAGE_TABLE_SIZE) <= free
    ensures DistinctFrames(d', i + 1)
  {
    forall k | 0 <= k < i && d[k].Some?
      ensures RowFrames(d[k].value, PAGE_TABLE_SIZE) <= TableFrames(d, i)
    {
      TableFramesGrow(d, k + 1, i);
    }
  }
}
