/**
 * The page-table helpers and the TLB-miss handler of asst3
 * (kern/vm/vm.c): lazy creation of second-level tables, installation of a
 * fresh frame for a page, and vm_fault, which resolves a miss through the
 * region list and loads the translation into the TLB.
 */
module Vm {
  import opened Kern
  import opened Machine
  import opened PageTables
  import opened AddrSpaces

  /** The fault kinds of OS/161's vm.h. */
  const VM_FAULT_READ: int := 0
  const VM_FAULT_WRITE: int := 1
  const VM_FAULT_READONLY: int := 2

  // ---------------------------------------------------------------------
  // Region lookup
  // ---------------------------------------------------------------------

  /** The index of the first region in list order that contains address a. */
  function FirstContaining(rs: seq<Region>, a: Word): (r: Option<nat>)
    ensures r.Some? ==> r.value < |rs| && Contains(rs[r.value], a)
                        && forall k :: 0 <= k < r.value ==> !Contains(rs[k], a)
    ensures r.None? <==> forall k :: 0 <= k < |rs| ==> !Contains(rs[k], a)
  {
    if |rs| == 0 then None
    else if Contains(rs[0], a) then Some(0)
    else match FirstContaining(rs[1..], a)
      case None => None
      case Some(k) => Some(k + 1)
  }

  /** The dirty bits vm_fault gives a new entry of region r: TLBLO_DIRTY exactly when w is nonzero. */
  function DirtyFor(r: Region): Word {
    if r.w != 0 then TLBLO_DIRTY else 0
  }

  /** The region loop of vm_fault: it stops at the first region containing a. */
  method FindRegion(rs: seq<Region>, a: Word) returns (found: Option<nat>)
    ensures found == FirstContaining(rs, a)
  {
    var i := 0;
    while i < |rs|
      invariant 0 <= i <= |rs|
      invariant forall k :: 0 <= k < i ==> !Contains(rs[k], a)
    {
      if a >= rs[i].vbase && a < RegionEnd(rs[i]) {
        return Some(i);
      }
      i := i + 1;
    }
    return None;
  }

  // ---------------------------------------------------------------------
  // Page-table helpers
  // ---------------------------------------------------------------------

  /**
   * vm_create_l1_pte: slot pt1, which must be NULL, receives a kmalloc'd
   * second-level table with every entry zero, whose frame page kmalloc
   * took from the pool; if kmalloc fails the slot stays NULL and ENOMEM is
   * returned.
   */
  method VmCreateL1Pte(a: AddrSpace, pt1: nat, ram: Ram) returns (r: Result<()>, page: Word)
    requires a.Valid() && ram.Valid() && pt1 < PAGE_TABLE_SIZE && a.PT[pt1].None?
    modifies a, a.pageTable, ram
    ensures a.Valid() && fresh(a.Repr - old(a.Repr))
    ensures a.regions == old(a.regions) && a.ptPage == old(a.ptPage)
    ensures ram.Valid() && ram.mem == old(ram.mem)
    ensures r.Err? ==> r.err == ENOMEM && a.PT == old(a.PT) && ram.heap == old(ram.heap)
                       && ram.free == old(ram.free) && ram.pageOf == old(ram.pageOf)
    ensures r.Ok? ==> a.PT == old(a.PT)[pt1 := Some(ZeroRow())]
                      && a.pageTable[pt1].Some? && a.pageTable[pt1].value !in old(ram.heap)
                      && ram.heap == old(ram.heap) + {a.pageTable[pt1].value}
                      && page in old(ram.free) && ram.free == old(ram.free) - {page}
                      && ram.pageOf == old(ram.pageOf)[a.pageTable[pt1].value := page]
  {
    var ot;
    ot, page := ram.KmallocTable();
    if ot.None? {
      return Err(ENOMEM), page;
    }
    var t := ot.value;
    a.pageTable[pt1] := Some(t);
    var j := 0;
    while j < PAGE_TABLE_SIZE
      invariant 0 <= j <= PAGE_TABLE_SIZE
      invariant forall k :: 0 <= k < j ==> t[k] == 0
      modifies t
    {
      t[j] := 0;
      j := j + 1;
    }
    assert t[..] == ZeroRow();
    a.PT := a.PT[pt1 := Some(t[..])];
    a.Repr := a.Repr + {t};
    return Ok(()), page;
  }

  /**
   * vm_create_l2_pte: entry (pt1, pt2), which must be 0, receives a frame
   * taken from the pool, with the given dirty bits and the valid bit; no
   * other entry changes.  If alloc_kpages fails the table is unchanged and
   * ENOMEM is returned.
   */
  method VmCreateL2Pte(a: AddrSpace, pt1: nat, pt2: nat, dirty: Word, ram: Ram) returns (r: Result<()>)
    requires a.Valid() && ram.Valid() && pt1 < PAGE_TABLE_SIZE && pt2 < PAGE_TABLE_SIZE
    requires a.PT[pt1].Some? && a.PT[pt1].value[pt2] == 0
    requires dirty == 0 || dirty == TLBLO_DIRTY
    modifies a, a.pageTable[pt1].value, ram
    ensures a.Valid() && a.Repr == old(a.Repr)
    ensures a.regions == old(a.regions) && a.ptPage == old(a.ptPage)
    ensures ram.Valid() && ram.heap == old(ram.heap) && ram.mem == old(ram.mem) && ram.pageOf == old(ram.pageOf)
    ensures r.Err? ==> r.err == ENOMEM && a.PT == old(a.PT) && ram.free == old(ram.free)
    ensures r.Ok? ==>
              var e := a.PT[pt1].value[pt2];
              a.PT == old(a.PT)[pt1 := Some(old(a.PT[pt1].value)[pt2 := e])]
              && e != 0 && DirtyBits(e) == dirty && HasBit(e, TLBLO_VALID)
              && Frame(e) in old(ram.free) && ram.free == old(ram.free) - {Frame(e)}
  {
    var kv := ram.AllocKpage();
    if kv == 0 {
      return Err(ENOMEM);
    }
    KvaddrToPaddrCases(kv);
    var row := a.pageTable[pt1].value;
    row[pt2] := MakePte(KvaddrToPaddr(kv), dirty);
    a.PT := a.PT[pt1 := Some(row[..])];
    return Ok(());
  }

  /** Installing entry (pt1, pt2) of a row leaves every other entry of the table as it was. */
  lemma InstallChangesOneEntry(pt: Table, i: nat, j: nat, e: Word)
    requires WellFormed(pt) && i < PAGE_TABLE_SIZE && j < PAGE_TABLE_SIZE && pt[i].Some?
    ensures WellFormed(pt[i := Some(pt[i].value[j := e])])
    ensures EntryAt(pt[i := Some(pt[i].value[j := e])], i, j) == e
    ensures SameEntriesExcept(pt, pt[i := Some(pt[i].value[j := e])], i, j)
  {
  }

  /** Creating a zero second-level table in an absent slot changes no entry and no frame. */
  lemma ZeroRowChangesNoEntry(pt: Table, i: nat)
    requires WellFormed(pt) && i < PAGE_TABLE_SIZE && pt[i].None?
    ensures WellFormed(pt[i := Some(ZeroRow())])
    ensures forall i', j' :: 0 <= i' < PAGE_TABLE_SIZE && 0 <= j' < PAGE_TABLE_SIZE
              ==> EntryAt(pt[i := Some(ZeroRow())], i', j') == EntryAt(pt, i', j')
    ensures Frames(pt[i := Some(ZeroRow())]) == Frames(pt)
  {
    FramesOfSameEntries(pt, pt[i := Some(ZeroRow())]);
  }

  // ---------------------------------------------------------------------
  // vm_fault
  // ---------------------------------------------------------------------

  /** The entry vm_fault consults for address fa: indices from KVADDR_TO_PADDR(fa), split 10/10/12. */
  function FaultEntry(pt: Table, fa: Word): Word
    requires WellFormed(pt)
  {
    var p := KvaddrToPaddr(fa);
    EntryAt(pt, L1Index(p), L2Index(p))
  }

  /**
   * Two addresses consult the same entry exactly when they lie in the same
   * page, so a fault on any address of a page that vm_fault has mapped
   * finds a nonzero entry.
   */
  lemma FaultEntryPerPage(pt: Table, a: Word, b: Word)
    requires WellFormed(pt) && PageBase(a) == PageBase(b)
    ensures FaultEntry(pt, a) == FaultEntry(pt, b)
  {
    SameEntryIffSamePage(a, b);
  }

  /**
   * The branch of vm_fault for a zero entry (pt1, pt2), slot pt1 being
   * present: the first region containing fa gives the dirty bit and
   * vm_create_l2_pte installs a frame for the entry.  With no such region
   * the result is EFAULT; if alloc_kpages fails it is ENOMEM.  Either way
   * the table and the pool are then unchanged.
   */
  method MapZeroEntry(a: AddrSpace, fa: Word, ram: Ram) returns (r: Result<()>)
    requires a.Valid() && ram.Valid()
    requires a.PT[L1Index(KvaddrToPaddr(fa))].Some? && FaultEntry(a.PT, fa) == 0
    modifies a, a.pageTable[L1Index(KvaddrToPaddr(fa))].value, ram
    ensures a.Valid() && a.Repr == old(a.Repr)
    ensures a.regions == old(a.regions) && a.ptPage == old(a.ptPage)
    ensures ram.Valid() && ram.heap == old(ram.heap) && ram.mem == old(ram.mem) && ram.pageOf == old(ram.pageOf)
    ensures r.Err? ==> a.PT == old(a.PT) && ram.free == old(ram.free)
                       && (r.err == EFAULT || r.err == ENOMEM)
                       && (r.err == EFAULT <==> FirstContaining(a.regions, fa).None?)
    ensures r.Ok? ==>
              var p := KvaddrToPaddr(fa);
              var e := FaultEntry(a.PT, fa);
              FirstContaining(a.regions, fa).Some?
              && e != 0 && DirtyBits(e) == DirtyFor(a.regions[FirstContaining(a.regions, fa).value])
              && HasBit(e, TLBLO_VALID)
              && Frame(e) in old(ram.free) && ram.free == old(ram.free) - {Frame(e)}
              && SameEntriesExcept(old(a.PT), a.PT, L1Index(p), L2Index(p))
              && Frames(a.PT) == old(Frames(a.PT)) + {Frame(e)}
  {
    var paddr := KvaddrToPaddr(fa);
    var pt1 := L1Index(paddr);
    var pt2 := L2Index(paddr);
    var found := FindRegion(a.regions, fa);
    if found.None? {
      return Err(EFAULT);
    }
    var dirty := DirtyFor(a.regions[found.value]);
    ghost var PT1 := a.PT;
    r := VmCreateL2Pte(a, pt1, pt2, dirty, ram);
    if r.Err? {
      return r;
    }
    InstallChangesOneEntry(PT1, pt1, pt2, a.PT[pt1].value[pt2]);
    FramesAfterInstall(PT1, a.PT, pt1, pt2);
  }

  /**
   * The translation part of vm_fault for an existing address space: make
   * sure slot pt1 holds a second-level table (vm_create_l1_pte), and if
   * entry (pt1, pt2) is zero, install a frame for it with the dirty bit of
   * the first region containing fa (vm_create_l2_pte); with no such region
   * the result is EFAULT.  A nonzero entry is kept and nothing is
   * allocated.  tablePage is the frame of the second-level table
   * vm_create_l1_pte made, if it made one.
   *
   * On a failure after vm_create_l1_pte succeeded, the new second-level
   * table is passed to kfree, which returns its frame to the pool, but slot
   * pt1 keeps pointing at it: the slot is still present (all zero) while
   * its table is no longer allocated and its frame is free again.
   */
  method MapFaultPage(a: AddrSpace, fa: Word, ram: Ram) returns (r: Result<()>, tablePage: Option<Word>)
    requires a.Valid() && ram.Valid()
    modifies a.Repr, ram
    ensures ram.Valid() && ram.mem == old(ram.mem)
    ensures a.Valid() && fresh(a.Repr - old(a.Repr))
    ensures a.regions == old(a.regions) && a.ptPage == old(a.ptPage)
    ensures tablePage.Some? ==>
              var pt1 := L1Index(KvaddrToPaddr(fa));
              old(a.PT)[pt1].None? && tablePage.value in old(ram.free)
              && a.pageTable[pt1].Some? && a.PT[pt1].Some?
              && ram.pageOf == old(ram.pageOf)[a.pageTable[pt1].value := tablePage.value]
    ensures old(a.PT)[L1Index(KvaddrToPaddr(fa))].None? && tablePage.None? ==> r == Err(ENOMEM)
    ensures r.Err? ==>
              var pt1 := L1Index(KvaddrToPaddr(fa));
              FaultEntry(old(a.PT), fa) == 0
              && (r.err == ENOMEM || (r.err == EFAULT && FirstContaining(a.regions, fa).None?))
              && ram.free == old(ram.free) && ram.heap == old(ram.heap)
              && (forall i, j :: 0 <= i < PAGE_TABLE_SIZE && 0 <= j < PAGE_TABLE_SIZE
                    ==> EntryAt(a.PT, i, j) == EntryAt(old(a.PT), i, j))
              && Frames(a.PT) == old(Frames(a.PT))
              && ((a.PT == old(a.PT) && tablePage.None?)
                  || (old(a.PT[pt1]).None? && a.PT == old(a.PT)[pt1 := Some(ZeroRow())]
                      && a.pageTable[pt1].Some? && a.pageTable[pt1].value !in ram.heap
                      && tablePage.Some? && tablePage.value in ram.free))
    ensures FaultEntry(old(a.PT), fa) == 0 && FirstContaining(a.regions, fa).None? ==> r.Err?
    ensures (old(a.PT)[L1Index(KvaddrToPaddr(fa))].Some? && FaultEntry(old(a.PT), fa) == 0
             && FirstContaining(a.regions, fa).None?) ==> r == Err(EFAULT)
    ensures r == Err(ENOMEM) ==>
              (old(a.PT)[L1Index(KvaddrToPaddr(fa))].None? && tablePage.None?)
              || FirstContaining(a.regions, fa).Some?
    ensures r.Ok? ==> FaultEntry(a.PT, fa) != 0
    ensures r.Ok? && FaultEntry(old(a.PT), fa) != 0 ==>
              a.PT == old(a.PT) && tablePage.None?
              && Frames(a.PT) == old(Frames(a.PT))
              && ram.free == old(ram.free) && ram.heap == old(ram.heap)
    ensures r.Ok? && FaultEntry(old(a.PT), fa) == 0 ==>
              var p := KvaddrToPaddr(fa);
              var e := FaultEntry(a.PT, fa);
              FirstContaining(a.regions, fa).Some?
              && DirtyBits(e) == DirtyFor(a.regions[FirstContaining(a.regions, fa).value])
              && HasBit(e, TLBLO_VALID)
              && Frame(e) in old(ram.free)
              && (tablePage.None? ==> ram.free == old(ram.free) - {Frame(e)})
              && (tablePage.Some? ==> Frame(e) != tablePage.value
                                      && ram.free == old(ram.free) - {tablePage.value, Frame(e)})
              && SameEntriesExcept(old(a.PT), a.PT, L1Index(p), L2Index(p))
              && Frames(a.PT) == old(Frames(a.PT)) + {Frame(e)}
  {
    ghost var PT0 := a.PT;
    var paddr := KvaddrToPaddr(fa);
    var pt1 := L1Index(paddr);
    var pt2 := L2Index(paddr);

    tablePage := None;
    var allocPt1 := false;
    if a.pageTable[pt1].None? {
      var res, page := VmCreateL1Pte(a, pt1, ram);
      if res.Err? {
        return res, None;
      }
      allocPt1 := true;
      tablePage := Some(page);
      ZeroRowChangesNoEntry(PT0, pt1);
    }
    if a.pageTable[pt1].value[pt2] == 0 {
      r := MapZeroEntry(a, fa, ram);
      if r.Err? && allocPt1 {
        ram.KfreeTable(a.pageTable[pt1].value);
      }
      return r, tablePage;
    }
    return Ok(()), tablePage;
  }

  /**
   * vm_fault(faulttype, faultaddress).  hasProc says whether there is a
   * current process and a is its address space (null for none).
   *
   * A READONLY fault gives EFAULT, an unknown kind EINVAL, and a missing
   * process or address space EFAULT, all without any change.  Otherwise
   * MapFaultPage resolves the translation, and on success the TLB gains
   * (faultaddress & PAGE_FRAME, entry) in a slot of the hardware's choosing.
   */
  method VmFault(faulttype: int, faultaddress: Word, hasProc: bool, a: AddrSpace?, ram: Ram, tlb: Tlb)
    returns (r: Result<()>)
    requires ram.Valid() && tlb.Valid()
    requires a != null ==> a.Valid() && tlb.slots !in a.Repr
    modifies ram, tlb.slots, if a == null then {} else a.Repr
    ensures ram.Valid() && ram.mem == old(ram.mem)
    ensures faulttype == VM_FAULT_READONLY ==> r == Err(EFAULT)
    ensures faulttype != VM_FAULT_READ && faulttype != VM_FAULT_WRITE && faulttype != VM_FAULT_READONLY
            ==> r == Err(EINVAL)
    ensures (faulttype == VM_FAULT_READ || faulttype == VM_FAULT_WRITE) && (!hasProc || a == null)
            ==> r == Err(EFAULT)
    ensures (faulttype != VM_FAULT_READ && faulttype != VM_FAULT_WRITE) || !hasProc || a == null
            ==> ram.free == old(ram.free) && ram.heap == old(ram.heap) && tlb.slots[..] == old(tlb.slots[..])
                && (a != null ==> a.PT == old(a.PT))
    ensures r.Err? ==> tlb.slots[..] == old(tlb.slots[..])
    ensures a != null ==>
              a.Valid() && fresh(a.Repr - old(a.Repr)) && tlb.slots !in a.Repr
              && a.regions == old(a.regions) && a.ptPage == old(a.ptPage)
    ensures a != null && r.Err? ==> ram.free == old(ram.free) && Frames(a.PT) == old(Frames(a.PT))
    ensures a != null && r.Ok? ==>
              (faulttype == VM_FAULT_READ || faulttype == VM_FAULT_WRITE) && hasProc
              && FaultEntry(a.PT, faultaddress) != 0
              && WrittenOnce(old(tlb.slots[..]), tlb.slots[..],
                             TlbEntry(PageBase(faultaddress), FaultEntry(a.PT, faultaddress)))
    ensures a != null && old(Frames(a.PT) !! ram.free) ==> Frames(a.PT) !! ram.free
  {
    if faulttype == VM_FAULT_READONLY {
      return Err(EFAULT);
    } else if faulttype != VM_FAULT_READ && faulttype != VM_FAULT_WRITE {
      return Err(EINVAL);
    }
    if !hasProc || a == null {
      return Err(EFAULT);
    }
    var tablePage;
    r, tablePage := MapFaultPage(a, faultaddress, ram);
    if r.Err? {
      return r;
    }
    var paddr := KvaddrToPaddr(faultaddress);
    var ehi := PageBase(faultaddress);
    var elo := a.pageTable[L1Index(paddr)].value[L2Index(paddr)];
    var slot := tlb.Random(ehi, elo);
    return Ok(());
  }
}
