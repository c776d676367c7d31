/**
 * Machine-level vocabulary shared by the VM and file-table models: 32-bit
 * machine words, the MIPS page and TLB constants, error numbers and the
 * kseg0 address conversions.
 *
 * A word (vaddr_t, paddr_t, size_t, uint32_t) is an integer in
 * [0, 2^32); C's wrap-around is written out with Wrap.  The only bitwise
 * operations the code applies are masks and shifts by the page constants,
 * and each is written as the division or remainder it amounts to.
 */
module Kern {

  const WORD_MODULUS: int := 0x1_0000_0000

  /** vaddr_t, paddr_t, size_t and uint32_t. */
  type Word = x: int | 0 <= x < WORD_MODULUS

  /** A C `int`. */
  type Int32 = x: int | -0x8000_0000 <= x < 0x8000_0000

  const PAGE_SIZE: Word := 0x1000
  /** Entries per level of the two-level page table (10 index bits). */
  const PAGE_TABLE_SIZE: nat := 1024
  const TLBLO_DIRTY: Word := 0x0000_0400
  const TLBLO_VALID: Word := 0x0000_0200
  const TLBLO_INVALID: Word := 0
  const NUM_TLB: nat := 64
  const MIPS_KSEG0: Word := 0x8000_0000
  const USERSTACK: Word := 0x8000_0000
  /** The stack region is 16 pages. */
  const USERSTACKSIZE: Word := 16 * 0x1000
  const OPEN_MAX: nat := 128

  datatype Errno = ENOMEM | EFAULT | EINVAL | ENOSYS | EBADF | EMFILE | ESPIPE

  datatype Option<+T> = None | Some(value: T)

  /** A call that returns 0 and a value, or an error number. */
  datatype Result<+T> = Ok(value: T) | Err(err: Errno)

  /** Unsigned 32-bit wrap-around of an exact result. */
  function Wrap(x: int): Word {
    x % WORD_MODULUS
  }

  /** x & PAGE_FRAME: the address of the page holding x. */
  function PageBase(x: Word): Word {
    x - x % PAGE_SIZE
  }

  /** x & ~PAGE_FRAME: the offset of x within its page. */
  function PageOffset(x: Word): Word {
    x % PAGE_SIZE
  }

  /** x & bit != 0, for the single-bit TLBLO flags. */
  predicate HasBit(x: Word, bit: Word)
    requires bit == TLBLO_DIRTY || bit == TLBLO_VALID
  {
    (x / bit) % 2 == 1
  }

  /** KVADDR_TO_PADDR: subtract the kseg0 base, wrapping at 32 bits. */
  function KvaddrToPaddr(kv: Word): Word {
    Wrap(kv - MIPS_KSEG0)
  }

  /** PADDR_TO_KVADDR: add the kseg0 base, wrapping at 32 bits. */
  function PaddrToKvaddr(p: Word): Word {
    Wrap(p + MIPS_KSEG0)
  }

  /** The two conversions are inverse bijections on 32-bit words. */
  lemma KvaddrRoundTrip(p: Word, kv: Word)
    ensures KvaddrToPaddr(PaddrToKvaddr(p)) == p
    ensures PaddrToKvaddr(KvaddrToPaddr(kv)) == kv
  {
  }

  /** The kseg0 conversion moves an address by half the address space, keeping its page offset. */
  lemma KvaddrToPaddrCases(kv: Word)
    ensures KvaddrToPaddr(kv) == if kv >= MIPS_KSEG0 then kv - MIPS_KSEG0 else kv + MIPS_KSEG0
    ensures PageOffset(KvaddrToPaddr(kv)) == PageOffset(kv)
  {
  }

  lemma PaddrToKvaddrCases(p: Word)
    ensures PaddrToKvaddr(p) == if p >= MIPS_KSEG0 then p - MIPS_KSEG0 else p + MIPS_KSEG0
    ensures PageOffset(PaddrToKvaddr(p)) == PageOffset(p)
  {
  }
}
