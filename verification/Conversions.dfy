/** Physical and kernel virtual addresses (kernel/vmem.hh): the guarded conversions that every
    access to a frame goes through. */
module Conversions {
  import opened Wrappers
  import opened Mmu

  /** _paddr: the physical address of a kernel virtual one. */
  function PhysAddr(va: Word): Res<Word> {
    if va < KERNBASE then Panic else Ok(va - KERNBASE)
  }

  /** _kaddr: the kernel virtual address of a physical one, added in 32 bits. */
  function KernAddr(pa: Word, nPages: nat): Res<Word> {
    if Pgnum(pa) >= nPages || nPages == 0 then Panic else Ok(Add32(pa, KERNBASE))
  }

  /** PageInfo::toPhy of frame f. */
  function ToPhy(f: nat): Word {
    f * PGSIZE % WORD_LIMIT
  }

  /** PageInfo::fromPhy. */
  function FromPhy(pa: Word, nPages: nat): Res<nat> {
    if Pgnum(pa) >= nPages || nPages == 0 then Panic else Ok(Pgnum(pa))
  }

  /** A frame and its address determine each other, whatever the offset into the frame. */
  lemma FrameRoundTrip(f: nat, o: nat, nPages: nat)
    requires f < nPages <= 0x10_0000 && o < PGSIZE
    ensures ToPhy(f) == f * PGSIZE && FromPhy(ToPhy(f) + o, nPages) == Ok(f)
  {
    PgnumOfPage(f, o);
  }

  /** The guard of _kaddr lets exactly the bytes of existing frames through; the address it gives
      converts back exactly when the physical address is inside the window of 2^32 - KERNBASE bytes
      that the kernel maps. */
  lemma KernAddrRoundTripIff(pa: Word, nPages: nat)
    ensures KernAddr(pa, nPages).Ok? <==> pa < nPages * PGSIZE
    ensures KernAddr(pa, nPages).Ok? ==> (PhysAddr(KernAddr(pa, nPages).value) == Ok(pa) <==>
        pa < WORD_LIMIT - KERNBASE)
  {
    assert pa == Pgnum(pa) * PGSIZE + Pgoff(pa);
  }

  /** So with at most 2^17 frames, every access to a frame is to that frame. */
  lemma FramesAreReachable(f: nat, o: nat, nPages: nat)
    requires f < nPages <= 0x2_0000 && o < PGSIZE
    ensures KernAddr(ToPhy(f) + o, nPages) == Ok(KERNBASE + f * PGSIZE + o)
    ensures PhysAddr(KERNBASE + f * PGSIZE + o) == Ok(ToPhy(f) + o)
  {
    FrameRoundTrip(f, o, nPages);
  }
}
