/** Addresses, page-table entries and the memory layout (include/mmu.h, include/types.h,
    include/memlayout.h), as arithmetic on unsigned 32-bit words. */
module Mmu {

  const WORD_LIMIT: int := 0x1_0000_0000

  type Word = w: int | 0 <= w < 0x1_0000_0000

  type Byte = b: int | 0 <= b < 256

  const PGSIZE: int := 0x1000
  const PTSIZE: int := 0x40_0000
  const NENTRIES: nat := 1024

  // Memory layout. KERNBASE is the value in the code; the diagram above it shows an older one.
  const KERNBASE: Word := 0xE000_0000
  const KSTACKTOP: Word := KERNBASE
  const KSTKSIZE: Word := 0x8000
  const MMIOLIM: Word := KSTACKTOP - PTSIZE
  const MMIOBASE: Word := MMIOLIM - PTSIZE
  const ULIM: Word := MMIOBASE
  const UVPT: Word := ULIM - PTSIZE
  const UPAGES: Word := UVPT - PTSIZE
  const UENVS: Word := UPAGES - PTSIZE
  const UTOP: Word := UENVS
  const USTACKTOP: Word := UTOP - 2 * PGSIZE

  // Page-table entry flags
  const PTE_P: nat := 1
  const PTE_W: nat := 2
  const PTE_U: nat := 4

  // Directory indexes of UTOP and UVPT (see LayoutIndexes)
  const UTOPX: nat := 891
  const UVPTX: nat := 893

  function Pgnum(va: Word): (n: nat)
    ensures n < 0x10_0000
  {
    va / 0x1000
  }

  function Pdx(va: Word): (x: nat)
    ensures x < 1024
  {
    va / 0x40_0000
  }

  function Ptx(va: Word): (y: nat)
    ensures y < 1024
  {
    va / 0x1000 % 1024
  }

  function Pgoff(va: Word): (o: nat)
    ensures o < 0x1000
  {
    va % 0x1000
  }

  function Pgaddr(x: nat, y: nat, o: nat): (va: Word)
    requires x < 1024 && y < 1024 && o < 0x1000
  {
    x * 0x40_0000 + y * 0x1000 + o
  }

  lemma LayoutIndexes()
    ensures Pdx(UTOP) == UTOPX && Pdx(UVPT) == UVPTX
    ensures forall va: Word :: Pdx(va) < UTOPX <==> va < UTOP
  {
  }

  /** An address is its three fields, and the fields of a composed address are its parts. */
  lemma PgaddrRoundTrip(x: nat, y: nat, o: nat)
    requires x < 1024 && y < 1024 && o < 0x1000
    ensures var va := Pgaddr(x, y, o); Pdx(va) == x && Ptx(va) == y && Pgoff(va) == o
  {
    var va := Pgaddr(x, y, o);
    assert va / 0x1000 == x * 1024 + y;
  }

  lemma PgaddrOfFields(va: Word)
    ensures Pgaddr(Pdx(va), Ptx(va), Pgoff(va)) == va
    ensures Pgnum(va) == Pdx(va) * 1024 + Ptx(va)
  {
  }

  /** Two addresses are on the same page exactly when both table indexes agree. */
  lemma SamePage(a: Word, b: Word)
    ensures Pgnum(a) == Pgnum(b) <==> Pdx(a) == Pdx(b) && Ptx(a) == Ptx(b)
  {
    PgaddrOfFields(a);
    PgaddrOfFields(b);
  }

  // ROUNDDOWN and ROUNDUP compute in wrapping 32-bit arithmetic.

  function Add32(a: Word, b: Word): Word {
    (a + b) % WORD_LIMIT
  }

  lemma SmallSum(a: Word, b: Word)
    requires a + b < WORD_LIMIT
    ensures Add32(a, b) == a + b
  {
  }

  function RoundDown(a: Word, n: Word): Word
    requires n > 0
  {
    a - a % n
  }

  function RoundUp(a: Word, n: Word): Word
    requires n > 0
  {
    RoundDown((a + n - 1) % WORD_LIMIT, n)
  }

  /** Rounding to pages, as page numbers; rounding up wraps to zero above the last page boundary. */
  lemma RoundPages(a: Word)
    ensures RoundDown(a, PGSIZE) == Pgnum(a) * PGSIZE
    ensures RoundUp(a, PGSIZE) ==
              if a > 0xFFFF_F000 then 0 else (if Pgoff(a) == 0 then Pgnum(a) else Pgnum(a) + 1) * PGSIZE
    ensures RoundDown(a, PGSIZE) % PGSIZE == 0 && RoundUp(a, PGSIZE) % PGSIZE == 0
  {
    var q, r := a / 0x1000, a % 0x1000;
    assert a == q * 0x1000 + r;
    if r == 0 {
      assert RoundDown(a + 0xFFF, 0x1000) == q * 0x1000;
    } else if q < 0xF_FFFF {
      assert a + 0xFFF == (q + 1) * 0x1000 + (r - 1);
      assert RoundDown(a + 0xFFF, 0x1000) == (q + 1) * 0x1000;
    } else {
      assert (a + 0xFFF) % WORD_LIMIT == r - 1;
    }
  }

  lemma PgnumOfPage(n: nat, o: nat)
    requires n < 0x10_0000 && o < 0x1000
    ensures Pgnum(n * 0x1000 + o) == n && Pgoff(n * 0x1000 + o) == o
  {
  }

  lemma PgnumMonotone(a: Word, b: Word)
    requires a <= b
    ensures Pgnum(a) <= Pgnum(b)
  {
  }

  /** The page after the last byte of a range that ends at e, and the page of its first byte. */
  lemma RoundUpPage(e: Word)
    requires 0 < e <= 0xFFFF_F000
    ensures Pgnum(RoundUp(e, PGSIZE)) == Pgnum(e - 1) + 1
  {
    RoundPages(e);
    if Pgoff(e) == 0 {
      PgnumOfPage(Pgnum(e) - 1, 0xFFF);
      PgnumOfPage(Pgnum(e), 0);
    } else {
      PgnumOfPage(Pgnum(e), Pgoff(e) - 1);
      PgnumOfPage(Pgnum(e) + 1, 0);
    }
  }

  lemma RoundDownPage(a: Word)
    ensures Pgnum(RoundDown(a, PGSIZE)) == Pgnum(a)
  {
    RoundPages(a);
    PgnumOfPage(Pgnum(a), 0);
  }

  // Page-table entries

  predicate Present(w: Word) {
    w % 2 == 1
  }

  predicate Writable(w: Word) {
    w / 2 % 2 == 1
  }

  /** Bit 2 is set. */
  predicate UserAccessible(w: Word) {
    w % 8 >= 4
  }

  /** The frame that an entry names: PGNUM(PTE_ADDR(entry)). */
  function Frame(w: Word): (f: nat)
    ensures f < 0x10_0000
  {
    w / 0x1000
  }

  function Flags(w: Word): (p: nat)
    ensures p < 0x1000
  {
    w % 0x1000
  }

  /** perm | PTE_P */
  function WithPresent(perm: nat): (p: nat)
    requires perm < 0x1000
    ensures p < 0x1000 && p % 2 == 1 && p / 2 == perm / 2
  {
    if perm % 2 == 1 then perm else perm + 1
  }

  /** Bits 1 and 2 of an entry are those of its flags. */
  lemma FlagBits(w: Word)
    ensures Writable(w) <==> Flags(w) / 2 % 2 == 1
    ensures UserAccessible(w) <==> Flags(w) % 8 >= 4
  {
    WritableBit(Frame(w), Flags(w));
    UserBit(Frame(w), Flags(w));
  }

  lemma WritableBit(f: nat, p: nat)
    requires p < 0x1000
    ensures (f * 0x1000 + p) / 2 % 2 == p / 2 % 2
  {
    assert (f * 0x1000 + p) / 2 == f * 0x800 + p / 2;
  }

  lemma PresentBit(f: nat, p: nat)
    ensures (f * 0x1000 + p) % 2 == p % 2
  {
    assert (f * 0x1000 + p) % 2 == (f * 0x800 * 2 + p) % 2;
  }

  lemma UserBit(f: nat, p: nat)
    ensures (f * 0x1000 + p) % 8 == p % 8
  {
  }

  /** The entry (frame address) | flags. */
  function MakePte(f: nat, flags: nat): (w: Word)
    requires f < 0x10_0000 && flags < 0x1000
    ensures Frame(w) == f && Flags(w) == flags
    ensures Present(w) <==> flags % 2 == 1
    ensures Writable(w) <==> flags / 2 % 2 == 1
  {
    f * 0x1000 + flags
  }

  // The numbers

  lemma Layout()
    ensures PGSIZE == 0x1000 && PTSIZE == 0x40_0000 && KERNBASE == 0xE000_0000
    ensures KSTACKTOP == 0xE000_0000 && KSTACKTOP - KSTKSIZE == 0xDFFF_8000
    ensures MMIOLIM == 0xDFC0_0000 && MMIOBASE == 0xDF80_0000 && ULIM == 0xDF80_0000
    ensures UVPT == 0xDF40_0000 && UPAGES == 0xDF00_0000 && UENVS == 0xDEC0_0000
    ensures UTOP == 0xDEC0_0000 && USTACKTOP == 0xDEBF_E000
    ensures UTOPX == 0xDEC0_0000 / 0x40_0000 && UVPTX == 0xDF40_0000 / 0x40_0000
    ensures PTE_P == 1 && PTE_W == 2 && PTE_U == 4
  {
  }
}
