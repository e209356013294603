/** pgdir::userCheck (kernel/vmem.cc): may a task's pointer be followed by the kernel? */
module UserCheck {
  import opened Wrappers
  import opened Mmu
  import opened PageTables

  /** a & b on twelve flag bits, as "the two share a bit". */
  predicate SharesBit(a: nat, b: nat)
    decreases a
  {
    a > 0 && b > 0 && ((a % 2 == 1 && b % 2 == 1) || SharesBit(a / 2, b / 2))
  }

  /** The page at va passes: below ULIM, with a page table, and its entry shares a bit with perm. */
  predicate PagePasses(v: Vm, d: nat, va: Word, perm: nat)
    requires d < |v.page| && perm < 0x1000
  {
    var pde := v.page[d][Pdx(va)];
    va < ULIM && Present(pde) && Frame(pde) < |v.page|
    && SharesBit(Flags(v.page[Frame(pde)][Ptx(va)]), WithPresent(perm))
  }

  /** The directory entry for va names memory that does not exist; findPte panics on it. */
  predicate BadTable(v: Vm, d: nat, va: Word)
    requires d < |v.page|
  {
    var pde := v.page[d][Pdx(va)];
    va < ULIM && Present(pde) && Frame(pde) >= |v.page|
  }

  /** The loop of userCheck from address it up to end, one page further each time. */
  function CheckFrom(v: Vm, d: nat, it: int, end: Word, perm: nat): Res<bool>
    requires Wf(v) && d < |v.page| && perm < 0x1000 && 0 <= it
    decreases end - it
  {
    if it >= end then Ok(true)
    else if it >= ULIM then Ok(false)
    else
      var r := FindPte(v, d, it, false);
      if !r.Ok? then r.Failed()
      else if r.value.1.NoPte? then Ok(false)
      else if !SharesBit(Flags(v.page[r.value.1.table][r.value.1.index]), WithPresent(perm)) then Ok(false)
      else CheckFrom(v, d, it + PGSIZE, end, perm)
  }

  lemma UnfoldCheck(v: Vm, d: nat, it: int, end: Word, perm: nat)
    requires Wf(v) && d < |v.page| && perm < 0x1000 && 0 <= it
    ensures CheckFrom(v, d, it, end, perm) ==
              if it >= end then Ok(true)
              else if it >= ULIM then Ok(false)
              else
                var r := FindPte(v, d, it, false);
                if !r.Ok? then r.Failed()
                else if r.value.1.NoPte? then Ok(false)
                else if !SharesBit(Flags(v.page[r.value.1.table][r.value.1.index]), WithPresent(perm)) then Ok(false)
                else CheckFrom(v, d, it + PGSIZE, end, perm)
  {
    hide FindPte, SharesBit;
  }

  /** userCheck. The end of the range is computed in 32 bits. */
  function Check(v: Vm, d: nat, va: Word, size: Word, perm: nat): Res<bool>
    requires Wf(v) && d < |v.page| && perm < 0x1000
  {
    CheckFrom(v, d, va, Add32(va, size), perm)
  }

  /** The loop accepts exactly when every page start that it visits passes. */
  lemma {:induction false} CheckFromIff(v: Vm, d: nat, it: int, end: Word, perm: nat)
    requires Wf(v) && d < |v.page| && perm < 0x1000 && 0 <= it
    requires forall a: Word :: it <= a < end ==> !BadTable(v, d, a)
    ensures CheckFrom(v, d, it, end, perm).Ok?
    ensures CheckFrom(v, d, it, end, perm).value <==>
              forall k: nat :: it + k * PGSIZE < end ==> PagePasses(v, d, it + k * PGSIZE, perm)
    decreases end - it
  {
    hide CheckFrom, SharesBit;
    UnfoldCheck(v, d, it, end, perm);
    if it < end {
      assert !BadTable(v, d, it);
      if it < ULIM && PagePasses(v, d, it, perm) {
        NextPages(v, d, it, end, perm);
        hide PagePasses, BadTable;
        CheckFromIff(v, d, it + PGSIZE, end, perm);
      } else {
        assert !PagePasses(v, d, it + 0 * PGSIZE, perm);
      }
    }
  }

  /** The page start that the loop visits in round k is bad, and all before it pass. */
  predicate Meets(v: Vm, d: nat, it: int, end: Word, perm: nat, k: nat)
    requires d < |v.page| && perm < 0x1000 && 0 <= it
  {
    it + k * PGSIZE < end && BadTable(v, d, it + k * PGSIZE)
    && forall j: nat :: j < k && it + j * PGSIZE < end ==> PagePasses(v, d, it + j * PGSIZE, perm)
  }

  /** In any memory at all, the loop stops the kernel exactly when it meets an entry for memory that does not exist. */
  lemma {:induction false} CheckFromPanics(v: Vm, d: nat, it: int, end: Word, perm: nat)
    requires Wf(v) && d < |v.page| && perm < 0x1000 && 0 <= it
    ensures !CheckFrom(v, d, it, end, perm).Cyclic?
    ensures CheckFrom(v, d, it, end, perm).Panic? <==> exists k: nat :: Meets(v, d, it, end, perm, k)
    decreases end - it
  {
    hide CheckFrom, SharesBit;
    UnfoldCheck(v, d, it, end, perm);
    if it < end {
      if PagePasses(v, d, it, perm) {
        CheckFromPanics(v, d, it + PGSIZE, end, perm);
        MeetsNext(v, d, it, end, perm, it + PGSIZE);
      } else if BadTable(v, d, it) {
        assert Meets(v, d, it, end, perm, 0);
      } else {
        assert !PagePasses(v, d, it + 0 * PGSIZE, perm) && !BadTable(v, d, it + 0 * PGSIZE);
      }
    }
  }

  lemma MeetsNext(v: Vm, d: nat, it: int, end: Word, perm: nat, next: int)
    requires d < |v.page| && perm < 0x1000 && 0 <= it < end && PagePasses(v, d, it, perm) && next == it + PGSIZE
    ensures (exists k: nat :: Meets(v, d, it, end, perm, k)) <==> exists k: nat :: Meets(v, d, next, end, perm, k)
  {
    assert !Meets(v, d, it, end, perm, 0);
    hide PagePasses, BadTable, Meets;
    if k: nat :| Meets(v, d, it, end, perm, k) {
      MeetsShift(v, d, it, end, perm, k - 1);
    }
    if k: nat :| Meets(v, d, next, end, perm, k) {
      MeetsShift(v, d, it, end, perm, k);
    }
  }

  lemma MeetsShift(v: Vm, d: nat, it: int, end: Word, perm: nat, k: nat)
    requires d < |v.page| && perm < 0x1000 && 0 <= it < end && PagePasses(v, d, it, perm)
    ensures Meets(v, d, it, end, perm, k + 1) <==> Meets(v, d, it + PGSIZE, end, perm, k)
  {
    hide PagePasses, BadTable;
    assert it + (k + 1) * PGSIZE == it + PGSIZE + k * PGSIZE;
    assert forall j: nat :: it + (j + 1) * PGSIZE == it + PGSIZE + j * PGSIZE;
    if Meets(v, d, it + PGSIZE, end, perm, k) {
      forall j: nat | j < k + 1 && it + j * PGSIZE < end
        ensures PagePasses(v, d, it + j * PGSIZE, perm)
      {
        if j > 0 {
          assert it + PGSIZE + (j - 1) * PGSIZE == it + j * PGSIZE;
        }
      }
    }
    if Meets(v, d, it, end, perm, k + 1) {
      forall j: nat | j < k && it + PGSIZE + j * PGSIZE < end
        ensures PagePasses(v, d, it + PGSIZE + j * PGSIZE, perm)
      {
        assert it + (j + 1) * PGSIZE == it + PGSIZE + j * PGSIZE;
      }
    }
  }

  lemma NextPages(v: Vm, d: nat, it: int, end: Word, perm: nat)
    requires d < |v.page| && perm < 0x1000 && 0 <= it < end && PagePasses(v, d, it, perm)
    ensures (forall k: nat :: it + k * PGSIZE < end ==> PagePasses(v, d, it + k * PGSIZE, perm)) <==>
              (forall k: nat :: it + PGSIZE + k * PGSIZE < end ==> PagePasses(v, d, it + PGSIZE + k * PGSIZE, perm))
  {
    if forall k: nat :: it + k * PGSIZE < end ==> PagePasses(v, d, it + k * PGSIZE, perm) {
      forall k: nat | it + PGSIZE + k * PGSIZE < end
        ensures PagePasses(v, d, it + PGSIZE + k * PGSIZE, perm)
      {
        assert it + (k + 1) * PGSIZE == it + PGSIZE + k * PGSIZE;
      }
    }
    if forall k: nat :: it + PGSIZE + k * PGSIZE < end ==> PagePasses(v, d, it + PGSIZE + k * PGSIZE, perm) {
      forall k: nat | it + k * PGSIZE < end
        ensures PagePasses(v, d, it + k * PGSIZE, perm)
      {
        if k > 0 {
          assert it + PGSIZE + (k - 1) * PGSIZE == it + k * PGSIZE;
        }
      }
    }
  }

  /** Whether a page passes does not depend on the byte of the page. */
  lemma PassesByPage(v: Vm, d: nat, a: Word, b: Word, perm: nat)
    requires d < |v.page| && perm < 0x1000 && Pgnum(a) == Pgnum(b)
    ensures PagePasses(v, d, a, perm) == PagePasses(v, d, b, perm)
  {
    SamePage(a, b);
    assert a < ULIM <==> Pgnum(a) < 0xD_F800;
    assert b < ULIM <==> Pgnum(b) < 0xD_F800;
  }

  /** The loop looks at va, va + 4096, ...; it meets every page of the range exactly when the
      offsets of the first byte and of the length add up to less than a page. */
  predicate Reached(va: Word, size: Word) {
    size == 0 || Pgoff(va) + (size - 1) % 0x1000 < 0x1000
  }

  lemma VisitsPage(va: Word, size: Word, a: Word) returns (k: nat)
    requires 0 < size && va + size < WORD_LIMIT && Reached(va, size) && va <= a < va + size
    ensures k * PGSIZE < size && va + k * PGSIZE < WORD_LIMIT && Pgnum(va + k * PGSIZE) == Pgnum(a)
  {
    PgnumMonotone(va, a);
    k := Pgnum(a) - Pgnum(va);
    assert va == Pgnum(va) * 0x1000 + Pgoff(va) && a == Pgnum(a) * 0x1000 + Pgoff(a);
    assert size - 1 == (size - 1) / 0x1000 * 0x1000 + (size - 1) % 0x1000;
    assert k <= (size - 1) / 0x1000;
    PgnumOfPage(Pgnum(a), Pgoff(va));
  }

  /** The range check says yes exactly when every page that holds a byte of the range passes, for
      ranges that do not wrap around and whose every page is visited. */
  lemma CheckIff(v: Vm, d: nat, va: Word, size: Word, perm: nat)
    requires Wf(v) && d < |v.page| && perm < 0x1000 && va + size < WORD_LIMIT && Reached(va, size)
    requires forall a: Word :: va <= a < va + size ==> !BadTable(v, d, a)
    ensures Check(v, d, va, size, perm).Ok?
    ensures Check(v, d, va, size, perm).value <==> forall a: Word :: va <= a < va + size ==> PagePasses(v, d, a, perm)
  {
    hide Reached, PagePasses, BadTable, CheckFrom, Pgnum;
    CheckFromIff(v, d, va, va + size, perm);
    if Check(v, d, va, size, perm).value {
      forall a: Word | va <= a < va + size
        ensures PagePasses(v, d, a, perm)
      {
        var k := VisitsPage(va, size, a);
        PassesByPage(v, d, a, va + k * PGSIZE, perm);
      }
    }
  }

  /** A range whose end wraps around is accepted without looking at any page. */
  lemma WrappedIsAccepted(v: Vm, d: nat, va: Word, size: Word, perm: nat)
    requires Wf(v) && d < |v.page| && perm < 0x1000 && va + size >= WORD_LIMIT
    ensures Check(v, d, va, size, perm) == Ok(true)
  {
    assert Add32(va, size) == va + size - WORD_LIMIT < va;
  }

  lemma OnePage(v: Vm, d: nat, va: Word, size: Word, perm: nat)
    requires Wf(v) && d < |v.page| && perm < 0x1000 && 0 < size <= PGSIZE && va + size < WORD_LIMIT
        && PagePasses(v, d, va, perm)
    ensures Check(v, d, va, size, perm) == Ok(true)
  {
    assert Add32(va, size) == va + size;
    UnfoldCheck(v, d, va, va + size, perm);
    UnfoldCheck(v, d, va + PGSIZE, va + size, perm);
  }

  /** Aligned ranges always qualify. */
  lemma AlignedReached(va: Word, size: Word)
    requires va % PGSIZE == 0
    ensures Reached(va, size)
  {
  }

  /** So for page-aligned addresses, of any length that does not wrap around, the check is exact. */
  lemma AlignedCheckIff(v: Vm, d: nat, va: Word, size: Word, perm: nat)
    requires Wf(v) && d < |v.page| && perm < 0x1000 && va % PGSIZE == 0 && va + size < WORD_LIMIT
    requires forall a: Word :: va <= a < va + size ==> !BadTable(v, d, a)
    ensures Check(v, d, va, size, perm).Ok?
    ensures Check(v, d, va, size, perm).value <==> forall a: Word :: va <= a < va + size ==> PagePasses(v, d, a, perm)
  {
    hide Check, Reached, PagePasses, BadTable;
    AlignedReached(va, size);
    CheckIff(v, d, va, size, perm);
  }

  /** When the offsets overflow a page, the last page of the range is not looked at. */
  lemma LastPageSkipped(va: Word, size: Word)
    requires 0 < size && va + size < WORD_LIMIT && !Reached(va, size)
    ensures forall k: nat :: k * PGSIZE < size ==>
              va + k * PGSIZE < WORD_LIMIT && Pgnum(va + k * PGSIZE) < Pgnum(va + size - 1)
  {
    var e := va + size - 1;
    var q, o := (size - 1) / 0x1000, (size - 1) % 0x1000;
    assert size - 1 == q * 0x1000 + o && va == Pgnum(va) * 0x1000 + Pgoff(va);
    assert e == (Pgnum(va) + q + 1) * 0x1000 + (Pgoff(va) + o - 0x1000);
    PgnumOfPage(Pgnum(va) + q + 1, Pgoff(va) + o - 0x1000);
    forall k: nat | k * PGSIZE < size
      ensures va + k * PGSIZE < WORD_LIMIT && Pgnum(va + k * PGSIZE) < Pgnum(e)
    {
      assert k <= q;
      PgnumOfPage(Pgnum(va) + k, Pgoff(va));
    }
  }

  // Exactly which ranges the check can be trusted with

  /** Every byte of the range, taken around the end of the address space, is on a page that passes. */
  ghost predicate AllPass(v: Vm, d: nat, va: Word, size: Word, perm: nat)
    requires d < |v.page| && perm < 0x1000
  {
    forall j: nat :: j < size ==> BytePasses(v, d, va, j, perm)
  }

  /** The page of byte j of a range passes. */
  predicate BytePasses(v: Vm, d: nat, va: Word, j: nat, perm: nat)
    requires d < |v.page| && perm < 0x1000
  {
    PagePasses(v, d, (va + j) % WORD_LIMIT, perm)
  }

  ghost predicate NoBadTable(v: Vm, d: nat)
    requires d < |v.page|
  {
    forall a: Word :: !BadTable(v, d, a)
  }

  /** Whenever the check accepts this range, in whatever memory, it is right to. */
  ghost predicate Sound(va: Word, size: Word) {
    forall v: Vm, d: nat, perm: nat ::
      Wf(v) && d < |v.page| && perm < 0x1000 && NoBadTable(v, d) && Check(v, d, va, size, perm) == Ok(true) ==>
        AllPass(v, d, va, size, perm)
  }

  /** The page starts that the loop visits are all below ULIM. */
  ghost predicate VisitsBelowUlim(va: Word, size: Word) {
    forall k: nat :: va + k * PGSIZE < Add32(va, size) ==> va + k * PGSIZE < ULIM
  }

  /** The check can be trusted with a range exactly when the range does not wrap around and the
      loop reaches every page of it. */
  lemma CheckSoundIff(va: Word, size: Word)
    requires VisitsBelowUlim(va, size)
    ensures Sound(va, size) <==> size == 0 || (va + size < WORD_LIMIT && Reached(va, size))
  {
    hide Check, CheckFrom, Reached, PagePasses;
    if size == 0 || (va + size < WORD_LIMIT && Reached(va, size)) {
      forall v: Vm, d: nat, perm: nat |
        Wf(v) && d < |v.page| && perm < 0x1000 && NoBadTable(v, d) && Check(v, d, va, size, perm) == Ok(true)
        ensures AllPass(v, d, va, size, perm)
      {
        TrustedRange(v, d, va, size, perm);
      }
    } else if va + size >= WORD_LIMIT {
      WrappedIsUnsound(va, size);
    } else {
      SkippedIsUnsound(va, size);
    }
  }

  lemma TrustedRange(v: Vm, d: nat, va: Word, size: Word, perm: nat)
    requires Wf(v) && d < |v.page| && perm < 0x1000 && NoBadTable(v, d) && Check(v, d, va, size, perm) == Ok(true)
    requires size == 0 || (va + size < WORD_LIMIT && Reached(va, size))
    ensures AllPass(v, d, va, size, perm)
  {
    hide Check, CheckFrom, Reached, PagePasses;
    if size > 0 {
      CheckIff(v, d, va, size, perm);
    }
  }

  /** Four bytes across a page boundary, and a length that wraps around. */
  lemma UnsoundExamples()
    ensures !Sound(0x1FFE, 4) && !Sound(0x1000, 0xFFFF_FFFF)
  {
    SkippedIsUnsound(0x1FFE, 4);
    WrappedIsUnsound(0x1000, 0xFFFF_FFFF);
  }

  /** A visited page start at or above ULIM makes the check refuse. */
  lemma AboveUlimIsRefused(v: Vm, d: nat, va: Word, size: Word, perm: nat, k: nat)
    requires Wf(v) && d < |v.page| && perm < 0x1000 && NoBadTable(v, d)
    requires ULIM <= va + k * PGSIZE < Add32(va, size)
    ensures Check(v, d, va, size, perm) == Ok(false)
  {
    hide CheckFrom, SharesBit, FindPte;
    CheckFromIff(v, d, va, Add32(va, size), perm);
    assert !PagePasses(v, d, va + k * PGSIZE, perm);
  }

  // Memories that show it

  /** One frame, a directory without entries. */
  function Blank(): Vm {
    Vm([], [0], [ZeroPage()])
  }

  lemma WrappedIsUnsound(va: Word, size: Word)
    requires va + size >= WORD_LIMIT
    ensures !Sound(va, size)
  {
    var v := Blank();
    assert NoBadTable(v, 0);
    WrappedIsAccepted(v, 0, va, size, PTE_U);
    hide Check, SharesBit;
    assert (va + 0) % WORD_LIMIT == va && !BytePasses(v, 0, va, 0, PTE_U);
    assert !AllPass(v, 0, va, size, PTE_U);
  }

  function PteBut(i: int, y: int): Word {
    if i == y then 0 else MakePte(0, 7)
  }

  function PdeBut(i: int, x: int): Word {
    MakePte(if i == x then 2 else 1, 7)
  }

  /** A table whose entries are all present for the user, but for entry y. */
  function TableBut(y: nat): (p: Page)
    ensures forall i :: 0 <= i < 1024 ==> p[i] == if i == y then 0 else MakePte(0, 7)
  {
    seq(1024, (i: int) => PteBut(i, y))
  }

  function DirectoryBut(x: nat): (p: Page)
    ensures forall i :: 0 <= i < 1024 ==> p[i] == MakePte(if i == x then 2 else 1, 7)
  {
    seq(1024, (i: int) => PdeBut(i, x))
  }

  /** Everything is mapped for the user, but for one page. */
  function AllBut(x: nat, y: nat): (v: Vm)
    ensures Wf(v) && |v.page| == 3
  {
    Vm([], [0, 0, 0], [DirectoryBut(x), TableBut(1024), TableBut(y)])
  }

  lemma AllButPasses(q: Word, a: Word)
    requires a < ULIM
    ensures PagePasses(AllBut(Pdx(q), Ptx(q)), 0, a, PTE_U) <==> Pgnum(a) != Pgnum(q)
  {
    hide SharesBit, AllBut, Pgnum, Pdx, Ptx, Frame, Present, MakePte, Flags, WithPresent;
    SamePage(a, q);
    AllButEntry(Pdx(q), Ptx(q), Pdx(a), Ptx(a));
    FullAndEmpty();
  }

  lemma AllButEntry(x: nat, y: nat, i: nat, j: nat)
    requires x < 1024 && y < 1024 && i < 1024 && j < 1024
    ensures var v := AllBut(x, y);
            var pde := v.page[0][i];
            && Present(pde) && Frame(pde) < 3
            && v.page[Frame(pde)][j] == if i == x && j == y then 0 else MakePte(0, 7)
  {
    hide DirectoryBut, TableBut, MakePte;
    assert AllBut(x, y).page[0][i] == MakePte(if i == x then 2 else 1, 7);
  }

  lemma FullAndEmpty()
    ensures SharesBit(Flags(MakePte(0, 7)), WithPresent(PTE_U)) && !SharesBit(Flags(0), WithPresent(PTE_U))
  {
    assert SharesBit(7, 5) && !SharesBit(0, 5);
  }

  lemma SkippedIsUnsound(va: Word, size: Word)
    requires 0 < size && va + size < WORD_LIMIT && !Reached(va, size) && VisitsBelowUlim(va, size)
    ensures !Sound(va, size)
  {
    hide Check, CheckFrom, SharesBit, AllBut, PagePasses, Reached, Add32, Pgnum, VisitsBelowUlim, Pdx, Ptx;
    var q := va + size - 1;
    var v := AllBut(Pdx(q), Ptx(q));
    AllButIsGood(q);
    SkippedIsAccepted(va, size);
    AllButFails(q);
    LastByte(v, va, size);
  }

  lemma LastByte(v: Vm, va: Word, size: Word)
    requires 0 < size && va + size < WORD_LIMIT && 0 < |v.page| && !PagePasses(v, 0, va + size - 1, PTE_U)
    ensures !AllPass(v, 0, va, size, PTE_U)
  {
    hide PagePasses;
    assert (va + (size - 1)) % WORD_LIMIT == va + size - 1;
    assert !BytePasses(v, 0, va, size - 1, PTE_U);
  }

  lemma SkippedIsAccepted(va: Word, size: Word)
    requires 0 < size && va + size < WORD_LIMIT && !Reached(va, size) && VisitsBelowUlim(va, size)
    ensures var q := va + size - 1; Check(AllBut(Pdx(q), Ptx(q)), 0, va, size, PTE_U) == Ok(true)
  {
    hide CheckFrom, SharesBit, AllBut, PagePasses, Reached, Pgnum, Pdx, Ptx, BadTable;
    var q := va + size - 1;
    var v := AllBut(Pdx(q), Ptx(q));
    AllButIsGood(q);
    CheckIs(v, 0, va, size, PTE_U);
    CheckFromIff(v, 0, va, va + size, PTE_U);
    LastPageSkipped(va, size);
    forall k: nat | va + k * PGSIZE < va + size
      ensures PagePasses(v, 0, va + k * PGSIZE, PTE_U)
    {
      VisitedBelow(va, size, k);
      AllButPasses(q, va + k * PGSIZE);
    }
  }

  lemma VisitedBelow(va: Word, size: Word, k: nat)
    requires va + size < WORD_LIMIT && VisitsBelowUlim(va, size) && k * PGSIZE < size
    ensures va + k * PGSIZE < ULIM
  {
    assert Add32(va, size) == va + size;
    hide Add32;
  }

  lemma {:induction false} CheckIs(v: Vm, d: nat, va: Word, size: Word, perm: nat)
    requires Wf(v) && d < |v.page| && perm < 0x1000 && va + size < WORD_LIMIT
    ensures Check(v, d, va, size, perm) == CheckFrom(v, d, va, va + size, perm)
  {
    hide CheckFrom;
    assert Add32(va, size) == va + size;
  }

  lemma AllButIsGood(q: Word)
    ensures var v := AllBut(Pdx(q), Ptx(q)); Wf(v) && |v.page| == 3 && NoBadTable(v, 0)
  {
  }

  lemma AllButFails(q: Word)
    ensures !PagePasses(AllBut(Pdx(q), Ptx(q)), 0, q, PTE_U)
  {
    assert !SharesBit(0, 5);
    hide SharesBit;
  }

  // What a page that passes is good for

  /** All bits of b are set in a: the two as twelve flag bits. */
  predicate HasBits(a: nat, b: nat)
    decreases b
  {
    b == 0 || ((b % 2 == 1 ==> a % 2 == 1) && HasBits(a / 2, b / 2))
  }

  /** The page at va satisfies perm: it is present, and has all the bits that are asked for. */
  predicate PageGrants(v: Vm, d: nat, va: Word, perm: nat)
    requires d < |v.page| && perm < 0x1000
  {
    var pde := v.page[d][Pdx(va)];
    va < ULIM && Present(pde) && Frame(pde) < |v.page|
    && HasBits(Flags(v.page[Frame(pde)][Ptx(va)]), WithPresent(perm))
  }

  /** Bit 0 is always asked for, so whoever has all the bits shares one. */
  lemma GrantsPass(v: Vm, d: nat, va: Word, perm: nat)
    requires d < |v.page| && perm < 0x1000 && PageGrants(v, d, va, perm)
    ensures PagePasses(v, d, va, perm)
  {
    hide HasBits;
    var pde := v.page[d][Pdx(va)];
    var a, b := Flags(v.page[Frame(pde)][Ptx(va)]), WithPresent(perm);
    LowestBit(a, b);
  }

  lemma LowestBit(a: nat, b: nat)
    requires b % 2 == 1 && HasBits(a, b)
    ensures SharesBit(a, b)
  {
  }

  ghost predicate AllGrant(v: Vm, d: nat, va: Word, size: Word, perm: nat)
    requires d < |v.page| && perm < 0x1000
  {
    forall j: nat :: j < size ==> ByteGrants(v, d, va, j, perm)
  }

  /** The page of byte j of a range satisfies perm. */
  predicate ByteGrants(v: Vm, d: nat, va: Word, j: nat, perm: nat)
    requires d < |v.page| && perm < 0x1000
  {
    PageGrants(v, d, (va + j) % WORD_LIMIT, perm)
  }

  /** The entries that the loop looks at are all or nothing: those that share a bit with perm | PTE_P have all
      of them. */
  ghost predicate AllOrNothing(v: Vm, d: nat, va: Word, size: Word, perm: nat)
    requires d < |v.page| && perm < 0x1000
  {
    forall k: nat :: k * PGSIZE < size && va + k * PGSIZE < WORD_LIMIT && PagePasses(v, d, va + k * PGSIZE, perm) ==>
      PageGrants(v, d, va + k * PGSIZE, perm)
  }

  /**
   The check is for all bits of perm | PTE_P, but asks for one of them. On ranges of which it visits every page,
   a range that is accepted satisfies perm if and only if no visited entry has only some of the bits.
   */
  lemma CheckGrantsIff(v: Vm, d: nat, va: Word, size: Word, perm: nat)
    requires Wf(v) && d < |v.page| && perm < 0x1000 && NoBadTable(v, d)
    requires size == 0 || (va + size < WORD_LIMIT && Reached(va, size))
    requires Check(v, d, va, size, perm) == Ok(true)
    ensures AllGrant(v, d, va, size, perm) <==> AllOrNothing(v, d, va, size, perm)
  {
    hide Check, CheckFrom, Reached, PagePasses, PageGrants, BytePasses;
    if AllGrant(v, d, va, size, perm) {
      forall k: nat | k * PGSIZE < size && va + k * PGSIZE < WORD_LIMIT
        ensures PageGrants(v, d, va + k * PGSIZE, perm)
      {
        assert ByteGrants(v, d, va, k * PGSIZE, perm);
      }
    }
    if AllOrNothing(v, d, va, size, perm) && size > 0 {
      CheckFromIff(v, d, va, va + size, perm);
      CheckIs(v, d, va, size, perm);
      forall j: nat | j < size
        ensures ByteGrants(v, d, va, j, perm)
      {
        var k := VisitsPage(va, size, va + j);
        assert va + k * PGSIZE < va + size;
        GrantsByPage(v, d, va + j, va + k * PGSIZE, perm);
      }
    }
  }

  lemma GrantsByPage(v: Vm, d: nat, a: Word, b: Word, perm: nat)
    requires d < |v.page| && perm < 0x1000 && Pgnum(a) == Pgnum(b)
    ensures PageGrants(v, d, a, perm) == PageGrants(v, d, b, perm)
  {
    SamePage(a, b);
    assert a < ULIM <==> Pgnum(a) < 0xD_F800;
    assert b < ULIM <==> Pgnum(b) < 0xD_F800;
  }

  /** Whenever the check for user access accepts this range, in whatever memory, the user has access. */
  ghost predicate Trustworthy(va: Word, size: Word) {
    forall v: Vm, d: nat ::
      Wf(v) && d < |v.page| && NoBadTable(v, d) && Check(v, d, va, size, PTE_U) == Ok(true) ==>
        AllGrant(v, d, va, size, PTE_U)
  }

  /** So no range below ULIM can be trusted with the check alone, but for the empty one. */
  lemma NothingTrusted(va: Word, size: Word)
    requires VisitsBelowUlim(va, size)
    ensures Trustworthy(va, size) <==> size == 0
  {
    hide Check, CheckFrom, PageGrants, VisitsBelowUlim, Uniform, BadTable;
    if size > 0 {
      var v := Uniform(1, 7, PTE_P);
      KernelOnlyPasses(va, size);
      KernelOnlyDenies(va);
      assert (va + 0) % WORD_LIMIT == va;
      assert !ByteGrants(v, 0, va, 0, PTE_U);
      assert !AllGrant(v, 0, va, size, PTE_U);
    }
  }

  function SamePte(w: Word): (p: Page)
    ensures forall i :: 0 <= i < 1024 ==> p[i] == w
  {
    seq(1024, (i: int) => w)
  }

  /** A directory of which every entry is for one page table, of which every entry is for frame 0. */
  function Uniform(t: nat, p: nat, q: nat): (v: Vm)
    requires t < 0x10_0000 && p < 0x1000 && q < 0x1000
    ensures Wf(v) && |v.page| == 2
  {
    Vm([], [0, 0], [SamePte(MakePte(t, p)), SamePte(MakePte(0, q))])
  }

  /** A present page of the kernel is not user-accessible, */
  lemma KernelOnlyDenies(a: Word)
    ensures !PageGrants(Uniform(1, 7, PTE_P), 0, a, PTE_U)
  {
    hide SamePte;
    assert !HasBits(1, 5);
    hide HasBits;
  }

  /** but passes the check for user access. */
  lemma KernelOnlyPasses(va: Word, size: Word)
    requires VisitsBelowUlim(va, size)
    ensures NoBadTable(Uniform(1, 7, PTE_P), 0) && Check(Uniform(1, 7, PTE_P), 0, va, size, PTE_U) == Ok(true)
  {
    hide CheckFrom, SharesBit, FindPte, SamePte;
    var v := Uniform(1, 7, PTE_P);
    CheckFromIff(v, 0, va, Add32(va, size), PTE_U);
    forall k: nat | va + k * PGSIZE < Add32(va, size)
      ensures PagePasses(v, 0, va + k * PGSIZE, PTE_U)
    {
      assert va + k * PGSIZE < ULIM;
      SharesOne();
    }
  }

  lemma SharesOne()
    ensures SharesBit(1, 5)
  {
  }

  // The test of the loop, bit by bit

  /** Bit k of a number. */
  predicate Bit(a: nat, k: nat)
    decreases k
  {
    if k == 0 then a % 2 == 1 else Bit(a / 2, k - 1)
  }

  lemma {:induction false} NoBits(k: nat)
    ensures !Bit(0, k)
    decreases k
  {
    if k > 0 {
      NoBits(k - 1);
    }
  }

  lemma {:induction false} SharedBit(a: nat, b: nat) returns (k: nat)
    requires SharesBit(a, b)
    ensures Bit(a, k) && Bit(b, k)
    decreases a
  {
    if a % 2 == 1 && b % 2 == 1 {
      k := 0;
    } else {
      var j := SharedBit(a / 2, b / 2);
      k := j + 1;
    }
  }

  lemma {:induction false} BitShares(a: nat, b: nat, k: nat)
    requires Bit(a, k) && Bit(b, k)
    ensures SharesBit(a, b)
    decreases k
  {
    if k > 0 {
      BitShares(a / 2, b / 2, k - 1);
      assert a / 2 > 0 && b / 2 > 0;
    }
  }

  /** The test is for a bit that both numbers have. */
  lemma SharesBitIff(a: nat, b: nat)
    ensures SharesBit(a, b) <==> exists k: nat :: CommonBit(a, b, k)
  {
    if SharesBit(a, b) {
      var k := SharedBit(a, b);
      assert CommonBit(a, b, k);
    }
    if k: nat :| CommonBit(a, b, k) {
      BitShares(a, b, k);
    }
  }

  predicate CommonBit(a: nat, b: nat, k: nat) {
    Bit(a, k) && Bit(b, k)
  }

  lemma {:induction false} HasEachBit(a: nat, b: nat, k: nat)
    requires HasBits(a, b) && Bit(b, k)
    ensures Bit(a, k)
    decreases k
  {
    if b == 0 {
      NoBits(k);
    } else if k > 0 {
      HasEachBit(a / 2, b / 2, k - 1);
    }
  }

  lemma {:induction false} MissesBit(a: nat, b: nat) returns (k: nat)
    requires !HasBits(a, b)
    ensures Bit(b, k) && !Bit(a, k)
    decreases b
  {
    if b % 2 == 1 && a % 2 != 1 {
      k := 0;
    } else {
      var j := MissesBit(a / 2, b / 2);
      k := j + 1;
    }
  }

  /** To grant perm is to have all its bits. */
  lemma HasBitsIff(a: nat, b: nat)
    ensures HasBits(a, b) <==> forall k: nat :: Bit(b, k) ==> Bit(a, k)
  {
    if HasBits(a, b) {
      forall k: nat | Bit(b, k)
        ensures Bit(a, k)
      {
        HasEachBit(a, b, k);
      }
    } else {
      var k := MissesBit(a, b);
    }
  }

  /** For PTE_U: the entry is present or the user's, and the page lies below 0xDF800000. */
  lemma UserTest(v: Vm, d: nat, va: Word)
    requires d < |v.page|
    ensures PagePasses(v, d, va, PTE_U) <==>
              && va < 0xDF80_0000 && v.page[d][va / 0x40_0000] % 2 == 1 && v.page[d][va / 0x40_0000] / 0x1000 < |v.page|
              && var e := v.page[v.page[d][va / 0x40_0000] / 0x1000][va / 0x1000 % 1024];
                 e % 2 == 1 || e % 8 >= 4
  {
    var pde := v.page[d][Pdx(va)];
    if Frame(pde) < |v.page| {
      var e := v.page[Frame(pde)][Ptx(va)];
      ThirdBit(Flags(e));
      FlagsBits(e);
      hide SharesBit;
    }
  }

  lemma FlagsBits(e: Word)
    ensures Flags(e) % 2 == e % 2 && Flags(e) % 8 == e % 8
  {
    UserBit(e / 0x1000, e % 0x1000);
    PresentBit(e / 0x1000, e % 0x1000);
  }

  lemma ThirdBit(p: nat)
    ensures SharesBit(p, 5) <==> p % 2 == 1 || p % 8 >= 4
  {
    SharesStep(p, 5);
    SharesStep(p / 2, 2);
    SharesStep(p / 2 / 2, 1);
    SharesStep(p / 2 / 2 / 2, 0);
    hide SharesBit;
    FourthOf(p);
  }

  lemma SharesStep(a: nat, b: nat)
    ensures SharesBit(a, b) <==> a > 0 && b > 0 && ((a % 2 == 1 && b % 2 == 1) || SharesBit(a / 2, b / 2))
  {
  }

  lemma FourthOf(p: nat)
    ensures p % 8 >= 4 <==> p / 2 / 2 % 2 == 1
    ensures p % 8 >= 4 ==> p > 0 && p / 2 > 0 && p / 2 / 2 > 0
  {
    Eighths(p / 8, p % 8);
    assert p == 8 * (p / 8) + p % 8;
  }

  lemma Eighths(q: nat, r: nat)
    requires r < 8
    ensures (8 * q + r) / 2 == 4 * q + r / 2 && (4 * q + r / 2) / 2 == 2 * q + r / 4 && (2 * q + r / 4) % 2 == r / 4
    ensures r >= 4 <==> r / 4 == 1
  {
  }
}
