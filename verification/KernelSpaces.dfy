/**
 Building and tearing down task address spaces in place (kernel/task.cc): the memory half of
 setupMemory, regionAlloc, loadElf and free, proved against the functions of AddressSpaces and
 ElfLoader, with the translation cache in agreement throughout.
 */
module KernelSpaces {
  import opened Wrappers
  import opened Mmu
  import opened FreeList
  import opened PageTables
  import opened Ownership
  import opened TranslationCache
  import opened CacheSafety
  import opened KernelMemory
  import AddressSpaces
  import ElfLoader
  import MmioSafety
  import MmioWindows
  import StaticMaps
  import UserMemory

  class SpaceManager {
    const mem: Memory
    /** The frame of the kernel's page directory. */
    const kd: nat

    ghost predicate Ready()
      reads this, mem, mem.refCount, mem.nextFree
    {
      mem.Valid() && kd < mem.frames.Length && mem.cr3 < mem.frames.Length
    }

    constructor (m: Memory, dir: nat)
      requires m.Valid() && dir < m.frames.Length && m.cr3 < m.frames.Length
      ensures mem == m && kd == dir && Ready()
    {
      mem, kd := m, dir;
    }

    /** setupMemory: a directory that repeats the kernel's and maps itself. */
    method SetupMemory() returns (f: int)
      requires Ready()
      modifies mem`freeList, mem`free, mem`tlb, mem.nextFree, mem.refCount, mem.frames
      ensures Ready() && Wf(old(mem.State()))
      ensures (mem.State(), if f == NIL then None else Some(f)) == AddressSpaces.SetupMemory(old(mem.State()), kd)
      ensures f != NIL ==> 0 <= f < mem.frames.Length
      ensures old(mem.Coherent()) && old(NotInTree(mem.Tables(), mem.cr3, mem.free)) ==> mem.Coherent()
    {
      hide IsList, Unlinked, Agrees, MayFollow, NotInTree, OnlyAt;
      mem.ValidIsWf();
      ghost var t0, c, good := mem.Tables(), mem.cr3, mem.Coherent() && NotInTree(mem.Tables(), mem.cr3, mem.free);
      f := mem.Alloc(true);
      if f == NIL {
        return;
      }
      if good {
        ClearedIsApart(t0, c, old(mem.free), f, mem.Tables());
      }
      mem.CopyFrame(f, kd);
      mem.IncRef(f);
      ghost var t1, tlb1 := mem.Tables(), mem.tlb;
      mem.Put(f, UVPTX, SelfMap(f));
      if good {
        StoreElsewhere(t1, c, tlb1, f, UVPTX, SelfMap(f));
        FollowingAgrees(mem.Tables(), c, tlb1, mem.tlb, {});
      }
    }

    /** mmioMap in a running kernel: whichever directory is loaded, no cached translation goes stale. */
    method MapDevice(pa: Word, size: Word) returns (ok: bool, va: Word)
      requires Ready() && pa % PGSIZE == 0
      modifies mem`freeList, mem`free, mem`tlb, mem`mmioNext, mem.nextFree, mem.refCount, mem.frames
      ensures Wf(old(mem.State()))
      ensures !ok <==> MmioWindows.MmioMap(old(mem.State()), kd, old(mem.mmioNext), pa, size) == Panic
      ensures ok ==>
                && Ready()
                && MmioWindows.MmioMap(old(mem.State()), kd, old(mem.mmioNext), pa, size) ==
                     Ok((mem.State(), mem.mmioNext, va))
      ensures ok && old(mem.Coherent()) && old(Loaded(mem.State(), kd, mem.cr3))
              && MmioWindows.GoodNext(old(mem.mmioNext)) && MmioWindows.GoodRequest(MmioWindows.Request(pa, size))
              ==> mem.Coherent()
    {
      hide IsList, Unlinked, Agrees, Loaded, Editable, ClearOfSelfMap, RoundUp, Add32, MmioWindows.WindowPages;
      hide StaticMaps.StaticMap;
      mem.ValidIsWf();
      ghost var next, q := mem.mmioNext, MmioWindows.Request(pa, size);
      if Loaded(mem.State(), kd, mem.cr3) && MmioWindows.GoodNext(next) && MmioWindows.GoodRequest(q) {
        MmioWindows.MmioArith(next, q);
        if next + MmioWindows.WindowPages(size) * PGSIZE < MMIOLIM {
          MmioSafety.MmioIsCoherent(mem.State(), kd, mem.cr3, next, q);
        }
      }
      ok, va := mem.MmioMap(kd, pa, size);
    }

    /** One round of regionAlloc: a zeroed frame, mapped at va. */
    method AllocPage(d: nat, va: Word) returns (ok: bool)
      requires Ready() && d < mem.frames.Length && !AddressSpaces.AllocPage(mem.State(), d, va).Cyclic?
      modifies mem`freeList, mem`free, mem`tlb, mem.nextFree, mem.refCount, mem.frames
      ensures Wf(old(mem.State())) && (!ok <==> AddressSpaces.AllocPage(old(mem.State()), d, va) == Panic)
      ensures ok ==> Ready() && AddressSpaces.AllocPage(old(mem.State()), d, va) == Ok(mem.State())
      ensures ok && old(mem.Coherent() && Owned(mem.State(), kd, d, mem.cr3) && Usable(mem.State(), kd, Pdx(va)))
              ==> mem.Coherent() && Owned(mem.State(), kd, d, mem.cr3) && mem.frames[kd] == old(mem.frames[kd])
    {
      hide IsList, Unlinked, EndsInNil, Agrees, MayFollow, NotInTree, OnlyAt, Owned, TableApart, CanGrow,
          PageTables.Insert;
      mem.ValidIsWf();
      ghost var v0, c := mem.State(), mem.cr3;
      ghost var good := mem.Coherent() && Owned(v0, kd, d, c) && Usable(v0, kd, Pdx(va));
      if good {
        OwnedApart(v0, mem.Tables(), kd, d, c, Pdx(va));
      }
      var page := mem.Alloc(true);
      if page == NIL {
        return false;
      }
      if good {
        OwnedAllocFrame(v0, kd, d, c);
        OwnedApart(mem.State(), mem.Tables(), kd, d, c, Pdx(va));
      }
      var done;
      ok, done := mem.Insert(d, page, va, PTE_U + PTE_W);
      ok := ok && done;
      if good && ok {
        OwnedAllocPage(v0, kd, d, c, va, mem.State());
      }
    }

    /** regionAlloc: zeroed pages for the addresses from va up to va + len. */
    method RegionAlloc(d: nat, va: Word, len: Word) returns (ok: bool)
      requires Ready() && d < mem.frames.Length && !AddressSpaces.RegionAlloc(mem.State(), d, va, len).Cyclic?
      modifies mem`freeList, mem`free, mem`tlb, mem.nextFree, mem.refCount, mem.frames
      ensures Wf(old(mem.State())) && (!ok <==> AddressSpaces.RegionAlloc(old(mem.State()), d, va, len) == Panic)
      ensures ok ==> Ready() && AddressSpaces.RegionAlloc(old(mem.State()), d, va, len) == Ok(mem.State())
      ensures ok && old(mem.Coherent()) && old(Owned(mem.State(), kd, d, mem.cr3))
              && old(RangeUsable(mem.State(), kd, va, len)) && len > 0
              ==> mem.Coherent() && Owned(mem.State(), kd, d, mem.cr3) && mem.frames[kd] == old(mem.frames[kd])
    {
      hide IsList, Unlinked, Agrees, Owned, AddressSpaces.AllocPages, AddressSpaces.AllocPage, RoundUp, RoundDown,
          Pgnum, Add32, Pdx;
      mem.ValidIsWf();
      RegionPageNumbers(va, len);
      var lo, hi := RoundDown(va, PGSIZE), RoundUp(Add32(va, len), PGSIZE);
      if lo >= hi {
        return false;
      }
      ghost var v0 := mem.State();
      ghost var good := mem.Coherent() && Owned(v0, kd, d, mem.cr3) && RangeUsable(v0, kd, va, len) && len > 0;
      ghost var p, q := Pgnum(lo), Pgnum(hi);
      var it: int := lo;
      while it < hi
        invariant it == p * PGSIZE && p <= q && Ready() && Wf(mem.State())
        invariant AddressSpaces.AllocPages(v0, d, Pgnum(lo), q) == AddressSpaces.AllocPages(mem.State(), d, p, q)
        invariant good ==> mem.Coherent() && Owned(mem.State(), kd, d, mem.cr3) && mem.frames[kd] == v0.page[kd]
      {
        AddressSpaces.UnfoldAllocPages(mem.State(), d, p, q);
        if good {
          UsablePage(mem.State(), kd, va, len, p);
        }
        ok := AllocPage(d, it);
        if !ok {
          return;
        }
        it := it + PGSIZE;
        p := p + 1;
      }
      AddressSpaces.UnfoldAllocPages(mem.State(), d, p, q);
      ok := true;
    }

    /** The pages of one page table: the inner loop of free. */
    method FreeEntries(d: nat, x: nat, t: nat) returns (ok: bool)
      requires Ready() && d < mem.frames.Length && x < UTOPX && t < mem.frames.Length
      requires !AddressSpaces.FreeEntries(mem.State(), d, x, t, 0).Cyclic?
      modifies mem`freeList, mem`free, mem`tlb, mem.nextFree, mem.refCount, mem.frames
      ensures Wf(old(mem.State())) && (!ok <==> AddressSpaces.FreeEntries(old(mem.State()), d, x, t, 0) == Panic)
      ensures ok ==> Ready() && AddressSpaces.FreeEntries(old(mem.State()), d, x, t, 0) == Ok(mem.State())
      ensures ok && old(mem.Coherent()) && old(Apart(mem.Tables(), mem.cr3, d)) ==>
                mem.Coherent() && Apart(mem.Tables(), mem.cr3, d)
    {
      hide IsList, Unlinked, EndsInNil, Agrees, Apart, TableApart, OnlyAt, AddressSpaces.FreeEntries, PageTables.Remove;
      mem.ValidIsWf();
      ghost var v0, good := mem.State(), mem.Coherent() && Apart(mem.Tables(), mem.cr3, d);
      var y := 0;
      while y < NENTRIES
        invariant 0 <= y <= NENTRIES && Ready() && Wf(mem.State())
        invariant AddressSpaces.FreeEntries(v0, d, x, t, 0) == AddressSpaces.FreeEntries(mem.State(), d, x, t, y)
        invariant good ==> mem.Coherent() && Apart(mem.Tables(), mem.cr3, d)
      {
        ghost var t1 := mem.Tables();
        AddressSpaces.UnfoldFreeEntries(mem.State(), d, x, t, y);
        if Present(mem.frames[t][y]) {
          PgaddrRoundTrip(x, y, 0);
          if good {
            ApartTable(t1, t1, mem.cr3, d, x);
          }
          ok := mem.Remove(d, Pgaddr(x, y, 0));
          if !ok {
            return;
          }
          if good {
            StillApart(t1, mem.cr3, d, mem.Tables());
          }
        }
        y := y + 1;
      }
      AddressSpaces.UnfoldFreeEntries(mem.State(), d, x, t, y);
      ok := true;
    }

    /** One directory entry: its pages, the entry, and the page table. */
    method FreeTable(d: nat, x: nat) returns (ok: bool)
      requires Ready() && d < mem.frames.Length && x < UTOPX && !AddressSpaces.FreeTable(mem.State(), d, x).Cyclic?
      modifies mem`freeList, mem`free, mem`tlb, mem.nextFree, mem.refCount, mem.frames
      ensures Wf(old(mem.State())) && (!ok <==> AddressSpaces.FreeTable(old(mem.State()), d, x) == Panic)
      ensures ok ==> Ready() && AddressSpaces.FreeTable(old(mem.State()), d, x) == Ok(mem.State())
      ensures ok && old(mem.Coherent()) && old(Apart(mem.Tables(), mem.cr3, d)) ==>
                mem.Coherent() && Apart(mem.Tables(), mem.cr3, d)
    {
      hide IsList, Unlinked, EndsInNil, Agrees, MayFollow, Apart, OnlyAt, AddressSpaces.FreeEntries, PageTables.DecRef;
      mem.ValidIsWf();
      ghost var good := mem.Coherent() && Apart(mem.Tables(), mem.cr3, d);
      var pde := mem.frames[d][x];
      if !Present(pde) {
        return true;
      }
      if Frame(pde) >= mem.frames.Length {
        return false;
      }
      ok := FreeEntries(d, x, Frame(pde));
      if !ok {
        return;
      }
      ghost var t1, tlb1 := mem.Tables(), mem.tlb;
      mem.Put(d, x, 0);
      if good {
        ApartTable(t1, t1, mem.cr3, d, x);
        StoreElsewhere(t1, mem.cr3, tlb1, d, x, 0);
        FollowingAgrees(mem.Tables(), mem.cr3, tlb1, mem.tlb, {});
        OtherPage(t1, mem.cr3, d, x);
        StillApart(t1, mem.cr3, d, mem.Tables());
      }
      ok := mem.DecRef(Frame(pde));
    }

    /** free, as far as memory is concerned: everything below UTOP, and then the directory. */
    method FreeSpace(d: nat) returns (ok: bool)
      requires Ready() && d < mem.frames.Length && !AddressSpaces.FreeSpace(mem.State(), d).Cyclic?
      modifies mem`freeList, mem`free, mem`tlb, mem.nextFree, mem.refCount, mem.frames
      ensures Wf(old(mem.State())) && (!ok <==> AddressSpaces.FreeSpace(old(mem.State()), d) == Panic)
      ensures ok ==> Ready() && AddressSpaces.FreeSpace(old(mem.State()), d) == Ok(mem.State())
      ensures ok && old(mem.Coherent()) && old(Owned(mem.State(), kd, d, mem.cr3)) && d != mem.cr3 ==> mem.Coherent()
    {
      hide IsList, Unlinked, EndsInNil, Agrees, Apart, Owned, AddressSpaces.FreeTables, AddressSpaces.FreeTable,
          PageTables.DecRef;
      mem.ValidIsWf();
      ghost var v0, good := mem.State(), mem.Coherent() && Owned(mem.State(), kd, d, mem.cr3) && d != mem.cr3;
      if good {
        OwnedIsApart(v0, kd, d, mem.cr3);
        SameApart(v0, mem.Tables(), mem.cr3, d);
      }
      var x := 0;
      while x < UTOPX
        invariant 0 <= x <= UTOPX && Ready() && Wf(mem.State())
        invariant AddressSpaces.FreeTables(v0, d, 0) == AddressSpaces.FreeTables(mem.State(), d, x)
        invariant good ==> mem.Coherent() && Apart(mem.Tables(), mem.cr3, d)
      {
        AddressSpaces.UnfoldFreeTables(mem.State(), d, x);
        ok := FreeTable(d, x);
        if !ok {
          return;
        }
        x := x + 1;
      }
      AddressSpaces.UnfoldFreeTables(mem.State(), d, x);
      ok := mem.DecRef(d);
    }

    /** mem::copy of bytes to address a of the loaded directory. */
    method CopyOut(a: Word, bytes: seq<Byte>) returns (ok: bool)
      requires Ready() && Wf(mem.State()) && !UserMemory.CopyOut(mem.State(), mem.cr3, a, bytes, 0).Cyclic?
      modifies mem`tlb, mem.frames
      ensures Wf(old(mem.State())) && (!ok <==> UserMemory.CopyOut(old(mem.State()), mem.cr3, a, bytes, 0) == Panic)
      ensures ok ==> Ready() && UserMemory.CopyOut(old(mem.State()), mem.cr3, a, bytes, 0) == Ok(mem.State())
      ensures ok && old(mem.Coherent()) && old(Owned(mem.State(), kd, mem.cr3, mem.cr3))
              && old(RangeUsable(mem.State(), kd, a, |bytes|))
              ==> mem.Coherent() && Owned(mem.State(), kd, mem.cr3, mem.cr3) && mem.frames[kd] == old(mem.frames[kd])
    {
      hide IsList, Unlinked, Agrees, Owned, OnlyAt, UserMemory.CopyOut, UserMemory.StoreByte, Walk;
      ghost var v0, d := mem.State(), mem.cr3;
      ghost var good := mem.Coherent() && Owned(v0, kd, d, d) && RangeUsable(v0, kd, a, |bytes|);
      var k := 0;
      while k < |bytes|
        invariant 0 <= k <= |bytes| && Ready() && Wf(mem.State())
        invariant UserMemory.CopyOut(v0, d, a, bytes, 0) == UserMemory.CopyOut(mem.State(), d, a, bytes, k)
        invariant good ==> mem.Coherent() && Owned(mem.State(), kd, d, d) && mem.frames[kd] == v0.page[kd]
      {
        ghost var v, u, b := mem.State(), mem.Tables(), (a + k) % WORD_LIMIT;
        UserMemory.UnfoldCopyOut(v, d, a, bytes, k);
        if good {
          UsableByte(v, kd, a, |bytes|, k);
          if UserMemory.StoreByte(v, d, b, bytes[k]).Ok? {
            OwnedStoreByte(v, u, kd, d, d, b, bytes[k], UserMemory.StoreByte(v, d, b, bytes[k]).value);
            SameWalk(v, u, d, b);
          }
        }
        ok := mem.StoreByte((a + k) % WORD_LIMIT, bytes[k]);
        if !ok {
          return;
        }
        k := k + 1;
      }
      UserMemory.UnfoldCopyOut(mem.State(), d, a, bytes, k);
      ok := true;
    }

    /** One program header. */
    method LoadSegment(elf: ElfLoader.Elf, s: ElfLoader.Segment) returns (ok: bool)
      requires Ready() && Wf(mem.State()) && (ElfLoader.Loadable(s) ==> s.offset + s.filesz <= |elf.file|)
      requires !ElfLoader.LoadSegment(mem.State(), mem.cr3, elf, s).Cyclic?
      modifies mem`freeList, mem`free, mem`tlb, mem.nextFree, mem.refCount, mem.frames
      ensures Wf(old(mem.State())) && (!ok <==> ElfLoader.LoadSegment(old(mem.State()), mem.cr3, elf, s) == Panic)
      ensures ok ==> Ready() && ElfLoader.LoadSegment(old(mem.State()), mem.cr3, elf, s) == Ok(mem.State())
      ensures ok && old(mem.Coherent()) && old(Owned(mem.State(), kd, mem.cr3, mem.cr3))
              && (ElfLoader.Loadable(s) ==> old(RangeUsable(mem.State(), kd, s.va, s.memsz)) && s.filesz <= s.memsz)
              ==> mem.Coherent() && Owned(mem.State(), kd, mem.cr3, mem.cr3) && mem.frames[kd] == old(mem.frames[kd])
    {
      hide IsList, Unlinked, Agrees, Owned, UserMemory.CopyOut, AddressSpaces.RegionAlloc, RangeUsable;
      if s.kind != ElfLoader.ELF_PROG_LOAD || s.memsz == 0 {
        return true;
      }
      ghost var v0 := mem.State();
      ok := RegionAlloc(mem.cr3, s.va, s.memsz);
      if !ok {
        return;
      }
      if s.filesz <= s.memsz && mem.frames[kd] == v0.page[kd] {
        UsableKept(v0, mem.State(), kd);
        UsablePart(mem.State(), kd, s.va, s.memsz, s.filesz);
      }
      ok := CopyOut(s.va, ElfLoader.FileBytes(elf, s));
    }

    /** loadElf: the segments through the task's own directory, and then the stack page. */
    method LoadElf(d: nat, elf: ElfLoader.Elf) returns (ok: bool)
      requires Ready() && Wf(mem.State()) && d < mem.frames.Length && ElfLoader.Complete(elf)
      requires !ElfLoader.LoadElf(mem.State(), d, elf).Cyclic?
      modifies mem`freeList, mem`free, mem`tlb, mem`cr3, mem.nextFree, mem.refCount, mem.frames
      ensures Wf(old(mem.State())) && (!ok <==> ElfLoader.LoadElf(old(mem.State()), d, elf) == Panic)
      ensures ok ==> Ready() && ElfLoader.LoadElf(old(mem.State()), d, elf) == Ok(mem.State()) && mem.cr3 == kd
      ensures ok && old(Owned(mem.State(), kd, d, d)) && old(Suits(mem.State(), kd, elf)) ==>
                mem.Coherent() && Owned(mem.State(), kd, d, kd)
    {
      hide IsList, Unlinked, Agrees, Owned, ElfLoader.LoadSegments, ElfLoader.LoadSegment, AddressSpaces.RegionAlloc;
      if elf.magic != ElfLoader.ELF_MAGIC {
        return false;
      }
      ghost var v0, good := mem.State(), Owned(mem.State(), kd, d, d) && Suits(mem.State(), kd, elf);
      mem.LoadCr3(d);
      var k := 0;
      while k < |elf.segs|
        invariant 0 <= k <= |elf.segs| && Ready() && Wf(mem.State()) && mem.cr3 == d
        invariant ElfLoader.LoadSegments(v0, d, elf, 0) == ElfLoader.LoadSegments(mem.State(), d, elf, k)
        invariant good ==> mem.Coherent() && Owned(mem.State(), kd, d, d) && mem.frames[kd] == v0.page[kd]
      {
        if good && ElfLoader.Loadable(elf.segs[k]) {
          UsableSegment(v0, kd, elf, k);
        }
        ElfLoader.UnfoldLoadSegments(mem.State(), d, elf, k);
        ok := LoadSegment(elf, elf.segs[k]);
        if !ok {
          return;
        }
        k := k + 1;
      }
      ElfLoader.UnfoldLoadSegments(mem.State(), d, elf, k);
      if good {
        OwnedKernel(mem.State(), kd, d, d);
        UsableStack(mem.State(), kd);
      }
      mem.LoadCr3(kd);
      ok := RegionAlloc(d, USTACKTOP - PGSIZE, PGSIZE);
    }
  }

  /** A free frame that was cleared is not part of the tree of c. */
  lemma ClearedIsApart(v: Vm, c: nat, free: seq<nat>, f: nat, v': Vm)
    requires NotInTree(v, c, free) && f in free && f < |v.page| && v'.page == v.page[f := ZeroPage()]
    ensures OnlyAt(v', c, f, 1024)
  {
  }

  /** The bounds of regionAlloc's loop as page numbers. */
  lemma RegionPageNumbers(va: Word, len: Word)
    ensures var lo, hi := RoundDown(va, PGSIZE), RoundUp(Add32(va, len), PGSIZE);
            && lo == Pgnum(lo) * PGSIZE && hi == Pgnum(hi) * PGSIZE && Pgnum(hi) < 0x10_0000
            && (va + len <= UTOP ==> Pgnum(hi) <= UTOPX * 1024)
  {
    RoundPages(va);
    RoundPages(Add32(va, len));
    var hi := RoundUp(Add32(va, len), PGSIZE);
    hide Add32;
    assert hi == Pgnum(hi) * PGSIZE;
    if va + len <= UTOP {
      assert Add32(va, len) == va + len by { SmallSum(va, len); }
    }
  }

  lemma SameWalk(v: Vm, u: Vm, d: nat, a: Word)
    requires d < |v.page| && u.page == v.page
    ensures Walk(u, d, a) == Walk(v, d, a)
  {
  }
}
