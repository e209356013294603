/**
 Physical memory, the frame allocator, and the page-table editor of kernel/vmem.cc, as code that
 updates them in place.

 Every method is proved against the function of the same name in PageTables, on the value that
 State() gives: what the frame list, the counts and the frames hold. A method that can stop the
 kernel returns false when it does, and then promises nothing. Each method also keeps the
 translation cache in agreement with the tables.
 */
module KernelMemory {
  import opened Wrappers
  import opened Mmu
  import opened FreeList
  import opened PageTables
  import opened Ownership
  import opened StaticMaps
  import opened TranslationCache
  import BootMaps
  import MmioWindows
  import UserMemory
  import UserChecks = UserCheck

  lemma HeadOf(next: seq<int>, head: int, s: seq<nat>)
    requires IsList(next, head, s)
    ensures head == if s == [] then NIL else s[0]
  {
  }

  lemma RoundedSize(size: Word)
    ensures RoundUp(size, PGSIZE) <= 0xFFFF_F000
  {
  }

  /** FreeFrame is what PageInfo::free does to the links: it panics on a counted or a linked frame, links a ring if
      following the links from the frame then never ends, and otherwise puts the frame in front of the list. */
  lemma FreeIsRelease(v: Vm, next: seq<int>, head: int, f: nat)
    requires IsList(next, head, v.free) && Unlinked(next, v.free) && f < |next| == |v.rc|
    ensures FreeFrame(v, f).Panic? <==> v.rc[f] != 0 || next[f] != NIL
    ensures FreeFrame(v, f).Cyclic? <==> v.rc[f] == 0 && next[f] == NIL && !EndsInNil(next[f := head], f)
    ensures FreeFrame(v, f).Ok? ==>
              var v' := FreeFrame(v, f).value;
              && v'.free == [f] + v.free && v'.rc == v.rc && v'.page == v.page
              && IsList(next[f := head], f, v'.free) && Unlinked(next[f := head], v'.free)
  {
    ReleaseIff(next, head, v.free, f, v.rc[f]);
    hide IsList, Unlinked, EndsInNil;
  }

  class Memory {
    const refCount: array<nat>
    const nextFree: array<int>
    const frames: array<Page>
    var freeList: int
    var cr3: nat
    /** The place of the next device window. */
    var mmioNext: Word
    /** The slots that the links from freeList visit. */
    ghost var free: seq<nat>
    ghost var tlb: Tlb

    /** One count and one link for each frame, in three different arrays. */
    ghost predicate Shaped()
    {
      && refCount.Length == nextFree.Length == frames.Length <= 0x2_0000
      && (refCount as object) != nextFree && (refCount as object) != frames && (nextFree as object) != frames
    }

    ghost predicate Valid()
      reads this, refCount, nextFree
    {
      && Shaped()
      && (forall f :: 0 <= f < refCount.Length ==> refCount[f] < 0x1_0000)
      && IsList(nextFree[..], freeList, free) && Unlinked(nextFree[..], free)
    }

    /** Releasing the list's tail a second time has linked the list into a ring. */
    ghost predicate Ring()
      reads this, nextFree
    {
      !EndsInNil(nextFree[..], freeList)
    }

    ghost function State(): Vm
      reads this, refCount, frames
    {
      Vm(free, refCount[..], frames[..])
    }

    /** The tables alone: translation depends on nothing else. */
    ghost function Tables(): Vm
      reads frames
    {
      Vm([], [], frames[..])
    }

    ghost predicate Coherent()
      reads this`cr3, this`tlb, frames
    {
      Agrees(Tables(), cr3, tlb, {})
    }

    /** How a call that may fail ends: it returned or not, in which state. */
    ghost predicate Ended(ok: bool, spec: Res<Vm>)
      reads this, refCount, nextFree, frames
    {
      && (ok <==> !spec.Panic?)
      && (spec.Ok? ==> Valid() && State() == spec.value)
      && (spec.Cyclic? ==> Ring())
    }

    ghost predicate InsertEnded(ok: bool, done: bool, spec: Res<(Vm, bool)>)
      reads this, refCount, nextFree, frames
    {
      && (ok <==> !spec.Panic?)
      && (spec.Ok? ==> Valid() && (State(), done) == spec.value)
      && (spec.Cyclic? ==> Ring())
    }

    lemma ValidIsWf()
      requires Valid()
      ensures Wf(State())
    {
    }

    // The translation cache and the stores that it depends on

    /** Between any two instructions the processor may cache and forget translations. */
    ghost method Speculate()
      requires cr3 < frames.Length
      modifies `tlb
      ensures MayFollow(Tables(), cr3, old(tlb), tlb)
    {
      assert MayFollow(Tables(), cr3, tlb, tlb);
      ghost var t: Tlb :| MayFollow(Tables(), cr3, tlb, t);
      tlb := t;
    }

    /** Store one word of frame t. */
    method Put(t: nat, i: nat, w: Word)
      requires Shaped() && t < frames.Length && i < 1024 && cr3 < frames.Length
      modifies frames, `tlb
      ensures State() == Store(old(State()), t, i, w)
      ensures MayFollow(Tables(), cr3, old(tlb), tlb)
    {
      frames[t] := frames[t][i := w];
      Speculate();
    }

    /** mem::clear of frame f. */
    method Clear(f: nat)
      requires Shaped() && f < frames.Length && cr3 < frames.Length
      modifies frames, `tlb
      ensures State() == Fill(old(State()), f, ZeroPage())
      ensures MayFollow(Tables(), cr3, old(tlb), tlb)
    {
      frames[f] := ZeroPage();
      Speculate();
    }

    /** mem::copy of frame g to frame f. */
    method CopyFrame(f: nat, g: nat)
      requires Shaped() && f < frames.Length && g < frames.Length && cr3 < frames.Length
      modifies frames, `tlb
      ensures State() == Fill(old(State()), f, old(frames[g]))
      ensures old(Coherent()) && old(OnlyAt(Tables(), cr3, f, 1024)) ==> Coherent() && OnlyAt(Tables(), cr3, f, 1024)
    {
      FillFrame(f, frames[g]);
    }

    /** mem::set of frame f. */
    method FillFrame(f: nat, p: Page)
      requires Shaped() && f < frames.Length && cr3 < frames.Length
      modifies frames, `tlb
      ensures State() == Fill(old(State()), f, p)
      ensures old(Coherent()) && old(OnlyAt(Tables(), cr3, f, 1024)) ==> Coherent() && OnlyAt(Tables(), cr3, f, 1024)
    {
      ghost var t0, tlb0 := Tables(), tlb;
      frames[f] := p;
      Speculate();
      if Agrees(t0, cr3, tlb0, {}) && OnlyAt(t0, cr3, f, 1024) {
        FillAgrees(t0, cr3, tlb0, f, p, Tables());
        FollowingAgrees(Tables(), cr3, tlb0, tlb, {});
      }
    }

    /** One byte written through the loaded directory; a fault in the kernel stops it. */
    method StoreByte(a: Word, b: Byte) returns (ok: bool)
      requires Valid() && cr3 < frames.Length
      modifies frames, `tlb
      ensures !ok <==> UserMemory.StoreByte(old(State()), cr3, a, b) == Panic
      ensures ok ==> Valid() && UserMemory.StoreByte(old(State()), cr3, a, b) == Ok(State())
      ensures old(Coherent()) && (ok ==> old(OnlyAt(Tables(), cr3, Frame(Walk(Tables(), cr3, a).value), 1024))) ==>
          Coherent()
    {
      hide IsList, Unlinked, Agrees, MayFollow, OnlyAt;
      var pde := frames[cr3][Pdx(a)];
      if !Present(pde) || Frame(pde) >= frames.Length {
        return false;
      }
      var pte := frames[Frame(pde)][Ptx(a)];
      if !Present(pte) || !Writable(pte) || Frame(pte) >= frames.Length {
        return false;
      }
      ghost var t0, tlb0 := Tables(), tlb;
      var g := Frame(pte);
      frames[g] := UserMemory.SetPageByte(frames[g], Pgoff(a), b);
      Speculate();
      ok := true;
      if Agrees(t0, cr3, tlb0, {}) && OnlyAt(t0, cr3, g, 1024) {
        FillAgrees(t0, cr3, tlb0, g, frames[g], Tables());
        FollowingAgrees(Tables(), cr3, tlb0, tlb, {});
      }
    }

    /** The kernel reads a string of 16-bit characters through the loaded directory; false when a
        byte of it is not mapped, which is a fault in the kernel. */
    method ReadString(va: Word, count: nat) returns (ok: bool)
      requires Shaped() && cr3 < frames.Length
      ensures ok <==> UserMemory.Readable(State(), cr3, va, count)
      ensures ok <==> forall a: Word :: (a - va) % 0x1_0000_0000 < 2 * count ==> Walk(State(), cr3, a).Some?
    {
      hide Walk;
      UserMemory.ReadableIff(State(), cr3, va, count);
      var i := 0;
      while i < count
        invariant 0 <= i <= count && forall k: nat :: k < i ==> UserMemory.CharMapped(State(), cr3, va, k)
      {
        var lo := IsMapped((va + 2 * i) % WORD_LIMIT);
        var hi := IsMapped((va + 2 * i + 1) % WORD_LIMIT);
        if !lo || !hi {
          assert !UserMemory.CharMapped(State(), cr3, va, i);
          return false;
        }
        i := i + 1;
      }
      return true;
    }

    /** The processor's walk for one address. */
    method IsMapped(a: Word) returns (mapped: bool)
      requires Shaped() && cr3 < frames.Length
      ensures mapped <==> Walk(State(), cr3, a).Some?
    {
      var pde := frames[cr3][Pdx(a)];
      mapped := Present(pde) && Frame(pde) < frames.Length && Present(frames[Frame(pde)][Ptx(a)]);
    }

    /** invalidateTLB: drop the translation of one page. */
    method Invalidate(va: Word)
      requires cr3 < frames.Length
      modifies `tlb
      ensures Agrees(Tables(), cr3, old(tlb), {(Pdx(va), Ptx(va))}) ==> Coherent()
    {
      ghost var p := (Pdx(va), Ptx(va));
      tlb := tlb - {p};
      Speculate();
    }

    /** lcr3: load a directory; the cache forgets everything. */
    method LoadCr3(d: nat)
      requires d < frames.Length
      modifies `cr3, `tlb
      ensures cr3 == d && Coherent()
    {
      cr3 := d;
      tlb := map[];
      Speculate();
    }

    // PageInfo

    method Alloc(zero: bool) returns (f: int)
      requires Valid() && cr3 < frames.Length
      modifies `freeList, `free, `tlb, nextFree, frames
      ensures Valid()
      ensures (State(), if f == NIL then None else Some(f)) == AllocFrame(old(State()), zero)
      ensures f != NIL ==> 0 <= f < frames.Length
      ensures old(Coherent()) && (zero ==> NotInTree(old(Tables()), cr3, old(free))) ==> Coherent()
    {
      f := freeList;
      if f == NIL {
        return;
      }
      PopList(nextFree[..], freeList, free);
      freeList := nextFree[f];
      nextFree[f] := NIL;
      free := free[1..];
      if zero {
        ghost var u := tlb;
        Clear(f);
        assert old(Coherent()) && NotInTree(old(Tables()), cr3, old(free)) ==> Coherent() by {
          if old(Coherent()) && NotInTree(old(Tables()), cr3, old(free)) {
            FillAgrees(old(Tables()), cr3, u, f, ZeroPage(), Tables());
          }
        }
      }
    }

    method Free(f: nat) returns (ok: bool)
      requires Valid() && f < frames.Length
      modifies `freeList, `free, nextFree
      ensures Shaped() && Ended(ok, FreeFrame(old(State()), f))
      ensures frames[..] == old(frames[..])
    {
      FreeIsRelease(State(), nextFree[..], freeList, f);
      if refCount[f] != 0 || nextFree[f] != NIL {
        return false;
      }
      nextFree[f] := freeList;
      freeList := f;
      free := [f] + free;
      return true;
    }

    method DecRef(f: nat) returns (ok: bool)
      requires Valid() && f < frames.Length
      modifies `freeList, `free, nextFree, refCount
      ensures Shaped() && Ended(ok, PageTables.DecRef(old(State()), f))
      ensures frames[..] == old(frames[..])
    {
      hide IsList, Unlinked, EndsInNil;
      refCount[f] := (refCount[f] + 0xFFFF) % 0x1_0000;
      assert State() == SetRef(old(State()), f, refCount[f]);
      ok := true;
      if refCount[f] <= 0 {
        ok := Free(f);
      }
    }

    method IncRef(f: nat)
      requires Valid() && f < frames.Length
      modifies refCount
      ensures Valid() && State() == PageTables.IncRef(old(State()), f)
    {
      hide IsList, Unlinked;
      refCount[f] := (refCount[f] + 1) % 0x1_0000;
    }

    method FreeCount() returns (count: nat)
      requires Valid()
      ensures count == |State().free|
    {
      count := Count(nextFree, freeList, free);
    }

    // pgdir

    /** The part of findPte that makes a page table. */
    method NewTable(d: nat, va: Word) returns (f: int)
      requires Valid() && d < frames.Length && cr3 < frames.Length && !Present(frames[d][Pdx(va)])
      modifies `freeList, `free, `tlb, nextFree, refCount, frames
      ensures Valid() && (f == NIL <==> old(free) == [])
      ensures f == NIL ==> State() == old(State())
      ensures f != NIL ==>
                f == old(free)[0] && 0 <= f < frames.Length && State() == InstallTable(old(State()), d, Pdx(va))
      ensures old(Coherent()) && old(CanGrow(State(), cr3, d)) ==>
                Coherent() && (f != NIL ==> OnlyAt(Tables(), cr3, f, Pdx(va)))
    {
      hide IsList, Unlinked, Agrees, MayFollow, CanGrow, NotInTree, OnlyAt;
      ghost var v0, good := State(), Coherent() && CanGrow(State(), cr3, d);
      ghost var x, w := Pdx(va), 0;
      if good {
        FreeNotInTree(v0, Tables(), cr3, d);
      }
      f := Alloc(true);
      if f != NIL {
        w := MakePte(f, PTE_P + PTE_U + PTE_W);
        ghost var tlb0 := tlb;
        IncRef(f);
        Clear(f);
        ghost var t1, tlb1 := Tables(), tlb;
        Put(d, Pdx(va), MakePte(f, PTE_P + PTE_U + PTE_W));
        if good {
          GrowAgrees(v0, cr3, d, x, f, w, t1, tlb0, tlb1, Tables(), tlb);
          MoreStale(Tables(), cr3, tlb, {(x, Ptx(va))});
        }
        Invalidate(va);
      }
    }

    /** findPte: the place of the entry, or none; false for a page table outside of memory. */
    method FindPte(d: nat, va: Word, create: bool) returns (ok: bool, loc: PteLoc)
      requires Valid() && d < frames.Length && cr3 < frames.Length
      modifies `freeList, `free, `tlb, nextFree, refCount, frames
      ensures Valid() && (!ok <==> PageTables.FindPte(old(State()), d, va, create) == Panic)
      ensures ok ==> PageTables.FindPte(old(State()), d, va, create) == Ok((State(), loc))
      ensures ok && loc.PteAt? ==> Present(frames[d][Pdx(va)]) && Frame(frames[d][Pdx(va)]) == loc.table
      ensures !create ==> State() == old(State()) && tlb == old(tlb)
      ensures old(Coherent()) && old(TableApart(Tables(), cr3, d, Pdx(va)))
              && (create ==> old(CanGrow(State(), cr3, d)))
              ==> && Coherent() && TableApart(Tables(), cr3, d, Pdx(va))
                  && (ok && loc.PteAt? ==> OnlyAt(Tables(), cr3, loc.table, Pdx(va)))
    {
      var pde := frames[d][Pdx(va)];
      if Present(pde) {
        if Frame(pde) >= frames.Length {
          return false, NoPte;
        }
        return true, PteAt(Frame(pde), Ptx(va));
      }
      if !create {
        return true, NoPte;
      }
      var f := NewTable(d, va);
      return true, if f == NIL then NoPte else PteAt(f, Ptx(va));
    }

    /** findInfo: the frame mapped at va and the place of its entry. */
    method FindInfo(d: nat, va: Word) returns (ok: bool, found: bool, f: nat, loc: PteLoc)
      requires Valid() && d < frames.Length && cr3 < frames.Length
      modifies `freeList, `free, `tlb, nextFree, refCount, frames
      ensures Valid() && (!ok <==> PageTables.FindInfo(old(State()), d, va) == Panic)
      ensures ok ==> PageTables.FindInfo(old(State()), d, va) == Ok(if found then Some((f, loc)) else None)
      ensures ok && found ==> Present(frames[d][Pdx(va)]) && Frame(frames[d][Pdx(va)]) == loc.table
      ensures State() == old(State()) && tlb == old(tlb)
    {
      hide IsList, Unlinked, Agrees, MayFollow, CanGrow, NotInTree, OnlyAt;
      found, f := false, 0;
      ok, loc := FindPte(d, va, false);
      if !ok || loc.NoPte? || !Present(frames[loc.table][loc.index]) {
        return;
      }
      f := Frame(frames[loc.table][loc.index]);
      found := true;
      ok := f < frames.Length;
    }

    /** Store the entry of va in its page table, and drop the cached translation. */
    method SetEntry(t: nat, va: Word, w: Word)
      requires Shaped() && t < frames.Length && cr3 < frames.Length
      modifies `tlb, frames
      ensures State() == Store(old(State()), t, Ptx(va), w)
      ensures old(Coherent()) && old(OnlyAt(Tables(), cr3, t, Pdx(va))) ==> Coherent()
    {
      ghost var t0, tlb0 := Tables(), tlb;
      Put(t, Ptx(va), w);
      if Agrees(t0, cr3, tlb0, {}) && OnlyAt(t0, cr3, t, Pdx(va)) {
        StoreAgrees(t0, cr3, tlb0, t, Pdx(va), Ptx(va), w);
        FollowingAgrees(Tables(), cr3, tlb0, tlb, {(Pdx(va), Ptx(va))});
      }
      Invalidate(va);
    }

    /** remove: what the caller's entry for va maps is released. */
    method Remove(d: nat, va: Word) returns (ok: bool)
      requires Valid() && d < frames.Length && cr3 < frames.Length
      modifies `freeList, `free, `tlb, nextFree, refCount, frames
      ensures Shaped() && Ended(ok, PageTables.Remove(old(State()), d, va))
      ensures ok && old(Coherent()) && old(TableApart(Tables(), cr3, d, Pdx(va))) ==> Coherent()
      ensures ok && old(TableApart(Tables(), cr3, d, Pdx(va))) ==> frames[cr3] == old(frames[cr3])
      ensures ok && old(Present(frames[d][Pdx(va)]) ==> Frame(frames[d][Pdx(va)]) != d) ==> frames[d] == old(frames[d])
    {
      hide IsList, Unlinked, EndsInNil, Agrees, MayFollow;
      var found, f, loc;
      ok, found, f, loc := FindInfo(d, va);
      if !ok || !found {
        return;
      }
      ok := DecRef(f);
      if !ok {
        return;
      }
      SetEntry(loc.table, va, 0);
    }

    /** insert: map frame pp at va, releasing what is mapped there; the second result is false when
        there is no frame for a page table. */
    method Insert(d: nat, pp: nat, va: Word, perm: nat) returns (ok: bool, done: bool)
      requires Valid() && d < frames.Length && cr3 < frames.Length && pp < frames.Length && perm < 0x1000
      modifies `freeList, `free, `tlb, nextFree, refCount, frames
      ensures Shaped() && InsertEnded(ok, done, PageTables.Insert(old(State()), d, pp, va, perm))
      ensures ok && old(Coherent()) && old(TableApart(Tables(), cr3, d, Pdx(va))) && old(CanGrow(State(), cr3, d)) ==>
          Coherent()
    {
      hide IsList, Unlinked, EndsInNil, Agrees, MayFollow, OnlyAt, CanGrow, TableApart, Coherent, PageTables.Remove,
          PageTables.FindPte, MakePte, WithPresent, Store, PageTables.IncRef;
      done := false;
      var loc;
      ok, loc := FindPte(d, va, true);
      if !ok || loc.NoPte? {
        return;
      }
      ghost var t1, x := Tables(), Pdx(va);
      IncRef(pp);
      if Present(frames[loc.table][loc.index]) {
        ok := Remove(d, va);
        if !ok {
          return;
        }
      }
      if OnlyAt(t1, cr3, loc.table, x) && TableApart(t1, cr3, d, x) {
        StillOnlyAt(t1, Tables(), cr3, loc.table, x);
      }
      SetEntry(loc.table, va, MakePte(pp, WithPresent(perm)));
      done := true;
    }

    /** One step of staticMap: a missing page table is a store through the null pointer. */
    method MapPage(d: nat, va: Word, w: Word) returns (ok: bool)
      requires Valid() && d < frames.Length && cr3 < frames.Length
      modifies `freeList, `free, `tlb, nextFree, refCount, frames
      ensures !ok <==> StaticMaps.MapPage(old(State()), d, va, w) == Panic
      ensures ok ==> Valid() && StaticMaps.MapPage(old(State()), d, va, w) == Ok(State())
      ensures ok && old(Coherent()) && old(TableApart(Tables(), cr3, d, Pdx(va))) && old(CanGrow(State(), cr3, d)) ==>
          Coherent()
    {
      hide IsList, Unlinked, EndsInNil, Agrees, MayFollow, OnlyAt, CanGrow, TableApart, Coherent, PageTables.FindPte;
      var loc;
      ok, loc := FindPte(d, va, true);
      if !ok || loc.NoPte? {
        return false;
      }
      SetEntry(loc.table, va, w);
    }

    /** staticMap of a page-aligned physical range. */
    method StaticMap(d: nat, va: Word, size: Word, pa: Word, perm: nat) returns (ok: bool)
      requires Valid() && d < frames.Length && cr3 < frames.Length
      requires perm < 0x1000 && pa % PGSIZE == 0 && size <= 0xFFFF_F000
      modifies `freeList, `free, `tlb, nextFree, refCount, frames
      ensures !ok <==> StaticMaps.StaticMap(old(State()), d, va, size, pa, perm, 0) == Panic
      ensures ok ==> Valid() && StaticMaps.StaticMap(old(State()), d, va, size, pa, perm, 0) == Ok(State())
      ensures ok && old(Coherent()) && old(Editable(State(), cr3, d)) && ClearOfSelfMap(va, size) ==> Coherent()
    {
      hide IsList, Unlinked, EndsInNil, Agrees, MayFollow, OnlyAt, CanGrow, TableApart, Coherent, Editable,
          ClearOfSelfMap, StaticMaps.MapPage, StaticMaps.StaticMap, StaticEntry;
      ValidIsWf();
      ghost var v0, good := State(), Coherent() && Editable(State(), cr3, d) && ClearOfSelfMap(va, size);
      var offset := 0;
      ghost var k := 0;
      while offset < size
        invariant offset == k * PGSIZE && Valid() && Wf(State())
        invariant StaticMaps.StaticMap(v0, d, va, size, pa, perm, 0)
            == StaticMaps.StaticMap(State(), d, va, size, pa, perm, k)
        invariant good ==> Coherent() && Editable(State(), cr3, d)
      {
        ghost var v := State();
        var a, w := (va + offset) % WORD_LIMIT, StaticEntry((pa + offset) % WORD_LIMIT, perm);
        if good {
          EditableAt(v, Tables(), cr3, d, va, size, k);
        }
        UnfoldStaticMap(v, d, va, size, pa, perm, k, StaticMaps.MapPage(v, d, a, w));
        ok := MapPage(d, a, w);
        if !ok {
          return;
        }
        if good {
          StillEditable(v, cr3, d, a, w, State());
        }
        offset := offset + PGSIZE;
        k := k + 1;
      }
      StaticMapDone(State(), d, va, size, pa, perm, k);
      ok := true;
    }

    /** mmioMap of a page-aligned physical range, at the bump pointer. */
    method MmioMap(kd: nat, pa: Word, size: Word) returns (ok: bool, va: Word)
      requires Valid() && kd < frames.Length && cr3 < frames.Length && pa % PGSIZE == 0
      modifies `freeList, `free, `tlb, `mmioNext, nextFree, refCount, frames
      ensures !ok <==> MmioWindows.MmioMap(old(State()), kd, old(mmioNext), pa, size) == Panic
      ensures ok ==>
                Valid() && MmioWindows.MmioMap(old(State()), kd, old(mmioNext), pa, size) == Ok((State(), mmioNext, va))
      ensures ok && old(Coherent()) && old(Editable(State(), cr3, kd))
              && ClearOfSelfMap(old(mmioNext), RoundUp(size, PGSIZE))
              ==> Coherent()
    {
      hide IsList, Unlinked, EndsInNil, Agrees, Editable, ClearOfSelfMap, StaticMaps.StaticMap, RoundUp;
      ValidIsWf();
      RoundPages(size);
      RoundedSize(size);
      va := mmioNext;
      var n := RoundUp(size, PGSIZE);
      if Add32(mmioNext, n) >= MMIOLIM || Add32(mmioNext, n) < MMIOBASE {
        return false, va;
      }
      ok := StaticMap(kd, mmioNext, n, pa, MmioWindows.MMIO_FLAGS);
      if !ok {
        return;
      }
      mmioNext := Add32(mmioNext, n);
    }

    /** userCheck of a range; false for a page table outside of memory. */
    method UserCheck(d: nat, va: Word, size: Word, perm: nat) returns (ok: bool, good: bool)
      requires Valid() && d < frames.Length && cr3 < frames.Length && perm < 0x1000
      modifies `freeList, `free, `tlb, nextFree, refCount, frames
      ensures UserChecks.Check(old(State()), d, va, size, perm) == if ok then Ok(good) else Panic
      ensures State() == old(State()) && tlb == old(tlb) && Valid()
    {
      hide IsList, Unlinked, EndsInNil, Agrees, PageTables.FindPte, UserChecks.CheckFrom, UserChecks.SharesBit;
      ValidIsWf();
      var it, end := va, Add32(va, size);
      while it < end
        invariant State() == old(State()) && tlb == old(tlb) && Valid()
        invariant UserChecks.Check(old(State()), d, va, size, perm)
            == UserChecks.CheckFrom(old(State()), d, it, end, perm)
      {
        UserChecks.UnfoldCheck(old(State()), d, it, end, perm);
        if it >= ULIM {
          return true, false;
        }
        var loc;
        ok, loc := FindPte(d, it, false);
        if !ok {
          return false, false;
        }
        if loc.NoPte? {
          return true, false;
        }
        if !UserChecks.SharesBit(Flags(frames[loc.table][loc.index]), WithPresent(perm)) {
          return true, false;
        }
        it := it + PGSIZE;
      }
      UserChecks.UnfoldCheck(old(State()), d, it, end, perm);
      return true, true;
    }

    // Boot

    /** Memory before page::init: any contents, an empty list. */
    constructor (memory: seq<Page>, dir: nat)
      requires |memory| <= 0x2_0000 && dir < |memory|
      ensures Valid() && frames[..] == memory && cr3 == dir && free == [] && mmioNext == MMIOBASE && Coherent()
      ensures fresh(refCount) && fresh(nextFree) && fresh(frames)
    {
      refCount := new nat[|memory|](i => 0);
      nextFree := new int[|memory|](i => NIL);
      frames := new Page[|memory|](i requires 0 <= i < |memory| => memory[i]);
      freeList, free, cr3, mmioNext, tlb := NIL, [], dir, MMIOBASE, map[];
    }

    /** page::init after bootAlloc has given out the frames below nextFreePage; false when its last
        check fails, because no frame below 4 MiB is free. */
    method PageInit(nextFreePage: nat) returns (ok: bool)
      requires Shaped() && freeList == NIL && free == [] && 256 <= nextFreePage <= 1024 <= frames.Length
      modifies `freeList, `free, refCount, nextFree
      ensures Valid() && State().free == BootMaps.BootFree(nextFreePage, frames.Length)
      ensures State().rc == BootMaps.BootCounts(nextFreePage, frames.Length)
      ensures ok <==> nextFreePage < 1024
    {
      hide IsList, Unlinked, BootMaps.Down, BootMaps.BootFree, BootMaps.Unlisted;
      BootMaps.UnlistedRanges(nextFreePage, frames.Length);
      BootMaps.BootFreeHead(nextFreePage, frames.Length);
      MarkUsed(nextFreePage);
      FreeRange(1024, frames.Length);
      FreeRange(nextFreePage, 1024);
      HeadOf(nextFree[..], freeList, free);
      ok := freeList != NIL && freeList < 1024;
    }

    /** The frames from lo up to hi become free, one after the other. */
    method FreeRange(lo: nat, hi: nat)
      requires Shaped() && IsList(nextFree[..], freeList, free) && Unlinked(nextFree[..], free)
      requires BootMaps.Unlisted(refCount[..], free, lo, hi)
      modifies `freeList, `free, refCount, nextFree
      ensures IsList(nextFree[..], freeList, free) && Unlinked(nextFree[..], free)
      ensures free == BootMaps.Down(hi, lo) + old(free) && refCount[..] == old(refCount[..])
    {
      hide IsList, Unlinked;
      ghost var rest := free;
      var i := lo;
      assert free == BootMaps.Down(i, lo) + rest;
      while i < hi
        invariant lo <= i <= hi && free == BootMaps.Down(i, lo) + rest && refCount[..] == old(refCount[..])
        invariant IsList(nextFree[..], freeList, free) && Unlinked(nextFree[..], free)
      {
        BootMaps.DownMore(i, lo);
        assert refCount[..][i] == 0;
        LinkFree(i);
        assert free == BootMaps.Down(i + 1, lo) + rest;
        i := i + 1;
      }
    }

    /** The frames of the first megabyte and of the kernel are counted, all others are not. */
    method MarkUsed(nextFreePage: nat)
      requires Shaped() && 256 <= nextFreePage <= frames.Length
      modifies refCount, nextFree
      ensures refCount[..] == BootMaps.BootCounts(nextFreePage, frames.Length)
      ensures freeList == NIL && free == [] ==> IsList(nextFree[..], freeList, free) && Unlinked(nextFree[..], free)
    {
      var n := frames.Length;
      var i := 0;
      while i < n
        invariant 0 <= i <= n
        invariant forall k :: 0 <= k < i ==> refCount[k] == 0 && nextFree[k] == NIL
      {
        refCount[i], nextFree[i] := 0, NIL;
        i := i + 1;
      }
      i := 0;
      while i < 256
        invariant 0 <= i <= 256
        invariant forall k :: 0 <= k < n ==> refCount[k] == (if k < i then 1 else 0) && nextFree[k] == NIL
      {
        refCount[i] := 1;
        i := i + 1;
      }
      while i < nextFreePage
        invariant 256 <= i <= nextFreePage
        invariant forall k :: 0 <= k < n ==> refCount[k] == (if k < i then 1 else 0) && nextFree[k] == NIL
      {
        refCount[i] := 1;
        i := i + 1;
      }
    }

    /** A frame becomes free. */
    method LinkFree(f: nat)
      requires Shaped() && IsList(nextFree[..], freeList, free) && Unlinked(nextFree[..], free)
      requires f < refCount.Length && f !in free && refCount[f] == 0
      modifies `freeList, `free, refCount, nextFree
      ensures IsList(nextFree[..], freeList, free) && Unlinked(nextFree[..], free)
      ensures free == [f] + old(free) && freeList == f && refCount[..] == old(refCount[..])
    {
      PushList(nextFree[..], freeList, free, f);
      refCount[f] := 0;
      nextFree[f] := freeList;
      freeList := f;
      free := [f] + free;
    }
  }
}
