/**
 Boot in place: vmem::init and task::init, with the self-test of pgdir::init (kernel/vmem.cc,
 kernel/task.cc), from any contents of memory.
 */
module KernelBoot {
  import opened Wrappers
  import opened Mmu
  import opened FreeList
  import opened PageTables
  import opened Ownership
  import opened Translation
  import opened TranslationCache
  import opened RunSafety
  import opened KernelMemory
  import opened KernelSpaces
  import opened KernelTasks
  import opened StaleRuns
  import opened BootStates
  import opened EarlyMaps
  import BootMaps
  import SelfTest
  import StaticMaps
  import T = Tasks

  /** pgdir::alloc and page::init: the kernel's directory maps itself only. */
  method PrepareMemory(m: Memory, kd: nat, nextFreePage: nat) returns (ok: bool)
    requires m.Valid() && m.free == [] && m.cr3 < m.frames.Length && kd < nextFreePage
    requires 256 <= nextFreePage <= 1024 <= m.frames.Length
    modifies m`freeList, m`free, m`tlb, m.refCount, m.nextFree, m.frames
    ensures m.Valid() && BootMaps.AfterPageInit(m.State(), kd, nextFreePage) && (ok <==> nextFreePage < 1024)
  {
    hide Agrees, MayFollow, Unlinked, BootMaps.BootFree, BootMaps.BootCounts;
    m.Clear(kd);
    m.Put(kd, UVPTX, SelfMap(kd));
    ok := m.PageInit(nextFreePage);
  }

  /** mem::clear of frames in a row, through the entry directory of boot. */
  method EarlyClear(m: Memory, first: nat, count: nat) returns (ok: bool)
    requires m.Valid() && m.cr3 < m.frames.Length && ENTRY_FRAMES <= m.frames.Length
    modifies m`tlb, m.frames
    ensures ok <==> count == 0 || first + count <= ENTRY_FRAMES
    ensures ok ==> m.Valid() && m.State().free == old(m.State().free) && m.State().rc == old(m.State().rc)
    ensures ok ==> forall f :: 0 <= f < m.frames.Length && !(first <= f < first + count) ==>
        m.frames[f] == old(m.frames[f])
  {
    hide IsList, Unlinked, MayFollow;
    var i := 0;
    while i < count
      invariant 0 <= i <= count && m.Valid() && (i > 0 ==> first + i <= ENTRY_FRAMES)
      invariant m.State().free == old(m.State().free) && m.State().rc == old(m.State().rc)
      invariant forall f :: 0 <= f < m.frames.Length && !(first <= f < first + i) ==> m.frames[f] == old(m.frames[f])
    {
      if first + i >= ENTRY_FRAMES {
        return false;
      }
      ghost var before := m.frames[..];
      m.Clear(first + i);
      assert m.State().page == before[first + i := ZeroPage()];
      assert forall f :: 0 <= f < m.frames.Length ==> m.frames[f] == m.State().page[f];
      i := i + 1;
    }
    ok := true;
  }

  /** staticMap before the kernel's directory is loaded. */
  method EarlyMap(m: Memory, d: nat, va: Word, size: Word, pa: Word, perm: nat) returns (ok: bool)
    requires m.Valid() && d < m.frames.Length && m.cr3 < m.frames.Length
    requires perm < 0x1000 && pa % PGSIZE == 0 && size <= 0xFFFF_F000
    modifies m`freeList, m`free, m`tlb, m.nextFree, m.refCount, m.frames
    ensures Wf(old(m.State())) && (!ok <==> EarlyMaps.EarlyMap(old(m.State()), d, va, size, pa, perm, 0) == Panic)
    ensures ok ==> m.Valid() && EarlyMaps.EarlyMap(old(m.State()), d, va, size, pa, perm, 0) == Ok(m.State())
  {
    hide IsList, Unlinked, Agrees, StaticMaps.MapPage, EarlyMaps.EarlyMap, StaticMaps.StaticEntry, OnlyAt, CanGrow;
    m.ValidIsWf();
    ghost var v0 := m.State();
    var offset := 0;
    ghost var k := 0;
    while offset < size
      invariant offset == k * PGSIZE && m.Valid() && Wf(m.State())
      invariant EarlyMaps.EarlyMap(v0, d, va, size, pa, perm, 0)
          == EarlyMaps.EarlyMap(m.State(), d, va, size, pa, perm, k)
    {
      ghost var v := m.State();
      var a, w := (va + offset) % WORD_LIMIT, StaticMaps.StaticEntry((pa + offset) % WORD_LIMIT, perm);
      EarlyMaps.UnfoldEarlyMap(v, d, va, size, pa, perm, k, StaticMaps.MapPage(v, d, a, w));
      ListHead(m.nextFree[..], m.freeList, m.free);
      if !Present(m.frames[d][Pdx(a)]) && m.freeList != NIL && m.freeList >= ENTRY_FRAMES {
        return false;
      }
      ok := m.MapPage(d, a, w);
      if !ok {
        return;
      }
      offset := offset + PGSIZE;
      k := k + 1;
    }
    EarlyMaps.UnfoldEarlyMap(m.State(), d, va, size, pa, perm, k,
      StaticMaps.MapPage(m.State(), d, (va + k * PGSIZE) % WORD_LIMIT,
        StaticMaps.StaticEntry((pa + k * PGSIZE) % WORD_LIMIT, perm)));
    ok := true;
  }

  /** The maps of task::allocArray and pgdir::init, in place. */
  method MapBoot(m: Memory, kd: nat, b: BootMaps.Image) returns (ok: bool)
    requires m.Valid() && kd < m.frames.Length && m.cr3 < m.frames.Length && BootMaps.GoodImage(b)
    modifies m`freeList, m`free, m`tlb, m.refCount, m.nextFree, m.frames
    ensures Wf(old(m.State())) && (!ok <==> EarlyMaps.EarlyBoot(old(m.State()), kd, b) == Panic)
    ensures ok ==> m.Valid() && EarlyMaps.EarlyBoot(old(m.State()), kd, b) == Ok(m.State())
  {
    hide IsList, Unlinked, Agrees, EarlyMaps.EarlyMap;
    m.ValidIsWf();
    ok := EarlyMap(m, kd, UENVS, b.taskSize, b.tasks, PTE_U);
    if !ok {
      return;
    }
    m.ValidIsWf();
    ok := EarlyMap(m, kd, UPAGES, PTSIZE, b.info, PTE_U);
    if !ok {
      return;
    }
    m.ValidIsWf();
    ok := EarlyMap(m, kd, KSTACKTOP - KSTKSIZE, KSTKSIZE, b.stack, PTE_W);
    if !ok {
      return;
    }
    m.ValidIsWf();
    ok := EarlyMap(m, kd, KERNBASE, BootMaps.KERNEL_WINDOW, 0, PTE_W);
  }

  // The self-test

  /** One half of the self-test: a frame is filled and mapped at 0x80000000. */
  method MapPattern(m: Memory, kd: nat, w: Word) returns (ok: bool, f: int)
    requires m.Valid() && kd < m.frames.Length && m.cr3 < m.frames.Length
    requires Wf(m.State()) ==> !SelfTest.MapPattern(m.State(), kd, w).Cyclic?
    modifies m`freeList, m`free, m`tlb, m.refCount, m.nextFree, m.frames
    ensures Wf(old(m.State())) && (!ok <==> SelfTest.MapPattern(old(m.State()), kd, w) == Panic)
    ensures ok ==>
              m.Valid() && 0 <= f < m.frames.Length && SelfTest.MapPattern(old(m.State()), kd, w) == Ok((m.State(), f))
    ensures ok && old(m.Coherent()) && old(TableApart(m.Tables(), m.cr3, kd, 512))
            && old(CanGrow(m.State(), m.cr3, kd))
            ==> m.Coherent()
  {
    hide IsList, Unlinked, EndsInNil, Agrees, MayFollow, OnlyAt, TableApart, CanGrow, NotInTree, PageTables.Insert;
    m.ValidIsWf();
    ghost var t0, v0, c := m.Tables(), m.State(), m.cr3;
    ghost var good := m.Coherent() && TableApart(t0, c, kd, 512) && CanGrow(v0, c, kd);
    f := m.Alloc(false);
    if f == NIL {
      return false, f;
    }
    if good {
      FreeFrameApart(v0, t0, c, kd, f);
    }
    m.FillFrame(f, SelfTest.Pattern(w));
    if good {
      FilledApart(v0, t0, m.State(), m.Tables(), c, kd, f);
    }
    SelfTest.Place();
    var done;
    ok, done := m.Insert(kd, f, SelfTest.VA2GB, PTE_W);
  }

  /** A free frame is not part of the tree that is walked. */
  lemma FreeFrameApart(v: Vm, u: Vm, c: nat, d: nat, f: nat)
    requires CanGrow(v, c, d) && f in v.free && u.page == v.page
    ensures OnlyAt(u, c, f, 1024)
  {
  }

  lemma FilledApart(v: Vm, t0: Vm, v1: Vm, t1: Vm, c: nat, d: nat, f: nat)
    requires CanGrow(v, c, d) && TableApart(t0, c, d, 512) && t0.page == v.page && v.free != [] && f == v.free[0]
    requires v1.free == v.free[1..] && |v1.page| == |v.page| && t1.page == v1.page
    requires forall g :: 0 <= g < |v.page| && g != f ==> v1.page[g] == v.page[g]
    ensures TableApart(t1, c, d, 512) && CanGrow(v1, c, d)
  {
    assert f in v.free && d in [d];
    assert forall g :: g in v1.free ==> g in v.free;
  }

  /** refCount == 0 and nextFree != nullptr. */
  method IsReleased(m: Memory, f: nat) returns (released: bool)
    requires m.Valid() && f < m.frames.Length
    ensures released <==> SelfTest.Released(m.State(), f)
  {
    LinkedIff(m.nextFree[..], m.freeList, m.free, f);
    released := m.refCount[f] == 0 && m.nextFree[f] != NIL;
  }

  /** The two words at 0x80000000. */
  method DoesShow(m: Memory, w: Word) returns (shows: bool)
    requires m.Valid() && m.cr3 < m.frames.Length
    ensures shows <==> SelfTest.Shows(m.State(), m.cr3, w)
  {
    hide IsList, Unlinked;
    var pde := m.frames[m.cr3][Pdx(SelfTest.VA2GB)];
    if !Present(pde) || Frame(pde) >= m.frames.Length {
      return false;
    }
    var pte := m.frames[Frame(pde)][Ptx(SelfTest.VA2GB)];
    shows := Present(pte) && Frame(pte) < m.frames.Length && m.frames[Frame(pte)][0] == w
      && m.frames[Frame(pte)][1] == w;
  }

  /** Once a table serves 0x80000000, it is seen there only, and the tree still has no free frame. */
  lemma ServesApart(v0: Vm, kd: nat, v: Vm, t: nat, w: Word)
    requires CanGrow(v0, kd, kd) && |v0.page| <= 0x2_0000 && t in v0.free && t < |v0.page|
    requires SelfTest.Serves(v, kd, v0.page[kd], t, w) && forall f :: f in v.free ==> f in v0.free
    ensures TableApart(v, kd, kd, 512) && CanGrow(v, kd, kd)
  {
  }

  /** The two maps of a self-test that passes. */
  lemma CheckStages(v: Vm, kd: nat) returns (v1: Vm, f0: nat, v2: Vm, f1: nat)
    requires SelfTest.Untested(v, kd) && |v.free| >= 4 && CanGrow(v, kd, kd)
    ensures SelfTest.MapPattern(v, kd, 0x1818_1818) == Ok((v1, f0)) && Wf(v1) && kd < |v1.page|
    ensures TableApart(v1, kd, kd, 512) && CanGrow(v1, kd, kd)
    ensures SelfTest.MapPattern(v1, kd, 0x1010_1010) == Ok((v2, f1)) && TableApart(v2, kd, kd, 512)
  {
    hide SelfTest.MapPattern, SelfTest.Serves, CanGrow, TableApart, Wf, SelfTest.Pattern;
    var e := v.page[kd];
    var t;
    v1, f0, t := SelfTest.FirstMap(v, kd, 0x1818_1818);
    SelfTest.UntestedFrees(v, kd);
    v2, f1 := SelfTest.SecondMap(v1, kd, e, t, f0, 0x1010_1010);
    StagesFree(v.free, v1.free, v2.free, f0);
    ServesApart(v, kd, v1, t, MakePte(f0, PTE_P + PTE_W));
    ServesApart(v, kd, v2, t, MakePte(f1, PTE_P + PTE_W));
  }

  lemma StagesFree(s: seq<nat>, s1: seq<nat>, s2: seq<nat>, f0: nat)
    requires |s| >= 4 && s1 == s[2..] && s2 == [f0] + s1[1..] && f0 == s[0]
    ensures (forall f :: f in s1 ==> f in s) && (forall f :: f in s2 ==> f in s)
  {
  }

  /** The checks that pgdir::init makes once its directory is loaded. */
  method SelfCheck(m: Memory, kd: nat) returns (ok: bool)
    requires m.Valid() && kd < m.frames.Length && m.cr3 == kd
    requires SelfTest.Untested(m.State(), kd)
    modifies m`freeList, m`free, m`tlb, m.refCount, m.nextFree, m.frames
    ensures Wf(old(m.State())) && (!ok <==> SelfTest.Check(old(m.State()), kd) == Panic)
    ensures ok ==> m.Valid() && SelfTest.Check(old(m.State()), kd) == Ok(m.State())
    ensures ok && old(m.Coherent()) && old(CanGrow(m.State(), kd, kd)) ==> m.Coherent()
  {
    hide IsList, Unlinked, EndsInNil, Agrees, SelfTest.MapPattern, PageTables.Remove, SelfTest.Shows,
        SelfTest.Released, SelfTest.Untested, CanGrow, TableApart;
    m.ValidIsWf();
    ghost var v := m.State();
    SelfTest.CheckNeedsFour(v, kd);
    ghost var calm := m.Coherent() && CanGrow(v, kd, kd) && |v.free| >= 4;
    ghost var v1, g0, v2, g1 := v, 0, v, 0;
    if calm {
      v1, g0, v2, g1 := CheckStages(v, kd);
      UntestedApart(v, m.Tables(), kd);
    }
    var f0, f1, good;
    ok, f0 := MapPattern(m, kd, 0x1818_1818);
    if !ok {
      return;
    }
    if calm {
      TablesApart(v1, m.Tables(), kd);
    }
    good := DoesShow(m, 0x1818_1818);
    if m.refCount[f0] != 1 || !good {
      return false;
    }
    ok, f1 := MapPattern(m, kd, 0x1010_1010);
    if !ok {
      return;
    }
    if calm {
      TablesApart(v2, m.Tables(), kd);
    }
    good := DoesShow(m, 0x1010_1010);
    ok := IsReleased(m, f0);
    if !ok || !good {
      return false;
    }
    SelfTest.Place();
    ok := m.Remove(kd, SelfTest.VA2GB);
    if !ok {
      return;
    }
    ok := IsReleased(m, f1);
  }

  lemma UntestedApart(v: Vm, u: Vm, kd: nat)
    requires SelfTest.Untested(v, kd) && u.page == v.page
    ensures TableApart(u, kd, kd, 512)
  {
  }

  lemma TablesApart(v: Vm, u: Vm, kd: nat)
    requires TableApart(v, kd, kd, 512) && u.page == v.page
    ensures TableApart(u, kd, kd, 512)
  {
  }

  /** In the order of ownership, no frame of the kernel's tree is free. */
  lemma OwnedCanGrow(v: Vm, role: seq<Role>, kd: nat)
    requires Inv(v, role, kd)
    ensures CanGrow(v, kd, kd)
  {
    assert IsDir(role, kd, kd);
    forall x | 0 <= x < 1024 && Present(v.page[kd][x])
      ensures Frame(v.page[kd][x]) !in v.free
    {
      Target(v, role, kd, kd, x);
    }
  }

  /** Clearing the Task array, which lies behind the frames in use, leaves what page::init made. */
  lemma ArrayCleared(v: Vm, v': Vm, kd: nat, nextFreePage: nat)
    requires BootMaps.AfterPageInit(v, kd, nextFreePage) && v'.free == v.free && v'.rc == v.rc && |v'.page| == |v.page|
    requires v'.page[kd] == v.page[kd]
    ensures BootMaps.AfterPageInit(v', kd, nextFreePage)
  {
  }

  /** The Task array lies directly behind the frames that page::init has counted. */
  function BootImage(nextFreePage: nat, taskSize: Word, info: Word, stack: Word): BootMaps.Image
    requires nextFreePage <= 1024
  {
    BootMaps.Image(nextFreePage * PGSIZE, taskSize, info, stack)
  }

  /** vmem::init: the Task array, the maps and the self-test. */
  method BootMemory(m: Memory, kd: nat, nextFreePage: nat, taskSize: Word, info: Word, stack: Word)
    returns (ok: bool, ghost v0: Vm, ghost v1: Vm)
    requires m.Valid() && m.free == [] && m.cr3 == kd && 256 <= nextFreePage <= 1024 <= m.frames.Length
    requires kd < nextFreePage && BootMaps.GoodImage(BootImage(nextFreePage, taskSize, info, stack))
    modifies m`freeList, m`free, m`tlb, m`cr3, m.refCount, m.nextFree, m.frames
    ensures ok <==> BootFits(nextFreePage, taskSize, m.frames.Length)
    ensures ok ==> m.Valid() && m.cr3 == kd && Wf(v0) && Wf(v1) && kd < |v1.page| && |v0.page| == m.frames.Length
    ensures ok ==> BootMaps.AfterPageInit(v0, kd, nextFreePage)
    ensures ok ==> BootMaps.BootMaps(v0, kd, BootImage(nextFreePage, taskSize, info, stack)) == Ok(v1)
    ensures ok ==> SelfTest.Check(v1, kd) == Ok(m.State()) && m.Coherent()
  {
    hide IsList, Unlinked, Agrees, BootMaps.BootMaps, Inv, BootMaps.BootFree, BootMaps.BootCounts, BootMaps.GoodImage;
    hide SelfTest.Check, EndsInNil, MayFollow, EarlyBoot, BootMaps.AfterPageInit, CanGrow, SelfTest.Untested,
        BootMaps.BootMapped;
    var b := BootImage(nextFreePage, taskSize, info, stack);
    ok := PrepareMemory(m, kd, nextFreePage);
    v0 := m.State();
    v1 := v0;
    if !ok {
      return;
    }
    ghost var u := m.State();
    SomeTasks(b);
    ok := EarlyClear(m, nextFreePage, taskSize / PGSIZE);
    if !ok {
      return;
    }
    v0 := m.State();
    ArrayCleared(u, v0, kd, nextFreePage);
    EarlyBootReaches(v0, kd, nextFreePage, b);
    ok := MapBoot(m, kd, b);
    if !ok {
      return;
    }
    m.LoadCr3(kd);
    v1 := m.State();
    MappedIsUntested(v0, kd, nextFreePage, b, v1);
    OwnedCanGrow(v1, BootMaps.BootRoles(v0, nextFreePage), kd);
    EnoughFrames(v0, kd, nextFreePage);
    SelfTest.CheckNeedsFour(v1, kd);
    ok := SelfCheck(m, kd);
  }

  lemma SomeTasks(b: BootMaps.Image)
    requires BootMaps.GoodImage(b)
    ensures b.taskSize / PGSIZE > 0
  {
  }

  /**
   From any memory contents, boot either stops, for lack of frames or of room below 4 MiB, or ends in
   the monitor, without a task. If the Task array lies clear of the page tables and of the frames of the
   self-test (see BootOverlapsIff), that is a weakly safe state, from which ArrayRuns goes on; it is not safe,
   because the self-test leaves a page table behind. No cached translation is stale.
   */
  method Boot(memory: seq<Page>, kd: nat, nextFreePage: nat, taskSize: Word, info: Word, stack: Word)
    returns (k: TaskTable?)
    requires 256 <= nextFreePage <= 1024 <= |memory| <= 0x2_0000 && kd < nextFreePage
    requires BootMaps.GoodImage(BootImage(nextFreePage, taskSize, info, stack))
    ensures k != null <==> BootFits(nextFreePage, taskSize, |memory|)
    ensures k != null && nextFreePage + taskSize / PGSIZE <= 890 ==>
              && k.Valid() && Weak(k.State()) && !Safe(k.State()) && k.ctl == T.Monitor(None) && k.mem.Coherent()
              && k.State().v.free == BootList(nextFreePage, |memory|)
  {
    hide IsList, Unlinked, Agrees, BootMaps.BootMaps, Inv, Safe, Weak, BootMaps.AfterPageInit, BootMaps.GoodImage,
        SelfTest.Check, BootMaps.Down;
    k := null;
    var m := new Memory(memory, kd);
    var ok;
    ghost var v0, v1;
    ok, v0, v1 := BootMemory(m, kd, nextFreePage, taskSize, info, stack);
    if !ok {
      return;
    }
    var s := new SpaceManager(m, kd);
    var t := new TaskTable(s);
    t.Init();
    t.ValidIsWft();
    ghost var b := BootImage(nextFreePage, taskSize, info, stack);
    BootIsWeak(v0, kd, nextFreePage, b, v1, t.State());
    if nextFreePage + taskSize / PGSIZE <= 890 {
      SomeTasks(b);
      BootLeavesList(v0, kd, nextFreePage, b, v1, t.State().v);
    }
    k := t;
  }
}
