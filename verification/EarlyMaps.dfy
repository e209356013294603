/**
 staticMap (kernel/vmem.cc) before the kernel's directory is loaded. Until then the processor uses the
 entry directory of boot, which maps the first 4 MiB of memory only: clearing a page table that lies
 above is a fault.
 */
module EarlyMaps {
  import opened Wrappers
  import opened Mmu
  import opened PageTables
  import opened Ownership
  import opened StaticMaps
  import opened BootMaps

  /** The frames that the entry directory reaches. */
  const ENTRY_FRAMES: nat := 1024

  /** findPte would clear a new page table, but cannot reach it. */
  predicate OutOfReach(v: Vm, d: nat, va: Word)
    requires d < |v.page|
  {
    !Present(v.page[d][Pdx(va)]) && v.free != [] && v.free[0] >= ENTRY_FRAMES
  }

  /** StaticMap, with the fault. */
  function EarlyMap(v: Vm, d: nat, va: Word, size: Word, pa: Word, perm: nat, k: nat): (r: Res<Vm>)
    requires Wf(v) && d < |v.page| && perm < 0x1000 && pa % PGSIZE == 0 && size <= 0xFFFF_F000
    ensures r.Ok? ==> SameShape(v, r.value)
    decreases size - k * PGSIZE
  {
    if k * PGSIZE >= size then Ok(v)
    else if OutOfReach(v, d, (va + k * PGSIZE) % WORD_LIMIT) then Panic
    else
      var r := MapPage(v, d, (va + k * PGSIZE) % WORD_LIMIT, StaticEntry((pa + k * PGSIZE) % WORD_LIMIT, perm));
      if r.Ok? then EarlyMap(r.value, d, va, size, pa, perm, k + 1) else r
  }

  lemma UnfoldEarlyMap(v: Vm, d: nat, va: Word, size: Word, pa: Word, perm: nat, k: nat, r: Res<Vm>)
    requires Wf(v) && d < |v.page| && perm < 0x1000 && pa % PGSIZE == 0 && size <= 0xFFFF_F000
    requires r == MapPage(v, d, (va + k * PGSIZE) % WORD_LIMIT, StaticEntry((pa + k * PGSIZE) % WORD_LIMIT, perm))
    ensures EarlyMap(v, d, va, size, pa, perm, k) ==
              if k * PGSIZE >= size then Ok(v)
              else if OutOfReach(v, d, (va + k * PGSIZE) % WORD_LIMIT) then Panic
              else if r.Ok? then EarlyMap(r.value, d, va, size, pa, perm, k + 1) else r
  {
    hide MapPage, StaticEntry;
  }

  /** The frames that were taken from v's list to get to v' are in reach. */
  ghost predicate TookLow(v: Vm, v': Vm) {
    |v'.free| <= |v.free| && v'.free == v.free[|v.free| - |v'.free|..]
    && forall i :: 0 <= i < |v.free| - |v'.free| ==> v.free[i] < ENTRY_FRAMES
  }

  ghost predicate Took(v: Vm, v': Vm) {
    |v'.free| <= |v.free| && v'.free == v.free[|v.free| - |v'.free|..]
  }

  lemma TookTrans(v: Vm, v1: Vm, v2: Vm)
    requires Took(v, v1) && Took(v1, v2)
    ensures Took(v, v2) && (TookLow(v, v2) <==> TookLow(v, v1) && TookLow(v1, v2))
  {
    var m, n := |v.free| - |v1.free|, |v1.free| - |v2.free|;
    assert v.free[m..][n..] == v.free[m + n..];
    assert forall i :: 0 <= i < n ==> v1.free[i] == v.free[m + i];
  }

  lemma MapPageTook(v: Vm, d: nat, va: Word, w: Word)
    requires Wf(v) && d < |v.page| && MapPage(v, d, va, w).Ok?
    ensures Took(v, MapPage(v, d, va, w).value)
    ensures TookLow(v, MapPage(v, d, va, w).value) <==> !OutOfReach(v, d, va)
  {
    var v' := MapPage(v, d, va, w).value;
    if Present(v.page[d][Pdx(va)]) {
      assert v'.free == v.free[0..];
    } else {
      assert v'.free == v.free[1..];
    }
  }

  /** Before the load of CR3, staticMap works out exactly if it would afterwards and all page tables that
      it makes lie below 4 MiB. */
  lemma {:induction false} EarlyMapIff(v: Vm, d: nat, va: Word, size: Word, pa: Word, perm: nat, k: nat)
    requires Wf(v) && d < |v.page| && perm < 0x1000 && pa % PGSIZE == 0 && size <= 0xFFFF_F000
    ensures var r := StaticMap(v, d, va, size, pa, perm, k);
            && (r.Ok? ==> Took(v, r.value))
            && EarlyMap(v, d, va, size, pa, perm, k) == if r.Ok? && TookLow(v, r.value) then r else Panic
    decreases size - k * PGSIZE
  {
    hide MapPage, StaticMap, EarlyMap, StaticEntry, OutOfReach, TookLow, Took;
    var a, w := (va + k * PGSIZE) % WORD_LIMIT, StaticEntry((pa + k * PGSIZE) % WORD_LIMIT, perm);
    var r := MapPage(v, d, a, w);
    MapPageFails(v, d, a, w);
    UnfoldEarlyMap(v, d, va, size, pa, perm, k, r);
    if k * PGSIZE >= size {
      StaticMapDone(v, d, va, size, pa, perm, k);
      TookNothing(v);
    } else {
      UnfoldStaticMap(v, d, va, size, pa, perm, k, r);
      if r.Ok? {
        EarlyMapIff(r.value, d, va, size, pa, perm, k + 1);
        MapPageTook(v, d, a, w);
        var q := StaticMap(r.value, d, va, size, pa, perm, k + 1);
        if q.Ok? {
          TookTrans(v, r.value, q.value);
        }
      }
    }
  }

  lemma MapPageFails(v: Vm, d: nat, va: Word, w: Word)
    requires Wf(v) && d < |v.page|
    ensures !MapPage(v, d, va, w).Ok? ==> MapPage(v, d, va, w) == Panic
  {
  }

  lemma TookNothing(v: Vm)
    ensures Took(v, v) && TookLow(v, v)
  {
  }

  // The maps of boot

  /** BootMaps, with the fault. */
  function EarlyBoot(v: Vm, kd: nat, b: Image): (r: Res<Vm>)
    requires Wf(v) && kd < |v.page| && GoodImage(b)
    ensures r.Ok? ==> SameShape(v, r.value)
  {
    var r1 := EarlyMap(v, kd, UENVS, b.taskSize, b.tasks, PTE_U, 0);
    if !r1.Ok? then r1 else
    var r2 := EarlyMap(r1.value, kd, UPAGES, PTSIZE, b.info, PTE_U, 0);
    if !r2.Ok? then r2 else
    var r3 := EarlyMap(r2.value, kd, KSTACKTOP - KSTKSIZE, KSTKSIZE, b.stack, PTE_W, 0);
    if !r3.Ok? then r3 else
    EarlyMap(r3.value, kd, KERNBASE, KERNEL_WINDOW, 0, PTE_W, 0)
  }

  /** One map after others. */
  lemma EarlyThen(v0: Vm, v: Vm, d: nat, va: Word, size: Word, pa: Word, perm: nat)
    requires Wf(v) && d < |v.page| && perm < 0x1000 && pa % PGSIZE == 0 && size <= 0xFFFF_F000 && Took(v0, v)
    ensures var r := StaticMap(v, d, va, size, pa, perm, 0);
            && (r.Ok? ==> Took(v0, r.value))
            && (r.Ok? && TookLow(v0, r.value) ==> TookLow(v0, v))
            && (TookLow(v0, v) ==>
                  EarlyMap(v, d, va, size, pa, perm, 0) == if r.Ok? && TookLow(v0, r.value) then r else Panic)
  {
    hide StaticMap, EarlyMap, Took, TookLow;
    EarlyMapIff(v, d, va, size, pa, perm, 0);
    var r := StaticMap(v, d, va, size, pa, perm, 0);
    if r.Ok? {
      TookTrans(v0, v, r.value);
    }
  }

  /** The maps of boot work out exactly if there are frames for them and all page tables are in reach. */
  lemma EarlyBootIff(v: Vm, kd: nat, b: Image)
    requires Wf(v) && kd < |v.page| && GoodImage(b)
    ensures var r := BootMaps.BootMaps(v, kd, b);
            && (r.Ok? ==> Took(v, r.value))
            && EarlyBoot(v, kd, b) == if r.Ok? && TookLow(v, r.value) then r else Panic
  {
    hide StaticMap, EarlyMap, Took, TookLow, GoodImage;
    assert GoodAddresses(b) by { ImageAddresses(b); }
    TookNothing(v);
    EarlyThen(v, v, kd, UENVS, b.taskSize, b.tasks, PTE_U);
    var r1 := StaticMap(v, kd, UENVS, b.taskSize, b.tasks, PTE_U, 0);
    if r1.Ok? {
      EarlyThen(v, r1.value, kd, UPAGES, PTSIZE, b.info, PTE_U);
      var r2 := StaticMap(r1.value, kd, UPAGES, PTSIZE, b.info, PTE_U, 0);
      if r2.Ok? {
        EarlyThen(v, r2.value, kd, KSTACKTOP - KSTKSIZE, KSTKSIZE, b.stack, PTE_W);
        var r3 := StaticMap(r2.value, kd, KSTACKTOP - KSTKSIZE, KSTKSIZE, b.stack, PTE_W, 0);
        if r3.Ok? {
          EarlyThen(v, r3.value, kd, KERNBASE, KERNEL_WINDOW, 0, PTE_W);
        }
      }
    }
  }

  predicate GoodAddresses(b: Image) {
    b.tasks % PGSIZE == 0 && b.info % PGSIZE == 0 && b.stack % PGSIZE == 0 && b.taskSize <= PTSIZE
  }

  lemma ImageAddresses(b: Image)
    requires GoodImage(b)
    ensures GoodAddresses(b)
  {
  }

  /** After page::init these page tables are the 131 highest frames below 4 MiB, if there are as many. */
  lemma EarlyBootReaches(v: Vm, kd: nat, nextFree: nat, b: Image)
    requires AfterPageInit(v, kd, nextFree) && GoodImage(b)
    ensures Wf(v) && (EarlyBoot(v, kd, b).Ok? <==> 1024 - nextFree >= 131) && !EarlyBoot(v, kd, b).Cyclic?
    ensures EarlyBoot(v, kd, b).Ok? ==> EarlyBoot(v, kd, b) == BootMaps.BootMaps(v, kd, b)
  {
    hide BootMaps.BootMaps, EarlyBoot, BootFree, Inv, BootMapped, GoodImage;
    var r := BootEstablishesOwnership(v, kd, nextFree, b);
    EarlyBootIff(v, kd, b);
    EnoughFrames(v, kd, nextFree);
    if r.Ok? {
      BootTakes(v, kd, nextFree, b);
      LowTables(v, kd, nextFree);
      FirstFrames(v.free, 131);
    }
  }

  lemma EnoughFrames(v: Vm, kd: nat, nextFree: nat)
    requires AfterPageInit(v, kd, nextFree)
    ensures |v.free| == |v.page| - nextFree >= 1024 - nextFree
  {
  }

  lemma FirstFrames(s: seq<nat>, m: nat)
    requires m <= |s|
    ensures (forall f :: f in s[..m] ==> f < ENTRY_FRAMES) <==> (forall i :: 0 <= i < m ==> s[i] < ENTRY_FRAMES)
    ensures |s| - |s[m..]| == m
  {
    assert forall i :: 0 <= i < m ==> s[i] == s[..m][i] && s[..m][i] in s[..m];
  }
}
