/**
 What mmioMap does to a running system: with the translation cache it is always in order, but the
 ownership invariant survives exactly if no task could miss the new page table.
 */
module MmioSafety {
  import opened Wrappers
  import opened Mmu
  import opened PageTables
  import opened Ownership
  import opened Translation
  import opened StaticMaps
  import opened MmioWindows
  import opened TranslationCache
  import opened CacheSafety

  /** The directory entry of the device region. */
  const MMIOX: nat := 894

  /** The pages from p up to q are all the device region's. */
  ghost predicate OnlyDevice(p: nat, q: nat) {
    forall x: nat :: x < 1024 ==> (Touched(p, q, x) <==> x == MMIOX)
  }

  lemma DeviceEntry()
    ensures Pdx(MMIOBASE) == MMIOX
  {
  }

  /** The same directories are tasks'. */
  ghost predicate SameDirs(role: seq<Role>, role': seq<Role>) {
    |role'| == |role| && forall d :: 0 <= d < |role| ==> (role'[d].Dir? <==> role[d].Dir?)
  }

  /** Memory is still owned as the invariant says, by the same task directories. */
  ghost predicate StillOwned(v: Vm, role: seq<Role>, kd: nat) {
    exists role' :: Inv(v, role', kd) && SameDirs(role, role')
  }

  /**
   mmioMap keeps the invariant exactly if its page table is there already or no task directory is
   alive: task directories copy the kernel's entries once, and later ones never reach them.
   */
  lemma MmioKeepsInvIff(v: Vm, role: seq<Role>, kd: nat, next: Word, q: Request, v': Vm, end: Word, va: Word)
    requires Inv(v, role, kd) && GoodNext(next) && GoodRequest(q) && WindowPages(q.size) > 0
    requires MmioMap(v, kd, next, q.pa, q.size) == Ok((v', end, va))
    ensures StillOwned(v', role, kd) <==> Present(v.page[kd][MMIOX]) || NoTasks(role)
  {
    hide Inv, MmioMap, Linear, TablesFrom, WindowPages, GoodNext, GoodRequest;
    KernelTree(v, role, kd);
    DeviceEntry();
    var r := MmioMapSteps(v, kd, next, q);
    var n := WindowPages(q.size);
    WindowTouches(next, q);
    if Present(v.page[kd][MMIOX]) {
      TableThere(v, role, kd, v', Pgnum(next), Pgnum(next) + n);
    } else if NoTasks(role) {
      var role' := TableNew(v, role, kd, v', Pgnum(next), Pgnum(next) + n);
    } else {
      TableMissed(v, role, kd, v', Pgnum(next), Pgnum(next) + n);
    }
  }

  lemma WindowTouches(next: Word, q: Request)
    requires GoodNext(next) && GoodRequest(q) && WindowPages(q.size) > 0
        && next + WindowPages(q.size) * PGSIZE < MMIOLIM
    ensures OnlyDevice(Pgnum(next), Pgnum(next) + WindowPages(q.size))
  {
    MmioArith(next, q);
    hide WindowPages, RoundUp, Pages, Add32, Pgnum;
  }

  /** Outside of the kernel's tables nothing was written. */
  lemma TaskFramesKept(v: Vm, role: seq<Role>, kd: nat, v': Vm, tables: seq<nat>)
    requires Inv(v, role, kd) && |v'.page| == |v.page| && OthersKept(v, kd, v', tables)
    requires forall f :: f in tables ==> f in v.free
    ensures forall g :: 0 <= g < |role| && (role[g].Dir? || role[g].Table? || role[g].Lost?) ==> v'.page[g] == v.page[g]
  {
    forall g | 0 <= g < |role| && (role[g].Dir? || role[g].Table? || role[g].Lost?)
      ensures g != kd && g !in v.free && !TableOf(v.page[kd], g)
    {
    }
  }

  lemma SameDirectory(e: Page, e': Page, tables: seq<nat>, p: nat, q: nat)
    requires Grown(e, e', tables, p, q) && forall x: nat :: x < 1024 && Touched(p, q, x) ==> Present(e[x])
    ensures e' == e
  {
    hide Touched;
    assert forall x :: 0 <= x < 1024 ==> e'[x] == e[x];
  }

  lemma TableThere(v: Vm, role: seq<Role>, kd: nat, v': Vm, p: nat, q: nat)
    requires Inv(v, role, kd) && DirTree(v', kd) && TablesFrom(v, kd, v', 0, p, q)
    requires Present(v.page[kd][MMIOX]) && OnlyDevice(p, q)
    ensures Inv(v', role, kd) && StillOwned(v', role, kd) && v'.rc == v.rc
  {
    hide Touched;
    assert v.free[..0] == [];
    SameDirectory(v.page[kd], v'.page[kd], v.free[..0], p, q);
    TaskFramesKept(v, role, kd, v', v.free[..0]);
    assert Wf(v') && v'.free == v.free && v'.rc == v.rc && v'.page[kd] == v.page[kd];
    hide TablesFrom, Taken, Grown, OthersKept, DirTree;
    SameTablesInv(v, role, kd, v');
    assert Inv(v', role, kd) && SameDirs(role, role);
  }

  /** With the same counts, free list, directories and tables, the invariant carries over. */
  lemma SameTablesInv(v: Vm, role: seq<Role>, kd: nat, v': Vm)
    requires Inv(v, role, kd) && Wf(v') && |v'.page| == |v.page| && v'.free == v.free && v'.rc == v.rc
        && v'.page[kd] == v.page[kd]
    requires forall g :: 0 <= g < |role| && (role[g].Dir? || role[g].Table?) ==> v'.page[g] == v.page[g]
    ensures Inv(v', role, kd)
  {
    forall g | 0 <= g < |role|
      ensures Mappings(v', role, g) == Mappings(v, role, g)
    {
      assert forall d, x, y :: 0 <= d < |role| && role[d].Dir? && 0 <= x < UTOPX && 0 <= y < 1024 ==>
          Leaf(v', d, x, y) == Leaf(v, d, x, y);
      SameMappings(v, role, v', role, g);
    }
    hide Mappings, Leaf;
  }

  lemma TableMissed(v: Vm, role: seq<Role>, kd: nat, v': Vm, p: nat, q: nat)
    requires Inv(v, role, kd) && TablesFrom(v, kd, v', 1, p, q) && !NoTasks(role)
    requires !Present(v.page[kd][MMIOX]) && OnlyDevice(p, q)
    ensures !StillOwned(v', role, kd)
  {
    hide Touched;
    var d :| 0 <= d < |role| && role[d].Dir?;
    TaskFramesKept(v, role, kd, v', v.free[..1]);
    assert v'.page[d] == v.page[d] && v.page[d][MMIOX] == v.page[kd][MMIOX];
    assert Present(v'.page[kd][MMIOX]);
    hide TablesFrom, Taken, Grown, OthersKept;
    forall role' | Inv(v', role', kd) && SameDirs(role, role')
      ensures false
    {
      HalvesSay(v', role', kd, d);
    }
  }

  lemma HalvesSay(v: Vm, role: seq<Role>, kd: nat, d: nat)
    requires Inv(v, role, kd) && d < |role| && role[d].Dir?
    ensures v.page[d][MMIOX] == v.page[kd][MMIOX]
  {
  }

  /** Without task directories, no frame is a table's or mapped. */
  lemma OnlyKernelRoles(v: Vm, role: seq<Role>, kd: nat)
    requires Inv(v, role, kd) && NoTasks(role)
    ensures forall f :: 0 <= f < |role| ==> !role[f].Dir? && !role[f].Table? && !role[f].Data?
  {
    forall f | 0 <= f < |role|
      ensures !role[f].Data?
    {
      assert Mappings(v, role, f) == {};
    }
    hide Mappings;
  }

  lemma TableNew(v: Vm, role: seq<Role>, kd: nat, v': Vm, p: nat, q: nat) returns (role': seq<Role>)
    requires Inv(v, role, kd) && DirTree(v', kd) && TablesFrom(v, kd, v', 1, p, q) && NoTasks(role)
    requires !Present(v.page[kd][MMIOX]) && OnlyDevice(p, q)
    ensures Inv(v', role', kd) && SameDirs(role, role') && StillOwned(v', role, kd)
    ensures v.free != [] && v.free[0] < |role| && role[v.free[0]].Free? && role' == role[v.free[0] := Kernel]
  {
    hide Touched;
    var f := v.free[0];
    OnlyKernelRoles(v, role, kd);
    role' := role[f := Kernel];
    FreeTail(v.free);
    assert v.free[..1] == [f] && v'.free == v.free[1..];
    NewTableParts(v, role, kd, v', p, q, f);
    hide TablesFrom, Taken, Grown, OthersKept;
  }

  lemma NewTableParts(v: Vm, role: seq<Role>, kd: nat, v': Vm, p: nat, q: nat, f: nat)
    requires Inv(v, role, kd) && DirTree(v', kd) && TablesFrom(v, kd, v', 1, p, q)
    requires forall g :: 0 <= g < |role| ==> !role[g].Dir? && !role[g].Table? && !role[g].Data?
    requires !Present(v.page[kd][MMIOX]) && OnlyDevice(p, q)
    requires f in v.free && v.free[..1] == [f] && forall g :: g in v'.free <==> g in v.free && g != f
    ensures Inv(v', role[f := Kernel], kd)
  {
    hide Touched;
    var role' := role[f := Kernel];
    assert role[f].Free?;
    assert KernelHalf(v', role', kd);
    hide KernelHalf, Grown, OthersKept, DirTree;
    assert FreeAgrees(v', role') && CountsAgree(v', role');
  }

  /** The kernel's directory owns its tables, with or without the entry that boot leaves. */
  lemma OrderedTree(v: Vm, dirs: set<nat>, role: seq<Role>, kd: nat)
    requires Ordered(v, dirs, role, kd)
    ensures DirTree(v, kd)
  {
    hide Ordered;
    OrderedShape(v, dirs, role, kd);
    OrderedSelfMap(v, dirs, role, kd);
    assert IsDir(role, kd, kd);
    forall x | 0 <= x < 1024 && x != UVPTX && Present(v.page[kd][x])
      ensures Frame(v.page[kd][x]) < |v.page| && Frame(v.page[kd][x]) != kd && Frame(v.page[kd][x]) !in v.free
    {
      OrderedEntry(v, dirs, role, kd, kd, x);
    }
    forall x, y |
      && 0 <= x < 1024 && 0 <= y < 1024 && x != y && x != UVPTX && y != UVPTX
      && Present(v.page[kd][x]) && Present(v.page[kd][y])
      ensures Frame(v.page[kd][x]) != Frame(v.page[kd][y])
    {
      OrderedEntry(v, dirs, role, kd, kd, x);
      OrderedEntry(v, dirs, role, kd, kd, y);
      if x >= UTOPX && y >= UTOPX {
        OrderedDistinct(v, dirs, role, kd, x, y);
      }
    }
  }

  /** So the kernel's directory can be edited whichever directory is loaded, after the real boot too. */
  lemma OrderedEditable(v: Vm, dirs: set<nat>, role: seq<Role>, kd: nat, c: nat)
    requires Ordered(v, dirs, role, kd) && IsDir(role, kd, c)
    ensures Editable(v, c, kd)
  {
    hide Ordered, DirTree, CanGrow, TableApart;
    OrderedShape(v, dirs, role, kd);
    OrderedTree(v, dirs, role, kd);
    assert IsDir(role, kd, kd);
    OrderedApart(v, dirs, role, kd, kd, c, 0);
    forall x | 0 <= x < 1024 && x != UVPTX
      ensures TableApart(v, c, kd, x)
    {
      OrderedApart(v, dirs, role, kd, kd, c, x);
    }
  }

  /** Whichever directory is loaded, a window that fits can be mapped without a stale translation. */
  lemma MmioIsCoherent(v: Vm, kd: nat, c: nat, next: Word, q: Request)
    requires Loaded(v, kd, c) && GoodNext(next) && GoodRequest(q) && next + WindowPages(q.size) * PGSIZE < MMIOLIM
    ensures Editable(v, c, kd) && ClearOfSelfMap(next, RoundUp(q.size, PGSIZE))
  {
    hide Ordered, RoundUp, WindowPages, Add32, Pgnum, Pages, ClearOfSelfMap, AvoidsSelfMap, Editable;
    var dirs: set<nat>, role: seq<Role> :| Ordered(v, dirs, role, kd) && IsDir(role, kd, c);
    OrderedEditable(v, dirs, role, kd, c);
    MmioArith(next, q);
    DeviceIsClear(next, RoundUp(q.size, PGSIZE));
  }

  lemma DeviceIsClear(next: Word, size: Word)
    requires MMIOBASE <= next && next + size < MMIOLIM
    ensures ClearOfSelfMap(next, size)
  {
    forall k: nat | k * PGSIZE < size
      ensures Pdx((next + k * PGSIZE) % WORD_LIMIT) != UVPTX
    {
      InDeviceRegion(next + k * PGSIZE);
    }
  }

  lemma InDeviceRegion(a: int)
    requires MMIOBASE <= a < MMIOLIM
    ensures a < WORD_LIMIT && Pdx(a % WORD_LIMIT) == MMIOX
  {
  }
}
