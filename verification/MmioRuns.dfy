/**
 mmioMap as the kernel calls it: after the real boot, whose self-test has left an entry in the
 kernel's directory, and before the first task.
 */
module MmioRuns {
  import opened Wrappers
  import opened Mmu
  import opened PageTables
  import opened Ownership
  import opened Translation
  import opened StaticMaps
  import opened BootMaps
  import opened MmioWindows
  import opened MmioSafety
  import opened TranslationCache
  import opened CacheSafety
  import opened RegionSteps
  import opened UserStores
  import opened StaleMemory
  import opened TaskInvariant
  import opened StaleRuns
  import T = Tasks

  // The clearing of the stale entry commutes with mmioMap

  function LiftMap(r: Res<(Vm, Word, Word)>, dirs: set<nat>): Res<(Vm, Word, Word)> {
    if r.Ok? then Ok((Lift(r.value.0, dirs), r.value.1, r.value.2)) else r
  }

  lemma MapPageLifts(v: Vm, dirs: set<nat>, d: nat, va: Word, w: Word)
    requires Editing(v, dirs, d, Pdx(va)) && Wf(v) && d in dirs
    ensures MapPage(Lift(v, dirs), d, va, w) == LiftRes(MapPage(v, d, va, w), dirs)
    ensures MapPage(v, d, va, w).Ok? ==>
              var v' := MapPage(v, d, va, w).value;
              MarksKept(v, v', dirs) && Wf(v') && d < |v'.page| && Editing(v', dirs, d, Pdx(va))
  {
    hide FindPte, Lift;
    FindPteLifts(v, dirs, d, va);
    FindPteTakes(v, d, va);
    var r := FindPte(v, d, va, true);
    if r.Ok? && r.value.1.PteAt? {
      StoreLifts(r.value.0, dirs, r.value.1.table, r.value.1.index, w);
    }
  }

  lemma FindPteTakes(v: Vm, d: nat, va: Word)
    requires Wf(v) && d < |v.page|
    ensures FindPte(v, d, va, true).Ok? ==> forall f :: f in FindPte(v, d, va, true).value.0.free ==> f in v.free
  {
    if v.free != [] {
      FreeTail(v.free);
    }
  }

  lemma {:induction false} StaticMapLifts(v: Vm, dirs: set<nat>, d: nat, x: nat, va: Word, size: Word, pa: Word,
      perm: nat, k: nat)
    requires Wf(v) && d < |v.page| && Editing(v, dirs, d, x) && d in dirs && perm < 0x1000 && pa % PGSIZE == 0
        && size <= 0xFFFF_F000
    requires forall i: nat :: i * PGSIZE < size ==> Pdx((va + i * PGSIZE) % WORD_LIMIT) == x
    ensures StaticMap(Lift(v, dirs), d, va, size, pa, perm, k) == LiftRes(StaticMap(v, d, va, size, pa, perm, k), dirs)
    ensures StaticMap(v, d, va, size, pa, perm, k).Ok? ==>
        MarksKept(v, StaticMap(v, d, va, size, pa, perm, k).value, dirs)
    decreases size - k * PGSIZE
  {
    hide MapPage, StaticMap, Lift, StaticEntry, Editing, MarksKept;
    MarksRefl(v, dirs);
    if k * PGSIZE < size {
      var a, w := (va + k * PGSIZE) % WORD_LIMIT, StaticEntry((pa + k * PGSIZE) % WORD_LIMIT, perm);
      UnfoldStaticMap(v, d, va, size, pa, perm, k, MapPage(v, d, a, w));
      UnfoldStaticMap(Lift(v, dirs), d, va, size, pa, perm, k, MapPage(Lift(v, dirs), d, a, w));
      MapPageLifts(v, dirs, d, a, w);
      var r := MapPage(v, d, a, w);
      if r.Ok? {
        StaticMapLifts(r.value, dirs, d, x, va, size, pa, perm, k + 1);
        var q := StaticMap(r.value, d, va, size, pa, perm, k + 1);
        if q.Ok? {
          MarksTrans(v, r.value, q.value, dirs);
        }
      }
    } else {
      StaticMapDone(v, d, va, size, pa, perm, k);
      StaticMapDone(Lift(v, dirs), d, va, size, pa, perm, k);
    }
  }

  lemma DevicePages(next: Word, q: Request)
    requires GoodNext(next) && GoodRequest(q) && next + WindowPages(q.size) * PGSIZE < MMIOLIM
    ensures forall i: nat :: i * PGSIZE < RoundUp(q.size, PGSIZE) ==> Pdx((next + i * PGSIZE) % WORD_LIMIT) == MMIOX
  {
    MmioArith(next, q);
    hide RoundUp, WindowPages;
    forall i: nat | i * PGSIZE < RoundUp(q.size, PGSIZE)
      ensures Pdx((next + i * PGSIZE) % WORD_LIMIT) == MMIOX
    {
      InDeviceRegion(next + i * PGSIZE);
    }
  }

  /** The kernel's entry for the device region can be edited without touching a mark. */
  lemma EditingDevice(v: Vm, dirs: set<nat>, role: seq<Role>, kd: nat, t: nat)
    requires Inv(Lift(v, dirs), role, kd) && Marked(v, dirs, role, kd, t)
    ensures Wf(v) && kd < |v.page| && Editing(v, dirs, kd, MMIOX) && kd in dirs
    ensures v.page[kd][MMIOX] == Lift(v, dirs).page[kd][MMIOX]
  {
    assert IsDir(role, kd, kd);
    assert Lift(v, dirs).page[kd][MMIOX] == v.page[kd][MMIOX];
  }

  lemma MmioLifts(v: Vm, dirs: set<nat>, role: seq<Role>, kd: nat, t: nat, next: Word, q: Request)
    requires Inv(Lift(v, dirs), role, kd) && Marked(v, dirs, role, kd, t) && GoodNext(next) && GoodRequest(q)
    ensures Wf(v) && kd < |v.page|
    ensures MmioMap(Lift(v, dirs), kd, next, q.pa, q.size) == LiftMap(MmioMap(v, kd, next, q.pa, q.size), dirs)
    ensures MmioMap(v, kd, next, q.pa, q.size).Ok? ==> MarksKept(v, MmioMap(v, kd, next, q.pa, q.size).value.0, dirs)
  {
    EditingDevice(v, dirs, role, kd, t);
    hide Inv, Marked, Lift, Editing, StaticMap, RoundUp, Add32, WindowPages;
    MmioArith(next, q);
    RoundPages(q.size);
    if next + WindowPages(q.size) * PGSIZE < MMIOLIM {
      DevicePages(next, q);
      StaticMapLifts(v, dirs, kd, MMIOX, next, RoundUp(q.size, PGSIZE), q.pa, MMIO_FLAGS, 0);
    }
  }

  // What it does to ownership

  /** While its page table is there, or no task is alive, mmioMap keeps ownership and the guards. */
  lemma DeviceKeeps(u: Vm, role: seq<Role>, kd: nat, next: Word, q: Request, u': Vm, end: Word, va: Word)
    returns (role': seq<Role>)
    requires Inv(u, role, kd) && Guarded(u, role, kd) && GoodNext(next) && GoodRequest(q) && WindowPages(q.size) > 0
    requires MmioMap(u, kd, next, q.pa, q.size) == Ok((u', end, va))
    requires Present(u.page[kd][MMIOX]) || NoTasks(role)
    ensures Inv(u', role', kd) && Guarded(u', role', kd) && |role'| == |role|
    ensures forall g :: 0 <= g < |role| && !role[g].Free? ==> role'[g] == role[g]
    ensures forall g :: 0 <= g < |role| && role[g].Free? ==> !role'[g].Dir?
    ensures forall g :: 0 <= g < |role| && role[g].Lost? ==> u'.page[g] == u.page[g]
  {
    hide Inv, MmioMap, Linear, TablesFrom, WindowPages, GoodNext, GoodRequest, Guarded, Taken, Grown, OthersKept;
    KernelTree(u, role, kd);
    DeviceEntry();
    var r := MmioMapSteps(u, kd, next, q);
    var n := WindowPages(q.size);
    WindowTouches(next, q);
    if Present(u.page[kd][MMIOX]) {
      role' := role;
      TableThere(u, role, kd, u', Pgnum(next), Pgnum(next) + n);
      DeviceFrames(u, role, kd, u', 0, Pgnum(next), Pgnum(next) + n);
      DeviceGuards(u, role, kd, next, q, u', role');
    } else {
      role' := TableNew(u, role, kd, u', Pgnum(next), Pgnum(next) + n);
      DeviceFrames(u, role, kd, u', 1, Pgnum(next), Pgnum(next) + n);
      DeviceGuards(u, role, kd, next, q, u', role');
    }
  }

  lemma DeviceFrames(u: Vm, role: seq<Role>, kd: nat, u': Vm, m: nat, p: nat, q: nat)
    requires Inv(u, role, kd) && TablesFrom(u, kd, u', m, p, q)
    ensures |u'.page| == |u.page| == |role|
    ensures forall g :: 0 <= g < |role| && (role[g].Dir? || role[g].Table? || role[g].Lost?) ==> u'.page[g] == u.page[g]
  {
    TaskFramesKept(u, role, kd, u', u.free[..m]);
  }

  /** The new entries are the kernel's only. */
  lemma DeviceGuards(u: Vm, role: seq<Role>, kd: nat, next: Word, q: Request, u': Vm, role': seq<Role>)
    requires Inv(u, role, kd) && Guarded(u, role, kd) && |role'| == |role| == |u'.page| && kd < |u.page|
        && |u'.rc| == |u'.page|
    requires Linear(u, kd, u', Pgnum(next), Pgnum(q.pa), 0, WindowPages(q.size), MMIO_FLAGS)
    requires NoTasks(role') || (role' == role && u'.rc == u.rc)
    requires forall g :: 0 <= g < |role| && (role[g].Dir? || role[g].Table?) ==> u'.page[g] == u.page[g]
    ensures Guarded(u', role', kd)
  {
    hide WindowPages;
    forall x: nat, y: nat | UTOPX <= x < 1024 && x != UVPTX && y < 1024 && Leaf(u', kd, x, y).Some?
      ensures !UserWritable(Leaf(u', kd, x, y).value)
    {
      if Leaf(u', kd, x, y) != Leaf(u, kd, x, y) {
        FlagBits(Leaf(u', kd, x, y).value);
      }
    }
    assert NoUserWrites(u', kd);
    hide Linear, NoUserWrites;
    forall d | 0 <= d < |role'| && role'[d].Dir?
      ensures OwnPages(u', d)
    {
      OwnPagesKept(u, role, kd, u', d);
    }
  }

  lemma OwnPagesKept(u: Vm, role: seq<Role>, kd: nat, u': Vm, d: nat)
    requires Inv(u, role, kd) && AllOwn(u, role) && d < |role| && role[d].Dir? && |u'.page| == |u.page| && u'.rc == u.rc
    requires forall g :: 0 <= g < |role| && (role[g].Dir? || role[g].Table?) ==> u'.page[g] == u.page[g]
    ensures OwnPages(u', d)
  {
    forall i: nat, j: nat | i < UTOPX && j < 1024
      ensures Leaf(u', d, i, j) == Leaf(u, d, i, j)
    {
      if Present(u.page[d][i]) {
        Target(u, role, kd, d, i);
      }
    }
    assert OwnPages(u, d);
    hide Leaf;
  }

  /** mmioMap takes one frame from the list, if there is no page table for the device region yet. */
  lemma DeviceTakes(v: Vm, dirs: set<nat>, role: seq<Role>, kd: nat, next: Word, q: Request, v': Vm, end: Word,
      va: Word)
    requires Ordered(v, dirs, role, kd) && GoodNext(next) && GoodRequest(q) && WindowPages(q.size) > 0
    requires Wf(v) && kd < |v.page| && MmioMap(v, kd, next, q.pa, q.size) == Ok((v', end, va))
    ensures Present(v.page[kd][MMIOX]) ==> v'.free == v.free
    ensures !Present(v.page[kd][MMIOX]) ==> v.free != [] && v'.free == v.free[1..]
  {
    hide Ordered, MmioMap, GoodNext, GoodRequest, WindowPages, Linear, DirTree, Grown, OthersKept;
    OrderedTree(v, dirs, role, kd);
    DeviceEntry();
    var r := MmioMapSteps(v, kd, next, q);
  }

  // Weakly safe states

  /** No task is alive. */
  ghost predicate NoTaskAlive(s: T.State) {
    forall i :: 0 <= i < |s.tasks| ==> s.tasks[i].status.Unused?
  }

  /**
   In the states that a real boot reaches, mmioMap keeps weak safety exactly if its page table is there
   already or no task is alive.
   */
  lemma MmioKeepsWeakIff(s: T.State, next: Word, q: Request, v': Vm, end: Word, va: Word)
    requires Weak(s) && GoodNext(next) && GoodRequest(q) && WindowPages(q.size) > 0
    requires T.Wft(s) && MmioMap(s.v, s.kd, next, q.pa, q.size) == Ok((v', end, va))
    ensures Weak(T.SetMemory(s, v')) <==> Present(s.v.page[s.kd][MMIOX]) || NoTaskAlive(s)
  {
    hide WeakWith, MmioMap, GoodNext, GoodRequest, WindowPages;
    var dirs, role, t :| WeakWith(s, dirs, role, t);
    if Present(s.v.page[s.kd][MMIOX]) || NoTaskAlive(s) {
      WeakKept(s, dirs, role, t, next, q, v', end, va);
    } else {
      WeakLost(s, dirs, role, t, next, q, v', end, va);
    }
  }

  lemma WeakKept(s: T.State, dirs: set<nat>, role: seq<Role>, t: nat, next: Word, q: Request, v': Vm, end: Word,
      va: Word)
    requires WeakWith(s, dirs, role, t) && GoodNext(next) && GoodRequest(q) && WindowPages(q.size) > 0
    requires T.Wft(s) && MmioMap(s.v, s.kd, next, q.pa, q.size) == Ok((v', end, va))
    requires Present(s.v.page[s.kd][MMIOX]) || NoTaskAlive(s)
    ensures Weak(T.SetMemory(s, v'))
  {
    hide KInv, Inv, Marked, Guarded, MmioMap, GoodNext, GoodRequest, WindowPages, Lift, T.Wft, MarksKept;
    WeakMemory(s, dirs, role, t);
    EditingDevice(s.v, dirs, role, s.kd, t);
    MmioLifts(s.v, dirs, role, s.kd, t, next, q);
    var role' := DeviceKeeps(Lift(s.v, dirs), role, s.kd, next, q, Lift(v', dirs), end, va);
    SameMarks(s.v, dirs, role, s.kd, t, v', role');
    SameKernelState(s, dirs, role, v', role');
    assert WeakWith(T.SetMemory(s, v'), dirs, role', t);
  }

  lemma WeakMemory(s: T.State, dirs: set<nat>, role: seq<Role>, t: nat)
    requires WeakWith(s, dirs, role, t)
    ensures Inv(Lift(s.v, dirs), role, s.kd) && Guarded(Lift(s.v, dirs), role, s.kd) && Marked(s.v, dirs, role, s.kd, t)
    ensures KInv(LiftState(s, dirs), role) && (NoTaskAlive(s) ==> NoTasks(role))
  {
  }

  lemma SameMarks(v: Vm, dirs: set<nat>, role: seq<Role>, kd: nat, t: nat, v': Vm, role': seq<Role>)
    requires Marked(v, dirs, role, kd, t) && MarksKept(v, v', dirs) && |role'| == |role| == |Lift(v', dirs).page|
    requires forall g :: 0 <= g < |role| && !role[g].Free? ==> role'[g] == role[g]
    requires forall g :: 0 <= g < |role| && role[g].Free? ==> !role'[g].Dir?
    requires forall g :: 0 <= g < |role| && role[g].Lost? ==> Lift(v', dirs).page[g] == Lift(v, dirs).page[g]
    ensures Marked(v', dirs, role', kd, t)
  {
    assert Lift(v', dirs).page[t] == Lift(v, dirs).page[t];
  }

  lemma SameKernelState(s: T.State, dirs: set<nat>, role: seq<Role>, v': Vm, role': seq<Role>)
    requires KInv(LiftState(s, dirs), role) && |v'.page| == |s.v.page|
    requires Inv(Lift(v', dirs), role', s.kd) && Guarded(Lift(v', dirs), role', s.kd) && |role'| == |role|
    requires forall g :: 0 <= g < |role| && !role[g].Free? ==> role'[g] == role[g]
    requires forall g :: 0 <= g < |role| && role[g].Free? ==> !role'[g].Dir?
    ensures KInv(LiftState(T.SetMemory(s, v'), dirs), role')
  {
    hide Inv, Guarded;
  }

  /** A live task's directory never gets the new entry. */
  lemma WeakLost(s: T.State, dirs: set<nat>, role: seq<Role>, t: nat, next: Word, q: Request, v': Vm, end: Word,
      va: Word)
    requires WeakWith(s, dirs, role, t) && GoodNext(next) && GoodRequest(q) && WindowPages(q.size) > 0
    requires T.Wft(s) && MmioMap(s.v, s.kd, next, q.pa, q.size) == Ok((v', end, va))
    requires !Present(s.v.page[s.kd][MMIOX]) && !NoTaskAlive(s)
    ensures !Weak(T.SetMemory(s, v'))
  {
    hide KInv, Inv, Marked, Guarded, MmioMap, GoodNext, GoodRequest, WindowPages, Lift, MarksKept, TablesFrom, Linear;
    WeakMemory(s, dirs, role, t);
    EditingDevice(s.v, dirs, role, s.kd, t);
    MmioLifts(s.v, dirs, role, s.kd, t, next, q);
    var i :| 0 <= i < |s.tasks| && !s.tasks[i].status.Unused?;
    var d := s.tasks[i].dir;
    EntryMissed(s, dirs, role, t, next, q, v', end, va, i);
    forall ds: set<nat>, role1: seq<Role>, t1: nat | WeakWith(T.SetMemory(s, v'), ds, role1, t1)
      ensures false
    {
      WeakHalves(T.SetMemory(s, v'), ds, role1, t1, i);
    }
  }

  lemma WeakHalves(s: T.State, dirs: set<nat>, role: seq<Role>, t: nat, i: nat)
    requires WeakWith(s, dirs, role, t) && i < |s.tasks| && !s.tasks[i].status.Unused?
    ensures s.tasks[i].dir < |s.v.page| && s.kd < |s.v.page|
    ensures s.v.page[s.tasks[i].dir][MMIOX] == s.v.page[s.kd][MMIOX]
    ensures s.tasks[i].dir < |role| && role[s.tasks[i].dir] == Dir(i)
  {
    var u, d := Lift(s.v, dirs), s.tasks[i].dir;
    assert role[d] == Dir(i);
    HalvesSay(u, role, s.kd, d);
    assert u.page[d][MMIOX] == s.v.page[d][MMIOX] && u.page[s.kd][MMIOX] == s.v.page[s.kd][MMIOX];
  }

  lemma EntryMissed(s: T.State, dirs: set<nat>, role: seq<Role>, t: nat, next: Word, q: Request, v': Vm, end: Word,
      va: Word, i: nat)
    requires WeakWith(s, dirs, role, t) && GoodNext(next) && GoodRequest(q) && WindowPages(q.size) > 0
    requires MmioMap(Lift(s.v, dirs), s.kd, next, q.pa, q.size) == Ok((Lift(v', dirs), end, va)) && Wf(Lift(s.v, dirs))
    requires s.kd < |s.v.page| && !Present(s.v.page[s.kd][MMIOX]) && i < |s.tasks| && !s.tasks[i].status.Unused?
    ensures var d := s.tasks[i].dir;
            d < |v'.page| && s.kd < |v'.page| && v'.page[d][MMIOX] != v'.page[s.kd][MMIOX]
  {
    var u, u', d, kd := Lift(s.v, dirs), Lift(v', dirs), s.tasks[i].dir, s.kd;
    hide KInv, Marked, Guarded, MmioMap, GoodNext, GoodRequest, WindowPages, Linear, Lift, Inv, WeakWith, TablesFrom,
        OnlyDevice;
    WeakMemory(s, dirs, role, t);
    WeakHalves(s, dirs, role, t, i);
    Unlifted(s.v, dirs, v', d);
    Unlifted(s.v, dirs, v', kd);
    DeviceMissed(u, role, kd, next, q, u', end, va, d);
  }

  lemma DeviceMissed(u: Vm, role: seq<Role>, kd: nat, next: Word, q: Request, u': Vm, end: Word, va: Word, d: nat)
    requires Inv(u, role, kd) && GoodNext(next) && GoodRequest(q) && WindowPages(q.size) > 0
    requires MmioMap(u, kd, next, q.pa, q.size) == Ok((u', end, va)) && d < |role| && role[d].Dir?
    requires !Present(u.page[kd][MMIOX])
    ensures |u'.page| == |u.page| && kd < |u.page| && d < |u.page|
    ensures Present(u'.page[kd][MMIOX]) && u'.page[d][MMIOX] == u.page[d][MMIOX] == u.page[kd][MMIOX]
  {
    hide MmioMap, GoodNext, GoodRequest, WindowPages, Linear, Inv, TablesFrom, OnlyDevice, DirTree;
    KernelTree(u, role, kd);
    DeviceEntry();
    var r := MmioMapSteps(u, kd, next, q);
    WindowTouches(next, q);
    MissedBy(u, role, kd, u', d, Pgnum(next), Pgnum(next) + WindowPages(q.size));
  }

  lemma MissedBy(u: Vm, role: seq<Role>, kd: nat, u': Vm, d: nat, p: nat, q: nat)
    requires Inv(u, role, kd) && TablesFrom(u, kd, u', 1, p, q) && OnlyDevice(p, q) && d < |role| && role[d].Dir?
    requires !Present(u.page[kd][MMIOX])
    ensures |u'.page| == |u.page| && kd < |u.page| && d < |u.page|
    ensures Present(u'.page[kd][MMIOX]) && u'.page[d][MMIOX] == u.page[d][MMIOX] == u.page[kd][MMIOX]
  {
    hide Touched;
    TaskFramesKept(u, role, kd, u', u.free[..1]);
    HalvesSay(u, role, kd, d);
  }

  lemma Unlifted(v: Vm, dirs: set<nat>, v': Vm, c: nat)
    requires c < |v.page|
    ensures Lift(v, dirs).page[c][MMIOX] == v.page[c][MMIOX]
    ensures c < |v'.page| ==> Lift(v', dirs).page[c][MMIOX] == v'.page[c][MMIOX]
    ensures |Lift(v', dirs).page| == |v'.page| && |Lift(v, dirs).page| == |v.page|
  {
  }
}
