/**
 Whole runs of the kernel in place: every event keeps the task invariant of TaskInvariant, exact
 ownership of memory, and the agreement of the translation cache with the tables.
 */
module KernelRuns {
  import opened Wrappers
  import opened Mmu
  import opened FreeList
  import opened PageTables
  import opened Ownership
  import opened Translation
  import opened CacheSafety
  import opened TaskInvariant
  import opened RunSafety
  import opened StaleMemory
  import opened StaleRuns
  import opened StaleFree
  import opened ArrayRuns
  import opened TranslationCache
  import opened KernelTasks
  import ElfLoader
  import MmioRuns
  import MmioSafety
  import MmioWindows
  import UserStores
  import T = Tasks

  lemma StepIsSafe(s: T.State, e: T.Event)
    requires Safe(s) && T.Wft(s) && T.Enabled(s, e) && GoodProgram(e)
    ensures !T.Step(s, e).Cyclic? && (T.Step(s, e).Panic? <==> Stops(s, e))
    ensures T.Step(s, e).Ok? ==> Safe(T.Step(s, e).value)
  {
    var role :| KInv(s, role);
    hide KInv, T.Step, Stops;
    var r, role' := StepKeeps(s, role, e);
  }

  // Safe and weakly safe states alike keep the translation cache in agreement

  /** The invariant holds, but perhaps for the entry of 0x80000000 in the given directories. */
  ghost predicate InOrder(s: T.State, dirs: set<nat>, role: seq<Role>) {
    KInv(LiftState(s, dirs), role) && (dirs == {} || exists t: nat :: Marked(s.v, dirs, role, s.kd, t))
  }

  lemma SafeInOrder(s: T.State) returns (role: seq<Role>)
    requires Safe(s)
    ensures InOrder(s, {}, role)
  {
    hide KInv;
    role :| KInv(s, role);
    LiftNone(s.v);
    assert LiftState(s, {}) == s;
  }

  lemma WeakInOrder(s: T.State) returns (dirs: set<nat>, role: seq<Role>)
    requires Weak(s)
    ensures InOrder(s, dirs, role) && dirs != {}
  {
    hide KInv;
    var ds, r, t :| WeakWith(s, ds, r, t);
    dirs, role := ds, r;
  }

  lemma InOrderParts(s: T.State, dirs: set<nat>, role: seq<Role>)
    requires InOrder(s, dirs, role)
    ensures Ordered(s.v, dirs, role, s.kd) && IsDir(role, s.kd, s.cr3) && T.Wft(s) && Loaded(s.v, s.kd, s.cr3)
  {
    Cr3IsLive(LiftState(s, dirs), role);
    hide KInv, Inv;
    assert Ordered(s.v, dirs, role, s.kd) && IsDir(role, s.kd, s.cr3);
    hide Ordered;
  }

  /** What an event must meet for the cache to stay in agreement. */
  ghost predicate Orderly(s: T.State, e: T.Event) {
    && Loaded(s.v, s.kd, s.cr3)
    && (e.DoRunTask? ==> Suits(s.v, s.kd, e.elf))
    && (e.DoTrap? && s.current.Some? && s.current.value < |s.tasks| ==>
          Removable(T.SaveFrame(s, s.current.value, e.frame), s.current.value))
    && (e.DoStore? ==> StoresApart(s.v, s.cr3, e.va))
  }

  /** Every event of a run meets it. */
  lemma InOrderIsOrderly(s: T.State, dirs: set<nat>, role: seq<Role>, e: T.Event)
    requires InOrder(s, dirs, role) && T.Enabled(s, e) && GoodProgram(e) && (dirs == {} || StaysClear(e))
    ensures Orderly(s, e)
  {
    hide InOrder, Ordered, Suits, Removable, StoresApart, UserStores.UserCanWrite, Loaded;
    InOrderParts(s, dirs, role);
    match e
    case DoRunTask(elf, _) =>
      OrderlyProgram(s.v, dirs, role, s.kd, elf);
    case DoTrap(f, _) =>
      OrderlyTrap(s, dirs, role, f);
    case DoStore(va, _) =>
      OrderlyStore(s, dirs, role, va);
    case DoCont =>
    case DoSi =>
  }

  lemma OrderlyProgram(v: Vm, dirs: set<nat>, role: seq<Role>, kd: nat, elf: ElfLoader.Elf)
    requires Ordered(v, dirs, role, kd) && ElfLoader.WellFormed(elf) && (dirs == {} || AvoidsStale(elf))
    ensures Suits(v, kd, elf)
  {
    NoEntryWithout(v, dirs, role, kd);
    hide Ordered, AvoidsStale;
  }

  lemma NoEntryWithout(v: Vm, dirs: set<nat>, role: seq<Role>, kd: nat)
    requires Ordered(v, dirs, role, kd)
    ensures kd < |v.page| && (dirs == {} ==> !Present(v.page[kd][STALEX]))
  {
    if dirs == {} {
      LiftNone(v);
      NothingBelow(v, role, kd, STALEX);
    }
  }

  lemma OrderlyTrap(s: T.State, dirs: set<nat>, role: seq<Role>, f: T.Frame)
    requires InOrder(s, dirs, role) && s.ctl.User?
    ensures s.current.Some? && s.current.value < |s.tasks| && s.current.value !in s.free
    ensures Removable(T.SaveFrame(s, s.current.value, f), s.current.value)
  {
    InOrderParts(s, dirs, role);
    CurrentTask(LiftState(s, dirs), role);
    hide Ordered, InOrder;
    var i := s.current.value;
    OrderedShape(s.v, dirs, role, s.kd);
    assert Owned(s.v, s.kd, s.tasks[i].dir, s.kd);
  }

  lemma CurrentTask(s: T.State, role: seq<Role>)
    requires KInv(s, role) && s.ctl.User?
    ensures s.current.Some? && s.current.value < |s.tasks| && s.current.value !in s.free
    ensures s.tasks[s.current.value].dir == s.cr3 < |role| && role[s.cr3].Dir? && role[s.kd].Kernel?
        && IsDir(role, s.kd, s.kd)
  {
    hide Inv, UserStores.Guarded;
    assert s.tasks[s.current.value].status.Running?;
  }

  lemma OrderlyStore(s: T.State, dirs: set<nat>, role: seq<Role>, a: Word)
    requires InOrder(s, dirs, role) && s.ctl.User? && s.cr3 < |s.v.page| && UserStores.UserCanWrite(s.v, s.cr3, a)
    ensures StoresApart(s.v, s.cr3, a)
  {
    InOrderParts(s, dirs, role);
    var u := LiftState(s, dirs);
    CurrentTask(u, role);
    if dirs == {} {
      LiftNone(s.v);
      UserStores.UserWritesBelowUtop(s.v, role, s.kd, s.cr3, a);
      NothingBelow(s.v, role, s.kd, STALEX);
    } else {
      var t :| Marked(s.v, dirs, role, s.kd, t);
      CanWriteLifts(s.v, dirs, role, s.kd, t, s.cr3, a);
    }
    LayoutIndexes();
    hide InOrder, Ordered, UserStores.UserCanWrite;
    OrderedStores(s.v, dirs, role, s.kd, s.cr3, a);
  }

  lemma TrapNeedsCurrent(s: T.State, f: T.Frame, t: T.Trap)
    requires T.Wft(s) && s.current.None?
    ensures T.HandleTrap(s, f, t) == Panic
  {
  }

  // In place

  /** One event, from any valid state in which it links no ring. */
  method Execute(k: TaskTable, e: T.Event) returns (ok: bool)
    requires k.Valid() && T.Enabled(k.State(), e) && (T.Wft(k.State()) ==> !T.Step(k.State(), e).Cyclic?)
    requires e.DoTrap? && k.current != NIL ==> k.current !in k.slots
    modifies k, k.tasks, k.nextSlot
    modifies k.mem`freeList, k.mem`free, k.mem`tlb, k.mem`cr3, k.mem.nextFree, k.mem.refCount, k.mem.frames
    ensures T.Wft(old(k.State())) && (!ok <==> T.Step(old(k.State()), e) == Panic)
    ensures ok ==> k.Valid() && T.Step(old(k.State()), e) == Ok(k.State())
    ensures ok && old(k.mem.Coherent()) && old(Orderly(k.State(), e)) ==> k.mem.Coherent()
  {
    hide T.Create, T.HandleTrap, T.Resume, T.RunTask, T.UserStore, Removable, Loaded, IsList, T.Wft, Suits, Agrees;
    hide StoresApart, UserStores.UserCanWrite;
    k.ValidIsWft();
    match e
    case DoRunTask(elf, rand) =>
      var outcome;
      ok, outcome := k.Create(elf, rand);
      if !ok || !outcome.Created? {
        return false;
      }
      k.Run(outcome.task);
    case DoCont =>
      k.Resume(false);
      ok := true;
    case DoSi =>
      k.Resume(true);
      ok := true;
    case DoTrap(f, t) =>
      if k.current == NIL {
        TrapNeedsCurrent(k.State(), f, t);
      }
      ok := k.Trap(f, t);
    case DoStore(va, b) =>
      ok := k.Store(va, b);
  }

  /**
   One event from a safe state: the state follows Step, the invariant and the translation cache
   survive. Exactly a program without room and an unreadable string stop the kernel.
   */
  method Step(k: TaskTable, e: T.Event) returns (ok: bool)
    requires k.Valid() && Safe(k.State()) && k.mem.Coherent()
    requires T.Enabled(k.State(), e) && GoodProgram(e)
    modifies k, k.tasks, k.nextSlot
    modifies k.mem`freeList, k.mem`free, k.mem`tlb, k.mem`cr3, k.mem.nextFree, k.mem.refCount, k.mem.frames
    ensures T.Wft(old(k.State())) && (!ok <==> T.Step(old(k.State()), e) == Panic)
    ensures !ok <==> Stops(old(k.State()), e)
    ensures ok ==> k.Valid() && T.Step(old(k.State()), e) == Ok(k.State()) && Safe(k.State()) && k.mem.Coherent()
  {
    hide T.Step, Safe, InOrder, Orderly, IsList, T.Wft, Stops, Agrees, UserStores.UserCanWrite;
    k.ValidIsWft();
    ghost var s := k.State();
    StepIsSafe(s, e);
    ghost var role := SafeInOrder(s);
    InOrderIsOrderly(s, {}, role, e);
    if e.DoTrap? {
      OrderlyTrap(s, {}, role, e.frame);
    }
    ok := Execute(k, e);
  }

  /**
   One event after the real boot. The state follows Step; exactly a program without room and an unreadable
   string stop the kernel. It stays weakly safe and takes none of the frames of the Task array, which are on the
   free list, exactly if no task is freed and the array is behind the frames that the event takes; then the
   array stays where it is, unwritten.
   */
  method StepAfterBoot(k: TaskTable, e: T.Event, ghost a: set<nat>) returns (ok: bool)
    requires k.Valid() && Weak(k.State()) && T.Enabled(k.State(), e) && GoodProgram(e) && StaysClear(e)
    requires OnList(k.State().v, a)
    modifies k, k.tasks, k.nextSlot
    modifies k.mem`freeList, k.mem`free, k.mem`tlb, k.mem`cr3, k.mem.nextFree, k.mem.refCount, k.mem.frames
    ensures T.Wft(old(k.State())) && (!ok <==> T.Step(old(k.State()), e) == Panic)
    ensures !ok <==> Stops(old(k.State()), e)
    ensures ok ==> k.Valid() && T.Step(old(k.State()), e) == Ok(k.State())
    ensures ok ==>
              (Weak(k.State()) && Spares(old(k.State()), e, a) <==>
                 !Frees(old(k.State()), e) && Behind(old(k.State().v.free), Takes(e), a))
    ensures ok && Weak(k.State()) && Spares(old(k.State()), e, a) ==> Intact(old(k.State().v), k.State().v, a)
    ensures ok && old(k.mem.Coherent()) ==> k.mem.Coherent()
  {
    hide T.Step, Weak, InOrder, Orderly, IsList, T.Wft, Stops, Agrees, Frees, StaysClear, UserStores.UserCanWrite;
    hide Spares, Behind, Takes, OnList, Intact;
    k.ValidIsWft();
    ghost var s := k.State();
    WeakStepEnds(s, e);
    ghost var dirs, role := WeakInOrder(s);
    InOrderIsOrderly(s, dirs, role, e);
    if e.DoTrap? {
      OrderlyTrap(s, dirs, role, e.frame);
    }
    ok := Execute(k, e);
    if ok {
      StepIff(s, e, a);
    }
  }

  /**
   mmioMap after the real boot, as mp::init calls it: no cached translation goes stale, and the state
   stays weakly safe exactly if the page table was there already or no task is alive.
   */
  method MapDevice(k: TaskTable, pa: Word, size: Word) returns (ok: bool, va: Word)
    requires k.Valid() && Weak(k.State()) && MmioWindows.GoodNext(k.mem.mmioNext)
    requires MmioWindows.GoodRequest(MmioWindows.Request(pa, size)) && size > 0
    modifies k.mem`freeList, k.mem`free, k.mem`tlb, k.mem`mmioNext, k.mem.nextFree, k.mem.refCount, k.mem.frames
    ensures T.Wft(old(k.State()))
    ensures !ok <==> MmioWindows.MmioMap(old(k.mem.State()), k.spaces.kd, old(k.mem.mmioNext), pa, size) == Panic
    ensures ok ==> k.Valid() && (old(k.mem.Coherent()) ==> k.mem.Coherent())
    ensures ok ==>
              (Weak(k.State()) <==>
                 Present(old(k.mem.frames[k.spaces.kd][MmioSafety.MMIOX])) || MmioRuns.NoTaskAlive(old(k.State())))
    ensures ok && Present(old(k.mem.frames[k.spaces.kd][MmioSafety.MMIOX])) ==> k.mem.free == old(k.mem.free)
    ensures ok && !Present(old(k.mem.frames[k.spaces.kd][MmioSafety.MMIOX])) ==>
              old(k.mem.free) != [] && k.mem.free == old(k.mem.free)[1..]
  {
    hide Weak, InOrder, T.Wft, IsList, Agrees, Loaded, MmioWindows.MmioMap, RoundUp, Ordered;
    k.ValidIsWft();
    ghost var s, next, q := k.State(), k.mem.mmioNext, MmioWindows.Request(pa, size);
    ghost var dirs, role := WeakInOrder(s);
    InOrderParts(s, dirs, role);
    ok, va := k.spaces.MapDevice(pa, size);
    if ok {
      SomePage(q);
      MmioRuns.MmioKeepsWeakIff(s, next, q, k.mem.State(), k.mem.mmioNext, va);
      MmioRuns.DeviceTakes(s.v, dirs, role, s.kd, next, q, k.mem.State(), k.mem.mmioNext, va);
      assert k.State() == T.SetMemory(s, k.mem.State());
    }
  }

  lemma SomePage(q: MmioWindows.Request)
    requires MmioWindows.GoodRequest(q) && q.size > 0
    ensures MmioWindows.WindowPages(q.size) > 0
  {
    MmioWindows.WindowSize(q.size);
  }
}
