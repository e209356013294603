/**
 The Task array after the real boot. Its frames are on the free list (see BootMaps), so runs follow the
 model only until one of them is handed out: create would clear it. This module says exactly when.
 */
module ArrayRuns {
  import opened Wrappers
  import opened Mmu
  import opened PageTables
  import opened Ownership
  import opened Translation
  import opened AddressSpaces
  import opened Isolation
  import opened ElfLoader
  import opened UserMemory
  import opened FrameNeeds
  import opened Tasks
  import opened TaskInvariant
  import opened RunSafety
  import opened StaleMemory
  import opened StaleRuns
  import opened StaleFree
  import opened BootStates
  import OwnershipSteps
  import RegionSteps
  import UserCheck
  import UserStores

  /** The frames that an event takes from the front of the list at the worst moment, if it frees no task. */
  function Takes(e: Event): nat {
    if e.DoRunTask? then CreateFrames(e.elf) else 0
  }

  /** The frames by which the list is shorter afterwards. */
  function Loses(e: Event): nat {
    if e.DoRunTask? then 2 + FramesFor(ImagePages(e.elf)) else 0
  }

  /** The given frames come after the first n of the list. */
  ghost predicate Behind(free: seq<nat>, n: nat, a: set<nat>) {
    forall i :: 0 <= i < n && i < |free| ==> free[i] !in a
  }

  ghost predicate OnList(v: Vm, a: set<nat>) {
    forall f :: f in a ==> f in v.free
  }

  /** From v to v', the given frames stay on the list and are not written. */
  ghost predicate Intact(v: Vm, v': Vm, a: set<nat>) {
    |v'.page| == |v.page| && forall f :: f in a ==> f in v'.free && f < |v.page| && v'.page[f] == v.page[f]
  }

  // What a step does to the list

  /** Without frees, the list only loses frames at its front; the others are not written. */
  lemma ListStep(s: State, e: Event)
    requires Weak(s) && Wft(s) && Enabled(s, e) && GoodProgram(e) && StaysClear(e) && !Frees(s, e) && Step(s, e).Ok?
    ensures Loses(e) <= Takes(e) <= |s.v.free| && |Step(s, e).value.v.free| == |s.v.free| - Loses(e)
    ensures TailKept(s.v, Step(s, e).value.v, |s.v.free| - Takes(e))
  {
    hide Weak, Create, HandleTrap, Resume, RunTask, UserStore, Wft, UserStores.UserCanWrite, TailKept, CreateFrames,
        FramesFor, ImagePages, AvoidsStale, WellFormed, Frees;
    LosesTaken(e);
    match e {
      case DoRunTask(elf, rand) =>
        CreateList(s, elf, rand);
        RunMemory(Create(s, elf, rand).value.0, Create(s, elf, rand).value.1.task);
      case DoCont =>
        ResumeMemory(s, false);
        TailRefl(s.v, |s.v.free|);
      case DoSi =>
        ResumeMemory(s, true);
        TailRefl(s.v, |s.v.free|);
      case DoTrap(f, t) =>
        TrapMemory(s, f, t);
        TailRefl(s.v, |s.v.free|);
      case DoStore(va, b) =>
        StoreList(s, va, b);
    }
  }

  lemma LosesTaken(e: Event)
    ensures Loses(e) <= Takes(e)
  {
  }

  lemma RunMemory(s: State, i: nat)
    requires Wft(s) && i < MAX_TASKS
    ensures RunTask(s, i).v == s.v
  {
  }

  lemma ResumeMemory(s: State, step: bool)
    requires Wft(s) && s.ctl.Monitor?
    ensures Resume(s, step).v == s.v
  {
  }

  lemma TrapMemory(s: State, f: Tasks.Frame, t: Trap)
    requires Wft(s) && !Frees(s, DoTrap(f, t)) && HandleTrap(s, f, t).Ok?
    ensures HandleTrap(s, f, t).value.v == s.v
  {
    hide UserCheck.Check, Readable, Destroy;
    var i := s.current.value;
    assert SaveFrame(s, i, f).tasks[i].dir == s.tasks[i].dir;
  }

  /** A program's stores reach data frames only. */
  lemma StoreList(s: State, va: Word, b: Byte)
    requires Weak(s) && Wft(s) && Enabled(s, DoStore(va, b)) && UserStore(s, va, b).Ok?
    ensures var v' := UserStore(s, va, b).value.v; v'.free == s.v.free && TailKept(s.v, v', |s.v.free|)
  {
    hide WeakWith, UserStores.UserCanWrite, Wft, Inv, Marked, Lift, UserStores.Guarded, UserStores.NoUserWrites, Walk,
        KInv, UserStore, TailKept;
    var dirs, role, t :| WeakWith(s, dirs, role, t);
    WeakParts(s, dirs, role, t);
    GuardedParts(Lift(s.v, dirs), role, s.kd);
    CanWriteLifts(s.v, dirs, role, s.kd, t, s.cr3, va);
    WalkLifts(s.v, dirs, role, s.kd, t, s.cr3, va);
    LiftedFree(s.v, dirs, role, s.kd);
    StoreForm(s, va, b);
    OnlyOne(s.v, UserStore(s, va, b).value.v, Mmu.Frame(Walk(s.v, s.cr3, va).value));
  }

  lemma StoreForm(s: State, va: Word, b: Byte)
    requires Wft(s) && UserStore(s, va, b).Ok?
    ensures s.cr3 < |s.v.page| && Walk(s.v, s.cr3, va).Some?
    ensures var v', g := UserStore(s, va, b).value.v, Mmu.Frame(Walk(s.v, s.cr3, va).value);
            && v'.free == s.v.free && |v'.page| == |s.v.page|
            && forall f :: 0 <= f < |s.v.page| && f != g ==> v'.page[f] == s.v.page[f]
  {
    hide Walk;
  }

  lemma OnlyOne(v: Vm, v': Vm, g: nat)
    requires v'.free == v.free && |v'.page| == |v.page| && g !in v.free
    requires forall f :: 0 <= f < |v.page| && f != g ==> v'.page[f] == v.page[f]
    ensures TailKept(v, v', |v.free|)
  {
  }

  lemma GuardedParts(v: Vm, role: seq<Role>, kd: nat)
    requires UserStores.Guarded(v, role, kd)
    ensures kd < |v.page| && UserStores.NoUserWrites(v, kd)
  {
  }

  lemma LiftedFree(v: Vm, dirs: set<nat>, role: seq<Role>, kd: nat)
    requires Inv(Lift(v, dirs), role, kd)
    ensures |role| == |v.page| && forall f :: f in v.free ==> f < |role| && role[f].Free?
  {
  }

  lemma CreateList(s: State, elf: Elf, rand: Word)
    requires Weak(s) && Wft(s) && WellFormed(elf) && AvoidsStale(elf)
    requires Create(s, elf, rand).Ok? && Create(s, elf, rand).value.1.Created?
    ensures var v' := Create(s, elf, rand).value.0.v;
            && CreateFrames(elf) <= |s.v.free| && |v'.free| == |s.v.free| - 2 - FramesFor(ImagePages(elf))
            && TailKept(s.v, v', |s.v.free| - CreateFrames(elf))
  {
    hide WeakWith, Create, SetupMemory, LoadElf, AvoidsStale, Inv, Marked, Wft, LoadsIff, CanCreate, TailKept,
        WellFormed,
        FramesFor, ImagePages, CreateFrames, Complete;
    var dirs, role, t :| WeakWith(s, dirs, role, t);
    WeakShape(s, dirs, role, t);
    WeakMarked(s, dirs, role, t);
    WeakCreateEnds(s, elf, rand);
    RoomFor(s, elf);
    var v2, f2, q := WeakLoads(s.v, dirs, role, s.kd, t, elf);
    CreatedMemory(s, elf, rand, v2, f2, q);
  }

  lemma RoomFor(s: State, elf: Elf)
    requires CanCreate(s, elf)
    ensures |s.v.free| >= CreateFrames(elf) >= 2
  {
  }

  lemma CreatedMemory(s: State, elf: Elf, rand: Word, v2: Vm, f2: nat, q: Res<Vm>)
    requires Wft(s) && Complete(elf) && Create(s, elf, rand).Ok? && Create(s, elf, rand).value.1.Created?
    requires SetupMemory(SetupMemory(s.v, s.kd).0, s.kd) == (v2, Some(f2)) && q == LoadElf(v2, f2, elf)
    ensures q.Ok? && Create(s, elf, rand).value.0.v == q.value
  {
    hide SetupMemory, LoadElf;
  }

  // Which frames a step takes

  /** The state with only the first k frames on the list. */
  function FirstOnly(s: State, k: nat): State
    requires k <= |s.v.free|
  {
    SetMemory(s, Vm(s.v.free[..k], s.v.rc, s.v.page))
  }

  /** The event takes the frame at place k of the list: with only the frames before it, it would find the list
      empty, and stop. */
  ghost predicate TakesFrame(s: State, e: Event, k: nat)
    requires Wft(s) && Enabled(s, e) && k <= |s.v.free|
  {
    Wft(FirstOnly(s, k)) && Enabled(FirstOnly(s, k), e) && !Step(FirstOnly(s, k), e).Ok?
  }

  /** The frames that are not listed any more count as the kernel's. */
  function CutRoles(role: seq<Role>, free: seq<nat>, k: nat): (r: seq<Role>)
    requires k <= |free|
    ensures |r| == |role| && forall f :: 0 <= f < |role| ==> r[f] == if f in free[k..] then Kernel else role[f]
  {
    seq(|role|, f requires 0 <= f < |role| => if f in free[k..] then Kernel else role[f])
  }

  lemma SplitList(s: seq<nat>, k: nat)
    requires k <= |s| && forall i, j :: 0 <= i < j < |s| ==> s[i] != s[j]
    ensures forall f :: f in s[..k] <==> f in s && f !in s[k..]
  {
    assert s == s[..k] + s[k..];
    forall f | f in s[..k]
      ensures f !in s[k..]
    {
      var i :| 0 <= i < |s[..k]| && s[..k][i] == f;
    }
  }

  lemma CutInv(v: Vm, role: seq<Role>, kd: nat, k: nat)
    requires Inv(v, role, kd) && k <= |v.free|
    ensures Inv(Vm(v.free[..k], v.rc, v.page), CutRoles(role, v.free, k), kd)
  {
    var u, role' := Vm(v.free[..k], v.rc, v.page), CutRoles(role, v.free, k);
    CutFree(v, role, kd, k, u, role');
    hide Inv, Mappings, CutRoles;
    forall g | 0 <= g < |role|
      ensures Mappings(u, role', g) == Mappings(v, role, g)
    {
      SameMappings(v, role, u, role', g);
    }
    CutPages(v, role, kd, k, u, role');
    CutCounts(v, role, kd, u, role');
    hide TablesAgree, DataAgrees, KernelHalf, HalvesAgree, CountsAgree, FreeAgrees, Wf;
    InvIs(u, role', kd);
  }

  lemma InvIs(v: Vm, role: seq<Role>, kd: nat)
    requires Wf(v) && |role| == |v.page| && FreeAgrees(v, role) && TablesAgree(v, role) && DataAgrees(v, role)
    requires KernelHalf(v, role, kd) && HalvesAgree(v, role, kd) && CountsAgree(v, role)
    ensures Inv(v, role, kd)
  {
    hide TablesAgree, DataAgrees, HalvesAgree, CountsAgree, FreeAgrees;
  }

  lemma CutFree(v: Vm, role: seq<Role>, kd: nat, k: nat, u: Vm, role': seq<Role>)
    requires Inv(v, role, kd) && k <= |v.free| && u == Vm(v.free[..k], v.rc, v.page)
        && role' == CutRoles(role, v.free, k)
    ensures Wf(u) && |role'| == |role| == |u.page| && FreeAgrees(u, role')
    ensures forall f :: 0 <= f < |role| ==> role'[f] == role[f] || (role[f].Free? && role'[f].Kernel?)
  {
    SplitList(v.free, k);
    hide TablesAgree, DataAgrees, KernelHalf, HalvesAgree, CountsAgree;
    assert forall f :: f in v.free[k..] ==> f in v.free;
  }

  lemma CutCounts(v: Vm, role: seq<Role>, kd: nat, u: Vm, role': seq<Role>)
    requires Inv(v, role, kd) && u.page == v.page && u.rc == v.rc && |role'| == |role|
    requires forall f :: 0 <= f < |role| ==> role'[f] == role[f] || (role[f].Free? && role'[f].Kernel?)
    requires forall g :: 0 <= g < |role| ==> Mappings(u, role', g) == Mappings(v, role, g)
    ensures CountsAgree(u, role')
  {
    hide Mappings, TablesAgree, DataAgrees, KernelHalf, HalvesAgree, FreeAgrees;
  }

  lemma CutPages(v: Vm, role: seq<Role>, kd: nat, k: nat, u: Vm, role': seq<Role>)
    requires Inv(v, role, kd) && u.page == v.page && |role'| == |role|
    requires forall f :: 0 <= f < |role| ==> role'[f] == role[f] || (role[f].Free? && role'[f].Kernel?)
    ensures TablesAgree(u, role') && DataAgrees(u, role') && KernelHalf(u, role', kd) && HalvesAgree(u, role', kd)
  {
    hide CountsAgree, FreeAgrees, Wf;
  }

  lemma CutIsWeak(s: State, k: nat)
    requires Weak(s) && k <= |s.v.free|
    ensures Weak(FirstOnly(s, k))
  {
    hide KInv, Marked, Lift, CutRoles;
    var dirs, role, t :| WeakWith(s, dirs, role, t);
    CutLifts(s.v, dirs, k);
    LiftedList(s, dirs);
    CutKeeps(LiftState(s, dirs), role, k);
    assert LiftState(FirstOnly(s, k), dirs) == FirstOnly(LiftState(s, dirs), k);
    CutMarks(s.v, dirs, role, s.kd, t, k);
    WeakIs(FirstOnly(s, k), dirs, CutRoles(role, s.v.free, k), t);
  }

  lemma LiftedList(s: State, dirs: set<nat>)
    ensures LiftState(s, dirs).v.free == s.v.free
  {
  }

  lemma CutMarks(v: Vm, dirs: set<nat>, role: seq<Role>, kd: nat, t: nat, k: nat)
    requires Marked(v, dirs, role, kd, t) && k <= |v.free|
    requires forall f :: f in v.free ==> f < |role| && role[f].Free?
    ensures Marked(Vm(v.free[..k], v.rc, v.page), dirs, CutRoles(role, v.free, k), kd, t)
  {
    assert forall f :: f in v.free[k..] ==> f in v.free;
  }

  lemma CutKeeps(s: State, role: seq<Role>, k: nat)
    requires KInv(s, role) && k <= |s.v.free|
    ensures KInv(FirstOnly(s, k), CutRoles(role, s.v.free, k))
    ensures forall f :: f in s.v.free ==> f < |role| && role[f].Free?
  {
    hide UserStores.Guarded, CutRoles;
    CutInv(s.v, role, s.kd, k);
    CutFree(s.v, role, s.kd, k, FirstOnly(s, k).v, CutRoles(role, s.v.free, k));
    CutGuards(s.v, role, s.kd, k, CutRoles(role, s.v.free, k));
    hide Inv;
    assert forall f :: f in s.v.free ==> f < |role| && role[f].Free? by {
      FreeNotData(s.v, role, s.kd);
    }
  }

  lemma CutLifts(v: Vm, dirs: set<nat>, k: nat)
    requires k <= |v.free|
    ensures var u := Lift(v, dirs); Vm(u.free[..k], u.rc, u.page) == Lift(Vm(v.free[..k], v.rc, v.page), dirs)
  {
    CountsLift(v, dirs, v.free[..k], v.rc);
  }

  lemma CutGuards(v: Vm, role: seq<Role>, kd: nat, k: nat, role': seq<Role>)
    requires UserStores.Guarded(v, role, kd) && k <= |v.free| && role' == CutRoles(role, v.free, k)
        && |role| == |v.page|
    ensures UserStores.Guarded(Vm(v.free[..k], v.rc, v.page), role', kd)
  {
    var u := Vm(v.free[..k], v.rc, v.page);
    forall d | 0 <= d < |role'| && role'[d].Dir?
      ensures RegionSteps.OwnPages(u, d)
    {
      assert RegionSteps.OwnPages(v, d);
      assert forall i: nat, j: nat :: i < 1024 && j < 1024 ==> Leaf(u, d, i, j) == Leaf(v, d, i, j);
    }
    assert forall i: nat, j: nat :: i < 1024 && j < 1024 ==> Leaf(u, kd, i, j) == Leaf(v, kd, i, j);
  }

  /** A step that works out takes exactly the first frames of the list, as many as Takes says. */
  lemma TakesIff(s: State, e: Event, k: nat)
    requires Weak(s) && Wft(s) && Enabled(s, e) && GoodProgram(e) && StaysClear(e) && Step(s, e).Ok? && k <= |s.v.free|
    ensures e.DoRunTask? ==> (TakesFrame(s, e, k) <==> k < Takes(e))
  {
    hide Weak, Step, CreateFrames, AvoidsStale, WellFormed, Wft;
    if e.DoRunTask? {
      CutIsWeak(s, k);
      var c := FirstOnly(s, k);
      CutShape(s, k);
      WeakStepEnds(s, e);
      WeakStepEnds(c, e);
    }
  }

  lemma CutShape(s: State, k: nat)
    requires Wft(s) && k <= |s.v.free|
    ensures Wft(FirstOnly(s, k))
  {
  }

  /** None of the given frames is taken. */
  ghost predicate Spares(s: State, e: Event, a: set<nat>)
    requires Wft(s) && Enabled(s, e)
  {
    e.DoRunTask? ==> forall k: nat :: k < |s.v.free| && s.v.free[k] in a ==> !TakesFrame(s, e, k)
  }

  lemma SparesIff(s: State, e: Event, a: set<nat>)
    requires Weak(s) && Wft(s) && Enabled(s, e) && GoodProgram(e) && StaysClear(e) && Step(s, e).Ok?
    ensures Spares(s, e, a) <==> Behind(s.v.free, Takes(e), a)
  {
    hide Weak, Step, Takes, GoodProgram, StaysClear, TakesFrame, Wft;
    forall k: nat | k < |s.v.free|
      ensures e.DoRunTask? ==> (TakesFrame(s, e, k) <==> k < Takes(e))
    {
      TakesIff(s, e, k);
    }
    NothingTaken(e);
  }

  lemma NothingTaken(e: Event)
    ensures !e.DoRunTask? ==> Takes(e) == 0 && Loses(e) == 0
  {
  }

  // One step

  /** As long as the given frames are behind those that the step takes, they stay on the list, unwritten. */
  lemma StepKeepsArray(s: State, e: Event, a: set<nat>)
    requires Weak(s) && Wft(s) && Enabled(s, e) && GoodProgram(e) && StaysClear(e) && !Frees(s, e) && Step(s, e).Ok?
    requires OnList(s.v, a) && Behind(s.v.free, Takes(e), a)
    ensures Intact(s.v, Step(s, e).value.v, a)
  {
    hide Weak, Step, Takes, Loses, Frees, GoodProgram, StaysClear, Enabled, Wft, TailKept, Behind, OnList, Intact;
    ListStep(s, e);
    WellFormedAfter(s, e);
    ArrayInTail(s.v, Step(s, e).value.v, Takes(e), a);
  }

  lemma ArrayInTail(v: Vm, v': Vm, n: nat, a: set<nat>)
    requires Wf(v) && n <= |v.free| && TailKept(v, v', |v.free| - n) && OnList(v, a) && Behind(v.free, n, a)
    ensures Intact(v, v', a)
  {
    assert |v'.page| == |v.page|;
    forall f | f in a
      ensures f in v'.free && f < |v.page| && v'.page[f] == v.page[f]
    {
      var i :| 0 <= i < |v.free| && v.free[i] == f;
      InTail(v, v', |v.free| - n, i);
    }
  }

  lemma InTail(v: Vm, v': Vm, m: nat, i: nat)
    requires TailKept(v, v', m) && |v.free| - m <= i < |v.free| && v.free[i] < |v.page|
    ensures v.free[i] in v'.free && v'.page[v.free[i]] == v.page[v.free[i]]
    ensures 0 <= |v'.free| - |v.free| + i < |v'.free| && v'.free[|v'.free| - |v.free| + i] == v.free[i]
  {
    var s, t := v.free[|v.free| - m..], v'.free[|v'.free| - m..];
    assert s[i - (|v.free| - m)] == v.free[i] && t[i - (|v.free| - m)] == v'.free[|v'.free| - |v.free| + i];
  }

  /**
   A step after the real boot follows the model exactly if it frees no task and takes none of the given
   frames, which are those of the Task array; that can be seen from the list before the step.
   */
  lemma StepIff(s: State, e: Event, a: set<nat>)
    requires Weak(s) && Wft(s) && Enabled(s, e) && GoodProgram(e) && StaysClear(e) && OnList(s.v, a) && Step(s, e).Ok?
    ensures Weak(Step(s, e).value) && Spares(s, e, a) <==> !Frees(s, e) && Behind(s.v.free, Takes(e), a)
    ensures Weak(Step(s, e).value) && Spares(s, e, a) ==> Intact(s.v, Step(s, e).value.v, a)
  {
    hide Weak, Step, Takes, Frees, GoodProgram, StaysClear, Spares, Behind, OnList, Intact, Wft, Enabled;
    WeakStepIff(s, e);
    SparesIff(s, e, a);
    if !Frees(s, e) && Behind(s.v.free, Takes(e), a) {
      StepKeepsArray(s, e, a);
    }
  }

  /** As long as the array is on the list and behind what the step may take, the step ends as the model says: it
      never links a ring, and stops the kernel exactly for a program without room or an unreadable string. */
  lemma StepEnds(s: State, e: Event, a: set<nat>)
    requires Weak(s) && Wft(s) && Enabled(s, e) && GoodProgram(e) && StaysClear(e)
    requires OnList(s.v, a) && Behind(s.v.free, Takes(e), a)
    ensures !Step(s, e).Cyclic? && (Step(s, e).Panic? <==> Stops(s, e))
    ensures Step(s, e).Ok? && !Frees(s, e) ==> Weak(Step(s, e).value) && Intact(s.v, Step(s, e).value.v, a)
  {
    hide Weak, Step, Takes, Stops, Frees, Behind, OnList, Intact, Wft, Enabled, GoodProgram, StaysClear;
    WeakStepEnds(s, e);
    if Step(s, e).Ok? && !Frees(s, e) {
      StepIff(s, e, a);
    }
  }

  /** For a program that leaves the stack's page to the stack, the frames taken are exactly those that are off
      the list afterwards. */
  lemma GoneIff(s: State, e: Event, k: nat)
    requires Weak(s) && Wft(s) && Enabled(s, e) && GoodProgram(e) && StaysClear(e) && !Frees(s, e) && Step(s, e).Ok?
    requires (e.DoRunTask? ==> STACK_PAGE !in PagesFrom(e.elf, 0)) && k < |s.v.free|
    ensures s.v.free[k] in Step(s, e).value.v.free <==> k >= Takes(e)
  {
    hide Weak, Step, Frees, GoodProgram, StaysClear, PagesFrom, FramesFor, ImagePages, Takes, Loses, TailKept, Wft,
        Enabled;
    ListStep(s, e);
    AllGone(e);
    WellFormedAfter(s, e);
    PrefixGone(s.v, Step(s, e).value.v, Takes(e), k);
  }

  lemma AllGone(e: Event)
    requires e.DoRunTask? ==> STACK_PAGE !in PagesFrom(e.elf, 0)
    ensures Takes(e) == Loses(e)
  {
    hide PagesFrom, FramesFor, ImagePages;
  }

  lemma PrefixGone(v: Vm, v': Vm, n: nat, k: nat)
    requires Wf(v) && n <= |v.free| && |v'.free| == |v.free| - n && TailKept(v, v', |v.free| - n) && k < |v.free|
    ensures v.free[k] in v'.free <==> k >= n
  {
    assert v'.free == v.free[n..];
    if k >= n {
      assert v.free[n..][k - n] == v.free[k];
    }
  }

  /**
   A step that crosses: if a frame of the array is first on the list, the next runtask makes a directory of
   it, which holds the stale entry, and which is never free again.
   */
  lemma FirstIsOverwritten(s: State, elf: Elf, rand: Word)
    requires Weak(s) && Wft(s) && Enabled(s, DoRunTask(elf, rand)) && WellFormed(elf) && AvoidsStale(elf)
    requires Step(s, DoRunTask(elf, rand)).Ok?
    ensures s.v.free != [] && s.v.free[0] < |s.v.page| && s.kd < |s.v.page|
    ensures var v' := Step(s, DoRunTask(elf, rand)).value.v;
            && |v'.page| == |s.v.page| && s.v.free[0] !in v'.free
              && v'.page[s.v.free[0]][STALEX] == s.v.page[s.kd][STALEX]
            && Present(v'.page[s.v.free[0]][STALEX])
  {
    hide WeakWith, Create, RunTask, Wft, WellFormed, AvoidsStale, Marked, MarksKept;
    var dirs, role, t :| WeakWith(s, dirs, role, t);
    assert Complete(elf) by { GoodElf(elf); }
    var s1, i := Create(s, elf, rand).value.0, Create(s, elf, rand).value.1.task;
    var f1, f2, v2 := CreateLifts(s, dirs, role, t, elf, rand, s1, i);
    RunMemory(s1, i);
    ShapeAfter(s, elf, rand);
    WeakMarked(s, dirs, role, t);
    MarksAt(s.v, dirs, role, s.kd, t);
    MarkedFirst(v2, dirs + {f1} + {f2}, role[f1 := Lost][f2 := Dir(i)], s.kd, t, f1, s1.v);
    WeakRole(s, dirs, role, t);
    FirstIsGone(LiftState(s, dirs), role, elf, rand, LiftState(s1, dirs + {f1} + {f2}), i);
  }

  lemma ShapeAfter(s: State, elf: Elf, rand: Word)
    requires Wft(s) && Complete(elf) && Create(s, elf, rand).Ok?
    ensures |Create(s, elf, rand).value.0.v.page| == |s.v.page|
  {
    hide SetupMemory, LoadElf;
  }

  lemma MarksAt(v: Vm, dirs: set<nat>, role: seq<Role>, kd: nat, t: nat)
    requires Marked(v, dirs, role, kd, t)
    ensures kd < |v.page| && t < 0x10_0000 && v.page[kd][STALEX] == StaleEntry(t)
  {
  }

  lemma MarkedFirst(v2: Vm, ds: set<nat>, role: seq<Role>, kd: nat, t: nat, f1: nat, v': Vm)
    requires Marked(v2, ds, role, kd, t) && MarksKept(v2, v', ds) && f1 in ds
    ensures t < 0x10_0000 && f1 < |v'.page| && v'.page[f1][STALEX] == StaleEntry(t) && Present(StaleEntry(t))
  {
  }

  /** The first directory of create is lost. */
  lemma FirstIsGone(u: State, role: seq<Role>, elf: Elf, rand: Word, u1: State, i: nat)
    requires KInv(u, role) && WellFormed(elf) && Complete(elf) && Wft(u) && Create(u, elf, rand) == Ok((u1, Created(i)))
    ensures u.v.free != [] && u.v.free[0] !in u1.v.free
  {
    hide KInv, Create, RunTask, Wft, WellFormed, Complete, FinalByte;
    var role', f1 := RunTaskKeeps(u, role, elf, rand);
    RunMemory(u1, i);
    LostNotFree(u.v, role, u.kd, u1.v, role', f1, RunTask(u1, i).tasks[i].dir, i, elf);
  }

  lemma LostNotFree(v: Vm, role: seq<Role>, kd: nat, v': Vm, role': seq<Role>, f1: nat, f2: nat, i: nat, elf: Elf)
    requires Complete(elf) && Built(v, role, kd, v', role', f1, f2, i, elf)
    ensures f1 !in v'.free
  {
    hide SameWalks, SameContents, FinalByte, Read, RegionSteps.OwnPages;
  }

  // Runs

  /** The frames that a run takes at its worst moment. */
  function RunTakes(es: seq<Event>): nat
    decreases |es|
  {
    if es == [] then 0
    else
      var later := Loses(es[0]) + RunTakes(es[1..]);
      if Takes(es[0]) > later then Takes(es[0]) else later
  }

  /** No step of the run takes one of the given frames. */
  ghost predicate SparedRun(s: State, es: seq<Event>, a: set<nat>)
    decreases |es|
  {
    es != [] && Wft(s) && Enabled(s, es[0]) && Step(s, es[0]).Ok? ==>
      Spares(s, es[0], a) && SparedRun(Step(s, es[0]).value, es[1..], a)
  }

  lemma UnfoldRuns(s: State, es: seq<Event>, s': State, a: set<nat>)
    requires es != [] && WeakRun(s, es, s')
    ensures Wft(s) && Enabled(s, es[0]) && GoodProgram(es[0]) && StaysClear(es[0]) && !Frees(s, es[0])
        && Step(s, es[0]).Ok?
    ensures WeakRun(Step(s, es[0]).value, es[1..], s')
    ensures SparedRun(s, es, a) <==> Spares(s, es[0], a) && SparedRun(Step(s, es[0]).value, es[1..], a)
    ensures RunTakes(es) == if Takes(es[0]) > Loses(es[0]) + RunTakes(es[1..]) then Takes(es[0])
              else Loses(es[0]) + RunTakes(es[1..])
  {
    hide Step, Spares, Enabled, GoodProgram, StaysClear, Frees, Takes, Loses, Wft;
  }

  /** How the place of the array moves forward on the list. */
  lemma BehindMoves(v: Vm, v': Vm, m: nat, takes: nat, loses: nat, n: nat, a: set<nat>)
    requires Wf(v') && OnList(v, a) && TailKept(v, v', m) && takes <= |v.free| && m == |v.free| - takes
        && loses <= takes
    requires |v'.free| == |v.free| - loses && Behind(v.free, takes, a)
    ensures Behind(v'.free, n, a) <==> Behind(v.free, if takes > loses + n then takes else loses + n, a)
  {
    hide OnList, TailKept, Behind, Wf;
    forall i: nat | i < |v'.free| && i < n
      ensures v'.free[i] in a <==> loses + i >= takes && v.free[loses + i] in a
    {
      PlaceMoves(v, v', m, takes, loses, i, a);
    }
    BehindBy(v.free, v'.free, takes, loses, n, a);
  }

  lemma PlaceMoves(v: Vm, v': Vm, m: nat, takes: nat, loses: nat, i: nat, a: set<nat>)
    requires Wf(v') && OnList(v, a) && TailKept(v, v', m) && takes <= |v.free| && m == |v.free| - takes
        && loses <= takes
    requires |v'.free| == |v.free| - loses && Behind(v.free, takes, a) && i < |v'.free|
    ensures v'.free[i] in a <==> loses + i >= takes && v.free[loses + i] in a
  {
    var s, t := v.free[|v.free| - m..], v'.free[|v'.free| - m..];
    if loses + i >= takes {
      assert t[i - (takes - loses)] == v'.free[i] && s[i - (takes - loses)] == v.free[loses + i];
    } else {
      forall f | f in a
        ensures f != v'.free[i]
      {
        var j :| 0 <= j < |v.free| && v.free[j] == f;
        assert s[j - takes] == f && t[j - takes] == v'.free[j - loses] && j - loses != i;
      }
    }
  }

  lemma BehindBy(s: seq<nat>, t: seq<nat>, takes: nat, loses: nat, n: nat, a: set<nat>)
    requires loses <= takes && loses <= |s| && |t| == |s| - loses && Behind(s, takes, a)
    requires forall i: nat :: i < |t| && i < n ==> (t[i] in a <==> loses + i >= takes && s[loses + i] in a)
    ensures Behind(t, n, a) <==> Behind(s, if takes > loses + n then takes else loses + n, a)
  {
    if Behind(t, n, a) {
      forall j | 0 <= j < (if takes > loses + n then takes else loses + n) && j < |s|
        ensures s[j] !in a
      {
        if j >= takes {
          assert t[j - loses] !in a;
        }
      }
    }
  }

  /** Behind many frames is behind few. */
  lemma BehindFewer(s: seq<nat>, n: nat, m: nat, a: set<nat>)
    requires Behind(s, n, a) && m <= n
    ensures Behind(s, m, a)
  {
  }

  lemma IntactTrans(v: Vm, v1: Vm, v2: Vm, a: set<nat>)
    requires Intact(v, v1, a) && Intact(v1, v2, a)
    ensures Intact(v, v2, a)
  {
  }

  lemma IntactListed(v: Vm, v1: Vm, a: set<nat>)
    requires Intact(v, v1, a)
    ensures OnList(v1, a)
  {
  }

  /**
   Runs after the real boot. In a run in which no task is freed the frames of the Task array stay on the list
   and are not written, and the run follows the model, if and only if the array lies behind as many frames of the
   list as RunTakes says. Such a run ends weakly safe.
   */
  lemma {:induction false} RunsIff(s: State, es: seq<Event>, s': State, a: set<nat>)
    requires Weak(s) && Wf(s.v) && WeakRun(s, es, s') && OnList(s.v, a)
    ensures SparedRun(s, es, a) <==> Behind(s.v.free, RunTakes(es), a)
    ensures Weak(s') && (SparedRun(s, es, a) ==> Intact(s.v, s'.v, a))
    decreases |es|
  {
    hide Weak, WeakRun, Spares, Step, RunTakes, Takes, Loses, Enabled, GoodProgram, StaysClear, Frees, OnList,
        Intact, Behind,
        Wft, Wf, TailKept, SparedRun;
    if es == [] {
      NoEvents(s, es, s', a);
    } else {
      UnfoldRuns(s, es, s', a);
      var e, s1 := es[0], Step(s, es[0]).value;
      var r := WeakStep(s, e);
      SparesIff(s, e, a);
      WellFormedAfter(s, e);
      if Behind(s.v.free, Takes(e), a) {
        ListStep(s, e);
        StepKeepsArray(s, e, a);
        IntactListed(s.v, s1.v, a);
        RunsIff(s1, es[1..], s', a);
        BehindMoves(s.v, s1.v, |s.v.free| - Takes(e), Takes(e), Loses(e), RunTakes(es[1..]), a);
        if SparedRun(s, es, a) {
          IntactTrans(s.v, s1.v, s'.v, a);
        }
      } else {
        WeakAtEnd(s1, es[1..], s');
        if Behind(s.v.free, RunTakes(es), a) {
          BehindFewer(s.v.free, RunTakes(es), Takes(e), a);
        }
      }
    }
  }

  lemma NoEvents(s: State, es: seq<Event>, s': State, a: set<nat>)
    requires es == [] && WeakRun(s, es, s') && Wf(s.v) && OnList(s.v, a)
    ensures s' == s && SparedRun(s, es, a) && Behind(s.v.free, RunTakes(es), a) && Intact(s.v, s'.v, a)
  {
  }

  lemma WellFormedAfter(s: State, e: Event)
    requires Wft(s) && Enabled(s, e) && Step(s, e).Ok?
    ensures Wf(Step(s, e).value.v) && Wf(s.v)
  {
    hide Step, Enabled;
  }

  /** In the model, every such run ends weakly safe. */
  lemma {:induction false} WeakAtEnd(s: State, es: seq<Event>, s': State)
    requires Weak(s) && WeakRun(s, es, s')
    ensures Weak(s')
    decreases |es|
  {
    hide Weak, Step;
    if es != [] {
      var r := WeakStep(s, es[0]);
      WeakAtEnd(r.value, es[1..], s');
    }
  }

  // From the list that boot leaves

  /** The list that boot leaves without its first j frames; mmioMap takes one for its page table
      (kernel/mp.cc:247). */
  function ListLess(nextFree: nat, nPages: nat, j: nat): (s: seq<nat>)
    requires nextFree <= 890 && 1024 <= nPages && j <= 1
  {
    BootList(nextFree, nPages)[j..]
  }

  lemma BootBehind(nextFree: nat, n: nat, nPages: nat, j: nat, m: nat)
    requires n > 0 && nextFree + n <= 890 && 1024 <= nPages && j <= 1
    ensures Behind(ListLess(nextFree, nPages, j), m, ArrayFrames(nextFree, n)) <==> j + m <= 892 - (nextFree + n)
    ensures forall f :: f in ArrayFrames(nextFree, n) ==> f in ListLess(nextFree, nPages, j)
  {
    var s, t := BootList(nextFree, nPages), ListLess(nextFree, nPages, j);
    ArrayPlace(nextFree, n, nPages);
    assert !InArray(nextFree, n, s[0]);
    hide BootList, InArray;
    assert s == s[..j] + t;
    assert forall i :: 0 <= i < |t| ==> t[i] == s[i + j];
  }

  /**
   From the state in which boot leaves the kernel, with n frames of tasks behind frame nextFree - 1 and j page
   tables for devices: a run in which no task is freed follows the model if and only if it takes at most
   892 - (nextFree + n) - j frames.
   */
  lemma BootRunsIff(s: State, es: seq<Event>, s': State, nextFree: nat, n: nat, nPages: nat, j: nat)
    requires Weak(s) && Wf(s.v) && WeakRun(s, es, s')
    requires n > 0 && nextFree + n <= 890 && 1024 <= nPages && j <= 1 && s.v.free == ListLess(nextFree, nPages, j)
    ensures SparedRun(s, es, ArrayFrames(nextFree, n)) <==> RunTakes(es) <= 892 - (nextFree + n) - j
    ensures Weak(s') && (SparedRun(s, es, ArrayFrames(nextFree, n)) ==> Intact(s.v, s'.v, ArrayFrames(nextFree, n)))
  {
    hide Weak, WeakRun, SparedRun, RunTakes, Intact, Behind, ListLess, ArrayFrames, Wf;
    BootBehind(nextFree, n, nPages, j, RunTakes(es));
    RunsIff(s, es, s', ArrayFrames(nextFree, n));
  }

  /** If the array ends at frame 888 or 889, the first task already takes a frame of it, whatever its program. */
  lemma FirstTaskCrosses(s: State, elf: Elf, rand: Word, nextFree: nat, n: nat, nPages: nat, j: nat)
    requires Weak(s) && Wft(s) && Enabled(s, DoRunTask(elf, rand)) && WellFormed(elf) && AvoidsStale(elf)
    requires Step(s, DoRunTask(elf, rand)).Ok?
    requires n > 0 && 889 <= nextFree + n <= 890 && 1024 <= nPages
    requires j <= 1 && s.v.free == ListLess(nextFree, nPages, j)
    ensures !Spares(s, DoRunTask(elf, rand), ArrayFrames(nextFree, n))
  {
    hide Weak, Wft, Step, WellFormed, AvoidsStale, ListLess, ArrayFrames, Behind, Spares, Enabled;
    BootBehind(nextFree, n, nPages, j, Takes(DoRunTask(elf, rand)));
    SparesIff(s, DoRunTask(elf, rand), ArrayFrames(nextFree, n));
    AtLeastFour(elf);
  }

  lemma AtLeastFour(elf: Elf)
    ensures CreateFrames(elf) >= 4
  {
    var m := ImagePages(elf);
    assert STACK_PAGE in m && STACK_PAGE / 1024 in TablesOf(m);
    OwnershipSteps.SubsetSize({STACK_PAGE}, m);
    OwnershipSteps.SubsetSize({STACK_PAGE / 1024}, TablesOf(m));
  }

  /** A program that is run again and again, each time up to a breakpoint. */
  function Rounds(elf: Elf, rand: Word, f: Tasks.Frame, m: nat): (es: seq<Event>)
    decreases m
  {
    if m == 0 then [] else [DoRunTask(elf, rand), DoTrap(f, Break)] + Rounds(elf, rand, f, m - 1)
  }

  /** With a program that needs c frames and leaves the stack's page alone, m rounds take m * c frames: with six
      frames a round and a Task array from frame 400 to frame 407, the 81st round is the first to go wrong. */
  lemma {:induction false} RoundsTake(elf: Elf, rand: Word, f: Tasks.Frame, m: nat)
    requires STACK_PAGE !in PagesFrom(elf, 0)
    ensures RunTakes(Rounds(elf, rand, f, m)) == m * CreateFrames(elf)
    decreases m
  {
    hide CreateFrames, RunTakes, FramesFor, ImagePages, PagesFrom, Takes, Loses;
    if m == 0 {
      NothingToRun();
    } else {
      var e, later := DoRunTask(elf, rand), Rounds(elf, rand, f, m - 1);
      RoundsTake(elf, rand, f, m - 1);
      AllGone(e);
      NothingTaken(DoTrap(f, Break));
      RunTakesMore(DoTrap(f, Break), later);
      RunTakesMore(e, [DoTrap(f, Break)] + later);
      assert [e] + ([DoTrap(f, Break)] + later) == Rounds(elf, rand, f, m);
      assert m * CreateFrames(elf) == CreateFrames(elf) + (m - 1) * CreateFrames(elf);
      TakesOf(elf, rand);
    }
  }

  lemma NothingToRun()
    ensures RunTakes([]) == 0
  {
  }

  lemma TakesOf(elf: Elf, rand: Word)
    ensures Takes(DoRunTask(elf, rand)) == CreateFrames(elf)
  {
  }

  lemma RunTakesMore(e: Event, es: seq<Event>)
    ensures RunTakes([e] + es) == if Takes(e) > Loses(e) + RunTakes(es) then Takes(e) else Loses(e) + RunTakes(es)
  {
    hide Takes, Loses;
    assert ([e] + es)[1..] == es;
  }
}
