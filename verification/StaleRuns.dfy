/**
 Runs of the kernel as it really boots: with the entry for 0x80000000 that the self-test leaves in
 the kernel's directory. Such a state is not safe, but until a task is freed it stays as it is.
 */
module StaleRuns {
  import opened Wrappers
  import opened Mmu
  import opened PageTables
  import opened Ownership
  import opened OwnershipSteps
  import opened Isolation
  import opened AddressSpaces
  import opened Regions
  import opened ElfLoader
  import opened UserMemory
  import opened Tasks
  import opened TaskInvariant
  import opened RunSafety
  import opened StaleEntries
  import opened StaleMemory
  import UserCheck

  /** The kernel state with the stale entry cleared in the given directories. */
  function LiftState(s: State, dirs: set<nat>): State {
    SetMemory(s, Lift(s.v, dirs))
  }

  /** The invariant would hold if the entry for 0x80000000 were cleared in the marked directories. */
  ghost predicate WeakWith(s: State, dirs: set<nat>, role: seq<Role>, t: nat) {
    KInv(LiftState(s, dirs), role) && Marked(s.v, dirs, role, s.kd, t)
  }

  ghost predicate Weak(s: State) {
    exists dirs: set<nat>, role: seq<Role>, t: nat :: WeakWith(s, dirs, role, t)
  }

  /** A state whose kernel directory has an entry below UTOP is not safe. */
  lemma StaleIsNotSafe(s: State, x: nat)
    requires s.kd < |s.v.page| && Stale(s.v, s.kd, x)
    ensures !Safe(s)
  {
    forall role | KInv(s, role)
      ensures false
    {
      NothingBelow(s.v, role, s.kd, x);
    }
  }

  lemma NothingBelow(v: Vm, role: seq<Role>, kd: nat, x: nat)
    requires Inv(v, role, kd) && x < UTOPX
    ensures !Present(v.page[kd][x])
  {
  }

  /** A weakly safe state is exactly not safe: it has the stale entry. */
  lemma WeakIsStale(s: State)
    requires Weak(s)
    ensures s.kd < |s.v.page| && Stale(s.v, s.kd, STALEX) && !Safe(s)
  {
    var dirs, role, t :| WeakWith(s, dirs, role, t);
    hide KInv;
    assert s.v.page[s.kd][STALEX] == StaleEntry(t);
    StaleIsNotSafe(s, STALEX);
  }

  /** The event frees the task that runs. */
  ghost predicate Frees(s: State, e: Event)
    requires Wft(s)
  {
    e.DoTrap? && s.current.Some? &&
    (|| e.trap.Exit? || e.trap.PageFault?
     || (e.trap.PutString? && UserCheck.Check(s.v, s.tasks[s.current.value].dir, e.trap.va, e.trap.count, PTE_U)
       == Ok(false)))
  }

  /** Programs stay clear of the window of the stale entry. */
  ghost predicate StaysClear(e: Event) {
    e.DoRunTask? ==> AvoidsStale(e.elf)
  }

  lemma WeakShape(s: State, dirs: set<nat>, role: seq<Role>, t: nat)
    requires WeakWith(s, dirs, role, t)
    ensures Wft(s) && Wft(LiftState(s, dirs)) && |role| == |s.v.page| && Inv(Lift(s.v, dirs), role, s.kd)
  {
  }

  /** Events that leave memory alone only move between the task and the monitor. */
  lemma WeakMoves(s: State, dirs: set<nat>, role: seq<Role>, t: nat, s': State)
    requires WeakWith(s, dirs, role, t) && s'.v == s.v && s'.kd == s.kd && KInv(LiftState(s', dirs), role)
    ensures WeakWith(s', dirs, role, t)
  {
  }

  lemma WeakTrap(s: State, dirs: set<nat>, role: seq<Role>, t: nat, f: Frame, tr: Trap)
    requires WeakWith(s, dirs, role, t) && s.ctl.User?
    ensures Wft(s)
    ensures !Frees(s, DoTrap(f, tr)) && HandleTrap(s, f, tr).Ok? ==> WeakWith(HandleTrap(s, f, tr).value, dirs, role, t)
  {
    hide KInv, Marked, UserCheck.Check, Readable, Lift, Inv, Destroy, Wft;
    WeakShape(s, dirs, role, t);
    var u := LiftState(s, dirs);
    UserModeDir(u, role);
    var i := s.current.value;
    CurrentInRange(u, role);
    var r := HandleTrap(s, f, tr);
    SaveFrameKeeps(u, role, i, f);
    var u1 := SaveFrame(u, i, f);
    assert LiftState(SaveFrame(s, i, f), dirs) == u1;
    if !Frees(s, DoTrap(f, tr)) && r.Ok? {
      match tr {
        case Syscall(eax) =>
          RunsAgain(u1, role, i, Frame(f.eip, f.esp, eax, f.trapFlag));
          RunLifts(SaveFrame(SaveFrame(s, i, f), i, Frame(f.eip, f.esp, eax, f.trapFlag)), dirs, i);
          WeakMoves(s, dirs, role, t, r.value);
        case PutString(va, count) =>
          RunsAgain(u1, role, i, Frame(f.eip, f.esp, 0, f.trapFlag));
          RunLifts(SaveFrame(SaveFrame(s, i, f), i, Frame(f.eip, f.esp, 0, f.trapFlag)), dirs, i);
          WeakMoves(s, dirs, role, t, r.value);
        case Break =>
          BreakKeeps(u1, role, i);
          WeakMoves(s, dirs, role, t, r.value);
        case Exit =>
        case PageFault =>
      }
    }
  }

  lemma CurrentInRange(s: State, role: seq<Role>)
    requires KInv(s, role) && s.current.Some?
    ensures s.current.value < MAX_TASKS == |s.tasks|
  {
  }

  lemma RunsAgain(s: State, role: seq<Role>, i: nat, f: Frame)
    requires KInv(s, role) && s.current == Some(i) && i < MAX_TASKS
    ensures Wft(SaveFrame(s, i, f)) && KInv(RunTask(SaveFrame(s, i, f), i), role)
  {
    SaveFrameKeeps(s, role, i, f);
    RunCurrentKeeps(SaveFrame(s, i, f), role, i);
  }

  lemma RunLifts(s: State, dirs: set<nat>, i: nat)
    requires Wft(s) && i < MAX_TASKS
    ensures Wft(LiftState(s, dirs)) && RunTask(LiftState(s, dirs), i) == LiftState(RunTask(s, i), dirs)
    ensures RunTask(s, i).v == s.v && RunTask(s, i).kd == s.kd && |RunTask(s, i).tasks| == |s.tasks| == MAX_TASKS
    ensures RunTask(s, i).tasks[i].dir == s.tasks[i].dir
  {
  }

  // Creating and running a task

  /** alloc does not look at directory entries. */
  lemma AllocForms(s: State, dirs: set<nat>, rand: Word, s1: State, i: nat, v1: Vm, f1: nat)
    requires Wft(s) && Wft(LiftState(s, dirs)) && Alloc(s, 0, rand) == (s1, Created(i))
        && SetupMemory(s.v, s.kd) == (v1, Some(f1))
    requires SetupMemory(Lift(s.v, dirs), s.kd) == (Lift(v1, dirs + {f1}), Some(f1))
    ensures i < MAX_TASKS && s1.v == v1 && s1.kd == s.kd
    ensures Alloc(LiftState(s, dirs), 0, rand) == (LiftState(s1, dirs + {f1}), Created(i))
  {
    hide SetupMemory, Lift;
  }

  ghost predicate CreatedLifted(s: State, dirs: set<nat>, role: seq<Role>, t: nat, elf: Elf, rand: Word, s1: State,
      i: nat,
                                f1: nat, f2: nat, v2: Vm)
  {
    var ds := dirs + {f1} + {f2};
    && s.v.free != [] && f1 == s.v.free[0] && f1 < |role| && f2 < |role| && f1 != f2 && i < MAX_TASKS == |s1.tasks|
    && Complete(elf) && Wft(LiftState(s, dirs)) && Create(LiftState(s, dirs), elf, rand)
      == Ok((LiftState(s1, ds), Created(i)))
    && s1.tasks[i].dir == f2 && s1.kd == s.kd && Wft(s1)
    && MarksKept(v2, s1.v, ds) && Marked(v2, ds, role[f1 := Lost][f2 := Dir(i)], s.kd, t)
  }

  /** create on the cleared memory is create, with the two new directories cleared as well. */
  lemma CreateLifts(s: State, dirs: set<nat>, role: seq<Role>, t: nat, elf: Elf, rand: Word, s1: State, i: nat)
    returns (f1: nat, f2: nat, v2: Vm)
    requires WeakWith(s, dirs, role, t) && WellFormed(elf) && AvoidsStale(elf) && Wft(s)
        && Create(s, elf, rand) == Ok((s1, Created(i)))
    ensures CreatedLifted(s, dirs, role, t, elf, rand, s1, i, f1, f2, v2)
  {
    hide KInv, Marked, Lift, SetupMemory, LoadElf, Inv, Create, MarksKept, AvoidsStale;
    WeakShape(s, dirs, role, t);
    WeakMarked(s, dirs, role, t);
    var a := CreateNeeds(s, elf, rand, s1, i);
    var v1, q;
    v1, f1, q, f2 := BuildLifts(s.v, dirs, role, s.kd, t, i, elf);
    v2 := SetupMemory(v1, s.kd).0;
    var ds := dirs + {f1} + {f2};
    AllocForms(s, dirs, rand, a, i, v1, f1);
    CreateEnds(s, elf, rand, a, i, v1, f1, v2, f2, s1);
    CreateForm(s, elf, rand, a, i, v1, f1, v2, f2, q.value);
    CreateForm(LiftState(s, dirs), elf, rand, LiftState(a, dirs + {f1}), i, Lift(v1, dirs + {f1}), f1, Lift(v2, ds),
      f2, Lift(q.value, ds));
  }

  lemma WeakMarked(s: State, dirs: set<nat>, role: seq<Role>, t: nat)
    requires WeakWith(s, dirs, role, t)
    ensures Marked(s.v, dirs, role, s.kd, t)
  {
  }

  /** A successful create found a slot and two frames. */
  lemma CreateNeeds(s: State, elf: Elf, rand: Word, s1: State, i: nat) returns (a: State)
    requires Wft(s) && Complete(elf) && Create(s, elf, rand) == Ok((s1, Created(i)))
    ensures |s.v.free| >= 2 && Alloc(s, 0, rand) == (a, Created(i))
  {
    a := Alloc(s, 0, rand).0;
    hide LoadElf;
  }

  lemma CreateEnds(s: State, elf: Elf, rand: Word, a: State, i: nat, v1: Vm, f1: nat, v2: Vm, f2: nat, s1: State)
    requires Wft(s) && Complete(elf) && Create(s, elf, rand) == Ok((s1, Created(i)))
        && Alloc(s, 0, rand) == (a, Created(i))
    requires a.v == v1 && a.kd == s.kd && SetupMemory(v1, s.kd) == (v2, Some(f2))
    ensures Wf(v2) && f2 < |v2.page| && LoadElf(v2, f2, elf).Ok?
  {
    hide LoadElf, SetupMemory;
  }

  lemma WeakCreate(s: State, dirs: set<nat>, role: seq<Role>, t: nat, elf: Elf, rand: Word, s1: State, i: nat)
    returns (ds: set<nat>, role': seq<Role>)
    requires WeakWith(s, dirs, role, t) && WellFormed(elf) && AvoidsStale(elf) && Wft(s)
        && Create(s, elf, rand) == Ok((s1, Created(i)))
    ensures Wft(s1) && i < MAX_TASKS && WeakWith(RunTask(s1, i), ds, role', t)
  {
    hide KInv, Marked, Lift, Inv, Create, MarksKept, AvoidsStale, RunTask, Built;
    var f1, f2, v2 := CreateLifts(s, dirs, role, t, elf, rand, s1, i);
    ds := dirs + {f1} + {f2};
    WeakMarked(s, dirs, role, t);
    WeakRole(s, dirs, role, t);
    var g;
    role', g := RunTaskKeeps(LiftState(s, dirs), role, elf, rand);
    RunLifts(s1, ds, i);
    BuiltMarks(s.v, dirs, role, s.kd, t, v2, ds, s1.v, role', f1, f2, i, elf);
    WeakIs(RunTask(s1, i), ds, role', t);
  }

  lemma WeakRole(s: State, dirs: set<nat>, role: seq<Role>, t: nat)
    requires WeakWith(s, dirs, role, t)
    ensures KInv(LiftState(s, dirs), role) && Lift(s.v, dirs).free == s.v.free
  {
  }

  lemma WeakIs(s: State, dirs: set<nat>, role: seq<Role>, t: nat)
    requires KInv(LiftState(s, dirs), role) && Marked(s.v, dirs, role, s.kd, t)
    ensures WeakWith(s, dirs, role, t)
  {
  }

  lemma BuiltMarks(v: Vm, dirs: set<nat>, role: seq<Role>, kd: nat, t: nat, v2: Vm, ds: set<nat>, v': Vm,
      role': seq<Role>,
                   f1: nat, f2: nat, i: nat, elf: Elf)
    requires Complete(elf) && Marked(v, dirs, role, kd, t) && f1 < |role| && f2 < |role| && ds == dirs + {f1} + {f2}
    requires Marked(v2, ds, role[f1 := Lost][f2 := Dir(i)], kd, t) && MarksKept(v2, v', ds)
    requires |v'.page| == |role| && Built(Lift(v, dirs), role, kd, Lift(v', ds), role', f1, f2, i, elf)
    ensures Marked(v', ds, role', kd, t)
  {
    hide OwnSpace, SameWalks, Read, FinalByte;
    assert Lift(v', ds).page[t] == Lift(v, dirs).page[t];
  }

  // Runs until a task is freed

  /** A step that frees no task keeps a weakly safe state weakly safe. */
  lemma WeakStep(s: State, e: Event) returns (r: Res<State>)
    requires Weak(s) && Wft(s) && Enabled(s, e) && GoodProgram(e) && StaysClear(e) && !Frees(s, e)
    ensures Step(s, e) == r && (r.Ok? ==> Weak(r.value))
  {
    hide Step, WeakWith, Frees, Wft;
    var dirs, role, t :| WeakWith(s, dirs, role, t);
    r := Step(s, e);
    WeakStepWith(s, dirs, role, t, e);
  }

  lemma WeakStepWith(s: State, dirs: set<nat>, role: seq<Role>, t: nat, e: Event)
    requires WeakWith(s, dirs, role, t) && Wft(s) && Enabled(s, e) && GoodProgram(e) && StaysClear(e) && !Frees(s, e)
    ensures Step(s, e).Ok? ==> Weak(Step(s, e).value)
  {
    hide Create, HandleTrap, RunTask, Resume, WeakWith, Weak, Frees, AvoidsStale, Wft, WellFormed;
    hide UserStore, UserStores.UserCanWrite;
    if Step(s, e).Ok? {
      match e {
        case DoRunTask(elf, rand) =>
          WeakRunTask(s, dirs, role, t, elf, rand);
        case DoCont =>
          WeakResume(s, dirs, role, t, false);
        case DoSi =>
          WeakResume(s, dirs, role, t, true);
        case DoTrap(f, tr) =>
          WeakAfterTrap(s, dirs, role, t, f, tr);
        case DoStore(va, b) =>
          WeakAfterStore(s, dirs, role, t, va, b);
      }
    }
  }

  lemma WeakAfterStore(s: State, dirs: set<nat>, role: seq<Role>, t: nat, va: Word, b: Byte)
    requires WeakWith(s, dirs, role, t) && Wft(s) && Enabled(s, DoStore(va, b))
    ensures UserStore(s, va, b).Ok? && Weak(UserStore(s, va, b).value)
  {
    hide WeakWith, UserStore, UserStores.UserCanWrite;
    WeakStore(s, dirs, role, t, va, b);
  }

  /** A program's stores stay out of the marks: they reach its data frames only. */
  lemma WeakStore(s: State, dirs: set<nat>, role: seq<Role>, t: nat, va: Word, b: Byte)
    requires WeakWith(s, dirs, role, t) && Wft(s) && Enabled(s, DoStore(va, b))
    ensures UserStore(s, va, b).Ok? && WeakWith(UserStore(s, va, b).value, dirs, role, t)
    ensures UserStore(s, va, b).value.v.free == s.v.free
  {
    hide KInv, Inv, Marked, Lift, StoreByte, UserStores.UserCanWrite, Isolated, UserStores.Guarded, Read, Wft,
        MarksKept;
    var u := LiftState(s, dirs);
    WeakParts(s, dirs, role, t);
    CanWriteLifts(s.v, dirs, role, s.kd, t, s.cr3, va);
    var v' := UserStores.UserStoreSteps(Lift(s.v, dirs), role, s.kd, s.cr3, va, b);
    StoreByteLifts(s.v, dirs, role, s.kd, t, s.cr3, va, b);
    var v1 := StoreByte(s.v, s.cr3, va, b).value;
    MarkedKeeps(s.v, dirs, role, s.kd, t, v1, role, s.cr3);
    UserStoreKeeps(u, role, va, b);
    assert UserStore(u, va, b) == Ok(LiftState(SetMemory(s, v1), dirs));
  }

  /** The parts of a weakly safe state whose task runs. */
  lemma WeakParts(s: State, dirs: set<nat>, role: seq<Role>, t: nat)
    requires WeakWith(s, dirs, role, t) && s.ctl.User?
    ensures KInv(LiftState(s, dirs), role) && Marked(s.v, dirs, role, s.kd, t) && |role| == |s.v.page|
    ensures Inv(Lift(s.v, dirs), role, s.kd) && UserStores.Guarded(Lift(s.v, dirs), role, s.kd)
    ensures s.cr3 < |role| && role[s.cr3].Dir? && Wft(LiftState(s, dirs))
  {
    UserModeIsSafe(LiftState(s, dirs), role);
  }

  lemma WeakAfterTrap(s: State, dirs: set<nat>, role: seq<Role>, t: nat, f: Frame, tr: Trap)
    requires WeakWith(s, dirs, role, t) && s.ctl.User? && Wft(s) && !Frees(s, DoTrap(f, tr))
    ensures HandleTrap(s, f, tr).Ok? ==> Weak(HandleTrap(s, f, tr).value)
  {
    hide HandleTrap, WeakWith, Frees;
    WeakTrap(s, dirs, role, t, f, tr);
  }

  lemma WeakRunTask(s: State, dirs: set<nat>, role: seq<Role>, t: nat, elf: Elf, rand: Word)
    requires WeakWith(s, dirs, role, t) && WellFormed(elf) && AvoidsStale(elf) && Wft(s)
    ensures var c := Create(s, elf, rand); c.Ok? && c.value.1.Created? ==> Weak(RunTask(c.value.0, c.value.1.task))
  {
    assert Complete(elf);
    hide Create, RunTask, WeakWith, AvoidsStale, WellFormed;
    var c := Create(s, elf, rand);
    if c.Ok? && c.value.1.Created? {
      var ds, role' := WeakCreate(s, dirs, role, t, elf, rand, c.value.0, c.value.1.task);
    }
  }

  lemma WeakResume(s: State, dirs: set<nat>, role: seq<Role>, t: nat, step: bool)
    requires WeakWith(s, dirs, role, t) && Wft(s) && s.ctl.Monitor?
    ensures Weak(Resume(s, step))
  {
    hide KInv, Marked, Lift;
    WeakRole(s, dirs, role, t);
    ResumeKeeps(LiftState(s, dirs), role, step);
    assert LiftState(Resume(s, step), dirs) == Resume(LiftState(s, dirs), step);
    WeakMoves(s, dirs, role, t, Resume(s, step));
    assert WeakWith(Resume(s, step), dirs, role, t);
  }

  /** A run in which no task is freed and no program uses the window. */
  ghost predicate WeakRun(s: State, es: seq<Event>, s': State)
    decreases |es|
  {
    if es == [] then s' == s
    else
      && Wft(s) && Enabled(s, es[0]) && GoodProgram(es[0]) && StaysClear(es[0]) && !Frees(s, es[0])
        && Step(s, es[0]).Ok?
      && WeakRun(Step(s, es[0]).value, es[1..], s')
  }
}
