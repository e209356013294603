/**
 The end of a run of the kernel as it really boots: the first task that is freed leaves the
 kernel's directory naming a page table that is on the free list.
 */
module StaleFree {
  import opened Wrappers
  import opened Mmu
  import opened PageTables
  import opened Ownership
  import opened AddressSpaces
  import opened ElfLoader
  import opened Tasks
  import opened TaskInvariant
  import opened RunSafety
  import opened StaleEntries
  import opened StaleMemory
  import opened StaleRuns
  import opened StaleTeardown
  import opened FrameNeeds
  import UserCheck
  import UserMemory
  import UserStores

  lemma FreeTaskDangles(s: State, i: nat, v': Vm) returns (s': State)
    requires Wft(s) && s.current == Some(i) && FreeSpace(s.v, s.tasks[i].dir) == Ok(v')
    ensures Destroy(s, i) == Ok(s') && s'.v == v' && s'.kd == s.kd
  {
    hide FreeSpace;
    s' := Destroy(s, i).value;
  }

  lemma WeakDir(s: State, dirs: set<nat>, role: seq<Role>, t: nat)
    requires WeakWith(s, dirs, role, t) && s.ctl.User?
    ensures Wft(s) && s.current.Some? && s.current.value < MAX_TASKS && |role| == |s.v.page|
    ensures s.tasks[s.current.value].dir < |role| && role[s.tasks[s.current.value].dir].Dir?
    ensures Inv(Lift(s.v, dirs), role, s.kd) && Marked(s.v, dirs, role, s.kd, t)
  {
    assert LiftState(s, dirs).tasks[s.current.value].status.Running?;
  }

  /** A state in which the named table is free is not even weakly safe. */
  lemma DanglingIsNotWeak(s: State)
    requires s.kd < |s.v.page| && Dangling(s.v, s.kd, STALEX)
    ensures !Weak(s) && !Safe(s)
  {
    forall dirs: set<nat>, role: seq<Role>, t: nat | WeakWith(s, dirs, role, t)
      ensures false
    {
      MarkNotFree(s, dirs, role, t);
    }
    StaleIsNotSafe(s, STALEX);
  }

  lemma MarkNotFree(s: State, dirs: set<nat>, role: seq<Role>, t: nat)
    requires WeakWith(s, dirs, role, t)
    ensures s.kd < |s.v.page| && !Dangling(s.v, s.kd, STALEX)
  {
    WeakShape(s, dirs, role, t);
    WeakMarked(s, dirs, role, t);
    hide WeakWith;
  }

  /**
   The first task that a really booted kernel frees leaves the kernel's directory naming a page
   table that is on the free list. The step itself succeeds.
   */
  lemma FreeDangles(s: State, e: Event) returns (s': State)
    requires Weak(s) && Wft(s) && Enabled(s, e) && Frees(s, e)
    ensures Step(s, e) == Ok(s') && s'.kd < |s'.v.page| && Dangling(s'.v, s'.kd, STALEX) && !Weak(s') && !Safe(s')
  {
    hide Weak, WeakWith, Destroy, UserCheck.Check, UserMemory.Readable, FreeSpace, Inv, Marked, Safe;
    FreeingIsDestroy(s, e);
    s' := FreedState(s, e.frame);
    DanglingIsNotWeak(s');
  }

  lemma FreedState(s: State, f: Frame) returns (s': State)
    requires Weak(s) && Wft(s) && s.ctl.User? && s.current.Some?
    ensures s.current.value < MAX_TASKS && Destroy(SaveFrame(s, s.current.value, f), s.current.value) == Ok(s')
    ensures s'.kd < |s'.v.page| && Dangling(s'.v, s'.kd, STALEX)
  {
    hide WeakWith, Destroy, FreeSpace, Inv, Marked;
    var dirs, role, t :| WeakWith(s, dirs, role, t);
    WeakDir(s, dirs, role, t);
    var i := s.current.value;
    var v' := SpaceDangles(s.v, dirs, role, s.kd, t, s.tasks[i].dir);
    s' := FreeTaskDangles(SaveFrame(s, i, f), i, v');
  }

  lemma FreeingIsDestroy(s: State, e: Event)
    requires Wft(s) && Enabled(s, e) && Frees(s, e)
    ensures Step(s, e) == Destroy(SaveFrame(s, s.current.value, e.frame), s.current.value)
  {
    hide Destroy, UserCheck.Check;
  }

  // What a step of such a run can end in

  /** In a marked directory too, no entry names memory that does not exist. */
  lemma WeakNoBadTable(v: Vm, dirs: set<nat>, role: seq<Role>, kd: nat, t: nat, d: nat, a: Word)
    requires Inv(Lift(v, dirs), role, kd) && Marked(v, dirs, role, kd, t) && d < |role| && role[d].Dir?
    ensures !UserCheck.BadTable(v, d, a)
  {
    RunSafety.NoBadTable(Lift(v, dirs), role, kd, d, a);
  }

  lemma WeakCheckReturns(s: State, va: Word, count: Word)
    requires Weak(s) && Wft(s) && s.ctl.User? && s.current.Some? && s.current.value < MAX_TASKS
    ensures UserCheck.Check(s.v, s.tasks[s.current.value].dir, va, count, PTE_U).Ok?
  {
    hide WeakWith, Inv, Marked;
    var dirs, role, t :| WeakWith(s, dirs, role, t);
    WeakDir(s, dirs, role, t);
    var d := s.tasks[s.current.value].dir;
    forall a: Word
      ensures !UserCheck.BadTable(s.v, d, a)
    {
      WeakNoBadTable(s.v, dirs, role, s.kd, t, d, a);
    }
    UserCheck.CheckFromIff(s.v, d, va, Add32(va, count), PTE_U);
  }

  lemma WeakCurrent(s: State)
    requires Weak(s) && s.ctl.User?
    ensures Wft(s) && s.current.Some? && s.current.value < MAX_TASKS && s.cr3 == s.tasks[s.current.value].dir
    ensures s.current.value !in s.free
  {
    var dirs, role, t :| WeakWith(s, dirs, role, t);
    WeakDir(s, dirs, role, t);
    assert LiftState(s, dirs).tasks[s.current.value].status.Running?;
  }

  /** A trap returns, or frees the task, unless it hands over a string that cannot be read. */
  lemma WeakTrapEnds(s: State, f: Frame, tr: Trap)
    requires Weak(s) && Wft(s) && s.ctl.User?
    ensures !HandleTrap(s, f, tr).Cyclic? && (HandleTrap(s, f, tr).Panic? <==> StringStops(s, tr))
  {
    hide Weak, Destroy, UserCheck.Check, UserMemory.Readable, Step;
    WeakCurrent(s);
    if tr.PutString? {
      WeakCheckReturns(s, tr.va, tr.count);
    }
    if Frees(s, DoTrap(f, tr)) {
      var s' := FreeDangles(s, DoTrap(f, tr));
      StepOfTrap(s, f, tr);
    } else {
      TrapWithoutFree(s, f, tr);
    }
  }

  lemma StepOfTrap(s: State, f: Frame, tr: Trap)
    requires Wft(s) && s.ctl.User?
    ensures Step(s, DoTrap(f, tr)) == HandleTrap(s, f, tr)
  {
    hide HandleTrap;
  }

  lemma TrapWithoutFree(s: State, f: Frame, tr: Trap)
    requires Wft(s) && s.current.Some? && !Frees(s, DoTrap(f, tr))
    requires tr.PutString? ==> UserCheck.Check(s.v, s.tasks[s.current.value].dir, tr.va, tr.count, PTE_U).Ok?
    ensures !HandleTrap(s, f, tr).Cyclic? && (HandleTrap(s, f, tr).Panic? <==> StringStops(s, tr))
  {
    hide Destroy, UserCheck.Check, UserMemory.Readable, Walk;
    if tr.PutString? {
      UserMemory.ReadableIff(s.v, s.cr3, tr.va, tr.count);
    }
    assert SaveFrame(s, s.current.value, f).tasks[s.current.value].dir == s.tasks[s.current.value].dir;
  }

  /** In a marked memory too, the loader needs just these frames, and takes them from the front. */
  lemma WeakLoads(v: Vm, dirs: set<nat>, role: seq<Role>, kd: nat, t: nat, elf: Elf)
    returns (v2: Vm, f2: nat, q: Res<Vm>)
    requires Inv(Lift(v, dirs), role, kd) && Marked(v, dirs, role, kd, t) && WellFormed(elf) && AvoidsStale(elf)
        && |v.free| >= 2
    ensures Wf(v) && kd < |v.page| && Complete(elf) && LoadsIff(v, kd, elf)
    ensures SetupMemory(SetupMemory(v, kd).0, kd) == (v2, Some(f2)) && q == LoadElf(v2, f2, elf) && !q.Cyclic?
    ensures q.Ok? ==> |q.value.free| == |v.free| - 2 - FramesFor(ImagePages(elf))
    ensures q.Ok? ==> TailKept(v, q.value, |v.free| - CreateFrames(elf))
  {
    hide Inv, Marked, SetupMemory, LoadElf, Lift, TailKept, CreateFrames, FramesFor, ImagePages, AvoidsStale,
        WellFormed, MarksKept;
    var v1, f1;
    v1, f1, q, f2 := BuildLifts(v, dirs, role, kd, t, 0, elf);
    v2 := SetupMemory(v1, kd).0;
    var w1, w2 := BuildNeed(Lift(v, dirs), role, kd, elf);
    if q.Ok? {
      MarksFree(v, dirs, role, kd, t);
      TailLifts(v, dirs, q.value, f1, f2, |v.free| - CreateFrames(elf));
    }
  }

  lemma MarksFree(v: Vm, dirs: set<nat>, role: seq<Role>, kd: nat, t: nat)
    requires Inv(Lift(v, dirs), role, kd) && Marked(v, dirs, role, kd, t)
    ensures Wf(v) && forall f :: f in v.free ==> f !in dirs
  {
  }

  lemma TailLifts(v: Vm, dirs: set<nat>, v': Vm, f1: nat, f2: nat, m: nat)
    requires Wf(v) && |v.free| >= 2 && f1 == v.free[0] && f2 == v.free[1] && m + 2 <= |v.free|
    requires forall f :: f in v.free ==> f !in dirs
    requires TailKept(Lift(v, dirs), Lift(v', dirs + {f1} + {f2}), m)
    ensures TailKept(v, v', m)
  {
    var s := v.free[|v.free| - m..];
    forall f | f in s && f < |v.page|
      ensures v'.page[f] == v.page[f]
    {
      var i :| 0 <= i < |s| && s[i] == f;
      assert v.free[|v.free| - m + i] == f && f in v.free && f != f1 && f != f2;
      assert Lift(v, dirs).page[f] == v.page[f] && Lift(v', dirs + {f1} + {f2}).page[f] == v'.page[f];
    }
  }

  /** create never links a ring either, and works out exactly if there is room. */
  lemma WeakCreateEnds(s: State, elf: Elf, rand: Word)
    requires Weak(s) && Wft(s) && WellFormed(elf) && AvoidsStale(elf)
    ensures Complete(elf) && !Create(s, elf, rand).Cyclic?
    ensures var c := Create(s, elf, rand); c.Ok? && c.value.1.Created? <==> CanCreate(s, elf)
  {
    hide WeakWith, Create, SetupMemory, LoadElf, AvoidsStale, Inv, Marked, Alloc, Wft, LoadsIff, CanCreate, TailKept;
    var dirs, role, t :| WeakWith(s, dirs, role, t);
    WeakShape(s, dirs, role, t);
    WeakMarked(s, dirs, role, t);
    CreateCases(s, elf, rand);
    assert Complete(elf);
    if |s.v.free| >= 2 {
      var v2, f2, q := WeakLoads(s.v, dirs, role, s.kd, t, elf);
      if Alloc(s, 0, rand).1.Created? {
        CreateWithImage(s, elf, rand, q);
      }
    } else if Alloc(s, 0, rand).1.Created? {
      AllocHasFrames(s, 0, rand);
      OneFrameLeft(s.v, s.kd);
    }
    CreatedIff(s, elf, rand);
  }

  lemma CreateWithImage(s: State, elf: Elf, rand: Word, q: Res<Vm>)
    requires Wft(s) && Complete(elf) && Alloc(s, 0, rand).1.Created? && !q.Cyclic?
    requires SetupMemory(SetupMemory(s.v, s.kd).0, s.kd).1.Some?
    requires var m := SetupMemory(SetupMemory(s.v, s.kd).0, s.kd); q == LoadElf(m.0, m.1.value, elf)
    ensures !Create(s, elf, rand).Cyclic?
  {
    hide SetupMemory, LoadElf;
  }

  lemma OneFrameLeft(v: Vm, kd: nat)
    requires Wf(v) && kd < |v.page| && |v.free| == 1
    ensures SetupMemory(SetupMemory(v, kd).0, kd).1.None?
  {
  }

  /** In a run after the real boot no step links a ring, and a step stops the kernel exactly for a program
      without room or an unreadable string. */
  lemma WeakStepEnds(s: State, e: Event)
    requires Weak(s) && Wft(s) && Enabled(s, e) && GoodProgram(e) && StaysClear(e)
    ensures !Step(s, e).Cyclic? && (Step(s, e).Panic? <==> Stops(s, e))
  {
    hide Weak, Create, HandleTrap, Resume, RunTask, AvoidsStale, WellFormed, StringStops, Wft, UserStore, CanCreate;
    hide UserStores.UserCanWrite;
    match e {
      case DoRunTask(elf, rand) =>
        WeakCreateEnds(s, elf, rand);
      case DoCont =>
      case DoSi =>
      case DoTrap(f, tr) =>
        WeakTrapEnds(s, f, tr);
      case DoStore(va, b) =>
        WeakStoreEnds(s, va, b);
    }
  }

  lemma WeakStoreEnds(s: State, va: Word, b: Byte)
    requires Weak(s) && Wft(s) && Enabled(s, DoStore(va, b))
    ensures UserStore(s, va, b).Ok?
  {
    hide WeakWith, UserStore, UserStores.UserCanWrite, Wft;
    var dirs, role, t :| WeakWith(s, dirs, role, t);
    WeakStore(s, dirs, role, t, va, b);
  }

  /** A step keeps the weakly safe states exactly when it frees no task. */
  lemma WeakStepIff(s: State, e: Event)
    requires Weak(s) && Wft(s) && Enabled(s, e) && GoodProgram(e) && StaysClear(e) && Step(s, e).Ok?
    ensures Weak(Step(s, e).value) <==> !Frees(s, e)
  {
    hide Weak, Step, Frees;
    if Frees(s, e) {
      var s' := FreeDangles(s, e);
    } else {
      var r := WeakStep(s, e);
    }
  }
}
