/**
 Safety over whole runs: every sequence of monitor commands and user traps keeps the kernel
 invariant, never links a free list into a ring, and panics only where a program is created.
 */
module RunSafety {
  import opened Wrappers
  import opened Mmu
  import opened PageTables
  import opened Ownership
  import opened Translation
  import opened OwnershipSteps
  import opened Isolation
  import opened AddressSpaces
  import opened UserMemory
  import opened RegionSteps
  import opened Regions
  import opened TaskTeardown
  import opened ElfLoader
  import opened Tasks
  import opened TaskInvariant
  import opened UserStores
  import UserCheck
  import FrameNeeds

  // Task::free and Task::destroy

  lemma FreeSlot(s: State, s': State, i: nat)
    requires Wft(s) && SlotsAgree(s) && Wft(s') && i < MAX_TASKS && !s.tasks[i].status.Unused?
    requires s'.free == [i] + s.free && s'.tasks == s.tasks[i := s'.tasks[i]] && s'.tasks[i].status.Unused?
    ensures SlotsAgree(s')
  {
    var t := s'.free;
    assert i !in s.free;
    forall a, b | 0 <= a < b < |t|
      ensures t[a] != t[b]
    {
      assert t[b] == s.free[b - 1] && s.free[b - 1] in s.free;
      if a > 0 {
        assert t[a] == s.free[a - 1];
      }
    }
    assert forall j :: j in t <==> j == i || j in s.free;
  }

  lemma FreeDirs(s: State, role: seq<Role>, s': State, role': seq<Role>, i: nat, d: nat)
    requires Wft(s) && Wft(s') && |role| == |s.v.page| == |s'.v.page| == |role'| && DirsAgree(s, role)
    requires i < MAX_TASKS && !s.tasks[i].status.Unused? && s.tasks[i].dir == d < |role|
    requires s'.tasks == s.tasks[i := s'.tasks[i]] && s'.tasks[i].status.Unused?
    requires role'[d] == Free && OnlyChurn(role, role'[d := role[d]], d)
    ensures DirsAgree(s', role')
  {
    assert role[d] == Dir(i);
    forall c | 0 <= c < |role|
      ensures c != d && (role[c].Dir? || role'[c].Dir?) ==> role'[c] == role[c]
    {
      if c != d {
        assert role'[d := role[d]][c] == role'[c];
      }
    }
  }

  /** Task::free of a live task: memory, slots and directories agree afterwards. */
  lemma FreeTaskKeeps(s: State, role: seq<Role>, i: nat) returns (s': State, role': seq<Role>)
    requires Wft(s) && Inv(s.v, role, s.kd) && SlotsAgree(s) && DirsAgree(s, role)
    requires i < MAX_TASKS && !s.tasks[i].status.Unused?
    ensures FreeTask(s, i) == Ok(s')
    ensures Wft(s') && Inv(s'.v, role', s'.kd) && SlotsAgree(s') && DirsAgree(s', role')
    ensures s'.tasks == s.tasks[i := s'.tasks[i]] && s'.tasks[i].status.Unused?
    ensures s'.free == [i] + s.free && s'.kd == s.kd && s'.current == s.current && s'.ctl == s.ctl
    ensures s'.cr3 == if s.current == Some(i) then s.kd else s.cr3
    ensures FreeSpace(s.v, s.tasks[i].dir) == Ok(s'.v)
    ensures |role'| == |role| && role'[s.tasks[i].dir] == Free
    ensures OnlyChurnBut(role, role', s.tasks[i].dir, s.tasks[i].dir)
    ensures SameWalks(s.v, role, s.kd, s'.v, s.tasks[i].dir) && SameContents(s.v, role, s'.v, s.tasks[i].dir)
  {
    var d := s.tasks[i].dir;
    var v', role1 := FreeSpaceSteps(s.v, role, s.kd, d);
    role' := role1;
    s' := FreeTask(s, i).value;
    hide Inv, FreeSpace;
    FreeSlot(s, s', i);
    FreeDirs(s, role, s', role', i, d);
    assert OnlyChurnBut(role, role', d, d) by {
      forall f | 0 <= f < |role| && f != d
        ensures role'[f] == role[f] || (Churn(role[f], d) && Churn(role'[f], d))
      {
        assert role'[d := role[d]][f] == role'[f];
      }
    }
  }

  /** Task::destroy of the current task ends in the monitor without a task, CR3 on the kernel. */
  lemma DestroyKeeps(s: State, role: seq<Role>, i: nat) returns (s': State, role': seq<Role>)
    requires KInv(s, role) && s.current == Some(i)
    ensures i < MAX_TASKS && !s.tasks[i].status.Unused? && Destroy(s, i) == Ok(s')
    ensures KInv(s', role') && s'.ctl == Monitor(None) && s'.current == None && s'.kd == s.kd
    ensures s'.tasks == s.tasks[i := s'.tasks[i]] && s'.tasks[i].status.Unused?
    ensures |role'| == |role| && role'[s.tasks[i].dir] == Free
        && OnlyChurnBut(role, role', s.tasks[i].dir, s.tasks[i].dir)
    ensures SameWalks(s.v, role, s.kd, s'.v, s.tasks[i].dir) && SameContents(s.v, role, s'.v, s.tasks[i].dir)
  {
    hide Inv, Guarded, SlotsAgree, DirsAgree, SameWalks, SameContents, Destroy, FreeTask, RunSafe;
    CurrentIsLive(s, role, i);
    SameTasksAgree(s, Detached(s), role);
    var s2, role2 := FreeTaskKeeps(Detached(s), role, i);
    role' := role2;
    DestroyForm(s, i, s2);
    s' := State(s2.v, s2.kd, s2.tasks, s2.free, s2.current, s2.cr3, Monitor(None));
    SameTasksAgree(s2, s', role');
    DestroyedIsSafe(s, s', i);
    FreedIsGuarded(s.v, role, s.kd, s'.v, role', s.tasks[i].dir);
  }

  lemma CurrentIsLive(s: State, role: seq<Role>, i: nat)
    requires KInv(s, role) && s.current == Some(i)
    ensures i < MAX_TASKS && Wft(Detached(s)) && !s.tasks[i].status.Unused?
    ensures s.tasks[i].dir < |role| && role[s.tasks[i].dir] == Dir(i)
  {
    hide Inv, Guarded;
    assert s.tasks[i].status.Running?;
  }

  lemma FreedIsGuarded(v: Vm, role: seq<Role>, kd: nat, v': Vm, role': seq<Role>, d: nat)
    requires Inv(v, role, kd) && Guarded(v, role, kd) && Inv(v', role', kd) && SameWalks(v, role, kd, v', d)
    requires d < |role| == |role'| && role[d].Dir? && role'[d] == Free && OnlyChurnBut(role, role', d, d)
    ensures Guarded(v', role', kd)
  {
    hide Guarded, SameWalks;
    assert d != kd;
    hide Inv;
    StaysGuarded(v, role, kd, v', role', d);
  }

  lemma SameTasksAgree(s: State, s': State, role: seq<Role>)
    requires Wft(s) && |role| == |s.v.page| && SlotsAgree(s) && DirsAgree(s, role) && Wft(s')
    requires s'.v == s.v && s'.tasks == s.tasks && s'.free == s.free
    ensures SlotsAgree(s') && DirsAgree(s', role)
  {
  }

  lemma DestroyedIsSafe(s: State, s': State, i: nat)
    requires Wft(s) && RunSafe(s) && s.current == Some(i) && Wft(s') && s'.current == None && s'.cr3 == s'.kd
    requires s'.tasks == s.tasks[i := s'.tasks[i]] && s'.tasks[i].status.Unused? && s'.ctl == Monitor(None)
    ensures RunSafe(s')
  {
  }

  /** The state in which destroy calls free: no current task, the kernel's directory loaded. */
  function Detached(s: State): State {
    State(s.v, s.kd, s.tasks, s.free, None, s.kd, s.ctl)
  }

  lemma DestroyForm(s: State, i: nat, s2: State)
    requires Wft(s) && i < MAX_TASKS && s.current == Some(i) && FreeTask(Detached(s), i) == Ok(s2)
    ensures Destroy(s, i) == Ok(State(s2.v, s2.kd, s2.tasks, s2.free, s2.current, s2.cr3, Monitor(None)))
  {
    hide FreeTask;
  }

  // Task::run, the monitor and traps

  /** The frames that belong to the kernel still do, and hold what they held. */
  ghost predicate ReservedKept(v: Vm, role: seq<Role>, v': Vm, role': seq<Role>) {
    && |v'.page| == |v.page| == |role| == |role'|
    && forall f :: 0 <= f < |role| && role[f].Kernel? ==> role'[f].Kernel? && v'.page[f] == v.page[f]
  }

  lemma DestroyReserves(v: Vm, role: seq<Role>, v': Vm, role': seq<Role>, d: nat)
    requires d < |role| == |role'| && !role[d].Kernel? && OnlyChurnBut(role, role', d, d)
        && SameContents(v, role, v', d)
    ensures ReservedKept(v, role, v', role')
  {
  }

  lemma LiveDirIsTasks(s: State, role: seq<Role>, i: nat)
    requires KInv(s, role) && i < MAX_TASKS && !s.tasks[i].status.Unused?
    ensures s.tasks[i].dir < |role| && role[s.tasks[i].dir] == Dir(i)
  {
  }

  lemma CreateReserves(v: Vm, role: seq<Role>, kd: nat, v': Vm, role': seq<Role>, f1: nat, f2: nat, i: nat, elf: Elf)
    requires |role| == |v.page| && Complete(elf) && Built(v, role, kd, v', role', f1, f2, i, elf)
    ensures ReservedKept(v, role, v', role')
  {
    hide OwnSpace, SameWalks;
  }

  /** run after create: the new task runs, the task that was running is ready again. */
  lemma RunNewKeeps(s: State, role: seq<Role>, i: nat)
    requires KInvButCr3(s, role) && i < MAX_TASKS && s.tasks[i].status.Ready?
    ensures KInv(RunTask(s, i), role) && RunTask(s, i).ctl == User(i)
  {
    hide Inv;
  }

  lemma RunCurrentKeeps(s: State, role: seq<Role>, i: nat)
    requires KInv(s, role) && s.current == Some(i)
    ensures i < MAX_TASKS && KInv(RunTask(s, i), role) && RunTask(s, i).ctl == User(i)
  {
    hide Inv;
  }

  lemma SaveFrameKeeps(s: State, role: seq<Role>, i: nat, f: Frame)
    requires KInv(s, role) && i < MAX_TASKS
    ensures KInv(SaveFrame(s, i, f), role) && SaveFrame(s, i, f).current == s.current
  {
    hide Inv;
  }

  lemma ResumeKeeps(s: State, role: seq<Role>, step: bool)
    requires KInv(s, role) && s.ctl.Monitor?
    ensures KInv(Resume(s, step), role) && Resume(s, step).v == s.v
  {
    hide Inv;
  }

  lemma BreakKeeps(s: State, role: seq<Role>, i: nat)
    requires KInv(s, role) && s.current == Some(i)
    ensures KInv(State(s.v, s.kd, s.tasks, s.free, s.current, s.cr3, Monitor(Some(i))), role)
  {
    hide Inv;
  }

  /** In a live directory, no entry below ULIM names memory that does not exist. */
  lemma NoBadTable(v: Vm, role: seq<Role>, kd: nat, d: nat, a: Word)
    requires Inv(v, role, kd) && d < |role| && role[d].Dir?
    ensures !UserCheck.BadTable(v, d, a)
  {
    if Present(v.page[d][Pdx(a)]) {
      Target(v, role, kd, d, Pdx(a));
    }
  }

  lemma CheckReturns(s: State, role: seq<Role>, i: nat, va: Word, count: Word)
    requires KInv(s, role) && i < MAX_TASKS && !s.tasks[i].status.Unused?
    ensures UserCheck.Check(s.v, s.tasks[i].dir, va, count, PTE_U).Ok?
  {
    var d := s.tasks[i].dir;
    assert role[d] == Dir(i);
    forall a: Word
      ensures !UserCheck.BadTable(s.v, d, a)
    {
      NoBadTable(s.v, role, s.kd, d, a);
    }
    UserCheck.CheckFromIff(s.v, d, va, Add32(va, count), PTE_U);
  }

  /** A string passes the check and one of the 2 * count bytes that the kernel reads is not mapped: the check looks
      at fewer bytes than are read, or at none because its end wraps around. */
  ghost predicate StringStops(s: State, t: Trap)
    requires Wft(s)
  {
    && t.PutString? && s.current.Some?
    && UserCheck.Check(s.v, s.tasks[s.current.value].dir, t.va, t.count, PTE_U) == Ok(true)
    && exists a: Word :: (a - t.va) % 0x1_0000_0000 < 2 * t.count && Walk(s.v, s.cr3, a).None?
  }

  /** The task goes on: after a system call that returns, putString with an accepted string included. */
  predicate Resumes(s: State, t: Trap)
    requires s.current.Some? && s.current.value < |s.tasks| && Wf(s.v) && s.tasks[s.current.value].dir < |s.v.page|
  {
    || t.Syscall?
    || (t.PutString? && UserCheck.Check(s.v, s.tasks[s.current.value].dir, t.va, t.count, PTE_U) == Ok(true))
  }

  /** The frame with the result of the system call. */
  function Answered(f: Frame, t: Trap): Frame {
    Frame(f.eip, f.esp, if t.Syscall? then t.eax else 0, f.trapFlag)
  }

  /** The ways that a trap from user mode can go. */
  lemma TrapForm(s: State, f: Frame, t: Trap)
    requires Wft(s) && s.current.Some?
    requires t.PutString? ==> UserCheck.Check(s.v, s.tasks[s.current.value].dir, t.va, t.count, PTE_U).Ok?
    ensures var i := s.current.value;
            var s1 := SaveFrame(s, i, f);
            HandleTrap(s, f, t) ==
              if t == Break then Ok(State(s.v, s.kd, s1.tasks, s.free, s.current, s.cr3, Monitor(Some(i))))
              else if StringStops(s, t) then Panic
              else if Resumes(s, t) then Ok(RunTask(SaveFrame(s1, i, Answered(f, t)), i))
              else Destroy(s1, i)
  {
    hide UserCheck.Check, Readable, Walk, Destroy, RunTask;
    if t.PutString? {
      ReadableIff(s.v, s.cr3, t.va, t.count);
    }
  }

  /** A trap from user mode stops the kernel exactly when it hands over such a string; otherwise it
      returns, to the task or to the monitor. */
  lemma TrapKeeps(s: State, role: seq<Role>, f: Frame, t: Trap) returns (r: Res<State>, role': seq<Role>)
    requires KInv(s, role) && s.ctl.User?
    ensures Wft(s) && HandleTrap(s, f, t) == r && !r.Cyclic? && (r.Panic? <==> StringStops(s, t))
    ensures r.Panic? <==>
              && t.PutString? && UserCheck.Check(s.v, s.cr3, t.va, t.count, PTE_U) == Ok(true)
              && exists a: Word :: (a - t.va) % 0x1_0000_0000 < 2 * t.count && Walk(s.v, s.cr3, a).None?
    ensures r.Ok? ==> KInv(r.value, role') && ReservedKept(s.v, role, r.value.v, role')
  {
    hide Inv, Walk, Readable, HandleTrap, UserCheck.Check, SaveFrame, RunTask, Destroy;
    UserModeIsSafe(s, role);
    var i := s.ctl.task;
    var s1 := SaveFrame(s, i, f);
    SavedFrame(s, i, f);
    SaveFrameKeeps(s, role, i, f);
    assert |role| == |s.v.page|;
    hide KInv;
    if t.PutString? {
      CheckReturns(s1, role, i, t.va, t.count);
    }
    TrapForm(s, f, t);
    r, role' := HandleTrap(s, f, t), role;
    if t == Break {
      BreakKeeps(s1, role, i);
    } else if StringStops(s, t) {
    } else if Resumes(s, t) {
      ResumeTrapKeeps(s1, role, i, Answered(f, t));
    } else {
      var s2;
      s2, role' := DestroyKeeps(s1, role, i);
      LiveDirIsTasks(s1, role, i);
      DestroyReserves(s1.v, role, s2.v, role', s1.tasks[i].dir);
    }
  }

  lemma SavedFrame(s: State, i: nat, f: Frame)
    requires i < |s.tasks|
    ensures var s1 := SaveFrame(s, i, f);
            && s1.v == s.v && s1.kd == s.kd && s1.free == s.free && s1.current == s.current && s1.cr3 == s.cr3
            && |s1.tasks| == |s.tasks| && s1.tasks[i].status == s.tasks[i].status && s1.tasks[i].dir == s.tasks[i].dir
  {
  }

  lemma ResumeTrapKeeps(s: State, role: seq<Role>, i: nat, f: Frame)
    requires KInv(s, role) && s.current == Some(i) && i < MAX_TASKS
    ensures var s1 := SaveFrame(s, i, f);
            && KInv(s1, role) && s1.current == Some(i) && KInv(RunTask(s1, i), role) && RunTask(s1, i).v == s.v
  {
    hide Inv;
    SaveFrameKeeps(s, role, i, f);
    RunCurrentKeeps(SaveFrame(s, i, f), role, i);
  }

  // When runtask works out

  /** A task slot, the magic number, and frames for two directories, the program's pages and their tables. */
  ghost predicate CanCreate(s: State, elf: Elf) {
    s.free != [] && elf.magic == ELF_MAGIC && |s.v.free| >= FrameNeeds.CreateFrames(elf)
  }

  /** What the loader needs in this memory. */
  ghost predicate LoadsIff(v: Vm, kd: nat, elf: Elf)
    requires Wf(v) && kd < |v.page| && Complete(elf)
  {
    var m := SetupMemory(SetupMemory(v, kd).0, kd);
    && m.1.Some?
    && (LoadElf(m.0, m.1.value, elf).Ok? <==> elf.magic == ELF_MAGIC && |v.free| >= FrameNeeds.CreateFrames(elf))
  }

  lemma CreatedIff(s: State, elf: Elf, rand: Word)
    requires Wft(s) && Complete(elf) && (|s.v.free| >= 2 ==> LoadsIff(s.v, s.kd, elf))
    ensures var c := Create(s, elf, rand); c.Ok? && c.value.1.Created? <==> CanCreate(s, elf)
  {
    FewFrames(s.v, s.kd, elf);
    hide SetupMemory, LoadElf, FrameNeeds.CreateFrames;
  }

  lemma FewFrames(v: Vm, kd: nat, elf: Elf)
    requires Wf(v) && kd < |v.page|
    ensures FrameNeeds.CreateFrames(elf) > 2
    ensures SetupMemory(v, kd).1.Some? <==> v.free != []
    ensures |v.free| == 1 ==> SetupMemory(SetupMemory(v, kd).0, kd).1.None?
  {
    assert FrameNeeds.STACK_PAGE in FrameNeeds.ImagePages(elf);
  }

  /** A safe memory is one where it does. */
  lemma SafeLoads(v: Vm, role: seq<Role>, kd: nat, elf: Elf)
    requires Inv(v, role, kd) && WellFormed(elf) && |v.free| >= 2
    ensures Wf(v) && kd < |v.page| && Complete(elf) && LoadsIff(v, kd, elf)
  {
    var v1, v2 := FrameNeeds.BuildNeed(v, role, kd, elf);
    hide SetupMemory, LoadElf, FrameNeeds.CreateFrames, FrameNeeds.TailKept;
  }

  /** The event stops the kernel: there is no room for the program, or an unreadable string. */
  ghost predicate Stops(s: State, e: Event)
    requires Wft(s)
  {
    (e.DoRunTask? && !CanCreate(s, e.elf)) || (e.DoTrap? && StringStops(s, e.trap))
  }

  /** The programs that a run is given lie below UTOP. */
  ghost predicate GoodProgram(e: Event) {
    e.DoRunTask? ==> WellFormed(e.elf)
  }

  /** One step keeps the invariant and the kernel's frames. It never makes a ring; it panics exactly for a
      program without room, and on an unreadable string. */
  lemma StepKeeps(s: State, role: seq<Role>, e: Event) returns (r: Res<State>, role': seq<Role>)
    requires KInv(s, role) && Enabled(s, e) && GoodProgram(e)
    ensures Wft(s) && Step(s, e) == r && !r.Cyclic? && (r.Panic? <==> Stops(s, e))
    ensures e.DoTrap? ==>
              (r.Panic? <==>
                 && e.trap.PutString? && UserCheck.Check(s.v, s.cr3, e.trap.va, e.trap.count, PTE_U) == Ok(true)
                 && exists a: Word :: (a - e.trap.va) % 0x1_0000_0000 < 2 * e.trap.count && Walk(s.v, s.cr3, a).None?)
    ensures r.Ok? ==> KInv(r.value, role') && ReservedKept(s.v, role, r.value.v, role')
  {
    hide KInv, Create, HandleTrap, Resume, RunTask, Wft, StringStops, CanCreate;
    SafeParts(s, role);
    r, role' := Step(s, e), role;
    match e {
      case DoRunTask(elf, rand) =>
        var f1;
        role', f1 := RunTaskKeeps(s, role, elf, rand);
        RunTaskNeeds(s, role, elf, rand);
      case DoCont =>
        ResumeKeeps(s, role, false);
      case DoSi =>
        ResumeKeeps(s, role, true);
      case DoTrap(f, t) =>
        var r1, role1 := TrapKeeps(s, role, f, t);
        role' := role1;
      case DoStore(va, b) =>
        UserStoreKeeps(s, role, va, b);
    }
  }

  lemma RunTaskNeeds(s: State, role: seq<Role>, elf: Elf, rand: Word)
    requires KInv(s, role) && WellFormed(elf)
    ensures Wft(s) && Complete(elf)
    ensures var c := Create(s, elf, rand); c.Ok? && c.value.1.Created? <==> CanCreate(s, elf)
  {
    hide Inv, Create, LoadsIff, CanCreate, Guarded, SlotsAgree, DirsAgree, RunSafe;
    assert Complete(elf);
    if |s.v.free| >= 2 {
      SafeLoads(s.v, role, s.kd, elf);
    }
    CreatedIff(s, elf, rand);
  }

  /** A store from user mode keeps the invariant, whatever is stored and wherever it is allowed. */
  lemma UserStoreKeeps(s: State, role: seq<Role>, va: Word, b: Byte)
    requires KInv(s, role) && Enabled(s, DoStore(va, b))
    ensures Wft(s) && UserStore(s, va, b).Ok?
    ensures var s' := UserStore(s, va, b).value; KInv(s', role) && ReservedKept(s.v, role, s'.v, role)
    ensures var s' := UserStore(s, va, b).value; s'.v.rc == s.v.rc && s'.v.free == s.v.free
  {
    hide Inv, Guarded, StoreByte, UserCanWrite, OnlyChurn, SameWalks;
    UserModeDir(s, role);
    var i := s.current.value;
    CurrentIsLive(s, role, i);
    var v' := UserStoreSteps(s.v, role, s.kd, s.cr3, va, b);
  }

  /**
   What a program stores, only it can read: the store changes the one byte in its own memory, and no
   byte below UTOP of any other task.
   */
  lemma UserStoresAreOwn(s: State, role: seq<Role>, va: Word, b: Byte, j: nat, c: Word)
    requires KInv(s, role) && Enabled(s, DoStore(va, b)) && j < MAX_TASKS && !s.tasks[j].status.Unused? && c < UTOP
    ensures Wft(s) && UserStore(s, va, b).Ok? && va < UTOP
    ensures var s' := UserStore(s, va, b).value;
            Read(s'.v, s.tasks[j].dir, c) ==
              if j == s.ctl.task && c == va then Some(b) else Read(s.v, s.tasks[j].dir, c)
  {
    hide Inv, Guarded, StoreByte, UserCanWrite, OnlyChurn, SameWalks, SameContents, Read;
    UserModeDir(s, role);
    var i := s.current.value;
    CurrentIsLive(s, role, i);
    LiveDirIsTasks(s, role, j);
    var v' := UserStoreSteps(s.v, role, s.kd, s.cr3, va, b);
    if j != i {
      IsolatedReads(s.v, role, s.kd, v', role, s.cr3, s.tasks[j].dir, c);
    }
  }

  lemma SafeParts(s: State, role: seq<Role>)
    requires KInv(s, role)
    ensures Wft(s) && |role| == |s.v.page|
  {
  }

  lemma RunTaskKeeps(s: State, role: seq<Role>, elf: Elf, rand: Word) returns (role': seq<Role>, f1: nat)
    requires KInv(s, role) && WellFormed(elf)
    ensures Wft(s) && !Create(s, elf, rand).Cyclic?
    ensures Create(s, elf, rand).Ok? && Create(s, elf, rand).value.1.Created? ==>
              var s1, i := RunTask(Create(s, elf, rand).value.0, Create(s, elf, rand).value.1.task),
                  Create(s, elf, rand).value.1.task;
              && KInv(s1, role') && ReservedKept(s.v, role, s1.v, role') && i < |s1.tasks| && s.v.free != []
                && f1 == s.v.free[0]
              && Built(s.v, role, s.kd, s1.v, role', f1, s1.tasks[i].dir, i, elf)
  {
    hide Inv, Create, KInvButCr3, Built;
    SafeParts(s, role);
    var c, role1, g := CreateKeeps(s, role, elf, rand);
    role', f1 := role, g;
    if c.Ok? && c.value.1.Created? {
      role' := role1;
      var s1, i := c.value.0, c.value.1.task;
      CreatedIsReady(s, role, elf, rand, s1, i, role', f1);
      CreateReserves(s.v, role, s.kd, s1.v, role', f1, s1.tasks[i].dir, i, elf);
      RunNewKeeps(s1, role', i);
    }
  }

  lemma CreatedIsReady(s: State, role: seq<Role>, elf: Elf, rand: Word, s1: State, i: nat, role': seq<Role>, f1: nat)
    requires Wft(s) && Complete(elf) && CreatedWell(s, role, elf, rand, s1, i, role', f1)
    ensures KInvButCr3(s1, role') && i < MAX_TASKS && s1.tasks[i].status.Ready?
    ensures Built(s.v, role, s.kd, s1.v, role', f1, s1.tasks[i].dir, i, elf)
  {
    hide Built, KInvButCr3;
  }

  // Whole runs

  /** Some assignment of roles justifies the state. */
  ghost predicate Safe(s: State) {
    exists role :: KInv(s, role)
  }

  /** The events es, all enabled and given good programs, lead from s to s' without a panic. */
  ghost predicate Run(s: State, es: seq<Event>, s': State)
    decreases |es|
  {
    if es == [] then s' == s
    else
      && Wft(s) && Enabled(s, es[0]) && GoodProgram(es[0]) && Step(s, es[0]).Ok?
      && Run(Step(s, es[0]).value, es[1..], s')
  }

  ghost predicate Reserves(role: seq<Role>, reserved: set<nat>) {
    forall f :: f in reserved ==> f < |role| && role[f].Kernel?
  }

  /** A safe state in which the given frames are the kernel's own, as the frames of the Task array
      must be for the model's separate table of tasks to be right. */
  ghost predicate SafeWith(s: State, reserved: set<nat>) {
    exists role :: KInv(s, role) && Reserves(role, reserved)
  }

  lemma SafeWithNone(s: State)
    ensures SafeWith(s, {}) <==> Safe(s)
  {
    hide KInv;
    if Safe(s) {
      var role :| KInv(s, role);
      assert Reserves(role, {});
    }
  }

  /**
   Safety over runs: from a safe state, every run ends in a safe state. Frames that are reserved for
   the kernel at the start are never handed out and never written.
   */
  lemma {:induction false} RunsAreSafe(s: State, es: seq<Event>, s': State, reserved: set<nat>)
    requires SafeWith(s, reserved) && Run(s, es, s')
    ensures SafeWith(s', reserved) && |s'.v.page| == |s.v.page|
    ensures forall f :: f in reserved ==> f < |s.v.page| && f !in s'.v.free && s'.v.page[f] == s.v.page[f]
    decreases |es|
  {
    hide Step;
    var role :| KInv(s, role) && Reserves(role, reserved);
    ReservedNotFree(s, role);
    hide KInv;
    if es != [] {
      var r, role' := StepKeeps(s, role, es[0]);
      RunsAreSafe(r.value, es[1..], s', reserved);
    }
  }

  /** In particular, every run from a safe state ends in a safe state. */
  lemma SafeRunsStaySafe(s: State, es: seq<Event>, s': State)
    requires Safe(s) && Run(s, es, s')
    ensures Safe(s') && |s'.v.page| == |s.v.page|
  {
    hide Safe, Run, SafeWith;
    SafeWithNone(s);
    RunsAreSafe(s, es, s', {});
    SafeWithNone(s');
  }

  lemma ReservedNotFree(s: State, role: seq<Role>)
    requires KInv(s, role)
    ensures |role| == |s.v.page| && forall f :: 0 <= f < |role| && role[f].Kernel? ==> f !in s.v.free
  {
  }

  /** A frame on the free list cannot be reserved: such a state is not safe with it. */
  lemma FreeFrameNotReserved(s: State, f: nat)
    requires f in s.v.free
    ensures !SafeWith(s, {f})
  {
    forall role | KInv(s, role)
      ensures !Reserves(role, {f})
    {
      ReservedNotFree(s, role);
      assert f in {f};
    }
  }

  // Strings that stop the kernel

  /** A string in the last page of the stack that ends below its top, but would not if it were twice as long:
      it passes the check, and is read beyond the top. */
  lemma TwiceAsFarStops(s: State, role: seq<Role>, f: Frame, va: Word, count: Word)
    requires KInv(s, role) && s.ctl.User? && USTACKTOP - PGSIZE <= va && va + count <= USTACKTOP < va + 2 * count
    requires UserCheck.PagePasses(s.v, s.cr3, va, PTE_U) && Walk(s.v, s.cr3, USTACKTOP).None?
    ensures HandleTrap(s, f, PutString(va, count)) == Panic
  {
    hide KInv, HandleTrap, Walk, UserCheck.Check, UserCheck.PagePasses;
    UserModeDir(s, role);
    UserCheck.OnePage(s.v, s.cr3, va, count, PTE_U);
    assert (USTACKTOP - va) % 0x1_0000_0000 < 2 * count;
    var r, role' := TrapKeeps(s, role, f, PutString(va, count));
  }

  /** A page that a task has mapped satisfies the check in full: it is present and user-accessible. */
  lemma MappedIsGranted(v: Vm, d: nat, a: Word)
    requires d < |v.page| <= 0x2_0000 && OwnPages(v, d) && a < UTOP && Walk(v, d, a).Some?
    ensures UserCheck.PageGrants(v, d, a, PTE_U) && UserCheck.PagePasses(v, d, a, PTE_U)
  {
    LayoutIndexes();
    var e := Walk(v, d, a).value;
    FlagBits(e);
    UserBits(Flags(e));
    hide UserCheck.HasBits;
    UserCheck.GrantsPass(v, d, a, PTE_U);
  }

  lemma UserBits(p: nat)
    requires p % 2 == 1 && p % 8 >= 4
    ensures UserCheck.HasBits(p, 5)
  {
    assert p / 2 / 2 % 2 == 1;
    assert UserCheck.HasBits(p / 2 / 2, 1);
    assert UserCheck.HasBits(p / 2, 2);
  }

  /**
   Such a state is what runtask leads to, for every program without a segment on the page of USTACKTOP: its first
   putString of such a string, for instance with USTACKTOP - 2 and 2 or USTACKTOP - 4 and 3, stops the kernel.
   */
  lemma RunTaskThenStops(s: State, role: seq<Role>, elf: Elf, rand: Word, f: Frame, va: Word, count: Word)
    returns (s': State)
    requires KInv(s, role) && Enabled(s, DoRunTask(elf, rand)) && WellFormed(elf) && CanCreate(s, elf)
    requires forall i :: 0 <= i < |elf.segs| ==> !Covers(elf.segs[i], USTACKTOP)
    requires USTACKTOP - PGSIZE <= va && va + count <= USTACKTOP < va + 2 * count
    ensures Wft(s) && Step(s, DoRunTask(elf, rand)) == Ok(s') && Wft(s') && s'.ctl.User?
    ensures HandleTrap(s', f, PutString(va, count)) == Panic
  {
    hide KInv, HandleTrap, Create, RunTask, Covers, OwnSpace, SameWalks, SameContents, FinalByte, WellFormed, Complete,
        UserCheck.PagePasses, Walk, CanCreate, Wft;
    assert Complete(elf) by { GoodElf(elf); }
    RunTaskNeeds(s, role, elf, rand);
    SafeParts(s, role);
    var role', f1 := RunTaskKeeps(s, role, elf, rand);
    var c := Create(s, elf, rand).value;
    s' := RunTask(c.0, c.1.task);
    RunTaskRuns(c.0, c.1.task);
    UserModeIsSafe(s', role');
    BuiltStack(s.v, role, s.kd, s'.v, role', f1, s'.cr3, c.1.task, elf, va);
    TwiceAsFarStops(s', role', f, va, count);
  }

  lemma GoodElf(elf: Elf)
    requires WellFormed(elf)
    ensures Complete(elf)
  {
  }

  lemma RunTaskRuns(s: State, i: nat)
    requires Wft(s) && i < MAX_TASKS
    ensures RunTask(s, i).ctl == User(i)
  {
  }

  lemma BuiltStack(v: Vm, role: seq<Role>, kd: nat, v': Vm, role': seq<Role>, f1: nat, d: nat, i: nat, elf: Elf,
      va: Word)
    requires Complete(elf) && Built(v, role, kd, v', role', f1, d, i, elf)
    requires forall i :: 0 <= i < |elf.segs| ==> !Covers(elf.segs[i], USTACKTOP)
    requires USTACKTOP - PGSIZE <= va < USTACKTOP
    ensures d < |v'.page| && UserCheck.PagePasses(v', d, va, PTE_U) && Walk(v', d, USTACKTOP).None?
  {
    hide SameWalks, SameContents, Covers, Walk, UserCheck.PagePasses;
    NotCovered(elf, 0, USTACKTOP);
    assert Read(v', d, va) == Some(0) && Read(v', d, USTACKTOP) == None;
    OwnSpaceFacts(v', role', kd, d, USTACKTOP);
    MappedIsGranted(v', d, va);
  }

  lemma OwnSpaceFacts(v: Vm, role: seq<Role>, kd: nat, d: nat, a: Word)
    requires OwnSpace(v, role, kd, d) && a < UTOP && Read(v, d, a).None?
    ensures d < |v.page| <= 0x2_0000 && OwnPages(v, d) && Walk(v, d, a).None?
  {
    LayoutIndexes();
    if Walk(v, d, a).Some? {
      DataIsMapped(v, role, kd, d, Pdx(a), Ptx(a), Mmu.Frame(Walk(v, d, a).value));
    }
  }

  /** No run of the kernel comes near the limit of the counts: outside of its own frames they are 0 or 1. */
  lemma CountsStaySmall(s: State, role: seq<Role>, f: nat)
    requires KInv(s, role) && f < |role| && !role[f].Kernel?
    ensures f < |s.v.rc| && s.v.rc[f] <= 1
  {
    if role[f].Data? {
      var m :| m in Mappings(s.v, role, f);
      assert OwnPages(s.v, m.dir);
    }
  }

  lemma UserModeDir(s: State, role: seq<Role>)
    requires KInv(s, role) && s.ctl.User?
    ensures Wft(s) && s.current.Some? && s.current.value < |s.tasks| && s.tasks[s.current.value].dir == s.cr3
  {
  }

  /** A length that wraps around the end of the address space makes the check look at nothing. */
  lemma WrappedLengthStops(s: State, role: seq<Role>, f: Frame, va: Word, count: Word)
    requires KInv(s, role) && s.ctl.User? && va + count >= WORD_LIMIT && Walk(s.v, s.cr3, va).None?
    ensures HandleTrap(s, f, PutString(va, count)) == Panic
  {
    hide KInv, HandleTrap, Walk, UserCheck.Check;
    UserModeDir(s, role);
    assert (va - va) % 0x1_0000_0000 < 2 * count;
    UserCheck.WrappedIsAccepted(s.v, s.cr3, va, count, PTE_U);
    var r, role' := TrapKeeps(s, role, f, PutString(va, count));
  }
}
