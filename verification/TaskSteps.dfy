/**
 What the steps of a run do to the table of tasks (kernel/task.cc, kernel/trap.cc, kernel/monitor.cc), field by
 field: frames, statuses, and what stays.
 */
module TaskSteps {
  import opened Wrappers
  import opened Mmu
  import opened PageTables
  import opened Ownership
  import opened AddressSpaces
  import opened Tasks
  import opened TaskInvariant
  import opened RunSafety
  import ElfLoader
  import UserCheck
  import UserMemory

  /** Memory, the list of free slots, and what is current and loaded are as before. */
  ghost predicate SameButTasks(s: State, s': State) {
    && s'.v == s.v && s'.kd == s.kd && s'.free == s.free && s'.current == s.current && s'.cr3 == s.cr3
    && |s'.tasks| == |s.tasks|
  }

  /** Id, parent and directory of every task are as before. */
  ghost predicate SameIdentities(s: State, s': State) {
    && |s'.tasks| == |s.tasks|
    && forall k :: 0 <= k < |s.tasks| ==>
         s'.tasks[k].id == s.tasks[k].id && s'.tasks[k].parent == s.tasks[k].parent && s'.tasks[k].dir == s.tasks[k].dir
  }

  /**
   run: a task that is not current becomes running and current, its directory is loaded, and the task that was
   running before is ready again; no frame changes. A task that is current already is only entered.
   */
  lemma RunSwitches(s: State, i: nat)
    requires Wft(s) && i < MAX_TASKS
    ensures var s' := RunTask(s, i);
            && s'.ctl == User(i) && s'.v == s.v && s'.kd == s.kd && s'.free == s.free && SameIdentities(s, s')
            && (forall k :: 0 <= k < MAX_TASKS ==> s'.tasks[k].frame == s.tasks[k].frame)
            && (s.current == Some(i) ==> s'.tasks == s.tasks && s'.current == s.current && s'.cr3 == s.cr3)
            && (s.current != Some(i) ==>
                  && s'.current == Some(i) && s'.cr3 == s.tasks[i].dir && s'.tasks[i].status == Running
                  && forall k :: 0 <= k < MAX_TASKS && k != i ==>
                       s'.tasks[k].status ==
                         if s.current == Some(k) && s.tasks[k].status == Running then Ready else s.tasks[k].status)
  {
  }

  /**
   runtask: the first free slot becomes a task with a fresh id, which runs at the program's entry with the stack below
   0xDEBFE000 and reads the program's image from its memory; the task that was running is ready again, and no other
   field of the table changes.
   */
  lemma RunTaskStarts(s: State, role: seq<Role>, elf: ElfLoader.Elf, rand: Word)
    requires KInv(s, role) && s.ctl.Monitor? && ElfLoader.WellFormed(elf) && Wft(s)
    requires Step(s, DoRunTask(elf, rand)).Ok?
    ensures s.free != [] && s.free[0] < MAX_TASKS
    ensures var s', i := Step(s, DoRunTask(elf, rand)).value, s.free[0];
            var t := s'.tasks[i];
            && s'.ctl == User(i) && s'.current == Some(i) && s'.cr3 == t.dir && s'.kd == s.kd && s.free == [i] + s'.free
            && t.id % 0x100 == i && t.id / 0x100 == rand / 0x100 && t.parent == 0 && t.status == Running
            && t.frame == Frame(elf.entry, 0xDEBF_E000, 0, false)
            && (forall a: Word :: a < UTOP ==>
                  UserMemory.Read(s'.v, s'.cr3, a) == ElfLoader.FinalByte(elf, a))
            && forall k :: 0 <= k < MAX_TASKS && k != i ==>
                 var u, u' := s.tasks[k], s'.tasks[k];
                 && u'.id == u.id && u'.parent == u.parent && u'.dir == u.dir && u'.frame == u.frame
                 && u'.status == if s.current == Some(k) && u.status == Running then Ready else u.status
  {
    hide KInv, KInvButCr3, Inv, Create, RunTask, ElfLoader.FinalByte, UserMemory.Read, ElfLoader.WellFormed, FreshId;
    var r, role', f1 := CreateKeeps(s, role, elf, rand);
    var s1, i := r.value.0, r.value.1.task;
    assert s.current != Some(i) by {
      UnusedIsNotCurrent(s, role, i);
    }
    RunSwitches(s1, i);
  }

  lemma UnusedIsNotCurrent(s: State, role: seq<Role>, i: nat)
    requires KInv(s, role) && i < MAX_TASKS && s.tasks[i].status.Unused?
    ensures s.current != Some(i)
  {
  }

  /** The monitor's cont and si: the frame that it holds is popped, with the single-step flag cleared or set; without
      a frame nothing happens. */
  lemma MonitorResumes(s: State, e: Event)
    requires Wft(s) && s.ctl.Monitor? && (e == DoCont || e == DoSi)
    ensures Step(s, e).Ok?
    ensures s.ctl.tf == None ==> Step(s, e) == Ok(s)
    ensures s.ctl.tf != None ==>
              var s', i := Step(s, e).value, s.ctl.tf.value;
              && i < MAX_TASKS && s'.ctl == User(i) && SameButTasks(s, s') && SameIdentities(s, s')
              && s'.tasks[i].frame.eip == s.tasks[i].frame.eip && s'.tasks[i].frame.esp == s.tasks[i].frame.esp
              && s'.tasks[i].frame.eax == s.tasks[i].frame.eax && s'.tasks[i].frame.trapFlag == (e == DoSi)
              && s'.tasks[i].status == s.tasks[i].status
              && forall k :: 0 <= k < MAX_TASKS && k != i ==> s'.tasks[k] == s.tasks[k]
  {
  }

  /** The trap ends the task: it exits, faults, or hands over a string that does not pass the check. */
  ghost predicate EndsTask(s: State, t: Trap)
    requires Wf(s.v) && s.cr3 < |s.v.page|
  {
    t == Exit || t == PageFault
    || (t.PutString? && UserCheck.Check(s.v, s.cr3, t.va, t.count, PTE_U) == Ok(false))
  }

  /**
   A trap that does not end the task: the task's frame is the one that the processor saved, but for the result
   of a system call in eax, which is zero after putString. The task goes on, or after a breakpoint or an unhandled
   trap the monitor holds its frame. Nothing else changes.
   */
  lemma TrapSavesFrame(s: State, role: seq<Role>, f: Frame, t: Trap)
    requires KInv(s, role) && s.ctl.User? && Wft(s) && Step(s, DoTrap(f, t)).Ok? && !EndsTask(s, t)
    ensures var s', i := Step(s, DoTrap(f, t)).value, s.ctl.task;
            && i < MAX_TASKS && s.current == Some(i) && SameButTasks(s, s') && SameIdentities(s, s')
            && s'.tasks[i].frame.eip == f.eip && s'.tasks[i].frame.esp == f.esp
            && s'.tasks[i].frame.trapFlag == f.trapFlag && s'.tasks[i].status == Running
            && s'.tasks[i].frame.eax == (if t.Syscall? then t.eax else if t.PutString? then 0 else f.eax)
            && s'.ctl == (if t == Break then Monitor(Some(i)) else User(i))
            && forall k :: 0 <= k < MAX_TASKS && k != i ==> s'.tasks[k] == s.tasks[k]
  {
    UserModeIsSafe(s, role);
    hide Inv, KInv, UserCheck.Check, UserMemory.Readable, Destroy;
    assert SaveFrame(s, s.ctl.task, f).tasks[s.ctl.task].dir == s.cr3;
  }

  /** A trap that ends the task: its slot is the first free one, its memory is given back, and the monitor runs,
      without a task, on the kernel's directory. The other tasks are as before. */
  lemma TrapEndsTask(s: State, role: seq<Role>, f: Frame, t: Trap)
    requires KInv(s, role) && s.ctl.User? && Wft(s) && EndsTask(s, t)
    ensures Step(s, DoTrap(f, t)).Ok?
    ensures var s', i := Step(s, DoTrap(f, t)).value, s.ctl.task;
            && i < MAX_TASKS && SameIdentities(s, s') && s'.tasks[i].status == Unused && s'.tasks[i].frame == f
            && s'.free == [i] + s.free && s'.current == None && s'.kd == s.kd && s'.cr3 == s.kd
            && s'.ctl == Monitor(None) && FreeSpace(s.v, s.tasks[i].dir) == Ok(s'.v)
            && forall k :: 0 <= k < MAX_TASKS && k != i ==> s'.tasks[k] == s.tasks[k]
  {
    hide KInv, Inv, UserCheck.Check, UserMemory.Readable, FreeSpace, Destroy, HandleTrap;
    UserModeIsSafe(s, role);
    var i := s.ctl.task;
    SaveFrameKeeps(s, role, i, f);
    var s2, role2 := DestroyKeeps(SaveFrame(s, i, f), role, i);
    DestroyedTask(SaveFrame(s, i, f), i);
    EndingIsDestroy(s, f, t);
  }

  lemma EndingIsDestroy(s: State, f: Frame, t: Trap)
    requires Wft(s) && s.current.Some? && s.cr3 == s.tasks[s.current.value].dir && EndsTask(s, t)
    ensures HandleTrap(s, f, t) == Destroy(SaveFrame(s, s.current.value, f), s.current.value)
  {
    hide UserCheck.Check, UserMemory.Readable, Destroy;
  }

  /** destroy, and free in it: of the table, only the status of the task changes. */
  lemma DestroyedTask(s: State, i: nat)
    requires Wft(s) && i < MAX_TASKS && Destroy(s, i).Ok?
    ensures var s' := Destroy(s, i).value;
            && SameIdentities(s, s') && s'.tasks[i].frame == s.tasks[i].frame && s'.tasks[i].status == Unused
            && (forall k :: 0 <= k < MAX_TASKS && k != i ==> s'.tasks[k] == s.tasks[k])
            && s'.free == [i] + s.free && s'.kd == s.kd && s'.ctl == Monitor(None)
            && FreeSpace(s.v, s.tasks[i].dir) == Ok(s'.v)
            && s'.current == (if s.current == Some(i) then None else s.current)
            && s'.cr3 == (if s.current == Some(i) then s.kd else s.cr3)
  {
    hide FreeSpace;
  }
}
