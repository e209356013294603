/**
 Tasks (kernel/task.cc) and the ways in and out of user mode (kernel/trap.cc, kernel/monitor.cc),
 as functions on the kernel state.
 */
module Tasks {
  import opened Wrappers
  import opened Mmu
  import opened PageTables
  import opened Ownership
  import opened AddressSpaces
  import opened ElfLoader
  import opened UserMemory
  import UserCheck
  import UserStores

  const MAX_TASKS: nat := 0x100

  datatype Status = Unused | Dying | Ready | Running | Waiting

  /** The part of a trap frame that the modelled code reads or writes. */
  datatype Frame = Frame(eip: Word, esp: Word, eax: Word, trapFlag: bool)

  datatype Task = Task(id: Word, parent: Word, status: Status, frame: Frame, dir: nat)

  /** What the processor is doing: the monitor, with the task whose frame it was given, or a task. */
  datatype Control = Monitor(tf: Option<nat>) | User(task: nat)

  datatype State = State(v: Vm, kd: nat, tasks: seq<Task>, free: seq<nat>, current: Option<nat>, cr3: nat, ctl: Control)

  ghost predicate Wft(s: State) {
    && Wf(s.v) && s.kd < |s.v.page| && s.cr3 < |s.v.page| && |s.tasks| == MAX_TASKS
    && (forall i :: 0 <= i < |s.free| ==> s.free[i] < MAX_TASKS)
    && (forall i :: 0 <= i < MAX_TASKS ==> s.tasks[i].dir < |s.v.page|)
    && (s.current.Some? ==> s.current.value < MAX_TASKS)
    && (s.ctl.Monitor? && s.ctl.tf.Some? ==> s.ctl.tf.value < MAX_TASKS)
  }

  datatype Outcome = Created(task: nat) | NoFreeTask | NoMemory

  function SetTask(s: State, i: nat, t: Task): State
    requires i < |s.tasks|
  {
    State(s.v, s.kd, s.tasks[i := t], s.free, s.current, s.cr3, s.ctl)
  }

  function SetMemory(s: State, v: Vm): State {
    State(v, s.kd, s.tasks, s.free, s.current, s.cr3, s.ctl)
  }

  /** Load CR3. */
  function LoadCr3(s: State, d: nat): State {
    State(s.v, s.kd, s.tasks, s.free, s.current, d, s.ctl)
  }

  /** The id of a fresh task: random above, the slot number in the low eight bits. */
  function FreshId(rand: Word, slot: nat): (id: Word)
    requires slot < MAX_TASKS
    ensures id % 0x100 == slot && id / 0x100 == rand / 0x100
  {
    rand - rand % MAX_TASKS + slot
  }

  /** The fields that Task::alloc sets in a slot whose address space is set up. */
  function FreshTask(rand: Word, parent: Word, slot: nat, d: nat): Task
    requires slot < MAX_TASKS
  {
    Task(FreshId(rand, slot), parent, Ready, Frame(0, USTACKTOP, 0, false), d)
  }

  /** Task::alloc. When no frame is left for the directory, the slot is gone from the free list. */
  function Alloc(s: State, parent: Word, rand: Word): (r: (State, Outcome))
    requires Wft(s)
    ensures Wft(r.0) && (r.1.Created? ==> r.1.task < MAX_TASKS)
  {
    if s.free == [] then (s, NoFreeTask)
    else
      var i := s.free[0];
      var m := SetupMemory(s.v, s.kd);
      var s1 := State(m.0, s.kd, s.tasks, s.free[1..], s.current, s.cr3, s.ctl);
      if m.1.None? then (s1, NoMemory)
      else (SetTask(s1, i, FreshTask(rand, parent, i, m.1.value)), Created(i))
  }

  /** The rest of create for a task that alloc has set up: a second directory, and the program. */
  function Build(s: State, i: nat, elf: Elf): (r: Res<(State, Outcome)>)
    requires Wft(s) && i < MAX_TASKS && Complete(elf)
    ensures r.Ok? ==> Wft(r.value.0) && (r.value.1.Created? ==> r.value.1.task < MAX_TASKS)
  {
    var m := SetupMemory(s.v, s.kd);
    if m.1.None? then Ok((SetMemory(s, m.0), NoMemory))
    else
      var r := LoadElf(m.0, m.1.value, elf);
      if !r.Ok? then r.Failed()
      else
        var t := s.tasks[i];
        var t1 := Task(t.id, t.parent, t.status, Frame(elf.entry, t.frame.esp, t.frame.eax, t.frame.trapFlag),
            m.1.value);
        Ok((LoadCr3(SetTask(SetMemory(s, r.value), i, t1), s.kd), Created(i)))
  }

  /** Task::create: alloc, a second setupMemory, and the program. */
  function Create(s: State, elf: Elf, rand: Word): (r: Res<(State, Outcome)>)
    requires Wft(s) && Complete(elf)
    ensures r.Ok? ==> Wft(r.value.0) && (r.value.1.Created? ==> r.value.1.task < MAX_TASKS)
  {
    var a := Alloc(s, 0, rand);
    if a.1.Created? then Build(a.0, a.1.task, elf) else Ok(a)
  }

  function SetStatus(s: State, i: nat, st: Status): State
    requires i < |s.tasks|
  {
    var t := s.tasks[i];
    SetTask(s, i, Task(t.id, t.parent, st, t.frame, t.dir))
  }

  /** Task::run: switch to task i unless it is current, and pop its frame. */
  function RunTask(s: State, i: nat): (s': State)
    requires Wft(s) && i < MAX_TASKS
    ensures Wft(s')
  {
    if s.current == Some(i) then State(s.v, s.kd, s.tasks, s.free, s.current, s.cr3, User(i))
    else
      var s1 := if s.current.Some? && s.tasks[s.current.value].status.Running? then
          SetStatus(s, s.current.value, Ready) else s;
      var s2 := SetStatus(s1, i, Running);
      State(s2.v, s2.kd, s2.tasks, s2.free, Some(i), s2.tasks[i].dir, User(i))
  }

  /** Task::free: release the memory, mark the slot, and push it. */
  function FreeTask(s: State, i: nat): (r: Res<State>)
    requires Wft(s) && i < MAX_TASKS
    ensures r.Ok? ==> Wft(r.value)
  {
    var s1 := if s.current == Some(i) then LoadCr3(s, s.kd) else s;
    var r := FreeSpace(s1.v, s1.tasks[i].dir);
    if !r.Ok? then r.Failed()
    else
      var s2 := SetStatus(SetMemory(s1, r.value), i, Unused);
      Ok(State(s2.v, s2.kd, s2.tasks, [i] + s2.free, s2.current, s2.cr3, s2.ctl))
  }

  /** Task::destroy: leave the address space if it is current, free the task, enter the monitor. */
  function Destroy(s: State, i: nat): (r: Res<State>)
    requires Wft(s) && i < MAX_TASKS
    ensures r.Ok? ==> Wft(r.value)
  {
    var s1 := if s.current == Some(i) then State(s.v, s.kd, s.tasks, s.free, None, s.kd, s.ctl) else s;
    var r := FreeTask(s1, i);
    if r.Ok? then Ok(State(r.value.v, r.value.kd, r.value.tasks, r.value.free, r.value.current, r.value.cr3,
      Monitor(None))) else r
  }

  // Steps of a run

  datatype Trap =
    | Syscall(eax: Word)                 // putChar, getChar and unknown numbers
    | PutString(va: Word, count: Word)
    | Exit
    | PageFault
    | Break                              // debug, breakpoint, and every unhandled trap

  datatype Event =
    | DoRunTask(elf: Elf, rand: Word)    // the monitor's commands
    | DoCont
    | DoSi
    | DoTrap(frame: Frame, trap: Trap)   // a trap from user mode with the saved frame
    | DoStore(va: Word, byte: Byte)      // a byte that the program stores between two traps

  /** An event can happen: commands in the monitor; in user mode traps, and stores that the page tables
      allow. A store that they do not allow is a page fault, which is a trap. */
  ghost predicate Enabled(s: State, e: Event) {
    match e
    case DoRunTask(elf, _) => s.ctl.Monitor? && Complete(elf)
    case DoCont => s.ctl.Monitor?
    case DoSi => s.ctl.Monitor?
    case DoTrap(_, _) => s.ctl.User?
    case DoStore(va, _) => s.ctl.User? && s.cr3 < |s.v.page| && UserStores.UserCanWrite(s.v, s.cr3, va)
  }

  /** Pop the frame that the monitor holds, with the single-step flag set or cleared. */
  function Resume(s: State, step: bool): (s': State)
    requires Wft(s) && s.ctl.Monitor?
    ensures Wft(s')
  {
    if s.ctl.tf.None? then s
    else
      var i := s.ctl.tf.value;
      var t := s.tasks[i];
      var s1 := SetTask(s, i, Task(t.id, t.parent, t.status, Frame(t.frame.eip, t.frame.esp, t.frame.eax, step),
          t.dir));
      State(s1.v, s1.kd, s1.tasks, s1.free, s1.current, s1.cr3, User(i))
  }

  function SaveFrame(s: State, i: nat, f: Frame): State
    requires i < |s.tasks|
  {
    var t := s.tasks[i];
    SetTask(s, i, Task(t.id, t.parent, t.status, f, t.dir))
  }

  /** trap::trap from user mode: save the frame in the current task, dispatch, run it again. A
      string passes the check as count bytes, and is then read as count 16-bit characters. */
  function HandleTrap(s: State, f: Frame, t: Trap): (r: Res<State>)
    requires Wft(s)
    ensures r.Ok? ==> Wft(r.value)
  {
    if s.current.None? then Panic
    else
      var i := s.current.value;
      var s1 := SaveFrame(s, i, f);
      match t
      case Syscall(eax) => Ok(RunTask(SaveFrame(s1, i, Frame(f.eip, f.esp, eax, f.trapFlag)), i))
      case PutString(va, count) =>
        var c := UserCheck.Check(s1.v, s1.tasks[i].dir, va, count, PTE_U);
        if !c.Ok? then c.Failed()
        else if c.value && !Readable(s1.v, s1.cr3, va, count) then Panic
        else if c.value then Ok(RunTask(SaveFrame(s1, i, Frame(f.eip, f.esp, 0, f.trapFlag)), i))
        else Destroy(s1, i)
      case Exit => Destroy(s1, i)
      case PageFault => Destroy(s1, i)
      case Break => Ok(State(s1.v, s1.kd, s1.tasks, s1.free, s1.current, s1.cr3, Monitor(Some(i))))
  }

  /** A byte stored through the loaded directory. */
  function UserStore(s: State, va: Word, b: Byte): (r: Res<State>)
    requires Wft(s)
    ensures r.Ok? ==> Wft(r.value)
  {
    var r := StoreByte(s.v, s.cr3, va, b);
    if r.Ok? then Ok(SetMemory(s, r.value)) else r.Failed()
  }

  /** One event. Running the null task of a failed create is a fault in the kernel. */
  function Step(s: State, e: Event): (r: Res<State>)
    requires Wft(s) && Enabled(s, e)
    ensures r.Ok? ==> Wft(r.value)
  {
    match e
    case DoRunTask(elf, rand) =>
      var r := Create(s, elf, rand);
      if !r.Ok? then r.Failed()
      else if !r.value.1.Created? then Panic
      else Ok(RunTask(r.value.0, r.value.1.task))
    case DoCont => Ok(Resume(s, false))
    case DoSi => Ok(Resume(s, true))
    case DoTrap(f, t) => HandleTrap(s, f, t)
    case DoStore(va, b) => UserStore(s, va, b)
  }
}
