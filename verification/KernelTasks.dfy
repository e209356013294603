/**
 The task table of kernel/task.cc and its use by kernel/trap.cc and kernel/monitor.cc, in place:
 an array of tasks whose unused slots form an intrusive list.

 Every method is proved against the function of the same name in Tasks, on the value that State()
 gives. A method that can stop the kernel returns false when it does.
 */
module KernelTasks {
  import opened Wrappers
  import opened Mmu
  import opened FreeList
  import opened PageTables
  import opened TranslationCache
  import opened CacheSafety
  import opened KernelMemory
  import opened KernelSpaces
  import AddressSpaces
  import ElfLoader
  import UserCheck
  import UserMemory
  import T = Tasks

  /** The directory that is loaded while task i is freed is in use, and not the task's own. */
  ghost predicate Removable(s: T.State, i: nat)
    requires i < |s.tasks|
  {
    var c := if s.current == Some(i) then s.kd else s.cr3;
    s.tasks[i].dir != c && Owned(s.v, s.kd, s.tasks[i].dir, c)
  }

  lemma SetupNeedsFrame(v: Vm, kd: nat)
    requires Wf(v) && kd < |v.page| && AddressSpaces.SetupMemory(v, kd).1.Some?
    ensures v.free != []
  {
  }

  lemma LoadedAlloc(s: T.State, parent: Word, rand: Word)
    requires T.Wft(s) && Loaded(s.v, s.kd, s.cr3) && T.Alloc(s, parent, rand).1.Created?
    ensures var s1 := T.Alloc(s, parent, rand).0;
            Loaded(s1.v, s1.kd, s1.cr3) && |s1.v.page| == |s.v.page| && s1.kd == s.kd
              && s1.v.page[s.kd] == s.v.page[s.kd]
  {
    hide AddressSpaces.SetupMemory, Loaded;
    SetupNeedsFrame(s.v, s.kd);
    LoadedSetup(s.v, s.kd, s.cr3);
  }

  lemma StoredIsMapped(v: Vm, u: Vm, c: nat, a: Word, b: Byte)
    requires Wf(v) && c < |v.page| && UserMemory.StoreByte(v, c, a, b).Ok? && u.page == v.page
    ensures Walk(u, c, a).Some?
  {
  }

  /** The slots from i on. */
  function SlotsFrom(i: nat): (s: seq<nat>)
    requires i <= T.MAX_TASKS
    ensures |s| == T.MAX_TASKS - i && forall k :: 0 <= k < |s| ==> s[k] == i + k
  {
    seq(T.MAX_TASKS - i, k requires 0 <= k => i + k)
  }

  class TaskTable {
    const mem: Memory
    const spaces: SpaceManager
    const tasks: array<T.Task>
    const nextSlot: array<int>
    var slotHead: int
    /** The current task, or NIL. */
    var current: int
    var ctl: T.Control
    ghost var slots: seq<nat>

    ghost predicate Valid()
      reads this, mem, spaces, tasks, nextSlot, mem.refCount, mem.nextFree
    {
      && spaces.mem == mem && spaces.Ready()
      && tasks.Length == nextSlot.Length == T.MAX_TASKS
      && (tasks as object) != mem.frames && (tasks as object) != mem.refCount && (tasks as object) != mem.nextFree
      && (nextSlot as object) != mem.frames && (nextSlot as object) != mem.refCount && nextSlot != mem.nextFree
      && (tasks as object) != nextSlot
      && IsList(nextSlot[..], slotHead, slots)
      && (forall i :: 0 <= i < T.MAX_TASKS ==> tasks[i].dir < mem.frames.Length)
      && (current == NIL || 0 <= current < T.MAX_TASKS)
      && (ctl.Monitor? && ctl.tf.Some? ==> ctl.tf.value < T.MAX_TASKS)
    }

    ghost function State(): T.State
      requires current == NIL || 0 <= current
      reads this, mem, spaces, tasks, mem.refCount, mem.frames
    {
      T.State(mem.State(), spaces.kd, tasks[..], slots, if current == NIL then None else Some(current), mem.cr3, ctl)
    }

    lemma ValidIsWft()
      requires Valid()
      ensures T.Wft(State())
    {
      mem.ValidIsWf();
    }

    /** The table before task::init: no task, and an empty list. */
    constructor (s: SpaceManager)
      requires s.Ready()
      ensures Valid() && mem == s.mem && spaces == s && fresh(tasks) && fresh(nextSlot)
      ensures slots == [] && current == NIL && ctl == T.Monitor(None)
      ensures forall i :: 0 <= i < T.MAX_TASKS ==> tasks[i].status == T.Unused
    {
      mem, spaces := s.mem, s;
      tasks := new T.Task[T.MAX_TASKS](i => T.Task(0, 0, T.Unused, T.Frame(0, 0, 0, false), 0));
      nextSlot := new int[T.MAX_TASKS](i => NIL);
      slotHead, slots, current, ctl := NIL, [], NIL, T.Monitor(None);
    }

    /** task::init: all slots are unused and are handed out in ascending order. */
    method Init()
      requires Valid() && slots == []
      modifies `slotHead, `slots, nextSlot
      ensures Valid() && slots == SlotsFrom(0)
    {
      hide IsList;
      var i := T.MAX_TASKS;
      while i > 0
        invariant 0 <= i <= T.MAX_TASKS && Valid() && slots == SlotsFrom(i)
      {
        i := i - 1;
        assert i !in slots && SlotsFrom(i) == [i] + slots;
        PushLinks(nextSlot[..], slotHead, slots, i);
        nextSlot[i] := slotHead;
        slotHead := i;
        slots := [i] + slots;
      }
    }

    /** Task::alloc. The slot is taken before the directory, and not given back when that fails. */
    method Alloc(parent: Word, rand: Word) returns (outcome: T.Outcome)
      requires Valid()
      modifies `slotHead, `slots, tasks
      modifies mem`freeList, mem`free, mem`tlb, mem.nextFree, mem.refCount, mem.frames
      ensures Valid() && T.Wft(old(State())) && (State(), outcome) == T.Alloc(old(State()), parent, rand)
      ensures old(mem.Coherent()) && old(NotInTree(mem.Tables(), mem.cr3, mem.free)) ==> mem.Coherent()
    {
      hide Agrees, NotInTree, AddressSpaces.SetupMemory, T.FreshId, T.Wft, IsList;
      ValidIsWft();
      ListHead(nextSlot[..], slotHead, slots);
      if slotHead == NIL {
        return T.NoFreeTask;
      }
      var i := slotHead;
      slotHead := nextSlot[i];
      slots := slots[1..];
      var d := spaces.SetupMemory();
      if d == NIL {
        return T.NoMemory;
      }
      tasks[i] := T.FreshTask(rand, parent, i, d);
      return T.Created(i);
    }

    /** Fields of one task change. */
    method SetTask(i: nat, t: T.Task)
      requires Valid() && i < T.MAX_TASKS && t.dir < mem.frames.Length
      modifies tasks
      ensures Valid() && State() == T.SetTask(old(State()), i, t) && tasks[..] == old(tasks[..])[i := t]
    {
      hide IsList;
      tasks[i] := t;
    }

    /** The rest of create for a task that alloc has set up. */
    method Build(i: nat, elf: ElfLoader.Elf) returns (ok: bool, outcome: T.Outcome)
      requires Valid() && T.Wft(State()) && i < T.MAX_TASKS && ElfLoader.Complete(elf)
          && !T.Build(State(), i, elf).Cyclic?
      modifies tasks, mem`freeList, mem`free, mem`tlb, mem`cr3, mem.nextFree, mem.refCount, mem.frames
      ensures T.Wft(old(State())) && (!ok <==> T.Build(old(State()), i, elf) == Panic)
      ensures ok ==> Valid() && T.Build(old(State()), i, elf) == Ok((State(), outcome))
      ensures ok && old(mem.Coherent()) && old(Loaded(mem.State(), spaces.kd, mem.cr3))
              && old(Suits(mem.State(), spaces.kd, elf))
              ==> mem.Coherent()
    {
      hide IsList, Agrees, NotInTree, Loaded, Owned, Suits, T.Wft, MayFollow,
          AddressSpaces.SetupMemory, ElfLoader.LoadElf, ElfLoader.Complete;
      outcome := T.NoMemory;
      ghost var v0, c, good := mem.State(), mem.cr3, mem.Coherent() && Loaded(mem.State(), spaces.kd, mem.cr3);
      if good {
        LoadedNotFree(v0, mem.Tables(), spaces.kd, c);
      }
      var d := spaces.SetupMemory();
      if d == NIL {
        return true, T.NoMemory;
      }
      if good {
        SetupNeedsFrame(v0, spaces.kd);
        LoadedSetup(v0, spaces.kd, c);
        UsableKept(v0, mem.State(), spaces.kd);
      }
      ghost var ts := tasks[..];
      var t, f := tasks[i], tasks[i].frame;
      SetTask(i, T.Task(t.id, t.parent, t.status, f, d));
      mem.ValidIsWf();
      ok := spaces.LoadElf(d, elf);
      if !ok {
        return;
      }
      SetTask(i, T.Task(t.id, t.parent, t.status, T.Frame(elf.entry, f.esp, f.eax, f.trapFlag), d));
      assert tasks[..] == ts[i := tasks[i]];
      outcome := T.Created(i);
    }

    /** Task::create: a task whose directory is set up twice, and its program. The kernel's
        directory is loaded when it returns a task. */
    method Create(elf: ElfLoader.Elf, rand: Word) returns (ok: bool, outcome: T.Outcome)
      requires Valid() && ElfLoader.Complete(elf)
      requires T.Wft(State()) ==> !T.Create(State(), elf, rand).Cyclic?
      modifies `slotHead, `slots, tasks
      modifies mem`freeList, mem`free, mem`tlb, mem`cr3, mem.nextFree, mem.refCount, mem.frames
      ensures T.Wft(old(State())) && (!ok <==> T.Create(old(State()), elf, rand) == Panic)
      ensures ok ==> Valid() && T.Create(old(State()), elf, rand) == Ok((State(), outcome))
      ensures ok && old(mem.Coherent()) && old(Loaded(mem.State(), spaces.kd, mem.cr3))
              && old(Suits(mem.State(), spaces.kd, elf))
              ==> mem.Coherent()
    {
      hide IsList, Agrees, NotInTree, T.Alloc, T.Build, T.Wft, ElfLoader.Complete, Loaded, Suits;
      ValidIsWft();
      ghost var s0, good := State(), mem.Coherent() && Loaded(mem.State(), spaces.kd, mem.cr3);
      if good {
        LoadedNotFree(mem.State(), mem.Tables(), spaces.kd, mem.cr3);
      }
      outcome := Alloc(0, rand);
      if !outcome.Created? {
        return true, outcome;
      }
      if good {
        LoadedAlloc(s0, 0, rand);
        UsableKept(s0.v, mem.State(), spaces.kd);
      }
      ok, outcome := Build(outcome.task, elf);
    }

    /** Task::run: switch to task i unless it is current, and enter it. */
    method Run(i: nat)
      requires Valid() && i < T.MAX_TASKS
      modifies `current, `ctl, tasks, mem`cr3, mem`tlb
      ensures Valid() && T.Wft(old(State())) && State() == T.RunTask(old(State()), i)
      ensures old(mem.Coherent()) || old(current) != i ==> mem.Coherent()
    {
      hide IsList, Agrees, T.Wft;
      ValidIsWft();
      if i != current {
        if current != NIL && tasks[current].status == T.Running {
          SetStatus(current, T.Ready);
        }
        SetStatus(i, T.Running);
        current := i;
        mem.LoadCr3(tasks[i].dir);
      }
      ctl := T.User(i);
    }

    method SetStatus(i: nat, st: T.Status)
      requires Valid() && i < T.MAX_TASKS
      modifies tasks
      ensures Valid() && State() == T.SetStatus(old(State()), i, st)
    {
      var t := tasks[i];
      SetTask(i, T.Task(t.id, t.parent, st, t.frame, t.dir));
    }

    /** Task::free of a task that is in use. */
    method Free(i: nat) returns (ok: bool)
      requires Valid() && i < T.MAX_TASKS && i !in slots
      requires T.Wft(State()) ==> !T.FreeTask(State(), i).Cyclic?
      modifies `slotHead, `slots, tasks, nextSlot
      modifies mem`freeList, mem`free, mem`tlb, mem`cr3, mem.nextFree, mem.refCount, mem.frames
      ensures T.Wft(old(State())) && (!ok <==> T.FreeTask(old(State()), i) == Panic)
      ensures ok ==> Valid() && T.FreeTask(old(State()), i) == Ok(State())
      ensures ok && old(mem.Coherent()) && old(Removable(State(), i)) ==> mem.Coherent()
    {
      hide IsList, Agrees, AddressSpaces.FreeSpace, T.Wft, Owned;
      ValidIsWft();
      if i == current {
        mem.LoadCr3(spaces.kd);
      }
      ok := spaces.FreeSpace(tasks[i].dir);
      if !ok {
        return;
      }
      SetStatus(i, T.Unused);
      GiveBack(i);
    }

    /** Slot i goes back to the list. */
    method GiveBack(i: nat)
      requires Valid() && i < T.MAX_TASKS && i !in slots
      modifies `slotHead, `slots, nextSlot
      ensures Valid() && slots == [i] + old(slots)
    {
      hide IsList;
      PushLinks(nextSlot[..], slotHead, slots, i);
      nextSlot[i] := slotHead;
      slotHead := i;
      slots := [i] + slots;
    }

    /** Task::destroy: leave the address space, free the task, and enter the monitor. */
    method Destroy(i: nat) returns (ok: bool)
      requires Valid() && i < T.MAX_TASKS && i !in slots
      requires T.Wft(State()) ==> !T.Destroy(State(), i).Cyclic?
      modifies `slotHead, `slots, `current, `ctl, tasks, nextSlot
      modifies mem`freeList, mem`free, mem`tlb, mem`cr3, mem.nextFree, mem.refCount, mem.frames
      ensures T.Wft(old(State())) && (!ok <==> T.Destroy(old(State()), i) == Panic)
      ensures ok ==> Valid() && T.Destroy(old(State()), i) == Ok(State())
      ensures ok && old(mem.Coherent()) && old(Removable(State(), i)) ==> mem.Coherent()
    {
      hide IsList, Agrees, T.FreeTask, T.Wft, Owned;
      ValidIsWft();
      if i == current {
        current := NIL;
        mem.LoadCr3(spaces.kd);
      }
      ok := Free(i);
      if ok {
        ctl := T.Monitor(None);
      }
    }

    /** Pop the frame that the monitor holds, if any, with the single-step flag set or cleared. */
    method Resume(step: bool)
      requires Valid() && ctl.Monitor?
      modifies `ctl, tasks
      ensures Valid() && T.Wft(old(State())) && State() == T.Resume(old(State()), step)
    {
      hide IsList, T.Wft;
      ValidIsWft();
      if ctl.tf.Some? {
        var i := ctl.tf.value;
        var t := tasks[i];
        SetTask(i, T.Task(t.id, t.parent, t.status, T.Frame(t.frame.eip, t.frame.esp, t.frame.eax, step), t.dir));
        ctl := T.User(i);
      }
    }

    method SaveFrame(i: nat, f: T.Frame)
      requires Valid() && i < T.MAX_TASKS
      modifies tasks
      ensures Valid() && State() == T.SaveFrame(old(State()), i, f)
    {
      var t := tasks[i];
      SetTask(i, T.Task(t.id, t.parent, t.status, f, t.dir));
    }

    /** The task stores a byte. */
    method Store(va: Word, b: Byte) returns (ok: bool)
      requires Valid()
      modifies mem`tlb, mem.frames
      ensures T.Wft(old(State())) && (!ok <==> T.UserStore(old(State()), va, b) == Panic)
      ensures ok ==> Valid() && T.UserStore(old(State()), va, b) == Ok(State())
      ensures old(mem.Coherent()) && old(StoresApart(mem.State(), mem.cr3, va)) ==> mem.Coherent()
    {
      hide IsList, T.Wft, Agrees, OnlyAt, UserMemory.StoreByte;
      ValidIsWft();
      ghost var v0, t0, c := mem.State(), mem.Tables(), mem.cr3;
      if StoresApart(v0, c, va) {
        SameStoresApart(v0, t0, c, va);
      }
      if UserMemory.StoreByte(v0, c, va, b).Ok? {
        StoredIsMapped(v0, t0, c, va, b);
      }
      ok := mem.StoreByte(va, b);
    }

    /** trap::trap from user mode. */
    method Trap(f: T.Frame, t: T.Trap) returns (ok: bool)
      requires Valid() && (current != NIL ==> current !in slots)
      requires T.Wft(State()) ==> !T.HandleTrap(State(), f, t).Cyclic?
      modifies `slotHead, `slots, `current, `ctl, tasks, nextSlot
      modifies mem`freeList, mem`free, mem`tlb, mem`cr3, mem.nextFree, mem.refCount, mem.frames
      ensures T.Wft(old(State())) && (!ok <==> T.HandleTrap(old(State()), f, t) == Panic)
      ensures ok ==> Valid() && T.HandleTrap(old(State()), f, t) == Ok(State())
      ensures ok && old(mem.Coherent())
              && old(current != NIL && Removable(T.SaveFrame(State(), current, f), current))
              ==> mem.Coherent()
    {
      hide IsList, T.Wft, T.Destroy, Removable, UserCheck.Check, UserMemory.Readable;
      ValidIsWft();
      if current == NIL {
        return false;
      }
      var i := current;
      SaveFrame(i, f);
      ok := true;
      match t
      case Syscall(eax) =>
        SaveFrame(i, T.Frame(f.eip, f.esp, eax, f.trapFlag));
        Run(i);
      case PutString(va, count) =>
        var good;
        ok, good := mem.UserCheck(tasks[i].dir, va, count, PTE_U);
        if !ok {
          return;
        }
        if good {
          ok := mem.ReadString(va, count);
          if !ok {
            return;
          }
          SaveFrame(i, T.Frame(f.eip, f.esp, 0, f.trapFlag));
          Run(i);
        } else {
          ok := Destroy(i);
        }
      case Exit =>
        ok := Destroy(i);
      case PageFault =>
        ok := Destroy(i);
      case Break =>
        ctl := T.Monitor(Some(i));
    }
  }
}
