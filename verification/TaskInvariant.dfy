/**
 What every step of the kernel keeps: exact ownership of memory, the partition of the task slots,
 and run safety (one running task, which is current and whose directory is loaded).
 */
module TaskInvariant {
  import opened Wrappers
  import opened Mmu
  import opened PageTables
  import opened Ownership
  import opened Translation
  import opened OwnershipSteps
  import opened Isolation
  import opened AddressSpaces
  import opened AddressSpaceSteps
  import opened TaskTeardown
  import opened RegionSteps
  import opened UserMemory
  import opened Regions
  import opened ElfLoader
  import opened Tasks
  import opened UserStores
  import UserCheck

  /** The slots on the free list are exactly the unused ones, each once, and the id of a live task
      ends in its slot number. */
  ghost predicate SlotsAgree(s: State)
    requires Wft(s)
  {
    && (forall i, j :: 0 <= i < j < |s.free| ==> s.free[i] != s.free[j])
    && (forall i :: 0 <= i < MAX_TASKS ==> (s.tasks[i].status.Unused? <==> i in s.free))
    && (forall i :: 0 <= i < MAX_TASKS && !s.tasks[i].status.Unused? ==> s.tasks[i].id % MAX_TASKS == i)
  }

  /** Each live task has a directory of its own, and there are no other task directories. */
  ghost predicate DirsAgree(s: State, role: seq<Role>)
    requires Wft(s) && |role| == |s.v.page|
  {
    && (forall i :: 0 <= i < MAX_TASKS && !s.tasks[i].status.Unused? ==> role[s.tasks[i].dir] == Dir(i))
    && (forall d :: 0 <= d < |role| && role[d].Dir? ==>
        role[d].owner < MAX_TASKS && !s.tasks[role[d].owner].status.Unused? && s.tasks[role[d].owner].dir == d)
  }

  /** At most the current task is running; CR3 is its directory, or the kernel's if there is none;
      user mode and the monitor's frame belong to the current task. */
  ghost predicate RunSafe(s: State)
    requires Wft(s)
  {
    && RunningAgrees(s)
    && (if s.current.Some? then s.cr3 == s.tasks[s.current.value].dir else s.cr3 == s.kd)
  }

  ghost predicate RunningAgrees(s: State)
    requires Wft(s)
  {
    && (forall i :: 0 <= i < MAX_TASKS ==> (s.tasks[i].status.Running? <==> s.current == Some(i)))
    && (s.ctl.User? ==> s.current == Some(s.ctl.task))
    && (s.ctl.Monitor? && s.ctl.tf.Some? ==> s.current == s.ctl.tf)
  }

  ghost predicate KInv(s: State, role: seq<Role>) {
    Wft(s) && Inv(s.v, role, s.kd) && Guarded(s.v, role, s.kd) && SlotsAgree(s) && DirsAgree(s, role) && RunSafe(s)
  }

  /** Run safety in one sentence: whenever a user frame is popped, the popped task is the only
      running one, it is current, and CR3 is its directory, which is not a free frame. */
  lemma UserModeIsSafe(s: State, role: seq<Role>)
    requires KInv(s, role) && s.ctl.User?
    ensures s.ctl.task < MAX_TASKS && s.current == Some(s.ctl.task)
    ensures forall i :: 0 <= i < MAX_TASKS ==> (s.tasks[i].status.Running? <==> i == s.ctl.task)
    ensures s.cr3 == s.tasks[s.ctl.task].dir && s.cr3 < |role| && role[s.cr3] == Dir(s.ctl.task) && s.cr3 !in s.v.free
  {
  }

  /** CR3 always names the kernel's directory or a live task's. */
  lemma Cr3IsLive(s: State, role: seq<Role>)
    requires KInv(s, role)
    ensures IsDir(role, s.kd, s.cr3) && s.cr3 !in s.v.free
  {
    if s.current.Some? {
      assert s.tasks[s.current.value].status.Running?;
    }
  }

  /** Live ids are pairwise different, whatever the random numbers were. */
  lemma LiveIdsDistinct(s: State, role: seq<Role>, i: nat, j: nat)
    requires KInv(s, role) && i < MAX_TASKS && j < MAX_TASKS && i != j
    requires !s.tasks[i].status.Unused? && !s.tasks[j].status.Unused?
    ensures s.tasks[i].id != s.tasks[j].id
  {
    assert s.tasks[i].id % MAX_TASKS == i;
    assert s.tasks[j].id % MAX_TASKS == j;
  }

  // Task::alloc

  /** Taking the head of the free list for a live task keeps the slots partitioned. */
  lemma TakeSlot(s: State, s': State)
    requires Wft(s) && SlotsAgree(s) && Wft(s') && s.free != [] && s'.free == s.free[1..]
    requires s'.tasks == s.tasks[s.free[0] := s'.tasks[s.free[0]]]
    requires !s'.tasks[s.free[0]].status.Unused? && s'.tasks[s.free[0]].id % MAX_TASKS == s.free[0]
    ensures s.tasks[s.free[0]].status.Unused? && s.free == [s.free[0]] + s'.free && SlotsAgree(s')
  {
    var i, t := s.free[0], s.free[1..];
    assert s.free == [i] + t;
    assert forall k :: 0 <= k < |t| ==> t[k] == s.free[k + 1];
    assert forall j :: j in t <==> j in s.free && j != i;
    assert i in s.free;
  }

  lemma AllocSlots(s: State, parent: Word, rand: Word)
    requires Wft(s) && SlotsAgree(s) && Alloc(s, parent, rand).1.Created?
    ensures s.free != [] && Alloc(s, parent, rand).1.task == s.free[0] && s.tasks[s.free[0]].status.Unused?
    ensures SlotsAgree(Alloc(s, parent, rand).0)
  {
    hide SetupMemory;
    TakeSlot(s, Alloc(s, parent, rand).0);
  }

  /** A failing alloc for lack of frames loses its slot, and only that; otherwise the slots stay
      partitioned. */
  lemma AllocPartitionIff(s: State, parent: Word, rand: Word)
    requires Wft(s) && SlotsAgree(s)
    ensures SlotsAgree(Alloc(s, parent, rand).0) <==> s.free == [] || s.v.free != []
  {
    if s.free != [] && s.v.free == [] {
      var s1 := Alloc(s, parent, rand).0;
      var i := s.free[0];
      assert s.free == [i] + s.free[1..];
      assert i in s.free && s1.tasks[i].status.Unused?;
      assert forall k :: 0 <= k < |s1.free| ==> s1.free[k] == s.free[k + 1];
      assert i !in s1.free;
    } else if s.free != [] {
      AllocSlots(s, parent, rand);
    }
  }

  lemma AllocKeeps(s: State, role: seq<Role>, parent: Word, rand: Word, s1: State, i: nat)
    returns (role1: seq<Role>, f: nat)
    requires KInv(s, role) && Alloc(s, parent, rand) == (s1, Created(i))
    ensures f < |role| && role[f].Free? && role1 == role[f := Dir(i)]
    ensures i < MAX_TASKS && s.tasks[i].status.Unused? && s1.tasks[i].status.Ready? && s1.tasks[i].dir == f
    ensures Wft(s1) && Inv(s1.v, role1, s1.kd) && SlotsAgree(s1) && DirsAgree(s1, role1) && RunSafe(s1)
    ensures s.v.free != [] && f == s.v.free[0] && s1.v == SetupMemory(s.v, s.kd).0
    ensures s.free == [i] + s1.free && s1.tasks == s.tasks[i := s1.tasks[i]]
    ensures s1.kd == s.kd && s1.current == s.current && s1.ctl == s.ctl && s1.cr3 == s.cr3
    ensures s1.tasks[i] == FreshTask(rand, parent, i, f)
  {
    AllocSlots(s, parent, rand);
    var v1: Vm;
    v1, f := SetupKeepsInv(s.v, role, s.kd, i);
    role1 := role[f := Dir(i)];
    hide Inv, SetupMemory;
  }

  // Task::create

  /** The state right after create: CR3 holds the kernel's directory, whatever task is current. */
  ghost predicate KInvButCr3(s: State, role: seq<Role>) {
    Wft(s) && Inv(s.v, role, s.kd) && Guarded(s.v, role, s.kd) && SlotsAgree(s) && DirsAgree(s, role)
      && RunningAgrees(s)
  }

  /** A directory without pages that no task names any more keeps its one count for ever. */
  lemma OrphanDir(v: Vm, role: seq<Role>, kd: nat, d: nat)
    requires Inv(v, role, kd) && d < |role| && role[d].Dir?
    requires forall x: nat :: x < UTOPX ==> !Present(v.page[d][x])
    ensures Inv(v, role[d := Lost], kd)
  {
    var role' := role[d := Lost];
    forall g | 0 <= g < |role|
      ensures Mappings(v, role', g) == Mappings(v, role, g)
    {
      SameUserMappings(v, role, v, role', g);
    }
    OrphanPages(v, role, kd, d);
    hide TablesAgree, DataAgrees, KernelHalf, HalvesAgree, Mappings;
  }

  lemma OrphanPages(v: Vm, role: seq<Role>, kd: nat, d: nat)
    requires Inv(v, role, kd) && d < |role| && role[d].Dir?
    requires forall x: nat :: x < UTOPX ==> !Present(v.page[d][x])
    ensures var role' := role[d := Lost];
            TablesAgree(v, role') && DataAgrees(v, role') && KernelHalf(v, role', kd) && HalvesAgree(v, role', kd)
  {
    hide CountsAgree, FreeAgrees, Wf;
  }

  /** The two directories that create sets up: the first one is lost at once. */
  lemma CreateSpaces(v: Vm, role: seq<Role>, kd: nat, i: nat)
    returns (v1: Vm, f1: nat, r: Option<(Vm, nat)>, role2: seq<Role>)
    requires Inv(v, role, kd) && v.free != []
    ensures SetupMemory(v, kd) == (v1, Some(f1)) && f1 == v.free[0] < |role| && role[f1].Free? && Wf(v1)
        && |v1.page| == |v.page|
    ensures r.None? <==> v1.free == []
    ensures r.None? ==> SetupMemory(v1, kd) == (v1, None)
    ensures r.Some? ==>
              var v2, f2 := r.value.0, r.value.1;
              && SetupMemory(v1, kd) == (v2, Some(f2)) && f2 < |role| && f2 != f1 && role[f2].Free?
              && role2 == role[f1 := Lost][f2 := Dir(i)]
              && OwnSpace(v2, role2, kd, f2) && Empty(v2, f2)
              && SameWalks(v, role, kd, v2, f2)
              && forall g :: 0 <= g < |role| && g != f1 && g != f2 ==> v2.page[g] == v.page[g]
  {
    v1, f1 := SetupKeepsInv(v, role, kd, i);
    var role1 := role[f1 := Lost];
    SetupIsEmpty(v, role, kd, v1, f1);
    OrphanDir(v1, role[f1 := Dir(i)], kd, f1);
    assert role[f1 := Dir(i)][f1 := Lost] == role1;
    role2 := role1;
    if v1.free == [] {
      r := None;
    } else {
      var v2, f2 := SetupKeepsInv(v1, role1, kd, i);
      r := Some((v2, f2));
      role2 := role1[f2 := Dir(i)];
      hide Inv, SetupMemory;
      EmptyOwnSpace(v2, role2, kd, f2);
      CreateWalks(v, role, kd, v1, role1, v2, f2);
    }
  }

  lemma SetupIsEmpty(v: Vm, role: seq<Role>, kd: nat, v1: Vm, f: nat)
    requires Inv(v, role, kd) && v.free != [] && SetupMemory(v, kd) == (v1, Some(f))
    ensures |v1.page| == |v.page| && forall x: nat :: x < UTOPX ==> !Present(v1.page[f][x])
  {
    var v2, f2 := SetupForm(v, role, kd);
  }

  lemma EmptyOwnSpace(v: Vm, role: seq<Role>, kd: nat, d: nat)
    requires Inv(v, role, kd) && d < |role| && role[d].Dir?
    requires forall i: nat, j: nat :: i < UTOPX && j < 1024 ==> Leaf(v, d, i, j).None?
    ensures OwnSpace(v, role, kd, d) && Empty(v, d)
  {
    LayoutIndexes();
  }

  lemma CreateWalks(v: Vm, role: seq<Role>, kd: nat, v1: Vm, role1: seq<Role>, v2: Vm, d: nat)
    requires |role| == |role1| == |v.page| == |v1.page| == |v2.page|
    requires forall c :: 0 <= c < |role| && role[c].Dir? ==> role1[c].Dir?
    requires forall c: nat, i: nat, j: nat :: IsDir(role, kd, c) && i < 1024 && j < 1024 ==>
        Leaf(v1, c, i, j) == Leaf(v, c, i, j)
    requires forall c: nat, i: nat, j: nat :: IsDir(role1, kd, c) && i < 1024 && j < 1024 ==>
        Leaf(v2, c, i, j) == Leaf(v1, c, i, j)
    ensures SameWalks(v, role, kd, v2, d)
  {
    forall c: nat, i: nat, j: nat | c != d && IsDir(role, kd, c) && i < 1024 && j < 1024
      ensures Leaf(v2, c, i, j) == Leaf(v, c, i, j)
    {
      assert IsDir(role1, kd, c);
      assert Leaf(v1, c, i, j) == Leaf(v, c, i, j);
    }
  }

  /** The memory of a created task: its program's image, in a space of its own. */
  ghost predicate Built(v: Vm, role: seq<Role>, kd: nat, v': Vm, role': seq<Role>, f1: nat, f2: nat, i: nat, elf: Elf)
    requires Complete(elf)
  {
    && |role'| == |role| == |v'.page| && f1 < |role| && f2 < |role| && f1 != f2
    && role[f1].Free? && role[f2].Free? && role'[f1] == Lost && role'[f2] == Dir(i)
    && OnlyChurn(role[f1 := Lost][f2 := Dir(i)], role', f2)
    && OwnSpace(v', role', kd, f2)
    && SameWalks(v, role, kd, v', f2) && SameContents(v, role, v', f2)
    && forall a: Word :: a < UTOP ==> Read(v', f2, a) == FinalByte(elf, a)
  }

  /** Loading the program into the second directory. */
  lemma BuildImage(v: Vm, role: seq<Role>, kd: nat, i: nat, elf: Elf, v2: Vm, role2: seq<Role>, f1: nat, f2: nat)
    returns (r: Res<Vm>, role': seq<Role>)
    requires Inv(v, role, kd) && WellFormed(elf) && f1 < |role| && f2 < |role| && f1 != f2 && role[f1].Free?
        && role[f2].Free?
    requires role2 == role[f1 := Lost][f2 := Dir(i)] && OwnSpace(v2, role2, kd, f2) && Empty(v2, f2)
    requires SameWalks(v, role, kd, v2, f2)
    requires forall g :: 0 <= g < |role| && g != f1 && g != f2 ==> v2.page[g] == v.page[g]
    ensures LoadElf(v2, f2, elf) == r && !r.Cyclic?
    ensures r.Ok? ==> Built(v, role, kd, r.value, role', f1, f2, i, elf)
  {
    hide Inv, OwnPages, LoadElf, Read, FinalByte, Walk, SameWalks, SameContents;
    r, role' := LoadElfImage(v2, role2, kd, f2, elf);
    if r.Ok? {
      DataKeptIsContents(v, role, kd, v2, f2);
      IsolatedFrom(v, role, kd, v2, role2, r.value, role', f2);
    }
  }

  /** Isolation composes across the set-up, which adds one directory and loses one frame. */
  lemma IsolatedFrom(v: Vm, role: seq<Role>, kd: nat, v2: Vm, role2: seq<Role>, v': Vm, role': seq<Role>, d: nat)
    requires SameWalks(v, role, kd, v2, d) && SameContents(v, role, v2, d)
    requires |role2| == |role| && forall c :: 0 <= c < |role| && role[c].Dir? ==> role2[c].Dir?
    requires forall c :: 0 <= c < |role| && (role[c].Kernel? || role[c].Lost?) ==> role2[c] == role[c]
    requires Isolated(v2, role2, kd, v', role', d)
    ensures SameWalks(v, role, kd, v', d) && SameContents(v, role, v', d)
  {
    forall c: nat, i: nat, j: nat | c != d && IsDir(role, kd, c) && i < 1024 && j < 1024
      ensures Leaf(v', c, i, j) == Leaf(v, c, i, j)
    {
      assert IsDir(role2, kd, c);
      assert Leaf(v2, c, i, j) == Leaf(v, c, i, j);
    }
    forall c: nat, i: nat, j: nat, g: nat |
      c < |role| && c != d && role[c].Dir? && i < UTOPX && j < 1024 && g < |role| && Maps(v, c, i, j, g)
      ensures v'.page[g] == v.page[g]
    {
      assert IsDir(role, kd, c) && role2[c].Dir?;
      assert Leaf(v2, c, i, j) == Leaf(v, c, i, j);
      assert Maps(v2, c, i, j, g);
    }
  }

  /** What create does when it returns a task. */
  ghost predicate CreatedWell(s: State, role: seq<Role>, elf: Elf, rand: Word, s1: State, i: nat, role': seq<Role>,
      f1: nat)
    requires Complete(elf) && Wft(s)
  {
    && KInvButCr3(s1, role') && s1.kd == s.kd == s1.cr3
    && i < MAX_TASKS && s.tasks[i].status.Unused? && s1.tasks == s.tasks[i := s1.tasks[i]] && s.free == [i] + s1.free
    && s1.tasks[i] == Task(FreshId(rand, i), 0, Ready, Frame(elf.entry, USTACKTOP, 0, false), s1.tasks[i].dir)
    && s1.current == s.current && s1.ctl == s.ctl
    && Built(s.v, role, s.kd, s1.v, role', f1, s1.tasks[i].dir, i, elf)
  }

  lemma CreateKeeps(s: State, role: seq<Role>, elf: Elf, rand: Word)
    returns (r: Res<(State, Outcome)>, role': seq<Role>, f1: nat)
    requires KInv(s, role) && WellFormed(elf)
    ensures Create(s, elf, rand) == r && !r.Cyclic?
    ensures r.Ok? && r.value.1.Created? ==>
              s.v.free != [] && f1 == s.v.free[0] && CreatedWell(s, role, elf, rand, r.value.0, r.value.1.task,
                role', f1)
  {
    r, role', f1 := Create(s, elf, rand), role, 0;
    var a := Alloc(s, 0, rand);
    CreateCases(s, elf, rand);
    if a.1.Created? {
      var s1, i := a.0, a.1.task;
      AllocSlots(s, 0, rand);
      AllocHasFrames(s, 0, rand);
      hide Create, Inv, SetupMemory, SlotsAgree, DirsAgree, RunSafe, Alloc;
      var v1, f, m, role2 := CreateSpaces(s.v, role, s.kd, i);
      f1 := f;
      if m.Some? {
        var q, role3 := BuildImage(s.v, role, s.kd, i, elf, m.value.0, role2, f1, m.value.1);
        if q.Ok? {
          role' := role3;
          CreateForm(s, elf, rand, s1, i, v1, f1, m.value.0, m.value.1, q.value);
          CreatedAgrees(s, role, elf, rand, i, q.value, role', f1, m.value.1, r.value.0);
        }
      }
    }
  }

  /** How create can end without a task. */
  lemma CreateCases(s: State, elf: Elf, rand: Word)
    requires Wft(s) && Complete(elf)
    ensures !Alloc(s, 0, rand).1.Created? ==> Create(s, elf, rand) == Ok(Alloc(s, 0, rand))
    ensures Alloc(s, 0, rand).1.Created? ==>
              var m := SetupMemory(SetupMemory(s.v, s.kd).0, s.kd);
              && (m.1.None? ==> Create(s, elf, rand).Ok? && Create(s, elf, rand).value.1.NoMemory?)
              && (m.1.Some? && !LoadElf(m.0, m.1.value, elf).Ok? ==>
                Create(s, elf, rand) == LoadElf(m.0, m.1.value, elf).Failed())
  {
    hide SetupMemory, LoadElf;
  }

  lemma AllocHasFrames(s: State, parent: Word, rand: Word)
    requires Wft(s) && Alloc(s, parent, rand).1.Created?
    ensures s.v.free != []
  {
  }

  /** The state that create returns, field by field. */
  lemma CreateForm(s: State, elf: Elf, rand: Word, s1: State, i: nat, v1: Vm, f1: nat, v2: Vm, f2: nat, v': Vm)
    requires Wft(s) && Complete(elf) && Alloc(s, 0, rand) == (s1, Created(i))
    requires SetupMemory(s.v, s.kd) == (v1, Some(f1)) && SetupMemory(v1, s.kd) == (v2, Some(f2))
        && LoadElf(v2, f2, elf) == Ok(v')
    ensures Create(s, elf, rand).Ok? && Create(s, elf, rand).value.1 == Created(i)
    ensures s.free != [] && i == s.free[0] < MAX_TASKS
    ensures Create(s, elf, rand).value.0 ==
              State(v', s.kd, s.tasks[i := Task(FreshId(rand, i), 0, Ready, Frame(elf.entry, USTACKTOP, 0, false), f2)],
                    s.free[1..], s.current, s.kd, s.ctl)
  {
    hide SetupMemory, LoadElf;
    assert s1.v == v1 && s1.kd == s.kd;
  }

  lemma CreatedAgrees(s: State, role: seq<Role>, elf: Elf, rand: Word, i: nat, v': Vm, role': seq<Role>, f1: nat,
      f2: nat, s': State)
    requires KInv(s, role) && Complete(elf) && Wft(s') && s.free != [] && i == s.free[0] < MAX_TASKS
    requires Built(s.v, role, s.kd, v', role', f1, f2, i, elf)
    requires s' == State(v', s.kd, s.tasks[i := Task(FreshId(rand, i), 0, Ready,
        Frame(elf.entry, USTACKTOP, 0, false), f2)],
                         s.free[1..], s.current, s.kd, s.ctl)
    ensures CreatedWell(s, role, elf, rand, s', i, role', f1)
  {
    hide Inv, OwnPages, SameWalks, SameContents, Read, FinalByte, Guarded;
    TakeSlot(s, s');
    CreatedDirs(s, role, s', role', f1, f2, i);
    StaysGuarded(s.v, role, s.kd, v', role', f2);
  }

  lemma CreatedDirs(s: State, role: seq<Role>, s': State, role': seq<Role>, f1: nat, f2: nat, i: nat)
    requires Wft(s) && Wft(s') && |role| == |s.v.page| == |s'.v.page| && DirsAgree(s, role)
    requires i < MAX_TASKS && s.tasks[i].status.Unused? && s'.tasks == s.tasks[i := s'.tasks[i]]
    requires f1 < |role| && f2 < |role| && f1 != f2 && role[f1].Free? && role[f2].Free?
    requires |role'| == |role| && OnlyChurn(role[f1 := Lost][f2 := Dir(i)], role', f2)
    requires s'.tasks[i].dir == f2 && !s'.tasks[i].status.Unused?
    ensures DirsAgree(s', role')
  {
  }
}
