/** The state in which boot leaves the kernel, before and after the self-test of pgdir::init. */
module BootStates {
  import opened Wrappers
  import opened Mmu
  import opened PageTables
  import opened Ownership
  import opened Translation
  import opened Tasks
  import opened TaskInvariant
  import opened RunSafety
  import opened StaleEntries
  import opened StaleMemory
  import opened UserStores
  import opened StaleRuns
  import BootMaps
  import SelfTest
  import StaticMaps

  /** No task, the table of tasks untouched, the monitor in control, the kernel's directory loaded. */
  ghost predicate NoTaskYet(s: State) {
    && |s.tasks| == MAX_TASKS && |s.free| == MAX_TASKS
      && (forall i :: 0 <= i < MAX_TASKS ==> s.free[i] == i && s.tasks[i].status.Unused?)
    && s.current.None? && s.cr3 == s.kd && s.ctl == Monitor(None)
  }

  /** With memory in order, such a state is safe. */
  lemma FirstStateSafe(s: State, role: seq<Role>)
    requires Wft(s) && Inv(s.v, role, s.kd) && NoUserWrites(s.v, s.kd) && NoTasks(role) && NoTaskYet(s)
    ensures KInv(s, role)
  {
    hide Inv, Wf, NoUserWrites;
    forall i | 0 <= i < MAX_TASKS
      ensures i in s.free
    {
      assert s.free[i] == i;
    }
  }

  /** What the maps of boot hand to the self-test. */
  lemma MappedIsUntested(v: Vm, kd: nat, nextFree: nat, b: BootMaps.Image, v1: Vm)
    requires BootMaps.AfterPageInit(v, kd, nextFree) && BootMaps.GoodImage(b) && Wf(v)
        && BootMaps.BootMaps(v, kd, b) == Ok(v1)
    ensures |v.free| >= 131 && Inv(v1, BootMaps.BootRoles(v, nextFree), kd) && SelfTest.Untested(v1, kd)
    ensures v1.free == v.free[131..] && BootMaps.BootMapped(v1, kd, b)
  {
    hide BootMaps.BootMaps, BootMaps.BootFree, BootMaps.BootMapped;
    var r := BootMaps.BootEstablishesOwnership(v, kd, nextFree, b);
    BootMaps.BootTakes(v, kd, nextFree, b);
  }

  /**
   The real boot does not reach a safe state: it leaves the entry for 0x80000000. But it does reach a
   weakly safe one: clearing that entry would make it safe. The page table that the entry names is
   empty, counted once, and not free.
   */
  lemma BootIsWeak(v: Vm, kd: nat, nextFree: nat, b: BootMaps.Image, v1: Vm, s: State)
    requires BootMaps.AfterPageInit(v, kd, nextFree) && BootMaps.GoodImage(b) && Wf(v)
        && BootMaps.BootMaps(v, kd, b) == Ok(v1)
    requires Wf(v1) && kd < |v1.page| && SelfTest.Check(v1, kd) == Ok(s.v) && Wft(s) && s.kd == kd && NoTaskYet(s)
    ensures Weak(s) && !Safe(s)
  {
    hide BootMaps.BootMaps, BootMaps.AfterPageInit, BootMaps.BootMapped, SelfTest.Check, Inv, Marked, KInv,
        NoUserWrites;
    MappedIsUntested(v, kd, nextFree, b, v1);
    SelfTest.CheckNeedsFour(v1, kd);
    var v2 := SelfTest.CheckLeavesEntry(v1, kd);
    var t := v1.free[1];
    var role := BootMaps.BootRoles(v, nextFree);
    TestedMemory(v1, role, kd, v2, t);
    BootGuards(v1, kd, b);
    TestedGuards(v1, role, kd, v2, t);
    FirstStateSafe(LiftState(s, {kd}), role[t := Lost]);
    assert WeakWith(s, {kd}, role[t := Lost], t);
    WeakIsStale(s);
  }

  // Where the Task array lies

  /** Boot works out: the Task array and the 131 page tables lie below 4 MiB, and four frames are left
      for the self-test. */
  predicate BootFits(nextFree: nat, taskSize: Word, nPages: nat) {
    nextFree + taskSize / PGSIZE <= 1024 && 1024 - nextFree >= 131 && nPages - nextFree >= 135
  }

  /** The free list that boot leaves: the self-test has taken frame 891 and exchanged its neighbours. */
  function BootList(nextFree: nat, nPages: nat): (s: seq<nat>)
    requires nextFree <= 890 && 1024 <= nPages
    ensures |s| == nPages - nextFree - 132
  {
    [890, 892] + BootMaps.Down(890, nextFree) + BootMaps.Down(nPages, 1024)
  }

  lemma BootLeavesList(v: Vm, kd: nat, nextFree: nat, b: BootMaps.Image, v1: Vm, v2: Vm)
    requires BootMaps.AfterPageInit(v, kd, nextFree) && BootMaps.GoodImage(b) && Wf(v) && nextFree <= 889
        && BootMaps.BootMaps(v, kd, b) == Ok(v1)
    requires Wf(v1) && kd < |v1.page| && SelfTest.Check(v1, kd) == Ok(v2)
    ensures v2.free == BootList(nextFree, |v.page|)
  {
    assert v.free == BootMaps.BootFree(nextFree, |v.page|) && |v.page| >= 1024;
    hide BootMaps.BootMaps, SelfTest.Check, Inv, BootMaps.BootFree, BootMaps.BootMapped, BootMaps.AfterPageInit;
    MappedIsUntested(v, kd, nextFree, b, v1);
    SelfTest.CheckNeedsFour(v1, kd);
    var v3 := SelfTest.CheckLeavesEntry(v1, kd);
    ListAfter(nextFree, |v.page|);
  }

  lemma ListAfter(nextFree: nat, nPages: nat)
    requires nextFree <= 889 && 1024 <= nPages
    ensures var s := BootMaps.BootFree(nextFree, nPages);
            |s| >= 135 && [s[131..][2], s[131..][0]] + s[131..][3..] == BootList(nextFree, nPages)
  {
    var s := BootMaps.BootFree(nextFree, nPages);
    var t := [s[131..][2], s[131..][0]] + s[131..][3..];
    assert forall i :: 2 <= i < |t| ==> t[i] == s[132 + i];
  }

  /** The frames of a Task array of n frames. */
  predicate InArray(nextFree: nat, n: nat, f: nat) {
    nextFree <= f < nextFree + n
  }

  function ArrayFrames(nextFree: nat, n: nat): (a: set<nat>)
    ensures forall f: nat :: f in a <==> InArray(nextFree, n, f)
  {
    set f: nat | f < nextFree + n && InArray(nextFree, n, f)
  }

  /** The array shares a frame with the page tables or with the frames of the self-test exactly if it
      reaches frame 890. */
  lemma BootOverlapsIff(v: Vm, kd: nat, nextFree: nat, n: nat)
    requires BootMaps.AfterPageInit(v, kd, nextFree) && n > 0 && nextFree + n <= 1024
    requires 1024 - nextFree >= 131 && |v.free| >= 134
    ensures (exists f :: f in v.free[..134] && InArray(nextFree, n, f)) <==> nextFree + n > 890
  {
    assert v.free == BootMaps.Down(1024, nextFree) + BootMaps.Down(|v.page|, 1024);
    if nextFree + n > 890 {
      var f := nextFree + n - 1;
      assert v.free[..134][1023 - f] == f;
      assert f in v.free[..134] && InArray(nextFree, n, f);
    } else {
      assert forall i :: 0 <= i < 134 ==> v.free[..134][i] == 1023 - i;
    }
  }

  /** Otherwise all its frames are on the list that boot leaves, and the first one comes after as many
      frames as lie between the array and frame 892. */
  lemma ArrayPlace(nextFree: nat, n: nat, nPages: nat)
    requires n > 0 && nextFree + n <= 890 && 1024 <= nPages
    ensures var s := BootList(nextFree, nPages); var k := 892 - (nextFree + n);
            && k < |s| && InArray(nextFree, n, s[k]) && (forall i :: 0 <= i < k ==> !InArray(nextFree, n, s[i]))
            && (forall f: nat :: InArray(nextFree, n, f) ==> f in s)
  {
    var s := BootList(nextFree, nPages);
    forall f: nat | InArray(nextFree, n, f)
      ensures f in s
    {
      assert s[891 - f] == f;
    }
  }

  /**
   What the run theorems need of the Task array does not hold after the real boot, even with the
   stale entry cleared: the frames of the array below number 891 are on the free list, so a task can
   be given them.
   */
  lemma TaskArrayNotReserved(v: Vm, kd: nat, nextFree: nat, b: BootMaps.Image, v1: Vm, s: State, next: Word,
      size: Word, a: Word)
    requires BootMaps.AfterPageInit(v, kd, nextFree) && BootMaps.GoodImage(b) && Wf(v)
        && BootMaps.BootMaps(v, kd, b) == Ok(v1)
    requires Wf(v1) && kd < |v1.page| && SelfTest.Check(v1, kd) == Ok(s.v) && 1024 - nextFree >= 131
    requires next == KERNBASE + nextFree * PGSIZE && size > 0
    requires BootMaps.BootAlloc(next, size).1 <= a < BootMaps.BootAlloc(next, size).1 + size
    requires Pgnum(a - KERNBASE) < 891
    ensures !SafeWith(LiftState(s, {kd}), {Pgnum(a - KERNBASE)})
  {
    var f := Pgnum(a - KERNBASE);
    BootMaps.TaskArrayIsFree(v, kd, nextFree, next, size, a);
    hide BootMaps.BootMaps, SelfTest.Check, BootMaps.BootFree, SafeWith, Inv;
    MappedIsUntested(v, kd, nextFree, b, v1);
    SelfTest.CheckNeedsFour(v1, kd);
    var v2 := SelfTest.CheckLeavesEntry(v1, kd);
    SecondFrame(v, kd, nextFree);
    TestedFrees(v1.free);
    FreeFrameNotReserved(LiftState(s, {kd}), f);
  }

  /** The frame that the self-test keeps as a page table. */
  lemma SecondFrame(v: Vm, kd: nat, nextFree: nat)
    requires BootMaps.AfterPageInit(v, kd, nextFree) && |v.free| >= 135 && 1024 - nextFree >= 131
    ensures v.free[131..][1] >= 891 && forall i, j :: 0 <= i < j < |v.free[131..]| ==>
        v.free[131..][i] != v.free[131..][j]
  {
    BootMaps.BootFreeExact(nextFree, |v.page|);
    assert forall i :: 0 <= i < |v.free[131..]| ==> v.free[131..][i] == v.free[131 + i];
  }

  lemma TestedMemory(v: Vm, role: seq<Role>, kd: nat, v': Vm, t: nat)
    requires Inv(v, role, kd) && (forall f :: 0 <= f < |role| ==> role[f].Kernel? || role[f].Free?)
    requires |v.free| >= 4 && t == v.free[1] && t < |role| && |v'.page| == |v.page|
    requires v'.free == [v.free[2], v.free[0]] + v.free[3..] && v'.rc == v.rc[t := 1]
        && SelfTest.Serves(v', kd, v.page[kd], t, 0)
    ensures Inv(Lift(v', {kd}), role[t := Lost], kd) && Marked(v', {kd}, role[t := Lost], kd, t)
    ensures NoTasks(role[t := Lost])
  {
    TestedFrees(v.free);
    assert t in v.free && role[t].Free?;
    TestedDirectory(v, role, kd, v', t);
    var u, role' := Lift(v', {kd}), role[t := Lost];
    assert v'.page[t] == ZeroPage();
    hide Mappings, Lift, ZeroPage;
    assert FreeAgrees(u, role') && CountsAgree(u, role');
  }

  /** The windows of boot are for the kernel to write or for the user to read, never both. */
  lemma BootGuards(v: Vm, kd: nat, b: BootMaps.Image)
    requires BootMaps.BootMapped(v, kd, b) && BootMaps.GoodImage(b)
    ensures NoUserWrites(v, kd)
  {
    assert kd < |v.page|;
    hide Leaf, BootMaps.BootMapped, BootMaps.GoodImage, UserWritable;
    forall x: nat, y: nat | UTOPX <= x < 1024 && x != UVPTX && y < 1024 && Leaf(v, kd, x, y).Some?
      ensures !UserWritable(Leaf(v, kd, x, y).value)
    {
      NotOutside(v, kd, b, x, y);
      WindowEntry(v, kd, b, x, y);
    }
  }

  lemma NotOutside(v: Vm, kd: nat, b: BootMaps.Image, x: nat, y: nat)
    requires BootMaps.BootMapped(v, kd, b) && x < 1024 && x != UVPTX && y < 1024 && Leaf(v, kd, x, y).Some?
    ensures !BootMaps.Outside(4, StaticMaps.Pages(b.taskSize), x, y)
  {
    hide Leaf;
  }

  lemma WindowEntry(v: Vm, kd: nat, b: BootMaps.Image, x: nat, y: nat)
    requires BootMaps.BootMapped(v, kd, b) && BootMaps.GoodImage(b)
    requires x < 1024 && x != UVPTX && y < 1024 && !BootMaps.Outside(4, StaticMaps.Pages(b.taskSize), x, y)
    ensures Leaf(v, kd, x, y).Some? && !UserWritable(Leaf(v, kd, x, y).value)
  {
    BootPageNumbers();
    hide Leaf, Pgnum;
    FlagBits(Leaf(v, kd, x, y).value);
  }

  lemma BootPageNumbers()
    ensures Pgnum(UENVS) == 0xDEC00 && Pgnum(UPAGES) == 0xDF000
    ensures Pgnum(KSTACKTOP - KSTKSIZE) == 0xDFFF8 && Pgnum(KERNBASE) == 0xE0000
  {
  }

  lemma TestedGuards(v: Vm, role: seq<Role>, kd: nat, v': Vm, t: nat)
    requires Inv(v, role, kd) && NoUserWrites(v, kd) && |v.free| >= 4 && t == v.free[1]
    requires SelfTest.Serves(v', kd, v.page[kd], t, 0)
    requires SelfTest.WritesOnly(v, v', {kd, v.free[0], v.free[1], v.free[2]})
    ensures NoUserWrites(Lift(v', {kd}), kd)
  {
    assert v.free[0] in v.free && v.free[1] in v.free && v.free[2] in v.free;
    var u := Lift(v', {kd});
    forall x: nat, y: nat | UTOPX <= x < 1024 && x != UVPTX && y < 1024 && Leaf(u, kd, x, y).Some?
      ensures !UserWritable(Leaf(u, kd, x, y).value)
    {
      assert u.page[kd][x] == v.page[kd][x];
      assert IsDir(role, kd, kd);
      Target(v, role, kd, kd, x);
      assert Leaf(u, kd, x, y) == Leaf(v, kd, x, y);
    }
  }

  lemma TestedFrees(s: seq<nat>)
    requires |s| >= 4 && forall i, j :: 0 <= i < j < |s| ==> s[i] != s[j]
    ensures forall f :: f in [s[2], s[0]] + s[3..] <==> f in s && f != s[1]
  {
    assert s == [s[0], s[1], s[2]] + s[3..];
    assert forall i :: 0 <= i < |s[3..]| ==> s[3..][i] == s[i + 3];
  }

  lemma TestedDirectory(v: Vm, role: seq<Role>, kd: nat, v': Vm, t: nat)
    requires Inv(v, role, kd) && |v'.page| == |v.page| && t < |role| && role[t].Free?
        && SelfTest.Serves(v', kd, v.page[kd], t, 0)
    ensures KernelHalf(Lift(v', {kd}), role[t := Lost], kd)
  {
    assert Lift(v', {kd}).page[kd] == v.page[kd][STALEX := MakePte(t, PTE_P + PTE_W + PTE_U)][STALEX := 0];
  }
}
