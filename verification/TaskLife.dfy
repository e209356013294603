/** Conservation over a task's life: what is given back when a task ends. */
module TaskLife {
  import opened Wrappers
  import opened Mmu
  import opened PageTables
  import opened Ownership
  import opened Translation
  import opened OwnershipSteps
  import opened Isolation
  import opened AddressSpaces
  import opened AddressSpaceSteps
  import opened RegionSteps
  import opened Regions
  import opened Exactness
  import opened ElfLoader
  import opened Tasks
  import opened TaskInvariant
  import opened RunSafety

  datatype Region = Region(va: Word, len: Word)

  /** Any number of regionAlloc calls. */
  function RegionAllocs(v: Vm, d: nat, rs: seq<Region>): (r: Res<Vm>)
    requires Wf(v) && d < |v.page|
    ensures r.Ok? ==> SameShape(v, r.value)
    decreases |rs|
  {
    if rs == [] then Ok(v)
    else
      var r := RegionAlloc(v, d, rs[0].va, rs[0].len);
      if r.Ok? then RegionAllocs(r.value, d, rs[1..]) else r
  }

  lemma {:induction false} RegionAllocsSteps(v: Vm, role: seq<Role>, kd: nat, d: nat, rs: seq<Region>)
    returns (r: Res<Vm>, role': seq<Role>)
    requires OwnSpace(v, role, kd, d)
    requires forall i :: 0 <= i < |rs| ==> rs[i].len > 0 && BelowUtop(rs[i].va, rs[i].len)
    ensures RegionAllocs(v, d, rs) == r && !r.Cyclic?
    ensures r.Ok? ==> OwnSpace(r.value, role', kd, d) && Isolated(v, role, kd, r.value, role', d) && role'[d] == role[d]
    decreases |rs|
  {
    if rs == [] {
      r, role' := Ok(v), role;
      IsolatedRefl(v, role, kd, d);
    } else {
      hide Inv, Isolated, OwnPages, RegionAlloc;
      r, role' := RegionAllocSteps(v, role, kd, d, rs[0].va, rs[0].len);
      if r.Ok? {
        var v1, role1 := r.value, role';
        assert forall i :: 0 <= i < |rs[1..]| ==> rs[1..][i] == rs[i + 1];
        r, role' := RegionAllocsSteps(v1, role1, kd, d, rs[1..]);
        if r.Ok? {
          IsolatedTrans(v, role, kd, v1, role1, r.value, role', d);
        }
      }
    }
  }

  /** The memory that is free, and every count outside of the kernel, is as it was. */
  ghost predicate GivenBack(v0: Vm, v1: Vm, role: seq<Role>) {
    && |v0.rc| == |v1.rc| == |role|
    && (forall f :: f in v1.free <==> f in v0.free)
    && (forall f :: 0 <= f < |role| && !role[f].Kernel? ==> v1.rc[f] == v0.rc[f])
  }

  /**
   A task that is allocated, given any regions below UTOP, and freed leaves nothing behind: the
   same frames are free, all counts and all other tasks are as before, and so is the list of free
   slots.
   */
  lemma {:induction false} LifeConserves(s0: State, role0: seq<Role>, parent: Word, rand: Word, rs: seq<Region>,
      s1: State, i: nat, v2: Vm)
    returns (s3: State)
    requires KInv(s0, role0) && Alloc(s0, parent, rand) == (s1, Created(i))
    requires forall k :: 0 <= k < |rs| ==> rs[k].len > 0 && BelowUtop(rs[k].va, rs[k].len)
    requires RegionAllocs(s1.v, s1.tasks[i].dir, rs) == Ok(v2)
    ensures Wft(SetMemory(s1, v2)) && FreeTask(SetMemory(s1, v2), i) == Ok(s3)
    ensures GivenBack(s0.v, s3.v, role0) && Inv(s3.v, role0, s0.kd)
    ensures s3.free == s0.free && s3.tasks == s0.tasks[i := s3.tasks[i]] && s3.tasks[i].status.Unused?
  {
    hide KInv, Alloc, RegionAllocs, OwnSpace, Isolated, FreeTask, Inv, SlotsAgree, DirsAgree, SameWalks, SetupMemory;
    var role1, d := AllocKeeps(s0, role0, parent, rand, s1, i);
    SafeMemory(s0, role0);
    AllocIsEmpty(s0.v, role0, s0.kd, s1.v, i, d);
    var r, role2 := RegionAllocsSteps(s1.v, role1, s0.kd, d, rs);
    var s2 := SetMemory(s1, v2);
    OwnSpaceParts(s1.v, role1, v2, role2, s0.kd, d);
    OnlyMemoryChanged(s1, role1, s2, role2, d);
    var role3: seq<Role>;
    s3, role3 := FreeTaskKeeps(s2, role2, i);
    hide FreeTask;
    LifeRoles(s0.v, role0, s0.kd, s1.v, role1, v2, role2, s3.v, role3, i, d);
  }

  lemma SafeMemory(s: State, role: seq<Role>)
    requires KInv(s, role)
    ensures Wft(s) && Inv(s.v, role, s.kd)
  {
  }

  lemma OwnSpaceParts(v: Vm, role: seq<Role>, v': Vm, role': seq<Role>, kd: nat, d: nat)
    requires OwnSpace(v, role, kd, d) && OwnSpace(v', role', kd, d) && Isolated(v, role, kd, v', role', d)
    ensures SameShape(v, v') && Inv(v', role', kd) && d < |role| == |role'| == |v'.page| && OnlyChurn(role, role', d)
  {
  }

  lemma AllocIsEmpty(v: Vm, role: seq<Role>, kd: nat, v1: Vm, i: nat, d: nat)
    requires Inv(v, role, kd) && v.free != [] && v1 == SetupMemory(v, kd).0 && d == v.free[0]
    ensures d < |role| && OwnSpace(v1, role[d := Dir(i)], kd, d) && SameWalks(v, role, kd, v1, d)
  {
    var v2, f := SetupKeepsInv(v, role, kd, i);
    hide Inv, SetupMemory;
    EmptyOwnSpace(v1, role[d := Dir(i)], kd, d);
  }

  /** regionAlloc changes memory only, so slots and directories agree as before. */
  lemma OnlyMemoryChanged(s1: State, role1: seq<Role>, s2: State, role2: seq<Role>, d: nat)
    requires Wft(s1) && SlotsAgree(s1) && |role1| == |s1.v.page| && DirsAgree(s1, role1)
    requires s2 == SetMemory(s1, s2.v) && SameShape(s1.v, s2.v) && OnlyChurn(role1, role2, d)
    ensures Wft(s2) && SlotsAgree(s2) && DirsAgree(s2, role2)
  {
  }

  lemma LifeRoles(v0: Vm, role0: seq<Role>, kd: nat, v1: Vm, role1: seq<Role>, v2: Vm, role2: seq<Role>, v3: Vm,
      role3: seq<Role>, i: nat, d: nat)
    requires Inv(v0, role0, kd) && d < |role0| && role0[d].Free? && role1 == role0[d := Dir(i)]
        && SameWalks(v0, role0, kd, v1, d)
    requires Isolated(v1, role1, kd, v2, role2, d)
    requires SameWalks(v2, role2, kd, v3, d) && Inv(v3, role3, kd) && |role3| == |role2|
    requires role3[d] == Free && OnlyChurnBut(role2, role3, d, d)
    ensures role3 == role0 && GivenBack(v0, v3, role0)
  {
    WalksThrough(v0, role0, kd, v1, role1, v2, d);
    WalksThrough(v0, role0, kd, v2, role2, v3, d);
    RolesRestored(v0, role0, v3, role3, kd, d);
    SameRolesSameCounts(v0, v3, role0, kd, d);
  }

  lemma WalksThrough(v0: Vm, role0: seq<Role>, kd: nat, v1: Vm, role1: seq<Role>, v2: Vm, d: nat)
    requires SameWalks(v0, role0, kd, v1, d) && SameWalks(v1, role1, kd, v2, d)
    requires |role1| == |role0| && forall c :: 0 <= c < |role0| && role0[c].Dir? && c != d ==> role1[c].Dir?
    ensures SameWalks(v0, role0, kd, v2, d)
  {
    forall c: nat, i: nat, j: nat | c != d && IsDir(role0, kd, c) && i < 1024 && j < 1024
      ensures Leaf(v2, c, i, j) == Leaf(v0, c, i, j)
    {
      assert IsDir(role1, kd, c);
      assert Leaf(v1, c, i, j) == Leaf(v0, c, i, j);
    }
  }

  /**
   Through create, exactly one frame is lost: the directory that alloc set up and create replaced.
   When the created task is freed, every other frame is as it was before create.
   */
  lemma CreateLosesOneFrame(s0: State, role0: seq<Role>, elf: Elf, rand: Word, s1: State, i: nat)
    returns (s2: State, lost: nat)
    requires KInv(s0, role0) && WellFormed(elf) && Create(s0, elf, rand) == Ok((s1, Created(i)))
    ensures i < MAX_TASKS && Wft(s1) && FreeTask(s1, i) == Ok(s2) && s2.free == s0.free
    ensures lost in s0.v.free && lost !in s2.v.free
    ensures forall f :: f in s2.v.free <==> f in s0.v.free && f != lost
    ensures lost < |role0| == |s2.v.rc| == |s0.v.rc| && s2.v.rc[lost] == 1
    ensures forall f :: 0 <= f < |role0| && f != lost && !role0[f].Kernel? ==> s2.v.rc[f] == s0.v.rc[f]
  {
    var r, role1, f1 := CreateKeeps(s0, role0, elf, rand);
    hide Create;
    lost := f1;
    var d := s1.tasks[i].dir;
    var role2: seq<Role>;
    hide Built;
    CreatedParts(s0, role0, elf, rand, s1, i, role1, f1);
    s2, role2 := FreeTaskKeeps(s1, role1, i);
    hide FreeTask;
    CreateRoles(s0.v, role0, s0.kd, s1.v, role1, f1, d, i, elf, s2.v, role2);
  }

  lemma CreatedParts(s0: State, role0: seq<Role>, elf: Elf, rand: Word, s1: State, i: nat, role1: seq<Role>, f1: nat)
    requires Wft(s0) && Complete(elf) && CreatedWell(s0, role0, elf, rand, s1, i, role1, f1)
    ensures Wft(s1) && Inv(s1.v, role1, s1.kd) && SlotsAgree(s1) && DirsAgree(s1, role1) && i < MAX_TASKS
    ensures !s1.tasks[i].status.Unused? && s1.kd == s0.kd && s0.free == [i] + s1.free
    ensures Built(s0.v, role0, s0.kd, s1.v, role1, f1, s1.tasks[i].dir, i, elf)
  {
    hide Built;
  }

  lemma CreateRoles(v0: Vm, role0: seq<Role>, kd: nat, v1: Vm, role1: seq<Role>, f1: nat, d: nat, i: nat, elf: Elf,
      v2: Vm, role2: seq<Role>)
    requires Inv(v0, role0, kd) && Complete(elf) && Built(v0, role0, kd, v1, role1, f1, d, i, elf)
    requires SameWalks(v1, role1, kd, v2, d) && Inv(v2, role2, kd) && |role2| == |role1|
    requires role2[d] == Free && OnlyChurnBut(role1, role2, d, d)
    ensures f1 in v0.free && f1 !in v2.free && f1 < |role0| == |v2.rc| == |v0.rc| && v2.rc[f1] == 1
    ensures forall f :: f in v2.free <==> f in v0.free && f != f1
    ensures forall f :: 0 <= f < |role0| && f != f1 && !role0[f].Kernel? ==> v2.rc[f] == v0.rc[f]
  {
    BuiltWalks(v0, role0, kd, v1, role1, f1, d, i, elf, v2);
    var lostRole := role0[f1 := Lost];
    var u := Lose(v0, role0, kd, f1);
    hide Built;
    RolesRestored(u, lostRole, v2, role2, kd, d);
    SameRolesSameCounts(u, v2, lostRole, kd, d);
  }

  /** The state before create with one frame taken off the list for good. */
  lemma Lose(v: Vm, role: seq<Role>, kd: nat, f: nat) returns (u: Vm)
    requires Inv(v, role, kd) && f < |role| && role[f].Free?
    ensures Inv(u, role[f := Lost], kd) && u.page == v.page && u.rc == v.rc[f := 1]
    ensures forall g :: g in u.free <==> g in v.free && g != f
  {
    assert f in v.free;
    var k :| 0 <= k < |v.free| && v.free[k] == f;
    u := Vm(v.free[..k] + v.free[k + 1..], v.rc[f := 1], v.page);
    DropOne(v.free, k);
    assert Wf(u);
    forall g | 0 <= g < |role|
      ensures Mappings(u, role[f := Lost], g) == Mappings(v, role, g)
    {
      SameMappings(v, role, u, role[f := Lost], g);
    }
    LosePages(v, role, kd, f, u);
    hide TablesAgree, DataAgrees, KernelHalf, HalvesAgree, Mappings;
  }

  lemma LosePages(v: Vm, role: seq<Role>, kd: nat, f: nat, u: Vm)
    requires Inv(v, role, kd) && f < |role| && role[f].Free? && u.page == v.page
    ensures var role' := role[f := Lost];
            TablesAgree(u, role') && DataAgrees(u, role') && KernelHalf(u, role', kd) && HalvesAgree(u, role', kd)
  {
    hide CountsAgree, FreeAgrees, Wf;
  }

  lemma DropOne(s: seq<nat>, k: nat)
    requires k < |s| && forall i, j :: 0 <= i < j < |s| ==> s[i] != s[j]
    ensures var t := s[..k] + s[k + 1..];
            && (forall i, j :: 0 <= i < j < |t| ==> t[i] != t[j])
            && forall g :: g in t <==> g in s && g != s[k]
  {
    var t := s[..k] + s[k + 1..];
    assert forall i :: 0 <= i < |t| ==> t[i] == if i < k then s[i] else s[i + 1];
    forall g | g in s && g != s[k]
      ensures g in t
    {
      var i :| 0 <= i < |s| && s[i] == g;
      assert t[if i < k then i else i - 1] == g;
    }
  }

  lemma BuiltWalks(v0: Vm, role0: seq<Role>, kd: nat, v1: Vm, role1: seq<Role>, f1: nat, d: nat, i: nat, elf: Elf,
      v2: Vm)
    requires Complete(elf) && |role0| == |v0.page| && Built(v0, role0, kd, v1, role1, f1, d, i, elf)
        && SameWalks(v1, role1, kd, v2, d)
    ensures f1 < |role0| && role0[f1].Free? && d < |role0| && role0[d].Free? && f1 != d
    ensures OnlyChurn(role0[f1 := Lost][d := Dir(i)], role1, d)
    ensures forall u: Vm :: u.page == v0.page ==> SameWalks(u, role0[f1 := Lost], kd, v2, d)
  {
    hide OwnSpace, SameContents;
    assert forall c :: 0 <= c < |role0| && role0[c].Dir? ==> role0[f1 := Lost][d := Dir(i)][c].Dir?;
    WalksThrough(v0, role0, kd, v1, role1, v2, d);
    forall u: Vm | u.page == v0.page
      ensures SameWalks(u, role0[f1 := Lost], kd, v2, d)
    {
      forall c: nat, i: nat, j: nat | c != d && IsDir(role0[f1 := Lost], kd, c) && i < 1024 && j < 1024
        ensures Leaf(v2, c, i, j) == Leaf(u, c, i, j)
      {
        assert IsDir(role0, kd, c);
        assert Leaf(v2, c, i, j) == Leaf(v0, c, i, j);
      }
    }
  }
}
