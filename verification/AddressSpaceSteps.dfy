/** Building and tearing down address spaces keeps the ownership invariant, stays isolated, and
    takes and returns exactly the frames it owns. */
module AddressSpaceSteps {
  import opened Wrappers
  import opened Mmu
  import opened PageTables
  import opened Ownership
  import opened Translation
  import opened OwnershipSteps
  import opened RadixTree
  import opened Isolation
  import opened AddressSpaces

  /** The mappings of g depend only on what the task directories translate below UTOP. */
  lemma SameUserMappings(v: Vm, role: seq<Role>, v': Vm, role': seq<Role>, g: nat)
    requires |role| == |v.page| == |v'.page| == |role'|
    requires forall d, x, y :: 0 <= d < |role| && 0 <= x < UTOPX && 0 <= y < 1024 && (role[d].Dir? || role'[d].Dir?) ==>
               (if role'[d].Dir? then Leaf(v', d, x, y) else None) == (if role[d].Dir? then Leaf(v, d, x, y) else None)
    ensures Mappings(v', role', g) == Mappings(v, role, g)
  {
    forall s: Slot
      ensures s in Mappings(v', role', g) <==> s in Mappings(v, role, g)
    {
      if s in Mappings(v', role', g) || s in Mappings(v, role, g) {
        var d, x, y := s.dir, s.pdx, s.ptx;
        assert (if role'[d].Dir? then Leaf(v', d, x, y) else None) == (if role[d].Dir? then Leaf(v, d, x, y) else None);
      }
    }
  }

  // setupMemory

  lemma SetupForm(v: Vm, role: seq<Role>, kd: nat) returns (v': Vm, f: nat)
    requires Inv(v, role, kd) && v.free != []
    ensures SetupMemory(v, kd) == (v', Some(f)) && f == v.free[0] < |role| && role[f].Free? && f != kd
    ensures v'.free == v.free[1..] && v'.rc == v.rc[f := 1]
    ensures v'.page == v.page[f := v.page[kd][UVPTX := SelfMap(f)]]
  {
    FreeHead(v, role, kd);
    v', f := SetupMemory(v, kd).0, v.free[0];
    assert v'.page[f] == v.page[kd][UVPTX := SelfMap(f)];
    assert v'.page == v.page[f := v.page[kd][UVPTX := SelfMap(f)]];
  }

  lemma SetupKeepsLeaves(v: Vm, role: seq<Role>, kd: nat, f: nat, v': Vm)
    requires Inv(v, role, kd) && f < |role| && role[f].Free?
    requires v'.page == v.page[f := v.page[kd][UVPTX := SelfMap(f)]]
    ensures forall c: nat, i: nat, j: nat :: IsDir(role, kd, c) && i < 1024 && j < 1024 ==>
        Leaf(v', c, i, j) == Leaf(v, c, i, j)
    ensures forall i: nat, j: nat :: i < UTOPX && j < 1024 ==> Leaf(v', f, i, j).None?
  {
    forall c: nat, i: nat, j: nat | IsDir(role, kd, c) && i < 1024 && j < 1024
      ensures Leaf(v', c, i, j) == Leaf(v, c, i, j)
    {
      if Present(v.page[c][i]) {
        Target(v, role, kd, c, i);
      }
    }
  }

  lemma SetupKeepsInv(v: Vm, role: seq<Role>, kd: nat, owner: nat) returns (v': Vm, f: nat)
    requires Inv(v, role, kd) && v.free != []
    ensures SetupMemory(v, kd) == (v', Some(f)) && f == v.free[0] < |role| && role[f].Free?
    ensures Inv(v', role[f := Dir(owner)], kd)
    ensures forall c: nat, i: nat, j: nat :: IsDir(role, kd, c) && i < 1024 && j < 1024 ==>
        Leaf(v', c, i, j) == Leaf(v, c, i, j)
    ensures forall i: nat, j: nat :: i < UTOPX && j < 1024 ==> Leaf(v', f, i, j).None?
    ensures forall g :: 0 <= g < |role| && g != f ==> v'.page[g] == v.page[g]
  {
    v', f := SetupForm(v, role, kd);
    FreeHead(v, role, kd);
    SetupKeepsLeaves(v, role, kd, f, v');
    SetupPages(v, role, kd, owner, f, v');
    SetupCounts(v, role, kd, owner, f, v');
    hide TablesAgree, DataAgrees, KernelHalf, HalvesAgree, CountsAgree;
  }

  lemma SetupPages(v: Vm, role: seq<Role>, kd: nat, owner: nat, f: nat, v': Vm)
    requires Inv(v, role, kd) && f < |role| && role[f].Free?
    requires v'.page == v.page[f := v.page[kd][UVPTX := SelfMap(f)]]
    ensures var role' := role[f := Dir(owner)];
            |v'.page| == |role'| && TablesAgree(v', role') && DataAgrees(v', role') && KernelHalf(v', role', kd)
              && HalvesAgree(v', role', kd)
  {
    hide CountsAgree, FreeAgrees, Wf;
  }

  lemma SetupCounts(v: Vm, role: seq<Role>, kd: nat, owner: nat, f: nat, v': Vm)
    requires Inv(v, role, kd) && f < |role| && role[f].Free?
    requires v'.page == v.page[f := v.page[kd][UVPTX := SelfMap(f)]] && v'.rc == v.rc[f := 1]
    ensures CountsAgree(v', role[f := Dir(owner)])
  {
    var role' := role[f := Dir(owner)];
    SetupKeepsLeaves(v, role, kd, f, v');
    hide TablesAgree, DataAgrees, KernelHalf, HalvesAgree, Leaf;
    forall g | 0 <= g < |role|
      ensures Mappings(v', role', g) == Mappings(v, role, g)
    {
      SameUserMappings(v, role, v', role', g);
    }
  }

  // Task::free

  /** Clearing the directory entry of an empty table and dropping the table's only reference. */
  lemma DropTableKeepsInv(v: Vm, role: seq<Role>, kd: nat, d: nat, x: nat) returns (v': Vm, t: nat)
    requires Inv(v, role, kd) && d < |role| && role[d].Dir? && x < UTOPX && Present(v.page[d][x])
    requires forall y: nat :: y < 1024 ==> Leaf(v, d, x, y).None?
    ensures t == Frame(v.page[d][x]) < |role| && role[t] == Table(d, x)
    ensures DecRef(Store(v, d, x, 0), t) == Ok(v') && Inv(v', role[t := Free], kd)
    ensures v'.page == Store(v, d, x, 0).page
    ensures forall c: nat, i: nat, j: nat :: IsDir(role, kd, c) && i < 1024 && j < 1024 ==>
              Leaf(v', c, i, j) == if c == d && i == UVPTX && j == x then None else Leaf(v, c, i, j)
  {
    hide TablesAgree, DataAgrees, KernelHalf, HalvesAgree, Mappings, Leaf;
    Target(v, role, kd, d, x);
    t := Frame(v.page[d][x]);
    PushKeepsShape(SetRef(v, t, 0), t);
    v' := DecRef(Store(v, d, x, 0), t).value;
    assert v'.free == [t] + v.free && v'.rc == v.rc[t := 0];
    DropTableLeaves(v, role, kd, d, x, v');
    DropTablePages(v, role, kd, d, x, v', t);
    DropTableCounts(v, role, kd, d, x, v', t);
  }

  lemma DropTableLeaves(v: Vm, role: seq<Role>, kd: nat, d: nat, x: nat, v': Vm)
    requires Inv(v, role, kd) && d < |role| && role[d].Dir? && x < UTOPX
    requires forall y: nat :: y < 1024 ==> Leaf(v, d, x, y).None?
    requires v'.page == Store(v, d, x, 0).page
    ensures forall c: nat, i: nat, j: nat :: IsDir(role, kd, c) && i < 1024 && j < 1024 ==>
              Leaf(v', c, i, j) == if c == d && i == UVPTX && j == x then None else Leaf(v, c, i, j)
  {
    forall c: nat, i: nat, j: nat | IsDir(role, kd, c) && i < 1024 && j < 1024
      ensures Leaf(v', c, i, j) == if c == d && i == UVPTX && j == x then None else Leaf(v, c, i, j)
    {
      DropTableLeaf(v, role, kd, d, x, c, i, j);
    }
  }

  lemma DropTablePages(v: Vm, role: seq<Role>, kd: nat, d: nat, x: nat, v': Vm, t: nat)
    requires Inv(v, role, kd) && d < |role| && role[d].Dir? && x < UTOPX && Present(v.page[d][x])
    requires t == Frame(v.page[d][x]) < |role| && role[t] == Table(d, x)
    requires v'.page == Store(v, d, x, 0).page
    ensures var role' := role[t := Free];
            |v'.page| == |role'| && TablesAgree(v', role') && DataAgrees(v', role') && KernelHalf(v', role', kd)
              && HalvesAgree(v', role', kd)
  {
    hide CountsAgree, FreeAgrees, Wf;
    assert forall g :: 0 <= g < |v.page| && g != d ==> v'.page[g] == v.page[g];
    assert v'.page[d] == v.page[d][x := 0];
  }

  lemma DropTableCounts(v: Vm, role: seq<Role>, kd: nat, d: nat, x: nat, v': Vm, t: nat)
    requires Inv(v, role, kd) && d < |role| && role[d].Dir? && x < UTOPX
    requires forall y: nat :: y < 1024 ==> Leaf(v, d, x, y).None?
    requires t < |role| && role[t] == Table(d, x)
    requires v'.page == Store(v, d, x, 0).page && v'.rc == v.rc[t := 0]
    ensures CountsAgree(v', role[t := Free])
  {
    var role' := role[t := Free];
    DropTableLeaves(v, role, kd, d, x, v');
    hide TablesAgree, DataAgrees, KernelHalf, HalvesAgree, Leaf;
    forall g | 0 <= g < |role|
      ensures Mappings(v', role', g) == Mappings(v, role, g)
    {
      SameMappings(v, role, v', role', g);
    }
  }

  /** Dropping the only reference to a directory without page tables below UTOP. */
  lemma DropDirKeepsInv(v: Vm, role: seq<Role>, kd: nat, d: nat) returns (v': Vm)
    requires Inv(v, role, kd) && d < |role| && role[d].Dir?
    requires forall x: nat :: x < UTOPX ==> !Present(v.page[d][x])
    ensures DecRef(v, d) == Ok(v') && v'.page == v.page && Inv(v', role[d := Free], kd)
  {
    var role' := role[d := Free];
    PushKeepsShape(SetRef(v, d, 0), d);
    v' := DecRef(v, d).value;
    assert v'.free == [d] + v.free && v'.rc == v.rc[d := 0];
    forall g | 0 <= g < |role|
      ensures Mappings(v', role', g) == Mappings(v, role, g)
    {
      SameUserMappings(v, role, v', role', g);
    }
    DropDirPages(v, role, kd, d, v');
    hide TablesAgree, DataAgrees, KernelHalf, HalvesAgree, Leaf, Mappings;
  }

  lemma DropDirPages(v: Vm, role: seq<Role>, kd: nat, d: nat, v': Vm)
    requires Inv(v, role, kd) && d < |role| && role[d].Dir? && v'.page == v.page
    requires forall x: nat :: x < UTOPX ==> !Present(v.page[d][x])
    ensures var role' := role[d := Free];
            TablesAgree(v', role') && DataAgrees(v', role') && KernelHalf(v', role', kd) && HalvesAgree(v', role', kd)
  {
    hide CountsAgree, FreeAgrees, Wf;
  }
}
