/**
 The page-table editor on the kernel's own directory: staticMap creates page tables there, and the self-test
 of pgdir::init inserts a page. What this does to translations, and when memory is owned as before.
 */
module KernelEdits {
  import opened Wrappers
  import opened Mmu
  import opened PageTables
  import opened Ownership
  import opened Translation
  import opened OwnershipSteps
  import opened RadixTree
  import opened MmioSafety

  /** findPte with create on the kernel's directory keeps ownership exactly if it makes no page table, or one
      above UTOP while there is no task that would miss it. */
  lemma KernelFindPteIff(v: Vm, role: seq<Role>, kd: nat, va: Word, v1: Vm, loc: PteLoc)
    requires Inv(v, role, kd) && FindPte(v, kd, va, true) == Ok((v1, loc))
    ensures StillOwned(v1, role, kd) <==>
              Present(v.page[kd][Pdx(va)]) || v.free == [] || (va >= UTOP && NoTasks(role))
  {
    LayoutIndexes();
    if Present(v.page[kd][Pdx(va)]) || v.free == [] {
      assert v1 == v && SameDirs(role, role);
    } else {
      var x, f := Pdx(va), v.free[0];
      FreeHead(v, role, kd);
      InstalledPages(v, kd, x, f);
      hide FindPte;
      if va < UTOP {
        NoEntryBelow(v1, role, kd, x);
      } else if NoTasks(role) {
        KernelTableKeepsInv(v, role, kd, x, v1);
        assert SameDirs(role, role[f := Kernel]);
      } else {
        EntryMissing(v, role, kd, x, v1);
      }
    }
  }

  lemma NoEntryBelow(v1: Vm, role: seq<Role>, kd: nat, x: nat)
    requires kd < |v1.page| && x < UTOPX && Present(v1.page[kd][x])
    ensures !StillOwned(v1, role, kd)
  {
  }

  lemma EntryMissing(v: Vm, role: seq<Role>, kd: nat, x: nat, v1: Vm)
    requires Inv(v, role, kd) && !NoTasks(role) && UTOPX <= x < 1024 && !Present(v.page[kd][x])
    requires v.free != [] && v1 == InstallTable(v, kd, x)
    ensures !StillOwned(v1, role, kd)
  {
    var d :| 0 <= d < |role| && role[d].Dir?;
    FreeHead(v, role, kd);
    InstalledPages(v, kd, x, v.free[0]);
    hide InstallTable;
    assert d != kd && d != v.free[0];
    assert v1.page[d] == v.page[d] && !Present(v.page[d][x]) && Present(v1.page[kd][x]);
    forall role' | Inv(v1, role', kd) && SameDirs(role, role')
      ensures false
    {
      SharedEntry(v1, role', kd, kd, d, x);
    }
  }

  lemma KernelTableKeepsInv(v: Vm, role: seq<Role>, kd: nat, x: nat, v1: Vm)
    requires Inv(v, role, kd) && NoTasks(role) && UTOPX <= x < 1024 && !Present(v.page[kd][x])
    requires v.free != [] && v1 == InstallTable(v, kd, x)
    ensures v.free[0] < |role| && role[v.free[0]].Free? && Inv(v1, role[v.free[0] := Kernel], kd)
  {
    var f := v.free[0];
    FreeHead(v, role, kd);
    OnlyKernelRoles(v, role, kd);
    InstalledPages(v, kd, x, f);
    InstalledLists(v, kd, x);
    hide InstallTable, Mappings;
    var role' := role[f := Kernel];
    assert KernelHalf(v1, role', kd);
    hide KernelHalf;
    assert FreeAgrees(v1, role') && CountsAgree(v1, role');
  }

  lemma InstalledLists(v: Vm, kd: nat, x: nat)
    requires Wf(v) && kd < |v.page| && x < 1024 && v.free != []
    ensures var v1 := InstallTable(v, kd, x); v1.free == v.free[1..] && |v1.rc| == |v.rc|
    ensures var v1 := InstallTable(v, kd, x); forall g :: 0 <= g < |v.rc| && g != v.free[0] ==> v1.rc[g] == v.rc[g]
  {
  }

  /**
   insert into the kernel's directory below UTOP, where nothing is mapped: it works out exactly if a frame
   is left for the page table, and then maps exactly that page, in the kernel's directory only. Memory is then not
   owned as before any more.
   */
  lemma KernelInsertIsUpdate(v: Vm, role: seq<Role>, kd: nat, pp: nat, va: Word, perm: nat, c: nat, b: Word)
    requires Inv(v, role, kd) && va < UTOP && IsDir(role, kd, c) && Mappable(role, pp) && perm < 0x1000
    ensures Insert(v, kd, pp, va, perm).Ok? && (Insert(v, kd, pp, va, perm).value.1 <==> v.free != [])
    ensures !Insert(v, kd, pp, va, perm).value.1 ==> Insert(v, kd, pp, va, perm).value.0 == v
    ensures StillOwned(Insert(v, kd, pp, va, perm).value.0, role, kd) <==> v.free == []
    ensures Insert(v, kd, pp, va, perm).value.1 ==>
              Walk(Insert(v, kd, pp, va, perm).value.0, c, b) ==
                if c == kd && Pgnum(b) == Pgnum(va) then Some(MakePte(pp, WithPresent(perm)))
                else if c == kd && WindowOf(va, b) then Some(NewTableEntry(v))
                else Walk(v, c, b)
  {
    LayoutIndexes();
    if v.free == [] {
      assert SameDirs(role, role);
    } else {
      var x, f := Pdx(va), v.free[0];
      var v1 := InstallTable(v, kd, x);
      var w := MakePte(pp, WithPresent(perm));
      KernelInsertForm(v, role, kd, pp, va, perm);
      var v' := Insert(v, kd, pp, va, perm).value.0;
      FreeHead(v, role, kd);
      InstalledPages(v, kd, x, f);
      hide Insert, InstallTable;
      NoEntryBelow(v', role, kd, x);
      KernelInsertLeaf(v, role, kd, x, Ptx(va), w, c, Pdx(b), Ptx(b));
      SamePage(va, b);
    }
  }

  lemma KernelInsertForm(v: Vm, role: seq<Role>, kd: nat, pp: nat, va: Word, perm: nat)
    requires Inv(v, role, kd) && va < UTOP && Mappable(role, pp) && perm < 0x1000 && v.free != []
    ensures var w := MakePte(pp, WithPresent(perm));
            && Insert(v, kd, pp, va, perm).Ok? && Insert(v, kd, pp, va, perm).value.1
            && v.free[0] < |v.page|
            && Insert(v, kd, pp, va, perm).value.0.page
               == Store(InstallTable(v, kd, Pdx(va)), v.free[0], Ptx(va), w).page
  {
    LayoutIndexes();
    FreeHead(v, role, kd);
    InstalledPages(v, kd, Pdx(va), v.free[0]);
    hide InstallTable;
  }

  /** Storing into the new table changes that page only. */
  lemma KernelInsertLeaf(v: Vm, role: seq<Role>, kd: nat, x: nat, y: nat, w: Word, c: nat, i: nat, j: nat)
    requires Inv(v, role, kd) && x < UTOPX && y < 1024 && v.free != [] && v.free[0] < |v.page| && Present(w)
    requires IsDir(role, kd, c) && i < 1024 && j < 1024
    ensures Leaf(Store(InstallTable(v, kd, x), v.free[0], y, w), c, i, j) ==
              if c == kd && i == x && j == y then Some(w)
              else if c == kd && i == UVPTX && j == x then Some(MakePte(v.free[0], PTE_P + PTE_W + PTE_U))
              else Leaf(v, c, i, j)
  {
    var f := v.free[0];
    FreeHead(v, role, kd);
    InstalledPages(v, kd, x, f);
    InstallTableLeaf(v, role, kd, kd, x, c, i, j);
    var v1 := InstallTable(v, kd, x);
    hide InstallTable;
    var v' := Store(v1, f, y, w);
    if c == kd && i == x {
    } else if Present(v.page[c][i]) {
      Target(v, role, kd, c, i);
      assert Frame(v.page[c][i]) != f && v1.page[c][i] == v.page[c][i];
    }
  }
}
