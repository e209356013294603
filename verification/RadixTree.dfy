/**
 The page-table editor refines a finite map from virtual pages to entries. For every live
 directory and every virtual address, remove deletes one key, insert updates one key, findInfo
 looks a key up, and findPte changes nothing.

 The one exception is stated with it: a directory maps its own page at UVPT, so a new page table
 shows up as one new entry of that window of the same directory.
 */
module RadixTree {
  import opened Wrappers
  import opened Mmu
  import opened PageTables
  import opened Ownership
  import opened Translation
  import opened OwnershipSteps

  /** The entry that findPte writes into the directory for a new page table. */
  function NewTableEntry(v: Vm): Word
    requires Wf(v) && v.free != []
  {
    MakePte(v.free[0], PTE_P + PTE_W + PTE_U)
  }

  /** b is the address, in the UVPT window, of the directory entry for va. */
  predicate WindowOf(va: Word, b: Word) {
    Pdx(b) == UVPTX && Ptx(b) == Pdx(va)
  }

  lemma FindPteKeepsTranslations(v: Vm, role: seq<Role>, kd: nat, d: nat, va: Word, v1: Vm, loc: PteLoc, c: nat,
      b: Word)
    requires Inv(v, role, kd) && IsDir(role, kd, d) && IsDir(role, kd, c)
    requires FindPte(v, d, va, true) == Ok((v1, loc))
    ensures Walk(v1, c, b) ==
              if !Present(v.page[d][Pdx(va)]) && v.free != [] && c == d && WindowOf(va, b) then Some(NewTableEntry(v))
              else Walk(v, c, b)
  {
    LayoutIndexes();
    if !Present(v.page[d][Pdx(va)]) && v.free != [] {
      InstallTableLeaf(v, role, kd, d, Pdx(va), c, Pdx(b), Ptx(b));
    }
  }

  /** findInfo is the lookup of va, unless a frame outside of memory is named on the way. */
  lemma FindInfoIsLookup(v: Vm, d: nat, va: Word)
    requires Wf(v) && d < |v.page|
    requires Present(v.page[d][Pdx(va)]) ==> Frame(v.page[d][Pdx(va)]) < |v.page|
    ensures FindInfo(v, d, va) ==
              if Walk(v, d, va).None? then Ok(None)
              else if Frame(Walk(v, d, va).value) < |v.page|
              then Ok(Some((Frame(Walk(v, d, va).value), PteAt(Frame(v.page[d][Pdx(va)]), Ptx(va)))))
              else Panic
  {
  }

  /**
   remove deletes one key: below UTOP from the given directory only, above UTOP, where all directories
   share the kernel's page tables, from every directory at once. Below UTOP it always succeeds.
   */
  lemma RemoveIsDelete(v: Vm, role: seq<Role>, kd: nat, d: nat, va: Word, c: nat, b: Word)
    requires Inv(v, role, kd) && IsDir(role, kd, d) && IsDir(role, kd, c) && Pdx(va) != UVPTX
    requires va < UTOP || Remove(v, d, va).Ok?
    ensures Remove(v, d, va).Ok?
    ensures Walk(Remove(v, d, va).value, c, b) ==
              if Pgnum(b) == Pgnum(va) && (c == d || va >= UTOP) then None else Walk(v, c, b)
  {
    hide Inv, Remove, Walk;
    if va >= UTOP {
      RemoveKernelPage(v, role, kd, d, va, c, b);
    } else if d == kd {
      NothingInKernel(v, role, kd, va, b);
    } else {
      RemoveUserPage(v, role, kd, d, va, c, b);
    }
  }

  lemma RemoveUserPage(v: Vm, role: seq<Role>, kd: nat, d: nat, va: Word, c: nat, b: Word)
    requires Inv(v, role, kd) && UserPage(role, d, va) && IsDir(role, kd, c)
    ensures Remove(v, d, va).Ok?
    ensures Walk(Remove(v, d, va).value, c, b) == if c == d && Pgnum(b) == Pgnum(va) then None else Walk(v, c, b)
  {
    LayoutIndexes();
    SamePage(va, b);
    if Walk(v, d, va).None? {
      RemoveNothing(v, role, kd, d, va);
    } else {
      var _, _, _ := RemoveForm(v, role, kd, d, va);
      hide Inv, Remove;
      StoreEntryLeaf(v, role, kd, d, Pdx(va), Ptx(va), 0, c, Pdx(b), Ptx(b));
    }
  }

  /** The kernel's directory maps nothing below UTOP. */
  lemma NothingInKernel(v: Vm, role: seq<Role>, kd: nat, va: Word, b: Word)
    requires Inv(v, role, kd) && va < UTOP
    ensures Remove(v, kd, va) == Ok(v) && (Pgnum(b) == Pgnum(va) ==> Walk(v, kd, b).None?)
  {
    LayoutIndexes();
    SamePage(va, b);
  }

  lemma RemoveKernelPage(v: Vm, role: seq<Role>, kd: nat, d: nat, va: Word, c: nat, b: Word)
    requires Inv(v, role, kd) && IsDir(role, kd, d) && IsDir(role, kd, c) && Pdx(va) != UVPTX && va >= UTOP
    requires Remove(v, d, va).Ok?
    ensures Walk(Remove(v, d, va).value, c, b) == if Pgnum(b) == Pgnum(va) then None else Walk(v, c, b)
  {
    LayoutIndexes();
    SamePage(va, b);
    SharedEntry(v, role, kd, d, c, Pdx(va));
    RemovePages(v, d, va);
    if Walk(v, d, va).Some? {
      hide Remove;
      KernelStoreLeaf(v, role, kd, d, Pdx(va), Ptx(va), c, Pdx(b), Ptx(b));
    }
  }

  /** The pages that remove leaves. */
  lemma RemovePages(v: Vm, d: nat, va: Word)
    requires Wf(v) && d < |v.page| && Remove(v, d, va).Ok?
    ensures Walk(v, d, va).None? ==> Remove(v, d, va).value == v
    ensures Walk(v, d, va).Some? ==>
              && Present(v.page[d][Pdx(va)]) && Frame(v.page[d][Pdx(va)]) < |v.page|
              && Remove(v, d, va).value.page == Store(v, Frame(v.page[d][Pdx(va)]), Ptx(va), 0).page
  {
  }

  /** Above UTOP, outside of the self-map, all directories have the same entries. */
  lemma SharedEntry(v: Vm, role: seq<Role>, kd: nat, d: nat, c: nat, x: nat)
    requires Inv(v, role, kd) && IsDir(role, kd, d) && IsDir(role, kd, c) && UTOPX <= x < 1024 && x != UVPTX
    ensures v.page[c][x] == v.page[d][x] == v.page[kd][x]
  {
    assert role[d].Dir? ==> v.page[d][x] == v.page[kd][x];
    assert role[c].Dir? ==> v.page[c][x] == v.page[kd][x];
  }

  /** Clearing an entry of a shared page table changes that page only, but in every directory. */
  lemma KernelStoreLeaf(v: Vm, role: seq<Role>, kd: nat, d: nat, x: nat, y: nat, c: nat, i: nat, j: nat)
    requires Inv(v, role, kd) && IsDir(role, kd, d) && IsDir(role, kd, c) && UTOPX <= x < 1024 && x != UVPTX && y < 1024
    requires Present(v.page[d][x]) && Frame(v.page[d][x]) < |v.page| && i < 1024 && j < 1024
    ensures Leaf(Store(v, Frame(v.page[d][x]), y, 0), c, i, j) == if i == x && j == y then None else Leaf(v, c, i, j)
  {
    SharedEntry(v, role, kd, d, c, x);
    Target(v, role, kd, d, x);
    var t := Frame(v.page[d][x]);
    assert t != c && t != kd;
    if Present(v.page[c][i]) {
      Target(v, role, kd, c, i);
      if i >= UTOPX && i != UVPTX {
        SharedEntry(v, role, kd, d, c, i);
      }
    }
  }

  /** insert fails exactly when a page table is needed and no frame is left, and then it has done
      nothing; otherwise it updates the one key va. */
  lemma InsertIsUpdate(v: Vm, role: seq<Role>, kd: nat, d: nat, pp: nat, va: Word, perm: nat, c: nat, b: Word)
    requires Inv(v, role, kd) && UserPage(role, d, va) && IsDir(role, kd, c) && Mappable(role, pp) && perm < 0x1000
    ensures Insert(v, d, pp, va, perm).Ok?
    ensures Insert(v, d, pp, va, perm).value.1 <==> Present(v.page[d][Pdx(va)]) || v.free != []
    ensures !Insert(v, d, pp, va, perm).value.1 ==> Insert(v, d, pp, va, perm).value.0 == v
    ensures Insert(v, d, pp, va, perm).value.1 ==>
              Walk(Insert(v, d, pp, va, perm).value.0, c, b) ==
                if c == d && Pgnum(b) == Pgnum(va) then Some(MakePte(pp, WithPresent(perm)))
                else if !Present(v.page[d][Pdx(va)]) && c == d && WindowOf(va, b) then Some(NewTableEntry(v))
                else Walk(v, c, b)
  {
    hide Inv, Insert, FindPte, FindPteRole, Remove, Walk, Store, IncRef, NewTableEntry, UserPage, WithPresent;
    FindPteKeepsInv(v, role, kd, d, va);
    var r := FindPte(v, d, va, true).value;
    if r.1.PteAt? {
      var v' := InsertForm(v, role, kd, d, pp, va, perm, r.0, r.1.table);
      UserPageIsDir(role, kd, d, va);
      FindPteKeepsTranslations(v, role, kd, d, va, r.0, r.1, c, b);
      FindPteKeepsDirs(v, role, kd, d, va, c);
      InsertedWalk(r.0, FindPteRole(v, role, d, va), kd, d, pp, va, MakePte(pp, WithPresent(perm)), c, b);
      OwnWindow(va, b);
    } else {
      InsertFails(v, d, pp, va, perm);
    }
  }

  lemma UserPageIsDir(role: seq<Role>, kd: nat, d: nat, va: Word)
    requires UserPage(role, d, va)
    ensures IsDir(role, kd, d)
  {
  }

  lemma FindPteKeepsDirs(v: Vm, role: seq<Role>, kd: nat, d: nat, va: Word, c: nat)
    requires Inv(v, role, kd) && UserPage(role, d, va) && IsDir(role, kd, c)
    ensures IsDir(FindPteRole(v, role, d, va), kd, c)
  {
    if v.free != [] {
      FreeHead(v, role, kd);
    }
  }

  /** A page below UTOP is not in the UVPT window. */
  lemma OwnWindow(va: Word, b: Word)
    requires va < UTOP
    ensures Pgnum(b) == Pgnum(va) ==> !WindowOf(va, b)
  {
    LayoutIndexes();
    SamePage(va, b);
  }

  lemma InsertFails(v: Vm, d: nat, pp: nat, va: Word, perm: nat)
    requires Wf(v) && d < |v.page| && pp < |v.page| && perm < 0x1000 && FindPte(v, d, va, true) == Ok((v, NoPte))
    ensures Insert(v, d, pp, va, perm) == Ok((v, false))
  {
  }

  lemma InsertedWalk(v1: Vm, role1: seq<Role>, kd: nat, d: nat, pp: nat, va: Word, w: Word, c: nat, b: Word)
    requires Inv(v1, role1, kd) && UserPage(role1, d, va) && IsDir(role1, kd, c) && pp < |role1| && Present(w)
    requires Present(v1.page[d][Pdx(va)]) && Frame(v1.page[d][Pdx(va)]) < |v1.page|
    ensures Remove(v1, d, va).Ok? && |Remove(v1, d, va).value.rc| == |v1.page|
    ensures var t, y := Frame(v1.page[d][Pdx(va)]), Ptx(va);
              && Walk(Store(v1, t, y, w), c, b) == (if c == d && Pgnum(b) == Pgnum(va) then Some(w) else Walk(v1, c, b))
              && Walk(Store(IncRef(Remove(v1, d, va).value, pp), t, y, w), c, b) == Walk(Store(v1, t, y, w), c, b)
  {
    LayoutIndexes();
    SamePage(va, b);
    StoreEntryLeaf(v1, role1, kd, d, Pdx(va), Ptx(va), w, c, Pdx(b), Ptx(b));
    RemoveThenStore(v1, role1, kd, d, va, w);
    hide Inv, Remove;
  }

  /** The entry that insert stores overwrites the one that remove cleared. */
  lemma RemoveThenStore(v: Vm, role: seq<Role>, kd: nat, d: nat, va: Word, w: Word)
    requires Inv(v, role, kd) && UserPage(role, d, va)
    requires Present(v.page[d][Pdx(va)]) && Frame(v.page[d][Pdx(va)]) < |v.page|
    ensures Remove(v, d, va).Ok?
    ensures var t, y := Frame(v.page[d][Pdx(va)]), Ptx(va);
            Store(Remove(v, d, va).value, t, y, w).page == Store(v, t, y, w).page
  {
    if Walk(v, d, va).None? {
      RemoveNothing(v, role, kd, d, va);
    } else {
      var v', g, t := RemoveForm(v, role, kd, d, va);
      hide Inv, Remove;
      assert v.page[t][Ptx(va) := 0][Ptx(va) := w] == v.page[t][Ptx(va) := w];
    }
  }
}
