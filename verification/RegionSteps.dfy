/** Task::regionAlloc: every page of the region is mapped to a zeroed frame of its own, and no
    other address space changes. */
module RegionSteps {
  import opened Wrappers
  import opened Mmu
  import opened PageTables
  import opened Ownership
  import opened Translation
  import opened OwnershipSteps
  import opened RadixTree
  import opened Isolation
  import opened AddressSpaces
  import opened AddressSpaceSteps

  /** A page needs a frame, and a second one when its page table is missing. */
  lemma AllocPageOkIff(v: Vm, role: seq<Role>, kd: nat, d: nat, va: Word)
    requires Inv(v, role, kd) && UserPage(role, d, va)
    ensures AllocPage(v, d, va).Ok? <==> |v.free| >= if Present(v.page[d][Pdx(va)]) then 1 else 2
    ensures !AllocPage(v, d, va).Ok? ==> AllocPage(v, d, va).Panic?
  {
    if v.free != [] {
      var f := v.free[0];
      var v0, role0 := AllocFrame(v, true).0, role[f := InFlight];
      FreeHead(v, role, kd);
      AllocKeepsInv(v, role, kd);
      InsertIsUpdate(v0, role0, kd, d, f, va, PTE_U + PTE_W, d, va);
      hide Inv, Insert;
    }
  }

  lemma AllocPageSteps(v: Vm, role: seq<Role>, kd: nat, d: nat, va: Word, v': Vm) returns (role': seq<Role>, f: nat)
    requires Inv(v, role, kd) && UserPage(role, d, va) && AllocPage(v, d, va) == Ok(v')
    ensures v.free != [] && f == v.free[0] < |role| && role[f].Free?
    ensures Inv(v', role', kd) && Isolated(v, role, kd, v', role', d)
    ensures role'[d] == role[d] && role'[f].Data?
    ensures AllocPageWrites(v, role, kd, d, va, v', f)
  {
    f := v.free[0];
    role' := AllocPageRoles(v, role, kd, d, va, v', f);
    AllocPageContents(v, role, kd, d, va, v', f);
    AllocPageWalks(v, role, kd, d, va, v', f);
    AllocPageOthers(v, role, kd, d, va, v', f);
    DataKeptIsContents(v, role, kd, v', d);
    hide Inv, AllocPage;
  }

  /** The two steps of an iteration: the frame in flight, and its insertion. */
  lemma AllocPageForm(v: Vm, role: seq<Role>, kd: nat, d: nat, va: Word, v': Vm, f: nat)
    returns (v0: Vm, role0: seq<Role>)
    requires Inv(v, role, kd) && UserPage(role, d, va) && AllocPage(v, d, va) == Ok(v') && v.free != []
        && f == v.free[0]
    ensures f < |role| && role[f].Free? && role0 == role[f := InFlight] && v0 == AllocFrame(v, true).0
        && v0.page[f] == ZeroPage()
    ensures Inv(v0, role0, kd) && UserPage(role0, d, va) && v0.rc[f] == 0
    ensures Insert(v0, d, f, va, PTE_U + PTE_W) == Ok((v', true))
    ensures forall g :: 0 <= g < |role| && g != f ==> v0.page[g] == v.page[g]
  {
    FreeHead(v, role, kd);
    AllocKeepsInv(v, role, kd);
    v0, role0 := AllocFrame(v, true).0, role[f := InFlight];
  }

  lemma AllocPageRoles(v: Vm, role: seq<Role>, kd: nat, d: nat, va: Word, v': Vm, f: nat) returns (role': seq<Role>)
    requires Inv(v, role, kd) && UserPage(role, d, va) && AllocPage(v, d, va) == Ok(v') && v.free != []
        && f == v.free[0]
    ensures f < |role| && role[f].Free?
    ensures Inv(v', role', kd) && OnlyChurn(role, role', d) && role'[d] == role[d] && role'[f].Data?
  {
    var v0, role0 := AllocPageForm(v, role, kd, d, va, v', f);
    var v1, ok, role1 := InsertKeepsInv(v0, role0, kd, d, f, va, PTE_U + PTE_W);
    hide Inv, Insert, AllocPage;
    role' := role1;
  }

  lemma AllocPageOthers(v: Vm, role: seq<Role>, kd: nat, d: nat, va: Word, v': Vm, f: nat)
    requires Inv(v, role, kd) && UserPage(role, d, va) && AllocPage(v, d, va) == Ok(v') && v.free != []
        && f == v.free[0]
    ensures SameWalks(v, role, kd, v', d)
  {
    var v0, role0 := AllocPageForm(v, role, kd, d, va, v', f);
    AllocKeepsLeaves(v, role, kd);
    InsertIsolated(v0, role0, kd, d, f, va, PTE_U + PTE_W, v', true);
    hide Inv, Insert, AllocPage;
    forall c: nat, i: nat, j: nat | c != d && IsDir(role, kd, c) && i < 1024 && j < 1024
      ensures Leaf(v', c, i, j) == Leaf(v, c, i, j)
    {
      assert Leaf(v0, c, i, j) == Leaf(v, c, i, j) && IsDir(role0, kd, c);
    }
  }

  /** The new page maps f, zeroed; the other pages of d and the contents of all data stay. */
  ghost predicate AllocPageWrites(v: Vm, role: seq<Role>, kd: nat, d: nat, va: Word, v': Vm, f: nat) {
    && |v'.page| == |v.page| == |role| <= 0x2_0000 && d < |role| && f < |role|
    && Walk(v', d, va) == Some(MakePte(f, PTE_P + PTE_W + PTE_U))
    && v'.page[f] == ZeroPage()
    && (forall i: nat, j: nat :: i < UTOPX && j < 1024 && !(i == Pdx(va) && j == Ptx(va)) ==>
      Leaf(v', d, i, j) == Leaf(v, d, i, j))
    && (forall g :: 0 <= g < |role| && Kept(role[g]) ==> v'.page[g] == v.page[g])
  }

  lemma AllocPageWalks(v: Vm, role: seq<Role>, kd: nat, d: nat, va: Word, v': Vm, f: nat)
    requires Inv(v, role, kd) && UserPage(role, d, va) && AllocPage(v, d, va) == Ok(v') && v.free != []
        && f == v.free[0]
    ensures |v'.page| == |v.page| && f < |v.page|
    ensures Walk(v', d, va) == Some(MakePte(f, PTE_P + PTE_W + PTE_U))
    ensures forall i: nat, j: nat :: i < UTOPX && j < 1024 && !(i == Pdx(va) && j == Ptx(va)) ==>
        Leaf(v', d, i, j) == Leaf(v, d, i, j)
  {
    var v0, role0 := AllocPageForm(v, role, kd, d, va, v', f);
    AllocKeepsLeaves(v, role, kd);
    InsertIsUpdate(v0, role0, kd, d, f, va, PTE_U + PTE_W, d, va);
    hide Inv, Insert, AllocPage;
    forall i: nat, j: nat | i < UTOPX && j < 1024 && !(i == Pdx(va) && j == Ptx(va))
      ensures Leaf(v', d, i, j) == Leaf(v, d, i, j)
    {
      PgaddrRoundTrip(i, j, 0);
      SamePage(va, Pgaddr(i, j, 0));
      InsertIsUpdate(v0, role0, kd, d, f, va, PTE_U + PTE_W, d, Pgaddr(i, j, 0));
      assert IsDir(role, kd, d) && Leaf(v0, d, i, j) == Leaf(v, d, i, j);
    }
  }

  lemma AllocPageContents(v: Vm, role: seq<Role>, kd: nat, d: nat, va: Word, v': Vm, f: nat)
    requires Inv(v, role, kd) && UserPage(role, d, va) && AllocPage(v, d, va) == Ok(v') && v.free != []
        && f == v.free[0]
    ensures |v'.page| == |v.page| && f < |v.page| && v'.page[f] == ZeroPage()
    ensures forall g :: 0 <= g < |role| && Kept(role[g]) ==> v'.page[g] == v.page[g]
  {
    var v0, role0 := AllocPageForm(v, role, kd, d, va, v', f);
    InsertIsolated(v0, role0, kd, d, f, va, PTE_U + PTE_W, v', true);
    InsertKeepsInFlight(v0, role0, kd, d, f, va, PTE_U + PTE_W, v', true);
    hide Inv, Insert, AllocPage;
  }

  /** insert does not write to the frame that it maps. */
  lemma InsertKeepsInFlight(v: Vm, role: seq<Role>, kd: nat, d: nat, pp: nat, va: Word, perm: nat, v': Vm, ok: bool)
    requires Inv(v, role, kd) && UserPage(role, d, va) && pp < |role| && role[pp].InFlight? && perm < 0x1000
    requires Insert(v, d, pp, va, perm) == Ok((v', ok))
    ensures |v'.page| == |v.page| && v'.page[pp] == v.page[pp]
  {
    hide Inv, Remove, FindPteRole;
    FindPteKeepsInv(v, role, kd, d, va);
    var r := FindPte(v, d, va, true).value;
    FindPteKeepsFrame(v, role, kd, d, va, r.0, r.1, pp);
    hide FindPte;
    if r.1.PteAt? {
      var role1 := FindPteRole(v, role, d, va);
      var v2 := InsertForm(v, role, kd, d, pp, va, perm, r.0, r.1.table);
      LayoutIndexes();
      Target(r.0, role1, kd, d, Pdx(va));
      RemoveThenStore(r.0, role1, kd, d, va, MakePte(pp, WithPresent(perm)));
      hide Insert;
      assert v'.page == Store(r.0, r.1.table, Ptx(va), MakePte(pp, WithPresent(perm))).page;
    }
  }

  // Counts of the frames that a directory maps

  /** Every page of d below UTOP is a writable user page on a frame that nothing else maps; the other
      flags, such as those that the processor sets on access, are not fixed. */
  ghost predicate OwnPages(v: Vm, d: nat) {
    && d < |v.page| == |v.rc|
    && forall i: nat, j: nat :: i < UTOPX && j < 1024 && Leaf(v, d, i, j).Some? ==> OwnPage(v, Leaf(v, d, i, j).value)
  }

  predicate OwnPage(v: Vm, e: Word) {
    Writable(e) && UserAccessible(e) && Frame(e) < |v.rc| && v.rc[Frame(e)] == 1
  }

  lemma AllocPageMappings(v: Vm, role: seq<Role>, kd: nat, d: nat, va: Word, v': Vm, role': seq<Role>, f: nat, g: nat)
    requires Inv(v, role, kd) && UserPage(role, d, va) && Isolated(v, role, kd, v', role', d) && role'[d] == role[d]
    requires AllocPageWrites(v, role, kd, d, va, v', f) && role[f].Free? && g < |role|
    ensures |role'| == |v'.page|
    ensures g != f && !Maps(v, d, Pdx(va), Ptx(va), g) ==> Mappings(v', role', g) == Mappings(v, role, g)
    ensures Mappings(v', role', f) == {Slot(d, Pdx(va), Ptx(va))}
  {
    LayoutIndexes();
    NothingMapsUnowned(v, role, kd, f);
    hide Inv;
    forall s: Slot
      ensures s in Mappings(v', role', f) <==> s == Slot(d, Pdx(va), Ptx(va))
      ensures g != f && !Maps(v, d, Pdx(va), Ptx(va), g) ==>
          (s in Mappings(v', role', g) <==> s in Mappings(v, role, g))
    {
      if s.dir < |role| && s.pdx < UTOPX && s.ptx < 1024 && role[s.dir].Dir? && s != Slot(d, Pdx(va), Ptx(va)) {
        assert IsDir(role, kd, s.dir);
        assert Leaf(v', s.dir, s.pdx, s.ptx) == Leaf(v, s.dir, s.pdx, s.ptx);
        assert Maps(v, s.dir, s.pdx, s.ptx, f) == (s in Mappings(v, role, f));
      }
    }
  }

  lemma AllocPageKeepsOwn(v: Vm, role: seq<Role>, kd: nat, d: nat, va: Word, v': Vm, role': seq<Role>, f: nat)
    requires Inv(v, role, kd) && UserPage(role, d, va) && Isolated(v, role, kd, v', role', d) && role'[d] == role[d]
    requires AllocPageWrites(v, role, kd, d, va, v', f) && role[f].Free? && Inv(v', role', kd) && role'[f].Data?
    requires OwnPages(v, d)
    ensures OwnPages(v', d)
  {
    forall i: nat, j: nat | i < UTOPX && j < 1024 && Leaf(v', d, i, j).Some?
      ensures OwnPage(v', Leaf(v', d, i, j).value)
    {
      AllocPageOwns(v, role, kd, d, va, v', role', f, i, j);
    }
  }

  lemma AllocPageOwns(v: Vm, role: seq<Role>, kd: nat, d: nat, va: Word, v': Vm, role': seq<Role>, f: nat, i: nat,
      j: nat)
    requires Inv(v, role, kd) && UserPage(role, d, va) && Isolated(v, role, kd, v', role', d) && role'[d] == role[d]
    requires AllocPageWrites(v, role, kd, d, va, v', f) && role[f].Free? && Inv(v', role', kd) && role'[f].Data?
    requires OwnPages(v, d) && i < UTOPX && j < 1024 && Leaf(v', d, i, j).Some?
    ensures OwnPage(v', Leaf(v', d, i, j).value)
  {
    hide Inv, Isolated, Mappings;
    LayoutIndexes();
    var g := Frame(Leaf(v', d, i, j).value);
    assert Maps(v', d, i, j, g);
    DataIsMapped(v', role', kd, d, i, j, g);
    AllocPageMappings(v, role, kd, d, va, v', role', f, g);
    DataCount(v', role', kd, g);
    if i == Pdx(va) && j == Ptx(va) {
      assert g == f;
      FlagBits(Leaf(v', d, i, j).value);
    } else {
      assert Leaf(v', d, i, j) == Leaf(v, d, i, j) && Maps(v, d, i, j, g);
      DataIsMapped(v, role, kd, d, i, j, g);
      DataCount(v, role, kd, g);
      OneMapping(v, role, kd, d, i, j, g, Pdx(va), Ptx(va));
    }
  }

  lemma DataCount(v: Vm, role: seq<Role>, kd: nat, g: nat)
    requires Inv(v, role, kd) && g < |role| && role[g].Data?
    ensures v.rc[g] == |Mappings(v, role, g)| && g !in v.free
  {
  }

  /** A frame with count one is mapped at one place. */
  lemma OneMapping(v: Vm, role: seq<Role>, kd: nat, d: nat, i: nat, j: nat, g: nat, k: nat, l: nat)
    requires Inv(v, role, kd) && d < |role| && role[d].Dir? && i < UTOPX && j < 1024 && k < UTOPX && l < 1024
    requires g < |role| && role[g].Data? && Maps(v, d, i, j, g) && v.rc[g] == 1
    ensures Maps(v, d, k, l, g) ==> k == i && l == j
  {
    if Maps(v, d, k, l, g) && !(k == i && l == j) {
      var a, b := Slot(d, i, j), Slot(d, k, l);
      assert {a, b} <= Mappings(v, role, g) && |{a, b}| == 2;
      SubsetSize({a, b}, Mappings(v, role, g));
    }
  }
}
