/**
 Address-space isolation: what an operation on one task's directory may change. The translations
 of every other live directory stay as they are, for every address, and so do the contents of
 every page that another task has mapped.
 */
module Isolation {
  import opened Wrappers
  import opened Mmu
  import opened PageTables
  import opened Ownership
  import opened Translation
  import opened OwnershipSteps
  import opened RadixTree

  /** Directories other than d translate as before. */
  ghost predicate SameWalks(v: Vm, role: seq<Role>, kd: nat, v': Vm, d: nat) {
    && |v'.page| == |v.page| == |role|
    && forall c: nat, i: nat, j: nat {:trigger Leaf(v', c, i, j)} ::
         c != d && IsDir(role, kd, c) && i < 1024 && j < 1024 ==>
           Leaf(v', c, i, j) == Leaf(v, c, i, j)
  }

  /** Data, and frames that no task can reach. */
  predicate Kept(r: Role) {
    r.Data? || r.Kernel? || r.Lost?
  }

  /** Pages mapped below UTOP by directories other than d have the same contents, and so do the
      frames of the kernel and the lost ones. */
  ghost predicate SameContents(v: Vm, role: seq<Role>, v': Vm, d: nat) {
    && |v'.page| == |v.page| == |role|
    && (forall g :: 0 <= g < |role| && (role[g].Kernel? || role[g].Lost?) ==> v'.page[g] == v.page[g])
    && forall c: nat, i: nat, j: nat, g: nat {:trigger Maps(v, c, i, j, g)} ::
         c < |role| && c != d && role[c].Dir? && i < UTOPX && j < 1024 && g < |role| && Maps(v, c, i, j, g) ==>
           v'.page[g] == v.page[g]
  }

  ghost predicate Isolated(v: Vm, role: seq<Role>, kd: nat, v': Vm, role': seq<Role>, d: nat) {
    && OnlyChurn(role, role', d)
    && SameWalks(v, role, kd, v', d)
    && SameContents(v, role, v', d)
  }

  lemma IsolatedTrans(v0: Vm, role0: seq<Role>, kd: nat, v1: Vm, role1: seq<Role>, v2: Vm, role2: seq<Role>, d: nat)
    requires Isolated(v0, role0, kd, v1, role1, d) && Isolated(v1, role1, kd, v2, role2, d)
    ensures Isolated(v0, role0, kd, v2, role2, d)
  {
    forall c: nat, i: nat, j: nat | c != d && IsDir(role0, kd, c) && i < 1024 && j < 1024
      ensures Leaf(v2, c, i, j) == Leaf(v0, c, i, j)
    {
      assert IsDir(role1, kd, c);
      assert Leaf(v1, c, i, j) == Leaf(v0, c, i, j);
    }
    forall c: nat, i: nat, j: nat, g: nat |
      c < |role0| && c != d && role0[c].Dir? && i < UTOPX && j < 1024 && g < |role0| && Maps(v0, c, i, j, g)
      ensures v2.page[g] == v0.page[g]
    {
      assert IsDir(role0, kd, c) && role1[c].Dir?;
      assert Leaf(v1, c, i, j) == Leaf(v0, c, i, j);
      assert Maps(v1, c, i, j, g);
    }
  }

  lemma IsolatedRefl(v: Vm, role: seq<Role>, kd: nat, d: nat)
    requires |role| == |v.page|
    ensures Isolated(v, role, kd, v, role, d)
  {
  }

  /** remove on one directory is isolated. */
  lemma RemoveIsolated(v: Vm, role: seq<Role>, kd: nat, d: nat, va: Word, v': Vm)
    requires Inv(v, role, kd) && UserPage(role, d, va) && Remove(v, d, va) == Ok(v')
    ensures Isolated(v, role, kd, v', RemoveRole(v, role, d, va), d)
  {
    hide Inv, Remove;
    LayoutIndexes();
    if Walk(v, d, va).None? {
      RemoveNothing(v, role, kd, d, va);
    } else {
      var v1, g, t := RemoveForm(v, role, kd, d, va);
      OnlyTableChanged(v, role, kd, v', d, t);
      EntryKeepsLeaves(v, role, v', kd, d, Pdx(va), Ptx(va), 0);
    }
  }

  lemma DataIsMapped(v: Vm, role: seq<Role>, kd: nat, c: nat, i: nat, j: nat, g: nat)
    requires Inv(v, role, kd) && c < |role| && role[c].Dir? && i < UTOPX && j < 1024 && Maps(v, c, i, j, g)
    ensures g < |role| && role[g].Data?
  {
    Target(v, role, kd, c, i);
  }

  /** Changing one frame that is not data changes no mapped page. */
  lemma OnlyTableChanged(v: Vm, role: seq<Role>, kd: nat, v': Vm, d: nat, t: nat)
    requires Inv(v, role, kd) && t < |role| && !Kept(role[t]) && |v'.page| == |v.page|
    requires forall g :: 0 <= g < |v.page| && g != t ==> v'.page[g] == v.page[g]
    ensures SameContents(v, role, v', d)
  {
    forall c: nat, i: nat, j: nat, g: nat |
      c < |role| && c != d && role[c].Dir? && i < UTOPX && j < 1024 && g < |role| && Maps(v, c, i, j, g)
      ensures v'.page[g] == v.page[g]
    {
      DataIsMapped(v, role, kd, c, i, j, g);
    }
  }

  // insert

  lemma FindPteContents(v: Vm, role: seq<Role>, kd: nat, d: nat, va: Word, v1: Vm, loc: PteLoc)
    requires Inv(v, role, kd) && UserPage(role, d, va) && FindPte(v, d, va, true) == Ok((v1, loc))
    ensures |v1.page| == |v.page|
    ensures forall g :: 0 <= g < |role| && Kept(role[g]) ==> v1.page[g] == v.page[g]
  {
    if v.free != [] {
      FreeHead(v, role, kd);
    }
  }

  lemma InsertedContents(v1: Vm, role1: seq<Role>, kd: nat, d: nat, pp: nat, va: Word, w: Word, v': Vm)
    requires Inv(v1, role1, kd) && UserPage(role1, d, va) && Inserted(v1, d, pp, va, w, v')
    ensures |v'.page| == |v1.page|
    ensures forall g :: 0 <= g < |role1| && Kept(role1[g]) ==> v'.page[g] == v1.page[g]
  {
    LayoutIndexes();
    Target(v1, role1, kd, d, Pdx(va));
    RemoveThenStore(v1, role1, kd, d, va, w);
    hide Inv, Remove;
    var t := Frame(v1.page[d][Pdx(va)]);
    assert v'.page == Store(v1, t, Ptx(va), w).page;
  }

  /** insert on one directory leaves the other directories and their pages alone. */
  lemma InsertIsolated(v: Vm, role: seq<Role>, kd: nat, d: nat, pp: nat, va: Word, perm: nat, v': Vm, ok: bool)
    requires Inv(v, role, kd) && UserPage(role, d, va) && Mappable(role, pp) && perm < 0x1000
    requires Insert(v, d, pp, va, perm) == Ok((v', ok))
    ensures SameWalks(v, role, kd, v', d)
    ensures forall g :: 0 <= g < |role| && Kept(role[g]) ==> v'.page[g] == v.page[g]
  {
    forall c: nat, i: nat, j: nat | c != d && IsDir(role, kd, c) && i < 1024 && j < 1024
      ensures Leaf(v', c, i, j) == Leaf(v, c, i, j)
    {
      InsertIsUpdate(v, role, kd, d, pp, va, perm, c, Pgaddr(i, j, 0));
      PgaddrRoundTrip(i, j, 0);
    }
    FindPteKeepsInv(v, role, kd, d, va);
    var r := FindPte(v, d, va, true).value;
    if r.1.PteAt? {
      var v2 := InsertForm(v, role, kd, d, pp, va, perm, r.0, r.1.table);
      FindPteContents(v, role, kd, d, va, r.0, r.1);
      InsertedContents(r.0, FindPteRole(v, role, d, va), kd, d, pp, va, MakePte(pp, WithPresent(perm)), v');
      FindPteData(v, role, kd, d, va);
      hide Inv, Insert, Inserted;
    }
  }

  lemma FindPteData(v: Vm, role: seq<Role>, kd: nat, d: nat, va: Word)
    requires Inv(v, role, kd) && UserPage(role, d, va)
    ensures forall g :: 0 <= g < |role| && Kept(role[g]) ==> Kept(FindPteRole(v, role, d, va)[g])
  {
    if v.free != [] {
      FreeHead(v, role, kd);
    }
  }

  lemma DataKeptIsContents(v: Vm, role: seq<Role>, kd: nat, v': Vm, d: nat)
    requires Inv(v, role, kd) && |v'.page| == |v.page|
    requires forall g :: 0 <= g < |role| && Kept(role[g]) ==> v'.page[g] == v.page[g]
    ensures SameContents(v, role, v', d)
  {
    forall c: nat, i: nat, j: nat, g: nat |
      c < |role| && c != d && role[c].Dir? && i < UTOPX && j < 1024 && g < |role| && Maps(v, c, i, j, g)
      ensures v'.page[g] == v.page[g]
    {
      DataIsMapped(v, role, kd, c, i, j, g);
    }
  }
}
