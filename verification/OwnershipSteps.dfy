/**
 The page-table editor keeps the ownership invariant: for each operation, the roles after it and
 the proof that tables, free list and counts agree with them.
 */
module OwnershipSteps {
  import opened Wrappers
  import opened Mmu
  import opened PageTables
  import opened Ownership
  import opened Translation

  /** Address va lies below UTOP in the live task directory d. */
  ghost predicate UserPage(role: seq<Role>, d: nat, va: Word) {
    d < |role| && role[d].Dir? && va < UTOP
  }

  /** The roles that an operation on directory d may exchange. */
  predicate Churn(r: Role, d: nat) {
    r.Free? || r.Data? || (r.Table? && r.dir == d)
  }

  ghost predicate OnlyChurn(role: seq<Role>, role': seq<Role>, d: nat) {
    && |role'| == |role|
    && forall f :: 0 <= f < |role| ==> role'[f] == role[f] || (Churn(role[f], d) && Churn(role'[f], d))
  }

  ghost predicate OnlyChurnBut(role: seq<Role>, role': seq<Role>, d: nat, pp: nat) {
    && |role'| == |role|
    && forall f :: 0 <= f < |role| && f != pp ==> role'[f] == role[f] || (Churn(role[f], d) && Churn(role'[f], d))
  }

  // Taking a frame

  lemma FreeHead(v: Vm, role: seq<Role>, kd: nat)
    requires Inv(v, role, kd) && v.free != []
    ensures v.free[0] < |role| && role[v.free[0]].Free?
    ensures forall g :: g in v.free[1..] <==> g in v.free && g != v.free[0]
  {
    var f, t := v.free[0], v.free[1..];
    assert f in v.free;
    assert forall i :: 0 <= i < |t| ==> t[i] == v.free[i + 1];
    assert v.free == [f] + t;
  }

  /** A frame that is being filled before it is referenced. */
  lemma AllocKeepsInv(v: Vm, role: seq<Role>, kd: nat)
    requires Inv(v, role, kd) && v.free != []
    ensures Inv(AllocFrame(v, true).0, role[v.free[0] := InFlight], kd)
  {
    var f := v.free[0];
    var v', role' := AllocFrame(v, true).0, role[f := InFlight];
    FreeHead(v, role, kd);
    hide Mappings;
    forall g | 0 <= g < |role|
      ensures Mappings(v', role', g) == Mappings(v, role, g)
    {
      AllocMappings(v, role, kd, g);
    }
  }

  lemma AllocMappings(v: Vm, role: seq<Role>, kd: nat, g: nat)
    requires Inv(v, role, kd) && v.free != [] && g < |role|
    ensures Mappings(AllocFrame(v, true).0, role[v.free[0] := InFlight], g) == Mappings(v, role, g)
  {
    hide Mappings;
    AllocKeepsLeaves(v, role, kd);
    FreeHead(v, role, kd);
    hide Inv;
    SameMappings(v, role, AllocFrame(v, true).0, role[v.free[0] := InFlight], g);
  }

  lemma AllocKeepsLeaves(v: Vm, role: seq<Role>, kd: nat)
    requires Inv(v, role, kd) && v.free != []
    ensures forall c: nat, i: nat, j: nat :: IsDir(role, kd, c) && i < 1024 && j < 1024 ==>
              Leaf(AllocFrame(v, true).0, c, i, j) == Leaf(v, c, i, j)
  {
    FreeHead(v, role, kd);
    forall c: nat, i: nat, j: nat | IsDir(role, kd, c) && i < 1024 && j < 1024
      ensures Leaf(AllocFrame(v, true).0, c, i, j) == Leaf(v, c, i, j)
    {
      if Present(v.page[c][i]) {
        Target(v, role, kd, c, i);
      }
    }
  }

  lemma InstallTableKeepsInv(v: Vm, role: seq<Role>, kd: nat, d: nat, x: nat)
    requires Inv(v, role, kd) && d < |role| && role[d].Dir? && x < UTOPX && v.free != []
    requires !Present(v.page[d][x])
    ensures Inv(InstallTable(v, d, x), role[v.free[0] := Table(d, x)], kd)
  {
    var v', role' := InstallTable(v, d, x), role[v.free[0] := Table(d, x)];
    FreeHead(v, role, kd);
    InstallTableCounts(v, role, kd, d, x);
    InstallTablePages(v, role, kd, d, x);
    InstallTableHalves(v, role, kd, d, x);
  }

  lemma InstallTablePages(v: Vm, role: seq<Role>, kd: nat, d: nat, x: nat)
    requires Wf(v) && |role| == |v.page| && TablesAgree(v, role) && DataAgrees(v, role)
    requires d < |role| && role[d].Dir? && x < UTOPX && v.free != [] && role[v.free[0]].Free?
    requires !Present(v.page[d][x])
    ensures var v', role' := InstallTable(v, d, x), role[v.free[0] := Table(d, x)];
            TablesAgree(v', role') && DataAgrees(v', role')
  {
    hide InstallTable, Wf;
    InstalledPages(v, d, x, v.free[0]);
  }

  /** The frames that findPte writes. */
  lemma InstalledPages(v: Vm, d: nat, x: nat, f: nat)
    requires Wf(v) && d < |v.page| && x < 1024 && v.free != [] && f == v.free[0] && f != d
    ensures f < |v.page| <= 0x2_0000
    ensures var v' := InstallTable(v, d, x);
            && |v'.page| == |v.page| && v'.page[d] == v.page[d][x := MakePte(f, PTE_P + PTE_W + PTE_U)]
              && v'.page[f] == ZeroPage()
            && (forall g :: 0 <= g < |v.page| && g != f && g != d ==> v'.page[g] == v.page[g])
  {
  }

  lemma InstallTableHalves(v: Vm, role: seq<Role>, kd: nat, d: nat, x: nat)
    requires Wf(v) && |role| == |v.page| && KernelHalf(v, role, kd) && HalvesAgree(v, role, kd)
    requires d < |role| && role[d].Dir? && x < UTOPX && v.free != [] && role[v.free[0]].Free?
    ensures var v', role' := InstallTable(v, d, x), role[v.free[0] := Table(d, x)];
            KernelHalf(v', role', kd) && HalvesAgree(v', role', kd)
  {
    hide InstallTable, Wf;
    InstalledPages(v, d, x, v.free[0]);
  }

  lemma InstallTableCounts(v: Vm, role: seq<Role>, kd: nat, d: nat, x: nat)
    requires Inv(v, role, kd) && d < |role| && role[d].Dir? && x < UTOPX && v.free != []
    requires !Present(v.page[d][x]) && role[v.free[0]].Free?
    ensures var v', role' := InstallTable(v, d, x), role[v.free[0] := Table(d, x)];
            Wf(v') && CountsAgree(v', role')
  {
    hide Inv, Mappings, InstallTable, Leaf, CountsAgree;
    var f := v.free[0];
    var v', role' := InstallTable(v, d, x), role[f := Table(d, x)];
    forall c, i, j | 0 <= c < |role| && role[c].Dir? && 0 <= i < UTOPX && 0 <= j < 1024
      ensures Leaf(v', c, i, j) == Leaf(v, c, i, j)
    {
      InstallTableLeaf(v, role, kd, d, x, c, i, j);
    }
    forall g | 0 <= g < |role|
      ensures Mappings(v', role', g) == Mappings(v, role, g)
    {
      SameMappings(v, role, v', role', g);
    }
    InstalledCounts(v, role, kd, d, x, f, v');
  }

  lemma InstalledCounts(v: Vm, role: seq<Role>, kd: nat, d: nat, x: nat, f: nat, v': Vm)
    requires Inv(v, role, kd) && d < |role| && x < 1024 && v.free != [] && f == v.free[0] && role[f].Free?
    requires v' == InstallTable(v, d, x) && |v'.page| == |role|
    requires forall g :: 0 <= g < |role| ==> Mappings(v', role[f := Table(d, x)], g) == Mappings(v, role, g)
    ensures |v'.rc| == |role| && CountsAgree(v', role[f := Table(d, x)])
  {
    hide Mappings, TablesAgree, DataAgrees, KernelHalf, HalvesAgree;
    assert v'.rc == v.rc[f := 1];
  }

  // Changing one entry of a page table

  /** A role of a frame that holds no table and is not the kernel's. */
  predicate Leafy(r: Role) {
    r.Data? || r.Free? || r.InFlight?
  }

  /** The frames that stop being data are named by no entry other than (t, y). */
  ghost predicate OnlyNamedBy(v: Vm, role: seq<Role>, role': seq<Role>, t: nat, y: nat)
    requires |role| == |v.page| == |role'|
  {
    forall u, j ::
      (&& 0 <= u < |role| && role[u].Table? && 0 <= j < 1024 && !(u == t && j == y)
       && Present(v.page[u][j]) && Frame(v.page[u][j]) < |role| && role[Frame(v.page[u][j])].Data?)
      ==> role'[Frame(v.page[u][j])].Data?
  }

  lemma EntryKeepsStructure(v: Vm, role: seq<Role>, v': Vm, role': seq<Role>, kd: nat, d: nat, x: nat, y: nat, w: Word)
    requires Inv(v, role, kd) && d < |role| && role[d].Dir? && x < UTOPX && y < 1024 && Present(v.page[d][x])
    requires |role'| == |role| == |v'.page| == |v'.rc| && Frame(v.page[d][x]) < |v.page|
    requires v'.page == Store(v, Frame(v.page[d][x]), y, w).page
    requires forall f :: 0 <= f < |role| ==> role'[f] == role[f] || (Leafy(role[f]) && Leafy(role'[f]))
    requires OnlyNamedBy(v, role, role', Frame(v.page[d][x]), y)
    requires Present(w) ==> Frame(w) < |role| && role'[Frame(w)].Data?
    ensures TablesAgree(v', role') && DataAgrees(v', role') && KernelHalf(v', role', kd) && HalvesAgree(v', role', kd)
  {
    Target(v, role, kd, d, x);
    var t := Frame(v.page[d][x]);
    EntryKeepsTables(v, role, v', role', t, y, w);
    assert forall g :: 0 <= g < |v.page| && g != t ==> v'.page[g] == v.page[g];
  }

  lemma EntryKeepsTables(v: Vm, role: seq<Role>, v': Vm, role': seq<Role>, t: nat, y: nat, w: Word)
    requires |role| == |v.page| == |role'| == |v'.page| && TablesAgree(v, role) && DataAgrees(v, role)
    requires t < |role| && role[t].Table? && y < 1024 && v'.page == Store(v, t, y, w).page
    requires forall f :: 0 <= f < |role| ==> role'[f] == role[f] || (Leafy(role[f]) && Leafy(role'[f]))
    requires OnlyNamedBy(v, role, role', t, y)
    requires Present(w) ==> Frame(w) < |role| && role'[Frame(w)].Data?
    ensures TablesAgree(v', role') && DataAgrees(v', role')
  {
    hide Store;
    StoredPages(v, t, y, w);
  }

  lemma StoredPages(v: Vm, t: nat, y: nat, w: Word)
    requires t < |v.page| && y < 1024
    ensures var v' := Store(v, t, y, w);
            && |v'.page| == |v.page| && v'.page[t] == v.page[t][y := w]
            && (forall g :: 0 <= g < |v.page| && g != t ==> v'.page[g] == v.page[g])
  {
  }

  lemma EntryKeepsLeaves(v: Vm, role: seq<Role>, v': Vm, kd: nat, d: nat, x: nat, y: nat, w: Word)
    requires Inv(v, role, kd) && d < |role| && role[d].Dir? && x < UTOPX && y < 1024 && Present(v.page[d][x])
    requires Frame(v.page[d][x]) < |v.page| && v'.page == Store(v, Frame(v.page[d][x]), y, w).page
    ensures forall c: nat, i: nat, j: nat :: IsDir(role, kd, c) && i < 1024 && j < 1024 ==>
              Leaf(v', c, i, j) ==
                if c == d && i == x && j == y then (if Present(w) then Some(w) else None) else Leaf(v, c, i, j)
  {
    forall c: nat, i: nat, j: nat | IsDir(role, kd, c) && i < 1024 && j < 1024
      ensures Leaf(v', c, i, j) ==
                if c == d && i == x && j == y then (if Present(w) then Some(w) else None) else Leaf(v, c, i, j)
    {
      StoreEntryLeaf(v, role, kd, d, x, y, w, c, i, j);
    }
  }

  /** A frame with one mapping is named by that entry only. */
  lemma LastMapping(v: Vm, role: seq<Role>, kd: nat, d: nat, x: nat, y: nat, g: nat)
    requires Inv(v, role, kd) && d < |role| && role[d].Dir? && x < UTOPX && y < 1024 && g < |role|
    requires Maps(v, d, x, y, g) && |Mappings(v, role, g)| == 1
    ensures OnlyNamedBy(v, role, role[g := Free], Frame(v.page[d][x]), y)
  {
    var s := Slot(d, x, y);
    assert s in Mappings(v, role, g);
    forall u, j | 0 <= u < |role| && role[u].Table? && 0 <= j < 1024 && Present(v.page[u][j])
        && Frame(v.page[u][j]) == g
      ensures u == Frame(v.page[d][x]) && j == y
    {
      var s' := Slot(role[u].dir, role[u].pdx, j);
      assert s' in Mappings(v, role, g);
      assert s' == s by {
        if s' != s {
          assert {s, s'} <= Mappings(v, role, g) && |{s, s'}| == 2;
          SubsetSize({s, s'}, Mappings(v, role, g));
        }
      }
    }
  }

  lemma {:induction false} SubsetSize<T>(a: set<T>, b: set<T>)
    requires a <= b
    ensures |a| <= |b|
    decreases |a|
  {
    if a != {} {
      var x :| x in a;
      SubsetSize(a - {x}, b - {x});
    }
  }

  // remove

  /** The roles after remove(d, va): the frame is free if this was its last mapping. */
  function RemoveRole(v: Vm, role: seq<Role>, d: nat, va: Word): seq<Role>
    requires d < |v.page| && |v.rc| == |role|
  {
    var e := Walk(v, d, va);
    if e.Some? && Frame(e.value) < |role| && v.rc[Frame(e.value)] == 1 then role[Frame(e.value) := Free] else role
  }

  lemma RemoveNothing(v: Vm, role: seq<Role>, kd: nat, d: nat, va: Word)
    requires Inv(v, role, kd) && UserPage(role, d, va) && Walk(v, d, va).None?
    ensures Remove(v, d, va) == Ok(v)
  {
    LayoutIndexes();
    if Present(v.page[d][Pdx(va)]) {
      Target(v, role, kd, d, Pdx(va));
    }
  }

  /** What remove computes when frame g is mapped at va through table t. */
  lemma RemoveForm(v: Vm, role: seq<Role>, kd: nat, d: nat, va: Word) returns (v': Vm, g: nat, t: nat)
    requires Inv(v, role, kd) && UserPage(role, d, va) && Walk(v, d, va).Some?
    ensures Remove(v, d, va) == Ok(v')
    ensures Present(v.page[d][Pdx(va)]) && t == Frame(v.page[d][Pdx(va)]) < |role| && role[t] == Table(d, Pdx(va))
    ensures g == Frame(Walk(v, d, va).value) < |role| && role[g].Data? && v.rc[g] == |Mappings(v, role, g)| > 0
    ensures v'.page == Store(v, t, Ptx(va), 0).page && v'.rc == v.rc[g := v.rc[g] - 1]
    ensures v'.free == if v.rc[g] == 1 then [g] + v.free else v.free
  {
    LayoutIndexes();
    Target(v, role, kd, d, Pdx(va));
    t := Frame(v.page[d][Pdx(va)]);
    g := Frame(v.page[t][Ptx(va)]);
    assert FindInfo(v, d, va) == Ok(Some((g, PteAt(t, Ptx(va)))));
    assert (v.rc[g] + 0xFFFF) % 0x1_0000 == v.rc[g] - 1;
    v' := Remove(v, d, va).value;
  }

  lemma RemoveKeepsInv(v: Vm, role: seq<Role>, kd: nat, d: nat, va: Word)
    requires Inv(v, role, kd) && UserPage(role, d, va)
    ensures Remove(v, d, va).Ok? && Inv(Remove(v, d, va).value, RemoveRole(v, role, d, va), kd)
  {
    hide Inv, Remove, Store;
    LayoutIndexes();
    if Walk(v, d, va).None? {
      RemoveNothing(v, role, kd, d, va);
    } else {
      var v', g, t := RemoveForm(v, role, kd, d, va);
      RemovedKeepsInv(v, role, kd, d, va, v', RemoveRole(v, role, d, va), g, t);
    }
  }

  /** remove below UTOP, from any directory: the kernel's has nothing there to remove. */
  lemma RemoveBelowUtop(v: Vm, role: seq<Role>, kd: nat, d: nat, va: Word)
    requires Inv(v, role, kd) && IsDir(role, kd, d) && va < UTOP
    ensures Remove(v, d, va).Ok? && Inv(Remove(v, d, va).value, RemoveRole(v, role, d, va), kd)
    ensures d == kd ==> Remove(v, d, va) == Ok(v)
  {
    LayoutIndexes();
    if role[d].Dir? {
      hide Inv, Remove;
      RemoveKeepsInv(v, role, kd, d, va);
      KernelIsNotTasks(v, role, kd, d);
    } else {
      assert !Present(v.page[kd][Pdx(va)]);
    }
  }

  lemma KernelIsNotTasks(v: Vm, role: seq<Role>, kd: nat, d: nat)
    requires Inv(v, role, kd) && d < |role| && role[d].Dir?
    ensures d != kd
  {
  }

  /** The step of remove on a mapped page, as a relation between the states. */
  ghost predicate Removed(v: Vm, role: seq<Role>, d: nat, va: Word, v': Vm, role': seq<Role>, g: nat, t: nat)
  {
    && d < |role| == |v.page| == |v.rc| && role[d].Dir? && Pdx(va) < UTOPX
    && Present(v.page[d][Pdx(va)]) && t == Frame(v.page[d][Pdx(va)]) < |role| && role[t] == Table(d, Pdx(va))
    && g < |role| && role[g].Data? && Maps(v, d, Pdx(va), Ptx(va), g)
    && v'.page == Store(v, t, Ptx(va), 0).page
    && v.rc[g] > 0 && v'.rc == v.rc[g := v.rc[g] - 1]
    && v'.free == (if v.rc[g] == 1 then [g] + v.free else v.free)
    && role' == if v.rc[g] == 1 then role[g := Free] else role
  }

  lemma RemovedKeepsInv(v: Vm, role: seq<Role>, kd: nat, d: nat, va: Word, v': Vm, role': seq<Role>, g: nat, t: nat)
    requires Inv(v, role, kd) && Removed(v, role, d, va, v', role', g, t)
    ensures Inv(v', role', kd)
  {
    RemovedStructure(v, role, kd, d, va, v', role', g, t);
    RemovedCounts(v, role, kd, d, va, v', role', g, t);
    ReleaseKeepsFree(v, role, v', role', g);
    hide Wf, FreeAgrees, TablesAgree, DataAgrees, KernelHalf, HalvesAgree, CountsAgree;
  }

  lemma RemovedStructure(v: Vm, role: seq<Role>, kd: nat, d: nat, va: Word, v': Vm, role': seq<Role>, g: nat, t: nat)
    requires Inv(v, role, kd) && Removed(v, role, d, va, v', role', g, t)
    ensures |role'| == |v'.page| == |v'.rc|
    ensures TablesAgree(v', role') && DataAgrees(v', role') && KernelHalf(v', role', kd) && HalvesAgree(v', role', kd)
  {
    if v.rc[g] == 1 {
      LastMapping(v, role, kd, d, Pdx(va), Ptx(va), g);
    }
    hide Inv;
    EntryKeepsStructure(v, role, v', role', kd, d, Pdx(va), Ptx(va), 0);
  }

  lemma RemovedCounts(v: Vm, role: seq<Role>, kd: nat, d: nat, va: Word, v': Vm, role': seq<Role>, g: nat, t: nat)
    requires Inv(v, role, kd) && Removed(v, role, d, va, v', role', g, t)
    ensures |role'| == |v'.page| == |v'.rc| && CountsAgree(v', role')
  {
    forall h | 0 <= h < |role|
      ensures |Mappings(v', role', h)| == |Mappings(v, role, h)| - if h == g then 1 else 0
    {
      RemovedMappings(v, role, kd, d, va, v', role', g, t, h);
    }
    OneLessMapping(v, role, v', role', g);
  }

  lemma RemovedMappings(v: Vm, role: seq<Role>, kd: nat, d: nat, va: Word, v': Vm, role': seq<Role>, g: nat, t: nat,
      h: nat)
    requires Inv(v, role, kd) && Removed(v, role, d, va, v', role', g, t) && h < |role|
    ensures |role'| == |v'.page|
    ensures |Mappings(v', role', h)| == |Mappings(v, role, h)| - if h == g then 1 else 0
  {
    hide Inv, Mappings, Leaf, Store;
    EntryKeepsLeaves(v, role, v', kd, d, Pdx(va), Ptx(va), 0);
    SameSize(v, role, kd, v', t, Ptx(va));
    EditMappings(v, role, v', role', d, Pdx(va), Ptx(va), h);
  }

  lemma SameSize(v: Vm, role: seq<Role>, kd: nat, v': Vm, t: nat, y: nat)
    requires Inv(v, role, kd) && t < |v.page| && y < 1024 && v'.page == Store(v, t, y, 0).page
    ensures |v'.page| == |v.page| == |role|
  {
  }

  lemma ReleaseKeepsFree(v: Vm, role: seq<Role>, v': Vm, role': seq<Role>, g: nat)
    requires Wf(v) && |role| == |v.page| && FreeAgrees(v, role) && g < |role| && role[g].Data? && v.rc[g] > 0
    requires role' == (if v.rc[g] == 1 then role[g := Free] else role) && v'.rc == v.rc[g := v.rc[g] - 1]
    requires |v'.page| == |v.page| && v'.free == if v.rc[g] == 1 then [g] + v.free else v.free
    ensures Wf(v') && FreeAgrees(v', role')
  {
    if v.rc[g] == 1 {
      PushKeepsShape(v, g);
    }
  }

  lemma OneLessMapping(v: Vm, role: seq<Role>, v': Vm, role': seq<Role>, g: nat)
    requires |role| == |v.page| == |v.rc| && CountsAgree(v, role) && g < |role| && role[g].Data? && v.rc[g] > 0
    requires role' == (if v.rc[g] == 1 then role[g := Free] else role) && v'.rc == v.rc[g := v.rc[g] - 1]
        && |v'.page| == |v.page|
    requires forall h :: 0 <= h < |role| ==> |Mappings(v', role', h)| == |Mappings(v, role, h)| - if h == g then 1
        else 0
    ensures CountsAgree(v', role')
  {
  }

  // insert

  /** pp may be mapped: it was just allocated, or it is mapped somewhere already. */
  ghost predicate Mappable(role: seq<Role>, pp: nat) {
    pp < |role| && (role[pp].InFlight? || role[pp].Data?)
  }

  /** Mapping pp where nothing is mapped: count it, then store the entry. */
  lemma MapKeepsInv(v: Vm, role: seq<Role>, kd: nat, d: nat, x: nat, y: nat, pp: nat, flags: nat)
    requires Inv(v, role, kd) && d < |role| && role[d].Dir? && x < UTOPX && y < 1024
    requires Present(v.page[d][x]) && Leaf(v, d, x, y).None?
    requires Mappable(role, pp) && v.rc[pp] < 0xFFFF && flags < 0x1000 && flags % 2 == 1
    ensures Frame(v.page[d][x]) < |v.page|
    ensures Inv(Store(IncRef(v, pp), Frame(v.page[d][x]), y, MakePte(pp, flags)), role[pp := Data], kd)
  {
    Target(v, role, kd, d, x);
    var w := MakePte(pp, flags);
    var v', role' := Store(IncRef(v, pp), Frame(v.page[d][x]), y, w), role[pp := Data];
    EntryKeepsStructure(v, role, v', role', kd, d, x, y, w);
    MapCounts(v, role, v', kd, d, x, y, pp, w);
  }

  lemma MapCounts(v: Vm, role: seq<Role>, v': Vm, kd: nat, d: nat, x: nat, y: nat, pp: nat, w: Word)
    requires Inv(v, role, kd) && d < |role| && role[d].Dir? && x < UTOPX && y < 1024
    requires Present(v.page[d][x]) && Frame(v.page[d][x]) < |v.page| && Leaf(v, d, x, y).None?
    requires Mappable(role, pp) && v.rc[pp] < 0xFFFF && Present(w) && Frame(w) == pp
    requires v' == Store(IncRef(v, pp), Frame(v.page[d][x]), y, w)
    ensures v'.rc == v.rc[pp := v.rc[pp] + 1] && |v'.page| == |v.page| && CountsAgree(v', role[pp := Data])
  {
    hide Mappings, TablesAgree, DataAgrees, KernelHalf, HalvesAgree;
    var role' := role[pp := Data];
    forall h | 0 <= h < |role|
      ensures |Mappings(v', role', h)| == |Mappings(v, role, h)| + if h == pp then 1 else 0
    {
      MapMappings(v, role, v', kd, d, x, y, pp, w, h);
    }
    MappableCount(v, role, kd, pp);
    OneMoreMapping(v, role, v', role', pp);
  }

  lemma OneMoreMapping(v: Vm, role: seq<Role>, v': Vm, role': seq<Role>, pp: nat)
    requires |role| == |v.page| == |v.rc| && CountsAgree(v, role) && pp < |role| && v.rc[pp] == |Mappings(v, role, pp)|
    requires role' == role[pp := Data] && v'.rc == v.rc[pp := v.rc[pp] + 1] && |v'.page| == |v.page|
    requires forall h :: 0 <= h < |role| ==> |Mappings(v', role', h)| == |Mappings(v, role, h)| + if h == pp then 1
        else 0
    ensures CountsAgree(v', role')
  {
  }

  lemma MappableCount(v: Vm, role: seq<Role>, kd: nat, pp: nat)
    requires Inv(v, role, kd) && Mappable(role, pp)
    ensures v.rc[pp] == |Mappings(v, role, pp)|
  {
    if role[pp].InFlight? {
      NothingMapsUnowned(v, role, kd, pp);
    }
  }

  lemma MapMappings(v: Vm, role: seq<Role>, v': Vm, kd: nat, d: nat, x: nat, y: nat, pp: nat, w: Word, h: nat)
    requires Inv(v, role, kd) && d < |role| && role[d].Dir? && x < UTOPX && y < 1024 && h < |role|
    requires Present(v.page[d][x]) && Frame(v.page[d][x]) < |v.page| && Leaf(v, d, x, y).None?
    requires Mappable(role, pp) && Present(w) && Frame(w) == pp
    requires v'.page == Store(v, Frame(v.page[d][x]), y, w).page
    ensures |Mappings(v', role[pp := Data], h)| == |Mappings(v, role, h)| + if h == pp then 1 else 0
  {
    hide Mappings;
    EntryKeepsLeaves(v, role, v', kd, d, x, y, w);
    EditMappings(v, role, v', role[pp := Data], d, x, y, h);
  }

  lemma NothingMapsUnowned(v: Vm, role: seq<Role>, kd: nat, g: nat)
    requires Inv(v, role, kd) && g < |role| && !role[g].Data?
    ensures Mappings(v, role, g) == {}
  {
    forall s | s in Mappings(v, role, g)
      ensures false
    {
      Target(v, role, kd, s.dir, s.pdx);
    }
  }

  /** Mapping the frame that is already mapped there: only the flags change. */
  lemma RemapKeepsInv(v: Vm, role: seq<Role>, kd: nat, d: nat, x: nat, y: nat, flags: nat)
    requires Inv(v, role, kd) && d < |role| && role[d].Dir? && x < UTOPX && y < 1024
    requires Leaf(v, d, x, y).Some? && flags < 0x1000 && flags % 2 == 1
    ensures Frame(v.page[d][x]) < |v.page|
    ensures Inv(Store(v, Frame(v.page[d][x]), y, MakePte(Frame(Leaf(v, d, x, y).value), flags)), role, kd)
  {
    Target(v, role, kd, d, x);
    var g := Frame(Leaf(v, d, x, y).value);
    var w := MakePte(g, flags);
    var v' := Store(v, Frame(v.page[d][x]), y, w);
    EntryKeepsStructure(v, role, v', role, kd, d, x, y, w);
    EntryKeepsLeaves(v, role, v', kd, d, x, y, w);
    forall h | 0 <= h < |role|
      ensures |Mappings(v', role, h)| == |Mappings(v, role, h)|
    {
      EditMappings(v, role, v', role, d, x, y, h);
    }
  }

  /** The roles once findPte(d, va, true) has made sure of a page table. */
  function FindPteRole(v: Vm, role: seq<Role>, d: nat, va: Word): seq<Role>
    requires d < |v.page|
  {
    if !Present(v.page[d][Pdx(va)]) && v.free != [] && v.free[0] < |role|
    then role[v.free[0] := Table(d, Pdx(va))] else role
  }

  lemma FindPteKeepsInv(v: Vm, role: seq<Role>, kd: nat, d: nat, va: Word)
    requires Inv(v, role, kd) && UserPage(role, d, va)
    ensures FindPte(v, d, va, true).Ok?
    ensures var r := FindPte(v, d, va, true).value;
            && Inv(r.0, FindPteRole(v, role, d, va), kd) && UserPage(FindPteRole(v, role, d, va), d, va)
            && (r.1.NoPte? <==> !Present(v.page[d][Pdx(va)]) && v.free == [])
            && (r.1.NoPte? ==> r.0 == v)
            && (r.1.PteAt? ==> Present(r.0.page[d][Pdx(va)]) && r.1 == PteAt(Frame(r.0.page[d][Pdx(va)]), Ptx(va)))
  {
    LayoutIndexes();
    var x := Pdx(va);
    if Present(v.page[d][x]) {
      Target(v, role, kd, d, x);
    } else if v.free != [] {
      FreeHead(v, role, kd);
      InstallTableKeepsInv(v, role, kd, d, x);
    }
  }

  /** Without create, findPte changes nothing, and it never meets a page table outside of memory. */
  lemma FindPteLooksUp(v: Vm, role: seq<Role>, kd: nat, d: nat, va: Word)
    requires Inv(v, role, kd) && IsDir(role, kd, d)
    ensures FindPte(v, d, va, false) ==
              Ok((v, if Present(v.page[d][Pdx(va)]) then PteAt(Frame(v.page[d][Pdx(va)]), Ptx(va)) else NoPte))
  {
    if Present(v.page[d][Pdx(va)]) {
      Target(v, role, kd, d, Pdx(va));
    }
  }

  /** What insert computes from the state v1 that findPte leaves: the entry for a frame that is
      already there is rewritten; otherwise the old page is removed and the new one counted. */
  ghost predicate Inserted(v1: Vm, d: nat, pp: nat, va: Word, w: Word, v': Vm) {
    && Wf(v1) && d < |v1.page| && pp < |v1.page|
    && Present(v1.page[d][Pdx(va)]) && Frame(v1.page[d][Pdx(va)]) < |v1.page|
    && Remove(v1, d, va).Ok?
    && var t := Frame(v1.page[d][Pdx(va)]);
       v' == if Maps(v1, d, Pdx(va), Ptx(va), pp) then Store(v1, t, Ptx(va), w)
             else Store(IncRef(Remove(v1, d, va).value, pp), t, Ptx(va), w)
  }

  lemma InsertForm(v: Vm, role: seq<Role>, kd: nat, d: nat, pp: nat, va: Word, perm: nat, v1: Vm, t: nat)
    returns (v': Vm)
    requires Inv(v, role, kd) && UserPage(role, d, va) && Mappable(role, pp) && perm < 0x1000
    requires FindPte(v, d, va, true) == Ok((v1, PteAt(t, Ptx(va))))
    ensures Inv(v1, FindPteRole(v, role, d, va), kd) && UserPage(FindPteRole(v, role, d, va), d, va)
    ensures Mappable(FindPteRole(v, role, d, va), pp) && v1.rc[pp] == v.rc[pp]
    ensures FindPteRole(v, role, d, va)[pp] == role[pp]
    ensures Insert(v, d, pp, va, perm) == Ok((v', true))
    ensures Inserted(v1, d, pp, va, MakePte(pp, WithPresent(perm)), v')
  {
    hide Inv, Remove;
    FindPteKeepsInv(v, role, kd, d, va);
    var role1 := FindPteRole(v, role, d, va);
    FindPteKeepsFrame(v, role, kd, d, va, v1, PteAt(t, Ptx(va)), pp);
    LayoutIndexes();
    Target(v1, role1, kd, d, Pdx(va));
    InsertOverForm(v1, role1, kd, d, pp, va, MakePte(pp, WithPresent(perm)));
    hide FindPte, FindPteRole;
    v' := Insert(v, d, pp, va, perm).value.0;
  }

  /** The frame to be mapped is not the one that findPte takes. */
  lemma FindPteKeepsFrame(v: Vm, role: seq<Role>, kd: nat, d: nat, va: Word, v1: Vm, loc: PteLoc, pp: nat)
    requires Inv(v, role, kd) && UserPage(role, d, va) && pp < |role| && !role[pp].Free?
        && FindPte(v, d, va, true) == Ok((v1, loc))
    ensures |v1.rc| == |v.rc| == |v1.page| == |role| && v1.rc[pp] == v.rc[pp]
        && FindPteRole(v, role, d, va)[pp] == role[pp]
    ensures loc.PteAt? ==> Present(v1.page[d][Pdx(va)]) && Frame(v1.page[d][Pdx(va)]) == loc.table
    ensures role[pp].InFlight? ==> v1.page[pp] == v.page[pp]
  {
    if v.free != [] {
      FreeHead(v, role, kd);
    }
  }

  /** The count that is raised first and the count that remove lowers commute. */
  lemma InsertOverForm(v1: Vm, role1: seq<Role>, kd: nat, d: nat, pp: nat, va: Word, w: Word)
    requires Inv(v1, role1, kd) && UserPage(role1, d, va) && Mappable(role1, pp)
    requires Present(v1.page[d][Pdx(va)]) && Frame(v1.page[d][Pdx(va)]) < |v1.page|
    ensures var t, y := Frame(v1.page[d][Pdx(va)]), Ptx(va);
            var v2 := IncRef(v1, pp);
            var r3 := if Present(v2.page[t][y]) then Remove(v2, d, va) else Ok(v2);
            && Wf(v2) && r3.Ok? && |r3.value.page| == |v1.page| && Remove(v1, d, va).Ok?
            && Store(r3.value, t, y, w) ==
                 if Maps(v1, d, Pdx(va), y, pp) then Store(v1, t, y, w)
                   else Store(IncRef(Remove(v1, d, va).value, pp), t, y, w)
  {
    var t, y := Frame(v1.page[d][Pdx(va)]), Ptx(va);
    if Present(v1.page[t][y]) {
      var _, _, _ := RemoveForm(v1, role1, kd, d, va);
      if Frame(v1.page[t][y]) == pp {
        InsertSame(v1, d, pp, va, w);
      } else {
        InsertOther(v1, d, pp, va, w);
      }
    } else {
      RemoveNothing(v1, role1, kd, d, va);
    }
  }

  lemma InsertSame(v: Vm, d: nat, pp: nat, va: Word, w: Word)
    requires Wf(v) && d < |v.page| && pp < |v.page| && Maps(v, d, Pdx(va), Ptx(va), pp) && v.rc[pp] > 0
    ensures var r := Remove(IncRef(v, pp), d, va);
            var t, y := Frame(v.page[d][Pdx(va)]), Ptx(va);
            Wf(IncRef(v, pp)) && r.Ok? && |r.value.page| == |v.page| && Store(r.value, t, y, w) == Store(v, t, y, w)
  {
    var t, y := Frame(v.page[d][Pdx(va)]), Ptx(va);
    var v2 := IncRef(v, pp);
    assert FindInfo(v2, d, va) == Ok(Some((pp, PteAt(t, y))));
    assert SetRef(v2, pp, v.rc[pp]) == v;
    assert DecRef(v2, pp) == Ok(v);
    assert v.page[t][y := 0][y := w] == v.page[t][y := w];
    assert Store(Store(v, t, y, 0), t, y, w).page == Store(v, t, y, w).page;
  }

  lemma InsertOther(v: Vm, d: nat, pp: nat, va: Word, w: Word)
    requires Wf(v) && d < |v.page| && pp < |v.page| && Walk(v, d, va).Some?
    requires var g := Frame(Walk(v, d, va).value); g != pp && g < |v.page| && v.rc[g] > 0 && g !in v.free
    ensures var r, r0 := Remove(IncRef(v, pp), d, va), Remove(v, d, va);
            var t, y := Frame(v.page[d][Pdx(va)]), Ptx(va);
            Wf(IncRef(v, pp)) && r.Ok? && r0.Ok? && |r.value.page| == |v.page| == |r0.value.rc|
            && Store(r.value, t, y, w) == Store(IncRef(r0.value, pp), t, y, w)
  {
    var t, y, g := Frame(v.page[d][Pdx(va)]), Ptx(va), Frame(Walk(v, d, va).value);
    var v2 := IncRef(v, pp);
    assert FindInfo(v, d, va) == Ok(Some((g, PteAt(t, y))));
    assert FindInfo(v2, d, va) == Ok(Some((g, PteAt(t, y))));
    assert (v.rc[g] + 0xFFFF) % 0x1_0000 == v.rc[g] - 1;
    assert v2.rc[g := v.rc[g] - 1] == v.rc[g := v.rc[g] - 1][pp := (v.rc[pp] + 1) % 0x1_0000];
  }

  lemma InsertKeepsInv(v: Vm, role: seq<Role>, kd: nat, d: nat, pp: nat, va: Word, perm: nat)
    returns (v': Vm, ok: bool, role': seq<Role>)
    requires Inv(v, role, kd) && UserPage(role, d, va) && Mappable(role, pp) && perm < 0x1000
    requires v.rc[pp] < 0xFFFF || Maps(v, d, Pdx(va), Ptx(va), pp)
    ensures Insert(v, d, pp, va, perm) == Ok((v', ok)) && Inv(v', role', kd)
    ensures |role'| == |role| && OnlyChurnBut(role, role', d, pp)
    ensures role'[pp] == if ok then Data else role[pp]
  {
    hide Inv, Inserted, FindPteRole, Remove, UserPage;
    FindPteKeepsInv(v, role, kd, d, va);
    FindPteChurn(v, role, kd, d, va);
    var r := FindPte(v, d, va, true).value;
    if r.1.PteAt? {
      v' := InsertForm(v, role, kd, d, pp, va, perm, r.0, r.1.table);
      MappedStaysMapped(v, role, kd, d, va, pp);
      ok := true;
      role' := InsertRoles(r.0, FindPteRole(v, role, d, va), kd, d, pp, va, perm, v');
    } else {
      v', ok, role' := v, false, role;
    }
  }

  lemma FindPteChurn(v: Vm, role: seq<Role>, kd: nat, d: nat, va: Word)
    requires Inv(v, role, kd) && UserPage(role, d, va)
    ensures OnlyChurn(role, FindPteRole(v, role, d, va), d)
  {
    if v.free != [] {
      FreeHead(v, role, kd);
    }
  }

  /** A page that is mapped has its table, so findPte leaves it as it is. */
  lemma MappedStaysMapped(v: Vm, role: seq<Role>, kd: nat, d: nat, va: Word, pp: nat)
    requires Inv(v, role, kd) && UserPage(role, d, va)
    ensures FindPte(v, d, va, true).Ok? && |FindPte(v, d, va, true).value.0.page| == |v.page|
    ensures Maps(v, d, Pdx(va), Ptx(va), pp) ==> FindPte(v, d, va, true).value.0 == v
  {
    FindPteKeepsInv(v, role, kd, d, va);
  }

  lemma InsertRoles(v: Vm, role: seq<Role>, kd: nat, d: nat, pp: nat, va: Word, perm: nat, v': Vm)
    returns (role': seq<Role>)
    requires Inv(v, role, kd) && UserPage(role, d, va) && Mappable(role, pp) && perm < 0x1000
    requires v.rc[pp] < 0xFFFF || Maps(v, d, Pdx(va), Ptx(va), pp)
    requires Inserted(v, d, pp, va, MakePte(pp, WithPresent(perm)), v')
    ensures Inv(v', role', kd)
    ensures |role'| == |role| && OnlyChurnBut(role, role', d, pp) && role'[pp] == Data
  {
    LayoutIndexes();
    if Maps(v, d, Pdx(va), Ptx(va), pp) {
      RemapKeepsInv(v, role, kd, d, Pdx(va), Ptx(va), WithPresent(perm));
      role' := role;
      assert role[pp].Data? by {
        Target(v, role, kd, d, Pdx(va));
      }
    } else {
      RemoveChurn(v, role, kd, d, va);
      ReplaceKeepsInv(v, role, kd, d, pp, va, perm);
      hide Inv;
      role' := RemoveRole(v, role, d, va)[pp := Data];
    }
  }

  lemma RemoveChurn(v: Vm, role: seq<Role>, kd: nat, d: nat, va: Word)
    requires Inv(v, role, kd) && UserPage(role, d, va)
    ensures OnlyChurn(role, RemoveRole(v, role, d, va), d)
  {
    if Walk(v, d, va).Some? {
      var _, _, _ := RemoveForm(v, role, kd, d, va);
    }
  }

  lemma ReplaceKeepsInv(v: Vm, role: seq<Role>, kd: nat, d: nat, pp: nat, va: Word, perm: nat)
    requires Inv(v, role, kd) && UserPage(role, d, va) && Mappable(role, pp) && perm < 0x1000 && v.rc[pp] < 0xFFFF
    requires Present(v.page[d][Pdx(va)]) && Frame(v.page[d][Pdx(va)]) < |v.page|
    requires !Maps(v, d, Pdx(va), Ptx(va), pp)
    ensures Remove(v, d, va).Ok? && |Remove(v, d, va).value.rc| == |v.page| == |Remove(v, d, va).value.page|
    ensures Inv(Store(IncRef(Remove(v, d, va).value, pp), Frame(v.page[d][Pdx(va)]), Ptx(va),
        MakePte(pp, WithPresent(perm))),
                RemoveRole(v, role, d, va)[pp := Data], kd)
  {
    hide Inv;
    LayoutIndexes();
    RemoveKeepsInv(v, role, kd, d, va);
    RemoveClears(v, role, kd, d, va, pp);
    MapKeepsInv(Remove(v, d, va).value, RemoveRole(v, role, d, va), kd, d, Pdx(va), Ptx(va), pp, WithPresent(perm));
  }

  /** remove keeps the directory and the frames that may be mapped, and leaves va unmapped. */
  lemma RemoveClears(v: Vm, role: seq<Role>, kd: nat, d: nat, va: Word, pp: nat)
    requires Inv(v, role, kd) && UserPage(role, d, va) && Present(v.page[d][Pdx(va)])
    requires Mappable(role, pp) && !Maps(v, d, Pdx(va), Ptx(va), pp)
    ensures Remove(v, d, va).Ok?
    ensures var v', role' := Remove(v, d, va).value, RemoveRole(v, role, d, va);
            && |v'.page| == |v.page| && |v'.rc| == |role'| == |role| && v'.page[d] == v.page[d] && Walk(v', d, va).None?
            && role'[d] == role[d] && role'[pp] == role[pp] && v'.rc[pp] == v.rc[pp]
  {
    hide Inv, Remove, Walk, Leaf, Store;
    if Walk(v, d, va).None? {
      RemoveNothing(v, role, kd, d, va);
    } else {
      var v', g, t := RemoveForm(v, role, kd, d, va);
      ClearedWalk(v, v', d, va, t, pp, g);
    }
  }

  /** Clearing the entry of va in its table t unmaps va and leaves the directory as it is. */
  lemma ClearedWalk(v: Vm, v': Vm, d: nat, va: Word, t: nat, pp: nat, g: nat)
    requires d < |v.page| && t < |v.page| && t != d && v'.page == Store(v, t, Ptx(va), 0).page
    requires Present(v.page[d][Pdx(va)]) && Frame(v.page[d][Pdx(va)]) == t
    requires Walk(v, d, va).Some? && g == Frame(Walk(v, d, va).value)
    ensures |v'.page| == |v.page| && v'.page[d] == v.page[d] && Walk(v', d, va).None?
    ensures !Maps(v, d, Pdx(va), Ptx(va), pp) ==> g != pp
  {
  }
}
