/** Reference counts are exact, and frames are conserved over a task's life. */
module Exactness {
  import opened Wrappers
  import opened Mmu
  import opened PageTables
  import opened Ownership
  import opened Translation
  import opened OwnershipSteps
  import opened RadixTree
  import opened Isolation

  /** A live reference to a frame: a task's directory pointer, a directory entry below UTOP, or a
      page-table entry below UTOP. */
  datatype Ref = Root(dir: nat) | Pde(dir: nat, pdx: nat) | Pte(dir: nat, pdx: nat, ptx: nat)

  ghost function Roots(v: Vm, role: seq<Role>, f: nat): set<Ref>
    requires |role| == |v.page|
  {
    set d | 0 <= d < |role| && role[d].Dir? && d == f :: Root(d)
  }

  ghost function Pdes(v: Vm, role: seq<Role>, f: nat): set<Ref>
    requires |role| == |v.page|
  {
    set d, x | 0 <= d < |role| && 0 <= x < UTOPX && role[d].Dir? && Present(v.page[d][x])
      && Frame(v.page[d][x]) == f :: Pde(d, x)
  }

  ghost function Ptes(v: Vm, role: seq<Role>, f: nat): set<Ref>
    requires |role| == |v.page|
  {
    set s | s in Mappings(v, role, f) :: Pte(s.dir, s.pdx, s.ptx)
  }

  /** All live references to frame f. */
  ghost function Refs(v: Vm, role: seq<Role>, f: nat): set<Ref>
    requires |role| == |v.page|
  {
    Roots(v, role, f) + Pdes(v, role, f) + Ptes(v, role, f)
  }

  /** The references of one kind, by what the frame is used for. */
  lemma RefsByRole(v: Vm, role: seq<Role>, kd: nat, f: nat)
    requires Inv(v, role, kd) && f < |role|
    ensures Roots(v, role, f) == if role[f].Dir? then {Root(f)} else {}
    ensures Pdes(v, role, f) == if role[f].Table? then {Pde(role[f].dir, role[f].pdx)} else {}
    ensures !role[f].Data? ==> Ptes(v, role, f) == {}
  {
    if !role[f].Data? {
      NothingMapsUnowned(v, role, kd, f);
    }
  }

  lemma {:induction false} PtesSize(ms: set<Slot>)
    ensures |set s | s in ms :: Pte(s.dir, s.pdx, s.ptx)| == |ms|
    decreases |ms|
  {
    if ms != {} {
      var m :| m in ms;
      PtesSize(ms - {m});
      var rest := set s | s in ms - {m} :: Pte(s.dir, s.pdx, s.ptx);
      assert (set s | s in ms :: Pte(s.dir, s.pdx, s.ptx)) == rest + {Pte(m.dir, m.pdx, m.ptx)};
      assert Pte(m.dir, m.pdx, m.ptx) !in rest;
    }
  }

  /**
   Reference exactness: outside of the kernel's own frames and of the frames that create has lost,
   the 16-bit count of a frame is the number of live references to it. A frame on the free list
   has none, and a frame with a reference has a positive count, so that it can be dropped again.
   */
  lemma CountsAreExact(v: Vm, role: seq<Role>, kd: nat, f: nat)
    requires Inv(v, role, kd) && f < |role| && !role[f].Kernel? && !role[f].Lost?
    ensures v.rc[f] == |Refs(v, role, f)|
    ensures f in v.free ==> Refs(v, role, f) == {}
    ensures Refs(v, role, f) != {} ==> v.rc[f] > 0
  {
    RefsByRole(v, role, kd, f);
    if role[f].Data? {
      PtesSize(Mappings(v, role, f));
      assert Refs(v, role, f) == Ptes(v, role, f);
    }
  }

  /** Exactness pinned down: a frame is free or in flight exactly when nothing refers to it. */
  lemma UnreferencedIff(v: Vm, role: seq<Role>, kd: nat, f: nat)
    requires Inv(v, role, kd) && f < |role| && !role[f].Kernel? && !role[f].Lost?
    ensures Refs(v, role, f) == {} <==> f in v.free || role[f].InFlight?
  {
    CountsAreExact(v, role, kd, f);
    hide Refs;
  }

  // insert and the 16-bit count

  /** What insert does to counts and free list where a frame g is already mapped: re-inserting g
      keeps its count and never frees it; another frame releases g exactly on its last reference. */
  lemma InsertReleases(v: Vm, role: seq<Role>, kd: nat, d: nat, pp: nat, va: Word, perm: nat, g: nat) returns (v': Vm)
    requires Inv(v, role, kd) && UserPage(role, d, va) && Mappable(role, pp) && perm < 0x1000
    requires Maps(v, d, Pdx(va), Ptx(va), g)
    ensures Insert(v, d, pp, va, perm) == Ok((v', true)) && g < |v.rc| == |v'.rc|
    ensures g == pp ==> v'.rc == v.rc && v'.free == v.free
    ensures g != pp ==> v'.rc[g] == v.rc[g] - 1 && (g in v'.free <==> v.rc[g] == 1)
    ensures g != pp ==> v'.free == if v.rc[g] == 1 then [g] + v.free else v.free
    ensures g != pp && v.rc[pp] < 0xFFFF ==> v'.rc[pp] == v.rc[pp] + 1
    ensures forall h :: 0 <= h < |v.rc| && h != g && h != pp ==> v'.rc[h] == v.rc[h]
  {
    var t := MappedFindPte(v, role, kd, d, va);
    v' := InsertForm(v, role, kd, d, pp, va, perm, v, t);
    hide Insert, FindPte, Inserted;
    if g == pp {
      InsertedAgain(v, d, pp, va, MakePte(pp, WithPresent(perm)), v');
    } else {
      InsertedOther(v, role, kd, d, pp, va, MakePte(pp, WithPresent(perm)), v', g);
    }
  }

  lemma MappedFindPte(v: Vm, role: seq<Role>, kd: nat, d: nat, va: Word) returns (t: nat)
    requires Inv(v, role, kd) && UserPage(role, d, va) && Walk(v, d, va).Some?
    ensures FindPte(v, d, va, true) == Ok((v, PteAt(t, Ptx(va))))
    ensures Frame(Walk(v, d, va).value) < |role| && role[Frame(Walk(v, d, va).value)].Data?
  {
    LayoutIndexes();
    Target(v, role, kd, d, Pdx(va));
    t := Frame(v.page[d][Pdx(va)]);
  }

  lemma InsertedAgain(v: Vm, d: nat, pp: nat, va: Word, w: Word, v': Vm)
    requires Inserted(v, d, pp, va, w, v') && Maps(v, d, Pdx(va), Ptx(va), pp)
    ensures v'.rc == v.rc && v'.free == v.free
  {
  }

  lemma InsertedOther(v: Vm, role: seq<Role>, kd: nat, d: nat, pp: nat, va: Word, w: Word, v': Vm, g: nat)
    requires Inv(v, role, kd) && UserPage(role, d, va) && Inserted(v, d, pp, va, w, v')
    requires Maps(v, d, Pdx(va), Ptx(va), g) && g != pp
    ensures g < |v.rc| == |v'.rc| && pp < |v.rc| && v'.rc[g] == v.rc[g] - 1 && (g in v'.free <==> v.rc[g] == 1)
    ensures v'.free == if v.rc[g] == 1 then [g] + v.free else v.free
    ensures v.rc[pp] < 0xFFFF ==> v'.rc[pp] == v.rc[pp] + 1
    ensures forall h :: 0 <= h < |v.rc| && h != g && h != pp ==> v'.rc[h] == v.rc[h]
  {
    hide Inv, Remove, UserPage;
    var v1, g1, t := RemoveForm(v, role, kd, d, va);
    DataNotFree(v, role, kd, g);
    InsertedForm(v, d, pp, va, w, v', v1, t, g);
    hide Inserted;
    assert v1.rc[pp] == v.rc[pp];
  }

  lemma DataNotFree(v: Vm, role: seq<Role>, kd: nat, g: nat)
    requires Inv(v, role, kd) && g < |role| && role[g].Data?
    ensures g !in v.free && |v.rc| == |v.page| == |role|
  {
  }

  lemma InsertedForm(v: Vm, d: nat, pp: nat, va: Word, w: Word, v': Vm, v1: Vm, t: nat, g: nat)
    requires Inserted(v, d, pp, va, w, v') && Maps(v, d, Pdx(va), Ptx(va), g) && g != pp
    requires Remove(v, d, va) == Ok(v1) && t == Frame(v.page[d][Pdx(va)]) && |v1.rc| == |v.rc|
    ensures pp < |v.rc| && v'.rc == v1.rc[pp := (v1.rc[pp] + 1) % 0x1_0000] && v'.free == v1.free
  {
    hide Remove;
  }

  /** The count of the inserted frame stays exact if and only if it does not pass 65535, is not
      raised because the frame was mapped there before, or the insertion failed. */
  lemma InsertExactIff(v: Vm, role: seq<Role>, kd: nat, d: nat, pp: nat, va: Word, perm: nat, v': Vm, ok: bool)
    requires Inv(v, role, kd) && UserPage(role, d, va) && Mappable(role, pp) && perm < 0x1000
    requires Insert(v, d, pp, va, perm) == Ok((v', ok))
    ensures (v'.rc[pp] == |Mappings(v', role, pp)|) <==> (v.rc[pp] < 0xFFFF || Maps(v, d, Pdx(va), Ptx(va), pp) || !ok)
  {
    if !ok {
      hide Mappings;
      FailedInsertExact(v, role, kd, d, pp, va, perm, v');
    } else if v.rc[pp] < 0xFFFF || Maps(v, d, Pdx(va), Ptx(va), pp) {
      hide Mappings;
      GoodInsertExact(v, role, kd, d, pp, va, perm, v');
    } else {
      hide Inv, Insert, Mappings;
      InsertOverflows(v, role, kd, d, pp, va, perm, v');
      InsertedIsMapped(v, role, kd, d, pp, va, perm, v');
    }
  }

  lemma FailedInsertExact(v: Vm, role: seq<Role>, kd: nat, d: nat, pp: nat, va: Word, perm: nat, v': Vm)
    requires Inv(v, role, kd) && UserPage(role, d, va) && Mappable(role, pp) && perm < 0x1000
    requires Insert(v, d, pp, va, perm) == Ok((v', false))
    ensures v'.rc[pp] == |Mappings(v', role, pp)|
  {
    InsertIsUpdate(v, role, kd, d, pp, va, perm, d, va);
    MappableCount(v, role, kd, pp);
  }

  lemma GoodInsertExact(v: Vm, role: seq<Role>, kd: nat, d: nat, pp: nat, va: Word, perm: nat, v': Vm)
    requires Inv(v, role, kd) && UserPage(role, d, va) && Mappable(role, pp) && perm < 0x1000
    requires Insert(v, d, pp, va, perm) == Ok((v', true)) && (v.rc[pp] < 0xFFFF || Maps(v, d, Pdx(va), Ptx(va), pp))
    ensures v'.rc[pp] == |Mappings(v', role, pp)|
  {
    hide Insert;
    var v1, ok1, role' := InsertKeepsInv(v, role, kd, d, pp, va, perm);
    assert Mappings(v', role, pp) == Mappings(v', role', pp);
  }

  lemma InsertedIsMapped(v: Vm, role: seq<Role>, kd: nat, d: nat, pp: nat, va: Word, perm: nat, v': Vm)
    requires Inv(v, role, kd) && UserPage(role, d, va) && Mappable(role, pp) && perm < 0x1000
    requires Insert(v, d, pp, va, perm) == Ok((v', true))
    ensures |v'.page| == |role| && |Mappings(v', role, pp)| > 0
  {
    InsertIsUpdate(v, role, kd, d, pp, va, perm, d, va);
    LayoutIndexes();
    hide Inv, Insert;
    assert Slot(d, Pdx(va), Ptx(va)) in Mappings(v', role, pp);
  }

  lemma InsertOverflows(v: Vm, role: seq<Role>, kd: nat, d: nat, pp: nat, va: Word, perm: nat, v': Vm)
    requires Inv(v, role, kd) && UserPage(role, d, va) && Mappable(role, pp) && perm < 0x1000
    requires Insert(v, d, pp, va, perm) == Ok((v', true)) && v.rc[pp] == 0xFFFF && !Maps(v, d, Pdx(va), Ptx(va), pp)
    ensures v'.rc[pp] == 0
  {
    FindPteKeepsInv(v, role, kd, d, va);
    var r := FindPte(v, d, va, true).value;
    if r.1.PteAt? {
      var v2 := InsertForm(v, role, kd, d, pp, va, perm, r.0, r.1.table);
      FindPteKeepsTranslations(v, role, kd, d, va, r.0, r.1, d, va);
      LayoutIndexes();
      hide Inv, Insert, Inserted, FindPte;
      InsertedOverflows(r.0, FindPteRole(v, role, d, va), kd, d, pp, va, MakePte(pp, WithPresent(perm)), v');
    }
  }

  lemma InsertedOverflows(v: Vm, role: seq<Role>, kd: nat, d: nat, pp: nat, va: Word, w: Word, v': Vm)
    requires Inv(v, role, kd) && UserPage(role, d, va) && Mappable(role, pp) && Inserted(v, d, pp, va, w, v')
    requires v.rc[pp] == 0xFFFF && !Maps(v, d, Pdx(va), Ptx(va), pp)
    ensures v'.rc[pp] == 0
  {
    RemoveClears(v, role, kd, d, va, pp);
    hide Inv, Remove;
  }

  // Conservation

  /** Two states whose live directories translate alike below UTOP have the same data frames. */
  lemma SameData(v0: Vm, role0: seq<Role>, v1: Vm, role1: seq<Role>, kd: nat, d: nat, f: nat)
    requires Inv(v0, role0, kd) && Inv(v1, role1, kd) && SameWalks(v0, role0, kd, v1, d)
    requires d < |role0| && !role0[d].Dir? && f < |role0| && role0[f].Data?
    requires |role1| == |role0| && forall c :: 0 <= c < |role0| && role0[c].Dir? ==> role1[c].Dir?
    ensures role1[f].Data?
  {
    assert Mappings(v0, role0, f) != {};
    var s :| s in Mappings(v0, role0, f);
    assert IsDir(role0, kd, s.dir) && s.dir != d;
    assert Leaf(v1, s.dir, s.pdx, s.ptx) == Leaf(v0, s.dir, s.pdx, s.ptx);
    DataIsMapped(v1, role1, kd, s.dir, s.pdx, s.ptx, f);
  }

  /**
   Conservation: if frame d was free, served as a task directory for a while, and is free again,
   while the other directories kept their translations, then every frame has its old role back.
   */
  lemma RolesRestored(v0: Vm, role0: seq<Role>, v1: Vm, role1: seq<Role>, kd: nat, d: nat)
    requires Inv(v0, role0, kd) && Inv(v1, role1, kd) && SameWalks(v0, role0, kd, v1, d)
    requires d < |role0| && role0[d].Free? && |role1| == |role0| && role1[d].Free? && OnlyChurnBut(role0, role1, d, d)
    ensures role1 == role0
  {
    forall f | 0 <= f < |role0|
      ensures role1[f] == role0[f]
    {
      if f != d && role1[f] != role0[f] {
        assert Churn(role0[f], d) && Churn(role1[f], d);
        if role0[f].Data? {
          SameData(v0, role0, v1, role1, kd, d, f);
        } else if role1[f].Data? {
          SameWalksBack(v0, role0, v1, role1, kd, d);
          SameData(v1, role1, v0, role0, kd, d, f);
        }
      }
    }
  }

  lemma SameWalksBack(v0: Vm, role0: seq<Role>, v1: Vm, role1: seq<Role>, kd: nat, d: nat)
    requires SameWalks(v0, role0, kd, v1, d) && |role1| == |role0|
    requires d < |role0| && role0[d].Free? && OnlyChurnBut(role0, role1, d, d)
    ensures SameWalks(v1, role1, kd, v0, d)
    ensures forall c :: 0 <= c < |role0| && role1[c].Dir? && c != d ==> role0[c].Dir?
  {
    forall c: nat, i: nat, j: nat | c != d && IsDir(role1, kd, c) && i < 1024 && j < 1024
      ensures Leaf(v0, c, i, j) == Leaf(v1, c, i, j)
    {
      assert IsDir(role0, kd, c);
      assert Leaf(v1, c, i, j) == Leaf(v0, c, i, j);
    }
  }

  /** Frames with the same roles: the same frames are free, and all counts agree. */
  lemma SameRolesSameCounts(v0: Vm, v1: Vm, role: seq<Role>, kd: nat, d: nat)
    requires Inv(v0, role, kd) && Inv(v1, role, kd) && SameWalks(v0, role, kd, v1, d) && d < |role| && !role[d].Dir?
    ensures forall f :: f in v1.free <==> f in v0.free
    ensures forall f :: 0 <= f < |role| && !role[f].Kernel? ==> v1.rc[f] == v0.rc[f]
  {
    forall f | 0 <= f < |role| && role[f].Data?
      ensures Mappings(v1, role, f) == Mappings(v0, role, f)
    {
      SameMappings(v0, role, v1, role, f);
    }
    forall f
      ensures f in v1.free <==> f in v0.free
    {
      if f in v0.free || f in v1.free {
        assert 0 <= f < |role|;
      }
    }
  }
}
