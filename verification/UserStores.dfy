/** What a program itself can write to: with the protection bits of section 6.4 of the 80386 Programmer's
    Reference Manual, a store from user mode reaches the task's own data frames only. */
module UserStores {
  import opened Wrappers
  import opened Mmu
  import opened PageTables
  import opened Ownership
  import opened Translation
  import opened OwnershipSteps
  import opened Isolation
  import opened RegionSteps
  import opened UserMemory
  import opened Regions

  /** Both levels of the tables let the user write. */
  predicate UserWritable(e: Word) {
    Present(e) && Writable(e) && UserAccessible(e)
  }

  /** The processor lets the user store to address a under directory d. */
  predicate UserCanWrite(v: Vm, d: nat, a: Word)
    requires d < |v.page|
  {
    var pde := v.page[d][Pdx(a)];
    UserWritable(pde) && Frame(pde) < |v.page| && UserWritable(v.page[Frame(pde)][Ptx(a)])
  }

  /** Every task maps its own frames only. */
  ghost predicate AllOwn(v: Vm, role: seq<Role>) {
    forall d :: 0 <= d < |role| && role[d].Dir? ==> OwnPages(v, d)
  }

  /** Outside of its self-map, the kernel's directory maps nothing that the user may write. */
  ghost predicate NoUserWrites(v: Vm, kd: nat)
    requires kd < |v.page|
  {
    forall x, y :: UTOPX <= x < 1024 && x != UVPTX && 0 <= y < 1024 && Leaf(v, kd, x, y).Some? ==>
      !UserWritable(Leaf(v, kd, x, y).value)
  }

  ghost predicate Guarded(v: Vm, role: seq<Role>, kd: nat) {
    kd < |v.page| && AllOwn(v, role) && NoUserWrites(v, kd)
  }

  /** Above UTOP the user cannot write: the kernel's pages are not writable for the user, and the
      self-map is not writable at all. */
  lemma AboveUtopGuarded(v: Vm, role: seq<Role>, kd: nat, d: nat, a: Word)
    requires Inv(v, role, kd) && NoUserWrites(v, kd) && d < |role| && role[d].Dir? && Pdx(a) >= UTOPX
    ensures !UserCanWrite(v, d, a)
  {
    var x := Pdx(a);
    assert v.page[d][x] == if x == UVPTX then SelfMap(d) else v.page[kd][x];
    if x == UVPTX {
      FlagBits(SelfMap(d));
    } else {
      assert Leaf(v, kd, x, Ptx(a)) == Leaf(v, d, x, Ptx(a));
    }
  }

  lemma UserWritesBelowUtop(v: Vm, role: seq<Role>, kd: nat, d: nat, a: Word)
    requires Inv(v, role, kd) && NoUserWrites(v, kd) && d < |role| && role[d].Dir? && UserCanWrite(v, d, a)
    ensures a < UTOP && Walk(v, d, a).Some? && Writable(Walk(v, d, a).value)
  {
    LayoutIndexes();
    if Pdx(a) >= UTOPX {
      AboveUtopGuarded(v, role, kd, d, a);
    }
  }

  /**
   A store from user mode succeeds, changes the one byte that this task reads there, and nothing that
   any other task reads, no table, no count and no frame of the kernel.
   */
  lemma UserStoreSteps(v: Vm, role: seq<Role>, kd: nat, d: nat, a: Word, b: Byte) returns (v': Vm)
    requires Inv(v, role, kd) && Guarded(v, role, kd) && d < |role| && role[d].Dir? && UserCanWrite(v, d, a)
    ensures StoreByte(v, d, a, b) == Ok(v') && Inv(v', role, kd) && Guarded(v', role, kd)
    ensures a < UTOP && Frame(Walk(v, d, a).value) < |role| && role[Frame(Walk(v, d, a).value)].Data?
    ensures Isolated(v, role, kd, v', role, d) && v'.rc == v.rc && v'.free == v.free
    ensures forall c: Word :: c < UTOP ==> Read(v', d, c) == if c == a then Some(b) else Read(v, d, c)
  {
    hide Inv, Isolated, OwnPages, Read, NoUserWrites, UserCanWrite;
    UserWritesBelowUtop(v, role, kd, d, a);
    v' := StoreByteSteps(v, role, kd, d, a, b);
    StoredData(v, role, kd, d, a);
    StoreKeepsCounts(v, d, a, b);
    StoreKeepsGuarded(v, role, kd, d, a, b, v');
  }

  lemma StoredData(v: Vm, role: seq<Role>, kd: nat, d: nat, a: Word)
    requires Inv(v, role, kd) && d < |role| && role[d].Dir? && a < UTOP && Walk(v, d, a).Some?
    ensures Frame(Walk(v, d, a).value) < |role| && role[Frame(Walk(v, d, a).value)].Data?
  {
    LayoutIndexes();
    DataIsMapped(v, role, kd, d, Pdx(a), Ptx(a), Frame(Walk(v, d, a).value));
  }

  lemma StoreKeepsCounts(v: Vm, d: nat, a: Word, b: Byte)
    requires Wf(v) && d < |v.page| && StoreByte(v, d, a, b).Ok?
    ensures StoreByte(v, d, a, b).value.rc == v.rc && StoreByte(v, d, a, b).value.free == v.free
  {
    hide Walk;
  }

  /** Translations and counts are what Guarded speaks of, and a store changes neither. */
  lemma StoreKeepsGuarded(v: Vm, role: seq<Role>, kd: nat, d: nat, a: Word, b: Byte, v': Vm)
    requires Inv(v, role, kd) && Guarded(v, role, kd) && d < |role| && role[d].Dir? && a < UTOP && Walk(v, d, a).Some?
    requires StoreByte(v, d, a, b) == Ok(v')
    ensures Guarded(v', role, kd)
  {
    hide Inv, Walk, Leaf, SetPageByte;
    StoredData(v, role, kd, d, a);
    var g := Frame(Walk(v, d, a).value);
    DataWriteLeaves(v, role, kd, g, SetPageByte(v.page[g], Pgoff(a), b));
    assert IsDir(role, kd, kd);
    forall c | 0 <= c < |role| && role[c].Dir?
      ensures OwnPages(v', c)
    {
      assert OwnPages(v, c) && IsDir(role, kd, c);
    }
  }

  /** Isolation, as bytes that another task reads. */
  lemma IsolatedReads(v: Vm, role: seq<Role>, kd: nat, v': Vm, role': seq<Role>, d: nat, c: nat, a: Word)
    requires Inv(v, role, kd) && Isolated(v, role, kd, v', role', d) && c < |role| && role[c].Dir? && c != d && a < UTOP
    ensures c < |v'.page| && Read(v', c, a) == Read(v, c, a)
  {
    LayoutIndexes();
    assert IsDir(role, kd, c);
    assert Leaf(v', c, Pdx(a), Ptx(a)) == Leaf(v, c, Pdx(a), Ptx(a));
    if Walk(v, c, a).Some? {
      var g := Frame(Walk(v, c, a).value);
      DataIsMapped(v, role, kd, c, Pdx(a), Ptx(a), g);
      assert Maps(v, c, Pdx(a), Ptx(a), g);
    }
  }

  // What the kernel's own steps keep

  /**
   If directories other than d translate as before and d, when it is a task's afterwards, maps its own
   frames only, then all tasks do.
   */
  lemma StaysGuarded(v: Vm, role: seq<Role>, kd: nat, v': Vm, role': seq<Role>, d: nat)
    requires Inv(v, role, kd) && Guarded(v, role, kd) && Inv(v', role', kd) && SameWalks(v, role, kd, v', d)
    requires |role'| == |role| && d != kd && forall c :: 0 <= c < |role| && c != d && role'[c].Dir? ==> role[c].Dir?
    requires d < |role'| && role'[d].Dir? ==> OwnPages(v', d)
    ensures Guarded(v', role', kd)
  {
    hide Inv, Leaf;
    assert IsDir(role, kd, kd);
    forall c | 0 <= c < |role'| && role'[c].Dir?
      ensures OwnPages(v', c)
    {
      if c != d {
        OthersStayOwn(v, role, kd, v', role', d, c);
      }
    }
  }

  lemma OthersStayOwn(v: Vm, role: seq<Role>, kd: nat, v': Vm, role': seq<Role>, d: nat, c: nat)
    requires Inv(v, role, kd) && AllOwn(v, role) && Inv(v', role', kd) && SameWalks(v, role, kd, v', d)
    requires |role'| == |role| && forall e :: 0 <= e < |role| && e != d && role'[e].Dir? ==> role[e].Dir?
    requires d < |role'| && role'[d].Dir? ==> OwnPages(v', d)
    requires c < |role'| && role'[c].Dir? && c != d
    ensures OwnPages(v', c)
  {
    hide Inv, Leaf, Mappings;
    assert OwnPages(v, c) && IsDir(role, kd, c);
    forall i: nat, j: nat | i < UTOPX && j < 1024 && Leaf(v', c, i, j).Some?
      ensures OwnPage(v', Leaf(v', c, i, j).value)
    {
      assert Leaf(v', c, i, j) == Leaf(v, c, i, j);
      var g := Frame(Leaf(v', c, i, j).value);
      assert Maps(v', c, i, j, g) && Maps(v, c, i, j, g);
      DataIsMapped(v', role', kd, c, i, j, g);
      DataIsMapped(v, role, kd, c, i, j, g);
      DataCount(v', role', kd, g);
      OneSlot(v, role, kd, v', role', d, c, i, j, g);
    }
  }

  /** Frame g, mapped once by c, is still mapped once. */
  lemma OneSlot(v: Vm, role: seq<Role>, kd: nat, v': Vm, role': seq<Role>, d: nat, c: nat, i: nat, j: nat, g: nat)
    requires Inv(v, role, kd) && Inv(v', role', kd) && SameWalks(v, role, kd, v', d)
    requires |role'| == |role| && forall e :: 0 <= e < |role| && e != d && role'[e].Dir? ==> role[e].Dir?
    requires d < |role'| && role'[d].Dir? ==> OwnPages(v', d)
    requires c < |role'| && role'[c].Dir? && role[c].Dir? && c != d && i < UTOPX && j < 1024 && g < |role|
    requires Maps(v, c, i, j, g) && Maps(v', c, i, j, g) && v.rc[g] == 1 && v'.rc[g] == |Mappings(v', role', g)|
    ensures v'.rc[g] == 1
  {
    var s := Slot(c, i, j);
    assert s in Mappings(v', role', g);
    if other :| other in Mappings(v', role', g) && other.dir == d {
      assert OwnPage(v', Leaf(v', d, other.pdx, other.ptx).value);
    } else {
      forall o | o in Mappings(v', role', g)
        ensures o == s
      {
        StillMapped(v, role, kd, v', role', d, g, o);
        assert s in Mappings(v, role, g);
        TwoMappings(v, role, kd, g, s, o);
      }
      assert Mappings(v', role', g) == {s};
    }
  }

  lemma StillMapped(v: Vm, role: seq<Role>, kd: nat, v': Vm, role': seq<Role>, d: nat, g: nat, o: Slot)
    requires |role| == |v.page| && SameWalks(v, role, kd, v', d) && |role'| == |role|
    requires forall e :: 0 <= e < |role| && e != d && role'[e].Dir? ==> role[e].Dir?
    requires o in Mappings(v', role', g) && o.dir != d
    ensures o in Mappings(v, role, g)
  {
    assert IsDir(role, kd, o.dir);
    assert Leaf(v', o.dir, o.pdx, o.ptx) == Leaf(v, o.dir, o.pdx, o.ptx);
  }

  /** A frame with count one is not mapped at two places. */
  lemma TwoMappings(v: Vm, role: seq<Role>, kd: nat, g: nat, a: Slot, b: Slot)
    requires Inv(v, role, kd) && g < |role| && v.rc[g] == 1 && a in Mappings(v, role, g) && b in Mappings(v, role, g)
    ensures a == b
  {
    DataIsMapped(v, role, kd, a.dir, a.pdx, a.ptx, g);
    if a != b {
      assert {a, b} <= Mappings(v, role, g) && |{a, b}| == 2;
      SubsetSize({a, b}, Mappings(v, role, g));
    }
  }

  /** The bits in question: both entries have present, writable and user set. */
  lemma UserCanWriteIff(v: Vm, d: nat, a: Word)
    requires d < |v.page|
    ensures UserCanWrite(v, d, a) <==>
              var pde := v.page[d][a / 0x40_0000];
              pde % 8 == 7 && pde / 0x1000 < |v.page| && v.page[pde / 0x1000][a / 0x1000 % 1024] % 8 == 7
  {
    var pde := v.page[d][Pdx(a)];
    AllThree(pde);
    if Frame(pde) < |v.page| {
      AllThree(v.page[Frame(pde)][Ptx(a)]);
    }
  }

  lemma AllThree(e: Word)
    ensures UserWritable(e) <==> e % 8 == 7
  {
    var q, r := e / 8, e % 8;
    assert e == 8 * q + r && e / 2 == 4 * q + r / 2;
    LowBits(q, r);
  }

  lemma LowBits(q: nat, r: nat)
    requires r < 8
    ensures (8 * q + r) % 2 == r % 2 && (4 * q + r / 2) % 2 == r / 2 % 2
    ensures r >= 4 && r / 2 % 2 == 1 && r % 2 == 1 <==> r == 7
  {
  }
}
