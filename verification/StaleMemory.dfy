/**
 Memory as it is after the kernel really boots. The self-test of pgdir::init (kernel/vmem.cc) leaves the
 kernel's directory with a page table for 0x80000000, which setupMemory then copies into every task
 directory. So the invariant does not hold; what does hold is that it would if these entries were
 cleared. As long as no task is freed and no program uses that window, this weaker invariant stays.
 */
module StaleMemory {
  import opened Wrappers
  import opened Mmu
  import opened PageTables
  import opened Ownership
  import opened Translation
  import opened OwnershipSteps
  import opened Isolation
  import opened AddressSpaces
  import opened AddressSpaceSteps
  import opened RegionSteps
  import opened UserMemory
  import opened UserStores
  import opened Regions
  import opened ElfLoader
  import opened TaskInvariant

  /** The directory entry of 0x80000000. */
  const STALEX: nat := 512

  /** The entry that the self-test leaves for page table t. */
  function StaleEntry(t: nat): Word
    requires t < 0x10_0000
  {
    MakePte(t, PTE_P + PTE_W + PTE_U)
  }

  function LiftPage(v: Vm, dirs: set<nat>, c: nat): Page
    requires c < |v.page|
  {
    if c in dirs then v.page[c][STALEX := 0] else v.page[c]
  }

  /** Memory with the entry cleared in the given directories. */
  function Lift(v: Vm, dirs: set<nat>): (u: Vm)
    ensures u.free == v.free && u.rc == v.rc && |u.page| == |v.page|
    ensures forall c :: 0 <= c < |v.page| ==> u.page[c] == LiftPage(v, dirs, c)
    ensures Wf(v) <==> Wf(u)
  {
    Vm(v.free, v.rc, seq(|v.page|, c requires 0 <= c < |v.page| => LiftPage(v, dirs, c)))
  }

  /** Two memories are equal when their parts are. */
  lemma SameVm(a: Vm, b: Vm)
    requires a.free == b.free && a.rc == b.rc && |a.page| == |b.page| && forall c :: 0 <= c < |a.page| ==>
        a.page[c] == b.page[c]
    ensures a == b
  {
    assert a.page == b.page;
  }

  /** From v to v', the entries in the given directories stay. */
  ghost predicate MarksKept(v: Vm, v': Vm, dirs: set<nat>) {
    |v'.page| == |v.page| && forall c :: c in dirs && c < |v.page| ==> v'.page[c][STALEX] == v.page[c][STALEX]
  }

  function LiftRes(r: Res<Vm>, dirs: set<nat>): Res<Vm> {
    if r.Ok? then Ok(Lift(r.value, dirs)) else r
  }

  // Single steps and the clearing commute

  lemma FillLifts(v: Vm, dirs: set<nat>, f: nat, p: Page)
    requires f < |v.page| && f !in dirs
    ensures Fill(Lift(v, dirs), f, p) == Lift(Fill(v, f, p), dirs) && MarksKept(v, Fill(v, f, p), dirs)
  {
    SameVm(Fill(Lift(v, dirs), f, p), Lift(Fill(v, f, p), dirs));
  }

  lemma StoreLifts(v: Vm, dirs: set<nat>, t: nat, i: nat, w: Word)
    requires t < |v.page| && i < 1024 && (t in dirs ==> i != STALEX)
    ensures Store(Lift(v, dirs), t, i, w) == Lift(Store(v, t, i, w), dirs) && MarksKept(v, Store(v, t, i, w), dirs)
  {
    SameVm(Store(Lift(v, dirs), t, i, w), Lift(Store(v, t, i, w), dirs));
  }

  /** Counts and the free list are not concerned. */
  lemma CountsLift(v: Vm, dirs: set<nat>, free: seq<nat>, rc: seq<nat>)
    ensures Vm(free, rc, Lift(v, dirs).page) == Lift(Vm(free, rc, v.page), dirs)
    ensures MarksKept(v, Vm(free, rc, v.page), dirs)
  {
    SameVm(Vm(free, rc, Lift(v, dirs).page), Lift(Vm(free, rc, v.page), dirs));
  }

  lemma AllocLifts(v: Vm, dirs: set<nat>, zero: bool)
    requires Wf(v) && (v.free != [] ==> v.free[0] !in dirs)
    ensures AllocFrame(Lift(v, dirs), zero) == (Lift(AllocFrame(v, zero).0, dirs), AllocFrame(v, zero).1)
    ensures MarksKept(v, AllocFrame(v, zero).0, dirs)
  {
    if v.free != [] {
      CountsLift(v, dirs, v.free[1..], v.rc);
      FillLifts(Pop(v), dirs, v.free[0], ZeroPage());
    }
  }

  lemma DecRefLifts(v: Vm, dirs: set<nat>, f: nat)
    requires f < |v.rc|
    ensures DecRef(Lift(v, dirs), f) == LiftRes(DecRef(v, f), dirs)
    ensures DecRef(v, f).Ok? ==> MarksKept(v, DecRef(v, f).value, dirs)
  {
    var n := (v.rc[f] + 0xFFFF) % 0x1_0000;
    CountsLift(v, dirs, v.free, v.rc[f := n]);
    CountsLift(v, dirs, [f] + v.free, v.rc[f := n]);
  }

  lemma IncRefLifts(v: Vm, dirs: set<nat>, f: nat)
    requires f < |v.rc|
    ensures IncRef(Lift(v, dirs), f) == Lift(IncRef(v, f), dirs) && MarksKept(v, IncRef(v, f), dirs)
  {
    CountsLift(v, dirs, v.free, v.rc[f := (v.rc[f] + 1) % 0x1_0000]);
  }

  lemma InstallLifts(v: Vm, dirs: set<nat>, d: nat, x: nat)
    requires Wf(v) && d < |v.page| && x < 1024 && x != STALEX && v.free != [] && v.free[0] !in dirs
    ensures InstallTable(Lift(v, dirs), d, x) == Lift(InstallTable(v, d, x), dirs)
        && MarksKept(v, InstallTable(v, d, x), dirs)
  {
    hide Lift, MakePte;
    var f := v.free[0];
    AllocLifts(v, dirs, true);
    var u := Fill(Pop(v), f, ZeroPage());
    IncRefLifts(u, dirs, f);
    StoreLifts(IncRef(u, f), dirs, d, x, MakePte(f, PTE_P + PTE_W + PTE_U));
  }

  // The page-table editor

  /** Entry x of directory d can be edited without touching a marked directory's mark. */
  ghost predicate Editing(v: Vm, dirs: set<nat>, d: nat, x: nat) {
    && Wf(v) && d < |v.page| && x < 1024 && x != STALEX && (forall f :: f in v.free ==> f !in dirs)
    && (Present(v.page[d][x]) ==> Frame(v.page[d][x]) !in dirs)
  }

  function LiftPte(r: Res<(Vm, PteLoc)>, dirs: set<nat>): Res<(Vm, PteLoc)> {
    if r.Ok? then Ok((Lift(r.value.0, dirs), r.value.1)) else r
  }

  lemma FindPteLifts(v: Vm, dirs: set<nat>, d: nat, va: Word)
    requires Editing(v, dirs, d, Pdx(va))
    ensures FindPte(Lift(v, dirs), d, va, true) == LiftPte(FindPte(v, d, va, true), dirs)
    ensures FindPte(v, d, va, true).Ok? ==>
              var v1, loc := FindPte(v, d, va, true).value.0, FindPte(v, d, va, true).value.1;
              && MarksKept(v, v1, dirs) && Wf(v1) && |v1.page| == |v.page|
              && (loc.PteAt? ==>
                    loc.table !in dirs && Present(v1.page[d][Pdx(va)]) && Frame(v1.page[d][Pdx(va)]) == loc.table)
  {
    hide Wf;
    if !Present(v.page[d][Pdx(va)]) && v.free != [] {
      assert v.free[0] in v.free;
      InstallLifts(v, dirs, d, Pdx(va));
    }
  }

  lemma RemoveLifts(v: Vm, dirs: set<nat>, d: nat, va: Word)
    requires Wf(v) && d < |v.page| && Pdx(va) != STALEX
        && (Present(v.page[d][Pdx(va)]) ==> Frame(v.page[d][Pdx(va)]) !in dirs)
    ensures Remove(Lift(v, dirs), d, va) == LiftRes(Remove(v, d, va), dirs)
    ensures Remove(v, d, va).Ok? ==> MarksKept(v, Remove(v, d, va).value, dirs)
  {
    assert FindInfo(Lift(v, dirs), d, va) == FindInfo(v, d, va);
    var found := FindInfo(v, d, va);
    if found.Ok? && found.value.Some? {
      var f, loc := found.value.value.0, found.value.value.1;
      DecRefLifts(v, dirs, f);
      var r := DecRef(v, f);
      hide FindInfo, DecRef, Lift, Wf;
      if r.Ok? {
        StoreLifts(r.value, dirs, loc.table, loc.index, 0);
      }
    }
  }

  function LiftDone(r: Res<(Vm, bool)>, dirs: set<nat>): Res<(Vm, bool)> {
    if r.Ok? then Ok((Lift(r.value.0, dirs), r.value.1)) else r
  }

  lemma InsertLifts(v: Vm, dirs: set<nat>, d: nat, pp: nat, va: Word, perm: nat)
    requires Editing(v, dirs, d, Pdx(va)) && pp < |v.page| && perm < 0x1000
    ensures Insert(Lift(v, dirs), d, pp, va, perm) == LiftDone(Insert(v, d, pp, va, perm), dirs)
    ensures Insert(v, d, pp, va, perm).Ok? ==> MarksKept(v, Insert(v, d, pp, va, perm).value.0, dirs)
  {
    FindPteLifts(v, dirs, d, va);
    var r1 := FindPte(v, d, va, true);
    hide FindPte;
    if r1.Ok? && r1.value.1.PteAt? {
      var v1, loc := r1.value.0, r1.value.1;
      IncRefLifts(v1, dirs, pp);
      var v2 := IncRef(v1, pp);
      RemoveLifts(v2, dirs, d, va);
      hide Remove;
      assert Lift(v2, dirs).page[loc.table] == v2.page[loc.table];
      var r3 := if Present(v2.page[loc.table][loc.index]) then Remove(v2, d, va) else Ok(v2);
      if r3.Ok? {
        StoreLifts(r3.value, dirs, loc.table, loc.index, MakePte(pp, WithPresent(perm)));
      }
    }
  }

  lemma AllocPageLifts(v: Vm, dirs: set<nat>, d: nat, va: Word)
    requires Editing(v, dirs, d, Pdx(va)) && d !in v.free
    requires Present(v.page[d][Pdx(va)]) ==> Frame(v.page[d][Pdx(va)]) !in v.free
    ensures AllocPage(Lift(v, dirs), d, va) == LiftRes(AllocPage(v, d, va), dirs)
    ensures AllocPage(v, d, va).Ok? ==> MarksKept(v, AllocPage(v, d, va).value, dirs)
  {
    hide Insert, Lift, AllocFrame, MarksKept, Editing;
    LiftWf(v, dirs, d, Pdx(va));
    if v.free != [] {
      AllocLifts(v, dirs, true);
      TakenEditing(v, dirs, d, Pdx(va));
      var v1 := AllocFrame(v, true).0;
      InsertLifts(v1, dirs, d, v.free[0], va, PTE_U + PTE_W);
      if Insert(v1, d, v.free[0], va, PTE_U + PTE_W).Ok? {
        MarksTrans(v, v1, Insert(v1, d, v.free[0], va, PTE_U + PTE_W).value.0, dirs);
      }
    } else {
      NoFrame(v, dirs);
    }
  }

  lemma NoFrame(v: Vm, dirs: set<nat>)
    requires Wf(v) && v.free == []
    ensures Wf(Lift(v, dirs)) && AllocFrame(v, true).1.None? && AllocFrame(Lift(v, dirs), true).1.None?
  {
  }

  lemma LiftWf(v: Vm, dirs: set<nat>, d: nat, x: nat)
    requires Editing(v, dirs, d, x)
    ensures Wf(v) && Wf(Lift(v, dirs)) && d < |v.page| == |Lift(v, dirs).page|
    ensures v.free != [] ==> v.free[0] < |v.page| && v.free[0] !in dirs
  {
    if v.free != [] {
      assert v.free[0] in v.free;
    }
  }

  lemma TakenEditing(v: Vm, dirs: set<nat>, d: nat, x: nat)
    requires Editing(v, dirs, d, x) && d !in v.free && v.free != []
    requires Present(v.page[d][x]) ==> Frame(v.page[d][x]) !in v.free
    ensures var a := AllocFrame(v, true);
            a.1 == Some(v.free[0]) && v.free[0] < |v.page| == |a.0.page| && Editing(a.0, dirs, d, x)
  {
    assert v.free[0] in v.free;
    assert forall f :: f in v.free[1..] ==> f in v.free;
  }

  // With roles

  /**
   The marked directories: the kernel's, every task's, and lost ones. Each has the entry for table
   t, which is empty, counted once, and belongs to nobody.
   */
  ghost predicate Marked(v: Vm, dirs: set<nat>, role: seq<Role>, kd: nat, t: nat) {
    && |role| == |v.page| <= 0x2_0000 && kd in dirs && t < |role| && t !in dirs && role[t].Lost?
      && v.page[t] == ZeroPage()
    && (forall c :: c in dirs ==>
          c < |role| && (c == kd || role[c].Dir? || role[c].Lost?) && v.page[c][STALEX] == StaleEntry(t))
    && (forall c :: 0 <= c < |role| && role[c].Dir? ==> c in dirs)
  }

  lemma EditingUser(v: Vm, dirs: set<nat>, role: seq<Role>, kd: nat, t: nat, d: nat, x: nat)
    requires Inv(Lift(v, dirs), role, kd) && Marked(v, dirs, role, kd, t) && d < |role| && role[d].Dir? && x < UTOPX
        && x != STALEX
    ensures Editing(v, dirs, d, x) && d !in v.free && (Present(v.page[d][x]) ==> Frame(v.page[d][x]) !in v.free)
    ensures Present(v.page[d][x]) ==> Frame(v.page[d][x]) < |role| && role[Frame(v.page[d][x])] == Table(d, x)
  {
    var u := Lift(v, dirs);
    assert u.page[d][x] == v.page[d][x];
    if Present(v.page[d][x]) {
      Target(u, role, kd, d, x);
    }
  }

  /** A step of one task that keeps the marks keeps them in the new roles. */
  lemma MarkedKeeps(v: Vm, dirs: set<nat>, role: seq<Role>, kd: nat, t: nat, v': Vm, role': seq<Role>, d: nat)
    requires Marked(v, dirs, role, kd, t) && Isolated(Lift(v, dirs), role, kd, Lift(v', dirs), role', d)
        && MarksKept(v, v', dirs)
    ensures Marked(v', dirs, role', kd, t)
  {
    hide SameWalks;
    assert Lift(v', dirs).page[t] == Lift(v, dirs).page[t];
  }

  /** Pages from p up to q are not in the window of the stale entry. */
  predicate PagesAvoid(p: nat, q: nat) {
    q <= STALEX * 1024 || (STALEX + 1) * 1024 <= p
  }

  lemma AvoidingPage(p: nat, q: nat)
    requires p < q <= Pgnum(UTOP) && PagesAvoid(p, q)
    ensures Pdx(p * PGSIZE) < UTOPX && Pdx(p * PGSIZE) != STALEX && p * PGSIZE < UTOP && PagesAvoid(p + 1, q)
  {
  }

  lemma {:induction false} AllocPagesLift(v: Vm, dirs: set<nat>, role: seq<Role>, kd: nat, t: nat, d: nat, p: nat,
      q: nat)
    requires Inv(Lift(v, dirs), role, kd) && Marked(v, dirs, role, kd, t) && d < |role| && role[d].Dir?
    requires q <= Pgnum(UTOP) && PagesAvoid(p, q)
    ensures Wf(v) && AllocPages(Lift(v, dirs), d, p, q) == LiftRes(AllocPages(v, d, p, q), dirs)
    ensures AllocPages(v, d, p, q).Ok? ==> MarksKept(v, AllocPages(v, d, p, q).value, dirs)
    decreases q - p
  {
    hide Inv, Marked, AllocPages, AllocPage, Lift, Isolated, PagesAvoid, Pgnum, Pdx, MarksKept, AllocPageWrites;
    LiftShape(v, dirs, role, kd, t);
    UnfoldAllocPages(v, d, p, q);
    UnfoldAllocPages(Lift(v, dirs), d, p, q);
    MarksRefl(v, dirs);
    if p < q {
      var va := p * PGSIZE;
      AvoidingPage(p, q);
      EditingUser(v, dirs, role, kd, t, d, Pdx(va));
      AllocPageLifts(v, dirs, d, va);
      var r := AllocPage(v, d, va);
      if r.Ok? {
        var v1 := r.value;
        UserPageAt(role, d, va);
        var role1, f := AllocPageSteps(Lift(v, dirs), role, kd, d, va, Lift(v1, dirs));
        MarkedKeeps(v, dirs, role, kd, t, v1, role1, d);
        AllocPagesLift(v1, dirs, role1, kd, t, d, p + 1, q);
        if AllocPages(v1, d, p + 1, q).Ok? {
          MarksTrans(v, v1, AllocPages(v1, d, p + 1, q).value, dirs);
        }
      }
    }
  }

  lemma LiftShape(v: Vm, dirs: set<nat>, role: seq<Role>, kd: nat, t: nat)
    requires Inv(Lift(v, dirs), role, kd) && Marked(v, dirs, role, kd, t)
    ensures Wf(v) && Wf(Lift(v, dirs)) && |Lift(v, dirs).page| == |v.page| == |role|
    ensures Pgnum(UTOP) < 0x10_0000
  {
  }

  lemma UserPageAt(role: seq<Role>, d: nat, va: Word)
    requires d < |role| && role[d].Dir? && Pdx(va) < UTOPX
    ensures UserPage(role, d, va)
  {
    LayoutIndexes();
  }

  lemma MarksRefl(v: Vm, dirs: set<nat>)
    ensures MarksKept(v, v, dirs)
  {
  }

  lemma MarksTrans(v: Vm, v1: Vm, v2: Vm, dirs: set<nat>)
    requires MarksKept(v, v1, dirs) && MarksKept(v1, v2, dirs)
    ensures MarksKept(v, v2, dirs)
  {
  }

  /** What the user can write to, it can write to with the entry cleared. */
  lemma CanWriteLifts(v: Vm, dirs: set<nat>, role: seq<Role>, kd: nat, t: nat, d: nat, a: Word)
    requires Inv(Lift(v, dirs), role, kd) && Marked(v, dirs, role, kd, t) && d < |role| && role[d].Dir?
    requires NoUserWrites(Lift(v, dirs), kd) && UserCanWrite(v, d, a)
    ensures UserCanWrite(Lift(v, dirs), d, a) && a < UTOP && Pdx(a) != STALEX
  {
    NotInWindow(v, dirs, role, kd, t, d, a);
    var u, x := Lift(v, dirs), Pdx(a);
    assert u.page[d][x] == v.page[d][x];
    TableNotMarked(v, dirs, role, kd, t, d, x);
    SameFrame(v, dirs, Frame(v.page[d][x]));
    hide Inv, NoUserWrites, Lift, Marked;
    UserWritesBelowUtop(u, role, kd, d, a);
  }

  lemma TableNotMarked(v: Vm, dirs: set<nat>, role: seq<Role>, kd: nat, t: nat, d: nat, x: nat)
    requires Inv(Lift(v, dirs), role, kd) && Marked(v, dirs, role, kd, t) && d < |role| && role[d].Dir?
    requires x < 1024 && x != STALEX && x != UVPTX && Present(v.page[d][x])
    ensures Frame(v.page[d][x]) < |v.page| && Frame(v.page[d][x]) !in dirs
  {
    var u := Lift(v, dirs);
    assert u.page[d][x] == v.page[d][x];
    Target(u, role, kd, d, x);
    if x >= UTOPX {
      assert u.page[d][x] == u.page[kd][x];
    }
  }

  lemma NotInWindow(v: Vm, dirs: set<nat>, role: seq<Role>, kd: nat, t: nat, d: nat, a: Word)
    requires Inv(Lift(v, dirs), role, kd) && Marked(v, dirs, role, kd, t) && d < |role| && role[d].Dir?
    requires UserCanWrite(v, d, a)
    ensures Pdx(a) != STALEX && Pdx(a) != UVPTX
  {
    if Pdx(a) == UVPTX {
      assert Lift(v, dirs).page[d][UVPTX] == v.page[d][UVPTX];
      SelfMapReadOnly(Lift(v, dirs), role, kd, d);
    }
  }

  lemma SelfMapReadOnly(v: Vm, role: seq<Role>, kd: nat, d: nat)
    requires Inv(v, role, kd) && d < |role| && role[d].Dir?
    ensures !UserWritable(v.page[d][UVPTX])
  {
    FlagBits(SelfMap(d));
  }

  // Loading a program

  /** The addresses from va up to va + len are not in the window of the stale entry. */
  predicate RangeAvoids(va: Word, len: nat) {
    va + len <= STALEX * PTSIZE || (STALEX + 1) * PTSIZE <= va
  }

  /** No segment of the program uses the window. */
  ghost predicate AvoidsStale(elf: Elf) {
    forall i :: 0 <= i < |elf.segs| && Loadable(elf.segs[i]) ==> RangeAvoids(elf.segs[i].va, elf.segs[i].memsz)
  }

  lemma RegionAvoids(va: Word, len: Word)
    requires BelowUtop(va, len) && len > 0 && RangeAvoids(va, len)
    ensures PagesAvoid(RegionLo(va), RegionHi(va, len)) && RegionHi(va, len) <= Pgnum(UTOP)
        && RegionLo(va) < RegionHi(va, len)
  {
    RegionPages(va, len, va);
    hide RegionLo, RegionHi;
  }

  lemma RegionAllocLifts(v: Vm, dirs: set<nat>, role: seq<Role>, kd: nat, t: nat, d: nat, va: Word, len: Word)
    requires Inv(Lift(v, dirs), role, kd) && Marked(v, dirs, role, kd, t) && d < |role| && role[d].Dir?
    requires BelowUtop(va, len) && len > 0 && RangeAvoids(va, len)
    ensures Wf(v) && RegionAlloc(Lift(v, dirs), d, va, len) == LiftRes(RegionAlloc(v, d, va, len), dirs)
    ensures RegionAlloc(v, d, va, len).Ok? ==> MarksKept(v, RegionAlloc(v, d, va, len).value, dirs)
  {
    hide Inv, Marked, AllocPages, Lift, PagesAvoid, Pgnum, MarksKept, RangeAvoids, BelowUtop, Wf;
    LiftShape(v, dirs, role, kd, t);
    RegionAvoids(va, len);
    AllocPagesLift(v, dirs, role, kd, t, d, RegionLo(va), RegionHi(va, len));
    hide RoundDown, RoundUp, Add32;
    PgnumOrder(va, len);
    MarksRefl(v, dirs);
  }

  lemma PgnumOrder(va: Word, len: Word)
    requires RegionLo(va) < RegionHi(va, len)
    ensures RoundDown(va, PGSIZE) < RoundUp(Add32(va, len), PGSIZE)
  {
    hide RoundDown, RoundUp, Add32;
  }

  lemma WalkLifts(v: Vm, dirs: set<nat>, role: seq<Role>, kd: nat, t: nat, d: nat, a: Word)
    requires Inv(Lift(v, dirs), role, kd) && Marked(v, dirs, role, kd, t) && d < |role| && role[d].Dir?
    requires a < UTOP && Pdx(a) != STALEX
    ensures Walk(Lift(v, dirs), d, a) == Walk(v, d, a)
    ensures Walk(v, d, a).Some? ==> Frame(Walk(v, d, a).value) < |role| && role[Frame(Walk(v, d, a).value)].Data?
  {
    LayoutIndexes();
    EditingUser(v, dirs, role, kd, t, d, Pdx(a));
    if Walk(Lift(v, dirs), d, a).Some? {
      DataIsMapped(Lift(v, dirs), role, kd, d, Pdx(a), Ptx(a), Frame(Walk(Lift(v, dirs), d, a).value));
    }
  }

  lemma StoreByteLifts(v: Vm, dirs: set<nat>, role: seq<Role>, kd: nat, t: nat, d: nat, a: Word, b: Byte)
    requires Inv(Lift(v, dirs), role, kd) && Marked(v, dirs, role, kd, t) && d < |role| && role[d].Dir?
    requires a < UTOP && Pdx(a) != STALEX
    ensures Wf(v) && StoreByte(Lift(v, dirs), d, a, b) == LiftRes(StoreByte(v, d, a, b), dirs)
    ensures StoreByte(v, d, a, b).Ok? ==> MarksKept(v, StoreByte(v, d, a, b).value, dirs)
  {
    hide Inv, Lift, Walk, SetPageByte, Wf;
    LiftShape(v, dirs, role, kd, t);
    WalkLifts(v, dirs, role, kd, t, d, a);
    var e := Walk(v, d, a);
    if e.Some? && Frame(e.value) < |v.page| {
      var g := Frame(e.value);
      assert g !in dirs;
      SameFrame(v, dirs, g);
      FillLifts(v, dirs, g, SetPageByte(v.page[g], Pgoff(a), b));
    }
  }

  lemma SameFrame(v: Vm, dirs: set<nat>, g: nat)
    requires g < |v.page| && g !in dirs
    ensures |Lift(v, dirs).page| == |v.page| && Lift(v, dirs).page[g] == v.page[g]
  {
  }

  lemma {:induction false} CopyOutLifts(v: Vm, dirs: set<nat>, role: seq<Role>, kd: nat, t: nat, d: nat, a: Word,
      s: seq<Byte>, k: nat)
    requires OwnSpace(Lift(v, dirs), role, kd, d) && Marked(v, dirs, role, kd, t)
    requires k <= |s| && a + |s| <= UTOP && RangeAvoids(a, |s|)
    ensures Wf(v) && d < |v.page| && CopyOut(Lift(v, dirs), d, a, s, k) == LiftRes(CopyOut(v, d, a, s, k), dirs)
    ensures CopyOut(v, d, a, s, k).Ok? ==> MarksKept(v, CopyOut(v, d, a, s, k).value, dirs)
    decreases |s| - k
  {
    hide Inv, Lift, Walk, StoreByte, Wf, CopyOut, MarksKept, Marked, OwnPages, Isolated, RangeAvoids, Read;
    LiftShape(v, dirs, role, kd, t);
    UnfoldCopyOut(v, d, a, s, k);
    UnfoldCopyOut(Lift(v, dirs), d, a, s, k);
    MarksRefl(v, dirs);
    if k < |s| {
      var b := a + k;
      AvoidingByte(a, |s|, k);
      StoreByteLifts(v, dirs, role, kd, t, d, b, s[k]);
      var r := StoreByte(v, d, b, s[k]);
      if r.Ok? {
        StoredMapped(v, d, b, s[k]);
        WalkLifts(v, dirs, role, kd, t, d, b);
        var u1 := StoreByteSteps(Lift(v, dirs), role, kd, d, b, s[k]);
        MarkedKeeps(v, dirs, role, kd, t, r.value, role, d);
        CopyOutLifts(r.value, dirs, role, kd, t, d, a, s, k + 1);
        if CopyOut(r.value, d, a, s, k + 1).Ok? {
          MarksTrans(v, r.value, CopyOut(r.value, d, a, s, k + 1).value, dirs);
        }
      }
    }
  }

  lemma AvoidingByte(a: Word, n: nat, k: nat)
    requires k < n && a + n <= UTOP && RangeAvoids(a, n)
    ensures (a + k) % WORD_LIMIT == a + k < UTOP && Pdx(a + k) != STALEX
  {
  }

  lemma StoredMapped(v: Vm, d: nat, a: Word, b: Byte)
    requires Wf(v) && d < |v.page| && StoreByte(v, d, a, b).Ok?
    ensures Walk(v, d, a).Some?
  {
    hide Walk;
  }

  /** What loading keeps, for the clearing and for the marks. */
  lemma LoadSegmentLifts(v: Vm, dirs: set<nat>, role: seq<Role>, kd: nat, t: nat, d: nat, elf: Elf, k: nat)
    requires OwnSpace(Lift(v, dirs), role, kd, d) && Marked(v, dirs, role, kd, t) && WellFormed(elf)
        && AvoidsStale(elf) && k < |elf.segs|
    ensures Wf(v) && d < |v.page| && LoadSegment(Lift(v, dirs), d, elf, elf.segs[k])
        == LiftRes(LoadSegment(v, d, elf, elf.segs[k]), dirs)
    ensures LoadSegment(v, d, elf, elf.segs[k]).Ok? ==> MarksKept(v, LoadSegment(v, d, elf, elf.segs[k]).value, dirs)
  {
    hide Inv, Lift, Wf, CopyOut, RegionAlloc, MarksKept, Marked, OwnPages, Isolated, Zeroed, RangeAvoids, FileBytes;
    LiftShape(v, dirs, role, kd, t);
    MarksRefl(v, dirs);
    var s := elf.segs[k];
    if Loadable(s) {
      assert s.filesz <= s.memsz && BelowUtop(s.va, s.memsz) && RangeAvoids(s.va, s.memsz) && s.memsz > 0;
      hide Loadable;
      RegionAllocLifts(v, dirs, role, kd, t, d, s.va, s.memsz);
      var r, role1 := RegionAllocSteps(Lift(v, dirs), role, kd, d, s.va, s.memsz);
      var q := RegionAlloc(v, d, s.va, s.memsz);
      if q.Ok? {
        MarkedKeeps(v, dirs, role, kd, t, q.value, role1, d);
        SubRangeAvoids(s.va, s.memsz, s.filesz);
        CopyOutLifts(q.value, dirs, role1, kd, t, d, s.va, FileBytes(elf, s), 0);
        if CopyOut(q.value, d, s.va, FileBytes(elf, s), 0).Ok? {
          MarksTrans(v, q.value, CopyOut(q.value, d, s.va, FileBytes(elf, s), 0).value, dirs);
        }
      }
    }
  }

  lemma SubRangeAvoids(va: Word, n: nat, m: nat)
    requires RangeAvoids(va, n) && m <= n
    ensures RangeAvoids(va, m)
  {
  }

  lemma {:induction false} LoadSegmentsLift(v: Vm, dirs: set<nat>, role: seq<Role>, kd: nat, t: nat, d: nat,
      elf: Elf, k: nat)
    requires OwnSpace(Lift(v, dirs), role, kd, d) && Marked(v, dirs, role, kd, t) && WellFormed(elf)
        && AvoidsStale(elf) && k <= |elf.segs|
    ensures Wf(v) && d < |v.page| && Complete(elf)
        && LoadSegments(Lift(v, dirs), d, elf, k) == LiftRes(LoadSegments(v, d, elf, k), dirs)
    ensures LoadSegments(v, d, elf, k).Ok? ==> MarksKept(v, LoadSegments(v, d, elf, k).value, dirs)
    decreases |elf.segs| - k
  {
    hide Inv, Lift, Wf, LoadSegment, LoadSegments, MarksKept, Marked, OwnPages, Isolated, AvoidsStale, Covers, Read;
    LiftShape(v, dirs, role, kd, t);
    MarksRefl(v, dirs);
    UnfoldLoadSegments(v, d, elf, k);
    UnfoldLoadSegments(Lift(v, dirs), d, elf, k);
    if k < |elf.segs| {
      LoadSegmentLifts(v, dirs, role, kd, t, d, elf, k);
      var r, role1 := LoadSegmentSteps(Lift(v, dirs), role, kd, d, elf, k);
      var q := LoadSegment(v, d, elf, elf.segs[k]);
      if q.Ok? {
        MarkedKeeps(v, dirs, role, kd, t, q.value, role1, d);
        LoadSegmentsLift(q.value, dirs, role1, kd, t, d, elf, k + 1);
        if LoadSegments(q.value, d, elf, k + 1).Ok? {
          MarksTrans(v, q.value, LoadSegments(q.value, d, elf, k + 1).value, dirs);
        }
      }
    }
  }

  lemma LoadElfLifts(v: Vm, dirs: set<nat>, role: seq<Role>, kd: nat, t: nat, d: nat, elf: Elf)
    requires OwnSpace(Lift(v, dirs), role, kd, d) && Marked(v, dirs, role, kd, t) && WellFormed(elf) && AvoidsStale(elf)
    ensures Wf(v) && d < |v.page| && Complete(elf)
        && LoadElf(Lift(v, dirs), d, elf) == LiftRes(LoadElf(v, d, elf), dirs)
    ensures LoadElf(v, d, elf).Ok? ==> MarksKept(v, LoadElf(v, d, elf).value, dirs)
  {
    hide Inv, Lift, Wf, LoadSegments, MarksKept, Marked, OwnPages, Isolated, AvoidsStale, Read, Loaded, RegionAlloc;
    LiftShape(v, dirs, role, kd, t);
    LoadSegmentsLift(v, dirs, role, kd, t, d, elf, 0);
    if elf.magic == ELF_MAGIC {
      var r, role1 := LoadSegmentsSteps(Lift(v, dirs), role, kd, d, elf, 0);
      var q := LoadSegments(v, d, elf, 0);
      if q.Ok? {
        MarkedKeeps(v, dirs, role, kd, t, q.value, role1, d);
        RegionAllocLifts(q.value, dirs, role1, kd, t, d, USTACKTOP - PGSIZE, PGSIZE);
        if RegionAlloc(q.value, d, USTACKTOP - PGSIZE, PGSIZE).Ok? {
          MarksTrans(v, q.value, RegionAlloc(q.value, d, USTACKTOP - PGSIZE, PGSIZE).value, dirs);
        }
      }
    }
  }

  // Creating a task

  /** setupMemory copies the mark into the new directory, which joins the marked ones. */
  lemma SetupLifts(v: Vm, dirs: set<nat>, role: seq<Role>, kd: nat, t: nat, f: nat)
    requires Inv(Lift(v, dirs), role, kd) && Marked(v, dirs, role, kd, t) && v.free != [] && f == v.free[0]
    ensures Wf(v) && kd < |v.page| && f < |role| && role[f].Free? && f !in dirs && SetupMemory(v, kd).1 == Some(f)
    ensures SetupMemory(Lift(v, dirs), kd) == (Lift(SetupMemory(v, kd).0, dirs + {f}), Some(f))
    ensures MarksKept(v, SetupMemory(v, kd).0, dirs) && SetupMemory(v, kd).0.page[f][STALEX] == v.page[kd][STALEX]
    ensures SetupMemory(v, kd).0.page[t] == v.page[t]
  {
    FreeHead(Lift(v, dirs), role, kd);
    SetupParts(v, kd, f);
    SetupParts(Lift(v, dirs), kd, f);
    hide Inv, SetupMemory;
    var a, b := SetupMemory(Lift(v, dirs), kd).0, Lift(SetupMemory(v, kd).0, dirs + {f});
    forall c | 0 <= c < |v.page|
      ensures a.page[c] == b.page[c]
    {
      if c == f {
        assert v.page[kd][STALEX := 0][UVPTX := SelfMap(f)] == v.page[kd][UVPTX := SelfMap(f)][STALEX := 0];
      }
    }
    SameVm(a, b);
  }

  lemma SetupParts(v: Vm, kd: nat, f: nat)
    requires Wf(v) && kd < |v.page| && v.free != [] && f == v.free[0]
    ensures f < |v.page| <= 0x2_0000 && SetupMemory(v, kd).1 == Some(f)
    ensures var m := SetupMemory(v, kd).0;
            && m.free == v.free[1..] && m.rc == v.rc[f := (v.rc[f] + 1) % 0x1_0000] && |m.page| == |v.page|
            && (f != kd ==> m.page[f] == v.page[kd][UVPTX := SelfMap(f)])
            && (forall c :: 0 <= c < |v.page| && c != f ==> m.page[c] == v.page[c])
  {
  }

  /** A new frame joins the marked directories in its new role. */
  lemma MarkedJoins(v: Vm, dirs: set<nat>, role: seq<Role>, kd: nat, t: nat, v': Vm, f: nat, r: Role)
    requires Marked(v, dirs, role, kd, t) && f < |role| && role[f].Free? && (r.Dir? || r.Lost?)
    requires MarksKept(v, v', dirs) && v'.page[f][STALEX] == v.page[kd][STALEX] && v'.page[t] == v.page[t]
    ensures Marked(v', dirs + {f}, role[f := r], kd, t)
  {
  }

  /** The two directories of create, and the program in the second one. */
  lemma BuildLifts(v: Vm, dirs: set<nat>, role: seq<Role>, kd: nat, t: nat, i: nat, elf: Elf)
    returns (v1: Vm, f1: nat, q: Res<Vm>, f2: nat)
    requires Inv(Lift(v, dirs), role, kd) && Marked(v, dirs, role, kd, t) && WellFormed(elf) && AvoidsStale(elf)
        && |v.free| >= 2
    ensures Wf(v) && Wf(v1) && kd < |v1.page| == |v.page| && Complete(elf)
    ensures SetupMemory(v, kd) == (v1, Some(f1)) && SetupMemory(Lift(v, dirs), kd) == (Lift(v1, dirs + {f1}), Some(f1))
    ensures f1 == v.free[0] < |role| && f2 < |role| && f1 != f2 && role[f1].Free? && role[f2].Free?
    ensures var m := SetupMemory(v1, kd); var ds := dirs + {f1} + {f2};
            && m.1 == Some(f2) && SetupMemory(Lift(v1, dirs + {f1}), kd) == (Lift(m.0, ds), Some(f2))
            && q == LoadElf(m.0, f2, elf) && LoadElf(Lift(m.0, ds), f2, elf) == LiftRes(q, ds)
            && (q.Ok? ==> MarksKept(m.0, q.value, ds)) && Marked(m.0, ds, role[f1 := Lost][f2 := Dir(i)], kd, t)
    ensures !q.Cyclic?
  {
    hide Inv, Lift, SetupMemory, LoadElf, Marked, MarksKept, AvoidsStale, OwnPages, WellFormed;
    LiftShape(v, dirs, role, kd, t);
    f1 := v.free[0];
    SetupLifts(v, dirs, role, kd, t, f1);
    v1 := SetupMemory(v, kd).0;
    MarkedJoins(v, dirs, role, kd, t, v1, f1, Lost);
    var u1, g1, r, role2 := CreateSpaces(Lift(v, dirs), role, kd, i);
    FirstSpace(v, dirs, role, kd, t, i, v1, f1);
    f2 := v1.free[0];
    SetupLifts(v1, dirs + {f1}, role[f1 := Lost], kd, t, f2);
    var v2 := SetupMemory(v1, kd).0;
    MarkedJoins(v1, dirs + {f1}, role[f1 := Lost], kd, t, v2, f2, Dir(i));
    LoadElfLifts(v2, dirs + {f1} + {f2}, role2, kd, t, f2, elf);
    var l, role3 := LoadElfImage(Lift(v2, dirs + {f1} + {f2}), role2, kd, f2, elf);
    q := LoadElf(v2, f2, elf);
  }

  /** After the first set-up, with its directory lost. */
  lemma FirstSpace(v: Vm, dirs: set<nat>, role: seq<Role>, kd: nat, t: nat, i: nat, v1: Vm, f1: nat)
    requires Inv(Lift(v, dirs), role, kd) && |v.free| >= 2 && f1 == v.free[0] && Wf(v) && kd < |v.page|
    requires SetupMemory(v, kd) == (v1, Some(f1)) && SetupMemory(Lift(v, dirs), kd) == (Lift(v1, dirs + {f1}), Some(f1))
    ensures f1 < |role| && Inv(Lift(v1, dirs + {f1}), role[f1 := Lost], kd)
    ensures v1.free == v.free[1..] && v1.free != [] && Wf(v1) && |v1.page| == |v.page|
  {
    hide Inv, Lift, SetupMemory;
    SetupParts(v, kd, f1);
    var u1, g := SetupKeepsInv(Lift(v, dirs), role, kd, i);
    SetupIsEmpty(Lift(v, dirs), role, kd, u1, g);
    OrphanDir(u1, role[f1 := Dir(i)], kd, f1);
    assert role[f1 := Dir(i)][f1 := Lost] == role[f1 := Lost];
  }
}
