/** Task::free when the kernel's directory has the entry for 0x80000000 that the self-test leaves: the
    page table that the entry names goes to the free list. */
module StaleTeardown {
  import opened Wrappers
  import opened Mmu
  import opened PageTables
  import opened Ownership
  import opened Translation
  import opened OwnershipSteps
  import opened Isolation
  import opened AddressSpaces
  import opened AddressSpaceSteps
  import opened TaskTeardown
  import opened StaleEntries
  import opened StaleMemory

  /** Frames are only added to the free list. */
  ghost predicate Grows(v: Vm, v': Vm) {
    forall f :: f in v.free ==> f in v'.free
  }

  /** No marked directory is free, a page table, or data. */
  ghost predicate Apart(dirs: set<nat>, role: seq<Role>) {
    forall c :: c in dirs ==> c < |role| && (role[c].Kernel? || role[c].Dir? || role[c].Lost?)
  }

  // The loops of Task::free and the clearing commute

  lemma DecRefGrows(v: Vm, f: nat)
    requires f < |v.rc|
    ensures DecRef(v, f).Ok? ==> Grows(v, DecRef(v, f).value) && DecRef(v, f).value.page == v.page
  {
  }

  /** remove writes to the page table only. */
  lemma RemoveWrites(v: Vm, d: nat, va: Word)
    requires Wf(v) && d < |v.page| && Present(v.page[d][Pdx(va)]) && Frame(v.page[d][Pdx(va)]) != d
        && Remove(v, d, va).Ok?
    ensures Grows(v, Remove(v, d, va).value) && |Remove(v, d, va).value.page| == |v.page|
    ensures Remove(v, d, va).value.page[d] == v.page[d]
  {
    var found := FindInfo(v, d, va);
    if found.value.Some? {
      DecRefGrows(v, found.value.value.0);
    }
  }

  lemma {:induction false} FreeEntriesLift(v: Vm, dirs: set<nat>, d: nat, x: nat, h: nat, y: nat)
    requires Wf(v) && d < |v.page| && x < UTOPX && x != STALEX && y <= 1024 && h < |v.page|
    requires Present(v.page[d][x]) && Frame(v.page[d][x]) == h && h !in dirs && h != d
    ensures FreeEntries(Lift(v, dirs), d, x, h, y) == LiftRes(FreeEntries(v, d, x, h, y), dirs)
    ensures FreeEntries(v, d, x, h, y).Ok? ==>
              var v' := FreeEntries(v, d, x, h, y).value;
              MarksKept(v, v', dirs) && Grows(v, v')
    decreases 1024 - y
  {
    hide Remove, Lift, MarksKept, FreeEntries;
    UnfoldFreeEntries(v, d, x, h, y);
    UnfoldFreeEntries(Lift(v, dirs), d, x, h, y);
    SameFrame(v, dirs, h);
    MarksRefl(v, dirs);
    if y < 1024 && Present(v.page[h][y]) {
      var va := Pgaddr(x, y, 0);
      PgaddrRoundTrip(x, y, 0);
      RemoveLifts(v, dirs, d, va);
      var r := Remove(v, d, va);
      if r.Ok? {
        RemoveWrites(v, d, va);
        FreeEntriesLift(r.value, dirs, d, x, h, y + 1);
        var q := FreeEntries(r.value, d, x, h, y + 1);
        if q.Ok? {
          MarksTrans(v, r.value, q.value, dirs);
        }
      }
    } else if y < 1024 {
      FreeEntriesLift(v, dirs, d, x, h, y + 1);
    }
  }

  lemma FreeTableLift(v: Vm, dirs: set<nat>, d: nat, x: nat)
    requires Wf(v) && d < |v.page| && x < UTOPX && x != STALEX
    requires Present(v.page[d][x]) ==> Frame(v.page[d][x]) !in dirs && Frame(v.page[d][x]) != d
    ensures FreeTable(Lift(v, dirs), d, x) == LiftRes(FreeTable(v, d, x), dirs)
    ensures FreeTable(v, d, x).Ok? ==>
              MarksKept(v, FreeTable(v, d, x).value, dirs) && Grows(v, FreeTable(v, d, x).value)
  {
    hide FreeEntries, DecRef, Lift, MarksKept, Store;
    assert LiftPage(v, dirs, d)[x] == v.page[d][x];
    MarksRefl(v, dirs);
    if Present(v.page[d][x]) && Frame(v.page[d][x]) < |v.page| {
      var h := Frame(v.page[d][x]);
      FreeEntriesLift(v, dirs, d, x, h, 0);
      var r := FreeEntries(v, d, x, h, 0);
      if r.Ok? {
        var u := Store(r.value, d, x, 0);
        StoreLifts(r.value, dirs, d, x, 0);
        StoreCounts(r.value, d, x);
        MarksTrans(v, r.value, u, dirs);
        DecRefLifts(u, dirs, h);
        DecRefGrows(u, h);
        if DecRef(u, h).Ok? {
          MarksTrans(v, u, DecRef(u, h).value, dirs);
        }
      }
    }
  }

  lemma StoreCounts(v: Vm, d: nat, x: nat)
    requires d < |v.page| && x < 1024
    ensures Store(v, d, x, 0).free == v.free && Store(v, d, x, 0).rc == v.rc
  {
  }

  /** A page table of d is none of the marked directories. */
  lemma TableApart(v: Vm, dirs: set<nat>, role: seq<Role>, kd: nat, d: nat, x: nat)
    requires Inv(Lift(v, dirs), role, kd) && Apart(dirs, role) && d < |role| && role[d].Dir? && x < UTOPX && x != STALEX
    ensures Wf(v) && d < |v.page| && (Present(v.page[d][x]) ==>
              Frame(v.page[d][x]) !in dirs && Frame(v.page[d][x]) != d)
  {
    var u := Lift(v, dirs);
    assert u.page[d][x] == v.page[d][x];
    if Present(v.page[d][x]) {
      Target(u, role, kd, d, x);
    }
  }

  lemma StaysApart(v: Vm, role: seq<Role>, kd: nat, v': Vm, role': seq<Role>, d: nat, dirs: set<nat>)
    requires Isolated(v, role, kd, v', role', d) && Apart(dirs, role)
    ensures Apart(dirs, role') && (forall c :: 0 <= c < |role| && role[c].Dir? ==> c < |role'| && role'[c] == role[c])
  {
  }

  /** The loop beyond the stale entry. */
  lemma {:induction false} RestLifts(v: Vm, dirs: set<nat>, role: seq<Role>, kd: nat, d: nat, x: nat) returns (v': Vm)
    requires Inv(Lift(v, dirs), role, kd) && Apart(dirs, role) && d < |role| && role[d].Dir? && STALEX < x <= UTOPX
    ensures Wf(v) && d < |v.page| && FreeTables(v, d, x) == Ok(v') && MarksKept(v, v', dirs) && Grows(v, v')
    ensures d < |v'.rc| == |v'.page| && v'.rc[d] == 1 && d !in v'.free
    decreases UTOPX - x
  {
    hide Inv, Isolated, FreeTable, FreeTables, Lift, Apart, MarksKept;
    LiftedDirectory(v, dirs, role, kd, d);
    UnfoldFreeTables(v, d, x);
    MarksRefl(v, dirs);
    if x == UTOPX {
      v' := v;
    } else {
      TableApart(v, dirs, role, kd, d, x);
      FreeTableLift(v, dirs, d, x);
      var u1, role1 := FreeTableSteps(Lift(v, dirs), role, kd, d, x);
      var v1 := FreeTable(v, d, x).value;
      StaysApart(Lift(v, dirs), role, kd, u1, role1, d, dirs);
      v' := RestLifts(v1, dirs, role1, kd, d, x + 1);
      MarksTrans(v, v1, v', dirs);
    }
  }

  lemma LiftedDirectory(v: Vm, dirs: set<nat>, role: seq<Role>, kd: nat, d: nat)
    requires Inv(Lift(v, dirs), role, kd) && d < |role| && role[d].Dir?
    ensures Wf(v) && d < |v.page| == |v.rc| && v.rc[d] == 1 && d !in v.free
  {
  }

  // The stale entry itself

  /** A lost frame without references may as well be free. */
  lemma LostToFree(u: Vm, role: seq<Role>, kd: nat, t: nat)
    requires Inv(u, role, kd) && t < |role| && role[t].Lost?
    ensures |u.rc| == |role| && Inv(Vm([t] + u.free, u.rc[t := 0], u.page), role[t := Free], kd)
  {
    var u', role' := Vm([t] + u.free, u.rc[t := 0], u.page), role[t := Free];
    PushKeepsShape(SetRef(u, t, 0), t);
    assert Push(SetRef(u, t, 0), t) == u';
    forall g | 0 <= g < |role|
      ensures Mappings(u', role', g) == Mappings(u, role, g)
    {
      SameMappings(u, role, u', role', g);
    }
    LostPages(u, role, kd, t, u');
    hide TablesAgree, DataAgrees, KernelHalf, HalvesAgree, Mappings;
  }

  lemma LostPages(u: Vm, role: seq<Role>, kd: nat, t: nat, u': Vm)
    requires Inv(u, role, kd) && t < |role| && role[t].Lost? && u'.page == u.page
    ensures var role' := role[t := Free];
            TablesAgree(u', role') && DataAgrees(u', role') && KernelHalf(u', role', kd) && HalvesAgree(u', role', kd)
  {
    hide CountsAgree, FreeAgrees, Wf;
  }

  lemma LostTable(v: Vm, dirs: set<nat>, role: seq<Role>, kd: nat, t: nat, d: nat)
    requires Inv(Lift(v, dirs), role, kd) && Marked(v, dirs, role, kd, t) && d < |role| && role[d].Dir?
    ensures Wf(v) && d < |v.page| && t < |v.page| == |v.rc| && v.rc[t] == 1 && t !in v.free && t != d && kd != d
        && d in dirs
    ensures v.page[d][STALEX] == StaleEntry(t) == v.page[kd][STALEX] && Present(StaleEntry(t))
        && Frame(StaleEntry(t)) == t
    ensures v.page[t] == ZeroPage() && Apart(dirs - {d}, role[t := Free]) && role[t].Lost? && kd in dirs
  {
  }

  /** Task::free drops the only count of the page table that the stale entry names. */
  lemma StaleTableFreed(v: Vm, dirs: set<nat>, role: seq<Role>, kd: nat, t: nat, d: nat) returns (v1: Vm)
    requires Inv(Lift(v, dirs), role, kd) && Marked(v, dirs, role, kd, t) && d < |role| && role[d].Dir?
    ensures Wf(v) && d < |v.page| && t < |role| && kd in dirs - {d}
    ensures FreeTable(v, d, STALEX) == Ok(v1) && t in v1.free && |v1.page| == |v.page| && v1.page[kd] == v.page[kd]
    ensures Inv(Lift(v1, dirs - {d}), role[t := Free], kd) && Apart(dirs - {d}, role[t := Free])
    ensures v.page[kd][STALEX] == StaleEntry(t)
  {
    hide Inv, Marked, Lift, FreeEntries, Apart, Wf;
    LostTable(v, dirs, role, kd, t, d);
    var u := Store(v, d, STALEX, 0);
    NoEntries(v, d, STALEX, t, 0);
    v1 := Vm([t] + v.free, v.rc[t := 0], u.page);
    assert DecRef(u, t) == Ok(v1);
    LostToFree(Lift(v, dirs), role, kd, t);
    LessMarked(v, dirs, d, t, v1);
  }

  /** Clearing the entry in memory, or only in thought, is the same. */
  lemma LessMarked(v: Vm, dirs: set<nat>, d: nat, t: nat, v1: Vm)
    requires d < |v.page| && d in dirs && t < |v.rc|
    requires v1 == Vm([t] + v.free, v.rc[t := 0], Store(v, d, STALEX, 0).page)
    ensures Lift(v1, dirs - {d}) == Vm([t] + Lift(v, dirs).free, Lift(v, dirs).rc[t := 0], Lift(v, dirs).page)
  {
    SameVm(Lift(v1, dirs - {d}), Vm([t] + Lift(v, dirs).free, Lift(v, dirs).rc[t := 0], Lift(v, dirs).page));
  }

  lemma {:induction false} TablesDangle(v: Vm, dirs: set<nat>, role: seq<Role>, kd: nat, t: nat, d: nat, x: nat)
    returns (v': Vm)
    requires Inv(Lift(v, dirs), role, kd) && Marked(v, dirs, role, kd, t) && d < |role| && role[d].Dir? && x <= STALEX
    ensures Wf(v) && d < |v.page| && kd < |v.page| && FreeTables(v, d, x) == Ok(v') && |v'.page| == |v.page|
    ensures d < |v'.rc| == |v'.page| && v'.rc[d] == 1 && d !in v'.free
    ensures t < 0x10_0000 && t in v'.free && v'.page[kd][STALEX] == StaleEntry(t)
    decreases STALEX - x
  {
    hide Inv, Isolated, FreeTable, FreeTables, Lift, Apart, MarksKept, Marked;
    LostTable(v, dirs, role, kd, t, d);
    UnfoldFreeTables(v, d, x);
    if x == STALEX {
      var v1 := StaleTableFreed(v, dirs, role, kd, t, d);
      v' := RestLifts(v1, dirs - {d}, role[t := Free], kd, d, x + 1);
      KeptMark(v1, v', dirs - {d}, kd);
    } else {
      EditingUser(v, dirs, role, kd, t, d, x);
      TableOutside(v, dirs, role, kd, t, d, x);
      FreeTableLift(v, dirs, d, x);
      var u1, role1 := FreeTableSteps(Lift(v, dirs), role, kd, d, x);
      var v1 := FreeTable(v, d, x).value;
      MarkedKeeps(v, dirs, role, kd, t, v1, role1, d);
      StillDir(Lift(v, dirs), role, kd, u1, role1, d);
      v' := TablesDangle(v1, dirs, role1, kd, t, d, x + 1);
    }
  }

  lemma KeptMark(v: Vm, v': Vm, dirs: set<nat>, kd: nat)
    requires MarksKept(v, v', dirs) && kd in dirs && kd < |v.page|
    ensures |v'.page| == |v.page| && v'.page[kd][STALEX] == v.page[kd][STALEX]
  {
  }

  lemma TableOutside(v: Vm, dirs: set<nat>, role: seq<Role>, kd: nat, t: nat, d: nat, x: nat)
    requires Editing(v, dirs, d, x) && |role| == |v.page|
    requires Present(v.page[d][x]) ==> Frame(v.page[d][x]) < |role| && role[Frame(v.page[d][x])] == Table(d, x)
    requires d < |role| && role[d].Dir?
    ensures Present(v.page[d][x]) ==> Frame(v.page[d][x]) !in dirs && Frame(v.page[d][x]) != d
  {
  }

  lemma StillDir(v: Vm, role: seq<Role>, kd: nat, v': Vm, role': seq<Role>, d: nat)
    requires Isolated(v, role, kd, v', role', d) && d < |role| && role[d].Dir?
    ensures d < |role'| && role'[d].Dir?
  {
  }

  /** Task::free, seen from the kernel's directory. */
  lemma SpaceDangles(v: Vm, dirs: set<nat>, role: seq<Role>, kd: nat, t: nat, d: nat) returns (v': Vm)
    requires Inv(Lift(v, dirs), role, kd) && Marked(v, dirs, role, kd, t) && d < |role| && role[d].Dir?
    ensures Wf(v) && d < |v.page| && kd < |v.page| && FreeSpace(v, d) == Ok(v') && |v'.page| == |v.page|
    ensures t < 0x10_0000 && t in v'.free && v'.page[kd][STALEX] == StaleEntry(t)
  {
    hide Inv, Marked, FreeTables, Lift;
    var v1 := TablesDangle(v, dirs, role, kd, t, d, 0);
    v' := DecRef(v1, d).value;
  }
}
