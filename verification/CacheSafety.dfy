/**
 Why the kernel's edits of task address spaces never leave a stale translation behind: the steps
 of regionAlloc, loadElf and free, seen from the directory that is loaded meanwhile.
 */
module CacheSafety {
  import opened Wrappers
  import opened Mmu
  import opened PageTables
  import opened Ownership
  import opened Translation
  import opened OwnershipSteps
  import opened Isolation
  import opened AddressSpaces
  import opened AddressSpaceSteps
  import opened RegionSteps
  import opened UserMemory
  import opened Regions
  import opened ElfLoader
  import opened TranslationCache
  import opened StaleMemory

  /** Memory is as the invariant says, but perhaps for the entry of 0x80000000 that the self-test of
      boot leaves in the given directories. */
  ghost predicate Ordered(v: Vm, dirs: set<nat>, role: seq<Role>, kd: nat) {
    Inv(Lift(v, dirs), role, kd) && (dirs == {} || exists t: nat :: Marked(v, dirs, role, kd, t))
  }

  /** Slot x may be used for a task's pages: it is below UTOP, and free of the entry that boot leaves. */
  ghost predicate Usable(v: Vm, kd: nat, x: nat) {
    x < UTOPX && kd < |v.page| && (x == STALEX ==> !Present(v.page[kd][STALEX]))
  }

  /** d is a task's directory, and c is loaded: a task's directory or the kernel's. */
  ghost predicate Owned(v: Vm, kd: nat, d: nat, c: nat) {
    exists dirs: set<nat>, role: seq<Role> ::
      Ordered(v, dirs, role, kd) && d < |role| && role[d].Dir? && IsDir(role, kd, c)
  }

  lemma LiftNone(v: Vm)
    ensures Lift(v, {}) == v
  {
    SameVm(Lift(v, {}), v);
  }

  lemma OrderedShape(v: Vm, dirs: set<nat>, role: seq<Role>, kd: nat)
    requires Ordered(v, dirs, role, kd)
    ensures Wf(v) && |v.page| == |role| == |Lift(v, dirs).page| && kd < |role| && role[kd].Kernel?
        && v.free == Lift(v, dirs).free
    ensures forall f :: 0 <= f < |role| ==> (role[f].Free? <==> f in v.free)
  {
  }

  /** What a present directory entry can name. */
  lemma OrderedEntry(v: Vm, dirs: set<nat>, role: seq<Role>, kd: nat, c: nat, x: nat)
    requires Ordered(v, dirs, role, kd) && IsDir(role, kd, c) && x < 1024 && Present(v.page[c][x])
    ensures |role| == |v.page|
    ensures var f := Frame(v.page[c][x]);
            && f < |role| && !role[f].Free? && !role[f].Data? && !role[f].InFlight?
            && (x < UTOPX ==> (role[f] == Table(c, x) && role[c].Dir?) || (x == STALEX && role[f].Lost?))
            && (UTOPX <= x && x != UVPTX ==> role[f].Kernel? && f != kd && v.page[c][x] == v.page[kd][x])
            && (x == UVPTX ==> f == c)
  {
    var u := Lift(v, dirs);
    if x != STALEX || c !in dirs {
      assert u.page[c][x] == v.page[c][x] && u.page[kd][UVPTX] == v.page[kd][UVPTX];
      Target(u, role, kd, c, x);
      assert UTOPX <= x && x != UVPTX ==> u.page[c][x] == u.page[kd][x] == v.page[kd][x];
    } else {
      var t :| Marked(v, dirs, role, kd, t);
      assert v.page[c][x] == StaleEntry(t);
    }
  }

  lemma OrderedSelfMap(v: Vm, dirs: set<nat>, role: seq<Role>, kd: nat)
    requires Ordered(v, dirs, role, kd)
    ensures kd < |v.page| <= 0x2_0000 && v.page[kd][UVPTX] == SelfMap(kd)
  {
    assert Lift(v, dirs).page[kd][UVPTX] == v.page[kd][UVPTX];
  }

  /** Different slots of the kernel's half name different tables. */
  lemma OrderedDistinct(v: Vm, dirs: set<nat>, role: seq<Role>, kd: nat, x: nat, y: nat)
    requires Ordered(v, dirs, role, kd) && UTOPX <= x < 1024 && UTOPX <= y < 1024 && x != y && x != UVPTX && y != UVPTX
    requires Present(v.page[kd][x]) && Present(v.page[kd][y])
    ensures Frame(v.page[kd][x]) != Frame(v.page[kd][y])
  {
    var u := Lift(v, dirs);
    assert u.page[kd][x] == v.page[kd][x] && u.page[kd][y] == v.page[kd][y];
  }

  lemma OrderedApart(v: Vm, dirs: set<nat>, role: seq<Role>, kd: nat, d: nat, c: nat, x: nat)
    requires Ordered(v, dirs, role, kd) && IsDir(role, kd, d) && IsDir(role, kd, c) && x < 1024 && x != UVPTX
    ensures TableApart(v, c, d, x) && CanGrow(v, c, d) && NotInTree(v, c, v.free)
  {
    hide Ordered;
    OrderedShape(v, dirs, role, kd);
    forall i | 0 <= i < 1024 && Present(v.page[c][i])
      ensures Frame(v.page[c][i]) !in v.free && (c != d ==> Frame(v.page[c][i]) != d)
      ensures Present(v.page[d][x]) && i != x ==> Frame(v.page[c][i]) != Frame(v.page[d][x])
    {
      OrderedEntry(v, dirs, role, kd, c, i);
      if Present(v.page[d][x]) && i != x {
        OrderedEntry(v, dirs, role, kd, d, x);
        if UTOPX <= i && i != UVPTX && UTOPX <= x {
          OrderedDistinct(v, dirs, role, kd, i, x);
        }
      }
    }
    if Present(v.page[d][x]) {
      OrderedEntry(v, dirs, role, kd, d, x);
    }
  }

  lemma OwnedApart(v: Vm, u: Vm, kd: nat, d: nat, c: nat, x: nat)
    requires Owned(v, kd, d, c) && x < UTOPX && u.page == v.page
    ensures TableApart(u, c, d, x) && CanGrow(v, c, d) && NotInTree(u, c, v.free)
  {
    hide Ordered;
    var dirs: set<nat>, role: seq<Role> :|
      Ordered(v, dirs, role, kd) && d < |role| && role[d].Dir? && IsDir(role, kd, c);
    OrderedApart(v, dirs, role, kd, d, c, x);
  }

  lemma OwnedKernel(v: Vm, kd: nat, d: nat, c: nat)
    requires Owned(v, kd, d, c)
    ensures Owned(v, kd, d, kd)
  {
    hide Ordered;
    var dirs: set<nat>, role: seq<Role> :|
      Ordered(v, dirs, role, kd) && d < |role| && role[d].Dir? && IsDir(role, kd, c);
    OrderedShape(v, dirs, role, kd);
    assert IsDir(role, kd, kd);
  }

  /** The marks stay while directories and lost frames do. */
  lemma OrderedKeeps(v: Vm, dirs: set<nat>, role: seq<Role>, kd: nat, v': Vm, role': seq<Role>)
    requires Ordered(v, dirs, role, kd) && MarksKept(v, v', dirs) && Inv(Lift(v', dirs), role', kd) && |role'| == |role|
    requires forall c :: 0 <= c < |role| && role[c].Lost? ==> v'.page[c] == v.page[c]
    requires forall c :: 0 <= c < |role| && (role[c].Dir? || role'[c].Dir? || role[c].Lost?) ==> role'[c] == role[c]
    ensures Ordered(v', dirs, role', kd)
  {
    if dirs != {} {
      var t :| Marked(v, dirs, role, kd, t);
      assert Marked(v', dirs, role', kd, t);
    }
  }

  lemma OwnedAllocFrame(v: Vm, kd: nat, d: nat, c: nat)
    requires Owned(v, kd, d, c) && v.free != []
    ensures Wf(v) && Owned(AllocFrame(v, true).0, kd, d, c)
    ensures kd < |v.page| == |AllocFrame(v, true).0.page| && AllocFrame(v, true).0.page[kd] == v.page[kd]
  {
    hide Ordered, Inv, AllocFrame, MarksKept, Lift;
    var dirs: set<nat>, role: seq<Role> :|
      Ordered(v, dirs, role, kd) && d < |role| && role[d].Dir? && IsDir(role, kd, c);
    OrderedShape(v, dirs, role, kd);
    var f, v' := v.free[0], AllocFrame(v, true).0;
    assert f in v.free;
    OrderedFree(v, dirs, role, kd, f);
    AllocLifts(v, dirs, true);
    AllocKeepsInv(Lift(v, dirs), role, kd);
    AllocWrites(v);
    var role' := role[f := InFlight];
    OrderedKeeps(v, dirs, role, kd, v', role');
    assert IsDir(role', kd, c);
  }

  lemma OrderedFree(v: Vm, dirs: set<nat>, role: seq<Role>, kd: nat, f: nat)
    requires Ordered(v, dirs, role, kd) && f in v.free
    ensures f < |role| && role[f].Free? && f !in dirs && Inv(Lift(v, dirs), role, kd)
  {
    if dirs != {} {
      var t :| Marked(v, dirs, role, kd, t);
    }
  }

  lemma AllocWrites(v: Vm)
    requires Wf(v) && v.free != []
    ensures |AllocFrame(v, true).0.page| == |v.page| && v.free[0] < |v.page|
    ensures forall g :: 0 <= g < |v.page| && g != v.free[0] ==> AllocFrame(v, true).0.page[g] == v.page[g]
  {
  }

  lemma OwnedAllocPage(v: Vm, kd: nat, d: nat, c: nat, va: Word, v': Vm)
    requires Owned(v, kd, d, c) && Usable(v, kd, Pdx(va)) && Wf(v) && d < |v.page| && AllocPage(v, d, va) == Ok(v')
    ensures Owned(v', kd, d, c) && |v'.page| == |v.page| && v'.page[kd] == v.page[kd]
  {
    hide Ordered, Inv, AllocPage, AllocPageWrites, Isolated, MarksKept, Lift, Wf;
    var dirs: set<nat>, role: seq<Role> :|
      Ordered(v, dirs, role, kd) && d < |role| && role[d].Dir? && IsDir(role, kd, c);
    OrderedShape(v, dirs, role, kd);
    OrderedPageLifts(v, dirs, role, kd, d, va);
    UserPageAt(role, d, va);
    var role', f := AllocPageSteps(Lift(v, dirs), role, kd, d, va, Lift(v', dirs));
    IsolatedKept(v, dirs, role, kd, v', role', d);
    OrderedKeeps(v, dirs, role, kd, v', role');
    assert IsDir(role', kd, c);
  }

  lemma OrderedPageLifts(v: Vm, dirs: set<nat>, role: seq<Role>, kd: nat, d: nat, va: Word)
    requires Ordered(v, dirs, role, kd) && Usable(v, kd, Pdx(va)) && d < |role| && role[d].Dir?
    ensures Wf(v) && d < |v.page| && Inv(Lift(v, dirs), role, kd)
    ensures AllocPage(Lift(v, dirs), d, va) == LiftRes(AllocPage(v, d, va), dirs)
    ensures AllocPage(v, d, va).Ok? ==> MarksKept(v, AllocPage(v, d, va).value, dirs)
  {
    hide Inv, AllocPage, Lift, Wf;
    if dirs == {} {
      LiftNone(v);
      if AllocPage(v, d, va).Ok? {
        LiftNone(AllocPage(v, d, va).value);
        NoMarks(v, d, va);
      }
    } else {
      var t :| Marked(v, dirs, role, kd, t);
      assert v.page[kd][STALEX] == StaleEntry(t);
      EditingUser(v, dirs, role, kd, t, d, Pdx(va));
      AllocPageLifts(v, dirs, d, va);
    }
  }

  lemma NoMarks(v: Vm, d: nat, va: Word)
    requires Wf(v) && d < |v.page| && AllocPage(v, d, va).Ok?
    ensures MarksKept(v, AllocPage(v, d, va).value, {})
  {
    hide AllocPage;
  }

  /** What isolation says of the frames that the marks concern. */
  lemma IsolatedKept(v: Vm, dirs: set<nat>, role: seq<Role>, kd: nat, v': Vm, role': seq<Role>, d: nat)
    requires Ordered(v, dirs, role, kd) && Isolated(Lift(v, dirs), role, kd, Lift(v', dirs), role', d)
        && MarksKept(v, v', dirs)
    ensures |v'.page| == |v.page| == |role| == |role'| && kd < |role| && v'.page[kd] == v.page[kd]
    ensures forall c :: 0 <= c < |role| && (role[c].Dir? || role'[c].Dir? || role[c].Lost?) ==> role'[c] == role[c]
    ensures forall c :: 0 <= c < |role| && role[c].Lost? ==> v'.page[c] == v.page[c]
  {
    hide SameWalks;
    forall c | 0 <= c < |role| && (role[c].Lost? || c == kd)
      ensures v'.page[c] == v.page[c]
    {
      assert Lift(v', dirs).page[c] == Lift(v, dirs).page[c];
      SameUnlifted(v, dirs, v', c);
    }
  }

  lemma SameUnlifted(v: Vm, dirs: set<nat>, v': Vm, c: nat)
    requires c < |v.page| == |v'.page| && LiftPage(v', dirs, c) == LiftPage(v, dirs, c) && MarksKept(v, v', dirs)
    ensures v'.page[c] == v.page[c]
  {
    if c in dirs {
      forall i | 0 <= i < 1024
        ensures v'.page[c][i] == v.page[c][i]
      {
        assert LiftPage(v', dirs, c)[i] == LiftPage(v, dirs, c)[i];
      }
    }
  }

  /** The kernel or the program writes a byte into a page of the task: no table is written. */
  lemma OwnedStoreByte(v: Vm, u: Vm, kd: nat, d: nat, c: nat, a: Word, b: Byte, v': Vm)
    requires Owned(v, kd, d, c) && a < UTOP && Usable(v, kd, Pdx(a)) && Wf(v) && d < |v.page|
    requires StoreByte(v, d, a, b) == Ok(v') && u.page == v.page
    ensures var g := Frame(Walk(v, d, a).value);
            Owned(v', kd, d, c) && g < |v.page| && OnlyAt(u, c, g, 1024)
    ensures |v'.page| == |v.page| && kd < |v.page| && v'.page[kd] == v.page[kd]
  {
    hide Ordered, Inv, Walk, SetPageByte, Lift;
    var dirs: set<nat>, role: seq<Role> :|
      Ordered(v, dirs, role, kd) && d < |role| && role[d].Dir? && IsDir(role, kd, c);
    OrderedShape(v, dirs, role, kd);
    var g := Frame(Walk(v, d, a).value);
    OrderedData(v, dirs, role, kd, d, a);
    forall i | 0 <= i < 1024 && Present(v.page[c][i])
      ensures Frame(v.page[c][i]) != g
    {
      OrderedEntry(v, dirs, role, kd, c, i);
    }
    FillLifts(v, dirs, g, SetPageByte(v.page[g], Pgoff(a), b));
    DataWriteKeepsInv(Lift(v, dirs), role, kd, g, SetPageByte(v.page[g], Pgoff(a), b));
    OrderedKeeps(v, dirs, role, kd, v', role);
  }

  lemma OrderedData(v: Vm, dirs: set<nat>, role: seq<Role>, kd: nat, d: nat, a: Word)
    requires Ordered(v, dirs, role, kd) && d < |role| && role[d].Dir? && a < UTOP && Usable(v, kd, Pdx(a))
        && d < |v.page|
    requires Walk(v, d, a).Some?
    ensures Frame(Walk(v, d, a).value) < |role| && role[Frame(Walk(v, d, a).value)].Data?
    ensures Frame(Walk(v, d, a).value) !in dirs && Inv(Lift(v, dirs), role, kd)
  {
    if dirs == {} {
      LiftNone(v);
      LayoutIndexes();
      DataIsMapped(v, role, kd, d, Pdx(a), Ptx(a), Frame(Walk(v, d, a).value));
    } else {
      var t :| Marked(v, dirs, role, kd, t);
      assert v.page[kd][STALEX] == StaleEntry(t);
      hide Inv, Walk;
      WalkLifts(v, dirs, role, kd, t, d, a);
    }
  }

  /** The page that holds a is no directory or page table of c. */
  ghost predicate StoresApart(v: Vm, c: nat, a: Word) {
    c < |v.page| && (Walk(v, c, a).Some? ==> OnlyAt(v, c, Frame(Walk(v, c, a).value), 1024))
  }

  /** It can only matter that the tables are the same. */
  lemma SameStoresApart(v: Vm, u: Vm, c: nat, a: Word)
    requires StoresApart(v, c, a) && u.page == v.page
    ensures StoresApart(u, c, a)
  {
  }

  /** Nothing that a task maps below UTOP is part of its own tree. */
  lemma OrderedStores(v: Vm, dirs: set<nat>, role: seq<Role>, kd: nat, c: nat, a: Word)
    requires Ordered(v, dirs, role, kd) && c < |role| && role[c].Dir? && a < UTOP && Usable(v, kd, Pdx(a))
    ensures StoresApart(v, c, a)
  {
    hide Ordered, Walk;
    OrderedShape(v, dirs, role, kd);
    if Walk(v, c, a).Some? {
      OrderedData(v, dirs, role, kd, c, a);
      forall i | 0 <= i < 1024 && Present(v.page[c][i])
        ensures Frame(v.page[c][i]) != Frame(Walk(v, c, a).value)
      {
        OrderedEntry(v, dirs, role, kd, c, i);
      }
    }
  }

  // Tearing down a directory that is not loaded

  /** No walk from c passes directory d, and one of its tables below UTOP at the same slot at most. */
  ghost predicate Apart(v: Vm, c: nat, d: nat) {
    && c != d && d < |v.page| && NotInTree(v, c, [d])
    && (forall x :: 0 <= x < UTOPX && Present(v.page[d][x]) ==>
        Frame(v.page[d][x]) < |v.page| && Frame(v.page[d][x]) != d && OnlyAt(v, c, Frame(v.page[d][x]), x))
  }

  lemma OwnedIsApart(v: Vm, kd: nat, d: nat, c: nat)
    requires Owned(v, kd, d, c) && c != d
    ensures Apart(v, c, d)
  {
    hide Ordered;
    var dirs: set<nat>, role: seq<Role> :|
      Ordered(v, dirs, role, kd) && d < |role| && role[d].Dir? && IsDir(role, kd, c);
    OrderedShape(v, dirs, role, kd);
    OrderedApart(v, dirs, role, kd, d, c, 0);
    assert d in [d];
    forall x | 0 <= x < UTOPX && Present(v.page[d][x])
      ensures Frame(v.page[d][x]) < |v.page| && Frame(v.page[d][x]) != d && OnlyAt(v, c, Frame(v.page[d][x]), x)
    {
      OrderedEntry(v, dirs, role, kd, d, x);
      OrderedApart(v, dirs, role, kd, d, c, x);
    }
  }

  lemma ApartTable(v: Vm, u: Vm, c: nat, d: nat, x: nat)
    requires Apart(v, c, d) && x < UTOPX && u.page == v.page
    ensures TableApart(u, c, d, x) && OnlyAt(u, c, d, 1024)
    ensures Present(u.page[d][x]) ==> Frame(u.page[d][x]) != d
  {
    assert d in [d];
  }

  lemma SameApart(v: Vm, u: Vm, c: nat, d: nat)
    requires Apart(v, c, d) && u.page == v.page
    ensures Apart(u, c, d)
  {
  }

  /** Clearing a directory entry of d leaves c alone. */
  lemma OtherPage(v: Vm, c: nat, d: nat, x: nat)
    requires Apart(v, c, d) && x < 1024
    ensures var v' := Store(v, d, x, 0);
            v'.page[c] == v.page[c] && forall i :: 0 <= i < UTOPX && Present(v'.page[d][i]) ==>
              v'.page[d][i] == v.page[d][i]
  {
  }

  /** remove and the clearing of a directory entry keep the two apart. */
  lemma StillApart(v: Vm, c: nat, d: nat, v': Vm)
    requires Apart(v, c, d) && |v'.page| == |v.page| && v'.page[c] == v.page[c]
    requires forall x :: 0 <= x < UTOPX && Present(v'.page[d][x]) ==> v'.page[d][x] == v.page[d][x]
    ensures Apart(v', c, d)
  {
  }

  /** A store outside of the tree of c leaves no stale translation. */
  lemma StoreElsewhere(v: Vm, c: nat, tlb: Tlb, t: nat, i: nat, w: Word)
    requires Agrees(v, c, tlb, {}) && OnlyAt(v, c, t, 1024) && t < |v.page| && i < 1024
    ensures Agrees(Store(v, t, i, w), c, tlb, {})
  {
    StoreAgrees(v, c, tlb, t, 1024, i, w);
    assert Found(v, c, (1024, i)).None?;
  }

  // Making directories

  /** Memory is in order, and the directory that is loaded is in use. */
  ghost predicate Loaded(v: Vm, kd: nat, c: nat) {
    exists dirs: set<nat>, role: seq<Role> :: Ordered(v, dirs, role, kd) && IsDir(role, kd, c)
  }

  lemma LoadedNotFree(v: Vm, u: Vm, kd: nat, c: nat)
    requires Loaded(v, kd, c) && u.page == v.page
    ensures NotInTree(u, c, v.free)
  {
    hide Ordered;
    var dirs: set<nat>, role: seq<Role> :| Ordered(v, dirs, role, kd) && IsDir(role, kd, c);
    OrderedShape(v, dirs, role, kd);
    OrderedApart(v, dirs, role, kd, c, c, 0);
  }

  /** A new directory is a task's, and everything stays in order. */
  lemma LoadedSetup(v: Vm, kd: nat, c: nat)
    requires Loaded(v, kd, c) && v.free != []
    ensures Wf(v) && kd < |v.page|
    ensures var m := SetupMemory(v, kd);
            && m.1.Some? && Loaded(m.0, kd, c) && Owned(m.0, kd, m.1.value, m.1.value)
            && |m.0.page| == |v.page| && m.0.page[kd] == v.page[kd]
  {
    hide SetupMemory, Inv, Ordered, Wf, Lift, Marked;
    var dirs: set<nat>, role: seq<Role> :| Ordered(v, dirs, role, kd) && IsDir(role, kd, c);
    OrderedShape(v, dirs, role, kd);
    var ds, f := OrderedSetup(v, dirs, role, kd);
    var role1 := role[f := Dir(0)];
    assert IsDir(role1, kd, c) && IsDir(role1, kd, f);
  }

  lemma OrderedSetup(v: Vm, dirs: set<nat>, role: seq<Role>, kd: nat) returns (ds: set<nat>, f: nat)
    requires Ordered(v, dirs, role, kd) && v.free != []
    ensures Wf(v) && kd < |v.page| && f < |role| && role[f].Free? && f != kd && SetupMemory(v, kd).1 == Some(f)
    ensures Ordered(SetupMemory(v, kd).0, ds, role[f := Dir(0)], kd)
    ensures |SetupMemory(v, kd).0.page| == |v.page| && SetupMemory(v, kd).0.page[kd] == v.page[kd]
  {
    hide SetupMemory, Inv, Wf, Lift, Marked, MarksKept;
    OrderedShape(v, dirs, role, kd);
    f := v.free[0];
    assert f in v.free;
    SetupParts(v, kd, f);
    var v' := SetupMemory(v, kd).0;
    var u, g := SetupKeepsInv(Lift(v, dirs), role, kd, 0);
    if dirs == {} {
      ds := {};
      LiftNone(v);
      LiftNone(v');
    } else {
      var t :| Marked(v, dirs, role, kd, t);
      ds := dirs + {f};
      SetupLifts(v, dirs, role, kd, t, f);
      MarkedJoins(v, dirs, role, kd, t, v', f, Dir(0));
    }
  }

  // Programs and regions that stay clear of the entry that boot leaves

  ghost predicate RangeUsable(v: Vm, kd: nat, va: Word, len: nat) {
    && va + len <= UTOP && kd < |v.page|
    && (Present(v.page[kd][STALEX]) ==> RangeAvoids(va, len))
  }

  /** The program lies below UTOP and clear of that entry, if there is one. */
  ghost predicate Suits(v: Vm, kd: nat, elf: Elf) {
    WellFormed(elf) && kd < |v.page| && (Present(v.page[kd][STALEX]) ==> AvoidsStale(elf))
  }

  lemma UsablePage(v: Vm, kd: nat, va: Word, len: Word, p: nat)
    requires RangeUsable(v, kd, va, len) && len > 0 && RegionLo(va) <= p < RegionHi(va, len)
    ensures p * PGSIZE < WORD_LIMIT && Usable(v, kd, Pdx(p * PGSIZE))
  {
    RegionPages(va, len, va);
    hide RegionLo, RegionHi;
    if Present(v.page[kd][STALEX]) {
      RegionAvoids(va, len);
    }
    assert p * PGSIZE < UTOP;
  }

  lemma UsableByte(v: Vm, kd: nat, a: Word, len: nat, k: nat)
    requires RangeUsable(v, kd, a, len) && k < len
    ensures (a + k) % WORD_LIMIT == a + k < UTOP && Usable(v, kd, Pdx(a + k))
  {
    LayoutIndexes();
  }

  /** It depends on that one entry only. */
  lemma UsableKept(v: Vm, v': Vm, kd: nat)
    requires |v'.page| == |v.page| && kd < |v.page| && v'.page[kd] == v.page[kd]
    ensures forall a: Word, len: nat :: RangeUsable(v, kd, a, len) ==> RangeUsable(v', kd, a, len)
    ensures forall elf: Elf :: Suits(v, kd, elf) ==> Suits(v', kd, elf)
  {
  }

  lemma UsablePart(v: Vm, kd: nat, a: Word, len: nat, n: nat)
    requires n <= len
    ensures RangeUsable(v, kd, a, len) ==> RangeUsable(v, kd, a, n)
  {
  }

  lemma UsableSegment(v: Vm, kd: nat, elf: Elf, k: nat)
    requires Suits(v, kd, elf) && k < |elf.segs| && Loadable(elf.segs[k])
    ensures RangeUsable(v, kd, elf.segs[k].va, elf.segs[k].memsz) && elf.segs[k].filesz <= elf.segs[k].memsz
  {
  }

  lemma UsableStack(v: Vm, kd: nat)
    requires kd < |v.page|
    ensures RangeUsable(v, kd, USTACKTOP - PGSIZE, PGSIZE)
  {
  }
}
