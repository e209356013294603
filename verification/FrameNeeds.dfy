/**
 How many frames a program needs (kernel/task.cc): loading works out exactly if that many are free,
 takes them from the front of the list, and leaves all others alone.
 */
module FrameNeeds {
  import opened Wrappers
  import opened Mmu
  import opened PageTables
  import opened Ownership
  import opened Translation
  import opened OwnershipSteps
  import opened RadixTree
  import opened Isolation
  import opened AddressSpaces
  import opened AddressSpaceSteps
  import opened RegionSteps
  import opened UserMemory
  import opened Regions
  import opened ElfLoader
  import opened TaskInvariant

  /** From v to v', the last m frames of the list stay where they are and are not written. */
  ghost predicate TailKept(v: Vm, v': Vm, m: nat) {
    && m <= |v.free| && m <= |v'.free| && |v'.page| == |v.page|
    && v'.free[|v'.free| - m..] == v.free[|v.free| - m..]
    && forall f :: f in v.free[|v.free| - m..] && f < |v.page| ==> v'.page[f] == v.page[f]
  }

  lemma TailRefl(v: Vm, m: nat)
    requires m <= |v.free|
    ensures TailKept(v, v, m)
  {
  }

  lemma TailTrans(v: Vm, v1: Vm, v2: Vm, m: nat, n: nat)
    requires TailKept(v, v1, m) && TailKept(v1, v2, n) && n <= m
    ensures TailKept(v, v2, n)
  {
    ShorterTail(v, v1, m, n);
  }

  lemma ShorterTail(v: Vm, v': Vm, m: nat, n: nat)
    requires TailKept(v, v', m) && n <= m
    ensures TailKept(v, v', n)
  {
    var s, t := v.free[|v.free| - m..], v'.free[|v'.free| - m..];
    assert s[m - n..] == v.free[|v.free| - n..] && t[m - n..] == v'.free[|v'.free| - n..];
    assert forall f :: f in s[m - n..] ==> f in s;
  }

  // One page

  /** The frames that one round of regionAlloc takes. */
  function PageCost(v: Vm, d: nat, x: nat): nat
    requires d < |v.page| && x < 1024
  {
    if Present(v.page[d][x]) then 1 else 2
  }

  /** One round takes its frames from the front of the list; a page that it replaces is put there. */
  lemma AllocPageTakes(v: Vm, role: seq<Role>, kd: nat, d: nat, va: Word, v': Vm)
    requires OwnSpace(v, role, kd, d) && UserPage(role, d, va) && AllocPage(v, d, va) == Ok(v')
    ensures |v.free| >= PageCost(v, d, Pdx(va))
    ensures v'.free == if Walk(v, d, va).Some? then [Frame(Walk(v, d, va).value)] + v.free[1..]
              else v.free[PageCost(v, d, Pdx(va))..]
    ensures TailKept(v, v', |v.free| - PageCost(v, d, Pdx(va)))
  {
    hide Inv, AllocPage, Inserted, Remove, FindPteRole, OwnPages, TailKept, Walk, FindPte, AllocFrame, UserPage;
    hide Frame, Present, MakePte, Pdx, Ptx, ZeroPage, Wf;
    var v1, role1, t := PageTaken(v, role, kd, d, va, v');
    InsertedFree(v1, role1, kd, d, v.free[0], va, MakePte(v.free[0], 7), v');
    InsertedTail(v, v1, v', t, PageCost(v, d, Pdx(va)));
  }

  /** The state before the new page is entered, and what becomes of the page that was there. */
  lemma PageTaken(v: Vm, role: seq<Role>, kd: nat, d: nat, va: Word, v': Vm)
    returns (v1: Vm, role1: seq<Role>, t: nat)
    requires OwnSpace(v, role, kd, d) && UserPage(role, d, va) && AllocPage(v, d, va) == Ok(v')
    ensures d < |v.page| == |v1.page| && |v.free| >= PageCost(v, d, Pdx(va)) && v.free[0] < |role1| <= 0x2_0000
    ensures Inv(v1, role1, kd) && UserPage(role1, d, va) && role1[v.free[0]].InFlight?
    ensures Inserted(v1, d, v.free[0], va, MakePte(v.free[0], 7), v')
    ensures v1.free == v.free[PageCost(v, d, Pdx(va))..]
    ensures Frame(v1.page[d][Pdx(va)]) == t && t !in v1.free
    ensures forall g :: g in v1.free ==> g < |v.page| && v1.page[g] == v.page[g]
    ensures Walk(v1, d, va) == Walk(v, d, va)
    ensures Walk(v, d, va).Some? ==>
              Frame(Walk(v, d, va).value) < |v1.rc| && v1.rc[Frame(Walk(v, d, va).value)] == 1
                && PageCost(v, d, Pdx(va)) == 1
  {
    hide Inv, AllocPage, Inserted, Remove, FindPteRole, OwnPages, Walk, FindPte, AllocFrame, UserPage;
    hide Frame, Present, MakePte, Pdx, Ptx, ZeroPage, Wf;
    var v0, role0;
    v0, role0, v1, t := PageStages(v, role, kd, d, va, v');
    role1 := FindPteRole(v0, role0, d, va);
    TableTaken(v, role, kd, d, va, v0, role0, v1, t);
    ReplacedOnce(v, role, kd, d, va, v0, role0, v1, t);
  }

  /** The steps of one round. */
  lemma PageStages(v: Vm, role: seq<Role>, kd: nat, d: nat, va: Word, v': Vm)
    returns (v0: Vm, role0: seq<Role>, v1: Vm, t: nat)
    requires Inv(v, role, kd) && UserPage(role, d, va) && AllocPage(v, d, va) == Ok(v')
    ensures d < |v.page| && |v.free| >= PageCost(v, d, Pdx(va)) && Wf(v) && v0 == AllocFrame(v, true).0 && Wf(v0)
    ensures v.free[0] < |role| <= 0x2_0000 && role0 == role[v.free[0] := InFlight] && d < |v0.page|
    ensures FindPte(v0, d, va, true) == Ok((v1, PteAt(t, Ptx(va)))) && d < |v1.page|
    ensures Inv(v1, FindPteRole(v0, role0, d, va), kd) && UserPage(FindPteRole(v0, role0, d, va), d, va)
    ensures v.free[0] < |FindPteRole(v0, role0, d, va)| && FindPteRole(v0, role0, d, va)[v.free[0]].InFlight?
    ensures Inserted(v1, d, v.free[0], va, MakePte(v.free[0], 7), v')
  {
    hide Inv, AllocPage, Insert, Inserted, Remove, FindPteRole, FindPte;
    AllocPageOkIff(v, role, kd, d, va);
    var f := v.free[0];
    v0, role0 := AllocPageForm(v, role, kd, d, va, v', f);
    FindPteKeepsInv(v0, role0, kd, d, va);
    var r := FindPte(v0, d, va, true).value;
    InsertIsUpdate(v0, role0, kd, d, f, va, PTE_U + PTE_W, d, va);
    InsertFound(v0, d, f, va, PTE_U + PTE_W, v', r.0, r.1);
    v1, t := r.0, r.1.table;
    var v2 := InsertForm(v0, role0, kd, d, f, va, PTE_U + PTE_W, v1, t);
  }

  lemma InsertFound(v: Vm, d: nat, f: nat, va: Word, perm: nat, v': Vm, v1: Vm, loc: PteLoc)
    requires Wf(v) && d < |v.page| && f < |v.page| && perm < 0x1000
    requires Insert(v, d, f, va, perm) == Ok((v', true)) && FindPte(v, d, va, true) == Ok((v1, loc))
    ensures loc.PteAt? && loc.index == Ptx(va)
  {
    hide FindPte, Remove;
  }

  /** findPte takes the second frame for a page table, if there is none. */
  lemma TableTaken(v: Vm, role: seq<Role>, kd: nat, d: nat, va: Word, v0: Vm, role0: seq<Role>, v1: Vm, t: nat)
    requires Inv(v, role, kd) && UserPage(role, d, va) && v.free != [] && v0 == AllocFrame(v, true).0
    requires |v.free| >= PageCost(v, d, Pdx(va)) && v.free[0] < |role| && role0 == role[v.free[0] := InFlight]
    requires FindPte(v0, d, va, true) == Ok((v1, PteAt(t, Ptx(va))))
    ensures v1.free == v.free[PageCost(v, d, Pdx(va))..] && |v1.page| == |v.page|
    ensures Present(v1.page[d][Pdx(va)]) && Frame(v1.page[d][Pdx(va)]) == t && t !in v1.free
    ensures forall g :: g in v1.free ==> g < |v.page| && v1.page[g] == v.page[g]
    ensures Present(v.page[d][Pdx(va)]) ==> v1 == v0
    ensures !Present(v.page[d][Pdx(va)]) ==> t < |v1.page| && v1.page[t] == ZeroPage()
  {
    LayoutIndexes();
    FreeHead(v, role, kd);
    assert v0.free == v.free[1..] && v0.page[d] == v.page[d];
    if Present(v.page[d][Pdx(va)]) {
      Target(v, role, kd, d, Pdx(va));
    } else {
      assert v.free[1] in v.free;
      assert v1.free == v.free[2..];
      assert v1.free == v0.free[1..];
      AllocKeepsInv(v, role, kd);
      FreeHead(v0, role0, kd);
    }
  }

  /** The page that was mapped there was mapped once, so it is free now. */
  lemma ReplacedOnce(v: Vm, role: seq<Role>, kd: nat, d: nat, va: Word, v0: Vm, role0: seq<Role>, v1: Vm, t: nat)
    requires OwnSpace(v, role, kd, d) && UserPage(role, d, va) && v.free != [] && v0 == AllocFrame(v, true).0
    requires v.free[0] < |role| && role0 == role[v.free[0] := InFlight]
    requires FindPte(v0, d, va, true) == Ok((v1, PteAt(t, Ptx(va)))) && t < |v1.page| == |v.page|
    requires Present(v1.page[d][Pdx(va)]) && Frame(v1.page[d][Pdx(va)]) == t
    requires Present(v.page[d][Pdx(va)]) ==> v1 == v0
    requires !Present(v.page[d][Pdx(va)]) ==> v1.page[t] == ZeroPage()
    ensures Walk(v1, d, va) == Walk(v, d, va)
    ensures Walk(v, d, va).Some? ==>
              Frame(Walk(v, d, va).value) < |v1.rc| && v1.rc[Frame(Walk(v, d, va).value)] == 1
                && PageCost(v, d, Pdx(va)) == 1
  {
    LayoutIndexes();
    hide FindPte;
    if Present(v.page[d][Pdx(va)]) {
      AllocKeepsLeaves(v, role, kd);
      assert IsDir(role, kd, d);
      hide Inv;
      if Walk(v, d, va).Some? {
        assert OwnPage(v, Leaf(v, d, Pdx(va), Ptx(va)).value);
        assert v1.rc == v.rc;
      }
    }
  }

  lemma InsertedFree(v1: Vm, role1: seq<Role>, kd: nat, d: nat, f: nat, va: Word, w: Word, v': Vm)
    requires Inv(v1, role1, kd) && UserPage(role1, d, va) && f < |role1| && role1[f].InFlight?
    requires Inserted(v1, d, f, va, w, v')
    ensures var t := Frame(v1.page[d][Pdx(va)]);
            t < |v1.page| == |v'.page| && (forall g :: 0 <= g < |v1.page| && g != t ==> v'.page[g] == v1.page[g])
    ensures Walk(v1, d, va).None? ==> v'.free == v1.free
    ensures Walk(v1, d, va).Some? ==>
              var g := Frame(Walk(v1, d, va).value);
              g < |v1.rc| && v1.rc[g] == 1 ==> v'.free == [g] + v1.free
  {
    LayoutIndexes();
    NothingMapsUnowned(v1, role1, kd, f);
    assert Maps(v1, d, Pdx(va), Ptx(va), f) == (Slot(d, Pdx(va), Ptx(va)) in Mappings(v1, role1, f));
    if Walk(v1, d, va).None? {
      RemoveNothing(v1, role1, kd, d, va);
    } else {
      var v2, g, t := RemoveForm(v1, role1, kd, d, va);
    }
  }

  lemma InsertedTail(v: Vm, v1: Vm, v': Vm, t: nat, c: nat)
    requires c <= |v.free| && v1.free == v.free[c..] && |v'.page| == |v1.page| == |v.page| && t !in v1.free
    requires forall g :: g in v1.free ==> g < |v.page| && v1.page[g] == v.page[g]
    requires forall g :: 0 <= g < |v1.page| && g != t ==> v'.page[g] == v1.page[g]
    requires v'.free == v1.free || (|v'.free| > 0 && v'.free == [v'.free[0]] + v1.free)
    ensures TailKept(v, v', |v.free| - c)
  {
  }

  // Pages and page tables of an address space

  const USER_PAGES: nat := UTOPX * 1024

  /** The pages below UTOP that directory d maps. */
  ghost function Mapped(v: Vm, d: nat): set<nat>
    requires d < |v.page|
  {
    set p: nat | p < USER_PAGES && Leaf(v, d, p / 1024, p % 1024).Some?
  }

  /** The page tables that these pages need. */
  function TablesOf(pages: set<nat>): set<nat> {
    set p | p in pages :: p / 1024
  }

  /** Pages and their tables, in frames. */
  function FramesFor(pages: set<nat>): nat {
    |pages| + |TablesOf(pages)|
  }

  function PageSpan(p: nat, q: nat): (s: set<nat>)
    ensures forall i :: i in s <==> p <= i < q
    decreases q - p
  {
    if p >= q then {} else {p} + PageSpan(p + 1, q)
  }

  /** d has page tables for its mapped pages only. */
  ghost predicate NoSpareTable(v: Vm, d: nat) {
    d < |v.page| && forall x: nat :: x < UTOPX ==> (Present(v.page[d][x]) <==> x in TablesOf(Mapped(v, d)))
  }

  lemma OneMorePage(m: set<nat>, p: nat)
    ensures FramesFor(m + {p}) == FramesFor(m) + (if p in m then 0 else if p / 1024 in TablesOf(m) then 1 else 2)
  {
    TablesMore(m, p);
    hide TablesOf;
    AddOne(m, p);
    AddOne(TablesOf(m), p / 1024);
  }

  lemma TablesMore(m: set<nat>, p: nat)
    ensures TablesOf(m + {p}) == TablesOf(m) + {p / 1024}
    ensures p in m ==> p / 1024 in TablesOf(m)
  {
  }

  lemma AddOne(m: set<nat>, x: nat)
    ensures |m + {x}| == if x in m then |m| else |m| + 1
  {
    if x in m {
      assert m + {x} == m;
    }
  }

  lemma MorePages(m: set<nat>, n: set<nat>)
    requires m <= n
    ensures FramesFor(m) <= FramesFor(n) && (m < n ==> FramesFor(m) < FramesFor(n))
  {
    SubsetSize(m, n);
    SubsetSize(TablesOf(m), TablesOf(n));
    if m < n {
      var p :| p in n && p !in m;
      SubsetSize(m + {p}, n);
    }
  }

  /** The frames that are needed to map more pages: those that it takes, and one more if the last page was
      mapped already, because it is given a new frame before its old one is free. */
  function Needed(m: set<nat>, n: set<nat>, again: bool): int {
    FramesFor(n) - FramesFor(m) + if again then 1 else 0
  }

  /** One round of regionAlloc, as a step on the set of mapped pages. */
  lemma PageStep(v: Vm, role: seq<Role>, kd: nat, d: nat, p: nat)
    requires OwnSpace(v, role, kd, d) && NoSpareTable(v, d) && p < USER_PAGES
    ensures Wf(v) && UserPage(role, d, p * PGSIZE) && Pdx(p * PGSIZE) == p / 1024
    ensures var m, r := Mapped(v, d), AllocPage(v, d, p * PGSIZE);
            && (r.Ok? <==> |v.free| >= Needed(m, m + {p}, p in m)) && !r.Cyclic?
            && (r.Ok? ==>
                  && d < |r.value.page| && Mapped(r.value, d) == m + {p} && NoSpareTable(r.value, d)
                  && |r.value.free| == |v.free| - (FramesFor(m + {p}) - FramesFor(m))
                  && TailKept(v, r.value, |v.free| - Needed(m, m + {p}, p in m)))
  {
    hide Inv, OwnPages, AllocPage, TailKept, FramesFor, Mapped, TablesOf;
    var va := p * PGSIZE;
    PageAddress(p);
    AllocPageOkIff(v, role, kd, d, va);
    OneMorePage(Mapped(v, d), p);
    MappedAt(v, d, p);
    var r := AllocPage(v, d, va);
    if r.Ok? {
      AllocPageTakes(v, role, kd, d, va, r.value);
      var role', f := AllocPageSteps(v, role, kd, d, va, r.value);
      MappedMore(v, role, kd, d, p, r.value, role', f);
    }
  }

  lemma PageAddress(p: nat)
    requires p < USER_PAGES
    ensures p * PGSIZE < UTOP && Pdx(p * PGSIZE) == p / 1024 && Ptx(p * PGSIZE) == p % 1024 && Pgnum(p * PGSIZE) == p
  {
  }

  lemma MappedAt(v: Vm, d: nat, p: nat)
    requires d < |v.page| && p < USER_PAGES
    ensures p in Mapped(v, d) <==> Walk(v, d, p * PGSIZE).Some?
    ensures p in Mapped(v, d) ==> p / 1024 in TablesOf(Mapped(v, d))
  {
    PageAddress(p);
  }

  lemma MappedMore(v: Vm, role: seq<Role>, kd: nat, d: nat, p: nat, v': Vm, role': seq<Role>, f: nat)
    requires OwnSpace(v, role, kd, d) && NoSpareTable(v, d) && p < USER_PAGES && AllocPage(v, d, p * PGSIZE) == Ok(v')
    requires AllocPageWrites(v, role, kd, d, p * PGSIZE, v', f)
    ensures d < |v'.page| && Mapped(v', d) == Mapped(v, d) + {p} && NoSpareTable(v', d)
  {
    hide Inv, AllocPage, OwnPages, Mapped, AllocPageWrites;
    MappedSet(v, role, kd, d, p, v', f);
    DirectoryMore(v, role, kd, d, p, v');
    assert TablesOf(Mapped(v, d) + {p}) == TablesOf(Mapped(v, d)) + {p / 1024};
  }

  lemma MappedSet(v: Vm, role: seq<Role>, kd: nat, d: nat, p: nat, v': Vm, f: nat)
    requires p < USER_PAGES && AllocPageWrites(v, role, kd, d, p * PGSIZE, v', f) && d < |v.page|
    ensures d < |v'.page| && Mapped(v', d) == Mapped(v, d) + {p}
  {
    PageAddress(p);
    hide Leaf, Pdx, Ptx, Pgnum;
    forall i: nat | i < USER_PAGES
      ensures Leaf(v', d, i / 1024, i % 1024).Some? <==> Leaf(v, d, i / 1024, i % 1024).Some? || i == p
    {
      if i != p {
        assert i / 1024 < UTOPX && !(i / 1024 == p / 1024 && i % 1024 == p % 1024);
      }
    }
  }

  /** Of the directory, one entry is changed at most. */
  lemma DirectoryMore(v: Vm, role: seq<Role>, kd: nat, d: nat, p: nat, v': Vm)
    requires OwnSpace(v, role, kd, d) && p < USER_PAGES && AllocPage(v, d, p * PGSIZE) == Ok(v')
    ensures |v'.page| == |v.page| && d < |v.page|
    ensures forall x: nat :: x < UTOPX ==> (Present(v'.page[d][x]) <==> Present(v.page[d][x]) || x == p / 1024)
  {
    hide Inv, AllocPage, Inserted, FindPteRole, OwnPages, Walk, FindPte;
    var va := p * PGSIZE;
    PageAddress(p);
    var v0, role0, v1, t := PageStages(v, role, kd, d, va, v');
    InsertedFree(v1, FindPteRole(v0, role0, d, va), kd, d, v.free[0], va, MakePte(v.free[0], 7), v');
    AllocWrote(v, role, kd, d, v0);
    FindPteWrote(v0, d, va, v1, t);
    TableIsNot(v1, FindPteRole(v0, role0, d, va), kd, d, va);
  }

  lemma TableIsNot(v: Vm, role: seq<Role>, kd: nat, d: nat, va: Word)
    requires Inv(v, role, kd) && UserPage(role, d, va) && Present(v.page[d][Pdx(va)])
    ensures Frame(v.page[d][Pdx(va)]) != d
  {
    LayoutIndexes();
    Target(v, role, kd, d, Pdx(va));
  }

  lemma AllocWrote(v: Vm, role: seq<Role>, kd: nat, d: nat, v0: Vm)
    requires Inv(v, role, kd) && d < |role| && role[d].Dir? && v.free != [] && v0 == AllocFrame(v, true).0
    ensures |v0.page| == |v.page| && v0.page[d] == v.page[d] && d !in v0.free
  {
    FreeHead(v, role, kd);
  }

  lemma FindPteWrote(v: Vm, d: nat, va: Word, v1: Vm, t: nat)
    requires Wf(v) && d < |v.page| && d !in v.free && FindPte(v, d, va, true) == Ok((v1, PteAt(t, Ptx(va))))
    ensures |v1.page| == |v.page| && Present(v1.page[d][Pdx(va)])
    ensures forall x: nat :: x < 1024 && x != Pdx(va) ==> v1.page[d][x] == v.page[d][x]
  {
  }

  /** From v to v', directory d came to map the pages n instead of m. */
  ghost predicate Grew(v: Vm, d: nat, v': Vm, n: set<nat>, need: int)
    requires d < |v.page|
  {
    && d < |v'.page| && NoSpareTable(v', d) && Mapped(v', d) == n
    && |v'.free| == |v.free| - (FramesFor(n) - FramesFor(Mapped(v, d)))
    && 0 <= need <= |v.free| && TailKept(v, v', |v.free| - need)
  }

  /** A first part never needs more frames than the whole, if there is something left to map. */
  lemma FirstPart(m: set<nat>, m1: set<nat>, n: set<nat>, again1: bool, again: bool)
    requires m <= m1 <= n && (again || m1 < n)
    ensures Needed(m, n, again) == FramesFor(m1) - FramesFor(m) + Needed(m1, n, again)
    ensures Needed(m, m1, again1) <= Needed(m, n, again) && 1 <= Needed(m1, n, again)
  {
    hide FramesFor;
    MorePages(m, m1);
    MorePages(m1, n);
  }

  lemma GrewTrans(v: Vm, d: nat, v1: Vm, v2: Vm, m: set<nat>, m1: set<nat>, n: set<nat>, again1: bool, again: bool)
    requires d < |v.page| && d < |v1.page| && Mapped(v, d) == m && m <= m1 <= n && (again || m1 < n)
    requires Grew(v, d, v1, m1, Needed(m, m1, again1)) && Grew(v1, d, v2, n, Needed(m1, n, again))
    ensures Grew(v, d, v2, n, Needed(m, n, again))
  {
    hide FramesFor, TailKept, Mapped, NoSpareTable;
    FirstPart(m, m1, n, again1, again);
    ShorterTail(v, v1, |v.free| - Needed(m, m1, again1), |v.free| - Needed(m, n, again));
    TailTrans(v, v1, v2, |v.free| - Needed(m, n, again), |v1.free| - Needed(m1, n, again));
  }

  /** regionAlloc's loop works out exactly with these frames. */
  lemma {:induction false} AllocPagesNeed(v: Vm, role: seq<Role>, kd: nat, d: nat, p: nat, q: nat)
    requires OwnSpace(v, role, kd, d) && NoSpareTable(v, d) && p < q <= USER_PAGES
    ensures Wf(v) && d < |v.page|
    ensures var m, r := Mapped(v, d), AllocPages(v, d, p, q);
            var n := m + PageSpan(p, q);
            && (r.Ok? <==> |v.free| >= Needed(m, n, q - 1 in m))
            && (r.Ok? ==> Grew(v, d, r.value, n, Needed(m, n, q - 1 in m)))
    decreases q - p
  {
    hide Inv, OwnPages, AllocPages, AllocPage, FramesFor, Mapped, NoSpareTable, Grew, TailKept, Isolated,
        AllocPageWrites;
    PageStep(v, role, kd, d, p);
    UnfoldAllocPages(v, d, p, q);
    var m, r := Mapped(v, d), AllocPage(v, d, p * PGSIZE);
    var m1, n := m + {p}, m + PageSpan(p, q);
    if r.Ok? {
      var v1 := r.value;
      UnfoldAllocPages(v1, d, p + 1, q);
      GrewPage(v, d, v1, p);
      if p + 1 < q {
        var role1, f := AllocPageSteps(v, role, kd, d, p * PGSIZE, v1);
        AllocPageKeepsOwn(v, role, kd, d, p * PGSIZE, v1, role1, f);
        AllocPagesNeed(v1, role1, kd, d, p + 1, q);
        SpanSplits(m, p, q);
        FirstPart(m, m1, n, p in m, q - 1 in m);
        if AllocPages(v1, d, p + 1, q).Ok? {
          GrewTrans(v, d, v1, AllocPages(v1, d, p + 1, q).value, m, m1, n, p in m, q - 1 in m);
        }
      } else {
        assert n == m1;
      }
    } else {
      SpanSplits(m, p, q);
      if p + 1 < q {
        FirstPart(m, m1, n, p in m, q - 1 in m);
      }
    }
  }

  lemma GrewPage(v: Vm, d: nat, v1: Vm, p: nat)
    requires d < |v.page| && d < |v1.page|
    requires var m := Mapped(v, d);
             && |v.free| >= Needed(m, m + {p}, p in m) && Mapped(v1, d) == m + {p} && NoSpareTable(v1, d)
             && |v1.free| == |v.free| - (FramesFor(m + {p}) - FramesFor(m))
             && TailKept(v, v1, |v.free| - Needed(m, m + {p}, p in m))
    ensures Grew(v, d, v1, Mapped(v, d) + {p}, Needed(Mapped(v, d), Mapped(v, d) + {p}, p in Mapped(v, d)))
  {
    hide TailKept, Mapped, NoSpareTable;
    MorePages(Mapped(v, d), Mapped(v, d) + {p});
    hide FramesFor;
  }

  lemma SpanSplits(m: set<nat>, p: nat, q: nat)
    requires p < q
    ensures m + {p} + PageSpan(p + 1, q) == m + PageSpan(p, q) && (p + 1 == q ==> m + PageSpan(p, q) == m + {p})
    ensures p + 1 < q ==> (q - 1 in m + {p} <==> q - 1 in m) && q - 1 in m + PageSpan(p, q)
    ensures p + 1 < q ==> q - 1 in m || m + {p} < m + PageSpan(p, q)
  {
  }

  // Bytes

  /** Copying writes to data frames only, and changes no table. */
  lemma {:induction false} CopyOutKeeps(v: Vm, role: seq<Role>, kd: nat, d: nat, a: Word, s: seq<Byte>, k: nat)
    returns (v': Vm)
    requires OwnSpace(v, role, kd, d) && k <= |s| && a + |s| <= UTOP
    requires forall c: Word :: a + k <= c < a + |s| ==> Walk(v, d, c).Some?
    ensures CopyOut(v, d, a, s, k) == Ok(v') && OwnSpace(v', role, kd, d)
    ensures v'.free == v.free && |v'.page| == |v.page| == |role|
    ensures forall g :: 0 <= g < |role| && !role[g].Data? ==> v'.page[g] == v.page[g]
    ensures forall c: Word :: c < UTOP ==> Walk(v', d, c) == Walk(v, d, c)
    decreases |s| - k
  {
    hide Inv, OwnPages, Walk, CopyOut, StoreByte, Wf, Isolated, Read;
    OwnSpaceShape(v, role, kd, d);
    OwnSpaceSize(v, role, kd, d);
    UnfoldCopyOut(v, d, a, s, k);
    if k == |s| {
      v' := v;
    } else {
      assert (a + k) % WORD_LIMIT == a + k;
      var v1 := StoreByteSteps(v, role, kd, d, a + k, s[k]);
      StoreByteWrites(v, role, kd, d, a + k, s[k], v1);
      v' := CopyOutKeeps(v1, role, kd, d, a, s, k + 1);
    }
  }

  lemma OwnSpaceSize(v: Vm, role: seq<Role>, kd: nat, d: nat)
    requires OwnSpace(v, role, kd, d)
    ensures |v.page| == |role|
  {
  }

  lemma StoreByteWrites(v: Vm, role: seq<Role>, kd: nat, d: nat, a: Word, b: Byte, v1: Vm)
    requires OwnSpace(v, role, kd, d) && a < UTOP && Walk(v, d, a).Some? && StoreByte(v, d, a, b) == Ok(v1)
    ensures v1.free == v.free && |v1.page| == |v.page|
    ensures forall g :: 0 <= g < |role| && !role[g].Data? ==> v1.page[g] == v.page[g]
  {
    hide Walk, SetPageByte;
    var g := Frame(Walk(v, d, a).value);
    WalkedData(v, role, kd, d, a);
    hide Inv;
  }

  lemma WalkedData(v: Vm, role: seq<Role>, kd: nat, d: nat, a: Word)
    requires OwnSpace(v, role, kd, d) && a < UTOP && Walk(v, d, a).Some?
    ensures |role| == |v.page| && Frame(Walk(v, d, a).value) < |role| && role[Frame(Walk(v, d, a).value)].Data?
  {
    LayoutIndexes();
    DataIsMapped(v, role, kd, d, Pdx(a), Ptx(a), Frame(Walk(v, d, a).value));
  }

  /** So for the pages that are mapped, and the frames that are free, nothing happens. */
  lemma CopyOutGrew(v: Vm, role: seq<Role>, kd: nat, d: nat, v': Vm, m: nat)
    requires OwnSpace(v, role, kd, d) && NoSpareTable(v, d) && v'.free == v.free && |v'.page| == |v.page| == |role|
    requires forall g :: 0 <= g < |role| && !role[g].Data? ==> v'.page[g] == v.page[g]
    requires forall c: Word :: c < UTOP ==> Walk(v', d, c) == Walk(v, d, c)
    requires m <= |v.free|
    ensures d < |v'.page| && NoSpareTable(v', d) && Mapped(v', d) == Mapped(v, d) && TailKept(v, v', m)
  {
    forall p: nat | p < USER_PAGES
      ensures Leaf(v', d, p / 1024, p % 1024) == Leaf(v, d, p / 1024, p % 1024)
    {
      PageAddress(p);
      assert Walk(v', d, p * PGSIZE) == Walk(v, d, p * PGSIZE);
    }
    assert Mapped(v', d) == Mapped(v, d);
    FreeNotData(v, role, kd);
  }

  lemma FreeNotData(v: Vm, role: seq<Role>, kd: nat)
    requires Inv(v, role, kd)
    ensures forall f :: f in v.free ==> f < |role| && role[f].Free?
  {
  }

  // Programs

  /** The pages of a segment. */
  function SegmentPages(s: Segment): set<nat> {
    if Loadable(s) then PageSpan(RegionLo(s.va), RegionHi(s.va, s.memsz)) else {}
  }

  /** The pages of the segments from k on. */
  function PagesFrom(elf: Elf, k: nat): set<nat>
    requires k <= |elf.segs|
    decreases |elf.segs| - k
  {
    if k == |elf.segs| then {} else SegmentPages(elf.segs[k]) + PagesFrom(elf, k + 1)
  }

  const STACK_PAGE: nat := 0xD_EBFD

  /** One segment; the bytes of the file need no frames. */
  lemma SegmentNeed(v: Vm, role: seq<Role>, kd: nat, d: nat, elf: Elf, k: nat) returns (again: bool)
    requires OwnSpace(v, role, kd, d) && NoSpareTable(v, d) && WellFormed(elf) && k < |elf.segs|
    requires Loadable(elf.segs[k])
    ensures Wf(v) && d < |v.page| && elf.segs[k].offset + elf.segs[k].filesz <= |elf.file|
    ensures var m, r := Mapped(v, d), LoadSegment(v, d, elf, elf.segs[k]);
            var n := m + SegmentPages(elf.segs[k]);
            && (r.Ok? <==> |v.free| >= Needed(m, n, again))
            && (r.Ok? ==> Grew(v, d, r.value, n, Needed(m, n, again)))
  {
    hide Inv, OwnPages, AllocPages, FramesFor, Mapped, NoSpareTable, Grew, TailKept, Isolated, CopyOut, Walk, Read,
        RegionLo, RegionHi, Zeroed;
    var s := elf.segs[k];
    assert BelowUtop(s.va, s.memsz) && s.memsz > 0 && s.filesz <= s.memsz && s.offset + s.filesz <= |elf.file|;
    hide WellFormed, Complete, Loadable, BelowUtop;
    var lo, hi := RegionLo(s.va), RegionHi(s.va, s.memsz);
    SegmentSpan(s);
    var m := Mapped(v, d);
    again := hi - 1 in m;
    AllocPagesNeed(v, role, kd, d, lo, hi);
    SegmentForm(v, d, elf, s);
    var r, role1 := RegionAllocSteps(v, role, kd, d, s.va, s.memsz);
    if r.Ok? {
      SegmentBytes(v, d, r.value, elf, s);
      var v2 := CopyOutKeeps(r.value, role1, kd, d, s.va, FileBytes(elf, s), 0);
      GrewKept(v, d, r.value, role1, kd, v2, m + SegmentPages(s), Needed(m, m + SegmentPages(s), again));
    }
  }

  lemma SegmentSpan(s: Segment)
    requires Loadable(s) && BelowUtop(s.va, s.memsz)
    ensures SegmentPages(s) == PageSpan(RegionLo(s.va), RegionHi(s.va, s.memsz))
    ensures RegionLo(s.va) < RegionHi(s.va, s.memsz) <= USER_PAGES
  {
    RegionPages(s.va, s.memsz, s.va);
  }

  lemma SegmentForm(v: Vm, d: nat, elf: Elf, s: Segment)
    requires Wf(v) && d < |v.page| && Loadable(s) && s.offset + s.filesz <= |elf.file|
    requires RegionLo(s.va) < RegionHi(s.va, s.memsz)
    ensures RegionAlloc(v, d, s.va, s.memsz) == AllocPages(v, d, RegionLo(s.va), RegionHi(s.va, s.memsz))
    ensures LoadSegment(v, d, elf, s) ==
              var r := RegionAlloc(v, d, s.va, s.memsz);
              if r.Ok? then CopyOut(r.value, d, s.va, FileBytes(elf, s), 0) else r
  {
    hide AllocPages, CopyOut, RoundDown, RoundUp, Add32;
  }

  lemma SegmentBytes(v: Vm, d: nat, v1: Vm, elf: Elf, s: Segment)
    requires s.offset + s.filesz <= |elf.file| && s.filesz <= s.memsz && BelowUtop(s.va, s.memsz) && s.memsz > 0
    requires Zeroed(v, d, v1, RegionLo(s.va), RegionHi(s.va, s.memsz))
    ensures s.va + |FileBytes(elf, s)| <= UTOP && d < |v1.page|
    ensures forall c: Word :: s.va + 0 <= c < s.va + |FileBytes(elf, s)| ==> Walk(v1, d, c).Some?
  {
    hide RegionLo, RegionHi, Walk, Read;
    forall c: Word | s.va <= c < s.va + |FileBytes(elf, s)|
      ensures Walk(v1, d, c).Some?
    {
      RegionPages(s.va, s.memsz, c);
    }
  }

  lemma GrewKept(v: Vm, d: nat, v1: Vm, role1: seq<Role>, kd: nat, v2: Vm, n: set<nat>, need: int)
    requires d < |v.page| && Grew(v, d, v1, n, need) && OwnSpace(v1, role1, kd, d)
    requires v2.free == v1.free && |v2.page| == |v1.page| == |role1|
    requires forall g :: 0 <= g < |role1| && !role1[g].Data? ==> v2.page[g] == v1.page[g]
    requires forall c: Word :: c < UTOP ==> Walk(v2, d, c) == Walk(v1, d, c)
    ensures Grew(v, d, v2, n, need)
  {
    hide OwnSpace, TailKept, Mapped, NoSpareTable, FramesFor, Walk, Grew;
    GrewParts(v, d, v1, n, need);
    CopyOutGrew(v1, role1, kd, d, v2, |v.free| - need);
    TailTrans(v, v1, v2, |v.free| - need, |v.free| - need);
    GrewIs(v, d, v2, n, need);
  }

  lemma GrewParts(v: Vm, d: nat, v1: Vm, n: set<nat>, need: int)
    requires d < |v.page| && Grew(v, d, v1, n, need)
    ensures d < |v1.page| && NoSpareTable(v1, d) && Mapped(v1, d) == n
    ensures |v1.free| == |v.free| - (FramesFor(n) - FramesFor(Mapped(v, d)))
    ensures 0 <= need <= |v.free| && TailKept(v, v1, |v.free| - need) && |v.free| - need <= |v1.free|
  {
  }

  lemma GrewIs(v: Vm, d: nat, v1: Vm, n: set<nat>, need: int)
    requires d < |v.page| && d < |v1.page| && NoSpareTable(v1, d) && Mapped(v1, d) == n
    requires |v1.free| == |v.free| - (FramesFor(n) - FramesFor(Mapped(v, d)))
    requires 0 <= need <= |v.free| && TailKept(v, v1, |v.free| - need)
    ensures Grew(v, d, v1, n, need)
  {
  }

  /** The segments from k on, and the stack. */
  function Rest(v: Vm, d: nat, elf: Elf, k: nat): (r: Res<Vm>)
    requires Wf(v) && d < |v.page| && k <= |elf.segs| && Complete(elf)
    ensures r.Ok? ==> SameShape(v, r.value)
  {
    var r := LoadSegments(v, d, elf, k);
    if r.Ok? then RegionAlloc(r.value, d, USTACKTOP - PGSIZE, PGSIZE) else r
  }

  lemma UnfoldRest(v: Vm, d: nat, elf: Elf, k: nat)
    requires Wf(v) && d < |v.page| && k <= |elf.segs| && Complete(elf)
    ensures k == |elf.segs| ==> Rest(v, d, elf, k) == AllocPages(v, d, STACK_PAGE, STACK_PAGE + 1)
    ensures k < |elf.segs| ==>
              && (Loadable(elf.segs[k]) ==> elf.segs[k].offset + elf.segs[k].filesz <= |elf.file|)
              && var r := LoadSegment(v, d, elf, elf.segs[k]);
                 Rest(v, d, elf, k) == if r.Ok? then Rest(r.value, d, elf, k + 1) else r
  {
    UnfoldLoadSegments(v, d, elf, k);
    StackRegion();
    PgnumOrder();
    hide LoadSegment, LoadSegments, AllocPages, RoundDown, RoundUp, Add32, Loadable;
  }

  lemma PgnumOrder()
    ensures RoundDown(USTACKTOP - PGSIZE, PGSIZE) < RoundUp(Add32(USTACKTOP - PGSIZE, PGSIZE), PGSIZE)
  {
    StackRegion();
    hide RoundDown, RoundUp, Add32;
  }

  /** The pages that are mapped once the segments from k on and the stack are. */
  function PagesThen(m: set<nat>, elf: Elf, k: nat): set<nat>
    requires k <= |elf.segs|
  {
    m + PagesFrom(elf, k) + {STACK_PAGE}
  }

  /** The stack's page is mapped before the stack is. */
  predicate StackTwice(m: set<nat>, elf: Elf, k: nat)
    requires k <= |elf.segs|
  {
    STACK_PAGE in m + PagesFrom(elf, k)
  }

  lemma {:induction false} RestNeed(v: Vm, role: seq<Role>, kd: nat, d: nat, elf: Elf, k: nat)
    requires OwnSpace(v, role, kd, d) && NoSpareTable(v, d) && WellFormed(elf) && k <= |elf.segs|
    ensures Wf(v) && d < |v.page| && Complete(elf)
    ensures var m, r := Mapped(v, d), Rest(v, d, elf, k);
            var n, again := PagesThen(m, elf, k), StackTwice(m, elf, k);
            && (r.Ok? <==> |v.free| >= Needed(m, n, again))
            && (r.Ok? ==> Grew(v, d, r.value, n, Needed(m, n, again)))
    decreases |elf.segs| - k
  {
    hide OwnSpace, WellFormed, Complete, AllocPages, FramesFor, Mapped, NoSpareTable, Grew, LoadSegment, Rest, Isolated,
        Loadable, SegmentPages, Read, Covers, SegmentByte;
    OwnSpaceShape(v, role, kd, d);
    CompleteWell(v, role, kd, d, elf);
    UnfoldRest(v, d, elf, k);
    var m, r := Mapped(v, d), Rest(v, d, elf, k);
    if k == |elf.segs| {
      AllocPagesNeed(v, role, kd, d, STACK_PAGE, STACK_PAGE + 1);
      assert PagesThen(m, elf, k) == m + PageSpan(STACK_PAGE, STACK_PAGE + 1);
    } else {
      var m1 := m + SegmentPages(elf.segs[k]);
      SegmentThen(m, elf, k);
      if !Loadable(elf.segs[k]) {
        NotLoaded(v, d, elf, k);
        assert m1 == m;
        RestNeed(v, role, kd, d, elf, k + 1);
      } else {
        var again1 := SegmentNeed(v, role, kd, d, elf, k);
        FirstPart(m, m1, PagesThen(m, elf, k), again1, StackTwice(m, elf, k));
        var q, role1 := LoadSegmentSteps(v, role, kd, d, elf, k);
        if q.Ok? {
          GrewParts(v, d, q.value, m1, Needed(m, m1, again1));
          RestNeed(q.value, role1, kd, d, elf, k + 1);
          if r.Ok? {
            GrewTrans(v, d, q.value, r.value, m, m1, PagesThen(m, elf, k), again1, StackTwice(m, elf, k));
          }
        }
      }
    }
  }

  lemma NotLoaded(v: Vm, d: nat, elf: Elf, k: nat)
    requires Wf(v) && d < |v.page| && k < |elf.segs| && !Loadable(elf.segs[k])
    ensures LoadSegment(v, d, elf, elf.segs[k]) == Ok(v) && SegmentPages(elf.segs[k]) == {}
  {
  }

  lemma SegmentThen(m: set<nat>, elf: Elf, k: nat)
    requires k < |elf.segs|
    ensures var m1 := m + SegmentPages(elf.segs[k]);
            && m <= m1 <= PagesThen(m, elf, k) && PagesThen(m1, elf, k + 1) == PagesThen(m, elf, k)
            && StackTwice(m1, elf, k + 1) == StackTwice(m, elf, k)
            && (StackTwice(m, elf, k) || m1 < PagesThen(m, elf, k))
  {
    hide SegmentPages;
  }

  // create

  /** The pages that a program's address space maps. */
  function ImagePages(elf: Elf): set<nat> {
    PagesFrom(elf, 0) + {STACK_PAGE}
  }

  /** The frames that create needs: two directories, the pages, their tables, and one more if a segment
      uses the stack's page. */
  function CreateFrames(elf: Elf): (n: nat)
    ensures n >= 2
  {
    2 + FramesFor(ImagePages(elf)) + if STACK_PAGE in PagesFrom(elf, 0) then 1 else 0
  }

  lemma SetupTakes(v: Vm, kd: nat)
    requires Wf(v) && kd < |v.page| && v.free != [] && kd !in v.free
    ensures var m := SetupMemory(v, kd);
            && m.1 == Some(v.free[0]) && m.0.free == v.free[1..] && m.0.page[kd] == v.page[kd]
            && TailKept(v, m.0, |v.free| - 1)
            && (forall x: nat :: x < UTOPX ==> m.0.page[v.free[0]][x] == v.page[kd][x])
  {
    assert v.free[0] in v.free;
  }

  lemma KernelEmpty(v: Vm, role: seq<Role>, kd: nat)
    requires Inv(v, role, kd) && v.free != []
    ensures Wf(v) && kd < |v.page| && kd !in v.free && forall x: nat :: x < UTOPX ==> !Present(v.page[kd][x])
    ensures kd !in v.free[1..]
  {
  }

  /** The two directories of create. */
  lemma SpacesTake(v: Vm, role: seq<Role>, kd: nat) returns (v1: Vm, v2: Vm)
    requires Inv(v, role, kd) && |v.free| >= 2
    ensures SetupMemory(v, kd) == (v1, Some(v.free[0])) && SetupMemory(v1, kd) == (v2, Some(v.free[1]))
    ensures v2.free == v.free[2..] && TailKept(v, v2, |v.free| - 2) && v.free[1] < |v2.page|
    ensures forall x: nat :: x < UTOPX ==> !Present(v2.page[v.free[1]][x])
  {
    hide Inv, SetupMemory, TailKept, Wf;
    KernelEmpty(v, role, kd);
    SetupTakes(v, kd);
    v1 := SetupMemory(v, kd).0;
    SetupTakes(v1, kd);
    v2 := SetupMemory(v1, kd).0;
    ShorterTail(v, v1, |v.free| - 1, |v.free| - 2);
    TailTrans(v, v1, v2, |v.free| - 2, |v.free| - 2);
    assert v.free[1..][1..] == v.free[2..];
  }

  lemma NothingMapped(v: Vm, d: nat)
    requires d < |v.page| && forall x: nat :: x < UTOPX ==> !Present(v.page[d][x])
    ensures Mapped(v, d) == {} && NoSpareTable(v, d)
  {
    assert Mapped(v, d) == {};
  }

  lemma ElfIsRest(v: Vm, d: nat, elf: Elf)
    requires Wf(v) && d < |v.page| && Complete(elf)
    ensures LoadElf(v, d, elf) == if elf.magic != ELF_MAGIC then Panic else Rest(v, d, elf, 0)
  {
    hide LoadSegments, RegionAlloc;
  }

  /**
   A program is loaded exactly if its magic number is right and CreateFrames frames are free. They are
   taken from the front of the list; the others stay there, unwritten. All of them are gone afterwards,
   but for the one page that the stack replaces, if it replaces one.
   */
  lemma BuildNeed(v: Vm, role: seq<Role>, kd: nat, elf: Elf) returns (v1: Vm, v2: Vm)
    requires Inv(v, role, kd) && |v.free| >= 2 && WellFormed(elf)
    ensures SetupMemory(v, kd) == (v1, Some(v.free[0])) && SetupMemory(v1, kd) == (v2, Some(v.free[1]))
    ensures Wf(v2) && v.free[1] < |v2.page| && Complete(elf)
    ensures var r := LoadElf(v2, v.free[1], elf);
            && (r.Ok? <==> elf.magic == ELF_MAGIC && |v.free| >= CreateFrames(elf))
            && (r.Ok? ==>
                  && |r.value.free| == |v.free| - 2 - FramesFor(ImagePages(elf))
                  && TailKept(v, r.value, |v.free| - CreateFrames(elf)))
  {
    hide Inv, SetupMemory, TailKept, LoadElf, OwnSpace, Rest, FramesFor, Mapped, NoSpareTable, SameWalks, WellFormed,
        Complete, PagesFrom;
    v1, v2 := SpacesTake(v, role, kd);
    var w1, f1, m, role2 := CreateSpaces(v, role, kd, 0);
    NothingMapped(v2, v.free[1]);
    RestNeed(v2, role2, kd, v.free[1], elf, 0);
    ElfIsRest(v2, v.free[1], elf);
    NoPages();
    assert PagesThen({}, elf, 0) == ImagePages(elf) && {} + PagesFrom(elf, 0) == PagesFrom(elf, 0);
    var r := LoadElf(v2, v.free[1], elf);
    if r.Ok? {
      GrewParts(v2, v.free[1], r.value, ImagePages(elf), CreateFrames(elf) - 2);
      ShorterTail(v, v2, |v.free| - 2, |v.free| - CreateFrames(elf));
      TailTrans(v, v2, r.value, |v.free| - CreateFrames(elf), |v.free| - CreateFrames(elf));
    }
  }

  lemma NoPages()
    ensures FramesFor({}) == 0
  {
    assert TablesOf({}) == {};
  }

  // The pages in the terms of the file

  /** A program's pages are those that the range of a segment of type 1, PT_LOAD, touches, and the stack's. */
  lemma ImagePagesIff(elf: Elf, p: nat)
    requires WellFormed(elf) && p < 0x10_0000
    ensures p in ImagePages(elf) <==>
              || p == 0xD_EBFD
              || exists j :: 0 <= j < |elf.segs| && elf.segs[j].kind == 1 && TouchesPage(elf.segs[j], p * 0x1000)
  {
    hide TouchesPage;
    PagesFromIff(elf, 0, p);
  }

  lemma {:induction false} PagesFromIff(elf: Elf, k: nat, p: nat)
    requires WellFormed(elf) && k <= |elf.segs| && p < 0x10_0000
    ensures p in PagesFrom(elf, k) <==>
              exists j :: k <= j < |elf.segs| && elf.segs[j].kind == 1 && TouchesPage(elf.segs[j], p * 0x1000)
    decreases |elf.segs| - k
  {
    hide TouchesPage, SegmentPages, WellFormed;
    if k < |elf.segs| {
      PagesFromIff(elf, k + 1, p);
      SegmentPagesIff(elf, k, p);
    }
  }

  lemma SegmentPagesIff(elf: Elf, k: nat, p: nat)
    requires WellFormed(elf) && k < |elf.segs| && p < 0x10_0000
    ensures p in SegmentPages(elf.segs[k]) <==> elf.segs[k].kind == 1 && TouchesPage(elf.segs[k], p * 0x1000)
  {
    CoversIff(elf, k, p * 0x1000);
    PgnumOfPage(p, 0);
    hide TouchesPage, RegionLo, RegionHi;
  }
}
