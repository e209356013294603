/** The static maps that vmem::init (kernel/vmem.cc, kernel/task.cc) builds before it turns its
    page directory on. */
module BootMaps {
  import opened Wrappers
  import opened Mmu
  import opened PageTables
  import opened Ownership
  import opened StaticMaps

  /** The size of the window [KERNBASE, 2^32) as the code passes it: ~KERNBASE. */
  const KERNEL_WINDOW: Word := 0xFFFF_FFFF - KERNBASE

  /** Physical places that boot fixes: the Task array and its size, the PageInfo array, the stack. */
  datatype Image = Image(tasks: Word, taskSize: Word, info: Word, stack: Word)

  /** Page-aligned, at most one page table's worth of tasks, nothing wrapping around. */
  predicate GoodImage(b: Image) {
    && b.tasks % PGSIZE == 0 && b.info % PGSIZE == 0 && b.stack % PGSIZE == 0
    && 0 < b.taskSize <= PTSIZE && b.taskSize % PGSIZE == 0
    && b.tasks + PTSIZE <= WORD_LIMIT && b.info + PTSIZE <= WORD_LIMIT && b.stack + PTSIZE <= WORD_LIMIT
  }

  /** task::allocArray and then pgdir::init, up to the load of CR3. */
  function BootMaps(v: Vm, kd: nat, b: Image): (r: Res<Vm>)
    requires Wf(v) && kd < |v.page| && GoodImage(b)
    ensures r.Ok? ==> SameShape(v, r.value)
  {
    var r1 := StaticMap(v, kd, UENVS, b.taskSize, b.tasks, PTE_U, 0);
    if !r1.Ok? then r1 else
    var r2 := StaticMap(r1.value, kd, UPAGES, PTSIZE, b.info, PTE_U, 0);
    if !r2.Ok? then r2 else
    LastMaps(r2.value, kd, b)
  }

  /** The kernel stack, and the window over physical memory. */
  function LastMaps(v: Vm, kd: nat, b: Image): (r: Res<Vm>)
    requires Wf(v) && kd < |v.page| && GoodImage(b)
    ensures r.Ok? ==> SameShape(v, r.value)
  {
    var r1 := StaticMap(v, kd, KSTACKTOP - KSTKSIZE, KSTKSIZE, b.stack, PTE_W, 0);
    if !r1.Ok? then r1 else StaticMap(r1.value, kd, KERNBASE, KERNEL_WINDOW, 0, PTE_W, 0)
  }

  /** Directory entry x is present after the first k maps. */
  predicate BootEntry(k: nat, x: nat) {
    || x == UVPTX
    || (k >= 1 && x == UTOPX)
    || (k >= 2 && x == UTOPX + 1)
    || (k >= 3 && x == 895)
    || (k >= 4 && x >= 896)
  }

  /** The state after k maps and m new tables. */
  ghost predicate Stage(v0: Vm, v: Vm, d: nat, k: nat, m: nat) {
    && DirTree(v, d) && Taken(v0, v, m) && |v.page| == |v0.page|
    && (forall x :: 0 <= x < 1024 ==> (Present(v.page[d][x]) <==> BootEntry(k, x)))
    && (forall x :: 0 <= x < 1024 && x != UVPTX && Present(v.page[d][x]) ==> Frame(v.page[d][x]) in v0.free[..m])
  }

  lemma TakenTwice(v0: Vm, v: Vm, v': Vm, m: nat, c: nat)
    requires Wf(v0) && Taken(v0, v, m) && Taken(v, v', c)
    ensures Taken(v0, v', m + c)
    ensures forall f :: f in v0.free[..m + c] <==> f in v0.free[..m] || f in v.free[..c]
  {
    assert v0.free[..m + c] == v0.free[..m] + v.free[..c];
    assert v0.free[m + c..] == v.free[c..];
    forall f | f in v.free[..c]
      ensures f !in v0.free[..m]
    {
      var i :| 0 <= i < c && v.free[i] == f;
      assert v0.free[m + i] == f;
    }
  }

  /** One more map into a range of c absent entries from x0 on. */
  lemma NextStage(v0: Vm, v: Vm, d: nat, k: nat, k1: nat, m: nat, va: Word, size: Word, pa: Word, perm: nat, x0: nat,
      c: nat) returns (r: Res<Vm>)
    requires Wf(v0) && Stage(v0, v, d, k, m) && perm < 0x1000 && va % PGSIZE == 0 && pa % PGSIZE == 0
    requires 0 < size <= 0xFFFF_F000 && va + size <= WORD_LIMIT && pa + size <= WORD_LIMIT && AvoidsSelfMap(va, size)
    requires c > 0 && x0 + c <= 1024 && Spans(Pgnum(va), Pgnum(va) + Pages(size), x0, c)
    requires forall x: nat :: x0 <= x < x0 + c ==> !BootEntry(k, x)
    requires forall x: nat :: x < 1024 ==> (BootEntry(k1, x) <==> BootEntry(k, x) || x0 <= x < x0 + c)
    ensures StaticMap(v, d, va, size, pa, perm, 0) == r && !r.Cyclic?
    ensures r.Ok? <==> |v.free| >= c
    ensures r.Ok? ==> Stage(v0, r.value, d, k1, m + c) && Pgnum(pa) + Pages(size) <= 0x10_0000
    ensures r.Ok? ==> Linear(v, d, r.value, Pgnum(va), Pgnum(pa), 0, Pages(size), perm)
  {
    hide Linear, StaticMap, Need, DirTree, Stage, BootEntry, Spans, Pages, Pgnum, TablesFrom, Wf, Present;
    StageFacts(v0, v, d, k, m, x0, c);
    r := StaticMapSteps(v, d, va, size, pa, perm);
    RangeFits(va, size);
    NeedRange(v, d, Pgnum(va), Pgnum(va) + Pages(size), x0, c);
    if r.Ok? {
      GrownStage(v0, v, r.value, d, k, k1, m, c, Pgnum(va), Pgnum(va) + Pages(size), x0);
    }
  }

  lemma StageFacts(v0: Vm, v: Vm, d: nat, k: nat, m: nat, x0: nat, c: nat)
    requires Stage(v0, v, d, k, m) && x0 + c <= 1024 && forall x: nat :: x0 <= x < x0 + c ==> !BootEntry(k, x)
    ensures Wf(v) && d < |v.page| && DirTree(v, d)
    ensures forall x: nat :: x0 <= x < x0 + c ==> !Present(v.page[d][x])
  {
    hide BootEntry, Present, Frame;
  }

  /** The pages from p up to q touch exactly the c directory entries from x0 on. */
  predicate Spans(p: nat, q: nat, x0: nat, c: nat) {
    p < q && p / 1024 == x0 && (q - 1) / 1024 == x0 + c - 1
  }

  lemma GrownStage(v0: Vm, v: Vm, v': Vm, d: nat, k: nat, k1: nat, m: nat, c: nat, p: nat, q: nat, x0: nat)
    requires Wf(v0) && Stage(v0, v, d, k, m) && DirTree(v', d) && TablesFrom(v, d, v', c, p, q) && Spans(p, q, x0, c)
    requires forall x: nat :: x < 1024 ==> (BootEntry(k1, x) <==> BootEntry(k, x) || x0 <= x < x0 + c)
    ensures Stage(v0, v', d, k1, m + c)
  {
    TouchedRange(p, q, x0, c);
    hide DirTree, BootEntry, Touched, Present, Frame, Spans;
    TakenTwice(v0, v, v', m, c);
    hide Taken;
  }

  lemma TouchedRange(p: nat, q: nat, x0: nat, c: nat)
    requires Spans(p, q, x0, c)
    ensures forall x: nat :: Touched(p, q, x) <==> x0 <= x < x0 + c
  {
  }

  lemma NeedRange(v: Vm, d: nat, p: nat, q: nat, x0: nat, c: nat)
    requires d < |v.page| && q <= 0x10_0000 && c > 0 && x0 + c <= 1024 && Spans(p, q, x0, c)
    requires forall x: nat :: x0 <= x < x0 + c ==> !Present(v.page[d][x])
    ensures Need(v, d, p, q) == c
  {
    AllAbsent(v, d, x0, x0 + c - 1);
  }

  lemma {:induction false} AllAbsent(v: Vm, d: nat, x0: nat, x1: nat)
    requires d < |v.page| && x0 <= x1 < 1024
    requires forall x: nat :: x0 <= x <= x1 ==> !Present(v.page[d][x])
    ensures |Absent(v, d, x0, x1)| == x1 - x0 + 1
    decreases x1
  {
    if x0 < x1 {
      AllAbsent(v, d, x0, x1 - 1);
      assert Absent(v, d, x0, x1) == Absent(v, d, x0, x1 - 1) + {x1};
    } else {
      assert Absent(v, d, x0, x1) == {x0};
    }
  }

  // What is mapped

  /** Pages p0 up to p0 + n of directory d map to the frames from f0 on, with the given flags. */
  ghost predicate MappedAt(v: Vm, d: nat, p0: nat, f0: nat, n: nat, perm: nat) {
    && d < |v.page| && perm < 0x1000 && f0 + n <= 0x10_0000
    && forall i: nat, j: nat :: i < 1024 && j < 1024 && i != UVPTX && p0 <= i * 1024 + j < p0 + n ==>
         Leaf(v, d, i, j) == Some(MakePte(f0 + (i * 1024 + j - p0), WithPresent(perm)))
  }

  /** The page (i, j) belongs to none of the first k windows. */
  predicate Outside(k: nat, t: nat, i: nat, j: nat) {
    var p := i * 1024 + j;
    && (k >= 1 ==> !(0xDEC00 <= p < 0xDEC00 + t))
    && (k >= 2 ==> !(0xDF000 <= p < 0xDF400))
    && (k >= 3 ==> !(0xDFFF8 <= p < 0xE0000))
    && (k >= 4 ==> !(0xE0000 <= p))
  }

  ghost predicate NothingElse(v: Vm, d: nat, k: nat, t: nat)
    requires d < |v.page|
  {
    forall i: nat, j: nat :: i < 1024 && j < 1024 && i != UVPTX && Outside(k, t, i, j) ==> Leaf(v, d, i, j).None?
  }

  lemma MapKeepsWindow(v: Vm, d: nat, v': Vm, p0: nat, f0: nat, n: nat, perm: nat, p1: nat, f1: nat, n1: nat,
      perm1: nat)
    requires Linear(v, d, v', p0, f0, 0, n, perm) && MappedAt(v, d, p1, f1, n1, perm1)
        && (p1 + n1 <= p0 || p0 + n <= p1)
    ensures MappedAt(v', d, p1, f1, n1, perm1)
  {
    hide Leaf, MakePte;
  }

  lemma MapMakesWindow(v: Vm, d: nat, v': Vm, p0: nat, f0: nat, n: nat, perm: nat)
    requires Linear(v, d, v', p0, f0, 0, n, perm)
    ensures MappedAt(v', d, p0, f0, n, perm)
  {
    hide Leaf, MakePte;
  }

  lemma MapElsewhere(v: Vm, d: nat, v': Vm, p0: nat, f0: nat, n: nat, perm: nat, k: nat, k1: nat, t: nat)
    requires Linear(v, d, v', p0, f0, 0, n, perm) && NothingElse(v, d, k, t)
    requires forall i: nat, j: nat :: i < 1024 && j < 1024 && Outside(k1, t, i, j) ==>
               Outside(k, t, i, j) && !(p0 <= i * 1024 + j < p0 + n)
    ensures NothingElse(v', d, k1, t)
  {
    hide Leaf, MakePte, Outside;
  }

  /** What the four maps amount to. */
  ghost predicate BootMapped(v: Vm, d: nat, b: Image) {
    && d < |v.page|
    && MappedAt(v, d, Pgnum(UENVS), Pgnum(b.tasks), Pages(b.taskSize), PTE_U)
    && MappedAt(v, d, Pgnum(UPAGES), Pgnum(b.info), 1024, PTE_U)
    && MappedAt(v, d, Pgnum(KSTACKTOP - KSTKSIZE), Pgnum(b.stack), 8, PTE_W)
    && MappedAt(v, d, Pgnum(KERNBASE), 0, 0x2_0000, PTE_W)
    && NothingElse(v, d, 4, Pages(b.taskSize))
  }

  lemma BootMap1(v: Vm, d: nat, b: Image) returns (r: Res<Vm>)
    requires Wf(v) && Stage(v, v, d, 0, 0) && GoodImage(b)
    ensures StaticMap(v, d, UENVS, b.taskSize, b.tasks, PTE_U, 0) == r && !r.Cyclic? && (r.Ok? <==> |v.free| >= 1)
    ensures r.Ok? ==> Stage(v, r.value, d, 1, 1) && Linear(v, d, r.value, Pgnum(UENVS), Pgnum(b.tasks), 0,
        Pages(b.taskSize), PTE_U)
  {
    hide Stage, StaticMap, Linear;
    r := NextStage(v, v, d, 0, 1, 0, UENVS, b.taskSize, b.tasks, PTE_U, UTOPX, 1);
  }

  lemma BootMap2(v0: Vm, v: Vm, d: nat, b: Image) returns (r: Res<Vm>)
    requires Wf(v0) && Stage(v0, v, d, 1, 1) && GoodImage(b)
    ensures StaticMap(v, d, UPAGES, PTSIZE, b.info, PTE_U, 0) == r && !r.Cyclic? && (r.Ok? <==> |v.free| >= 1)
    ensures r.Ok? ==> Stage(v0, r.value, d, 2, 2) && Linear(v, d, r.value, Pgnum(UPAGES), Pgnum(b.info), 0, 1024, PTE_U)
  {
    hide Stage, StaticMap, Linear;
    r := NextStage(v0, v, d, 1, 2, 1, UPAGES, PTSIZE, b.info, PTE_U, UTOPX + 1, 1);
  }

  lemma BootMap3(v0: Vm, v: Vm, d: nat, b: Image) returns (r: Res<Vm>)
    requires Wf(v0) && Stage(v0, v, d, 2, 2) && GoodImage(b)
    ensures StaticMap(v, d, KSTACKTOP - KSTKSIZE, KSTKSIZE, b.stack, PTE_W, 0) == r && !r.Cyclic?
        && (r.Ok? <==> |v.free| >= 1)
    ensures r.Ok? ==>
              Stage(v0, r.value, d, 3, 3)
              && Linear(v, d, r.value, Pgnum(KSTACKTOP - KSTKSIZE), Pgnum(b.stack), 0, 8, PTE_W)
  {
    hide Stage, StaticMap, Linear;
    r := NextStage(v0, v, d, 2, 3, 2, KSTACKTOP - KSTKSIZE, KSTKSIZE, b.stack, PTE_W, 895, 1);
  }

  /** The window over physical memory ends exactly at 2^32: no address in it wraps. */
  lemma BootMap4(v0: Vm, v: Vm, d: nat) returns (r: Res<Vm>)
    requires Wf(v0) && Stage(v0, v, d, 3, 3)
    ensures StaticMap(v, d, KERNBASE, KERNEL_WINDOW, 0, PTE_W, 0) == r && !r.Cyclic? && (r.Ok? <==> |v.free| >= 128)
    ensures r.Ok? ==> Stage(v0, r.value, d, 4, 131) && Linear(v, d, r.value, Pgnum(KERNBASE), 0, 0, 0x2_0000, PTE_W)
    ensures Pgnum(KERNBASE) + 0x2_0000 == 0x10_0000
  {
    hide Stage, StaticMap, Linear;
    r := NextStage(v0, v, d, 3, 4, 3, KERNBASE, KERNEL_WINDOW, 0, PTE_W, 896, 128);
  }

  /** What the last two maps add. */
  ghost predicate LastMapped(v: Vm, d: nat, b: Image, v': Vm)
    requires GoodImage(b)
  {
    exists u: Vm ::
      && Linear(v, d, u, Pgnum(KSTACKTOP - KSTKSIZE), Pgnum(b.stack), 0, 8, PTE_W)
      && Linear(u, d, v', Pgnum(KERNBASE), 0, 0, 0x2_0000, PTE_W)
  }

  lemma LastMapsSteps(v0: Vm, v: Vm, d: nat, b: Image) returns (r: Res<Vm>)
    requires Wf(v0) && Stage(v0, v, d, 2, 2) && GoodImage(b) && Wf(v) && d < |v.page|
    ensures LastMaps(v, d, b) == r && !r.Cyclic? && (r.Ok? <==> |v.free| >= 129)
    ensures r.Ok? ==> Stage(v0, r.value, d, 4, 131) && LastMapped(v, d, b, r.value)
  {
    hide DirTree, Stage, StaticMap, Linear, GoodImage, Pgnum, Wf, LastMapped;
    FreeAfter(v0, v, d, 2, 2);
    r := BootMap3(v0, v, d, b);
    if r.Ok? {
      var u := r.value;
      FreeAfter(v0, u, d, 3, 3);
      assert |u.free| == |v.free| - 1;
      r := BootMap4(v0, u, d);
      if r.Ok? {
        LastMappedBy(v, d, b, u, r.value);
      }
    }
  }

  lemma LastMappedBy(v: Vm, d: nat, b: Image, u: Vm, v': Vm)
    requires GoodImage(b) && Linear(v, d, u, Pgnum(KSTACKTOP - KSTKSIZE), Pgnum(b.stack), 0, 8, PTE_W)
    requires Linear(u, d, v', Pgnum(KERNBASE), 0, 0, 0x2_0000, PTE_W)
    ensures LastMapped(v, d, b, v')
  {
  }

  /**
   The maps of boot need 131 free frames for page tables and take exactly the first 131. Then each
   of the four windows maps what it should, and nothing else is mapped.
   */
  lemma BootMapsSteps(v: Vm, d: nat, b: Image) returns (r: Res<Vm>)
    requires DirTree(v, d) && GoodImage(b) && forall x :: 0 <= x < 1024 ==> (Present(v.page[d][x]) <==> x == UVPTX)
    ensures BootMaps(v, d, b) == r && !r.Cyclic?
    ensures r.Ok? <==> |v.free| >= 131
    ensures r.Ok? ==> Stage(v, r.value, d, 4, 131) && BootMapped(r.value, d, b)
  {
    assert Wf(v) && d < |v.page|;
    assert Stage(v, v, d, 0, 0) && NothingElse(v, d, 0, Pages(b.taskSize));
    hide DirTree, Stage, StaticMap, Linear, NothingElse, Pages, GoodImage, BootMapped, Pgnum, Wf, LastMaps, LastMapped;
    r := BootMap1(v, d, b);
    if r.Ok? {
      var v1 := r.value;
      FreeAfter(v, v1, d, 1, 1);
      r := BootMap2(v, v1, d, b);
      if r.Ok? {
        var v2 := r.value;
        FreeAfter(v, v2, d, 2, 2);
        r := LastMapsSteps(v, v2, d, b);
        if r.Ok? {
          BootWindows(v, v1, v2, r.value, d, b);
        }
      }
    }
  }

  lemma FreeAfter(v0: Vm, v: Vm, d: nat, k: nat, m: nat)
    requires Stage(v0, v, d, k, m)
    ensures |v.free| == |v0.free| - m && Wf(v) && |v.page| == |v0.page|
  {
  }

  lemma BootWindows(v: Vm, v1: Vm, v2: Vm, v4: Vm, d: nat, b: Image)
    requires GoodImage(b) && d < |v.page| && NothingElse(v, d, 0, Pages(b.taskSize))
    requires Linear(v, d, v1, Pgnum(UENVS), Pgnum(b.tasks), 0, Pages(b.taskSize), PTE_U)
    requires Linear(v1, d, v2, Pgnum(UPAGES), Pgnum(b.info), 0, 1024, PTE_U)
    requires LastMapped(v2, d, b, v4)
    ensures BootMapped(v4, d, b)
  {
    var t, f1, f2, f3 := Pages(b.taskSize), Pgnum(b.tasks), Pgnum(b.info), Pgnum(b.stack);
    assert t <= 1024;
    assert Pgnum(UENVS) == 0xDEC00 && Pgnum(UPAGES) == 0xDF000 && Pgnum(KSTACKTOP - KSTKSIZE) == 0xDFFF8
        && Pgnum(KERNBASE) == 0xE0000;
    var v3: Vm :| Linear(v2, d, v3, 0xDFFF8, f3, 0, 8, PTE_W) && Linear(v3, d, v4, 0xE0000, 0, 0, 0x2_0000, PTE_W);
    hide Linear, NothingElse, MappedAt, Pages, GoodImage, Pgnum;
    MapMakesWindow(v, d, v1, 0xDEC00, f1, t, PTE_U);
    MapKeepsWindow(v1, d, v2, 0xDF000, f2, 1024, PTE_U, 0xDEC00, f1, t, PTE_U);
    MapKeepsWindow(v2, d, v3, 0xDFFF8, f3, 8, PTE_W, 0xDEC00, f1, t, PTE_U);
    MapKeepsWindow(v3, d, v4, 0xE0000, 0, 0x2_0000, PTE_W, 0xDEC00, f1, t, PTE_U);
    MapMakesWindow(v1, d, v2, 0xDF000, f2, 1024, PTE_U);
    MapKeepsWindow(v2, d, v3, 0xDFFF8, f3, 8, PTE_W, 0xDF000, f2, 1024, PTE_U);
    MapKeepsWindow(v3, d, v4, 0xE0000, 0, 0x2_0000, PTE_W, 0xDF000, f2, 1024, PTE_U);
    MapMakesWindow(v2, d, v3, 0xDFFF8, f3, 8, PTE_W);
    MapKeepsWindow(v3, d, v4, 0xE0000, 0, 0x2_0000, PTE_W, 0xDFFF8, f3, 8, PTE_W);
    MapMakesWindow(v3, d, v4, 0xE0000, 0, 0x2_0000, PTE_W);
    NothingMore(v, v1, v2, v3, v4, d, t, f1, f2, f3);
  }

  lemma NothingMore(v: Vm, v1: Vm, v2: Vm, v3: Vm, v4: Vm, d: nat, t: nat, f1: nat, f2: nat, f3: nat)
    requires d < |v.page| && NothingElse(v, d, 0, t)
    requires Linear(v, d, v1, 0xDEC00, f1, 0, t, PTE_U) && Linear(v1, d, v2, 0xDF000, f2, 0, 1024, PTE_U)
    requires Linear(v2, d, v3, 0xDFFF8, f3, 0, 8, PTE_W) && Linear(v3, d, v4, 0xE0000, 0, 0, 0x2_0000, PTE_W)
    ensures d < |v4.page| && NothingElse(v4, d, 4, t)
  {
    assert d < |v1.page| && d < |v2.page| && d < |v3.page| && d < |v4.page|;
    hide Linear, NothingElse;
    MapElsewhere(v, d, v1, 0xDEC00, f1, t, PTE_U, 0, 1, t);
    MapElsewhere(v1, d, v2, 0xDF000, f2, 1024, PTE_U, 1, 2, t);
    MapElsewhere(v2, d, v3, 0xDFFF8, f3, 8, PTE_W, 2, 3, t);
    MapElsewhere(v3, d, v4, 0xE0000, 0, 0x2_0000, PTE_W, 3, 4, t);
  }

  // After page::init

  /** Frames hi - 1 down to lo. */
  function Down(hi: nat, lo: nat): (s: seq<nat>)
    requires lo <= hi
    ensures |s| == hi - lo && forall i :: 0 <= i < |s| ==> s[i] == hi - 1 - i
  {
    seq(hi - lo, i requires 0 <= i < hi - lo => hi - 1 - i)
  }

  /** A range of unused frames of which none is listed yet. */
  ghost predicate Unlisted(counts: seq<nat>, listed: seq<nat>, lo: nat, hi: nat) {
    lo <= hi <= |counts| && forall f :: lo <= f < hi ==> counts[f] == 0 && f !in listed
  }

  lemma UnlistedRanges(nextFree: nat, nPages: nat)
    requires nextFree <= 1024 <= nPages
    ensures Unlisted(BootCounts(nextFree, nPages), [], 1024, nPages)
    ensures Unlisted(BootCounts(nextFree, nPages), Down(nPages, 1024) + [], nextFree, 1024)
  {
  }

  lemma DownMore(hi: nat, lo: nat)
    requires lo <= hi
    ensures [hi] + Down(hi, lo) == Down(hi + 1, lo) && hi !in Down(hi, lo)
  {
  }

  /** The free list that page::init builds: the frames below 4 MiB come first. */
  function BootFree(nextFree: nat, nPages: nat): (s: seq<nat>)
    requires nextFree <= 1024 <= nPages
    ensures |s| == nPages - nextFree
  {
    Down(1024, nextFree) + Down(nPages, 1024)
  }

  /** The counts that page::init sets: one for each frame that is in use. */
  function BootCounts(nextFree: nat, nPages: nat): (s: seq<nat>)
    ensures |s| == nPages && forall f :: 0 <= f < nPages ==> s[f] == if f < nextFree then 1 else 0
  {
    seq(nPages, f => if f < nextFree then 1 else 0)
  }

  lemma BootFreeHead(nextFree: nat, nPages: nat)
    requires nextFree <= 1024 <= nPages
    ensures var s := BootFree(nextFree, nPages);
            s == Down(1024, nextFree) + (Down(nPages, 1024) + []) && (nextFree < 1024 <==> s != [] && s[0] < 1024)
  {
  }

  /** Exactly the frames from nextFree on, each once, those below 4 MiB before all others. */
  lemma BootFreeExact(nextFree: nat, nPages: nat)
    requires nextFree <= 1024 <= nPages
    ensures var s := BootFree(nextFree, nPages);
            && (forall f: nat :: f in s <==> nextFree <= f < nPages)
            && (forall i, j :: 0 <= i < j < |s| ==> s[i] != s[j])
            && (forall i :: 0 <= i < |s| ==> (s[i] < 1024 <==> i < 1024 - nextFree))
  {
    var s := BootFree(nextFree, nPages);
    forall f: nat | nextFree <= f < nPages
      ensures f in s
    {
      assert s[if f < 1024 then 1023 - f else (1024 - nextFree) + (nPages - 1 - f)] == f;
    }
  }

  /** What page::init leaves, with the kernel's fresh directory among the boot frames. */
  ghost predicate AfterPageInit(v: Vm, kd: nat, nextFree: nat) {
    && nextFree <= 1024 <= |v.page| <= 0x2_0000 && |v.rc| == |v.page| && kd < nextFree
    && v.free == BootFree(nextFree, |v.page|)
    && v.rc == BootCounts(nextFree, |v.page|)
    && (forall x :: 0 <= x < 1024 ==> v.page[kd][x] == if x == UVPTX then SelfMap(kd) else 0)
  }

  /** The frames that boot took: those of the kernel image, and the page tables of the maps. */
  ghost function BootRoles(v: Vm, nextFree: nat): (role: seq<Role>)
    requires |v.free| >= 131
    ensures |role| == |v.page|
  {
    seq(|v.page|, f requires 0 <= f < |v.page| => if f < nextFree || f in v.free[..131] then Kernel else Free)
  }

  /**
   Boot establishes ownership: the maps succeed exactly when 131 frames are free, and then every
   frame is the kernel's or free, with the right count. All page tables lie below 4 MiB, where the
   entry directory can reach them, if and only if 131 of the free frames do.
   */
  lemma BootEstablishesOwnership(v: Vm, kd: nat, nextFree: nat, b: Image) returns (r: Res<Vm>)
    requires AfterPageInit(v, kd, nextFree) && GoodImage(b)
    ensures Wf(v) && BootMaps(v, kd, b) == r && !r.Cyclic? && (r.Ok? <==> |v.free| >= 131)
    ensures r.Ok? ==> Inv(r.value, BootRoles(v, nextFree), kd) && BootMapped(r.value, kd, b)
    ensures r.Ok? ==> ((forall f :: f in v.free[..131] ==> f < 1024) <==> 1024 - nextFree >= 131)
  {
    hide BootMaps, BootFree, AfterPageInit, DirTree, Stage, BootMapped, Inv, BootRoles, GoodImage, Wf, Present;
    FreshMemory(v, kd, nextFree);
    r := BootMapsSteps(v, kd, b);
    if r.Ok? {
      BootInv(v, kd, nextFree, r.value);
      LowTables(v, kd, nextFree);
    }
  }

  lemma FreshMemory(v: Vm, kd: nat, nextFree: nat)
    requires AfterPageInit(v, kd, nextFree)
    ensures Wf(v) && DirTree(v, kd)
    ensures forall x :: 0 <= x < 1024 ==> (Present(v.page[kd][x]) <==> x == UVPTX)
    ensures forall f: nat :: f in v.free <==> nextFree <= f < |v.page|
  {
    BootFreeExact(nextFree, |v.page|);
    hide BootFree;
  }

  lemma LowTables(v: Vm, kd: nat, nextFree: nat)
    requires AfterPageInit(v, kd, nextFree) && |v.free| >= 131
    ensures (forall f :: f in v.free[..131] ==> f < 1024) <==> 1024 - nextFree >= 131
  {
    BootFreeExact(nextFree, |v.page|);
    hide BootFree;
    if 1024 - nextFree < 131 {
      assert v.free[130] in v.free[..131];
    }
  }

  lemma BootInv(v: Vm, kd: nat, nextFree: nat, v': Vm)
    requires AfterPageInit(v, kd, nextFree) && Wf(v) && |v.free| >= 131 && Stage(v, v', kd, 4, 131)
    requires forall f: nat :: f in v.free <==> nextFree <= f < |v.page|
    ensures Inv(v', BootRoles(v, nextFree), kd)
  {
    FreeSplit(v.free, 131);
    hide BootFree, Stage;
    BootHalves(v, kd, nextFree, v');
    BootFrees(v, kd, nextFree, v');
    assert Wf(v') && |v'.page| == |v.page| by {
      FreeAfter(v, v', kd, 4, 131);
    }
    hide KernelHalf, FreeAgrees, AfterPageInit, Wf, Present;
  }

  lemma FreeSplit(s: seq<nat>, m: nat)
    requires m <= |s| && forall i, j :: 0 <= i < j < |s| ==> s[i] != s[j]
    ensures forall f :: f in s[m..] <==> f in s && f !in s[..m]
  {
    assert s == s[..m] + s[m..];
    forall f | f in s[m..]
      ensures f !in s[..m]
    {
      var i :| 0 <= i < |s[m..]| && s[m..][i] == f;
      assert s[m + i] == f;
    }
  }

  lemma BootHalves(v: Vm, kd: nat, nextFree: nat, v': Vm)
    requires AfterPageInit(v, kd, nextFree) && |v.free| >= 131 && Stage(v, v', kd, 4, 131)
    requires forall f: nat :: f in v.free ==> f < |v.page|
    ensures KernelHalf(v', BootRoles(v, nextFree), kd)
  {
    assert forall f :: f in v.free[..131] ==> f in v.free;
  }

  lemma BootFrees(v: Vm, kd: nat, nextFree: nat, v': Vm)
    requires AfterPageInit(v, kd, nextFree) && |v.free| >= 131 && Stage(v, v', kd, 4, 131)
    requires forall f: nat :: f in v.free <==> nextFree <= f < |v.page|
    requires forall f :: f in v.free[131..] <==> f in v.free && f !in v.free[..131]
    ensures |v'.rc| == |v'.page| == |v.page| && FreeAgrees(v', BootRoles(v, nextFree))
        && CountsAgree(v', BootRoles(v, nextFree))
  {
    hide BootFree, Mappings, DirTree, BootEntry;
    assert Taken(v, v', 131);
  }

  /** bootAlloc: where the next boot allocation starts, and the place it returns. */
  function BootAlloc(next: Word, size: Word): (Word, Word) {
    if size == 0 then (next, next) else (RoundUp(Add32(next, size), PGSIZE), next)
  }

  /** A size of zero asks for the place only; otherwise the next place is the first page boundary behind. */
  lemma BootAllocSteps(next: Word, size: Word)
    requires next % 0x1000 == 0 && next + size <= 0xFFFF_F000
    ensures var r := BootAlloc(next, size);
            r.1 == next && r.0 % 0x1000 == 0 && next + size <= r.0 < next + size + 0x1000
  {
    hide RoundUp, Add32;
    NextBoundary(next + size);
    SmallSum(next, size);
  }

  lemma NextBoundary(a: Word)
    requires a <= 0xFFFF_F000
    ensures RoundUp(a, PGSIZE) % 0x1000 == 0 && a <= RoundUp(a, PGSIZE) < a + 0x1000
  {
    RoundPages(a);
    hide RoundUp;
    var q, r := a / 0x1000, a % 0x1000;
    assert a == q * 0x1000 + r && Pgnum(a) == q && Pgoff(a) == r;
  }

  /**
   The Task array is boot-allocated after page::init has fixed the free range, so its frames are on
   the free list; frame f stays there after the maps of boot unless it is one of the 131 highest
   below 4 MiB.
   */
  lemma TaskArrayIsFree(v: Vm, kd: nat, nextFree: nat, next: Word, size: Word, a: Word)
    requires AfterPageInit(v, kd, nextFree) && next == KERNBASE + nextFree * PGSIZE && size > 0
    requires BootAlloc(next, size).1 <= a < BootAlloc(next, size).1 + size && Pgnum(a - KERNBASE) < 1024
    ensures Pgnum(a - KERNBASE) in v.free
    ensures 1024 - nextFree >= 131 ==> (Pgnum(a - KERNBASE) in v.free[131..] <==> Pgnum(a - KERNBASE) < 893)
  {
    var f := Pgnum(a - KERNBASE);
    assert nextFree <= f;
    assert v.free[1023 - f] == f;
    BootFreeExact(nextFree, |v.page|);
    hide BootFree;
    if 1024 - nextFree >= 131 {
      if f < 893 {
        assert v.free[131..][1023 - f - 131] == f;
      }
    }
  }

  /** The maps of boot take exactly the first 131 free frames. */
  lemma BootTakes(v: Vm, kd: nat, nextFree: nat, b: Image)
    requires AfterPageInit(v, kd, nextFree) && GoodImage(b) && Wf(v) && BootMaps(v, kd, b).Ok?
    ensures |v.free| >= 131 && BootMaps(v, kd, b).value.free == v.free[131..]
  {
    hide BootMaps, BootFree, BootMapped;
    FreshMemory(v, kd, nextFree);
    var r := BootMapsSteps(v, kd, b);
  }
}
