/** pgdir::staticMap (kernel/vmem.cc): a linear map of a range of pages in one directory. */
module StaticMaps {
  import opened Wrappers
  import opened Mmu
  import opened PageTables
  import opened Ownership

  /** The page table for va and the store of one entry; a missing table is a store through null. */
  function MapPage(v: Vm, d: nat, va: Word, w: Word): (r: Res<Vm>)
    requires Wf(v) && d < |v.page|
    ensures r.Ok? ==> SameShape(v, r.value)
  {
    var r := FindPte(v, d, va, true);
    if !r.Ok? then r.Failed()
    else if r.value.1.NoPte? then Panic
    else Ok(Store(r.value.0, r.value.1.table, r.value.1.index, w))
  }

  /** The entry for physical address pa: pa | PTE_P | perm, for page-aligned pa. */
  function StaticEntry(pa: Word, perm: nat): (w: Word)
    requires perm < 0x1000
    ensures Present(w)
  {
    MakePte(Pgnum(pa), WithPresent(perm))
  }

  /** staticMap of a page-aligned physical range, from offset k * PGSIZE on. Addresses wrap in 32
      bits; a size above 0xFFFFF000 would make the offset itself wrap, and the loop endless. */
  function StaticMap(v: Vm, d: nat, va: Word, size: Word, pa: Word, perm: nat, k: nat): (r: Res<Vm>)
    requires Wf(v) && d < |v.page| && perm < 0x1000 && pa % PGSIZE == 0 && size <= 0xFFFF_F000
    ensures r.Ok? ==> SameShape(v, r.value)
    decreases size - k * PGSIZE
  {
    if k * PGSIZE >= size then Ok(v)
    else
      var r := MapPage(v, d, (va + k * PGSIZE) % WORD_LIMIT, StaticEntry((pa + k * PGSIZE) % WORD_LIMIT, perm));
      if r.Ok? then StaticMap(r.value, d, va, size, pa, perm, k + 1) else r
  }

  // A directory that owns its tables

  /** Apart from the self-map, the present entries of d name tables of its own, in use and
      different from each other and from d. */
  ghost predicate DirTree(v: Vm, d: nat) {
    && Wf(v) && d < |v.page| && d !in v.free
    && v.page[d][UVPTX] == SelfMap(d)
    && (forall x :: 0 <= x < 1024 && x != UVPTX && Present(v.page[d][x]) ==>
        Frame(v.page[d][x]) < |v.page| && Frame(v.page[d][x]) != d && Frame(v.page[d][x]) !in v.free)
    && (forall x, y ::
          (&& 0 <= x < 1024 && 0 <= y < 1024 && x != y && x != UVPTX && y != UVPTX
           && Present(v.page[d][x]) && Present(v.page[d][y]))
          ==> Frame(v.page[d][x]) != Frame(v.page[d][y]))
  }

  /** One page: exactly the entry for va changes, and one frame is taken if its table was absent. */
  ghost predicate PageMapped(v: Vm, d: nat, va: Word, w: Word, v': Vm)
    requires Wf(v) && d < |v.page|
  {
    var x := Pdx(va);
    && |v'.page| == |v.page|
    && (forall i: nat, j: nat :: i < 1024 && j < 1024 && i != UVPTX ==>
          Leaf(v', d, i, j) == if i == x && j == Ptx(va) then Some(w) else Leaf(v, d, i, j))
    && (if Present(v.page[d][x]) then v'.free == v.free && v'.rc == v.rc && v'.page[d] == v.page[d]
        else v.free != [] && v'.free == v.free[1..] && v'.rc == v.rc[v.free[0] := (v.rc[v.free[0]] + 1) % 0x1_0000]
             && v'.page[d] == v.page[d][x := MakePte(v.free[0], PTE_P + PTE_W + PTE_U)])
    && (forall g :: 0 <= g < |v.page| && g != d && g != Frame(v'.page[d][x]) ==> v'.page[g] == v.page[g])
  }

  lemma MapPageSteps(v: Vm, d: nat, va: Word, w: Word) returns (r: Res<Vm>)
    requires DirTree(v, d) && Pdx(va) != UVPTX && Present(w)
    ensures MapPage(v, d, va, w) == r
    ensures r.Ok? <==> Present(v.page[d][Pdx(va)]) || v.free != []
    ensures !r.Ok? ==> r.Panic?
    ensures r.Ok? ==> DirTree(r.value, d) && PageMapped(v, d, va, w, r.value)
  {
    r := MapPage(v, d, va, w);
    var x := Pdx(va);
    if Present(v.page[d][x]) {
      var t := Frame(v.page[d][x]);
      assert r == Ok(Store(v, t, Ptx(va), w));
      MapExisting(v, d, x, Ptx(va), w, t, r.value);
    } else if v.free != [] {
      MapFresh(v, d, va, w, r.value);
    }
  }

  lemma MapExisting(v: Vm, d: nat, x: nat, y: nat, w: Word, t: nat, v': Vm)
    requires DirTree(v, d) && x < 1024 && y < 1024 && x != UVPTX && Present(w)
    requires Present(v.page[d][x]) && t == Frame(v.page[d][x]) && v' == Store(v, t, y, w)
    ensures DirTree(v', d) && v'.page[d] == v.page[d]
    ensures forall i: nat, j: nat :: i < 1024 && j < 1024 && i != UVPTX ==>
              Leaf(v', d, i, j) == if i == x && j == y then Some(w) else Leaf(v, d, i, j)
  {
    assert v'.page[d] == v.page[d];
  }

  lemma MapFresh(v: Vm, d: nat, va: Word, w: Word, v': Vm)
    requires DirTree(v, d) && Pdx(va) != UVPTX && Present(w) && !Present(v.page[d][Pdx(va)]) && v.free != []
    requires MapPage(v, d, va, w) == Ok(v')
    ensures DirTree(v', d) && PageMapped(v, d, va, w, v')
  {
    var x, f := Pdx(va), v.free[0];
    var v1 := InstallTable(v, d, x);
    assert v' == Store(v1, f, Ptx(va), w);
    hide MapPage;
    InstallTree(v, d, x);
    MapExisting(v1, d, x, Ptx(va), w, f, v');
  }

  lemma InstallTree(v: Vm, d: nat, x: nat)
    requires DirTree(v, d) && x < 1024 && x != UVPTX && !Present(v.page[d][x]) && v.free != []
    ensures var v1 := InstallTable(v, d, x);
            && DirTree(v1, d) && v1.free == v.free[1..] && v1.page[d]
              == v.page[d][x := MakePte(v.free[0], PTE_P + PTE_W + PTE_U)]
            && forall i: nat, j: nat :: i < 1024 && j < 1024 && i != UVPTX ==> Leaf(v1, d, i, j) == Leaf(v, d, i, j)
  {
    var f := v.free[0];
    var v1 := InstallTable(v, d, x);
    FreeTail(v.free);
    assert v1.page[d] == v.page[d][x := MakePte(f, PTE_P + PTE_W + PTE_U)];
    assert v1.page[f] == ZeroPage();
    assert forall g :: 0 <= g < |v.page| && g != f && g != d ==> v1.page[g] == v.page[g];
    hide InstallTable, Wf;
    InstallTreeParts(v, d, x, f, v1);
  }

  lemma FreeTail(s: seq<nat>)
    requires s != [] && forall i, j :: 0 <= i < j < |s| ==> s[i] != s[j]
    ensures s[0] in s && forall g :: g in s[1..] <==> g in s && g != s[0]
  {
    assert s == [s[0]] + s[1..];
    assert forall k :: 0 <= k < |s[1..]| ==> s[1..][k] == s[k + 1];
  }

  lemma InstallTreeParts(v: Vm, d: nat, x: nat, f: nat, v1: Vm)
    requires DirTree(v, d) && x < 1024 && x != UVPTX && !Present(v.page[d][x]) && f in v.free && f < |v.page|
    requires Wf(v1) && |v1.page| == |v.page| && v1.page[d] == v.page[d][x := MakePte(f, PTE_P + PTE_W + PTE_U)]
        && v1.page[f] == ZeroPage()
    requires forall g :: 0 <= g < |v.page| && g != f && g != d ==> v1.page[g] == v.page[g]
    requires forall g :: g in v1.free ==> g in v.free && g != f
    ensures DirTree(v1, d)
    ensures forall i: nat, j: nat :: i < 1024 && j < 1024 && i != UVPTX ==> Leaf(v1, d, i, j) == Leaf(v, d, i, j)
  {
    hide Wf;
  }

  // The loop

  /** The absent directory entries of d among those from x0 to x1. */
  ghost function Absent(v: Vm, d: nat, x0: nat, x1: nat): set<nat>
    requires d < |v.page| && x1 < 1024
  {
    set x: nat | x0 <= x <= x1 && !Present(v.page[d][x])
  }

  /** How many directory entries are absent among those of the pages numbered from p up to q. */
  ghost function Need(v: Vm, d: nat, p: nat, q: nat): nat
    requires d < |v.page| && q <= 0x10_0000
  {
    if p >= q then 0 else |Absent(v, d, p / 1024, (q - 1) / 1024)|
  }

  /** From v to v', pages p0 + k up to p0 + n of d became mapped to frames f0 + k and on. */
  ghost predicate Linear(v: Vm, d: nat, v': Vm, p0: nat, f0: nat, k: nat, n: nat, perm: nat) {
    && d < |v.page| == |v'.page| && perm < 0x1000 && f0 + n <= 0x10_0000
    && forall i: nat, j: nat :: i < 1024 && j < 1024 && i != UVPTX ==>
         Leaf(v', d, i, j) ==
           if p0 + k <= i * 1024 + j < p0 + n then Some(MakePte(f0 + (i * 1024 + j - p0), WithPresent(perm)))
             else Leaf(v, d, i, j)
  }

  /** Directory entry x covers a page among those from p up to q. */
  predicate Touched(p: nat, q: nat, x: nat) {
    p < q && x * 1024 < q && p < (x + 1) * 1024
  }

  /** The first m free frames are taken and each is counted once more. */
  ghost predicate Taken(v: Vm, v': Vm, m: nat) {
    && |v.rc| == |v'.rc| && m <= |v.free| && v'.free == v.free[m..]
    && (forall f :: 0 <= f < |v.rc| ==> v'.rc[f] == if f in v.free[..m] then (v.rc[f] + 1) % 0x1_0000 else v.rc[f])
  }

  /** In a directory, the old entries stay, exactly the entries that pages p up to q need are new,
      and they name the given frames. */
  ghost predicate Grown(e: Page, e': Page, tables: seq<nat>, p: nat, q: nat) {
    && (forall x :: 0 <= x < 1024 && Present(e[x]) ==> e'[x] == e[x])
    && (forall x :: 0 <= x < 1024 && !Present(e[x]) ==> if Touched(p, q, x) then Present(e'[x]) else e'[x] == e[x])
    && (forall x :: 0 <= x < 1024 && !Present(e[x]) && Present(e'[x]) ==> Frame(e'[x]) in tables)
  }

  /** Frame g is a page table of directory d. */
  ghost predicate TableOf(e: Page, g: nat) {
    exists x :: 0 <= x < 1024 && x != UVPTX && Present(e[x]) && Frame(e[x]) == g
  }

  /** Besides the directory, its tables and the new ones, no frame is written. */
  ghost predicate OthersKept(v: Vm, d: nat, v': Vm, tables: seq<nat>)
    requires d < |v.page| == |v'.page|
  {
    forall g :: 0 <= g < |v.page| && g != d && g !in tables && !TableOf(v.page[d], g) ==> v'.page[g] == v.page[g]
  }

  /** The new page tables are the first m free frames, and only needed ones are made. */
  ghost predicate TablesFrom(v: Vm, d: nat, v': Vm, m: nat, p: nat, q: nat) {
    && d < |v.page| == |v'.page| && Taken(v, v', m) && Grown(v.page[d], v'.page[d], v.free[..m], p, q)
    && OthersKept(v, d, v', v.free[..m])
  }

  lemma NeedStep(v: Vm, d: nat, v': Vm, p: nat, p1: nat, q: nat, va: Word, w: Word)
    requires Wf(v) && d < |v.page| && p < p1 == p + 1 <= q <= 0x10_0000 && Pgnum(va) == p && PageMapped(v, d, va, w, v')
    ensures Need(v, d, p, q) == Need(v', d, p1, q) + if Present(v.page[d][Pdx(va)]) then 0 else 1
  {
    PgaddrOfFields(va);
    var x0, x1, y0 := p / 1024, (q - 1) / 1024, p1 / 1024;
    assert Pdx(va) == x0 && x0 <= x1 && (y0 == x0 || y0 == x0 + 1) && (p1 < q ==> y0 <= x1) && (p1 == q ==> x0 == x1);
    AbsentStep(v, d, va, w, v', x0, y0, x1);
    hide PageMapped, Absent;
    assert p1 < q ==> Need(v', d, p1, q) == |Absent(v', d, y0, x1)|;
  }

  lemma AbsentStep(v: Vm, d: nat, va: Word, w: Word, v': Vm, x0: nat, y0: nat, x1: nat)
    requires Wf(v) && d < |v.page| && x0 <= x1 < 1024 && (y0 == x0 || y0 == x0 + 1) && Pdx(va) == x0
        && PageMapped(v, d, va, w, v')
    ensures |Absent(v, d, x0, x1)| == |Absent(v', d, y0, x1)| + if Present(v.page[d][x0]) then 0 else 1
    ensures x0 == x1 ==> |Absent(v, d, x0, x1)| == if Present(v.page[d][x0]) then 0 else 1
  {
    hide Leaf;
    var a, b := Absent(v, d, x0, x1), Absent(v', d, y0, x1);
    assert a == b + if Present(v.page[d][x0]) then {} else {x0};
    if x0 == x1 {
      assert a == if Present(v.page[d][x0]) then {} else {x0};
    }
  }

  lemma LinearStep(v: Vm, d: nat, v1: Vm, v': Vm, va: Word, p0: nat, f0: nat, k: nat, n: nat, perm: nat)
    requires Wf(v) && d < |v.page| && perm < 0x1000 && f0 + n <= 0x10_0000 && k < n
    requires Pgnum(va) == p0 + k && PageMapped(v, d, va, MakePte(f0 + k, WithPresent(perm)), v1)
        && Linear(v1, d, v', p0, f0, k + 1, n, perm)
    ensures Linear(v, d, v', p0, f0, k, n, perm)
  {
    PgaddrOfFields(va);
    hide Leaf;
    forall i: nat, j: nat | i < 1024 && j < 1024 && i != UVPTX
      ensures Leaf(v', d, i, j) ==
           if p0 + k <= i * 1024 + j < p0 + n then Some(MakePte(f0 + (i * 1024 + j - p0), WithPresent(perm)))
             else Leaf(v, d, i, j)
    {
      assert (i == Pdx(va) && j == Ptx(va)) <==> i * 1024 + j == p0 + k;
    }
  }

  lemma TablesStep(v: Vm, d: nat, v1: Vm, v': Vm, va: Word, w: Word, m: nat, p: nat, p1: nat, q: nat)
    requires Wf(v) && d < |v.page| && PageMapped(v, d, va, w, v1) && Pgnum(va) == p < q && p1 == p + 1
        && Pdx(va) != UVPTX && TablesFrom(v1, d, v', m, p1, q)
    ensures TablesFrom(v, d, v', m + if Present(v.page[d][Pdx(va)]) then 0 else 1, p, q)
  {
    var x0 := Pdx(va);
    assert forall x: nat :: Touched(p, q, x) <==> x == x0 || Touched(p1, q, x) by {
      PgaddrOfFields(va);
    }
    hide Leaf, Touched, Pdx, Taken, Grown, OthersKept;
    if Present(v.page[d][x0]) {
      OthersMore(v, d, v1, v', x0, v1.free[..m], v.free[..m]);
      assert Taken(v, v', m) by {
        SameTaken(v, v1, v', m);
      }
      GrowMore(v.page[d], v1.page[d], v'.page[d], x0, v1.free[..m], v.free[..m], p, p1, q);
    } else {
      TableTaken(v, d, v1, v', m);
      OthersMore(v, d, v1, v', x0, v1.free[..m], v.free[..m + 1]);
      GrowMore(v.page[d], v1.page[d], v'.page[d], x0, v1.free[..m], v.free[..m + 1], p, p1, q);
    }
  }

  lemma OthersMore(v: Vm, d: nat, v1: Vm, v': Vm, x0: nat, t1: seq<nat>, t: seq<nat>)
    requires d < |v.page| == |v1.page| == |v'.page| && x0 < 1024 && x0 != UVPTX && OthersKept(v1, d, v', t1)
    requires forall g :: 0 <= g < |v.page| && g != d && g != Frame(v1.page[d][x0]) ==> v1.page[g] == v.page[g]
    requires v1.page[d] == v.page[d][x0 := v1.page[d][x0]] && Present(v1.page[d][x0])
    requires if Present(v.page[d][x0]) then v1.page[d] == v.page[d] else Frame(v1.page[d][x0]) in t
    requires forall f :: f in t1 ==> f in t
    ensures OthersKept(v, d, v', t)
  {
    hide Present, Frame;
    forall g | 0 <= g < |v.page| && g != d && g !in t && !TableOf(v.page[d], g)
      ensures v'.page[g] == v.page[g] && !TableOf(v1.page[d], g)
    {
    }
  }

  lemma SameTaken(v: Vm, v1: Vm, v': Vm, m: nat)
    requires Taken(v1, v', m) && v1.rc == v.rc && v1.free == v.free
    ensures Taken(v, v', m)
  {
  }

  lemma GrowMore(e: Page, e1: Page, e': Page, x0: nat, t1: seq<nat>, t: seq<nat>, p: nat, p1: nat, q: nat)
    requires x0 < 1024 && Grown(e1, e', t1, p1, q) && Present(e1[x0]) && e1 == e[x0 := e1[x0]]
    requires if Present(e[x0]) then e1 == e else Frame(e1[x0]) in t
    requires forall f :: f in t1 ==> f in t
    requires forall x: nat :: Touched(p, q, x) <==> x == x0 || Touched(p1, q, x)
    ensures Grown(e, e', t, p, q)
  {
    hide Touched, Present, Frame;
  }

  lemma TableTaken(v: Vm, d: nat, v1: Vm, v': Vm, m: nat)
    requires Wf(v) && d < |v.page| && v.free != [] && v1.free == v.free[1..] && Taken(v1, v', m)
    requires v1.rc == v.rc[v.free[0] := (v.rc[v.free[0]] + 1) % 0x1_0000]
    ensures m + 1 <= |v.free| && Taken(v, v', m + 1)
    ensures forall f :: f in v.free[..m + 1] <==> f == v.free[0] || f in v1.free[..m]
  {
    var f0, s, t := v.free[0], v.free[..m + 1], v1.free[..m];
    assert s == [f0] + t;
    assert forall k :: 0 <= k < m ==> t[k] == v.free[k + 1];
    assert f0 !in t;
    assert v.free[m + 1..] == v1.free[m..];
  }

  /** The number of pages that the loop maps. */
  function Pages(size: Word): nat {
    (size + 0xFFF) / 0x1000
  }

  lemma PageAt(va: Word, size: Word, k: nat)
    requires va % PGSIZE == 0 && va + size <= WORD_LIMIT && k * PGSIZE < size
    ensures (va + k * PGSIZE) % WORD_LIMIT == va + k * PGSIZE < WORD_LIMIT && Pgnum(va + k * PGSIZE) == Pgnum(va) + k
    ensures k < Pages(size) && Pgnum(va) + Pages(size) <= 0x10_0000
  {
    assert va == Pgnum(va) * 0x1000;
    PgnumOfPage(Pgnum(va) + k, 0);
  }

  lemma PagesDone(size: Word, k: nat)
    ensures k * PGSIZE >= size <==> k >= Pages(size)
  {
  }

  /** The range stays clear of the window in which the directory maps itself. */
  predicate AvoidsSelfMap(va: Word, size: Word) {
    Pgnum(va) + Pages(size) <= UVPTX * 1024 || (UVPTX + 1) * 1024 <= Pgnum(va)
  }

  // The same loop on page numbers

  function MapPages(v: Vm, d: nat, p0: nat, f0: nat, n: nat, perm: nat, k: nat): (r: Res<Vm>)
    requires Wf(v) && d < |v.page| && perm < 0x1000 && p0 + n <= 0x10_0000 && f0 + n <= 0x10_0000
    ensures r.Ok? ==> SameShape(v, r.value)
    decreases n - k
  {
    if k >= n then Ok(v)
    else
      var r := MapPage(v, d, (p0 + k) * PGSIZE, MakePte(f0 + k, WithPresent(perm)));
      if r.Ok? then MapPages(r.value, d, p0, f0, n, perm, k + 1) else r
  }

  lemma UnfoldMapPages(v: Vm, d: nat, p0: nat, f0: nat, n: nat, perm: nat, k: nat, r: Res<Vm>)
    requires Wf(v) && d < |v.page| && perm < 0x1000 && p0 + n <= 0x10_0000 && f0 + n <= 0x10_0000 && k < n
    requires r == MapPage(v, d, (p0 + k) * PGSIZE, MakePte(f0 + k, WithPresent(perm)))
    ensures MapPages(v, d, p0, f0, n, perm, k) == if r.Ok? then MapPages(r.value, d, p0, f0, n, perm, k + 1) else r
  {
    hide MapPage, MakePte, WithPresent;
  }

  lemma UnfoldStaticMap(v: Vm, d: nat, va: Word, size: Word, pa: Word, perm: nat, k: nat, r: Res<Vm>)
    requires Wf(v) && d < |v.page| && perm < 0x1000 && pa % PGSIZE == 0 && size <= 0xFFFF_F000 && k * PGSIZE < size
    requires r == MapPage(v, d, (va + k * PGSIZE) % WORD_LIMIT, StaticEntry((pa + k * PGSIZE) % WORD_LIMIT, perm))
    ensures StaticMap(v, d, va, size, pa, perm, k) == if r.Ok? then StaticMap(r.value, d, va, size, pa, perm, k + 1)
        else r
  {
    hide MapPage, StaticEntry;
  }

  lemma {:induction false} StaticMapDone(v: Vm, d: nat, va: Word, size: Word, pa: Word, perm: nat, k: nat)
    requires Wf(v) && d < |v.page| && perm < 0x1000 && pa % PGSIZE == 0 && size <= 0xFFFF_F000 && k * PGSIZE >= size
    ensures StaticMap(v, d, va, size, pa, perm, k) == Ok(v)
  {
  }

  /** The arguments of the k-th step, as addresses and as page numbers. */
  lemma SameStep(va: Word, size: Word, pa: Word, perm: nat, k: nat)
    requires va % PGSIZE == 0 && pa % PGSIZE == 0 && va + size <= WORD_LIMIT && pa + size <= WORD_LIMIT && perm < 0x1000
    requires k < Pages(size)
    ensures k * PGSIZE < size && Pgnum(pa) + k < 0x10_0000
    ensures (va + k * PGSIZE) % WORD_LIMIT == (Pgnum(va) + k) * PGSIZE
    ensures StaticEntry((pa + k * PGSIZE) % WORD_LIMIT, perm) == MakePte(Pgnum(pa) + k, WithPresent(perm))
  {
    PagesDone(size, k);
    PageAt(va, size, k);
    PageAt(pa, size, k);
    PgnumTimes(va);
  }

  lemma PgnumTimes(va: Word)
    requires va % PGSIZE == 0
    ensures va == Pgnum(va) * PGSIZE
  {
  }

  lemma {:induction false} NoPageLeft(v: Vm, d: nat, va: Word, size: Word, pa: Word, perm: nat, p0: nat, f0: nat,
      n: nat, k: nat)
    requires Wf(v) && d < |v.page| && perm < 0x1000 && pa % PGSIZE == 0 && size <= 0xFFFF_F000
    requires n == Pages(size) <= k && p0 + n <= 0x10_0000 && f0 + n <= 0x10_0000
    ensures StaticMap(v, d, va, size, pa, perm, k) == Ok(v) == MapPages(v, d, p0, f0, n, perm, k)
  {
    PagesDone(size, k);
    hide Pages;
  }

  /** Over a page-aligned range that does not wrap, staticMap is the loop on page numbers. */
  lemma {:induction false} StaticMapIsMapPages(v: Vm, d: nat, va: Word, size: Word, pa: Word, perm: nat, k: nat,
      p0: nat, f0: nat, n: nat)
    requires Wf(v) && d < |v.page| && perm < 0x1000 && va % PGSIZE == 0 && pa % PGSIZE == 0
    requires size <= 0xFFFF_F000 && va + size <= WORD_LIMIT && pa + size <= WORD_LIMIT
    requires p0 == Pgnum(va) && f0 == Pgnum(pa) && n == Pages(size) && p0 + n <= 0x10_0000 && f0 + n <= 0x10_0000
    ensures StaticMap(v, d, va, size, pa, perm, k) == MapPages(v, d, p0, f0, n, perm, k)
    decreases n - k
  {
    hide MapPage, Pages, Pgnum, StaticEntry, MakePte, WithPresent, StaticMap, MapPages, Wf;
    if k < n {
      SameStep(va, size, pa, perm, k);
      var r := MapPage(v, d, (p0 + k) * PGSIZE, MakePte(f0 + k, WithPresent(perm)));
      UnfoldStaticMap(v, d, va, size, pa, perm, k, r);
      UnfoldMapPages(v, d, p0, f0, n, perm, k, r);
      if r.Ok? {
        StaticMapIsMapPages(r.value, d, va, size, pa, perm, k + 1, p0, f0, n);
      }
    } else {
      NoPageLeft(v, d, va, size, pa, perm, p0, f0, n, k);
    }
  }

  lemma PagePdx(p: nat)
    requires p < 0x10_0000
    ensures Pgnum(p * PGSIZE) == p && Pdx(p * PGSIZE) == p / 1024
  {
    PgnumOfPage(p, 0);
    PgaddrOfFields(p * PGSIZE);
  }

  lemma NoFrameLeft(v: Vm, d: nat, p: nat, q: nat)
    requires d < |v.page| && p < q <= 0x10_0000 && !Present(v.page[d][Pdx(p * PGSIZE)]) && v.free == []
    ensures |v.free| < Need(v, d, p, q)
  {
    PagePdx(p);
    assert p / 1024 in Absent(v, d, p / 1024, (q - 1) / 1024);
  }

  /** What mapping the pages from number p0 + k on amounts to. */
  ghost predicate Mapped(v: Vm, d: nat, p0: nat, f0: nat, n: nat, perm: nat, k: nat, r: Res<Vm>)
    requires d < |v.page| && p0 + n <= 0x10_0000
  {
    var m := Need(v, d, p0 + k, p0 + n);
    && !r.Cyclic?
    && (r.Ok? <==> |v.free| >= m)
    && (r.Ok? ==>
          DirTree(r.value, d) && Linear(v, d, r.value, p0, f0, k, n, perm)
          && TablesFrom(v, d, r.value, m, p0 + k, p0 + n))
  }

  /** The first page of a range, and then the rest of it. */
  lemma FirstPageThenRest(v: Vm, d: nat, v1: Vm, r: Res<Vm>, p0: nat, f0: nat, k: nat, n: nat, perm: nat)
    requires Wf(v) && d < |v.page| == |v1.page| && perm < 0x1000 && p0 + n <= 0x10_0000 && f0 + n <= 0x10_0000 && k < n
    requires PageMapped(v, d, (p0 + k) * PGSIZE, MakePte(f0 + k, WithPresent(perm)), v1)
    requires Pdx((p0 + k) * PGSIZE) != UVPTX && Mapped(v1, d, p0, f0, n, perm, k + 1, r)
    ensures Mapped(v, d, p0, f0, n, perm, k, r)
  {
    hide Need, PageMapped, Linear, TablesFrom, MakePte, WithPresent, Pgnum, Pdx, DirTree, Wf;
    var a, w := (p0 + k) * PGSIZE, MakePte(f0 + k, WithPresent(perm));
    var p, p1, q := p0 + k, p0 + (k + 1), p0 + n;
    PagePdx(p);
    FreeSize(v, d, a, w, v1);
    NeedStep(v, d, v1, p, p1, q, a, w);
    if r.Ok? {
      LinearStep(v, d, v1, r.value, a, p0, f0, k, n, perm);
      TablesStep(v, d, v1, r.value, a, w, Need(v1, d, p1, q), p, p1, q);
    }
  }

  lemma {:induction false} MapPagesSteps(v: Vm, d: nat, p0: nat, f0: nat, n: nat, perm: nat, k: nat)
    returns (r: Res<Vm>)
    requires DirTree(v, d) && perm < 0x1000 && k <= n && p0 + n <= 0x10_0000 && f0 + n <= 0x10_0000
    requires p0 + n <= UVPTX * 1024 || (UVPTX + 1) * 1024 <= p0
    ensures MapPages(v, d, p0, f0, n, perm, k) == r && Mapped(v, d, p0, f0, n, perm, k, r)
    decreases n - k, 1
  {
    hide MapPages, MapPage, MakePte, WithPresent;
    if k == n {
      r := Ok(v);
      NothingMapped(v, d, p0, f0, n, perm);
    } else {
      r := MapPagesMore(v, d, p0, f0, n, perm, k);
    }
  }

  lemma {:induction false} MapPagesMore(v: Vm, d: nat, p0: nat, f0: nat, n: nat, perm: nat, k: nat) returns (r: Res<Vm>)
    requires DirTree(v, d) && perm < 0x1000 && k < n && p0 + n <= 0x10_0000 && f0 + n <= 0x10_0000
    requires p0 + n <= UVPTX * 1024 || (UVPTX + 1) * 1024 <= p0
    ensures MapPages(v, d, p0, f0, n, perm, k) == r && Mapped(v, d, p0, f0, n, perm, k, r)
    decreases n - k, 0
  {
    hide MapPages, PageMapped, MapPage, Need, Linear, TablesFrom, MakePte, WithPresent, Pgnum, Pdx;
    var a, w := (p0 + k) * PGSIZE, MakePte(f0 + k, WithPresent(perm));
    PagePdx(p0 + k);
    var r1 := MapPageSteps(v, d, a, w);
    UnfoldMapPages(v, d, p0, f0, n, perm, k, r1);
    if r1.Ok? {
      hide DirTree, Mapped;
      r := MapPagesSteps(r1.value, d, p0, f0, n, perm, k + 1);
      FirstPageThenRest(v, d, r1.value, r, p0, f0, k, n, perm);
    } else {
      r := r1;
      NoFrameLeft(v, d, p0 + k, p0 + n);
    }
  }

  /**
   staticMap over a page-aligned range that does not wrap: it succeeds exactly when there is a
   free frame for every absent directory entry that it touches, it then takes exactly these frames,
   maps every page of the range to the same offset of the physical range, and changes no other
   translation.
   */
  lemma StaticMapSteps(v: Vm, d: nat, va: Word, size: Word, pa: Word, perm: nat) returns (r: Res<Vm>)
    requires DirTree(v, d) && perm < 0x1000 && va % PGSIZE == 0 && pa % PGSIZE == 0
    requires size <= 0xFFFF_F000 && va + size <= WORD_LIMIT && pa + size <= WORD_LIMIT && AvoidsSelfMap(va, size)
    ensures Pgnum(va) + Pages(size) <= 0x10_0000 && Pgnum(pa) + Pages(size) <= 0x10_0000
    ensures StaticMap(v, d, va, size, pa, perm, 0) == r
    ensures !r.Cyclic? && (r.Ok? <==> |v.free| >= Need(v, d, Pgnum(va), Pgnum(va) + Pages(size)))
    ensures r.Ok? ==>
              && DirTree(r.value, d) && Linear(v, d, r.value, Pgnum(va), Pgnum(pa), 0, Pages(size), perm)
              && TablesFrom(v, d, r.value, Need(v, d, Pgnum(va), Pgnum(va) + Pages(size)), Pgnum(va),
                Pgnum(va) + Pages(size))
  {
    assert Wf(v) && d < |v.page|;
    hide DirTree, StaticMap, MapPages, Pgnum, Pages, Linear, TablesFrom, Need;
    var p0, f0, n := Pgnum(va), Pgnum(pa), Pages(size);
    RangeFits(va, size);
    RangeFits(pa, size);
    StaticMapIsMapPages(v, d, va, size, pa, perm, 0, p0, f0, n);
    r := MapPagesSteps(v, d, p0, f0, n, perm, 0);
    assert p0 + 0 == p0;
  }

  lemma RangeFits(va: Word, size: Word)
    requires va % PGSIZE == 0 && va + size <= WORD_LIMIT
    ensures Pgnum(va) + Pages(size) <= 0x10_0000 && (size > 0 ==> Pages(size) > 0)
  {
  }

  lemma {:induction false} NothingMapped(v: Vm, d: nat, p0: nat, f0: nat, n: nat, perm: nat)
    requires d < |v.page| && perm < 0x1000 && f0 + n <= 0x10_0000 && p0 + n <= 0x10_0000
    ensures Wf(v) ==> MapPages(v, d, p0, f0, n, perm, n) == Ok(v)
    ensures Need(v, d, p0 + n, p0 + n) == 0 && Linear(v, d, v, p0, f0, n, n, perm)
        && TablesFrom(v, d, v, 0, p0 + n, p0 + n)
  {
    hide Leaf;
  }

  lemma FreeSize(v: Vm, d: nat, va: Word, w: Word, v': Vm)
    requires Wf(v) && d < |v.page| && PageMapped(v, d, va, w, v')
    ensures |v.free| == |v'.free| + if Present(v.page[d][Pdx(va)]) then 0 else 1
  {
  }
}
