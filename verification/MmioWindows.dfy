/** pgdir::mmioMap (kernel/vmem.cc): windows for device memory, handed out by a bump pointer. */
module MmioWindows {
  import opened Wrappers
  import opened Mmu
  import opened PageTables
  import opened Ownership
  import opened StaticMaps
  import opened BootMaps

  /** PTE_W | PTE_PCD | PTE_PWT */
  const MMIO_FLAGS: nat := 0x1A

  /** mmioMap with the bump pointer as an argument: the new pointer, and the window's address. */
  function MmioMap(v: Vm, kd: nat, next: Word, pa: Word, size: Word): (r: Res<(Vm, Word, Word)>)
    requires Wf(v) && kd < |v.page| && pa % PGSIZE == 0
    ensures r.Ok? ==> SameShape(v, r.value.0)
  {
    RoundPages(size);
    var n := RoundUp(size, PGSIZE);
    var end := Add32(next, n);
    if end >= MMIOLIM || end < MMIOBASE then Panic
    else
      var r := StaticMap(v, kd, next, n, pa, MMIO_FLAGS, 0);
      if r.Ok? then Ok((r.value, end, next)) else r.Failed()
  }

  /** A bump pointer inside the device region. */
  predicate GoodNext(next: Word) {
    next % PGSIZE == 0 && MMIOBASE <= next < MMIOLIM
  }

  /** The request passes the check of mmioMap, which rounds and adds in 32 bits. */
  predicate PassesGuard(next: Word, size: Word) {
    var end := Add32(next, RoundUp(size, PGSIZE));
    !(end >= MMIOLIM || end < MMIOBASE)
  }

  /** Of the requests that pass, exactly those no larger than the region fit in what is left. */
  lemma GuardIff(next: Word, size: Word)
    requires GoodNext(next) && PassesGuard(next, size)
    ensures next + size <= MMIOLIM <==> size <= PTSIZE
  {
    hide RoundUp, Add32;
    if size <= PTSIZE {
      SmallSize(next, size);
    }
  }

  lemma SmallSize(next: Word, size: Word)
    requires GoodNext(next) && size <= PTSIZE
    ensures size <= RoundUp(size, PGSIZE) && Add32(next, RoundUp(size, PGSIZE)) == next + RoundUp(size, PGSIZE)
  {
    hide RoundUp, WindowPages, Add32;
    WindowSize(size);
    assert size <= Pages(size) * PGSIZE;
    SmallSum(next, RoundUp(size, PGSIZE));
  }

  /** Two sizes that pass and do not fit: the sum wraps around, or the rounded size is zero. */
  lemma GuardWraps()
    ensures var next, size := MMIOBASE + PGSIZE, 0xFFFF_F000;
            GoodNext(next) && PassesGuard(next, size) && next + size > MMIOLIM
    ensures var next, size := MMIOBASE, 0xFFFF_F001;
            GoodNext(next) && PassesGuard(next, size) && next + size > MMIOLIM && RoundUp(size, PGSIZE) == 0
  {
  }

  /** A call that does not pass panics; the others end at the rounded size behind the pointer, in 32 bits. */
  lemma MmioRefuses(v: Vm, kd: nat, next: Word, pa: Word, size: Word)
    requires Wf(v) && kd < |v.page| && pa % PGSIZE == 0
    ensures var end := (next + (size + 0xFFF) / 0x1000 * 0x1000) % 0x1_0000_0000;
            && (PassesGuard(next, size) <==> 0xDF80_0000 <= end < 0xDFC0_0000)
            && (!(0xDF80_0000 <= end < 0xDFC0_0000) ==> MmioMap(v, kd, next, pa, size) == Panic)
            && (MmioMap(v, kd, next, pa, size).Ok? ==>
                  MmioMap(v, kd, next, pa, size).value.1 == end && MmioMap(v, kd, next, pa, size).value.2 == next)
  {
    hide StaticMap, RoundUp, Add32;
    RoundPages(size);
    SumOfRounded(next, size);
  }

  lemma SumOfRounded(next: Word, size: Word)
    ensures Add32(next, RoundUp(size, PGSIZE)) == (next + (size + 0xFFF) / 0x1000 * 0x1000) % 0x1_0000_0000
  {
    hide RoundUp, Add32;
    RoundPages(size);
    var n := (size + 0xFFF) / 0x1000 * 0x1000;
    RoundedSize(size);
    AddsUp(next, n, RoundUp(size, PGSIZE));
  }

  lemma RoundedSize(size: Word)
    ensures (size + 0xFFF) / 0x1000 * 0x1000 ==
              if size > 0xFFFF_F000 then 0x1_0000_0000
              else (if Pgoff(size) == 0 then Pgnum(size) else Pgnum(size) + 1) * PGSIZE
  {
  }

  lemma AddsUp(a: Word, n: nat, r: Word)
    requires n == r || (n == 0x1_0000_0000 && r == 0)
    ensures Add32(a, r) == (a + n) % 0x1_0000_0000
  {
  }

  datatype Request = Request(pa: Word, size: Word)

  /** A window of n pages at address va, for the device memory at pa. */
  datatype Window = Window(va: Word, n: nat, pa: Word)

  /** A page-aligned piece of the physical address space, no larger than the device region. */
  predicate GoodRequest(q: Request) {
    q.pa % PGSIZE == 0 && q.size <= PTSIZE && q.pa + RoundUp(q.size, PGSIZE) <= WORD_LIMIT
  }

  function WindowPages(size: Word): nat {
    Pages(RoundUp(size, PGSIZE))
  }

  lemma WindowSize(size: Word)
    requires size <= PTSIZE
    ensures RoundUp(size, PGSIZE) == WindowPages(size) * PGSIZE && WindowPages(size) == Pages(size) <= 1024
  {
    RoundPages(size);
  }

  /** One call: it succeeds exactly when the window ends before MMIOLIM and a frame is left for the
      page table, if one is needed. */
  lemma MmioMapSteps(v: Vm, kd: nat, next: Word, q: Request) returns (r: Res<(Vm, Word, Word)>)
    requires DirTree(v, kd) && GoodNext(next) && GoodRequest(q)
    ensures MmioMap(v, kd, next, q.pa, q.size) == r && !r.Cyclic?
    ensures var n := WindowPages(q.size);
            r.Ok? <==> next + n * PGSIZE < MMIOLIM && (n == 0 || Present(v.page[kd][Pdx(MMIOBASE)]) || v.free != [])
    ensures r.Ok? ==>
              var n := WindowPages(q.size);
              && DirTree(r.value.0, kd) && r.value.2 == next && r.value.1 == next + n * PGSIZE && GoodNext(r.value.1)
              && Linear(v, kd, r.value.0, Pgnum(next), Pgnum(q.pa), 0, n, MMIO_FLAGS)
              && TablesFrom(v, kd, r.value.0, if n == 0 || Present(v.page[kd][Pdx(MMIOBASE)]) then 0 else 1,
                Pgnum(next), Pgnum(next) + n)
  {
    hide StaticMap, DirTree, Linear, TablesFrom, Need, Wf, RoundUp, Pgnum, Add32, Pages, Pdx, Present;
    MmioArith(next, q);
    Shape(v, kd);
    var n := WindowPages(q.size);
    if next + n * PGSIZE < MMIOLIM {
      var m := StaticMapSteps(v, kd, next, RoundUp(q.size, PGSIZE), q.pa, MMIO_FLAGS);
      MmioNeed(v, kd, Pgnum(next), n);
      r := if m.Ok? then Ok((m.value, next + n * PGSIZE, next)) else m.Failed();
    } else {
      r := Panic;
    }
  }

  lemma Shape(v: Vm, d: nat)
    requires DirTree(v, d)
    ensures Wf(v) && d < |v.page|
  {
  }

  lemma MmioArith(next: Word, q: Request)
    requires GoodNext(next) && GoodRequest(q)
    ensures var n := WindowPages(q.size);
            && RoundUp(q.size, PGSIZE) == n * PGSIZE <= PTSIZE && Pages(RoundUp(q.size, PGSIZE)) == n
            && Add32(next, n * PGSIZE) == next + n * PGSIZE
            && 0xDF800 <= Pgnum(next)
            && (next + n * PGSIZE < MMIOLIM ==>
                  AvoidsSelfMap(next, RoundUp(q.size, PGSIZE)) && Pgnum(next) + n < 0xDFC00)
            && (next + n * PGSIZE) % PGSIZE == 0
  {
    WindowSize(q.size);
    PagesOf(WindowPages(q.size));
    PageSum(next, WindowPages(q.size));
    hide WindowPages, RoundUp, Pages, Pgnum;
  }

  lemma PagesOf(n: nat)
    requires n <= 1024
    ensures Pages(n * PGSIZE) == n
  {
  }

  lemma PageSum(next: Word, n: nat)
    requires GoodNext(next) && n <= 1024
    ensures Add32(next, n * PGSIZE) == next + n * PGSIZE && (next + n * PGSIZE) % PGSIZE == 0
    ensures Pgnum(MMIOBASE) <= Pgnum(next) && (next + n * PGSIZE < MMIOLIM <==> Pgnum(next) + n < Pgnum(MMIOLIM))
    ensures Pgnum(MMIOLIM) == 0xDFC00 && Pgnum(MMIOBASE) == 0xDF800
  {
    var p := Pgnum(next);
    assert next == p * PGSIZE;
  }

  lemma MmioNeed(v: Vm, d: nat, p: nat, n: nat)
    requires d < |v.page| && 0xDF800 <= p && p + n < 0xDFC00
    ensures Pdx(MMIOBASE) == 894 && Need(v, d, p, p + n) == if n == 0 || Present(v.page[d][894]) then 0 else 1
  {
    if n > 0 {
      assert p / 1024 == 894 && (p + n - 1) / 1024 == 894;
      assert Absent(v, d, 894, 894) == if Present(v.page[d][894]) then {} else {894};
    }
  }

  // Any sequence of calls

  function MmioMaps(v: Vm, kd: nat, next: Word, qs: seq<Request>): (r: Res<(Vm, Word, seq<Window>)>)
    requires Wf(v) && kd < |v.page| && forall i :: 0 <= i < |qs| ==> GoodRequest(qs[i])
    decreases |qs|
  {
    if qs == [] then Ok((v, next, []))
    else
      assert GoodRequest(qs[0]);
      var r := MmioMap(v, kd, next, qs[0].pa, qs[0].size);
      if !r.Ok? then r.Failed()
      else
        var rest := MmioMaps(r.value.0, kd, r.value.1, qs[1..]);
        if !rest.Ok? then rest.Failed()
        else Ok((rest.value.0, rest.value.1, [Window(r.value.2, WindowPages(qs[0].size), qs[0].pa)] + rest.value.2))
  }

  function WindowEnd(w: Window): int {
    w.va + w.n * PGSIZE
  }

  /** Page-aligned windows between lo and hi, one after the other. */
  ghost predicate InOrder(ws: seq<Window>, lo: Word, hi: Word) {
    && (forall k :: 0 <= k < |ws| ==> ws[k].va % PGSIZE == 0 && lo <= ws[k].va <= WindowEnd(ws[k]) <= hi)
    && (forall j, k :: 0 <= j < k < |ws| ==> WindowEnd(ws[j]) <= ws[k].va)
  }

  /** Every window translates to its own device memory. */
  ghost predicate Windowed(v: Vm, kd: nat, ws: seq<Window>) {
    forall k :: 0 <= k < |ws| ==> MappedAt(v, kd, Pgnum(ws[k].va), Pgnum(ws[k].pa), ws[k].n, MMIO_FLAGS)
  }

  /** The pages outside of those from p up to q translate as before. */
  ghost predicate SameOutside(v: Vm, d: nat, v': Vm, p: nat, q: nat) {
    && d < |v.page| == |v'.page|
    && forall i: nat, j: nat :: i < 1024 && j < 1024 && i != UVPTX && !(p <= i * 1024 + j < q) ==>
      Leaf(v', d, i, j) == Leaf(v, d, i, j)
  }

  /**
   The windows of any sequence of mmioMap calls are page-aligned, lie one after the other between
   MMIOBASE and MMIOLIM, and each still translates to its own device memory after the last call.
   */
  lemma {:induction false} MmioMapsSteps(v: Vm, kd: nat, next: Word, qs: seq<Request>)
    returns (r: Res<(Vm, Word, seq<Window>)>)
    requires DirTree(v, kd) && GoodNext(next) && forall i :: 0 <= i < |qs| ==> GoodRequest(qs[i])
    ensures Wf(v) && kd < |v.page| && MmioMaps(v, kd, next, qs) == r && !r.Cyclic?
    ensures r.Ok? ==>
              && |r.value.2| == |qs| && DirTree(r.value.0, kd) && GoodNext(r.value.1) && next <= r.value.1
              && InOrder(r.value.2, next, r.value.1) && Windowed(r.value.0, kd, r.value.2)
              && SameOutside(v, kd, r.value.0, Pgnum(next), Pgnum(r.value.1))
    decreases |qs|
  {
    hide DirTree, Linear, MappedAt, MmioMap, WindowPages, Pgnum, Wf, GoodNext, GoodRequest, InOrder, Windowed,
        SameOutside, Leaf;
    Shape(v, kd);
    if qs == [] {
      r := Ok((v, next, []));
      NoWindows(v, kd, next);
    } else {
      var m := MmioMapSteps(v, kd, next, qs[0]);
      if m.Ok? {
        var n := WindowPages(qs[0].size);
        r := MmioMapsSteps(m.value.0, kd, m.value.1, qs[1..]);
        if r.Ok? {
          var w := Window(next, n, qs[0].pa);
          OneMoreWindow(v, kd, m.value.0, r.value.0, w, r.value.2, m.value.1, r.value.1);
          r := Ok((r.value.0, r.value.1, [w] + r.value.2));
        }
      } else {
        r := m.Failed();
      }
    }
  }

  lemma NoWindows(v: Vm, kd: nat, next: Word)
    requires kd < |v.page|
    ensures InOrder([], next, next) && Windowed(v, kd, []) && SameOutside(v, kd, v, Pgnum(next), Pgnum(next))
  {
  }

  lemma OneMoreWindow(v: Vm, kd: nat, v1: Vm, v': Vm, w: Window, ws: seq<Window>, end: Word, hi: Word)
    requires kd < |v.page| && GoodNext(w.va) && end == WindowEnd(w) <= hi && GoodNext(hi)
    requires Linear(v, kd, v1, Pgnum(w.va), Pgnum(w.pa), 0, w.n, MMIO_FLAGS)
    requires InOrder(ws, end, hi) && Windowed(v', kd, ws) && SameOutside(v1, kd, v', Pgnum(end), Pgnum(hi))
    ensures InOrder([w] + ws, w.va, hi) && Windowed(v', kd, [w] + ws) && SameOutside(v, kd, v', Pgnum(w.va), Pgnum(hi))
  {
    WindowPlus(w, end, hi);
    hide Pgnum, Leaf, MakePte, GoodNext;
    assert MappedAt(v', kd, Pgnum(w.va), Pgnum(w.pa), w.n, MMIO_FLAGS) by {
      hide InOrder, Windowed;
    }
    assert SameOutside(v, kd, v', Pgnum(w.va), Pgnum(hi)) by {
      hide InOrder, Windowed, MappedAt;
    }
    hide SameOutside, Linear, MappedAt;
  }

  lemma WindowPlus(w: Window, end: Word, hi: Word)
    requires GoodNext(w.va) && end == WindowEnd(w) <= hi
    ensures Pgnum(end) == Pgnum(w.va) + w.n && Pgnum(end) <= Pgnum(hi) && w.va % PGSIZE == 0
  {
    assert w.va == Pgnum(w.va) * PGSIZE;
    assert end == (Pgnum(w.va) + w.n) * PGSIZE;
  }

  /** The entries of a window: page by page the device's memory, present, writable for the kernel only,
      written through and not cached (bits 0, 1, 3 and 4). */
  lemma DeviceEntries(v: Vm, kd: nat, next: Word, q: Request, v': Vm, end: Word, k: nat)
    requires DirTree(v, kd) && GoodNext(next) && GoodRequest(q) && Wf(v) && kd < |v.page|
    requires MmioMap(v, kd, next, q.pa, q.size) == Ok((v', end, next)) && k * 0x1000 < q.size
    ensures kd < |v'.page| && next + k * 0x1000 < WORD_LIMIT && q.pa + k * 0x1000 + 0x1B < WORD_LIMIT
    ensures Walk(v', kd, next + k * 0x1000) == Some(q.pa + k * 0x1000 + 0x1B)
  {
    hide MmioMap, DirTree, TablesFrom, Linear, WindowPages;
    var r := MmioMapSteps(v, kd, next, q);
    DevicePage(next, q, k);
    LinearAt(v, kd, v', next, q.pa, WindowPages(q.size), k);
  }

  lemma DevicePage(next: Word, q: Request, k: nat)
    requires GoodNext(next) && GoodRequest(q) && next + WindowPages(q.size) * PGSIZE < MMIOLIM && k * 0x1000 < q.size
    ensures k < WindowPages(q.size) && MMIOBASE <= next + k * 0x1000 < MMIOLIM
    ensures q.pa + k * 0x1000 + 0x1000 <= WORD_LIMIT && next % 0x1000 == 0 && q.pa % 0x1000 == 0
  {
    WindowSize(q.size);
    hide RoundUp, WindowPages;
  }

  lemma LinearAt(v: Vm, kd: nat, v': Vm, va: Word, pa: Word, n: nat, k: nat)
    requires Linear(v, kd, v', Pgnum(va), Pgnum(pa), 0, n, MMIO_FLAGS) && k < n
    requires va % 0x1000 == 0 && pa % 0x1000 == 0
    requires MMIOBASE <= va + k * 0x1000 < MMIOLIM && pa + k * 0x1000 + 0x1000 <= WORD_LIMIT
    ensures kd < |v'.page| && Walk(v', kd, va + k * 0x1000) == Some(pa + k * 0x1000 + 0x1B)
  {
    var a := va + k * 0x1000;
    hide Pgnum, Pdx, Ptx, Leaf, MakePte, WithPresent;
    WindowPage(va, k);
    assert Leaf(v', kd, Pdx(a), Ptx(a)) == Some(MakePte(Pgnum(pa) + k, WithPresent(MMIO_FLAGS)));
    WindowEntryIs(pa, k);
  }

  lemma WindowPage(va: Word, k: nat)
    requires va % 0x1000 == 0 && MMIOBASE <= va + k * 0x1000 < MMIOLIM
    ensures var a := va + k * 0x1000; Pdx(a) * 1024 + Ptx(a) == Pgnum(va) + k && Pdx(a) == 894
  {
    var a, p := va + k * 0x1000, va / 0x1000;
    assert a == (p + k) * 0x1000;
    PgaddrOfFields(a);
    assert Pgnum(a) == p + k;
  }

  lemma WindowEntryIs(pa: Word, k: nat)
    requires pa % 0x1000 == 0 && pa + k * 0x1000 + 0x1000 <= WORD_LIMIT
    ensures Pgnum(pa) + k < 0x10_0000 && MakePte(Pgnum(pa) + k, WithPresent(MMIO_FLAGS)) == pa + k * 0x1000 + 0x1B
  {
  }
}
