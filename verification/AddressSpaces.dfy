/** Task address spaces (kernel/task.cc): building them, allocating regions in them, and tearing
    them down, as functions on the memory state. */
module AddressSpaces {
  import opened Wrappers
  import opened Mmu
  import opened PageTables
  import opened Ownership

  /** Task::setupMemory: a new page directory that repeats the kernel's and maps itself. */
  function SetupMemory(v: Vm, kd: nat): (r: (Vm, Option<nat>))
    requires Wf(v) && kd < |v.page|
    ensures SameShape(v, r.0)
    ensures r.1.Some? ==> r.1.value < |v.page|
  {
    var a := AllocFrame(v, true);
    if a.1.None? then (a.0, None)
    else
      var f := a.1.value;
      (Store(IncRef(Fill(a.0, f, a.0.page[kd]), f), f, UVPTX, SelfMap(f)), Some(f))
  }

  /** Task::regionAlloc: zeroed pages from va to va + len, in wrapping 32-bit arithmetic. */
  function RegionAlloc(v: Vm, d: nat, va: Word, len: Word): (r: Res<Vm>)
    requires Wf(v) && d < |v.page|
    ensures r.Ok? ==> SameShape(v, r.value)
  {
    var lo, hi := RoundDown(va, PGSIZE), RoundUp(Add32(va, len), PGSIZE);
    if lo >= hi then Panic else AllocPages(v, d, Pgnum(lo), Pgnum(hi))
  }

  /** The loop of regionAlloc over the pages numbered from p up to q. */
  function AllocPages(v: Vm, d: nat, p: nat, q: nat): (r: Res<Vm>)
    requires Wf(v) && d < |v.page| && q < 0x10_0000
    ensures r.Ok? ==> SameShape(v, r.value)
    decreases q - p
  {
    if p >= q then Ok(v)
    else
      var r := AllocPage(v, d, p * PGSIZE);
      if r.Ok? then AllocPages(r.value, d, p + 1, q) else r
  }

  /** One iteration: a zeroed frame, mapped at va for the user. */
  function AllocPage(v: Vm, d: nat, va: Word): (r: Res<Vm>)
    requires Wf(v) && d < |v.page|
    ensures r.Ok? ==> SameShape(v, r.value)
  {
    var a := AllocFrame(v, true);
    if a.1.None? then Panic
    else
      var r := Insert(a.0, d, a.1.value, va, PTE_U + PTE_W);
      if !r.Ok? then r.Failed()
      else if !r.value.1 then Panic
      else Ok(r.value.0)
  }

  /** Task::free, as far as memory is concerned. */
  function FreeSpace(v: Vm, d: nat): (r: Res<Vm>)
    requires Wf(v) && d < |v.page|
    ensures r.Ok? ==> SameShape(v, r.value)
  {
    var r := FreeTables(v, d, 0);
    if r.Ok? then DecRef(r.value, d) else r
  }

  /** The loop over directory entries from x up to UTOP. */
  function FreeTables(v: Vm, d: nat, x: nat): (r: Res<Vm>)
    requires Wf(v) && d < |v.page| && x <= UTOPX
    ensures r.Ok? ==> SameShape(v, r.value)
    decreases UTOPX - x
  {
    if x == UTOPX then Ok(v)
    else
      var r := FreeTable(v, d, x);
      if r.Ok? then FreeTables(r.value, d, x + 1) else r
  }

  /** One directory entry: its pages, the entry, and the page table. */
  function FreeTable(v: Vm, d: nat, x: nat): (r: Res<Vm>)
    requires Wf(v) && d < |v.page| && x < UTOPX
    ensures r.Ok? ==> SameShape(v, r.value)
  {
    var pde := v.page[d][x];
    if !Present(pde) then Ok(v)
    else if Frame(pde) >= |v.page| then Panic
    else
      var r := FreeEntries(v, d, x, Frame(pde), 0);
      if r.Ok? then DecRef(Store(r.value, d, x, 0), Frame(pde)) else r
  }

  /** The loop over the entries of table t from y on. */
  function FreeEntries(v: Vm, d: nat, x: nat, t: nat, y: nat): (r: Res<Vm>)
    requires Wf(v) && d < |v.page| && x < UTOPX && t < |v.page| && y <= 1024
    ensures r.Ok? ==> SameShape(v, r.value)
    decreases 1024 - y
  {
    if y == 1024 then Ok(v)
    else if !Present(v.page[t][y]) then FreeEntries(v, d, x, t, y + 1)
    else
      var r := Remove(v, d, Pgaddr(x, y, 0));
      if r.Ok? then FreeEntries(r.value, d, x, t, y + 1) else r
  }

  // One round of each loop

  lemma UnfoldAllocPages(v: Vm, d: nat, p: nat, q: nat)
    requires Wf(v) && d < |v.page| && q < 0x10_0000
    ensures p >= q ==> AllocPages(v, d, p, q) == Ok(v)
    ensures p < q ==>
              var r := AllocPage(v, d, p * PGSIZE);
              AllocPages(v, d, p, q) == if r.Ok? then AllocPages(r.value, d, p + 1, q) else r
  {
    hide AllocPage;
  }

  lemma UnfoldFreeTables(v: Vm, d: nat, x: nat)
    requires Wf(v) && d < |v.page| && x <= UTOPX
    ensures x == UTOPX ==> FreeTables(v, d, x) == Ok(v)
    ensures x < UTOPX ==>
              var r := FreeTable(v, d, x);
              FreeTables(v, d, x) == if r.Ok? then FreeTables(r.value, d, x + 1) else r
  {
    hide FreeTable;
  }

  lemma UnfoldFreeEntries(v: Vm, d: nat, x: nat, t: nat, y: nat)
    requires Wf(v) && d < |v.page| && x < UTOPX && t < |v.page| && y <= 1024
    ensures y == 1024 ==> FreeEntries(v, d, x, t, y) == Ok(v)
    ensures y < 1024 ==>
              var r := if Present(v.page[t][y]) then Remove(v, d, Pgaddr(x, y, 0)) else Ok(v);
              FreeEntries(v, d, x, t, y) == if r.Ok? then FreeEntries(r.value, d, x, t, y + 1) else r
  {
    hide Remove;
  }
}
