/**
 The frame allocator and the page-table editor of kernel/vmem.cc as functions on values.

 A Vm value is what the allocator and the tables amount to: the free list as a sequence, the
 16-bit reference counts, and the contents of every physical frame. Page directories and page
 tables are ordinary frames of that memory.
 */
module PageTables {
  import opened Wrappers
  import opened Mmu

  type Page = p: seq<Word> | |p| == 1024 witness seq(1024, i => 0)

  function ZeroPage(): (p: Page)
    ensures forall i :: 0 <= i < 1024 ==> p[i] == 0
  {
    seq(1024, i => 0)
  }

  datatype Vm = Vm(free: seq<nat>, rc: seq<nat>, page: seq<Page>)

  /** Frames fit in the window [KERNBASE, 2^32) that the kernel maps, counts in 16 bits. */
  ghost predicate Wf(v: Vm) {
    && |v.rc| == |v.page| <= 0x2_0000
    && (forall f :: 0 <= f < |v.rc| ==> v.rc[f] < 0x1_0000)
    && (forall i :: 0 <= i < |v.free| ==> v.free[i] < |v.page|)
    && (forall i, j :: 0 <= i < j < |v.free| ==> v.free[i] != v.free[j])
  }

  ghost predicate SameShape(v: Vm, v': Vm) {
    Wf(v') && |v'.page| == |v.page|
  }

  // Single steps

  /** One store of a word into frame t. */
  function Store(v: Vm, t: nat, i: nat, w: Word): Vm
    requires t < |v.page| && i < 1024
  {
    Vm(v.free, v.rc, v.page[t := v.page[t][i := w]])
  }

  /** Overwrite the whole frame f. */
  function Fill(v: Vm, f: nat, p: Page): Vm
    requires f < |v.page|
  {
    Vm(v.free, v.rc, v.page[f := p])
  }

  function SetRef(v: Vm, f: nat, n: nat): Vm
    requires f < |v.rc|
  {
    Vm(v.free, v.rc[f := n], v.page)
  }

  /** refCount++ on a uint16_t. */
  function IncRef(v: Vm, f: nat): Vm
    requires f < |v.rc|
  {
    SetRef(v, f, (v.rc[f] + 1) % 0x1_0000)
  }

  /** Take the head of the free list. */
  function Pop(v: Vm): Vm
    requires v.free != []
  {
    Vm(v.free[1..], v.rc, v.page)
  }

  /** Put f at the head of the free list. */
  function Push(v: Vm, f: nat): Vm {
    Vm([f] + v.free, v.rc, v.page)
  }

  lemma PushKeepsShape(v: Vm, f: nat)
    requires Wf(v) && f < |v.page| && f !in v.free
    ensures SameShape(v, Push(v, f)) && forall h :: h in Push(v, f).free <==> h == f || h in v.free
  {
    var t := [f] + v.free;
    assert forall i :: 0 < i < |t| ==> t[i] == v.free[i - 1];
    assert forall i :: 0 <= i < |v.free| ==> v.free[i] in v.free;
  }

  // PageInfo

  /** PageInfo::alloc. */
  function AllocFrame(v: Vm, zero: bool): (Vm, Option<nat>)
    requires Wf(v)
  {
    if v.free == [] then (v, None)
    else if zero then (Fill(Pop(v), v.free[0], ZeroPage()), Some(v.free[0]))
    else (Pop(v), Some(v.free[0]))
  }

  /** PageInfo::free. Its check sees a counted frame and a linked one, but not the list's last. */
  function FreeFrame(v: Vm, f: nat): Res<Vm>
    requires f < |v.rc|
  {
    if v.rc[f] != 0 || (f in v.free && f != v.free[|v.free| - 1]) then Panic
    else if f in v.free then Cyclic
    else Ok(Push(v, f))
  }

  /** PageInfo::decRef on a uint16_t. */
  function DecRef(v: Vm, f: nat): (r: Res<Vm>)
    requires f < |v.rc|
    ensures Wf(v) && r.Ok? ==> SameShape(v, r.value)
  {
    var n := (v.rc[f] + 0xFFFF) % 0x1_0000;
    var v1 := SetRef(v, f, n);
    assert Wf(v) && f !in v.free ==> SameShape(v, Push(v1, f)) by {
      if Wf(v) && f !in v.free {
        PushKeepsShape(v1, f);
      }
    }
    if n == 0 then FreeFrame(v1, f) else Ok(v1)
  }

  // pgdir

  /** Where a page-table entry is stored, or that there is no page table. */
  datatype PteLoc = NoPte | PteAt(table: nat, index: nat)

  /** The steps of findPte that install a fresh page table in slot x of directory d. */
  function InstallTable(v: Vm, d: nat, x: nat): (v': Vm)
    requires Wf(v) && d < |v.page| && x < 1024 && v.free != []
    ensures SameShape(v, v')
  {
    var f := v.free[0];
    Store(IncRef(Fill(Pop(v), f, ZeroPage()), f), d, x, MakePte(f, PTE_P + PTE_W + PTE_U))
  }

  /** pgdir::findPte. */
  function FindPte(v: Vm, d: nat, va: Word, create: bool): (r: Res<(Vm, PteLoc)>)
    requires Wf(v) && d < |v.page|
    ensures r.Ok? ==> SameShape(v, r.value.0)
    ensures r.Ok? && r.value.1.PteAt? ==> r.value.1.table < |v.page| && r.value.1.index == Ptx(va)
  {
    var pde := v.page[d][Pdx(va)];
    if Present(pde) then
      if Frame(pde) < |v.page| then Ok((v, PteAt(Frame(pde), Ptx(va)))) else Panic
    else if !create || v.free == [] then Ok((v, NoPte))
    else Ok((InstallTable(v, d, Pdx(va)), PteAt(v.free[0], Ptx(va))))
  }

  /** It stops the kernel exactly on a present directory entry for memory that does not exist. */
  lemma FindPtePanics(v: Vm, d: nat, va: Word, create: bool)
    requires Wf(v) && d < |v.page|
    ensures var pde := v.page[d][va / 0x40_0000];
            !FindPte(v, d, va, create).Cyclic?
            && (FindPte(v, d, va, create).Panic? <==> pde % 2 == 1 && pde / 0x1000 >= |v.page|)
  {
  }

  /** pgdir::findInfo: the frame mapped at va and the location of its entry. */
  function FindInfo(v: Vm, d: nat, va: Word): (r: Res<Option<(nat, PteLoc)>>)
    requires Wf(v) && d < |v.page|
    ensures r.Ok? && r.value.Some? ==>
              r.value.value.0 < |v.page| && r.value.value.1.PteAt? && r.value.value.1.table < |v.page|
                && r.value.value.1.index == Ptx(va)
  {
    var r := FindPte(v, d, va, false);
    if !r.Ok? then r.Failed() else
    var loc := r.value.1;
    if loc.NoPte? || !Present(v.page[loc.table][loc.index]) then Ok(None)
    else
      var f := Frame(v.page[loc.table][loc.index]);
      if f < |v.page| then Ok(Some((f, loc))) else Panic
  }

  /** pgdir::remove. */
  function Remove(v: Vm, d: nat, va: Word): (r: Res<Vm>)
    requires Wf(v) && d < |v.page|
    ensures r.Ok? ==> SameShape(v, r.value)
  {
    var found := FindInfo(v, d, va);
    if !found.Ok? then found.Failed()
    else if found.value.None? then Ok(v)
    else
      var f, loc := found.value.value.0, found.value.value.1;
      var r := DecRef(v, f);
      if r.Ok? then Ok(Store(r.value, loc.table, loc.index, 0)) else r
  }

  /** pgdir::insert; the flag is false when no frame is left for a page table. */
  function Insert(v: Vm, d: nat, pp: nat, va: Word, perm: nat): (r: Res<(Vm, bool)>)
    requires Wf(v) && d < |v.page| && pp < |v.page| && perm < 0x1000
    ensures r.Ok? ==> SameShape(v, r.value.0)
  {
    var r1 := FindPte(v, d, va, true);
    if !r1.Ok? then r1.Failed() else
    var v1, loc := r1.value.0, r1.value.1;
    if loc.NoPte? then Ok((v1, false))
    else
      var v2 := IncRef(v1, pp);
      var r3 := if Present(v2.page[loc.table][loc.index]) then Remove(v2, d, va) else Ok(v2);
      if !r3.Ok? then r3.Failed() else
      Ok((Store(r3.value, loc.table, loc.index, MakePte(pp, WithPresent(perm))), true))
  }

  // Translation

  /**
   The entry that the processor finds for page (x, y) of directory d, if the page is mapped
   (section 5.2 of the 80386 Programmer's Reference Manual).
   */
  function Leaf(v: Vm, d: nat, x: nat, y: nat): Option<Word>
    requires d < |v.page| && x < 1024 && y < 1024
  {
    var pde := v.page[d][x];
    if Present(pde) && Frame(pde) < |v.page| && Present(v.page[Frame(pde)][y])
    then Some(v.page[Frame(pde)][y])
    else None
  }

  /** The entry that maps the virtual address va under directory d. */
  function Walk(v: Vm, d: nat, va: Word): Option<Word>
    requires d < |v.page|
  {
    Leaf(v, d, Pdx(va), Ptx(va))
  }
}
