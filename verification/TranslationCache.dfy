/**
 The translation cache (section 5.2.5 of the 80386 Programmer's Reference Manual): which stores to
 page tables can make a cached translation stale.

 A cache maps pages (x, y) to entries. It agrees with the tables, except perhaps on some pages, if
 all its other entries are what a walk from the loaded directory finds now.
 */
module TranslationCache {
  import opened Wrappers
  import opened Mmu
  import opened PageTables
  import opened Ownership
  import opened Translation
  import opened StaticMaps

  type Tlb = map<(nat, nat), Word>

  /** What a walk from directory c finds for a page; there is nothing outside of the tables. */
  ghost function Found(v: Vm, c: nat, p: (nat, nat)): Option<Word> {
    if c < |v.page| && p.0 < 1024 && p.1 < 1024 then Leaf(v, c, p.0, p.1) else None
  }

  ghost predicate Agrees(v: Vm, c: nat, tlb: Tlb, stale: set<(nat, nat)>) {
    forall p :: p in tlb && p !in stale ==> Found(v, c, p) == Some(tlb[p])
  }

  /** The processor may have dropped any entries, and may have cached any walk that succeeds. */
  ghost predicate MayFollow(v: Vm, c: nat, tlb: Tlb, tlb': Tlb) {
    forall p :: p in tlb' ==> (p in tlb && tlb[p] == tlb'[p]) || Found(v, c, p) == Some(tlb'[p])
  }

  lemma FollowingAgrees(v: Vm, c: nat, tlb: Tlb, tlb': Tlb, stale: set<(nat, nat)>)
    requires Agrees(v, c, tlb, stale) && MayFollow(v, c, tlb, tlb')
    ensures Agrees(v, c, tlb', stale)
  {
  }

  lemma MoreStale(v: Vm, c: nat, tlb: Tlb, stale: set<(nat, nat)>)
    requires Agrees(v, c, tlb, {})
    ensures Agrees(v, c, tlb, stale)
  {
  }

  /** From directory c, frame t is a page table of entry x at most. */
  ghost predicate OnlyAt(v: Vm, c: nat, t: nat, x: nat) {
    && c < |v.page| && t != c
    && forall i :: 0 <= i < 1024 && i != x && Present(v.page[c][i]) ==> Frame(v.page[c][i]) != t
  }

  lemma StillOnlyAt(v: Vm, v': Vm, c: nat, t: nat, x: nat)
    requires OnlyAt(v, c, t, x) && |v'.page| == |v.page| && v'.page[c] == v.page[c]
    ensures OnlyAt(v', c, t, x)
  {
  }

  /** The page table for entry x of directory d, if there is one, is seen from c at x at most. */
  ghost predicate TableApart(v: Vm, c: nat, d: nat, x: nat) {
    && c < |v.page| && d < |v.page| && x < 1024
    && (Present(v.page[d][x]) ==> OnlyAt(v, c, Frame(v.page[d][x]), x))
  }

  /** No walk from directory c passes one of the given frames. */
  ghost predicate NotInTree(v: Vm, c: nat, fs: seq<nat>) {
    && c < |v.page| && c !in fs
    && (forall i :: 0 <= i < 1024 && Present(v.page[c][i]) ==> Frame(v.page[c][i]) !in fs)
  }

  /** A new page table in directory d cannot disturb the walks from c. */
  ghost predicate CanGrow(v: Vm, c: nat, d: nat) {
    && d < |v.page| && d !in v.free && NotInTree(v, c, v.free) && (c != d ==> NotInTree(v, c, [d]))
  }

  /** A store into a table changes one page at most. */
  lemma StoreDisturbs(v: Vm, c: nat, t: nat, x: nat, y: nat, w: Word, p: (nat, nat))
    requires OnlyAt(v, c, t, x) && t < |v.page| && y < 1024 && p != (x, y)
    ensures Found(Store(v, t, y, w), c, p) == Found(v, c, p)
  {
  }

  /** After a store into a table, only the page of the stored entry can be stale. */
  lemma StoreAgrees(v: Vm, c: nat, tlb: Tlb, t: nat, x: nat, y: nat, w: Word)
    requires Agrees(v, c, tlb, {}) && OnlyAt(v, c, t, x) && t < |v.page| && y < 1024
    ensures Agrees(Store(v, t, y, w), c, tlb, {(x, y)})
  {
    forall p | p in tlb && p != (x, y)
      ensures Found(Store(v, t, y, w), c, p) == Some(tlb[p])
    {
      StoreDisturbs(v, c, t, x, y, w, p);
    }
  }

  /** Clearing a frame that is not part of the tree of c. */
  lemma FillAgrees(v: Vm, c: nat, tlb: Tlb, f: nat, pg: Page, v': Vm)
    requires Agrees(v, c, tlb, {}) && f < |v.page| && v'.page == v.page[f := pg] && OnlyAt(v, c, f, 1024)
    ensures Agrees(v', c, tlb, {}) && OnlyAt(v', c, f, 1024)
  {
    forall p | p in tlb
      ensures Found(v', c, p) == Some(tlb[p])
    {
      assert Found(v, c, p) == Some(tlb[p]);
    }
  }

  /** A cached page is never one that has no page table, so installing a zeroed one is harmless. */
  lemma InstallAgrees(v: Vm, c: nat, tlb: Tlb, d: nat, x: nat, f: nat, w: Word, v': Vm)
    requires Agrees(v, c, tlb, {}) && c < |v.page| && d < |v.page| && x < 1024 && f < |v.page| && f != d
    requires OnlyAt(v, c, f, 1024) && v.page[f] == ZeroPage() && !Present(v.page[d][x])
    requires Present(w) && Frame(w) == f && v'.page == v.page[d := v.page[d][x := w]]
    requires c != d ==> OnlyAt(v, c, d, 1024)
    ensures Agrees(v', c, tlb, {}) && OnlyAt(v', c, f, x)
  {
    forall p | p in tlb
      ensures Found(v', c, p) == Some(tlb[p])
    {
      assert Found(v, c, p) == Some(tlb[p]);
    }
  }

  /** The steps of findPte that make a page table, seen from directory c. */
  lemma GrowAgrees(v0: Vm, c: nat, d: nat, x: nat, f: nat, w: Word, v1: Vm, tlb: Tlb, tlb1: Tlb, v2: Vm, tlb2: Tlb)
    requires CanGrow(v0, c, d) && f in v0.free && f < |v0.page| && x < 1024 && !Present(v0.page[d][x])
    requires v1.page == v0.page[f := ZeroPage()] && Agrees(v1, c, tlb, {}) && MayFollow(v1, c, tlb, tlb1)
    requires Present(w) && Frame(w) == f && v2.page == v1.page[d := v1.page[d][x := w]] && MayFollow(v2, c, tlb1, tlb2)
    ensures Agrees(v2, c, tlb2, {}) && OnlyAt(v2, c, f, x)
  {
    assert d in [d];
    FollowingAgrees(v1, c, tlb, tlb1, {});
    InstallAgrees(v1, c, tlb1, d, x, f, w, v2);
    FollowingAgrees(v2, c, tlb1, tlb2, {});
  }

  /** Of the state, only the pages matter. */
  lemma FreeNotInTree(v: Vm, u: Vm, c: nat, d: nat)
    requires CanGrow(v, c, d) && u.page == v.page
    ensures NotInTree(u, c, v.free)
  {
  }

  /** Any page table of directory d can be edited without harm to the walks from c, and goes on
      being so while pages are mapped. */
  ghost predicate Editable(v: Vm, c: nat, d: nat) {
    && DirTree(v, d) && CanGrow(v, c, d)
    && (forall x :: 0 <= x < 1024 && x != UVPTX ==> TableApart(v, c, d, x))
  }

  /** The pages of a range stay out of the window in which a directory maps itself. */
  ghost predicate ClearOfSelfMap(va: Word, size: Word) {
    forall k: nat :: k * PGSIZE < size ==> Pdx((va + k * PGSIZE) % WORD_LIMIT) != UVPTX
  }

  lemma EditableAt(v: Vm, u: Vm, c: nat, d: nat, va: Word, size: Word, k: nat)
    requires Editable(v, c, d) && ClearOfSelfMap(va, size) && k * PGSIZE < size && u.page == v.page
    ensures var a := (va + k * PGSIZE) % WORD_LIMIT; Pdx(a) != UVPTX && TableApart(u, c, d, Pdx(a)) && CanGrow(v, c, d)
  {
    var a := (va + k * PGSIZE) % WORD_LIMIT;
    assert TableApart(v, c, d, Pdx(a));
  }

  lemma StillEditable(v: Vm, c: nat, d: nat, va: Word, w: Word, v': Vm)
    requires Editable(v, c, d) && Pdx(va) != UVPTX && Present(w) && MapPage(v, d, va, w) == Ok(v')
    ensures Editable(v', c, d)
  {
    var r := MapPageSteps(v, d, va, w);
    var x := Pdx(va);
    if Present(v.page[d][x]) {
      assert TableApart(v, c, d, x);
      var t := Frame(v.page[d][x]);
      assert v' == Store(v, t, Ptx(va), w);
      hide MapPage;
      SameEditable(v, c, d, v');
    } else {
      var f := v.free[0];
      assert v' == Store(InstallTable(v, d, x), f, Ptx(va), w);
      hide MapPage, Editable, DirTree, CanGrow, TableApart;
      FreshEditable(v, c, d, x, Ptx(va), w, v');
    }
  }

  lemma SameEditable(v: Vm, c: nat, d: nat, v': Vm)
    requires Editable(v, c, d) && DirTree(v', d) && v'.free == v.free && |v'.page| == |v.page|
    requires v'.page[c] == v.page[c] && v'.page[d] == v.page[d]
    ensures Editable(v', c, d)
  {
    forall x | 0 <= x < 1024 && x != UVPTX
      ensures TableApart(v', c, d, x)
    {
      assert TableApart(v, c, d, x);
    }
  }

  lemma FreshEditable(v: Vm, c: nat, d: nat, x: nat, y: nat, w: Word, v': Vm)
    requires Editable(v, c, d) && x < 1024 && y < 1024 && !Present(v.page[d][x]) && v.free != []
    requires v' == Store(InstallTable(v, d, x), v.free[0], y, w) && DirTree(v', d)
    ensures Editable(v', c, d)
  {
    var f := v.free[0];
    FreeTail(v.free);
    assert v'.free == v.free[1..];
    assert v'.page[d] == v.page[d][x := MakePte(f, PTE_P + PTE_W + PTE_U)];
    assert c != d ==> v'.page[c] == v.page[c];
    hide InstallTable, Store;
    assert CanGrow(v', c, d);
    forall z | 0 <= z < 1024 && z != UVPTX
      ensures TableApart(v', c, d, z)
    {
      assert TableApart(v, c, d, z);
    }
  }

  /** The kernel's directory owns its tables. */
  lemma KernelTree(v: Vm, role: seq<Role>, kd: nat)
    requires Inv(v, role, kd)
    ensures DirTree(v, kd)
  {
  }
}
