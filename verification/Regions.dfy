/** What a task reads from its memory after regionAlloc and after the kernel copied bytes into it. */
module Regions {
  import opened Wrappers
  import opened Mmu
  import opened PageTables
  import opened Ownership
  import opened Translation
  import opened OwnershipSteps
  import opened RadixTree
  import opened Isolation
  import opened AddressSpaces
  import opened RegionSteps
  import opened UserMemory

  /** d is a live task directory whose pages below UTOP are its own. */
  ghost predicate OwnSpace(v: Vm, role: seq<Role>, kd: nat, d: nat) {
    Inv(v, role, kd) && d < |role| && role[d].Dir? && OwnPages(v, d)
  }

  lemma AllocPageRead(v: Vm, role: seq<Role>, kd: nat, d: nat, va: Word, v': Vm, f: nat, a: Word)
    requires Inv(v, role, kd) && UserPage(role, d, va) && AllocPageWrites(v, role, kd, d, va, v', f) && a < UTOP
    ensures Read(v', d, a) == if Pgnum(a) == Pgnum(va) then Some(0) else Read(v, d, a)
  {
    SamePage(a, va);
    LayoutIndexes();
    if Pgnum(a) != Pgnum(va) {
      assert Leaf(v', d, Pdx(a), Ptx(a)) == Leaf(v, d, Pdx(a), Ptx(a));
      if Walk(v, d, a).Some? {
        DataIsMapped(v, role, kd, d, Pdx(a), Ptx(a), Frame(Walk(v, d, a).value));
      }
    }
  }

  /** From v to v', the pages numbered from p up to q of directory d became mapped and read as
      zero; below UTOP the others are as before. */
  ghost predicate Zeroed(v: Vm, d: nat, v': Vm, p: nat, q: nat) {
    && d < |v.page| == |v'.page|
    && (forall a: Word :: a < UTOP ==> Read(v', d, a) == if p <= Pgnum(a) < q then Some(0) else Read(v, d, a))
    && (forall a: Word :: a < UTOP ==> (Walk(v', d, a).Some? <==> Walk(v, d, a).Some? || p <= Pgnum(a) < q))
  }

  /** The loop of regionAlloc either runs out of frames, which is a panic, or zeroes the range. */
  lemma {:induction false} AllocPagesSteps(v: Vm, role: seq<Role>, kd: nat, d: nat, p: nat, q: nat)
    returns (r: Res<Vm>, role': seq<Role>)
    requires OwnSpace(v, role, kd, d) && q <= Pgnum(UTOP)
    ensures AllocPages(v, d, p, q) == r && !r.Cyclic?
    ensures r.Ok? ==>
              && OwnSpace(r.value, role', kd, d) && Isolated(v, role, kd, r.value, role', d) && role'[d] == role[d]
              && Zeroed(v, d, r.value, p, q)
    decreases q - p
  {
    if p >= q {
      r, role' := Ok(v), role;
      IsolatedRefl(v, role, kd, d);
      hide Inv, Isolated, OwnPages, Read, Walk;
    } else {
      var va := p * PGSIZE;
      PgnumOfPage(p, 0);
      AllocPageOkIff(v, role, kd, d, va);
      if AllocPage(v, d, va).Panic? {
        r, role' := Panic, role;
      } else {
        var v1 := AllocPage(v, d, va).value;
        hide Isolated, OwnPages, Inv, AllocPage, AllocPageWrites, Zeroed;
        var role1, f := AllocPageSteps(v, role, kd, d, va, v1);
        AllocPageKeepsOwn(v, role, kd, d, va, v1, role1, f);
        IsolatedSize(v, role, kd, v1, role1, d);
        r, role' := AllocPagesSteps(v1, role1, kd, d, p + 1, q);
        if r.Ok? {
          IsolatedTrans(v, role, kd, v1, role1, r.value, role', d);
          ZeroedExtend(v, role, kd, d, p, q, v1, f, r.value);
        }
      }
    }
  }

  lemma ZeroedExtend(v: Vm, role: seq<Role>, kd: nat, d: nat, p: nat, q: nat, v1: Vm, f: nat, v': Vm)
    requires Inv(v, role, kd) && p < q <= Pgnum(UTOP) && UserPage(role, d, p * PGSIZE)
    requires AllocPageWrites(v, role, kd, d, p * PGSIZE, v1, f) && Zeroed(v1, d, v', p + 1, q)
    ensures Zeroed(v, d, v', p, q)
  {
    PgnumOfPage(p, 0);
    hide Inv, Read, Walk, Pgnum;
    forall a: Word | a < UTOP
      ensures Read(v', d, a) == if p <= Pgnum(a) < q then Some(0) else Read(v, d, a)
      ensures Walk(v', d, a).Some? <==> Walk(v, d, a).Some? || p <= Pgnum(a) < q
    {
      AllocPageRead(v, role, kd, d, p * PGSIZE, v1, f, a);
      AllocPageWalk(v, role, kd, d, p * PGSIZE, v1, f, a);
    }
  }

  lemma IsolatedSize(v: Vm, role: seq<Role>, kd: nat, v': Vm, role': seq<Role>, d: nat)
    requires Isolated(v, role, kd, v', role', d)
    ensures |role'| == |role| == |v'.page| == |v.page|
  {
  }

  lemma AllocPageWalk(v: Vm, role: seq<Role>, kd: nat, d: nat, va: Word, v': Vm, f: nat, a: Word)
    requires AllocPageWrites(v, role, kd, d, va, v', f) && va < UTOP && a < UTOP
    ensures Walk(v', d, a).Some? <==> Walk(v, d, a).Some? || Pgnum(a) == Pgnum(va)
  {
    SamePage(a, va);
    LayoutIndexes();
  }

  /** The pages that regionAlloc covers. */
  function RegionLo(va: Word): nat {
    Pgnum(RoundDown(va, PGSIZE))
  }

  function RegionHi(va: Word, len: Word): nat {
    Pgnum(RoundUp(Add32(va, len), PGSIZE))
  }

  /** A region below UTOP: the request does not wrap around and ends at or below UTOP. */
  predicate BelowUtop(va: Word, len: Word) {
    va + len <= UTOP
  }

  /** The pages of such a region are exactly the pages that hold one of its bytes. */
  lemma RegionPages(va: Word, len: Word, a: Word)
    requires BelowUtop(va, len) && len > 0
    ensures RegionLo(va) == Pgnum(va) && RegionHi(va, len) <= Pgnum(UTOP)
    ensures RegionLo(va) < RegionHi(va, len) && RegionHi(va, len) == Pgnum(va + len - 1) + 1
    ensures va <= a < va + len ==> RegionLo(va) <= Pgnum(a) < RegionHi(va, len)
  {
    var e := va + len;
    assert Add32(va, len) == e;
    hide Add32;
    RoundDownPage(va);
    RoundUpPage(e);
    PgnumMonotone(va, e - 1);
    PgnumMonotone(e - 1, UTOP - 1);
    if va <= a < e {
      PgnumMonotone(va, a);
      PgnumMonotone(a, e - 1);
    }
    hide RoundDown, RoundUp;
  }

  /** regionAlloc below UTOP: either memory runs out, or the pages of the region read as zero,
      nothing else in the task changes, and no other address space changes. */
  lemma RegionAllocSteps(v: Vm, role: seq<Role>, kd: nat, d: nat, va: Word, len: Word)
    returns (r: Res<Vm>, role': seq<Role>)
    requires OwnSpace(v, role, kd, d) && BelowUtop(va, len) && len > 0
    ensures RegionAlloc(v, d, va, len) == r && !r.Cyclic?
    ensures r.Ok? ==>
              && OwnSpace(r.value, role', kd, d) && Isolated(v, role, kd, r.value, role', d) && role'[d] == role[d]
              && Zeroed(v, d, r.value, RegionLo(va), RegionHi(va, len))
  {
    RegionPages(va, len, va);
    r, role' := AllocPagesSteps(v, role, kd, d, RegionLo(va), RegionHi(va, len));
  }

  // Copying bytes into the task

  lemma StoreByteSteps(v: Vm, role: seq<Role>, kd: nat, d: nat, a: Word, b: Byte) returns (v': Vm)
    requires OwnSpace(v, role, kd, d) && a < UTOP && Walk(v, d, a).Some?
    ensures StoreByte(v, d, a, b) == Ok(v')
    ensures OwnSpace(v', role, kd, d) && Isolated(v, role, kd, v', role, d)
    ensures forall c: Word :: c < UTOP ==> Walk(v', d, c) == Walk(v, d, c)
    ensures forall c: Word :: c < UTOP ==> Read(v', d, c) == if c == a then Some(b) else Read(v, d, c)
  {
    LayoutIndexes();
    var g := Frame(Walk(v, d, a).value);
    DataIsMapped(v, role, kd, d, Pdx(a), Ptx(a), g);
    assert Writable(Walk(v, d, a).value);
    var p := SetPageByte(v.page[g], Pgoff(a), b);
    v' := Fill(v, g, p);
    DataWriteKeepsInv(v, role, kd, g, p);
    DataWriteLeaves(v, role, kd, g, p);
    StoreByteIsolated(v, role, kd, d, a, g, v');
    hide Inv, Isolated;
    assert forall c: Word :: c < UTOP ==> Walk(v', d, c) == Walk(v, d, c);
    forall c: Word | c < UTOP
      ensures Read(v', d, c) == if c == a then Some(b) else Read(v, d, c)
    {
      StoreByteRead(v, role, kd, d, a, b, g, v', c);
    }
  }

  lemma StoreByteRead(v: Vm, role: seq<Role>, kd: nat, d: nat, a: Word, b: Byte, g: nat, v': Vm, c: Word)
    requires OwnSpace(v, role, kd, d) && a < UTOP && c < UTOP && Maps(v, d, Pdx(a), Ptx(a), g) && g < |role|
        && role[g].Data?
    requires v' == Fill(v, g, SetPageByte(v.page[g], Pgoff(a), b)) && Walk(v', d, c) == Walk(v, d, c)
    ensures Read(v', d, c) == if c == a then Some(b) else Read(v, d, c)
  {
    LayoutIndexes();
    if Walk(v, d, c).Some? && Frame(Walk(v, d, c).value) == g {
      OneMapping(v, role, kd, d, Pdx(a), Ptx(a), g, Pdx(c), Ptx(c));
      PgaddrOfFields(a);
      PgaddrOfFields(c);
      SetPageByteBytes(v.page[g], Pgoff(a), b, Pgoff(c));
    }
  }

  lemma StoreByteIsolated(v: Vm, role: seq<Role>, kd: nat, d: nat, a: Word, g: nat, v': Vm)
    requires OwnSpace(v, role, kd, d) && a < UTOP && Maps(v, d, Pdx(a), Ptx(a), g) && g < |role| && role[g].Data?
    requires |v'.page| == |v.page| && forall h :: 0 <= h < |role| && h != g ==> v'.page[h] == v.page[h]
    requires forall c: nat, i: nat, j: nat :: IsDir(role, kd, c) && i < 1024 && j < 1024 ==>
        Leaf(v', c, i, j) == Leaf(v, c, i, j)
    ensures Isolated(v, role, kd, v', role, d)
  {
    LayoutIndexes();
    forall c: nat, i: nat, j: nat, h: nat |
      c < |role| && c != d && role[c].Dir? && i < UTOPX && j < 1024 && h < |role| && Maps(v, c, i, j, h)
      ensures v'.page[h] == v.page[h]
    {
      if h == g {
        var x, y := Slot(d, Pdx(a), Ptx(a)), Slot(c, i, j);
        assert {x, y} <= Mappings(v, role, g) && |{x, y}| == 2;
        SubsetSize({x, y}, Mappings(v, role, g));
        assert false;
      }
    }
  }

  /** From v to v', the bytes of s from k on were written at a + k; nothing else changed. */
  ghost predicate Copied(v: Vm, d: nat, v': Vm, a: Word, s: seq<Byte>, k: nat) {
    && d < |v.page| == |v'.page|
    && (forall c: Word :: c < UTOP ==> Walk(v', d, c) == Walk(v, d, c))
    && (forall c: Word :: c < UTOP ==> Read(v', d, c) == if a + k <= c < a + |s| then Some(s[c - a]) else Read(v, d, c))
  }

  /** Copying s to a mapped range of the task writes exactly these bytes. */
  lemma {:induction false} CopyOutSteps(v: Vm, role: seq<Role>, kd: nat, d: nat, a: Word, s: seq<Byte>, k: nat)
    returns (v': Vm)
    requires OwnSpace(v, role, kd, d) && k <= |s| && a + |s| <= UTOP
    requires forall c: Word :: a + k <= c < a + |s| ==> Walk(v, d, c).Some?
    ensures CopyOut(v, d, a, s, k) == Ok(v')
    ensures OwnSpace(v', role, kd, d) && Isolated(v, role, kd, v', role, d)
    ensures Copied(v, d, v', a, s, k)
    decreases |s| - k
  {
    hide Inv, Isolated, OwnPages, Read, Walk, CopyOut, StoreByte, Wf;
    OwnSpaceShape(v, role, kd, d);
    UnfoldCopyOut(v, d, a, s, k);
    if k == |s| {
      v' := v;
      IsolatedRefl(v, role, kd, d);
    } else {
      hide Copied;
      assert (a + k) % WORD_LIMIT == a + k;
      var v1 := StoreByteSteps(v, role, kd, d, a + k, s[k]);
      v' := CopyOutSteps(v1, role, kd, d, a, s, k + 1);
      IsolatedTrans(v, role, kd, v1, role, v', role, d);
      CopiedExtend(v, d, v1, v', a, s, k);
    }
  }

  lemma OwnSpaceShape(v: Vm, role: seq<Role>, kd: nat, d: nat)
    requires OwnSpace(v, role, kd, d)
    ensures Wf(v) && d < |v.page|
  {
  }

  lemma CopiedExtend(v: Vm, d: nat, v1: Vm, v': Vm, a: Word, s: seq<Byte>, k: nat)
    requires k < |s| && a + |s| <= UTOP && d < |v.page| == |v1.page|
    requires forall c: Word :: c < UTOP ==> Walk(v1, d, c) == Walk(v, d, c)
    requires forall c: Word :: c < UTOP ==> Read(v1, d, c) == if c == a + k then Some(s[k]) else Read(v, d, c)
    requires Copied(v1, d, v', a, s, k + 1)
    ensures Copied(v, d, v', a, s, k)
  {
    hide Read, Walk;
  }

  // Which requests regionAlloc accepts

  /**
   The bounds are computed in 32 bits, so "bad va" is not only for empty requests: a request that ends in the last
   page or wraps around is refused too, unless it wraps around into the page where it starts, in which case this
   one page is allocated.
   */
  lemma RegionRange(v: Vm, d: nat, va: Word, len: Word)
    requires Wf(v) && d < |v.page|
    ensures var e := va + len;
            RegionAlloc(v, d, va, len) ==
              if e <= 0xFFFF_F000 then
                (if len == 0 && va % 0x1000 == 0 then Panic else AllocPages(v, d, va / 0x1000, (e + 0xFFF) / 0x1000))
              else if e > 0x1_0000_0000 && (e - 0x1_0000_0000) / 0x1000 == va / 0x1000 && e % 0x1000 != 0
                && va < 0xFFFF_F000
              then AllocPages(v, d, va / 0x1000, va / 0x1000 + 1)
              else Panic
  {
    hide AllocPages, RoundDown, RoundUp, Add32;
    RegionBounds(va, len);
    PgnumOfPage(va / 0x1000, 0);
  }

  /** The bounds that it computes. */
  lemma RegionBounds(va: Word, len: Word)
    ensures RoundDown(va, PGSIZE) == va / 0x1000 * 0x1000
    ensures var e, hi := va + len, RoundUp(Add32(va, len), PGSIZE);
            && (e <= 0xFFFF_F000 ==> hi == (e + 0xFFF) / 0x1000 * 0x1000 && Pgnum(hi) == (e + 0xFFF) / 0x1000)
            && (0xFFFF_F000 < e <= 0x1_0000_0000 ==> hi == 0)
            && (e > 0x1_0000_0000 ==>
                  hi == if e - 0x1_0000_0000 > 0xFFFF_F000 then 0 else (e - 0x1_0000_0000 + 0xFFF) / 0x1000 * 0x1000)
  {
    hide RoundDown, RoundUp, Add32, Pgnum;
    RoundedStart(va);
    var e := va + len;
    WrapOnce(va, len);
    RoundedEnd(if e < 0x1_0000_0000 then e else e - 0x1_0000_0000);
  }

  lemma RoundedStart(va: Word)
    ensures RoundDown(va, PGSIZE) == va / 0x1000 * 0x1000
  {
    RoundPages(va);
  }

  lemma WrapOnce(a: Word, b: Word)
    ensures Add32(a, b) == if a + b < 0x1_0000_0000 then a + b else a + b - 0x1_0000_0000
  {
  }

  lemma RoundedEnd(x: Word)
    ensures RoundUp(x, PGSIZE) == if x > 0xFFFF_F000 then 0 else (x + 0xFFF) / 0x1000 * 0x1000
    ensures x <= 0xFFFF_F000 ==> Pgnum((x + 0xFFF) / 0x1000 * 0x1000) == (x + 0xFFF) / 0x1000
  {
    RoundPages(x);
    hide RoundUp;
    EndPage(x);
  }

  lemma EndPage(x: Word)
    ensures (x + 0xFFF) / 0x1000 == if Pgoff(x) == 0 then Pgnum(x) else Pgnum(x) + 1
    ensures x <= 0xFFFF_F000 ==> Pgnum((x + 0xFFF) / 0x1000 * 0x1000) == (x + 0xFFF) / 0x1000
  {
    var q, r := x / 0x1000, x % 0x1000;
    assert x == q * 0x1000 + r;
  }
}
