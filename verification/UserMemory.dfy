/** Bytes of memory seen through a directory, and the kernel's byte-by-byte copy into a task. */
module UserMemory {
  import opened Wrappers
  import opened Mmu
  import opened PageTables
  import opened Ownership
  import opened Translation
  import opened OwnershipSteps
  import opened RadixTree
  import opened Isolation
  import opened RegionSteps

  // Little-endian bytes of a word

  function ByteOf(w: Word, k: nat): Byte
    requires k < 4
  {
    if k == 0 then w % 0x100
    else if k == 1 then w / 0x100 % 0x100
    else if k == 2 then w / 0x1_0000 % 0x100
    else w / 0x100_0000
  }

  function WordOf(b0: Byte, b1: Byte, b2: Byte, b3: Byte): Word {
    b0 + 0x100 * b1 + 0x1_0000 * b2 + 0x100_0000 * b3
  }

  lemma WordBytes(b0: Byte, b1: Byte, b2: Byte, b3: Byte)
    ensures var w := WordOf(b0, b1, b2, b3);
            ByteOf(w, 0) == b0 && ByteOf(w, 1) == b1 && ByteOf(w, 2) == b2 && ByteOf(w, 3) == b3
  {
    var w := WordOf(b0, b1, b2, b3);
    assert w == b0 + 0x100 * (b1 + 0x100 * b2 + 0x1_0000 * b3);
    assert w / 0x100 == b1 + 0x100 * (b2 + 0x100 * b3);
    assert w / 0x1_0000 == b2 + 0x100 * b3;
  }

  function SetByte(w: Word, k: nat, b: Byte): Word
    requires k < 4
  {
    WordOf(if k == 0 then b else ByteOf(w, 0), if k == 1 then b else ByteOf(w, 1),
           if k == 2 then b else ByteOf(w, 2), if k == 3 then b else ByteOf(w, 3))
  }

  lemma SetByteBytes(w: Word, k: nat, b: Byte, l: nat)
    requires k < 4 && l < 4
    ensures ByteOf(SetByte(w, k, b), l) == if l == k then b else ByteOf(w, l)
  {
    WordBytes(if k == 0 then b else ByteOf(w, 0), if k == 1 then b else ByteOf(w, 1),
              if k == 2 then b else ByteOf(w, 2), if k == 3 then b else ByteOf(w, 3));
  }

  function PageByte(p: Page, o: nat): Byte
    requires o < 0x1000
  {
    ByteOf(p[o / 4], o % 4)
  }

  function SetPageByte(p: Page, o: nat, b: Byte): Page
    requires o < 0x1000
  {
    p[o / 4 := SetByte(p[o / 4], o % 4, b)]
  }

  lemma SetPageByteBytes(p: Page, o: nat, b: Byte, q: nat)
    requires o < 0x1000 && q < 0x1000
    ensures PageByte(SetPageByte(p, o, b), q) == if q == o then b else PageByte(p, q)
  {
    if q / 4 == o / 4 {
      SetByteBytes(p[o / 4], o % 4, b, q % 4);
    }
  }

  /** The words of a page are its bytes in fours, the lowest first. */
  lemma PageWords(p: Page, k: nat)
    requires k < 1024
    ensures p[k] == PageByte(p, 4 * k) + 0x100 * PageByte(p, 4 * k + 1) + 0x1_0000 * PageByte(p, 4 * k + 2) +
                    0x100_0000 * PageByte(p, 4 * k + 3)
  {
    hide ByteOf;
    LowestFirst(p[k]);
  }

  /** The byte that a load from address a under directory d returns. */
  function Read(v: Vm, d: nat, a: Word): Option<Byte>
    requires d < |v.page|
  {
    var e := Walk(v, d, a);
    if e.Some? && Frame(e.value) < |v.page| then Some(PageByte(v.page[Frame(e.value)], Pgoff(a))) else None
  }

  /** Both bytes of character i of a string of 16-bit characters at va are mapped. */
  predicate CharMapped(v: Vm, d: nat, va: Word, i: nat)
    requires d < |v.page|
  {
    Walk(v, d, (va + 2 * i) % WORD_LIMIT).Some? && Walk(v, d, (va + 2 * i + 1) % WORD_LIMIT).Some?
  }

  /** The kernel can read the whole string; otherwise it faults, which is a panic. */
  predicate Readable(v: Vm, d: nat, va: Word, count: nat)
    requires d < |v.page|
  {
    forall i: nat :: i < count ==> CharMapped(v, d, va, i)
  }

  /** That is, each of the 2 * count bytes from va on, around the end of the address space, is mapped. */
  lemma ReadableIff(v: Vm, d: nat, va: Word, count: nat)
    requires d < |v.page|
    ensures Readable(v, d, va, count) <==>
              forall a: Word :: (a - va) % 0x1_0000_0000 < 2 * count ==> Walk(v, d, a).Some?
  {
    hide Walk;
    if Readable(v, d, va, count) {
      forall a: Word | (a - va) % 0x1_0000_0000 < 2 * count
        ensures Walk(v, d, a).Some?
      {
        var i := (a - va) % 0x1_0000_0000 / 2;
        CharBytes(va, a);
        assert CharMapped(v, d, va, i);
      }
    }
    if forall a: Word :: (a - va) % 0x1_0000_0000 < 2 * count ==> Walk(v, d, a).Some? {
      forall i: nat | i < count
        ensures CharMapped(v, d, va, i)
      {
        Distance(va, 2 * i);
        Distance(va, 2 * i + 1);
      }
    }
  }

  /** Address a is one of the two bytes of its character. */
  lemma CharBytes(va: Word, a: Word)
    ensures var i := (a - va) % 0x1_0000_0000 / 2;
            a == (va + 2 * i) % WORD_LIMIT || a == (va + 2 * i + 1) % WORD_LIMIT
  {
    var o := (a - va) % 0x1_0000_0000;
    assert o == 2 * (o / 2) || o == 2 * (o / 2) + 1;
    assert (va + o) % WORD_LIMIT == a;
  }

  lemma Distance(va: Word, o: nat)
    ensures ((va + o) % WORD_LIMIT - va) % 0x1_0000_0000 <= o
  {
    var q, r := (va + o) / WORD_LIMIT, (va + o) % WORD_LIMIT;
    assert r - va == o - q * WORD_LIMIT;
    ModTimes(o, q);
  }

  lemma ModTimes(o: nat, q: nat)
    ensures (o - q * 0x1_0000_0000) % 0x1_0000_0000 == o % 0x1_0000_0000 <= o
  {
  }

  /** A byte stored by the kernel; CR0.WP makes it respect read-only pages, and a fault in the
      kernel is a panic. */
  function StoreByte(v: Vm, d: nat, a: Word, b: Byte): (r: Res<Vm>)
    requires Wf(v) && d < |v.page|
    ensures r.Ok? ==> SameShape(v, r.value)
  {
    var e := Walk(v, d, a);
    if e.None? || !Writable(e.value) || Frame(e.value) >= |v.page| then Panic
    else
      var g := Frame(e.value);
      Ok(Fill(v, g, SetPageByte(v.page[g], Pgoff(a), b)))
  }

  /** mem::copy of the bytes s[k..] to address a + k under directory d. */
  function CopyOut(v: Vm, d: nat, a: Word, s: seq<Byte>, k: nat): (r: Res<Vm>)
    requires Wf(v) && d < |v.page| && k <= |s|
    ensures r.Ok? ==> SameShape(v, r.value)
    decreases |s| - k
  {
    if k == |s| then Ok(v)
    else
      var r := StoreByte(v, d, (a + k) % WORD_LIMIT, s[k]);
      if r.Ok? then CopyOut(r.value, d, a, s, k + 1) else r
  }

  lemma UnfoldCopyOut(v: Vm, d: nat, a: Word, s: seq<Byte>, k: nat)
    requires Wf(v) && d < |v.page| && k <= |s|
    ensures k == |s| ==> CopyOut(v, d, a, s, k) == Ok(v)
    ensures k < |s| ==>
              var r := StoreByte(v, d, (a + k) % WORD_LIMIT, s[k]);
              CopyOut(v, d, a, s, k) == if r.Ok? then CopyOut(r.value, d, a, s, k + 1) else r
  {
    hide StoreByte;
  }

  // Writing data frames

  /** Writing into a data frame touches neither tables nor counts. */
  lemma DataWriteKeepsInv(v: Vm, role: seq<Role>, kd: nat, g: nat, p: Page)
    requires Inv(v, role, kd) && g < |role| && role[g].Data?
    ensures Inv(Fill(v, g, p), role, kd)
    ensures forall c: nat, i: nat, j: nat :: IsDir(role, kd, c) && i < UTOPX && j < 1024 ==>
        Leaf(Fill(v, g, p), c, i, j) == Leaf(v, c, i, j)
  {
    var v' := Fill(v, g, p);
    DataWriteLeaves(v, role, kd, g, p);
    forall h | 0 <= h < |role|
      ensures Mappings(v', role, h) == Mappings(v, role, h)
    {
      SameMappings(v, role, v', role, h);
    }
    hide Leaf, Mappings;
  }

  lemma DataWriteLeaves(v: Vm, role: seq<Role>, kd: nat, g: nat, p: Page)
    requires Inv(v, role, kd) && g < |role| && role[g].Data?
    ensures forall c: nat, i: nat, j: nat :: IsDir(role, kd, c) && i < 1024 && j < 1024 ==>
        Leaf(Fill(v, g, p), c, i, j) == Leaf(v, c, i, j)
  {
    forall c: nat, i: nat, j: nat | IsDir(role, kd, c) && i < 1024 && j < 1024
      ensures Leaf(Fill(v, g, p), c, i, j) == Leaf(v, c, i, j)
    {
      if Present(v.page[c][i]) {
        Target(v, role, kd, c, i);
      }
    }
  }

  /** The first byte of a word is its lowest one. */
  lemma LowestFirst(w: Word)
    ensures w == ByteOf(w, 0) + 0x100 * ByteOf(w, 1) + 0x1_0000 * ByteOf(w, 2) + 0x100_0000 * ByteOf(w, 3)
  {
    var a, b := w / 0x1_0000, w % 0x1_0000;
    assert w == 0x1_0000 * a + b;
    LowHalf(a, b);
    HighHalf(a, b);
  }

  lemma LowHalf(a: nat, b: nat)
    requires b < 0x1_0000
    ensures var w := 0x1_0000 * a + b; b == w % 0x100 + 0x100 * (w / 0x100 % 0x100)
  {
    assert (0x1_0000 * a + b) / 0x100 == 0x100 * a + b / 0x100;
  }

  lemma HighHalf(a: nat, b: nat)
    requires b < 0x1_0000 && a < 0x1_0000
    ensures var w := 0x1_0000 * a + b; a == w / 0x1_0000 % 0x100 + 0x100 * (w / 0x100_0000)
  {
    assert (0x1_0000 * a + b) / 0x1_0000 == a;
    assert (0x1_0000 * a + b) / 0x100_0000 == a / 0x100;
  }

  /** A store of the kernel faults exactly on a page that is not mapped, not writable, or outside of memory; otherwise
      the byte reads back, and with it every address on the same frame. */
  lemma StoreByteIff(v: Vm, d: nat, a: Word, b: Byte)
    requires Wf(v) && d < |v.page|
    ensures StoreByte(v, d, a, b).Ok? <==>
              Walk(v, d, a).Some? && Walk(v, d, a).value / 2 % 2 == 1 && Walk(v, d, a).value / 0x1000 < |v.page|
    ensures !StoreByte(v, d, a, b).Ok? ==> StoreByte(v, d, a, b) == Panic
    ensures StoreByte(v, d, a, b).Ok? ==>
              var v', g := StoreByte(v, d, a, b).value, Frame(Walk(v, d, a).value);
              && v'.free == v.free && v'.rc == v.rc && (forall h :: 0 <= h < |v.page| && h != g ==>
                v'.page[h] == v.page[h])
              && forall o: nat :: o < 0x1000 ==>
                   PageByte(v'.page[g], o) == if o == a % 0x1000 then b else PageByte(v.page[g], o)
  {
    hide Walk;
    if StoreByte(v, d, a, b).Ok? {
      var g := Frame(Walk(v, d, a).value);
      forall o: nat | o < 0x1000
        ensures PageByte(SetPageByte(v.page[g], Pgoff(a), b), o) == if o == Pgoff(a) then b else PageByte(v.page[g], o)
      {
        SetPageByteBytes(v.page[g], Pgoff(a), b, o);
      }
    }
  }
}
