/**
 Task::loadElf (kernel/task.cc): what a task reads from its memory once its program is loaded.
 Program headers are given decoded.
 */
module ElfLoader {
  import opened Wrappers
  import opened Mmu
  import opened PageTables
  import opened Ownership
  import opened Isolation
  import opened AddressSpaces
  import opened RegionSteps
  import opened UserMemory
  import opened Regions

  const ELF_MAGIC: Word := 0x464C_457F
  const ELF_PROG_LOAD: Word := 1

  datatype Segment = Segment(kind: Word, offset: Word, va: Word, filesz: Word, memsz: Word)

  datatype Elf = Elf(magic: Word, entry: Word, segs: seq<Segment>, file: seq<Byte>)

  predicate Loadable(s: Segment) {
    s.kind == ELF_PROG_LOAD && s.memsz != 0
  }

  /** The file holds the bytes that its loadable segments announce. */
  ghost predicate Complete(elf: Elf) {
    forall i :: 0 <= i < |elf.segs| && Loadable(elf.segs[i]) ==> elf.segs[i].offset + elf.segs[i].filesz <= |elf.file|
  }

  function FileBytes(elf: Elf, s: Segment): (b: seq<Byte>)
    requires s.offset + s.filesz <= |elf.file|
    ensures |b| == s.filesz
  {
    elf.file[s.offset..s.offset + s.filesz]
  }

  /** One iteration of the loop over program headers. */
  function LoadSegment(v: Vm, d: nat, elf: Elf, s: Segment): (r: Res<Vm>)
    requires Wf(v) && d < |v.page| && (Loadable(s) ==> s.offset + s.filesz <= |elf.file|)
    ensures r.Ok? ==> SameShape(v, r.value)
  {
    if !Loadable(s) then Ok(v)
    else
      var r := RegionAlloc(v, d, s.va, s.memsz);
      if r.Ok? then CopyOut(r.value, d, s.va, FileBytes(elf, s), 0) else r
  }

  function LoadSegments(v: Vm, d: nat, elf: Elf, k: nat): (r: Res<Vm>)
    requires Wf(v) && d < |v.page| && k <= |elf.segs| && Complete(elf)
    ensures r.Ok? ==> SameShape(v, r.value)
    decreases |elf.segs| - k
  {
    if k == |elf.segs| then Ok(v)
    else
      var r := LoadSegment(v, d, elf, elf.segs[k]);
      if r.Ok? then LoadSegments(r.value, d, elf, k + 1) else r
  }

  /** Task::loadElf, as far as memory is concerned. */
  function LoadElf(v: Vm, d: nat, elf: Elf): (r: Res<Vm>)
    requires Wf(v) && d < |v.page| && Complete(elf)
    ensures r.Ok? ==> SameShape(v, r.value)
  {
    if elf.magic != ELF_MAGIC then Panic
    else
      var r := LoadSegments(v, d, elf, 0);
      if r.Ok? then RegionAlloc(r.value, d, USTACKTOP - PGSIZE, PGSIZE) else r
  }

  lemma UnfoldLoadSegments(v: Vm, d: nat, elf: Elf, k: nat)
    requires Wf(v) && d < |v.page| && k <= |elf.segs| && Complete(elf)
    ensures k == |elf.segs| ==> LoadSegments(v, d, elf, k) == Ok(v)
    ensures k < |elf.segs| ==>
              && (Loadable(elf.segs[k]) ==> elf.segs[k].offset + elf.segs[k].filesz <= |elf.file|)
              && var r := LoadSegment(v, d, elf, elf.segs[k]);
                 LoadSegments(v, d, elf, k) == if r.Ok? then LoadSegments(r.value, d, elf, k + 1) else r
  {
    hide LoadSegment;
  }

  // The image that the program headers describe

  /** Segments below UTOP with no more bytes in the file than in memory. */
  ghost predicate WellFormed(elf: Elf) {
    && Complete(elf)
    && forall i :: 0 <= i < |elf.segs| && Loadable(elf.segs[i]) ==>
         elf.segs[i].filesz <= elf.segs[i].memsz && BelowUtop(elf.segs[i].va, elf.segs[i].memsz)
  }

  /** Segment s occupies the page of address a. */
  predicate Covers(s: Segment, a: Word) {
    Loadable(s) && RegionLo(s.va) <= Pgnum(a) < RegionHi(s.va, s.memsz)
  }

  /** The byte of segment s for address a: from the file, or zero. */
  function SegmentByte(elf: Elf, s: Segment, a: Word): Byte
    requires s.offset + s.filesz <= |elf.file|
  {
    if s.va <= a < s.va + s.filesz then elf.file[s.offset + (a - s.va)] else 0
  }

  /** The byte at a that the segments from k on determine: the last one that occupies a's page. */
  function ImageByte(elf: Elf, k: nat, a: Word): Option<Byte>
    requires k <= |elf.segs| && Complete(elf)
    decreases |elf.segs| - k
  {
    if k == |elf.segs| then None
    else
      var later := ImageByte(elf, k + 1, a);
      if later.Some? then later
      else if Covers(elf.segs[k], a) then Some(SegmentByte(elf, elf.segs[k], a))
      else None
  }

  /** From v to v', the segments from k on were loaded into directory d. */
  ghost predicate Loaded(v: Vm, d: nat, v': Vm, elf: Elf, k: nat)
    requires k <= |elf.segs| && Complete(elf)
  {
    && d < |v.page| == |v'.page|
    && forall a: Word :: a < UTOP ==>
         Read(v', d, a) == if ImageByte(elf, k, a).Some? then ImageByte(elf, k, a) else Read(v, d, a)
  }

  /** Loading one segment replaces the pages it occupies by its bytes. */
  lemma LoadSegmentSteps(v: Vm, role: seq<Role>, kd: nat, d: nat, elf: Elf, k: nat)
    returns (r: Res<Vm>, role': seq<Role>)
    requires OwnSpace(v, role, kd, d) && WellFormed(elf) && k < |elf.segs|
    ensures LoadSegment(v, d, elf, elf.segs[k]) == r && !r.Cyclic?
    ensures r.Ok? ==>
              && OwnSpace(r.value, role', kd, d) && Isolated(v, role, kd, r.value, role', d) && role'[d] == role[d]
              && forall a: Word :: a < UTOP ==>
                   Read(r.value, d, a) == if Covers(elf.segs[k], a) then Some(SegmentByte(elf, elf.segs[k], a))
                     else Read(v, d, a)
  {
    var s := elf.segs[k];
    if !Loadable(s) {
      r, role' := Ok(v), role;
      IsolatedRefl(v, role, kd, d);
      hide Inv, Isolated, OwnPages, Read;
    } else {
      r, role' := RegionAllocSteps(v, role, kd, d, s.va, s.memsz);
      if r.Ok? {
        hide Inv, Isolated, OwnPages, RegionAlloc, Read, Walk, RegionLo, RegionHi;
        var v1, b := r.value, FileBytes(elf, s);
        forall c: Word | s.va <= c < s.va + |b|
          ensures Walk(v1, d, c).Some?
        {
          RegionPages(s.va, s.memsz, c);
        }
        var v2 := CopyOutSteps(v1, role', kd, d, s.va, b, 0);
        r := Ok(v2);
        IsolatedTrans(v, role, kd, v1, role', v2, role', d);
        SegmentRead(v, d, v1, v2, elf, s);
      }
    }
  }

  lemma SegmentRead(v: Vm, d: nat, v1: Vm, v2: Vm, elf: Elf, s: Segment)
    requires Loadable(s) && s.offset + s.filesz <= |elf.file| && s.filesz <= s.memsz && BelowUtop(s.va, s.memsz)
    requires Zeroed(v, d, v1, RegionLo(s.va), RegionHi(s.va, s.memsz)) && Copied(v1, d, v2, s.va, FileBytes(elf, s), 0)
    ensures forall a: Word :: a < UTOP ==>
              Read(v2, d, a) == if Covers(s, a) then Some(SegmentByte(elf, s, a)) else Read(v, d, a)
  {
    hide Read, Walk, RegionLo, RegionHi;
    forall a: Word | a < UTOP
      ensures Read(v2, d, a) == if Covers(s, a) then Some(SegmentByte(elf, s, a)) else Read(v, d, a)
    {
      RegionPages(s.va, s.memsz, a);
    }
  }

  lemma {:induction false} LoadSegmentsSteps(v: Vm, role: seq<Role>, kd: nat, d: nat, elf: Elf, k: nat)
    returns (r: Res<Vm>, role': seq<Role>)
    requires OwnSpace(v, role, kd, d) && WellFormed(elf) && k <= |elf.segs|
    ensures LoadSegments(v, d, elf, k) == r && !r.Cyclic?
    ensures r.Ok? ==>
              && OwnSpace(r.value, role', kd, d) && Isolated(v, role, kd, r.value, role', d) && role'[d] == role[d]
              && Loaded(v, d, r.value, elf, k)
    decreases |elf.segs| - k
  {
    hide Inv, Isolated, OwnPages, LoadSegment, LoadSegments, Loaded, Read, Covers, WellFormed, Complete;
    CompleteWell(v, role, kd, d, elf);
    UnfoldLoadSegments(v, d, elf, k);
    if k == |elf.segs| {
      r, role' := Ok(v), role;
      IsolatedRefl(v, role, kd, d);
      LoadedRefl(v, d, elf);
    } else {
      r, role' := LoadSegmentSteps(v, role, kd, d, elf, k);
      if r.Ok? {
        var v1, role1 := r.value, role';
        r, role' := LoadSegmentsSteps(v1, role1, kd, d, elf, k + 1);
        if r.Ok? {
          IsolatedTrans(v, role, kd, v1, role1, r.value, role', d);
          LoadedExtend(v, d, v1, r.value, elf, k);
        }
      }
    }
  }

  lemma CompleteWell(v: Vm, role: seq<Role>, kd: nat, d: nat, elf: Elf)
    requires OwnSpace(v, role, kd, d) && WellFormed(elf)
    ensures Wf(v) && d < |v.page| && Complete(elf)
  {
  }

  lemma LoadedRefl(v: Vm, d: nat, elf: Elf)
    requires d < |v.page| && Complete(elf)
    ensures Loaded(v, d, v, elf, |elf.segs|)
  {
    hide Read;
  }

  lemma LoadedExtend(v: Vm, d: nat, v1: Vm, v': Vm, elf: Elf, k: nat)
    requires Complete(elf) && k < |elf.segs| && d < |v.page| == |v1.page| && Loaded(v1, d, v', elf, k + 1)
    requires forall a: Word :: a < UTOP ==>
               Read(v1, d, a) == if Covers(elf.segs[k], a) then Some(SegmentByte(elf, elf.segs[k], a))
                 else Read(v, d, a)
    ensures Loaded(v, d, v', elf, k)
  {
    hide Read, Covers, SegmentByte;
  }

  /** The whole image: a zeroed stack page, and below UTOP the byte of the last segment that
      occupies the page of the address; everything else is unmapped. */
  function FinalByte(elf: Elf, a: Word): Option<Byte>
    requires Complete(elf)
  {
    if USTACKTOP - PGSIZE <= a < USTACKTOP then Some(0) else ImageByte(elf, 0, a)
  }

  /** A directory with nothing mapped below UTOP. */
  ghost predicate Empty(v: Vm, d: nat) {
    d < |v.page| && forall a: Word :: a < UTOP ==> Walk(v, d, a).None?
  }

  lemma StackPage(a: Word)
    ensures RegionLo(USTACKTOP - PGSIZE) <= Pgnum(a) < RegionHi(USTACKTOP - PGSIZE, PGSIZE) <==>
        USTACKTOP - PGSIZE <= a < USTACKTOP
  {
    StackRegion();
    hide RegionLo, RegionHi;
    assert Pgnum(a) == 0xD_EBFD <==> USTACKTOP - PGSIZE <= a < USTACKTOP;
  }

  lemma StackRegion()
    ensures RegionLo(USTACKTOP - PGSIZE) == 0xD_EBFD && RegionHi(USTACKTOP - PGSIZE, PGSIZE) == 0xD_EBFE
  {
    assert USTACKTOP == 0xDEBF_E000;
    RoundPages(USTACKTOP - PGSIZE);
    RoundPages(USTACKTOP);
    assert Add32(USTACKTOP - PGSIZE, PGSIZE) == USTACKTOP;
  }

  /**
   loadElf into an empty address space either panics for lack of frames or leaves exactly the
   image that the headers describe; no other address space changes.
   */
  lemma LoadElfImage(v: Vm, role: seq<Role>, kd: nat, d: nat, elf: Elf) returns (r: Res<Vm>, role': seq<Role>)
    requires OwnSpace(v, role, kd, d) && Empty(v, d) && WellFormed(elf)
    ensures LoadElf(v, d, elf) == r && !r.Cyclic? && (elf.magic != ELF_MAGIC ==> r.Panic?)
    ensures r.Ok? ==>
              && OwnSpace(r.value, role', kd, d) && Isolated(v, role, kd, r.value, role', d) && role'[d] == role[d]
              && forall a: Word :: a < UTOP ==> Read(r.value, d, a) == FinalByte(elf, a)
  {
    if elf.magic != ELF_MAGIC {
      r, role' := Panic, role;
    } else {
      hide Inv, Isolated, OwnPages, LoadSegments;
      r, role' := LoadSegmentsSteps(v, role, kd, d, elf, 0);
      if r.Ok? {
        var v1, role1 := r.value, role';
        r, role' := RegionAllocSteps(v1, role1, kd, d, USTACKTOP - PGSIZE, PGSIZE);
        if r.Ok? {
          IsolatedTrans(v, role, kd, v1, role1, r.value, role', d);
          FinalRead(v, d, v1, r.value, elf);
        }
      }
    }
  }

  lemma FinalRead(v: Vm, d: nat, v1: Vm, v': Vm, elf: Elf)
    requires Complete(elf) && Empty(v, d) && Loaded(v, d, v1, elf, 0)
    requires Zeroed(v1, d, v', RegionLo(USTACKTOP - PGSIZE), RegionHi(USTACKTOP - PGSIZE, PGSIZE))
    ensures forall a: Word :: a < UTOP ==> Read(v', d, a) == FinalByte(elf, a)
  {
    forall a: Word | a < UTOP
      ensures Read(v, d, a).None?
    {
    }
    hide Read, Walk, RegionLo, RegionHi, ImageByte;
    forall a: Word | a < UTOP
      ensures Read(v', d, a) == FinalByte(elf, a)
    {
      StackPage(a);
    }
  }

  // When every segment ends up whole

  /** No page is shared by two segments or by a segment and the stack. */
  ghost predicate PageDisjoint(elf: Elf) {
    && (forall i, j, a: Word :: 0 <= i < j < |elf.segs| ==> !(Covers(elf.segs[i], a) && Covers(elf.segs[j], a)))
    && (forall i, a: Word :: 0 <= i < |elf.segs| && Covers(elf.segs[i], a) ==> !(USTACKTOP - PGSIZE <= a < USTACKTOP))
  }

  lemma {:induction false} ImageOfLast(elf: Elf, k: nat, i: nat, a: Word)
    requires Complete(elf) && k <= i < |elf.segs| && Covers(elf.segs[i], a)
    requires forall j :: k <= j < |elf.segs| && j > i ==> !Covers(elf.segs[j], a)
    ensures ImageByte(elf, k, a) == Some(SegmentByte(elf, elf.segs[i], a))
    decreases |elf.segs| - k
  {
    if k < i {
      ImageOfLast(elf, k + 1, i, a);
    } else {
      NotCovered(elf, k + 1, a);
    }
  }

  lemma {:induction false} NotCovered(elf: Elf, k: nat, a: Word)
    requires Complete(elf) && k <= |elf.segs| && forall j :: k <= j < |elf.segs| ==> !Covers(elf.segs[j], a)
    ensures ImageByte(elf, k, a).None?
    decreases |elf.segs| - k
  {
    if k < |elf.segs| {
      NotCovered(elf, k + 1, a);
    }
  }

  /** With page-disjoint segments, the task reads each segment as the file gives it: the file's
      bytes, then zeros up to the segment's size in memory. */
  lemma SegmentsIntact(elf: Elf, i: nat, a: Word)
    requires WellFormed(elf) && PageDisjoint(elf) && i < |elf.segs| && elf.segs[i].kind == 1
    requires elf.segs[i].va <= a < elf.segs[i].va + elf.segs[i].memsz
    ensures FinalByte(elf, a) ==
              Some(if a < elf.segs[i].va + elf.segs[i].filesz then
                elf.file[elf.segs[i].offset + (a - elf.segs[i].va)] else 0)
  {
    var s := elf.segs[i];
    assert Loadable(s);
    hide Covers, ImageByte, Loadable, RegionLo, RegionHi, Pgnum;
    assert s.filesz <= s.memsz && BelowUtop(s.va, s.memsz) && s.offset + s.filesz <= |elf.file|;
    OwnBytesCovered(s, a);
    assert forall j :: 0 <= j < |elf.segs| && j > i ==> !Covers(elf.segs[j], a);
    assert !(USTACKTOP - PGSIZE <= a < USTACKTOP);
    hide WellFormed, PageDisjoint, BelowUtop;
    ImageOfLast(elf, 0, i, a);
  }

  lemma OwnBytesCovered(s: Segment, a: Word)
    requires Loadable(s) && BelowUtop(s.va, s.memsz) && s.va <= a < s.va + s.memsz
    ensures Covers(s, a)
  {
    RegionPages(s.va, s.memsz, a);
  }

  /** Without it, a byte survives exactly when the last segment on its page, or the stack, puts the
      same byte there: mapping that segment's pages discards what was loaded before. */
  lemma SegmentByteSurvivesIff(elf: Elf, i: nat, j: nat, a: Word)
    requires WellFormed(elf) && i <= j < |elf.segs| && Covers(elf.segs[i], a) && Covers(elf.segs[j], a)
    requires forall l :: j < l < |elf.segs| ==> !Covers(elf.segs[l], a)
    ensures (FinalByte(elf, a) == Some(SegmentByte(elf, elf.segs[i], a))) <==>
              (SegmentByte(elf, elf.segs[i], a) ==
                 if USTACKTOP - PGSIZE <= a < USTACKTOP then 0 else SegmentByte(elf, elf.segs[j], a))
  {
    ImageOfLast(elf, 0, j, a);
  }

  // The image in the terms of the file: program headers of type 1, PT_LOAD, that occupy memory

  /** The range of segment s touches the page of address a. */
  predicate TouchesPage(s: Segment, a: Word) {
    s.memsz > 0 && s.va / 0x1000 <= a / 0x1000 <= (s.va + s.memsz - 1) / 0x1000
  }

  lemma CoversIff(elf: Elf, i: nat, a: Word)
    requires WellFormed(elf) && i < |elf.segs|
    ensures Covers(elf.segs[i], a) <==> elf.segs[i].kind == 1 && TouchesPage(elf.segs[i], a)
    ensures elf.segs[i].kind == 1 && elf.segs[i].memsz != 0 ==>
              && elf.segs[i].filesz <= elf.segs[i].memsz && elf.segs[i].va + elf.segs[i].memsz <= UTOP
              && elf.segs[i].offset + elf.segs[i].filesz <= |elf.file|
  {
    var s := elf.segs[i];
    if s.kind == 1 && s.memsz != 0 {
      assert Loadable(s);
      RegionPages(s.va, s.memsz, a);
    }
  }

  lemma TouchedBelow(s: Segment, a: Word)
    requires TouchesPage(s, a) && (s.memsz != 0 ==> s.va + s.memsz <= UTOP)
    ensures a < UTOP && s.memsz != 0
  {
  }

  /** The byte that segment s gives to an address on one of its pages: what the file holds, or else zero. */
  function FileByte(elf: Elf, s: Segment, a: Word): Byte {
    if s.va <= a < s.va + s.filesz && s.offset + (a - s.va) < |elf.file| then elf.file[s.offset + (a - s.va)] else 0
  }

  /** The last such segment that touches the page determines its bytes. */
  lemma SegmentIsLoaded(elf: Elf, i: nat, a: Word)
    requires WellFormed(elf) && i < |elf.segs| && elf.segs[i].kind == 1 && TouchesPage(elf.segs[i], a)
    requires forall j :: i < j < |elf.segs| && elf.segs[j].kind == 1 ==> !TouchesPage(elf.segs[j], a)
    requires !(0xDEBF_D000 <= a < 0xDEBF_E000)
    ensures Complete(elf) && elf.segs[i].offset + elf.segs[i].filesz <= |elf.file|
    ensures FinalByte(elf, a) == Some(FileByte(elf, elf.segs[i], a))
  {
    hide Covers, ImageByte;
    CoversIff(elf, i, a);
    forall j | i < j < |elf.segs|
      ensures !Covers(elf.segs[j], a)
    {
      CoversIff(elf, j, a);
    }
    hide WellFormed;
    ImageOfLast(elf, 0, i, a);
  }

  /** Outside of the pages of all such segments and of the stack there is nothing. */
  lemma NothingElseIsLoaded(elf: Elf, a: Word)
    requires WellFormed(elf) && !(0xDEBF_D000 <= a < 0xDEBF_E000)
    requires forall j :: 0 <= j < |elf.segs| && elf.segs[j].kind == 1 ==> !TouchesPage(elf.segs[j], a)
    ensures Complete(elf) && FinalByte(elf, a) == None
  {
    hide Covers, ImageByte;
    forall j | 0 <= j < |elf.segs|
      ensures !Covers(elf.segs[j], a)
    {
      CoversIff(elf, j, a);
    }
    hide WellFormed;
    NotCovered(elf, 0, a);
  }

  /** loadElf into an empty space, in these terms: every page outside of the stack reads as the last segment of type
      PT_LOAD that touches it, the file's bytes in their places and zeros around them. */
  lemma LoadedSegment(v: Vm, role: seq<Role>, kd: nat, d: nat, elf: Elf, v': Vm, i: nat, a: Word)
    requires OwnSpace(v, role, kd, d) && Empty(v, d) && WellFormed(elf) && Wf(v) && d < |v.page|
    requires Complete(elf) && LoadElf(v, d, elf) == Ok(v') && i < |elf.segs|
    requires elf.segs[i].kind == 1 && TouchesPage(elf.segs[i], a) && !(0xDEBF_D000 <= a < 0xDEBF_E000)
    requires forall j :: i < j < |elf.segs| && elf.segs[j].kind == 1 ==> !TouchesPage(elf.segs[j], a)
    ensures var s := elf.segs[i];
            && s.offset + s.filesz <= |elf.file| && d < |v'.page|
            && Read(v', d, a) ==
                 Some(if s.va <= a < s.va + s.filesz then elf.file[s.offset + (a - s.va)] else 0)
  {
    hide Inv, OwnPages, Isolated, Read, FinalByte, LoadElf, TouchesPage, Covers;
    CoversIff(elf, i, a);
    TouchedBelow(elf.segs[i], a);
    SegmentIsLoaded(elf, i, a);
    hide WellFormed;
    var r, role' := LoadElfImage(v, role, kd, d, elf);
  }

  /** The stack's page is zero, whatever the segments say; outside of it, a page that no segment touches is not
      mapped. */
  lemma LoadedElsewhere(v: Vm, role: seq<Role>, kd: nat, d: nat, elf: Elf, v': Vm, a: Word)
    requires OwnSpace(v, role, kd, d) && Empty(v, d) && WellFormed(elf) && Wf(v) && d < |v.page|
    requires Complete(elf) && LoadElf(v, d, elf) == Ok(v') && a < UTOP
    ensures elf.magic == 0x464C_457F && d < |v'.page|
    ensures 0xDEBF_D000 <= a < 0xDEBF_E000 ==> Read(v', d, a) == Some(0)
    ensures !(0xDEBF_D000 <= a < 0xDEBF_E000)
            && (forall j :: 0 <= j < |elf.segs| && elf.segs[j].kind == 1 ==> !TouchesPage(elf.segs[j], a)) ==>
              Read(v', d, a) == None
  {
    hide Inv, OwnPages, Isolated, Read, FinalByte, LoadElf, WellFormed, TouchesPage;
    var r, role' := LoadElfImage(v, role, kd, d, elf);
    StackIsZero(elf, a);
    if !(0xDEBF_D000 <= a < 0xDEBF_E000)
      && forall j :: 0 <= j < |elf.segs| && elf.segs[j].kind == 1 ==> !TouchesPage(elf.segs[j], a)
    {
      NothingElseIsLoaded(elf, a);
    }
  }

  lemma StackIsZero(elf: Elf, a: Word)
    requires Complete(elf)
    ensures 0xDEBF_D000 <= a < 0xDEBF_E000 ==> FinalByte(elf, a) == Some(0)
    ensures ELF_MAGIC == 0x464C_457F
  {
  }
}
