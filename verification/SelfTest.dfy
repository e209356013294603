/** The check that pgdir::init (kernel/vmem.cc) makes of insert and remove, and what it leaves. */
module SelfTest {
  import opened Wrappers
  import opened Mmu
  import opened PageTables
  import opened Ownership
  import opened StaleEntries
  import UserMemory

  const VA2GB: Word := 0x8000_0000

  function Pattern(w: Word): (p: Page)
  {
    seq(1024, i => w)
  }

  /** A frame is allocated, filled with a word, and mapped for the kernel at 0x80000000. */
  function MapPattern(v: Vm, kd: nat, w: Word): (r: Res<(Vm, nat)>)
    requires Wf(v) && kd < |v.page|
    ensures r.Ok? ==> SameShape(v, r.value.0) && r.value.1 < |v.page|
  {
    var a := AllocFrame(v, false);
    if a.1.None? then Panic
    else
      var f := a.1.value;
      var r := Insert(Fill(a.0, f, Pattern(w)), kd, f, VA2GB, PTE_W);
      if !r.Ok? then r.Failed() else Ok((r.value.0, f))
  }

  /** The frame is released and linked, as refCount == 0 and nextFree != nullptr say. */
  predicate Released(v: Vm, f: nat)
    requires f < |v.rc|
  {
    v.rc[f] == 0 && f in v.free && f != v.free[|v.free| - 1]
  }

  /** A load of eight bytes from 0x80000000 gives the word twice. */
  predicate Shows(v: Vm, kd: nat, w: Word)
    requires kd < |v.page|
  {
    var e := Walk(v, kd, VA2GB);
    e.Some? && Frame(e.value) < |v.page| && v.page[Frame(e.value)][0] == w && v.page[Frame(e.value)][1] == w
  }

  /** Byte by byte, that is: what is loaded from there are the word's bytes, twice. */
  lemma ShowsBytes(v: Vm, kd: nat, w: Word)
    requires kd < |v.page|
    ensures Shows(v, kd, w) <==>
              forall a: Word :: 0x8000_0000 <= a < 0x8000_0008 ==>
                UserMemory.Read(v, kd, a) == Some(UserMemory.ByteOf(w, a % 4))
  {
    hide Pdx, Ptx, Leaf, UserMemory.ByteOf;
    FirstBytes();
    UserMemory.LowestFirst(w);
    var e := Walk(v, kd, VA2GB);
    if e.Some? && Frame(e.value) < |v.page| {
      var p := v.page[Frame(e.value)];
      UserMemory.LowestFirst(p[0]);
      UserMemory.LowestFirst(p[1]);
      forall a: Word | 0x8000_0000 <= a < 0x8000_0008
        ensures UserMemory.Read(v, kd, a) == Some(UserMemory.ByteOf(p[(a - 0x8000_0000) / 4], a % 4))
      {
      }
      forall k | 0 <= k < 4
        ensures UserMemory.Read(v, kd, 0x8000_0000 + k) == Some(UserMemory.ByteOf(p[0], k))
        ensures UserMemory.Read(v, kd, 0x8000_0004 + k) == Some(UserMemory.ByteOf(p[1], k))
      {
      }
    } else {
      assert UserMemory.Read(v, kd, VA2GB) == None;
    }
  }

  lemma FirstBytes()
    ensures forall a: Word :: 0x8000_0000 <= a < 0x8000_0008 ==>
              && Pdx(a) == Pdx(VA2GB) && Ptx(a) == Ptx(VA2GB)
              && Pgoff(a) == a - 0x8000_0000 && a % 4 == (a - 0x8000_0000) % 4
  {
  }

  function Check(v: Vm, kd: nat): (r: Res<Vm>)
    requires Wf(v) && kd < |v.page|
    ensures r.Ok? ==> SameShape(v, r.value)
  {
    var m0 := MapPattern(v, kd, 0x1818_1818);
    if !m0.Ok? then m0.Failed() else
    var v1, f0 := m0.value.0, m0.value.1;
    if v1.rc[f0] != 1 || !Shows(v1, kd, 0x1818_1818) then Panic else
    var m1 := MapPattern(v1, kd, 0x1010_1010);
    if !m1.Ok? then m1.Failed() else
    var v2, f1 := m1.value.0, m1.value.1;
    if !Released(v2, f0) || !Shows(v2, kd, 0x1010_1010) then Panic else
    var r := Remove(v2, kd, VA2GB);
    if r.Ok? && !Released(r.value, f1) then Panic else r
  }

  /** The directory kd has no table for 0x80000000, and the free frames are not counted. */
  ghost predicate Untested(v: Vm, kd: nat) {
    && Wf(v) && kd < |v.page| && kd !in v.free && !Present(v.page[kd][512])
    && (forall f :: f in v.free ==> v.rc[f] == 0)
  }

  /** The table t serves 0x80000000 and holds only the given entry for it; the other entries of the
      directory are those of e. */
  ghost predicate Serves(v: Vm, kd: nat, e: Page, t: nat, w: Word) {
    && Wf(v) && kd < |v.page| && t < |v.page| && t != kd && t !in v.free
    && v.page[kd] == e[512 := MakePte(t, PTE_P + PTE_W + PTE_U)] && v.page[t] == ZeroPage()[0 := w]
  }

  /** From v to v', only the given frames are written. */
  ghost predicate WritesOnly(v: Vm, v': Vm, fs: set<nat>) {
    |v'.page| == |v.page| && forall g :: 0 <= g < |v.page| && g !in fs ==> v'.page[g] == v.page[g]
  }

  lemma Place()
    ensures Pdx(VA2GB) == 512 && Ptx(VA2GB) == 0
  {
  }

  lemma FirstMap(v: Vm, kd: nat, w: Word) returns (v1: Vm, f: nat, t: nat)
    requires Untested(v, kd) && |v.free| >= 2
    ensures f == v.free[0] && t == v.free[1] && MapPattern(v, kd, w) == Ok((v1, f)) && Wf(v1)
    ensures Serves(v1, kd, v.page[kd], t, MakePte(f, PTE_P + PTE_W)) && v1.free == v.free[2..] && |v1.page| == |v.page|
    ensures v1.rc == v.rc[t := 1][f := 1] && f != t && f != kd && v1.page[f] == Pattern(w)
    ensures WritesOnly(v, v1, {kd, f, t})
  {
    f, t := v.free[0], v.free[1];
    var u, u1 := FirstTable(v, kd, w);
    hide FindPte, InstallTable, Pattern;
    v1 := Store(IncRef(u1, f), t, 0, MakePte(f, WithPresent(PTE_W)));
  }

  /** The page table that the first insertion makes. */
  lemma FirstTable(v: Vm, kd: nat, w: Word) returns (u: Vm, u1: Vm)
    requires Untested(v, kd) && |v.free| >= 2
    ensures u == Fill(Pop(v), v.free[0], Pattern(w)) && Wf(u) && Wf(u1)
    ensures FindPte(u, kd, VA2GB, true) == Ok((u1, PteAt(v.free[1], 0)))
    ensures u1.free == v.free[2..] && u1.rc == v.rc[v.free[1] := 1] && |u1.page| == |v.page| && v.rc[v.free[0]] == 0
    ensures v.free[0] != v.free[1] && v.free[0] != kd && v.free[1] != kd && v.free[1] !in v.free[2..]
    ensures u1.page[kd] == v.page[kd][512 := MakePte(v.free[1], PTE_P + PTE_W + PTE_U)]
    ensures u1.page[v.free[1]] == ZeroPage() && u1.page[v.free[0]] == Pattern(w)
    ensures WritesOnly(v, u1, {kd, v.free[0], v.free[1]})
  {
    Place();
    hide Pattern;
    var f, t := v.free[0], v.free[1];
    assert f in v.free && t in v.free;
    assert forall i :: 0 <= i < |v.free[1..]| ==> v.free[1..][i] == v.free[i + 1];
    u := Fill(Pop(v), f, Pattern(w));
    u1 := InstallTable(u, kd, 512);
    assert u1.free == v.free[2..];
  }

  lemma TakeAndCount(v: Vm, kd: nat, e: Page, t: nat, f0: nat, w: Word) returns (u: Vm, u1: Vm)
    requires f0 < |v.page| <= 0x2_0000 && Serves(v, kd, e, t, MakePte(f0, PTE_P + PTE_W)) && f0 !in v.free
        && v.rc[f0] == 1
    requires v.free != [] && kd !in v.free && v.rc[v.free[0]] == 0
    ensures u == Fill(Pop(v), v.free[0], Pattern(w)) && Wf(u) && u1 == IncRef(u, v.free[0])
    ensures FindPte(u, kd, VA2GB, true) == Ok((u, PteAt(t, 0)))
    ensures Serves(u1, kd, e, t, MakePte(f0, PTE_P + PTE_W)) && f0 !in u1.free && u1.rc[f0] == 1
        && v.free[0] !in u1.free
    ensures v.free[0] != t && v.free[0] != f0 && v.free[0] != kd
  {
    Place();
    var f := v.free[0];
    assert f in v.free;
    assert forall i :: 0 <= i < |v.free[1..]| ==> v.free[1..][i] == v.free[i + 1];
    u := Fill(Pop(v), f, Pattern(w));
    u1 := IncRef(u, f);
  }

  lemma SecondMap(v: Vm, kd: nat, e: Page, t: nat, f0: nat, w: Word) returns (v1: Vm, f: nat)
    requires f0 < |v.page| <= 0x2_0000 && Serves(v, kd, e, t, MakePte(f0, PTE_P + PTE_W)) && f0 != t && f0 != kd
        && f0 !in v.free && v.rc[f0] == 1
    requires v.free != [] && kd !in v.free && v.rc[v.free[0]] == 0
    ensures f == v.free[0] && MapPattern(v, kd, w) == Ok((v1, f)) && Wf(v1)
    ensures Serves(v1, kd, e, t, MakePte(f, PTE_P + PTE_W)) && v1.free == [f0] + v.free[1..] && |v1.page| == |v.page|
    ensures v1.rc == v.rc[f := 1][f0 := 0] && f != t && f != f0 && f != kd && v1.page[f] == Pattern(w)
    ensures WritesOnly(v, v1, {f, t})
  {
    f := v.free[0];
    var u, u1 := TakeAndCount(v, kd, e, t, f0, w);
    hide Remove, FindPte, MakePte, Serves, Pattern;
    var u2 := LastRemove(u1, kd, e, t, f0);
    v1 := Store(u2, t, 0, MakePte(f, WithPresent(PTE_W)));
    SecondInsert(v, kd, t, f0, w, u, u1, u2);
    hide Insert;
    SecondServes(v, kd, e, t, f0, w, u1, u2, v1);
  }

  lemma SecondInsert(v: Vm, kd: nat, t: nat, f0: nat, w: Word, u: Vm, u1: Vm, u2: Vm)
    requires Wf(v) && kd < |v.page| && v.free != [] && v.free[0] < |v.page| && f0 < |v.page| && t < |v.page|
    requires u == Fill(Pop(v), v.free[0], Pattern(w)) && Wf(u) && u1 == IncRef(u, v.free[0]) && Wf(u1)
    requires FindPte(u, kd, VA2GB, true) == Ok((u, PteAt(t, 0))) && u1.page[t][0] == MakePte(f0, PTE_P + PTE_W)
    requires Remove(u1, kd, VA2GB) == Ok(u2) && |u2.page| == |v.page|
    ensures MapPattern(v, kd, w) == Ok((Store(u2, t, 0, MakePte(v.free[0], WithPresent(PTE_W))), v.free[0]))
  {
    hide Remove, FindPte;
  }

  lemma SecondServes(v: Vm, kd: nat, e: Page, t: nat, f0: nat, w: Word, u1: Vm, u2: Vm, v1: Vm)
    requires f0 < |v.page| <= 0x2_0000 && Serves(v, kd, e, t, MakePte(f0, PTE_P + PTE_W)) && f0 != t && f0 != kd
        && f0 !in v.free
    requires v.free != [] && v.free[0] < |v.page| && v.free[0] != t && v.free[0] != f0 && v.free[0] != kd
        && v.free[0] !in v.free[1..]
    requires u1 == IncRef(Fill(Pop(v), v.free[0], Pattern(w)), v.free[0]) && Wf(u2) && v.rc[v.free[0]] == 0
    requires u2 == Store(Push(SetRef(u1, f0, 0), f0), t, 0, 0)
    requires v1 == Store(u2, t, 0, MakePte(v.free[0], WithPresent(PTE_W)))
    ensures Serves(v1, kd, e, t, MakePte(v.free[0], PTE_P + PTE_W)) && Wf(v1) && v1.page[v.free[0]] == Pattern(w)
    ensures v1.free == [f0] + v.free[1..] && v1.rc == v.rc[v.free[0] := 1][f0 := 0]
    ensures WritesOnly(v, v1, {v.free[0], t})
  {
    hide Pattern;
  }

  lemma LastRemove(v: Vm, kd: nat, e: Page, t: nat, f: nat) returns (v1: Vm)
    requires f < |v.page| <= 0x2_0000 && Serves(v, kd, e, t, MakePte(f, PTE_P + PTE_W)) && f != t && f !in v.free
        && v.rc[f] == 1
    ensures Remove(v, kd, VA2GB) == Ok(v1) && Wf(v1) && v1 == Store(Push(SetRef(v, f, 0), f), t, 0, 0)
        && Serves(v1, kd, e, t, 0)
    ensures WritesOnly(v, v1, {t})
  {
    Place();
    assert FindInfo(v, kd, VA2GB) == Ok(Some((f, PteAt(t, 0))));
    var u := Push(SetRef(v, f, 0), f);
    assert DecRef(v, f) == Ok(u);
    v1 := Store(u, t, 0, 0);
  }

  /**
   The check passes and gives back both data frames, but not the page table: the kernel's directory
   keeps a present entry below UTOP.
   */
  lemma CheckLeavesEntry(v: Vm, kd: nat) returns (v': Vm)
    requires Untested(v, kd) && |v.free| >= 4
    ensures Check(v, kd) == Ok(v') && Stale(v', kd, 512)
    ensures v'.free == [v.free[2], v.free[0]] + v.free[3..] && v'.rc == v.rc[v.free[1] := 1]
    ensures Serves(v', kd, v.page[kd], v.free[1], 0)
    ensures WritesOnly(v, v', {kd, v.free[0], v.free[1], v.free[2]})
    ensures forall i :: 0 <= i < 1024 ==> v'.page[v.free[0]][i] == 0x1818_1818 && v'.page[v.free[2]][i] == 0x1010_1010
  {
    hide MapPattern, Remove, Serves, Walk, Check, Released, Wf, Pattern, Shows, MakePte;
    var e := v.page[kd];
    var v1, f0, t := FirstMap(v, kd, 0x1818_1818);
    UntestedFrees(v, kd);
    var v2, f1 := SecondMap(v1, kd, e, t, f0, 0x1010_1010);
    SecondFrees(v1, v2.free, f0);
    v' := LastRemove(v2, kd, e, t, f1);
    ServesWalks(v1, kd, e, t, MakePte(f0, PTE_P + PTE_W));
    ServesWalks(v2, kd, e, t, MakePte(f1, PTE_P + PTE_W));
    ServesWalks(v', kd, e, t, 0);
    PatternShows(v1, kd, f0, 0x1818_1818);
    PatternShows(v2, kd, f1, 0x1010_1010);
    ReleasedHead(v2, f0);
    ReleasedHead(v', f1);
    CheckIs(v, kd, v1, f0, v2, f1, v');
    WritesTogether(v, v1, v2, v', kd, f0, t, f1);
    PatternsStay(v1, v2, v', f0, t, f1);
    assert v'.rc == v.rc[t := 1];
  }

  lemma WritesTogether(v: Vm, v1: Vm, v2: Vm, v3: Vm, kd: nat, f0: nat, t: nat, f1: nat)
    requires WritesOnly(v, v1, {kd, f0, t}) && WritesOnly(v1, v2, {f1, t}) && WritesOnly(v2, v3, {t})
    ensures WritesOnly(v, v3, {kd, f0, t, f1})
  {
  }

  lemma PatternsStay(v1: Vm, v2: Vm, v3: Vm, f0: nat, t: nat, f1: nat)
    requires f0 < |v1.page| && f1 < |v1.page| && f0 != t && f1 != t && f0 != f1
    requires WritesOnly(v1, v2, {f1, t}) && WritesOnly(v2, v3, {t})
    requires v1.page[f0] == Pattern(0x1818_1818) && v2.page[f1] == Pattern(0x1010_1010)
    ensures forall i :: 0 <= i < 1024 ==> v3.page[f0][i] == 0x1818_1818 && v3.page[f1][i] == 0x1010_1010
  {
  }

  lemma UntestedFrees(v: Vm, kd: nat)
    requires Untested(v, kd) && |v.free| >= 4
    ensures var t := v.free[2..];
            && v.free[0] !in t && kd !in t && t[0] in v.free && v.rc[t[0]] == 0 && t[0] != v.free[0]
              && t[0] != v.free[1]
            && |v.rc| == |v.page| <= 0x2_0000 && v.free[1] < |v.page| && v.free[2] < |v.page|
              && v.free[0] < |v.page| && v.free[0] != kd
            && v.free[0] in v.free && v.free[1] in v.free && t[1..] == v.free[3..]
  {
    assert forall i :: 0 <= i < |v.free[2..]| ==> v.free[2..][i] == v.free[i + 2];
    assert v.free[0] in v.free && v.free[1] in v.free && v.free[2] in v.free;
  }

  lemma SecondFrees(v: Vm, s2: seq<nat>, f0: nat)
    requires Wf(v) && |v.free| >= 2 && s2 == [f0] + v.free[1..] && f0 !in v.free
    ensures v.free[0] !in s2
  {
  }

  lemma ServesWalks(v: Vm, kd: nat, e: Page, t: nat, w: Word)
    requires Serves(v, kd, e, t, w)
    ensures Stale(v, kd, 512) && (Present(w) ==> Walk(v, kd, VA2GB) == Some(w))
  {
    Place();
  }

  lemma ReleasedHead(v: Vm, f: nat)
    requires Wf(v) && |v.free| >= 2 && v.free[0] == f && f < |v.rc| && v.rc[f] == 0
    ensures Released(v, f)
  {
  }

  lemma CheckIs(v: Vm, kd: nat, v1: Vm, f0: nat, v2: Vm, f1: nat, v': Vm)
    requires Wf(v) && kd < |v.page| && MapPattern(v, kd, 0x1818_1818) == Ok((v1, f0))
        && MapPattern(v1, kd, 0x1010_1010) == Ok((v2, f1))
    requires v1.rc[f0] == 1 && Shows(v1, kd, 0x1818_1818) && Released(v2, f0) && Shows(v2, kd, 0x1010_1010)
    requires Remove(v2, kd, VA2GB) == Ok(v') && Released(v', f1)
    ensures Check(v, kd) == Ok(v')
  {
    hide MapPattern, Remove, Shows, Released;
  }

  lemma PatternShows(v: Vm, kd: nat, f: nat, w: Word)
    requires f < |v.page| <= 0x2_0000 && kd < |v.page| && Walk(v, kd, VA2GB) == Some(MakePte(f, PTE_P + PTE_W))
        && v.page[f] == Pattern(w)
    ensures Shows(v, kd, w)
  {
    hide Walk;
  }

  /** With fewer than four free frames one of the checks fails. */
  lemma CheckNeedsFour(v: Vm, kd: nat)
    requires Untested(v, kd)
    ensures Check(v, kd).Ok? <==> |v.free| >= 4
    ensures !Check(v, kd).Ok? ==> Check(v, kd).Panic?
  {
    if |v.free| >= 4 {
      var v' := CheckLeavesEntry(v, kd);
    } else if |v.free| >= 2 {
      FewFrames(v, kd);
    } else if |v.free| == 1 {
      OneFrame(v, kd);
    }
  }

  lemma OneFrame(v: Vm, kd: nat)
    requires Untested(v, kd) && |v.free| == 1
    ensures Check(v, kd) == Panic
  {
    Place();
    var f := v.free[0];
    assert f in v.free;
    var u := Fill(Pop(v), f, Pattern(0x1818_1818));
    assert FindPte(u, kd, VA2GB, true) == Ok((u, NoPte));
    assert MapPattern(v, kd, 0x1818_1818) == Ok((u, f));
    hide MapPattern;
  }

  lemma FewFrames(v: Vm, kd: nat)
    requires Untested(v, kd) && 2 <= |v.free| <= 3
    ensures Check(v, kd) == Panic
  {
    hide Remove, Serves, Walk, Wf, Pattern, Shows, MakePte, Insert;
    var e := v.page[kd];
    var v1, f0, t := FirstMap(v, kd, 0x1818_1818);
    ServesWalks(v1, kd, e, t, MakePte(f0, PTE_P + PTE_W));
    if |v.free| == 3 {
      FewFrees(v, kd);
      var v2, f1 := SecondMap(v1, kd, e, t, f0, 0x1010_1010);
      hide MapPattern;
      assert v2.free == [f0];
    }
  }

  lemma FewFrees(v: Vm, kd: nat)
    requires Untested(v, kd) && |v.free| == 3
    ensures var t := v.free[2..];
            && v.free[0] !in t && kd !in t && v.rc[t[0]] == 0 && t[0] != v.free[0] && t[0] != v.free[1] && t[1..] == []
            && |v.rc| == |v.page| <= 0x2_0000 && v.free[1] < |v.page| && v.free[2] < |v.page|
              && v.free[0] < |v.page| && v.free[0] != kd
  {
    assert v.free[0] in v.free && v.free[1] in v.free && v.free[2] in v.free;
  }
}
