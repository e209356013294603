/**
 Kernel directory entries below UTOP. setupMemory copies them into every task directory without
 counting the copies, and Task::free drops a reference for each. The boot self-test of
 kernel/vmem.cc leaves one such entry, for 0x80000000, because remove clears only the page.
 */
module StaleEntries {
  import opened Wrappers
  import opened Mmu
  import opened PageTables
  import opened Ownership
  import opened OwnershipSteps
  import opened AddressSpaces

  /** The kernel's directory names an existing frame below UTOP at x. */
  predicate Stale(v: Vm, kd: nat, x: nat)
    requires kd < |v.page|
  {
    x < UTOPX && Present(v.page[kd][x])
  }

  /** The entry names a frame that is on the free list. */
  predicate Dangling(v: Vm, kd: nat, x: nat)
    requires kd < |v.page|
  {
    Stale(v, kd, x) && Frame(v.page[kd][x]) in v.free
  }

  /** Slot x of directory kd names an empty table, counted once, in use, other than kd and d. */
  ghost predicate EmptyTable(v: Vm, kd: nat, d: nat, x: nat)
    requires kd < |v.page| && x < UTOPX
  {
    var t := Frame(v.page[kd][x]);
    && t < |v.page| == |v.rc| && t != kd && t != d && v.rc[t] == 1 && t !in v.free
    && forall y :: 0 <= y < 1024 ==> !Present(v.page[t][y])
  }

  ghost predicate DistinctTables(v: Vm, kd: nat)
    requires kd < |v.page|
  {
    forall x, y :: 0 <= x < UTOPX && 0 <= y < UTOPX && x != y && Present(v.page[kd][x]) && Present(v.page[kd][y]) ==>
      Frame(v.page[kd][x]) != Frame(v.page[kd][y])
  }

  /** Directory d repeats the kernel's entries from x on; the tables of the earlier ones are free. */
  ghost predicate Releasing(v: Vm, kd: nat, d: nat, x: nat) {
    && Wf(v) && kd < |v.page| && d < |v.page| && d != kd && d !in v.free && v.rc[d] == 1 && x <= UTOPX
    && DistinctTables(v, kd)
    && (forall i :: x <= i < UTOPX ==> v.page[d][i] == v.page[kd][i])
    && (forall i :: x <= i < UTOPX && Present(v.page[kd][i]) ==> EmptyTable(v, kd, d, i))
    && (forall i :: 0 <= i < x && Present(v.page[kd][i]) ==> Frame(v.page[kd][i]) in v.free)
  }

  lemma {:induction false} NoEntries(v: Vm, d: nat, x: nat, t: nat, y: nat)
    requires Wf(v) && d < |v.page| && x < UTOPX && t < |v.page| && y <= 1024
    requires forall j :: 0 <= j < 1024 ==> !Present(v.page[t][j])
    ensures FreeEntries(v, d, x, t, y) == Ok(v)
    decreases 1024 - y
  {
    if y < 1024 {
      NoEntries(v, d, x, t, y + 1);
    }
  }

  /** Task::free puts the table of one copied entry on the free list. */
  lemma ReleaseOne(v: Vm, kd: nat, d: nat, x: nat) returns (v': Vm)
    requires Releasing(v, kd, d, x) && x < UTOPX
    ensures FreeTable(v, d, x) == Ok(v') && Releasing(v', kd, d, x + 1) && v'.page[kd] == v.page[kd]
        && |v'.page| == |v.page|
  {
    if !Present(v.page[d][x]) {
      v' := v;
    } else {
      var t := Frame(v.page[kd][x]);
      assert v.page[d][x] == v.page[kd][x] && EmptyTable(v, kd, d, x);
      NoEntries(v, d, x, t, 0);
      var u := Store(v, d, x, 0);
      v' := DecRef(u, t).value;
      assert v' == Vm([t] + v.free, v.rc[t := 0], u.page);
      assert FreeTable(v, d, x) == Ok(v');
      ReleasedOne(v, kd, d, x, t, v');
    }
  }

  lemma ReleasedOne(v: Vm, kd: nat, d: nat, x: nat, t: nat, v': Vm)
    requires Releasing(v, kd, d, x) && x < UTOPX && Present(v.page[kd][x]) && t == Frame(v.page[kd][x])
        && EmptyTable(v, kd, d, x)
    requires v' == Vm([t] + v.free, v.rc[t := 0], v.page[d := v.page[d][x := 0]])
    ensures Releasing(v', kd, d, x + 1) && v'.page[kd] == v.page[kd]
  {
    PushKeepsShape(v, t);
    assert v'.free == Push(v, t).free;
    forall i | x + 1 <= i < UTOPX && Present(v'.page[kd][i])
      ensures EmptyTable(v', kd, d, i)
    {
      assert EmptyTable(v, kd, d, i);
    }
  }

  lemma {:induction false} ReleaseAll(v: Vm, kd: nat, d: nat, x: nat) returns (v': Vm)
    requires Releasing(v, kd, d, x)
    ensures FreeTables(v, d, x) == Ok(v') && Releasing(v', kd, d, UTOPX) && v'.page[kd] == v.page[kd]
        && |v'.page| == |v.page|
    decreases UTOPX - x
  {
    if x == UTOPX {
      v' := v;
    } else {
      var v1 := ReleaseOne(v, kd, d, x);
      hide Releasing, FreeTable;
      v' := ReleaseAll(v1, kd, d, x + 1);
    }
  }

  /**
   A task is set up and freed at once. Afterwards the kernel's directory names a frame that is on
   the free list if and only if it had a present entry below UTOP to begin with.
   */
  lemma KernelEntryDanglesIff(v: Vm, kd: nat) returns (v1: Vm, f: nat, v2: Vm)
    requires Wf(v) && kd < |v.page| && v.free != [] && v.free[0] != kd && v.rc[v.free[0]] == 0
    requires DistinctTables(v, kd)
    requires forall x :: 0 <= x < UTOPX && Present(v.page[kd][x]) ==> EmptyTable(v, kd, v.free[0], x)
    ensures SetupMemory(v, kd) == (v1, Some(f)) && Wf(v1) && f < |v1.page| && FreeSpace(v1, f) == Ok(v2)
        && |v2.page| == |v.page|
    ensures (exists x: nat :: Dangling(v2, kd, x)) <==> (exists x: nat :: Stale(v, kd, x))
  {
    v1, f := SetupMemory(v, kd).0, v.free[0];
    SetupReleasing(v, kd, v1, f);
    var v3 := ReleaseAll(v1, kd, f, 0);
    v2 := DropReleased(v3, kd, f);
    hide SetupMemory, FreeTables, Releasing, EmptyTable, DistinctTables;
    assert FreeSpace(v1, f) == Ok(v2);
    forall x: nat
      ensures Dangling(v2, kd, x) <==> Stale(v, kd, x)
    {
    }
  }

  lemma DropReleased(v: Vm, kd: nat, d: nat) returns (v': Vm)
    requires Releasing(v, kd, d, UTOPX)
    ensures DecRef(v, d) == Ok(v') && v'.page == v.page
    ensures forall x: nat :: Stale(v, kd, x) ==> Dangling(v', kd, x)
  {
    v' := DecRef(v, d).value;
    assert v' == Vm([d] + v.free, v.rc[d := 0], v.page);
  }

  lemma SetupReleasing(v: Vm, kd: nat, v1: Vm, f: nat)
    requires Wf(v) && kd < |v.page| && v.free != [] && v.free[0] != kd && DistinctTables(v, kd)
    requires forall x :: 0 <= x < UTOPX && Present(v.page[kd][x]) ==> EmptyTable(v, kd, v.free[0], x)
    requires v1 == SetupMemory(v, kd).0 && f == v.free[0] && v.rc[f] == 0
    ensures Releasing(v1, kd, f, 0) && v1.page[kd] == v.page[kd] && |v1.page| == |v.page|
  {
    var t := v.free[1..];
    assert v.free == [f] + t;
    assert forall i :: 0 <= i < |t| ==> t[i] == v.free[i + 1];
    assert v1.page == v.page[f := v.page[kd][UVPTX := SelfMap(f)]];
    assert v1.free == t && v1.rc == v.rc[f := 1];
    forall i | 0 <= i < UTOPX && Present(v1.page[kd][i])
      ensures EmptyTable(v1, kd, f, i)
    {
      assert EmptyTable(v, kd, f, i);
    }
  }
}
