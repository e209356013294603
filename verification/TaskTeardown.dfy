/** Task::free: the nested loops over the directory and its page tables release exactly what the
    task owns, and nothing else changes. */
module TaskTeardown {
  import opened Wrappers
  import opened Mmu
  import opened PageTables
  import opened Ownership
  import opened Translation
  import opened OwnershipSteps
  import opened RadixTree
  import opened Isolation
  import opened AddressSpaces
  import opened AddressSpaceSteps

  /** Everything except row x of directory d translates as before, and the row is no richer. */
  ghost predicate OnlyRowChanged(v: Vm, role: seq<Role>, kd: nat, v': Vm, d: nat, x: nat) {
    && |v'.page| == |v.page| == |role|
    && forall c: nat, i: nat, j: nat {:trigger Leaf(v', c, i, j)} ::
         IsDir(role, kd, c) && i < 1024 && j < 1024 && !(c == d && (i == x || (i == UVPTX && j == x))) ==>
           Leaf(v', c, i, j) == Leaf(v, c, i, j)
  }

  lemma RemoveRow(v: Vm, role: seq<Role>, kd: nat, d: nat, x: nat, y: nat) returns (v': Vm, role': seq<Role>)
    requires Inv(v, role, kd) && d < |role| && role[d].Dir? && x < UTOPX && y < 1024 && Leaf(v, d, x, y).Some?
    ensures Remove(v, d, Pgaddr(x, y, 0)) == Ok(v') && Inv(v', role', kd) && Isolated(v, role, kd, v', role', d)
    ensures v'.page[d] == v.page[d] && OnlyRowChanged(v, role, kd, v', d, x)
    ensures forall j: nat :: j < 1024 ==> Leaf(v', d, x, j) == if j == y then None else Leaf(v, d, x, j)
  {
    hide Inv, Remove, Isolated, Store, Leaf;
    var va := Pgaddr(x, y, 0);
    PgaddrRoundTrip(x, y, 0);
    LayoutIndexes();
    var v1, g, t := RemoveForm(v, role, kd, d, va);
    v', role' := v1, RemoveRole(v, role, d, va);
    RemoveKeepsInv(v, role, kd, d, va);
    RemoveIsolated(v, role, kd, d, va, v');
    EntryKeepsLeaves(v, role, v', kd, d, x, y, 0);
    StoreKeepsPage(v, v', d, t, y);
    assert IsDir(role, kd, d);
  }

  lemma StoreKeepsPage(v: Vm, v': Vm, d: nat, t: nat, y: nat)
    requires d < |v.page| && t < |v.page| && t != d && y < 1024 && v'.page == Store(v, t, y, 0).page
    ensures |v'.page| == |v.page| && v'.page[d] == v.page[d]
  {
  }

  lemma {:induction false} FreeEntriesSteps(v: Vm, role: seq<Role>, kd: nat, d: nat, x: nat, y: nat)
    returns (v': Vm, role': seq<Role>)
    requires Inv(v, role, kd) && d < |role| && role[d].Dir? && x < UTOPX && y <= 1024
    requires Present(v.page[d][x]) && Frame(v.page[d][x]) < |v.page|
    requires forall j: nat :: j < y ==> Leaf(v, d, x, j).None?
    ensures FreeEntries(v, d, x, Frame(v.page[d][x]), y) == Ok(v')
    ensures Inv(v', role', kd) && Isolated(v, role, kd, v', role', d)
    ensures v'.page[d] == v.page[d] && OnlyRowChanged(v, role, kd, v', d, x)
    ensures forall j: nat :: j < 1024 ==> Leaf(v', d, x, j).None?
    decreases 1024 - y
  {
    hide Inv, Isolated, FreeEntries, Remove, OnlyRowChanged;
    UnfoldFreeEntries(v, d, x, Frame(v.page[d][x]), y);
    if y == 1024 {
      v', role' := v, role;
      IsolatedRefl(v, role, kd, d);
      RowRefl(v, role, kd, d, x);
    } else if Leaf(v, d, x, y).None? {
      v', role' := FreeEntriesSteps(v, role, kd, d, x, y + 1);
    } else {
      var v1, role1 := RemoveRow(v, role, kd, d, x, y);
      IsolatedKeepsDir(v, role, kd, v1, role1, d);
      v', role' := FreeEntriesSteps(v1, role1, kd, d, x, y + 1);
      IsolatedTrans(v, role, kd, v1, role1, v', role', d);
      RowTrans(v, role, kd, v1, role1, v', d, x);
    }
  }

  lemma RowRefl(v: Vm, role: seq<Role>, kd: nat, d: nat, x: nat)
    requires |v.page| == |role|
    ensures OnlyRowChanged(v, role, kd, v, d, x)
  {
  }

  lemma IsolatedKeepsDir(v: Vm, role: seq<Role>, kd: nat, v': Vm, role': seq<Role>, d: nat)
    requires Isolated(v, role, kd, v', role', d)
    ensures |role'| == |role| == |v'.page| == |v.page|
    ensures forall c :: 0 <= c < |role| && (role[c].Dir? || role'[c].Dir?) ==> role'[c] == role[c]
  {
  }

  lemma RowTrans(v: Vm, role: seq<Role>, kd: nat, v1: Vm, role1: seq<Role>, v2: Vm, d: nat, x: nat)
    requires OnlyRowChanged(v, role, kd, v1, d, x) && OnlyRowChanged(v1, role1, kd, v2, d, x)
    requires |role1| == |role| && forall c :: 0 <= c < |role| && (role[c].Dir? || role1[c].Dir?) ==> role1[c] == role[c]
    ensures OnlyRowChanged(v, role, kd, v2, d, x)
  {
    forall c: nat, i: nat, j: nat |
      IsDir(role, kd, c) && i < 1024 && j < 1024 && !(c == d && (i == x || (i == UVPTX && j == x)))
      ensures Leaf(v2, c, i, j) == Leaf(v, c, i, j)
    {
      assert IsDir(role1, kd, c);
      assert Leaf(v1, c, i, j) == Leaf(v, c, i, j);
    }
  }

  lemma FreeTableSteps(v: Vm, role: seq<Role>, kd: nat, d: nat, x: nat) returns (v': Vm, role': seq<Role>)
    requires Inv(v, role, kd) && d < |role| && role[d].Dir? && x < UTOPX
    ensures FreeTable(v, d, x) == Ok(v') && Inv(v', role', kd) && Isolated(v, role, kd, v', role', d)
    ensures !Present(v'.page[d][x])
    ensures forall i: nat :: i < 1024 && i != x ==> v'.page[d][i] == v.page[d][i]
  {
    if !Present(v.page[d][x]) {
      v', role' := v, role;
      IsolatedRefl(v, role, kd, d);
    } else {
      Target(v, role, kd, d, x);
      var v1, role1 := FreeEntriesSteps(v, role, kd, d, x, 0);
      IsolatedKeepsDir(v, role, kd, v1, role1, d);
      hide Inv, Isolated;
      var t: nat;
      v', t := DropTableKeepsInv(v1, role1, kd, d, x);
      role' := role1[t := Free];
      DropTableIsolated(v1, role1, kd, d, x, v', t);
      IsolatedTrans(v, role, kd, v1, role1, v', role', d);
    }
  }

  lemma DropTableIsolated(v: Vm, role: seq<Role>, kd: nat, d: nat, x: nat, v': Vm, t: nat)
    requires Inv(v, role, kd) && d < |role| && role[d].Dir? && x < UTOPX
    requires t < |role| && role[t] == Table(d, x) && v'.page == Store(v, d, x, 0).page
    requires forall c: nat, i: nat, j: nat :: IsDir(role, kd, c) && i < 1024 && j < 1024 ==>
               Leaf(v', c, i, j) == if c == d && i == UVPTX && j == x then None else Leaf(v, c, i, j)
    ensures Isolated(v, role, kd, v', role[t := Free], d)
  {
    OnlyTableChanged(v, role, kd, v', d, d);
    hide Inv;
  }

  lemma {:induction false} FreeTablesSteps(v: Vm, role: seq<Role>, kd: nat, d: nat, x: nat)
    returns (v': Vm, role': seq<Role>)
    requires Inv(v, role, kd) && d < |role| && role[d].Dir? && x <= UTOPX
    requires forall i: nat :: i < x ==> !Present(v.page[d][i])
    ensures FreeTables(v, d, x) == Ok(v') && Inv(v', role', kd) && Isolated(v, role, kd, v', role', d)
    ensures forall i: nat :: i < UTOPX ==> !Present(v'.page[d][i])
    decreases UTOPX - x
  {
    hide Inv, Isolated;
    if x == UTOPX {
      v', role' := v, role;
      IsolatedRefl(v, role, kd, d);
    } else {
      var v1, role1 := FreeTableSteps(v, role, kd, d, x);
      IsolatedKeepsDir(v, role, kd, v1, role1, d);
      v', role' := FreeTablesSteps(v1, role1, kd, d, x + 1);
      IsolatedTrans(v, role, kd, v1, role1, v', role', d);
    }
  }

  /** Task::free never panics and never links a ring; it keeps the invariant, the directory's
      frame is free afterwards, and no other address space changes. */
  lemma FreeSpaceSteps(v: Vm, role: seq<Role>, kd: nat, d: nat) returns (v': Vm, role': seq<Role>)
    requires Inv(v, role, kd) && d < |role| && role[d].Dir?
    ensures FreeSpace(v, d) == Ok(v') && Inv(v', role', kd)
    ensures |role'| == |role| && role'[d] == Free && OnlyChurn(role, role'[d := role[d]], d)
    ensures SameWalks(v, role, kd, v', d) && SameContents(v, role, v', d)
  {
    var v1, role1 := FreeTablesSteps(v, role, kd, d, 0);
    IsolatedKeepsDir(v, role, kd, v1, role1, d);
    v' := DropDirKeepsInv(v1, role1, kd, d);
    role' := role1[d := Free];
    hide Inv;
    SamePagesWalk(v, role, kd, v1, v', d);
    assert role'[d := role[d]] == role1;
  }

  lemma SamePagesWalk(v: Vm, role: seq<Role>, kd: nat, v1: Vm, v2: Vm, d: nat)
    requires SameWalks(v, role, kd, v1, d) && SameContents(v, role, v1, d) && v2.page == v1.page
    ensures SameWalks(v, role, kd, v2, d) && SameContents(v, role, v2, d)
  {
    forall c: nat, i: nat, j: nat | c != d && IsDir(role, kd, c) && i < 1024 && j < 1024
      ensures Leaf(v2, c, i, j) == Leaf(v, c, i, j)
    {
      assert Leaf(v1, c, i, j) == Leaf(v, c, i, j);
    }
  }
}
