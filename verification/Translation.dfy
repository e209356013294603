/**
 The two-level tables as a map from pages to entries: what each step of the page-table editor
 does to every translation of every live directory.
 */
module Translation {
  import opened Wrappers
  import opened Mmu
  import opened PageTables
  import opened Ownership

  /** c is a directory that the processor may walk: the kernel's or a task's. */
  ghost predicate IsDir(role: seq<Role>, kd: nat, c: nat) {
    c < |role| && (role[c].Dir? || c == kd)
  }

  /** No frame is a task's directory. */
  ghost predicate NoTasks(role: seq<Role>) {
    forall d :: 0 <= d < |role| ==> !role[d].Dir?
  }

  /** What a present directory entry can name. */
  lemma Target(v: Vm, role: seq<Role>, kd: nat, c: nat, x: nat)
    requires Inv(v, role, kd) && IsDir(role, kd, c) && x < 1024 && Present(v.page[c][x])
    ensures var t := Frame(v.page[c][x]);
            && t < |role|
            && (x < UTOPX ==> role[c].Dir? && role[t] == Table(c, x))
            && (UTOPX <= x && x != UVPTX ==> role[t].Kernel?)
            && (x == UVPTX ==> t == c)
  {
    if role[c].Dir? && UTOPX <= x {
      assert v.page[c][x] == if x == UVPTX then SelfMap(c) else v.page[kd][x];
    }
  }

  /** Installing a page table changes no translation but one: the new directory entry itself
      becomes visible through the self-map of the same directory. */
  lemma InstallTableLeaf(v: Vm, role: seq<Role>, kd: nat, d: nat, x: nat, c: nat, i: nat, j: nat)
    requires Inv(v, role, kd) && IsDir(role, kd, d) && x < 1024 && v.free != []
    requires !Present(v.page[d][x])
    requires IsDir(role, kd, c) && i < 1024 && j < 1024
    ensures var v' := InstallTable(v, d, x);
            Leaf(v', c, i, j) ==
              if c == d && i == UVPTX && j == x then Some(MakePte(v.free[0], PTE_P + PTE_W + PTE_U))
                else Leaf(v, c, i, j)
  {
    var f := v.free[0];
    var v' := InstallTable(v, d, x);
    assert role[f].Free? by { assert f in v.free; }
    InstallWrites(v, d, x);
    hide InstallTable;
    if c == d && i == x {
      assert v'.page[f][j] == 0;
    } else if Present(v.page[c][i]) {
      Target(v, role, kd, c, i);
      assert v'.page[c][i] == v.page[c][i];
      var t := Frame(v.page[c][i]);
      assert t != f;
      if t == d {
        assert c == d && i == UVPTX;
      }
    }
  }

  lemma InstallWrites(v: Vm, d: nat, x: nat)
    requires Wf(v) && d < |v.page| && x < 1024 && v.free != [] && v.free[0] != d
    ensures v.free[0] < |v.page| <= 0x2_0000
    ensures var v', f := InstallTable(v, d, x), v.free[0];
            && |v'.page| == |v.page| && v'.page[d] == v.page[d][x := MakePte(f, PTE_P + PTE_W + PTE_U)]
            && v'.page[f] == ZeroPage() && forall g :: 0 <= g < |v.page| && g != f && g != d ==> v'.page[g] == v.page[g]
  {
  }

  /** Storing one entry of a page table below UTOP changes exactly that translation. */
  lemma StoreEntryLeaf(v: Vm, role: seq<Role>, kd: nat, d: nat, x: nat, y: nat, w: Word, c: nat, i: nat, j: nat)
    requires Inv(v, role, kd) && d < |role| && role[d].Dir? && x < UTOPX && y < 1024
    requires Present(v.page[d][x])
    requires IsDir(role, kd, c) && i < 1024 && j < 1024
    ensures Frame(v.page[d][x]) < |v.page|
    ensures var v' := Store(v, Frame(v.page[d][x]), y, w);
            Leaf(v', c, i, j) ==
              if c == d && i == x && j == y then (if Present(w) then Some(w) else None) else Leaf(v, c, i, j)
  {
    Target(v, role, kd, d, x);
    var t := Frame(v.page[d][x]);
    var v' := Store(v, t, y, w);
    assert v'.page[c] == v.page[c];
    if Present(v.page[c][i]) {
      Target(v, role, kd, c, i);
      if Frame(v.page[c][i]) == t {
        assert c == d && i == x;
      }
    }
  }

  /** Clearing a directory entry below UTOP whose table is empty changes no translation, except
      that the entry itself disappears from the self-map of that directory. */
  lemma DropTableLeaf(v: Vm, role: seq<Role>, kd: nat, d: nat, x: nat, c: nat, i: nat, j: nat)
    requires Inv(v, role, kd) && d < |role| && role[d].Dir? && x < UTOPX
    requires forall y :: 0 <= y < 1024 ==> Leaf(v, d, x, y).None?
    requires IsDir(role, kd, c) && i < 1024 && j < 1024
    ensures Leaf(Store(v, d, x, 0), c, i, j) ==
              if c == d && i == UVPTX && j == x then None else Leaf(v, c, i, j)
  {
    var v' := Store(v, d, x, 0);
    if c == d && i == x {
      assert Leaf(v, d, x, j).None?;
    } else if Present(v.page[c][i]) {
      Target(v, role, kd, c, i);
      assert v'.page[c][i] == v.page[c][i];
      if Frame(v.page[c][i]) == d {
        assert c == d && i == UVPTX;
      }
    }
  }

  // Sets of mappings

  lemma SameMappings(v: Vm, role: seq<Role>, v': Vm, role': seq<Role>, g: nat)
    requires |role| == |v.page| == |v'.page| == |role'|
    requires forall d :: 0 <= d < |role| ==> role[d].Dir? == role'[d].Dir?
    requires forall d, x, y :: 0 <= d < |role| && role[d].Dir? && 0 <= x < UTOPX && 0 <= y < 1024 ==>
               Leaf(v', d, x, y) == Leaf(v, d, x, y)
    ensures Mappings(v', role', g) == Mappings(v, role, g)
  {
  }

  lemma EditMappings(v: Vm, role: seq<Role>, v': Vm, role': seq<Role>, d: nat, x: nat, y: nat, g: nat)
    requires |role| == |v.page| == |v'.page| == |role'|
    requires forall c :: 0 <= c < |role| ==> role[c].Dir? == role'[c].Dir?
    requires d < |role| && role[d].Dir? && x < UTOPX && y < 1024
    requires forall c, i, j ::
               0 <= c < |role| && role[c].Dir? && 0 <= i < UTOPX && 0 <= j < 1024 && !(c == d && i == x && j == y) ==>
                 Leaf(v', c, i, j) == Leaf(v, c, i, j)
    ensures |Mappings(v', role', g)| ==
              |Mappings(v, role, g)| + (if Maps(v', d, x, y, g) then 1 else 0) - (if Maps(v, d, x, y, g) then 1 else 0)
    ensures Slot(d, x, y) in Mappings(v, role, g) <==> Maps(v, d, x, y, g)
  {
    var s := Slot(d, x, y);
    assert Mappings(v', role', g) ==
      if Maps(v', d, x, y, g) then Mappings(v, role, g) + {s} else Mappings(v, role, g) - {s};
  }

  /**
   The UVPT window: below its own entry, every live directory shows its present entries as pages that the user
   may read, if they are the user's, and may not write.
   */
  lemma OwnDirectoryIsReadable(v: Vm, role: seq<Role>, kd: nat, d: nat, x: nat)
    requires Inv(v, role, kd) && IsDir(role, kd, d) && x < 1024
    ensures var e := v.page[d][893];
            e % 8 == 5 && Frame(e) == d && (Leaf(v, d, 893, x) == if Present(v.page[d][x]) then Some(v.page[d][x])
              else None)
  {
    assert |v.page| <= 0x2_0000 && d < |v.page| && v.page[d][UVPTX] == SelfMap(d);
    hide Inv;
    SelfMapBits(d);
  }

  lemma SelfMapBits(d: nat)
    requires d < 0x10_0000
    ensures SelfMap(d) % 8 == 5 && SelfMap(d) % 2 == 1 && Frame(SelfMap(d)) == d
  {
    hide SelfMap, Frame;
    UserBit(d, 5);
    PresentBit(d, 5);
    SelfMapIs(d);
  }

  lemma SelfMapIs(d: nat)
    requires d < 0x10_0000
    ensures SelfMap(d) == d * 0x1000 + 5 && Frame(SelfMap(d)) == d
  {
  }
}
