/**
 Who owns each physical frame, and what its reference count must therefore be.

 A role is recorded for every frame. The invariant says that the contents of directories and
 tables agree with the roles, that the free list holds exactly the free frames, and that every
 count is the number of references to the frame.
 */
module Ownership {
  import opened Wrappers
  import opened Mmu
  import opened PageTables

  datatype Role =
    | Kernel                         // boot memory, the kernel's directory and its tables
    | Free                           // on the free list
    | InFlight                       // allocated, not yet referenced
    | Lost                           // counted once, but no longer referenced by anything
    | Dir(owner: nat)                // the page directory of the task in slot owner
    | Table(dir: nat, pdx: nat)      // the page table in slot pdx of a task's directory
    | Data                           // mapped below UTOP

  /** A place below UTOP that refers to a data frame. */
  datatype Slot = Slot(dir: nat, pdx: nat, ptx: nat)

  /** Entry (x, y) of directory d names frame g. */
  predicate Maps(v: Vm, d: nat, x: nat, y: nat, g: nat)
    requires d < |v.page| && x < 1024 && y < 1024
  {
    Leaf(v, d, x, y).Some? && Frame(Leaf(v, d, x, y).value) == g
  }

  /** All entries below UTOP, in all task directories, that map frame g. */
  ghost function Mappings(v: Vm, role: seq<Role>, g: nat): set<Slot>
    requires |role| == |v.page|
  {
    set d, x, y | 0 <= d < |v.page| && 0 <= x < UTOPX && 0 <= y < 1024 && role[d].Dir? && Maps(v, d, x, y, g)
      :: Slot(d, x, y)
  }

  // The invariant, clause by clause

  ghost predicate CountsAgree(v: Vm, role: seq<Role>)
    requires |role| == |v.page| == |v.rc|
  {
    forall f :: 0 <= f < |role| ==>
      && (role[f].Free? || role[f].InFlight? ==> v.rc[f] == 0)
      && (role[f].Dir? || role[f].Table? || role[f].Lost? ==> v.rc[f] == 1)
      && (role[f].Data? ==> v.rc[f] == |Mappings(v, role, f)| > 0)
  }

  ghost predicate FreeAgrees(v: Vm, role: seq<Role>)
    requires |role| == |v.page|
  {
    forall f :: 0 <= f < |role| ==> (role[f].Free? <==> f in v.free)
  }

  /** Below UTOP, the present entries of task directories are exactly the page tables. */
  ghost predicate TablesAgree(v: Vm, role: seq<Role>)
    requires |role| == |v.page|
  {
    && (forall d, x :: 0 <= d < |role| && role[d].Dir? && 0 <= x < UTOPX && Present(v.page[d][x]) ==>
        Frame(v.page[d][x]) < |role| && role[Frame(v.page[d][x])] == Table(d, x))
    && (forall t :: 0 <= t < |role| && role[t].Table? ==>
        && role[t].dir < |role| && role[role[t].dir].Dir? && role[t].pdx < UTOPX
        && Present(v.page[role[t].dir][role[t].pdx]) && Frame(v.page[role[t].dir][role[t].pdx]) == t)
  }

  /** The present entries of page tables name data frames. */
  ghost predicate DataAgrees(v: Vm, role: seq<Role>)
    requires |role| == |v.page|
  {
    forall t, y :: 0 <= t < |role| && role[t].Table? && 0 <= y < 1024 && Present(v.page[t][y]) ==>
      Frame(v.page[t][y]) < |role| && role[Frame(v.page[t][y])].Data?
  }

  /** The self-map entry of directory d: physical address | PTE_U | PTE_P. */
  function SelfMap(d: nat): Word
    requires d < 0x10_0000
  {
    MakePte(d, PTE_U + PTE_P)
  }

  /** The kernel's directory kd: nothing below UTOP, kernel tables above, all different. */
  ghost predicate KernelHalf(v: Vm, role: seq<Role>, kd: nat)
    requires |role| == |v.page| <= 0x2_0000
  {
    && kd < |role| && role[kd].Kernel?
    && (forall x :: 0 <= x < UTOPX ==> !Present(v.page[kd][x]))
    && (forall x :: UTOPX <= x < 1024 && x != UVPTX && Present(v.page[kd][x]) ==>
        Frame(v.page[kd][x]) < |role| && role[Frame(v.page[kd][x])].Kernel? && Frame(v.page[kd][x]) != kd)
    && (forall x, y ::
          (&& UTOPX <= x < 1024 && UTOPX <= y < 1024 && x != y && x != UVPTX && y != UVPTX
           && Present(v.page[kd][x]) && Present(v.page[kd][y]))
          ==> Frame(v.page[kd][x]) != Frame(v.page[kd][y]))
    && v.page[kd][UVPTX] == SelfMap(kd)
  }

  /** Every task directory repeats the kernel's entries above UTOP, except for its self-map. */
  ghost predicate HalvesAgree(v: Vm, role: seq<Role>, kd: nat)
    requires |role| == |v.page| <= 0x2_0000 && kd < |role|
  {
    forall d, x :: 0 <= d < |role| && role[d].Dir? && UTOPX <= x < 1024 ==>
      v.page[d][x] == if x == UVPTX then SelfMap(d) else v.page[kd][x]
  }

  ghost predicate Inv(v: Vm, role: seq<Role>, kd: nat)
    ensures Inv(v, role, kd) ==> Wf(v) && |role| == |v.page| == |v.rc| && kd < |role| && role[kd].Kernel?
  {
    && Wf(v)
    && |role| == |v.page|
    && FreeAgrees(v, role)
    && TablesAgree(v, role)
    && DataAgrees(v, role)
    && KernelHalf(v, role, kd)
    && HalvesAgree(v, role, kd)
    && CountsAgree(v, role)
  }
}
