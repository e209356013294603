/** Intrusive singly linked free lists: a head and one link per slot, as used for page frames
    (PageInfo::nextFree in kernel/vmem.cc) and for task slots (Task::nextFree in kernel/task.cc). */
module FreeList {

  /** The null link. */
  const NIL: int := -1

  /** The link that element i of the list must carry. */
  function LinkAfter(s: seq<nat>, i: nat): int {
    if i + 1 < |s| then s[i + 1] else NIL
  }

  /** The links starting at head visit exactly the slots of s, in order, and end in NIL. */
  ghost predicate IsList(next: seq<int>, head: int, s: seq<nat>) {
    && head == (if s == [] then NIL else s[0])
    && (forall i :: 0 <= i < |s| ==> s[i] < |next|)
    && (forall i :: 0 <= i < |s| ==> next[s[i]] == LinkAfter(s, i))
    && Distinct(s)
  }

  ghost predicate Distinct(s: seq<nat>) {
    forall i, j :: 0 <= i < j < |s| ==> s[i] != s[j]
  }

  lemma PushDistinct(s: seq<nat>, f: nat)
    requires Distinct(s) && f !in s
    ensures Distinct([f] + s)
  {
    var t := [f] + s;
    forall i, j | 0 <= i < j < |t|
      ensures t[i] != t[j]
    {
      assert t[j] == s[j - 1] && s[j - 1] in s;
      if i > 0 {
        assert t[i] == s[i - 1];
      }
    }
  }

  /** Following the links from head reaches NIL. */
  ghost predicate EndsInNil(next: seq<int>, head: int) {
    exists s :: IsList(next, head, s)
  }

  /** Slots that are not on the list carry a null link. */
  ghost predicate Unlinked(next: seq<int>, s: seq<nat>) {
    forall f :: 0 <= f < |next| && f !in s ==> next[f] == NIL
  }

  lemma PopList(next: seq<int>, head: int, s: seq<nat>)
    requires IsList(next, head, s) && Unlinked(next, s) && s != []
    ensures 0 <= head < |next|
    ensures IsList(next[head := NIL], next[head], s[1..])
    ensures Unlinked(next[head := NIL], s[1..])
  {
    ListTail(next, head, s);
    var t := s[1..];
    HeadNotInTail(s);
    forall i | 0 <= i < |t|
      ensures next[head := NIL][t[i]] == LinkAfter(t, i)
    {
      assert t[i] in t;
    }
    assert forall g :: g in s <==> g == head || g in t by {
      assert s == [s[0]] + t;
    }
  }

  lemma HeadNotInTail(s: seq<nat>)
    requires Distinct(s) && s != []
    ensures s[0] !in s[1..] && Distinct(s[1..])
  {
    var t := s[1..];
    assert forall i :: 0 <= i < |t| ==> t[i] == s[i + 1];
  }

  /** Pushing a slot that is not on the list. */
  lemma PushLinks(next: seq<int>, head: int, s: seq<nat>, f: nat)
    requires IsList(next, head, s) && f < |next| && f !in s
    ensures IsList(next[f := head], f, [f] + s)
  {
    var t, n := [f] + s, next[f := head];
    forall i | 0 <= i < |t|
      ensures t[i] < |n| && n[t[i]] == LinkAfter(t, i)
    {
      if i > 0 {
        assert t[i] == s[i - 1] && s[i - 1] in s;
        assert next[s[i - 1]] == LinkAfter(s, i - 1);
      }
    }
    PushDistinct(s, f);
  }

  lemma PushList(next: seq<int>, head: int, s: seq<nat>, f: nat)
    requires IsList(next, head, s) && Unlinked(next, s) && f < |next| && f !in s
    ensures IsList(next[f := head], f, [f] + s)
    ensures Unlinked(next[f := head], [f] + s)
  {
    PushLinks(next, head, s, f);
    assert forall g :: g in [f] + s <==> g == f || g in s;
  }

  /** The links determine the list. */
  lemma {:induction false} ListUnique(next: seq<int>, head: int, s: seq<nat>, t: seq<nat>)
    requires IsList(next, head, s) && IsList(next, head, t)
    ensures s == t
    decreases |s|
  {
    if s == [] || t == [] {
      assert |s| == |t| == 0;
    } else {
      ListTail(next, head, s);
      ListTail(next, head, t);
      ListUnique(next, next[head], s[1..], t[1..]);
      assert s == [head] + s[1..] && t == [head] + t[1..];
    }
  }

  lemma ListTail(next: seq<int>, head: int, s: seq<nat>)
    requires IsList(next, head, s) && s != []
    ensures 0 <= head < |next| && IsList(next, next[head], s[1..])
  {
    assert next[s[0]] == LinkAfter(s, 0);
    ListSuffixLinks(next, head, s, 1);
  }

  /** The head of a list, and the list without it. */
  lemma ListHead(next: seq<int>, head: int, s: seq<nat>)
    requires IsList(next, head, s)
    ensures head == NIL <==> s == []
    ensures head != NIL ==> 0 <= head < |next| && head == s[0] && IsList(next, next[head], s[1..])
  {
    if s != [] {
      ListTail(next, head, s);
    }
  }

  lemma ListSuffixLinks(next: seq<int>, head: int, s: seq<nat>, k: nat)
    requires IsList(next, head, s) && k <= |s|
    ensures IsList(next, if k < |s| then s[k] else NIL, s[k..])
  {
    var t := s[k..];
    forall i | 0 <= i < |t|
      ensures t[i] < |next| && next[t[i]] == LinkAfter(t, i)
    {
      assert t[i] == s[k + i];
      assert next[s[k + i]] == LinkAfter(s, k + i);
    }
  }

  /**
   Releasing a slot pushes it on the list. The result is a list again exactly when the slot was
   not on it; a slot released twice closes the links into a ring.
   */
  lemma PushIsListIff(next: seq<int>, head: int, s: seq<nat>, f: nat)
    requires IsList(next, head, s) && Unlinked(next, s) && f < |next|
    ensures EndsInNil(next[f := head], f) <==> f !in s
  {
    if f !in s {
      PushList(next, head, s, f);
    } else {
      var n := next[f := head];
      var k :| 0 <= k < |s| && s[k] == f;
      forall t | IsList(n, f, t)
        ensures false
      {
        RingHasNoEnd(next, head, s, k, t, 0);
      }
    }
  }

  /** In the ring made by pushing s[k] again, the walk passes s[0], ..., s[k] and is back at s[k],
      so no list without repetitions describes it. */
  lemma {:induction false} RingHasNoEnd(next: seq<int>, head: int, s: seq<nat>, k: nat, t: seq<nat>, i: nat)
    requires IsList(next, head, s) && k < |s| && IsList(next[s[k] := head], s[k], t)
    requires i <= k && i < |t| && t[i] == if i == 0 then s[k] else s[i - 1]
    ensures false
    decreases k - i
  {
    var n := next[s[k] := head];
    assert next[s[i]] == LinkAfter(s, i);
    if i > 0 {
      assert next[s[i - 1]] == LinkAfter(s, i - 1);
    }
    assert n[t[i]] == LinkAfter(t, i);
    assert i + 1 < |t| && t[i + 1] == s[i];
    if i < k {
      RingHasNoEnd(next, head, s, k, t, i + 1);
    }
  }

  /** A slot with a null link is not on the list, or is its last element. */
  lemma LinkedIff(next: seq<int>, head: int, s: seq<nat>, f: nat)
    requires IsList(next, head, s) && Unlinked(next, s) && f < |next|
    ensures next[f] != NIL <==> f in s && f != s[|s| - 1]
  {
    if f in s {
      var i :| 0 <= i < |s| && s[i] == f;
      assert next[s[i]] == LinkAfter(s, i);
    }
  }

  /** The check of PageInfo::free: no count, and a null link. */
  predicate PassesCheck(next: seq<int>, f: nat, count: nat)
    requires f < |next|
  {
    count == 0 && next[f] == NIL
  }

  /**
   PageInfo::free in full. Its check lets a slot through exactly when it is not counted and either
   not on the list or the last one on it. A slot that passes is put in front of the list if it was
   not on it; the last slot of the list passes too, and closes the links into a ring.
   */
  lemma ReleaseIff(next: seq<int>, head: int, s: seq<nat>, f: nat, count: nat)
    requires IsList(next, head, s) && Unlinked(next, s) && f < |next|
    ensures PassesCheck(next, f, count) <==> count == 0 && (f !in s || f == s[|s| - 1])
    ensures PassesCheck(next, f, count) && f !in s ==>
              IsList(next[f := head], f, [f] + s) && Unlinked(next[f := head], [f] + s)
    ensures PassesCheck(next, f, count) ==> (EndsInNil(next[f := head], f) <==> f !in s)
  {
    hide IsList, Unlinked, EndsInNil;
    LinkedIff(next, head, s, f);
    PushIsListIff(next, head, s, f);
    if f !in s {
      PushList(next, head, s, f);
    }
  }

  /** PageInfo::freeCount: walking the links counts the elements of the list. */
  method Count(next: array<int>, head: int, ghost s: seq<nat>) returns (count: nat)
    requires IsList(next[..], head, s)
    ensures count == |s|
  {
    var p := head;
    count := 0;
    while p != NIL
      invariant count <= |s|
      invariant p == if count < |s| then s[count] else NIL
      decreases |s| - count
    {
      assert next[..][s[count]] == LinkAfter(s, count);
      count := count + 1;
      p := next[p];
    }
  }
}
