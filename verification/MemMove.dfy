/** mem::copy and mem::move (lib/string.cc) on a memory of bytes, for any overlap of the two ranges. */
module MemMove {
  import opened Mmu

  /** The bytes from src on, put at dest, all read before the first is written. */
  function Moved(s: seq<Byte>, dest: nat, src: nat, count: nat): (r: seq<Byte>)
    requires dest + count <= |s| && src + count <= |s|
    ensures |r| == |s|
    ensures forall k :: 0 <= k < |s| ==> r[k] == if dest <= k < dest + count then s[src + (k - dest)] else s[k]
  {
    s[..dest] + s[src..src + count] + s[dest + count..]
  }

  /** k modulo d. */
  function Phase(k: nat, d: nat): (r: nat)
    requires d > 0
    ensures r < d && r <= k && (k < d ==> r == k)
    decreases k
  {
    if k < d then k else Phase(k - d, d)
  }

  /** Memory a is s, except that bytes i and on of the range have arrived at dest. */
  ghost predicate Arrived(a: seq<Byte>, s: seq<Byte>, dest: nat, src: nat, i: nat, count: nat) {
    && |a| == |s| && dest + count <= |s| && src + count <= |s| && i <= count
    && forall j :: 0 <= j < |s| ==> a[j] == Mixed(s, dest, src, i, count, j)
  }

  function Mixed(s: seq<Byte>, dest: nat, src: nat, i: nat, count: nat, j: nat): Byte
    requires dest + count <= |s| && src + count <= |s| && j < |s|
  {
    if dest + i <= j < dest + count then s[src + (j - dest)] else s[j]
  }

  lemma ArrivedAll(a: seq<Byte>, s: seq<Byte>, dest: nat, src: nat, count: nat)
    requires Arrived(a, s, dest, src, 0, count)
    ensures a == Moved(s, dest, src, count)
  {
  }

  /** What a copy front to back leaves: where the ranges overlap with dest above src, the first
      dest - src bytes repeat. */
  function Repeated(s: seq<Byte>, dest: nat, src: nat, count: nat): (r: seq<Byte>)
    requires dest + count <= |s| && src + count <= |s|
    ensures |r| == |s| && forall k :: 0 <= k < |s| ==> r[k] == RepeatedAt(s, dest, src, count, k)
  {
    seq(|s|, k requires 0 <= k < |s| => RepeatedAt(s, dest, src, count, k))
  }

  function RepeatedAt(s: seq<Byte>, dest: nat, src: nat, count: nat, k: nat): Byte
    requires dest + count <= |s| && src + count <= |s| && k < |s|
  {
    if !(dest <= k < dest + count) then s[k]
    else if src < dest then s[src + Phase(k - dest, dest - src)]
    else s[src + (k - dest)]
  }

  /** mem::copy: byte by byte from the front. */
  method Copy(a: array<Byte>, dest: nat, src: nat, count: nat)
    requires dest + count <= a.Length && src + count <= a.Length
    modifies a
    ensures a[..] == Repeated(old(a[..]), dest, src, count)
  {
    ghost var s := a[..];
    var k := 0;
    while k < count
      invariant 0 <= k <= count && a[..] == Repeated(s, dest, src, k)
    {
      ghost var b := a[..];
      a[dest + k] := a[src + k];
      assert a[..] == b[..dest + k] + [b[src + k]] + b[dest + k + 1..];
      RepeatOne(s, dest, src, k);
      k := k + 1;
    }
  }

  lemma RepeatOne(s: seq<Byte>, dest: nat, src: nat, k: nat)
    requires dest + k < |s| && src + k < |s|
    ensures var b := Repeated(s, dest, src, k);
            b[..dest + k] + [b[src + k]] + b[dest + k + 1..] == Repeated(s, dest, src, k + 1)
  {
    hide Phase;
    var b, r := Repeated(s, dest, src, k), Repeated(s, dest, src, k + 1);
    if src < dest {
      PhaseStep(k, dest - src);
    }
    assert b[src + k] == RepeatedAt(s, dest, src, k, src + k) == RepeatedAt(s, dest, src, k + 1, dest + k);
    forall j | 0 <= j < |s|
      ensures r[j] == if j == dest + k then b[src + k] else b[j]
    {
    }
  }

  lemma PhaseStep(k: nat, d: nat)
    requires d > 0
    ensures k < d ==> Phase(k, d) == k
    ensures k >= d ==> Phase(k, d) == Phase(k - d, d)
  {
  }

  /** The bytes of the source range repeat with period d. */
  ghost predicate Repeats(s: seq<Byte>, src: nat, d: nat, count: nat)
    requires src + count <= |s|
  {
    forall k :: src <= k && k + d < src + count ==> s[k] == s[k + d]
  }

  /** A copy front to back is a move exactly when the ranges do not overlap that way, or the bytes
      that it reads repeat with the distance of the ranges anyway. */
  lemma CopyMovesIff(s: seq<Byte>, dest: nat, src: nat, count: nat)
    requires dest + count <= |s| && src + count <= |s|
    ensures Repeated(s, dest, src, count) == Moved(s, dest, src, count) <==>
        (src < dest ==> Repeats(s, src, dest - src, count))
  {
    hide Phase, Repeats;
    if src >= dest {
      CopyBelow(s, dest, src, count);
    } else if Repeats(s, src, dest - src, count) {
      CopyRepeating(s, dest, src, count);
    } else {
      CopyDiffers(s, dest, src, count);
    }
  }

  lemma CopyBelow(s: seq<Byte>, dest: nat, src: nat, count: nat)
    requires dest + count <= |s| && src + count <= |s| && src >= dest
    ensures Repeated(s, dest, src, count) == Moved(s, dest, src, count)
  {
  }

  lemma CopyRepeating(s: seq<Byte>, dest: nat, src: nat, count: nat)
    requires dest + count <= |s| && src < dest && Repeats(s, src, dest - src, count)
    ensures Repeated(s, dest, src, count) == Moved(s, dest, src, count)
  {
    hide Phase, Repeats;
    var r, m := Repeated(s, dest, src, count), Moved(s, dest, src, count);
    forall j | 0 <= j < |s|
      ensures r[j] == m[j]
    {
      if dest <= j < dest + count {
        Periodic(s, src, dest - src, count, j - dest);
      }
    }
  }

  lemma CopyDiffers(s: seq<Byte>, dest: nat, src: nat, count: nat)
    requires dest + count <= |s| && src < dest && !Repeats(s, src, dest - src, count)
    ensures Repeated(s, dest, src, count) != Moved(s, dest, src, count)
  {
    var k :| src <= k && k + (dest - src) < src + count && s[k] != s[k + (dest - src)];
    hide Phase, Repeats;
    CopyDiffersAt(s, dest, src, count, k - src);
  }

  lemma CopyDiffersAt(s: seq<Byte>, dest: nat, src: nat, count: nat, i: nat)
    requires dest + count <= |s| && src < dest && i + (dest - src) < count && s[src + i] != s[dest + i]
    ensures Repeated(s, dest, src, count) != Moved(s, dest, src, count)
  {
    hide Phase;
    var p, q := dest + i, dest + (dest - src + i);
    PhaseStep(dest - src + i, dest - src);
    var r, m := Repeated(s, dest, src, count), Moved(s, dest, src, count);
    assert r[p] == r[q];
    assert m[p] == s[src + i] && m[q] == s[dest + i];
  }

  lemma {:induction false} Periodic(s: seq<Byte>, src: nat, d: nat, count: nat, k: nat)
    requires d > 0 && src + count <= |s| && k < count
    requires Repeats(s, src, d, count)
    ensures s[src + k] == s[src + Phase(k, d)]
    decreases k
  {
    PhaseStep(k, d);
    if k >= d {
      Periodic(s, src, d, count, k - d);
      assert s[src + (k - d)] == s[src + (k - d) + d];
    }
  }

  /** sizeof(long) */
  const WORD: nat := 4

  /** mem::move: the destination holds the original source bytes, and nothing else changes. */
  method Move(a: array<Byte>, dest: nat, src: nat, count: nat)
    requires dest + count <= a.Length && src + count <= a.Length
    modifies a
    ensures a[..] == Moved(old(a[..]), dest, src, count)
  {
    if dest < src {
      Copy(a, dest, src, count);
      CopyMovesIff(old(a[..]), dest, src, count);
    } else if dest % WORD == 0 && src % WORD == 0 && count % WORD == 0 {
      MoveWords(a, dest, src, count / WORD);
    } else {
      MoveBytes(a, dest, src, count);
    }
  }

  /** Back to front by words: each word is read as a whole before it is written. */
  method MoveWords(a: array<Byte>, dest: nat, src: nat, words: nat)
    requires src <= dest && dest + WORD * words <= a.Length
    modifies a
    ensures a[..] == Moved(old(a[..]), dest, src, WORD * words)
  {
    ghost var s := a[..];
    var i := words;
    while i > 0
      invariant 0 <= i <= words && Arrived(a[..], s, dest, src, WORD * i, WORD * words)
    {
      i := i - 1;
      MoveWord(a, s, dest, src, WORD * i, WORD * words);
    }
    ArrivedAll(a[..], s, dest, src, WORD * words);
  }

  /** The word at offset i of such a move. */
  method MoveWord(a: array<Byte>, ghost s: seq<Byte>, dest: nat, src: nat, i: nat, count: nat)
    requires src <= dest && Arrived(a[..], s, dest, src, i + WORD, count)
    modifies a
    ensures Arrived(a[..], s, dest, src, i, count)
  {
    var d, f := dest + i, src + i;
    assert forall j :: f <= j < f + WORD ==> a[..][j] == Mixed(s, dest, src, i + WORD, count, j) == s[j];
    assert a[f] == s[f] && a[f + 1] == s[f + 1] && a[f + 2] == s[f + 2] && a[f + 3] == s[f + 3];
    ghost var b := a[..];
    a[d], a[d + 1], a[d + 2], a[d + 3] := a[f], a[f + 1], a[f + 2], a[f + 3];
    assert a[..] == b[..d] + s[f..f + WORD] + b[d + WORD..];
  }

  /** Back to front by bytes. */
  method MoveBytes(a: array<Byte>, dest: nat, src: nat, count: nat)
    requires src <= dest && dest + count <= a.Length
    modifies a
    ensures a[..] == Moved(old(a[..]), dest, src, count)
  {
    ghost var s := a[..];
    var i := count;
    while i > 0
      invariant 0 <= i <= count && Arrived(a[..], s, dest, src, i, count)
    {
      ghost var b := a[..];
      assert b[src + i - 1] == Mixed(s, dest, src, i, count, src + i - 1) == s[src + i - 1];
      a[dest + i - 1] := a[src + i - 1];
      assert a[..] == b[..dest + i - 1] + [s[src + i - 1]] + b[dest + i..];
      i := i - 1;
    }
    ArrivedAll(a[..], s, dest, src, count);
  }
}
