/** str::split (lib/string.cc) with quotes ignored: the tokenizer that cuts a C string in place. */
module Tokenizer {

  const NUL: char := '\0'
  const NIL: int := -1

  /** A maximal run of characters that are not delimiters: positions lo up to hi. */
  datatype Token = Token(lo: nat, hi: nat)

  function SkipDelimiters(s: string, ds: string, p: nat): (q: nat)
    requires p <= |s|
    ensures p <= q <= |s| && (q < |s| ==> s[q] !in ds) && forall k :: p <= k < q ==> s[k] in ds
    decreases |s| - p
  {
    if p < |s| && s[p] in ds then SkipDelimiters(s, ds, p + 1) else p
  }

  function TokenEnd(s: string, ds: string, p: nat): (q: nat)
    requires p <= |s|
    ensures p <= q <= |s| && (q < |s| ==> s[q] in ds) && forall k :: p <= k < q ==> s[k] !in ds
    decreases |s| - p
  {
    if p < |s| && s[p] !in ds then TokenEnd(s, ds, p + 1) else p
  }

  /** At most limit tokens of s, from position p on. */
  function Tokens(s: string, ds: string, p: nat, limit: nat): (ts: seq<Token>)
    requires p <= |s|
    ensures |ts| <= limit
    decreases limit
  {
    var lo := SkipDelimiters(s, ds, p);
    if limit == 0 || lo == |s| then []
    else
      var hi := TokenEnd(s, ds, lo);
      [Token(lo, hi)] + Tokens(s, ds, hi, limit - 1)
  }

  /** t is a maximal run of s without delimiters. */
  ghost predicate IsRun(s: string, ds: string, t: Token) {
    && t.lo < t.hi <= |s| && (forall j :: t.lo <= j < t.hi ==> s[j] !in ds)
    && (t.lo == 0 || s[t.lo - 1] in ds) && (t.hi == |s| || s[t.hi] in ds)
  }

  /** Maximal runs of s from position p on, in order and without overlap. */
  ghost predicate Runs(s: string, ds: string, p: nat, ts: seq<Token>) {
    && (forall k :: 0 <= k < |ts| ==> p <= ts[k].lo && IsRun(s, ds, ts[k]))
    && (forall k, l :: 0 <= k < l < |ts| ==> ts[k].hi < ts[l].lo)
  }

  lemma {:induction false} TokensAreRuns(s: string, ds: string, p: nat, limit: nat)
    requires p <= |s| && (p == 0 || p == |s| || s[p] in ds)
    ensures Runs(s, ds, p, Tokens(s, ds, p, limit))
    decreases limit
  {
    var lo := SkipDelimiters(s, ds, p);
    if limit > 0 && lo < |s| {
      var hi := TokenEnd(s, ds, lo);
      assert IsRun(s, ds, Token(lo, hi));
      var us := Tokens(s, ds, hi, limit - 1);
      TokensAreRuns(s, ds, hi, limit - 1);
      assert Tokens(s, ds, p, limit) == [Token(lo, hi)] + us;
      FirstRun(s, ds, p, Token(lo, hi), us);
    }
  }

  lemma FirstRun(s: string, ds: string, p: nat, t: Token, us: seq<Token>)
    requires IsRun(s, ds, t) && p <= t.lo && Runs(s, ds, t.hi, us)
    ensures Runs(s, ds, p, [t] + us)
  {
    forall k | 0 <= k < |us|
      ensures t.hi < us[k].lo
    {
      assert IsRun(s, ds, us[k]) && t.hi <= us[k].lo;
    }
  }

  /** Below the limit no run is missed: what is outside of all tokens is a delimiter. */
  lemma {:induction false} TokensCover(s: string, ds: string, p: nat, limit: nat, j: nat)
    requires p <= j < |s| && |Tokens(s, ds, p, limit)| < limit
    ensures var ts := Tokens(s, ds, p, limit);
            s[j] in ds || exists k :: 0 <= k < |ts| && ts[k].lo <= j < ts[k].hi
    decreases limit
  {
    var ts, lo := Tokens(s, ds, p, limit), SkipDelimiters(s, ds, p);
    if lo <= j {
      var hi := TokenEnd(s, ds, lo);
      if j < hi {
        assert ts[0].lo <= j < ts[0].hi;
      } else {
        TokensCover(s, ds, hi, limit - 1, j);
        var us := Tokens(s, ds, hi, limit - 1);
        if s[j] !in ds {
          var k :| 0 <= k < |us| && us[k].lo <= j < us[k].hi;
          assert ts[k + 1] == us[k];
        }
      }
    }
  }

  // The text after the cut

  /** The delimiters before position z are replaced by the null character. */
  function Cut(s: string, ds: string, z: nat): (t: string)
    ensures |t| == |s| && forall j :: 0 <= j < |s| ==> t[j] == if j < z && s[j] in ds then NUL else s[j]
  {
    seq(|s|, j requires 0 <= j < |s| => if j < z && s[j] in ds then NUL else s[j])
  }

  /** How far the text is cut: up to the last token if the limit was reached, or else to its end. */
  function CutPoint(s: string, ds: string, limit: nat): (z: nat)
  {
    var ts := Tokens(s, ds, 0, limit);
    if |ts| < limit then |s| else if limit == 0 then 0 else ts[limit - 1].lo
  }

  /** The C string that starts at position i. */
  function CString(t: string, i: nat): string
    requires i <= |t|
    decreases |t| - i
  {
    if i == |t| || t[i] == NUL then "" else [t[i]] + CString(t, i + 1)
  }

  lemma {:induction false} CStringIs(t: string, i: nat, e: nat)
    requires i <= e <= |t| && (e == |t| || t[e] == NUL) && forall j :: i <= j < e ==> t[j] != NUL
    ensures CString(t, i) == t[i..e]
    decreases e - i
  {
    if i < e {
      CStringIs(t, i + 1, e);
    }
  }

  /**
   Read back after the cut, each pointer gives its token; only when the limit is reached does the
   last one give the untouched remainder of the text.
   */
  lemma {:induction false} TokensReadBack(s: string, ds: string, limit: nat, k: nat)
    requires (forall j :: 0 <= j < |s| ==> s[j] != NUL) && k < |Tokens(s, ds, 0, limit)|
    ensures var ts := Tokens(s, ds, 0, limit);
            && ts[k].lo <= ts[k].hi <= |s|
            && CString(Cut(s, ds, CutPoint(s, ds, limit)), ts[k].lo) ==
               if k == limit - 1 then s[ts[k].lo..] else s[ts[k].lo..ts[k].hi]
  {
    hide Tokens, TokenEnd, SkipDelimiters, CString;
    var ts, z := Tokens(s, ds, 0, limit), CutPoint(s, ds, limit);
    TokensAreRuns(s, ds, 0, limit);
    assert Runs(s, ds, 0, ts) && IsRun(s, ds, ts[k]);
    if |ts| == limit && k < limit - 1 {
      assert ts[k].hi < ts[limit - 1].lo;
    }
    hide Runs, CutPoint;
    OneReadsBack(s, ds, z, ts[k], k == limit - 1);
  }

  lemma OneReadsBack(s: string, ds: string, z: nat, t: Token, last: bool)
    requires (forall j :: 0 <= j < |s| ==> s[j] != NUL) && IsRun(s, ds, t)
    requires if last then z == t.lo else z == |s| || t.hi < z <= |s|
    ensures CString(Cut(s, ds, z), t.lo) == if last then s[t.lo..] else s[t.lo..t.hi]
  {
    hide CString;
    var c, e := Cut(s, ds, z), if last then |s| else t.hi;
    CStringIs(c, t.lo, e);
    assert c[t.lo..e] == s[t.lo..e];
  }

  // The code

  /** str::find, as an index: the first occurrence, or none. */
  method Find(str: string, c: char) returns (i: int)
    ensures i == NIL <==> c !in str
    ensures i != NIL ==> 0 <= i < |str| && str[i] == c && c !in str[..i]
  {
    i := 0;
    while i < |str|
      invariant 0 <= i <= |str| && c !in str[..i]
    {
      if str[i] == c {
        return;
      }
      i := i + 1;
    }
    i := NIL;
  }

  /** The array holds the text s, cut up to position z, and its null character. */
  ghost predicate Holds(str: seq<char>, s: string, ds: string, z: nat) {
    |s| < |str| && str[..|s|] == Cut(s, ds, z) && str[|s|] == NUL
  }

  lemma HoldsAt(str: seq<char>, s: string, ds: string, z: nat, p: nat)
    requires Holds(str, s, ds, z) && p <= |s| && forall j :: 0 <= j < |s| ==> s[j] != NUL
    requires forall k :: z <= k <= p && k < |s| && k < p ==> s[k] !in ds
    ensures p < |s| && z <= p ==> str[p] == s[p] != NUL
    ensures p == |s| ==> str[p] == NUL
  {
    if p < |s| {
      assert str[p] == str[..|s|][p];
    }
  }

  /** Overwrite the delimiters from p on. */
  method SkipAndCut(str: array<char>, ghost s: string, ds: string, ghost z: nat, p: nat) returns (q: nat)
    requires Holds(str[..], s, ds, z) && z <= p <= |s| && forall j :: 0 <= j < |s| ==> s[j] != NUL
    requires forall k :: z <= k < p ==> s[k] !in ds
    modifies str
    ensures q == SkipDelimiters(s, ds, p) && Holds(str[..], s, ds, q) && str[|s|..] == old(str[|s|..])
  {
    q := p;
    CutFurther(s, ds, z, p);
    while true
      invariant p <= q <= |s| && SkipDelimiters(s, ds, p) == SkipDelimiters(s, ds, q)
      invariant Holds(str[..], s, ds, q) && str[|s|..] == old(str[|s|..])
      decreases |s| - q
    {
      HoldsAt(str[..], s, ds, q, q);
      if str[q] == NUL {
        break;
      }
      var i := Find(ds, str[q]);
      if i == NIL {
        break;
      }
      ghost var before := str[..];
      str[q] := NUL;
      assert str[..|s|] == Cut(s, ds, q + 1) by {
        assert forall j :: 0 <= j < |s| ==> before[j] == before[..|s|][j];
      }
      assert str[|s|..] == before[|s|..];
      q := q + 1;
    }
  }

  lemma CutFurther(s: string, ds: string, z: nat, p: nat)
    requires z <= p <= |s| && forall k :: z <= k < p ==> s[k] !in ds
    ensures Cut(s, ds, z) == Cut(s, ds, p)
  {
  }

  /** Find the end of the token at p. */
  method ScanToken(str: array<char>, ghost s: string, ds: string, p: nat) returns (q: nat)
    requires Holds(str[..], s, ds, p) && p <= |s| && forall j :: 0 <= j < |s| ==> s[j] != NUL
    ensures q == TokenEnd(s, ds, p)
  {
    q := p;
    while true
      invariant p <= q <= |s| && TokenEnd(s, ds, p) == TokenEnd(s, ds, q)
      invariant forall k :: p <= k < q ==> s[k] !in ds
      decreases |s| - q
    {
      HoldsAt(str[..], s, ds, p, q);
      if str[q] == NUL {
        break;
      }
      var i := Find(ds, str[q]);
      if i != NIL {
        break;
      }
      q := q + 1;
    }
  }

  /** Cut up to the next token and find its end; there may be none. */
  method NextRun(str: array<char>, ghost s: string, ds: string, ghost z: nat, p: nat)
    returns (more: bool, lo: nat, hi: nat)
    requires Holds(str[..], s, ds, z) && z <= p <= |s| && forall j :: 0 <= j < |s| ==> s[j] != NUL
    requires forall k :: z <= k < p ==> s[k] !in ds
    modifies str
    ensures lo == SkipDelimiters(s, ds, p) && Holds(str[..], s, ds, lo) && str[|s|..] == old(str[|s|..])
    ensures (more <==> lo < |s|) && (more ==> hi == TokenEnd(s, ds, lo))
  {
    hide SkipDelimiters, TokenEnd;
    lo := SkipAndCut(str, s, ds, z, p);
    hi := lo;
    HoldsAt(str[..], s, ds, lo, lo);
    more := str[lo] != NUL;
    if more {
      hi := ScanToken(str, s, ds, lo);
    }
  }

  /** One round of the outer loop, as a step of Tokens. */
  lemma NextToken(s: string, ds: string, p: nat, limit: nat)
    requires p <= |s| && limit > 0
    ensures var lo := SkipDelimiters(s, ds, p);
            && (lo == |s| ==> Tokens(s, ds, p, limit) == [])
            && (lo < |s| ==>
                  var hi := TokenEnd(s, ds, lo);
                  Tokens(s, ds, p, limit) == [Token(lo, hi)] + Tokens(s, ds, hi, limit - 1))
  {
  }

  /** The pointers that stand for the given tokens. */
  ghost predicate Points(buf: seq<int>, ts: seq<Token>) {
    |ts| <= |buf| && forall k :: 0 <= k < |ts| ==> buf[k] == ts[k].lo
  }

  /** Between two rounds: the tokens found so far, up to position p, and the text cut up to z. */
  ghost predicate Progress(s: string, ds: string, limit: nat, found: seq<Token>, z: nat, p: nat) {
    && |found| <= limit && z <= p <= |s| && (forall k :: z <= k < p ==> s[k] !in ds)
    && Tokens(s, ds, 0, limit) == found + Tokens(s, ds, p, limit - |found|)
    && z == if found == [] then 0 else found[|found| - 1].lo
  }

  /** A round of the loop finds the next token, or there is none left. */
  lemma {:induction false} NextRound(s: string, ds: string, limit: nat, found: seq<Token>, z: nat, p: nat)
    requires Progress(s, ds, limit, found, z, p) && |found| < limit
    ensures var lo := SkipDelimiters(s, ds, p);
            && (lo == |s| ==> Tokens(s, ds, 0, limit) == found && CutPoint(s, ds, limit) == |s|)
            && (lo < |s| ==> Progress(s, ds, limit, found + [Token(lo, TokenEnd(s, ds, lo))], lo, TokenEnd(s, ds, lo)))
  {
    hide Tokens, SkipDelimiters, TokenEnd;
    NextToken(s, ds, p, limit - |found|);
    var lo := SkipDelimiters(s, ds, p);
    if lo < |s| {
      var t, hi := Token(lo, TokenEnd(s, ds, lo)), TokenEnd(s, ds, lo);
      assert found + ([t] + Tokens(s, ds, hi, limit - |found| - 1))
          == found + [t] + Tokens(s, ds, hi, limit - |found| - 1);
    }
  }

  lemma {:induction false} LimitReached(s: string, ds: string, limit: nat, found: seq<Token>, z: nat, p: nat)
    requires Progress(s, ds, limit, found, z, p) && |found| == limit
    ensures Tokens(s, ds, 0, limit) == found && CutPoint(s, ds, limit) == z
  {
  }

  /** split: str holds the text s and a null character; buf receives the token pointers. */
  method Split(str: array<char>, ghost s: string, ds: string, buf: array<int>, bufCount: nat) returns (count: nat)
    requires 1 <= bufCount <= buf.Length && Holds(str[..], s, ds, 0) && forall j :: 0 <= j < |s| ==> s[j] != NUL
    modifies str, buf
    ensures var ts := Tokens(s, ds, 0, bufCount - 1); count == |ts| && Points(buf[..], ts) && buf[count] == NIL
    ensures Holds(str[..], s, ds, CutPoint(s, ds, bufCount - 1)) && str[|s|..] == old(str[|s|..])
  {
    assert |s| < str.Length;
    hide Tokens, SkipDelimiters, TokenEnd, Holds, Cut, Points, CutPoint;
    count := 0;
    var p: nat := 0;
    ghost var z: nat, found: seq<Token>, limit: nat := 0, [], bufCount - 1;
    NoPoints(buf[..]);
    while count < bufCount - 1
      invariant count == |found| && Progress(s, ds, limit, found, z, p) && Points(buf[..], found)
      invariant Holds(str[..], s, ds, z) && str[|s|..] == old(str[|s|..])
    {
      NextRound(s, ds, limit, found, z, p);
      var more, lo, hi := NextRun(str, s, ds, z, p);
      if !more {
        Finish(buf, count, found);
        return;
      }
      ghost var before := buf[..];
      buf[count] := lo;
      PointsMore(before, buf[..], found, Token(lo, hi));
      found, z := found + [Token(lo, hi)], lo;
      count := count + 1;
      p := hi;
    }
    LimitReached(s, ds, limit, found, z, p);
    Finish(buf, count, found);
  }

  /** The list of pointers ends with a null pointer. */
  method Finish(buf: array<int>, count: nat, ghost found: seq<Token>)
    requires count == |found| < buf.Length && Points(buf[..], found)
    modifies buf
    ensures Points(buf[..], found) && buf[count] == NIL
  {
    ghost var before := buf[..];
    buf[count] := NIL;
    PointsStay(before, buf[..], found);
  }

  lemma NoPoints(b: seq<int>)
    ensures Points(b, [])
  {
  }

  lemma PointsMore(b: seq<int>, b': seq<int>, ts: seq<Token>, t: Token)
    requires Points(b, ts) && |ts| < |b| && b' == b[|ts| := t.lo]
    ensures Points(b', ts + [t])
  {
  }

  lemma PointsStay(b: seq<int>, b': seq<int>, ts: seq<Token>)
    requires Points(b, ts) && |ts| < |b| && b' == b[|ts| := NIL]
    ensures Points(b', ts)
  {
  }
}
